/** The tracked-device view: what the dashboard says about one device. */
module Devices {
  import opened Prelude
  import opened Presence
  import opened Types
  import opened StateSpec

  /** liveUp: an ICMP reply or any open watchdog. */
  predicate LiveUp(part: LivePart) {
    || (part.icmp.Some? && part.icmp.value.st == Up)
    || exists i :: 0 <= i < |part.probes| && part.probes[i].st == Up
  }

  /** The SEEN column; Ago is rendered by FmtSeen. */
  datatype Shown = Now | Ago(sec: int) | Dash

  datatype SeenView = SeenView(seen: Shown, l2: bool, unseenSec: int)

  /** seenState, for a device whose view is built from its own live results. */
  function SeenState(d: Dev, now: int): SeenView {
    if LiveUp(d.live) then SeenView(Now, false, 0)
    else if d.pres.up > 0 then SeenView(Ago(now - d.pres.up), false, now - d.pres.up)
    else
      var unseen := now - d.cfg.attrs.createdAt;
      if |d.cfg.probes| == 0 && !d.pres.icmp
      then
        if d.arpSeen >= 0 then SeenView(Ago(d.arpSeen), true, unseen)
        else if d.pres.seen > 0 then SeenView(Ago(now - d.pres.seen), true, unseen)
        else SeenView(Dash, false, unseen)
      else SeenView(Dash, false, unseen)
  }

  /** seenState without its test of icmpSeen. */
  function SeenStateWithoutIcmp(d: Dev, now: int): SeenView {
    SeenState(d.(pres := d.pres.(icmp := false)), now)
  }

  /** The test of icmpSeen decides something exactly for a device that has answered
      ICMP, is down, was never up, has no watchdog, and has an L2 sighting to show. */
  lemma IcmpTestMattersIff(d: Dev, now: int)
    ensures SeenState(d, now) != SeenStateWithoutIcmp(d, now) <==>
            && d.pres.icmp && !LiveUp(d.live) && d.pres.up <= 0
            && |d.cfg.probes| == 0 && (d.arpSeen >= 0 || d.pres.seen > 0)
  {
  }

  /** applyProbes and the view decide liveness by two pieces of code; they agree. */
  lemma SignalIsLiveness(part: LivePart)
    ensures SignalOf(part) != NoSignal <==> LiveUp(part)
  {
  }

  /** What a neighbour snapshot cannot do: it never moves the time since a
      device was up, and changes what is shown only for a device of which nothing
      but presence is expected and which has never been up. */
  lemma PresenceIsNotLiveness(d: Dev, byMac: map<string, Entry>, mac: string, t: int, now: int)
    ensures var before, after := SeenState(d, now), SeenState(NeighDev(d, byMac, mac, t), now);
            && before.unseenSec == after.unseenSec
            && (before != after ==> !LiveUp(d.live) && d.pres.up <= 0 && !d.pres.icmp && |d.cfg.probes| == 0)
            && (after.l2 ==> !LiveUp(d.live) && d.pres.up <= 0 && !d.pres.icmp && |d.cfg.probes| == 0)
  {
  }

  /** A device that was up at one cycle and down at the next is shown as last seen at
      the first of the two, however it was sighted in between. */
  lemma LastUpIsShown(d: Dev, up: LivePart, t: int, byMac: map<string, Entry>, mac: string, t': int, down: LivePart, t'': int, now: int)
    requires SignalOf(up) != NoSignal && SignalOf(down) == NoSignal && t > 0
    ensures SeenState(ProbeDev(NeighDev(ProbeDev(d, up, t), byMac, mac, t'), down, t''), now) == SeenView(Ago(now - t), false, now - t)
  {
    SignalIsLiveness(down);
  }

  /** A device that only its presence is expected of and that was never up is shown with
      the age that the kernel gives, if it is in the snapshot and has one. */
  lemma PresenceShown(d: Dev, byMac: map<string, Entry>, mac: string, t: int, now: int)
    requires !LiveUp(d.live) && d.pres.up <= 0 && !d.pres.icmp && |d.cfg.probes| == 0
    requires mac in byMac && byMac[mac].seenSec >= 0
    ensures SeenState(NeighDev(d, byMac, mac, t), now) == SeenView(Ago(byMac[mac].seenSec), true, now - d.cfg.attrs.createdAt)
  {
  }

  /** Once it is gone from the snapshot, it is shown with the time since it was there. */
  lemma AbsenceShown(d: Dev, byMac: map<string, Entry>, mac: string, t: int, later: map<string, Entry>, t': int, now: int)
    requires !LiveUp(d.live) && d.pres.up <= 0 && !d.pres.icmp && |d.cfg.probes| == 0
    requires mac in byMac && mac !in later && t > 0 && d.pres.seen <= t
    ensures SeenState(NeighDev(NeighDev(d, byMac, mac, t), later, mac, t'), now) ==
            SeenView(Ago(now - t), true, now - d.cfg.attrs.createdAt)
  {
  }

  /** A device that liveness is expected of, by a watchdog or by an earlier ICMP answer,
      and that was never up, shows no sighting, however often it is present; and so does
      one that was never sighted at all. What is counted for it is the time since it was
      tracked. */
  lemma NothingShown(d: Dev, byMac: map<string, Entry>, mac: string, t: int, now: int)
    requires !LiveUp(d.live) && d.pres.up <= 0
    requires |d.cfg.probes| > 0 || d.pres.icmp || (d.arpSeen < 0 && d.pres.seen <= 0 && mac !in byMac)
    ensures SeenState(NeighDev(d, byMac, mac, t), now) == SeenView(Dash, false, now - d.cfg.attrs.createdAt)
  {
  }
}
