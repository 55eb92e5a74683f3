/** The activity gate over time: when a train of pulses keeps it open. */
module PulseGate {
  import opened HubSpec
  import opened Publish

  /** Pulse times in the order in which they arrive; zero would read as "never". */
  ghost predicate Train(ps: seq<int>) {
    && ps != [] && ps[0] > 0
    && forall i, j :: 0 <= i < j < |ps| ==> ps[i] <= ps[j]
  }

  /** What the hub has recorded at a time: the latest pulse so far. */
  function Recorded(ps: seq<int>, now: int): int {
    if ps == [] then 0
    else if ps[|ps| - 1] <= now then ps[|ps| - 1]
    else Recorded(ps[..|ps| - 1], now)
  }

  ghost predicate OpenThroughout(ps: seq<int>, grace: nat)
    requires Train(ps)
  {
    forall now :: ps[0] <= now < ps[|ps| - 1] ==> GateOpen(Recorded(ps, now), grace, now)
  }

  lemma {:induction false} RecordedAt(ps: seq<int>, i: nat, now: int)
    requires Train(ps) && i < |ps| && ps[i] <= now && (i + 1 < |ps| ==> now < ps[i + 1])
    ensures Recorded(ps, now) == ps[i]
    decreases |ps|
  {
    if i + 1 < |ps| {
      assert now < ps[|ps| - 1];
      RecordedAt(ps[..|ps| - 1], i, now);
    }
  }

  lemma {:induction false} Between(ps: seq<int>, now: int) returns (i: nat)
    requires Train(ps) && ps[0] <= now < ps[|ps| - 1]
    ensures i + 1 < |ps| && ps[i] <= now < ps[i + 1]
    decreases |ps|
  {
    if ps[|ps| - 2] <= now {
      i := |ps| - 2;
    } else {
      i := Between(ps[..|ps| - 1], now);
    }
  }

  /** From the first pulse to the last the gate is open at every instant exactly when
      no two successive pulses are further apart than the grace period. */
  lemma OpenThroughoutIff(ps: seq<int>, grace: nat)
    requires Train(ps)
    ensures OpenThroughout(ps, grace) <==> forall i :: 0 < i < |ps| ==> ps[i] - ps[i - 1] <= grace
  {
    if forall i :: 0 < i < |ps| ==> ps[i] - ps[i - 1] <= grace {
      forall now | ps[0] <= now < ps[|ps| - 1]
        ensures GateOpen(Recorded(ps, now), grace, now)
      {
        var i := Between(ps, now);
        RecordedAt(ps, i, now);
        assert ps[i + 1] - ps[i + 1 - 1] <= grace;
        assert ps[0] <= ps[i];
      }
    } else {
      var i :| 0 < i < |ps| && ps[i] - ps[i - 1] > grace;
      var now := ps[i - 1] + grace;
      RecordedAt(ps, i - 1, now);
      assert ps[0] <= ps[i - 1] && ps[i] <= ps[|ps| - 1];
      assert !GateOpen(Recorded(ps, now), grace, now);
    }
  }

  /** A dashboard that pulses every `interval` loses one pulse on the way: the gate
      stays open exactly when the grace period covers two intervals. */
  lemma DroppedPulseIff(ps: seq<int>, lost: nat, interval: nat, grace: nat)
    requires Train(ps) && 0 < lost < |ps|
    requires forall i :: 0 < i < |ps| ==> ps[i] - ps[i - 1] == if i == lost then 2 * interval else interval
    ensures OpenThroughout(ps, grace) <==> 2 * interval <= grace
  {
    OpenThroughoutIff(ps, grace);
    assert ps[lost] - ps[lost - 1] == 2 * interval;
  }

  // ---- the gate is closed otherwise ---------------------------------------------

  lemma {:induction false} NothingRecorded(ps: seq<int>, now: int)
    requires forall i :: 0 <= i < |ps| ==> now < ps[i]
    ensures Recorded(ps, now) == 0
  {
    if ps != [] {
      NothingRecorded(ps[..|ps| - 1], now);
    }
  }

  /** Outside a train of pulses the gate is closed: at every instant before the first,
      and at every instant from the grace period after the last. */
  lemma ClosedOutside(ps: seq<int>, grace: nat, now: int)
    requires Train(ps) && (now < ps[0] || ps[|ps| - 1] + grace <= now)
    ensures !GateOpen(Recorded(ps, now), grace, now)
  {
    if now < ps[0] {
      forall i | 0 <= i < |ps|
        ensures now < ps[i]
      {
        assert ps[0] <= ps[i];
      }
      NothingRecorded(ps, now);
    }
  }

  /** And for the grace period after the last pulse it is open. */
  lemma OpenAfterLast(ps: seq<int>, grace: nat, now: int)
    requires Train(ps) && ps[|ps| - 1] <= now < ps[|ps| - 1] + grace
    ensures GateOpen(Recorded(ps, now), grace, now)
  {
    assert ps[0] <= ps[|ps| - 1];
  }

  // ---- the hub in use -----------------------------------------------------------

  /** The times of the pulses of a run. */
  function Pulses(acts: seq<Act>): seq<int> {
    if acts == [] then [] else (if acts[0].Pulse? then [acts[0].now] else []) + Pulses(acts[1..])
  }

  lemma {:induction false} RunRecords(w: World, acts: seq<Act>)
    ensures var ps := Pulses(acts);
            Run(w, acts).fan.lastPulse == if ps == [] then w.fan.lastPulse else ps[|ps| - 1]
    decreases |acts|
  {
    if acts != [] {
      StepRecords(w, acts[0]);
      RunRecords(Next(w, acts[0]), acts[1..]);
    }
  }

  lemma StepRecords(w: World, a: Act)
    ensures Next(w, a).fan.lastPulse == if a.Pulse? then a.now else w.fan.lastPulse
  {
  }

  /** A hub that was never pulsed authorises nothing, whoever attaches and whatever is
      sent; after that it is the last pulse that counts, and nothing else. */
  lemma GateAfterRun(acts: seq<Act>, grace: nat, now: int)
    requires forall k :: 0 <= k < |Pulses(acts)| ==> Pulses(acts)[k] != 0
    ensures var ps := Pulses(acts);
            GateOpen(Run(START, acts).fan.lastPulse, grace, now) <==> ps != [] && now < ps[|ps| - 1] + grace
  {
    RunRecords(START, acts);
  }
}
