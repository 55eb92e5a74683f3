/** What each operation of the server's in-memory model does, as functions on its
    value. Each function is one critical section of the `state` mutex. */
module StateSpec {
  import opened Prelude
  import opened Presence
  import opened Types

  /** The fields of `state`. A MAC is in `obsDirty` when the source maps it to true. */
  datatype Mem = Mem(
    devs: map<string, Dev>,
    order: seq<string>,
    obs: map<string, Observed>,
    obsDirty: set<string>,
    obsFlushed: map<string, int>,
    ipMoves: map<string, string>,
    events: seq<SeenEvent>)

  const EMPTY := Mem(map[], [], map[], {}, map[], map[], [])

  /** Every device is filed under its own MAC and comes once in the render order. */
  ghost predicate InOrder(m: Mem) {
    Listing(m.order, m.devs.Keys) && forall mac :: mac in m.devs ==> m.devs[mac].cfg.mac == mac
  }

  /** The least number of seconds between two writes of an untracked host. */
  const WRITE_EVERY := 60

  // ---- Load -----------------------------------------------------------------

  /** What List returned: the rows it saw and the order it returned them in. */
  datatype Snapshot = Snapshot(order: seq<string>, rows: map<string, Device>)

  function LoadDev(devs: map<string, Dev>, d: Device): Dev {
    if d.mac in devs
    then devs[d.mac].(cfg := d, pres := Join(devs[d.mac].pres, d.pres))
    else Dev(d, d.pres, NO_LIVE, ArpDown, -1, NoVerdict, false)
  }

  function LoadMem(m: Mem, snap: Snapshot): Mem {
    m.(devs := map mac | mac in snap.rows :: LoadDev(m.devs, snap.rows[mac]), order := snap.order)
  }

  /** Seeding the untracked view from the stored rows; the newer sighting wins. */
  function LoadedHosts(obs: map<string, Observed>, stored: map<string, Observed>): map<string, Observed> {
    obs + map mac | mac in stored && (mac in obs ==> stored[mac].lastSeen > obs[mac].lastSeen) :: stored[mac]
  }

  function LoadObservedMem(m: Mem, stored: map<string, Observed>): Mem {
    m.(obs := LoadedHosts(m.obs, stored))
  }

  // ---- applyNeigh -----------------------------------------------------------

  predicate Moved(ds: Dev, byMac: map<string, Entry>, mac: string) {
    mac in byMac && byMac[mac].ip != "" && byMac[mac].ip != ds.cfg.ip
  }

  function NeighDev(ds: Dev, byMac: map<string, Entry>, mac: string, now: int): Dev {
    if mac !in byMac then ds.(arp := ArpDown, arpSeen := -1)
    else
      var e := byMac[mac];
      ds.(arp := e.state,
          arpSeen := e.seenSec,
          pres := ds.pres.(seen := Max(ds.pres.seen, now)),
          dirty := ds.dirty || now > ds.pres.seen,
          cfg := if Moved(ds, byMac, mac) then ds.cfg.(ip := e.ip) else ds.cfg)
  }

  function NeighDevs(devs: map<string, Dev>, byMac: map<string, Entry>, now: int): map<string, Dev> {
    map mac | mac in devs :: NeighDev(devs[mac], byMac, mac, now)
  }

  function NeighMoves(devs: map<string, Dev>, byMac: map<string, Entry>): map<string, string> {
    map mac | mac in devs && Moved(devs[mac], byMac, mac) :: byMac[mac].ip
  }

  function NeighMem(m: Mem, byMac: map<string, Entry>, now: int): Mem {
    m.(devs := NeighDevs(m.devs, byMac, now), ipMoves := m.ipMoves + NeighMoves(m.devs, byMac))
  }

  // ---- applyProbes ----------------------------------------------------------

  function SignalOf(part: LivePart): Signal {
    if part.icmp.Some? && part.icmp.value.st == Up then Icmp
    else if exists i :: 0 <= i < |part.probes| && part.probes[i].st == Up then Tcp
    else NoSignal
  }

  function StOf(sig: Signal): St {
    if sig == NoSignal then Down else Up
  }

  function ProbeDev(ds: Dev, part: LivePart, now: int): Dev {
    var sig := SignalOf(part);
    ds.(live := part,
        pres := if sig == NoSignal then ds.pres else Scal(ds.pres.icmp || sig == Icmp, now, now),
        dirty := ds.dirty || sig != NoSignal,
        status := Said(StOf(sig)))
  }

  function Transition(mac: string, status: Verdict, sig: Signal, now: int): seq<SeenEvent> {
    if status.Said? && status.st != StOf(sig) then [SeenEvent(mac, now, StOf(sig), sig)] else []
  }

  /** The transition rows appended when the results are visited in `order`. */
  function ProbeEvents(devs: map<string, Dev>, results: map<string, LivePart>, now: int, order: seq<string>): seq<SeenEvent> {
    if order == [] then []
    else
      var mac := order[|order| - 1];
      ProbeEvents(devs, results, now, order[..|order| - 1]) +
      if mac in devs && mac in results then Transition(mac, devs[mac].status, SignalOf(results[mac]), now) else []
  }

  function ProbeDevs(devs: map<string, Dev>, results: map<string, LivePart>, now: int): map<string, Dev> {
    map mac | mac in devs :: if mac in results then ProbeDev(devs[mac], results[mac], now) else devs[mac]
  }

  function ProbeMem(m: Mem, results: map<string, LivePart>, now: int, order: seq<string>): Mem {
    m.(devs := ProbeDevs(m.devs, results, now),
       events := m.events + ProbeEvents(m.devs, results, now, order))
  }

  function ClearMem(m: Mem): Mem {
    m.(devs := map mac | mac in m.devs :: m.devs[mac].(live := NO_LIVE, status := NoVerdict))
  }

  // ---- untracked hosts ------------------------------------------------------

  function FlushedAt(m: Mem, mac: string): int {
    if mac in m.obsFlushed then m.obsFlushed[mac] else 0
  }

  function TouchMem(m: Mem, mac: string, ip: string, name: string, now: int): Mem {
    var kept := if mac in m.obs then m.obs[mac].name else "";
    m.(obs := m.obs[mac := Observed(mac, ip, if name != "" then name else kept, now)],
       obsDirty := if now - FlushedAt(m, mac) >= WRITE_EVERY then m.obsDirty + {mac} else m.obsDirty)
  }

  function DropHosts(m: Mem, macs: set<string>): Mem {
    m.(obs := m.obs - macs, obsDirty := m.obsDirty - macs, obsFlushed := m.obsFlushed - macs)
  }

  function Stale(obs: map<string, Observed>, before: int): set<string> {
    set mac | mac in obs && obs[mac].lastSeen < before
  }

  // ---- drain and restore ----------------------------------------------------

  /** The scalar rows collected when the devices are visited in `order`. */
  function DirtyRows(devs: map<string, Dev>, order: seq<string>): seq<SeenUpdate> {
    if order == [] then []
    else
      var mac := order[|order| - 1];
      DirtyRows(devs, order[..|order| - 1]) +
      if mac in devs && devs[mac].dirty then [SeenUpdate(mac, devs[mac].pres)] else []
  }

  function DirtyHosts(obs: map<string, Observed>, order: seq<string>): seq<Observed> {
    if order == [] then []
    else
      var mac := order[|order| - 1];
      DirtyHosts(obs, order[..|order| - 1]) + if mac in obs then [obs[mac]] else []
  }

  function MoveRows(moves: map<string, string>, order: seq<string>): seq<IpMove> {
    if order == [] then []
    else
      var mac := order[|order| - 1];
      MoveRows(moves, order[..|order| - 1]) + if mac in moves then [IpMove(mac, moves[mac])] else []
  }

  /** The orders in which one drain happened to visit the three maps. */
  datatype DrainOrder = DrainOrder(devs: seq<string>, obs: seq<string>, moves: seq<string>)

  ghost predicate DrainOrderOf(o: DrainOrder, m: Mem) {
    Listing(o.devs, m.devs.Keys) && Listing(o.obs, m.obsDirty) && Listing(o.moves, m.ipMoves.Keys)
  }

  function DrainBatch(m: Mem, o: DrainOrder): Batch {
    Batch(DirtyRows(m.devs, o.devs), m.events, DirtyHosts(m.obs, o.obs), MoveRows(m.ipMoves, o.moves))
  }

  function DrainMem(m: Mem): Mem {
    m.(devs := map mac | mac in m.devs :: m.devs[mac].(dirty := false),
       obsFlushed := m.obsFlushed + map mac | mac in m.obsDirty && mac in m.obs :: m.obs[mac].lastSeen,
       obsDirty := {},
       ipMoves := map[],
       events := [])
  }

  predicate HasSeen(seen: seq<SeenUpdate>, mac: string) {
    exists i :: 0 <= i < |seen| && seen[i].mac == mac
  }

  predicate HasHost(obs: seq<Observed>, mac: string) {
    exists i :: 0 <= i < |obs| && obs[i].mac == mac
  }

  /** Re-queueing failed moves: a move noted since the drain is newer and stays. */
  function RestoreMoves(pending: map<string, string>, moves: seq<IpMove>): map<string, string> {
    if moves == [] then pending
    else
      var acc := RestoreMoves(pending, moves[..|moves| - 1]);
      var m := moves[|moves| - 1];
      if m.mac in acc then acc else acc[m.mac := m.ip]
  }

  function RestoreMem(m: Mem, b: Batch): Mem {
    m.(devs := map mac | mac in m.devs :: if HasSeen(b.seen, mac) then m.devs[mac].(dirty := true) else m.devs[mac],
       obsDirty := m.obsDirty + (set mac | mac in m.obs && HasHost(b.obs, mac)),
       ipMoves := RestoreMoves(m.ipMoves, b.moves),
       events := b.events + m.events)
  }
}
