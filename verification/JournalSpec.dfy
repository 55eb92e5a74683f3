/** What each operation of the SQLite journal does, as functions on its tables.
    A table is a map or a sequence; each function is one committed statement or
    transaction. */
module JournalSpec {
  import opened Prelude
  import opened Presence
  import opened Types
  import MacText

  /** One row of the pre-v1 sample log, seen_history. */
  datatype LogRow = LogRow(mac: string, ts: int, signal: LogSignal)
  datatype LogSignal = LogIcmp | LogTcp | LogArp

  /** `legacy` is None once the seen_history table has been dropped. */
  datatype Journal = Journal(
    rows: map<string, Device>,
    events: seq<SeenEvent>,
    observed: map<string, Observed>,
    legacy: Option<seq<LogRow>>)

  // ---- Flush ----------------------------------------------------------------

  function UpdateRow(rows: map<string, Device>, mac: string, v: Scal): map<string, Device> {
    if mac in rows then rows[mac := rows[mac].(pres := Join(rows[mac].pres, v))] else rows
  }

  function FlushSeen(rows: map<string, Device>, seen: seq<SeenUpdate>): map<string, Device> {
    if seen == [] then rows
    else
      var u := seen[|seen| - 1];
      UpdateRow(FlushSeen(rows, seen[..|seen| - 1]), u.mac, u.pres)
  }

  function MoveRow(rows: map<string, Device>, m: IpMove): map<string, Device> {
    if m.ip != "" && m.mac in rows then rows[m.mac := rows[m.mac].(ip := m.ip)] else rows
  }

  function FlushMoves(rows: map<string, Device>, moves: seq<IpMove>): map<string, Device> {
    if moves == [] then rows else MoveRow(FlushMoves(rows, moves[..|moves| - 1]), moves[|moves| - 1])
  }

  function UpsertHost(observed: map<string, Observed>, o: Observed): map<string, Observed> {
    if o.mac !in observed then observed[o.mac := o]
    else
      var was := observed[o.mac];
      observed[o.mac := Observed(o.mac, o.ip, if o.name != "" then o.name else was.name, Max(was.lastSeen, o.lastSeen))]
  }

  function FlushHosts(observed: map<string, Observed>, obs: seq<Observed>): map<string, Observed> {
    if obs == [] then observed else UpsertHost(FlushHosts(observed, obs[..|obs| - 1]), obs[|obs| - 1])
  }

  /** Flush normalises every MAC it is given. */
  function NormBatch(b: Batch): Batch {
    Batch(NormSeen(b.seen), NormEvents(b.events), NormHosts(b.obs), NormMoves(b.moves))
  }

  function NormSeen(seen: seq<SeenUpdate>): seq<SeenUpdate> {
    seq(|seen|, i requires 0 <= i < |seen| => seen[i].(mac := MacText.NormMAC(seen[i].mac)))
  }

  function NormEvents(events: seq<SeenEvent>): seq<SeenEvent> {
    seq(|events|, i requires 0 <= i < |events| => events[i].(mac := MacText.NormMAC(events[i].mac)))
  }

  function NormHosts(obs: seq<Observed>): seq<Observed> {
    seq(|obs|, i requires 0 <= i < |obs| => obs[i].(mac := MacText.NormMAC(obs[i].mac)))
  }

  function NormMoves(moves: seq<IpMove>): seq<IpMove> {
    seq(|moves|, i requires 0 <= i < |moves| => moves[i].(mac := MacText.NormMAC(moves[i].mac)))
  }

  /** The effect of a committed batch whose MACs are already normalised. */
  function Apply(j: Journal, b: Batch): Journal {
    j.(rows := FlushMoves(FlushSeen(j.rows, b.seen), b.moves),
       events := j.events + b.events,
       observed := FlushHosts(j.observed, b.obs))
  }

  function Commit(j: Journal, b: Batch): Journal {
    Apply(j, NormBatch(b))
  }

  // ---- configuration --------------------------------------------------------

  /** What List returns: a device whose probes cannot be read is listed without. */
  function Listed(rows: map<string, Device>, lost: set<string>): map<string, Device> {
    map mac | mac in rows :: if mac in lost then rows[mac].(probes := []) else rows[mac]
  }

  lemma NothingLost(rows: map<string, Device>)
    ensures Listed(rows, {}) == rows
  {
  }

  /** Add: an unknown MAC gets a row that was never seen; a known one gets the new
      address, and the new name if it has none. */
  function AddRow(rows: map<string, Device>, d: Device): map<string, Device> {
    var mac := MacText.NormMAC(d.mac);
    var name := if d.name == "" then d.ip else d.name;
    if mac == "" then rows
    else if mac in rows
    then rows[mac := rows[mac].(ip := d.ip, name := if rows[mac].name == "" then name else rows[mac].name)]
    else rows[mac := Device(mac, d.ip, name, d.attrs, [], NEVER)]
  }

  datatype Patch = Patch(
    ip: Option<string>, name: Option<string>, nameSource: Option<string>, vendor: Option<string>, link: Option<string>,
    notes: Option<string>, probes: Option<seq<int>>)

  function Or<T>(o: Option<T>, stored: T): T {
    if o.Some? then o.value else stored
  }

  function Patched(d: Device, p: Patch): Device {
    var attrs := Attrs(Or(p.nameSource, d.attrs.nameSource), Or(p.vendor, d.attrs.vendor), Or(p.link, d.attrs.link),
                       Or(p.notes, d.attrs.notes), d.attrs.createdAt);
    Device(d.mac, Or(p.ip, d.ip), Or(p.name, d.name), attrs, Or(p.probes, d.probes), d.pres)
  }

  /** Patch, AddProbe and DeleteProbe: configuration only. */
  function PatchRow(rows: map<string, Device>, m: string, p: Patch): map<string, Device> {
    var mac := MacText.NormMAC(m);
    if mac in rows then rows[mac := Patched(rows[mac], p)] else rows
  }

  function WithoutMac(events: seq<SeenEvent>, mac: string): seq<SeenEvent> {
    if events == [] then []
    else
      var e := events[|events| - 1];
      WithoutMac(events[..|events| - 1], mac) + if e.mac != mac then [e] else []
  }

  function Since(events: seq<SeenEvent>, before: int): seq<SeenEvent> {
    if events == [] then []
    else
      var e := events[|events| - 1];
      Since(events[..|events| - 1], before) + if e.ts >= before then [e] else []
  }

  /** The three statements of Delete, of which only the first `done` take effect:
      the probes of the device, its events, its row. */
  function DeleteDevice(j: Journal, m: string, done: nat): Journal {
    var mac := MacText.NormMAC(m);
    var bare := if mac in j.rows && done >= 1 then j.rows[mac := j.rows[mac].(probes := [])] else j.rows;
    j.(rows := if done >= 3 then j.rows - {mac} else bare,
       events := if done >= 2 then WithoutMac(j.events, mac) else j.events)
  }

  function PruneHosts(observed: map<string, Observed>, before: int): map<string, Observed> {
    map mac | mac in observed && observed[mac].lastSeen >= before :: observed[mac]
  }

  // ---- the legacy log -------------------------------------------------------

  predicate UpSignal(s: LogSignal) {
    s == LogIcmp || s == LogTcp
  }

  predicate LoggedIcmp(log: seq<LogRow>, mac: string) {
    exists i :: 0 <= i < |log| && log[i].mac == mac && log[i].signal == LogIcmp
  }

  /** The newest timestamp of the device's rows, of its up rows only if asked;
      None when there is none. */
  function Newest(log: seq<LogRow>, mac: string, upOnly: bool): Option<int> {
    if log == [] then None
    else
      var r := log[|log| - 1];
      var rest := Newest(log[..|log| - 1], mac, upOnly);
      if r.mac == mac && (upOnly ==> UpSignal(r.signal))
      then Some(if rest.Some? then Max(rest.value, r.ts) else r.ts) else rest
  }

  /** Scanning no row leaves the Go variable at zero. */
  function OrZero(o: Option<int>): int {
    if o.Some? then o.value else 0
  }

  /** Everything that the log says about one device. */
  function Aggregate(log: seq<LogRow>, mac: string): Scal {
    Scal(LoggedIcmp(log, mac), OrZero(Newest(log, mac, true)), OrZero(Newest(log, mac, false)))
  }

  /** Which of the three look-ups of one backfill step worked. Their errors are
      discarded, and a failed look-up reads as "nothing found". */
  datatype Lookups = Lookups(icmp: bool, up: bool, any: bool)

  const ALL_WORK := Lookups(true, true, true)

  function Found(log: seq<LogRow>, mac: string, q: Lookups): Scal {
    var a := Aggregate(log, mac);
    Scal(q.icmp && a.icmp, if q.up then a.up else 0, if q.any then a.seen else 0)
  }

  /** Once the table is gone every look-up fails. */
  function FoundIn(legacy: Option<seq<LogRow>>, mac: string, q: Lookups): Scal {
    if legacy.Some? then Found(legacy.value, mac, q) else NEVER
  }

  function BackfillOne(j: Journal, mac: string, q: Lookups): Journal {
    j.(rows := UpdateRow(j.rows, mac, FoundIn(j.legacy, mac, q)))
  }

  // ---- what a batch contributes to one device -------------------------------

  /** The scalars that a row ends with when `seen` is applied to it. */
  function Joined(v: Scal, seen: seq<SeenUpdate>, mac: string): Scal {
    if seen == [] then v
    else
      var rest := Joined(v, seen[..|seen| - 1], mac);
      var u := seen[|seen| - 1];
      if u.mac == mac then Join(rest, u.pres) else rest
  }

  /** The address that a row ends with when `moves` is applied to it. */
  function Overlaid(ip: string, moves: seq<IpMove>, mac: string): string {
    if moves == [] then ip
    else
      var m := moves[|moves| - 1];
      if m.mac == mac && m.ip != "" then m.ip else Overlaid(ip, moves[..|moves| - 1], mac)
  }

  lemma {:induction false} FlushSeenAt(rows: map<string, Device>, seen: seq<SeenUpdate>)
    ensures FlushSeen(rows, seen).Keys == rows.Keys
    ensures forall mac :: mac in rows ==> FlushSeen(rows, seen)[mac] == rows[mac].(pres := Joined(rows[mac].pres, seen, mac))
  {
    if seen != [] {
      FlushSeenAt(rows, seen[..|seen| - 1]);
    }
  }

  lemma {:induction false} FlushMovesAt(rows: map<string, Device>, moves: seq<IpMove>)
    ensures FlushMoves(rows, moves).Keys == rows.Keys
    ensures forall mac :: mac in rows ==> FlushMoves(rows, moves)[mac] == rows[mac].(ip := Overlaid(rows[mac].ip, moves, mac))
  {
    if moves != [] {
      FlushMovesAt(rows, moves[..|moves| - 1]);
    }
  }

  /** Row by row, a batch joins its scalars into the row and overlays its moves on
      the address, whatever order its updates are in, and touches nothing else. */
  lemma ApplyAt(j: Journal, b: Batch)
    ensures Apply(j, b).rows.Keys == j.rows.Keys
    ensures forall mac :: mac in j.rows ==>
              Apply(j, b).rows[mac] ==
              j.rows[mac].(pres := Joined(j.rows[mac].pres, b.seen, mac), ip := Overlaid(j.rows[mac].ip, b.moves, mac))
  {
    FlushSeenAt(j.rows, b.seen);
    FlushMovesAt(FlushSeen(j.rows, b.seen), b.moves);
  }

  /** Joined is the least value above the row and above every update for it. */
  lemma {:induction false} JoinedIsLeast(v: Scal, seen: seq<SeenUpdate>, mac: string, c: Scal)
    ensures Le(Joined(v, seen, mac), c) <==> Le(v, c) && forall i :: 0 <= i < |seen| && seen[i].mac == mac ==> Le(seen[i].pres, c)
  {
    if seen != [] {
      var n := |seen| - 1;
      JoinedIsLeast(v, seen[..n], mac, c);
      assert forall i :: 0 <= i < n ==> seen[..n][i] == seen[i];
    }
  }

  /** A batch adds to a row the same thing whatever the row holds. */
  lemma {:induction false} JoinedCommutes(v: Scal, w: Scal, seen: seq<SeenUpdate>, mac: string)
    ensures Joined(Join(v, w), seen, mac) == Join(Joined(v, seen, mac), w)
  {
    if seen != [] {
      JoinedCommutes(v, w, seen[..|seen| - 1], mac);
    }
  }

  /** A batch never moves a remembered host's sighting backwards and never blanks a
      name that was learned; only a later name replaces it. */
  lemma {:induction false} HostRowsForward(observed: map<string, Observed>, obs: seq<Observed>, mac: string)
    requires mac in observed
    ensures var after := FlushHosts(observed, obs);
            && mac in after && observed[mac].lastSeen <= after[mac].lastSeen
            && (observed[mac].name != "" ==> after[mac].name != "")
            && ((forall i :: 0 <= i < |obs| && obs[i].mac == mac ==> obs[i].name == "") ==> after[mac].name == observed[mac].name)
  {
    if obs != [] {
      var rest := obs[..|obs| - 1];
      assert forall i :: 0 <= i < |rest| ==> rest[i] == obs[i];
      HostRowsForward(observed, rest, mac);
    }
  }

  lemma {:induction false} JoinedUntouched(v: Scal, seen: seq<SeenUpdate>, mac: string)
    requires forall i :: 0 <= i < |seen| ==> seen[i].mac != mac
    ensures Joined(v, seen, mac) == v
  {
    if seen != [] {
      JoinedUntouched(v, seen[..|seen| - 1], mac);
    }
  }

  // ---- normalised batches ---------------------------------------------------

  ghost predicate CanonBatch(b: Batch) {
    && (forall i :: 0 <= i < |b.seen| ==> MacText.Canonical(b.seen[i].mac))
    && (forall i :: 0 <= i < |b.events| ==> MacText.Canonical(b.events[i].mac))
    && (forall i :: 0 <= i < |b.obs| ==> MacText.Canonical(b.obs[i].mac))
    && (forall i :: 0 <= i < |b.moves| ==> MacText.Canonical(b.moves[i].mac))
  }

  lemma CanonBatchIsFixed(b: Batch)
    requires CanonBatch(b)
    ensures NormBatch(b) == b
  {
    assert NormBatch(b).seen == b.seen;
    assert NormBatch(b).events == b.events;
    assert NormBatch(b).obs == b.obs;
    assert NormBatch(b).moves == b.moves;
  }
}
