/** The background collapse of the pre-v1 log into the device rows: it can be
    interrupted anywhere and repeated, it commutes with live flushes, and the log
    is gone only once every listed device has its share. */
module Backfill {
  import opened Prelude
  import opened Presence
  import opened Types
  import opened JournalSpec
  import opened Engine
  import opened WriteBehind
  import opened LegacyLog
  import MacText

  /** One attempt: the MACs it listed at its start and how many it has done. */
  datatype Attempt = Attempt(listed: seq<string>, done: nat)

  /** `finished` is the listing of the attempt that dropped the log. */
  datatype Collapse = Collapse(j: Journal, attempt: Option<Attempt>, finished: Option<seq<string>>)

  /** The lock is taken per device, so flushes of any batch and any handler's
      statement fall between any two devices. */
  datatype Move =
    | Live(b: Batch)
    | Other(a: Admin)
    | Start(order: seq<string>)
    | FoldNext(q: Lookups)
    | Interrupt
    | Drop

  ghost predicate CanMove(c: Collapse, m: Move) {
    match m
    case Live(_) => true
    case Other(a) => !a.Backfill? && !a.DropLog?
    case Start(order) => c.attempt.None? && c.j.legacy.Some? && Listing(order, c.j.rows.Keys)
    case FoldNext(_) => c.attempt.Some? && c.attempt.value.done < |c.attempt.value.listed|
    case Interrupt => true
    case Drop => c.attempt.Some? && c.attempt.value.done == |c.attempt.value.listed|
  }

  function Step(c: Collapse, m: Move): Collapse {
    match m
    case Live(b) => c.(j := Commit(c.j, b))
    case Other(a) => c.(j := ManageJournal(c.j, a))
    case Start(order) => c.(attempt := Some(Attempt(order, 0)))
    case FoldNext(q) =>
      if c.attempt.Some? && c.attempt.value.done < |c.attempt.value.listed|
      then
        var at := c.attempt.value;
        c.(j := BackfillOne(c.j, at.listed[at.done], q), attempt := Some(at.(done := at.done + 1)))
      else c
    case Interrupt => c.(attempt := None)
    case Drop =>
      if c.attempt.Some?
      then Collapse(c.j.(legacy := None), None, Some(c.attempt.value.listed))
      else c
  }

  ghost predicate Moves(c: Collapse, ms: seq<Move>)
    decreases |ms|
  {
    ms == [] || (CanMove(c, ms[0]) && Moves(Step(c, ms[0]), ms[1..]))
  }

  function After(c: Collapse, ms: seq<Move>): Collapse
    decreases |ms|
  {
    if ms == [] then c else After(Step(c, ms[0]), ms[1..])
  }

  /** What one move adds to the row by a flush. */
  function LiveOf(v: Scal, m: Move, mac: string): Scal {
    if m.Live? then Joined(v, NormBatch(m.b).seen, mac) else v
  }

  /** What the flushes alone would have made of the row. */
  function Flushed(v: Scal, ms: seq<Move>, mac: string): Scal
    decreases |ms|
  {
    if ms == [] then v else Flushed(LiveOf(v, ms[0], mac), ms[1..], mac)
  }

  /** The look-ups of the steps, in order, that folded the device in. */
  function Looks(c: Collapse, ms: seq<Move>, mac: string): seq<Lookups>
    decreases |ms|
  {
    if ms == [] then [] else LookOf(c, ms[0], mac) + Looks(Step(c, ms[0]), ms[1..], mac)
  }

  function LookOf(c: Collapse, m: Move, mac: string): seq<Lookups> {
    if m.FoldNext? && c.attempt.Some? && c.attempt.value.done < |c.attempt.value.listed|
       && c.attempt.value.listed[c.attempt.value.done] == mac
    then [m.q] else []
  }

  /** The look-ups that worked at least once. */
  function Union(looks: seq<Lookups>): Lookups {
    if looks == [] then Lookups(false, false, false)
    else
      var u, q := Union(looks[..|looks| - 1]), looks[|looks| - 1];
      Lookups(u.icmp || q.icmp, u.up || q.up, u.any || q.any)
  }

  predicate Keeps(m: Move, mac: string) {
    m.Other? ==> !Untracks(Manage(m.a), mac)
  }

  /** `live` is the row as the flushes alone would have it, `log` the legacy log, and
      `looks` what was looked up for the device so far. The columns start at zero. */
  ghost predicate CollapseInv(c: Collapse, log: seq<LogRow>, live: Scal, looks: seq<Lookups>, mac: string) {
    && mac in c.j.rows && Le(NEVER, live)
    && c.j.rows[mac].pres == Join(live, Found(log, mac, Union(looks)))
    && (c.finished.None? ==> c.j.legacy == Some(log))
    && (c.finished.Some? ==> c.j.legacy == None && c.attempt.None?)
    && (c.finished.Some? && mac in c.finished.value ==> looks != [])
    && (c.attempt.Some? ==>
          && c.attempt.value.done <= |c.attempt.value.listed|
          && (mac in c.attempt.value.listed[..c.attempt.value.done] ==> looks != []))
  }

  lemma LiveMove(c: Collapse, log: seq<LogRow>, live: Scal, looks: seq<Lookups>, b: Batch, mac: string)
    requires CollapseInv(c, log, live, looks, mac)
    ensures CollapseInv(Step(c, Live(b)), log, Joined(live, NormBatch(b).seen, mac), looks, mac)
  {
    ApplyAt(c.j, NormBatch(b));
    JoinedCommutes(live, Found(log, mac, Union(looks)), NormBatch(b).seen, mac);
    var after := Joined(live, NormBatch(b).seen, mac);
    JoinedIsLeast(live, NormBatch(b).seen, mac, after);
  }

  lemma FoldMove(c: Collapse, log: seq<LogRow>, live: Scal, looks: seq<Lookups>, q: Lookups, mac: string)
    requires CollapseInv(c, log, live, looks, mac) && CanMove(c, FoldNext(q))
    ensures CollapseInv(Step(c, FoldNext(q)), log, live, looks + LookOf(c, FoldNext(q), mac), mac)
  {
    var at := c.attempt.value;
    assert at.listed[..at.done + 1] == at.listed[..at.done] + [at.listed[at.done]];
    if at.listed[at.done] == mac {
      assert (looks + [q])[..|looks|] == looks;
    } else {
      assert looks + [] == looks;
    }
  }

  lemma OtherMove(c: Collapse, log: seq<LogRow>, live: Scal, looks: seq<Lookups>, a: Admin, mac: string)
    requires CollapseInv(c, log, live, looks, mac) && CanMove(c, Other(a)) && Keeps(Other(a), mac)
    ensures CollapseInv(Step(c, Other(a)), log, live, looks, mac)
  {
    ManageRow(c.j, a, mac);
  }

  lemma EachMove(c: Collapse, log: seq<LogRow>, live: Scal, looks: seq<Lookups>, m: Move, mac: string)
    requires CollapseInv(c, log, live, looks, mac) && CanMove(c, m) && Keeps(m, mac)
    ensures CollapseInv(Step(c, m), log, LiveOf(live, m, mac), looks + LookOf(c, m, mac), mac)
  {
    assert looks + [] == looks;
    match m
    case Live(b) => LiveMove(c, log, live, looks, b, mac);
    case Other(a) => OtherMove(c, log, live, looks, a, mac);
    case FoldNext(q) => FoldMove(c, log, live, looks, q, mac);
    case Drop => assert c.attempt.value.listed[..c.attempt.value.done] == c.attempt.value.listed;
    case _ =>
  }

  /** Any number of attempts, interrupted or complete, with any look-ups failing, in
      any interleaving with flushes of any batches and with the handlers: at every
      moment a row is exactly the join of what was flushed for it and of what the
      look-ups that have worked found; nothing is counted twice or lost. */
  lemma {:induction false} CollapseExact(c: Collapse, ms: seq<Move>, log: seq<LogRow>, live: Scal, looks: seq<Lookups>, mac: string)
    requires CollapseInv(c, log, live, looks, mac) && Moves(c, ms)
    requires forall i :: 0 <= i < |ms| ==> Keeps(ms[i], mac)
    ensures CollapseInv(After(c, ms), log, Flushed(live, ms, mac), looks + Looks(c, ms, mac), mac)
    decreases |ms|
  {
    if ms == [] {
      assert looks + [] == looks;
    } else {
      var next, now := Step(c, ms[0]), LookOf(c, ms[0], mac);
      assert Keeps(ms[0], mac);
      assert forall i :: 0 <= i < |ms| - 1 ==> ms[1..][i] == ms[i + 1];
      EachMove(c, log, live, looks, ms[0], mac);
      CollapseExact(next, ms[1..], log, LiveOf(live, ms[0], mac), looks + now, mac);
      LooksAssoc(looks, now, Looks(next, ms[1..], mac));
    }
  }

  lemma LooksAssoc(a: seq<Lookups>, b: seq<Lookups>, c: seq<Lookups>)
    ensures (a + b) + c == a + (b + c)
  {
  }

  lemma {:induction false} UnionOfAll(looks: seq<Lookups>, i: nat)
    requires i < |looks| && looks[i] == ALL_WORK
    ensures Union(looks) == ALL_WORK
  {
    if i < |looks| - 1 {
      UnionOfAll(looks[..|looks| - 1], i);
    }
  }

  /** From a journal that still has its log: the log is gone exactly when an attempt
      was complete; a device which that attempt listed has been looked up; and as soon
      as its look-ups have all worked once, be it in that attempt or in an earlier,
      interrupted one, its row has everything. */
  lemma CollapseFromStart(j: Journal, ms: seq<Move>, log: seq<LogRow>, mac: string)
    requires mac in j.rows && j.legacy == Some(log) && Le(NEVER, j.rows[mac].pres)
    requires Moves(Collapse(j, None, None), ms) && forall i :: 0 <= i < |ms| ==> Keeps(ms[i], mac)
    ensures var end, looks := After(Collapse(j, None, None), ms), Looks(Collapse(j, None, None), ms, mac);
            && mac in end.j.rows
            && (end.j.legacy.None? <==> end.finished.Some?)
            && (end.finished.Some? && mac in end.finished.value ==> looks != [])
            && end.j.rows[mac].pres == Join(Flushed(j.rows[mac].pres, ms, mac), Found(log, mac, Union(looks)))
            && (ALL_WORK in looks ==>
                  end.j.rows[mac].pres == Join(Flushed(j.rows[mac].pres, ms, mac), Aggregate(log, mac))
                  && AddsTheLog(end.j.rows[mac].pres, Flushed(j.rows[mac].pres, ms, mac), log, mac))
  {
    var c := Collapse(j, None, None);
    CollapseExact(c, ms, log, j.rows[mac].pres, [], mac);
    var looks := Looks(c, ms, mac);
    assert [] + looks == looks;
    if i :| 0 <= i < |looks| && looks[i] == ALL_WORK {
      UnionOfAll(looks, i);
      WholeLog(Flushed(j.rows[mac].pres, ms, mac), log, mac);
    }
  }

  /** The scalars are what was flushed together with the rows of the log: an ICMP
      answer if there was one or an ICMP row, and the latest of the flushed times and
      of the rows that count. */
  ghost predicate AddsTheLog(pres: Scal, live: Scal, log: seq<LogRow>, mac: string) {
    && (pres.icmp <==> live.icmp || exists i :: 0 <= i < |log| && log[i].mac == mac && log[i].signal == LogIcmp)
    && (forall t: nat :: pres.up <= t <==> live.up <= t && RowsUntil(log, mac, true, t))
    && (forall t: nat :: pres.seen <= t <==> live.seen <= t && RowsUntil(log, mac, false, t))
  }

  lemma WholeLog(live: Scal, log: seq<LogRow>, mac: string)
    ensures AddsTheLog(Join(live, Aggregate(log, mac)), live, log, mac)
  {
    forall t: nat
      ensures Join(live, Aggregate(log, mac)).up <= t <==> live.up <= t && RowsUntil(log, mac, true, t)
      ensures Join(live, Aggregate(log, mac)).seen <= t <==> live.seen <= t && RowsUntil(log, mac, false, t)
    {
      AggregateMeaning(log, mac, t);
    }
    AggregateMeaning(log, mac, 0);
  }

  /** A step of the backfill gives the row everything the log has on the device
      exactly when each look-up that failed would have found nothing new. */
  lemma FoldCoversIff(j: Journal, log: seq<LogRow>, mac: string, q: Lookups)
    requires j.legacy == Some(log) && mac in j.rows
    ensures var a, row := Aggregate(log, mac), j.rows[mac].pres;
            Le(a, BackfillOne(j, mac, q).rows[mac].pres) <==>
            && (q.icmp || !a.icmp || row.icmp)
            && (q.up || a.up <= Max(row.up, 0))
            && (q.any || a.seen <= Max(row.seen, 0))
  {
  }

  /** Look-up errors are discarded, so an attempt whose look-ups fail completes all
      the same, and drops a log that it never read. */
  lemma FailedLookUpLosesTheLog(j: Journal, log: seq<LogRow>, mac: string)
    requires j.legacy == Some(log) && j.rows.Keys == {mac}
    requires LoggedIcmp(log, mac) && !j.rows[mac].pres.icmp
    ensures var ms := [Start([mac]), FoldNext(Lookups(false, false, false)), Drop];
            && Moves(Collapse(j, None, None), ms)
            && After(Collapse(j, None, None), ms).j.legacy == None
            && mac in After(Collapse(j, None, None), ms).j.rows
            && !After(Collapse(j, None, None), ms).j.rows[mac].pres.icmp
  {
    var q := Lookups(false, false, false);
    var c := Collapse(j, None, None);
    var ms := [Start([mac]), FoldNext(q), Drop];
    var c1 := Step(c, ms[0]);
    var c2 := Step(c1, ms[1]);
    var c3 := Step(c2, ms[2]);
    assert CanMove(c, ms[0]) && CanMove(c1, ms[1]) && CanMove(c2, ms[2]);
    assert ms[1..] == [ms[1], ms[2]] && ms[1..][1..] == [ms[2]] && ms[1..][1..][1..] == [];
    assert After(c3, []) == c3 && Moves(c3, []);
    assert After(c2, [ms[2]]) == c3 && Moves(c2, [ms[2]]);
    assert After(c1, ms[1..]) == c3 && Moves(c1, ms[1..]);
  }
}
