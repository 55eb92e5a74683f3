/** The stored transition rows: what deleting a device and pruning by age remove, and
    that within the retention window the history of a device stays whole. */
module History {
  import opened Prelude
  import opened Types
  import opened JournalSpec
  import opened Engine
  import MacText

  /** `kept` is what `keep` accepts of `events`: positions `at`, all of them, in order,
      each once. */
  ghost predicate Selects(events: seq<SeenEvent>, kept: seq<SeenEvent>, at: seq<nat>, keep: SeenEvent -> bool) {
    && |at| == |kept|
    && (forall k, l :: 0 <= k < l < |at| ==> at[k] < at[l])
    && (forall k :: 0 <= k < |at| ==> at[k] < |events| && kept[k] == events[at[k]] && keep(kept[k]))
    && (forall i: nat :: i < |events| && keep(events[i]) ==> i in at)
  }

  lemma SelectSnoc(events: seq<SeenEvent>, kept: seq<SeenEvent>, at: seq<nat>, keep: SeenEvent -> bool, e: SeenEvent)
    requires Selects(events, kept, at, keep)
    ensures if keep(e) then Selects(events + [e], kept + [e], at + [|events|], keep) else Selects(events + [e], kept, at, keep)
  {
    var all := events + [e];
    assert forall i :: 0 <= i < |events| ==> all[i] == events[i];
    if keep(e) {
      var at' := at + [|events|];
      assert forall i: nat :: i in at ==> i in at';
      assert |events| in at' by { assert at'[|at|] == |events|; }
    }
  }

  /** Deleting a device removes exactly its own rows. */
  lemma {:induction false} DeleteSelects(events: seq<SeenEvent>, mac: string) returns (at: seq<nat>)
    ensures Selects(events, WithoutMac(events, mac), at, (e: SeenEvent) => e.mac != mac)
  {
    if events == [] {
      at := [];
    } else {
      var n := |events| - 1;
      at := DeleteSelects(events[..n], mac);
      assert events == events[..n] + [events[n]];
      SelectSnoc(events[..n], WithoutMac(events[..n], mac), at, (e: SeenEvent) => e.mac != mac, events[n]);
      at := if events[n].mac != mac then at + [n] else at;
    }
  }

  /** Pruning removes exactly the rows that are older than the cutoff. */
  lemma {:induction false} PruneSelects(events: seq<SeenEvent>, before: int) returns (at: seq<nat>)
    ensures Selects(events, Since(events, before), at, (e: SeenEvent) => !(e.ts < before))
  {
    if events == [] {
      at := [];
    } else {
      var n := |events| - 1;
      at := PruneSelects(events[..n], before);
      assert events == events[..n] + [events[n]];
      SelectSnoc(events[..n], Since(events[..n], before), at, (e: SeenEvent) => !(e.ts < before), events[n]);
      at := if events[n].ts >= before then at + [n] else at;
    }
  }

  // ---- the three statements of a deletion -----------------------------------------

  /** Deleting, up to the statement that fails: the watchdogs go first, then the history,
      then the row. Other devices, hosts and the old log are not touched. */
  lemma DeleteMeaning(j: Journal, m: string, done: nat)
    ensures var after, mac := DeleteDevice(j, m, done), MacText.NormMAC(m);
            && after.observed == j.observed && after.legacy == j.legacy
            && (forall k :: k in j.rows && k != mac ==> k in after.rows && after.rows[k] == j.rows[k])
            && (forall k :: k in after.rows ==> k in j.rows)
            && (mac in after.rows <==> mac in j.rows && done < 3)
            && (mac in after.rows ==> after.rows[mac] == j.rows[mac].(probes := if done == 0 then j.rows[mac].probes else []))
            && after.events == if done < 2 then j.events else WithoutMac(j.events, mac)
  {
  }

  // ---- runs -------------------------------------------------------------------

  /** The rows of a device that are not older than a time. */
  function RowsOf(events: seq<SeenEvent>, mac: string, from: int): seq<SeenEvent> {
    if events == [] then []
    else
      var e := events[|events| - 1];
      RowsOf(events[..|events| - 1], mac, from) + if e.mac == mac && e.ts >= from then [e] else []
  }

  lemma {:induction false} RowsConcat(a: seq<SeenEvent>, b: seq<SeenEvent>, mac: string, from: int)
    ensures RowsOf(a + b, mac, from) == RowsOf(a, mac, from) + RowsOf(b, mac, from)
  {
    if b == [] {
      assert a + b == a;
    } else {
      var n := |b| - 1;
      assert (a + b)[..|a| + n] == a + b[..n];
      RowsConcat(a, b[..n], mac, from);
    }
  }

  lemma RowsSnoc(events: seq<SeenEvent>, e: SeenEvent, mac: string, from: int)
    ensures RowsOf(events + [e], mac, from) == RowsOf(events, mac, from) + if e.mac == mac && e.ts >= from then [e] else []
  {
    assert (events + [e])[..|events|] == events;
  }

  lemma {:induction false} RowsWithout(events: seq<SeenEvent>, other: string, mac: string, from: int)
    ensures RowsOf(WithoutMac(events, other), mac, from) == if mac == other then [] else RowsOf(events, mac, from)
  {
    if events != [] {
      var n := |events| - 1;
      RowsWithout(events[..n], other, mac, from);
      if events[n].mac != other {
        RowsSnoc(WithoutMac(events[..n], other), events[n], mac, from);
      } else {
        assert WithoutMac(events, other) == WithoutMac(events[..n], other);
      }
    }
  }

  lemma {:induction false} RowsSince(events: seq<SeenEvent>, before: int, mac: string, from: int)
    requires before <= from
    ensures RowsOf(Since(events, before), mac, from) == RowsOf(events, mac, from)
  {
    if events != [] {
      var n := |events| - 1;
      RowsSince(events[..n], before, mac, from);
      if events[n].ts >= before {
        RowsSnoc(Since(events[..n], before), events[n], mac, from);
      } else {
        assert Since(events, before) == Since(events[..n], before);
      }
    }
  }

  /** The step removes rows of the device that are not older than `from`. */
  predicate Loses(st: Step, mac: string, from: int) {
    st.Manage? &&
    ((st.a.Delete? && st.a.done >= 2 && MacText.NormMAC(st.a.mac) == mac) || (st.a.PruneEventRows? && st.a.before > from))
  }

  lemma HistoryManaged(j: Journal, a: Admin, mac: string, from: int)
    requires !Loses(Manage(a), mac, from)
    ensures RowsOf(ManageJournal(j, a).events, mac, from) == RowsOf(j.events, mac, from)
  {
    if a.Delete? {
      RowsWithout(j.events, MacText.NormMAC(a.mac), mac, from);
    } else if a.PruneEventRows? {
      RowsSince(j.events, a.before, mac, from);
    }
  }

  lemma HistoryCommitted(events: seq<SeenEvent>, base: seq<SeenEvent>, log: seq<SeenEvent>, es: seq<SeenEvent>, mac: string, from: int)
    requires RowsOf(events, mac, from) == RowsOf(base + log, mac, from)
    ensures RowsOf(events + es, mac, from) == RowsOf(base + (log + es), mac, from)
  {
    RowsConcat(events, es, mac, from);
    RowsConcat(base + log, es, mac, from);
    EventsAssoc(base, log, es);
  }

  lemma EventsAssoc(a: seq<SeenEvent>, b: seq<SeenEvent>, c: seq<SeenEvent>)
    ensures a + (b + c) == a + b + c
  {
  }

  lemma CommitAppends(s: Sys) returns (es: seq<SeenEvent>)
    ensures CommitStep(s).j.events == s.j.events + es && CommitStep(s).log == s.log + es
  {
    es := if s.flight.Some? then NormBatch(s.flight.value).events else [];
  }

  lemma OtherStepsKeepEvents(s: Sys, st: Step)
    requires !st.CommitFlight? && !st.Manage?
    ensures Next(s, st).j.events == s.j.events && Next(s, st).log == s.log
  {
  }

  lemma HistoryStep(s: Sys, st: Step, base: seq<SeenEvent>, mac: string, from: int)
    requires RowsOf(s.j.events, mac, from) == RowsOf(base + s.log, mac, from) && !Loses(st, mac, from)
    ensures RowsOf(Next(s, st).j.events, mac, from) == RowsOf(base + Next(s, st).log, mac, from)
  {
    match st
    case CommitFlight =>
      var es := CommitAppends(s);
      HistoryCommitted(s.j.events, base, s.log, es, mac, from);
    case Manage(a) => HistoryManaged(s.j, a, mac, from);
    case _ => OtherStepsKeepEvents(s, st);
  }

  /** Over any run that does not delete the device and prunes nothing newer than `from`,
      other devices may be deleted and older rows pruned: the rows of the device since
      then are those of the table it began with and all that were committed, in order. */
  lemma {:induction false} HistoryIsKept(s: Sys, steps: seq<Step>, base: seq<SeenEvent>, mac: string, from: int)
    requires RowsOf(s.j.events, mac, from) == RowsOf(base + s.log, mac, from)
    requires forall i :: 0 <= i < |steps| ==> !Loses(steps[i], mac, from)
    ensures RowsOf(Run(s, steps).j.events, mac, from) == RowsOf(base + Run(s, steps).log, mac, from)
    decreases |steps|
  {
    if steps != [] {
      assert !Loses(steps[0], mac, from);
      assert forall i :: 0 <= i < |steps| - 1 ==> steps[1..][i] == steps[i + 1];
      HistoryStep(s, steps[0], base, mac, from);
      HistoryIsKept(Next(s, steps[0]), steps[1..], base, mac, from);
    }
  }
}
