/** The pre-v1 sample log in terms of its rows. */
module LegacyLog {
  import opened Prelude
  import opened Presence
  import opened JournalSpec

  /** Row i is one of the device's, of its up rows only if asked: answers to ICMP and
      open ports count, presence in the neighbour cache does not. */
  predicate Counts(r: LogRow, mac: string, upOnly: bool) {
    r.mac == mac && (upOnly ==> r.signal == LogIcmp || r.signal == LogTcp)
  }

  ghost predicate RowsUntil(log: seq<LogRow>, mac: string, upOnly: bool, t: int) {
    forall i :: 0 <= i < |log| && Counts(log[i], mac, upOnly) ==> log[i].ts <= t
  }

  /** A time is that of the newest such row, or zero if there is none. */
  ghost predicate IsNewest(log: seq<LogRow>, mac: string, upOnly: bool, t: int) {
    if exists i :: 0 <= i < |log| && Counts(log[i], mac, upOnly)
    then RowsUntil(log, mac, upOnly, t) && exists i :: 0 <= i < |log| && Counts(log[i], mac, upOnly) && log[i].ts == t
    else t == 0
  }

  lemma {:induction false} NewestMeaning(log: seq<LogRow>, mac: string, upOnly: bool)
    ensures IsNewest(log, mac, upOnly, OrZero(Newest(log, mac, upOnly)))
    ensures Newest(log, mac, upOnly).Some? <==> exists i :: 0 <= i < |log| && Counts(log[i], mac, upOnly)
  {
    if log != [] {
      var n := |log| - 1;
      var rest := log[..n];
      NewestMeaning(rest, mac, upOnly);
      assert forall i :: 0 <= i < n ==> rest[i] == log[i];
      if Newest(rest, mac, upOnly).Some? {
        var i :| 0 <= i < |rest| && Counts(rest[i], mac, upOnly) && rest[i].ts == OrZero(Newest(rest, mac, upOnly));
        assert Counts(log[i], mac, upOnly);
      }
      if Counts(log[n], mac, upOnly) {
        assert Newest(log, mac, upOnly).Some?;
      }
    }
  }

  /** What the three look-ups return when they work. */
  lemma AggregateMeaning(log: seq<LogRow>, mac: string, t: nat)
    ensures var a := Aggregate(log, mac);
            && (a.icmp <==> exists i :: 0 <= i < |log| && log[i].mac == mac && log[i].signal == LogIcmp)
            && IsNewest(log, mac, true, a.up) && IsNewest(log, mac, false, a.seen)
            && (a.up <= t <==> RowsUntil(log, mac, true, t))
            && (a.seen <= t <==> RowsUntil(log, mac, false, t))
  {
    NewestMeaning(log, mac, true);
    NewestMeaning(log, mac, false);
  }
}
