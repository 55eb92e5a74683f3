/** The order in which remembered hosts are shown: newest first, MAC as tiebreak. */
module HostOrder {
  import opened Types

  /** Go's `<` on strings. */
  predicate LexLess(a: string, b: string) {
    b != [] && (a == [] || a[0] < b[0] || (a[0] == b[0] && LexLess(a[1..], b[1..])))
  }

  lemma {:induction false} LexTotal(a: string, b: string)
    ensures LexLess(a, b) || a == b || LexLess(b, a)
    ensures !(LexLess(a, b) && LexLess(b, a))
    ensures !LexLess(a, a)
  {
    if a != [] && b != [] {
      LexTotal(a[1..], b[1..]);
      assert a == [a[0]] + a[1..] && b == [b[0]] + b[1..];
    }
    if a != [] {
      LexTotal(a[1..], a[1..]);
    }
  }

  lemma {:induction false} LexTransitive(a: string, b: string, c: string)
    requires LexLess(a, b) && LexLess(b, c)
    ensures LexLess(a, c)
  {
    if a != [] && a[0] == b[0] == c[0] {
      LexTransitive(a[1..], b[1..], c[1..]);
    }
  }

  /** The comparison that observedSince gives to sort.Slice. */
  predicate Precedes(a: Observed, b: Observed) {
    if a.lastSeen != b.lastSeen then a.lastSeen > b.lastSeen else LexLess(a.mac, b.mac)
  }

  lemma PrecedesTransitive(a: Observed, b: Observed, c: Observed)
    requires Precedes(a, b) && Precedes(b, c)
    ensures Precedes(a, c)
  {
    if a.lastSeen == b.lastSeen == c.lastSeen {
      LexTransitive(a.mac, b.mac, c.mac);
    }
  }

  ghost predicate Sorted(s: seq<Observed>) {
    forall i, j :: 0 <= i < j < |s| ==> Precedes(s[i], s[j])
  }

  ghost predicate DistinctMacs(s: seq<Observed>) {
    forall i, j :: 0 <= i < j < |s| ==> s[i].mac != s[j].mac
  }

  /** A set of hosts has at most one sorted listing. */
  lemma {:induction false} SortedUnique(s: seq<Observed>, t: seq<Observed>)
    requires Sorted(s) && Sorted(t)
    requires forall h :: h in s <==> h in t
    ensures s == t
  {
    SameEmptiness(s, t);
    if s != [] {
      HeadsEqual(s, t);
      forall h
        ensures h in s[1..] <==> h in t[1..]
      {
        TailMember(s, h);
        TailMember(t, h);
      }
      SortedUnique(s[1..], t[1..]);
      assert s == [s[0]] + s[1..] && t == [t[0]] + t[1..];
    }
  }

  lemma SameEmptiness(s: seq<Observed>, t: seq<Observed>)
    requires forall h :: h in s <==> h in t
    ensures s == [] <==> t == []
  {
    if s != [] {
      assert s[0] in t;
    }
    if t != [] {
      assert t[0] in s;
    }
  }

  lemma HeadsEqual(s: seq<Observed>, t: seq<Observed>)
    requires s != [] && t != [] && Sorted(s) && Sorted(t)
    requires forall h :: h in s <==> h in t
    ensures s[0] == t[0]
  {
    assert s[0] in t && t[0] in s;
    var i :| 0 <= i < |t| && t[i] == s[0];
    var j :| 0 <= j < |s| && s[j] == t[0];
    if i != 0 && j != 0 {
      assert Precedes(t[0], t[i]) && Precedes(s[0], s[j]);
      LexTotal(s[0].mac, t[0].mac);
    }
  }

  /** In a sorted sequence the head does not occur again. */
  lemma TailMember(s: seq<Observed>, h: Observed)
    requires s != [] && Sorted(s)
    ensures h in s[1..] <==> h in s && h != s[0]
  {
    if h in s[1..] {
      var i :| 0 <= i < |s[1..]| && s[1..][i] == h;
      assert s[i + 1] == h && Precedes(s[0], s[i + 1]);
      LexTotal(h.mac, h.mac);
    }
  }

  /** What sort.Slice leaves behind, obtained by insertion: the same hosts, in order. */
  method SortHosts(s: seq<Observed>) returns (r: seq<Observed>)
    requires DistinctMacs(s)
    ensures Sorted(r) && |r| == |s|
    ensures forall h :: h in r <==> h in s
  {
    r := [];
    for i := 0 to |s|
      invariant Sorted(r) && |r| == i
      invariant forall h :: h in r <==> h in s[..i]
    {
      var h := s[i];
      var k := 0;
      while k < |r| && Precedes(r[k], h)
        invariant 0 <= k <= |r|
        invariant forall j :: 0 <= j < k ==> Precedes(r[j], h)
      {
        k := k + 1;
      }
      InsertKeepsSorted(s, i, r, k);
      r := r[..k] + [h] + r[k..];
      assert s[..i + 1] == s[..i] + [h];
    }
    assert s[..|s|] == s;
  }

  lemma InsertKeepsSorted(s: seq<Observed>, i: nat, r: seq<Observed>, k: nat)
    requires DistinctMacs(s) && i < |s| && Sorted(r) && k <= |r|
    requires forall h :: h in r <==> h in s[..i]
    requires forall j :: 0 <= j < k ==> Precedes(r[j], s[i])
    requires k < |r| ==> !Precedes(r[k], s[i])
    ensures Sorted(r[..k] + [s[i]] + r[k..])
    ensures forall h :: h in r[..k] + [s[i]] + r[k..] <==> h in r || h == s[i]
  {
    if k < |r| {
      assert r[k] in s[..i];
      var j :| 0 <= j < i && s[j] == r[k];
      LexTotal(s[i].mac, r[k].mac);
      assert Precedes(s[i], r[k]);
    }
    Inserted(r, s[i], k);
    assert r == r[..k] + r[k..];
  }

  lemma Inserted(r: seq<Observed>, h: Observed, k: nat)
    requires Sorted(r) && k <= |r|
    requires forall j :: 0 <= j < k ==> Precedes(r[j], h)
    requires k < |r| ==> Precedes(h, r[k])
    ensures Sorted(r[..k] + [h] + r[k..])
  {
    forall j | k < j < |r|
      ensures Precedes(h, r[j])
    {
      PrecedesTransitive(h, r[k], r[j]);
    }
  }

  // ---- tracked devices --------------------------------------------------------

  /** The order of the dashboard: named devices first, by name, then by address. */
  predicate ShownBefore(a: Device, b: Device) {
    || (a.name != "" && b.name == "")
    || ((a.name == "" <==> b.name == "") && (LexLess(a.name, b.name) || (a.name == b.name && LexLess(a.ip, b.ip))))
  }

  ghost predicate InDisplayOrder(list: seq<Device>) {
    forall i, j :: 0 <= i < j < |list| ==> !ShownBefore(list[j], list[i])
  }

  ghost predicate NotBefore(d: Device, list: seq<Device>) {
    forall i :: 0 <= i < |list| ==> !ShownBefore(d, list[i])
  }

  lemma ShownSnoc(list: seq<Device>, d: Device)
    requires InDisplayOrder(list)
    ensures NotBefore(d, list) ==> InDisplayOrder(list + [d])
    ensures forall e :: NotBefore(e, list) && !ShownBefore(e, d) ==> NotBefore(e, list + [d])
  {
  }

  lemma ShownTransitive(a: Device, b: Device, c: Device)
    requires ShownBefore(a, b) && ShownBefore(b, c)
    ensures ShownBefore(a, c)
  {
    if LexLess(a.name, b.name) && LexLess(b.name, c.name) {
      LexTransitive(a.name, b.name, c.name);
    }
    if LexLess(a.ip, b.ip) && LexLess(b.ip, c.ip) {
      LexTransitive(a.ip, b.ip, c.ip);
    }
  }

  ghost predicate FirstOf(rows: map<string, Device>, todo: set<string>, mac: string)
    requires todo <= rows.Keys
  {
    mac in todo && forall other :: other in todo ==> !ShownBefore(rows[other], rows[mac])
  }

  lemma {:induction false} SomeFirst(rows: map<string, Device>, todo: set<string>) returns (mac: string)
    requires todo <= rows.Keys && todo != {}
    ensures FirstOf(rows, todo, mac)
    decreases |todo|
  {
    var x :| x in todo;
    mac := x;
    LexTotal(rows[x].name, rows[x].name);
    LexTotal(rows[x].ip, rows[x].ip);
    if todo != {x} {
      assert todo == (todo - {x}) + {x} && todo - {x} != {};
      var m := SomeFirst(rows, todo - {x});
      if ShownBefore(rows[x], rows[m]) {
        forall other | other in todo
          ensures !ShownBefore(rows[other], rows[x])
        {
          if other != x && ShownBefore(rows[other], rows[x]) {
            ShownTransitive(rows[other], rows[x], rows[m]);
            assert false;
          }
        }
      } else {
        mac := m;
      }
    }
  }

  // ---- what the orders mean -----------------------------------------------------

  /** The strings agree up to k, and there the first one ends or has the smaller
      character. */
  predicate FirstDifference(a: string, b: string, k: nat) {
    k <= |a| && k < |b| && a[..k] == b[..k] && (k < |a| ==> a[k] < b[k])
  }

  lemma {:induction false} LexLessGives(a: string, b: string) returns (k: nat)
    requires LexLess(a, b)
    ensures FirstDifference(a, b, k)
  {
    if a == [] || a[0] < b[0] {
      k := 0;
    } else {
      k := LexLessGives(a[1..], b[1..]);
      k := k + 1;
      assert a[..k] == [a[0]] + a[1..][..k - 1] && b[..k] == [b[0]] + b[1..][..k - 1];
    }
  }

  lemma {:induction false} LexLessFrom(a: string, b: string, k: nat)
    requires FirstDifference(a, b, k)
    ensures LexLess(a, b)
    decreases k
  {
    if k > 0 {
      assert a[0] == a[..k][0] == b[..k][0] == b[0];
      assert a[1..][..k - 1] == a[..k][1..] && b[1..][..k - 1] == b[..k][1..];
      LexLessFrom(a[1..], b[1..], k - 1);
    }
  }

  lemma LexLessMeaning(a: string, b: string)
    ensures LexLess(a, b) <==> exists k: nat :: FirstDifference(a, b, k)
  {
    if LexLess(a, b) {
      var k := LexLessGives(a, b);
    }
    if k: nat :| FirstDifference(a, b, k) {
      LexLessFrom(a, b, k);
    }
  }

  /** Remembered hosts: the later sighting first, then the smaller MAC. */
  lemma SortedMeaning(s: seq<Observed>)
    ensures Sorted(s) <==>
            forall i, j :: 0 <= i < j < |s| ==>
              s[j].lastSeen < s[i].lastSeen || (s[j].lastSeen == s[i].lastSeen && LexLess(s[i].mac, s[j].mac))
  {
    if Sorted(s) {
      forall i, j | 0 <= i < j < |s|
        ensures s[j].lastSeen < s[i].lastSeen || (s[j].lastSeen == s[i].lastSeen && LexLess(s[i].mac, s[j].mac))
      {
        assert Precedes(s[i], s[j]);
      }
    }
  }

  /** Tracked devices: no unnamed one before a named one, names not descending, and
      addresses not descending under one name. */
  lemma DisplayMeaning(list: seq<Device>)
    ensures InDisplayOrder(list) <==>
            forall i, j :: 0 <= i < j < |list| ==>
              && (list[j].name != "" ==> list[i].name != "" && !LexLess(list[j].name, list[i].name))
              && (list[j].name == list[i].name ==> !LexLess(list[j].ip, list[i].ip))
  {
    if InDisplayOrder(list) {
      forall i, j | 0 <= i < j < |list|
        ensures list[j].name != "" ==> list[i].name != "" && !LexLess(list[j].name, list[i].name)
        ensures list[j].name == list[i].name ==> !LexLess(list[j].ip, list[i].ip)
      {
        assert !ShownBefore(list[j], list[i]);
      }
    }
  }
}
