/** The two MAC canonicalisers: store.NormMAC and neigh.normMAC.

    Strings are sequences of ASCII characters here: case folding and white space
    are those of strings.ToLower and strings.TrimSpace on ASCII text. */
module MacText {
  import opened Prelude

  predicate IsSpace(c: char) {
    c == ' ' || '\t' <= c <= '\r'
  }

  function LowerChar(c: char): char {
    if 'A' <= c <= 'Z' then (c as int + 32) as char else c
  }

  function DashChar(c: char): char {
    if c == '-' then ':' else c
  }

  function Lower(s: string): string {
    seq(|s|, i requires 0 <= i < |s| => LowerChar(s[i]))
  }

  function Dashes(s: string): string {
    seq(|s|, i requires 0 <= i < |s| => DashChar(s[i]))
  }

  function TrimLeft(s: string): string {
    if s != [] && IsSpace(s[0]) then TrimLeft(s[1..]) else s
  }

  function TrimRight(s: string): string {
    if s != [] && IsSpace(s[|s| - 1]) then TrimRight(s[..|s| - 1]) else s
  }

  function Trim(s: string): string {
    TrimRight(TrimLeft(s))
  }

  /** strings.Split(s, ":") */
  function Split(s: string): (parts: seq<string>)
    ensures |parts| >= 1
  {
    if s == [] then [[]]
    else if s[0] == ':' then [[]] + Split(s[1..])
    else var rest := Split(s[1..]); [[s[0]] + rest[0]] + rest[1..]
  }

  /** strings.Join(parts, ":") */
  function Join(parts: seq<string>): string {
    if parts == [] then []
    else if |parts| == 1 then parts[0]
    else parts[0] + ":" + Join(parts[1..])
  }

  function Pad(p: string): string {
    if |p| == 1 then "0" + p else p
  }

  function PadAll(parts: seq<string>): seq<string> {
    seq(|parts|, i requires 0 <= i < |parts| => Pad(parts[i]))
  }

  function PadSix(m: string): string {
    var parts := Split(m);
    if |parts| != 6 then m else Join(PadAll(parts))
  }

  /** What store.NormMAC returns. */
  function NormMAC(m: string): string {
    PadSix(Dashes(Lower(Trim(m))))
  }

  /** What neigh.normMAC returns. */
  function NeighNormMAC(m: string): string {
    PadSix(Lower(Trim(Dashes(m))))
  }

  predicate Canonical(m: string) {
    NormMAC(m) == m
  }

  /** The padding loop that both canonicalisers end with. */
  method PadParts(m: string) returns (r: string)
    ensures r == PadSix(m)
  {
    var parts := Split(m);
    if |parts| != 6 {
      return m;
    }
    ghost var split := parts;
    for i := 0 to |parts|
      invariant |parts| == |split|
      invariant forall k :: 0 <= k < i ==> parts[k] == Pad(split[k])
      invariant forall k :: i <= k < |parts| ==> parts[k] == split[k]
    {
      if |parts[i]| == 1 {
        parts := parts[i := "0" + parts[i]];
      }
    }
    assert parts == PadAll(split);
    r := Join(parts);
  }

  method StoreNormalise(m: string) returns (r: string)
    ensures r == NormMAC(m)
  {
    var t := Lower(Trim(m));
    t := Dashes(t);
    r := PadParts(t);
  }

  method NeighNormalise(m: string) returns (r: string)
    ensures r == NeighNormMAC(m)
  {
    var t := Lower(Trim(Dashes(m)));
    r := PadParts(t);
  }

  // ---- splitting and joining are inverse ------------------------------------

  lemma {:induction false} JoinSplit(s: string)
    ensures Join(Split(s)) == s
  {
    if s == [] {
    } else {
      JoinSplit(s[1..]);
      var rest := Split(s[1..]);
      assert s == [s[0]] + s[1..];
      if s[0] == ':' {
        assert Split(s)[1..] == rest;
        assert Join(Split(s)) == [] + ":" + Join(rest);
      } else {
        assert Split(s)[1..] == rest[1..];
        if |rest| == 1 {
        } else {
          assert Join(Split(s)) == [s[0]] + rest[0] + ":" + Join(rest[1..]);
          assert Join(Split(s)) == [s[0]] + (rest[0] + ":" + Join(rest[1..]));
        }
      }
    }
  }

  lemma {:induction false} SplitPrefix(p: string, s: string)
    requires ':' !in p
    ensures Split(p + s) == [p + Split(s)[0]] + Split(s)[1..]
  {
    if p == [] {
      assert p + s == s;
      assert p + Split(s)[0] == Split(s)[0];
    } else {
      assert (p + s)[1..] == p[1..] + s;
      SplitPrefix(p[1..], s);
      assert [p[0]] + (p[1..] + Split(s)[0]) == p + Split(s)[0];
    }
  }

  lemma {:induction false} SplitJoin(parts: seq<string>)
    requires parts != [] && forall p :: p in parts ==> ':' !in p
    ensures Split(Join(parts)) == parts
  {
    if |parts| == 1 {
      SplitPrefix(parts[0], []);
      assert parts[0] + [] == parts[0];
    } else {
      SplitJoin(parts[1..]);
      var tail := ":" + Join(parts[1..]);
      assert tail[1..] == Join(parts[1..]);
      assert Split(tail) == [[]] + parts[1..];
      SplitPrefix(parts[0], tail);
      assert parts[0] + tail == Join(parts);
      assert parts[0] + [] == parts[0];
    }
  }

  lemma {:induction false} SplitHasNoColons(s: string)
    ensures forall p :: p in Split(s) ==> ':' !in p
  {
    if s != [] {
      SplitHasNoColons(s[1..]);
      assert Split(s[1..])[0] in Split(s[1..]);
    }
  }

  // ---- the two operation orders agree ---------------------------------------

  lemma {:induction false} DashesTrimLeft(s: string)
    ensures TrimLeft(Dashes(s)) == Dashes(TrimLeft(s))
  {
    if s != [] && IsSpace(s[0]) {
      assert Dashes(s)[1..] == Dashes(s[1..]);
      DashesTrimLeft(s[1..]);
    }
  }

  lemma {:induction false} DashesTrimRight(s: string)
    ensures TrimRight(Dashes(s)) == Dashes(TrimRight(s))
  {
    if s != [] && IsSpace(s[|s| - 1]) {
      assert Dashes(s)[..|s| - 1] == Dashes(s[..|s| - 1]);
      DashesTrimRight(s[..|s| - 1]);
    }
  }

  /** The store and the neighbour reader agree on every device's identity,
      although they trim, fold and replace in different orders. */
  lemma CanonicalisersAgree(m: string)
    ensures NormMAC(m) == NeighNormMAC(m)
  {
    DashesTrimLeft(m);
    DashesTrimRight(TrimLeft(m));
    assert Lower(Dashes(Trim(m))) == Dashes(Lower(Trim(m)));
  }

  // ---- idempotence ----------------------------------------------------------

  predicate Trimmed(s: string) {
    s == [] || (!IsSpace(s[0]) && !IsSpace(s[|s| - 1]))
  }

  lemma {:induction false} TrimLeftTrims(s: string)
    ensures TrimLeft(s) == [] || !IsSpace(TrimLeft(s)[0])
  {
    if s != [] && IsSpace(s[0]) {
      TrimLeftTrims(s[1..]);
    }
  }

  lemma {:induction false} TrimRightTrims(s: string)
    requires s == [] || !IsSpace(s[0])
    ensures Trimmed(TrimRight(s))
  {
    if s != [] && IsSpace(s[|s| - 1]) {
      TrimRightTrims(s[..|s| - 1]);
    }
  }

  lemma TrimTrims(s: string)
    ensures Trimmed(Trim(s))
  {
    TrimLeftTrims(s);
    TrimRightTrims(TrimLeft(s));
  }

  /** The characters that folding and replacing leave alone. */
  predicate Folded(s: string) {
    forall i :: 0 <= i < |s| ==> s[i] != '-' && !('A' <= s[i] <= 'Z')
  }

  lemma FoldedFixed(s: string)
    requires Folded(s) && Trimmed(s)
    ensures Dashes(Lower(Trim(s))) == s
  {
    assert Trim(s) == s;
    assert Lower(s) == s;
    assert Dashes(s) == s;
  }

  lemma {:induction false} SplitFolded(s: string)
    requires Folded(s)
    ensures forall p :: p in Split(s) ==> Folded(p)
  {
    if s != [] {
      assert Folded(s[1..]);
      SplitFolded(s[1..]);
      assert Split(s[1..])[0] in Split(s[1..]);
    }
  }

  lemma {:induction false} JoinFolded(parts: seq<string>)
    requires forall p :: p in parts ==> Folded(p)
    ensures Folded(Join(parts))
  {
    if |parts| > 1 {
      JoinFolded(parts[1..]);
      assert Folded(":");
      assert parts[0] in parts;
    } else if |parts| == 1 {
      assert parts[0] in parts;
    }
  }

  /** Where a joined string begins and ends. */
  lemma {:induction false} JoinEnds(parts: seq<string>)
    requires |parts| >= 2
    ensures Join(parts) != []
    ensures Join(parts)[0] == (if parts[0] == [] then ':' else parts[0][0])
    ensures var last := parts[|parts| - 1];
            Join(parts)[|Join(parts)| - 1] == (if last == [] then ':' else last[|last| - 1])
  {
    var tail := Join(parts[1..]);
    if |parts| > 2 {
      JoinEnds(parts[1..]);
    }
    assert Join(parts) == parts[0] + ":" + tail;
  }

  lemma PaddingKeepsTrimmed(s: string)
    requires Trimmed(s) && |Split(s)| == 6
    ensures Trimmed(Join(PadAll(Split(s))))
  {
    JoinSplit(s);
    JoinEnds(Split(s));
    JoinEnds(PadAll(Split(s)));
  }

  /** A canonical MAC is a fixed point, so keys never drift however often they
      are normalised on the way to the journal. */
  lemma NormIdempotent(m: string)
    ensures Canonical(NormMAC(m))
  {
    var t := Dashes(Lower(Trim(m)));
    TrimTrims(m);
    assert Trimmed(t) && Folded(t);
    var parts := Split(t);
    if |parts| != 6 {
      FoldedFixed(t);
    } else {
      var padded := PadAll(parts);
      var r := Join(padded);
      SplitFolded(t);
      forall p | p in padded
        ensures Folded(p) && ':' !in p
      {
        SplitHasNoColons(t);
        var i :| 0 <= i < |padded| && padded[i] == p;
        assert parts[i] in parts;
        assert Folded(parts[i]) && ':' !in parts[i];
      }
      JoinFolded(padded);
      PaddingKeepsTrimmed(t);
      FoldedFixed(r);
      SplitJoin(padded);
      assert PadAll(padded) == padded;
    }
  }

  // ---- octets ---------------------------------------------------------------

  function HexVal(c: char): Option<nat> {
    if '0' <= c <= '9' then Some(c as int - '0' as int)
    else if 'a' <= c <= 'f' then Some(c as int - 'a' as int + 10)
    else if 'A' <= c <= 'F' then Some(c as int - 'A' as int + 10)
    else None
  }

  function HexDigit(n: nat): char
    requires n < 16
  {
    if n < 10 then ('0' as int + n) as char else ('a' as int + (n - 10)) as char
  }

  predicate IsHex(p: string) {
    1 <= |p| <= 2 && forall i :: 0 <= i < |p| ==> HexVal(p[i]).Some?
  }

  function OctetOf(p: string): nat
    requires IsHex(p)
  {
    if |p| == 1 then HexVal(p[0]).value else 16 * HexVal(p[0]).value + HexVal(p[1]).value
  }

  function Hex2(n: nat): string
    requires n < 256
  {
    [HexDigit(n / 16), HexDigit(n % 16)]
  }

  type Octets = o: seq<nat> | |o| == 6 && forall i :: 0 <= i < 6 ==> o[i] < 256
    witness [0, 0, 0, 0, 0, 0]

  predicate IsMac(s: string) {
    var parts := Split(Dashes(Trim(s)));
    |parts| == 6 && forall i :: 0 <= i < 6 ==> IsHex(parts[i])
  }

  /** The six numbers that a spelling denotes. */
  function ParseMac(s: string): Octets
    requires IsMac(s)
  {
    var parts := Split(Dashes(Trim(s)));
    assert forall i :: 0 <= i < 6 ==> OctetOf(parts[i]) < 256;
    seq(6, i requires 0 <= i < 6 => OctetOf(parts[i]))
  }

  function Parts(o: Octets): seq<string> {
    seq(6, i requires 0 <= i < 6 => Hex2(o[i]))
  }

  function PrintMac(o: Octets): string {
    Join(Parts(o))
  }

  function LowerAll(parts: seq<string>): seq<string> {
    seq(|parts|, i requires 0 <= i < |parts| => Lower(parts[i]))
  }

  lemma LowerAllCons(p: string, rest: seq<string>)
    ensures LowerAll([p] + rest) == [Lower(p)] + LowerAll(rest)
  {
  }

  lemma LowerHead(c: char, p: string)
    ensures Lower([c] + p) == [LowerChar(c)] + Lower(p)
  {
  }

  lemma SplitHead(c: char, s: string)
    requires c != ':'
    ensures Split([c] + s) == [[c] + Split(s)[0]] + Split(s)[1..]
  {
    assert ([c] + s)[1..] == s;
  }

  lemma SplitColon(s: string)
    ensures Split([':'] + s) == [[]] + Split(s)
  {
    assert ([':'] + s)[1..] == s;
  }

  lemma {:induction false} SplitLowerAll(s: string)
    ensures Split(Lower(s)) == LowerAll(Split(s))
  {
    if s == [] {
      assert Lower(s) == [];
    } else {
      SplitLowerAll(s[1..]);
      assert s == [s[0]] + s[1..];
      LowerHead(s[0], s[1..]);
      if s[0] == ':' {
        ColonLower(s[1..]);
      } else {
        HeadLower(s[0], s[1..]);
      }
    }
  }

  lemma ColonLower(s: string)
    requires Split(Lower(s)) == LowerAll(Split(s))
    ensures Split([':'] + Lower(s)) == LowerAll(Split([':'] + s))
  {
    SplitColon(s);
    SplitColon(Lower(s));
    LowerAllCons([], Split(s));
  }

  lemma HeadLower(c: char, s: string)
    requires c != ':' && Split(Lower(s)) == LowerAll(Split(s))
    ensures Split([LowerChar(c)] + Lower(s)) == LowerAll(Split([c] + s))
  {
    var parts := Split(s);
    SplitHead(c, s);
    SplitHead(LowerChar(c), Lower(s));
    LowerAllCons([c] + parts[0], parts[1..]);
    LowerHead(c, parts[0]);
    LowerAllCons(parts[0], parts[1..]);
    assert parts == [parts[0]] + parts[1..];
  }

  lemma SplitLower(s: string)
    ensures |Split(Lower(s))| == |Split(s)|
    ensures forall i :: 0 <= i < |Split(s)| ==> Split(Lower(s))[i] == Lower(Split(s)[i])
  {
    SplitLowerAll(s);
  }

  lemma LowerIsHexDigit(c: char)
    requires HexVal(c).Some?
    ensures HexVal(c).value < 16 && LowerChar(c) == HexDigit(HexVal(c).value)
  {
  }

  lemma TwoDigits(a: nat, b: nat)
    requires a < 16 && b < 16
    ensures 16 * a + b < 256 && (16 * a + b) / 16 == a && (16 * a + b) % 16 == b
  {
  }

  lemma PadLowerIsHex2(p: string)
    requires IsHex(p)
    ensures OctetOf(p) < 256 && Pad(Lower(p)) == Hex2(OctetOf(p))
  {
    LowerIsHexDigit(p[0]);
    if |p| == 1 {
      TwoDigits(0, HexVal(p[0]).value);
      assert Pad(Lower(p)) == ['0', LowerChar(p[0])];
    } else {
      LowerIsHexDigit(p[1]);
      TwoDigits(HexVal(p[0]).value, HexVal(p[1]).value);
      assert Pad(Lower(p)) == [LowerChar(p[0]), LowerChar(p[1])];
    }
  }

  /** Canonicalising a six-octet MAC is printing what it denotes. */
  lemma NormPrintsTheOctets(s: string)
    requires IsMac(s)
    ensures NormMAC(s) == PrintMac(ParseMac(s))
  {
    var d := Dashes(Trim(s));
    assert Dashes(Lower(Trim(s))) == Lower(d);
    SplitLower(d);
    forall i | 0 <= i < 6
      ensures PadAll(Split(Lower(d)))[i] == Parts(ParseMac(s))[i]
    {
      PadLowerIsHex2(Split(d)[i]);
    }
    assert PadAll(Split(Lower(d))) == Parts(ParseMac(s));
  }

  lemma Hex2RoundTrip(n: nat)
    requires n < 256
    ensures IsHex(Hex2(n)) && OctetOf(Hex2(n)) == n
  {
  }

  lemma PrintParse(o: Octets)
    ensures IsMac(PrintMac(o)) && ParseMac(PrintMac(o)) == o
  {
    var s := PrintMac(o);
    forall p | p in Parts(o)
      ensures ':' !in p && Folded(p)
    {
    }
    SplitJoin(Parts(o));
    JoinFolded(Parts(o));
    JoinEnds(Parts(o));
    assert Trimmed(s);
    assert Trim(s) == s && Dashes(s) == s;
    forall i | 0 <= i < 6
      ensures IsHex(Split(s)[i]) && OctetOf(Split(s)[i]) == o[i]
    {
      Hex2RoundTrip(o[i]);
    }
  }

  /** Two spellings get one identity exactly when they denote the same octets. */
  lemma SameIdentityIffSameOctets(a: string, b: string)
    requires IsMac(a) && IsMac(b)
    ensures NormMAC(a) == NormMAC(b) <==> ParseMac(a) == ParseMac(b)
  {
    NormPrintsTheOctets(a);
    NormPrintsTheOctets(b);
    PrintParse(ParseMac(a));
    PrintParse(ParseMac(b));
  }

  // ---- spellings ----------------------------------------------------------------

  ghost predicate Spaces(s: string) {
    forall i :: 0 <= i < |s| ==> IsSpace(s[i])
  }

  lemma {:induction false} TrimLeftSpaces(lead: string, m: string)
    requires Spaces(lead) && m != [] && !IsSpace(m[0])
    ensures TrimLeft(lead + m) == m
  {
    if lead == [] {
      assert lead + m == m;
    } else {
      assert (lead + m)[1..] == lead[1..] + m;
      TrimLeftSpaces(lead[1..], m);
    }
  }

  lemma {:induction false} TrimRightSpaces(m: string, trail: string)
    requires Spaces(trail) && m != [] && !IsSpace(m[|m| - 1])
    ensures TrimRight(m + trail) == m
  {
    if trail == [] {
      assert m + trail == m;
    } else {
      var n := |trail| - 1;
      assert (m + trail)[..|m| + n] == m + trail[..n];
      TrimRightSpaces(m, trail[..n]);
    }
  }

  /** Trimming takes off the spaces at both ends and nothing else. */
  lemma TrimSpaces(lead: string, m: string, trail: string)
    requires Spaces(lead) && Spaces(trail) && m != [] && Trimmed(m)
    ensures Trim(lead + m + trail) == m
  {
    assert lead + m + trail == lead + (m + trail);
    TrimLeftSpaces(lead, m + trail);
    TrimRightSpaces(m, trail);
  }

  /** Octets with a separator of one's choice between any two. */
  function Spell(parts: seq<string>, seps: string): string
    requires |parts| == |seps| + 1
  {
    if seps == [] then parts[0] else parts[0] + [seps[0]] + Spell(parts[1..], seps[1..])
  }

  lemma {:induction false} SpellDashes(parts: seq<string>, seps: string)
    requires |parts| == |seps| + 1 && (forall i :: 0 <= i < |parts| ==> IsHex(parts[i]))
    requires forall i :: 0 <= i < |seps| ==> seps[i] == ':' || seps[i] == '-'
    ensures Dashes(Spell(parts, seps)) == Join(parts)
  {
    HexIsPlain(parts[0]);
    if seps != [] {
      var rest := Spell(parts[1..], seps[1..]);
      SpellDashes(parts[1..], seps[1..]);
      DashesConcat(parts[0] + [seps[0]], rest);
      DashesConcat(parts[0], [seps[0]]);
      assert Dashes([seps[0]]) == ":";
    }
  }

  lemma DashesConcat(a: string, b: string)
    ensures Dashes(a + b) == Dashes(a) + Dashes(b)
  {
  }

  lemma HexIsPlain(p: string)
    requires IsHex(p)
    ensures Dashes(p) == p && ':' !in p && !IsSpace(p[0]) && !IsSpace(p[|p| - 1])
  {
    assert forall i :: 0 <= i < |p| ==> HexVal(p[i]).Some?;
  }

  lemma {:induction false} SpellEnds(parts: seq<string>, seps: string)
    requires |parts| == |seps| + 1 && forall i :: 0 <= i < |parts| ==> IsHex(parts[i])
    ensures IsHex(parts[0]) && IsHex(parts[|parts| - 1])
    ensures Spell(parts, seps) != [] && Spell(parts, seps)[0] == parts[0][0]
    ensures var s, last := Spell(parts, seps), parts[|parts| - 1]; s[|s| - 1] == last[|last| - 1]
  {
    assert IsHex(parts[0]);
    if seps != [] {
      SpellEnds(parts[1..], seps[1..]);
    }
  }

  /** Whatever the separators, the case, the padding and the spaces around it, a MAC is
      stored as the print of its six octets. */
  lemma AnySpelling(parts: seq<string>, seps: string, lead: string, trail: string)
    requires |parts| == 6 && |seps| == 5 && (forall i :: 0 <= i < |parts| ==> IsHex(parts[i])) && Spaces(lead) && Spaces(trail)
    requires forall i :: 0 <= i < 5 ==> seps[i] == ':' || seps[i] == '-'
    ensures var o := seq(6, i requires 0 <= i < 6 => OctetOf(parts[i]));
            && (forall i :: 0 <= i < 6 ==> o[i] < 256)
            && NormMAC(lead + Spell(parts, seps) + trail) == PrintMac(o)
  {
    var m := Spell(parts, seps);
    var s := lead + m + trail;
    SpellEnds(parts, seps);
    HexIsPlain(parts[0]);
    HexIsPlain(parts[5]);
    TrimSpaces(lead, m, trail);
    SpellDashes(parts, seps);
    forall i | 0 <= i < 6
      ensures ':' !in parts[i]
    {
      HexIsPlain(parts[i]);
    }
    SplitJoin(parts);
    assert Split(Dashes(Trim(s))) == parts && IsMac(s);
    NormPrintsTheOctets(s);
    assert ParseMac(s) == seq(6, i requires 0 <= i < 6 => OctetOf(parts[i]));
  }

  /** A text that is no MAC is only trimmed, folded and given colons: one that needs none
      of it stays. */
  lemma OtherTextStays(s: string)
    requires Folded(s) && Trimmed(s) && |Split(s)| != 6
    ensures NormMAC(s) == s
  {
    FoldedFixed(s);
  }

  /** No identity has an upper-case letter, a dash, or white space at either end. */
  lemma NormFolds(m: string)
    ensures var r := NormMAC(m);
            && (forall i :: 0 <= i < |r| ==> r[i] != '-' && !('A' <= r[i] <= 'Z'))
            && (r != [] ==> r[0] !in " \t\n\r" && r[|r| - 1] !in " \t\n\r")
  {
    var t := Dashes(Lower(Trim(m)));
    TrimTrims(m);
    assert Folded(t) && Trimmed(t);
    if |Split(t)| == 6 {
      PaddedFolded(t);
      PaddingKeepsTrimmed(t);
    }
  }

  lemma PaddedFolded(t: string)
    requires Folded(t)
    ensures Folded(Join(PadAll(Split(t))))
  {
    SplitFolded(t);
    forall p | p in PadAll(Split(t))
      ensures Folded(p)
    {
      var i :| 0 <= i < |Split(t)| && p == Pad(Split(t)[i]);
      assert Split(t)[i] in Split(t);
    }
    JoinFolded(PadAll(Split(t)));
  }
}
