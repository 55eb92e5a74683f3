/** Byte-wise IPv4 arithmetic against arithmetic on the 32-bit number: the mask,
    the broadcast address, containment and the in-place increment. */
module Ipv4 {
  import opened Prelude

  type Byte = x: int | 0 <= x < 256

  function Pow2(n: nat): (p: nat)
    ensures p >= 1
  {
    if n == 0 then 1 else 2 * Pow2(n - 1)
  }

  function Digits(a: seq<Byte>): nat {
    if a == [] then 0 else 256 * Digits(a[..|a| - 1]) + a[|a| - 1]
  }

  /** The number that big-endian bytes denote: Digits under a name that statements can
      share without unfolding it. */
  function Val(a: seq<Byte>): nat {
    Digits(a)
  }

  /** Bitwise operations on w-bit numbers, bit by bit. */
  function And(w: nat, x: nat, y: nat): nat {
    if w == 0 then 0 else 2 * And(w - 1, x / 2, y / 2) + (if x % 2 == 1 && y % 2 == 1 then 1 else 0)
  }

  function Or(w: nat, x: nat, y: nat): nat {
    if w == 0 then 0 else 2 * Or(w - 1, x / 2, y / 2) + (if x % 2 == 1 || y % 2 == 1 then 1 else 0)
  }

  lemma {:induction false} AndBound(w: nat, x: nat, y: nat)
    ensures And(w, x, y) < Pow2(w)
  {
    if w != 0 {
      AndBound(w - 1, x / 2, y / 2);
    }
  }

  lemma {:induction false} OrBound(w: nat, x: nat, y: nat)
    ensures Or(w, x, y) < Pow2(w)
  {
    if w != 0 {
      OrBound(w - 1, x / 2, y / 2);
    }
  }

  lemma Pow2Eight()
    ensures Pow2(8) == 256 && Pow2(0) == 1
  {
    assert Pow2(1) == 2 && Pow2(2) == 4 && Pow2(3) == 8 && Pow2(4) == 16;
    assert Pow2(5) == 32 && Pow2(6) == 64 && Pow2(7) == 128;
  }

  function ByteAnd(x: Byte, y: Byte): Byte {
    AndBound(8, x, y);
    Pow2Eight();
    And(8, x, y)
  }

  function ByteOr(x: Byte, y: Byte): Byte {
    OrBound(8, x, y);
    Pow2Eight();
    Or(8, x, y)
  }

  function ByteNot(x: Byte): Byte {
    255 - x
  }

  // ---- powers of two --------------------------------------------------------

  lemma {:induction false} Pow2Add(a: nat, b: nat)
    ensures Pow2(a + b) == Pow2(a) * Pow2(b)
  {
    if a != 0 {
      Pow2Add(a - 1, b);
      MulAssoc(2, Pow2(a - 1), Pow2(b));
    }
  }

  lemma MulAssoc(a: int, b: int, c: int)
    ensures a * b * c == a * (b * c)
  {
  }

  lemma Pow2Monotone(a: nat, b: nat)
    requires a <= b
    ensures Pow2(a) <= Pow2(b)
  {
    Pow2Add(a, b - a);
    MulAtLeast(Pow2(a), Pow2(b - a));
  }

  lemma MulAtLeast(x: nat, k: nat)
    requires k >= 1
    ensures x <= x * k
  {
  }

  // ---- rounding down to a multiple ------------------------------------------

  /** The remainder by repeated subtraction. */
  function Rem(x: nat, p: nat): (r: nat)
    requires p >= 1
    ensures r < p && r <= x
    decreases x
  {
    if x < p then x else Rem(x - p, p)
  }

  /** x rounded down to a multiple of p. */
  function Floor(x: nat, p: nat): (r: nat)
    requires p >= 1
    ensures r <= x < r + p
  {
    x - Rem(x, p)
  }

  /** The first address of the block of 2^h addresses that x lies in. */
  function Base(x: nat, h: nat): nat {
    Floor(x, Pow2(h))
  }

  /** The decomposition of a number by a divisor is unique. */
  lemma {:induction false} RemUnique(x: nat, p: nat, q: nat, r: nat)
    requires p >= 1 && r < p && x == q * p + r
    ensures Rem(x, p) == r && Floor(x, p) == q * p
    decreases q
  {
    if q > 0 {
      assert q * p == (q - 1) * p + p;
      RemUnique(x - p, p, q - 1, r);
    }
  }

  lemma {:induction false} Quotient(x: nat, p: nat) returns (q: nat)
    requires p >= 1
    ensures x == q * p + Rem(x, p) && Floor(x, p) == q * p
    decreases x
  {
    if x < p {
      q := 0;
    } else {
      var q' := Quotient(x - p, p);
      q := q' + 1;
      assert q * p == q' * p + p;
    }
  }

  lemma RemIsMod(x: nat, p: nat)
    requires p >= 1
    ensures Rem(x, p) == x % p
  {
    assert x == (x / p) * p + x % p;
    RemUnique(x, p, x / p, x % p);
  }

  lemma FloorOne(x: nat)
    ensures Floor(x, 1) == x
  {
  }

  /** Shifting in low digits: (m*x + d) by m*p. */
  lemma RemShift(x: nat, m: nat, d: nat, p: nat)
    requires m >= 1 && p >= 1 && d < m
    ensures m * p >= 1 && Rem(m * x + d, m * p) == m * Rem(x, p) + d
  {
    var q := Quotient(x, p);
    Scale(x, m, d, p, q, Rem(x, p));
    RemUnique(m * x + d, m * p, q, m * Rem(x, p) + d);
  }

  lemma Scale(x: nat, m: nat, d: nat, p: nat, q: nat, r: nat)
    requires m >= 1 && p >= 1 && d < m && r < p && x == q * p + r
    ensures m * p >= 1 && m * r + d < m * p && m * x + d == q * (m * p) + (m * r + d)
  {
    assert m * (q * p + r) == m * (q * p) + m * r;
    MulAssoc(m, q, p);
    MulAssoc(q, m, p);
    MulLe(r + 1, p, m);
    assert m * (r + 1) == m * r + m;
    MulAtLeast(m, p);
  }

  lemma MulLe(a: int, b: int, p: int)
    requires a <= b && p >= 0
    ensures a * p <= b * p
  {
  }

  lemma FloorShift(x: nat, m: nat, d: nat, p: nat)
    requires m >= 1 && p >= 1 && d < m
    ensures m * p >= 1 && Floor(m * x + d, m * p) == m * Floor(x, p)
  {
    RemShift(x, m, d, p);
    var r := Rem(x, p);
    assert m * (x - r) == m * x - m * r;
  }

  /** Rounding to a divisor of 256 looks at the low byte only. */
  lemma FloorLow(x: nat, p: nat, k: nat, d: nat)
    requires p >= 1 && p * k == 256
    ensures Floor(256 * x + d, p) == 256 * x + Floor(d, p)
  {
    var q := Quotient(d, p);
    assert 256 * x == (k * x) * p by {
      MulAssoc(p, k, x);
    }
    assert 256 * x + d == (k * x + q) * p + Rem(d, p);
    RemUnique(256 * x + d, p, k * x + q, Rem(d, p));
  }

  // ---- prefix masks ---------------------------------------------------------

  /** One bit of an AND. */
  lemma AndStep(w: nat, x: nat, m: nat, k: nat, b: nat)
    requires w >= 1 && m == 2 * k + b && b < 2
    ensures And(w, x, m) == 2 * And(w - 1, x / 2, k) + if b == 1 then x % 2 else 0
  {
    Halves(m, k, b);
  }

  lemma {:induction false} AndAll(w: nat, x: nat)
    requires x < Pow2(w)
    ensures And(w, x, Pow2(w) - 1) == x
  {
    if w != 0 {
      AndAll(w - 1, x / 2);
      AndStep(w, x, Pow2(w) - 1, Pow2(w - 1) - 1, 1);
    }
  }

  /** ANDing with a mask of leading ones clears the low h bits. */
  lemma {:induction false} AndPrefix(w: nat, x: nat, h: nat)
    requires h <= w && x < Pow2(w)
    ensures Pow2(h) <= Pow2(w) && And(w, x, Pow2(w) - Pow2(h)) == Floor(x, Pow2(h))
  {
    Pow2Monotone(h, w);
    if h == 0 {
      AndAll(w, x);
      FloorOne(x);
    } else {
      AndPrefix(w - 1, x / 2, h - 1);
      AndShift(w, x, Pow2(w), Pow2(w - 1), Pow2(h), Pow2(h - 1));
    }
  }

  lemma AndShift(w: nat, x: nat, all: nat, all': nat, p: nat, p': nat)
    requires w >= 1 && all == 2 * all' && p == 2 * p' && 1 <= p' <= all'
    requires And(w - 1, x / 2, all' - p') == Floor(x / 2, p')
    ensures And(w, x, all - p) == Floor(x, p)
  {
    AndStep(w, x, all - p, all' - p', 0);
    FloorShift(x / 2, 2, x % 2, p');
    GlueFloor(And(w, x, all - p), x, p', p);
  }

  lemma GlueFloor(masked: nat, x: nat, p: nat, p': nat)
    requires p >= 1 && p' == 2 * p && masked == 2 * Floor(x / 2, p)
    requires Floor(2 * (x / 2) + x % 2, 2 * p) == 2 * Floor(x / 2, p)
    ensures masked == Floor(x, p')
  {
    assert 2 * (x / 2) + x % 2 == x;
  }

  lemma Halves(m: nat, k: nat, b: nat)
    requires m == 2 * k + b && b < 2
    ensures m / 2 == k && m % 2 == b
  {
  }

  /** ORing with the complement of any mask adds the bits that ANDing would drop. */
  lemma {:induction false} OrComplement(w: nat, x: nat, m: nat)
    requires m < Pow2(w)
    ensures Or(w, x, Pow2(w) - 1 - m) == And(w, x, m) + (Pow2(w) - 1 - m)
  {
    if w != 0 {
      var c := Pow2(w) - 1 - m;
      OrComplement(w - 1, x / 2, m / 2);
      assert c / 2 == Pow2(w - 1) - 1 - m / 2 && c % 2 == 1 - m % 2;
    }
  }

  function Clamp(n: int): (c: nat)
    ensures c <= 8
  {
    if n < 0 then 0 else if n > 8 then 8 else n
  }

  /** A byte of k leading ones. */
  function MaskByte(k: nat): Byte
    requires k <= 8
  {
    Pow2Monotone(8 - k, 8);
    Pow2Eight();
    256 - Pow2(8 - k)
  }

  /** net.CIDRMask: `ones` leading ones in `len` bytes. */
  function Mask(len: nat, ones: nat): seq<Byte> {
    seq(len, i requires 0 <= i < len => MaskByte(Clamp(ones - 8 * i)))
  }

  /** IP.Mask */
  function Masked(ip: seq<Byte>, mask: seq<Byte>): seq<Byte>
    requires |ip| == |mask|
  {
    seq(|ip|, i requires 0 <= i < |ip| => ByteAnd(ip[i], mask[i]))
  }

  /** What netconf.Broadcast computes. */
  function BroadcastOf(ip: seq<Byte>, mask: seq<Byte>): seq<Byte>
    requires |ip| == |mask|
  {
    seq(|ip|, i requires 0 <= i < |ip| => ByteOr(ip[i], ByteNot(mask[i])))
  }

  lemma MaskInit(len: nat, ones: nat)
    requires len >= 1
    ensures Mask(len, ones)[..len - 1] == Mask(len - 1, ones)
    ensures ones >= 8 * (len - 1) ==> Mask(len - 1, ones) == Mask(len - 1, 8 * (len - 1))
  {
  }

  lemma MaskedLast(ip: seq<Byte>, mask: seq<Byte>)
    requires |ip| == |mask| >= 1
    ensures var n := |ip| - 1;
            && Val(Masked(ip, mask)) == 256 * Val(Masked(ip[..n], mask[..n])) + ByteAnd(ip[n], mask[n])
            && Val(ip) == 256 * Val(ip[..n]) + ip[n]
  {
    var n := |ip| - 1;
    assert Masked(ip, mask)[..n] == Masked(ip[..n], mask[..n]);
  }

  /** Masking byte by byte rounds the number down to the block size. */
  lemma {:induction false} MaskedVal(ip: seq<Byte>, ones: nat)
    requires ones <= 8 * |ip|
    ensures Val(Masked(ip, Mask(|ip|, ones))) == Base(Val(ip), 8 * |ip| - ones)
  {
    if ip == [] {
      FloorOne(0);
    } else {
      var n := |ip| - 1;
      if ones <= 8 * n {
        MaskedVal(ip[..n], ones);
        LastByteOpen(ip, ones);
      } else {
        MaskedVal(ip[..n], 8 * n);
        LastByteSplit(ip, ones);
      }
    }
  }

  /** The last byte lies wholly in the open part of the address. */
  lemma LastByteOpen(ip: seq<Byte>, ones: nat)
    requires ip != [] && ones <= 8 * (|ip| - 1)
    requires var n := |ip| - 1; Val(Masked(ip[..n], Mask(n, ones))) == Base(Val(ip[..n]), 8 * n - ones)
    ensures Val(Masked(ip, Mask(|ip|, ones))) == Base(Val(ip), 8 * |ip| - ones)
  {
    var n := |ip| - 1;
    LastDigit(ip, ones);
    OpenByte(ip[n]);
    GlueOpen(Val(Masked(ip, Mask(|ip|, ones))), Val(ip), Val(ip[..n]), ip[n], 8 * n - ones, 8 * |ip| - ones);
  }

  lemma GlueOpen(whole: nat, v: nat, init: nat, d: Byte, k: nat, h: nat)
    requires whole == 256 * Base(init, k) && v == 256 * init + d && h == k + 8
    ensures whole == Base(v, h)
  {
    LowByteDropped(init, d, k);
  }

  lemma GlueSplit(whole: nat, v: nat, init: nat, d: Byte, h: nat)
    requires h <= 8 && whole == 256 * init + Base(d, h) && v == 256 * init + d
    ensures whole == Base(v, h)
  {
    LowByteMasked(init, d, h);
  }

  /** The prefix ends within the last byte. */
  lemma LastByteSplit(ip: seq<Byte>, ones: nat)
    requires ip != [] && 8 * (|ip| - 1) <= ones <= 8 * |ip|
    requires var n := |ip| - 1; Val(Masked(ip[..n], Mask(n, 8 * n))) == Base(Val(ip[..n]), 0)
    ensures Val(Masked(ip, Mask(|ip|, ones))) == Base(Val(ip), 8 * |ip| - ones)
  {
    var n, h := |ip| - 1, 8 * |ip| - ones;
    assert Val(Masked(ip, Mask(|ip|, ones))) == 256 * Val(ip[..n]) + Base(ip[n], h) by {
      LastDigit(ip, ones);
      FloorOne(Val(ip[..n]));
      SplitByte(ip[n], h);
    }
    assert Val(ip) == 256 * Val(ip[..n]) + ip[n];
    GlueSplit(Val(Masked(ip, Mask(|ip|, ones))), Val(ip), Val(ip[..n]), ip[n], h);
  }

  lemma LastDigit(ip: seq<Byte>, ones: nat)
    requires ip != [] && ones <= 8 * |ip|
    ensures var n := |ip| - 1;
            && Val(ip) == 256 * Val(ip[..n]) + ip[n]
            && Val(Masked(ip, Mask(|ip|, ones))) ==
               256 * Val(Masked(ip[..n], Mask(n, if ones <= 8 * n then ones else 8 * n))) + ByteAnd(ip[n], MaskByte(Clamp(ones - 8 * n)))
  {
    MaskInit(|ip|, ones);
    MaskedLast(ip, Mask(|ip|, ones));
  }

  lemma OpenByte(d: Byte)
    ensures ByteAnd(d, MaskByte(0)) == 0
  {
    SplitByte(d, 8);
    Pow2Eight();
  }

  lemma SplitByte(d: Byte, h: nat)
    requires h <= 8
    ensures ByteAnd(d, MaskByte(8 - h)) == Floor(d, Pow2(h))
  {
    Pow2Eight();
    AndPrefix(8, d, h);
  }

  lemma LowByteDropped(x: nat, d: Byte, k: nat)
    ensures Floor(256 * x + d, Pow2(k + 8)) == 256 * Floor(x, Pow2(k))
  {
    Pow2Add(k, 8);
    Pow2Eight();
    FloorShift(x, 256, d, Pow2(k));
  }

  lemma LowByteMasked(x: nat, d: Byte, h: nat)
    requires h <= 8
    ensures Floor(256 * x + d, Pow2(h)) == 256 * x + Floor(d, Pow2(h))
  {
    Pow2Add(h, 8 - h);
    Pow2Eight();
    FloorLow(x, Pow2(h), Pow2(8 - h), d);
  }

  lemma {:induction false} ValBound(a: seq<Byte>)
    ensures Val(a) < Pow2(8 * |a|)
  {
    if a != [] {
      ValBound(a[..|a| - 1]);
      Pow2Add(8, 8 * (|a| - 1));
      Pow2Eight();
    }
  }

  lemma {:induction false} ValInjective(a: seq<Byte>, b: seq<Byte>)
    requires |a| == |b| && Val(a) == Val(b)
    ensures a == b
  {
    if a != [] {
      var n := |a| - 1;
      assert a[n] == b[n] && Val(a[..n]) == Val(b[..n]);
      ValInjective(a[..n], b[..n]);
      assert a == a[..n] + [a[n]] && b == b[..n] + [b[n]];
    }
  }

  lemma {:induction false} ValSum(a: seq<Byte>, b: seq<Byte>, c: seq<Byte>)
    requires |a| == |b| == |c| && forall i :: 0 <= i < |a| ==> c[i] as int == a[i] as int + b[i] as int
    ensures Val(c) == Val(a) + Val(b)
  {
    if a != [] {
      ValSum(a[..|a| - 1], b[..|a| - 1], c[..|a| - 1]);
    }
  }

  /** The bits that a prefix leaves open: 2^h - 1. */
  lemma {:induction false} HostBits(len: nat, ones: nat, open: seq<Byte>)
    requires ones <= 8 * len && |open| == len
    requires forall i :: 0 <= i < len ==> open[i] == ByteNot(Mask(len, ones)[i])
    ensures Val(open) == Pow2(8 * len - ones) - 1
  {
    if len != 0 {
      var n := len - 1;
      MaskInit(len, ones);
      assert forall i :: 0 <= i < n ==> Mask(len, ones)[i] == Mask(n, ones)[i];
      Pow2Eight();
      if ones <= 8 * n {
        HostBits(n, ones, open[..n]);
        Pow2Add(8, 8 * n - ones);
      } else {
        HostBits(n, 8 * n, open[..n]);
      }
    }
  }

  lemma OpenBits(len: nat, ones: nat)
    requires ones <= 8 * len
    ensures Val(Complement(Mask(len, ones))) == Pow2(8 * len - ones) - 1
  {
    HostBits(len, ones, Complement(Mask(len, ones)));
  }

  /** The broadcast address is the last one of the block. */
  lemma BroadcastVal(ip: seq<Byte>, ones: nat)
    requires ones <= 8 * |ip|
    ensures Val(BroadcastOf(ip, Mask(|ip|, ones))) ==
            Base(Val(ip), 8 * |ip| - ones) + Pow2(8 * |ip| - ones) - 1
  {
    MaskedVal(ip, ones);
    OpenBits(|ip|, ones);
    LastOfBlock(ip, Mask(|ip|, ones), Base(Val(ip), 8 * |ip| - ones), Pow2(8 * |ip| - ones));
  }

  lemma LastOfBlock(ip: seq<Byte>, mask: seq<Byte>, base: nat, size: nat)
    requires |ip| == |mask| && Val(Masked(ip, mask)) == base && Val(Complement(mask)) == size - 1
    ensures Val(BroadcastOf(ip, mask)) == base + size - 1
  {
    BroadcastAdds(ip, mask);
  }

  function Complement(mask: seq<Byte>): (open: seq<Byte>) {
    seq(|mask|, i requires 0 <= i < |mask| => ByteNot(mask[i]))
  }

  /** The host bits are added to the network without a carry. */
  lemma BroadcastAdds(ip: seq<Byte>, mask: seq<Byte>)
    requires |ip| == |mask|
    ensures Val(BroadcastOf(ip, mask)) == Val(Masked(ip, mask)) + Val(Complement(mask))
  {
    Pow2Eight();
    forall i | 0 <= i < |ip|
      ensures BroadcastOf(ip, mask)[i] as int == Masked(ip, mask)[i] as int + Complement(mask)[i] as int
    {
      OrComplement(8, ip[i], mask[i]);
    }
    ValSum(Masked(ip, mask), Complement(mask), BroadcastOf(ip, mask));
  }

  /** netconf.Broadcast: fills a fresh address byte by byte, reading the first four
      bytes of the mask whatever its length. */
  method Broadcast(ip: seq<Byte>, mask: seq<Byte>) returns (b: array<Byte>)
    requires |ip| == 4 <= |mask|
    ensures fresh(b) && b.Length == 4 && b[..] == BroadcastOf(ip, mask[..4])
  {
    b := new Byte[4];
    for i := 0 to 4
      invariant forall k :: 0 <= k < i ==> b[k] == ByteOr(ip[k], ByteNot(mask[k]))
    {
      b[i] := ByteOr(ip[i], ByteNot(mask[i]));
    }
  }

  // ---- containment ----------------------------------------------------------

  /** IPNet.Contains, on addresses of one length: both sides are masked. */
  predicate Contains(net: seq<Byte>, mask: seq<Byte>, ip: seq<Byte>)
    requires |net| == |mask| == |ip|
  {
    forall i :: 0 <= i < |net| ==> ByteAnd(net[i], mask[i]) == ByteAnd(ip[i], mask[i])
  }

  predicate InBlock(x: nat, base: nat, size: nat) {
    base <= x < base + size
  }

  lemma FloorInBlock(x: nat, y: nat, p: nat)
    requires p >= 1
    ensures Floor(x, p) == Floor(y, p) <==> InBlock(y, Floor(x, p), p)
  {
    if InBlock(y, Floor(x, p), p) {
      var q := Quotient(x, p);
      RemUnique(y, p, q, y - q * p);
    }
  }

  /** Byte-wise containment is membership in an interval of addresses. */
  lemma ContainsIsInterval(net: seq<Byte>, ones: nat, ip: seq<Byte>)
    requires |net| == |ip| && ones <= 8 * |net|
    ensures Contains(net, Mask(|net|, ones), ip) <==>
            InBlock(Val(ip), Base(Val(net), 8 * |net| - ones), Pow2(8 * |net| - ones))
  {
    var size := Pow2(8 * |net| - ones);
    SameMaskedIffContains(net, Mask(|net|, ones), ip);
    MaskedVal(net, ones);
    MaskedVal(ip, ones);
    if Val(Masked(net, Mask(|net|, ones))) == Val(Masked(ip, Mask(|net|, ones))) {
      ValInjective(Masked(net, Mask(|net|, ones)), Masked(ip, Mask(|net|, ones)));
    }
    FloorInBlock(Val(net), Val(ip), size);
  }

  lemma SameMaskedIffContains(net: seq<Byte>, mask: seq<Byte>, ip: seq<Byte>)
    requires |net| == |mask| == |ip|
    ensures Contains(net, mask, ip) <==> Masked(net, mask) == Masked(ip, mask)
  {
    if Masked(net, mask) == Masked(ip, mask) {
      forall i | 0 <= i < |net|
        ensures ByteAnd(net[i], mask[i]) == ByteAnd(ip[i], mask[i])
      {
        assert Masked(net, mask)[i] == ByteAnd(net[i], mask[i]) && Masked(ip, mask)[i] == ByteAnd(ip[i], mask[i]);
      }
    }
    if Contains(net, mask, ip) {
      assert Masked(net, mask) == Masked(ip, mask);
    }
  }

  // ---- increment ------------------------------------------------------------

  function Inc(a: seq<Byte>): seq<Byte> {
    if a == [] then []
    else if a[|a| - 1] == 255 then Inc(a[..|a| - 1]) + [0]
    else a[..|a| - 1] + [a[|a| - 1] + 1]
  }

  /** Carrying byte by byte adds one, modulo the width. */
  lemma {:induction false} IncVal(a: seq<Byte>)
    ensures |Inc(a)| == |a| && Val(Inc(a)) == (Val(a) + 1) % Pow2(8 * |a|)
  {
    ValBound(a);
    if a != [] {
      var n := |a| - 1;
      var init := a[..n];
      IncVal(init);
      if a[n] == 255 {
        assert Inc(a)[..n] == Inc(init);
        Pow2Add(8, 8 * n);
        Pow2Eight();
        RemShift(Val(init) + 1, 256, 0, Pow2(8 * n));
        RemIsMod(Val(init) + 1, Pow2(8 * n));
        RemIsMod(256 * (Val(init) + 1), 256 * Pow2(8 * n));
      } else {
        assert Inc(a)[..n] == init;
        ValBound(Inc(a));
        SmallMod(Val(a) + 1, Pow2(8 * |a|));
      }
    }
  }

  /** The same with the wrap spelled out. */
  lemma IncWraps(a: seq<Byte>)
    ensures |Inc(a)| == |a| && Val(Inc(a)) == if Val(a) + 1 == Pow2(8 * |a|) then 0 else Val(a) + 1
  {
    ValBound(a);
    IncVal(a);
    if Val(a) + 1 < Pow2(8 * |a|) {
      SmallMod(Val(a) + 1, Pow2(8 * |a|));
    }
  }

  lemma SmallMod(x: nat, p: nat)
    requires x < p
    ensures x % p == x
  {
  }

  lemma CarryEnds(was: seq<Byte>, i: nat, zeros: seq<Byte>)
    requires i < |was| && was[i] != 255 && Inc(was) == Inc(was[..i + 1]) + zeros
    ensures Inc(was) == was[..i] + [was[i] + 1] + zeros
  {
    assert was[..i + 1][..i] == was[..i];
  }

  lemma IncFull(a: seq<Byte>)
    requires a != [] && a[|a| - 1] == 255
    ensures Inc(a) == Inc(a[..|a| - 1]) + [0]
  {
  }

  lemma Assoc(a: seq<Byte>, b: seq<Byte>, c: seq<Byte>)
    ensures a + b + c == a + (b + c)
  {
  }

  lemma CarryGoesOn(was: seq<Byte>, i: nat, zeros: seq<Byte>)
    requires i < |was| && was[i] == 255 && Inc(was) == Inc(was[..i + 1]) + zeros
    ensures Inc(was) == Inc(was[..i]) + ([0] + zeros)
  {
    var head := was[..i + 1];
    assert head[..i] == was[..i];
    IncFull(head);
    Assoc(Inc(was[..i]), [0], zeros);
  }

  /** Writing the byte in front of the finished tail. */
  lemma ByteWritten(before: seq<Byte>, after: seq<Byte>, was: seq<Byte>, i: nat, b: Byte, tail: seq<Byte>)
    requires i < |was| == |before| == |after| && before == was[..i + 1] + tail
    requires after == before[i := b]
    ensures after == was[..i] + ([b] + tail)
  {
  }

  /** scan.inc: in place, from the last byte, stopping where no carry is left. */
  method IncInPlace(ip: array<Byte>)
    modifies ip
    ensures ip[..] == Inc(old(ip[..]))
  {
    ghost var was := ip[..];
    ghost var zeros: seq<Byte> := [];
    var i := ip.Length - 1;
    assert was[..i + 1] == was;
    while i >= 0
      invariant -1 <= i < ip.Length
      invariant ip[..] == was[..i + 1] + zeros
      invariant Inc(was) == Inc(was[..i + 1]) + zeros
    {
      ghost var before := ip[..];
      var b: Byte := (ip[i] as int + 1) % 256;
      ip[i] := b;
      ByteWritten(before, ip[..], was, i, b, zeros);
      if b != 0 {
        CarryEnds(was, i, zeros);
        Assoc(was[..i], [b], zeros);
        return;
      }
      CarryGoesOn(was, i, zeros);
      zeros := [0] + zeros;
      i := i - 1;
    }
    assert was[..0] == [] && Inc([]) == [];
  }

  // ---- the two lengths of an address ------------------------------------------

  /** The first twelve bytes of an IPv4-mapped address. */
  predicate V4InV6(a: seq<Byte>) {
    |a| == 16 && (forall i :: 0 <= i < 10 ==> a[i] == 0) && a[10] == 255 && a[11] == 255
  }

  /** IP.To4 */
  function To4(a: seq<Byte>): (r: Option<seq<Byte>>)
    ensures r.Some? ==> |r.value| == 4
  {
    if |a| == 4 then Some(a) else if V4InV6(a) then Some(a[12..]) else None
  }

  lemma {:induction false} AndTwice(w: nat, x: nat, y: nat)
    ensures And(w, And(w, x, y), y) == And(w, x, y)
  {
    if w != 0 {
      AndTwice(w - 1, x / 2, y / 2);
      Halves(And(w, x, y), And(w - 1, x / 2, y / 2), if x % 2 == 1 && y % 2 == 1 then 1 else 0);
    }
  }

  lemma {:induction false} AndBelow(w: nat, x: nat, y: nat)
    ensures And(w, x, y) <= y
  {
    if w != 0 {
      AndBelow(w - 1, x / 2, y / 2);
    }
  }

  lemma MaskedTwice(ip: seq<Byte>, mask: seq<Byte>)
    requires |ip| == |mask|
    ensures Masked(Masked(ip, mask), mask) == Masked(ip, mask)
  {
    forall i | 0 <= i < |ip|
      ensures Masked(Masked(ip, mask), mask)[i] == Masked(ip, mask)[i]
    {
      AndTwice(8, ip[i], mask[i]);
    }
  }

  /** A byte of the mask that leaves all bits set has all bits set. */
  lemma FullMaskByte(x: Byte, k: nat)
    requires k <= 8 && ByteAnd(x, MaskByte(k)) == 255
    ensures k == 8
  {
    if k < 8 {
      Pow2Monotone(1, 8 - k);
    }
    AndBelow(8, x, MaskByte(k));
  }

  lemma FullByte(x: Byte)
    ensures MaskByte(8) == 255 && ByteAnd(x, 255) == x && ByteOr(x, ByteNot(255)) == x
  {
    Pow2Eight();
    AndPrefix(8, x, 0);
    FloorOne(x);
    OrComplement(8, x, 255);
  }

  /** The two halves of a long mask: twelve full bytes and a short mask. */
  lemma LongMask(ones: nat)
    requires 96 <= ones <= 128
    ensures Mask(16, ones)[12..] == Mask(4, ones - 96)
    ensures forall i :: 0 <= i < 12 ==> Mask(16, ones)[i] == 255
  {
    FullByte(0);
    forall i | 0 <= i < 4
      ensures Mask(16, ones)[12..][i] == Mask(4, ones - 96)[i]
    {
    }
  }

  /** What a network in IPv4-mapped form is in four bytes, and that only a mask of
      at least 96 bits leaves it in that form. */
  lemma LongNetwork(ip: seq<Byte>, ones: nat)
    requires |ip| == 16 && ones <= 128
    ensures To4(Masked(ip, Mask(16, ones))).Some? <==> V4InV6(ip) && ones >= 96
    ensures V4InV6(ip) && ones >= 96 ==> Masked(ip, Mask(16, ones))[12..] == Masked(ip[12..], Mask(4, ones - 96))
  {
    var m := Masked(ip, Mask(16, ones));
    if V4InV6(m) {
      FullMaskByte(ip[11], Clamp(ones - 88));
    }
    if ones >= 96 {
      LongMask(ones);
      forall i | 0 <= i < 12
        ensures m[i] == ip[i]
      {
        FullByte(ip[i]);
      }
      TailOfMasked(ip, Mask(16, ones), 12);
    }
  }

  lemma TailOfMasked(ip: seq<Byte>, mask: seq<Byte>, n: nat)
    requires n <= |ip| == |mask|
    ensures Masked(ip, mask)[n..] == Masked(ip[n..], mask[n..])
  {
  }

  /** With the head of a long mask the broadcast is the address itself. */
  lemma NoBroadcast(ip: seq<Byte>, ones: nat)
    requires |ip| == 4 && 96 <= ones <= 128
    ensures BroadcastOf(ip, Mask(16, ones)[..4]) == ip
  {
    LongMask(ones);
    forall i | 0 <= i < 4
      ensures BroadcastOf(ip, Mask(16, ones)[..4])[i] == ip[i]
    {
      FullByte(ip[i]);
    }
  }

  lemma {:induction false} ZeroVal(a: seq<Byte>)
    requires forall i :: 0 <= i < |a| ==> a[i] == 0
    ensures Val(a) == 0
  {
    if a != [] {
      ZeroVal(a[..|a| - 1]);
    }
  }

  lemma PrefixVal(p: seq<Byte>)
    requires |p| == 12 && (forall i :: 0 <= i < 10 ==> p[i] == 0) && p[10] == 255 && p[11] == 255
    ensures Val(p) == 0xffff
  {
    var q, z := p[..11], p[..10];
    assert q[..10] == z && p[..|p| - 1] == q && q[..|q| - 1] == z;
    ZeroVal(z);
    assert Val(q) == 256 * Val(z) + 255;
    assert Val(p) == 256 * Val(q) + 255;
  }

  /** An address is IPv4-mapped exactly if its first 96 bits are the number 0xffff. */
  lemma MappedMeaning(a: seq<Byte>)
    requires |a| == 16
    ensures V4InV6(a) <==> Val(a[..12]) == 0xffff
  {
    var p := a[..12];
    var z: seq<Byte> := [0, 0, 0, 0, 0, 0, 0, 0, 0, 0, 255, 255];
    PrefixVal(z);
    if V4InV6(a) {
      PrefixVal(p);
    } else if Val(p) == 0xffff {
      ValInjective(p, z);
      assert forall i :: 0 <= i < 12 ==> a[i] == p[i] == z[i];
      assert false;
    }
  }
}
