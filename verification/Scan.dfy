/** The subnet sweep: enumerating the hosts of a network and validating a target. */
module Scan {
  import opened Prelude
  import opened Ipv4

  /** Caps a sweep. */
  const MAX_HOSTS := 1024

  /** An IPv4 network: four address bytes, host bits allowed, and a prefix length. */
  datatype Net = Net(ip: seq<Byte>, ones: nat)

  predicate IsNet(n: Net) {
    |n.ip| == 4 && n.ones <= 32
  }

  /** The number of addresses in a block with this prefix length. */
  function Size(ones: nat): (s: nat)
    requires ones <= 32
  {
    Pow2(32 - ones)
  }

  function First(n: Net): nat
    requires IsNet(n)
  {
    Base(Val(n.ip), 32 - n.ones)
  }

  predicate InNet(x: nat, n: Net)
    requires IsNet(n)
  {
    First(n) <= x < First(n) + Size(n.ones)
  }

  /** The number of IPv4 addresses. */
  const ADDRESSES := 0x1_0000_0000

  lemma Pow2At32()
    ensures Pow2(32) == ADDRESSES
  {
    Pow2Eight();
    Pow2Add(8, 8);
    Pow2Add(16, 16);
  }

  /** A block never reaches past the end of the address space, and a proper block
      that ends there does not start at zero. */
  lemma BlockFits(n: Net)
    requires IsNet(n)
    ensures First(n) + Size(n.ones) <= ADDRESSES
    ensures n.ones >= 1 ==> First(n) + Size(n.ones) < ADDRESSES || First(n) >= Size(n.ones)
  {
    ValBound(n.ip);
    Pow2At32();
    Pow2Add(32 - n.ones, n.ones);
    var q := Quotient(Val(n.ip), Size(n.ones));
    if n.ones >= 1 {
      Pow2Monotone(1, n.ones);
    }
    MultipleFits(Size(n.ones), Pow2(n.ones), q, Val(n.ip));
  }

  lemma MultipleFits(p: nat, k: nat, q: nat, v: nat)
    requires p >= 1 && k >= 1 && q * p <= v < p * k
    ensures q * p + p <= p * k
    ensures k >= 2 ==> q * p + p < p * k || q * p >= p
  {
    assert p * k == k * p;
    if q >= k {
      MulLe(k, q, p);
      assert false;
    }
    MulLe(q + 1, k, p);
    assert (q + 1) * p == q * p + p;
    if q == 0 {
      if k >= 2 {
        MulLe(2, k, p);
      }
    } else {
      MulLe(1, q, p);
    }
  }

  // ---- a parsed CIDR ----------------------------------------------------------

  /** What net.ParseCIDR makes of a text: the address and the prefix length. An IPv4
      text has four bytes, an IPv6 one sixteen, also if it denotes an IPv4-mapped
      address. */
  datatype Cidr = Cidr(ip: seq<Byte>, ones: nat)

  predicate IsCidr(c: Cidr) {
    (|c.ip| == 4 && c.ones <= 32) || (|c.ip| == 16 && c.ones <= 128)
  }

  function MaskOf(c: Cidr): (m: seq<Byte>)
    requires IsCidr(c)
    ensures |m| == |c.ip|
  {
    Mask(|c.ip|, c.ones)
  }

  /** The address of the parsed network: host bits cleared. */
  function NetIp(c: Cidr): (ip: seq<Byte>)
    requires IsCidr(c)
    ensures |ip| == |c.ip|
  {
    Masked(c.ip, MaskOf(c))
  }

  /** The IPv4 network that a parsed CIDR stands for, if To4 finds one. */
  function Number(c: Cidr): (n: Option<Net>)
    requires IsCidr(c)
    ensures n.Some? ==> IsNet(n.value)
  {
    var short := To4(NetIp(c));
    if short.None? then None
    else Some(Net(short.value, if |c.ip| == 4 then c.ones else if c.ones >= 96 then c.ones - 96 else 0))
  }

  /** The part of the mask that containment looks at. */
  function ShortMask(mask: seq<Byte>): seq<Byte> {
    if |mask| == 16 then mask[12..] else mask
  }

  /** In either spelling the network is masked already, its short mask is the one of
      its prefix, and masking it again changes nothing. */
  lemma NumberMasked(c: Cidr)
    requires IsCidr(c) && Number(c).Some?
    ensures var n := Number(c).value;
            && n.ip == Masked(n.ip, Mask(4, n.ones)) && ShortMask(MaskOf(c)) == Mask(4, n.ones)
            && (|c.ip| == 16 ==> c.ones == n.ones + 96)
  {
    if |c.ip| == 4 {
      MaskedTwice(c.ip, MaskOf(c));
    } else {
      LongNetwork(c.ip, c.ones);
      LongMask(c.ones);
      MaskedTwice(c.ip[12..], Mask(4, c.ones - 96));
    }
  }

  /** How far from the start of the block the address lies that Broadcast returns for
      it. From a mask of sixteen bytes it reads the wrong four: it returns the
      network address. */
  function BroadcastAt(c: Cidr, n: Net): nat
    requires n.ones <= 32
  {
    if |c.ip| == 4 then Size(n.ones) - 1 else 0
  }

  lemma BroadcastFound(c: Cidr)
    requires IsCidr(c) && Number(c).Some?
    ensures var n := Number(c).value;
            Val(BroadcastOf(n.ip, MaskOf(c)[..4])) == First(n) + BroadcastAt(c, n)
  {
    var n := Number(c).value;
    NumberMasked(c);
    NetworkVal(n);
    if |c.ip| == 4 {
      assert MaskOf(c)[..4] == Mask(4, n.ones);
      LastVal(n, n.ip);
    } else {
      NoBroadcast(n.ip, c.ones);
    }
  }

  // ---- the sweep ----------------------------------------------------------------

  /** How many addresses the sweep of a parsed CIDR visits. */
  function HostCount(c: Cidr): nat
    requires IsCidr(c)
  {
    match Number(c)
    case None => 0
    case Some(n) => if |c.ip| == 4 then Max(0, Size(n.ones) - 2) else Size(n.ones) - 1
  }

  /** An empty prefix would never end the loop. */
  predicate Ends(c: Cidr)
    requires IsCidr(c)
  {
    Number(c).Some? ==> Number(c).value.ones >= 1
  }

  /** scan.enumerate. The source only passes validated networks, which have a prefix.
      The result is a run of addresses in ascending order, from the second of the
      block on: up to the last but one in the IPv4 spelling, up to the last one in
      the IPv4-mapped spelling. */
  method Enumerate(c: Cidr) returns (out: seq<seq<Byte>>)
    requires IsCidr(c) && Ends(c)
    ensures |out| == HostCount(c)
    ensures Number(c).Some? ==>
              forall k :: 0 <= k < |out| ==> |out[k]| == 4 && Val(out[k]) == First(Number(c).value) + 1 + k
  {
    var mask := MaskOf(c);
    var short := To4(Masked(NetIp(c), mask));
    MaskedTwice(c.ip, mask);
    out := [];
    if short.None? {
      return;
    }
    NumberMasked(c);
    BroadcastFound(c);
    var bcast := Broadcast(short.value, mask);
    out := Walk(short.value, ShortMask(mask), bcast[..], Number(c).value, BroadcastAt(c, Number(c).value));
  }

  /** The loop of enumerate. */
  method Walk(network: seq<Byte>, mask: seq<Byte>, bcast: seq<Byte>, ghost n: Net, ghost at: nat) returns (out: seq<seq<Byte>>)
    requires IsNet(n) && n.ones >= 1 && network == n.ip == Masked(n.ip, Mask(4, n.ones)) && mask == Mask(4, n.ones)
    requires |bcast| == 4 && Val(bcast) == First(n) + at && (at == 0 || at == Size(n.ones) - 1)
    ensures |out| == Visited(Size(n.ones), at)
    ensures forall k :: 0 <= k < |out| ==> |out[k]| == 4 && Val(out[k]) == First(n) + 1 + k
  {
    NetworkVal(n);
    BlockFits(n);
    var cur := new Byte[4](i requires 0 <= i < 4 => network[i]);
    assert cur[..] == network;
    out := [];
    ghost var done: nat := 0;
    while Contains(network, mask, cur[..])
      invariant cur.Length == 4 && fresh(cur)
      invariant done <= Size(n.ones) && Val(cur[..]) == Nth(n, done)
      invariant |out| == Visited(done, at)
      invariant forall k :: 0 <= k < |out| ==> |out[k]| == 4 && Val(out[k]) == First(n) + 1 + k
      decreases Size(n.ones) - done
    {
      SweepStep(n, bcast, at, cur[..], done);
      if cur[..] != network && cur[..] != bcast {
        out := out + [cur[..]];
      }
      IncInPlace(cur);
      done := done + 1;
    }
    SweepStep(n, bcast, at, cur[..], done);
  }

  /** How many of the first `done` addresses of a block are visited, when the first
      one and the one at `at` are skipped. */
  function Visited(done: nat, at: nat): nat {
    if done == 0 then 0 else if 0 < at < done then done - 2 else done - 1
  }

  /** The value of the loop variable after `done` increments, with the wrap that a
      block ending at 255.255.255.255 runs into. */
  function Nth(n: Net, done: nat): nat
    requires IsNet(n)
  {
    if First(n) + done < ADDRESSES then First(n) + done else 0
  }

  /** One round of the sweep: the guard counts the rounds, the first address and the
      one taken for the broadcast are skipped, and the increment moves on. */
  lemma SweepStep(n: Net, skipped: seq<Byte>, at: nat, cur: seq<Byte>, done: nat)
    requires IsNet(n) && n.ones >= 1 && n.ip == Masked(n.ip, Mask(4, n.ones))
    requires |cur| == |skipped| == 4 && Val(skipped) == First(n) + at
    requires done <= Size(n.ones) && Val(cur) == Nth(n, done)
    ensures Contains(n.ip, Mask(4, n.ones), cur) <==> done < Size(n.ones)
    ensures done < Size(n.ones) ==>
              && (cur == n.ip <==> done == 0) && (cur == skipped <==> done == at)
              && Val(Inc(cur)) == Nth(n, done + 1)
  {
    BlockFits(n);
    GuardHolds(n, n.ip, cur);
    if done < Size(n.ones) {
      NetworkVal(n);
      EqualByValue(cur, n.ip);
      EqualByValue(cur, skipped);
      SweepNext(n, cur, done);
    }
  }

  lemma SweepNext(n: Net, cur: seq<Byte>, done: nat)
    requires IsNet(n) && n.ones >= 1 && |cur| == 4 && done < Size(n.ones) && Val(cur) == First(n) + done
    requires First(n) + Size(n.ones) <= ADDRESSES
    ensures |Inc(cur)| == 4 && Val(Inc(cur)) == Nth(n, done + 1)
  {
    IncWraps(cur);
    Pow2At32();
  }

  lemma EqualByValue(a: seq<Byte>, b: seq<Byte>)
    requires |a| == |b|
    ensures a == b <==> Val(a) == Val(b)
  {
    if Val(a) == Val(b) {
      ValInjective(a, b);
    }
  }

  lemma NetworkVal(n: Net)
    requires IsNet(n)
    ensures Val(Masked(n.ip, Mask(4, n.ones))) == First(n)
  {
    MaskedVal(n.ip, n.ones);
  }

  lemma FirstFixed(n: Net)
    requires IsNet(n)
    ensures Base(First(n), 32 - n.ones) == First(n)
  {
    BaseTwice(Val(n.ip), 32 - n.ones);
  }

  lemma LastVal(n: Net, network: seq<Byte>)
    requires IsNet(n) && |network| == 4 && Val(network) == First(n)
    ensures Val(BroadcastOf(network, Mask(4, n.ones))) == First(n) + Size(n.ones) - 1
  {
    FourBytes(network, n.ones);
    LastOfNet(n, Val(network), Val(BroadcastOf(network, Mask(4, n.ones))));
  }

  lemma LastOfNet(n: Net, v: nat, last: nat)
    requires IsNet(n) && v == First(n) && last == Base(v, 32 - n.ones) + Pow2(32 - n.ones) - 1
    ensures last == First(n) + Size(n.ones) - 1
  {
    FirstFixed(n);
  }

  lemma FourBytes(ip: seq<Byte>, ones: nat)
    requires |ip| == 4 && ones <= 32
    ensures Val(BroadcastOf(ip, Mask(4, ones))) == Base(Val(ip), 32 - ones) + Pow2(32 - ones) - 1
  {
    BroadcastVal(ip, ones);
  }

  lemma NetworkFacts(n: Net, network: seq<Byte>, bcast: seq<Byte>)
    requires IsNet(n) && network == Masked(n.ip, Mask(4, n.ones)) && bcast == BroadcastOf(network, Mask(4, n.ones))
    ensures |network| == |bcast| == 4 && Val(network) == First(n) && Val(bcast) == First(n) + Size(n.ones) - 1
  {
    NetworkVal(n);
    LastVal(n, network);
  }

  lemma BaseTwice(x: nat, h: nat)
    ensures Base(Base(x, h), h) == Base(x, h)
  {
    FloorInBlock(x, Base(x, h), Pow2(h));
  }

  /** The loop guard is membership of the block. */
  lemma GuardHolds(n: Net, network: seq<Byte>, ip: seq<Byte>)
    requires IsNet(n) && |ip| == 4 && network == Masked(n.ip, Mask(4, n.ones))
    ensures Contains(network, Mask(4, n.ones), ip) <==> InNet(Val(ip), n)
  {
    NetworkVal(n);
    FirstFixed(n);
    ContainsIsInterval(network, n.ones, ip);
    GlueBlock(Val(ip), Val(network), First(n), 32 - n.ones, Size(n.ones));
  }

  lemma GlueBlock(x: nat, v: nat, first: nat, h: nat, size: nat)
    requires v == first && Base(first, h) == first && size == Pow2(h)
    ensures InBlock(x, Base(v, h), Pow2(h)) <==> first <= x < first + size
  {
  }

  /** With an empty prefix the guard never fails, so the loop would not end: it ends
      exactly for the networks that have a prefix. */
  lemma GuardFailsIff(n: Net)
    requires IsNet(n)
    ensures (forall ip: seq<Byte> :: |ip| == 4 ==> Contains(Masked(n.ip, Mask(4, n.ones)), Mask(4, n.ones), ip)) <==> n.ones == 0
  {
    if n.ones == 0 {
      forall ip: seq<Byte> | |ip| == 4
        ensures Contains(Masked(n.ip, Mask(4, n.ones)), Mask(4, n.ones), ip)
      {
        EmptyPrefixHasAll(n, ip);
      }
    } else {
      var after := SomeOutside(n);
    }
  }

  lemma EmptyPrefixHasAll(n: Net, ip: seq<Byte>)
    requires IsNet(n) && n.ones == 0 && |ip| == 4
    ensures Contains(Masked(n.ip, Mask(4, n.ones)), Mask(4, n.ones), ip)
  {
    BlockFits(n);
    Pow2At32();
    ValBound(ip);
    GuardHolds(n, Masked(n.ip, Mask(4, n.ones)), ip);
  }

  /** The address after the last one, which wraps if the block ends the space. */
  lemma SomeOutside(n: Net) returns (after: seq<Byte>)
    requires IsNet(n) && n.ones >= 1
    ensures |after| == 4 && !Contains(Masked(n.ip, Mask(4, n.ones)), Mask(4, n.ones), after)
  {
    var network := Masked(n.ip, Mask(4, n.ones));
    var last := BroadcastOf(network, Mask(4, n.ones));
    NetworkFacts(n, network, last);
    BlockFits(n);
    SweepNext(n, last, Size(n.ones) - 1);
    after := Inc(last);
    GuardHolds(n, network, after);
  }

  // ---- blocks are nested or disjoint ----------------------------------------

  predicate Inside(a: nat, sizeA: nat, b: nat, sizeB: nat) {
    b <= a && a + sizeA <= b + sizeB
  }

  predicate Apart(a: nat, sizeA: nat, b: nat, sizeB: nat) {
    a + sizeA <= b || b + sizeB <= a
  }

  /** The smaller of two aligned blocks lies inside the larger one or apart from it. */
  lemma Laminar(x: nat, h: nat, y: nat, k: nat)
    requires h <= k
    ensures Inside(Base(x, h), Pow2(h), Base(y, k), Pow2(k)) || Apart(Base(x, h), Pow2(h), Base(y, k), Pow2(k))
  {
    Pow2Add(h, k - h);
    FloorsNest(x, Pow2(h), y, Pow2(k), Pow2(k - h));
  }

  lemma FloorsNest(x: nat, p: nat, y: nat, p': nat, m: nat)
    requires p >= 1 && m >= 1 && p' >= 1 && p' == p * m
    ensures Inside(Floor(x, p), p, Floor(y, p'), p') || Apart(Floor(x, p), p, Floor(y, p'), p')
  {
    var q := Quotient(x, p);
    var r := Quotient(y, p');
    NestedMultiples(p, m, q, r);
  }

  lemma NestedMultiples(p: nat, m: nat, q: nat, r: nat)
    requires p >= 1 && m >= 1
    ensures Inside(q * p, p, r * (p * m), p * m) || Apart(q * p, p, r * (p * m), p * m)
  {
    var lo, hi := r * m, r * m + m;
    assert r * (p * m) == lo * p by {
      MulAssoc(r, m, p);
      assert p * m == m * p;
    }
    assert hi * p == lo * p + p * m;
    if q < lo {
      MulLe(q + 1, lo, p);
      assert (q + 1) * p == q * p + p;
    } else if q >= hi {
      MulLe(hi, q, p);
    } else {
      MulLe(lo, q, p);
      MulLe(q + 1, hi, p);
      assert (q + 1) * p == q * p + p;
    }
  }

  // ---- Validate -------------------------------------------------------------

  datatype Verdict = Accepted | InvalidCidr | Ipv4Only | OffSubnet | TooLarge

  /** IPNet.Contains of the box's own network, for an address of either length. */
  predicate OnSubnet(local: Net, ip: seq<Byte>)
    requires IsNet(local)
  {
    To4(ip).Some? && Contains(Masked(local.ip, Mask(4, local.ones)), Mask(4, local.ones), To4(ip).value)
  }

  /** scan.Validate, on the parsed text or None for a malformed one. The network is
      printed for SubnetSize, which takes the IPv4 form where there is one; its
      error for any other network is dropped, and the size counts as zero. */
  function Validate(t: Option<Cidr>, local: Option<Net>): Verdict
    requires (t.Some? ==> IsCidr(t.value)) && (local.Some? ==> IsNet(local.value))
  {
    if t.None? then InvalidCidr
    else if To4(t.value.ip).None? then Ipv4Only
    else if local.Some? && !OnSubnet(local.value, NetIp(t.value)) then OffSubnet
    else
      var n := Number(t.value);
      if n.Some? && Size(n.value.ones) > MAX_HOSTS then TooLarge else Accepted
  }

  predicate Reaches(b: Net, n: Net)
    requires IsNet(b) && IsNet(n)
  {
    Inside(First(b), Size(b.ones), First(n), Size(n.ones))
  }

  /** Every verdict by its reason, first come first served: the text, the family, the
      subnet, the size. In particular every target of at most 1024 addresses that
      starts inside the subnet is accepted. */
  lemma ValidateMeaning(t: Option<Cidr>, local: Option<Net>)
    requires (t.Some? ==> IsCidr(t.value)) && (local.Some? ==> IsNet(local.value))
    ensures Validate(t, local) == InvalidCidr <==> t.None?
    ensures Validate(t, local) == Ipv4Only <==> t.Some? && To4(t.value.ip).None?
    ensures Validate(t, local) == OffSubnet <==>
            t.Some? && To4(t.value.ip).Some? && local.Some? && !StartsIn(t.value, local.value)
    ensures Validate(t, local) == TooLarge <==>
            && t.Some? && To4(t.value.ip).Some? && (local.Some? ==> StartsIn(t.value, local.value))
            && Number(t.value).Some? && Size(Number(t.value).value.ones) > 1024
    ensures Validate(t, local) == Accepted <==>
            && t.Some? && To4(t.value.ip).Some? && (local.Some? ==> StartsIn(t.value, local.value))
            && (Number(t.value).Some? ==> Size(Number(t.value).value.ones) <= 1024)
  {
    if t.Some? && local.Some? {
      OnSubnetIff(t.value, local.value);
    }
  }

  predicate StartsIn(c: Cidr, n: Net)
    requires IsCidr(c) && IsNet(n)
  {
    Number(c).Some? && InNet(First(Number(c).value), n)
  }

  lemma OnSubnetIff(c: Cidr, n: Net)
    requires IsCidr(c) && IsNet(n)
    ensures OnSubnet(n, NetIp(c)) <==> StartsIn(c, n)
  {
    if Number(c).Some? {
      NumberMasked(c);
      NetworkVal(Number(c).value);
      GuardHolds(n, Masked(n.ip, Mask(4, n.ones)), Number(c).value.ip);
    }
  }

  /** What acceptance guarantees. The sweep ends and visits at most 1022 addresses in
      the IPv4 spelling, but 1023 in the IPv4-mapped one; and, when the box knows its
      own subnet, the target is nested with it: inside it exactly when its prefix is
      at least as long, and otherwise around it. */
  lemma AcceptedTargets(c: Cidr, local: Option<Net>)
    requires IsCidr(c) && (local.Some? ==> IsNet(local.value))
    requires Validate(Some(c), local) == Accepted
    ensures Ends(c) && HostCount(c) <= if |c.ip| == 4 then 1022 else 1023
    ensures Number(c).None? ==> local.None? && HostCount(c) == 0
    ensures Number(c).Some? && local.Some? ==>
              var b, n := Number(c).value, local.value;
              && (Reaches(b, n) <==> b.ones >= n.ones)
              && (b.ones < n.ones ==> Reaches(n, b))
  {
    Pow2At32();
    if Number(c).Some? && local.Some? {
      var b, n := Number(c).value, local.value;
      NumberMasked(c);
      NetworkVal(b);
      GuardHolds(n, Masked(n.ip, Mask(4, n.ones)), b.ip);
      NestedByPrefix(b, n);
    }
  }

  /** The sweep visits x; Enumerate returns exactly these, in order. */
  predicate Visits(c: Cidr, x: nat)
    requires IsCidr(c)
  {
    Number(c).Some? && First(Number(c).value) < x <= First(Number(c).value) + HostCount(c)
  }

  /** The sweep leaves out the last address of the block exactly in the IPv4 spelling
      and for a block of a single address. */
  lemma LastIsVisitedIff(c: Cidr)
    requires IsCidr(c) && Number(c).Some?
    ensures var n := Number(c).value;
            Visits(c, First(n) + Size(n.ones) - 1) <==> |c.ip| == 16 && Size(n.ones) >= 2
  {
  }

  /** Such as ::ffff:a.b.c.d/118: accepted, and 1023 addresses are visited, the
      broadcast address of the block among them. */
  lemma MappedExample(c: Cidr)
    requires |c.ip| == 16 && V4InV6(c.ip) && c.ones == 118
    ensures IsCidr(c) && Validate(Some(c), None) == Accepted && HostCount(c) == 1023
    ensures Number(c).Some? && Number(c).value.ones == 22
    ensures BroadcastOf(Number(c).value.ip, MaskOf(c)[..4]) == Number(c).value.ip
  {
    LongNetwork(c.ip, c.ones);
    SizeOf22(Number(c).value.ones);
    NoBroadcast(Number(c).value.ip, c.ones);
  }

  lemma SizeOf22(ones: nat)
    requires ones == 22
    ensures Size(ones) == MAX_HOSTS
  {
    Pow2Eight();
    Pow2Add(2, 8);
  }

  lemma NestedByPrefix(b: Net, n: Net)
    requires IsNet(b) && IsNet(n) && InNet(First(b), n)
    ensures Reaches(b, n) <==> b.ones >= n.ones
    ensures b.ones < n.ones ==> Reaches(n, b)
  {
    if b.ones >= n.ones {
      LongerReaches(b, n);
    } else {
      ShorterSurrounds(b, n);
    }
  }

  lemma LongerReaches(b: Net, n: Net)
    requires IsNet(b) && IsNet(n) && InNet(First(b), n) && b.ones >= n.ones
    ensures Reaches(b, n)
  {
    FirstFixed(b);
    SmallerIsInside(First(b), 32 - b.ones, Val(n.ip), 32 - n.ones);
  }

  lemma ShorterSurrounds(b: Net, n: Net)
    requires IsNet(b) && IsNet(n) && InNet(First(b), n) && b.ones < n.ones
    ensures Reaches(n, b) && !Reaches(b, n)
  {
    FirstFixed(b);
    LargerIsAround(First(b), 32 - b.ones, Val(n.ip), 32 - n.ones);
  }

  lemma SmallerIsInside(a: nat, h: nat, y: nat, k: nat)
    requires h <= k && Base(a, h) == a && Base(y, k) <= a < Base(y, k) + Pow2(k)
    ensures Inside(a, Pow2(h), Base(y, k), Pow2(k))
  {
    Laminar(a, h, y, k);
  }

  lemma LargerIsAround(a: nat, h: nat, y: nat, k: nat)
    requires k < h && Base(a, h) == a && Base(y, k) <= a < Base(y, k) + Pow2(k)
    ensures Inside(Base(y, k), Pow2(k), a, Pow2(h)) && !Inside(a, Pow2(h), Base(y, k), Pow2(k))
  {
    Laminar(y, k, a, h);
    Pow2Monotone(k, h - 1);
    assert Pow2(h) == 2 * Pow2(h - 1);
  }

  /** The block of this length at the subnet's own first address is accepted although
      it is not inside the subnet. */
  predicate EscapesFrom(home: Net, ones: nat)
    requires IsNet(home) && ones <= 32
  {
    var c := Cidr(Masked(home.ip, Mask(4, home.ones)), ones);
    && Validate(Some(c), Some(home)) == Accepted
    && Number(c).Some? && First(Number(c).value) == First(home) && !Reaches(Number(c).value, home)
  }

  /** The doc comment promises containment in the box's subnet. It fails for every
      subnet whose first address also starts a larger block of at most 1024
      addresses: that block is accepted and reaches beyond the subnet. */
  lemma ShorterPrefixEscapes(home: Net, ones: nat)
    requires IsNet(home) && 22 <= ones < home.ones && Base(First(home), 32 - ones) == First(home)
    ensures EscapesFrom(home, ones)
  {
    var network := Masked(home.ip, Mask(4, home.ones));
    NetworkVal(home);
    NumberOfNetwork(network, ones);
    GuardHolds(home, network, network);
    BlockFits(home);
    SizeUpTo(ones);
    EscapeOf(home, network, ones);
  }

  lemma EscapeOf(home: Net, network: seq<Byte>, ones: nat)
    requires IsNet(home) && |network| == 4 && ones < home.ones && Size(ones) <= MAX_HOSTS
    requires network == Masked(home.ip, Mask(4, home.ones)) && OnSubnet(home, network) && InNet(First(home), home)
    requires NetIp(Cidr(network, ones)) == network && First(Net(network, ones)) == First(home)
    ensures EscapesFrom(home, ones)
  {
    NestedByPrefix(Net(network, ones), home);
  }

  /** An address that starts a block of this length is its own network. */
  lemma NumberOfNetwork(network: seq<Byte>, ones: nat)
    requires |network| == 4 && ones <= 32 && Base(Val(network), 32 - ones) == Val(network)
    ensures NetIp(Cidr(network, ones)) == network && First(Net(network, ones)) == Val(network)
  {
    FourMasked(network, ones);
    SameIfSameValue(Masked(network, Mask(4, ones)), network);
  }

  lemma FourMasked(ip: seq<Byte>, ones: nat)
    requires |ip| == 4 && ones <= 32
    ensures Val(Masked(ip, Mask(4, ones))) == Base(Val(ip), 32 - ones)
  {
    MaskedVal(ip, ones);
  }

  lemma SameIfSameValue(a: seq<Byte>, b: seq<Byte>)
    requires |a| == |b| && Val(a) == Val(b)
    ensures a == b
  {
    ValInjective(a, b);
  }

  lemma SizeUpTo(ones: nat)
    requires 22 <= ones <= 32
    ensures Size(ones) <= MAX_HOSTS
  {
    SizeOf22(22);
    Pow2Monotone(32 - ones, 10);
  }

  /** Such as a.b.c.0/23 on a box in a.b.c.0/24, for every even c. */
  lemma ShorterPrefixExample(home: Net, wide: nat)
    requires IsNet(home) && home.ip[3] == 0 && home.ip[2] % 2 == 0 && home.ones == 24 && wide == 23
    ensures EscapesFrom(home, wide)
  {
    var x := Val(home.ip);
    var half := (home.ip[2] / 2) as int;
    LowBytes(home.ip, half);
    Pow2Eight();
    RoundsTo(x, 32 - home.ones, 256 * Val(home.ip[..2]) + home.ip[2] as int);
    RoundsTo(x, 32 - wide, 128 * Val(home.ip[..2]) + half);
    ShorterPrefixEscapes(home, wide);
  }

  lemma RoundsTo(x: nat, h: nat, q: nat)
    requires x == q * Pow2(h)
    ensures Base(x, h) == x
  {
    RemUnique(x, Pow2(h), q, 0);
  }

  lemma LowBytes(a: seq<Byte>, half: nat)
    requires |a| == 4 && a[3] == 0 && a[2] as int == 2 * half
    ensures Val(a) == 512 * (128 * Val(a[..2]) + half)
  {
    assert a[..3][..2] == a[..2];
    assert Digits(a[..3]) == 256 * Digits(a[..2]) + a[2] as int;
  }
}
