/**
 * Route choice, netmasks and the broadcast address of tools/findif.c on a little-endian host.
 * Addresses and masks are the 32-bit words the program holds: network order as the host reads it.
 */
module Findif {
  import opened FindifRoutes
  import opened Masks


  /** htonl and ntohl. */
  function Swap(x: bv32): bv32 {
    (x << 24) | ((x & 0xff00) << 8) | ((x >> 8) & 0xff00) | (x >> 24)
  }

  /** It reverses the bytes. */
  lemma SwapReverses(x: bv32)
    ensures (Swap(x) >> 24) & 0xff == x & 0xff
    ensures (Swap(x) >> 16) & 0xff == (x >> 8) & 0xff
    ensures (Swap(x) >> 8) & 0xff == (x >> 16) & 0xff
    ensures Swap(x) & 0xff == (x >> 24) & 0xff
  {
  }

  /** Bit `k` of an address that is held in network order, bit 0 first on the wire: in byte k / 8, from the top. */
  function NetBit(x: bv32, k: bv8): bv32
    requires k < 32
  {
    ((x >> (k & 0x18)) >> (7 - (k & 7))) & 1
  }

  /** Bit `k` of the four octets that the program prints, the highest one first. */
  function PrintedBit(x: bv32, k: bv8): bv32
    requires k < 32
  {
    (x >> (31 - k)) & 1
  }

  lemma SwapPrints(x: bv32, k: bv8)
    requires k < 32
    ensures PrintedBit(Swap(x), k) == NetBit(x, k)
  {
  }

  // ----- Netmasks -----

  /** The mask of a prefix length, in host order. */
  function PrefixMask(bits: bv8): bv32
    requires bits <= 32
  {
    if bits == 0 then 0 else 0xffff_ffff << (32 - bits)
  }

  /** Ones followed by zeros, at least one of them a one. */
  predicate Contiguous(mask: bv32) {
    mask != 0 && (!mask & (!mask + 1)) == 0
  }

  /** Rejects what is not between 1 and 32 (the program exits), else the mask in network order. */
  method ValidateNetmaskBits(bits0: int) returns (ok: bool, netmask: bv32)
    ensures ok <==> 1 <= bits0 <= 32
    ensures ok ==> netmask == Swap(PrefixMask(bits0 as bv8)) && netmask as int == SwappedMask(bits0)
  {
    if bits0 < 1 || bits0 > 32 {
      return false, 0;
    }
    SmallLength(bits0);
    var bits := 32 - bits0 as bv8;
    netmask := ((1 as bv32) << bits) - 1;
    netmask := !netmask & 0xffff_ffff;
    netmask := Swap(netmask);
    BuiltMaskIsRouteMask(bits0);
    ok := true;
  }

  /** The mask of `n` bits has exactly the first `n` bits of an address set, as it lies in memory. */
  lemma MaskBits(n: bv8, k: bv8)
    requires n <= 32 && k < 32
    ensures NetBit(Swap(PrefixMask(n)), k) == if k < n then 1 else 0
  {
    SwapTwice(PrefixMask(n));
    SwapPrints(Swap(PrefixMask(n)), k);
    PrefixMaskBits(n, k);
  }

  lemma PrefixMaskBits(n: bv8, k: bv8)
    requires n <= 32 && k < 32
    ensures PrintedBit(PrefixMask(n), k) == if k < n then 1 else 0
  {
  }

  /** A length from 0 to 32 is the same number in eight bits. */
  lemma SmallLength(n: int)
    requires 0 <= n <= 32
    ensures n as bv8 <= 32 && (n as bv8) as int == n
    ensures n as bv8 == 0 <==> n == 0
  {
  }

  /** Bit `j` is the lowest bit set. */
  predicate Lowest(mask: bv32, j: bv8) {
    j < 32 && (mask >> j) & 1 == 1 && NoneBelow(mask, j)
  }

  /** No bit below bit `j` is set. */
  predicate NoneBelow(mask: bv32, j: bv8) {
    if j < 32 then mask & (((1 as bv32) << j) - 1) == 0 else mask == 0
  }

  lemma NoneBelowNext(mask: bv32, j: bv8)
    requires j <= 32 && NoneBelow(mask, j) && (mask >> j) & 1 != 1
    ensures NoneBelow(mask, j + 1)
  {
  }

  lemma BitBeyond(mask: bv32, j: bv8)
    requires j <= 32 && (mask >> j) & 1 == 1
    ensures j < 32
  {
  }

  lemma CountFromLowest(mask: bv32, j: bv8)
    requires Lowest(mask, j)
    ensures mask != 0 && Counts(mask, 32 - j)
  {
  }

  /** `bits` is 32 less the number of the lowest bit set. */
  predicate Counts(mask: bv32, bits: bv8) {
    1 <= bits <= 32 && Lowest(mask, 32 - bits)
  }

  /** The loop counter as a number, for termination. */
  ghost function Turns(j: bv8): nat {
    j as nat
  }

  /** The test made in one turn of the counting loop. */
  method BitIsSet(netmask: bv32, j: bv8) returns (isSet: bool)
    requires j <= 32 && NoneBelow(netmask, j)
    ensures isSet ==> netmask != 0 && Counts(netmask, 32 - j)
    ensures !isSet ==> j + 1 <= 33 && NoneBelow(netmask, j + 1) && Turns(j + 1) == Turns(j) + 1 <= 33
  {
    isSet := (netmask >> j) & 1 == 1;
    if isSet {
      BitBeyond(netmask, j);
      CountFromLowest(netmask, j);
    } else {
      NoneBelowNext(netmask, j);
    }
  }

  /** An empty mask gives -1, all ones in the eight bits that stand for an int here. */
  method NetmaskBits(netmask: bv32) returns (bits: bv8)
    ensures netmask == 0 ==> bits == 0xff
    ensures netmask != 0 ==> Counts(netmask, bits)
  {
    var j: bv8 := 0;
    while j <= 32
      invariant j <= 33 && NoneBelow(netmask, j)
      decreases 33 - Turns(j)
    {
      var isSet := BitIsSet(netmask, j);
      if isSet {
        return 32 - j;
      }
      j := j + 1;
    }
    bits := 32 - j;
  }

  /** Building a mask and counting its bits undo each other on the lengths from 1 to 32. */
  method BitsRoundTrip(bits: int) returns (back: bv8)
    requires 1 <= bits <= 32
    ensures back as int == bits
  {
    SmallLength(bits);
    var ok, netmask := ValidateNetmaskBits(bits);
    SwapTwice(PrefixMask(bits as bv8));
    back := NetmaskBits(Swap(netmask));
    LowestBit(bits as bv8, back);
  }

  method MaskRoundTrip(netmask: bv32) returns (ok: bool, back: bv32)
    requires Contiguous(netmask)
    ensures ok && Swap(back) == netmask
  {
    var bits := NetmaskBits(netmask);
    SmallBack(bits);
    ok, back := ValidateNetmaskBits(bits as int);
    SwapTwice(PrefixMask(bits));
    ContiguousIsPrefix(netmask, bits);
  }

  lemma SmallBack(b: bv8)
    requires 1 <= b <= 32
    ensures 1 <= b as int <= 32 && (b as int) as bv8 == b
  {
  }

  lemma SwapTwice(x: bv32)
    ensures Swap(Swap(x)) == x
  {
  }

  lemma LowestBit(bits: bv8, k: bv8)
    requires 1 <= bits <= 32 && Counts(PrefixMask(bits), k)
    ensures k == bits
  {
  }

  lemma ContiguousIsPrefix(mask: bv32, bits: bv8)
    requires Contiguous(mask) && Counts(mask, bits)
    ensures mask == PrefixMask(bits)
  {
  }

  // ----- The mask that is built is the one a route carries -----

  lemma RouteMasksTo8(n: int)
    requires 0 <= n <= 8
    ensures Swap(PrefixMask(n as bv8)) as int == SwappedMask(n)
  {
    SmallPowers();
    if n == 0 {
      assert n as bv8 == 0;
    } else if n == 1 {
      assert n as bv8 == 1;
    } else if n == 2 {
      assert n as bv8 == 2;
    } else if n == 3 {
      assert n as bv8 == 3;
    } else if n == 4 {
      assert n as bv8 == 4;
    } else if n == 5 {
      assert n as bv8 == 5;
    } else if n == 6 {
      assert n as bv8 == 6;
    } else if n == 7 {
      assert n as bv8 == 7;
    } else if n == 8 {
      assert n as bv8 == 8;
    }
  }

  lemma RouteMasksTo16(n: int)
    requires 9 <= n <= 16
    ensures Swap(PrefixMask(n as bv8)) as int == SwappedMask(n)
  {
    SmallPowers();
    if n == 9 {
      assert n as bv8 == 9;
    } else if n == 10 {
      assert n as bv8 == 10;
    } else if n == 11 {
      assert n as bv8 == 11;
    } else if n == 12 {
      assert n as bv8 == 12;
    } else if n == 13 {
      assert n as bv8 == 13;
    } else if n == 14 {
      assert n as bv8 == 14;
    } else if n == 15 {
      assert n as bv8 == 15;
    } else if n == 16 {
      assert n as bv8 == 16;
    }
  }

  lemma RouteMasksTo24(n: int)
    requires 17 <= n <= 24
    ensures Swap(PrefixMask(n as bv8)) as int == SwappedMask(n)
  {
    SmallPowers();
    if n == 17 {
      assert n as bv8 == 17;
    } else if n == 18 {
      assert n as bv8 == 18;
    } else if n == 19 {
      assert n as bv8 == 19;
    } else if n == 20 {
      assert n as bv8 == 20;
    } else if n == 21 {
      assert n as bv8 == 21;
    } else if n == 22 {
      assert n as bv8 == 22;
    } else if n == 23 {
      assert n as bv8 == 23;
    } else if n == 24 {
      assert n as bv8 == 24;
    }
  }

  lemma RouteMasksTo32(n: int)
    requires 25 <= n <= 32
    ensures Swap(PrefixMask(n as bv8)) as int == SwappedMask(n)
  {
    SmallPowers();
    if n == 25 {
      assert n as bv8 == 25;
    } else if n == 26 {
      assert n as bv8 == 26;
    } else if n == 27 {
      assert n as bv8 == 27;
    } else if n == 28 {
      assert n as bv8 == 28;
    } else if n == 29 {
      assert n as bv8 == 29;
    } else if n == 30 {
      assert n as bv8 == 30;
    } else if n == 31 {
      assert n as bv8 == 31;
    } else if n == 32 {
      assert n as bv8 == 32;
    }
  }

  /** As a number it is the mask that a route of this prefix length carries. */
  lemma BuiltMaskIsRouteMask(n: int)
    requires 0 <= n <= 32
    ensures Swap(PrefixMask(n as bv8)) as int == SwappedMask(n)
  {
    if n <= 8 {
      RouteMasksTo8(n);
    } else if n <= 16 {
      RouteMasksTo16(n);
    } else if n <= 24 {
      RouteMasksTo24(n);
    } else {
      RouteMasksTo32(n);
    }
  }

  // ----- Broadcast -----

  /** The default broadcast address in host order, computed in network order and then swapped. */
  function DefaultBroadcast(addr: bv32, netmask: bv32): bv32 {
    Swap(addr | !netmask)
  }

  /** It is the largest address of the subnet of `addr`, in host order. */
  lemma BroadcastIsLargest(addr: bv32, netmask: bv32, other: bv32)
    ensures var b, a, m := DefaultBroadcast(addr, netmask), Swap(addr), Swap(netmask);
            && b & m == a & m
            && (other & m == a & m ==> other <= b)
  {
    BroadcastInHostOrder(addr, netmask);
    LargestInSubnet(Swap(addr), Swap(netmask), other);
  }

  /** For any mask: where it has a one the address's bit, else a one. */
  lemma BroadcastBit(addr: bv32, netmask: bv32, k: bv8)
    requires k < 32
    ensures PrintedBit(DefaultBroadcast(addr, netmask), k) == if NetBit(netmask, k) == 1 then NetBit(addr, k) else 1
  {
    SwapPrints(addr | !netmask, k);
    OrBits(addr, netmask, k);
  }

  lemma OrBits(a: bv32, mask: bv32, k: bv8)
    requires k < 32
    ensures NetBit(a | !mask, k) == if NetBit(mask, k) == 1 then NetBit(a, k) else 1
  {
  }

  /** What is printed as the broadcast address: the subnet's bits of the address, and ones behind them. */
  lemma BroadcastBits(addr: bv32, n: bv8, k: bv8)
    requires n <= 32 && k < 32
    ensures PrintedBit(DefaultBroadcast(addr, Swap(PrefixMask(n))), k) == if k < n then NetBit(addr, k) else 1
  {
    BroadcastBit(addr, Swap(PrefixMask(n)), k);
    MaskBits(n, k);
  }

  lemma BroadcastInHostOrder(addr: bv32, netmask: bv32)
    ensures DefaultBroadcast(addr, netmask) == Swap(addr) | !Swap(netmask)
  {
  }

  lemma LargestInSubnet(a: bv32, m: bv32, x: bv32)
    ensures (a | !m) & m == a & m
    ensures x & m == a & m ==> x <= a | !m
  {
  }
}

/** The pass over the routing table in tools/findif.c. Words are unsigned numbers as the host reads them. */
module FindifRoutes {
  import opened Arithmetic
  import opened Bytes
  import opened HostWords
  import opened Masks
  import opened Wrappers

  const LONG_MAX: int := 0x7fff_ffff_ffff_ffff

  type Long = x: int | -LONG_MAX - 1 <= x <= LONG_MAX

  datatype Route = Route(interface: string, dest: uint32, mask: uint32, metric: Long)

  predicate Matches(r: Route, addr: uint32) {
    And(addr, r.mask) == And(r.dest, r.mask)
  }

  /** `r` is at least as good as `c` in metric and mask. */
  predicate AsGood(r: Route, c: Route) {
    r.metric <= c.metric && r.mask >= c.mask
  }

  predicate Dominates(r: Route, c: Route) {
    AsGood(r, c) && (r.metric < c.metric || r.mask > c.mask)
  }

  /** Some line before `n` is a route to the address. */
  predicate HasRoute(lines: seq<Option<Route>>, addr: uint32, n: nat)
    requires n <= |lines|
  {
    exists i :: 0 <= i < n && lines[i].Some? && Matches(lines[i].value, addr)
  }

  /** Line `c` is the choice among the first `n`: undominated, and the last of its equals. */
  predicate Best(lines: seq<Option<Route>>, addr: uint32, n: nat, c: nat) {
    && c < n <= |lines|
    && lines[c].Some? && Matches(lines[c].value, addr)
    && (forall i :: 0 <= i < n && lines[i].Some? && Matches(lines[i].value, addr) ==>
          !Dominates(lines[i].value, lines[c].value))
    && (forall i :: c < i < n && lines[i].Some? && Matches(lines[i].value, addr) ==>
          !AsGood(lines[i].value, lines[c].value))
  }

  datatype Choice = Choice(interface: string, netmask: uint32)

  /**
   * The pass over /proc/net/route; a line that does not parse is None and ends it with an error.
   * If some route matches, the choice is the best one, unless its metric is the largest there is.
   */
  method SearchUsingProcRoute(lines: seq<Option<Route>>, addr: uint32)
    returns (r: Option<Choice>, ghost c: nat)
    ensures r.Some? ==> (forall i :: 0 <= i < |lines| ==> lines[i].Some?) && HasRoute(lines, addr, |lines|)
    ensures (forall i :: 0 <= i < |lines| ==> lines[i].Some?) && HasRoute(lines, addr, |lines|) ==>
              && Best(lines, addr, |lines|, c)
              && var b := lines[c].value;
              && r == if b.metric < LONG_MAX then Some(Choice(b.interface, b.mask)) else None
  {
    var bestMetric: Long, bestNetmask: uint32, bestIf := LONG_MAX, 0, "";
    c := 0;
    var i := 0;
    while i < |lines|
      invariant 0 <= i <= |lines|
      invariant forall k :: 0 <= k < i ==> lines[k].Some?
      invariant !HasRoute(lines, addr, i) ==> bestMetric == LONG_MAX && bestNetmask == 0
      invariant HasRoute(lines, addr, i) ==>
                  && Best(lines, addr, i, c)
                  && var b := lines[c].value; bestMetric == b.metric && bestNetmask == b.mask && bestIf == b.interface
    {
      match lines[i]
      case None =>
        return None, 0;
      case Some(route) =>
        if And(addr, route.mask) == And(route.dest, route.mask)
           && route.metric <= bestMetric && route.mask >= bestNetmask
        {
          bestMetric := route.metric;
          bestNetmask := route.mask;
          bestIf := route.interface;
          c := i;
        }
      i := i + 1;
    }
    if bestMetric == LONG_MAX {
      return None, c;
    }
    r := Some(Choice(bestIf, bestNetmask));
  }

  /** A matching route that is as good as every other in both respects fixes the choice, whatever the order. */
  lemma BestInBoth(lines: seq<Option<Route>>, addr: uint32, c: nat, d: nat)
    requires Best(lines, addr, |lines|, c)
    requires d < |lines| && lines[d].Some? && Matches(lines[d].value, addr)
    requires forall i :: 0 <= i < |lines| && lines[i].Some? && Matches(lines[i].value, addr) ==>
               AsGood(lines[d].value, lines[i].value)
    ensures lines[c].value.metric == lines[d].value.metric && lines[c].value.mask == lines[d].value.mask
  {
  }

  /** No matching route is at least as good in metric and mask and better in one; of equals the choice is the last. */
  lemma ChoiceIsUndominated(lines: seq<Option<Route>>, addr: uint32, c: nat, d: nat)
    requires Best(lines, addr, |lines|, c)
    requires d < |lines| && lines[d].Some? && Matches(lines[d].value, addr)
    ensures var b, o := lines[c].value, lines[d].value;
            && !(o.metric <= b.metric && o.mask >= b.mask && (o.metric < b.metric || o.mask > b.mask))
            && (o.metric == b.metric && o.mask == b.mask ==> d <= c)
            && (o.mask == b.mask ==> b.metric <= o.metric)
            && (o.metric == b.metric ==> b.mask >= o.mask)
  {
  }

  // ----- Masks of prefixes, byte-swapped -----

  /** The mask as a little-endian host reads it from memory, or /proc/net/route prints it. */
  function SwappedMask(p: nat): uint32 {
    MaskByte(p, 0) + 0x100 * MaskByte(p, 1) + 0x1_0000 * MaskByte(p, 2) + 0x100_0000 * MaskByte(p, 3)
  }

  lemma SwappedMaskBytes(p: nat)
    ensures var w := SwappedMask(p);
            && w % 0x100 == MaskByte(p, 0) && w / 0x100 % 0x100 == MaskByte(p, 1)
            && w / 0x1_0000 % 0x100 == MaskByte(p, 2) && w / 0x100_0000 == MaskByte(p, 3)
  {
    var b0: nat, b1: nat, b2: nat, b3: nat := MaskByte(p, 0), MaskByte(p, 1), MaskByte(p, 2), MaskByte(p, 3);
    DivModUnique(SwappedMask(p), 0x100, b1 + 0x100 * b2 + 0x1_0000 * b3, b0);
    DivModUnique(SwappedMask(p), 0x1_0000, b2 + 0x100 * b3, b0 + 0x100 * b1);
    DivModUnique(SwappedMask(p), 0x100_0000, b3, b0 + 0x100 * b1 + 0x1_0000 * b2);
    DivModUnique(b1 + 0x100 * b2 + 0x1_0000 * b3, 0x100, b2 + 0x100 * b3, b1);
    DivModUnique(b2 + 0x100 * b3, 0x100, b3, b2);
  }

  /** Under the mask of a prefix of `p` bits a route matches exactly the addresses with its first `p` bits. */
  lemma MatchesIsPrefix(r: Route, addr: uint32, p: nat)
    requires p <= 32 && forall i :: 0 <= i < 4 ==> Memory(r.mask)[i] == MaskByte(p, i)
    ensures Matches(r, addr) <==>
              forall k: nat :: k < p ==> ByteBit(Memory(addr)[k / 8], k % 8) == ByteBit(Memory(r.dest)[k / 8], k % 8)
  {
    var a, d, m := Memory(addr), Memory(r.dest), Memory(r.mask);
    WordOfMemory(addr);
    WordOfMemory(r.dest);
    WordOfMemory(r.mask);
    MaskedWord(a, m);
    MaskedWord(d, m);
    SameWord(Masked(a, m), Masked(d, m));
    MaskedIsPrefix(a, d, m, p);
    if PrefixAgrees(a, d, p) {
      forall k: nat | k < p ensures ByteBit(a[k / 8], k % 8) == ByteBit(d[k / 8], k % 8) {
        assert AddressBit(a, k) == AddressBit(d, k);
      }
    }
  }

  /** The route has the mask of a prefix of `p` bits, and the address has the route's first `p` bits. */
  predicate CoversPrefix(r: Route, addr: uint32, p: nat)
    requires p <= 32
  {
    && r.mask == SwappedMask(p)
    && forall k: nat :: k < p ==> ByteBit(Memory(addr)[k / 8], k % 8) == ByteBit(Memory(r.dest)[k / 8], k % 8)
  }

  lemma CoveringMatches(r: Route, addr: uint32, p: nat)
    requires p <= 32 && r.mask == SwappedMask(p)
    ensures Matches(r, addr) <==> CoversPrefix(r, addr, p)
  {
    SwappedMaskBytes(p);
    assert Memory(r.mask) == [MaskByte(p, 0), MaskByte(p, 1), MaskByte(p, 2), MaskByte(p, 3)];
    MatchesIsPrefix(r, addr, p);
  }

  /** Byte-swapped masks compare as their prefix lengths do. */
  lemma {:induction false} SwappedMaskOrder(p: nat, q: nat)
    requires p < q <= 32
    ensures SwappedMask(p) < SwappedMask(q)
  {
    SwappedMaskStep(q - 1);
    if p < q - 1 {
      SwappedMaskOrder(p, q - 1);
    }
  }

  /** One more bit changes one byte of the mask, upwards. */
  lemma SwappedMaskStep(p: nat)
    requires p < 32
    ensures SwappedMask(p) < SwappedMask(p + 1)
  {
    var i := p / 8;
    SmallPowers();
    assert MaskByte(p, i) < MaskByte(p + 1, i);
    assert forall j: nat :: j != i ==> MaskByte(p, j) == MaskByte(p + 1, j);
  }

  /**
   * Among routes of one metric the choice, with a prefix of `p` bits, shares these bits with the
   * address, and no route with a longer prefix does.
   */
  lemma MostSpecific(lines: seq<Option<Route>>, addr: uint32, c: nat, p: nat, d: nat, q: nat)
    requires Best(lines, addr, |lines|, c) && p <= 32 && lines[c].value.mask == SwappedMask(p)
    requires d < |lines| && lines[d].Some? && lines[c].value.metric == lines[d].value.metric
    requires q <= 32 && lines[d].value.mask == SwappedMask(q)
    ensures forall k: nat :: k < p ==>
              ByteBit(Memory(addr)[k / 8], k % 8) == ByteBit(Memory(lines[c].value.dest)[k / 8], k % 8)
    ensures q > p ==>
              !(forall k: nat :: k < q ==>
                  ByteBit(Memory(addr)[k / 8], k % 8) == ByteBit(Memory(lines[d].value.dest)[k / 8], k % 8))
  {
    CoveringMatches(lines[c].value, addr, p);
    CoveringMatches(lines[d].value, addr, q);
    if p < q {
      SwappedMaskOrder(p, q);
    }
  }
}
