/**
 * Words and the bytes they are made of on a little-endian host, and what comparing words under a
 * prefix mask compares.
 */
module HostWords {
  import opened Arithmetic
  import opened Bytes
  import opened Masks

  /** What a little-endian host reads from bytes in memory. */
  function HostWord(s: seq<byte>): nat {
    if s == [] then 0 else s[0] + 0x100 * HostWord(s[1..])
  }

  /** The four bytes of a word, in the order of memory. */
  function Memory(w: uint32): (s: seq<byte>)
    ensures |s| == 4
  {
    [w % 0x100, w / 0x100 % 0x100, w / 0x1_0000 % 0x100, w / 0x100_0000]
  }

  lemma WordOfMemory(w: uint32)
    ensures HostWord(Memory(w)) == w
  {
    var s := Memory(w);
    DivTwice(w, 0x100);
    DivTwice(w, 0x1_0000);
    assert s[1..][1..][1..] == [s[3]];
    assert HostWord([s[3]]) == s[3];
    assert HostWord(s[1..][1..]) == s[2] + 0x100 * HostWord(s[1..][1..][1..]);
    assert HostWord(s[1..]) == s[1] + 0x100 * HostWord(s[1..][1..]);
  }

  lemma DivTwice(w: nat, d: nat)
    requires d == 0x100 || d == 0x1_0000
    ensures w / d / 0x100 == w / (d * 0x100)
  {
  }

  /** Bytes under a mask. */
  function Masked(s: seq<byte>, mask: seq<byte>): (r: seq<byte>)
    requires |s| == |mask|
    ensures |r| == |s|
    ensures forall i :: 0 <= i < |s| ==> r[i] == And(s[i], mask[i])
  {
    if s == [] then []
    else
      AndBound(s[0], mask[0]);
      [And(s[0], mask[0])] + Masked(s[1..], mask[1..])
  }

  /** A word under a mask is put together from its bytes under theirs. */
  lemma {:induction false} MaskedWord(s: seq<byte>, mask: seq<byte>)
    requires |s| == |mask|
    ensures And(HostWord(s), HostWord(mask)) == HostWord(Masked(s, mask))
  {
    if s != [] {
      AndByte(s[0], mask[0], HostWord(s[1..]), HostWord(mask[1..]));
      MaskedWord(s[1..], mask[1..]);
      assert Masked(s, mask)[1..] == Masked(s[1..], mask[1..]);
    }
  }

  lemma {:induction false} SameWord(s: seq<byte>, t: seq<byte>)
    requires |s| == |t|
    ensures HostWord(s) == HostWord(t) <==> s == t
  {
    if s != [] {
      SameWord(s[1..], t[1..]);
      assert s == [s[0]] + s[1..] && t == [t[0]] + t[1..];
    }
  }

  lemma MaskedSlice(s: seq<byte>, mask: seq<byte>, lo: nat, hi: nat)
    requires |s| == |mask| && lo <= hi <= |s|
    ensures Masked(s[lo..hi], mask[lo..hi]) == Masked(s, mask)[lo..hi]
  {
  }

  // ----- Prefixes -----

  /** Bit `k` of an address, bit 0 first on the wire. */
  function AddressBit(a: seq<byte>, k: nat): nat
    requires k < 8 * |a|
  {
    ByteBit(a[k / 8], k % 8)
  }

  /** The first `plen` bits of the two addresses agree. */
  predicate PrefixAgrees(a: seq<byte>, b: seq<byte>, plen: nat)
    requires |a| == |b|
  {
    forall k: nat :: k < plen && k < 8 * |a| ==> AddressBit(a, k) == AddressBit(b, k)
  }

  lemma MaskedIsPrefix(a: seq<byte>, b: seq<byte>, mask: seq<byte>, plen: nat)
    requires |a| == |b| == |mask|
    requires forall i :: 0 <= i < |mask| ==> mask[i] == MaskByte(plen, i)
    ensures Masked(a, mask) == Masked(b, mask) <==> PrefixAgrees(a, b, plen)
  {
    forall i: nat | i < |a|
      ensures And(a[i], mask[i]) == And(b[i], mask[i]) <==>
                forall k: nat :: k < BitsIn(plen, i) ==> ByteBit(a[i], k) == ByteBit(b[i], k)
    {
      MaskedByte(a[i], b[i], plen, i);
    }
    if Masked(a, mask) == Masked(b, mask) {
      forall k: nat | k < plen && k < 8 * |a| ensures AddressBit(a, k) == AddressBit(b, k) {
        assert k % 8 < BitsIn(plen, k / 8);
        assert Masked(a, mask)[k / 8] == Masked(b, mask)[k / 8];
      }
    }
    if PrefixAgrees(a, b, plen) {
      forall i: nat, k: nat | i < |a| && k < BitsIn(plen, i) ensures ByteBit(a[i], k) == ByteBit(b[i], k) {
        assert (8 * i + k) / 8 == i && (8 * i + k) % 8 == k;
        assert AddressBit(a, 8 * i + k) == AddressBit(b, 8 * i + k);
      }
    }
  }
}
