/** The TCP checksum of tools/tickle_tcp.c, on a little-endian host with 32-bit sums. */
module TcpChecksum {
  import opened Arithmetic
  import opened Bytes

  // ----- Host and network order -----

  /** What a little-endian host reads from two bytes. */
  function HostWord(b0: byte, b1: byte): uint16 {
    b0 + 256 * b1
  }

  /** The word that two bytes mean in network order. */
  function BigWord(hi: byte, lo: byte): uint16 {
    256 * hi + lo
  }

  /** ntohs and htons: the two bytes of a word change places. */
  function Swap(w: uint16): (r: uint16) {
    w % 256 * 256 + w / 256
  }

  /** The 32-bit number `n` in network order, as htonl leaves it in memory. */
  function Htonl(n: uint32): (b: seq<byte>)
    ensures |b| == 4
  {
    [n / 0x100_0000, n / 0x1_0000 % 256, n / 0x100 % 256, n % 256]
  }

  /** A word stored by the host into two bytes of a segment. */
  function Stored(segment: seq<byte>, k: nat, w: uint16): seq<byte>
    requires k + 1 < |segment|
  {
    segment[k := w % 256][k + 1 := w / 256]
  }

  // ----- The receiver: section 1 of RFC 1071 -----

  /** One's-complement addition: the carry comes back at the other end. */
  function OnesAdd(a: uint16, b: uint16): uint16 {
    if a + b > 0xFFFF then a + b - 0xFFFF else a + b
  }

  /** The one's-complement sum of the big-endian words, an odd last byte padded with zero. */
  function OnesSum(s: seq<byte>): uint16 {
    if s == [] then 0
    else if |s| == 1 then BigWord(s[0], 0)
    else OnesAdd(BigWord(s[0], s[1]), OnesSum(s[2..]))
  }

  datatype Ip4 = Ip4(saddr: seq<byte>, daddr: seq<byte>, protocol: byte)
  datatype Ip6 = Ip6(src: seq<byte>, dst: seq<byte>, nxt: byte)

  /** The pseudo-header of section 3.1 of RFC 9293. */
  function Pseudo4(ip: Ip4, n: uint16): seq<byte> {
    ip.saddr + ip.daddr + [0, ip.protocol, n / 256, n % 256]
  }

  /** The pseudo-header of section 8.1 of RFC 8200. */
  function Pseudo6(ip: Ip6, n: uint16): seq<byte> {
    ip.src + ip.dst + Htonl(n) + [0, 0, 0, ip.nxt]
  }

  /** The receiver accepts what sums to minus zero. */
  predicate Accepts(pseudo: seq<byte>, segment: seq<byte>) {
    OnesSum(pseudo + segment) == 0xFFFF
  }

  /** Zero means "no checksum" and is replaced. */
  function NonZero(c: uint16): uint16 {
    if c == 0 then 0xFFFF else c
  }

  /** The checksum in network order: the complement of the sum, zero replaced. */
  function Checksum(pseudo: seq<byte>, segment: seq<byte>): uint16 {
    NonZero(0xFFFF - OnesSum(pseudo + segment))
  }

  // ----- Plain sums -----

  /** The exact sum of the big-endian words. */
  function WordSum(s: seq<byte>): nat {
    if s == [] then 0
    else if |s| == 1 then BigWord(s[0], 0)
    else BigWord(s[0], s[1]) + WordSum(s[2..])
  }

  /** The one's-complement value of an exact sum: 0xFFFF is taken away until 16 bits are enough. */
  function Residue(n: nat): uint16 {
    if n <= 0xFFFF then n else Residue(n - 0xFFFF)
  }

  function Fold(sum: uint32): uint32 {
    sum % 0x1_0000 + sum / 0x1_0000
  }

  lemma {:induction false} ResidueIs(n: nat, q: nat, w: uint16)
    requires w > 0 && n == 0xFFFF * q + w
    ensures Residue(n) == w
  {
    if q > 0 {
      ResidueIs(n - 0xFFFF, q - 1, w);
    }
  }

  /** It is congruent to the sum modulo 65535, and zero only for a zero sum. */
  lemma {:induction false} ResidueIsCongruent(n: nat)
    ensures Residue(n) % 0xFFFF == n % 0xFFFF
    ensures Residue(n) == 0 <==> n == 0
  {
    if n > 0xFFFF {
      ResidueIsCongruent(n - 0xFFFF);
      var q, r := (n - 0xFFFF) / 0xFFFF, (n - 0xFFFF) % 0xFFFF;
      DivModUnique(n, 0xFFFF, q + 1, r);
    }
  }

  lemma FoldIs(sum: uint32, q: nat, r: uint16)
    requires sum == 0x1_0000 * q + r
    ensures Fold(sum) == q + r
  {
    DivModUnique(sum, 0x1_0000, q, r);
  }

  /** Two folds of a 32-bit sum are enough. */
  lemma TwoFolds(sum: uint32)
    ensures Fold(Fold(sum)) == Residue(sum)
  {
    var q, r := sum / 0x1_0000, sum % 0x1_0000;
    FoldIs(sum, q, r);
    if q + r <= 0xFFFF {
      FoldIs(q + r, 0, q + r);
      if sum > 0 {
        ResidueIs(sum, q, q + r);
      }
    } else {
      FoldIs(q + r, 1, q + r - 0x1_0000);
      ResidueIs(sum, q + 1, q + r - 0xFFFF);
    }
  }

  lemma {:induction false} ResidueOfSum(a: nat, b: nat)
    ensures Residue(a + Residue(b)) == Residue(a + b)
    decreases b
  {
    if b > 0xFFFF {
      ResidueOfSum(a, b - 0xFFFF);
      assert a + b - 0xFFFF == a + (b - 0xFFFF);
    }
  }

  /** The receiver's word-by-word sum is the exact sum, reduced once. */
  lemma {:induction false} OnesSumIsResidue(s: seq<byte>)
    ensures OnesSum(s) == Residue(WordSum(s))
    decreases |s|
  {
    if |s| >= 2 {
      OnesSumIsResidue(s[2..]);
      ResidueOfSum(BigWord(s[0], s[1]), WordSum(s[2..]));
    }
  }

  lemma {:induction false} WordSumAppend(a: seq<byte>, b: seq<byte>)
    requires |a| % 2 == 0
    ensures WordSum(a + b) == WordSum(a) + WordSum(b)
    decreases |a|
  {
    if a == [] {
      assert a + b == b;
    } else {
      assert (a + b)[2..] == a[2..] + b;
      WordSumAppend(a[2..], b);
    }
  }

  lemma {:induction false} WordSumBound(s: seq<byte>)
    ensures 2 * WordSum(s) <= (|s| + 1) * 0xFFFF
    decreases |s|
  {
    if |s| >= 2 {
      WordSumBound(s[2..]);
    }
  }

  lemma {:induction false} WordSumStored(s: seq<byte>, k: nat, w: uint16)
    requires k % 2 == 0 && k + 1 < |s| && s[k] == 0 && s[k + 1] == 0
    ensures WordSum(Stored(s, k, w)) == WordSum(s) + Swap(w)
    decreases |s|
  {
    if k == 0 {
      assert Stored(s, k, w)[2..] == s[2..];
    } else {
      assert Stored(s, k, w)[2..] == Stored(s[2..], k - 2, w);
      WordSumStored(s[2..], k - 2, w);
    }
  }

  // ----- The order of the words does not matter -----

  /** The 16-bit words of some bytes, an odd last byte padded with zero. */
  function Words(s: seq<byte>): seq<uint16> {
    if s == [] then []
    else if |s| == 1 then [BigWord(s[0], 0)]
    else [BigWord(s[0], s[1])] + Words(s[2..])
  }

  function Total(ws: seq<uint16>): nat {
    if ws == [] then 0 else ws[0] + Total(ws[1..])
  }

  lemma {:induction false} WordSumIsTotal(s: seq<byte>)
    ensures WordSum(s) == Total(Words(s))
    decreases |s|
  {
    if |s| >= 2 {
      WordSumIsTotal(s[2..]);
      assert Words(s)[1..] == Words(s[2..]);
    }
  }

  lemma {:induction false} TotalWithout(ws: seq<uint16>, i: nat)
    requires i < |ws|
    ensures Total(ws) == ws[i] + Total(ws[..i] + ws[i + 1..])
    decreases |ws|
  {
    var rest := ws[..i] + ws[i + 1..];
    if i == 0 {
      assert rest == ws[1..];
    } else {
      TotalWithout(ws[1..], i - 1);
      assert rest[1..] == ws[1..][..i - 1] + ws[1..][i..];
    }
  }

  lemma WithoutOne(ws: seq<uint16>, i: nat)
    requires i < |ws|
    ensures multiset(ws[..i] + ws[i + 1..]) == multiset(ws) - multiset{ws[i]}
  {
    assert ws == ws[..i] + [ws[i]] + ws[i + 1..];
  }

  lemma {:induction false} TotalOfPermutation(a: seq<uint16>, b: seq<uint16>)
    requires multiset(a) == multiset(b)
    ensures Total(a) == Total(b)
    decreases |a|
  {
    if a == [] {
      assert |multiset(b)| == 0;
    } else {
      assert a[0] in multiset(a);
      var i := Occurs(b, a[0]);
      WithoutOne(a, 0);
      WithoutOne(b, i);
      assert a[..0] + a[1..] == a[1..];
      TotalOfPermutation(a[1..], b[..i] + b[i + 1..]);
      TotalWithout(b, i);
    }
  }

  lemma Occurs(ws: seq<uint16>, w: uint16) returns (i: nat)
    requires w in multiset(ws)
    ensures i < |ws| && ws[i] == w
  {
    i :| i < |ws| && ws[i] == w;
  }

  /** Segments with the same 16-bit words in any order have the same sum and the same checksum. */
  lemma OrderDoesNotMatter(pseudo: seq<byte>, a: seq<byte>, b: seq<byte>)
    requires |pseudo| % 2 == 0 && multiset(Words(a)) == multiset(Words(b))
    ensures WordSum(a) == WordSum(b)
    ensures Checksum(pseudo, a) == Checksum(pseudo, b)
  {
    WordSumIsTotal(a);
    WordSumIsTotal(b);
    TotalOfPermutation(Words(a), Words(b));
    SegmentSum(pseudo, a, WordSum(pseudo) + WordSum(a));
    SegmentSum(pseudo, b, WordSum(pseudo) + WordSum(a));
  }

  // ----- Sender and receiver agree -----

  /** The receiver's sum in terms of the exact sums of its two parts. */
  lemma SegmentSum(pseudo: seq<byte>, segment: seq<byte>, total: nat)
    requires |pseudo| % 2 == 0 && WordSum(pseudo) + WordSum(segment) == total
    ensures OnesSum(pseudo + segment) == Residue(total)
  {
    WordSumAppend(pseudo, segment);
    OnesSumIsResidue(pseudo + segment);
  }

  /** Adding `w` completes a sum to minus zero exactly when `w` is its complement, or both are zero. */
  lemma Complement(sum: nat, w: uint16)
    requires sum > 0
    ensures var c := NonZero(0xFFFF - Residue(sum));
            Residue(sum + w) == 0xFFFF <==> w == c || (w == 0 && c == 0xFFFF)
  {
    ResidueIsCongruent(sum);
    ResidueOfSum(w, sum);
    assert w + sum == sum + w;
  }

  /**
   * With a zero checksum field at an even offset, the receiver accepts exactly the words
   * congruent to the checksum modulo 65535: the checksum itself, and 0 if it is 0xFFFF.
   */
  lemma ReceiverAccepts(pseudo: seq<byte>, segment: seq<byte>, k: nat, w: uint16)
    requires |pseudo| % 2 == 0 && WordSum(pseudo) > 0
    requires k % 2 == 0 && k + 1 < |segment| && segment[k] == 0 && segment[k + 1] == 0
    ensures Accepts(pseudo, Stored(segment, k, w)) <==>
              Swap(w) == Checksum(pseudo, segment) || (Swap(w) == 0 && Checksum(pseudo, segment) == 0xFFFF)
  {
    var total := WordSum(pseudo) + WordSum(segment);
    SegmentSum(pseudo, segment, total);
    StoredSum(pseudo, segment, k, w);
    Completes(total, Swap(w), OnesSum(pseudo + segment), OnesSum(pseudo + Stored(segment, k, w)));
  }

  lemma StoredSum(pseudo: seq<byte>, segment: seq<byte>, k: nat, w: uint16)
    requires |pseudo| % 2 == 0
    requires k % 2 == 0 && k + 1 < |segment| && segment[k] == 0 && segment[k + 1] == 0
    ensures OnesSum(pseudo + Stored(segment, k, w)) == Residue(WordSum(pseudo) + WordSum(segment) + Swap(w))
  {
    WordSumStored(segment, k, w);
    SegmentSum(pseudo, Stored(segment, k, w), WordSum(pseudo) + WordSum(segment) + Swap(w));
  }

  lemma Completes(total: nat, w: uint16, before: uint16, after: uint16)
    requires total > 0 && before == Residue(total) && after == Residue(total + w)
    ensures after == 0xFFFF <==> w == NonZero(0xFFFF - before) || (w == 0 && NonZero(0xFFFF - before) == 0xFFFF)
  {
    Complement(total, w);
  }

  // ----- The code -----

  /** The type of `sum` is 32 bits wide: that every addition stays in it is part of the proof. */
  method Uint16Checksum(data: seq<byte>) returns (sum: uint32)
    requires |data| <= 0xFFFF
    ensures sum == WordSum(data)
  {
    sum := 0;
    var p, n := 0, |data|;
    while n >= 2
      invariant p + n == |data| && n >= 0
      invariant sum + WordSum(data[p..]) == WordSum(data)
      invariant 2 * sum <= p * 0xFFFF
    {
      SwapHostWord(data[p], data[p + 1]);
      assert data[p..][2..] == data[p + 2..];
      sum := sum + Swap(HostWord(data[p], data[p + 1]));
      p := p + 2;
      n := n - 2;
    }
    if n == 1 {
      SwapHostWord(data[p], 0);
      sum := sum + Swap(data[p]);
    }
  }

  lemma SwapHostWord(b0: byte, b1: byte)
    ensures Swap(HostWord(b0, b1)) == BigWord(b0, b1)
  {
    var w := HostWord(b0, b1);
    assert w / 256 == b1;
    assert w % 256 == b0;
  }

  lemma SwapTwice(w: uint16)
    ensures Swap(Swap(w)) == w && Swap(0xFFFF - w) == 0xFFFF - Swap(w)
  {
    var high, low := w / 256, w % 256;
    SwapHostWord(low, high);
    SwapHostWord(high, low);
    SwapHostWord(255 - low, 255 - high);
  }

  /** The folds, the complement and the replacement that end both checksum functions. */
  method Finish(total: uint32) returns (sum2: uint16)
    ensures Swap(sum2) == NonZero(0xFFFF - Residue(total))
  {
    var sum := total;
    sum := Fold(sum);
    sum := Fold(sum);
    TwoFolds(total);
    SwapTwice(sum);
    SwapTwice(Swap(sum));
    sum2 := Swap(sum);
    sum2 := 0xFFFF - sum2;
    if sum2 == 0 {
      return 0xFFFF;
    }
  }

  /** The value the host stores is the reference checksum. */
  method TcpChecksum(data: seq<byte>, ip: Ip4) returns (check: uint16)
    requires |data| <= 0xFFFF && |ip.saddr| == 4 && |ip.daddr| == 4
    ensures Swap(check) == Checksum(Pseudo4(ip, |data|), data)
  {
    var sum := Uint16Checksum(data);
    var sum' := Uint16Checksum(ip.saddr);
    sum := sum + sum';
    sum' := Uint16Checksum(ip.daddr);
    sum := sum + sum';
    sum := sum + ip.protocol + |data|;
    PseudoSum4(ip, |data|);
    SegmentSum(Pseudo4(ip, |data|), data, sum);
    WordSumBound(data);
    WordSumBound(ip.saddr);
    WordSumBound(ip.daddr);
    check := Finish(sum);
  }

  method TcpChecksum6(data: seq<byte>, ip: Ip6) returns (check: uint16)
    requires |data| <= 0xFFFF && |ip.src| == 16 && |ip.dst| == 16
    ensures Swap(check) == Checksum(Pseudo6(ip, |data|), data)
  {
    var phdr := Htonl(|data|) + Htonl(ip.nxt);
    Bounds6(data, ip, phdr);
    var sum: uint32 := 0;
    var sum' := Uint16Checksum(ip.src);
    sum := sum + sum';
    sum' := Uint16Checksum(ip.dst);
    sum := sum + sum';
    sum' := Uint16Checksum(phdr);
    sum := sum + sum';
    sum' := Uint16Checksum(data);
    sum := sum + sum';
    PseudoSum6(ip, |data|);
    HeaderTail6(ip, |data|);
    SegmentSum(Pseudo6(ip, |data|), data, sum);
    check := Finish(sum);
  }

  /** No part can make the 32-bit sum overflow. */
  lemma Bounds6(data: seq<byte>, ip: Ip6, phdr: seq<byte>)
    requires |data| <= 0xFFFF && |ip.src| == 16 && |ip.dst| == 16 && |phdr| == 8
    ensures WordSum(ip.src) + WordSum(ip.dst) + WordSum(phdr) + WordSum(data) < 0x1_0000_0000
  {
    WordSumBound(data);
    WordSumBound(ip.src);
    WordSumBound(ip.dst);
    WordSumBound(phdr);
  }

  lemma {:induction false} WordSum4(b0: byte, b1: byte, b2: byte, b3: byte)
    ensures WordSum([b0, b1, b2, b3]) == BigWord(b0, b1) + BigWord(b2, b3)
  {
    var s := [b0, b1, b2, b3];
    assert s[2..] == [b2, b3];
    assert s[2..][2..] == [];
    assert WordSum(s[2..]) == BigWord(b2, b3);
  }

  lemma PseudoSum4(ip: Ip4, n: uint16)
    requires |ip.saddr| == 4 && |ip.daddr| == 4
    ensures WordSum(Pseudo4(ip, n)) == WordSum(ip.saddr) + WordSum(ip.daddr) + ip.protocol + n
  {
    var tail := [0, ip.protocol, n / 256, n % 256];
    WordSum4(0, ip.protocol, n / 256, n % 256);
    WordSumAppend(ip.saddr + ip.daddr, tail);
    WordSumAppend(ip.saddr, ip.daddr);
  }

  lemma HeaderTail6(ip: Ip6, n: uint16)
    ensures WordSum(Htonl(n) + Htonl(ip.nxt)) == n + ip.nxt
  {
    HtonlSum(n);
    HtonlSum(ip.nxt);
    WordSumAppend(Htonl(n), Htonl(ip.nxt));
  }

  lemma PseudoSum6(ip: Ip6, n: uint16)
    requires |ip.src| == 16 && |ip.dst| == 16
    ensures |Pseudo6(ip, n)| == 40
    ensures WordSum(Pseudo6(ip, n)) == WordSum(ip.src) + WordSum(ip.dst) + n + ip.nxt
  {
    HeaderTail6(ip, n);
    Pseudo6Parts(ip, n);
    WordSumAppend(ip.src + ip.dst, Htonl(n) + Htonl(ip.nxt));
    WordSumAppend(ip.src, ip.dst);
  }

  lemma Pseudo6Parts(ip: Ip6, n: uint16)
    ensures Pseudo6(ip, n) == (ip.src + ip.dst) + (Htonl(n) + Htonl(ip.nxt))
  {
    assert Htonl(ip.nxt) == [0, 0, 0, ip.nxt];
  }

  lemma HtonlSum(n: uint16)
    ensures WordSum(Htonl(n)) == n
  {
    SmallHtonl(n);
    WordSum4(0, 0, n / 256, n % 256);
  }

  lemma SmallHtonl(n: uint16)
    ensures Htonl(n) == [0, 0, n / 256, n % 256]
  {
  }

  /** IPv4: a segment that carries the checksum computed for it is accepted. */
  method SendSegment4(segment: seq<byte>, k: nat, ip: Ip4) returns (sent: seq<byte>)
    requires |segment| <= 0xFFFF && |ip.saddr| == 4 && |ip.daddr| == 4
    requires k % 2 == 0 && k + 1 < |segment| && segment[k] == 0 && segment[k + 1] == 0
    ensures |sent| == |segment| && forall i :: 0 <= i < |sent| && i != k && i != k + 1 ==> sent[i] == segment[i]
    ensures Accepts(Pseudo4(ip, |sent|), sent)
  {
    var check := TcpChecksum(segment, ip);
    sent := Stored(segment, k, check);
    PseudoSum4(ip, |segment|);
    ReceiverAccepts(Pseudo4(ip, |segment|), segment, k, check);
  }

  /** IPv6: the same. */
  method SendSegment6(segment: seq<byte>, k: nat, ip: Ip6) returns (sent: seq<byte>)
    requires |segment| <= 0xFFFF && |ip.src| == 16 && |ip.dst| == 16
    requires k % 2 == 0 && k + 1 < |segment| && segment[k] == 0 && segment[k + 1] == 0
    ensures |sent| == |segment| && forall i :: 0 <= i < |sent| && i != k && i != k + 1 ==> sent[i] == segment[i]
    ensures Accepts(Pseudo6(ip, |sent|), sent)
  {
    var check := TcpChecksum6(segment, ip);
    sent := Stored(segment, k, check);
    Accepted6(segment, k, ip, check);
  }

  lemma Accepted6(segment: seq<byte>, k: nat, ip: Ip6, check: uint16)
    requires |segment| <= 0xFFFF && |ip.src| == 16 && |ip.dst| == 16
    requires k % 2 == 0 && k + 1 < |segment| && segment[k] == 0 && segment[k + 1] == 0
    requires Swap(check) == Checksum(Pseudo6(ip, |segment|), segment)
    ensures Accepts(Pseudo6(ip, |segment|), Stored(segment, k, check))
  {
    PseudoSum6(ip, |segment|);
    ReceiverAccepts(Pseudo6(ip, |segment|), segment, k, check);
  }
}
