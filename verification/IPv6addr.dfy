/**
 * The interface scan and the address lifecycle of heartbeat/IPv6addr.c over an abstract kernel
 * address table. An address is its 16 bytes as in6_addr holds them.
 */
module IPv6addr {
  import opened Arithmetic
  import opened Bytes
  import opened HostWords
  import opened Masks
  import opened Wrappers

  type Address = a: seq<byte> | |a| == 16 witness [0, 0, 0, 0, 0, 0, 0, 0, 0, 0, 0, 0, 0, 0, 0, 0]

  /** One line of /proc/net/if_inet6. */
  datatype Entry = Entry(addr: Address, plen: nat, scope: nat, dev: string)

  const SCOPE_GLOBAL := 0
  const SCOPE_LINK := 0x20

  /** The word s6_addr32[i] of an address. */
  function Word(a: Address, i: nat): nat
    requires i < 4
  {
    HostWord(a[4 * i..4 * i + 4])
  }

  predicate MaskedEqual(a: Address, b: Address, mask: Address) {
    forall i :: 0 <= i < 4 ==> And(Word(a, i), Word(mask, i)) == And(Word(b, i), Word(mask, i))
  }

  /** Two words under a mask are equal exactly when their masked bytes are. */
  lemma MaskedWordsEqual(a: Address, b: Address, mask: Address, i: nat)
    requires i < 4
    ensures And(Word(a, i), Word(mask, i)) == And(Word(b, i), Word(mask, i)) <==>
              Masked(a, mask)[4 * i..4 * i + 4] == Masked(b, mask)[4 * i..4 * i + 4]
  {
    var lo, hi := 4 * i, 4 * i + 4;
    MaskedWord(a[lo..hi], mask[lo..hi]);
    MaskedWord(b[lo..hi], mask[lo..hi]);
    SameWord(Masked(a[lo..hi], mask[lo..hi]), Masked(b[lo..hi], mask[lo..hi]));
    MaskedSlice(a, mask, lo, hi);
    MaskedSlice(b, mask, lo, hi);
  }

  lemma FourSlices(x: Address, y: Address)
    ensures x == y <==> x[0..4] == y[0..4] && x[4..8] == y[4..8] && x[8..12] == y[8..12] && x[12..16] == y[12..16]
  {
    assert x == x[0..4] + x[4..8] + x[8..12] + x[12..16];
    assert y == y[0..4] + y[4..8] + y[8..12] + y[12..16];
  }

  lemma MaskedBytesEqual(a: Address, b: Address, mask: Address)
    ensures MaskedEqual(a, b, mask) <==> Masked(a, mask) == Masked(b, mask)
  {
    FourSlices(Masked(a, mask), Masked(b, mask));
    MaskedWordsEqual(a, b, mask, 0);
    MaskedWordsEqual(a, b, mask, 1);
    MaskedWordsEqual(a, b, mask, 2);
    MaskedWordsEqual(a, b, mask, 3);
  }

  /** The word-wise comparison under a prefix mask compares exactly the bits of the prefix. */
  lemma MaskedEqualIsPrefix(a: Address, b: Address, mask: Address, plen: nat)
    requires forall i :: 0 <= i < 16 ==> mask[i] == MaskByte(plen, i)
    ensures MaskedEqual(a, b, mask) <==> PrefixAgrees(a, b, plen)
    ensures MaskedEqual(a, b, mask) <==>
              forall k: nat :: k < plen && k < 128 ==> ByteBit(a[k / 8], k % 8) == ByteBit(b[k / 8], k % 8)
  {
    MaskedBytesEqual(a, b, mask);
    MaskedIsPrefix(a, b, mask, plen);
    if PrefixAgrees(a, b, plen) {
      forall k: nat | k < plen && k < 128 ensures ByteBit(a[k / 8], k % 8) == ByteBit(b[k / 8], k % 8) {
        assert AddressBit(a, k) == AddressBit(b, k);
      }
    }
  }

  // ----- The scan -----

  /** What a scan looks for; the empty name and prefix length 0 mean "any". */
  datatype Query = Query(target: Address, plen: nat, useMask: bool, nic: string)

  /** Global addresses, and link-local ones if an interface is named. */
  predicate Visible(scope: nat, nic: string) {
    scope == SCOPE_GLOBAL || (scope == SCOPE_LINK && nic != "")
  }

  /** The scope, prefix, name and address filters. */
  predicate Passes(e: Entry, q: Query) {
    && Visible(e.scope, q.nic)
    && (q.plen != 0 ==> e.plen == q.plen)
    && (q.nic != "" ==> e.dev == q.nic)
    && PrefixAgrees(e.addr, q.target, if q.useMask then e.plen else 128)
  }

  /** Byte `i` of a prefix mask lies before, in or behind the word that the prefix ends in. */
  lemma MaskByteInWord(plen: nat, i: nat)
    requires plen < 128 && i < 16
    ensures var n := plen / 32;
            MaskByte(plen, i) == if i < 4 * n then 0xff else if i >= 4 * n + 4 then 0 else MaskByte(plen % 32, i - 4 * n)
  {
  }

  /** The mask a scan builds for one entry, 32 bits at a time. */
  method MakeMask(useMask: bool, plen: nat) returns (mask: Address)
    ensures forall i :: 0 <= i < 16 ==> mask[i] == MaskByte(if useMask then plen else 128, i)
  {
    var m := new byte[16](_ => 0xff);
    if useMask && plen < 128 {
      var n := plen / 32;
      forall i | 4 * (n + 1) <= i < 16 {
        m[i] := 0;
      }
      var s := 32 - plen % 32;
      var word: uint32 := 0;
      if s != 32 {
        word := ShiftedOnes(s);
      }
      WordBytes(plen % 32);
      m[4 * n], m[4 * n + 1], m[4 * n + 2], m[4 * n + 3] :=
        word / 0x100_0000, word / 0x1_0000 % 256, word / 0x100 % 256, word % 256;
      forall i | 0 <= i < 16 ensures m[i] == MaskByte(plen, i) {
        MaskByteInWord(plen, i);
      }
    }
    mask := m[..];
  }

  /** 0xffffffff << s in 32 bits. */
  function ShiftedOnes(s: nat): uint32
    requires s <= 32
  {
    Pow2Positive(s);
    Pow2Monotone(s, 32);
    FourBytes();
    0x1_0000_0000 - Pow2(s)
  }

  lemma FourBytes()
    ensures Pow2(32) == 0x1_0000_0000
  {
    Pow2Sum(8, 8);
    Pow2Sum(16, 16);
    SmallPowers();
  }

  lemma {:induction false} Pow2Sum(a: nat, b: nat)
    ensures Pow2(a + b) == Pow2(a) * Pow2(b)
  {
    if b > 0 {
      Pow2Sum(a, b - 1);
      assert Pow2(a + b) == 2 * Pow2(a + (b - 1));
    }
  }

  /** A word whose first `r` bits are ones, put together from its bytes in network order. */
  lemma WordFromBytes(r: nat)
    requires 0 < r < 32
    ensures ShiftedOnes(32 - r) ==
            0x100_0000 * MaskByte(r, 0) + 0x1_0000 * MaskByte(r, 1) + 0x100 * MaskByte(r, 2) + MaskByte(r, 3)
  {
    var k := if r <= 8 then 8 - r else if r <= 16 then 16 - r else if r <= 24 then 24 - r else 32 - r;
    SmallPowers();
    FourBytes();
    Pow2Sum(8, 8);
    Pow2Sum(8, 16);
    Pow2Sum(32 - r - k, k);
    assert Pow2(16) == 0x1_0000 && Pow2(24) == 0x100_0000;
  }

  lemma BytesOfWord(b0: byte, b1: byte, b2: byte, b3: byte)
    ensures var word := 0x100_0000 * b0 + 0x1_0000 * b1 + 0x100 * b2 + b3;
            && word / 0x100_0000 == b0
            && word / 0x1_0000 % 256 == b1
            && word / 0x100 % 256 == b2
            && word % 256 == b3
  {
    var low := 0x100 * b2 + b3;
    var word := 0x100_0000 * b0 + 0x1_0000 * b1 + low;
    DivModUnique(word, 0x100_0000, b0, 0x1_0000 * b1 + low);
    DivModUnique(word, 0x1_0000, 0x100 * b0 + b1, low);
    DivModUnique(word, 0x100, 0x1_0000 * b0 + 0x100 * b1 + b2, b3);
    DivModUnique(0x100 * b0 + b1, 0x100, b0, b1);
    DivModUnique(0x1_0000 * b0 + 0x100 * b1 + b2, 0x100, 0x100 * b0 + b1, b2);
  }

  lemma WordBytes(r: nat)
    requires r < 32
    ensures var word := if r == 0 then 0 else ShiftedOnes(32 - r);
            && word / 0x100_0000 == MaskByte(r, 0)
            && word / 0x1_0000 % 256 == MaskByte(r, 1)
            && word / 0x100 % 256 == MaskByte(r, 2)
            && word % 256 == MaskByte(r, 3)
  {
    if r > 0 {
      WordFromBytes(r);
      BytesOfWord(MaskByte(r, 0), MaskByte(r, 1), MaskByte(r, 2), MaskByte(r, 3));
    }
  }

  datatype Found = Found(dev: string, plen: nat)

  /** The first entry that passes, or the length of the table. */
  function First(table: seq<Entry>, q: Query): (i: nat)
    ensures i <= |table| && (i < |table| ==> Passes(table[i], q))
    ensures forall j :: 0 <= j < i ==> !Passes(table[j], q)
  {
    if table == [] || Passes(table[0], q) then 0 else 1 + First(table[1..], q)
  }

  function Scan(table: seq<Entry>, q: Query): Option<Found> {
    var i := First(table, q);
    if i < |table| then Some(Found(table[i].dev, table[i].plen)) else None
  }

  lemma AllBits(a: Address, b: Address)
    ensures PrefixAgrees(a, b, 128) <==> a == b
  {
    var mask: Address := seq(16, _ => 255);
    MaskedEqualIsPrefix(a, b, mask, 128);
    if PrefixAgrees(a, b, 128) {
      forall i | 0 <= i < 16 ensures a[i] == b[i] {
        AndOnes(a[i], 8);
        AndOnes(b[i], 8);
        SmallPowers();
        MaskedBytesEqual(a, b, mask);
        assert Masked(a, mask)[i] == Masked(b, mask)[i];
      }
    }
  }

  /**
   * What a scan takes: with a mask, an entry whose subnet the target is in; without one, an entry
   * of the target itself. Link-local entries count only when an interface is named.
   */
  lemma PassesExactly(e: Entry, q: Query)
    ensures Passes(e, q) <==>
              && (e.scope == 0 || (e.scope == 0x20 && q.nic != ""))
              && (q.plen == 0 || e.plen == q.plen)
              && (q.nic == "" || e.dev == q.nic)
              && (if q.useMask
                  then forall k: nat :: k < e.plen && k < 128 ==>
                         ByteBit(e.addr[k / 8], k % 8) == ByteBit(q.target[k / 8], k % 8)
                  else e.addr == q.target)
  {
    AllBits(e.addr, q.target);
    if q.useMask && PrefixAgrees(e.addr, q.target, e.plen) {
      forall k: nat | k < e.plen && k < 128
        ensures ByteBit(e.addr[k / 8], k % 8) == ByteBit(q.target[k / 8], k % 8)
      {
        assert AddressBit(e.addr, k) == AddressBit(q.target, k);
      }
    }
  }

  /** The comparison of the four words. */
  method SameUnderMask(a: Address, b: Address, mask: Address) returns (same: bool)
    ensures same <==> MaskedEqual(a, b, mask)
  {
    same := true;
    var i := 0;
    while i < 4
      invariant 0 <= i <= 4 && same
      invariant forall j :: 0 <= j < i ==> And(Word(a, j), Word(mask, j)) == And(Word(b, j), Word(mask, j))
    {
      if And(Word(a, i), Word(mask, i)) != And(Word(b, i), Word(mask, i)) {
        same := false;
        break;
      }
      i := i + 1;
    }
  }

  /** The loop of scan_if. A malformed line ends it as the end of the file does: `table` is what comes before. */
  method ScanIf(table: seq<Entry>, q: Query) returns (r: Option<Found>)
    ensures r == Scan(table, q)
  {
    var i := 0;
    while i < |table|
      invariant 0 <= i <= |table|
      invariant First(table, q) == i + First(table[i..], q)
    {
      var e := table[i];
      assert table[i..][0] == e && table[i..][1..] == table[i + 1..];
      i := i + 1;
      if e.scope != 0 {
        if e.scope != 0x20 || q.nic == "" {
          continue;
        }
      }
      if q.plen != 0 && e.plen != q.plen {
        continue;
      }
      if q.nic != "" {
        if e.dev != q.nic {
          continue;
        }
      }
      var mask := MakeMask(q.useMask, e.plen);
      MaskedEqualIsPrefix(e.addr, q.target, mask, if q.useMask then e.plen else 128);
      var same := SameUnderMask(e.addr, q.target, mask);
      if same {
        return Some(Found(e.dev, e.plen));
      }
    }
    return None;
  }
}

/** start_addr6, stop_addr6 and status_addr6. */
module IPv6Lifecycle {
  import opened HostWords
  import opened IPv6addr
  import opened Wrappers

  const OCF_SUCCESS := 0
  const OCF_ERR_GENERIC := 1
  const OCF_NOT_RUNNING := 7

  /** The resource: its address, its prefix length (0 if not given) and its interface ("" if not given). */
  datatype Resource = Resource(addr: Address, plen: nat, nic: string)

  /** What the kernel and the network answer: does an ioctl succeed, where does a new entry go, does the ping. */
  datatype Answers = Answers(accepts: bool, at: nat, reachable: bool)

  /** The entry is this resource's, as status_addr6 sees it. */
  predicate IsUp(e: Entry, r: Resource) {
    Passes(e, Query(r.addr, r.plen, false, r.nic))
  }

  predicate Running(table: seq<Entry>, r: Resource) {
    exists i :: 0 <= i < |table| && IsUp(table[i], r)
  }

  predicate Has(table: seq<Entry>, a: Address, dev: string) {
    exists i :: 0 <= i < |table| && table[i].addr == a && table[i].dev == dev
  }

  /** The kernel keeps no address twice on an interface and gives equal addresses equal scopes. */
  ghost predicate Consistent(table: seq<Entry>, scopeOf: Address -> nat) {
    && (forall i, j :: 0 <= i < j < |table| ==> table[i].addr != table[j].addr || table[i].dev != table[j].dev)
    && (forall i :: 0 <= i < |table| ==> table[i].scope == scopeOf(table[i].addr))
  }

  function Insert(table: seq<Entry>, at: nat, e: Entry): seq<Entry> {
    var k := if at <= |table| then at else |table|;
    table[..k] + [e] + table[k..]
  }

  function Remove(table: seq<Entry>, k: nat): seq<Entry>
    requires k < |table|
  {
    table[..k] + table[k + 1..]
  }

  /** find_if: an interface of the address's subnet, else the one that is named with its prefix length. */
  function FindIf(table: seq<Entry>, r: Resource): Option<Found> {
    var best := Scan(table, Query(r.addr, r.plen, true, r.nic));
    if best.None? && r.nic != "" && r.plen != 0 then Some(Found(r.nic, r.plen)) else best
  }

  /** The first entry that a masked scan takes, or else what was named; never against what was asked for. */
  lemma FindIfChooses(table: seq<Entry>, r: Resource)
    ensures forall i :: 0 <= i < |table| && Passes(table[i], Query(r.addr, r.plen, true, r.nic)) &&
                        (forall j :: 0 <= j < i ==> !Passes(table[j], Query(r.addr, r.plen, true, r.nic))) ==>
                        FindIf(table, r) == Some(Found(table[i].dev, table[i].plen))
    ensures (forall i :: 0 <= i < |table| ==> !Passes(table[i], Query(r.addr, r.plen, true, r.nic))) ==>
              FindIf(table, r) == if r.nic != "" && r.plen != 0 then Some(Found(r.nic, r.plen)) else None
    ensures FindIf(table, r).Some? ==>
              && (r.nic != "" ==> FindIf(table, r).value.dev == r.nic)
              && (r.plen != 0 ==> FindIf(table, r).value.plen == r.plen)
  {
    var q := Query(r.addr, r.plen, true, r.nic);
    var i := First(table, q);
    if i < |table| {
      assert Passes(table[i], q);
      FilterFits(table[i], q);
    }
  }

  lemma FilterFits(e: Entry, q: Query)
    requires Passes(e, q)
    ensures (q.nic != "" ==> e.dev == q.nic) && (q.plen != 0 ==> e.plen == q.plen)
  {
  }

  /** A resource runs exactly when its address is on an entry it may look at, with its prefix length and interface. */
  lemma RunningExactly(table: seq<Entry>, r: Resource)
    ensures Running(table, r) <==>
              exists i :: 0 <= i < |table| && var e := table[i];
                && e.addr == r.addr
                && (e.scope == 0 || (e.scope == 0x20 && r.nic != ""))
                && (r.plen == 0 || e.plen == r.plen)
                && (r.nic == "" || e.dev == r.nic)
  {
    forall i | 0 <= i < |table| {
      PassesExactly(table[i], Query(r.addr, r.plen, false, r.nic));
    }
  }

  class Host {
    var table: seq<Entry>
    const scopeOf: Address -> nat

    ghost predicate Valid()
      reads this
    {
      Consistent(table, scopeOf)
    }

    constructor (table: seq<Entry>, scopeOf: Address -> nat)
      requires Consistent(table, scopeOf)
      ensures Valid() && this.table == table && this.scopeOf == scopeOf
    {
      this.table, this.scopeOf := table, scopeOf;
    }

    /** SIOCSIFADDR: refused for an address that the interface has already. */
    method AssignAddr6(addr: Address, plen: nat, dev: string, k: Answers) returns (ok: bool)
      requires Valid()
      modifies this`table
      ensures Valid()
      ensures ok <==> k.accepts && !Has(old(table), addr, dev)
      ensures table == if ok then Insert(old(table), k.at, Entry(addr, plen, scopeOf(addr), dev)) else old(table)
    {
      ok := k.accepts && !Has(table, addr, dev);
      if ok {
        table := Insert(table, k.at, Entry(addr, plen, scopeOf(addr), dev));
      }
    }

    /** SIOCDIFADDR. */
    method UnassignAddr6(addr: Address, plen: nat, dev: string, k: Answers) returns (ok: bool)
      requires Valid()
      modifies this`table
      ensures Valid()
      ensures ok ==> exists i :: 0 <= i < |old(table)| && table == Remove(old(table), i) &&
                       old(table)[i].addr == addr && old(table)[i].plen == plen && old(table)[i].dev == dev
      ensures !ok ==> table == old(table)
      ensures !ok && k.accepts ==> forall i :: 0 <= i < |table| ==>
                        table[i].addr != addr || table[i].plen != plen || table[i].dev != dev
    {
      var i := 0;
      while i < |table|
        invariant 0 <= i <= |table|
        invariant forall j :: 0 <= j < i ==> table[j].addr != addr || table[j].plen != plen || table[j].dev != dev
      {
        if k.accepts && table[i].addr == addr && table[i].plen == plen && table[i].dev == dev {
          table := Remove(table, i);
          return true;
        }
        if !k.accepts {
          return false;
        }
        i := i + 1;
      }
      ok := false;
    }

    method StatusAddr6(r: Resource) returns (rc: int)
      ensures rc == if Running(table, r) then OCF_SUCCESS else OCF_NOT_RUNNING
    {
      var found := ScanIf(table, Query(r.addr, r.plen, false, r.nic));
      rc := if found.None? then OCF_NOT_RUNNING else OCF_SUCCESS;
    }

    /**
     * A running resource is left alone. Otherwise the address is added or nothing changes, and an
     * added address is reported as running exactly if its scope is one that a scan looks at.
     */
    method StartAddr6(r: Resource, k: Answers) returns (rc: int, ghost added: bool)
      requires Valid()
      modifies this`table
      ensures Valid()
      ensures Running(old(table), r) ==> !added
      ensures !added ==> table == old(table)
      ensures var f := FindIf(old(table), r);
              && (added <==> !Running(old(table), r) && f.Some? && k.accepts && !Has(old(table), r.addr, f.value.dev))
              && (added ==> table == Insert(old(table), k.at, Entry(r.addr, f.value.plen, scopeOf(r.addr), f.value.dev)))
      ensures added ==> (Running(table, r) <==> Visible(scopeOf(r.addr), r.nic))
      ensures rc == if Running(old(table), r) || (added && k.reachable) then OCF_SUCCESS else OCF_ERR_GENERIC
    {
      added := false;
      var status := StatusAddr6(r);
      if status == OCF_SUCCESS {
        return OCF_SUCCESS, false;
      }
      var best := ScanIf(table, Query(r.addr, r.plen, true, r.nic));
      if best.None? && r.nic != "" && r.plen != 0 {
        best := Some(Found(r.nic, r.plen));
      }
      if best.None? {
        return OCF_ERR_GENERIC, false;
      }
      ghost var before := table;
      var ok := AssignAddr6(r.addr, best.value.plen, best.value.dev, k);
      if !ok {
        return OCF_ERR_GENERIC, false;
      }
      added := true;
      StartedIsUp(before, table, k.at, Entry(r.addr, best.value.plen, scopeOf(r.addr), best.value.dev), r, scopeOf);
      rc := if k.reachable then OCF_SUCCESS else OCF_ERR_GENERIC;
    }

    /**
     * A resource that is not running is left alone. Otherwise one entry of its address is removed
     * or nothing changes; after a success it still runs exactly if a second entry was its own.
     */
    method StopAddr6(r: Resource, k: Answers) returns (rc: int)
      requires Valid()
      modifies this`table
      ensures Valid()
      ensures !Running(old(table), r) ==> rc == OCF_SUCCESS
      ensures rc != OCF_SUCCESS || !Running(old(table), r) ==> table == old(table)
      ensures rc == OCF_SUCCESS && Running(old(table), r) ==>
                exists i :: 0 <= i < |old(table)| && IsUp(old(table)[i], r) && table == Remove(old(table), i) &&
                  (Running(table, r) <==> exists j :: 0 <= j < |old(table)| && j != i && IsUp(old(table)[j], r))
      ensures rc == OCF_SUCCESS && r.nic != "" ==> !Running(table, r)
      ensures rc == OCF_SUCCESS || (rc == OCF_ERR_GENERIC && !k.accepts)
    {
      var status := StatusAddr6(r);
      if status == OCF_NOT_RUNNING {
        return OCF_SUCCESS;
      }
      var found := ScanIf(table, Query(r.addr, r.plen, false, r.nic));
      if found.None? {
        return OCF_ERR_GENERIC;
      }
      ghost var before := table;
      ghost var first := First(table, Query(r.addr, r.plen, false, r.nic));
      AllBits(table[first].addr, r.addr);
      var ok := UnassignAddr6(r.addr, found.value.plen, found.value.dev, k);
      if !ok {
        return OCF_ERR_GENERIC;
      }
      assert table == Remove(before, first);
      StoppedIsDown(before, first, r, scopeOf);
      rc := OCF_SUCCESS;
    }
  }

  /** Taking out the one entry that is up gives back the table it was put into. */
  lemma RemoveUndoesInsert(before: seq<Entry>, after: seq<Entry>, final: seq<Entry>, at: nat, e: Entry, i: nat, r: Resource)
    requires !Running(before, r) && after == Insert(before, at, e)
    requires i < |after| && IsUp(after[i], r) && final == Remove(after, i)
    ensures final == before
  {
    var k := if at <= |before| then at else |before|;
    if i != k {
      OnlyInsertedIsUp(before, at, e, i, r);
    }
    RemoveInserted(before, at, e);
  }

  lemma OnlyInsertedIsUp(before: seq<Entry>, at: nat, e: Entry, i: nat, r: Resource)
    requires !Running(before, r) && i <= |before|
    requires i != if at <= |before| then at else |before|
    ensures !IsUp(Insert(before, at, e)[i], r)
  {
    var k := if at <= |before| then at else |before|;
    assert Insert(before, at, e)[i] == before[if i < k then i else i - 1];
  }

  lemma RemoveInserted(before: seq<Entry>, at: nat, e: Entry)
    ensures var k := if at <= |before| then at else |before|;
            Remove(Insert(before, at, e), k) == before
  {
  }

  /** What a command returned and the table it left. */
  datatype Outcome = Outcome(rc: int, table: seq<Entry>)

  /**
   * Start, start again, stop, stop again, for a resource that was down. Repeating a command that
   * succeeded succeeds and changes nothing, and whatever the starts did, a stop that succeeds
   * leaves the table as it was before them.
   */
  method StartThenStop(host: Host, r: Resource, k: seq<Answers>)
    returns (start: Outcome, startAgain: Outcome, stop: Outcome, stopAgain: Outcome)
    requires host.Valid() && |k| == 4 && Visible(host.scopeOf(r.addr), r.nic)
    requires !Running(host.table, r)
    modifies host
    ensures host.Valid() && stopAgain.table == host.table
    ensures start.rc == OCF_SUCCESS ==> startAgain == start
    ensures start.table != old(host.table) ==> Running(start.table, r) && startAgain == Outcome(OCF_SUCCESS, start.table)
    ensures stop.rc == OCF_SUCCESS ==> stop.table == old(host.table) && stopAgain == stop
    ensures stop.rc != OCF_SUCCESS ==> stop.table == startAgain.table && !k[2].accepts
  {
    ghost var before := host.table;
    var rc, added := host.StartAddr6(r, k[0]);
    start := Outcome(rc, host.table);
    var again, addedAgain := host.StartAddr6(r, k[1]);
    startAgain := Outcome(again, host.table);
    ghost var started := host.table;
    rc := host.StopAddr6(r, k[2]);
    stop := Outcome(rc, host.table);
    if rc == OCF_SUCCESS && Running(started, r) {
      ghost var e, at :| started == Insert(before, at, e);
      ghost var i :| 0 <= i < |started| && IsUp(started[i], r) && stop.table == Remove(started, i);
      RemoveUndoesInsert(before, started, stop.table, at, e, i, r);
    }
    rc := host.StopAddr6(r, k[3]);
    stopAgain := Outcome(rc, host.table);
  }

  lemma StartedIsUp(before: seq<Entry>, after: seq<Entry>, at: nat, e: Entry, r: Resource, scopeOf: Address -> nat)
    requires Consistent(before, scopeOf) && after == Insert(before, at, e)
    requires e.addr == r.addr && e.scope == scopeOf(r.addr)
    requires (r.plen != 0 ==> e.plen == r.plen) && (r.nic != "" ==> e.dev == r.nic)
    ensures Running(after, r) <==> Visible(scopeOf(r.addr), r.nic)
  {
    AllBits(e.addr, r.addr);
    var k := if at <= |before| then at else |before|;
    assert after[k] == e;
    assert IsUp(e, r) <==> Visible(scopeOf(r.addr), r.nic);
    if Running(after, r) {
      var i :| 0 <= i < |after| && IsUp(after[i], r);
      AllBits(after[i].addr, r.addr);
      assert i != k ==> after[i] == before[if i < k then i else i - 1];
    }
  }

  lemma StoppedIsDown(before: seq<Entry>, k: nat, r: Resource, scopeOf: Address -> nat)
    requires Consistent(before, scopeOf) && k < |before| && IsUp(before[k], r)
    ensures Running(Remove(before, k), r) <==> exists j :: 0 <= j < |before| && j != k && IsUp(before[j], r)
    ensures r.nic != "" ==> !Running(Remove(before, k), r)
  {
    var after := Remove(before, k);
    assert forall i :: 0 <= i < |after| ==> after[i] == before[if i < k then i else i + 1];
    if j :| 0 <= j < |before| && j != k && IsUp(before[j], r) {
      assert after[if j < k then j else j - 1] == before[j];
      AllBits(before[j].addr, r.addr);
      AllBits(before[k].addr, r.addr);
    }
  }
}
