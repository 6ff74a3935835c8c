/** The device behind the format: block writes, formatting, and the device as a map from slots to records. */
module SfexDevice {
  import opened Arithmetic
  import opened Bytes
  import opened SfexRecord
  import opened SfexFormat
  import opened Wrappers

  /** The device after a write of `block` at `off`; what lies past its end is not written. */
  function Overlay(dev: seq<byte>, off: nat, block: seq<byte>): (r: seq<byte>)
    ensures |r| == |dev|
  {
    seq(|dev|, i requires 0 <= i < |dev| => if off <= i < off + |block| then block[i - off] else dev[i])
  }

  predicate HasSlot(dev: seq<byte>, blocksize: nat, i: nat) {
    blocksize * i + blocksize <= |dev|
  }

  /** Slot 0 is the control block, slot i the i-th lock. */
  function Slot(dev: seq<byte>, blocksize: nat, i: nat): (b: seq<byte>)
    requires HasSlot(dev, blocksize, i)
    ensures |b| == blocksize
  {
    dev[blocksize * i..blocksize * i + blocksize]
  }

  /** Writing one slot changes that slot and no other. */
  lemma SlotAfterWrite(dev: seq<byte>, blocksize: nat, i: nat, block: seq<byte>, j: nat)
    requires |block| == blocksize && HasSlot(dev, blocksize, j)
    ensures Slot(Overlay(dev, blocksize * i, block), blocksize, j) == if i == j then block else Slot(dev, blocksize, j)
  {
    if i < j {
      MulGap(blocksize, i, j);
    } else if j < i {
      MulGap(blocksize, j, i);
    }
  }

  const FRESH_LOCK := LockData(STATUS_UNLOCK, 0, [])

  function FreshControl(blocksize: nat, numlocks: int): ControlData {
    ControlData(SFEX_MAGIC, SFEX_VERSION, SFEX_REVISION, blocksize, numlocks)
  }

  /** The device once sfex_init has written the control block and the first `k` slots. */
  function Formatted(dev: seq<byte>, blocksize: nat, numlocks: int, k: nat): (r: seq<byte>)
    requires LOCKDATA_SIZE <= blocksize
    ensures |r| == |dev|
  {
    if k == 0 then Overlay(dev, 0, EncodeControl(FreshControl(blocksize, numlocks), blocksize))
    else Overlay(Formatted(dev, blocksize, numlocks, k - 1), blocksize * k, EncodeLock(FRESH_LOCK, blocksize))
  }

  /** What lock_index_check accepts. */
  predicate IndexAccepted(c: Result<ControlData>, index: int, sectorSize: nat) {
    c.Ok? && index <= c.value.numlocks && c.value.blocksize == sectorSize
  }

  datatype SlotWrite = SlotWrite(index: nat, ldata: LockData)

  /** The device after a sequence of lock writes. */
  function WriteSlots(dev: seq<byte>, blocksize: nat, ws: seq<SlotWrite>): (r: seq<byte>)
    requires LOCKDATA_SIZE <= blocksize
    ensures |r| == |dev|
  {
    if ws == [] then dev
    else
      var w := ws[|ws| - 1];
      Overlay(WriteSlots(dev, blocksize, ws[..|ws| - 1]), blocksize * w.index, EncodeLock(w.ldata, blocksize))
  }

  /** The record last written to slot `j`. */
  function LastWrite(ws: seq<SlotWrite>, j: nat, before: LockData): LockData {
    if ws == [] then before
    else if ws[|ws| - 1].index == j then ws[|ws| - 1].ldata
    else LastWrite(ws[..|ws| - 1], j, before)
  }

  lemma {:induction false} FormattedSlot(dev: seq<byte>, blocksize: nat, numlocks: int, k: nat, j: nat)
    requires LOCKDATA_SIZE <= blocksize && HasSlot(dev, blocksize, j) && j <= k
    ensures Slot(Formatted(dev, blocksize, numlocks, k), blocksize, j) ==
            if j == 0 then EncodeControl(FreshControl(blocksize, numlocks), blocksize)
            else EncodeLock(FRESH_LOCK, blocksize)
  {
    if k == 0 {
      SlotAfterWrite(dev, blocksize, 0, EncodeControl(FreshControl(blocksize, numlocks), blocksize), 0);
    } else {
      SlotAfterWrite(Formatted(dev, blocksize, numlocks, k - 1), blocksize, k, EncodeLock(FRESH_LOCK, blocksize), j);
      if j < k {
        FormattedSlot(dev, blocksize, numlocks, k - 1, j);
      }
    }
  }

  predicate Written(ws: seq<SlotWrite>, j: nat) {
    exists i :: 0 <= i < |ws| && ws[i].index == j
  }

  lemma WrittenEarlier(ws: seq<SlotWrite>, j: nat)
    requires ws != [] && ws[|ws| - 1].index != j
    ensures Written(ws, j) <==> Written(ws[..|ws| - 1], j)
  {
    if i :| 0 <= i < |ws| && ws[i].index == j {
      assert ws[..|ws| - 1][i].index == j;
    }
  }

  /** After any lock writes a slot holds the last record written to it, or its old bytes. */
  lemma {:induction false} SlotAfterWrites(dev: seq<byte>, blocksize: nat, ws: seq<SlotWrite>, j: nat, before: LockData)
    requires LOCKDATA_SIZE <= blocksize && HasSlot(dev, blocksize, j)
    ensures Slot(WriteSlots(dev, blocksize, ws), blocksize, j) ==
            if Written(ws, j) then EncodeLock(LastWrite(ws, j, before), blocksize) else Slot(dev, blocksize, j)
    decreases |ws|
  {
    if ws != [] {
      var rest, w := ws[..|ws| - 1], ws[|ws| - 1];
      var earlier, block := WriteSlots(dev, blocksize, rest), EncodeLock(w.ldata, blocksize);
      SlotAfterWrite(earlier, blocksize, w.index, block, j);
      if w.index != j {
        WrittenEarlier(ws, j);
        SlotAfterWrites(dev, blocksize, rest, j, before);
      }
    }
  }

  lemma {:induction false} NeverWritten(ws: seq<SlotWrite>, j: nat, before: LockData)
    requires forall i :: 0 <= i < |ws| ==> ws[i].index != j
    ensures !Written(ws, j) && LastWrite(ws, j, before) == before
    decreases |ws|
  {
    if ws != [] {
      NeverWritten(ws[..|ws| - 1], j, before);
    }
  }

  lemma {:induction false} LastWritten(ws: seq<SlotWrite>, j: nat, before: LockData, i: nat)
    requires i < |ws| && ws[i].index == j
    requires forall k :: i < k < |ws| ==> ws[k].index != j
    ensures Written(ws, j) && LastWrite(ws, j, before) == ws[i].ldata
    decreases |ws|
  {
    if i < |ws| - 1 {
      LastWritten(ws[..|ws| - 1], j, before, i);
    }
  }

  lemma NumberedSlot(dev: seq<byte>, blocksize: nat, numlocks: nat, j: nat)
    requires HasSlot(dev, blocksize, numlocks) && j <= numlocks
    ensures HasSlot(dev, blocksize, j)
  {
    if j < numlocks {
      MulGap(blocksize, j, numlocks);
    }
  }

  /**
   * Format, then use: a lock that has not been written since is unlocked, with count 0 and no
   * name; any other slot reads as the last record written to it.
   */
  lemma FormatThenUse(dev: seq<byte>, blocksize: nat, numlocks: nat, ws: seq<SlotWrite>, j: nat)
    requires LOCKDATA_SIZE <= blocksize && HasSlot(dev, blocksize, numlocks)
    requires forall i :: 0 <= i < |ws| ==> 1 <= ws[i].index && LockFits(ws[i].ldata)
    requires 1 <= j <= numlocks
    ensures HasSlot(dev, blocksize, j)
    ensures var r := DecodeLock(Slot(WriteSlots(Formatted(dev, blocksize, numlocks, numlocks), blocksize, ws), blocksize, j));
            && r.Ok?
            && ((forall i :: 0 <= i < |ws| ==> ws[i].index != j) ==>
                  r.value.status == 'u' as int && r.value.count == 0 && r.value.nodename == [])
            && (forall i :: 0 <= i < |ws| && ws[i].index == j && (forall k :: i < k < |ws| ==> ws[k].index != j) ==>
                  r.value == ws[i].ldata)
  {
    NumberedSlot(dev, blocksize, numlocks, j);
    var formatted := Formatted(dev, blocksize, numlocks, numlocks);
    FormattedSlot(dev, blocksize, numlocks, numlocks, j);
    SlotAfterWrites(formatted, blocksize, ws, j, FRESH_LOCK);
    var last := LastWrite(ws, j, FRESH_LOCK);
    LastFits(ws, j, FRESH_LOCK);
    LockRoundTrip(last, blocksize);
    LockRoundTrip(FRESH_LOCK, blocksize);
    if forall i :: 0 <= i < |ws| ==> ws[i].index != j {
      NeverWritten(ws, j, FRESH_LOCK);
    }
    forall i | 0 <= i < |ws| && ws[i].index == j && (forall k :: i < k < |ws| ==> ws[k].index != j)
      ensures last == ws[i].ldata && Written(ws, j)
    {
      LastWritten(ws, j, FRESH_LOCK, i);
    }
  }

  lemma {:induction false} LastFits(ws: seq<SlotWrite>, j: nat, before: LockData)
    requires LockFits(before) && forall i :: 0 <= i < |ws| ==> LockFits(ws[i].ldata)
    ensures LockFits(LastWrite(ws, j, before))
    decreases |ws|
  {
    if ws != [] {
      LastFits(ws[..|ws| - 1], j, before);
    }
  }

  /**
   * The control block of a formatted device, whatever locks are written later: this program's
   * magic, version and revision, the block size and the number of locks, provided that these two
   * fit their fields. The index check accepts exactly the formatted locks, and only on a device
   * with that sector size.
   */
  lemma FormattedControl(dev: seq<byte>, blocksize: nat, numlocks: nat, ws: seq<SlotWrite>)
    requires LOCKDATA_SIZE <= blocksize && HasSlot(dev, blocksize, numlocks)
    requires forall i :: 0 <= i < |ws| ==> 1 <= ws[i].index
    ensures HasSlot(dev, blocksize, 0)
    ensures var r := DecodeControl(Slot(WriteSlots(Formatted(dev, blocksize, numlocks, numlocks), blocksize, ws), blocksize, 0));
            && (r == Ok(ControlData(['S' as int, 'F' as int, 'E' as int, 'X' as int], 1, 3, blocksize, numlocks)) <==>
                  blocksize < 10_000_000 && numlocks <= 999)
            && (blocksize < 10_000_000 && numlocks <= 999 ==>
                  forall index: int, sectorSize: nat ::
                    IndexAccepted(r, index, sectorSize) <==> index <= numlocks && sectorSize == blocksize)
  {
    NumberedSlot(dev, blocksize, numlocks, 0);
    var formatted := Formatted(dev, blocksize, numlocks, numlocks);
    FormattedSlot(dev, blocksize, numlocks, numlocks, 0);
    SlotAfterWrites(formatted, blocksize, ws, 0, FRESH_LOCK);
    NeverWritten(ws, 0, FRESH_LOCK);
    ControlRoundTrip(FreshControl(blocksize, numlocks), blocksize);
  }
}

/** tools/sfex_lib.c: the shared buffer, the open device and the routines that move records between them. */
module SfexLib {
  import opened Arithmetic
  import opened Bytes
  import opened SfexRecord
  import opened SfexFormat
  import opened SfexDevice
  import opened Wrappers

  lemma ClearedTail(mem: seq<byte>, off: nat, width: nat, n: nat)
    requires n < width && off + width <= |mem|
    requires mem[off..off + width] == Zeros(width)
    ensures mem[off + n..] == Zeros(width - n) + mem[off + width..]
  {
    var field := mem[off..off + width];
    assert forall k :: n <= k < width ==> mem[off + k] == field[k] == 0;
  }

  class Lib {
    const device: array<byte>
    const lockedMem: array<byte>

    /** The buffer is one sector, which is the block size once lock_index_check has passed. */
    predicate Valid() {
      device != lockedMem && LOCKDATA_SIZE <= lockedMem.Length
    }

    constructor (device: array<byte>, sectorSize: nat)
      requires LOCKDATA_SIZE <= sectorSize
      ensures Valid() && this.device == device && fresh(lockedMem) && lockedMem.Length == sectorSize
      ensures forall i :: 0 <= i < sectorSize ==> lockedMem[i] == 0
    {
      this.device := device;
      this.lockedMem := new byte[sectorSize](_ => 0);
    }

    method Memset(n: nat)
      requires n <= lockedMem.Length
      modifies lockedMem
      ensures lockedMem[..] == Zeros(n) + old(lockedMem[n..])
    {
      var i := 0;
      while i < n
        invariant i <= n
        invariant forall k :: 0 <= k < i ==> lockedMem[k] == 0
        invariant forall k :: i <= k < lockedMem.Length ==> lockedMem[k] == old(lockedMem[k])
      {
        lockedMem[i] := 0;
        i := i + 1;
      }
    }

    method Memcpy(off: nat, s: seq<byte>)
      requires off + |s| <= lockedMem.Length
      modifies lockedMem
      ensures lockedMem[..] == old(lockedMem[..off]) + s + old(lockedMem[off + |s|..])
    {
      var i := 0;
      while i < |s|
        invariant i <= |s|
        invariant forall k :: 0 <= k < i ==> lockedMem[off + k] == s[k]
        invariant forall k :: 0 <= k < off ==> lockedMem[k] == old(lockedMem[k])
        invariant forall k :: off + i <= k < lockedMem.Length ==> lockedMem[k] == old(lockedMem[k])
      {
        lockedMem[off + i] := s[i];
        i := i + 1;
      }
      assert forall k :: 0 <= k < |s| ==> lockedMem[..][off + k] == s[k];
    }

    /** snprintf of a string that is already formatted, into a cleared field of `width` bytes. */
    method Snprintf(off: nat, width: nat, s: seq<byte>)
      requires 0 < width && off + width <= lockedMem.Length
      requires lockedMem[off..off + width] == Zeros(width)
      modifies lockedMem
      ensures lockedMem[..] == old(lockedMem[..off]) + Field(s, width) + old(lockedMem[off + width..])
    {
      var n := Min(|s|, width - 1);
      ClearedTail(lockedMem[..], off, width, n);
      Memcpy(off, s[..n]);
      ghost var copied := lockedMem[..];
      assert copied == old(lockedMem[..off]) + s[..n] + (Zeros(width - n) + old(lockedMem[off + width..]));
      assert copied[off + n] == 0;
      lockedMem[off + n] := 0;
      assert lockedMem[..] == copied;
      assert copied == old(lockedMem[..off]) + (s[..n] + Zeros(width - n)) + old(lockedMem[off + width..]);
    }

    /** write(2) of the first `n` bytes of the buffer at a file offset; the result is the number written. */
    method WriteOut(off: nat, n: nat) returns (written: nat)
      requires Valid() && n <= lockedMem.Length
      modifies device
      ensures device[..] == Overlay(old(device[..]), off, lockedMem[..n])
      ensures written == n <==> off + n <= device.Length || n == 0
      ensures written <= n
    {
      written := 0;
      while written < n && off + written < device.Length
        invariant written <= n
        invariant written == 0 || off + written <= device.Length
        invariant forall k :: 0 <= k < device.Length ==>
                    device[k] == if off <= k < off + written then lockedMem[k - off] else old(device[k])
      {
        device[off + written] := lockedMem[written];
        written := written + 1;
      }
      assert forall k :: 0 <= k < device.Length ==>
          device[..][k] == Overlay(old(device[..]), off, lockedMem[..n])[k];
    }

    /** read(2) of up to `n` bytes into the buffer. */
    method ReadIn(off: nat, n: nat) returns (got: nat)
      requires Valid() && n <= lockedMem.Length
      modifies lockedMem
      ensures got == if device.Length <= off then 0 else Min(n, device.Length - off)
      ensures lockedMem[..] == (if got == 0 then [] else device[off..off + got]) + old(lockedMem[got..])
    {
      got := 0;
      while got < n && off + got < device.Length
        invariant got <= n
        invariant got == 0 || off + got <= device.Length
        invariant forall k :: 0 <= k < lockedMem.Length ==>
                    lockedMem[k] == if k < got then device[off + k] else old(lockedMem[k])
      {
        lockedMem[got] := device[off + got];
        got := got + 1;
      }
    }

    /** The first half of the control block. */
    method FillIdentity(c: ControlData)
      requires Valid() && c.blocksize == lockedMem.Length && |c.magic| == 4
      modifies lockedMem
      ensures lockedMem[..] ==
              c.magic + Field(Decimal(c.version), 4) + Field(Decimal(c.revision), 4) + Zeros(c.blocksize - 12)
    {
      ghost var n := c.blocksize;
      Memset(c.blocksize);
      Memcpy(0, c.magic);
      assert lockedMem[..] == c.magic + Zeros(n - 4);
      Snprintf(4, 4, Decimal(c.version));
      ghost var block := c.magic + Field(Decimal(c.version), 4);
      assert lockedMem[..] == block + Zeros(n - 8);
      Snprintf(8, 4, Decimal(c.revision));
    }

    method WriteControldata(c: ControlData)
      requires Valid() && c.blocksize == lockedMem.Length && |c.magic| == 4
      modifies device, lockedMem
      ensures device[..] == Overlay(old(device[..]), 0, EncodeControl(c, c.blocksize))
    {
      ghost var n := c.blocksize;
      FillIdentity(c);
      ghost var block := c.magic + Field(Decimal(c.version), 4) + Field(Decimal(c.revision), 4);
      assert lockedMem[..] == block + Zeros(n - 12);
      Snprintf(12, 8, Digits(c.blocksize % 0x1_0000_0000));
      block := block + Field(Digits(n % 0x1_0000_0000), 8);
      assert lockedMem[..] == block + Zeros(n - 20);
      Snprintf(20, 4, Decimal(c.numlocks));
      block := block + Field(Decimal(c.numlocks), 4);
      assert lockedMem[..] == block + Zeros(n - 24);
      assert lockedMem[..c.blocksize] == EncodeControl(c, n);
      var _ := WriteOut(0, c.blocksize);
    }

    /** Success means that the whole block lies on the device. */
    method WriteLockdata(c: ControlData, l: LockData, index: nat) returns (ok: bool)
      requires Valid() && c.blocksize == lockedMem.Length
      modifies device, lockedMem
      ensures device[..] == Overlay(old(device[..]), c.blocksize * index, EncodeLock(l, c.blocksize))
      ensures ok <==> HasSlot(device[..], c.blocksize, index)
    {
      ghost var n := c.blocksize;
      Memset(c.blocksize);
      lockedMem[0] := l.status;
      assert lockedMem[..] == [l.status] + Zeros(n - 1);
      Snprintf(1, 4, Decimal(l.count));
      assert lockedMem[..] == [l.status] + Field(Decimal(l.count), 4) + Zeros(n - 5);
      Snprintf(5, 256, CString(l.nodename));
      assert lockedMem[..c.blocksize] == EncodeLock(l, n);
      var s := WriteOut(c.blocksize * index, c.blocksize);
      return s == c.blocksize;
    }

    /** Reads one sector; a short device leaves the rest of the buffer as it was. */
    method ReadControldata() returns (r: Result<ControlData>)
      requires Valid()
      modifies lockedMem
      ensures HasSlot(device[..], lockedMem.Length, 0) ==>
                r == DecodeControl(Slot(device[..], lockedMem.Length, 0))
      ensures r == DecodeControl(lockedMem[..])
    {
      var got := ReadIn(0, lockedMem.Length);
      r := DecodeControl(lockedMem[..]);
      if lockedMem.Length <= device.Length {
        assert lockedMem[..] == device[..][0..lockedMem.Length];
      }
    }

    method ReadLockdata(c: ControlData, index: nat) returns (r: Result<LockData>)
      requires Valid() && c.blocksize == lockedMem.Length
      modifies lockedMem
      ensures r == if HasSlot(device[..], c.blocksize, index) then DecodeLock(Slot(device[..], c.blocksize, index)) else Err
    {
      var off := c.blocksize * index;
      var s := ReadIn(off, c.blocksize);
      if s != c.blocksize {
        return Err;
      }
      assert lockedMem[..] == device[off..off + c.blocksize];
      assert lockedMem[..] == Slot(device[..], c.blocksize, index);
      r := DecodeLock(lockedMem[..]);
    }

    method LockIndexCheck(index: int) returns (ok: bool, c: Result<ControlData>)
      requires Valid()
      modifies lockedMem
      ensures HasSlot(device[..], lockedMem.Length, 0) ==> c == DecodeControl(Slot(device[..], lockedMem.Length, 0))
      ensures ok <==> IndexAccepted(c, index, lockedMem.Length)
    {
      c := ReadControldata();
      ok := c.Ok? && index <= c.value.numlocks && c.value.blocksize == lockedMem.Length;
    }

    /** The main part of sfex_init: the control block, then every lock slot; a short control block goes unnoticed. */
    method Format(numlocks: nat) returns (ok: bool)
      requires Valid()
      modifies device, lockedMem
      ensures ok <==> numlocks == 0 || HasSlot(device[..], lockedMem.Length, numlocks)
      ensures ok ==> device[..] == Formatted(old(device[..]), lockedMem.Length, numlocks, numlocks)
    {
      var c := FreshControl(lockedMem.Length, numlocks);
      WriteControldata(c);
      var index := 1;
      while index <= numlocks
        invariant 1 <= index <= numlocks + 1
        invariant device[..] == Formatted(old(device[..]), lockedMem.Length, numlocks, index - 1)
        invariant index > 1 ==> HasSlot(device[..], lockedMem.Length, index - 1)
      {
        ok := WriteLockdata(c, FRESH_LOCK, index);
        if !ok {
          if index < numlocks {
            MulGap(lockedMem.Length, index, numlocks);
          }
          return;
        }
        index := index + 1;
      }
      ok := true;
    }
  }
}
