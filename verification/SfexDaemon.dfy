/**
 * tools/sfex_daemon.c as it is written: static records that the routines overwrite, one lock slot
 * on a byte device. Every method is one step of the protocol, cut where the routine sleeps or
 * where a signal can come between a read and a write.
 */
module SfexDaemon {
  import opened Bytes
  import opened SfexRecord
  import opened SfexFormat
  import opened SfexDevice
  import opened SfexLib
  import opened SfexProtocol
  import opened Wrappers

  class Daemon {
    const nodename: NodeName
    const lib: Lib
    const cdata: ControlData
    const lockIndex: nat
    var pc: Pc
    var won: bool
    var ldata: LockData
    var ldataNew: LockData

    predicate Valid()
      reads this
    {
      && lib.Valid()
      && cdata.blocksize == lib.lockedMem.Length
      && cdata.blocksize * lockIndex + cdata.blocksize <= lib.device.Length
      && |nodename| <= 255 && 0 !in nodename
      && LockFits(ldata)
    }

    /** The daemon's variables as the protocol sees them. */
    function Code(): SfexProtocol.Code
      reads this
    {
      SfexProtocol.Code(pc, ldata, won)
    }

    /** The record on the disk. */
    function Record(): Result<LockData>
      requires Valid()
      reads this, lib.device
    {
      DecodeLock(Slot(lib.device[..], cdata.blocksize, lockIndex))
    }

    /** This is the protocol's step on the decoded record, and no other byte of the device changes. */
    twostate predicate Follows()
      requires old(Valid()) && Valid() && old(Record()).Ok?
      reads this, lib.device
    {
      var (code, disk) := CodeStep(nodename, old(Code()), old(Record()).value);
      && Code() == code
      && Record() == Ok(disk)
      && lib.device[..] == if Writes(old(pc))
                           then Overlay(old(lib.device[..]), cdata.blocksize * lockIndex, EncodeLock(disk, cdata.blocksize))
                           else old(lib.device[..])
    }

    constructor (nodename: NodeName, lib: Lib, cdata: ControlData, lockIndex: nat)
      requires lib.Valid() && cdata.blocksize == lib.lockedMem.Length
      requires cdata.blocksize * lockIndex + cdata.blocksize <= lib.device.Length
      requires |nodename| <= 255 && 0 !in nodename
      ensures Valid() && pc == Reading && !won
      ensures this.nodename == nodename && this.lib == lib && this.cdata == cdata && this.lockIndex == lockIndex
    {
      this.nodename, this.lib, this.cdata, this.lockIndex := nodename, lib, cdata, lockIndex;
      pc, won := Reading, false;
      ldata, ldataNew := FRESH_LOCK, FRESH_LOCK;
    }

    method Exit()
      modifies this`pc, this`won
      ensures pc == Down && !won
    {
      pc, won := Down, false;
    }

    /** A read that succeeds. */
    method ReadRecord() returns (r: LockData)
      requires Valid() && Record().Ok?
      modifies lib.lockedMem
      ensures Valid() && Ok(r) == Record() && LockFits(r)
    {
      var read := lib.ReadLockdata(cdata, lockIndex);
      DecodedFits(Slot(lib.device[..], cdata.blocksize, lockIndex));
      r := read.value;
    }

    /** A write of a record that fits. */
    method WriteRecord()
      requires Valid()
      modifies lib.device, lib.lockedMem
      ensures Valid() && Record() == Ok(ldata)
      ensures lib.device[..] ==
              Overlay(old(lib.device[..]), cdata.blocksize * lockIndex, EncodeLock(ldata, cdata.blocksize))
    {
      LockRoundTrip(ldata, cdata.blocksize);
      SlotAfterWrite(lib.device[..], cdata.blocksize, lockIndex, EncodeLock(ldata, cdata.blocksize), lockIndex);
      var _ := lib.WriteLockdata(cdata, ldata, lockIndex);
    }

    method AcquireRead()
      requires Valid() && Record().Ok? && pc == Reading
      modifies this, lib.lockedMem
      ensures Valid() && Follows()
    {
      ldata := ReadRecord();
      if ldata.status == STATUS_LOCK && nodename != ldata.nodename {
        pc := Waiting;
      } else {
        pc := Claiming;
      }
    }

    method AcquireReread()
      requires Valid() && Record().Ok? && pc == Waiting
      modifies this, lib.lockedMem
      ensures Valid() && Follows()
    {
      ldataNew := ReadRecord();
      if ldata.count != ldataNew.count {
        Exit();
      } else {
        pc := Claiming;
      }
    }

    method AcquireClaim()
      requires Valid() && Record().Ok? && pc == Claiming
      modifies this, lib.device, lib.lockedMem
      ensures Valid() && Follows()
    {
      ldata := ldata.(status := STATUS_LOCK);
      ldata := ldata.(count := NextCount(ldata.count));
      ldata := ldata.(nodename := nodename);
      WriteRecord();
      pc := Colliding;
    }

    method DetectCollision()
      requires Valid() && Record().Ok? && pc == Colliding
      modifies this, lib.lockedMem
      ensures Valid() && Follows()
    {
      ldataNew := ReadRecord();
      if ldata.nodename != ldataNew.nodename {
        Exit();
      } else {
        pc, won := Extending, true;
      }
    }

    method ExtendLock()
      requires Valid() && Record().Ok? && pc == Extending
      modifies this, lib.device, lib.lockedMem
      ensures Valid() && Follows()
    {
      ldata := ldata.(count := NextCount(ldata.count));
      WriteRecord();
      pc := Sleeping;
    }

    method UpdateRead()
      requires Valid() && Record().Ok? && pc == Sleeping
      modifies this, lib.lockedMem
      ensures Valid() && Follows()
    {
      ldata := ReadRecord();
      if ldata.status != STATUS_LOCK || ldata.nodename != nodename {
        Exit();  // failure_todo: the node is rebooted
      } else {
        pc := Updating;
      }
    }

    method UpdateWrite()
      requires Valid() && Record().Ok? && pc == Updating
      modifies this, lib.device, lib.lockedMem
      ensures Valid() && Follows()
    {
      ldata := ldata.(count := NextCount(ldata.count));
      WriteRecord();
      pc := Sleeping;
    }

    method ReleaseRead()
      requires Valid() && Record().Ok? && pc == Quitting
      modifies this, lib.lockedMem
      ensures Valid() && Follows()
    {
      ldata := ReadRecord();
      if ldata.status != STATUS_LOCK || ldata.nodename != nodename {
        Exit();
      } else {
        pc := Releasing;
      }
    }

    method ReleaseWrite()
      requires Valid() && Record().Ok? && pc == Releasing
      modifies this, lib.device, lib.lockedMem
      ensures Valid() && Follows()
    {
      ldata := ldata.(status := STATUS_UNLOCK);
      WriteRecord();
      Exit();
    }
  }

  /** On a formatted device the first daemon, whatever its name, claims the lock without a wait. */
  lemma FirstDaemonClaims(dev: seq<byte>, blocksize: nat, numlocks: nat, j: nat, me: NodeName, c: SfexProtocol.Code)
    requires LOCKDATA_SIZE <= blocksize && HasSlot(dev, blocksize, numlocks) && 1 <= j <= numlocks
    requires c.pc == Reading
    ensures HasSlot(dev, blocksize, j)
    ensures var r := DecodeLock(Slot(Formatted(dev, blocksize, numlocks, numlocks), blocksize, j));
            r.Ok? && CodeStep(me, c, r.value).0.pc == Claiming
  {
    FormatThenUse(dev, blocksize, numlocks, [], j);
  }

  /** What a claim leaves on the disk: the letter 'l', the next count and the claimant's name. */
  lemma ClaimOnDisk(me: NodeName, c: SfexProtocol.Code, disk: LockData, blocksize: nat)
    requires LOCKDATA_SIZE <= blocksize && c.pc == Claiming
    requires |me| <= 255 && 0 !in me && 0 <= c.ldata.count <= 999
    ensures var b := EncodeLock(CodeStep(me, c, disk).1, blocksize);
            b[0] == 'l' as int && b[5..5 + |me|] == me && b[5 + |me|] == 0
    ensures var r := DecodeLock(EncodeLock(CodeStep(me, c, disk).1, blocksize));
            r.Ok? && r.value.count == (c.ldata.count + 1) % 1000
  {
    var claim := CodeStep(me, c, disk).1;
    var b := EncodeLock(claim, blocksize);
    LockRoundTrip(claim, blocksize);
    LockLayout(claim, blocksize);
    CStringShape(me);
    var field := b[5..261];
    assert field == me + Zeros(256 - |me|);
    assert b[5..5 + |me|] == field[..|me|];
    assert b[5 + |me|] == field[|me|];
  }
}
