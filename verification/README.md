# Verified models of the resource agents' C tools

The project models the parts of the resource-agents repository where a wrong step is costly and
hard to see, and proves what they promise.

* **SF-EX, the shared-disk lock.** Nodes share one disk sector per lock and have only reads and
  writes. The daemon's routines are a state machine over a real-valued clock (`SfexProtocol`), with
  any number of nodes, crashes, restarts and SIGTERM at every point between two disk accesses. The
  daemon itself is a class over a byte device whose methods follow that machine step by step
  (`SfexDaemon`), on top of the on-disk format (`SfexFormat`) and of the routines that read and
  write it (`SfexLib`).
* **The TCP checksum** of `tickle_tcp`, against the receiver's one's-complement sum of RFC 1071.
* **storage_mon**, an event-driven daemon over shared counters, against the history of its events
  and against the one-shot polling program.
* **Address and route selection**: `findif` and `IPv6addr`, with the start/stop lifecycle of an address.
* **The stop order of Filesystem**: children are unmounted before their parents.

## What SF-EX needs

The timing rules in `tools/README.sfex` are `GoodTimes`; a step that comes later than its bound
breaks `BoundedDelay`. They are not enough for mutual exclusion. The counter on the record can be
wound back, and then a waiting node takes a live holder for a dead one:

* a node gives up its claim and claims again, or releases the claim, while another node's claim
  that was decided before is still on its way (`SettledIsNeeded`);
* a restarted daemon is told to stop and releases its node's old, expired record while a takeover
  is on its way (`LeaseLeftIsNeeded`).

Two rules about stopping and starting daemons exclude this. `Settled`: a daemon that has not won
finds its own name on the record only when the last claim is older than one I/O delay. `LeaseLeft`:
a daemon that has not won releases only while more than two I/O delays of the lease are left.
`SafeExactlyWhenCareful` says, for any configuration of the times, that bounded delays, fewer than
1000 increments during one wait and these two rules are together enough, and that none of the four
can be missing if a holder's record is never to be taken. It also says when two daemons can hold
the lock at once: if delays are bounded but one of the other three is missing, exactly when the
times are not fenced, that is, when a holder may be silent for `collision_timeout`, so that the
taker passes its check before the holder's next heartbeat finds the foreign name.

The proof rests on the weaker fact that no write puts an older counter on the record (`FORWARD`);
runs that keep the four rules are `CAREFUL`. Where nothing is signalled or killed, the timing rules
and fewer than 1000 increments during one wait decide every race (`LastClaimWins`).

Assumed throughout: one live process per node name, sector reads and writes that are atomic and
succeed, and sleeps that last at least as long as asked.

## Model

| member | source | states |
|---|---|---|
| SfexRecord.AdvanceIsModular | tools/sfex.h:164-169 | k heartbeats add k modulo 1000 on the counter range 0 to 999 |
| SfexRecord.ChangeMissed | tools/sfex_daemon.c:54-57 | the comparison of two counters misses a change exactly when it is a multiple of 1000 |
| SfexSafety.WaiterSeesHolder | tools/sfex_daemon.c:49-58 | in runs where no write puts an older counter on the record (FORWARD), a wait of lock_timeout beside a live holder ends with a counter that has moved |
| SfexSafety.NoRival | tools/sfex_daemon.c:71-87 | in runs where no write puts an older counter on the record (FORWARD), when a claim has survived collision_timeout no write that could overwrite it is in flight |
| SfexSafety.EventKeeps | tools/sfex_daemon.c:42-187 | every event of FORWARD runs, be it a step, a signal, a crash, a start or passing time, keeps the invariant of all nodes and pairs of nodes |
| SfexSafety.AtMostOneHolder | tools/sfex_daemon.c:42-98 | in runs where no write puts an older counter on the record (FORWARD), at most one daemon is between its collision check and its release or death in every state, and the locked record carries its name |
| SfexSafety.HolderIsNeverRefused | tools/sfex_daemon.c:128-179 | in runs where no write puts an older counter on the record (FORWARD), a holder's heartbeat and release always find its own name, so no holder reboots its node, and its release unlocks the record |
| SfexDeployment.CarefulRunsGoForward | tools/sfex_daemon.c:60-66 | when daemons are stopped and started with care no claim or release winds the counter back: every CAREFUL run is a FORWARD run |
| SfexDeployment.CarefulMutualExclusion | tools/README.sfex:232-247 | mutual exclusion, and an undisturbed record, in every run that keeps the timing rules and the two rules about stopping and starting |
| SfexDeployment.CarefulHolderIsNeverRefused | tools/sfex_daemon.c:128-179 | in every such run a holder's heartbeat and release find its own name, and its release unlocks the record |
| SfexDeployment.WaiterGivesUp | tools/sfex_daemon.c:49-58 | in every such run a daemon whose wait ends beside a live holder gives up and writes nothing |
| SfexDeployment.WaiterDecides | tools/sfex_daemon.c:49-61 | in every such run a daemon whose wait ends goes on to claim exactly when the record has the count that it read, locked or not, that is, exactly when nobody has moved the counter since; otherwise it is gone, and it writes nothing |
| SfexDeployment.SurvivingClaimIsSafe | tools/sfex_daemon.c:76-96 | in every such run, when a daemon passes its collision check no node is about to claim, or to release without having won |
| SfexDeployment.Obtainable | tools/sfex_daemon.c:44-98 | from any record left on the disk, a dead holder's or an own fresh claim included, some CAREFUL run gives a node the lock, alone, after at most lock_timeout and collision_timeout on the clock |
| SfexDeployment.ReleasedLockIsTaken | tools/sfex_daemon.c:49-98 | a holder that is told to stop, wherever its daemon is, beside a lone waiter that has seen its last write releases the lock at once, and some CAREFUL continuation gives it to the waiter within the two timeouts |
| SfexDeployment.RulesAreMeant | heartbeat/sfex:47-49 | the timing rules admit the default timeouts and no collision_timeout within an I/O delay |
| SfexFence.FencedIsExclusive | tools/sfex_daemon.c:110-152 | when steps are in time and a holder is never silent for collision_timeout, a holder whose record was taken finds out and gives up before the taker has passed its check |
| SfexLimits.SettledIsNeeded | tools/sfex_daemon.c:154-179 | whatever the times, a run with all timing rules kept, in which claims released at once let another node take a holder's record, and unless the times are fenced both hold the lock |
| SfexLimits.LeaseLeftIsNeeded | tools/sfex_daemon.c:154-187 | the same for a restarted daemon that releases an expired record |
| SfexLimits.BoundedDelayIsNeeded | tools/README.sfex:232-239 | whatever the times, a claim that comes too late after its read takes a holder's record, and both hold the lock |
| SfexLimits.FewIncrementsIsNeeded | tools/sfex.h:168-169 | whatever the times, a wait through whole cycles of 1000 heartbeats takes a holder's record, and unless the times are fenced both hold the lock |
| SfexLimits.SafeExactlyWhenCareful | tools/sfex_daemon.c:42-187 | at any times that keep the timing rules: holders are undisturbed and alone in all runs exactly when all four promises about the daemons are kept; they are alone exactly when steps are in time and the other three promises are kept or the times are fenced |
| SfexRaces.LoserSilence | tools/sfex_daemon.c:83-86 | with no assumption about time, a process whose name is overwritten while it has no write pending writes nothing in any continuation |
| SfexRaces.OwnReadDecides | tools/sfex_daemon.c:76-169 | with no assumption about time, collision check, heartbeat and release go on exactly when the record has the node's name, the latter two only if it is locked; otherwise the process is gone at once, and no such read writes |
| SfexRaces.HeartbeatsAreSpaced | tools/sfex_daemon.c:340-344 | with no assumption about time, k heartbeats of a daemon take at least k - 1 monitor intervals |
| SfexRaces.CalmEventKeeps | tools/sfex_daemon.c:60-66 | without signals and crashes the rules about stopping and starting are kept by themselves |
| SfexRaces.LastClaimWins | tools/sfex_daemon.c:60-87 | when the lock is free or its holder dead, whenever it was claimed, and no contender is signalled or killed, exactly the last node to write its claim ends up holding; only the timing rules and fewer than 1000 increments in a wait are promised |
| SfexRaces.LoneContenderWins | tools/sfex_daemon.c:42-98 | a daemon that is alone obtains the lock, however slow its disk accesses within their bound and however long its sleeps |
| SfexRaces.LosersWriteNothing | tools/sfex_daemon.c:60-87 | after the last claim of such a race only its writer writes |
| SfexDaemon.Daemon.AcquireRead | tools/sfex_daemon.c:44-49 | the first read decides as the protocol's step on the decoded record does, and writes nothing |
| SfexDaemon.Daemon.AcquireReread | tools/sfex_daemon.c:50-58 | the second read gives up exactly when the counter differs |
| SfexDaemon.Daemon.AcquireClaim | tools/sfex_daemon.c:60-67 | the claim puts the protocol's record in the lock's slot and changes no other byte |
| SfexDaemon.Daemon.DetectCollision | tools/sfex_daemon.c:76-87 | the read after collision_timeout gives up exactly when the name differs |
| SfexDaemon.Daemon.ExtendLock | tools/sfex_daemon.c:92-96 | the extension puts the next counter in the lock's slot and changes no other byte |
| SfexDaemon.Daemon.UpdateRead | tools/sfex_daemon.c:128-143 | the heartbeat goes on exactly when the record is locked by this node |
| SfexDaemon.Daemon.UpdateWrite | tools/sfex_daemon.c:145-151 | the heartbeat writes the record it has read with the next counter |
| SfexDaemon.Daemon.ReleaseRead | tools/sfex_daemon.c:154-169 | the release goes on exactly when the record is locked by this node |
| SfexDaemon.Daemon.ReleaseWrite | tools/sfex_daemon.c:171-178 | the release writes the record it has read as unlocked and ends the process |
| SfexDaemon.FirstDaemonClaims | tools/sfex_daemon.c:44-60 | on a formatted device the first daemon, whatever its name, goes on to claim without a wait |
| SfexDaemon.ClaimOnDisk | tools/sfex_daemon.c:60-67 | a claim leaves the letter l, the NUL-terminated node name and a count that reads as the next one modulo 1000 |
| SfexFormat.LockRoundTrip | tools/sfex_lib.c:239-287 | a written lock record is read back unchanged exactly when each value fits its field less one NUL |
| SfexFormat.ControlRoundTrip | tools/sfex_lib.c:177-222 | a written control block is read back unchanged exactly when its magic and version are this program's and its numbers fit their fields |
| SfexFormat.ParseDigitsInverse | tools/sfex_lib.c:350-355 | reading a number's decimal digits gives the number |
| SfexFormat.DigitsArePositional | tools/sfex_lib.c:190-215 | the printed digits are those of the decimal system, the highest first |
| SfexFormat.AtoiOfText | tools/sfex_lib.c:346-355 | atoi skips white space, takes one sign, and reads a number up to the first other character |
| SfexFormat.LockAccepted | tools/sfex_lib.c:405-428 | a lock record is accepted exactly when its text fields end in NUL and its status is u or l |
| SfexFormat.ControlAccepted | tools/sfex_lib.c:333-355 | a control block is accepted exactly when its magic is SFEX, its text fields end in NUL and its version reads as 1 |
| SfexFormat.DecodedFits | tools/sfex_lib.c:375-437 | every record that a read accepts, whatever the bytes, fits the fields it will be written to |
| SfexDevice.SlotAfterWrite | tools/sfex_lib.c:265-287 | a lock write changes its own slot and no other |
| SfexDevice.FormatThenUse | tools/sfex_init.c:159-174 | after formatting and any later lock writes a slot that was not written reads as unlocked with count 0 and no name, and any other as the last record written to it |
| SfexDevice.FormattedControl | tools/sfex_lib.c:144-153 | the control block of a formatted device reads as magic SFEX, version 1, revision 3, the block size and the number of locks exactly if these fit their fields, and then the index check accepts exactly the formatted locks on a device of that sector size |
| SfexLib.Lib.Snprintf | tools/sfex_lib.c:190-215 | a field receives the value cut to its width less one, padded with NULs, and the rest of the buffer stays |
| SfexLib.Lib.WriteControldata | tools/sfex_lib.c:177-222 | block 0 of the device becomes the encoded control block and no other byte changes |
| SfexLib.Lib.WriteLockdata | tools/sfex_lib.c:239-287 | the slot becomes the encoded record, no other byte changes, and success means that the slot lies on the device |
| SfexLib.Lib.ReadControldata | tools/sfex_lib.c:298-358 | the control block of a formatted device is decoded, or refused for its magic or version |
| SfexLib.Lib.ReadLockdata | tools/sfex_lib.c:375-437 | the slot is decoded, or refused when it is not whole, not terminated or has an unknown status |
| SfexLib.Lib.LockIndexCheck | tools/sfex_lib.c:449-474 | an index is accepted exactly when the control block is valid, holds as many locks and has the device's sector size |
| SfexLib.Lib.Format | tools/sfex_init.c:159-174 | the loop leaves the formatted device and fails exactly when a lock slot does not fit on it |
| TcpChecksum.TwoFolds | tools/tickle_tcp.c:78-79 | two folds of any 32-bit sum give its one's-complement value |
| TcpChecksum.ResidueIsCongruent | tools/tickle_tcp.c:78-79 | that value is congruent to the sum modulo 65535 and zero only for a zero sum |
| TcpChecksum.OnesSumIsResidue | tools/tickle_tcp.c:55-67 | the receiver's end-around-carry sum, section 1 of RFC 1071, is the exact word sum reduced once |
| TcpChecksum.OrderDoesNotMatter | tools/tickle_tcp.c:55-67 | segments with the same 16-bit words in any order have the same sum and the same checksum |
| TcpChecksum.ReceiverAccepts | tools/tickle_tcp.c:69-113 | over any pseudo-header a receiver accepts exactly the checksum stored in a zeroed field, and 0 where it is 0xFFFF |
| TcpChecksum.Uint16Checksum | tools/tickle_tcp.c:55-67 | the loop computes the exact sum of the big-endian words, odd lengths included, without overflow of 32 bits |
| TcpChecksum.TcpChecksum | tools/tickle_tcp.c:69-86 | the stored word is the complement of the receiver's sum over the IPv4 pseudo-header and the segment, zero replaced |
| TcpChecksum.TcpChecksum6 | tools/tickle_tcp.c:88-113 | the same over the IPv6 pseudo-header of section 8.1 of RFC 8200 |
| TcpChecksum.SendSegment4 | tools/tickle_tcp.c:69-86 | a segment that carries its IPv4 checksum is accepted and is otherwise unchanged |
| TcpChecksum.SendSegment6 | tools/tickle_tcp.c:88-113 | a segment that carries its IPv6 checksum is accepted and is otherwise unchanged |
| StorageMon.ReapStepKeeps | tools/storage_mon.c:291-339 | reaping a child in any order keeps score, counts, running tests and reported score consistent with the history |
| StorageMon.ExpiryKeeps | tools/storage_mon.c:405-426 | so does the expiry timer |
| StorageMon.ScoreIsSum | tools/storage_mon.c:291-426 | in every interleaving the score is the sum over the failed and the late devices, each once, at most 250, 0 exactly if there are none; finished and running tests add up to all devices |
| StorageMon.ClientAnswer | tools/storage_mon.c:608-646 | the reply is -2 exactly before the first failure or completed round, then the current round's score if it has a failure or is complete, else that of the last completed round |
| StorageMon.NeverUnknownAgain | tools/storage_mon.c:616-627 | once a score has been told no later reply is -2 |
| StorageMonDaemon.Monitor.IsChildRunning | tools/storage_mon.c:229-239 | true exactly when some test is running |
| StorageMonDaemon.Monitor.FindChildPid | tools/storage_mon.c:277-289 | the first device whose running test has the pid |
| StorageMonDaemon.Monitor.SigchldHandler | tools/storage_mon.c:291-339 | the globals become those of reaping the children one by one |
| StorageMonDaemon.Monitor.ChildTimeoutHandler | tools/storage_mon.c:405-426 | the loop adds the scores of all unfinished devices and leaves the tests running |
| StorageMonDaemon.Monitor.TestDeviceMain | tools/storage_mon.c:434-474 | a new round clears score and count, or nothing changes while a test is running |
| StorageMonDaemon.Monitor.ProcessMessage | tools/storage_mon.c:608-646 | the reply of a client query in terms of the globals |
| StorageMonDaemon.TestDevicesOnce | tools/storage_mon.c:476-519 | the polling loop returns the sum over the devices that failed or were unfinished at the deadline |
| StorageMonDaemon.DaemonMatchesOneShot | tools/storage_mon.c:291-426 | after any events a round starts whose children end with the statuses of a schedule, before the timer exactly if they end in time; in any order and grouping of exits, expiry and vain intervals, once the timer has expired or all are reaped the score is what the polling loop returns for that schedule |
| Findif.ValidateNetmaskBits | tools/findif.c:397-414 | exactly the lengths from 1 to 32 are accepted, and give the word of the mask that a route of that length carries |
| Findif.SwapReverses | tools/findif.c:411-413 | htonl reverses the four bytes of a word |
| Findif.BuiltMaskIsRouteMask | tools/findif.c:410-413 | the built mask is the number a routing table line of that prefix length carries |
| Findif.MaskBits | tools/findif.c:410-413 | in memory exactly the first n bits of the mask are set |
| Findif.NetmaskBits | tools/findif.c:447-461 | 32 less the number of the lowest bit set, -1 for an empty mask |
| Findif.BitsRoundTrip | tools/findif.c:397-461 | counting the bits of a mask gives the length it was built from |
| Findif.MaskRoundTrip | tools/findif.c:397-461 | building a mask from the counted bits of a contiguous mask gives the mask |
| Findif.BroadcastIsLargest | tools/findif.c:725-736 | the default broadcast, computed in network order and swapped, is the largest address of the subnet |
| Findif.BroadcastBits | tools/findif.c:725-749 | the printed broadcast has the address's first n bits, in network order, and ones behind them |
| FindifRoutes.SearchUsingProcRoute | tools/findif.c:173-232 | the pass chooses a matching route that none dominates in metric and mask, the last of its equals; a bad line, no match or the largest metric is an error |
| FindifRoutes.MatchesIsPrefix | tools/findif.c:213 | under a prefix mask of p bits a route matches exactly the addresses that share its first p bits |
| FindifRoutes.ChoiceIsUndominated | tools/findif.c:213-219 | no matching route has at least as low a metric and as large a mask and is better in one; of one metric the choice has the largest mask, of one mask the lowest metric, of equals it is the last |
| FindifRoutes.BestInBoth | tools/findif.c:214-220 | a route that is best in metric and in mask decides the choice whatever the order |
| FindifRoutes.SwappedMaskOrder | tools/findif.c:214-216 | byte-swapped contiguous masks compare as their prefix lengths do |
| FindifRoutes.SwappedMaskBytes | tools/findif.c:213-219 | the mask of a prefix is the word whose bytes in memory are those of the prefix |
| FindifRoutes.MostSpecific | tools/findif.c:203-224 | among routes of one metric the choice shares its prefix with the address, and no route with a longer prefix does |
| IPv6addr.MakeMask | heartbeat/IPv6addr.c:484-495 | the word-wise mask has exactly the leading plen bits set, for plen from 0 to 128 |
| IPv6addr.MaskedEqualIsPrefix | heartbeat/IPv6addr.c:497-505 | the four masked 32-bit words are equal exactly when the first plen bits of the addresses agree |
| IPv6addr.SameUnderMask | heartbeat/IPv6addr.c:497-505 | the loop over the four words finds exactly whether they are equal under the mask |
| IPv6addr.PassesExactly | heartbeat/IPv6addr.c:455-512 | a masked scan takes exactly entries whose subnet the target is in, an unmasked one those of the target itself, with the prefix length and interface asked for, link-local ones only if an interface is named |
| IPv6addr.First | heartbeat/IPv6addr.c:435-516 | the number of the first entry that passes all filters, or that of the end |
| IPv6addr.ScanIf | heartbeat/IPv6addr.c:420-516 | the loop returns interface and prefix length of the first entry that passes, nothing exactly when none does |
| IPv6Lifecycle.FindIfChooses | heartbeat/IPv6addr.c:518-530 | the interface for a new address is that of the first entry in whose subnet it is, else the one that is named with its prefix length |
| IPv6Lifecycle.RunningExactly | heartbeat/IPv6addr.c:400-408 | a resource runs exactly when its address is on an entry of global scope, or link-local if an interface is named, with the prefix length and interface asked for |
| IPv6Lifecycle.Host.StatusAddr6 | heartbeat/IPv6addr.c:400-408 | running exactly when the address is on a visible entry of the table |
| IPv6Lifecycle.Host.StartAddr6 | heartbeat/IPv6addr.c:315-355 | a running resource is left alone; otherwise its address is added to the interface found exactly when there is one, the kernel accepts and the interface does not have it; an added address of a visible scope is running |
| IPv6Lifecycle.Host.StopAddr6 | heartbeat/IPv6addr.c:375-398 | one entry of the resource is removed or nothing changes; after a success with an interface named it is not running |
| IPv6Lifecycle.RemoveUndoesInsert | heartbeat/IPv6addr.c:567-596 | removing the only running entry gives back the table before it was added |
| IPv6Lifecycle.StartThenStop | heartbeat/IPv6addr.c:315-398 | start, start again, stop, stop again: repeating a command that succeeded succeeds and changes nothing, and a stop that succeeds leaves the table as it was before the starts, whatever they did |
| Filesystem.ChildrenFirst | heartbeat/Filesystem:390-392 | the reverse-sorted list holds exactly the mounts below the mount point, none before one below it |
| Filesystem.BelowIsMoreNames | heartbeat/Filesystem:391 | a path is below another exactly when it has more names and begins with all of the other's |
| Filesystem.SiblingIsNotListed | heartbeat/Filesystem:391 | a path that only goes on with the last name of the mount point is not listed |
| Filesystem.ListIsReversed | heartbeat/Filesystem:391 | the list is in reverse order of the character codes |
| Filesystem.MountTable.TryUmount | heartbeat/Filesystem:714-722 | success exactly when the path is not in the table afterwards |
| Filesystem.MountTable.FsStop | heartbeat/Filesystem:750-774 | success exactly when some attempt finds the path free and nothing is mounted below it |
| Filesystem.MountTable.UmountAll | heartbeat/Filesystem:807-825 | the loop unmounts exactly the paths that are free in time together with all below them; success means that nothing at or below the mount point is left; paths that only go on with its last name stay |
| Filesystem.MountTable.FilesystemStop | heartbeat/Filesystem:779-830 | the same, and nothing to do when the mount point is not mounted |

## Where the code and its documentation differ

The models follow the code.

* `tools/sfex.h` gives the magic number as {0x01, 0x1f, 0x71, 0x7f} in a comment; the code uses "SFEX".
* `tools/sfex.h` says that the node name is first filled with white space; `sfex_init` writes an empty one.
* The index check of `tools/sfex_lib.c` has no lower bound; option parsing rejects indices below 1.
* In storage_mon the finished and the running tests add up to all devices only from the first round on.
* `Filesystem_stop` reports success when the mount point is not mounted, even if paths below it are;
  otherwise it goes on after a path that it says it gives up.
* A route whose metric is LONG_MAX is indistinguishable from no route in `findif`, but it still
  raises the mask that later routes have to reach.

## Left out

SF-EX:

- Failed reads and writes of a daemon: acquire_lock goes on after two of them with an old copy; the protocol takes every access as successful.
- SfexLimits.SafeExactlyWhenCareful: is about all runs that keep a set of promises; whether one particular run without a promise is safe is not decided.
- SfexRaces.LastClaimWins: says who holds once all contenders have decided; that each decides in time is not stated, since nothing bounds how long a sleep overruns.
- Reboot and crm_resource calls: a daemon that has lost its lock ends.
- Signals that interrupt a disk access: a step is one whole access. The SIGTERM handler runs between two accesses.
- Direct I/O, device and sector-size discovery, retries of short reads and writes: the device is a byte array, a block has at least 261 bytes, and transfers end only at the end of the device.
- sfex_stat and the sfex resource agent: they call the same routines.

Checksum:

- Big-endian hosts and segments above 65535 bytes.
- Building of headers and raw sockets.

storage_mon:

- Fork failures, children that end by a signal, unknown pids, SIGTERM shutdown and a timeout that is not below the interval: the score claims are not made for these. Injected errors and the device reads themselves are the children's exit statuses here.

findif and IPv6addr:

- Words of 64 bits: masks and addresses are 32-bit values, so that a broadcast is stated on its low 32 bits, as it is printed. The counted netmask length is held in 8 bits, where -1 is 255.
- The route command's output, address parsing and interface lookup.
- Sockets and ioctls: what the kernel answers is a parameter, and so is the place where it puts a new entry; an address is on an interface at most once. The neighbour advertisement and the ping only enter as whether the address answers.
- write_pid_file.

Filesystem:

- Bind mounts, regular expressions in mount points, two mounts on one path, the locale's order of characters (bytes are compared), and the processes that are signalled: each attempt is told whether the path is busy.
