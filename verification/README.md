# rdmas storage engine: a verified model

This project models the storage engine of rdmas, an RDMA key-value store, and proves what its
algorithms keep. The engine shares 64-byte buckets and byte-level extents between many clients
that work on them with loads, stores and compare-and-swaps. Five state machines are modelled:

* **The lease lock and the optimistic read.** `LockWord` is the packed 64-bit word of a bucket
  and its refinement to version, stamp, mode, tombstone and lock; `Lease` is the expiry test and
  the lock operations on one word; `LeaseProtocol` lets any number of clients interleave
  load, clock reading, CAS, field writes, release, forced takeover, crash and optimistic reads, over
  any number of eras of the clock; `LeaseLimits` shows what the protocol cannot do without.
* **The cuckoo table.** `Cuckoo` says what the operations do to the bucket array and proves that
  they act on a finite map; `CuckooTable` is the object that overwrites the array in place. `Trails`
  and `CuckooFate` read the fate of a displacement chain off the table before anything is displaced:
  whether the insertion succeeds, and which entry it loses otherwise. `ClientWriter` is the client's
  own insertion, `ClientFate` its fate and how it differs from the engine's, `ClientReader` the read
  path. The map that a table stands for does not depend on its lock bits, and the theorems allow any
  buckets to be locked unless they say otherwise.
* **The large object region and its collector.** `Extent` is the byte format, `Region` the
  allocator with first fit, splitting, bump tail, marks and sweeps, `RegionRuns` its histories,
  `Space` the accounting of bytes, `LargeObjects` the object over a byte array, `Gc` the epoch
  collector.
* **The distributed allocator.** `RemoteAllocator` lets any number of clients reserve space by CAS
  on a shared bump word and fill their extents byte by byte, any of them stopping at any point;
  `RemoteLimits` adds that an undisturbed writer finishes, and how readers can be misled.
* **Replication and LRU selection.** `Replication` and `Lru`.

`Store` puts table, region and reader together, `StoreGc` adds the collector. `Wrappers`, `Bits`, `Bytes` and `Layout` hold
shared definitions: bitwise operators as arithmetic, little-endian numbers, buckets and keys.

Where the source updates state in place, the model has a class or a method over an array, proved
equal to a function on values (`ensures (buckets[..], reply) == Apply(old(buckets[..]), ...)`);
the theorems are about those functions and about all their histories.

## Assumptions

What the theorems over runs assume is written as guards of steps or as preconditions. The code
enforces little of it. Each assumption about how the engine is used or set up names the lemma that
shows what happens without it, or that gives the exact condition under which a single step is harmless.

* A release finds the version that its caller locked, and no other unexpired lease; a field is written
  only while somebody has the word locked. Both hold as long as the caller's own lease lasts. The guards
  are exact (`LeaseLimits.BlindReleaseSafeIff`, `LeaseLimits.StrayWriteSafeIff`) and late clients break
  them (`LeaseLimits.VersionRollback`, `LeaseLimits.StrayWriteReachable`).
* A forced takeover uses a timeout not shorter than the lease, or meets no unexpired lease
  (`LeaseLimits.SafeTimeoutsIff`, `LeaseLimits.TakeoverSafeIff`,
  `LeaseLimits.ShortTakeoverTwoHolders`).
* The clock does not run backwards, and when the 24-bit stamp rolls over the word is free and nobody is
  between its load and its CAS (`LeaseLimits.ClockJumpTwoHoldersIff`,
  `LeaseLimits.RollOverTwoHolders`, `LeaseLimits.AbandonedLockTwoHolders`).
* Fewer than 2^32 releases fall between a read and its verification
  (`LeaseLimits.WrappedVersionTearsRead`).
* A table has a power of two of at least two buckets (`ClientReader.OneBucketOutOfBounds`), and
  histories use keys with a non-zero hash where they read (`Cuckoo.LookupZeroHashIff`).
* Extent data is shorter than 2^32 bytes (`Region.AllocateReadableIff`); marks go to offsets that were
  handed out (`Region.MarkInsideObject`; a freed one is refused, `Region.MarkFreed`), and no mark has the
  V1 magic in its low half (`Region.MarkReadableIff`).
* In `Store` an extent is not freed or swept while a live bucket refers to it (`Store.FreeKeepsGetIff`).
  In `StoreGc` this is no assumption: it follows there from scheduling an extent only when its key is
  deleted, as src/engine/gc.rs:52-55 asks; nothing in the engine makes that call itself. That an extent
  is not freed by hand while its deletion is pending is assumed only where it is said
  (`Gc.OwnEpochDecides`, against `Gc.FreedWhilePendingLosesObject`).
* The shared bump word starts at a multiple of 8 that lies past the word itself
  (`RemoteAllocator.BumpSafeIff`), the space from there on is zero at first
  (`RemoteLimits.DirtySpaceLooksPublished`), and a reader looks at the checksum first
  (`RemoteLimits.EarlyLengthMisleads`). No reservation ends at 2^64 or beyond
  (`RemoteLimits.OverflowMovesBumpBack`).
* Replication assumes nothing of its callers: panics, the part of the queue they leave behind and the
  locks they poison are in the model. That no flush panics holds exactly if the primary is not longer
  than the backup (`Replication.NoFlushPanicsIff`, `Replication.FailedFlush`).
* Clocks, client timestamps, the iteration order of hash sets and the interference of other clients
  are parameters. XXH64 is an arbitrary function. Machine words are naturals below a power of two;
  wrap-around is written out where the code relies on it.

## Surprises in the code

The model follows the code. These are comments that it contradicts, and behaviour that a caller may not
expect.

* src/engine/concurrency.rs:36-37 and 50-52 say that the stamp rolls over every 194 days and that
  the roll-over is handled. 2^24 ms are less than five hours, and a lease that is one millisecond
  old counts as expired at the roll-over (`Lease.RollOverExpiresYoungLease`).
* src/engine/concurrency.rs:16 says the version increments monotonically; a release after the lease
  takes it back (`LeaseLimits.VersionRollback`).
* src/engine/cuckoo.rs:21 says a failed insertion leaves no partial writes; the code moves entries
  and loses exactly one (`Cuckoo.TableFullLosesOne`), which can be an old one (`Cuckoo.OldEntryLost`).
  Which one is fixed by the table before (`CuckooFate.InsertForeseen`), and so is whether the map stays
  as it was (`CuckooFate.FailureKeepsMapIff`).
* src/client/write.rs:356-358 leaves a locked bucket to the client that is writing there. The displacement
  chain of the same file does not look at the lock of the vacant bucket in which it ends
  (`ClientWriter.LockedVacantOverwritten`; exactly when: `ClientFate.LockedOverwrittenIff`).
* src/engine/cuckoo.rs:256-269 and 339-367 skip locked buckets but not tombstones, so a read that meets
  the lock of a key can return a value of it that was deleted (`Cuckoo.LockedKeyReadsDeleted`).
* src/engine/extent.rs:201 says V1 headers are handled. A mark overwrites the magic of a V1 extent, which
  is lost for reading and for the sweep (`Region.MarkLosesV1`).
* src/engine/bootstrap.rs:73 starts the bump word at 0; docs/extent-protocol.md:165 says 64. Only the
  latter keeps the first extent off the bump word (`RemoteAllocator.BumpSafeIff`).
* src/engine/lru.rs:82-83 says the merge keeps the most recent time of each key; it keeps the time
  queued last (`Lru.MergeNewestIff`).
* docs/extent-protocol.md describes another header layout than src/engine/layout.rs:280-323.

## Model

| member | source | states |
|---|---|---|
| LockWord.UnpackBitsIsUnpack | src/engine/layout.rs:108-145 | the masks and shifts of the accessors read the fields of the word as arithmetic positions |
| LockWord.UnpackPack | src/engine/layout.rs:5-21 | packing and then unpacking gives back every version, 24-bit stamp, mode and flag |
| LockWord.PackUnpack | src/engine/layout.rs:5-21 | unpacking and then packing gives back a 64-bit word if and only if its reserved bits are clear |
| LockWord.PackInjective | src/engine/layout.rs:5-21 | different field values never share a word, so a CAS on the word is a CAS on the fields |
| LockWord.LockBitsPack | src/engine/concurrency.rs:149-155 | the word built for locking is the packed form of the lock operation that the protocol uses |
| LockWord.LockBitsShow | src/engine/concurrency.rs:149-155 | read off the machine word by division and remainder: the version is kept, the stamp is the low 24 bits of the clock, the mode is the one asked for, the lock bit is set, tombstone and reserved bits are clear |
| LockWord.ReleaseBitsShow | src/engine/concurrency.rs:168-173 | in the same way: the word of a release has the next version modulo 2^32, the given mode and no other bit |
| LockWord.TakeoverBitsShow | src/engine/concurrency.rs:298-304 | that of a takeover the next version and the mode bit of the word found |
| LockWord.BuryBitsShow | src/engine/layout.rs:171-176 | that of a tombstone the version and mode bit found, the tombstone bit and no other |
| LockWord.FreshShows | src/engine/cuckoo.rs:413-426 | the word of a written bucket is 4 for an extent and 0 otherwise |
| LockWord.ReleaseBitsPack | src/engine/concurrency.rs:168-173 | the word stored by a release has the next version modulo 2^32, the given mode and nothing else |
| LockWord.TakeoverBitsPack | src/engine/concurrency.rs:298-304 | a takeover's masks produce the release word for the version and mode found in the bucket |
| LockWord.BuryBitsPack | src/engine/layout.rs:171-176 | marking a tombstone keeps version and mode and clears stamp and lock |
| Lease.ExpiredMeaning | src/engine/concurrency.rs:53-58 | the wrapped 32-bit comparison holds exactly if the masked now is below the masked stamp or exceeds it by more than the timeout |
| Lease.ExpiredInEra | src/engine/concurrency.rs:46-58 | inside one era the test is true elapsed time against the timeout |
| Lease.ExpiredCorrectIff | src/engine/concurrency.rs:46-58 | for timeouts below 2^24 the exact condition under which the test tells the true age, roll-overs included |
| Lease.RollOverExpiresYoungLease | src/engine/concurrency.rs:36-52 | counterexample to the promised roll-over handling |
| Lease.MayTakeMeaning | src/engine/concurrency.rs:139-147 | the acquisition test on the raw word is: unlocked, or the stamp in it has expired |
| Lease.LeaseLasts | src/engine/concurrency.rs:135-162 | a lock taken earlier in the same era may be taken again exactly after more than 100 milliseconds |
| Lease.AtomicBucket.constructor | src/engine/concurrency.rs:83-85 | the view starts with the word it is given |
| Lease.AtomicBucket.CasLock | src/engine/concurrency.rs:112-115 | succeeds exactly if the word is the expected one and changes it only then |
| Lease.AtomicBucket.TryOnce | src/engine/concurrency.rs:135-162 | one round: success and refusal exactly as the word seen allows, a failed CAS only if somebody stored between the load and the CAS, and on success the fields of the machine word, the requested mode among them |
| Lease.AtomicBucket.TryAcquireLock | src/engine/concurrency.rs:135-162 | whatever others store before any load and between any load and CAS, the loop ends within one round more than there were stores; on success the machine word shows the version of the last word seen, the clock, the requested mode and the lock; on refusal the word is as others left it and holds an unexpired lease |
| Lease.AtomicBucket.ReleaseLock | src/engine/concurrency.rs:168-173 | whatever was there, the machine word then shows the next version, the given mode and nothing else |
| Lease.AtomicBucket.ForceTakeover | src/engine/concurrency.rs:286-309 | the three outcomes exactly characterised; only an expired lock changes the word, to the next version in the mode found |
| LeaseProtocol.StepKeepsInv | src/engine/concurrency.rs:135-309 | every step of every client keeps the protocol invariant, with the weakest guards on release, field write and takeover |
| LeaseProtocol.RollOverKeepsInv | src/engine/concurrency.rs:46-58 | so does a roll-over of the stamp while nothing depends on it |
| LeaseProtocol.RunKeepsInv | src/engine/concurrency.rs:135-309 | and so does every run, over any number of eras |
| LeaseProtocol.MutualExclusion | src/engine/concurrency.rs:135-173 | in every reachable state at most one client holds an unexpired lease, and the shared word is then exactly its lock word |
| LeaseProtocol.VersionCountsReleases | src/engine/concurrency.rs:168-309 | the version is the number of releases modulo 2^32: one more at each release or takeover, never changed otherwise, each recording the body of that moment |
| LeaseProtocol.RunExtends | src/engine/concurrency.rs:135-309 | over every run time, release count and change count never decrease and recorded bodies stay |
| LeaseProtocol.SnapshotRead | src/engine/concurrency.rs:200-223 | a read that verification accepts copied, field by field, the one body that was committed with the version it read, if fewer than 2^32 releases came in between |
| LeaseProtocol.RetryBound | src/engine/concurrency.rs:135-162 | the failed CAS rounds of a call are at most the changes of the word since the call began |
| LeaseProtocol.ChangesAreChanges | src/engine/concurrency.rs:112-173 | each counted change stores a word different from the one before |
| LeaseProtocol.WordSteps | src/engine/concurrency.rs:112-309 | which steps change the word, and to what version, stamp, mode and lock bit |
| LeaseProtocol.SoloAttempt | src/engine/concurrency.rs:135-162 | an undisturbed attempt takes a free bucket or one whose holder's lease is over, in the mode asked for, and is refused otherwise |
| LeaseProtocol.SoloRead | src/engine/concurrency.rs:200-223 | an undisturbed read of a free bucket is accepted, with the body as it is |
| LeaseLimits.BlindReleaseSafeIff | src/engine/concurrency.rs:168-173 | an unguarded release keeps the protocol invariant if and only if the version is still the one the caller locked and nobody else holds an unexpired lease |
| LeaseLimits.StaleHolderReachable | src/engine/concurrency.rs:135-173 | a run to a stale and a fresh holder, in which the stale one's release breaks the invariant |
| LeaseLimits.VersionRollback | src/engine/concurrency.rs:14-16 | a run in which nobody holds a lease and a late release takes the version back by one |
| LeaseLimits.StrayWriteSafeIff | src/engine/concurrency.rs:5-16 | an unguarded field write keeps the invariant if and only if the word is locked or the field does not change |
| LeaseLimits.StrayWriteReachable | src/engine/concurrency.rs:5-16 | a run in which a client past its lease changes a field of a free bucket |
| LeaseLimits.TakeoverSafeIff | src/engine/concurrency.rs:286-309 | a takeover keeps the invariant if and only if nobody holds an unexpired lease |
| LeaseLimits.SafeTimeoutsIff | src/engine/concurrency.rs:286-309 | the timeouts that are safe in every state are exactly those not shorter than the lease |
| LeaseLimits.ShortTakeoverTwoHolders | src/engine/concurrency.rs:286-309 | for every shorter timeout a run to two holders |
| LeaseLimits.MisjudgedIff | src/engine/concurrency.rs:53-58 | a reading within a timeout of the start of a lease finds it expired if and only if the clock went back or rolled over |
| LeaseLimits.ClockJumpTwoHoldersIff | src/engine/concurrency.rs:135-162 | after a jump of the clock the next client becomes a second holder in exactly those two cases, and is refused otherwise |
| LeaseLimits.RollOverTwoHolders | src/engine/concurrency.rs:36-58 | a run to two holders two milliseconds around a roll-over |
| LeaseLimits.AbandonedLockTwoHolders | src/engine/concurrency.rs:135-162 | from any initial state with a lock that a crashed client left: when the clock comes round to just before its stamp, two clients take the same word one after the other, because the first stores the very word that was there |
| LeaseLimits.WrappedVersionTearsRead | src/engine/concurrency.rs:218-223 | after exactly 2^32 releases verification accepts a read that mixes an old field with a new one |
| Layout.PackBodyBytes | src/engine/cuckoo.rs:384-393 | a body is the value as far as it fits (32 bytes inline, 16 for an extent) and zeros after it |
| Layout.ExtentRefRoundTrip | src/engine/layout.rs:201-221 | an extent reference survives being stored in a bucket body |
| Cuckoo.H1 | src/engine/cuckoo.rs:373-375 | the first slot lies in the table |
| Cuckoo.H2 | src/engine/cuckoo.rs:379-381 | the second slot lies in the table and is odd |
| Cuckoo.HomesFromHalves | src/engine/cuckoo.rs:373-381 | in a table of at most 2^32 buckets the first slot is read off the low half of the hash and the second off the high half |
| Cuckoo.LookupIsMapLookup | src/engine/cuckoo.rs:164-192 | lookup is lookup in the map the array stands for |
| Cuckoo.LookupZeroHashIff | src/engine/cuckoo.rs:164-192 | the exact condition under which a lookup of hash 0, which marks empty buckets, is right |
| Cuckoo.ZeroHashFoundInNewTable | src/engine/cuckoo.rs:164-192 | in a new table the zero key is reported as present |
| Cuckoo.DeleteIsRemoval | src/engine/cuckoo.rs:197-204 | delete removes exactly its key from the map; it answers true if and only if the key was there or has hash 0 and an empty slot carries its digest |
| Cuckoo.KickStep | src/engine/cuckoo.rs:481-511 | one displacement keeps placement and uniqueness and exchanges the item in hand for the occupant |
| Cuckoo.KickChainConserves | src/engine/cuckoo.rs:467-513 | a chain of any length, through any cycle and with equal slots, adds the new item and loses nothing, or lacks exactly the item in hand |
| Cuckoo.InsertConserves | src/engine/cuckoo.rs:429-457 | insertion is map update; in a full table, map update less one entry, and then the key was new |
| Cuckoo.TableFullLosesOne | src/engine/cuckoo.rs:465-513 | a failed insertion leaves the map its size, drops exactly one of the old entries and the new one, and every survivor keeps body and mode |
| Cuckoo.OldEntryLost | src/engine/cuckoo.rs:467-513 | a table and a key for which it is an old entry that gets lost |
| Trails.Forward | src/engine/cuckoo.rs:481-511 | n displacements along a trail of distinct slots shift its first n entries one place on each and leave the next one in hand |
| Trails.Backward | src/engine/cuckoo.rs:481-511 | a chain that runs into its own trail walks back to the start, putting every entry it passes back into the slot it came from |
| Trails.Lap | src/engine/cuckoo.rs:481-511 | and at the start takes up the new item again: a lap |
| CuckooFate.LapKeeps | src/engine/cuckoo.rs:467-513 | after a lap the table is good, holds the same map, and the new item is in hand at its other home |
| CuckooFate.ChainForeseen | src/engine/cuckoo.rs:467-513 | for every budget the chain ends as foreseen from the slots of the table before: success, or the entry left in hand, over any number of laps |
| CuckooFate.InsertSucceedsIff | src/engine/cuckoo.rs:429-457 | the exact condition on the table before under which an insertion succeeds |
| CuckooFate.InsertForeseen | src/engine/cuckoo.rs:429-513 | the outcome in a crowded table: the map with the new entry, less the entry foreseen if the insertion fails |
| CuckooFate.FailureKeepsMapIff | src/engine/cuckoo.rs:465-513 | a failed insertion leaves the map as it was if and only if the budget runs out exactly at the end of a lap, the number of laps being counted on the table before |
| CuckooFate.FirstLapKeepsMapIff | src/engine/cuckoo.rs:465-513 | for an open trail, or a budget of at most one lap: if and only if the budget is zero or exactly that lap |
| CuckooFate.TrailDecides | src/engine/cuckoo.rs:467-513 | along an open trail an insertion succeeds if and only if the trail is not longer than the budget; along a closed one never within the first lap |
| Cuckoo.Matching | src/engine/cuckoo.rs:448-453 | a key live in its second slot has no tombstone of its own in the first, so the first matching slot of a live key is the live one |
| Cuckoo.FastReadsAgreeIff | src/engine/cuckoo.rs:256-269 | the read that skips the tombstone test agrees with lookup if and only if the key is in the map or neither slot carries its tombstone |
| Cuckoo.DeletedKeyStillRead | src/engine/cuckoo.rs:256-269 | any key inserted into a new table and deleted again is still returned by the fast read |
| Cuckoo.LockFreeReads | src/engine/cuckoo.rs:256-269 | with any buckets locked, the lock-free lookup returns the map's entry if its bucket is not locked, else the entry of an unlocked tombstone of the key, the first slot first, else nothing |
| Cuckoo.GetFastReads | src/engine/cuckoo.rs:339-367 | so does the fast read, with inline bytes or the report of an extent; it finds nothing exactly if no unlocked bucket carries the key, live or dead |
| Cuckoo.GetFastOnLiveKey | src/engine/cuckoo.rs:339-367 | without locks it returns a key of the map, and misses another key exactly if no tombstone of it is left |
| Cuckoo.LockedKeyReadsDeleted | src/engine/cuckoo.rs:256-269 | a table, reached by puts and deletions, in which locking one bucket makes the lock-free lookup return a deleted value |
| Cuckoo.InsertRoundTrip | src/engine/cuckoo.rs:126-192 | after a successful insertion a lookup returns the mode and, byte by byte, the value as far as the mode stores it, with zeros after it |
| Cuckoo.InsertExtentRoundTrip | src/engine/cuckoo.rs:143-192 | after a successful insertion of an extent reference a lookup returns an extent whose first eight bytes are the offset and next eight the length |
| Cuckoo.ApplyEffect | src/engine/cuckoo.rs:126-204 | each operation keeps the table good, changes the map as its reply says, and leaves every bucket that it changes unlocked |
| Cuckoo.RunGood | src/engine/cuckoo.rs:89-204 | placement, uniqueness and absence of ghosts hold after every history from a new table, and nothing is locked |
| Cuckoo.RunRefinesMap | src/engine/cuckoo.rs:89-269 | over every history the table refines a finite map: updates, removals, lookups and, for keys in the map, fast reads |
| CuckooTable.CuckooTable.constructor | src/engine/cuckoo.rs:89-107 | a new table holds empty buckets, for every power of two; the operations work on it if there are at least two |
| CuckooTable.CuckooTable.Insert | src/engine/cuckoo.rs:126-138 | buckets and reply are those of the specified insertion, the reserved hash refused |
| CuckooTable.CuckooTable.InsertExtent | src/engine/cuckoo.rs:143-158 | the same for an extent reference |
| CuckooTable.CuckooTable.Delete | src/engine/cuckoo.rs:197-204 | buckets and reply are those of the specified removal |
| CuckooTable.CuckooTable.Lookup | src/engine/cuckoo.rs:164-192 | returns the specified entry, with the extent reference decoded in Extent mode and (0, 0) in Inline mode |
| CuckooTable.CuckooTable.FindKeyIdx | src/engine/cuckoo.rs:396-408 | finds the slot that the specification finds |
| CuckooTable.CuckooTable.WriteSlot | src/engine/cuckoo.rs:413-426 | overwrites one slot with a fresh bucket and no other |
| CuckooTable.CuckooTable.InsertRaw | src/engine/cuckoo.rs:429-457 | the in-place insertion computes the specified array and outcome |
| CuckooTable.CuckooTable.KickChain | src/engine/cuckoo.rs:467-513 | the in-place loop computes the recursive displacement chain |
| ClientWriter.KicksAgree | src/client/write.rs:408-493 | on any unlocked table the client's displacement chain and the engine's leave the same buckets and end alike, unless an extent is met, where the client gives up |
| ClientWriter.WritersAgree | src/client/write.rs:80-112 | for an absent key on such a table, client and engine insertion leave identical buckets and succeed or fail together |
| ClientWriter.WritersPartOnExtents | src/client/write.rs:440-445 | with an extent in the first slot whose other slot is free they do end differently |
| ClientWriter.InsertMeetsLock | src/client/write.rs:345-493 | on any table a locked bucket changes exactly if the insertion reports it as its place, and then it was vacant and the end of a displacement chain |
| ClientWriter.LockedVacantOverwritten | src/client/write.rs:408-493 | a table in which that happens |
| ClientFate.ClientChainForeseen | src/client/write.rs:408-493 | with any buckets locked or holding extents, the client's chain ends as foreseen from the table before: as the engine's would, up to the first such bucket on the trail, whose slot decides who is left in hand |
| ClientFate.ClientInsertForeseen | src/client/write.rs:80-112 | the outcome of every insertion of an absent key read off the table before: the slot reported and the map with the new entry, or the entry lost; the table stays good unless the key is put behind its own locked tombstone, and then it does not |
| ClientFate.ClientInsertEffect | src/client/write.rs:80-112 | so the client's insertion updates the map or loses exactly one entry, whatever is locked |
| ClientFate.ClientIsEngine | src/client/write.rs:80-112 | without locks, the client's insertion of an absent key leaves the very buckets of an engine insertion with some budget of at most 16, and the same outcome |
| ClientFate.WritersAgreeIff | src/client/write.rs:80-112 | the two insertions of an absent key end differently if and only if the engine's is foreseen to succeed and the client's to be stopped by a lock or an extent |
| ClientFate.OpenTrailWriters | src/client/write.rs:408-493 | along an open trail the engine succeeds if and only if the trail has at most 16 slots, the client if and only if moreover none of them is locked or holds an extent |
| ClientFate.LockedOverwrittenIff | src/client/write.rs:345-493 | a locked bucket is overwritten if and only if the insertion is foreseen to end there |
| ClientFate.ClientLosesInline | src/client/write.rs:440-445 | a run in which the client, stopped by an extent, loses an inline entry of another key |
| ClientWriter.WriteToBucket | src/client/write.rs:502-538 | overwrites one slot with the packed value |
| ClientWriter.InsertAt | src/client/write.rs:345-397 | writes exactly if the slot is unlocked and vacant |
| ClientWriter.RunKicks | src/client/write.rs:408-493 | the in-place loop computes the client's displacement chain |
| ClientWriter.InsertKey | src/client/write.rs:80-112 | the whole insertion over the bucket slice |
| ClientReader.GetWhileLocked | src/client/read.rs:82-122 | a get is an error exactly for the reserved hash, and otherwise finds a key if and only if it is in the map, its bucket is not locked and the entry resolves |
| ClientReader.GetReadsMap | src/client/read.rs:82-122 | without locks it resolves the key's map entry, skipping tombstones |
| ClientReader.GetSkipsLocked | src/client/read.rs:244-291 | on any array whatever a get returns comes from a bucket that carries the key and is neither locked nor a tombstone |
| ClientReader.GetFailsIff | src/client/read.rs:88-106 | the exact condition under which the guards refuse and with which error, for every bucket count and length of the slice, and its simple form when the slice is long enough |
| ClientReader.OneBucketOutOfBounds | src/client/read.rs:96-106 | with one bucket every get of a valid key is refused |
| Extent.AlignUp | src/engine/extent.rs:51-53 | the least multiple of 8 that is not smaller |
| Extent.AlignUpIsMask | src/engine/extent.rs:51-53 | the mask computes it |
| Extent.ExtentTotal | src/engine/extent.rs:58-60 | footprints are aligned, hold header and data and waste less than 8 bytes |
| Extent.HeaderFields | src/engine/layout.rs:280-323 | the fields stand at the documented offsets of the 32-byte header, the magic as its four bytes, the padding zero |
| Extent.DecodeHeader | src/engine/extent.rs:383-459 | a V2 header decodes to its own fields unless its mark looks like a V1 magic |
| Extent.MistakenForV1 | src/engine/extent.rs:383-459 | such a mark makes it decode as V1 with an impossible length |
| Extent.ReadExtentIff | src/engine/extent.rs:203-215 | an extent reads back its data if and only if the length fits 32 bits and the mark does not look like a V1 magic, or the mark does and the data are exactly as many zeros as the mistaken length says |
| Extent.ReadInBounds | src/engine/extent.rs:203-215 | for any buffer and offset, what is read lies inside the buffer, behind a header that shows the magic |
| Extent.ReadV1 | src/engine/extent.rs:383-405 | a V1 extent decodes to its fields and reads back its data |
| Extent.OddVersions | src/engine/extent.rs:407-455 | a V2 magic with another version is refused, with version 0 taken for V1 with the magic as part of the length |
| Region.FirstFit | src/engine/extent.rs:160-193 | the first block long enough, all earlier ones being too short |
| Region.AllocateFirstFit | src/engine/extent.rs:160-193 | the first block of the free list that is long enough is taken and its tail put at the end of the list; the bump pointer moves only if there is none, by the aligned footprint |
| Region.AllocateInv | src/engine/extent.rs:160-193 | allocation keeps tiling, disjointness, alignment and every stored byte, by split, exact fit or bump |
| Region.AllocateReadableIff | src/engine/extent.rs:160-193 | what is allocated reads back if and only if it is shorter than 2^32 bytes |
| Region.FreeInv | src/engine/extent.rs:231-254 | a free returns exactly the block, makes it unreadable and keeps the invariant; it is refused, without effect, for anything not allocated |
| Region.FreeV1 | src/engine/extent.rs:231-254 | a V1 extent gives back 24 bytes and its data |
| Region.HeaderRefused | src/engine/extent.rs:231-287 | freeing or marking behind a header that is cut off or shows no magic changes nothing and reports which of the two it is |
| Region.MarkInv | src/engine/extent.rs:269-287 | a mark changes the mark of that object and nothing else |
| Region.MarkFreed | src/engine/extent.rs:269-287 | marking a freed offset is refused without effect |
| Region.MarkReadableIff | src/engine/extent.rs:269-287 | the object stays readable if and only if the epoch's low half is not the V1 magic |
| Region.MarkInsideObject | src/engine/extent.rs:269-287 | a mark on an offset that was never handed out passes the checks if an object's data look like a header there, and changes what that object reads back |
| Region.MarkLosesV1 | src/engine/extent.rs:269-287 | a V1 extent that is marked can neither be read nor swept any more |
| Region.LiveReads | src/engine/extent.rs:203-215 | every allocated offset reads back its own data |
| Region.FreedReadsNone | src/engine/extent.rs:462-467 | every freed offset reads as nothing |
| Region.EveryByteInOneBlock | src/engine/extent.rs:160-254 | every byte below the bump pointer lies in exactly one block |
| Region.SweepExact | src/engine/extent.rs:293-317 | in any iteration order a sweep frees exactly the objects with 0 < mark < minimum and returns their number |
| Space.SpaceConserved | src/engine/extent.rs:330-338 | used bytes plus free-list bytes equal the bump pointer, in any iteration order |
| Space.MiscountedV1 | src/engine/extent.rs:330-338 | a V1 extent is counted with at least 8 bytes more than a free gives back |
| RegionRuns.RegionIntegrity | src/engine/extent.rs:160-467 | after every history: aligned disjoint blocks tile the used part exactly, allocated offsets read back their data, freed ones nothing, no byte is lost |
| RegionRuns.FreedUntilHandedOut | src/engine/extent.rs:231-317 | over every history a freed offset stays freed and reads as nothing until an allocation hands out that offset |
| RegionRuns.ReleasedIsFreed | src/engine/extent.rs:231-317 | whatever operation ends the use of an offset leaves it freed |
| RegionRuns.AllocateOutcome | src/engine/extent.rs:160-193 | an allocation hands out an offset nobody holds, unmarked; it fails only for lack of room and then changes nothing |
| RegionRuns.AllocateKeepsReads | src/engine/extent.rs:160-215 | the new object reads back and every older one reads as before |
| LargeObjects.LargeObjectRegion.constructor | src/engine/extent.rs:142-150 | a zeroed buffer, nothing allocated |
| LargeObjects.LargeObjectRegion.Allocate | src/engine/extent.rs:160-193 | buffer, lists and result are those of the specified allocation |
| LargeObjects.LargeObjectRegion.WriteExtent | src/engine/extent.rs:358-373 | writes header and data at the offset and touches no other byte |
| LargeObjects.LargeObjectRegion.Read | src/engine/extent.rs:203-215 | returns what the buffer holds at the offset, or nothing |
| LargeObjects.LargeObjectRegion.Free | src/engine/extent.rs:231-254 | state and result are those of the specified free |
| LargeObjects.LargeObjectRegion.MarkForGc | src/engine/extent.rs:269-287 | state and result are those of the specified mark |
| LargeObjects.LargeObjectRegion.Sweep | src/engine/extent.rs:293-317 | for some order that visits every allocated offset once, state and count are those of the specified sweep |
| LargeObjects.LargeObjectRegion.UsedBytes | src/engine/extent.rs:330-338 | the sum of the footprints over such an order |
| Gc.MinTs | src/engine/gc.rs:180-184 | a timestamp of the list that is below or equal to all |
| Gc.CycleExact | src/engine/gc.rs:95-112 | a cycle frees exactly the objects whose latest epoch lies below every timestamp, returns their number and keeps all others with data and epoch |
| Gc.StepInv | src/engine/gc.rs:56-112 | header marks and pending list together always say what stands against each offset, frees of pending extents included |
| Gc.CycleReclaimsIff | src/engine/gc.rs:175-185 | over every history, with frees at any time, a cycle reclaims an object if and only if the latest epoch that stands against its offset is set and below every timestamp, however often the pending list was cleared; all others keep their bytes |
| Gc.OwnEpochDecides | src/engine/gc.rs:175-185 | if nothing is freed while its deletion is pending, that is the epoch for which the object itself was last scheduled; an object never scheduled survives |
| Gc.FreedWhilePendingLosesObject | src/engine/gc.rs:56-112 | otherwise it need not be: a history in which an object that was never scheduled is reclaimed |
| Gc.PendingDecides | src/engine/gc.rs:95-112 | any pending list decides about whatever object is at an offset when the cycle runs |
| Gc.ReusedOffsetReclaimedIff | src/engine/gc.rs:95-112 | under any pending list, an object put at an offset is reclaimed if and only if the epoch pending for that offset is stale |
| Gc.EpochGc.constructor | src/engine/gc.rs:33-40 | nothing pending |
| Gc.EpochGc.ScheduleDeletion | src/engine/gc.rs:56-59 | appends the offset with the clock reading |
| Gc.EpochGc.MarkPending | src/engine/gc.rs:98-101 | marks all pending extents in order of scheduling |
| Gc.EpochGc.SweepRegion | src/engine/gc.rs:95-112 | marks, sweeps below the minimum, forgets the pending list |
| Gc.EpochGc.RunGcCycle | src/engine/gc.rs:175-185 | the specified cycle; nothing happens without clients |
| RemoteAllocator.StepInv | src/engine/extent.rs:617-684 | every step of every client, failed CAS and crash included, keeps the invariant |
| RemoteAllocator.BumpReservations | src/engine/extent.rs:617-684 | in every reachable state the reservations in CAS order are aligned, disjoint, clear of the bump word, and are exactly the space from the start to the bump word's value |
| RemoteAllocator.BumpMonotone | src/engine/extent.rs:617-684 | the bump word never moves back |
| RemoteAllocator.StoresApart | src/engine/extent.rs:617-684 | only a CAS changes the bump word; any other store changes a byte of the storing client's reservation, which nobody else owns and no other reservation contains |
| RemoteAllocator.PublicationSafety | src/engine/extent.rs:617-684 | once a checksum byte is not zero, the header bytes up to the checksum, the length and the payload are complete in every later state |
| RemoteAllocator.AcceptedIsWritten | src/engine/concurrency.rs:234-240 | a payload that is accepted is the writer's data, in every interleaving, with checksum, length and payload fetched in states of their own and the checksum possibly torn |
| RemoteAllocator.FinishedAcceptedIff | src/engine/concurrency.rs:234-240 | a finished extent is accepted if and only if its hash is not zero |
| RemoteAllocator.PayloadAcceptedIff | src/engine/concurrency.rs:234-240 | a published checksum accepts a payload if and only if the payload has the hash of the writer's data and that hash is not zero |
| RemoteAllocator.ZeroStartLosesBump | src/engine/bootstrap.rs:72-75 | started at zero, the first header overwrites the bump word |
| RemoteAllocator.BumpSafeIff | docs/extent-protocol.md:163-166 | the bump word means the end of the last reservation over all runs if and only if it starts past itself |
| RemoteLimits.WriterFinishes | src/engine/extent.rs:617-684 | from every reachable point of its writes a client that is left alone can finish its extent |
| RemoteLimits.ClientStores | src/engine/extent.rs:617-684 | a client that is left alone reserves at the bump word and can publish its data there |
| RemoteLimits.EarlyLengthMisleads | src/engine/concurrency.rs:234-240 | a reader that fetches the length before the checksum can accept a payload that was never written |
| RemoteLimits.DirtySpaceLooksPublished | src/engine/extent.rs:617-684 | where space was not zeroed, a reservation of which nothing is written yet shows a checksum that is not zero |
| RemoteLimits.OverflowMovesBumpBack | src/engine/extent.rs:617-684 | a reservation that reaches 2^64 would store a bump word below the one it read |
| Store.StepInv | src/engine/cuckoo.rs:126-204 | every put, delete and permitted reclamation keeps table, region and map of puts in agreement |
| Store.PutEffect | src/engine/cuckoo.rs:465-513 | a put is an update of the map of puts, or in a full table drops exactly one key |
| Store.StepEffect | src/engine/cuckoo.rs:126-204 | only a put adds or changes a value, only a delete or a put into a full table removes one, and a put without room or with the reserved hash does nothing |
| Store.EndToEnd | src/client/read.rs:82-122 | after every permitted history a get returns the last value put, exactly for an extent and cut or padded to 32 bytes inline, and nothing for any other key |
| Store.FreeKeepsGetIff | src/client/read.rs:277-291 | after a free a key still reads as its value if and only if its bucket does not refer to the freed extent |
| StoreGc.ActInv | src/engine/gc.rs:52-59 | puts, deletions that schedule their extent, and cycles keep: nothing stands against an extent that a bucket refers to, and no two keys share one |
| StoreGc.EndToEndGc | src/client/read.rs:82-122 | after every history of puts, deletions and cycles with any timestamps a get returns the last value put and nothing else |
| StoreGc.ReferredSurvives | src/engine/gc.rs:95-112 | over every such history no cycle reclaims an extent that a bucket refers to |
| StoreGc.DroppedReclaimedIff | src/engine/gc.rs:175-185 | the cycle after a deletion reclaims the extent of the deleted key if and only if the time of the deletion is set and below every timestamp |
| Replication.Put | src/control/replication.rs:90-97 | a write covers exactly the positions from its offset on, as far as the store reaches |
| Replication.ReplayIsLatest | src/control/replication.rs:42-54 | replaying a queue leaves each byte as the latest write covering it |
| Replication.StepInv | src/control/replication.rs:33-97 | every write and every flush, panicking ones included, keep: while no lock is poisoned, the queue replayed over the backup is the primary on their common range |
| Replication.FlushAgrees | src/control/replication.rs:33-97 | after every interleaving a flush that does not panic makes the stores agree and empties the queue, and it does not panic if the primary is not longer than the backup |
| Replication.FailedFlush | src/control/replication.rs:42-54 | a queued write that starts beyond the end of the backup makes the flush panic with the writes before it applied, it and they gone from the queue, and the locks poisoned; no later run changes backup or queue |
| Replication.NoFlushPanicsIff | src/control/replication.rs:42-54 | no flush panics in any run if and only if the primary is not longer than the backup |
| Replication.WriteAtTheEnd | src/control/replication.rs:42-97 | the boundary: a write at the very end is accepted and flushed, one byte further both panic |
| Replication.BackupIsHistory | src/control/replication.rs:33-54 | whenever the flushes happened, backup and queue amount to all accepted writes of the run in order; after a panic the backup holds exactly those before the first that does not fit |
| Replication.PrimaryIsHistory | src/control/replication.rs:90-97 | the primary is what all accepted writes make of it, also those after a panic of the backup |
| Replication.FlushedByte | src/control/replication.rs:42-54 | in a run without a panic each byte of the backup, once the queue is replayed, is that of the latest accepted write of the run covering it |
| Replication.CopyClipped | src/control/replication.rs:48-50 | copies the part that fits and touches no other byte; reports a panic exactly if the write starts beyond the end |
| Replication.BackupStore.constructor | src/control/replication.rs:25-30 | zeroed objects, empty queue, no lock poisoned |
| Replication.BackupStore.EnqueueWrite | src/control/replication.rs:33-38 | appends to the queue, or panics without effect if the lock is poisoned |
| Replication.BackupStore.Flush | src/control/replication.rs:42-54 | the specified flush on every queue: replays it in order, empties it and returns its length, or stops at the first write that does not fit and leaves the rest |
| Replication.ReplicationManager.constructor | src/control/replication.rs:82-87 | a fresh backup |
| Replication.ReplicationManager.WriteWithReplication | src/control/replication.rs:90-97 | writes the local store and queues the same write; each may panic, the second after the first took effect |
| Lru.MergeFinal | src/engine/lru.rs:82-89 | the merged time of a key is that of its last queued record, else its earlier entry |
| Lru.MergeNewestIff | src/engine/lru.rs:82-89 | merging into a map that holds the most recent times of a history gives those of the longer history if and only if the last queued record of each key is its latest, compared with the queue and with the history |
| Lru.OutOfOrderMergeGoesBack | src/engine/lru.rs:49-55 | records queued out of order make it fail, within one queue and against the map |
| Lru.SortByTime | src/engine/lru.rs:98-100 | every entry once, oldest first |
| Lru.Oldest | src/engine/lru.rs:102-104 | min(n, tracked) distinct keys, none accessed later than a key that stays |
| Lru.LruTracker.constructor | src/engine/lru.rs:36-44 | nothing tracked |
| Lru.LruTracker.RecordAccess | src/engine/lru.rs:49-55 | queues the record and counts it modulo 2^64 |
| Lru.LruTracker.DrainAccesses | src/engine/lru.rs:76-89 | the queue is emptied into the map in order |
| Lru.LruTracker.SelectEvictionCandidates | src/engine/lru.rs:74-116 | a right selection from the merged map; the rest stays and is what the counter counts |
| Lru.OldestAreSelected | src/engine/lru.rs:74-116 | if accesses are queued in time order, then after every history the selected keys are distinct, min(n, tracked) many, and were last accessed no later than any key that stays |

## Left out

- The RDMA device layer, memory registration, runtime and transports (src/rdma, src/mem, src/runtime, src/transport, crates/ibverbs-sys): only abstract reads, writes and compare-and-swaps appear.
- gRPC control plane, sessions and the Python connector: plumbing without an algorithmic core.
- `insert_remote` and `get_remote`: the bucket claim may CAS a word to the same value and the remote extent read uses another base, so there is no exclusion or round trip to prove.
- `insert_lock_free`, and the client's insertion of a key that is already present: neither looks for an existing copy, so overwriting is not claimed.
- CuckooTable.CuckooTable.Insert: a table of one bucket, which the source accepts, is excluded here and in the other operations, because its second hash is out of range.
- ClientFate.ClientInsertEffect: that no key is left behind its own tombstone is not promised, because the client's insertion does that where `ClientFate.LeavesGhost` says.
- ClientWriter.InsertKey: Inline mode only, the Extent mode adding an allocation before the same slot write; and the bucket count is the length of the slice.
- `repair_after_crash`, `bucket_mut` and `HashBucket::is_expired`: outside the lock protocol; the last is an unmasked test that the lock does not use.
- V1 extents: decoding, reading, freeing and marking one is modelled; no operation writes one, and the histories have none.
- `evict_lru` and `maybe_sweep`: they use key hashes as offsets, and wall-clock intervals.
- Lease.AtomicBucket.ForceTakeover: is one atomic step, because the source takes the bucket by exclusive borrow; racing a takeover against a holder through another alias is not modelled.
- Memory orderings: loads and stores of the lock word are sequentially consistent in the model.
- RemoteAllocator.StepInv: the local cache of freed offsets is not modelled, as `allocate_remote` does not use it.
- Slab allocator, retry and back-off, watermarks, tenant hashing, batch builder, statistics, fragmentation ratio: easy members, floating point or randomness.
- XXH64: an arbitrary function of the payload.
