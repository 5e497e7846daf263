# mergerfs, modelled and proved in Dafny

mergerfs presents several branches (directories on separate file systems) as one pool, on top of a
vendored libfuse. This project models the parts of the two where correctness is not evident from
one function, and proves what those parts promise. `dafny verify dfyconfig.toml` checks all of it.

System calls, clocks, random numbers and other foreign code are arbitrary outcomes: parameters, or
choices the proofs must survive. Lines below refer to the repository's own files.

- **Hash table** (`Bits`, `Probing`, `HashTable`, `Rehash`, `KHash`): khash's triangular probing,
  tombstones and in-place rehash, as arrays changed in place. Every run refines a mathematical set.
- **Name hash and listing** (`FastHash`, `FirstOccurrence`, `Readdir`): fasthash64 is injective block
  by block; the merged directory listing is the union of the branches whenever hashes do not collide.
- **Requests and interrupts** (`Interrupts`): worker threads, the two lists and the reference counts
  of libfuse as a state machine whose steps are the critical sections. Safety over every interleaving.
- **Data replies** (`BufCopy`, `BufVec`, `SendData`): buffer vectors copied under every pattern of
  short transfers and errors, and the splice route that must send what the memory route would.
- **Operations over branches** (`Paths`, `ClonePath`, `Rename`, `MoveFile`): sequences of fallible
  steps over many branches, with what holds after every outcome.
- **Credentials and caches** (`Credentials`, `GidCache`, `PolicyCache`): a lock protocol over every
  run, a sorted array with eviction and a timed cache, each against what the calls alone prescribe.
- **Selection and accounting** (`Policies`, `StatFs`): one-pass loops against filter-then-select, and
  the rounding error of pool statistics.

Where code and documentation differ, the model follows the code: rename returns the last error, not
the first; EROFS outranks ENOSPC; a user in more than 32 groups is given a single gid. Properties that
turn out false of the code come with an example and the exact condition:

- success of a path-preserving rename means that the content moved: `Rename.PhantomExample`, `Rename.PromiseExact`;
- the effective gid is the requested one: `Credentials.StaleGid`, `Credentials.EffectiveGid`;
- a moved file survives on its new branch: `MoveFile.MovedOntoItself`, `MoveFile.Movefile`;
- the descriptor's own file is moved: `MoveFile.OtherFileMoved`, `MoveFile.Movefile`;
- the groups given to a user are the user's: `GidCache.StrangersGroups`, `GidCache.GroupsOfSource`, `GidCache.OwnGroups`;
- a failed policy lookup is never served as an answer: `PolicyCache.FailureServedEarly`, `PolicyCache.BlankServedIff`;
- lus takes the least used branch: `Policies.LusFullBranch`, `Policies.LusExact`.

## Model

| member | source | states |
|---|---|---|
| Bits.RoundUp32Correct | src/khash.h:176 | the smear rounds up to the next power of two for 1 to 2^31 and gives 0 for every other 32-bit value |
| Bits.MaskIsMod | src/khash.h:234-238 | masking with a power of two less one is the remainder |
| Probing.ProbeInjective | src/khash.h:235-240 | the first n triangular probes of a table of n = 2^k buckets are pairwise different |
| Probing.ProbeCovers | src/khash.h:235-240 | every bucket is probed within n steps |
| Probing.FirstReturn | src/khash.h:238-239 | the walk first returns to its start at step 2n-1 or later, so the `i == last` exit comes after a full tour |
| Probing.ReturnsAtLast | src/khash.h:238-239 | step 2n-1 does return to the start, so the probe loop ends |
| HashTable.AbsentAtEmpty | src/khash.h:237-241 | a key not met before the first empty bucket of its probe path is not in the table |
| HashTable.AbsentAtReturn | src/khash.h:239 | a key not met when the walk is back at its start is not in the table |
| HashTable.Lookup | src/khash.h:230-243 | finds the live bucket of the key, or reports the end exactly when the key is not stored; terminates |
| HashTable.FindSlot | src/khash.h:319-335 | the bucket chosen for a key is its own if present, else a dead one that its probe path reaches, and only when the key is nowhere in the table; an empty one only if the path to it meets no tombstone |
| Rehash.KickOnce | src/khash.h:277-292 | one kick places the key in hand and lifts an unmoved one; keys in old part, new part and hand stay exactly the original keys, and unmoved ones get fewer |
| Rehash.KickOut | src/khash.h:277-292 | the kick-out chain ends with no key in hand and none lost or doubled |
| Rehash.MoveBucket | src/khash.h:269-294 | moving one old bucket empties it for good and keeps the key accounting |
| Rehash.RehashAll | src/khash.h:268-294 | after the whole rehash, over one shared key array, the new table holds exactly the old live keys, each reachable by its probe path, with no tombstones |
| KHash.TargetIsPow2 | src/khash.h:249-250 | every requested size becomes a power of two between 4 and 2^31 |
| KHash.TargetOfNeighbour | src/khash.h:310-317 | asking for n-1 keeps a table of n buckets and asking for n+1 doubles it |
| KHash.RoomEnough | src/khash.h:310-317 | the size put asks for has room for the keys, whether it clears tombstones or doubles |
| KHash.NoTombstones | src/khash.h:302 | as many occupied buckets as keys means that no tombstone is left |
| KHash.AlwaysAnEmptyBucket | src/khash.h:192 | the 0.77 load bound leaves a bucket that was never used |
| KHash.Table.constructor | src/khash.h:211-214 | a new table is the empty set |
| KHash.Table.Clear | src/khash.h:223-229 | becomes the empty set, keeping its buckets |
| KHash.Table.Find | src/khash.h:230-243 | an index below the bucket count exactly for stored keys |
| KHash.Table.Delete | src/khash.h:349-355 | removes exactly the key of a live bucket and is a no-op on any other index |
| KHash.Table.Rehash | src/khash.h:252-303 | new flags and keys of the target size, grown, shrunk or equal, with the same set and no tombstones |
| KHash.Table.Resize | src/khash.h:244-306 | any size, growing, shrinking or equal, keeps the set; when accepted, the table has the target size and `n_occupied == size` |
| KHash.Table.MakeRoom | src/khash.h:310-318 | before an insertion there is room below the load bound and the set is unchanged; a table with room stays as it is, another one loses its tombstones at the same size if more than half of it is free of keys, and doubles else |
| KHash.Table.Insert | src/khash.h:319-347 | adds the key and counts it once; returns 0 exactly if it was present, with nothing touched, 1 exactly if the bucket used was empty, counting it as occupied, and 2 only for a tombstone |
| KHash.Table.Put | src/khash.h:307-348 | the whole of put: set insertion, return code, size, and a live bucket holding the key; the codes 1 and 2 tell the former state of that bucket, and after making room a tombstone is never used |
| KHash.RunOp | src/khash.h:223-355 | each operation replies as the mathematical set does, with the cardinality as size |
| KHash.Run | src/khash.h:211-355 | every sequence of put, get, del, clear and resize, of any length, replies as the same sequence on a set, as long as no put meets a set of 2^30 keys or more |
| FastHash.XorShiftInjective | src/fasthash.cpp:31 | x ^ (x >> s) determines x |
| FastHash.MulInjective | src/fasthash.cpp:32 | multiplication by an odd constant modulo 2^64 is injective |
| FastHash.MixInjective | src/fasthash.cpp:30-33 | the compression function is injective on 64-bit words |
| FastHash.OneWordApart | src/fasthash.cpp:47-51 | word sequences that differ in one word end in different states |
| FastHash.OneBlockNeverCollides | src/fasthash.cpp:35-69 | equal-length strings that differ inside one 8-byte block, or only in the tail, hash differently |
| FastHash.ShortNamesNeverCollide | src/fasthash.cpp:35-69 | equal-length strings of at most 8 bytes collide only if equal |
| FastHash.TailWord | src/fasthash.cpp:53-63 | the fall-through switch loads the tail bytes as one little-endian word |
| FastHash.FastHash64 | src/fasthash.cpp:35-69 | the block loop and tail compute the fold over the words of the input |
| FirstOccurrence.FirstSeenKeys | src/fuse_readdir.cpp:75-89 | keeping first occurrences leaves each key once and loses none |
| FirstOccurrence.FirstSeenOrder | src/fuse_readdir.cpp:75-89 | the kept items are in input order, each the first with its key |
| Readdir.HashSet.Put | src/hashset.hpp:39-56 | adds the name's hash, returning 0 exactly if it was there |
| Readdir.ListEntry | src/fuse_readdir.cpp:75-89 | one entry is handed over exactly if its hash is new, and a failing filler stops the listing |
| Readdir.ListBranch | src/fuse_readdir.cpp:74-91 | one branch extends the first-seen listing by its entries |
| Readdir.ListOne | src/fuse_readdir.cpp:57-92 | a branch that cannot be opened is passed over, the device number falls back to the index |
| Readdir.ListDirectory | src/fuse_readdir.cpp:46-95 | the listing is the first occurrence of each hash over all branches in order; every item handed over shows the first entry with its hash: name and kind of the entry, device of its branch or the branch's index, inode number from both; on ENOMEM what was handed over is a proper prefix of it, cut where the filler failed |
| Readdir.ItemAt | src/fuse_readdir.cpp:57-84 | every entry of every branch that can be read is offered, in order, with its name, kind, device and inode number |
| Readdir.ListedEntry | src/fuse_readdir.cpp:70-84 | an item of the listing shows an entry no earlier entry of any branch shares the hash of |
| Readdir.EntryListed | src/fuse_readdir.cpp:70-84 | conversely every hash is listed, and an entry with no earlier one of its hash is listed as itself |
| Readdir.ListingIsUnion | src/fuse_readdir.cpp:46-95 | without hash collisions the listing is the union of the names, each once |
| Readdir.ShortNamesListed | src/fuse_readdir.cpp:46-95 | equal-length names of at most 8 bytes are always listed completely |
| Readdir.InodesApart | src/fs_inode.hpp:30-39 | recomputed inode numbers differ exactly if device or inode number differ, both below 2^32 |
| Interrupts.FindActive | libfuse/lib/fuse_lowlevel.c:1576-1577 | the first active request with the number, none exactly if there is none |
| Interrupts.FindPending | libfuse/lib/fuse_lowlevel.c:1603-1607 | the first pending interrupt for the number, none exactly if there is none |
| Interrupts.SearchActive | libfuse/lib/fuse_lowlevel.c:1576-1602 | the list walk finds that record |
| Interrupts.SearchPending | libfuse/lib/fuse_lowlevel.c:1635-1643 | the list walk finds that record |
| Interrupts.KeepAlloc | libfuse/lib/fuse_lowlevel.c:142-157 | allocating a record keeps the invariant |
| Interrupts.KeepEnqueue | libfuse/lib/fuse_lowlevel.c:2410-2418 | enqueueing a request with its check for a pending interrupt keeps the invariant |
| Interrupts.KeepInterrupt | libfuse/lib/fuse_lowlevel.c:1611-1629 | the first critical section of an interrupt keeps the invariant, whichever of the three outcomes it has |
| Interrupts.KeepMark | libfuse/lib/fuse_lowlevel.c:1585-1593 | marking the found request and calling its function keeps the invariant |
| Interrupts.KeepDrop | libfuse/lib/fuse_lowlevel.c:1595-1600 | giving up the handler's reference, and destroying the record if it was the last, keeps the invariant |
| Interrupts.KeepReply | libfuse/lib/fuse_lowlevel.c:127-140 | a reply releasing the request's own reference keeps the invariant |
| Interrupts.KeepFreeOwned | libfuse/lib/fuse_lowlevel.c:2388-2418 | freeing a record a thread owns, or bouncing the oldest pending interrupt, keeps the invariant |
| Interrupts.KeepDestroy | libfuse/lib/fuse_lowlevel.c:136-139 | destroying the unreferenced record keeps the invariant |
| Interrupts.Preserved | libfuse/lib/fuse_lowlevel.c:1572-1651 | every enabled step of every thread keeps the invariant |
| Interrupts.RefCount | libfuse/lib/fuse_lowlevel.c:127-140 | in every run `ctr` is one for an unreplied request plus the number of handlers holding it |
| Interrupts.ReleasedSafely | libfuse/lib/fuse_lowlevel.c:121-140 | a record is released at most once, and then it is on no list and no other thread uses it |
| Interrupts.OnlyAllocatedUsed | libfuse/lib/fuse_lowlevel.c:1572-1609 | no thread ever uses a released record |
| Interrupts.NothingLeaks | libfuse/lib/fuse_lowlevel.c:127-140 | when all threads are idle the unreleased records are exactly those on the lists |
| Interrupts.CallbackDelivered | libfuse/lib/fuse_lowlevel.c:2227-2238 | a function registered on an unreplied interrupted request has been called, whichever came first |
| Interrupts.NoStaleCallback | libfuse/lib/fuse_lowlevel.c:1585-1593 | a handler about to call a function calls the one registered, on a record still there |
| Interrupts.ArrivalShortens | libfuse/lib/fuse_lowlevel.c:1631-1651 | each arrival of a request shortens a nonempty pending list by one |
| Interrupts.InterruptsRemembered | libfuse/lib/fuse_lowlevel.c:1611-1629 | every interrupt that arrives stays accounted for under its target |
| Interrupts.InterruptsNeverLost | libfuse/lib/fuse_lowlevel.c:1572-1651 | once threads are idle each interrupt has marked its request, is pending, was bounced with EAGAIN, or was absorbed by one for the same target of which this holds |
| Interrupts.OnlyInterrupted | libfuse/lib/fuse_lowlevel.c:1572-1651 | in every run a request is interrupted only if an interrupt with its number arrived and marked it, and a function is called only on an interrupted request |
| Interrupts.AnsweredSilent | libfuse/lib/fuse_lowlevel.c:127-140 | in every run a handler that reaches a request after its reply finds no function to call |
| Interrupts.RecordsKeep | libfuse/lib/fuse_lowlevel.c:1572-1651 | no step changes a request's number or takes its interruption back |
| Interrupts.RecordsAppear | libfuse/lib/fuse_lowlevel.c:142-157 | records appear only by allocation, with the number read, not interrupted and not called |
| Interrupts.ArrivalOutcome | libfuse/lib/fuse_lowlevel.c:1631-1651 | an arriving request becomes active, interrupted exactly if an interrupt for it is pending, which is then used up; else the oldest pending interrupt, if any, goes back |
| Interrupts.InterruptOutcome | libfuse/lib/fuse_lowlevel.c:1572-1629 | an interrupt takes hold of the active request with its target, else is absorbed by a pending one for it, else becomes pending |
| Interrupts.ReplyOutcome | libfuse/lib/fuse_lowlevel.c:127-140 | a reply takes that request and no other off the active list, and its record is destroyed exactly if no handler holds it |
| Interrupts.RegisterOutcome | libfuse/lib/fuse_lowlevel.c:2227-2238 | an undisturbed registration leaves the function asked for, called exactly if the request is interrupted and there is one |
| Interrupts.HandlerOutcome | libfuse/lib/fuse_lowlevel.c:1576-1600 | an undisturbed handler marks its request, calls the registered function, gives its reference back and releases the interrupt |
| BufCopy.BufWrite | libfuse/lib/buffer.c:39-71 | under any short writes and errors the destination holds the counted source bytes in place and nothing else changed; full writes, or any progress on a retrying descriptor, write everything; a first error is the result |
| BufCopy.BufRead | libfuse/lib/buffer.c:73-105 | the same for reads, as far as the source has bytes, with the stream position at the bytes counted |
| BufCopy.MemMove | libfuse/lib/buffer.c:231-242 | overlapping or not, the destination gets the bytes the source had |
| BufCopy.FdToFd | libfuse/lib/buffer.c:107-155 | copying through the 4096-byte buffer moves the counted bytes in place and names the bytes of a stream read and not written; none is lost and all the source has is copied if reads and writes are full, or progress and both retry |
| BufCopy.BufSplice | libfuse/lib/buffer.c:157-211 | splice and its fall-back on EINVAL move the counted bytes in place; all the source has is moved if splices are full, or progress and one side retries, or splicing is refused with EINVAL and the copy goes through; another error, or EINVAL when splicing is forced, is the result |
| BufCopy.CopyOne | libfuse/lib/buffer.c:224-252 | whichever route the flags choose, one buffer-to-buffer copy moves the counted bytes in place and changes nothing outside the destination buffer, and moves everything there is if nothing is in its way; memory may overlap |
| BufVecs.BufVec.Advance | libfuse/lib/buffer.c:262-276 | both assertions hold and the flat position moves by the length |
| BufVecs.CopyAt | libfuse/lib/buffer.c:301 | a transfer into the current buffer leaves the other buffers as they were, even parts of the same array or of the same file |
| BufVecs.CopyBuffers | libfuse/lib/buffer.c:287-301 | one round copies at most the shorter remainder between the current buffers |
| BufVecs.AdvanceBoth | libfuse/lib/buffer.c:309-314 | the source cursor moves by the bytes copied, the destination cursor too unless the source is exhausted; the loop goes on only when a buffer is used up |
| BufVecs.FuseBufCopy | libfuse/lib/buffer.c:278-318 | over all short transfers and errors the flat destination holds the next source bytes and nothing else changed, with both cursors accounted for; between memory buffers, or if descriptors have the bytes and nothing is in the way, the result is the smaller remainder |
| BufVecs.CopyInto | libfuse/lib/buffer.c:278-318 | the same for a single destination buffer |
| SendData.ReplyLength | libfuse/include/fuse_kernel.h:711-715 | a reply's fields decode to the length of the whole message, the error and the number of the request, and the payload follows |
| SendData.BufSize | libfuse/lib/buffer.c:19-32 | the summed size is the length of the flat contents |
| SendData.FdSize | libfuse/lib/fuse_lowlevel.c:573-581 | what is left of the last descriptor, not the sum |
| SendData.SendMsg | libfuse/lib/fuse_lowlevel.c:160-183 | a successful send adds one message with length, error and request number of the header and the payload, a failed one nothing; a device that accepts means success |
| SendData.Fallback | libfuse/lib/fuse_lowlevel.c:433-473 | the memory route sends the header and an unbroken run of the source with matching length, or nothing; everything, and successfully, if the source can be had, there is memory and the device accepts |
| SendData.ReadBack | libfuse/lib/fuse_lowlevel.c:536-550 | takes exactly the next bytes out of the pipe |
| SendData.ToPipe | libfuse/lib/fuse_lowlevel.c:628-632 | the copy appends an unbroken run of the source to the pipe and leaves the source positioned behind it |
| SendData.SendReadBack | libfuse/lib/fuse_lowlevel.c:690-707 | pipe bytes taken back and memory bytes behind them go out as one message, or the pipe is discarded |
| SendData.Resume | libfuse/lib/fuse_lowlevel.c:676-713 | bytes read behind those in the pipe go out with them as one message; without any the pipe goes out |
| SendData.SpliceOut | libfuse/lib/fuse_lowlevel.c:726-743 | the pipe goes out with the header as it stands when it is read, not when it was queued; a short splice is EIO, with a proper prefix of the message delivered |
| SendData.Dispatch | libfuse/lib/fuse_lowlevel.c:633-714 | every outcome of the copy sends the right message, asks for the memory route with the source untouched, exactly on EAGAIN and EINVAL, or fails with nothing sent or, for EIO, only a proper prefix of the message; EAGAIN is remembered |
| SendData.SpliceRoute | libfuse/lib/fuse_lowlevel.c:617-743 | the route through the pipe leaves it empty or discarded and sends the right message if it succeeds, which it does, with everything, if transfers are full, there is memory and the device accepts |
| SendData.GetPipe | libfuse/lib/fuse_lowlevel.c:489-523 | a thread's pipe is empty when it is handed out |
| SendData.ChoosePipe | libfuse/lib/fuse_lowlevel.c:567-615 | a pipe is used only if splicing is allowed and not broken, and the last descriptor has two pages left |
| SendData.FuseSendDataIov | libfuse/lib/fuse_lowlevel.c:552-747 | every return leaves the thread's pipe empty or discarded; success delivers one reply with the header's length, error and request number followed by an unbroken run of the source, all of what is left if the source is in memory or can be had in full; then, with memory and a device that accepts, it does succeed; failure delivers nothing or, only with EIO, a proper prefix of the message |
| Paths.Dirname | src/fs_path.cpp:40-63 | the backward scans compute the directory part |
| Paths.DirShorter | src/fs_path.cpp:40-63 | it is a proper prefix of every nonempty path |
| Paths.DirDropsLast | src/fs_path.cpp:40-63 | it drops exactly the last component, whatever the slashes |
| Pool.ClonePath | src/fs_clonepath.cpp:58-117 | on every outcome the source side and what was on the target stay as they were and only ancestors were added, each under one that exists; it succeeds exactly if each ancestor is a directory on the source and is on the target or can be made there, and no metadata error counts; then every ancestor exists on the target |
| Pool.CloneLast | src/fs_clonepath.cpp:81-116 | the step for the last component, with its existing-directory case, keeps that and succeeds exactly in that case |
| Pool.CopyMetadata | src/fs_clonepath.cpp:98-114 | fails exactly if errors are asked for and one counts, with the first that does; unsupported attributes and extended attributes do not count, owner and times always do |
| Pool.ClonePathAsRoot | src/fs_clonepath.cpp:128-144 | the same as root, with nothing to do between a branch and itself; success exactly then or if every ancestor can be cloned |
| Rename.CodeMeaning | src/rv.hpp:24-36 | the folded error is 0 exactly if some branch succeeded, stays at its start exactly if none was tried, and else is the error of the last branch tried |
| Rename.Member | src/fuse_rename.cpp:36-48 | membership of the branch in the selected ones |
| Rename.RemoveAll | src/fuse_rename.cpp:50-56 | removes nothing but the collected paths, and all of them if removals work |
| Rename.CreateCore | src/fuse_rename.cpp:58-96 | one branch is renamed exactly if the directories of the new name can be had on it, the kernel allows the rename and the old name is there and not above the new one; a renamed branch other than the one cloned from has all those directories; a failing one has the kernel's error and is collected for removal only if the rename itself failed |
| Rename.RenameCreatePath | src/fuse_rename.cpp:98-141 | over all per-branch outcomes, each following from the pool before and the kernel's answers: the code is the fold of the outcomes, an error means nothing was renamed or removed, success leaves each branch as its outcome says, every renamed branch but the one cloned from with the directories of the new name, and some branch with the old content under the new name |
| Rename.ClonePathIfWouldCreate | src/fuse_rename.cpp:163-187 | clones only ancestors of the new path, all of them if that goes through; returns 0 exactly if the create policy picks the branch and the search finds the directory, and a negative errno other than -1 exactly if it picks the branch and the search fails otherwise than with EPERM; the error is the policies' or EXDEV |
| Rename.PreserveCore | src/fuse_rename.cpp:189-233 | when one branch is renamed and when its error is lost, both exactly, and the error of a failing one, from the pool before and the answers of kernel and policies |
| Rename.RenamePreservePath | src/fuse_rename.cpp:235-270 | the code is the fold of outcomes that follow from the inputs; an error means nothing was renamed or removed; that success leaves the old content under the new name holds exactly in the stated case of the inputs |
| Rename.SuccessMeans | src/fuse_rename.cpp:98-141 | on success some selected branch has the old content under the new name, the new name is gone from unselected branches and the old one from selected branches whose clone did not fail |
| Rename.SuccessExact | src/fuse_rename.cpp:235-270 | success is reported exactly if some selected branch is renamed or loses its error |
| Rename.PromiseExact | src/fuse_rename.cpp:143-270 | success implies the old content under the new name exactly if a selected branch is renamed, or none loses its error, or one that fails had the content under both names |
| Rename.PhantomExample | src/fuse_rename.cpp:143-187 | a call on a concrete pool, with epmfs to create and eplus to search, that reports success, renames nothing and removes the other branch's file |
| MoveFile.Mfs | src/fs.cpp:123-155 | the branch with most space among those with enough, the first among equals; none exactly if none has enough |
| MoveFile.FindOnFs | src/fs.cpp:58-91 | the first branch holding the path on the device of the descriptor |
| MoveFile.OpenBoth | src/fs_movefile.cpp:84-93 | opening source and temporary file changes nothing else; a descriptor is left open if the temporary cannot be made |
| MoveFile.CopyAndSwitch | src/fs_movefile.cpp:95-124 | copy and rename install the full copy, or the temporary goes away and the original stays |
| MoveFile.Finish | src/fs_movefile.cpp:107-114 | the source name goes and the new descriptor replaces the old; nothing else changes |
| MoveFile.CompleteMove | src/fs_movefile.cpp:95-124 | from the copy on: succeeds exactly if copy, flags and rename do, with the whole disk then as stated, and else leaves disk and descriptors as they were |
| MoveFile.MoveData | src/fs_movefile.cpp:84-125 | succeeds exactly if every call does and the temporary name is free; then the whole disk is as stated, else disk and descriptor are as they were, with one descriptor leaked exactly if only the temporary failed |
| MoveFile.SwitchedMeans | src/fs_movefile.cpp:103-114 | after success the content is at the target exactly if that is another branch |
| MoveFile.Movefile | src/fs_movefile.cpp:43-125 | source and target are the first branch on the device and the first with most room for size plus extra; success exactly if both exist and every call succeeds; at every intermediate step some branch has a complete copy, and after success the target has, exactly unless the two are one branch; the descriptor keeps its content exactly if the file found has it; failure leaves disk and descriptor as they were |
| MoveFile.MovedOntoItself | src/fs_movefile.cpp:69-114 | a successful call on one branch after which no name holds the file |
| MoveFile.OtherFileMoved | src/fs.cpp:58-91 | two branches on one device: another file than the descriptor's is moved, and the descriptor ends on it |
| Credentials.Preserved | src/ugid_rwlock.hpp:30-63 | every step of every thread keeps the lock and credential invariant |
| Credentials.OwnCredentials | src/ugid_rwlock.hpp:65-77 | in every run a thread holding its credentials sees its own pair recorded and its own uid in effect |
| Credentials.SharedOnlyIfEqual | src/ugid_rwlock.hpp:30-63 | two threads hold credentials at once only for equal pairs |
| Credentials.GuardRestores | src/ugid_rwlock.hpp:89-93 | after a root guard, whatever others do meanwhile, the thread continues with the enclosing pair recorded and in effect |
| Credentials.GuardIsRoot | src/ugid_rwlock.hpp:79-87 | inside a root guard, whatever others do meanwhile, the recorded pair is (0, 0) and uid 0 in effect |
| Credentials.RequestHonoured | src/ugid_rwlock.hpp:65-71 | after a request, whatever others do meanwhile, the thread first holds its credentials with the requested pair recorded and its uid in effect |
| Credentials.SharingRuns | src/ugid_rwlock.hpp:30-38 | a request for the recorded pair joins the readers and changes nothing else |
| Credentials.NobodyStuck | src/ugid_rwlock.hpp:30-63 | a waiting thread can go on whenever no thread holds the lock |
| Credentials.SwitchGid | src/ugid_rwlock.hpp:45-59 | one switch sets the requested gid exactly if it is not 0, or the process leaves a uid other than 0, or gid 0 is in effect |
| Credentials.GidAfterExact | src/ugid_rwlock.hpp:45-59 | the same for any sequence of recorded pairs |
| Credentials.EffectiveGid | src/ugid_rwlock.hpp:45-59 | in every run the effective gid is the recorded one exactly unless an earlier gid sticks: the latest recorded pair has gid 0 and, from the last pair with another gid up to the one before the latest, the uid was 0; then it is that gid |
| Credentials.StaleGid | src/ugid_rwlock.hpp:30-77 | a legal run of one thread that ends with uid 7 and gid 0 recorded and gid 5 in effect |
| GidCache.LowerBound | src/gidcache.cpp:65-93 | the first record not below the uid |
| GidCache.Cache.AllocRec | src/gidcache.cpp:55-63 | a fresh slot, or a random one only when full |
| GidCache.Cache.Fill | src/gidcache.cpp:109-137 | a known user's record holds 1 to 32 gids: all its groups, or the one gid if there are more; an unknown user keeps the slot's former groups |
| GidCache.Cache.Sort | src/gidcache.cpp:167 | sorted by uid with the same records |
| GidCache.Cache.Miss | src/gidcache.cpp:163-168 | a miss adds the record, drops at most one, only when full, and keeps the array sorted with unique uids |
| GidCache.GroupsOfSource | src/gidcache.cpp:119-134 | a record has 1 to 32 gids exactly if some successful lookup stands behind it, its own or that of a record displaced before, and then they are that lookup's |
| GidCache.Cache.InitGroups | src/gidcache.cpp:155-175 | over all calls and evictions: a hit exactly if the uid is present; the record used is the one its last miss made; after a successful lookup it holds what that gave, after a failed one no groups or those of the record displaced, which is another user's |
| GidCache.Run | src/gidcache.cpp:155-175 | every run of calls on a new cache, whatever it evicts: a user is given what the system said of that user at this or an earlier call, or, if it knew no such user, no groups or those of an earlier call for another; with at most 256 users, always what it said at the first call |
| GidCache.OwnGroups | src/gidcache.cpp:155-175 | if the system knows every user, nobody is ever given the groups of another |
| GidCache.StrangersGroups | src/gidcache.cpp:109-137 | 256 known users and one unknown: the unknown one is given a known one's group |
| PolicyCache.LastFetchMeans | src/policy_cache.cpp:46-128 | the answer in force at a call is that of the last call that fetched one, with nothing since that fetched or forgot it, from the calls alone |
| PolicyCache.AnswersAreGenuine | src/policy_cache.cpp:91-128 | in every run, once the clock has reached the timeout, the reply is the policy's own or a branch it gave for that path less than the timeout ago, with no erase of it and no clear since; failures come only from the policy |
| PolicyCache.FirstAnswerServed | src/policy_cache.cpp:91-128 | the first answer for a path is the reply for the whole of the timeout, unless forgotten, whatever the policy would say by then |
| PolicyCache.BlankServedIff | src/policy_cache.cpp:109-123 | on a path for which the policy has always failed, a call succeeds, with the empty branch, exactly while the clock is below the timeout |
| PolicyCache.FailureServedEarly | src/policy_cache.cpp:109-123 | a run of that: the first call for a path succeeds although the policy would fail |
| PolicyCache.Cache.Erase | src/policy_cache.cpp:46-54 | drops the path's answer and no other |
| PolicyCache.Cache.Clear | src/policy_cache.cpp:81-89 | drops every answer |
| PolicyCache.Cache.Cleanup | src/policy_cache.cpp:56-79 | keeps exactly the entries younger than the timeout and leaves the history's answers as they were |
| PolicyCache.Cache.Call | src/policy_cache.cpp:91-128 | replies, and changes the history, as a cache without storage would from the history alone |
| PolicyCache.SweepsInvisible | src/policy_cache.cpp:56-79 | a run without one of its cleanups gives the same replies to every other call |
| PolicyCache.Run | src/policy_cache.cpp:46-128 | every run of calls, erasures, clears and cleanups with a clock that never goes back replies as the calls alone prescribe: the answer fetched last while it is younger than the timeout, else the policy's, with the empty branch below the timeout where none was fetched |
| Policies.CalcErrorIsJoin | src/policy_error.hpp:29-50 | the error fold is the maximum under ENOENT < ENOSPC < EROFS: commutative, associative, idempotent |
| Policies.OrderImmaterial | src/policy_error.hpp:29-50 | reordering branches gives the same error or a branch with the same key |
| Policies.EpmfsCreate | src/policy_epmfs.cpp:35-80 | the last branch with most space among those that have the path, are in mode RW, on a file system neither read-only nor short of space; fails exactly if there is none: with EROFS if mode or file system of one with the path forbids it, else ENOSPC if only space is missing on one, else ENOENT |
| Policies.EpmfsAction | src/policy_epmfs.cpp:82-124 | the same among those that have the path and are not in mode RO nor on a read-only file system, whatever their space |
| Policies.EpmfsSearch | src/policy_epmfs.cpp:126-162 | the same among those that have the path and answer; else ENOENT |
| Policies.NewestCreate | src/policy_newest.cpp:37-83 | the last branch with the newest mtime among those that may take a new file, although mtime is tested first; the same errors |
| Policies.NewestAction | src/policy_newest.cpp:85-128 | the same among those that may be changed |
| Policies.NewestSearch | src/policy_newest.cpp:130-162 | the same among those that have the path; else ENOENT |
| Policies.EplusSearch | src/policy_eplus.cpp:126-162 | never selects a branch |
| Policies.LusCreate | src/policy_lus.cpp:34-76 | the first branch with least used space among those in mode RW, on a file system neither read-only nor short of space, that use less than 2^64-1 bytes; fails exactly if there is none, with EROFS, ENOSPC or ENOENT as above |
| Policies.LusExact | src/policy_lus.cpp:48-64 | that is filter-then-select exactly unless each eligible branch uses 2^64-1 bytes |
| Policies.LusFullBranch | src/policy_lus.cpp:48-64 | one such eligible branch is refused with ENOENT |
| StatFs.Collect | src/fuse_statfs.cpp:99-130 | each device once, as its first reachable branch shows it, available space and files counting as 0 exactly for a branch in mode RO or NC that its file system or the setting ignores; and the least nonzero sizes |
| StatFs.OncePerDeviceUnique | src/fuse_statfs.cpp:129 | the device table is determined by the branches |
| StatFs.DevicesOk | src/fuse_statfs.cpp:102-130 | building the table branch by branch gives each device once, from its first reachable branch |
| StatFs.NoDevices | src/fuse_statfs.cpp:132-134 | the table is empty exactly if no branch answers |
| StatFs.NormalizeSane | src/fuse_statfs.cpp:42-55 | scaling keeps available <= free <= total |
| StatFs.RoundingError | src/fuse_statfs.cpp:42-69 | scaled totals in bytes never exceed the true sum and fall short by less than a fragment per device |
| StatFs.TotalsSane | src/fuse_statfs.cpp:57-69 | summing keeps available <= free <= total |
| StatFs.Walk | src/fuse_statfs.cpp:132-144 | copying the first device and merging the others gives the sum over all |
| StatFs.StatFs | src/fuse_statfs.cpp:82-147 | the whole report: devices once with what their first branch contributes by its mode, block counts within the rounding error, file counts exact, order of available, free and total kept; nothing written if no branch answers |

## Left out

- KHash.Table.Put: requires fewer than 2^30 stored keys, which keeps tables below 2^31 buckets; allocation failure and 32-bit exhaustion are excluded.
- KHash.Table.Resize: the 0.77 load bound is integer arithmetic, not floating point.
- FastHash.FastHash64: word loads are little-endian; on a big-endian machine the hash differs but the same argument applies.
- Readdir.ListDirectory: requires fewer than 2^30 different hashes, as the table does; inode numbers are 64 bits wide.
- Interrupts.Preserved: signals, session exit, notifications and the contents of replies play no part.
- BufVecs.FuseBufCopy: source and destination vectors share no object, and no stream is in two buffers of one vector; the shortcut for a vector copied onto itself and buffers of unlimited size are not modelled.
- SendData.FuseSendDataIov: messages of 2^32 bytes and more are excluded, since the length field has 32 bits.
- Pool.ClonePath: ownership, times, attributes and extended attributes are one outcome each, not contents; the kernel's answers about a directory do not change during a call.
- Rename.RenameCreatePath: a directory is one opaque node; its subtree moves with it unseen. That the old and new path differ and branches are distinct is assumed, as is, for the success clauses of both variants, that removals work.
- MoveFile.Movefile: metadata, descriptor flags and the clonepath of the parent are outcomes only.
- GidCache.Cache.Sort: the library sort is stood in for by an insertion sort; only that it sorts and permutes is used.
- PolicyCache.Cache.Call: one call is one step, although the code drops its lock while the policy runs; the timeout is fixed for a run.
- StatFs.StatFs: products and sums are unbounded, so 64-bit overflow is excluded; flags and identifiers other than the read-only bit are not modelled.
- The other policies, which repeat the same loops with other keys.
- Credentials.OwnCredentials: the process is started as root; without that the calls that switch fail. The supplementary groups set along with the gid are modelled apart, by the cache of groups.
- The statvfs cache, whose failed refreshes are stamped as current.
- Option parsing, control-file attributes, usage text, and the handlers that fold one call over the branches: they would only add easy members.
- Single-syscall wrappers, glob, realpath, user and group databases, access control lists: foreign code, represented by outcomes.
