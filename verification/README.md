# Verified models of sotOs

sotOs runs untrusted guests ("sotboxes") on seL4 and contains the hostile ones: their file
writes go to a private layer, a suspicion engine moves them between trust tiers, and byte
rings, a seqlock and a vDSO clock carry data between protection domains. This project models
that code in Dafny and proves what its comments, headers and unit tests promise. Where a
promise does not hold as written, the model follows the code, and a lemma gives the exact
condition under which it does hold.

Code that changes state in place is modelled by classes and methods with loops. Each method
is tied to a pure function of the old state, and the theorems are about those functions over
whole runs.

## Where things are

| files | what they model |
|---|---|
| `Machine` | 16-, 32- and 64-bit words, byte strings, little-endian integers |
| `RingWindow`, `BytePipe`, `BytePipeInterleaving`, `BytePipeFrame`, `FrameInterleaving` | the shared-memory byte pipe with 32-bit cursors over 65472 cells, its frames, and the byte-level interleavings of both |
| `Pty` | pseudo-terminal rings, and the pairs and handles over them |
| `Seqlock` | the tier word read without locks |
| `Clock` | wall time and the vDSO multiply-shift |
| `CowOverlay` | the per-session overlay of files a session does not own |
| `SotfsGraph`, `SotfsServer`, `SotfsFile`, `SotfsHoles`, `SotfsOpen` | the shared file graph, its code, file contents, what a write will take and show, and files unlinked while open |
| `Containment`, `ContainmentRun`, `ContainmentWrite`, `ContainmentReap`, `ContainmentShared`, `ContainmentOperator`, `ContainmentLoose`, `ContainmentDisk`, `ContainmentExample` | what a contained session can change and what it gets back, alone, among others and beside the operator; what is left when it ends, and what the disk still shows of it |
| `Sto`, `StoSerial`, `StoCaps`, `StoIdeal`, `StoServer` | optimistic transactions and the capabilities tied to them, and the service without its tables |
| `Anomaly`, `AnomalyRuns`, `AnomalyGuest` | the suspicion engine, its closed forms and per-pid arrays, and every writer of a guest's tier |
| `BlockDevice`, `RwBinStore`, `RwBinTorn` | sector I/O that can fail, the persistent binary store, and its index cut off in mid-write |
| `Shm` | named shared-memory objects |
| `Sysroot`, `SysrootTree`, `Listing` | symlinks, lookup and directory listing under /usr, and listing of the graph |
| `Union`, `Wire` | the union directory merge; the render-stream codec |

## Promises that hold only under a condition

| promise | where it is made | exact condition |
|---|---|---|
| a session can never delete a base file | `src/lucas/backends_sotfs.c:1603-1606` | the unlink guard asks for the owner of the inode numbered like the *edge*; the promise holds exactly when no such coincidence occurs (`UnlinkUnseenIff`; a three-step history in `GuardFiresOnBaseFile`) |
| the reap leaves no leaked block | `src/lucas/backends_sotfs.c:154-160` | exactly when the session deleted no file that had a block: a plain delete keeps the disk bits (`DiskAfterSession`) |
| a reaped session leaves nothing behind | `src/lucas/backends_sotfs.c:154-160` | its bytes stay in the freed disk blocks, and the next file that takes one shows them; free blocks are zero again exactly when every block it still owned held zeros (`BlankAfterReapIff`, `PagesAfterSession`; a history in `OperatorReadsReapedBytes`) |
| a disconnect is invisible to others | `src/lucas/backends_sotfs.c:154-160` | exactly when nobody else has a node in a directory of the session that some entry leads to (`EndUnseenIff`) |
| the operator sees every base node | `src/lucas/sotfs_session.c:3-6` | a node the operator makes is visible to the operator exactly when its number carries no tag left by a deleted session file (`OperatorSeesOwnNodeIff`, `DeletedKeepsTag`) |
| a place at or past the file size cannot be mapped yet | `src/sotfs/io.c:78-82` | false after an append cut short by a full disk; then the lower-numbered mapping wins (`ReadsBackIff`, `ShortWriteUntidies`) |
| unallocated regions read as zero | `src/sotfs/io.c:150-152` | a newly mapped block shows what its disk block held (`WriteOnAnyDisk`); by the state before the write, it is positional exactly when the first disk block it will take is zero in front of the range, if that starts in a hole, and the one it will take for the last block is zero behind it, if that is one (`PositionalIff`) |
| FIFO over the byte pipe | `include/sotnet/bytepipe.h:87-115` | a backlog across a cursor wrap must be at most 4096 bytes (`DeliveryIffSafe`) |
| 0 from a frame pull leaves the cursor alone | `include/sotnet/bytepipe_frame.h:38-40` | exactly when the producer has not lapped the consumer (`NothingKeepsCursor`) |
| a frame that does not fit is refused | `include/sotnet/bytepipe_frame.h:24-30` | exactly for payloads of less than 2^32 - 8 bytes, where the 32-bit sum does not wrap (`RefusesIff`) |
| a falling write count means a new process | `src/anomaly/main.c:163-171` | n events with count 0 raise the watermark by n (`ZeroCountsReset`), and a new process is missed exactly when none of its nonzero counts is below the watermark (`MissedIff`) |
| a promotion sticks | `src/lucas/anomaly.c:58` | the engine's promotion is kept exactly in histories without a losing happening (`SupervisorKeepsUp`), and a loss is final (`LostForGood`): a pledge violation sets tier 1 whatever the tier was |
| the index survives a reboot | `src/lucas/backends_rwbinstore.c:140-143` | exactly when it can be read back or no name is in it (`ReloadKeepsIff`); the next write after a failed read makes the loss permanent (`FailedReloadThenWrite`); after an index write cut off at a sector the other names are all there (`TornReload`) |
| a stored binary is found by its name | `src/lucas/backends_rwbinstore.c:74-78` | exactly for names of at most 63 bytes (`NameFoundIff`) |
| a too-long symlink join matches no entry | `src/lucas/backends_sysroot.c:111-112` | false when it is cut at 191 characters exactly if an entry of that length begins like it (`CutJoinFoundIff`), and when it is deep exactly if an entry is what the 64-name stack holds (`DeepJoinFoundIff`), which is the place meant exactly when the stack has caught up with the walk (`JoinNormalisesIff`; a path that strays in `DeepJoinStrays`) |
| an unlinked or re-opened shm object keeps its data | `src/lucas/backends_shm.c:231-253` | an open with the handle pool full frees an object nobody holds (`NameLostIff`) |
| getdents drains a directory | `src/lucas/backends_sotfs.c:1387-1391` | exactly when the first buffer holds the whole directory (`SkipCompleteIff`) |
| ActiveOk capabilities work after the commit | `include/sto/cap_ext.h:22-25` | they are swept by the commit and never do (`CommitSettlesCaps`) |
| listing and lookup of the union agree | `src/lucas/backends_union.c:16-24` | names of at most 15 characters, a buffer for all of them, and none both in the upper layer and whitened (`MergedAgreesIff`; for a smaller buffer `BoundedAgreesIff`; a longer name never is listed, `LongNameNeverListed`) |
| the count a write returns is what was written | `src/lucas/backends_sotfs.c:1231-1238` | a session's write to its own file reports all of it whenever anything was written, so exactly when there is room for all of it or for nothing (`CountIsHonestIff`) |
| the attacker reads its edit back | `src/lucas/backends_sotfs.c:1173-1179` | the range, yes (`EditReadsBack`); but a new overlay starts empty, so the file around it is as before the write exactly when it was overlaid already, or ends within the range and is zero in front of it (`EditMergesIff`) |
| an overlay write can be read back | `src/lucas/cow_overlay.c:80-90` | the path is shorter than 96 characters (`WrittenIsFoundIff`) |

## Model

| member | source | states |
|---|---|---|
| RingWindow.Collision | include/sotnet/bytepipe.h:94-112 | two stream positions less than a ring apart share a cell exactly when a cursor wrap lies between them and they are (cursor range mod capacity) apart |
| RingWindow.WindowIntactIffSafe | include/sotnet/bytepipe.h:88-115 | every unread byte is still in its cell if and only if the unread window does not straddle a cursor wrap, or is at most the remainder |
| RingWindow.StoreKeepsFresh | include/sotnet/bytepipe.h:93-94 | storing the next byte leaves every cell holding the latest position that maps to it, whatever it overwrites |
| BytePipe.Ring.Push | include/sotnet/bytepipe.h:88-97 | at most 65472 bytes are stored from the cursor on, and the cursor is published 32-bit-advanced by the count |
| BytePipe.Ring.Pull | include/sotnet/bytepipe.h:101-115 | the bytes from the (possibly lap-corrected) cursor and the cursor advanced by their number; nothing else changes |
| BytePipe.PutExtends | include/sotnet/bytepipe.h:93-95 | after a push the ring carries the old stream followed by the pushed bytes |
| BytePipe.PullDelivers | include/sotnet/bytepipe.h:104-114 | with a safe backlog a pull returns exactly the next bytes of the stream, up to its buffer, through any number of wraps |
| BytePipe.LappedResumesOnNewest | include/sotnet/bytepipe.h:106-109 | a lapped consumer resumes on exactly the newest 65472 bytes when these do not straddle a wrap |
| BytePipe.UnsafeBacklogCorrupts | include/sotnet/bytepipe.h:111-112 | for every unsafe backlog there is a stream that is delivered wrongly |
| BytePipe.DeliveryIffSafe | include/sotnet/bytepipe.h:48-51 | a backlog that fits the ring is delivered intact for all streams if and only if it does not straddle 2^32 or is at most 4096 bytes |
| BytePipeInterleaving.LoadedByte | include/sotnet/bytepipe.h:111-112 | a byte loaded while the producer is storing others is still the stream's next one |
| BytePipeInterleaving.FifoUnderInterleaving | include/sotnet/bytepipe.h:88-115 | in every interleaving of single stores and loads, what was returned and what is half-copied is a prefix of what was published |
| BytePipeInterleaving.ChannelIsQueue | include/sotnet/bytepipe.h:88-115 | in every paced interleaving what is published, granted and returned, and which push and pull are under way, is step for step that of a queue of bytes |
| BytePipeInterleaving.PullSeesAllPublished | include/sotnet/bytepipe.h:104-110 | a pull that starts is granted everything published so far, up to its buffer |
| BytePipeInterleaving.OperationsEnd | include/sotnet/bytepipe.h:88-115 | a push or a pull under way can always do its last step or move one byte more, of as many as it has to |
| BytePipeFrame.PushFrame | include/sotnet/bytepipe_frame.h:26-36 | header and payload go in as one push, or nothing at all when they do not fit |
| BytePipeFrame.RefusesIff | include/sotnet/bytepipe_frame.h:30 | the 32-bit size test refuses exactly the frames that do not fit if and only if the payload is shorter than 2^32 - 8 bytes |
| BytePipeFrame.PullFrame | include/sotnet/bytepipe_frame.h:41-62 | the copying loops compute the frame outcome: header checks in order, cursor moved only past a whole frame or by the lap correction |
| BytePipeFrame.NothingKeepsCursor | include/sotnet/bytepipe_frame.h:38-56 | returning no frame leaves the cursor where it was if and only if the producer has not lapped the consumer |
| BytePipeFrame.HeaderRoundTrip | include/sotnet/bytepipe_frame.h:16-20 | the 8-byte header gives back connection id, port and length |
| BytePipeFrame.PullHead | include/sotnet/bytepipe_frame.h:45-61 | with a safe backlog the head frame is dequeued exactly when it fits the caller's buffer, and otherwise the cursor stays |
| BytePipeFrame.ReceiveOutcome | include/sotnet/bytepipe_frame.h:41-62 | a receive delivers the first undelivered frame if there is one and it fits, and else changes nothing |
| BytePipeFrame.FramesDeliveredInOrder | include/sotnet/bytepipe_frame.h:24-62 | in every paced run the delivered frames are a prefix, field by field, of the accepted ones, and the next one comes with the next large enough buffer |
| BytePipeFrame.LinkIsQueue | include/sotnet/bytepipe_frame.h:24-62 | every paced run accepts exactly the frames of at most 65464 bytes and delivers what a queue of frames would |
| FrameInterleaving.FramesInOrder | include/sotnet/bytepipe_frame.h:26-62 | in every interleaving, byte by byte, of paced frame pushes with frame pulls the delivered frames are a prefix, field by field, of the published ones |
| FrameInterleaving.WireIsQueue | include/sotnet/bytepipe_frame.h:26-62 | in every paced interleaving the frames accepted, published and delivered, and whether a pull is under way, are those of a queue of whole frames |
| FrameInterleaving.FinishOutcome | include/sotnet/bytepipe_frame.h:41-62 | whatever the sender does meanwhile, a pull ends with the first undelivered frame if one had been published when it loaded the cursor and its payload fits, and otherwise with nothing |
| FrameInterleaving.ReceiveEnds | include/sotnet/bytepipe_frame.h:51-62 | a pull under way can always either load or end, and loads at most a header and the payload it announces |
| FrameInterleaving.SendEnds | include/sotnet/bytepipe_frame.h:26-36 | a push under way can always either store one byte more or publish, and stores the header and the payload |
| PtyRing.AtDistinct | src/lucas/backends_pty.c:74-100 | 256 divides 2^64, so 256 consecutive bytes never share a cell, cursor wrap or not |
| PtyRing.Ring.Write | src/lucas/backends_pty.c:89-100 | as much as fits is appended to the backlog, the rest is dropped |
| PtyRing.Ring.Read | src/lucas/backends_pty.c:74-85 | the oldest bytes come out and leave the backlog |
| PtyPool.Backend.OpOpen | src/lucas/backends_pty.c:117-193 | opening changes handles and pairs as the open function says, zeroes both rings of a new pair and no other ring, and keeps the invariant |
| PtyPool.Backend.OpClose | src/lucas/backends_pty.c:197-217 | closing, including twice, changes the pools as the close function says and keeps their invariant |
| PtyPool.Backend.OpWrite | src/lucas/backends_pty.c:250-273 | ring_write on the ring of the handle's direction: its backlog grows by as many bytes as fit, no other ring changes; a dead handle gives EBADF |
| PtyPool.Backend.OpRead | src/lucas/backends_pty.c:221-246 | ring_read on the ring the other end writes: the oldest bytes of its backlog, no other ring changes; a dead handle gives EBADF |
| PtyPool.StreamsAndLifetimes | src/lucas/backends_pty.c:117-273 | in every run, for each pair, what was accepted from the master is what slaves were given followed by what is buffered, and the other way round, and a pair is in use exactly while some handle on it is open |
| PtyPool.Backend.Session | src/lucas/backends_pty.c:74-273 | the same of the rings themselves: in a run served by the code, what one end was told was accepted is what the other end got followed by the ring's backlog, through any number of wraps |
| PtyPool.EndsTalk | src/lucas/backends_pty.c:250-273 | of two handles on the ends of a pair, what one writes waits for the other behind what waited before, as far as 256 bytes go, and neither comes back to the writer nor reaches another pair |
| PtyPool.EndsListen | src/lucas/backends_pty.c:221-246 | a read gives the oldest bytes waiting for that end and leaves the rest and the other end's |
| PtyPool.MasterOpens | src/lucas/backends_pty.c:117-193 | the multiplexer gives a master handle on a pair that was free, and EMFILE exactly without a handle or a pair |
| PtyPool.SlaveOpens | src/lucas/backends_pty.c:117-193 | pts/N gives a slave handle on pair N, whatever follows the digit; EMFILE without a handle, else ENOENT exactly when pair N is not in use |
| PtyPool.OthersRefused | src/lucas/backends_pty.c:117-193 | every other path is refused |
| PtyPool.NewPairIsSilent | src/lucas/backends_pty.c:117-193 | a new pair has nothing waiting at either end, whatever its rings held |
| PtyPool.CloseEnds | src/lucas/backends_pty.c:197-217 | a close ends that handle and no other, and frees the pair exactly with its last one |
| Seqlock.RecheckSettles | include/procd/shm.h:34-39 | an attempt whose two version loads agree held a tier that was committed, with no section open, inside the call |
| Seqlock.ReadsAreLinearizable | include/procd/shm.h:32-64 | in every interleaving a returned tier was the committed one, with no section open, at some instant between the start of the call and its return, or is tier 0 from a bounded reader that gave up |
| Seqlock.BoundedReader | include/procd/shm.h:46-57 | a bounded reader makes at most its n attempts, settles within them or gives up after exactly n, whatever the others do |
| Seqlock.WrapDefeatsRecheck | include/procd/shm.h:38-39 | from every initial state there is a run, with 2^63 sections between the two loads, whose recheck accepts a tier that was never committed, so the no-wrap hypothesis is needed |
| Seqlock.QuietAttemptReturns | include/procd/shm.h:33-40 | an attempt without a writer step in between returns the current tier |
| Clock.Walltime | src/lucas/clock.c:3-16 | seconds and nanoseconds together are the exact floor, and normalised, if and only if the 64-bit product of the fraction does not overflow |
| Clock.FractionExactIff | src/lucas/clock.c:13-15 | the 64-bit fraction is exact exactly for remainders up to 18446744073 |
| Clock.WalltimeMonotone | src/lucas/clock.c:3-16 | the (seconds, nanoseconds) pair never goes back as the counter advances, across the boot mark too, while neither product nor seconds overflow |
| Clock.MultShift | src/lucas/clock.c:32-49 | the shift returned is the largest of 0..32 whose multiplier fits 32 bits; a rate of 0 gives 0, 0 |
| Clock.FastNeverAhead | src/vdso/vdso_time.c:124-125 | the multiply-shift never exceeds the exact nanoseconds |
| Clock.FastShortfall | src/vdso/vdso_time.c:124-125 | it falls short by less than 1 + cycles / 2^shift |
| Clock.DriftShort | src/lucas/clock.c:34-38 | below shift 32 the multiplier's relative drift is under 2^-31 |
| Clock.DriftFull | src/lucas/clock.c:34-38 | at shift 32 it is under one part in a million for every rate below 1000 * 2^32 |
| Clock.FastWithinTolerance | src/lucas/clock.c:37-38 | one part in a million or two nanoseconds, for every interval and every rate up to 2^40 |
| Clock.VdsoGettime | src/vdso/vdso_time.c:124-136 | the guest's time is the base plus the fast nanoseconds, normalised |
| CowOverlay.WriteEffect | src/lucas/cow_overlay.c:56-91 | success exactly when the bytes fit and a slot is free or the key's own; the key then holds the bytes and no other key changes; a refusal changes nothing |
| CowOverlay.WrittenIsFoundIff | src/lucas/cow_overlay.c:80-90 | a successful write is found again exactly when its path is shorter than 96 characters |
| CowOverlay.TruncateEffect | src/lucas/cow_overlay.c:108-116 | the key's file is cut or zero-extended, an absent one stays absent, and no other key changes |
| CowOverlay.ReapEffect | src/lucas/cow_overlay.c:118-125 | the session's files go and no other session's change |
| CowOverlay.MergedIsFileWrite | src/lucas/backends_sotfs.c:1241-1268 | the static merge buffer's stale bytes never reach the file |
| CowOverlay.Overlay.CowFind | src/lucas/cow_overlay.c:37-49 | the scan finds the first entry with the session and path |
| CowOverlay.Overlay.CowWrite | src/lucas/cow_overlay.c:56-91 | the pool becomes what the write function says, status included |
| CowOverlay.Overlay.CowTruncate | src/lucas/cow_overlay.c:108-116 | the pool becomes what the truncate function says |
| CowOverlay.Overlay.CowReap | src/lucas/cow_overlay.c:118-125 | the pool becomes what the reap function says |
| CowOverlay.Overlay.Merge | src/lucas/backends_sotfs.c:1243-1258 | loading, zeroing the gap and laying the new bytes over gives the positional write of the old content |
| CowOverlay.Overlay.OpWriteAt | src/lucas/backends_sotfs.c:1241-1268 | load, zero the gap, splice and store back is the positional write |
| CowOverlay.Overlay.OpReadAt | src/lucas/backends_sotfs.c:1131-1145 | a read returns the part of the file at the cursor, and nothing past its end |
| CowOverlay.WriteAtEffect | src/lucas/backends_sotfs.c:1241-1268 | a write is accepted exactly when it ends within 64 KiB and a slot is free or the key's own; then the whole count is returned, the file is the positional write of the old one and no other changes; otherwise ENOSPC and nothing changes |
| CowOverlay.EachKeyIsAFile | src/lucas/backends_sotfs.c:1241-1268 | in every run each (session, key) is one sparse byte array moved only by its own accepted operations |
| SotfsServer.Server.SearchEdge | src/sotfs/graph.c:192-212 | the scan returns the lowest matching edge number |
| SotfsServer.Server.Scan | src/sotfs/graph.c:79-98 | next-fit: the first free slot from the hint on, or 0 |
| SotfsServer.Server.MakeNode | src/sotfs/rewrite.c:59-149 | checks in order, allocation, roll-back of the inode when no edge is free, and the ownership tag |
| SotfsServer.Server.FreeFileStorage | src/sotfs/rewrite.c:219-228 | the file's mappings and inode go, the disk bits stay |
| SotfsServer.Server.Unlink | src/lucas/backends_sotfs.c:1629-1657 | the guard on the edge number, then the delete or the deferral to the last close |
| SotfsServer.Server.FileWrite | src/sotfs/io.c:59-145 | the block loop, its short count or error, and the size grown only after a full write |
| SotfsServer.Server.FileRead | src/sotfs/io.c:155-221 | the bytes of the range below the size, one by one, with the errors for no inode and for a directory |
| SotfsServer.Server.ReadBlock | src/sotfs/io.c:183-218 | one turn: the bytes up to the end of the block, zeros for a hole |
| SotfsServer.Server.BlockAt | src/sotfs/io.c:101-107 | an existing block unless the place is at or past the old size, else a new one with a disk block |
| SotfsServer.Server.WriteBlock | src/sotfs/io.c:87-136 | one block found or allocated and its page changed in the chunk's range |
| SotfsServer.Server.LowestClear | src/sotfs/graph.c:141-144 | the lowest clear bit of the disk bitmap, or 0 |
| SotfsServer.Server.FreeBlocks | src/sotfs/graph.c:177-188 | every block of the file goes, with its disk bit |
| SotfsServer.Server.SessionReap | src/lucas/backends_sotfs.c:166-183 | the loop over owned inodes, with its two inner loops, removes exactly the session's nodes, blocks, disk bits, edges to them and tags |
| SotfsFile.ChunkWrites | src/sotfs/io.c:87-136 | a round lays its chunk over what the mappings show of the disk, maps only clear disk blocks to its own file, and leaves every other mapping and page alone |
| SotfsFile.WriteOnAnyDisk | src/sotfs/io.c:59-145 | on any disk, after a complete write the range reads back, every other place of every file reads what the disk held before through the mappings as they now are, old mappings stay and the size is the larger of the old one and the end |
| SotfsHoles.WriteTakes | src/sotfs/io.c:94-101 | the hole with n holes of the range before it gets the n-th next clear disk block |
| SotfsHoles.PositionalIff | src/sotfs/io.c:94-136 | a complete write is a positional write on a byte array, zero-filling gaps, if and only if, before it, the disk block to be taken for a hole at the start of the range is zero in front of it and the one to be taken for a hole at its end is zero behind it |
| SotfsHoles.CompleteIff | src/sotfs/io.c:94-101 | a write is complete if and only if there are mapping slots and clear disk blocks for the holes in its range |
| SotfsFile.WriteIsPositional | src/sotfs/io.c:59-145 | on a disk whose free blocks are zero, every complete write is positional and leaves the file zero past its size and the free blocks zero again |
| SotfsFile.ReadsBackIff | src/sotfs/io.c:78-107 | the block written is the block read back if and only if no lower-numbered mapping for the place was skipped |
| SotfsFile.NewBlockShowsDisk | src/sotfs/io.c:101-125 | around the chunk a newly mapped block reads as the disk block's old content where the file read zero before |
| SotfsFile.ShortWriteUntidies | src/sotfs/io.c:104-106 | an append cut short leaves a block mapped past a size that did not grow |
| Containment.ResolveSame | src/sotfs/graph.c:223-266 | a path to a node not owned by s leads to it in every graph that agrees outside s |
| Containment.LookSame | src/lucas/backends_sotfs.c:1092-1097 | graphs that agree outside s look the same to the operator and every other session, at every path from every root |
| ContainmentRun.CreateEffect | src/sotfs/rewrite.c:59-149 | a created node is found under its name, fresh, empty and owned; a refusal changes no node, edge or mapping |
| ContainmentRun.UnlinkEffect | src/sotfs/rewrite.c:159-214 | an unlink that goes through takes the name away; an open file keeps its bytes, a closed one with its last link goes |
| ContainmentRun.CloseEffect | src/sotfs/rewrite.c:240-247 | the last close of an unlinked file deletes it with its mappings; any other close keeps its bytes |
| SotfsOpen.OpenFilesStay | src/sotfs/rewrite.c:198-247 | in every history of opens, closes and unlinks of a file it is there, with its bytes, exactly while it has its name or an open handle, and after that its blocks are unmapped |
| ContainmentRun.CreateKeeps | src/lucas/backends_sotfs.c:1517-1550 | a session's create or mkdir keeps the graph well formed and everything outside the session unchanged |
| ContainmentRun.WriteKeeps | src/lucas/backends_sotfs.c:1211-1268 | so does any write, whether it reaches the graph or the overlay |
| ContainmentWrite.OwnWriteLands | src/lucas/backends_sotfs.c:1217-1238 | a session's write to its own file, with room for the holes of its range, reads back, grows the size to the end of the range if that is larger, and is positional exactly under the condition of PositionalIff |
| ContainmentWrite.RunsWrite | src/lucas/backends_sotfs.c:1217-1268 | op_write changes the graph as the run operation says |
| ContainmentWrite.CountIsHonestIff | src/lucas/backends_sotfs.c:1231-1238 | it returns ENOSPC exactly when no block could be had and the whole count otherwise, which is the number of bytes written exactly when there was room for all |
| ContainmentWrite.ForeignWriteIsOverlaid | src/lucas/backends_sotfs.c:1239-1268 | a write to anybody else's file leaves the graph alone; accepted exactly within 64 KiB and with a slot, it returns the whole count and makes the session's overlay of the path the positional write of the old one |
| ContainmentWrite.WriteWithoutEffect | src/lucas/backends_sotfs.c:1171-1222 | a directory gives EISDIR, a caller without a session is told everything was written, an own file past 4 GiB gives ENOSPC; nothing changes |
| ContainmentWrite.Refusals | src/lucas/backends_sotfs.c:1092-1236 | EBADF for a number that is no inode's and for reading another session's file, the operator included; EISDIR for a directory; ENOENT for an own number without an inode |
| ContainmentWrite.EditReadsBack | src/lucas/backends_sotfs.c:1101-1268 | after an accepted write to a base file the session reads the range back, and no other caller's read of anything changes |
| ContainmentWrite.EditMergesIff | src/lucas/backends_sotfs.c:1239-1268 | what the session sees is the positional write of what it saw before if and only if it had an overlay of the path, or the base file ends within the range and is zero in front of it |
| ContainmentWrite.OwnWriteReadsBack | src/lucas/backends_sotfs.c:1101-1238 | a complete write to an own file reads back through a path without an overlay; with one, the overlay is still served |
| ContainmentRun.UnlinkKeeps | src/lucas/backends_sotfs.c:1629-1657 | so does an unlink on which the guard does not misfire |
| ContainmentRun.RunKeeps | src/lucas/backends_sotfs.c:1211-1657 | and so does every run of create, mkdir, open, close, write and unlink |
| ContainmentRun.RunIsInvisible | src/lucas/backends_sotfs.c:1092-1097 | after any such run the operator and every other session stat, read and list exactly what they did before |
| ContainmentLoose.AnyRunIsInvisible | src/lucas/backends_sotfs.c:1092-1097 | and so with closes of any kind, the last close of somebody else's unlinked file included, at every path, and from every root that is not itself an unlinked file |
| ContainmentLoose.LastCloseSeen | src/sotfs/rewrite.c:240-247 | at that file's number the last close is seen |
| ContainmentRun.MisfireIsSeen | src/lucas/backends_sotfs.c:1633-1640 | a misfire takes a file away from its owner, or from the operator |
| ContainmentRun.UnlinkUnseenIff | src/lucas/backends_sotfs.c:1600-1640 | an unlink is invisible to everybody else if and only if the guard does not misfire |
| ContainmentExample.GuardFiresOnBaseFile | src/lucas/backends_sotfs.c:1633-1640 | after three creations a session's unlink deletes an operator's file, and its unlink of its own file reports success and does nothing |
| ContainmentExample.FromFormat | src/sotfs/graph.c:50-77 | from a formatted disk, after any sessions' turns: whoever sits out what comes next sees no change, and a session that owns nothing leaves the graph as it found it |
| ContainmentReap.ReapWf | src/lucas/backends_sotfs.c:162-183 | the reap leaves no dangling edge or mapping when everything in the session's directories is its own |
| ContainmentReap.SessionLeavesNothing | src/lucas/backends_sotfs.c:154-183 | after any run and the reap the graph has exactly the nodes, edges, mappings and pages it had before, and no tag of the session |
| ContainmentReap.StepLeaks | src/sotfs/rewrite.c:219-228 | a step leaks the disk blocks of the file it deletes and no others |
| ContainmentReap.ReapLeaksNothing | src/lucas/backends_sotfs.c:154-183 | the reap frees every bit it unmaps |
| ContainmentReap.DiskAfterSession | src/lucas/backends_sotfs.c:154-183 | after the reap the bitmap is the old one plus the blocks of the files the session deleted, none of them in use before; it is restored exactly when there are none |
| ContainmentDisk.BlankAfterReapIff | src/lucas/backends_sotfs.c:154-183 | the free disk blocks are zero after the reap if and only if every block of the session was |
| ContainmentDisk.ReapedBytesShow | src/sotfs/io.c:101-125 | a file that is given a reaped block shows the ended session's bytes around what was written |
| ContainmentDisk.PagesAfterSession | src/lucas/backends_sotfs.c:154-183 | after any run and the reap every disk block in use before has its old page, and free blocks that were zero are zero again if and only if every block the session still owned held zeros |
| ContainmentDisk.OperatorReadsReapedBytes | src/lucas/backends_sotfs.c:154-183 | a history from a formatted disk in which the operator's next write makes the operator's own file read a reaped session's bytes |
| ContainmentShared.TurnUnseen | src/lucas/backends_sotfs.c:1092-1097 | with any sessions in one graph, an operation or a disconnect changes nobody's view but the acting session's own |
| ContainmentShared.BystandersSeeNothing | src/lucas/backends_sotfs.c:154-183 | in every interleaving of any sessions' operations and disconnects, whoever takes no turn, the operator included, sees at the end what they saw at the start |
| ContainmentLoose.AllBystandersSeeNothing | src/lucas/backends_sotfs.c:154-183 | and so with closes of any kind, at every path, and from every root that is not itself an unlinked file |
| ContainmentOperator.ChangesHaveAuthors | src/lucas/backends_sotfs.c:1092-1097 | with the operator making nodes and writing files in between, whatever changes at a path in anybody's eyes was changed by their own act or the operator's |
| ContainmentOperator.OwnNodesStay | src/lucas/sotfs_session.c:41-53 | a session's own nodes, with attributes, bytes and entries, are changed by no other session's act and by none of the operator's |
| ContainmentOperator.MadeIsSeenIff | src/lucas/sotfs_session.c:41-53 | a node the operator makes in the middle of a history is there for the operator after any further turns of sessions if and only if its number carried no tag |
| ContainmentShared.EndUnseenIff | src/lucas/backends_sotfs.c:162-183 | with nodes made anywhere, a disconnect changes nobody else's view if and only if nobody else has a node in a directory of the session that some entry leads to |
| ContainmentShared.DeletedKeepsTag | src/sotfs/rewrite.c:205-228 | a session's delete frees the inode and leaves the tag on its number |
| ContainmentShared.OperatorSeesOwnNodeIff | src/lucas/sotfs_session.c:41-53 | a node made by the operator is visible to the operator exactly when its number carries no tag; with one, the old session's reap deletes it |
| StoServer.Server.BeginTx | src/sto/registry.c:39-53 | the first free slot gets a new id and the caller's badge, or 0 |
| StoServer.Server.Search | src/sto/registry.c:55-68 | the caller's own active transaction with the id, or none |
| StoServer.Server.AddObject | src/sto/registry.c:20-26 | the object is in the set afterwards, or the set is full and unchanged |
| StoServer.Server.Intersect | src/sto/registry.c:12-18 | true exactly when the two object sets meet |
| StoServer.Server.Validate | src/sto/registry.c:86-94 | true exactly when no logged commit wrote an object in the read set |
| StoServer.Server.Collect | src/sto/registry.c:103-112 | the search bound is the last slot in use, and the log is dropped exactly when nobody is active |
| StoServer.Server.Sweep | src/sto/registry.c:223-260 | exactly the listed capabilities, of the mode asked for, are revoked and their slots reclaimed |
| StoServer.Server.CommitTx | src/sto/registry.c:114-148 | quota, log entry, sweep of ActiveOk capabilities, slot kept only for a live CommitOnly one, collection |
| StoServer.Server.AbortTx | src/sto/registry.c:150-159 | all the transaction's capabilities swept, slot freed, collection |
| StoServer.Server.OnCommit | src/sto/ipc.c:58-75 | the commit message: not found, conflict with abort, quota, or committed |
| StoServer.Server.OnRead | src/sto/ipc.c:27-38 | the read message: not found, full, or in the read set |
| StoServer.Server.OnStage | src/sto/ipc.c:41-56 | the stage message: not found, full, or in the write set |
| StoServer.Server.OnInvoke | src/sto/ipc.c:123-140 | the invoke message: no such capability, the wrong phase, or Ok |
| StoServer.Server.Dispatch | src/sto/ipc.c:142-177 | one turn of the receive loop is one step of the model, with status and id |
| StoServer.Server.WrapCap | src/sto/registry.c:163-185 | a new capability in the first free slot with a never used id, or 0 |
| StoSerial.ValidatedIsCurrent | src/sto/registry.c:86-94 | a transaction that passes validation has seen only current versions |
| StoSerial.EndInv | src/sto/registry.c:96-112 | dropping the log when nobody is active loses no conflict that an active transaction still needs |
| StoSerial.RunIsSerialisable | src/sto/ipc.c:142-177 | any clients, any order of messages: every committed transaction saw exactly what the transactions committed before it had staged, by a record kept from messages and answers alone |
| StoSerial.SetsAreTheRecord | src/sto/ipc.c:27-56 | in every run an active transaction's write set is what it staged and its read set what it read, by that record |
| StoSerial.StaleIsRefused | src/sto/registry.c:86-94 | a transaction that saw a version that is no longer the latest is told Conflict |
| StoSerial.OverwrittenReaderIsRefused | src/sto/ipc.c:58-75 | when a transaction commits what another has read, the other is told Conflict |
| StoSerial.FreshReaderRefusedIff | src/sto/registry.c:86-94 | a new transaction that read one object at its latest version is still refused, exactly when a commit in the log wrote it |
| StoIdeal.SameAnswers | src/sto/ipc.c:16-177 | after any messages from any clients the answer to the next one, status and id, is that of a service of sets and maps without slots, searches, sweeps or a log |
| StoIdeal.StepMeans | src/sto/registry.c:39-260 | every message keeps the registry standing for that service: transactions, their sets, held commits, recent writes and live capabilities |
| StoIdeal.SlotsFullIff | src/sto/registry.c:39-53 | a begin is refused exactly with 64 transactions running or held |
| StoIdeal.PoolFullIff | src/sto/registry.c:163-185 | a wrap finds a pool slot exactly while fewer capabilities stand than there are slots |
| StoIdeal.FirstReaderLoses | src/sto/ipc.c:58-75 | two clients, one reads what the other stages and commits: the reader is told Conflict, and Ok without that commit |
| StoCaps.InvocableIff | src/sto/registry.c:208-221 | an ActiveOk capability works exactly while its transaction is active, a CommitOnly one exactly once it has committed |
| StoCaps.HandleCapInv | src/sto/registry.c:114-260 | every message keeps capabilities unique, parented, and in their mode's phase |
| StoCaps.AbortedCapsAreDead | src/sto/registry.c:150-159 | no capability of an aborted transaction is ever invoked successfully again, whatever is sent |
| StoCaps.CommitSettlesCaps | src/sto/registry.c:114-148 | after a commit that returns Ok, whatever is sent, a CommitOnly capability of the transaction can always be invoked and an ActiveOk one never again |
| StoCaps.CapsFromStart | src/sto/ipc.c:142-177 | both for every run from the empty registry: what happens to a live capability when its transaction aborts or commits, for good |
| StoCaps.InvokedInPhase | src/sto/ipc.c:123-140 | a successful invocation finds its transaction in the phase its mode asks for |
| StoCaps.OnlyOwnerMutates | src/sto/registry.c:55-68 | no message from another badge changes a transaction, and nothing changes a committed one |
| StoCaps.CommittedForever | src/sto/registry.c:137-145 | a transaction that commits with a CommitOnly capability holds its slot for good |
| Anomaly.TierCoversScore | src/anomaly/main.c:106-131 | in every run the applied tier covers the score and a promoted process is at tier 2, also after the 32-bit score has wrapped |
| Anomaly.ScoreIsExact | src/anomaly/main.c:106-190 | until the sum since the last reset reaches 2^32, score and tier are exactly those of the sum |
| Anomaly.SyncRepliesRise | src/anomaly/main.c:106-121 | within a tenancy the nonzero synchronous replies strictly increase |
| AnomalyGuest.SupervisorKeepsUp | src/orch/main.c:1503-1508 | an untrusted guest is at every tier the engine has applied, all through a history, if and only if there is no violation before the third while the engine has it at tier 2 and no order below the engine's tier |
| AnomalyGuest.LostForGood | src/anomaly/main.c:106-131 | a promoted guest's tier is moved by no report of its tenancy, so a promotion lost stays lost |
| AnomalyGuest.PromotionLost | src/lucas/dispatch.c:275-298 | one DNS trigger and one violation leave a fresh guest at tier 1 for the rest of its tenancy, with the engine at tier 2 |
| AnomalyGuest.TrustedIsPinned | src/lucas/functor.c:54-58 | no report, violation, quarantine or order above 0 ever moves a trusted guest |
| AnomalyGuest.TierDropsIff | src/lucas/functor.c:52-61 | a happening lowers the tier if and only if it is a violation by an untrusted guest above tier 1 (above tier 2 from the third violation on), a quarantine from above tier 2, or an order to a lower tier (for a trusted guest, to 0 or below) |
| AnomalyGuest.TierNeverDrops | src/lucas/anomaly.c:58-74 | the tier never goes down in a history if and only if no happening in it is one of those |
| AnomalyGuest.Sandbox.Set | src/lucas/functor.c:52-61 | the tier is set whatever it was, unless the guest is trusted and the tier above 0 |
| AnomalyGuest.Sandbox.Apply | src/lucas/anomaly.c:59-74 | a reply moves the tier up or not at all |
| AnomalyGuest.Sandbox.Violated | src/lucas/dispatch.c:275-298 | the counter goes up by one, modulo 2^32, and the tier becomes 1, or 2 from the third violation on; a trusted guest's stays |
| AnomalyRuns.SteadyNeverResets | src/anomaly/main.c:163-171 | a tenancy whose counts are nonzero and nondecreasing is never reset |
| AnomalyRuns.ZeroCountsReset | src/anomaly/main.c:165-171 | after n events with count 0 a genuine count c resets exactly when 0 < c < watermark + n |
| AnomalyRuns.MissedIff | src/anomaly/main.c:163-171 | a new process is never noticed if and only if none of its nonzero counts is below the watermark it meets |
| AnomalyRuns.MissedIsNeverScored | src/anomaly/main.c:106-121 | missed after a predecessor at tier 2 it inherits that tier in the engine, and none of its scored events is answered with a tier |
| AnomalyRuns.BurstClosedForm | src/anomaly/main.c:178-190 | n plain unlinks score n(n+1) up to the sixth and 12n - 30 from then on: tier 1 at the fourth, tier 2 at the sixth |
| AnomalyRuns.SpacedIsFlat | src/anomaly/main.c:173-197 | unlinks more than 8 scored events apart add exactly 2 each |
| AnomalyRuns.TiersByKind | src/anomaly/main.c:58-83 | tier 1 at the 20th write, 3rd exec or 2nd credential access; tier 2 at the 40th, 5th or 3rd |
| AnomalyRuns.TriggerIsInstant | src/anomaly/main.c:363-522 | a canary lookup, shellcode, curvature rules 1 and 2 and a connection off the 10.x net take an unpromoted process to tier 2 at once, with 40 points; any other rule, a local connection and a second trigger change nothing |
| AnomalyRuns.NewTenantIsFresh | src/anomaly/main.c:163-171 | a process taken for a new one is judged as a fresh one with the old byte counter |
| AnomalyRuns.BurstWindow | src/anomaly/main.c:173-190 | a burst goes on over up to 8 other scored events and ends with the ninth |
| AnomalyRuns.CredentialBurst | src/anomaly/main.c:178-190 | a burst of unlinks scores what a plain one does and 2 more for each credential or canary path |
| AnomalyRuns.NetAnswer | src/anomaly/main.c:288-346 | the answer to a send by destination, length and the bytes announced: redirect past 16384 off the local net, leave on it or for at most 256 bytes within the first 4096, refusal otherwise |
| AnomalyRuns.RedirectedIff | src/anomaly/main.c:323-346 | while nothing else raises it, a process is redirected exactly when a send of its off the local net comes with more than 16384 bytes announced |
| AnomalyRuns.PidZeroIsOnlyCounted | src/anomaly/main.c:288-317 | pid 0 is counted and judged by size, and never scored or promoted |
| AnomalyRuns.EgressBudget | src/anomaly/main.c:288-317 | until 2^32 bytes were announced at most 4096 left the local net with leave to commit, and at most 4352 more for each wrap of the counter |
| AnomalyRuns.BudgetAfterWrap | src/anomaly/main.c:291-293 | a run in which local sends wrap the counter and 8448 bytes get through, which is the bound |
| AnomalyRuns.RedirectsOnce | src/anomaly/main.c:323-346 | a redirect is answered at most once between resets |
| AnomalyEngine.Engine.ScoreFold | src/anomaly/main.c:106-121 | one pid's score and tier move as folded, no other pid's |
| AnomalyEngine.Engine.OnSync | src/anomaly/main.c:159-207 | reset, watermark, burst window and fold for one pid; a pid outside 1 to 15 changes nothing |
| AnomalyEngine.Engine.OnTrigger | src/anomaly/main.c:363-522 | tier 2 for one unpromoted pid of 1 to 15 on exactly those triggers, and otherwise nothing |
| AnomalyEngine.Engine.OnNet | src/anomaly/main.c:288-360 | the pre-commit rules in order; a 10.x destination always commits, for any pid |
| BlockDevice.Device.WriteBlock | src/sotfs/storage_virtio_blk.c:647-685 | the whole write, or the prefix that the sector transfers before the fault carried; out of range is refused untouched |
| BlockDevice.Device.ReadRange | src/lucas/backends_sysroot.c:30-44 | the sector loop returns exactly the range, or -5 when a sector cannot be read |
| BlockDevice.SectorsAre | src/lucas/backends_sysroot.c:30-44 | a read takes one transfer for each sector from that of the first byte to that of the last |
| BlockDevice.CompleteIff | src/sotfs/storage_virtio_blk.c:647-685 | a write is complete exactly if one transfer per sector and one more per partial sector succeed; otherwise it stops in front of a sector boundary or has not begun |
| BlockDevice.SectorRewrite | src/sotfs/storage_virtio_blk.c:657-667 | read-modify-write of a sector changes exactly the bytes given |
| RwBinFormat.HeaderRoundTrip | include/sotfs/rwbinstore.h:18-31 | the 1304-byte index written and read back is the same index, for every index |
| RwBinFormat.NameFoundIff | src/lucas/backends_rwbinstore.c:125-126 | a stored name answers to its first 63 bytes and to nothing else, so it is found again exactly if it has no more |
| RwBinStore.FreshInv | src/lucas/backends_rwbinstore.c:48-53 | a region without the magic is an empty store |
| RwBinStore.WriteKeeps | src/lucas/backends_rwbinstore.c:103-136 | a write that gets as far as the index sets its name's bytes and no other name's; one that fails earlier changes no name's bytes |
| RwBinStore.WriteStatus | src/lucas/backends_rwbinstore.c:103-136 | every way a write ends: nothing to write, no slot, no room, a fault in the data or in the index, success; and how memory and disk then go together |
| RwBinStore.FailedNewNameTakesSlot | src/lucas/backends_rwbinstore.c:112-122 | a new name whose write fails before the index keeps a nameless slot |
| RwBinStore.ReloadKeepsIff | src/lucas/backends_rwbinstore.c:32-68 | over a reload every name keeps its bytes if and only if the index can be read or there is no name |
| RwBinStore.ReloadStatus | src/lucas/backends_rwbinstore.c:32-68 | the index takes three sectors; reading it brings memory and disk together unless the disk is torn, failing to sets them apart |
| RwBinStore.FailedReloadThenWrite | src/lucas/backends_rwbinstore.c:43-136 | the first filed write after an unreadable index goes over the start of the data, and from then on memory and disk have that name alone |
| RwBinStore.RunHolds | src/lucas/backends_rwbinstore.c:32-147 | in every run of writes and reboots with faults in either, every name has its latest filed write since the last unreadable index, or what was saved before a readable one; live extents are 4 KiB-aligned, inside the region and disjoint |
| RwBinStore.FreshRunHolds | src/lucas/backends_rwbinstore.c:48-147 | and so from a region that was never written |
| RwBinStore.RunSurvivesReboot | src/lucas/backends_rwbinstore.c:138-147 | and, unless the disk is torn, a reader of the disk alone sees what was saved, which after a successful write is everything |
| RwBinTorn.TornReload | src/lucas/backends_rwbinstore.c:122-147 | after an index write that fails, a reload gives every other name its bytes, and the name written its new ones if its whole entry was on disk and its old ones otherwise; of a new name whose entry a sector boundary cuts, the part written stands for an empty file unless it is another's name |
| RwBinTorn.TornAfterSuccess | src/lucas/backends_rwbinstore.c:103-147 | and so for every write that fails after one that succeeded, whatever state the first one found |
| RwBinServer.Server.LazyInit | src/lucas/backends_rwbinstore.c:32-68 | the cached index, or the one on disk, or an empty one when it cannot be read, has no magic or an impossible count |
| RwBinServer.Server.Search | src/lucas/backends_rwbinstore.c:74-78 | the first counted entry with the name, or none |
| RwBinServer.Server.Read | src/lucas/backends_rwbinstore.c:82-98 | the name's bytes up to the buffer size, -5 exactly when the device fails within the sectors of that range, and the errors for no buffer and no such name |
| RwBinServer.Server.Write | src/lucas/backends_rwbinstore.c:103-136 | index in memory, device bytes and status become what the write function says, with faults anywhere |
| RwBinServer.Server.Reinit | src/lucas/backends_rwbinstore.c:138-147 | the cache is dropped and read again, or empty when the index cannot be read |
| Shm.RunInv | src/lucas/backends_shm.c:138-293 | in every run counts equal live handles, an unlinked object exists only while open, linked names are unique and frames held equal objects in use |
| Shm.HeldStays | src/lucas/backends_shm.c:269-293 | a live handle stays on its object through every operation but its own close, and the page changes only by writes through handles on that object |
| Shm.HeldThroughRun | src/lucas/backends_shm.c:297-333 | over a whole run, what a read through a handle returns is the range of the old page under exactly those writes |
| Shm.HeldSinceMount | src/lucas/backends_shm.c:138-333 | and so, with the counts right, for every handle that any run from the mount has opened |
| Shm.OpensByName | src/lucas/backends_shm.c:157-265 | an open gives a new handle on the object of that name, the one there was with its bytes, or a new one |
| Shm.OpenOutcome | src/lucas/backends_shm.c:157-265 | every way an open ends, by the name, the flags, the objects and handles in use and the memory, and what it leaves |
| Shm.CloseOutcome | src/lucas/backends_shm.c:269-293 | a close ends that handle alone, counts its object down, and gives it back with the last handle on an unlinked one; a second close does nothing |
| Shm.UnlinkOutcome | src/lucas/backends_shm.c:431-445 | an unlink takes the name away at once and touches no other object and no handle |
| Shm.TransferErrors | src/lucas/backends_shm.c:297-333 | EBADF for a dead handle, EINVAL for a negative cursor, end of file and EFBIG past the page, with nothing changed |
| Shm.WriteIsShared | src/lucas/backends_shm.c:297-333 | what is written through one handle is read back through every handle on the object and through no other |
| Shm.CreatedIsZero | src/lucas/backends_shm.c:197-229 | a created object starts zeroed in a slot no live handle is on |
| Shm.UnlinkAndRecreate | src/lucas/backends_shm.c:431-445 | after unlink and re-creation the old handle reads the old data and the new one zeros |
| Shm.NameLostIff | src/lucas/backends_shm.c:231-253 | a linked object is lost exactly by its unlink, or by an open of its name with the handle pool full while nobody holds it |
| ShmBackend.Backend.OpenObject | src/lucas/backends_shm.c:157-265 | lookup, EXCL, creation, EMFILE roll-back and handle as the open function says |
| ShmBackend.Backend.CloseHandle | src/lucas/backends_shm.c:269-293 | the handle goes, the count drops, and an unlinked object goes with the last one |
| ShmBackend.Backend.ReadObject | src/lucas/backends_shm.c:297-313 | the range of the held page up to its end, with the errors for dead handles and cursors |
| ShmBackend.Backend.WriteObject | src/lucas/backends_shm.c:317-333 | bytes land in the held page up to its end, with the errors for dead handles and cursors |
| ShmBackend.Backend.UnlinkName | src/lucas/backends_shm.c:431-445 | the name goes at once, the object when nobody holds it |
| SysrootPath.NormalisationLaws | src/lucas/backends_sysroot.c:132-136 | the four laws of path normalisation: ".", "x/..", ".." at the root, and a normal path |
| SysrootPath.JoinNormalisesIff | src/lucas/backends_sysroot.c:107-145 | for a path that fits the work buffer join_target is component-wise normalisation of parent and target if and only if the 64-name stack has caught up with the walk and the result is shorter than 192 characters; the stack never holds ".", ".." or an empty component |
| SysrootPath.MeantInDirectory | src/lucas/backends_sysroot.c:124-128 | for a link in a directory a relative target is walked from that directory |
| SysrootPath.JoinInto | src/lucas/backends_sysroot.c:114-145 | the token loop, its 64-segment stack and the truncating output loop |
| SysrootTree.Search | src/lucas/backends_sysroot.c:83-105 | an exact match wins wherever it is; only without one does the first match up to letter case |
| SysrootTree.ShortChainResolves | src/lucas/backends_sysroot.c:147-171 | at the end of a chain of at most 7 links: the first entry that matches exactly, else up to case, if it is no link; ENOENT exactly for no entry or an empty target, EIO exactly for an unreadable target; ELOOP after 8 links |
| SysrootTree.LoopIffLong | src/lucas/backends_sysroot.c:147-171 | ELOOP exactly for chains of 8 links or more |
| SysrootTree.CycleLoops | src/lucas/backends_sysroot.c:147-171 | every cycle of links is answered with ELOOP |
| SysrootTree.FindFollow | src/lucas/backends_sysroot.c:153-171 | the loop gives that entry or error for every chain of links from the path |
| SysrootTree.CutJoinFoundIff | src/lucas/backends_sysroot.c:107-145 | a join cut at 191 characters finds an entry if and only if some entry of 191 characters is, up to case, its beginning |
| SysrootTree.DeepJoinFoundIff | src/lucas/backends_sysroot.c:131-145 | a join that is not cut finds an entry if and only if some entry is, up to case, what the 64-name stack holds of it, and that is the place meant if and only if the stack has caught up with the walk |
| SysrootTree.DeepJoinStrays | src/lucas/backends_sysroot.c:132-137 | more than 64 names keep the first 64, and a ".." after them takes the 64th away instead of the last |
| SysrootListing.PickSlot | src/lucas/backends_sysroot.c:190-215 | a closed slot of the same file first, then one that stands for nothing, and another file's identity is given up only when there is neither |
| SysrootListing.ChildrenAre | src/lucas/backends_sysroot.c:499-510 | the listing has a record exactly for the entries one component below the directory, each once, in table order |
| SysrootListing.Getdents | src/lucas/backends_sysroot.c:486-526 | the longest run of records that fits, the position in front of the first that does not, and EINVAL with the rest of the listing intact |
| Dirents.ResumeLosesNothing | src/lucas/backends_sysroot.c:499-525 | for every sequence of buffer sizes, what was returned and what is left make up the listing |
| Dirents.ResumeEnds | src/lucas/backends_sysroot.c:499-525 | with buffers that hold the longest record everything is listed after at most as many calls as records |
| Dirents.SkipCompleteIff | src/lucas/backends_sotfs.c:1406-1445 | over any calls the graph's listing is complete if and only if the first buffer holds the whole directory; otherwise one record is missing for each call that stopped at one |
| SotfsListing.EntriesAre | src/lucas/backends_sotfs.c:1410-1430 | the listing has a record exactly for the edges of the directory the caller may see |
| SotfsListing.Getdents | src/lucas/backends_sotfs.c:1393-1448 | the longest run of records that fits; the cursor is already past the first that does not |
| Union.MergedAgreesIff | src/lucas/backends_union.c:18-67 | with names that fit their field and a buffer for all, the merge returns exactly the names a lookup finds if and only if no name is both in the upper layer and whitened |
| Union.BoundedAgreesIff | src/lucas/backends_union.c:45-67 | for distinct names at any bound they agree if and only if the bound falls just before the whitened names |
| Union.LongNameNeverListed | src/lucas/backends_union.c:26-34 | a name of more than 15 characters is never returned, whatever a lookup finds |
| Union.LongNamesRepeat | src/lucas/backends_union.c:26-67 | two base names that differ only after the 15th character come out as one repeated name |
| Union.MergedDistinct | src/lucas/backends_union.c:45-67 | layers without repeated names merge without repeated names, at any bound, when every name fits its field |
| Union.Merge | src/lucas/backends_union.c:47-67 | upper names first, then the base names neither whitened nor shadowed, cut to 15 characters and to the caller's bound |
| Wire.WordBytes | include/sotabi/wire.h:28-35 | at bit level, a packed word has each byte in its place and zero in the places past the end |
| Wire.UnpackPack | include/sotabi/wire.h:21-52 | unpacking what was packed gives the bytes back, for every chunk |
| Wire.PackChunk | include/sotabi/wire.h:21-40 | the clamped chunk at the offset, packed word by word |
| Wire.UnpackChunk | include/sotabi/wire.h:46-53 | the bytes of the words |
| Wire.RenderStream | src/sotabi/sotabi_client.c:35-63 | pulling from offset 0 by the returned count until 0 ends with the rendered buffer, byte for byte, for any length |

## Left out

- Hardware memory order: loads, stores and field writes are single steps of one sequence.
- seL4 calls, capability slots, page-frame mapping and virtio queues: a sector transfer either succeeds or fails.
- The write-ahead log, timestamps, functor hints, curvature values and trace output of the file server.
- rmdir and rename: they have no owner check in the source, so containment is stated for create, mkdir, open, close, write and unlink.
- The operator's accessors `lucas_sotfs_list_dir` and `lucas_sotfs_read_file` (`src/lucas/backends_sotfs.c:683-735`), which do not apply the visibility rule the containment theorem is about.
- The per-session byte quota; in the graph itself sizes and offsets are unbounded, and the 4 GiB check of a session's write is in ContainmentWrite.
- ContainmentWrite.CountIsHonestIff: does not cover the quota, which refuses a write that would grow a session's files past 32 MiB before it reaches the graph.
- SotfsOpen.OpenFilesStay: does not cover duplicating a handle that was closed already, nor operations on other files in between.
- A block store that is down (no disk blocks at all): the source then maps blocks without a disk block and drops their data.
- Parsing of path strings in the file graph: paths are sequences of components.
- The operator's unlinks, opens and closes while sessions are active: in ContainmentOperator the operator makes nodes and writes files.
- ContainmentShared.BystandersSeeNothing: does not cover a session that makes nodes in another session's directory, which path resolution in the source would let it do; the other's disconnect then takes them from their owner's view, and EndUnseenIff says exactly when.
- ContainmentRun.RunKeeps: does not cover a session closing the last handle on somebody else's unlinked file, which deletes that file; AnyRunIsInvisible and AllBystandersSeeNothing do, at every path, and LastCloseSeen shows where it is seen.
- ContainmentReap.SessionLeavesNothing: does not compare open counts, allocation hints or the pages of disk blocks no mapping refers to; those pages keep the session's bytes, and ContainmentDisk says when and to whom they show.
- SotfsFile.WriteIsPositional: does not hold for a disk with dirty free blocks; WriteOnAnyDisk says what is read then and SotfsHoles.PositionalIff when it still holds.
- BytePipeFrame.PushFrame: does not cover payloads of 2^32 - 8 bytes and more, for which RefusesIff shows that the size test passes; the source then copies past its staging buffer.
- BytePipe.LappedResumesOnNewest: does not cover a lapped consumer whose newest 65472 bytes straddle a cursor wrap; by DeliveryIffSafe those bytes are not all in the ring.
- RwBinStore.RunSurvivesReboot: does not say what is read back once the disk is torn; TornReload does for the write that tears it, but not for several in a row, nor for a data write that fails while the index in memory is not the disk's.
- RwBinTorn.TornReload: does not cover the first index write over a region that held other data, of which the entries not yet overwritten would be read.
- RwBinStore.RunHolds: does not cover names of 64 bytes and more, which the source stores cut short and then does not find, by NameFoundIff.
- RwBinStore.WriteName: does not model a 64-bit overflow of the allocation cursor read from a forged index.
- RwBinServer.Server.Read: does not cover an index whose extents lie outside the device, which only a forged index has.
- AnomalyGuest.SupervisorKeepsUp: does not cover a reply that arrives after the guest's slot has gone; the source drops it.
- The tier messages from the suspicion engine to the process server, and which slot they go to.
- Handle open, close and read of /usr files apart from the choice of a handle slot; the image header and table are taken as loaded.
- Hidden root names and record types in directory listings are a parameter, or left out of the record.
