# Proofs about the Meizu PRO 5 device repository

A model, in Dafny, of the parts of this repository that carry real logic, with proofs of what they promise. The model has
one module per part.

* **The ramdisk rewriter** (`Bytes`, `Hex`, `Newc`, `NewcParse`, `NewcGuard`, `NewcInspect`, `NewcLayout`, `Utf8`,
  `RamdiskEdit`, `RamdiskPipeline`, `RamdiskEffect`, `RamdiskContent`): cpio "newc" archives are printed, parsed, edited and compared. Parsing and printing
  are inverse up to a letter-case flag, the byte-identity test is characterised exactly, and a whole run is shown to do
  what it was asked and nothing else.
* **The boot image packer** (`BootImage`, `BootImageContent`): packing and reading are inverse, and every byte of
  an image is accounted for; repacking gives what was asked for, is idempotent and, under an exact condition, the identity.
  SHA-1 is any function to 20 bytes.
* **The RIL event loop** (`RilTime`, `RilEventLoop`): two intrusive circular lists and a table of watched events, updated in
  place, with callbacks that call back into the loop.
* **The waitable thread queue**: what its calls mean (`ThreadQueueSpec`), its heap as seen under the mutex (`ThreadQueue`),
  its protocol between threads (`ThreadQueueProtocol`), where any interleaving of steps is a run, and the proof that the
  heap holds what the protocol says (`ThreadQueueRefinement`).
* **RIL requests and the wake lock** (`RilPendingList`, `RilRequests`, `RilRefinement`, `RilWakeLock`): pending lists changed
  in place, replies over every interleaving of lock-protected steps, the proof that the lists hold what those steps say, and
  the timer that gives the wake lock back.
* **libfprint** (`FpEnroll`, `FpPrintData`, `FpMatch`, `FpImage`): enrolment, the stored form of a print, matching for an
  arbitrary score, and images turned and flipped in place.
* **Byte search and audio parameters** (`ByteSearch`, `DirectoryWalk`, `AudioParameters`, `AudioHifi`): a search by chunks
  and a walk over a graph of directories; key-value strings rewritten into a bounded buffer, and the HiFi policy that
  depends on them.

`Arithmetic`, `Lists` and `Bytes` hold what several modules share. Whatever the program reads from outside (files, the clock, the
vendor's answers, `malloc`, `select`, scheduling) is an input of the model. `dafny verify dfyconfig.toml` checks everything.

Where the code and its comments or documentation differ, the model follows the code:

* The inspector accepts pages of 512 bytes and more, the packer only pages of at least 1632.
* `processTimeouts` says it fires timers with `now >= timeout`; it compares with `>`. Timers with equal deadlines fire in
  the reverse of the order they were added in. `ril_event_add` drops an event silently when the table is full. With no
  descriptor watched, `nfds` is 0 at first and 1 after the last one is removed.
* `threadqueue.h` promises `EINVAL` for a null queue from `thread_queue_add`, which does not test for it.
* `issueLocalRequest` tests `SIM_COUNT == 2` where every other function tests `SIM_COUNT >= 2`: with three or four sockets
  a local request on a later socket is put in the first list and can never be completed.
* A failing unsolicited response releases the wake lock even while the timer of an earlier message is pending.
* A HiFi state that the vendor refuses after a change of device leaves the stream as it was, even on
  over the speaker; the call that changed the device still reports success.
* After a negative code from the driver, `fp_enroll_finger_img` resets its own stage but not the imaging device's.
* Identification compares each score, verification the best of 0 and all scores: they differ for thresholds below 1. And
  identification never looks at the kind of a gallery print: it can match one that verification answers with RETRY.
* `m86_set_parameters` keeps a new user switch even when it then refuses the call for a malformed gain.

## Model

| member | source | states |
|---|---|---|
| `Bytes.AlignShift` | tools/rewrite-newc-ramdisk.py:23-24 | alignment commutes with moving by whole boundaries, so a record may be laid out from offset 0 |
| `Hex.ParseFormatField` | tools/rewrite-newc-ramdisk.py:109-112 | a field printed in eight characters is read back as itself, in either letter case, exactly when it is above -2^28 and below 2^32 |
| `Hex.FormatParseField` | tools/rewrite-newc-ramdisk.py:136-140 | printing a field that was read gives the eight characters back exactly when they are spelled canonically: one letter case, and after a minus sign no leading zero |
| `Hex.FormatFieldLength` | tools/rewrite-newc-ramdisk.py:109-112 | a field prints in exactly eight characters exactly when it fits, and never in fewer |
| `Hex.FieldSpelling` | tools/rewrite-newc-ramdisk.py:109-112 | a field holds the hexadecimal digits of its number, the highest first, in the case asked for; of a negative one, a minus sign and seven digits |
| `Newc.RecordsAligned` | tools/rewrite-newc-ramdisk.py:188-198 | every run of records is a multiple of four bytes long |
| `Newc.AppendRecord` | tools/rewrite-newc-ramdisk.py:190-196 | appending to an output of whole records, with padding to absolute offsets, appends the record of that entry alone |
| `Newc.Serialize` | tools/rewrite-newc-ramdisk.py:188-198 | the loop over a growing output prints the records of the entries and then the tail |
| `Newc.SerializedReplaceOne` | tools/rewrite-newc-ramdisk.py:188-198 | replacing one entry leaves the bytes of all other records and of the tail as they were |
| `Newc.CanonicalHeader` | tools/rewrite-newc-ramdisk.py:92-112 | a header does not depend on the letter-case flag of an entry none of whose digits is a letter |
| `Newc.FieldsCase` | tools/rewrite-newc-ramdisk.py:109-112 | the digits of printed fields contain an upper-case letter only with the flag, and are the same in both cases when they contain no letter |
| `NewcLayout.RecordFields` | tools/rewrite-newc-ramdisk.py:92-112 | each of the thirteen numbers, by name, stands at its own eight bytes of the printed record; the check field is 0 or, for 070702, the sum of the data bytes modulo 2^32 |
| `NewcLayout.SumLaws` | tools/rewrite-newc-ramdisk.py:93-93 | that sum is the byte itself for one byte, and adds up over concatenation |
| `NewcParse.Parse` | tools/rewrite-newc-ramdisk.py:120-186 | the parser loop, with its error cases in the source's order, computes the recursive parse of the payload |
| `NewcParse.RecordLayout` | tools/rewrite-newc-ramdisk.py:145-163 | where the name, its NUL, the data and both paddings lie inside a printed record |
| `NewcParse.ParseRecordOfRecord` | tools/rewrite-newc-ramdisk.py:127-180 | a printed record of a fitting entry parses at any aligned offset to that entry and to the offset behind it, up to the case flag |
| `NewcLayout.ParsedFields` | tools/rewrite-newc-ramdisk.py:127-173 | every parsed entry has each number, by name, from its own eight bytes, its name, NUL and data from the bytes behind, and the flag exactly if a digit is a capital letter |
| `NewcLayout.EntriesAreRead` | tools/rewrite-newc-ramdisk.py:120-186 | every entry of a parsed archive is read so at some offset |
| `Utf8.ValidUtf8Iff` | tools/rewrite-newc-ramdisk.py:151-156 | a name decodes exactly when it is the encoding of a string of Unicode scalar values |
| `NewcParse.ParseFromRecords` | tools/rewrite-newc-ramdisk.py:120-186 | printed records with unseen names, the last one the trailer, parse to those entries and leave the tail |
| `NewcParse.ParseSerialized` | tools/rewrite-newc-ramdisk.py:120-198 | parsing a printed well-formed archive gives the archive, its case flag kept only where a header digit is a letter |
| `NewcParse.ParseSerializedIsIdentity` | tools/rewrite-newc-ramdisk.py:120-198 | it gives back the very same archive exactly when every entry's case flag shows in its digits |
| `NewcParse.SerializeParseSerialize` | tools/rewrite-newc-ramdisk.py:120-198 | printing, parsing and printing again is printing once |
| `NewcGuard.CleanRecordIff` | tools/rewrite-newc-ramdisk.py:127-180 | the bytes of a parsed record are the print of its entry exactly when they are clean: canonical fields, the checksum that belongs to the magic, zero padding |
| `NewcGuard.GuardIff` | tools/rewrite-newc-ramdisk.py:479-480 | the byte-identity test lets through exactly the payloads all of whose records are clean |
| `NewcGuard.ParsedIsWellFormed` | tools/rewrite-newc-ramdisk.py:120-186 | whatever parses has distinct names, exactly its last entry named TRAILER!!!, UTF-8 names and fields that fit |
| `NewcGuard.GuardedInverse` | tools/rewrite-newc-ramdisk.py:477-480 | a payload that passes the test and the archive it gives determine each other |
| `NewcGuard.ParseSerializedIff` | tools/rewrite-newc-ramdisk.py:120-198 | a printed archive reads back as itself, up to the case flag, exactly when it is well-formed |
| `NewcInspect.ParseNewcArchive` | tools/inspect-android-boot-image.py:112-158 | the inspector's loop and dictionary compute its recursive form |
| `NewcLayout.NormalizedIs` | tools/inspect-android-boot-image.py:154-154 | a leading ./ goes, then a leading /; any other name is left alone |
| `NewcInspect.RecordsAgree` | tools/inspect-android-boot-image.py:116-156 | the inspector's checks of one record and the rewriter's give the same error, or the same name, data and next offset |
| `NewcInspect.InspectAgrees` | tools/inspect-android-boot-image.py:112-158 | the inspector accepts a payload exactly when the rewriter's parser does and no two non-trailer names normalise to the same; then its map is exactly normalised name to data |
| `NewcInspect.FileMapAt` | tools/inspect-android-boot-image.py:154-157 | with distinct normalised names, every file's normalised name is mapped to that file's data |
| `RamdiskEdit.CopiedArchive` | tools/rewrite-newc-ramdisk.py:218-260 | the loop with its insertion point, index and next inode computes the copy, or its first error |
| `RamdiskEdit.CopyStepsForm` | tools/rewrite-newc-ramdisk.py:230-258 | copying succeeds exactly when the donor has every path, and then overlays base entries in place and puts the others, in list order with consecutive inodes, before the trailer |
| `RamdiskEdit.DataReplacedArchive` | tools/rewrite-newc-ramdisk.py:301-326 | the replacement loop computes the replacements, or its first error |
| `NewcLayout.IsRegularIs` | tools/rewrite-newc-ramdisk.py:313-313 | a mode is that of a regular file exactly if its file type bits say so, whatever the other bits |
| `RamdiskEdit.ReplaceStepsForm` | tools/rewrite-newc-ramdisk.py:308-324 | replacing succeeds exactly when every target is a present regular file other than the trailer with a readable source, and then changes data only, of the targets only |
| `RamdiskEdit.DeletedArchive` | tools/rewrite-newc-ramdisk.py:263-298 | the deletion checks in order, then the surviving entries in order |
| `RamdiskEdit.KeptMembers` | tools/rewrite-newc-ramdisk.py:293-295 | the survivors are exactly the entries whose path is not deleted |
| `RamdiskEdit.KeptDistinct` | tools/rewrite-newc-ramdisk.py:293-295 | survivors of distinct names have distinct names |
| `RamdiskEdit.DeletionKeepsParents` | tools/rewrite-newc-ramdisk.py:282-291 | after a successful deletion, every surviving entry still has each ancestor directory that was present before |
| `RamdiskPipeline.NoDifferenceIff` | tools/rewrite-newc-ramdisk.py:349-384 | the comparison reports no difference exactly when the archives are equal |
| `RamdiskPipeline.ValidRequestIff` | tools/rewrite-newc-ramdisk.py:443-463 | a request is accepted exactly when it names a path, and no path twice in all its lists together |
| `RamdiskPipeline.AdditionsAre` | tools/rewrite-newc-ramdisk.py:235-244 | the additions are the copied paths the base lacks, each the donor's entry with the next inode, none twice |
| `RamdiskPipeline.EditedIsOneStep` | tools/rewrite-newc-ramdisk.py:502-514 | copy, replace and delete go through exactly when the request is feasible for the base as it was: donor paths present, targets replaceable, deleted paths present with one link and no child left, copied ones included, and not the trailer; then together they are one edit: survivors edited in place, the additions, the trailer |
| `RamdiskPipeline.FeasibleDeletes` | tools/rewrite-newc-ramdisk.py:281-291 | a feasible request deletes only paths of the base, and whatever remains or is copied in keeps every ancestor directory that was there |
| `RamdiskEffect.OneStepIsWellFormed` | tools/rewrite-newc-ramdisk.py:502-514 | the result has distinct names and its trailer last |
| `RamdiskEffect.Survivor` | tools/rewrite-newc-ramdisk.py:293-295 | an entry that is not deleted is in the result under its name, edited and nothing else |
| `RamdiskEffect.EditedEntryTouches` | tools/rewrite-newc-ramdisk.py:246-257 | an entry's data changes only if it was to be copied or replaced, its metadata only if it was to be copied |
| `RamdiskEffect.ReportOfOneStep` | tools/rewrite-newc-ramdisk.py:363-384 | the report removes the delete set, adds the copied paths the base lacked, and lists changes only of paths that were named |
| `RamdiskEffect.SameOrderIff` | tools/rewrite-newc-ramdisk.py:382-382 | the report says the order is unchanged exactly when nothing was added or removed |
| `RamdiskEffect.AddedInodesAreNew` | tools/rewrite-newc-ramdisk.py:228-238 | added entries have inodes above all others, increasing by one |
| `RamdiskEffect.WellFormedIffFits` | tools/rewrite-newc-ramdisk.py:502-514 | the result is well-formed exactly when the last added inode and every data size stay below 2^32 |
| `RamdiskEffect.RunSucceedsIff` | tools/rewrite-newc-ramdisk.py:439-523 | a run succeeds exactly when both payloads pass the byte-identity test and the request is valid and feasible for the base |
| `RamdiskEffect.RunIsOneStep` | tools/rewrite-newc-ramdisk.py:439-523 | a successful run read its base byte for byte and wrote the print of the one-step edit of it |
| `RamdiskEffect.RunEffect` | tools/rewrite-newc-ramdisk.py:439-523 | what any successful run removes, adds, changes and reports, that no remaining entry loses an ancestor directory, and exactly when the output parses back to the result |
| `RamdiskContent.RunCopies` | tools/rewrite-newc-ramdisk.py:230-258 | after a run every copied path has the donor's data, mode, uid, gid, links, mtime and device numbers; magic, letter case, inode and device stay where the base had the path, else the entry is the donor's with a new inode |
| `RamdiskContent.RunReplaces` | tools/rewrite-newc-ramdisk.py:308-324 | after a run every replaced path holds the bytes of its source and is otherwise the base's entry |
| `RamdiskContent.RunKeeps` | tools/rewrite-newc-ramdisk.py:293-295 | an entry the request does not name is in the result as it was |
| `RamdiskContent.RunOrder` | tools/rewrite-newc-ramdisk.py:228-245 | the paths of the result are the survivors in base order, then the new paths in argument order, then the trailer |
| `RamdiskContent.RunReports` | tools/rewrite-newc-ramdisk.py:349-384 | the report of a run lists exactly the paths of the base whose bytes the donor's entry or the source really changes, and exactly those whose metadata the donor's entry changes |
| `BootImage.ValidPageSizeIff` | tools/repack-android-boot-image.py:65-66 | the bit test accepts exactly the powers of two of at least 1632 bytes |
| `BootImageContent.ReadIff` | tools/repack-android-boot-image.py:44-77 | an image is read exactly when it begins with the magic, its page size is a power of two of at least 1632 and its padded sections are all there |
| `BootImageContent.ReadIs` | tools/repack-android-boot-image.py:49-93 | every number of an image read is the little-endian word at its own offset, every text field and section the bytes at its place |
| `BootImage.ReadPacked` | tools/repack-android-boot-image.py:44-93 | reading a packed image gives the four components and the base fields back, for every such page and all sizes below 2^32 |
| `BootImageContent.PackedIs` | tools/repack-android-boot-image.py:178-203 | a packed image has them there, and zeros in between |
| `BootImage.PackedReadIff` | tools/repack-android-boot-image.py:44-93 | packing what was read is the input exactly when every padding byte is zero and nothing trails |
| `BootImage.RepackedReads` | tools/repack-android-boot-image.py:160-203 | a repacked image reads as the base with the components replaced and its image ID stamped |
| `BootImageContent.RepackedHolds` | tools/repack-android-boot-image.py:165-203 | a repacked image, read again, has each component given, the kernel of another image if asked for, all else from the base, and as identifier the digest of its own components and lengths, spelled out, with twelve zeros |
| `BootImageContent.RepackedIff` | tools/repack-android-boot-image.py:160-203 | repacking succeeds exactly when the images read, a scheme is given or recognised in the base, and no component is 2^32 bytes or longer |
| `BootImage.RepackIdempotent` | tools/repack-android-boot-image.py:160-203 | repacking without replacements under the automatic scheme, done twice, is the same as once |
| `BootImage.RepackIdentityIff` | tools/repack-android-boot-image.py:160-203 | it is byte-identical to its input exactly when padding is zero and there is no trailing data |
| `BootImage.OutputSchemeDetected` | tools/repack-android-boot-image.py:121-131 | what was packed under a scheme is detected again, as the first scheme that gives the same identifier |
| `BootImageContent.IdentifiersDiffer` | tools/repack-android-boot-image.py:96-118 | with a digest that has no collisions, two identifiers of one scheme are equal exactly when all four components are |
| `BootImage.RamdiskReadersAgree` | tools/rewrite-newc-ramdisk.py:41-58 | on images the packer reads, the ramdisk tool extracts the same ramdisk |
| `BootImage.LayoutsAgreeIff` | tools/inspect-android-boot-image.py:288-306 | the inspector lays sections out where the packer does exactly when a page holds the header |
| `BootImage.InspectorAcceptsMore` | tools/inspect-android-boot-image.py:290-291 | the inspector accepts every page size the packer does, and besides them exactly 512 and 1024 |
| `RilTime.TimerLessIsMicros` | legacy/device-meizu-m86-cm14/libril/ril_event.cpp:49-54 | comparing seconds, then microseconds, is comparing the times in microseconds |
| `RilTime.TimerArithmetic` | legacy/device-meizu-m86-cm14/libril/ril_event.cpp:37-66 | one carry or borrow keeps microseconds below 1000000 and gives the exact sum or difference |
| `RilEventLoop.AddToList` | legacy/device-meizu-m86-cm14/libril/ril_event.cpp:112-119 | an event linked before the k-th node stands at place k of a well-formed ring; a ring apart from it stays as it is |
| `RilEventLoop.RemoveFromList` | legacy/device-meizu-m86-cm14/libril/ril_event.cpp:121-131 | the ring without its k-th node is well-formed, the event is unlinked, a ring apart stays as it is |
| `RilEventLoop.ReadyCount` | legacy/device-meizu-m86-cm14/libril/ril_event.cpp:187-196 | with distinct descriptors there are as many ready events as ready watched descriptors |
| `RilEventLoop.ReadyAll` | legacy/device-meizu-m86-cm14/libril/ril_event.cpp:187-196 | stopping once the count of select is used up misses no ready event |
| `RilEventLoop.EventLoop.constructor` | legacy/device-meizu-m86-cm14/libril/ril_event.cpp:241-249 | empty rings, an empty table and no descriptors |
| `RilEventLoop.EventLoop.Add` | legacy/device-meizu-m86-cm14/libril/ril_event.cpp:265-283 | the event takes the first free slot, its descriptor joins the set and bounds nfds; on a full table nothing changes |
| `RilEventLoop.EventLoop.RemoveWatch` | legacy/device-meizu-m86-cm14/libril/ril_event.cpp:134-156 | the slot is freed and the descriptor leaves the set, with nfds again one above the largest left |
| `RilEventLoop.EventLoop.Unwatch` | legacy/device-meizu-m86-cm14/libril/ril_event.cpp:134-156 | the same with every invariant of the table kept: slot and index agree, the set is exactly the watched descriptors |
| `RilEventLoop.EventLoop.Del` | legacy/device-meizu-m86-cm14/libril/ril_event.cpp:315-329 | an unwatched event is left alone, a watched one is unwatched |
| `RilEventLoop.EventLoop.FindPlace` | legacy/device-meizu-m86-cm14/libril/ril_event.cpp:301-305 | the search stops behind exactly the timers due earlier |
| `RilEventLoop.EventLoop.TimerAdd` | legacy/device-meizu-m86-cm14/libril/ril_event.cpp:286-312 | the deadline is now plus the interval, and the timer goes before every timer not due earlier, so the list stays sorted |
| `RilEventLoop.EventLoop.ProcessTimeouts` | legacy/device-meizu-m86-cm14/libril/ril_event.cpp:158-180 | exactly the timers whose deadline is before now become pending, in deadline order |
| `RilEventLoop.EventLoop.ProcessReadReadies` | legacy/device-meizu-m86-cm14/libril/ril_event.cpp:182-200 | exactly the watched events whose descriptor is ready become pending, in slot order; those that do not persist leave the table and have no slot index any more, every other event keeps its own |
| `RilEventLoop.EventLoop.FirePending` | legacy/device-meizu-m86-cm14/libril/ril_event.cpp:202-213 | every pending event fires once, in order, and none is left; no queued timer is lost or moved to another deadline, no watched event leaves its slot or descriptor unless a callback deletes it, and only what callbacks ask for is new |
| `RilEventLoop.EventLoop.CalcNextTimeout` | legacy/device-meizu-m86-cm14/libril/ril_event.cpp:215-238 | no wait without timers; otherwise a wait that reaches past no queued deadline and ends at the earliest |
| `RilEventLoop.EventLoop.Perform` | legacy/device-meizu-m86-cm14/libril/ril_event.cpp:202-213 | a call from a callback, made in a state its callee allows, puts its event in a free slot if there is one, out of its slot, or at its place among the timers with the new deadline; no other event changes its descriptor, deadline, flag, slot or links outside the timer list, and any other call changes nothing at all |
| `RilEventLoop.EventLoop.RunCallback` | legacy/device-meizu-m86-cm14/libril/ril_event.cpp:202-213 | over all calls of one callback queued timers keep their deadlines and watched events their slots and descriptors unless deleted; new ones were asked for; no flag changes, and a descriptor only when its event is made a timer |
| `RilEventLoop.EventLoop.RunPass` | legacy/device-meizu-m86-cm14/libril/ril_event.cpp:377-382 | one iteration fires every expired timer, then every ready watched event, all different, and leaves nothing pending; ready events that do not persist are unwatched; all other timers stay queued and all other events stay watched on their descriptors, but for what callbacks delete |
| `RilEventLoop.EventLoop.WhatFires` | legacy/device-meizu-m86-cm14/libril/ril_event.cpp:158-200 | timers and watched events are told apart by their descriptors, so in a pass a timer fires only for its deadline and a watched event exactly when its own descriptor is ready |
| `RilEventLoop.EventLoop.AttendRound` | legacy/device-meizu-m86-cm14/libril/ril_event.cpp:377-382 | seen from one event: a timer fires in a pass exactly if overdue and else stays queued with its deadline; a watched event not deleted fires exactly if ready, and stays watched if it was not or persists; one that was ready, does not persist and that no call is about fires once and is neither watched nor queued |
| `RilEventLoop.EventLoop.Run` | legacy/device-meizu-m86-cm14/libril/ril_event.cpp:345-384 | over any run both lists stay well-formed and apart, the timers sorted, the table, the descriptor set and nfds in agreement; a timer queued at the start has fired exactly if a served round came after its deadline, and an undeleted watched event exactly if it was ready in one, each else being where it was; one that does not persist, was ready and that no callback touches has fired exactly once and is watched no more; the descriptors waited for are those of the watched events |
| `ThreadQueue.WaitQueue.LiveNodes` | legacy/device-meizu-m86-cm14/immvibe/threadqueue.c:17-50 | the heap holds exactly length plus pool length nodes |
| `ThreadQueue.WaitQueue.GetMsglist` | legacy/device-meizu-m86-cm14/immvibe/threadqueue.c:17-30 | a spare node if there is one, else a new one, else null when memory runs out, which changes nothing |
| `ThreadQueue.WaitQueue.ReleaseMsglist` | legacy/device-meizu-m86-cm14/immvibe/threadqueue.c:32-50 | the node is pooled or freed, and a pool far too large gives one node back, each exactly as the lengths say; the pool stays within an eighth of the largest length plus 65 |
| `ThreadQueue.WaitQueue.Add` | legacy/device-meizu-m86-cm14/immvibe/threadqueue.c:74-102 | the message is appended, or the call fails for memory and the queue is as before; both lists stay exact and disjoint, and the largest length so far is kept up to date |
| `ThreadQueue.WaitQueue.Get` | legacy/device-meizu-m86-cm14/immvibe/threadqueue.c:125-159 | the first message is returned with the length left, or the call timed out and nothing changed |
| `ThreadQueue.WaitQueue.Cleanup` | legacy/device-meizu-m86-cm14/immvibe/threadqueue.c:162-193 | every live node is freed exactly once and the data of exactly the queued messages, in order; spare nodes hold NULL |
| `ThreadQueue.RunQueue` | legacy/device-meizu-m86-cm14/immvibe/threadqueue.c:74-159 | over any run of calls the heap holds the queue and the number of spare nodes that replaying the calls on values gives, what was added is what was returned followed by what is queued, and the pool is at most an eighth of the largest length the run reached plus 65 |
| `ThreadQueueSpec.ReleasedIs` | legacy/device-meizu-m86-cm14/immvibe/threadqueue.c:32-50 | a released node joins the pool exactly up to an eighth of the length plus 64 spare nodes, and the pool loses one exactly above a quarter plus 640; the two tests never both act |
| `ThreadQueueSpec.PoolBound` | legacy/device-meizu-m86-cm14/immvibe/threadqueue.c:32-50 | over any calls the spare nodes number at most an eighth of the largest length so far plus 65 |
| `ThreadQueueSpec.AddedIsGotAndQueued` | legacy/device-meizu-m86-cm14/immvibe/threadqueue.c:74-159 | over any calls what was added is what was returned followed by what is queued |
| `ThreadQueueProtocol.StepKeepsInvariant` | legacy/device-meizu-m86-cm14/immvibe/threadqueue.c:74-159 | under any interleaving of steps one thread at a time holds the mutex, length counts the queue except inside add, and nobody waits on a queue with messages except just before the first broadcast |
| `ThreadQueueProtocol.NoLostWakeup` | legacy/device-meizu-m86-cm14/immvibe/threadqueue.c:95-97 | whenever the mutex is free and there is a message, no thread is left waiting un-notified, although add broadcasts only at length 0 |
| `ThreadQueueProtocol.FirstInFirstOut` | legacy/device-meizu-m86-cm14/immvibe/threadqueue.c:83-93 | the messages returned are a prefix of those added in lock order, and the rest is queued |
| `ThreadQueueProtocol.BroadcastOnFirstSuffices` | legacy/device-meizu-m86-cm14/immvibe/threadqueue.c:95-96 | broadcasting on every add would lead to the same state |
| `ThreadQueueProtocol.CallsExplainRun` | legacy/device-meizu-m86-cm14/immvibe/threadqueue.c:74-159 | whatever threads do, queue, pool and history are those of whole calls made one after the other, in the order they took effect |
| `ThreadQueueProtocol.OthersMakeNoDifference` | legacy/device-meizu-m86-cm14/immvibe/threadqueue.c:80-102 | while a thread holds the mutex, steps of others make no difference to it or to the queue |
| `ThreadQueueProtocol.AddIsQueued` | legacy/device-meizu-m86-cm14/immvibe/threadqueue.c:74-102 | an add that locks the mutex and gets a node puts its message last and counts it, whatever steps others take between its own |
| `ThreadQueueProtocol.GetIsServed` | legacy/device-meizu-m86-cm14/immvibe/threadqueue.c:125-156 | a thread inside get that locks the mutex while there is a message takes the oldest one, whatever steps others take between its own |
| `ThreadQueueProtocol.NothingTaken` | legacy/device-meizu-m86-cm14/immvibe/threadqueue.c:127-139 | a get that timed out, and an add without a node, unlock with queue, pool and history untouched, even if a message is there and others take steps before |
| `ThreadQueueRefinement.HeapOfRun` | legacy/device-meizu-m86-cm14/immvibe/threadqueue.c:74-159 | for every interleaving the heap after the calls that took effect holds the threads' queue, with the same pool, history and, whenever the mutex is free, length |
| `RilPendingList.PendingList.Insert` | legacy/device-meizu-m86-cm14/libril/ril.cpp:567-574 | the request stands first in its list |
| `RilPendingList.PendingList.CancelAll` | legacy/device-meizu-m86-cm14/libril/ril.cpp:3938-3952 | every request of the list is marked cancelled, and the list is unchanged |
| `RilPendingList.PendingList.Dequeue` | legacy/device-meizu-m86-cm14/libril/ril.cpp:4672-4720 | a pending request is unlinked and reported found; any other pointer changes nothing, and no mark of cancellation changes |
| `RilRequests.ListOfIs` | legacy/device-meizu-m86-cm14/libril/ril.cpp:501-530 | each of up to four sockets compiled in has its own list, any other uses the first |
| `RilRefinement.PendingLists.Dequeue` | legacy/device-meizu-m86-cm14/libril/ril.cpp:4672-4720 | on the lists of all sockets at once: the request is unlinked from the one list, the others are untouched, and no two share a request |
| `RilRequests.LocalListIsOwn` | legacy/device-meizu-m86-cm14/libril/ril.cpp:457-462 | a local request is put in its own socket's list exactly when at most two sockets are compiled in, or on the first socket |
| `RilRequests.StepKeepsInvariant` | legacy/device-meizu-m86-cm14/libril/ril.cpp:493-578 | every lock-protected step keeps: a pending request is in one list once and unanswered, a reply belongs to its request |
| `RilRequests.AnsweredUnlessClosed` | legacy/device-meizu-m86-cm14/libril/ril.cpp:4723-4802 | over every run, a supported command whose completion runs is answered exactly if its list was not closed while it was pending; what others do between the two sections of the completion, or later, makes no difference |
| `RilRequests.PendingUntilTaken` | legacy/device-meizu-m86-cm14/libril/ril.cpp:3938-3952 | a pending request stays in its list until it is completed, and is cancelled exactly if its list is closed meanwhile |
| `RilRequests.AtMostOneReply` | legacy/device-meizu-m86-cm14/libril/ril.cpp:4723-4802 | over every run a request gets at most one reply, with its own token and on its own socket, and a local one gets none |
| `RilRequests.PendingInOwnListIff` | legacy/device-meizu-m86-cm14/libril/ril.cpp:513-530 | over every run a pending request is in one list only, its own socket's exactly when it was not a local request on a later socket of three or four |
| `RilRequests.ClosedIsNeverAnswered` | legacy/device-meizu-m86-cm14/libril/ril.cpp:3911-3953 | a request pending when its socket closes is never answered, whatever follows |
| `RilRequests.CompletedOnce` | legacy/device-meizu-m86-cm14/libril/ril.cpp:1707-1729 | completing a pending request answers it unless it is local or cancelled; completing it again does nothing, at any later time |
| `RilRequests.AstrayStays` | legacy/device-meizu-m86-cm14/libril/ril.cpp:447-489 | a local request put in another socket's list stays there for good and can never be completed |
| `RilRequests.LocalRequestGoesAstray` | legacy/device-meizu-m86-cm14/libril/ril.cpp:457-462 | with three sockets, the first local request on the second goes astray |
| `RilRefinement.Ril.Perform` | legacy/device-meizu-m86-cm14/libril/ril.cpp:493-578 | every step of the protocol, performed on the linked lists, leaves them as the protocol says |
| `RilRefinement.HeapOfRun` | legacy/device-meizu-m86-cm14/libril/ril.cpp:4723-4802 | for every interleaving the linked lists hold the pending requests in order, the marks are on the cancelled ones, and the replies are those of the protocol |
| `RilWakeLock.WakeLock.Schedule` | legacy/device-meizu-m86-cm14/libril/ril.cpp:5073-5082 | the previous timer is cancelled and a new one, due 200 ms later, is the only live one |
| `RilWakeLock.WakeLock.OnUnsolicitedResponse` | legacy/device-meizu-m86-cm14/libril/ril.cpp:4991-5091 | a successful waking message holds the lock and starts the 200 ms anew; a failing one drops the lock at once, timers or not; any other leaves lock and timers alone |
| `RilWakeLock.WakeLock.OnRadioStateChanged` | legacy/device-meizu-m86-cm14/libril/ril.cpp:5030-5082 | the messages sent on the way leave one live timer, the outer message's own, and the lock held exactly when the last waking one of them did not fail |
| `RilWakeLock.WakeLock.Fire` | legacy/device-meizu-m86-cm14/libril/ril.cpp:4337-4351 | only the last timer gives the lock back, and only more than 200 ms after it was scheduled |
| `RilWakeLock.WakeLock.Timeouts` | legacy/device-meizu-m86-cm14/libril/ril.cpp:4818-4824 | a pass over the overdue timers gives the lock back exactly when the last one is overdue |
| `RilWakeLock.FailedAfterAllIff` | legacy/device-meizu-m86-cm14/libril/ril.cpp:5087-5090 | the lock counts as dropped exactly when the last message that wakes failed |
| `RilWakeLock.FailureDropsLock` | legacy/device-meizu-m86-cm14/libril/ril.cpp:5087-5090 | a succeeding and then a failing waking message leave a timer pending and the lock counted as dropped |
| `RilWakeLock.RunDropping` | legacy/device-meizu-m86-cm14/libril/ril.cpp:5087-5090 | after that run a timer is queued and the lock is not held |
| `RilWakeLock.PendingIsLast` | legacy/device-meizu-m86-cm14/libril/ril.cpp:5073-5082 | the timer that is queued after any steps is the one of the last scheduling message |
| `RilWakeLock.ReleaseIsLate` | legacy/device-meizu-m86-cm14/libril/ril.cpp:4337-4351 | a release comes more than 200 ms after the last scheduling message of all the steps before it |
| `RilWakeLock.RunSteps` | legacy/device-meizu-m86-cm14/libril/ril.cpp:4991-5091 | over any run the lock is given back exactly at the passes that come more than 200 ms after the last message that scheduled a timer, with that timer still queued; the lock is held exactly while it is, unless the last waking message failed |
| `FpEnroll.Enrolment.DriverEnroll` | legacy/device-meizu-m86-cm14/libfprint/imgdev.c:169-200 | the first stage starts a new print; a sample is prepended; the code says whether stages are left |
| `FpEnroll.Enrolment.EnrollFinger` | legacy/device-meizu-m86-cm14/libfprint/core.c:848-943 | the stage is none or below the number of stages and the print holds exactly one sample per stage passed, unless the driver claims a passed stage without a sample; COMPLETE comes with exactly the last sample; the branch for too many stages is never taken; the imaging device agrees about the stage exactly unless the driver reported an error |
| `FpEnroll.Enrolment.Reset` | legacy/device-meizu-m86-cm14/libfprint/core.c:934-943 | no stage, and the imaging device agrees |
| `FpEnroll.RunCalls` | legacy/device-meizu-m86-cm14/libfprint/core.c:848-943 | over any run every completed print holds one sample per stage of the device, the stage stays below their number, and completed prints and the one under way hold in order exactly the samples taken, without those of the prints given up |
| `FpEnroll.AllSurvive` | legacy/device-meizu-m86-cm14/libfprint/core.c:848-943 | while no enrolment is given up, those are all samples |
| `FpPrintData.GetData` | legacy/device-meizu-m86-cm14/libfprint/data.c:126-172 | the buffer filled at a moving cursor is the packed header and the items in list order |
| `FpPrintData.HeaderIs` | legacy/device-meizu-m86-cm14/libfprint/data.c:140-168 | the magic, the driver, the device type, the kind and the lengths at their bytes, numbers with the lowest byte first |
| `FpPrintData.FromData` | legacy/device-meizu-m86-cm14/libfprint/data.c:183-226 | the loop that prepends items until one is incomplete computes the load of any buffer with a header; NULL without items |
| `FpPrintData.LoadedIs` | legacy/device-meizu-m86-cm14/libfprint/data.c:190-196 | loading takes each number from those bytes |
| `FpPrintData.ItemsAreMaximal` | legacy/device-meizu-m86-cm14/libfprint/data.c:197-218 | every buffer is its whole items followed by something that starts no whole item |
| `FpPrintData.LoadedOfEncodedIff` | legacy/device-meizu-m86-cm14/libfprint/data.c:126-226 | a saved print loads with the same header and its samples reversed, exactly when it has samples and none is 2^32 bytes or longer |
| `FpPrintData.LoadedTwice` | legacy/device-meizu-m86-cm14/libfprint/data.c:126-226 | saving and loading twice gives the print back |
| `FpMatch.ComparePrintData` | legacy/device-meizu-m86-cm14/libfprint/img.c:386-427 | the best score over the enrolled samples, never below 0, or an error for the wrong kind or number of samples |
| `FpMatch.CompareToGallery` | legacy/device-meizu-m86-cm14/libfprint/img.c:429-468 | the first print of the gallery one of whose samples reaches the threshold, or no match when none does |
| `FpMatch.Verify` | legacy/device-meizu-m86-cm14/libfprint/imgdev.c:203-242 | the verdict of verification, with the default threshold for 0 and RETRY whenever there is nothing to score |
| `FpMatch.Identify` | legacy/device-meizu-m86-cm14/libfprint/imgdev.c:244-282 | the verdict and offset of identification, whatever the kinds of the gallery; its own test for too few minutiae is never reached |
| `FpMatch.BestReachesIff` | legacy/device-meizu-m86-cm14/libfprint/img.c:412-425 | the best score reaches a threshold exactly when some sample's does or the threshold is not positive |
| `FpMatch.VerdictIs` | legacy/device-meizu-m86-cm14/libfprint/imgdev.c:203-242 | verification gives 100 for fewer than 11 minutiae or another kind, else 1 exactly if a sample scores the threshold, 40 by default, or the threshold is not positive, else 0 |
| `FpMatch.AgreeIff` | legacy/device-meizu-m86-cm14/libfprint/img.c:386-468 | for any score and print, verification and identification judge a print of the NBIS kind alike exactly if the threshold is positive or a sample reaches it, and one of another kind exactly if none does |
| `FpMatch.VerifyAndIdentifyAgreeIff` | legacy/device-meizu-m86-cm14/libfprint/img.c:386-468 | they judge a print alike under every score exactly when the threshold is positive and the print is of the NBIS kind |
| `FpMatch.OtherKindIsIdentifiedOnly` | legacy/device-meizu-m86-cm14/libfprint/img.c:393-398 | a print of another kind that scores well is identified although verifying it gives RETRY |
| `FpMatch.ReversalChangesNothing` | legacy/device-meizu-m86-cm14/libfprint/img.c:386-468 | reversing a print's samples changes neither its score nor whether it is hit |
| `FpMatch.ReloadingKeepsVerdicts` | legacy/device-meizu-m86-cm14/libfprint/img.c:386-468 | saving and loading the prints of a gallery, which reverses their samples, changes no verdict and no offset |
| `FpMatch.IdentifiedIsFirstVerified` | legacy/device-meizu-m86-cm14/libfprint/img.c:452-467 | with a positive threshold and a gallery of the NBIS kind, the print identified is the first that would verify, and none is exactly when none would |
| `FpImage.VFlipInPlace` | legacy/device-meizu-m86-cm14/libfprint/img.c:170-190 | row by row through a buffer, the image is upside down and bytes behind it are untouched |
| `FpImage.HFlipInPlace` | legacy/device-meizu-m86-cm14/libfprint/img.c:192-205 | every row is reversed and bytes behind the image are untouched |
| `FpImage.InvertColors` | legacy/device-meizu-m86-cm14/libfprint/img.c:207-213 | every pixel is inverted and bytes behind the image are untouched |
| `FpImage.FlippedTwice` | legacy/device-meizu-m86-cm14/libfprint/img.c:170-213 | both flips and inversion undo themselves |
| `FpImage.FlipsCommute` | legacy/device-meizu-m86-cm14/libfprint/img.c:170-213 | both flips and inversion commute |
| `FpImage.UprightAt` | legacy/device-meizu-m86-cm14/libfprint/img.c:222-236 | the pixel an image shows is the one stored where its flags say, inverted if they say so |
| `FpImage.Img.Standardize` | legacy/device-meizu-m86-cm14/libfprint/img.c:222-236 | the flags are cleared and the image shows what it showed before; a standard image is left alone |
| `FpImage.Rot90Ccw` | legacy/device-meizu-m86-cm14/libfprint/fpc1150.c:110-123 | written downwards from the last byte, every destination byte once, the destination is the rotated image, for all sizes |
| `FpImage.RotatedAt` | legacy/device-meizu-m86-cm14/libfprint/fpc1150.c:110-123 | the pixel in row r, column c comes from row c, column w-1-r: a quarter turn counter-clockwise |
| `FpImage.RotatedTwice` | legacy/device-meizu-m86-cm14/libfprint/fpc1150.c:110-123 | two quarter turns are both flips |
| `FpImage.FourQuarterTurns` | legacy/device-meizu-m86-cm14/libfprint/fpc1150.c:110-123 | four quarter turns give the image back |
| `FpImage.FlipV` | legacy/device-meizu-m86-cm14/libfprint/fpc1150.c:125-141 | exchanging rows pixel by pixel is the same flip |
| `FpImage.AssembledIsItsOwnMirror` | legacy/device-meizu-m86-cm14/libfprint/fpc1150.c:368-371 | an image above its mirror image is its own vertical mirror, for all sizes |
| `FpImage.Assemble` | legacy/device-meizu-m86-cm14/libfprint/fpc1150.c:366-371 | the assembled image is the turned raw image above its mirror image, and its own vertical mirror |
| `ByteSearch.ContainsAcross` | tools/search-ext4-bytes.py:69-73 | a needle that fits the overlap is in what was read exactly when it was before or is in the tail and the new chunk |
| `ByteSearch.SearchFile` | tools/search-ext4-bytes.py:63-73 | the needles found chunk by chunk are exactly those in the whole file, wherever it was cut |
| `DirectoryWalk.OpenDirectory` | tools/search-ext4-bytes.py:46-78 | after a directory all directories in it are visited, and to each needle's matches are added, in order, exactly the paths of its followed files that hold the needle; nothing else was added to the stack |
| `DirectoryWalk.FoundAllIs` | tools/search-ext4-bytes.py:46-78 | the report over directories opened holds exactly their followed entries of files with the needle |
| `DirectoryWalk.ClosedHoldsAll` | tools/search-ext4-bytes.py:43-58 | visited directories all of whose entries are seen are all that can be reached |
| `DirectoryWalk.ReportIs` | tools/search-ext4-bytes.py:63-86 | once all reachable directories are opened, every entry of a reachable file that holds the needle is reported, nothing else is, and nothing is reported exactly when no reachable file holds it |
| `DirectoryWalk.Search` | tools/search-ext4-bytes.py:33-87 | the walk ends on every graph, opens each reachable directory exactly once and no other, and its matches are exactly the report: one path for every entry of a reachable file that holds the needle; a needle is missing exactly when there is none |
| `AudioParameters.FindParameter` | hardware/meizu/m86/audio/audio_primary_m86.cpp:168-196 | the value of the first token with the key, cut to what the buffer holds |
| `AudioParameters.TokenLaws` | hardware/meizu/m86/audio/audio_primary_m86.cpp:168-196 | how strings come apart: separators and leading spaces go, a token ends before a semicolon or comma |
| `AudioParameters.LookupLaws` | hardware/meizu/m86/audio/audio_primary_m86.cpp:168-237 | a key is looked up in the first token that begins with it and an equals sign; tokens are put together with semicolons |
| `AudioParameters.ReplaceParameter` | hardware/meizu/m86/audio/audio_primary_m86.cpp:198-239 | the tokens with the key replaced, joined and terminated, inside the buffer; success exactly when a token has the key and all of it fits |
| `AudioParameters.TokensOfJoined` | hardware/meizu/m86/audio/audio_primary_m86.cpp:209-237 | joined tokens come apart into the same tokens |
| `AudioParameters.LookupSubstituted` | hardware/meizu/m86/audio/audio_primary_m86.cpp:220-224 | after the rewrite every token with the key carries the replacement's value |
| `AudioParameters.LookupOther` | hardware/meizu/m86/audio/audio_primary_m86.cpp:220-224 | every other key keeps its value |
| `AudioParameters.RewrittenLookups` | hardware/meizu/m86/audio/audio_primary_m86.cpp:198-239 | looked up in the rewritten string, the key has the new value and every other key the old one |
| `AudioHifi.Stream.SetParameters` | hardware/meizu/m86/audio/audio_primary_m86.cpp:389-390 | a string the vendor accepts sets the HiFi state it names; any other leaves it |
| `AudioHifi.Rewrite` | hardware/meizu/m86/audio/audio_primary_m86.cpp:373-387 | the string forwarded for a wanted HiFi state, or failure when it needs 512 bytes or more |
| `AudioHifi.RewrittenIs` | hardware/meizu/m86/audio/audio_primary_m86.cpp:373-387 | it asks for the state allowed and says the same about every other key |
| `AudioHifi.WiredIs` | hardware/meizu/m86/audio/audio_primary_m86.cpp:163-166 | a device word is wired exactly if it has the bit of the headset, 4, or of the headphone, 8 |
| `AudioHifi.SinkDevicesIs` | hardware/meizu/m86/audio/audio_primary_m86.cpp:1165-1173 | a patch asks for a device exactly if one of its device sinks does |
| `AudioHifi.Device.ApplyHifiState` | hardware/meizu/m86/audio/audio_primary_m86.cpp:877-908 | without an output nothing happens; otherwise the stream is on exactly as policy, route and output call for it, if the vendor accepts |
| `AudioHifi.Device.SetDevice` | hardware/meizu/m86/audio/audio_primary_m86.cpp:332-347 | after a successful change of device the stream agrees with the policy exactly if the state was applied or needed no change, and is on only over a wired output exactly if it was applied, was off, or the device is wired |
| `AudioHifi.Device.SetOutputParameters` | hardware/meizu/m86/audio/audio_primary_m86.cpp:349-407 | the whole effect of a parameter string on route, devices and stream, including refusal of what does not fit and a vendor's refusal |
| `AudioHifi.Device.CreatePatch` | hardware/meizu/m86/audio/audio_primary_m86.cpp:1155-1195 | a patch with a device sink routes the joined devices, or the speaker; the same conditions as for a change of device |
| `AudioHifi.Device.OpenOutput` | hardware/meizu/m86/audio/audio_primary_m86.cpp:1021-1055 | a new stream agrees with the policy whether or not the vendor takes the state, since no route is asked for yet |
| `AudioHifi.Device.CloseOutput` | hardware/meizu/m86/audio/audio_primary_m86.cpp:1057-1075 | no output, no devices, no route, and nothing on |
| `AudioHifi.Device.SetPolicy` | hardware/meizu/m86/audio/audio_primary_m86.cpp:954-1001 | user switch and gain are remembered, the switch even when the gain is malformed; the stream is not touched |
| `AudioHifi.Perform` | hardware/meizu/m86/audio/audio_primary_m86.cpp:332-407 | every operation, its state accepted or refused, moves the device as its value says |
| `AudioHifi.OnlyWiredIff` | hardware/meizu/m86/audio/audio_primary_m86.cpp:877-908 | over any run, refusals included, the stream is on only over a wired output exactly if the state last settled was off or the output is wired, and agrees with the policy exactly if that state does |
| `AudioHifi.SettledIsOn` | hardware/meizu/m86/audio/audio_primary_m86.cpp:877-908 | right after a change whose state reached the stream, it is on exactly with the switch, the route and the headset or headphone bit |
| `AudioHifi.AgreesIff` | hardware/meizu/m86/audio/audio_primary_m86.cpp:877-908 | without refusals the stream is on only over a wired output, and agrees with the policy exactly if the switch is as it was at the last successful change of route, device, output or HiFi state, or no HiFi route leads to a wired device |
| `AudioHifi.AgreesSinceSettling` | hardware/meizu/m86/audio/audio_primary_m86.cpp:877-908 | after a change whose state reached the stream, it agrees with the policy until the policy is set again or a state is refused |
| `AudioHifi.RefusedOverSpeaker` | hardware/meizu/m86/audio/audio_primary_m86.cpp:332-347 | when the vendor refuses the state that follows a change to the speaker, a stream that was on stays on over an output that is not wired |
| `AudioHifi.RunOps` | hardware/meizu/m86/audio/audio_primary_m86.cpp:332-407 | over every run the device follows the values, is on exactly as was called for when the state was last settled, right after that exactly with switch, route and headset or headphone, and on only over a wired output exactly if that was off or the output is wired; always without refusals |

## Left out

- NewcParse.Parse: a header field is eight hex digits, or a minus sign and seven; the other spellings that `int(s, 16)` reads
  (blanks, a plus sign, `0x`, underscores) are refused here. A negative data size, which sends the source's parser back to an
  earlier offset, is refused as truncated. The byte-identity test refuses the spellings in any case.
- Compression, SHA-1 and SHA-256, reading and writing files, argument parsing and printing: library code. Paths are their
  UTF-8 bytes; the sorted tuples of the report are sets; the printed lists of actions are not built.
- RilEventLoop.EventLoop.Perform: events handed to `ril_event_add` while watched, to `ril_timer_add` while watched or linked,
  or with a descriptor that is watched already, are excluded by the callers' side of the interface; so are events freed or
  re-initialised by another callback of the same pass. A callback is a finite list of calls.
- RilEventLoop.EventLoop.Run: the loop runs over a finite list of answers of `select`; the wake-up pipe, the mutex and calls
  from other threads in the middle of a pass are not modelled.
- ThreadQueue.WaitQueue.Get: the waiting is in `ThreadQueueProtocol`. Fairness of the mutex and destroying it are left out.
- RilRequests.CompletedOnce: a request stays readable after its completion and its name is never reused. In the code it is freed:
  with two or more sockets a second completion reads the socket of a freed request before it looks for it, and it may meet a
  new request at the same address. Nor is the payload of a reply modelled, or a socket whose write fails.
- RilWakeLock.WakeLock.OnUnsolicitedResponse: each function is one step, so a timer that fires while a message is being
  handled is not modelled; the saved NITZ time and calls before registration are left out.
- FpEnroll.Enrolment.EnrollFinger: the image handed back and `enroll_thread_loop`, which counts on its own, are left out.
- FpPrintData.FromData: a buffer shorter than a header is excluded: callers must hand over what was saved.
- FpMatch.ComparePrintData: an enrolled print without samples is excluded: loading never gives one.
- FpMatch.Verify: the model starts at the imaging device. `fp_verify_finger_img` before it refuses, with EINVAL, a print made
  for another driver, device type or kind (core.c:977-980); `fp_identify_finger_img` makes no such check.
- FpImage.Img.Standardize: sizes are unbounded, so products do not overflow; the `PARTIAL` and `BINARIZED` flags are left out.
- DirectoryWalk.Search: read errors, which end the program, and the counts it prints; the `ext4` package is a finite map.
- AudioParameters.ReplaceParameter: null pointers, and keys with separators, which no caller has. What the buffer holds after a
  failure is not stated.
- AudioHifi.RunOps: one output at a time, as the policy keeps only one; missing vendor callbacks, the headphone volume, the
  stored properties and the gain sent to the device, none of which touches the state of the stream.
- Parcel marshalling in `ril.cpp`, the NBIS code, camera, power and lights, the shims, the stream router and the Java probes.
