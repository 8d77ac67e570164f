# Verified models of the kirkwood kernel port

Dafny models of the algorithms and protocols inside the drivers of this kernel, and of
the tool that makes its boot images. One module per component. Code that changes things
step by step is modelled as methods over arrays and fields, each proved against a
specification function or an abstract state; what the driver is for is then proved about
that specification, for all inputs or all runs.

- `Hash`, `HashEngine`, `HashStandard`: streaming SHA-1 and MD5 over one engine that several
  digest states share. `HashStandard` says how the standards make words of bytes, chain
  blocks, pad and write a digest, around compression functions that are left open; the
  engine compresses the words it is given, reversed only on demand. The theorem is about
  runs of calls on any number of states, calls that end a message among them: every
  message that ends in the run has the digest of its own algorithm, the others can go on;
  and exactly which chunks break this.
- `Aes`: CBC in place over an engine whose block cipher is left open.
- `Crc32`, `UImage`: the two forms of CRC-32, why a burst is always detected, and the
  headers of boot images. `HeaderBursts` says which windows of damage in a header are
  always detected, with values of the register that `CrcVectors` computes on bit vectors.
- `Ncq`, `SataTags`, `SataIo`: native command queuing. `Ncq` is the protocol between the
  callers of `io`, the interrupt handler and the disk, as a state machine; `SataTags` is
  the driver's memory, whose every step is a step of `Ncq`; `SataIo` is what a request
  says, and what a transfer of any length adds up to.
- `BlockIo`, `BlockStore`, `Partitions`, `DiskInit`: unaligned requests in 32-bit and 64-bit
  arithmetic, the version and exclusive-open protocol, partition tables, and a store that
  keeps what the tables of its disk say.
- `RxRing`, `EtherMux`: the receive ring with its pool of blocks, and the multiplexer
  above it.
- `Rtc`: seconds and calendar dates. `SdCard`: SD responses, their fields and the
  capacity computed from them.
- `Bits`, `Rings`: words, bytes and bits as numbers; queues in rings.

Where the code does less than it seems meant to, the model follows the code, a lemma
gives a concrete input, and the exact condition under which the intention is met is
proved. These are:

- a chunk that leaves part of a block behind whole ones: `Hash.GuardExact`,
  `Hash.UnguardedExample`;
- CBC decryption split over calls: `Aes.DecryptionSplitsExactlyWhen`,
  `Aes.DecryptionSplitCounterexample`;
- damage to a boot image's header across an end of the checksum field:
  `HeaderBursts.DetectsExactlyWhen`, `HeaderBursts.LoaderDetectsExactlyWhen`,
  `HeaderBursts.Hidden`;
- with 32 tags, request and response rings so full that they look empty:
  `Ncq.FullRingsExactlyWhen`, and `SataTags.Ctlr.ResponseLoop` for what the handler does
  then;
- `tagnext` after a disk with fewer tags is found: `SataTags.IdentifyExact`,
  `SataTags.IdentifyExample`;
- places on a disk beyond 32 bits, where a read reports bytes of another place and a write
  puts zeros there and into the caller's buffer: `BlockIo.OwnBytesExactlyWhen`,
  `BlockIo.WritesExactlyWhen`, `BlockIo.FarExample`;
- requests that end beyond 63 bits: `BlockIo.ClippedExactlyWhen`,
  `BlockIo.LastOffsetExample`;
- versions that come round: `BlockStore.PanicsExactlyWhen`, `BlockStore.RoundPanics`;
- partitions inside others: `Partitions.OverlapsExactlyWhen`, `Partitions.NestedExample`;
- starts that turn negative: `Partitions.WithinExactlyWhen`,
  `Partitions.NegativeStartExample`;
- a receive ring that runs dry: `RxRing.MissesExactlyWhen`, `RxRing.DryExample`;
- dates from March 2100 on: `Rtc.AgreesWithEpochExactlyBefore2100`,
  `Rtc.March2100Example`;
- fields that end at a word: `SdCard.FieldFound`, `SdCard.TopBitLost`;
- the reserved bits above `C_SIZE`: `SdCard.CapacityIsStandard`, `SdCard.CapacityExample`.

The clock, the disk, the network, the allocator and the engines appear as parameters or
as small machines beside the driver. `dafny verify dfyconfig.toml` checks the whole
project.

## Model

| member | source | states |
|---|---|---|
| HashEngine.HashReg.WriteData | cesa.c:779-780 | a data write appends four bytes, and the sixteenth compresses the block, whatever the words are |
| HashEngine.HashReg.WriteBitcountHi | cesa.c:732-742 | the second half of the bit count zero-fills the block to 56 bytes, adds the count and compresses |
| HashEngine.CompressIsStandard | cesa.c:762-785 | told to reverse bytes for MD5 and only then, the engine does with a block what the algorithm's standard says |
| HashStandard.ChainConcat | cesa.c:776-785 | whole blocks can be chained piece by piece |
| Hash.TailWord | cesa.c:725-729 | the last data word is the up to three bytes left, the one bit, and zeros |
| Hash.Swap | cesa.c:230-235 | the result's bytes read the other way are the argument |
| Hash.HashFinish | cesa.c:693-749 | the digest is the chaining value over the remaining bytes and a padding that meets section 5.1.1 of FIPS 180-4, or sections 3.1-3.2 of RFC 1321 |
| Hash.HashExec | cesa.c:751-797 | selects the algorithm and swaps the chaining value in and out of the shared engine: the state then holds that algorithm's chain over the given blocks, or the digest ends the message, whatever the engine held before |
| Hash.TakeIn | cesa.c:818-858 | held bytes and chunk become whole blocks to digest now and less than a block to keep, in order |
| Hash.Hash | cesa.c:799-875 | for every chunk and state: what has been fed grows by the bytes the call really hands over, the state stays valid, and a digest call writes the padded digest of all that was fed |
| Hash.GuardExact | cesa.c:838-856 | a call hands over every chunk of a length unchanged if and only if what is left after topping up is under a block or whole blocks |
| Hash.UnguardedExample | cesa.c:838-856 | 65 bytes at once: the last byte is lost and the first digested twice |
| Hash.UnguardedAfterTopUp | cesa.c:821-856 | 128 bytes behind one that was held: the last is lost, and the first behind the filled block digested twice |
| Hash.GuardedRun | cesa.c:799-875 | guarded calls hand over the message itself, however it is cut up |
| Hash.RunsAreSeparate | cesa.c:764-768 | calls on one state do not depend on the calls on others in between |
| Hash.Interleave | cesa.c:799-875 | any calls in any order on any number of states sharing the engine, ending calls among them: the open states stay valid with what their own calls fed, and each ended one has left the padded digest of that |
| Hash.DigestsOfMessages | cesa.c:799-887 | every message that ends in such a run, handed over in guarded chunks with any other calls in between, has the 20 bytes of SHA-1 or the 16 of MD5 that it should, if its bit count fits the counter; engine and open messages can go on |
| Hash.EndedExactlyWhen | cesa.c:788-791 | those are exactly the messages with an ending call in the run |
| Hash.CountFits | cesa.c:790 | the bit count in the padding is the message's if and only if it fits the counter |
| Aes.LoadKey | cesa.c:407-426 | key words go to the registers from the top down; false exactly for a length AES does not have |
| Aes.CbcEncryptInPlace | cesa.c:436-456 | the buffer becomes the CBC encryption (section 6.2 of NIST SP 800-38A) and the vector its last block |
| Aes.CbcDecryptInPlace | cesa.c:458-482 | the buffer becomes the CBC decryption; the vector becomes the block before the last |
| Aes.AesCbc | cesa.c:397-500 | the whole call: nothing but the engine changes for a bad key length |
| Aes.EncryptedWords | cesa.c:441-456 | what enters the cipher is each word of the plaintext, combined with the word at the same place of the ciphertext block before |
| Aes.DecryptedWords | cesa.c:460-482 | and what leaves it, the other way |
| Aes.WordsOfMessage | cesa.c:442-445 | the words of a block are its bytes, most significant first |
| Aes.DecryptInvertsEncrypt | cesa.c:435-482 | decryption inverts encryption for every message, key and vector |
| Aes.RoundTrip | cesa.c:519-533 | encrypting and then decrypting in place restores the buffer |
| Aes.EncryptionSplits | cesa.c:436-482 | encryption over any sequence of calls that carry the vector forward equals one call |
| Aes.EncryptBuffers | cesa.c:436-456 | successive calls with one state encrypt their buffers in place as one message would be |
| Aes.DecryptionSplitsExactlyWhen | cesa.c:474-482 | two decryption calls equal one if and only if the vector left happens to equal the last ciphertext block |
| Aes.DecryptionSplitCounterexample | cesa.c:474-482 | a one-block first call for which they differ |
| Crc32.MkCrcTab | mkuimage/mkuimage.c:86-98 | every entry is eight steps of the bit-serial register |
| Crc32.Crc32 | mkuimage/mkuimage.c:100-107 | the table-driven loop runs the bit-serial register over the bytes, from any start |
| Crc32.CrcIsComplement | mkuimage/mkuimage.c:100-107 | the register starts with 32 ones and is complemented at the end |
| Crc32.EtherCrc | devether.c:577-595 | the bit-serial loop leaves the register of the message |
| Crc32.FormsAgree | mkuimage/mkuimage.c:86-107 | the table-driven form is the complement of the bit-serial one, and the CRC of section 8 of RFC 1952, for every byte sequence |
| Crc32.Piecewise | mkuimage/mkuimage.c:100-107 | continuing the CRC of a with b gives the CRC of both |
| Crc32.RegisterInjective | mkuimage/mkuimage.c:101-107 | equal bytes keep different registers different, and equal ones equal |
| Crc32.WindowInjective | mkuimage/mkuimage.c:101-107 | up to four bytes inject into the register |
| Crc32.BurstDetected | mkuimage/mkuimage.c:86-107 | messages that agree outside four consecutive bytes have the same CRC if and only if they are equal |
| UImage.StrNCopy | mkuimage/mkuimage.c:149 | the name is copied up to its first NUL and padded with NULs |
| UImage.Pack | mkuimage/mkuimage.c:121-150 | a reader finds every field of the header at its place |
| UImage.FieldsAt | mkuimage/mkuimage.c:131-150 | the byte at which each of them is |
| UImage.HoldsDetermines | mkuimage/mkuimage.c:131-150 | the fields determine the header's bytes |
| UImage.MakeHeader | mkuimage/mkuimage.c:212-218 | after both packing passes a boot loader that clears the checksum field and checks both checksums accepts header and data, and finds the fields asked for |
| UImage.DamagedHeaderRejected | mkuimage/mkuimage.c:213-218 | an accepted header is no longer accepted when it is damaged inside four consecutive bytes that are all in the checksum field or all outside it |
| HeaderBursts.CrcDifference | mkuimage/mkuimage.c:101-107 | how far the CRCs of two messages are apart depends only on the bytes that differ and their distance from the end |
| HeaderBursts.DetectsExactlyWhen | mkuimage/mkuimage.c:213-218 | of all windows of at most four bytes in a header, across the checksum field's ends or not, damage is always detected if and only if the window is not the four bytes from 2, 5, 6 or 7 on |
| HeaderBursts.Hidden | mkuimage/mkuimage.c:213-218 | for each of those, and every accepted header, another accepted one |
| HeaderBursts.LoaderDetectsExactlyWhen | mkuimage/mkuimage.c:131-218 | with the magic number checked as well, damage is always detected if and only if the window is not the four bytes from 5, 6 or 7 on |
| CrcVectors.StepsXor | mkuimage/mkuimage.c:92-96 | any number of steps of the register is linear |
| CrcVectors.ThreeBytesBefore | mkuimage/mkuimage.c:92-96 | a difference of three bytes, 504 steps on, shows below the highest byte |
| UImage.DamagedDataRejected | mkuimage/mkuimage.c:213-218 | data damaged inside four consecutive bytes no longer matches its header |
| Ncq.ApplyInv | devsata.c:1031-1101 | every step of the protocol keeps the invariant |
| Ncq.RunInv | devsata.c:996-1101 | every run of issue, fetch, answer in any order, loss, abort, timeout and claim steps meets the invariant |
| Ncq.TagsArePermutation | devsata.c:1033-1036 | in every run the ring's window together with the tags held or abandoned is exactly a permutation of 0..ntags-1 |
| Ncq.NoSharedTag | devsata.c:1033-1036 | no two requests that have not returned their tags share one |
| Ncq.FullRingsExactlyWhen | devsata.c:680-683 | there are runs with 32 unfetched requests, and runs with 32 unseen answers, if and only if the disk has 32 tags |
| Ncq.FreeTagMeansFreeSlot | devsata.c:96-100 | with a tag free, the slot `io` fills is none that the disk has yet to fetch, and unfetched requests are at most the tags in use |
| Ncq.ClaimIsExclusive | devsata.c:547-568 | while the controller is claimed no tag is out, nothing is on its way and nothing can be issued |
| Ncq.SuccessIsEarned | devsata.c:1073-1101 | `io` reports success only for a request whose own answer was consumed after it was issued, so never for a late answer to an earlier one |
| Ncq.OutcomeIsKept | devsata.c:416-431 | the flag under the tag of a request that waits says what has last happened to it: issued, answered or aborted |
| Ncq.AnsweredSucceeds | devsata.c:1073-1101 | a request whose answer was consumed, with no abort after it, succeeds when its caller wakes up, and its tag goes to the ring's end |
| Ncq.SucceedsExactlyWhen | devsata.c:1073-1101 | a waiting request succeeds on waking if and only if it has been so answered |
| Ncq.ErroredTagsStay | devsata.c:1093-1101 | the tag of a request that ended in an error never returns to the ring |
| Ncq.InvGuards | devsata.c:1031-1040 | the invariant gives what each of the driver's steps relies on, and those steps get it from there |
| SataTags.Ctlr.constructor | devsata.c:933-945 | the memory after `satainit` is the protocol's initial state |
| SataTags.Ctlr.IssueStep | devsata.c:1031-1040 | taking a tag and a slot is the protocol's issue step |
| SataTags.Ctlr.RespondStep | devsata.c:416-423 | the disk's answers enter the response ring in any order, up to all 32 |
| SataTags.Ctlr.ResponseLoop | devsata.c:416-431 | if fewer than 32 responses wait, the interrupt loop consumes all of them and marks exactly their tags with success; if all 32 do, it does nothing |
| SataTags.MarkedIs | devsata.c:424-428 | success for the tags that answers carry, and no change for the others |
| SataTags.Ctlr.IndicesMeet | devsata.c:416-421 | an index that meets the other end says that its ring is empty or full |
| SataTags.Ctlr.AbortStep | devsata.c:334-347 | every outcome becomes a failure, for every tag |
| SataTags.Ctlr.WakeStep | devsata.c:1091-1101 | success returns the tag to the place behind the ring's window, an error keeps it out |
| SataTags.Ctlr.IdentifyStep | devsata.c:683-686 | with `tagnext` below the new number, the ring holds all tags, starting with `tagnext` |
| SataTags.Ctlr.WindowIsPermutation | devsata.c:1033-1036 | the entries `tags[(tagnext + i) % ntags]` of the window together with the tags held or abandoned are exactly a permutation of 0..ntags-1 |
| SataTags.IdentifyExact | devsata.c:683-686 | the next `ntags` issues get different valid tags if and only if the entry at `tagnext` is `tagnext % ntags` |
| SataTags.IdentifyExample | devsata.c:683-686 | a run in which a disk with three tags serves two requests and is replaced by one with two, whose next request gets tag 2 |
| SataIo.PrdFill | devsata.c:971-989 | at most 8 entries that tile the buffer in order, only the last marked, and no others touched |
| SataIo.TilesAreWalked | devsata.c:971-989 | a controller that follows such a table, reading a count of 0 as 64k, walks through exactly the buffer |
| SataIo.FillRequest | devsata.c:1038-1070 | command, block address, sector count, tags, direction and memory, as disk and controller read them from the split fields, are those asked for, up to 1024 sectors |
| SataIo.AskedIsMoved | devsata.c:1038-1070 | a disk and a controller that go by the command, the direction bit and the fields copy the bytes asked for, in the direction asked for |
| SataIo.Io | devsata.c:995-1103 | which requests are refused, which transfer nothing, and for the others which bytes are copied from the disk to memory, or from memory to the disk; one that fails copies some of them |
| SataIo.ReadWrite | devsata.c:1236-1242 | the loops end; a read leaves the disk alone and fills memory with its bytes, a write leaves memory alone and fills the disk, all that was asked for up to the end of the disk, and nothing else |
| BlockIo.ClippedExactlyWhen | devbs.c:165-177 | the 64-bit and 32-bit arithmetic gives the part of the request that is in the partition if and only if its end fits in 63 bits, or is whole multiples of 2^32 behind the partition's |
| BlockIo.LastOffsetExample | devbs.c:165-177 | 512 bytes at the last offset there is: the count is -1048065 |
| BlockIo.PlaceInBlock | devbs.c:179 | clearing the high bits moves a place by whole blocks |
| BlockIo.WidenCovers | devbs.c:179-180 | the widened range is aligned, covers the bytes looked for, and stays inside every aligned range around the request, moved down by the bits cleared |
| BlockIo.DirectExactlyWhen | devbs.c:179-183 | a request goes to the device as it is if and only if it is aligned and its place is below 2^32 |
| BlockIo.RequestStaysInside | devbs.c:165-180 | device requests are whole blocks of the partition, and for a write exactly its bytes, moved down by the bits cleared |
| BlockIo.SkipInBlock | devbs.c:194-201 | cut to 32 bits, the distance to the start of the wider buffer is the place's in its block, wherever the place is |
| BlockIo.Io | devbs.c:154-205 | every error; the one request made of the device and the count reported; a read puts the bytes found at the place modulo 2^32 in front of the buffer and leaves the rest; a write below 2^32 changes exactly its bytes, and one beyond puts zeros at its place modulo 2^32 and into the caller's buffer, however much the device moves; below 2^32 a device that answers in full serves every read, aligned or not, and every aligned write, with as many bytes as the partition has, and a write that is not aligned is an error that touches nothing |
| BlockIo.WholeIsReported | devbs.c:179-203 | a device that answers in full serves the whole clipped request, as far as the count tells, wherever its place is |
| BlockIo.OwnBytesExactlyWhen | devbs.c:179-203 | the bytes reported as read are the partition's own, whatever the disk holds, if and only if their place is below 2^32 or there are none |
| BlockIo.WritesExactlyWhen | devbs.c:179-203 | a write leaves its bytes in the partition, whatever they are, if and only if its place is below 2^32 or there are none |
| BlockIo.FarExample | devbs.c:179-203 | a partition at 2^32: a read hands over sector 0, and a write puts zeros there |
| BlockIo.PartitionIsADisk | devbs.c:165-203 | below 2^32 a partition behaves as a disk of its own, and no disjoint partition changes |
| BlockIo.ReadsBack | devbs.c:154-205 | what was written is read back |
| BlockStore.StepInv | devbs.c:108-131 | every step keeps: `isopen` of a partition is the number of open channels with the current version, and at most 1; and none panics |
| BlockStore.RunInv | devbs.c:397-519 | so for every run, unless the versions come round while a channel stays open |
| BlockStore.FewInitsAreGuarded | devbs.c:113 | with fewer than 2^32 initialisations they never do |
| BlockStore.EveryRun | devbs.c:113 | so every run from the beginning with so few keeps the invariant and reaches no panic |
| BlockStore.OpenIsExclusive | devbs.c:429-445 | two current channels on one partition are the same channel |
| BlockStore.OpenedWhenFree | devbs.c:429-445 | an open succeeds if and only if the store is ready, the partition exists, permission is given and no current channel holds it, which does not matter for the whole disk |
| BlockStore.ReachesDeviceExactlyWhen | devbs.c:535-536 | a transfer reaches the device if and only if the channel's version is current or whole rounds of versions have passed |
| BlockStore.PanicsExactlyWhen | devbs.c:502-507 | the panic in `bsclose` is reached if and only if a whole round of versions has passed and nobody has opened the partition since |
| BlockStore.RoundPanics | devbs.c:502-507 | a run of 2^32 initialisations that ends in it |
| BlockStore.Store.OpenPart | devbs.c:429-445 | the new state and the error, for every case |
| BlockStore.Store.ClosePart | devbs.c:489-511 | the new state and the error, for every case; done and still valid under the guard |
| BlockStore.Store.ReadWrite | devbs.c:535-579 | a stale channel, or a refused request, touches neither device nor buffer; others, near or far, do with their partition what `BlockIo.Io` promises |
| BlockStore.Store.Init | devbs.c:108-131 | the new state, whether the disk is found, its size fits and its table is read or not |
| BlockStore.Store.InitParts | devbs.c:853-861 | the new state, for every case |
| Partitions.Pigeonhole | part.c:39-46 | numbered names that are all taken are no more than the names there are |
| Partitions.PartGenName | part.c:27-47 | the search ends, with the first name that is free, or with an error if it does not fit |
| Partitions.NamesAreDistinct | part.c:113-193 | no two partitions of a disk have the same name |
| Partitions.PartCheck | part.c:69-87 | which check fails first, for every table |
| Partitions.OverlapsExactlyWhen | part.c:80-85 | a non-empty partition passes beside another if and only if the two are disjoint or the new one lies strictly inside |
| Partitions.AcceptedExactlyWhen | part.c:69-87 | an entry passes all checks if and only if it ends on the disk and lies apart from each of the others, or strictly inside it |
| Partitions.NestedExample | part.c:80-85 | sectors 10 to 20 are accepted inside 0 to 100, but not the other way round |
| Partitions.PartInitMbr | part.c:134-153 | the table becomes what MbrFrom makes of the four entries: behind what was there, a partition for each used entry, or the first error |
| Partitions.MbrHasEntries | part.c:135-153 | every used entry, and nothing else, becomes a partition, in order, with its type, start and length, and a name by its type |
| Partitions.MbrPlaces | part.c:135-153 | partitions of the first table are inside the disk, in whole sectors, each disjoint from or strictly inside the earlier ones |
| Partitions.WithinExactlyWhen | part.c:182-187 | an accepted line gives a sub-partition inside its parent if and only if its start does not turn negative in 64 bits |
| Partitions.NegativeStartExample | part.c:182-187 | in every Plan 9 partition a line from sector 2^54 to 0 is accepted and lies before it |
| Partitions.SubsHaveLines | part.c:168-190 | every line becomes a partition, in order, with its name and length, placed relative to the one it was found in |
| Partitions.PartInitSubs | part.c:165-190 | the table grows by one placed partition for each line, as SubsFrom has it, or the first line with an error ends it |
| Partitions.PartInit | part.c:113-193 | the table becomes the whole disk, then the partitions of the first table, then those of the Plan 9 tables in them; every line in the second sector of every entry of type 0x39 and two sectors or more is among them; or there is the first error |
| Partitions.AllEntriesRead | part.c:113-153 | a table that is read has its signature, and starts with the disk and the used entries |
| Partitions.AllTablesRead | part.c:155-190 | every line of every Plan 9 table becomes a partition |
| Partitions.PartitionsArePlaced | part.c:113-193 | all partitions are inside the disk, those of the first table beside each other, the others inside Plan 9 ones |
| Partitions.PartitionsFit | devbs.c:122-130 | so they are what the block store relies on, for every block size up to a sector |
| DiskInit.TablesFit | devbs.c:122-130 | the partitions that the tables name fit the store, those of the first table are disjoint or one inside another, and every other lies inside one of those |
| DiskInit.Diskinit | devbs.c:108-131 | it succeeds if and only if there is a disk of whole blocks; the store then keeps the disk and the partitions of its tables, or just the disk, well placed and valid |
| DiskInit.Partinit | devbs.c:853-861 | the same when the tables are read again |
| RxRing.StepInv | etherkirkwood.c:323-410 | every step keeps each block in exactly one of free list, ring and upper layers, and the packets delivered and waiting are the good frames in order |
| RxRing.OnePlace | etherkirkwood.c:323-348 | a block is in one place, once |
| RxRing.PacketsOfOne | etherkirkwood.c:392-404 | a frame gives a packet if and only if it is whole and without an error |
| RxRing.RunInv | etherkirkwood.c:323-410 | so for every run of completions, receive, replenish and free steps |
| RxRing.Ctlr.constructor | etherkirkwood.c:924-951 | the blocks that `iallocb` gave are free, the last one first, then as many as fit are in the ring |
| RxRing.Ctlr.RxAllocB | etherkirkwood.c:323-336 | takes the head of the list |
| RxRing.Ctlr.RxFreeB | etherkirkwood.c:338-348 | puts the block in front of the list and resets where its data begins |
| RxRing.Ctlr.RxReplenish | etherkirkwood.c:350-372 | ends, with the ring's window extended by free blocks in list order |
| RxRing.RefilledFills | etherkirkwood.c:350-372 | it is then full, or no block is free |
| RxRing.Ctlr.ReceiveStep | etherkirkwood.c:382-407 | one round, by the descriptor's bits: a whole frame without an error is handed up without its padding, the block of any other is freed, the device's descriptor stops it |
| RxRing.Ctlr.Receive | etherkirkwood.c:374-410 | the loop, with frames arriving while it runs, and the refill behind it |
| RxRing.MissesExactlyWhen | etherkirkwood.c:382-390 | it comes to a place without a block if and only if the device keeps ahead of it until every filled descriptor is completed |
| RxRing.DryExample | etherkirkwood.c:382-390 | it does when frames for the whole ring arrive before it runs |
| RxRing.ReceivedIsDelivered | etherkirkwood.c:374-410 | otherwise everything that has arrived is delivered, once and in order |
| RxRing.StartsFull | etherkirkwood.c:927-951 | 562 blocks fill the ring of 512 and leave 50 |
| EtherMux.Ether.Trace | devether.c:201-226 | a connection that wants headers gets a note of the packet, if there is room |
| EtherMux.Ether.EtherIq | devether.c:228-301 | by the bytes of the packet: only a connection of its type, or of any, gets it, and every one of those that it is sent to does when memory and queue allow; overflows count those that missed, and the block is used up exactly once if it came from the wire and comes back if not |
| EtherMux.Ether.EtherOq | devether.c:303-337 | by the bytes of the packet, what is fed back and to whom, what goes out, and that the block is used up once |
| EtherMux.AfterReaches | devether.c:234-294 | a connection gets a packet that is for it, or a note of its first 58 bytes and its length, and nothing else |
| EtherMux.OverflowsAreCounted | devether.c:276-285 | overflows number exactly the connections that wanted the whole packet and have nothing new |
| EtherMux.SavingIsInvisible | devether.c:261-284 | with memory available, saving the copy cannot be told from copying |
| EtherMux.SavingGains | devether.c:261-294 | without, it gains exactly the connection whose copy could not be made |
| Rtc.Rtc2Sec | devrtc.c:197-227 | the loops compute the closed form, modulo the width of a ulong |
| Rtc.Sec2Rtc | devrtc.c:232-279 | the loops end, with the one valid date whose seconds were given, and leave the week day |
| Rtc.SecondsRoundTrip | devrtc.c:197-279 | every second count survives the trip through a date |
| Rtc.DateRoundTrip | devrtc.c:197-279 | a valid date survives the trip through seconds if and only if they fit a ulong |
| Rtc.SecsMonotone | devrtc.c:197-227 | seconds are strictly monotone in lexicographic date order |
| Rtc.SecsInjective | devrtc.c:197-227 | two valid dates have the same seconds if and only if they are the same |
| Rtc.AgreesWithEpochExactlyBefore2100 | devrtc.c:185-227 | the seconds are those of section 4.16 (Base Definitions) of IEEE Std 1003.1-2017 if and only if the date is before March 2100 |
| Rtc.March2100Example | devrtc.c:185-227 | in March 2100 they are a day apart |
| SdCard.ExtractBits | sdcard.c:20-42 | for every response and field: which bits of the whole response the loop finds, across words |
| SdCard.FieldIsQuotient | sdcard.c:20-42 | the field is the response divided by 2^l, modulo 2^(h-l+1) |
| SdCard.FieldFound | sdcard.c:26-40 | a field is found in every response if and only if it has two bits or more and does not end at a word |
| SdCard.TopBitLost | sdcard.c:26-40 | of a response with nothing but a field's top bit set, the others lose that bit |
| SdCard.Assemble136 | kwsdio.c:420-436 | the three words of a long response are one number made of the eight registers and the checksum, in which register i is the field from bit 133 - 16i down to 118 - 16i |
| SdCard.RegistersInResponse | kwsdio.c:420-436 | where the registers are found in that number |
| SdCard.Assemble48 | kwsdio.c:439-447 | and those of a short one, with the first two from bits 45 and 29 on |
| SdCard.Csd.ParseCsd | sdcard.c:79-105 | the size fields are those of the response; false exactly for an unknown structure version |
| SdCard.CardCapacity | kwsdio.c:420-601 | from the registers to the capacity of section 5.3 of the SD Physical Layer Simplified Specification |
| SdCard.CapacityIsStandard | sdcard.c:95-104 | for a version 1 structure the two agree if and only if the two reserved bits above C_SIZE are clear |
| SdCard.CapacityExample | sdcard.c:95-104 | bit 74 or 75 alone makes them differ |

## Left out

- Hash.DigestState.constructor: the width of the byte counter is a parameter, because libsec.h, which declares it, is not part of this model.
- Hash.Hash: allocation of a state for a nil argument; a state is made by the constructor. A chunk has less than 2^31 bytes: `hashexec` reads the length of a longer one into a signed int and digests none of it.
- Hash.HashExec: buffers have less than 2^31 bytes, for the same reason.
- HashEngine.HashReg.WriteBitcountHi: the words of a bit count go the way of data words, reversed or not; the repository says of the engine only what its comment at cesa.c:737 guesses, and the digests are right in no other way.
- Aes.CbcDecryptInPlace: promises nothing of the vector for an empty message, which the code overwrites with an uninitialised buffer. The two buffers whose addresses it exchanges are two variables.
- Aes.AesCbc: the engine is ready when it is read; waiting for it and for the decryption key is left out, and so are the ECB modes, which are the same loop without chaining.
- Ncq.RunInv: safety only. A sleeping caller may never wake, since timed-out tags are not returned. `satainit` is not run again while requests are out.
- SataTags.Ctlr.WakeStep: releasing the tag is one atomic step, though the code does it after giving up the lock.
- SataTags.Ctlr.IdentifyStep: assumes `tagnext < ntags`; IdentifyExact says what happens otherwise.
- SataTags.Ctlr.FetchStep: the disk fetches in order; the scatter list of a slot is not followed past that, as it is indexed by slot and not by tag.
- SataIo.Io: whether a request fails, by an error, an abort or a timeout, is a parameter, and which of its bytes have then been copied is left open.
- BlockIo.Io: demands that a request ends below 2^63; ClippedExactlyWhen says what the code computes beyond, which can be a negative length to allocate. Lengths leave room for rounding up in a 32-bit long; a buffer of 2^31 bytes cannot be had. `smalloc`, whose code is elsewhere, gives memory that is zero, and pointers have 32 bits.
- BlockStore.Store.ReadWrite: the same demands.
- BlockStore.Store.OpenPart: each step happens as a whole, though an open holds only a read lock; the partition of the whole disk is not counted, as in `bsclose`, although `bsopen` would follow a nil pointer for it.
- BlockStore.Store.Init: takes the partitions read to be inside the disk and aligned, which DiskInit.Diskinit proves of every disk whose Plan 9 tables have no negative start. The partition of the whole disk is aligned because a misaligned size is refused.
- DiskInit.Diskinit: demands that no Plan 9 table has a start that turns negative (Partitions.WithinExactlyWhen), and a disk below 2^62 bytes.
- Partitions.GenName: a name that does not fit ends in the error the caller tests for; what `seprint` returns then is not part of this model.
- Partitions.PartInit: the lines of a Plan 9 table are given as names and numbers, so splitting and reading text is left out; errors of the reader count as short reads; the 8-bit index field is left out.
- Partitions.PartitionsArePlaced: says nothing of how sub-partitions lie to each other, since their bounds are relative and are compared with absolute ones, nor of their `e` field.
- RxRing.Ctlr.ReceiveStep: what happens after a place without a block was met.
- RxRing.Ctlr.constructor: where in its memory `iallocb` or `rxfreeb` makes a block's data begin; places are counted from there.
- RxRing.Ctlr.Receive: blocks are numbers in a pool, so aliasing of block pointers is not modelled; the count of frames that are not whole is left out.
- EtherMux.Ether.EtherIq: queues accept or refuse a block by a parameter, since their code is elsewhere; packets have at least a header.
- SdCard.Csd.ParseCsd: the fields that say nothing of the size, and `parsecid`; each is one more call of the same function.
- Rtc.Sec2Rtc: the branches for negative remainders, which an unsigned argument never takes, and the clock's registers, whose masks lose the lowest bit.
- The XOR engine's port allocator: four ports and a scan, which would only add easy members.
- DES, whose engine's timing the repository does not determine, and hashing by DMA, which is not implemented.
- The ethernet transmit ring: its reclaim test stops at the wrong descriptors, so no claim of ownership holds of it.
- NAND, floating point emulation, the serial line, GPIO, the boot path and all file-tree plumbing: register accesses without an invariant, or code that is not in the repository.
