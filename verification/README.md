# KlaussCPU runtime: a verified model

A Dafny model of the parts of the KlaussCPU runtime whose correctness is hardest to see from the
code, with proofs that cover every input, every run and every reachable state. `dafny verify
dfyconfig.toml` checks all of it.

**The FAT file system** (`fatfs/ff.c`). The volume is an array of sectors under a one-sector
write-back window (`FatWindow`), with packed 12-, 16- and 32-bit FAT entries (`FatEntries`), cluster
chains (`FatChains`), the allocator and its free counter (`FatAlloc`), and open files with their
cursor and sector cache (`FatFile`, over the value-level states and steps of `FatData`,
`FatFileState`, `FatFileWrite`, `FatFileSeek`, `FatFileTruncate`, `FatSync`). The result for callers is
`FatRuns.Run`: any run of `f_read`, `f_write`, `f_lseek`, `f_truncate` and `f_sync` on an open file
behaves as on an array of bytes with a cursor that can grow to a fixed size, with exact counts and
positions also when the volume fills and with the refusals of each access mode; the rest of the
volume (other files' chains and bytes, the mirror of the FAT) is left alone, and no cluster is lost or
shared (`FatRuns.RunOnVolume`); after a sync the disk itself holds the bytes.

`Lfn` and `LfnDirectory` are the long-name entries: writing, comparing and reading them, and the state
machines of `dir_find` and `dir_read`; `LfnLaws` says what these answer for every directory. `FatLaws`
says the layout of the FAT, the directory entry and FSInfo as numbers and bytes.

**The crypto drivers** (`src/crypto_hw.c`). The AES/GHASH and SHA/HMAC blocks are device classes with
BUSY and DONE and arbitrary latencies (`AesUnit`, `ShaUnit`); the block cipher, the field product and
the compression function are arbitrary functions. All driver forms are proved to compute the
standards' functions (`GcmSpec`, `ShaSpec`): counter mode (`AesDriver`), GCM in its overlapped, its
two-pass counter-mode and its two-pass ECB form (`AesGcm`), SHA-256 one-shot and streaming
(`ShaDriver`), contexts with saved state in any interleaving (`ShaSaved`), and three forms of HMAC
(`HmacDriver`). `Bits` has the byte and word arithmetic, `Basics` what all parts
share, and `StandardLaws` the standards' constants as numbers. A unit's OUT, TAG and DIGEST registers may be
read, and its start bits written, only when it is idle: those are preconditions of the register
methods, so verification shows that no driver starts a busy unit or reads early, and that every
polling loop ends.

**The RTOS** (`src/rtos.c`). `RtosModel` gives each call and interrupt as one step on the task table,
`RtosKernel` is the mutable kernel proved to make exactly these steps, and `RtosRuns` has what all runs
keep: one running task, conservation of semaphore units and of flags, one holder of a binary semaphore, no
task waiting on a pending flag, no wait that returns without a grant, fairness, and the length of a sleep.

**Boot and load** (`baremetal/programs/netboot.c`, `baremetal/programs/loader.c`). `Netboot` defines
what a run of connections and byte streams means and shows that the receiver computes it for every
segmentation, and exactly when the launch puts the acknowledged image in place. `ElfFile` and
`ElfLoader` are the ELF loader and the proof that in the loaded program every relocated field keeps
its meaning. `NetbootLaws` and `ElfLaws` say both of the bytes of the messages and files.

**Two loops.** `WordCopy` is the shift-merging 64-bit copy into the Ethernet slots, `PermCycle` the
single-cycle permutation of the benchmark.

Where the code does not do what its documentation or a caller would expect, the exact condition is
proved: `f_getfree`'s 16/32-bit scan counts reserved entries (`FatAlloc.GetFree`); a sleep lasts at
least `t` ticks if and only if `t <= 2^31 + 1` (`RtosRuns.SleepExact`, with
`RtosRuns.LongSleepFails`); a call that blocks or ends a task takes the processor from it if and only
if another task is READY (`RtosRuns.GivesUpExactly`); a 64-bit field is relocated right if and only if the move fits in 32
signed bits (`ElfLoader.Abs64Exact`); the 64-bit copy reads only words that hold source bytes if and
only if the source is not empty or is aligned (`WordCopy.CopyTo64`); netboot's comment allows images of
16 MiB, its code accepts a header if and only if the length is smaller (`Netboot.AcceptedExactly`); and
what is launched is the acknowledged image, whatever the memory held, if and only if at the launch the
length covers the image without leaving the memory, staging still begins with it and the entry is its
own (`Netboot.LaunchedExactly`). A connection accepted between the end of an image and its launch can
spoil each of these: `Netboot.TooLate` has the exact condition on what it sends, `Netboot.LateConnection`,
`Netboot.LateEntry` and `Netboot.LateLength` are runs.

Assumptions: disk reads and writes succeed, so the error exits of the file layer that invariants or
working disks rule out (`ABORT`, `FR_DISK_ERR`) do not appear. Bit masks on sizes and offsets are
written as `/` and `%`. `memcpy` and `memset` are assignments of ranges. Sectors have 512 bytes, there
is no exFAT, and the name buffer holds 64 units and a terminator, as `fatfs/ffconf.h` sets it.

## Model

| member | source | states |
|---|---|---|
| FatWindow.FatFs.SyncWindow | fatfs/ff.c:1057-1076 | the disk becomes the logical disk (physical sectors under the dirty window, first-FAT sectors mirrored), which does not change |
| FatWindow.FatFs.MoveWindow | fatfs/ff.c:1079-1100 | the logical disk is unchanged and the window holds the logical content of the sector moved to |
| FatEntries.SetThenGet | fatfs/ff.c:1176-1303 | after setting an entry that entry reads back truncated to its width, every other reads as before (12-bit entries share a byte), and FAT32's top four bits stay |
| FatLaws.EntryIsDigit | fatfs/ff.c:1176-1303 | the FAT is one little-endian number, and entry c is its c-th digit to the base 2^12, 2^16 or 2^32 (of which 28 bits count) |
| FatEntries.GetFat | fatfs/ff.c:1176-1210 | returns the entry of the logical FAT, or 1 for a cluster out of range, without changing the logical disk, also when a 12-bit entry straddles two sectors |
| FatEntries.PutFat | fatfs/ff.c:1254-1303 | exactly the named entry changes, to the value truncated to its width; no sector outside the FAT changes and the second copy still equals the first if it did; out of range nothing changes |
| FatEntries.PutFat12 | fatfs/ff.c:1267-1279 | the two bytes of a 12-bit entry, with a window move in between, set exactly that entry |
| FatChains.Meet | fatfs/ff.c:1468-1501 | two chains that meet share the rest |
| FatChains.Acyclic | fatfs/ff.c:1539-1632 | a chain that ends visits no cluster twice |
| FatChains.VisitedIsPath | fatfs/ff.c:1468-1501 | on every FAT, cyclic and cross-linked ones included, the clusters freed from a start are a path of links from it, each in use and visited once |
| FatChains.VisitedChain | fatfs/ff.c:1468-1501 | from the first cluster of a chain exactly the chain is freed |
| FatChains.StretchedChain | fatfs/ff.c:1615-1618 | linking a free cluster behind the last one makes the chain one longer |
| FatChains.CutChain | fatfs/ff.c:1462-1501 | cutting a chain leaves its head a whole chain and frees exactly its tail |
| FatChains.StepKeeps | fatfs/ff.c:1444-1632 | every allocation, extension, truncation or removal keeps all chains of a volume whole and disjoint and loses no cluster |
| FatChains.RunKeeps | fatfs/ff.c:1444-1632 | the same over every run of such changes; `FatRuns.RunOnVolume` has it for runs of file calls |
| FatChains.KeepsReplaced | fatfs/ff.c:1444-1632 | replacing the chain of one file by one over its own and free clusters, the rest of them being free, keeps all chains whole and disjoint and loses no cluster |
| FatChains.OwnedKept | fatfs/ff.c:1444-1632 | it also keeps the number of the file's clusters plus the free ones |
| FatAlloc.RemoveChain | fatfs/ff.c:1444-1530 | terminates on every FAT; exactly the visited entries become zero, the cluster before gets the end mark, the free count stays exact, only the FAT changes; FR_INT_ERR for bad arguments or an entry of value 1 |
| FatAlloc.UnlinkLoop | fatfs/ff.c:1468-1501 | the freeing loop zeroes exactly the clusters reached from the start, on any FAT |
| FatAlloc.FindFree | fatfs/ff.c:1602-1613 | the wrap-around search from any hint gives the nearest free cluster behind it, or 0 only when no cluster is free |
| FatAlloc.PickFree | fatfs/ff.c:1589-1614 | the cluster right behind the last one if it is free, else the nearest free one behind the hint; 0 only when no cluster is free |
| FatAlloc.LinkNew | fatfs/ff.c:1615-1626 | the new cluster ends the chain, is linked behind the old last one, and is counted |
| FatAlloc.CreateChain | fatfs/ff.c:1539-1632 | follows an existing link, or links one previously free cluster, or returns 0 only on a full volume; the free count stays unknown or exact and its changes are flagged for FSInfo, only the FAT changes |
| FatAlloc.ZerosFree | fatfs/ff.c:4998-5015 | the scan's count is the free count plus the reserved entries that are zero |
| FatAlloc.ReservedMiscounted | fatfs/ff.c:4998-5015 | a FAT16 volume of 0xFFE clusters on which the call answers 0x1000 free ones |
| FatAlloc.GetFree | fatfs/ff.c:4939-5022 | the full scan gives exactly the number of zero entries if and only if the volume is FAT12 or both reserved entries are not zero; the 16/32-bit scan gives the number of all zero entries, reserved ones included; a known count is returned as it is; the 12-bit scan fails with FR_INT_ERR exactly when an entry has the value 1 |
| FatData.ViewPut | fatfs/ff.c:1159-1167 | writing sectors inside a cluster of a file writes their bytes at that place of the file |
| FatData.ViewPatch | fatfs/ff.c:4194-4202 | writing bytes inside one sector of a file writes them at that place of the file |
| FatData.ViewPrefix | fatfs/ff.c:5050-5062 | the first clusters of a chain hold the first bytes of the file |
| FatFileState.FlushKeeps | fatfs/ff.c:4150-4153 | writing the dirty cache back changes no byte of the file |
| FatFileState.LoadKeeps | fatfs/ff.c:4064-4071 | filling the cache changes no byte of the file |
| FatFileWrite.CachedContents | fatfs/ff.c:4186-4202 | bytes put into the cache overwrite or extend the file at the pointer |
| FatFileWrite.DirectContents | fatfs/ff.c:4158-4180 | sectors written straight to the disk overwrite or extend the file at the pointer, also when the cache held one of them |
| FatFileWrite.ExtendContents | fatfs/ff.c:4125-4145 | a new cluster behind the chain changes no byte of the file |
| FatFileSeek.Shortcut | fatfs/ff.c:4643-4650 | the test takes the shortcut exactly when the target is in the current cluster or behind its start, and the masked pointer is where the current cluster starts |
| FatFileTruncate.CutFatKeeps | fatfs/ff.c:5050-5062 | exactly the tail is freed, the head is a whole chain, no other entry changes |
| FatFileTruncate.KeptJustHolds | fatfs/ff.c:5050-5062 | the clusters kept hold the bytes up to the pointer, and fewer would not |
| FatFileTruncate.TruncatedContents | fatfs/ff.c:5050-5074 | after truncation the file is its first bytes up to the pointer |
| FatFileTruncate.TruncatedConfined | fatfs/ff.c:5050-5074 | truncation changes nothing but the FAT, and keeps its copies equal |
| FatSync.UpdatedReads | fatfs/ff.c:4274-4278 | the updated directory entry reads back as the first cluster and size, and keeps its name |
| FatSync.FsInfoReads | fatfs/ff.c:1122-1129 | mounting reads the free count and the hint back from the FSInfo sector |
| FatLaws.UpdatedBytes | fatfs/ff.c:4274-4278 | byte by byte: archive bit, no access date, the fixed date, first cluster and size; every other byte stays |
| FatLaws.FsInfoBytes | fatfs/ff.c:1123-1128 | byte by byte: the three signatures mounting checks, count and hint, and zeros |
| FatSync.SyncFs | fatfs/ff.c:1110-1150 | afterwards the physical disk is the logical disk, and FSInfo is current when it had to be written |
| FatFile.Clst2Sect | fatfs/ff.c:1159-1167 | the first sector of a cluster, 0 out of range |
| FatFile.Fil.Read | fatfs/ff.c:3996-4087 | the buffer gets exactly the bytes from the pointer on, as many as asked for and left; no byte of file or volume changes |
| FatFile.Fil.ReadChunk | fatfs/ff.c:4018-4084 | each round of the loop delivers the next bytes, through the cache or straight from the disk with the dirty cache laid over |
| FatFile.Fil.Write | fatfs/ff.c:4097-4209 | the bytes overwrite or extend the file from the pointer on; the count is exact and falls short only at 4 GiB or when the volume is full at the end of the chain; no cluster in use elsewhere is touched, and every free one not taken into the chain stays free |
| FatFile.Fil.WriteChunk | fatfs/ff.c:4122-4203 | each round stores the next bytes, through the cache or straight to the disk, or stores none because the volume is full; free clusters not taken into the chain stay free |
| FatFile.Fil.Lseek | fatfs/ff.c:4632-4707 | up to the file size the pointer lands on the offset, nothing of the file changes and the current cluster is the one a walk from the start reaches; beyond it a file open for writing grows, short of the offset only when the volume is full; one open for reading stops at its size |
| FatFile.Fil.SeekWalk | fatfs/ff.c:4661-4682 | the walk over the chain ends in the cluster of the target, stretching the chain only when writing, and only by clusters that were free; the other free ones stay free |
| FatFile.Fil.Truncate | fatfs/ff.c:5036-5080 | the file becomes its bytes up to the pointer, exactly the clusters behind it are freed and those left just hold it, every other entry and every sector outside the FAT stays |
| FatFile.Fil.Sync | fatfs/ff.c:4218-4283 | the physical disk, without cache and window, holds the bytes of the file in its clusters; for a file modified since the last sync also its chain in the FAT, and its first cluster, size, time and archive bit in the directory entry; nothing else but FSInfo changes |
| FatRuns.OthersKept | fatfs/ff.c:4097-4209 | any other file keeps its chain and its bytes |
| FatRuns.VolumeKept | fatfs/ff.c:1444-1632 | what a run leaves is a volume with all chains whole, disjoint and accounted for, the file's own one replaced |
| FatRuns.CapacityKept | fatfs/ff.c:1539-1632 | the bytes of the file's clusters and the free ones together stay the same |
| FatRuns.WriteExact | fatfs/ff.c:4097-4209 | a write stops short exactly at that capacity |
| FatRuns.SeekExact | fatfs/ff.c:4632-4707 | a seek stops short exactly at that capacity |
| FatRuns.Run | fatfs/ff.c:3996-4283 | every run of reads, writes, seeks, truncations and syncs, on a file open in any mode, behaves as on an array of bytes with a cursor: exact bytes read, exact counts written and exact positions sought up to a capacity that stays the same all along, refusals without effect; the rest of the volume is left alone, and after a run that ends in a sync the physical disk holds the bytes |
| FatRuns.RunOnVolume | fatfs/ff.c:3996-4283 | the same on a volume of several files: after the run all chains are whole and disjoint and no cluster is lost |
| Lfn.PutLfn | fatfs/ff.c:1976-2001 | writes entry ord of the name: its 13 units with terminator and filling, the checksum, and the last-entry flag on the highest entry only, also for lengths divisible by 13 |
| LfnLaws.PartBytes | fatfs/ff.c:1976-2001 | the order, attribute, type, checksum and cluster bytes of an entry of a name |
| LfnLaws.PartUnit | fatfs/ff.c:1976-2001 | its units: low byte first, at the places of the table, with terminator and filling |
| Lfn.CmpLfn | fatfs/ff.c:1902-1930 | for any entry and any buffer, true exactly when all units up to the terminator agree under upper-casing, the filling is right and a last entry ends where the name does |
| Lfn.PickLfn | fatfs/ff.c:1938-1967 | for any entry, success exactly when it is well formed and fits, and the resulting buffer |
| LfnLaws.LongShape | fatfs/ff.c:1902-1967 | an entry that is compared or picked with success has no cluster, and only filling behind its terminator |
| Lfn.OfsTable | fatfs/ff.c:517 | the places of the 13 units in an entry |
| LfnDirectory.ComputeSum | fatfs/ff.c:2070-2081 | the two shifts and the addition are a rotation right by one bit and an addition modulo 256, for each byte of the short name |
| LfnDirectory.SumDetects | fatfs/ff.c:2070-2081 | short names that differ in one byte have different sums |
| LfnLaws.SumKnown | fatfs/ff.c:2070-2081 | the sum of one short name |
| LfnDirectory.PartAgrees | fatfs/ff.c:1902-1930 | an entry of a stored name is accepted exactly when the searched name agrees with it at all its places, whatever lies behind the searched name's terminator |
| LfnDirectory.AllParts | fatfs/ff.c:1902-1930 | all entries are accepted exactly when the two names are equal but for case |
| LfnDirectory.DirFind | fatfs/ff.c:2446-2480 | the loop is the search `Search`, of which `LfnLaws.SearchExact` says the answer for every directory |
| LfnLaws.SearchExact | fatfs/ff.c:2412-2482 | for every directory and query the answer is the first entry before the end mark that is not deleted and no volume entry, and has the short name or, right in front of it, a whole set of the long name with its checksum; and where the long-name entries in front of it begin. There is no answer only if no entry is such |
| LfnDirectory.FindSet | fatfs/ff.c:2447-2473 | from any state before it, a set is accepted exactly for the names equal but for case or for its short name, and otherwise passed over |
| LfnDirectory.FindInDirectory | fatfs/ff.c:2412-2483 | a search that gets as far as a set finds it exactly for those names |
| LfnDirectory.DirRead | fatfs/ff.c:2334-2400 | the loop is the reading `Reading`, of which `LfnLaws.ReadExact` says the answer for every directory |
| LfnLaws.ReadExact | fatfs/ff.c:2334-2400 | for every directory the next item is the first entry before the end mark that is not deleted, no dot entry, no label and no long-name entry; its long name is the whole set right in front of it, if there is one |
| LfnDirectory.ReadSet | fatfs/ff.c:2369-2388 | reading a set gives the stored name back and its place, from any state before it |
| LfnDirectory.Register | fatfs/ff.c:2559-2593 | the slots get the set of the name: descending entries, and the short entry with its name and case flags, all other bytes zero |
| LfnDirectory.SetInDirectory | fatfs/ff.c:2559-2593 | a set written into a directory is found there as one |
| Bits.StLd | src/crypto_hw.c:43-53 | storing what was loaded gives the same bytes |
| Bits.BswapBigEndian | src/crypto_hw.c:271-280 | a byte-swapped word is stored as the big-endian bytes of the word |
| Bits.IncValue | src/crypto_hw.c:283-286 | the counter function adds one to the big-endian number in the last k bytes, modulo 256^k, and keeps the bytes before it |
| Bits.BigEndianInc | src/crypto_hw.c:243-246 | adding one to a word counts its big-endian bytes, and wraps exactly when they are all 0xFF |
| GcmSpec.CtrTwice | src/crypto_hw.c:178-210 | counter mode undoes itself |
| GcmSpec.TagInParts | src/crypto_hw.c:390-395 | the tag from the hash of the additional data, of the ciphertext and of the length block |
| StandardLaws.J0Counts | src/crypto_hw.c:378-379 | the pre-counter block is the IV and the counter 1 |
| StandardLaws.LengthBlock | src/crypto_hw.c:462-469 | the length block is the number of bits of the additional data, then that of the text |
| AesUnit.Aes.WriteIn1 | mmio.h:354-367 | in counter mode a write to IN1 runs one block: OUT is E(CTR) xor IN, CTR counts on, DONE falls |
| AesUnit.Aes.GoHash | mmio.h:369-384 | the tag becomes (tag xor X) times H; only started when GHASH is idle |
| AesUnit.Wait | src/crypto_hw.c:14-16 | polling ends with the unit idle |
| AesUnit.WaitOut | src/crypto_hw.c:28-31 | polling ends with the unit idle and DONE set, because a block was started |
| AesUnit.WaitHash | mmio.h:455 | polling ends with GHASH idle |
| AesDriver.EncryptBlock | src/crypto_hw.c:154-162 | one block of ECB |
| AesDriver.CtrInc | src/crypto_hw.c:283-286 | counts the last four bytes of the block |
| AesDriver.SwapInc | src/crypto_hw.c:243-246 | the byte-swapped increment counts the 128-bit big-endian counter, carry included |
| AesDriver.AesCtrHw | src/crypto_hw.c:178-210 | counter mode of any length in place or between buffers, with 32- or 128-bit counting; ctr ends behind the last block, the keystream of a last part is given, MODE is left 0 |
| AesDriver.AesCtr | src/crypto_hw.c:212-260 | 128-bit counter mode whether or not the unit has a counter mode |
| AesGcm.HashBytes | src/crypto_hw.c:289-300 | GHASH over zero-padded blocks |
| AesGcm.Setup | src/crypto_hw.c:364-388 | H, E(J0) and the hash of the additional data; counter mode is on with J0+1 next |
| AesGcm.OwedStep | src/crypto_hw.c:312-331 | one round of the overlapped schedule keeps the final hash: decrypting absorbs the block at once, encrypting the one owed from before |
| AesGcm.GcmRound | src/crypto_hw.c:312-331 | a round of the overlapped pass: both units at work, GHASH only started when idle, OUT only read when done |
| AesGcm.CtrAndHash | src/crypto_hw.c:308-355 | the overlapped pass gives counter mode of the input and GHASH of the ciphertext; both units idle and MODE 0 afterwards |
| AesGcm.FinishTag | src/crypto_hw.c:390-395 | absorbs the length block and masks the tag |
| AesGcm.TwoPassText | src/crypto_hw.c:433-461 | the text pass of the two-pass forms, by counter mode or ECB, with the ciphertext hashed when encrypting |
| AesGcm.Encrypt | src/crypto_hw.c:397-476 | on every unit and in every form the ciphertext and tag of SP 800-38D, in place or not; units idle and MODE 0 afterwards |
| AesGcm.Differ | src/crypto_hw.c:490-491 | the constant-time comparison is zero exactly for equal tags |
| AesGcm.Decrypt | src/crypto_hw.c:478-566 | 0 and the plaintext exactly when the tag is right, else -1 and an all-zero buffer, in every form |
| AesGcm.RoundTrip | src/crypto_hw.c:397-566 | what any form encrypts any form decrypts; every other tag is refused |
| ShaSpec.AbsorbConcat | src/crypto_hw.c:95-101 | compressing blocks one part after the other is compressing the whole |
| StandardLaws.PaddedExactly | src/crypto_hw.c:109-122 | the padding is 0x80, the fewest zeros that fill the block up, and the length |
| StandardLaws.IvIsRoots | src/crypto_hw.c:640-646 | the initial hash value is the first 32 bits of the fractional parts of the square roots of the first eight primes |
| ShaUnit.WaitDone | src/crypto_hw.c:18-20 | polling for DONE ends, because a block was started |
| ShaUnit.WordsBytes | src/crypto_hw.c:73-89 | the words of a block or digest stand for its bytes |
| ShaDriver.WriteChunk | src/crypto_hw.c:73-80 | the block registers hold the 64 bytes |
| ShaDriver.PadBlocks | src/crypto_hw.c:114-131 | the last one or two blocks are what is left of the message and the padding of FIPS 180-4 |
| ShaDriver.Finalize | src/crypto_hw.c:112-143 | compresses the rest and the padding in one or two blocks |
| ShaDriver.OneShot | src/crypto_hw.c:570-587 | the SHA-256 of the message, whatever the unit did before |
| ShaDriver.CountWraps | src/crypto_hw.c:600-601 | the wrapping 64-bit byte count gives the bit count of the whole message |
| ShaDriver.ShaContext.Init | src/crypto_hw.c:591-598 | an empty message |
| ShaDriver.ShaContext.Update | src/crypto_hw.c:600-631 | the context is that of the message with the data behind it, for every chunk size |
| ShaDriver.ShaContext.Final | src/crypto_hw.c:633-637 | the SHA-256 of the whole message |
| ShaDriver.Stream | src/crypto_hw.c:591-637 | the digest does not depend on how the message is cut up |
| ShaSaved.SavedBlocks | src/crypto_hw.c:651-662 | compresses blocks onto a saved state, whatever state the unit holds |
| ShaSaved.SavedContext.InitFrom | src/crypto_hw.c:670-675 | continues a state that has hashed whole blocks |
| ShaSaved.SavedContext.Update | src/crypto_hw.c:677-696 | the context is that of the message with the data behind it |
| ShaSaved.SavedContext.Final | src/crypto_hw.c:698-712 | the SHA-256 of the whole message |
| ShaSaved.Interleave | src/crypto_hw.c:651-712 | any number of contexts in any interleaving, with one-shot hashes between them: each digest is the SHA-256 of what that context was fed |
| HmacDriver.Midstate | src/crypto_hw.c:716-736 | hashing behind a pad block is hashing from its midstate |
| HmacDriver.SavedKey | src/crypto_hw.c:716-736 | the midstates of the two pad blocks, for every key length |
| HmacDriver.SavedMac | src/crypto_hw.c:738-749 | the HMAC of RFC 2104 |
| HmacDriver.WrapperMac | src/crypto_hw.c:753-833 | the HMAC with the first 32 bytes of the key, so of the whole key up to 32 bytes, in both padding cases |
| HmacDriver.StreamMac | src/crypto_hw.c:837-867 | the HMAC for every key length |
| RtosModel.WakeOne | src/rtos.c:203-215 | makes the first task waiting on the object, and no other, READY; says that there is none exactly when no task waits |
| RtosKernel.Rtos.Create | src/rtos.c:33-71 | a new READY task with the next id, or -1 when the table is full |
| RtosKernel.Rtos.TickCountUpdate | src/rtos.c:90-103 | the tick counter wraps, and exactly the due sleepers become READY |
| RtosKernel.Rtos.PickNextTask | src/rtos.c:110-126 | the running task gives way to the next READY one in round-robin order |
| RtosKernel.Rtos.WakeOneTask | src/rtos.c:203-215 | wakes the first waiter of the object |
| RtosKernel.Rtos.SleepTicks | src/rtos.c:187-197 | is the step Sleep: nothing before the first task runs, otherwise blocks until the tick and yields |
| RtosKernel.Rtos.SemaphoreWait | src/rtos.c:225-239 | is the step SemWait: takes a unit, or blocks and yields; nothing before the first task runs |
| RtosKernel.Rtos.SemaphoreSignal | src/rtos.c:242-247 | is the step SemSignal |
| RtosKernel.Rtos.SetFlag | src/rtos.c:256-261 | is the step FlagSet |
| RtosKernel.Rtos.WaitFlag | src/rtos.c:264-277 | is the step FlagWait: takes the pending flag, or blocks and yields; nothing before the first task runs; `RtosRuns.FlagsConserved` is about it |
| RtosKernel.Rtos.TaskExit | src/rtos.c:78-83 | is the step Exit, also when no other task is READY and the ended one is kept for the next yield |
| RtosKernel.Rtos.Execute | src/rtos.c:78-277 | any run on the mutable kernel is the run of the model, and keeps its invariant |
| RtosRuns.ScanNearest | src/rtos.c:116-124 | the scan finds the READY task nearest behind the current one |
| RtosRuns.PickRuns | src/rtos.c:110-126 | a pick runs exactly one task, the nearest, counts the switch, and changes nothing else of the others |
| RtosRuns.GivesUpExactly | src/rtos.c:110-126 | a blocking or ending call takes the processor from its caller if and only if some task is READY; otherwise the caller runs on, BLOCKED or DEAD |
| RtosRuns.StepInv | src/rtos.c:78-277 | every step keeps: only the current task runs, counts are not negative, a task is blocked on a semaphore only while its count is 0 and on a flag only while it is not pending |
| RtosRuns.StartInv | src/rtos.c:167-171 | the first pick establishes this |
| RtosRuns.RunInv | src/rtos.c:78-277 | the same in every reachable state |
| RtosRuns.Conserved | src/rtos.c:225-247 | over every run, count plus granted waits is initial count plus signals; a wait is granted when its caller runs on or a signal finds one waiting |
| RtosRuns.FlagsConserved | src/rtos.c:256-277 | over every run, a flag pending plus granted waits is what was pending plus the sets that found it not pending |
| RtosRuns.WaitBlocks | src/rtos.c:225-277 | a wait that is not granted blocks its caller on that object |
| RtosRuns.StaysWaiting | src/rtos.c:203-277 | over every run, a task blocked on a semaphore or flag stays so until a signal or set hands over to it, as the first one waiting |
| RtosRuns.StepWaits | src/rtos.c:203-277 | the same for one step, with what the hand-over does |
| RtosRuns.CreatedReady | src/rtos.c:33-71 | a created task is READY and comes last, and nothing else changes |
| RtosRuns.OneHolder | src/rtos.c:225-247 | a binary semaphore signalled only by holders has at most one holder, over every run |
| RtosRuns.DeadStays | src/rtos.c:78-83 | a DEAD task stays DEAD |
| RtosRuns.StepNearer | src/rtos.c:110-126 | every pick that passes a READY task over brings it nearer, and a created task puts it back by at most one place |
| RtosRuns.ReadyRuns | src/rtos.c:110-126 | over every run, task creation included, a READY task is run before there have been as many picks as tasks: at most its distance plus the tasks created |
| RtosRuns.SleepEnds | src/rtos.c:90-103 | a sleep of t is ended by exactly tick WakeAt(t), whatever else happens and across wrap-around |
| RtosRuns.SleepExact | src/rtos.c:187-197 | in every state, the caller sleeps through every run with fewer than t ticks if and only if t <= 2^31+1 |
| RtosRuns.LongSleepFails | src/rtos.c:187-197 | a sleep of 2^31+2 ticks that is over after one |
| Netboot.Receiver.ImageChecksum | baremetal/programs/netboot.c:115-123 | the sum of the little-endian words of the staged image |
| Netboot.Receiver.Accept | baremetal/programs/netboot.c:276-284 | a new connection starts from nothing; staging, the acknowledged image and the entry stay |
| Netboot.Receiver.TakeHeader | baremetal/programs/netboot.c:200-223 | the header part of a segment, judged when complete and answered as `NetbootLaws.RepliesExactly` says |
| Netboot.Receiver.TakeImage | baremetal/programs/netboot.c:224-249 | the image part of a segment, answered when complete |
| Netboot.Receiver.Consume | baremetal/programs/netboot.c:196-254 | the state is that of the whole stream so far, a complete image is acknowledged, at most one reply is sent, nothing outside the received part of the image is written |
| Netboot.DoneStays | baremetal/programs/netboot.c:250-252 | bytes behind a judged header or a complete image change nothing |
| Netboot.AcceptedExactly | baremetal/programs/netboot.c:207-220 | a header can be completed to an accepted image if and only if its magic is right and its length is between 1 and 16 MiB - 1; with the right magic, 16 MiB and more are answered with status 2 |
| NetbootLaws.RepliesExactly | baremetal/programs/netboot.c:200-249 | a stream is answered with status 1 if and only if it does not begin with KNET, with 2 if and only if it does and the length is 0 or 16 MiB and more, with 0 and the checksum if and only if the image is complete, and else not at all |
| NetbootLaws.MessageAccepted | baremetal/programs/netboot.c:200-249 | a message of magic, length, entry and image reads back, is staged and answered with the checksum of the image |
| NetbootLaws.ChecksumAdds | baremetal/programs/netboot.c:115-123 | checksums of whole words add up modulo 2^32 |
| NetbootLaws.ChecksumWord | baremetal/programs/netboot.c:115-123 | the checksum of a little-endian word is the word |
| Netboot.SameStream | baremetal/programs/netboot.c:196-254 | two receivers of the same stream agree however it was cut up |
| Netboot.TrampolineCopy | baremetal/programs/netboot.c:134-148 | the word-by-word copy leaves the staged bytes at address 0 and everything else as it was |
| Netboot.Launch | baremetal/programs/netboot.c:160-168 | staging is moved to address 0 for the length rounded up in 32 bits, staging and the running trampoline are intact |
| NetbootLaws.RoundedExactly | baremetal/programs/netboot.c:167 | the length of the copy is the next multiple of 8, or 0 when that is 2^32 |
| Netboot.Serve | baremetal/programs/netboot.c:256-352 | for every run of connections and segments: no launch without an acknowledged image, the entry jumped to, and the acknowledged image at address 0 if and only if staging still begins with it as far as it is copied and the rest was there before; it is launched at its own entry if and only if also the entry is still its own and the copy stays in the memory |
| Netboot.SoundHistory | baremetal/programs/netboot.c:196-284 | what the launch relies on holds after every run of connections and segments |
| Netboot.LaunchedExactly | baremetal/programs/netboot.c:256-352 | after every run, the acknowledged image is what is launched, whatever the memory held, if and only if the length at launch covers it and does not leave the memory, staging begins with it, and the entry is its own |
| Netboot.InTime | baremetal/programs/netboot.c:337-353 | without a later connection the acknowledged image is intact, so that it is what is launched |
| Netboot.TooLate | baremetal/programs/netboot.c:276-284 | after a later connection the acknowledged image is intact if and only if the connection has announced its entry and a length that covers it without leaving the memory, and has sent nothing that differs |
| Netboot.LateConnection | baremetal/programs/netboot.c:276-284 | a later connection without a header: what is launched is not the acknowledged image |
| Netboot.LateEntry | baremetal/programs/netboot.c:213-214 | a later header with another entry: the acknowledged image is launched at that one |
| Netboot.LateLength | baremetal/programs/netboot.c:213-219 | a later header that is refused for its length: the copy takes that length and leaves the memory |
| ElfFile.LinkBaseLowest | baremetal/programs/loader.c:133-142 | the link base is the lowest PT_LOAD address |
| ElfFile.Delta | baremetal/programs/loader.c:144 | the signed 32-bit difference, which moves the link base to the load base and is exact if and only if it fits |
| ElfLoader.LoadedContents | baremetal/programs/loader.c:148-164 | every segment holds its file bytes and zeros behind them |
| ElfLoader.BssStaysZero | baremetal/programs/loader.c:161-164 | BSS is zero in the loaded program |
| ElfLoader.PatchMeans | baremetal/programs/loader.c:194-205 | a patched field means the same with target and place moved, for all six kinds |
| ElfLoader.MeaningKept | baremetal/programs/loader.c:166-211 | relocation preserves the meaning of every field: ABS32, ABS64, PCREL32, PC32, PC64 and CALL18 |
| ElfLoader.Abs64Exact | baremetal/programs/loader.c:199-204 | a 64-bit field moves by load base minus link base if and only if that fits in 32 signed bits |
| ElfLoader.FarLoadFails | baremetal/programs/loader.c:199-204 | a program linked at 0x90000000 and loaded at 0x04000000 for which it does not |
| ElfLoader.FindLinkBase | baremetal/programs/loader.c:133-141 | the loop finds the link base of all readable PT_LOAD headers |
| ElfLoader.LoadSegments | baremetal/programs/loader.c:148-164 | memory with all segments loaded in order, or a failure when one cannot be read |
| ElfLoader.Relocate | baremetal/programs/loader.c:172-209 | memory with the relocations listed in `Relas` applied in order; `ElfLaws.RelaListed` and `RelaFrom` say which these are |
| ElfLoader.LoadElf | baremetal/programs/loader.c:109-213 | the checks and errors, memory with the program loaded and relocated, and the moved entry point |
| ElfLoader.ProgramContents | baremetal/programs/loader.c:148-164 | in the loaded program the bytes of a segment outside relocated fields are those of the file, and zero behind them |
| ElfLoader.ProgramMeans | baremetal/programs/loader.c:109-213 | in the loaded program every field that the linker made right for the link addresses is right with symbol and place moved, also when nothing moves |
| ElfLaws.TooShort | baremetal/programs/loader.c:110-114 | a file shorter than an ELF header is refused as unreadable, and no other file is |
| ElfLaws.EhdrReads | baremetal/programs/loader.c:68-132 | an ELF header written in struct order reads back, after the checks of magic, machine and ABI version in their order |
| ElfLaws.PhdrReads | baremetal/programs/loader.c:80-83 | so does a program header |
| ElfLaws.ShdrReads | baremetal/programs/loader.c:85-89 | so does a section header |
| ElfLaws.RelaReads | baremetal/programs/loader.c:91-95 | so does a relocation, with the low byte of the info as its kind and a signed addend |
| ElfLaws.SegmentListed | baremetal/programs/loader.c:148-152 | every program header of type 1 that is in the file is loaded |
| ElfLaws.SegmentFrom | baremetal/programs/loader.c:148-152 | nothing else is |
| ElfLaws.RelaListed | baremetal/programs/loader.c:172-192 | every entry of a section of type 4 whose target section has flag bit 1 is applied, up to the first that is not in the file |
| ElfLaws.RelaFrom | baremetal/programs/loader.c:172-192 | nothing else is |
| ElfLaws.PatchedBytes | baremetal/programs/loader.c:190-205 | kind 1 adds delta to 32 bits, kind 2 to 64 bits, every other kind and every other byte stays |
| ElfLaws.FieldsRight | baremetal/programs/loader.c:109-213 | for every section, entry and program header of the file as these say: the field the entry names keeps its meaning in the loaded program, symbol and place moved |
| ElfLaws.BytesKept | baremetal/programs/loader.c:148-209 | every byte of a loaded segment in no such field is that of the file, or zero behind its size there |
| WordCopy.MergeBytes | lwip_port/ethernetif.c:79-88 | the two shifted words give the eight bytes at offset k |
| WordCopy.MergeIsShift | lwip_port/ethernetif.c:79-88 | for each offset the merge is the expression of the source, shifts by 8k and 64 - 8k |
| WordCopy.CopyTo64 | lwip_port/ethernetif.c:71-91 | writes exactly the bytes a byte loop writes, for every length and alignment; reads only words that hold source bytes if and only if the source is not empty or is aligned, and otherwise the word the empty source points into |
| WordCopy.EmptyCopyStrays | lwip_port/ethernetif.c:79-82 | an empty copy from address 1, which loads the word at 0 |
| WordCopy.Copy32 | lwip_port/ethernetif.c:38-60 | the 32-bit copies in either direction write exactly those bytes |
| WordCopy.PbufToSram | lwip_port/ethernetif.c:103-109 | the slot gets the bytes of the whole chain in order and nothing else |
| PermCycle.SwapMerges | baremetal/programs/perf_baseline.c:162-166 | a swap merges the cycles of i and j and touches no other |
| PermCycle.BuildPerm | baremetal/programs/perf_baseline.c:157-167 | for every choice of j < i the buffer is one cycle through all n slots |
| PermCycle.OneLap | baremetal/programs/perf_baseline.c:170-176 | from slot 0 the chase comes to every slot exactly once and after n steps to 0 again |
| PermCycle.Chase | baremetal/programs/perf_baseline.c:170-176 | the loop follows the cycle and sums the slots it visits, modulo 2^64 |

## Left out

- Failing disk reads and writes, and the `ABORT` exits behind them: the model's disk always works.
- exFAT, fast seek, `f_expand`, `f_mkfs`, `f_find`, file locks and TRIM: not in the configuration.
- Mounting, path walking, `create_name`, code pages and `gen_numname`: tables and string conversion. Upper-casing is an arbitrary function that keeps 0 apart. Directory walking across sectors and clusters (`dir_sdi`, `dir_next`, `dir_alloc`) is a sequence of entries.
- FatFile.Fil.Open: only the state `f_open` leaves for an existing file; finding, creating and truncating on open are not modelled.
- FatFile.Fil.Write: the data is passed as a value; overlap of the caller's buffer with the volume's own buffers is not modelled.
- FatRuns.Run: one file at a time is open for the run; other files are seen through `OthersKept` and `VolumeKept`.
- Lfn.CmpLfn: the length test can look at the unit behind the 65-unit buffer when the whole buffer has matched without a terminator; the model gives that unit an arbitrary value.
- LfnDirectory.DirRead: only `vol` 0 (files, not the volume label).
- The AES rounds, the product of GF(2^128) and the SHA-256 compression function, which are in hardware; key loading; partial overlap of input and output buffers.
- HmacDriver.WrapperMac: the outer block is built by the same padding step as the inner ones, where the source writes it out by hand.
- The TRNG, the wolfSSL glue, `src/atomic.c` and the FreeRTOS and Zephyr ports.
- The context-switch assembly, stacks and canaries of the RTOS. A call is one step, as interrupts are masked up to its yield.
- RtosRuns.RunInv: the runs of `RtosRuns` block or end a task only while another one is READY, as `pick_next_task` expects; `GivesUpExactly` has the other case. Semaphore counts are unbounded integers.
- lwIP and the network setup of netboot.
- Netboot.Serve: a refused length so large that the copy would read beyond the memory ends the model (`Overrun`). Segments of all open connections are one stream, as they share the receiver's state.
- ElfLoader.LoadElf: memory is plain up to the highest address that a 32-bit address plus a 32-bit size reaches; the loader itself and devices are not in it.
- The flat-binary loader, and everything else of `baremetal/programs`.
- PermCycle.BuildPerm: the xorshift generator is an arbitrary choice function.
