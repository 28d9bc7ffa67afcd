# Verified model of the IntelMausi Ethernet driver

A Dafny model of the parts of the driver where a mistake loses data: the commit of the NVM into two flash
banks, the transmit and receive rings, the receive buffer pool, and five small protocols. Everything below is
proved for all inputs, runs or schedules it speaks of. `dafny verify dfyconfig.toml` checks it all.

## What is modelled

**NVM commit.** `FlashPart` is the flash: erase cycles set bits, program cycles only clear them, and a cycle takes
effect as a whole or not at all. `NvmCommit` writes both commits (byte-wise, and dword-wise for the newer controllers) as
lists of cycles; `NvmCrash` says what every prefix of such a list leaves behind, so a crash, a power loss and a
cycle that keeps failing are one statement. Erases that never took place are part of it, as are banks and sectors
that do not fit each other. `NvmDriver.Nvm` has the driver's routines as methods over the flash and
the shadow RAM, with cycles and reads that fail as they please, and ties each commit to its list. `Checksum` is
the sum over the first 64 words. `SmallSectors` is the erase path for 256-byte sectors, with every outcome of its
cycles.

**Transmit ring.** `TxMachine` is a state machine of four parties that take turns one shared access at a time: the
output thread (which maps, reserves, fills and publishes), the hardware, the cleaner, and a reset. `TxSteps` proves
its invariant step by step, `TxTheorems` what follows for every run. `TxRing` says what a packet's loops write and
when that records the packet; `TxDriver.Ring` is the imperative ring, each of whose methods is a run of the machine.

**Receive rings.** `Reassembly` is the pure fold from descriptors to packets, `Fragments` the fragment chain changed in
place. `RxDevice` is the hardware: it completes any number of descriptors before each look of the driver's loop, while
a frame is being handled, and between two batches that are mapped again. `RxRing.Ring` is the ring without address
translation, `RxVtd.VtdRing` the one that maps buffers in batches of sixteen, which may fail.

**Receive pool.** `PoolMachine` interleaves the single statements of one consumer and any number of refill calls over
linked nodes; `PoolTheorems` proves what no schedule can break. `RxPool` has the two lists linked in place.

**Smaller protocols.** `Segmentation` (packets cut at pages and mapped), `Spi` (bit-serial EEPROM writes), `Ltr`
(latency tolerance values, section 6.18 of the PCI Express Base Specification 3.0), `Manage` (the zero-sum management
command) and `Multicast` (the hash filter). `Bits`, `Rotation` and `Options` are shared helpers.

## What turned out conditional

The code meets some of its promises only under a condition. In each case the code is modelled as it is and the
condition is proved to be exact, or a concrete run shows the failure.

- Bank detection that fails to read falls back to bank 0. The commit is crash atomic if and only if the bank it
  took is the active one (`NvmCrash.CrashAtomicExactly`, instance `NvmCrash.DetectionFailureLosesTheNvm`).
- An erase whose retries run out reports success, and the commit goes on over a bank that was not erased. Up to the
  end of the copy nothing is lost (`NvmCrash.AtomicWhileCopying`, `NvmCrash.ViewAfterFailure`). All stops are crash
  atomic if and only if programming over the stale bank yields a complete image
  (`NvmCrash.CrashAtomicUnerasedExactly`); after a commit that reports success some bank is signed if and only if
  the stale signature word had its top bit (`NvmCrash.SignedAfterSuccessExactly`), which the last cycle of the commit
  before cleared in that bank (`NvmCrash.UnerasedCommitLosesTheNvm`); readers keep what they saw at each stop if and only if
  `NvmCrash.KeepsView` holds, a test of the stale bank's bits (`NvmCrash.ViewExactly`). A part that cannot be written
  at all never gets that far, so validation at start-up is right on it (`NvmDriver.Nvm.ValidateAtStart`).
- With banks that hold an image, all commits are crash atomic if and only if the sector erased for a bank covers its
  image and meets no word of the other image (`NvmCrash.GeometryExactly`). In smaller banks the images overlap, and the
  first cycle of a commit from bank 0 spares bank 0's image if and only if that had ones wherever the sector reaches
  (`NvmCrash.SmallBanksTear`).
- After a successful commit over an erased bank readers see what they saw before if and only if the signature word
  they saw carried 10b (`NvmCrash.ViewAfterSuccess`).
- The two-word read of the newer controllers looks the second word up by the first word's modified flag; it is right if
  and only if the flags of each pair agree or shadow and flash agree on that word (`NvmDriver.SptReadExactly`, instance
  `NvmDriver.PendingChecksumIsMissed`).
- With 256-byte sectors the erase address moves on by the round number, and again on each retry: the bank is erased
  if and only if it has at most two sectors, the first is erased within the ten tries and the second at the try after
  that (`SmallSectors.ErasesExactly`, instances `SmallSectors.ThreeSectorsMiss` and `SmallSectors.RetryMisses`, both
  reported as successes). The comment in the source describes the start of sector n as n * 256; the model follows the code.
- A packet is recorded where its reservation ends if and only if its offload bits are those a context descriptor is
  counted for and a segmentation request has two segments or more (`TxRing.RecordedExactly`).
- The guard before taking a memory descriptor holds if and only if fewer than 255 packets are in flight, and one more
  for each packet that went out unmapped (`TxTheorems.GuardExactly`). It never fails when packets take two descriptors or
  more (`TxTheorems.GuardNeverFails`); packets of one descriptor can make it fail (`TxTheorems.SinglesOutrunTheMap`).
  The packet then goes out unmapped, and its release leaves the free count of memory descriptors one too high until the
  next reset (`TxTheorems.EveryRunCountsMemory`). What is proved of transmit descriptors and releases holds of such
  runs too; the order of the memory descriptors holds until the first unmapped packet, and again after a reset
  (`TxTheorems.EveryRunMapsInOrder`).
- The next receive batch to map is the one the driver is in if and only if no batch has been given up since the last
  reset, and a call gives batches up if and only if one of its mappings fails (`RxVtd.VtdRing.RxInterruptVTD`, instance
  `RxVtd.FailedMappingLags`). A batch given up is tried again later, but the count of those behind it is lost for good,
  and with it as many batches of descriptors for the device (`RxVtd.BacklogStarves`). A reset maps every batch
  if and only if all its mappings work (`RxVtd.VtdRing.ClearRing`).
- The driver decodes latencies in 32 bits. For its own encodings the result lies within one step above the latency if
  and only if the latency is at most 127 * 2^25 (`Ltr.Decoded32Exactly`, instance `Ltr.LargeLatencyVanishes`).
- Cutting a latency off at the larger of the platform's two limits by comparing encodings is right for every latency if
  and only if the larger encoding stands for the larger latency and has scale zero or a value of 32 or more, or, for
  encodings above every one of the driver's, the larger latency is no less than any it can encode
  (`Ltr.CutOffExactly`).
- With eight address bits the serial EEPROM's ninth is taken from the offset of the whole write, not of the page: the
  words come to lie where they should if and only if the write does not cross word 128 (`Spi.StoredExactly`, instance
  `Spi.CrossingMisses`).
- A piece of a packet is empty if and only if the packet is a lone empty buffer that does not start a page
  (`Segmentation.EmptyPieceExactly`, instance `Segmentation.EmptyPieceTaken`).

One comment disagrees with the code: the example for filter type 2 at `IntelMausiEthernet/mac.c:311` gives 0x163 for an
expression whose value is 0x58D. The model follows the code (`Multicast.ExampleHashes`).

## Model

| member | source | states |
|---|---|---|
| FlashPart.ProgramOnlyClears | IntelMausiEthernet/ich8lan.c:4052-4058 | a program cycle of either width only turns ones into zeros, which is what makes writing the signature without an erase possible |
| NvmCommit.AlignedIsSound | IntelMausiEthernet/ich8lan.c:4466-4488 | banks made of whole sectors that hold an image make the geometry sound |
| NvmCommit.FilledAt | IntelMausiEthernet/ich8lan.c:3986-4024 | copying onto any contents ANDs the image, signature bits kept at 11b, into exactly the words copied so far |
| NvmCommit.ByteFillRuns | IntelMausiEthernet/ich8lan.c:3986-4024 | two byte cycles a word have the effect of one AND with that word |
| NvmCommit.DwordFillRuns | IntelMausiEthernet/ich8lan.c:3818-3860 | dword cycles leave the same contents as the word-by-word copy |
| NvmCrash.BytePrefix | IntelMausiEthernet/ich8lan.c:3973-4066 | what the flash holds after any number of the byte-wise commit's cycles |
| NvmCrash.DwordPrefix | IntelMausiEthernet/ich8lan.c:3805-3915 | the same for the dword-wise commit, as a point of the byte-wise one |
| NvmCrash.DwordRefinesByte | IntelMausiEthernet/ich8lan.c:3805-3915 | every prefix of the dword-wise commit leaves the flash as some prefix of the byte-wise one does, and both end with identical contents |
| NvmCrash.CrashAtomic | IntelMausiEthernet/ich8lan.c:3946-4084 | on a sound geometry, after an erase that took place and any further prefix of the byte-wise commit, a bank is signed and the selected one holds the complete old or the complete new image |
| NvmCrash.CrashAtomicDword | IntelMausiEthernet/ich8lan.c:3778-3933 | the same for the dword-wise commit |
| NvmCrash.AtomicWhileCopying | IntelMausiEthernet/ich8lan.c:3973-4033 | the same for every stop up to the end of the copy, whether or not the erase took place |
| NvmCrash.CrashAtomicUnerasedExactly | IntelMausiEthernet/ich8lan.c:4535-4545 | an erase that ran out of retries but reports success: all stops are crash atomic if and only if programming over the stale bank yields a complete image |
| NvmCrash.SignedAfterSuccessExactly | IntelMausiEthernet/ich8lan.c:4035-4060 | after a commit that reports success some bank is signed if and only if the spare signature word had its top bit |
| NvmCrash.UnerasedCommitLosesTheNvm | IntelMausiEthernet/ich8lan.c:4535-4545 | a commit over the signature an earlier commit invalidated succeeds and leaves no bank signed |
| NvmCrash.GeometryExactly | IntelMausiEthernet/ich8lan.c:628-632 | for banks of at least 2048 words and any sector size, all commits are crash atomic if and only if each erase covers its bank's image and misses the other's |
| NvmCrash.SmallBanksTear | IntelMausiEthernet/ich8lan.c:628-632 | in smaller banks the erase for bank 1 leaves bank 0's image as it was if and only if that had ones wherever the sector reaches |
| NvmCrash.CrashAtomicExactly | IntelMausiEthernet/ich8lan.c:3967-3971 | with the fall-back to bank 0, all prefixes are crash atomic if and only if the bank taken is the active one |
| NvmCrash.DetectionFailureLosesTheNvm | IntelMausiEthernet/ich8lan.c:3215-3222 | a flash whose only signed bank is gone one cycle after such a fall-back |
| NvmCrash.UnerasedCommitExactly | IntelMausiEthernet/ich8lan.c:4535-4545 | erased or not, a whole commit leaves the intended image in the spare bank if and only if that bank still had every bit of it |
| NvmCrash.WholeCommit | IntelMausiEthernet/ich8lan.c:3946-4084 | after a whole commit over an erased bank the other bank holds, word by word, the pending words and those of the old bank, its signature bits at 10b, and of the old bank only the upper byte of the signature word is cleared |
| NvmCrash.ViewAfterFailure | IntelMausiEthernet/ich8lan.c:4029-4069 | on every way out short of success a bank stays signed, and readers see what they saw before if and only if KeepsView, which holds up to the end of the copy and, over an erased bank, always |
| NvmCrash.ViewAfterSuccess | IntelMausiEthernet/ich8lan.c:4040-4066 | on success over an erased bank the other bank is active, and readers see what they saw if and only if the signature they saw was 10b |
| NvmCrash.ViewBeforeTheLast | IntelMausiEthernet/ich8lan.c:4040-4060 | with both banks signed readers see what they saw if and only if the old bank is bank 0, or the new signature did not take, or no unmodified word lost a bit |
| NvmCrash.ViewAtTheEnd | IntelMausiEthernet/ich8lan.c:4040-4066 | with the old bank invalidated and the shadow RAM cleared they do if and only if the spare bank had every bit of the image |
| NvmCrash.ViewExactly | IntelMausiEthernet/ich8lan.c:3946-4084 | wherever a commit stops, erased or not, readers see what they saw if and only if KeepsView, and then a bank is signed |
| NvmDriver.SptReadExactly | IntelMausiEthernet/ich8lan.c:3306-3327 | a multi-word dword-wise read delivers shadow over flash if and only if each pair agrees |
| NvmDriver.PendingChecksumIsMissed | IntelMausiEthernet/ich8lan.c:3306-3327 | a pending checksum word read as the second of a pair whose first is not pending shows the old one |
| NvmDriver.Nvm.RetryProgram | IntelMausiEthernet/ich8lan.c:4379-4434 | a retried program cycle takes effect once, or not at all and reports an error after one try and a hundred more |
| NvmDriver.Nvm.EraseBank | IntelMausiEthernet/ich8lan.c:4444-4546 | an error means nothing was erased; success means erased, unless ten tries failed; with cycles that work it erases |
| NvmDriver.Nvm.DetectBank | IntelMausiEthernet/ich8lan.c:3152-3244 | with working reads bank 1 is found if and only if it is signed and bank 0 is not, and it fails if and only if neither is; any failure leaves bank 0 |
| NvmDriver.Nvm.ReadWords | IntelMausiEthernet/ich8lan.c:3348-3397 | each word read is the pending one of the shadow RAM if it is marked, else that of the bank found; requests that are empty or reach beyond 2048 words are refused |
| NvmDriver.Nvm.ReadPair | IntelMausiEthernet/ich8lan.c:3306-3327 | a pair of the dword-wise read, both words chosen by the flag of the first |
| NvmDriver.Nvm.ReadLone | IntelMausiEthernet/ich8lan.c:3288-3305 | a lone last word is picked from the right half of its dword |
| NvmDriver.Nvm.ReadWordsSpt | IntelMausiEthernet/ich8lan.c:3255-3337 | for any offset and length, each word comes from the shadow RAM if and only if the first word of its pair is marked, else from the bank found |
| NvmDriver.Nvm.ReadWord | IntelMausiEthernet/ich8lan.c:3255-3397 | a one-word read of either kind shows the current view |
| NvmDriver.Nvm.WriteWords | IntelMausiEthernet/ich8lan.c:3742-3765 | a write marks exactly the requested words of the shadow RAM, or is refused and changes nothing |
| NvmDriver.Nvm.CopyWord | IntelMausiEthernet/ich8lan.c:3986-4024 | one round of the copy performs the next two cycles of the list, or stops at the one that fails |
| NvmDriver.Nvm.CopyDword | IntelMausiEthernet/ich8lan.c:3818-3860 | one round of the dword-wise copy performs the next cycle of its list or none |
| NvmDriver.Nvm.CloseBytes | IntelMausiEthernet/ich8lan.c:4035-4060 | signing the new bank and invalidating the old one are the last two cycles of the list |
| NvmDriver.Nvm.CloseDwords | IntelMausiEthernet/ich8lan.c:3871-3909 | the same with dwords |
| NvmDriver.Nvm.CommitBytes | IntelMausiEthernet/ich8lan.c:3961-4084 | the commit performs a prefix of its list, all of it if and only if it succeeds, as it does when reads and cycles work; only then is the shadow RAM cleared |
| NvmDriver.Nvm.CommitDwords | IntelMausiEthernet/ich8lan.c:3793-3933 | the same for the dword-wise commit |
| NvmDriver.SafeKeepsView | IntelMausiEthernet/ich8lan.c:4535-4545 | the view survives every stop if an erase is never passed over, or nothing can be written, or the spare bank has every bit of the image |
| NvmDriver.Nvm.CommitShadow | IntelMausiEthernet/ich8lan.c:3778-4084 | a commit of either kind stops after some prefix of its list, the whole of it if and only if it succeeds, as it does when reads and cycles work; if it took the active bank readers see what they saw if and only if KeepsView, so always where the image is safe to commit; after success over an erased bank both banks hold what `NvmCrash.WholeCommit` says |
| NvmDriver.CleanViewIsSigned | IntelMausiEthernet/ich8lan.c:665-672 | with an empty shadow RAM and a signed bank, readers see a signed image, as the commit needs |
| Checksum.ChecksumRepairs | IntelMausiEthernet/nvm.c:595-615 | the recomputed checksum word makes any image sum to 0xBABA modulo 2^16 |
| Checksum.ZerosExactly | IntelMausiEthernet/nvm.c:564-585 | with zeros before it the checksum word must be 0xBABA |
| Checksum.WrapsExactly | IntelMausiEthernet/nvm.c:564-585 | the sum wraps at sixteen bits: behind 0xFFFF and 1 the checksum word must be 0xBABA, behind 0xFFFF and 2 it must be 0xBAB9 |
| NvmDriver.Nvm.UpdateChecksumGeneric | IntelMausiEthernet/nvm.c:595-615 | afterwards the sum is right, and readers see every other word as before |
| NvmDriver.Nvm.UpdateChecksum | IntelMausiEthernet/ich8lan.c:3946-4084 | the same through the commit of that image: it succeeds if and only if the whole list is performed, and readers see the right sum and every other word as before if and only if KeepsView |
| NvmDriver.Nvm.ValidateGeneric | IntelMausiEthernet/nvm.c:564-585 | succeeds if and only if the first 64 words readers see sum to 0xBABA |
| NvmDriver.Nvm.Validate | IntelMausiEthernet/ich8lan.c:4094-4136 | if the valid-checksum bit is clear, it is set and the checksum repaired first: where the commit keeps the view, readers see every other word as before, and in that word the bits it had and those of the mask; success means the commit succeeded and the sum is right; otherwise nothing changes and the sum decides |
| NvmDriver.Nvm.Repair | IntelMausiEthernet/ich8lan.c:4119-4134 | the repair alone: nothing happens unless the bit is clear; then the repaired image is committed, and readers see it if and only if KeepsView of that commit |
| NvmDriver.RepairedIsRight | IntelMausiEthernet/ich8lan.c:4125-4135 | a repaired image sums up right, is not repaired again and keeps its signature |
| NvmDriver.Nvm.ValidateAtStart | IntelMausiEthernet/IntelMausiEthernet.cpp:1822-1831 | after a success readers see a right sum; if a repair is safe to commit the three tries succeed if and only if the bit was clear or the sum right already, even if every commit fails: also on a part whose erases report success and do nothing, as when it is write-protected |
| SmallSectors.EraseSectors | IntelMausiEthernet/ich8lan.c:4496-4542 | which sectors the 256-byte path erases and what it reports, for any outcome of its cycles |
| SmallSectors.ErasesExactly | IntelMausiEthernet/ich8lan.c:4525-4525 | that path erases its bank and nothing else if and only if there are at most two sectors, the first erased within ten tries and the second at the next |
| SmallSectors.ThreeSectorsMiss | IntelMausiEthernet/ich8lan.c:4525-4525 | three sectors without a failure: the last cycle erases beyond the bank and success is reported |
| SmallSectors.RetryMisses | IntelMausiEthernet/ich8lan.c:4525-4525 | two sectors and one retry: the same |
| SmallSectors.AllFail | IntelMausiEthernet/ich8lan.c:4496-4545 | if no cycle works the ten tries are used up in the first round, every later round tries once more, nothing is erased, and success is reported |
| SmallSectors.AbortEnds | IntelMausiEthernet/ich8lan.c:4535-4542 | a first cycle that is neither done nor may be repeated ends the routine with an error and nothing erased |
| TxTheorems.StepKeepsInv | IntelMausiEthernet/IntelMausiEthernet.cpp:579-775 | every step of every party keeps the ring's invariant |
| TxTheorems.EveryRun | IntelMausiEthernet/IntelMausiEthernet.cpp:579-775 | so every state of every schedule has it, with packets that go out unmapped and tails that read back wrong |
| TxTheorems.EveryRunConserves | IntelMausiEthernet/IntelMausiEthernet.cpp:579-775 | in every state of every schedule free descriptors, those recorded in the ring, those reserved and those on their way back make 512, and at least two stay free |
| TxTheorems.EveryRunReleasesOnce | IntelMausiEthernet/IntelMausiEthernet.cpp:1173-1208 | in every state of every schedule, resets included, each submitted packet has been released once or is still recorded, and since the last reset release follows submission order |
| TxTheorems.EveryRunWaitsForHardware | IntelMausiEthernet/IntelMausiEthernet.cpp:1179-1190 | whenever the cleaner is about to free a packet, the hardware has passed all its descriptors |
| TxTheorems.EveryRunShowsDone | IntelMausiEthernet/IntelMausiEthernet.cpp:745-757 | in every state of every schedule the last slot of a recorded packet asks for a report, and is marked done if and only if the hardware has passed the packet |
| TxTheorems.HardwareCatchesUp | IntelMausiEthernet/IntelMausiEthernet.cpp:1173-1190 | from any reachable state without a pending reset the hardware can go on to the published tail, and every recorded packet up to there then shows done |
| TxTheorems.EveryRunKeepsApart | IntelMausiEthernet/IntelMausiHardware.cpp:1187-1187 | in no state of any schedule is a slot from the dirty index to the barrier one the output thread is filling |
| TxTheorems.EveryRunMapsInOrder | IntelMausiEthernet/IntelMausiVTD.cpp:272-345 | in every state of every schedule the memory descriptors from next-to-free on are the mapped packets in order and the rest inactive, unless a packet has gone out unmapped since the last reset, which takes packets of one descriptor |
| TxTheorems.EveryRunCountsMemory | IntelMausiEthernet/IntelMausiVTD.cpp:272-345 | in every state of every schedule free memory descriptors, packets counted as mapped and descriptors on their way make 256, and one more for each packet that went out unmapped since the last reset |
| TxTheorems.Conservation | IntelMausiEthernet/IntelMausiEthernet.cpp:695-775 | the conservation law of one state, from the invariant |
| TxTheorems.CleanerAndProducerApart | IntelMausiEthernet/IntelMausiHardware.cpp:1187-1187 | the slots of cleaner and output thread are apart, from the invariant |
| TxTheorems.ReleasedInOrderWhenDone | IntelMausiEthernet/IntelMausiEthernet.cpp:1178-1201 | the cleaner frees the oldest packet since the last reset, and only when the hardware has passed all its descriptors |
| TxTheorems.ScanFindsAll | IntelMausiEthernet/IntelMausiSetup.cpp:690-698 | the packets found in the slots are exactly the recorded ones |
| TxTheorems.ReleasedExactlyOnce | IntelMausiEthernet/IntelMausiEthernet.cpp:1173-1208 | submitted packets are the released ones plus those still recorded, each as often as submitted |
| TxTheorems.ResetReleasesAll | IntelMausiEthernet/IntelMausiSetup.cpp:690-712 | after a reset everything ever submitted has been released and the ring is empty |
| TxTheorems.MappedSlots | IntelMausiEthernet/IntelMausiVTD.cpp:272-330 | active memory descriptors are exactly the slots from next-to-free to next-to-use, in packet order |
| TxTheorems.InFlightCount | IntelMausiEthernet/IntelMausiVTD.cpp:272-345 | packets in flight are the memory descriptors that are not free, and one more for each packet that went out unmapped |
| TxTheorems.GuardNeverFails | IntelMausiEthernet/IntelMausiVTD.cpp:272-272 | with two descriptors a packet or more the mapping guard always holds |
| TxTheorems.GuardExactly | IntelMausiEthernet/IntelMausiVTD.cpp:272-272 | the guard holds if and only if the packets in flight are fewer than 255 plus those that went out unmapped |
| TxTheorems.SinglesOutrunTheMap | IntelMausiEthernet/IntelMausiVTD.cpp:272-272 | a run of single-descriptor packets after which the descriptor guard holds and the mapping guard does not |
| TxTheorems.FailedMappingRollsBack | IntelMausiEthernet/IntelMausiVTD.cpp:324-330 | a mapping that fails leaves no trace |
| TxTheorems.SlicesApart | IntelMausiEthernet/IntelMausiVTD.cpp:273-279 | the range-table slices of two packets in flight never overlap, also across the wrap |
| TxTheorems.NewSliceApart | IntelMausiEthernet/IntelMausiVTD.cpp:273-279 | nor does the slice of the packet being mapped |
| TxRing.Written | IntelMausiEthernet/IntelMausiEthernet.cpp:699-774 | a packet's slots hold what its loops wrote, all others what they held |
| TxRing.WritesInPlace | IntelMausiEthernet/IntelMausiEthernet.cpp:699-774 | slot by slot: a bare context slot for any offload bit, a slot a segment, and in the last the packet, its number of descriptors and the report request, but for a segmentation request of one segment; no other slot changes |
| TxRing.RecordedExactly | IntelMausiEthernet/IntelMausiEthernet.cpp:597-775 | the packet is recorded at the end of its reservation if and only if its offload bits are counted and a segmentation request has two segments or more |
| TxRing.SingleSegmentIsLost | IntelMausiEthernet/IntelMausiEthernet.cpp:719-735 | a segmentation request of one segment is recorded nowhere |
| TxRing.SubmitIsRun | IntelMausiEthernet/IntelMausiEthernet.cpp:695-775 | the loops of a recordable packet are the machine's reservation and fill steps |
| TxDriver.Ring.MapPacket | IntelMausiEthernet/IntelMausiVTD.cpp:268-330 | takes and activates one memory descriptor, or rolls back, or lets the packet out unmapped |
| TxDriver.Ring.FillSlots | IntelMausiEthernet/IntelMausiEthernet.cpp:700-774 | both loops leave those slots, for any packet: bare ones, the last with packet, count and report request, all others as they were |
| TxDriver.Ring.SubmitPacket | IntelMausiEthernet/IntelMausiEthernet.cpp:695-775 | takes one descriptor a segment, and one more for segmentation or a counted checksum, and leaves those slots; a run of the machine for recordable packets |
| TxDriver.Ring.UpdateTxDescTail | IntelMausiEthernet/IntelMausiHardware.cpp:1168-1188 | tail and barrier are moved to the end of what is filled, the tail first; a tail that reads back otherwise turns the transmitter off and asks for a reset |
| TxDriver.Ring.OutputStart | IntelMausiEthernet/IntelMausiEthernet.cpp:554-781 | takes packets while there is room for the largest and no reset is asked for; a packet taken goes out if and only if it is prepared, has a segment and its mapping, where one is tried, works; those that go out are appended to what was submitted, in their order, and published; with two descriptors a packet a mapping is always tried |
| TxDriver.Ring.TxUnmapPacket | IntelMausiEthernet/IntelMausiVTD.cpp:336-345 | the oldest memory descriptor becomes inactive and free |
| TxDriver.Ring.FreePacket | IntelMausiEthernet/IntelMausiEthernet.cpp:1189-1197 | the oldest packet is freed and its descriptors counted free |
| TxDriver.Ring.TxInterrupt | IntelMausiEthernet/IntelMausiEthernet.cpp:1173-1208 | frees, in order, exactly the packets that the hardware has passed and that are published; these are the done ones up to the first that is not |
| TxDriver.Ring.ClearDescriptors | IntelMausiEthernet/IntelMausiSetup.cpp:680-713 | frees every recorded packet, empties both rings and starts over |
| Reassembly.PendingRun | IntelMausiEthernet/IntelMausiEthernet.cpp:1262-1303 | what is pending is the run of good descriptors that has not ended, and there are as many packets as ends |
| Reassembly.DeliversTheRuns | IntelMausiEthernet/IntelMausiEthernet.cpp:1221-1312 | each run of good descriptors that ends a packet is delivered, in order, with its buffers and the sum of their lengths |
| Reassembly.OnlyTheRuns | IntelMausiEthernet/IntelMausiEthernet.cpp:1221-1312 | and nothing else is |
| Reassembly.RunsAreUnique | IntelMausiEthernet/IntelMausiEthernet.cpp:1221-1312 | a run starts after the last end or failure and nowhere else |
| Reassembly.OnePacket | IntelMausiEthernet/IntelMausiEthernet.cpp:1262-1303 | good descriptors of which none but the last may end a packet, with nothing pending before them, are joined in order |
| Reassembly.CallFolds | IntelMausiEthernet/IntelMausiEthernet.cpp:1221-1221 | a call folds what it consumes, delivers at most its bound and stops early only at it |
| Reassembly.SplitDoesNotMatter | IntelMausiEthernet/IntelMausiEthernet.cpp:1210-1326 | however the work is split into calls with positive bounds, the same packets are delivered |
| Fragments.Fragment.Collect | IntelMausiEthernet/IntelMausiEthernet.cpp:1262-1303 | a buffer is linked to the chain and its bytes are added; at the end of a packet the chain goes up with its size and nothing is pending; both stay the fold of all events |
| Fragments.Fragment.Discard | IntelMausiEthernet/IntelMausiSetup.cpp:735-746 | a failure or a reset gives the fragment up |
| RxDevice.WrittenNext | IntelMausiEthernet/IntelMausiEthernet.cpp:1306-1311 | arming a consumed slot again keeps every slot either done and in order, or armed with its buffer's address |
| RxDevice.Device.Complete | IntelMausiEthernet/IntelMausiHardware.cpp:1152-1166 | the hardware completes descriptors in order and never the one at the tail |
| RxRing.Ring.Receive | IntelMausiEthernet/IntelMausiEthernet.cpp:1222-1258 | which frames fail, and what passing on, copying or keeping a buffer does to its slot; every slot keeps a buffer of its own |
| RxRing.Ring.ConsumeOne | IntelMausiEthernet/IntelMausiEthernet.cpp:1221-1312 | one round, with the hardware going on meanwhile, consumes the descriptor it completed next and keeps slots, addresses, buffers and the distance to the tail right |
| RxRing.Ring.RxInterrupt | IntelMausiEthernet/IntelMausiEthernet.cpp:1210-1326 | ends with everything consumed or with the packet that reaches the bound; a frame is a failure if and only if it is bad, the pool has nothing, or it is longer than what is copied and the buffer comes in pieces; a long frame goes up in its slot's buffer and a new one takes the slot, a short one in a copy; a packet found whole in n frames goes up as one of n buffers and all their bytes; the tail moves once sixteen slots are consumed |
| RxRing.WholeFrame | IntelMausiEthernet/IntelMausiEthernet.cpp:1262-1303 | the good frames of a packet, with nothing pending before them, add exactly one packet, of all their buffers in order and the sum of their lengths |
| RxRing.Ring.ClearRing | IntelMausiEthernet/IntelMausiSetup.cpp:714-732 | every slot armed with its own buffer, the fragment given up, all but the last slot with the hardware |
| RxRing.UnsharedReplaced | IntelMausiEthernet/MausiRxPool.cpp:254-261 | replacing a buffer keeps all buffers in slots distinct from each other and from all passed on |
| RxRing.UnsharedCopied | IntelMausiEthernet/MausiRxPool.cpp:262-273 | so does copying |
| RxVtd.MappedBatch | IntelMausiEthernet/IntelMausiVTD.cpp:366-411 | after a batch is mapped again, address zero still marks exactly the stale slots and those of a batch whose mapping failed, none of them ahead of the driver |
| RxVtd.WrittenBatch | IntelMausiEthernet/IntelMausiVTD.cpp:396-411 | arming a consumed batch keeps every other slot's state |
| RxVtd.LookAhead | IntelMausiEthernet/IntelMausiVTD.cpp:445-445 | the loop's look at a done bit is right although earlier slots still show theirs: it never comes round to a consumed slot |
| RxVtd.NextIsMapped | IntelMausiEthernet/IntelMausiVTD.cpp:445-447 | the address the next slot gave the hardware is where its own buffer lies |
| RxVtd.VtdRing.MapBatch | IntelMausiEthernet/IntelMausiVTD.cpp:366-427 | ranges of replaced buffers are updated; if the mapping works all sixteen slots are mapped and armed, if not no slot and no index changes |
| RxVtd.VtdRing.RxMapBuffers | IntelMausiEthernet/IntelMausiVTD.cpp:356-432 | consumed batches are mapped and only then handed to the hardware, which may use each at once: all of them, or those before the first mapping that fails |
| RxVtd.VtdRing.Receive | IntelMausiEthernet/IntelMausiVTD.cpp:446-481 | as for the other ring, but a replaced buffer leaves its slot without an address |
| RxVtd.VtdRing.ConsumeOne | IntelMausiEthernet/IntelMausiVTD.cpp:445-537 | one round, with the hardware going on meanwhile, and the count of whole batches |
| RxVtd.VtdRing.RxInterruptVTD | IntelMausiEthernet/IntelMausiVTD.cpp:434-543 | fails, replaces, copies and delivers frames as the other ring does, word for word; all whole batches are mapped again up to the first mapping that fails, the rest are given up; the next batch to map is the next slot rounded down to sixteen if and only if none has been given up, and the tail is the slot before it |
| RxVtd.FailedMappingLags | IntelMausiEthernet/IntelMausiVTD.cpp:376-391 | sixteen bad frames and a mapping that fails: the next batch to map is no longer the one the driver is in |
| RxVtd.BacklogStarves | IntelMausiEthernet/IntelMausiVTD.cpp:434-543 | each batch given up leaves the device sixteen descriptors less |
| RxVtd.MappedTried | IntelMausiEthernet/IntelMausiVTD.cpp:376-391 | a failed mapping only brings the ranges of its batch up to date |
| RxVtd.VtdRing.ClearRing | IntelMausiEthernet/IntelMausiSetup.cpp:714-732 | every slot armed with its own buffer and mapped up to the first mapping that fails, so the ring is valid if all work; a slot beyond keeps the address it had, possibly none |
| PoolTheorems.StepKeepsInv | IntelMausiEthernet/MausiRxPool.cpp:155-230 | every single statement of the consumer and of a refill keeps the pool's invariant |
| PoolTheorems.CountIsReachable | IntelMausiEthernet/MausiRxPool.cpp:155-230 | under every interleaving both lists hold a node, the tail is reached from the head, and the count exceeds neither the nodes on that way nor the capacity |
| PoolTheorems.FirstInFirstOut | IntelMausiEthernet/MausiRxPool.cpp:155-230 | packets leave in the order they came, none lost and none twice |
| PoolTheorems.OneRefill | IntelMausiEthernet/MausiRxPool.cpp:162-164 | at most one refill is scheduled or at work, and only while the flag is raised |
| PoolTheorems.CallAlone | IntelMausiEthernet/MausiRxPool.cpp:155-188 | a call that nothing interrupts takes the oldest packet if the list counts two or more and nothing otherwise, and schedules a refill if and only if fewer than capacity - capacity / 2 are left and none is scheduled |
| PoolTheorems.ServedOrScheduled | IntelMausiEthernet/MausiRxPool.cpp:155-188 | whatever interrupts it, a call comes back with its packet only when the list is not low or a refill is scheduled |
| PoolTheorems.RefillAlone | IntelMausiEthernet/MausiRxPool.cpp:190-230 | a refill that nothing interrupts and that finds memory fills both lists to capacity behind what they hold, ends, and lowers the flag |
| PoolTheorems.LinkAccessesApart | IntelMausiEthernet/MausiRxPool.cpp:155-207 | the consumer never reads or writes the link a refill is about to write |
| PoolTheorems.WalkQueue | IntelMausiEthernet/MausiRxPool.cpp:158-160 | following links visits the queued nodes in order |
| RxPool.PacketList.Append | IntelMausiEthernet/MausiRxPool.cpp:76-84 | links a packet behind the tail, or makes it the only one |
| RxPool.PacketList.TakeHead | IntelMausiEthernet/MausiRxPool.cpp:155-160 | unlinks the oldest packet and leaves the rest linked |
| RxPool.Pool.constructor | IntelMausiEthernet/MausiRxPool.cpp:39-125 | both lists filled to capacity, or both empty when memory runs out |
| RxPool.Pool.GetPacket | IntelMausiEthernet/MausiRxPool.cpp:143-188 | a new packet, else the oldest of the right list unless it is the last; a refill is asked for if and only if fewer than capacity - capacity / 2 are left and none was asked for |
| RxPool.Pool.RefillPool | IntelMausiEthernet/MausiRxPool.cpp:190-230 | appends new packets up to the capacities: a list is left short only when memory has run out, the plain list first |
| RxPool.Pool.ReplaceOrCopyPacket | IntelMausiEthernet/MausiRxPool.cpp:242-277 | long packets are passed on and replaced, short ones copied; with no packet to be had the original stays |
| Segmentation.ShortcutAgrees | IntelMausiEthernet/IntelMausiVTD.cpp:237-247 | the shortcut for packets within a page gives what the loop would |
| Segmentation.EmptyPieceExactly | IntelMausiEthernet/IntelMausiVTD.cpp:237-247 | a piece is empty if and only if the packet is a lone empty buffer that does not start a page |
| Segmentation.EmptyPieceTaken | IntelMausiEthernet/IntelMausiVTD.cpp:237-247 | an empty buffer at address 1 is a piece, one at the start of a page is not |
| Segmentation.SegmentsWithin | IntelMausiEthernet/IntelMausiVTD.cpp:248-266 | pieces are non-empty and each lies within one page |
| Segmentation.SegmentsKeepBytes | IntelMausiEthernet/IntelMausiVTD.cpp:248-266 | the pieces are the packet's bytes in order |
| Segmentation.SegmentCount | IntelMausiEthernet/IntelMausiVTD.cpp:248-266 | there are as many pieces as the buffers touch pages |
| Segmentation.Fewest | IntelMausiEthernet/IntelMausiVTD.cpp:251-264 | no other cut of a buffer into pieces within pages has fewer |
| Segmentation.PiecesTranslated | IntelMausiEthernet/IntelMausiVTD.cpp:309-317 | the mapped pieces address, byte for byte, each byte's page base plus page offset |
| Segmentation.CutPacket | IntelMausiEthernet/IntelMausiVTD.cpp:235-266 | the table holds the pieces, or the result is 0 if and only if there are more than allowed (or none) |
| Segmentation.MapPieces | IntelMausiEthernet/IntelMausiVTD.cpp:273-317 | each table range is the 4096 bytes of a piece's page, each vector entry that page's physical address plus the piece's offset in it; the rest of the table is untouched |
| Spi.ShiftOut | IntelMausiEthernet/nvm.c:64-94 | the lowest count bits go out, most significant first |
| Spi.ShiftIn | IntelMausiEthernet/nvm.c:106-131 | what sixteen bits keep of the bits shifted in |
| Spi.InInvertsOut | IntelMausiEthernet/nvm.c:64-131 | shifting in inverts shifting out on the lowest count bits |
| Spi.DataBytes | IntelMausiEthernet/nvm.c:402-405 | the device finds each word's bytes, lower first, in the swapped bits sent |
| Spi.BitAt | IntelMausiEthernet/nvm.c:64-94 | which bit of the number each bit on the wire is |
| Spi.WordOnTheWire | IntelMausiEthernet/nvm.c:402-405 | of a word the lower byte goes out first, and of each byte the most significant bit |
| Spi.WithinPage | IntelMausiEthernet/nvm.c:408-411 | a write that stays within its page is laid down in place |
| Spi.BurstStores | IntelMausiEthernet/nvm.c:395-414 | a page-wrapping device of either address width stores the words of a burst from where its address lands on |
| Spi.WritePage | IntelMausiEthernet/nvm.c:381-414 | one pass of the outer loop stores the words up to the end of the page from where its address lands on, and never crosses the page |
| Spi.Ready | IntelMausiEthernet/nvm.c:259-298 | ready if and only if one of the polls allowed finds the device idle, which leaves memory and enable latch alone |
| Spi.WriteSpi | IntelMausiEthernet/nvm.c:353-418 | with sixteen address bits or eight: it fails exactly on bad parameters or at the first page before which the device is not granted or not ready within the polls; of words in one half the lower byte comes to lie at 2 * (offset + k) and the upper behind it, up to the page it failed at, and no other byte changes |
| Spi.StoredExactly | IntelMausiEthernet/nvm.c:389-393 | whatever was there before, the words come to lie at their offset if and only if there are sixteen address bits, or all words are in the half of the first |
| Spi.CrossingMisses | IntelMausiEthernet/nvm.c:389-393 | with eight address bits a write into the upper half leaves its first word there as it was |
| Spi.StoredReads | IntelMausiEthernet/nvm.c:353-418 | word offset + k then reads as word k of the data, every other word as before |
| Ltr.Encode | IntelMausiEthernet/ich8lan.c:1062-1070 | value times scale is at least the latency and less than one step more, the value fits ten bits, and at the next smaller scale it would not; the encoding is scale * 1024 + value, and scales above 5 are refused |
| Ltr.Scales | IntelMausiEthernet/ich8lan.c:1062-1065 | the six scales in nanoseconds |
| Ltr.OneFit | IntelMausiEthernet/ich8lan.c:1062-1065 | scale and value are determined by the latency |
| Ltr.ScaleBound | IntelMausiEthernet/ich8lan.c:1062-1069 | that scale is at most 5 if and only if the latency is at most 1023 * 2^25, so for all of 32 bits |
| Ltr.DecodedBounds | IntelMausiEthernet/IntelMausiHardware.cpp:46-47 | without a limit on bits, decoding gives at least the latency and less than one step more |
| Ltr.Decoded32Exactly | IntelMausiEthernet/IntelMausiHardware.cpp:46-47 | in 32 bits the same holds of the driver's encodings if and only if the latency is at most 127 * 2^25 |
| Ltr.LargeLatencyVanishes | IntelMausiEthernet/IntelMausiHardware.cpp:46-47 | value 128 at scale 5 is decoded as zero |
| Ltr.ComparesAsLatency | IntelMausiEthernet/ich8lan.c:1090-1091 | comparing two of the driver's encodings is comparing their latencies |
| Ltr.CutOffExactly | IntelMausiEthernet/ich8lan.c:1088-1091 | for all values of the platform's two registers, the larger encoding cuts every latency off at the larger latency if and only if it stands for that one and has scale zero or a value of 32 or more or, above every encoding, the larger latency is no less than any of the driver's |
| Manage.CalculateChecksum | IntelMausiEthernet/manage.c:32-44 | the byte that makes a buffer add up to zero modulo 256 |
| Manage.HostIfWrite | IntelMausiEthernet/manage.c:199-257 | at any offset: the payload in place, the bytes before it in its first dword kept, zeros up to a dword behind it, later dwords untouched, and its sum added |
| Manage.HeaderSum | IntelMausiEthernet/manage.c:168-176 | carrying the payload's sum in the checksum field makes header and payload add up to zero |
| Manage.WriteDhcpInfo | IntelMausiEthernet/manage.c:267-300 | the command 64, the checksum, four zeros and the payload's length, lower byte first, then the payload and zeros up to a dword; header and payload add up to zero modulo 256; or nothing is written |
| Multicast.ShiftFound | IntelMausiEthernet/mac.c:281-287 | the shift search stops, at exactly one shift |
| Multicast.ShiftsMeet | IntelMausiEthernet/mac.c:329-330 | the two shifted bytes are one shifted number |
| Multicast.HashMcAddr | IntelMausiEthernet/mac.c:275-333 | for n registers the hash is (256 * a5 + a4) / (2048 / n), and with the divisor divided by 2, 4 and 16, modulo 32 * n, for filter types 1, 2 and 3 |
| Multicast.ExampleHashes | IntelMausiEthernet/mac.c:305-312 | the four hashes of the address the source's comment takes as its example: 0x563, 0xAC6, 0x58D and 0x634 |
| Multicast.UpdateMcAddrList | IntelMausiEthernet/mac.c:344-368 | a bit of the table is set if and only if some listed address hashes to it |

## Left out

- The bank choice of the oldest two controllers by a register, and the reload after a commit: decided by hardware.
- Banks smaller than the 2048 words of the shadow RAM, beyond the first cycle of a commit: the copy then reads words it has overwritten.
- Physical layer, management engine, power and link code, interrupts, registers, delays: no software state to relate.
- NvmDriver.Nvm.CommitShadow: states the view for commits that took the active bank on a sound geometry; the other cases are `NvmCrash.CrashAtomicExactly` and `NvmCrash.GeometryExactly`.
- NvmDriver.Nvm.UpdateChecksum: states the view where some bank is signed and reads work; a read that fails ends it with an error and the flash as it was or as the commit left it.
- NvmDriver.Nvm.ValidateAtStart: states when it succeeds for a signed bank, working reads and a repair that is safe to commit; for one that is not, `NvmDriver.Nvm.Validate` says what each try leaves.
- TxMachine.Do: releasing a packet that went out unmapped completes whichever memory descriptor is next to free; one that was never allocated, and the addresses such a packet's descriptors carry, are not modelled.
- TxDriver.Ring.OutputStart: assumes recordable packets, whose necessity `TxRing.RecordedExactly` shows; packets that are dropped are freed outside the ring.
- TxDriver.Ring.MapPacket: a packet all of whose buffers are empty counts as dropped; whether a descriptor of no ranges can be set up is not part of this model.
- TxDriver.Ring.TxInterrupt: the method runs without other parties stepping in between; interleavings are the subject of `TxTheorems`.
- Contents of descriptors beyond report status, done bit, address and length; checksum and VLAN results of received frames.
- TxDriver.Ring.UpdateTxDescTail: a tail that reads back wrong turns the transmitter off in the same step; what the hardware might do in between, and a wrong tail that is not read back, are not modelled.
- RxVtd.VtdRing.RxMapBuffers: where a buffer lies does not change while it is mapped again; `setupRxMap` is not part of this model, the ring starts as a reset leaves it.
- RxVtd.VtdRing.ClearRing: after a reset whose mapping fails nothing is stated of later calls.
- RxRing.Ring.RxInterrupt: buffers are identities that are never handed out twice, so a buffer freed by the network stack and allocated again counts as a new one.
- PoolMachine.Do: an allocated packet is one that neither pool, consumer nor refill holds; memory outside the pool is not modelled.
- RxPool.PacketList.Append: the source repeats these statements, and those of `RxPool.Pool.TakePacket`, for each list; the model has them once.
- Manage.HostIfWrite: a payload that starts within a dword reaches its end, as the source reads that many bytes without looking at the length.
- Ltr.Decode32: scale 7, which asks for a shift by 35 bits and has no defined result.
- Multicast.HashMcAddr: table sizes that are powers of two from 8 to 128 registers, as the search for the shift needs.
- Flow control, LED and parameter tables, statistics, and the Linux-only files: finite or too easy.
