# Verified models of melonDS

melonDS emulates the Nintendo DS and DSi.  This project models the parts of it where correctness
is hardest to see and proves what they are for.  Code that changes objects in place is a class with
the same fields and methods; each method is proved against a function or a predicate on values, and
the theorems are lemmas about those.  `dafny verify dfyconfig.toml` checks everything.

- **JIT front end.**  `RegisterCache.dfy` proves that code emitted through the register allocator
  refines plain execution on the register file, on every path out of the block.  `FlagLiveness.dfy`
  proves that the flag updates the JIT drops are exactly the unobservable ones.  `IdleLoop.dfy`
  proves exactly which loop bodies are idle under every meaning of their instructions and what the
  idle-loop test misses.  `BlockCache.dfy` keeps the four indexes of the code cache in agreement over
  every sequence of compile, store and reset, and states exactly when stale code can be dispatched;
  `DecodeTrace.dfy` says what a block that stores while it is decoded is made of.
  `MirrorLocation.dfy` proves exactly when a cached lookup window and the compiler find the same slot.
- **Fast memory.**  `Placeholders.dfy` is the interval allocator behind the Windows fast memory.
- **Processor.**  `CpuModes.dfy` proves that the swapping representation of banked registers is the
  architecture's register file and that exceptions round trip.  `BlockTransfer.dfy` does the same for
  multiple loads and stores, and `UserTransfer.dfy` joins the two for transfers of user registers.
- **DSi crypto.**  `Crypto.dfy` holds blocks and big-endian counters.  `AesEngine.dfy` proves the CCM
  engine between its two FIFOs (`Fifo.dfy`) for every interleaving of register accesses; `EsFormat.dfy`
  the ES block format; `FatCrypto.dfy` the position-addressed NAND encryption; `AesKeys.dfy` the key
  scrambler.
- **Shared.**  `Wrappers.dfy` is the option type, `Arithmetic.dfy` powers and remainders.
- **Transfers.**  `BlockCopy.dfy` is the one simple copy loop that `Dma.dfy` and `Ndma.dfy` refine
  however they are sliced; `TransferOutcome.dfy` says byte by byte what it leaves in every address mode.
  `WifiMailbox.dfy` proves that the wifi mailboxes carry whole messages.
  `Nwram.dfy` proves that the new WRAM's page tables and its write path agree.
- **Action Replay.**  `CheatFile.dfy` is the printer and parser of the code file, `CheatEngine.dfy` the
  interpreter with its termination measure and the meaning of its loops, `CheatMeaning.dfy` what each
  opcode does to memory.

Modelling decisions: AES is an arbitrary function on 16-byte blocks.  Hashes in the block cache are
collision free, and one CPU with a fixed address map is modelled.  Bit masks are sets of bit numbers.
32-bit wrap-around is written out where it can occur.  A guest instruction of the JIT models is its
register and flag sets together with an arbitrary function that respects them.

## What the proofs found

- `InvalidateByAddr` declares a second `mask` inside its loop, which hides the mask of the written
  granule.  Every block listed in the 512-byte range is therefore dropped, not only those that use the
  granule.  That is safe, and `BlockCache.InvalidateByAddr` states it.
- A block is executed while it is being decoded, and one that stores over a word or literal it was read
  from enters the cache out of date.  `BlockCache.CompileBlock` ties what decoding read and stored to memory:
  a block compiled anew is up to date exactly when no read of it was overtaken by a store that leaves
  another value (`Intact`), in particular when it stores to no place it was read from (`NoStoreNoHarm`).
  `CompileSelfStore` compiles a block of two words, of which the first stores over the second, into an empty
  cache, which then is out of date.
- The restore test compares words, ranges and masks but not addresses.  With branch optimisation on,
  decoding follows a conditional branch the way the flags point at compile time, so equal words need not
  come from equal addresses: `RestoreTestIgnoresTurns` is a block that begins with such a branch, was
  decoded both ways from the same words, and is revived although it inlines a word that has changed.
  Restoring is right in every memory exactly when each word the old block was compiled from is one the
  new decoding read at the same address (`RestoreSafeIff`); it always is when both decodings turned alike
  at every conditional branch (`SameTurnsRestoreSafely`).
- The idle-loop test is right about marked stores and about registers as far as no instruction is
  predicated; it misses three things.  A body is idle under every meaning of its instructions exactly when no
  register, flag or memory is carried from one iteration into the next (`IdleIff`).  An accepted body can fail
  that only through a flag, through a register that a predicated instruction may leave alone, or through an
  instruction that loads and changes memory: a swap, whose mark as a load overwrites its mark as a store, or
  a load of a device register that reacts to it (`AcceptedIdleIff`).  `FlagsAreNotTracked`,
  `PredicatesAreNotTracked` and `SwapsAreNotTracked` are accepted loops that are not idle.
- A lookup window may reach beyond its region.  Then the dispatcher reads another slot than the compiler
  fills, exactly for the addresses that belong to another region (`SameSlotIff`), and the block there is
  never found.  `WholeIff` says for every setup which windows are affected: those that the TCMs reach into,
  and, on the DSi's ARM7, 64 KB windows of work RAM below 0x03800000 that share a page with bank B or C.
  `LookedUpElsewhere` is such a setup.
- `SetupFATCrypto` is given the low 32 bits of the block number, so the counter is right exactly for
  addresses below 2^36 (`RightCounterIffSmallAddress`).
- The DMA loop copies faithfully exactly when the destination does not start inside the source
  (`FaithfulIff`); otherwise the gap between the two repeats.  `Dma.Transfer` and `Ndma.Transfer` state what
  the address modes leave in memory without reference to the loop (`Outcome`, `FillOutcome`).
- Mailbox 8 takes a network frame as one well-framed message exactly when the frame holds a whole Ethernet
  header and the message, 16 bytes longer than the frame, fits (`FrameArrivesIff`).  `CheckRX` asks for 2048
  bytes of room only, so a frame of more than 2032 bytes may lose its tail
  (`LongestFrameLosesItsTail`); from a frame that does not arrive on mailbox 8 is no row of messages any
  more, unless the frame has 8 bytes, which read as two messages.
- An LDM of user registers writes its base back to the user's register, because it switches back
  afterwards; an STM writes back to the register it read the base from (`Processor.A_LDM`, `Processor.A_STM`).
- The base register of an STM that is in its own list, but not lowest, is stored as the address of its
  own word, which is the written-back base in one case only (`StoredBaseIffLast`).
- A cheat's IF that fails goes on behind the next ENDIF, whichever IF that belongs to, because skipped IFs are
  not counted (`FailedIf`).  An IF, a body that touches no condition, and ENDIF mean what they say
  (`IfEndif`); `NestedIfLeaks` is a write inside a failed IF that happens because a nested IF comes before it.
- E delivers exactly its b bytes, whatever they are, when the destination is a multiple of four or b is below
  four, and never otherwise (`DeliversIff`).  For F both addresses must be, and the destination must not start
  inside the source (`MovesIff`).
- Skipping the parameters of an E opcode under a false condition does not end for byte counts above
  0xFFFFFFF8 (`SkipEndsIff`).
- A cheat or category name is read back exactly when it has at most 127 characters and no leading
  blank (`NameSurvivesIff`).
- A message whose padded form is longer than mailbox 4 never leaves mailbox 8, nor does any after it
  (`Wifi.ReadOut`).
- The MAC of an encryption that does not fit into the output FIFO waits for room; starting another transfer
  drops it (`MacOutIff`, `AesEngine.WriteCnt`).
- Writing another mode to the AES control register while a transfer runs changes how the blocks to come are
  processed and nothing behind them (`AesEngine.WriteCnt`, `TurnFollows`).
- A DMA side in reload mode goes back to its register at every start, so that with the geometry FIFO each
  batch of 112 units starts over (`Dma.Transfer`, `Ndma.Transfer`).
- `RingBuffer::Peek` checks its length but not its offset: values past the contents are old buffer
  cells (`RingBuffer.Peek`).

## Model

| member | source | states |
|---|---|---|
| `RegisterCaching.CompileBlock` | src/ARMJIT_x64/ARMJIT_Compiler.cpp:697-823 | for every instruction list, allocation order and starting machine, running the emitted code leaves r0-r14 in memory and the rest of the world as direct execution does, in which every instruction reads its own address plus two instructions as r15; so does every side exit after its instruction, and r15 in memory is right after a branch and wherever the block stores it |
| `RegisterCaching.CompileInstr` | src/ARMJIT_x64/ARMJIT_Compiler.cpp:716-800 | one round of the compile loop extends the refinement by one instruction, r15 included, and the exit code alone is exact at that point |
| `RegisterCaching.RegisterCache.UnloadRegister` | src/ARMJIT_RegisterCache.h:55-66 | the register leaves the cache and the emitted code saves it first exactly if it is dirty; the mapping stays injective and the used set its image |
| `RegisterCaching.RegisterCache.LoadRegister` | src/ARMJIT_RegisterCache.h:68-89 | succeeds exactly when fewer registers are loaded than there are native ones, and then takes a native register nothing else is mapped to; on failure nothing changes |
| `RegisterCaching.RegisterCache.FirstFree` | src/ARMJIT_RegisterCache.h:71-74 | finds the first unused entry of the allocation order; none is left exactly when the loaded registers are as many as the native ones |
| `RegisterCaching.RegisterCache.Flush` | src/ARMJIT_RegisterCache.h:114-120 | the emitted code refines from any coherent cache to the empty one, with no literal left |
| `RegisterCaching.RegisterCache.PrepareExit` | src/ARMJIT_RegisterCache.h:107-112 | the exit code leaves no dirty register while the cache itself is unchanged for the other path |
| `RegisterCaching.RegisterCache.LookAhead` | src/ARMJIT_RegisterCache.h:133-144 | computes the set of registers needed from here on and, for each, how many coming instructions strictly need it |
| `RegisterCaching.TablesAre` | src/ARMJIT_RegisterCache.h:133-144 | a register is in the one table exactly when a coming instruction writes it or reads it, r15 only if it is written, and its entry in the other is the number of coming instructions that strictly need it |
| `RegisterCaching.RegisterCache.LeastNeeded` | src/ARMJIT_RegisterCache.h:159-170 | an eviction victim always exists, is not necessary now, and no other candidate is needed by fewer coming instructions |
| `RegisterCaching.RegisterCache.Evict` | src/ARMJIT_RegisterCache.h:155-174 | afterwards all necessary registers fit, none of them was evicted, and the emitted code refines |
| `RegisterCaching.RegisterCache.Allocate` | src/ARMJIT_RegisterCache.h:151-197 | every necessary register is loaded, only necessary and optional ones are added, and a value is left unloaded only when the instruction surely overwrites it |
| `RegisterCaching.RegisterCache.Prepare` | src/ARMJIT_RegisterCache.h:122-200 | with no more strictly needed registers than native ones, preparation never fails, readies exactly what the instruction reads, marks what it writes dirty, and forgets registers never needed again |
| `RegisterCaching.UnloadRefines` | src/ARMJIT_RegisterCache.h:55-66 | unloading keeps every machine coherent with the same guest register file |
| `RegisterCaching.LoadRefines` | src/ARMJIT_RegisterCache.h:68-89 | loading with its value keeps coherence, for r15 with that of the instruction in hand; without it, exactly that register is pending |
| `RegisterCaching.NativeStep` | src/ARMJIT_RegisterCache.h:199-200 | a prepared instruction on native registers has the effect of the instruction on the guest file, conditional or not, with r15 as its own address plus two instructions |
| `RegisterCaching.ReadsSame` | src/ARMJIT_x64/ARMJIT_Compiler.h:207-214 | in registers, in memory or as an immediate, a prepared instruction finds what direct execution reads, r15 included |
| `RegisterCaching.InjectiveCard` | src/ARMJIT_RegisterCache.h:76-78 | an injective mapping uses as many native registers as it maps |
| `RegisterCaching.UsedIsImage` | src/ARMJIT_RegisterCache.h:62-65 | with a consistent cache, the used natives number the loaded registers |
| `FlagLiveness.FloodFillSetFlags` | src/ARMJIT.cpp:247-263 | every instruction down from the start gains exactly the demanded flags it writes that no later one is sure to write; nothing else changes |
| `FlagLiveness.LiveIsObserved` | src/ARMJIT.cpp:247-263 | a flag is live exactly when a later reader demands it and no instruction between is sure to write it |
| `FlagLiveness.ComputeSetFlags` | src/ARMJIT.cpp:818-821 | all floods together give every instruction exactly the flags it writes that are live after it |
| `FlagLiveness.LazyAgrees` | src/ARMJIT.cpp:818-821 | execution with only these updates agrees with full execution on the live flags at every point |
| `FlagLiveness.DroppedUpdatesAreUnobservable` | src/ARMJIT.cpp:896 | every instruction sees the same flags and world as under full execution, and all four flags are right before every interpreted instruction, at followed conditional branches and at the block end |
| `FlagLiveness.LiveSnoc` | src/ARMJIT.cpp:818-821 | decoding one more instruction makes live, below it, exactly what it demands |
| `FlagLiveness.FloodForReader` | src/ARMJIT.cpp:818-821 | a flood from a new reader restores exactness for the longer block |
| `FlagLiveness.ConditionTableIsRight` | src/ARM.cpp:90-108 | the 16-bit condition table gives the architecture's meaning of all sixteen codes |
| `FlagLiveness.ConditionReads` | src/ARM_InstrInfo.cpp:316-323 | a condition's value depends only on the flags listed for it |
| `FlagLiveness.ConditionalMeaning` | src/ARM_InstrInfo.cpp:552-557 | turning writes into possible writes and adding the condition's flags describes the conditional instruction exactly |
| `IdleLoops.IsIdleLoop` | src/ARMJIT.cpp:353-382 | accepts exactly the bodies in which no instruction is marked as a store or touches a status register, only the last branches, and none writes a register read from before; instructions that load and store are marked as loads |
| `IdleLoops.IdleIff` | src/ARMJIT.cpp:353-382 | for every body: whatever its instructions mean within their declared sets, all iterations see and leave the same, exactly when no instruction reads a register, flag or memory that nothing before it surely writes and that it or a later one may write |
| `IdleLoops.IdleLoopIsIdle` | src/ARMJIT.cpp:353-382 | with nothing carried over, every iteration sees what the first saw, and any positive number leaves registers, flags and memory as one does |
| `IdleLoops.Converge` | src/ARMJIT.cpp:375-378 | an iteration started where another ended sees the same, and agrees with it on every place but those that neither has written |
| `IdleLoops.AcceptedIdleIff` | src/ARMJIT.cpp:353-382 | an accepted body is idle under every meaning exactly when no instruction in it loads and changes memory, no flag is carried over, and no register that an instruction before its reader may, but need not, write |
| `IdleLoops.UnpredicatedIdleIff` | src/ARMJIT.cpp:353-382 | where only the closing branch is predicated, an accepted body is idle under every meaning exactly when no instruction loads and changes memory and no flag is carried over |
| `IdleLoops.RejectedMayDepend` | src/ARMJIT.cpp:372-378 | a body that the register rule turns down has a meaning under which its second iteration differs |
| `IdleLoops.FlagsAreNotTracked` | src/ARMJIT.cpp:367-378 | an accepted body of an add with carry and a conditional branch back takes the branch once and then not |
| `IdleLoops.PredicatesAreNotTracked` | src/ARM_InstrInfo.cpp:553-558 | an accepted body with a predicated move counts its iterations in a register |
| `IdleLoops.SwapsAreNotTracked` | src/ARM_InstrInfo.cpp:523-532 | an accepted body of a swap and a branch back loads what was there before in its first iteration and what the loop itself stored in every later one |
| `BlockCaching.BlockCache.CompileBlock` | src/ARMJIT.cpp:532-935 | for every trace of reads and stores that decoding makes: afterwards memory is what the stores left, the block for the address is live and in the fast table, all indexes agree, it is the restored candidate or the block of the words and literals met; a new block is up to date exactly when no read of it was overtaken by one of its own stores, and an up-to-date cache stays so exactly when the block was there already or memory holds what the block was compiled from |
| `BlockCaching.BlockCache.DecodeBlock` | src/ARMJIT.cpp:602-842 | decoding leaves memory as its stores do and the cache up to date as each store does; words and literals are those met, a literal only if nothing invalidated it before it was met; the stores that the decoder notes are remembered |
| `BlockCaching.CompileSelfStore` | src/ARMJIT.cpp:602-935 | an empty cache is out of date after compiling a block whose first word stores over its second |
| `BlockCaching.DescribedCurrent` | src/ARMJIT.cpp:569-728 | a block made of words and literals is up to date with memory exactly when memory holds each of them |
| `DecodeTraces.UsesHoldIff` | src/ARMJIT.cpp:602-842 | after decoding memory holds every word and literal read exactly when the last store to its place since the read, if any, left the same value |
| `DecodeTraces.NoStoreNoHarm` | src/ARMJIT.cpp:602-842 | a block that stores to no place it was read from is intact |
| `DecodeTraces.SelfStoreIsOvertaken` | src/ARMJIT.cpp:602-842 | a store over the next word, which is in the pipeline already, overtakes it |
| `BlockCaching.BlockCache.CompileNew` | src/ARMJIT.cpp:822-935 | the same for an address that has no block; exactly the literals that the block was seen to store to are invalidated, and all are forgotten on a reset |
| `BlockCaching.BlockCache.Obtain` | src/ARMJIT.cpp:847-911 | exactly a candidate that passes the test is restored, otherwise a block of the decoded words is made; the block can then be entered |
| `BlockCaching.BlockCache.NewBlock` | src/ARMJIT.cpp:883-906 | a former candidate with the same hash is freed, and the cache is reset when code memory runs out |
| `BlockCaching.BlockCache.Enter` | src/ARMJIT.cpp:913-934 | enters the block in map, fast table, lists and code bits and in nothing else, keeping them consistent |
| `BlockCaching.BlockCache.EnterLists` | src/ARMJIT.cpp:913-925 | each range of the block gains its mask and lists it once; other ranges are unchanged |
| `BlockCaching.BlockCache.RetireJitBlock` | src/ARMJIT.cpp:481-493 | the block becomes the restore candidate for its words, so that decoding them again restores it; a former one is freed and all others stay |
| `BlockCaching.BlockCache.Unlist` | src/ARMJIT.cpp:990-1010 | the block is in no list any more, other entries stay, and a list that becomes empty loses its code bits |
| `BlockCaching.BlockCache.RemoveByValue` | src/TinyVector.h:110-121 | exactly that element leaves the list |
| `BlockCaching.BlockCache.Drop` | src/ARMJIT.cpp:948-1028 | one dropped block leaves all indexes consistent and the open range shorter, whether it is retired or deleted, and its literals of the written granule are invalidated |
| `BlockCaching.BlockCache.InvalidateByAddr` | src/ARMJIT.cpp:937-1029 | the list of the 512-byte range becomes empty, no block is added anywhere, exactly the literals that dropped blocks had folded in there are invalidated, and the indexes agree again |
| `BlockCaching.BlockCache.CheckAndInvalidate` | src/ARMJIT.h:58-64 | after a guest store no live block depends on the written granule, its folded literals are invalidated, and a cache that was up to date with memory still is |
| `BlockCaching.BlockCache.LookUpBlock` | src/ARMJIT.cpp:1065-1071 | an entry is found exactly when the slot holds that address, and then it is the live block's entry and memory still holds the words it was compiled from |
| `BlockCaching.BlockCache.ResetBlockCache` | src/ARMJIT.cpp:1112-1157 | every index is empty and every block known before is freed |
| `BlockCaching.BlockCache.ClearLists` | src/ARMJIT.cpp:1131-1153 | clearing the ranges of the live blocks clears every non-empty list |
| `BlockCaching.GatherRanges` | src/ARMJIT.cpp:612-635 | the collected ranges are distinct and their masks cover every fetched and literal granule and nothing else |
| `BlockCaching.GranulesAre` | src/ARMJIT.cpp:612-635 | two places share a range when they are in the same 512 bytes, and range and code bit when they are in the same 16 |
| `BlockCaching.Describe` | src/ARMJIT.cpp:569-728 | the decoded block holds words and literals in the order met, and its masks are exactly the granules they touch |
| `BlockCaching.DescribedWellFormed` | src/ARMJIT.cpp:612-728 | such a block's masks cover all its words and literals, as the cache's invariant asks |
| `BlockCaching.GatheredSwap` | src/ARMJIT.cpp:621-629 | moving the current range to the end of both arrays loses nothing |
| `BlockCaching.DroppedConsistent` | src/ARMJIT.cpp:955-1028 | the consistency invariant survives dropping any live block of the open range |
| `BlockCaching.EnteredConsistent` | src/ARMJIT.cpp:913-934 | the consistency invariant survives entering a block that is in no index |
| `BlockCaching.ResetConsistent` | src/ARMJIT.cpp:1112-1157 | emptied indexes are consistent |
| `BlockCaching.WriteKeepsCurrent` | src/ARMJIT.h:58-64 | blocks that survive a store are still current after it |
| `BlockCaching.StaysCurrent` | src/ARMJIT.h:58-64 | a store outside a block's granules changes none of its words |
| `BlockCaching.ClearBitUncovers` | src/ARMJIT.h:60-64 | a clear code bit means that no live block uses the granule |
| `BlockCaching.RestoreEnterable` | src/ARMJIT.cpp:847-881 | a candidate that passes the restore test can be entered again for the decoded block |
| `BlockCaching.RestoreSafeIff` | src/ARMJIT.cpp:855-871 | restoring a candidate is right in every memory that holds what was decoded exactly when all it was compiled from is among what was decoded |
| `BlockCaching.SameTurnsRestoreSafely` | src/ARMJIT.cpp:784-871 | a candidate that passes the test and whose decoding turned alike at each conditional branch but a last one is up to date exactly when the new decoding is |
| `BlockCaching.NoConditionNoChoice` | src/ARMJIT.cpp:784-834 | decodings of the same words turn alike where none of them branches conditionally before its end |
| `BlockCaching.RestoreTestIgnoresTurns` | src/ARMJIT.cpp:784-871 | two decodings of one conditional branch from equal words pass the test although one is stale |
| `BlockCaching.SwapRemoves` | src/TinyVector.h:89-98 | removing by overwriting with the last element removes exactly one element |
| `MirrorLocations.MirrorAgrees` | src/ARMJIT_Memory.cpp:1027-1238 | for every console state, an address of a code region lies in its mirror window, and every address of the window localises to the byte at the same distance in the same region and inside its table |
| `MirrorLocations.Map9` | src/ARMJIT_Memory.cpp:1240-1298 | for every region, exactly which addresses of ARM9 belong to it |
| `MirrorLocations.Map7` | src/ARMJIT_Memory.cpp:1300-1353 | the same for ARM7 |
| `MirrorLocations.ByteOf` | src/ARMJIT_Memory.cpp:1176-1238 | the byte of a region's memory that an address means |
| `MirrorLocations.WindowExistsIff` | src/ARMJIT_Memory.cpp:1027-1174 | every address with a lookup table has a window, except in new WRAM where no part is mapped |
| `MirrorLocations.TablesCovered` | src/ARMJIT.cpp:62-82 | the tables are no larger than their regions: some console shows each byte of each at a given address |
| `MirrorLocations.SameSlotIff` | src/ARMJIT.cpp:84-92 | for every address of a cached window, the slot the dispatcher reads is the one the compiler fills exactly when the address belongs to the window's region; it is inside the table in any case |
| `MirrorLocations.WholeIff` | src/ARMJIT_Memory.cpp:1240-1353 | for every setup, all addresses of a window belong to its region exactly when, on ARM9, the TCMs cover it or stay out of it and, on ARM7, banks B and C stay out of a low work RAM window |
| `MirrorLocations.BusWindow9` | src/ARMJIT_Memory.cpp:1250-1297 | outside the TCMs every window of ARM9 is whole, the new-WRAM banks included |
| `MirrorLocations.BusWindow7` | src/ARMJIT_Memory.cpp:1300-1353 | on ARM7 every window is whole but those of low work RAM |
| `MirrorLocations.LookedUpElsewhere` | src/ARMJIT.cpp:1079-1095 | with bank B over half a work RAM window, code in that half is compiled into one table and looked for in another |
| `MirrorLocations.ItcmWindowIff` | src/ARMJIT_Memory.cpp:1032-1038 | all addresses of the TCM window are TCM exactly when the configured size covers the window |
| `Placeholders.FastMemory.MapIntoRange` | src/ARMJIT_Memory.cpp:284-336 | succeeds exactly when the whole range is free, which then is mapped and no longer free; otherwise nothing changes; placeholders and views still partition the area |
| `Placeholders.FastMemory.UnmapFromRange` | src/ARMJIT_Memory.cpp:342-391 | exactly the view's bytes become free, merged with both neighbours, so no two placeholders touch |
| `Placeholders.FastMemory.MapAndUnmap` | src/ARMJIT_Memory.cpp:284-391 | unmapping what was just mapped brings back the very placeholders of before |
| `Placeholders.FastMemory.constructor` | src/ARMJIT_Memory.cpp:883 | one placeholder covers the reserved area |
| `Placeholders.WholeFree` | src/ARMJIT_Memory.cpp:296-300 | a range that is free throughout lies inside one placeholder |
| `Placeholders.SplitFree` | src/ARMJIT_Memory.cpp:312-323 | splitting frees what was free outside the mapped range and nothing else |
| `Placeholders.Absorbed` | src/ARMJIT_Memory.cpp:364-376 | coalescing with a touching neighbour keeps the free bytes and leaves no new contact |
| `Placeholders.Canonical` | src/ARMJIT_Memory.cpp:284-391 | lists without contact that free the same bytes hold the same placeholders |
| `CpuModes.Arm.UpdateMode` | src/ARM.cpp:448-530 | the stored registers are those of swapping the old bank out and the new one in |
| `CpuModes.Arm.SwapCells` | src/ARM.cpp:455-461 | registers and parking cells change places, all others stay |
| `CpuModes.Arm.RestoreCPSR` | src/ARM.cpp:404-446 | the status of the mode's saved register is back with bit 4 set, and the banks follow it |
| `CpuModes.Arm.JumpTo` | src/ARM.cpp:363-402 | program counter and T bit follow the address, or the restored status |
| `CpuModes.Arm.TriggerIRQ` | src/ARM.cpp:527-540 | an unmasked interrupt enters its handler, a masked one changes nothing |
| `CpuModes.Arm.Enter` | src/ARMInterpreter.cpp:267-289 | exception entry for interrupts, SVC and undefined instructions in both instruction sets, whose meaning is `EntryGoes` and `EntryKeeps` |
| `CpuModes.Arm.WriteStatus` | src/ARMInterpreter.cpp:74-178 | MSR to the current or the mode's saved status register |
| `CpuModes.SwitchKeepsFile` | src/ARM.cpp:448-530 | a mode change preserves what every register of every bank reads as |
| `CpuModes.SwitchComposes` | src/ARM.cpp:448-530 | changing from a to b and from b to c is changing from a to c |
| `CpuModes.SwitchUndoes` | src/ARM.cpp:448-530 | changing back restores every cell |
| `CpuModes.EntryKeeps` | src/ARMInterpreter.cpp:267-289 | entering an exception changes the register file only in the handler's link register and saves the status |
| `CpuModes.EntryGoes` | src/ARMInterpreter.cpp:37-72 | the program counter behind the vector at 0x18, 0x08 or 0x04, the mode, link register and saved status of each exception; interrupts are masked, fast ones by interrupts only, and the flags stay |
| `CpuModes.BanksAre` | src/ARM.cpp:448-530 | which registers each mode swaps |
| `CpuModes.RestoredStatus` | src/ARM.cpp:404-446 | which saved status each mode restores, with bit 4 forced |
| `CpuModes.CpsrWritten` | src/ARMInterpreter.cpp:74-124 | which byte of the current status each field bit writes, in user mode all but the control byte, and that the others and the T bit stay |
| `CpuModes.SpsrWritten` | src/ARMInterpreter.cpp:74-124 | the same for a saved status, T bit included |
| `CpuModes.ReturnResumes` | src/ARM.cpp:404-446 | whatever the handler did to other registers, its return restores status and program counter of the interrupted program and keeps the file |
| `CpuModes.EntryThenReturn` | src/ARM.cpp:532-555 | entry followed by return restores everything but the handler's link register and saved status, from any mode and instruction set |
| `CpuModes.LinkReturns` | src/ARMInterpreter.cpp:267-289 | the link register leads back to the same program counter, across the end of the address space too |
| `CpuModes.WritesKeepModeBits` | src/ARMInterpreter.cpp:74-178 | no status write clears bit 4 of any status register |
| `CpuModes.EntryKeepsModeBits` | src/ARMInterpreter.cpp:37-72 | no exception entry clears it |
| `CpuModes.ReturnKeepsModeBits` | src/ARM.cpp:404-446 | no return clears it |
| `CpuModes.CpsrWriteKeepsFile` | src/ARMInterpreter.cpp:113-124 | a status write keeps the register file, and user mode cannot leave itself |
| `BlockTransfers.Arm7.A_STM` | src/ARMInterpreter_LoadStore.cpp:473-536 | without the S bit: in all four addressing modes the k-th lowest register goes to the k-th word from the architecture's start address, no other word changes, and the base is written back as specified |
| `BlockTransfers.Arm7.A_LDM` | src/ARMInterpreter_LoadStore.cpp:393-471 | without the S bit: the k-th lowest register gets the k-th word, unlisted registers stay, a listed base keeps its loaded value, a loaded PC jumps |
| `UserTransfers.Processor.A_STM` | src/ARMInterpreter_LoadStore.cpp:473-536 | with the S bit: from every mode the user's registers go to the words of the list, the bank in use is back afterwards, and nothing but the written-back base has changed |
| `UserTransfers.Processor.A_LDM` | src/ARMInterpreter_LoadStore.cpp:393-471 | with the S bit: without PC in the list the user's registers and no other mode's are loaded, the written-back base among them, and the bank in use is back; with PC the mode's own registers are loaded and the saved status is restored |
| `UserTransfers.Processor.SaveAndReload` | src/ARMInterpreter_LoadStore.cpp:393-536 | saving user registers, changing them and reloading them gives back every register of every bank, unless the base is a user register of the list |
| `UserTransfers.OfferedIsUserFile` | src/ARMInterpreter_LoadStore.cpp:492-503 | in every defined mode, writing the base back before the switch does not change what is stored |
| `UserTransfers.OwnBase` | src/ARMInterpreter_LoadStore.cpp:492-503 | the test for a banked base misses none, and in the defined modes it is exact |
| `UserTransfers.LoadsUser` | src/ARMInterpreter_LoadStore.cpp:418-465 | switching to user mode, changing registers and switching back changes exactly the user's registers |
| `UserTransfers.FileDetermines` | src/ARM.cpp:448-530 | the banked register file and the status registers determine every stored cell |
| `BlockTransfers.Arm7.SaveAndRestore` | src/ARMInterpreter_LoadStore.cpp:393-536 | a store with write-back and the load with both mode bits inverted restore all listed registers and the base |
| `BlockTransfers.Arm7.T_PUSH` | src/ARMInterpreter_LoadStore.cpp:702-738 | the list and LR are stored in ascending order below the old stack pointer, which moves to the lowest |
| `BlockTransfers.Arm7.T_POP` | src/ARMInterpreter_LoadStore.cpp:740-768 | the list is loaded in ascending order, the stack pointer moves up, a popped PC stays in Thumb state |
| `BlockTransfers.Arm7.CallFrame` | src/ARMInterpreter_LoadStore.cpp:702-768 | PUSH with LR and POP with PC restore r0-r14 and go on at LR |
| `BlockTransfers.Arm7.T_STMIA` | src/ARMInterpreter_LoadStore.cpp:770-789 | the list is stored in ascending order from the base, which moves past it; a listed base is stored with its old value |
| `BlockTransfers.Arm7.T_LDMIA` | src/ARMInterpreter_LoadStore.cpp:791-812 | the list is loaded in ascending order; the base moves past it unless it was loaded |
| `BlockTransfers.Arm7.StoreAndReload` | src/ARMInterpreter_LoadStore.cpp:770-812 | storing a list and loading it from the same base gives back every register |
| `BlockTransfers.InverseMode` | src/ARMInterpreter_LoadStore.cpp:393-536 | inverting both bits from the written-back base gives the same start address and the old base |
| `BlockTransfers.SlotsDiffer` | src/ARMInterpreter_LoadStore.cpp:505-527 | different registers go to different words, around the end of the address space too |
| `BlockTransfers.SlotIs` | src/ARMInterpreter_LoadStore.cpp:505-527 | the address of the k-th word, aligned and around the end of the address space |
| `BlockTransfers.StoredBase` | src/ARMInterpreter_LoadStore.cpp:511-518 | the value stored for a listed base in each of the four modes |
| `BlockTransfers.StoredBaseIffLast` | src/ARMInterpreter_LoadStore.cpp:511-518 | the value stored for a non-lowest base is the written-back base only in upward-before mode as last of the list |
| `Crypto.Increment` | src/tiny-AES-c/aes.c:538-569 | the in-place increment loop |
| `Crypto.BumpAddsOne` | src/tiny-AES-c/aes.c:546-562 | it adds one to the big-endian value modulo its size |
| `Crypto.BumpTimesAdds` | src/tiny-AES-c/aes.c:546-562 | k increments add k to the 128-bit counter |
| `Crypto.CounterBump` | src/DSi_NAND.cpp:410-413 | a counter block with a 24-bit counter field steps that field |
| `Crypto.XorBlockCancels` | src/DSi_NAND.cpp:309-320 | applying a keystream block twice gives the block back |
| `Crypto.XorNatBits` | src/DSi_AES.cpp:156 | exclusive or, bit by bit |
| `AesEngines.AesEngine.WriteCnt` | src/DSi_AES.cpp:251-332 | a rising start bit begins the transfer that the registers describe, its first MAC block and first counter block formatted byte by byte as SP 800-38C asks; while one runs, clearing the bit aborts it and another mode holds for the blocks to come; the queues keep following the transfer's definition |
| `AesEngines.TurnFollows` | src/DSi_AES.cpp:267 | another mode for the blocks to come changes no word and no chaining value of the blocks behind |
| `AesEngines.CcmTagCounter` | src/DSi_AES.cpp:293-313 | the counter block that encrypts the tag of a CCM transfer is the one before that of its first block |
| `AesEngines.AesEngine.Start` | src/DSi_AES.cpp:275-331 | counters, first counter block and first MAC block of the new transfer, field by field |
| `AesEngines.StartedDescribes` | src/DSi_AES.cpp:275-331 | key and nonce enter last byte first; a CCM transfer has flags, nonce and byte length in its first MAC block and a counter of one, a CTR transfer the whole register as its counter |
| `AesEngines.SeedIsFirst` | src/DSi_AES.cpp:295-309 | the first MAC block: flags byte, the twelve nonce bytes, and sixteen times the block count in its last three bytes |
| `AesEngines.FirstBlocksDiffer` | src/DSi_AES.cpp:295-309 | first MAC blocks are equal exactly for the same nonce, length, MAC length and presence of associated data |
| `AesEngines.JoinIs` | src/DSi_AES.cpp:149-154 | the byte order in which four words of the FIFO make a block |
| `AesEngines.AesEngine.WriteInputFIFO` | src/DSi_AES.cpp:370-381 | the word is taken exactly if the FIFO has room; everything possible is processed, and a transfer that ends does so completely |
| `AesEngines.AesEngine.ReadOutputFIFO` | src/DSi_AES.cpp:339-368 | the oldest word comes out once, processing goes on, and a MAC waiting for room is queued as soon as it fits |
| `AesEngines.AesEngine.Update` | src/DSi_AES.cpp:405-490 | afterwards a running transfer waits for input or for room, and a finished one was finalised exactly once with the right MAC bit |
| `AesEngines.AesEngine.Finalise` | src/DSi_AES.cpp:434-490 | finalisation happens once; the MAC bit is set exactly in decryption when the tag equals the MAC register |
| `AesEngines.AesEngine.ProcessBlock` | src/DSi_AES.cpp:160-239 | one payload block of any mode keeps the engine on its definition |
| `AesEngines.AesEngine.ProcessBlockCcmExtra` | src/DSi_AES.cpp:144-158 | one block of associated data keeps it too |
| `AesEngines.FeedFollows` | src/DSi_AES.cpp:370-381 | more input changes no word already determined |
| `AesEngines.TakeFollows` | src/DSi_AES.cpp:339-368 | words read plus words queued stay the words produced |
| `AesEngines.BlockFollows` | src/DSi_AES.cpp:160-239 | a processed block appends exactly its output words |
| `AesEngines.SealFollows` | src/DSi_AES.cpp:434-490 | the MAC words come after all data words |
| `AesEngines.TagIsFinalMac` | src/DSi_AES.cpp:436-459 | encrypting the running MAC under the zeroed counter gives the tag of the definition |
| `AesEngines.CounterSteps` | src/DSi_AES.cpp:296-300 | the counter of a CCM transfer never overflows its 24 bits |
| `AesEngines.CcmRoundTrip` | src/DSi_AES.cpp:144-214 | for every key, nonce, associated data and payload, decryption of the emitted words gives the payload and the same tag |
| `AesEngines.DecryptsWhatWasEncrypted` | src/DSi_AES.cpp:144-214 | the same for two engines, each under its own interleaving of reads and writes and with words of earlier transfers still queued, provided that neither transfer's mode was changed on the way: given the words and the MAC that the first put out, the second puts out the payload and its MAC bit is set |
| `AesEngines.MacOutIff` | src/DSi_AES.cpp:454-473 | what a finished encryption has put out or queued is all its words and the MAC exactly when the MAC is not still waiting |
| `AesEngines.MatchingStarts` | src/DSi_AES.cpp:251-332 | the same registers in both CCM modes start matching transfers |
| `AesKeys.ROL16` | src/DSi_AES.cpp:511-526 | the byte loops compute the rotation function |
| `AesKeys.RolledIsRotate` | src/DSi_AES.cpp:511-526 | it rotates all 128 bits, for every distance below 128 |
| `AesKeys.DeriveNormalKey` | src/DSi_AES.cpp:528-547 | the loops compute the normal-key function |
| `AesKeys.NormalKeyIs` | src/DSi_AES.cpp:528-547 | the normal key is X xor Y plus the constant, as one number, modulo 2^128, rotated by 42 |
| `AesKeys.XoredBits` | src/DSi_AES.cpp:533-534 | exclusive or of every bit of the keys |
| `AesKeys.ConstantIs` | src/DSi_AES.cpp:530 | the sixteen bytes are that number |
| `AesKeys.AddedIsSum` | src/DSi_AES.cpp:536-542 | byte-wise addition with carry is addition of the whole numbers |
| `EsFormat.EsEncrypt` | src/DSi_NAND.cpp:283-366 | payload, stored tag, encrypted footer and nonce as the format defines, for every length below 2^24 |
| `EsFormat.EsDecrypt` | src/DSi_NAND.cpp:368-471 | the payload in the clear, the footer opened, and true exactly when length and tag are right |
| `EsFormat.EncryptThenDecrypt` | src/DSi_NAND.cpp:283-471 | decrypting what was encrypted returns true and every payload byte |
| `EsFormat.SealAndOpen` | src/DSi_NAND.cpp:283-471 | the same for the two methods on one buffer |
| `EsFormat.AcceptedMeansTagged` | src/DSi_NAND.cpp:454-470 | with the right length, acceptance means that the stored tag is the tag of the payload given out |
| `EsFormat.PartialBlockPlain` | src/DSi_NAND.cpp:405-429 | the differently computed keystream and zero padding of a last partial block agree with encryption |
| `EsFormat.WholeBlockPlain` | src/DSi_NAND.cpp:391-403 | a whole block decrypts to the block that was MACed |
| `EsFormat.SamePayloadSameMac` | src/DSi_NAND.cpp:306-334 | the MAC depends on the payload only |
| `EsFormat.BlocksAre` | src/DSi_NAND.cpp:289-304 | the bytes of the counter block, the first MAC block with the rounded-up length, and the footer's block |
| `FatCrypto.SetupFATCrypto` | src/DSi_NAND.cpp:187-207 | the schoolbook addition gives the initial counter stepped by the block number |
| `FatCrypto.RightCounterIffSmallAddress` | src/DSi_NAND.cpp:209-213 | the 32-bit block number gives the position's counter exactly below 2^36 |
| `FatCrypto.NandImage.ReadFATBlock` | src/DSi_NAND.cpp:209-229 | gives the clear bytes of the range, or nothing when the file is too short |
| `FatCrypto.NandImage.WriteFATBlock` | src/DSi_NAND.cpp:231-257 | afterwards the range reads in the clear as what was written, whatever the split into calls, and every other position is unchanged |
| `FatCrypto.SumIsSteps` | src/DSi_NAND.cpp:191-206 | bytes whose value is the sum are the counter after that many increments |
| `Fifos.Fifo.Write` | src/FIFO.h:51-62 | appends, or drops the value when full |
| `Fifos.Fifo.Read` | src/FIFO.h:64-77 | takes the oldest value; an empty queue gives the slot read last |
| `Fifos.Fifo.ReadDynamic` | src/FIFO.h:155-167 | takes the oldest value; an empty dynamic queue gives the next slot |
| `Fifos.Fifo.Peek` | src/FIFO.h:174-181 | the value at an offset, around the end of the array |
| `Fifos.RingBuffer.Write` | src/FIFO.h:219-240 | a block is appended whole or refused |
| `Fifos.RingBuffer.Read` | src/FIFO.h:242-263 | a block is taken from the front whole or refused |
| `Fifos.RingBuffer.Peek` | src/FIFO.h:265-285 | contents as far as they reach, old cells beyond |
| `Fifos.RingBuffer.Skip` | src/FIFO.h:287-297 | drops from the front or refuses |
| `BlockCopies.CopyIs` | src/DMA.cpp:564-591 | every byte after an upward copy of any two aligned regions, overlapping or not |
| `BlockCopies.FaithfulIff` | src/DMA.cpp:564-591 | the copy is faithful for all memories exactly when the destination does not start inside the source |
| `BlockCopies.FillIs` | src/DSi_NDMA.cpp:238-241 | a fill writes its word to every unit and nothing else |
| `Dmas.Dma.WriteCnt` | src/DMA.cpp:115-154 | the rising enable bit latches addresses, the loop for the two address modes and the unit, and the start mode; timing 0 starts at once, 7 of the ARM9 with the geometry FIFO |
| `Dmas.Dma.Start` | src/DMA.cpp:156-197 | a new block loads its count (zero is the largest), one under way keeps it; batches of 112 in FIFO mode; reload modes go back to their registers |
| `Dmas.Dma.MoveUnits` | src/DMA.cpp:562-597 | a slice moves exactly up to its first stall, its target or its batch, and stays on the simple loop |
| `Dmas.Dma.Run` | src/DMA.cpp:553-694 | units moved plus units remaining stay the block, memory stays that of the loop, and the end of a block clears the enable bit unless repeating and raises the interrupt exactly if asked |
| `Dmas.Dma.Transfer` | src/DMA.cpp:115-694 | however it is sliced and re-triggered, an enabled transfer moves the count of its field (zero is the largest) and leaves the memory of one copy loop: byte by byte, in every address mode, each unit at its place, a fixed destination with the last one, and nothing else changed; sides in reload mode start over with every batch of 112 of the geometry FIFO |
| `Dmas.JobWalks` | src/DMA.cpp:125-139 | mode 1 steps down, 2 stays, the others step up, by two or four bytes |
| `Dmas.CountIs` | src/DMA.cpp:156-178 | the units of each count field, and batches of 112 in timing 7 of the ARM9 |
| `TransferOutcomes.WalkOutcome` | src/DMA.cpp:562-597 | what the loop leaves in memory, for every pair of address modes: with source and destination apart or a fixed source every unit at its place, for two upward walks and for a fixed destination whatever the overlap, and all other bytes as before |
| `TransferOutcomes.UnitLands` | src/DMA.cpp:564-591 | unit k is at the destination's place k, except that a fixed destination holds the last |
| `TransferOutcomes.LastRemains` | src/DMA.cpp:564-591 | a fixed destination holds the last unit, or the one before when it is itself the last unit's source |
| `TransferOutcomes.FillsWord` | src/DSi_NDMA.cpp:238-239 | a fill leaves its word, lowest byte first, in every unit and changes nothing else |
| `Dmas.BatchesPlain` | src/DMA.cpp:156-197 | without reloading, batches leave the memory of the undivided loop |
| `Ndmas.Ndma.WriteCnt` | src/DSi_NDMA.cpp:97-142 | the rising enable bit latches addresses, the loop or fill for the address modes, start mode and total count |
| `Ndmas.Ndma.Start` | src/DSi_NDMA.cpp:144-190 | a start plans what the block has left, in batches of 112 for the geometry FIFO, a capped channel never more than is left in total; sides in reload mode go back to their registers |
| `Ndmas.Ndma.MoveUnits` | src/DSi_NDMA.cpp:234-253 | as for DMA; the total count of a counted transfer does not wrap |
| `Ndmas.Ndma.Run` | src/DSi_NDMA.cpp:199-391 | memory stays that of the loop; the end of a block disables the channel in immediate mode and when the total is used up |
| `Ndmas.Ndma.Transfer` | src/DSi_NDMA.cpp:97-391 | however sliced and triggered and with or without reloading, exactly one block or exactly the total length is moved, memory is that of one loop, restarted where a side reloads, and the channel has disabled itself; without reloading every byte is stated as for DMA, fills included |
| `Ndmas.Acts` | src/DSi_NDMA.cpp:107-121 | the address modes of both sides and the fill, byte by byte |
| `Ndmas.NdmaConstants` | src/DSi_NDMA.cpp:123-161 | start modes from 0x10 on are immediate, 0x0A of the ARM9 goes in batches of 112, a block length of zero is 0x1000000 |
| `Ndmas.StartsPlain` | src/DSi_NDMA.cpp:144-190 | without reloading, it does not matter how a counted transfer is cut into starts |
| `WifiMailboxes.Wifi.DrainRXBuffer` | src/DSi_NWifi.cpp:1571-1588 | messages move whole and padded until the next does not fit; one that fits is moved |
| `WifiMailboxes.Wifi.MoveMessage` | src/DSi_NWifi.cpp:1575-1584 | one message leaves mailbox 8 and its padded form is appended to mailbox 4 |
| `WifiMailboxes.Wifi.SendWMIEvent` | src/DSi_NWifi.cpp:1346-1377 | the event is accepted exactly if it fits and then is one well-framed message |
| `WifiMailboxes.Wifi.SendWMIAck` | src/DSi_NWifi.cpp:1379-1410 | likewise for acknowledgements |
| `WifiMailboxes.Wifi.SendWMIBSSInfo` | src/DSi_NWifi.cpp:1412-1449 | likewise for scan results, unless they are filtered |
| `WifiMailboxes.Wifi.CheckRX` | src/DSi_NWifi.cpp:1451-1523 | if 2048 bytes are free, takes exactly the first packet for this station that it did not send itself; it becomes one more message exactly if it holds a whole Ethernet header and its message fits, and otherwise mailbox 8 is out of step |
| `WifiMailboxes.Wifi.TakeFrame` | src/DSi_NWifi.cpp:1478-1519 | the chosen frame becomes one more accepted message exactly if its message is well framed and fits; otherwise mailbox 8 is out of step from then on |
| `WifiMailboxes.FrameArrivesIff` | src/DSi_NWifi.cpp:1451-1523 | for every frame and every row of messages with 2048 bytes of room after it: the frame is taken as one well-framed message exactly from 14 bytes on and if 16 bytes more than its length fit, and mailbox 8 stays a row of messages exactly then or for a frame of 8 bytes |
| `WifiMailboxes.LongestFrameLosesItsTail` | src/DSi_NWifi.cpp:1453-1519 | a frame of 2048 bytes into the least room that is accepted loses its last 16 bytes |
| `WifiMailboxes.JoinWhole` | src/DSi_NWifi.cpp:1571-1588 | a mailbox in step is a row of whole messages |
| `WifiMailboxes.Wifi.F1Read` | src/DSi_NWifi.cpp:386-481 | at an address of mailbox 4 pops one byte and at a last address drains; at four addresses shows its first bytes, at two whether it has data; at every other leaves it alone |
| `WifiMailboxes.Wifi.ReadOut` | src/DSi_NWifi.cpp:386-481 | a host that keeps reading a last address gets, in order and intact, exactly the messages before the first that is too long for mailbox 4; the others stay in mailbox 8 |
| `WifiMailboxes.UnframeJoined` | src/DSi_NWifi.cpp:1571-1588 | the padded stream reads back as the messages |
| `WifiMailboxes.NextWaiting` | src/DSi_NWifi.cpp:1573-1577 | a header in mailbox 8 belongs to the next waiting message, all of which is there |
| `WifiMailboxes.Moved` | src/DSi_NWifi.cpp:1575-1584 | moving a message keeps mailbox 8 a concatenation of whole messages and mailbox 4 their padded stream |
| `WifiMailboxes.EventFramed` | src/DSi_NWifi.cpp:1354-1374 | an event's length field matches its bytes |
| `WifiMailboxes.BssFramed` | src/DSi_NWifi.cpp:1428-1446 | a scan result's length field matches its bytes |
| `WifiMailboxes.FrameFramed` | src/DSi_NWifi.cpp:1486-1519 | the message made of a frame is well framed exactly from 14 bytes on, whatever the room |
| `WifiMailboxes.EventFields` | src/DSi_NWifi.cpp:1354-1374 | every field of an event by its offset |
| `WifiMailboxes.AckFields` | src/DSi_NWifi.cpp:1387-1407 | every byte of an acknowledgement |
| `WifiMailboxes.BssFields` | src/DSi_NWifi.cpp:1428-1446 | every field of a scan result by its offset |
| `WifiMailboxes.FrameFields` | src/DSi_NWifi.cpp:1486-1519 | every field of a forwarded frame by its offset: addresses, length, protocol header, type and body |
| `WifiMailboxes.FrameRecovered` | src/DSi_NWifi.cpp:1486-1519 | the frame can be read back from its message |
| `NwramBanks.NwramBank.Map` | src/DSi.cpp:1072-1209 | the register changes unless protected, and afterwards the page table is the function of the registers in which the lowest enabled part wins every slot |
| `NwramBanks.NwramBank.Rebuild` | src/DSi.cpp:1096-1114 | the table rebuilt from the highest part down has the lowest in every slot |
| `NwramBanks.NwramBank.MapRange` | src/DSi.cpp:1211-1280 | the window of one processor is decoded, the other's and the table stay |
| `NwramBanks.WindowAFields` | src/DSi.cpp:1243-1260 | start, end and size of a bank A window from the bits of its register, whatever the others are |
| `NwramBanks.WindowBCFields` | src/DSi.cpp:1261-1279 | the same for banks B and C |
| `NwramBanks.SlotsRepeat` | src/DSi.cpp:1253-1278 | pages of a window show the same slot exactly when they are a multiple of its size apart |
| `NwramBanks.NwramBank.Read` | src/DSi.cpp:1346-1500 | reads one, two or four bytes of the mapped part at the rounded address, or zeroes |
| `NwramBanks.NwramBank.Write` | src/DSi.cpp:1502-1747 | writes one, two or four bytes to every part mapped to the processor's slot and changes no other byte |
| `NwramBanks.NwramBank.WriteAndLook` | src/DSi.cpp:1981-2227 | a read sees the new byte exactly where processor, slot and one of the written offsets are the same and something is mapped; every other read is as before |
| `NwramBanks.WantedIff` | src/DSi.cpp:1516-1521 | comparing whole settings is asking who is mapped there |
| `NwramBanks.SettingFields` | src/DSi.cpp:1076-1112 | enable bit, slot and user of a setting, and which bits cannot be set |
| `NwramBanks.MapsToOne` | src/DSi.cpp:1150-1161 | an enabled setting maps to one user and slot |
| `CheatFiles.ARCodeFile.Load` | src/ARCodeFile.cpp:58-165 | the line loop computes the parse function, with its error results; a missing file changes nothing |
| `CheatFiles.ARCodeFile.Save` | src/ARCodeFile.cpp:167-195 | prints the defined format for all names and codes of whole lines, and what it prints for well-formed categories loads back as the same |
| `CheatFiles.SaveThenLoad` | src/ARCodeFile.cpp:58-195 | for all well-formed lists, loading the saved text gives them back, empty categories and codes included |
| `CheatFiles.ParseFile` | src/ARCodeFile.cpp:58-195 | parsing the printed text and anything after it is parsing the rest with these categories open |
| `CheatFiles.DataIsNoKeyword` | src/ARCodeFile.cpp:86-139 | no printed data line is taken for a CAT or CODE line |
| `CheatFiles.LineErrors` | src/ARCodeFile.cpp:86-156 | a code without a category, data without a code and keywords in lower case are errors |
| `CheatFiles.KeywordsAre` | src/ARCodeFile.cpp:86-110 | which first characters make a CAT or CODE line |
| `CheatFiles.DigitsAre` | src/ARCodeFile.cpp:139 | the digits and their values |
| `CheatFiles.SpacesAre` | src/ARCodeFile.cpp:89-139 | the white space that conversions skip |
| `CheatFiles.LongLines` | src/ARCodeFile.cpp:71-77 | a longer line is cut after 1023 characters |
| `CheatFiles.SkippedLines` | src/ARCodeFile.cpp:79-84 | comments and blank lines change nothing |
| `CheatFiles.ScansHex` | src/ARCodeFile.cpp:139 | eight printed digits scan back as the word |
| `CheatFiles.HexReads` | src/ARCodeFile.cpp:186 | printed digits have the value that was printed |
| `CheatFiles.ScansCode` | src/ARCodeFile.cpp:112 | a printed CODE line scans back as flag and name |
| `CheatFiles.NameSurvivesIff` | src/ARCodeFile.cpp:89 | exactly the names of up to 127 characters without a leading blank survive |
| `CheatEngines.AREngine.RunCheat` | src/AREngine.cpp:42-387 | on every well-formed cheat the interpreter ends, with the memory of the run of its steps, whose effects are the lemmas of CheatMeanings |
| `CheatEngines.AREngine.Execute` | src/AREngine.cpp:59-387 | the skip and copy loops of an instruction do what the defined step says; for every other opcode the method is that step itself, whose effects are the lemmas of CheatMeanings |
| `CheatEngines.StepReady` | src/AREngine.cpp:59-82 | the position never falls below the loop start, and the measure of words after the loop start, loop count and words left decreases |
| `CheatEngines.SkipParameters` | src/AREngine.cpp:75-79 | skipping an E opcode ends where executing it ends |
| `CheatEngines.CopyParameters` | src/AREngine.cpp:327-356 | executing it writes its bytes and passes the same number of words |
| `CheatEngines.CopyMemory` | src/AREngine.cpp:358-380 | the two copy loops of an F opcode write what the definition says |
| `CheatEngines.SkipEndsIff` | src/AREngine.cpp:75-79 | the 32-bit skip loop ends exactly for byte counts up to 0xFFFFFFF8 |
| `CheatEngines.LoopRepeats` | src/AREngine.cpp:256-282 | from a loop start, the run is that of the straight body repeated once more than the count, then left |
| `CheatEngines.ForNext` | src/AREngine.cpp:214-219 | FOR b .. NEXT runs its body b + 1 times and then restores the conditions, or clears everything for D2 |
| `CheatEngines.ExecRuns` | src/AREngine.cpp:59-387 | straight code runs instruction by instruction to its end |
| `CheatMeanings.WriteMeans` | src/AREngine.cpp:86-96 | opcodes 0 to 2 and C6 write exactly the bytes of their value, lowest first, at the aligned address |
| `CheatMeanings.RegisterMeans` | src/AREngine.cpp:284-325 | what B, D3 to D5 and D9 to DC put into offset and data register |
| `CheatMeanings.StoreMeans` | src/AREngine.cpp:296-309 | D6 to D8 write the data register and move the offset by 4, 2 and 1 |
| `CheatMeanings.SkipMeans` | src/AREngine.cpp:68-82 | under a false condition all opcodes but C5 and D0 to D2 are passed over, E with its parameters |
| `CheatMeanings.BadMeans` | src/AREngine.cpp:382-385 | exactly which opcodes end a cheat, without touching memory |
| `CheatMeanings.IfMeans` | src/AREngine.cpp:98-208 | an IF remembers the condition and takes over its comparison of b with the word or the masked halfword at the address, or at the offset for address zero |
| `CheatMeanings.CountMeans` | src/AREngine.cpp:229-245 | C5 counts always and compares the masked count under a true condition |
| `CheatMeanings.EndifMeans` | src/AREngine.cpp:251-254 | ENDIF takes the condition remembered last |
| `CheatMeanings.NextMeans` | src/AREngine.cpp:256-282 | NEXT repeats, or leaves the loop with the conditions from before the FOR, or with everything cleared |
| `CheatMeanings.MaskBits` | src/AREngine.cpp:150-163 | the masks of the halfword comparisons and of C5, bit by bit |
| `CheatMeanings.IfEndif` | src/AREngine.cpp:98-254 | IF, a body that touches no condition, ENDIF: the body runs exactly when the comparison holds, and the condition is as before |
| `CheatMeanings.CountEndif` | src/AREngine.cpp:229-254 | the same for C5 |
| `CheatMeanings.FailedIf` | src/AREngine.cpp:68-254 | an IF that fails goes on behind the next ENDIF under the condition from before it |
| `CheatMeanings.NestedIfLeaks` | src/AREngine.cpp:68-254 | a cheat with a nested IF writes although its outer comparison fails |
| `CheatMeanings.PayloadMeans` | src/AREngine.cpp:327-356 | E copies its parameters to the address plus offset and passes them |
| `CheatMeanings.CopyMeans` | src/AREngine.cpp:358-380 | F copies from the offset to the address |
| `CheatMeanings.CopiedIs` | src/AREngine.cpp:327-356 | every byte after an E: whole words at the aligned address, the rest behind the unaligned one |
| `CheatMeanings.DeliversIff` | src/AREngine.cpp:327-356 | E delivers exactly its bytes, whatever they are, exactly when the destination is a multiple of four or there are fewer than four |
| `CheatMeanings.MovesIf` | src/AREngine.cpp:358-380 | F moves exactly its bytes when both addresses are multiples of four or there are fewer than four, and the destination does not start inside the source |
| `CheatMeanings.MovesIff` | src/AREngine.cpp:358-380 | for different addresses, exactly then for all memories |

## Left out

- Native code emission, ARM_Dispatch, RewriteMemAccess, signal handlers and the OS calls behind fast memory: foreign code; a failing OS call is not modelled.
- AES, SHA-1 and xxhash internals: AES is an arbitrary function, hashing is injective.
- Cycle counts, DMA burst tables and the instruction cache: they do not change data; the cost of a DMA unit is an arbitrary function of its number.
- The instruction table and a proof that every interpreter function respects its declared sets: instructions are abstract.
- BlockCaching.BlockCache.CompileBlock: two CPUs sharing the cache, remapping of memory while blocks are live, one address compiled in both instruction sets (the block map and the restore test ignore the T bit), and hash collisions.
- RegisterCaching.CompileBlock: memory accesses, branches and cycle counting inside a block are part of the abstract world.
- IdleLoops.IdleLoopIsIdle: nobody but the loop changes memory while it runs; what the JIT does with an idle loop is cycle counting.
- MirrorLocations.MirrorAgrees: the DTCM is one range of addresses.
- Crypto.Increment: only the counter step of the CTR routine; the keystream comes from the uninterpreted cipher.
- AesEngines.AesEngine.WriteCnt: FIFO flush bits, interrupts, DMA requests and DMA level fields are not part of the model.
- EsFormat.EsEncrypt: buffers hold payload and footer; allocation is the caller's.
- FatCrypto.NandImage.WriteFATBlock: addresses are multiples of 16 and lengths of 0x200, as the FAT layer passes them; file errors are not modelled.
- Fifos.Fifo: savestates; one class stands for the static and the dynamic FIFO, which differ in reads of an empty queue.
- Ndmas.Ndma.Run: the AES requests at the end of a slice on the ARM7 are later triggers here; the sub-block timer is unused in the code.
- Ndmas.Ndma.Transfer: an endlessly repeating channel never disables itself; `Run` covers its blocks.
- WifiMailboxes.Wifi.CheckRX: frames longer than the 2048 bytes of the LAN buffer.
- WifiMailboxes.Wifi.F1Read: what the other mailboxes and the remaining bits of the status registers hold is a parameter; commands from the host and the bootloader phase.
- NwramBanks.NwramBank.Write: the choice between the three windows in front of the banks is a fixed order of tests.
- CpuModes.Arm.TriggerIRQ: the cheat hook behind the ARM7's vertical-blank interrupt.
- CpuModes.Arm.Enter: aborts and the ARM9's permission map; saved status registers are fields of their own rather than the last cells of the bank arrays.
- CpuModes.Arm.JumpTo: refilling the pipeline.
- BlockTransfers.Arm7.A_STM: data aborts and a base of r15; the S bit is in `UserTransfer.dfy`.
- BlockTransfers.Arm7.A_LDM: likewise.
- UserTransfers.Processor.A_LDM: likewise data aborts and a base of r15.
- CheatFiles.ARCodeFile.Load: the numeric value of an enable flag that overflows an int; only whether it is zero matters.
- CheatFiles.ARCodeFile.Save: names with a zero character, and codes of odd length, whose printing reads past the end of the code in the source.
- CheatEngines.AREngine.RunCheat: cheats are well formed (whole instructions, parameters in range, E lengths at most 0xFFFFFFF8); the loop theorem is about bodies without inner loops, and the copy theorems about ranges that end before the end of the address space.
- SD host registers, I2C, touch screen, cartridge, sound, video, network hosts, title management and savestates: mostly register plumbing.
