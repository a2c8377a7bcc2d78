# Verified models of melonPrimeDS

Dafny models of the parts of the emulator whose correctness is hard to see from reading one function, each
with proofs that hold for all inputs, all runs or all reachable states.

- **JIT middle end.** The register allocator (`RegisterCache.dfy`) refines direct execution; the backward flag
  pass (`DeadFlags.dfy`) preserves meaning and marks nothing dead; the idle-loop detector (`IdleLoop.dfy`) is
  sound under a condition it does not check, which is shown to be exact; the block cache (`BlockCache.dfy`)
  keeps ranges, lookup slots, maps and retired blocks coherent, but for one case, and live code write-protected
  in the page map (`PageProtection.dfy`, `MemoryMap.dfy`), whose assertions hold for exactly known settings.
- **DSi cryptography.** `CounterMode.dfy` and `Ccm.dfy` hold the block steps for an arbitrary cipher,
  `CcmReference.dfy` CCM as RFC 3610 defines it, which the steps are proved to compute;
  `AesEngine.dfy` is the streaming engine between its two FIFOs (`Fifo.dfy`); `EsCrypto.dfy` the in-place ES
  routines and their round trip.
- **ARM core state.** `Banking.dfy` proves the swapping of banked registers to be a faithful picture of one
  register file per mode, through MSR, exceptions and returns; `BlockTransfer.dfy` covers LDM, STM, PUSH and
  POP; `AluFlags.dfy` carry chains, conditions and saturation.
- **Transfers and mappings.** `Dma.dfy` and `Ndma.dfy` (slicing and conservation), `Nwram.dfy` (bank mapping),
  `WifiMailbox.dfy` (framing).
- **Small languages.** `CodeFile.dfy` (cheat file printer and parser), `CheatEngine.dfy` (the interpreter's
  termination and alignment), `CheatMemory.dfy` (what its copies leave in memory), `Crc32.dfy`.

`Machine.dfy` holds the fixed-width integers and other shared types, `Division.dfy` facts about quotients,
`InstrInfo.dfy` the instruction metadata.

Objects the source updates in place are classes whose methods are proved against functions of their old state;
bit masks are sets, FIFOs and register arrays sequences. Where a register is a bundle of bit fields it is a
record of these fields. Where code and comments or names in the source disagree, the models follow the code:
InvalidateByAddr drops every block naming the range (its mask test is always true), the restore test ignores
the CPU, and the idle-loop detector ignores flags.

`dafny verify dfyconfig.toml` checks the project.

## Model

| member | source | states |
|---|---|---|
| RegisterCaching.RegisterCache.RunBlock | src/ARMJIT_RegisterCache.h:55-200 | For every straight-line block, every exit point and every allocation order: R0-R14 in memory and the rest of the machine after preparing and running the first `count` instructions on native registers and then leaving over PrepareExit or Flush are those of direct execution |
| RegisterCaching.RegisterCache.Prepare | src/ARMJIT_RegisterCache.h:122-200 | Before an instruction is compiled every guest register it names, reads or writes, and cannot do without is loaded and mapped to a distinct native register of the allocation order, and loaded destinations are dirty; the registers of a block transfer are loaded unless no native register is left; only named registers are newly loaded, nothing the rest of the block never uses stays loaded, and a register the block still needs is evicted only for want of room; no visible value changes except destinations whose old value the instruction ignores |
| RegisterCaching.RegisterCache.UnloadRegister | src/ARMJIT_RegisterCache.h:55-66 | Write-back and freeing change no register the program sees |
| RegisterCaching.RegisterCache.LoadRegister | src/ARMJIT_RegisterCache.h:68-89 | While fewer registers are loaded than native ones exist, the first free native register in allocation order is taken: the abort is unreachable |
| RegisterCaching.RegisterCache.Rank | src/ARMJIT_RegisterCache.h:133-143 | The ranking of a register counts exactly the later instructions that name it outside their not-strictly-needed set, and the needed set is exactly the registers some later instruction names |
| RegisterCaching.UsesCounts | src/ARMJIT_RegisterCache.h:133-143 | The recursive count of uses is the number of instructions from that point that strictly name the register |
| RegisterCaching.NecessaryAndOptional | src/ARMJIT_RegisterCache.h:151-200 | What an instruction must and may have loaded are, together, its sources but for the PC and its destinations, split by its not-strictly-needed set |
| RegisterCaching.RegisterCache.PickVictim | src/ARMJIT_RegisterCache.h:159-169 | A victim is found unless everything loaded is needed; it is the lowest-ranked register not needed, the lowest-numbered on ties |
| RegisterCaching.RegisterCache.MakeRoom | src/ARMJIT_RegisterCache.h:151-174 | Eviction terminates with room for the needed registers, evicts nothing the instruction needs, evicts nothing when there was room, and its assertion cannot fail |
| RegisterCaching.RegisterCache.LoadOptional | src/ARMJIT_RegisterCache.h:183-197 | Registers that are not strictly needed are loaded until they all are or no native register is left |
| RegisterCaching.RegisterCache.Flush | src/ARMJIT_RegisterCache.h:114-120 | Afterwards memory alone holds R0-R14 and nothing is allocated |
| RegisterCaching.RegisterCache.PrepareExit | src/ARMJIT_RegisterCache.h:107-112 | Memory holds R0-R14 while the allocation stays |
| RegisterCaching.RegisterCache.Execute | src/ARMJIT_RegisterCache.h:55-89 | Code emitted for an instruction finds every register it strictly names on a native one and, run with garbage in fresh destinations, has the outcome of running on the true values |
| DeadFlags.FloodFillSetFlags | src/ARMJIT.cpp:246-262 | In place, every instruction before the start is marked with exactly the wanted flags it writes and no instruction in between always overwrites; the early return loses none |
| DeadFlags.MarkBlock | src/ARMJIT.cpp:820-823 | The calls made while a block is fetched, and the one at its end (line 898), leave each instruction marked with exactly the flags it writes that are live after it, whatever the marks held before |
| DeadFlags.LiveMeansDemanded | src/ARM_InstrInfo.h:265-268 | A flag is live exactly when some later point demands it and nothing before that point always overwrites it |
| DeadFlags.GarbageIsAny | src/ARMJIT.cpp:246-262 | Compiled code leaves an arbitrary value in exactly the flags an instruction writes without their being marked |
| DeadFlags.EliminationPreservesMeaning | src/ARMJIT.cpp:246-262 | With truthful metadata and any garbage in the dropped flags, compiled code agrees with full execution on the flags every instruction reads (all four at interpreter calls and followed branches), on all four at the exit, and on the rest of the machine throughout |
| IdleLoops.IsIdleLoop | src/ARMJIT.cpp:352-381 | Accepts exactly the bodies without stores, PSR or coprocessor access and inner branches in which no instruction writes a register that it or an earlier one read first |
| IdleLoops.OnePassIsEnough | src/ARMJIT.cpp:352-381 | In a body whose reads are all of places certainly written earlier or not written from there to the end, every instruction of a second pass, the closing branch included, finds the inputs of the first, and one pass reaches a fixed point |
| IdleLoops.IdleLoopIsIdle | src/ARMJIT.cpp:352-381 | For every n >= 1, n passes over such a body equal one pass |
| IdleLoops.SelfContainedIsExact | src/ARMJIT.cpp:352-381 | That condition is exact on the metadata: it holds if and only if every truthful body with the same register and flag sets finds the same inputs in its second pass from every state |
| IdleLoops.SelfContainedMeans | src/ARMJIT.cpp:352-381 | The condition in terms of the register and flag sets alone: what an instruction reads is a register some earlier unconditional instruction writes, a flag some earlier one always writes, or nothing from there on writes it |
| IdleLoops.AcceptedIsIdleIff | src/ARMJIT.cpp:352-381 | For a body the detector accepts, the same equivalence with the condition on flags and on registers named as a destination earlier in the body alone: the detector covers all other registers |
| IdleLoops.FlagDependenceIsMissed | src/ARMJIT.cpp:369-379 | The detector looks at registers only: it accepts MOVS r0,r1,RRX; BNE, whose second pass differs from its first because the carry is read before it is set |
| IdleLoops.ConditionalWriteIsMissed | src/ARMJIT.cpp:369-379 | Counting a conditional write as a write, the detector accepts CMP r4,#0; MOVEQ r0,r2; MOV r1,r0; MOV r0,r3; BNE, whose second pass differs from its first |
| BlockCaching.BlockCache.CompileBlock | src/ARMJIT.cpp:846-936 | Puts a block with the start address, literal hash, ranges and masks of the code compiled into the map, its ranges and its lookup slot, whether fresh or restored; live code is protected; the whole coherence invariant holds afterwards if and only if the block was in the map before or its CPU is the one compiled for |
| BlockCaching.OtherCpuRestored | src/ARMJIT.cpp:846-936 | A run that reaches this case from an empty cache: the ARM9 compiles a block, a write to it retires it, the ARM7 compiles the same code at the same address, and the ARM7's table and lookup slot then name the ARM9's code |
| BlockCaching.OtherCpuRestoredOnce | src/ARMJIT.cpp:846-936 | One such run with all values given: code at 0x02000000, local address 0x20000000 in main RAM |
| BlockCaching.BlockCache.RestoreOrCreate | src/ARMJIT.cpp:849-910 | The candidate under the instruction hash is taken out, and returned if and only if start address, literal hash, ranges and masks equal those of the code compiled; otherwise it is deleted and a fresh block is returned; the block returned always has that hash and those values; the comparison leaves out the CPU |
| BlockCaching.BlockCache.InvalidateByAddr | src/ARMJIT.cpp:939-1031 | Drops exactly the blocks that name the 512-byte range of the address, from every table; the range is left empty, other ranges keep their code masks until their last block goes, and exactly the lookup slots of the dropped blocks are emptied; dropped blocks with the address as a literal are deleted and the address becomes an invalid literal, the others are retired in list order |
| BlockCaching.BlockCache.RetiredOrKept | src/ARMJIT.cpp:971-1029 | Afterwards the candidate under any hash is one of the dropped blocks that was not hit through a literal, or, when none of them has that hash, the candidate of before |
| BlockCaching.BlockCache.IsInvalidated | src/ARMJIT.cpp:952-970 | The test made on a listed block compares its mask with itself and so always succeeds |
| BlockCaching.BlockCache.DropBlock | src/ARMJIT.cpp:971-1029 | One listed block leaves its ranges, slot and map together; it becomes the restore candidate under its hash, or is deleted when the address hit one of its literals; page protection follows |
| BlockCaching.BlockCache.CheckAndInvalidate | src/ARMJIT.h:66-72 | After the check every write makes, no live block was compiled from the 16-byte unit written to and surviving blocks are unchanged; a write to a unit without code changes nothing at all, and one to a unit with code has the effects of InvalidateByAddr |
| BlockCaching.BlockCache.RetireJitBlock | src/ARMJIT.cpp:470-482 | The block becomes the candidate under its hash, and only an older candidate with that hash is deleted |
| BlockCaching.BlockCache.LookUpBlock | src/ARMJIT.cpp:1067-1079 | A hit occurs exactly when the slot holds the key of that CPU and address, and names a live block of that CPU starting at that address |
| BlockCaching.BlockCache.ResetBlockCache | src/ARMJIT.cpp:1114-1159 | Every table is emptied, nothing is mapped, and every block object ever created ends up deleted, each from the one place it was in |
| BlockCaching.BlockCache.LiveCodeIsProtected | src/ARMJIT_Memory.cpp:389-424 | In every coherent state of block cache and page map together (all but those behind the one restore CompileBlock names): a mapped page that shows a range of a live block through any mirror is write-protected |
| BlockCaching.BlockCache.HandleFault | src/ARMJIT_Memory.cpp:522-625 | Mapping a mirror on a fault keeps that, and fails exactly when the page map alone would |
| PageProtection.AlignedRegionsNest | src/ARMJIT_Memory.cpp:576-616 | Two aligned power-of-two regions nest or are disjoint |
| PageProtection.MapPages | src/ARMJIT_Memory.cpp:572-616 | The stretch-finding loops set every page of the mapping outside the DTCM hole to Protected exactly when it shows code and to RW otherwise, touch no other page, and fail exactly when such a page was mapped |
| PageProtection.UnmapPages | src/ARMJIT_Memory.cpp:322-387 | The loops of Unmap unmap exactly the pages of the mapping outside the hole, and fail exactly when one was not mapped |
| PageProtection.NoAssertionFailsIffSeparated | src/ARMJIT_Memory.cpp:522-625 | Over every sequence of touches, protection changes and resets the assertions of MapAtAddress hold if and only if the mirrors of the memory map never overlap by halves |
| PageProtection.TwoTouchesFail | src/ARMJIT_Memory.cpp:522-625 | Any two mirrors that do overlap by halves make an assertion fail after two accesses |
| PageProtection.PageMap.MapAtAddress | src/ARMJIT_Memory.cpp:522-625 | The page status tables keep to the mappings: every page of a mapping outside the hole Protected exactly when it shows code, RW otherwise, all others Unmapped |
| PageProtection.PageMap.SetCodeProtection | src/ARMJIT_Memory.cpp:389-424 | Keeps that invariant while one page of code is protected or released in every mapping that shows it; its assertion never fails |
| PageProtection.PageMap.Reset | src/ARMJIT_Memory.cpp:817-830 | Unmaps every page without a failing assertion |
| MemoryMap.LocaliseAgreesWithMirror | src/ARMJIT_Memory.cpp:851-1062 | For every address and map, the data TCM aside: GetMirrorLocation gives a mirror exactly when LocaliseAddress gives a local address, and that is the one reached through the mirror |
| MemoryMap.Regions9 | src/ARMJIT_Memory.cpp:1064-1122 | Each region of the ARM9 is exactly the stated set of addresses: TCMs first, then BIOS, main RAM, WRAM windows by bank priority, I/O and VRAM |
| MemoryMap.Regions7 | src/ARMJIT_Memory.cpp:1124-1180 | The same for the ARM7 |
| MemoryMap.MirrorsShowMemory | src/ARMJIT_Memory.cpp:1000-1062 | Byte o of mirror j of every memory localises to byte o of that memory |
| MemoryMap.SlotsShowParts | src/ARMJIT_Memory.cpp:1026-1055 | Byte o of slot k in any repetition of a new-WRAM window localises to byte o of the part behind slot k, in slots of 64 KB for bank A and 32 KB for banks B and C, and to nothing without one |
| MemoryMap.WindowsStep | src/DSi.cpp:1166-1235 | Whatever is written to the window registers, new-WRAM windows begin and end at whole slots from 0x03000000 on, as the theorems on the memory map assume, and repeat at most as many slots as the bank has parts |
| MemoryMap.FastMapIsSafeIff | src/ARMJIT_Memory.cpp:522-625 | For every setting of a DS or DSi memory map: no assertion of MapAtAddress fails on any run if and only if the settings avoid two clashes, a reachable data TCM of 4 or 8 KB beside reachable fast memory in one mirror, and a 64 KB block of the ARM7 that shows its own WRAM in one half and new WRAM of bank B or C in the other |
| MemoryMap.DsMapIsSafeIff | src/ARMJIT_Memory.cpp:522-625 | On a DS the data TCM clash is the only one |
| MemoryMap.FastMirrorOK | src/ARMJIT_Memory.cpp:851-998 | For every setting and address, the mirror is an aligned power-of-two stretch around the address, in the address space and outside the data TCM unless it is the data TCM |
| MemoryMap.SmallDtcmBreaksTheMap | src/ARMJIT_Memory.cpp:851-998 | With a 4 KB data TCM inside main RAM two accesses make an assertion fail |
| MemoryMap.HalfWindowBreaksTheMap | src/ARMJIT_Memory.cpp:851-998 | With a 32 KB window of new WRAM inside the ARM7's 64 KB WRAM mirror two accesses make an assertion fail |
| Fifos.Fifo.Write | src/FIFO.h:50-61 | The ring buffer (FIFO; DynamicFIFO has the same body) is a bounded queue: a write appends, and is dropped when full |
| Fifos.Fifo.Read | src/FIFO.h:63-75 | A read removes the oldest entry; an empty queue stays empty |
| Fifos.Fifo.Peek | src/FIFO.h:82-89 | The entry at an offset is that of the queue, across the end of the buffer |
| CounterMode.XorTwice | src/DSi_AES.cpp:157-235 | XOR with the same key block twice gives the block back |
| CounterMode.XorByteBits | src/DSi_AES.cpp:153-153 | The byte-wise XOR is the bit-wise one |
| CounterMode.IncrementAdds | src/tiny-AES-c/aes.c:552-563 | The carry loop on a counter block adds one to its 128-bit number |
| CounterMode.CounterPlusAdds | src/DSi_AES.cpp:157-235 | k increments add k, modulo 2^128 |
| Ccm.StepUndoes | src/DSi_AES.cpp:157-235 | For every block function, CCM decryption of one block undoes encryption with the same counter and MAC afterwards, and CTR undoes itself |
| Ccm.StreamUndoes | src/DSi_AES.cpp:157-235 | The same for messages of any number of blocks |
| CcmReference.StreamIsCcm | src/DSi_AES.cpp:157-235 | For every cipher, mode sequence and message: output block k is input block k XOR the cipher of the counter advanced by k, and the MAC is the CBC-MAC over the reversed blocks of plaintext, which are the inputs in mode 1 and the outputs in mode 0 |
| CcmReference.ExtrasAreCbc | src/DSi_AES.cpp:141-155 | The associated blocks go through the same CBC-MAC and leave the counter alone |
| CcmReference.FinalMacIs | src/DSi_AES.cpp:435-438 | The final MAC is the CBC-MAC XOR the cipher of counter block 0 |
| AesEngine.FirstBlockIsCcm | src/DSi_AES.cpp:303-308 | B0 is that of section 2.2 of RFC 3610 with L = 3: flag bits, nonce, and the message length as a big-endian number |
| AesEngine.StartCoreIs | src/DSi_AES.cpp:283-313 | A run starts from the CBC-MAC of B0 alone and counter block 1 in the CCM modes, from the register values in the CTR modes |
| AesEngine.RunIsCcm | src/DSi_AES.cpp:141-487 | The MAC of a run is the CBC-MAC from its start over associated blocks and then plaintext, its output the key stream of consecutive counters |
| AesEngine.WordsAt | src/DSi_AES.cpp:157-235 | Word j of block k holds bytes 4j to 4j + 3 of the block, least significant first |
| AesEngine.Aes.Update | src/DSi_AES.cpp:402-487 | Processes all that the FIFOs allow: the counts, input and output of the run stay those of the reference transform of the blocks consumed, each in the mode then set; the step that uses up the last block completes the run, raises the interrupt once if enabled, switches the engine off and sets bit 21 exactly when mode 0 ends with the MAC in the register |
| AesEngine.Aes.ProcessExtras | src/DSi_AES.cpp:404-411 | Associated blocks are consumed until the count or the input runs out, going into the MAC only |
| AesEngine.Aes.ProcessBlocks | src/DSi_AES.cpp:413-429 | Data blocks are consumed only while four output words fit, so no output word is dropped |
| AesEngine.Aes.Finish | src/DSi_AES.cpp:431-486 | Bit 21 is set exactly when the MAC register equals the final MAC in mode 0; in mode 1 the MAC goes out at once or is owed |
| AesEngine.Aes.SendMac | src/DSi_AES.cpp:354-361 | The MAC is put out in whole words behind the ciphertext, once |
| AesEngine.Aes.WriteInputFIFO | src/DSi_AES.cpp:367-378 | Any word written is consumed in order or waits in the FIFO, or is dropped when the FIFO is full; an engine that is on then goes on until it lacks a block of input or room for a block of output, one that is off processes nothing |
| AesEngine.Aes.ReadOutputFIFO | src/DSi_AES.cpp:336-365 | What is read, in order, continues the output of the run; an engine that is on then goes on as far as input and room allow, one that is off puts out a MAC it owes once there is room and processes nothing |
| AesEngine.Aes.WriteCnt | src/DSi_AES.cpp:248-325 | Only a rising enable bit starts a run, from the counter and MAC the registers give; with both counts zero it ends at once; other writes leave the run as it is |
| AesEngine.Aes.OutputIsTheTransform | src/DSi_AES.cpp:336-487 | In every state the words read are a prefix of what the FIFO held at the start and what the run produces, input words are the blocks consumed followed by the FIFO, and what is produced is CCM: key stream of consecutive counters, CBC-MAC over associated blocks and plaintext |
| AesEngine.Aes.EndsExactlyWhenServed | src/DSi_AES.cpp:336-487 | Unless the engine is switched off on the way, after every word written or read the run has ended if and only if all its input words have been written and all but the last 16 words of its output have been read, in whatever order |
| AesEngine.Aes.Serve | src/DSi_AES.cpp:336-487 | From every state with the engine on, however full the FIFOs are, writing the missing words and reading ends the run after finitely many steps, with one completion and one interrupt |
| AesEngine.CcmRoundTrip | src/DSi_AES.cpp:141-487 | Feeding the associated blocks and the ciphertext of a mode 1 run back in mode 0 from the same start returns the message, and the MAC it is checked against is the one put out last |
| EsCrypto.IncrementCounts | src/tiny-AES-c/aes.c:552-563 | The byte-wise carry loop on a counter block is an addition of one to its 24-bit block number |
| EsCrypto.CounterAfter | src/DSi_NAND.cpp:408-418 | After k blocks the running counter is the one the decryptor rebuilds as k + 1 |
| EsCrypto.TailUndoes | src/DSi_NAND.cpp:408-431 | The key stream put into the unused bytes makes the decryptor see the very block the encryptor produced, so the partial last block comes back with the same MAC |
| EsCrypto.BodyUndoes | src/DSi_NAND.cpp:370-436 | Body and MAC come back for every length as long as the rebuilt block number fits its three bytes or is not used |
| EsCrypto.TailComesBackIff | src/DSi_NAND.cpp:408-431 | Whatever counter the decryptor rebuilds, the partial last block comes back if and only if it has the key stream bytes of the encryptor's running counter |
| EsCrypto.CountersAgreeIff | src/tiny-AES-c/aes.c:552-563 | The rebuilt counter is the running one if and only if the block number is below 2^24: from there on the carry has left the block number |
| EsCrypto.SameForAllCiphers | src/DSi_NAND.cpp:408-418 | Both sides use the same key stream for the partial last block under every cipher if and only if there is none or its number is below 2^24 |
| EsCrypto.RoundTrip | src/DSi_NAND.cpp:285-473 | For every block function, buffer and 32-bit length: decryption after encryption returns true if and only if len < 2^24; the body is restored if and only if both sides use the same key stream for the partial last block; the 12 nonce bytes and what follows the footer are untouched, flag and length appear in clear |
| EsCrypto.EsEncrypt | src/DSi_NAND.cpp:285-368 | In place, and whatever the unread footer bytes hold: the body is the message under the key stream, the stored MAC is the CBC-MAC over B0 and the zero-padded message XOR the cipher of counter block 0, for the B0 of RFC 3610 with no associated data, M = 16, L = 3, the nonce and the length rounded up to whole blocks |
| EsCrypto.EsDecrypt | src/DSi_NAND.cpp:370-473 | In place: the body is the stored one under the key stream; the verdict is true exactly when the stored length agrees and all 16 MAC bytes equal that CBC-MAC of the decrypted message |
| EsCrypto.CryptCoarse | src/DSi_NAND.cpp:308-320 | The loops over whole blocks are the CCM transform of those blocks |
| EsCrypto.StartIsCcm | src/DSi_NAND.cpp:298-306 | B0 described by its parts: Adata 0, M' = 7 and L' = 2 in byte 0, the nonce, and a length that is the least multiple of 16 not below len, modulo 2^24 |
| EsCrypto.EncryptedIsCcm | src/DSi_NAND.cpp:285-368 | The specified encryption is CCM in these terms, for every cipher, buffer and length |
| EsCrypto.DecryptedIsCcm | src/DSi_NAND.cpp:370-473 | So are the specified decryption and its verdict |
| Banking.ReadsCurrent | src/ARM.cpp:441-518 | R always holds what the current mode sees of the banked register file |
| Banking.AfterReset | src/ARM.cpp:150-195 | Reset leaves a valid state: supervisor mode, interrupts masked, all registers zero, the PC behind the reset vector |
| Banking.Arm.SwapBank | src/ARM.cpp:445-475 | One switch exchanges the views of user mode and of the mode's bank, and is its own inverse |
| Banking.Arm.UpdateMode | src/ARM.cpp:441-518 | Changing between any two mode values changes no register of any bank |
| Banking.Arm.RestoreCPSR | src/ARM.cpp:399-439 | The status register becomes the mode's saved one, if it has one, and no register of any bank changes; the forced bit 4 was set already |
| Banking.Arm.JumpTo | src/ARM.cpp:355-397 | PC and T bit follow the address, or the restored status register |
| Banking.Arm.Enter | src/ARMInterpreter.cpp:37-72 | Exception entry (A_UNK, T_UNK, A_SVC, T_SVC, aborts, interrupts) changes of all banks only the exception's link register and saved status, beside CPSR and PC; EntryIsExact gives the values |
| Banking.Arm.TriggerIRQ | src/ARM.cpp:520-533 | Nothing happens while interrupts are masked; otherwise interrupt entry |
| Banking.Arm.MsrReg | src/ARMInterpreter.cpp:127-178 | MSR rewrites exactly the selected bytes of CPSR or of the mode's saved status and no register of any bank |
| Banking.Arm.UserRegs | src/ARMInterpreter_LoadStore.cpp:497-529 | Between the two mode changes of the user-bank STM, R holds the user registers whatever the mode; afterwards nothing has changed |
| Banking.Arm.LoadUserRegs | src/ARMInterpreter_LoadStore.cpp:418-448 | The user-bank LDM loads exactly the user copies of the listed registers, whatever the mode |
| Banking.PutAllGets | src/ARMInterpreter_LoadStore.cpp:421-431 | Replacing listed registers of a bank changes another bank's view of a register exactly where the two share the copy |
| Banking.MsrKeeps | src/ARMInterpreter.cpp:74-125 | Bit 4 stays set, CPSR keeps its T bit, and in user mode the control byte is out of reach |
| Banking.MsrIsMaskedWrite | src/ARMInterpreter.cpp:102-119 | As a 32-bit word the new status is (old & ~mask) | ((value | 0x10) & mask), with the mask of the chosen bytes, without bit 5 for CPSR and without the low byte in user mode |
| Banking.MsrRunKeeps | src/ARMInterpreter.cpp:74-178 | Over any sequence of MSRs no register of any bank changes; from user mode neither the mode, the interrupt masks nor any saved status can be changed |
| Banking.EntryIsValid | src/ARM.cpp:520-533 | After entry interrupts are masked in ARM state, bit 4 is set in every status register and the PC is aligned |
| Banking.EntryIsExact | src/ARM.cpp:520-581 | In numbers, for every exception and state: CPSR keeps all but the bits 0xBF (0xFF for an interrupt) and gets 0x9B, 0x93, 0x97 or 0xD2, the PC is base + vector + 4, R14 is R15 less 4 or 2, or plus 0, 2 or 4, the exception's own saved status is the old CPSR, and no other register of any bank changes |
| Banking.DecodeIsExact | src/ARMInterpreter.cpp:166-166 | Every 32-bit value is the value of exactly one record of status fields |
| Banking.JumpIsAhead | src/ARM.cpp:287-397 | After a jump R15 is one instruction past the target cut down to the instruction size, Thumb exactly for odd addresses, and nothing else changes |
| Banking.EntryAndReturn | src/ARMInterpreter.cpp:267-289 | For every exception entered from outside its bank: the status-restoring return to the link register less its offset gives back CPSR, PC (of the aborted instruction for a data abort) and every register of every bank but the exception's link register and saved status |
| BlockTransfer.StoredAt | src/ARMInterpreter_LoadStore.cpp:506-526 | Each listed register goes to its own word, lowest register at the lowest address |
| BlockTransfer.StoredFrame | src/ARMInterpreter_LoadStore.cpp:506-526 | No word but the n consecutive ones from the start address is touched, also across the 4 GB wrap |
| BlockTransfer.LoadedAfterStored | src/ARMInterpreter_LoadStore.cpp:421-431 | Loading a list from where it was stored gives the values back whatever the listed registers held in between |
| BlockTransfer.Core.Stm | src/ARMInterpreter_LoadStore.cpp:472-535 | IA, IB, DA and DB with or without write-back, with the base in the list by the rules of both cores |
| BlockTransfer.Core.Ldm | src/ARMInterpreter_LoadStore.cpp:393-469 | The same for loads, with the ARM9 rule for a base in the list and the jump of a loaded PC |
| BlockTransfer.Core.Push | src/ARMInterpreter_LoadStore.cpp:701-737 | PUSH is STMDB on R13 |
| BlockTransfer.Core.Pop | src/ARMInterpreter_LoadStore.cpp:739-767 | POP is LDMIA on R13, with the ARM7 staying in Thumb state on a popped PC |
| BlockTransfer.Core.StmiaLow | src/ARMInterpreter_LoadStore.cpp:769-788 | T_STMIA stores the base as it was and writes back past the list |
| BlockTransfer.Core.LdmiaLow | src/ARMInterpreter_LoadStore.cpp:790-815 | T_LDMIA is LDMIA that keeps a loaded base |
| BlockTransfer.StmIsExact | src/ARMInterpreter_LoadStore.cpp:472-535 | Register by register, without counting through the list: an ascending store puts each listed register one word above the base per listed register below it, a descending one below it per listed register above it, one word further when it steps first; no other word changes; the base is stored as it was, but on the ARM7 with a lower register listed its own address is stored |
| BlockTransfer.LdmIsExact | src/ARMInterpreter_LoadStore.cpp:393-469 | A load fills each listed register from that address; a written-back base moves by a word per listed register unless it is loaded itself, and on the ARM9 even then if a higher register is listed or no other one |
| BlockTransfer.LdmJump | src/ARMInterpreter_LoadStore.cpp:423-448 | A listed PC comes from the word of the highest register, its low bit cleared on the ARM7 |
| BlockTransfer.CountIsSize | src/ARMInterpreter_LoadStore.cpp:401-416 | The counts of the loops are the numbers of listed registers |
| BlockTransfer.OppositeStarts | src/ARMInterpreter_LoadStore.cpp:401-416 | After the write-back of one mode the opposite mode starts at the same word and writes back the old base |
| BlockTransfer.StmThenLdm | src/ARMInterpreter_LoadStore.cpp:393-535 | STM followed by the opposite LDM restores listed registers and base for every list without base and PC, keeps the others, and has written exactly the n words |
| BlockTransfer.PushThenPop | src/ARMInterpreter_LoadStore.cpp:701-767 | PUSH {list, LR} then POP {list, PC} restores the list and R13 and jumps to what was in LR |
| NwRam.PatternIsPlacement | src/DSi.cpp:1639-1644 | With only settable bits in the MBK bytes, the equality test of a write holds exactly for the parts placed at the slot for that processor |
| NwRam.PlacingValues | src/DSi.cpp:1055-1180 | Exactly one byte value places a part at a slot of a processor, exactly two at a slot of the DSP, none in bank A |
| NwRam.LostBits | src/DSi.cpp:1029-1076 | A write of an MBK byte loses exactly bits 1 and 4 to 6 in bank A, bits 5 and 6 in banks B and C |
| NwRam.NwramBank.Rebuild | src/DSi.cpp:1055-1069 | The descending loop leaves in every slot the lowest-numbered enabled part placed there |
| NwRam.NwramBank.MapPart | src/DSi.cpp:1027-1070 | In every reachable state the slot tables of all processors are a function of the MBK bytes alone, whatever the order of writes; a locked part keeps its byte |
| NwRam.NwramBank.Write | src/DSi.cpp:1633-1650 | A processor's write goes to all parts placed at the slot and to no other |
| NwRam.NwramBank.Read | src/DSi.cpp:1410-1414 | A read shows the lowest-numbered part placed at the slot, zeros without one |
| NwRam.WriteThenRead | src/DSi.cpp:1633-1650 | A read of the same place and size returns what was written (zeros when nothing is placed), and no other slot or processor sees a change |
| DmaChannels.Dma.Start | src/DMA.cpp:155-196 | A new transfer has the programmed count, the value below the mask of its channel or one more than the mask for zero, one in progress goes on; the next chunk is the rest or 112 units towards the geometry FIFO; without reload modes the addresses go on |
| DmaChannels.Dma.Run | src/DMA.cpp:552-623 | However the clock and stalls cut it, a slice moves the next units in order, never more than the transfer has left; the last unit ends the transfer, clears the enable bit unless it repeats and raises the interrupt once |
| DmaChannels.Dma.Slice | src/DMA.cpp:562-595 | Unit k goes from src + k * inc to dst + k * inc, modulo 2^32 |
| DmaChannels.Dma.WriteCnt | src/DMA.cpp:114-153 | A rising enable bit loads addresses, increments and start mode and starts an immediate transfer; any other write leaves addresses, increments, mode, counts and the transfer in progress as they are, its units still evenly spaced unless the unit size changes |
| DmaChannels.Dma.WholeTransfer | src/DMA.cpp:552-693 | A finished transfer without address reloads moved exactly the programmed number of units; unit k went from src + k * width * inc to dst + k * width * inc modulo 2^32, 4 or 2 bytes wide |
| NdmaChannels.Ndma.SetCounts | src/DSi_NDMA.cpp:149-170 | A slice has the units left of its block, at most 112 towards the geometry FIFO; slice and block of a limited transfer are cut to what is left of the total length when the slice would pass it |
| NdmaChannels.Ndma.Start | src/DSi_NDMA.cpp:145-191 | The next block or chunk starts with those sizes, from the reloaded addresses where reloading is set; the bookkeeping moves by the abstract trigger step |
| NdmaChannels.Ndma.Run | src/DSi_NDMA.cpp:200-287 | An immediate transfer ends with its block, a triggered one with the block that uses up the total length; the end clears the enable bit and raises the interrupt once; the bookkeeping moves by the abstract slice step |
| NdmaChannels.Ndma.WriteCnt | src/DSi_NDMA.cpp:96-143 | A rising enable bit loads addresses, increments, mode and total length, and the bookkeeping is that of a fresh transfer; any other write leaves them and the counts as they are |
| NdmaChannels.Ndma.WriteBlockLength | src/DSi.cpp:2613-2613 | The block length takes 24 bits and counts from the next block on; a transfer under way is then no longer followed as one of equal blocks |
| NdmaChannels.Ndma.BlocksSumToTotal | src/DSi_NDMA.cpp:96-287 | In every state of a triggered, non-repeating transfer programmed once: the units moved and those left make up the total length, and the end was reported at most once, with all of it moved and the channel disabled |
| NdmaChannels.CutKeeps | src/DSi_NDMA.cpp:200-287 | A slice keeps the bookkeeping sound (blocks begin at multiples of the block length, chunks at multiples of 112), and one that moves at least one unit brings the end nearer |
| NdmaChannels.EveryTransferEnds | src/DSi_NDMA.cpp:145-287 | From every sound state, enough triggers and slices of at least one unit end the transfer for any block length: all of the total moved, the end reported once, the channel disabled |
| NdmaChannels.WholeBlocks | src/DSi_NDMA.cpp:145-287 | Outside the geometry FIFO, n triggers whose blocks run to their end move n block lengths or what is left, and the end is reported exactly when they reach the total |
| NdmaChannels.LastUnitReports | src/DSi_NDMA.cpp:256-282 | Over every sequence of triggers and slices, the move of the last unit reports the end if and only if the transfer is not for the geometry FIFO with a last block that is shorter than the block length and a whole number of 112-unit chunks |
| NdmaChannels.ReportComesLate | src/DSi_NDMA.cpp:149-282 | 112 words to the geometry FIFO in blocks of 200: after the chunk that moves them all, 88 units of the block and the report stay open until the next trigger |
| WifiMailbox.FramesAppend | src/DSi_NWifi.cpp:1340-1506 | Whole frames behind whole frames are whole frames, in the same order |
| WifiMailbox.EventIsFrame | src/DSi_NWifi.cpp:1340-1371 | What SendWMIEvent writes is one frame of exactly the size it checked for, with endpoint, number, data and an empty lookahead report in their places |
| WifiMailbox.AckIsFrame | src/DSi_NWifi.cpp:1373-1404 | The same for SendWMIAck, byte by byte |
| WifiMailbox.BssInfoIsFrame | src/DSi_NWifi.cpp:1406-1438 | The same for SendWMIBSSInfo, with channel, kind, signal values, address and data |
| WifiMailbox.RxIsFrameIff | src/DSi_NWifi.cpp:1474-1502 | What CheckRX writes for a packet is a frame if and only if the packet has at least 14 bytes |
| WifiMailbox.RxCarriesPacket | src/DSi_NWifi.cpp:1474-1502 | The frame of a packet holds its two addresses, behind them the length of LLC prefix and payload with its high byte first, the prefix, the type and the payload |
| WifiMailbox.DrainIsExact | src/DSi_NWifi.cpp:1554-1571 | For any bytes: what stays behind is the end of what there was and lacks a header or room for its next frame; the mailbox grows by whole multiples of 0x80 and never past its size |
| WifiMailbox.RxPath.DrainRXBuffer | src/DSi_NWifi.cpp:1554-1571 | Passes on a prefix of whole frames in order, each zero-padded to a multiple of 0x80, splitting and dropping none, until the next does not fit; any other bytes are taken as frames of the lengths they claim, up to the bytes read from an empty mailbox |
| WifiMailbox.RxPath.SendWMIEvent | src/DSi_NWifi.cpp:1340-1371 | Without room nothing happens; otherwise the frame joins the queue behind the waiting ones and the drain follows |
| WifiMailbox.RxPath.CheckRX | src/DSi_NWifi.cpp:1440-1506 | A packet that is for us and not from us goes in behind the waiting bytes, as far as they fit, and the drain follows; with whole frames waiting and 14 to 2032 bytes it joins the queue as one frame; otherwise nothing happens |
| WifiMailbox.RxPath.ReadBox | src/DSi_NWifi.cpp:381-388 | Reading the mailbox returns and removes its first byte and lets further frames in at the end of the window |
| WifiMailbox.RxPath.LongFramesBlock | src/DSi_NWifi.cpp:1562-1563 | A frame whose padded length exceeds the 0x600 bytes of the mailbox is never passed on and holds up all frames behind it |
| CodeFile.DataLineReads | src/ARCodeFile.cpp:127-150 | A printed data line is never taken for a CAT or CODE line and gives its two words back |
| CodeFile.CatLine | src/ARCodeFile.cpp:77-98 | A printed CAT line closes what came before and opens the category of that name |
| CodeFile.CodeLine | src/ARCodeFile.cpp:99-126 | A printed CODE line opens the code with that name and state |
| CodeFile.CodeLineOn | src/ARCodeFile.cpp:99-126 | The state of a code is any decimal number behind CODE: on unless all its digits are zero |
| CodeFile.MixedCaseFails | src/ARCodeFile.cpp:77-98 | CAT is recognised in either case but scanned in upper case only: every other spelling of the keyword is a syntax error, whatever follows |
| CodeFile.LeadingBlanks | src/ARCodeFile.cpp:69-75 | Any number of blanks and tabs in front of a line makes no difference |
| CodeFile.LoadUndoesSave | src/ARCodeFile.cpp:49-186 | Loading what was saved gives the same categories if and only if every name has 1 to 127 characters without CR, LF and NUL and does not start with white space, for all lists with even-length codes |
| CodeFile.LoadsGood | src/ARCodeFile.cpp:49-156 | Every text that loads gives such names and codes of even length |
| CodeFile.LongNameIsCut | src/ARCodeFile.cpp:79-81 | A longer name that fits on a line comes back from saving and loading as its first 127 characters |
| CodeFile.ARCodeFile.Save | src/ARCodeFile.cpp:158-186 | The nested loops emit the specified text |
| CodeFile.ARCodeFile.Load | src/ARCodeFile.cpp:49-156 | The line loop accepts exactly the texts of the parser specification and builds its categories |
| CheatEngine.NextBoundary | src/AREngine.cpp:60-82 | In a well-formed cheat an opcode and its payload end where another opcode begins |
| CheatEngine.WellFormedMeans | src/AREngine.cpp:60-82 | A cheat is well-formed exactly when its opcodes end where it ends; any whole number of word pairs without E opcodes is |
| CheatEngine.StepAdvances | src/AREngine.cpp:60-376 | For every memory content and condition: the next opcode is the one behind or the loop start, the loop start only moves forward, the measure (words behind the loop start, rounds left, words left) decreases, writes are only added |
| CheatEngine.SkippedStep | src/AREngine.cpp:70-82 | A skipped opcode changes nothing, and the run goes on where the opcode would have ended had it been executed |
| CheatEngine.AREngine.SkipPayload | src/AREngine.cpp:73-80 | The skip loop passes over the payload rounded up to pairs of words, as many as the copy loops consume |
| CheatEngine.FalseConditionSkips | src/AREngine.cpp:70-82 | Under a false condition a stretch of any length without ENDIF, NEXT and C5 opcodes has no effect: the run goes on behind it in the same state |
| CheatEngine.OnlyConditionalMeans | src/AREngine.cpp:68-70 | Such a stretch is one that ends where an opcode ends and in which no opcode is C5, D0, D1 or D2 |
| CheatEngine.FalseIfEndsAtFirstEndif | src/AREngine.cpp:70-82 | A false IF leaves out everything up to the first ENDIF behind it and nothing more; that is its own ENDIF by nesting if and only if there is no other IF in between |
| CheatEngine.InnerEndifEndsOuterIf | src/AREngine.cpp:70-82 | An IF inside a false IF is not pushed, so its ENDIF ends the outer one and what follows runs |
| CheatEngine.Run | src/AREngine.cpp:60-376 | A run is a total function: every well-formed cheat terminates for every memory content |
| CheatEngine.HaltsIff | src/AREngine.cpp:66-383 | The interpreter gives up exactly on C1 to C4, C7 to CF and DD to DF under a true condition; a false condition leaves out exactly the opcodes other than C5, D0, D1 and D2 |
| CheatEngine.NestedIfs | src/AREngine.cpp:97-109 | Up to 32 nested conditions are undone by as many ENDIFs |
| CheatEngine.AREngine.CopyPayload | src/AREngine.cpp:327-356 | The copy loops write b / 4 payload words and then b % 4 bytes of the next one to consecutive addresses and consume the payload rounded up to pairs of words |
| CheatEngine.AREngine.If | src/AREngine.cpp:98-208 | The eight IFs of the switch compute the specified test |
| CheatEngine.AREngine.Simple | src/AREngine.cpp:84-325 | The remaining opcodes, from the writes to DC, have the specified effect on registers and memory |
| CheatMemory.WordThenIf | src/AREngine.cpp:86-158 | In RAM the IFs 3 to 6 at an address compare with the word opcode 0 wrote there, and B reads it |
| CheatMemory.HalfThenIf | src/AREngine.cpp:90-208 | The IFs 7 to 10 compare with the unmasked bits of the halfword opcode 1 wrote |
| CheatMemory.ByteAndOffset | src/AREngine.cpp:94-249 | Opcode 2 leaves the low byte of its value at the address plus the offset, C6 the offset at its address |
| CheatMemory.StoreThenLoad | src/AREngine.cpp:296-321 | D9, DA and DB give back what D6, D7 and D8 stored, cut to its size, one step on |
| CheatMemory.CopyIsExact | src/AREngine.cpp:327-356 | Every byte of memory after an E opcode, for every destination and length: whole words from the aligned destination, the bytes left over from the destination itself |
| CheatMemory.CopyIsPlain | src/AREngine.cpp:327-356 | Where the destination is aligned or less than a word is copied, byte i of the payload lands i bytes above it and nothing else changes |
| CheatMemory.MoveIsExact | src/AREngine.cpp:358-376 | Every byte of memory after an F opcode, for every source, destination and length: a forward copy repeats what lies between the source and a destination among the source's bytes |
| CheatMemory.MovesPlainlyIff | src/AREngine.cpp:358-376 | Between word boundaries an F opcode is a plain copy for every memory content if and only if the destination is the source or does not begin among its bytes |
| CheatEngine.AREngine.RunCheat | src/AREngine.cpp:43-384 | The interpreter loop terminates with the writes of the specified run |
| AluFlags.AdcIsExact | src/ARMInterpreter_ALU.cpp:489-506 | C is the carry out of the unsigned sum and V tells that the signed sum does not fit |
| AluFlags.SbcIsExact | src/ARMInterpreter_ALU.cpp:524-541 | C clear is the borrow of the difference and V tells that the signed difference does not fit |
| AluFlags.AddIsAdc | src/ARMInterpreter_ALU.cpp:456-471 | ADDS has the result and all flags of ADCS with carry clear |
| AluFlags.AddChainIsSum | src/ARMInterpreter_ALU.cpp:456-506 | An ADDS/ADCS chain over n words, any n, is the n-word sum with its true carry, signed overflow and sign |
| AluFlags.SubChainIsDifference | src/ARMInterpreter_ALU.cpp:524-541 | A SUBS/SBCS chain is the n-word difference with its true borrow, signed overflow and sign |
| AluFlags.TableIsConditions | src/ARM.cpp:90-108 | Each row of the condition table is its condition for all sixteen flag states |
| AluFlags.CompareConditions | src/ARM.h:83-88 | After CMP the table-driven test is the unsigned or signed comparison its name says |
| AluFlags.SaturationIsExact | src/ARMInterpreter_ALU.cpp:1074-1134 | Saturating addition, subtraction and doubling clamp the exact signed result and saturate exactly when it does not fit |
| AluFlags.SaturatingIsExact | src/ARMInterpreter_ALU.cpp:1074-1160 | QADD, QSUB, QDADD and QDSUB clamp the exact sum of the first operand and the second, doubled and clamped on its own where there is doubling; afterwards Q is set exactly when it was before or one of the two clamped |
| AluFlags.DoubleClampsFirst | src/ARMInterpreter_ALU.cpp:1110-1134 | Clamping the double first matters: QDADD of -1 and 0x40000000 is not the clamped exact sum |
| AluFlags.CountLeadingZeros | src/ARMInterpreter_ALU.cpp:1050-1072 | The shifting loops count the zeros above the highest set bit, 32 for zero |
| Crc32.PolynomialsMirror | src/CRC32.cpp:42-42 | The forward polynomial is the mirror image of the reflected one of section 8 of RFC 1952 |
| Crc32.TableIsEntries | src/CRC32.cpp:44-52 | The table built with the forward polynomial between two reflections is the one of the reflected polynomial |
| Crc32.LookupIsByteStep | src/CRC32.cpp:62-63 | One lookup does what eight bit steps do, for every state and byte |
| Crc32.Reflect | src/CRC32.cpp:25-37 | The loop mirrors the low bits |
| Crc32.GetCRC32Table | src/CRC32.cpp:39-54 | All 256 entries are the bit-at-a-time CRC of their index |
| Crc32.CRC32 | src/CRC32.cpp:56-66 | For every byte string and start value the result is the bit-at-a-time CRC-32 |
| Crc32.CrcAppends | src/CRC32.cpp:56-66 | The checksum of a concatenation goes on from the checksum of its first part |

## Left out

- Machine-code back ends, dispatcher, signal handlers and host memory mapping: foreign; only their copies between register arrays and their page status bytes are modelled.
- Decoding of instruction metadata, and DecodeBranch: the sets of registers and flags an instruction reads and writes are taken as given and described by the `Truthful` predicates.
- RegisterCaching.RegisterCache.RunBlock: blocks are shorter than 1000 instructions, the start value of the eviction rank; each instruction's necessary registers must fit the native ones, as the source assumes.
- PutLiteral and the literal values of the register cache: only the set of loaded literals is followed.
- BlockCaching.BlockCache.CompileBlock: hashes, literals and ranges of a block are given values; the memory map is fixed, so the branch at src/ARMJIT.cpp:565-567 is not reached; registering a block is one atomic step.
- JitBlock and TinyVector are not part of this model; a block is a record with sequences, the tables are maps, so their fixed sizes and sharing are not captured.
- BlockCaching.BlockCache.InvalidateByAddr: the source means to drop only blocks that cover the 16-byte unit; as its inner mask shadows the outer one, the code drops every block that names the 512-byte range, and that is what is stated.
- RemapDTCM, RemapNWRAM, RemapSWRAM: the DTCM and memory map settings are fixed in the page-status model; the host's protection calls are no-ops.
- BlockCaching.BlockCache.LiveCodeIsProtected: a page is protected while code on it is live; the compile step itself is atomic, so no write can come between its parts.
- PageProtection.PageMap.MapAtAddress: mappings of all regions are one list, since only their union matters to the page states.
- MemoryMap.FastMapIsSafeIff: the settings are fixed during a run.
- IdleLoops.SelfContainedIsExact: exact for every instruction finding the same inputs; for the final state alone the condition is sufficient, as inputs that differ may have no influence on it.
- AES, SHA-1 and xxHash themselves: a cipher is an arbitrary function on 16-byte blocks, one per key.
- AesEngine.Aes.WriteCnt: the register is a record of its fields; DMA sizes, the triggers they give to the NDMA channels, OutputFlush and the MAC-from-FIFO option (a stub in the source) are not modelled; byte-wise writes of IV, MAC and keys, ROL16 and key derivation are left out.
- AesEngine.Aes.ReadOutputFIFO: the value read from an empty FIFO is left open; the two FIFOs are fields of the engine holding the queue the ring buffer is proved to be.
- EsCrypto.EsEncrypt: buffer addresses are not cut to 32 bits, which matters only for lengths within 32 bytes of 4 GB.
- Banking.Arm.JumpTo: instruction prefetch, cycle counts and a prefetch abort raised by the jump target are left out; the protection-unit map switched by UpdateMode is left out, so UpdateMode has no separate `phony` form.
- MRS is left out; the user-bank forms of LDM and STM are modelled for their registers only (Banking.Arm.UserRegs, Banking.Arm.LoadUserRegs), without addresses and the base-register cases.
- BlockTransfer.Core.Ldm: memory is flat words without mirrors, I/O or faults; the jump a loaded PC asks for is returned, not carried out.
- NwRam.NwramBank.Write: the address windows, the DSP's own accesses, JIT invalidation and the packing of four MBK bytes into one register are left out; a slot and an offset are given.
- DmaChannels.Dma.Run: unit timings and their burst tables are replaced by an arbitrary number of units a slice may move, at least one; the bus accesses are recorded as pairs of addresses; writes to the channel's own registers during a slice are left out.
- NdmaChannels.Ndma.Run: as for the old channels; the geometry FIFO, AES and other peripherals that give triggers are left out; fill mode is recorded like a copy from a fixed address.
- WifiMailbox.RxPath.CheckRX: what a packet of 1 to 13 or more than 2032 bytes does to the framing (see WifiMailbox.RxIsFrameIff) is followed for this packet, not for the frames sent after it; interrupt status bits are left out.
- CodeFile.ARCodeFile.Load: signs and 0x prefixes that sscanf accepts in hexadecimal fields are not modelled, nor file errors and text-mode line end conversion.
- CheatMemory: memory is RAM as src/NDS.cpp reads and writes it, the low address bits of a halfword or word dropped, without mirrors or I/O.
- CheatEngine.AREngine.RunCheat: memory is whatever answers the reads, which may depend on all earlier writes but not on earlier reads; cheats are shorter than 2^30 words.
- AluFlags: shifter operands, logical instructions and writes to the PC would only add easy members.
- Crc32: a 32-bit word is its sequence of bits.
- SDIO transfers, camera, I2C, DSP, cartridges, savestates, frontend, GPU, audio: I/O and plumbing without a deep property.
