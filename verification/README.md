# BESM-666, modelled and proved in Dafny

BESM-666 is a functional simulator of a 64-bit RISC-V hart. Most of its code is a fast
mechanism standing in for a simple one: decoded blocks in a cache instead of fetching and
decoding each word, sparse host pages instead of flat memory, a remembered host window instead
of a load, run-length recursions instead of bit loops. This project models those mechanisms as
the code has them and proves, for all inputs and all runs, where they agree with the simple form,
and exactly where they do not.

`dafny verify dfyconfig.toml` checks everything. The modules, from the bottom up:

- `Bits`, `BitMagic`: machine words and the bit utilities, for any word width.
- `Isa`, `Decoder`, `DecoderBits`, `Encoding`, `Displacement`: instructions, the decoder and an
  independent encoder, the decoder as the code cuts and joins bits, which words decode to
  instructions, and how far an encoded branch really goes.
- `Csr`, `CsrFile`: control and status registers as values with their laws, and as objects.
- `FlatMemory`: the reference memory, a zero-initialised map from address to byte.
- `PageAllocator`, `Ram`, `PhysMem`, `Builder`, `Prefetcher`: the memory stack as objects, each
  carrying the flat map it must agree with as a ghost field.
- `AssocCache`: the generic set-associative cache, against its history of calls.
- `BlockCache`: the 128-set, 8-way block cache, as a value and as an object.
- `Handlers`: the handler bodies as functions on the architectural state.
- `Effects`, `Arithmetic`, `Branches`, `Transfers`, `CsrInstructions`, `Traps`: what every instruction
  does, said of the state after its handler in terms of bits, bytes, fields and congruences, without the
  functions the handlers are made of.
- `Threaded`, `Refinement`, `Readability`, `Runs`: the threaded machine, the plain
  fetch-decode-execute machine, the simulation between them, when the first crashes, and what holds
  over whole runs. They are stated for any decoder and handler table satisfying `Threaded.Lawful`;
  `Threaded.BesmLawful` and `Threaded.BytewiseLawful` show the simulator's do, fetching whole words
  only or four bytes at any mapped address.
- `Witness`: four programs on which the simulator and the plain machine part, and one on which they
  do not although it patches cached code.
- `Core`, `Hart`: the hart as an object whose handlers update everything in place, fetching through
  the prefetcher and loading and storing through physical memory, proved to step exactly as
  `Threaded.Step` does on the flat memory they show. `Hart.Simulate` puts it all together.

## What does not hold, and exactly when it does

- After an exception the handlers skip the first instruction at the trap target, because
  `raiseException` refetches and `execNextInstr` then advances. PC and instruction pointer agree
  if and only if the target is a jump-class instruction or the handler itself moved the PC one
  word on (`Refinement.TrapInStepIff`, `Runs.TrapSkipsFirstInstruction`). A two-instruction program
  shows it from power-on (`Witness.TrapsBreakRefinement`).
- Stores never invalidate cached blocks. Cached code agrees with memory after a store if and only
  if every cached word still decodes as before (`Refinement.CoherentAfterIff`); what runs at PC + 4
  can be told before the store, from its address, width and value (`Runs.StaleIff`). A program that
  patches its next word shows it (`Witness.StoresBreakRefinement`).
- Together: a step leaves cached blocks equal to memory, and pointer and PC on the same instruction, if
  and only if it satisfies `Refinement.Exact` (`Refinement.StepSyncedIff`). The refinement theorems ask
  less: each dispatched instruction is the one memory holds at the PC (`Refinement.Honest`). Runs of
  exact steps are such runs (`Runs.ExactIsHonest`), but not only they: code patched where it never
  runs, or is rebuilt before it does, is harmless (`Witness.PatchingAheadIsHarmless`).
- Block assembly reads ahead, and faults where the plain machine would not have read: a block can be
  built if and only if its words decode up to a jump or seven of them
  (`Readability.AssembleReadyIff`), and a step crashes if and only if it fetches a block that is
  neither cached nor readable or its handler aborts (`Readability.StepCrashesIff`). An EBREAK in the
  last mapped word shows it (`Witness.ReadingAheadBreaksRefinement`).
- The prefetcher reads whole words from where its window was opened. A hit returns the word at the
  address if and only if the address is a whole number of words into the window, which the code
  asserts (`Prefetcher.HitIff`); `jal x0, 6` shows what happens otherwise
  (`Witness.MisalignedJumpBreaksFetching`), on a prefetcher driven there too
  (`Witness.MisalignedHit`). `Threaded.Besm` takes a fetch off a whole word for an alignment fault, as
  a load there is, and the hart object asks for word-aligned fetches; `Threaded.Bytewise` decodes the
  bytes at any mapped address, which is what the prefetcher serves as long as its window is in phase
  (`Prefetcher.Prefetcher.ServedInPhase`). They differ nowhere else (`Threaded.AnywhereIff`).
- Branches and JAL sign-extend from bit 11 and bit 19, one bit too low: the executed displacement
  is the encoded one if and only if it lies in [-2048, 2046], respectively [-2^19, 2^19 - 2]
  (`Displacement.BranchReach`, `Displacement.JalReach`).
- The decoder takes words that are no encodings for instructions: everything under MISC-MEM, and
  32-bit shifts right by an immediate whatever their funct3 beyond 1. They are the only ones; every
  other word that decodes is the encoding of what it decodes to (`Encoding.DecodesIff`,
  `Encoding.EncodesBack`).
- `mapDevice` accepts overlapping ranges (`Builder.OverlapAccepted`); the ranges stay disjoint if
  and only if the new one overlaps none, or is dropped because its left border is taken
  (`Builder.MapDeviceDisjointIff`). Over a lone device that fails exactly for ranges that overlap it,
  start elsewhere and do not reach past it on both sides (`Builder.LoneDeviceIff`).
- `Chunk::allocPage` tests only where a page starts. The pages cut from a chunk lie inside it if and
  only if the page is no larger than the host's, or the host pages of a chunk and one more make whole
  pages (`PageAllocator.FitsIffDividing`, `PageAllocator.LastPage`); so larger pages in chunks that are a
  whole number of them always overrun (`PageAllocator.WholeChunksOverrun`), 64 KiB pages in 1 MiB
  chunks on 4 KiB host pages for one (`PageAllocator.PageOverruns`).
- A trap followed by MRET gives the PC back if and only if it was a multiple of 4 or what mepc
  already held (`Handlers.RaiseThenMret`).
- A block survives seven misses in its set and no more (`BlockCache.InstalledSurvives`,
  `BlockCache.EighthMissEvicts`).

## Model

| member | source | states |
|---|---|---|
| `Runs.BesmRefinesFromPowerOn` | src/sim/hart.cpp:27-89 | from power-on, after any run whose dispatches are of the instruction memory holds at the PC, registers, PC, CSRs, privilege, memory and retired count equal those of the fetch-decode-execute machine after as many instructions; with fetches at whole words only (a run ends at the first other) or of the four bytes at any mapped address |
| `Runs.BesmFollowsFromPowerOn` | src/sim/hart.cpp:27-89 | the other way, for both kinds of fetch: whatever fetch-decode-execute does after k instructions, going on, stopping or failing, the simulator does within 2k + 2 dispatches in the same state, while it dispatches what memory holds at the PC and the blocks it fetches are cached or readable |
| `Runs.RefinesFromPowerOn` | src/sim/hart.cpp:55-89 | the refinement from power-on for any decoder and handler table obeying `Threaded.Lawful` |
| `Runs.FollowsFromPowerOn` | src/sim/hart.cpp:55-89 | the same for any decoder and handler table obeying `Threaded.Lawful` |
| `Runs.RunRefines` | src/sim/hart.cpp:55-89 | the refinement from any state of the invariant, over runs that dispatch what memory holds at the PC |
| `Runs.ExactIsHonest` | src/sim/hart.cpp:49-89 | from a synchronised state a run of exact steps dispatches only what memory holds at the PC |
| `Runs.ExactStaysSynced` | src/sim/hart.cpp:49-89 | and every state it reaches is synchronised |
| `Runs.ExactFromPowerOn` | src/sim/hart.cpp:27-89 | both, from power-on |
| `Runs.RunEndsTogether` | src/sim/hart.cpp:76-90 | when the threaded machine stops the plain one stops in the same state, and when it crashes the plain one fails or the block fetched was neither cached nor readable |
| `Runs.RunIsShadowed` | src/sim/hart.cpp:55-90 | however n such dispatches leave the threaded machine, going on, stopped or crashed with its blocks readable, the plain one gets to the same state or the same end |
| `Runs.PlainIsReached` | src/sim/hart.cpp:55-89 | every state of the plain machine is reached by the threaded one, within two dispatches an instruction, while dispatches are of what memory holds and blocks are readable |
| `Runs.PlainEndIsReached` | src/sim/hart.cpp:55-90 | and so are its stops and failures: the two machines fail together |
| `Runs.EveryRunIsSafe` | src/exec/basic-block.cpp:8-11 | for arbitrary memory contents, every reachable state has an even PC (never the poison tag 1), legal CSRs, and a pointer between the first slot and the sentinel of a filled block |
| `Runs.RunsMakeProgress` | src/sim/hart.cpp:76-89 | the sentinel is dispatched at most every other step: n steps retire at least (n - 1) / 2 instructions |
| `Runs.StepRetires` | src/sim/hart.cpp:76-89 | a dispatched handler retires one instruction; the sentinel retires none and lands on an instruction |
| `Runs.UnprivilegedRunsKeepCsrs` | src/exec/csrf.cpp:104-117 | below machine mode, along every run up to the first exception, no CSR and no privilege bit changes |
| `Runs.TrapSkipsFirstInstruction` | src/sim/hart.cpp:49-81 | otherwise the second instruction at the target is the next one executed, with the PC still on the first |
| `Runs.StaleIff` | src/exec/basic-block.cpp:19-28 | before a store: the instruction the simulator runs at PC + 4 is the one memory then holds if and only if the patched word decodes as now, which it does whenever the store does not touch it |
| `Witness.TrapsBreakRefinement` | src/sim/hart.cpp:617-636 | from power-on with a no-op and an ECALL in memory, after three instructions the simulator's PC is 0 where fetch-decode-execute has reached 4 |
| `Witness.StoresBreakRefinement` | src/sim/hart.cpp:571-583 | from power-on, a store into the next word leaves the simulator running the cached no-op where fetch-decode-execute ends on the illegal instruction now there |
| `Witness.PatchingAheadIsHarmless` | src/sim/hart.cpp:545-596 | from power-on a store into cached code behind an EBREAK: the step is not exact, yet runs of any length dispatch what memory holds and both machines stop in the same state |
| `Witness.ReadingAheadBreaksRefinement` | src/sim/hart.cpp:55-61 | with an EBREAK in the only mapped word the simulator faults before its first instruction, where fetch-decode-execute runs it and stops |
| `Witness.MisalignedJumpBreaksFetching` | src/memory/prefetcher.cpp:10-13 | after `jal x0, 6` a prefetch window opened at 0 answers with the word at 4, not the one at 6, and the two decode differently |
| `Witness.MisalignedHit` | src/memory/prefetcher.cpp:9-25 | a prefetcher over a one-page RAM holding that program, asked for the word at 0 and then at 6, answers the second time with the word at 4 |
| `Runs.PowerOnSyncs` | src/sim/hart.cpp:27-27 | a freshly reset hart with its first block fetched is synchronised, whatever memory holds |
| `Runs.BootsIff` | src/sim/hart.cpp:27-27 | from power-on the first block is built if and only if the words at PC 0 are readable |
| `Refinement.StepSimulates` | src/sim/hart.cpp:76-89 | one threaded step from an instruction memory holds at the PC is one plain step or a refetch that changes no architectural state, and a stop is the plain machine's stop |
| `Refinement.StepSyncedIff` | src/sim/hart.cpp:49-89 | a step leaves cached blocks equal to memory and pointer and PC together if and only if it leaves cached words decoding as they did and traps to a jump, or to where the handler moved the PC |
| `Refinement.TrapInStepIff` | src/sim/hart.cpp:49-81 | after a trap, pointer and PC agree if and only if the target is a jump or the handler moved the PC to the word after it |
| `Refinement.PoliteIsExact` | src/sim/hart.cpp:49-89 | storing into no cached code and trapping only to jumps is enough for that |
| `Refinement.AssembleFresh` | src/sim/hart.cpp:55-61 | an assembled block is the decoded words from its PC on, up to the first jump or seven of them |
| `Readability.AssembleReadyIff` | src/sim/hart.cpp:55-61 | assembly succeeds if and only if some n from 1 to 7 has its first n words decoding, with n = 7 or the last of them a jump |
| `Readability.StepCrashesIff` | src/sim/hart.cpp:55-90 | a step crashes if and only if it fetches a block that is neither cached nor readable, or its handler aborts |
| `Readability.FailTogether` | src/sim/hart.cpp:76-90 | from an instruction memory holds at the PC with its block readable, the threaded step goes on, stops or crashes exactly when the plain step goes on, stops or fails |
| `Refinement.StoreKeepsCoherent` | src/exec/basic-block.cpp:19-38 | a store beside every cached word keeps all cached blocks equal to what assembly would give now |
| `Refinement.CoherentAfterIff` | src/exec/basic-block.cpp:19-38 | cached blocks agree with a changed memory if and only if every cached word decodes as before |
| `Refinement.CurrentIsFetched` | include/besm-666/instruction.hpp:24-29 | a synchronised pointer below its sentinel is on the instruction the PC names, and a jump is always followed by the sentinel |
| `Threaded.StepKeepsInv` | src/sim/hart.cpp:49-89 | every step, trapping or not, keeps PC parity, CSR legality, cache placing and the pointer inside its block |
| `Threaded.FetchKeepsInv` | src/sim/hart.cpp:63-74 | a fetch at an even PC leaves the pointer on slot 0 of a closed block for exactly that PC |
| `Threaded.AssembleCloses` | src/exec/basic-block.cpp:40-55 | assembly yields one to seven decoded instructions followed by the sentinel, whatever the slots held |
| `Threaded.BesmLawful` | src/sim/hart.cpp:92-844 | the simulator's decoder sees one word and never emits the sentinel, and its handlers keep what `Kept` says and touch no CSR below machine mode unless they trap |
| `Threaded.BytewiseLawful` | src/sim/hart.cpp:92-844 | so is the decoder of the bytes at any mapped address |
| `Threaded.AnywhereIff` | src/memory/prefetcher.cpp:9-25 | the two decoders differ exactly at mapped addresses off a whole word |
| `Handlers.HandlerKeeps` | src/sim/hart.cpp:92-844 | every handler keeps CSR legality and an even PC, moves the PC by 4 unless it jumps, and changes memory only where a store writes |
| `Handlers.HandlerUnprivileged` | src/sim/hart.cpp:739-844 | below machine mode a handler that completes leaves all CSRs and the privilege alone |
| `Handlers.RaiseThenMret` | src/sim/hart.cpp:739-753 | an exception followed by MRET restores privilege, MIE, the S-mode bits and the registers, and the PC if and only if it was a multiple of 4 or what mepc held |
| `Arithmetic.AddLaw` | src/sim/hart.cpp:224-234 | ADD leaves the sum of the operands, less 2^64 if it does not fit, in rd; only rd and the PC change |
| `Arithmetic.SubLaw` | src/sim/hart.cpp:312-322 | SUB leaves the difference, and 2^64 if it is negative |
| `Arithmetic.SubUndoesAdd` | src/sim/hart.cpp:224-322 | a SUB of what an ADD has just added leaves the first operand |
| `Arithmetic.AddUndoesSub` | src/sim/hart.cpp:224-322 | and an ADD of what a SUB has just subtracted |
| `Arithmetic.LogicLaw` | src/sim/hart.cpp:257-289 | XOR, OR and AND, bit by bit |
| `Arithmetic.CompareLaw` | src/sim/hart.cpp:235-256 | SLT and SLTU leave 1 exactly where the first operand is the smaller, by two's-complement or unsigned order, and 0 elsewhere |
| `Arithmetic.ShiftLaw` | src/sim/hart.cpp:290-333 | SLL, SRL and SRA take every bit from where the amount says, SRA the uppermost from bit 63; amounts of 64 and more end the run |
| `Arithmetic.WordLaw` | src/sim/hart.cpp:688-738 | a W form leaves the low 32 bits of what its 64-bit form leaves, with zeros above, and is undefined with it |
| `Arithmetic.ImmediateLaw` | src/sim/hart.cpp:92-201 | an immediate form leaves what its register form leaves on the sign-extended operand, or for 64-bit shifts on five bits of it |
| `Arithmetic.UpperLaw` | src/sim/hart.cpp:202-223 | LUI leaves 20 bits of the immediate, unshifted, and AUIPC the PC with them added |
| `Branches.EqualityBranch` | src/sim/hart.cpp:361-392 | BEQ goes to its displacement if and only if the operands agree in every bit, BNE if and only if not, and to the next word otherwise |
| `Branches.UnsignedBranch` | src/sim/hart.cpp:409-456 | BLTU is taken if and only if the first operand is the smaller number, BGEU if and only if not |
| `Branches.SignedBranch` | src/sim/hart.cpp:393-440 | BLT is taken if and only if the first operand is the smaller with top bits turned, BGE if and only if not |
| `Branches.JalLaw` | src/sim/hart.cpp:334-346 | the next word's address in rd, the PC displaced, nothing else changed |
| `Branches.JalrLaw` | src/sim/hart.cpp:347-360 | the target is what rs1 held before rd was written, displaced and with bit 0 cleared |
| `Transfers.StoreLaw` | src/sim/hart.cpp:545-596 | SB, SH, SW and SD change exactly 1, 2, 4 and 8 bytes, to those of rs2 lowest first, or end the run where no device is or at an offset that is no multiple of that |
| `Transfers.SignedLoad` | src/sim/hart.cpp:458-496 | LB, LH and LW leave the 1, 2 or 4 bytes at the address, sign-extended by the template, or end the run likewise |
| `Transfers.UnsignedLoad` | src/sim/hart.cpp:497-544 | LBU, LHU, LWU and LD leave the 1, 2, 4 or 8 bytes at the address, with zeros above |
| `Transfers.SignedReload` | src/sim/hart.cpp:458-596 | a store and then LB, LH or LW of the same width there leave the low 8, 16 or 32 bits of the stored register, sign-extended |
| `Transfers.UnsignedReload` | src/sim/hart.cpp:497-596 | with LBU, LHU or LWU those bits with zeros above |
| `Transfers.WholeReload` | src/sim/hart.cpp:497-596 | and with LD the stored register |
| `CsrInstructions.AccessLaw` | src/sim/hart.cpp:766-844 | a CSR instruction completes if and only if the privilege is 3 and the address is one of the five, mhartid only for CSRRS with x0; then rd has the old register and no other CSR has changed; otherwise exception 2 is raised and no CSR was written |
| `CsrInstructions.ReadLaw` | src/sim/hart.cpp:778-795 | CSRRS with x0 leaves every CSR as it was |
| `CsrInstructions.FieldLaw` | src/sim/hart.cpp:766-844 | after every other granted instruction each field holds the operand's bits, their union with the old ones, or the old ones without them, unless it refuses that and keeps its own: modes above 1, bases and exception PCs that are no multiple of 4 |
| `CsrInstructions.OutsideLaw` | include/besm-666/exec/csr.hpp:107-158 | and no bit outside the fields of the register moves |
| `Traps.RaiseLaw` | src/sim/hart.cpp:29-50 | an exception sends the PC to 4 * base, and 4 * id past it in vectored mode, stacks privilege and MIE, records the cause and an aligned PC, and changes nothing else |
| `Traps.RaiseRaw` | include/besm-666/exec/csrs.hpp:58-68 | with two mode bits that is mtvec with them cleared, and 4 * id past it in mode 1 |
| `Traps.EcallLaw` | src/sim/hart.cpp:617-636 | ECALL raises 8, 9 or 11 by privilege, and ends the run at privilege 2 |
| `Traps.IllegalLaw` | src/sim/hart.cpp:90-90 | an illegal instruction raises 2 and ends the run |
| `Traps.PauseLaw` | src/sim/hart.cpp:611-615 | PAUSE raises 2 and goes on |
| `Traps.FenceLaw` | src/sim/hart.cpp:599-608 | the fences change nothing but the PC |
| `Traps.EndLaw` | src/sim/hart.cpp:637-765 | EBREAK stops with nothing changed, SRET ends the run |
| `Traps.MretLaw` | src/sim/hart.cpp:739-753 | MRET in machine mode returns to mepc and unstacks privilege and MIE; below it, exception 2 is raised and the PC then moved to the mepc that left |
| `Hart.Simulate` | src/sim/hart.cpp:12-27 | a hart built over physical memory and run from power-on, through block cache, prefetch window, device memo and sparse pages, dispatching what memory holds at the PC, is where fetch-decode-execute over the flat memory is after as many instructions, at least one in two dispatches; it stops in the state where that stops, and dies only where that fails, unless a block it fetched was neither cached nor readable |
| `Hart.BesmIsCoded` | src/sim/hart.cpp:76-90 | the simulator's decoder and handler table are the ones the hart object runs |
| `Hart.Hart.Step` | src/sim/hart.cpp:76-90 | one dispatch on the object, memory and prefetcher included, is one `Threaded.Step` on the state it shows, crashes and stops included |
| `Hart.Hart.Dispatch` | src/sim/hart.cpp:76-83 | n dispatches give the state of the n-step threaded run, or its ending |
| `Hart.Hart.Run` | src/sim/hart.cpp:27-27 | `run` from a constructed hart: it dies if the first block cannot be fetched, and otherwise is the booted threaded machine after n dispatches, or how it ended |
| `Hart.AssembleBB` | src/sim/hart.cpp:55-61 | the loop over prefetched words rebuilds exactly one cache entry in place, to the assembled block, or fails, and leaves memory and its prefetch window sound |
| `Hart.Hart.FetchBB` | src/sim/hart.cpp:63-74 | lookup, rebuild on a miss through the prefetcher, pointer on slot 0; architectural state unchanged |
| `Hart.Hart.RaiseException` | src/sim/hart.cpp:29-50 | CSRs stacked, PC four bytes an exception id past the base in vectored mode and at the base otherwise, and a block fetched there |
| `Hart.Hart.ExecNextInstr` | src/sim/hart.cpp:76-83 | the count and the slot advance by one, nothing else changes |
| `Hart.Hart.ExecLoad` | src/sim/hart.cpp:458-544 | rd gets the value the paged devices hold, extended as the `Transfers` laws say, or the run dies on their fault |
| `Hart.Hart.ExecStore` | src/sim/hart.cpp:545-596 | the flat memory the pages show gets the stored bytes and nothing else changes but the PC |
| `Hart.Hart.StepCsr` | src/sim/hart.cpp:766-844 | a granted CSR instruction delivers the old value and writes what the `CsrInstructions` laws say; a refused one raises |
| `Hart.Hart.StepEcall` | src/sim/hart.cpp:617-636 | the cause follows the privilege; privilege 2 terminates |
| `Hart.Hart.StepMret` | src/sim/hart.cpp:739-753 | outside machine mode the trap is raised and the PC is then still overwritten from mepc |
| `Hart.Hart.StepIllegal` | src/sim/hart.cpp:90-90 | the exception is raised, a block is fetched, and the run stops |
| `Core.Core.constructor` | src/sim/hart.cpp:17-23 | PC 0, reset CSRs and a poisoned cache |
| `Core.Append` | src/exec/basic-block.cpp:45-55 | one slot is written, and the sentinel after it when the block ends: at the seventh instruction, or at a jump, branch, MRET, SRET or ECALL |
| `Core.Core.ExecAlu` | src/sim/hart.cpp:92-333 | register and immediate arithmetic updates rd and PC as the handler function says, whose results are those of the `Arithmetic` laws, or dies on an undefined shift |
| `Core.Core.ExecBranch` | src/sim/hart.cpp:361-456 | PC to the target if taken, to the next word if not; when is what the `Branches` laws say |
| `Core.Core.ExecJal` | src/sim/hart.cpp:334-346 | link register first, then the PC |
| `Core.Core.ExecJalr` | src/sim/hart.cpp:347-360 | target computed before the link register is written, its low bit cleared |
| `Core.Gprf.Write` | include/besm-666/exec/gprf.hpp:62-70 | every register but x0 reads back what was last written to it, x0 reads as zero, and no other changes |
| `BlockCache.CacheInvariant` | src/exec/basic-block.cpp:19-38 | after any sequence of fetches each filled entry is in set (pc / 32) mod 128, no PC is held twice, and each entry is the block last built for its PC |
| `BlockCache.InItsLine` | src/exec/basic-block.cpp:19-38 | after any fetches the entry at index j is unfilled or its PC has (pc / 32) mod 128 = j / 8 |
| `BlockCache.SetOfIsCode` | src/exec/basic-block.cpp:19-23 | the set is the seven bits of the PC that the code masks and shifts out |
| `BlockCache.LookupFinds` | src/exec/basic-block.cpp:19-38 | a lookup hits if and only if the PC is held, and returns its one entry |
| `BlockCache.FetchKeepsPlacing` | src/sim/hart.cpp:63-74 | a fetch changes at most one entry, to the requested block |
| `BlockCache.InstalledSurvives` | src/exec/basic-block.cpp:33-35 | a block just built is found unchanged after any fetches with at most seven misses in its set |
| `BlockCache.EighthMissEvicts` | src/exec/basic-block.cpp:33-35 | unless asked for again it is gone after the eighth |
| `BlockCache.BasicBlockCache.Find` | src/exec/basic-block.cpp:19-38 | the loop over the ways and the victim counter, as the lookup function |
| `AssocCache.Ring` | include/besm-666/util/assotiative-cache.hpp:147-221 | after any sequence of additions and invalidations each way is valid exactly when a live addition (one of its set's last `ways`, not invalidated since) went there, and then holds it; the counter is the number of additions mod `ways` |
| `AssocCache.LiveIsHeld` | include/besm-666/util/assotiative-cache.hpp:147-172 | every live addition is held with its tag and payload in the way its turn gave it |
| `AssocCache.LiveWaysDiffer` | include/besm-666/util/assotiative-cache.hpp:147-172 | two live additions to a set never share a way |
| `AssocCache.FoundIffLive` | include/besm-666/util/assotiative-cache.hpp:174-187 | a set holds a valid entry with a tag if and only if some live addition has that tag, and every such entry is a live addition's |
| `AssocCache.Cache.Add` | include/besm-666/util/assotiative-cache.hpp:150-158 | one entry and one counter change |
| `AssocCache.Cache.Find` | include/besm-666/util/assotiative-cache.hpp:174-187 | the answer is a valid entry with the tag if and only if the set holds one, and otherwise the next way to be replaced |
| `AssocCache.Cache.Invalidate` | include/besm-666/util/assotiative-cache.hpp:201-211 | exactly the valid entries with this tag in its set become invalid |
| `AssocCache.Cache.InvalidateAll` | include/besm-666/util/assotiative-cache.hpp:213-221 | every entry becomes invalid |
| `PageAllocator.Is2PowIff` | include/besm-666/util/math.hpp:7-10 | the test accepts zero and exactly the powers of two |
| `PageAllocator.NearestIsMultiple` | include/besm-666/util/math.hpp:12-17 | the result is a multiple of d in (v, v + d] |
| `PageAllocator.FitsIffDividing` | src/memory/ram.cpp:13-33 | for every accepted page, chunk and host size, pages fit the mapped size if and only if page <= host or (chunk / host + 1) mod (page / host) = 0 |
| `PageAllocator.WholeChunksOverrun` | src/memory/ram.cpp:21-22 | pages larger than the host's never fit chunks that are a whole number of them |
| `PageAllocator.LastPage` | src/memory/ram.cpp:51-81 | cutting pages until a chunk is used up, the last one lies inside it if and only if pages fit |
| `PageAllocator.PageOverruns` | src/memory/ram.cpp:51-59 | with 64 KiB pages, 1 MiB chunks and 4 KiB host pages a page is given out that ends outside its chunk |
| `PageAllocator.Chunk.AllocPage` | src/memory/ram.cpp:51-59 | the next page, zeroed as far as it lies in the chunk, if it starts there, wherever it ends |
| `PageAllocator.RamPageAllocator.AllocPage` | src/memory/ram.cpp:73-81 | a page never given out before, next in the back chunk or first in a new one, zeroed, and inside its chunk when pages fit |
| `PageAllocator.RamPageAllocator.PagesDisjoint` | src/memory/ram.cpp:51-81 | any two pages given out are disjoint, and inside their chunks when pages fit |
| `Ram.Ram.Load` | include/besm-666/memory/ram.hpp:106-113 | an aligned load gives the little-endian bytes last stored there, or zero; an unaligned one fails |
| `Ram.Ram.Store` | include/besm-666/memory/ram.hpp:115-120 | an aligned store changes the flat map by exactly its bytes; an unaligned one changes nothing; no page moves |
| `Ram.Ram.TouchPage` | src/memory/ram.cpp:169-182 | mapping a page changes no byte, and no page is ever unmapped or moved |
| `Ram.Ram.GetHostAddress` | src/memory/ram.cpp:129-139 | the pointer to the byte in its page and what is left of the page, or none |
| `Ram.Ram.HostIsFlat` | src/memory/ram.cpp:129-139 | n bytes read through a host pointer inside a page are the flat map's |
| `Ram.AlignedInPage` | include/besm-666/memory/ram.hpp:99-104 | an aligned access stays inside its page when its width divides the page size |
| `Ram.AlignedInPageIff` | include/besm-666/memory/ram.hpp:99-104 | and every aligned access does so only then |
| `Ram.PageOf` | src/memory/ram.cpp:190-195 | quotient and remainder are the page and the offset |
| `FlatMemory.LoadAfterStore` | include/besm-666/memory/ram.hpp:106-120 | a load gives back the value stored, truncated to its width |
| `FlatMemory.LoadBeside` | include/besm-666/memory/ram.hpp:106-120 | a store does not change what lies beside it |
| `FlatMemory.StoreIsEach` | src/memory/phys-mem.cpp:47-61 | a wide store is its bytes stored in order, lowest first |
| `PhysMem.PhysMem.FindDevice` | src/memory/phys-mem.cpp:72-88 | with disjoint ranges the memo is invisible: the same device, or the same failure, as a scan without it |
| `PhysMem.OnlyOne` | include/besm-666/util/range.hpp:31-34 | of disjoint ranges only one holds an address, so the first found is that one |
| `PhysMem.PhysMem.Load` | src/memory/phys-mem.cpp:13-28 | routing to the device and its paged load is the flat load, faults included |
| `PhysMem.PhysMem.Store` | src/memory/phys-mem.cpp:30-45 | routing to the device and its paged store is the flat store, faults included; no page moves |
| `PhysMem.PhysMem.StoreContArea` | src/memory/phys-mem.cpp:47-61 | terminates; the bytes before the first unmapped address are stored in order, across pages and devices, and it fails exactly when there is such an address |
| `PhysMem.PhysMem.GetHostAddress` | src/memory/phys-mem.cpp:63-66 | the device's window for the address, or the missing device |
| `Builder.MapDeviceDisjointIff` | src/memory/phys-mem.cpp:114-125 | an accepted device leaves ranges disjoint if and only if it overlaps none or is dropped for its left border |
| `Builder.OverlapAccepted` | include/besm-666/util/range.hpp:36-40 | every range starting strictly inside a lone device is accepted and overlaps it |
| `Builder.LoneDeviceIff` | src/memory/phys-mem.cpp:114-125 | over a lone device, an accepted range leaves an overlap if and only if it overlaps the device, starts elsewhere and does not reach past it on both sides |
| `Builder.InsertAscends` | src/memory/phys-mem.cpp:124-124 | devices stay in order of their left borders, and none is lost |
| `Prefetcher.Prefetcher.LoadWord` | src/memory/prefetcher.cpp:9-25 | for every address, hit or miss, what is returned is the word its window or page shows, a fault, or a read past the page, and the window is left as the code leaves it; at whole words in a window opened at one it is the memory's own load, faults included; after a miss in a mapped page the rest of that page hits |
| `Prefetcher.HitIff` | src/memory/prefetcher.cpp:10-13 | a hit returns the word at the address, whatever memory holds, if and only if the address is a whole number of words into the window |
| `Prefetcher.HitReads` | src/memory/prefetcher.cpp:13-13 | a hit reads the word that begins (a - start) mod 4 bytes before the address |
| `Prefetcher.Prefetcher.ServedIsLoad` | src/memory/prefetcher.cpp:9-25 | at whole words the served word is the flat load, in any state of the window and the pages |
| `Prefetcher.Prefetcher.ServedInPhase` | src/memory/prefetcher.cpp:9-25 | off whole words too the word at the address is served, on a hit a whole number of words into the window or a miss in a mapped page, with four bytes left there |
| `Prefetcher.Prefetcher.Interleave` | src/memory/prefetcher.cpp:9-25 | over any interleaving of prefetches, loads and stores memory ends as the flat memory does, every load and store is answered as there, and every prefetch up to the first off a whole word |
| `BitMagic.MaskedIsBitwise` | include/besm-666/util/bit-magic.hpp:75-159 | for every mask and width the run-length extract and insert equal their one-bit-at-a-time definitions |
| `BitMagic.ExtractOfInsert` | include/besm-666/util/bit-magic.hpp:107-159 | extracting what was inserted gives the value mod 2^popcount(mask) |
| `BitMagic.InsertOfExtract` | include/besm-666/util/bit-magic.hpp:107-159 | inserting what was extracted changes nothing |
| `BitMagic.InsertBits` | include/besm-666/util/bit-magic.hpp:150-159 | each result bit is the ranked value bit under the mask and the old bit outside it |
| `BitMagic.ExtractBitsOfMask` | include/besm-666/util/bit-magic.hpp:107-115 | each masked bit lands at its rank |
| `BitMagic.DisjointFields` | include/besm-666/util/bit-magic.hpp:107-159 | inserting under one mask does not show under a disjoint one |
| `BitMagic.SignExtendIsTwosComplement` | include/besm-666/util/bit-magic.hpp:9-21 | sign extension is two's-complement extension for every width |
| `BitMagic.ExtractBitsIsField` | include/besm-666/util/bit-magic.hpp:26-32 | the field is (v / 2^from) mod 2^bits |
| `BitMagic.ChangeBitsIsSplice` | include/besm-666/util/bit-magic.hpp:46-52 | the field is replaced between untouched low and high parts |
| `Csr.WriteSucceeds` | include/besm-666/exec/csr.hpp:107-138 | a register write succeeds if and only if every WLRL field accepts its part |
| `Csr.WriteIsFieldwise` | include/besm-666/exec/csr.hpp:81-138 | each field takes its own bits, and a WARL field that refuses them keeps its old contents |
| `Csr.WriteKeepsOutside` | include/besm-666/exec/csr.hpp:107-138 | bits under a mask disjoint from all fields are untouched |
| `Csr.CsrAccess` | src/exec/csrf.cpp:14-97 | write, setBits and clearBits succeed exactly when privilege, writability and existence allow, return the old value, change one register, keep the state legal, and change nothing when refused |
| `Csr.CsrOperationsAreFieldwise` | src/exec/csrf.cpp:14-97 | a granted write, setBits or clearBits leaves in each field its own bits of the operand, their union or their difference with what it held, unless a WARL field refuses that and keeps its own |
| `Csr.CsrWriteIsFieldwise` | include/besm-666/exec/csr.hpp:140-158 | writing any value to a register acts on it field by field with WARL fallback |
| `Csr.OnlyMachineMode` | src/exec/csrf.cpp:104-117 | outside machine mode all four operations are refused and change nothing |
| `Csr.ResetIsLegal` | include/besm-666/exec/csr.hpp:101-105 | the reset state is legal |
| `Csr.TrapEntry` | src/sim/hart.cpp:29-50 | trap entry stacks MIE and the privilege, clears MIE, records cause and an aligned PC, and keeps the other fields and legality |
| `Csr.TrapReturn` | src/sim/hart.cpp:739-753 | MRET restores privilege and MIE, sets MPIE, and resets MPP to user |
| `Csr.TrapThenReturn` | src/sim/hart.cpp:29-50 | the CSR side of trap then MRET: privilege and MIE come back, mepc holds the PC if it was 4-aligned and its old value otherwise, MPIE = 1, MPP = user, and SIE, SPIE and SPP never move |
| `Csr.TrapTargetAligned` | src/sim/hart.cpp:39-47 | trap targets are multiples of 4, direct or vectored |
| `Csr.At` | include/besm-666/exec/csrs.hpp:11-30 | any increasing placement of the status bits, the standard's included, gives disjoint 64-bit fields of the right widths |
| `CsrFile.Register.Get` | include/besm-666/exec/csr.hpp:71-79 | the run-length extract of the raw word reads the field bit by bit |
| `CsrFile.Register.Set` | include/besm-666/exec/csr.hpp:81-99 | the run-length insert into the raw word under the four field kinds |
| `CsrFile.Register.Write` | include/besm-666/exec/csr.hpp:107-158 | the unrolled fields in turn up to the first refusal |
| `CsrFile.CsrFile.constructor` | src/exec/csrf.cpp:10-12 | five registers zeroed, in machine mode |
| `CsrFile.CsrFile.Write` | src/exec/csrf.cpp:14-35 | the object's state and answer are those of the access function |
| `CsrFile.CsrFile.Read` | src/exec/csrf.cpp:37-51 | likewise, changing nothing |
| `CsrFile.CsrFile.SetBits` | src/exec/csrf.cpp:53-74 | likewise for setting bits |
| `CsrFile.CsrFile.ClearBits` | src/exec/csrf.cpp:76-97 | likewise for clearing bits |
| `CsrFile.CsrFile.EnterTrap` | src/sim/hart.cpp:29-48 | the sequence of field updates is the trap-entry function, and the target is four bytes an exception id past the base in vectored mode and the base otherwise |
| `CsrFile.CsrFile.LeaveTrap` | src/sim/hart.cpp:743-748 | the sequence of field updates is the trap-return function |
| `Decoder.RoundTrip` | src/decoder/decoder.cpp:17-228 | decoding the standard's encoding of any instruction with legal fields gives back every field, for the R, I, S, B, U and J formats |
| `DecoderBits.DecodeIsCode` | src/decoder/decoder.cpp:17-228 | cutting and joining bits with `ExtractBits`, shifts and bitwise or in a type of any width from 32 bits on, as the code does, decodes every word as `Decoder.Decode` |
| `DecoderBits.RoundTripAsCoded` | src/decoder/decoder.cpp:17-228 | and so inverts the standard's encoding |
| `DecoderBits.ImmBIsCode` | src/decoder/decoder.cpp:203-214 | the four B-format fields joined by bitwise or are the sum of their places |
| `DecoderBits.ImmJIsCode` | src/decoder/decoder.cpp:215-228 | the four J-format fields joined by bitwise or are the sum of their places |
| `Decoder.EveryWordDecodes` | src/decoder/decoder.cpp:17-228 | every 32-bit word decodes to registers below 32, even branch and jump immediates, and never to the sentinel |
| `Encoding.DecodesIff` | src/decoder/decoder.cpp:17-228 | a word decodes to an instruction if and only if it is an encoding, or under MISC-MEM, or a 32-bit shift right with a funct3 the code does not look at; and the latter are no encodings |
| `Encoding.EncodesBack` | src/decoder/decoder.cpp:17-228 | every other word that decodes is the encoding of what it decodes to |
| `Encoding.LaxDecodes` | src/decoder/decoder.cpp:148-173 | those words are PAUSE or FENCE by funct3, and SRLIW or SRAIW by funct7, alone |
| `Displacement.BranchReach` | src/sim/hart.cpp:361-376 | an encoded, taken branch lands at PC + offset if and only if the offset is in [-2048, 2046] |
| `Displacement.JalReach` | src/sim/hart.cpp:334-346 | an encoded JAL links PC + 4 and lands at PC + offset if and only if the offset is in [-2^19, 2^19 - 2] |
| `Displacement.SextIsCode` | include/besm-666/util/bit-magic.hpp:9-21 | the handlers' two sign extensions are the template at 12 and 20 bits |

## Left out

- Command line, configuration, logging, hooks and disassembly, ELF parsing and loading, state
  dumpers, move constructors and destructors: nothing to prove beside them.
- The generated header with the mstatus masks is not part of this model: `Csr.L` is any layout of
  disjoint fields with a one-bit MIE and MPIE and a two-bit MPP, the positions of section 3.1.6 of
  the RISC-V Privileged ISA among them; the masks of mtvec, mcause and mhartid are general likewise.
- Conformance to the RISC-V ISA where the code departs from it: LUI and AUIPC, the W-suffixed
  operations, 5-bit shift immediates, SRLI (which decodes as SRAI), FENCE and PAUSE decoding. They
  are modelled as coded; register shifts by 64 or more, undefined in C++, end the run.
- `mmap` failing: the host is assumed to return a fresh, zeroed region.
- Ram.Ram.constructor: the sizes whose pages overrun their chunk are kept out by
  `PageAllocator.Fits`, since what such a page overwrites is outside any model of the program;
  `PageAllocator.FitsIffDividing` says which they are. The sizes the code throws on are those outside
  `PageAllocator.Accepted`.
- Addresses do not wrap at 64 bits in the memory stack: device ranges end below 2^64, and so do the
  areas copied into them.
- The upper bound of a RAM is not checked, as in the code, where `validateAddressBounds` is never
  called.
- Hart.Simulate: fetches are at whole words, which the prefetcher asserts of hits, and device ranges
  begin on one. Off whole words what is decoded depends on the prefetch window and on which pages are
  mapped, so no decoder of the flat memory alone describes it; what the prefetcher answers there is
  `Prefetcher.HitReads` and `Prefetcher.Prefetcher.ServedInPhase`.
- Hart.Hart.Step: a refetch from the sentinel is at a whole word, for the same reason.
- Hart.Hart.Dispatch: so is every refetch of the run.
- Hart.Hart.Run: so is every refetch of the run.
- Hart.Hart.FetchBB: the PC is at a whole word, for the same reason.
- Hart.AssembleBB: the block starts at a whole word, for the same reason.
- Ram.Ram.Load: page sizes are multiples of the access width, as any of 8 bytes or more is; with
  smaller ones aligned accesses leave their page, exactly as `Ram.AlignedInPageIff` says.
- Ram.Ram.Store: likewise.
- Prefetcher.Prefetcher.LoadWord: the bytes after a host page are not modelled; a word that reaches
  past its page is reported as an overrun. Assertions are taken as compiled out.
- PhysMem.PhysMem.StoreContArea: the branch for a null host pointer is not modelled, since no device
  of the repository returns one when touched.
- Core.Core.constructor: registers other than the PC and block slots other than the first start
  uninitialised in C++; nothing proved depends on what they hold.
- Host memory is little-endian; a host pointer is a chunk and an offset in it.
- AssocCache.Ring: `incCounter` and `setTag` are not calls of the history.
- Several harts, interrupts, timers and UART: the repository declares but does not implement them.
