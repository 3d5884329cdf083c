# Little-64, modelled and proved in Dafny

Little-64 is a 64-bit instruction set with two executable definitions, a C++ emulator and a family of
Amaranth cores, and with its own MMU, linker, boot-image builder and trace format. This project models
the parts where two pieces of the repository must agree, or where one piece must be read back by
another, and proves that they do.

`dafny verify dfyconfig.toml` verifies all of it.

## What is modelled

**Core against emulator.** `Emulator` is the instruction semantics of `Little64CPU::cycle`: loads and
stores, jumps, LDI, the ALU with its carry, zero and sign flags, LLR and SCR, over a byte memory that
reads 0xFF where nothing is mapped. `EmulatorCpu` is the CPU as an object whose dispatch methods update
registers, flags, reservation and memory in the source's order and compute exactly that semantics.
`BasicCore` is the basic core's multi-cycle state machine with arbitrary bus wait states;
`CoreRegisters` is the same machine as clocked registers assigned state by state. `CoreRefinement`
flushes the memory operation in flight and shows that every clock either leaves the architectural state
alone or performs exactly one emulator cycle, so every run of the core commits the emulator's states in
order, and commits again within eleven unstalled clocks; and it says of every modelled instruction, in
terms of its operands, exactly when the two agree on it. `InstructionMeaning` says what each
instruction does in bytes, bits and numbers, without the definitions that all of these share:
which bytes every load and store moves, what every branch tests, what the ALU computes.
`LoadLinked` turns the reservation register
into a statement about history: a store-conditional succeeds exactly when the last load-linked was to
its address and no store since has reached the reserved bytes, but for the stores the interval test
misses, which are named and exist at exactly the addresses proved.

**Virtual memory.** `Paging` is the emulator's three-level translation, and `PagingMeaning` the same
written out entry by entry and page by page, superpages included; `SoftTlb` the 64-entry fast path
in front of it, coherent through permission accumulation, handler entry without a flush, and
superpages whose sums wrap; `BasicWalker` the core's walk, compared with the emulator's on every input;
`BasicTlb` the core's generation-tagged TLB, which behaves as a plain TLB emptied by each flush and never
delivers anything but a fresh translation; `PageTables` the page-table builder and its bump-down
allocator over flat memory, refining a finite map from pages to mappings.

**Buses and clocked units.** `Beats` is the lane logic that carries an unaligned access as one or two
aligned beats. `Lsu`, `DataBridge`, `Frontend` and `LineCache` are the v2 load/store unit, the LiteX data
bridge, the fetch frontend and the line cache as clocked objects; `DataPath` composes the first two over
a byte-select slave of any latency (Wishbone B4, section 3.2, classic single cycles), and `Overlap` finds
exactly which requests the watchdog can make go wrong, and `DataPathProgress` exactly which slave
latencies it allows and that a prompt slave never sees a request fail. `MemoryBus` is the
emulator's bus: a cached region lookup and wide accesses that fall back to halves at region boundaries.

**Privileged state.** `Control` holds the fields of cpu_control and both expressions for its value on
handler entry, `Interrupts` the choice of vector, delivery, nesting and return, and the core's acceptance
of an IRQ, and `SpecialRegisters` the core's register file with its write priorities, its mask, the TLB
flush, and its IRQ latch as the core drives it.

**Printers and layouts.** `Linker` is the built-in linker's layout, symbol and emission passes, up to what
the CPU does when it executes a patched instruction; `LinkerMeaning` reads the linked image back: what
stands at a symbol's address is the byte the symbol names in its object. `LongNames`, `FatVolume` and `FatBuilder` build a FAT32
boot partition and read it back (Microsoft FAT Specification, sections 3, 4, 6 and 7), and `FatMeaning`
says byte by byte where everything stands. `TraceFile` and
`TraceWriter` write the trace format and decode it the way `little64 trace` does.

`Words`, `Bits`, `Instructions` and `Buffers` hold machine words with explicit wrap-around, their single
bits, instruction fields, and byte buffers.

## What turned out not to hold

- The basic core and the emulator part on some uses of R15, which GP instructions, PC-relative stores and
  stacks read as the instruction's own address in the core and as the next one in the emulator, and on
  stores near the top of the address space, where the two overlap tests differ. `AgreesExactlyWhen` is an
  if-and-only-if over all modelled instructions and states. A GP instruction agrees exactly when the
  ALU gives the same flags and result for both readings or, writing R15, gives the next PC; an LDI to
  R15 when its bits are already in the next PC; a store or SCR of R15 when no mapped byte tells the two
  values apart; an SCR through R15 when neither reading is reserved; a store that wraps, or meets a
  reservation that wraps, when the intervals do not overlap; PUSH, POP and LLR through R15 in the forms
  listed there never.
- The two page walkers report different faults in exactly two classes of input (`TranslationsAgree`):
  a valid level-0 entry with no permission and no reserved bit, and a misaligned root together with a
  non-canonical address. They always succeed together and with the same physical address.
- With its watchdog on, the load/store unit can abandon a request whose transfer the bridge is still
  performing; the bridge's late answer is then taken, without an error, for the first beat of the next
  request, which never reaches memory (`StaleLoadIsReachable`, out of reset). Of the requests taken
  behind an abandoned transfer exactly those are safe that the limit dooms to an error (any with a limit
  of one, two-beat ones with a limit of two) and those that repeat the abandoned transfer: for every
  other there are a memory and a slave timing that make the answer wrong (`OverlapIsSafeExactlyWhen`).
  All runs without such a request are right (`RunIsRight`), and with the watchdog off nothing is ever
  abandoned (`NoWatchdogNoAbandon`).
- A `map4K` that fails for want of pages changes no translation, but it changes the level reported by some
  fault exactly when all addresses are aligned, two tables were missing and there was room for one
  (`Builder.Map4K`, `FailureShowsExactlyWhen`).
- The linker's comment says an unknown relocation kind is skipped; the code fails the link.
- A long name of more than 818 units is written with sequence numbers from which no reader can rebuild it
  (`NameRoundTrip`); the FAT limit is 255.
- A live trace file shows every tag by name only while the tag table needs at most 4096 bytes; a
  closed file always does (`ShownByName`).
- A reservation whose bytes wrap misses stores to the bytes it wraps round to, and one in the first seven
  bytes misses stores that wrap round to it. The test is right for all stores that do not wrap exactly
  when the reserved bytes do not wrap, and for all stores exactly when, besides, the reservation starts
  at 7 or above (`TestIsRightExactlyWhen`, `NeverOutlivesExactlyWhen`).
- The core's latch misses an IRQ line that is up only in a clock in which an SSR executes, unless the SSR
  faults on another register than the pending bank, or itself writes the line's bit
  (`LineIsLatchedExactlyWhen`).
- Handlers nest at most 72 deep, fewer than the 127 vectors suggest.

## Model

| member | source | states |
|---|---|---|
| CoreRefinement.AluAgrees | hdl/little64_cores/basic/core.py:277-392 | for every ALU and shift opcode and all operands the core's result, carry, zero and sign equal the emulator's, shift amounts beyond 63 included |
| CoreRefinement.MemPhaseStep | hdl/little64_cores/basic/core.py:1202-1345 | in a memory state each clock keeps the architectural state the operation will end in, across split beats, chained stores and any wait states, or retires in exactly that state |
| CoreRefinement.AgreesExactlyWhen | hdl/little64_cores/basic/core.py:702-1166 | for every modelled instruction in every state the core's result, retired or in flight, is the emulator's next state if and only if a condition on the operands holds |
| CoreRefinement.ExecuteAgrees | hdl/little64_cores/basic/core.py:702-1166 | on agreeable operands EXECUTE retires in the emulator's next state or starts an operation that ends in it |
| CoreRefinement.ClockRefines | hdl/little64_cores/basic/core.py:624-1345 | one clock of the core either stutters or commits exactly one emulator cycle |
| CoreRefinement.RunRefines | hdl/little64_cores/basic/core.py:646-1345 | over any run with any bus latencies the states at the core's commits are the emulator's states after 1, 2, 3, ... cycles: registers, flags, memory and reservation |
| CoreRefinement.RunProgress | hdl/little64_cores/basic/core.py:646-1345 | a run that commits nothing has at most eleven clocks in which the bus did not stall the core |
| CoreRefinement.ResetStarts | hdl/little64_cores/basic/core.py:625-636 | out of reset the core stands for the emulator at the reset vector with the boot registers set |
| CoreRefinement.LoadImmediateToPc | hdl/little64_cores/basic/core.py:703-726 | LDI to R15 agrees with the emulator exactly when the immediate is the next PC or, for the shifted forms, every bit of it, sign extension included, is set in the next PC |
| CoreRefinement.AddOfPc | hdl/little64_cores/basic/core.py:272-275 | adding R15 gives two more in the emulator than in the core |
| CoreRefinement.PushThroughPc | host/emulator/cpu.cpp:528-536 | PUSH through R15 moves the emulator's PC down by eight where the core goes on to the next instruction |
| CoreRefinement.StoreOfPc | host/emulator/cpu.cpp:610-612 | a PC-relative store of R15 stores the advanced PC in the emulator and the instruction's address in the core |
| CoreRegisters.Registers.Clock | hdl/little64_cores/basic/core.py:578-1345 | the assignments of one clock edge, made state by state on the registers with the last assignment winning, give the next state that the refinement is about |
| EmulatorCpu.Cpu.RunCycle | host/emulator/cpu.cpp:301-365 | one cycle on the CPU object is one step of the instruction semantics; a self-jump stops the CPU before R0 is cleared again, and a stopped CPU does nothing |
| EmulatorCpu.Cpu.RunCycles | host/emulator/cpu.cpp:301-383 | n cycles are n steps, up to the first self-jump |
| EmulatorCpu.Cpu.WriteMemory | host/emulator/cpu.cpp:1064-1081 | a store of any width changes the addressed bytes and drops the reservation when the intervals meet |
| InstructionMeaning.Loads | host/emulator/cpu.cpp:522-564 | the half-word of each load in register form puts one, two, four or eight bytes from Rs1 plus twice the offset, least significant first and zero-extended, into Rd and changes nothing else |
| InstructionMeaning.LoadsPcRelative | host/emulator/cpu.cpp:607-645 | the same for the PC-relative form, from the next instruction plus twice the signed six-bit distance |
| InstructionMeaning.StoresRegister | host/emulator/cpu.cpp:525-567 | each store writes exactly the low one, two, four or eight bytes of Rd there, every other byte stays, and the reservation goes when the bytes meet |
| InstructionMeaning.StoresPcRelative | host/emulator/cpu.cpp:610-652 | the same for the PC-relative form |
| InstructionMeaning.Pushes | host/emulator/cpu.cpp:528-536 | PUSH lowers the stack register by eight and puts the eight bytes of Rs1 there |
| InstructionMeaning.Pops | host/emulator/cpu.cpp:537-546 | POP takes eight bytes from the stack into Rs1 and raises the stack register by eight |
| InstructionMeaning.PushesFromMemory | host/emulator/cpu.cpp:613-621 | PC-relative PUSH copies eight bytes from the address to the stack |
| InstructionMeaning.PopsToMemory | host/emulator/cpu.cpp:622-631 | PC-relative POP copies eight bytes from the stack to the address |
| InstructionMeaning.Moves | host/emulator/cpu.cpp:547-549 | MOVE in register form writes Rs1 plus twice the offset |
| InstructionMeaning.MovesPcRelative | host/emulator/cpu.cpp:632-634 | MOVE in PC-relative form writes the address itself |
| InstructionMeaning.JumpsToRegister | host/emulator/cpu.cpp:568-575 | a conditional jump in register form writes its target exactly on Z, on C, on S, on neither Z nor S, or on S, by opcode |
| InstructionMeaning.JumpsPcRelative | host/emulator/cpu.cpp:653-664 | in PC-relative form it moves the PC by twice the signed ten-bit distance on the same conditions |
| InstructionMeaning.JumpsFar | host/emulator/cpu.cpp:691-693 | the long jump moves the PC by twice the signed thirteen-bit distance |
| InstructionMeaning.LoadsImmediate | host/emulator/cpu.cpp:678-681 | LDI without a shift replaces the register by the byte |
| InstructionMeaning.MergesImmediate | host/emulator/cpu.cpp:682-688 | with a shift it sets the bits of the byte at its place, and the upper half when a byte at place three is negative, and keeps every other bit |
| InstructionMeaning.ConstantInFour | host/emulator/cpu.cpp:678-689 | four LDIs make any 32-bit constant, sign-extended |
| InstructionMeaning.Calculates | host/emulator/cpu.cpp:700-720 | ADD and SUB give sum and difference mod 2^64 with carry and borrow, TEST the flags alone |
| InstructionMeaning.Combines | host/emulator/cpu.cpp:753-770 | every bit of AND, OR and XOR comes from the two bits of the operands, and the carry is clear |
| InstructionMeaning.BitwiseSums | host/emulator/cpu.cpp:753-770 | AND plus OR is the sum of the operands, and XOR is OR less AND |
| InstructionMeaning.ShiftsLeft | host/emulator/cpu.cpp:771-779 | the left shift is the product by 2^n mod 2^64, zero from 64 on, and its carry says that a one was lost |
| InstructionMeaning.ShiftsRight | host/emulator/cpu.cpp:780-788 | the right shift is the quotient by 2^n and its carry the last bit shifted out |
| InstructionMeaning.ShiftsRightSigned | host/emulator/cpu.cpp:789-804 | the arithmetic right shift is the signed quotient rounded down |
| InstructionMeaning.LinksAndLoads | host/emulator/cpu.cpp:722-732 | LLR loads the eight bytes and reserves their address |
| InstructionMeaning.StoresConditionally | host/emulator/cpu.cpp:734-751 | SCR stores exactly when its address is reserved, tells so in Z alone and leaves no reservation |
| InstructionMeaning.TestThenJump | host/emulator/cpu.cpp:491-503 | TEST and a jump branch exactly on the relation of the two registers: equal, below, or the sign of their difference |
| InstructionMeaning.LessThanIsSignedExactlyWhen | host/emulator/cpu.cpp:491-503 | JUMP.LT after TEST is the signed comparison exactly when the difference does not overflow |
| InstructionMeaning.PushThenPop | host/emulator/cpu.cpp:528-546 | what was pushed comes back and the stack register with it |
| LoadLinked.ReservationIsHistory | host/emulator/cpu.cpp:722-751 | over every run from no reservation, the CPU holds a reservation of an address exactly when the last link was to it and everything since kept it, or it outlived a store that the test misses, and not both, whatever traps, interrupts or special-register writes lie between |
| LoadLinked.ConditionalSucceedsExactlyWhenReserved | host/emulator/cpu.cpp:735-751 | SCR sets Z and stores exactly when the history reserves its address or a reservation outlived a missed store, which cannot be for addresses from 7 to 2^64 - 8; it always leaves no reservation |
| LoadLinked.OverlapIsSharedByte | host/emulator/cpu.cpp:1064-1081 | the accesses share a byte, wrap-around included, exactly when the saturating interval test finds an overlap or the store is one of two classes it misses, never both |
| LoadLinked.TestIsRightExactlyWhen | host/emulator/cpu.cpp:1070-1078 | the addresses at which the test is right for all stores that do not wrap, and for all stores |
| LoadLinked.NeverOutlivesExactlyWhen | host/emulator/cpu.cpp:1070-1080 | no history leaves a reservation standing after a store to its bytes exactly at addresses from 7 to 2^64 - 8 |
| LoadLinked.WrappedStoreIsMissed | host/emulator/cpu.cpp:1073-1078 | a concrete store that wraps overwrites a reserved byte and leaves the reservation valid |
| LoadLinked.WrappedReservationMissesStore | host/emulator/cpu.cpp:1070-1078 | a concrete reservation that wraps stays valid although one of its bytes is overwritten |
| Paging.Translate | host/emulator/address_translator.cpp:30-140 | the loop over levels computes the recursive walk, its table-alignment fault unreachable |
| Paging.WalkFrame | host/emulator/address_translator.cpp:98-139 | a translation depends only on the entries it reads |
| Paging.WalkSamePage | host/emulator/address_translator.cpp:55-75 | every address of a 4 KiB page has the same fault or the same frame, also inside misaligned superpages whose sum wraps mod 2^64 |
| Paging.SupervisorReaches | host/emulator/address_translator.cpp:55-75 | whatever user mode may reach, supervisor mode reaches at the same address |
| PagingMeaning.TranslationByEntries | host/emulator/address_translator.cpp:55-139 | the whole walk by the three entries read, their bits and the address: which entry is read, each fault with cause, kind and level, each superpage offset |
| PagingMeaning.TranslationWithoutEntries | host/emulator/address_translator.cpp:77-96 | what is answered before any entry is read: odd fetches, paging off, a misaligned root, addresses between the halves |
| PagingMeaning.PageIsContiguous | host/emulator/address_translator.cpp:65-75 | in a page of any of the three sizes, all addresses with the indices of its leaf move together with their physical addresses, and its first address goes to the frame in the entry |
| PagingMeaning.CanonicalHalves | host/emulator/address_translator.cpp:17-24 | the canonical addresses are those below 2^38 and from 2^64 - 2^38 on |
| SoftTlb.Mmu.MapAddress | host/emulator/cpu.hpp:480-504 | every access, hit or miss, has the outcome of the full translation with the current root, mode and tables; only the slot of its page can change, and remembers it |
| SoftTlb.Mmu.MapAddressSlowPath | host/emulator/cpu.cpp:937-960 | a miss translates in full and leaves the TLB coherent: the slot of the page gets a new entry or, on the same page, one more permission, and a failure leaves no trace |
| SoftTlb.HitAgrees | host/emulator/cpu.hpp:486-500 | a translation confirmed for the page start holds for every address of the page |
| SoftTlb.Accumulates | host/emulator/cpu.cpp:944-950 | adding the permission of one more successful access keeps the entry right for all its permissions, in both modes |
| SoftTlb.Mmu.EnterHandler | host/emulator/cpu.cpp:1684-1688 | entering a handler drops to supervisor mode without a flush and stays coherent |
| SoftTlb.Mmu.WriteMemory | host/emulator/cpu.cpp:1157-1168 | stores that leave alone the entries walks read keep the TLB coherent |
| BasicWalker.RunComputesWalk | hdl/little64_cores/basic/core.py:1402-1480 | over any latencies the walk in progress keeps its outcome and reads at most three entries |
| BasicWalker.Registers.ClockEdge | hdl/little64_cores/basic/core.py:1402-1480 | the assignments of WALK and WALK_PROCESS, check by check, give the next state whose runs compute the walk |
| BasicWalker.TranslationsAgree | hdl/little64_cores/basic/core.py:1402-1480 | for every memory, root, address, access and mode the core's walk and the emulator's succeed together with the same address, and report the same fault exactly outside two classes |
| BasicWalker.DisagreementInNumbers | hdl/little64_cores/basic/core.py:1402-1480 | the cause and auxiliary word each of the two reports in either class |
| BasicTlb.GenerationTlb.Clock | hdl/little64_cores/basic/tlb.py:83-103 | one clock of the generation-tagged store is one clock of a plain TLB emptied by a flush, through generation wrap-around |
| BasicTlb.GenerationTlb.Find | hdl/little64_cores/basic/tlb.py:69-81 | the lookup port is the plain TLB's lookup |
| BasicTlb.HitIsFresh | hdl/little64_cores/basic/core.py:429-436 | a hit that passes the permission and mode checks is what a fresh walk returns |
| BasicTlb.StepOk | hdl/little64_cores/basic/special_registers.py:223-242 | lookups, walks, control and root writes with their flushes, and stores elsewhere keep every entry equal to what a walk finds |
| BasicTlb.RunIsFresh | hdl/little64_cores/basic/core.py:394-436 | over runs of any length every translation delivered, by hit or by walk, is the fresh one |
| BasicTlb.EmptyIsOk | hdl/little64_cores/basic/tlb.py:52-53 | out of reset, with every valid bit clear, the TLB satisfies the invariant of the runs |
| BasicTlb.HitsExactlyWhenFilled | hdl/little64_cores/basic/tlb.py:69-103 | after any clocks out of reset a page hits with an entry exactly when it was filled with it and since then neither flushed nor replaced |
| BasicTlb.WalkedPageHits | hdl/little64_cores/basic/core.py:1402-1480 | after a walk that ends with an address every address of its page is translated without a walk exactly when a fresh walk would translate it |
| PageTables.WalkIsSpaceWalk | host/emulator/address_translator.cpp:98-139 | reading the tables in memory, the translator computes the translation of the abstract address space, fault details included |
| PageTables.TranslationIsSpaceTranslation | host/emulator/address_translator.cpp:77-139 | the full translation of the tables in memory, alignment and canonical checks included, is the abstract one |
| PageTables.EntriesInNumbers | host/emulator/page_table_builder.cpp:5-28 | every entry in memory, bit by bit, for tables, mappings with their read, write, execute and global bits, and unmapped pages |
| PageTables.MappedExactlyWhenAllowed | host/emulator/address_translator.cpp:55-75 | a canonical address maps to its page's latest frame plus offset exactly when the page is mapped with that permission below 2^56 and the access is a supervisor's; an unmapped page is not present |
| PageTables.Builder.Map4K | host/emulator/page_table_builder.cpp:63-94 | succeeds exactly when all addresses are page-aligned and the allocator has the pages it lacks; success records the one mapping; failure adds exactly one level-1 table or nothing, and some translation, fault details included, changes exactly in the first case; the tables in memory always stand for the resulting map |
| PageTables.Builder.EnsureNextLevel | host/emulator/page_table_builder.cpp:30-50 | finds the next table or hangs a fresh zeroed page there; the tables stay a tree of disjoint pages |
| PageTables.Builder.AllocatePage | host/emulator/cpu.cpp:978-994 | hands out the page below the cursor, zeroed, exactly when it lies in RAM, and touches nothing else |
| PageTables.SameLeafSameTranslation | host/emulator/page_table_builder.cpp:63-94 | address spaces that agree on a page's mapping translate it alike whatever tables they have, so a failed call changes no translation |
| PageTables.EmptyTableDeepensFault | host/emulator/page_table_builder.cpp:42-49 | below an added empty level-1 table the auxiliary word of a fault says level 1 where it said level 2 |
| PageTables.FailureShowsExactlyWhen | host/emulator/page_table_builder.cpp:76-86 | between the memories before and after a failed call every address is translated alike, auxiliary word included, exactly when no table was stranded |
| PageTables.Builder.MapAll | host/emulator/page_table_builder.cpp:54-94 | after any sequence of calls on a new root every address is translated as the mappings of the calls that succeeded say; the sequence stops only at unaligned addresses or when no page is left |
| PageTables.LastCallCounts | host/emulator/page_table_builder.cpp:88-94 | of the calls for one page the last one counts, and a page without a call is not mapped |
| PageTables.CanonicalKey | host/emulator/page_table_builder.cpp:76-78 | canonical addresses with the same three indices lie on the same page, so one mapping is one page |
| Beats.StoreInTwoBeats | hdl/little64_cores/v2/lsu.py:132-138 | two aligned byte-select writes of the shifted lanes are the one unaligned write |
| Beats.LoadInTwoBeats | hdl/little64_cores/v2/lsu.py:140-150 | the selected lanes of two aligned reads, shifted together, are the unaligned bytes |
| Beats.MaskedLoad | hdl/little64_cores/v2/lsu.py:196-202 | masking the result to its width gives the zero-extended little-endian value |
| Lsu.Unit.Clock | hdl/little64_cores/v2/lsu.py:84-203 | registers and outputs change as in the next-state function on which the byte-accuracy and watchdog theorems rest |
| Lsu.WatchdogBound | hdl/little64_cores/v2/lsu.py:84-92 | with a limit T > 0 an accepted request is answered within 2(T+2) cycles of any bus |
| DataBridge.Bridge.Clock | hdl/little64_cores/litex_cpu.py:190-229 | the registers change as in the next-state function on which the bridge and data-path theorems rest |
| DataBridge.ClockServes | hdl/little64_cores/litex_cpu.py:190-229 | alone, the bridge serves any select pattern at any alignment byte-accurately |
| DataBridge.AcceptStarts | hdl/little64_cores/litex_cpu.py:192-199 | a strobe seen while idle starts such an access on the memory of that moment |
| DataPath.ClockIsRight | hdl/little64_cores/v2/lsu.py:152-203 | one clock of unit and bridge together keeps the invariant, and any response is right |
| DataPath.BridgeBeat | hdl/little64_cores/litex_cpu.py:200-216 | the unit's aligned beats never split again in the bridge |
| DataPath.RunIsRight | hdl/little64_cores/v2/lsu.py:94-203 | over every run, with any latency, errors and watchdog limit, each response answers the one pending request; an error-free store changes exactly the addressed bytes, an error-free load returns exactly them; provided each request behind an abandoned transfer is doomed by the limit or repeats that transfer |
| DataPath.NoWatchdogNoAbandon | hdl/little64_cores/v2/lsu.py:84-92 | with the watchdog off no transfer is ever abandoned |
| DataPath.ResetIsQuiet | hdl/little64_cores/litex_cpu.py:190-199 | out of reset unit and bridge satisfy the invariant of the runs |
| DataPath.AbandonedAnswersNext | hdl/little64_cores/v2/lsu.py:161-169 | whenever a request has started behind an abandoned read or write, the slave's late answer counts as its first beat, which never reaches memory: a one-beat request is answered without error |
| Overlap.OverlapBreaks | hdl/little64_cores/v2/lsu.py:152-203 | from any state of any run, a request behind an abandoned transfer, load or store, of one beat or two, that is neither doomed nor a repetition is answered wrongly and without error on a memory and slave timing given explicitly |
| Overlap.OverlapIsSafeExactlyWhen | hdl/little64_cores/v2/lsu.py:84-203 | such a request can never be answered wrongly if and only if the limit dooms it or it repeats the abandoned transfer |
| DataPath.StaleLoadIsReachable | hdl/little64_cores/v2/lsu.py:161-169 | out of reset, with a limit of two, a late slave makes a load of address 8 return the bytes at address 0 without an error |
| DataPathProgress.OneBeatRequest | hdl/little64_cores/v2/lsu.py:80-92 | from idle, a request of one beat is done, with the right bytes and in which clock, exactly when the slave answers without an error and lets fewer than T-2 clocks pass; otherwise it fails, with the slave or after T clocks of the beat |
| DataPathProgress.TwoBeatRequest | hdl/little64_cores/v2/lsu.py:152-203 | the same for a request of two beats, case by case |
| DataPathProgress.PromptSlaveNeverFails | hdl/little64_cores/v2/lsu.py:84-203 | over every run from idle with any limit but one and two, a slave that reports no errors and answers before the watchdog has counted to T-1 sees every request answered rightly and none failed |
| DataPathProgress.ResetIsInHand | hdl/little64_cores/v2/lsu.py:94-97 | out of reset the two units are in such a state |
| Frontend.Unit.Clock | hdl/little64_cores/v2/frontend.py:62-120 | registers with same-cycle invalidate, acknowledge and error change as in the next-state function on which the delivery theorem rests |
| Frontend.RunDeliversCurrent | hdl/little64_cores/v2/frontend.py:72-120 | for every interleaving of PC changes, requests, cancellations, errors, timeouts, line updates and writes, the halfword delivered is the one in memory now |
| Frontend.InFlightBound | hdl/little64_cores/v2/frontend.py:62-70 | with a limit T > 0 a request is in flight for at most T+1 cycles |
| Frontend.CounterStaysOk | hdl/little64_cores/v2/frontend.py:62-70 | the watchdog counter never passes its limit and starts from zero with each request |
| Frontend.MissRequests | hdl/little64_cores/v2/frontend.py:113-118 | a miss with nothing in flight asks for the line of the PC in the next cycle |
| Frontend.DeliveredExactlyWhen | hdl/little64_cores/v2/frontend.py:95-111 | an acknowledged request is delivered in the next cycle, whole and at the address asked for, exactly when the watchdog has left it time, it carries no error and no cycle of it invalidates |
| Frontend.GivenUpExactlyAt | hdl/little64_cores/v2/frontend.py:62-70 | without an answer a request is in flight until the watchdog has counted exactly to its limit |
| Frontend.LineAnswers | hdl/little64_cores/v2/frontend.py:72-82 | a delivered line answers each PC in it with the two bytes there |
| Frontend.LineStays | hdl/little64_cores/v2/frontend.py:89-118 | and stays, following its updates, while the PC is in it and nothing invalidates |
| LineCache.Cache.Clock | hdl/little64_cores/v2/cache.py:60-99 | with several commands in a cycle a flush beats an invalidate beats a store update beats a fill, on every slot as in the function on which coherence rests |
| LineCache.RunHitsAreCurrent | hdl/little64_cores/v2/cache.py:47-99 | under the port contract every hit after any sequence of commands returns memory's current line |
| LineCache.HitsExactlyWhenFilled | hdl/little64_cores/v2/cache.py:47-99 | out of an empty cache an address hits exactly when its line has been filled and since then neither flushed, invalidated nor replaced |
| LineCache.HitData | hdl/little64_cores/v2/cache.py:72-99 | with the data of that fill, byte by byte as store updates left it |
| Interrupts.HighestPriorityIsLeast | host/emulator/cpu.cpp:385-401 | the vector chosen is the least pending unmasked IRQ, and one is chosen exactly when there is any |
| Interrupts.ArbitrateBasicCore | hdl/little64_cores/basic/core.py:571-576 | the loop in which the last assignment wins finds the lowest pending line |
| Interrupts.ArbitrationAgrees | hdl/little64_cores/basic/core.py:571-576 | with all 63 lines the core picks the emulator's vector |
| Interrupts.CoreTakes | hdl/little64_cores/basic/core.py:417-422 | before a fetch the core takes an IRQ exactly when the emulator's delivery neither refuses nor blocks the vector it chooses, and takes that one |
| Interrupts.InterruptUnit.RaiseInterrupt | host/emulator/cpu.cpp:1643-1734 | the setters, updates and roll-backs of delivery, in the source's order, give the new state and result of every case; the handler is entered exactly when the vector may be delivered, interrupts nothing better and the word at the table base plus eight times the vector is readable and not zero, and then the PC is that word |
| Interrupts.InterruptUnit.RaiseFault | host/emulator/cpu.cpp:962-974 | a failed translation is raised with its cause and details in the trap registers, where they stay, through the table word of its cause |
| Interrupts.InterruptUnit.DeliverPending | host/emulator/cpu.cpp:367-374 | the end of a cycle raises the least deliverable vector, if any, through its table word |
| Interrupts.RaiseOutcome | host/emulator/cpu.cpp:1643-1734 | every outcome of raising a vector, in numbers and bits: admission, the table word, PC, saved PC, flags, both control words, pending bits, trap cause, running |
| Interrupts.TableSlotsApart | host/emulator/cpu.cpp:1690-1690 | different vectors read disjoint words of the table |
| Interrupts.DeliveredIsLeast | host/emulator/cpu.cpp:367-374 | only the least deliverable vector is ever entered, and it becomes the current one |
| Interrupts.RaiseKeepsPending | host/emulator/cpu.cpp:423-441 | raising never loses a pending IRQ and never adds one but the IRQ entered |
| Interrupts.EntriesDecrease | host/emulator/cpu.cpp:1661-1671 | between IRETs each handler entered has a strictly smaller vector than the one it interrupts |
| Interrupts.NestingBound | host/emulator/cpu.cpp:1661-1671 | so handlers nest at most 72 deep |
| Interrupts.ExceptionsAreNotPreempted | host/emulator/cpu.cpp:1661-1671 | no IRQ preempts an exception handler |
| Interrupts.EntryThenIretResumes | host/emulator/cpu.cpp:875-887 | entry, an undisturbed handler and IRET resume the interrupted code with its PC, flags and cpu_control |
| SpecialRegisters.File.Clock | hdl/little64_cores/basic/special_registers.py:165-278 | the write strobes of one clock, later assignments winning, give the next registers and the flush output |
| SpecialRegisters.UnchangedBetweenFlushes | hdl/little64_cores/basic/special_registers.py:223-242 | over any run without a flush cpu_control and the page-table root do not change, which is what the TLB relies on |
| SpecialRegisters.ControlStaysWithinMask | hdl/little64_cores/basic/special_registers.py:223-272 | over every run both control registers hold only writable bits |
| SpecialRegisters.MaskKeepsFields | hdl/little64_cores/isa.py:13-25 | the mask loses none of the enable, in-interrupt, vector, paging and user-mode fields |
| SpecialRegisters.WriteReadsBack | hdl/little64_cores/basic/special_registers.py:184-274 | at the file's port, what software writes it reads back, masked in the control registers and joined with the latch input in the pending bank |
| SpecialRegisters.PendingBankReadsBack | hdl/little64_cores/basic/core.py:523-527 | in the core that input is zero whenever an SSR writes the pending bank, so it reads back as written whatever the lines |
| SpecialRegisters.MaskedBits | hdl/little64_cores/isa.py:13-25 | bits 0 to 8, 16 and 17 of a control register can be set and no others |
| SpecialRegisters.CoreWritesReadBack | hdl/little64_cores/basic/special_registers.py:165-242 | what the core writes on entry and return reads back at the selectors of the two control words, the saved PC and flags and the trap registers, and which of it software can override in that clock |
| SpecialRegisters.SelectorsInNumbers | hdl/little64_cores/basic/special_registers.py:184-274 | which selector each register answers to; every other selector reads as zero and ignores writes |
| SpecialRegisters.PendingBitAfter | hdl/little64_cores/basic/core.py:523-527 | every bit of the pending bank after a clock, from the lines, the mode and the SSR executing |
| SpecialRegisters.UserWritesOnlyThreadPointer | hdl/little64_cores/basic/special_registers.py:178-179 | in user mode nothing but the thread pointer can be written |
| SpecialRegisters.LineIsLatchedExactlyWhen | hdl/little64_cores/basic/core.py:523-527 | an IRQ line up and not yet pending is latched exactly in the clocks without an SSR, with one that faults on another register than the pending bank, or with one that writes its bit |
| SpecialRegisters.HandlerEntryAgrees | hdl/little64_cores/basic/core.py:592-602 | on handler entry the core's cpu_control, masked by the file, is the one the emulator's four setters arrive at |
| Control.EntriesAgree | host/emulator/cpu.cpp:1684-1688 | the core's mask expression and the emulator's setters give the same word for every cpu_control and vector |
| MemoryBus.Bus.FindRegion | host/emulator/memory_bus.cpp:35-49 | after any history of additions, removals, clears and lookups the cached lookup is the linear search |
| MemoryBus.Bus.AddRegion | host/emulator/memory_bus.cpp:7-19 | a region is added exactly when it shares no address with another, and no empty region lies strictly inside another |
| MemoryBus.OverlapIsCollision | host/emulator/memory_bus.cpp:8-11 | the comparison of ends is the sharing of an address; regions that touch pass |
| MemoryBus.Bus.CellOfRegion | host/emulator/memory_bus.cpp:35-68 | the byte at an address is the byte of the region that has it, writable unless in ROM, and 0xFF elsewhere |
| MemoryBus.Bus.ReadBytes | host/emulator/memory_bus.cpp:70-152 | a read of any width is the little-endian value of its bytes, through RAM, ROM, unmapped space and the end of the address space |
| MemoryBus.Bus.WriteBytes | host/emulator/memory_bus.cpp:81-164 | a write of any width changes exactly the addressed bytes that are RAM |
| MemoryBus.Bus.FlatRead | host/emulator/memory_region.cpp:22-48 | over RAM alone a bus read is the flat memory's load used by the instruction semantics |
| MemoryBus.FlatWrite | host/emulator/memory_region.cpp:22-48 | and a bus write is its store |
| Linker.ComputeLayouts | host/linker/linker.cpp:516-547 | the pass that advances the next address gives every object the bases of the layout function that emission and symbols use |
| Linker.LayoutsAreDisjoint | host/linker/linker.cpp:516-547 | sections of all objects are disjoint, in order and at even addresses |
| Linker.BuildSymbolTable | host/linker/linker.cpp:549-575 | the table holds exactly the defined names, each at the address of its last definition |
| Linker.ResolvesToDefinition | host/linker/linker.cpp:549-575 | with unique names every symbol resolves to its own definition |
| LinkerMeaning.LayoutIsTight | host/linker/linker.cpp:516-547 | text, rodata, data and bss of each object follow one another with no gap but for evenness |
| LinkerMeaning.SymbolNamesItsByte | host/linker/linker.cpp:549-575 | after a link with unique names the byte at a symbol's address is the byte of its own section it names, in the linked image, unless a relocation patches it |
| LinkerMeaning.BssSymbolNamesZero | host/linker/linker.cpp:558-559 | a .bss symbol is counted from the zeroes behind its own object's data |
| LinkerMeaning.CheckInNumbers | host/linker/linker.cpp:600-689 | each check of a relocation, in order, with kinds, sizes, opcodes and distances in numbers |
| LinkerMeaning.FieldsOfImage | host/linker/linker.cpp:600-689 | after a link with disjoint fields every relocation field of every section says symbol plus addend: its bytes in an absolute field, the distance in half-words in an instruction whose other bits are kept |
| Linker.Image.ApplyReloc | host/linker/linker.cpp:600-689 | patches only its field, gives it its meaning, or reports the first failing check and changes nothing |
| Linker.Link | host/linker/linker.cpp:516-735 | never stops because the passes disagree or a patch falls outside; with disjoint fields succeeds exactly when every relocation is acceptable; on success each section stands at its layout base with its own bytes outside relocation fields, zeroes everywhere else and every field patched |
| Linker.LinkedInstructionReachesSymbol | host/emulator/cpu.hpp:266-305 | executing a patched instruction at its linked address reaches exactly symbol plus addend: jumps land there, moves, loads and stores use it as their address |
| LongNames.BuildEntries | hdl/little64_cores/litex_linux_boot.py:143-181 | the entries hold the padded name in reversed parts with sequence numbers and checksum, or there is none because a sequence number does not fit |
| LongNames.NameRoundTrip | hdl/little64_cores/litex_linux_boot.py:143-181 | every name without NUL of at most 818 units reads back; longer ones never do |
| FatMeaning.LongEntryInBytes | hdl/little64_cores/litex_linux_boot.py:154-181 | the bytes of entry k of a long name: sequence number and last mark, attribute, checksum, and the thirteen units of its part |
| FatMeaning.DecodedExactlyWhen | hdl/little64_cores/litex_linux_boot.py:154-166 | which entries in front of a short one make a long name |
| FatMeaning.PaddedInUnits | hdl/little64_cores/litex_linux_boot.py:143-152 | the units of a name, its NUL and its padding |
| FatMeaning.ChecksumRotates | hdl/little64_cores/litex_linux_boot.py:136-140 | the checksum rotates the sum so far right by one bit and adds the next byte |
| FatVolume.FatSizeSectors | hdl/little64_cores/litex_linux_boot.py:343-351 | the sizing loop ends with its first or second guess, holds an entry for every cluster and fits the partition |
| FatMeaning.FatSizeInNumbers | hdl/little64_cores/litex_linux_boot.py:343-351 | the size found, in closed form |
| FatVolume.RequiredFalls | hdl/little64_cores/litex_linux_boot.py:346-348 | a larger FAT never needs more sectors |
| FatVolume.ChainConsecutive | hdl/little64_cores/litex_linux_boot.py:483-490 | a reader following linked entries gets the file's clusters in order and stops |
| FatMeaning.ChainEndsExactlyWhen | hdl/little64_cores/litex_linux_boot.py:566-568 | the reader goes on to the cluster an entry names exactly when the entry is below 0x0FFFFFF8 |
| FatBuilder.FillFat | hdl/little64_cores/litex_linux_boot.py:483-490 | every file's clusters are linked and ended, everything behind the last file is free |
| FatBuilder.WriteFile | hdl/little64_cores/litex_linux_boot.py:554-569 | following the chain writes the payload contiguously and touches nothing else; the unexpected-end error never occurs |
| FatBuilder.WriteDirectory | hdl/little64_cores/litex_linux_boot.py:541-552 | however the cluster goes on, a reader lists exactly these files with their long names, first clusters and sizes |
| FatBuilder.Build | hdl/little64_cores/litex_linux_boot.py:354-584 | accepts exactly the inputs that fit, and the partition it builds reads back: total and hidden sectors, geometry, backup copies and free counts as the boot and info sectors say them, the listing, and by either FAT every file's clusters and contents |
| FatMeaning.BootSectorInBytes | hdl/little64_cores/litex_linux_boot.py:500-541 | the numbers in the boot sector of a built volume, where they stand, what they say of the image, and that the sectors they name hold the info sector and the copies |
| FatMeaning.ReaderInBytes | hdl/little64_cores/litex_linux_boot.py:503-530 | which bytes the reader takes each number from |
| FatMeaning.EntryInBytes | hdl/little64_cores/litex_linux_boot.py:183-190 | the bytes of a short directory entry |
| FatMeaning.ClustersInNumbers | hdl/little64_cores/litex_linux_boot.py:457-468 | files follow one another from cluster 3 on, each in as few clusters as hold it but at least one |
| FatMeaning.AcceptedInNumbers | hdl/little64_cores/litex_linux_boot.py:376-478 | exactly which inputs are accepted |
| FatMeaning.ClustersFit | hdl/little64_cores/litex_linux_boot.py:343-351 | the number of clusters is what fits behind the reserved sectors and the FATs |
| FatBuilder.ChainsAreDisjoint | hdl/little64_cores/litex_linux_boot.py:457-478 | no cluster belongs to two files or to the root directory, and all lie in the volume |
| TraceWriter.TagTable.ResolveTagId | host/emulator/trace_writer.cpp:101-139 | by cache, by pointer or by name a tag gets its place in the registry, registering it when there is room |
| TraceFile.TagIdsAreFaithful | host/emulator/trace_writer.cpp:101-139 | registered tags have equal numbers exactly when they are equal |
| TraceWriter.Writer.WriteEvent | host/emulator/trace_writer.cpp:143-170 | exactly the events inside the window and below the cap are kept, in order; the event area stays within the cap plus 40 bytes |
| TraceWriter.Writer.Flush | host/emulator/trace_writer.cpp:176-256 | after a flush the decoder shows every event so far, and the header counts events, drops and tags and says where the table is |
| TraceWriter.Writer.Close | host/emulator/trace_writer.cpp:258-301 | after closing it shows every event with its tag's name, whatever the size of the table, and the header holds the final counts |
| TraceWriter.Writer.LiveFileDecodes | host/emulator/trace_writer.cpp:215-256 | between calls the file on disk decodes to the events flushed so far |
| TraceFile.DecodesTo | tools/little64/little64/commands/trace.py:71-99 | the decoder applied to such a file shows exactly its events |
| TraceFile.RecordInBytes | host/emulator/trace_writer.cpp:159-167 | a record is the tag's number and five words, byte by byte |
| TraceFile.TableInBytes | host/emulator/trace_writer.cpp:222-231 | a name in the table is its length, at most 255, and its first so many bytes |
| TraceFile.FileInBytes | host/emulator/trace_writer.hpp:10-16 | record i stands at byte 64 + 41 i, and the table behind the last record |
| TraceFile.ShownByName | host/emulator/trace_writer.cpp:219-232 | a live table names every tag exactly when it needs at most 4096 bytes; a tag beyond the 255th is shown as number 255 |

## Left out

- CoreRefinement.RunRefines: paging, interrupts, special registers, IRET, STOP and traps, odd PCs among them, are not in the lockstep (the core masks cpu_control and the emulator does not), nor are bus errors; of the modelled instructions it leaves out exactly those on which the two disagree; a self-jump is compared as an instruction, while the emulator stops there (EmulatorCpu.Cpu.RunCycle).
- CoreRefinement.MemPhaseStep: bus errors, which lock the core up, are left out.
- CoreRefinement.ExecuteAgrees: the special-register, trap, IRET, STOP and undefined opcodes are left out.
- CoreRefinement.AgreesExactlyWhen: speaks of the same opcodes.
- CoreRefinement.ClockRefines: the translation, interrupt-entry and lock-up states are left out.
- CoreRegisters.Registers.Clock: assigns the registers of the lockstep; paging, interrupt, trap and error registers are left out.
- BasicCore.Step: written as a next-state function because a clock edge assigns all registers at once; CoreRegisters is the form with in-place updates.
- BasicWalker.Registers.ClockEdge: the walk's registers stand without the rest of the core's registers around them: where the core resumes, and lock-up on bus errors and vector loads, are left out.
- EmulatorCpu.Cpu.RunCycle: tracing, boot events, devices and the clock tick are not part of it, nor is interrupt delivery, which Interrupts models on its own state.
- Emulator.Gp: the special-register, trap, IRET, STOP and undefined opcodes are not given a meaning; LoadLinked lets them happen as steps that keep the reservation.
- Interrupts.InterruptUnit.RaiseInterrupt: the handler table is a function from address to handler that may differ from call to call; boot events are left out.
- Interrupts.EntryThenIretResumes: says nothing about handlers that trap themselves or write the saved registers.
- SpecialRegisters.File.Clock: registers that are only stored share one map, and the mask is written as arithmetic on the bit fields it keeps.
- SoftTlb.Mmu.WriteMemory: page-table writes between flushes are excluded, as the source requires of software.
- SoftTlb.Mmu.WriteControl: IRET's restore of cpu_control is this method with the saved value.
- BasicTlb.RunIsFresh: excludes stores to entries that walks read, and instruction fetches at odd addresses, which trap before translation.
- PageTables.Builder.MapAll: the loop stands for a client's calls; the repository has none.
- PageTables.Builder.Map4K: RAM must end at or below 2^56; entry bits are added rather than OR-ed, which is the same for fields that do not overlap.
- DataPath.RunIsRight: requests of other widths than 1, 2, 4 and 8 are excluded.
- Frontend.RunDeliversCurrent: a write must come with invalidate or with the buffered line's new contents, as the port requires; the slave may sample a line at any time during a request.
- LineCache.RunHitsAreCurrent: one command a cycle, and writes only to mapped lines.
- MemoryBus.Bus.ReadBytes: device regions and access notifications are not modelled; regions end below the top of the address space; the four widths share one member.
- Linker.Link: ELF parsing is not part of this model (an object's symbols arrive with their section resolved); relocation offsets and sizes are unbounded, so sums that would wrap 64 bits do not; masks and ORs of instruction fields are written as arithmetic.
- FatBuilder.Build: the files' names must fit one directory sector, as the builder's fixed names do; building payloads (ELF flattening, JSON, checksums), the MBR and the root partition are left out.
- FatBuilder.BuildBootSector: no contract speaks of the jump instruction, OEM name, media byte, track and head counts, drive number, volume number and type string, which it writes.
- TraceWriter.Writer.LiveFileDecodes: between the single writes of one flush the header can point at a table already overwritten.
- TraceWriter.Writer.WriteEvent: the writer must be open, writes are complete, files stay below 2^63 bytes; the crash handler's flush is left out.
- Flags are three bits; the other bits of the flags register never become nonzero in the modelled instructions.
- The v2 core itself, the v3 and v4 cores, device models, hypercalls, ELF program loading, the GDB server, the GUI, LiteX assembly and the ld.lld path of the linker are not part of this model.
