# Verified model of the RISC-V inline hooker

This project models, in Dafny, the parts of riscv64-inline-hook where a mistake would be hardest
to see, and proves what the library promises about them.

* **Relocation.** `Isa` is a small RV64 machine written from the RISC-V Unprivileged ISA manual
  (20191213): sections 1.5, 2.2 to 2.5, 5.2 and 16.4. Control transfer, `lui`, `auipc`, `ld`, `addi`
  and `slli` are concrete; every other instruction is an arbitrary function of its encoding, the
  registers and the memory. `Decoder` says which callbacks the decoder makes; `OpcodeMap` states the
  manual's opcode map without it, and `Acceptance` decides from that which prologues are accepted. `Encoding`,
  `Sequences` and `Assembler` model the assembler down to the bytes and the final patching by
  bitwise or, `Relocator` is the imperative relocator, and `Relocation` specifies the block and proves
  that running it means the same as running the prologue.
* **Installation.** `Trampoline` models the choice and the bytes of the first jump, `Hooking` the
  order of relocating, saving and patching on code memory, `WholeCall` compares a call of the backup
  with a call of the function as it was, and `Li` is the loading of constants.
* **Hook list.** `HookEntries` and `HookChain` model the linked list of handles, the backups, the
  users' variables that follow them and the data the trampoline reads.
* **Lock-free allocation.** `LockFreeStack`, `CounterLimit`, `PoolOnStacks`, `PoolCaching` and `ForeverAllocator`
  are transition systems over single shared accesses, for any finite number of threads and every
  schedule; `MmapPool` is the pool with atomic stacks, which `PoolOnStacks` refines and from which it
  has its promises, and `PointerAndCounter` the packed head word.
* **Memory.** `MemoryHeap` is the bitmap allocator for trampolines and blocks, `Memcpy` the generic
  copy, `Arena` the arena allocator of the assembler. `Words` and `Wrappers` are shared by all.

`dafny verify dfyconfig.toml` checks everything.

## Findings

Where the code and its comments disagree the model follows the code. These properties do not hold
in full; unless it says otherwise, each has its exact condition in the model.

* The comment in `ResolveJumps` (riscv.h:1234-1236) admits any offset of plus or minus 2 GB. The split
  of an offset into an upper and a lower part is exact only below 0x7ffff800 (`Sequences.TopBottom`).
* `Li` loads the wrong constant when its 32-bit residue is in [0x7ffff800, 0x7fffffff] and fewer than
  32 zero bits are shifted back in, because `addi` follows a sign-extending `lui`
  (`Li.LoadsExactly`).
* `UnhookExt` does not relink `next_->previous_` (hook_handle.cc:242-244). Removing any handle but the
  newest leaves a back link to a deleted handle (`HookChain.HookHandle.UnhookExt`, and
  `HookChain.DanglingBackLink` for a run that does it). `UnhookRepaired` adds the one assignment.
* `auipc x0` is translated into a load through x0 (`Relocation.AuipcIntoZero`).
* `c.nop` and the other `c.addi` forms without register or immediate are always refused, because the
  decoder makes two callbacks for them (`Relocation.NopRefused`).
* A request to `ForeverAllocator` with an alignment above the page size returns only from a page that
  is a multiple of it, and takes one page after the other until then
  (`ForeverAllocator.FreshPageServes`, `ForeverAllocator.NeverReturns`).
* A hooked function that jumps back into its own first bytes runs into the patch
  (`WholeCall.LoopIntoPatch`). That control stays outside them is sufficient in
  `WholeCall.BackupIsTheFunction`; it is not shown to be necessary.
* Two sums of `Arena::Alloc` wrap around: that of the fit test, and that of the size and the header of
  a new block (`Arena.HugeRequest`, `Arena.AlignedPastTheEdge`, `Arena.HeaderTurnsOver`). All is
  well exactly when neither does harmfully (`Arena.WordKeeps`), so whenever size plus alignment is at
  most 2^64 - 2^56 (`Arena.SmallIsHarmless`).
* `HookInfo::Unhook` erases the registry's entry under `this` (hook_handle.cc:149), where the key is
  the function. The entry stays, and the next hook of the function finds a record that is over
  (`Hooking.HookAgain`).
* A refused prologue leaves its second trampoline allocated (rv64hook.cc:63-73;
  `Hooking.Process.DoHook`).

## Assumptions

* Memory accesses of threads are sequentially consistent.
* A page or block from the kernel is fresh: it does not overlap what is mapped. User addresses are
  below 2^56, so a mapping that would not fit is refused (and the process ends).
* The chunk table of a heap starts all free (memory.cc:104 and 340 allocate it without clearing).
* In `Relocation`, the program's own stores while it runs the prologue do not hit the relocated block
  (`Spares`), and the prologue does not modify itself; in `WholeCall` it does not read itself as data
  either (`Quiet`).
* Hook functions in one list are distinct from each other and from the relocated code (`Proper`), and
  a new handle is not given a variable that a live one was given (`Free`).
* A relocated block lies below the top of the address space by its own length (`Fits`).

## Model

| member | source | states |
|---|---|---|
| Relocation.RelocationPreservesMeaning | src/arch/riscv64/riscv64_relocator.h:43-150 | for every accepted prologue, block address and start state, the machine run from the block leaves it exactly as the prologue would: same pc, memory and registers except t3 and the link (which holds the image of the return address); it faults when the prologue faults, and otherwise only at an executed `auipc x0` whose stand-in address is unreadable, where it certainly does |
| Relocation.BothRunsAgree | src/arch/riscv64/riscv64_relocator.h:43-82 | two runs of one machine, from the prologue's own address and from the block, reach the same pc and memory with registers equal but for t3 and the link, and one faults exactly when the other does; the link is the register that a call leaving the prologue writes, and in the block it gets the address of the next instruction's translation; where a stand-in for an `auipc x0` reads an unreadable address, the block faults |
| Relocation.ExactAtBoundary | src/arch/riscv64/riscv64_relocator.h:51-66 | at each fall-through boundary inside the block all registers, t3 included, and memory equal the original's, and the pc is the start of that instruction's translation, unless an unreadable stand-in for `auipc x0` came before, and then the block has faulted |
| Relocation.OriginalInPlace | src/arch/riscv64/riscv64_relocator.h:43-52 | the step-by-step meaning of the prologue used above is what the machine does at the prologue's own address |
| Relocation.OriginalLink | src/arch/riscv64/riscv64_relocator.h:139-150 | a call that leaves the original prologue links to the next original instruction, the one whose translation the block's link points to |
| Relocation.SimulatesFrom | src/arch/riscv64/riscv64_relocator.h:51-70 | the simulation from any instruction boundary of the block to its exit |
| Relocation.ChunkSimulates | src/arch/riscv64/riscv64_relocator.h:84-150 | each single translation (copy, auipc, branch, jump) has the effect of the instruction it replaces, at any address |
| Relocation.AuipcIntoZero | src/arch/riscv64/riscv64_relocator.h:84-87 | the translation of `auipc x0` does nothing if and only if one fixed low or high page address is readable |
| Relocation.NothingReadThroughZero | src/arch/riscv64/riscv64_relocator.h:84-87 | a prologue without `auipc x0` cannot meet that exception |
| Relocation.OverwrittenBounds | src/arch/riscv64/riscv64_relocator.h:50-66 | whole instructions are consumed, at least the request and at most one halfword more |
| Relocation.AcceptedExactly | src/arch/riscv64/riscv64_relocator.h:256-306 | an instruction is accepted if and only if it makes one callback and, when that is undefined or an invalid branch, a `ret` came before |
| Relocation.NopRefused | external/berberis/include/berberis/decoder/riscv64/decoder.h:1362-1377 | `c.addi` without register or immediate (so `c.nop`) makes two callbacks and is refused in every context |
| Relocation.UsualPrologueAccepted | src/arch/riscv64/riscv64_relocator.h:50-66 | a usual prologue, `addi sp, sp, -16; sd ra, 8(sp)`, is accepted, so the theorems above are not empty |
| Relocation.SingleCallback | src/arch/riscv64/riscv64_relocator.h:300-306 | any number of callbacks other than one ends in refusal |
| Relocation.FitsWhenSmall | src/arch/riscv64/riscv64_support.cc:94-104 | for every size the hook asks for, the block is so small that its auipc pairs reach its pool |
| Relocator.RV64Relocator.Relocate | src/arch/riscv64/riscv64_relocator.h:43-82 | the imperative loop returns 0 exactly for the prologues the specification refuses and else the specified size and block; `Finalize` never fails |
| Relocator.RV64Relocator.TranslateOne | src/arch/riscv64/riscv64_relocator.h:51-66 | one round extends the emitted items, labels, address map and flags by exactly one accepted instruction, and gives up exactly when the prefix is not acceptable |
| Relocator.RV64Relocator.SetNewState | src/arch/riscv64/riscv64_relocator.h:300-306 | a second state in one instruction is an error |
| Relocator.RV64Relocator.CompareAndBranch | src/arch/riscv64/riscv64_relocator.h:89-137 | emits the skip-over form with its two labels bound 8 and 20 bytes on, or is treated as undefined for the two invalid conditions |
| Relocator.RV64Relocator.JumpAddress | src/arch/riscv64/riscv64_relocator.h:308-311 | records the literal and emits the load and the jump through t3 |
| Relocator.RV64Relocator.EmitAddresses | src/arch/riscv64/riscv64_relocator.h:313-318 | every recorded address becomes one literal, in ascending order, and its label is bound to that literal |
| Relocator.ResolvedBlock | src/arch/riscv64/riscv64_relocator.h:68-70 | everything emitted is resolvable and resolves to the specified block: each pair reads the literal equal to its map key |
| Relocator.ResolvedBranch | src/arch/riscv64/riscv64_relocator.h:131-135 | the label machinery turns the two local references into branch distance 8 and jump distance 16 |
| Assembler.ResolutionMeaning | external/berberis/include/berberis/assembler/riscv.h:1219-1272 | for any mix of all label-taking instructions (branches, `jal`, `la`, `call`, `tail`, loads and stores of every width, floating point included), patching the references by bitwise or succeeds if and only if every label is bound and in range of its format, and then the buffer is the items at their true distances with every other byte unchanged |
| Assembler.Assembler.Finalize | external/berberis/include/berberis/assembler/riscv.h:868-868 | the loop over the references computes that result, and a failed check is exactly an unbound or out-of-range label |
| Assembler.PatchItem | external/berberis/include/berberis/assembler/riscv.h:1229-1271 | one fixup decodes to its label's distance and touches no bit outside its immediate |
| Assembler.Assembler.Bind | external/berberis/include/berberis/assembler/common.h:43-57 | a label is bound once, to the current end of the buffer |
| Assembler.Assembler.Refer | external/berberis/include/berberis/assembler/rv64.h:67-73 | a reference records the position of the word that is emitted with it |
| Sequences.TopBottom | external/berberis/include/berberis/assembler/riscv.h:1238-1247 | the split into upper and sign-extended lower part adds up to the offset if and only if the offset is below 0x7ffff800, and is short by 2^32 above |
| Sequences.LoadPairSteps | external/berberis/include/berberis/assembler/rv64.h:67-73 | the resolved auipc/ld pair loads the literal its label names, changing only its destination |
| Sequences.LoadPairIntoZero | external/berberis/include/berberis/assembler/rv64.h:67-73 | with x0 as destination the pair reads an absolute low address instead: it passes if and only if that is readable |
| Sequences.AddressPairSteps | external/berberis/include/berberis/assembler/riscv.h:1189-1196 | a resolved `la` leaves its label's address if and only if the distance is below 0x7ffff800, and 2^32 less otherwise |
| Sequences.CallPairSteps | external/berberis/include/berberis/assembler/riscv.h:1310-1326 | a resolved `call` or `tail` reaches its label, changing x6 and the link only |
| Sequences.FarJumpSteps | src/arch/riscv64/riscv64_relocator.h:308-311 | three instructions reach any even literal, changing t3 and the link only |
| Encoding.AcceptedExactlyWhenRepresentable | external/berberis/include/berberis/assembler/riscv.h:368-512 | for every C++ integer type and value, the mask tests accept a B, I/S, J or U immediate if and only if the format can represent it |
| Encoding.BranchRoundTrip | external/berberis/include/berberis/assembler/riscv.h:517-528 | a placed B immediate reads back as the manual defines it and leaves the operand fields intact |
| Encoding.JumpRoundTrip | external/berberis/include/berberis/assembler/riscv.h:552-563 | the same for J |
| Encoding.UpperRoundTrip | external/berberis/include/berberis/assembler/riscv.h:611-620 | the same for U |
| Encoding.ImmediateRoundTrip | external/berberis/include/berberis/assembler/riscv.h:543-549 | the same for I |
| Encoding.StoreRoundTrip | external/berberis/include/berberis/assembler/riscv.h:599-609 | the same for S |
| Encoding.BImmediateConvertsBack | external/berberis/include/berberis/assembler/riscv.h:216-232 | the conversion operator inverts the placement of a B immediate |
| Encoding.JImmediateConvertsBack | external/berberis/include/berberis/assembler/riscv.h:251-263 | the conversion operator inverts the placement of a J immediate |
| Encoding.UnconditionalBccKeepsOffset | external/berberis/include/berberis/assembler/riscv.h:1127-1142 | the rewriting of an always-taken branch into a jump keeps the offset |
| Encoding.DecoderExtractsB | external/berberis/include/berberis/decoder/riscv64/decoder.h:1946-1965 | the decoder's bit picking is the manual's B immediate on every word |
| Encoding.DecoderExtractsJ | external/berberis/include/berberis/decoder/riscv64/decoder.h:1967-1983 | the same for J |
| Encoding.DecoderExtractsU | external/berberis/include/berberis/decoder/riscv64/decoder.h:1730-1737 | the same for U |
| Encoding.DecoderExtractsI | external/berberis/include/berberis/decoder/riscv64/decoder.h:2268-2284 | the same for the I immediate of `jalr` |
| Decoder.CompressedJumpTables | external/berberis/include/berberis/decoder/riscv64/decoder.h:1411-1430 | the two lookup tables are the scrambled CJ offset of the manual, on every halfword |
| Decoder.CompressedBranchTables | external/berberis/include/berberis/decoder/riscv64/decoder.h:1393-1409 | the two lookup tables are the scrambled CB offset of the manual, on every halfword |
| Decoder.DecoderDescribes | external/berberis/include/berberis/decoder/riscv64/decoder.h:1035-1051 | the callbacks name every control transfer and `auipc` with the manual's operands, skip the other instructions the machine knows, and name nothing else as one but the two invalid branch conditions and `c.jr x0`; which of the remaining encodings are skipped is `Acceptance.CallbacksExactly` |
| Acceptance.BaseExactly | external/berberis/include/berberis/decoder/riscv64/decoder.h:1513-1581 | by opcode, funct3, funct7 and rs2 of the manual: a 32-bit encoding is undefined if and only if it is on a list of reserved ones (unknown opcodes, `mew`, `lr` and `zext.h` with rs2, conversions between equal formats, and so on), makes no callback if and only if it is a `vsetvl` with reserved bits, and is skipped if and only if it is neither and does not use the pc |
| Acceptance.CompressedExactly | external/berberis/include/berberis/decoder/riscv64/decoder.h:1052-1497 | the same for every 16-bit encoding: undefined, skipped twice (`c.nop` and its like), or skipped, each exactly by the fields of the three quadrants |
| Acceptance.CallbacksExactly | external/berberis/include/berberis/decoder/riscv64/decoder.h:1040-1051 | so for any pair of halfwords what `Decode` calls back is decided by the manual's fields alone |
| Acceptance.ListedIsSkipped | external/berberis/include/berberis/decoder/riscv64/decoder.h:1513-1581 | every instruction that chapter 24 of the manual lists for RV64G and that does not use its own address, loads, stores, ALU, -32, fence, system, atomic and floating point, makes the one callback of an instruction that is copied |
| Acceptance.ReturnExactly | external/berberis/include/berberis/decoder/riscv64/decoder.h:1452-1497 | the two encodings of `ret`, and no others, are called back as a return |
| Acceptance.AcceptedByEncoding | src/arch/riscv64/riscv64_relocator.h:256-306 | one instruction is accepted if and only if it is not silent, not doubled and, when it is reserved or an invalid branch, a `ret` came before |
| Acceptance.AcceptedPrologues | src/arch/riscv64/riscv64_relocator.h:43-66 | a prologue is accepted if and only if each of its instructions is, with the `ret` among those before it, by the manual's encodings alone |
| Acceptance.OrdinaryPrologueAccepted | src/arch/riscv64/riscv64_relocator.h:43-66 | so every prologue of listed instructions, valid branches, jumps and `auipc`, and 16-bit instructions but `c.nop` and the reserved ones, is relocated |
| Trampoline.SuggestedReaches | src/arch/riscv64/riscv64_support.cc:68-150 | for every even address and target the suggested kind never aborts, has the announced size, and its bytes lead to the target changing only t3 and the pc, also across the top of the address space |
| Trampoline.SuggestedCosts | src/arch/riscv64/riscv64_support.cc:68-104 | 4 bytes are overwritten exactly for a target within 0xffffe of the function, 8 exactly for other targets below 0x7ffff800 or less than that behind the function, and else 18, distances taken around the top of the address space |
| Trampoline.WrittenExactly | src/arch/riscv64/riscv64_support.cc:106-150 | writing a trampoline of a given kind aborts exactly when the target is out of that kind's reach, or at an odd distance for `jal` |
| Trampoline.Write32Words | src/arch/riscv64/riscv64_support.cc:43-66 | below 0x7ffff800 both immediates are acceptable and the two words carry parts that add up to the value |
| Trampoline.Write32Runs | src/arch/riscv64/riscv64_support.cc:43-66 | the two words reach pc plus value, or the value, changing t3 only |
| Trampoline.WideRuns | src/arch/riscv64/riscv64_support.cc:82-92 | the 18-byte form reaches the literal behind it, changing t3 only |
| Trampoline.RangedNeverWide | src/arch/riscv64/riscv64_support.cc:152-193 | a trampoline from a ranged allocation never needs the wide form, for every function address and page size, wrap-around of the range included |
| Trampoline.RequestedExactly | src/arch/riscv64/riscv64_support.cc:161-172 | away from the ends of the address space the range asked for is no narrower than it must be: for one `jal` it holds exactly the places that one is suggested for, for the two other kinds every place of that kind and else only places with a shorter one |
| Trampoline.RoundingLosesNoHeap | src/core/memory.cc:116-124 | rounding the range to pages admits exactly the heaps, whole pages themselves, that lie in the range |
| Hooking.Process.DoHook | src/core/rv64hook.cc:50-83 | look up, test, relocate, save, patch, in this order: a known function gives its record, an unreadable one and a refused prologue leave memory untouched (the refusal leaves the trampoline allocated), a function that is not writable keeps its code and gives trampoline and block back, and otherwise the block, at most 28 saved bytes, the jump and the record are in place; it never aborts |
| Hooking.HookIsUndone | src/core/hook_handle.cc:132-137 | what was saved is the function's own code, the code behind it is untouched, and writing it back restores memory up to the block's own bytes |
| Hooking.RestoreUndoesPatch | src/core/hook_handle.cc:132-137 | patching and restoring is the identity on code memory whenever the saved bytes cover the patch |
| Hooking.InstalledSize | src/core/rv64hook.cc:69-76 | the overwritten size covers the patch, is not zero and fits the 28-byte buffer |
| Hooking.CallReachesTrampoline | src/core/rv64hook.cc:77-83 | in the patched memory, calling the function arrives at the second trampoline with only t3 changed |
| Hooking.BackupRunsPrologue | src/core/rv64hook.cc:69-83 | in the patched memory, calling the backup does what the overwritten prologue did up to its first exit and arrives where that exit leads, or faults at an unreadable stand-in for `auipc x0` |
| WholeCall.BackupIsTheFunction | src/core/rv64hook.cc:69-83 | the whole call: against the function run in memory with its own code in place, the backup run in the patched memory leaves the prologue for the same place and from there has, step for step, the same pc, memory but the overwritten bytes, and registers but t3 until it is written and the link of a call that left the prologue, for as long as control stays outside those bytes and nothing reads what may differ; only an unreadable stand-in for `auipc x0` makes it fault instead |
| WholeCall.CallReturns | src/arch/riscv64/riscv64_relocator.h:139-150 | when the prologue leaves by a call and the callee returns through the link, the function goes on behind the call and the backup at the translation of that same instruction, all else in agreement |
| WholeCall.ResultSettles | src/core/rv64hook.cc:69-83 | an instruction that writes t3 without reading it ends the time in which t3 may differ |
| WholeCall.LoopIntoPatch | src/core/rv64hook.cc:77-81 | why control must stay outside: a function that loops at its second instruction meets every other condition, runs for ever, and its backup faults in the second half of the four-byte jump |
| WholeCall.StepAlike | src/core/rv64hook.cc:77-81 | one instruction that stands outside the overwritten bytes and ignores them and t3 takes states that agree but for these to such states |
| WholeCall.PrefixInPlace | src/arch/riscv64/riscv64_relocator.h:50-66 | the instructions that the relocator took apart stand one behind the other in the function's own memory |
| Hooking.Process.Unhook | src/core/hook_handle.cc:132-150 | the saved bytes are written back over the patch if it was written and the function is writable, and else nothing changes in memory; trampoline and block are freed, and the registry loses the key `this` |
| Hooking.HookAgain | src/core/hook_handle.cc:149-149 | a function hooked, unhooked and hooked again gets its first record back, whose trampoline and block are freed, and keeps its own code: the entry goes only if record and function have one address |
| Li.LoadsExactly | external/berberis/include/berberis/assembler/rv64.h:80-103 | executing the code leaves exactly the constant in the destination, changing nothing else, if and only if its 32-bit residue is below 0x7ffff800 or at least 32 zero bits are shifted back in |
| Li.AtMostEight | external/berberis/include/berberis/assembler/rv64.h:80-103 | at most eight instructions, for every constant |
| Li.OneOrTwo | external/berberis/include/berberis/assembler/riscv.h:1279-1303 | a 32-bit constant takes one instruction exactly when one `addi` or one `lui` can load it, and else two |
| Li.Loads64 | external/berberis/include/berberis/assembler/rv64.h:80-103 | for every constant the destination ends up with it, short by an error term, and no other register changes |
| Li.ErrorIs | external/berberis/include/berberis/assembler/rv64.h:80-103 | the error term is zero unless the final 32-bit residue is one of the 2048 values, and then 2^32 shifted as far as the residue |
| Li.Loads32 | external/berberis/include/berberis/assembler/riscv.h:1279-1303 | `lui` and `addi` load a 32-bit constant, off by 2^32 for the 2048 values from 0x7ffff800 on |
| Li.Li | external/berberis/include/berberis/assembler/rv64.h:80-103 | the recursive emitter terminates and emits exactly that code |
| Li.Li32 | external/berberis/include/berberis/assembler/riscv.h:1279-1303 | the 32-bit emitter emits exactly that code, with acceptable immediates |
| PointerAndCounter.PackRoundTrip | external/berberis/include/berberis/base/pointer_and_counter.h:46-69 | for every alignment, aligned 48-bit pointer and counter, the packed word fits 64 bits, the pointer comes back and the counter comes back modulo 2^kCounterBits |
| PointerAndCounter.PackableExactly | external/berberis/include/berberis/base/pointer_and_counter.h:54-67 | a pointer survives packing if and only if it is aligned and below 2^48 |
| LockFreeStack.RefinesAtomicStack | external/berberis/include/berberis/base/lock_free_stack.h:42-73 | every interleaving of any number of pushers and poppers, with spurious failures and owners overwriting `next`, is a run of an atomic stack and memory always holds exactly its contents, as long as no pop's load and compare-and-swap straddle 2^kCounterBits pushes |
| LockFreeStack.NodesConserved | external/berberis/include/berberis/base/lock_free_stack.h:42-73 | each node is at every moment in the stack once or in one thread's hands; none is lost, duplicated or resurrected |
| LockFreeStack.PopReadsNodes | external/berberis/include/berberis/base/lock_free_stack.h:58-65 | the dereference of a possibly stale `curr` always reads a node |
| LockFreeStack.PopSeesTop | external/berberis/include/berberis/base/lock_free_stack.h:65-70 | a compare-and-swap that succeeds installs the true successor of the current top |
| LockFreeStack.StepKeeps | external/berberis/include/berberis/base/lock_free_stack.h:42-73 | every single shared access keeps the invariant and is an atomic stack operation or none |
| LockFreeStack.NextAccess | external/berberis/include/berberis/base/lock_free_stack.h:42-73 | in every reachable state each thread inside a push or a pop has a next access: nobody waits, a compare-and-swap may fail at any time and succeeds only on an unchanged head |
| LockFreeStack.HolderMay | external/berberis/include/berberis/base/lock_free_stack.h:42-73 | any idle thread may begin an operation, and the holder of a node may write anything to it or pass it on unless it is pushing that node |
| LockFreeStack.FailureMeansProgress | external/berberis/include/berberis/base/lock_free_stack.h:42-73 | in every run, when a thread's copy of the head is no longer the head, another thread's compare-and-swap has succeeded since the copy was read |
| LockFreeStack.RetriesAreOthersProgress | external/berberis/include/berberis/base/lock_free_stack.h:42-73 | lock freedom: over every run a thread tries again because of a changed head at most as often as other threads complete a push or a pop |
| CounterLimit.WholeTurnCorrupts | external/berberis/include/berberis/base/lock_free_stack.h:58-73 | the bound is sharp: for every alignment and any two nodes there is a run in which exactly 2^kCounterBits pushes overtake a pop and a node in use is put on the stack |
| PoolOnStacks.RunsAreAtomic | external/berberis/include/berberis/base/mmap_pool.h:39-57 | every interleaving of the single accesses of the pool's two stacks, two head words over one set of nodes, from the state the static constructors leave, is a run of the pool with atomic stacks that shows the same allocations, releases and unmappings, if no pop of either stack straddles 2^kCounterBits pushes to it |
| PoolOnStacks.PoolIsSafe | external/berberis/include/berberis/base/mmap_pool.h:39-57 | so over every such interleaving both lists in memory are what the invariant says, each node is in one list or one thread's hands, each mapped block is cached in one node, in one operation or at one client, no block is handed out or unmapped while somebody has it, and no more blocks are cached than there are nodes |
| PoolOnStacks.StepSimulates | external/berberis/include/berberis/base/mmap_pool.h:39-57 | each single access keeps the invariant of both stacks and is one step of the atomic pool or none |
| PoolOnStacks.OtherKeeps | external/berberis/include/berberis/base/mmap_pool.h:79-84 | an access to one stack keeps the invariant of the other, for which it is nothing or an act of a node's holder: a write of `next`, or a change of hands |
| PoolOnStacks.BuiltOk | external/berberis/include/berberis/base/mmap_pool.h:68-77 | the pushes of the static constructor are a run of the stack and leave every node in the list, last pushed first |
| PoolOnStacks.NeverFaults | external/berberis/include/berberis/base/mmap_pool.h:79-84 | whichever stack a thread pops from, the `next` it reads is that of a node |
| PoolCaching.FreeCaches | external/berberis/include/berberis/base/mmap_pool.h:50-57 | from every state of the invariant with a node without a block, an undisturbed `Free(b)` ends with `b` in that node, the node on top of the available ones, and the kernel not asked |
| PoolCaching.AllocReuses | external/berberis/include/berberis/base/mmap_pool.h:39-48 | from every such state with a block cached, an undisturbed `Alloc` returns the block of the top node, which goes to those without blocks, and the kernel is not asked |
| PoolCaching.FreedIsReused | external/berberis/include/berberis/base/mmap_pool.h:39-57 | an `Alloc` behind a `Free(b)`, by whichever threads, returns `b` and leaves every node where it was |
| PoolCaching.FreeUnmaps | external/berberis/include/berberis/base/mmap_pool.h:50-54 | with no node left the block is unmapped |
| PoolCaching.AllocMaps | external/berberis/include/berberis/base/mmap_pool.h:39-43 | with no block cached the kernel is asked for one |
| PoolCaching.KernelOnlyWhenEmpty | external/berberis/include/berberis/base/mmap_pool.h:39-57 | over every interleaving, each block that is mapped and each that is unmapped belongs to an operation whose own pop met a null head word, and the thread did nothing in between |
| PoolCaching.KernelEvents | external/berberis/include/berberis/base/mmap_pool.h:39-57 | no other access changes what is mapped |
| ForeverAllocator.BlocksAreDisjoint | external/berberis/include/berberis/base/forever_alloc.h:64-86 | in every interleaving the blocks returned are pairwise disjoint, aligned and each inside one page that stays mapped |
| ForeverAllocator.UnmappedPagesAreUnused | external/berberis/include/berberis/base/forever_alloc.h:51-62 | a page that is unmapped never gave a block |
| ForeverAllocator.StepKeeps | external/berberis/include/berberis/base/forever_alloc.h:51-86 | every single shared access keeps the invariant: pages valid, blocks apart and inside their page, owners alone with their page |
| ForeverAllocator.SwapTakesNext | external/berberis/include/berberis/base/forever_alloc.h:71-83 | in every state of the invariant a successful swap that returns a block takes the first aligned address from the shared word on and leaves the word behind the block, or zero exactly when the block ends its page |
| ForeverAllocator.WordChanges | external/berberis/include/berberis/base/forever_alloc.h:51-86 | the shared word changes by publishing a page where it was zero, by taking a block, or by giving the page up for a request that does not fit, and in no other way |
| ForeverAllocator.RetiredWhenFull | external/berberis/include/berberis/base/forever_alloc.h:75-83 | a page is given up only by a request that does not fit in it any more or fills it exactly |
| ForeverAllocator.NoPageIsLost | external/berberis/include/berberis/base/forever_alloc.h:51-86 | a mapped page that is neither in the shared word nor in one thread's hands was given up that way: no page leaks when publishing fails |
| ForeverAllocator.NextMove | external/berberis/include/berberis/base/forever_alloc.h:51-86 | a thread with a request always has a next move, whatever the others do |
| ForeverAllocator.OnlyServedLeave | external/berberis/include/berberis/base/forever_alloc.h:64-86 | a request ends with a block of its size and alignment and not before |
| ForeverAllocator.InOnePage | external/berberis/include/berberis/base/forever_alloc.h:64-86 | requests of an undisturbed thread that fit together behind the shared word all get their blocks in its page, each at the first aligned address behind the last, and no page is mapped for them |
| ForeverAllocator.FirstInPage | external/berberis/include/berberis/base/forever_alloc.h:51-86 | the first request of an undisturbed thread maps one page and gets its start, if the page is aligned for it |
| ForeverAllocator.NoWrap | external/berberis/include/berberis/base/forever_alloc.h:71-73 | the address arithmetic never wraps around, whatever the alignment |
| ForeverAllocator.FreshPageServes | external/berberis/include/berberis/base/forever_alloc.h:71-78 | a fresh page serves a request if and only if the alignment divides its address, so every alignment up to the page size; it sends any other request to the next page |
| ForeverAllocator.NeverReturns | external/berberis/include/berberis/base/forever_alloc.h:64-86 | over every interleaving: if no page the kernel gave is a multiple of an alignment, no request with it has returned, however long the run |
| HookChain.Perform | src/core/hook_handle.cc:61-248 | any legal sequence of hooks, instrumentations and unhooks in any order, each with or without a variable for the backup, and of users overwriting their variables, with the back link repaired, keeps list, backups, trampoline data and counts in agreement; the trampoline's hook word is set exactly when no instrumentation was ever served, and is then the newest live hook, and otherwise its backup word is the newest hook or the relocated code; every live handle's variable that its user left alone holds the handle's backup, an overwritten one what the user wrote, one let go is outside what the library may write, and calls through the variables reach every live hook |
| HookChain.PerformNewestFirst | src/core/hook_handle.cc:61-248 | the code as it is does all of that for every run whose removals take out the newest handle |
| HookChain.HookInfo.VisitsNewestFirstThrough | src/core/hook_handle.cc:89-113 | the same as `VisitsNewestFirst` for hooks that call the original through the variable they gave, as long as no user overwrote one |
| HookChain.HookInfo.OnlyPathThrough | src/core/hook_handle.cc:89-113 | and there is no other way |
| HookChain.HookInfo.CallsBackupOrWritten | src/core/hook_handle.cc:190-199 | a hook that calls through its variable calls its backup or a function that a user wrote into a variable |
| HookChain.HookInfo.LetGoIsApart | src/core/hook_handle.cc:190-199 | the variable of a handle that no longer follows it holds what its user last wrote and is not among those a later removal may write |
| HookChain.HookInfo.Overwrite | src/core/hook_handle.cc:192-196 | a user's own write keeps everything in agreement |
| HookChain.HookInfo.NewHookHandle | src/core/hook_handle.cc:61-126 | the new handle is last, everything stays in agreement, also the other users' variables, and the user's variable receives the nearest earlier hook or the relocated code; while no instrumentation was served the trampoline's hook word is the newest hook and its backup word null, from then on the hook word is null and the backup word the newest hook or the relocated code |
| HookChain.HookHandle.UnhookExt | src/core/hook_handle.cc:201-248 | as the code is: all but the back link behind the removed handle is right, and full agreement survives if and only if the newest handle was removed |
| HookChain.HookHandle.UnhookRepaired | src/core/hook_handle.cc:242-244 | with the missing back-link assignment full agreement survives any removal |
| HookChain.DanglingBackLink | src/core/hook_handle.cc:223-228 | a concrete run: after removing the middle of three hooks the last one points back to a deleted handle whose hook is not the live predecessor |
| HookChain.HookInfo.VisitsNewestFirst | src/core/hook_handle.cc:85-120 | from the trampoline's target through the backups a call visits every live hook once, newest first, and ends in the relocated code |
| HookChain.HookInfo.OnlyPath | src/core/hook_handle.cc:85-120 | there is no other way through the hooks |
| HookChain.HookHandle.UpdateBackup | src/core/hook_handle.cc:190-199 | the user's variable follows the backup until the user has changed it, and is then let go |
| HookChain.HookHandle.PreviousHook | src/core/hook_handle.cc:223-228 | the walk along the back links finds the nearest earlier hook |
| HookChain.HookHandle.UpdateFollowing | src/core/hook_handle.cc:230-233 | exactly the handles up to the next hook get the new backup, and the variables that follow them with it |
| HookEntries.TargetAfterRemoval | src/core/hook_handle.cc:234-241 | after a removal the trampoline's two words still name the newest hook or the relocated code, in the word that the instrumentations served so far say |
| HookChain.InstrumentedAfter | src/core/hook_handle.cc:102-124 | over a run, whether the trampoline calls handlers depends on whether any request was an instrumentation, and a removal never takes that back |
| HookEntries.BackupAfterRemoval | src/core/hook_handle.cc:229-233 | stopping at the next hook is enough: every later backup is already right |
| MemoryHeap.AllocChunk | src/core/memory.cc:177-208 | finds the lowest run of free chunks, fails if and only if there is none, and sets exactly its bits |
| MemoryHeap.RequestTakes | src/core/memory.cc:211-226 | a request takes the fewest chunks of 128 bytes that hold it behind 16 bytes of header, and its address is 16 bytes into the first |
| MemoryHeap.Heap.DoAlloc | src/core/memory.cc:210-227 | a new block at the lowest place with room, null exactly when the size is zero or too large or no run is free, all invariants kept |
| MemoryHeap.Heap.DoFree | src/core/memory.cc:269-280 | exactly the block's bits are cleared and the count drops by its size |
| MemoryHeap.Heap.Free | src/core/memory.cc:147-154 | a live block is released, null is ignored, and so is a pointer whose header says zero, as that of a freed block does until its bytes are handed out again and rewritten |
| MemoryHeap.Heap.Rewrite | src/core/memory.cc:79-91 | a user may rewrite a header that once stood inside the user's own block |
| MemoryHeap.StaleHeader | src/core/memory.cc:269-280 | after that, freeing through such a header takes chunks from the live block around it: bits and blocks no longer correspond |
| MemoryHeap.LayoutAlloc | src/core/memory.cc:218-226 | bits and live blocks still correspond after an allocation, and the new block is disjoint from all others |
| MemoryHeap.LayoutFree | src/core/memory.cc:273-280 | bits and live blocks still correspond after a release |
| MemoryHeap.BlocksAreApart | src/core/memory.cc:210-227 | the bytes two live requests get, each with the header in front, share nothing and lie inside the heap |
| MemoryHeap.RunKeepsSized | src/core/memory.cc:210-227 | over any sequence of requests every live block was sized for one |
| MemoryHeap.AllocThenFree | src/core/memory.cc:147-154 | free undoes alloc: bitmap, count and blocks are as before |
| MemoryHeap.ServeAll | src/core/memory.cc:177-280 | over any sequence of allocations and releases the live blocks, and every pointer returned, are those of first fit |
| MemoryHeap.NothingLeft | src/core/memory.cc:269-280 | when every block was released the bitmap is all zero again |
| Memcpy.Memcpy | src/libc/memcpy_generic.cc:42-98 | for every length, alignment and overlap the result is that of `memmove`, the length never underflows and every word access is aligned |
| Memcpy.CopyWord | src/libc/memcpy_generic.cc:73-75 | one aligned word moves, even onto itself |
| Arena.Arena.Alloc | external/berberis/include/berberis/base/arena_alloc.h:85-113 | on 64-bit words, with every sum wrapping: the address is aligned, and every range stays inside a block and disjoint from all earlier ones if and only if neither the fit test's sum nor the size with the header wraps harmfully; then the answer and the state are those of unbounded integers |
| Arena.WordIsNat | external/berberis/include/berberis/base/arena_alloc.h:49-113 | the 64-bit `Alloc` gives the answer and the state of unbounded integers if and only if neither sum wraps harmfully |
| Arena.WordKeeps | external/berberis/include/berberis/base/arena_alloc.h:85-113 | it keeps the promise, ranges in blocks and disjoint, if and only if neither does |
| Arena.SmallIsHarmless | external/berberis/include/berberis/base/arena_alloc.h:85-113 | no sum wraps harmfully when size plus alignment is at most 2^64 - 2^56, whatever the state |
| Arena.NatKeeps | external/berberis/include/berberis/base/arena_alloc.h:85-113 | on unbounded integers each range is aligned, inside a block of the arena and disjoint from all earlier ones, also when the old current block is kept |
| Arena.NewBlockHasRoom | external/berberis/include/berberis/base/arena_alloc.h:49-59 | on unbounded integers a new block has room for the request behind its header, default-sized or dedicated, for every alignment up to and above the page size |
| Arena.BlockSizesAre | external/berberis/include/berberis/base/arena_alloc.h:49-59 | a request that takes less than 65536 bytes with its aligned header gets a block of 131072 bytes, and from 65536 on the smallest whole number of pages |
| Arena.RequestGoesTo | external/berberis/include/berberis/base/arena_alloc.h:92-113 | it gets the first aligned address of the current rest if it fits there and else of a new block behind its 16 bytes of header, and of the two rests the larger one stays current, the old one when they are equal |
| Arena.ServeAll | external/berberis/include/berberis/base/arena_alloc.h:85-113 | on an empty arena, any run of requests that fit together in one block of 131072 bytes makes exactly one block and puts each object at the first aligned address behind the last |
| Arena.HugeRequest | external/berberis/include/berberis/base/arena_alloc.h:93-96 | a request the fit test's sum lets through, after which the next object would lie at address 0x10 |
| Arena.AlignedPastTheEdge | external/berberis/include/berberis/base/arena_alloc.h:93-96 | a request that is let through although the unaligned address plus the size stays below 2^64 |
| Arena.HeaderTurnsOver | external/berberis/include/berberis/base/arena_alloc.h:49-57 | a request the fit test refuses, for which the size with the header wraps to 15 and a default block is made |
| Arena.Arena.Free | external/berberis/include/berberis/base/arena_alloc.h:61-73 | each block is released exactly once, to the pool or to the kernel by its size |

## Left out

- Operating system calls (`mmap`, `munmap`, `mprotect`, reading `/proc/self/maps`), instruction cache flushes and the locker: input and output.
- Weak memory orders: the model interleaves sequentially consistent accesses.
- The second trampoline's assembly (`trampoline_riscv64.S`) and what the register handlers do: a call is followed up to its entry only.
- `memcpy_vext.S` and the aarch64 port.
- `Memory::DoRealloc`, which nothing calls, and the deletion of emptied heaps; one heap is modelled, and of the ranged list its range test.
- `FunctionRecord`, and `UnhookAllExt` beyond the end of a list's life.
- TLS keys of the trampoline data, the enabled flags of handles, and user allocators for trampolines.
- The semantics of floating point, vector, atomic, CSR and plain ALU instructions: they are opaque and position independent; misaligned loads are allowed.
- Recovery points of the assembler, and the 32-bit width of code positions: a block is far shorter than 2^31 bytes.
- WholeCall.CallReturns: up to the return; a callee that saves the return address to memory makes the two memories differ there.
- Hooking.Process.DoHook: the library copies with `process_vm_writev` (the other build copies directly, which faults where this one fails); places of the trampoline, the block and the record are parameters, and the memory allocators do not fail.
- MemoryHeap.Heap.Free: a pointer through a rewritten header is outside the contract; MemoryHeap.StaleHeader says what it would do.
- Memcpy.Memcpy: both operands lie in one array whose indices are the addresses.
