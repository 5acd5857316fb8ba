# Testarossa code generator: models and proofs

A Dafny model of the platform-independent part of the Testarossa JIT back end (Eclipse OMR), and proofs of what its
components promise each other and the machine. Objects that the original updates in place are classes with
`modifies` clauses; its loops are loops; its read-only recursion is functions.

Verify everything with `dafny verify dfyconfig.toml`.

| files | component |
|---|---|
| `MagicTheory`, `MagicNumbers`, `UnsignedMagic`, `Words` | division by a constant: multiply-high, correct, shift, add a sign bit |
| `Spills` | the spill-slot allocator, its free lists and half slots, and the spill part of a GC map |
| `StackAtlas` | the list of stack maps: `addStackMap`, `close`, and the lookup both must respect |
| `ILNodes`, `PowerOfTwo`, `MultiplyLowering`, `DivideNarrowing`, `ReferenceCounting`, `FutureUses` | rewriting the shared IL graph: values, acyclicity and reference counts |
| `AddressMatch`, `AddressTrust`, `AddressCounts` | the syntactic address equivalence check, against an evaluation semantics, and exactly when its yes can be trusted |
| `LiveRegisters` | live virtual registers: intrusive chain, pool, count, interference masks |
| `RealRegisters` | real-register states and the null-terminated array of unlatched registers |
| `PinningArrays` | slots for pinning arrays and internal pointers |
| `ElfFormat`, `ElfWriter`, `ElfGenerator` | object files: a reader after chapter 4 "Object Files" of the System V gABI, and the generators |

How the source is read:

- **Words** are mathematical integers reduced mod 2^w where the source computes in w bits (`Words.Wrap`). The 32-bit and
  64-bit signed magic functions run the same loop and the same cache search, so these are modelled once with w as a
  parameter and used twice. `abs` of the most negative divisor, undefined in C, is taken as unsigned negation;
  divisors -1, 0 and 1 are excluded, as the callers exclude them. Two instruction sequences are proved: the x86 one
  adds the sign bit of the shifted word, the simplifier and the Power evaluator add the dividend's for a positive divisor.
- **Spills.** `live` is the ghost set of handles (store, size, offset, collected) the callers hold. The caller's offset
  variable is 0 on entry, as the register assigners pass it (compiler/x/codegen/OMRMachine.cpp:837, 2815). A handle is
  freed with its own size and offset. The optimizer's consent to each transformation is a boolean parameter.
- **The atlas** compares slot bits as bytes and register maps as masks, as the source does; masks are sets of bits.
  `close` reads the option that disables merging but merges regardless (compiler/codegen/OMRGCStackAtlas.cpp:43-93); the
  model follows the code.
- **IL nodes** live in a pool and refer to their children by number, so two parents of one number are sharing.
  `external` counts the references from tree tops. Evaluation gives every operator but the ones rewritten an arbitrary
  fixed meaning. Division by zero yields 0 on both sides: the check that precedes it is another node.
- **Power-of-two tests** of the form `x & -x` are the lowest set bit (compiler/infra/Bit.hpp:362-400).
- **The world** the address check is judged in keeps its own record of which nodes were evaluated before this tree top
  and which memory state each read. A register during evaluation, or a single reference before it, is only what a node
  shows of that record, and only for nodes met on the way down through nodes not evaluated before.
- **Interference** is specified by a ghost log of events; each live register's mask is *equal* to what the log
  requires. Pair components are single registers of the same list.
- **The unlatched array** must be longer than the number of registers. x86, Power and AArch64 allocate one element more
  than their register numbers; z does not (compiler/z/codegen/OMRCodeGenerator.cpp:434) and relies on
  numbers that stand for no register.
- **Object files** are byte sequences with the 64-bit records of the format, in either byte order. Opening the file is
  a boolean parameter. Offsets wrap at 32 bits, so the total size must fit.

Four places where the code does less than one would like are results here, each with a witness and a condition:
a 12-byte spill can get an 8-byte store (`TwelveBytesInEight`, exact condition in `AllocateSpill`);
`close` can change live-monitor bits (`CloseLosesMonitors`, exact condition in `MonitorsKeptExactly`);
internal-pointer maps are compared by a count in a byte (`CountWraps`, exact condition in `IdenticalPointersUnbounded`);
and a matched load can be stale although its reference count is low (`HiddenLoadMismatch`). For the last one the check
relies on the loads it matches at different nodes: a yes is right in every in-order world if and only if those not
known to be read at this tree top cancel (`MatchSafeExactly`, and `MatchSafeBeforeEvaluation` when reference counts are
honest), which is to say that all of them are read if none is relied on twice (`MatchSafeWhenRead`).
`WideEnough` is an arithmetic condition on sizes, not a failure: internal-pointer spills have the reference size
(compiler/codegen/CodeGenRA.cpp:428-432), which meets it, and pinning arrays are address variables.

## Model

| member | source | states |
|---|---|---|
| MagicTheory.MultiplierFloor | compiler/codegen/OMRCodeGenerator.cpp:1986-2018 | a multiplier that overshoots 2^p/d by little enough at the critical dividend gives floor(n/d) for every n up to the limit |
| MagicTheory.MultiplierCeil | compiler/codegen/OMRCodeGenerator.cpp:1986-2018 | and floor(-n*mu/2^p) is -floor(n/d)-1, which adding the sign bit turns into truncation |
| MagicTheory.OvershootBounded | compiler/codegen/OMRCodeGenerator.cpp:1986-1987 | checking the critical dividend is enough for all dividends below the limit |
| MagicNumbers.MagicDivides | compiler/optimizer/OMRSimplifierHandlers.cpp:3119-3165 | a magic pair divides every w-bit dividend, truncating toward zero, in both emitted sequences |
| MagicNumbers.Search | compiler/codegen/OMRCodeGenerator.cpp:1988-2013 | the doubling loop keeps exact quotients and remainders of 2^p, never wraps, ends with w <= p <= 2w-2 and returns a multiplier |
| MagicNumbers.NextStepFits | compiler/codegen/OMRCodeGenerator.cpp:1993-2013 | while the loop goes on, no doubled quotient or remainder leaves the word |
| MagicNumbers.SearchMagic | compiler/codegen/OMRCodeGenerator.cpp:1984-2018 | for every divisor with 2 <= abs(d) <= 2^(w-1) the computed pair is magic, with 0 <= s <= w-2 |
| MagicNumbers.FindCached | compiler/codegen/OMRCodeGenerator.cpp:1961-1981 | the binary search returns an entry for the key exactly when there is one |
| MagicNumbers.CachedAreMultipliers32 | compiler/codegen/OMRCodeGenerator.cpp:1945-1959 | every entry of the 32-bit cache is magic for its divisor |
| MagicNumbers.CachedAreMultipliers64 | compiler/codegen/OMRCodeGenerator.cpp:2035-2043 | every entry of the 64-bit cache is magic for its divisor |
| MagicNumbers.Compute32BitMagicValues | compiler/codegen/OMRCodeGenerator.cpp:1932-2018 | whether from the cache or the loop, the returned pair divides every 32-bit dividend |
| MagicNumbers.Compute64BitMagicValues | compiler/codegen/OMRCodeGenerator.cpp:2021-2105 | the same for 64 bits |
| UnsignedMagic.UnsignedCritical | compiler/codegen/OMRCodeGenerator.cpp:2116 | the wrapped expression for nc is the critical dividend of the full unsigned range |
| UnsignedMagic.WrapNeedsLargeDivisor | compiler/codegen/OMRCodeGenerator.cpp:2123-2151 | q1 can only wrap for a divisor above 2^(w-1) |
| UnsignedMagic.ExitIsSafe | compiler/codegen/OMRCodeGenerator.cpp:2150-2151 | leaving the loop on a wrapped q1, or on the guard p < 2w, is still safe |
| UnsignedMagic.MultiplierFits | compiler/codegen/OMRCodeGenerator.cpp:2136-2148 | while the loop goes on the multiplier fits in w bits, so the indicator is right at the end |
| UnsignedMagic.SearchUnsigned | compiler/codegen/OMRCodeGenerator.cpp:2117-2153 | the loop ends with p <= 2w and the exact multiplier split into indicator and word |
| UnsignedMagic.ComputeUnsignedMagicValues | compiler/codegen/OMRCodeGenerator.cpp:2108-2156 | for every d >= 1 and every w-bit n, floor(n*(a*2^w+m)/2^(w+s)) = floor(n/d), where a*2^w+m is ceil(2^(w+s)/d) and a its top bit |
| Spills.SpillAllocator.constructor | compiler/codegen/OMRCodeGenerator.cpp:208-219 | an allocator starts with nothing live and nothing free |
| Spills.SpillAllocator.AllocateSpill | compiler/codegen/CodeGenRA.cpp:453-572 | one new live handle; the list it is served from, what every list and the set of stores become, when it gets the second half of a store, and its GC index; the store is too small exactly for a size from 9 to 15 served from the 8-byte list |
| Spills.SpillAllocator.ChooseStore | compiler/codegen/CodeGenRA.cpp:477-534 | the free list a request is served from, in the order of preference of the source |
| Spills.SpillAllocator.FreeSpill | compiler/codegen/CodeGenRA.cpp:574-682 | the handle is gone and its half flags are cleared; the store goes to the list its size and other half call for, an emptied 8-byte store leaving the 4-byte list, and nowhere if the lists are locked or its first half is occupied |
| Spills.SpillAllocator.AllocateInternalPointerSpill | compiler/codegen/CodeGenRA.cpp:407-445 | the first free store of its own pinning array, or a new one |
| Spills.SpillAllocator.JettisonAllSpills | compiler/codegen/CodeGenRA.cpp:684-693 | all lists are empty; nothing live is disturbed |
| Spills.SpillAllocator.SetLocked | compiler/codegen/OMRCodeGenerator.hpp:1215-1216 | locking keeps the invariant |
| Spills.SpillAllocator.NoOverlap | compiler/codegen/CodeGenRA.cpp:453-693 | in every reachable state no two live handles share a byte, each fits its store, and a store is occupied exactly when something live is in it |
| Spills.SpillAllocator.OccupiedUnlisted | compiler/codegen/CodeGenRA.cpp:574-682 | an occupied store is on no free list, except a store with a free first half, on the 4-byte list |
| Spills.SpillAllocator.MarkSpills | compiler/codegen/CodeGenGC.cpp:268-302 | with 8-byte references the bit of a GC index is set exactly if it was or if a live handle in its store is a collected reference, unless the store is at depth 0 and this is an out-of-line hot path; with either size by flag and occupancy; no other bit changes |
| Spills.SpillAllocator.MarkedIsLiveReference | compiler/codegen/CodeGenGC.cpp:268-302 | with 8-byte references a collected and occupied store is one with a live collected reference, and its GC index is mapped and its own |
| Spills.TwelveBytesInEight | compiler/codegen/CodeGenRA.cpp:477-496 | a run of the allocator that hands an 8-byte store to a 12-byte request |
| StackAtlas.CloseKeepsLookup | compiler/codegen/OMRGCStackAtlas.cpp:43-93 | for every pc the first map not above it has the same slot bits, map size, register map, caller index, byte-code index and profiling flag as before |
| StackAtlas.CloseSeparates | compiler/codegen/OMRGCStackAtlas.cpp:43-93 | no two neighbours agree in slot bits, map size, register map, caller index, byte-code index and profiling flag afterwards |
| StackAtlas.ClosedIffSeparate | compiler/codegen/OMRGCStackAtlas.cpp:43-93 | a list is a fixed point of close exactly when no two neighbours are equal |
| StackAtlas.CloseIdempotent | compiler/codegen/OMRGCStackAtlas.cpp:43-93 | closing twice is closing once |
| StackAtlas.CloseKeepsOrder | compiler/codegen/OMRGCStackAtlas.cpp:43-93 | the list stays ordered and no new code offset appears |
| StackAtlas.CloseLosesMonitors | compiler/codegen/OMRGCStackAtlas.cpp:80-83 | two maps, each with the slot bit of its live monitor set, whose merger changes the live-monitor bits at a pc |
| StackAtlas.MonitorsKeptExactly | compiler/codegen/OMRGCStackAtlas.cpp:80-83 | close keeps the live-monitor bits of every answer if and only if, in each run of equal neighbours, every map some pc finds has those of the first |
| StackAtlas.GCStackAtlas.Close | compiler/codegen/OMRGCStackAtlas.cpp:43-93 | the in-place loop computes Closed and keeps the counter equal to the list length |
| StackAtlas.AddedKeepsOrder | compiler/codegen/OMRGCStackAtlas.cpp:96-164 | adding keeps the list in non-increasing code offset |
| StackAtlas.AddedCovers | compiler/codegen/OMRGCStackAtlas.cpp:96-164 | the new map is covered by an entry with its offset, map size, slot bits and monitors, all its registers, and its internal-pointer map if it has one: no other pairs, as many pinning arrays, and all its pairs while a byte counts them; what was covered stays so |
| StackAtlas.AddedExactly | compiler/codegen/OMRGCStackAtlas.cpp:96-164 | where an addition takes place: the first map equal in all but registers and byte-code info gains the registers and nothing else; without one the map is inserted after the last that is not below it |
| StackAtlas.RunKeepsOrderAndCovers | compiler/codegen/OMRGCStackAtlas.cpp:96-164 | both over any sequence of additions, for every map ever added |
| StackAtlas.AdditionsAnswer | compiler/codegen/OMRGCStackAtlas.cpp:96-164 | after any run of additions a lookup finds the first map added at the greatest offset not above the pc, with more registers perhaps |
| StackAtlas.ClosedAtlasAnswers | compiler/codegen/OMRGCStackAtlas.cpp:43-164 | and after closing, that map's slot bits, caller index, byte-code index and profiling flag, and at least its registers |
| StackAtlas.GCStackAtlas.AddStackMap | compiler/codegen/OMRGCStackAtlas.cpp:96-164 | the search and in-place insertion compute Added; counter and slot count are right |
| StackAtlas.IdenticalPointersExact | compiler/codegen/CodeGenGC.cpp:389-420 | without repeated pairs or wrapping byte counters, the one-sided comparison of internal-pointer maps says yes exactly for the same set of pairs and the same count of pinning arrays |
| StackAtlas.IdenticalPointersCover | compiler/codegen/CodeGenGC.cpp:389-420 | a yes means the same set of pairs already if only the first map has no repeats |
| StackAtlas.IdenticalPointersUnbounded | compiler/codegen/CodeGenGC.cpp:389-420 | for any number of pairs a yes is wrong exactly for a part of the other map's pairs that is smaller by a multiple of 256 |
| StackAtlas.CountWraps | compiler/codegen/CodeGenGC.cpp:389-420 | a map without pairs passes for a map of 256 |
| AddressMatch.NodeMatchesSound | compiler/codegen/OMRCodeGenerator.cpp:1418-1466 | matched nodes have equal values when the loads relied on read the same state |
| AddressMatch.FoldedOffsets | compiler/codegen/OMRCodeGenerator.cpp:1500-1545 | constant offsets added in two steps or one give the same address mod 2^w, widths mixed |
| AddressMatch.AdditionsMatchSound | compiler/codegen/OMRCodeGenerator.cpp:1469-1547 | the same for sums, nested or folded |
| AddressMatch.AddressesMatchSound | compiler/codegen/OMRCodeGenerator.cpp:1550-1621 | a yes means equal addresses mod 2^w in every memory, for all pairs of trees; under one tree top if the loads without a register (or with one reference) read the same state |
| AddressMatch.NodeMatchesExactly | compiler/codegen/OMRCodeGenerator.cpp:1393-1466 | two nodes match exactly when, so many unevaluated address loads of the same symbols further down, they are the same leaf |
| AddressMatch.AdditionsMatchExactly | compiler/codegen/OMRCodeGenerator.cpp:1469-1547 | two additions match exactly along a path of operands that ends in matching operands or a folded offset; the order of the cases excludes nothing |
| AddressMatch.AddressesMatchExactly | compiler/codegen/OMRCodeGenerator.cpp:1550-1621 | a yes is given exactly to matching nodes, matching sums, sums of matching sums, and matching pointers with or without an offset |
| AddressMatch.CopiesMatch | compiler/codegen/OMRCodeGenerator.cpp:1550-1621 | every renumbered copy of a sum that branches on one side, or of a sum of two such, gets a yes |
| AddressMatch.LoadedCopiesMatch | compiler/codegen/OMRCodeGenerator.cpp:1550-1621 | so do loads through copies of such sums |
| AddressMatch.FoldedMatches | compiler/codegen/OMRCodeGenerator.cpp:1500-1547 | and an offset added in two steps and one added at once |
| AddressMatch.NothingHiddenReadsNow | compiler/codegen/OMRCodeGenerator.cpp:1393-1416 | if no load without a sign of earlier evaluation is below a node with one, every such load really reads the current state |
| AddressMatch.MatchSafeUnderOneTreeTop | compiler/codegen/OMRCodeGenerator.cpp:1393-1621 | so for trees without hidden loads, a simple sufficient condition, the claim of one tree top suffices |
| AddressMatch.HiddenLoadMismatch | compiler/codegen/OMRCodeGenerator.cpp:1393-1416 | with a hidden load the answer yes can be wrong: two trees and a memory |
| AddressTrust.LeavesDecompose | compiler/codegen/OMRCodeGenerator.cpp:1418-1621 | what the two addresses differ by is the sum of what the loads relied on would differ by from a read at this tree top |
| AddressTrust.BalancedIsSafe | compiler/codegen/OMRCodeGenerator.cpp:1393-1621 | if what is relied on without being known to be read here cancels between the sides, a yes is right in every world in order |
| AddressTrust.SafeIsEven | compiler/codegen/OMRCodeGenerator.cpp:1393-1621 | if a yes is right in every world in order, each such load is relied on equally often on both sides mod 2^w |
| AddressTrust.MatchSafeExactly | compiler/codegen/OMRCodeGenerator.cpp:1393-1621 | when each such load stands in one chain, a yes is right in every world in order if and only if they cancel |
| AddressTrust.MatchSafeWhenRead | compiler/codegen/OMRCodeGenerator.cpp:1393-1621 | when none is relied on twice, if and only if every load relied on is read at this tree top |
| AddressTrust.SharedLoadsCancel | compiler/codegen/OMRCodeGenerator.cpp:1393-1621 | two sums that always agree although a shared load is matched at two depths |
| AddressCounts.MatchSafeBeforeEvaluation | compiler/codegen/OMRCodeGenerator.cpp:1393-1621 | before evaluation and with honest reference counts, a yes is right in every world in order if and only if the loads not read here cancel |
| ILNodes.CountsUnique | compiler/codegen/NodeEvaluation.cpp:438-448 | on an acyclic graph the external references determine all counts |
| ILNodes.LiveEdgesExactly | compiler/codegen/NodeEvaluation.cpp:438-448 | the references counted are the child positions of nodes that are referenced and have no register |
| ReferenceCounting.RecursivelyDecReferenceCount | compiler/codegen/NodeEvaluation.cpp:438-448 | terminates, keeps every count equal to external references plus edges from nodes still referenced, only lowers counts, and changes nothing else for a node that is still referenced or was evaluated |
| ReferenceCounting.ReleaseChildren | compiler/il/OMRNode.cpp:4379-4386 | the child loop pays off the pending references of a dead node one by one |
| ReferenceCounting.ShrunkKeepsValues | compiler/codegen/NodeEvaluation.cpp:438-448 | dropping references changes no value |
| FutureUses.Initialize | compiler/codegen/OMRTreeEvaluator.cpp:788-811 | each call adds exactly one meeting and visits each unevaluated node once |
| FutureUses.InitializeRoot | compiler/codegen/OMRTreeEvaluator.cpp:788-811 | exactly the nodes reachable through unevaluated ones are visited, each is left with its reference count less the edges from reached nodes, one less for the root, and every other node is untouched |
| FutureUses.EdgesFromExactly | compiler/codegen/OMRTreeEvaluator.cpp:788-811 | those edges are the child positions of reached nodes |
| FutureUses.ClosedContainsPath | compiler/codegen/OMRTreeEvaluator.cpp:788-811 | visited nodes are closed under paths through unevaluated nodes |
| PowerOfTwo.RecognisedPowers | compiler/infra/Bit.hpp:362-400 | the two bit tests recognise exactly 0 and the (negated) powers of two in range |
| PowerOfTwo.CheckPositiveOrNegativePowerOfTwo | compiler/codegen/OMRTreeEvaluator.cpp:456-511 | n for 2^n and -2^n, 0 for -1, 0 and 1, and -1 exactly for everything else |
| PowerOfTwo.CountShifts | compiler/codegen/OMRTreeEvaluator.cpp:462-467 | the shift loop counts the exponent |
| PowerOfTwo.TimesPower | compiler/codegen/CodeGenPrep.cpp:104-186 | multiplying by 2^n or -2^n is shifting, or negating the shift, mod 2^w |
| MultiplyLowering.LowerMultiply | compiler/codegen/CodeGenPrep.cpp:104-186 | the graph changes exactly when the constant is plus or minus 2^n with n > 0, and then to a shift by n, negated for the minus, of the same operand |
| MultiplyLowering.LoweredIsShift | compiler/codegen/CodeGenPrep.cpp:104-186 | node by node: which constant the shift uses, how many nodes are new, and that no other node changes |
| MultiplyLowering.ShiftPrivate | compiler/codegen/CodeGenPrep.cpp:118-130 | the constant is turned into the shift amount in place |
| MultiplyLowering.ShiftShared | compiler/codegen/CodeGenPrep.cpp:131-138 | a shared constant is left alone and loses one reference |
| MultiplyLowering.NegatePrivate | compiler/codegen/CodeGenPrep.cpp:142-166 | a new shift takes over both children under a negation |
| MultiplyLowering.NegateShared | compiler/codegen/CodeGenPrep.cpp:167-182 | new shift and new constant under a negation |
| MultiplyLowering.LoweredAcyclic | compiler/codegen/CodeGenPrep.cpp:104-186 | the graph stays acyclic in all four cases |
| MultiplyLowering.LoweredCounted | compiler/codegen/CodeGenPrep.cpp:104-186 | every count still equals the references, new nodes included |
| MultiplyLowering.ParentKept | compiler/codegen/CodeGenPrep.cpp:104-186 | the multiplication keeps its value mod 2^32 or 2^64 |
| MultiplyLowering.LoweredKeepsValues | compiler/codegen/CodeGenPrep.cpp:104-186 | so does every other node of the shared graph, in every environment, except a constant nobody else refers to |
| DivideNarrowing.DivisionsAgree | compiler/codegen/CodeGenPrep.cpp:201-224 | 64-bit division of zero-extended operands is 32-bit unsigned division, zero-extended |
| DivideNarrowing.NarrowedKeepsValues | compiler/codegen/CodeGenPrep.cpp:201-224 | every node keeps its value |
| DivideNarrowing.NarrowedAcyclic | compiler/codegen/CodeGenPrep.cpp:201-224 | the graph stays acyclic |
| DivideNarrowing.NarrowedCounted | compiler/codegen/CodeGenPrep.cpp:201-224 | counts are right but for the two references still to be given up |
| DivideNarrowing.NarrowDivide | compiler/codegen/CodeGenPrep.cpp:201-224 | the division becomes a conversion of an unsigned 32-bit one of the unconverted operands; after the old conversions are released, counts equal references again and every old node has its old value in the pool that is left |
| LiveRegisters.AddToList | compiler/codegen/LiveRegister.hpp:129-136 | a well-formed doubly linked list gains an entry in front; lists of other entries are untouched |
| LiveRegisters.RemoveFromList | compiler/codegen/LiveRegister.hpp:138-146 | an entry anywhere in a list is unlinked, order kept |
| LiveRegisters.LiveRegisters.AddRegister | compiler/codegen/LiveRegister.cpp:45-81 | an entry from the pool, or a new one, heads the chain; chain and pool stay well formed and disjoint |
| LiveRegisters.LiveRegisters.AddRegisterPair | compiler/codegen/LiveRegister.cpp:83-98 | a pair and the components that were not live arrive, in that order, with empty masks; the count moves with the single registers only |
| LiveRegisters.LiveRegisters.SetAssociation | compiler/codegen/LiveRegister.cpp:100-131 | the association is set and every other live register interferes with it |
| LiveRegisters.LiveRegisters.RegisterIsDead | compiler/codegen/LiveRegister.cpp:161-245 | the register leaves the chain, and of a pair the components with no node count left, while the others stay live with their entries; each death is recorded in order and each recorded mask is exactly what the register had to interfere with until then; entries are conserved between chain and pool |
| LiveRegisters.LiveRegisters.RemoveRegisterFromLiveList | compiler/codegen/LiveRegister.cpp:247-258 | a register leaves the chain without dying |
| LiveRegisters.MoveRegToList | compiler/codegen/LiveRegister.cpp:37-43 | the entry and its mask move to the other list; both stay consistent and both counts right |
| LiveRegisters.RequiredExactly | compiler/codegen/LiveRegister.cpp:100-131 | a real register is in a mask if and only if the register arrived with it or another register was given it, or died holding it, since |
| LiveRegisters.EachOnce | compiler/codegen/LiveRegister.cpp:45-81 | no register is on the chain twice |
| LiveRegisters.CountSinglesExactly | compiler/codegen/LiveRegister.cpp:45-98 | the count is that of the registers on the chain that are not pairs |
| RealRegisters.UnblockUndoesBlock | compiler/codegen/OMRRealRegister.cpp:107-130 | unblock restores what block changed if and only if the state agrees with the assigned register and its assigned-in-method flag |
| RealRegisters.StepKeepsSound | compiler/codegen/OMRRealRegister.cpp:73-130 | every operation keeps unlatched registers on the list exactly once, and locked ones locked |
| RealRegisters.RunKeepsSound | compiler/codegen/OMRRealRegister.cpp:73-130 | the same over any run of operations |
| RealRegisters.FreeingEmpties | compiler/codegen/OMRCodeGenerator.cpp:2750-2763 | freeing after any run leaves nothing unlatched, unassigns what was, and changes no other register |
| RealRegisters.CodeGenerator.AddToUnlatchedRegisterList | compiler/codegen/CodeGenRA.cpp:2214-2227 | the search over the null-terminated array adds a register if it is missing, and there is room |
| RealRegisters.CodeGenerator.FreeUnlatchedRegisters | compiler/codegen/OMRCodeGenerator.cpp:2750-2763 | the loop over the array computes the step on values: unlatched registers become free and empty, no other changes |
| RealRegisters.RealRegister.SetState | compiler/codegen/OMRRealRegister.cpp:73-90 | as does setState, which a locked register ignores; what becomes of the state, the flag and the list |
| RealRegisters.RealRegister.Block | compiler/codegen/OMRRealRegister.cpp:107-114 | as does block: assigned and free registers only |
| RealRegisters.RealRegister.Unblock | compiler/codegen/OMRRealRegister.cpp:116-130 | as does unblock: to assigned or free by what is held |
| PinningArrays.WideEnough | compiler/codegen/CodeGenGC.cpp:342-345 | a symbol gets the whole references in its size rounded up to four, one if it is empty; they hold it if and only if the rounded size is a multiple of the reference size |
| PinningArrays.PlacedApart | compiler/codegen/CodeGenGC.cpp:330-383 | running sums give disjoint slot ranges |
| PinningArrays.GCStackAtlas.RemapGCIndicesInInternalPtrFormat | compiler/codegen/CodeGenGC.cpp:314-386 | pinning arrays and internal pointers get disjoint slots, packed from the old slot count on; each internal pointer gets one pair with its own pinning array; the register-only list is exactly the pinning arrays no internal pointer uses |
| PinningArrays.GCStackAtlas.MapPinningArrays | compiler/codegen/CodeGenGC.cpp:330-357 | the first loop |
| PinningArrays.GCStackAtlas.MapInternalPointers | compiler/codegen/CodeGenGC.cpp:362-383 | the second loop |
| PinningArrays.GCStackAtlas.GetNumberOfDistinctPinningArrays | compiler/codegen/OMRGCStackAtlas.cpp:167-224 | the size of the set of pinning arrays of the pairs and the register-only list |
| PinningArrays.RemapThenCount | compiler/codegen/OMRGCStackAtlas.cpp:167-224 | after remapping an empty atlas that is the number of pinning arrays |
| ElfFormat.DecEnc | compiler/codegen/ELFGenerator.cpp:404-415 | a field that fits its width is read back, in either byte order |
| ElfFormat.UnpackPack | compiler/codegen/ELFGenerator.cpp:404-428 | so is a whole record |
| ElfFormat.UnpackAllPackAll | compiler/codegen/ELFGenerator.cpp:231-244 | and a table of records |
| ElfFormat.ReadStringAt | compiler/codegen/ELFGenerator.cpp:246-257 | a zero-terminated name is read back from a string table at its offset |
| ElfWriter.SymbolsRead | compiler/codegen/ELFGenerator.cpp:301-354 | symbol entries with running name offsets give back names, sections, values and sizes in chain order |
| ElfWriter.ListedAt | compiler/codegen/ELFGenerator.cpp:301-354 | what is listed of the k-th symbol: its name, size, kind, section and relative address, or an undefined symbol |
| ElfWriter.RelocationsRead | compiler/codegen/ELFGenerator.cpp:356-379 | relocation entries give back offsets, types and symbol numbers, one higher for the undefined symbol |
| ElfWriter.RelocationListedAt | compiler/codegen/ELFGenerator.cpp:356-379 | what is listed of the k-th relocation |
| ElfWriter.NameOffsets | compiler/codegen/ELFGenerator.cpp:445-472 | the section name offsets and lengths the generators add up |
| ElfWriter.LayoutDescribes | compiler/codegen/ELFGenerator.cpp:430-565 | types, flags, links, alignments and record sizes of all sections |
| ElfWriter.IdentDescribes | compiler/codegen/ELFGenerator.cpp:47-62 | the bytes of the identification |
| ElfWriter.BodiesFound | compiler/codegen/ELFGenerator.cpp:430-473 | every section header points at the bytes of its section |
| ElfWriter.ImageParses | compiler/codegen/ELFGenerator.cpp:209-268 | the reader finds exactly the sections that were laid out |
| ElfWriter.ImageRecovers | compiler/codegen/ELFGenerator.cpp:209-565 | for every well-formed input and both kinds of file, reading the bytes recovers the code as .text, the section names, the symbols and the relocations |
| ElfGenerator.ELFGenerator.constructor | compiler/codegen/ELFGenerator.cpp:383-428 | the file and program headers of both kinds |
| ElfGenerator.ELFGenerator.BuildExecutableSectionHeaders | compiler/codegen/ELFGenerator.cpp:430-473 | offsets computed in 32 bits do not wrap and are where the sections will be |
| ElfGenerator.ELFGenerator.BuildRelocatableSectionHeaders | compiler/codegen/ELFGenerator.cpp:516-565 | the same with the relocation section |
| ElfGenerator.ELFGenerator.WriteELFSymbolsToFile | compiler/codegen/ELFGenerator.cpp:301-354 | the loop over the chain writes the table, then the names it collected |
| ElfGenerator.ELFGenerator.WriteRelaEntriesToFile | compiler/codegen/ELFGenerator.cpp:356-379 | the loop over the relocations writes their table |
| ElfGenerator.ELFGenerator.EmitELFFile | compiler/codegen/ELFGenerator.cpp:209-268 | what is written is the whole image, or nothing if the file cannot be opened |
| ElfGenerator.ELFGenerator.Prepare | compiler/codegen/ELFGenerator.cpp:567-580 | the chains are taken over and the section headers become the layout for them |
| ElfGenerator.ELFGenerator.EmitELF | compiler/codegen/ELFGenerator.cpp:567-583 | from the inputs to a file whose reader recovers them |

## Left out

- MagicNumbers.SearchMagic: not for divisors -1, 0 and 1, which the callers treat separately.
- Spills.SpillAllocator.NoOverlap: says nothing about sizes 9 to 15 fitting their store, because they need not (see AllocateSpill).
- Spills.SpillAllocator.MarkedIsLiveReference: for 8-byte references only; with 4-byte references two references can share a store and one collected flag.
- AddressMatch.MatchSafeUnderOneTreeTop: sufficient only; it looks at every load of the trees, not at those relied on, for which see AddressTrust.MatchSafeExactly.
- AddressTrust.MatchSafeExactly: during evaluation the equivalence is for trees whose unread loads stand in one chain each; otherwise they can cancel in other ways (SharedLoadsCancel), and BalancedIsSafe and SafeIsEven give one direction each.
- LiveRegisters.LiveRegisters.SetAssociation: takes the mask of the real register as given; the shift Power applies to new vector registers and `setByteRegisterAssociation` are left out.
- LiveRegisters.LiveRegisters.RegisterIsDead: components of another kind are left out: `addRegisterPair` puts components on the pair's own list, and a component that is on another list would be unlinked from the wrong head.
- RealRegisters.RealRegister.SetState: `resetState`, which overrides a lock, and the assigned-once flags are left out.
- ElfWriter.ImageRecovers: 64-bit records only; the program header's file offset is written as in the source but nothing is claimed of it.
- MultiplyLowering.LowerMultiply: visiting order and visit counts of the tree walk around it.
- Whether maps other than slot bits, registers and byte-code info survive `close`, beyond the live-monitor bits.
- The GC map bits of locals, and the register maps of linkages, which `buildGCMapForInstruction` delegates.
- Assignment of GC indices to parameters and locals in `createStackAtlas`.
- Uncommoning of call constants, rematerialisation of comparisons, and the other tree lowerings.
- Register pressure simulation and the choice of registers: heuristics over state that is not part of this model.
- Replacing commoned references, byte-conversion marking and evaluation order: no promise precise enough to state.
- Tracing, debug counters, timers, option parsing, phase tables, the code cache and real file output.
