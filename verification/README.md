# SimpleCU and companions, modelled in Dafny

This project models the sequential core of a small C++ repository and proves properties about it. The repository holds safe memory reclamation managers and a few data-structure and allocator exercises. The parts modelled are:

- **QSBR manager** (`qsbr.dfy`, module `Qsbr`). Quiescent-state-based reclamation has these parts:
  - per-thread 32-bit epochs that are odd inside a critical zone;
  - a 16-bit masked snapshot of the critical epochs, attached to each retired value;
  - per-thread retired lists that `ReclaimLocal` splits into still-unsafe nodes, which are kept, and safe nodes, which are handed to the deleter.
- **QSBR guard** (`qsbr_guard.dfy`, module `QsbrGuard`). The RAII scope object over `EnterCriticalZone`/`ExitCriticalZone`, with move construction and move assignment.
- **Hazard-pointer manager** (`hazptr.dfy`, module `HazPtr`). Per-thread announcement cells, per-thread retired lists, and bounded, cached slot registration. `reclaim_local` frees the caller's retired pointers that no registered slot announces.
- **The older hazard-pointer manager** (`simple_cu.dfy`, module `SimpleCu`). It has the same state. It has no `unset_hazptr`; it has `delete_no_hazard_local`.
- **TaggedPtr** (`tagged_ptr.dfy`). A 48-bit pointer and a 16-bit counter packed into one 64-bit word, as `bv64`.
- **Expression parser** (`expr_parser.dfy`, `expr_calc.dfy`, `expr_roundtrip.dfy`). `parse` is shunting-yard conversion of infix text into space-separated postfix. `calc` is a stack evaluator of that postfix with C++ `int` semantics. The round trip covers fully parenthesised text only: `calc(parse(infix))` is the value of the expression tree whose every operation is written in parentheses. Precedence and left associativity on unparenthesised text are shown on concrete inputs (`1-2-3`, `1+2*3`, `2*3-4`), not for all inputs.
- **RPN parser registry** (`rpn_registry.dfy`). The operator, variable and function tables of `RPNExprParser`, the argument-count checking function wrapper, and `setExpr`.
- **BinaryHeap** (`binary_heap.dfy`). An array max-heap under `std::less`: `push`, `pop`, `front`, `build_heap`, and the push-then-drain demo.
- **B\*-tree node primitives** (`bstar.dfy`). The two binary searches, `ceil_half`, the occupancy bounds, the leaf part of `insert`, the leaf branch of the root split, and `find`, over trees of at most two levels.
- **Slab** (`slab.dfy`). An intrusive LIFO free list of fixed-size objects.
- **Implicit-list allocator** (`mm_malloc.dfy`). Header packing, bounded `sbrk`, `extend_heap`, the `mm_init` layout, first-fit `find_fit`, `place`, and the size computation of `mm_malloc`. The source's `mm_malloc` and `place` have three defects (see Findings). The model keeps the code as written (`MallocAsWritten`, `PlaceAsWritten`, `RequestAsWritten`) and exhibits each defect on it; the correctness lemmas for `place` and `mm_malloc` are about the corrected program (`Malloc`, `Place`, `Request`).

Modelling choices:

- State is immutable and every operation is a pure function returning the new state.
- Atomics are plain fields.
- Thread-local storage becomes an explicit thread-id parameter and a map from thread ids to slots.
- The deleter is not called; reclamation returns the list of values it would delete, in call order.
- Where the source has undefined behaviour, an `Undefined` or `NotModelled` outcome usually marks it instead of a precondition. This covers a `)` with no open parenthesis, an empty `std::stack`, signed overflow and division by zero. The exceptions, where undefined behaviour is excluded by a precondition instead, are listed under "Left out" by member name.
- `wrappers.dfy` holds the generic `Option`/`Result` types and sequence helpers.

## Model

| member | source | states |
|---|---|---|
| TaggedPtr.RawSetPtr | src/refcnt_impl_stack.cpp:24-26 | on the raw word, a pointer below 2^48 reads back exactly and the tag bits are untouched |
| TaggedPtr.RawSetTag | src/refcnt_impl_stack.cpp:28-30 | on the raw word, the new tag reads back and the pointer bits are untouched |
| TaggedPtr.RawGetPtr | src/refcnt_impl_stack.cpp:32-34 | on the raw word, the pointer is the word modulo 2^48, so it is below 2^48 |
| TaggedPtr.RawGetTag | src/refcnt_impl_stack.cpp:36-38 | on the raw word, the tag is the word divided by 2^48 (its high 16 bits) |
| TaggedPtr.GetPtr | src/refcnt_impl_stack.cpp:32-34 | `get_ptr` is the word modulo 2^48, so it is below 2^48 |
| TaggedPtr.GetTag | src/refcnt_impl_stack.cpp:36-38 | `get_tag` is the word's high 16 bits |
| TaggedPtr.Default | src/refcnt_impl_stack.cpp:16-17 | a default-constructed value has a null pointer and tag 0 |
| TaggedPtr.SetPtr | src/refcnt_impl_stack.cpp:24-26 | for a pointer below 2^48, `get_ptr` returns it and `get_tag` is unchanged |
| TaggedPtr.SetTag | src/refcnt_impl_stack.cpp:28-30 | `get_tag` returns the new tag and `get_ptr` is unchanged |
| TaggedPtr.Make | src/refcnt_impl_stack.cpp:19-22 | the two-argument constructor yields the given pointer (below 2^48) and tag |
| TaggedPtr.IncTag | src/refcnt_impl_stack.cpp:55-61 | the counter increment of `increase_head_count` adds one modulo 2^16, wrapping 0xFFFF to 0, and keeps the pointer |
| TaggedPtr.MasksPartition | src/refcnt_impl_stack.cpp:10-11 | the pointer mask is the low 48 bits and the tag mask is its complement; the masks are disjoint and together cover all 64 bits |
| TaggedPtr.RawFieldsDetermineWord | src/refcnt_impl_stack.cpp:32-38 | two raw words with equal pointer and tag fields are equal |
| TaggedPtr.FieldsDetermineWord | src/refcnt_impl_stack.cpp:32-38 | a tagged pointer is determined by `get_ptr` and `get_tag` |
| TaggedPtr.MakeIgnoresPrior | src/refcnt_impl_stack.cpp:19-22 | for a pointer below 2^48, whatever the uninitialised word held, the constructor gives the same value |
| TaggedPtr.SetPtrWidePointerLeaks | src/refcnt_impl_stack.cpp:24-26 | `set_ptr` does not mask its argument: a pointer with bit 48 set changes the tag |
| Qsbr.Mask | src/SingleHeader_SimpleCU_QSBR.h:192 | a masked epoch is below 2^16 and has the parity of the full epoch, so critical stays critical |
| Qsbr.IsCriticalEpoch | src/SingleHeader_SimpleCU_QSBR.h:209-211 | an epoch is critical iff it is odd; no contract of its own, used by `Qsbr.Mask` and `Qsbr.SnapshotCritical` |
| Qsbr.CtxRetire | src/SingleHeader_SimpleCU_QSBR.h:126-130 | retiring puts exactly one node, the value with its snapshot, in front of the old list and counts one more |
| Qsbr.AnyMatch | src/SingleHeader_SimpleCU_QSBR.h:140-146 | the inner scan finds a match iff some captured (slot, epoch) pair equals that slot's latest epoch |
| Qsbr.IsUnsafe | src/SingleHeader_SimpleCU_QSBR.h:140-146 | a node is unsafe iff the inner scan finds a match; no contract of its own, characterised by `Qsbr.AnyMatch` and `Qsbr.ReclaimKeepsExactlyUnsafe` |
| Qsbr.ReclaimWalk | src/SingleHeader_SimpleCU_QSBR.h:138-156 | the walk re-pushes the unsafe nodes (so they end reversed), hands the safe nodes to the deleter in list order, and counts the unsafe ones |
| Qsbr.ReclaimTail | src/SingleHeader_SimpleCU_QSBR.h:138-139 | the head and the rest of a list whose snapshots name valid slots also name valid slots |
| Qsbr.ReclaimKeep | src/SingleHeader_SimpleCU_QSBR.h:147-150 | an unsafe head joins the kept list and the unsafe count |
| Qsbr.ReclaimDrop | src/SingleHeader_SimpleCU_QSBR.h:151-154 | a safe head is appended to what the deleter receives |
| Qsbr.CtxReclaim | src/SingleHeader_SimpleCU_QSBR.h:132-158 | a reclamation keeps exactly the unsafe nodes (reversed), deletes exactly the safe ones, and leaves the counter equal to the number kept |
| Qsbr.UnsafeNodesAreUnsafe | src/SingleHeader_SimpleCU_QSBR.h:141-154 | the kept and deleted lists are drawn from the old list, one side unsafe and the other safe, and together they are a permutation of it |
| Qsbr.ReclaimPartition | src/SingleHeader_SimpleCU_QSBR.h:132-158 | every kept node is unsafe, every deleted node is safe, and each old node lands on exactly one side, so the deleter runs once per safe node |
| Qsbr.AllUnsafeKept | src/SingleHeader_SimpleCU_QSBR.h:147-150 | when every node is unsafe, all are kept and none is deleted |
| Qsbr.ReclaimIdempotent | src/SingleHeader_SimpleCU_QSBR.h:132-158 | a second reclamation against the same latest snapshot deletes nothing and keeps the same nodes and count |
| Qsbr.ReclaimKeepsExactlyUnsafe | src/SingleHeader_SimpleCU_QSBR.h:141-154 | a node is kept iff some captured pair still matches the latest epoch, and deleted iff none does |
| Qsbr.InUnsafe | src/SingleHeader_SimpleCU_QSBR.h:147-150 | an unsafe node of the list is on the unsafe list |
| Qsbr.InSafe | src/SingleHeader_SimpleCU_QSBR.h:151-154 | a safe node of the list is on the safe list |
| Qsbr.NewManager | src/SingleHeader_SimpleCU_QSBR.h:261-267 | the constructor starts every epoch at 0 with no thread registered |
| Qsbr.GetContext | src/SingleHeader_SimpleCU_QSBR.h:213-229 | a registered thread gets its own slot back; a new thread gets the next index while slots remain, and nothing once all are taken; no epoch, list or earlier registration changes |
| Qsbr.CriticalFrom | src/SingleHeader_SimpleCU_QSBR.h:231-243 | the snapshot loop from slot `i` collects masked critical epochs of registered slots, in ascending slot order |
| Qsbr.CriticalFromComplete | src/SingleHeader_SimpleCU_QSBR.h:231-243 | every registered slot from `i` on whose epoch is odd is captured |
| Qsbr.SnapshotCritical | src/SingleHeader_SimpleCU_QSBR.h:231-243 | the critical snapshot is, in ascending slot order, exactly the pairs (slot, masked epoch) of the registered slots whose epoch is odd |
| Qsbr.SnapshotFull | src/SingleHeader_SimpleCU_QSBR.h:246-253 | the full snapshot has `ThreadCnt` entries: the masked epoch of each registered slot, 0 for the rest |
| Qsbr.SnapshotsAgree | src/SingleHeader_SimpleCU_QSBR.h:231-253 | a critical snapshot checked against a full snapshot of the same state matches on every pair |
| Qsbr.NextEpoch | src/SingleHeader_SimpleCU_QSBR.h:178 | a 32-bit `fetch_add(1)` flips the parity: one more, or 0 after the largest value |
| Qsbr.BumpEpoch | src/SingleHeader_SimpleCU_QSBR.h:304-312 | advancing one slot's epoch changes that epoch alone |
| Qsbr.ReplaceCtxValid | src/SingleHeader_SimpleCU_QSBR.h:334-352 | installing a retired context whose snapshots name registered slots keeps the manager invariant |
| Qsbr.Enter | src/SingleHeader_SimpleCU_QSBR.h:304-312 | a registered caller's epoch advances by one, and the call succeeds iff it was even; the registration map, slot counter and thread count are those after `GetContext`; an unregistered caller fails and changes nothing |
| Qsbr.Exit | src/SingleHeader_SimpleCU_QSBR.h:314-322 | a registered caller's epoch advances by one, and the call succeeds iff it was odd; the registration map, slot counter and thread count are those after `GetContext`; an unregistered caller fails and changes nothing |
| Qsbr.RetiredCntLocal | src/SingleHeader_SimpleCU_QSBR.h:324-332 | the caller's retired counter, or 0 for a thread that could not register |
| Qsbr.Retire | src/SingleHeader_SimpleCU_QSBR.h:334-342 | the caller's list gains the value with the current critical snapshot in front and its counter grows by one; epochs and other lists are unchanged, and the registration map, slot counter and thread count are those after `GetContext`; an unregistered caller changes nothing |
| Qsbr.KeptBelow | src/SingleHeader_SimpleCU_QSBR.h:147-150 | the nodes a reclamation keeps name no slot the list did not |
| Qsbr.ReclaimLocal | src/SingleHeader_SimpleCU_QSBR.h:344-352 | the caller's list is reclaimed against a full snapshot of the current epochs; other lists and epochs are unchanged, and the registration map, slot counter and thread count are those after `GetContext`; an unregistered caller changes nothing |
| Qsbr.RegistrationBound | src/SingleHeader_SimpleCU_QSBR.h:213-229 | at most `ThreadCnt` threads ever hold a slot, and once all are taken a new thread gets none |
| Qsbr.DoubleEnterFails | src/SingleHeader_SimpleCU_QSBR.h:304-312 | from a quiescent state the first enter succeeds and a second one fails |
| Qsbr.DoubleExitFails | src/SingleHeader_SimpleCU_QSBR.h:314-322 | from inside a zone the first exit succeeds and a second one fails |
| Qsbr.EnterThenExit | src/SingleHeader_SimpleCU_QSBR.h:304-322 | an enter followed by an exit from an even epoch both succeed, and the epoch advances by two |
| Qsbr.UnregisteredIsNoOp | src/SingleHeader_SimpleCU_QSBR.h:304-352 | a thread that finds every slot taken fails enter and exit, reads a count of 0, and its retire and reclaim change nothing |
| Qsbr.RegistrationKept | src/SingleHeader_SimpleCU_QSBR.h:213-229 | a thread that gets a slot during enter, exit, retire or reclaim keeps that slot afterwards, and a thread already registered leaves the registration map unchanged |
| Qsbr.RetireCapturesCaller | src/SingleHeader_SimpleCU_QSBR.h:334-342 | retiring from inside a zone captures the caller's own slot and masked epoch |
| Qsbr.StillCriticalNotFreed | src/SingleHeader_SimpleCU_QSBR.h:344-352 | a node that captured a slot whose epoch has not moved since is kept, not deleted |
| QsbrGuard.Holding | src/SingleHeader_SimpleCU_QSBR.h:388-392 | the number of guards still holding the manager is at most the number of guards |
| QsbrGuard.HoldingUpdate | src/SingleHeader_SimpleCU_QSBR.h:376-392 | replacing one guard changes the holding count by that guard's difference |
| QsbrGuard.HoldingAppend | src/SingleHeader_SimpleCU_QSBR.h:365-374 | adding a guard adds one to the holding count iff it holds |
| QsbrGuard.Construct | src/SingleHeader_SimpleCU_QSBR.h:365-367 | constructing a guard enters the zone and adds a holding guard; the exits-plus-holders balance is kept |
| QsbrGuard.MoveConstruct | src/SingleHeader_SimpleCU_QSBR.h:371-374 | the new guard takes over the source's hold and the source no longer holds; the manager is untouched |
| QsbrGuard.MoveAssign | src/SingleHeader_SimpleCU_QSBR.h:376-386 | self-assignment changes nothing; otherwise the target exits first if it held, then takes over the source's hold and the source is emptied |
| QsbrGuard.Destroy | src/SingleHeader_SimpleCU_QSBR.h:388-392 | the destructor exits the zone iff the guard still holds the manager, and other guards are unchanged |
| QsbrGuard.AtMostOneExitPerGuard | src/SingleHeader_SimpleCU_QSBR.h:365-392 | in any reachable state there are no more exits than constructed guards, with equality iff no guard holds |
| QsbrGuard.ScopeBracketsZone | src/SingleHeader_SimpleCU_QSBR.h:365-392 | a guard's scope on a quiescent registered thread enters and exits exactly once, advancing the epoch by two |
| HazPtr.EmptyContext | src/SimpleCU_HazPtr.h:150-151 | a freshly claimed context has `SlotSize` cells, all null |
| HazPtr.ContainsFrom | src/SimpleCU_HazPtr.h:14-21 | the scan from cell `i` is true iff some later cell equals the pointer |
| HazPtr.Contains | src/SimpleCU_HazPtr.h:14-21 | `contains(p)` holds iff some cell equals `p`, including `nullptr` when a cell is empty |
| HazPtr.CtxSet | src/SimpleCU_HazPtr.h:23-26 | cell `idx` holds `p` afterwards and every other cell is unchanged |
| HazPtr.CtxUnset | src/SimpleCU_HazPtr.h:28-31 | cell `idx` is null afterwards and every other cell is unchanged |
| HazPtr.OutputFrom | src/SimpleCU_HazPtr.h:33-40 | the scan from cell `i` adds exactly the non-null later cells to the set |
| HazPtr.Output | src/SimpleCU_HazPtr.h:33-40 | `output` adds exactly the non-null cell values to the set and nothing else |
| HazPtr.CtxRetire | src/SimpleCU_HazPtr.h:69-73 | retiring puts exactly the pointer in front of the list and counts one more |
| HazPtr.Protected | src/SimpleCU_HazPtr.h:88-91 | the reference list of announced entries is no longer than the list; its contents are stated by `HazPtr.FiltersPartition` |
| HazPtr.Unprotected | src/SimpleCU_HazPtr.h:85-87 | the reference list of unannounced entries is no longer than the list; its contents are stated by `HazPtr.FiltersPartition` |
| HazPtr.FiltersPartition | src/SimpleCU_HazPtr.h:79-94 | the announced and unannounced filters select by membership in the set and together are a permutation of the list |
| HazPtr.DeleteWalk | src/SimpleCU_HazPtr.h:79-94 | the walk re-pushes announced pointers (so they end reversed) and frees the others in list order |
| HazPtr.DeleteFrees | src/SimpleCU_HazPtr.h:85-87 | an unannounced head is freed after those already freed |
| HazPtr.DeleteKeeps | src/SimpleCU_HazPtr.h:88-91 | an announced head is pushed back onto the kept list |
| HazPtr.DeleteNoHazard | src/SimpleCU_HazPtr.h:79-94 | `delete_no_hazard` frees exactly the retired pointers outside the set, keeps the others, and resets the counter to 0 |
| HazPtr.DeletePartition | src/SimpleCU_HazPtr.h:79-94 | a pointer is freed iff it was retired and not announced, kept iff it was retired and announced, and each retired entry goes exactly one way |
| HazPtr.CountUnderReports | src/SimpleCU_HazPtr.h:79-94 | after a pass that keeps a pointer, `get_cnt` reads 0 while the list is not empty |
| HazPtr.NewManager | src/SimpleCU_HazPtr.h:176-177 | the constructor registers no thread and claims no slot |
| HazPtr.MaxHazptrCntGlobal | src/SimpleCU_HazPtr.h:191-193 | the capacity is `SlotSize * ThreadCnt` |
| HazPtr.FirstFree | src/SimpleCU_HazPtr.h:145-159 | the claim loop finds the first slot from `i` on that has no owner, or reports that all are owned |
| HazPtr.GetContext | src/SimpleCU_HazPtr.h:133-162 | a cached thread gets its own slot without any change; an uncached thread, while fewer than `ThreadCnt` contexts exist, always gets the first unowned slot, with fresh empty contexts and one more context counted; once `ThreadCnt` contexts exist it gets nothing; no other slot changes |
| HazPtr.CoverBound | src/SimpleCU_HazPtr.h:141-158 | a thread cache that names every slot below `n` has at least `n` entries |
| HazPtr.FreeSlotExists | src/SimpleCU_HazPtr.h:141-158 | while fewer than `ThreadCnt` contexts are counted, the claim loop finds an unowned slot |
| HazPtr.Claim | src/SimpleCU_HazPtr.h:147-156 | a claim gives the slot its owner and fresh contexts and caches it for the caller, leaving other slots alone |
| HazPtr.ClaimValid | src/SimpleCU_HazPtr.h:145-158 | claiming a free slot for an uncached thread keeps the manager invariant |
| HazPtr.CollectFrom | src/SimpleCU_HazPtr.h:164-173 | the collection loop from slot `i` gathers exactly the non-null cells of owned later slots |
| HazPtr.CollectAll | src/SimpleCU_HazPtr.h:164-173 | the collected set is exactly the pointers announced by some owned slot |
| HazPtr.RetiredCntLocal | src/SimpleCU_HazPtr.h:195-202 | the caller's retired counter, or 0 for a thread that could not register |
| HazPtr.SetHazptr | src/SimpleCU_HazPtr.h:204-211 | a registered caller's cell `idx` holds `p`, nothing else changes, and the call returns true; otherwise it returns false and changes nothing; the registration of other threads and the slot count are only what `get_context` made them |
| HazPtr.UnsetHazptr | src/SimpleCU_HazPtr.h:213-220 | a registered caller's cell `idx` becomes null, nothing else changes, and the call returns true; otherwise it returns false and changes nothing; the registration of other threads and the slot count are only what `get_context` made them |
| HazPtr.Retire | src/SimpleCU_HazPtr.h:222-229 | the caller's own list gains the pointer in front and its counter grows by one; every other list, every announcement and the registration are only what `get_context` made them; an unregistered caller changes nothing |
| HazPtr.CheckHazptr | src/SimpleCU_HazPtr.h:231-238 | true iff the caller's own cells hold `p`; the cells of other threads are not consulted |
| HazPtr.ReclaimLocal | src/SimpleCU_HazPtr.h:240-247 | only the caller's list is filtered, against every announced pointer; other threads' lists, all announcements and the registration are unchanged |
| HazPtr.ReclaimPartition | src/SimpleCU_HazPtr.h:240-247 | after `get_context`, a pointer is freed iff it is on the caller's list and unannounced, kept iff on the list and announced, and freed plus kept is the old list as a multiset |
| HazPtr.RegistrationBound | src/SimpleCU_HazPtr.h:133-162 | at most `ThreadCnt` threads hold a slot, and a registered thread keeps its slot on every later call |
| HazPtr.UnregisteredIsNoOp | src/SimpleCU_HazPtr.h:195-247 | for a thread that finds every slot taken: set, unset and check return false, retire and reclaim change nothing, and the count is 0 |
| HazPtr.ReclaimFreesExactlyUnannounced | src/SimpleCU_HazPtr.h:240-247 | a pointer is freed by `reclaim_local` iff the caller retired it and no owned slot announces it |
| HazPtr.ReclaimFreesExactlyUnannouncedAll | src/SimpleCU_HazPtr.h:240-247 | the same, for every pointer at once |
| HazPtr.SetNullIsUnset | src/SimpleCU_HazPtr.h:204-220 | `set_hazptr(idx, nullptr)` has the same effect as `unset_hazptr(idx)` |
| HazPtr.AnnouncementProtects | src/SimpleCU_HazPtr.h:204-247 | after a registered thread announces a non-null pointer, no registered thread's reclamation frees it |
| SimpleCu.NewManager | src/SimpleCU.h:187-188 | the constructor registers no thread |
| SimpleCu.MaxHazptrCntGlobal | src/SimpleCU.h:202-204 | the capacity is `SlotSize * SlotCnt` |
| SimpleCu.RetiredCntLocal | src/SimpleCU.h:206-213 | a registered caller reads its own counter; a thread that cannot register reads 0 |
| SimpleCu.SetHazptr | src/SimpleCU.h:215-222 | the call succeeds iff the caller has or obtains a slot; then its cell `idx` holds `p`, its other cells keep their values (or are null for a caller that registers during the call), other slots' cells and every retired list are unchanged; a thread that cannot register changes nothing |
| SimpleCu.Retire | src/SimpleCU.h:224-231 | a registered caller's list gains the pointer in front and its counter grows by one; a caller that registers during the call gets the list `[p]` with count 1; other slots' lists and cells are unchanged; a thread that cannot register changes nothing |
| SimpleCu.CheckHazptr | src/SimpleCU.h:233-240 | a registered caller learns whether its own cells hold `p`; a thread that cannot register gets false |
| SimpleCu.DeleteNoHazardLocal | src/SimpleCU.h:242-249 | a registered caller frees exactly its retired pointers that no registered slot announces and keeps exactly the announced ones, in reverse order; freed plus kept is the old list; its counter resets to 0; other lists, all cells and the registration are unchanged; a caller that registers during the call frees nothing; a thread that cannot register changes nothing |
| SimpleCu.ClearByNull | src/SimpleCU.h:51-54 | announcing and then setting the same cell to null leaves the cell null, the only way to clear it in this manager |
| SimpleCu.RetireThenDelete | src/SimpleCU.h:224-249 | a registered thread that retires `p` and then calls `delete_no_hazard_local` frees `p` iff no slot announces it, and otherwise keeps it on its list |
| ExprParser.Priority | lib/exprparser.h:14-18 | `+` and `-` have priority 1, `*` and `/` have 2, every other character -1; it is positive exactly for the operators |
| ExprParser.OpenCount | lib/exprparser.h:37-49 | the number of open parentheses on the stack is 0 iff none is there |
| ExprParser.PopForOp | lib/exprparser.h:50-59 | before pushing an operator, the loop pops exactly the leading operators of equal or higher priority above the nearest `(` |
| ExprParser.PopToParen | lib/exprparser.h:41-49 | on `)`, the loop pops exactly the entries above the nearest `(` |
| ExprParser.DigitRunEnd | lib/exprparser.h:31-36 | a number token is the maximal run of digits from its start |
| ExprParser.ParseStep | lib/exprparser.h:25-62 | each iteration consumes input; it stops early only on an illegal character (`throw 1`) or on `)` with an empty stack (undefined) |
| ExprParser.StepInv | lib/exprparser.h:25-62 | an iteration keeps the stack to operators and `(`, and the output to spaced tokens |
| ExprParser.StepTracksDepth | lib/exprparser.h:25-62 | the open parentheses on the stack track the depth of the text read, and a stopped iteration means an illegal character |
| ExprParser.ParseFrom | lib/exprparser.h:25-71 | the only exception the main loop raises is code 1 |
| ExprParser.ParseFromShape | lib/exprparser.h:25-71 | the loop returns tokens of digits and operators, each followed by one space, and throws only on an illegal character |
| ExprParser.ParseFromOutcome | lib/exprparser.h:25-71 | once no `)` can pop an empty stack, the loop throws 1 iff an illegal character follows, and returns text without parentheses when the parentheses balance |
| ExprParser.FlushChars | lib/exprparser.h:64-68 | emptying the stack at the end emits spaced tokens, and no parentheses when none was open |
| ExprParser.Parse | lib/exprparser.h:20-72 | every token of the output is followed by one space; `throw 1` happens iff some character is illegal (given no unmatched `)`); balanced legal input gives output without parentheses |
| ExprParser.ParseStartOutcome | lib/exprparser.h:20-72 | `parse` from the start never reaches the undefined case without an unmatched `)`, and throws 1 iff some character is illegal |
| ExprCalc.TokenEnd | lib/exprparser.h:79-88 | a token runs to the next space or the end of the text |
| ExprCalc.Tokens | lib/exprparser.h:79-88 | the tokens `calc` visits are non-empty and hold no space |
| ExprCalc.TokensCons | lib/exprparser.h:79-88 | a token followed by a space is cut off the front as one token |
| ExprCalc.TokensOfJoin | lib/exprparser.h:79-88 | tokenising text written as tokens each followed by one space gives back the tokens |
| ExprCalc.Stoi | lib/exprparser.h:90-91 | `stoi` of a digit token is its decimal value, or `out_of_range` above `INT_MAX` |
| ExprCalc.NatToDigits | lib/exprparser.h:90-91 | every natural has a decimal digit string denoting it |
| ExprCalc.StoiOfDigits | lib/exprparser.h:90-91 | `stoi` reads back every non-negative `int` written in decimal |
| ExprCalc.TruncDiv | lib/exprparser.h:109-111 | C++ `/` truncates toward zero: the quotient's magnitude is the magnitudes' quotient and its sign is negative iff the operand signs differ |
| ExprCalc.TruncDivRemainder | lib/exprparser.h:109-111 | the remainder left by truncating division takes the sign of the dividend |
| ExprCalc.Checked | lib/exprparser.h:94-116 | a result outside `int` is signed overflow, which is undefined |
| ExprCalc.ApplyOp | lib/exprparser.h:94-116 | the switch computes `a op b` within `int`, throws 2 iff the operator is not one of the four, and divides in an undefined way iff `b` is 0 or the quotient is `INT_MIN / -1` |
| ExprCalc.DivOverflow | lib/exprparser.h:109-111 | the only overflowing `int` quotient is `INT_MIN / -1` |
| ExprCalc.EvalTokens | lib/exprparser.h:79-121 | the token loop yields an `int` or throws 2 |
| ExprCalc.Calc | lib/exprparser.h:74-122 | `calc` yields an `int` or throws 2, and reading the top of an empty stack is undefined |
| ExprCalc.CalcNumber | lib/exprparser.h:90-121 | `calc("n ")` is `n` for every non-negative `int` `n` |
| ExprRoundTrip.Eval | lib/exprparser.h:94-116 | the reference value of an expression tree is an `int`, unless it overflows or divides by zero (undefined) or a literal exceeds `INT_MAX` |
| ExprRoundTrip.PostTokensAreTokens | lib/exprparser.h:64-68 | the postfix tokens of a tree are non-empty and hold no space |
| ExprRoundTrip.PostfixJoined | lib/exprparser.h:31-68 | the postfix text of a tree is its tokens, each followed by one space |
| ExprRoundTrip.OpenStep | lib/exprparser.h:37-40 | an iteration on `(` pushes it and emits nothing |
| ExprRoundTrip.OpStep | lib/exprparser.h:50-59 | an operator read right after `(` pops nothing and is pushed |
| ExprRoundTrip.CloseStep | lib/exprparser.h:41-49 | `)` over one operator and its `(` emits that operator and a space and drops the `(` |
| ExprRoundTrip.ParseNum | lib/exprparser.h:31-36 | a literal is copied to the output followed by one space |
| ExprRoundTrip.ParseThrough | lib/exprparser.h:25-62 | reading the fully parenthesised text of any tree, from anywhere, appends its postfix text and leaves the stack as it was |
| ExprRoundTrip.ParseBin | lib/exprparser.h:37-59 | an operation in parentheses appends both operands' postfix and then the operator |
| ExprRoundTrip.ParseLeft | lib/exprparser.h:37-59 | reading `(`, the left operand and the operator leaves the operator over the `(` on the stack |
| ExprRoundTrip.ParseRight | lib/exprparser.h:41-49 | reading the right operand and `)` emits the operator and restores the stack |
| ExprRoundTrip.ParseInfix | lib/exprparser.h:20-72 | `parse` of a tree's fully parenthesised infix text is that tree's postfix text |
| ExprRoundTrip.EvalThrough | lib/exprparser.h:79-121 | running a tree's postfix tokens on any stack pushes the tree's value and then runs the remaining tokens, or fails as the tree's value fails |
| ExprRoundTrip.CalcPostfix | lib/exprparser.h:74-122 | `calc` of a tree's postfix text is the tree's value |
| ExprRoundTrip.CalcAfterParse | lib/exprparser.h:20-122 | for the fully parenthesised text of any tree, `calc(parse(infix))` succeeds on parsing and computes the tree's value, with C++ truncating division |
| ExprRoundTrip.StepTo | lib/exprparser.h:25-62 | one iteration that continues from a state leaves the rest of the parse to the next state |
| ExprRoundTrip.StoiDigit | lib/exprparser.h:90-91 | `stoi` of a single digit is that digit's value |
| ExprRoundTrip.ParseMinusMinus | lib/exprparser.h:50-59 | `parse("1-2-3")` pops the first `-` before pushing the second, giving `1 2 - 3 - ` |
| ExprRoundTrip.LoopMinusMinus | lib/exprparser.h:25-68 | the main loop on `1-2-3`, then the flush, returns `1 2 - 3 - ` |
| ExprRoundTrip.PostfixMinusMinus | lib/exprparser.h:64-68 | the tree `(1-2)-3` is well formed and its postfix text is `1 2 - 3 - ` |
| ExprRoundTrip.EvalMinusMinus | lib/exprparser.h:79-121 | `calc("1 2 - 3 - ")` is -4 |
| ExprRoundTrip.LeftAssociative | lib/exprparser.h:20-122 | `1-2-3` parses as the postfix of `(1-2)-3` and computes -4, so equal priorities associate to the left |
| ExprRoundTrip.ParsePlusTimes | lib/exprparser.h:50-68 | `parse("1+2*3")` keeps `+` under `*`, giving `1 2 3 * + ` |
| ExprRoundTrip.LoopPlusTimes | lib/exprparser.h:25-68 | the main loop on `1+2*3`, then the flush, returns `1 2 3 * + ` |
| ExprRoundTrip.PostfixPlusTimes | lib/exprparser.h:64-68 | the tree `1+(2*3)` is well formed and its postfix text is `1 2 3 * + ` |
| ExprRoundTrip.EvalPlusTimes | lib/exprparser.h:79-121 | `calc("1 2 3 * + ")` is 7 |
| ExprRoundTrip.MultiplicationBindsTighter | lib/exprparser.h:20-122 | `1+2*3` parses as the postfix of `1+(2*3)` and computes 7 |
| ExprRoundTrip.ParseTimesMinus | lib/exprparser.h:50-59 | `parse("2*3-4")` pops `*` before pushing `-`, giving `2 3 * 4 - ` |
| ExprRoundTrip.LoopTimesMinus | lib/exprparser.h:25-68 | the main loop on `2*3-4`, then the flush, returns `2 3 * 4 - ` |
| ExprRoundTrip.PostfixTimesMinus | lib/exprparser.h:64-68 | the tree `(2*3)-4` is well formed and its postfix text is `2 3 * 4 - ` |
| ExprRoundTrip.EvalTimesMinus | lib/exprparser.h:79-121 | `calc("2 3 * 4 - ")` is 2 |
| ExprRoundTrip.HigherPriorityPoppedFirst | lib/exprparser.h:20-122 | `2*3-4` parses as the postfix of `(2*3)-4` and computes 2 |
| RpnRegistry.MakeFunctor | lib/RPNExprParser.h:17-22 | the wrapper constructor throws iff a count is given without `limitedArgc`, and otherwise stores its arguments |
| RpnRegistry.CallFunctor | lib/RPNExprParser.h:31-34 | a call succeeds iff every wrapper in the chain admits the argument count, and then returns the wrapped function applied to the arguments |
| RpnRegistry.MadeFunctorAccepts | lib/RPNExprParser.h:17-34 | a constructed wrapper around a plain function rejects a call iff it is limited and the count differs |
| RpnRegistry.WrappedChecksBoth | lib/RPNExprParser.h:17-34 | wrapping a wrapper checks both the outer and the inner limit |
| RpnRegistry.LessIsPriorityOrder | lib/RPNExprParser.h:58-60 | `operator<` is a strict weak order in which operators are equivalent iff their priorities are equal; the function plays no part |
| RpnRegistry.NewParser | lib/RPNExprParser.h:86-97 | the converting constructor stores the expression, delimiter and tables, with an empty postfix form and a zero result |
| RpnRegistry.DefaultParser | lib/RPNExprParser.h:85 | the default parser has empty tables and the space delimiter |
| RpnRegistry.AddOp | lib/RPNExprParser.h:102-105 | throws iff the name is present; otherwise adds exactly that entry and leaves the other tables alone |
| RpnRegistry.AddVar | lib/RPNExprParser.h:106-109 | throws iff the name is present; otherwise adds exactly that entry and leaves the other tables alone |
| RpnRegistry.AddFunc | lib/RPNExprParser.h:110-113 | throws for a present name first, then for a count given without `limitedArgc`; otherwise adds exactly that entry |
| RpnRegistry.RemoveOp | lib/RPNExprParser.h:114 | erases that key alone, present or not |
| RpnRegistry.RemoveVar | lib/RPNExprParser.h:115 | erases that key alone, present or not |
| RpnRegistry.RemoveFunc | lib/RPNExprParser.h:116 | erases that key alone, present or not |
| RpnRegistry.ClearOp | lib/RPNExprParser.h:117 | empties the operator table only |
| RpnRegistry.ClearVar | lib/RPNExprParser.h:118 | empties the variable table only |
| RpnRegistry.ClearFuncs | lib/RPNExprParser.h:119 | empties the function table only |
| RpnRegistry.SetExpr | lib/RPNExprParser.h:120-124 | replaces the expression, clears the postfix form, resets the result, and keeps the stored delimiter because the parameter shadows it |
| RpnRegistry.AddOpRemoveOp | lib/RPNExprParser.h:102-114 | adding a new operator and removing it gives back the parser |
| RpnRegistry.RemoveOpThenAdd | lib/RPNExprParser.h:102-114 | after a removal the name can be added again |
| RpnRegistry.AddVarRemoveVar | lib/RPNExprParser.h:106-115 | adding a new variable and removing it gives back the parser |
| RpnRegistry.RemoveVarThenAdd | lib/RPNExprParser.h:106-115 | after a removal the variable is added again with the new value |
| RpnRegistry.AddFuncRemoveFunc | lib/RPNExprParser.h:110-116 | adding a new function and removing it gives back the parser |
| RpnRegistry.AddOpTwiceThrows | lib/RPNExprParser.h:102-105 | a second add of the same operator name throws |
| RpnRegistry.TablesIndependent | lib/RPNExprParser.h:102-119 | clearing or removing in one table never changes whether an add to another table throws |
| RpnRegistry.SetExprIdempotent | lib/RPNExprParser.h:120-124 | setting the same expression twice is setting it once |
| BinaryHeap.Swap | BinaryHeap.h:63 | a swap exchanges two elements, keeps the rest and the multiset |
| BinaryHeap.HeapMax | BinaryHeap.h:89-91 | no element of a heap exceeds the root |
| BinaryHeap.Front | BinaryHeap.h:89-91 | `front` of a non-empty heap is an element that no element exceeds |
| BinaryHeap.Push | BinaryHeap.h:58-66 | `push` keeps the max-heap property, grows the size by one, and adds exactly the new element to the multiset |
| BinaryHeap.SiftUpSwap | BinaryHeap.h:61-65 | swapping with a smaller parent moves the single violation one level up |
| BinaryHeap.LargerChild | BinaryHeap.h:74-77 | the child compared against is the larger one, the right one when it is larger |
| BinaryHeap.SiftSwap | BinaryHeap.h:78-82 | swapping with the larger child when it is greater moves the violation one level down |
| BinaryHeap.SiftStop | BinaryHeap.h:83-85 | when the node is no less than its larger child, its subtree is a heap |
| BinaryHeap.SiftDown | BinaryHeap.h:72-86 | sifting down makes the subtree a heap, keeps the multiset, and touches no earlier index |
| BinaryHeap.MoveLastToFront | BinaryHeap.h:69-71 | moving the last element to the front and dropping the last removes exactly one copy of the front |
| BinaryHeap.Pop | BinaryHeap.h:68-87 | `pop` on an empty heap changes nothing; otherwise it removes exactly one copy of the front and keeps the heap property |
| BinaryHeap.BuildHeap | BinaryHeap.h:13-32 | `build_heap` on a non-empty vector permutes it into a heap |
| BinaryHeap.RangeMembers | hello.cpp:6-14 | `1..n` holds exactly the integers between its bounds |
| BinaryHeap.CountdownAt | hello.cpp:6-14 | the countdown holds `n, n-1, ..., 1` in that order |
| BinaryHeap.FrontOfRange | hello.cpp:6-14 | a heap holding exactly `1..m` has `m` in front, and removing it leaves `1..m-1` |
| BinaryHeap.PushAll | hello.cpp:6-9 | pushing `1..n` into an empty heap gives a heap holding exactly `1..n` |
| BinaryHeap.DrainAll | hello.cpp:10-14 | reading the front and popping a heap of `1..n` until empty reads `n, n-1, ..., 1` |
| BinaryHeap.FrontThenPop | hello.cpp:10-14 | one round on a heap of `1..m` reads `m` and leaves a heap of `1..m-1` |
| BinaryHeap.PopRange | hello.cpp:10-14 | popping a heap of `1..m` leaves `1..m-1` |
| BinaryHeap.PushThenDrain | hello.cpp:6-14 | the demo reads `n, n-1, ..., 1` after pushing `1..n` |
| BStar.UpperFrom | src/bstar_wip.cpp:34-47 | the search loop on a window returns a point in the window at which sorted keys split into those `<= k` and those `> k` |
| BStar.UpperBound | src/bstar_wip.cpp:34-47 | `find_idx_ptr_index_` returns the upper bound of `k` in sorted keys |
| BStar.LowerFrom | src/bstar_wip.cpp:49-62 | the search loop on a window returns a point in the window at which sorted keys split into those `< k` and those `>= k` |
| BStar.LowerBound | src/bstar_wip.cpp:49-62 | `find_data_ptr_index_` returns the lower bound of `k` in sorted keys |
| BStar.UpperSplitUnique | src/bstar_wip.cpp:34-47 | the upper split point of sorted keys is unique, so the search returns it |
| BStar.LowerSplitUnique | src/bstar_wip.cpp:49-62 | the lower split point of sorted keys is unique, so the search returns it |
| BStar.BoundsBracketKey | src/bstar_wip.cpp:347-350 | with unique keys, `k` is present iff the bounds differ, and then they bracket its one occurrence |
| BStar.CeilHalf | src/bstar_wip.cpp:71-73 | `ceil_half(a, b)` is `(a + b + 1) / 2` without overflowing `size_t` |
| BStar.MinKeys | src/bstar_wip.cpp:66 | `MIN_KEYS` is two thirds of `M - 1`, rounded up |
| BStar.MaxKeys | src/bstar_wip.cpp:67 | `MAX_KEYS` is `M - 2` |
| BStar.Overflow | src/bstar_wip.cpp:75-77 | `overflow_`: at least `MAX_KEYS` keys; no contract of its own, its band is stated by `BStar.OccupancyBands` |
| BStar.WillOverflow | src/bstar_wip.cpp:78-80 | `will_overflow_` on `ceil_half` of two counts; no contract of its own, related to `Overflow` by `BStar.SharedOccupancy` |
| BStar.Underflow | src/bstar_wip.cpp:82-84 | `underflow_`: fewer than `MIN_KEYS` keys; no contract of its own, its band is stated by `BStar.OccupancyBands` |
| BStar.WillUnderflow | src/bstar_wip.cpp:85-87 | `will_underflow_` on `ceil_half` of two counts; no contract of its own, related to `Underflow` by `BStar.SharedOccupancy` |
| BStar.OccupancyBands | src/bstar_wip.cpp:14-87 | for `M >= 5`, no count both overflows and underflows, a non-full node has room for one more key, and the halves of a full node do not overflow |
| BStar.SharedOccupancy | src/bstar_wip.cpp:71-87 | two siblings shared out evenly overflow or underflow exactly when a node of `ceil_half` keys does |
| BStar.ContentsAt | src/bstar_wip.cpp:347-359 | a valid leaf stores each key with the data pointer beside it |
| BStar.ContentsDomain | src/bstar_wip.cpp:347-359 | a valid leaf stores exactly its keys |
| BStar.Splice | src/bstar_wip.cpp:352-357 | the two `memmove`s and stores put `x` at `i`, with the elements before it in place and those after it shifted up one |
| BStar.SpliceMembers | src/bstar_wip.cpp:352-357 | splicing adds exactly the one element |
| BStar.LeafInsert | src/bstar_wip.cpp:347-359 | the leaf insert keeps keys and pointers in step and the chain link; on failure the leaf is unchanged, on success it grows by one |
| BStar.SpliceSorted | src/bstar_wip.cpp:352-357 | splicing a key in at its bound keeps the keys unique and ascending |
| BStar.SpliceContents | src/bstar_wip.cpp:352-357 | splicing a new pair into a valid leaf adds exactly that pair to what it stores |
| BStar.LeafInsertCorrect | src/bstar_wip.cpp:347-359 | insertion succeeds iff the key is new, keeps the leaf valid, and then stores the new pair over the old contents |
| BStar.EmptyTree | src/bstar_wip.cpp:306-308 | the constructor builds an empty, unchained leaf root |
| BStar.SplitLeafRoot | src/bstar_wip.cpp:195-219 | the root split makes an index root with one key over the old root and the new node |
| BStar.SplitHalvesCorrect | src/bstar_wip.cpp:195-207 | the left half keeps the first `(n+1)/2` keys and the right half gets the `n/2` others; both are valid, every left key is below the right's first, and together they store what the leaf did |
| BStar.SplitLeafRootShape | src/bstar_wip.cpp:195-219 | the new root's one key is the right half's first key, its children are [old root, new node], the old root links to the new node, and the new node's link is null |
| BStar.HalvesSorted | src/bstar_wip.cpp:195-207 | both halves of unique ascending keys stay so, and the cut key separates them |
| BStar.ConcatContents | src/bstar_wip.cpp:195-207 | a valid leaf cut in two stores the union of what the halves store |
| BStar.EmptyTreeWellFormed | src/bstar_wip.cpp:306-308 | the empty tree is well formed and stores nothing |
| BStar.SplitWellFormed | src/bstar_wip.cpp:195-219 | splitting a full leaf root gives a well-formed two-level tree that stores what the leaf stored |
| BStar.OneKeyBounds | src/bstar_wip.cpp:34-62 | a one-key index sends `k` left iff it is below the key (upper bound) or at most the key (lower bound) |
| BStar.InsertTarget | src/bstar_wip.cpp:329-346 | the descent reaches one of the root's leaves |
| BStar.InsertBelow | src/bstar_wip.cpp:329-359 | an insert below an index root keeps the index node unchanged |
| BStar.Insert | src/bstar_wip.cpp:326-360 | an insert into a leaf root is always modelled (with a split first when full) |
| BStar.InsertIntoLeft | src/bstar_wip.cpp:329-359 | a key below the separator goes into the left leaf; with room there the tree stays well formed and stores the new pair |
| BStar.InsertIntoRight | src/bstar_wip.cpp:329-359 | a key at or above the separator goes into the right leaf likewise |
| BStar.InsertBelowCorrect | src/bstar_wip.cpp:329-359 | below an index root, the insert is unmodelled iff the target leaf is full; otherwise it succeeds iff the key is new and stores the new pair |
| BStar.InsertCorrect | src/bstar_wip.cpp:326-360 | `insert` keeps the tree well formed, is unmodelled only when a non-root leaf is full, succeeds iff the key is new, and then adds exactly the new pair |
| BStar.LeafHitsCorrect | src/bstar_wip.cpp:362-377 | the pointers one leaf contributes for `k` are the stored one or none |
| BStar.ScanLast | src/bstar_wip.cpp:368-376 | scanning the last leaf of a chain yields its own hits |
| BStar.ScanFromLeft | src/bstar_wip.cpp:362-377 | scanning from the left leaf, for a key at or below the separator, finds what the tree stores |
| BStar.ScanFromRight | src/bstar_wip.cpp:362-377 | scanning from the right leaf, for a key above the separator, finds what the tree stores |
| BStar.FindCorrect | src/bstar_wip.cpp:362-377 | on a well-formed tree, `find` returns the pointer stored for `k`, or nothing |
| BStar.InsertThenFind | src/bstar_wip.cpp:326-377 | after an insert, `find` returns the new pointer, or the old one when the key was present |
| BStar.LeafHits | src/bstar_wip.cpp:369-373 | the data pointers between the lower and the upper bound of `k` in one leaf; no contract of its own, characterised by `BStar.LeafHitsCorrect` |
| BStar.Scan | src/bstar_wip.cpp:368-375 | the leaf-chain loop of `find`; no contract of its own, characterised by `BStar.ScanLast`, `BStar.ScanFromLeft` and `BStar.ScanFromRight` |
| BStar.Find | src/bstar_wip.cpp:362-377 | descend by the lower bound, then scan the chain; no contract of its own, characterised by `BStar.FindCorrect` |
| Slab.ObjAscending | src/slab.cpp:11-25 | the objects lie in ascending address order |
| Slab.Links | src/slab.cpp:17-24 | the initialisation loop links each object to the next and the last to `NULL`, writing nothing below |
| Slab.Init | src/slab.cpp:11-25 | `slab_init` sets the free list head to the buffer and keeps the buffer and object size |
| Slab.Objects | src/slab.cpp:11-25 | object `i` is at `memory + i * obj_size` |
| Slab.ObjectsDistinct | src/slab.cpp:11-25 | the objects are distinct, ascending and never `NULL` |
| Slab.LinksChain | src/slab.cpp:17-24 | links in every object make a chain from any object to the last and then `NULL` |
| Slab.InitChain | src/slab.cpp:11-25 | after `slab_init` the free list visits every object in address order and ends in `NULL` |
| Slab.Alloc | src/slab.cpp:27-31 | `slab_alloc` returns `NULL` iff the free list is empty, and then changes nothing |
| Slab.Free | src/slab.cpp:34-37 | `slab_free` makes `obj` the head, linked to the old head |
| Slab.AllocPops | src/slab.cpp:27-31 | allocation returns the head of the free list and leaves the rest as the free list |
| Slab.ChainFrame | src/slab.cpp:34-37 | a write outside the free list leaves it intact |
| Slab.FreePushes | src/slab.cpp:34-37 | freeing an object not on the free list pushes it on the front |
| Slab.FreeThenAlloc | src/slab.cpp:27-37 | allocating right after freeing `obj` returns `obj` and restores the old free list |
| Slab.AllocMany | src/slab.cpp:27-31 | `n` allocations return `n` results and never change the buffer or object size |
| Slab.AllocDrains | src/slab.cpp:27-31 | allocating as often as the free list is long returns its objects in order and empties it |
| Slab.InitThenAllocAll | src/slab.cpp:11-37 | after `slab_init`, exactly `num_objs` allocations succeed in address order and the next returns `NULL` |
| MmMalloc.Pack | src/mm_malloc_v1.cpp:30-35 | packing a 16-aligned size with an alloc bit reads back both |
| MmMalloc.LowBits | src/mm_malloc_v1.cpp:30-35 | the alloc bit of a 16-aligned size lands in the low bit only |
| MmMalloc.GetSize | src/mm_malloc_v1.cpp:49-52 | `get_size` is the 16-aligned part of the word, within 16 below it |
| MmMalloc.GetAlloc | src/mm_malloc_v1.cpp:54-57 | `get_alloc` is 1 iff the word is odd |
| MmMalloc.OrBitEven | src/mm_malloc_v1.cpp:33-35 | OR-ing a bit into an even word is adding it |
| MmMalloc.OrBitOdd | src/mm_malloc_v1.cpp:33-35 | OR-ing 1 into an odd word leaves it |
| MmMalloc.GetSizeIsMask | src/mm_malloc_v1.cpp:49-52 | `word & ~0xF` is the word less its remainder mod 16 |
| MmMalloc.GetAllocIsMask | src/mm_malloc_v1.cpp:54-57 | `word & 0x1` is the word mod 2 |
| MmMalloc.MemSbrk | src/mm_malloc_v1.cpp:101-110 | `mem_sbrk` fails iff the break would pass the heap end, and then sets `ENOMEM` and keeps the break; otherwise it returns the old break and moves it |
| MmMalloc.SbrkBounded | src/mm_malloc_v1.cpp:101-110 | the break never passes the end of the heap |
| MmMalloc.SbrkAdditive | src/mm_malloc_v1.cpp:101-110 | two successful calls move the break as far as one call asking for both |
| MmMalloc.Put | src/mm_malloc_v1.cpp:42-46 | a stored word reads back |
| MmMalloc.FtrAddr | src/mm_malloc_v1.cpp:64-68 | the footer address is `bp` plus the header's size less 16; no contract of its own, used by `MmMalloc.Mark` |
| MmMalloc.NextBp | src/mm_malloc_v1.cpp:70-75 | the next block is `bp` plus the header's size; no contract of its own, used by `MmMalloc.Chain` |
| MmMalloc.PrevBp | src/mm_malloc_v1.cpp:78-82 | the previous block is `bp` less the size in the footer before it; no contract of its own, used to decide whether `coalesce` has nothing to merge after an extension in `MmMalloc.Malloc` |
| MmMalloc.Mark | src/mm_malloc_v1.cpp:252-253 | a block's header and footer both record its size and alloc bit |
| MmMalloc.MarkFrame | src/mm_malloc_v1.cpp:252-253 | marking stores nothing but the header and the footer |
| MmMalloc.ExtendBytes | src/mm_malloc_v1.cpp:174 | an odd word count is rounded up to even, so the extension is 16-aligned and under 16 bytes more than asked |
| MmMalloc.ExtendHeap | src/mm_malloc_v1.cpp:170-187 | the extension fails iff the heap end would be passed; otherwise the new block starts at the old break and the break moves by the rounded size |
| MmMalloc.ExtendHeapShape | src/mm_malloc_v1.cpp:170-187 | a successful extension leaves a free block of the rounded size followed by a new epilogue |
| MmMalloc.ExtendHeapFrame | src/mm_malloc_v1.cpp:170-187 | a successful extension changes no word below the old epilogue |
| MmMalloc.InitLayout | src/mm_malloc_v1.cpp:203-211 | `mm_init` writes a zero pad, the prologue header and footer (16, allocated), and the epilogue (0, allocated) |
| MmMalloc.InitHeap | src/mm_malloc_v1.cpp:194-221 | after `mm_init` the block walk meets the prologue and one free 4096-byte block, then stops at the epilogue |
| MmMalloc.InitWords | src/mm_malloc_v1.cpp:194-221 | the words `mm_init` leaves: pad, prologue, the free block's header and footer, and the epilogue |
| MmMalloc.InitIsExtension | src/mm_malloc_v1.cpp:194-221 | `mm_init` is the layout followed by an extension of `CHUNKSIZE` bytes |
| MmMalloc.MmInit | src/mm_malloc_v1.cpp:194-221 | `mm_init`; no contract of its own, characterised by `MmMalloc.InitLayout`, `MmMalloc.InitHeap` and `MmMalloc.InitWords` |
| MmMalloc.FindFit | src/mm_malloc_v1.cpp:229-239 | `find_fit` returns the first free block in address order that is large enough, and nothing iff no block of the walk fits |
| MmMalloc.Chain | src/mm_malloc_v1.cpp:229-239 | the block walk `find_fit` follows from `bp` to the epilogue; no contract of its own, bounded below by `MmMalloc.ChainFrom` |
| MmMalloc.ChainFrom | src/mm_malloc_v1.cpp:229-239 | the walk never goes below its start |
| MmMalloc.FitAfterInit | src/mm_malloc_v1.cpp:194-239 | after `mm_init`, every request up to `CHUNKSIZE` fits in the free block |
| MmMalloc.NoFitAfterInit | src/mm_malloc_v1.cpp:194-239 | after `mm_init`, no request above `CHUNKSIZE` fits |
| MmMalloc.Diff | src/mm_malloc_v1.cpp:249-251 | the `size_t` difference is the plain difference when it does not wrap |
| MmMalloc.PlaceAsWritten | src/mm_malloc_v1.cpp:247-261 | `place` as written; no contract of its own, its defects are stated by `MmMalloc.PlaceOddLosesRest`, `MmMalloc.PlaceAsWrittenShortens` and `MmMalloc.PlaceAsWrittenAfterInit` |
| MmMalloc.Place | src/mm_malloc_v1.cpp:247-261 | corrected (see Findings): `place` recording the whole block size when it does not split; no contract of its own, characterised by `MmMalloc.PlaceCorrect` and `MmMalloc.PlaceKeepsList` |
| MmMalloc.PlaceIsSplit | src/mm_malloc_v1.cpp:249-256 | with room for a remainder of at least 32 bytes, `place` splits the block |
| MmMalloc.SplitFirst | src/mm_malloc_v1.cpp:252-253 | a split gives an allocated block of the request size with a matching footer |
| MmMalloc.SplitRest | src/mm_malloc_v1.cpp:254-256 | then a free block of the rest with a matching footer |
| MmMalloc.SplitFrame | src/mm_malloc_v1.cpp:251-256 | a split stores nothing outside the two blocks |
| MmMalloc.PlaceIsWhole | src/mm_malloc_v1.cpp:258-259 | corrected (see Findings): without room for a remainder, the whole block is marked allocated |
| MmMalloc.PlaceWhole | src/mm_malloc_v1.cpp:258-259 | corrected (see Findings): then the block keeps its size and has a matching footer |
| MmMalloc.PlaceWholeFrame | src/mm_malloc_v1.cpp:258-259 | corrected (see Findings): then nothing outside the block changes |
| MmMalloc.PlaceCorrect | src/mm_malloc_v1.cpp:247-261 | corrected (see Findings): `place` allocates at least the request at `bp`, with a matching footer, wasting less than 32 bytes |
| MmMalloc.PlaceKeepsList | src/mm_malloc_v1.cpp:247-261 | corrected (see Findings): the block walk changes only at `bp`: the block becomes the allocated part (and the free rest), and the rest of the walk is unchanged |
| MmMalloc.PlaceKeepsBelow | src/mm_malloc_v1.cpp:247-261 | `place` stores nothing below the header of `bp` |
| MmMalloc.PlaceInList | src/mm_malloc_v1.cpp:247-261 | corrected (see Findings): placing a block inside a walk changes only that block's place in the walk |
| MmMalloc.Request | src/mm_malloc_v1.cpp:273-279 | corrected (see Findings): the block size for a request is 16-aligned, at least 32, holds the request and a header and footer, and wastes less than 32 bytes |
| MmMalloc.RequestAgreement | src/mm_malloc_v1.cpp:279 | the size as written agrees with the rounded size only for requests of `1 mod 16` |
| MmMalloc.RequestAsWritten | src/mm_malloc_v1.cpp:273-279 | the block size as written; no contract of its own, characterised by `MmMalloc.RequestAsWrittenUnrounded` and `MmMalloc.RequestAsWrittenOdd` |
| MmMalloc.RequestAsWrittenUnrounded | src/mm_malloc_v1.cpp:279 | as written, the size is `usr_size + 31`, which is 16-aligned only for requests of `1 mod 16` |
| MmMalloc.RequestAsWrittenOdd | src/mm_malloc_v1.cpp:279 | a request of 18 bytes gets block size 49, whose header reads as 48 bytes, allocated, even when marked free |
| MmMalloc.PlaceOddLosesRest | src/mm_malloc_v1.cpp:251-256 | splitting off an odd size leaves a remainder whose header reads as allocated, so the free rest is lost |
| MmMalloc.OddMarkAllocated | src/mm_malloc_v1.cpp:30-57 | a block marked free with an odd size reads as allocated |
| MmMalloc.PlaceAsWrittenShortens | src/mm_malloc_v1.cpp:258-259 | as written, the no-split branch records the request size, not the block size, so the walk lands inside the block |
| MmMalloc.PlaceAsWrittenAfterInit | src/mm_malloc_v1.cpp:258-259 | right after `mm_init`, `mm_malloc(4049)` (a 4080-byte block under either size formula) takes the 4096-byte free block whole; as written, the walk from it then stops 16 bytes short of the block's end |
| MmMalloc.MissAsWrittenExtendsNothing | src/mm_malloc_v1.cpp:270-285 | as written, a miss extends by zero words: the break does not move, the new block has size zero, and the footer of the block before the epilogue is overwritten with zero |
| MmMalloc.MissAfterInit | src/mm_malloc_v1.cpp:270-285 | right after `mm_init`, a 5000-byte request misses under either size formula, and the word the zero extension overwrites is the free block's non-zero footer |
| MmMalloc.MissWords | src/mm_malloc_v1.cpp:270-285 | the evidently intended miss extension is at least `CHUNKSIZE` and at least the block size |
| MmMalloc.Malloc | src/mm_malloc_v1.cpp:268-290 | corrected (see Findings): `mm_malloc(0)` is null; otherwise the result is the first fit, or else a new block at the old break |
| MmMalloc.MallocCorrect | src/mm_malloc_v1.cpp:268-290 | corrected (see Findings): every block handed out is allocated, with a matching footer, and holds the request |
| MmMalloc.MallocHitCorrect | src/mm_malloc_v1.cpp:281-284 | corrected (see Findings): a block found by `find_fit` and placed holds the request |
| MmMalloc.MallocMissCorrect | src/mm_malloc_v1.cpp:285-290 | corrected (see Findings): a block placed after an extension holds the request |
| MmMalloc.MallocKeepsList | src/mm_malloc_v1.cpp:268-290 | corrected (see Findings): when a block fits, the block walk changes only at the first fit |
| MmMalloc.MallocAsWritten | src/mm_malloc_v1.cpp:268-290 | `mm_malloc` as written; no contract of its own, applied by `MmMalloc.MallocAsWrittenOdd` and `MmMalloc.MallocAfterInit` |
| MmMalloc.MallocAsWrittenOdd | src/mm_malloc_v1.cpp:268-290 | as written, `mm_malloc(18)` on a 4096-byte first fit allocates a block whose header reads 48 bytes, and the remainder after it reads as allocated |
| MmMalloc.MallocEven | src/mm_malloc_v1.cpp:268-290 | corrected (see Findings): `mm_malloc(18)` on a 4096-byte first fit allocates 48 bytes and leaves a free 4048-byte remainder |
| MmMalloc.MallocAfterInit | src/mm_malloc_v1.cpp:194-290 | right after `mm_init`, `mm_malloc(18)` returns the block at 32 under both programs; as written the block after it at 80 reads as allocated, corrected it is free |

## Left out

- Lock-free containers (`src/hazptr_impl_stack.cpp`, `src/LockFreeStack.h`, the stack in `src/refcnt_impl_stack.cpp`, and the queue and legacy tests). Their substance is compare-and-swap loops and interleavings, which a sequential model cannot check.
- Atomics and memory orders inside the managers. Each atomic is a plain field, and every operation is one atomic step.
- Thread-local storage. The thread id is an explicit parameter, and the per-thread cache is a map in the manager state.
- The deleter and `delete`. Reclamation returns the values or pointers it would delete, in call order; what a deleter does is not modelled.
- `Aligned`, `EBODeleterStorage`, `src/SimpleCU_Utils.h`, `src/deleter.cpp`. These are cache-line alignment and storage layout with no behaviour.
- The manager destructors. They free whatever remains at shutdown, which does not affect any contract above.
- `src/MCS.cpp`, `src/peterson.cpp`, `src/peterson_safe.cpp`, `src/interruptible_thread.h` and every multithreaded test driver and benchmark. These are threads, barriers, timing and console output.
- `src/main.c`, `src/test.cpp`, `src/test_cap.c`. These are FIFOs, epoll and capabilities (operating-system I/O).
- `src/main.cpp`, `src/SimpleCU_QSBR.h`, `src/qsbr.cpp`, `src/ebr.cpp`. They do not compile as written: merge markers, missing returns and undefined functions.
- HazPtr.SetHazptr: requires the cell index to be below `SlotSize` (`CellIndexOk`), which the source leaves unchecked and which would be an out-of-bounds write.
- HazPtr.GetContext: the `return std::nullopt` after the claim loop is never reached when calls run one at a time, because fewer than `ThreadCnt` counted contexts leave a free slot; only a concurrent claim could reach it.
- `BinaryHeap::interface`. It does not compile.
- BinaryHeap: elements are `int` and the comparator is `std::less`; the template over element type and comparator is not modelled.
- BinaryHeap.BuildHeap: requires a non-empty vector, because `size() - 1` wraps on an empty one.
- BinaryHeap.Front: requires a non-empty heap, because `front` of an empty vector is undefined behaviour.
- RpnRegistry: the stored `std::function`s are opaque references. A call applies a caller-supplied interpretation of them. `string_view` key lifetimes are not modelled.
- The unfinished B\*-tree paths: `redistribute_keys_` and `do_equal_split_` (marked buggy), the merges and `try_fix_underflow` (empty), `do_2_3_split_`, the internal-node branch of the root split, and the destructor.
- BStar.Insert: a full leaf below an index root needs the unfinished sibling paths, so that case yields `NotModelled` instead of a tree.
- BStar.Find: a scan is bounded by a fuel count of leaves. Trees have at most two leaves here, so a fuel of 2 suffices.
- Slab.Init: requires `num_objs >= 1`, a non-null buffer, and an object size of at least one pointer. With `num_objs` 0 the loop bound `num_objs - 1` wraps, a null buffer is dereferenced, and smaller objects would make the links overlap.
- Slab.Free: requires a non-null `obj`, which the source dereferences.
- `mem_init`. It is an `mmap` call; the model starts from an empty zero-filled mapping with the break at 0.
- `coalesce` and `mm_free`. Their header and footer stores are inconsistent, so no contract can be stated for them.
- MmMalloc.Malloc: after an extension, when `coalesce` would merge with a free block before it, the result is `MergeNotModelled`. Only the case where both neighbours are allocated is followed to `place`.
- MmMalloc.MallocAsWritten: on a miss whose extension succeeds, the result is always `MergeNotModelled`. Since `extendsize` stays 0, the miss calls `extend_heap(0)`, whose footer store zeroes the footer of the block before the break. The previous block's size then reads 0 and its footer reads free, so `coalesce` would merge the new block with itself. The as-written miss path is therefore never followed to `place`, where `0 - asize` wraps and the stores would land past the break.
- `get`/`put` of words that straddle the mapping. Memory is a map from word addresses, and only the addresses the allocator computes are read.
- ExprParser: text is a Dafny string, a sequence of UTF-16 code units, while the source reads `char` bytes of a `std::string`. The two agree on ASCII text. A non-ASCII character is one illegal character here (`throw 1`), while the source sees several bytes that reach `isdigit` as negative `char` values, which is undefined; that difference is not modelled.

## Findings

| source | as written | input that shows it | evidently intended | confidence | as-written member | corrected member |
|---|---|---|---|---|---|---|
| src/mm_malloc_v1.cpp:279 | `DSIZE * (usr_size + DSIZE + DSIZE - 1) / DSIZE` multiplies before dividing, so it is `usr_size + 31`, not rounded to 16 | `mm_malloc(18)` gives block size 49. Its header reads as 48 bytes, allocated, and a split leaves a remainder whose header reads as allocated | `DSIZE * ((usr_size + DSIZE + DSIZE - 1) / DSIZE)`, a multiple of 16 | not executed | MmMalloc.RequestAsWrittenOdd | MmMalloc.Request |
| src/mm_malloc_v1.cpp:270-285 | `extendsize` is declared 0 and never assigned, so a miss calls `extend_heap(0)` | after `mm_init`, `mm_malloc(5000)` misses. `extend_heap(0)` keeps the break, makes a zero-size block at the old break, and zeroes the footer of the free 4096-byte block before it | extend by `max(asize, CHUNKSIZE)` bytes | not executed | MmMalloc.MissAsWrittenExtendsNothing | MmMalloc.MissWords |
| src/mm_malloc_v1.cpp:258-259 | without a split, the header and footer record `asize`, not the block's size | after `mm_init`, `mm_malloc(4049)` takes the 4096-byte block whole, but its header says 4080. The next-block walk then stops 16 bytes short of the block's end | record the whole block size `csize` | not executed | MmMalloc.PlaceAsWrittenShortens | MmMalloc.PlaceKeepsList |
