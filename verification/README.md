# A verified model of angr's slicing, calling-convention and state-management core

This project models nine pieces of angr in Dafny and proves what they promise.

* **Block slicing** (`Vex`, `Slicer`, `SliceSoundness`, `SliceTheorems`, `AliasExact`, `SliceExact`, `SliceLimits`). A small VEX-like
  language with an evaluator whose operators and sub-register structure are parameters, the forward alias
  pass and the backward pass of `SimSlicer`. The main theorem: running only the sliced statements gives the
  targets the values the whole block gives them. `AliasExact` says which temporaries have an alias, `SliceExact` which
  statements are in a slice, both without the passes. Where the handlers fall short, `SliceLimits` says exactly when.
* **Slicing over the control flow graph** (`Blade`, `BladeTheorems`, `BladeLimits`, `BladeRevisits`, `BladeFree`,
  `BladeEdges`, `BladeExamples`, `BladePaths`). The recursive builder of `Blade` with its level budget, its traced set and its block cache; what every
  slice satisfies, which edges of the graph it follows, what it can miss and when, and slice equivalence along the paths
  that a slice visits.
* **System V AMD64 calls** (`TypeLayout`, `Leaves`, `Classify`, `NaturalAlignment`, `Locations`, `TypeFacts`,
  `ArgSession`, `Prototype`, `Placement`, `ArgValues`, `Callsite`). Struct layout, eightbyte classification (section 3.2.3 of the System V
  AMD64 psABI), register sessions with rollback and the registers they hand out, the split of a typed value over word locations, reading and
  writing values through location trees, and the call frame (stack alignment of section 3.2.2).
* **State hierarchy and simulation manager** (`Digraph`, `Contraction`, `Twigs`, `Hierarchy`, `MergeRounds`, `SimManager`).
  Contraction of the history graph, the upkeep of its leaves and twigs, the search for the first unreachable ancestor,
  merging round by round under the deepest common ancestor, and the bookkeeping of stashes.
* **Vault** (`VaultModel`, `Vault`). A deduplicating serializer over possibly cyclic object graphs.
* **Keyed regions** (`RegionMap`, `RegionExact`, `RegionRuns`, `KeyedRegion`). A sorted interval map against a plain map
  from offsets to objects, store by store and over whole runs of stores and copies.
* **Type JSON** (`TypeJson`, `TypeJsonTheorems`). The printer with its threaded memo and the parser.
* **String tables** (`StringTable`). The argv/envp layout loop, byte by byte.

Objects that the source mutates are classes whose methods are tied by their postconditions to functions on values;
the theorems are about those functions. `Wrappers` holds `Option` and `Result`,
`Arithmetic` facts on multiples and remainders.

## Where the code does not do what it sets out to do

Each of these is kept as the code has it, with a lemma that says when the intended property holds.

* A write to a sub-register clears the whole base register from the live set (`PutAdequateIffFullWidth`); operations
  with three operands have no handler (`TriopAdequateIffConstant`). Only loads through aliased temporaries make their
  cell live, so loads from constant or unknown addresses and guarded loads depend on too little
  (`LoadAdequateIff`, `GuardedLoadAdequateIff`), and only stores through aliased temporaries are ever sliced
  (`SkippedStoreHarmlessIff`). The equivalence theorems leave these statements out of their supported fragment; each
  has a block whose slice computes a wrong value.
* Struct sizes have no tail padding (`NoTailPadding`), so array elements can be misaligned and a leaf can straddle
  an eightbyte, which ends in a subscript error (`ClassifyType`, `UnpaddedElementsFail`).
* `stack_space` counts only plain stack locations: the reserved space covers the arguments if and only if the last
  argument that lives on the stack is a plain location (`SpaceCoversIff`).
* The search for an unreachable root never looks at the oldest of two or more ancestors (`SearchRootExact`,
  `SearchMissesOldest`, `StateHierarchy.UnreachableHistory`).
* A history that is added again after its parent was removed gets a second parent
  (`StateHierarchy.AddHistory`, `ReaddedHistoryHasTwoParents`).
* Removing a history that was one of two children leaves its parent with one child and not among the twigs
  (`SiblingRemoved`). Over any run of additions and removals in a forest the twigs stay exactly the histories with one child
  if and only if no removal changes whether the parent has exactly one (`TwigsExactIff`).
* Merging two or more states without a hierarchy fails (`MergeStates`).
* After a failed dump an id stays in `storing` for good: a later store leaves the vault closed under references if
  and only if it was closed before and nothing the store reaches refers to such an id (`ClosedAfterIff`,
  `FailedDumpDangles`).
* A keyed-region store is a pointwise update if and only if its range is exact for the object (`StoresIff`): nothing
  begins inside an uncovered range; or the range is aligned with the regions; or it lies strictly inside a region that
  marking leaves as it is; or it runs over several regions, the last of which reaches its end and is left as it is by
  marking, while marking leaves the object alone in all before it. For a new object only the first two remain
  (`StoresExact`, `InteriorStoreFails`, `KnownObjectStored`). Every moment of a run refines the plain maps if and only
  if every range is exact for its object when it is stored (`RunRefinesIff`).
* `from_json` gives back a type if and only if the names of its structs and unions are distinct and no field is
  called `_t` (`JsonRoundTripIff`, `RepeatedStructLost`, `TagFieldLost`).
* `Blade` removes the caller's ignored registers after the destination block only: a later block hands one on if and
  only if a sliced statement of it reads the register before any statement writes it (`IgnoredHandedOnIff`,
  `IgnoredNotHandedOn`, `IgnoredRegisterFollowed`).
* A block that `Blade` meets again is sliced but not followed. What is lost is measured against the free slice, which
  goes on from every visit and holds exactly what is needed within the budget, however many edges away
  (`FreeSlicePoints`). A single later visit loses nothing if and only if the budget is spent, nothing is live after
  trimming, or all that is needed of the predecessors, their predecessors and so on within the budget is in the slice
  (`RevisitLosesNothingIff`). A whole slice never holds more than the free slice, and holds the same points if and only
  if it holds all that its later visits need (`SliceWithinFree`, `SliceCompleteIff`). That is so, placeholders for blocks
  without a needed statement apart, whenever every later visit comes with no more budget than the first visit of its
  block and hands on no more (`NarrowRunComplete`). It fails when a later visit needs more, one edge on
  (`SecondVisitNotFollowed`, `SecondVisitAsksMore`) or further (`SecondVisitMissesFurther`), and when the first visit
  had less budget (`FirstVisitSpentBudget`): a block within `max_level` can then be missed.
* `Blade` slices the whole target block for the register that the target statement writes: that register has the
  target's value after the block if and only if no later statement writes it (`TargetRegisterIff`, `LaterWriteSliced`).
* A bitvector shorter than its stack location is read back with stale bytes behind it (`ShortValueKeepsStaleBytes`).

## Model

| member | source | states |
|---|---|---|
| `Slicer.AliasAnalysis` | angr/angr/slicer.py:82-192 | the loop records for each temporary the value the forward handlers give it; `AliasIff` says which have one and which value it is, `AliasesSound` that it is right |
| `AliasExact.AliasIff` | angr/angr/slicer.py:82-192 | in a single-assignment block a temporary has the alias `v` if and only if its definition reads the stack or frame pointer, is a constant, copies such a temporary, or is a 32- or 64-bit addition of two such expressions, and `v` is the wrapped value |
| `AliasExact.StackStoreSliced` | angr/angr/slicer.py:268-285 | a store eight bytes above the stack pointer, sliced for that cell: all three statements are in the slice and the cell is live no more |
| `SliceExact.SliceIsExact` | angr/angr/slicer.py:198-353 | a statement is in the slice if and only if it writes a place whose value after it is asked for or used by a sliced statement before anything overwrites it; a place is live before the block if and only if the value it has there is |
| `SliceExact.BlockSliceExact` | angr/angr/slicer.py:33-221 | the same for a caller's targets, registers standing for their base registers |
| `Slicer.LightState.BackwardExpr` | angr/angr/slicer.py:303-353 | the mutated live sets are those of the dependency function that `EvalAgrees` proves sufficient |
| `Slicer.LightState.BackwardStmt` | angr/angr/slicer.py:227-297 | verdict and live sets per statement kind, proved adequate by `StepInSlice` and `StepSkipped` |
| `Slicer.SliceIndicesOrdered` | angr/angr/slicer.py:198-221 | slice indices are positions of the block in increasing order |
| `Slicer.SliceLoop` | angr/angr/slicer.py:198-221 | the loop, with its early exit, collects exactly the slice's statements and ends in its final live sets |
| `Slicer.SliceBlock` | angr/angr/slicer.py:33-80 | refused if and only if all targets are empty; otherwise statements, indices and final sets of the slice of the base targets |
| `SliceSoundness.EvalAgrees` | angr/angr/slicer.py:303-353 | states that agree on the collected dependencies evaluate an expression alike |
| `SliceSoundness.StepInSlice` | angr/angr/slicer.py:227-297 | executing a sliced statement in two states that agree on its dependencies makes them agree on what was live |
| `SliceSoundness.StepSkipped` | angr/angr/slicer.py:227-297 | a statement left out changes nothing that is live |
| `SliceSoundness.ResolvedSliceEquivalence` | angr/angr/slicer.py:198-221 | whole block and slice agree on the live set whenever the accessed addresses are what the aliases say |
| `SliceTheorems.SliceEquivalence` | angr/angr/slicer.py:198-266 | for every memory-free block of the supported fragment and all entry states that agree on the final live sets, slice and block give the targets the same values |
| `SliceTheorems.NoLiveTempsAtEntry` | angr/angr/slicer.py:198-221 | with single assignment no temporary is live at entry, so the final registers and cells are all that matters |
| `SliceTheorems.AliasExprSound` | angr/angr/slicer.py:128-192 | a value the forward pass finds for an expression is its concrete value under wrapping additions |
| `SliceTheorems.AliasesSound` | angr/angr/slicer.py:82-192 | after any disciplined block every recorded alias equals its temporary, and the stack registers keep their mocked values |
| `SliceTheorems.AliasStable` | angr/angr/slicer.py:112-126 | an alias does not change once its temporary is written |
| `SliceTheorems.AliasedRunResolved` | angr/angr/slicer.py:268-285 | when all addresses are aliased, every access of a run goes where its alias says |
| `SliceTheorems.SliceEquivalenceWithMemory` | angr/angr/slicer.py:268-332 | slice equivalence extended to memory cells, from entry states that agree on final registers and stack offsets only |
| `SliceLimits.PutAdequateIffFullWidth` | angr/angr/slicer.py:252-266 | for every live set with the base register and any atomic operand: the collected dependencies of a Put suffice if and only if the write leaves nothing of the register, for every value the operand can have |
| `SliceLimits.TriopAdequateIffConstant` | angr/angr/slicer.py:303-306 | for any atomic operands and any live set: those of a three-operand operation suffice if and only if its result does not depend on the operands that the slicer drops |
| `SliceLimits.GuardedLoadAdequateIff` | angr/angr/slicer.py:287-297 | for every live set: those of a guarded load suffice if and only if its guard is known to be false or its cell is known and live anyway |
| `SliceLimits.LoadAdequateIff` | angr/angr/slicer.py:322-332 | those of a load suffice if and only if its address is an aliased temporary, or a constant whose cell is live anyway |
| `SliceLimits.PartialPutMissesWrite` | angr/angr/slicer.py:252-266 | a full register write followed by a partial one: the slice keeps only the second |
| `SliceLimits.TriopMissesOperand` | angr/angr/slicer.py:303-306 | the slice of a three-operand operation does not compute its operands |
| `SliceLimits.WrongOnPlainMachine` | angr/angr/slicer.py:252-306 | both slices give a wrong value on a concrete machine and state |
| `SliceLimits.ConstantLoadMissesStore` | angr/angr/slicer.py:322-332 | a block whose slice loads the stale cell at a constant address |
| `SliceLimits.UnknownLoadMissesStore` | angr/angr/slicer.py:322-332 | the same through a temporary without an alias |
| `SliceLimits.GuardedLoadMissesStore` | angr/angr/slicer.py:287-297 | a block whose slice loads the stale cell |
| `SliceLimits.SkippedStoreHarmlessIff` | angr/angr/slicer.py:268-285 | only a store through an aliased temporary is sliced; skipping a store is harmless if and only if it cannot hit a live cell: its known cell is not live, or its address is unknown and no cell is |
| `SliceLimits.ConstantStoreDropped` | angr/angr/slicer.py:268-285 | a store to a constant address is left out of the slice for its own cell |
| `SliceLimits.UnknownStoreDropped` | angr/angr/slicer.py:268-285 | a block that overwrites the requested cell and whose slice is empty |
| `Blade.BladeSlicer.GetIrsb` | angr/angr/blade.py:170-197 | the block cache never changes what a lookup gives |
| `Blade.BladeSlicer.InsliceCallback` | angr/angr/blade.py:228-237 | one edge from the new point to the previous one, which it replaces |
| `Blade.BladeSlicer.MarkConditionalExits` | angr/angr/blade.py:364-378 | ordinary conditional exits are marked in order and their guards collected |
| `Blade.BladeSlicer.SliceStatements` | angr/angr/blade.py:382-391 | the slicer is only ever built with a target, so it is never refused |
| `Blade.BladeSlicer.VisitBlock` | angr/angr/blade.py:354-395 | default exit, conditional exits and slice of one block, targets never empty |
| `Blade.BladeSlicer.BackwardSliceRecursive` | angr/angr/blade.py:341-431 | the new slice and traced set are those of the recursive function that `TraceKeeps` is about |
| `Blade.BladeSlicer.FollowEdges` | angr/angr/blade.py:412-431 | predecessor edges in order, as the recursive function that the theorems are about; `FollowedIffOpen` says which edges are taken |
| `Blade.BuildSlice` | angr/angr/blade.py:239-339 | error exactly for a missing block, an index out of range (negative ones count from the end), an unsupported target statement or an unsupported jump target; otherwise the slice graph |
| `BladeEdges.RefusedIff` | angr/angr/blade.py:239-284 | each error in terms of the graph, the block and the index: when it is raised, and when there is none |
| `BladeEdges.FollowedIffOpen` | angr/angr/blade.py:321-336 | an edge is followed if and only if it is among the first `max_predecessors` of its block, is no call or return when those are to be stopped at, and does not start at a hooked address |
| `BladeEdges.PointsChained` | angr/angr/blade.py:239-431 | from the block of every point of a slice fewer than `max_level` such edges lead to the destination, and the point leads to the target inside the slice |
| `BladeEdges.OpenEdgesLinked` | angr/angr/blade.py:401-431 | conversely a first visit that hands anything on with budget left links every such edge from a block that lifts |
| `BladeEdges.TargetEdgesLinked` | angr/angr/blade.py:321-339 | so does the destination block |
| `BladeEdges.TargetSliceExact` | angr/angr/blade.py:251-314 | the destination block is sliced for exactly the place that the target writes, and asks for exactly the registers and cells needed before it, without those dropped or ignored |
| `BladeEdges.VisitSliceExact` | angr/angr/blade.py:354-395 | a visit slices its block for exactly the registers and cells handed to it, the guards of ordinary exits, and the jump target when it is left through the default exit |
| `BladeEdges.VisitHandsOn` | angr/angr/blade.py:401-410 | it asks predecessors for exactly the registers, but those dropped, and cells whose values before the block are needed |
| `BladeEdges.VisitLinks` | angr/angr/blade.py:354-395 | the edges a visit adds are exactly those of one path: from the point it comes from over default exit, ordinary exits and sliced statements from last to first |
| `BladeTheorems.MarkAllChained` | angr/angr/blade.py:228-237 | sliced statements are chained in program order, the last one to the previous point; exact new nodes |
| `BladeTheorems.BlockMarkedPoints` | angr/angr/blade.py:360-395 | a visit adds exactly default exit, ordinary exits, sliced statements, or statement 0 if none |
| `BladeTheorems.TraceKeeps` | angr/angr/blade.py:341-431 | the recursion keeps paths to the target, the distance bound and single expansion |
| `BladeTheorems.BladeSound` | angr/angr/blade.py:239-431 | every node has a path inside the slice to the target, its block is at most `max_level - 1` followed edges away, no block is expanded twice |
| `BladeTheorems.RevisitStaysLocal` | angr/angr/blade.py:397-399 | a block traced before adds points of that block only and expands nothing |
| `BladeLimits.LiveBeforeIff` | angr/angr/slicer.py:198-266 | a register is live before a block if and only if it was asked for and not written, or a sliced statement reads it before any writes it |
| `BladeLimits.IgnoredHandedOnIff` | angr/angr/blade.py:313-315 | a block past the destination asks its predecessors for an ignored register if and only if a sliced statement reads it first and it is not trimmed |
| `BladeLimits.IgnoredNotHandedOn` | angr/angr/blade.py:313-315 | none is handed on by a block that reads it nowhere before writing it |
| `BladeLimits.TargetRegisterIff` | angr/angr/blade.py:293-307 | the register that the target block is sliced for has, after the block, what the target statement left in it, whatever writes do, if and only if no later statement writes it |
| `BladeLimits.TargetTemporary` | angr/angr/blade.py:293-307 | a target temporary always has the target's value after the block |
| `BladeRevisits.FirstVisitLinks` | angr/angr/blade.py:401-431 | the first visit of a block links every followed predecessor that matters to the point where the visit ended |
| `BladeRevisits.FirstVisitMarks` | angr/angr/blade.py:401-431 | after it everything that the block asks its followed predecessors for is in the slice, and all of them are expanded |
| `BladeRevisits.SliceMonotone` | angr/angr/slicer.py:198-221 | slicing a block for less gives a part of the slice and needs less |
| `BladeFree.FreeSlicePoints` | angr/angr/blade.py:341-431 | going on from every visit gives exactly the points that the target needs in its block and, by recursion on the level, in predecessors |
| `BladeFree.RevisitLosesNothingIff` | angr/angr/blade.py:397-399 | going on freely from a later visit adds nothing if and only if its predecessors do not matter, or all that is needed of them and beyond within the budget is there already |
| `BladeFree.VisitsAllRecorded` | angr/angr/blade.py:397-431 | every visit leaves its own points in the slice, first visits go on along all followed edges, blocks met again were visited before |
| `BladeFree.SliceWithinFree` | angr/angr/blade.py:239-431 | a slice holds no point that the free slice does not |
| `BladeFree.SliceCompleteIff` | angr/angr/blade.py:397-399 | a slice is the free slice if and only if all that its later visits need, at any depth, is in it |
| `BladeFree.NarrowRunComplete` | angr/angr/blade.py:397-399 | if every later visit comes with no more budget than the first of its block and hands on no more, the slice holds every point of the free slice but placeholders |
| `BladeExamples.SecondVisitNotFollowed` | angr/angr/blade.py:397-399 | a graph of four blocks whose slice misses a statement that a second visit depends on, with budget left |
| `BladeExamples.SecondVisitAsksMore` | angr/angr/blade.py:397-399 | one on which a second visit ends where the first did, and the write of the register it needs is still missed |
| `BladeExamples.SecondVisitMissesFurther` | angr/angr/blade.py:397-399 | one on which all that a second visit asks its predecessor for is there, and the write two edges back is still missed |
| `BladeExamples.FirstVisitSpentBudget` | angr/angr/blade.py:397-399 | one on which a second visit hands on just what the first did, with more budget, and a needed block within the level bound is missed |
| `BladeExamples.LaterWriteSliced` | angr/angr/blade.py:293-307 | the slice for the first of two writes of a register holds the second and asks for what that one reads |
| `BladeExamples.IgnoredRegisterFollowed` | angr/angr/blade.py:313-315 | a graph of three blocks whose slice contains the write of an ignored register |
| `BladePaths.PathAgrees` | angr/angr/blade.py:380-431 | along any path, running the visits' slices and running the whole blocks agree on what the first visit was asked for |
| `BladePaths.PathSliceEquivalence` | angr/angr/blade.py:295-431 | the target of the destination block gets the same value from the slices of a path as from its whole blocks, with or without aliased memory accesses |
| `BladePaths.AliasedPathSliceable` | angr/angr/slicer.py:82-192 | blocks whose addresses are all aliased and that leave the stack registers alone may follow each other on such a path |
| `BladePaths.TravelsInSlice` | angr/angr/blade.py:341-431 | along a route of first visits within the budget, every statement that a visit slices is a point of the graph |
| `BladePaths.StraightTravels` | angr/angr/blade.py:401-431 | a route of first in-edges through blocks not met before is such a route |
| `BladePaths.RouteSliceEquivalence` | angr/angr/blade.py:239-431 | executing, along such a route, only statements that are points of the slice gives the target the value that the whole blocks give it |
| `BladePaths.SlicePointsEquivalence` | angr/angr/blade.py:239-431 | so does executing all points of the slice in those blocks, whichever visits put them there, when no block accesses memory |
| `TypeLayout.Offsets` | angr/angr/sim_type.py:1695-1728 | the loop's offsets; the last field ends where the size says |
| `TypeLayout.FieldPlacement` | angr/angr/sim_type.py:1695-1728 | offsets are aligned, padding is smaller than the field's alignment |
| `TypeLayout.EndMonotone` | angr/angr/sim_type.py:1695-1728 | later fields never start before earlier ones end |
| `TypeLayout.FieldsDisjoint` | angr/angr/sim_type.py:1695-1851 | fields are disjoint and inside the struct |
| `TypeLayout.AppendKeepsOffsets` | angr/angr/sim_type.py:1695-1728 | appending a field moves no earlier one |
| `TypeLayout.NoTailPadding` | angr/angr/sim_type.py:1807-1851 | a struct ends with its last field; array elements of it are all aligned if and only if that end is a multiple of its alignment |
| `TypeLayout.ElementsAlignedIff` | angr/angr/sim_type.py:1807-1851 | all elements of arrays of a type are aligned if and only if its size is a multiple of its alignment |
| `TypeFacts.ScalarLayout` | angr/angr/sim_type.py:1557-1630 | sizes and alignments of integers, floats and doubles |
| `TypeFacts.FieldStart` | angr/angr/sim_type.py:1695-1728 | a field starts at the end of the one before it when the struct is packed or the field empty, otherwise at the next multiple of its alignment |
| `TypeFacts.AggregateLayout` | angr/angr/sim_type.py:1807-2040 | an aggregate is as aligned as its most aligned part unless told otherwise; a struct ends with its last field, a union is as large as its largest member |
| `Leaves.LeavesContained` | angr/angr/calling_conventions.py:1792-1822 | every flattened leaf, through arrays, structs and unions, lies inside its type |
| `TypeFacts.LeavesExact` | angr/angr/calling_conventions.py:1792-1822 | flattening finds exactly the scalars that access paths lead to, at their offsets |
| `TypeFacts.PackedIff` | angr/angr/calling_conventions.py:1792-1800 | it gives up if and only if some struct inside is packed |
| `Leaves.EndsOccupied` | angr/angr/calling_conventions.py:1792-1822 | first and last byte of a type belong to a leaf |
| `Leaves.FullMember` | angr/angr/calling_conventions.py:183-187 | the member that stands for a union is the first one as large as the union |
| `Leaves.BytesIncreasing` | angr/angr/calling_conventions.py:134-201 | the bytes of a value are distinct positions inside it, in increasing order |
| `TypeFacts.BytesExact` | angr/angr/calling_conventions.py:134-201 | they are exactly the bytes of the scalars that access paths through the standing union members lead to |
| `Classify.Combine` | angr/angr/calling_conventions.py:1824-1835 | the combined class is the maximum in the order NO_CLASS, SSEUP, SSE, INTEGER, MEMORY |
| `Classify.MergeLeaf` | angr/angr/calling_conventions.py:1765-1777 | fails if and only if the leaf straddles more eightbytes than it fills; otherwise merges its class into exactly the eightbytes it overlaps |
| `Classify.MergeLeaves` | angr/angr/calling_conventions.py:1765-1777 | each eightbyte gets the maximum class of the leaves overlapping it, whatever their order |
| `Classify.ClassifyType` | angr/angr/calling_conventions.py:1743-1790 | succeeds if and only if no leaf straddles; aggregates are all MEMORY or at most two eightbytes, each SSE or INTEGER and the maximum of its leaves |
| `Classify.ClassifiedUnique` | angr/angr/calling_conventions.py:1743-1790 | that description determines the classes |
| `TypeFacts.EightbyteClass` | angr/angr/calling_conventions.py:1743-1790 | an aggregate is MEMORY if and only if it has more than two eightbytes or a packed struct inside; otherwise an eightbyte is INTEGER if and only if an integer or pointer lies in it, else SSE |
| `TypeFacts.ClassifiableIff` | angr/angr/calling_conventions.py:1755-1777 | classification fails if and only if an unpacked aggregate of at most 64 bytes has a scalar that straddles more eightbytes than it fills |
| `NaturalAlignment.LeavesNatural` | angr/angr/calling_conventions.py:1792-1822 | leaves of naturally aligned types are aligned to their sizes |
| `NaturalAlignment.NaturalClassifiable` | angr/angr/calling_conventions.py:1743-1790 | naturally aligned types never hit the subscript error |
| `NaturalAlignment.UnpaddedElementsFail` | angr/angr/calling_conventions.py:1765-1777 | an array of structs without tail padding does |
| `Locations.RefineScalar` | angr/angr/calling_conventions.py:149-166 | the `while` loop's pieces hold exactly the bytes of the scalar, in order, whatever slots they fall into |
| `Locations.RefineBytes` | angr/angr/calling_conventions.py:134-201 | the location tree of any value covers exactly its bytes, each by the slot byte at the same position |
| `Locations.RefineNoRepeats` | angr/angr/calling_conventions.py:134-201 | no location byte is used twice |
| `TypeFacts.RefineShape` | angr/angr/calling_conventions.py:134-201 | the location of an array or struct has one part per element or field, each of the shape of its type; that of a union the shape of the standing member; that of a scalar is one piece of its size or several pieces |
| `ArgSession.Session.GetState` | angr/angr/calling_conventions.py:590-591 | the saved position is the current one |
| `ArgSession.Session.SetState` | angr/angr/calling_conventions.py:593-597 | the session is exactly at the saved position |
| `ArgSession.Session.NextInt` | angr/angr/calling_conventions.py:218-234 | next integer register, or none and no movement |
| `ArgSession.Session.NextFp` | angr/angr/calling_conventions.py:218-234 | next vector register, or none and no movement |
| `ArgSession.Session.NextBoth` | angr/angr/calling_conventions.py:237-252 | next stack word |
| `ArgSession.Session.NextSlots` | angr/angr/calling_conventions.py:1675-1701 | the slots and the session afterwards are those of the assignment that `AssignExact` describes; when registers run out every iterator is restored and the whole argument goes to the stack |
| `ArgSession.AssignFresh` | angr/angr/calling_conventions.py:1675-1701 | slots are new, all registers or all stack, and the session only moves forward |
| `Placement.AssignExact` | angr/angr/calling_conventions.py:1675-1701 | with k INTEGER and n SSE eightbytes an argument not of class MEMORY goes to registers if and only if k of the six integer and n of the eight vector registers are left; each eightbyte takes the next register of its own file and the cursor moves by k and n; otherwise eightbyte i is the i-th next stack word |
| `Placement.NextArgExact` | angr/angr/calling_conventions.py:1675-1701 | the same for one argument of any type, through its classification |
| `Placement.ScalarArgs` | angr/angr/calling_conventions.py:882-886 | where argument j of a list of scalars goes, counted from the integers and floats before it: the next of six integer or eight vector registers, or the next stack word above the return address |
| `Placement.ReturnPlace` | angr/angr/calling_conventions.py:1703-1741 | a result goes through a hidden pointer if and only if it is an aggregate of more than two eightbytes, or a nonempty one with a packed struct inside; locating it fails if and only if it cannot be classified or is a scalar of more than 16 bytes |
| `Prototype.ClassesOfClassified` | angr/angr/calling_conventions.py:1743-1790 | the classes an argument is placed by are those of classification |
| `Prototype.NextArgPlacement` | angr/angr/calling_conventions.py:1675-1701 | an argument's bytes map one to one to fresh location bytes, never split between registers and stack |
| `Prototype.ArgLocsApart` | angr/angr/calling_conventions.py:882-886 | no location byte is shared by two arguments, for every argument list |
| `Prototype.PrototypeLayout` | angr/angr/calling_conventions.py:722-736 | for every prototype, all argument bytes are distinct, inside the register files or above the return slot, and rdi is left free when the result is returned in memory |
| `Prototype.NextArgLoc` | angr/angr/calling_conventions.py:1675-1701 | fails exactly on unclassifiable types, leaving the session alone |
| `Prototype.PointerTakesRdi` | angr/angr/calling_conventions.py:722-736 | the implicit out-parameter takes the first integer register and nothing else |
| `Prototype.OpenSession` | angr/angr/calling_conventions.py:722-736 | fails exactly when the result cannot be located, with the error the source raises; otherwise a session past the out-parameter exactly when the result is of class MEMORY |
| `Prototype.ReturnInOutparam` | angr/angr/calling_conventions.py:1703-1741 | whether the result is of class MEMORY; a subscript error if it cannot be classified, exhausted registers if it is a scalar of more than two eightbytes |
| `Prototype.LayOut` | angr/angr/calling_conventions.py:882-886 | locations of all arguments, or failure if and only if the result cannot be located or an argument cannot be classified |
| `ArgValues.SetFrame` | angr/angr/calling_conventions.py:344-446 | writing through a location tree changes none but its own bytes |
| `ArgValues.GetAgrees` | angr/angr/calling_conventions.py:351-446 | reading depends on those bytes only |
| `ArgValues.GetBytes` | angr/angr/calling_conventions.py:351-446 | a location is read byte by byte in the order of its bytes, whatever its nesting |
| `ArgValues.SetBytes` | angr/angr/calling_conventions.py:344-446 | a value of the shape of its location is stored byte by byte in that order |
| `ArgValues.RoundTrip` | angr/angr/calling_conventions.py:344-543 | for any nesting of combo, struct and array locations with disjoint leaves, reading gives back what was written |
| `ArgValues.RoundTripAll` | angr/angr/calling_conventions.py:888-896 | the same for lists of values |
| `ArgValues.ArgumentsRoundTrip` | angr/angr/calling_conventions.py:882-896 | values stored through the locations of any prototype are read back by `get_args` |
| `ArgValues.ShortValueKeepsStaleBytes` | angr/angr/calling_conventions.py:394-404 | a value shorter than its stack location is read back followed by the old bytes, so unchanged if and only if it fills the location |
| `Callsite.AllocHelper.Alloc` | angr/angr/calling_conventions.py:66-72 | the bump pointer moves by the size and the block is recorded there |
| `Callsite.StackedApart` | angr/angr/calling_conventions.py:59-98 | allocated blocks are pairwise disjoint below the pointer |
| `Callsite.StackSpace` | angr/angr/calling_conventions.py:741-754 | the loop's result, which `SpaceCoversIff` relates to the arguments |
| `Callsite.SpaceGreatest` | angr/angr/calling_conventions.py:741-754 | the greatest of the return slot and the ends of the arguments that are plain stack locations |
| `Callsite.SpaceCoversIff` | angr/angr/calling_conventions.py:741-754 | all stack bytes of the arguments are below the reserved space if and only if the last stack-resident argument is a plain location |
| `Callsite.PlaceFrame` | angr/angr/calling_conventions.py:966-977 | the final stack pointer plus 8 is a multiple of 16, the space lies between it and the allocations, with less than 16 bytes of slack |
| `Callsite.CallFrame` | angr/angr/calling_conventions.py:966-1004 | return slot, argument bytes and allocations are pairwise disjoint inside the frame |
| `Callsite.SetupCallsite` | angr/angr/calling_conventions.py:898-1004 | fails exactly when the prototype cannot be laid out; otherwise stack pointer aligned, return slot, arguments and allocations disjoint, all inside the frame when the last stack argument is plain |
| `Callsite.StructOverrunsFrame` | angr/angr/calling_conventions.py:741-754 | a three-word struct argument ends up in the caller's frame |
| `Contraction.ContractKeepsAncestry` | angr/angr/state_hierarchy.py:92-106 | removing a node keeps the ancestor relation of all others, both ways |
| `Contraction.ContractKeepsForest` | angr/angr/state_hierarchy.py:92-106 | it keeps the graph acyclic and parents single |
| `Contraction.ContractAllEdges` | angr/angr/state_hierarchy.py:92-134 | after removing any set, edges are exactly the paths through removed nodes |
| `Contraction.ContractionOrderIrrelevant` | angr/angr/state_hierarchy.py:131-134 | the order of removal does not matter |
| `Contraction.ContractAllKeeps` | angr/angr/state_hierarchy.py:92-134 | ancestry, acyclicity and single parents survive any list of removals |
| `Digraph.DescendantsExact` | angr/angr/state_hierarchy.py:158-162 | the computed successor closure is exactly the strict descendants |
| `Hierarchy.LineageIsAncestors` | angr/angr/state_hierarchy.py:142-156 | a lineage is exactly the set of ancestors |
| `Hierarchy.SearchRoot` | angr/angr/state_hierarchy.py:180-204 | the binary search ends at an unreachable ancestor whose predecessor on the lineage is reachable, the oldest one never being looked at |
| `Hierarchy.SearchRootExact` | angr/angr/state_hierarchy.py:180-204 | it is the earliest unreachable ancestor if and only if there is only one ancestor or the oldest is reachable |
| `Hierarchy.SearchMissesOldest` | angr/angr/state_hierarchy.py:180-204 | two unreachable ancestors: the search stops at the younger |
| `Hierarchy.EarlierCoversNone` | angr/angr/state_hierarchy.py:242-263 | in a postorder the first node with two histories below it has no such descendant |
| `Hierarchy.FoundPartition` | angr/angr/state_hierarchy.py:242-263 | the chosen and the other states partition the input, at least two are chosen |
| `Hierarchy.MostMergeable` | angr/angr/state_hierarchy.py:242-263 | a deepest common ancestor and the partition around it, or no node has two histories below it |
| `MergeRounds.FoundChosen` | angr/angr/state_hierarchy.py:242-263 | what is found, in terms of paths: the states below a node with two of the histories below it and no such node below it, in order, and the others in order |
| `MergeRounds.DeepestFirst` | angr/angr/sim_manager.py:860-893 | histories 0 above 1 and 4, 1 above 2 and 3: of the states at 2, 3 and 4 the first two are merged first |
| `Hierarchy.PostorderExists` | angr/angr/state_hierarchy.py:242-263 | every finite acyclic graph has a postorder |
| `SimManager.TraversalExists` | angr/angr/state_hierarchy.py:242-263 | so the traversal that merging asks for exists |
| `Hierarchy.StateHierarchy.RemoveHistory` | angr/angr/state_hierarchy.py:92-106 | the graph is contracted at the node, which leaves leaves and twigs too; nothing else changes |
| `Hierarchy.StateHierarchy.AddHistory` | angr/angr/state_hierarchy.py:115-129 | leaves lose the parent and gain the history; the parent is a twig afterwards if and only if all its edges go to the history, no other twig changes; acyclic if and only if the history was no ancestor of its parent; parents stay single if and only if it had no other; a new history changes no ancestry |
| `Hierarchy.HistoryAdded` | angr/angr/state_hierarchy.py:115-129 | the same of the graph alone |
| `Hierarchy.ReaddedHistoryHasTwoParents` | angr/angr/state_hierarchy.py:115-129 | contraction followed by adding again breaks single parents |
| `Twigs.AddKeepsTwigs` | angr/angr/state_hierarchy.py:115-129 | adding keeps the twigs exactly the histories with one child |
| `Twigs.AddKeepsLeavesIff` | angr/angr/state_hierarchy.py:115-129 | and the leaves exactly those without, if and only if the history that is added has no child |
| `Twigs.RemoveKeepsTwigsIff` | angr/angr/state_hierarchy.py:92-109 | in a forest, removing one keeps the twigs exact if and only if it does not change whether its parent has exactly one child: an only child has one child, and of two children one without children does not go |
| `Twigs.TwigsExactIff` | angr/angr/state_hierarchy.py:92-134 | over any run of additions and removals in a forest: the twigs are exactly the histories with one child at every moment if and only if every removal is of that kind |
| `Twigs.SiblingRemoved` | angr/angr/state_hierarchy.py:92-129 | two children, one of them removed: the parent has one child and is no twig |
| `Hierarchy.StateHierarchy.Simplify` | angr/angr/state_hierarchy.py:131-134 | exactly the twigs go, ancestry of the rest is unchanged; in a forest whose twigs are exact they stay exact |
| `Hierarchy.StateHierarchy.Lineage` | angr/angr/state_hierarchy.py:142-156 | the path from a root to the history |
| `Hierarchy.StateHierarchy.PruneSubtree` | angr/angr/state_hierarchy.py:206-220 | exactly a root and its descendants are removed and recorded; the new twigs are the parents whose only child it was and who were its only parent; the rest stays a forest with the same ancestry |
| `Hierarchy.PrunedKeeps` | angr/angr/state_hierarchy.py:206-220 | pruning keeps the graph acyclic, parents single and the ancestry of the survivors |
| `Hierarchy.StateHierarchy.UnreachableHistory` | angr/angr/state_hierarchy.py:225-236 | removes exactly the subtree of an unreachable root above the history and keeps everything another call needs; no reachable history goes; none unreachable is left on the lineage if and only if the oldest ancestor is reachable or alone |
| `Hierarchy.CleanIffOldest` | angr/angr/state_hierarchy.py:180-236 | that equivalence, on graphs |
| `SimManager.StoreTotal` | angr/angr/sim_manager.py:823-828 | storing adds exactly the given states, or none in a dropped stash |
| `SimManager.DivideTotal` | angr/angr/sim_manager.py:748-766 | splitting conserves all states if and only if nothing goes to a dropped stash |
| `SimManager.ApplyConserves` | angr/angr/sim_manager.py:615-660 | one operation between ordinary stashes conserves the multiset of states |
| `SimManager.RunConserves` | angr/angr/sim_manager.py:615-766 | so does any run of them |
| `SimManager.MoveStashes` | angr/angr/sim_manager.py:615-660 | moving keeps the states that do not match, in order, and puts those that do, in order, behind what the other stash had; no other stash changes |
| `SimManager.SplitStashes` | angr/angr/sim_manager.py:748-766 | splitting by a limit keeps the first states in order and puts the rest behind what the other stash had |
| `SimManager.RankStashes` | angr/angr/sim_manager.py:754-766 | splitting by rank keeps as many as the limit allows, none of which ranks above one that goes |
| `SimManager.SelectSplits` | angr/angr/sim_manager.py:847-851 | filtering splits the list by the predicate and loses nothing |
| `SimManager.SelectPicked` | angr/angr/sim_manager.py:847-851 | each list holds exactly the states at the positions with its truth value, in order |
| `SimManager.FilterStates` | angr/angr/sim_manager.py:847-851 | the two lists of that split |
| `SimManager.StepOneExact` | angr/angr/sim_manager.py:458-495 | stepping one state adds to every stash of the bucket exactly what its fate sends there |
| `SimManager.StepOneAccounts` | angr/angr/sim_manager.py:458-540 | no state disappears without a trace in the bucket or the error list |
| `SimManager.SimulationManager.FillBucket` | angr/angr/sim_manager.py:458-495 | the bucket and the error records of a whole stash, exactly and in order |
| `SimManager.SimulationManager.Step` | angr/angr/sim_manager.py:454-502 | the stash is emptied, every other one gets exactly what the states send to it, each state is accounted for |
| `SimManager.SimulationManager.MoveStates` | angr/angr/sim_manager.py:615-660 | the stashes after a move; a missing stash is an error and changes nothing |
| `SimManager.SimulationManager.SplitStates` | angr/angr/sim_manager.py:714-766 | the stashes after a split by limit; a missing stash is an error |
| `SimManager.ChooseOptimal` | angr/angr/sim_manager.py:860-884 | the states to merge now are the chosen ones on the graph as it stands: those below a deepest common ancestor, or all if no node has two of the histories below it |
| `SimManager.AddMergedHistory` | angr/angr/sim_manager.py:887-888 | a new history, in the graph under the given parent |
| `SimManager.MergeRound` | angr/angr/sim_manager.py:860-893 | one round: the group is chosen on the graph before it, the merged state nests exactly that group and has a new history |
| `SimManager.MergeStates` | angr/angr/sim_manager.py:853-893 | terminates; the rounds, as pairs of graph and group, each choose on the graph that the one before left, go on with what is left over behind the merged state, and the result nests as they say; every input state is a leaf of it exactly once; fails without a hierarchy if and only if there are two states or more |
| `SimManager.GroupByKey` | angr/angr/sim_manager.py:798-805 | nonempty classes of one key each, no two of the same key, holding every state; each class in the order of the stash and the classes in the order of their first states; singles and groups in order |
| `SimManager.MergeGroup` | angr/angr/sim_manager.py:807-813 | a group becomes one merged state with all its leaves, or stays as it was, which needs a list of its own leaves that cannot be merged |
| `SimManager.MergeGroups` | angr/angr/sim_manager.py:807-813 | group after group behind the singles; fails if and only if there is a group and no hierarchy |
| `SimManager.MergeConserves` | angr/angr/sim_manager.py:776-817 | singles and merged groups hold exactly the leaves of the stash |
| `SimManager.SimulationManager.Merge` | angr/angr/sim_manager.py:776-817 | the stash becomes its singles followed by its merged groups, each group merged by rounds on the graph that the one before left; no other stash changes; a failure changes nothing |
| `SimManager.SimulationManager.Prune` | angr/angr/sim_manager.py:570-597 | the unsatisfiable matching states, in order, move behind what the other stash had and the rest stays in order; their histories are gone; no reachable history goes but twigs and those left without descendants; the ancestry of the survivors is kept |
| `SimManager.PruneHistories` | angr/angr/sim_manager.py:570-597 | after the loop no history of a pruned state is left, and a reachable one went only if it was a twig or nothing below it is left |
| `SimManager.PruneHistory` | angr/angr/sim_manager.py:584-591 | one of them: what goes is exactly the subtree below an unreachable root that holds it, the twigs, and the parent that this leaves without children |
| `SimManager.SimulationManager.PruneAndMerge` | angr/angr/sim_manager.py:776-817 | the default of pruning first: the outcome of merging on the stash without its unsatisfiable states |
| `Vault.VaultDict.StoreId` | angr/angr/vaults.py:178-203 | terminates on cyclic graphs, never rewrites an entry, begins only what is reached from the object, fails only if some of that cannot be pickled, and then leaves its id open |
| `Vault.VaultDict.Dump` | angr/angr/vaults.py:37-46 | pickling a value comes through only if it can be pickled and everything it refers to is stored or has been begun |
| `Vault.VaultDict.StoreObject` | angr/angr/vaults.py:173-203 | succeeds if and only if everything reached through ids neither stored nor begun can be pickled; adds exactly that; leaves the vault closed if and only if it was and none of that refers to an open id |
| `Vault.VaultDict.Load` | angr/angr/vaults.py:155-171 | the value of the object, whatever part of the weak cache survives |
| `Vault.VaultDict.LoadObject` | angr/angr/vaults.py:152-171 | an error only for ids neither stored nor cached |
| `Vault.VaultDict.Unpickle` | angr/angr/vaults.py:49-55 | references are loaded recursively to the same values |
| `Vault.LoadedPlaces` | angr/angr/vaults.py:49-55 | at every path of positions the loaded value holds what the object holds there, references replaced by what they refer to |
| `Vault.VaultDict.StoreThenLoad` | angr/angr/vaults.py:152-203 | on acyclic graphs loading what was stored rebuilds the value exactly when all that is reached can be pickled |
| `VaultModel.WriteStep` | angr/angr/vaults.py:195-201 | writing an object after its parts completes the visit of what it reaches |
| `VaultModel.StoredExactly` | angr/angr/vaults.py:178-203 | a store that came through wrote and began exactly the ids reached from its object |
| `VaultModel.FinishedPicklable` | angr/angr/vaults.py:195-201 | it reached nothing that cannot be pickled |
| `VaultModel.ClosedAfterIff` | angr/angr/vaults.py:178-203 | the vault is closed under references afterwards if and only if it was before and nothing reached refers to an open id |
| `Vault.FailedDumpDangles` | angr/angr/vaults.py:195-201 | after a failed dump a later object refers to nothing |
| `RegionMap.FloorAgreesWithScan` | angr/angr/keyed_region.py:134-143 | predecessor-key lookup agrees with a scan of all regions |
| `RegionMap.FreshStoreUpdates` | angr/angr/keyed_region.py:403-411 | the gap path is a pointwise update if and only if no region begins inside the range |
| `RegionMap.InsideOneRegion` | angr/angr/keyed_region.py:413-468 | so is a store over a region, a prefix or a suffix of it |
| `RegionMap.AcrossTwoRegions` | angr/angr/keyed_region.py:423-468 | and one over a tail and an adjacent region |
| `RegionExact.InteriorIff` | angr/angr/keyed_region.py:435-444 | a store strictly inside a region marks its whole tail, which is harmless if and only if marking leaves the region as it is |
| `RegionExact.ChainedIff` | angr/angr/keyed_region.py:423-468 | so a store over several regions is a pointwise update if and only if they form such a chain |
| `RegionExact.StoreOverIff` | angr/angr/keyed_region.py:413-468 | for any object: a store over existing regions is a pointwise update if and only if the range is aligned, inside a settled region, or over a chain |
| `RegionExact.StoreOverExact` | angr/angr/keyed_region.py:413-468 | for a new object: if and only if the range is aligned with the regions |
| `RegionRuns.StoresIff` | angr/angr/keyed_region.py:389-468 | the code's store, whichever path it takes, is the pointwise update if and only if the range is exact for the object |
| `RegionRuns.KnownObjectStored` | angr/angr/keyed_region.py:445-450 | a store over a range that is not aligned and yet exact, because a region holds the object already |
| `RegionRuns.StoresExact` | angr/angr/keyed_region.py:389-468 | the code's store, whichever path it takes, is the pointwise update over every accurate range, and for a new object over no other |
| `RegionRuns.InteriorStoreFails` | angr/angr/keyed_region.py:435-444 | a store strictly inside a region that is not a pointwise update |
| `RegionRuns.RunRefinesPlain` | angr/angr/keyed_region.py:260-310 | after any run of the code's stores and copies over ranges that are exact for their objects every region is sorted, without overlap, and looks up like its plain map from offsets to objects |
| `RegionRuns.RunRefinesIff` | angr/angr/keyed_region.py:389-468 | every moment of a run refines the plain maps if and only if every range is exact for its object when it is stored |
| `RegionRuns.AccurateRunIsExact` | angr/angr/keyed_region.py:389-468 | runs over accurate ranges are exact, and runs that store new objects only those |
| `KeyedRegion.RegionObject.Split` | angr/angr/keyed_region.py:80-85 | two new regions with the same objects |
| `KeyedRegion.KeyedRegion.GetContainer` | angr/angr/keyed_region.py:134-143 | the covering region, or none exactly when no region covers the offset |
| `KeyedRegion.KeyedRegion.ObjectsAt` | angr/angr/keyed_region.py:340-351 | the objects of the plain map at the offset |
| `KeyedRegion.KeyedRegion.StoreObject` | angr/angr/keyed_region.py:389-468 | the region map afterwards is that of the store that `StoresIff` and the run theorems are about; an unknown size counts as the canonical one |
| `KeyedRegion.KeyedRegion.ScanItem` | angr/angr/keyed_region.py:432-466 | one region of the slow path: split, gap or mark |
| `KeyedRegion.KeyedRegion.CollectRegions` | angr/angr/keyed_region.py:428-466 | the loop collects exactly the regions of the scan function |
| `KeyedRegion.KeyedRegion.ScanRegions` | angr/angr/keyed_region.py:423-468 | the collected regions replace or join the stored ones |
| `KeyedRegion.KeyedRegion.Copy` | angr/angr/keyed_region.py:170-178 | same content, no shared region |
| `KeyedRegion.CopyThenStore` | angr/angr/keyed_region.py:170-178 | a store into a copy and a store into its original, each as if the other had not happened |
| `KeyedRegion.RunOps` | angr/angr/keyed_region.py:170-468 | any run of stores and copies over exact ranges, on objects: they stand for the maps of the run, share no region, and look up like the plain maps |
| `TypeJson.ToJson` | angr/angr/sim_type.py:178-208 | the printer with its shared memo computes what the round-trip theorems are about |
| `TypeJsonTheorems.AttributesWritten` | angr/angr/sim_type.py:178-208 | exactly which attributes are written for each class of type, which are left out because they are defaults, and that a struct or union already written is a reference |
| `TypeJsonTheorems.FieldsWritten` | angr/angr/sim_type.py:200-201 | fields are written in order, under their names |
| `TypeJsonTheorems.MemoAdds` | angr/angr/sim_type.py:367-372 | the memo gains only names of structs and unions inside the type, each with its class, and keeps what it had |
| `TypeJsonTheorems.StructDefaults` | angr/angr/sim_type.py:1638-1668 | attributes left out of a struct take the constructor's defaults; the Windows placeholder name makes it anonymous |
| `TypeJsonTheorems.ParseStruct` | angr/angr/sim_type.py:1730-1749 | dropped defaults come back; the struct parses if and only if its field dictionary does and has no `_t` key |
| `TypeJsonTheorems.ParseUnion` | angr/angr/sim_type.py:2049-2057 | the same for unions |
| `TypeJsonTheorems.ParseFunc` | angr/angr/sim_type.py:1385-1391 | the same for functions, a missing return type included |
| `TypeJsonTheorems.ParsePtr` | angr/angr/sim_type.py:937-947 | offset and disposition come back through their renamed and dropped keys |
| `TypeJsonTheorems.RoundTripWhen` | angr/angr/sim_type.py:178-257 | with any memo, a type is given back if and only if the printer meets no remembered name and no field `_t` |
| `TypeJsonTheorems.WritableWhen` | angr/angr/sim_type.py:367-372 | that is so if and only if the names are new and distinct; the memo then grows by exactly them |
| `TypeJsonTheorems.JsonRoundTripIff` | angr/angr/sim_type.py:178-257 | `from_json(to_json(t))` is `t` if and only if struct and union names are distinct and no field is called `_t` |
| `TypeJsonTheorems.RepeatedStructLost` | angr/angr/sim_type.py:1734-1737 | a function that takes the same struct twice does not come back |
| `TypeJsonTheorems.TagFieldLost` | angr/angr/sim_type.py:238-240 | nor does a struct with a field called `_t` |
| `TypeJsonTheorems.SaveAndLoad` | angr/angr/sim_type.py:178-257 | both calls together |
| `StringTable.WordRoundTrip` | angr/angr/tablespecs.py:78-86 | a word written in either byte order reads back modulo its width |
| `StringTable.WordDigits` | angr/angr/tablespecs.py:78-86 | which byte of a word is where, in either byte order |
| `StringTable.StringTableSpec.AddString` | angr/angr/tablespecs.py:46-57 | one more entry with its NUL, the length kept in step |
| `StringTable.StringTableSpec.AddPointer` | angr/angr/tablespecs.py:59-60 | one more literal pointer |
| `StringTable.StringTableSpec.AppendArgs` | angr/angr/tablespecs.py:12-16 | all arguments in order and the closing null |
| `StringTable.StringTableSpec.DumpEntries` | angr/angr/tablespecs.py:75-87 | the loop writes the pointer table and the strings, nothing else |
| `StringTable.StringTableSpec.Dump` | angr/angr/tablespecs.py:65-92 | start aligned with less than one unit of fill; memory is the old one overwritten from start to end by pointers, strings and zeros without gap |
| `StringTable.WriteAt` | angr/angr/tablespecs.py:78-90 | a write changes its range and nothing else |
| `StringTable.FollowPointer` | angr/angr/tablespecs.py:77-87 | every entry reads as its literal, or as the address, inside the string area, of its string and NUL |
| `StringTable.ImageZeros` | angr/angr/tablespecs.py:88-90 | behind the strings the image is zero |
| `StringTable.DumpArgs` | angr/angr/tablespecs.py:12-92 | every argument is found by following its pointer, the vector ends in null, the space behind the strings is zero, memory outside is unchanged |

## Left out

- VEX statements Dirty, PutI, StoreG, CAS and the four-operand operations, operands that are not flat, and partial overlap of memory accesses: memory is a set of word cells.
- The meaning of VEX operators, the register map of an architecture and lifting are parameters; the alias theorem assumes wrapping 32- and 64-bit additions and the entry stack registers that the alias pass mocks.
- `ArgValues.RoundTrip`: like `ArgValues.RoundTripAll` and `ArgValues.ArgumentsRoundTrip`, for values of exactly the size of their location; shorter ones are the subject of `ArgValues.ShortValueKeepsStaleBytes`.
- Calling conventions other than System V AMD64, the base class's own `next_arg`, the `is_fp` flag of locations, enumerations, bit fields, C++ and Rust types, bottom and unresolved types, and sizes that are not whole bytes.
- The vector extension class: no modelled scalar is wider than eight bytes, so SSEUP never arises and the code for it is not reached.
- A caller-chosen `stack_base` or `alloc_base`, and allocation that does not grow like the stack.
- StateHierarchy: weak references, locks, pickling and `full_simplify`; the traversal that networkx makes is a parameter that must be a postorder.
- `SimManager.SimulationManager.Step`: the hierarchy is not updated, because whether it stays a forest depends on histories that the engine makes.
- SimulationManager: exploration techniques, pseudo-stashes, the hierarchy updates inside `step`, and exceptions outside the resilience list; whether states can be merged is a predicate.
- `Vault.VaultDict.StoreThenLoad`: acyclic graphs only, because loading a cyclic one does not terminate in the code.
- Vault back ends other than the dictionary, and the choice of persistent ids.
- `KeyedRegion.KeyedRegion.StoreObject`: ranges of positive size only, so empty stores are not covered.
- Keyed regions: phi-node callbacks, `merge`, `merge_to_top` and `replace`.
- Blade: a node missing from the graph counts as having no predecessors.
- Blade's memory of ignored registers by name, and forward slicing, which the source does not implement either.
- `TypeJson.ToJson`: qualifiers, enumerations, C++ types and resolving references through a type collection are not modelled; attribute values of the wrong JSON kind are always refused; an anonymous struct object is assumed to occur once.
- Self-containing types and the size memo.
- `StringTable.StringTableSpec.Dump`: addresses do not wrap around: the table fits below the end address; symbolic strings are strings of whole bytes.
- `append_env` differs from `append_args` only in how its strings are assembled.
