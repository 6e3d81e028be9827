# Verified model of testigo's core

testigo is a Go testing library: test doubles that are put back to their initial
state before each subtest, spies that record calls, assertions over those calls,
value diffs, an in-memory table for repository doubles, and a generator for spies
and seeders. This project models the parts of it that carry real algorithms, in
Dafny, and proves what they promise.

`dafny verify dfyconfig.toml` checks everything.

## How it is laid out

- **Copying object graphs.** `Values` is the heap: typed values (scalars, pointers,
  structs, arrays, slices, maps, interfaces) in cells, backing arrays and tables.
  `Ownership` says when every backing array and map is held in one place. `Cloning` says
  what a clone is: a renaming of the source through `origin`, the map from new objects
  to the references they stand for, whose backing arrays and maps are held in one place
  each. `Positions`, `ClonePlaces`, `Sharing` and `Reproduction` prove what that means
  for anyone walking the graph, `Separation` that clones and later writes do not meet.
  `CloneProgress` and `Snapshots` hold the cloner itself, a class over a mutable heap with
  its visited table, proved to produce such a clone, and the call-time snapshots.
  `Loops`, `LoopFree` and `CloneExists` prove exactly which values have a clone.
  `SharingLost` and `SelfReference` apply all this to small values.
- **Restoring doubles.** `DoubleRuns` is a state machine whose steps are anything the
  program may do with memory it reaches from its variables, the registration of a
  double, and a reset; its invariant is that captured baselines cannot be reached.
  `DoubleRestore` proves what a reset gives back, in every run. `Doubles` is the code:
  registration, reset closures and spy clearing, proved to take those steps.
  `RegistrationOrder` applies it to two doubles in both orders.
- **Line diff and argument splitting.** `LineDiff`, `ArgSplitter`.
- **Calls.** `CallGraph` is the walk that renders the calls, `CallTrees` says what a
  drawing stands for, and `GraphRendering` is the renderer. `Accounting` says what
  matching, consuming and leftover calls mean, `ExpectationOrder` when the order of
  expectations matters, and `VirtualSpies` holds the checks.
- **Lists and tables.** `ElementsMatch`, `MemDb`, `Queries`.
- **Names and phrases.** `Names`, `Imports`, `ParamNames`, `Phrase`.
- `Options` is the type of values that may be absent, `FiniteSets` counts elements,
  `Filtering` keeps elements in order.

Code that works in place is a class or a loop proved against a function of its inputs
or its old state, and the theorems are about that function. Loops over Go maps are
modelled with an arbitrary order.

## Limits of the code, exactly

The comment on `NewDouble` says the wiring between doubles survives a restore. It does
exactly for targets registered no later than the double that points to them: `WiringExact`
and `RunWiring` give the condition in both directions, `ClientFirst` breaks the
promise.

The other limits contradict no documentation:

- The cloner remembers pointers by address and type, and slices and maps not at all. It
  reproduces the sharing of slices and maps exactly when the source shares them only
  through pointers, and of cells exactly when no two pointers differ in type only:
  `StorageSharingKept`, `CellSharingKept`; `MapHeldTwice` and `CellOfTwoTypes` are values
  that lose theirs, as a double holding one map in two fields does on every reset.
- Because of that the cloner comes to an end exactly on values from which no loop of
  slices and maps can be walked without following a pointer: `CloneExistsExactly`,
  `CloneValuePinned`. An argument or double with such a loop, like a map that holds
  itself (`SelfMapHasNoClone`), makes the code recurse without end, which the recovery
  from panics does not catch. What counts is what slices show: `CloneOfWindows`,
  `EmptySliceHasClone`.
- Copied slices have no spare capacity: `CapacityKept`.
- `needsSnapshot` is right exactly for the types it rejects and those with an indirection
  outside zero-length arrays: `NeedsSnapshotExact`, `NeedsSnapshotOvercautious`.
- `splitArgs` takes a quote after a backslash as escaped even when the backslash is
  itself escaped. It gives the arguments back exactly when each, read alone, ends outside
  any literal and bracket: `SplitExact`, `EscapedBackslashIsNotSplit`.
- `DrawGraph` leaves out cycles that no root leads to, once there is a root elsewhere:
  `DrawVisitsExactly`, `DetachedCycleIsMissing`.
- Expectations consume calls in order. Exact ones pass in every order exactly when no
  call matches two of them and each alone is satisfied; at-least ones may overlap as long
  as the calls nobody else matches are enough: `EveryOrderOfExactOnes`,
  `EveryOrderExactly`. Among exact ones the order decides the verdict exactly when they
  overlap and can still be eliminated one by one: `OrderDecidesExactly`, with the input
  `OrderMattersUnderOverlap`. Which lists with at-least expectations pass in some order
  is open.

## Assumptions the code makes

- `Reset` methods of doubles kept in memory only clear spies, which is what the one
  inherited from `Spy` does; `Reset` methods of external doubles leave the modelled
  memory alone.
- Equality of list elements is an equivalence, comparison functions for `OrderBy` are
  total preorders, and filters, key functions and updates are pure.
- The conservation theorem needs equal rendered heads to belong to the same callee.
- Call records collected from different spies are different records.

## Model

| member | source | states |
|---|---|---|
| Values.RejectedTypesHoldNoReference | internal/core/snapshots.go:38-54 | The fast path is sound: a value of a type `needsSnapshot` rejects holds no pointer, slice or map at any depth, whatever the value. |
| Values.ReferenceNeedsIndirection | internal/core/snapshots.go:38-54 | Only a type with an indirection outside every zero-length array has a value that holds a reference, and `needsSnapshot` accepts every such type. |
| Values.CanHoldReferenceExactly | internal/core/snapshots.go:38-54 | A type has a value holding a reference if and only if it has an indirection outside every zero-length array. |
| Values.NeedsSnapshotExact | internal/core/snapshots.go:38-54 | For every type: the answer is right (yes exactly when some value holds a reference) if and only if an accepted type has an indirection outside zero-length arrays. |
| Values.NeedsSnapshotOvercautious | internal/core/snapshots.go:49-50 | It is wrong on a zero-length array of pointers, which it accepts though no value of the type holds a reference. |
| Cloning.RenamedRefs | internal/core/snapshots.go:94-106 | Every reference in a clone is either a pinned pointer of its source, unchanged, or the new object that stands for one of the source's references. |
| Cloning.RenamingKeepsKeysApart | internal/core/snapshots.go:123-125 | Cloning never makes two different map keys equal, so the new map has one entry per old entry. |
| Cloning.WalkTogether | internal/core/snapshots.go:88-145 | Any path of pointer, field, index and map steps exists from the clone exactly when it exists from the source, and ends in a renaming of what it ends in there. |
| Cloning.CloneHasSameShape | internal/core/snapshots.go:71-145 | On every path the clone shows the same sight as the source (type, scalar, length, nil-ness), and two paths end in one pointer of one type in the clone if and only if they do in the source, cycles included. |
| Cloning.CloneIsDetached | internal/core/snapshots.go:71-145 | Every reference of the clone is to memory allocated by the cloning, except pinned pointers, which are the source's own. |
| Ownership.KeysHoldPointersOnly | internal/core/snapshots.go:124 | Map keys are comparable, so at no depth do they hold a slice or a map. |
| Sharing.EndsShared | internal/core/snapshots.go:107-126 | Two paths through a clone that end in one backing array or one map are the same path, or meet in a pointer of the source and go on together from there. |
| Sharing.SharedCells | internal/core/snapshots.go:97-103 | Two pointers of a clone lead to one cell if and only if in the source they are the same pointer of the same type. |
| Reproduction.CloneReproduces | internal/core/snapshots.go:71-145 | Everything a program can tell about a clone, for every pair of paths: same sights; pointers shared exactly as in the source for one type and never between types; slices and maps shared exactly where the paths meet in a pointer; no spare capacity. |
| Reproduction.StorageSharingKept | internal/core/snapshots.go:107-126 | A copy shares slices and maps as its source does if and only if the source shares them only through pointers. |
| Reproduction.CellSharingKept | internal/core/snapshots.go:56-59 | A copy shares cells as its source does if and only if no two pointers of the source have one address and different types. |
| Reproduction.CapacityKept | internal/core/snapshots.go:111 | A slice of the copy has the same length, and the same capacity if and only if the source slice has none to spare. |
| SharingLost.MapSplits | internal/core/snapshots.go:117-126 | Every clone of a pair holding one map twice holds two maps. |
| SharingLost.CellSplits | internal/core/snapshots.go:97-103 | Every clone of a pair of pointers of two types to one cell points to two cells. |
| SharingLost.MapHeldTwice | internal/core/snapshots.go:117-126 | The method clones a pair holding one map twice and ends with two maps. |
| SharingLost.CellOfTwoTypes | internal/core/snapshots.go:97-103 | The method clones a pair of pointers of two types to one cell and ends with two cells. |
| Separation.CloneIsCloneable | internal/core/snapshots.go:172-176 | The references into the memory of a clone are closed under what they show, go down in rank through slices and maps, and so allow the clone to be cloned over and over. |
| Separation.WalkUnchanged | internal/core/snapshots.go:71-145 | A walk that starts in a closed region gives the same result in every heap that agrees on that region. |
| Separation.CloneSurvivesMutation | internal/core/snapshots.go:71-145 | Separation: whatever is later written to any memory older than the clone, the clone still is to its source, on all paths and in all sharing, what it was when it was made. |
| Snapshots.Cloner.FixIndirections | internal/core/snapshots.go:88-145 | Terminates whenever what slices and maps show goes down in rank, by (pointer types and addresses not yet visited, rank, nesting); writes no cell that existed before; the result is a renaming of the source value; the slices and maps it holds are allocated by this very call, each stands in one place in it, and no other new object holds them. |
| Snapshots.Cloner.FixPointer | internal/core/snapshots.go:90-106 | A pinned pointer comes back unchanged, an already visited (address, type) pair as the pointer stored for it, any other as a new cell. |
| Snapshots.Cloner.ClonePointee | internal/core/snapshots.go:102-106 | A first visit keeps the invariant through the descent, cycles back to the same cell included. |
| Snapshots.Cloner.Reserve | internal/core/snapshots.go:102-104 | The new cell enters the visited table with a shallow copy before the descent, and from then on counts as not yet finished. |
| Snapshots.Cloner.Fill | internal/core/snapshots.go:105-106 | Storing the fixed value finishes that cell and touches no other. |
| Snapshots.Cloner.FixSlice | internal/core/snapshots.go:107-116 | A slice becomes one over a new array of exactly its length, with its elements renamed; it is never looked up in the visited table. |
| Snapshots.Cloner.FixMap | internal/core/snapshots.go:117-126 | A map becomes a new map with every entry's key and value renamed. |
| Snapshots.Cloner.FixEach | internal/core/snapshots.go:113-115 | Every element is renamed, and no two elements of the result share a backing array or map, whatever the source elements shared. |
| Snapshots.Cloner.FixFields | internal/core/snapshots.go:127-134 | The same for a struct's fields, although fields whose type needs no snapshot are skipped. |
| Snapshots.Cloner.FixEntries | internal/core/snapshots.go:122-125 | The new map holds, entry by entry, the renamed entries of the old one: setting a cloned key never overwrites an earlier one. |
| CloneProgress.IndexedAdd | internal/core/snapshots.go:97-103 | The visited table stays an injective map from (address, type) pairs to new cells. |
| CloneProgress.Reserved | internal/core/snapshots.go:102-104 | Entering a pointer in the visited table leaves every other new object finished and in possession of what it holds. |
| CloneProgress.Filled | internal/core/snapshots.go:105-106 | Filling a cell finishes it, and makes it the one holder of the slices and maps of its value. |
| CloneProgress.Published | internal/core/snapshots.go:111-126 | The same for a new backing array or map. |
| CloneProgress.OneMoreFixed | internal/core/snapshots.go:113-115 | One more element fixed: the earlier ones stay fixed and share no backing array and no map with it. |
| CloneProgress.AllHoused | internal/core/snapshots.go:71-145 | When the recursion ends, every new object is a finished copy of its origin, and every new backing array and map is held in one place only. |
| CloneProgress.EntryAdded | internal/core/snapshots.go:123-125 | A cloned key is new to the map being built. |
| Snapshots.CloneValuePinned | internal/core/snapshots.go:71-76 | From an empty visited table the cloner ends, and produces a clone in the sense of the lemmas above, for every value in order from which no loop of slices and maps can be walked without following a pointer; by `CloneExists.CloneExistsExactly` no other value has a clone. |
| Loops.CloneHasNoLoop | internal/core/snapshots.go:107-126 | A value that has a clone has no loop: no path leads from a slice or map back to it without following a pointer, since each round would end in another new object. |
| Loops.RoundsApart | internal/core/snapshots.go:107-126 | Two different numbers of rounds through such a loop are never one place: no pointer brings them together. |
| LoopFree.NoLoopIsCloneable | internal/core/snapshots.go:88-145 | Without a loop the references reached can be ranked so that slices and maps only show lower ones: the rank of a reference is the number of references below it. |
| CloneExists.CloneableHasClone | internal/core/snapshots.go:88-145 | Every value with such a ranking has a clone. |
| CloneExists.CloneExistsExactly | internal/core/snapshots.go:88-145 | A value in order has a clone if and only if no loop of slices and maps can be walked from it without following a pointer. |
| SelfReference.SelfMapHasNoClone | internal/core/snapshots.go:117-126 | A map that holds itself loops and has no clone. |
| SelfReference.CloneOfWindows | internal/core/snapshots.go:107-116 | An array whose first element is a slice of its second is cloned: the loop goes by what slices show, not by arrays. |
| SelfReference.EmptySliceHasClone | internal/core/snapshots.go:107-116 | An empty slice of an array that holds a slice of its whole self has a clone. |
| Snapshots.SnapshotParam | internal/core/snapshots.go:26-36 | The snapshot of one argument reproduces the argument as it was at call time in every later heap, whatever is written to memory older than the snapshot. |
| Snapshots.SnapshotParams | internal/core/snapshots.go:18-24 | The same for all arguments of a call together: taking later snapshots spoils no earlier one. |
| DoubleRuns.BaselinesUnreachable | internal/core/doubles.go:77-83 | Following any references from its variables, the program never meets memory of a captured baseline. |
| DoubleRuns.ProgramIsPublic | internal/core/doubles.go:65-91 | A program that writes only memory it reaches from its variables or allocated itself, and stores only references to such memory, leaves baselines unwritten and unreachable; both are derived, not assumed. |
| DoubleRuns.ProgramKeepsInv | internal/core/doubles.go:65-91 | So any step of such a program keeps the invariant. |
| DoubleRuns.RegisterKeepsInv | internal/core/doubles.go:65-91 | Registering a double the program reaches (external or in memory, zero-sized or not) keeps the invariant. |
| DoubleRuns.WalkUnderMorePins | internal/core/snapshots.go:160-170 | Registering further doubles does not change how an already captured baseline looks. |
| DoubleRuns.FreshCopyIsPublic | internal/core/doubles.go:82-83 | What a closure stores in the double is a fresh copy holding no reference into the baseline. |
| DoubleRuns.RestoreIsPublicStep | internal/core/doubles.go:81-86 | A reset closure leaves baselines as they are and unreachable, so it keeps the invariant. |
| DoubleRestore.RestoreStands | internal/core/doubles.go:82-84 | Right after its closure ran, a double reproduces, outside its spies, the state it was registered in, and its spies hold no calls. |
| DoubleRestore.StandsThrough | internal/core/doubles.go:24-30 | Closures of other doubles that run later in the same reset leave a restored double restored. |
| DoubleRestore.ResetKeepsInv | internal/core/doubles.go:24-30 | A whole reset keeps the invariant. |
| DoubleRestore.ResetRestores | internal/core/doubles.go:24-30 | After a reset every in-memory double sits at its own address and reproduces, outside its spies, its state at its latest registration: same sights, pointers shared as then, slices and maps shared only through pointers, no spare capacity; all unpinned targets are new and its spies are empty. |
| DoubleRestore.ResetWritesOnlyDoublesAndSpies | internal/core/doubles.go:62-64 | A reset writes nothing but in-memory doubles and spies: the fields of external doubles are left alone. |
| DoubleRestore.WiringExact | internal/core/snapshots.go:156-170 | A pointer held at registration is the same pointer after a reset if and only if it was pinned at the moment of registration. |
| DoubleRestore.RunKeepsInv | internal/core/doubles.go:65-117 | Every state of every run of program steps, registrations and resets satisfies the invariant, and registrations only accumulate. |
| DoubleRestore.RunRestores | internal/core/doubles.go:65-117 | In every run, whatever the program wrote in between, a reset gives back the double registered at an earlier step in the state it had then, in the same sense: every double that is no `Resetter`, and every one with a spy among its fields, by value or by pointer. |
| DoubleRestore.RunLeavesExternal | internal/core/doubles.go:72-82 | In every run, a `Resetter` without a spy among its fields, registered once, is not written by any reset. |
| DoubleRestore.RunWiring | internal/core/snapshots.go:160-170 | In every run, a reference from one double to another survives a reset if and only if its target was registered by then, or its type is a pinned one. Runs in which no test that registered a double has ended: its cleanup would take the registration back. |
| DoubleRestore.RunPinsAreDoubles | internal/core/mutations.go:19-30 | In every run an address is pinned if and only if it belongs to a registered double of non-zero size, as long as no test that registered a double has ended (the cleanup of line 31 is not a step of the model). |
| DoubleRestore.ZeroSizeExactly | internal/core/mutations.go:20-23 | A type is taken for zero-sized if and only if its fields and elements occupy no memory together. |
| RegistrationOrder.ClientFirstLosesWiring | internal/core/doubles.go:55-60 | The documented promise that wiring survives fails in every run that registers a client before the server it points to: after a reset it points to a private copy. |
| RegistrationOrder.ServerFirstKeepsWiring | internal/core/doubles.go:55-60 | In dependency order the client still points to the server itself. |
| RegistrationOrder.ClientFirst | internal/core/doubles.go:65-91 | The method registers a client, then its server, and resets; it ends with the client pointing to a private copy. |
| RegistrationOrder.ServerFirst | internal/core/doubles.go:65-91 | The method registers them in the other order; it ends with the client pointing to the server. |
| Doubles.ClearSpy | internal/core/spy.go:193-200 | The spy ends with an empty call list and no failures or unexpected calls, keeps its mutex or gets one, and nothing else is written. |
| Doubles.ClearSpies | internal/core/doubles.go:144-162 | Clears every spy held by value and every spy pointed to by a non-nil `*Spy` field, and changes no other field of the double. |
| Doubles.DoubleSet.NewDouble | internal/core/doubles.go:65-91 | Takes exactly the registration step of the state machine and keeps the invariant; adds one registration, which has a baseline if and only if the double is no `Resetter` or holds a spy by value or by pointer; the double itself is pinned before its baseline is taken. |
| Doubles.CloneBaseline | internal/core/snapshots.go:172-176 | A clone, under the current pins, of anything that can be ranked: of a double that is captured, and of its baseline at every reset. |
| Doubles.DoubleSet.KeepBaseline | internal/core/doubles.go:77-80 | Takes the capturing part of the registration step, for a double that is already pinned. |
| Doubles.DoubleSet.RestoreOne | internal/core/doubles.go:81-86 | The reset closure takes exactly the restore step of the state machine. |
| Doubles.DoubleSet.Reset | internal/core/doubles.go:24-30 | Runs every closure in order, and each in-memory double is then restored to its latest registration. |
| LineDiff.LcsIsUpperBound | internal/core/asserts.go:386-396 | No common subsequence of the two inputs is longer than the table's value. |
| LineDiff.WalkTurns | internal/core/asserts.go:398-419 | Kept plus removed lines spell the first input, kept plus added lines spell the second, and the number kept is the table's value. |
| LineDiff.KeptIsLongestCommon | internal/core/asserts.go:380-421 | The kept lines are a longest common subsequence: common to both inputs, and no common one is longer. |
| LineDiff.WalkIsShortest | internal/core/asserts.go:380-421 | Optimality over all edit scripts: any script turning the first input into the second has at least as many additions and removals. |
| LineDiff.WalkIsFirst | internal/core/asserts.go:398-419 | Of all shortest scripts it is the first: where any other one first differs, it keeps a line the other changes, or removes one before the other adds. |
| LineDiff.ChangesCounted | internal/core/asserts.go:398-419 | For any script, changes plus twice the kept lines equal the two lengths together. |
| LineDiff.FillTable | internal/core/asserts.go:382-396 | Every cell (i, j) of the table holds the longest-common-subsequence length of the two suffixes from i and j. |
| LineDiff.FillRow | internal/core/asserts.go:387-395 | The inner loop completes row i, given the rows below, and spoils none of them. |
| LineDiff.DiffLines | internal/core/asserts.go:380-421 | The loops over the table compute exactly the script those theorems single out, ties resolved towards removal. |
| ArgSplitter.SplitArgs | internal/core/asserts.go:589-621 | The loop computes the scanner function the round trip is about, the nil result on unterminated text included. |
| ArgSplitter.SplitExact | internal/core/asserts.go:589-621 | For any non-empty list of texts, splitting their comma-join followed by a closing parenthesis and any text gives them back if and only if each, read by itself, is not cut and ends outside any bracket and literal. |
| ArgSplitter.FindsArgument | internal/core/asserts.go:595-619 | A text followed by a separator is found as an argument if and only if it stands alone. |
| ArgSplitter.SplitInvertsJoin | internal/core/asserts.go:589-621 | So splitting inverts joining for any non-empty list of well-formed arguments: balanced brackets, no top-level comma, and quoted literals that may contain escaped quotes, brackets and commas but do not end in a backslash. |
| ArgSplitter.ReadItems | internal/core/asserts.go:595-619 | The scanner passes over any sequence of plain characters, literals and balanced groups, arbitrarily nested, and comes back to the same depth. |
| ArgSplitter.LiteralStandsAlone | internal/core/asserts.go:596-601 | A literal stands alone if and only if it does not end in a backslash (raw literals always do). |
| ArgSplitter.SplitLiteralExact | internal/core/asserts.go:596-601 | A call with one quoted literal is split correctly if and only if the literal does not end in a backslash. |
| ArgSplitter.EscapedBackslashIsNotSplit | internal/core/asserts.go:597 | A concrete failure: a literal that is one escaped backslash, followed by a second argument, is not split at all. |
| CallGraph.SiblingsClosed | internal/core/graph.go:108-128 | When a call's subtree has been rendered, every call below it has been visited, calls still in progress further up included. |
| CallGraph.SiblingsReachable | internal/core/graph.go:108-128 | Only calls reachable from the rendered caller are visited. |
| CallGraph.DrawVisitsExactly | internal/core/graph.go:38-46 | The graph shows a call if and only if its caller is reachable from a root, on every call graph, cyclic or not. |
| CallGraph.DrawShowsAll | internal/core/graph.go:88-99 | Every call is shown when the caller graph is acyclic, and when every caller is itself called. |
| CallGraph.DetachedCycleIsMissing | internal/core/graph.go:88-99 | Otherwise calls can be missing: a concrete cycle detached from the only root is not shown. |
| CallGraph.ExhaustedHasNoBlocks | internal/core/graph.go:109-112 | Rendering a callee a second time yields no child lines. |
| CallGraph.SiblingsConserve | internal/core/graph.go:109-128 | Collapsing loses nothing: each newly visited call adds exactly one to the (xN) counts of the tree, when equal heads name the same callee. |
| CallGraph.DrawConserves | internal/core/graph.go:101-148 | The counts over the whole drawn graph add up to the number of calls it shows. |
| GraphRendering.GraphRenderer.constructor | internal/core/graph.go:62-86 | The maps built in one pass describe the calls: children per caller in recorded order, callers in order of first appearance, the set of callees. |
| CallTrees.ChildrenListed | internal/core/graph.go:74-80 | The children of a caller are its calls, all of them, in the order of the record. |
| CallTrees.CallersListed | internal/core/graph.go:74-78 | The callers stand in the order of their first calls, each once. |
| CallTrees.RootsListed | internal/core/graph.go:88-99 | The roots are the callers nobody calls, in that order; all callers when there is none. |
| CallTrees.ExploreOnce | internal/core/graph.go:108-122 | In the tree of calls the drawing stands for, every newly visited call is one node, and nothing else is. |
| CallTrees.ExploreFollows | internal/core/graph.go:108-122 | Each node stands below a node whose callee makes its call, or below the caller the walk began with. |
| CallTrees.SiblingsEncode | internal/core/graph.go:108-128 | Equal neighbours are collapsed and nothing else is: at every level no two neighbouring blocks agree in head, notes and what is below, and repeating each block as often as it counts gives head, notes and children of the siblings newly visited there, in order. |
| CallTrees.DrawDepicts | internal/core/graph.go:38-46 | The same for the whole forest, one tree per root in the order of the roots. |
| GraphRendering.GraphRenderer.ListRoots | internal/core/graph.go:88-99 | Callers nobody calls, in order; all callers when there is none. |
| GraphRendering.GraphRenderer.RenderChildren | internal/core/graph.go:101-128 | Terminates on every graph; its blocks stand, neighbours that look alike collapsed and counted, for the calls newly visited below the caller, and it visits those. |
| GraphRendering.DrawGraph | internal/core/graph.go:19-49 | The loop over the roots, sharing one visited set, draws one tree per root, in order, that stands for the calls found below it. |
| Accounting.MatchesExactly | internal/core/spy.go:466-588 | An expectation matches a call if and only if the methods agree; the caller, when one is expected, is of the same package and its type name occurs in the expected one; and the arguments, when any are expected, are as many and each equal to, accepted by the matcher for or in the place of anything, the argument snapshot at call time, or the argument itself when there is no snapshot. |
| Accounting.SnapshotDecides | internal/core/spy.go:36-41 | A call whose arguments were snapshot is matched by exactly the expectations that match a call made with those arguments. |
| Accounting.VerdictExactly | internal/core/spy.go:242-275 | No error is reported if and only if each expectation, in its turn, matches as many calls as it asks for, exactly or at least, not counting those an earlier one matches; then exactly the calls no expectation matches are left. |
| Accounting.ReportsExactly | internal/core/spy.go:242-275 | With errors too: every expectation is judged by the calls its predecessors left, where one that passed took its matches, one that failed took every call of its method and an invalid one none; the failed ones are reported in order with what they found. |
| Accounting.NoErrorsPartition | internal/core/spy.go:242-275 | When verification reports no error, every expectation consumed as many calls as it asked for, all of them its own, no call was consumed twice, and consumed plus leftover calls are the record. |
| Accounting.VerifyExactly | internal/core/spy.go:242-275 | If no call matches two expectations, no error is reported if and only if each expectation alone is satisfied on the full record. |
| ExpectationOrder.VerifyInAnyOrder | internal/core/spy.go:242-275 | So the order of such expectations does not change the verdict. |
| ExpectationOrder.EveryOrderExactly | internal/core/spy.go:242-275 | Any list of expectations passes in every order if and only if each is valid and satisfied both by all the calls it matches and by those no other one matches. |
| ExpectationOrder.EveryOrderOfExactOnes | internal/core/spy.go:242-275 | Exact expectations pass in every order if and only if no call matches two of them and each alone is satisfied. |
| ExpectationOrder.SomeOrderExactly | internal/core/spy.go:242-275 | Exact expectations pass in some order if and only if they can be eliminated one by one, each satisfied by itself on what the eliminated ones leave; which candidate goes first makes no difference. |
| ExpectationOrder.ToFront | internal/core/spy.go:242-275 | In a passing list, an exact expectation satisfied by itself on the record can go first. |
| ExpectationOrder.OrderDecidesExactly | internal/core/spy.go:242-275 | For exact expectations two orders give two verdicts if and only if they can be eliminated one by one and some call matches two of them. |
| ExpectationOrder.OrderMattersUnderOverlap | internal/core/spy.go:242-275 | With overlap the order can decide: a particular and a general expectation, once each, accept two concrete calls in one order only. |
| Accounting.UncoveredExactly | internal/core/spy.go:753-769 | Nothing is left uncovered if and only if every call not made by a Test function is matched by some error-free expectation; counts play no part. |
| ExpectationOrder.UncoveredInAnyOrder | internal/core/spy.go:753-769 | The uncovered calls do not depend on the order of the expectations although consumption is sequential. |
| Accounting.SplitPackageAndTypeExact | internal/core/spy.go:534-540 | A component is its package, a dot and a dot-free type, split at the last dot; without a dot it is all type. |
| VirtualSpies.MatchingInIsMatching | internal/core/spy.go:466-487 | Filtering a bucket by caller and then by parameters finds exactly the remaining calls the expectation is about, each once. |
| VirtualSpies.ConsumeKeepsSorted | internal/core/spy.go:563-588 | Consuming calls in their bucket removes exactly them from what is left. |
| VirtualSpies.VirtualSpy.constructor | internal/core/spy.go:771-805 | Grouping puts every collected call into the bucket of its method once, in whatever order the spies come. |
| VirtualSpies.VirtualSpy.FilterMatchingCalls | internal/core/spy.go:466-487 | The loops select by caller, if one is given, and by parameters, if any are given: by the arguments at call time where a snapshot has them. |
| VirtualSpies.VirtualSpy.ConsumeMatchingCalls | internal/core/spy.go:563-588 | The bucket keeps what is not consumed, in order; the other buckets are untouched. |
| VirtualSpies.VirtualSpy.VerifyOne | internal/core/spy.go:246-273 | One expectation: an invalid one takes nothing, a satisfied one its matches, and an unsatisfied one drops the whole bucket of its method. |
| VirtualSpies.VirtualSpy.VerifyExpectations | internal/core/spy.go:242-275 | The loop over the expectations reports the failures, each with the number of calls found, and leaves the calls, that `ReportsExactly` describes. |
| VirtualSpies.VirtualSpy.CheckUnexpectedCalls | internal/core/spy.go:325-348 | Lists each remaining call not made by a Test function once, whatever order the map is walked in, and succeeds if and only if there is none. |
| VirtualSpies.SnapshotsKeepVerdicts | internal/core/spy.go:36-41 | Changing the arguments of any calls of any spies after they were snapshot changes neither verdict, whatever the expectations. |
| VirtualSpies.AssertCalls | internal/core/spy.go:628-648 | Passes if and only if each expectation, in its turn, finds as many calls as it asks for and, when asked, every call is matched by an expectation or made by a Test function; only the set of collected calls matters, not their order. |
| VirtualSpies.CheckUncoveredCalls | internal/core/spy.go:753-769 | Passes if and only if every collected call is made by a Test function or matched by an error-free expectation. |
| ElementsMatch.DifferenceCounts | internal/core/behavior_asserts.go:112-128 | Greedy subtraction leaves, of every class of equal elements, the excess of the first list over the second, or none. |
| ElementsMatch.CountsPermute | internal/core/behavior_asserts.go:104-106 | Lists with the same number of elements of every class can be paired off element by element. |
| ElementsMatch.MatchExact | internal/core/behavior_asserts.go:104-108 | Nothing missing and nothing extra if and only if the lists are permutations of each other, for any equality that is an equivalence. |
| ElementsMatch.MarkFirst | internal/core/behavior_asserts.go:117-122 | The inner loop flags the first unused equal element, and reports whether there was one. |
| ElementsMatch.ComputeDifference | internal/core/behavior_asserts.go:112-128 | The flag array amounts to removing elements from the second list one by one. |
| ElementsMatch.ElementsMatchAt | internal/core/behavior_asserts.go:93-110 | Passes if and only if both values are lists and each is a permutation of the other. |
| MemDb.RunRefines | memdb/db.go:34-83 | After any run of stores, updates and deletes: no key twice, each key maps to its last write since its last deletion, and rows stand in the order in which their keys were last stored while absent. |
| MemDb.PutKeeps | memdb/db.go:44-50 | Storing changes the value of one key only, keeps every position, and appends a new key at the end. |
| MemDb.RemoveKeeps | memdb/db.go:71-83 | Deleting forgets one key and keeps all other values. |
| MemDb.ReinsertMovesToEnd | memdb/db.go:34-83 | Deleting a key and storing it again moves its row to the end. |
| MemDb.DB.constructor | memdb/db.go:16-20 | An empty table, with or without a key function. |
| MemDb.New | memdb/db.go:24-30 | Seeding is the run that inserts the values one after another. |
| MemDb.DB.Insert | memdb/db.go:34-41 | Stores under the derived key and returns it; without a key function it panics and changes nothing. |
| MemDb.DB.Set | memdb/db.go:44-50 | The map and the order slice together become the association list with the row stored, and stay in agreement. |
| MemDb.DB.Get | memdb/db.go:53-56 | Finds exactly what the association list holds. |
| MemDb.DB.Update | memdb/db.go:59-68 | Replaces a present row in place by its update, and changes nothing for an absent key. |
| MemDb.DB.Delete | memdb/db.go:71-83 | Removes the row from map and order alike, and reports whether it was there. |
| MemDb.DB.Len | memdb/db.go:86-88 | The size of the map is the length of the association list. |
| MemDb.DB.All | memdb/db.go:91-97 | The values of the association list in order. |
| Queries.StableSortSorts | memdb/db.go:164-166 | The sort is ordered and keeps the rows of every class of equal rows in their original order, for any total preorder. |
| Queries.StableSortUnique | memdb/db.go:164-166 | There is only one such arrangement. |
| Queries.AnyStableSort | memdb/db.go:164-166 | So a function is a stable sort if and only if it computes this one. |
| Queries.SortThenFilter | memdb/db.go:157-166 | Sorting before filtering would give the same rows. |
| Queries.WhereOrderIrrelevant | memdb/db.go:133-136 | The order in which filters were added does not matter. |
| Queries.WhereAnds | memdb/db.go:132-136 | Adding a filter keeps exactly the earlier matches that also pass it. |
| Queries.PagesConcatenate | memdb/db.go:167-175 | For any positive page size, enough consecutive pages put together are the unpaged result. |
| Queries.SortStableFunc | memdb/db.go:165 | The loop computes the unique stable sort. |
| Queries.Query.Keeps | memdb/db.go:194-201 | True if and only if every filter passes. |
| Queries.AnswerExactly | memdb/db.go:157-177 | A query has exactly one answer, for any comparison that is a total preorder: the window that offset and limit cut out of the rows passing every filter, in their original order or, when an order is asked for, stably sorted by it. |
| Queries.Query.Rows | memdb/db.go:157-177 | Gives that answer; non-positive offsets and negative limits cut nothing off. |
| Queries.Query.First | memdb/db.go:180-187 | The first row of the answer to the query without a limit, or none; it leaves the limit at one for good. |
| Queries.Query.Count | memdb/db.go:190-192 | The number of rows in the answer, offset and limit included. |
| Names.DecimalInjective | internal/testigogen/imports.go:53 | Different suffix numbers are written differently. |
| Names.DecimalReads | internal/testigogen/imports.go:53 | A number in decimal reads back and has no leading zero. |
| Names.CandidatesDistinct | internal/testigogen/imports.go:47-53 | The names the suffix search tries are pairwise distinct. |
| Names.TriedAtMost | internal/testigogen/imports.go:48-54 | Pigeonhole: no more candidates can be taken than there are names in use, so the search ends. |
| Names.CandidateTaken | internal/testigogen/imports.go:48-54 | A taken candidate brings the search to the next one, and the number tried stays within the number of names in use. |
| Names.GrowIsLeast | internal/testigogen/spy.go:80-82 | The name found is the original with the fewest suffixes that make it free. |
| Names.GrowIsValid | internal/testigogen/spy.go:80-82 | Appending the suffix turns identifiers into identifiers, never into a keyword. |
| Names.GrowName | internal/testigogen/spy.go:80-82 | The renaming loop terminates, by the set of used names at least as long as the current one, with that name. |
| Imports.PathBaseIsBase | internal/testigogen/imports.go:43 | The base of a path is its last element, slashes at its end left aside, a slash for nothing but slashes, a dot for the empty path. |
| Imports.NewAliasIsFree | internal/testigogen/imports.go:42-54 | The alias is an identifier no path uses: the requested name, or the base of the path when none is requested, made an identifier, if that is free, and otherwise followed by the least number from 2 on that frees it. |
| Imports.PreferredNameIsUsed | internal/testigogen/imports.go:42-56 | A new path gets the requested name itself when that is an identifier no path uses. |
| Imports.PathNameIsUsed | internal/testigogen/imports.go:42-56 | Without a request it gets what follows the last slash of the path, when that is an identifier no path uses. |
| Imports.AddKeepsInverse | internal/testigogen/imports.go:35-58 | Adding a path keeps the two maps mutual inverses and changes no alias given out before. |
| Imports.AddAllKeepsAliases | internal/testigogen/imports.go:35-58 | The same over any sequence of requests. |
| Imports.AliasesDistinct | internal/testigogen/imports.go:35-58 | After any sequence of requests two imported paths never share an alias. |
| Imports.ImportSet.AddImport | internal/testigogen/imports.go:35-58 | For a new path, records the requested name as its default, and the first free form of that name as its alias in both maps; a known path, the empty path and the package itself change nothing, and the last two get no alias. |
| Imports.ImportSet.FindAlias | internal/testigogen/imports.go:47-54 | The unbounded suffix search terminates with the name, or with the least number that makes it free. |
| Imports.SanitizeReplacesLittle | internal/testigogen/imports.go:101-115 | Character by character: what cannot stand at its place in an identifier becomes an underscore, all else stays; nothing at all becomes `value`. |
| Imports.Sanitize | internal/testigogen/imports.go:101-115 | The result is always an identifier, and identifiers are left as they are. |
| ParamNames.MethodNamesExactly | internal/testigogen/spy.go:74-83 | Each parameter keeps a usable name, else gets `ctx` for a context, its type's name with a small first letter if that is an identifier, or its number; followed by the fewest suffixes that tell it from the receiver and the parameters before it. |
| ParamNames.MethodNamesSound | internal/testigogen/spy.go:68-89 | For every signature the parameter names are valid identifiers, pairwise distinct, and none is the receiver's. |
| ParamNames.GoodNamesKept | internal/testigogen/spy.go:75-83 | Usable, distinct names are kept as written. |
| ParamNames.BuildMethod | internal/testigogen/spy.go:68-95 | The loop computes those names; generic signatures are refused. |
| ParamNames.SeederNamesExactly | internal/testigogen/seeder.go:44-58 | Each parameter but the entity gets the fewest suffixes that tell it from `t`, `repository`, `value` and the parameters before it. |
| ParamNames.SeederNamesSound | internal/testigogen/seeder.go:44-58 | The constructor parameters are pairwise distinct and none is `t`, `repository` or `value`. |
| ParamNames.SeederKeepsOthers | internal/testigogen/seeder.go:50-53 | Names that clash with nothing are kept. |
| ParamNames.RenameForSeeder | internal/testigogen/seeder.go:44-58 | The loop renames the method's parameters in place, leaves the entity parameter alone, and collects the constructor parameters. |
| Phrase.PhraseWordsAreAVocabulary | random/phrase.go:11-20 | The 64 words are pairwise distinct and free of hyphens. |
| Phrase.SplitInvertsJoin | random/phrase.go:52-56 | Splitting a hyphen-join of hyphen-free words gives the words back. |
| Phrase.JoinInvertsSplit | random/phrase.go:56 | Joining the parts of any text gives the text back. |
| Phrase.ParseInvertsEncode | random/phrase.go:45-69 | Parsing an encoded seed gives its low 24 bits. |
| Phrase.EncodeInvertsParse | random/phrase.go:45-69 | Encoding what an accepted phrase parses to gives exactly that phrase. |
| Phrase.AcceptedExactly | random/phrase.go:61-67 | A list of parts has a value if and only if every part is a known word. |
| Phrase.BuildIndex | random/phrase.go:22-28 | The index map agrees with the position of each word. |
| Phrase.EncodeIsFourWords | random/phrase.go:45-53 | A phrase is the words of the four lowest base-64 digits of the seed, lowest first, joined by hyphens. |
| Phrase.EncodePhrase | random/phrase.go:45-53 | The loop over the digits computes that phrase, which parses back to the seed modulo 2^24. |
| Phrase.ParsePhrase | random/phrase.go:55-69 | The loop from the last part to the first computes the parse; an accepted phrase is the encoding of the result. |
| Phrase.ParseWith | random/phrase.go:55-69 | The same for any vocabulary, rejected phrases included. |

## Left out

- Snapshots.Cloner.FixIndirections: the destination is passed and returned by value, not written through an address, so pointers into the middle of a struct, array or slice do not occur; a backing array or map appears in the heap once it is filled, not when it is allocated.
- Snapshots.SnapshotParam: the fallback that keeps the argument itself when cloning panics is not modelled.
- ArgSplitter.SplitArgs: works on characters where the source slices and looks back by bytes.
- GraphRendering.GraphRenderer.RenderChildren: gives the blocks; turning blocks into lines with connectors is left out, and sub-lines are compared as trees instead of as joined text.
- GraphRendering.DrawGraph: heads and notes are values carried by a call, so colours, argument text and the marking of failures are left out; a function is a pair of names instead of the two joined by a dot.
- VirtualSpies.VirtualSpy.VerifyExpectations: reports which expectation failed on how many calls; the texts, the calls shown with them and the closest-call hints are left out.
- Recorded arguments are opaque values compared by equality, which stands for `reflect.DeepEqual`; matchers are arbitrary predicates on them.
- Queries.SortStableFunc: stands for Go's library sort by an insertion sort; by `AnyStableSort` any stable sort gives the same rows.
- MemDb.DB.Insert: the panic on a table without a key function is an absent result.
- Phrase.EncodePhrase: the seed is a natural number, with remainder and division for the mask and the shift.
- ParamNames.BuildMethod: types are reduced to what the naming looks at, and identifiers are ASCII.
- DoubleRestore.RunWiring, and the other theorems over runs: the end of a test, which takes back the registrations of its doubles, is not a step.
- Goroutines: which spies a test can see, per-test registries and their cleanups, and locks.
- NaN keys, functions and channels as more than opaque scalars, reflection and unsafe access to unexported fields.
- `DidChange` and `Changed`, `diffValues` and its cap, `Before`, `After` and `Within`.
- Copies of a `DB` value that share its map but not its order slice.
- The shorthands `DB.Where` and `DB.First`, and `Text`, `Phrase` and the random draws.
- Package loading, type checking, rendering of generated Go code and the command-line tool.
