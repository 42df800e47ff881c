# A verified model of the dependency viewer

The program shows, for a set of Windows executables, the tree of modules they
import, which import each module takes from which other module, and the
exports nobody uses. This project models the parts of it that carry an
argument and proves what they promise.

* **Export table and matcher** (`ExportTable`, `Matcher`, `PairAll`): compacting a
  sparse export address table (Microsoft PE/COFF Specification, section 6.3) and
  looking up imports in it (section 6.4). The acceptance test is one counter and
  one sortedness check; the proof shows that they amount to an injective, total,
  sorted name table. Each fast lookup refines a linear scan, and the pass over
  the whole tree sets the used marks exactly.
* **Dependency tree** (`DependencyTree`, `Discovery`, `TreeOrder`, `InstanceRing`,
  `ModulesList`, `Processor`, `Results`): a work queue over a possibly cyclic graph ends in a
  finite tree that holds exactly the reachable files at their shortest depth; a
  second pass threads the instances of each file into a ring. `Results` states what
  is handed out in terms of the files and their tables alone.
* **Task pipeline** (`ThreadWorker`, `Pipeline`, `PipelineSafety`, `PipelineBodies`,
  `PipelineExit`, `PipelineLoop`, `PipelineProgress`, `MainWindow`): main thread and worker
  thread as a transition system. An action is one step of one thread; runs are arbitrary
  interleavings. Safety holds in every reachable state, and without new requests the
  pipeline comes to rest. The message loop with its wake messages is part of the system,
  so rest means that the loop is blocked. The class in `MainWindow` is the object of the
  source, and its methods on both threads are proved to be runs of these steps.
* **Memory and strings** (`VirtualMemory`, `AllocatorSmall`, `AllocatorBig`, `Allocator`,
  `UniqueStrings`), **section lookup** (`Section`), **sorted views** (`SortView`,
  `Sorting`) and the **string comparisons** (`Text`).

## How to read it

Where the source changes things in place the model is a class or a method with
loops, proved equal to a function on values; what the source promises is then
proved about that function. Addresses of tree nodes are indexes into an arena, as
the source itself computes a child's number from its address. Sums the source does
in 16 or 32 bits are wrapped explicitly. Sizes are those of a 64-bit build.

`dafny verify dfyconfig.toml` checks everything.

## What the proofs found

* `basic_string_case_insensitive_less` folds the terminator to a space. It is a strict
  weak order on a set of names exactly when no name has two space-like continuations
  in the set that do not tie (`Text.StrictWeakOrderExactly`); its ties are
  case-insensitive equality exactly when no name continues another one that way
  (`Text.OrdersUpToCaseExactly`). Both can fail (`Text.SpacesBreakTheOrder`), and on such
  a continuation, "a" and "a b", the assertion of equal lengths behind the loop fails
  (`Text.LengthAssertionFailsExactly`).
* Two exports may carry one name. The lookup then depends on the hint, and it agrees with
  a scan under every hint exactly when the name is exported once at most
  (`Matcher.ScanAgreesExactly`).
* The worker thread leaves jobs behind exactly when one is added after the stop job
  (`ThreadWorker.StopLastExactly`); the pipeline never does that
  (`PipelineExit.ThreadExitIsClean`).
* `pe_find_object_in_raw` accepts an object that does not fit when offset plus size
  wraps at 32 bits (`Section.FoundObjectsExactly`, `Section.HugeSizeWraps`); a section
  that reaches the top of the address space is never matched
  (`Section.WrappedComparison`, `Section.TopSectionIsMissed`).
* `refresh` cancels every registered task, also a close task that has not run yet; the
  window can then stay hidden with nothing pending
  (`PipelineExit.HiddenWindowCanStay`). `PipelineExit.ClosingExactly` says for every run
  when that happens.
* A parsed string has at most 32767 characters, one less than the search limit.
* An export directory that reaches the top of the address space has no forwarders
  (`ExportTable.ForwardersExactly`), and the test on the number of names rejects no table
  that would be accepted otherwise (`ExportTable.NamesFitAddresses`).
* The "Bad hint" rejection and the rejection of unequal name columns cannot happen
  (`ExportTable.ProcessExportEat`).

## Model

| member | source | states |
|---|---|---|
| Text.CaseInsensitiveEqual | DependencyViewer/DependencyViewer/src/nogui/my_string.cpp:65-89 | the loop decides that the strings are equally long and agree unit by unit in all bits but bit 5 |
| Text.FoldExactly | DependencyViewer/DependencyViewer/src/nogui/my_string.cpp:83 | setting bit 5 makes two units equal if and only if they agree in all other bits; only NUL and space become a space |
| Text.LettersFold | DependencyViewer/DependencyViewer/src/nogui/my_string.cpp:83 | each capital letter is folded with its small letter and with nothing else |
| Text.CiEqualExactly | DependencyViewer/DependencyViewer/src/nogui/my_string.cpp:65-89 | folded strings are equal if and only if the strings are equally long and agree in all bits but bit 5 |
| Text.CaseInsensitiveHash | DependencyViewer/DependencyViewer/src/nogui/my_string.cpp:25-36 | strings that are equally long and agree in all bits but bit 5 hash alike, whatever the mixing step is |
| Text.CaseInsensitiveLess | DependencyViewer/DependencyViewer/src/nogui/my_string.cpp:129-157 | the loop over min length + 1 units, terminator included, computes the head-first comparison; FoldedLessExactly says what that decides |
| Text.FoldedLessExactly | DependencyViewer/DependencyViewer/src/nogui/my_string.cpp:141-156 | less if and only if, at the first place where the strings differ by more than bit 5, terminator as a space, the unit with bit 5 set is smaller |
| Text.LessExactly | DependencyViewer/DependencyViewer/src/nogui/my_string.cpp:95-123 | the exact order is decided at the first place where the strings differ, and a prefix comes first |
| Text.TiesExactly | DependencyViewer/DependencyViewer/src/nogui/my_string.cpp:141-156 | two strings tie exactly when they are equal up to case or one is the other continued by a unit that folds to a space |
| Text.LengthAssertionFailsExactly | DependencyViewer/DependencyViewer/src/nogui/my_string.cpp:141-156 | the assertion that the lengths are equal when the loop runs out fails if and only if one string is the other continued by a unit that folds to a space |
| Text.FoldedLessIsLexicographic | DependencyViewer/DependencyViewer/src/nogui/my_string.cpp:141-156 | away from such pairs the comparison is the exact order of the folded strings |
| Text.StrictWeakOrderExactly | DependencyViewer/DependencyViewer/src/nogui/my_string.cpp:129-157 | on a set of strings the comparison is a strict weak order, as std::sort requires, if and only if no string of the set has two space-like continuations in it that do not tie |
| Text.OneContinuationTies | DependencyViewer/DependencyViewer/src/nogui/my_string.cpp:129-157 | a single continuation breaks no sort: "a" and "a " are ordered, although their tie is not case-insensitive equality |
| Text.OrdersUpToCaseExactly | DependencyViewer/DependencyViewer/src/nogui/my_string.cpp:129-157 | its ties on a set of strings are case-insensitive equality if and only if no string is another one continued by a space-like unit |
| Text.SpacesBreakTheOrder | DependencyViewer/DependencyViewer/src/nogui/my_string.cpp:129-157 | both conditions can fail: "a" ties with "a b" and with "a c", which do not tie with each other |
| Text.NotLessTransitive | DependencyViewer/DependencyViewer/src/nogui/my_string.cpp:95-123 | "not less" is transitive for the exact order, so comparing neighbours decides sortedness |
| ExportTable.ProcessExportEat | DependencyViewer/DependencyViewer/src/nogui/pe2.cpp:171-292 | accepted if and only if there is no directory, or its fields are sound (ordinal base plus address count at most 0xFFFF unwrapped, no table with entries lacks its address) and, when there are addresses, the ordinal table is injective, every name points at a used slot, all names and forwarders parse and the names are sorted; then the outputs are compacted and well formed (hints and name slots inverse to each other, ordinals strictly increasing, no index equal to the sentinel); the "bad hint" and "two columns differ" rejections never happen |
| ExportTable.DirectoryErrorsExactly | DependencyViewer/DependencyViewer/src/nogui/pe/export_table.cpp:41-46 | each of the four tests on sums and counts rejects exactly what it says, with nothing wrapped |
| ExportTable.NamesFitAddresses | DependencyViewer/DependencyViewer/src/nogui/pe/export_table.cpp:44 | acceptable tables never have more names than addresses, so that test rejects none of them |
| ExportTable.DirectoryTestsExactly | DependencyViewer/DependencyViewer/src/nogui/pe/export_table.cpp:41-46 | given acceptable tables the directory tests together amount to sound fields |
| ExportTable.ForwardersExactly | DependencyViewer/DependencyViewer/src/nogui/pe2.cpp:250 | the wrapped test for a forwarder finds the addresses inside the export directory, and none when the directory reaches the top of the address space |
| ExportTable.GoodForwardersExactly | DependencyViewer/DependencyViewer/src/nogui/pe2.cpp:256-257 | a good forwarder is a file and a name with a dot between, of two characters together at least |
| ExportTable.ExportOfSlot | DependencyViewer/DependencyViewer/src/nogui/pe2.cpp:230-267 | an unused slot is not exported; a used one has one export with its own ordinal, its forwarder if the address lies in the directory and the address itself if not, and the name that points at it, if any |
| ExportTable.Compact | DependencyViewer/DependencyViewer/src/nogui/pe2.cpp:230-267 | the loop fills export arrays and name slots as the used slots say, counts the filled name slots, and fails only on tables that are not acceptable |
| ExportTable.AllFilledExactly | DependencyViewer/DependencyViewer/src/nogui/pe2.cpp:265-269 | the single counter test holds if and only if the ordinal table is injective and hits used slots only (pigeonhole) |
| ExportTable.ParseSlot | DependencyViewer/DependencyViewer/src/nogui/pe2.cpp:241-259 | name and entry point of one slot; a failure means the table is not acceptable |
| ExportTable.UsedSlotPosition | DependencyViewer/DependencyViewer/src/nogui/pe2.cpp:230-236 | the compacted index of a used slot is the number of used slots before it |
| ExportTable.FirstIndex | DependencyViewer/DependencyViewer/src/nogui/pe/export_table.cpp:112-119 | the ordinal-table search yields the first occurrence and nothing before it matches |
| ExportTable.NamesSorted | DependencyViewer/DependencyViewer/src/nogui/pe2.cpp:270-277 | the sortedness test compares neighbours through the name slots |
| ExportTable.SortedExactly | DependencyViewer/DependencyViewer/src/nogui/pe2.cpp:270-278 | when all name slots are filled, that test holds if and only if the names of the file are sorted pairwise |
| ExportTable.CompactedIsWellFormed | DependencyViewer/DependencyViewer/src/nogui/pe2.cpp:260-290 | compacted, fully filled and sorted tables satisfy everything their readers rely on |
| Matcher.LowerBoundOrdinal | DependencyViewer/DependencyViewer/src/gui/import_export_matcher.cpp:63-64 | binary search over strictly increasing ordinals finds the boundary |
| Matcher.LowerBoundName | DependencyViewer/DependencyViewer/src/gui/import_export_matcher.cpp:85-86 | binary search over the name slots, compared through the names, finds the boundary |
| Matcher.BoundIsFirstSlot | DependencyViewer/DependencyViewer/src/gui/import_export_matcher.cpp:86-90 | the entry at the boundary carries the name exactly when some slot does, and is the first one |
| Matcher.MatchImport | DependencyViewer/DependencyViewer/src/gui/import_export_matcher.cpp:45-103 | guess first, binary search second, computes the specified resolution of one import |
| Matcher.ResolveRefinesScan | DependencyViewer/DependencyViewer/src/gui/import_export_matcher.cpp:45-103 | the lookup finds an export if and only if a linear scan does, what it finds carries the key, and it is the index of the scan for every ordinal and every name exported once |
| Matcher.ScanAgreesExactly | DependencyViewer/DependencyViewer/src/gui/import_export_matcher.cpp:74-90 | for every name and table, what the lookup finds is the index of the scan under every hint if and only if the name is exported once at most |
| Matcher.HintPicksAmongEqualNames | DependencyViewer/DependencyViewer/src/gui/import_export_matcher.cpp:79-82 | a well-formed table on which hint and scan name different exports |
| Matcher.PairExportsWithImports | DependencyViewer/DependencyViewer/src/gui/import_export_matcher.cpp:105-132 | the reverse index holds the last import of each export, and the used marks gain exactly the matched exports |
| Matcher.ReverseRoundTrip | DependencyViewer/DependencyViewer/src/gui/import_export_matcher.cpp:113-131 | the reverse index is determined by the matches, and export to import to export is the identity |
| DependencyTree.DuplicateKeepsInv | DependencyViewer/DependencyViewer/src/gui/processor_impl.cpp:171-181 | a file seen again becomes a leaf that points at its original; the tree shape, the queue and the map of originals stay consistent |
| DependencyTree.OriginalKeepsInv | DependencyViewer/DependencyViewer/src/gui/processor_impl.cpp:197-218 | expanding a file keeps: child blocks partition the nodes, nothing is queued twice, every node is waiting, an original, a leaf duplicate or a missing leaf |
| DependencyTree.StepKeepsInv | DependencyViewer/DependencyViewer/src/gui/processor_impl.cpp:169-219 | every round keeps that invariant |
| DependencyTree.ImportsExactly | DependencyViewer/DependencyViewer/src/gui/processor_impl.cpp:221-239 | a file is imported exactly when the lookup for main file, importer and DLL name, in these roles, locates it |
| Discovery.DuplicateShrinksQueue | DependencyViewer/DependencyViewer/src/gui/processor_impl.cpp:173-181 | termination measure: no new pending path and a shorter queue |
| Discovery.OriginalShrinksPending | DependencyViewer/DependencyViewer/src/gui/processor_impl.cpp:182-218 | termination measure: strictly fewer paths are still to be expanded, on any cyclic graph |
| Discovery.RunKeepsRunInv | DependencyViewer/DependencyViewer/src/gui/processor_impl.cpp:156-167 | over a whole run: found files lie on chains as long as their depth, the queue is sorted by depth over two levels, and a failed run fails on a reachable file |
| Discovery.FoundWithin | DependencyViewer/DependencyViewer/src/gui/processor_impl.cpp:156-239 | when the queue is empty, everything on an import chain of n links is known no deeper than n |
| Discovery.RunDiscoversExactly | DependencyViewer/DependencyViewer/src/gui/processor_impl.cpp:156-239 | one root run succeeds if and only if every reachable new file loads; then the known paths are those before plus exactly the reachable ones, each at the depth of its shortest chain |
| Discovery.RunMirrorsImports | DependencyViewer/DependencyViewer/src/gui/processor_impl.cpp:169-239 | the finished tree is the import graph unrolled once: each import is a missing leaf, the original or a leaf pointing at the original, and earlier nodes are untouched |
| TreeOrder.WalkVisitsEachOnce | DependencyViewer/DependencyViewer/src/gui/tree_algos.cpp:19-28 | a depth-first walk from the top calls back on every other node exactly once |
| TreeOrder.ParentsComeFirst | DependencyViewer/DependencyViewer/src/gui/tree_algos.cpp:19-28 | the depth-first walk calls back on a node before everything below it |
| TreeOrder.ChildrenComeFirst | DependencyViewer/DependencyViewer/src/gui/tree_algos.cpp:41-50 | the children-first walk calls back on a node after everything below it |
| TreeOrder.WalksAgree | DependencyViewer/DependencyViewer/src/gui/tree_algos.cpp:19-50 | both walks call back on the same nodes equally often |
| TreeOrder.OrderReachesExactly | DependencyViewer/DependencyViewer/src/gui/tree_algos.cpp:19-28 | a walk below a node reaches exactly the nodes under its children |
| InstanceRing.InstanceLinks.MakeList | DependencyViewer/DependencyViewer/src/gui/processor_impl.cpp:78-89 | the four pointer writes of one callback, as one change of the links |
| InstanceRing.LinkInKeepsRings | DependencyViewer/DependencyViewer/src/gui/processor_impl.cpp:78-89 | a callback extends the ring of its original at the end and leaves all other rings |
| InstanceRing.InstanceLinks.MakeDoublyLinkedList | DependencyViewer/DependencyViewer/src/gui/processor_impl.cpp:76-91 | after the pass each original heads a circular list of exactly its duplicates in depth-first order; a node alone and a missing node stay unlinked |
| InstanceRing.RingsDetermineLinks | DependencyViewer/DependencyViewer/src/gui/processor_impl.cpp:76-91 | the ring property leaves no freedom: it fixes every next and prev pointer |
| InstanceRing.WalkEnumeratesInstances | DependencyViewer/DependencyViewer/src/gui/tree_view.cpp:660-682 | from an original, "next instance" visits each duplicate once in depth-first order and then stops |
| InstanceRing.PrevInRing | DependencyViewer/DependencyViewer/src/gui/tree_view.cpp:636-658 | "previous instance" leads to the instance before, and from the original nowhere |
| InstanceRing.PrevUndoesNext | DependencyViewer/DependencyViewer/src/gui/tree_view.cpp:636-682 | "previous instance" undoes "next instance" from every node |
| PairAll.Pairing.PairImports | DependencyViewer/DependencyViewer/src/gui/import_export_matcher.cpp:45-103 | every cell of a row is written once, over the initial mark |
| PairAll.Pairing.PairChild | DependencyViewer/DependencyViewer/src/gui/import_export_matcher.cpp:18-39 | handling one child of a node, missing, original or duplicate, keeps the state of the pass; the Results rows say what that gives for each |
| PairAll.HandlesKeepsPaired | DependencyViewer/DependencyViewer/src/gui/import_export_matcher.cpp:18-39 | handling a child sets its row, its reverse index and the marks of its original and nothing else |
| PairAll.Pairing.PairAll | DependencyViewer/DependencyViewer/src/gui/import_export_matcher.cpp:11-42 | the whole pass over the tree reaches the fully paired state |
| PairAll.UsedBitsExactly | DependencyViewer/DependencyViewer/src/gui/import_export_matcher.cpp:105-132 | afterwards the used mark of an export is set if and only if some import of some expanded module in the tree resolves to it; MarksFollowFiles says it of the files |
| PairAll.CellsExactly | DependencyViewer/DependencyViewer/src/gui/import_export_matcher.cpp:11-42 | afterwards every import cell of every expanded module holds its match or the no-match sentinel; CellsFollowFiles says it of the files |
| PairAll.MatchedIsUsed | DependencyViewer/DependencyViewer/src/nogui/pe_getters_export.cpp:9-65 | after every child of the pass a matched export is marked used, for every instance, so the -1 icons are never looked up |
| Results.CellsFollowFiles | DependencyViewer/DependencyViewer/src/gui/import_export_matcher.cpp:11-103 | over the whole processing: the cell of import k of DLL i of a file is an export with that ordinal or name of the file that the DLL locates, also below a duplicate, 0xFFFF if it has none, and 0xFFFF if nothing is located |
| Results.MarksFollowFiles | DependencyViewer/DependencyViewer/src/gui/import_export_matcher.cpp:105-132 | export e of a file is marked as used if and only if some import of some file whose DLL locates that file holds e |
| Results.InstancesFollowFiles | DependencyViewer/DependencyViewer/src/gui/import_export_matcher.cpp:105-132 | every child of an expanded file, original or duplicate, names for each export the last import of its own row matched with it; a missing one names nothing |
| Results.RootsKeepFiles | DependencyViewer/DependencyViewer/src/gui/processor_impl.cpp:55-67 | every file found holds its own tables, and its children stand for what its DLLs locate: the first instance of that file, a duplicate of it, or nothing |
| ModulesList.ListOrderExactly | DependencyViewer/DependencyViewer/src/gui/file_info_getters.cpp:25-54 | the comparison is a strict weak order on the listed nodes if and only if no text among them has two space-like continuations of its kind that do not tie |
| ModulesList.ListTiesExactly | DependencyViewer/DependencyViewer/src/gui/file_info_getters.cpp:25-54 | its ties are nodes of one kind with texts equal up to case if and only if no two of them clash on a space |
| ModulesList.DllNameIsImport | DependencyViewer/DependencyViewer/src/gui/file_info_getters.cpp:10-23 | the child for DLL i goes by the i-th name in the tables of its parent |
| ModulesList.TextsAscend | DependencyViewer/DependencyViewer/src/gui/file_info_getters.cpp:25-54 | in a sorted list no later path, and no later missing name, is less than an earlier one up to case |
| ModulesList.CollectMissing | DependencyViewer/DependencyViewer/src/gui/processor_impl.cpp:124-136 | one representative for every missing name up to case |
| ModulesList.CollectOriginals | DependencyViewer/DependencyViewer/src/gui/processor_impl.cpp:146 | each original once |
| ModulesList.MakeModulesList | DependencyViewer/DependencyViewer/src/gui/processor_impl.cpp:93-153 | the list has each original once and one node per missing name up to case, and is sorted whenever the comparison is a strict weak order on it |
| ModulesList.MissingFirst | DependencyViewer/DependencyViewer/src/gui/file_info_getters.cpp:45-53 | in a sorted list all missing modules come first |
| Results.MissingIsListed | DependencyViewer/DependencyViewer/src/gui/processor_impl.cpp:124-139 | every DLL name of any file that locates nothing is on the list, up to case in all bits but bit 5 |
| Results.ListedOnce | DependencyViewer/DependencyViewer/src/gui/processor_impl.cpp:139-150 | every file is on the list by its first instance; no entry is there twice, and no two missing names agree up to case |
| Results.ListedIsFileOrMissing | DependencyViewer/DependencyViewer/src/gui/processor_impl.cpp:124-150 | every entry is the first instance of a file or goes by the name of a DLL that locates nothing |
| Processor.TmpType.Step1 | DependencyViewer/DependencyViewer/src/gui/processor_impl.cpp:156-167 | the loop computes the specified run and reports failure exactly when it fails |
| Processor.TmpType.Step2 | DependencyViewer/DependencyViewer/src/gui/processor_impl.cpp:169-219 | one round on the node taken from the queue is the specified step |
| Processor.TmpType.LocateChildren | DependencyViewer/DependencyViewer/src/gui/processor_impl.cpp:213-217 | the loop over the new children sets exactly the located paths and queues them in order |
| Processor.TmpType.Step3 | DependencyViewer/DependencyViewer/src/gui/processor_impl.cpp:221-239 | one import: path set and node queued if the file is located, nothing otherwise |
| Processor.RootsDiscoverExactly | DependencyViewer/DependencyViewer/src/gui/processor_impl.cpp:55-68 | all roots together: processing fails if and only if some root reaches a new file that does not load; otherwise the known files are exactly those the roots reach |
| Processor.MissingHasParent | DependencyViewer/DependencyViewer/src/gui/file_info_getters.cpp:10-23 | a missing node always has an expanded parent to take its name from |
| Processor.FinishedTreeOk | DependencyViewer/DependencyViewer/src/gui/processor_impl.cpp:69-71 | the finished tree meets what the three later passes need |
| Processor.ProcessImpl | DependencyViewer/DependencyViewer/src/gui/processor_impl.cpp:31-73 | fails only on too many files or an unreadable reachable one; otherwise tree, matches, rings and modules list all have the properties above |
| ThreadWorker.StepKeepsWorkerInv | DependencyViewer/DependencyViewer/src/nogui/thread_worker.cpp:33-63 | every step of either thread keeps: executed, rest of the second queue and first queue are the added jobs in order |
| ThreadWorker.QueueConservation | DependencyViewer/DependencyViewer/src/nogui/thread_worker.cpp:33-63 | over every interleaving, executed jobs plus both queues equal the jobs added, in order |
| ThreadWorker.ExitMeansAllDone | DependencyViewer/DependencyViewer/src/nogui/thread_worker.cpp:18-63 | when the stop job is the last one added, thread exit means every job ran once and both queues are empty |
| ThreadWorker.StopLastExactly | DependencyViewer/DependencyViewer/src/nogui/thread_worker.cpp:18-63 | for every list of jobs: every run that adds them and ends in thread exit executes them all if and only if no job comes after a stop job |
| ThreadWorker.JobBehindStopIsLost | DependencyViewer/DependencyViewer/src/nogui/thread_worker.cpp:18-63 | the shortest such run: a job added behind the stop job is left over |
| ThreadWorker.ThreadWorkerQueues.AddTask | DependencyViewer/DependencyViewer/src/nogui/thread_worker.cpp:33-40 | appends to the first queue |
| ThreadWorker.ThreadWorkerQueues.RunBatch | DependencyViewer/DependencyViewer/src/nogui/thread_worker.cpp:44-60 | one turn of the loop runs the whole batch in order while other threads add jobs, keeps those jobs in order, and leaves exactly when the stop job has run |
| PipelineSafety.CancelKeepsInv | DependencyViewer/DependencyViewer/src/gui/main_window.cpp:1426-1429 | after cancelling no registered marshaller is live, and the pipeline invariant still holds |
| PipelineSafety.StepKeepsInv | DependencyViewer/DependencyViewer/src/gui/main_window.cpp:121-171 | every step of either thread keeps the pipeline invariant |
| PipelineBodies.StepKeepsBodyInv | DependencyViewer/DependencyViewer/src/gui/main_window.cpp:151-163 | every step keeps: a body has run at most once, only of tasks that have left the worker or are about to, and a task that leaves without its body was cancelled |
| PipelineBodies.BodiesRanOnce | DependencyViewer/DependencyViewer/src/gui/main_window.cpp:138-163 | in every reachable state each body has run at most once, a task handed back without it was cancelled, and a live main-thread callback belongs to a task whose body has run |
| PipelineBodies.BodyIsEnteredExactly | DependencyViewer/DependencyViewer/src/gui/main_window.cpp:156-159 | a body is entered when the worker takes up a task that is not cancelled at that moment, and at no other step |
| PipelineBodies.BodyRunsExactly | DependencyViewer/DependencyViewer/src/gui/main_window.cpp:151-163 | over every interleaving: once a task has been handed back, its body has run if and only if it was not cancelled when the worker took it up |
| PipelineSafety.PipelineConservation | DependencyViewer/DependencyViewer/src/gui/main_window.cpp:1383-1397 | in every reachable state the registered tasks are, in order, the running callback, the idle queue, the current task and rest of the worker batch, the first queue and the task being added; each marshaller is registered until it is freed, once |
| PipelineSafety.UnregistersFront | DependencyViewer/DependencyViewer/src/gui/main_window.cpp:1390-1397 | the front-of-queue assertion of unregistering always holds |
| PipelineSafety.GenerationSafety | DependencyViewer/DependencyViewer/src/gui/main_window.cpp:1041-1054 | over every interleaving no worker body or live callback touches results or a marshaller that were freed, and a live symbol callback runs only on the generation on display |
| PipelineSafety.GenerationsFreedOnce | DependencyViewer/DependencyViewer/src/gui/main_window.cpp:1431-1446 | replaced results are freed once each, never those on display, and all of them once nothing is pending |
| PipelineSafety.ShutdownIsClean | DependencyViewer/DependencyViewer/src/gui/main_window.cpp:258-262 | once the window is destroyed both queues are empty and no worker step can hand anything back to it |
| PipelineExit.ThreadExitIsClean | DependencyViewer/DependencyViewer/src/nogui/dbg_provider.cpp:45-57 | in every reachable state with the worker gone, every job ever queued ran once in order, the window is destroyed and every marshaller is freed |
| PipelineExit.CloseIsKeptExactly | DependencyViewer/DependencyViewer/src/gui/main_window.cpp:455-468 | a step makes a window that asked to close, by whatever message, forget it if and only if it swaps in new results while none of its close messages is posted |
| PipelineExit.ClosingExactly | DependencyViewer/DependencyViewer/src/gui/main_window.cpp:1448-1463 | over every run that leaves the window in place, a posted close message is waiting or still to come if and only if the last close message, posted or from outside, was not followed by new results that found none posted |
| PipelineExit.QuietWindowClosesExactly | DependencyViewer/DependencyViewer/src/gui/main_window.cpp:455-468 | a window with nothing left to do is destroyed by the next close message, and one is posted if and only if the run remembers a close request in that sense |
| PipelineExit.HiddenWindowCanStay | DependencyViewer/DependencyViewer/src/gui/main_window.cpp:1041-1054 | such a step is reachable: closing before the files of the command line are opened leaves a hidden window with nothing pending and its loop blocked |
| PipelineLoop.StepKeepsLoopInv | DependencyViewer/DependencyViewer/src/gui/main.cpp:53-89 | every step keeps: tasks run inside on_idle, and a loop blocked in GetMessageW is in the middle of nothing and has a wake message posted if a task waits |
| PipelineLoop.BlockedIsWoken | DependencyViewer/DependencyViewer/src/gui/main_window.cpp:1333-1358 | in every reachable state with the loop blocked and a task in the idle queue, a message is posted that wakes the loop |
| PipelineLoop.StepKeepsOneClose | DependencyViewer/DependencyViewer/src/gui/main_window.cpp:455-468 | at most one close task is live: handling a close message cancels every other |
| PipelineLoop.ClosesRunOut | DependencyViewer/DependencyViewer/src/gui/main_window.cpp:1448-1463 | a bound on the posted close messages still to be handled: no step but a new request raises it, and handling one lowers it, although it may post another |
| PipelineProgress.InternalStepsWork | DependencyViewer/DependencyViewer/src/gui/main_window.cpp:121-171 | every step that is not a new request, handling posted close messages included, lowers a bound on the steps left |
| PipelineProgress.InternalRunsAreShort | DependencyViewer/DependencyViewer/src/gui/main_window.cpp:1341-1358 | so from every good state all runs without new requests are bounded |
| PipelineProgress.RestIsReached | DependencyViewer/DependencyViewer/src/gui/main_window.cpp:1341-1358 | and one of them always reaches a state at rest |
| PipelineProgress.RestMeansDone | DependencyViewer/DependencyViewer/src/nogui/thread_worker.cpp:42-63 | no deadlock: at rest either the window has nothing pending, its loop blocked, no message posted and no close to come, or it is gone and the worker has left after running every job |
| PipelineProgress.CloseIsHonoured | DependencyViewer/DependencyViewer/src/gui/main_window.cpp:1448-1463 | while a close request is pending, every run without new requests is bounded, and where it ends the window is destroyed and the worker has left after running every job |
| MainWindow.TaskWindow.CancelAllDbgTasks | DependencyViewer/DependencyViewer/src/gui/main_window.cpp:1426-1429 | the loop marks exactly the registered marshallers |
| MainWindow.TaskWindow.UnregisterDbgTask | DependencyViewer/DependencyViewer/src/gui/main_window.cpp:1390-1397 | removes the front, which must be the given task |
| MainWindow.TaskWindow.RequestHelper | DependencyViewer/DependencyViewer/src/gui/main_window.cpp:122-171 | registers a new marshaller before its task is queued |
| MainWindow.TaskWindow.OnWmDropFiles | DependencyViewer/DependencyViewer/src/gui/main_window.cpp:566-574 | dropped files become one idle task and a wake message: exactly the posting step |
| MainWindow.TaskWindow.StartTask | DependencyViewer/DependencyViewer/src/gui/main_window.cpp:154-159 | taking up a task on the worker is the start step, and says to run the body unless it is cancelled |
| MainWindow.TaskWindow.RunOnWorker | DependencyViewer/DependencyViewer/src/gui/main_window.cpp:151-163 | a task on the worker is the run of start, body if it is not cancelled, and hand-back; the body runs exactly then |
| MainWindow.TaskWindow.HandBack | DependencyViewer/DependencyViewer/src/gui/main_window.cpp:151-163 | the end of a task on the worker thread is exactly the hand-back step: idle queue first, then the job returns |
| MainWindow.TaskWindow.RequestTreeSymbols | DependencyViewer/DependencyViewer/src/gui/tree_view.cpp:513-544 | the symbol requests of the tree refresh, however many, are that many request and enqueue steps on the new results |
| MainWindow.TaskWindow.Refresh | DependencyViewer/DependencyViewer/src/gui/main_window.cpp:1041-1054 | cancel, swap, request the deletion, request symbols for the tree: exactly the run of those steps, for every number of requests |
| MainWindow.TaskWindow.OnWmClose | DependencyViewer/DependencyViewer/src/gui/main_window.cpp:455-468 | destroys if and only if nothing is pending, and otherwise hides and requests the close; for a posted close message and for one from outside |
| MainWindow.TaskWindow.FinishTask | DependencyViewer/DependencyViewer/src/gui/main_window.cpp:138-149 | the main-thread half of a task with its scope exits is a run of pipeline steps |
| MainWindow.TaskWindow.OnIdle | DependencyViewer/DependencyViewer/src/gui/main_window.cpp:1341-1358 | one call, whenever the loop makes it, is a run of pipeline steps that ends with the loop blocked; the tasks it leaves waiting have a wake message |
| SortView.ClickCycles | DependencyViewer/DependencyViewer/src/gui/list_view_base.cpp:14-50 | column clicks run through ascending, descending, unsorted; the packed byte never collides with the unsorted mark |
| SortView.ThreeClicks | DependencyViewer/DependencyViewer/src/gui/list_view_base.cpp:14-50 | the first click on a column sorts ascending, the second descending, the third not at all |
| SortView.ColumnsAreWeakOrders | DependencyViewer/DependencyViewer/src/gui/export_view.cpp:388-505 | each of the six column comparisons, in both directions, is a strict weak order on the rows |
| Sorting.SortIsStable | DependencyViewer/DependencyViewer/src/gui/export_view.cpp:398-405 | the sort orders its input and keeps the previous order of ties |
| SortView.ListView.SortRows | DependencyViewer/DependencyViewer/src/gui/export_view.cpp:359-518 | a non-empty sort is a permutation followed by its exact inverse; from top to bottom the values of the chosen column ascend or descend as chosen, with ties in the previous order; unsorted clears it, no selection leaves it |
| SortView.ListView.WriteInverse | DependencyViewer/DependencyViewer/src/gui/export_view.cpp:512-515 | the final loop writes the inverse of the first half into the second and keeps the first |
| SortView.SortedColumnIsInOrder | DependencyViewer/DependencyViewer/src/gui/export_view.cpp:359-518 | icon, type, ordinal, hint, name and entry point: the rows on display are ordered by these values themselves, ascending when bit 7 is clear |
| SortView.ListView.OnClick | DependencyViewer/DependencyViewer/src/gui/export_view.cpp:243-251 | a click moves the state as described, and the rows on display are then ordered by the values of that column in that direction |
| SortView.InverseBothWays | DependencyViewer/DependencyViewer/src/gui/export_view.cpp:512-515 | the written half is the two-sided inverse |
| SortView.SelectionRoundTrip | DependencyViewer/DependencyViewer/src/gui/list_view_base.cpp:112-133 | selecting an item highlights the row that shows it, and the other way round |
| SortView.LastTwoColumnsDecide | DependencyViewer/DependencyViewer/src/gui/export_view.cpp:359-518 | two sorts in a row order by the last column and within its ties by the one before |
| Section.ValidateSections | DependencyViewer/DependencyViewer/src/nogui/pe/coff_full.cpp:38-49 | accepts if and only if the sections ascend and lie in the file; its signed sums do not overflow |
| Section.WrappedComparison | DependencyViewer/DependencyViewer/src/nogui/pe/pe_util.cpp:21 | the wrapped comparison holds exactly for sections that hold the address and end below the top of the address space |
| Section.TopSectionIsMissed | DependencyViewer/DependencyViewer/src/nogui/pe/pe_util.cpp:21 | a valid section that reaches the top of the address space: its addresses are found in no section |
| Section.FindObjectInRaw | DependencyViewer/DependencyViewer/src/nogui/pe/pe_util.cpp:10-31 | the 32-bit loop returns the offset of the address in the first section that holds it, as far into the raw data as the address is into the section, if the size check, wrap included, lets it through, and 0 otherwise |
| Section.FoundObjectsExactly | DependencyViewer/DependencyViewer/src/nogui/pe/pe_util.cpp:21-28 | a found object lies inside section and file if and only if offset plus size does not wrap, which is certain below 2^31 |
| Section.HugeSizeWraps | DependencyViewer/DependencyViewer/src/nogui/pe/pe_util.cpp:25 | a size that wraps is accepted although the object does not fit |
| Section.OnlyOneHolds | DependencyViewer/DependencyViewer/src/nogui/pe/pe_util.cpp:18-30 | when no section runs into the next one, at most one section holds an address |
| Section.ParseStringRaw | DependencyViewer/DependencyViewer/src/nogui/pe/pe_util.cpp:43-60 | accepts if and only if there is a string: 1 to 32767 printable characters inside the raw data, ended by a NUL or by raw data that is extended with zeros |
| Section.ParseStringRva | DependencyViewer/DependencyViewer/src/nogui/pe/pe_util.cpp:33-41 | succeeds if and only if the first section holding the address has such a string there |
| Section.IsAscii | DependencyViewer/DependencyViewer/src/nogui/pe/pe_util.cpp:62-65 | decides that all characters are between space and tilde |
| AllocatorSmall.Padding | DependencyViewer/DependencyViewer/src/nogui/allocator_small.cpp:108-112 | the loop finds the least padding that aligns, and it is less than the alignment |
| AllocatorSmall.SmallAllocator.FindBlock | DependencyViewer/DependencyViewer/src/nogui/allocator_small.cpp:74-88 | the newest chunk with enough room, or none |
| AllocatorSmall.SmallAllocator.AllocateFromBlock | DependencyViewer/DependencyViewer/src/nogui/allocator_small.cpp:100-119 | takes size and padding from the chunk; the new range lies behind everything taken before |
| AllocatorSmall.SmallAllocator.AllocateBytes | DependencyViewer/DependencyViewer/src/nogui/allocator_small.cpp:58-72 | keeps: ranges aligned, inside their chunk, pairwise apart, consumed bytes equal to sizes plus padding; a new chunk exactly when none has room |
| AllocatorSmall.SmallAllocator.HandedOffHeader | DependencyViewer/DependencyViewer/src/nogui/allocator_small.cpp:100-119 | every handed-out range lies in a 2 MiB chunk behind the 16 bytes of its header |
| AllocatorSmall.SmallAllocator.Destroy | DependencyViewer/DependencyViewer/src/nogui/allocator_small.cpp:40-50 | releases every chunk, each once |
| AllocatorBig.BigAllocator.AllocateBytes | DependencyViewer/DependencyViewer/src/nogui/allocator_big.cpp:74-96 | a range of its own, recorded in the next slot; a new directory page exactly when the newest is full or missing |
| AllocatorBig.SlotsFillPage | DependencyViewer/DependencyViewer/src/nogui/allocator_big.cpp:28-32 | record and slots fill a directory page of 64 KiB exactly |
| AllocatorBig.BigAllocator.Destroy | DependencyViewer/DependencyViewer/src/nogui/allocator_big.cpp:50-66 | releases every recorded range and every page, each once |
| Allocator.MemoryAllocator.AllocateBytes | DependencyViewer/DependencyViewer/src/nogui/allocator.cpp:48-63 | any request, below 64 KiB by the small allocator and otherwise by the large one: aligned and apart from everything handed out before |
| Allocator.MemoryAllocator.HandedApart | DependencyViewer/DependencyViewer/src/nogui/allocator.cpp:48-63 | different handed-out ranges are apart |
| Allocator.MemoryAllocator.Destroy | DependencyViewer/DependencyViewer/src/nogui/allocator.cpp:33-35 | both allocators together release exactly what they reserved |
| UniqueStrings.StringTable.AddString | DependencyViewer/DependencyViewer/src/nogui/unique_strings.cpp:42-65 | returns a handle with the given contents, the old one if there is one; no cell of an earlier range changes |
| UniqueStrings.StringTable.Find | DependencyViewer/DependencyViewer/src/nogui/unique_strings.cpp:47 | the lookup compares contents |
| UniqueStrings.EqualHandlesExactly | DependencyViewer/DependencyViewer/src/nogui/unique_strings.cpp:42-65 | two handles of one table are the same pointer if and only if their strings are equal |
| UniqueStrings.TableSurvives | DependencyViewer/DependencyViewer/src/nogui/unique_strings.cpp:50-54 | every handle of any table keeps its string under later calls, because ranges are apart |

## Left out

- ExportTable.ProcessExportEat: the early return for an empty table leaves the name count of the caller unset (`DependencyViewer/DependencyViewer/src/nogui/pe2.cpp:185-189`); the model says so with its own outcome, and module tables are assumed to have no name slots then. Locating the tables and reading the strings behind name pointers are inputs.
- ModulesList.MakeModulesList: what `std::sort` leaves when the comparison is no strict weak order is undefined and not modelled; `ListOrderExactly` says when it is one. Missing modules are represented once per name, not listed one by one. That their number fits 16 bits is an assertion of the source and is not modelled.
- PairAll.MatchedIsUsed: the point between the two writes of one import (`DependencyViewer/DependencyViewer/src/gui/import_export_matcher.cpp:126-129`) is not a state of its own; nothing reads icons there.
- Processor.ProcessImpl: locating a file and normalizing its path are a fixed function of main file, importer and name, and normalization succeeds; a file either yields well-formed tables or fails to load. Failing activation contexts are not modelled, and the number of imported files of a module fits 16 bits.
- Sorting.SortIsStable: `std::stable_sort` and `std::sort` are represented by one stable insertion sort.
- Text.CaseInsensitiveHash: the mixing step of the hash is a parameter.
- UniqueStrings.StringTable.Find: the hash set is a list searched by content. The table for wide strings repeats the one for narrow strings with two-byte units.
- The pipeline's steps: `SendMessageW` from the worker is one atomic append to the idle queue; memory-model questions and races on the names array are not modelled. A nested message loop (file dialog, message box) may take wake messages, but what else it dispatches is not a step inside the task. The posted messages are two counters, `WM_NULL` and `WM_CLOSE`, without their order in the queue. How many symbol requests a tree refresh makes is a parameter. Task bodies are assumed to return.
- SortView.ListView.SortRows: the rows are given; `import_view` and `modules_view` repeat the pattern with other columns.
- AllocatorSmall.SmallAllocator.Destroy: moving and swapping allocators is not modelled; reserving memory always succeeds.
- The byte-level import, delay-import, resource and manifest parsers; only section lookup and the export side of the file format are modelled.
- The packing of flags into 32-bit words (`array_bool.cpp`): used marks and address marks are sequences of booleans.
- The loops that select which symbols to request, debug symbols and undecorated names: opaque bodies of the pipeline's tasks.
- Windows, drawing, menus, registry, accelerators, COM and the shell: no logic to prove.
