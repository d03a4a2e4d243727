# Saphire: a Dafny model

Saphire derives, for every PHP script of a web application, the list of system calls
that the script may need, and confines the interpreter to that list. This project
models the parts of it in which that rests on data structures and graph analyses, and
proves what they promise. `dafny verify dfyconfig.toml` checks it.

## What is modelled

**The hash table of the seccomp extension** (`UtHash*.dfy`, `BitArithmetic.dfy`). An
element sits on two doubly linked lists at once, its bucket chain and the application
order. The operations work on the elements' own links and on the bucket array. Each is
proved against a function on plain sequences (`UtHashSpec`), and the promises are proved
about those functions: the conditions that `HASH_FSCK` lists hold over every run, lookups
agree with a finite map, sorting and in-order adds give the one stable order, and the
expansion counters are the ceilings and sums they stand for. The hash function is
arbitrary. The per-element pointer to the shared `UT_hash_table` is folded into one
object that holds the program's head pointer together with the table.

**Opcode analysis and path enumeration** (`XdebugSet`, `Opcodes`, `Control`, `DeadCode`,
`SwitchCut`, `BranchInfo`, `BasicBlocks`, `BranchPaths`, `BranchTrails`, `BranchPathKeys`,
`BranchCoverage`). An opcode is an abstract value that says where it leads. The dead-code
walk is exact for the jumps it is given, the scan folds opcodes into basic blocks, the enumerator records the
maximal edge-simple trails, and the key of an executed path finds exactly that path.

**Reachability behind the filters** (`FilterClosure`, `IncludeColumns`, `SyscallDfs`,
`SyscallReach`, `SyscallAnswer`). SQL tables are finite relations; a recursive table
expression adds rows from a queue. The call graph, its bindings and the calls made directly
are given.

**The hash and the list of the tracing extension** (`XdebugHash`, `XdebugLlist`), a
finite map on string and number keys.

**Codecs and framing** (`CStrings`, `ProfileFile`, `DbgpCommand`, `StripSlashes`,
`StreamFraming`, `DbgpLoop`, `RawUrl`, `Crc32`). Each printed form is proved to be undone by
its reader, in place where the reader works in place.

**Profiler accounting** (`Profiler`), with time as an exact number.

`FilterPipeline` joins the stages: the lists that the query computes, printed, loaded and
looked up, are what a script is allowed.

## What the proofs found

- The expansion brake of the hash table can be set by 110 colliding keys, which every hash
  function has (`CollisionsSetBrake`, `CollisionsExist`), and is not permanent: deleting the
  last element frees the table, and the next add starts over without it (`BrakeHolds`,
  `BrakeComesAndGoes`).
- A block is cut at its first terminator if and only if the last opcode of the function is
  reachable; otherwise the last block is given the last opcode as its end and loses all its
  outs, as in a body that is one return statement (`BlocksAreBasic`, `LastBlockOverruns`,
  `ReturnOnlyLeadsNowhere`).
- A trail is recorded more than once if and only if a step of it is listed twice among a
  block's outs, as by a conditional jump to the next opcode (`RecordedPaths`,
  `JumpToNextTwice`).
- A switch with more than 62 cases can hide live code from the dead-code walk
  (`VisitedCanReach`, `LongSwitchIsCut`).
- The call search caches exact sets for every choice of who makes calls if and only if the
  calls it goes on to have no cycle, other than from a function to itself, and no function
  falls through to its bindings because it only calls itself (`AlwaysExact`,
  `CycleCutsShort`, `SelfEdgeFallsThrough`). What a first search from one origin returns
  lacks no call even so. It has calls too many, for some order of the edges and some choice
  of who makes calls, exactly when the search can come, by a binding of a function whose
  callees are all on its path, to one that the origin does not lead to (`NoCallLost`,
  `AnswerIsExact`).
- Started from several origins, the last of which has no such cycle or function, it loses
  calls exactly when another origin can be reached from the last one (`OriginsExact`).
- `GetIncludesForFileRecursive` follows includes and class instances separately and misses
  files behind a change of kind; it misses none exactly when every such change leads to a
  file that one kind alone leads to as well (`SeparateColumnsLose`, `SeparateColumnsAgree`).
- The stream reader withholds the complete lines behind the last chunk that ends with the
  delimiter, and no others (`LineWithheld`, `NothingWithheld`).
- A command line that ends inside an option or inside quotes is accepted, without a value
  for that option, and any byte behind a closing quote separates it from the next option
  (`LineIsOptions`).
- A profile line without numbers makes no filter, and `GetSyscallIdsForFile` never prints
  one (`LookupIsMap`, `BuildAndLoad`).

## Model

| member | source | states |
|---|---|---|
| `BitArithmetic.MaskIsRemainder` | stage3/extension/uthash.h:430-433 | for a power-of-two table, masking with `num_buckets - 1` is the remainder |
| `BitArithmetic.ShiftMaskIsCeiling` | stage3/extension/uthash.h:928-930 | the shift-and-mask expression of the ideal chain length is the ceiling of items over buckets |
| `BitArithmetic.CeilDivIsLeast` | stage3/extension/uthash.h:928-930 | that ceiling is the least chain length with which all items fit the buckets |
| `BitArithmetic.HalvesOfResidue` | stage3/extension/uthash.h:934-948 | a residue modulo twice the size is the residue modulo the size, with or without the size added |
| `UtHashSort.SortedStableUnique` | stage3/extension/uthash.h:970-1052 | a stable, sorted permutation of a list is unique, for any total preorder |
| `UtHashSort.MergeSorted` | stage3/extension/uthash.h:997-1037 | merging two sorted runs by the comparison of HASH_SRT gives a sorted run |
| `UtHashSort.MergeStable` | stage3/extension/uthash.h:997-1037 | merging keeps ties in list order and loses and invents nothing |
| `UtHashSort.PassDoublesRuns` | stage3/extension/uthash.h:979-1048 | a pass over sorted runs of length k leaves sorted runs of length 2k |
| `UtHashSort.BottomUpSorts` | stage3/extension/uthash.h:970-1052 | repeated doubling from runs of one ends with the sorted, stable permutation |
| `UtHashSort.StableIsPermutation` | stage3/extension/uthash.h:970-1052 | a list with the same ties in the same order has the same elements, each as often |
| `UtHashSort.MergeSortIsInsertionSort` | stage3/extension/uthash.h:970-1052 | HASH_SRT gives the same list as inserting the elements one by one in order: the two orders agree on every input |
| `UtHashSort.InsertSorted` | stage3/extension/uthash.h:286-293 | the position that HASH_ADD_INORDER picks keeps a sorted list sorted and puts the element behind its ties |
| `UtHashSort.InsertionSortSorts` | stage3/extension/uthash.h:286-293 | a list built by in-order adds alone is the sorted, stable permutation of its elements |
| `UtHashLists.SortList` | stage3/extension/uthash.h:970-1052 | on the elements' own links: the pointer-level merge sort terminates and leaves prev and next spelling out the bottom-up merge of the old list, with head and tail the true ends |
| `UtHashLists.MergePass` | stage3/extension/uthash.h:979-1048 | one outer round relinks the list into the pass of merged runs and counts the merges |
| `UtHashLists.MergeRuns` | stage3/extension/uthash.h:984-1038 | one merge of two adjacent runs, on the links |
| `UtHashLists.InsertBefore` | stage3/extension/uthash.h:350-381 | relinking in front of an element is insertion at its position; the head moves exactly when it should |
| `UtHashLists.AppendList` | stage3/extension/uthash.h:278-283 | appending to the application-order list |
| `UtHashLists.Unlink` | stage3/extension/uthash.h:450-477 | unlinking is removal of one position, with the new head and tail |
| `UtHashLists.UnlinkChain` | stage3/extension/uthash.h:871-884 | unlinking from a bucket chain is removal of one position, with the new chain head |
| `UtHashLists.PushChain` | stage3/extension/uthash.h:849-868 | pushing on a bucket chain puts the element first and leaves the forward links of the rest |
| `UtHashInvariant.AddAtKeeps` | stage3/extension/uthash.h:350-415 | adding at any position keeps every element once in the list, once in its own bucket's chain, and the counts consistent |
| `UtHashInvariant.DeleteKeeps` | stage3/extension/uthash.h:450-477 | deleting keeps the same invariant, down to the freed table |
| `UtHashInvariant.ExpandKeeps` | stage3/extension/uthash.h:915-963 | a bucket doubling keeps the same invariant |
| `UtHashInvariant.SortKeeps` | stage3/extension/uthash.h:970-1052 | sorting keeps the same invariant, whatever the comparison callback answers |
| `UtHashExpansion.ExpandSplitsChains` | stage3/extension/uthash.h:932-950 | a doubling sends each element of bucket b to bucket b or to b plus the old size; the two new chains are the old one sifted, in reverse order |
| `UtHashExpansion.ExpandCounts` | stage3/extension/uthash.h:928-961 | after a doubling the ideal length is ceil(items / buckets) and at least 1, nonideal_items is the sum over buckets of what exceeds it, and the expansion multiples follow from the counts |
| `UtHashBuckets.MoveAll` | stage3/extension/uthash.h:932-950 | the redistribution loops move every element to the head of its new chain, on the elements' own links and the new bucket array |
| `UtHashBuckets.MoveOne` | stage3/extension/uthash.h:934-948 | one element is moved while the rest of its old chain is still linked |
| `UtHash.Hash.ExpandBuckets` | stage3/extension/uthash.h:915-963 | the heap operation computes the doubled table, its bookkeeping and the expansion brake |
| `UtHash.Hash.AddToBkt` | stage3/extension/uthash.h:849-868 | push, count, and expand exactly when the chain is over its threshold and the brake is off |
| `UtHash.Hash.Add` | stage3/extension/uthash.h:396-415 | HASH_ADD refines its table function, first add included |
| `UtHash.Hash.AddInOrder` | stage3/extension/uthash.h:350-381 | HASH_ADD_INORDER refines its table function, first add included |
| `UtHash.Hash.Delete` | stage3/extension/uthash.h:450-477 | HASH_DELETE refines its table function; deleting the last element frees the table |
| `UtHash.Hash.Find` | stage3/extension/uthash.h:156-166 | HASH_FIND returns what the table function finds and changes nothing |
| `UtHash.Hash.FindInBkt` | stage3/extension/uthash.h:827-846 | walking a chain returns its first element with the hash value and the key |
| `UtHash.Hash.DelInBkt` | stage3/extension/uthash.h:871-884 | removing from a bucket changes that chain and its count alone |
| `UtHash.Hash.Sort` | stage3/extension/uthash.h:970-1052 | HASH_SRT refines the bottom-up merge sort and leaves every bucket as it was |
| `UtHashRuns.ApplyKeeps` | stage3/extension/uthash.h:337-562 | every legal operation keeps the table invariant |
| `UtHashRuns.FsckHolds` | stage3/extension/uthash.h:515-562 | what HASH_FSCK counts: bucket sizes add up to the number of items, chains and list hold the same elements once, each in bucket hash mod size, and the size is 2 to log2_num_buckets |
| `UtHashRuns.FindIsLookup` | stage3/extension/uthash.h:156-166 | a find succeeds with an element of that key exactly when the list has one |
| `UtHashRuns.RunFindsAsMap` | stage3/extension/uthash.h:156-166 | over every legal run, lookups agree with the finite map that the operations describe |
| `UtHashRuns.RunListsInOrder` | stage3/extension/uthash.h:278-381 | over every legal run, the application order is the list that the operations describe, whatever the hash function and the expansions did |
| `UtHashRuns.RunStaysSorted` | stage3/extension/uthash.h:350-381 | a list kept with one order stays sorted through every run of in-order adds, sorts and deletes |
| `UtHashRuns.BrakeAfter` | stage3/extension/uthash.h:955-960 | a step leaves the brake on if and only if the table is not emptied and it was on or an ineffective doubling found the counter at one; under the brake the size does not change |
| `UtHashRuns.BrakeFreezes` | stage3/extension/uthash.h:859-868 | once the brake is on, the bucket count is frozen while the table is not emptied |
| `UtHashRuns.BrakeHolds` | stage3/extension/uthash.h:453-458 | the brake stays on through a run exactly when the run never empties the table |
| `UtHashRuns.EmptyingReleasesBrake` | stage3/extension/uthash.h:453-458 | deleting the last element and adding again starts over with 32 buckets and the brake released |
| `UtHashDoubling.AddDoubles` | stage3/extension/uthash.h:848-868 | every add to a table doubles it if and only if the brake is off and the chain comes to ten times its multiplier plus one; a doubling sends every chain, reversed, to its two new buckets; without one only that chain and the list change |
| `UtHashDoubling.OtherEffects` | stage3/extension/uthash.h:450-481 | a delete cuts its element from the list and from its chain, or frees the table with the last one; a sort changes the list alone |
| `UtHashDoubling.RunRemembers` | stage3/extension/uthash.h:923-961 | over every run, since the table was made: it has 32 buckets doubled as often as it was doubled, its multipliers are the overloads that the last doubling left, and the brake is on if and only if two doublings in a row each left more than half of the items beyond the ideal length |
| `UtHashBrake.CollisionsSetBrake` | stage3/extension/uthash.h:923-961 | from the empty table, adding distinct keys of one hash value doubles it at 10 and at 110 items and sets the brake if and only if there are at least 110 |
| `UtHashBrake.FillTable` | stage3/extension/uthash.h:278-347 | a program that adds such elements to a new table has that table, brake included |
| `UtHashBrake.CollisionsExist` | stage3/extension/uthash.h:854-869 | every hash function to 32 bits has 110 distinct keys of one hash value, so every one can be brought to the brake |
| `UtHashBrake.BrakeStaysOn` | stage3/extension/uthash.h:422-467 | after that run, deleting all elements but the last leaves the brake on at 128 buckets |
| `UtHashBrake.BrakeComesAndGoes` | stage3/extension/uthash.h:422-467 | one run from the empty table sets the brake, deletes everything and adds one element: the table has 32 buckets and no brake |
| `XdebugSet.Set.Add` | stage1/interpreter-tracing/TE_xdebug/xdebug_set.c:40-49 | adding sets one bit: the members gain that position and no other changes |
| `XdebugSet.Set.Remove` | stage1/interpreter-tracing/TE_xdebug/xdebug_set.c:51-60 | removing clears one bit: the members lose that position and no other changes |
| `XdebugSet.Set.In` | stage1/interpreter-tracing/TE_xdebug/xdebug_set.c:62-71 | the bit test is membership, for every position up to the size |
| `Opcodes.FindJumps` | stage1/interpreter-tracing/TE_xdebug/xdebug_code_coverage.c:539-648 | the jumps of an opcode, in order, at most 64 of them |
| `Control.JumpsInOrder` | stage1/interpreter-tracing/TE_xdebug/xdebug_code_coverage.c:539-648 | what is reported is, for every opcode kind, where control can go for each thing the opcode can find when it is executed, in the source's order, the labels of a switch up to the 62nd |
| `Control.JumpsAreControl` | stage1/interpreter-tracing/TE_xdebug/xdebug_code_coverage.c:539-648 | so a place is reported if and only if control can go there, by none of the labels that are left out; opcodes that are no jumps report none |
| `Control.LeadsIsControl` | stage1/interpreter-tracing/TE_xdebug/xdebug_code_coverage.c:650-723 | the steps of the analysis are those of control, but for a switch with more labels |
| `Opcodes.StepReachable` | stage1/interpreter-tracing/TE_xdebug/xdebug_code_coverage.c:650-723 | reachability is closed under the jumps and the fall-through |
| `Opcodes.ReachableLeast` | stage1/interpreter-tracing/TE_xdebug/xdebug_code_coverage.c:725-747 | and it is the least set with the roots that is closed under them |
| `DeadCode.Analysis.AnalyseBranch` | stage1/interpreter-tracing/TE_xdebug/xdebug_code_coverage.c:650-723 | the recursive walk terminates on unvisited positions and visits, and records, everything its start leads to |
| `DeadCode.Analysis.Update` | stage1/interpreter-tracing/TE_xdebug/xdebug_branch_info.c:55-65 | one jump is recorded: its opcode becomes an end and the target its out at that index, counted in; from index 64 on the out is dropped |
| `DeadCode.Analysis.VisitedExact` | stage1/interpreter-tracing/TE_xdebug/xdebug_code_coverage.c:725-747 | the visited positions of the op array are precisely the reachable ones |
| `SwitchCut.VisitedCanReach` | stage1/interpreter-tracing/TE_xdebug/xdebug_code_coverage.c:624-635 | they are those that control can reach, from the start or a catch, whatever the opcodes find, if and only if no label behind the 62nd of a visited switch leads out of them |
| `SwitchCut.LongSwitchIsCut` | stage1/interpreter-tracing/TE_xdebug/xdebug_code_coverage.c:624-635 | a switch of 63 cases whose last alone leads to an opcode leaves that opcode unvisited |
| `DeadCode.Analysis.StartsExact` | stage1/interpreter-tracing/TE_xdebug/xdebug_code_coverage.c:650-747 | the starts are precisely the roots and the jump targets of reachable opcodes |
| `DeadCode.Analysis.EndsExact` | stage1/interpreter-tracing/TE_xdebug/xdebug_code_coverage.c:650-723 | the recorded ends are precisely the reachable terminators |
| `DeadCode.Analysis.OutsExact` | stage1/interpreter-tracing/TE_xdebug/xdebug_code_coverage.c:650-723 | every reachable opcode has its jumps recorded in order, no other has any |
| `DeadCode.Analysis.AnalyseOpArray` | stage1/interpreter-tracing/TE_xdebug/xdebug_code_coverage.c:725-747 | the whole analysis computes the exact record; the last opcode is an end in any case |
| `BranchInfo.PostProcess` | stage1/interpreter-tracing/TE_xdebug/xdebug_branch_info.c:114-136 | although it reads and overwrites the same array, the scan gives every start the outs and the end of the last end in its stretch, or the next start alone |
| `BasicBlocks.BlocksDisjoint` | stage1/interpreter-tracing/TE_xdebug/xdebug_branch_info.c:114-136 | blocks are in range, cover their starts and do not overlap |
| `BasicBlocks.BlocksAreBasic` | stage1/interpreter-tracing/TE_xdebug/xdebug_branch_info.c:114-136 | every block ends at its first terminator, or just before the next start, with that terminator's jumps as its outs, if and only if the last opcode is reachable |
| `BasicBlocks.LastBlockOverruns` | stage1/interpreter-tracing/TE_xdebug/xdebug_branch_info.c:114-136 | with an unreachable last opcode the last block stops at a terminator before it, yet is given the last opcode as its end and loses all its outs |
| `BasicBlocks.ReturnOnlyLeadsNowhere` | stage1/interpreter-tracing/TE_xdebug/xdebug_branch_info.c:114-136 | that happens to a well-formed op array of two returns: its one block, which ends with a return, leads nowhere |
| `BasicBlocks.BlocksWellFormed` | stage1/interpreter-tracing/TE_xdebug/xdebug_branch_info.c:114-136 | the outs after the scan are blocks or the exit |
| `BranchCoverage.Prefill` | stage1/interpreter-tracing/TE_xdebug/xdebug_code_coverage.c:791-859 | analysis, scan, path search and path keys composed on one op array: exact visited set, basic blocks, the capped listing of the blocks' paths, and the valid hash from their keys |
| `BranchCoverage.IndexPaths` | stage1/interpreter-tracing/TE_xdebug/xdebug_branch_info.c:306-325 | whatever paths the search records, their elements fit their keys, so the hash can be built over them |
| `BranchCoverage.EndFunction` | stage1/interpreter-tracing/TE_xdebug/xdebug_branch_info.c:397-430 | the executed path is marked if and only if it was recorded, and with at most 4096 to list if and only if it is a maximal edge-simple trail from an entry point; no other path's mark changes |
| `BranchCoverage.JumpToNextTwice` | stage1/interpreter-tracing/TE_xdebug/xdebug_branch_info.c:234-263 | a conditional jump to the next opcode makes the function's one path be recorded twice |
| `BranchPaths.Finder.PathExists` | stage1/interpreter-tracing/TE_xdebug/xdebug_branch_info.c:222-232 | whether a path already uses an edge |
| `BranchPaths.Finder.FindPath` | stage1/interpreter-tracing/TE_xdebug/xdebug_branch_info.c:234-263 | the recursion terminates on the edges not yet on the path and appends the enumerator's listing, cut off at 4096 |
| `BranchPaths.Finder.FindPaths` | stage1/interpreter-tracing/TE_xdebug/xdebug_branch_info.c:306-314 | all entry points in order, with the one cap |
| `BranchTrails.FromCounts` | stage1/interpreter-tracing/TE_xdebug/xdebug_branch_info.c:234-263 | from a trail on, every maximal trail that prolongs it is listed as often as there are ways to follow it, and nothing else is |
| `BranchTrails.RecordedPaths` | stage1/interpreter-tracing/TE_xdebug/xdebug_branch_info.c:234-263 | at most 4096 paths are recorded, all maximal edge-simple trails from entry points; with at most 4096 to list every such trail is, and exactly once if and only if none of its steps is listed twice among a block's outs |
| `BranchTrails.AllRecorded` | stage1/interpreter-tracing/TE_xdebug/xdebug_branch_info.c:234-263 | every such trail is recorded as often as there are ways to follow it if and only if these are at most 4096 in all |
| `BranchTrails.MaximalMeans` | stage1/interpreter-tracing/TE_xdebug/xdebug_branch_info.c:248-256 | a recorded trail stops where every out of its last block is 0, the exit, or an edge that it has used |
| `BranchTrails.RecordedInOrder` | stage1/interpreter-tracing/TE_xdebug/xdebug_branch_info.c:234-263 | the recorded paths are the first of those to list: by entry point, and from each in the order of the outs |
| `Decimal.ValueOfDigits` | stage1/interpreter-tracing/TE_xdebug/xdebug_branch_info.c:295-304 | a printed numeral has the value that was printed |
| `Decimal.DigitsStart` | stage1/interpreter-tracing/TE_xdebug/xdebug_branch_info.c:295-304 | it starts with 0 only for zero |
| `Decimal.ValueOfFirst` | stage3/extension/seccomp.c:130 | in a numeral to be read each digit counts for the power of ten of its place, leading zeros included |
| `BranchPathKeys.ElementKeyWhole` | stage1/interpreter-tracing/TE_xdebug/xdebug_branch_info.c:295-304 | the key part of a 32-bit element fits its buffer and is never cut |
| `BranchPathKeys.KeyInjective` | stage1/interpreter-tracing/TE_xdebug/xdebug_branch_info.c:295-304 | distinct element sequences have distinct keys |
| `BranchPathKeys.KeyText` | stage1/interpreter-tracing/TE_xdebug/xdebug_branch_info.c:295-304 | the key has each element in decimal with a colon behind it, in the order of the path |
| `BranchPathKeys.PathInfo.CreateKey` | stage1/interpreter-tracing/TE_xdebug/xdebug_branch_info.c:295-304 | the loop builds the key of the sequence |
| `BranchPathKeys.PathInfo.EndOfFunction` | stage1/interpreter-tracing/TE_xdebug/xdebug_branch_info.c:397-430 | ending a function marks the last recorded path with the executed sequence if there is one, and no other path |
| `FilterClosure.Recursive` | stage2/db/db.go:195-212 | a recursive table expression with UNION terminates in the least set closed under its recursive part |
| `FilterClosure.PairsAreReachable` | stage2/db/db.go:197-212 | the guarded all-pairs recursion still computes the transitive closure: its rows from x are precisely what x reaches in one or more steps, x itself included if a walk returns to it |
| `FilterClosure.SingleIsReachable` | stage2/db/db.go:156-177 | the single-source recursion computes the file and what it reaches |
| `FilterClosure.QueriesAgree` | stage2/db/db.go:156-218 | the two queries give a file the same system calls if and only if the file has a row of its own or needs none |
| `FilterClosure.ScannedFilesAgree` | stage2/scan-project/main.go:70 | for every scanned file, which includes itself, the two queries agree |
| `FilterClosure.CollectNames` | stage2/db/db.go:182-193 | the row loop files every callee under its system call and file, each once |
| `FilterClosure.GetSyscallsForFile` | stage2/db/db.go:156-194 | for every system call, the files among the script and all it leads to that need it, and precisely the callees that need it there, each once |
| `FilterClosure.CollectNumbers` | stage2/db/db.go:219-228 | the row loop gives every file its numbers, each once, and fails if and only if a row's file is NULL |
| `FilterClosure.GetSyscallIdsForFile` | stage2/db/db.go:195-229 | for a scanned file the list holds exactly the numbers that the file and all it leads to may need, each once; the call fails if and only if a row with a NULL file names something that needs a system call |
| `IncludeColumns.ColumnIsReachable` | stage2/db/db.go:344-357 | each of the two recursions, a least closed set, is what its own column reaches from the file |
| `IncludeColumns.GetIncludesForFileRecursive` | stage2/db/db.go:342-376 | the list is the union of the two recursions, each file once; the call fails if and only if the class column reaches a NULL |
| `IncludeColumns.SeparateColumnsAgree` | stage2/db/db.go:342-376 | the query never reports a file outside the joint closure, and reports all of it if and only if every row of one kind at a file that the other kind alone leads to goes to a file that one kind alone leads to |
| `IncludeColumns.OneKindAgrees` | stage2/db/db.go:342-376 | it reports all of it when the files that one kind leads to have, the starting file apart, no row of the other kind but to themselves |
| `IncludeColumns.SeparateColumnsLose` | stage2/db/db.go:342-376 | in a scanned project where a includes b and b instantiates a class of c, the query for a loses c |
| `SyscallDfs.Analyzer.Search` | stage1/interpreter-static-analysis/analyze_interpreter.py:270-327 | the search with its memo table and edge record terminates on new edges and computes the search function |
| `SyscallDfs.Analyzer.SearchTargets` | stage1/interpreter-static-analysis/analyze_interpreter.py:278-286 | one loop over outgoing edges |
| `SyscallReach.SearchIsSound` | stage1/interpreter-static-analysis/analyze_interpreter.py:270-327 | on any graph, every cached set holds only calls of functions reachable over local or binding edges, and never 59 |
| `SyscallReach.SearchIsExact` | stage1/interpreter-static-analysis/analyze_interpreter.py:270-327 | if what the start leads to has no cycle but edges from a function to itself, and no function falls through to its bindings from such edges alone, then from an exact memo table and a clear path every answer and every cached set is exact, in any edge order |
| `SyscallReach.AnalyseAll` | stage1/interpreter-static-analysis/analyze_interpreter.py:355-366 | search after search, each from origins whose last is of that kind and leads to none of the others, every answer is exact whichever searches filled the cache before |
| `SyscallReach.OriginsExact` | stage1/interpreter-static-analysis/analyze_interpreter.py:363-364 | with several origins, the last of that kind, the search finds all calls of the last one, whichever functions make calls, if and only if no other origin can be reached from it |
| `SyscallReach.CycleCutsShort` | stage1/interpreter-static-analysis/analyze_interpreter.py:273-274 | on every graph and every cycle through n, other than an edge to itself, a search from n caches an incomplete set for some choice of who makes calls |
| `SyscallReach.SelfEdgeFallsThrough` | stage1/interpreter-static-analysis/analyze_interpreter.py:289-322 | a function whose local callees are itself alone, bound to another one, is given the other one's calls for some choice of who makes calls |
| `SyscallReach.AlwaysExact` | stage1/interpreter-static-analysis/analyze_interpreter.py:270-327 | the searches from n and from everything it leads to cache exact sets, whichever functions make calls, if and only if n leads to no such cycle and no such function |
| `SyscallReach.AcyclicIsExact` | stage1/interpreter-static-analysis/analyze_interpreter.py:270-327 | all searches on a graph cache exact sets for every choice of who makes calls if and only if the graph has no such cycle and no such function |
| `SyscallAnswer.NoCallLost` | stage1/interpreter-static-analysis/analyze_interpreter.py:270-327 | on every graph, cyclic or not, a search from one origin with an empty cache returns every call of the functions it leads to |
| `SyscallAnswer.SearchVisits` | stage1/interpreter-static-analysis/analyze_interpreter.py:270-327 | and nothing but calls of functions on a path by which the search can come: by local edges, or by a binding when all local edges lead back to the path |
| `SyscallAnswer.AnswerIsExact` | stage1/interpreter-static-analysis/analyze_interpreter.py:270-327 | that answer is exact in every order of the edge sets, whoever makes calls, if and only if no such path leaves the functions that the origin leads to |
| `SyscallAnswer.BoundWithin` | stage1/interpreter-static-analysis/analyze_interpreter.py:288-322 | so it is exact when the functions on the way that have local callees are bound only to functions the origin leads to, as without bindings |
| `XdebugLlist.LinkNext` | stage1/interpreter-tracing/TE_xdebug/xdebug_llist.c:58-65 | relinking behind an element is insertion behind its position |
| `XdebugLlist.LinkPrev` | stage1/interpreter-tracing/TE_xdebug/xdebug_llist.c:89-95 | relinking in front of an element is insertion at its position |
| `XdebugLlist.Unlink` | stage1/interpreter-tracing/TE_xdebug/xdebug_llist.c:108-121 | relinking around an element is removal of its position, with the new ends |
| `XdebugLlist.Llist.InsertNext` | stage1/interpreter-tracing/TE_xdebug/xdebug_llist.c:42-71 | insertion behind an element, or at the end for NULL, as an operation on the sequence |
| `XdebugLlist.Llist.InsertPrev` | stage1/interpreter-tracing/TE_xdebug/xdebug_llist.c:73-101 | insertion in front of an element, or at the start for NULL |
| `XdebugLlist.Llist.Remove` | stage1/interpreter-tracing/TE_xdebug/xdebug_llist.c:103-130 | removal of one element; nothing happens for NULL or an empty list |
| `XdebugLlist.Llist.RemoveNext` | stage1/interpreter-tracing/TE_xdebug/xdebug_llist.c:132-135 | removal of the successor, if there is one |
| `XdebugLlist.Llist.RemovePrev` | stage1/interpreter-tracing/TE_xdebug/xdebug_llist.c:137-140 | removal of the predecessor, if there is one |
| `XdebugLlist.Llist.Empty` | stage1/interpreter-tracing/TE_xdebug/xdebug_llist.c:168-173 | removal from the end until nothing is left |
| `XdebugHash.KeyCompare` | stage1/interpreter-tracing/TE_xdebug/xdebug_hash.c:131-151 | the comparison tests agree with equality of keys |
| `XdebugHash.XHash.constructor` | stage1/interpreter-tracing/TE_xdebug/xdebug_hash.c:83-100 | a new table is the empty map |
| `XdebugHash.XHash.AddOrUpdate` | stage1/interpreter-tracing/TE_xdebug/xdebug_hash.c:153-185 | map update, for any hash functions and number of slots |
| `XdebugHash.XHash.Delete` | stage1/interpreter-tracing/TE_xdebug/xdebug_hash.c:187-207 | map removal; it reports whether the key was there |
| `XdebugHash.XHash.Find` | stage1/interpreter-tracing/TE_xdebug/xdebug_hash.c:209-228 | map lookup |
| `XdebugHash.XHash.Locate` | stage1/interpreter-tracing/TE_xdebug/xdebug_hash.c:164-173 | the search loop finds the one element of the slot with the key, or there is none |
| `XdebugHash.XHash.EntriesOnce` | stage1/interpreter-tracing/TE_xdebug/xdebug_hash.c:230-240 | the traversal meets the entries of its slots and no others, each key once |
| `XdebugHash.XHash.Apply` | stage1/interpreter-tracing/TE_xdebug/xdebug_hash.c:230-240 | one call for every entry of the map and no more; the size is the map's |
| `CStrings.AtoiOfPrintInt` | stage3/extension/seccomp.c:130 | atoi undoes %d, whatever follows that is not a digit |
| `CStrings.AtoiReads` | stage3/extension/seccomp.c:130 | on every string, atoi skips blanks, takes one sign and reads the digits as far as they go |
| `ProfileFile.PrintProfile` | stage2/build-filters/main.go:33-40 | the output is one printed line for every entry of the map, in some order |
| `ProfileFile.DecodeField` | stage3/extension/seccomp.c:125-136 | one turn: the field becomes a row entry, its delimiter a NUL, and nothing before it changes |
| `ProfileFile.CreateSeccompFilter` | stage3/extension/seccomp.c:123-138 | the row receives the number of every field, in place, and nothing before the string changes |
| `ProfileFile.ReadLine` | stage3/extension/seccomp.c:156-164 | a line becomes the filter it stands for, or none without a delimiter |
| `ProfileFile.FieldsOfJoined` | stage3/extension/seccomp.c:123-138 | splitting at the delimiter undoes joining, empty fields included |
| `ProfileFile.LineMeans` | stage3/extension/seccomp.c:156-164 | every line, up to its first NUL, stands for the path in front of the first delimiter and the number of each field behind it, or without a delimiter for nothing |
| `ProfileFile.LoadProfile` | stage3/extension/seccomp.c:155-165 | loading leaves a valid hash table whose elements are the rows of the file, in order |
| `ProfileFile.ParseFileOfPrinted` | stage3/extension/seccomp.c:155-165 | decoding undoes printing: the rows of a printed profile are its non-empty entries |
| `ProfileFile.LookupIsMap` | stage3/extension/seccomp.c:242-254 | looking a path up in a loaded, printed profile gives the list that the map has for it, and nothing when it has none |
| `FilterPipeline.DistinctNumbersFit` | stage2/data/unistd_64.h:4-336 | distinct numbers below 333 are no more than the 333 places of a row |
| `FilterPipeline.ListsFit` | stage3/extension/seccomp.c:87-92 | every list of the query, printed and decoded, fits its filter |
| `FilterPipeline.BuildAndLoad` | stage3/extension/seccomp.c:155-165 | query, printing and loading composed: the filter of a scanned file holds exactly the numbers that it and everything it leads to may need, and there is no filter exactly when there are none |
| `FilterPipeline.LoadSeccompProfile` | stage3/extension/seccomp.c:219-254 | the allowed calls of a scanned script are the five fixed ones and exactly those it may need |
| `StripSlashes.StripCSlashes` | stage1/interpreter-tracing/TE_xdebug/xdebug_compat.c:104-163 | in place, the buffer becomes the string without its escapes, and the reported length is that of what was written |
| `StripSlashes.ReadEscape` | stage1/interpreter-tracing/TE_xdebug/xdebug_compat.c:113-152 | an escape has the value and the length of its kind |
| `StripSlashes.StripSpelled` | stage1/interpreter-tracing/TE_xdebug/xdebug_compat.c:104-163 | every spelling of a byte, by a letter, by one or two hexadecimal digits of either case, by one to three octal digits or behind a backslash, is undone, whatever follows |
| `StripSlashes.StripIsSpelled` | stage1/interpreter-tracing/TE_xdebug/xdebug_compat.c:104-163 | the result of every string is the bytes that it spells, and no others |
| `DbgpCommand.ParseCmd` | stage1/interpreter-tracing/TE_xdebug/xdebug_handler_dbgp.c:1940-2067 | the loop with its cursor and state variable computes the parse of the line, table of values included |
| `DbgpCommand.TurnAt` | stage1/interpreter-tracing/TE_xdebug/xdebug_handler_dbgp.c:1974-2055 | one turn of the loop, in every state |
| `DbgpCommand.StripOfQuoted` | stage1/interpreter-tracing/TE_xdebug/xdebug_compat.c:104-163 | undoing the escapes undoes the quoting, for every value |
| `DbgpCommand.RunIsOptions` | stage1/interpreter-tracing/TE_xdebug/xdebug_handler_dbgp.c:1971-2057 | on every line the state machine stores, and reports, what a definition by slices of the line says: plain values up to the next space, quoted ones up to the first quote that is not escaped, the data to the end, errors for a missing dash or separator |
| `DbgpCommand.LineIsOptions` | stage1/interpreter-tracing/TE_xdebug/xdebug_handler_dbgp.c:1940-2067 | so every line parses to what is in front of its first space and to its options as defined |
| `DbgpCommand.ParseOfPrinted` | stage1/interpreter-tracing/TE_xdebug/xdebug_handler_dbgp.c:1940-2067 | parsing a printed command, each option plain or in quotes, finds the command and fills the table with the options in order, up to the first that repeats one |
| `DbgpCommand.RoundTrip` | stage1/interpreter-tracing/TE_xdebug/xdebug_handler_dbgp.c:1940-2067 | a printed command parses as OK if and only if its letters are distinct, and then the table holds its values, its data and nothing else; otherwise the duplicate is reported |
| `StreamFraming.FdBuf.ReadLineDelim` | stage1/interpreter-tracing/TE_xdebug/usefulstuff.c:56-107 | lines, delimiters and buffer together are the bytes received; a line has no delimiter and is the first of the bytes due, those up to the last chunk that ends with the delimiter before a read fails; there is no line if and only if none is due |
| `StreamFraming.SplitOfJoin` | stage1/interpreter-tracing/TE_xdebug/usefulstuff.c:86-100 | splitting undoes joining, whatever follows |
| `StreamFraming.ChunkingIsIrrelevant` | stage1/interpreter-tracing/TE_xdebug/usefulstuff.c:56-107 | of two readers of one stream, however it is cut into chunks, one has returned the first lines of the other |
| `StreamFraming.LinesArePrefix` | stage1/interpreter-tracing/TE_xdebug/usefulstuff.c:56-107 | the lines returned are the first lines of the whole stream |
| `StreamFraming.NothingWithheld` | stage1/interpreter-tracing/TE_xdebug/usefulstuff.c:69 | the lines due are the first complete lines of the stream, and all of them if and only if no chunk behind the last that ends with the delimiter holds one |
| `StreamFraming.LineWithheld` | stage1/interpreter-tracing/TE_xdebug/usefulstuff.c:69 | a complete line is withheld when its chunk does not end with the delimiter |
| `DbgpLoop.CmdLoop` | stage1/interpreter-tracing/TE_xdebug/xdebug_handler_dbgp.c:2150-2174 | the loop reads and parses precisely the lines of all bytes up to the last chunk that ends with a NUL, before a read fails, or those up to the first command whose handler ends it; the rest stays to be read |
| `DbgpLoop.RequestConveyed` | stage1/interpreter-tracing/TE_xdebug/xdebug_handler_dbgp.c:1940-2067 | a printed request is a line without NUL, and its parse is the request |
| `DbgpLoop.RequestsArrive` | stage1/interpreter-tracing/TE_xdebug/xdebug_handler_dbgp.c:2150-2174 | requests printed with a NUL behind each, cut into chunks in any way, are parsed as these requests in order, all of them unless one ends the loop |
| `RawUrl.RawUrlEncode` | stage1/interpreter-tracing/TE_xdebug/usefulstuff.c:271-294 | the loop writes the encoding, terminated, into room for three times the length |
| `RawUrl.RawUrlDecode` | stage1/interpreter-tracing/TE_xdebug/usefulstuff.c:249-267 | in place, the buffer becomes the decoding; the write cursor never passes the read cursor |
| `RawUrl.RoundTrip` | stage1/interpreter-tracing/TE_xdebug/usefulstuff.c:249-294 | decoding undoes encoding for every byte string and both settings of skip_slash |
| `RawUrl.EncodedLength` | stage1/interpreter-tracing/TE_xdebug/usefulstuff.c:276 | the encoding is at least as long and at most three times as long |
| `RawUrl.EncodedAlphabet` | stage1/interpreter-tracing/TE_xdebug/usefulstuff.c:279-287 | an encoded name has only percent signs, letters, digits, `-`, `.`, `:` and `_`, and with skip_slash the slashes |
| `RawUrl.EncodedByte` | stage1/interpreter-tracing/TE_xdebug/usefulstuff.c:269-287 | each of these bytes is written as it is, every other one with two capital digits |
| `RawUrl.DecodeSpelled` | stage1/interpreter-tracing/TE_xdebug/usefulstuff.c:228-267 | in every string, a byte spelled by two digits of either case decodes to it, and what spells no byte to itself |
| `Crc32.TableIsShift8` | stage1/interpreter-tracing/TE_xdebug/usefulstuff.h:72-137 | every entry of the table is eight bit steps of its index |
| `Crc32.Step` | stage1/interpreter-tracing/TE_xdebug/usefulstuff.h:70 | one table step lets the eight bits of the byte enter the register, the lowest first, also for bytes that are negative as char |
| `Crc32.XdebugCrc32` | stage1/interpreter-tracing/TE_xdebug/usefulstuff.c:395-405 | the byte loop computes the bit-at-a-time CRC-32 of every byte string |
| `Crc32.BitsEnter` | stage1/interpreter-tracing/TE_xdebug/usefulstuff.h:70 | bits combined with a linear register at once enter it one after the other |
| `Profiler.Frame.FunctionEnd` | stage1/interpreter-tracing/TE_xdebug/xdebug_profiler.c:231-308 | the inclusive cost goes to the caller's list; the cost written is what remains after the call list is subtracted |
| `Profiler.Stack.Call` | stage1/interpreter-tracing/TE_xdebug/xdebug_profiler.c:223-229 | a call refines the step of the accounting |
| `Profiler.Stack.Return` | stage1/interpreter-tracing/TE_xdebug/xdebug_profiler.c:231-308 | a return refines the step of the accounting |
| `Profiler.Stack.Deinit` | stage1/interpreter-tracing/TE_xdebug/xdebug_profiler.c:99-108 | the shutdown is the run in which each open frame ends, the innermost first, whatever the clock reads each time |
| `Profiler.StepKeepsGap` | stage1/interpreter-tracing/TE_xdebug/xdebug_profiler.c:243-301 | no event changes the difference between own costs written and completed calls on record |
| `Profiler.ProgramConserves` | stage1/interpreter-tracing/TE_xdebug/xdebug_profiler.c:295-308 | over every run, own costs written equal the inclusive costs of the completed calls |
| `Profiler.ShutdownConserves` | stage1/interpreter-tracing/TE_xdebug/xdebug_profiler.c:99-108 | after any run and the shutdown, the own costs of all calls add up to what the outermost calls took |
| `Profiler.SubtreeConserves` | stage1/interpreter-tracing/TE_xdebug/xdebug_profiler.c:295-308 | own costs written from the start of a call to its end add up to what it took from end to end, which is what its caller records |
| `Profiler.CallIsCharged` | stage1/interpreter-tracing/TE_xdebug/xdebug_profiler.c:243-301 | a call's inclusive cost is its own cost and its direct callees' inclusive costs |

## Left out

- Unsigned counters of the hash table are unbounded: fewer than 2^31 items are assumed, so that no counter wraps.
- The Bloom filter, the branches for a failed allocation, HASH_REPLACE and HASH_SELECT: configuration variants and wrappers of the modelled operations.
- The `key`, `keylen` and `hho` fields of the hash handle: an element carries its own key.
- The built-in hash functions of both tables: they are arbitrary functions to numbers.
- Analysis without branch information: the dead-code walk is modelled with its branch record present, which is the case that records starts, ends and outs.
- Line numbers of opcodes and blocks, and the marking of single branches at run time.
- `only_leave_first_catch`: which catches are chained to an earlier one is a parameter of `Prefill`.
- Zend opcodes other than by where they lead: in a well-formed op array the jump targets that the analysis reports are in range.
- BranchPathKeys.PathInfo: `path_hash` is a finite map here, as `XdebugHash` justifies.
- `GetSyscallNamesForFile` and the printer of names: the same closure and loops over other columns.
- SyscallDfs.Analyzer.Search: takes the successors of a function as given sequences, so the symbol and version matching that finds a binding is not modelled; text scraping of the disassembly is not part of this model.
- Destructor callbacks of the list and the hash, and the sorted traversal: a callback is seen only as the sequence of its calls.
- XdebugHash.KeyCompare: requires non-empty string keys, since the source reads the first byte of a key even when it has none.
- XdebugHash.XHash.AddOrUpdate: like Delete, Find and Locate, excludes the zero-length string keys that the macros accept, whose comparison reads behind their allocation.
- CStrings.Atoi: does not model the overflow of atoi, which is undefined; printed numbers are below 333 in the pipeline.
- ProfileFile.LoadProfile: requires that no line has more than 333 numbers or a path of 512 bytes, as the fixed-size fields of a filter do; `ListsFit` shows that printed profiles meet it.
- Opening, reading and closing files and sockets, libseccomp calls and SQLite itself: a file is a string, a socket a sequence of chunks, an allowed call a list entry.
- DbgpCommand.ParseCmd: an option letter outside the table of 27 values, undefined in the source, ends the parse with a status of its own; the flag for escaped quotes, which is never set, is left out.
- The dispatch of parsed commands and all responses of the debugger.
- DbgpLoop.CmdLoop: takes as given which commands end the loop; the handlers' effects are not modelled.
- StreamFraming.FdBuf.ReadLineDelim: a NULL buffer and an empty one are the same; the terminating NUL byte of a returned line is not modelled.
- Profiler.Stack.Deinit: takes the frames off the stack; in the source they stay on it and are not used any more.
- Profiler.Frame.FunctionEnd: writes records without names and line numbers; the aggregate table and rounding of floating-point times are not modelled.
- Strings of the hash keys, paths and profile are sequences of characters; no character encoding is modelled.
