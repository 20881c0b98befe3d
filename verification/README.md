# desh: the runtime and the rewriters, modelled and proved

desh is an interpreter in C and C++ that brings its own runtime. These Dafny files model
the parts where its correctness is hard to see from one function, and prove what those
parts keep. `dafny verify dfyconfig.toml` checks all of them. Nothing here executes the
original.

| files | part of desh |
|---|---|
| `Gc.dfy`, `GcSpaces.dfy`, `GcInv.dfy`, `GcIso.dfy`, `GcCollect.dfy`, `GcOrder.dfy` | the copying collector (src/gc.c) |
| `Dict.dfy` | the hash table with tombstones (src/dict.c) |
| `Fd.dfy` | deferred file descriptors (src/fd.c) |
| `Scope.dfy`, `ScopeLaws.dfy` | dynamic scope, exceptions, evaluation depth (src/var.c, src/except.c, src/eval.c) |
| `Environ.dfy`, `EnvRuns.dfy` | the cached environment (src/var.c) |
| `ForLoop.dfy` | dealing lists to names: `for`, `let`, lambda parameters (src/eval.c) |
| `Match.dfy`, `MatchText.dfy`, `Extract.dfy` | patterns and extraction (src/match.c) |
| `Glom.dfy`, `GlomLaws.dfy` | word expansion with quoting (src/glom.cpp) |
| `Split.dfy`, `Export.dfy` | splitting, `%W` and importing (src/split.c, src/conv.c, src/var.c) |
| `Names.dfy`, `Quote.dfy` | `%F` and `%N`, `%#S` and the lexer (src/conv.c, src/token.c) |
| `Syntax.dfy`, `Rewrite.dfy` | tree rewriting, as values and in place (src/syntax.c) |
| `Meaning.dfy`, `Flatten.dfy`, `FlattenExact.dfy` | what flattening means (src/syntax.c, src/glom.cpp, src/glob.cpp, script/initial.es) |

C code that updates state in place is a class or a method with loops, proved against a
specification function; what the code promises is then a lemma about that function.
Linked lists are sequences that the methods reassign, except where the links matter
(`Rewrite.dfy` has a store of nodes named by their position). What a specification function
means is in turn fixed by laws that do not repeat it: `ScopeLaws` for the commands,
`PatternTexts` for the text of patterns, `ExpansionLaws` for words, and in the other modules
lemmas beside the functions.

Where the obvious claim is false of the code, the exact condition is proved:

* extraction reaches its assertion exactly when the pattern ends in two unquoted stars and
  has no use for the last character of the subject (`Extraction.FiresExactly`);
* a list comes back from the environment exactly when no word holds two separator or escape
  characters (`ExportedLists.RoundTripExactly`);
* `%#S` is read back exactly when every backslash is followed by a printable character
  other than a single quote (`QuotedStrings.QuoteRoundTrip`);
* flattening a command into the one on its left preserves meaning, for every left command
  and every shell, exactly when the right one is no call of the operator, or one whose words
  may be evaluated first: evaluating them does nothing, and either they are constant and at
  least one, or the constant ones in front end the operator in every shell
  (`SequenceExactness.FlatteningExactly`); so `cmd; %seq foo` may be flattened
  (`SequenceExactness.OneWord`), and `x = {a}; %seq $x`, which would read `$x` before the
  assignment, may not; `a || %or {} $x` may, since `{}` ends `%or`, but `a || %or {} $''`
  may not, since the lookup fails (`SequenceExactness.OneVariable`);
* `fdmap` names the youngest entry's file exactly when that entry's real descriptor is no
  older entry's user descriptor (`FileDescriptors.FdMapExact`); redirections done lazily and
  eagerly agree if that is so at every dup (`FileDescriptors.Descriptors.LazyRun`); a state
  where it names another file is `FileDescriptors.FdMapTwice`, and a run, `>[4] f >[5] g
  >[6=5]`, `FileDescriptors.WrongDup`;
* a blocked allocation that does not fit succeeds on some retry exactly outside the gap
  that `minspace < nbytes` leaves (`Spaces.RetriesHelpUnlessGap`);
* a gcalloc that is not blocked and does not fit returns exactly unless the space it gets is
  at least twice what is live and still too small, and the heap is not empty or the space at
  most twice the least size (`HeapGraphs.Spins`, `HeapGraphs.RetriesEndUnlessSpins`): with
  4504 bytes live in a space of the least size, a request of 6000 bytes collects for ever;
* a collection yields a copy of the reachable graph exactly when no object that leads to
  another comes to a new space after the scan of that space, which is a function of the heap,
  the roots and minspace before it (`ScanOrder.NothingLost`, `Collector.Collector.Gc`); it
  is so if each pass of the scan covers one space, and in particular if the survivors fit
  one.  A run of the mutator that loses an object, with spaces of the least size, is
  `Collector.LoseObject`;
* after a change of the noexport list the next environment is the fresh one exactly when no
  name taken off the list has an outdated string that will be used
  (`ExportRuns.ExportHiding`); over whole runs it is, if no name comes off the list that
  missed an export after a rebinding (`ExportRuns.ExportAfter`).  Runs that export an
  outdated string are `ExportRuns.StaleAfterUnhiding`, and `ExportRuns.StaleAfterParsing`,
  where a word that spells a closure is called after its assignment;
* nothing of the redirection queue is left in the tree of a simple command exactly when every
  here document names a word (`SyntaxTrees.SimpleCommandClean`).

The comment before `listmatch` (src/match.c:110-114) says that null patterns match nothing
but the null list; the code lets one or more unquoted stars match it too, and the model
follows the code.

## Model

| member | source | states |
|---|---|---|
| Heaps.ClosedContainsReachable | src/gc.c:291-347 | a set with the roots that is closed under fields holds every object reachable along any path, which is what copying until nothing is left to scan relies on |
| Heaps.FootprintMapped | src/gc.c:388-452 | a size-preserving bijection between two sets of objects keeps the bytes they take up, tag words included |
| Heaps.AlignIsLeast | src/gc.c:8 | sizes are rounded up to the least number of whole words |
| Spaces.RetriesHelpUnlessGap | src/gc.c:473-494 | the k-th retry of a blocked gcalloc has room if and only if the request is not in the gap nbytes <= minspace with an aligned size beyond the space |
| Spaces.AllocKeepsChain | src/gc.c:473-494 | an allocation keeps the spaces tiled without gaps or overlaps, takes a free address, and raises the bytes in use by the object and its tag word |
| CopyInvariant.CopyStep | src/gc.c:291-315 | copying one object and writing the forwarding mark over its tag keeps the whole invariant of a collection, and only extends what was done |
| CopyInvariant.FieldStep | src/gc.c:327-347 | storing a forwarded field keeps the invariant, with one more field done |
| CopyInvariant.CopyFollows | src/gc.c:291-315 | an object is copied to the place that ScanOrder computes from the heap before the collection |
| CopyInvariant.CleanExactly | src/gc.c:327-347 | after the scan every field of every new object is forwarded if and only if no object that leads to another came to its space after the scan of that space |
| HeapGraphs.CompleteIsIsomorphic | src/gc.c:291-347 | if every field is forwarded, exactly the reachable objects have been copied, one to one, with sizes, payloads and translated fields; pointers that lead to no object are unchanged |
| HeapGraphs.IsomorphicExactly | src/gc.c:327-347 | if nothing came too late the new heap is that copy, and otherwise some new object points into the released space |
| HeapGraphs.AllReachable | src/gc.c:388-452 | nothing in the copied heap is garbage |
| HeapGraphs.IsomorphicTwice | src/gc.c:388-452 | two collections in a row compose to one isomorphism |
| HeapGraphs.LostStaysLost | src/gc.c:388-452 | what the first round loses no later round brings back: there is no isomorphism between the heap before and the heap after both |
| HeapGraphs.ResizedExactly | src/gc.c:445-448 | a space keeps its size exactly if that is at least twice what is live, and at most twelve times or at most twice the least size; otherwise it is four times what is live, or half of itself |
| HeapGraphs.RetriesEndUnlessSpins | src/gc.c:447-494 | of the spaces that an unblocked gcalloc collects into, one after the other, some has room for the request if and only if the request does not spin, and then the first or the second |
| ScanOrder.NarrowLosesNothing | src/gc.c:327-347 | if each pass of the scan covers one space, nothing comes too late |
| ScanOrder.ObjectLost | src/gc.c:327-347 | a heap of four objects, with spaces of the least size: the roots take two spaces, the pass scans the second one first, then an object goes there unseen, and what it leads to is not copied |
| Collector.Collector.constructor | src/gc.c:455-465 | an empty heap at rest with one space of the least size |
| Collector.Collector.IsInSpace | src/gc.c:257-264 | true exactly if some space of the chain holds the address |
| Collector.Collector.NewSpace | src/gc.c:215-222 | a fresh region of the aligned size above all others |
| Collector.Collector.GcAlloc | src/gc.c:473-494 | while blocked: bumps the last space or pushes one, outside the gap in at most one retry; the object is at the new address and nothing else changed |
| Collector.Collector.Forward | src/gc.c:291-315 | leaves outside pointers alone, follows a mark, or copies; in each case the result is what the record says the pointer became |
| Collector.Collector.Copy | src/gc.c:291-315 | one new object, marked, with the invariant kept and all other new objects unchanged |
| Collector.Collector.ScanRoots | src/gc.c:318-324 | every root becomes its forwarded pointer |
| Collector.Collector.ScanObject | src/gc.c:336-342 | every field of one new object is forwarded, in order, and the object counts as scanned |
| Collector.Collector.ScanOne | src/gc.c:331-342 | the scan pointer meets every object of a space, those copied there meanwhile too, and ends; what is copied where meanwhile is what ScanOrder.ScanOne computes |
| Collector.Collector.ScanPass | src/gc.c:329-345 | the same for a pass over several spaces, the newest first |
| Collector.Collector.ScanSpace | src/gc.c:327-347 | the same for all passes, each from the newest space down to the last pass's front; it ends |
| Collector.Collector.CollectOnce | src/gc.c:388-452 | one round: one space exactly if the survivors fit; the next minspace; a copy of the reachable graph if nothing came too late, a pointer into released space otherwise |
| Collector.Collector.Gc | src/gc.c:388-452 | blocked: nothing; otherwise one or two rounds, one exactly if the survivors fit, ending with one space without garbage and minspace at least twice the live data; the heap is a copy of the reachable graph if and only if the first round lost nothing |
| Collector.Collector.Allocate | src/gc.c:473-494 | an allocation by the mutator while collection is blocked keeps the heap at rest |
| Collector.Collector.AllocateOrCollect | src/gc.c:473-494 | while it is not: unless the request spins, there is room after at most two calls of gc, none exactly if the request fits at once; the rest of the heap is as gc leaves it |
| Collector.Collector.GcDisable | src/gc.c:363-366 | one more level of blocking |
| Collector.Collector.GcEnable | src/gc.c:355-360 | when the last level goes the mutator is back on one space, by a collection exactly if there were several |
| Collector.LoseObject | src/gc.c:327-360 | gcdisable, four allocations, two roots, gcenable: the heap is no copy of what it was |
| Dictionary.ProbesStop | src/dict.c:7-8 | in every reachable table some slot is empty, so every probe and sweep loop ends |
| Dictionary.GrowsExactly | src/dict.c:7-8 | a table is never more than two thirds full, and is replaced exactly when two more slots would make it so |
| Dictionary.EmptyMapFullBudget | src/dict.c:146-168 | a table without bindings has no tombstones either: its whole budget is back |
| Dictionary.StoreKeepsInv | src/dict.c:114-144 | storing in the first tombstone or empty slot of the walk keeps the table in agreement with the map, and remain with the filled slots |
| Dictionary.SweepKeepsInv | src/dict.c:146-168 | clearing a tombstone run before an empty slot breaks no probe chain and gives its slots back |
| Dictionary.Dict.constructor | src/dict.c:70-77 | all slots empty, full budget |
| Dictionary.Dict.Get | src/dict.c:105-112 | the slot of the live binding exactly if there is one, across tombstones |
| Dictionary.Dict.Put | src/dict.c:114-144 | the map gains the binding; the table is replaced by one of twice the size exactly when the budget is down to one |
| Dictionary.Dict.Insert | src/dict.c:133-143 | the name goes to the first slot of the walk that is a tombstone or empty; a tombstone costs nothing of the budget, an empty slot one |
| Dictionary.Dict.Rehash | src/dict.c:120-132 | the doubled table holds the same map and never grows in the process, so that dropping the result of the inner puts is safe |
| Dictionary.Dict.Rm | src/dict.c:146-168 | the map loses exactly that name, and the table keeps its invariant |
| Dictionary.Dict.DictGet | src/dict.c:174-179 | the value of the map, or none |
| Dictionary.Dict.DictPut | src/dict.c:181-191 | update, or removal for a NULL value |
| Dictionary.Replay | src/dict.c:105-191 | after any sequence of stores and removals the table stands for the map that the sequence stands for |
| FileDescriptors.MoveCell | src/fd.c:179-194 | moving a registered cell to another number changes no file that the user or a cell sees |
| FileDescriptors.FdMapExact | src/fd.c:93-104 | the scan yields the youngest entry's real descriptor if and only if that is no older entry's user descriptor |
| FileDescriptors.FdMapTwice | src/fd.c:93-114 | a state of the shell where the scan maps a real descriptor a second time, and names another file than the user will find |
| FileDescriptors.WrongDup | src/prim-io.c:114-126 | the run `>[4] f >[5] g >[6=5]`, after which 6 has the file f, where the redirections mean g |
| FileDescriptors.SettleYoungestWins | src/fd.c:107-114 | after settling, a descriptor holds the file of the last entry that names it |
| FileDescriptors.FdMapForetells | src/fd.c:93-114 | whenever the scan is exact it names beforehand the file that the user finds after remapfds |
| FileDescriptors.LastRedirectionWins | src/prim-io.c:57-143 | after a list of redirections a descriptor holds what the last one to name it gave it, a dup what the other descriptor held just then; without one, what it held before |
| FileDescriptors.FailsExactly | src/prim-io.c:114-126 | the list fails if and only if one of them is a dup of a descriptor that is closed by then |
| FileDescriptors.Descriptors.Obtain | src/prim-io.c:57-143 | the descriptor that a redirection is to move: a fresh one with the opened file, or with what fdmap names for a dup, which fails exactly if that is closed; or none for a close |
| FileDescriptors.Descriptors.EagerRun | src/prim-io.c:22-48 | in a child: a list of opens, closes and dups, each done at once, up to the first dup that fails, leaves the user's table that they stand for |
| FileDescriptors.Descriptors.LazyRun | src/fd.c:45-114 | in the parent: the same list, all deferred and then settled, leaves the same table, whatever numbers the files were opened at, if at each dup the scan is exact; after a failure, nothing has changed for the user |
| FileDescriptors.Descriptors.ReleaseFd | src/fd.c:179-194 | no registered cell holds the number any more, and every file keeps its holder |
| FileDescriptors.Descriptors.DoDeferred | src/fd.c:33-43 | the user descriptor gets the real one's file, or is closed, whatever registered number it collides with |
| FileDescriptors.Descriptors.MvFd | src/fd.c:7-15 | the new number holds the file, the old one is closed |
| FileDescriptors.Descriptors.PushDefer | src/fd.c:45-66 | parent: queued and hidden from the user; child: done at once |
| FileDescriptors.Descriptors.Undefer | src/fd.c:79-90 | the youngest entry goes, and the user sees no change |
| FileDescriptors.Descriptors.FdMap | src/fd.c:93-104 | the downward scan, tied to Chase |
| FileDescriptors.Descriptors.RemapFds | src/fd.c:107-114 | the user's table becomes the settled one although numbers collide and cells move; the shell's own descriptors keep their files |
| FileDescriptors.Descriptors.RegisterFd | src/fd.c:135-149 | one more cell is held: the user no longer sees its descriptor, and all else as before |
| FileDescriptors.Descriptors.UnregisterFd | src/fd.c:151-161 | exactly that cell is off the list |
| FileDescriptors.Descriptors.CloseFds | src/fd.c:164-177 | a child sees the settled table, and every close-on-fork cell is blank |
| DynamicScope.Shell.VarPush | src/var.c:203-236 | the old value goes on the push stack, the new one is seen |
| DynamicScope.Shell.VarPop | src/var.c:238-266 | the name is seen as it was recorded |
| DynamicScope.Shell.VarDef | src/var.c:172-201 | the dynamic definition is seen, an empty one is none |
| DynamicScope.Shell.ThrowException | src/except.c:20-43 | a throw pops exactly what was bound since the innermost handler was installed, and restores its depth |
| DynamicScope.Shell.Exec | src/eval.c:360-466 | every command, also one that depends on variables, on values or on the exception caught, does what a semantics with restore-on-exit says; stacks and depth are as before on normal return, as recorded by the handler after a throw |
| DynamicScope.Shell.LocalBind | src/eval.c:127-145 | bindings one inside the other, each undone |
| DynamicScope.Shell.PushHandler | include/desh/es.h:541-549 | the marks that a throw will go back to |
| DynamicScope.Shell.CatchBody | include/desh/es.h:541-564 | the body runs under one more handler and ends with as many as before |
| DynamicScope.Shell.ForLoop | src/eval.c:194-231 | a break ends the loop with its arguments, after the loop's pushes are undone |
| DynamicScope.Shell.EvalLambda | src/eval.c:388-416 | a return ends the lambda with its arguments, and $0 is unbound again |
| DynamicScope.Shell.EvalBlock | src/eval.c:360-387 | a thunk or a primitive counts as one level of depth and catches nothing |
| DynamicScope.LocalRestores | src/eval.c:127-145 | however the body is left and whatever it did, each local name looks up to its value before, each other name to what the body made of it |
| DynamicScope.RunScript | src/except.c:20-43 | a whole script under one handler leaves empty stacks, the entry depth and the variables of the semantics |
| ScopeLaws.ReturnIsValue | src/eval.c:388-416 | `return v` as the last thing that the body of a lambda does, in any branch, block or local binding, is having the value v there, whether the lambda was called by a name or not |
| ScopeLaws.ReturnYields | src/eval.c:409-410 | `return v` alone yields v |
| ScopeLaws.LambdaOutcome | src/eval.c:388-416 | a lambda passes on values and all exceptions but return unchanged |
| ScopeLaws.NamedIsLocal | src/eval.c:397-404 | calling a function by a name is calling its lambda with $0 bound locally |
| ScopeLaws.ForOutcome | src/eval.c:194-231 | a break in an iteration ends the loop with its words and no later iteration runs; any other exception goes on out of the loop; the value is that of the last iteration |
| ScopeLaws.EmptyFor | src/eval.c:163-236 | a loop without iterations is true |
| ScopeLaws.CatchOutcome | src/prim-ctl.c:49-92 | a value of the body is the value of the catch; an exception runs the catcher for it, in the variables that the body left and at the depth of the catch |
| ScopeLaws.AssignedIsSeen | src/var.c:172-201 | after an assignment the name has the words assigned and no other name has changed |
| ScopeLaws.NestedBlocks | src/eval.c:360-387 | n blocks one inside the other count n levels, and fail exactly if these reach the limit |
| ScopeLaws.CountingNames | src/var.c:66-78 | which names count arguments, and so cannot be assigned |
| Environment.UnboundIsStable | src/var.c:31-40 | a definition without bindings prints the same in every lexical state, which is what the flag of a variable is for |
| Environment.RenderReads | src/var.c:279-439 | the string of a variable is read back under its name, and with its words if and only if none of these holds two separators or escapes |
| Environment.StrLeIsLexicographic | src/var.c:292-308 | the order of the environment is decided by the first character that differs |
| Environment.SortVectorSorted | src/var.c:292-308 | sorting yields a sorted permutation |
| Environment.SortedIsUnique | src/var.c:292-308 | two sorted vectors with the same strings are equal |
| Environment.CachedIsRendered | src/var.c:268-289 | if the caches are in order, what they yield is what rendering afresh yields |
| Environment.RebindKeepsCaches | src/var.c:172-201 | setting the rebound flag is enough after a lexical assignment |
| Environment.RefreshedIsOk | src/var.c:268-289 | the strings that mkenv stores leave the caches in order |
| Environment.Exporter.constructor | src/var.c:346-355 | no variables, everything to be made |
| Environment.Exporter.VarDef | src/var.c:172-201 | an assignment keeps the caches in order |
| Environment.Exporter.Rebind | src/var.c:172-186 | so does a lexical rebinding |
| Environment.Exporter.VarPush | src/var.c:203-236 | so does a push |
| Environment.Exporter.VarPop | src/var.c:238-266 | so does a pop |
| Environment.FreshExactly | src/var.c:268-289 | what mkenv0 exports is what rendering afresh exports if and only if every string it uses is the fresh one |
| Environment.Exporter.MkEnv | src/var.c:268-308 | the result is the fresh sorted environment, and is kept |
| Environment.Exporter.SetNoExport | src/var.c:107-117 | the caches stay in order if and only if no variable that comes off the list has an outdated string that will be used |
| ExportRuns.ExportHiding | src/var.c:107-308 | the export after a change of the list is the fresh one if and only if that is so |
| ExportRuns.ExportAfter | src/var.c:107-308 | after any interleaving of assignments, lexical rebinding, pushes, pops, exports and changes of the list the next export is the fresh one, if no name comes off the list that missed an export after a rebinding |
| ExportRuns.ListAloneIsSafe | src/var.c:107-117 | that holds of every run that leaves the list alone |
| ExportRuns.HidingMoreIsSafe | src/var.c:107-117 | and of every run in which names only go on the list |
| ExportRuns.FreshIsUnique | src/var.c:292-308 | there is one fresh environment |
| ExportRuns.EnvironmentHolds | src/var.c:268-289 | the fresh environment holds the strings without names and one for each variable that has a definition, is neither special nor internal and not on the noexport list; `*` and `0` are special |
| ExportRuns.WordsComeBack | src/var.c:268-439 | an exported list of words comes back from the environment under its name, and with exactly its words if and only if none holds two separators or escapes |
| ExportRuns.StaleAfterUnhiding | src/var.c:268-289 | a run that hides a name, rebinds its closure, exports and shows the name again hands out the old string |
| ExportRuns.StaleAfterParsing | src/term.c:29-48 | a run that assigns a word that spells a closure, exports it, calls it and rebinds what it closes over hands out the old string |
| GroupedBindings.SharesConserve | src/eval.c:103-117 | the words dealt to the names are all the words, in order, none lost or repeated |
| GroupedBindings.DealtAt | src/eval.c:103-117 | name m is bound to nothing if there are no more than m words, to the rest of them if it is the last name, and else to word m; the last name is innermost and the outer bindings come below |
| GroupedBindings.Deal | src/eval.c:103-117 | name i of n gets word i, the last one the rest, names past the end nothing, the last name innermost |
| GroupedBindings.BindArgs | src/eval.c:320-347 | parameter m is bound to argument m, the last one to the rest, those past the end to nothing; without parameters all arguments go to `*` |
| GroupedBindings.BuildLooping | src/eval.c:175-191 | the loop bindings of all groups in the order written, an error exactly if a group has no name |
| GroupedBindings.Round | src/eval.c:195-218 | one round takes k words off each list, in place, and says whether all were used up |
| GroupedBindings.ForLoop | src/eval.c:163-236 | the body sees round after round, as many as the maximum over the groups of length/k rounded up |
| GroupedBindings.UsedUp | src/eval.c:193-218 | everything has been used up after i rounds if and only if i is at least that maximum |
| GroupedBindings.RoundChainAt | src/eval.c:199-216 | in round i name j of each group of k is bound to element i*k + j of its list, empty past the end, in the order written |
| Patterns.AcceptsIsSplitting | src/match.c:58-105 | a pattern accepts a subject if and only if the subject can be cut into pieces that fit the tokens |
| Patterns.StarsCollapse | src/match.c:71-73 | adjacent stars are one |
| Patterns.QuotedIsLiteral | src/match.c:60-61 | a quoted pattern accepts only itself |
| Patterns.RangeMatch | src/match.c:26-55 | the offset past a bracket expression exactly if the character is in it, an error exactly if it is not closed |
| Patterns.Match | src/match.c:58-105 | true if and only if the rest of the subject can be cut along the rest of the pattern |
| Patterns.MatchStar | src/match.c:71-79 | skipping the empty suffix loses nothing, because what follows the stars must take a character |
| Patterns.MatchWord | src/match.c:58-61 | the matcher as it is called, with a quoting word |
| PatternTexts.BracketAccepts | src/match.c:26-55 | a bracket expression written from a sign, a leading `]` and members accepts one character: one that is among these, or, with `~`, one that is not |
| PatternTexts.CharactersAccept | src/match.c:26-55 | `[m]` accepts exactly the characters of m, and `[~m]` exactly the others |
| PatternTexts.RangeAccepts | src/match.c:42-47 | `[a-b]` accepts exactly the characters from a to b |
| PatternTexts.LeadingBracketAccepts | src/match.c:35-38 | a `]` right behind the `[` is a member |
| PatternTexts.CharacterAccepts | src/match.c:62-103 | unquoted `*` accepts everything, `?` one character; any other character, a quoted one, and a bracket that is not closed accept themselves |
| PatternTexts.ParseUndoesWriting | src/match.c:26-105 | every list of tokens can be written as a pattern, and reading the pattern gives these tokens |
| Extraction.FillRebuilds | src/match.c:174-224 | putting the captures back into the pattern rebuilds the subject, one capture for each wildcard |
| Extraction.LazyIsShortest | src/match.c:174-224 | what is extracted is a cut along the pattern, and the one whose pieces are shortest from the left |
| Extraction.FiresExactly | src/match.c:190-203 | on a matching subject the assertion fails if and only if the pattern ends in two unquoted stars and the subject is empty or needs its last character for them |
| Extraction.TwoStars | src/match.c:190-203 | the pattern `**` matches everything, and reaches the assertion on the empty subject only |
| Extraction.HasWild | src/glob.cpp:18-39 | true exactly if some raw character is a wildcard |
| Extraction.ExtractSingle | src/match.c:174-224 | the captures of that cut, last first, in front of the given list; or the failed assertion; nothing without a match |
| Extraction.ListMatch | src/match.c:116-167 | some pattern accepts some subject; the null list is matched by the null list or a word of stars |
| Extraction.ExtractMatches | src/match.c:234-264 | for each subject in order the captures of the first pattern that has any |
| Extraction.FirstCapturesExactly | src/match.c:242-259 | the first pattern that accepts the subject and has a wildcard decides: its captures put back are the subject, or the assertion fails, exactly on a starved pattern; without such a pattern nothing is captured |
| Extraction.CapturesInOrder | src/match.c:242-260 | captures come in the order of the subjects |
| Expansion.CrossAt | src/term.c:72-84 | all pairs are joined, the left text in front, those with the first left word first |
| Expansion.ConcatLists | src/glom.cpp:8-26 | the loops compute that product |
| Expansion.CopyRange | src/glom.cpp:144-155 | the cursor and the counter never part, and elements lo to hi are copied |
| Expansion.Subscript | src/glom.cpp:98-161 | subscripts and ranges select by position, with the errors for numbers below one |
| Expansion.Glom1 | src/glom.cpp:164-254 | the loop and its recursion yield the words that the tree means, or its error, that of an empty variable name included |
| Expansion.QCat | src/glom.cpp:28-64 | the quoting of a concatenation says of each character what the two parts said |
| Expansion.QConcat | src/glom.cpp:68-95 | the same for lists, words and quoting in step |
| Expansion.MarkedWordsAreWords | src/glom.cpp:164-332 | marking where characters come from changes no word and no error |
| Expansion.Glom2 | src/glom.cpp:259-332 | the words of glom1, and as many quoting words, each as long as its word where it is written out, raw exactly for characters of unquoted literal words |
| ExpansionLaws.MarkedCrossAt | src/glom.cpp:28-95 | in a concatenation text and raw flags are those of the left word and then those of the right one |
| ExpansionLaws.OriginOf | src/glom.cpp:164-254 | every character of every word of any tree is a character of a word of one of its parts that is neither a list nor a concatenation |
| ExpansionLaws.RawExactlyFromWords | src/glom.cpp:259-332 | a character is marked raw if and only if the part it comes from is an unquoted literal word |
| ExpansionLaws.LookupInOrder | src/glom.cpp:195-211 | the variables of several names follow each other in the order of the names, and the first that fails decides |
| ExpansionLaws.AtoiReads | src/glom.cpp:118-136 | a decimal number is read back after blanks and a sign, up to what is no digit |
| ExpansionLaws.AtoiNeedsDigits | src/glom.cpp:118-124 | what has no digit where one is due counts as zero, and so is no subscript |
| ExpansionLaws.SubscriptReads | src/glom.cpp:98-161 | written positions and ranges select exactly the elements at these positions, in the order written, none past the end |
| ExpansionLaws.OpenRanges | src/glom.cpp:112-129 | a range without an upper end goes to the end of the list, a leading one starts at its first element |
| ExpansionLaws.BadSubscripts | src/glom.cpp:119-137 | the first word that is no number from one on decides the error |
| Splitting.FieldsRebuild | src/split.c:39-74 | fields hold no separator, and with the separators between them they are the text |
| Splitting.Splitter.StartSplit | src/split.c:14-37 | the table is for these separators, whether cached or not |
| Splitting.Splitter.SplitString | src/split.c:39-74 | a chunk continues the text seen in earlier calls |
| Splitting.Splitter.EndSplit | src/split.c:76-87 | the words of all the text seen |
| Splitting.Splitter.FSplit | src/split.c:89-98 | every string is split on its own, in order |
| Splitting.WordsInOrder | src/split.c:89-98 | the words of several strings follow each other in the order of the strings |
| Splitting.KeptInOrder | src/split.c:39-74 | coalescing drops empty fields and keeps the order of the others |
| ExportedLists.Wconv | src/conv.c:358-374 | the escaped words with separators between them |
| ExportedLists.DecodeWord | src/var.c:369-402 | the escapes of one word, looked for in its first text while the word itself is replaced |
| ExportedLists.DecodeWords | src/var.c:367-404 | the list with words changed and merged in place |
| ExportedLists.ImportVar | src/var.c:358-408 | splitting, then decoding if there is an escape at all |
| ExportedLists.GoodWord | src/var.c:367-404 | a word with at most one special character comes back, whatever follows |
| ExportedLists.BadWord | src/var.c:367-404 | a word with two or more never does |
| ExportedLists.RoundTripExactly | src/var.c:358-408 | a non-empty list comes back if and only if no word holds two special characters |
| ExportedNames.Fconv | src/conv.c:322-335 | the encoded name |
| ExportedNames.Nconv | src/conv.c:338-355 | the decoded name, or that it reads past the end of its argument |
| ExportedNames.EncodedIsIdentifier | src/conv.c:322-335 | a non-empty name becomes a C identifier |
| ExportedNames.UnchangedExactly | src/conv.c:322-335 | a name stays as it is if and only if it is empty or an identifier without two underscores in a row |
| ExportedNames.NameRoundTrip | src/conv.c:322-355 | `%N` undoes `%F` and stays inside the string, for every name |
| ExportedNames.EncodeInjective | src/conv.c:322-335 | distinct names never meet in the environment |
| QuotedStrings.Sconv | src/conv.c:263-303 | what `%#S` writes |
| QuotedStrings.Lexer.ScanQuoted | src/token.c:307-345 | the reading of a quoted string, or its error, and what is left of the input |
| QuotedStrings.Lexer.ScanEscape | src/token.c:347-418 | the same for a backslash escape |
| QuotedStrings.Lexer.Yylex | src/token.c:191-456 | blanks, quoted strings, escapes, carets, free carets, the end and pending errors |
| QuotedStrings.ReadOctal | src/token.c:388-406 | an octal escape is read as the byte that it was written for |
| QuotedStrings.NumericEscape | src/token.c:376-406 | octal and hexadecimal numbers of any length, in either case, stand for the character with that number modulo 256, or for nothing when that is zero |
| QuotedStrings.EscapeLetters | src/token.c:347-375 | the letters that stand for control characters |
| QuotedStrings.PlainQuoted | src/conv.c:263-303 | printable text without a single quote stands between single quotes |
| QuotedStrings.QuoteRoundTrip | src/conv.c:248-305 | lexing the `%#S` form and joining the words gives the string back if and only if every backslash is followed by a printable character other than a single quote |
| SyntaxTrees.MkseqOperands | src/syntax.c:130-154 | the flattened node holds the operands of the left command and then those of the right one |
| SyntaxTrees.MkpipeStages | src/syntax.c:156-175 | stages in order, and the pairs of descriptors between them, the new pair where the commands meet, and a length of one modulo three, as src/prim-io.c:224-227 demands |
| SyntaxTrees.SimpleCommand | src/syntax.c:184-273 | words and redirections in any order become the calls, nested as written, around the words, as written, with those for /dev/fd in their places |
| SyntaxTrees.ItemsInOrder | src/syntax.c:259-273 | words and calls are collected from left to right |
| SyntaxTrees.FillCells | src/syntax.c:196-203 | exactly the first placeholder of a call is replaced |
| SyntaxTrees.NestedTwice | src/syntax.c:184-205 | an earlier call goes around a later one |
| SyntaxTrees.NestClean | src/syntax.c:184-205 | around clean words, calls without a bad here document leave no queued redirection, placeholder or error node, and others do |
| SyntaxTrees.SimpleCommandClean | src/syntax.c:184-273 | nothing of the queue is left in the tree of a simple command, built from clean words and redirections in any order, if and only if every here document names a word |
| SyntaxTrees.RedirIsUsable | src/syntax.c:207-239 | mkredir yields such a redirection, with a word exactly when its file is a command |
| SyntaxTrees.RedirCells | src/syntax.c:207-239 | what the call of a redirection holds: the operation, descriptor, file and placeholder; the text of a here document for itself, `<={%one file}` for other files; %readfrom for an input and %writeto for an output with a command |
| SyntaxTrees.DescriptorCells | src/syntax.c:241-257 | %close and %dup hold the descriptor to set first and then the one it is taken from |
| SyntaxTrees.CloseIsUsable | src/syntax.c:241-257 | so do mkclose and mkdup |
| SyntaxTrees.RedirectionInFront | src/syntax.c:184-205 | a redirection in front of any rewritten command goes around it; if it is from or to a command, its word goes to the end of the words |
| SyntaxRewriting.Trees.Mk | src/tree.c:10-53 | a new node over two trees |
| SyntaxRewriting.Trees.TreeAppend | src/syntax.c:35-43 | in place, the tail at the end of the head, no other node touched |
| SyntaxRewriting.Trees.FirstIs | src/syntax.c:78-88 | whether the first word of a literal command is that string |
| SyntaxRewriting.Trees.Thunkify | src/syntax.c:65-74 | a thunk unless it is one |
| SyntaxRewriting.Trees.Prefix | src/syntax.c:90-95 | one more word in front |
| SyntaxRewriting.Trees.Mkseq | src/syntax.c:130-154 | in place, the tree of the rewriting on values, from the given nodes and new ones |
| SyntaxRewriting.Trees.Mkpipe | src/syntax.c:156-175 | the same for pipes |
| SyntaxRewriting.Trees.RedirAppend | src/syntax.c:259-273 | the same for queueing a redirection before any other nodes |
| SyntaxRewriting.Trees.QueueHeredoc | src/heredoc.c:142-168 | the call is renamed in place, and accepted exactly if its marker is a literal word |
| SyntaxRewriting.Trees.Redirect | src/syntax.c:184-205 | the same for the rewriting of queued redirections |
| SequenceMeaning.CollectAppend | src/glom.cpp:259-332 | words and more words are evaluated from left to right |
| SequenceMeaning.GlomAppend | src/glob.cpp:277-314 | all words are evaluated before any is globbed; still, words that do nothing when evaluated only add their terms behind those of the words before them |
| SequenceMeaning.GlomFits | src/glom.cpp:259-332 | in every shell the words stand for the terms known of them, with other texts in the places that are not known |
| SequenceMeaning.ConcatWritten | src/glom.cpp:28-95 | two literal words joined are one term with the left text first, in which only characters of unquoted words can be wild |
| SequenceFlattening.ApplyAppend | script/initial.es:372-404 | an operator on two groups of operands is the operator on the first and then perhaps on the second, exceptions included |
| SequenceFlattening.OperandsRun | src/syntax.c:65-74 | a command runs like the operator on the operands that it contributes |
| SequenceFlattening.BlocksRun | script/initial.es:360-362 | the node with the two commands as blocks runs the one and then perhaps the other |
| SequenceFlattening.OperatorsRun | script/initial.es:372-404 | on two blocks `%and` goes on after a value of empty words and zeros, `%or` after any other, `%seq` always; without operands `%or` is false and the others true |
| SequenceFlattening.RunYields | script/initial.es:372-404 | in no shell does a command yield a truth value other than those computed from its tree |
| SequenceFlattening.FlatteningPreserves | src/syntax.c:130-154 | under the condition below the flattened node has the effects, order and result of running the one and then perhaps the other, in every shell |
| SequenceExactness.ScriptFor | script/initial.es:372-404 | each truth value computed from a command's tree is what it yields in some shell |
| SequenceExactness.FlatteningFails | src/syntax.c:130-154 | for any other right command a shell and a left command for which it has not |
| SequenceExactness.FlatteningExactly | src/syntax.c:130-154 | the condition on the right command is exact: no call of the operator, or one whose words may be evaluated first |
| SequenceExactness.OneWord | src/glob.cpp:10-39 | a call of the operator with one literal word may be flattened if and only if the word has no leading tilde, and no wildcard but brackets that are not closed |
| SequenceExactness.OneWordText | src/glob.cpp:10-39 | in characters: a word without `*`, `?`, `[` and a leading `~` is flattened, one with a `*`, a `?` or a leading `~` is not |
| SequenceExactness.OneVariable | src/var.c:84-90 | `%or {} $name` may be flattened into a command on its left if and only if the name is not empty |

## Left out

- Collector.Collector.GcAlloc: the branch for when collection is not blocked is AllocateOrCollect; a request in the gap, for which the blocked branch never ends, is excluded.
- Collector.Collector.Allocate: only while collection is blocked, and only requests that fit or are not in the gap.
- Collector.Collector.AllocateOrCollect: a request for which gcalloc never returns is excluded; the fields of the object are filled in later, by the caller.
- Collector: addresses of new regions only grow; `release` and `malloc` reuse of addresses are not modelled.
- Collector: objects are a size, pointer fields and a payload; the exceptions of single tags (a vector scanned up to its count, a variable that drops its cached string, nodes without a tag) and `gcreserve` are not.
- Collector: GCPROTECT, GCVERBOSE and GCALWAYS builds.
- Dictionary: the string hash is any function; `dictget2` and the copying of tables by the collector.
- FileDescriptors.Descriptors.EagerRun: dups only in a child where no registered cell holds a descriptor any more; before, one could read a descriptor of the shell's own.
- FileDescriptors: here documents and pipes; `newfd`, a failing `dup`, and the growth of `deftab` by realloc; cells are named by their place, not by address.
- DynamicScope: settor functions, lexical lookup, `retry` of a catch, signals and the exit-on-false flag.
- ExportRuns.ExportAfter: runs in which no word becomes a closure; with that, StaleAfterParsing shows what can happen.
- Environment: the printing of closures is a parameter; `hidevariables`, and the collector dropping cached strings.
- GroupedBindings: the validation of names, and exceptions out of the body (DynamicScope has them); values given to a name are lists of strings.
- Patterns: quoting is one flag for each pattern character, so that stepping the UNQUOTED sentinel in rangematch is not modelled; locale order in ranges.
- Expansion: lookup, evaluation and the printing of closures are parameters without effects; aliasing that `listcopy` prevents; globbing.
- Expansion.Subscript: `atoi` for numbers that fit an int.
- ExportedLists.ImportVar: the assignment of the result to the variable.
- QuotedStrings: the unquoted form of `%S`; tokens other than blanks, quoted strings, escapes and carets; prompts and line counting; the token buffer is a string that grows as needed.
- SyntaxTrees: the grammar is not modelled, only what its actions build for simple commands; `flatten`, `backquote`, `fnassign`, `mklambda` and `relop` only build trees.
- SyntaxRewriting: mkredir, mkclose and mkdup are on values only; the name word that a /dev/fd redirection shares between two lists, and never changes, is two words.
- SyntaxRewriting.Trees.QueueHeredoc: the queue of pending markers.
- SequenceMeaning: `%seq`, `%and` and `%or` as script/initial.es defines them, without user redefinition; evaluation flags and the limit of the evaluation depth.  Of command substitutions, subscripts, home directories, variables whose name may be empty and all other commands nothing is known, nor of what the text of a constant word does when it is called (that of `'{}'`, say), so that for these the condition for flattening is exact only as far as their text is not looked into; nor is it looked into whether a bracket can match a file name at all (a range upside down cannot).
- Decimal arithmetic, terminal input, job control, signals, file system tests, and the tree printer: dominated by other libraries, the kernel, or user interface.
- C integer overflow, allocation failure and locale effects.
