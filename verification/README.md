# Build and lint tooling of the server, modelled in Dafny

A model of the stateful core of the server's Python tooling, with proofs of what it promises.
`dafny verify dfyconfig.toml` checks all of it. Nothing here executes the tools.

The parts, one group of modules each:

- **Library dependencies** (`Digraph.dfy`, `Libdeps.dfy`): the memoised closure over build nodes.
  Nodes are objects with the attributes of the original; an exception is an `Outcome`. For every
  finite graph and every sequence of queries, the memoised search gives the plain transitive
  closure, or a real simple cycle exactly when there is one. Dependencies may be appended between
  queries; whether the cache survives that is decided exactly.
- **Worker pool** (`WorkerPool.dfy`): workers sharing a queue, a stop event and a result cell, as a
  step relation with one program counter per worker and one for the waiting caller. The work
  function may return a true value, a false value, or raise. All results hold for every
  interleaving and any number of workers; whether a pool returns, and what, is shown to depend on
  the work function and the order of the items alone.
- **Bracket matching** (`Brackets.dfy`, `FileText.dfy`, `LineScan.dfy`, `FilePairs.dfy`,
  `AngleChars.dfy`, `Framing.dfy`, `AnglePairs.dfy`, `AnglePairsLeft.dfy`, `AngleRoundTrip.dfy`,
  `TemplateLists.dfy`, `TextInside.dfy`): the linter's forward and backward finders, with their
  tentative stack for `<` and `>`. Both are proved against a grammar of balanced text, which makes
  each the inverse of the other across lines. From a `<` or `>` they are proved to end exactly where a
  count of template brackets outside groups first reaches zero, and on a grammar of template argument
  lists they match `<` with `>` both ways. Which `<` and `>` count is said of the characters around them.
- **Nesting stack** (`Nesting.dfy`, `NestingHeap.dfy`, `NestingTokens.dfy`): checkpoints of the
  linter's nesting stack at `#if`, `#else` and `#endif`, on values for any effect that a line may
  have, and in memory, where a stack is a list of references into a store of blocks that lines change
  in place. A grammar of blocks, heads and statements says which blocks a text leaves open, and the
  stack holds just those.
- **Assertion codes** (`ErrorCodes.dfy`, `CodeText.dfy`, `FileLines.dfy`, `ErrorRepair.dfy`,
  `LineNumbers.dfy`): duplicates and zeros among the collected codes, and their repair in the text of
  the source files, which is read, changed in one line and written back for every zero.
- **Smaller loops** (`CachePrune.dfy`, `LogAppender.dfy`, `OldFails.dfy`): cache pruning, the
  buffered log sender, and the fail file.

`Seqs.dfy` holds notions about sequences that several of them share.

What the code does differently from what one may expect of it, each with its exact condition:

- A pool returns True although a call raised (`WorkerPool.TrueDespiteRaise`): exactly when no item
  gives a false value and some item raises (`WorkerPool.TrueHidesRaiseExactly`).
- A pool whose calls raise may never return (`WorkerPool.WaitsForEver`): it returns, whatever the
  schedule, exactly when fewer items raise before the first false value than there are workers
  (`WorkerPool.ReturnsExactly`).
- Direct dependencies appended after a query leave cached answers stale (`Libdeps.StaleExample`),
  exactly when they are news to a cached node (`Libdeps.AppendDirect`).
- `CloseExpression` on a `<` that follows another `<`, or the word `operator`, answers for a later
  opener of the line (`AnglePairs.UnpushedAnswersForAnother`, `AnglePairs.UnpushedExample`). From
  every other `<` the answer is exact (`AnglePairs.AngleExact`). In the same way
  `ReverseCloseExpression` on the `>` of an arrow or of `>=` answers for an earlier closer, or finds
  nothing (`AnglePairsLeft.PassedAnswersForAnother`).
- From a template bracket the finders need not undo each other (`AngleRoundTrip.OneWayExample`): they
  do exactly when the text between takes the count to zero in both readings
  (`AngleRoundTrip.RoundTripExactly`).
- The repair leaves a zero code in place when its parenthesis is on an earlier line
  (`ErrorRepair.FirstOnItsLine`): a zero gets a fresh code exactly when only spaces stand between a
  parenthesis of its line and its digits (`ErrorRepair.Fix`).
- Two numbers after parentheses on one line get the same code (`ErrorRepair.TwoNumbersExample`,
  `ErrorRepair.DistinctExactly`).
- A line that gets shorter leaves the old end of the file behind, which is not cut off
  (`FileLines.LeftBehindExample`). After all visits a file is just its intended lines exactly when
  `ErrorRepair.LeftBehind`, computed from its lines and the codes to come, is nothing
  (`ErrorRepair.FileExactly`). That is so if no line gets shorter on its first visit, in particular if
  no number to replace has more digits than the first new code (`ErrorRepair.ShortNumbersFit`), and
  only then, unless the text ends in the digits of a number after a parenthesis, which can swallow
  what was left behind (`FileLines.SwallowedExample`).
- `getNextCode` fails on fewer than two codes (`ErrorRepair.GetNextCode`).
- A code at the very end of a file without a final newline is located one line past the last, and
  the repair then fails, unless an earlier write left text behind there
  (`LineNumbers.LineOfCodeExample`, `LineNumbers.LineOfCode`, `ErrorRepair.Fix`).
- Pruning may remove the whole cache (`CachePrune.WipeExample`): exactly when the files that cannot
  be deleted are by themselves as large as the target (`CachePrune.FailsExactly`).
- An entry of the fail file is dropped although the databases differ after its test, and stays
  although its test won when a check raises (`OldFails.DroppedDespiteDifference`).

## Model

| member | source | states |
|---|---|---|
| `Libdeps.GetLibdeps` | site_scons/libdeps.py:83-93 | at any depth of the search: the exact closure and no cycle below, or a chain back to a node under exploration or a complete cycle; flags and edges kept, cached values never change and the whole cache stays exact |
| `Libdeps.ComputeLibdeps` | site_scons/libdeps.py:95-119 | the same, with the node's own flag cleared on both ways out; the node is still uncached, so that each node is stored at most once; ends because the unexplored nodes shrink |
| `Libdeps.ExploreDirect` | site_scons/libdeps.py:104-119 | the loop over direct dependencies gathers exactly the closure, skipping empty entries, and the handler extends the error by the node as long as the cycle is open |
| `Libdeps.WitnessUnwinds` | site_scons/libdeps.py:112-115 | adding a node in front unless first and last agree turns a chain into a chain one node longer or into a simple cycle, and leaves a finished cycle alone |
| `Libdeps.GatheredAll` | site_scons/libdeps.py:106-119 | children with exact, acyclic closures give the node an exact, acyclic closure |
| `Libdeps.Query` | site_scons/libdeps.py:83-119 | with no node under exploration: an error exactly when a cycle is reachable, with a simple cycle of real edges as its nodes; otherwise the exact closure; flags clear and cache exact, with all dependencies of cached nodes cached, afterwards either way |
| `Libdeps.QueryAll` | site_scons/libdeps.py:83-119 | every answer of any sequence of queries, failing ones included, is determined by the edges alone |
| `Libdeps.AppendDirect` | site_scons/libdeps.py:201-207 | after appending, the cache meets the precondition of a query again exactly when every cached node that is or depends on the node already depends on all that was appended; so queries and appends can be interleaved |
| `Libdeps.StaleExactly` | site_scons/libdeps.py:201-207 | one cached closure stays true exactly under that condition |
| `Libdeps.NoNewCycle` | site_scons/libdeps.py:201-207 | under that condition no cycle arises below a cached node, because all that a cached node depends on is cached |
| `Libdeps.DescendantsCached` | site_scons/libdeps.py:83-119 | whatever a cached node depends on is cached, which every query keeps |
| `Libdeps.StaleExample` | site_scons/libdeps.py:201-207 | a node asked for its dependencies and given one afterwards keeps the old answer |
| `Digraph.CycleBelowUnfold` | site_scons/libdeps.py:98-110 | a cycle is reachable from a node exactly when one is reachable from a direct dependency |
| `Digraph.ReachLeast` | site_scons/libdeps.py:95-110 | the closure is the least set that holds the direct dependencies and is closed under them |
| `Digraph.ReachAfterNewEdges` | site_scons/libdeps.py:201-207 | when new edges leave the closure of a node as it was, both directions |
| `WorkerPool.RunInv` | buildscripts/clang_format.py:352-400 | the invariant of the pool holds in the last state of every run, hence in every reachable state |
| `WorkerPool.NoItemLost` | buildscripts/clang_format.py:352-378 | in every reachable state each item is queued, with one worker, or in one ended call; a worker that left its loop leaves the event set; after the event fewer items are taken than there are workers |
| `WorkerPool.ReturnedValue` | buildscripts/clang_format.py:352-400 | a returning pool says True exactly when every item was called once and no call gave a false value, and False exactly when some call did |
| `WorkerPool.ReturnedValueOf` | buildscripts/clang_format.py:352-400 | for a given work function a returned value is True exactly when no item gives a false value, whatever the schedule |
| `WorkerPool.TrueHidesRaiseExactly` | buildscripts/clang_format.py:363-375 | a returned True hides an exception exactly when no item gives a false value and some item raises |
| `WorkerPool.TrueDespiteRaise` | buildscripts/clang_format.py:363-375 | a run of two workers that returns True although the only call raised |
| `WorkerPool.WorkerStepDescends` | buildscripts/clang_format.py:352-375 | every action of a worker lowers a measure over queue length and positions |
| `WorkerPool.RunsAreBounded` | buildscripts/clang_format.py:352-400 | a run has at most four states per item, four per worker, and three more |
| `WorkerPool.WorkerNeverBlocks` | buildscripts/clang_format.py:355-375 | a worker that is not over can always act; in particular no item is marked done too often |
| `WorkerPool.StuckExactly` | buildscripts/clang_format.py:390-400 | a run can go no further exactly when the pool returned, or the caller waits and every worker was ended by an exception |
| `WorkerPool.ReturnsExactly` | buildscripts/clang_format.py:352-400 | whatever the schedule, a run that can go no further has returned exactly when, in queue order, fewer items raise before the first false value than there are workers |
| `WorkerPool.RunCompletes` | buildscripts/clang_format.py:352-400 | every run goes on, following the work function, to one that can go no further |
| `WorkerPool.WaitsForEver` | buildscripts/clang_format.py:390-400 | one worker and one raising item: a run that can go no further and has not returned |
| `Brackets.ForwardExact` | buildscripts/cpplint.py:1391-1453 | the plain scan to the right ends at a position exactly when the grammar pairs it with the opener |
| `Brackets.BackwardExact` | buildscripts/cpplint.py:1516-1574 | the plain scan to the left ends at a position exactly when the grammar pairs it with the closer |
| `Brackets.PartnerUnique` | buildscripts/cpplint.py:1456-1612 | a bracket has at most one partner |
| `LineScan.ReadRight` | buildscripts/cpplint.py:1391-1450 | the body of the loop to the right, branch by branch, is the step that the theorems below are about |
| `LineScan.ReadLeft` | buildscripts/cpplint.py:1517-1572 | the body of the loop to the left, with the characters that it passes over |
| `LineScan.FindEndOfExpressionInLine` | buildscripts/cpplint.py:1378-1453 | the loop over a line computes the scan that the theorems below are about, with its three kinds of result |
| `LineScan.FindStartOfExpressionInLine` | buildscripts/cpplint.py:1500-1574 | the same to the left, with the characters that it passes over |
| `LineScan.StripStack` | buildscripts/cpplint.py:1415-1416 | dropping tentative brackets from the top of the stack |
| `LineScan.CloseExpression` | buildscripts/cpplint.py:1456-1497 | the place past the closing bracket, or the number of lines and -1, as the scan over all lines gives it; `CloseExact` and `AngleExact` say of the text alone which place that is |
| `LineScan.ReverseCloseExpression` | buildscripts/cpplint.py:1577-1612 | the place of the opening bracket, or line 0 and -1; `ReverseExact` and `ReverseAngleExact` say of the text alone which place that is |
| `FilePairs.RightRefines` | buildscripts/cpplint.py:1391-1453 | above a real bracket, the tentative `<` and the semicolon rule never change the outcome of the scan to the right |
| `FilePairs.LeftRefines` | buildscripts/cpplint.py:1516-1574 | nor of the scan to the left, in spite of the characters passed over |
| `FilePairs.FileSkipsHarmless` | buildscripts/cpplint.py:1522-1537 | a character passed over unread is never a bracket, and never on another line |
| `FilePairs.CloseExact` | buildscripts/cpplint.py:1456-1497 | from `(`, `[` or `{`, CloseExpression ends at a place exactly when that place matches in the text of the file |
| `FilePairs.CloseFailsExactly` | buildscripts/cpplint.py:1488-1497 | it fails exactly when no place of the file matches |
| `FilePairs.ReverseExact` | buildscripts/cpplint.py:1577-1612 | from `)`, `]` or `}`, ReverseCloseExpression ends at a place exactly when that place matches |
| `FilePairs.RoundTrip` | buildscripts/cpplint.py:1456-1612 | for the three kinds of bracket, CloseExpression leads from one place to another exactly when ReverseCloseExpression leads back |
| `AngleChars.WordCharactersAre` | buildscripts/cpplint.py:1404 | which characters the boundary before the word operator tells apart |
| `AngleChars.OperatorExactly` | buildscripts/cpplint.py:1404-1406 | the test for the word operator holds exactly when the word stands there, with only white space after it |
| `AngleChars.TestsExactly` | buildscripts/cpplint.py:1396-1450 | each test on a `<` or `>`, to the right and to the left, holds exactly when the characters that the lemma names stand around it |
| `AngleChars.StartsListExactly` | buildscripts/cpplint.py:1396-1409 | a `<` goes onto the stack exactly when it is no part of `<<` or `<=` and does not follow the word operator |
| `AngleChars.NoStart` | buildscripts/cpplint.py:1479-1481 | CloseExpression finds nothing from `<<`, `<=` or a character that opens nothing |
| `AngleChars.NoEnd` | buildscripts/cpplint.py:1594-1596 | ReverseCloseExpression finds nothing from a character that closes nothing |
| `AngleChars.NeverEndsAtArrow` | buildscripts/cpplint.py:1428-1441 | for every file and start: CloseExpression never ends at the `>` of `->` nor at one after the word operator |
| `AngleChars.NeverEndsAtShift` | buildscripts/cpplint.py:1533-1544 | for every file and start: ReverseCloseExpression never ends at the second `<` of `<<` |
| `AngleChars.PassedOverLeft` | buildscripts/cpplint.py:1526-1537 | with any stack, the scan to the left leaves out a passed `>`, or the second `<` of `<<`, and the character before it |
| `AngleChars.ArrowPassed` | buildscripts/cpplint.py:1428-1530 | with any stack, both scans go over `->` as if it were not there |
| `AnglePairs.AngleExact` | buildscripts/cpplint.py:1396-1450 | from a `<` that starts a list (no part of `<<` or `<=`, not after the word operator), CloseExpression ends at a place exactly when a `>` stands there that ends no `->` and follows no operator word, the text between is balanced, and the count of template brackets outside groups first reaches zero there; no flag of the scan occurs in it |
| `AnglePairs.CountExact` | buildscripts/cpplint.py:1391-1453 | the same for the scan of any cells from any count |
| `AnglePairs.AngleClosed` | buildscripts/cpplint.py:1396-1450 | in particular a success ends at a `>` and no semicolon stands before it outside brackets |
| `AnglePairsLeft.ReverseAngleExact` | buildscripts/cpplint.py:1516-1571 | from a `>` that ends no `->`, starts no spaced `>=` and follows no operator word, ReverseCloseExpression ends at a place exactly when a `<` stands there that follows no `<`, the text between is balanced, and the count, read from the right, first reaches zero there; again on the characters alone |
| `AnglePairsLeft.PassedAnswersForAnother` | buildscripts/cpplint.py:1516-1537 | from any other `>`, ReverseCloseExpression answers as for an earlier closing bracket of the same line, or finds nothing |
| `AnglePairsLeft.CountBackExact` | buildscripts/cpplint.py:1516-1574 | the same for the scan of any cells from any count |
| `AnglePairs.UnpushedAnswersForAnother` | buildscripts/cpplint.py:1396-1409 | from any other `<`, a success is the answer for a later opener of the same line |
| `AnglePairs.UnpushedExample` | buildscripts/cpplint.py:1396-1409 | a line on which that answer is a parenthesis |
| `AngleRoundTrip.RoundTripExactly` | buildscripts/cpplint.py:1456-1612 | from a `<` and a `>` that go onto the stacks, each finder leads to the other's bracket exactly when the text between takes the count to zero in both readings |
| `AngleRoundTrip.WayBackExactly` | buildscripts/cpplint.py:1577-1612 | once CloseExpression has led from a `<` to such a `>`, the way back is decided by the count from the right alone |
| `AngleRoundTrip.OneWayExample` | buildscripts/cpplint.py:1522-1527 | a line with `>=` on which CloseExpression succeeds and the way back leads nowhere |
| `Framing.RightFramed` | buildscripts/cpplint.py:1391-1453 | what lies on the stack below a real bracket does not change the scan to the right until that bracket is closed |
| `Framing.LeftFramed` | buildscripts/cpplint.py:1516-1574 | the same to the left |
| `TemplateLists.ClosesTemplateList` | buildscripts/cpplint.py:1396-1450 | from the `<` of a list derived by the grammar (characters, `->`, `<<`, bracketed groups, nested lists, over any lines), CloseExpression ends at its `>` |
| `TemplateLists.ReversesTemplateList` | buildscripts/cpplint.py:1520-1571 | from that `>` ReverseCloseExpression ends at the `<`, arrows and the characters before them passed over |
| `TextInside.GetTextInside` | buildscripts/cpplint.py:4617-4647 | the text comes back exactly when the opener has a partner, and is what stands between the two |
| `TextInside.AgreesWithCloseExpression` | buildscripts/cpplint.py:4617-4647 | on one line, CloseExpression succeeds exactly then, at the same closer |
| `Nesting.AsIfFirstBranches` | buildscripts/cpplint.py:2317-2371 | for every sequence of lines, well nested or not, and any effect of each line: wherever no open conditional is past its first branch, the stack is as if only first branches had been read |
| `Nesting.WellNestedStretch` | buildscripts/cpplint.py:2317-2371 | over a well-nested stretch, entered in any state, the checkpoints are restored and the stack is that of first branches only |
| `Nesting.InnermostMatches` | buildscripts/cpplint.py:2336-2371 | the `#if` that the innermost open branch belongs to: it is still open, and the lines since the start of the branch are well nested |
| `Nesting.InOpenBranch` | buildscripts/cpplint.py:2317-2371 | for every sequence of lines and any effect of each: inside any branch of an open conditional, first or later, the stack is what the lines of that branch alone make of the stack before the matching `#if` |
| `Nesting.ElseRestores` | buildscripts/cpplint.py:2343-2353 | for every sequence of lines, at each `#else` or `#elif` with an open conditional the stack becomes the one that stood before the matching `#if` |
| `NestingHeap.NestingState.DeepCopy` | buildscripts/cpplint.py:2341-2353 | new blocks, none shared, with the same values |
| `NestingHeap.NestingState.SaveBeforeIf` | buildscripts/cpplint.py:2338-2341 | an `#if` saves the values of the stack in blocks of its own |
| `NestingHeap.NestingState.SaveBeforeElse` | buildscripts/cpplint.py:2345-2350 | so does the first `#else` |
| `NestingHeap.NestingState.RestoreBeforeIf` | buildscripts/cpplint.py:2352-2353 | the stack gets back the values before the `#if`, the checkpoint keeps its blocks to itself |
| `NestingHeap.NestingState.DropCheckpoint` | buildscripts/cpplint.py:2357-2368 | taking over the saved list without a copy shares no block with what remains |
| `NestingHeap.NestingState.UpdatePreprocessor` | buildscripts/cpplint.py:2317-2371 | no two checkpoints, and no checkpoint and the live stack, ever share a block, so that the method does on blocks what the model does on values, where `InOpenBranch` and `AsIfFirstBranches` say what stack results |
| `NestingHeap.NestingState.SetTop` | buildscripts/cpplint.py:2401-2419 | a change in place of the innermost block reaches no checkpoint |
| `NestingHeap.NestingState.CountInPlace` | buildscripts/cpplint.py:2398-2419 | the parenthesis and assembly bookkeeping, in place, leaves all checkpoints alone |
| `NestingHeap.NestingState.Consume` | buildscripts/cpplint.py:2424-2536 | declarations, braces and semicolons push, mark or pop the innermost block and nothing else; what that amounts to over a text is said by `FileBlocks` and `OpenBlocksStay` |
| `NestingHeap.NestingState.Update` | buildscripts/cpplint.py:2373-2536 | one line in memory is one line on values; the uncopied reference to the block that was innermost before names a block of the same kind, which is the block below the top exactly when the directive left the stack in place, nothing of it was popped and one block was pushed |
| `NestingHeap.PreviousTopExactly` | buildscripts/cpplint.py:2385-2393 | the same for any lists of references; after a restore the reference names no block below the top |
| `NestingHeap.NestingState.UpdateAll` | buildscripts/cpplint.py:2373-2536 | a whole file in memory leaves the stack that first branches alone give, wherever no open conditional is past its first branch |
| `NestingTokens.TakesOff` | buildscripts/cpplint.py:2519-2535 | a closing brace takes off exactly the innermost block, of any kind; a semicolon or closing parenthesis does so exactly when its brace has not come |
| `NestingTokens.InArguments` | buildscripts/cpplint.py:2446-2452 | inside open parentheses class heads and closing parentheses change nothing |
| `NestingTokens.TextBalanced` | buildscripts/cpplint.py:2424-2535 | any text derived by the grammar (blocks with heads or without, namespaces, forward declarations, statements, nested) gives back the stack it found |
| `NestingTokens.OpenBlocksStay` | buildscripts/cpplint.py:2424-2535 | any text with unclosed blocks adds exactly those blocks, in order and each of the kind of its opener |
| `NestingTokens.FileBlocks` | buildscripts/cpplint.py:2373-2535 | for every file, however broken into lines and whatever its parentheses do: wherever no open conditional is past its first branch, the stack holds what was there before and one block for each unclosed opener in first branches, of its kind, in order |
| `NestingTokens.OnlyHeadsWait` | buildscripts/cpplint.py:2424-2535 | in every run only classes and namespaces are ever without their brace |
| `NestingTokens.LowestExactly` | buildscripts/cpplint.py:2424-2535 | the least height that the stack has while a line is read |
| `NestingTokens.CountsOnTop` | buildscripts/cpplint.py:2398-2419 | lines that only count leave all blocks but the innermost as they are |
| `NestingTokens.CountsExactly` | buildscripts/cpplint.py:2401-2419 | over any lines: the count is the parentheses opened less those closed; inline assembly is on exactly when it was entered and the count has not been zero since, and at its end exactly on the line that brings the count to zero |
| `CachePrune.SortCorrect` | buildscripts/scons_cache_prune.py:67-68 | sorting orders by time, newest first, and keeps the sum of any weight over the items |
| `CachePrune.Total` | buildscripts/scons_cache_prune.py:26-51 | the running total is the size of all items |
| `CachePrune.PruneLoop` | buildscripts/scons_cache_prune.py:72-98 | the tracked total is the initial one less what was removed, an item is examined only while the total is too large, success is a total below the target, failure an exhausted list |
| `CachePrune.PruneCache` | buildscripts/scons_cache_prune.py:54-101 | below quota, in units of 1073741824 bytes, nothing is examined; otherwise the loop's promise holds for quota times ratio |
| `CachePrune.OldestExamined` | buildscripts/scons_cache_prune.py:67-80 | examined items are no newer than those left alone |
| `CachePrune.FailsExactly` | buildscripts/scons_cache_prune.py:72-98 | pruning fails exactly when the items that cannot be deleted reach the target by themselves; how many items it examines is determined |
| `CachePrune.WipeExample` | buildscripts/scons_cache_prune.py:54-80 | a cache of one file that has reached the quota and cannot be deleted is removed as a whole |
| `CachePrune.AllRemovable` | buildscripts/scons_cache_prune.py:72-98 | if every item can be deleted, pruning succeeds exactly for a positive target |
| `LogAppender.Appender.Send` | buildscripts/buildlogger.py:280-296 | the buffers, the accepted batches and the time afterwards; a refused batch is kept |
| `LogAppender.Appender.Submit` | buildscripts/buildlogger.py:280-296 | true exactly when there was nothing to send or the batch was accepted, and then that batch, new lines first, is the only one added to those accepted; the state stays that of the run of calls so far, which the lemmas below are about |
| `LogAppender.Appender.Append` | buildscripts/buildlogger.py:271-278 | the line is kept as the last one given, and submitted, with all that is pending, exactly when the buffer is full or old; between calls the buffer is shorter than a positive limit |
| `LogAppender.Appender.Finish` | buildscripts/buildlogger.py:348-355 | the closing loop delivers everything exactly when there is nothing or one of six answers accepts, and stops after six refusals |
| `LogAppender.AcceptedExactly` | buildscripts/buildlogger.py:348-355 | the acceptance that the closing loop waits for means that one of so many answers accepts |
| `LogAppender.RunAccounts` | buildscripts/buildlogger.py:267-296 | for every run: the lines given in its calls are the stretches taken by accepted batches followed by retry buffer and buffer in the order given; each batch is its stretch with the back part in front |
| `LogAppender.NothingLost` | buildscripts/buildlogger.py:267-296 | accepted batches and pending lines hold each line given in a call exactly once |
| `ErrorCodes.ReadErrorCodes` | buildscripts/errorcodes.py:131-169 | the errors are, once each, exactly the locations whose code occurs again, in the order in which they are found out (the first with a code just before the second), then the first location of the code 0 |
| `ErrorCodes.OrderDetermined` | buildscripts/errorcodes.py:131-152 | these conditions leave one list only |
| `ErrorCodes.ErrorsExactly` | buildscripts/errorcodes.py:131-169 | a location is among the errors exactly when its code occurs again or is 0 |
| `ErrorCodes.CheckErrorCodes` | buildscripts/errorcodes.py:124-128 | true exactly when the codes are pairwise distinct and none is 0 |
| `ErrorRepair.GetNextCode` | buildscripts/errorcodes.py:110-121 | one above the highest code exactly when there are two codes or more |
| `CodeText.SubNumbers` | buildscripts/errorcodes.py:196-198 | on the numbers of a line the substitution replaces exactly those that follow a parenthesis and spaces; the text around the numbers is kept, and the change in length is known |
| `CodeText.IntOfStr` | buildscripts/errorcodes.py:196-198 | the digits written for a code read back as that code |
| `CodeText.SubAppend` | buildscripts/errorcodes.py:196-198 | on a longer text the substitution starts with what it makes of the start, and adds something for what follows unless that runs into a number after a parenthesis |
| `FileLines.OneLineExactly` | buildscripts/errorcodes.py:193 | a line as it is read is text without a newline, except perhaps at its end |
| `FileLines.ReadProper` | buildscripts/errorcodes.py:193 | any text is read as such lines, all but the last with a newline, that together are the text |
| `FileLines.ReadBack` | buildscripts/errorcodes.py:192-202 | lines written one after the other are read again as they were |
| `FileLines.WriteBackExactly` | buildscripts/errorcodes.py:191-202 | after one write over the old lines the file holds the new ones and nothing more exactly when the replaced numbers do not get shorter together |
| `FileLines.NewTextFollowed` | buildscripts/errorcodes.py:192-202 | what an earlier write left behind the lines stays behind them when a line is changed, and disappears only into a last number after a parenthesis |
| `FileLines.VisitLeaves` | buildscripts/errorcodes.py:191-202 | one visit of a file that holds lines with old text behind them: the changed lines, and exactly what is behind them afterwards, for every text |
| `FileLines.DigitsFollow` | buildscripts/errorcodes.py:192-202 | old digits behind a last number after a parenthesis are read with it, replaced with it, and kept when another line is changed |
| `FileLines.LeftBehindExample` | buildscripts/errorcodes.py:191-202 | a file of one line that gets shorter, with its old end left behind |
| `FileLines.SwallowedExample` | buildscripts/errorcodes.py:186-203 | a file that ends in a number after a parenthesis: the first of two visits leaves digits behind and the second removes them |
| `ErrorRepair.RewrittenNumbers` | buildscripts/errorcodes.py:186-203 | after all visits, the numbers after a parenthesis hold the code of their line's last visit and everything else is as before |
| `ErrorRepair.FileVisited` | buildscripts/errorcodes.py:186-203 | each visit keeps the account of a file: its text is the intended lines followed by what is left behind |
| `ErrorRepair.FileExactly` | buildscripts/errorcodes.py:186-203 | after all visits the text is just the intended lines exactly when nothing is left behind; that is so if no line gets shorter on its first visit, and only then unless the text ends in a number after a parenthesis |
| `ErrorRepair.RepeatGain` | buildscripts/errorcodes.py:186-203 | a line that is visited again does not get shorter |
| `ErrorRepair.ShortNumbersFit` | buildscripts/errorcodes.py:186-203 | no line gets shorter if no number to replace has more digits than the first new code |
| `ErrorRepair.LinesStay` | buildscripts/errorcodes.py:186-203 | every line is still there after the visits, and is read again as intended if it ends in a newline or nothing is left behind in its file |
| `ErrorRepair.ReplaceBadCodes` | buildscripts/errorcodes.py:172-203 | nonzero errors are skipped and each zero error's line is visited with the next code, all files ending up as the account says; a line that does not exist stops the loop after the visits before it, except in text that was left behind |
| `ErrorRepair.ZeroPlacesAt` | buildscripts/errorcodes.py:180-203 | which zero gets which code: each is visited after one visit for each zero error listed before it |
| `ErrorRepair.ErrorsVisited` | buildscripts/errorcodes.py:140-186 | the lines visited are exactly those of locations whose code has the value 0 and is "0" or occurs again |
| `ErrorRepair.SameExactly` | buildscripts/errorcodes.py:186-203 | two replaced numbers are the same afterwards exactly when they are on the same line |
| `ErrorRepair.DistinctExactly` | buildscripts/errorcodes.py:186-203 | replaced numbers are pairwise distinct exactly when no visited line holds two of them |
| `ErrorRepair.TwoNumbersExample` | buildscripts/errorcodes.py:196-198 | a line on which a zero and another number get one code |
| `ErrorRepair.FirstOnItsLine` | buildscripts/errorcodes.py:196-198 | a code that stands first on its line is never replaced |
| `ErrorRepair.Fix` | buildscripts/errorcodes.py:239-259 | a type error exactly on fewer than two codes, nothing to do exactly when there are no duplicates and no 0, an index error only when a line to repair does not exist, and always then unless its file has text left behind; a location to repair is to get a code above all collected ones exactly when only spaces stand between a parenthesis of its line and its digits, two such locations to share a code exactly when they share a line, and nothing else to change; the files hold this as the account above says, and files without a visited line are as before |
| `LineNumbers.LineOffsets` | buildscripts/errorcodes.py:80-84 | where each line starts and where the text ends |
| `LineNumbers.LineForPosition` | buildscripts/errorcodes.py:99-101 | the number of the line that holds a position |
| `LineNumbers.LineOfMatchEnd` | buildscripts/errorcodes.py:86-101 | the position past a code gives the line of the code exactly when the code does not end its line |
| `LineNumbers.LineOfCode` | buildscripts/errorcodes.py:78-101 | a code is located in its own line, or one past the last line exactly when it ends a text without a final newline |
| `LineNumbers.LineOfCodeExample` | buildscripts/errorcodes.py:78-101 | a text of one line whose code is located in line 2 |
| `OldFails.PopStep` | buildscripts/smoke.py:1274-1276 | popping the next index less the pops before it removes the entry that the index named at first |
| `OldFails.PopAll` | buildscripts/smoke.py:1274-1276 | the shifting pops leave exactly the entries whose index was not recorded, in order |
| `OldFails.Smoke.RunTests` | buildscripts/smoke.py:842-922 | each test begun ends in the list of winners or of fails by how it ended, whatever the checks after it find; how many are begun, when the loop is left by an exception, and which of 0, 1 and 2 is returned otherwise |
| `OldFails.ListedExactly` | buildscripts/smoke.py:856-867 | a test is in the one list exactly when it was begun, not skipped and returned, in the other exactly when it did not return, and no other is in either |
| `OldFails.Smoke.RunOldFails` | buildscripts/smoke.py:1252-1283 | however the loop is left, the saved list is the original one without the entries whose file is gone or whose test won with nothing raised around it |
| `OldFails.DroppedDespiteDifference` | buildscripts/smoke.py:862-878 | an entry is dropped although the databases differ, and stays, though it won, exactly when the check raises |
| `OldFails.KeepMembers` | buildscripts/smoke.py:1274-1276 | an entry is saved exactly when an index that was not recorded holds it |

## Left out

- `buildscripts/resmokelib/selector.py`: test selection is set algebra that would only add easy members.
- `buildscripts/eslint.py`: its pool is a second copy of the one modelled here.
- System libraries, scanners, emitters and sorting by name in `site_scons/libdeps.py`: direct dependencies are taken as flattened lists, with null for an empty entry.
- `Block` objects of the nesting state are cells of an explicit store and not Dafny objects, so that sharing is a matter of equal references; checkpoints are values, as no two references to one exist. Names, indentation and the checks that only report errors are not part of this model. The source says that blocks on the stack are not modified in place, and modifies them; the model follows the code.
- NestingHeap.NestingState.Consume: which tokens a line holds is given with the line, and the access marks of classes are left out, because they are further fields set in the same way.
- Regular expressions other than those that decide what `<` and `>` mean and those of the code repair; `\w` and `\s` cover ASCII only, and a line ends in a newline character only.
- `InTemplateArgumentList` and the other callers of the finders.
- AnglePairs.AngleClosed: does not say which of several candidate `>` is found; `AnglePairs.AngleExact` does.
- The fate of each cached file is given by a function of the file; times and the target are real numbers, without the rounding of floating point.
- The HTTP callback of the log sender is a yes or no answer. The loop that marks a test finished asks for more than five tries left from five and so never repeats; it is not part of this model.
- Collected codes come as a list; repeated collection into the global list, and zeros written with several digits that occur only once, which nothing reports, are not part of this model.
- Process control, loading and saving of the fail file, and `add_to_failfile`: a test run is given by how the test and the checks after it ended.
