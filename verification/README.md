# Verified algorithms of the codemap index

codemap indexes Go repositories into an SQLite store and answers queries about
symbols, imports, cycles, paths and contracts. Around that plumbing sit small
algorithms whose comments and callers promise real theorems. This project models
those algorithms in Dafny, in the form the Go code has them (classes with fields,
loops over queues and maps, arrays changed in place, recursive matchers), proves
each one against a specification that does not mention how it computes, and proves
the promised properties of that specification.

| file | what it holds |
|---|---|
| Ordering, Sequences, Options | Go's order on strings; sorting with duplicates removed; shared definitions |
| Cycles, CycleCount | enumeration of all simple cycles with rotation-free results and a cap; how many are listed |
| ImportGraph, Worklist | import graphs; the turns of the layering worklist on any graph, and when they never end |
| ProjectGraph | building the import graph, with imports resolved to project packages |
| Layers | the worklist itself, which lets import levels rise to the longest chain |
| PageRank | power iteration with its exit test, over reals |
| QualifiedNames | names of methods with the receiver in parentheses, and their stored form |
| FindPath, Traverse, ImportWalk | breadth-first searches over edges, contracts and imports |
| Window | the smallest span of lines that has every query term |
| Levenshtein, Correction | two-row edit distance and the unique nearest correction |
| Pattern | first-order matching with repeated metavariables and ellipses |
| Unresolved | the search for unloaded types in a cyclic type graph |
| Like | LIKE patterns and their escaping |
| Braces, OwningSwitch | net brace counts of lines; the backward scan for the switch of a case clause against a forward stack |
| Rename, RenameSites | splicing identifiers from right to left, and back; the sites collected and planned |
| JsonText, JsonScan, JsonKeys | JSON texts as trees, the hand-written scanner, and what it finds |
| Sections, Lines, TextChunks, FixedChunks, Folding, Chunk | splitting a response into sections without loss |
| TimeText, ResponseStore | the bounded store of responses as a state machine over whole runs |

Most methods equal a function or satisfy a predicate; the lemmas then relate that
function to a reference definition: walks and balls for the searches, chains of
single edits for the distance, substitution for matching, RFC 8259 trees for the
scanner, a stack machine for the braces, the least oldest-first set for eviction.

## Where the code and its own words differ

The model follows the code. Each of these is a lemma here.

- Cycle keys are names joined with NUL (query/query.go:2165). Two different cycles
  get one key when a name contains NUL, and only then can a cycle be lost:
  `Cycles.NulNamesCollide`, `Cycles.ListedOnceIffKeysSeparate`. No indexed name has a
  NUL, so on an index every cycle is listed once below the cap: `Cycles.CompleteResult`.
- The `Truncated` flag is documented as "more cycles exist" (query/query.go:2018-2020).
  It is set when there are 1000 cycles or more, so it says so wrongly if and only if
  there are exactly 1000: `CycleCount.FlaggedIff`, `CycleCount.FlagMeansMoreIff`, and
  1000 packages that import themselves in `CycleCount.ThousandLoopsFlagged`.
- The layering worklist need not end on a graph with import cycles. It never ends if
  and only if, at some turn, a set of packages, each imported within the set, have
  all their imports levelled and one of them is queued: `Worklist.EndlessIffRing`. A ring
  of packages that each also import something outside it, and outside it only what
  reaches no cycle, always gets there from the code's own start:
  `Worklist.GroundedRingIsEndless`, `Worklist.SelfImportIsEndless`. Import paths are
  resolved by suffix, so m/errors gets an edge to itself by importing the standard
  errors, and with a leaf beside it the layering never ends:
  `ProjectGraph.SuffixImportIsEndless`, `ProjectGraph.ErrorsImportIsEndless`. Some cyclic
  graphs end, with a level above 0 on the cycle (`Worklist.UnreadyCycleEnds`).
- Normalising a name is said to be idempotent (store/store.go:101-104). It is exactly for
  names in which no opening parenthesis behind a dot, which may be the last of a match,
  is followed by text and whole matches up to a closing one and a dot:
  `QualifiedNames.IdempotentIff`; p.(A).(B).M takes two passes:
  `QualifiedNames.TwoReceiversInARow`.
- `FindPath` accepts names written with the receiver in parentheses, since the symbol
  check normalises names, but compares the target and matches contracts by the name as
  written. The answer is the one for the symbols meant, in every index, if and only if
  both names are in stored form or neither question can have a path, which shows in the
  two names: `FindPath.AnswersForSymbolsMeant`, with the missed targets and the missed
  starts in `FindPath.ParenthesisedTargetIsMissed` and `FindPath.ParenthesisedStartIsMissed`.
- `traverse` marks names as written and looks them up normalised, so rows repeat
  exactly when the start is written in another form and met again:
  `Traverse.DuplicatesIffStartMetAgain`, and a cycle of two rows in
  `Traverse.ParenthesisedStartRepeats`.
- A correction is said to need exactly one entry within the distance (fuse/fuse.go:303-304);
  the code takes the one nearest entry. The two agree on an eligible term if and only if
  it is not the case that one entry is strictly nearest while another lies within the
  distance too: `Correction.FollowsRuleIff`, `Correction.ReplacedAmongTwo`.
- LIKE compares ASCII letters without case, so both patterns mean the literal text
  exactly when it has no letter: `Like.LiteralIffNoLetters`, `Like.PrefixIsLiteralIffNoLetters`.
- A case clause is said to belong to the nearest preceding `switch` whose body is open
  (contract/runtime.go:1018-1021). The scan passes over a `switch {`, so a clause of one
  inside a switch on x is given to x, and takes a line such as `switchboard := T{` for a
  switch. It answers for the switch meant if and only if the topmost open line that
  starts with those letters, if any, starts with the keyword, and, if it is tagless, no
  open line has a subject: `OwningSwitch.OwnerIsMeantIff`,
  `OwningSwitch.TaglessIsPassedOver`, `OwningSwitch.SwitchboardIsTaken`.
- Rename sites are said to be deduplicated by position (query/rename.go:212-214), but
  the package counts too, so a position recorded from two packages is spliced twice.
  A file is rewritten as meant if and only if no offset has two sites or the two names
  have one length: `RenameSites.RenamedRightIff`, `RenameSites.TwoPackagesListTwice`;
  `f()` becomes `goo()` in `Rename.CallListedTwice`.
- Response ids are said never to collide (store/store_response_chunks.go:82-84). They
  are equal exactly when time and hash are, and a save under a used id adds to the old
  rows. Every save of a run reads back if and only if none finds rows under its id, and
  a stored id reads as its last save if and only if it had one save since it was empty:
  `ResponseStore.SameIdIff`, `ResponseStore.ReadsBackIffFresh`, `ResponseStore.StoredReadsIff`.
- Evicting "the oldest by created_at" compares RFC 3339 text with trailing zeros
  dropped; .12 of a second sorts before .1: `TimeText.TextOrder`, `ResponseStore.NewerEvictedFirst`.
- JSON names are decoded escape by escape; a surrogate pair becomes two replacement
  characters: `JsonText.PiecewiseIffNoPair`, `JsonKeys.NameFoundIsMeant`, and the key
  of `{"\ud83d\ude00":null}` in `JsonKeys.FaceNameIsLost`.
- Sections are promised to be no larger than the limit (chunk/chunk.go:38), and with
  their header to fit it (chunk/chunk.go:48-50). For every text that holds if and only if
  the limit is at least 512, and at least 640: `Chunk.WithinLimitIff`.
- The comment on fixed chunks says a section may exceed the limit (chunk/chunk.go:150-151);
  none does: `FixedChunks.SplitFixed`.

## Model

| member | source | states |
|---|---|---|
| Ordering.SortCompact | query/query.go:2074-2077 | sorting and dropping duplicates: strictly increasing, same elements |
| Ordering.LessMeans | query/query.go:2074-2077 | texts are ordered by the first place where they differ, the start of a text before it |
| Cycles.DetectCycles | query/query.go:2028-2048 | every result is a closed simple cycle of the graph, keys are distinct, at most 1000, below the cap the key of every simple cycle is there, and only the 1000th result is flagged |
| Cycles.CycleFinder.constructor | query/query.go:2065-2091 | the finder starts empty on exactly the given edges, in a valid state |
| Cycles.CycleFinder.Emit | query/query.go:2099-2117 | the loop from the first occurrence of the node becomes known by its key, once |
| Cycles.CycleFinder.Dfs | query/query.go:2119-2144 | path and stack are restored, results only grow, and below the cap every lasso through the extended path has its cycle recorded |
| Cycles.CycleFinder.Visit | query/query.go:2132-2139 | the same for all successors of the last node of the path |
| Cycles.CanonicalCycle | query/query.go:2149-2166 | the loop computes the key of the rotation that starts at the first smallest node |
| Cycles.CanonicalIffRotation | query/query.go:2146-2164 | two duplicate-free node lists have one canonical form if and only if they are rotations of each other |
| Cycles.RotationsShareKey | query/query.go:2110-2115 | rotations of one cycle always have one key |
| Cycles.KeyIdentifiesCycle | query/query.go:2165 | without NUL in names one key means one cycle up to rotation |
| Cycles.ResultsDiffer | query/query.go:2110-2115 | no two results are rotations of one another, whatever the names |
| Cycles.AllCyclesSeen | query/query.go:2050-2054 | searching from every node as root, never below the root, meets every simple cycle |
| Cycles.TriangleDirection | query/query.go:2119-2144 | a triangle of edges is a cycle one way round and not the other |
| Cycles.ListedOnceIffKeysSeparate | query/query.go:2050-2054 | a complete result lists every simple cycle exactly once up to rotation if and only if keys separate the cycles of the graph |
| Cycles.NulFreeKeysSeparate | query/query.go:2165 | names without NUL keep the keys apart |
| Cycles.NulNamesCollide | query/query.go:2165 | a graph whose keys collide, with a NUL in a name, which no indexed name has |
| Cycles.CompleteResult | query/query.go:2028-2048 | on names without NUL a result below the cap lists every simple cycle exactly once up to rotation |
| CycleCount.ResultCount | query/query.go:2028-2048 | there are as many results as cycle keys, but at most 1000 |
| CycleCount.FlaggedIff | query/query.go:2016-2048 | a result is flagged, and then it is the last one, if and only if there are 1000 cycle keys or more |
| CycleCount.FlagMeansMoreIff | query/query.go:2018-2020 | the flag says truly whether more cycles exist if and only if their number is not 1000 |
| CycleCount.SelfEdgesCount | query/query.go:2028-2048 | n packages that import themselves make n cycles with n keys |
| CycleCount.ThousandLoopsFlagged | query/query.go:2018-2020 | with 1000 of them all are listed and the last is flagged |
| Worklist.EndlessIffRing | query/query.go:2773-2787 | on every closed graph, from the code's start, the queue never empties if and only if at some turn a set of packages, each imported within the set, is ready with one of them queued |
| Worklist.EmptiesOrRings | query/query.go:2773-2787 | within a bound computed from the graph, a run has emptied its queue or met such a ring |
| Worklist.RingNeverDrains | query/query.go:2773-2787 | a ready ring with a package queued is ready with a package queued after every later turn |
| Worklist.GroundedRingIsEndless | query/query.go:2773-2787 | a ring of packages that each also import something outside it, and outside it only what reaches no cycle, keeps the worklist going for ever from the code's start |
| Worklist.SelfImportIsEndless | query/query.go:2773-2787 | in particular a package that imports itself and otherwise only packages that reach no cycle, at least one |
| ProjectGraph.ResolveProjectTarget | query/query.go:2881-2898 | the package itself if it is one of the project, else any that ends in a slash and the path, else the last element if that is one, else none |
| ProjectGraph.BuildProjectGraph | query/query.go:2740-2761 | each project package has the resolved targets of its imports, in order, those without one left out |
| ProjectGraph.GraphIsClosed | query/query.go:2740-2761 | every edge leads from a project package to a project package |
| ProjectGraph.SelfTargetIff | query/query.go:2881-2898 | an import can be resolved to the importing package if and only if it is that package, or no project package and that package ends in a slash and it, or, where none does, is its last element |
| ProjectGraph.SuffixImportIsSelfEdge | query/query.go:2885-2890 | a package that imports a path outside the project, in which it alone ends, gets an edge to itself |
| ProjectGraph.SuffixImportIsEndless | query/query.go:2740-2795 | with another import, and all others reaching no cycle, the layering of the graph so built never ends |
| ProjectGraph.OwnNameImportIsEndless | query/query.go:2740-2795 | so it is for any module whose own package imports an outside one of its name and a leaf |
| ProjectGraph.ErrorsImportIsEndless | query/query.go:2740-2795 | m/errors that imports errors and m/leaf |
| Worklist.UnreadyCycleEnds | query/query.go:2773-2787 | a cycle that never becomes ready: one turn ends the run, with level 1 on the cycle |
| Layers.KahnLayers | query/query.go:2763-2795 | on every graph on which the worklist ends: the levels are those of the run from the packages without imports, 0 for the rest |
| Layers.AcyclicEnds | query/query.go:2773-2787 | on every acyclic graph the worklist ends, although it queues packages again |
| Layers.LevelsAreChains | query/query.go:2763-2795 | on every acyclic graph the result has exactly the project's packages, each with its longest chain of imports |
| Layers.LevelEquation | query/query.go:2773-2781 | the longest chain is 0 without imports and otherwise one more than the highest import |
| Layers.NoLongerChain | query/query.go:2773-2781 | no chain of imports from a package is longer than its level |
| Layers.ChainOfLevel | query/query.go:2773-2781 | some chain of imports from a package is as long as its level |
| Layers.BuildReverseGraph | query/query.go:2797-2805 | p is listed under d in the reverse exactly as often as d under p in the graph |
| Layers.DepsReady | query/query.go:2807-2814 | true exactly when every import has a level |
| Layers.RaiseLevels | query/query.go:2778-2782 | every dependent is raised to the candidate or stays higher, nothing else changes |
| Layers.StartLeaves | query/query.go:2766-2773 | exactly the packages without imports get level 0 and are queued, each once |
| Layers.EnqueueReady | query/query.go:2783-2787 | the ready dependents are appended to the queue, in order, as often as listed |
| Layers.FillMissing | query/query.go:2789-2793 | packages left over get 0, the others keep their level |
| Layers.FilledMeans | query/query.go:2789-2793 | packages left without a level get 0, the others keep theirs |
| Layers.StepKeeps | query/query.go:2773-2787 | on an acyclic graph one turn of the worklist keeps the loop's invariant |
| Layers.LevelsExact | query/query.go:2773-2787 | under the invariant, with the queue empty, every level is the longest chain |
| Layers.RingIsCyclic | query/query.go:2773-2787 | an acyclic graph has no set of packages each imported within the set |
| PageRank.IndexSymbols | query/query.go:4118-4126 | every symbol name has one index, and the index is a bijection |
| PageRank.BuildSymbolAdjacency | query/query.go:4117-4140 | j is among i's neighbours as often as stored edges lead from symbol i to symbol j, in order, other edges dropped; the out-degree counts them |
| PageRank.PageStep | query/query.go:4171-4190 | every entry is 0.15 spread evenly, 0.85 of the rank of nodes without out-edges spread evenly, and 0.85 of every other node's rank times its share of edges to the entry |
| PageRank.DanglingMass | query/query.go:4172-4177 | the first loop sums the rank of nodes without out-edges |
| PageRank.StepEquation | query/query.go:4171-4190 | the step on vectors that the proofs use is that equation |
| PageRank.PointedAtIsAbove | query/query.go:4184-4188 | from positive ranks a step puts a node that some edge leads to above one that none does |
| PageRank.RankResidual | query/query.go:4193-4205 | the residual bounds every entry's difference and is attained |
| PageRank.MovedTotal | query/query.go:4171-4190 | a step moves exactly the damped total: no rank is lost at nodes without out-edges |
| PageRank.StepKeepsDistribution | query/query.go:4171-4190 | a step keeps the total at 1 and every entry at least (1-0.85)/n |
| PageRank.StepContracts | query/query.go:4171-4190 | a step shrinks the L1 distance of any two vectors by the factor 0.85 |
| PageRank.StationaryIsNear | query/query.go:4146-4167 | a stationary vector is near any vector that a step hardly changes |
| PageRank.StepsShrink | query/query.go:4157-4165 | the k-th change is at most 2 * 0.85^k in L1 |
| PageRank.SettledBy90 | query/query.go:4157-4165 | the residual test holds at the 90th step at the latest |
| PageRank.Pagerank | query/query.go:4146-4167 | the loop leaves at the first step that passes the residual test, never by the cap of 100, with a distribution of at least 0.15/n each, in which a node that some edge leads to ranks above one that none does |
| PageRank.ResultSolvesEquation | query/query.go:4142-4145 | the result solves the PageRank equation in every entry up to 0.00000085 n |
| PageRank.OneEdge | query/query.go:4184-4188 | with the one edge 0 -> 1, 1 ranks above 0 |
| FindPath.EnqueueRows | query/query.go:1665-1669 | exactly the in-scope rows to unvisited targets are queued, in order |
| FindPath.EnqueueContracts | query/query.go:1671-1678 | exactly the confirmed in-scope contracts of the node are queued, in order |
| FindPath.ExpandPathNode | query/query.go:1660-1680 | the queue keeps its entries and gains exactly the one-step continuations of the node to unvisited ones |
| FindPath.FindPath | query/query.go:1601-1651 | unknown exactly when a symbol is; a path is found if and only if the names differ and a route within the cap, 10 by default, exists, and then it is a linked route of least length |
| FindPath.FindsMeans | query/query.go:1604-1617 | when a path is found, with the cap in numbers |
| FindPath.RouteMeans | query/query.go:1660-1690 | a route leaves its start, goes on where each step leads, and ends at the target |
| FindPath.StepMeans | query/query.go:1587-1594 | a step has the fields of a stored row from the normalised name, or of a confirmed contract from the name as written, of the repo asked for if any |
| FindPath.RouteReached | query/query.go:1626-1648 | while searching, every route within the cap ends at a node visited no later, or an entry no longer than it is queued |
| FindPath.VisitHead | query/query.go:1626-1648 | visiting the head keeps that, at the depth cap too |
| FindPath.HeadIsShortest | query/query.go:1634-1636 | the path of the first unvisited head is a shortest route to it |
| FindPath.RouteInScope | query/query.go:235-246 | the last repo filter drops no step of a route |
| FindPath.LeavesMeans | query/query.go:1660-1690 | a step out of a node is a stored row from its normalised name or a confirmed contract from it |
| QualifiedNames.NormalizeIsReplaceAll | store/store.go:105-110 | the test for a parenthesis changes no result |
| QualifiedNames.StoredIff | store/store.go:101-104 | a name is left as it is if and only if the pattern matches it nowhere |
| QualifiedNames.LeavesWrapperIff | store/store.go:96-110 | whether the pattern matches the normalised name again can be read off the name |
| QualifiedNames.IdempotentIff | store/store.go:101-110 | normalising twice is normalising once if and only if the pattern does not match again |
| QualifiedNames.OneReceiver | store/store.go:96-104 | one receiver in parentheses, with or without a star, is written out, and that is stored form |
| QualifiedNames.StarLeftOut | store/store.go:99 | a star before the receiver is left out, unless it stands alone |
| QualifiedNames.PointerReceiver | store/store.go:96-104 | p.(*T).M and p.(T).M are p.T.M |
| QualifiedNames.TwoReceivers | store/store.go:96-104 | of two receivers in a row the second is left by the first pass |
| QualifiedNames.TwoReceiversInARow | store/store.go:101-104 | p.(A).(B).M takes two passes |
| FindPath.AnswersForSymbolsMeant | query/query.go:1610-1617 | for any two names and in every index the answer is the one for the symbols meant if and only if both are in stored form, or their normalised forms show that neither question can have a path |
| FindPath.AnswersMeantOnce | query/query.go:1610-1617 | for names that a second normalisation leaves alone: both are in stored form, or the target is not and both name one symbol |
| FindPath.UnstoredTargetIsMissed | query/query.go:1634-1636 | a target in another form is never found |
| FindPath.TargetMissed | query/query.go:1634-1636 | for such a target an index with a direct row that is missed |
| FindPath.ContractMissed | query/query.go:1671-1678 | for a start in another form an index with a direct contract that is missed |
| FindPath.StartMissed | query/query.go:1610-1612 | for a start that takes two passes an index with a direct row that is missed |
| FindPath.LoopFound | query/query.go:1622-1636 | for a start in another form of the target a loop that is found, which no path is between equal names |
| FindPath.ParenthesisedTargetIsMissed | query/query.go:1634-1636 | for every method written with its receiver in parentheses, a direct edge to it that is missed |
| FindPath.ParenthesisedStartIsMissed | query/query.go:1671-1678 | for every such method, a direct contract from it that is missed |
| Traverse.EdgesForNodes | store/store.go:2166-2207 | the matching rows of each batch of 500 names, batch after batch |
| Traverse.BatchesAddUp | store/store.go:2166-2207 | where no two names normalise to one, that is each matching row exactly as often as it is stored |
| Traverse.RepeatedNames | store/store.go:2186-2206 | refs that all stand for one name give each of its rows once for every 500 of them begun |
| Traverse.FrontierNodes | query/query.go:308-318 | the unvisited names of the queue, each once; all become visited |
| Traverse.ExpandLevel | query/query.go:322-339 | exactly the rows of an allowed type, in order, and exactly their far ends not visited |
| Traverse.BallIsWalks | query/query.go:279-305 | the ball of radius n is what walks of at most n rows reach |
| Traverse.Traverse | query/query.go:279-305 | a row is returned if and only if it ends a chain of at most depth stored rows of an allowed type; level by level in non-decreasing distance, a row of level d ending a chain of d + 1 rows |
| Traverse.ReturnedEndChains | query/query.go:279-339 | for outgoing the first row of a chain is from the stored form of the start and each further one from where the last leads; for incoming the first leads to it and each further one to where the last is from |
| Traverse.FirstLevel | query/query.go:279-305 | with depth 1 exactly the allowed rows from the start, or to it |
| Traverse.FurtherLevels | query/query.go:330-337 | every further row goes on from a row that ends a shorter chain |
| Traverse.OneRowByDirection | store/store.go:2174-2177 | of one row a to b, outgoing from a and incoming to b give it, the other ways round nothing |
| Traverse.LevelDone | query/query.go:287-303 | one level keeps the search's invariant |
| Traverse.StoredStartReturnsEachOnce | query/query.go:279-305 | from a start in stored form each allowed row within reach comes as often as stored |
| Traverse.DuplicatesIffStartMetAgain | query/query.go:308-318 | rows repeat if and only if the start is written in another form and its stored form is met within the depth |
| Traverse.ParenthesisedStartRepeats | query/query.go:308-318 | for every method so written, a cycle of two rows of which one comes twice at depth 3 |
| ImportWalk.BuildImportAdjacency | store/store.go:2913-2922 | under each package exactly its import edges, in order |
| ImportWalk.ImportsFromHas | store/store.go:2913-2922 | those are the edges of type "imports" from it, as often as stored |
| ImportWalk.ImportsMeans | store/store.go:2930-2954 | p imports q when such an edge leads from p to q, or to a path that resolves to q |
| ImportWalk.ImportFrontierBFS | store/store.go:2930-2954 | the packages met are exactly those reachable, each once; the edges returned are determined by that order |
| ImportWalk.AllMet | store/store.go:2930-2954 | with every package expanded, what was met is what is reachable |
| ImportWalk.TransitiveImports | store/store.go:2956-2965 | every named import edge out of a reachable package, package by package, each package once |
| ImportWalk.TransitiveImportsMean | store/store.go:2956-2965 | so each import edge with a named target out of a reachable package comes as often as it is stored, and nothing else |
| ImportWalk.TransitiveImportBFS | query/query.go:1233-1252 | exactly one edge for each reachable project package but the start, sorted |
| ImportWalk.SortEdgesInOrder | query/query.go:1245-1250 | sorting by source and target gives an ordered list |
| ImportWalk.SortEdgesKeeps | query/query.go:1245-1250 | sorting keeps every edge |
| ImportWalk.EdgeOrder | query/query.go:1245-1250 | the order is by source first and by target among edges of one source |
| Window.MergeEvents | fuse/fuse.go:215-229 | all occurrences as events, refused exactly when some term never occurs |
| Window.Slide | fuse/fuse.go:230-250 | the two indices leave the least span of any full range of events |
| Window.FullCovers | fuse/fuse.go:206-209 | a full range of events is a covering range of lines |
| Window.CoversFull | fuse/fuse.go:206-209 | a covering range of lines contains a full range of events |
| Window.MinTermWindow | fuse/fuse.go:210-255 | the length of a covering range of lines that no other beats, 0 exactly when a term never occurs or that length is no smaller than MaxInt |
| Window.WindowOfTwo | fuse/fuse.go:206-255 | two terms with a line each: the lines from one to the other, 0 from 2^63-1 on |
| Window.ShortestExists | fuse/fuse.go:206-209 | when every term occurs there is a shortest covering range |
| Window.BestAlternativeWindow | fuse/fuse.go:196-204 | the least positive window over the alternatives, 0 if there is none |
| Window.NoWindow | fuse/fuse.go:215-229 | with a term that never occurs the window is 0 |
| Window.BestOfThree | fuse/fuse.go:196-204 | of alternatives without a window and with one the smaller positive counts |
| Levenshtein.EditDistance | fuse/fuse.go:342-367 | the two rows compute the distance |
| Levenshtein.NoShorterChain | fuse/fuse.go:340-341 | no chain of single insertions, deletions and substitutions is shorter than the distance |
| Levenshtein.ChainOfLev | fuse/fuse.go:340-341 | some such chain is as short as the distance |
| Levenshtein.EditOneMore | fuse/fuse.go:342-367 | one edit changes the distance to any text by at most one |
| Levenshtein.LevAtLeastLengthDiff | fuse/fuse.go:394-400 | the distance is never below the difference of lengths, so skipping on it is safe |
| Correction.CorrectTerm | fuse/fuse.go:309-338 | a term is replaced if and only if it is eligible and one entry alone is nearest, within the distance; then by that entry |
| Correction.Normalize | fuse/fuse.go:276-290 | the entries are the lowercase lexicon, each once |
| Correction.EmptyEntriesDropped | fuse/fuse.go:276-290 | empty entries do not count, near as they are |
| Correction.CorrectTerms | fuse/fuse.go:276-301 | every term gets that outcome, and the corrections listed are those applied, in order |
| Correction.NearestEntry | fuse/fuse.go:316-334 | being the one nearest entry does not depend on the order of the lexicon |
| Correction.ReplacementUnique | fuse/fuse.go:335-337 | a term has at most one replacement |
| Correction.FollowsRuleIff | fuse/fuse.go:303-338 | for an eligible term the outcome is the documented one if and only if it is not the case that one entry is strictly nearest while another is within the distance too |
| Correction.ReplacedAmongTwo | fuse/fuse.go:303-338 | a term replaced although two entries lie within the distance |
| Correction.EligibleMeans | fuse/fuse.go:305-316 | only words of at least three characters that are not in the lexicon are eligible |
| Correction.ShortTermsStay | fuse/fuse.go:314-316 | a term of two characters stays, one of three is corrected |
| Pattern.Matcher.Bind | pattern/pattern.go:488-494 | a name is bound once, later uses must be the same tree |
| Pattern.Matcher.MatchValue | pattern/pattern.go:335-355 | succeeds if and only if some substitution that agrees with the bindings makes the pattern an instance, and adds only what is forced |
| Pattern.Matcher.MatchFirst | pattern/pattern.go:372-393 | the same for the first n children, from left to right without backtracking |
| Pattern.Match | pattern/pattern.go:55-64 | matching is sound, complete and most general: the bindings are contained in every substitution that works |
| Pattern.MetavariableIs | pattern/pattern.go:293-299 | an identifier, or its call without arguments, with the placeholder's prefix is a metavariable by the name behind it |
| Pattern.MetavariableIff | pattern/pattern.go:415-435 | nothing else is a metavariable |
| Pattern.OtherNamesAreNone | pattern/pattern.go:293-299 | an identifier without the prefix is none |
| Pattern.TwoMatched | pattern/pattern.go:488-494 | two different metavariables side by side match any two nodes and are bound to one each; one used twice matches only equal nodes |
| Pattern.EllipsisMatchesRest | pattern/pattern.go:372-393 | an expression list that ends with the ellipsis matches any longer list whose first elements match |
| Pattern.ListMatchesPairwise | pattern/pattern.go:384-392 | any other list matches element by element only |
| Pattern.InstanceIsApply | pattern/pattern.go:335-410 | being an instance is being the tree that the substitution produces |
| Pattern.InstanceExtends | pattern/pattern.go:488-494 | more bindings never undo a match |
| Pattern.InstanceBindsNodes | pattern/pattern.go:357-363 | every metavariable stands for a node |
| Unresolved.HasUnresolvedType | resolve/resolve.go:315-317 | true if and only if an invalid basic type is reachable along inspected edges, on cyclic graphs too |
| Unresolved.ReachesByForm | resolve/resolve.go:320-406 | what that means for each form of type: which parts make it unresolved, and that nothing else does |
| Unresolved.Search.HasUnresolvedTypeSeen | resolve/resolve.go:320-346 | a visited type answers false without losing a reachable invalid type |
| Unresolved.Search.CompositeHasUnresolved | resolve/resolve.go:348-360 | the same for the parts of a composite type |
| Unresolved.Search.EmbeddedFieldUnresolved | resolve/resolve.go:365-372 | only embedded fields are looked into |
| Unresolved.Search.InterfaceUnresolved | resolve/resolve.go:374-386 | methods and embedded interfaces |
| Unresolved.Search.SignatureUnresolved | resolve/resolve.go:388-394 | parameters, results and receiver |
| Unresolved.Search.AnyVarUnresolved | resolve/resolve.go:396-406 | the variables of a tuple, from left to right |
| Unresolved.SettledSetIsClosed | resolve/resolve.go:320-346 | a settled set holds everything its members reach |
| Unresolved.SearchFromNothing | resolve/resolve.go:315-317 | from an empty visited set the answer is reachability |
| Like.EscapeLikeIsEscapeEach | store/store.go:1467-1472 | the three replacements in sequence escape each special character once |
| Like.EscapeFirstMatters | store/store.go:1461-1466 | in another order they would not |
| Like.PrefixPattern | store/store.go:2892 | an escaped text and % match exactly the texts that start with it, letter case aside |
| Like.ContainsPattern | store/store.go:1476-1478 | the pattern matches exactly the texts that contain the input, letter case aside |
| Like.LiteralIffNoLetters | store/store.go:1474-1484 | it is the literal text that is matched if and only if the input has no ASCII letter |
| Like.PrefixIsLiteralIffNoLetters | store/store.go:2892 | the prefix pattern matches the texts that literally start with the input if and only if it has no ASCII letter |
| Like.WildcardsMean | store/store.go:1461-1466 | % matches any text, _ any one character, a letter itself in either case |
| Like.EscapedMatch | store/store.go:1461-1466 | an escaped special character matches only itself |
| Like.EscapesMean | store/store.go:1467-1472 | exactly %, _ and the backslash are escaped, with a backslash |
| Braces.BraceDelta | contract/runtime.go:1042-1066 | the loop computes the count of the scanning function |
| Braces.SkipStringLiteral | contract/runtime.go:930-945 | just past the closing quote, escapes skipped except in raw strings |
| Braces.SkipLineComment | contract/runtime.go:857-862 | up to the newline |
| Braces.SkipBlockComment | contract/runtime.go:865-871 | past the first end mark |
| Braces.SkipIgnored | contract/runtime.go:901-925 | past blanks, comments and literals |
| Braces.DeltaCountsCode | contract/runtime.go:1040-1041 | on any line made of code, literals and comments the count is the net number of opening braces in the code |
| Braces.DeltaIsNetOfCode | contract/runtime.go:1040-1041 | that number is how many more { than } there are among the characters of the code |
| OwningSwitch.SubjectFound | contract/runtime.go:990-1006 | a line has a subject if and only if it starts, but for white space, with the letters of the keyword and then text, trimmed, before the first brace; the subject is that text |
| OwningSwitch.SpaceIs | contract/runtime.go:993-1001 | white space is what Unicode has as such |
| OwningSwitch.IndentedSubject | contract/runtime.go:990-1006 | tabs and blanks around the keyword and the subject are trimmed |
| OwningSwitch.KindsOfLine | contract/runtime.go:990-1006 | a line with a brace starts with the letters if and only if it has a subject or is tagless, never both; a tagless one starts with the keyword |
| OwningSwitch.OpenHaveBrace | contract/runtime.go:1025-1031 | every open line has a brace |
| OwningSwitch.StepBack | contract/runtime.go:1024-1031 | one step back of the scan is what is open on the forward stack below the closings met |
| OwningSwitch.TopmostFound | contract/runtime.go:1018-1021 | the topmost open line with a property, none exactly when no open line has it |
| OwningSwitch.ClosedBlocks | contract/runtime.go:1018-1031 | a switch that has been closed owns nothing, one around a closed block still does |
| OwningSwitch.OwningSwitchSubject | contract/runtime.go:1022-1038 | the backward scan answers with the subject of the topmost line of the forward stack that has one, and not at all if none has |
| OwningSwitch.OwnerIsMeantIff | contract/runtime.go:1018-1038 | it answers for the topmost open line that starts with the keyword as a word, not at all if that is tagless, if and only if the topmost open line with the letters is such a line and, if tagless, no open line has a subject |
| OwningSwitch.TaglessIsPassedOver | contract/runtime.go:1032-1035 | a clause of `switch {` inside a switch on x is given to x, for any plain x |
| OwningSwitch.LongerWordIsTaken | contract/runtime.go:992-1006 | a name that goes on from the letters, before a brace, is taken for a subject |
| OwningSwitch.SwitchboardIsTaken | contract/runtime.go:992-1006 | `switchboard := T{` has the subject `board := T` |
| Rename.SpliceIdentifiers | query/rename.go:509-520 | the loop applies the ranges in turn; for disjoint ranges in descending order it succeeds if and only if they lie inside the text, and then equals substitution at all of them at once |
| Rename.SortDescends | query/rename.go:326-328 | sorting the ranges of disjoint sites makes them descending and disjoint |
| Rename.SortKeeps | query/rename.go:326-328 | sorting keeps every range |
| Rename.SortedHold | query/rename.go:296-330 | sites that hold the name give ranges that splicing and the way back accept |
| Rename.RoundTrip | query/rename.go:504-520 | putting the old name back at the shifted ranges restores the text |
| Rename.ShiftedHoldsNewName | query/rename.go:504-520 | the shifted ranges hold the new name |
| Rename.RangeTwice | query/rename.go:509-520 | of a range listed twice the second pass replaces the first bytes of the new name and what follows, or fails past the end |
| Rename.CallListedTwice | query/rename.go:509-520 | a call of f listed twice and renamed to go becomes goo |
| Rename.DisjointIffDistinct | query/rename.go:326-328 | ranges of whole identifiers are disjoint if and only if no offset is listed twice |
| Rename.RepeatsHarmless | query/rename.go:509-520 | with a name of the old length a range listed again changes nothing |
| Rename.SplicesRightIff | query/rename.go:504-520 | splicing whole identifiers equals substitution at each offset once if and only if no offset is listed twice or the names have one length |
| RenameSites.CollectRenameSites | query/rename.go:216-249 | every recorded site once, in the order of first occurrence |
| RenameSites.RecordedHas | query/rename.go:227-246 | a site is recorded if and only if it is the declaration or a counting edge has it with a file |
| RenameSites.GroupByFile | query/rename.go:274-281 | every file with a site is listed once, with its sites in order |
| RenameSites.PlanFileRename | query/rename.go:309-330 | refused exactly when some site has no offset; otherwise the ranges of all sites, last one first, and the sites with a column where the name is declared locally |
| RenameSites.RenamedRightIff | query/rename.go:212-249 | a file is rewritten once at each offset if and only if no two different sites recorded for it stand at one offset, or the names have one length |
| RenameSites.ListedTwiceIffTwoPackages | query/rename.go:212-225 | where positions have different offsets that is one position recorded from two packages |
| RenameSites.TwoPackagesListTwice | query/rename.go:212-225 | two counting edges of different packages that record one position list it twice |
| JsonText.PiecewiseIffNoPair | chunk/chunk.go:332-338 | decoding escape by escape gives the text meant if and only if there is no surrogate pair; with one it is longer |
| JsonText.Utf8Encodes | chunk/chunk.go:332-338 | a character is written as section 3 of RFC 3629 has it, a surrogate as U+FFFD |
| JsonText.HexValueMeans | chunk/chunk.go:332-338 | four hexadecimal digits are read in base sixteen |
| JsonText.HexDigitsAre | chunk/chunk.go:332-338 | the digits 0 to 9 and a to f in either case, each worth its place |
| JsonText.EscapesMean | chunk/chunk.go:318-331 | the eight escapes of two characters and what they stand for |
| JsonScan.SkipJSONWS | chunk/chunk.go:288-298 | the loop stops at the first character that is not whitespace |
| JsonScan.ScanJSONString | chunk/chunk.go:302-348 | the loop decodes the string and stops after its quote, or fails, as its function says |
| JsonScan.ScanJSONDelimited | chunk/chunk.go:367-389 | the loop finds the bracket that closes the first one |
| JsonScan.ScanJSONScalar | chunk/chunk.go:393-406 | the loop stops at the first structural character |
| JsonScan.ScanJSONValue | chunk/chunk.go:409-423 | dispatch on the first character after whitespace |
| JsonScan.TopLevelJSONKeys | chunk/chunk.go:249-286 | the loop collects the names and offsets of its function, or fails |
| JsonKeys.StringRead | chunk/chunk.go:302-348 | every string of RFC 8259 is read to its end and decoded element by element |
| JsonKeys.ValueSkipped | chunk/chunk.go:367-389 | every value, however nested, leaves the depth as it was; a delimited one at depth 0 ends exactly where it is printed to end |
| JsonKeys.ValueRead | chunk/chunk.go:409-423 | scanning stops exactly at the end of a printed value |
| JsonKeys.ObjectKeys | chunk/chunk.go:249-286 | for every object text, with any whitespace and nesting and anything after it, the names in order with the offsets of their opening quotes |
| JsonKeys.EmptyObjectKeys | chunk/chunk.go:261-263 | an object without members gives an empty list, not a failure |
| JsonKeys.NameFoundIsMeant | chunk/chunk.go:246-248 | a name found is the name meant if and only if it has no surrogate pair |
| JsonKeys.FaceNameIsLost | chunk/chunk.go:332-338 | an object whose name is the surrogate pair of U+1F600: the key found is two replacement characters |
| JsonKeys.NameStands | chunk/chunk.go:215-220 | the text at each offset is the quoted name |
| JsonKeys.TopLevelKeysRise | chunk/chunk.go:249-286 | on any input the offsets rise and stand on quotes after the opening brace |
| Sections.ConcatAppend | chunk/chunk.go:25-30 | contents of appended lists of sections |
| Lines.SplitAfterText | chunk/chunk.go:86 | the lines joined are the text |
| Lines.SplitAfterLines | chunk/chunk.go:86 | every line but the last ends with its only newline |
| Lines.KeyLineIsMatch | chunk/chunk.go:32-36 | the longest runs find a TOON key exactly when the pattern matches |
| Lines.KeyLines | chunk/chunk.go:32-36 | plain keys, keys with a count and dotted ones are key lines |
| Lines.OtherLines | chunk/chunk.go:32-36 | indented ones, numbers, names without a colon or with an empty count are not |
| Lines.KeyCharsAre | chunk/chunk.go:32-36 | the character classes of the pattern |
| TextChunks.SplitTOONOrText | chunk/chunk.go:85-115 | the loop cuts exactly before the lines that open a section, and titles each part by its first line |
| TextChunks.OpensMeans | chunk/chunk.go:101-112 | a line opens a section when it is a key line, or not indented after a blank one, is not blank and not the first |
| TextChunks.SplitKeepsText | chunk/chunk.go:85-115 | the parts joined are the lines |
| TextChunks.SplitHasText | chunk/chunk.go:93-99 | no part is empty, so flushing never drops one |
| TextChunks.SplitUnique | chunk/chunk.go:101-113 | there is only one such split |
| FixedChunks.SplitFixed | chunk/chunk.go:152-186 | the pieces make up the text, none empty or above the limit, cut after a newline or after limit bytes without one, numbered, and no two neighbours fit together |
| FixedChunks.PartTitles | chunk/chunk.go:160-176 | the pieces are named part-0, part-1 and so on |
| FixedChunks.ItoaWrites | chunk/chunk.go:160-176 | numbers are written in decimal, without leading zeros |
| Folding.MergeSmall | chunk/chunk.go:191-213 | the passes over the array leave one pass's result in its front, and the second pass is the last |
| Folding.Pass | chunk/chunk.go:193-208 | one pass in place equals the fold, and reports whether anything was joined |
| Folding.OnePassSettles | chunk/chunk.go:191-213 | after one pass no small section fits with the next one |
| Folding.FirstRun | chunk/chunk.go:193-208 | the first section made joins as many of the first ones as it takes to reach 512 bytes or as fit, under the title of the last of them; the rest goes on likewise |
| Folding.SettledStays | chunk/chunk.go:209-211 | a pass over settled sections changes nothing |
| Folding.MergedKeepsText | chunk/chunk.go:199-202 | joining loses no text |
| Folding.MergedSized | chunk/chunk.go:197-198 | joining keeps sections non-empty and within the limit |
| Chunk.SplitJSON | chunk/chunk.go:226-244 | succeeds if and only if there are top-level names, and cuts at their offsets |
| Chunk.SplitAtKeysKeepsText | chunk/chunk.go:222-225 | the member sections make up the text, none is empty |
| Chunk.ObjectSections | chunk/chunk.go:222-225 | the sections of an object text are its members: as many, in order, titled with the names, each after the first starting at its quoted name |
| Chunk.ExceedsMax | chunk/chunk.go:66-73 | true exactly when some section is above the limit |
| Chunk.SplitStructural | chunk/chunk.go:75-80 | members of an object if there are any, otherwise key lines and paragraphs |
| Chunk.FixedStays | chunk/chunk.go:55-59 | fixed pieces are never folded |
| Chunk.RenderedSections | chunk/chunk.go:44-60 | for every text and limit the sections make up the text, none is empty or above max(limit-128, 512), none could still be folded; the structure is used exactly when all its parts fit |
| Chunk.FitsIff | chunk/chunk.go:38-54 | the bound max(limit-128, 512) is attained: every section of every text leaves room to the limit if and only if that bound does |
| Chunk.FitsInNumbers | chunk/chunk.go:51-54 | sections with room bytes more fit every limit if and only if 512 + room does for a limit below 640, and room is at most 128 from 640 on |
| Chunk.LettersAreOneSection | chunk/chunk.go:51-59 | a line of up to 512, or limit - 128, letters is one section, cut nowhere |
| Chunk.WithinLimitIff | chunk/chunk.go:38-50 | sections are no larger than the limit for every text if and only if it is at least 512, and fit it with their header if and only if it is at least 640 |
| TimeText.DigitsOrder | store/store_response_chunks.go:85-92 | zero-padded numbers sort as numbers |
| TimeText.DigitsWrite | store/store_response_chunks.go:85-92 | padded digits are read back as the number |
| TimeText.FractionWrites | store/store_response_chunks.go:62 | the printed fraction, filled up with zeros, is the nanoseconds, and does not end with 0 |
| TimeText.FormatIs | store/store_response_chunks.go:62 | a time without nanoseconds has no fraction, .12 of a second is .12 |
| TimeText.TextOrder | store/store_response_chunks.go:62 | the stored text order of times is the order in time if and only if the earlier printed fraction is not the start of the later one within a second |
| TimeText.TenthSortsAfterTwelveHundredths | store/store_response_chunks.go:62 | .1 sorts after .12 |
| ResponseStore.Store.SaveResponseChunks | store/store_response_chunks.go:53-80 | no sections is refused without change; otherwise all sections are added and then responses evicted until the stored text fits the cap or only the response saved is left |
| ResponseStore.Store.PruneResponseChunksToCap | store/store_response_chunks.go:97-120 | the loop removes exactly the rows of the evicted responses |
| ResponseStore.Store.ResponseSections | store/store_response_chunks.go:147-165 | an id is unknown exactly when it has no row; otherwise its rows, or the one asked for, in section order |
| ResponseStore.Store.PruneResponseChunks | store/store_response_chunks.go:212-217 | everything is deleted |
| ResponseStore.Store.CompleteIndexWrite | store/store.go:1069-1077 | an index write deletes the stored responses |
| ResponseStore.EvictedOldestFirst | store/store_response_chunks.go:94-120 | what is evicted is closed under age and never the response being saved, and then the bytes fit or only that response is left |
| ResponseStore.EvictedLeast | store/store_response_chunks.go:94-120 | no smaller oldest-first set would do: the eviction is the shortest prefix needed |
| ResponseStore.EvictedFits | store/store_response_chunks.go:94-120 | the same in bytes of text: what is evicted is the least set of oldest responses whose removal makes the remaining text fit |
| ResponseStore.RemainingRowsOf | store/store_response_chunks.go:19-22 | a response is evicted whole or kept whole |
| ResponseStore.SavedOthers | store/store_response_chunks.go:49-80 | a save leaves every other response as it is or takes all of it |
| ResponseStore.SavedOwn | store/store_response_chunks.go:49-80 | under an id without rows exactly the new response is stored |
| ResponseStore.SavedTable | store/store_response_chunks.go:49-80 | after a save the bytes fit or only the saved id is stored |
| ResponseStore.SavedAddsRows | store/store_response_chunks.go:49-80 | under any id a save keeps the rows the id has and adds its own behind them |
| ResponseStore.RunsKeepWhole | store/store_response_chunks.go:49-217 | over every run of saves, prunes and index writes the rows of every id are whole saves, those under it since it last had no rows, in order |
| ResponseStore.RunsAreBounded | store/store_response_chunks.go:49-217 | over every run all stored text together fits the cap, or one id is stored |
| ResponseStore.SecondSaveEvictsIff | store/store_response_chunks.go:97-120 | of two responses saved one after the other the first stays if and only if their texts together fit the cap |
| ResponseStore.JustSavedReads | store/store_response_chunks.go:49-52 | after any run that ends with a save, reading gives exactly what was saved if and only if its id had no rows |
| ResponseStore.ReadsBackIffFresh | store/store_response_chunks.go:49-52 | over any run every save can be read back if and only if none finds rows under its id |
| ResponseStore.OwnIdsFresh | store/store_response_chunks.go:82-84 | saves with ids of their own never find rows under them |
| ResponseStore.ReadBack | store/store_response_chunks.go:143-165 | reading a stored response gives its sections in order; an index gives that section or nothing |
| ResponseStore.StoredReadsIff | store/store_response_chunks.go:143-165 | over every run a stored id reads as what was last saved under it if and only if that is the only save since it had no rows |
| ResponseStore.StoredTextReads | store/store_response_chunks.go:143-165 | then the sections read back join to the text they were cut from |
| ResponseStore.IdsSortByTime | store/store_response_chunks.go:82-92 | ids sort by creation time whatever the hashes, so they do not collide at different times |
| ResponseStore.SameIdIff | store/store_response_chunks.go:82-92 | two ids are equal if and only if the nanoseconds and the hashes are |
| ResponseStore.IdIs | store/store_response_chunks.go:85-92 | an id is the nanoseconds in twenty digits between its prefix and the hash |
| ResponseStore.AgeIsTime | store/store_response_chunks.go:103-107 | the older row is the one made earlier if and only if the printed fractions allow it |
| ResponseStore.SameTimeByRowid | store/store_response_chunks.go:103-107 | rows of one creation time are older the earlier they were inserted |
| ResponseStore.NewerEvictedFirst | store/store_response_chunks.go:103-107 | a newer response that is evicted before an older one |

## Left out

- Layers.KahnLayers: a method must end, so it requires that the worklist does; when it does not is `Worklist.EndlessIffRing`. The map orders in which packages are visited are left open.
- PageRank.Pagerank: works over reals, so rounding of float64 is not modelled; requires at least one node, as its caller does.
- Window.MinTermWindow: spans are unbounded integers, so overflow of the subtraction of two line numbers is not modelled.
- Traverse.Traverse: requires that stored rows name their ends in the stored form, which indexing ensures; the order of rows within a batch is the table's, since SQL leaves it open.
- FindPath.FindPath: the order of edge rows is the table's, and name normalisation is a function parameter, used with the code's own in `FindPath.ParenthesisedTargetIsMissed`. For equal endpoints the answer is always no path, since the start is visited before any step; a loop through it is not searched for.
- ProjectGraph.BuildProjectGraph: the counts of imports and importers kept beside the graph are left out, and which of several matching packages the map order yields is left open.
- ImportWalk.TransitiveImportBFS: the resolver of import targets is a function parameter, so its choice among several matches by map order is not modelled.
- Pattern.Match: trees are position-free values and equality of printed nodes is equality of trees; parsing of patterns and comments in printed nodes are not modelled.
- Unresolved.HasUnresolvedType: types are given as a finite graph; go/types itself is not modelled.
- Correction.CorrectTerm: lowercasing and the letter-or-digit test are function parameters.
- Like.LiteralIffNoLetters: LIKE is modelled with its built-in ASCII folding and the backslash escape; other collations are not.
- Braces.DeltaCountsCode: literals and comments end on their line; how an unterminated one is skipped is in `Braces.BraceDelta`, but says nothing about code.
- OwningSwitch.OwningSwitchSubject: that the stack of lines is the nesting of the Go program is not claimed for lines that close and open blocks at once. The subject ends at the first brace of the line, also where that is inside a literal or a type; a switch that does not start its line is no switch line.
- Rename.SpliceIdentifiers: reading, parsing and writing files are not modelled; where a position stands is a function parameter of `RenameSites.PlanFileRename`, as is the test for bytes of identifiers in `Rename.SplicesRightIff`.
- TextChunks.SplitTOONOrText: the blank test and the section title (trimming, cutting at 80 bytes without splitting a rune) are function parameters.
- JsonKeys.ObjectKeys: says nothing about texts that are not JSON, some of which the scanner accepts (a missing or a trailing comma).
- ResponseStore.RunsKeepWhole: transactions that fail and roll back are not modelled.
- TimeText.TextOrder: years have four digits and times are UTC, so the text to the second has one width and sorts by time.
- SQL execution, FTS ranking, schema migration, git and go list subprocesses, the JSON-RPC loop and renderers are input and output.
- Searching stored sections by keyword, the manifest query and its counts: queries without an algorithm.
- Deleting stale files in batches and the size of read-back responses: no invariant of theirs is claimed by the code.
- Option handling, argument checks, usage counters and text templates would only add easy members.
