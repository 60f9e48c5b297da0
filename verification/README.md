# Verified models of the rust_tools algorithms

This project models the hand-written algorithms of the library and the
self-contained algorithms inside its tools, and proves what they compute. It has
no dependency but Dafny 4.11: `dafny verify dfyconfig.toml` checks everything.

The parts follow the source files:

- **Graphs** (`src/cw/graph.rs`). `Walks` and `WeightedWalks` define walks,
  reachability and weights. `Kosaraju`, `TopologicalOrder` and `BreadthFirst` hold the
  unweighted algorithms, `DirectedGraph` the container with its edge count.
  `WeightedDirectedGraph` proves Dijkstra, relaxation in topological order and
  Bellman-Ford against the weights of all walks, where negative cycles are in reach with
  `TowardTarget` for the targets that none of them leads to; `SpanningForests`, `UnionFind` and
  `Kruskal` prove the spanning forest against all spanning forests.
- **Skip list** (`src/cw/skip_list.rs`). `SkipMap` is the linked structure, with the
  number of levels of a new node chosen nondeterministically; `SortedEntries` is the
  plain sorted map it refines.
- **LRU cache** (`src/cw/lru_cache.rs`). `LruCache` is the index plus the doubly
  linked list; `RecencyList` is the recency list it refines, and the laws of its runs.
  `TimedRuns` says for runs with a time to live what lookups give, from the history alone.
- **Directory walk** (`src/terminalw/find.rs`). `DirectoryWalk` is a state machine whose
  steps are what one thread does under one lock; invariants hold over every
  interleaving.
- **Sorting** (`src/sortw/mod.rs`). `StableSorting` defines the stable sort and shows
  that "sorted and stable" determines it; `TimSort` and `RadixSort` sort arrays in place.
- **Strings** (`src/strw/search.rs`, `src/strw/split.rs`). `PatternSearch` is
  Knuth-Morris-Pratt; `TokenSplit` is the splitter over a reader. The splitter's own
  copy of the border table (`src/strw/split.rs:272-289`) is the same algorithm with two
  branches exchanged, so both use `PatternSearch.KmpNext`.
- **Decimal strings** (`src/strw/calc.rs`). `DecimalStrings` holds the schoolbook
  algorithms on digit strings, `DecimalArithmetic` the signed operations.
- **JSON difference** (`src/jsonw/diff.rs`). `JsonDiff`, with paths as lists of steps;
  `JsonEntries` says which entries there are and in what order, `SortedJson` is about sorted arrays, `JsonPaths` about paths as text.
- **Markdown to blocks** (`src/bin/mcp_feishu.rs`). `MarkdownParser` is the line parser.
  `MarkdownLines` recognises lines and tells what they say, which `MarkdownLaws` explains by
  putting the pieces together again. `MarkdownGrammar` says what it means that nodes are read
  from lines; `MarkdownReading` shows that the lines leave no choice, and `MarkdownUnreadable`
  where nothing can be read; `MarkdownUpsets` finds the lines to blame. `MarkdownBlocks` is
  the flattener and the injection of parents, `BlockTrees` the numbering of trees that the
  flattener is proved against, `BlockContents` what the blocks show of the document,
  `DocumentBatches` the sending in batches.

Where the code does not do what one would expect, the model keeps the code and says
exactly what happens:

- An LRU cache of capacity zero never evicts (`RecencyList.ZeroCapacityKeepsAll`);
  with a capacity of at least one it never holds too many entries.
- `modulo` yields the residue between zero and the divisor's magnitude exactly if the
  dividend is not `-0` and the divisor is positive, the dividend is not negative or nothing
  remains; for the dividend `-0` it yields the divisor (`DecimalArithmetic.Modulo`,
  `DecimalArithmetic.ModuloIsResidue`).
- Sum and difference are canonical except that two negative zeros add up to `-0`, and a
  negative zero minus a zero is `-0` (`DecimalArithmetic.Plus2`, `DecimalArithmetic.Minus2`).
- With sorted arrays, the entries of a JSON difference replay on the old value for every new
  value with arranged arrays if and only if the arrays of the old value are arranged, too
  (`SortedJson.SortedEntriesReplay`). For every other old value there is a new one that differs
  from it although no entry says so (`SortedJson.SortedEntriesDoNotReplay`).
- As dotted text, no two entries of one difference get the same key where all member names
  are non-empty and free of dots (`JsonPaths.PlainKeysTellApart`). A name `x.y` beside a name
  `x` that holds a name `y`, and an empty name beside others, give two entries the same key
  (`JsonPaths.RenderedPathsCollide`, `JsonPaths.EmptyKeysCollide`). Of the sets of names
  that contain the parts of their dotted names, exactly those of non-empty names without dots
  rule such entries out (`JsonPaths.TextsTellApartIffPlain`).
- The shortest path does not heed the flag for negative cycles: the path is a shortest one
  whenever there is one, that is, unless a negative cycle lies on the way to the target
  (`WeightedDirectedGraphs.WeightedDirectedGraph.ShortestPath`).
- The Markdown parser can fail: looking for a table it takes the text between the first and
  the last bar of a line, also of one that is a single bar. It fails if and only if no nodes
  can be read from the lines. Then a lone bar stands below a line with a bar or above a table
  separator, at some depth of quoting; in a text without fences, quotes and list items, behind
  which lines can be passed over, it fails if and only if one does
  (`MarkdownParser.ParseMarkdownAst`). It always terminates.
- A search for the empty pattern finds it once, at the start of a text that is not empty;
  the empty text contains nothing (`PatternSearch.KmpSearchBytes`, `PatternSearch.Contains`).

## Model

| member | source | states |
|---|---|---|
| DirectedGraphs.DirectedGraph.AddNode | src/cw/graph.rs:82-90 | a new node has no edges; an old one keeps its edges |
| DirectedGraphs.DirectedGraph.AddEdge | src/cw/graph.rs:109-117 | adds exactly that edge and its nodes, and the edge count stays the number of edges |
| DirectedGraphs.DirectedGraph.DeleteEdge | src/cw/graph.rs:119-127 | removes exactly that edge, and says whether it was there |
| DirectedGraphs.DirectedGraph.DeleteNode | src/cw/graph.rs:92-107 | removes the node with all edges at it; the count, which loops count into once, stays the number of edges |
| DirectedGraphs.DirectedGraph.Reverse | src/cw/graph.rs:229-240 | a fresh graph with the same nodes and every edge turned round |
| DirectedGraphs.DirectedGraph.StrongComponents | src/cw/graph.rs:250-273 | the components partition the nodes, and each is a class of mutual reachability |
| Kosaraju.DfsFinishOrder | src/cw/graph.rs:376-389 | the search on the reversed graph keeps the finish-order invariant and leaves the stack as it was |
| Kosaraju.DfsCollectComponent | src/cw/graph.rs:391-404 | collects, without repetition, newly visited nodes that the start reaches, and leaves the visited nodes closed under edges |
| Kosaraju.CollectedIsComponent | src/cw/graph.rs:261-272 | what is collected from the last unvisited node of the finish order is exactly its class of mutual reachability |
| Kosaraju.Components | src/cw/graph.rs:250-273 | both passes together partition the nodes into classes of mutual reachability |
| Kosaraju.SameComponent | src/cw/graph.rs:242-248 | two nodes lie in the same component if and only if each reaches the other |
| DirectedGraphs.DirectedGraph.ComponentIdMap | src/cw/graph.rs:406-414 | every node has a number, and equal numbers mean mutual reachability, both ways |
| DirectedGraphs.DirectedGraph.StronglyConnected | src/cw/graph.rs:242-248 | true if and only if each node reaches the other |
| TopologicalOrder.Sorted | src/cw/graph.rs:189-227 | an order is returned if and only if the graph has no closed walk; it is a permutation of the nodes with every edge pointing forward |
| TopologicalOrder.NothingLeft | src/cw/graph.rs:222-226 | when the queue is empty, all nodes are placed if and only if the graph is acyclic |
| TopologicalOrder.CycleWithoutSource | src/cw/graph.rs:189-227 | nodes that all have a predecessor among themselves hold a cycle |
| TopologicalOrder.FindCycleFrom | src/cw/graph.rs:327-359 | the depth-first search returns a closed walk along real edges or keeps its stack and marks |
| TopologicalOrder.DetectCycle | src/cw/graph.rs:326-374 | none if and only if the graph is acyclic; a returned cycle is a closed walk along real edges |
| DirectedGraphs.DirectedGraph.Sorted | src/cw/graph.rs:189-227 | some order exactly when there is no closed walk, hence exactly when no cycle is found |
| DirectedGraphs.DirectedGraph.Cycle | src/cw/graph.rs:185-187 | none exactly when there is no closed walk |
| DirectedGraphs.DirectedGraph.BfsPrev | src/cw/graph.rs:279-301 | visits exactly what the start reaches, builds a tree of real edges, and no walk to a node has fewer edges than its depth |
| BreadthFirst.SearchIsComplete | src/cw/graph.rs:279-301 | a finished search has visited exactly the reachable nodes, at the least depth over all walks |
| DirectedGraphs.DirectedGraph.Path | src/cw/graph.rs:166-179 | a path exists if and only if the target is reachable; it repeats no node and no walk is shorter |
| DirectedGraphs.DirectedGraph.ReconstructNodePath | src/cw/graph.rs:303-324 | walking back through the search tree ends at the start within the step limit |
| DirectedGraphs.DirectedGraph.Reachable | src/cw/graph.rs:155-164 | true if and only if there is a walk |
| WeightedDirectedGraphs.WeightedDirectedGraph.AddEdge | src/cw/graph.rs:694-700 | stores the weight of a new edge; an existing edge keeps its weight |
| WeightedDirectedGraphs.WeightedDirectedGraph.DeleteEdge | src/cw/graph.rs:702-713 | forgets the weight of exactly that edge |
| WeightedDirectedGraphs.WeightedDirectedGraph.Edges | src/cw/graph.rs:715-723 | lists every edge with its weight and nothing else |
| WeightedDirectedGraphs.WeightedDirectedGraph.Relax | src/cw/graph.rs:886-891 | lowers one distance when that improves it and sets its predecessor; every recorded distance stays the weight of a walk, and without a negative cycle the predecessors stay a tree |
| WeightedWalks.RelaxKeepsState | src/cw/graph.rs:886-891 | relaxing keeps recorded distances realized by walks and not below the predecessor's distance plus the edge |
| WeightedWalks.RelaxKeepsTree | src/cw/graph.rs:886-891 | unless a negative cycle is reachable, relaxing in place never closes a loop of predecessors |
| WeightedWalks.AllRelaxedHasNoNegativeCycle | src/cw/graph.rs:898-907 | when no edge improves anything there is no negative cycle within reach |
| WeightedWalks.Shorten | src/cw/graph.rs:877-896 | without a reachable negative cycle every walk has one no heavier that visits no more nodes than there are |
| WeightedDirectedGraphs.WeightedDirectedGraph.RelaxRound | src/cw/graph.rs:878-892 | one in-place round relaxes every edge at least as far as from the distances before it, and changes nothing when it reports no change; for any target that no negative cycle leads to the predecessors on the way to it stay a tree |
| WeightedDirectedGraphs.RoundExtendsBound | src/cw/graph.rs:877-896 | a round extends the bound from walks of `k` edges to walks of one edge more |
| WeightedDirectedGraphs.RoundsSuffice | src/cw/graph.rs:877-896 | after one round fewer than there are nodes everything is relaxed, unless a negative cycle is reachable |
| WeightedDirectedGraphs.WeightedDirectedGraph.BellmanFord | src/cw/graph.rs:870-910 | the flag is set if and only if a negative cycle is reachable; otherwise the predecessors are a tree and nothing can be relaxed, also when a round stops early; the same holds, whatever the flag, among the nodes that lead to a target if no reachable negative cycle does |
| WeightedDirectedGraphs.ClosestIsFinal | src/cw/graph.rs:800-822 | with non-negative weights the distance of the closest open node is at most the weight of any walk to it |
| WeightedDirectedGraphs.WeightedDirectedGraph.SelectClosest | src/cw/graph.rs:800-812 | an open node of least distance, or none when no node is open |
| WeightedDirectedGraphs.WeightedDirectedGraph.Dijkstra | src/cw/graph.rs:791-839 | the target's distance is at most the weight of every walk to it, also with the early exit |
| WeightedDirectedGraphs.WeightedDirectedGraph.RelaxNeighbours | src/cw/graph.rs:826-835 | relaxing all edges of a node adds it to the relaxed nodes and leaves their distances alone |
| WeightedDirectedGraphs.WeightedDirectedGraph.RelaxInOrder | src/cw/graph.rs:846-865 | one sweep in topological order leaves every edge relaxed |
| WeightedDirectedGraphs.WeightedDirectedGraph.AcyclicShortest | src/cw/graph.rs:841-868 | the target's distance is at most the weight of every walk to it, in both branches |
| WeightedDirectedGraphs.TreeWalkIsShortest | src/cw/graph.rs:870-910 | a walk no heavier than the recorded distance is lightest once everything is relaxed |
| TowardTarget.RelaxKeepsTreeToward | src/cw/graph.rs:886-891 | unless a reachable negative cycle leads to the target, relaxing in place never closes a loop of predecessors among the nodes that lead to the target, whatever happens elsewhere |
| WeightedDirectedGraphs.RoundsSufficeToward | src/cw/graph.rs:877-896 | then one round fewer than there are nodes relaxes everything among the nodes that lead to the target |
| WeightedDirectedGraphs.WalkTowardIsShortest | src/cw/graph.rs:737-754 | then a walk no heavier than the target's recorded distance is lightest over all walks |
| TowardTarget.NegativeCycleUndercuts | src/cw/graph.rs:737-754 | with a negative cycle on the way to the target no walk is lightest, so the condition is exact |
| WeightedDirectedGraphs.WeightedDirectedGraph.ReconstructPath | src/cw/graph.rs:760-789 | nothing, or the edges of a real walk; where predecessors lead back to the start a walk no heavier than the recorded distance |
| WeightedDirectedGraphs.WeightedDirectedGraph.ShortestPath | src/cw/graph.rs:737-754 | the edges of a walk of minimum weight over all walks, whichever algorithm is chosen, whenever there is one: also with the flag set, unless a negative cycle lies on the way to the target; the flag is exact when the target is reachable |
| UnionFind.SimpleUf.Ensure | src/cw/graph.rs:1242-1247 | an unknown node becomes a class of its own |
| UnionFind.SimpleUf.Find | src/cw/graph.rs:1249-1281 | returns the representative; path compression changes no class |
| UnionFind.SimpleUf.Union | src/cw/graph.rs:1283-1302 | unites the two classes if and only if they differ, and nothing else |
| UnionFind.SimpleUf.LogarithmicDepth | src/cw/graph.rs:1283-1302 | after any mix of operations two to the depth of a node is at most the size of its class, and sizes are exact |
| SpanningForests.MergeRepresents | src/cw/graph.rs:1016-1039 | merging the classes of an edge's ends represents connectedness with that edge added |
| SpanningForests.ForestIsNoLarger | src/cw/graph.rs:1016-1039 | a forest has no more edges than any edge set that connects its ends |
| SpanningForests.FewComponentsMakeForest | src/cw/graph.rs:1016-1039 | edges that each reduced the number of classes by one form a forest |
| SpanningForests.GreedyIsLightest | src/cw/graph.rs:1016-1039 | any prefix of the greedy choice weighs no more than any forest of as many edges |
| SpanningForests.GreedyIsMinimal | src/cw/graph.rs:1016-1039 | the greedy spanning forest weighs no more than every other spanning forest |
| WeightedUndirectedGraphs.PickIsGreedy | src/cw/graph.rs:1029-1036 | picking the next edge of the sorted list that joins two classes keeps the choice greedy |
| WeightedUndirectedGraphs.PickEdges | src/cw/graph.rs:1026-1036 | the loop keeps the picked edges a greedy forest that connects what the seen edges connect, until the end or enough edges |
| WeightedUndirectedGraphs.WeightedUndirectedGraph.AddEdge | src/cw/graph.rs:963-971 | stores or overwrites the weight in both directions |
| WeightedUndirectedGraphs.WeightedUndirectedGraph.Edges | src/cw/graph.rs:1004-1014 | every undirected edge exactly once |
| WeightedUndirectedGraphs.WeightedUndirectedGraph.Mst | src/cw/graph.rs:1016-1039 | an acyclic set of the graph's edges that connects exactly the connected pairs and weighs no more than any spanning forest |
| SkipMaps.SkipMap.constructor | src/cw/skip_list.rs:116-131 | an empty map on at least one level |
| SkipMaps.SkipMap.WalkLevel | src/cw/skip_list.rs:462-481 | a level is walked to its last node with a smaller key; an equal key is remembered |
| SkipMaps.SkipMap.Find | src/cw/skip_list.rs:462-481 | the last node with a smaller key on every level, and the node with the key if there is one |
| SkipMaps.SkipMap.GetRef | src/cw/skip_list.rs:164-170 | what the plain sorted map returns |
| SkipMaps.SkipMap.Insert | src/cw/skip_list.rs:133-162 | the entries become those of the plain map, for every choice of levels |
| SkipMaps.SkipMap.InsertEntry | src/cw/skip_list.rs:878-905 | the same, and the node returned holds the value under an equal key |
| SkipMaps.SplicedIsLinked | src/cw/skip_list.rs:148-159 | after splicing on the chosen levels every level again links its nodes in the order of the level below |
| SkipMaps.UnsplicedIsLinked | src/cw/skip_list.rs:258-265 | after bypassing a node every level links the remaining nodes |
| SkipMaps.SkipMap.Take | src/cw/skip_list.rs:252-273 | returns and removes what the plain map does |
| SkipMaps.SkipMap.Range | src/cw/skip_list.rs:196-222 | the entries whose keys lie in the half-open range, in order |
| SkipMaps.SkipMap.Iter | src/cw/skip_list.rs:446-452 | all entries in key order |
| SkipMaps.SkipMap.Clear | src/cw/skip_list.rs:236-245 | an empty valid list |
| SortedEntries.PutThenGet | src/cw/skip_list.rs:133-170 | after an insertion a lookup finds the new value for equal keys and the old result for all others |
| SortedEntries.WithoutThenGet | src/cw/skip_list.rs:252-273 | after a removal a lookup finds nothing for equal keys and the old result for all others |
| LruCaches.LruCache.MoveNodeToFront | src/cw/lru_cache.rs:221-240 | the node is first, the others keep their order, forward and backward links agree |
| LruCaches.LruCache.AddToFront | src/cw/lru_cache.rs:242-253 | the new node is first in a list whose links agree in both directions |
| LruCaches.LruCache.RemoveTailNode | src/cw/lru_cache.rs:255-272 | removes the last node, if any, in both directions |
| LruCaches.LruCache.DetachNode | src/cw/lru_cache.rs:274-289 | removes the node from both directions |
| LruCaches.LruCache.RemoveNode | src/cw/lru_cache.rs:291-301 | list, index and length lose exactly that entry |
| LruCaches.LruCache.PurgeExpired | src/cw/lru_cache.rs:303-335 | exactly the expired entries go, in one walk from the tail; those kept are the ones whose instant is none or still to come (`TimedRuns.KeptIsStillToCome`) |
| LruCaches.LruCache.SetTtlMs | src/cw/lru_cache.rs:75-80 | sets the time to live and purges unless it is negative |
| LruCaches.LruCache.Put | src/cw/lru_cache.rs:85-123 | the entries become those of the recency list, after a purge when a time to live is set: one step of the runs that the laws of `TimedRuns` and `RecencyList` are about |
| LruCaches.LruCache.Get | src/cw/lru_cache.rs:124-153 | the value and the entries are those of the recency list: a hit moves to the front, an expired entry goes; one step of the same runs |
| LruCaches.LruCache.Len | src/cw/lru_cache.rs:155-176 | the number of entries that have not expired, which is the number of keys that a lookup would find (`TimedRuns.CountsAnswers`) |
| LruCaches.LruCache.ContainsKey | src/cw/lru_cache.rs:186-194 | true exactly when a lookup would return a value |
| LruCaches.LruCache.Clear | src/cw/lru_cache.rs:196-201 | no entries, valid list |
| RecencyList.HoldsMostRecent | src/cw/lru_cache.rs:85-153 | after any run without a time to live the cached keys are the most recently touched distinct keys, up to the capacity, in order of recency |
| RecencyList.HoldsLatestValues | src/cw/lru_cache.rs:85-153 | after any run a cached value is the one last put under its key |
| RecencyList.ZeroCapacityKeepsAll | src/cw/lru_cache.rs:112-122 | with capacity zero nothing is ever evicted |
| TimedRuns.AnswersAreInTime | src/cw/lru_cache.rs:85-218 | after any run of timed puts and gets, a value that a lookup gives was the last one put under its key, at an instant from which the time to live has not run out, or runs out beyond the horizon |
| TimedRuns.LiveIsAnswered | src/cw/lru_cache.rs:85-218 | conversely, if instants do not decrease, such a value is given as long as fewer other keys than the capacity have been touched since the key was |
| TimedRuns.KeptIsStillToCome | src/cw/lru_cache.rs:216-218 | the entries a purge keeps are those without an instant or with one later than now |
| TimedRuns.CountsAnswers | src/cw/lru_cache.rs:155-176 | the length is the number of keys whose lookup gives a value |
| DirectoryWalk.StepKeepsInv | src/terminalw/find.rs:54-228 | every step of every interleaving keeps: permits of each semaphore equal its holders and are within capacity, sleepers imply that permits and pending wake-ups fill it, the wait group counts the unfinished walks |
| DirectoryWalk.ChangeThreadsKeepsInv | src/terminalw/find.rs:84-90 | replacing the semaphore object keeps the invariant for the old and the new one |
| DirectoryWalk.NoMoreThanAsked | src/terminalw/find.rs:84-90 | the new semaphore admits as many walks as asked for, but at least one; over every run without another change the walks begun since take it, and never more of them hold it |
| DirectoryWalk.Progress | src/terminalw/find.rs:54-210 | until the main thread has returned some thread can step: no wake-up is lost |
| DirectoryWalk.StepUsesUp | src/terminalw/find.rs:144-210 | every step of the program uses up a measure that only a spurious wake-up can restore, by one |
| DirectoryWalk.StepKeepsAccount | src/terminalw/find.rs:156-210 | for every path the times it has been opened plus the times it still will be stay constant until the print limit stops the walk |
| DirectoryWalk.RunFacts | src/terminalw/find.rs:54-228 | invariant, account and measure over whole runs |
| DirectoryWalk.ReturnedMeansFinished | src/terminalw/find.rs:109-124 | when `wait` has returned every walk ever spawned is finished and every permit is back |
| DirectoryWalk.MaximalRun | src/terminalw/find.rs:54-228 | a run that cannot go on has returned, with all walks finished, and has opened no path more often than it occurs within the level limit; unless stopped early each exactly as often |
| DirectoryWalk.RunIsBounded | src/terminalw/find.rs:54-228 | the program takes a bounded number of steps, plus one for each spurious wake-up |
| StableSorting.StableSortCharacterised | src/sortw/mod.rs:247-284 | a sequence is sorted with equal elements in their old order if and only if it is the stable sort |
| StableSorting.StableSortMultiset | src/sortw/mod.rs:247-284 | the stable sort is a permutation |
| StableSorting.MergeSorts | src/sortw/mod.rs:379-415 | merging the stable sorts of two halves is the stable sort of the whole |
| TimSort.CalcMinRun | src/sortw/mod.rs:286-293 | the length itself when it is short, otherwise between 32 and 64 and the least run length of which a power of two runs cover the slice |
| TimSort.InsertionSortRange | src/sortw/mod.rs:363-377 | the slice becomes its stable sort, the rest is untouched |
| TimSort.MergeRange | src/sortw/mod.rs:379-415 | two adjacent slices become their merge, the rest is untouched |
| TimSort.SortRuns | src/sortw/mod.rs:263-268 | every aligned run becomes sorted, the last one may be short |
| TimSort.MergePass | src/sortw/mod.rs:270-283 | sorted aligned runs become sorted aligned runs of double length, with and without a neighbour at the end |
| TimSort.TimSortBy | src/sortw/mod.rs:247-284 | for every length and every total preorder the array becomes its stable sort |
| RadixSorts.MinorThenMajor | src/sortw/mod.rs:181-187 | sorting stably by a minor and then by a major key is the stable sort by both |
| RadixSorts.OnePassMore | src/sortw/mod.rs:181-187 | one more pass takes the order by the value modulo a power of ten to the next power |
| RadixSorts.BucketsAreStableSort | src/sortw/mod.rs:431-452 | the buckets of a digit laid end to end are the stable sort by that digit |
| RadixSorts.CountingSortByDigit | src/sortw/mod.rs:431-452 | the counting pass is the stable sort by the digit |
| RadixSorts.DigitPasses | src/sortw/mod.rs:180-187 | after `k` passes the order is that of the values modulo ten to the `k`; the overflow stop comes after all 19 digits |
| RadixSorts.AllDigitsUsed | src/sortw/mod.rs:180-187 | once the modulus exceeds every value the order is that of the values |
| RadixSorts.SortedOrderIsUnique | src/sortw/mod.rs:170-173 | for integers the sorted order is unique, so the unstable library sort leaves it too |
| RadixSorts.RadixSort | src/sortw/mod.rs:165-188 | any slice becomes its stable sort by value |
| PatternSearch.KmpNext | src/strw/search.rs:112-129 | for every prefix the length of its longest proper border |
| PatternSearch.Retreat | src/strw/search.rs:42-47 | falling back to the longest border skips no occurrence |
| PatternSearch.OccurrencesAreAll | src/strw/search.rs:25-54 | the list of occurrences is ascending and contains exactly the places where the pattern starts |
| PatternSearch.KmpSearchBytes | src/strw/search.rs:25-54 | all occurrences, overlapping ones too, or the first `n`, in at most two steps per byte of the text |
| PatternSearch.Contains | src/strw/search.rs:5-13 | true if and only if the text is not empty and the pattern occurs |
| TokenSplits.TokenSplit.Accept | src/strw/split.rs:241-250 | after each byte the state is the longest prefix of the token that ends the buffer |
| TokenSplits.TokenSplit.Next | src/strw/split.rs:213-265 | each call returns the first piece of the specification's split of what is left, or nothing at its end |
| TokenSplits.SplitByToken | src/strw/split.rs:268-270 | the pieces depend on the bytes delivered and on whether they end in an error, not on how reads cut them |
| TokenSplits.KeptPiecesConcatenate | src/strw/split.rs:213-265 | with the tokens kept the pieces of an input that ends well make up the input |
| TokenSplits.KeptPieceEndsWithToken | src/strw/split.rs:251-263 | every kept piece but a last one ends with the token and has it nowhere before: cuts are leftmost |
| TokenSplits.ModesAgree | src/strw/split.rs:251-263 | without the tokens the pieces are those of the other mode, stripped, with the empty ones dropped |
| TokenSplits.PiecesAreFree | src/strw/split.rs:251-263 | without the tokens no piece is empty or contains the token |
| DecimalStrings.RemoveLeadingZero | src/strw/calc.rs:128-138 | the canonical numeral of the same value; a zero before a point stays |
| DecimalStrings.AddIntegerStrings | src/strw/calc.rs:186-222 | the canonical numeral of the exact sum |
| DecimalStrings.SubIntegerStrings | src/strw/calc.rs:224-258 | the canonical numeral of the exact difference, when it is not negative |
| DecimalStrings.MultiplyColumn | src/strw/calc.rs:365-371 | with at most 47721858 digits in the shorter operand no 32-bit column overflows |
| DecimalStrings.CarryColumn | src/strw/calc.rs:373-378 | nor does a column plus its carry, and carrying keeps the value |
| DecimalStrings.NoFinalCarry | src/strw/calc.rs:379-382 | nothing is left to carry past the last column |
| DecimalStrings.MulIntegerStrings | src/strw/calc.rs:360-394 | the canonical numeral of the exact product |
| DecimalArithmetic.LessByValue | src/strw/calc.rs:346-349 | among digit strings of equal length the string order is the order of values |
| DecimalArithmetic.Plus2 | src/strw/calc.rs:260-301 | the canonical string of the exact sum of integers of any sign, and exactly when it is `-0` instead |
| DecimalArithmetic.Minus2 | src/strw/calc.rs:303-358 | the canonical string of the exact difference, and exactly when it is `-0` instead |
| DecimalArithmetic.Mul2 | src/strw/calc.rs:396-429 | the canonical string of the exact product |
| DecimalArithmetic.DoDiv | src/strw/calc.rs:431-454 | the bisection finds the quotient's digit and leaves the remainder |
| DecimalArithmetic.LongDivision | src/strw/calc.rs:512-535 | digit by digit the digits of the integer quotient |
| DecimalArithmetic.Div2 | src/strw/calc.rs:483-560 | with no decimals kept, the canonical string of the quotient truncated toward zero |
| DecimalArithmetic.Modulo | src/strw/calc.rs:108-117 | the rest of the truncating division, moved up by the divisor when negative; for the dividend `-0` the divisor |
| DecimalArithmetic.ModulusIsResidue | src/strw/calc.rs:108-117 | for a positive divisor the mathematical residue; when it lies between zero and the divisor's magnitude otherwise |
| DecimalArithmetic.ModuloIsResidue | src/strw/calc.rs:108-117 | the string that comes out is a residue if and only if the dividend is not `-0` and the divisor is positive, the dividend not negative or nothing remains |
| JsonDiffs.DiffJson | src/jsonw/diff.rs:6-10 | the entries of the specification, at the root |
| JsonDiffs.CollectDiffEntries | src/jsonw/diff.rs:12-86 | appends the entries of the specification below the path |
| JsonDiffs.EmptyIffSame | src/jsonw/diff.rs:12-86 | no entry if and only if the values are equal up to null members and trailing array nulls, with arrays sorted or not |
| JsonDiffs.ReplayReachesNew | src/jsonw/diff.rs:12-86 | storing the new values at the paths of the entries turns the old value into the new one, up to nulls |
| JsonDiffs.DiffSwaps | src/jsonw/diff.rs:12-86 | exchanging the values exchanges old and new in every entry and nothing else |
| JsonDiffs.ReplayReturnsToOld | src/jsonw/diff.rs:12-86 | replaying the exchanged entries on the new value leads back to the old one |
| JsonDiffs.EntriesRecord | src/jsonw/diff.rs:12-86 | each entry holds what stands at its path in both values, and the two differ |
| JsonEntries.EntriesAreClashes | src/jsonw/diff.rs:12-86 | an entry is there if and only if at its path, above which both values hold objects or both hold arrays, they differ and are not two objects or two arrays; it holds what stands there on both sides, in both modes |
| JsonEntries.EntriesAscend | src/jsonw/diff.rs:24-74 | the entries come in the order of their paths, members by name and items by position, and no path has two |
| JsonEntries.BeforeIsLexicographic | src/jsonw/diff.rs:25-27 | member names are ordered by the first character in which they differ, a prefix first |
| SortedJson.ArrangedDiff | src/jsonw/diff.rs:48-74 | between values whose arrays are all arranged, sorting changes no entry |
| SortedJson.SortedEntriesReplay | src/jsonw/diff.rs:48-74 | with sorted arrays the entries lead from the old value to every arranged new one if and only if every array of the old value is arranged |
| SortedJson.SortedEntriesDoNotReplay | src/jsonw/diff.rs:48-74 | an old value that is not arranged differs from its arranged form without any entry |
| SortedJson.OrderDoesNotCount | src/jsonw/diff.rs:48-54 | with sorted arrays an array of strings, numbers and truth values has no entry against any reordering of it, as long as different items are not spelled alike |
| JsonPaths.PlainKeysTellApart | src/jsonw/diff.rs:24-62 | where no member name is empty or holds a dot, the entries of a difference have pairwise different keys |
| JsonPaths.RenderedPathsCollide | src/jsonw/diff.rs:30-34 | for all non-empty `x` and all `y`, one difference reports the names `x.y` and `y` in `x` under the same key |
| JsonPaths.EmptyKeysCollide | src/jsonw/diff.rs:30-34 | for all non-empty `y`, one difference reports the names `y` and `y` in the empty name under the same key |
| JsonPaths.TextsTellApartIffPlain | src/jsonw/diff.rs:30-34 | among the sets of names closed under taking dotted names apart, with a non-empty one, exactly those of non-empty names without dots keep the keys of every difference apart |
| MarkdownParser.ParseMarkdownAst | src/bin/mcp_feishu.rs:3611-3624 | terminates on every text; each node covers a span of lines with only blank lines between the spans, and holds what those lines say, at every depth; by `MarkdownReading.TreeIsUnique` that is one tree; it fails if and only if the lines cannot be read, which takes a lone bar below a line with a bar or above a separator |
| MarkdownParser.ParseCtx.ParseNextNode | src/bin/mcp_feishu.rs:3631-3669 | a node read from the span that the first line which is not blank starts, whenever there is one; the position strictly advances; it fails if and only if no node can be read there |
| MarkdownParser.ParseCtx.ParseCodeBlock | src/bin/mcp_feishu.rs:3675-3705 | language and text are those of the lines up to the next fence, which is used up, or to the end |
| MarkdownParser.ParseCtx.ParseTable | src/bin/mcp_feishu.rs:3718-3738 | the rows of all lines up to the first that is blank or has no bar, without the separators; it fails if and only if one of those lines is a lone bar |
| MarkdownParser.ParseCtx.ParseParagraph | src/bin/mcp_feishu.rs:3997-4026 | the trimmed lines up to the first that is blank or starts something else, a table included, joined by blanks; it fails if and only if no such paragraph can be read |
| MarkdownParser.ParseCtx.ParseBlockQuote | src/bin/mcp_feishu.rs:3740-3776 | the quote takes exactly the quote lines and the blank ones between them; the children are the nodes of what those lines say, which is shorter, so nesting ends |
| MarkdownLines.MarkerOfPrefix | src/bin/mcp_feishu.rs:3778-3781 | a list marker seen on the trimmed line is seen again on the line trimmed at the start only: the list parser's `expect` never fires |
| MarkdownParser.ParseCtx.ParseList | src/bin/mcp_feishu.rs:3778-3859 | a list of its first marker's kind: the first line and the later markers at the base indent are its items, each with what is nested between it and the next one, up to where the list must end |
| MarkdownParser.ParseCtx.ParseSubList | src/bin/mcp_feishu.rs:3884-3953 | the same for a list inside an item, at the indent of its first line |
| MarkdownParser.ParseCtx.ParseNestedContent | src/bin/mcp_feishu.rs:3861-3995 | the nodes read, one after the other, from all lines up to one that is indented less |
| MarkdownParser.ParseCtx.ParseNestedParagraph | src/bin/mcp_feishu.rs:3964-3989 | the first line trimmed at its start and the following ones trimmed, joined by blanks, up to one that is blank, indented less or starts something else |
| MarkdownReading.TreeIsUnique | src/bin/mcp_feishu.rs:3611-3669 | at most one sequence of nodes can be read from the lines of a text |
| MarkdownReading.OneRowOfItems | src/bin/mcp_feishu.rs:3778-3859 | the lines leave no choice as to the items of a list, what is nested in each, and where the list ends |
| MarkdownReading.OneNested | src/bin/mcp_feishu.rs:3861-3995 | nor as to the nodes nested in an item |
| MarkdownUnreadable.NodeStopsAll | src/bin/mcp_feishu.rs:3611-3624 | where the nodes read so far end before a line that starts no readable node, no other nodes can be read from the text either |
| MarkdownUnreadable.StretchStopsList | src/bin/mcp_feishu.rs:3847-3850 | a list cannot be read if what is nested behind its items so far cannot |
| MarkdownLaws.LinesSpell | src/bin/mcp_feishu.rs:3611-3612 | the lines are what stands between the line feeds, without a return at their ends, and without an empty one at the very end |
| MarkdownLaws.Trimmed | src/bin/mcp_feishu.rs:3632-3642 | trimming takes whitespace from both ends, and all of it |
| MarkdownLaws.IndentSpells | src/bin/mcp_feishu.rs:3510-3512 | the indent is all the blanks in front of a line |
| MarkdownLaws.CellsJoin | src/bin/mcp_feishu.rs:3531-3543 | joining the cells with bars gives back the text, and no cell holds a bar |
| MarkdownLaws.RowSpells | src/bin/mcp_feishu.rs:3531-3543 | a row is what stands between the bars of a line, trimmed, one bar at each end aside |
| MarkdownLaws.SeparatorSpells | src/bin/mcp_feishu.rs:3514-3529 | a line is a separator if and only if it holds, between bars at its ends, cells of dashes, colons and blanks that start and end with a dash |
| MarkdownLaws.RowsSpell | src/bin/mcp_feishu.rs:3718-3738 | one row for each line that is no separator, in order |
| MarkdownLaws.MarkerSpells | src/bin/mcp_feishu.rs:3545-3609 | a marker and a rest are recognised if and only if they spell the line; a to-do item is done exactly behind `- [x] `, and an ordered one has digits, a point and any whitespace in front |
| MarkdownLaws.HeadingSpells | src/bin/mcp_feishu.rs:3563-3583 | a line is a heading of a level if and only if it is as many hashes, a blank and the text |
| MarkdownLaws.QuoteSpells | src/bin/mcp_feishu.rs:3758-3768 | a quoted line is a mark, a blank if there is one, and what it says |
| MarkdownLaws.LanguageSpells | src/bin/mcp_feishu.rs:3676-3678 | a code block has a language if and only if something stands behind its fence, and it is that |
| MarkdownLaws.CodeLineSpells | src/bin/mcp_feishu.rs:3691-3696 | a line of code loses as many blanks as its block is indented by, or all whitespace in front when it has fewer |
| MarkdownLaws.CodeJoins | src/bin/mcp_feishu.rs:3681-3699 | the code is its lines joined by line feeds, the empty ones at its start aside |
| MarkdownLaws.ParagraphJoins | src/bin/mcp_feishu.rs:3997-4021 | the text of a paragraph is its trimmed lines joined by blanks |
| MarkdownLaws.NestedJoins | src/bin/mcp_feishu.rs:3965-3986 | the same inside an item, where the end of the first line is not trimmed |
| MarkdownLaws.LastItemTakesAll | src/bin/mcp_feishu.rs:3847-3850 | what is nested goes behind the last item's children and changes nothing else |
| MarkdownLines.LinesOfJoin | src/bin/mcp_feishu.rs:3772-3773 | splitting the joined lines of a quote gives back those lines, except for an empty one at the end |
| MarkdownBlocks.NodeToDescendants | src/bin/mcp_feishu.rs:4187-4289 | root ids, blocks and counter are those of the preorder numbering of the node's block trees |
| MarkdownBlocks.ItemToDescendants | src/bin/mcp_feishu.rs:4291-4318 | the same for a list item |
| MarkdownBlocks.TableDescendants | src/bin/mcp_feishu.rs:4381-4447 | the same for a table: a block, its cells row by row, and a text in each |
| MarkdownBlocks.NodeToBlockOps | src/bin/mcp_feishu.rs:4058-4146 | one operation per top-level tree, with ids only where a block has children |
| MarkdownBlocks.ItemToBlockOps | src/bin/mcp_feishu.rs:4148-4185 | the same for a top-level list item |
| MarkdownBlocks.ConvertToBlocks | src/bin/mcp_feishu.rs:4449-4457 | the operations of the whole document, numbered through from one, about which `BlockContents.DocumentIsShown` and `BlockContents.DocumentIsSaid` speak |
| MarkdownBlocks.DocumentIdsConsecutive | src/bin/mcp_feishu.rs:4449-4457 | the ids in a document are exactly the values the counter took, in order |
| BlockContents.DocumentIsShown | src/bin/mcp_feishu.rs:4034-4457 | the operations show the nodes of the document in order: block type, key, text or code, done mark and columns of each, and below it, following the children ids, all that is in it |
| BlockContents.TreesShow | src/bin/mcp_feishu.rs:4187-4318 | the same for the blocks of any node at any depth |
| BlockContents.TableShown | src/bin/mcp_feishu.rs:4381-4447 | a table block has as many columns as its longest row, rows times columns cells, and in row `i` and column `j` the text of that cell, or an empty one behind the end of the row |
| BlockContents.DocumentIsSaid | src/bin/mcp_feishu.rs:4034-4457 | the texts of all blocks in order are the texts of the syntax tree in reading order, empty ones aside |
| BlockTrees.ConsecutiveIds | src/bin/mcp_feishu.rs:4028-4032 | the blocks of numbered trees have consecutive ids in order |
| BlockTrees.EachIdLinkedOnce | src/bin/mcp_feishu.rs:4187-4318 | every id is the id of exactly one root or exactly one child |
| BlockTrees.ParentsComeFirst | src/bin/mcp_feishu.rs:4187-4318 | a block comes after its parent |
| BlockTrees.OneParent | src/bin/mcp_feishu.rs:4855-4873 | a block is a root or has exactly one parent, which comes before it and lists it once |
| BlockTrees.LayRepresents | src/bin/mcp_feishu.rs:4187-4318 | following the children ids from the roots spells out the trees |
| BlockTrees.FlatteningIsInjective | src/bin/mcp_feishu.rs:4187-4318 | different trees never flatten to the same blocks |
| MarkdownBlocks.InjectParents | src/bin/mcp_feishu.rs:4855-4888 | for any blocks: a root gets the document, any other block the last block that lists it, or the empty default |
| MarkdownBlocks.EveryBlockFindsItsParent | src/bin/mcp_feishu.rs:4855-4888 | in what the flatteners emit every block gets its true parent and never the empty default |
| DocumentBatches.WriteDocument | src/bin/mcp_feishu.rs:4571-4682 | the batches carry all trees of the document in order, each batch at the place where the ones before it end, at most fifty trees and of one kind, closed early only when the kind changes; every block sent has its parent in its own batch or is one of its roots; all texts of the document are sent, in reading order |
| DocumentBatches.DocumentIsSent | src/bin/mcp_feishu.rs:4571-4682 | batches that carry all trees carry all texts of the document, in reading order, empty ones aside |
| DocumentBatches.BlockFindsParent | src/bin/mcp_feishu.rs:4855-4888 | in a batch of trees laid out one after the other a block is a root or the parent injected comes before it and lists it |

## Left out

- Undirected graphs without weights, and the shortest paths of the weighted undirected graph: they repeat the directed algorithms with both directions stored. Groups, degrees and the edge deletion of the undirected graphs add only easy members.
- Floating-point weights: they are real numbers here, infinity is the absence of a distance, and the order of equal weights is any total preorder. NaN and rounding are not modelled.
- The order in which hash containers are iterated: it is an arbitrary choice in every loop.
- Depth-first recursion passes its state in and out as values instead of through mutable references; the maps and queues of a single search are local variables of its method.
- The skip list's random generator: the number of levels is an arbitrary choice below the maximum. Its cursors, entry interface, serialisation, sets and destructor are not modelled.
- The LRU cache's clock: the current instant is a parameter, and the latest instant that can be represented is a constant of the cache. Reference counts and locks of the nodes are not modelled.
- Directory walk: files, filters and callbacks are left out; a directory is the tree of the sub-directories that its entries lead into, and one that cannot be read has none. Thread panics, poisoned locks and links that make the tree infinite are not modelled.
- Sorting by counting, heap, shell and library sorts, top-k and the 128-bit conversions. The library's unstable sort of integers is modelled by its result.
- Strings: conversion of bytes to text. Splitting by an empty token is excluded, since it stops with an out-of-range index at the first byte. The other splitters and trimming helpers are not modelled.
- Decimal strings: decimals, the regular expressions that normalise signs, and quotients with decimals kept.
- JSON: numbers are compared by their text. Paths are lists of steps; `Render` is the text they are joined to.
- Markdown: inline markup is kept as the text it is read from, and code languages as their names instead of their numbers. Ids are the numbers behind the `blk_` prefix.
- Network, authorisation, token storage, remote calls and command-line handling of the tools, and `crates/aios_kernel`, whose implementation is not part of this model.
