# gobs core in Dafny

gobs is a command-line tool that runs git and shell commands across many projects listed in a configuration file. Steps can be ordered by a dependency graph. This project models the parts of gobs that decide things and leaves out the parts that only move bytes:

- **Graph library** (`graphing.dfy`, `traversal.dfy`, `graph.dfy`, `sorting.dfy`). An `Edge` is a value holding its two endpoint vertices, a `Directed` flag and a `Weight`. A `Vertex` is a class whose `Edges` list is changed in place; every edge is stored in both endpoints' lists. A `Graph` is a class holding a map from ID to vertex. Depth-first search is specified on values (module `Traversal`): a three-colour search over an adjacency map, with post-order, cycle detection and topological order proved there. The `Graph` methods walk the vertices and are proved to produce what the value-level search produces. Leaves, roots, pruned fragments and the serialise/deserialise round trip are also modelled.
- **Step executor** (`executor.dfy`, `sequential.dfy`, `scheduler.dfy`, `parallel.dfy`). `CompileSteps`/`CompileGraph` turn step descriptors into a directed graph and an order. `ExecAll` runs the order one step at a time. The readiness/skip/drain rule of `_directedExec` is a deterministic state machine that processes "task finished" events. Task outcomes are an input, and so is the order in which events arrive. `ParallelExecAll` decides between the directed run and the sequential fallback.
- **Configuration** (`configuration.dfy`). Project inclusion by name and group, the `Load` accumulation of projects, names, paths and groups, `GetDiGraph` step validation and `Template` target selection.
- **git command builders and output parsers** (`gitcommands.dfy`, `gitoutput.dfy`). The option strings for fetch, pull, tag, push and clone, with their error cases. The `git status`, `show-ref` and `branch` parsers, `filterGitOutput` and `FindLatestTag`.
- **git handler decisions** (`git.dfy`). Project selection, remote defaulting, the `done` completion counter, `run` command collection and execution, and the clone/sync flag derivation.
- **UUIDs** (`uuid.dfy`). The lazily filled `byteToHex` table, `bytesToUUID`, and the version and variant masking of RFC 4122 (sections 4.1.1 and 4.1.3).

`wrappers.dfy` holds `Option`/`Result` and `text.dfy` holds the string helpers that the parsers share. Exceptions and promise rejections are `Result` failures carrying the source's message. Arguments whose JavaScript type decides a branch (a string or an array, say) are small datatypes such as `Configuration.Arg`, `Executor.Refs` and `Git.Entry`.

## Model

| member | source | states |
|---|---|---|
| Graphing.Edge.GetOppositeVertexFrom | Lib/Graphing/Edge.js:45-53 | for an edge touching v, the result and v are the two endpoints; for an edge not touching v, the result is From |
| Graphing.SerializeNewEdge | Lib/Graphing/Edge.js:55-63 | an edge built from a record between vertices carrying its endpoint IDs exists and serialises back to that same record |
| Graphing.NewEdge | Lib/Graphing/Edge.js:5-23 | construction succeeds exactly when both endpoints are given; Directed defaults to false and Weight to 1 |
| Graphing.OutdegreeOf | Lib/Graphing/Vertex.js:170-187 | the out-degree never exceeds the number of edges |
| Graphing.IndegreeOf | Lib/Graphing/Vertex.js:151-168 | the in-degree never exceeds the number of edges |
| Graphing.AdjacentOfMembers | Lib/Graphing/Vertex.js:21-38 | w is adjacent iff some edge leads from v to w (an undirected edge, or a directed edge leaving v); there are as many adjacents as the out-degree |
| Graphing.PrecedentOfMembers | Lib/Graphing/Vertex.js:40-57 | w is a precedent iff some edge comes to v from w; there are as many precedents as the in-degree |
| Graphing.DirectedEdgeSeenFromBothEnds | Lib/Graphing/Vertex.js:59-73 | a directed edge stored at both ends makes To adjacent to From and From a precedent of To |
| Graphing.WithoutRemovesExactly | Lib/Graphing/Vertex.js:116-127 | removing an edge drops every structurally equal copy and keeps every other edge with its multiplicity |
| Graphing.WithoutMembers | Lib/Graphing/Vertex.js:116-127 | after removal an edge is present iff it was present and is not the removed one |
| Graphing.WithoutIdempotent | Lib/Graphing/Vertex.js:116-127 | removing the same edge twice is removing it once |
| Graphing.NotTouching | Lib/Graphing/Vertex.js:129-139 | the kept edges are exactly the edges that do not touch w, and there are no more of them than before |
| Graphing.NotTouchingIdempotent | Lib/Graphing/Vertex.js:129-139 | removing the edges touching w twice is removing them once |
| Graphing.ShrinksMember | Lib/Graphing/Vertex.js:116-139 | the `_.remove` predicate removes something from a list exactly when some edge of the list meets its criterion |
| Graphing.ShrinksEqualTo | Lib/Graphing/Vertex.js:116-127 | removing by equality removes something exactly when the target is in the list |
| Graphing.RestFacts | Lib/Graphing/Vertex.js:116-139 | the edges kept all miss the criterion and come from the list; nothing is removed when no edge meets it, and the list gets shorter when one does |
| Graphing.RestIdempotent | Lib/Graphing/Vertex.js:116-139 | removing by the same criterion a second time removes nothing more |
| Graphing.RestAppend | Lib/Graphing/Vertex.js:116-139 | removal by a criterion distributes over concatenation of edge lists |
| Graphing.WithoutIsRest | Lib/Graphing/Vertex.js:116-127 | dropping the copies of an edge is the `_.remove` removal by equality with it |
| Graphing.NotTouchingIsRest | Lib/Graphing/Vertex.js:129-139 | dropping the edges touching w is the `_.remove` removal by touching w |
| Graphing.PositionsFacts | Lib/Graphing/Vertex.js:116-139 | the indexes `_.remove` collects are ascending and each names a matching edge |
| Graphing.PositionsUpToWhole | Lib/Graphing/Vertex.js:116-139 | the indexes collected over the first n steps are the positions in the first n edges |
| Graphing.PullAtAppend | Lib/Graphing/Vertex.js:116-139 | splicing out ascending indexes that all fall inside a list leaves an edge appended after them in place |
| Graphing.PullPositions | Lib/Graphing/Vertex.js:116-139 | splicing out the collected indexes from the unchanged list leaves exactly the edges that miss the criterion, in order |
| Graphing.SelfLoopMono | Lib/Graphing/Vertex.js:116-139 | a self-loop among the first m edges is among the first n for every n at least m |
| Graphing.SelfLoopWitness | Lib/Graphing/Vertex.js:116-139 | a self-loop among the first n edges is an edge at an index below n whose far end is the vertex itself |
| Graphing.SelfLoopTouches | Lib/Graphing/Vertex.js:129-139 | a self-loop touches its vertex, so recursing into it removes something from the list |
| Graphing.SeenStep | Lib/Graphing/Vertex.js:116-139 | the far ends met over the first i edges, plus that of edge i, are those of the first i + 1 edges |
| Graphing.Vertex.Sweep | Lib/Graphing/Vertex.js:116-139 | one step of the predicate on the whole list: the far end applies the recursive removal, the index is collected when the edge matches, and the list has shrunk exactly when the far end was this vertex and removed something |
| Graphing.Vertex.RunOff | Lib/Graphing/Vertex.js:116-139 | once the list has shrunk, the walk over the shorter list leaves it as it is until an index falls past its end |
| Graphing.Vertex.Walk | Lib/Graphing/Vertex.js:116-139 | the walk stops at the end of the list or right after the first self-loop that shrinks it, having collected the matching indexes so far and applied the removal at every far end met |
| Graphing.Vertex.WalkWhole | Lib/Graphing/Vertex.js:116-139 | the same walk over the list as it stands; reaching the end means every other far end has had the removal applied |
| Graphing.Vertex.RemoveRecursing | Lib/Graphing/Vertex.js:116-139 | `_.remove` with the recursing predicate: throws exactly when the recursion shrinks this list and a self-loop comes before the last edge; otherwise the collected indexes are spliced out of the list as it then stands and every other far end has lost its matching edges |
| Graphing.Vertex.RemoveEdgeOverSnapshot | Lib/Graphing/Vertex.js:116-127 | corrected: never throws, and this vertex and every far end of an old edge lose exactly their copies of the target |
| Graphing.Vertex.StripEnds | Lib/Graphing/Vertex.js:116-127 | the loop of the corrected removal: every far end met has lost its copies of the target and every other vertex is untouched |
| Graphing.Vertex.StripEnd | Lib/Graphing/Vertex.js:116-127 | one far end loses its copies of the target |
| Graphing.Vertex.constructor | Lib/Graphing/Vertex.js:8-19 | a missing ID becomes the generated one and missing edges become an empty list |
| Graphing.Vertex.GetAdjacent | Lib/Graphing/Vertex.js:21-38 | the loop returns the adjacency list of the edge list, in list order |
| Graphing.Vertex.GetPrecedent | Lib/Graphing/Vertex.js:40-57 | the loop returns the precedent list of the edge list, in list order |
| Graphing.Vertex.AddEdgeTo | Lib/Graphing/Vertex.js:59-73 | the one new edge (From this and To w unless overridden) is appended to both endpoints' lists and nothing else changes; a self-loop lands twice in one list |
| Graphing.FirstTouching | Lib/Graphing/Vertex.js:75-91 | no result iff no edge of the list touches w; otherwise an edge of the list that touches w |
| Graphing.Vertex.GetEdgeBetween | Lib/Graphing/Vertex.js:75-91 | no result iff no stored edge touches w; otherwise the first stored edge, in list order, that touches w |
| Graphing.Vertex.HasEdgeBetween | Lib/Graphing/Vertex.js:93-96 | true iff some stored edge touches w |
| Graphing.Vertex.HasEdge | Lib/Graphing/Vertex.js:98-114 | true iff a structurally equal edge is stored |
| Graphing.Vertex.RemoveEdgeHere | Lib/Graphing/Vertex.js:116-127 | with recursion switched off, only this list loses the edge |
| Graphing.Vertex.RemoveEdge | Lib/Graphing/Vertex.js:116-127 | as written: throws exactly when the target is stored here and a self-loop comes before the last edge, leaving this list without the target; otherwise the collected positions of the target are spliced out of the list, which a last-place self-loop has already stripped of the target, and with no self-loop that is exactly the list without the target; when it does not throw, every other far end of an old edge loses exactly its copies of the target |
| Graphing.Vertex.RemoveEdgesBetweenHere | Lib/Graphing/Vertex.js:129-139 | with recursion switched off, only this list loses the edges touching w |
| Graphing.Vertex.RemoveEdgesBetween | Lib/Graphing/Vertex.js:129-139 | as written: throws exactly when a self-loop comes before the last edge, leaving this list without the edges touching this vertex; otherwise the collected positions of the edges touching w are spliced out of the list, which a last-place self-loop has already stripped of the edges touching this vertex, and with no self-loop that is exactly the list without the edges touching w; when it does not throw, every other far end of an old edge, w or not, loses its edges touching this vertex |
| Graphing.Vertex.RemoveEdgesBetweenBothSides | Lib/Graphing/Vertex.js:129-139 | corrected: only this vertex and w lose the edges between them |
| Graphing.Vertex.Sort | Lib/Graphing/Vertex.js:146-149 | the new list is the old one stably sorted by the sort identifier |
| Graphing.Vertex.Indegree | Lib/Graphing/Vertex.js:151-168 | the counting loop returns the in-degree, at most the number of edges |
| Graphing.Vertex.Outdegree | Lib/Graphing/Vertex.js:170-187 | the counting loop returns the out-degree, at most the number of edges |
| Graphing.RemoveEdgesBetweenStripsBystander | Lib/Graphing/Vertex.js:129-139 | with a joined to b and c, a.RemoveEdgesBetween(b) empties c's list while a keeps its edge to c |
| Graphing.RemoveEdgesBetweenSparesBystander | Lib/Graphing/Vertex.js:129-139 | in the same graph the corrected removal leaves the a–c edge at both ends |
| Graphing.SelfLoopRemoveEdgeThrows | Lib/Graphing/Vertex.js:116-127 | a vertex holding a self-loop twice and then an edge e to t: removing e throws |
| Graphing.SelfLoopRemoveEdgeOverSnapshot | Lib/Graphing/Vertex.js:116-127 | in the same graph the corrected removal leaves v its self-loop twice and t no edge |
| Traversal.Visit | Lib/Graphing/Graph.js:185-224 | a completed visit only adds marks and appends to the list (never unmarks); a cycle is reported only when cycles are not allowed |
| Traversal.VisitAdjacent | Lib/Graphing/Graph.js:201-222 | the loop over the adjacents only extends the search state, and reports a cycle only when cycles are not allowed |
| Traversal.VisitSources | Lib/Graphing/Graph.js:227-256 | visiting the sources in order only extends the search state |
| Traversal.Search | Lib/Graphing/Graph.js:149-259 | with IncludeSources false the search completes with an empty list; a cycle is reported only when cycles are not allowed |
| Traversal.VisitSourcesCycleNeedsFlag | Lib/Graphing/Graph.js:185-199 | the search over all sources throws "Cycle exists" only when AllowCycle is false |
| Traversal.Reverse | Lib/Graphing/Graph.js:284-289 | the reversed list has the same length and element i is element n-1-i of the original |
| Traversal.GreyVertexClosesCycle | Lib/Graphing/Graph.js:185-191 | reaching a vertex still marked visiting (directed mode) means the graph has a cycle |
| Traversal.EnterKeepsInvariant | Lib/Graphing/Graph.js:201-207 | marking a vertex visited and visiting keeps the search invariant (the visiting vertices form the current path) |
| Traversal.LeaveKeepsInvariant | Lib/Graphing/Graph.js:220-223 | unmarking and appending a finished vertex keeps the invariant; every listed vertex comes after all its adjacents |
| Traversal.VisitKeepsInvariant | Lib/Graphing/Graph.js:185-224 | a completed visit keeps the invariant and finishes the visited vertex |
| Traversal.VisitAdjacentKeepsInvariant | Lib/Graphing/Graph.js:208-219 | a completed loop over the adjacents keeps the invariant and leaves every adjacent finished |
| Traversal.VisitSourcesKeepsInvariant | Lib/Graphing/Graph.js:227-256 | a completed search keeps the invariant and every source is listed |
| Traversal.PathDescends | Lib/Graphing/Graph.js:201-224 | in a post-order list, the end of every path comes before its start |
| Traversal.PostOrderedMeansAcyclic | Lib/Graphing/Graph.js:201-224 | a graph whose vertices can be listed after all their adjacents has no cycle |
| Traversal.ReversedPostOrderIsTopological | Lib/Graphing/Graph.js:284-289 | reversing such a list puts every vertex before its adjacents |
| Traversal.SearchListsEachVertexOnceAfterItsAdjacents | Lib/Graphing/Graph.js:159-162 | a directed search from every vertex of an acyclic graph, or one that allows cycles, completes and lists every vertex exactly once, after all its adjacents |
| Traversal.SearchThrowsIffCycle | Lib/Graphing/Graph.js:261-282 | a directed search from every vertex with AllowCycle false throws exactly when the graph has a cycle |
| Traversal.ReversedSearchIsTopologicalOrder | Lib/Graphing/Graph.js:284-289 | on an acyclic directed graph the reversed search lists every vertex once, each before its adjacents |
| Sorting.Insert | Lib/Graphing/Vertex.js:146-149 | inserting one element adds exactly that element to the multiset of the list |
| Sorting.InsertSorted | Lib/Graphing/Vertex.js:146-149 | inserting into a sorted list keeps it sorted by the key |
| Sorting.SortByCorrect | Lib/Graphing/Vertex.js:146-149 | the sorted list is ordered by the key and is a permutation of the input |
| Sorting.SortedStringsUnique | Lib/Graphing/Graph.js:429 | two sorted lists of strings with the same elements are equal |
| Sorting.SortedEqualIffSameElements | Lib/Graphing/Graph.js:429 | sorting two lists of strings gives the same list iff they hold the same elements with the same multiplicity |
| Graphs.Remove | Lib/Graphing/Graph.js:27-37 | the key order after deleting a key holds every other key, and stays duplicate-free |
| Graphs.WithDirection | Lib/Graphing/Graph.js:136-145 | every edge keeps its place and its ends, and its direction flag becomes the given one |
| Graphs.SearchOverIncluding | Lib/Graphing/Graph.js:149-259 | when the sources are visited and topological sorting is meaningful, the search outcome is the loop over the sources: its list, or "Cycle exists" with the vertex and parent |
| Graphs.DanglingMembers | Lib/Graphing/Graph.js:347-375 | an edge is collected from a vertex iff it is one of its edges and its far end is not a vertex of the graph |
| Graphs.DanglingInMembers | Lib/Graphing/Graph.js:347-375 | an edge is collected iff some vertex holds it and its far end, seen from that vertex, is not a vertex of the graph |
| Graphs.WithoutAllMembers | Lib/Graphing/Graph.js:364-377 | after removing each doomed edge an edge is present iff it was present and was not doomed |
| Graphs.FragmentKeepsInnerEdges | Lib/Graphing/Graph.js:380-395 | in a fragment whose every edge touches its holder, a vertex keeps exactly the edges whose far end is inside the fragment |
| Graphs.Unique | Lib/Graphing/Graph.js:428 | the deduplicated list has the same members and no two equal entries |
| Graphs.TouchingEdgesRecords | Lib/Graphing/Graph.js:433-464 | the records of the edges pushed to a vertex are the given records that name it |
| Graphs.Graph.constructor | Lib/Graphing/Graph.js:8-13 | a new graph has no vertices |
| Graphs.Graph.AddVertex | Lib/Graphing/Graph.js:15-25 | a known ID fails with "already exists" and changes nothing; a new one is stored under its ID and appended to the key order |
| Graphs.Graph.RemoveVertex | Lib/Graphing/Graph.js:27-37 | an unknown ID fails with "does not exist" and changes nothing; a known one is deleted from the map and the key order |
| Graphs.Graph.HasEdge | Lib/Graphing/Graph.js:39-55 | true iff some stored vertex holds a structurally equal edge |
| Graphs.Graph.GetEdgeBetween | Lib/Graphing/Graph.js:57-86 | no result iff neither stored endpoint holds an edge touching the other; otherwise an edge one of them holds touching the other, namely the first such edge of whichever of the two comes first in key order and holds one, which may be the right vertex |
| Graphs.Graph.FirstBetweenAt | Lib/Graphing/Graph.js:57-86 | the edge found is the one at the first vertex, in key order, where the left or the right vertex holds an edge touching the other endpoint |
| Graphs.Graph.HasEdgeBetween | Lib/Graphing/Graph.js:88-91 | true iff either stored endpoint holds an edge touching the other |
| Graphs.Graph.IsDirected | Lib/Graphing/Graph.js:108-134 | true iff some stored edge is directed |
| Graphs.Graph.SetAllDirected | Lib/Graphing/Graph.js:136-145 | every stored edge takes the given direction, and afterwards the graph is directed iff the flag is set and some edge exists |
| Graphs.Graph.Visit | Lib/Graphing/Graph.js:185-224 | the walk over vertex objects computes the value-level visit |
| Graphs.Graph.VisitAdjacents | Lib/Graphing/Graph.js:208-219 | the loop over a vertex's adjacents computes the value-level loop |
| Graphs.Graph.VisitSources | Lib/Graphing/Graph.js:227-256 | the loop over the sources computes the value-level search |
| Graphs.Graph.MarkVisited | Lib/Graphing/Graph.js:238-256 | with IncludeSources false every source starts marked visited, so the guard on the source skips every adjacent |
| Graphs.Graph.ResolveDirected | Lib/Graphing/Graph.js:151-157 | the IsDirected option, or the graph's own directedness when it is absent |
| Graphs.Graph.DepthFirstSearch | Lib/Graphing/Graph.js:149-259 | the result is the search outcome: "not meaningful" for topological sorting of an undirected graph, otherwise the list or "Cycle exists" |
| Graphs.Graph.HasCycle | Lib/Graphing/Graph.js:261-282 | true iff the search with AllowCycle false throws "Cycle exists", other errors passed on; from every vertex of a directed graph, true iff the graph has a cycle |
| Graphs.Graph.TopologicalSort | Lib/Graphing/Graph.js:284-289 | the reversed search list; with AllowCycle at its default it never reports a cycle and fails only on an undirected graph; on an acyclic directed graph it lists every vertex once, each before the heads of its outgoing edges |
| Graphs.Graph.TopologicalOrderRespectsEdges | Lib/Graphing/Graph.js:284-289 | in a topological order, the tail of every stored directed edge comes before its head |
| Graphs.Graph.LeafTest | Lib/Graphing/Graph.js:291-315 | a vertex is a leaf iff, directed, it has no outgoing and some incoming edge, or, undirected, exactly one edge |
| Graphs.Graph.GetLeaves | Lib/Graphing/Graph.js:291-315 | the leaves in key order, and a vertex is returned iff it is stored and is a leaf |
| Graphs.Graph.LeavesAmongMembers | Lib/Graphing/Graph.js:291-315 | a vertex is among the leaves of a list of IDs iff one of them names it and it is a leaf |
| Graphs.Graph.GetRoots | Lib/Graphing/Graph.js:317-334 | an undirected graph fails with "not meaningful"; otherwise the stored vertices with in-degree 0, in key order |
| Graphs.Graph.Sort | Lib/Graphing/Graph.js:336-345 | every vertex's edge list is stably sorted by the sort identifier |
| Graphs.Graph.Prune | Lib/Graphing/Graph.js:347-378 | every vertex loses exactly the collected dangling edges, after which every edge left leads to a vertex of the graph |
| Graphs.Graph.CollectDangling | Lib/Graphing/Graph.js:351-362 | the first loop collects the dangling edges of each vertex, in key order |
| Graphs.Graph.DanglingOf | Lib/Graphing/Graph.js:353-361 | the inner loop collects the edges of one vertex whose far end is not a vertex of the graph |
| Graphs.Graph.RemoveFromAll | Lib/Graphing/Graph.js:364-377 | every vertex drops each collected edge from its own list, and only from it |
| Graphs.Graph.FragmentFrom | Lib/Graphing/Graph.js:380-395 | fails with "already exists" exactly on a repeated ID (naming the first repeat); otherwise a new graph of copies in the given order, each pruned of the edges leading outside the fragment |
| Graphs.Graph.CopyAll | Lib/Graphing/Graph.js:386-389 | the copy loop adds a new vertex per given one, with its edges, and fails on the first repeated ID |
| Graphs.Graph.AddCopy | Lib/Graphing/Graph.js:388 | adding one copy fails on an ID already added and otherwise extends the copy relation |
| Graphs.Graph.RecordsAtMembers | Lib/Graphing/Graph.js:410-431 | a record is collected iff some listed vertex holds an edge with that record |
| Graphs.Graph.Serialize | Lib/Graphing/Graph.js:410-431 | the vertex IDs sorted and as many as stored; the edge records deduplicated, each once, and a record is listed iff some stored edge has it |
| Graphs.Graph.RecordsOf | Lib/Graphing/Graph.js:420-423 | the inner loop lists the records of a vertex's edges in order |
| Graphs.Graph.Deserialize | Lib/Graphing/Graph.js:433-464 | fails exactly when a record names an ID that is not listed; otherwise a new graph keyed by the distinct IDs in which each vertex holds the edges of the records naming it |
| Graphs.Graph.NewVertices | Lib/Graphing/Graph.js:435-439 | a new edgeless vertex per listed ID, keyed by it, the order being the distinct IDs |
| Graphs.Graph.NewEdges | Lib/Graphing/Graph.js:441-450 | an edge per record between the vertices it names, failing exactly when a record names an unknown ID |
| Graphs.Graph.Attach | Lib/Graphing/Graph.js:452-461 | each vertex gains, in order, the edges that touch it |
| Graphs.Graph.AttachedRecords | Lib/Graphing/Graph.js:433-464 | after attaching, the records of a vertex's edges are the given records that name it |
| Graphs.Graph.RoundTrip | Lib/Graphing/Graph.js:410-464 | serializing a deserialized graph gives the distinct IDs sorted and exactly the given records, each once; it fails exactly when a record names an unlisted ID |
| Graphs.Graph.StoresExactly | Lib/Graphing/Graph.js:433-464 | a deserialized graph stores a record iff it was given |
| Executor.Normal | graphexec.js:253-267 | a lone string reference becomes a one-element list, and any other reference is left as it is |
| Executor.NormalIdempotent | graphexec.js:253-267 | rewriting a reference a second time changes nothing |
| Executor.Before | graphexec.js:257-263 | the upstream loop links (u, id) iff u is listed upstream and is a step ID |
| Executor.After | graphexec.js:269-275 | the downstream loop links (id, d) iff d is listed downstream and is a step ID |
| Executor.LinksMembers | graphexec.js:251-277 | the links are exactly the pairs of step IDs in which the first names the second downstream or the second names the first upstream |
| Executor.WiredAdjacent | graphexec.js:251-277 | after wiring, s is adjacent to u iff (u, s) is a link |
| Executor.WiredPrecedent | graphexec.js:251-277 | after wiring, u is a precedent of s iff (u, s) is a link |
| Executor.RedirectLinks | graphexec.js:356 | making every wired edge directed keeps every link stored at both of its ends |
| Executor.RedirectStored | graphexec.js:356 | after redirection every stored edge is the directed edge of a link |
| Executor.SameArcsSameCycles | graphexec.js:291 | two adjacencies with the same arcs both have a cycle or both have none |
| Executor.Step.constructor | graphexec.js:237-305 | a step holds its ID, project and references |
| Executor.Connect | graphexec.js:323-325 | adding the edge u to s keeps the wiring and adds the link (u, s) |
| Executor.ConnectUpstream | graphexec.js:321-329 | the upstream loop adds the links of the upstream IDs, in order |
| Executor.ConnectDownstream | graphexec.js:331-341 | the downstream loop adds the links of the downstream IDs, in order |
| Executor.Wire | graphexec.js:317-343 | the wiring loop produces exactly the links of the steps' references and rewrites lone references to lists |
| Executor.WireAt | graphexec.js:317-343 | wiring step i extends the links by its references and rewrites that step alone |
| Executor.WireStep | graphexec.js:318-342 | one step's references are rewritten and its links added |
| Executor.Repeated | Lib/Graphing/Graph.js:15-25 | no repeat iff the IDs are distinct; otherwise the first ID that occurs earlier in the list |
| Executor.AddAll | graphexec.js:352-354 | adding the step vertices fails with "already exists" on the first repeated ID, and otherwise builds a graph of them in order |
| Executor.RepeatedPrefix | graphexec.js:352-354 | the first repeat lies in any prefix that contains it |
| Executor.BuiltAdjacency | graphexec.js:307-364 | in the built graph s is adjacent to u iff (u, s) is a link |
| Executor.BuiltDirected | graphexec.js:356 | the built graph is directed iff there is a link |
| Executor.CompileGraph | graphexec.js:307-364 | the lone step for at most one step (none for none); otherwise "already exists" on a repeated ID or a graph over the step IDs, in order, whose arcs are exactly the links |
| Executor.Finish | graphexec.js:345-363 | the end of the compiler returns the lone step, the error, or the new shaped graph, and leaves the steps alone |
| Executor.WireSteps | graphexec.js:311-343 | a new vertex per step ID, wired with exactly the links, the references rewritten |
| Executor.StepVertices | graphexec.js:311-315 | a new edgeless vertex keyed by each step ID |
| Executor.Assemble | graphexec.js:352-356 | fails on the first repeated ID; otherwise a new graph of the vertices, in step order, shaped by the links |
| Executor.CompileSteps | graphexec.js:237-305 | nothing for no steps, the lone ID for one; otherwise "already exists" on a repeated ID, "not meaningful" when no step names another, and, when the steps have no cycle, every ID once with each linked pair in order |
| Executor.SortCompiled | graphexec.js:279-304 | the lone ID, the compiler's error, or the sort of the built graph |
| Executor.BuiltShaped | graphexec.js:307-364 | the built graph has the links as adjacency and precedence and is directed iff there is a link |
| Executor.SortBuilt | graphexec.js:287-304 | sorting the built graph meets the CompileSteps outcome |
| Executor.BuiltCycles | graphexec.js:291 | the built graph has a cycle iff the steps' references form one |
| Executor.SortDirected | graphexec.js:291 | sorting fails with "not meaningful" iff there is no link; on an acyclic graph every vertex is listed once with every link in order |
| Executor.StepGraphArcs | graphexec.js:251-277 | the step graph has the step IDs as vertices and the links as arcs |
| Sequential.RunIsPrefix | graphexec.js:136-149 | a run starts a prefix of the compiled order |
| Sequential.RunPassesIffAllSucceed | graphexec.js:136-162 | a run passes iff every step of the order succeeds, and a passing run has started them all |
| Sequential.RunFailsAtLastStep | graphexec.js:136-149 | a failed run ends at the step whose task failed, every earlier step having succeeded, and carries that step's error |
| Sequential.RunSteps | graphexec.js:136-149 | the loop awaiting one task at a time computes the reference run |
| Sequential.RunFrom | graphexec.js:136-149 | the run from step i is that step, then, if it succeeded, the run from step i + 1 |
| Sequential.ExecAll | graphexec.js:112-163 | a compiler error rejects the batch before any step runs; otherwise the steps run in the compiled order until one fails |
| Sequential.DependenciesRunFirst | graphexec.js:112-163 | over an acyclic step graph, every step a started step depends on has already run |
| Sequential.PrefixRespectsLinks | graphexec.js:136-149 | a prefix of an order that respects the links holds every linked source before its target |
| Scheduling.ArrivedAll | graphexec.js:35-39 | once every dependency has signalled, the signalled list holds them all |
| Scheduling.ArrivedMisses | graphexec.js:35-39 | while some dependency has not signalled, fewer have arrived than there are dependencies |
| Scheduling.ArrivedAllIff | graphexec.js:35-39 | the arrived dependencies equal the dependencies, as sorted lists, iff every dependency has signalled |
| Scheduling.ArrivedGrows | graphexec.js:66-71 | one more signal adds exactly the dependencies it names |
| Scheduling.ReadyIffAllHeard | graphexec.js:35-39 | a step is ready iff every one of its dependencies has signalled |
| Scheduling.CheckDependencies | graphexec.js:35-39 | the sorted-ID comparison answers whether every dependency has signalled |
| Scheduling.Failures | graphexec.js:55-59 | no error is recorded iff every completed task succeeded |
| Scheduling.FailuresSnoc | graphexec.js:55-59 | a completed task adds its error, if it failed, at the end |
| Scheduling.Next | graphexec.js:39-60 | a step waits iff it is not ready, and runs iff it is ready and no error has been recorded |
| Scheduling.FinishKeepsTasks | graphexec.js:52-59 | a task finishing keeps every step's status in agreement with its dependencies |
| Scheduling.ProceedKeepsTasks | graphexec.js:39-60 | a step moving on when its dependencies signal keeps that agreement |
| Scheduling.InitialAgrees | graphexec.js:28-76 | the first pass, in which only steps without dependencies start, establishes the invariants |
| Scheduling.AdvancedTwice | graphexec.js:28-76 | statuses only move forward, across any number of events |
| Scheduling.Scheduler.constructor | graphexec.js:28-76 | every step without dependencies runs and every other step waits, with no error and the run pending |
| Scheduling.Scheduler.Complete | graphexec.js:52-59 | a task's completion records its error if it failed, marks the step finished and signalled, only moves statuses forward, and rejects a pending run once an error reaches a leaf |
| Scheduling.Scheduler.Drain | graphexec.js:28-110 | completing running tasks until none is left settles them in order, recording their errors |
| Scheduling.Scheduler.Cascade | graphexec.js:66-72 | delivering queued signals only moves statuses forward |
| Scheduling.Scheduler.Hear | graphexec.js:66-72 | one signal is delivered to every listener and, when it is a leaf's with an error recorded, rejects the run with the first error |
| Scheduling.Scheduler.Listen | graphexec.js:68-71 | a listener records the signalling dependency and answers whether all of them have signalled |
| Scheduling.Scheduler.Proceed | graphexec.js:39-60 | a ready step runs, or, with an error recorded, signals at once without running |
| Scheduling.Scheduler.NotifyLeaf | graphexec.js:86-106 | a leaf's signal with an error recorded rejects the pending run with the first error |
| Scheduling.AllSignalled | graphexec.js:28-76 | on an acyclic graph every step eventually signals |
| Scheduling.DirectedExec | graphexec.js:20-110 | each step completes at most once; the errors are those of the failed tasks in completion order; a rejection carries the first; on an acyclic graph with leaves the run settles; when the leaves cover every step, it resolves iff every task succeeds |
| Scheduling.CoveredOutcome | graphexec.js:40-59 | once every step has signalled, no error is recorded iff every task succeeded |
| Scheduling.IsolatedFailureResolves | graphexec.js:78-107 | as written: with A before B and C alone, B the only leaf, A and B succeeding before C fails resolves the run although C's error is recorded |
| Scheduling.AwaitingEveryStepRejects | graphexec.js:78-107 | corrected: with every step awaited, the same run is rejected with C's error |
| Parallel.Precedence | graphexec.js:28-30 | each sorted vertex of the graph is keyed by its ID and depends on exactly the IDs of its precedents |
| Parallel.LinkedOrderLayered | graphexec.js:188 | an order that respects the links makes the dependency map layered and acyclic |
| Parallel.RewrittenLinks | graphexec.js:237-305 | rewriting lone references as lists does not change the links they make |
| Parallel.Directed | graphexec.js:211-221 | the dependencies are the precedents; the run completes each step at most once, rejects with the first task error, and on an acyclic graph with leaves always settles, resolving iff every task succeeds when the leaves cover every step |
| Parallel.Fallback | graphexec.js:206-209 | the sequential fallback runs a lone step, and refuses two or more edgeless steps as "not meaningful" before any runs |
| Parallel.ParallelExecAll | graphexec.js:165-235 | as written: a repeated ID rejects without running anything and without a reason; one step or an edgeless batch runs through the fallback and leaves the promise unsettled; any other rejection carries the first task error; linked acyclic steps always settle, resolving when every task succeeds; a resolution needs a step some link leads to and none leaves |
| Parallel.RunCompiled | graphexec.js:184-221 | an edgeless graph falls back to sequential execution; a linked acyclic graph runs directed and settles |
| Parallel.SortFacts | graphexec.js:188 | the sorted order of a linked acyclic step graph lists every step once, each after the steps it depends on |
| Parallel.RunSorted | graphexec.js:78-107 | the directed run over the sorted order rejects only with the first task error; on an acyclic graph it settles, resolving when every task succeeds; awaiting the leaves, it resolves only when a step some link leads to leaves none |
| Parallel.SortedLayered | graphexec.js:188-212 | the precedents of the sorted steps form an acyclic, layered dependency map covered by the order |
| Parallel.EveryStepSucceeds | graphexec.js:211-221 | every keyed step succeeds iff every listed step succeeds |
| Parallel.ParallelExecAllSettled | graphexec.js:165-235 | corrected: the promise always settles; the fallback's outcome settles it; a repeated ID rejects, an edgeless batch rejects as "not meaningful", one step resolves iff it succeeds, linked steps that form a cycle reject with "Cycle exists" before any runs, and an acyclic batch resolves iff every task succeeds |
| Parallel.LoneStepNeverSettles | graphexec.js:206-209 | as written: a batch of one successful step runs it but never settles |
| Parallel.LoneStepResolves | graphexec.js:206-209 | corrected: the same batch resolves |
| Parallel.UnlinkedPairNeverSettles | graphexec.js:206-209 | as written: two unlinked steps run nothing and never settle |
| Parallel.AwaitedLeaves | Lib/Graphing/Graph.js:291-315 | the leaves `_directedExec` awaits are steps of the graph, at least one when the steps form no cycle, and any leaf is a step some link leads to and none leaves |
| Parallel.LeafIsSink | Lib/Graphing/Graph.js:291-315 | a leaf of a linked compiled graph has a link leading to it and none leaving it |
| Parallel.SinkIsLeaf | Lib/Graphing/Graph.js:291-315 | a step some link leads to and none leaves is a leaf |
| Parallel.LeafExists | Lib/Graphing/Graph.js:291-315 | a linked compiled graph whose sort respects the links has a leaf |
| Parallel.LastHead | graphexec.js:188 | in an order that puts each link's source first, the last step some link leads to has no outgoing link |
| Parallel.SortRefusingCycles | Lib/Graphing/Graph.js:284-289 | the sort with cycles refused rejects an edgeless graph as "not meaningful" and otherwise throws "Cycle exists" exactly when the steps form a cycle |
| Parallel.RunRefusingCycles | graphexec.js:184-221 | corrected: linked steps that form a cycle reject with "Cycle exists" before any runs; otherwise an acyclic graph settles, resolving iff every task succeeds |
| Parallel.CyclicPairNeverSettles | graphexec.js:78-107 | as written: two steps each naming the other downstream sort without error, leave no leaf to await, and the batch never settles |
| Parallel.CyclicPairRejected | graphexec.js:184-209 | corrected: the same two steps are rejected with "Cycle exists" before either runs |
| Parallel.PairLinked | graphexec.js:237-305 | the references of the cyclic pair leave no step that a link leads to and none leaves |
| Parallel.PairCyclic | graphexec.js:237-305 | the references of the cyclic pair make a link and a cycle |
| Configuration.Pieces | projects.js:104-107 | splitting on runs of parentheses, bars, ampersands and spaces loses nothing, each piece is all operators or none, and operator pieces alternate with names |
| Configuration.OperatorsAppend | projects.js:107-121 | the operator characters of a concatenation are those of its parts, in order |
| Configuration.SubstitutedOperators | projects.js:107-121 | substituting true or false for every name keeps the operator characters in order |
| Configuration.ExpressionKeepsOperators | projects.js:100-121 | the rewritten group expression has exactly the operators of the groups string |
| Configuration.SingleGroup | projects.js:107-121 | a groups string naming one group becomes "true" iff it is the project's name or one of its groups |
| Configuration.AnyGroup | projects.js:141-150 | a groups array includes a project iff some entry is its name or one of its groups |
| Configuration.Include | projects.js:79-153 | a name listed in `with` is included; otherwise one listed in `without` is excluded; otherwise a groups string includes iff its rewritten expression evaluates to true (a failing evaluation excludes), a groups array includes iff some entry is the name or a group, and any other value excludes |
| Configuration.Selected | projects.js:177-207 | exactly the projects whose copy with "all" appended to its groups is included are kept, in order, each with "all" among its groups |
| Configuration.AddNew | projects.js:202-206 | adding groups keeps what was seen, adds the unseen ones once, and keeps the list duplicate-free |
| Configuration.SeenGroups | projects.js:156-206 | the groups seen start with "all", hold no repeat, and hold exactly "all" and every group of a kept project |
| Configuration.NamesOf | projects.js:199 | the names, index for index |
| Configuration.PathsOf | projects.js:200 | the paths, index for index |
| Configuration.DefaultSelectsUnexcluded | projects.js:164-207 | with the default groups every project not excluded by name is kept |
| Configuration.FirstMissing | projects.js:274-290 | no error iff every step has a non-empty ID and project; otherwise the error of the first step lacking one, the ID checked first |
| Configuration.Repeated | projects.js:292-296 | a key is reported iff it occurs more than once among the IDs |
| Configuration.Duplicates | projects.js:292-300 | the repeated IDs, each once, and none iff the IDs are distinct; the order is left open |
| Configuration.DistinctCounts | projects.js:292-300 | a list is duplicate-free iff no element occurs twice |
| Configuration.AppendDistinct | projects.js:202-206 | appending keeps a list duplicate-free iff the element is new |
| Configuration.Targets | projects.js:333-343 | "*" targets every loaded project, another string itself, an array its entries, and anything else the single empty name |
| Configuration.FindTemplate | projects.js:328 | a found template has the name; none is found iff no template has it |
| Configuration.RenderTargets | projects.js:345-372 | succeeds iff there are no targets, or the template has a file and every target is empty or a loaded project; then exactly one rendering per target, in target order; a template without a file and a first target that is fine gives "no template file" |
| Configuration.RenderTargetsNotFound | projects.js:350-358 | the first target naming no loaded project fails with "cannot find project" for that target (at the first target already when the template has no file) |
| Configuration.RenderAll | projects.js:327-380 | every rendering is of a requested template that exists and has a file, for a loaded project or for none |
| Configuration.RenderOne | projects.js:328-372 | one template: "unable to find template" when none has the name; otherwise its renderings, which all name the template and a loaded project or none |
| Configuration.RenderAllSucceeds | projects.js:327-380 | the plan succeeds iff every requested template is found and renders for all its targets |
| Configuration.RenderAllJoined | projects.js:327-380 | a successful plan is the renderings of each requested template, one template after another in the order requested |
| Configuration.RenderAllNotFound | projects.js:328-331 | the first requested name with no template, every name before it rendering, fails the plan with "unable to find template" and that name |
| Configuration.Projects.constructor | projects.js:20-42 | the object holds the configuration it is given |
| Configuration.Projects.Load | projects.js:155-231 | the selected projects, their names and paths index for index, and the groups seen replace the configuration; templates and digraphs are kept |
| Configuration.Projects.GetDiGraph | projects.js:253-303 | the steps iff the digraph exists, every step has an ID and a project, and the IDs are distinct; "not found" iff the name is unknown; otherwise the error of the first step without an ID or a project, and when every step has both but IDs repeat, the duplicate error, naming exactly the repeated IDs |
| Configuration.Projects.Template | projects.js:309-380 | every project is loaded with the default options, the new configuration holding their names, paths and groups and keeping the templates and digraphs, and the requested templates are planned over them |
| Configuration.Appended | projects.js:198-206 | keeping one more project extends the names, the paths and the groups seen accordingly |
| Configuration.Accumulate | projects.js:202-206 | the loop over a project's groups adds the unseen ones |
| Configuration.Plan | projects.js:327-380 | the loop over the requested templates computes the rendering plan |
| Configuration.PlanTargets | projects.js:345-380 | the loop over the targets computes the renderings of one template |
| GitCommands.Render | gitcommands.js:141-153 | every option is written with one leading space |
| GitCommands.LineSnoc | gitcommands.js:139-153 | appending an option to the string appends its rendering |
| GitCommands.WordsOfLine | gitcommands.js:137-159 | splitting the option string on spaces gives back exactly the option tokens, in order |
| GitCommands.WordsOfOption | gitcommands.js:137-159 | one rendered option splits into its own tokens followed by the rest |
| GitCommands.Append | gitcommands.js:139-153 | appending to the option string keeps it the rendering of the options appended so far |
| GitCommands.FetchArgs | gitcommands.js:141-153 | `--all` iff asked, `--tags` iff asked, `--unshallow` iff asked, otherwise `--depth` iff the depth is a non-empty string, and no operand |
| GitCommands.Fetch | gitcommands.js:137-159 | the command enters the project and fetches with those options, then, unless fetching all, fetches from the named remote as well |
| GitCommands.PullArgs | gitcommands.js:436-448 | `--all` iff asked, `--depth` iff not bare and the depth is a non-empty string, and the remote as operand iff not pulling all |
| GitCommands.Pull | gitcommands.js:432-450 | the command enters the project and pulls with those options |
| GitCommands.TagArgs | gitcommands.js:1440-1500 | listing wins and needs no name; every other mode throws "invalid tag" unless the name is a non-empty string, and then has the name as operand, only the first requested mode's flag, a quoted message only when annotating, and `--force` when asked except when deleting |
| GitCommands.NamedArgs | gitcommands.js:1450-1500 | a mode other than listing has the tag name as its only operand, exactly the flag of the first mode asked for, a local user only when signing as one, a quoted message only when annotating with a message, and `--force` when asked for except when deleting |
| GitCommands.Tag | gitcommands.js:1438-1505 | the error of the options, or the command that enters the project and runs `git tag` with them |
| GitCommands.NamedTag | gitcommands.js:1450-1500 | building the options of a named mode part by part gives the tag options |
| GitCommands.ProjectRemote | gitcommands.js:85-95 | a remote is found iff the project has remotes and one of that name, and it is that one |
| GitCommands.PushTarget | gitcommands.js:1355-1359 | the remote with `--mirror` iff mirroring, else with `--all` iff pushing all (after an empty operand, from the doubled space), else nothing |
| GitCommands.PushExtras | gitcommands.js:1361-1379 | `--tags` and `--force` iff asked, `--repo=` and `--set-upstream` iff given as non-empty strings, and no operand |
| GitCommands.PushArgs | gitcommands.js:1351-1379 | a dry run iff asked, then the target, then the other options, each present exactly as asked |
| GitCommands.Push | gitcommands.js:1322-1393 | nothing runs iff the remote is unknown or read-only; otherwise the command enters the project and pushes with those options |
| GitCommands.PushLine | gitcommands.js:1351-1379 | appending the dry-run flag, the target and the other options one by one gives the line of the push options |
| GitCommands.AppendTarget | gitcommands.js:1355-1359 | appending the target keeps the string the rendering of the options |
| GitCommands.AppendExtras | gitcommands.js:1361-1379 | appending the other options keeps the string the rendering of the options |
| GitCommands.AppendWhen | gitcommands.js:1361-1367 | an option is appended exactly when its condition holds |
| GitCommands.CloneArgs | gitcommands.js:612-626 | a mirror clone has `--mirror` alone; otherwise `--branch` iff a branch is given, `--bare` iff bare, and `--depth` iff not bare and a depth is given |
| GitCommands.Retry | gitcommands.js:652-663 | the second attempt keeps the remote, bareness and depth and drops mirror, branch and hash |
| GitCommands.CloneCommand | gitcommands.js:612-632 | the command clones the remote's URL into the path with those options, then resets to the hash when there is one |
| GitCommands.Clone | gitcommands.js:595-691 | an unknown remote rejects with nothing run; otherwise the clone runs and, when it fails with a branch asked, once more without it; the clone succeeds iff the last command run succeeds |
| GitOutput.FilterGitOutput | gitcommands.js:62-83 | nothing is logged for output that is not a string; otherwise exactly the shown lines of the output, in its order and with its repeats |
| GitOutput.ShownLinesMembers | gitcommands.js:70-82 | a line is logged iff it is non-empty and, unless verbose, not "Already up to date."; each at most as often as it occurs |
| GitOutput.Status | gitcommands.js:521-593 | verbose output gives an empty branch, no changes and no detached head; otherwise the report read line by line |
| GitOutput.LastStarting | gitcommands.js:544-552 | the index of the last line with the prefix, or none iff no line has it |
| GitOutput.HeadLinesDiffer | gitcommands.js:544-552 | no line is both a detached-head line and a branch line |
| GitOutput.HeadersAreNotHeadLines | gitcommands.js:554-558 | the two section headers are neither branch nor detached-head lines |
| GitOutput.StatusHead | gitcommands.js:543-552 | the branch is the rest of the last "On branch " line (empty without one) and the detached head the rest of the last "HEAD detached at " line (absent without one) |
| GitOutput.SectionTracked | gitcommands.js:554-558 | the section in force is the one the last header opened |
| GitOutput.ChangesStep | gitcommands.js:560-585 | one more line adds the change it reports in the current section, if any |
| GitOutput.StatusChanges | gitcommands.js:543-586 | a change is reported iff some line other than a head line reports it in the section in force at that line |
| GitOutput.DeletedIsModified | gitcommands.js:569-573 | a deleted file is reported with the state "modified" |
| GitOutput.TagName | gitcommands.js:742 | the reference without a leading "refs/tags/", or unchanged without one |
| GitOutput.Tags | gitcommands.js:715-746 | the loop over the lines collects the tag each line names, in order |
| GitOutput.TagsMembers | gitcommands.js:734-743 | a tag is listed iff some line has two fields, the hash matching when one is asked for, and names it |
| GitOutput.TagsForHash | gitcommands.js:738 | asking for a hash only filters the tags listed without one |
| GitOutput.ShowRefLine | gitcommands.js:736-742 | a show-ref line names its tag with no hash asked or with its own hash, and nothing for another hash |
| GitOutput.LocalBranches | gitcommands.js:906-954 | verbose output gives no branches; otherwise the branch each non-blank line names |
| GitOutput.BranchesNamed | gitcommands.js:920-931 | there are no more branches than lines, every name is non-empty without spaces, and an undefined entry appears iff some line is a lone "*" |
| GitOutput.BranchLines | gitcommands.js:926-930 | the current branch's line and another branch's line each name the branch |
| GitOutput.RemoteOf | gitcommands.js:987-999 | a found entry's remote is the remote's prefix followed by the branch |
| GitOutput.RemotesOf | gitcommands.js:981-1000 | every entry's remote is the prefix followed by its branch |
| GitOutput.ThrowsPersist | gitcommands.js:987-988 | once a line throws, the whole parse throws |
| GitOutput.RemoteBranches | gitcommands.js:958-1023 | verbose output gives no entries; otherwise the parse of the lines |
| GitOutput.RemoteLine | gitcommands.js:982-999 | reading one line computes its entry |
| GitOutput.RemoteHeadLine | gitcommands.js:987-992 | the remote's HEAD line names the branch it points to |
| GitOutput.RemoteBranchLine | gitcommands.js:993-998 | another line under the remote names its branch |
| GitOutput.RemotesThrow | gitcommands.js:981-1000 | the parse throws iff some line throws |
| GitOutput.LastMatch | gitcommands.js:1069-1084 | the index of the last matching line, or none iff no line matches |
| GitOutput.FindLatestTag | gitcommands.js:1044-1091 | as written: the last matching line when it is non-empty, otherwise "Tag not found" |
| GitOutput.TrailingLineHidesTag | gitcommands.js:1086-1090 | as written: for the output "v1\n" and a pattern matching every line, the empty last line hides the tag |
| GitOutput.LatestTagCorrected | gitcommands.js:1044-1091 | corrected: a tag is found iff some non-empty line matches; it is then the last such line |
| GitOutput.FindLatestTagCorrected | gitcommands.js:1044-1091 | corrected: the loop computes the corrected search |
| GitOutput.CorrectedFindsTag | gitcommands.js:1086-1090 | corrected: the same output gives "v1" |
| GitOutput.CorrectedAgrees | gitcommands.js:1044-1091 | whenever the source finds a tag, the corrected search finds the same one |
| Git.Matches | git.js:91-95 | the inner loop copies only the project it looks at |
| Git.PickedMembers | git.js:87-96 | a project is picked iff it is configured and one of the requested names is its name |
| Git.PickedAppend | git.js:90-96 | picking from two runs of projects is picking from each in turn |
| Git.PickedCount | git.js:87-96 | a project is picked once per configured copy and per time its name is requested |
| Git.SelectionCount | git.js:72-99 | "*" or a value that is neither a string nor an array selects every project once; a name or a list of names selects each project as often as its name is requested |
| Git.SelectProjects | git.js:72-99 | the nested loops compute the selection |
| Git.RemoteName | git.js:150-154 | the remote is the one given when it is a non-empty string and "origin" otherwise |
| Git.ExitCode | git.js:156-161 | the exit code is 0 or 1, and 1 iff some project finished with a non-zero code |
| Git.Completion.constructor | git.js:101-105 | no project has completed |
| Git.Completion.Done | git.js:2153-2166 | one more completion is recorded, its code included |
| Git.Finish | git.js:2153-2166 | the process exits with the exit code once as many projects as expected have completed, unless `no_exit` is set |
| Git.SelectedTotalExits | git.js:158-168 | corrected: counting against the number of selected projects, the process exits once every selected project has completed, with code 1 iff one failed |
| Git.ConfiguredTotalMissesExit | git.js:866-877 | as written: when fewer projects are selected than configured, completing every selected one never reaches the configured count, so `process.exit` is never called and the exit code collected is not reported |
| Git.OneOfTwo | git.js:79-96 | with two configured projects of different names, naming one selects that one alone |
| Git.AsList | git.js:2168-2178 | a string becomes a one-element list, and a value that is neither string nor array an empty one |
| Git.Contribution | git.js:2186-2194 | a command entry contributes itself when it is a non-empty string, its items when it is an array, and nothing otherwise |
| Git.NamedMembers | git.js:2184-2196 | a line comes from the named commands iff some requested name's entry contributes it |
| Git.TextsMembers | git.js:2199-2203 | a line comes from `exec` iff it is one of its strings |
| Git.CollectedMembers | git.js:2181-2203 | a line is collected iff a requested command of the project contributes it or it is a string of `exec` |
| Git.Collect | git.js:2181-2203 | the loops collect the command lines, named commands first, then `exec` |
| Git.UntilFailure | git.js:2232-2245 | the lines run form a prefix ending at the first failure, all run iff every line before the last succeeds |
| Git.Execute | git.js:2232-2247 | the loop runs the lines until one fails; code 0 iff every line succeeds |
| Git.FirstFailure | git.js:2232-2245 | the run stops right after the first failing line |
| Git.RunProject | git.js:2180-2247 | code 0 with nothing run when there is no line; code 1 when the project's directory is missing; otherwise the lines until one fails, code 0 iff all succeed |
| Git.PinFor | git.js:910-921 | a pin exists iff some manifest entry names the project, and it is the hash of the last such entry |
| Git.FindPin | git.js:910-921 | the loop over the manifest finds that pin, and none without a manifest |
| Git.CloneHandlerOptions | git.js:899-921 | the clone options of one project, from the request and the manifest's pin |
| Git.CloneRequestHonoured | git.js:899-921 | a mirror is cloned with `--mirror` alone; a pinned project with no branch and its hash; any other with the requested branch; bare iff asked when not mirroring |
| Git.SyncOptions.constructor | git.js:1065-1079 | the shared options hold what sync was given |
| Git.SyncOptions.Flags | git.js:1146-1242 | as written: the failure of the unshallow fetch, or of `git status` on a checkout that is there and not bare, ends the project with no flags and the shared options untouched; otherwise bare, depth, branch, full clone and forced reset decided in the source's order, a pin replacing the branch with its hash and clearing the shared branch and tag |
| Git.SyncOptions.FlagsCorrected | git.js:1146-1242 | corrected: the same decisions, and the same two failures ending the project, with the pin applied to its own project only |
| Git.SyncFlagsConsistent | git.js:1146-1242 | a project gets no flags exactly when its unshallowing fetch or its status fails; at most one of a bare copy, a full clone and a forced reset; a depth only without a bare copy; a full clone only without a branch; the requested branch kept unless the project is pinned |
| Git.SharedBranchLeaks | git.js:1230-1242 | as written: after a pinned project, the next, unpinned, project loses the branch "dev" sync was asked for |
| Git.SharedBranchKept | git.js:1230-1242 | corrected: the next project keeps "dev" |
| Uuid.HexDigit | Lib/Graphing/UUID.js:11-17 | a value below 16 is written as one lowercase hexadecimal digit |
| Uuid.DigitValue | Lib/Graphing/UUID.js:11-17 | a digit reads back as its value |
| Uuid.PaddedHex | Lib/Graphing/UUID.js:11-17 | writing j + 256 in hexadecimal and dropping the first digit gives the two digits of j |
| Uuid.TableEntries | Lib/Graphing/UUID.js:11-17 | table entry j is the two-digit lowercase hexadecimal of j |
| Uuid.HexValues | Lib/Graphing/UUID.js:11-17 | the two digits of a byte are hexadecimal and read back to the byte |
| Uuid.HexTable.constructor | Lib/Graphing/UUID.js:7 | the table starts empty |
| Uuid.HexTable.Fill | Lib/Graphing/UUID.js:11-17 | an empty table is filled with the 256 entries and a filled one is left as it is |
| Uuid.Written | Lib/Graphing/UUID.js:19-43 | the first i bytes take two characters each plus one per dash before them |
| Uuid.Format | Lib/Graphing/UUID.js:9-44 | a UUID string is 36 characters long |
| Uuid.FormatAt | Lib/Graphing/UUID.js:19-43 | byte k is written as its two digits at its place |
| Uuid.FormatDashes | Lib/Graphing/UUID.js:19-43 | the groups are joined by dashes at indexes 8, 13, 18 and 23 |
| Uuid.ParseFormat | Lib/Graphing/UUID.js:9-44 | reading the two digits at each byte's place gives back the bytes written |
| Uuid.FormatDigits | Lib/Graphing/UUID.js:19-43 | every byte is written as lowercase hexadecimal digits |
| Uuid.Stamped | Lib/Graphing/UUID.js:71-76 | byte 6 gets the high nibble 4 and keeps its low nibble, byte 8 gets the top bits 10 and keeps its low six bits, and every other byte is kept |
| Uuid.VersionAndVariant | Lib/Graphing/UUID.js:71-76 | a stamped UUID has "4" at index 14 and one of 8, 9, a and b at index 19 |
| Uuid.BytesToUuid | Lib/Graphing/UUID.js:9-44 | the table is filled and the string is the first sixteen bytes of the buffer written out |
| Uuid.Stamp | Lib/Graphing/UUID.js:73-74 | the seed is stamped in place |
| Uuid.NewUuid | Lib/Graphing/UUID.js:71-76 | the seed is stamped in place and the result is its 36-character string, which reads back to the stamped bytes, with the version and variant characters in place |

## Left out

- Subprocesses, the filesystem and `process.exit`: `spawn`/`exec`, `fs.access`/`stat`/`readFile`/`writeFile`/`chmod` and `chdir` are I/O. Command results, repository probes (`ExistingType`) and file contents are inputs. `process.exit` becomes the `Option` that `Git.Exit` returns.
- Concurrency: `PQueue`, `EventEmitter` listeners, `setMaxListeners` and promise wiring are not modelled. The executor keeps only its readiness, skip and drain rule, run over a given order of "finished" events. Task outcomes are an input. In the shipped git handlers a task never fails: `Git.Run` catches every error and reports exit code 1 instead (git.js:2234-2243, git.js:128-133), so the task-failure paths of the executor are dormant there.
- Wall-clock timing, `toFixed`, `Timestamp` and all logging (`log.js`) are output only.
- The JavaScript `eval` of group expressions: `Configuration` models the token rewriting exactly and takes the evaluation as a parameter `eval` (a failing evaluation is its `None`).
- `_templateObject`, Handlebars rendering in `Template`, `process.env` and the inquirer prompts of `_commitHandler` are text rendering and UI. `Template` is modelled up to the choice of targets and the render requests it makes.
- The user-supplied `RegExp` of `FindLatestTag` is a parameter `matches` (a line predicate). Zero-width regex splitting details are not modelled; the splitters are character-class predicates.
- Randomness: the `Weak` UUID path (`Math.random`) and `crypto.randomBytes` are not modelled. The 16 seed bytes are an input of `Uuid.NewUuid`.
- `MinimumSpanningTree`/`MinimumBottleneckSpanningTree` are empty stubs in the source. `find.js` is a filesystem search. `ExecDiGraph`/`ExecList` only wire I/O around the executor.
- lodash `cloneDeep`: `Graphs.Graph.FragmentFrom` makes new vertex objects whose edge lists are copies of the old values, so the copies' edges still name the original vertices; a deep clone would copy those too. Pruning therefore removes edges list by list.
- lodash `defaultsDeep` is written out as explicit defaults; arrays merge index by index, so an empty `groups` becomes `["all"]`.
- JavaScript object key order: `Graphs.Graph` keeps vertex IDs in insertion order. The rule that puts integer-like keys first is not modelled.
- Depth-first search follows object references in the source. The model looks each adjacent vertex up by ID, and requires every edge endpoint to be a vertex of the graph.
- Sequential.ExecAll: the step list is an input, so fetching it with `GetDiGraph` is not modelled. In the source every `GetDiGraph` error (unknown name, a step without an id or project, repeated ids) is thrown inside the `async` Promise executor (graphexec.js:113-117, and likewise in `ParallelExecAll` at graphexec.js:166-170); it does not reject the returned promise, which then never settles, so the "could not find graph" rejection of graphexec.js:119-121 is unreachable.
- Git.Contribution: only string items of an array-valued command are modelled; the source passes other values on to the shell unchecked.
- Git.SyncOptions.Flags: a numeric `depth` is an `Option<int>` here, while the command builders take depth as a string.
- RemoveFromAll (Graphs.Graph.RemoveFromAll): each vertex drops the collected edges from its own list. The source calls the recursing `vertex.RemoveEdge(edge)` (Lib/Graphing/Graph.js:370), which also strips the far ends and throws a `TypeError` when a vertex holding a doomed edge has a self-loop before its last edge. That crash and the stripping of far ends are modelled only per vertex, by `Graphing.Vertex.RemoveEdge`.
- Prune (Graphs.Graph.Prune): returns normally for every graph; it inherits the self-loop crash of `RemoveFromAll` described above, which is not modelled here.
- FragmentFrom (Graphs.Graph.FragmentFrom): returns a graph for every list of distinct vertices; a copied vertex whose self-loop comes before an edge leaving the fragment makes the source throw inside `_prune`, which is not modelled here.
- HasEdge and RemoveEdge (Graphing.Vertex.HasEdge, Graphing.Vertex.RemoveEdge, Graphs.Graph.HasEdge): lodash `_.isEqual` is deep equality; the model compares edges as values whose endpoints are the same vertex objects, so two distinct vertex objects with equal fields make equal edges in the source but not here.
- Graphing.NewEdge: weights are integers; the source takes any JavaScript number and writes it with a template string in the sort key.
- Text.Less: compares strings by code point; `_.sortBy` compares UTF-16 code units, which order differently above U+FFFF.
- GitCommands.Enter: `path.normalize` of the project path is not modelled; the path is used as given.
- GitOutput.FilterGitOutput and the other output readers take the whole output of a command at once; stream `data` chunks that split a line are not modelled.
- Names that are `Object.prototype` keys: the source looks names up in plain objects, where a name such as `constructor` or `toString` finds an inherited function rather than nothing. The model assumes no vertex ID, step ID, digraph name or remote name is such a key. The members concerned have one line each below.
- Graphs.Graph.AddVertex and Graphs.Graph.RemoveVertex: an ID that is an `Object.prototype` key makes adding throw "already exists", and removal finds it present but `delete` leaves the inherited key in place (Lib/Graphing/Graph.js:17, 29); the model treats it as any other ID.
- Graphs.Graph.Deserialize: a record naming an `Object.prototype` key finds a function instead of failing (Lib/Graphing/Graph.js:444-445); not modelled.
- Traversal.Visit: the visited and visiting maps of the search (Lib/Graphing/Graph.js:177-204) would see an inherited key as marked; not modelled.
- Executor.ConnectUpstream and Executor.ConnectDownstream: a reference naming an `Object.prototype` key passes the `_.isObject` test and the source throws a `TypeError` at `AddEdgeTo` (graphexec.js:259-260, 271-272, 325-326); the model skips the name as unknown.
- Configuration.Projects.GetDiGraph: for the name `constructor` the source gets past the not-found test and throws a `TypeError` at `.map` (projects.js:254); the model returns the not-found error.
- GitCommands.ProjectRemote: a remote name that is an `Object.prototype` key returns a function, so push and clone go on with an undefined URL (gitcommands.js:85-95); the model returns None.
- Executor.Step.constructor: step IDs are strings. The source skips a list item whose `id` is not a string (graphexec.js:246, 312), but `GetDiGraph`'s missing-field check rejects such an item first.
- Configuration.Requested: an option that is neither missing, a string nor an array gives no templates, while the source throws a `TypeError` reading `opts.template.length` when it is `null` (projects.js:327).
- Configuration.Projects.Load: a project with `groups: null` makes the source throw a `TypeError` at `project.groups.push("all")` (projects.js:192); the model's groups are always a list.
- Configuration.Duplicates: the contract does not fix the order of the repeated IDs in the error. The model lists them in first-seen order, while the object keys of `_.groupBy` put integer-like IDs first.
- Other git.js handlers (commit, diff, log, and the rest) and the gitcommands.js functions not named above are subprocess wrappers with no decision logic of their own. They are not part of this model.

## Findings

| source | as written | input that shows it | evidently intended | confidence | as-written member | corrected member |
|---|---|---|---|---|---|---|
| Lib/Graphing/Vertex.js:129-139 | `RemoveEdgesBetween(w)` calls `RemoveEdgesBetween(this)` on the far end of every edge in its list, not only on `w` | `a` joined to `b` and to `c`; `a.RemoveEdgesBetween(b)` also empties `c`'s edges to `a` | only `this` and `w` lose the edges between them | high, not executed | Graphing.Vertex.RemoveEdgesBetween, Graphing.RemoveEdgesBetweenStripsBystander | Graphing.Vertex.RemoveEdgesBetweenBothSides, Graphing.RemoveEdgesBetweenSparesBystander |
| graphexec.js:78-107 | the run waits only on the leaves of the graph | steps A before B plus an unlinked step C: once A and B finish, the batch resolves while C is still running, so a later failure of C goes unreported | the run settles after every step and rejects when any step failed | medium, not executed | Scheduling.IsolatedFailureResolves | Scheduling.AwaitingEveryStepRejects |
| graphexec.js:186-209 | the topological sort runs with cycles allowed, and the run then awaits the leaves | steps x and y, each naming the other downstream: the sort succeeds, the graph has no leaf, and the batch never settles | a cyclic batch is refused when it is sorted, and the promise settles | medium, not executed | Parallel.ParallelExecAll, Parallel.CyclicPairNeverSettles | Parallel.ParallelExecAllSettled, Parallel.CyclicPairRejected |
| graphexec.js:206-209 | the fallback awaits `ExecAll` and returns without resolving or rejecting the promise | a digraph with one step, or with two unlinked steps | the promise settles with the fallback's result | high, not executed | Parallel.ParallelExecAll, Parallel.LoneStepNeverSettles | Parallel.ParallelExecAllSettled, Parallel.LoneStepResolves |
| gitcommands.js:1086-1090 | the last matching line is kept, then tested for truthiness | output `"v1\n"` with a pattern that matches every line: the last match is `""`, so "Tag not found" | the last non-empty matching line is the tag | medium, not executed | GitOutput.FindLatestTag, GitOutput.TrailingLineHidesTag | GitOutput.FindLatestTagCorrected, GitOutput.CorrectedFindsTag |
| git.js:866-877 | the clone, pull and sync `done` counters compare with the number of configured projects | projects `a` and `b`, with `a` selected: `a` fails, but the count never reaches 2, so `process.exit(1)` is never called and Node ends by itself with code 0 | exit with the collected code once every selected project has finished | high, not executed | Git.ConfiguredTotalMissesExit, Git.OneOfTwo | Git.SelectedTotalExits |
| git.js:1230-1242 | a manifest pin clears the shared `opts.branch` and `opts.tag` | a pinned project `a`, then project `b` with `--branch dev`: `b` is synced without its branch | the pin affects only the pinned project | medium, not executed | Git.SyncOptions.Flags, Git.SharedBranchLeaks | Git.SyncOptions.FlagsCorrected, Git.SharedBranchKept |
| Lib/Graphing/Vertex.js:116-139 | the `_.remove` predicate recurses into the far end of each edge, and for a self-loop that far end is the vertex itself, so the list being walked shrinks under `_.remove`, which read its length once | a vertex `v` holding a self-loop (stored twice) and then an edge `e` to `t`; `v.RemoveEdge(e)` reads past the end of the shortened list and calls `GetOppositeVertexFrom` on `undefined` | the removal walks a snapshot of the list, never throws, and each list loses exactly the copies of the edge | high, not executed | Graphing.Vertex.RemoveEdge, Graphing.SelfLoopRemoveEdgeThrows | Graphing.Vertex.RemoveEdgeOverSnapshot, Graphing.SelfLoopRemoveEdgeOverSnapshot |
