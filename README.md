# Node churn analysis: a verified model

This project models the engine of a small C# library for studying peer-to-peer
networks whose nodes come and go ("churn"). The library keeps an undirected
graph as a 0/1 adjacency matrix. It runs breadth-first searches on that matrix:
distance, shortest path, reachability, connectivity, smallest cycle and girth.
It also computes degree statistics and removes a vertex by trimming its row and
its column.

On top of the graph, a `Network` keeps two matrices. The first is the full
topology. The second is the sub-graph of the nodes that are live now, together
with a `labels` table that maps each live row back to its node.

Each node's life is a `NodeTimeline`, an array of `Session` intervals. A burn-in
comes first, then a fixed number of recorded sessions, each drawn as a downtime
followed by an uptime. A `NetworkChurn` holds one timeline per node and answers:
- which nodes are live at a time;
- the earliest final time of any node;
- the mean session statistics.

A `Message` floods from a random live source through the live part of the
network. It does this in ticks of 0.01 until a random destination holds it.

The remaining pieces are:
- `CommonGraphs`: builds path, cycle and complete graphs, and holds the
  Petersen graph;
- `Distribution`: turns a probability mass function into its cumulative (CDF)
  and complementary cumulative (CCDF) forms, in place.

Each source file becomes one Dafny module, in the form the C# code has:
- **Classes** (`Graph.AdjacencyMatrix`, `Networks.Network`,
  `Timelines.NodeTimeline`, `Churn.NetworkChurn`, `Messages.Message`,
  `Distributions.Distribution`) keep the source's fields: 2-D arrays, arrays of
  objects, and the rate. Their methods update those fields in place.
- **Loops** stay `while`/`for` loops. Each one is proved against a reference
  definition given as a pure function or predicate.
- **Reference definitions** live in their own modules:
  - `MatrixSpec`: the matrix as rows of integers, edges, degrees, the edge
    count, trimming, and restriction to a list of vertices;
  - `Reachability`: reachability within k steps, breadth-first levels, walks;
  - `BreadthFirst`, `ShortestPath`, `CycleSearch`: the loop invariants of the
    three kinds of search;
  - `Sessions`: pure, as the source's `Session` is.
- **Exceptions** become values of `Outcomes.Error`: `ArgumentException`,
  `IndexOutOfRangeException`, `NullReferenceException`, the overflow of a
  negative array size, and the plain `Exception` that `Message` throws. A
  method that may raise returns a `Result` or an `Outcome`.
- **Random numbers** are parameters. These are the `Draw` sequences of a
  timeline, the source row and destination draws of a message, and the status
  vector the churn reports at each tick. Running out of draws is the model's
  `Exhausted` error, and running out of statuses is `OutOfFuel`. Both stand in
  for loops that the source leaves unbounded.
- **Times** are exact reals.

The code and its unit tests disagree in three places. The model follows the
code:
- **`timeIsLive` is never true.** `NodeTimeline.timeIsLive` only ever tests
  sessions that end before the time asked, so it never answers true
  (`Timelines.NeverLive`). So `getStatusAtTime` reports every node down
  (`Churn.StatusNeverLive`). In that case a message never reaches a
  destination that is not among its first holders
  (`Messages.AllDeadNeverArrives`). The test that expects a live answer
  contradicts the code.
- **`averageDownTime` divides by the number of sessions.** It sums one gap
  fewer than there are sessions, then divides by the number of sessions
  (`Timelines.AveragesMeaning`). The test divides by one less.
- **`new NetworkChurn(0)` does not throw.** The constructor validates nothing
  (`Churn.NetworkChurn.Create`); a test expects an `ArgumentException`.

The code and its own documentation disagree once. The comment on
`smallestCycle` promises the shortest cycle through the start vertex. The code
stops at the first hit of its scan, and a hit in the next queue can come before
a hit in the current one. On the graph with edges 0-1, 0-2, 0-5, 1-3, 2-3 and
2-5, `smallestCycle(0)` returns 4 although 0, 2, 5, 0 is a cycle of three
edges. `CycleSearch.CycleNotShortest` proves this: the search returns the
value of its reference run `CycleRun`, and that run on this graph is 4. The
model follows the code.

The tests also call members that the library does not define: `getFirstEnd`,
`getFirstTime`, `getEarliestFirstTime` and `generateTimeline(up, down)`. These
are not modelled.

`Message` calls five members of `Network` that are not defined in
NetworkSimulation/Network.cs. They are modelled as follows:
- `CurrentOrder` and `FullOrder`: the orders of the two matrices;
- `getOldNodeLabel(j)`: `labels[j]`;
- `getNewNodeLabel(v)`: the position of `v` in `labels`, or -1, which is the
  `Array.IndexOf` lookup that `getCurrentDegree` makes;
- `isPathinCurrentNetwork(a, b)`: `isPath(a, b)` on the current matrix.

`NetworkChurn.getQuickestFinalTime` (NetworkSimulation/NetworkChurn.cs:44-48)
calls `getFinalTime()`, which NetworkSimulation/NodeTimeline.cs does not
define. It is read as the `finalTime` property (`Timelines.NodeTimeline.GetFinalTime`,
used by `Churn.NetworkChurn.FinalAt`).

These are assumptions.

## Model

| member | source | states |
|---|---|---|
| Sessions.NewSession | NetworkSimulation/Session.cs:47-56 | a session is built exactly when start < end, keeping both times; otherwise ArgumentException |
| Sessions.DurationPositive | NetworkSimulation/Session.cs:65-82 | the duration of an accepted session is positive, and the session is live at t iff start <= t <= start + duration, both ends included |
| Sessions.EndedNotLive | NetworkSimulation/NodeTimeline.cs:207-209 | a session that ends before t is not live at t |
| MatrixSpec.Zeros | NetworkSimulation/AdjacencyMatrix.cs:60-68 | the n x n matrix with every entry 0 |
| MatrixSpec.SetPairEffect | NetworkSimulation/AdjacencyMatrix.cs:94-95 | after an edge write both [v1,v2] and [v2,v1] hold the value, every other entry is unchanged, and symmetry is kept |
| MatrixSpec.RemoveUndoesAdd | NetworkSimulation/AdjacencyMatrix.cs:86-119 | removeEdge after addEdge of an absent edge gives the matrix back |
| MatrixSpec.AddEdgeCount | NetworkSimulation/AdjacencyMatrix.cs:86-96 | adding an absent edge between two distinct vertices of an undirected matrix raises numEdges by one |
| MatrixSpec.Trim | NetworkSimulation/AdjacencyMatrix.cs:543-564 | the trimmed matrix is square with one row fewer, and entry (a, b) comes from the original row and column that skip the removed ones |
| MatrixSpec.Restrict | NetworkSimulation/Network.cs:58-67 | the sub-matrix of the listed vertices: entry (a, b) is the full entry of the a-th and b-th listed vertex |
| MatrixSpec.TrimRestrict | NetworkSimulation/Network.cs:64 | trimming position p of a restricted matrix is the restriction to the list without its p-th vertex |
| MatrixSpec.RestrictAll | NetworkSimulation/Network.cs:25-26 | restricting to every vertex in order gives the matrix back |
| MatrixSpec.CountOnesCard | NetworkSimulation/AdjacencyMatrix.cs:428-442 | the counted degree is the number of positions of the row that hold 1 |
| MatrixSpec.HistogramTotal | NetworkSimulation/AdjacencyMatrix.cs:523-533 | the bins of the degree distribution add up to the number of vertices |
| MatrixSpec.EdgesNeedVertices | NetworkSimulation/AdjacencyMatrix.cs:351-357 | a matrix with an edge has a vertex 0 to start the search from |
| Reachability.LevelUnique | NetworkSimulation/AdjacencyMatrix.cs:205-233 | a vertex has at most one breadth-first level |
| Reachability.DistanceUnique | NetworkSimulation/AdjacencyMatrix.cs:196-238 | at most one answer meets getDistance's specification |
| Reachability.WalkWithin | NetworkSimulation/AdjacencyMatrix.cs:348-418 | a walk of n edges reaches its end within n steps |
| Reachability.WithinWalk | NetworkSimulation/AdjacencyMatrix.cs:348-418 | reaching v within k steps is witnessed by a walk of at most k edges |
| Reachability.LevelIsShortest | NetworkSimulation/AdjacencyMatrix.cs:196-238 | no walk to a vertex at level d has fewer than d edges |
| Reachability.ClosedHoldsWithin | NetworkSimulation/AdjacencyMatrix.cs:359-373 | a set that holds the start and is closed under edges holds everything reachable |
| BreadthFirst.Unvisited | NetworkSimulation/AdjacencyMatrix.cs:219-225 | one row scan appends exactly the unvisited neighbours, in increasing order |
| BreadthFirst.FullIffAll | NetworkSimulation/AdjacencyMatrix.cs:373 | a set of vertices has as many members as the graph iff it is all of them |
| ShortestPath.ParentLevel | NetworkSimulation/AdjacencyMatrix.cs:288-298 | the recorded parent of a vertex at level k + 1 is a neighbour at level k |
| ShortestPath.PathBackShortest | NetworkSimulation/AdjacencyMatrix.cs:274-284 | the path written back along parents is no longer than any walk to the destination |
| FirstDiscovery.FirstStateAdvance | NetworkSimulation/AdjacencyMatrix.cs:267-311 | one dequeue and row scan keeps each level dequeued in the dictionary order of its vertices' tree paths, and each recorded parent the neighbour whose tree path comes first among those dequeued on the level above |
| FirstDiscovery.TreePathLeast | NetworkSimulation/AdjacencyMatrix.cs:288-298 | with the parents of levels 1 to d fixed at first discovery, the tree path of a vertex on level j <= d comes first in dictionary order among all walks of j edges from the start into it |
| FirstDiscovery.TraceIsTreePath | NetworkSimulation/AdjacencyMatrix.cs:274-284 | following parents back from a vertex and reversing gives its tree path |
| FirstDiscovery.FirstFound | NetworkSimulation/AdjacencyMatrix.cs:274-284 | the path traced back once the destination is dequeued, read forwards, is the least shortest walk |
| FirstDiscovery.ShortestPathUnique | NetworkSimulation/AdjacencyMatrix.cs:248-312 | two answers that meet getShortestPath's contract are the same path, so the tie-break fixes the answer |
| CycleSearch.OddSpec | NetworkSimulation/AdjacencyMatrix.cs:153-157 | a neighbour waiting on the current level at the first closing level yields 2 depth - 1, at least 3 |
| CycleSearch.EvenSpec | NetworkSimulation/AdjacencyMatrix.cs:158-162 | a neighbour already queued for the next level at the first closing level yields 2 depth, at least 4 |
| CycleSearch.CycleExhausted | NetworkSimulation/AdjacencyMatrix.cs:182 | when the search runs dry no level closes a walk, and -1 is returned |
| CycleSearch.NoWitnessAtRoot | NetworkSimulation/AdjacencyMatrix.cs:137-142 | level 0 holds the start alone, so every cycle found has at least three edges |
| CycleSearch.CycleNotShortest | NetworkSimulation/AdjacencyMatrix.cs:121-183 | on the six-vertex graph with edges 0-1, 0-2, 0-5, 1-3, 2-3, 2-5, the search from vertex 0 returns exactly 4, which the level rule admits, although 0, 2, 5, 0 is a cycle of three edges |
| CycleSearch.FirstHitMeaning | NetworkSimulation/AdjacencyMatrix.cs:149-162 | the ascending scan of a row stops at the first column holding a neighbour outside visited that waits in either queue, and runs through the row exactly when there is none |
| CycleSearch.FirstHitIs | NetworkSimulation/AdjacencyMatrix.cs:149-162 | a hit with no hit before it is where the scan stops, and a row with no hit is scanned through |
| CycleSearch.CycleFromNext | NetworkSimulation/AdjacencyMatrix.cs:163-177 | a scan without a hit hands the search on to the next state: the rest of the current queue, or the next queue once the level is used up |
| CycleSearch.CycleFromSpec | NetworkSimulation/AdjacencyMatrix.cs:137-182 | the value of every run of the search meets the cycle specification |
| CycleSearch.CycleRunSpec | NetworkSimulation/AdjacencyMatrix.cs:137-182 | what the search from the start vertex returns meets the cycle specification |
| Graph.MatrixOf | NetworkSimulation/AdjacencyMatrix.cs:12 | the rows of the 2-D array as values, entry by entry |
| Graph.MinPositive | NetworkSimulation/AdjacencyMatrix.cs:324-339 | -1 iff no value is positive; otherwise the least positive value, which occurs in the list |
| Graph.AdjacencyMatrix.FromArray | NetworkSimulation/AdjacencyMatrix.cs:40-48 | a non-square array raises ArgumentException; a square one is wrapped as it is |
| Graph.AdjacencyMatrix.WithOrder | NetworkSimulation/AdjacencyMatrix.cs:56-72 | numVertices <= 0 raises ArgumentException; otherwise a fresh all-zero n x n matrix |
| Graph.AdjacencyMatrix.GraphCopy | NetworkSimulation/AdjacencyMatrix.cs:19-25 | a fresh square array with the same entries |
| Graph.AdjacencyMatrix.AddEdge | NetworkSimulation/AdjacencyMatrix.cs:86-96 | index < 0 or > Order raises ArgumentException, index == Order fails on the write, otherwise both directions become 1 and nothing else changes |
| Graph.AdjacencyMatrix.RemoveEdge | NetworkSimulation/AdjacencyMatrix.cs:109-119 | as AddEdge, with both directions set to 0 |
| Graph.AdjacencyMatrix.NumEdges | NetworkSimulation/AdjacencyMatrix.cs:576-590 | the number of entries equal to 1, halved |
| Graph.AdjacencyMatrix.GetDegree | NetworkSimulation/AdjacencyMatrix.cs:428-442 | node >= Order raises ArgumentOutOfRange, a negative node fails on the read, otherwise the number of neighbours |
| Graph.AdjacencyMatrix.MinDegree | NetworkSimulation/AdjacencyMatrix.cs:451-465 | at most every degree and equal to one of them (0 on an empty matrix) |
| Graph.AdjacencyMatrix.MaxDegree | NetworkSimulation/AdjacencyMatrix.cs:474-489 | at least every degree and equal to one of them (0 on an empty matrix) |
| Graph.AdjacencyMatrix.IsRegular | NetworkSimulation/AdjacencyMatrix.cs:497-513 | fails on an empty matrix; otherwise true iff every degree equals the degree of vertex 0 |
| Graph.AdjacencyMatrix.DegreeDistro | NetworkSimulation/AdjacencyMatrix.cs:523-533 | exactly one bin more than the largest degree, a single bin on an empty matrix, and bin k counts the vertices of degree k |
| Graph.AdjacencyMatrix.CountDegrees | NetworkSimulation/AdjacencyMatrix.cs:527-530 | the counting loop yields the degree histogram |
| Graph.AdjacencyMatrix.TrimArray | NetworkSimulation/AdjacencyMatrix.cs:543-564 | succeeds iff the row and column lie inside the matrix, except on a 1 x 1 matrix, where it succeeds iff the row or the column is 0 because no entry is copied; the matrix is then the trimmed one; an empty matrix overflows, other indices fail on a write and leave the matrix as it was |
| Graph.AdjacencyMatrix.CopyRowSkipping | NetworkSimulation/AdjacencyMatrix.cs:550-561 | one result row is the source row without the removed column, and no other row changes |
| Graph.AdjacencyMatrix.GetDistance | NetworkSimulation/AdjacencyMatrix.cs:196-238 | argument errors as in the source; otherwise the breadth-first level of the end vertex, or -1 iff it cannot be reached |
| Graph.AdjacencyMatrix.LevelSearch | NetworkSimulation/AdjacencyMatrix.cs:205-237 | the two-queue search returns the level of the end vertex, or -1 |
| Graph.AdjacencyMatrix.GetShortestPath | NetworkSimulation/AdjacencyMatrix.cs:248-312 | argument errors as in getDistance; [-1] iff the end cannot be reached; otherwise a walk from the end back to the start with distance + 1 entries which, read from the start, comes first in dictionary order among all shortest walks (the tie-break of parents fixed at first discovery) |
| Graph.AdjacencyMatrix.NoParents | NetworkSimulation/AdjacencyMatrix.cs:261-265 | a fresh parent array of -1 |
| Graph.AdjacencyMatrix.TreeSearch | NetworkSimulation/AdjacencyMatrix.cs:267-311 | the search with parents yields [-1] iff the end is unreachable, else a shortest path written backwards that, read forwards, is the least shortest walk in dictionary order |
| Graph.AdjacencyMatrix.FoundPath | NetworkSimulation/AdjacencyMatrix.cs:272-285 | once the destination is dequeued, the walk back along parents is a shortest path and, read forwards, the least shortest walk in dictionary order |
| Graph.AdjacencyMatrix.ScanAndAdopt | NetworkSimulation/AdjacencyMatrix.cs:288-298 | a row scan appends the unvisited neighbours and gives a parent to those without one |
| Graph.AdjacencyMatrix.TraceBack | NetworkSimulation/AdjacencyMatrix.cs:274-284 | following parents from a vertex at level d writes a walk of d + 1 vertices back to the start, each entry the recorded parent of the one before |
| Graph.AdjacencyMatrix.SmallestCycle | NetworkSimulation/AdjacencyMatrix.cs:130-183 | argument errors as in the source; otherwise the value of the search's reference run, which is -1 when no level closes a walk, else 2k + 1 or 2k + 2 for the first level k that closes an odd or an even one, the parity being the one the scan order meets first |
| Graph.AdjacencyMatrix.CycleLoop | NetworkSimulation/AdjacencyMatrix.cs:137-182 | returns the reference run: the first dequeued vertex whose scan hits decides, with 2 depth - 1 for a hit waiting in the current queue and 2 depth for one in the next queue; the value meets the cycle specification |
| Graph.AdjacencyMatrix.ScanForCycle | NetworkSimulation/AdjacencyMatrix.cs:149-169 | the hit returned is the first column of the ascending scan that holds an unvisited neighbour waiting in either queue; odd when it waits in the current queue, even when only in the next; with no hit the unvisited neighbours are appended in ascending order |
| Graph.AdjacencyMatrix.Girth | NetworkSimulation/AdjacencyMatrix.cs:322-340 | each vertex's entry is exactly what smallestCycle returns for it; the girth is the least positive of them, or -1; a girth found is at least 3 and meets the cycle specification of some vertex |
| Graph.AdjacencyMatrix.IsPath | NetworkSimulation/AdjacencyMatrix.cs:384-418 | false without edges; argument errors next; otherwise true iff the end is reachable from the start |
| Graph.AdjacencyMatrix.IsConnected | NetworkSimulation/AdjacencyMatrix.cs:348-374 | true iff there is an edge and every vertex is reachable from vertex 0 |
| CommonGraphs.Cycle | NetworkSimulation/CommonGraphs.cs:22-43 | a fresh matrix whose entries are exactly the ring on numNodes vertices; a negative size overflows |
| CommonGraphs.Path | NetworkSimulation/CommonGraphs.cs:46-63 | a fresh matrix whose entries are exactly the path graph |
| CommonGraphs.Clique | NetworkSimulation/CommonGraphs.cs:66-83 | a fresh matrix whose entries are exactly the complete graph |
| CommonGraphs.PathMatrix | NetworkSimulation/CommonGraphs.cs:46-63 | the path graph is undirected with no self-loop |
| CommonGraphs.CliqueMatrix | NetworkSimulation/CommonGraphs.cs:66-83 | the complete graph is undirected with no self-loop |
| CommonGraphs.CycleMatrix | NetworkSimulation/CommonGraphs.cs:22-43 | the ring is undirected |
| CommonGraphs.PathDegree | NetworkSimulation/CommonGraphs.cs:52-58 | the ends of a path have degree 1 and inner vertices degree 2 |
| CommonGraphs.PathEdges | NetworkSimulation/CommonGraphs.cs:46-63 | a path on n vertices has n - 1 edges |
| CommonGraphs.PathDistance | NetworkSimulation/CommonGraphs.cs:46-63 | on a path getDistance(0, v) is v |
| CommonGraphs.CycleDegree | NetworkSimulation/CommonGraphs.cs:30-37 | every vertex of a ring of three or more has degree 2 |
| CommonGraphs.CycleEdges | NetworkSimulation/CommonGraphs.cs:22-43 | a ring of three or more vertices has n edges |
| CommonGraphs.CliqueDegree | NetworkSimulation/CommonGraphs.cs:72-79 | every vertex of the complete graph has degree n - 1 |
| CommonGraphs.CliqueEdges | NetworkSimulation/CommonGraphs.cs:66-83 | the complete graph has n(n - 1)/2 edges |
| CommonGraphs.PetersonShape | NetworkSimulation/CommonGraphs.cs:11-20 | the Petersen matrix is undirected, 10 x 10, 3-regular, with no self-loop and 15 edges |
| Networks.Kept | NetworkSimulation/Network.cs:46-55 | the labels are at most as many as the entries passed, and each is one of their indices |
| Networks.KeptMembers | NetworkSimulation/Network.cs:46-55 | x is a label iff x is the index of a live entry |
| Networks.KeptSorted | NetworkSimulation/Network.cs:46-55 | the labels are strictly increasing |
| Networks.KeptAllLive | NetworkSimulation/Network.cs:46-55 | with every node live the labels are 0, 1, ..., n - 1 |
| Networks.SurvivorsLive | NetworkSimulation/Network.cs:60-63 | a live entry leaves the surviving nodes unchanged |
| Networks.SurvivorsDead | NetworkSimulation/Network.cs:62-66 | trimming a dead node at its index less the number trimmed removes exactly that node from the current matrix |
| Networks.AllLiveRestoresFull | NetworkSimulation/Network.cs:37-68 | an all-live status as long as the order gives back the full matrix and labels 0..n-1 |
| Networks.CurrentMatchesLabels | NetworkSimulation/Network.cs:37-68 | with at most one status per node the update succeeds and current[a][b] is full[labels[a]][labels[b]] |
| Networks.DeadBeyondOrder | NetworkSimulation/Network.cs:60-66 | a dead entry past the order asks trimArray for a row the current matrix lacks, and the update fails there |
| Networks.TrimFailed | NetworkSimulation/Network.cs:64 | a refused trim happens only past the order, and the current matrix is already final |
| Networks.IndexOf | NetworkSimulation/Network.cs:102 | -1 iff x is absent; otherwise the first position holding x |
| Networks.IndexOfSorted | NetworkSimulation/Network.cs:102 | in strictly increasing labels the lookup finds the one position of a label |
| Networks.ZeroLabelsLookup | NetworkSimulation/Network.cs:27 | before any update the labels are all zero, so only node 0 is found |
| Networks.Network.Create | NetworkSimulation/Network.cs:23-28 | a non-square array raises ArgumentException; otherwise both matrices wrap the caller's array and labels are n zeros |
| Networks.Network.UpdateStatus | NetworkSimulation/Network.cs:37-68 | the full matrix is unchanged, the labels are the live indices in order, the current matrix is the full one restricted to the surviving nodes, and the outcome is the failure of the first dead entry past the order, if any |
| Networks.Network.TrimDead | NetworkSimulation/Network.cs:58-67 | the trimming loop leaves the full matrix restricted to the surviving nodes |
| Networks.Network.TrimOne | NetworkSimulation/Network.cs:62-66 | one trim keeps the loop invariant or ends the update with its failure |
| Networks.Network.LiveLabels | NetworkSimulation/Network.cs:46-55 | a fresh array of the live indices in ascending order |
| Networks.Network.OldNodeLabel | NetworkSimulation/Message.cs:31 | labels[j], or IndexOutOfRange outside the array |
| Networks.Network.IsPathInCurrentNetwork | NetworkSimulation/Message.cs:46 | isPath's answer on the current matrix |
| Networks.Network.GetCurrentDegree | NetworkSimulation/Network.cs:100-108 | -1 for a node that is not a label; otherwise the current degree at the node's first position in the labels |
| Networks.Network.IsCurrentNetworkConnected | NetworkSimulation/Network.cs:76-79 | isConnected of the current matrix |
| Networks.Network.GetFullDegree | NetworkSimulation/Network.cs:87-90 | getDegree of the full matrix in all four cases: ArgumentOutOfRange from the order up, IndexOutOfRange for a negative node on a non-empty matrix, 0 for a negative node on an empty one, and the full degree otherwise |
| Networks.Network.GetDistroFull | NetworkSimulation/Network.cs:118-121 | the degree histogram of the full matrix, with exactly one bin more than its largest degree and a single bin when it is empty |
| Networks.Network.GetDistroCurrent | NetworkSimulation/Network.cs:131-134 | the degree histogram of the current matrix, with exactly one bin more than its largest degree and a single bin when it is empty, as after an all-dead status |
| Messages.ReachedMembers | NetworkSimulation/Message.cs:61-72 | j is found from row a iff it is not a holder, is listed, and isPath reaches it |
| Messages.GatheredNext | NetworkSimulation/Message.cs:59-74 | visiting holder i adds what the scan from i finds; a non-holder adds nothing |
| Messages.GatheredBound | NetworkSimulation/Message.cs:61 | only full indices below the full order are ever gathered |
| Messages.GatheredAdd | NetworkSimulation/Message.cs:59-74 | gathering from one more holder adds exactly what its scan finds |
| Messages.StepMeaning | NetworkSimulation/Message.cs:56-78 | a node joins in a tick iff it is live, not a holder, and isPath reaches it from some live holder; holders are never lost |
| Messages.AllDeadStep | NetworkSimulation/Message.cs:56-78 | a tick in which no node is live adds no holder |
| Messages.TicksNext | NetworkSimulation/Message.cs:53-79 | one more successful tick extends the run |
| Messages.TraceGrows | NetworkSimulation/Message.cs:76-78 | the holder set only grows along the run |
| Messages.HeldAtOnce | NetworkSimulation/Message.cs:53 | a destination among the first holders is reached after no tick |
| Messages.AllDeadNeverArrives | NetworkSimulation/Message.cs:53-79 | while no node is live a returning run has no tick, so the destination was a first holder |
| Messages.Message.constructor | NetworkSimulation/Message.cs:17-22 | stores the network and the start time |
| Messages.Message.ScanFrom | NetworkSimulation/Message.cs:43-48 | succeeds iff no isPath call from row a to a listed non-holder fails, and then collects exactly the listed non-holders that isPath reaches; otherwise the error of a failing call |
| Messages.ScanErrorKinds | NetworkSimulation/Message.cs:43-48 | a scan fails only with isPath's ArgumentException or IndexOutOfRange |
| Messages.Message.Spread | NetworkSimulation/Message.cs:59-74 | succeeds iff no scan from a holder fails, and then collects what the scans from all holders find; otherwise the error of a failing scan |
| Messages.Message.Tick | NetworkSimulation/Message.cs:56-78 | the full matrix is unchanged; the tick succeeds iff the status update succeeds and no scan of the refreshed network fails, and then yields the next holder set; otherwise the update's failure or a scan's error |
| Messages.TickErrorKinds | NetworkSimulation/Message.cs:56-78 | a tick fails only with ArgumentException, IndexOutOfRange or the overflow of an empty trim |
| Messages.Message.DrawEnd | NetworkSimulation/Message.cs:32-35 | the destination is the first draw that differs from the source, every earlier draw being the source; Exhausted iff every draw equals it |
| Messages.Message.Flood | NetworkSimulation/Message.cs:50-81 | the full matrix is unchanged and the loop is a run of successful ticks from the first holders; it succeeds iff the last holders include the destination, with 0.01 per tick; otherwise OutOfFuel when the statuses ran out, or the error of the tick that failed |
| Messages.FloodDeterminate | NetworkSimulation/Message.cs:50-81 | from the same first holders and statuses the run is determined, and so is the delay |
| Messages.Message.GetMessageDelay | NetworkSimulation/Message.cs:25-82 | the full matrix is unchanged; NotEnoughNodes iff fewer than two live nodes; a pick past the labels raises IndexOutOfRange; the source is labels[pick], Exhausted iff every destination draw equals it, and otherwise the destination is the first different draw; a failing first scan gives its error, and otherwise the flood runs from what the source reaches, with the outcomes of Flood |
| Timelines.BurnIn | NetworkSimulation/NodeTimeline.cs:65-71 | the burn-in ends with an end time at or after the base time, or runs out of draws |
| Timelines.Intervals | NetworkSimulation/NodeTimeline.cs:73-79 | the recording loop meets count intervals, the first being the burn-in's last, unless the draws run out |
| Timelines.IntervalsLinked | NetworkSimulation/NodeTimeline.cs:77-78 | each interval starts a downtime after the previous ends and lasts an uptime |
| Timelines.RecordOutcomeMeaning | NetworkSimulation/NodeTimeline.cs:73-79 | the loop fails at the first interval the Session constructor refuses |
| Timelines.RecordSlotsMeaning | NetworkSimulation/NodeTimeline.cs:73-79 | the accepted intervals up to the first refused one are stored in order |
| Timelines.GenerateSucceeds | NetworkSimulation/NodeTimeline.cs:61-80 | a successful generation fills every slot with a valid session, the first ending at or after the base time, in order without overlap when no downtime is negative |
| Timelines.ZeroBaseFails | NetworkSimulation/NodeTimeline.cs:65-75 | with base time 0 the first session is (0, 0) and generation raises ArgumentException |
| Timelines.ZeroUpFails | NetworkSimulation/NodeTimeline.cs:73-79 | a non-positive uptime among those recorded makes generation fail |
| Timelines.FinalTime | NetworkSimulation/NodeTimeline.cs:23-29 | the end of the last slot; an empty timeline or an unset last slot fails |
| Timelines.FinalIsLatest | NetworkSimulation/NodeTimeline.cs:23-29 | after a successful generation the final time is the latest end |
| Timelines.ScanNeverLive | NetworkSimulation/NodeTimeline.cs:207-211 | the scan only tests ended sessions, so it never reports live |
| Timelines.NeverLive | NetworkSimulation/NodeTimeline.cs:195-215 | timeIsLive never answers true, and on filled slots at a non-negative time it answers false |
| Timelines.SpanSplits | NetworkSimulation/NodeTimeline.cs:222-238 | the durations and the gaps add up to the span from first start to last end |
| Timelines.AveragesMeaning | NetworkSimulation/NodeTimeline.cs:222-238 | the average uptime is positive, and the two averages added and multiplied by the number of sessions give the span from the first start to the last end |
| Timelines.NodeTimeline.Init | NetworkSimulation/NodeTimeline.cs:43-44 | base time set and numToTrack empty slots |
| Timelines.NodeTimeline.Create | NetworkSimulation/NodeTimeline.cs:39-48 | ArgumentException unless numToTrack > 0 and earliestTime >= 0; otherwise empty slots at that base time |
| Timelines.NodeTimeline.Generate | NetworkSimulation/NodeTimeline.cs:61-80 | the outcome and the slots are those of the burn-in and the recording |
| Timelines.NodeTimeline.BurnInLoop | NetworkSimulation/NodeTimeline.cs:65-71 | the burn-in loop computes BurnIn |
| Timelines.NodeTimeline.Record | NetworkSimulation/NodeTimeline.cs:73-79 | the recording loop computes its outcome and slots |
| Timelines.NodeTimeline.TimeIsLiveAt | NetworkSimulation/NodeTimeline.cs:195-215 | timeIsLive as written |
| Timelines.NodeTimeline.GetFinalTime | NetworkSimulation/NodeTimeline.cs:23-29 | the finalTime getter |
| Timelines.NodeTimeline.AverageUpTime | NetworkSimulation/NodeTimeline.cs:222-229 | summed durations over the number of sessions |
| Timelines.NodeTimeline.AverageDownTime | NetworkSimulation/NodeTimeline.cs:231-238 | summed gaps over the number of sessions |
| Churn.StatusMeaning | NetworkSimulation/NetworkChurn.cs:33-40 | the status vector has one entry per node, each that node's timeIsLive; a failure is some node's failure |
| Churn.StatusNeverLive | NetworkSimulation/NetworkChurn.cs:33-40 | as written, no node is ever reported live |
| Churn.QuickestIsMinimum | NetworkSimulation/NetworkChurn.cs:42-52 | the running minimum is the least final time, and it is one of them |
| Churn.SumOkIff | NetworkSimulation/NetworkChurn.cs:54-72 | the sum of averages succeeds iff every node's average does |
| Churn.MeanBetween | NetworkSimulation/NetworkChurn.cs:54-72 | the mean lies between the least and the greatest node average |
| Churn.ChurnSucceeds | NetworkSimulation/NetworkChurn.cs:24-31 | generateChurn succeeds iff there is no node, or the timelines are accepted and every generation succeeds; it then fills every slot |
| Churn.ChurnExact | NetworkSimulation/NetworkChurn.cs:24-31 | the way the loop stops fixes its outcome and how many slots it fills |
| Churn.NetworkChurn.Create | NetworkSimulation/NetworkChurn.cs:18-21 | no validation: any count that is not negative gives that many unset slots |
| Churn.NetworkChurn.GetStatusAtTime | NetworkSimulation/NetworkChurn.cs:33-40 | the status vector, every entry false |
| Churn.NetworkChurn.GetQuickestFinalTime | NetworkSimulation/NetworkChurn.cs:42-52 | the running minimum of the final times; node 0 must exist |
| Churn.NetworkChurn.GetAverage | NetworkSimulation/NetworkChurn.cs:54-72 | the mean of the per-node averages, NaN with no node |
| Churn.NetworkChurn.GenerateChurn | NetworkSimulation/NetworkChurn.cs:24-31 | each slot reached holds a fresh timeline generated from its own draws; the loop stops at the first failure |
| Distributions.PrefixSumsAt | NetworkSimulation/Distribution.cs:42-43 | entry i of the cumulative form is the sum of the first i + 1 masses |
| Distributions.PrefixSumsInverse | NetworkSimulation/Distribution.cs:38-46 | the first total is the first mass and consecutive differences give the masses back |
| Distributions.PrefixSumsMonotone | NetworkSimulation/Distribution.cs:38-46 | with no negative mass the CDF never decreases and ends at the total |
| Distributions.ComplementInverse | NetworkSimulation/Distribution.cs:49-57 | the complement of the complement is the CDF |
| Distributions.CcdfOfPmf | NetworkSimulation/Distribution.cs:49-57 | for a mass function of total 1 the CCDF lies in [0, 1], never increases and ends at 0 |
| Distributions.Distribution.constructor | NetworkSimulation/Distribution.cs:11 | the rate starts at 0.5 |
| Distributions.Distribution.SetRate | NetworkSimulation/Distribution.cs:29-35 | a rate <= 0 raises ArgumentException and keeps the rate; any other becomes the rate |
| Distributions.Distribution.GetCDF | NetworkSimulation/Distribution.cs:38-46 | in place, the array becomes the running totals of the masses |
| Distributions.Distribution.GetCCDF | NetworkSimulation/Distribution.cs:49-57 | in place, the array becomes one minus the running totals |

## Left out

- The experiment drivers NetworkSimulation/Simulations.cs, Program.cs and TestClass.cs are not part of this model. They are console output, file writes and sampling loops.
- The concrete distributions (Paretto, Exponential, ContinuousUniform, Constant) and their MersenneTwister sampling are not part of this model. Their samples are the `Draw` sequences. Their mass functions use floating-point powers.
- `getPMF` is abstract: `GetCDF` and `GetCCDF` take the array it would return. The `hSize` argument only reaches `getPMF`.
- `CommonGraphs.GuntherHartnell` is not part of this model. Its clique count comes from a floating-point square root and ceiling.
- `ToString`, `displayNetwork` and `displayTimeline` are left out: they only format console output.
- Floating-point rounding is not modelled. Times, rates and masses are exact reals, including `curr_time += 0.01`.
- `System.Random` in `Message` is replaced by parameters:
  - the source row `pick`;
  - the destination draws `endDraws`;
  - one status vector per tick in place of `churn.getStatusAtTime`.
- Messages.Message.GetMessageDelay: the source loops forever when the holders never reach the destination; the model stops with OutOfFuel once the given statuses are used up. It also stops with Exhausted when every destination draw equals the source.
- Messages.Message.GetMessageDelay: the stored churn is not consulted. The statuses it would report are given, so the link between `getStatusAtTime` and the flood is stated separately (`Churn.StatusNeverLive`, `Messages.AllDeadNeverArrives`).
- Messages.Message.Spread: `foreach` over a `HashSet` has no defined order. The model visits holders in ascending order. Order only changes which `isPath` failure is reported first, never the set gathered.
- Timelines.NodeTimeline.Generate: one method stands for generateUUTimeline, generatePETimeline, generatePPTimeline and generateEETimeline. They differ only in the distributions the draws come from.
- Timelines.BurnIn: a burn-in that never passes the base time does not terminate in the source; the model ends it with Exhausted when the draws run out.
- Churn.NetworkChurn.GetAverage: one method stands for getAverageUpTime and getAverageDownTime, selected by a flag.
- Churn.NetworkChurn.GenerateChurn: the outcomes of the individual generations are a ghost result. The contract is stated through them and `Churn.ChurnExact`.
- Graph.AdjacencyMatrix.Girth: the values the unit tests expect (Path -1, Clique 3, Cycle n, Petersen 5) are not proved. The contract ties the girth to what smallestCycle returns for every vertex.
- CommonGraphs.PetersonShape: the girth of the Petersen graph is not proved.
- The unit tests are evidence, not part of the model.
