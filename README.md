# Shortest path through a line arrangement

This project models the shortest-path resolver of the NetTopologySuite offset-curve
builder. It covers the class `ShortestPath` (the linear-scan variant) and its per-vertex
search record `Node`, and proves what the resolver promises.

**Building the graph.**
- The resolver takes line strings, each an ordered sequence of coordinates.
- It builds a planar edge graph from them. Each non-zero-length segment adds two opposite half-edges.

**Preparing the search.**
- For each vertex it creates one record, holding:
  - a distance, infinite at first;
  - a mark;
  - a back-pointer to the nearest record on the path so far.
- The start record gets distance zero.

**Running the search.** This is Dijkstra's algorithm with a linear scan for the next record:
- Commit the current record.
- Relax every neighbour found walking the half-edge ring around it. A neighbour is lowered only when the new distance is strictly smaller.
- Pick the uncommitted record of least distance. On ties, the scan keeps the first record it meets.
- Stop as soon as the picked record is the end.

**Producing the result.**
- Starting at the end record, the resolver follows the back-pointers to the start.
- It collects the coordinates into a line, dropping any coordinate equal to the one before it.

**The main result.** `Resolves` (in `result_spec.dfy`) states what the resolver delivers for a start and an end coordinate. The public entry point `FindPath`, and `GetResult` on a fresh resolver, are proved to satisfy it:

| case | result |
|---|---|
| the start is not a vertex | `StartNotFound` |
| otherwise: the end is not a vertex, or equals the start | `EndNotFound` |
| otherwise: the end cannot be reached from the start | `Unreachable` |
| otherwise | a line that, read backwards, is a walk from start to end through the graph that meets no coordinate twice, with summed edge weight no greater than that of any walk from start to end |

Modelling decisions:
- **Edge lengths.** Euclidean edge lengths are an abstract non-negative weight function `w` on pairs of coordinates, with exact `real` arithmetic.
- **Distances.** A record's double distance is `Dist`: a finite value or `Inf`. `Plus` and `Less` follow IEEE rules for infinity.
- **Node table.** The records are a class `Nodes.NodeTable`. Its per-record mutable properties (`Distance`, `IsMarked`, `NearestOnPath`) are arrays indexed by record, which the search updates in place. A back-pointer is a record index.
- **Graph.** The edge graph is a value `EdgeGraph.Graph`:
  - each vertex maps to the destinations of its half-edge ring, in insertion order;
  - the vertices are kept in insertion order too.

  `GetVertexEdges` is `VertexEdges`: one half-edge per vertex, in vertex order.
- **Registry and search state.** The coordinate-to-record dictionary is a `map<Coord, nat>`. The set of uncommitted records is a `set<nat>`.
- **Set iteration order.** `Nearest` iterates over the set in an order that is not the model's to fix. The model takes any order (`:|`) and proves that the first minimum in that order is returned.
- **Exceptions.** The source's exceptions become named errors:
  - `ArgumentException` from a second `BuildNodes` over a filled dictionary → `DuplicateVertex`;
  - `NullReferenceException` on the start record → `StartNotFound`;
  - `NullReferenceException` on the end record → `EndNotFound`;
  - `NullReferenceException` on a missing back-pointer in `tracePath` → `Unreachable`.

Behaviours of the code the model follows:
- **Line direction.** The line is not reversed: it runs from the end coordinate to the start coordinate, in the order `tracePath` collects it. `IsShortestLine` therefore reads it backwards.
- **End equal to start.** When end equals start, the `else if` in `BuildNodes` (ShortestPath.cs:288-296) never sets the end record. The search then fails exactly as for an absent end.
- **Result caching.** `GetResult` caches a successful result. Later calls return it whatever start and end they pass.
- **Rerun after a failure.** On a graph with at least one vertex, a failed computation leaves the dictionary filled. The next `GetResult` then fails in `BuildNodes` with `DuplicateVertex`. On a graph with no vertex the dictionary stays empty, and a later `GetResult` computes anew.
- **Unreachable empty-set break.** The `currentNode == null` break (ShortestPath.cs:218-221) cannot be reached when both records exist. The end record stays uncommitted until it is picked, so the uncommitted set is never empty before that. The model's search loop has no such branch. `Visit` requires `uncommitted != {cur}` and proves that a next record exists.
- **Unreachable end.** An end that cannot be reached is still picked, with infinite distance. Its missing back-pointer then makes the trace fail.

## Model

| member | source | states |
|---|---|---|
| Resolver.ShortestPath.FindPath | src/NetTopologySuite.Lab/OffsetCurve/ShortestPath.cs:39-44 | for the graph of the given line strings, the result is the start/end failure, the unreachable failure or a shortest line that meets no coordinate twice, exactly as `Resolves` cases them |
| Resolver.ShortestPath.constructor | src/NetTopologySuite.Lab/OffsetCurve/ShortestPath.cs:58-62 | a new resolver has an empty graph, an empty registry, no start or end record and no cached result |
| Resolver.ShortestPath.Add | src/NetTopologySuite.Lab/OffsetCurve/ShortestPath.cs:98-113 | adding a line string adds one edge per consecutive coordinate pair to the graph and keeps it well formed |
| Resolver.ShortestPath.GetResult | src/NetTopologySuite.Lab/OffsetCurve/ShortestPath.cs:121-126 | a cached result is returned unchanged and nothing else changes; otherwise a first computation resolves start and end as `Resolves` states and leaves the dictionary holding every vertex (so non-empty exactly when the graph has a vertex) with the start and end records located, and a rerun after a failure fails with the duplicate-key error, keeping every key; only a success is cached |
| Resolver.ShortestPath.ComputeResult | src/NetTopologySuite.Lab/OffsetCurve/ShortestPath.cs:128-135 | over an empty registry, the outcome satisfies `Resolves` for the current graph, and the registry then holds every vertex and the start and end records are located; over a filled one, it is the duplicate-key failure and no key is lost; the result field is set only on success |
| Resolver.ShortestPath.Resolve | src/NetTopologySuite.Lab/OffsetCurve/ShortestPath.cs:131-134 | once the records are built, search plus trace plus line building satisfies `Resolves` |
| Resolver.ShortestPath.BuildNodes | src/NetTopologySuite.Lab/OffsetCurve/ShortestPath.cs:280-297 | fails with the duplicate-key error exactly when the registry was already filled, keeping its keys; otherwise there is one fresh record per vertex, the registry maps every vertex to its record and is non-empty exactly when the graph has a vertex, start and end records are located, and the start record has distance zero and all others infinity |
| Resolver.RegisterNodes | src/NetTopologySuite.Lab/OffsetCurve/ShortestPath.cs:280-297 | records follow the vertex edges in order, registration succeeds exactly on an empty registry, and then the registry, start and end are located as the source locates them |
| Resolver.RegisterLoop | src/NetTopologySuite.Lab/OffsetCurve/ShortestPath.cs:283-297 | the registration loop maps each vertex to its record, takes the start as the record at the start coordinate, takes the end only when it differs from the start, and gives distance zero to the start record and infinity to all others |
| Resolver.RegisteredKeys | src/NetTopologySuite.Lab/OffsetCurve/ShortestPath.cs:287 | registering the first i vertices keeps old keys and adds exactly those vertices |
| Resolver.RegisteredIndex | src/NetTopologySuite.Lab/OffsetCurve/ShortestPath.cs:287 | with distinct vertices, each registered coordinate maps to the record at its own index, and the next vertex is not yet registered, so `Dictionary.Add` never throws on a first run |
| Resolver.Position | src/NetTopologySuite.Lab/OffsetCurve/ShortestPath.cs:288-296 | the located record holds the sought coordinate; no record is located only when no vertex has it |
| Resolver.RegisteredIndexed | src/NetTopologySuite.Lab/OffsetCurve/ShortestPath.cs:282-297 | after a full registration every vertex is a key mapping to its own record, and the registry is non-empty exactly when the graph has a vertex |
| Resolver.PositionsLocated | src/NetTopologySuite.Lab/OffsetCurve/ShortestPath.cs:288-296 | the start and end records found are the vertices at those coordinates, and they are distinct records |
| Resolver.RegisteredAll | src/NetTopologySuite.Lab/OffsetCurve/ShortestPath.cs:282-297 | a full registration is a registry whose start and end satisfy the location conditions above |
| Resolver.RegistryValues | src/NetTopologySuite.Lab/OffsetCurve/ShortestPath.cs:205-207 | the registry's values are exactly all records, so the uncommitted set starts as every record |
| Resolver.NeighboursRegistered | src/NetTopologySuite.Lab/OffsetCurve/ShortestPath.cs:241 | every ring destination is a registered coordinate, so the dictionary lookup never fails |
| Resolver.ShortestPath.FindShortestPath | src/NetTopologySuite.Lab/OffsetCurve/ShortestPath.cs:201-232 | fails for a missing start, else for a missing end, and otherwise stops with the end picked but not yet committed, its distance at most the length of every walk from the start, and the back-pointers forming a chain of committed records |
| Resolver.Search | src/NetTopologySuite.Lab/OffsetCurve/ShortestPath.cs:204-231 | from an initial table, the search fails exactly when there is no end record, and otherwise reaches the finished state of Dijkstra's invariant |
| Resolver.SearchTo | src/NetTopologySuite.Lab/OffsetCurve/ShortestPath.cs:210-229 | the search loop stops exactly when the end is picked, in the finished state: the end's distance is at most the length of every walk from the start |
| Resolver.Visit | src/NetTopologySuite.Lab/OffsetCurve/ShortestPath.cs:212-217 | one round marks exactly the current record, removes it from the uncommitted set, leaves the distances and back-pointers as the relaxation of its uncommitted neighbours, and picks a next record that keeps Dijkstra's invariant |
| Resolver.UpdateNeighbours | src/NetTopologySuite.Lab/OffsetCurve/ShortestPath.cs:234-255 | the new distances and back-pointers are the strict relaxation of the uncommitted neighbours of the current record, and nothing else changes |
| Resolver.RelaxEdge | src/NetTopologySuite.Lab/OffsetCurve/ShortestPath.cs:242-250 | one neighbour takes the current distance plus the edge weight and the current record as predecessor exactly when it is uncommitted and the sum is strictly below its distance; nothing else changes |
| Resolver.FindNode | src/NetTopologySuite.Lab/OffsetCurve/ShortestPath.cs:257-260 | the record found for a registered coordinate is the vertex at that coordinate |
| Resolver.Nearest | src/NetTopologySuite.Lab/OffsetCurve/ShortestPath.cs:267-278 | returns nothing exactly for an empty set; otherwise some member of the set such that no member has a smaller distance and none met before it in the iteration order has the same distance |
| Resolver.RecordAt | src/NetTopologySuite.Lab/OffsetCurve/ShortestPath.cs:223 | two records have equal coordinates exactly when they are the same record, so the end test by coordinate is a test for the end record |
| Resolver.TraceStart | src/NetTopologySuite.Lab/OffsetCurve/ShortestPath.cs:143-145 | the trace starts with the end record alone |
| Resolver.TraceBack | src/NetTopologySuite.Lab/OffsetCurve/ShortestPath.cs:146-150 | following a back-pointer extends the traced walk, keeps its length equal to the distance difference and its records distinct, and goes to an earlier committed record, so the trace terminates |
| Resolver.TraceUnreached | src/NetTopologySuite.Lab/OffsetCurve/ShortestPath.cs:146-149 | a missing back-pointer before the start is met only when the end's distance is infinite |
| Resolver.TraceEnd | src/NetTopologySuite.Lab/OffsetCurve/ShortestPath.cs:146 | when the trace reaches the start, its reversed walk has length equal to the end's distance and no walk from start to end is shorter |
| Resolver.TracePath | src/NetTopologySuite.Lab/OffsetCurve/ShortestPath.cs:141-153 | fails exactly when the end is unreachable; otherwise returns distinct records from end to start, each the predecessor of the one before, whose reverse is a shortest walk from start to end |
| Resolver.RankSnoc | src/NetTopologySuite.Lab/OffsetCurve/ShortestPath.cs:146-150 | stepping back to a record ranked before the current one never revisits a traced record |
| Resolver.BuildLine | src/NetTopologySuite.Lab/OffsetCurve/ShortestPath.cs:155-163 | the line is the records' coordinates in order, added with repeated neighbours dropped |
| Resolver.RecordCoords | src/NetTopologySuite.Lab/OffsetCurve/Node.cs:22-25 | a record's coordinate is its vertex's coordinate |
| Resolver.ChainNoRepeats | src/NetTopologySuite.Lab/OffsetCurve/ShortestPath.cs:157-161 | a back-pointer chain never repeats a coordinate between neighbours, so the no-repeat add drops nothing |
| Resolver.EndBound | src/NetTopologySuite.Lab/OffsetCurve/ShortestPath.cs:223-226 | when the search stops, the end's distance is finite and at most the length of every coordinate walk from start to end |
| Resolver.TracedLine | src/NetTopologySuite.Lab/OffsetCurve/ShortestPath.cs:133-134 | the line built from a traced back-chain of distinct records is a shortest line from the start coordinate to the end coordinate that meets no coordinate twice |
| Resolver.MissingResolves | src/NetTopologySuite.Lab/OffsetCurve/ShortestPath.cs:212 | a missing start record is the start failure and a missing end record the end failure, as `Resolves` cases them |
| Resolver.UnreachableResolves | src/NetTopologySuite.Lab/OffsetCurve/ShortestPath.cs:146-149 | an infinite end distance after the search means there is no walk from start to end |
| Resolver.FoundResolves | src/NetTopologySuite.Lab/OffsetCurve/ShortestPath.cs:133-134 | a traced shortest back-chain resolves to the success `Resolves` states |
| Resolver.TraceResult | src/NetTopologySuite.Lab/OffsetCurve/ShortestPath.cs:133-134 | after a finished search, tracing and building the line satisfies `Resolves` |
| Nodes.NodeTable.constructor | src/NetTopologySuite.Lab/OffsetCurve/Node.cs:15-20 | one fresh record per half-edge: its coordinate is the half-edge's origin, unmarked, with no back-pointer and the double default distance zero |
| Nodes.NodeTable.SetMark | src/NetTopologySuite.Lab/OffsetCurve/Node.cs:40-45 | sets the mark of one record and of no other |
| Nodes.NodeTable.SetDistance | src/NetTopologySuite.Lab/OffsetCurve/Node.cs:20 | sets the distance of one record and of no other |
| Nodes.NodeTable.SetNearestOnPath | src/NetTopologySuite.Lab/OffsetCurve/Node.cs:47 | sets the back-pointer of one record and of no other |
| Nodes.NodeTable.CompareTo | src/NetTopologySuite.Lab/OffsetCurve/Node.cs:29-32 | orders records by ascending distance; a missing record compares as positive infinity, so every finite distance is below it |
| Nodes.Compare | src/NetTopologySuite.Lab/OffsetCurve/Node.cs:31 | the double comparison is negative, zero or positive exactly as the first distance is below, level with or above the second |
| Nodes.CompareOrder | src/NetTopologySuite.Lab/OffsetCurve/Node.cs:29-32 | the record order is antisymmetric, transitive and total |
| Nodes.LessEqFacts | src/NetTopologySuite.Lab/OffsetCurve/ShortestPath.cs:244-246 | distances form a total preorder, and adding a non-negative edge length never lowers a distance |
| EdgeGraph.EmptyValid | src/NetTopologySuite.Lab/OffsetCurve/ShortestPath.cs:61 | the new graph is well formed |
| EdgeGraph.AddEdge | src/NetTopologySuite.Lab/OffsetCurve/ShortestPath.cs:109-111 | the edges become the old ones plus the segment in both directions, and the vertices the old ones plus its ends; a zero-length segment changes nothing; old vertex order is kept and the graph stays well formed |
| EdgeGraph.AddSegmentsEdges | src/NetTopologySuite.Lab/OffsetCurve/ShortestPath.cs:105-112 | after adding a line string's first k coordinates, the edges are the old ones plus exactly its non-zero-length consecutive pairs, both ways |
| EdgeGraph.AddSegmentsVertices | src/NetTopologySuite.Lab/OffsetCurve/ShortestPath.cs:105-112 | after adding a line string's first k coordinates, the vertices are the old ones plus exactly the ends of its non-zero-length segments |
| EdgeGraph.VertexEdges | src/NetTopologySuite.Lab/OffsetCurve/ShortestPath.cs:282 | one representative half-edge per vertex, in vertex order, leaving that vertex |
| EdgeGraph.RepresentativeIsEdge | src/NetTopologySuite.Lab/OffsetCurve/ShortestPath.cs:236 | a record's half-edge is an edge of the graph, so its ring can be walked |
| EdgeGraph.RingDests | src/NetTopologySuite.Lab/OffsetCurve/ShortestPath.cs:238-254 | walking the ring from a half-edge meets each neighbour of its origin exactly once, and nothing else |
| EdgeGraph.VertexHasNeighbour | src/NetTopologySuite.Lab/OffsetCurve/ShortestPath.cs:217-221 | a graph with a vertex has at least two, so after committing the start another record is left to pick |
| SearchSpec.RelaxNext | src/NetTopologySuite.Lab/OffsetCurve/ShortestPath.cs:241-250 | one ring step lowers a neighbour's distance and back-pointer exactly when it is uncommitted and the path through the current record is strictly shorter |
| SearchSpec.RelaxedAll | src/NetTopologySuite.Lab/OffsetCurve/ShortestPath.cs:239-254 | once the whole ring is walked, the table is the relaxation of every neighbour of the current record |
| SearchSpec.InitialInv | src/NetTopologySuite.Lab/OffsetCurve/ShortestPath.cs:209 | the initial table, with only the start at distance zero, satisfies Dijkstra's invariant with the start to be picked first |
| SearchSpec.SelectedIsShortest | src/NetTopologySuite.Lab/OffsetCurve/ShortestPath.cs:217 | the uncommitted record of least distance has a shortest distance: no walk from the start to it is shorter |
| SearchSpec.Step | src/NetTopologySuite.Lab/OffsetCurve/ShortestPath.cs:212-214 | committing a least record and relaxing its neighbours preserves Dijkstra's invariant |
| SearchSpec.StepChain | src/NetTopologySuite.Lab/OffsetCurve/ShortestPath.cs:246-250 | after relaxation every back-pointer still leads along an edge to an earlier committed record with matching distance |
| SearchSpec.StepFrontier | src/NetTopologySuite.Lab/OffsetCurve/ShortestPath.cs:241-250 | after relaxation each uncommitted distance is at most the best through a committed neighbour |
| SearchSpec.PredStep | src/NetTopologySuite.Lab/OffsetCurve/ShortestPath.cs:146-149 | a back-pointer names a committed neighbour whose distance plus the edge weight is the record's distance |
| SearchSpec.RoundFirst | src/NetTopologySuite.Lab/OffsetCurve/ShortestPath.cs:209-214 | the first round starts from the start record in the initial state |
| SearchSpec.Advance | src/NetTopologySuite.Lab/OffsetCurve/ShortestPath.cs:210-228 | one loop round, with a least record picked next, leads to the next round's state |
| SearchSpec.RoundEnd | src/NetTopologySuite.Lab/OffsetCurve/ShortestPath.cs:223-226 | a round whose picked record is the end is a finished search |
| SearchSpec.EndIsShortest | src/NetTopologySuite.Lab/OffsetCurve/ShortestPath.cs:223-226 | when the end is the least uncommitted record, its distance is finite and at most the length of every walk from the start whenever such a walk exists |
| Paths.ToCoords | src/NetTopologySuite.Lab/OffsetCurve/ShortestPath.cs:236-254 | a walk by records is a walk along half-edges by coordinates, of the same length |
| Paths.FromCoords | src/NetTopologySuite.Lab/OffsetCurve/ShortestPath.cs:236-254 | a walk along half-edges by coordinates is a walk by records with the same coordinates and length |
| Paths.CoordsDistinct | src/NetTopologySuite.Lab/OffsetCurve/Node.cs:22-25 | distinct records of distinct vertices have distinct coordinates |
| Paths.LenNonNegative | src/NetTopologySuite.Lab/OffsetCurve/ShortestPath.cs:244-245 | with non-negative edge lengths every walk has non-negative length |
| Paths.LenPrefix | src/NetTopologySuite.Lab/OffsetCurve/ShortestPath.cs:244-245 | with non-negative edge lengths a prefix of a walk is no longer than the walk |
| CoordinateList.WithoutRepeatsShape | src/NetTopologySuite.Lab/OffsetCurve/ShortestPath.cs:157-161 | the built list has no two equal neighbours, holds exactly the given coordinates, is no longer, and ends with the last one |
| CoordinateList.WithoutRepeatsIdentity | src/NetTopologySuite.Lab/OffsetCurve/ShortestPath.cs:157-161 | a sequence with no two equal neighbours is added unchanged |

## Left out

- `FindShortestPathPq` and `NearestPq` (ShortestPath.cs:165-199, 262-265), the priority-queue variant, are not called by `ComputeResult`. They are not modelled. `CompareTo`, which only that variant uses, is modelled.
- `Add(Geometry)`, `FilterMethod` and `Add(IEnumerable<Geometry>)` (ShortestPath.cs:71-94) extract the line strings from a geometry. They are geometry plumbing. `FindPath` therefore takes a sequence of line strings in place of a geometry.
- `_factory` and `CreateLineString`: the result is the line's coordinate sequence, not a geometry object.
- The `path` lists built and returned by `FindShortestPath` (ShortestPath.cs:204, 231) are always empty and never used. They are not modelled.
- `Node.ToString` is diagnostic text.
- `EdgeGraph` and `HalfEdge` are from another library. Their internals are not part of this model. It models only what the resolver uses:
  - `AddEdge` with its zero-length rule;
  - `GetVertexEdges`;
  - the `ONext` ring around a vertex.

  The ring is modelled in insertion order, not in the library's angular order, so the order neighbours are relaxed in differs. No proved property depends on that order.
- `Coordinate.Distance` (Euclidean length) and double rounding: edge weights are an abstract non-negative function over exact reals.
- `Resolver.Nearest`: the iteration order of `HashSet` is an unconstrained ghost order, not the runtime's. Which of several least records is picked is therefore stated only relative to that order.
- `EdgeGraph.AddEdge`: the returned half-edge (ShortestPath.cs:109-111) is never used beyond the null test. The model returns only the new graph.
- `OffsetCurve.cs`, the pipeline that calls the resolver, is not part of this model.
