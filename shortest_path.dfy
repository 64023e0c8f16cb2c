/** The shortest-path resolver: line strings are added to an edge graph;
    asking for a result builds one search record per graph vertex, runs a
    linear-scan shortest-path search from the start record until the end
    record is the nearest uncommitted one, follows the back-pointers from
    the end to the start, and turns the records met into a line. */
module Resolver {
  import opened Basics
  import opened EdgeGraph
  import opened Nodes
  import opened Paths
  import opened SearchSpec
  import opened CoordinateList
  import opened ResultSpec

  /** Each coordinate of the node dictionary m maps to the record of the
      vertex at that coordinate. */
  ghost predicate IndexOk(g: Graph, m: map<Coord, nat>) {
    forall c :: c in m ==> m[c] < |g.order| && g.order[m[c]] == c
  }

  /** The node dictionary indexes every vertex, and the start and end
      records, where present, are two different records. */
  ghost predicate Registry(g: Graph, m: map<Coord, nat>, sn: Option<nat>, en: Option<nat>) {
    IndexOk(g, m) && (forall c :: c in g.adj ==> c in m) &&
    (sn.Some? ==> sn.value < |g.order|) &&
    (en.Some? ==> en.value < |g.order|) &&
    (sn.Some? && en.Some? ==> sn.value != en.value)
  }

  /** There is a start record exactly when start is a vertex, and an end
      record exactly when end is a vertex other than start; each is the
      record of its vertex. */
  ghost predicate Located(g: Graph, sn: Option<nat>, en: Option<nat>, start: Coord, end: Coord) {
    (sn.Some? <==> start in g.adj) &&
    (sn.Some? ==> sn.value < |g.order| && g.order[sn.value] == start) &&
    (en.Some? <==> end in g.adj && end != start) &&
    (en.Some? ==> en.value < |g.order| && g.order[en.value] == end)
  }

  /** The node dictionary m0 after registering each of the first i vertices
      of `order` under its position. */
  function Registered(m0: map<Coord, nat>, order: seq<Coord>, i: nat): map<Coord, nat>
    requires i <= |order|
  {
    if i == 0 then m0 else Registered(m0, order, i - 1)[order[i - 1] := i - 1]
  }

  /** Registering keeps the old keys and adds only vertices. */
  lemma {:induction false} RegisteredKeys(m0: map<Coord, nat>, order: seq<Coord>, i: nat)
    requires i <= |order|
    ensures forall c :: c in m0 ==> c in Registered(m0, order, i)
    ensures forall c :: c in Registered(m0, order, i) ==> c in m0 || c in order
    ensures forall j :: 0 <= j < i ==> order[j] in Registered(m0, order, i)
  {
    if i > 0 {
      RegisteredKeys(m0, order, i - 1);
    }
  }

  /** Starting from an empty dictionary with distinct vertices, each key
      maps to its own position, and the next vertex is not yet a key. */
  lemma {:induction false} RegisteredIndex(order: seq<Coord>, i: nat)
    requires Distinct(order) && i <= |order|
    ensures forall c :: c in Registered(map[], order, i) ==>
              Registered(map[], order, i)[c] < i && order[Registered(map[], order, i)[c]] == c
    ensures i < |order| ==> order[i] !in Registered(map[], order, i)
  {
    if i > 0 {
      RegisteredIndex(order, i - 1);
    }
    if i < |order| {
      forall c | c in Registered(map[], order, i) ensures c != order[i] {
        DistinctAt(order, Registered(map[], order, i)[c], i);
      }
    }
  }

  /** The position of the last of the first i vertices at coordinate x. */
  function Position(order: seq<Coord>, i: nat, x: Coord): (r: Option<nat>)
    requires i <= |order|
    ensures r.Some? ==> r.value < i && order[r.value] == x
    ensures r.None? ==> forall j :: 0 <= j < i ==> order[j] != x
  {
    if i == 0 then None else if order[i - 1] == x then Some(i - 1) else Position(order, i - 1, x)
  }

  /** Registering every vertex of a graph into an empty dictionary indexes
      each vertex by its own record. */
  lemma RegisteredIndexed(g: Graph)
    requires EdgeGraph.Valid(g)
    ensures IndexOk(g, Registered(map[], g.order, |g.order|))
    ensures forall c :: c in g.adj ==> c in Registered(map[], g.order, |g.order|)
    ensures Registered(map[], g.order, |g.order|) != map[] <==> g.order != []
  {
    var order := g.order;
    RegisteredIndex(order, |order|);
    RegisteredKeys(map[], order, |order|);
    forall c | c in g.adj ensures c in Registered(map[], order, |order|) {
      var j :| 0 <= j < |order| && order[j] == c;
    }
    if order != [] {
      assert order[0] in Registered(map[], order, |order|);
    }
  }

  /** The start and end records found by position are the records of start
      and end, when those are vertices, and the start record is the only
      record at start. */
  lemma PositionsLocated(g: Graph, start: Coord, end: Coord)
    requires EdgeGraph.Valid(g)
    ensures var sn := Position(g.order, |g.order|, start);
      var en := if end == start then None else Position(g.order, |g.order|, end);
      Located(g, sn, en, start, end) && (sn.Some? && en.Some? ==> sn.value != en.value) &&
      (sn.Some? ==> forall v :: 0 <= v < |g.order| ==> (g.order[v] == start <==> v == sn.value))
  {
    var order := g.order;
    if start in g.adj {
      var j :| 0 <= j < |order| && order[j] == start;
      var sn := Position(order, |order|, start);
      forall v | 0 <= v < |order| ensures order[v] == start <==> v == sn.value {
        DistinctAt(order, v, sn.value);
      }
    }
    if end in g.adj {
      var j :| 0 <= j < |order| && order[j] == end;
    }
  }

  /** Registering every vertex of a graph into an empty dictionary indexes
      each vertex by its own record, and the start and end records found are
      the records of start and end, when those are vertices. */
  lemma RegisteredAll(g: Graph, start: Coord, end: Coord)
    requires EdgeGraph.Valid(g)
    ensures var m := Registered(map[], g.order, |g.order|);
      var sn := Position(g.order, |g.order|, start);
      var en := if end == start then None else Position(g.order, |g.order|, end);
      Registry(g, m, sn, en) && Located(g, sn, en, start, end) && (m != map[] <==> g.order != []) &&
      (sn.Some? ==> forall v :: 0 <= v < |g.order| ==> (g.order[v] == start <==> v == sn.value))
  {
    RegisteredIndexed(g);
    PositionsLocated(g, start, end);
  }

  /** With every vertex registered, the records held by the node
      dictionary are exactly the records 0 .. |g.order| - 1. */
  lemma RegistryValues(g: Graph, m: map<Coord, nat>, sn: Option<nat>, en: Option<nat>)
    requires EdgeGraph.Valid(g) && Registry(g, m, sn, en)
    ensures forall v: nat :: v in m.Values <==> v < |g.order|
  {
    forall v: nat | v < |g.order| ensures v in m.Values {
      var c := g.order[v];
      assert c in g.adj;
      assert g.order[m[c]] == c;
      DistinctAt(g.order, m[c], v);
      assert m[c] in m.Values;
    }
  }

  /** Every neighbour of a vertex is registered. */
  lemma NeighboursRegistered(g: Graph, m: map<Coord, nat>)
    requires EdgeGraph.Valid(g) && forall c :: c in g.adj ==> c in m
    ensures forall a, d :: a in g.adj && d in g.adj[a] ==> d in m
  {
    forall a, d | a in g.adj && d in g.adj[a] ensures d in m {
      assert RingValid(g, a);
    }
  }

  /** The body of `BuildNodes`, on values: one fresh record per vertex, in
      vertex order, registered as `RegisterLoop` says. */
  method RegisterNodes(g: Graph, m0: map<Coord, nat>, sn0: Option<nat>, en0: Option<nat>,
                       start: Coord, end: Coord)
    returns (table: NodeTable, ok: bool, m: map<Coord, nat>, sn: Option<nat>, en: Option<nat>)
    requires EdgeGraph.Valid(g)
    requires forall c :: c in m0 ==> c in g.adj
    requires (sn0.Some? || en0.Some?) ==> m0 != map[]
    ensures fresh(table) && fresh(table.distance) && fresh(table.isMarked) && fresh(table.nearestOnPath)
    ensures table.Valid() && table.edge == VertexEdges(g)
    ensures ok <==> m0 == map[]
    ensures ok ==> m == Registered(map[], g.order, |g.order|)
    ensures forall c :: c in m0 ==> c in m
    ensures forall c :: c in m ==> c in g.adj
    ensures (sn.Some? || en.Some?) ==> m != map[]
    ensures ok ==> Registry(g, m, sn, en) && Located(g, sn, en, start, end)
    ensures ok && sn.Some? ==> Initial(sn.value, table.distance[..], table.nearestOnPath[..], table.isMarked[..])
  {
    table := new NodeTable(VertexEdges(g));
    ok, m, sn, en := RegisterLoop(table, g.order, m0, sn0, en0, start, end);
    RegisteredKeys(m0, g.order, |g.order|);
    if ok {
      RegisteredAll(g, start, end);
      assert forall c :: c !in m0;
    }
  }

  /** The loop of `BuildNodes` over the records in vertex order: each
      record's distance becomes infinity, or zero at the start; its vertex is
      registered in the node dictionary m0, failing at the first vertex
      already there; and the last records at start and at end (end only
      when it is not start) become the start and end records. */
  method RegisterLoop(table: NodeTable, order: seq<Coord>, m0: map<Coord, nat>,
                      sn0: Option<nat>, en0: Option<nat>, start: Coord, end: Coord)
    returns (ok: bool, m: map<Coord, nat>, sn: Option<nat>, en: Option<nat>)
    requires table.Valid() && |table.edge| == |order| && Distinct(order)
    requires forall j :: 0 <= j < |order| ==> table.edge[j].orig == order[j]
    requires m0 == map[] ==> sn0.None? && en0.None?
    modifies table.distance
    ensures ok ==> forall j :: 0 <= j < |order| ==> order[j] !in m0
    ensures m0 == map[] ==> ok
    ensures forall c :: c in m0 ==> c in m
    ensures forall c :: c in m ==> c in m0 || c in order
    ensures ok ==> m == Registered(m0, order, |order|)
    ensures m0 == map[] ==> sn == Position(order, |order|, start)
    ensures m0 == map[] ==> en == (if end == start then None else Position(order, |order|, end))
    ensures ok ==> forall j :: 0 <= j < |order| ==>
              table.distance[j] == (if order[j] == start then Fin(0.0) else Inf)
  {
    m, sn, en := m0, sn0, en0;
    ghost var clean := m0 == map[];
    var n := |order|;
    var i: nat := 0;
    while i < n
      invariant 0 <= i <= n
      invariant forall j :: 0 <= j < i ==> table.distance[j] == (if order[j] == start then Fin(0.0) else Inf)
      invariant forall j :: 0 <= j < i ==> order[j] !in m0
      invariant m == Registered(m0, order, i)
      invariant clean ==> sn == Position(order, i, start)
      invariant clean ==> en == (if end == start then None else Position(order, i, end))
    {
      var c := table.Coordinate(i);
      table.distance[i] := Inf;
      RegisteredKeys(m0, order, i);
      if c in m {
        if clean {
          RegisteredIndex(order, i);
        }
        return false, m, sn, en;
      }
      m := m[c := i];
      if c == start {
        sn := Some(i);
        table.distance[i] := Fin(0.0);
      } else if c == end {
        en := Some(i);
      }
      i := i + 1;
    }
    RegisteredKeys(m0, order, n);
    return true, m, sn, en;
  }

  class ShortestPath {
    /** The edge weight; the resolver uses the planar distance between the
        two coordinates. */
    const weight: (Coord, Coord) -> real
    var graph: Graph
    var result: Option<seq<Coord>>
    var nodes: NodeTable
    /** The node dictionary, from vertex coordinate to record index. */
    var nodeMap: map<Coord, nat>
    var startNode: Option<nat>
    var endNode: Option<nat>

    ghost predicate Valid()
      reads this`graph, this`nodeMap, this`startNode, this`endNode
    {
      EdgeGraph.Valid(graph) && NonNegative(weight) &&
      (forall c :: c in nodeMap ==> c in graph.adj) &&
      ((startNode.Some? || endNode.Some?) ==> nodeMap != map[])
    }

    /** Record i belongs to vertex i and holds its representative half-edge. */
    ghost predicate RecordsMatch()
      reads this
    {
      EdgeGraph.Valid(graph) && nodes.Valid() && |nodes.edge| == |graph.order| &&
      forall i :: 0 <= i < |graph.order| ==> nodes.edge[i] == Representative(graph, graph.order[i])
    }

    /** The records match the graph: record i belongs to vertex i, the node
        dictionary maps each vertex to its record, and the start and end
        records, where present, are two different records. */
    ghost predicate Consistent()
      reads this
    {
      Valid() && RecordsMatch() && Registry(graph, nodeMap, startNode, endNode)
    }

    /** The records as built for a search from start to end. */
    ghost predicate Built(start: Coord, end: Coord)
      reads this
    {
      Consistent() && Located(graph, startNode, endNode, start, end)
    }

    /** The search has stopped at the end record with the records in the
        state `Finished` describes; rank and k are the order in which it
        marked the records and how many it marked. */
    ghost predicate Searched(rank: map<nat, nat>, k: nat)
      reads this, nodes.distance, nodes.nearestOnPath, nodes.isMarked
    {
      startNode.Some? && endNode.Some? &&
      Finished(graph, weight, startNode.value, endNode.value, Distances(), Preds(), Marks(), rank, k)
    }

    ghost function Distances(): seq<Dist>
      reads this, nodes.distance
    {
      nodes.distance[..]
    }

    ghost function Preds(): seq<Option<nat>>
      reads this, nodes.nearestOnPath
    {
      nodes.nearestOnPath[..]
    }

    ghost function Marks(): seq<bool>
      reads this, nodes.isMarked
    {
      nodes.isMarked[..]
    }

    constructor (w: (Coord, Coord) -> real)
      requires NonNegative(w)
      ensures Valid() && weight == w && graph == Empty && nodeMap == map[]
      ensures result == None && startNode == None && endNode == None
    {
      weight := w;
      graph := Empty;
      result := None;
      nodes := new NodeTable([]);
      nodeMap := map[];
      startNode := None;
      endNode := None;
      EmptyValid();
    }

    /** Adds a line string: one edge per consecutive coordinate pair, a
        zero-length pair skipped. */
    method Add(line: seq<Coord>)
      requires Valid()
      modifies this`graph
      ensures Valid() && graph == AddLine(old(graph), line)
    {
      var i := 1;
      while i < |line|
        invariant 1 <= i && (i <= |line| || |line| == 0)
        invariant EdgeGraph.Valid(graph)
        invariant graph == AddSegments(old(graph), line, if |line| == 0 then 0 else i)
      {
        graph := AddEdge(graph, line[i - 1], line[i]);
        i := i + 1;
      }
      forall x | x in old(graph).adj ensures x in graph.adj {
        AddSegmentsVertices(old(graph), line, |line|, x);
      }
    }

    /** Creates one record per vertex, in vertex order, with infinite
        distance, and registers it in the node dictionary; the record at the
        start coordinate becomes the start record with distance 0, otherwise
        the one at the end coordinate becomes the end record. Registering a
        coordinate the dictionary already holds fails, so building again
        after a failed search fails. */
    method BuildNodes(start: Coord, end: Coord) returns (r: Outcome)
      requires Valid()
      modifies this`nodes, this`nodeMap, this`startNode, this`endNode
      ensures Valid()
      ensures fresh(nodes) && fresh(nodes.distance) && fresh(nodes.isMarked) && fresh(nodes.nearestOnPath)
      ensures r.Fail? <==> old(nodeMap) != map[]
      ensures r.Fail? ==> r.error == DuplicateVertex
      ensures r.Fail? ==> forall c :: c in old(nodeMap) ==> c in nodeMap
      ensures r.Pass? ==> Built(start, end)
      ensures r.Pass? ==> nodeMap == Registered(map[], graph.order, |graph.order|) &&
                          (nodeMap != map[] <==> graph.order != [])
      ensures r.Pass? && startNode.Some? ==> Initial(startNode.value, Distances(), Preds(), Marks())
    {
      var table, ok, m, sn, en := RegisterNodes(graph, nodeMap, startNode, endNode, start, end);
      nodes, nodeMap, startNode, endNode := table, m, sn, en;
      if !ok {
        return Fail(DuplicateVertex);
      }
      RegisteredIndexed(graph);
      return Pass;
    }

    /** The linear-scan search over the records: `Search` on this
        resolver's graph, weight, node dictionary and start and end records.
        Without a start record it fails at once. */
    method FindShortestPath() returns (r: Outcome, ghost rank: map<nat, nat>, ghost k: nat)
      requires Consistent()
      requires startNode.Some? ==> Initial(startNode.value, Distances(), Preds(), Marks())
      modifies nodes.distance, nodes.nearestOnPath, nodes.isMarked
      ensures r == Fail(StartNotFound) <==> startNode.None?
      ensures r == Fail(EndNotFound) <==> startNode.Some? && endNode.None?
      ensures r.Pass? <==> startNode.Some? && endNode.Some?
      ensures r.Pass? ==> Searched(rank, k)
    {
      if startNode.None? {
        return Fail(StartNotFound), map[], 0;
      }
      r, rank, k := Search(nodes, graph, weight, nodeMap, startNode.value, endNode);
    }

    /** Runs the search over built records and, when it reaches the end
        record, traces the line back from it and keeps it as the result. */
    method Resolve(start: Coord, end: Coord) returns (r: Result<seq<Coord>>)
      requires Built(start, end)
      requires startNode.Some? ==> Initial(startNode.value, Distances(), Preds(), Marks())
      modifies this`result, nodes.distance, nodes.nearestOnPath, nodes.isMarked
      ensures Resolves(graph, weight, start, end, r)
      ensures result == (if r.Success? then Some(r.value) else old(result))
    {
      var found, rank, k := FindShortestPath();
      if found.Fail? {
        MissingResolves(graph, weight, startNode, endNode, start, end);
        return Failure(found.error);
      }
      r := TraceResult(nodes, graph, weight, startNode.value, endNode.value, rank, k, start, end);
      if r.Success? {
        result := Some(r.value);
      }
    }

    /** Builds the records, runs the search, follows the predecessors back
        from the end record and keeps the line of the records met as the
        result. Each failure leaves the result as it was. */
    method ComputeResult(start: Coord, end: Coord) returns (r: Result<seq<Coord>>)
      requires Valid()
      modifies this`nodes, this`nodeMap, this`startNode, this`endNode, this`result
      ensures Valid()
      ensures old(nodeMap) != map[] ==> r == Failure(DuplicateVertex)
      ensures old(nodeMap) != map[] ==> forall c :: c in old(nodeMap) ==> c in nodeMap
      ensures old(nodeMap) == map[] ==> Resolves(graph, weight, start, end, r)
      ensures old(nodeMap) == map[] ==> nodeMap == Registered(map[], graph.order, |graph.order|) &&
                                        (nodeMap != map[] <==> graph.order != []) &&
                                        Located(graph, startNode, endNode, start, end)
      ensures result == (if r.Success? then Some(r.value) else old(result))
    {
      var built := BuildNodes(start, end);
      if built.Pass? {
        r := Resolve(start, end);
      } else {
        r := Failure(built.error);
      }
    }

    /** The kept result when there is one, whatever start and end are;
        otherwise the result of computing it for start and end. */
    method GetResult(start: Coord, end: Coord) returns (r: Result<seq<Coord>>)
      requires Valid()
      modifies this`nodes, this`nodeMap, this`startNode, this`endNode, this`result
      ensures Valid()
      ensures old(result).Some? ==> r == Success(old(result).value)
      ensures old(result).Some? ==> nodeMap == old(nodeMap) && startNode == old(startNode) &&
                                    endNode == old(endNode) && nodes == old(nodes)
      ensures old(result).None? && old(nodeMap) != map[] ==> r == Failure(DuplicateVertex)
      ensures old(result).None? && old(nodeMap) != map[] ==> forall c :: c in old(nodeMap) ==> c in nodeMap
      ensures old(result).None? && old(nodeMap) == map[] ==> Resolves(graph, weight, start, end, r)
      ensures old(result).None? && old(nodeMap) == map[] ==>
                nodeMap == Registered(map[], graph.order, |graph.order|) &&
                (nodeMap != map[] <==> graph.order != []) &&
                Located(graph, startNode, endNode, start, end)
      ensures result == (if r.Success? then Some(r.value) else None)
    {
      if result.Some? {
        return Success(result.value);
      }
      r := ComputeResult(start, end);
    }

    /** The shortest line from start to end through the given line strings,
        computed by a fresh resolver. */
    static method FindPath(w: (Coord, Coord) -> real, lines: seq<seq<Coord>>, start: Coord, end: Coord)
      returns (r: Result<seq<Coord>>)
      requires NonNegative(w)
      ensures Resolves(LinesGraph(lines), w, start, end, r)
    {
      var d := new ShortestPath(w);
      var i := 0;
      while i < |lines|
        invariant i <= |lines|
        invariant d.Valid() && d.weight == w && d.graph == LinesGraph(lines[..i])
        invariant d.nodeMap == map[] && d.result == None
      {
        assert lines[..i + 1][..i] == lines[..i];
        d.Add(lines[i]);
        i := i + 1;
      }
      assert lines[..i] == lines;
      r := d.GetResult(start, end);
    }
  }

  /** The records of table belong to the vertices of g, record i to vertex i. */
  ghost predicate RecordsOf(table: NodeTable, g: Graph) {
    EdgeGraph.Valid(g) && table.Valid() && |table.edge| == |g.order| &&
    forall i :: 0 <= i < |g.order| ==> table.edge[i] == Representative(g, g.order[i])
  }

  /** The uncommitted records are the unmarked ones. */
  ghost predicate Uncommitted(uncommitted: set<nat>, M: seq<bool>) {
    forall v: nat :: v in uncommitted <==> v < |M| && !M[v]
  }

  /** The record of a vertex, looked up in the node dictionary m. */
  function FindNode(g: Graph, m: map<Coord, nat>, dest: Coord): (r: nat)
    requires IndexOk(g, m) && dest in m
    ensures r < |g.order| && g.order[r] == dest
  {
    m[dest]
  }

  /** Relaxes the edges around record cur: walking the ring of half-edges
      around its vertex, each uncommitted neighbour whose distance is
      above cur's distance plus the edge weight takes that sum as its
      distance and cur as its predecessor. */
  method UpdateNeighbours(table: NodeTable, g: Graph, w: (Coord, Coord) -> real, m: map<Coord, nat>,
                          cur: nat, uncommitted: set<nat>)
    requires RecordsOf(table, g) && IndexOk(g, m) && cur < |g.order| && cur !in uncommitted
    requires forall d :: d in g.adj[g.order[cur]] ==> d in m
    requires Uncommitted(uncommitted, table.isMarked[..])
    modifies table.distance, table.nearestOnPath
    ensures Relaxation(g, w, cur, table.isMarked[..], old(table.distance[..]), old(table.nearestOnPath[..]),
                       table.distance[..], table.nearestOnPath[..])
  {
    var start := table.edge[cur];
    RepresentativeIsEdge(g, g.order[cur]);
    var currentDistance := table.distance[cur];
    ghost var D, P, M := table.distance[..], table.nearestOnPath[..], table.isMarked[..];
    assert currentDistance == D[cur];
    var ring := RingDests(g, start);
    RelaxedNone(g, w, cur, M, D, P);
    var j := 0;
    while j < |ring|
      invariant 0 <= j <= |ring|
      invariant RelaxedTo(g, w, cur, M, D, P, table.distance[..], table.nearestOnPath[..], ring[..j])
    {
      ghost var D1, P1 := table.distance[..], table.nearestOnPath[..];
      assert ring[..j + 1] == ring[..j] + [ring[j]];
      var n := FindNode(g, m, ring[j]);
      assert Adj(g, cur, n);
      ghost var better := !M[n] && Less(Cand(g, w, D, cur, n), D1[n]);
      ghost var cand := Cand(g, w, D, cur, n);
      assert (n in uncommitted) == !M[n];
      assert table.Coordinate(cur) == g.order[cur] && table.Coordinate(n) == g.order[n];
      RelaxEdge(table, w, cur, n, currentDistance, n in uncommitted);
      ghost var D2, P2 := table.distance[..], table.nearestOnPath[..];
      assert D2 == (if better then D1[n := cand] else D1) && P2 == (if better then P1[n := Some(cur)] else P1);
      DistinctNotBefore(ring, j);
      RelaxNext(g, w, cur, M, D, P, D1, P1, ring[..j], n, D2, P2);
      j := j + 1;
    }
    assert ring[..|ring|] == ring;
    RelaxedAll(g, w, cur, M, D, P, table.distance[..], table.nearestOnPath[..], ring);
  }

  /** Relaxes the edge from record cur to record n: when n is uncommitted
      and cur's distance plus the edge weight is below n's distance, n
      takes that sum as its distance and cur as its predecessor. */
  method RelaxEdge(table: NodeTable, w: (Coord, Coord) -> real, cur: nat, n: nat, currentDistance: Dist,
                   uncommitted: bool)
    requires table.Valid() && cur < |table.edge| && n < |table.edge|
    modifies table.distance, table.nearestOnPath
    ensures var cand := Plus(currentDistance, w(table.Coordinate(cur), table.Coordinate(n)));
            var better := uncommitted && Less(cand, old(table.distance[n]));
            table.distance[..] == (if better then old(table.distance[..])[n := cand] else old(table.distance[..])) &&
            table.nearestOnPath[..] ==
              (if better then old(table.nearestOnPath[..])[n := Some(cur)] else old(table.nearestOnPath[..]))
  {
    if uncommitted {
      var dist := Plus(currentDistance, w(table.Coordinate(cur), table.Coordinate(n)));
      if Less(dist, table.distance[n]) {
        table.SetDistance(n, dist);
        table.SetNearestOnPath(n, Some(cur));
      }
    }
  }

  /** The uncommitted record of least distance: the set is visited in some
      order `order`, and a record replaces the one held only when its
      distance is strictly below, so the result is the first record of
      least distance in that order. None when the set is empty. */
  method Nearest(table: NodeTable, uncommitted: set<nat>) returns (r: Option<nat>, ghost order: seq<nat>, ghost pos: nat)
    requires forall v :: v in uncommitted ==> v < table.distance.Length
    ensures r.None? <==> uncommitted == {}
    ensures r.Some? ==> (r.value in uncommitted &&
              forall v :: v in uncommitted ==> LessEq(table.distance[r.value], table.distance[v]))
    ensures Distinct(order) && (forall v :: v in uncommitted <==> v in order)
    ensures forall j :: 0 <= j < |order| ==> order[j] in uncommitted
    ensures r.Some? ==> (pos < |order| && order[pos] == r.value &&
              forall j :: 0 <= j < pos ==> Less(table.distance[r.value], table.distance[order[j]]))
  {
    var rest := uncommitted;
    r, order, pos := None, [], 0;
    while rest != {}
      invariant rest <= uncommitted
      invariant forall v :: v in uncommitted <==> v in rest || v in order
      invariant forall v :: v in rest ==> v !in order
      invariant Distinct(order)
      invariant forall j :: 0 <= j < |order| ==> order[j] in uncommitted
      invariant r.Some? ==> r.value in uncommitted
      invariant r.None? <==> order == []
      invariant r.Some? ==> (pos < |order| && order[pos] == r.value &&
        (forall j :: 0 <= j < pos ==> Less(table.distance[r.value], table.distance[order[j]])) &&
        (forall j :: 0 <= j < |order| ==> LessEq(table.distance[r.value], table.distance[order[j]])))
      decreases |rest|
    {
      var n :| n in rest;
      if r.None? || Less(table.distance[n], table.distance[r.value]) {
        r, pos := Some(n), |order|;
      }
      DistinctSnoc<nat>(order, n);
      order := order + [n];
      rest := rest - {n};
    }
  }

  /** One round of the search: marks record cur, removes it from the
      uncommitted records, relaxes the edges around it and selects the
      nearest remaining uncommitted record. */
  method Visit(table: NodeTable, g: Graph, w: (Coord, Coord) -> real, m: map<Coord, nat>, s: nat,
               cur: nat, uncommitted: set<nat>, ghost D: seq<Dist>, ghost P: seq<Option<nat>>, ghost M: seq<bool>,
               ghost rank: map<nat, nat>, ghost k: nat)
    returns (next: nat, rest: set<nat>, ghost D': seq<Dist>, ghost P': seq<Option<nat>>, ghost M': seq<bool>)
    requires RecordsOf(table, g) && NonNegative(w) && IndexOk(g, m) && forall c :: c in g.adj ==> c in m
    requires D == table.distance[..] && P == table.nearestOnPath[..] && M == table.isMarked[..]
    requires Uncommitted(uncommitted, M) && cur in uncommitted && uncommitted != {cur}
    requires Round(g, w, s, D, P, M, rank, k, cur)
    modifies table.distance, table.nearestOnPath, table.isMarked
    ensures D' == table.distance[..] && P' == table.nearestOnPath[..] && M' == table.isMarked[..]
    ensures M' == M[cur := true]
    ensures Relaxation(g, w, cur, M', D, P, D', P')
    ensures rest == uncommitted - {cur} && next in rest && Uncommitted(rest, M')
    ensures Round(g, w, s, D', P', M', rank[cur := k], k + 1, next)
  {
    table.SetMark(cur, true);
    rest := uncommitted - {cur};
    NeighboursRegistered(g, m);
    UpdateNeighbours(table, g, w, m, cur, rest);
    var r, order, pos := Nearest(table, rest);
    next := r.value;
    D', P', M' := table.distance[..], table.nearestOnPath[..], table.isMarked[..];
    assert forall v :: 0 <= v < |D| && !M'[v] ==> LessEq(D'[next], D'[v]);
    Advance(g, w, s, D, P, M, rank, k, cur, D', P', next);
  }

  /** Two records with the same coordinate are the same record. */
  lemma RecordAt(table: NodeTable, g: Graph, i: nat, j: nat)
    requires RecordsOf(table, g) && i < |g.order| && j < |g.order|
    ensures table.Coordinate(i) == table.Coordinate(j) <==> i == j
  {
    DistinctAt(g.order, i, j);
  }

  /** The linear-scan search from record s. It marks the current record,
      removes it from the uncommitted records, relaxes the edges around it
      and selects the nearest uncommitted record as the next current
      record, until that is the end record e. Without an end record it
      fails at the first selection. rank and k are the order in which it
      marked the records and how many it marked. */
  method Search(table: NodeTable, g: Graph, w: (Coord, Coord) -> real, m: map<Coord, nat>, s: nat, e: Option<nat>)
    returns (r: Outcome, ghost rank: map<nat, nat>, ghost k: nat)
    requires RecordsOf(table, g) && NonNegative(w) && IndexOk(g, m) && forall c :: c in g.adj ==> c in m
    requires s < |g.order| && (e.Some? ==> e.value < |g.order| && e.value != s)
    requires Initial(s, table.distance[..], table.nearestOnPath[..], table.isMarked[..])
    modifies table.distance, table.nearestOnPath, table.isMarked
    ensures r == Fail(EndNotFound) <==> e.None?
    ensures r.Pass? <==> e.Some?
    ensures r.Pass? ==> Finished(g, w, s, e.value, table.distance[..], table.nearestOnPath[..],
                                 table.isMarked[..], rank, k)
  {
    var uncommitted := m.Values;
    RegistryValues(g, m, Some(s), e);
    VertexHasNeighbour(g, g.order[s]);
    ghost var D, P, M := table.distance[..], table.nearestOnPath[..], table.isMarked[..];
    RoundFirst(g, w, s, D, P, M);
    assert (if s == 0 then 1 else 0) in uncommitted;
    if e.None? {
      var next, rest;
      next, rest, D, P, M := Visit(table, g, w, m, s, s, uncommitted, D, P, M, map[], 0);
      return Fail(EndNotFound), map[s := 0], 1;
    }
    rank, k := SearchTo(table, g, w, m, s, e.value, uncommitted, D, P, M);
    return Pass, rank, k;
  }

  method SearchTo(table: NodeTable, g: Graph, w: (Coord, Coord) -> real, m: map<Coord, nat>, s: nat, e: nat,
                  uncommitted: set<nat>, ghost D: seq<Dist>, ghost P: seq<Option<nat>>, ghost M: seq<bool>)
    returns (ghost rank: map<nat, nat>, ghost k: nat)
    requires RecordsOf(table, g) && NonNegative(w) && IndexOk(g, m) && forall c :: c in g.adj ==> c in m
    requires e < |g.order| && e != s
    requires D == table.distance[..] && P == table.nearestOnPath[..] && M == table.isMarked[..]
    requires Uncommitted(uncommitted, M) && s in uncommitted && e in uncommitted
    requires Round(g, w, s, D, P, M, map[], 0, s)
    modifies table.distance, table.nearestOnPath, table.isMarked
    ensures Finished(g, w, s, e, table.distance[..], table.nearestOnPath[..], table.isMarked[..], rank, k)
  {
    rank, k := map[], 0;
    var cur, uncommitted, D, P, M := s, uncommitted, D, P, M;
    while true
      invariant D == table.distance[..] && P == table.nearestOnPath[..] && M == table.isMarked[..]
      invariant Uncommitted(uncommitted, M) && cur in uncommitted
      invariant Round(g, w, s, D, P, M, rank, k, cur)
      invariant e in uncommitted && cur != e
      decreases |uncommitted|
    {
      var next, rest;
      next, rest, D, P, M := Visit(table, g, w, m, s, cur, uncommitted, D, P, M, rank, k);
      rank, k := rank[cur := k], k + 1;
      cur, uncommitted := next, rest;
      RecordAt(table, g, cur, e);
      if table.Coordinate(cur) == table.Coordinate(e) {
        RoundEnd(g, w, s, D, P, M, rank, k, cur);
        return;
      }
    }
  }

  /** Each record of path but the last has the next one as its predecessor. */
  ghost predicate BackChain(P: seq<Option<nat>>, path: seq<nat>) {
    forall i :: 0 <= i < |path| - 1 ==> path[i] < |P| && P[path[i]] == Some(path[i + 1])
  }

  lemma BackChainSnoc(P: seq<Option<nat>>, path: seq<nat>, u: nat)
    requires BackChain(P, path) && |path| > 0 && path[|path| - 1] < |P| && P[path[|path| - 1]] == Some(u)
    ensures BackChain(P, path + [u])
  {
    var q := path + [u];
    forall i | 0 <= i < |q| - 1 ensures q[i] < |P| && P[q[i]] == Some(q[i + 1]) {
      if i < |path| - 1 {
        assert q[i] == path[i] && q[i + 1] == path[i + 1];
      }
    }
  }

  /** One step back along the chain keeps the end's distance equal to the
      distance of the current record plus the length walked. */
  lemma TraceStep(g: Graph, w: (Coord, Coord) -> real, de: Dist, dv: Dist, du: Dist, u: nat, fwd: seq<nat>)
    requires |fwd| > 0 && du.Fin? && dv == Plus(du, W(g, w, u, fwd[0])) && de == Plus(dv, Len(g, w, fwd))
    ensures de == Plus(du, Len(g, w, [u] + fwd))
  {
    LenCons(g, w, u, fwd);
  }

  /** The state of the trace back from the end record e: path runs from e
      through predecessors to node, read backwards it is a walk from node
      to e, and e's distance is node's plus the length of that walk. Its
      records are distinct: each one before node is unranked or ranks later
      than node. */
  ghost predicate Traced(g: Graph, w: (Coord, Coord) -> real, e: nat, D: seq<Dist>, P: seq<Option<nat>>,
                         rank: map<nat, nat>, node: nat, path: seq<nat>)
  {
    |D| == |g.order| && e < |D| && node < |D| && (node == e || node in rank) &&
    |path| > 0 && path[0] == e && path[|path| - 1] == node && BackChain(P, path) &&
    IsPath(g, Reversed<nat>(path), node, e) && D[e] == Plus(D[node], Len(g, w, Reversed<nat>(path))) &&
    Distinct(path) &&
    forall i :: 0 <= i < |path| - 1 ==> path[i] !in rank || (node in rank && rank[node] < rank[path[i]])
  }

  /** The trace starts at the end record, with the one-record path. */
  lemma TraceStart(g: Graph, w: (Coord, Coord) -> real, e: nat, D: seq<Dist>, P: seq<Option<nat>>,
                   rank: map<nat, nat>)
    requires |D| == |g.order| && e < |D|
    ensures Traced(g, w, e, D, P, rank, e, [e])
  {
    assert Reversed<nat>([e]) == [e] by { assert [e][1..] == []; }
    assert Len(g, w, [e]) == 0.0;
  }

  /** One step back along the predecessor of node, which ranks earlier. */
  lemma TraceBack(g: Graph, w: (Coord, Coord) -> real, s: nat, e: nat, D: seq<Dist>, P: seq<Option<nat>>,
                  M: seq<bool>, rank: map<nat, nat>, k: nat, node: nat, path: seq<nat>, u: nat)
    requires Finished(g, w, s, e, D, P, M, rank, k) && Traced(g, w, e, D, P, rank, node, path)
    requires P[node] == Some(u)
    ensures Traced(g, w, e, D, P, rank, u, path + [u])
    ensures u in rank && rank[u] < (if node in rank then rank[node] else k)
  {
    var fwd := Reversed<nat>(path);
    PredStep(g, w, s, D, P, M, rank, k, node);
    TraceStep(g, w, D[e], D[node], D[u], u, fwd);
    PathCons(g, u, fwd, node, e);
    ReversedSnoc(path, u);
    BackChainSnoc(P, path, u);
    RankSnoc(path, rank, node, u);
  }

  /** Stepping back to a record u that ranks before node keeps the traced
      records distinct, and every earlier one unranked or ranked after u. */
  lemma RankSnoc(path: seq<nat>, rank: map<nat, nat>, node: nat, u: nat)
    requires |path| > 0 && path[|path| - 1] == node && Distinct(path)
    requires forall i :: 0 <= i < |path| - 1 ==> path[i] !in rank || (node in rank && rank[node] < rank[path[i]])
    requires u in rank && (node in rank ==> rank[u] < rank[node])
    ensures Distinct(path + [u])
    ensures forall i :: 0 <= i < |path + [u]| - 1 ==> (path + [u])[i] !in rank || rank[u] < rank[(path + [u])[i]]
  {
    forall i | 0 <= i < |path| ensures path[i] != u && (path[i] !in rank || rank[u] < rank[path[i]]) {
    }
    DistinctSnoc<nat>(path, u);
    assert forall i :: 0 <= i < |path| ==> (path + [u])[i] == path[i];
  }

  /** A record other than the start without a predecessor is at infinite
      distance, and so then is the end. */
  lemma TraceUnreached(g: Graph, w: (Coord, Coord) -> real, s: nat, e: nat, D: seq<Dist>, P: seq<Option<nat>>,
                       M: seq<bool>, rank: map<nat, nat>, k: nat, node: nat, path: seq<nat>)
    requires Finished(g, w, s, e, D, P, M, rank, k) && Traced(g, w, e, D, P, rank, node, path)
    requires node != s && P[node].None?
    ensures D[e] == Inf
  {
  }

  /** Reaching the start, the traced walk is a shortest walk from s to e. */
  lemma TraceEnd(g: Graph, w: (Coord, Coord) -> real, s: nat, e: nat, D: seq<Dist>, P: seq<Option<nat>>,
                 M: seq<bool>, rank: map<nat, nat>, k: nat, path: seq<nat>)
    requires Finished(g, w, s, e, D, P, M, rank, k) && Traced(g, w, e, D, P, rank, s, path)
    ensures D[e] == Fin(Len(g, w, Reversed<nat>(path)))
    ensures forall p :: IsPath(g, p, s, e) ==> Len(g, w, Reversed<nat>(path)) <= Len(g, w, p)
  {
  }

  /** Follows the predecessors back from the end record e to the start
      record s. A record without one, met before reaching s, means the end is
      unreachable: tracePath dereferences the missing predecessor there. */
  method TracePath(table: NodeTable, g: Graph, w: (Coord, Coord) -> real, s: nat, e: nat,
                   ghost rank: map<nat, nat>, ghost k: nat)
    returns (r: Result<seq<nat>>)
    requires table.Valid() && |table.edge| == |g.order|
    requires Finished(g, w, s, e, table.distance[..], table.nearestOnPath[..], table.isMarked[..], rank, k)
    ensures r.Failure? <==> table.distance[e] == Inf
    ensures r.Failure? ==> r.error == Unreachable
    ensures r.Success? ==> |r.value| > 0 && r.value[0] == e && r.value[|r.value| - 1] == s &&
                           BackChain(table.nearestOnPath[..], r.value) && Distinct(r.value)
    ensures r.Success? ==> IsPath(g, Reversed<nat>(r.value), s, e) &&
                           table.distance[e] == Fin(Len(g, w, Reversed<nat>(r.value)))
    ensures r.Success? ==> forall p :: IsPath(g, p, s, e) ==> Len(g, w, Reversed<nat>(r.value)) <= Len(g, w, p)
  {
    ghost var D, P, M := table.distance[..], table.nearestOnPath[..], table.isMarked[..];
    var node := e;
    var path := [e];
    TraceStart(g, w, e, D, P, rank);
    while node != s
      invariant Traced(g, w, e, D, P, rank, node, path)
      decreases if node in rank then rank[node] else k
    {
      var pred := table.nearestOnPath[node];
      if pred.None? {
        TraceUnreached(g, w, s, e, D, P, M, rank, k, node, path);
        return Failure(Unreachable);
      }
      TraceBack(g, w, s, e, D, P, M, rank, k, node, path, pred.value);
      path := path + [pred.value];
      node := pred.value;
    }
    TraceEnd(g, w, s, e, D, P, M, rank, k, path);
    return Success(path);
  }

  /** The line of the records of path, in path order, each coordinate
      added unless it repeats the last one added. */
  method BuildLine(table: NodeTable, path: seq<nat>) returns (line: seq<Coord>)
    requires forall i :: 0 <= i < |path| ==> path[i] < |table.edge|
    ensures line == WithoutRepeats(table.CoordinatesOf(path))
  {
    line := [];
    var i := 0;
    while i < |path|
      invariant i <= |path|
      invariant line == WithoutRepeats(table.CoordinatesOf(path[..i]))
    {
      ghost var cs := table.CoordinatesOf(path[..i + 1]);
      assert cs[..i] == table.CoordinatesOf(path[..i]);
      line := AddNoRepeat(line, table.Coordinate(path[i]));
      i := i + 1;
    }
    assert path[..i] == path;
  }

  /** The record coordinates of a walk are the vertex coordinates. */
  lemma RecordCoords(table: NodeTable, g: Graph, path: seq<nat>)
    requires RecordsOf(table, g) && forall i :: 0 <= i < |path| ==> path[i] < |g.order|
    ensures table.CoordinatesOf(path) == Coords(g, path)
  {
    forall i | 0 <= i < |path| ensures table.CoordinatesOf(path)[i] == Coords(g, path)[i] {
      assert table.edge[path[i]] == Representative(g, g.order[path[i]]);
    }
  }

  /** Consecutive records of a back-pointer chain are at different
      coordinates: a predecessor is a neighbour, and no edge is a loop. */
  lemma ChainNoRepeats(table: NodeTable, g: Graph, w: (Coord, Coord) -> real, s: nat, D: seq<Dist>,
                       P: seq<Option<nat>>, M: seq<bool>, rank: map<nat, nat>, k: nat, path: seq<nat>)
    requires RecordsOf(table, g) && Chain(g, w, s, D, P, M, rank, k) && BackChain(P, path)
    requires forall i :: 0 <= i < |path| ==> path[i] < |g.order|
    ensures NoRepeats(table.CoordinatesOf(path))
  {
    var cs := table.CoordinatesOf(path);
    forall i | 0 < i < |path| ensures cs[i - 1] != cs[i] {
      var v, u := path[i - 1], path[i];
      PredStep(g, w, s, D, P, M, rank, k, v);
      assert Adj(g, u, v);
      assert RingValid(g, g.order[u]);
      RecordAt(table, g, u, v);
    }
  }

  /** Once the search has finished, the end record's distance is at most
      the length of every walk by coordinates from the start to the end. */
  lemma EndBound(g: Graph, w: (Coord, Coord) -> real, s: nat, e: nat, D: seq<Dist>,
                 P: seq<Option<nat>>, M: seq<bool>, rank: map<nat, nat>, k: nat)
    requires EdgeGraph.Valid(g) && Finished(g, w, s, e, D, P, M, rank, k)
    ensures s < |g.order| && e < |g.order|
    ensures forall cs :: IsCoordPath(g, cs, g.order[s], g.order[e]) ==> AtMost(D[e], CoordLen(w, cs))
  {
    forall cs | IsCoordPath(g, cs, g.order[s], g.order[e]) ensures AtMost(D[e], CoordLen(w, cs)) {
      IndexOfUnique(g.order, s);
      IndexOfUnique(g.order, e);
      var p := FromCoords(g, w, cs, g.order[s], g.order[e]);
    }
  }

  /** The line built from a traced path is a shortest line from the start
      coordinate to the end coordinate, read from the end. */
  lemma TracedLine(table: NodeTable, g: Graph, w: (Coord, Coord) -> real, s: nat, e: nat, D: seq<Dist>,
                   P: seq<Option<nat>>, M: seq<bool>, rank: map<nat, nat>, k: nat, path: seq<nat>)
    requires RecordsOf(table, g) && Finished(g, w, s, e, D, P, M, rank, k)
    requires BackChain(P, path) && Distinct(path) && IsPath(g, Reversed(path), s, e)
    requires D[e] == Fin(Len(g, w, Reversed(path)))
    ensures forall i :: 0 <= i < |path| ==> path[i] < |table.edge|
    ensures IsShortestLine(g, w, WithoutRepeats(table.CoordinatesOf(path)), g.order[s], g.order[e])
  {
    var fwd := Reversed(path);
    forall i | 0 <= i < |path| ensures path[i] < |g.order| {
      ReversedAt(path, |path| - 1 - i);
    }
    ChainNoRepeats(table, g, w, s, D, P, M, rank, k, path);
    RecordCoords(table, g, path);
    WithoutRepeatsIdentity(Coords(g, path));
    CoordsDistinct(g, path);
    CoordsReversed(g, path);
    ToCoords(g, w, fwd, s, e);
    EndBound(g, w, s, e, D, P, M, rank, k);
  }

  /** Without a start record, or without an end record, the outcome is the
      matching not-found failure. */
  lemma MissingResolves(g: Graph, w: (Coord, Coord) -> real, sn: Option<nat>, en: Option<nat>, start: Coord, end: Coord)
    requires Located(g, sn, en, start, end) && (sn.None? || en.None?)
    ensures Resolves(g, w, start, end, Failure(if sn.None? then StartNotFound else EndNotFound))
  {
  }

  /** A finished search that leaves the end record at infinite distance
      means the end cannot be reached. */
  lemma UnreachableResolves(g: Graph, w: (Coord, Coord) -> real, s: nat, e: nat, D: seq<Dist>,
                            P: seq<Option<nat>>, M: seq<bool>, rank: map<nat, nat>, k: nat, start: Coord, end: Coord)
    requires EdgeGraph.Valid(g) && Located(g, Some(s), Some(e), start, end)
    requires Finished(g, w, s, e, D, P, M, rank, k) && D[e] == Inf
    ensures Resolves(g, w, start, end, Failure(Unreachable))
  {
    EndBound(g, w, s, e, D, P, M, rank, k);
  }

  /** The line built from a traced path is the resolved shortest line. */
  lemma FoundResolves(table: NodeTable, g: Graph, w: (Coord, Coord) -> real, s: nat, e: nat, D: seq<Dist>,
                      P: seq<Option<nat>>, M: seq<bool>, rank: map<nat, nat>, k: nat, start: Coord, end: Coord,
                      path: seq<nat>)
    requires RecordsOf(table, g) && Located(g, Some(s), Some(e), start, end)
    requires Finished(g, w, s, e, D, P, M, rank, k)
    requires BackChain(P, path) && Distinct(path) && IsPath(g, Reversed(path), s, e)
    requires D[e] == Fin(Len(g, w, Reversed(path)))
    ensures forall i :: 0 <= i < |path| ==> path[i] < |table.edge|
    ensures Resolves(g, w, start, end, Success(WithoutRepeats(table.CoordinatesOf(path))))
  {
    TracedLine(table, g, w, s, e, D, P, M, rank, k, path);
  }

  /** Follows the predecessors back from the end record after a finished
      search and builds the line of the records met. */
  method TraceResult(table: NodeTable, g: Graph, w: (Coord, Coord) -> real, s: nat, e: nat,
                     ghost rank: map<nat, nat>, ghost k: nat, start: Coord, end: Coord)
    returns (r: Result<seq<Coord>>)
    requires RecordsOf(table, g) && NonNegative(w) && Located(g, Some(s), Some(e), start, end)
    requires Finished(g, w, s, e, table.distance[..], table.nearestOnPath[..], table.isMarked[..], rank, k)
    ensures Resolves(g, w, start, end, r)
  {
    ghost var D, P, M := table.distance[..], table.nearestOnPath[..], table.isMarked[..];
    var path := TracePath(table, g, w, s, e, rank, k);
    if path.Failure? {
      UnreachableResolves(g, w, s, e, D, P, M, rank, k, start, end);
      return Failure(path.error);
    }
    FoundResolves(table, g, w, s, e, D, P, M, rank, k, start, end, path.value);
    var line := BuildLine(table, path.value);
    return Success(line);
  }
}
