/** The planar edge graph the resolver is built on, reduced to what the
    resolver observes of it: the vertices in the order the graph hands out
    their representative edges, and for each vertex the destinations of its
    outgoing half-edges in the order of the ring around that vertex, starting
    at the representative edge. An undirected segment is the pair of its two
    half-edges. */
module EdgeGraph {
  import opened Basics

  /** A directed half-edge from `orig` to `dest`. */
  datatype HalfEdge = HalfEdge(orig: Coord, dest: Coord)

  datatype Graph = Graph(order: seq<Coord>, adj: map<Coord, seq<Coord>>)

  const Empty: Graph := Graph([], map[])

  predicate HasEdge(g: Graph, a: Coord, b: Coord) {
    a in g.adj && b in g.adj[a]
  }

  /** The ring around vertex `a`: non-empty, no repeated destination, no
      zero-length edge, and every half-edge has its opposite. */
  ghost predicate RingValid(g: Graph, a: Coord)
    requires a in g.adj
  {
    |g.adj[a]| > 0 && Distinct(g.adj[a]) && a !in g.adj[a] &&
    forall b :: b in g.adj[a] ==> b in g.adj && a in g.adj[b]
  }

  ghost predicate Valid(g: Graph) {
    (forall c :: c in g.adj <==> c in g.order) &&
    Distinct(g.order) &&
    forall a {:trigger RingValid(g, a)} :: a in g.adj ==> RingValid(g, a)
  }

  lemma EmptyValid()
    ensures Valid(Empty)
  {
  }

  function AddVertex(g: Graph, a: Coord): Graph {
    if a in g.adj then g else Graph(g.order + [a], g.adj[a := []])
  }

  /** Adds the segment a-b as two opposite half-edges. A zero-length segment
      is refused and a segment already present is not added twice. */
  function AddEdge(g: Graph, a: Coord, b: Coord): (r: Graph)
    requires Valid(g)
    ensures Valid(r)
    ensures forall x, y :: HasEdge(r, x, y) <==>
              HasEdge(g, x, y) || (a != b && ((x == a && y == b) || (x == b && y == a)))
    ensures forall x :: x in r.adj <==> x in g.adj || (a != b && (x == a || x == b))
    ensures |g.order| <= |r.order| && r.order[..|g.order|] == g.order
    ensures a == b ==> r == g
  {
    if a == b then g
    else if HasEdge(g, a, b) then assert RingValid(g, a); g
    else
      var g1 := AddVertex(AddVertex(g, a), b);
      LinkValid(g, g1, a, b);
      Link(g1, a, b)
  }

  function Link(g1: Graph, a: Coord, b: Coord): Graph
    requires a in g1.adj && b in g1.adj
  {
    Graph(g1.order, g1.adj[a := g1.adj[a] + [b]][b := g1.adj[b] + [a]])
  }

  lemma AddVertexFacts(g: Graph, a: Coord)
    requires (forall c :: c in g.adj <==> c in g.order) && Distinct(g.order)
    ensures var g1 := AddVertex(g, a);
      (forall c :: c in g1.adj <==> c in g1.order) && Distinct(g1.order) &&
      a in g1.adj && (a !in g.adj ==> g1.adj[a] == []) &&
      (forall c :: c in g1.adj <==> c in g.adj || c == a) &&
      (forall c :: c in g.adj ==> g1.adj[c] == g.adj[c])
  {
    if a !in g.adj {
      DistinctSnoc(g.order, a);
    }
  }

  lemma LinkValid(g: Graph, g1: Graph, a: Coord, b: Coord)
    requires Valid(g) && a != b && !HasEdge(g, a, b)
    requires g1 == AddVertex(AddVertex(g, a), b)
    ensures a in g1.adj && b in g1.adj
    ensures Valid(Link(g1, a, b))
    ensures forall x :: x in g1.adj <==> x in g.adj || x == a || x == b
  {
    AddVertexFacts(g, a);
    AddVertexFacts(AddVertex(g, a), b);
    assert b !in g1.adj[a] by {
      if a in g.adj { assert g1.adj[a] == g.adj[a]; } else { assert g1.adj[a] == []; }
    }
    assert a !in g1.adj[b] by {
      if b in g.adj {
        assert g1.adj[b] == g.adj[b];
        if a in g.adj[b] { assert RingValid(g, b); }
      } else { assert g1.adj[b] == []; }
    }
    var r := Link(g1, a, b);
    forall c | c in r.adj ensures RingValid(r, c) {
      if c != a && c != b {
        LinkOther(g, g1, a, b, c);
      } else if c == a {
        LinkEnd(g, g1, a, b);
      } else {
        LinkEnd(g, g1, a, b);
      }
    }
  }

  lemma LinkOther(g: Graph, g1: Graph, a: Coord, b: Coord, c: Coord)
    requires Valid(g) && a != b && c != a && c != b && a in g1.adj && b in g1.adj
    requires forall x :: x in g1.adj <==> x in g.adj || x == a || x == b
    requires forall x :: x in g.adj ==> g1.adj[x] == g.adj[x]
    requires c in g1.adj
    ensures c in Link(g1, a, b).adj && RingValid(Link(g1, a, b), c)
  {
    var r := Link(g1, a, b);
    assert c in g.adj && r.adj[c] == g.adj[c];
    assert RingValid(g, c);
    forall d | d in r.adj[c] ensures d in r.adj && c in r.adj[d] {
      assert d in g.adj && c in g.adj[d];
      if d == a { assert c in r.adj[a]; } else if d == b { assert c in r.adj[b]; }
      else { assert r.adj[d] == g.adj[d]; }
    }
  }

  lemma LinkEnd(g: Graph, g1: Graph, a: Coord, b: Coord)
    requires Valid(g) && a != b && a in g1.adj && b in g1.adj
    requires forall x :: x in g1.adj <==> x in g.adj || x == a || x == b
    requires forall x :: x in g.adj ==> g1.adj[x] == g.adj[x]
    requires a !in g.adj ==> g1.adj[a] == []
    requires b !in g.adj ==> g1.adj[b] == []
    requires b !in g1.adj[a] && a !in g1.adj[b]
    ensures RingValid(Link(g1, a, b), a) && RingValid(Link(g1, a, b), b)
  {
    var r := Link(g1, a, b);
    assert r.adj[a] == g1.adj[a] + [b];
    assert r.adj[b] == g1.adj[b] + [a];
    assert a in g.adj ==> RingValid(g, a);
    assert b in g.adj ==> RingValid(g, b);
    DistinctSnoc(g1.adj[a], b);
    DistinctSnoc(g1.adj[b], a);
    forall d | d in r.adj[a] ensures d in r.adj && a in r.adj[d] {
      if d != b {
        assert a in g.adj && d in g.adj[a] && d in g.adj && a in g.adj[d];
        assert r.adj[d] == g.adj[d];
      }
    }
    forall d | d in r.adj[b] ensures d in r.adj && b in r.adj[d] {
      if d != a {
        assert b in g.adj && d in g.adj[b] && d in g.adj && b in g.adj[d];
        assert r.adj[d] == g.adj[d];
      }
    }
  }

  /** A non-zero-length segment `line[i-1]`-`line[i]` joining x to y (either way round). */
  predicate Segment(line: seq<Coord>, i: int, x: Coord, y: Coord) {
    0 < i < |line| && line[i - 1] != line[i] &&
    ((x == line[i - 1] && y == line[i]) || (x == line[i] && y == line[i - 1]))
  }

  /** x is an end point of a non-zero-length segment ending at position i. */
  predicate Touches(line: seq<Coord>, i: int, x: Coord) {
    0 < i < |line| && line[i - 1] != line[i] && (x == line[i - 1] || x == line[i])
  }

  /** The graph after adding the segments of the first k coordinates of a line. */
  function AddSegments(g: Graph, line: seq<Coord>, k: nat): (r: Graph)
    requires Valid(g) && k <= |line|
    ensures Valid(r)
    decreases k
  {
    if k < 2 then g else AddEdge(AddSegments(g, line, k - 1), line[k - 2], line[k - 1])
  }

  /** Adding a line string: one edge per consecutive pair of coordinates. */
  function AddLine(g: Graph, line: seq<Coord>): (r: Graph)
    requires Valid(g)
    ensures Valid(r)
  {
    AddSegments(g, line, |line|)
  }

  /** After adding the first k coordinates, the edges are the old ones plus
      exactly the non-zero-length consecutive pairs, in both directions. */
  lemma {:induction false} AddSegmentsEdges(g: Graph, line: seq<Coord>, k: nat, x: Coord, y: Coord)
    requires Valid(g) && k <= |line|
    ensures HasEdge(AddSegments(g, line, k), x, y) <==>
              HasEdge(g, x, y) || exists i :: i < k && Segment(line, i, x, y)
    decreases k
  {
    if k >= 2 {
      AddSegmentsEdges(g, line, k - 1, x, y);
      if Segment(line, k - 1, x, y) {
        assert exists i :: i < k && Segment(line, i, x, y);
      }
      if exists i :: i < k && Segment(line, i, x, y) {
        var i :| i < k && Segment(line, i, x, y);
        if i < k - 1 {
          assert exists j :: j < k - 1 && Segment(line, j, x, y);
        }
      }
    } else {
      assert forall i :: i < k ==> !Segment(line, i, x, y);
    }
  }

  /** After adding the first k coordinates, the vertices are the old ones plus
      exactly the end points of the non-zero-length consecutive pairs. */
  lemma {:induction false} AddSegmentsVertices(g: Graph, line: seq<Coord>, k: nat, x: Coord)
    requires Valid(g) && k <= |line|
    ensures x in AddSegments(g, line, k).adj <==>
              x in g.adj || exists i :: i < k && Touches(line, i, x)
    decreases k
  {
    if k >= 2 {
      AddSegmentsVertices(g, line, k - 1, x);
      if Touches(line, k - 1, x) {
        assert exists i :: i < k && Touches(line, i, x);
      }
      if exists i :: i < k && Touches(line, i, x) {
        var i :| i < k && Touches(line, i, x);
        if i < k - 1 {
          assert exists j :: j < k - 1 && Touches(line, j, x);
        }
      }
    } else {
      assert forall i :: i < k ==> !Touches(line, i, x);
    }
  }

  /** The graph of a sequence of line strings, added one after the other. */
  function LinesGraph(lines: seq<seq<Coord>>): (r: Graph)
    ensures Valid(r)
  {
    if lines == [] then (EmptyValid(); Empty)
    else AddLine(LinesGraph(lines[..|lines| - 1]), lines[|lines| - 1])
  }

  /** One representative half-edge per vertex, in vertex order: the first
      of the ring around it. */
  function VertexEdges(g: Graph): (r: seq<HalfEdge>)
    requires Valid(g)
    ensures |r| == |g.order|
    ensures forall i :: 0 <= i < |r| ==> r[i].orig == g.order[i]
    ensures forall i :: 0 <= i < |r| ==> r[i] == Representative(g, g.order[i])
  {
    seq(|g.order|, i requires 0 <= i < |g.order| => Representative(g, g.order[i]))
  }

  /** The representative half-edge of a vertex: the first of its ring. */
  function Representative(g: Graph, a: Coord): (e: HalfEdge)
    requires Valid(g) && a in g.adj
    ensures e.orig == a
  {
    assert RingValid(g, a);
    HalfEdge(a, g.adj[a][0])
  }

  /** The representative half-edge is an edge of the graph. */
  lemma RepresentativeIsEdge(g: Graph, a: Coord)
    requires Valid(g) && a in g.adj
    ensures HasEdge(g, a, Representative(g, a).dest)
  {
    assert RingValid(g, a);
  }

  /** The destinations met walking the ring of half-edges around the origin
      of `e`, starting at `e`: exactly the neighbours of that origin. */
  function RingDests(g: Graph, e: HalfEdge): (r: seq<Coord>)
    requires Valid(g) && HasEdge(g, e.orig, e.dest)
    ensures |r| > 0 && Distinct(r)
    ensures forall d :: d in r <==> HasEdge(g, e.orig, d)
  {
    assert RingValid(g, e.orig);
    g.adj[e.orig]
  }

  /** A graph vertex always has at least one neighbour, so a graph with a
      vertex has at least two. */
  lemma VertexHasNeighbour(g: Graph, a: Coord)
    requires Valid(g) && a in g.adj
    ensures |g.order| >= 2
  {
    assert RingValid(g, a);
    var b := g.adj[a][0];
    assert b in g.adj && b != a;
    var i :| 0 <= i < |g.order| && g.order[i] == a;
    var j :| 0 <= j < |g.order| && g.order[j] == b;
    assert i != j;
  }
}
