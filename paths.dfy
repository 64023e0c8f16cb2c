/** Walks through the edge graph, by vertex index and by coordinate, and
    their lengths under an edge-weight function. The resolver weighs each
    edge by the distance between its end points; here that weight is any
    non-negative function of the two coordinates. */
module Paths {
  import opened Basics
  import opened EdgeGraph

  ghost predicate NonNegative(w: (Coord, Coord) -> real) {
    forall a, b :: w(a, b) >= 0.0
  }

  /** Vertex v is a neighbour of vertex u. */
  predicate Adj(g: Graph, u: nat, v: nat) {
    u < |g.order| && v < |g.order| && HasEdge(g, g.order[u], g.order[v])
  }

  /** The weight of the edge from vertex u to vertex v. */
  function W(g: Graph, w: (Coord, Coord) -> real, u: nat, v: nat): real {
    if u < |g.order| && v < |g.order| then w(g.order[u], g.order[v]) else 0.0
  }

  /** p is a walk through the graph from vertex s to vertex t. */
  ghost predicate IsPath(g: Graph, p: seq<nat>, s: nat, t: nat) {
    |p| > 0 && p[0] == s && p[|p| - 1] == t &&
    (forall i :: 0 <= i < |p| ==> p[i] < |g.order|) &&
    forall i :: 0 <= i < |p| - 1 ==> Adj(g, p[i], p[i + 1])
  }

  /** The summed weight of the edges of a walk. */
  function Len(g: Graph, w: (Coord, Coord) -> real, p: seq<nat>): real
    decreases |p|
  {
    if |p| <= 1 then 0.0 else Len(g, w, p[..|p| - 1]) + W(g, w, p[|p| - 2], p[|p| - 1])
  }

  lemma {:induction false} LenNonNegative(g: Graph, w: (Coord, Coord) -> real, p: seq<nat>)
    requires NonNegative(w)
    ensures Len(g, w, p) >= 0.0
    decreases |p|
  {
    if |p| > 1 {
      LenNonNegative(g, w, p[..|p| - 1]);
    }
  }

  /** With non-negative weights a prefix of a walk is no longer than the walk. */
  lemma {:induction false} LenPrefix(g: Graph, w: (Coord, Coord) -> real, p: seq<nat>, k: nat)
    requires NonNegative(w) && 0 < k <= |p|
    ensures Len(g, w, p[..k]) <= Len(g, w, p)
    decreases |p| - k
  {
    if k < |p| {
      LenPrefix(g, w, p, k + 1);
      assert p[..k + 1][..k] == p[..k];
    } else {
      assert p[..k] == p;
    }
  }

  /** Putting a vertex in front of a walk adds the weight of the first edge. */
  lemma {:induction false} LenCons(g: Graph, w: (Coord, Coord) -> real, u: nat, p: seq<nat>)
    requires |p| > 0
    ensures Len(g, w, [u] + p) == W(g, w, u, p[0]) + Len(g, w, p)
    decreases |p|
  {
    if |p| > 1 {
      var q := [u] + p;
      assert q[..|q| - 1] == [u] + p[..|p| - 1];
      LenCons(g, w, u, p[..|p| - 1]);
    } else {
      assert [u] + p == [u, p[0]];
      assert ([u] + p)[..1] == [u];
    }
  }

  lemma PathCons(g: Graph, u: nat, p: seq<nat>, v: nat, t: nat)
    requires IsPath(g, p, v, t) && Adj(g, u, v)
    ensures IsPath(g, [u] + p, u, t)
  {
    var q := [u] + p;
    forall i | 0 <= i < |q| - 1 ensures Adj(g, q[i], q[i + 1]) {
      if i > 0 {
        assert q[i] == p[i - 1] && q[i + 1] == p[i];
      }
    }
  }

  /** A walk through coordinates: each step follows a half-edge. */
  ghost predicate IsCoordPath(g: Graph, cs: seq<Coord>, a: Coord, b: Coord) {
    |cs| > 0 && cs[0] == a && cs[|cs| - 1] == b && a in g.adj &&
    forall i :: 0 <= i < |cs| - 1 ==> HasEdge(g, cs[i], cs[i + 1])
  }

  function CoordLen(w: (Coord, Coord) -> real, cs: seq<Coord>): real
    decreases |cs|
  {
    if |cs| <= 1 then 0.0 else CoordLen(w, cs[..|cs| - 1]) + w(cs[|cs| - 2], cs[|cs| - 1])
  }

  /** b can be reached from a. */
  ghost predicate Reachable(g: Graph, a: Coord, b: Coord) {
    exists cs :: IsCoordPath(g, cs, a, b)
  }

  /** The coordinates of a walk given by vertex indices. */
  function Coords(g: Graph, p: seq<nat>): (cs: seq<Coord>)
    requires forall i :: 0 <= i < |p| ==> p[i] < |g.order|
    ensures |cs| == |p| && forall i :: 0 <= i < |p| ==> cs[i] == g.order[p[i]]
  {
    seq(|p|, i requires 0 <= i < |p| => g.order[p[i]])
  }

  /** The coordinates of a reversed walk are the reversed coordinates. */
  lemma CoordsReversed(g: Graph, p: seq<nat>)
    requires forall i :: 0 <= i < |p| ==> p[i] < |g.order|
    ensures (forall i :: 0 <= i < |Reversed<nat>(p)| ==> Reversed<nat>(p)[i] < |g.order|) &&
            Coords(g, Reversed<nat>(p)) == Reversed(Coords(g, p))
  {
    var r, cs := Reversed<nat>(p), Coords(g, p);
    forall i | 0 <= i < |p| ensures r[i] == p[|p| - 1 - i] {
      ReversedAt(p, i);
    }
    forall i | 0 <= i < |p| ensures Reversed(cs)[i] == cs[|p| - 1 - i] {
      ReversedAt(cs, i);
    }
    assert Coords(g, r) == Reversed(cs);
  }

  /** A walk through distinct vertices meets distinct coordinates. */
  lemma CoordsDistinct(g: Graph, p: seq<nat>)
    requires Distinct(g.order) && Distinct(p) && forall i :: 0 <= i < |p| ==> p[i] < |g.order|
    ensures Distinct(Coords(g, p))
  {
    var cs := Coords(g, p);
    forall i, j | 0 <= i < j < |cs| ensures At(cs, i) != At(cs, j) {
      DistinctAt(p, i, j);
      DistinctAt(g.order, p[i], p[j]);
    }
  }

  /** The position of a coordinate in a sequence holding it. */
  function IndexOf(s: seq<Coord>, c: Coord): (i: nat)
    requires c in s
    ensures i < |s| && s[i] == c
  {
    if s[0] == c then 0 else 1 + IndexOf(s[1..], c)
  }

  lemma {:induction false} IndexOfUnique(s: seq<Coord>, i: nat)
    requires Distinct(s) && i < |s|
    ensures IndexOf(s, s[i]) == i
    decreases i
  {
    DistinctAt(s, 0, i);
    if i > 0 {
      var t := s[1..];
      forall a, b | 0 <= a < b < |t| ensures At(t, a) != At(t, b) {
        DistinctAt(s, a + 1, b + 1);
      }
      IndexOfUnique(t, i - 1);
    }
  }

  /** A walk by indices is a walk by coordinates of the same length. */
  lemma {:induction false} ToCoords(g: Graph, w: (Coord, Coord) -> real, p: seq<nat>, s: nat, t: nat)
    requires Valid(g) && IsPath(g, p, s, t)
    ensures IsCoordPath(g, Coords(g, p), g.order[s], g.order[t])
    ensures CoordLen(w, Coords(g, p)) == Len(g, w, p)
    decreases |p|
  {
    var cs := Coords(g, p);
    assert g.order[s] in g.adj;
    if |p| > 1 {
      var p' := p[..|p| - 1];
      assert IsPath(g, p', s, p'[|p'| - 1]) by {
        forall i | 0 <= i < |p'| - 1 ensures Adj(g, p'[i], p'[i + 1]) {
          assert p'[i] == p[i] && p'[i + 1] == p[i + 1];
        }
      }
      ToCoords(g, w, p', s, p'[|p'| - 1]);
      assert cs[..|cs| - 1] == Coords(g, p');
    }
  }

  /** A walk by coordinates is a walk by indices of the same length. */
  lemma {:induction false} FromCoords(g: Graph, w: (Coord, Coord) -> real, cs: seq<Coord>, a: Coord, b: Coord)
    returns (p: seq<nat>)
    requires Valid(g) && IsCoordPath(g, cs, a, b)
    ensures a in g.order && b in g.order
    ensures IsPath(g, p, IndexOf(g.order, a), IndexOf(g.order, b))
    ensures Coords(g, p) == cs
    ensures Len(g, w, p) == CoordLen(w, cs)
    decreases |cs|
  {
    CoordPathEnds(g, cs, a, b);
    if |cs| == 1 {
      p := [IndexOf(g.order, a)];
      assert Coords(g, p) == cs;
    } else {
      var cs' := cs[..|cs| - 1];
      CoordPathPrefix(g, cs, a, b);
      var p' := FromCoords(g, w, cs', a, cs'[|cs'| - 1]);
      p := FromCoordsStep(g, w, cs, a, b, p');
    }
  }

  /** Both ends of a walk by coordinates are vertices, and so is every
      coordinate on it. */
  lemma CoordPathEnds(g: Graph, cs: seq<Coord>, a: Coord, b: Coord)
    requires Valid(g) && IsCoordPath(g, cs, a, b)
    ensures a in g.order && b in g.order
    ensures |cs| > 1 ==> cs[|cs| - 2] in g.order
  {
    if |cs| > 1 {
      var c := cs[|cs| - 2];
      assert HasEdge(g, c, b);
      assert c in g.adj;
      assert RingValid(g, c);
    }
  }

  /** All but the last coordinate of a walk by coordinates is a walk too. */
  lemma CoordPathPrefix(g: Graph, cs: seq<Coord>, a: Coord, b: Coord)
    requires IsCoordPath(g, cs, a, b) && |cs| > 1
    ensures IsCoordPath(g, cs[..|cs| - 1], a, cs[|cs| - 2])
  {
    var cs' := cs[..|cs| - 1];
    forall i | 0 <= i < |cs'| - 1 ensures HasEdge(g, cs'[i], cs'[i + 1]) {
      assert cs'[i] == cs[i] && cs'[i + 1] == cs[i + 1];
    }
  }

  /** Extending a walk by indices for all but the last coordinate over the
      last edge. */
  lemma FromCoordsStep(g: Graph, w: (Coord, Coord) -> real, cs: seq<Coord>, a: Coord, b: Coord, p': seq<nat>)
    returns (p: seq<nat>)
    requires |cs| > 1 && cs[|cs| - 1] == b && HasEdge(g, cs[|cs| - 2], b)
    requires a in g.order && cs[|cs| - 2] in g.order && b in g.order
    requires IsPath(g, p', IndexOf(g.order, a), IndexOf(g.order, cs[|cs| - 2]))
    requires Coords(g, p') == cs[..|cs| - 1] && Len(g, w, p') == CoordLen(w, cs[..|cs| - 1])
    ensures IsPath(g, p, IndexOf(g.order, a), IndexOf(g.order, b))
    ensures Coords(g, p) == cs
    ensures Len(g, w, p) == CoordLen(w, cs)
  {
    var c := cs[|cs| - 2];
    var ia, ic, j := IndexOf(g.order, a), IndexOf(g.order, c), IndexOf(g.order, b);
    assert Adj(g, ic, j);
    SnocPath(g, p', ia, ic, j);
    p := p' + [j];
    assert p[..|p| - 1] == p' && p[|p| - 2] == ic && p[|p| - 1] == j;
    assert Len(g, w, p) == Len(g, w, p') + W(g, w, ic, j);
    assert CoordLen(w, cs) == CoordLen(w, cs[..|cs| - 1]) + w(c, b);
    forall i | 0 <= i < |p| ensures Coords(g, p)[i] == cs[i] {
      if i < |p'| {
        assert p[i] == p'[i] && Coords(g, p')[i] == cs[i];
      }
    }
  }

  lemma SnocPath(g: Graph, p: seq<nat>, s: nat, t: nat, u: nat)
    requires IsPath(g, p, s, t) && Adj(g, t, u)
    ensures IsPath(g, p + [u], s, u)
  {
    var q := p + [u];
    forall i | 0 <= i < |q| - 1 ensures Adj(g, q[i], q[i + 1]) {
      if i < |p| - 1 {
        assert q[i] == p[i] && q[i + 1] == p[i + 1];
      }
    }
  }
}
