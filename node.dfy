/** The per-vertex search record. `Distance` is a double that starts as
    positive infinity, modelled as `Dist`; the table holds one record per
    vertex, record i belonging to vertex i, with the mutable properties
    (`Distance`, `IsMarked`, `NearestOnPath`) as arrays indexed by record and
    the back-pointer as the index of the predecessor record. */
module Nodes {
  import opened Basics
  import opened EdgeGraph

  /** A path length: finite, or positive infinity. */
  datatype Dist = Inf | Fin(r: real)

  /** Double addition of an edge weight: infinity absorbs it. */
  function Plus(d: Dist, w: real): Dist {
    if d.Inf? then Inf else Fin(d.r + w)
  }

  /** Double `<`: every finite value is below infinity, and infinity is
      below nothing, not even itself. */
  predicate Less(a: Dist, b: Dist) {
    a.Fin? && (b.Inf? || a.r < b.r)
  }

  predicate LessEq(a: Dist, b: Dist) {
    !Less(b, a)
  }

  /** A finite distance no greater than a path length. */
  predicate AtMost(d: Dist, len: real) {
    d.Fin? && d.r <= len
  }

  /** Double comparison: negative, zero or positive as a is below, level
      with or above b. */
  function Compare(a: Dist, b: Dist): (c: int)
    ensures -1 <= c <= 1
    ensures c < 0 <==> Less(a, b)
    ensures c > 0 <==> Less(b, a)
    ensures c == 0 <==> a == b
  {
    if Less(a, b) then -1 else if Less(b, a) then 1 else 0
  }

  /** `Compare` is a total order: antisymmetric and transitive. */
  lemma CompareOrder(a: Dist, b: Dist, c: Dist)
    ensures Compare(a, b) == -Compare(b, a)
    ensures Compare(a, b) <= 0 && Compare(b, c) <= 0 ==> Compare(a, c) <= 0
    ensures Compare(a, b) <= 0 || Compare(b, a) <= 0
  {
  }

  /** `LessEq` is a total preorder, and adding a non-negative weight never
      lowers a distance. */
  lemma LessEqFacts(a: Dist, b: Dist, c: Dist, w: real)
    ensures LessEq(a, a)
    ensures LessEq(a, b) || LessEq(b, a)
    ensures LessEq(a, b) && LessEq(b, c) ==> LessEq(a, c)
    ensures w >= 0.0 ==> LessEq(a, Plus(a, w))
    ensures LessEq(a, Fin(w)) ==> AtMost(a, w)
  {
  }

  class NodeTable {
    /** Each record's representative half-edge; it has no setter. */
    const edge: seq<HalfEdge>
    const distance: array<Dist>
    const isMarked: array<bool>
    const nearestOnPath: array<Option<nat>>

    ghost predicate Valid() {
      distance.Length == |edge| && isMarked.Length == |edge| && nearestOnPath.Length == |edge|
    }

    /** A record's coordinate is the origin of its half-edge. */
    function Coordinate(i: nat): Coord
      requires i < |edge|
    {
      edge[i].orig
    }

    /** The coordinates of a sequence of records. */
    function CoordinatesOf(path: seq<nat>): (cs: seq<Coord>)
      requires forall i :: 0 <= i < |path| ==> path[i] < |edge|
      ensures |cs| == |path| && forall i :: 0 <= i < |path| ==> cs[i] == Coordinate(path[i])
    {
      seq(|path|, i requires 0 <= i < |path| => edge[path[i]].orig)
    }

    /** One fresh record per half-edge: unmarked, no predecessor, distance 0. */
    constructor (edges: seq<HalfEdge>)
      ensures Valid() && edge == edges
      ensures fresh(distance) && fresh(isMarked) && fresh(nearestOnPath)
      ensures forall i :: 0 <= i < |edges| ==>
                Coordinate(i) == edges[i].orig &&
                distance[i] == Fin(0.0) && !isMarked[i] && nearestOnPath[i] == None
    {
      edge := edges;
      distance := new Dist[|edges|](_ => Fin(0.0));
      isMarked := new bool[|edges|](_ => false);
      nearestOnPath := new Option<nat>[|edges|](_ => None);
    }

    /** Sets the mark of record i and of no other record. */
    method SetMark(i: nat, value: bool)
      requires Valid() && i < |edge|
      modifies isMarked
      ensures isMarked[..] == old(isMarked[..])[i := value]
    {
      isMarked[i] := value;
    }

    /** The `Distance` setter: sets the distance of record i and of no other record. */
    method SetDistance(i: nat, d: Dist)
      requires Valid() && i < |edge|
      modifies distance
      ensures distance[..] == old(distance[..])[i := d]
    {
      distance[i] := d;
    }

    /** The `NearestOnPath` setter: sets the predecessor of record i and of no other record. */
    method SetNearestOnPath(i: nat, p: Option<nat>)
      requires Valid() && i < |edge|
      modifies nearestOnPath
      ensures nearestOnPath[..] == old(nearestOnPath[..])[i := p]
    {
      nearestOnPath[i] := p;
    }

    /** Orders records by ascending distance; a missing record compares as
        positive infinity. */
    function CompareTo(i: nat, other: Option<nat>): (c: int)
      requires Valid() && i < |edge| && (other.Some? ==> other.value < |edge|)
      reads distance
      ensures other.None? ==> (c < 0 <==> distance[i].Fin?) && (c >= 0 <==> distance[i] == Inf) && c <= 0
      ensures other.Some? ==> (c < 0 <==> Less(distance[i], distance[other.value])) &&
                              (c > 0 <==> Less(distance[other.value], distance[i]))
    {
      Compare(distance[i], if other.Some? then distance[other.value] else Inf)
    }
  }
}
