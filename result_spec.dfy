/** What the resolver promises for a start and an end coordinate: the
    line it returns runs from the end back to the start along the graph,
    meets no vertex twice and is no longer than any walk from the start to the end; otherwise it
    fails, saying which of the two coordinates is missing or that the end
    cannot be reached. */
module ResultSpec {
  import opened Basics
  import opened EdgeGraph
  import opened Paths

  /** line, read backwards, is a walk from a to b that meets no coordinate
      twice, and no walk from a to b is shorter. */
  ghost predicate IsShortestLine(g: Graph, w: (Coord, Coord) -> real, line: seq<Coord>, a: Coord, b: Coord) {
    Distinct(line) && IsCoordPath(g, Reversed(line), a, b) &&
    forall cs :: IsCoordPath(g, cs, a, b) ==> CoordLen(w, Reversed(line)) <= CoordLen(w, cs)
  }

  /** The outcome of resolving a shortest line from start to end. An end
      equal to the start is not found: the start claims that vertex. */
  ghost predicate Resolves(g: Graph, w: (Coord, Coord) -> real, start: Coord, end: Coord, r: Result<seq<Coord>>) {
    if start !in g.adj then r == Failure(StartNotFound)
    else if end !in g.adj || end == start then r == Failure(EndNotFound)
    else if !Reachable(g, start, end) then r == Failure(Unreachable)
    else r.Success? && IsShortestLine(g, w, r.value, start, end)
  }
}
