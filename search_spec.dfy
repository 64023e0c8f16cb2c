/** What the linear-scan search keeps true of the node records, stated over
    snapshots of the record arrays: D the distances, P the predecessors,
    M the marks. `rank` numbers the marked records in the order they were
    marked and `k` counts the records marked so far. */
module SearchSpec {
  import opened Basics
  import opened EdgeGraph
  import opened Nodes
  import opened Paths

  /** The distance offered to v through c. */
  function Cand(g: Graph, w: (Coord, Coord) -> real, D: seq<Dist>, c: nat, v: nat): Dist
    requires c < |D|
  {
    Plus(D[c], W(g, w, c, v))
  }

  /** Relaxing c lowers v: v is unmarked, a neighbour of c, and the offer
      through c is strictly below v's distance. */
  predicate Improves(g: Graph, w: (Coord, Coord) -> real, M: seq<bool>, D: seq<Dist>, c: nat, v: nat)
    requires c < |D| && v < |D| && v < |M|
  {
    !M[v] && Adj(g, c, v) && Less(Cand(g, w, D, c, v), D[v])
  }

  /** D', P' are D, P after relaxing the edges out of c: exactly the
      improved records change, each to the offer through c and with c as
      predecessor. */
  ghost predicate Relaxation(g: Graph, w: (Coord, Coord) -> real, c: nat, M: seq<bool>,
                             D: seq<Dist>, P: seq<Option<nat>>, D': seq<Dist>, P': seq<Option<nat>>)
  {
    |D| == |P| == |M| == |D'| == |P'| && c < |D| &&
    forall v :: 0 <= v < |D| ==>
      D'[v] == (if Improves(g, w, M, D, c, v) then Cand(g, w, D, c, v) else D[v]) &&
      P'[v] == (if Improves(g, w, M, D, c, v) then Some(c) else P[v])
  }

  /** D', P' are D, P after relaxing the edges from c to the vertices listed in done. */
  ghost predicate RelaxedTo(g: Graph, w: (Coord, Coord) -> real, c: nat, M: seq<bool>,
                            D: seq<Dist>, P: seq<Option<nat>>, D': seq<Dist>, P': seq<Option<nat>>,
                            done: seq<Coord>)
  {
    |D| == |P| == |M| == |D'| == |P'| == |g.order| && c < |D| &&
    forall v :: 0 <= v < |D| ==>
      D'[v] == (if g.order[v] in done && Improves(g, w, M, D, c, v) then Cand(g, w, D, c, v) else D[v]) &&
      P'[v] == (if g.order[v] in done && Improves(g, w, M, D, c, v) then Some(c) else P[v])
  }

  /** Relaxing nothing changes nothing. */
  lemma RelaxedNone(g: Graph, w: (Coord, Coord) -> real, c: nat, M: seq<bool>, D: seq<Dist>, P: seq<Option<nat>>)
    requires |D| == |P| == |M| == |g.order| && c < |D|
    ensures RelaxedTo(g, w, c, M, D, P, D, P, [])
  {
  }

  /** Relaxing the edge to one more neighbour n: n, if unmarked and its
      distance (still the original one) is above the offer through c,
      takes the offer and c as predecessor. */
  lemma RelaxNext(g: Graph, w: (Coord, Coord) -> real, c: nat, M: seq<bool>,
                  D: seq<Dist>, P: seq<Option<nat>>, D1: seq<Dist>, P1: seq<Option<nat>>,
                  done: seq<Coord>, n: nat, D2: seq<Dist>, P2: seq<Option<nat>>)
    requires Valid(g) && RelaxedTo(g, w, c, M, D, P, D1, P1, done)
    requires n < |D| && g.order[n] !in done && Adj(g, c, n)
    requires var better := !M[n] && Less(Cand(g, w, D, c, n), D1[n]);
      D2 == (if better then D1[n := Cand(g, w, D, c, n)] else D1) &&
      P2 == (if better then P1[n := Some(c)] else P1)
    ensures RelaxedTo(g, w, c, M, D, P, D2, P2, done + [g.order[n]])
  {
    forall v | 0 <= v < |D| && g.order[v] == g.order[n] ensures v == n {
      DistinctAt(g.order, v, n);
    }
  }

  /** Once every neighbour of c is listed, the relaxation is complete. */
  lemma RelaxedAll(g: Graph, w: (Coord, Coord) -> real, c: nat, M: seq<bool>,
                   D: seq<Dist>, P: seq<Option<nat>>, D': seq<Dist>, P': seq<Option<nat>>, done: seq<Coord>)
    requires RelaxedTo(g, w, c, M, D, P, D', P', done)
    requires forall v :: 0 <= v < |D| ==> (g.order[v] in done <==> Adj(g, c, v))
    ensures Relaxation(g, w, c, M, D, P, D', P')
  {
  }

  ghost predicate Shape(g: Graph, s: nat, D: seq<Dist>, P: seq<Option<nat>>, M: seq<bool>) {
    |D| == |g.order| && |P| == |D| && |M| == |D| && s < |D|
  }

  /** u is a marked predecessor of v whose distance plus the edge weight is v's distance. */
  ghost predicate PredEdge(g: Graph, w: (Coord, Coord) -> real, D: seq<Dist>, M: seq<bool>, u: nat, v: nat)
    requires |D| == |M| && v < |D|
  {
    u < |D| && M[u] && Adj(g, u, v) && D[u].Fin? && D[v] == Plus(D[u], W(g, w, u, v))
  }

  /** The back-pointers: the start is at 0 with none; every other record
      has one exactly when its distance is finite, and it is a marked
      neighbour that accounts for that distance; a marked record's
      predecessor was marked before it. */
  ghost predicate Chain(g: Graph, w: (Coord, Coord) -> real, s: nat, D: seq<Dist>, P: seq<Option<nat>>,
                        M: seq<bool>, rank: map<nat, nat>, k: nat)
  {
    Shape(g, s, D, P, M) &&
    D[s] == Fin(0.0) && P[s] == None &&
    (forall v :: 0 <= v < |D| && P[v].Some? ==> PredEdge(g, w, D, M, P[v].value, v)) &&
    (forall v :: 0 <= v < |D| && v != s && D[v].Fin? ==> P[v].Some?) &&
    (forall v :: 0 <= v < |D| ==> (M[v] <==> v in rank)) &&
    (forall v :: v in rank ==> v < |D| && rank[v] < k) &&
    (forall v :: 0 <= v < |D| && M[v] && P[v].Some? ==> P[v].value in rank && rank[P[v].value] < rank[v])
  }

  /** Every marked record holds the length of a shortest walk to it from
      the start: no walk is shorter, and none exists when it is infinite. */
  ghost predicate Settled(g: Graph, w: (Coord, Coord) -> real, s: nat, D: seq<Dist>, M: seq<bool>)
    requires |D| == |M|
  {
    forall u, q {:trigger IsPath(g, q, s, u)} :: 0 <= u < |D| && M[u] && IsPath(g, q, s, u) ==> AtMost(D[u], Len(g, w, q))
  }

  /** Every unmarked neighbour of a marked record has been relaxed through it. */
  ghost predicate Frontier(g: Graph, w: (Coord, Coord) -> real, D: seq<Dist>, M: seq<bool>)
    requires |D| == |M|
  {
    forall u, v {:trigger Adj(g, u, v)} :: 0 <= u < |D| && 0 <= v < |D| && M[u] && !M[v] && Adj(g, u, v) ==>
      LessEq(D[v], Plus(D[u], W(g, w, u, v)))
  }

  ghost predicate Inv(g: Graph, w: (Coord, Coord) -> real, s: nat, D: seq<Dist>, P: seq<Option<nat>>,
                      M: seq<bool>, rank: map<nat, nat>, k: nat)
  {
    Chain(g, w, s, D, P, M, rank, k) && Settled(g, w, s, D, M) && Frontier(g, w, D, M)
  }

  /** c has the least distance among the unmarked records. */
  ghost predicate MinUnmarked(D: seq<Dist>, M: seq<bool>, c: nat)
    requires |D| == |M| && c < |D|
  {
    forall v :: 0 <= v < |D| && !M[v] ==> LessEq(D[c], D[v])
  }

  /** The state the search stops in: the back-pointers form a chain, the
      end record e is unmarked, and its distance is at most the length of
      every walk to it from the start. */
  ghost predicate Finished(g: Graph, w: (Coord, Coord) -> real, s: nat, e: nat, D: seq<Dist>,
                           P: seq<Option<nat>>, M: seq<bool>, rank: map<nat, nat>, k: nat)
  {
    Chain(g, w, s, D, P, M, rank, k) && e < |D| && !M[e] &&
    forall p :: IsPath(g, p, s, e) ==> AtMost(D[e], Len(g, w, p))
  }

  /** The records as the search finds them: every distance infinite but the
      start's, which is 0; nothing marked; no predecessors. */
  ghost predicate Initial(s: nat, D: seq<Dist>, P: seq<Option<nat>>, M: seq<bool>) {
    |D| == |P| == |M| && s < |D| &&
    forall v :: 0 <= v < |D| ==> D[v] == (if v == s then Fin(0.0) else Inf) && P[v] == None && !M[v]
  }

  lemma InitialInv(g: Graph, w: (Coord, Coord) -> real, s: nat, D: seq<Dist>, P: seq<Option<nat>>, M: seq<bool>)
    requires |D| == |g.order| && Initial(s, D, P, M)
    ensures Inv(g, w, s, D, P, M, map[], 0)
    ensures MinUnmarked(D, M, s)
  {
  }

  /** A walk that leaves the marked records has a first step from a marked
      record to an unmarked one. */
  lemma Crossing(p: seq<nat>, M: seq<bool>) returns (k: nat)
    requires |p| > 0 && (forall i :: 0 <= i < |p| ==> p[i] < |M|)
    requires M[p[0]] && !M[p[|p| - 1]]
    ensures 0 < k < |p| && M[p[k - 1]] && !M[p[k]]
  {
    k := 1;
    while M[p[k]]
      invariant 1 <= k < |p| && M[p[k - 1]]
      decreases |p| - k
    {
      k := k + 1;
    }
  }

  /** The heart of the search: with non-negative weights, the unmarked
      record of least distance already holds its shortest-walk length. */
  lemma SelectedIsShortest(g: Graph, w: (Coord, Coord) -> real, s: nat, D: seq<Dist>, M: seq<bool>,
                           c: nat, p: seq<nat>)
    requires NonNegative(w) && |D| == |M| == |g.order| && s < |D|
    requires D[s] == Fin(0.0)
    requires Settled(g, w, s, D, M) && Frontier(g, w, D, M)
    requires c < |D| && !M[c] && (c == s || M[s]) && MinUnmarked(D, M, c)
    requires IsPath(g, p, s, c)
    ensures AtMost(D[c], Len(g, w, p))
  {
    LenNonNegative(g, w, p);
    if c == s {
      return;
    }
    var k := Crossing(p, M);
    var u, v := p[k - 1], p[k];
    var q := p[..k];
    assert IsPath(g, q, s, u) by {
      forall i | 0 <= i < |q| - 1 ensures Adj(g, q[i], q[i + 1]) {
        assert q[i] == p[i] && q[i + 1] == p[i + 1];
      }
    }
    assert AtMost(D[u], Len(g, w, q));
    assert Adj(g, u, v);
    assert LessEq(D[v], Plus(D[u], W(g, w, u, v)));
    assert p[..k + 1][..k] == q;
    assert Len(g, w, p[..k + 1]) == Len(g, w, q) + W(g, w, u, v);
    LenPrefix(g, w, p, k + 1);
    assert LessEq(D[c], D[v]);
  }

  /** Marking the minimal unmarked record c (with rank k) and relaxing its
      edges keeps the invariant. */
  lemma Step(g: Graph, w: (Coord, Coord) -> real, s: nat, D: seq<Dist>, P: seq<Option<nat>>, M: seq<bool>,
             rank: map<nat, nat>, k: nat, c: nat, D': seq<Dist>, P': seq<Option<nat>>)
    requires NonNegative(w)
    requires Inv(g, w, s, D, P, M, rank, k)
    requires c < |D| && !M[c] && (c == s || M[s]) && MinUnmarked(D, M, c)
    requires Relaxation(g, w, c, M[c := true], D, P, D', P')
    ensures Inv(g, w, s, D', P', M[c := true], rank[c := k], k + 1)
  {
    var M' := M[c := true];
    StepChain(g, w, s, D, P, M, rank, k, c, D', P');
    forall u, q | 0 <= u < |D'| && M'[u] && IsPath(g, q, s, u)
      ensures AtMost(D'[u], Len(g, w, q))
    {
      if u == c {
        SelectedIsShortest(g, w, s, D, M, c, q);
      }
      assert D'[u] == D[u];
    }
    StepFrontier(g, w, s, D, P, M, rank, k, c, D', P');
  }

  lemma StepChain(g: Graph, w: (Coord, Coord) -> real, s: nat, D: seq<Dist>, P: seq<Option<nat>>, M: seq<bool>,
                  rank: map<nat, nat>, k: nat, c: nat, D': seq<Dist>, P': seq<Option<nat>>)
    requires Chain(g, w, s, D, P, M, rank, k)
    requires c < |D| && !M[c] && (c == s || M[s])
    requires Relaxation(g, w, c, M[c := true], D, P, D', P')
    ensures Chain(g, w, s, D', P', M[c := true], rank[c := k], k + 1)
  {
    var M' := M[c := true];
    var rank' := rank[c := k];
    assert !Improves(g, w, M', D, c, s);
    forall v | 0 <= v < |D'| && P'[v].Some? ensures PredEdge(g, w, D', M', P'[v].value, v) {
      if Improves(g, w, M', D, c, v) {
        assert !Improves(g, w, M', D, c, c);
      } else {
        var u := P[v].value;
        assert PredEdge(g, w, D, M, u, v);
        assert !Improves(g, w, M', D, c, u);
      }
    }
    forall v | 0 <= v < |D'| && M'[v] && P'[v].Some?
      ensures P'[v].value in rank' && rank'[P'[v].value] < rank'[v]
    {
      assert !Improves(g, w, M', D, c, v);
      assert PredEdge(g, w, D, M, P[v].value, v);
    }
  }

  lemma StepFrontier(g: Graph, w: (Coord, Coord) -> real, s: nat, D: seq<Dist>, P: seq<Option<nat>>, M: seq<bool>,
                     rank: map<nat, nat>, k: nat, c: nat, D': seq<Dist>, P': seq<Option<nat>>)
    requires NonNegative(w)
    requires Inv(g, w, s, D, P, M, rank, k)
    requires c < |D| && !M[c]
    requires Relaxation(g, w, c, M[c := true], D, P, D', P')
    ensures Frontier(g, w, D', M[c := true])
  {
    var M' := M[c := true];
    forall u, v | 0 <= u < |D'| && 0 <= v < |D'| && M'[u] && !M'[v] && Adj(g, u, v)
      ensures LessEq(D'[v], Plus(D'[u], W(g, w, u, v)))
    {
      assert !Improves(g, w, M', D, c, u);
      assert D'[u] == D[u];
      if u != c {
        assert LessEq(D[v], Plus(D[u], W(g, w, u, v)));
      }
    }
  }

  /** A predecessor found in the chain: a marked neighbour that accounts
      for the distance, marked before the record it precedes. */
  lemma PredStep(g: Graph, w: (Coord, Coord) -> real, s: nat, D: seq<Dist>, P: seq<Option<nat>>,
                 M: seq<bool>, rank: map<nat, nat>, k: nat, v: nat)
    requires Chain(g, w, s, D, P, M, rank, k) && v < |D| && P[v].Some?
    ensures PredEdge(g, w, D, M, P[v].value, v) && P[v].value in rank
    ensures rank[P[v].value] < (if v in rank then rank[v] else k)
  {
  }

  /** The state at the head of each round of the search: cur, the record
      about to be marked, is unmarked and of least distance among the
      unmarked records, and the start is cur or already marked. */
  ghost predicate Round(g: Graph, w: (Coord, Coord) -> real, s: nat, D: seq<Dist>, P: seq<Option<nat>>,
                        M: seq<bool>, rank: map<nat, nat>, k: nat, cur: nat)
  {
    Inv(g, w, s, D, P, M, rank, k) && cur < |D| && !M[cur] && (cur == s || M[s]) && MinUnmarked(D, M, cur)
  }

  /** The first round starts at the start record. */
  lemma RoundFirst(g: Graph, w: (Coord, Coord) -> real, s: nat, D: seq<Dist>, P: seq<Option<nat>>, M: seq<bool>)
    requires |D| == |g.order| && Initial(s, D, P, M)
    ensures Round(g, w, s, D, P, M, map[], 0, s)
  {
    InitialInv(g, w, s, D, P, M);
  }

  /** A round marks cur and relaxes its edges; the unmarked record of least
      distance afterwards heads the next round. */
  lemma Advance(g: Graph, w: (Coord, Coord) -> real, s: nat, D: seq<Dist>, P: seq<Option<nat>>, M: seq<bool>,
                rank: map<nat, nat>, k: nat, cur: nat, D': seq<Dist>, P': seq<Option<nat>>, next: nat)
    requires NonNegative(w) && Round(g, w, s, D, P, M, rank, k, cur)
    requires Relaxation(g, w, cur, M[cur := true], D, P, D', P')
    requires next < |D| && !M[cur := true][next]
    requires forall v :: 0 <= v < |D| && !M[cur := true][v] ==> LessEq(D'[next], D'[v])
    ensures Round(g, w, s, D', P', M[cur := true], rank[cur := k], k + 1, next)
  {
    Step(g, w, s, D, P, M, rank, k, cur, D', P');
  }

  /** A round headed by the end record e finds the search finished. */
  lemma RoundEnd(g: Graph, w: (Coord, Coord) -> real, s: nat, D: seq<Dist>, P: seq<Option<nat>>, M: seq<bool>,
                 rank: map<nat, nat>, k: nat, e: nat)
    requires NonNegative(w) && Round(g, w, s, D, P, M, rank, k, e) && M[s]
    ensures Finished(g, w, s, e, D, P, M, rank, k)
  {
    EndIsShortest(g, w, s, D, P, M, rank, k, e);
  }

  /** On leaving the loop at the end record, its distance is the length of
      a shortest walk from the start, and infinite when there is none. */
  lemma EndIsShortest(g: Graph, w: (Coord, Coord) -> real, s: nat, D: seq<Dist>, P: seq<Option<nat>>,
                      M: seq<bool>, rank: map<nat, nat>, k: nat, e: nat)
    requires NonNegative(w)
    requires Inv(g, w, s, D, P, M, rank, k) && M[s]
    requires e < |D| && !M[e] && MinUnmarked(D, M, e)
    ensures forall p :: IsPath(g, p, s, e) ==> AtMost(D[e], Len(g, w, p))
  {
    forall p | IsPath(g, p, s, e) ensures AtMost(D[e], Len(g, w, p)) {
      SelectedIsShortest(g, w, s, D, M, e, p);
    }
  }
}
