/** Primitive values the resolver works with: planar coordinates, optional
    values, and the ways a resolution can fail. */
module Basics {

  /** A 2D point; equality is exact value equality, as the library's
      `Equals2D` and the coordinate-keyed dictionary use it. */
  datatype Coord = Coord(x: real, y: real)

  datatype Option<T> = None | Some(value: T)

  /** The exceptions the resolver can raise, by cause. */
  datatype Error =
    | StartNotFound    // no vertex at the start coordinate: the start node stays null
    | EndNotFound      // no end node (absent, or equal to the start coordinate)
    | Unreachable      // the back-pointer chain from the end node hits null
    | DuplicateVertex  // the node dictionary already holds a vertex coordinate

  datatype Result<T> = Success(value: T) | Failure(error: Error)

  datatype Outcome = Pass | Fail(error: Error)

  /** The element at position i; it names the positions a proof about
      distinct elements is interested in. */
  function At<T>(s: seq<T>, i: nat): T
    requires i < |s|
  {
    s[i]
  }

  /** No element occurs twice. */
  predicate Distinct<T(==)>(s: seq<T>) {
    forall i, j {:trigger At(s, i), At(s, j)} :: 0 <= i < j < |s| ==> At(s, i) != At(s, j)
  }

  /** Two positions of a sequence with distinct elements hold the same
      element only if they are the same position. */
  lemma DistinctAt<T>(s: seq<T>, i: nat, j: nat)
    requires Distinct(s) && i < |s| && j < |s|
    ensures s[i] == s[j] <==> i == j
  {
    if i < j {
      assert At(s, i) != At(s, j);
    } else if j < i {
      assert At(s, j) != At(s, i);
    }
  }

  /** No element of a sequence with distinct elements occurs before its position. */
  lemma DistinctNotBefore<T>(s: seq<T>, j: nat)
    requires Distinct(s) && j < |s|
    ensures s[j] !in s[..j]
  {
    forall i | 0 <= i < j ensures s[..j][i] != s[j] {
      DistinctAt(s, i, j);
    }
  }

  /** Appending a new element keeps the elements distinct. */
  lemma DistinctSnoc<T>(s: seq<T>, x: T)
    requires Distinct(s) && x !in s
    ensures Distinct(s + [x])
  {
    var t := s + [x];
    forall i, j | 0 <= i < j < |t| ensures At(t, i) != At(t, j) {
      if j < |s| {
        DistinctAt(s, i, j);
      } else {
        assert t[i] == s[i];
      }
    }
  }

  function Reversed<T>(s: seq<T>): (r: seq<T>)
    ensures |r| == |s|
  {
    if s == [] then [] else Reversed(s[1..]) + [s[0]]
  }

  lemma {:induction false} ReversedAt<T>(s: seq<T>, k: nat)
    requires k < |s|
    ensures Reversed(s)[k] == s[|s| - 1 - k]
  {
    if k < |s| - 1 {
      ReversedAt(s[1..], k);
    }
  }

  /** Appending at the back of a sequence is prepending at the front of its reversal. */
  lemma {:induction false} ReversedSnoc<T>(s: seq<T>, x: T)
    ensures Reversed(s + [x]) == [x] + Reversed(s)
  {
    if s == [] {
      assert s + [x] == [x];
    } else {
      assert (s + [x])[1..] == s[1..] + [x];
      ReversedSnoc(s[1..], x);
    }
  }
}
