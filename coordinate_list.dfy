/** The coordinate list the output line is assembled in, with repeated
    coordinates refused: adding a coordinate equal to the last one does
    nothing. */
module CoordinateList {
  import opened Basics

  function AddNoRepeat(cs: seq<Coord>, c: Coord): seq<Coord> {
    if |cs| > 0 && cs[|cs| - 1] == c then cs else cs + [c]
  }

  /** A list built by adding each coordinate of cs in turn. */
  function WithoutRepeats(cs: seq<Coord>): seq<Coord>
    decreases |cs|
  {
    if cs == [] then [] else AddNoRepeat(WithoutRepeats(cs[..|cs| - 1]), cs[|cs| - 1])
  }

  predicate NoRepeats(cs: seq<Coord>) {
    forall i :: 0 < i < |cs| ==> cs[i - 1] != cs[i]
  }

  /** The built list has no two equal neighbours, holds the same
      coordinates, and ends with the last coordinate added. */
  lemma {:induction false} WithoutRepeatsShape(cs: seq<Coord>)
    ensures NoRepeats(WithoutRepeats(cs))
    ensures forall c :: c in WithoutRepeats(cs) <==> c in cs
    ensures |WithoutRepeats(cs)| <= |cs|
    ensures cs != [] ==> |WithoutRepeats(cs)| > 0 && WithoutRepeats(cs)[|WithoutRepeats(cs)| - 1] == cs[|cs| - 1]
    decreases |cs|
  {
    if cs != [] {
      var init := cs[..|cs| - 1];
      WithoutRepeatsShape(init);
      assert cs == init + [cs[|cs| - 1]];
    }
  }

  /** A list with no two equal neighbours is added unchanged. */
  lemma {:induction false} WithoutRepeatsIdentity(cs: seq<Coord>)
    requires NoRepeats(cs)
    ensures WithoutRepeats(cs) == cs
    decreases |cs|
  {
    if cs != [] {
      var init := cs[..|cs| - 1];
      assert NoRepeats(init);
      WithoutRepeatsIdentity(init);
      assert cs == init + [cs[|cs| - 1]];
    }
  }
}
