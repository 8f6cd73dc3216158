/** The order in which ply_advance goes through the values of a body, against that of the nested loops. */
module PlyPositions {
  import opened PlyHeaderSpec

  /** Where the stream is: before the first value, at one, or at none, its property pointer being NULL where
      it must not be. */
  datatype Position = Before | At(element: nat, tuple: nat, property: nat) | Lost

  predicate HasValues(e: ElementSpec) {
    e.numTuples > 0 && e.properties != []
  }

  /** A value of the body, or before all of them. */
  predicate InRange(es: seq<ElementSpec>, pos: Position) {
    match pos
    case Before => true
    case At(e, t, p) => e < |es| && t < es[e].numTuples && p < |es[e].properties|
    case Lost => false
  }

  /** To the first property of an element, whether it has tuples or not. */
  function Enter(es: seq<ElementSpec>, e: nat): Position {
    if e < |es| && es[e].properties != [] then At(e, 0, 0) else Lost
  }

  /** One call of ply_advance; behind the last value it starts again. */
  function Following(es: seq<ElementSpec>, pos: Position): Position
  {
    match pos
    case Before => Enter(es, 0)
    case At(e, t, p) =>
      if e >= |es| then Lost
      else if p + 1 < |es[e].properties| then At(e, t, p + 1)
      else if t + 1 < es[e].numTuples then At(e, t + 1, 0)
      else if e + 1 < |es| then Enter(es, e + 1)
      else Enter(es, 0)
    case Lost => Lost
  }

  /** From here ply_advance comes to a value. */
  predicate Moves(es: seq<ElementSpec>, pos: Position) {
    InRange(es, pos) && Following(es, pos).At? && InRange(es, Following(es, pos))
  }

  lemma FollowingIs(es: seq<ElementSpec>, pos: Position)
    requires InRange(es, pos) && pos.At?
    ensures pos.property + 1 < |es[pos.element].properties| ==>
            Following(es, pos) == At(pos.element, pos.tuple, pos.property + 1)
    ensures pos.property + 1 == |es[pos.element].properties| && Following(es, pos).At? ==>
            Following(es, pos).property == 0
  {}

  // ---- the two orders ----

  /** The positions of n calls of ply_advance, and where they end. */
  function Visited(es: seq<ElementSpec>, pos: Position, n: nat): (ps: seq<Position>)
    ensures |ps| == n
    decreases n
  {
    if n == 0 then [] else [Following(es, pos)] + Visited(es, Following(es, pos), n - 1)
  }

  function After(es: seq<ElementSpec>, pos: Position, n: nat): Position
    decreases n
  {
    if n == 0 then pos else After(es, Following(es, pos), n - 1)
  }

  /** The positions of the nested loops: properties in tuples in elements. */
  function InTuple(es: seq<ElementSpec>, e: nat, t: nat, p: nat): seq<Position>
    requires e < |es| && p <= |es[e].properties|
    decreases |es[e].properties| - p
  {
    if p == |es[e].properties| then [] else [At(e, t, p)] + InTuple(es, e, t, p + 1)
  }

  function InElement(es: seq<ElementSpec>, e: nat, t: nat): seq<Position>
    requires e < |es| && t <= es[e].numTuples
    decreases es[e].numTuples - t
  {
    if t == es[e].numTuples then [] else InTuple(es, e, t, 0) + InElement(es, e, t + 1)
  }

  function InBody(es: seq<ElementSpec>, e: nat): seq<Position>
    requires e <= |es|
    decreases |es| - e
  {
    if e == |es| then [] else InElement(es, e, 0) + InBody(es, e + 1)
  }

  /** No element with values comes after one without. */
  predicate EmptiesLast(es: seq<ElementSpec>, from: nat) {
    forall i, j :: from <= i < j < |es| && HasValues(es[j]) ==> HasValues(es[i])
  }

  // ---- where they agree ----

  lemma {:induction false} VisitedSplit(es: seq<ElementSpec>, pos: Position, m: nat, n: nat)
    ensures Visited(es, pos, m + n) == Visited(es, pos, m) + Visited(es, After(es, pos, m), n)
    decreases m
  {
    if m > 0 { VisitedSplit(es, Following(es, pos), m - 1, n); }
  }

  lemma {:induction false} AfterSplit(es: seq<ElementSpec>, pos: Position, m: nat, n: nat)
    ensures After(es, pos, m + n) == After(es, After(es, pos, m), n)
    decreases m
  {
    if m > 0 { AfterSplit(es, Following(es, pos), m - 1, n); }
  }

  /** The stream goes through these positions, up to the last of them. */
  ghost predicate GoesThrough(es: seq<ElementSpec>, pos: Position, ps: seq<Position>, last: Position) {
    Visited(es, pos, |ps|) == ps && After(es, pos, |ps|) == last
  }

  lemma GoesOn(es: seq<ElementSpec>, pos: Position, xs: seq<Position>, mid: Position, ys: seq<Position>, last: Position)
    requires GoesThrough(es, pos, xs, mid) && GoesThrough(es, mid, ys, last)
    ensures GoesThrough(es, pos, xs + ys, last)
  {
    VisitedSplit(es, pos, |xs|, |ys|);
    AfterSplit(es, pos, |xs|, |ys|);
  }

  lemma {:induction false} TupleVisited(es: seq<ElementSpec>, e: nat, t: nat, p: nat, pos: Position)
    requires e < |es| && p < |es[e].properties| && Following(es, pos) == At(e, t, p)
    ensures GoesThrough(es, pos, InTuple(es, e, t, p), At(e, t, |es[e].properties| - 1))
    decreases |es[e].properties| - p
  {
    var here := At(e, t, p);
    assert Visited(es, here, 0) == [] && After(es, here, 0) == here;
    if p + 1 < |es[e].properties| {
      TupleVisited(es, e, t, p + 1, here);
    } else {
      assert InTuple(es, e, t, p + 1) == [];
    }
  }

  lemma {:induction false} ElementVisited(es: seq<ElementSpec>, e: nat, t: nat, pos: Position)
    requires e < |es| && es[e].properties != [] && t < es[e].numTuples && Following(es, pos) == At(e, t, 0)
    ensures GoesThrough(es, pos, InElement(es, e, t), At(e, es[e].numTuples - 1, |es[e].properties| - 1))
    decreases es[e].numTuples - t
  {
    hide GoesThrough;
    var end := At(e, t, |es[e].properties| - 1);
    TupleVisited(es, e, t, 0, pos);
    if t + 1 < es[e].numTuples {
      ElementVisited(es, e, t + 1, end);
      GoesOn(es, pos, InTuple(es, e, t, 0), end, InElement(es, e, t + 1),
        At(e, es[e].numTuples - 1, |es[e].properties| - 1));
    } else {
      assert InElement(es, e, t + 1) == [];
      assert InTuple(es, e, t, 0) + [] == InTuple(es, e, t, 0);
    }
  }

  lemma {:induction false} NoPositions(es: seq<ElementSpec>, e: nat, t: nat)
    requires e < |es| && t <= es[e].numTuples && !HasValues(es[e])
    ensures InElement(es, e, t) == []
    decreases es[e].numTuples - t
  {
    if t < es[e].numTuples { NoPositions(es, e, t + 1); }
  }

  /** The values from an element on come from it or later ones, and there are some if one of these has. */
  lemma {:induction false} BodyFrom(es: seq<ElementSpec>, e: nat)
    requires e <= |es|
    ensures InBody(es, e) != [] ==> InBody(es, e)[0].At? && InBody(es, e)[0].element >= e
    ensures InBody(es, e) != [] <==> exists j :: e <= j < |es| && HasValues(es[j])
    decreases |es| - e
  {
    if e < |es| {
      BodyFrom(es, e + 1);
      if HasValues(es[e]) {
        assert InTuple(es, e, 0, 0)[0] == At(e, 0, 0);
        assert InElement(es, e, 0)[0] == At(e, 0, 0);
      } else {
        NoPositions(es, e, 0);
      }
    }
  }

  lemma {:induction false} BodyVisited(es: seq<ElementSpec>, e: nat, pos: Position)
    requires e < |es| && Following(es, pos) == Enter(es, e) && EmptiesLast(es, e)
    ensures Visited(es, pos, |InBody(es, e)|) == InBody(es, e)
    decreases |es| - e
  {
    BodyFrom(es, e);
    if HasValues(es[e]) {
      ElementVisited(es, e, 0, pos);
      var end := At(e, es[e].numTuples - 1, |es[e].properties| - 1);
      VisitedSplit(es, pos, |InElement(es, e, 0)|, |InBody(es, e + 1)|);
      if e + 1 < |es| {
        BodyVisited(es, e + 1, end);
      }
    } else {
      assert InBody(es, e) == [];
    }
  }

  /** The last value of an element. */
  function EndOf(es: seq<ElementSpec>, e: nat): (pos: Position)
    requires e < |es| && HasValues(es[e])
    ensures pos.At? && InRange(es, pos)
  {
    At(e, es[e].numTuples - 1, |es[e].properties| - 1)
  }

  /** Where the stream is when all elements before this one were read. */
  function EndBefore(es: seq<ElementSpec>, e: nat): (pos: Position)
    requires e <= |es|
    ensures InRange(es, pos)
  {
    if e == 0 then Before else if HasValues(es[e - 1]) then EndOf(es, e - 1) else EndBefore(es, e - 1)
  }

  /** With empty elements last, the stream enters every element that has values. */
  lemma Enters(es: seq<ElementSpec>, e: nat)
    requires e < |es| && HasValues(es[e]) && EmptiesLast(es, 0)
    ensures Following(es, EndBefore(es, e)) == At(e, 0, 0)
  {
    if e > 0 { assert HasValues(es[e - 1]); }
  }

  // ---- where they do not ----

  lemma {:induction false} BodyMissed(es: seq<ElementSpec>, e: nat, pos: Position)
    requires e < |es| && Following(es, pos) == Enter(es, e) && !EmptiesLast(es, e)
    ensures Visited(es, pos, |InBody(es, e)|) != InBody(es, e)
    decreases |es| - e
  {
    hide Visited, After, InElement, Following;
    if HasValues(es[e]) {
      var xs, ys := InElement(es, e, 0), InBody(es, e + 1);
      var end := EndOf(es, e);
      ElementVisited(es, e, 0, pos) by { FollowingFirst(es, e, pos); }
      FollowingEnd(es, e);
      BodyMissed(es, e + 1, end);
      VisitedSplit(es, pos, |xs|, |ys|);
      Differ(xs, Visited(es, end, |ys|), ys);
    } else {
      EmptyMissed(es, e, pos);
    }
  }

  lemma FollowingFirst(es: seq<ElementSpec>, e: nat, pos: Position)
    requires e < |es| && HasValues(es[e]) && Following(es, pos) == Enter(es, e)
    ensures Following(es, pos) == At(e, 0, 0)
  {}

  lemma FollowingEnd(es: seq<ElementSpec>, e: nat)
    requires e < |es| && HasValues(es[e])
    ensures e + 1 < |es| ==> Following(es, At(e, es[e].numTuples - 1, |es[e].properties| - 1)) == Enter(es, e + 1)
  {}

  lemma Differ(xs: seq<Position>, ys: seq<Position>, zs: seq<Position>)
    requires ys != zs
    ensures xs + ys != xs + zs
  {
    assert (xs + ys)[|xs|..] == ys && (xs + zs)[|xs|..] == zs;
  }

  /** The stream enters an element without values; the nested loops are past it. */
  lemma EmptyMissed(es: seq<ElementSpec>, e: nat, pos: Position)
    requires e < |es| && Following(es, pos) == Enter(es, e) && !HasValues(es[e]) && !EmptiesLast(es, e)
    ensures Visited(es, pos, |InBody(es, e)|) != InBody(es, e)
  {
    hide InElement, Following;
    var i, j :| e <= i < j < |es| && HasValues(es[j]) && !HasValues(es[i]);
    BodyFrom(es, e + 1);
    NoPositions(es, e, 0);
    assert [] + InBody(es, e + 1) == InBody(es, e + 1);
    assert Visited(es, pos, |InBody(es, e)|)[0] == Enter(es, e);
  }

  /** The stream goes through a body in the order of the nested loops, value by value, exactly if no element
      with values comes after one without tuples or without properties. */
  lemma Lockstep(es: seq<ElementSpec>)
    ensures Visited(es, Before, |InBody(es, 0)|) == InBody(es, 0) <==> EmptiesLast(es, 0)
  {
    if es == [] {
    } else if EmptiesLast(es, 0) {
      BodyVisited(es, 0, Before);
    } else {
      BodyMissed(es, 0, Before);
    }
  }
}
