/** Furthest-point query and support mapping shared by GJK and EPA (collision/main.cpp:21-50).
    A shape is the sequence of its vertices, already placed in world space. */
module Minkowski {
  import opened Geometry
  import opened ArgMax

  /** The projection of every vertex of `shape` onto `d`, in vertex order. */
  function Projections(shape: seq<Vec>, d: Vec): seq<real>
  {
    seq(|shape|, i requires 0 <= i < |shape| => Dot(shape[i], d))
  }

  /** The vertex index GetFurthestInDirection answers: the scan's answer over all vertices. */
  ghost function Furthest(shape: seq<Vec>, d: Vec): (k: nat)
    requires |shape| > 0
    ensures k < |shape| && IsFirstMax(Projections(shape, d), |shape|, k)
  {
    FirstMaxUpToIsFirstMax(Projections(shape, d), |shape|);
    var k: nat :| IsFirstMax(Projections(shape, d), |shape|, k);
    k
  }

  /** Furthest is the first vertex of largest projection: no vertex projects further, and every earlier
      vertex projects strictly less. */
  lemma FurthestIsFirstMax(shape: seq<Vec>, d: Vec)
    requires |shape| > 0
    ensures forall j :: 0 <= j < |shape| ==> Dot(shape[j], d) <= Dot(shape[Furthest(shape, d)], d)
    ensures forall j :: 0 <= j < Furthest(shape, d) ==> Dot(shape[j], d) < Dot(shape[Furthest(shape, d)], d)
  {
    var ps := Projections(shape, d);
    assert forall j :: 0 <= j < |shape| ==> ps[j] == Dot(shape[j], d);
    FirstMaxUpToIsFirstMax(ps, |shape|);
  }

  /** The scan of the source: `furthestDot` starts at vertex 0's projection and is replaced only by a
      strictly larger one, so the first vertex of largest projection wins. */
  method GetFurthestInDirection(shape: seq<Vec>, direction: Vec) returns (furthestIndex: nat)
    requires |shape| > 0
    ensures furthestIndex == Furthest(shape, direction)
    ensures furthestIndex < |shape|
    ensures forall j :: 0 <= j < |shape| ==> Dot(shape[j], direction) <= Dot(shape[furthestIndex], direction)
    ensures forall j :: 0 <= j < furthestIndex ==>
      Dot(shape[j], direction) < Dot(shape[furthestIndex], direction)
  {
    ghost var ps := Projections(shape, direction);
    var furthestDot := Dot(shape[0], direction);
    furthestIndex := 0;
    var i := 0;
    while i < |shape|
      invariant 0 <= i <= |shape|
      invariant furthestIndex == FirstMaxUpTo(ps, if i == 0 then 1 else i)
      invariant furthestDot == Dot(shape[furthestIndex], direction)
    {
      var curDot := Dot(shape[i], direction);
      if curDot > furthestDot {
        furthestDot := curDot;
        furthestIndex := i;
      }
      i := i + 1;
    }
    FirstMaxUpToIsFirstMax(ps, |shape|);
    FirstMaxUnique(ps, |shape|, furthestIndex, Furthest(shape, direction));
    FurthestIsFirstMax(shape, direction);
  }

  /** `p` is a vertex difference: some vertex of `A` minus some vertex of `B`. */
  ghost predicate InDifference(p: Vec, A: seq<Vec>, B: seq<Vec>)
  {
    exists i, j :: 0 <= i < |A| && 0 <= j < |B| && p == Sub(A[i], B[j])
  }

  /** The support point of the Minkowski difference A - B in direction `d`: A's furthest vertex in `d`
      minus B's furthest vertex in `-d`, a vertex difference. */
  ghost function SupportPoint(A: seq<Vec>, B: seq<Vec>, d: Vec): Vec
    requires |A| > 0 && |B| > 0
  {
    Sub(A[Furthest(A, d)], B[Furthest(B, Neg(d))])
  }

  /** The support point is a vertex difference, so it lies in the Minkowski difference. */
  lemma SupportInDifference(A: seq<Vec>, B: seq<Vec>, d: Vec)
    requires |A| > 0 && |B| > 0
    ensures InDifference(SupportPoint(A, B, d), A, B)
  {
    var i, j := Furthest(A, d), Furthest(B, Neg(d));
    assert SupportPoint(A, B, d) == Sub(A[i], B[j]);
  }

  /** No vertex difference projects further onto `d` than the support point. */
  lemma SupportMaximal(A: seq<Vec>, B: seq<Vec>, d: Vec)
    requires |A| > 0 && |B| > 0
    ensures forall i, j :: 0 <= i < |A| && 0 <= j < |B| ==>
      Dot(Sub(A[i], B[j]), d) <= Dot(SupportPoint(A, B, d), d)
  {
    FurthestIsFirstMax(A, d);
    FurthestIsFirstMax(B, Neg(d));
    SupportExtreme(A, B, d, Furthest(A, d), Furthest(B, Neg(d)));
  }

  /** A difference of an extreme vertex of `A` in `d` and an extreme vertex of `B` in `-d` is extreme in `d`
      among all vertex differences. */
  lemma SupportExtreme(A: seq<Vec>, B: seq<Vec>, d: Vec, i: nat, j: nat)
    requires i < |A| && j < |B|
    requires forall k :: 0 <= k < |A| ==> Dot(A[k], d) <= Dot(A[i], d)
    requires forall k :: 0 <= k < |B| ==> Dot(B[k], Neg(d)) <= Dot(B[j], Neg(d))
    ensures forall k, l :: 0 <= k < |A| && 0 <= l < |B| ==> Dot(Sub(A[k], B[l]), d) <= Dot(Sub(A[i], B[j]), d)
  {
    forall k, l | 0 <= k < |A| && 0 <= l < |B|
      ensures Dot(Sub(A[k], B[l]), d) <= Dot(Sub(A[i], B[j]), d)
    {
      DotSub(A[k], B[l], d);
      DotSub(A[i], B[j], d);
    }
  }

  /** The support point is built from the first furthest vertices: ties in either shape go to the earlier
      vertex, so the support point is fully determined by the vertex order. */
  lemma SupportTieBreak(A: seq<Vec>, B: seq<Vec>, d: Vec, i: nat, j: nat)
    requires i < |A| && j < |B|
    requires IsFirstMax(Projections(A, d), |A|, i)
    requires IsFirstMax(Projections(B, Neg(d)), |B|, j)
    ensures SupportPoint(A, B, d) == Sub(A[i], B[j])
  {
    FirstMaxUnique(Projections(A, d), |A|, i, Furthest(A, d));
    FirstMaxUnique(Projections(B, Neg(d)), |B|, j, Furthest(B, Neg(d)));
  }

  /** The source's Support: A's furthest vertex in `d` minus B's furthest vertex in `-d`. */
  method Support(A: seq<Vec>, B: seq<Vec>, d: Vec) returns (p: Vec)
    requires |A| > 0 && |B| > 0
    ensures p == SupportPoint(A, B, d) && InDifference(p, A, B)
  {
    SupportInDifference(A, B, d);
    var i := GetFurthestInDirection(A, d);
    var j := GetFurthestInDirection(B, Neg(d));
    p := Sub(A[i], B[j]);
  }
}
