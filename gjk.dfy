/** The GJK overlap test (collision/main.cpp:144-232). The simplex is the caller's point list: the
    methods take it and hand back its new contents. Its last element is always the newest point. */
module Gjk {
  import opened Geometry
  import opened Minkowski

  /** The perpendicular to `to - from`, turned away from `away` by the sign of its projection onto the
      position vector `away` (the tests at collision/main.cpp:160 and 173). */
  function PerpAwayFrom(from: Vec, to: Vec, away: Vec): Vec
  {
    var p := Perp(Sub(to, from));
    if Dot(p, away) >= 0.0 then Neg(p) else p
  }

  /** The perpendicular to `b - a` turned towards the origin (collision/main.cpp:189-195). */
  function PerpTowardOrigin(a: Vec, b: Vec): (p: Vec)
    ensures Dot(p, Neg(a)) >= 0.0
    ensures Dot(p, Sub(b, a)) == 0.0
  {
    var p := Perp(Sub(b, a));
    PerpOrthogonal(Sub(b, a), p);
    PerpOrthogonal(Sub(b, a), Neg(p));
    if Dot(p, Neg(a)) < 0.0 then Neg(p) else p
  }

  /** The triangle test of collision/main.cpp:154-178 on a simplex [b, c, a]: the origin is not beyond
      the edge ab (away from c) nor beyond the edge ac (away from b). */
  predicate EnclosesOrigin(simplex: seq<Vec>)
  {
    |simplex| == 3
    && Dot(PerpAwayFrom(simplex[2], simplex[0], simplex[1]), Neg(simplex[2])) <= 0.0
    && Dot(PerpAwayFrom(simplex[2], simplex[1], simplex[0]), Neg(simplex[2])) <= 0.0
  }

  /** Position of the first element equal to `v`, as `std::find` answers. */
  function IndexOf(s: seq<Vec>, v: Vec): (k: nat)
    requires v in s
    ensures k < |s| && s[k] == v
    ensures forall j :: 0 <= j < k ==> s[j] != v
  {
    if s[0] == v then 0 else 1 + IndexOf(s[1..], v)
  }

  /** `s` without its element at position `k`, as `vector::erase` leaves it. */
  function RemoveAt(s: seq<Vec>, k: nat): (r: seq<Vec>)
    requires k < |s|
    ensures |r| == |s| - 1
    ensures forall j :: 0 <= j < k ==> r[j] == s[j]
    ensures forall j :: k <= j < |r| ==> r[j] == s[j + 1]
  {
    s[..k] + s[k + 1..]
  }

  /** Erasing the first element equal to an older point of a triangle [b, c, a] leaves that point out and
      keeps the newest point last, whether or not b and c coincide. */
  lemma {:induction false} EraseOlderPoint(simplex: seq<Vec>, v: Vec)
    requires |simplex| == 3 && (v == simplex[0] || v == simplex[1])
    ensures IndexOf(simplex, v) < 2
    ensures v == simplex[1] ==> RemoveAt(simplex, IndexOf(simplex, v)) == [simplex[0], simplex[2]]
    ensures v == simplex[0] ==> RemoveAt(simplex, IndexOf(simplex, v)) == [simplex[1], simplex[2]]
  {
    var r := RemoveAt(simplex, IndexOf(simplex, v));
    assert r[1] == simplex[2];
    if v == simplex[1] && simplex[0] == simplex[1] {
      assert r[0] == simplex[1];
    }
  }

  /** What one GJK step makes of the simplex and the direction: whether the origin is enclosed, the
      new simplex and the new search direction (collision/main.cpp:146-203). */
  function OriginStep(simplex: seq<Vec>, direction: Vec): (r: (bool, seq<Vec>, Vec))
    requires |simplex| > 0
    ensures r.0 <==> EnclosesOrigin(simplex)
    ensures |r.1| == if |simplex| == 3 && !r.0 then 2 else |simplex|
  {
    var a := simplex[|simplex| - 1];
    if |simplex| == 3 then
      var b, c := simplex[0], simplex[1];
      if Dot(PerpAwayFrom(a, b, c), Neg(a)) > 0.0 then (false, [b, a], PerpAwayFrom(a, b, c))
      else if Dot(PerpAwayFrom(a, c, b), Neg(a)) <= 0.0 then (true, simplex, direction)
      else (false, [c, a], PerpAwayFrom(a, c, b))
    else if |simplex| == 2 then (false, simplex, PerpTowardOrigin(a, simplex[0]))
    else (false, simplex, direction)
  }

  /** One GJK step on the simplex (its last element `a` is the newest point). A triangle [b, c, a] that
      passes the test is kept and reported; otherwise the older point on the far side is erased and the
      search direction becomes the perpendicular of the kept edge, pointing strictly at the origin. A line
      [b, a] is kept and the direction becomes its perpendicular towards the origin. Any other size is
      left alone. Never reports containment for anything but a triangle. */
  method ContainsOrigin(simplex: seq<Vec>, direction: Vec)
    returns (contained: bool, simplex': seq<Vec>, direction': Vec)
    requires |simplex| > 0
    ensures (contained, simplex', direction') == OriginStep(simplex, direction)
    ensures contained <==> EnclosesOrigin(simplex)
    ensures contained ==> simplex' == simplex && direction' == direction
    ensures |simplex| == 3 && !contained ==>
      var a, b, c := simplex[2], simplex[0], simplex[1];
      |simplex'| == 2 && simplex'[1] == a
      && Dot(direction', Neg(a)) > 0.0
      && Dot(direction', Sub(simplex'[0], a)) == 0.0
      && (if Dot(PerpAwayFrom(a, b, c), Neg(a)) > 0.0
          then simplex' == [b, a] && direction' == PerpAwayFrom(a, b, c)
          else simplex' == [c, a] && direction' == PerpAwayFrom(a, c, b))
    ensures |simplex| == 2 ==>
      simplex' == simplex && direction' == PerpTowardOrigin(simplex[1], simplex[0])
      && Dot(direction', Neg(simplex[1])) >= 0.0
      && Dot(direction', Sub(simplex[0], simplex[1])) == 0.0
    ensures |simplex| != 2 && |simplex| != 3 ==> !contained && simplex' == simplex && direction' == direction
  {
    var a := simplex[|simplex| - 1];
    var ao := Neg(a);
    contained, simplex', direction' := false, simplex, direction;

    if |simplex| == 3 {
      var b := simplex[0];
      var c := simplex[1];
      var ab := Sub(b, a);
      var abPerp := Perp(ab);
      if Dot(abPerp, c) >= 0.0 {
        abPerp := Neg(abPerp);
      }
      if Dot(abPerp, ao) > 0.0 {
        EraseOlderPoint(simplex', c);
        simplex' := RemoveAt(simplex', IndexOf(simplex', c));
        direction' := abPerp;
        PerpOrthogonal(ab, abPerp);
      } else {
        var ac := Sub(c, a);
        var acPerp := Perp(ac);
        if Dot(acPerp, b) >= 0.0 {
          acPerp := Neg(acPerp);
        }
        if Dot(acPerp, ao) <= 0.0 {
          return true, simplex, direction;
        }
        EraseOlderPoint(simplex', b);
        simplex' := RemoveAt(simplex', IndexOf(simplex', b));
        direction' := acPerp;
        PerpOrthogonal(ac, acPerp);
      }
    } else if |simplex| == 2 {
      var b := simplex[0];
      var ab := Sub(b, a);
      var abPerp := Perp(ab);
      if Dot(abPerp, ao) < 0.0 {
        abPerp := Neg(abPerp);
      }
      direction' := abPerp;
    }
  }

  /** An axis onto which every vertex difference projects negatively separates the shapes: on it, every
      vertex of `A` lies strictly below every vertex of `B`. */
  lemma SeparatingAxisSplitsProjections(A: seq<Vec>, B: seq<Vec>, axis: Vec)
    requires forall i, j :: 0 <= i < |A| && 0 <= j < |B| ==> Dot(Sub(A[i], B[j]), axis) < 0.0
    ensures forall i, j :: 0 <= i < |A| && 0 <= j < |B| ==> Dot(A[i], axis) < Dot(B[j], axis)
  {
    forall i, j | 0 <= i < |A| && 0 <= j < |B|
      ensures Dot(A[i], axis) < Dot(B[j], axis)
    {
      DotSub(A[i], B[j], axis);
    }
  }

  /** How the overlap test ended: the triangle test passed, a search direction in which no vertex
      difference reaches the origin was met (that direction is returned), or the pass cap ran out. The
      source's boolean result is `Overlap?`. */
  datatype Verdict = Overlap | Separated(axis: Vec) | CapReached

  /** The overlap loop from pass i on (collision/main.cpp:213-231): the cap is reached after pass 99. */
  ghost function Run(A: seq<Vec>, B: seq<Vec>, simplex: seq<Vec>, direction: Vec, i: nat)
    : (r: (Verdict, seq<Vec>))
    requires |A| > 0 && |B| > 0 && |simplex| > 0
    decreases 100 - i, 1
  {
    if i >= 100 then (CapReached, simplex) else RunPass(A, B, simplex, direction, i)
  }

  /** Pass i of the overlap loop: take the support point in the search direction; stop with a
      separation when it does not reach past the origin, otherwise append it and make one GJK step,
      stopping with an overlap when the triangle test passes and going on to pass i + 1 otherwise. */
  ghost function RunPass(A: seq<Vec>, B: seq<Vec>, simplex: seq<Vec>, direction: Vec, i: nat)
    : (r: (Verdict, seq<Vec>))
    requires |A| > 0 && |B| > 0 && |simplex| > 0 && i < 100
    decreases 100 - i, 0
  {
    var p := SupportPoint(A, B, direction);
    if Dot(p, direction) < 0.0 then (Separated(direction), simplex)
    else
      var step := OriginStep(simplex + [p], direction);
      if step.0 then (Overlap, step.1) else Run(A, B, step.1, step.2, i + 1)
  }

  /** One pass of the overlap loop (collision/main.cpp:214-229) on a simplex of one or two vertex
      differences: the support point in the search direction ends the run with a separation when it does
      not reach past the origin; otherwise it is appended and one GJK step is made, which ends the run
      with an overlap when the triangle test passes. */
  method Pass(A: seq<Vec>, B: seq<Vec>, simplex: seq<Vec>, direction: Vec, ghost i: nat)
    returns (done: bool, verdict: Verdict, simplex': seq<Vec>, direction': Vec)
    requires |A| > 0 && |B| > 0 && 1 <= |simplex| <= 2 && i < 100
    requires forall p :: p in simplex ==> InDifference(p, A, B)
    ensures !done ==> |simplex'| == 2
    ensures done ==> RunPass(A, B, simplex, direction, i) == (verdict, simplex')
    ensures !done ==> RunPass(A, B, simplex, direction, i) == Run(A, B, simplex', direction', i + 1)
    ensures done && verdict.Separated? <==> Dot(SupportPoint(A, B, direction), direction) < 0.0
    ensures done ==> verdict == Overlap || verdict == Separated(direction)
    ensures verdict == Separated(direction) ==> simplex' == simplex
    ensures verdict.Separated? ==>
      forall i, j :: 0 <= i < |A| && 0 <= j < |B| ==> Dot(Sub(A[i], B[j]), verdict.axis) < 0.0
    ensures done && verdict == Overlap ==> |simplex| == 2 && |simplex'| == 3 && EnclosesOrigin(simplex')
    ensures forall p :: p in simplex' ==> InDifference(p, A, B)
  {
    var newVec := Support(A, B, direction);
    if Dot(newVec, direction) < 0.0 {
      SupportMaximal(A, B, direction);
      return true, Separated(direction), simplex, direction;
    }
    var contained;
    contained, simplex', direction' := ContainsOrigin(simplex + [newVec], direction);
    if contained {
      return true, Overlap, simplex', direction';
    }
    done, verdict := false, CapReached;
  }

  /** The overlap test on a fresh simplex (collision/main.cpp:206-232). The first support point is taken in
      direction (1, 1) and the search continues in (-1, -1); at most 99 passes follow, and the outcome is
      Run from pass 1. The first pass alone ends the run exactly when the support point in (-1, -1) does
      not reach past the origin, and then with that separation. Every point of the simplex is a vertex
      difference, and there are one to three of them; an overlap is reported only on a triangle that
      passes the triangle test; a separation is reported with an axis onto which every vertex difference
      projects negatively. */
  method AreColliding(A: seq<Vec>, B: seq<Vec>)
    returns (verdict: Verdict, simplex: seq<Vec>, ghost passes: nat)
    requires |A| > 0 && |B| > 0
    ensures (verdict, simplex) == Run(A, B, [SupportPoint(A, B, Vec(1.0, 1.0))], Vec(-1.0, -1.0), 1)
    ensures 1 <= passes <= 99
    ensures passes == 1 <==> Dot(SupportPoint(A, B, Vec(-1.0, -1.0)), Vec(-1.0, -1.0)) < 0.0
    ensures verdict == CapReached ==> passes == 99
    ensures 1 <= |simplex| <= 3
    ensures forall p :: p in simplex ==> InDifference(p, A, B)
    ensures verdict == Overlap <==> |simplex| == 3
    ensures verdict == Overlap ==> EnclosesOrigin(simplex)
    ensures verdict.Separated? ==>
      forall i, j :: 0 <= i < |A| && 0 <= j < |B| ==> Dot(Sub(A[i], B[j]), verdict.axis) < 0.0
    ensures passes == 1 <==> |simplex| == 1
    ensures passes == 1 ==>
      simplex == [SupportPoint(A, B, Vec(1.0, 1.0))] && verdict == Separated(Vec(-1.0, -1.0))
  {
    var direction := Vec(1.0, 1.0);
    var first := Support(A, B, direction);
    simplex := [first];
    direction := Neg(direction);

    var i := 1;
    passes := 0;
    while i < 100
      invariant 1 <= i <= 100 && passes == i - 1
      invariant forall p :: p in simplex ==> InDifference(p, A, B)
      invariant i == 1 ==> simplex == [SupportPoint(A, B, Vec(1.0, 1.0))] && direction == Vec(-1.0, -1.0)
      invariant i > 1 ==> |simplex| == 2 && Dot(SupportPoint(A, B, Vec(-1.0, -1.0)), Vec(-1.0, -1.0)) >= 0.0
      invariant Run(A, B, simplex, direction, i)
        == Run(A, B, [SupportPoint(A, B, Vec(1.0, 1.0))], Vec(-1.0, -1.0), 1)
    {
      passes := passes + 1;
      var done;
      done, verdict, simplex, direction := Pass(A, B, simplex, direction, i);
      if done {
        return;
      }
      i := i + 1;
    }
    verdict := CapReached;
  }
}
