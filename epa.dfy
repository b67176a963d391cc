/** The Expanding Polytope Algorithm (collision/main.cpp:56-133): the GJK triangle is treated as a
    closed polygon, edge i running from point i to point i + 1 (wrapping to 0), and grown towards the
    boundary of the Minkowski difference.

    The normalisation `n *= 1 / sqrt(dot(n, n))` is the parameter `invNorm`: the positive factor it
    multiplies a normal by. */
module Epa {
  import opened Geometry
  import opened ArgMax
  import opened Minkowski

  /** An edge as EPA records it: unit outward normal, distance of its line from the origin along that
      normal, and the simplex position at which a new point between its endpoints is inserted. */
  datatype Edge = Edge(normal: Vec, distance: real, index: nat)

  /** The convergence tolerance and overshoot `0.01f` (collision/main.cpp:123-124). */
  const Tolerance: real := 0.01

  /** The pass cap: `while (++i < 100)` runs passes i = 1 .. 99. */
  const Cap: nat := 100

  /** The normalisation factor `1 / sqrt(dot(n, n))` is positive. */
  type Positive = r: real | r > 0.0 witness 1.0

  /** The successor of position i on a closed polygon of n points. */
  function Next(i: nat, n: nat): (j: nat)
    requires i < n
    ensures j < n
  {
    if i + 1 == n then 0 else i + 1
  }

  /** The wrap-around of collision/main.cpp:76-78 is the successor modulo the number of points. */
  lemma NextIsSuccessorModulo(i: nat, n: nat)
    requires i < n
    ensures Next(i, n) == (i + 1) % n
  {
    if i + 1 == n {
      assert (i + 1) % n == 0 by {
        assert i + 1 == n * 1 + 0;
      }
    } else {
      assert (i + 1) % n == i + 1 by {
        assert i + 1 == n * 0 + (i + 1);
      }
    }
  }

  /** No edge of the closed polygon joins two equal points (and there are at least two points). With
      coincident neighbours the source normalises a zero vector, which is not a number. */
  predicate NonDegenerate(s: seq<Vec>)
  {
    |s| >= 2 && forall i {:trigger Next(i, |s|)} :: 0 <= i < |s| ==> s[i] != s[Next(i, |s|)]
  }

  /** The normal of the edge from `a` to `b` before normalisation: the perpendicular of `b - a`, turned
      round when it points at the origin side of `a` (collision/main.cpp:86-92). */
  function OutwardNormal(a: Vec, b: Vec): Vec
  {
    var n := Perp(Sub(b, a));
    if Dot(n, Neg(a)) >= 0.0 then Neg(n) else n
  }

  /** The edge's first point projects onto the outward normal non-negatively: the normal is turned
      exactly when `dot(n, -a)` is non-negative. */
  lemma OutwardSide(a: Vec, b: Vec)
    ensures Dot(a, OutwardNormal(a, b)) >= 0.0
  {
    DotNegSwap(a, Perp(Sub(b, a)));
  }

  /** For distinct endpoints the outward normal is non-zero, `a` projects onto it non-negatively, and
      `b` projects onto it exactly as `a` does. */
  lemma OutwardNormalFacts(a: Vec, b: Vec)
    requires a != b
    ensures OutwardNormal(a, b) != Zero
    ensures Dot(a, OutwardNormal(a, b)) >= 0.0
    ensures Dot(b, OutwardNormal(a, b)) == Dot(a, OutwardNormal(a, b))
  {
    var e := Sub(b, a);
    assert e != Zero by {
      assert e.x == b.x - a.x && e.y == b.y - a.y;
    }
    PerpNonZero(e);
    OutwardSide(a, b);
    OnEdgeLine(a, b, OutwardNormal(a, b));
  }

  /** Both endpoints of an edge project equally onto any perpendicular of it. */
  lemma OnEdgeLine(a: Vec, b: Vec, n: Vec)
    requires n == Perp(Sub(b, a)) || n == Neg(Perp(Sub(b, a)))
    ensures Dot(b, n) == Dot(a, n)
  {
    PerpOrthogonal(Sub(b, a), n);
    DotSub(b, a, n);
  }

  /** Edge i of the simplex as one pass of FindClosestEdge's loop computes it (collision/main.cpp:76-96). */
  function EdgeAt(s: seq<Vec>, i: nat, invNorm: Vec -> Positive): Edge
    requires i < |s|
  {
    var j := Next(i, |s|);
    var n := OutwardNormal(s[i], s[j]);
    var n := Scale(invNorm(n), n);
    Edge(n, Dot(s[i], n), j)
  }

  /** Negated edge distances: the closest edge is the first maximum of these. */
  function NegatedDistances(s: seq<Vec>, invNorm: Vec -> Positive): seq<real>
  {
    seq(|s|, i requires 0 <= i < |s| => -EdgeAt(s, i, invNorm).distance)
  }

  /** The position of the edge FindClosestEdge picks: the first edge of least distance. */
  ghost function ClosestIndex(s: seq<Vec>, invNorm: Vec -> Positive): (k: nat)
    requires |s| > 0
    ensures k < |s| && IsFirstMax(NegatedDistances(s, invNorm), |s|, k)
  {
    FirstMaxUpToIsFirstMax(NegatedDistances(s, invNorm), |s|);
    var k: nat :| IsFirstMax(NegatedDistances(s, invNorm), |s|, k);
    k
  }

  /** The chosen edge has the least distance, and every earlier edge is strictly farther. */
  lemma ClosestIsFirstLeast(s: seq<Vec>, invNorm: Vec -> Positive)
    requires |s| > 0
    ensures var k := ClosestIndex(s, invNorm);
      (forall i :: 0 <= i < |s| ==> EdgeAt(s, k, invNorm).distance <= EdgeAt(s, i, invNorm).distance)
      && (forall i :: 0 <= i < k ==> EdgeAt(s, k, invNorm).distance < EdgeAt(s, i, invNorm).distance)
  {
    var ds := NegatedDistances(s, invNorm);
    assert forall i :: 0 <= i < |s| ==> ds[i] == -EdgeAt(s, i, invNorm).distance;
  }

  ghost function ClosestEdge(s: seq<Vec>, invNorm: Vec -> Positive): Edge
    requires |s| > 0
  {
    EdgeAt(s, ClosestIndex(s, invNorm), invNorm)
  }

  /** On a non-degenerate simplex every edge normal is non-zero, and it is turned so that the edge's
      first point projects onto it non-negatively: every edge distance is at least zero. Both endpoints
      lie on the edge's line, at that distance along the normal. */
  lemma EdgeGeometry(s: seq<Vec>, i: nat, invNorm: Vec -> Positive)
    requires NonDegenerate(s) && i < |s|
    ensures EdgeAt(s, i, invNorm).normal != Zero
    ensures EdgeAt(s, i, invNorm).distance >= 0.0
    ensures Dot(s[i], EdgeAt(s, i, invNorm).normal) == EdgeAt(s, i, invNorm).distance
    ensures Dot(s[Next(i, |s|)], EdgeAt(s, i, invNorm).normal) == EdgeAt(s, i, invNorm).distance
  {
    var j := Next(i, |s|);
    var n := OutwardNormal(s[i], s[j]);
    var k := invNorm(n);
    OutwardNormalFacts(s[i], s[j]);
    assert k > 0.0;
    ScaleNonZero(k, n);
    DotScale(s[i], k, n);
    DotScale(s[j], k, n);
  }

  /** The scan of the source, each pass computing one edge as EdgeAt does: edge 0 is always taken (it
      replaces the FLT_MAX sentinel), and a later edge replaces the best so far only when strictly
      closer. The answer is the first edge of least distance, its normal is non-zero, its distance is
      at least zero, and its index is the successor of its first point. */
  method FindClosestEdge(simplex: seq<Vec>, invNorm: Vec -> Positive) returns (closest: Edge)
    requires NonDegenerate(simplex)
    ensures closest == ClosestEdge(simplex, invNorm)
    ensures exists k :: 0 <= k < |simplex| && closest == EdgeAt(simplex, k, invNorm)
                        && closest.index == Next(k, |simplex|)
                        && (forall i :: 0 <= i < k ==>
                              closest.distance < EdgeAt(simplex, i, invNorm).distance)
    ensures forall i :: 0 <= i < |simplex| ==> closest.distance <= EdgeAt(simplex, i, invNorm).distance
    ensures closest.index < |simplex| && closest.normal != Zero && closest.distance >= 0.0
  {
    ghost var ds := NegatedDistances(simplex, invNorm);
    ghost var best := 0;
    closest := Edge(Zero, 0.0, 0);
    var i := 0;
    while i < |simplex|
      invariant 0 <= i <= |simplex|
      invariant i > 0 ==> best == FirstMaxUpTo(ds, i) && closest == EdgeAt(simplex, best, invNorm)
    {
      var edge := EdgeAt(simplex, i, invNorm);
      if i > 0 {
        ScanStep(simplex, invNorm, i, best);
      }
      if i == 0 || edge.distance < closest.distance {
        closest := edge;
        best := i;
      }
      i := i + 1;
    }
    ScanAnswer(simplex, invNorm);
  }

  /** One pass of the scan: edge i replaces the best so far exactly when it is strictly closer. */
  lemma ScanStep(s: seq<Vec>, invNorm: Vec -> Positive, i: nat, best: nat)
    requires 1 <= i < |s| && best == FirstMaxUpTo(NegatedDistances(s, invNorm), i)
    ensures FirstMaxUpTo(NegatedDistances(s, invNorm), i + 1)
      == if EdgeAt(s, i, invNorm).distance < EdgeAt(s, best, invNorm).distance then i else best
  {
    var ds := NegatedDistances(s, invNorm);
    FirstMaxStep(ds, i, best, ds[i], ds[best]);
  }

  /** The scan's answer over all edges is the closest edge, with the geometry FindClosestEdge promises. */
  lemma ScanAnswer(s: seq<Vec>, invNorm: Vec -> Positive)
    requires NonDegenerate(s)
    ensures var k := FirstMaxUpTo(NegatedDistances(s, invNorm), |s|);
      var e := EdgeAt(s, k, invNorm);
      k == ClosestIndex(s, invNorm)
      && e.index == Next(k, |s|) && e.index < |s| && e.normal != Zero && e.distance >= 0.0
      && (forall i :: 0 <= i < k ==> e.distance < EdgeAt(s, i, invNorm).distance)
      && (forall i :: 0 <= i < |s| ==> e.distance <= EdgeAt(s, i, invNorm).distance)
  {
    var ds := NegatedDistances(s, invNorm);
    var k := FirstMaxUpTo(ds, |s|);
    FirstMaxUpToIsFirstMax(ds, |s|);
    FirstMaxUnique(ds, |s|, k, ClosestIndex(s, invNorm));
    ClosestIsFirstLeast(s, invNorm);
    EdgeGeometry(s, k, invNorm);
  }

  /** `s` with `p` inserted at position k, as `vector::insert` leaves it. */
  function InsertAt(s: seq<Vec>, k: nat, p: Vec): (r: seq<Vec>)
    requires k <= |s|
    ensures |r| == |s| + 1
  {
    s[..k] + [p] + s[k..]
  }

  /** After the insertion the point is at position k, the points before it are unchanged, and the
      points after it have moved up by one. */
  lemma InsertAtPlaces(s: seq<Vec>, k: nat, p: Vec)
    requires k <= |s|
    ensures var r := InsertAt(s, k, p);
      r[k] == p
      && (forall j {:trigger r[j]} :: 0 <= j < k ==> r[j] == s[j])
      && (forall j {:trigger r[j]} :: k < j < |r| ==> r[j] == s[j - 1])
  {
  }

  /** The points of `s` occur in `t` in the same order. */
  predicate IsSubsequence(s: seq<Vec>, t: seq<Vec>)
    decreases |t|
  {
    |s| <= |t|
    && (s == []
        || (s[0] == t[0] && IsSubsequence(s[1..], t[1..]))
        || IsSubsequence(s, t[1..]))
  }

  lemma {:induction false} SubsequenceReflexive(s: seq<Vec>)
    ensures IsSubsequence(s, s)
    decreases |s|
  {
    if s != [] {
      SubsequenceReflexive(s[1..]);
    }
  }

  /** An insertion keeps every earlier point, in order. */
  lemma {:induction false} InsertKeepsOrder(s: seq<Vec>, t: seq<Vec>, k: nat, p: Vec)
    requires k <= |t| && IsSubsequence(s, t)
    ensures IsSubsequence(s, InsertAt(t, k, p))
    decreases |t|
  {
    var t' := InsertAt(t, k, p);
    InsertAtPlaces(t, k, p);
    if k == 0 {
      assert t'[1..] == t;
    } else if s != [] {
      assert t'[0] == t[0];
      assert t'[1..] == InsertAt(t[1..], k - 1, p);
      if s[0] == t[0] && IsSubsequence(s[1..], t[1..]) {
        InsertKeepsOrder(s[1..], t[1..], k - 1, p);
      } else {
        InsertKeepsOrder(s, t[1..], k - 1, p);
      }
    }
  }

  /** Inserting, between the endpoints of edge i, a point that differs from both keeps the polygon
      non-degenerate. */
  lemma InsertKeepsNonDegenerate(s: seq<Vec>, i: nat, p: Vec)
    requires NonDegenerate(s) && i < |s|
    requires p != s[i] && p != s[Next(i, |s|)]
    ensures NonDegenerate(InsertAt(s, Next(i, |s|), p))
  {
    var n := |s|;
    var j := Next(i, n);
    var t := InsertAt(s, j, p);
    InsertAtPlaces(s, j, p);
    forall m | 0 <= m < |t|
      ensures t[m] != t[Next(m, |t|)]
    {
      if m < j {
        if m + 1 < j {
          assert t[m] == s[m] && t[m + 1] == s[m + 1] && Next(m, n) == m + 1;
        } else {
          assert t[m + 1] == p && t[m] == s[i];
        }
      } else if m == j {
        if j == 0 {
          assert t[1] == s[0];
        } else {
          assert t[m + 1] == s[j];
        }
      } else if m + 1 < |t| {
        assert t[m] == s[m - 1] && t[m + 1] == s[m] && Next(m - 1, n) == m;
      } else {
        assert Next(m, |t|) == 0;
        if j == 0 {
          assert t[m] == s[i] && t[0] == p;
        } else {
          assert t[m] == s[n - 1] && t[0] == s[0] && Next(n - 1, n) == 0;
        }
      }
    }
  }

  /** The test of collision/main.cpp:117-123: the support point in the closest edge's normal direction
      lies within the tolerance of that edge's line, so the boundary has been reached. */
  ghost predicate Converged(A: seq<Vec>, B: seq<Vec>, s: seq<Vec>, invNorm: Vec -> Positive)
    requires |A| > 0 && |B| > 0 && |s| > 0
  {
    var e := ClosestEdge(s, invNorm);
    Abs(Dot(SupportPoint(A, B, e.normal), e.normal) - e.distance) < Tolerance
  }

  /** The result of a converged pass (collision/main.cpp:124): the closest edge's normal scaled by the
      support distance plus the overshoot. */
  ghost function Correction(A: seq<Vec>, B: seq<Vec>, s: seq<Vec>, invNorm: Vec -> Positive): Vec
    requires |A| > 0 && |B| > 0 && |s| > 0
  {
    var e := ClosestEdge(s, invNorm);
    Scale(Dot(SupportPoint(A, B, e.normal), e.normal) + Tolerance, e.normal)
  }

  /** One pass that does not converge (collision/main.cpp:114-128): the support point in the closest
      edge's normal direction is inserted at that edge's index. */
  ghost function Expand(A: seq<Vec>, B: seq<Vec>, s: seq<Vec>, invNorm: Vec -> Positive): (t: seq<Vec>)
    requires |A| > 0 && |B| > 0 && |s| > 0
    ensures |t| == |s| + 1
  {
    var e := ClosestEdge(s, invNorm);
    InsertAt(s, e.index, SupportPoint(A, B, e.normal))
  }

  /** The simplex after k passes that did not converge. */
  ghost function Grow(A: seq<Vec>, B: seq<Vec>, s: seq<Vec>, invNorm: Vec -> Positive, k: nat): (t: seq<Vec>)
    requires |A| > 0 && |B| > 0 && |s| > 0
    ensures |t| == |s| + k
    decreases k
  {
    if k == 0 then s else Grow(A, B, Expand(A, B, s, invNorm), invNorm, k - 1)
  }

  /** None of the first k passes converged. */
  ghost predicate NoneConverged(A: seq<Vec>, B: seq<Vec>, s: seq<Vec>, invNorm: Vec -> Positive, k: nat)
    requires |A| > 0 && |B| > 0 && |s| > 0
    decreases k
  {
    k == 0 || (!Converged(A, B, s, invNorm) && NoneConverged(A, B, Expand(A, B, s, invNorm), invNorm, k - 1))
  }

  /** The search loop from pass i on (collision/main.cpp:113-132): a converged pass ends it with the
      correction, any other pass expands the simplex, and after pass 99 the zero vector is returned. */
  ghost function Search(A: seq<Vec>, B: seq<Vec>, s: seq<Vec>, invNorm: Vec -> Positive, i: nat)
    : (r: (Vec, seq<Vec>))
    requires |A| > 0 && |B| > 0 && |s| > 0
    decreases Cap - i, 1
  {
    if i >= Cap then (Zero, s) else SearchPass(A, B, s, invNorm, i)
  }

  /** Pass i of the search loop: stop with the correction on convergence, otherwise expand and go on. */
  ghost function SearchPass(A: seq<Vec>, B: seq<Vec>, s: seq<Vec>, invNorm: Vec -> Positive, i: nat)
    : (r: (Vec, seq<Vec>))
    requires |A| > 0 && |B| > 0 && |s| > 0 && i < Cap
    decreases Cap - i, 0
  {
    if Converged(A, B, s, invNorm) then (Correction(A, B, s, invNorm), s)
    else Search(A, B, Expand(A, B, s, invNorm), invNorm, i + 1)
  }

  /** A pass that does not converge inserts a support point that differs from both endpoints of the
      closest edge, since each endpoint lies at the edge's distance along its normal: the grown simplex
      is still non-degenerate. */
  lemma ExpandKeepsNonDegenerate(A: seq<Vec>, B: seq<Vec>, s: seq<Vec>, invNorm: Vec -> Positive)
    requires |A| > 0 && |B| > 0 && NonDegenerate(s)
    requires !Converged(A, B, s, invNorm)
    ensures NonDegenerate(Expand(A, B, s, invNorm))
  {
    var k := ClosestIndex(s, invNorm);
    var e := EdgeAt(s, k, invNorm);
    var p := SupportPoint(A, B, e.normal);
    EdgeGeometry(s, k, invNorm);
    assert p != s[k] && p != s[Next(k, |s|)];
    InsertKeepsNonDegenerate(s, k, p);
  }

  /** A pass that does not converge keeps the simplex non-degenerate, keeps the starting points in
      order, and adds only a point of the Minkowski difference. */
  lemma GrowStep(A: seq<Vec>, B: seq<Vec>, start: seq<Vec>, s: seq<Vec>, invNorm: Vec -> Positive)
    requires |A| > 0 && |B| > 0
    requires NonDegenerate(s) && IsSubsequence(start, s)
    requires forall q :: q in s ==> q in start || InDifference(q, A, B)
    requires !Converged(A, B, s, invNorm)
    ensures var t := Expand(A, B, s, invNorm);
      NonDegenerate(t) && IsSubsequence(start, t)
      && forall q :: q in t ==> q in start || InDifference(q, A, B)
  {
    ExpandKeepsNonDegenerate(A, B, s, invNorm);
    var e := ClosestEdge(s, invNorm);
    var p := SupportPoint(A, B, e.normal);
    InsertKeepsOrder(start, s, e.index, p);
    SupportInDifference(A, B, e.normal);
    var t := InsertAt(s, e.index, p);
    InsertAtPlaces(s, e.index, p);
    forall q | q in t
      ensures q in start || InDifference(q, A, B)
    {
      var m :| 0 <= m < |t| && t[m] == q;
      if m != e.index {
        assert q == s[if m < e.index then m else m - 1];
      }
    }
  }

  /** A converged pass on a non-degenerate simplex whose points lie in the Minkowski difference scales
      the closest edge's normal by a strictly positive factor, so the correction is not zero. */
  lemma ConvergedCorrection(A: seq<Vec>, B: seq<Vec>, s: seq<Vec>, invNorm: Vec -> Positive)
    requires |A| > 0 && |B| > 0 && NonDegenerate(s)
    requires Converged(A, B, s, invNorm)
    ensures var e := ClosestEdge(s, invNorm);
      Dot(SupportPoint(A, B, e.normal), e.normal) + Tolerance > 0.0 && Correction(A, B, s, invNorm) != Zero
  {
    var k := ClosestIndex(s, invNorm);
    var e := EdgeAt(s, k, invNorm);
    var d := Dot(SupportPoint(A, B, e.normal), e.normal);
    EdgeGeometry(s, k, invNorm);
    ScaleNonZero(d + Tolerance, e.normal);
  }

  /** One more pass at the front: k + 1 passes from s are k passes from s expanded once. */
  lemma GrowUnfold(A: seq<Vec>, B: seq<Vec>, s: seq<Vec>, invNorm: Vec -> Positive, k: nat)
    requires |A| > 0 && |B| > 0 && |s| > 0
    ensures Grow(A, B, s, invNorm, k + 1) == Grow(A, B, Expand(A, B, s, invNorm), invNorm, k)
    ensures NoneConverged(A, B, s, invNorm, k + 1)
        <==> !Converged(A, B, s, invNorm) && NoneConverged(A, B, Expand(A, B, s, invNorm), invNorm, k)
  {
  }

  /** What the search from pass i does to `s`: it makes n non-converged passes, at most the Cap - i
      passes left, and returns the simplex they grew; the result is the zero vector exactly when all of
      them failed, and otherwise the correction of that converged simplex. */
  ghost predicate SearchGrows(A: seq<Vec>, B: seq<Vec>, s: seq<Vec>, invNorm: Vec -> Positive, i: nat)
    requires |A| > 0 && |B| > 0 && |s| > 0 && i <= Cap
  {
    var r := Search(A, B, s, invNorm, i);
    var n := |r.1| - |s|;
    0 <= n <= Cap - i
    && r.1 == Grow(A, B, s, invNorm, n) && NoneConverged(A, B, s, invNorm, n)
    && (r.0 == Zero <==> n == Cap - i)
    && (r.0 != Zero ==> Converged(A, B, r.1, invNorm) && r.0 == Correction(A, B, r.1, invNorm))
  }

  /** The search from pass i makes n non-converged passes, n at most the Cap - i passes left, and its
      simplex is the one grown by them; it returns the zero vector exactly when all of them failed, and
      otherwise the correction of a converged simplex. */
  lemma {:induction false} SearchIsGrow(
    A: seq<Vec>, B: seq<Vec>, s: seq<Vec>, invNorm: Vec -> Positive, i: nat)
    requires |A| > 0 && |B| > 0 && NonDegenerate(s) && i <= Cap
    ensures SearchGrows(A, B, s, invNorm, i)
    decreases Cap - i
  {
    if i < Cap {
      if Converged(A, B, s, invNorm) {
        ConvergedCorrection(A, B, s, invNorm);
      } else {
        ExpandKeepsNonDegenerate(A, B, s, invNorm);
        SearchIsGrow(A, B, Expand(A, B, s, invNorm), invNorm, i + 1);
        SearchStep(A, B, s, invNorm, i);
      }
    }
  }

  /** The inductive step of SearchIsGrow: a pass that does not converge is one more pass at the front. */
  lemma SearchStep(A: seq<Vec>, B: seq<Vec>, s: seq<Vec>, invNorm: Vec -> Positive, i: nat)
    requires |A| > 0 && |B| > 0 && |s| > 0 && i < Cap
    requires !Converged(A, B, s, invNorm)
    requires SearchGrows(A, B, Expand(A, B, s, invNorm), invNorm, i + 1)
    ensures SearchGrows(A, B, s, invNorm, i)
  {
    var t := Expand(A, B, s, invNorm);
    var r := Search(A, B, t, invNorm, i + 1);
    var m := |r.1| - |t|;
    GrowUnfold(A, B, s, invNorm, m);
    assert Search(A, B, s, invNorm, i) == r;
    assert |r.1| - |s| == m + 1;
  }

  /** One pass of the search loop (collision/main.cpp:114-129): find the closest edge, take the support
      point in its normal direction, and either stop with the normal scaled by the support distance plus
      the overshoot, or insert the point at the edge's index. */
  method Pass(A: seq<Vec>, B: seq<Vec>, s: seq<Vec>, invNorm: Vec -> Positive, ghost i: nat)
    returns (converged: bool, correction: Vec, t: seq<Vec>)
    requires |A| > 0 && |B| > 0 && NonDegenerate(s) && i < Cap
    ensures converged <==> Converged(A, B, s, invNorm)
    ensures converged ==> correction == Correction(A, B, s, invNorm) && correction != Zero
    ensures converged ==> SearchPass(A, B, s, invNorm, i) == (correction, s)
    ensures !converged ==> t == Expand(A, B, s, invNorm) && NonDegenerate(t)
    ensures !converged ==> SearchPass(A, B, s, invNorm, i) == Search(A, B, t, invNorm, i + 1)
  {
    var e := FindClosestEdge(s, invNorm);
    var p := Support(A, B, e.normal);
    var d := Dot(p, e.normal);
    if Abs(d - e.distance) < Tolerance {
      ConvergedCorrection(A, B, s, invNorm);
      return true, Scale(d + Tolerance, e.normal), s;
    }
    ExpandKeepsNonDegenerate(A, B, s, invNorm);
    converged, correction, t := false, Zero, InsertAt(s, e.index, p);
  }

  /** The simplex the search from pass i returns is still non-degenerate, keeps the starting points in
      order and gains only Minkowski-difference points. */
  lemma {:induction false} SearchKeeps(
    A: seq<Vec>, B: seq<Vec>, start: seq<Vec>, s: seq<Vec>, invNorm: Vec -> Positive, i: nat)
    requires |A| > 0 && |B| > 0
    requires NonDegenerate(s) && IsSubsequence(start, s)
    requires forall q :: q in s ==> q in start || InDifference(q, A, B)
    ensures var t := Search(A, B, s, invNorm, i).1;
      NonDegenerate(t) && IsSubsequence(start, t)
      && forall q :: q in t ==> q in start || InDifference(q, A, B)
    decreases Cap - i
  {
    if i < Cap && !Converged(A, B, s, invNorm) {
      GrowStep(A, B, start, s, invNorm);
      SearchKeeps(A, B, start, Expand(A, B, s, invNorm), invNorm, i + 1);
    }
  }

  /** The search from pass i makes at most the Cap - i passes left, each adding one point; it returns the
      zero vector exactly when all of them missed, and otherwise the correction of a converged simplex. */
  lemma {:induction false} SearchBounds(
    A: seq<Vec>, B: seq<Vec>, s: seq<Vec>, invNorm: Vec -> Positive, i: nat)
    requires |A| > 0 && |B| > 0 && NonDegenerate(s) && i <= Cap
    ensures var r := Search(A, B, s, invNorm, i);
      |s| <= |r.1| <= |s| + (Cap - i)
      && (r.0 == Zero <==> |r.1| == |s| + (Cap - i))
      && (r.0 != Zero ==> Converged(A, B, r.1, invNorm) && r.0 == Correction(A, B, r.1, invNorm))
    decreases Cap - i
  {
    if i < Cap {
      if Converged(A, B, s, invNorm) {
        ConvergedCorrection(A, B, s, invNorm);
      } else {
        ExpandKeepsNonDegenerate(A, B, s, invNorm);
        SearchBounds(A, B, Expand(A, B, s, invNorm), invNorm, i + 1);
      }
    }
  }

  /** The penetration search on the GJK terminating simplex (collision/main.cpp:110-133). Its loop
      computes Search from pass 1: each pass before the last missed the tolerance and inserted the
      support point in the closest edge's normal direction at that edge's index (SearchGrows). The
      simplex stays non-degenerate, keeps its earlier points in order and gains only
      Minkowski-difference points; on convergence the result is the closest edge's normal scaled by a
      strictly positive factor, and after 99 insertions it is the zero vector. */
  method FindPenetrationDistance(A: seq<Vec>, B: seq<Vec>, simplex: seq<Vec>, invNorm: Vec -> Positive)
    returns (correction: Vec, simplex': seq<Vec>)
    requires |A| > 0 && |B| > 0
    requires NonDegenerate(simplex)
    ensures (correction, simplex') == Search(A, B, simplex, invNorm, 1)
    ensures |simplex| <= |simplex'| <= |simplex| + (Cap - 1)
    ensures NonDegenerate(simplex') && IsSubsequence(simplex, simplex')
    ensures forall p :: p in simplex' ==> p in simplex || InDifference(p, A, B)
    ensures correction == Zero <==> |simplex'| == |simplex| + (Cap - 1)
    ensures correction != Zero ==>
      Converged(A, B, simplex', invNorm) && correction == Correction(A, B, simplex', invNorm)
    ensures SearchGrows(A, B, simplex, invNorm, 1)
  {
    simplex' := simplex;
    var i := 1;
    while i < Cap
      invariant 1 <= i <= Cap && NonDegenerate(simplex')
      invariant Search(A, B, simplex', invNorm, i) == Search(A, B, simplex, invNorm, 1)
    {
      var converged, c, t := Pass(A, B, simplex', invNorm, i);
      if converged {
        correction := c;
        break;
      }
      simplex' := t;
      i := i + 1;
    }
    if i == Cap {
      correction := Zero;
    }
    SearchBounds(A, B, simplex, invNorm, 1);
    SubsequenceReflexive(simplex);
    SearchKeeps(A, B, simplex, simplex, invNorm, 1);
    SearchIsGrow(A, B, simplex, invNorm, 1);
  }
}
