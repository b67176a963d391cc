/** Two-dimensional vector primitives shared by GJK and EPA (collision/main.cpp:14-16).
    Coordinates are exact reals: every step of the collision code is +, -, * and a sign test,
    except the normalisation in EPA, which the Epa module takes as a parameter. */
module Geometry {

  datatype Vec = Vec(x: real, y: real)

  const Zero := Vec(0.0, 0.0)

  function Sub(u: Vec, v: Vec): Vec { Vec(u.x - v.x, u.y - v.y) }

  function Neg(u: Vec): Vec { Vec(-u.x, -u.y) }

  function Scale(k: real, u: Vec): Vec { Vec(k * u.x, k * u.y) }

  /** The `dot` of the source. */
  function Dot(u: Vec, v: Vec): real { u.x * v.x + u.y * v.y }

  /** The perpendicular `(-e.y, e.x)` built from an edge vector at several places in the source. */
  function Perp(u: Vec): Vec { Vec(-u.y, u.x) }

  function Abs(r: real): (a: real)
    ensures a >= 0.0 && (a == r || a == -r)
  {
    if r < 0.0 then -r else r
  }

  /** A perpendicular is orthogonal to the vector it is built from, whichever way it is turned. */
  lemma PerpOrthogonal(u: Vec, v: Vec)
    requires v == Perp(u) || v == Neg(Perp(u))
    ensures Dot(v, u) == 0.0 && Dot(u, v) == 0.0
  {
    assert u.x * u.y == u.y * u.x;
  }

  /** A negation moves across `dot` as its arguments swap. */
  lemma DotNegSwap(u: Vec, v: Vec)
    ensures Dot(u, Neg(v)) == Dot(v, Neg(u))
    ensures Dot(u, v) == -Dot(v, Neg(u))
  {
    assert u.x * v.x == v.x * u.x && u.y * v.y == v.y * u.y;
  }

  /** A perpendicular is zero only for the zero vector. */
  lemma PerpNonZero(u: Vec)
    requires u != Zero
    ensures Perp(u) != Zero && Neg(Perp(u)) != Zero
  {
  }

  /** The projection of a difference is the difference of the projections. */
  lemma DotSub(u: Vec, v: Vec, d: Vec)
    ensures Dot(Sub(u, v), d) == Dot(u, d) - Dot(v, d)
    ensures Dot(v, Neg(d)) == -Dot(v, d)
  {
  }

  /** Scaling by a non-zero factor keeps a vector non-zero. */
  lemma ScaleNonZero(k: real, u: Vec)
    requires k != 0.0 && u != Zero
    ensures Scale(k, u) != Zero
  {
    if u.x != 0.0 {
      assert k * u.x != 0.0;
    } else {
      assert k * u.y != 0.0;
    }
  }

  /** Projecting onto a scaled vector scales the projection. */
  lemma DotScale(u: Vec, k: real, v: Vec)
    ensures Dot(u, Scale(k, v)) == k * Dot(u, v)
  {
    assert u.x * (k * v.x) == k * (u.x * v.x);
    assert u.y * (k * v.y) == k * (u.y * v.y);
  }
}
