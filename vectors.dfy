/**
  Three-dimensional vectors with exact real components, standing in for Unity's
  Vector3 (whose components are 32-bit floats). Only the operations the vertex
  picker uses are defined: sum, difference, scaling, dot and cross product, and
  squared distance.
 */
module Vectors {

  datatype Vec3 = Vec3(x: real, y: real, z: real)

  /** Vector3.zero */
  const Zero: Vec3 := Vec3(0.0, 0.0, 0.0)

  function Add(a: Vec3, b: Vec3): Vec3
  {
    Vec3(a.x + b.x, a.y + b.y, a.z + b.z)
  }

  function Sub(a: Vec3, b: Vec3): Vec3
  {
    Vec3(a.x - b.x, a.y - b.y, a.z - b.z)
  }

  /** The vector `a * k` (Unity writes the scalar on the right). */
  function Scale(a: Vec3, k: real): Vec3
  {
    Vec3(a.x * k, a.y * k, a.z * k)
  }

  function Dot(a: Vec3, b: Vec3): real
  {
    a.x * b.x + a.y * b.y + a.z * b.z
  }

  /** Vector3.Cross, the right-handed cross product. */
  function Cross(a: Vec3, b: Vec3): Vec3
  {
    Vec3(a.y * b.z - a.z * b.y, a.z * b.x - a.x * b.z, a.x * b.y - a.y * b.x)
  }

  /**
    The square of Vector3.Distance. The picker only ever compares distances,
    and squaring preserves their order, so the square root is not needed.
   */
  function DistanceSquared(a: Vec3, b: Vec3): (d: real)
    ensures d >= 0.0
  {
    var e := Sub(a, b);
    assert e.x * e.x >= 0.0 && e.y * e.y >= 0.0 && e.z * e.z >= 0.0;
    e.x * e.x + e.y * e.y + e.z * e.z
  }

  /** The triple product is invariant under cyclic rotation of its factors. */
  lemma TripleProductRotates(a: Vec3, b: Vec3, c: Vec3)
    ensures Dot(a, Cross(b, c)) == Dot(b, Cross(c, a)) == Dot(c, Cross(a, b))
  {
  }

  /** Swapping the factors of a cross product negates every triple product with it. */
  lemma CrossAntisymmetric(a: Vec3, b: Vec3, c: Vec3)
    ensures Dot(a, Cross(b, c)) == -Dot(a, Cross(c, b))
  {
  }

  /** The dot product is linear in its first argument. */
  lemma DotOfCombination(s: Vec3, e1: Vec3, e2: Vec3, d: Vec3, w: Vec3, u: real, v: real, t: real)
    requires s.x == e1.x * u + e2.x * v - d.x * t
    requires s.y == e1.y * u + e2.y * v - d.y * t
    requires s.z == e1.z * u + e2.z * v - d.z * t
    ensures Dot(s, w) == u * Dot(e1, w) + v * Dot(e2, w) - t * Dot(d, w)
  {
  }

  /** A cross product is orthogonal to both of its factors. */
  lemma CrossIsOrthogonal(a: Vec3, b: Vec3)
    ensures Dot(a, Cross(a, b)) == 0.0 && Dot(b, Cross(a, b)) == 0.0
  {
  }

  /**
    Cramer's rule for the system s == u e1 + v e2 - t d, written without
    division: with h == d x e2, q == s x e1 and a == e1 . h, the vector a s is
    (s . h) e1 + (d . q) e2 - (e2 . q) d.
   */
  lemma CramerIdentity(d: Vec3, e1: Vec3, e2: Vec3, s: Vec3)
    ensures var h := Cross(d, e2);
            var q := Cross(s, e1);
            Scale(s, Dot(e1, h))
            == Sub(Add(Scale(e1, Dot(s, h)), Scale(e2, Dot(d, q))), Scale(d, Dot(e2, q)))
  {
    // The cross product commutes with a cyclic rotation of the axes, so the
    // y and z components are the x component with the axes rotated.
    CramerFirst(d, e1, e2, s);
    CramerFirst(Rotate(d), Rotate(e1), Rotate(e2), Rotate(s));
    CramerFirst(Rotate(Rotate(d)), Rotate(Rotate(e1)), Rotate(Rotate(e2)), Rotate(Rotate(s)));
    RotationInvariance(d, e2);
    RotationInvariance(s, e1);
    RotationInvariance(Rotate(d), Rotate(e2));
    RotationInvariance(Rotate(s), Rotate(e1));
  }

  /** The cyclic rotation of the axes x <- y <- z <- x. */
  function Rotate(a: Vec3): Vec3
  {
    Vec3(a.y, a.z, a.x)
  }

  lemma RotationInvariance(a: Vec3, b: Vec3)
    ensures Cross(Rotate(a), Rotate(b)) == Rotate(Cross(a, b))
    ensures forall c :: Dot(Rotate(a), Rotate(c)) == Dot(a, c)
  {
  }

  /** The x component of CramerIdentity. */
  lemma CramerFirst(d: Vec3, e1: Vec3, e2: Vec3, s: Vec3)
    ensures var h := Cross(d, e2);
            var q := Cross(s, e1);
            s.x * Dot(e1, h) == e1.x * Dot(s, h) + e2.x * Dot(d, q) - d.x * Dot(e2, q)
  {
    CramerFirstComponent(d.x, d.y, d.z, e1.x, e1.y, e1.z, e2.x, e2.y, e2.z, s.x, s.y, s.z);
  }

  /** CramerFirst over the twelve coordinates. */
  lemma CramerFirstComponent(d1: real, d2: real, d3: real, a1: real, a2: real, a3: real,
                             b1: real, b2: real, b3: real, s1: real, s2: real, s3: real)
    ensures var h1, h2, h3 := d2 * b3 - d3 * b2, d3 * b1 - d1 * b3, d1 * b2 - d2 * b1;
            var q1, q2, q3 := s2 * a3 - s3 * a2, s3 * a1 - s1 * a3, s1 * a2 - s2 * a1;
            s1 * (a1 * h1 + a2 * h2 + a3 * h3)
            == a1 * (s1 * h1 + s2 * h2 + s3 * h3) + b1 * (d1 * q1 + d2 * q2 + d3 * q3)
               - d1 * (b1 * q1 + b2 * q2 + b3 * q3)
  {
  }
}
