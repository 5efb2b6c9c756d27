/**
  The Möller–Trumbore ray/triangle test of MeshClicker.RayIntersectsTriangle,
  over exact reals, together with the geometric facts that give it meaning:
  a reported hit is a point of the closed triangle that lies on the ray beyond
  EPSILON, and every such point of a triangle that is not nearly parallel to
  the ray is reported.
 */
module Intersection {
  import opened Vectors

  /** UnityEngine.Ray: a start point and a direction, not necessarily unit length. */
  datatype Ray = Ray(origin: Vec3, direction: Vec3)

  /** The boolean result of RayIntersectsTriangle together with its `out hit` parameter. */
  datatype RayHit = RayHit(found: bool, hit: Vec3)

  /** The tolerance of the determinant and ray-parameter tests (0.000001f in the source). */
  const EPSILON: real := 0.000001

  /** The point `origin + direction * t` of the ray. */
  function RayPoint(ray: Ray, t: real): Vec3
  {
    Add(ray.origin, Scale(ray.direction, t))
  }

  /** The point with barycentric coordinates (u, v) relative to v0: v0 + u (v1 - v0) + v (v2 - v0). */
  function TrianglePoint(v0: Vec3, v1: Vec3, v2: Vec3, u: real, v: real): Vec3
  {
    Add(v0, Add(Scale(Sub(v1, v0), u), Scale(Sub(v2, v0), v)))
  }

  /** The coordinates (u, v) describe a point of the closed triangle, edges and corners included. */
  predicate InClosedTriangle(u: real, v: real)
  {
    0.0 <= u && 0.0 <= v && u + v <= 1.0
  }

  /**
    The ray meets the triangle at ray parameter t, in the triangle at
    coordinates (u, v), strictly beyond EPSILON along the ray. This is the
    geometric meaning of a hit, stated without the algorithm's formulas.
   */
  predicate RayMeetsTriangleAt(ray: Ray, v0: Vec3, v1: Vec3, v2: Vec3, t: real, u: real, v: real)
  {
    t > EPSILON && InClosedTriangle(u, v) && RayPoint(ray, t) == TrianglePoint(v0, v1, v2, u, v)
  }

  /** The determinant a = e1 . (direction x e2) of the algorithm. */
  function Determinant(ray: Ray, v0: Vec3, v1: Vec3, v2: Vec3): real
  {
    Dot(Sub(v1, v0), Cross(ray.direction, Sub(v2, v0)))
  }

  /** The determinant is not within EPSILON of zero, of either sign. */
  predicate NonDegenerate(ray: Ray, v0: Vec3, v1: Vec3, v2: Vec3)
  {
    var a := Determinant(ray, v0, v1, v2);
    !(a > -EPSILON && a < EPSILON)
  }

  /**
    The source's f * m with f = 1 / a, for a nonzero a: the quotient m / a,
    so the result times a is m.
   */
  function Divide(m: real, a: real): real
    requires a != 0.0
  {
    var f := 1.0 / a;
    f * m
  }

  /** Undoing the division: (m / a) a == m. */
  lemma DivideScalesBack(m: real, a: real)
    requires a != 0.0
    ensures Divide(m, a) * a == m
  {
    ScaleBack(a, m, Divide(m, a));
  }

  /** The algorithm's first barycentric coordinate u = f (s . h), with s = origin - v0, h = direction x e2 and f = 1 / a. */
  function CoordinateU(ray: Ray, v0: Vec3, v1: Vec3, v2: Vec3): real
    requires Determinant(ray, v0, v1, v2) != 0.0
  {
    Divide(Dot(Sub(ray.origin, v0), Cross(ray.direction, Sub(v2, v0))), Determinant(ray, v0, v1, v2))
  }

  /** The algorithm's second barycentric coordinate v = f (direction . q), with q = s x e1. */
  function CoordinateV(ray: Ray, v0: Vec3, v1: Vec3, v2: Vec3): real
    requires Determinant(ray, v0, v1, v2) != 0.0
  {
    Divide(Dot(ray.direction, Cross(Sub(ray.origin, v0), Sub(v1, v0))), Determinant(ray, v0, v1, v2))
  }

  /** The algorithm's ray parameter t = f (e2 . q). */
  function Parameter(ray: Ray, v0: Vec3, v1: Vec3, v2: Vec3): real
    requires Determinant(ray, v0, v1, v2) != 0.0
  {
    Divide(Dot(Sub(v2, v0), Cross(Sub(ray.origin, v0), Sub(v1, v0))), Determinant(ray, v0, v1, v2))
  }


  /**
    MeshClicker.RayIntersectsTriangle. A nearly parallel ray (determinant
    within EPSILON of zero) is never a hit, and on a miss the `out` position
    is the zero vector. HitConditions and HitLiesOnRayAndTriangle state when a
    hit is reported and where it lies. The vectors s = origin - v0 and
    q = s x e1 of the algorithm are formed inside CoordinateU, CoordinateV and
    Parameter.
   */
  function RayIntersectsTriangle(ray: Ray, v0: Vec3, v1: Vec3, v2: Vec3): (r: RayHit)
    ensures -EPSILON < Determinant(ray, v0, v1, v2) < EPSILON ==> !r.found
    ensures !r.found ==> r.hit == Zero
  {
    var e1 := Sub(v1, v0);
    var e2 := Sub(v2, v0);
    var h := Cross(ray.direction, e2);
    var a := Dot(e1, h);
    if a > -EPSILON && a < EPSILON then RayHit(false, Zero)
    else
      var u := CoordinateU(ray, v0, v1, v2);
      if u < 0.0 || u > 1.0 then RayHit(false, Zero)
      else
        var v := CoordinateV(ray, v0, v1, v2);
        if v < 0.0 || u + v > 1.0 then RayHit(false, Zero)
        else
          var t := Parameter(ray, v0, v1, v2);
          if t > EPSILON then RayHit(true, RayPoint(ray, t))
          else RayHit(false, Zero)
  }

  /**
    A hit is reported exactly when the determinant is not within EPSILON of
    zero, u lies in [0, 1], v is not negative, u + v is at most 1 and t
    exceeds EPSILON. Edges and corners of the triangle count as hits, and
    both signs of the determinant are accepted, so back faces are hit too.
   */
  lemma HitConditions(ray: Ray, v0: Vec3, v1: Vec3, v2: Vec3)
    ensures RayIntersectsTriangle(ray, v0, v1, v2).found <==>
      NonDegenerate(ray, v0, v1, v2) &&
      0.0 <= CoordinateU(ray, v0, v1, v2) <= 1.0 &&
      CoordinateV(ray, v0, v1, v2) >= 0.0 &&
      CoordinateU(ray, v0, v1, v2) + CoordinateV(ray, v0, v1, v2) <= 1.0 &&
      Parameter(ray, v0, v1, v2) > EPSILON
  {
  }

  /**
    Soundness: a reported hit is the ray point at the algorithm's t, and it is
    the point of the closed triangle at the algorithm's (u, v), beyond EPSILON
    along the ray.
   */
  lemma HitLiesOnRayAndTriangle(ray: Ray, v0: Vec3, v1: Vec3, v2: Vec3)
    requires RayIntersectsTriangle(ray, v0, v1, v2).found
    ensures NonDegenerate(ray, v0, v1, v2)
    ensures RayIntersectsTriangle(ray, v0, v1, v2).hit == RayPoint(ray, Parameter(ray, v0, v1, v2))
    ensures RayMeetsTriangleAt(ray, v0, v1, v2, Parameter(ray, v0, v1, v2),
                               CoordinateU(ray, v0, v1, v2), CoordinateV(ray, v0, v1, v2))
  {
    SolutionLiesOnRayAndTriangle(ray, v0, v1, v2);
  }

  /**
    The algorithm's (t, u, v) solve the ray/plane system: whenever the
    determinant is not zero, the ray point at t is the triangle-plane point at
    (u, v).
   */
  lemma SolutionLiesOnRayAndTriangle(ray: Ray, v0: Vec3, v1: Vec3, v2: Vec3)
    requires Determinant(ray, v0, v1, v2) != 0.0
    ensures RayPoint(ray, Parameter(ray, v0, v1, v2))
            == TrianglePoint(v0, v1, v2, CoordinateU(ray, v0, v1, v2), CoordinateV(ray, v0, v1, v2))
  {
    AlgorithmSolvesSystem(ray, v0, v1, v2);
    SolutionGivesMeetingPoint(ray, v0, v1, v2, Parameter(ray, v0, v1, v2),
                              CoordinateU(ray, v0, v1, v2), CoordinateV(ray, v0, v1, v2));
  }

  /** The algorithm's (t, u, v) solve origin - v0 == u e1 + v e2 - t direction. */
  lemma AlgorithmSolvesSystem(ray: Ray, v0: Vec3, v1: Vec3, v2: Vec3)
    requires Determinant(ray, v0, v1, v2) != 0.0
    ensures IsSolution(ray, v0, v1, v2, Parameter(ray, v0, v1, v2),
                       CoordinateU(ray, v0, v1, v2), CoordinateV(ray, v0, v1, v2))
  {
    SolveSystem(ray.direction, Sub(v1, v0), Sub(v2, v0), Sub(ray.origin, v0),
                CoordinateU(ray, v0, v1, v2), CoordinateV(ray, v0, v1, v2), Parameter(ray, v0, v1, v2));
  }

  /**
    Cramer's rule for s == u e1 + v e2 - t d: with a == e1 . (d x e2) not
    zero, the quotients u, v and t that the algorithm divides out of
    s . (d x e2), d . (s x e1) and e2 . (s x e1) solve the system.
   */
  lemma SolveSystem(d: Vec3, e1: Vec3, e2: Vec3, s: Vec3, u: real, v: real, t: real)
    requires Dot(e1, Cross(d, e2)) != 0.0
    requires u == Divide(Dot(s, Cross(d, e2)), Dot(e1, Cross(d, e2)))
    requires v == Divide(Dot(d, Cross(s, e1)), Dot(e1, Cross(d, e2)))
    requires t == Divide(Dot(e2, Cross(s, e1)), Dot(e1, Cross(d, e2)))
    ensures SolvesSystem(d, e1, e2, s, u, v, t)
  {
    var a := Dot(e1, Cross(d, e2));
    DivideScalesBack(Dot(s, Cross(d, e2)), a);
    DivideScalesBack(Dot(d, Cross(s, e1)), a);
    DivideScalesBack(Dot(e2, Cross(s, e1)), a);
    CramerIdentity(d, e1, e2, s);
    SolveBySubstitution(a, s, e1, e2, d, Dot(s, Cross(d, e2)), Dot(d, Cross(s, e1)), Dot(e2, Cross(s, e1)), u, v, t);
  }

  /** Cramer's identity a s == m e1 + n e2 - k d with m == u a, n == v a and k == t a, divided by a nonzero a. */
  lemma SolveBySubstitution(a: real, s: Vec3, e1: Vec3, e2: Vec3, d: Vec3,
                            m: real, n: real, k: real, u: real, v: real, t: real)
    requires a != 0.0 && u * a == m && v * a == n && t * a == k
    requires Scale(s, a) == Sub(Add(Scale(e1, m), Scale(e2, n)), Scale(d, k))
    ensures s.x == e1.x * u + e2.x * v - d.x * t
    ensures s.y == e1.y * u + e2.y * v - d.y * t
    ensures s.z == e1.z * u + e2.z * v - d.z * t
  {
    var lhs, rhs := Scale(s, a), Sub(Add(Scale(e1, m), Scale(e2, n)), Scale(d, k));
    assert lhs.x == rhs.x && lhs.y == rhs.y && lhs.z == rhs.z;
    DivideOut(a, s.x, e1.x, e2.x, d.x, m, n, k, u, v, t);
    DivideOut(a, s.y, e1.y, e2.y, d.y, m, n, k, u, v, t);
    DivideOut(a, s.z, e1.z, e2.z, d.z, m, n, k, u, v, t);
  }

  /** One component of SolveBySubstitution: s a == p m + r n - d k gives s == p u + r v - d t. */
  lemma DivideOut(a: real, s: real, p: real, r: real, d: real, m: real, n: real, k: real,
                  u: real, v: real, t: real)
    requires a != 0.0 && u * a == m && v * a == n && t * a == k
    requires s * a == p * m + r * n - d * k
    ensures s == p * u + r * v - d * t
  {
    Distribute(a, p, r, d, m, n, k, u, v, t);
    CancelNonzero(a, s, p * u + r * v - d * t);
  }

  lemma Distribute(a: real, p: real, r: real, d: real, m: real, n: real, k: real, u: real, v: real, t: real)
    requires u * a == m && v * a == n && t * a == k
    ensures p * m + r * n - d * k == (p * u + r * v - d * t) * a
  {
  }

  lemma CancelNonzero(a: real, x: real, y: real)
    requires a != 0.0 && x * a == y * a
    ensures x == y
  {
    assert (x - y) * a == 0.0;
  }

  /** Undoing the division: x == (1 / a) m gives x a == m. */
  lemma ScaleBack(a: real, m: real, x: real)
    requires a != 0.0 && x == (1.0 / a) * m
    ensures x * a == m
  {
  }

  /**
    If origin - v0 == u e1 + v e2 - t direction, component by component, the
    ray point at t is the triangle-plane point at (u, v).
   */
  lemma SolutionGivesMeetingPoint(ray: Ray, v0: Vec3, v1: Vec3, v2: Vec3, t: real, u: real, v: real)
    requires IsSolution(ray, v0, v1, v2, t, u, v)
    ensures RayPoint(ray, t) == TrianglePoint(v0, v1, v2, u, v)
  {
    var p, q := RayPoint(ray, t), TrianglePoint(v0, v1, v2, u, v);
    assert p.x == q.x;
    assert p.y == q.y;
    assert p.z == q.z;
  }

  /**
    For a triangle that is not nearly parallel to the ray, a hit is reported
    exactly when the ray meets the closed triangle beyond EPSILON.
   */
  lemma HitIffRayMeetsTriangle(ray: Ray, v0: Vec3, v1: Vec3, v2: Vec3)
    requires NonDegenerate(ray, v0, v1, v2)
    ensures RayIntersectsTriangle(ray, v0, v1, v2).found
            <==> exists t, u, v :: RayMeetsTriangleAt(ray, v0, v1, v2, t, u, v)
  {
    if RayIntersectsTriangle(ray, v0, v1, v2).found {
      HitLiesOnRayAndTriangle(ray, v0, v1, v2);
    }
    if exists t, u, v :: RayMeetsTriangleAt(ray, v0, v1, v2, t, u, v) {
      var t, u, v :| RayMeetsTriangleAt(ray, v0, v1, v2, t, u, v);
      MeetingPointIsReported(ray, v0, v1, v2, t, u, v);
    }
  }

  /** The quotient p == m / a of m == x a by a nonzero a is x. */
  lemma QuotientIsUnique(p: real, m: real, a: real, x: real)
    requires a != 0.0 && p == Divide(m, a) && m == x * a
    ensures p == x
  {
    DivideScalesBack(m, a);
    CancelNonzero(a, p, x);
  }

  /**
    Completeness: when the determinant is not near zero, every point where the
    ray meets the closed triangle beyond EPSILON is reported, with the same
    parameter and barycentric coordinates. Together with the contract of
    RayIntersectsTriangle, a hit is reported exactly when the ray meets the
    closed triangle beyond EPSILON. Edges and corners are included and the
    sign of the determinant does not matter, so back faces are hit too.
   */
  lemma MeetingPointIsReported(ray: Ray, v0: Vec3, v1: Vec3, v2: Vec3, t: real, u: real, v: real)
    requires NonDegenerate(ray, v0, v1, v2)
    requires RayMeetsTriangleAt(ray, v0, v1, v2, t, u, v)
    ensures CoordinateU(ray, v0, v1, v2) == u && CoordinateV(ray, v0, v1, v2) == v
    ensures Parameter(ray, v0, v1, v2) == t
    ensures RayIntersectsTriangle(ray, v0, v1, v2) == RayHit(true, RayPoint(ray, t))
  {
    MeetingPointGivesSolution(ray, v0, v1, v2, t, u, v);
    SolutionHasCoordinateU(ray, v0, v1, v2, t, u, v);
    SolutionHasCoordinateV(ray, v0, v1, v2, t, u, v);
    SolutionHasParameter(ray, v0, v1, v2, t, u, v);
  }

  /** The component form of origin - v0 == u e1 + v e2 - t direction. */
  predicate IsSolution(ray: Ray, v0: Vec3, v1: Vec3, v2: Vec3, t: real, u: real, v: real)
  {
    SolvesSystem(ray.direction, Sub(v1, v0), Sub(v2, v0), Sub(ray.origin, v0), u, v, t)
  }

  /** s == u e1 + v e2 - t d, component by component. */
  predicate SolvesSystem(d: Vec3, e1: Vec3, e2: Vec3, s: Vec3, u: real, v: real, t: real)
  {
    s.x == e1.x * u + e2.x * v - d.x * t &&
    s.y == e1.y * u + e2.y * v - d.y * t &&
    s.z == e1.z * u + e2.z * v - d.z * t
  }

  /** s . (d x e2) == u a, so the algorithm's u is the solution's u. */
  lemma SolutionHasCoordinateU(ray: Ray, v0: Vec3, v1: Vec3, v2: Vec3, t: real, u: real, v: real)
    requires Determinant(ray, v0, v1, v2) != 0.0 && IsSolution(ray, v0, v1, v2, t, u, v)
    ensures CoordinateU(ray, v0, v1, v2) == u
  {
    var d, e1, e2, s := ray.direction, Sub(v1, v0), Sub(v2, v0), Sub(ray.origin, v0);
    CrossIsOrthogonal(d, e2);
    DotOfCombination(s, e1, e2, d, Cross(d, e2), u, v, t);
    QuotientIsUnique(CoordinateU(ray, v0, v1, v2), Dot(s, Cross(d, e2)), Determinant(ray, v0, v1, v2), u);
  }

  /** d . (s x e1) == s . (e1 x d) == v a, so the algorithm's v is the solution's v. */
  lemma SolutionHasCoordinateV(ray: Ray, v0: Vec3, v1: Vec3, v2: Vec3, t: real, u: real, v: real)
    requires Determinant(ray, v0, v1, v2) != 0.0 && IsSolution(ray, v0, v1, v2, t, u, v)
    ensures CoordinateV(ray, v0, v1, v2) == v
  {
    var d, e1, e2, s := ray.direction, Sub(v1, v0), Sub(v2, v0), Sub(ray.origin, v0);
    TripleProductRotates(d, s, e1);
    TripleProductRotates(e1, d, e2);
    CrossIsOrthogonal(e1, d);
    DotOfCombination(s, e1, e2, d, Cross(e1, d), u, v, t);
    QuotientIsUnique(CoordinateV(ray, v0, v1, v2), Dot(d, Cross(s, e1)), Determinant(ray, v0, v1, v2), v);
  }

  /** e2 . (s x e1) == s . (e1 x e2) == t a, so the algorithm's t is the solution's t. */
  lemma SolutionHasParameter(ray: Ray, v0: Vec3, v1: Vec3, v2: Vec3, t: real, u: real, v: real)
    requires Determinant(ray, v0, v1, v2) != 0.0 && IsSolution(ray, v0, v1, v2, t, u, v)
    ensures Parameter(ray, v0, v1, v2) == t
  {
    var d, e1, e2, s := ray.direction, Sub(v1, v0), Sub(v2, v0), Sub(ray.origin, v0);
    TripleProductRotates(e2, s, e1);
    TripleProductRotates(d, e1, e2);
    CrossAntisymmetric(e1, e2, d);
    CrossIsOrthogonal(e1, e2);
    DotOfCombination(s, e1, e2, d, Cross(e1, e2), u, v, t);
    QuotientIsUnique(Parameter(ray, v0, v1, v2), Dot(e2, Cross(s, e1)), Determinant(ray, v0, v1, v2), t);
  }

  /** The converse of SolutionGivesMeetingPoint. */
  lemma MeetingPointGivesSolution(ray: Ray, v0: Vec3, v1: Vec3, v2: Vec3, t: real, u: real, v: real)
    requires RayPoint(ray, t) == TrianglePoint(v0, v1, v2, u, v)
    ensures IsSolution(ray, v0, v1, v2, t, u, v)
  {
    var p, q := RayPoint(ray, t), TrianglePoint(v0, v1, v2, u, v);
    assert p.x == q.x && p.y == q.y && p.z == q.z;
  }

  /**
    A ray parallel to the triangle's plane (its direction orthogonal to the
    normal e1 x e2) has a zero determinant and is never reported as a hit,
    whatever its origin.
   */
  lemma ParallelRayMisses(ray: Ray, v0: Vec3, v1: Vec3, v2: Vec3)
    requires Dot(ray.direction, Cross(Sub(v1, v0), Sub(v2, v0))) == 0.0
    ensures Determinant(ray, v0, v1, v2) == 0.0
    ensures RayIntersectsTriangle(ray, v0, v1, v2) == RayHit(false, Zero)
  {
    var d, e1, e2 := ray.direction, Sub(v1, v0), Sub(v2, v0);
    TripleProductRotates(e1, d, e2);
    CrossAntisymmetric(d, e2, e1);
  }

  /** A zero-area triangle (collinear corners, so e1 x e2 == 0) is never hit. */
  lemma DegenerateTriangleMisses(ray: Ray, v0: Vec3, v1: Vec3, v2: Vec3)
    requires Cross(Sub(v1, v0), Sub(v2, v0)) == Zero
    ensures RayIntersectsTriangle(ray, v0, v1, v2) == RayHit(false, Zero)
  {
    ParallelRayMisses(ray, v0, v1, v2);
  }

}
