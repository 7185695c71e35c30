/** src/scene/primitives/Triangle.cs: a triangle given by three vertices. */
module Triangles {
  import opened Numerics
  import opened Optional
  import opened Vectors
  import opened Rays
  import opened Shading
  import Planes

  datatype Triangle = Triangle(v0: Vector3, v1: Vector3, v2: Vector3, material: Material) {

    /** The normal the intersection computes: the normalized cross product of the edges from v0. */
    function Normal(sqrt: real -> real): Vector3
    {
      v1.Minus(v0).Cross(v2.Minus(v0)).Normalized(sqrt)
    }
  }

  /** The normal is perpendicular to both edges that leave v0. */
  lemma NormalPerpendicular(sqrt: real -> real, tri: Triangle)
    ensures tri.v1.Minus(tri.v0).Dot(tri.Normal(sqrt)) == 0.0
    ensures tri.v2.Minus(tri.v0).Dot(tri.Normal(sqrt)) == 0.0
  {
    var e1, e2 := tri.v1.Minus(tri.v0), tri.v2.Minus(tri.v0);
    CrossPerpendicular(e1, e2);
    NormalizedKeepsPerpendicular(sqrt, e1.Cross(e2), e1);
    NormalizedKeepsPerpendicular(sqrt, e1.Cross(e2), e2);
  }

  /** For a non-degenerate triangle the normal is a unit vector. */
  lemma NormalIsUnit(sqrt: real -> real, tri: Triangle)
    requires SqrtLaw(sqrt)
    requires tri.v1.Minus(tri.v0).Cross(tri.v2.Minus(tri.v0)).LengthSq() > 0.0
    ensures tri.Normal(sqrt).LengthSq() == 1.0
  {
    NormalizedIsUnit(sqrt, tri.v1.Minus(tri.v0).Cross(tri.v2.Minus(tri.v0)));
  }

  /** The inside-outside test for one edge a -> b: p lies on the left of the edge as seen along n. */
  predicate LeftOfEdge(n: Vector3, a: Vector3, b: Vector3, p: Vector3)
  {
    n.Dot(b.Minus(a).Cross(p.Minus(a))) >= 0.0
  }

  /** p passes the inside-outside test of all three edges. */
  predicate Inside(tri: Triangle, n: Vector3, p: Vector3)
  {
    LeftOfEdge(n, tri.v0, tri.v1, p) && LeftOfEdge(n, tri.v1, tri.v2, p) && LeftOfEdge(n, tri.v2, tri.v0, p)
  }

  /**
   * Ray/triangle intersection: the crossing with the triangle's plane, if
   * the ray is not (near-)parallel and the crossing is ahead, provided it
   * passes the test of edge 0, then edge 1, then edge 2.
   */
  function Intersect(sqrt: real -> real, tri: Triangle, ray: Ray): (r: Option<RayHit>)
    ensures Abs(ray.direction.Dot(tri.Normal(sqrt))) < DoubleEpsilon ==> r.None?
    ensures r.Some? ==> exists t :: t > 0.0 && r.value.position == ray.PointAt(t)
    ensures r.Some? ==> Inside(tri, tri.Normal(sqrt), r.value.position)
    ensures r.Some? ==> r.value.normal == tri.Normal(sqrt) && r.value.incident == ray.direction
    ensures r.Some? ==> r.value.material == tri.material
  {
    var normal := tri.Normal(sqrt);
    var dn := ray.direction.Dot(normal);
    if Abs(dn) < DoubleEpsilon then None
    else
      var t := tri.v0.Minus(ray.origin).Dot(normal) / dn;
      var position := ray.PointAt(t);
      if t <= 0.0 then None
      else if !LeftOfEdge(normal, tri.v0, tri.v1, position) then None
      else if !LeftOfEdge(normal, tri.v1, tri.v2, position) then None
      else if !LeftOfEdge(normal, tri.v2, tri.v0, position) then None
      else Some(RayHit(position, normal, ray.direction, tri.material))
  }

  /** The plane through v0 that carries the triangle. */
  function SupportingPlane(sqrt: real -> real, tri: Triangle): Planes.Plane
  {
    Planes.Plane(tri.v0, tri.Normal(sqrt), tri.material)
  }

  /** A triangle hit is the hit of its supporting plane, kept only when it passes the edge tests. */
  lemma HitIsFilteredPlaneHit(sqrt: real -> real, tri: Triangle, ray: Ray)
    ensures var h := Planes.Intersect(SupportingPlane(sqrt, tri), ray);
            Intersect(sqrt, tri, ray) == if h.Some? && Inside(tri, tri.Normal(sqrt), h.value.position) then h else None
  {
  }

  /** Every triangle hit lies on the triangle's plane. */
  lemma HitOnPlane(sqrt: real -> real, tri: Triangle, ray: Ray)
    requires Intersect(sqrt, tri, ray).Some?
    ensures Intersect(sqrt, tri, ray).value.position.Minus(tri.v0).Dot(tri.Normal(sqrt)) == 0.0
  {
    HitIsFilteredPlaneHit(sqrt, tri, ray);
    Planes.HitOnPlane(SupportingPlane(sqrt, tri), ray);
  }

  /**
   * A triangle is hit exactly when the ray is not (near-)parallel to it and
   * crosses its plane ahead of the origin at a point inside all three edges.
   */
  lemma HitIffInsideCrossingAhead(sqrt: real -> real, tri: Triangle, ray: Ray)
    ensures Intersect(sqrt, tri, ray).Some? <==>
            Abs(ray.direction.Dot(tri.Normal(sqrt))) >= DoubleEpsilon &&
            exists t :: t > 0.0 && Planes.OnPlane(SupportingPlane(sqrt, tri), ray.PointAt(t)) &&
                        Inside(tri, tri.Normal(sqrt), ray.PointAt(t))
  {
    var p := SupportingPlane(sqrt, tri);
    var dn := ray.direction.Dot(p.normal);
    HitIsFilteredPlaneHit(sqrt, tri, ray);
    DoubleEpsilonPositive();
    if Abs(dn) >= DoubleEpsilon {
      var t0 := p.center.Minus(ray.origin).Dot(p.normal) / dn;
      Planes.CrossingParameter(p, ray, t0);
      if exists t :: t > 0.0 && Planes.OnPlane(p, ray.PointAt(t)) && Inside(tri, p.normal, ray.PointAt(t)) {
        var t :| t > 0.0 && Planes.OnPlane(p, ray.PointAt(t)) && Inside(tri, p.normal, ray.PointAt(t));
        Planes.CrossingParameter(p, ray, t);
      }
    }
  }

  /** Each vertex of the triangle passes the inside-outside test. */
  lemma VerticesInside(sqrt: real -> real, tri: Triangle)
    requires SqrtLaw(sqrt)
    ensures Inside(tri, tri.Normal(sqrt), tri.v0)
    ensures Inside(tri, tri.Normal(sqrt), tri.v1)
    ensures Inside(tri, tri.Normal(sqrt), tri.v2)
  {
    var c := tri.v1.Minus(tri.v0).Cross(tri.v2.Minus(tri.v0));
    NormalFacesCross(sqrt, c);
    CrossOfEdges(tri.v0, tri.v1, tri.v2);
    assert tri.v2.Minus(tri.v1).Cross(tri.v0.Minus(tri.v1)) == c;
    assert tri.v0.Minus(tri.v2).Cross(tri.v1.Minus(tri.v2)) == c;
  }

  /** The centroid of three points. */
  function Centroid(a: Vector3, b: Vector3, c: Vector3): (g: Vector3)
    ensures g.x * 3.0 == a.x + b.x + c.x && g.y * 3.0 == a.y + b.y + c.y && g.z * 3.0 == a.z + b.z + c.z
  {
    Vector3((a.x + b.x + c.x) / 3.0, (a.y + b.y + c.y) / 3.0, (a.z + b.z + c.z) / 3.0)
  }

  /** The centroid passes the inside-outside test of all three edges. */
  lemma CentroidInside(sqrt: real -> real, tri: Triangle)
    requires SqrtLaw(sqrt)
    ensures Inside(tri, tri.Normal(sqrt), Centroid(tri.v0, tri.v1, tri.v2))
  {
    var c := tri.v1.Minus(tri.v0).Cross(tri.v2.Minus(tri.v0));
    var n := tri.Normal(sqrt);
    NormalFacesCross(sqrt, c);
    DotCommutes(c.Normalized(sqrt), c);
    CrossOfEdges(tri.v0, tri.v1, tri.v2);
    EdgeToCentroid(tri.v0, tri.v1, tri.v2);
    EdgeToCentroid(tri.v1, tri.v2, tri.v0);
    EdgeToCentroid(tri.v2, tri.v0, tri.v1);
    var g := Centroid(tri.v0, tri.v1, tri.v2);
    assert Centroid(tri.v1, tri.v2, tri.v0) == g;
    assert Centroid(tri.v2, tri.v0, tri.v1) == g;
    ThirdDot(n, c);
  }

  /**
   * A ray aimed along the normal at the centroid of a non-degenerate
   * triangle, from one normal length in front of it, hits the triangle at
   * the centroid.
   */
  lemma CentroidRayHits(sqrt: real -> real, tri: Triangle)
    requires SqrtLaw(sqrt)
    requires tri.v1.Minus(tri.v0).Cross(tri.v2.Minus(tri.v0)).LengthSq() > 0.0
    ensures var n := tri.Normal(sqrt);
            var g := Centroid(tri.v0, tri.v1, tri.v2);
            var r := Intersect(sqrt, tri, Ray(g.Minus(n), n));
            r.Some? && r.value.position == g
  {
    var n := tri.Normal(sqrt);
    var g := Centroid(tri.v0, tri.v1, tri.v2);
    var ray := Ray(g.Minus(n), n);
    var p := SupportingPlane(sqrt, tri);
    NormalIsUnit(sqrt, tri);
    DotSelfIsLengthSq(n);
    assert DoubleEpsilon <= 1.0;
    assert ray.PointAt(1.0) == g;
    CentroidOnPlane(sqrt, tri);
    CentroidInside(sqrt, tri);
    HitIffInsideCrossingAhead(sqrt, tri, ray);
    var r := Intersect(sqrt, tri, ray);
    HitIsFilteredPlaneHit(sqrt, tri, ray);
    Planes.HitOnPlane(p, ray);
    var t :| t > 0.0 && r.value.position == ray.PointAt(t);
    Planes.CrossingParameter(p, ray, t);
    Planes.CrossingParameter(p, ray, 1.0);
  }

  /** The centroid lies in the triangle's plane. */
  lemma CentroidOnPlane(sqrt: real -> real, tri: Triangle)
    ensures Planes.OnPlane(SupportingPlane(sqrt, tri), Centroid(tri.v0, tri.v1, tri.v2))
  {
    var n := tri.Normal(sqrt);
    var e1, e2 := tri.v1.Minus(tri.v0), tri.v2.Minus(tri.v0);
    var g := Centroid(tri.v0, tri.v1, tri.v2);
    NormalPerpendicular(sqrt, tri);
    DotPlus(e1, e2, n);
    var d := g.Minus(tri.v0);
    assert d == Third(e1.Plus(e2));
    ThirdDot(n, e1.Plus(e2));
    DotCommutes(n, e1.Plus(e2));
    DotCommutes(n, d);
  }

  /** The cross product of edge a -> b with the way from a to the centroid is a third of the triangle's cross product. */
  lemma EdgeToCentroid(a: Vector3, b: Vector3, c: Vector3)
    ensures b.Minus(a).Cross(Centroid(a, b, c).Minus(a)) == Third(b.Minus(a).Cross(c.Minus(a)))
  {
    PlanarThird(a.y, a.z, b.y, b.z, c.y, c.z);
    PlanarThird(a.z, a.x, b.z, b.x, c.z, c.x);
    PlanarThird(a.x, a.y, b.x, b.y, c.x, c.y);
    var l := b.Minus(a).Cross(Centroid(a, b, c).Minus(a));
    var r := Third(b.Minus(a).Cross(c.Minus(a)));
    assert l.x == r.x && l.y == r.y && l.z == r.z;
  }

  function Third(v: Vector3): Vector3
  {
    Vector3(v.x / 3.0, v.y / 3.0, v.z / 3.0)
  }

  lemma ThirdDot(n: Vector3, v: Vector3)
    ensures n.Dot(Third(v)) * 3.0 == n.Dot(v)
  {
  }

  /** One component of EdgeToCentroid. */
  lemma PlanarThird(a1: real, a2: real, b1: real, b2: real, c1: real, c2: real)
    ensures (b1 - a1) * ((a2 + b2 + c2) / 3.0 - a2) - (b2 - a2) * ((a1 + b1 + c1) / 3.0 - a1)
         == ((b1 - a1) * (c2 - a2) - (b2 - a2) * (c1 - a1)) / 3.0
  {
  }

  /** The same cross product, whichever vertex the two edges leave from (in cyclic order). */
  lemma CrossOfEdges(v0: Vector3, v1: Vector3, v2: Vector3)
    ensures v2.Minus(v1).Cross(v0.Minus(v1)) == v1.Minus(v0).Cross(v2.Minus(v0))
    ensures v0.Minus(v2).Cross(v1.Minus(v2)) == v1.Minus(v0).Cross(v2.Minus(v0))
  {
    var c := v1.Minus(v0).Cross(v2.Minus(v0));
    CyclicPlanarCross(v0.y, v0.z, v1.y, v1.z, v2.y, v2.z);
    CyclicPlanarCross(v0.z, v0.x, v1.z, v1.x, v2.z, v2.x);
    CyclicPlanarCross(v0.x, v0.y, v1.x, v1.y, v2.x, v2.y);
    var c1 := v2.Minus(v1).Cross(v0.Minus(v1));
    var c2 := v0.Minus(v2).Cross(v1.Minus(v2));
    assert c1.x == c.x && c1.y == c.y && c1.z == c.z;
    assert c2.x == c.x && c2.y == c.y && c2.z == c.z;
  }

  /** One component of CrossOfEdges: the planar cross product of the edges of (p, q, r) from each vertex. */
  lemma CyclicPlanarCross(p1: real, p2: real, q1: real, q2: real, r1: real, r2: real)
    ensures (r1 - q1) * (p2 - q2) - (r2 - q2) * (p1 - q1) == (q1 - p1) * (r2 - p2) - (q2 - p2) * (r1 - p1)
    ensures (p1 - r1) * (q2 - r2) - (p2 - r2) * (q1 - r1) == (q1 - p1) * (r2 - p2) - (q2 - p2) * (r1 - p1)
  {
  }

  /** The normalized vector never points against the original. */
  lemma NormalFacesCross(sqrt: real -> real, c: Vector3)
    requires SqrtLaw(sqrt)
    ensures c.Normalized(sqrt).Dot(c) >= 0.0
  {
    NormalizedIsScaled(sqrt, c);
    DotTimes(c, Div(1.0, c.Length(sqrt)), c);
    DotSelfIsLengthSq(c);
    var len := c.Length(sqrt);
    if len != 0.0 {
      assert Div(1.0, len) > 0.0;
    }
  }
}
