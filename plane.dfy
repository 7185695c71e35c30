/** src/scene/primitives/Plane.cs: an infinite plane through a point. */
module Planes {
  import opened Numerics
  import opened Optional
  import opened Vectors
  import opened Rays
  import opened Shading

  datatype Plane = Plane(center: Vector3, normal: Vector3, material: Material)

  /** The constructor: the normal is stored normalized. */
  function NewPlane(sqrt: real -> real, center: Vector3, normal: Vector3, material: Material): (p: Plane)
    ensures p.center == center && p.material == material
    ensures p.normal == ScalarTimes(Div(1.0, normal.Length(sqrt)), normal)
  {
    NormalizedIsScaled(sqrt, normal);
    Plane(center, normal.Normalized(sqrt), material)
  }

  /** A plane built from a non-zero normal stores a unit normal. */
  lemma NewPlaneNormalIsUnit(sqrt: real -> real, center: Vector3, normal: Vector3, material: Material)
    requires SqrtLaw(sqrt)
    requires normal.LengthSq() > 0.0
    ensures NewPlane(sqrt, center, normal, material).normal.LengthSq() == 1.0
  {
    NormalizedIsUnit(sqrt, normal);
  }

  /** The points of the plane: those whose offset from the center is perpendicular to the normal. */
  ghost predicate OnPlane(p: Plane, q: Vector3)
  {
    q.Minus(p.center).Dot(p.normal) == 0.0
  }

  /**
   * Ray/plane intersection: no hit for a ray (near-)parallel to the plane or
   * for a crossing at t <= 0; otherwise the crossing point, the stored normal
   * (never turned toward the ray) and the ray's own direction.
   */
  function Intersect(p: Plane, ray: Ray): (r: Option<RayHit>)
    ensures Abs(ray.direction.Dot(p.normal)) < DoubleEpsilon ==> r.None?
    ensures r.Some? ==> exists t :: t > 0.0 && r.value.position == ray.PointAt(t)
    ensures r.Some? ==> r.value.normal == p.normal && r.value.incident == ray.direction
    ensures r.Some? ==> r.value.material == p.material
  {
    var dn := ray.direction.Dot(p.normal);
    if Abs(dn) < DoubleEpsilon then None
    else
      var t := p.center.Minus(ray.origin).Dot(p.normal) / dn;
      if t <= 0.0 then None
      else Some(RayHit(ray.PointAt(t), p.normal, ray.direction, p.material))
  }

  /** Moving along a ray changes the offset's normal component linearly. */
  lemma PointAtDot(ray: Ray, t: real, c: Vector3, n: Vector3)
    ensures ray.PointAt(t).Minus(c).Dot(n) == ray.origin.Minus(c).Dot(n) + t * ray.direction.Dot(n)
  {
  }

  /** A ray that is not parallel to the plane crosses it at exactly one parameter. */
  lemma CrossingParameter(p: Plane, ray: Ray, t: real)
    requires ray.direction.Dot(p.normal) != 0.0
    ensures OnPlane(p, ray.PointAt(t)) <==>
            t == p.center.Minus(ray.origin).Dot(p.normal) / ray.direction.Dot(p.normal)
  {
    var dn := ray.direction.Dot(p.normal);
    var num := p.center.Minus(ray.origin).Dot(p.normal);
    PointAtDot(ray, t, p.center, p.normal);
    DotPlus(ray.origin, p.center, p.normal);
    DotPlus(p.center, ray.origin, p.normal);
    assert ray.PointAt(t).Minus(p.center).Dot(p.normal) == t * dn - num;
    if t == num / dn {
      assert t * dn == num;
    }
    if t * dn - num == 0.0 {
      assert t == num / dn;
    }
  }

  /** The hit lies on the plane. */
  lemma HitOnPlane(p: Plane, ray: Ray)
    requires Intersect(p, ray).Some?
    ensures OnPlane(p, Intersect(p, ray).value.position)
  {
    var dn := ray.direction.Dot(p.normal);
    DoubleEpsilonPositive();
    CrossingParameter(p, ray, p.center.Minus(ray.origin).Dot(p.normal) / dn);
  }

  /**
   * Intersect finds a plane exactly when the ray is not (near-)parallel to it
   * and meets it at some positive parameter.
   */
  lemma HitIffCrossingAhead(p: Plane, ray: Ray)
    ensures Intersect(p, ray).Some? <==>
            Abs(ray.direction.Dot(p.normal)) >= DoubleEpsilon &&
            exists t :: t > 0.0 && OnPlane(p, ray.PointAt(t))
  {
    var dn := ray.direction.Dot(p.normal);
    DoubleEpsilonPositive();
    if Abs(dn) >= DoubleEpsilon {
      var t0 := p.center.Minus(ray.origin).Dot(p.normal) / dn;
      CrossingParameter(p, ray, t0);
      if exists t :: t > 0.0 && OnPlane(p, ray.PointAt(t)) {
        var t :| t > 0.0 && OnPlane(p, ray.PointAt(t));
        CrossingParameter(p, ray, t);
      }
    }
  }
}
