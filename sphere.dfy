/** src/scene/primitives/Sphere.cs: a sphere given by center and radius. */
module Spheres {
  import opened Numerics
  import opened Optional
  import opened Vectors
  import opened Rays
  import opened Shading

  datatype Sphere = Sphere(center: Vector3, radius: real, material: Material)

  /** q is at distance radius from the center: its squared distance minus radius^2 is zero. */
  ghost predicate OnSphere(s: Sphere, q: Vector3)
  {
    q.Minus(s.center).LengthSq() - s.radius * s.radius == 0.0
  }

  /** The coefficients of `a t^2 + b t + c`, whose roots are where the ray meets the sphere. */
  datatype Quadratic = Quadratic(a: real, b: real, c: real) {

    function Discriminant(): real
    {
      b * b - 4.0 * a * c
    }

    function At(t: real): real
    {
      a * t * t + b * t + c
    }
  }

  function RayQuadratic(s: Sphere, ray: Ray): Quadratic
  {
    var oc := ray.origin.Minus(s.center);
    Quadratic(ray.direction.Dot(ray.direction), 2.0 * oc.Dot(ray.direction), oc.Dot(oc) - s.radius * s.radius)
  }

  /** The hit record at parameter t, or no hit when t <= 0. */
  function HitAt(sqrt: real -> real, s: Sphere, ray: Ray, t: real): (r: Option<RayHit>)
    ensures r.Some? <==> t > 0.0
    ensures r.Some? ==> r.value.position == ray.PointAt(t)
  {
    if t <= 0.0 then None
    else
      var position := ray.PointAt(t);
      Some(RayHit(position, position.Minus(s.center).Normalized(sqrt), ray.direction, s.material))
  }

  /**
   * Ray/sphere intersection: no hit for a negative discriminant; otherwise
   * the smaller root if its numerator is positive, else the larger root if
   * its numerator is positive, else no hit.
   */
  function Intersect(sqrt: real -> real, s: Sphere, ray: Ray): (r: Option<RayHit>)
    ensures RayQuadratic(s, ray).Discriminant() < 0.0 ==> r.None?
    ensures var q := RayQuadratic(s, ray);
            q.Discriminant() >= 0.0 && -q.b - sqrt(q.Discriminant()) <= 0.0 && -q.b + sqrt(q.Discriminant()) <= 0.0
            ==> r.None?
    ensures r.Some? ==> exists t :: t > 0.0 && r.value.position == ray.PointAt(t)
    ensures r.Some? ==> r.value.normal == r.value.position.Minus(s.center).Normalized(sqrt)
    ensures r.Some? ==> r.value.incident == ray.direction && r.value.material == s.material
  {
    var q := RayQuadratic(s, ray);
    var disc := q.Discriminant();
    if disc < 0.0 then None
    else if -q.b - sqrt(disc) > 0.0 then HitAt(sqrt, s, ray, Div(-q.b - sqrt(disc), 2.0 * q.a))
    else if -q.b + sqrt(disc) > 0.0 then HitAt(sqrt, s, ray, Div(-q.b + sqrt(disc), 2.0 * q.a))
    else None
  }

  /** Along the ray, the squared distance to the center minus radius^2 is the quadratic. */
  lemma QuadraticAlongRay(s: Sphere, ray: Ray, t: real)
    ensures ray.PointAt(t).Minus(s.center).LengthSq() - s.radius * s.radius == RayQuadratic(s, ray).At(t)
  {
    var oc := ray.origin.Minus(s.center);
    var d := ray.direction;
    OffsetAlongRay(ray, s.center, t);
    SquareOfSum(oc.x, oc.y, oc.z, d.x, d.y, d.z, t);
  }

  lemma OffsetAlongRay(ray: Ray, c: Vector3, t: real)
    ensures ray.PointAt(t).Minus(c) == ray.origin.Minus(c).Plus(ScalarTimes(t, ray.direction))
  {
  }

  lemma SquareOfSum(ox: real, oy: real, oz: real, dx: real, dy: real, dz: real, t: real)
    ensures (ox + dx * t) * (ox + dx * t) + (oy + dy * t) * (oy + dy * t) + (oz + dz * t) * (oz + dz * t)
         == (ox * ox + oy * oy + oz * oz) + 2.0 * (ox * dx + oy * dy + oz * dz) * t
            + (dx * dx + dy * dy + dz * dz) * t * t
  {
  }

  lemma CancelFactor(k: real, x: real, y: real)
    requires k != 0.0
    requires k * x == k * y
    ensures x == y
  {
    assert k * (x - y) == 0.0;
  }

  /** With a > 0 and sq the root of the discriminant, the quadratic factors through its two roots. */
  lemma Factorization(q: Quadratic, sq: real, t: real)
    requires q.a > 0.0
    requires sq * sq == q.Discriminant()
    ensures q.At(t) == q.a * (t - (-q.b - sq) / (2.0 * q.a)) * (t - (-q.b + sq) / (2.0 * q.a))
  {
    var a, b, c := q.a, q.b, q.c;
    var t1 := (-b - sq) / (2.0 * a);
    var t2 := (-b + sq) / (2.0 * a);
    assert t1 * (2.0 * a) == -b - sq;
    assert t2 * (2.0 * a) == -b + sq;
    assert a * (t1 + t2) == -b;
    assert a * (t1 * t2) == c by {
      calc {
        (4.0 * a) * (a * (t1 * t2));
        (t1 * (2.0 * a)) * (t2 * (2.0 * a));
        (-b - sq) * (-b + sq);
        b * b - sq * sq;
        (4.0 * a) * c;
      }
      CancelFactor(4.0 * a, a * (t1 * t2), c);
    }
    calc {
      a * (t - t1) * (t - t2);
      a * t * t - a * (t1 + t2) * t + a * (t1 * t2);
      a * t * t + b * t + c;
    }
  }

  lemma ZeroProduct(x: real, y: real)
    requires x * y == 0.0
    ensures x == 0.0 || y == 0.0
  {
    if x != 0.0 {
      assert y == (x * y) / x;
    }
  }

  /** With a > 0 and sq >= 0 the root of the discriminant, the zeros of the quadratic are exactly t1 <= t2. */
  lemma Roots(q: Quadratic, sq: real, t: real)
    requires q.a > 0.0
    requires sq >= 0.0 && sq * sq == q.Discriminant()
    ensures (-q.b - sq) / (2.0 * q.a) <= (-q.b + sq) / (2.0 * q.a)
    ensures q.At(t) == 0.0 <==> t == (-q.b - sq) / (2.0 * q.a) || t == (-q.b + sq) / (2.0 * q.a)
  {
    var t1 := (-q.b - sq) / (2.0 * q.a);
    var t2 := (-q.b + sq) / (2.0 * q.a);
    Factorization(q, sq, t);
    if q.At(t) == 0.0 {
      assert q.a * ((t - t1) * (t - t2)) == 0.0;
      ZeroProduct(q.a, (t - t1) * (t - t2));
      ZeroProduct(t - t1, t - t2);
    }
  }

  /** At a zero t of the quadratic, the discriminant is the square (2at + b)^2. */
  lemma DiscriminantAtZero(q: Quadratic, t: real)
    requires q.At(t) == 0.0
    ensures q.Discriminant() == (2.0 * q.a * t + q.b) * (2.0 * q.a * t + q.b)
  {
    calc {
      (2.0 * q.a * t + q.b) * (2.0 * q.a * t + q.b);
      4.0 * q.a * (q.a * t * t + q.b * t) + q.b * q.b;
      4.0 * q.a * (q.At(t) - q.c) + q.b * q.b;
      q.Discriminant();
    }
  }

  lemma QuotientSign(n: real, d: real)
    requires d > 0.0
    ensures n / d > 0.0 <==> n > 0.0
  {
    if n > 0.0 { assert n / d > 0.0; }
    if n <= 0.0 { assert n / d <= 0.0; }
  }

  lemma MeetsSphereIffZero(s: Sphere, ray: Ray, t: real)
    ensures OnSphere(s, ray.PointAt(t)) <==> RayQuadratic(s, ray).At(t) == 0.0
  {
    if OnSphere(s, ray.PointAt(t)) {
      ZeroWhenOnSphere(s, ray, t);
    } else {
      OffSphereNotZero(s, ray, t);
    }
  }

  lemma ZeroWhenOnSphere(s: Sphere, ray: Ray, t: real)
    requires OnSphere(s, ray.PointAt(t))
    ensures RayQuadratic(s, ray).At(t) == 0.0
  {
    QuadraticAlongRay(s, ray, t);
  }

  lemma OffSphereNotZero(s: Sphere, ray: Ray, t: real)
    requires !OnSphere(s, ray.PointAt(t))
    ensures RayQuadratic(s, ray).At(t) != 0.0
  {
    calc {
      RayQuadratic(s, ray).At(t);
      { QuadraticAlongRay(s, ray, t); }
      ray.PointAt(t).Minus(s.center).LengthSq() - s.radius * s.radius;
      != 0.0;
    }
  }

  /**
   * What a hit says about the quadratic: a > 0, the discriminant has a
   * root, and the parameter chosen is the smaller zero when its numerator
   * is positive and otherwise the larger.
   */
  lemma HitParameter(sqrt: real -> real, s: Sphere, ray: Ray)
    requires SqrtLaw(sqrt)
    requires Intersect(sqrt, s, ray).Some?
    ensures var q := RayQuadratic(s, ray);
            var sq := sqrt(q.Discriminant());
            && q.a > 0.0 && q.Discriminant() >= 0.0 && sq >= 0.0 && sq * sq == q.Discriminant()
            && (-q.b - sq > 0.0 ==> Intersect(sqrt, s, ray).value.position == ray.PointAt((-q.b - sq) / (2.0 * q.a)))
            && (-q.b - sq <= 0.0 ==>
                  -q.b + sq > 0.0 && Intersect(sqrt, s, ray).value.position == ray.PointAt((-q.b + sq) / (2.0 * q.a)))
  {
    var q := RayQuadratic(s, ray);
    DotSelfIsLengthSq(ray.direction);
    assert q.a >= 0.0;
    Root(sqrt, q.Discriminant());
    assert q.a != 0.0;
  }

  /** Every reported hit lies on the sphere. */
  lemma HitOnSphere(sqrt: real -> real, s: Sphere, ray: Ray)
    requires SqrtLaw(sqrt)
    requires Intersect(sqrt, s, ray).Some?
    ensures OnSphere(s, Intersect(sqrt, s, ray).value.position)
  {
    var q := RayQuadratic(s, ray);
    var sq := sqrt(q.Discriminant());
    HitParameter(sqrt, s, ray);
    var t := if -q.b - sq > 0.0 then (-q.b - sq) / (2.0 * q.a) else (-q.b + sq) / (2.0 * q.a);
    Roots(q, sq, t);
    MeetsSphereIffZero(s, ray, t);
  }

  /** The reported normal of a sphere with non-zero radius is a unit vector. */
  lemma HitNormalIsUnit(sqrt: real -> real, s: Sphere, ray: Ray)
    requires SqrtLaw(sqrt)
    requires s.radius != 0.0
    requires Intersect(sqrt, s, ray).Some?
    ensures Intersect(sqrt, s, ray).value.normal.LengthSq() == 1.0
  {
    var d := Intersect(sqrt, s, ray).value.position.Minus(s.center);
    HitOnSphere(sqrt, s, ray);
    SquarePositive(s.radius);
    calc {
      d.LengthSq();
      s.radius * s.radius;
    > 0.0;
    }
    NormalizedIsUnit(sqrt, d);
  }

  /** The reported hit is the nearest crossing of the sphere ahead of the origin. */
  lemma HitIsNearestCrossing(sqrt: real -> real, s: Sphere, ray: Ray, u: real)
    requires SqrtLaw(sqrt)
    requires Intersect(sqrt, s, ray).Some?
    requires u > 0.0 && OnSphere(s, ray.PointAt(u))
    ensures exists t :: 0.0 < t <= u && Intersect(sqrt, s, ray).value.position == ray.PointAt(t)
  {
    var q := RayQuadratic(s, ray);
    var sq := sqrt(q.Discriminant());
    HitParameter(sqrt, s, ray);
    var t1 := (-q.b - sq) / (2.0 * q.a);
    var t2 := (-q.b + sq) / (2.0 * q.a);
    MeetsSphereIffZero(s, ray, u);
    Roots(q, sq, u);
    QuotientSign(-q.b - sq, 2.0 * q.a);
    QuotientSign(-q.b + sq, 2.0 * q.a);
    if -q.b - sq > 0.0 {
      assert 0.0 < t1 <= u;
    } else {
      assert u == t2;
      assert 0.0 < t2 <= u;
    }
  }

  /** For a ray with a non-zero direction there is a hit exactly when the ray meets the sphere ahead of its origin. */
  lemma HitIffCrossingAhead(sqrt: real -> real, s: Sphere, ray: Ray)
    requires SqrtLaw(sqrt)
    requires ray.direction.LengthSq() > 0.0
    ensures Intersect(sqrt, s, ray).Some? <==> exists u :: u > 0.0 && OnSphere(s, ray.PointAt(u))
  {
    var r := Intersect(sqrt, s, ray);
    if r.Some? {
      HitOnSphere(sqrt, s, ray);
      var t :| t > 0.0 && r.value.position == ray.PointAt(t);
      assert OnSphere(s, ray.PointAt(t));
    }
    if u :| u > 0.0 && OnSphere(s, ray.PointAt(u)) {
      var q := RayQuadratic(s, ray);
      DotSelfIsLengthSq(ray.direction);
      MeetsSphereIffZero(s, ray, u);
      DiscriminantAtZero(q, u);
      var w := 2.0 * q.a * u + q.b;
      assert q.Discriminant() >= 0.0 by {
        assert w * w >= 0.0;
      }
      var sq := sqrt(q.Discriminant());
      Root(sqrt, q.Discriminant());
      Roots(q, sq, u);
      QuotientSign(-q.b - sq, 2.0 * q.a);
      QuotientSign(-q.b + sq, 2.0 * q.a);
      if -q.b - sq <= 0.0 {
        assert -q.b + sq > 0.0;
      }
    }
  }
}
