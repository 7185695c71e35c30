/**
 * The expression-level pieces of src/scene/Scene.cs: the colour clamp, the
 * secondary-ray origins and directions, the Fresnel terms of the refractive
 * branch, and the frame and hemisphere sample of ambient lighting.
 */
module Optics {
  import opened Numerics
  import opened Vectors
  import opened Shading

  /** NormalizedColor: each channel forced into [0, 1], the upper bounds checked first. */
  function NormalizedColor(c: Color): (r: Color)
    ensures r == Color(Clamp(c.r, 0.0, 1.0), Clamp(c.g, 0.0, 1.0), Clamp(c.b, 0.0, 1.0))
  {
    var c1 := if c.r > 1.0 then Color(1.0, c.g, c.b) else c;
    var c2 := if c1.g > 1.0 then Color(c1.r, 1.0, c1.b) else c1;
    var c3 := if c2.b > 1.0 then Color(c2.r, c2.g, 1.0) else c2;
    var c4 := if c3.r < 0.0 then Color(0.0, c3.g, c3.b) else c3;
    var c5 := if c4.g < 0.0 then Color(c4.r, 0.0, c4.b) else c4;
    if c5.b < 0.0 then Color(c5.r, c5.g, 0.0) else c5
  }

  predicate InUnitRange(c: Color)
  {
    0.0 <= c.r <= 1.0 && 0.0 <= c.g <= 1.0 && 0.0 <= c.b <= 1.0
  }

  /** The clamp lands in range, leaves in-range colours alone, and is idempotent. */
  lemma NormalizedColorProperties(c: Color)
    ensures InUnitRange(NormalizedColor(c))
    ensures InUnitRange(c) ==> NormalizedColor(c) == c
    ensures NormalizedColor(NormalizedColor(c)) == NormalizedColor(c)
  {
  }

  /** The length of the offset that moves secondary-ray origins off the surface. */
  const OffsetScale: real := 0.0000000001

  /** A hit is on the outside when the incoming ray runs against the normal. */
  predicate Outside(hit: RayHit)
  {
    hit.incident.Dot(hit.normal) < 0.0
  }

  /**
   * The origin of reflected and ambient rays, `outside ? position + offset :
   * position - offset`: moved to the side the incoming ray came from.
   */
  function NearSideOrigin(hit: RayHit): Vector3
  {
    var offset := hit.normal.Times(OffsetScale);
    if Outside(hit) then hit.position.Plus(offset) else hit.position.Minus(offset)
  }

  /** The origin of transmitted rays: moved to the side the incoming ray is heading for. */
  function FarSideOrigin(hit: RayHit): Vector3
  {
    var offset := hit.normal.Times(OffsetScale);
    if Outside(hit) then hit.position.Minus(offset) else hit.position.Plus(offset)
  }

  /** The near-side origin lies behind the surface as the ray sees it, the far-side one ahead of it. */
  lemma OffsetSides(hit: RayHit)
    ensures NearSideOrigin(hit).Minus(hit.position).Dot(hit.incident) <= 0.0
    ensures FarSideOrigin(hit).Minus(hit.position).Dot(hit.incident) >= 0.0
  {
    var d := hit.incident.Dot(hit.normal);
    OffsetDot(hit.position, hit.normal, hit.incident);
    if Outside(hit) {
      assert OffsetScale * d <= 0.0;
    } else {
      assert OffsetScale * d >= 0.0;
    }
  }

  lemma OffsetDot(p: Vector3, n: Vector3, v: Vector3)
    ensures p.Plus(n.Times(OffsetScale)).Minus(p).Dot(v) == OffsetScale * v.Dot(n)
    ensures p.Minus(n.Times(OffsetScale)).Minus(p).Dot(v) == -(OffsetScale * v.Dot(n))
  {
  }

  /** `I - 2 (N . I) N`, the mirror image of I in the plane with normal N (before normalizing). */
  function Mirrored(incident: Vector3, normal: Vector3): Vector3
  {
    incident.Minus(ScalarTimes(2.0 * normal.Dot(incident), normal))
  }

  /** The reflected direction the reflective and refractive branches trace. */
  function MirrorDirection(sqrt: real -> real, hit: RayHit): Vector3
  {
    Mirrored(hit.incident, hit.normal).Normalized(sqrt)
  }

  /**
   * The law of reflection for a unit normal: the normal component changes
   * sign and the length is kept.
   */
  lemma MirrorLaw(incident: Vector3, normal: Vector3)
    requires normal.LengthSq() == 1.0
    ensures Mirrored(incident, normal).Dot(normal) == -incident.Dot(normal)
    ensures Mirrored(incident, normal).LengthSq() == incident.LengthSq()
  {
    var s := 2.0 * normal.Dot(incident);
    var d := incident.Dot(normal);
    DotCommutes(incident, normal);
    DotSelfIsLengthSq(normal);
    DotPlus(incident, ScalarTimes(s, normal), normal);
    DotTimes(normal, s, normal);
    assert Mirrored(incident, normal).Dot(normal) == d - s;
    var m := Mirrored(incident, normal);
    DotSelfIsLengthSq(m);
    DotSelfIsLengthSq(incident);
    DotPlus(incident, ScalarTimes(s, normal), m);
    DotTimes(normal, s, m);
    DotCommutes(normal, m);
    DotCommutes(incident, m);
    DotPlus(incident, ScalarTimes(s, normal), incident);
    DotTimes(normal, s, incident);
    calc {
      m.Dot(m);
      incident.Dot(m) - s * normal.Dot(m);
      m.Dot(incident) - s * (d - s);
      incident.Dot(incident) - s * d - s * (d - s);
      { assert s == 2.0 * d; }
      incident.Dot(incident);
    }
  }

  /** At normal incidence (I parallel to a unit N) the mirror sends the ray straight back: the result is -I. */
  lemma MirrorAtNormalIncidence(sqrt: real -> real, hit: RayHit, k: real)
    requires hit.normal.LengthSq() == 1.0
    requires hit.incident == hit.normal.Times(k)
    ensures Mirrored(hit.incident, hit.normal) == hit.incident.Negate()
    ensures MirrorDirection(sqrt, hit) == hit.incident.Negate().Normalized(sqrt)
  {
    var n := hit.normal;
    DotTimes(n, k, n);
    DotCommutes(n.Times(k), n);
    DotSelfIsLengthSq(n);
    assert n.Dot(hit.incident) == k;
    var m := Mirrored(hit.incident, n);
    assert m.x == -hit.incident.x && m.y == -hit.incident.y && m.z == -hit.incident.z;
  }

  /**
   * The side of the surface the refractive branch works from: the normal
   * turned against the incoming ray, the cosine of incidence, and the
   * indices on the incoming (etai) and transmitted (etat) side.
   */
  datatype Side = Side(n: Vector3, cosi: real, etai: real, etat: real)

  /**
   * The clamped cosine `I . N`; a negative one means the ray enters the
   * material (air index 1 outside), otherwise the indices swap and the
   * normal flips.
   */
  function Orient(incident: Vector3, normal: Vector3, ior: real): (s: Side)
    ensures 0.0 <= s.cosi <= 1.0
    ensures s.cosi == Abs(Clamp(incident.Dot(normal), -1.0, 1.0))
    ensures s.n.Dot(incident) <= 0.0
    ensures -1.0 <= incident.Dot(normal) <= 1.0 ==> s.cosi == -s.n.Dot(incident)
    ensures incident.Dot(normal) < 0.0 ==> s.n == normal && s.etai == 1.0 && s.etat == ior
    ensures incident.Dot(normal) >= 0.0 ==> s.n == normal.Negate() && s.etai == ior && s.etat == 1.0
  {
    var c := Clamp(incident.Dot(normal), -1.0, 1.0);
    var entering := c < 0.0;
    assert entering ==> normal.Dot(incident) == incident.Dot(normal) by {
      DotCommutes(normal, incident);
    }
    assert !entering ==> normal.Negate().Dot(incident) == -incident.Dot(normal) by {
      DotCommutes(normal, incident);
      NegateDot(normal, incident);
    }
    if entering then Side(normal, -c, 1.0, ior)
    else Side(normal.Negate(), c, ior, 1.0)
  }

  /** The quantities the refractive branch derives from the hit and the refractive index. */
  datatype FresnelTerms = FresnelTerms(
    side: Side,
    eta: real,       // etai / etat
    k: real,         // 1 - eta^2 (1 - cosi^2), whose root enters the transmitted direction
    sint: real,      // sine of the angle of transmission
    ratio: real)     // share of the light that is reflected

  /**
   * The Fresnel computation: Snell's sine, and either total internal
   * reflection (ratio 1) or the mean of the squared s- and p-coefficients.
   */
  function Fresnel(sqrt: real -> real, incident: Vector3, normal: Vector3, ior: real): (f: FresnelTerms)
    ensures f.side == Orient(incident, normal, ior)
    ensures f.sint >= 1.0 ==> f.ratio == 1.0
  {
    var side := Orient(incident, normal, ior);
    var eta := Div(side.etai, side.etat);
    var sint := TransmittedSine(sqrt, eta, side.cosi);
    var ratio := if sint >= 1.0 then 1.0 else Reflectance(sqrt, side.etai, side.etat, side.cosi, sint);
    FresnelTerms(side, eta, 1.0 - eta * eta * (1.0 - side.cosi * side.cosi), sint, ratio)
  }

  /** Snell's law: the sine of the transmitted ray, eta * sqrt(max(0, 1 - cosi^2)). */
  function TransmittedSine(sqrt: real -> real, eta: real, cosi: real): real
  {
    eta * sqrt(Max(0.0, 1.0 - cosi * cosi))
  }

  /** A reflection coefficient `(a - b) / (a + b)`. */
  function Coefficient(a: real, b: real): real
  {
    Div(a - b, a + b)
  }

  /** The mean of the squared s- and p-polarised reflection coefficients. */
  function Reflectance(sqrt: real -> real, etai: real, etat: real, cosi: real, sint: real): real
  {
    CosineReflectance(etai, etat, Abs(cosi), sqrt(Max(0.0, 1.0 - sint * sint)))
  }

  /** The reflectance for the cosines of incidence and transmission. */
  function CosineReflectance(etai: real, etat: real, cosi: real, cost: real): real
  {
    MeanSquare(Coefficient(etat * cosi, etai * cost), Coefficient(etai * cosi, etat * cost))
  }

  /** `(x^2 + y^2) / 2` */
  function MeanSquare(x: real, y: real): real
  {
    (x * x + y * y) / 2.0
  }

  lemma NegateDot(a: Vector3, b: Vector3)
    ensures a.Negate().Dot(b) == -a.Dot(b)
  {
  }

  /** `(eta I + (eta cosi - sqrt k) n)` normalized: the transmitted direction by Snell's law. */
  function RefractDirection(sqrt: real -> real, incident: Vector3, f: FresnelTerms): Vector3
  {
    ScalarTimes(f.eta, incident).Plus(ScalarTimes(f.eta * f.side.cosi - sqrt(f.k), f.side.n)).Normalized(sqrt)
  }

  /**
   * Matched indices (ior 1): the transmitted ray goes on undeviated, and
   * nothing is reflected unless the ray grazes the surface (I . N == 0),
   * where sint reaches 1 and the branch reports total reflection.
   */
  lemma MatchedIndices(sqrt: real -> real, incident: Vector3, normal: Vector3)
    requires SqrtLaw(sqrt)
    ensures var f := Fresnel(sqrt, incident, normal, 1.0);
            && (incident.Dot(normal) != 0.0 ==> f.ratio == 0.0)
            && (incident.Dot(normal) == 0.0 ==> f.ratio == 1.0)
            && RefractDirection(sqrt, incident, f) == incident.Normalized(sqrt)
  {
    MatchedRatio(sqrt, incident, normal);
    MatchedDirection(sqrt, incident, normal);
  }

  lemma MatchedRatio(sqrt: real -> real, incident: Vector3, normal: Vector3)
    requires SqrtLaw(sqrt)
    ensures var f := Fresnel(sqrt, incident, normal, 1.0);
            && (incident.Dot(normal) != 0.0 ==> f.ratio == 0.0)
            && (incident.Dot(normal) == 0.0 ==> f.ratio == 1.0)
  {
    if incident.Dot(normal) != 0.0 {
      MatchedTransmitted(sqrt, incident, normal);
    } else {
      MatchedGrazing(sqrt, incident, normal);
    }
  }

  lemma MatchedTransmitted(sqrt: real -> real, incident: Vector3, normal: Vector3)
    requires SqrtLaw(sqrt)
    requires incident.Dot(normal) != 0.0
    ensures Fresnel(sqrt, incident, normal, 1.0).ratio == 0.0
  {
    var q := MatchedTerms(sqrt, incident, normal);
    MatchedTransmits(sqrt, Orient(incident, normal, 1.0).cosi);
  }

  lemma MatchedGrazing(sqrt: real -> real, incident: Vector3, normal: Vector3)
    requires SqrtLaw(sqrt)
    requires incident.Dot(normal) == 0.0
    ensures Fresnel(sqrt, incident, normal, 1.0).ratio == 1.0
  {
    var q := MatchedTerms(sqrt, incident, normal);
    GrazingSine(sqrt, Orient(incident, normal, 1.0).cosi);
  }

  lemma MatchedDirection(sqrt: real -> real, incident: Vector3, normal: Vector3)
    requires SqrtLaw(sqrt)
    ensures RefractDirection(sqrt, incident, Fresnel(sqrt, incident, normal, 1.0)) == incident.Normalized(sqrt)
  {
    var f := Fresnel(sqrt, incident, normal, 1.0);
    var q := MatchedTerms(sqrt, incident, normal);
    RootOfSquare(sqrt, Orient(incident, normal, 1.0).cosi);
    TimesOne(f.eta, f.side.cosi);
    UnitScaleZeroShift(f.eta, f.eta * f.side.cosi - sqrt(f.k), incident, f.side.n);
  }

  /** A grazing ray (cosi 0) has sine 1. */
  lemma GrazingSine(sqrt: real -> real, c: real)
    requires SqrtLaw(sqrt)
    requires c == 0.0
    ensures sqrt(1.0 - c * c) == 1.0
  {
    RootOfSquare(sqrt, 1.0);
    assert 1.0 - c * c == 1.0 * 1.0;
  }

  /** Scaling by 1 and shifting by a zero multiple leaves a vector unchanged. */
  lemma UnitScaleZeroShift(e: real, k: real, v: Vector3, n: Vector3)
    requires e == 1.0 && k == 0.0
    ensures ScalarTimes(e, v).Plus(ScalarTimes(k, n)) == v
  {
  }

  lemma TimesOne(e: real, x: real)
    requires e == 1.0
    ensures e * x == x
  {
  }

  /**
   * The Fresnel terms for equal indices: both sides are air, eta is 1, k is
   * cosi^2 and sint is the root of 1 - cosi^2; the cosine is positive
   * exactly when the ray is not grazing.
   */
  lemma MatchedTerms(sqrt: real -> real, incident: Vector3, normal: Vector3) returns (q: real)
    ensures var f := Fresnel(sqrt, incident, normal, 1.0);
            var c := Orient(incident, normal, 1.0).cosi;
            && f.side.etai == 1.0 && f.side.etat == 1.0 && f.eta == 1.0
            && q == c * c && 0.0 <= q <= 1.0
            && f.k == q
            && f.sint == sqrt(1.0 - c * c)
            && (incident.Dot(normal) != 0.0 <==> c > 0.0)
  {
    var side := Orient(incident, normal, 1.0);
    MatchedSide(incident, normal);
    q := SquareInUnitInterval(side.cosi);
    MatchedFresnelSine(sqrt, incident, normal);
  }

  lemma MatchedSide(incident: Vector3, normal: Vector3)
    ensures var s := Orient(incident, normal, 1.0);
            && s.etai == 1.0 && s.etat == 1.0
            && (incident.Dot(normal) != 0.0 <==> s.cosi > 0.0)
  {
  }

  lemma MatchedFresnelSine(sqrt: real -> real, incident: Vector3, normal: Vector3)
    ensures var c := Orient(incident, normal, 1.0).cosi;
            Fresnel(sqrt, incident, normal, 1.0).sint == sqrt(1.0 - c * c)
  {
    FresnelSine(sqrt, incident, normal, 1.0);
    MatchedEta(sqrt, incident, normal);
    UnitSineOfCosine(sqrt, Orient(incident, normal, 1.0).cosi);
  }

  lemma FresnelSine(sqrt: real -> real, incident: Vector3, normal: Vector3, ior: real)
    ensures var f := Fresnel(sqrt, incident, normal, ior);
            f.sint == TransmittedSine(sqrt, f.eta, Orient(incident, normal, ior).cosi)
  {
  }

  lemma MatchedEta(sqrt: real -> real, incident: Vector3, normal: Vector3)
    ensures Fresnel(sqrt, incident, normal, 1.0).eta == 1.0
  {
    MatchedSide(incident, normal);
  }

  /** With eta 1, a cosine in [0, 1] gives the sine sqrt(1 - cosi^2). */
  lemma UnitSineOfCosine(sqrt: real -> real, c: real)
    requires 0.0 <= c <= 1.0
    ensures TransmittedSine(sqrt, 1.0, c) == sqrt(1.0 - c * c)
  {
    UnitSquareOfFraction(c);
    assert Max(0.0, 1.0 - c * c) == 1.0 - c * c;
  }

  /** The square of a number in [0, 1], as a value in [0, 1]. */
  lemma SquareInUnitInterval(c: real) returns (q: real)
    requires 0.0 <= c <= 1.0
    ensures q == c * c
    ensures 0.0 <= q <= 1.0
  {
    UnitSquareOfFraction(c);
    q := c * c;
  }

  /** With equal indices and a positive cosine, sint < 1 and the reflectance is 0. */
  lemma MatchedTransmits(sqrt: real -> real, c: real)
    requires SqrtLaw(sqrt)
    requires 0.0 < c <= 1.0
    ensures sqrt(1.0 - c * c) < 1.0
    ensures Reflectance(sqrt, 1.0, 1.0, c, sqrt(1.0 - c * c)) == 0.0
  {
    var m := OneMinusSquare(c);
    MatchedSine(sqrt, m);
    RootOfSquare(sqrt, c);
    assert CosineReflectance(1.0, 1.0, Abs(c), c) == MeanSquare(0.0, 0.0);
  }

  /** The sine of a ray entering at cosine-squared 1 - m, for m in [0, 1): below 1, and its cosine-squared is given back. */
  lemma MatchedSine(sqrt: real -> real, m: real)
    requires SqrtLaw(sqrt)
    requires 0.0 <= m < 1.0
    ensures sqrt(m) < 1.0
    ensures Max(0.0, 1.0 - sqrt(m) * sqrt(m)) == 1.0 - m
  {
    Root(sqrt, m);
    RootBelowOne(sqrt(m), m);
  }

  lemma OneMinusSquare(c: real) returns (m: real)
    requires 0.0 < c <= 1.0
    ensures m == 1.0 - c * c
    ensures 0.0 <= m < 1.0
  {
    UnitSquareOfFraction(c);
    SquarePositive(c);
    m := 1.0 - c * c;
    calc {
      m;
      1.0 - c * c;
      < 1.0;
    }
  }

  lemma RootBelowOne(s: real, m: real)
    requires s >= 0.0
    requires s * s == m
    requires m < 1.0
    ensures s < 1.0
  {
  }

  /** The non-negative root of c^2 is c. */
  lemma RootOfSquare(sqrt: real -> real, c: real)
    requires SqrtLaw(sqrt)
    requires c >= 0.0
    ensures sqrt(c * c) == c
  {
    SquareNonNegative(c);
    Root(sqrt, c * c);
    var s := sqrt(c * c);
    if s > c {
      calc {
        s * s;
      > c * s;
      >= c * c;
      }
    } else if s < c {
      calc {
        c * c;
      > s * c;
      >= s * s;
      }
    }
  }

  /** For a positive refractive index the reflected share lies in [0, 1]. */
  lemma FresnelRatioInUnitInterval(sqrt: real -> real, incident: Vector3, normal: Vector3, ior: real)
    requires SqrtLaw(sqrt)
    requires ior > 0.0
    ensures 0.0 <= Fresnel(sqrt, incident, normal, ior).ratio <= 1.0
  {
    var f := Fresnel(sqrt, incident, normal, ior);
    if f.sint < 1.0 {
      ReflectanceInUnitInterval(sqrt, f.side.etai, f.side.etat, f.side.cosi, f.sint);
    }
  }

  lemma ReflectanceInUnitInterval(sqrt: real -> real, etai: real, etat: real, cosi: real, sint: real)
    requires SqrtLaw(sqrt)
    requires etai > 0.0 && etat > 0.0
    ensures 0.0 <= Reflectance(sqrt, etai, etat, cosi, sint) <= 1.0
  {
    Root(sqrt, Max(0.0, 1.0 - sint * sint));
    CosineReflectanceInUnitInterval(etai, etat, Abs(cosi), sqrt(Max(0.0, 1.0 - sint * sint)));
  }

  lemma CosineReflectanceInUnitInterval(etai: real, etat: real, cosi: real, cost: real)
    requires etai > 0.0 && etat > 0.0 && cosi >= 0.0 && cost >= 0.0
    ensures 0.0 <= CosineReflectance(etai, etat, cosi, cost) <= 1.0
  {
    ProductNonNegative(etat, cosi);
    ProductNonNegative(etai, cost);
    ProductNonNegative(etai, cosi);
    ProductNonNegative(etat, cost);
    CoefficientSquare(etat * cosi, etai * cost);
    CoefficientSquare(etai * cosi, etat * cost);
    MeanOfUnitSquares(Coefficient(etat * cosi, etai * cost), Coefficient(etai * cosi, etat * cost));
  }

  lemma ProductNonNegative(a: real, b: real)
    requires a >= 0.0 && b >= 0.0
    ensures a * b >= 0.0
  {
  }

  lemma MeanOfUnitSquares(x: real, y: real)
    requires 0.0 <= x * x <= 1.0 && 0.0 <= y * y <= 1.0
    ensures 0.0 <= MeanSquare(x, y) <= 1.0
  {
  }

  /** A coefficient of non-negative terms squares to at most one. */
  lemma CoefficientSquare(a: real, b: real)
    requires a >= 0.0 && b >= 0.0
    ensures 0.0 <= Coefficient(a, b) * Coefficient(a, b) <= 1.0
  {
    var q := Coefficient(a, b);
    if a + b != 0.0 {
      RatioInUnitInterval(q, a + b, a - b);
      UnitSquare(q);
    }
  }

  /** A ratio n / d with |n| <= d lies in [-1, 1]. */
  lemma RatioInUnitInterval(q: real, d: real, n: real)
    requires d > 0.0 && q * d == n && -d <= n <= d
    ensures -1.0 <= q <= 1.0
  {
    if q > 1.0 {
      ScaleMonotone(1.0, q, d);
    }
    if q < -1.0 {
      ScaleMonotone(q, -1.0, d);
    }
  }

  lemma UnitSquare(q: real)
    requires -1.0 <= q <= 1.0
    ensures 0.0 <= q * q <= 1.0
  {
    if q >= 0.0 {
      UnitSquareOfFraction(q);
    } else {
      UnitSquareOfFraction(-q);
      NegatedSquare(q);
    }
  }

  lemma UnitSquareOfFraction(m: real)
    requires 0.0 <= m <= 1.0
    ensures 0.0 <= m * m <= 1.0
  {
    assert m * m <= m * 1.0;
  }

  lemma NegatedSquare(q: real)
    ensures (-q) * (-q) == q * q
  {
  }

  lemma ScaleMonotone(x: real, y: real, k: real)
    requires k > 0.0 && x < y
    ensures x * k < y * k
  {
  }

  lemma ScaleMonotoneWeak(x: real, y: real, k: real)
    requires k >= 0.0 && x <= y
    ensures x * k <= y * k
  {
  }

  /** An orthogonal frame (tangent t, bitangent b) around the normal n. */
  datatype Frame = Frame(n: Vector3, t: Vector3, b: Vector3)

  /** The tangent before it is normalized: perpendicular to N, built from the larger of |N.x|, |N.y|. */
  function RawTangent(sqrt: real -> real, normal: Vector3): Vector3
  {
    if Abs(normal.x) > Abs(normal.y) then
      Vector3(normal.z, 0.0, -normal.x).DividedBy(sqrt(SumOfSquares(normal.x, normal.z)))
    else
      Vector3(0.0, -normal.z, normal.y).DividedBy(sqrt(SumOfSquares(normal.y, normal.z)))
  }

  /** `a * a + b * b` */
  function SumOfSquares(a: real, b: real): real
  {
    a * a + b * b
  }

  /** The frame ambient lighting samples in. */
  function TangentFrame(sqrt: real -> real, normal: Vector3): (f: Frame)
    ensures f.n == normal
  {
    var t := RawTangent(sqrt, normal).Normalized(sqrt);
    Frame(normal, t, normal.Cross(t).Normalized(sqrt))
  }

  lemma RawTangentPerpendicular(sqrt: real -> real, normal: Vector3)
    ensures normal.Dot(RawTangent(sqrt, normal)) == 0.0
  {
    var a := Vector3(normal.z, 0.0, -normal.x);
    var b := Vector3(0.0, -normal.z, normal.y);
    var la := sqrt(SumOfSquares(normal.x, normal.z));
    var lb := sqrt(SumOfSquares(normal.y, normal.z));
    RawTangentCases(sqrt, normal);
    TangentCandidatesPerpendicular(normal);
    DividedByKeepsPerpendicular(normal, a, la);
    DividedByKeepsPerpendicular(normal, b, lb);
  }

  lemma RawTangentCases(sqrt: real -> real, normal: Vector3)
    ensures Abs(normal.x) > Abs(normal.y) ==>
            RawTangent(sqrt, normal) == Vector3(normal.z, 0.0, -normal.x).DividedBy(sqrt(SumOfSquares(normal.x, normal.z)))
    ensures !(Abs(normal.x) > Abs(normal.y)) ==>
            RawTangent(sqrt, normal) == Vector3(0.0, -normal.z, normal.y).DividedBy(sqrt(SumOfSquares(normal.y, normal.z)))
  {
  }

  lemma TangentCandidatesPerpendicular(n: Vector3)
    ensures n.Dot(Vector3(n.z, 0.0, -n.x)) == 0.0
    ensures n.Dot(Vector3(0.0, -n.z, n.y)) == 0.0
  {
  }

  /** The three axes of the tangent frame are pairwise perpendicular. */
  lemma TangentFramePerpendicular(sqrt: real -> real, normal: Vector3)
    ensures var f := TangentFrame(sqrt, normal);
            f.n.Dot(f.t) == 0.0 && f.n.Dot(f.b) == 0.0 && f.t.Dot(f.b) == 0.0
  {
    var t := RawTangent(sqrt, normal).Normalized(sqrt);
    RawTangentPerpendicular(sqrt, normal);
    NormalizedKeepsPerpendicular(sqrt, RawTangent(sqrt, normal), normal);
    CrossPerpendicular(normal, t);
    NormalizedKeepsPerpendicular(sqrt, normal.Cross(t), normal);
    NormalizedKeepsPerpendicular(sqrt, normal.Cross(t), t);
  }

  /** The tangent and bitangent are unit vectors: with the normal they form an orthonormal frame. */
  lemma TangentFrameIsUnit(sqrt: real -> real, normal: Vector3)
    requires SqrtLaw(sqrt)
    requires normal.LengthSq() > 0.0
    ensures TangentFrame(sqrt, normal).t.LengthSq() == 1.0
    ensures TangentFrame(sqrt, normal).b.LengthSq() == 1.0
  {
    var raw := RawTangent(sqrt, normal);
    RawTangentNonZero(sqrt, normal);
    NormalizedIsUnit(sqrt, raw);
    var t := raw.Normalized(sqrt);
    TangentFramePerpendicular(sqrt, normal);
    assert normal.Dot(t) == 0.0;
    CrossLengthSq(normal, t);
    assert normal.Cross(t).LengthSq() == normal.LengthSq() * 1.0 - 0.0 * 0.0;
    NormalizedIsUnit(sqrt, normal.Cross(t));
  }

  /** The raw tangent of a non-zero normal is non-zero. */
  lemma RawTangentNonZero(sqrt: real -> real, normal: Vector3)
    requires SqrtLaw(sqrt)
    requires normal.LengthSq() > 0.0
    ensures RawTangent(sqrt, normal).LengthSq() > 0.0
  {
    RawTangentCases(sqrt, normal);
    if Abs(normal.x) > Abs(normal.y) {
      NonZeroComponent(Vector3(normal.x, normal.z, 0.0));
      SqrtPositive(sqrt, SumOfSquares(normal.x, normal.z));
      DividedByNonZero(Vector3(normal.z, 0.0, -normal.x), sqrt(SumOfSquares(normal.x, normal.z)));
    } else {
      assert normal.y != 0.0 || normal.z != 0.0;
      NonZeroComponent(Vector3(normal.y, normal.z, 0.0));
      SqrtPositive(sqrt, SumOfSquares(normal.y, normal.z));
      DividedByNonZero(Vector3(0.0, -normal.z, normal.y), sqrt(SumOfSquares(normal.y, normal.z)));
    }
  }

  lemma DividedByKeepsPerpendicular(w: Vector3, v: Vector3, s: real)
    requires w.Dot(v) == 0.0
    ensures w.Dot(v.DividedBy(s)) == 0.0
  {
    if s != 0.0 {
      DividedByIsTimesInverse(v, s);
      TimesCommutes(v, 1.0 / s);
      DotTimes(v, 1.0 / s, w);
      DotCommutes(w, v);
      DotCommutes(w, ScalarTimes(1.0 / s, v));
    }
  }

  /** uniformSampleHemisphere: the direction with cosine r1 to the pole and azimuth 2 pi r2. */
  function HemisphereSample(rt: Runtime, r1: real, r2: real): (v: Vector3)
    ensures v.y == r1
  {
    var sinTheta := rt.sqrt(1.0 - r1 * r1);
    var phi := 2.0 * rt.pi * r2;
    Vector3(sinTheta * rt.cos(phi), r1, sinTheta * rt.sin(phi))
  }

  /** What the model assumes of Math.Sin and Math.Cos: sin^2 + cos^2 = 1. */
  ghost predicate TrigLaw(sin: real -> real, cos: real -> real)
  {
    forall x :: sin(x) * sin(x) + cos(x) * cos(x) == 1.0
  }

  /** For r1 in [-1, 1] the hemisphere sample is a unit vector. */
  lemma HemisphereSampleIsUnit(rt: Runtime, r1: real, r2: real)
    requires SqrtLaw(rt.sqrt) && TrigLaw(rt.sin, rt.cos)
    requires r1 * r1 <= 1.0
    ensures HemisphereSample(rt, r1, r2).LengthSq() == 1.0
  {
    var s := rt.sqrt(1.0 - r1 * r1);
    var phi := 2.0 * rt.pi * r2;
    var c, n := rt.cos(phi), rt.sin(phi);
    Root(rt.sqrt, 1.0 - r1 * r1);
    assert n * n + c * c == 1.0;
    calc {
      (s * c) * (s * c) + r1 * r1 + (s * n) * (s * n);
      (s * s) * (c * c + n * n) + r1 * r1;
      (1.0 - r1 * r1) * 1.0 + r1 * r1;
      1.0;
    }
  }

  /** A local sample (x along b, y along n, z along t) taken to world coordinates. */
  function ToWorld(f: Frame, s: Vector3): Vector3
  {
    Vector3(
      s.x * f.b.x + s.y * f.n.x + s.z * f.t.x,
      s.x * f.b.y + s.y * f.n.y + s.z * f.t.y,
      s.x * f.b.z + s.y * f.n.z + s.z * f.t.z)
  }

  lemma ToWorldDot(f: Frame, s: Vector3, w: Vector3)
    ensures ToWorld(f, s).Dot(w) == s.x * f.b.Dot(w) + s.y * f.n.Dot(w) + s.z * f.t.Dot(w)
  {
  }

  /** In a frame whose n is perpendicular to t and b, the normal component of a sample is its y times |n|^2. */
  lemma FrameSampleAlongNormal(f: Frame, s: Vector3)
    requires f.n.Dot(f.t) == 0.0 && f.n.Dot(f.b) == 0.0
    ensures ToWorld(f, s).Dot(f.n) == s.y * f.n.LengthSq()
  {
    ToWorldDot(f, s, f.n);
    DotCommutes(f.n, f.t);
    DotCommutes(f.n, f.b);
    DotSelfIsLengthSq(f.n);
  }
}
