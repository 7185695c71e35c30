/**
 * src/scene/Scene.cs: the scene object.  Its entity and light sets are
 * HashSets, which a scene only ever adds to; they are modelled as
 * duplicate-free sequences in enumeration order (insertion order), because
 * the order decides which of two equally distant hits wins and in which
 * order colours are summed.  Each method that loops is proved to compute the
 * matching function of Transport, or the pixel values of Render below.
 */
module Scenes {
  import opened Numerics
  import opened Optional
  import opened Vectors
  import opened Rays
  import opened Shading
  import opened Entities
  import opened Optics
  import opened Transport
  import opened SceneOptionsRecord

  /** No element occurs twice, as in a set. */
  predicate NoDuplicates<T(==)>(s: seq<T>)
  {
    forall i, j :: 0 <= i < j < |s| ==> s[i] != s[j]
  }

  /** `HashSet.Add`: the element is appended unless it is already there. */
  function Insert<T(==)>(s: seq<T>, x: T): seq<T>
  {
    if x in s then s else s + [x]
  }

  /** Insert is set insertion: the elements afterwards are the old ones and x, still without duplicates. */
  lemma InsertIsSetAdd<T>(s: seq<T>, x: T)
    ensures (set e | e in Insert(s, x)) == (set e | e in s) + {x}
    ensures NoDuplicates(s) ==> NoDuplicates(Insert(s, x))
  {
    var r := Insert(s, x);
    forall e ensures e in r <==> e in s || e == x {
    }
  }

  /** Adding the same element twice is adding it once; an element already present changes nothing. */
  lemma InsertIdempotent<T>(s: seq<T>, x: T)
    ensures Insert(Insert(s, x), x) == Insert(s, x)
    ensures x in s ==> Insert(s, x) == s
  {
    assert x in Insert(s, x);
  }

  /** The recursion limit Render passes to RayTrace, and its field of view in degrees. */
  const RecurseLimit: int := 4
  const FovDegrees: real := 60.0

  /** `i % 2 == 0 ? 1 : -1`, the direction of the i-th anti-aliasing offset. */
  function OffsetSign(i: int): (r: real)
    ensures r == 1.0 <==> i % 2 == 0
    ensures r == -1.0 <==> i % 2 == 1
  {
    if i % 2 == 0 then 1.0 else -1.0
  }

  /** Consecutive samples are offset in opposite directions. */
  lemma OffsetSignAlternates(i: int)
    ensures OffsetSign(i + 1) == -OffsetSign(i)
  {
  }

  /** `(i * dir) / (size * multi * 2)`, the i-th anti-aliasing offset along an image axis of the given size. */
  function AAOffset(i: int, size: int, multi: int): real
  {
    Div(i as real * OffsetSign(i), (size * multi * 2) as real)
  }

  /**
   * For the samples i = 1..multi of a non-empty axis, the offset points in
   * the direction OffsetSign(i), is not zero, and is at most 1 / (2 * size),
   * half the width of a pixel measured in the unscaled [-1, 1] screen
   * coordinate.
   */
  lemma AAOffsetBounds(i: int, size: int, multi: int)
    requires size >= 1 && 1 <= i <= multi
    ensures AAOffset(i, size, multi) * OffsetSign(i) > 0.0
    ensures Abs(AAOffset(i, size, multi)) <= 1.0 / (2 * size) as real
  {
    var d := (size * multi * 2) as real;
    var r := AAOffset(i, size, multi);
    assert size * multi >= size * i >= size;
    assert d > 0.0;
    assert r * d == i as real * OffsetSign(i);
    OffsetMagnitude(r, d, i as real, OffsetSign(i), (2 * size) as real, multi as real);
  }

  /** The scalar core of AAOffsetBounds: r = i * sign / d with d = 2 * size * multi and 1 <= i <= multi. */
  lemma OffsetMagnitude(r: real, d: real, i: real, sign: real, s2: real, m: real)
    requires sign == 1.0 || sign == -1.0
    requires s2 > 0.0 && d == s2 * m && 1.0 <= i <= m
    requires r * d == i * sign
    ensures r * sign > 0.0
    ensures Abs(r) <= 1.0 / s2
  {
    var a := r * sign;
    calc {
      (a * s2) * m;
      r * (s2 * m) * sign;
      r * d * sign;
      i * sign * sign;
      i;
    }
    FractionOfOne(a * s2, m, i);
    assert Abs(r) == a;
    calc {
      a;
      (a * s2) / s2;
      <= 1.0 / s2;
    }
  }

  /** b * m = i with 0 < i <= m puts b in (0, 1], and below 1 when i < m. */
  lemma FractionOfOne(b: real, m: real, i: real)
    requires 0.0 < i <= m
    requires b * m == i
    ensures 0.0 < b <= 1.0
    ensures i < m ==> b < 1.0
  {
    if b >= 1.0 && i < m {
      calc {
        i;
        b * m;
        >= 1.0 * m;
        > i;
      }
    } else if b > 1.0 {
      calc {
        i;
        b * m;
        > 1.0 * m;
        >= i;
      }
    } else if b <= 0.0 {
      calc {
        i;
        b * m;
        <= 0.0 * m;
        < i;
      }
    }
  }

  /**
   * Where the centre of pixel p falls across an axis of `size` pixels, on
   * the screen coordinate that runs from -1 to 1: `(p + 0.5) / size * 2 - 1`.
   */
  function ScreenOffset(p: int, size: int): (r: real)
    ensures 0 <= p < size ==> -1.0 < r < 1.0
  {
    var u := Div(p as real + 0.5, size as real);
    assert 0 <= p < size ==> 0.0 < u < 1.0 by {
      if 0 <= p < size {
        ProperFraction(p as real + 0.5, size as real);
      }
    }
    u * 2.0 - 1.0
  }

  /** A quotient of 0 < a < b lies strictly between 0 and 1. */
  lemma ProperFraction(a: real, b: real)
    requires 0.0 < a < b
    ensures 0.0 < Div(a, b) < 1.0
  {
    var q := Div(a, b);
    FractionOfOne(q, b, a);
  }

  /** Pixel centres lie symmetrically about the middle of the axis. */
  lemma ScreenOffsetSymmetric(p: int, size: int)
    requires 0 <= p < size
    ensures ScreenOffset(size - 1 - p, size) == -ScreenOffset(p, size)
  {
    ComplementFraction(p as real + 0.5, (size - 1 - p) as real + 0.5, size as real);
  }

  /** For a + c = n != 0, a / n and c / n sum to 1. */
  lemma ComplementFraction(a: real, c: real, n: real)
    requires n != 0.0 && a + c == n
    ensures Div(c, n) == 1.0 - Div(a, n)
  {
    assert Div(c, n) == c / n && Div(a, n) == a / n;
    calc {
      c / n;
      (n - a) / n;
      n / n - a / n;
      1.0 - a / n;
    }
  }

  /** tan(fov / 2) for the 60 degree field of view. */
  function HalfViewTangent(rt: Runtime): real
  {
    rt.tan(FovDegrees * Div(rt.pi, 180.0) / 2.0)
  }

  /**
   * The point on the image plane z = 1 that pixel (x, y), moved by
   * (xMove, yMove), projects to; the vertical extent is divided by
   * `Width / Height`, an integer division as written.
   */
  function ScreenPoint(rt: Runtime, width: int, height: int, x: int, y: int, xMove: real, yMove: real): (p: Vector3)
    ensures p.z == 1.0
  {
    var aspect := if height == 0 then 0.0 else (width / height) as real;
    var xPos := ScreenOffset(x, width) * HalfViewTangent(rt);
    var yPos := -ScreenOffset(y, height) * Div(HalfViewTangent(rt), aspect);
    Vector3(xPos + xMove, yPos + yMove, 1.0)
  }

  /**
   * A pixel centre inside the image lands inside the field of view: its
   * unmoved coordinates are within tan(fov / 2) horizontally and within that
   * divided by the aspect quotient vertically.
   */
  lemma PixelInView(rt: Runtime, width: int, height: int, x: int, y: int)
    requires 0 <= x < width && 0 <= y < height
    ensures var p := ScreenPoint(rt, width, height, x, y, 0.0, 0.0);
            && Abs(p.x) <= Abs(HalfViewTangent(rt))
            && Abs(p.y) <= Abs(Div(HalfViewTangent(rt), (width / height) as real))
  {
    var p := ScreenPoint(rt, width, height, x, y, 0.0, 0.0);
    ScreenPointAxes(rt, width, height, x, y);
    ScaledWithin(ScreenOffset(x, width), HalfViewTangent(rt), p.x);
    ScaledWithin(-ScreenOffset(y, height), Div(HalfViewTangent(rt), (width / height) as real), p.y);
  }

  lemma ScreenPointAxes(rt: Runtime, width: int, height: int, x: int, y: int)
    requires height != 0
    ensures var p := ScreenPoint(rt, width, height, x, y, 0.0, 0.0);
            && p.x == ScreenOffset(x, width) * HalfViewTangent(rt)
            && p.y == -ScreenOffset(y, height) * Div(HalfViewTangent(rt), (width / height) as real)
  {
  }

  /** Scaling by a factor in (-1, 1) does not increase magnitude. */
  lemma ScaledWithin(s: real, t: real, r: real)
    requires -1.0 < s < 1.0
    requires r == s * t
    ensures Abs(r) <= Abs(t)
  {
    var a := Abs(s);
    var b := Abs(t);
    calc {
      Abs(s * t);
      { AbsOfProduct(s, t); }
      a * b;
      <= { assert a * b <= 1.0 * b; }
      b;
    }
  }

  lemma AbsOfProduct(s: real, t: real)
    ensures Abs(s * t) == Abs(s) * Abs(t)
  {
    if s < 0.0 {
      assert s * t == -(Abs(s) * t);
    }
    if t < 0.0 {
      assert s * t == -(s * Abs(t));
    }
  }

  /** The primary ray through pixel (x, y), moved by (xMove, yMove): the pinhole camera sits at the origin and looks along +z. */
  function PrimaryRay(rt: Runtime, width: int, height: int, x: int, y: int, xMove: real, yMove: real): Ray
  {
    Ray(Zero, ScreenPoint(rt, width, height, x, y, xMove, yMove).Normalized(rt.sqrt))
  }

  /**
   * Every primary ray starts at the camera, has a unit direction pointing
   * into the scene (z > 0), and passes through its pixel's point on the
   * image plane, at the distance of that point from the origin.
   */
  lemma PrimaryRayThroughPixel(rt: Runtime, width: int, height: int, x: int, y: int, xMove: real, yMove: real)
    requires SqrtLaw(rt.sqrt)
    ensures var r := PrimaryRay(rt, width, height, x, y, xMove, yMove);
            var p := ScreenPoint(rt, width, height, x, y, xMove, yMove);
            && r.origin == Zero
            && r.direction.LengthSq() == 1.0
            && r.direction.z > 0.0
            && r.PointAt(p.Length(rt.sqrt)) == p
  {
    var p := ScreenPoint(rt, width, height, x, y, xMove, yMove);
    var len := p.Length(rt.sqrt);
    ForwardLengthSq(p);
    NormalizedIsUnit(rt.sqrt, p);
    SqrtPositive(rt.sqrt, p.LengthSq());
    var d := p.Normalized(rt.sqrt);
    assert d.z * len == 1.0;
    assert d.z > 0.0;
    assert d.x * len == p.x && d.y * len == p.y;
  }

  /** A point on the image plane z = 1 is at least unit distance from the origin. */
  lemma ForwardLengthSq(p: Vector3)
    requires p.z == 1.0
    ensures p.LengthSq() >= 1.0
  {
    SquareNonNegative(p.x);
    SquareNonNegative(p.y);
  }

  /** Anti-aliasing sample (i, j) of pixel (x, y): the colour traced along its moved primary ray. */
  function AASample(w: World, rt: Runtime, multi: int, width: int, height: int, x: int, y: int, i: int, j: int): Color
  {
    var ray := PrimaryRay(rt, width, height, x, y, AAOffset(i, width, multi), AAOffset(j, height, multi));
    Trace(w, rt, ray, [x, y, i, j], 0, RecurseLimit)
  }

  /** All anti-aliasing samples of pixel (x, y), indexed by (i, j). */
  function Samples(w: World, rt: Runtime, multi: int, width: int, height: int, x: int, y: int): (int, int) -> Color
  {
    (i, j) => AASample(w, rt, multi, width, height, x, y, i, j)
  }

  /** `samples` agrees with the traced anti-aliasing sample (i, j) of pixel (x, y). */
  ghost predicate SampleAt(samples: (int, int) -> Color, w: World, rt: Runtime, multi: int, width: int, height: int,
                           x: int, y: int, i: int, j: int)
  {
    samples(i, j) == AASample(w, rt, multi, width, height, x, y, i, j)
  }

  lemma SamplesAreSamples(w: World, rt: Runtime, multi: int, width: int, height: int, x: int, y: int)
    ensures forall i, j :: SampleAt(Samples(w, rt, multi, width, height, x, y), w, rt, multi, width, height, x, y, i, j)
  {
  }

  /** Samples (i, 1) .. (i, n), added in order. */
  function RowSum(samples: (int, int) -> Color, i: int, n: int): Color
    decreases n
  {
    if n <= 0 then Black else RowSum(samples, i, n - 1).Plus(samples(i, n))
  }

  /** Rows 1 .. n of samples, each of `multi` samples, added in order. */
  function GridSum(samples: (int, int) -> Color, multi: int, n: int): Color
    decreases n
  {
    if n <= 0 then Black else GridSum(samples, multi, n - 1).Plus(RowSum(samples, n, multi))
  }

  /**
   * The colour Render stores for pixel (x, y), given the colour `carried`
   * that its pixelColor variable holds when the pixel starts: one traced
   * ray for multiplier 1; otherwise the carried colour plus all multi^2
   * samples, divided by multi^2 (the variable is not reset per pixel);
   * clamped in both cases.
   */
  function PixelColor(w: World, rt: Runtime, multi: int, width: int, height: int, x: int, y: int, carried: Color): Color
  {
    if multi == 1 then
      NormalizedColor(Trace(w, rt, PrimaryRay(rt, width, height, x, y, 0.0, 0.0), [x, y], 0, RecurseLimit))
    else
      NormalizedColor(carried.Plus(GridSum(Samples(w, rt, multi, width, height, x, y), multi, multi)).DividedBy((multi * multi) as real))
  }

  /** The colour of pixel (x, y) as a function of what pixelColor holds when it starts. */
  function PixelFn(w: World, rt: Runtime, multi: int, width: int, height: int): (int, int, Color) -> Color
  {
    (x, y, carried) => PixelColor(w, rt, multi, width, height, x, y, carried)
  }

  /** `pixel` agrees with PixelColor at (x, y, carried). */
  ghost predicate PixelAt(pixel: (int, int, Color) -> Color, w: World, rt: Runtime, multi: int, width: int, height: int,
                          x: int, y: int, carried: Color)
  {
    pixel(x, y, carried) == PixelColor(w, rt, multi, width, height, x, y, carried)
  }

  lemma PixelFnIsPixel(w: World, rt: Runtime, multi: int, width: int, height: int)
    ensures forall x, y, carried :: PixelAt(PixelFn(w, rt, multi, width, height), w, rt, multi, width, height, x, y, carried)
  {
  }

  /**
   * The colour stored for pixel (x, y) of an image `width` pixels wide, when
   * `pixel` gives each pixel's colour from the carried one; pixels are
   * rendered row by row, left to right.
   */
  function Stored(pixel: (int, int, Color) -> Color, width: int, x: int, y: int): Color
    requires 0 <= x < width && 0 <= y
    decreases y, x
  {
    pixel(x, y, Carried(pixel, width, x, y))
  }

  /** What pixelColor holds when pixel (x, y) starts: the previous pixel's stored colour, black for the first. */
  function Carried(pixel: (int, int, Color) -> Color, width: int, x: int, y: int): Color
    requires 0 <= x < width && 0 <= y
    decreases y, x, 0
  {
    if x > 0 then Stored(pixel, width, x - 1, y)
    else if y > 0 then Stored(pixel, width, width - 1, y - 1)
    else Black
  }

  /** Every colour Render stores is in the displayable range. */
  lemma StoredInUnitRange(w: World, rt: Runtime, multi: int, width: int, height: int, x: int, y: int)
    requires 0 <= x < width && 0 <= y
    ensures InUnitRange(Stored(PixelFn(w, rt, multi, width, height), width, x, y))
  {
    var pixel := PixelFn(w, rt, multi, width, height);
    var carried := Carried(pixel, width, x, y);
    assert Stored(pixel, width, x, y) == PixelColor(w, rt, multi, width, height, x, y, carried);
    if multi == 1 {
      NormalizedColorProperties(Trace(w, rt, PrimaryRay(rt, width, height, x, y, 0.0, 0.0), [x, y], 0, RecurseLimit));
    } else {
      NormalizedColorProperties(carried.Plus(GridSum(Samples(w, rt, multi, width, height, x, y), multi, multi)).DividedBy((multi * multi) as real));
    }
  }

  /** Without anti-aliasing a pixel does not depend on the one before it. */
  lemma SingleSampleIgnoresCarry(w: World, rt: Runtime, width: int, height: int, x: int, y: int, c1: Color, c2: Color)
    ensures PixelColor(w, rt, 1, width, height, x, y, c1) == PixelColor(w, rt, 1, width, height, x, y, c2)
  {
  }

  /**
   * With anti-aliasing the previous pixel leaks into the next: a pixel whose
   * samples are all black shows the carried colour divided by multi^2.
   */
  lemma BlackSamplesShowCarry(w: World, rt: Runtime, multi: int, width: int, height: int, x: int, y: int, carried: Color)
    requires multi != 1
    requires forall i, j :: 1 <= i <= multi && 1 <= j <= multi ==> AASample(w, rt, multi, width, height, x, y, i, j) == Black
    ensures PixelColor(w, rt, multi, width, height, x, y, carried) ==
            NormalizedColor(carried.DividedBy((multi * multi) as real))
  {
    var samples := Samples(w, rt, multi, width, height, x, y);
    forall i, j | 1 <= i <= multi && 1 <= j <= multi
      ensures samples(i, j) == Black
    {
      assert samples(i, j) == AASample(w, rt, multi, width, height, x, y, i, j);
    }
    BlackGrid(samples, multi, multi);
    BlackAbsorbs(carried, 0.0);
  }

  lemma {:induction false} BlackGrid(samples: (int, int) -> Color, multi: int, n: int)
    requires n <= multi
    requires forall i, j :: 1 <= i <= multi && 1 <= j <= multi ==> samples(i, j) == Black
    ensures GridSum(samples, multi, n) == Black
    decreases n
  {
    if n > 0 {
      BlackGrid(samples, multi, n - 1);
      BlackRow(samples, multi, n, multi);
    }
  }

  lemma {:induction false} BlackRow(samples: (int, int) -> Color, multi: int, i: int, n: int)
    requires 1 <= i <= multi && n <= multi
    requires forall i, j :: 1 <= i <= multi && 1 <= j <= multi ==> samples(i, j) == Black
    ensures RowSum(samples, i, n) == Black
    decreases n
  {
    if n > 0 {
      BlackRow(samples, multi, i, n - 1);
    }
  }

  class Scene {
    var options: SceneOptions
    var entities: seq<SceneEntity>
    var lights: seq<PointLight>

    /** The two HashSets hold each element once. */
    ghost predicate Valid()
      reads this
    {
      NoDuplicates(entities) && NoDuplicates(lights)
    }

    /** What RayTrace reads of the scene. */
    function Snapshot(): World
      reads this
    {
      World(options.ambientLightingEnabled, entities, lights)
    }

    /** A new scene with the given options and no entities or lights. */
    constructor(options: SceneOptions)
      ensures Valid()
      ensures this.options == options && entities == [] && lights == []
    {
      this.options := options;
      entities := [];
      lights := [];
    }

    /** AddEntity: set insertion into the entities. */
    method AddEntity(entity: SceneEntity)
      requires Valid()
      modifies this
      ensures Valid()
      ensures entities == Insert(old(entities), entity)
      ensures options == old(options) && lights == old(lights)
    {
      InsertIsSetAdd(entities, entity);
      if entity !in entities {
        entities := entities + [entity];
      }
    }

    /** AddPointLight: set insertion into the lights. */
    method AddPointLight(light: PointLight)
      requires Valid()
      modifies this
      ensures Valid()
      ensures lights == Insert(old(lights), light)
      ensures options == old(options) && entities == old(entities)
    {
      InsertIsSetAdd(lights, light);
      if light !in lights {
        lights := lights + [light];
      }
    }

    /** The scan for the front-most entity at the start of RayTrace. */
    method NearestHit(sqrt: real -> real, ray: Ray) returns (r: Option<Found>)
      ensures r == Nearest(entities, sqrt, ray)
    {
      r := None;
      var distSq := 0.0;
      var i := 0;
      while i < |entities|
        invariant 0 <= i <= |entities|
        invariant r == Nearest(entities[..i], sqrt, ray)
        invariant r.Some? ==> distSq == Dist(r.value.hit, ray.origin)
      {
        var entity := entities[i];
        var hit := entity.shape.Intersect(sqrt, ray);
        assert entities[..i + 1][..i] == entities[..i];
        if hit.Some? {
          if r.None? || hit.value.position.Minus(ray.origin).LengthSq() < distSq {
            r := Some(Found(entity, hit.value));
            distSq := hit.value.position.Minus(ray.origin).LengthSq();
          }
        }
        i := i + 1;
      }
      assert entities[..i] == entities;
    }

    /** InShadow: whether some entity other than the hit one lies between the hit and the light. */
    method InShadow(sqrt: real -> real, frontEntity: SceneEntity, light: PointLight, frontHit: RayHit) returns (b: bool)
      ensures b == Shadowed(entities, sqrt, frontEntity, light, frontHit)
    {
      var position := frontHit.position;
      var lightRay := Ray(position, light.position.Minus(position).Normalized(sqrt));
      var i := 0;
      while i < |entities|
        invariant 0 <= i <= |entities|
        invariant forall k :: 0 <= k < i ==> !Occludes(entities[k], sqrt, frontEntity, light, frontHit)
      {
        var entity := entities[i];
        var lightHit := entity.shape.Intersect(sqrt, lightRay);
        if lightHit.Some? {
          var distLight := light.position.Minus(frontHit.position).LengthSq();
          var distEntity := lightHit.value.position.Minus(frontHit.position).LengthSq();
          if distLight > distEntity && entity != frontEntity {
            assert Occludes(entities[i], sqrt, frontEntity, light, frontHit);
            return true;
          }
        }
        i := i + 1;
      }
      return false;
    }

    /** The light loop of both diffuse branches: each unshadowed light adds `Cm * Cl * (N . L)`. */
    method DirectLighting(sqrt: real -> real, entity: SceneEntity, hit: RayHit) returns (c: Color)
      ensures c == DirectLight(lights, entities, sqrt, entity, hit)
    {
      c := Black;
      var i := 0;
      while i < |lights|
        invariant 0 <= i <= |lights|
        invariant c == DirectLight(lights[..i], entities, sqrt, entity, hit)
      {
        var light := lights[i];
        assert lights[..i + 1][..i] == lights[..i];
        var shadowed := InShadow(sqrt, entity, light, hit);
        if !shadowed {
          var n := hit.normal;
          var l := light.position.Minus(hit.position).Normalized(sqrt);
          c := c.Plus(entity.shape.Material().color.Times(light.color).Scale(n.Dot(l)));
        }
        i := i + 1;
      }
      assert lights[..i] == lights;
    }

    /**
     * RayTrace(ray, recurseTime, recurseLimit).  `path` names the call, so
     * that its random draws are `rt.nextDouble(path, k)`.
     */
    method RayTrace(rt: Runtime, ray: Ray, path: seq<int>, recurseTime: int, recurseLimit: int) returns (c: Color)
      requires recurseTime <= recurseLimit
      ensures c == Trace(Snapshot(), rt, ray, path, recurseTime, recurseLimit)
      decreases recurseLimit - recurseTime, 4
    {
      if recurseTime == recurseLimit {
        return Black;
      }
      var found := NearestHit(rt.sqrt, ray);
      if found.None? {
        return Black;
      }
      c := ShadeHit(rt, found.value, path, recurseTime, recurseLimit);
    }

    /** The part of RayTrace after the scan: the branch for the hit entity's material. */
    method ShadeHit(rt: Runtime, found: Found, path: seq<int>, recurseTime: int, recurseLimit: int) returns (c: Color)
      requires recurseTime < recurseLimit
      ensures c == Shade(Snapshot(), rt, found, path, recurseTime, recurseLimit)
      decreases recurseLimit - recurseTime, 3
    {
      var mat := found.entity.shape.Material();
      if mat.kind == Diffuse {
        c := DiffuseShade(rt, found, path, recurseTime, recurseLimit);
      } else if mat.kind == Reflective {
        var hit := found.hit;
        var newRay := Ray(NearSideOrigin(hit), MirrorDirection(rt.sqrt, hit));
        c := RayTrace(rt, newRay, path + [0], recurseTime + 1, recurseLimit);
        ShadeReflective(Snapshot(), rt, found, path, recurseTime, recurseLimit);
      } else {
        c := RefractiveShade(rt, found, path, recurseTime, recurseLimit);
      }
    }

    /** Both diffuse branches: direct light, plus the mean indirect light when ambient lighting is on. */
    method DiffuseShade(rt: Runtime, found: Found, path: seq<int>, recurseTime: int, recurseLimit: int) returns (c: Color)
      requires recurseTime < recurseLimit && found.entity.shape.Material().kind == Diffuse
      ensures c == Shade(Snapshot(), rt, found, path, recurseTime, recurseLimit)
      decreases recurseLimit - recurseTime, 2
    {
      var hit := found.hit;
      var entity := found.entity;
      var mat := entity.shape.Material();
      if !options.ambientLightingEnabled {
        c := DirectLighting(rt.sqrt, entity, hit);
        ShadeDirect(Snapshot(), rt, found, path, recurseTime, recurseLimit);
      } else {
        var directLight := DirectLighting(rt.sqrt, entity, hit);
        var inDirectLight := IndirectLighting(rt, hit, path, recurseTime, recurseLimit);
        inDirectLight := inDirectLight.DividedBy(SampleSize as real);
        c := directLight.Plus(inDirectLight).Times(mat.color).DividedBy(rt.pi);
        ShadeAmbient(Snapshot(), rt, found, path, recurseTime, recurseLimit);
      }
    }

    /** The refractive branch: the Fresnel blend of the transmitted and the reflected colour. */
    method RefractiveShade(rt: Runtime, found: Found, path: seq<int>, recurseTime: int, recurseLimit: int) returns (c: Color)
      requires recurseTime < recurseLimit && found.entity.shape.Material().kind == Refractive
      ensures c == Shade(Snapshot(), rt, found, path, recurseTime, recurseLimit)
      decreases recurseLimit - recurseTime, 2
    {
      var hit := found.hit;
      var mat := found.entity.shape.Material();
      var f := Fresnel(rt.sqrt, hit.incident, hit.normal, mat.refractiveIndex);
      var refractColor := Black;
      if f.ratio < 1.0 {
        var refractRay := Ray(FarSideOrigin(hit), RefractDirection(rt.sqrt, hit.incident, f));
        refractColor := RayTrace(rt, refractRay, path + [0], recurseTime + 1, recurseLimit);
      }
      var reflectRay := Ray(NearSideOrigin(hit), MirrorDirection(rt.sqrt, hit));
      var reflectColor := RayTrace(rt, reflectRay, path + [1], recurseTime + 1, recurseLimit);
      c := refractColor.Scale(1.0 - f.ratio).Plus(reflectColor.Scale(f.ratio));
      ShadeRefractive(Snapshot(), rt, found, path, recurseTime, recurseLimit);
    }

    /** The sample loop of the ambient branch: the sum of the eight indirect samples, each divided by the pdf. */
    method IndirectLighting(rt: Runtime, hit: RayHit, path: seq<int>, recurseTime: int, recurseLimit: int) returns (sum: Color)
      requires recurseTime < recurseLimit
      ensures sum == IndirectSum(Snapshot(), rt, hit, path, recurseTime, recurseLimit, SampleSize)
      decreases recurseLimit - recurseTime, 1
    {
      sum := Black;
      var i := 0;
      while i < SampleSize
        invariant 0 <= i <= SampleSize
        invariant sum == IndirectSum(Snapshot(), rt, hit, path, recurseTime, recurseLimit, i)
      {
        var sampleColor := IndirectSampleColor(rt, hit, path, i, recurseTime, recurseLimit);
        IndirectSumStep(Snapshot(), rt, hit, path, recurseTime, recurseLimit, i);
        sum := sum.Plus(sampleColor);
        i := i + 1;
      }
    }

    /** One pass of the sample loop: a uniform hemisphere sample (pdf 1/(2π)) around the normal, traced one level deeper. */
    method IndirectSampleColor(rt: Runtime, hit: RayHit, path: seq<int>, i: nat, recurseTime: int, recurseLimit: int) returns (c: Color)
      requires recurseTime < recurseLimit
      ensures c == IndirectSample(Snapshot(), rt, hit, path, recurseTime, recurseLimit, i)
      decreases recurseLimit - recurseTime, 0
    {
      var frame := TangentFrame(rt.sqrt, hit.normal);
      var pdf := Pdf(rt);
      var r1 := rt.nextDouble(path, 2 * i);
      var r2 := rt.nextDouble(path, 2 * i + 1);
      var sample := HemisphereSample(rt, r1, r2);
      var sampleWorld := ToWorld(frame, sample);
      var newRay := Ray(NearSideOrigin(hit), sampleWorld.Normalized(rt.sqrt));
      assert newRay == SampleRay(rt, hit, path, i);
      ghost var w := Snapshot();
      var sampleColor := RayTrace(rt, newRay, path + [i], recurseTime + 1, recurseLimit);
      assert sampleColor == Trace(w, rt, SampleRay(rt, hit, path, i), path + [i], recurseTime + 1, recurseLimit);
      c := sampleColor.DividedBy(pdf);
    }

    /** The body of Render's pixel loop: the colour pixel (x, y) gets when pixelColor holds `carried`. */
    method RenderPixel(rt: Runtime, width: int, height: int, x: int, y: int, carried: Color) returns (pixelColor: Color)
      ensures pixelColor == PixelColor(Snapshot(), rt, options.aaMultiplier, width, height, x, y, carried)
    {
      var multi := options.aaMultiplier;
      if multi == 1 {
        var ray := PrimaryRay(rt, width, height, x, y, 0.0, 0.0);
        pixelColor := RayTrace(rt, ray, [x, y], 0, RecurseLimit);
      } else {
        ghost var samples := Samples(Snapshot(), rt, multi, width, height, x, y);
        SamplesAreSamples(Snapshot(), rt, multi, width, height, x, y);
        pixelColor := SampleGrid(rt, width, height, x, y, carried, samples);
        pixelColor := pixelColor.DividedBy((multi * multi) as real);
      }
      pixelColor := NormalizedColor(pixelColor);
    }

    /**
     * The anti-aliasing double loop: all multi^2 samples of pixel (x, y),
     * added row by row to `carried`; `samples` names the traced samples.
     */
    method SampleGrid(rt: Runtime, width: int, height: int, x: int, y: int, carried: Color,
                      ghost samples: (int, int) -> Color) returns (pixelColor: Color)
      requires forall i, j :: SampleAt(samples, Snapshot(), rt, options.aaMultiplier, width, height, x, y, i, j)
      ensures pixelColor == carried.Plus(GridSum(samples, options.aaMultiplier, options.aaMultiplier))
    {
      var multi := options.aaMultiplier;
      pixelColor := carried;
      var i := 1;
      while i <= multi
        invariant 1 <= i && (i <= multi + 1 || i == 1)
        invariant pixelColor == carried.Plus(GridSum(samples, multi, i - 1))
      {
        pixelColor := SampleRow(rt, width, height, x, y, i, pixelColor, samples);
        PlusAssociates(carried, GridSum(samples, multi, i - 1), RowSum(samples, i, multi));
        i := i + 1;
      }
    }

    /** The inner anti-aliasing loop: samples (i, 1) .. (i, multi) of pixel (x, y), added in order to `before`. */
    method SampleRow(rt: Runtime, width: int, height: int, x: int, y: int, i: int, before: Color,
                     ghost samples: (int, int) -> Color) returns (pixelColor: Color)
      requires forall a, b :: SampleAt(samples, Snapshot(), rt, options.aaMultiplier, width, height, x, y, a, b)
      ensures pixelColor == before.Plus(RowSum(samples, i, options.aaMultiplier))
    {
      var multi := options.aaMultiplier;
      pixelColor := before;
      var j := 1;
      while j <= multi
        invariant 1 <= j && (j <= multi + 1 || j == 1)
        invariant pixelColor == before.Plus(RowSum(samples, i, j - 1))
      {
        var sample := SampleColor(rt, width, height, x, y, i, j);
        assert SampleAt(samples, Snapshot(), rt, multi, width, height, x, y, i, j);
        PlusAssociates(before, RowSum(samples, i, j - 1), sample);
        pixelColor := pixelColor.Plus(sample);
        j := j + 1;
      }
    }

    /** Anti-aliasing sample (i, j): the primary ray moved by the two offsets, traced from depth 0. */
    method SampleColor(rt: Runtime, width: int, height: int, x: int, y: int, i: int, j: int) returns (sample: Color)
      ensures sample == AASample(Snapshot(), rt, options.aaMultiplier, width, height, x, y, i, j)
    {
      var multi := options.aaMultiplier;
      var ray := PrimaryRay(rt, width, height, x, y, AAOffset(i, width, multi), AAOffset(j, height, multi));
      sample := RayTrace(rt, ray, [x, y, i, j], 0, RecurseLimit);
    }

    /**
     * Render into a width x height image: every pixel of the grid is
     * written, row by row, with the colour Stored gives it.
     */
    method Render(rt: Runtime, width: int, height: int) returns (image: map<(int, int), Color>)
      ensures forall x, y :: (x, y) in image <==> 0 <= x < width && 0 <= y < height
      ensures forall x, y :: 0 <= x < width && 0 <= y < height ==>
                image[(x, y)] == Stored(PixelFn(Snapshot(), rt, options.aaMultiplier, width, height), width, x, y)
    {
      ghost var pixel := PixelFn(Snapshot(), rt, options.aaMultiplier, width, height);
      PixelFnIsPixel(Snapshot(), rt, options.aaMultiplier, width, height);
      image := RenderRows(rt, width, height, pixel);
    }

    /** Render's two pixel loops; `pixel` names the colour each pixel gets from the carried one. */
    method RenderRows(rt: Runtime, width: int, height: int, ghost pixel: (int, int, Color) -> Color)
      returns (image: map<(int, int), Color>)
      requires forall x, y, c :: PixelAt(pixel, Snapshot(), rt, options.aaMultiplier, width, height, x, y, c)
      ensures forall x, y :: (x, y) in image <==> 0 <= x < width && 0 <= y < height
      ensures forall x, y :: 0 <= x < width && 0 <= y < height ==> image[(x, y)] == Stored(pixel, width, x, y)
    {
      image := map[];
      var pixelColor := Black;
      var y := 0;
      while y < height
        invariant 0 <= y && (y <= height || y == 0)
        invariant forall px, py :: (px, py) in image <==> 0 <= px < width && 0 <= py < y
        invariant forall px, py :: 0 <= px < width && 0 <= py < y ==> image[(px, py)] == Stored(pixel, width, px, py)
        invariant 0 < width && 0 < y ==> pixelColor == Stored(pixel, width, width - 1, y - 1)
        invariant width <= 0 || y == 0 ==> pixelColor == Black
      {
        image, pixelColor := RenderRow(rt, width, height, y, image, pixelColor, pixel);
        y := y + 1;
      }
    }

    /** Render's inner loop: row y, left to right, starting from the colour carried into it. */
    method RenderRow(rt: Runtime, width: int, height: int, y: int, before: map<(int, int), Color>, carriedIn: Color,
                     ghost pixel: (int, int, Color) -> Color)
      returns (image: map<(int, int), Color>, pixelColor: Color)
      requires forall a, b, c :: PixelAt(pixel, Snapshot(), rt, options.aaMultiplier, width, height, a, b, c)
      requires 0 <= y
      requires 0 < width ==> carriedIn == Carried(pixel, width, 0, y)
      requires forall px, py :: (px, py) in before <==> 0 <= px < width && 0 <= py < y
      requires forall px, py :: 0 <= px < width && 0 <= py < y ==> before[(px, py)] == Stored(pixel, width, px, py)
      ensures forall px, py :: (px, py) in image <==> 0 <= px < width && 0 <= py <= y
      ensures forall px, py :: 0 <= px < width && 0 <= py <= y ==> image[(px, py)] == Stored(pixel, width, px, py)
      ensures 0 < width ==> pixelColor == Stored(pixel, width, width - 1, y)
      ensures width <= 0 ==> pixelColor == carriedIn
    {
      var row: map<(int, int), Color> := map[];
      pixelColor := carriedIn;
      var x := 0;
      while x < width
        invariant 0 <= x && (x <= width || x == 0)
        invariant width <= 0 ==> pixelColor == carriedIn
        invariant forall px, py :: (px, py) in row <==> py == y && 0 <= px < x
        invariant forall px :: 0 <= px < x ==> row[(px, y)] == Stored(pixel, width, px, y)
        invariant x < width ==> pixelColor == Carried(pixel, width, x, y)
        invariant 0 < x ==> pixelColor == Stored(pixel, width, x - 1, y)
      {
        ghost var carried := pixelColor;
        pixelColor := RenderPixel(rt, width, height, x, y, pixelColor);
        assert PixelAt(pixel, Snapshot(), rt, options.aaMultiplier, width, height, x, y, carried);
        row := row[(x, y) := pixelColor];
        x := x + 1;
      }
      image := before + row;
    }
  }
}
