/**
 * The value that src/scene/Scene.cs's RayTrace computes, written as
 * functions of the scene's contents: the nearest-hit scan, the shadow test,
 * the direct-light sum, and the recursive transport with its four material
 * branches.  The methods of Scenes.Scene are proved to compute exactly these.
 */
module Transport {
  import opened Numerics
  import opened Optional
  import opened Vectors
  import opened Rays
  import opened Shading
  import opened Entities
  import opened Optics

  /** What a scene's RayTrace reads: the ambient flag, and the entities and lights in enumeration order. */
  datatype World = World(ambient: bool, entities: seq<SceneEntity>, lights: seq<PointLight>)

  /** The entity the scan settles on and its hit. */
  datatype Found = Found(entity: SceneEntity, hit: RayHit)

  /** `(hit.Position - origin).LengthSq()`, the squared distance the scan compares. */
  function Dist(hit: RayHit, origin: Vector3): real
  {
    hit.position.Minus(origin).LengthSq()
  }

  /**
   * The nearest-hit scan over `es` in order: a hit replaces the current
   * choice only when it is strictly closer (the initial distance is
   * +infinity, written here as None).
   */
  function Nearest(es: seq<SceneEntity>, sqrt: real -> real, ray: Ray): Option<Found>
    decreases |es|
  {
    if |es| == 0 then None
    else
      var prev := Nearest(es[..|es| - 1], sqrt, ray);
      var e := es[|es| - 1];
      match Hit(e, sqrt, ray)
      case None => prev
      case Some(h) =>
        if prev.None? || Dist(h, ray.origin) < Dist(prev.value.hit, ray.origin) then Some(Found(e, h))
        else prev
  }

  /**
   * The scan finds nothing exactly when no entity is hit; otherwise it finds
   * an entity of `es` together with that entity's hit, and no hit is closer.
   */
  lemma {:induction false} NearestIsNearest(es: seq<SceneEntity>, sqrt: real -> real, ray: Ray)
    ensures var r := Nearest(es, sqrt, ray);
            (r.None? <==> forall e :: e in es ==> Hit(e, sqrt, ray).None?) &&
            (r.Some? ==> r.value.entity in es && Hit(r.value.entity, sqrt, ray) == Some(r.value.hit)) &&
            (r.Some? ==> forall e :: e in es && Hit(e, sqrt, ray).Some? ==>
               Dist(r.value.hit, ray.origin) <= Dist(Hit(e, sqrt, ray).value, ray.origin))
    decreases |es|
  {
    if |es| > 0 {
      var init := es[..|es| - 1];
      var e := es[|es| - 1];
      assert es == init + [e];
      NearestIsNearest(init, sqrt, ray);
    }
  }

  /** On equal distances the entity enumerated first wins: every hit before the chosen one is strictly farther. */
  lemma {:induction false} NearestFirstOnTies(es: seq<SceneEntity>, sqrt: real -> real, ray: Ray)
    requires Nearest(es, sqrt, ray).Some?
    ensures var f := Nearest(es, sqrt, ray).value;
            exists j :: 0 <= j < |es| && es[j] == f.entity &&
              forall i :: 0 <= i < j && Hit(es[i], sqrt, ray).Some? ==>
                Dist(f.hit, ray.origin) < Dist(Hit(es[i], sqrt, ray).value, ray.origin)
    decreases |es|
  {
    var init := es[..|es| - 1];
    var e := es[|es| - 1];
    var prev := Nearest(init, sqrt, ray);
    var f := Nearest(es, sqrt, ray).value;
    NearestIsNearest(init, sqrt, ray);
    if prev.Some? && f == prev.value {
      NearestFirstOnTies(init, sqrt, ray);
      var j :| 0 <= j < |init| && init[j] == f.entity &&
        forall i :: 0 <= i < j && Hit(init[i], sqrt, ray).Some? ==>
          Dist(f.hit, ray.origin) < Dist(Hit(init[i], sqrt, ray).value, ray.origin);
      assert es[j] == f.entity;
      forall i | 0 <= i < j && Hit(es[i], sqrt, ray).Some?
        ensures Dist(f.hit, ray.origin) < Dist(Hit(es[i], sqrt, ray).value, ray.origin)
      {
        assert es[i] == init[i];
      }
    } else {
      var j := |es| - 1;
      assert es[j] == f.entity;
      assert prev.None? || Dist(f.hit, ray.origin) < Dist(prev.value.hit, ray.origin);
      forall i | 0 <= i < j && Hit(es[i], sqrt, ray).Some?
        ensures Dist(f.hit, ray.origin) < Dist(Hit(es[i], sqrt, ray).value, ray.origin)
      {
        assert es[i] == init[i] && init[i] in init;
      }
    }
  }

  /** The distance of the nearest hit does not depend on the enumeration order, only on the set of entities. */
  lemma NearestDistanceOrderIndependent(es1: seq<SceneEntity>, es2: seq<SceneEntity>, sqrt: real -> real, ray: Ray)
    requires (set e | e in es1) == (set e | e in es2)
    ensures Nearest(es1, sqrt, ray).None? <==> Nearest(es2, sqrt, ray).None?
    ensures Nearest(es1, sqrt, ray).Some? && Nearest(es2, sqrt, ray).Some? ==>
            Dist(Nearest(es1, sqrt, ray).value.hit, ray.origin) == Dist(Nearest(es2, sqrt, ray).value.hit, ray.origin)
  {
    var s1 := set e | e in es1;
    var r1, r2 := Nearest(es1, sqrt, ray), Nearest(es2, sqrt, ray);
    NearestIsNearest(es1, sqrt, ray);
    NearestIsNearest(es2, sqrt, ray);
    forall e ensures e in es1 <==> e in es2 {
      assert e in es1 <==> e in s1;
    }
    if r1.Some? && r2.Some? {
      assert Dist(r1.value.hit, ray.origin) <= Dist(Hit(r2.value.entity, sqrt, ray).value, ray.origin);
      assert Dist(r2.value.hit, ray.origin) <= Dist(Hit(r1.value.entity, sqrt, ray).value, ray.origin);
    }
  }

  /** The ray InShadow casts from the hit towards the light. */
  function LightRay(sqrt: real -> real, hit: RayHit, light: PointLight): Ray
  {
    Ray(hit.position, light.position.Minus(hit.position).Normalized(sqrt))
  }

  /**
   * Entity e blocks the light at the hit: it meets the light ray, strictly
   * closer to the hit than the light is, and it is not the entity that was hit.
   */
  predicate Occludes(e: SceneEntity, sqrt: real -> real, front: SceneEntity, light: PointLight, hit: RayHit)
  {
    var lightHit := Hit(e, sqrt, LightRay(sqrt, hit, light));
    lightHit.Some? &&
    light.position.Minus(hit.position).LengthSq() > lightHit.value.position.Minus(hit.position).LengthSq() &&
    e != front
  }

  /** The light is shadowed at the hit when some entity of the scene occludes it. */
  predicate Shadowed(es: seq<SceneEntity>, sqrt: real -> real, front: SceneEntity, light: PointLight, hit: RayHit)
  {
    exists k :: 0 <= k < |es| && Occludes(es[k], sqrt, front, light, hit)
  }

  /** The entity that was hit never shadows its own hit, whatever else the scene holds. */
  lemma FrontNeverOccludes(es: seq<SceneEntity>, sqrt: real -> real, front: SceneEntity, light: PointLight, hit: RayHit)
    ensures Shadowed(es, sqrt, front, light, hit) <==>
            exists k :: 0 <= k < |es| && es[k] != front && Occludes(es[k], sqrt, front, light, hit)
    ensures !Shadowed([front], sqrt, front, light, hit)
  {
  }

  /** Shadowing depends only on the set of entities, not on their order. */
  lemma ShadowedOrderIndependent(es1: seq<SceneEntity>, es2: seq<SceneEntity>, sqrt: real -> real,
                                 front: SceneEntity, light: PointLight, hit: RayHit)
    requires (set e | e in es1) == (set e | e in es2)
    ensures Shadowed(es1, sqrt, front, light, hit) <==> Shadowed(es2, sqrt, front, light, hit)
  {
    var s1 := set e | e in es1;
    forall k | 0 <= k < |es1| && Occludes(es1[k], sqrt, front, light, hit)
      ensures Shadowed(es2, sqrt, front, light, hit)
    {
      assert es1[k] in s1;
      var k2 :| 0 <= k2 < |es2| && es2[k2] == es1[k];
    }
    forall k | 0 <= k < |es2| && Occludes(es2[k], sqrt, front, light, hit)
      ensures Shadowed(es1, sqrt, front, light, hit)
    {
      assert es2[k] in s1;
      var k1 :| 0 <= k1 < |es1| && es1[k1] == es2[k];
    }
  }

  /** `Material.Color * light.Color * N.Dot(L)`, what one unshadowed light adds. */
  function Contribution(sqrt: real -> real, mat: Material, light: PointLight, hit: RayHit): Color
  {
    mat.color.Times(light.color).Scale(hit.normal.Dot(light.position.Minus(hit.position).Normalized(sqrt)))
  }

  /** The direct-light loop: the contributions of the unshadowed lights, added in enumeration order. */
  function DirectLight(lights: seq<PointLight>, es: seq<SceneEntity>, sqrt: real -> real, front: SceneEntity, hit: RayHit): Color
    decreases |lights|
  {
    if |lights| == 0 then Black
    else
      var prev := DirectLight(lights[..|lights| - 1], es, sqrt, front, hit);
      var light := lights[|lights| - 1];
      if Shadowed(es, sqrt, front, light, hit) then prev
      else prev.Plus(Contribution(sqrt, front.shape.Material(), light, hit))
  }

  /** A scene whose every light is shadowed at the hit (in particular one without lights) gives black direct light. */
  lemma {:induction false} AllShadowedIsBlack(lights: seq<PointLight>, es: seq<SceneEntity>, sqrt: real -> real,
                                              front: SceneEntity, hit: RayHit)
    requires forall l :: l in lights ==> Shadowed(es, sqrt, front, l, hit)
    ensures DirectLight(lights, es, sqrt, front, hit) == Black
    decreases |lights|
  {
    if |lights| > 0 {
      var init := lights[..|lights| - 1];
      assert forall l :: l in init ==> l in lights;
      AllShadowedIsBlack(init, es, sqrt, front, hit);
      assert lights[|lights| - 1] in lights;
    }
  }

  /** The direct light of a list of lights is the sum of the direct light of any split of it. */
  lemma {:induction false} DirectLightSplits(l1: seq<PointLight>, l2: seq<PointLight>, es: seq<SceneEntity>,
                                             sqrt: real -> real, front: SceneEntity, hit: RayHit)
    ensures DirectLight(l1 + l2, es, sqrt, front, hit) ==
            DirectLight(l1, es, sqrt, front, hit).Plus(DirectLight(l2, es, sqrt, front, hit))
    decreases |l2|
  {
    if |l2| == 0 {
      assert l1 + l2 == l1;
      BlackAbsorbs(DirectLight(l1, es, sqrt, front, hit), 0.0);
    } else {
      var init := l2[..|l2| - 1];
      var last := l2[|l2| - 1];
      assert (l1 + l2)[..|l1 + l2| - 1] == l1 + init;
      assert (l1 + l2)[|l1 + l2| - 1] == last;
      DirectLightSplits(l1, init, es, sqrt, front, hit);
      var c := Contribution(sqrt, front.shape.Material(), last, hit);
      PlusAssociates(DirectLight(l1, es, sqrt, front, hit), DirectLight(init, es, sqrt, front, hit), c);
    }
  }

  /** Number of indirect samples the ambient branch traces. */
  const SampleSize: nat := 8

  /** `1 / (2 * Math.PI)`, the density of the uniform hemisphere sample. */
  function Pdf(rt: Runtime): real
  {
    Div(1.0, 2.0 * rt.pi)
  }

  /** `refractColor * (1 - reflectRatio) + reflectColor * reflectRatio` */
  function Blend(refract: Color, reflect: Color, ratio: real): Color
  {
    refract.Scale(1.0 - ratio).Plus(reflect.Scale(ratio))
  }

  /** For a ratio in [0, 1] each channel of the blend lies between the refracted and the reflected channel. */
  lemma BlendBetween(refract: Color, reflect: Color, ratio: real)
    requires 0.0 <= ratio <= 1.0
    ensures var c := Blend(refract, reflect, ratio);
            Between(c.r, refract.r, reflect.r) && Between(c.g, refract.g, reflect.g) && Between(c.b, refract.b, reflect.b)
  {
    Mix(refract.r, reflect.r, ratio);
    Mix(refract.g, reflect.g, ratio);
    Mix(refract.b, reflect.b, ratio);
  }

  predicate Between(v: real, a: real, b: real)
  {
    (a <= v <= b) || (b <= v <= a)
  }

  /** `a * (1 - t) + b * t`, one channel of a blend. */
  function Lerp(a: real, b: real, t: real): real
  {
    a * (1.0 - t) + b * t
  }

  lemma Mix(a: real, b: real, t: real)
    requires 0.0 <= t <= 1.0
    ensures Between(Lerp(a, b, t), a, b)
  {
    if a <= b {
      MixUp(a, b, t);
    } else {
      MixDown(a, b, t);
    }
  }

  lemma MixUp(a: real, b: real, t: real)
    requires 0.0 <= t <= 1.0 && a <= b
    ensures a <= Lerp(a, b, t) <= b
  {
    assert a * (1.0 - t) + b * t == a + (b - a) * t;
    PartialStep(b - a, t);
  }

  lemma MixDown(a: real, b: real, t: real)
    requires 0.0 <= t <= 1.0 && b <= a
    ensures b <= Lerp(a, b, t) <= a
  {
    assert a * (1.0 - t) + b * t == b + (a - b) * (1.0 - t);
    PartialStep(a - b, 1.0 - t);
  }

  /** A fraction t in [0, 1] of a non-negative d lies in [0, d]. */
  lemma PartialStep(d: real, t: real)
    requires d >= 0.0 && 0.0 <= t <= 1.0
    ensures 0.0 <= d * t <= d
  {
    Optics.ScaleMonotoneWeak(0.0, t, d);
    Optics.ScaleMonotoneWeak(t, 1.0, d);
  }

  /**
   * RayTrace(ray, time, limit): black once the recursion limit is reached
   * or when nothing is hit, otherwise the shading of the nearest hit.
   * Every recursive call passes time + 1, so the recursion ends.
   */
  function Trace(w: World, rt: Runtime, ray: Ray, path: seq<int>, time: int, limit: int): Color
    requires time <= limit
    decreases limit - time, 2, 0
  {
    if time == limit then Black
    else
      match Nearest(w.entities, rt.sqrt, ray)
      case None => Black
      case Some(found) => Shade(w, rt, found, path, time, limit)
  }

  /** The colour of the nearest hit, by the kind of the hit entity's material. */
  function Shade(w: World, rt: Runtime, found: Found, path: seq<int>, time: int, limit: int): Color
    requires time < limit
    decreases limit - time, 1, 0
  {
    var hit := found.hit;
    var mat := found.entity.shape.Material();
    match mat.kind
    case Diffuse =>
      var direct := DirectLight(w.lights, w.entities, rt.sqrt, found.entity, hit);
      if !w.ambient then direct
      else direct.Plus(IndirectSum(w, rt, hit, path, time, limit, SampleSize).DividedBy(SampleSize as real))
                 .Times(mat.color).DividedBy(rt.pi)
    case Reflective =>
      Trace(w, rt, ReflectedRay(rt.sqrt, hit), path + [0], time + 1, limit)
    case Refractive =>
      var f := Fresnel(rt.sqrt, hit.incident, hit.normal, mat.refractiveIndex);
      var refract := if f.ratio < 1.0 then Trace(w, rt, TransmittedRay(rt.sqrt, hit, f), path + [0], time + 1, limit)
                     else Black;
      var reflect := Trace(w, rt, ReflectedRay(rt.sqrt, hit), path + [1], time + 1, limit);
      Blend(refract, reflect, f.ratio)
  }

  /** The mirror ray of the reflective and refractive branches, from the near-side origin. */
  function ReflectedRay(sqrt: real -> real, hit: RayHit): Ray
  {
    Ray(NearSideOrigin(hit), MirrorDirection(sqrt, hit))
  }

  /** The transmitted ray of the refractive branch, from the far-side origin. */
  function TransmittedRay(sqrt: real -> real, hit: RayHit, f: FresnelTerms): Ray
  {
    Ray(FarSideOrigin(hit), RefractDirection(sqrt, hit.incident, f))
  }

  /** The first n indirect samples of the ambient branch, added in order. */
  function IndirectSum(w: World, rt: Runtime, hit: RayHit, path: seq<int>, time: int, limit: int, n: nat): Color
    requires time < limit
    decreases limit - time, 0, n
  {
    if n == 0 then Black
    else IndirectSum(w, rt, hit, path, time, limit, n - 1).Plus(IndirectSample(w, rt, hit, path, time, limit, n - 1))
  }

  /** The ray of indirect sample i: draws 2i and 2i+1 of the call's generator give the hemisphere sample. */
  function SampleRay(rt: Runtime, hit: RayHit, path: seq<int>, i: nat): Ray
  {
    var r1 := rt.nextDouble(path, 2 * i);
    var r2 := rt.nextDouble(path, 2 * i + 1);
    var frame := TangentFrame(rt.sqrt, hit.normal);
    Ray(NearSideOrigin(hit), ToWorld(frame, HemisphereSample(rt, r1, r2)).Normalized(rt.sqrt))
  }

  /** Indirect sample i: the colour traced along its ray, divided by the density. */
  function IndirectSample(w: World, rt: Runtime, hit: RayHit, path: seq<int>, time: int, limit: int, i: nat): Color
    requires time < limit
    decreases limit - time, 0, i
  {
    Trace(w, rt, SampleRay(rt, hit, path, i), path + [i], time + 1, limit).DividedBy(Pdf(rt))
  }

  /** One more indirect sample adds its colour to the sum. */
  lemma IndirectSumStep(w: World, rt: Runtime, hit: RayHit, path: seq<int>, time: int, limit: int, n: nat)
    requires time < limit
    ensures IndirectSum(w, rt, hit, path, time, limit, n + 1) ==
            IndirectSum(w, rt, hit, path, time, limit, n).Plus(IndirectSample(w, rt, hit, path, time, limit, n))
  {
  }

  /** Shade, diffuse branch without ambient lighting: the direct light alone. */
  lemma ShadeDirect(w: World, rt: Runtime, found: Found, path: seq<int>, time: int, limit: int)
    requires time < limit && found.entity.shape.Material().kind == Diffuse && !w.ambient
    ensures Shade(w, rt, found, path, time, limit) == DirectLight(w.lights, w.entities, rt.sqrt, found.entity, found.hit)
  {
  }

  /** Shade, diffuse branch with ambient lighting: direct plus mean indirect light, times the material colour, over pi. */
  lemma ShadeAmbient(w: World, rt: Runtime, found: Found, path: seq<int>, time: int, limit: int)
    requires time < limit && found.entity.shape.Material().kind == Diffuse && w.ambient
    ensures Shade(w, rt, found, path, time, limit) ==
            DirectLight(w.lights, w.entities, rt.sqrt, found.entity, found.hit)
              .Plus(IndirectSum(w, rt, found.hit, path, time, limit, SampleSize).DividedBy(SampleSize as real))
              .Times(found.entity.shape.Material().color).DividedBy(rt.pi)
  {
  }

  /** Shade, reflective branch: the colour along the mirror ray. */
  lemma ShadeReflective(w: World, rt: Runtime, found: Found, path: seq<int>, time: int, limit: int)
    requires time < limit && found.entity.shape.Material().kind == Reflective
    ensures Shade(w, rt, found, path, time, limit) == Trace(w, rt, ReflectedRay(rt.sqrt, found.hit), path + [0], time + 1, limit)
  {
  }

  /** Shade, refractive branch: the blend of the transmitted (if any) and the reflected colour. */
  lemma ShadeRefractive(w: World, rt: Runtime, found: Found, path: seq<int>, time: int, limit: int)
    requires time < limit && found.entity.shape.Material().kind == Refractive
    ensures var f := Fresnel(rt.sqrt, found.hit.incident, found.hit.normal, found.entity.shape.Material().refractiveIndex);
            Shade(w, rt, found, path, time, limit) ==
            Blend(if f.ratio < 1.0 then Trace(w, rt, TransmittedRay(rt.sqrt, found.hit, f), path + [0], time + 1, limit) else Black,
                  Trace(w, rt, ReflectedRay(rt.sqrt, found.hit), path + [1], time + 1, limit),
                  f.ratio)
  {
  }

  /** At the recursion limit every ray is black. */
  lemma CutoffIsBlack(w: World, rt: Runtime, ray: Ray, path: seq<int>, limit: int)
    ensures Trace(w, rt, ray, path, limit, limit) == Black
  {
  }

  /** A ray that hits nothing is black. */
  lemma NoHitIsBlack(w: World, rt: Runtime, ray: Ray, path: seq<int>, time: int, limit: int)
    requires time < limit
    requires forall e :: e in w.entities ==> Hit(e, rt.sqrt, ray).None?
    ensures Trace(w, rt, ray, path, time, limit) == Black
  {
    NearestIsNearest(w.entities, rt.sqrt, ray);
  }

  /** One level below the limit, mirrors and glass see only black: their secondary rays are cut off. */
  lemma LastLevelSecondaryIsBlack(w: World, rt: Runtime, found: Found, path: seq<int>, limit: int)
    requires found.entity.shape.Material().kind != Diffuse
    ensures Shade(w, rt, found, path, limit - 1, limit) == Black
  {
    var mat := found.entity.shape.Material();
    var hit := found.hit;
    if mat.kind == Reflective {
      assert Shade(w, rt, found, path, limit - 1, limit) == Trace(w, rt, ReflectedRay(rt.sqrt, hit), path + [0], limit, limit);
    } else {
      var f := Fresnel(rt.sqrt, hit.incident, hit.normal, mat.refractiveIndex);
      var refract := if f.ratio < 1.0 then Trace(w, rt, TransmittedRay(rt.sqrt, hit, f), path + [0], limit, limit) else Black;
      var reflect := Trace(w, rt, ReflectedRay(rt.sqrt, hit), path + [1], limit, limit);
      assert Shade(w, rt, found, path, limit - 1, limit) == Blend(refract, reflect, f.ratio);
      assert refract == Black && reflect == Black;
      BlendOfBlack(f.ratio);
    }
  }

  lemma BlendOfBlack(ratio: real)
    ensures Blend(Black, Black, ratio) == Black
  {
  }

  /**
   * Total internal reflection: when Snell's sine reaches 1 the reflected
   * share is 1, no transmitted ray is traced and the glass shows exactly
   * the reflected ray.
   */
  lemma TotalInternalReflection(w: World, rt: Runtime, found: Found, path: seq<int>, time: int, limit: int)
    requires time < limit
    requires found.entity.shape.Material().kind == Refractive
    requires Fresnel(rt.sqrt, found.hit.incident, found.hit.normal, found.entity.shape.Material().refractiveIndex).sint >= 1.0
    ensures Shade(w, rt, found, path, time, limit) == Trace(w, rt, ReflectedRay(rt.sqrt, found.hit), path + [1], time + 1, limit)
  {
    var reflect := Trace(w, rt, ReflectedRay(rt.sqrt, found.hit), path + [1], time + 1, limit);
    BlackAbsorbs(reflect, 0.0);
    assert Black.Scale(0.0) == Black;
    assert reflect.Scale(1.0) == reflect;
  }

  /**
   * With a positive refractive index, the glass colour is a convex blend:
   * each channel lies between that of the transmitted and of the reflected ray.
   */
  lemma RefractiveIsConvexBlend(w: World, rt: Runtime, found: Found, path: seq<int>, time: int, limit: int)
    requires SqrtLaw(rt.sqrt)
    requires time < limit
    requires found.entity.shape.Material().kind == Refractive
    requires found.entity.shape.Material().refractiveIndex > 0.0
    ensures var mat := found.entity.shape.Material();
            var f := Fresnel(rt.sqrt, found.hit.incident, found.hit.normal, mat.refractiveIndex);
            var refract := if f.ratio < 1.0 then Trace(w, rt, TransmittedRay(rt.sqrt, found.hit, f), path + [0], time + 1, limit)
                           else Black;
            var reflect := Trace(w, rt, ReflectedRay(rt.sqrt, found.hit), path + [1], time + 1, limit);
            var c := Shade(w, rt, found, path, time, limit);
            Between(c.r, refract.r, reflect.r) && Between(c.g, refract.g, reflect.g) && Between(c.b, refract.b, reflect.b)
  {
    var mat := found.entity.shape.Material();
    var f := Fresnel(rt.sqrt, found.hit.incident, found.hit.normal, mat.refractiveIndex);
    FresnelRatioInUnitInterval(rt.sqrt, found.hit.incident, found.hit.normal, mat.refractiveIndex);
    var refract := if f.ratio < 1.0 then Trace(w, rt, TransmittedRay(rt.sqrt, found.hit, f), path + [0], time + 1, limit)
                   else Black;
    var reflect := Trace(w, rt, ReflectedRay(rt.sqrt, found.hit), path + [1], time + 1, limit);
    BlendBetween(refract, reflect, f.ratio);
  }
}
