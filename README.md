# A verified model of a Whitted-style ray tracer

This project models the core of a small C# ray tracer in Dafny and proves
properties of the model:

- the vector algebra of `Vector3`;
- the intersection routines of the three primitives (infinite plane, sphere, triangle);
- the `Scene` object: its entity and light sets, the recursive `RayTrace`, the shadow test, the colour clamp and the `Render` loops, including anti-aliasing.

Doubles are modelled as reals. `Math.Sqrt`, `Math.Tan`, `Math.Sin`,
`Math.Cos`, `Math.PI` and the random generator are parameters, collected in
`Numerics.Runtime`. Lemmas that need facts about them say so in their
preconditions: `Numerics.SqrtLaw` for the square root, `Optics.TrigLaw` for sine and cosine.

Modules, by source file:

| module | models |
|---|---|
| `Numerics` | the scalar runtime: division, `Math.Abs`/`Max`/`Clamp`, `Double.Epsilon`, the host functions |
| `Vectors` | `src/math/Vector3.cs` |
| `Rays` | `src/math/Ray.cs` (a datatype) |
| `SceneOptionsRecord` | `src/scene/SceneOptions.cs` (a datatype) |
| `Shading` | the minimal `Color`, `Material`, `PointLight` and `RayHit` value types the core uses |
| `Planes`, `Spheres`, `Triangles` | `src/scene/primitives/*.cs` |
| `Entities` | the entity kinds and `SceneEntity` (a class, so entities compare by identity) |
| `Optics` | the expression-level parts of `Scene.cs`: `NormalizedColor`, offsets, mirror and Fresnel terms, the hemisphere sample and its frame |
| `Transport` | `RayTrace` as functions: the nearest-hit scan, `InShadow`, the direct-light sum, and the recursion with its material branches |
| `Scenes` | the `Scene` class: its methods with loops and state, proved to compute the `Transport` functions; `Render`'s pinhole camera and anti-aliasing offsets; and `Render`'s image |

`Scene` is a class:

- Its `HashSet` fields are duplicate-free sequences that `AddEntity` and `AddPointLight` append to.
- `RayTrace`, `InShadow` and the light and sample loops are methods with loop invariants. Each `ensures` that it computes the matching `Transport` function.
- `Render` returns the image as a map from `(x, y)` to the stored colour.

Random draws are named explicitly. The `k`-th `NextDouble()` of the generator that a `RayTrace` call creates is `rt.nextDouble(path, k)`, where `path` identifies the call:

- Render's primary rays use `[x, y]`, or `[x, y, i, j]` with anti-aliasing.
- Each recursive call extends the path by one index: ambient sample `i` by `i`, the mirror ray by `0`, the transmitted and reflected rays of glass by `0` and `1`.

## Model

| member | source | states |
|---|---|---|
| Vectors.Vector3.LengthSq | src/math/Vector3.cs:41-49 | the squared length (`Math.Pow(c, 2)` as `c * c`) is never negative |
| Vectors.Vector3.Length | src/math/Vector3.cs:55-58 | under the square-root law the length is non-negative and squares to `LengthSq` |
| Vectors.DotCommutes | src/math/Vector3.cs:78-86 | `a.Dot(b) == b.Dot(a)` |
| Vectors.DotSelfIsLengthSq | src/math/Vector3.cs:41-86 | `v.Dot(v) == v.LengthSq()` |
| Vectors.CrossPerpendicular | src/math/Vector3.cs:93-100 | the cross product is perpendicular to both operands |
| Vectors.CrossAntiCommutes | src/math/Vector3.cs:93-129 | `a.Cross(b) == -(b.Cross(a))` |
| Vectors.MinusIsPlusNegate | src/math/Vector3.cs:108-144 | `a - b == a + (-b)` and `(a - b) + b == a` |
| Vectors.DotPlus | src/math/Vector3.cs:108-144 | the dot product distributes over `+` and `-` |
| Vectors.TimesCommutes | src/math/Vector3.cs:152-174 | `v * s == s * v` |
| Vectors.DotTimes | src/math/Vector3.cs:152-174 | scaling either operand scales the dot product: `(v * s).Dot(w) == s * v.Dot(w)` |
| Vectors.DividedByIsTimesInverse | src/math/Vector3.cs:152-189 | `v / s == v * (1 / s)` for `s != 0` |
| Vectors.NormalizedIsScaled | src/math/Vector3.cs:64-71 | normalizing multiplies by the reciprocal of the length |
| Vectors.NormalizedIsUnit | src/math/Vector3.cs:55-71 | a non-zero vector normalizes to squared length 1, under the square-root law |
| Vectors.NormalizedKeepsPerpendicular | src/math/Vector3.cs:64-71 | normalizing keeps a vector perpendicular to whatever it was perpendicular to |
| Numerics.Div | src/math/Vector3.cs:182-189 | a quotient times a non-zero divisor gives back the dividend; dividing by zero gives 0 |
| Numerics.Clamp | src/scene/Scene.cs:259 | `Math.Clamp` lies in `[lo, hi]`, leaves in-range values alone and gives the violated bound otherwise |
| Numerics.DoubleEpsilonPositive | src/scene/primitives/Plane.cs:35 | `Double.Epsilon`, written exactly as 2^-1074, is positive |
| Planes.NewPlane | src/scene/primitives/Plane.cs:20-25 | the constructor keeps center and material and stores the normal scaled by the reciprocal of its length |
| Planes.NewPlaneNormalIsUnit | src/scene/primitives/Plane.cs:20-25 | a plane built from a non-zero normal stores a unit normal |
| Planes.Intersect | src/scene/primitives/Plane.cs:32-47 | a ray with `\|d . n\| < Double.Epsilon` has no hit; a hit lies at some `t > 0` along the ray and carries the stored normal (never flipped), the ray's direction and the plane's material |
| Planes.CrossingParameter | src/scene/primitives/Plane.cs:37-38 | a ray that is not parallel meets the plane exactly at `t = (center - origin) . n / (d . n)` |
| Planes.HitOnPlane | src/scene/primitives/Plane.cs:38-44 | the reported position satisfies `(position - center) . normal == 0` |
| Planes.HitIffCrossingAhead | src/scene/primitives/Plane.cs:32-47 | there is a hit exactly when the ray is not near-parallel and meets the plane at some `t > 0` |
| Spheres.Intersect | src/scene/primitives/Sphere.cs:32-76 | a negative discriminant gives no hit; so do two non-positive numerators; a hit lies at some `t > 0` along the ray, with normal `(position - center).Normalized()`, the ray's direction and the sphere's material |
| Spheres.HitAt | src/scene/primitives/Sphere.cs:67-75 | the chosen parameter gives a hit exactly when it is positive, at the ray's point for that parameter |
| Spheres.QuadraticAlongRay | src/scene/primitives/Sphere.cs:34-37 | along the ray, squared distance to the center minus radius² is the quadratic `a t² + b t + c` with the source's coefficients |
| Spheres.MeetsSphereIffZero | src/scene/primitives/Sphere.cs:34-40 | the ray's point at `t` is on the sphere exactly when the quadratic is zero at `t` |
| Spheres.Roots | src/scene/primitives/Sphere.cs:40-58 | with `a > 0` the zeros of the quadratic are exactly `(-b - sqrt(disc)) / 2a <= (-b + sqrt(disc)) / 2a` |
| Spheres.HitParameter | src/scene/primitives/Sphere.cs:40-70 | on a hit `a > 0` and the discriminant is non-negative; the smaller root is taken when its numerator is positive, the larger one otherwise |
| Spheres.HitOnSphere | src/scene/primitives/Sphere.cs:40-70 | the reported position lies on the sphere: `(position - center).LengthSq() == radius²` |
| Spheres.HitNormalIsUnit | src/scene/primitives/Sphere.cs:70-73 | for a non-zero radius the hit normal `(position - center).Normalized()` is a unit vector |
| Spheres.HitIsNearestCrossing | src/scene/primitives/Sphere.cs:45-67 | no crossing of the sphere ahead of the origin comes before the reported one |
| Spheres.HitIffCrossingAhead | src/scene/primitives/Sphere.cs:32-76 | for a non-zero direction there is a hit exactly when the ray meets the sphere at some `t > 0` |
| Triangles.NormalPerpendicular | src/scene/primitives/Triangle.cs:35 | the normal `((v1 - v0) x (v2 - v0)).Normalized()` is perpendicular to both edges from `v0` |
| Triangles.NormalIsUnit | src/scene/primitives/Triangle.cs:35 | for a non-degenerate triangle the normal is a unit vector |
| Triangles.Intersect | src/scene/primitives/Triangle.cs:33-72 | a near-parallel ray has no hit; a hit lies at some `t > 0`, passes all three edge tests, and carries the computed normal, the ray's direction and the material |
| Triangles.HitIsFilteredPlaneHit | src/scene/primitives/Triangle.cs:38-71 | the triangle's hit is the hit of its supporting plane, kept only if it passes the edge tests (so `t <= 0` is rejected even though the position is computed first) |
| Triangles.HitOnPlane | src/scene/primitives/Triangle.cs:41-44 | the reported position satisfies `(position - v0) . normal == 0` |
| Triangles.HitIffInsideCrossingAhead | src/scene/primitives/Triangle.cs:33-72 | there is a hit exactly when the ray is not near-parallel and crosses the plane at some `t > 0` at a point inside all three edges |
| Triangles.VerticesInside | src/scene/primitives/Triangle.cs:52-69 | each vertex passes all three edge tests |
| Triangles.CentroidInside | src/scene/primitives/Triangle.cs:52-69 | the centroid `(v0 + v1 + v2) / 3` passes all three edge tests |
| Triangles.CentroidOnPlane | src/scene/primitives/Triangle.cs:35-41 | the centroid lies on the supporting plane through `v0` with the triangle's normal |
| Triangles.CentroidRayHits | src/scene/primitives/Triangle.cs:33-72 | for a non-degenerate triangle the ray from one normal length in front of the centroid, along the normal, hits the triangle exactly at the centroid |
| Entities.Shape.Intersect | src/scene/Scene.cs:136 | every entity kind's hit carries the ray's direction and the entity's material |
| Optics.NormalizedColor | src/scene/Scene.cs:314-324 | the six sequential channel fixes clamp each channel into `[0, 1]` independently |
| Optics.NormalizedColorProperties | src/scene/Scene.cs:314-324 | the result is in `[0, 1]`, in-range colours are unchanged, and the clamp is idempotent |
| Optics.OffsetSides | src/scene/Scene.cs:156-157 | the origin of reflected and ambient rays is moved back toward where the incoming ray came from, the origin of transmitted rays forward along it |
| Optics.MirrorLaw | src/scene/Scene.cs:247 | for a unit normal, `I - 2 (N . I) N` flips the normal component and keeps the length |
| Optics.MirrorAtNormalIncidence | src/scene/Scene.cs:247 | for a unit normal and an incident direction along the normal, the mirror direction is the reversed incident direction |
| Optics.Orient | src/scene/Scene.cs:259-274 | the cosine lies in `[0, 1]` and the working normal faces the ray; entering rays keep the normal with indices (1, ior), leaving rays flip it and swap the indices |
| Optics.Fresnel | src/scene/Scene.cs:259-291 | the terms are computed on the side `Orient` gives, and `sint >= 1` gives reflected share 1 (total internal reflection) |
| Optics.FresnelRatioInUnitInterval | src/scene/Scene.cs:280-291 | for a positive refractive index the reflected share lies in `[0, 1]` |
| Optics.MatchedIndices | src/scene/Scene.cs:276-296 | with refractive index 1 nothing is reflected (share 0) unless the ray grazes the surface (share 1), and `RefractDirection` is the incident direction, normalized: glass matched to air does not bend light |
| Optics.CosineReflectanceInUnitInterval | src/scene/Scene.cs:288-290 | for positive indices and non-negative cosines, `(rs² + rp²) / 2` lies in `[0, 1]` |
| Optics.TangentFrame | src/scene/Scene.cs:203-214 | the sampling frame is built around the hit normal; its other two axes are the normalized tangent and bitangent |
| Optics.RawTangentPerpendicular | src/scene/Scene.cs:205-212 | both tangent candidates, and so the chosen one, are perpendicular to the normal |
| Optics.TangentFramePerpendicular | src/scene/Scene.cs:203-214 | normal, tangent and bitangent are pairwise perpendicular |
| Optics.TangentFrameIsUnit | src/scene/Scene.cs:205-214 | for a non-zero normal both candidate tangents are non-zero, so the normalized tangent and the normalized bitangent `N x Nt` are unit vectors; with a unit normal the frame is orthonormal |
| Optics.HemisphereSample | src/scene/Scene.cs:352-359 | the sample's y component is `r1` |
| Optics.HemisphereSampleIsUnit | src/scene/Scene.cs:352-359 | for `r1` in `[-1, 1]` the sample is a unit vector, given sin² + cos² = 1 |
| Optics.FrameSampleAlongNormal | src/scene/Scene.cs:223-226 | in the frame, the world sample's normal component is the local `y` times \|N\|² |
| Transport.NearestIsNearest | src/scene/Scene.cs:133-151 | the scan finds nothing exactly when no entity is hit; otherwise it finds a scene entity with that entity's own hit, no farther than any other hit |
| Transport.NearestFirstOnTies | src/scene/Scene.cs:141-146 | the strict `<` keeps the first-enumerated of equally near hits: every hit before the chosen entity is strictly farther |
| Transport.NearestDistanceOrderIndependent | src/scene/Scene.cs:133-148 | whether there is a hit, and its distance, depend only on the set of entities |
| Transport.ShadowedOrderIndependent | src/scene/Scene.cs:333-348 | shadowing depends only on the set of entities, not on the enumeration order |
| Transport.AllShadowedIsBlack | src/scene/Scene.cs:162-172 | with every light shadowed (or no lights) the direct light is black |
| Transport.DirectLightSplits | src/scene/Scene.cs:162-171 | the direct light of a list of lights is the sum over any split of the list |
| Transport.BlendBetween | src/scene/Scene.cs:306 | for a share in `[0, 1]` each channel of `refract * (1 - r) + reflect * r` lies between the two inputs |
| Transport.CutoffIsBlack | src/scene/Scene.cs:131 | at `recurseTime == recurseLimit` any ray is black, whatever the scene |
| Transport.NoHitIsBlack | src/scene/Scene.cs:150-153 | a ray that hits no entity is black |
| Transport.LastLevelSecondaryIsBlack | src/scene/Scene.cs:243-307 | one level below the limit, mirrors and glass are black: their secondary rays, traced at `recurseTime + 1`, are cut off |
| Transport.TotalInternalReflection | src/scene/Scene.cs:280-306 | when `sint >= 1`, no transmitted ray contributes and the glass shows exactly its reflected ray |
| Transport.RefractiveIsConvexBlend | src/scene/Scene.cs:280-306 | for a positive refractive index each channel of the glass lies between the transmitted and the reflected one |
| Scenes.InsertIsSetAdd | src/scene/Scene.cs:33 | `HashSet.Add` as modelled: the elements afterwards are the old ones plus `x`, still without duplicates |
| Scenes.InsertIdempotent | src/scene/Scene.cs:31-43 | adding the same element twice is adding it once; adding a present element changes nothing |
| Scenes.OffsetSign | src/scene/Scene.cs:92-93 | the offset direction is +1 exactly for even sample indices and -1 exactly for odd ones |
| Scenes.OffsetSignAlternates | src/scene/Scene.cs:92-93 | consecutive sample indices are offset in opposite directions |
| Scenes.AAOffsetBounds | src/scene/Scene.cs:94-95 | for samples `1 <= i <= multi` of a non-empty axis the offset is non-zero, points in the direction `OffsetSign(i)`, and is at most `1 / (2 size)` in magnitude |
| Scenes.ScreenOffset | src/scene/Scene.cs:69-74 | the centre of a pixel inside the axis maps strictly inside `(-1, 1)` |
| Scenes.ScreenOffsetSymmetric | src/scene/Scene.cs:69-74 | pixel `size - 1 - p` maps to minus what pixel `p` maps to |
| Scenes.ScreenPoint | src/scene/Scene.cs:73-77 | the projected point lies on the image plane `z == 1` |
| Scenes.PixelInView | src/scene/Scene.cs:69-77 | an unmoved pixel centre inside the image projects within `tan(fov / 2)` horizontally and within `tan(fov / 2) / (Width / Height)` vertically |
| Scenes.PrimaryRayThroughPixel | src/scene/Scene.cs:75-96 | the primary ray starts at the origin, has a unit direction with positive `z`, and reaches its pixel's point on the image plane at that point's distance |
| Scenes.StoredInUnitRange | src/scene/Scene.cs:104-106 | every stored pixel colour is in `[0, 1]` |
| Scenes.SingleSampleIgnoresCarry | src/scene/Scene.cs:79-84 | without anti-aliasing a pixel does not depend on the colour the previous pixel left behind |
| Scenes.BlackSamplesShowCarry | src/scene/Scene.cs:61-101 | with anti-aliasing the previous pixel leaks in: if all samples are black, the pixel is the carried colour over multi² |
| Scenes.Scene.constructor | src/scene/Scene.cs:20-25 | a new scene keeps its options and has no entities and no lights |
| Scenes.Scene.AddEntity | src/scene/Scene.cs:31-34 | the entities become the set insertion of the entity; lights and options are unchanged; no duplicates |
| Scenes.Scene.AddPointLight | src/scene/Scene.cs:40-43 | the lights become the set insertion of the light; entities and options are unchanged; no duplicates |
| Scenes.Scene.NearestHit | src/scene/Scene.cs:133-148 | the `foreach` scan with its `distSq` bookkeeping computes `Transport.Nearest` |
| Scenes.Scene.InShadow | src/scene/Scene.cs:327-349 | the early-return loop answers true exactly when some entity other than the hit one meets the light ray strictly closer than the light |
| Scenes.Scene.DirectLighting | src/scene/Scene.cs:162-171 | the light loop computes `Transport.DirectLight`: the sum of `Cm * Cl * (N . L)` over the unshadowed lights |
| Scenes.Scene.RayTrace | src/scene/Scene.cs:116-153 | the method computes `Transport.Trace`: black at the cutoff and without a hit, otherwise the shading of the nearest hit; it terminates because every recursion passes `recurseTime + 1` |
| Scenes.Scene.ShadeHit | src/scene/Scene.cs:155-311 | the material dispatch, including the mirror ray, computes `Transport.Shade` |
| Scenes.Scene.DiffuseShade | src/scene/Scene.cs:159-240 | both diffuse branches: direct light alone, or `(direct + indirect / 8) * Cm / pi` with ambient lighting on |
| Scenes.Scene.RefractiveShade | src/scene/Scene.cs:254-308 | the refractive branch computes the Fresnel blend, tracing the transmitted ray only when the reflected share is below 1 |
| Scenes.Scene.IndirectLighting | src/scene/Scene.cs:218-233 | the sample loop adds the eight indirect samples in order |
| Scenes.Scene.IndirectSampleColor | src/scene/Scene.cs:220-231 | one sample: draws `2i` and `2i+1`, the hemisphere sample taken to the frame, traced at `recurseTime + 1` and divided by the pdf `1 / (2 pi)` |
| Scenes.Scene.RenderPixel | src/scene/Scene.cs:69-105 | one pixel: one traced ray for multiplier 1; otherwise the carried colour plus all multi² samples, over multi²; clamped |
| Scenes.Scene.SampleGrid | src/scene/Scene.cs:88-100 | the anti-aliasing double loop adds all multi² samples, row by row, to the carried colour |
| Scenes.Scene.SampleRow | src/scene/Scene.cs:90-99 | the inner anti-aliasing loop adds samples `(i, 1) .. (i, multi)` in order |
| Scenes.Scene.SampleColor | src/scene/Scene.cs:92-98 | sample `(i, j)` is the primary ray moved by the signed offsets, traced from depth 0 with limit 4 |
| Scenes.Scene.Render | src/scene/Scene.cs:51-114 | exactly the pixels `0 <= x < width`, `0 <= y < height` are written, each with the colour it gets from the colour the previous pixel left behind (not reset per pixel) |
| Scenes.Scene.RenderRows | src/scene/Scene.cs:65-108 | the row loop writes every row in order, carrying `pixelColor` from row to row |
| Scenes.Scene.RenderRow | src/scene/Scene.cs:67-107 | the column loop writes row `y` left to right and leaves the last pixel's colour in `pixelColor` |

## Left out

- IEEE-754 arithmetic: doubles are reals, so the model has no rounding, infinity or NaN. A division by zero gives 0 (`Numerics.Div`).
  - This covers `pixelColor / (multi * multi)` for the default multiplier 0.
  - It also covers every image narrower than it is tall (`Width < Height`, for example 1 x 2). There the C# integer quotient `outputImage.Width / outputImage.Height` is 0, so src/scene/Scene.cs:77 divides `Math.Tan(fov / 2)` by zero. The source's `yPos` becomes an infinity (or NaN at the centre row), and its primary directions are not finite. The model's `yPos` is 0 instead, so every row of such an image gets the same primary rays.
  - `Math.Sqrt` of a negative argument is unconstrained. The real program gives NaN there.
- `Math.Sqrt`, `Math.Tan`, `Math.Sin`, `Math.Cos` and `Math.PI` are parameters.
  - The only facts assumed about them are `Numerics.SqrtLaw` (the non-negative root of a non-negative number) and `Optics.TrigLaw` (sin² + cos² = 1).
  - Lemmas state these as preconditions. Nothing is claimed about numeric accuracy.
- `System.Random` is `rt.nextDouble(path, k)`, a parameter indexed by the call that created the generator. The model does not say which values it yields.
- The `Image` class and `SetPixel` are not part of this model. The image is the map that `Render` returns, and its width and height are parameters.
- The `HashSet` fields are duplicate-free sequences in insertion order, not unordered sets.
  - The model fixes the enumeration order that `HashSet` leaves unspecified, because tie-breaking and the order of colour sums depend on it.
  - Order independence is proved where it holds: the nearest distance and shadowing.
- Scenes.Scene.RayTrace: requires `recurseTime <= recurseLimit`. Called with a larger time, the source never meets its cutoff, and it recurses for as long as rays keep hitting something.
- The final `return pixelColor` of `RayTrace` (src/scene/Scene.cs:310) is unreachable: the model's material kinds are exactly Diffuse, Reflective and Refractive.
- The `1e-10` surface offset is modelled literally. Its only stated property is the side it moves the origin to (`Optics.OffsetSides`). No self-intersection claim is made.
- Integer overflow of `outputImage.Width * multi * 2` and `multi * multi` is not modelled: the model's integers are unbounded.
- The aspect divisor `outputImage.Width / outputImage.Height` is modelled as integer division, as written. No aspect-correction property is claimed.
- Physical correctness of shading is not claimed. The diffuse term `N . L` is summed without a clamp, as in the source.
- The commented-out timing code in `Render` and `Vector3.ToString` are left out: they do not affect the image.
- `Material`, `PointLight`, `Color`, `RayHit` and the `SceneEntity` interface are not part of this model. They appear only as the minimal value types and fields the core reads.
- The camera, aperture and focal-length fields of `SceneOptions` are carried but never read, as in the core.
- `new Scene()` with its default argument `new SceneOptions()` is `new Scene(SceneOptionsRecord.DefaultOptions)`: every field is zero, so the multiplier is 0 and ambient lighting is off.
