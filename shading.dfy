/**
 * The value types that the tracer's core uses but whose classes are not part
 * of this model (Color, Material, PointLight, RayHit), reduced to the fields
 * and operators the core reads.
 */
module Shading {
  import opened Numerics
  import opened Vectors

  /** Real-valued RGB radiance. */
  datatype Color = Color(r: real, g: real, b: real) {

    /** `this + c` */
    function Plus(c: Color): Color
    {
      Color(r + c.r, g + c.g, b + c.b)
    }

    /** `this * c`, channel by channel. */
    function Times(c: Color): Color
    {
      Color(r * c.r, g * c.g, b * c.b)
    }

    /** `this * s` */
    function Scale(s: real): Color
    {
      Color(r * s, g * s, b * s)
    }

    /** `this / s` */
    function DividedBy(s: real): Color
    {
      Color(Div(r, s), Div(g, s), Div(b, s))
    }
  }

  const Black := Color(0.0, 0.0, 0.0)

  datatype MaterialType = Diffuse | Reflective | Refractive

  datatype Material = Material(kind: MaterialType, color: Color, refractiveIndex: real)

  /**
   * A point light, modelled as a value: two lights with equal fields are the
   * same set element (its class is not part of this model, so value equality
   * is an assumption).
   */
  datatype PointLight = PointLight(position: Vector3, color: Color)

  /** The data of a successful intersection. */
  datatype RayHit = RayHit(position: Vector3, normal: Vector3, incident: Vector3, material: Material)

  /** Black is what every operator on black colours gives back. */
  lemma BlackAbsorbs(c: Color, s: real)
    ensures Black.Plus(c) == c && c.Plus(Black) == c
    ensures Black.Times(c) == Black && c.Times(Black) == Black
    ensures Black.Scale(s) == Black && c.Scale(0.0) == Black
    ensures Black.DividedBy(s) == Black
  {
  }

  /** Adding colours is adding channels, so the order of a sum does not matter. */
  lemma PlusAssociates(a: Color, b: Color, c: Color)
    ensures a.Plus(b).Plus(c) == a.Plus(b.Plus(c))
    ensures a.Plus(b) == b.Plus(a)
  {
  }
}
