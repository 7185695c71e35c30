/**
 * The SceneEntity interface and its three implementations: every entity can
 * be intersected with a ray and has a material.
 */
module Entities {
  import opened Optional
  import opened Rays
  import opened Shading
  import Planes
  import Spheres
  import Triangles

  /** The closed set of entity kinds the scene renders. */
  datatype Shape =
    | PlaneShape(plane: Planes.Plane)
    | SphereShape(sphere: Spheres.Sphere)
    | TriangleShape(triangle: Triangles.Triangle)
  {
    /** SceneEntity.Intersect, dispatched to the entity's class. */
    function Intersect(sqrt: real -> real, ray: Ray): (r: Option<RayHit>)
      ensures r.Some? ==> r.value.incident == ray.direction && r.value.material == Material()
    {
      match this
      case PlaneShape(p) => Planes.Intersect(p, ray)
      case SphereShape(s) => Spheres.Intersect(sqrt, s, ray)
      case TriangleShape(t) => Triangles.Intersect(sqrt, t, ray)
    }

    /** SceneEntity.Material */
    function Material(): Material
    {
      match this
      case PlaneShape(p) => p.material
      case SphereShape(s) => s.material
      case TriangleShape(t) => t.material
    }
  }

  /**
   * An entity object.  Entities are reference types in C#: the scene's
   * HashSet and the shadow test's `entity != frontEntity` compare them by
   * identity, which the class gives.
   */
  class SceneEntity {
    const shape: Shape

    constructor(shape: Shape)
      ensures this.shape == shape
    {
      this.shape := shape;
    }
  }

  /** The hit of a ray with an entity, if any. */
  function Hit(e: SceneEntity, sqrt: real -> real, ray: Ray): Option<RayHit>
  {
    e.shape.Intersect(sqrt, ray)
  }
}
