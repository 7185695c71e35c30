/** src/scene/SceneOptions.cs: the immutable options record a scene is built with. */
module SceneOptionsRecord {
  import opened Vectors

  /**
   * All seven options; the tracer's core reads only the anti-aliasing
   * multiplier and the ambient-lighting flag.  `new SceneOptions()` in C# is
   * the all-zero record, so the default multiplier is 0.
   */
  datatype SceneOptions = SceneOptions(
    aaMultiplier: int,
    ambientLightingEnabled: bool,
    cameraPosition: Vector3,
    cameraAxis: Vector3,
    cameraAngle: real,
    apertureRadius: real,
    focalLength: real)

  const DefaultOptions := SceneOptions(0, false, Zero, Zero, 0.0, 0.0, 0.0)
}
