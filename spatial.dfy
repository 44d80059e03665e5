/**
 * Values produced by the device SDK, as the core sees them. Poses are only
 * stored and compared with zero, never computed with, so their components are
 * modelled as reals.
 */
module Spatial {
  datatype Position = Position(x: real, y: real, z: real)

  /** A quaternion. All four components zero is the SDK's "pose not yet resolved". */
  datatype Rotation = Rotation(x: real, y: real, z: real, w: real)

  datatype Pose = Pose(position: Position, rotation: Rotation)

  /** An anchor returned by a query: its stable id and its current pose. */
  datatype Anchor = Anchor(id: string, pose: Pose)

  /**
   * Localization status of the space and anchor SDKs. The code only ever tests
   * for Localized and NotLocalized; Other stands for every further value.
   */
  datatype LocalizationStatus = NotLocalized | Localized | Other

  predicate IsDegenerate(r: Rotation)
  {
    r.x == 0.0 && r.y == 0.0 && r.z == 0.0 && r.w == 0.0
  }
}
