/**
 * Model purposes and chunk filters. The source keeps both as bit masks; here
 * a mask is the set of its bits, so `(a & b) != 0` becomes `a * b != {}`.
 */
module Purposes {

  import opened Wrappers

  /** The single-bit purposes a model can carry. */
  datatype Flag =
    | MeshRegular | MeshLowrez | MeshCollision | MeshVehicleCollision | MeshShadowVolume | MeshTerrainCut
    | PointEmptyTransform | PointDummyRoot | PointHardPoint
    | SkeletonRoot | SkeletonBoneRoot | SkeletonBoneLimb | SkeletonBoneEnd

  type Purpose = set<Flag>

  /** The unknown purpose has no bit set. */
  const Miscellaneous: Purpose := {}

  const MeshMask: Purpose :=
    {MeshRegular, MeshLowrez, MeshCollision, MeshVehicleCollision, MeshShadowVolume, MeshTerrainCut}
  const PointMask: Purpose := {PointEmptyTransform, PointDummyRoot, PointHardPoint}
  const SkeletonMask: Purpose := {SkeletonRoot, SkeletonBoneRoot, SkeletonBoneLimb, SkeletonBoneEnd}

  /** `(a & b) != 0` */
  predicate Intersects(a: Purpose, b: Purpose) {
    a * b != {}
  }

  /** Chunk kinds a conversion can be told to leave alone. */
  datatype Chunk = Materials | Models | Animations | Weights

  type ChunkFilter = set<Chunk>

  /** The enumerator name of a purpose bit. */
  function FlagName(f: Flag): string {
    match f
    case MeshRegular => "Mesh_Regular"
    case MeshLowrez => "Mesh_Lowrez"
    case MeshCollision => "Mesh_Collision"
    case MeshVehicleCollision => "Mesh_VehicleCollision"
    case MeshShadowVolume => "Mesh_ShadowVolume"
    case MeshTerrainCut => "Mesh_TerrainCut"
    case PointEmptyTransform => "Point_EmptyTransform"
    case PointDummyRoot => "Point_DummyRoot"
    case PointHardPoint => "Point_HardPoint"
    case SkeletonRoot => "Skeleton_Root"
    case SkeletonBoneRoot => "Skeleton_BoneRoot"
    case SkeletonBoneLimb => "Skeleton_BoneLimb"
    case SkeletonBoneEnd => "Skeleton_BoneEnd"
  }

  /** Every name the filter option table knows. */
  const FilterNames: set<string> := {
    "Mesh", "Mesh_Regular", "Mesh_Lowrez", "Mesh_Collision", "Mesh_VehicleCollision",
    "Mesh_ShadowVolume", "Mesh_TerrainCut",
    "Point", "Point_EmptyTransform", "Point_DummyRoot", "Point_HardPoint",
    "Skeleton", "Skeleton_Root", "Skeleton_BoneRoot", "Skeleton_BoneLimb", "Skeleton_BoneEnd",
    "Miscellaneous"
  }

  /**
   * The purpose named by a command-line filter option, if the name is one:
   * a family name selects the whole family, a bit's enumerator name selects
   * that bit alone, and "Miscellaneous" selects nothing.
   */
  function FilterPurpose(name: string): (r: Option<Purpose>)
    ensures r.Some? <==> name in FilterNames
    ensures r == Some(MeshMask) <==> name == "Mesh"
    ensures r == Some(PointMask) <==> name == "Point"
    ensures r == Some(SkeletonMask) <==> name == "Skeleton"
    ensures forall f: Flag :: r == Some({f}) <==> name == FlagName(f)
    ensures r.Some? && r.value == {} <==> name == "Miscellaneous"
  {
    if name == "Mesh" then Some(MeshMask)
    else if name == "Mesh_Regular" then Some({MeshRegular})
    else if name == "Mesh_Lowrez" then Some({MeshLowrez})
    else if name == "Mesh_Collision" then Some({MeshCollision})
    else if name == "Mesh_VehicleCollision" then Some({MeshVehicleCollision})
    else if name == "Mesh_ShadowVolume" then Some({MeshShadowVolume})
    else if name == "Mesh_TerrainCut" then Some({MeshTerrainCut})
    else if name == "Point" then Some(PointMask)
    else if name == "Point_EmptyTransform" then Some({PointEmptyTransform})
    else if name == "Point_DummyRoot" then Some({PointDummyRoot})
    else if name == "Point_HardPoint" then Some({PointHardPoint})
    else if name == "Skeleton" then Some(SkeletonMask)
    else if name == "Skeleton_Root" then Some({SkeletonRoot})
    else if name == "Skeleton_BoneRoot" then Some({SkeletonBoneRoot})
    else if name == "Skeleton_BoneLimb" then Some({SkeletonBoneLimb})
    else if name == "Skeleton_BoneEnd" then Some({SkeletonBoneEnd})
    else if name == "Miscellaneous" then Some(Miscellaneous)
    else None
  }

}
