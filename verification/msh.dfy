/**
 * The parsed source asset (an MSH file) as the converter reads it. Parsing,
 * triangle-strip expansion and purpose estimation belong to the asset library
 * and are taken as given: each model already carries its purpose and each
 * segment its polygon list.
 */
module Msh {

  import opened Purposes

  /** Checksum of a lower-cased name (a CRC32 in the asset library). */
  type Checksum = nat

  datatype Vector2 = Vector2(x: real, y: real)
  datatype Vector3 = Vector3(x: real, y: real, z: real)
  datatype Vector4 = Vector4(x: real, y: real, z: real, w: real)
  datatype Color = Color(red: real, green: real, blue: real, alpha: real)

  /** One of the weights of a vertex: an index into the model's envelope and a value. */
  datatype BoneWeight = BoneWeight(envelopeIndex: nat, value: real)

  /** Every vertex carries exactly four bone weights. */
  const NumWeights: nat := 4

  type VertexWeights = w: seq<BoneWeight> | |w| == NumWeights
    witness seq(NumWeights, _ => BoneWeight(0, 0.0))

  /**
   * A geometry segment. Polygon vertex indices are local to the segment.
   * The weight list holds one entry per vertex when present.
   */
  datatype Segment = Segment(
    materialIndex: nat,
    vertices: seq<Vector3>,
    normals: seq<Vector3>,
    uvs: seq<Vector2>,
    polygons: seq<seq<nat>>,
    weights: seq<VertexWeights>)

  datatype Transition = Transition(translation: Vector3, rotation: Vector4, scale: Vector3)

  /**
   * A model. `parent` is the parent's name ("" at the top); `envelope` maps
   * the segment-local bone indices used by weights to model indices.
   */
  datatype Model = Model(
    name: string,
    parent: string,
    purpose: Purpose,
    transition: Transition,
    segments: seq<Segment>,
    envelope: seq<nat>)

  datatype Material = Material(name: string, diffuse: Color, ambient: Color, specular: Color, texture0: string)

  /** An animation cycle; only the first one of a file is ever used. */
  datatype Cycle = Cycle(name: string, frameRate: real, firstFrame: nat, lastFrame: nat)

  datatype TranslationFrame = TranslationFrame(frame: nat, translation: Vector3)
  datatype RotationFrame = RotationFrame(frame: nat, rotation: Vector4)

  /** The key frames of one bone, which is identified by the checksum of its name. */
  datatype BoneFrames = BoneFrames(checksum: Checksum, translations: seq<TranslationFrame>, rotations: seq<RotationFrame>)

  datatype Animations = Animations(cycles: seq<Cycle>, boneFrames: seq<BoneFrames>)

  datatype MshFile = MshFile(models: seq<Model>, materials: seq<Material>, animations: Animations)

  /** The collaborators the converter calls but that are outside this model. */
  datatype Collaborators = Collaborators(
    crc: string -> Checksum,           // checksum of the lower-cased name
    toEuler: Vector4 -> Vector3)       // quaternion to Euler angles via a rotation matrix
}
