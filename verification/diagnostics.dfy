/** The log sink of the converter: every diagnostic is a severity and an event. */
module Diagnostics {

  datatype Severity = Info | Warning | Error

  /** One constructor per kind of message, carrying the names and numbers the message mentions. */
  datatype Event =
    // session state machine
    | AlreadyRunning | SceneNotNull | ManagerNotNull | MshStillPresent | FbxPathStillPresent
    | MeshInProgress | MshMissing | SceneNull | ManagerNull | NoFbxPath | ExportFailed
    | NotRunning | CloseWithoutScene
    // model registration and parentship
    | SkippedByFilter(model: string)
    | MeshConversionFailed(modelIndex: nat) | SkeletonConversionFailed(modelIndex: nat)
    | NoBoneType(model: string) | ParentNotFound(parentName: string) | ModelNotMapped(model: string)
    | BoneConverted(model: string, kind: string)
    // base pose
    | BaseposeBoneNotFound(crc: nat) | BaseposeNoTranslation | BaseposeNoRotation | BaseposeNoFrames
    // geometry
    | InconsistentSegment(segment: nat) | MaterialIndexOutOfRange(index: nat, count: nat)
    // weights
    | EnvelopeIndexOutOfRange(index: nat, size: nat) | ModelIndexOutOfRange(index: nat, count: nat)
    | BoneNotFound(bone: string) | BoneParentNull(bone: string)
    // animation
    | NoAnimationCycle | AnimatedBoneNotFound(crc: nat)
    // hierarchy validator
    | NullNode | MaxDepthReached | NullChild(parent: nat) | CircleDetected(child: nat, parent: nat)
    | CircleParent(child: nat, parent: nat)
    | InconsistentParent(child: nat, parent: nat) | NullParent(child: nat, parent: nat)
    // command line
    | InvalidFilterOption(name: string) | DestinationDirectoryMissing | MissingFbxExtension
    | BaseposeNeedsSingleFile | NoInputFiles | StartFailed

  datatype Diag = Diag(severity: Severity, event: Event)

  type Log = seq<Diag>

  function Warn(e: Event): Diag { Diag(Warning, e) }
  function Err(e: Event): Diag { Diag(Error, e) }
}
