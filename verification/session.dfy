/**
 * The converter session of the library: `Start` opens a scene, `AddMSH`
 * converts one asset into it, `SaveFBX` exports it, `Close` drops it and
 * `ClearFBXScene` starts over with the same destination. The FBX manager is
 * reduced to a presence flag, the file system to a map from the paths that
 * exist to the assets they hold, and the export to a success flag.
 */
module Session {

  import opened Wrappers
  import opened Msh
  import opened Scenes
  import opened Diagnostics
  import opened Registration
  import opened Builder
  import Hierarchy

  /** The files that exist, each with the asset it reads as. */
  type FileSystem = map<string, MshFile>

  /** An empty path never exists. */
  predicate Exists(fs: FileSystem, path: string) {
    path != "" && path in fs
  }

  /** The base pose handle: none, a loaded asset, or an asset already freed. */
  datatype BaseposeHandle = NoBasepose | Loaded(file: MshFile) | Destroyed

  /**
   * The converter's state. `models` holds, per converted asset, the pairs
   * (model index, node) of its registered models.
   */
  datatype Session = Session(
    running: bool,
    scene: Option<Scene>,
    manager: bool,
    meshInProgress: bool,
    fbxPath: string,
    crcToNode: map<Checksum, NodeId>,
    models: seq<seq<(nat, NodeId)>>,
    basepose: BaseposeHandle,
    baseposePath: string,
    settings: Settings,
    log: Log)

  /** The result of an operation that reports success. */
  datatype Outcome = Outcome(st: Session, ok: bool)

  /** A freshly constructed converter with the given base pose path and settings. */
  function Fresh(baseposePath: string, settings: Settings): (r: Session)
    ensures Valid(r) && !r.running
  {
    Session(false, None, false, false, "", map[], [], NoBasepose, baseposePath, settings, [])
  }

  /** The scene and its checksum table agree whenever there is a scene. */
  predicate TablesFit(st: Session) {
    st.scene.Some? ==> TableValid(st.scene.value, st.crcToNode)
  }

  /**
   * The invariant of every state the operations reach from `Fresh`: scene and
   * manager exist exactly while running, no asset is half converted, and the
   * base pose handle never refers to a freed asset.
   */
  predicate Valid(st: Session) {
    && (st.running <==> st.scene.Some?)
    && (st.running <==> st.manager)
    && !st.meshInProgress
    && st.basepose != Destroyed
    && TablesFit(st)
  }

  /** Refuses an operation: only the log grows, by the error. */
  function Refuse(st: Session, e: Event): (r: Outcome)
    ensures !r.ok && r.st == st.(log := st.log + [Err(e)])
  {
    Outcome(st.(log := st.log + [Err(e)]), false)
  }

  /** The asset a conversion reads its base pose from. */
  function BaseposeFile(h: BaseposeHandle): (r: Option<MshFile>)
    ensures r.Some? <==> h.Loaded?
  {
    match h
    case Loaded(f) => Some(f)
    case _ => None
  }

  /**
   * Opens a session writing to `path`. A leftover destination path is only
   * reported; the base pose is (re)loaded when its file exists.
   */
  function Start(st: Session, path: string, fs: FileSystem): (r: Outcome)
    ensures st.running ==> r == Refuse(st, AlreadyRunning)
    ensures !st.running && st.scene.Some? ==> r == Refuse(st, SceneNotNull)
    ensures !st.running && st.scene.None? && st.manager ==> r == Refuse(st, ManagerNotNull)
    ensures !st.running && st.scene.None? && !st.manager && st.meshInProgress ==> r == Refuse(st, MshStillPresent)
    ensures !st.running && st.scene.None? && !st.manager && !st.meshInProgress ==>
      && r.ok && r.st.running && r.st.manager && r.st.scene == Some(EmptyScene())
      && r.st.crcToNode == map[] && r.st.models == [] && r.st.fbxPath == path
      && r.st.log == st.log + (if st.fbxPath != "" then [Err(FbxPathStillPresent)] else [])
      && r.st.basepose == (if Exists(fs, st.baseposePath) then Loaded(fs[st.baseposePath]) else st.basepose)
      && r.st.settings == st.settings && r.st.baseposePath == st.baseposePath
  {
    if st.running then Refuse(st, AlreadyRunning)
    else if st.scene.Some? then Refuse(st, SceneNotNull)
    else if st.manager then Refuse(st, ManagerNotNull)
    else if st.meshInProgress then Refuse(st, MshStillPresent)
    else
      var log := st.log + (if st.fbxPath != "" then [Err(FbxPathStillPresent)] else []);
      var bp := if Exists(fs, st.baseposePath) then Loaded(fs[st.baseposePath]) else st.basepose;
      Outcome(st.(running := true, scene := Some(EmptyScene()), manager := true, fbxPath := path,
                  crcToNode := map[], models := [], basepose := bp, log := log), true)
  }

  /** Converts `file` into the session's scene with the session's settings. */
  function Convert(st: Session, file: MshFile, co: Collaborators): (r: Session)
    requires st.scene.Some? && TablesFit(st)
    ensures r.scene.Some? && TablesFit(r) && |r.models| == |st.models| + 1
    ensures st.crcToNode.Keys <= r.crcToNode.Keys
    ensures r == st.(scene := r.scene, crcToNode := r.crcToNode, models := r.models, log := r.log)
  {
    var b := ConvertFile(st.scene.value, st.crcToNode, file, BaseposeFile(st.basepose), st.settings, co);
    st.(scene := Some(b.scene), crcToNode := b.crcToNode, models := st.models + [b.processing], log := st.log + b.log)
  }

  /**
   * The guards of `AddMSH` as written: the error they report, or `None` when
   * the conversion goes ahead. There is no check for a missing scene.
   */
  function AddGuardsAsWritten(st: Session, path: string, fs: FileSystem): (r: Option<Event>)
    ensures r.None? <==> !st.meshInProgress && Exists(fs, path)
  {
    if st.meshInProgress then Some(MeshInProgress)
    else if !Exists(fs, path) then Some(MshMissing)
    else None
  }

  /**
   * On a closed session the guards of `AddMSH` let an existing file through,
   * although there is no scene to convert it into.
   */
  lemma ClosedSessionPassesAddGuards()
    ensures var fs := map["a.msh" := MshFile([], [], Animations([], []))];
      var st := Fresh("", Settings({}, {}, false, ""));
      st.scene.None? && AddGuardsAsWritten(st, "a.msh", fs).None?
  {
  }

  /**
   * Converts the asset at `path` into the scene. Unlike the code as written, a
   * session without a scene refuses the asset.
   */
  function AddMsh(st: Session, path: string, fs: FileSystem, co: Collaborators): (r: Outcome)
    requires TablesFit(st)
    ensures st.meshInProgress ==> r == Refuse(st, MeshInProgress)
    ensures !st.meshInProgress && st.scene.None? ==> r == Refuse(st, SceneNull)
    ensures !st.meshInProgress && st.scene.Some? && !Exists(fs, path) ==> r == Refuse(st, MshMissing)
    ensures !st.meshInProgress && st.scene.Some? && Exists(fs, path) ==>
      r.ok && r.st == Convert(st, fs[path], co)
  {
    if st.meshInProgress then Refuse(st, MeshInProgress)
    else if st.scene.None? then Refuse(st, SceneNull)
    else if !Exists(fs, path) then Refuse(st, MshMissing)
    else Outcome(Convert(st, fs[path], co), true)
  }

  /**
   * Exports the scene. A missing destination path is only reported; the
   * hierarchy check always runs before the export, whose outcome is `exported`.
   */
  function SaveFbx(st: Session, exported: bool): (r: Outcome)
    ensures st.scene.None? ==> r == Refuse(st, SceneNull)
    ensures st.scene.Some? && !st.manager ==> r == Refuse(st, ManagerNull)
    ensures st.scene.Some? && st.manager && st.meshInProgress ==> r == Refuse(st, MshStillPresent)
    ensures st.scene.Some? && st.manager && !st.meshInProgress ==>
      && r.ok == exported && r.st == st.(log := r.st.log)
      && r.st.log == st.log + (if st.fbxPath == "" then [Err(NoFbxPath)] else [])
                     + Hierarchy.CheckHierarchy(st.scene) + (if exported then [] else [Err(ExportFailed)])
  {
    if st.scene.None? then Refuse(st, SceneNull)
    else if !st.manager then Refuse(st, ManagerNull)
    else if st.meshInProgress then Refuse(st, MshStillPresent)
    else
      var log := st.log + (if st.fbxPath == "" then [Err(NoFbxPath)] else []) + Hierarchy.CheckHierarchy(st.scene);
      Outcome(st.(log := log + (if exported then [] else [Err(ExportFailed)])), exported)
  }

  /** `Close` as written: the base pose asset is freed but the handle keeps pointing at it. */
  function CloseAsWritten(st: Session): (r: Session)
    ensures !st.running ==> r == st
    ensures st.running && st.scene.Some? && st.manager ==>
      r.basepose == (if st.basepose == NoBasepose then NoBasepose else Destroyed)
  {
    if !st.running then st
    else if st.scene.None? || !st.manager then st.(log := st.log + [Err(CloseWithoutScene)])
    else
      st.(basepose := if st.basepose == NoBasepose then NoBasepose else Destroyed,
          scene := None, manager := false, meshInProgress := false, fbxPath := "", running := false)
  }

  /**
   * After a base pose was loaded, closing as written and starting again while
   * the base pose file is gone yields a running session whose handle refers
   * to the freed asset; the next conversion would read it.
   */
  lemma DanglingBaseposeAfterRestart()
    ensures var asset := MshFile([], [], Animations([], []));
      var st0 := Fresh("pose.msh", Settings({}, {}, false, ""));
      var s1 := Start(st0, "out.fbx", map["pose.msh" := asset]);
      var s2 := CloseAsWritten(s1.st);
      var s3 := Start(s2, "out.fbx", map[]);
      && s1.st.basepose == Loaded(asset) && s3.ok && s3.st.running && s3.st.basepose == Destroyed
  {
  }

  /**
   * Closes the session: a no-op unless running; a running session without a
   * scene or manager only reports that; otherwise scene, manager and asset are
   * dropped, the path is cleared and the base pose handle is reset. The
   * checksum and model tables are left as they are.
   */
  function Close(st: Session): (r: Session)
    ensures !st.running ==> r == st
    ensures st.running && (st.scene.None? || !st.manager) ==> r == st.(log := st.log + [Err(CloseWithoutScene)])
    ensures st.running && st.scene.Some? && st.manager ==>
      && !r.running && r.scene.None? && !r.manager && !r.meshInProgress && r.fbxPath == "" && r.basepose == NoBasepose
      && r.crcToNode == st.crcToNode && r.models == st.models && r.log == st.log && r.settings == st.settings
  {
    if !st.running then st
    else if st.scene.None? || !st.manager then st.(log := st.log + [Err(CloseWithoutScene)])
    else st.(basepose := NoBasepose, scene := None, manager := false, meshInProgress := false, fbxPath := "", running := false)
  }

  /** Starts over with the same destination; reports success whenever the session was running. */
  function ClearFbxScene(st: Session, fs: FileSystem): (r: Outcome)
    ensures !st.running ==> r == Refuse(st, NotRunning)
    ensures st.running ==> r.ok
  {
    if !st.running then Refuse(st, NotRunning)
    else Outcome(Start(Close(st), st.fbxPath, fs).st, true)
  }

  /** Every operation keeps the session invariant. */
  lemma OperationsKeepValid(st: Session, path: string, fs: FileSystem, co: Collaborators, exported: bool)
    requires Valid(st)
    ensures Valid(Start(st, path, fs).st)
    ensures Valid(AddMsh(st, path, fs, co).st)
    ensures Valid(SaveFbx(st, exported).st)
    ensures Valid(Close(st))
    ensures Valid(ClearFbxScene(st, fs).st)
  {
    hide Convert;
  }

  /** In a valid session, closing twice is closing once. */
  lemma CloseIdempotent(st: Session)
    requires Valid(st)
    ensures Close(Close(st)) == Close(st)
  {
  }

  /**
   * Clearing a running session keeps its destination, logs nothing and leaves
   * an empty scene with empty tables; only the base pose may be reloaded.
   */
  lemma ClearStartsOver(st: Session, fs: FileSystem)
    requires Valid(st) && st.running
    ensures var r := ClearFbxScene(st, fs).st;
      && r.running && r.fbxPath == st.fbxPath && r.scene == Some(EmptyScene())
      && r.crcToNode == map[] && r.models == [] && r.log == st.log && r.settings == st.settings
      && r.basepose == (if Exists(fs, st.baseposePath) then Loaded(fs[st.baseposePath]) else NoBasepose)
  {
  }

  /** A valid session that is not running always starts, and a started one refuses a second start. */
  lemma StartOnlyWhenClosed(st: Session, path: string, path2: string, fs: FileSystem, fs2: FileSystem)
    requires Valid(st)
    ensures Start(st, path, fs).ok <==> !st.running
    ensures Start(st, path, fs).ok ==> !Start(Start(st, path, fs).st, path2, fs2).ok
  {
  }

  /**
   * Adding assets to a started session never loses a checksum: every bone
   * mapped after the first asset is still mapped after the second.
   */
  lemma AddKeepsChecksums(st: Session, p1: string, p2: string, fs: FileSystem, co: Collaborators)
    requires Valid(st)
    ensures var a := AddMsh(st, p1, fs, co).st;
      st.crcToNode.Keys <= a.crcToNode.Keys <= AddMsh(a, p2, fs, co).st.crcToNode.Keys
  {
  }
}
