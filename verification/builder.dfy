/**
 * Building the scene from one source file: the models pass (registration,
 * placement, base pose, weights) unless models are filtered, then the
 * animation pass unless animations are filtered. The CRC table and the scene
 * carry over from earlier files of the same session.
 */
module Builder {

  import opened Wrappers
  import opened Msh
  import Purposes
  import opened Scenes
  import opened Diagnostics
  import opened Registration
  import opened Placement
  import opened Pose
  import opened Weights
  import opened Skinning
  import opened Animation

  /** The scene after a file, its CRC table, the file's converted models with their nodes, the file's log. */
  datatype Built = Built(scene: Scene, crcToNode: map<Checksum, NodeId>, processing: seq<(nat, NodeId)>, log: Log)

  /** A model with a mesh bit. */
  predicate IsMesh(model: Model) {
    Purposes.Intersects(model.purpose, Purposes.MeshMask)
  }

  /**
   * What the later passes rely on about the registration result: the recorded
   * models name distinct new nodes hanging under the root, and mesh models'
   * nodes carry meshes without skins.
   */
  predicate Entries(models: seq<Model>, base: nat, reg: Reg) {
    var ps := reg.processing;
    && Fits(|reg.scene.nodes|, models, ps) && DistinctNodes(ps)
    && (forall j :: 0 <= j < |ps| ==> base <= ps[j].1)
    && (forall j :: 0 <= j < |ps| ==> reg.scene.nodes[ps[j].1].parent == Some(Root))
    && (forall j :: 0 <= j < |ps| && IsMesh(models[ps[j].0]) ==>
          reg.scene.nodes[ps[j].1].attribute.MeshAttr? && reg.scene.nodes[ps[j].1].attribute.mesh.skins == [])
  }

  /**
   * The registration pass over all models of a file, starting from the scene
   * built so far: the CRC table grows, the recorded models are named after
   * their models and meet `Entries`, and the nodes found are left alone apart
   * from the root's children.
   */
  function RegisterFile(s: Scene, crcToNode: map<Checksum, NodeId>, file: MshFile, settings: Settings,
                        crc: string -> Checksum): (r: Reg)
    requires TableValid(s, crcToNode)
    ensures RegValid(file.models, crc, |s.nodes|, r) && Entries(file.models, |s.nodes|, r)
    ensures crcToNode.Keys <= r.crcToNode.Keys
    ensures |r.scene.nodes| >= |s.nodes| && r.scene.clusters == s.clusters && r.scene.stacks == s.stacks
    ensures forall i :: 0 < i < |s.nodes| ==> r.scene.nodes[i] == s.nodes[i]
    ensures r.scene.nodes[Root] == s.nodes[Root].(children := r.scene.nodes[Root].children)
  {
    var st := Reg(s, crcToNode, [], []);
    var cs := Conversions(file.models, file.materials, settings);
    var r := Register(st, file.models, |file.models|, cs, settings, crc);
    RegisterValid(st, file.models, |file.models|, cs, settings, crc, r);
    RegisterKeeps(st, file.models, |file.models|, cs, settings, crc, r);
    RecordedEntries(file.models, crc, |s.nodes|, r);
    r
  }

  lemma RecordedEntries(models: seq<Model>, crc: string -> Checksum, base: nat, r: Reg)
    requires RegValid(models, crc, base, r)
    ensures Entries(models, base, r)
  {
    forall j | 0 <= j < |r.processing|
      ensures Recorded(models, crc, r, r.processing[j])
    {
    }
  }

  /** The placement pass over the recorded models. */
  function PlaceFile(reg: Reg, models: seq<Model>, toEuler: Vector4 -> Vector3): (r: (Scene, Log))
    requires Fits(|reg.scene.nodes|, models, reg.processing)
    ensures |r.0.nodes| == |reg.scene.nodes| && r.0.clusters == reg.scene.clusters && r.0.stacks == reg.scene.stacks
  {
    PlaceAll(reg.scene, models, reg.processing, |reg.processing|, toEuler)
  }

  /** The entry of the base pose file, if any, that sets the transform of node `n`. */
  function BaseposeEntry(basepose: Option<MshFile>, crcToNode: map<Checksum, NodeId>, n: NodeId): (r: Option<BoneFrames>)
    ensures r.Some? ==> basepose.Some? && Usable(r.value, crcToNode) && crcToNode[r.value.checksum] == n
  {
    match basepose
    case None => None
    case Some(b) => LastPose(b.animations.boneFrames, |b.animations.boneFrames|, crcToNode, n)
  }

  /** The transform node `n` ends with when the placement pass left it with `t`. */
  function Posed(t: Transform, basepose: Option<MshFile>, crcToNode: map<Checksum, NodeId>, n: NodeId,
                 toEuler: Vector4 -> Vector3): Transform
  {
    match BaseposeEntry(basepose, crcToNode, n)
    case None => t
    case Some(bf) => PoseTransform(bf, t.scaling, toEuler)
  }

  /**
   * The base pose pass changes node transforms only: a node some usable entry
   * targets takes the last such entry's translation and rotation and keeps its
   * scale; every other node is unchanged.
   */
  lemma BaseposeNodes(s: Scene, crcToNode: map<Checksum, NodeId>, basepose: Option<MshFile>, toEuler: Vector4 -> Vector3)
    requires TableFits(s, crcToNode)
    ensures var r := ApplyBasepose(s, crcToNode, basepose, toEuler).0;
      forall n :: 0 <= n < |s.nodes| ==>
        r.nodes[n] == s.nodes[n].(transform := Posed(s.nodes[n].transform, basepose, crcToNode, n, toEuler))
  {
  }

  /** The scene the base pose pass leaves, from the registration result. */
  function PosedScene(reg: Reg, models: seq<Model>, basepose: Option<MshFile>, toEuler: Vector4 -> Vector3): (r: Scene)
    requires TableValid(reg.scene, reg.crcToNode) && Fits(|reg.scene.nodes|, models, reg.processing)
    ensures |r.nodes| == |reg.scene.nodes| && r.clusters == reg.scene.clusters && r.stacks == reg.scene.stacks
  {
    ApplyBasepose(PlaceFile(reg, models, toEuler).0, reg.crcToNode, basepose, toEuler).0
  }

  /** What the weight pass starts from: the posed scene, an empty bone-to-cluster table, no log. */
  function SkinStart(s: Scene): SkinPass {
    SkinPass(s, map[], [])
  }

  /**
   * The models pass of one file: registration, placement, base pose, and the
   * weight pass unless weights are filtered. The recorded models' nodes are
   * new nodes of the scene.
   */
  function ModelsPass(s: Scene, crcToNode: map<Checksum, NodeId>, file: MshFile, basepose: Option<MshFile>,
                      settings: Settings, co: Collaborators): (r: Built)
    requires TableValid(s, crcToNode)
    ensures TableValid(r.scene, r.crcToNode) && crcToNode.Keys <= r.crcToNode.Keys
    ensures |r.scene.nodes| >= |s.nodes| && r.scene.stacks == s.stacks
    ensures Fits(|r.scene.nodes|, file.models, r.processing)
    ensures forall j :: 0 <= j < |r.processing| ==> |s.nodes| <= r.processing[j].1
    ensures Purposes.Weights in settings.chunkFilter ==> r.scene.clusters == s.clusters
  {
    var models := file.models;
    var reg := RegisterFile(s, crcToNode, file, settings, co.crc);
    var placed := PlaceFile(reg, models, co.toEuler);
    var posed := ApplyBasepose(placed.0, reg.crcToNode, basepose, co.toEuler);
    var log := reg.log + placed.1 + posed.1;
    if Purposes.Weights in settings.chunkFilter then Built(posed.0, reg.crcToNode, reg.processing, log)
    else
      SkinReady(reg, models, |s.nodes|, basepose, co.toEuler);
      var sp := SkinAll(SkinStart(posed.0), models, reg.processing, |reg.processing|, reg.crcToNode, co.crc);
      Built(sp.scene, reg.crcToNode, reg.processing, log + sp.log)
  }

  /**
   * After placement and base pose, every node keeps its name, attribute and
   * materials; recorded models' nodes carry their model's transform, posed
   * where the base pose says; nodes of no recorded model keep their parent.
   */
  lemma PosedFrame(reg: Reg, models: seq<Model>, base: nat, basepose: Option<MshFile>, toEuler: Vector4 -> Vector3)
    requires TableValid(reg.scene, reg.crcToNode) && Entries(models, base, reg)
    ensures var ps := reg.processing;
      var r := PosedScene(reg, models, basepose, toEuler);
      && (forall i :: 0 <= i < |reg.scene.nodes| ==> Kept(r.nodes[i], reg.scene.nodes[i]))
      && (forall j :: 0 <= j < |ps| ==>
            r.nodes[ps[j].1].transform ==
              Posed(ModelTransform(models[ps[j].0], toEuler), basepose, reg.crcToNode, ps[j].1, toEuler))
      && (forall i :: 0 <= i < |reg.scene.nodes| && (forall j :: 0 <= j < |ps| ==> ps[j].1 != i) ==>
            r.nodes[i].parent == reg.scene.nodes[i].parent)
  {
    var ps := reg.processing;
    var placed := PlaceFile(reg, models, toEuler).0;
    PlaceAllFacts(reg.scene, models, ps, |ps|, toEuler, placed);
    BaseposeNodes(placed, reg.crcToNode, basepose, toEuler);
  }

  /** After placement and base pose, every recorded model's node hangs under the root or a node named as its parent. */
  lemma PosedParents(reg: Reg, models: seq<Model>, base: nat, basepose: Option<MshFile>, toEuler: Vector4 -> Vector3)
    requires TableValid(reg.scene, reg.crcToNode) && Entries(models, base, reg)
    ensures var ps := reg.processing;
      var r := PosedScene(reg, models, basepose, toEuler);
      forall j :: 0 <= j < |ps| ==> ParentOk(r, models[ps[j].0], ps[j].1)
  {
    var ps := reg.processing;
    var placed := PlaceFile(reg, models, toEuler).0;
    PlaceAllFacts(reg.scene, models, ps, |ps|, toEuler, placed);
    BaseposeNodes(placed, reg.crcToNode, basepose, toEuler);
    var r := PosedScene(reg, models, basepose, toEuler);
    forall j | 0 <= j < |ps|
      ensures ParentOk(r, models[ps[j].0], ps[j].1)
    {
      assert ParentOk(placed, models[ps[j].0], ps[j].1);
      var q := r.nodes[ps[j].1].parent;
      if q.Some? && q.value < |r.nodes| {
        assert r.nodes[q.value].name == placed.nodes[q.value].name;
      }
    }
  }

  /** The weight pass may start: mesh models' nodes still carry meshes without skins. */
  lemma SkinReady(reg: Reg, models: seq<Model>, base: nat, basepose: Option<MshFile>, toEuler: Vector4 -> Vector3)
    requires TableValid(reg.scene, reg.crcToNode) && Entries(models, base, reg)
    ensures Ready(SkinStart(PosedScene(reg, models, basepose, toEuler)), models, reg.processing, reg.crcToNode)
    ensures var r := PosedScene(reg, models, basepose, toEuler);
      forall j :: 0 <= j < |reg.processing| && IsMesh(models[reg.processing[j].0]) ==>
        r.nodes[reg.processing[j].1].attribute.mesh.skins == []
  {
    var ps := reg.processing;
    var placed := PlaceFile(reg, models, toEuler).0;
    PlaceAllFacts(reg.scene, models, ps, |ps|, toEuler, placed);
    BaseposeNodes(placed, reg.crcToNode, basepose, toEuler);
    var r := PosedScene(reg, models, basepose, toEuler);
    forall j | 0 <= j < |ps| && IsMesh(models[ps[j].0])
      ensures r.nodes[ps[j].1].attribute == reg.scene.nodes[ps[j].1].attribute
    {
      assert Kept(placed.nodes[ps[j].1], reg.scene.nodes[ps[j].1]);
    }
  }

  /** `fin` differs from `p` at most in the attributes of the nodes `ps` names. */
  predicate AttributesOnly(p: Scene, fin: Scene, ps: seq<(nat, NodeId)>) {
    && |fin.nodes| == |p.nodes|
    && (forall i :: 0 <= i < |p.nodes| ==> fin.nodes[i] == p.nodes[i].(attribute := fin.nodes[i].attribute))
    && (forall i :: 0 <= i < |p.nodes| && (forall j :: 0 <= j < |ps| ==> ps[j].1 != i) ==> fin.nodes[i] == p.nodes[i])
  }

  /** The weight pass changes only the attributes of recorded models' nodes. */
  lemma SkinnedNodes(sp: SkinPass, r: SkinPass, models: seq<Model>, ps: seq<(nat, NodeId)>)
    requires Shaped(sp.scene, models, ps) && |r.scene.nodes| == |sp.scene.nodes|
    requires Skinned(sp, r, models, ps, |ps|)
    ensures AttributesOnly(sp.scene, r.scene, ps)
  {
    assert Untouched(sp, r, models, ps, |ps|) && AllGained(sp, r, models, ps, |ps|);
    forall i | 0 <= i < |sp.scene.nodes|
      ensures r.scene.nodes[i] == sp.scene.nodes[i].(attribute := r.scene.nodes[i].attribute)
    {
      if SkinnedBy(models, ps, |ps|, i) {
        var j :| 0 <= j < |ps| && ps[j].1 == i && Purposes.Intersects(models[ps[j].0].purpose, Purposes.MeshMask);
        assert GainedSkin(sp, r, models, ps, j);
      }
    }
  }

  /**
   * The models pass's result next to the posed scene: only attributes of
   * recorded models' nodes differ, and nothing does when weights are filtered.
   */
  lemma FinalNodes(s: Scene, crcToNode: map<Checksum, NodeId>, file: MshFile, basepose: Option<MshFile>,
                   settings: Settings, co: Collaborators, r: Built)
    requires TableValid(s, crcToNode) && r == ModelsPass(s, crcToNode, file, basepose, settings, co)
    ensures var reg := RegisterFile(s, crcToNode, file, settings, co.crc);
      var p := PosedScene(reg, file.models, basepose, co.toEuler);
      && r.processing == reg.processing && r.crcToNode == reg.crcToNode
      && AttributesOnly(p, r.scene, r.processing)
      && (Purposes.Weights in settings.chunkFilter ==> r.scene == p)
  {
    var reg := RegisterFile(s, crcToNode, file, settings, co.crc);
    if Purposes.Weights !in settings.chunkFilter {
      var p := PosedScene(reg, file.models, basepose, co.toEuler);
      SkinReady(reg, file.models, |s.nodes|, basepose, co.toEuler);
      var sp := SkinAll(SkinStart(p), file.models, reg.processing, |reg.processing|, reg.crcToNode, co.crc);
      assert r.scene == sp.scene;
      SkinAllFacts(SkinStart(p), file.models, reg.processing, |reg.processing|, reg.crcToNode, co.crc, sp);
      SkinnedNodes(SkinStart(p), sp, file.models, reg.processing);
    }
  }

  /** The models pass leaves the nodes it found with their names, attributes, materials and parents. */
  lemma ModelsPassKeeps(s: Scene, crcToNode: map<Checksum, NodeId>, file: MshFile, basepose: Option<MshFile>,
                        settings: Settings, co: Collaborators, r: Built)
    requires TableValid(s, crcToNode) && r == ModelsPass(s, crcToNode, file, basepose, settings, co)
    ensures forall i :: 0 <= i < |s.nodes| ==> Kept(r.scene.nodes[i], s.nodes[i]) && r.scene.nodes[i].parent == s.nodes[i].parent
  {
    var reg := RegisterFile(s, crcToNode, file, settings, co.crc);
    var p := PosedScene(reg, file.models, basepose, co.toEuler);
    FinalNodes(s, crcToNode, file, basepose, settings, co, r);
    PosedFrame(reg, file.models, |s.nodes|, basepose, co.toEuler);
    KeepsOf(s, reg, p, r.scene);
  }

  lemma KeepsOf(s: Scene, reg: Reg, p: Scene, fin: Scene)
    requires 0 < |s.nodes| <= |reg.scene.nodes| && |p.nodes| == |reg.scene.nodes|
    requires forall i :: 0 < i < |s.nodes| ==> reg.scene.nodes[i] == s.nodes[i]
    requires reg.scene.nodes[Root] == s.nodes[Root].(children := reg.scene.nodes[Root].children)
    requires forall j :: 0 <= j < |reg.processing| ==> |s.nodes| <= reg.processing[j].1
    requires var ps := reg.processing;
      && (forall i :: 0 <= i < |reg.scene.nodes| ==> Kept(p.nodes[i], reg.scene.nodes[i]))
      && (forall i :: 0 <= i < |reg.scene.nodes| && (forall j :: 0 <= j < |ps| ==> ps[j].1 != i) ==>
            p.nodes[i].parent == reg.scene.nodes[i].parent)
    requires AttributesOnly(p, fin, reg.processing)
    ensures forall i :: 0 <= i < |s.nodes| ==> Kept(fin.nodes[i], s.nodes[i]) && fin.nodes[i].parent == s.nodes[i].parent
  {
    forall i | 0 <= i < |s.nodes|
      ensures Kept(fin.nodes[i], s.nodes[i]) && fin.nodes[i].parent == s.nodes[i].parent
    {
      assert forall j :: 0 <= j < |reg.processing| ==> reg.processing[j].1 != i;
      assert fin.nodes[i] == p.nodes[i];
      assert Kept(p.nodes[i], reg.scene.nodes[i]);
    }
  }

  /**
   * Every model the models pass records ends on a node named after it, whose
   * checksum is in the CRC table, that hangs under the root or under a node
   * named as the model's parent, and whose transform is the model's own or,
   * where the base pose has an entry for it, the base pose's translation and
   * rotation with the model's scale.
   */
  lemma ModelsPassEntries(s: Scene, crcToNode: map<Checksum, NodeId>, file: MshFile, basepose: Option<MshFile>,
                          settings: Settings, co: Collaborators, r: Built)
    requires TableValid(s, crcToNode) && r == ModelsPass(s, crcToNode, file, basepose, settings, co)
    ensures forall j :: 0 <= j < |r.processing| ==>
      var model := file.models[r.processing[j].0];
      var n := r.processing[j].1;
      && r.scene.nodes[n].name == model.name && co.crc(model.name) in r.crcToNode
      && ParentOk(r.scene, model, n)
      && r.scene.nodes[n].transform == Posed(ModelTransform(model, co.toEuler), basepose, r.crcToNode, n, co.toEuler)
  {
    var reg := RegisterFile(s, crcToNode, file, settings, co.crc);
    var p := PosedScene(reg, file.models, basepose, co.toEuler);
    FinalNodes(s, crcToNode, file, basepose, settings, co, r);
    PosedFrame(reg, file.models, |s.nodes|, basepose, co.toEuler);
    PosedParents(reg, file.models, |s.nodes|, basepose, co.toEuler);
    EntriesOf(file.models, co.crc, |s.nodes|, reg, p, r.scene, basepose, co.toEuler);
  }

  lemma EntriesOf(models: seq<Model>, crc: string -> Checksum, base: nat, reg: Reg, p: Scene, fin: Scene,
                  basepose: Option<MshFile>, toEuler: Vector4 -> Vector3)
    requires RegValid(models, crc, base, reg) && Entries(models, base, reg)
    requires |p.nodes| == |reg.scene.nodes| && |fin.nodes| == |p.nodes|
    requires var ps := reg.processing;
      && (forall i :: 0 <= i < |reg.scene.nodes| ==> Kept(p.nodes[i], reg.scene.nodes[i]))
      && (forall j :: 0 <= j < |ps| ==>
            p.nodes[ps[j].1].transform ==
              Posed(ModelTransform(models[ps[j].0], toEuler), basepose, reg.crcToNode, ps[j].1, toEuler))
    requires forall j :: 0 <= j < |reg.processing| ==> ParentOk(p, models[reg.processing[j].0], reg.processing[j].1)
    requires forall i :: 0 <= i < |p.nodes| ==> fin.nodes[i] == p.nodes[i].(attribute := fin.nodes[i].attribute)
    ensures forall j :: 0 <= j < |reg.processing| ==>
      var model := models[reg.processing[j].0];
      var n := reg.processing[j].1;
      && fin.nodes[n].name == model.name && crc(model.name) in reg.crcToNode
      && ParentOk(fin, model, n)
      && fin.nodes[n].transform == Posed(ModelTransform(model, toEuler), basepose, reg.crcToNode, n, toEuler)
  {
    var ps := reg.processing;
    forall j | 0 <= j < |ps|
      ensures var model := models[ps[j].0];
        && fin.nodes[ps[j].1].name == model.name && crc(model.name) in reg.crcToNode
        && ParentOk(fin, model, ps[j].1)
    {
      assert Recorded(models, crc, reg, ps[j]);
      assert Kept(p.nodes[ps[j].1], reg.scene.nodes[ps[j].1]);
      assert ParentOk(p, models[ps[j].0], ps[j].1);
      var q := fin.nodes[ps[j].1].parent;
      if q.Some? && q.value < |fin.nodes| {
        assert fin.nodes[q.value].name == p.nodes[q.value].name;
      }
    }
  }

  /** The skins of the mesh on node `n`, none when the node carries no mesh. */
  function SkinsOf(s: Scene, n: NodeId): seq<Skin> {
    if n < |s.nodes| && s.nodes[n].attribute.MeshAttr? then s.nodes[n].attribute.mesh.skins else []
  }

  /**
   * The recorded mesh models' nodes carry meshes. Without the weight pass
   * they have no skin. With it, each has exactly one, named after the model
   * with "_Skin" appended, whose clusters exist in the scene; and a later
   * mesh's skin holds every cluster of an earlier one's, since the file's
   * bone-to-cluster table is shared.
   */
  predicate SkinsRecorded(models: seq<Model>, ps: seq<(nat, NodeId)>, fin: Scene, weighted: bool)
    requires Fits(|fin.nodes|, models, ps)
  {
    && (forall j :: 0 <= j < |ps| && IsMesh(models[ps[j].0]) ==> fin.nodes[ps[j].1].attribute.MeshAttr?)
    && (!weighted ==> forall j :: 0 <= j < |ps| && IsMesh(models[ps[j].0]) ==> SkinsOf(fin, ps[j].1) == [])
    && (weighted ==>
          forall j :: 0 <= j < |ps| && IsMesh(models[ps[j].0]) ==>
            var skins := SkinsOf(fin, ps[j].1);
            && |skins| == 1 && skins[0].name == models[ps[j].0].name + "_Skin"
            && forall c :: c in skins[0].clusters ==> c < |fin.clusters|)
    && (weighted ==>
          forall j, j' :: 0 <= j < j' < |ps| && IsMesh(models[ps[j].0]) && IsMesh(models[ps[j'].0]) ==>
            |SkinsOf(fin, ps[j].1)| > 0 && |SkinsOf(fin, ps[j'].1)| > 0 &&
            forall c :: c in SkinsOf(fin, ps[j].1)[0].clusters ==> c in SkinsOf(fin, ps[j'].1)[0].clusters)
  }

  /** The skins the models pass leaves on the recorded mesh models, with or without the weight pass. */
  lemma ModelsPassSkins(s: Scene, crcToNode: map<Checksum, NodeId>, file: MshFile, basepose: Option<MshFile>,
                        settings: Settings, co: Collaborators, r: Built)
    requires TableValid(s, crcToNode) && r == ModelsPass(s, crcToNode, file, basepose, settings, co)
    ensures SkinsRecorded(file.models, r.processing, r.scene, Purposes.Weights !in settings.chunkFilter)
  {
    var reg := RegisterFile(s, crcToNode, file, settings, co.crc);
    var p := PosedScene(reg, file.models, basepose, co.toEuler);
    var ps := reg.processing;
    SkinReady(reg, file.models, |s.nodes|, basepose, co.toEuler);
    if Purposes.Weights in settings.chunkFilter {
      FinalNodes(s, crcToNode, file, basepose, settings, co, r);
      UnskinnedOf(file.models, ps, p);
    } else {
      var sp := SkinAll(SkinStart(p), file.models, ps, |ps|, reg.crcToNode, co.crc);
      assert r.scene == sp.scene;
      SkinAllFacts(SkinStart(p), file.models, ps, |ps|, reg.crcToNode, co.crc, sp);
      GainedSkins(SkinStart(p), sp, file.models, ps);
    }
  }

  lemma UnskinnedOf(models: seq<Model>, ps: seq<(nat, NodeId)>, p: Scene)
    requires Fits(|p.nodes|, models, ps) && Shaped(p, models, ps)
    requires forall j :: 0 <= j < |ps| && IsMesh(models[ps[j].0]) ==> p.nodes[ps[j].1].attribute.mesh.skins == []
    ensures SkinsRecorded(models, ps, p, false)
  {
  }

  /** Read off `Skinned` for meshes that had no skin before the pass. */
  lemma GainedSkins(sp: SkinPass, r: SkinPass, models: seq<Model>, ps: seq<(nat, NodeId)>)
    requires Shaped(sp.scene, models, ps) && |r.scene.nodes| == |sp.scene.nodes| && Wf(AsSkinState(r))
    requires forall j :: 0 <= j < |ps| && IsMesh(models[ps[j].0]) ==> sp.scene.nodes[ps[j].1].attribute.mesh.skins == []
    requires Skinned(sp, r, models, ps, |ps|)
    ensures SkinsRecorded(models, ps, r.scene, true)
  {
    assert AllGained(sp, r, models, ps, |ps|) && InTable(r, models, ps, |ps|) && Nested(r, models, ps, |ps|);
    forall j | 0 <= j < |ps| && IsMesh(models[ps[j].0])
      ensures var skins := SkinsOf(r.scene, ps[j].1);
        && r.scene.nodes[ps[j].1].attribute.MeshAttr?
        && |skins| == 1 && skins[0] == LastSkin(r, ps[j].1) && skins[0].name == models[ps[j].0].name + "_Skin"
        && forall c :: c in skins[0].clusters ==> c < |r.scene.clusters|
    {
      assert GainedSkin(sp, r, models, ps, j);
    }
  }

  /** The registration state a models pass result stands for. */
  function AsReg(b: Built): Reg {
    Reg(b.scene, b.crcToNode, b.processing, b.log)
  }

  /**
   * The models pass converts no ignored model and no bone whose checksum
   * already had a node, and misses no model that is not ignored and converts
   * unless it is a bone whose checksum has a node.
   */
  lemma ModelsPassFilters(s: Scene, crcToNode: map<Checksum, NodeId>, file: MshFile, basepose: Option<MshFile>,
                          settings: Settings, co: Collaborators, r: Built)
    requires TableValid(s, crcToNode) && r == ModelsPass(s, crcToNode, file, basepose, settings, co)
    ensures FiltersRespected(file.models, co.crc, settings, crcToNode, r.processing)
    ensures Complete(file.models, |file.models|, Conversions(file.models, file.materials, settings), settings, co.crc, AsReg(r))
  {
    var st := Reg(s, crcToNode, [], []);
    var reg := RegisterFile(s, crcToNode, file, settings, co.crc);
    assert r.processing == reg.processing && r.crcToNode == reg.crcToNode;
    var cs := Conversions(file.models, file.materials, settings);
    RegisterFilters(st, file.models, |file.models|, cs, settings, co.crc, reg);
    RegisterComplete(st, file.models, |file.models|, cs, settings, co.crc, reg);
  }

  /**
   * The animation pass of one file against the CRC table `m` holds: without a
   * cycle nothing is added; otherwise one stack, named after the override or
   * the first cycle, spanning the first cycle's frames, with curves exactly
   * for the nodes some entry resolves to, holding the entries' keys.
   */
  function AnimationPass(m: Built, anims: Animations, overrideName: string, toEuler: Vector4 -> Vector3): (r: Built)
    ensures r.scene.nodes == m.scene.nodes && r.scene.clusters == m.scene.clusters
    ensures r.crcToNode == m.crcToNode && r.processing == m.processing
    ensures |anims.cycles| == 0 ==> r.scene.stacks == m.scene.stacks
    ensures |anims.cycles| > 0 ==>
      && |r.scene.stacks| == |m.scene.stacks| + 1 && r.scene.stacks[..|m.scene.stacks|] == m.scene.stacks
      && var stack := r.scene.stacks[|m.scene.stacks|];
         var cycle := anims.cycles[0];
         var bfs := anims.boneFrames;
         && stack.name == (if overrideName != "" then overrideName else cycle.name)
         && stack.firstFrame == cycle.firstFrame && stack.lastFrame == cycle.lastFrame
         && (forall id :: id in stack.curves <==> Animated(bfs, |bfs|, m.crcToNode, id.0))
         && CurvesHoldKeys(bfs, |bfs|, m.crcToNode, toEuler, stack.curves)
  {
    var (stack, log) := ConvertAnimations(anims, overrideName, m.crcToNode, toEuler);
    var scene := if stack.Some? then m.scene.(stacks := m.scene.stacks + [stack.value]) else m.scene;
    Built(scene, m.crcToNode, m.processing, m.log + log)
  }

  /**
   * Converting one file into the scene: the models pass unless models are
   * filtered, then the animation pass, against the CRC table of every file so
   * far, unless animations are filtered.
   */
  function ConvertFile(s: Scene, crcToNode: map<Checksum, NodeId>, file: MshFile, basepose: Option<MshFile>,
                       settings: Settings, co: Collaborators): (r: Built)
    requires TableValid(s, crcToNode)
    ensures TableValid(r.scene, r.crcToNode) && crcToNode.Keys <= r.crcToNode.Keys && |r.scene.nodes| >= |s.nodes|
    ensures Purposes.Models in settings.chunkFilter ==>
      r.scene.nodes == s.nodes && r.scene.clusters == s.clusters && r.crcToNode == crcToNode && r.processing == []
    ensures Purposes.Models !in settings.chunkFilter ==>
      var m := ModelsPass(s, crcToNode, file, basepose, settings, co);
      r.scene.nodes == m.scene.nodes && r.scene.clusters == m.scene.clusters &&
      r.crcToNode == m.crcToNode && r.processing == m.processing
    ensures Purposes.Animations in settings.chunkFilter ==> r.scene.stacks == s.stacks
    ensures Purposes.Animations !in settings.chunkFilter ==>
      var m := if Purposes.Models in settings.chunkFilter then Built(s, crcToNode, [], [])
               else ModelsPass(s, crcToNode, file, basepose, settings, co);
      r == AnimationPass(m, file.animations, settings.overrideAnimName, co.toEuler)
  {
    var m := if Purposes.Models in settings.chunkFilter then Built(s, crcToNode, [], [])
             else ModelsPass(s, crcToNode, file, basepose, settings, co);
    if Purposes.Animations in settings.chunkFilter then m
    else AnimationPass(m, file.animations, settings.overrideAnimName, co.toEuler)
  }
}
