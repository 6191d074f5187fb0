/**
 * The weight pass over a file's converted mesh models. One bone-to-cluster
 * table serves the whole file: each mesh's weights extend it, and the skin
 * added to each mesh holds every cluster the table names at that point, so a
 * later mesh's skin includes the clusters of every earlier one.
 */
module Skinning {

  import opened Wrappers
  import opened Msh
  import opened Purposes
  import opened Scenes
  import opened Diagnostics
  import opened Weights

  /** The weight pass's state: the scene, the file's bone-to-cluster table, the log. */
  datatype SkinPass = SkinPass(scene: Scene, boneToCluster: map<nat, ClusterId>, log: Log)

  function AsSkinState(sp: SkinPass): SkinState {
    SkinState(sp.scene.clusters, sp.boneToCluster, sp.log)
  }

  /** Appends `skin` to the deformers of the mesh on node `n`. */
  function AddSkin(s: Scene, n: NodeId, skin: Skin): (r: Scene)
    requires n < |s.nodes| && s.nodes[n].attribute.MeshAttr?
    ensures |r.nodes| == |s.nodes| && r.clusters == s.clusters && r.stacks == s.stacks
    ensures r.nodes[n].attribute.MeshAttr? && r.nodes[n].attribute.mesh.skins == s.nodes[n].attribute.mesh.skins + [skin]
    ensures r.nodes[n].attribute.mesh == s.nodes[n].attribute.mesh.(skins := r.nodes[n].attribute.mesh.skins)
    ensures r.nodes[n] == s.nodes[n].(attribute := r.nodes[n].attribute)
    ensures forall i :: 0 <= i < |s.nodes| && i != n ==> r.nodes[i] == s.nodes[i]
  {
    var mesh := s.nodes[n].attribute.mesh;
    SetAttribute(s, n, MeshAttr(mesh.(skins := mesh.skins + [skin])))
  }

  /** What each step of the pass needs: entries name nodes, mesh models' nodes carry meshes, the table is sound. */
  predicate Ready(sp: SkinPass, models: seq<Model>, ps: seq<(nat, NodeId)>, crcToNode: map<Checksum, NodeId>) {
    && TableFits(sp.scene, crcToNode)
    && Shaped(sp.scene, models, ps)
    && Wf(AsSkinState(sp))
    && (forall b :: b in sp.boneToCluster ==> b < |models|)
  }

  /** Entries name models and nodes, and mesh models' nodes carry meshes. */
  predicate Shaped(s: Scene, models: seq<Model>, ps: seq<(nat, NodeId)>) {
    && Fits(|s.nodes|, models, ps)
    && (forall j :: 0 <= j < |ps| && Intersects(models[ps[j].0].purpose, MeshMask) ==>
          s.nodes[ps[j].1].attribute.MeshAttr?)
  }

  /** Entries name models and nodes below `count`. */
  predicate Fits(count: nat, models: seq<Model>, ps: seq<(nat, NodeId)>) {
    forall j :: 0 <= j < |ps| ==> ps[j].0 < |models| && ps[j].1 < count
  }

  function Context(models: seq<Model>, i: nat, crcToNode: map<Checksum, NodeId>, crc: string -> Checksum): WeightContext
    requires i < |models|
  {
    WeightContext(models[i].envelope, models, crcToNode, crc)
  }

  /** The weight pass for one converted model; models without a mesh bit are passed over. */
  function SkinOne(sp: SkinPass, models: seq<Model>, ps: seq<(nat, NodeId)>, j: nat, crcToNode: map<Checksum, NodeId>,
                   crc: string -> Checksum): (r: SkinPass)
    requires j < |ps| && Ready(sp, models, ps, crcToNode)
    ensures Ready(r, models, ps, crcToNode)
    ensures |r.scene.nodes| == |sp.scene.nodes| && r.scene.stacks == sp.scene.stacks
    ensures Extends(AsSkinState(sp), AsSkinState(r))
  {
    var e := ps[j];
    var model := models[e.0];
    if !Intersects(model.purpose, MeshMask) then sp
    else
      var ctx := Context(models, e.0, crcToNode, crc);
      var st := SegmentsToSkin(AsSkinState(sp), model.segments, |model.segments|, ctx, sp.scene.nodes);
      var skin := MakeSkin(model.name, st.boneToCluster, |models|);
      var s1 := AddSkin(sp.scene.(clusters := st.clusters), e.1, skin);
      var r := SkinPass(s1, st.boneToCluster, st.log);
      assert AsSkinState(r) == st;
      r
  }

  /** The weight pass over the first `k` converted models. */
  function SkinAll(sp: SkinPass, models: seq<Model>, ps: seq<(nat, NodeId)>, k: nat, crcToNode: map<Checksum, NodeId>,
                   crc: string -> Checksum): (r: SkinPass)
    requires k <= |ps| && Ready(sp, models, ps, crcToNode)
    ensures Ready(r, models, ps, crcToNode)
    ensures |r.scene.nodes| == |sp.scene.nodes| && r.scene.stacks == sp.scene.stacks
  {
    if k == 0 then sp
    else SkinOne(SkinAll(sp, models, ps, k - 1, crcToNode, crc), models, ps, k - 1, crcToNode, crc)
  }

  /** One step of the pass changes at most the attribute of its model's node, and nothing for a model without mesh bits. */
  lemma SkinOneFrame(sp: SkinPass, models: seq<Model>, ps: seq<(nat, NodeId)>, j: nat, crcToNode: map<Checksum, NodeId>,
                     crc: string -> Checksum, r: SkinPass)
    requires j < |ps| && Ready(sp, models, ps, crcToNode) && r == SkinOne(sp, models, ps, j, crcToNode, crc)
    ensures forall i :: 0 <= i < |sp.scene.nodes| && i != ps[j].1 ==> r.scene.nodes[i] == sp.scene.nodes[i]
    ensures r.scene.nodes[ps[j].1] == sp.scene.nodes[ps[j].1].(attribute := r.scene.nodes[ps[j].1].attribute)
    ensures !Intersects(models[ps[j].0].purpose, MeshMask) ==> r == sp
  {
  }

  /**
   * For a mesh model, the weights accumulate into the file's clusters as the
   * weight loop promises, and the model's node gains one skin named after the
   * model holding exactly the clusters of the table.
   */
  lemma SkinOneMesh(sp: SkinPass, models: seq<Model>, ps: seq<(nat, NodeId)>, j: nat, crcToNode: map<Checksum, NodeId>,
                    crc: string -> Checksum, r: SkinPass)
    requires j < |ps| && Ready(sp, models, ps, crcToNode) && r == SkinOne(sp, models, ps, j, crcToNode, crc)
    requires Intersects(models[ps[j].0].purpose, MeshMask)
    ensures var model := models[ps[j].0];
      var m := sp.scene.nodes[ps[j].1].attribute.mesh;
      && Accumulates(AsSkinState(sp), AsSkinState(r), ModelItems(model.segments, |model.segments|),
                     Context(models, ps[j].0, crcToNode, crc), sp.scene.nodes)
      && r.scene.nodes[ps[j].1].attribute == MeshAttr(m.(skins := m.skins + [LastSkin(r, ps[j].1)]))
      && LastSkin(r, ps[j].1).name == model.name + "_Skin"
      && (forall c :: c in LastSkin(r, ps[j].1).clusters <==> c in r.boneToCluster.Values)
  {
    var model := models[ps[j].0];
    FoldAccumulates(AsSkinState(sp), ModelItems(model.segments, |model.segments|),
                    Context(models, ps[j].0, crcToNode, crc), sp.scene.nodes);
  }

  /** The last skin of the mesh on node `n`. */
  function LastSkin(sp: SkinPass, n: NodeId): Skin
    requires n < |sp.scene.nodes|
  {
    match sp.scene.nodes[n].attribute
    case MeshAttr(m) => if |m.skins| > 0 then m.skins[|m.skins| - 1] else Skin("", [])
    case _ => Skin("", [])
  }

  /** Node `n` is the node of one of the first `k` mesh models of `ps`. */
  predicate SkinnedBy(models: seq<Model>, ps: seq<(nat, NodeId)>, k: nat, n: NodeId)
    requires k <= |ps| && forall j :: 0 <= j < |ps| ==> ps[j].0 < |models|
  {
    exists j :: 0 <= j < k && ps[j].1 == n && Intersects(models[ps[j].0].purpose, MeshMask)
  }

  /**
   * After `k` steps, the node of each mesh model among them has gained one
   * skin, named after the model, whose clusters the file's table still names;
   * a later mesh's skin holds every cluster of an earlier one's. Every other
   * node is unchanged, and skinned nodes differ only in their mesh's skin list.
   */
  predicate Skinned(sp: SkinPass, r: SkinPass, models: seq<Model>, ps: seq<(nat, NodeId)>, k: nat)
    requires k <= |ps| && Shaped(sp.scene, models, ps) && |r.scene.nodes| == |sp.scene.nodes|
  {
    Untouched(sp, r, models, ps, k) && AllGained(sp, r, models, ps, k) && InTable(r, models, ps, k) && Nested(r, models, ps, k)
  }

  /** Nodes of no mesh model among the first `k` are unchanged. */
  predicate Untouched(sp: SkinPass, r: SkinPass, models: seq<Model>, ps: seq<(nat, NodeId)>, k: nat)
    requires k <= |ps| && Shaped(sp.scene, models, ps) && |r.scene.nodes| == |sp.scene.nodes|
  {
    forall i :: 0 <= i < |sp.scene.nodes| && !SkinnedBy(models, ps, k, i) ==> r.scene.nodes[i] == sp.scene.nodes[i]
  }

  /** The node of each mesh model among the first `k` gained its skin. */
  predicate AllGained(sp: SkinPass, r: SkinPass, models: seq<Model>, ps: seq<(nat, NodeId)>, k: nat)
    requires k <= |ps| && Shaped(sp.scene, models, ps) && |r.scene.nodes| == |sp.scene.nodes|
  {
    forall j :: 0 <= j < k && Intersects(models[ps[j].0].purpose, MeshMask) ==> GainedSkin(sp, r, models, ps, j)
  }

  /** Every cluster of those skins is one the table names. */
  predicate InTable(r: SkinPass, models: seq<Model>, ps: seq<(nat, NodeId)>, k: nat)
    requires k <= |ps| && Fits(|r.scene.nodes|, models, ps)
  {
    forall j :: 0 <= j < k && Intersects(models[ps[j].0].purpose, MeshMask) ==>
      forall c :: c in LastSkin(r, ps[j].1).clusters ==> c in r.boneToCluster.Values
  }

  /** A later mesh's skin holds every cluster of an earlier one's. */
  predicate Nested(r: SkinPass, models: seq<Model>, ps: seq<(nat, NodeId)>, k: nat)
    requires k <= |ps| && Fits(|r.scene.nodes|, models, ps)
  {
    forall j, j' :: 0 <= j < j' < k && Intersects(models[ps[j].0].purpose, MeshMask) &&
                    Intersects(models[ps[j'].0].purpose, MeshMask) ==>
      forall c :: c in LastSkin(r, ps[j].1).clusters ==> c in LastSkin(r, ps[j'].1).clusters
  }

  /** The node of converted model `j` gained exactly one skin, named after the model. */
  predicate GainedSkin(sp: SkinPass, r: SkinPass, models: seq<Model>, ps: seq<(nat, NodeId)>, j: nat)
    requires j < |ps| && ps[j].0 < |models| && ps[j].1 < |sp.scene.nodes| && ps[j].1 < |r.scene.nodes|
  {
    && sp.scene.nodes[ps[j].1].attribute.MeshAttr?
    && var m := sp.scene.nodes[ps[j].1].attribute.mesh;
       var skin := LastSkin(r, ps[j].1);
       && r.scene.nodes[ps[j].1] == sp.scene.nodes[ps[j].1].(attribute := MeshAttr(m.(skins := m.skins + [skin])))
       && skin.name == models[ps[j].0].name + "_Skin"
  }

  /** What one step of the pass did to `mid`, giving `r`. */
  ghost predicate StepOk(mid: SkinPass, r: SkinPass, models: seq<Model>, ps: seq<(nat, NodeId)>, j: nat)
    requires j < |ps| && Shaped(mid.scene, models, ps) && |r.scene.nodes| == |mid.scene.nodes|
  {
    && (forall b :: b in mid.boneToCluster ==> b in r.boneToCluster && r.boneToCluster[b] == mid.boneToCluster[b])
    && (forall i :: 0 <= i < |mid.scene.nodes| && i != ps[j].1 ==> r.scene.nodes[i] == mid.scene.nodes[i])
    && (!Intersects(models[ps[j].0].purpose, MeshMask) ==> r == mid)
    && (Intersects(models[ps[j].0].purpose, MeshMask) ==>
          && GainedSkin(mid, r, models, ps, j)
          && forall c :: c in LastSkin(r, ps[j].1).clusters <==> c in r.boneToCluster.Values)
  }

  lemma SkinOneStep(mid: SkinPass, r: SkinPass, models: seq<Model>, ps: seq<(nat, NodeId)>, j: nat,
                    crcToNode: map<Checksum, NodeId>, crc: string -> Checksum)
    requires j < |ps| && Ready(mid, models, ps, crcToNode) && r == SkinOne(mid, models, ps, j, crcToNode, crc)
    ensures |r.scene.nodes| == |mid.scene.nodes| && StepOk(mid, r, models, ps, j)
  {
    SkinOneFrame(mid, models, ps, j, crcToNode, crc, r);
    if Intersects(models[ps[j].0].purpose, MeshMask) {
      SkinOneMesh(mid, models, ps, j, crcToNode, crc, r);
    }
  }

  /**
   * After the first `k` steps, the node of each mesh model among them has
   * gained one skin, named after the model, whose clusters the table names,
   * and a later mesh's skin holds every cluster of an earlier one's; all other
   * nodes are unchanged.
   */
  lemma {:induction false} SkinAllFacts(sp: SkinPass, models: seq<Model>, ps: seq<(nat, NodeId)>, k: nat,
                                        crcToNode: map<Checksum, NodeId>, crc: string -> Checksum, r: SkinPass)
    requires k <= |ps| && Ready(sp, models, ps, crcToNode) && DistinctNodes(ps)
    requires r == SkinAll(sp, models, ps, k, crcToNode, crc)
    ensures Skinned(sp, r, models, ps, k)
  {
    if k > 0 {
      var mid := SkinAll(sp, models, ps, k - 1, crcToNode, crc);
      assert r == SkinOne(mid, models, ps, k - 1, crcToNode, crc);
      SkinAllFacts(sp, models, ps, k - 1, crcToNode, crc, mid);
      SkinOneFacts(sp, mid, r, models, ps, k, crcToNode, crc);
    }
  }

  lemma SkinOneFacts(sp: SkinPass, mid: SkinPass, r: SkinPass, models: seq<Model>, ps: seq<(nat, NodeId)>, k: nat,
                     crcToNode: map<Checksum, NodeId>, crc: string -> Checksum)
    requires 0 < k <= |ps| && Ready(sp, models, ps, crcToNode) && Ready(mid, models, ps, crcToNode) && DistinctNodes(ps)
    requires |mid.scene.nodes| == |sp.scene.nodes| && Skinned(sp, mid, models, ps, k - 1)
    requires r == SkinOne(mid, models, ps, k - 1, crcToNode, crc)
    ensures Skinned(sp, r, models, ps, k)
  {
    hide SkinOne;
    SkinOneStep(mid, r, models, ps, k - 1, crcToNode, crc);
    SkinnedStep(sp, mid, r, models, ps, k);
  }

  lemma SkinnedStep(sp: SkinPass, mid: SkinPass, r: SkinPass, models: seq<Model>, ps: seq<(nat, NodeId)>, k: nat)
    requires 0 < k <= |ps| && Shaped(sp.scene, models, ps) && Shaped(mid.scene, models, ps) && DistinctNodes(ps)
    requires |mid.scene.nodes| == |sp.scene.nodes| && |r.scene.nodes| == |sp.scene.nodes|
    requires Skinned(sp, mid, models, ps, k - 1)
    requires StepOk(mid, r, models, ps, k - 1)
    ensures Skinned(sp, r, models, ps, k)
  {
    UntouchedStep(sp, mid, r, models, ps, k);
    AllGainedStep(sp, mid, r, models, ps, k);
    InTableStep(sp, mid, r, models, ps, k);
    NestedStep(sp, mid, r, models, ps, k);
  }

  /** Earlier entries' nodes are left alone by step `k - 1`. */
  lemma EarlierKept(sp: SkinPass, mid: SkinPass, r: SkinPass, models: seq<Model>, ps: seq<(nat, NodeId)>, k: nat)
    requires 0 < k <= |ps| && Shaped(sp.scene, models, ps) && Shaped(mid.scene, models, ps) && DistinctNodes(ps)
    requires |mid.scene.nodes| == |sp.scene.nodes| && |r.scene.nodes| == |sp.scene.nodes|
    requires Skinned(sp, mid, models, ps, k - 1)
    requires StepOk(mid, r, models, ps, k - 1)
    ensures forall j :: 0 <= j < k - 1 ==> r.scene.nodes[ps[j].1] == mid.scene.nodes[ps[j].1]
  {
    forall j | 0 <= j < k - 1
      ensures r.scene.nodes[ps[j].1] == mid.scene.nodes[ps[j].1]
    {
      assert ps[j].1 != ps[k - 1].1;
    }
  }

  lemma UntouchedStep(sp: SkinPass, mid: SkinPass, r: SkinPass, models: seq<Model>, ps: seq<(nat, NodeId)>, k: nat)
    requires 0 < k <= |ps| && Shaped(sp.scene, models, ps) && Shaped(mid.scene, models, ps) && DistinctNodes(ps)
    requires |mid.scene.nodes| == |sp.scene.nodes| && |r.scene.nodes| == |sp.scene.nodes|
    requires Skinned(sp, mid, models, ps, k - 1)
    requires StepOk(mid, r, models, ps, k - 1)
    ensures Untouched(sp, r, models, ps, k)
  {
    forall i | 0 <= i < |sp.scene.nodes| && !SkinnedBy(models, ps, k, i)
      ensures r.scene.nodes[i] == sp.scene.nodes[i]
    {
      assert !SkinnedBy(models, ps, k - 1, i);
    }
  }

  lemma AllGainedStep(sp: SkinPass, mid: SkinPass, r: SkinPass, models: seq<Model>, ps: seq<(nat, NodeId)>, k: nat)
    requires 0 < k <= |ps| && Shaped(sp.scene, models, ps) && Shaped(mid.scene, models, ps) && DistinctNodes(ps)
    requires |mid.scene.nodes| == |sp.scene.nodes| && |r.scene.nodes| == |sp.scene.nodes|
    requires Skinned(sp, mid, models, ps, k - 1)
    requires StepOk(mid, r, models, ps, k - 1)
    ensures AllGained(sp, r, models, ps, k)
  {
    var n := ps[k - 1].1;
    assert !SkinnedBy(models, ps, k - 1, n);
    EarlierKept(sp, mid, r, models, ps, k);
    forall j | 0 <= j < k && Intersects(models[ps[j].0].purpose, MeshMask)
      ensures GainedSkin(sp, r, models, ps, j)
    {
      if j == k - 1 {
        assert mid.scene.nodes[n] == sp.scene.nodes[n];
      } else {
        assert GainedSkin(sp, mid, models, ps, j);
      }
    }
  }

  lemma InTableStep(sp: SkinPass, mid: SkinPass, r: SkinPass, models: seq<Model>, ps: seq<(nat, NodeId)>, k: nat)
    requires 0 < k <= |ps| && Shaped(sp.scene, models, ps) && Shaped(mid.scene, models, ps) && DistinctNodes(ps)
    requires |mid.scene.nodes| == |sp.scene.nodes| && |r.scene.nodes| == |sp.scene.nodes|
    requires Skinned(sp, mid, models, ps, k - 1)
    requires StepOk(mid, r, models, ps, k - 1)
    ensures InTable(r, models, ps, k)
  {
    EarlierKept(sp, mid, r, models, ps, k);
    forall j | 0 <= j < k - 1 && Intersects(models[ps[j].0].purpose, MeshMask)
      ensures forall c :: c in LastSkin(r, ps[j].1).clusters ==> c in r.boneToCluster.Values
    {
      forall c | c in LastSkin(mid, ps[j].1).clusters ensures c in r.boneToCluster.Values {
        var b :| b in mid.boneToCluster && mid.boneToCluster[b] == c;
        assert r.boneToCluster[b] == c;
      }
    }
  }

  lemma NestedStep(sp: SkinPass, mid: SkinPass, r: SkinPass, models: seq<Model>, ps: seq<(nat, NodeId)>, k: nat)
    requires 0 < k <= |ps| && Shaped(sp.scene, models, ps) && Shaped(mid.scene, models, ps) && DistinctNodes(ps)
    requires |mid.scene.nodes| == |sp.scene.nodes| && |r.scene.nodes| == |sp.scene.nodes|
    requires Skinned(sp, mid, models, ps, k - 1)
    requires StepOk(mid, r, models, ps, k - 1)
    ensures Nested(r, models, ps, k)
  {
    var n := ps[k - 1].1;
    EarlierKept(sp, mid, r, models, ps, k);
    forall j, j' | 0 <= j < j' < k && Intersects(models[ps[j].0].purpose, MeshMask) &&
                   Intersects(models[ps[j'].0].purpose, MeshMask)
      ensures forall c :: c in LastSkin(r, ps[j].1).clusters ==> c in LastSkin(r, ps[j'].1).clusters
    {
      if j' == k - 1 {
        forall c | c in LastSkin(mid, ps[j].1).clusters ensures c in LastSkin(r, n).clusters {
          var b :| b in mid.boneToCluster && mid.boneToCluster[b] == c;
          assert r.boneToCluster[b] == c;
        }
      }
    }
  }
}
