/**
 * The older single-shot converter: one asset becomes one scene, which is
 * exported and dropped again. It filters models by a fixed ignore mask,
 * converts meshes and skeletons with independent checks, keeps the models
 * that converted in a model-to-node table, and then reparents by name exactly
 * as the session converter's placement pass does.
 */
module Legacy {

  import opened Wrappers
  import opened Msh
  import opened Purposes
  import opened Scenes
  import opened Diagnostics
  import Geometry
  import Registration
  import Placement
  import Paths

  /** The fixed ignore mask: shadow volumes, low-resolution, collision and terrain-cut meshes. */
  const IgnoreFilter: Purpose := {MeshShadowVolume, MeshLowrez, MeshCollision, MeshVehicleCollision, MeshTerrainCut}

  predicate Ignored(model: Model) {
    Intersects(model.purpose, IgnoreFilter)
  }

  // ---------------------------------------------------------------- file names

  /** A file name without its last extension: everything before the last '.'. */
  function GetPlainName(fileName: string): (r: string)
    ensures '.' !in fileName ==> r == fileName
    ensures '.' in fileName ==>
      |r| < |fileName| && r == fileName[..|r|] && fileName[|r|] == '.' && Paths.NoDotAfter(fileName, |r|)
  {
    match Paths.LastDot(fileName)
    case None => fileName
    case Some(i) => fileName[..i]
  }

  /** Appending an extension without dots and stripping it again gives the name back. */
  lemma PlainNameStripsExtension(name: string, ext: string)
    requires '.' !in ext
    ensures GetPlainName(name + "." + ext) == name
  {
    var f := name + "." + ext;
    var r := GetPlainName(f);
    assert f[|name|] == '.';
    assert forall j :: |name| < j < |f| ==> f[j] == ext[j - |name| - 1];
    assert |r| == |name|;
    assert f[..|name|] == name;
  }

  // ---------------------------------------------------------------- one model

  /** The outcome of converting one model: success, the attribute left on its node, its slots, its log. */
  datatype Converted = Converted(ok: bool, attribute: Attribute, slots: seq<MaterialSlot>, log: Log)

  /**
   * The kind a converted bone's message names: "Root" for the two root bits,
   * "Limb" for the limb bit and "End" for the end bit, although an end bone
   * gets the same limb type as a limb bone.
   */
  function BoneLabel(p: Purpose): (r: string)
    requires Registration.SkeletonKind(p).Some?
    ensures r == "Root" <==> Registration.SkeletonKind(p) == Some(RootBone)
    ensures r == "Limb" <==> p == {SkeletonBoneLimb}
    ensures r == "End" <==> p == {SkeletonBoneEnd}
  {
    if p == {SkeletonRoot} || p == {SkeletonBoneRoot} then "Root"
    else if p == {SkeletonBoneLimb} then "Limb"
    else
      Registration.SingleSkeletonBit(p);
      "End"
  }

  /**
   * Converts model `i`. A mesh purpose builds a mesh (out-of-range material
   * indices give -1 silently); independently, a skeleton purpose makes a bone
   * that replaces the attribute. Either failing fails the model, but an
   * attribute set before the failure stays on the node.
   */
  function ConvertModel(models: seq<Model>, i: nat, materials: seq<Material>): (r: Converted)
    requires i < |models|
    ensures var p := models[i].purpose;
      r.ok <==>
        && (Intersects(p, MeshMask) ==> forall j :: 0 <= j < |models[i].segments| ==> Geometry.Consistent(models[i].segments[j]))
        && (Intersects(p, SkeletonMask) ==> Registration.SkeletonKind(p).Some?)
    ensures var p := models[i].purpose;
      && (r.ok && Intersects(p, SkeletonMask) ==> r.attribute == SkeletonAttr(Registration.SkeletonKind(p).value))
      && (Intersects(p, MeshMask) && !Intersects(p, SkeletonMask) ==>
            (r.ok <==> r.attribute.MeshAttr?) && (r.ok ==> r.attribute.mesh.name == models[i].name))
      && (!Intersects(p, MeshMask) && !Intersects(p, SkeletonMask) ==> r.ok && r.attribute == NoAttribute)
    ensures var p := models[i].purpose;
      r.ok && Intersects(p, SkeletonMask) ==>
        |r.log| > 0 && r.log[|r.log| - 1] == Diag(Info, BoneConverted(models[i].name, BoneLabel(p)))
  {
    var model := models[i];
    var p := model.purpose;
    var m := if Intersects(p, MeshMask) then Geometry.ModelToMesh(model, materials, Geometry.MaterialPolicy(false, false), [])
             else Geometry.MeshResult(None, [], []);
    if Intersects(p, MeshMask) && m.mesh.None? then Converted(false, NoAttribute, m.slots, m.log + [Warn(MeshConversionFailed(i))])
    else
      var attribute := if Intersects(p, MeshMask) then MeshAttr(m.mesh.value) else NoAttribute;
      if !Intersects(p, SkeletonMask) then Converted(true, attribute, m.slots, m.log)
      else
        match Registration.SkeletonKind(p)
        case Some(kind) => Converted(true, SkeletonAttr(kind), m.slots, m.log + [Diag(Info, BoneConverted(model.name, BoneLabel(p)))])
        case None => Converted(false, attribute, m.slots, m.log + [Warn(NoBoneType(model.name)), Warn(SkeletonConversionFailed(i))])
  }

  // ---------------------------------------------------------------- registration

  /** Model indices and node ids of the table both strictly increase. */
  predicate Ordered(xs: seq<(nat, NodeId)>) {
    forall j, j' :: 0 <= j < j' < |xs| ==> xs[j].0 < xs[j'].0 && xs[j].1 < xs[j'].1
  }

  /** The position of model `i` in the model-to-node table, or -1. */
  function Find(xs: seq<(nat, NodeId)>, i: nat): (r: int)
    ensures -1 <= r < |xs|
    ensures r >= 0 ==> xs[r].0 == i
    ensures r == -1 <==> forall j :: 0 <= j < |xs| ==> xs[j].0 != i
  {
    if |xs| == 0 then -1
    else if xs[|xs| - 1].0 == i then |xs| - 1
    else Find(xs[..|xs| - 1], i)
  }

  /** The registration pass's state: the scene, the model-to-node table, the log. */
  datatype Reg = Reg(scene: Scene, mapped: seq<(nat, NodeId)>, log: Log)

  /** The number of models among the first `k` that the ignore mask lets through. */
  function Created(models: seq<Model>, k: nat): (r: nat)
    requires k <= |models|
    ensures r <= k
  {
    if k == 0 then 0 else Created(models, k - 1) + (if Ignored(models[k - 1]) then 0 else 1)
  }

  /** The registration pass over the first `k` models. */
  function Register(s: Scene, models: seq<Model>, k: nat, materials: seq<Material>): (r: Reg)
    requires k <= |models| && |s.nodes| > 0
    ensures |r.scene.nodes| == |s.nodes| + Created(models, k)
    ensures r.scene.clusters == s.clusters && r.scene.stacks == s.stacks
    ensures Ordered(r.mapped)
    ensures forall j :: 0 <= j < |r.mapped| ==> r.mapped[j].0 < k && |s.nodes| <= r.mapped[j].1 < |r.scene.nodes|
  {
    if k == 0 then Reg(s, [], [])
    else
      var prev := Register(s, models, k - 1, materials);
      OrderedSnoc(prev.mapped, (k - 1, |prev.scene.nodes|));
      RegisterNext(models, k, materials, prev)
  }

  /** An entry above every entry of an ordered table keeps it ordered when appended. */
  lemma OrderedSnoc(xs: seq<(nat, NodeId)>, e: (nat, NodeId))
    requires Ordered(xs) && forall j :: 0 <= j < |xs| ==> xs[j].0 < e.0 && xs[j].1 < e.1
    ensures Ordered(xs + [e])
  {
  }

  /**
   * Registers model `k - 1` on top of the state `prev` left by the models
   * before it: an ignored model only logs its skip; any other gets a new
   * node under the root and is recorded on it when its conversion succeeds.
   */
  function RegisterNext(models: seq<Model>, k: nat, materials: seq<Material>, prev: Reg): (r: Reg)
    requires 0 < k <= |models| && |prev.scene.nodes| > 0
    ensures |r.scene.nodes| == |prev.scene.nodes| + (if Ignored(models[k - 1]) then 0 else 1)
    ensures r.scene.clusters == prev.scene.clusters && r.scene.stacks == prev.scene.stacks
    ensures r.mapped == prev.mapped || (!Ignored(models[k - 1]) && r.mapped == prev.mapped + [(k - 1, |prev.scene.nodes|)])
  {
    // Only the shape of a conversion and of the new node matter for these facts.
    hide ConvertModel, CreateUnderRoot, SetMaterials, SetAttribute;
    var model := models[k - 1];
    if Ignored(model) then prev.(log := prev.log + [Diag(Info, SkippedByFilter(model.name))])
    else
      var (s1, id) := CreateUnderRoot(prev.scene, model.name);
      var c := ConvertModel(models, k - 1, materials);
      var s2 := SetAttribute(SetMaterials(s1, id, c.slots), id, c.attribute);
      Reg(s2, if c.ok then prev.mapped + [(k - 1, id)] else prev.mapped, prev.log + c.log)
  }

  /** The node the registration pass creates for model `i` (when the mask lets it through). */
  function NodeOf(s: Scene, models: seq<Model>, i: nat): NodeId
    requires i <= |models|
  {
    |s.nodes| + Created(models, i)
  }

  /** `NodeOf` for every model and for the end of the list. */
  function NodeIds(s: Scene, models: seq<Model>): (ids: seq<NodeId>)
    ensures |ids| == |models| + 1
    ensures forall i {:trigger NodeOf(s, models, i)} :: 0 <= i <= |models| ==> ids[i] == NodeOf(s, models, i)
  {
    seq(|models| + 1, i requires 0 <= i <= |models| => NodeOf(s, models, i))
  }

  /** The conversion outcome of every model. */
  function Conversions(models: seq<Model>, materials: seq<Material>): (cs: seq<Converted>)
    ensures |cs| == |models|
    ensures forall i {:trigger ConvertModel(models, i, materials)} :: 0 <= i < |models| ==> cs[i] == ConvertModel(models, i, materials)
  {
    seq(|models|, i requires 0 <= i < |models| => ConvertModel(models, i, materials))
  }

  /**
   * After `k` models, with `cs` their conversion outcomes and `ids` their
   * node ids: each model the mask lets through has its own node, a child of
   * the root named after it with the attribute and slots its conversion
   * left, and the nodes that were there before are untouched.
   */
  predicate NodesRegistered(s: Scene, models: seq<Model>, k: nat, cs: seq<Converted>, ids: seq<NodeId>, r: Scene)
    requires k <= |models| == |cs| && |ids| == |models| + 1 && |r.nodes| == ids[k]
  {
    && (forall i :: 0 <= i < k && !Ignored(models[i]) ==>
          && |s.nodes| <= ids[i] < ids[k]
          && r.nodes[ids[i]].name == models[i].name && r.nodes[ids[i]].parent == Some(Root)
          && r.nodes[ids[i]].attribute == cs[i].attribute && r.nodes[ids[i]].materials == cs[i].slots
          && r.nodes[ids[i]].transform == IdentityTransform)
    && |s.nodes| <= |r.nodes|
    && (forall i :: 0 < i < |s.nodes| ==> r.nodes[i] == s.nodes[i])
  }

  /**
   * A model among the first `k` is in the table exactly when the mask lets it
   * through and its conversion succeeded, and then it maps to its node.
   */
  predicate TableRegistered(models: seq<Model>, k: nat, cs: seq<Converted>, ids: seq<NodeId>, mapped: seq<(nat, NodeId)>)
    requires k <= |models| == |cs| && |ids| == |models| + 1
  {
    && (forall i :: 0 <= i < k && !Ignored(models[i]) ==>
          && (Find(mapped, i) >= 0 <==> cs[i].ok)
          && (Find(mapped, i) >= 0 ==> mapped[Find(mapped, i)].1 == ids[i]))
    && (forall i :: 0 <= i < k && Ignored(models[i]) ==> Find(mapped, i) == -1)
    && (forall j :: 0 <= j < |mapped| ==> mapped[j].0 < k)
  }

  predicate Registered(s: Scene, models: seq<Model>, k: nat, cs: seq<Converted>, ids: seq<NodeId>, r: Reg)
    requires k <= |models| == |cs| && |ids| == |models| + 1 && |r.scene.nodes| == ids[k]
  {
    NodesRegistered(s, models, k, cs, ids, r.scene) && TableRegistered(models, k, cs, ids, r.mapped)
  }

  /** `Created` does not decrease. */
  lemma {:induction false} CreatedMonotone(models: seq<Model>, i: nat, k: nat)
    requires i <= k <= |models|
    ensures Created(models, i) <= Created(models, k)
  {
    if i < k {
      CreatedMonotone(models, i, k - 1);
    }
  }

  /** A model the mask lets through gets a node id below those of all later models. */
  lemma IdsBelow(s: Scene, models: seq<Model>, i: nat)
    requires i < |models| && !Ignored(models[i])
    ensures forall k :: i < k <= |models| ==> |s.nodes| <= NodeOf(s, models, i) < NodeOf(s, models, k)
  {
    forall k | i < k <= |models|
      ensures NodeOf(s, models, i) < NodeOf(s, models, k)
    {
      CreatedMonotone(models, i + 1, k);
    }
  }

  lemma {:induction false} RegisterFacts(s: Scene, models: seq<Model>, k: nat, materials: seq<Material>, r: Reg)
    requires k <= |models| && |s.nodes| > 0
    requires r == Register(s, models, k, materials)
    ensures Registered(s, models, k, Conversions(models, materials), NodeIds(s, models), r)
  {
    // The step lemmas carry the definitions; here they only need chaining.
    hide ConvertModel, Register, Registered, StepDone, Conversions, NodeIds;
    if k == 0 {
      RegisteredNothing(s, models, materials);
    } else {
      var prev := Register(s, models, k - 1, materials);
      var cs := Conversions(models, materials);
      var ids := NodeIds(s, models);
      RegisterFacts(s, models, k - 1, materials, prev);
      RegisterOneEffect(s, models, k, materials, prev, r);
      assert |prev.scene.nodes| == ids[k - 1] == NodeOf(s, models, k - 1);
      assert ids[k] == ids[k - 1] + (if Ignored(models[k - 1]) then 0 else 1) by {
        assert ids[k] == NodeOf(s, models, k);
      }
      if !Ignored(models[k - 1]) {
        IdsBelow(s, models, k - 1);
        assert |s.nodes| <= ids[k - 1];
      }
      RegisterStep(s, models, k, cs, ids, prev, r);
    }
  }

  /** Before the first model the registration facts hold trivially. */
  lemma RegisteredNothing(s: Scene, models: seq<Model>, materials: seq<Material>)
    requires |s.nodes| > 0
    ensures Registered(s, models, 0, Conversions(models, materials), NodeIds(s, models), Register(s, models, 0, materials))
  {
  }

  /** What registering model `k - 1`, converted with outcome `c`, does to the pass's state. */
  predicate StepDone(models: seq<Model>, k: nat, prev: Reg, r: Reg, c: Converted)
    requires 0 < k <= |models|
  {
    var id := |prev.scene.nodes|;
    && (Ignored(models[k - 1]) ==> r.scene.nodes == prev.scene.nodes && r.mapped == prev.mapped)
    && (!Ignored(models[k - 1]) ==>
          && |r.scene.nodes| == id + 1
          && r.scene.nodes[id].name == models[k - 1].name && r.scene.nodes[id].parent == Some(Root)
          && r.scene.nodes[id].attribute == c.attribute && r.scene.nodes[id].materials == c.slots
          && r.scene.nodes[id].transform == IdentityTransform
          && (forall n :: 0 < n < id ==> r.scene.nodes[n] == prev.scene.nodes[n])
          && r.mapped == if c.ok then prev.mapped + [(k - 1, id)] else prev.mapped)
  }

  lemma RegisterOneEffect(s: Scene, models: seq<Model>, k: nat, materials: seq<Material>, prev: Reg, r: Reg)
    requires 0 < k <= |models| && |s.nodes| > 0
    requires prev == Register(s, models, k - 1, materials) && r == Register(s, models, k, materials)
    ensures StepDone(models, k, prev, r, Conversions(models, materials)[k - 1])
  {
  }

  lemma RegisterStep(s: Scene, models: seq<Model>, k: nat, cs: seq<Converted>, ids: seq<NodeId>, prev: Reg, r: Reg)
    requires 0 < k <= |models| == |cs| && |ids| == |models| + 1 && |s.nodes| > 0
    requires |prev.scene.nodes| == ids[k - 1] && Registered(s, models, k - 1, cs, ids, prev)
    requires ids[k] == ids[k - 1] + (if Ignored(models[k - 1]) then 0 else 1)
    requires !Ignored(models[k - 1]) ==> |s.nodes| <= ids[k - 1]
    requires StepDone(models, k, prev, r, cs[k - 1])
    ensures |r.scene.nodes| == ids[k]
    ensures Registered(s, models, k, cs, ids, r)
  {
    NodesStep(s, models, k, cs, ids, prev, r);
    TableStep(models, k, cs, ids, prev, r);
  }

  lemma NodesStep(s: Scene, models: seq<Model>, k: nat, cs: seq<Converted>, ids: seq<NodeId>, prev: Reg, r: Reg)
    requires 0 < k <= |models| == |cs| && |ids| == |models| + 1 && |s.nodes| > 0
    requires |prev.scene.nodes| == ids[k - 1] && NodesRegistered(s, models, k - 1, cs, ids, prev.scene)
    requires ids[k] == ids[k - 1] + (if Ignored(models[k - 1]) then 0 else 1)
    requires !Ignored(models[k - 1]) ==> |s.nodes| <= ids[k - 1]
    requires StepDone(models, k, prev, r, cs[k - 1])
    ensures |r.scene.nodes| == ids[k]
    ensures NodesRegistered(s, models, k, cs, ids, r.scene)
  {
    if !Ignored(models[k - 1]) {
      forall i | 0 <= i < k - 1 && !Ignored(models[i])
        ensures r.scene.nodes[ids[i]] == prev.scene.nodes[ids[i]]
      {
      }
    }
  }

  lemma TableStep(models: seq<Model>, k: nat, cs: seq<Converted>, ids: seq<NodeId>, prev: Reg, r: Reg)
    requires 0 < k <= |models| == |cs| && |ids| == |models| + 1
    requires |prev.scene.nodes| == ids[k - 1] && TableRegistered(models, k - 1, cs, ids, prev.mapped)
    requires StepDone(models, k, prev, r, cs[k - 1])
    ensures TableRegistered(models, k, cs, ids, r.mapped)
  {
    var e := (k - 1, |prev.scene.nodes|);
    var added := !Ignored(models[k - 1]) && cs[k - 1].ok;
    assert r.mapped == if added then prev.mapped + [e] else prev.mapped;
    forall i | 0 <= i < k
      ensures Find(r.mapped, i) == if added && i == k - 1 then |prev.mapped| else Find(prev.mapped, i)
    {
      if added {
        FindAppend(prev.mapped, e, i);
      }
    }
    forall j | 0 <= j < |r.mapped|
      ensures r.mapped[j].0 < k
    {
      if j < |prev.mapped| {
        assert r.mapped[j] == prev.mapped[j];
      }
    }
    TableStepFound(models, k, cs, ids, prev.mapped, r.mapped, added);
  }

  lemma TableStepFound(models: seq<Model>, k: nat, cs: seq<Converted>, ids: seq<NodeId>,
                       prev: seq<(nat, NodeId)>, r: seq<(nat, NodeId)>, added: bool)
    requires 0 < k <= |models| == |cs| && |ids| == |models| + 1
    requires TableRegistered(models, k - 1, cs, ids, prev)
    requires added <==> !Ignored(models[k - 1]) && cs[k - 1].ok
    requires r == if added then prev + [(k - 1, ids[k - 1])] else prev
    requires forall i :: 0 <= i < k ==> Find(r, i) == if added && i == k - 1 then |prev| else Find(prev, i)
    requires forall j :: 0 <= j < |r| ==> r[j].0 < k
    ensures TableRegistered(models, k, cs, ids, r)
  {
    assert Find(prev, k - 1) == -1;
    forall i | 0 <= i < k && !Ignored(models[i])
      ensures (Find(r, i) >= 0 <==> cs[i].ok) && (Find(r, i) >= 0 ==> r[Find(r, i)].1 == ids[i])
    {
      if i < k - 1 && Find(prev, i) >= 0 {
        assert r[Find(prev, i)] == prev[Find(prev, i)];
      }
    }
    forall i | 0 <= i < k && Ignored(models[i])
      ensures Find(r, i) == -1
    {
    }
  }

  /** Looking a model up after appending an entry. */
  lemma FindAppend(xs: seq<(nat, NodeId)>, e: (nat, NodeId), i: nat)
    ensures Find(xs + [e], i) == if e.0 == i then |xs| else Find(xs, i)
  {
    assert (xs + [e])[..|xs|] == xs;
  }

  // ---------------------------------------------------------------- parentship

  /**
   * The parentship pass over the first `k` models: a model missing from the
   * table is only reported (by its parent's name, as the message is built);
   * a mapped one is placed as the session converter places it.
   */
  function Parentship(s: Scene, models: seq<Model>, mapped: seq<(nat, NodeId)>, k: nat, toEuler: Vector4 -> Vector3)
    : (r: (Scene, Log))
    requires k <= |models| && forall j :: 0 <= j < |mapped| ==> mapped[j].0 < |models| && mapped[j].1 < |s.nodes|
    ensures |r.0.nodes| == |s.nodes| && r.0.clusters == s.clusters && r.0.stacks == s.stacks
  {
    if k == 0 then (s, [])
    else
      var (s1, log) := Parentship(s, models, mapped, k - 1, toEuler);
      var f := Find(mapped, k - 1);
      if f < 0 then (s1, log + [Warn(ModelNotMapped(models[k - 1].parent))])
      else
        var (s2, log2) := Placement.PlaceOne(s1, models, mapped[f], toEuler);
        (s2, log + log2)
  }

  /** The number of leading table entries whose model index is below `k`. */
  function Below(xs: seq<(nat, NodeId)>, k: nat): (r: nat)
    ensures r <= |xs|
  {
    if |xs| == 0 || xs[0].0 >= k then 0 else 1 + Below(xs[1..], k)
  }

  /** Position `c` separates the entries below `k` from the others. */
  predicate Splits(xs: seq<(nat, NodeId)>, k: nat, c: nat) {
    && c <= |xs|
    && (forall j :: 0 <= j < c ==> xs[j].0 < k)
    && (forall j :: c <= j < |xs| ==> xs[j].0 >= k)
  }

  /** There is only one such position. */
  lemma SplitUnique(xs: seq<(nat, NodeId)>, k: nat, a: nat, b: nat)
    requires Splits(xs, k, a) && Splits(xs, k, b)
    ensures a == b
  {
    var m := if a < b then a else b;
    assert m < |xs| ==> xs[m].0 == xs[m].0;
  }

  /** In an ordered table, `Below` is that position. */
  lemma {:induction false} BelowSplits(xs: seq<(nat, NodeId)>, k: nat)
    requires Ordered(xs)
    ensures Splits(xs, k, Below(xs, k))
  {
    if |xs| > 0 && xs[0].0 < k {
      BelowSplits(xs[1..], k);
      assert forall j :: 1 <= j < |xs| ==> xs[j] == xs[1..][j - 1];
    } else if |xs| > 0 {
      assert forall j :: 0 <= j < |xs| ==> xs[0].0 <= xs[j].0;
    }
  }

  /** Passing model `k` advances the split by one exactly when `k` is in the table. */
  lemma BelowStep(xs: seq<(nat, NodeId)>, k: nat)
    requires Ordered(xs)
    ensures Find(xs, k) >= 0 ==> Find(xs, k) == Below(xs, k) && Below(xs, k + 1) == Below(xs, k) + 1
    ensures Find(xs, k) < 0 ==> Below(xs, k + 1) == Below(xs, k)
  {
    BelowSplits(xs, k);
    BelowSplits(xs, k + 1);
    var c, f := Below(xs, k), Find(xs, k);
    if f >= 0 {
      assert c <= f;
      assert forall j :: c < j < |xs| ==> xs[c].0 < xs[j].0;
      assert Splits(xs, k + 1, c + 1);
      SplitUnique(xs, k + 1, Below(xs, k + 1), c + 1);
    } else {
      assert Splits(xs, k + 1, c);
      SplitUnique(xs, k + 1, Below(xs, k + 1), c);
    }
  }

  /** An ordered table maps no two models to the same node. */
  lemma OrderedDistinct(xs: seq<(nat, NodeId)>)
    requires Ordered(xs)
    ensures DistinctNodes(xs)
  {
    forall j, j' | 0 <= j < j' < |xs|
      ensures xs[j].1 != xs[j'].1
    {
    }
  }

  /**
   * The parentship pass over the first `k` models establishes what the
   * session converter's placement pass establishes over the table entries
   * of those models: each such node carries its model's transform and hangs
   * under the root or under a node named as its parent, and everything else
   * is as the registration pass left it.
   */
  lemma ParentshipPlaces(s: Scene, models: seq<Model>, mapped: seq<(nat, NodeId)>, k: nat,
                         toEuler: Vector4 -> Vector3, r: Scene)
    requires k <= |models| && forall j :: 0 <= j < |mapped| ==> mapped[j].0 < |models| && mapped[j].1 < |s.nodes|
    requires Ordered(mapped) && forall j :: 0 <= j < |mapped| ==> s.nodes[mapped[j].1].parent == Some(Root)
    requires r == Parentship(s, models, mapped, k, toEuler).0
    ensures Below(mapped, k) <= |mapped| && |r.nodes| == |s.nodes|
    ensures Placement.Placed(s, r, models, mapped, Below(mapped, k), toEuler)
  {
    forall m | 0 <= m < k
      ensures Advances(mapped, m)
    {
      BelowStep(mapped, m);
    }
    OrderedDistinct(mapped);
    ParentshipFollows(s, models, mapped, k, toEuler, r);
  }

  /** How the split moves past model `m`, as `BelowStep` states it for an ordered table. */
  predicate Advances(xs: seq<(nat, NodeId)>, m: nat) {
    && (Find(xs, m) >= 0 ==> Find(xs, m) == Below(xs, m) && Below(xs, m + 1) == Below(xs, m) + 1)
    && (Find(xs, m) < 0 ==> Below(xs, m + 1) == Below(xs, m))
  }

  lemma {:induction false} ParentshipFollows(s: Scene, models: seq<Model>, mapped: seq<(nat, NodeId)>, k: nat,
                                             toEuler: Vector4 -> Vector3, r: Scene)
    requires k <= |models| && forall j :: 0 <= j < |mapped| ==> mapped[j].0 < |models| && mapped[j].1 < |s.nodes|
    requires DistinctNodes(mapped) && forall j :: 0 <= j < |mapped| ==> s.nodes[mapped[j].1].parent == Some(Root)
    requires forall m :: 0 <= m < k ==> Advances(mapped, m)
    requires r == Parentship(s, models, mapped, k, toEuler).0
    ensures Below(mapped, k) <= |mapped| && |r.nodes| == |s.nodes|
    ensures Placement.Placed(s, r, models, mapped, Below(mapped, k), toEuler)
  {
    if k == 0 {
      assert Below(mapped, 0) == 0;
    } else {
      var s1 := Parentship(s, models, mapped, k - 1, toEuler).0;
      ParentshipFollows(s, models, mapped, k - 1, toEuler, s1);
      assert Advances(mapped, k - 1);
      if Find(mapped, k - 1) >= 0 {
        FoundPlaces(s, models, mapped, k, toEuler, s1, r);
      } else {
        MissingPlaces(s, models, mapped, k, toEuler, s1, r);
      }
    }
  }

  /** A model in the table: the parentship step is the placement step of its entry. */
  lemma FoundPlaces(s: Scene, models: seq<Model>, mapped: seq<(nat, NodeId)>, k: nat,
                    toEuler: Vector4 -> Vector3, s1: Scene, r: Scene)
    requires 0 < k <= |models| && forall j :: 0 <= j < |mapped| ==> mapped[j].0 < |models| && mapped[j].1 < |s.nodes|
    requires DistinctNodes(mapped) && forall j :: 0 <= j < |mapped| ==> s.nodes[mapped[j].1].parent == Some(Root)
    requires Find(mapped, k - 1) >= 0 && Advances(mapped, k - 1)
    requires s1 == Parentship(s, models, mapped, k - 1, toEuler).0 && r == Parentship(s, models, mapped, k, toEuler).0
    requires Below(mapped, k - 1) <= |mapped| && Placement.Placed(s, s1, models, mapped, Below(mapped, k - 1), toEuler)
    ensures Below(mapped, k) <= |mapped|
    ensures Placement.Placed(s, r, models, mapped, Below(mapped, k), toEuler)
  {
    var f := Find(mapped, k - 1);
    assert r == Placement.PlaceOne(s1, models, mapped[f], toEuler).0;
    Placement.PlacedStep(s, s1, r, models, mapped, f + 1, toEuler);
    PlacedAgain(s, r, r, models, mapped, f + 1, Below(mapped, k), toEuler);
  }

  /** A model missing from the table: the parentship step leaves the scene alone. */
  lemma MissingPlaces(s: Scene, models: seq<Model>, mapped: seq<(nat, NodeId)>, k: nat,
                      toEuler: Vector4 -> Vector3, s1: Scene, r: Scene)
    requires 0 < k <= |models| && forall j :: 0 <= j < |mapped| ==> mapped[j].0 < |models| && mapped[j].1 < |s.nodes|
    requires Find(mapped, k - 1) < 0 && Advances(mapped, k - 1)
    requires s1 == Parentship(s, models, mapped, k - 1, toEuler).0 && r == Parentship(s, models, mapped, k, toEuler).0
    requires Below(mapped, k - 1) <= |mapped| && Placement.Placed(s, s1, models, mapped, Below(mapped, k - 1), toEuler)
    ensures Below(mapped, k) <= |mapped|
    ensures Placement.Placed(s, r, models, mapped, Below(mapped, k), toEuler)
  {
    assert r == s1;
    PlacedAgain(s, s1, r, models, mapped, Below(mapped, k - 1), Below(mapped, k), toEuler);
  }

  lemma PlacedAgain(s: Scene, s1: Scene, r: Scene, models: seq<Model>, ps: seq<(nat, NodeId)>, c: nat, c2: nat,
                    toEuler: Vector4 -> Vector3)
    requires c <= |ps| && |s1.nodes| == |s.nodes| && forall j :: 0 <= j < |ps| ==> ps[j].0 < |models| && ps[j].1 < |s.nodes|
    requires Placement.Placed(s, s1, models, ps, c, toEuler) && r == s1 && c2 == c
    ensures Placement.Placed(s, r, models, ps, c2, toEuler)
  {
  }

  // ---------------------------------------------------------------- the whole conversion

  /** The converter's two global handles: whether a scene and a manager exist. */
  datatype Globals = Globals(scene: bool, manager: bool)

  /** The outcome of `SaveAsFBX`: the handles afterwards, success, the scene built and its name, the log. */
  datatype Saved = Saved(globals: Globals, ok: bool, built: Option<(string, Scene)>, log: Log)

  /** The scene `SaveAsFBX` builds for `file` before exporting it. */
  function Build(file: MshFile, toEuler: Vector4 -> Vector3): (r: (Reg, Scene, Log))
    ensures |r.1.nodes| == |r.0.scene.nodes|
  {
    var reg := Register(EmptyScene(), file.models, |file.models|, file.materials);
    var (scene, log) := Parentship(reg.scene, file.models, reg.mapped, |file.models|, toEuler);
    (reg, scene, reg.log + log)
  }

  /**
   * Converts and exports one asset. Refuses, creating nothing, while a scene
   * or manager is left over or without an asset; every other call leaves both
   * handles empty, whether the export (`exported`) succeeded or not.
   */
  function SaveAsFbx(g: Globals, msh: Option<MshFile>, fbxFileName: string, exported: bool, toEuler: Vector4 -> Vector3)
    : (r: Saved)
    ensures g.scene ==> r == Saved(g, false, None, [Err(SceneNotNull)])
    ensures !g.scene && g.manager ==> r == Saved(g, false, None, [Err(ManagerNotNull)])
    ensures !g.scene && !g.manager && msh.None? ==> r == Saved(g, false, None, [Err(MshMissing)])
    ensures !g.scene && !g.manager && msh.Some? ==>
      && r.globals == Globals(false, false) && r.ok == exported
      && r.built.Some? && r.built.value.0 == GetPlainName(fbxFileName)
      && r.built.value.1 == Build(msh.value, toEuler).1
      && r.log == Build(msh.value, toEuler).2 + (if exported then [] else [Err(ExportFailed)])
  {
    if g.scene then Saved(g, false, None, [Err(SceneNotNull)])
    else if g.manager then Saved(g, false, None, [Err(ManagerNotNull)])
    else if msh.None? then Saved(g, false, None, [Err(MshMissing)])
    else
      var (_, scene, log) := Build(msh.value, toEuler);
      Saved(Globals(false, false), exported, Some((GetPlainName(fbxFileName), scene)), log + (if exported then [] else [Err(ExportFailed)]))
  }

  /**
   * In the scene `SaveAsFBX` builds, every model the mask lets through has a
   * node named after it with the attribute its conversion left. A converted
   * model's node carries the model's transform and hangs under the root or
   * under a node named as its parent; a model whose conversion failed keeps
   * its node under the root, untouched.
   */
  lemma BuiltScene(file: MshFile, toEuler: Vector4 -> Vector3, i: nat)
    requires i < |file.models| && !Ignored(file.models[i])
    ensures var (reg, scene, _) := Build(file, toEuler);
      var n := NodeOf(EmptyScene(), file.models, i);
      var c := ConvertModel(file.models, i, file.materials);
      && n < |scene.nodes|
      && scene.nodes[n].name == file.models[i].name && scene.nodes[n].attribute == c.attribute
      && (c.ok ==> scene.nodes[n].transform == Placement.ModelTransform(file.models[i], toEuler)
                   && Placement.ParentOk(scene, file.models[i], n))
      && (!c.ok ==> scene.nodes[n].parent == Some(Root) && scene.nodes[n].transform == IdentityTransform)
  {
    var models := file.models;
    var reg := Register(EmptyScene(), models, |models|, file.materials);
    var scene := Parentship(reg.scene, models, reg.mapped, |models|, toEuler).0;
    var cs, ids := Conversions(models, file.materials), NodeIds(EmptyScene(), models);
    RegisterFacts(EmptyScene(), models, |models|, file.materials, reg);
    TableUnderRoot(models, cs, ids, reg);
    IdsAround(EmptyScene(), models, ids, i);
    ParentshipPlaces(reg.scene, models, reg.mapped, |models|, toEuler, scene);
    BelowSplits(reg.mapped, |models|);
    SplitUnique(reg.mapped, |models|, Below(reg.mapped, |models|), |reg.mapped|);
    BuiltNode(models, cs, ids, reg, scene, toEuler, i);
  }

  /** The node of a model the mask lets through lies strictly between those of the models around it. */
  lemma IdsAround(s: Scene, models: seq<Model>, ids: seq<NodeId>, i: nat)
    requires ids == NodeIds(s, models) && i < |models| && !Ignored(models[i])
    ensures forall m :: 0 <= m < i && !Ignored(models[m]) ==> ids[m] < ids[i]
    ensures forall m :: i < m < |models| && !Ignored(models[m]) ==> ids[i] < ids[m]
  {
    assert ids[i] == NodeOf(s, models, i);
    forall m | 0 <= m < i && !Ignored(models[m])
      ensures ids[m] < ids[i]
    {
      assert ids[m] == NodeOf(s, models, m);
      CreatedMonotone(models, m + 1, i);
    }
    forall m | i < m < |models| && !Ignored(models[m])
      ensures ids[i] < ids[m]
    {
      assert ids[m] == NodeOf(s, models, m);
      CreatedMonotone(models, i + 1, m);
    }
  }

  /** Every node in the table hangs under the root after registration. */
  lemma TableUnderRoot(models: seq<Model>, cs: seq<Converted>, ids: seq<NodeId>, reg: Reg)
    requires |models| == |cs| && |ids| == |models| + 1 && |reg.scene.nodes| == ids[|models|]
    requires Ordered(reg.mapped) && Registered(EmptyScene(), models, |models|, cs, ids, reg)
    ensures forall j :: 0 <= j < |reg.mapped| ==> reg.mapped[j].1 < |reg.scene.nodes| && reg.mapped[j].0 < |models|
    ensures forall j :: 0 <= j < |reg.mapped| ==> reg.scene.nodes[reg.mapped[j].1].parent == Some(Root)
  {
    forall j | 0 <= j < |reg.mapped|
      ensures reg.mapped[j].0 < |models| && !Ignored(models[reg.mapped[j].0])
      ensures reg.mapped[j].1 == ids[reg.mapped[j].0]
    {
      var m := reg.mapped[j].0;
      MappedUnique(reg.mapped, j, Find(reg.mapped, m));
    }
  }

  /** The facts about model `i`'s node, from the registration and placement facts. */
  lemma BuiltNode(models: seq<Model>, cs: seq<Converted>, ids: seq<NodeId>, reg: Reg, scene: Scene,
                  toEuler: Vector4 -> Vector3, i: nat)
    requires i < |models| == |cs| && |ids| == |models| + 1 && |reg.scene.nodes| == ids[|models|]
    requires !Ignored(models[i]) && forall m :: 0 <= m < i && !Ignored(models[m]) ==> ids[m] < ids[i]
    requires forall m :: i < m < |models| && !Ignored(models[m]) ==> ids[i] < ids[m]
    requires Ordered(reg.mapped) && Registered(EmptyScene(), models, |models|, cs, ids, reg)
    requires forall j :: 0 <= j < |reg.mapped| ==> reg.mapped[j].0 < |models| && reg.mapped[j].1 < |reg.scene.nodes|
    requires |scene.nodes| == |reg.scene.nodes|
    requires Placement.Placed(reg.scene, scene, models, reg.mapped, |reg.mapped|, toEuler)
    ensures var n := ids[i];
      && n < |scene.nodes|
      && scene.nodes[n].name == models[i].name && scene.nodes[n].attribute == cs[i].attribute
      && (cs[i].ok ==> scene.nodes[n].transform == Placement.ModelTransform(models[i], toEuler)
                       && Placement.ParentOk(scene, models[i], n))
      && (!cs[i].ok ==> scene.nodes[n].parent == Some(Root) && scene.nodes[n].transform == IdentityTransform)
  {
    var n, f := ids[i], Find(reg.mapped, i);
    assert Placement.Kept(scene.nodes[n], reg.scene.nodes[n]);
    if f < 0 {
      forall j | 0 <= j < |reg.mapped|
        ensures reg.mapped[j].1 != n
      {
        var m := reg.mapped[j].0;
        MappedUnique(reg.mapped, j, Find(reg.mapped, m));
        assert reg.mapped[j].1 == ids[m] && m != i;
      }
    }
  }

  /** In an ordered table an entry is the one `Find` returns for its model. */
  lemma MappedUnique(xs: seq<(nat, NodeId)>, j: nat, f: int)
    requires Ordered(xs) && j < |xs| && f == Find(xs, xs[j].0)
    ensures f == j
  {
  }
}
