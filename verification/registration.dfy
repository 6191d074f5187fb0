/**
 * The first pass over a file's models: every model the filters let through
 * gets a node under the root named after it, carrying a mesh, a skeleton or an
 * empty mesh according to its purpose. A bone whose checksum already has a
 * node (from this file or an earlier one) is not converted again. Models whose
 * conversion succeeds are recorded for the later passes and in the CRC table.
 */
module Registration {

  import opened Wrappers
  import opened Msh
  import opened Purposes
  import opened Scenes
  import opened Diagnostics
  import Geometry

  /** The converter's switches. */
  datatype Settings = Settings(
    chunkFilter: ChunkFilter,
    ignore: Purpose,
    emptyMeshes: bool,
    overrideAnimName: string)

  /** Materials are looked up unless filtered; an out-of-range index is reported. */
  function Policy(settings: Settings): (r: Geometry.MaterialPolicy)
    ensures r.skipMaterials <==> Materials in settings.chunkFilter
    ensures r.warnOutOfRange
  {
    Geometry.MaterialPolicy(Materials in settings.chunkFilter, true)
  }

  /** The mesh of a model that stands for a point, or of any mesh while meshes are left empty. */
  function EmptyMesh(name: string): MeshData {
    MeshData(name, [], [], [], [], [])
  }

  /**
   * The bone type of a skeleton model. Only a purpose that is exactly one of
   * the four skeleton bits has one: the two root kinds make a root bone, limb
   * and end make a limb node.
   */
  function SkeletonKind(purpose: Purpose): (r: Option<SkeletonType>)
    ensures r.Some? <==> |purpose| == 1 && purpose <= SkeletonMask
    ensures r == Some(RootBone) <==> purpose == {SkeletonRoot} || purpose == {SkeletonBoneRoot}
  {
    if purpose == {SkeletonRoot} || purpose == {SkeletonBoneRoot} then Some(RootBone)
    else if purpose == {SkeletonBoneLimb} || purpose == {SkeletonBoneEnd} then Some(LimbNode)
    else
      SingleSkeletonBit(purpose);
      None
  }

  /** A one-bit skeleton purpose is one of the four skeleton bits. */
  lemma SingleSkeletonBit(p: Purpose)
    ensures |p| == 1 && p <= SkeletonMask ==>
      p == {SkeletonRoot} || p == {SkeletonBoneRoot} || p == {SkeletonBoneLimb} || p == {SkeletonBoneEnd}
  {
    if |p| == 1 {
      var f :| f in p;
      assert |p - {f}| == 0;
      assert p == {f};
    }
  }

  /** The outcome of converting one model: its attribute (none on failure), its material slots, its log. */
  datatype Converted = Converted(attribute: Option<Attribute>, slots: seq<MaterialSlot>, log: Log)

  /**
   * Converts model `i` by purpose. Mesh bits take precedence over skeleton
   * bits; a model with neither becomes a point with an empty mesh.
   */
  function ConvertModel(models: seq<Model>, i: nat, materials: seq<Material>, settings: Settings): (r: Converted)
    requires i < |models|
    ensures var p := models[i].purpose;
      r.attribute.Some? <==>
        if Intersects(p, MeshMask) then
          settings.emptyMeshes || forall j :: 0 <= j < |models[i].segments| ==> Geometry.Consistent(models[i].segments[j])
        else !Intersects(p, SkeletonMask) || SkeletonKind(p).Some?
    ensures var p := models[i].purpose;
      r.attribute.Some? ==>
        if Intersects(p, MeshMask) || !Intersects(p, SkeletonMask) then
          r.attribute.value.MeshAttr? && r.attribute.value.mesh.name == models[i].name && r.attribute.value.mesh.skins == []
        else r.attribute.value == SkeletonAttr(SkeletonKind(p).value)
    ensures r.attribute.None? && Intersects(models[i].purpose, MeshMask) ==>
      |r.log| > 0 && r.log[|r.log| - 1] == Warn(MeshConversionFailed(i))
    ensures r.attribute.None? && !Intersects(models[i].purpose, MeshMask) ==>
      r.log == [Warn(NoBoneType(models[i].name)), Warn(SkeletonConversionFailed(i))]
  {
    var model := models[i];
    if Intersects(model.purpose, MeshMask) then
      if settings.emptyMeshes then Converted(Some(MeshAttr(EmptyMesh(model.name))), [], [])
      else
        var m := Geometry.ModelToMesh(model, materials, Policy(settings), []);
        if m.mesh.Some? then Converted(Some(MeshAttr(m.mesh.value)), m.slots, m.log)
        else Converted(None, m.slots, m.log + [Warn(MeshConversionFailed(i))])
    else if Intersects(model.purpose, SkeletonMask) then
      match SkeletonKind(model.purpose)
      case Some(kind) => Converted(Some(SkeletonAttr(kind)), [], [])
      case None => Converted(None, [], [Warn(NoBoneType(model.name)), Warn(SkeletonConversionFailed(i))])
    else Converted(Some(MeshAttr(EmptyMesh(model.name))), [], [])
  }

  /** A converted mesh model carries a mesh without skins. */
  predicate MeshesBare(models: seq<Model>, cs: seq<Converted>) {
    && |cs| == |models|
    && forall i :: 0 <= i < |cs| && cs[i].attribute.Some? && Intersects(models[i].purpose, MeshMask) ==>
         cs[i].attribute.value.MeshAttr? && cs[i].attribute.value.mesh.skins == []
  }

  /** The conversions of all models of a file, one per model, in order. */
  function Conversions(models: seq<Model>, materials: seq<Material>, settings: Settings): (cs: seq<Converted>)
    ensures |cs| == |models| && forall i :: 0 <= i < |models| ==> cs[i] == ConvertModel(models, i, materials, settings)
    ensures MeshesBare(models, cs)
  {
    seq(|models|, i requires 0 <= i < |models| => ConvertModel(models, i, materials, settings))
  }

  /** The registration pass's state: the scene, the CRC table, the models converted so far with their nodes, the log. */
  datatype Reg = Reg(scene: Scene, crcToNode: map<Checksum, NodeId>, processing: seq<(nat, NodeId)>, log: Log)

  /** The scene has its root and the CRC table names nodes of the scene. */
  predicate TableValid(scene: Scene, crcToNode: map<Checksum, NodeId>) {
    |scene.nodes| > 0 && TableFits(scene, crcToNode)
  }

  /** Model `i` is left out: an ignored purpose, or a bone that already has a node. */
  predicate Skipped(model: Model, crc: string -> Checksum, crcToNode: map<Checksum, NodeId>, settings: Settings) {
    Intersects(model.purpose, settings.ignore) || (Intersects(model.purpose, SkeletonMask) && crc(model.name) in crcToNode)
  }

  /** What the later passes rely on about a converted model and its node. */
  predicate Recorded(models: seq<Model>, crc: string -> Checksum, r: Reg, e: (nat, NodeId)) {
    && e.0 < |models| && 0 < e.1 < |r.scene.nodes|
    && crc(models[e.0].name) in r.crcToNode
    && r.scene.nodes[e.1].name == models[e.0].name
    && r.scene.nodes[e.1].parent == Some(Root)
    && (Intersects(models[e.0].purpose, MeshMask) ==>
          r.scene.nodes[e.1].attribute.MeshAttr? && r.scene.nodes[e.1].attribute.mesh.skins == [])
  }

  /** The registration invariant; `base` is the node count before the pass. */
  predicate RegValid(models: seq<Model>, crc: string -> Checksum, base: nat, r: Reg) {
    && TableValid(r.scene, r.crcToNode)
    && (forall j :: 0 <= j < |r.processing| ==> Recorded(models, crc, r, r.processing[j]))
    && (forall j :: 0 <= j < |r.processing| ==> base <= r.processing[j].1)
    && (forall j, j' :: 0 <= j < j' < |r.processing| ==>
          r.processing[j].0 < r.processing[j'].0 && r.processing[j].1 < r.processing[j'].1)
  }

  /** The registration invariant after `k` models, for a pass that started from the CRC table `init`. */
  predicate RegInv(models: seq<Model>, crc: string -> Checksum, init: map<Checksum, NodeId>, base: nat, k: nat, r: Reg) {
    && RegValid(models, crc, base, r)
    && init.Keys <= r.crcToNode.Keys
    && forall j :: 0 <= j < |r.processing| ==> r.processing[j].0 < k
  }

  /** Registers model `i`. */
  function RegisterOne(st: Reg, models: seq<Model>, i: nat, cs: seq<Converted>, settings: Settings,
                       crc: string -> Checksum): (r: Reg)
    requires i < |models| == |cs| && |st.scene.nodes| > 0
    ensures |r.scene.nodes| >= |st.scene.nodes|
    ensures r.scene.clusters == st.scene.clusters && r.scene.stacks == st.scene.stacks
  {
    var model := models[i];
    if Skipped(model, crc, st.crcToNode, settings) then st
    else
      var (s1, id) := CreateUnderRoot(st.scene, model.name);
      var c := cs[i];
      var s2 := SetMaterials(s1, id, c.slots);
      match c.attribute
      case None => Reg(s2, st.crcToNode, st.processing, st.log + c.log)
      case Some(a) => Reg(SetAttribute(s2, id, a), st.crcToNode[crc(model.name) := id], st.processing + [(i, id)], st.log + c.log)
  }

  /**
   * A skipped model changes nothing; any other model gets a new last child of
   * the root named after it, with the material slots its conversion added. Only
   * a successful conversion gives the node its attribute, records the model and
   * maps its checksum to the node.
   */
  lemma RegisterOneEffect(st: Reg, models: seq<Model>, i: nat, cs: seq<Converted>, settings: Settings,
                          crc: string -> Checksum)
    requires i < |models| == |cs| && |st.scene.nodes| > 0
    ensures var r := RegisterOne(st, models, i, cs, settings, crc);
      Skipped(models[i], crc, st.crcToNode, settings) ==> r == st
    ensures var r := RegisterOne(st, models, i, cs, settings, crc);
      !Skipped(models[i], crc, st.crcToNode, settings) ==>
      var id := |st.scene.nodes|;
      var c := cs[i];
      && |r.scene.nodes| == id + 1
      && r.scene.nodes[id].name == models[i].name && r.scene.nodes[id].parent == Some(Root)
      && r.scene.nodes[id].materials == c.slots
      && r.scene.nodes[Root] == st.scene.nodes[Root].(children := st.scene.nodes[Root].children + [id])
      && (forall n :: 0 < n < id ==> r.scene.nodes[n] == st.scene.nodes[n])
      && r.log == st.log + c.log
      && (c.attribute.None? ==>
            r.scene.nodes[id].attribute == NoAttribute && r.crcToNode == st.crcToNode && r.processing == st.processing)
      && (c.attribute.Some? ==>
            && r.scene.nodes[id].attribute == c.attribute.value
            && r.crcToNode == st.crcToNode[crc(models[i].name) := id]
            && r.processing == st.processing + [(i, id)])
  {
  }

  /** The registration pass over the first `k` models. */
  function Register(st: Reg, models: seq<Model>, k: nat, cs: seq<Converted>, settings: Settings,
                    crc: string -> Checksum): (r: Reg)
    requires k <= |models| == |cs| && |st.scene.nodes| > 0
    ensures |r.scene.nodes| >= |st.scene.nodes|
    ensures r.scene.clusters == st.scene.clusters && r.scene.stacks == st.scene.stacks
  {
    if k == 0 then st
    else RegisterOne(Register(st, models, k - 1, cs, settings, crc), models, k - 1, cs, settings, crc)
  }

  // ---------------------------------------------------------------- what the pass guarantees

  /** No ignored model is converted, and a bone is only converted when its checksum had no node yet. */
  predicate FiltersRespected(models: seq<Model>, crc: string -> Checksum, settings: Settings,
                             init: map<Checksum, NodeId>, ps: seq<(nat, NodeId)>)
  {
    && (forall j :: 0 <= j < |ps| && ps[j].0 < |models| ==> !Intersects(models[ps[j].0].purpose, settings.ignore))
    && (forall j :: 0 <= j < |ps| && ps[j].0 < |models| && Intersects(models[ps[j].0].purpose, SkeletonMask) ==>
          crc(models[ps[j].0].name) !in init)
    && (forall j, j' :: 0 <= j < j' < |ps| && ps[j].0 < |models| && ps[j'].0 < |models| &&
                        Intersects(models[ps[j'].0].purpose, SkeletonMask) ==>
          crc(models[ps[j].0].name) != crc(models[ps[j'].0].name))
  }

  /** Model `i` was converted in this pass. */
  predicate Processed(r: Reg, i: nat) {
    exists j :: 0 <= j < |r.processing| && r.processing[j].0 == i
  }

  /**
   * Every model among the first `k` that is not ignored and converts is either
   * recorded or a bone whose checksum already has a node.
   */
  ghost predicate Complete(models: seq<Model>, k: nat, cs: seq<Converted>, settings: Settings,
                           crc: string -> Checksum, r: Reg)
    requires k <= |models| == |cs|
  {
    forall i :: 0 <= i < k && !Intersects(models[i].purpose, settings.ignore) &&
                cs[i].attribute.Some? ==>
        Processed(r, i) || (Intersects(models[i].purpose, SkeletonMask) && crc(models[i].name) in r.crcToNode)
  }

  /**
   * The registration pass keeps its invariant: the CRC table only grows and
   * names nodes of the scene, and the recorded models appear in order, each
   * with a new node under the root named after it.
   */
  lemma {:induction false} RegisterValid(st: Reg, models: seq<Model>, k: nat, cs: seq<Converted>, settings: Settings,
                                         crc: string -> Checksum, r: Reg)
    requires k <= |models| == |cs| && TableValid(st.scene, st.crcToNode) && st.processing == [] && MeshesBare(models, cs)
    requires r == Register(st, models, k, cs, settings, crc)
    ensures RegInv(models, crc, st.crcToNode, |st.scene.nodes|, k, r)
  {
    hide RegisterOne;
    if k > 0 {
      var prev := Register(st, models, k - 1, cs, settings, crc);
      RegisterValid(st, models, k - 1, cs, settings, crc, prev);
      RegisterOneValid(prev, models, k - 1, cs, settings, crc, st.crcToNode, |st.scene.nodes|, r);
    }
  }

  /** The registration pass leaves the nodes it found alone, except for the root's child list. */
  lemma {:induction false} RegisterKeeps(st: Reg, models: seq<Model>, k: nat, cs: seq<Converted>, settings: Settings,
                                         crc: string -> Checksum, r: Reg)
    requires k <= |models| == |cs| && |st.scene.nodes| > 0
    requires r == Register(st, models, k, cs, settings, crc)
    ensures forall i :: 0 < i < |st.scene.nodes| ==> r.scene.nodes[i] == st.scene.nodes[i]
    ensures r.scene.nodes[Root] == st.scene.nodes[Root].(children := r.scene.nodes[Root].children)
  {
    hide RegisterOne;
    if k > 0 {
      var prev := Register(st, models, k - 1, cs, settings, crc);
      assert |prev.scene.nodes| >= |st.scene.nodes| > 0;
      assert r == RegisterOne(prev, models, k - 1, cs, settings, crc);
      RegisterKeeps(st, models, k - 1, cs, settings, crc, prev);
      RegisterOneKeeps(prev, models, k - 1, cs, settings, crc, r);
      KeepsTrans(st.scene, prev.scene, r.scene);
    }
  }

  lemma KeepsTrans(a: Scene, b: Scene, c: Scene)
    requires |a.nodes| > 0 && |a.nodes| <= |b.nodes| <= |c.nodes|
    requires forall i :: 0 < i < |a.nodes| ==> b.nodes[i] == a.nodes[i]
    requires b.nodes[Root] == a.nodes[Root].(children := b.nodes[Root].children)
    requires forall i :: 0 < i < |b.nodes| ==> c.nodes[i] == b.nodes[i]
    requires c.nodes[Root] == b.nodes[Root].(children := c.nodes[Root].children)
    ensures forall i :: 0 < i < |a.nodes| ==> c.nodes[i] == a.nodes[i]
    ensures c.nodes[Root] == a.nodes[Root].(children := c.nodes[Root].children)
  {
  }

  lemma RegisterOneKeeps(st: Reg, models: seq<Model>, i: nat, cs: seq<Converted>, settings: Settings,
                         crc: string -> Checksum, r: Reg)
    requires i < |models| == |cs| && |st.scene.nodes| > 0 && r == RegisterOne(st, models, i, cs, settings, crc)
    ensures forall n :: 0 < n < |st.scene.nodes| ==> r.scene.nodes[n] == st.scene.nodes[n]
    ensures r.scene.nodes[Root] == st.scene.nodes[Root].(children := r.scene.nodes[Root].children)
  {
    RegisterOneEffect(st, models, i, cs, settings, crc);
  }

  /** The registration pass converts no ignored model and no bone whose checksum already has a node. */
  lemma {:induction false} RegisterFilters(st: Reg, models: seq<Model>, k: nat, cs: seq<Converted>, settings: Settings,
                                           crc: string -> Checksum, r: Reg)
    requires k <= |models| == |cs| && TableValid(st.scene, st.crcToNode) && st.processing == [] && MeshesBare(models, cs)
    requires r == Register(st, models, k, cs, settings, crc)
    ensures FiltersRespected(models, crc, settings, st.crcToNode, r.processing)
  {
    hide RegisterOne;
    if k > 0 {
      var prev := Register(st, models, k - 1, cs, settings, crc);
      assert r == RegisterOne(prev, models, k - 1, cs, settings, crc);
      RegisterFilters(st, models, k - 1, cs, settings, crc, prev);
      RegisterValid(st, models, k - 1, cs, settings, crc, prev);
      RegisterOneFilters(prev, models, k - 1, cs, settings, crc, st.crcToNode, |st.scene.nodes|, r);
    }
  }

  /** The registration pass misses no model that is not ignored and converts, unless it is a bone already present. */
  lemma {:induction false} RegisterComplete(st: Reg, models: seq<Model>, k: nat, cs: seq<Converted>, settings: Settings,
                                            crc: string -> Checksum, r: Reg)
    requires k <= |models| == |cs| && |st.scene.nodes| > 0
    requires r == Register(st, models, k, cs, settings, crc)
    ensures Complete(models, k, cs, settings, crc, r)
  {
    hide RegisterOne;
    if k > 0 {
      var prev := Register(st, models, k - 1, cs, settings, crc);
      assert r == RegisterOne(prev, models, k - 1, cs, settings, crc);
      RegisterComplete(st, models, k - 1, cs, settings, crc, prev);
      RegisterOneComplete(prev, models, k - 1, cs, settings, crc, r);
    }
  }

  lemma RegisterOneValid(st: Reg, models: seq<Model>, i: nat, cs: seq<Converted>, settings: Settings,
                         crc: string -> Checksum, init: map<Checksum, NodeId>, base: nat, r: Reg)
    requires i < |models| == |cs| && RegInv(models, crc, init, base, i, st) && base <= |st.scene.nodes| && MeshesBare(models, cs)
    requires r == RegisterOne(st, models, i, cs, settings, crc)
    ensures RegInv(models, crc, init, base, i + 1, r)
  {
    RegisterOneEffect(st, models, i, cs, settings, crc);
    if !Skipped(models[i], crc, st.crcToNode, settings) {
      var id := |st.scene.nodes|;
      var added := cs[i].attribute.Some?;
      assert TableFits(r.scene, r.crcToNode);
      if added {
        assert Recorded(models, crc, r, (i, id));
      }
      ExtendValid(models, crc, base, st, r, i, added);
    }
  }

  /**
   * The invariant survives a step that appends one node, keeps the older nodes,
   * and records at most that node.
   */
  lemma ExtendValid(models: seq<Model>, crc: string -> Checksum, base: nat, st: Reg, r: Reg, i: nat, added: bool)
    requires RegValid(models, crc, base, st) && base <= |st.scene.nodes|
    requires forall j :: 0 <= j < |st.processing| ==> st.processing[j].0 < i
    requires |r.scene.nodes| == |st.scene.nodes| + 1 && TableFits(r.scene, r.crcToNode)
    requires forall n :: 0 < n < |st.scene.nodes| ==> r.scene.nodes[n] == st.scene.nodes[n]
    requires st.crcToNode.Keys <= r.crcToNode.Keys
    requires r.processing == st.processing + (if added then [(i, |st.scene.nodes|)] else [])
    requires added ==> Recorded(models, crc, r, (i, |st.scene.nodes|))
    ensures RegValid(models, crc, base, r)
    ensures forall j :: 0 <= j < |r.processing| ==> r.processing[j].0 < i + 1
  {
    forall j | 0 <= j < |st.processing|
      ensures Recorded(models, crc, r, st.processing[j])
    {
      RecordedKept(models, crc, st, r, st.processing[j]);
    }
    assert forall j :: 0 <= j < |st.processing| ==> r.processing[j] == st.processing[j];
  }

  /** A recorded entry stays recorded when older nodes stay put and the table only grows. */
  lemma RecordedKept(models: seq<Model>, crc: string -> Checksum, st: Reg, r: Reg, e: (nat, NodeId))
    requires Recorded(models, crc, st, e)
    requires |st.scene.nodes| <= |r.scene.nodes| && r.scene.nodes[e.1] == st.scene.nodes[e.1]
    requires st.crcToNode.Keys <= r.crcToNode.Keys
    ensures Recorded(models, crc, r, e)
  {
  }

  lemma RegisterOneFilters(st: Reg, models: seq<Model>, i: nat, cs: seq<Converted>, settings: Settings,
                           crc: string -> Checksum, init: map<Checksum, NodeId>, base: nat, r: Reg)
    requires i < |models| == |cs| && |st.scene.nodes| > 0 && r == RegisterOne(st, models, i, cs, settings, crc)
    requires RegInv(models, crc, init, base, i, st)
    requires FiltersRespected(models, crc, settings, init, st.processing)
    ensures FiltersRespected(models, crc, settings, init, r.processing)
  {
    forall j | 0 <= j < |st.processing|
      ensures st.processing[j].0 < |models| && crc(models[st.processing[j].0].name) in st.crcToNode
    {
      assert Recorded(models, crc, st, st.processing[j]);
    }
    RegisterOneEffect(st, models, i, cs, settings, crc);
    if !Skipped(models[i], crc, st.crcToNode, settings) && cs[i].attribute.Some? {
      assert r.processing == st.processing + [(i, |st.scene.nodes|)];
      FiltersAppend(models, crc, settings, init, st.processing, (i, |st.scene.nodes|));
    }
  }

  lemma FiltersAppend(models: seq<Model>, crc: string -> Checksum, settings: Settings,
                      init: map<Checksum, NodeId>, ps: seq<(nat, NodeId)>, e: (nat, NodeId))
    requires FiltersRespected(models, crc, settings, init, ps)
    requires e.0 < |models| && !Intersects(models[e.0].purpose, settings.ignore)
    requires Intersects(models[e.0].purpose, SkeletonMask) ==>
      crc(models[e.0].name) !in init && forall j :: 0 <= j < |ps| && ps[j].0 < |models| ==> crc(models[ps[j].0].name) != crc(models[e.0].name)
    ensures FiltersRespected(models, crc, settings, init, ps + [e])
  {
    var qs := ps + [e];
    forall j, j' | 0 <= j < j' < |qs| && qs[j].0 < |models| && qs[j'].0 < |models| &&
                   Intersects(models[qs[j'].0].purpose, SkeletonMask)
      ensures crc(models[qs[j].0].name) != crc(models[qs[j'].0].name)
    {
      if j' == |ps| {
        assert qs[j] == ps[j];
      } else {
        assert qs[j] == ps[j] && qs[j'] == ps[j'];
      }
    }
  }

  lemma RegisterOneComplete(st: Reg, models: seq<Model>, i: nat, cs: seq<Converted>, settings: Settings,
                            crc: string -> Checksum, r: Reg)
    requires i < |models| == |cs| && |st.scene.nodes| > 0 && r == RegisterOne(st, models, i, cs, settings, crc)
    requires Complete(models, i, cs, settings, crc, st)
    ensures Complete(models, i + 1, cs, settings, crc, r)
  {
    RegisterOneEffect(st, models, i, cs, settings, crc);
    forall i' | 0 <= i' < i + 1 && !Intersects(models[i'].purpose, settings.ignore) &&
      cs[i'].attribute.Some?
      ensures Processed(r, i') || (Intersects(models[i'].purpose, SkeletonMask) && crc(models[i'].name) in r.crcToNode)
    {
      if i' == i {
        if !Skipped(models[i], crc, st.crcToNode, settings) {
          assert r.processing[|r.processing| - 1].0 == i;
        }
      } else if Processed(st, i') {
        var j :| 0 <= j < |st.processing| && st.processing[j].0 == i';
        assert r.processing[j] == st.processing[j];
      }
    }
  }
}
