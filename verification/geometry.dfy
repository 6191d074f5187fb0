/**
 * The geometry assembler: a model's segments become one mesh whose control
 * points, normals and UVs are the segments' lists laid end to end, and whose
 * polygons index the combined control-point list. Materials are memoised per
 * mesh node by name.
 */
module Geometry {

  import opened Wrappers
  import opened Msh
  import opened Scenes
  import opened Diagnostics

  /**
   * Where the two converters differ: the session converter honours the
   * Materials chunk filter and warns about out-of-range material indices; the
   * single-shot converter does neither.
   */
  datatype MaterialPolicy = MaterialPolicy(skipMaterials: bool, warnOutOfRange: bool)

  // ---------------------------------------------------------------- material slots

  /** The node's material lookup by name: the first slot with that name, or -1. */
  function SlotIndex(slots: seq<MaterialSlot>, name: string): (r: int)
    ensures -1 <= r < |slots|
    ensures r >= 0 ==> slots[r].name == name && forall k :: 0 <= k < r ==> slots[k].name != name
    ensures r == -1 ==> forall k :: 0 <= k < |slots| ==> slots[k].name != name
  {
    if |slots| == 0 then -1
    else if slots[0].name == name then 0
    else
      var r := SlotIndex(slots[1..], name);
      if r == -1 then -1 else r + 1
  }

  /** Slots appended after a name's first slot do not move that slot. */
  lemma SlotIndexStable(slots: seq<MaterialSlot>, extra: seq<MaterialSlot>, name: string)
    requires SlotIndex(slots, name) >= 0
    ensures SlotIndex(slots + extra, name) == SlotIndex(slots, name)
  {
    assert forall k :: 0 <= k < |slots| ==> (slots + extra)[k] == slots[k];
  }

  function ColorToFbx(c: Color): Vector3 {
    Vector3(c.red, c.green, c.blue)
  }

  /** The Phong material and its diffuse texture created for `m`. */
  function NewSlot(m: Material): MaterialSlot {
    MaterialSlot(m.name, ColorToFbx(m.diffuse), ColorToFbx(m.ambient), ColorToFbx(m.specular), m.texture0)
  }

  /**
   * Resolves `m` to a slot of the node: an existing slot of the same name is
   * reused, otherwise a new slot is appended. Returns the slot index and the
   * node's slots afterwards.
   */
  function AddMaterial(slots: seq<MaterialSlot>, m: Material): (r: (int, seq<MaterialSlot>))
    ensures slots <= r.1 && |r.1| <= |slots| + 1
    ensures 0 <= r.0 < |r.1| && SlotIndex(r.1, m.name) == r.0
    ensures SlotIndex(slots, m.name) >= 0 ==> r.1 == slots
    ensures SlotIndex(slots, m.name) < 0 ==> r.1 == slots + [NewSlot(m)]
  {
    var i := SlotIndex(slots, m.name);
    if i >= 0 then (i, slots)
    else
      var slots' := slots + [NewSlot(m)];
      assert SlotIndex(slots', m.name) == |slots| by {
        assert forall k :: 0 <= k < |slots| ==> slots'[k] == slots[k];
        assert slots'[|slots|].name == m.name;
      }
      (|slots|, slots')
  }

  /** Adding the same material again yields the same index and no new slot. */
  lemma AddMaterialIdempotent(slots: seq<MaterialSlot>, m: Material)
    ensures AddMaterial(AddMaterial(slots, m).1, m) == AddMaterial(slots, m)
  {
  }

  // ---------------------------------------------------------------- per-polygon material

  /** True when a segment's material index names a material that is to be converted. */
  predicate Resolvable(seg: Segment, materials: seq<Material>, policy: MaterialPolicy) {
    seg.materialIndex < |materials| && !policy.skipMaterials
  }

  /** The material lookup done for every polygon of `seg`: slot index, slots afterwards, log. */
  function PolygonMaterial(slots: seq<MaterialSlot>, seg: Segment, materials: seq<Material>, policy: MaterialPolicy)
    : (r: (int, seq<MaterialSlot>, Log))
    ensures slots <= r.1
    ensures Resolvable(seg, materials, policy) ==>
      r.0 >= 0 && r.0 == SlotIndex(r.1, materials[seg.materialIndex].name)
    ensures !Resolvable(seg, materials, policy) ==> r.0 == -1 && r.1 == slots
    ensures r.2 == (if seg.materialIndex >= |materials| && policy.warnOutOfRange
                    then [Warn(MaterialIndexOutOfRange(seg.materialIndex, |materials|))] else [])
  {
    if seg.materialIndex < |materials| then
      if policy.skipMaterials then (-1, slots, [])
      else
        var (i, slots') := AddMaterial(slots, materials[seg.materialIndex]);
        (i, slots', [])
    else
      (-1, slots, if policy.warnOutOfRange then [Warn(MaterialIndexOutOfRange(seg.materialIndex, |materials|))] else [])
  }

  /** Local polygon indices shifted to global control-point indices. */
  function Rebase(p: seq<nat>, offset: nat): (r: seq<nat>)
    ensures |r| == |p| && forall k :: 0 <= k < |p| ==> r[k] == p[k] + offset
  {
    seq(|p|, k requires 0 <= k < |p| => p[k] + offset)
  }

  /**
   * The first `n` polygons of `seg`, each after its own material lookup.
   * Because the lookup is memoised, all of them get the index of the first
   * lookup and only that first lookup can add a slot.
   */
  function EmitPolygons(seg: Segment, materials: seq<Material>, policy: MaterialPolicy, offset: nat,
                        slots: seq<MaterialSlot>, n: nat): (r: (seq<Polygon>, seq<MaterialSlot>, Log))
    requires n <= |seg.polygons|
    ensures |r.0| == n
    ensures n == 0 ==> r.1 == slots
    ensures n > 0 ==> r.1 == PolygonMaterial(slots, seg, materials, policy).1
    ensures forall k :: 0 <= k < n ==>
      r.0[k] == Polygon(PolygonMaterial(slots, seg, materials, policy).0, Rebase(seg.polygons[k], offset))
    ensures |r.2| == n * |PolygonMaterial(slots, seg, materials, policy).2|
    ensures forall d :: d in r.2 ==> d in PolygonMaterial(slots, seg, materials, policy).2
  {
    if n == 0 then ([], slots, [])
    else
      var (ps, slots1, log1) := EmitPolygons(seg, materials, policy, offset, slots, n - 1);
      var (m, slots2, log2) := PolygonMaterial(slots1, seg, materials, policy);
      PolygonMaterialIdempotent(slots, seg, materials, policy);
      (ps + [Polygon(m, Rebase(seg.polygons[n - 1], offset))], slots2, log1 + log2)
  }

  lemma PolygonMaterialIdempotent(slots: seq<MaterialSlot>, seg: Segment, materials: seq<Material>, policy: MaterialPolicy)
    ensures var r := PolygonMaterial(slots, seg, materials, policy);
            PolygonMaterial(r.1, seg, materials, policy) == r
  {
    if Resolvable(seg, materials, policy) {
      AddMaterialIdempotent(slots, materials[seg.materialIndex]);
    }
  }

  // ---------------------------------------------------------------- segments

  /** The invariant whose violation aborts a model's mesh. */
  predicate Consistent(seg: Segment) {
    |seg.vertices| == |seg.normals|
  }

  /** UVs are taken only for vertex indices below the segment's UV count. */
  function UvCount(seg: Segment): nat {
    if |seg.uvs| < |seg.vertices| then |seg.uvs| else |seg.vertices|
  }

  /** Total vertices of the segments before segment `i`. */
  function VertexOffset(segs: seq<Segment>, i: nat): nat
    requires i <= |segs|
  {
    if i == 0 then 0 else VertexOffset(segs, i - 1) + |segs[i - 1].vertices|
  }

  function UvOffset(segs: seq<Segment>, i: nat): nat
    requires i <= |segs|
  {
    if i == 0 then 0 else UvOffset(segs, i - 1) + UvCount(segs[i - 1])
  }

  function PolygonOffset(segs: seq<Segment>, i: nat): nat
    requires i <= |segs|
  {
    if i == 0 then 0 else PolygonOffset(segs, i - 1) + |segs[i - 1].polygons|
  }

  /** The polygon material the finished mesh shows for segment `seg`. */
  function SegmentMaterial(seg: Segment, materials: seq<Material>, policy: MaterialPolicy, slots: seq<MaterialSlot>): int {
    if Resolvable(seg, materials, policy) then SlotIndex(slots, materials[seg.materialIndex].name) else -1
  }

  /** Every segment among the first `n` that emitted polygons has its material in `slots`. */
  predicate Covered(segs: seq<Segment>, n: nat, materials: seq<Material>, policy: MaterialPolicy, slots: seq<MaterialSlot>)
    requires n <= |segs|
  {
    forall i :: 0 <= i < n && |segs[i].polygons| > 0 && Resolvable(segs[i], materials, policy) ==>
      SlotIndex(slots, materials[segs[i].materialIndex].name) >= 0
  }

  /** The element at position `k` of `s`, if there is one. */
  function At<T>(s: seq<T>, k: int): (r: Option<T>)
    ensures r.Some? <==> 0 <= k < |s|
    ensures r.Some? ==> r.value == s[k]
  {
    if 0 <= k < |s| then Some(s[k]) else None
  }

  /** Vertex `j` of segment `i` sits at position VertexOffset(segs, i) + j, and so does its normal. */
  predicate VerticesPlaced(segs: seq<Segment>, n: nat, cps: seq<Vector3>, normals: seq<Vector3>)
    requires n <= |segs|
  {
    && (forall i, j :: 0 <= i < n && 0 <= j < |segs[i].vertices| ==>
          At(cps, VertexOffset(segs, i) + j) == Some(segs[i].vertices[j]))
    && (forall i, j :: 0 <= i < n && 0 <= j < |segs[i].normals| ==>
          At(normals, VertexOffset(segs, i) + j) == Some(segs[i].normals[j]))
  }

  /** UV `j` of segment `i` sits at UvOffset(segs, i) + j: the UV list is not aligned with the vertices. */
  predicate UvsPlaced(segs: seq<Segment>, n: nat, uvs: seq<Vector2>)
    requires n <= |segs|
  {
    forall i, j :: 0 <= i < n && 0 <= j < UvCount(segs[i]) ==>
      At(uvs, UvOffset(segs, i) + j) == Some(segs[i].uvs[j])
  }

  /** Polygon `j` of segment `i` sits at PolygonOffset(segs, i) + j, rebased and with its segment's slot. */
  predicate PolygonsPlaced(segs: seq<Segment>, n: nat, materials: seq<Material>, policy: MaterialPolicy,
                           slots: seq<MaterialSlot>, polygons: seq<Polygon>)
    requires n <= |segs|
  {
    forall i, j :: 0 <= i < n && 0 <= j < |segs[i].polygons| ==>
      At(polygons, PolygonOffset(segs, i) + j) ==
      Some(Polygon(SegmentMaterial(segs[i], materials, policy, slots), Rebase(segs[i].polygons[j], VertexOffset(segs, i))))
  }

  /** Every local polygon index of the first `n` segments names a vertex of its segment. */
  predicate LocalIndicesValid(segs: seq<Segment>, n: nat)
    requires n <= |segs|
  {
    forall i, j, k :: 0 <= i < n && 0 <= j < |segs[i].polygons| && 0 <= k < |segs[i].polygons[j]| ==>
      segs[i].polygons[j][k] < |segs[i].vertices|
  }

  predicate IndicesInRange(polygons: seq<Polygon>, count: nat) {
    forall p, k :: 0 <= p < |polygons| && 0 <= k < |polygons[p].indices| ==> polygons[p].indices[k] < count
  }

  /** The running state of the segment loop. */
  datatype Build = Build(
    failed: bool,
    controlPoints: seq<Vector3>,
    normals: seq<Vector3>,
    uvs: seq<Vector2>,
    polygons: seq<Polygon>,
    slots: seq<MaterialSlot>,
    log: Log,
    offset: nat)

  /** The vertex loop over one segment: vertices, normals, and UVs while `j` is below the UV count. */
  function CopyVertices(seg: Segment, n: nat): (r: (seq<Vector3>, seq<Vector3>, seq<Vector2>))
    requires Consistent(seg) && n <= |seg.vertices|
    ensures r.0 == seg.vertices[..n] && r.1 == seg.normals[..n]
    ensures |r.2| == (if |seg.uvs| < n then |seg.uvs| else n)
    ensures forall j :: 0 <= j < |r.2| ==> r.2[j] == seg.uvs[j]
  {
    if n == 0 then ([], [], [])
    else
      var (vs, ns, us) := CopyVertices(seg, n - 1);
      assert seg.vertices[..n] == seg.vertices[..n - 1] + [seg.vertices[n - 1]];
      assert seg.normals[..n] == seg.normals[..n - 1] + [seg.normals[n - 1]];
      (vs + [seg.vertices[n - 1]], ns + [seg.normals[n - 1]],
       if n - 1 < |seg.uvs| then us + [seg.uvs[n - 1]] else us)
  }

  /** One pass of the segment loop; an inconsistent segment aborts the mesh. */
  function AddSegment(b: Build, seg: Segment, index: nat, materials: seq<Material>, policy: MaterialPolicy): (r: Build)
    requires !b.failed
    ensures r.failed <==> !Consistent(seg)
    ensures b.slots <= r.slots
  {
    if !Consistent(seg) then
      b.(failed := true, log := b.log + [Warn(InconsistentSegment(index))])
    else
      var (vs, ns, us) := CopyVertices(seg, |seg.vertices|);
      var (ps, slots', log') := EmitPolygons(seg, materials, policy, b.offset, b.slots, |seg.polygons|);
      Build(false, b.controlPoints + vs, b.normals + ns, b.uvs + us, b.polygons + ps, slots', b.log + log',
            b.offset + |seg.vertices|)
  }

  /** What the segment loop has built after the first `n` segments when none was inconsistent. */
  predicate Assembled(segs: seq<Segment>, n: nat, materials: seq<Material>, policy: MaterialPolicy, b: Build)
    requires n <= |segs|
  {
    && |b.controlPoints| == VertexOffset(segs, n) == |b.normals| == b.offset
    && |b.uvs| == UvOffset(segs, n)
    && |b.polygons| == PolygonOffset(segs, n)
    && VerticesPlaced(segs, n, b.controlPoints, b.normals)
    && UvsPlaced(segs, n, b.uvs)
    && Covered(segs, n, materials, policy, b.slots)
    && PolygonsPlaced(segs, n, materials, policy, b.slots, b.polygons)
    && (LocalIndicesValid(segs, n) ==> IndicesInRange(b.polygons, |b.controlPoints|))
  }

  /** The segment loop over the first `n` segments. */
  function AssembleSegments(segs: seq<Segment>, materials: seq<Material>, policy: MaterialPolicy,
                            slots: seq<MaterialSlot>, n: nat): (r: Build)
    requires n <= |segs|
    ensures !r.failed <==> forall i :: 0 <= i < n ==> Consistent(segs[i])
    ensures slots <= r.slots
  {
    hide AddSegment;
    if n == 0 then Build(false, [], [], [], [], slots, [], 0)
    else
      var b := AssembleSegments(segs, materials, policy, slots, n - 1);
      if b.failed then b
      else AddSegment(b, segs[n - 1], n - 1, materials, policy)
  }

  /**
   * When no segment is inconsistent, the loop's output holds every segment's
   * vertices, normals, UVs and polygons at its offsets, and a slot for every
   * material a polygon refers to.
   */
  lemma {:induction false} AssembleSegmentsFacts(segs: seq<Segment>, materials: seq<Material>, policy: MaterialPolicy,
                                                 slots: seq<MaterialSlot>, n: nat, r: Build)
    requires n <= |segs| && r == AssembleSegments(segs, materials, policy, slots, n)
    ensures !r.failed ==> Assembled(segs, n, materials, policy, r)
  {
    // The step's own definition is only needed inside AddSegmentFacts.
    hide AddSegment;
    if n > 0 && !r.failed {
      var b := AssembleSegments(segs, materials, policy, slots, n - 1);
      AssembleSegmentsFacts(segs, materials, policy, slots, n - 1, b);
      assert !b.failed && r == AddSegment(b, segs[n - 1], n - 1, materials, policy);
      AddSegmentFacts(segs, n, materials, policy, b, r);
    }
  }

  lemma AddSegmentFacts(segs: seq<Segment>, n: nat, materials: seq<Material>, policy: MaterialPolicy, b: Build, r: Build)
    requires 0 < n <= |segs| && !b.failed && Assembled(segs, n - 1, materials, policy, b)
    requires r == AddSegment(b, segs[n - 1], n - 1, materials, policy) && !r.failed
    ensures Assembled(segs, n, materials, policy, r)
  {
    var seg := segs[n - 1];
    var (vs, ns, us) := CopyVertices(seg, |seg.vertices|);
    assert seg.vertices[..|seg.vertices|] == seg.vertices && seg.normals[..|seg.vertices|] == seg.normals;
    var (ps, slots', log') := EmitPolygons(seg, materials, policy, b.offset, b.slots, |seg.polygons|);
    assert r.controlPoints == b.controlPoints + vs && r.normals == b.normals + ns && r.uvs == b.uvs + us;
    assert r.polygons == b.polygons + ps && r.slots == slots';
    VerticesStep(segs, n, b.controlPoints, b.normals);
    UvsStep(segs, n, b.uvs, us);
    var m := PolygonMaterial(b.slots, seg, materials, policy).0;
    CoveredStep(segs, n, materials, policy, b.slots, slots');
    PolygonsStep(segs, n, materials, policy, b.slots, slots', b.polygons, ps, m);
    if LocalIndicesValid(segs, n) {
      IndicesStep(segs, n, b.polygons, ps, |b.controlPoints|);
    }
  }

  lemma VerticesStep(segs: seq<Segment>, n: nat, cps: seq<Vector3>, normals: seq<Vector3>)
    requires 0 < n <= |segs| && Consistent(segs[n - 1])
    requires |cps| == VertexOffset(segs, n - 1) == |normals|
    requires VerticesPlaced(segs, n - 1, cps, normals)
    ensures VerticesPlaced(segs, n, cps + segs[n - 1].vertices, normals + segs[n - 1].normals)
  {
    var cps', normals' := cps + segs[n - 1].vertices, normals + segs[n - 1].normals;
    forall i, j | 0 <= i < n && 0 <= j < |segs[i].vertices|
      ensures At(cps', VertexOffset(segs, i) + j) == Some(segs[i].vertices[j])
    {
      if i < n - 1 {
        assert At(cps, VertexOffset(segs, i) + j) == Some(segs[i].vertices[j]);
      }
    }
    forall i, j | 0 <= i < n && 0 <= j < |segs[i].normals|
      ensures At(normals', VertexOffset(segs, i) + j) == Some(segs[i].normals[j])
    {
      if i < n - 1 {
        assert At(normals, VertexOffset(segs, i) + j) == Some(segs[i].normals[j]);
      }
    }
  }

  lemma UvsStep(segs: seq<Segment>, n: nat, uvs: seq<Vector2>, us: seq<Vector2>)
    requires 0 < n <= |segs|
    requires |uvs| == UvOffset(segs, n - 1) && UvsPlaced(segs, n - 1, uvs)
    requires |us| == UvCount(segs[n - 1]) && forall j :: 0 <= j < |us| ==> us[j] == segs[n - 1].uvs[j]
    ensures UvsPlaced(segs, n, uvs + us)
  {
    forall i, j | 0 <= i < n && 0 <= j < UvCount(segs[i])
      ensures At(uvs + us, UvOffset(segs, i) + j) == Some(segs[i].uvs[j])
    {
      if i < n - 1 {
        assert At(uvs, UvOffset(segs, i) + j) == Some(segs[i].uvs[j]);
      }
    }
  }

  lemma CoveredStep(segs: seq<Segment>, n: nat, materials: seq<Material>, policy: MaterialPolicy,
                    slots: seq<MaterialSlot>, slots': seq<MaterialSlot>)
    requires 0 < n <= |segs| && Covered(segs, n - 1, materials, policy, slots)
    requires |segs[n - 1].polygons| > 0 ==> slots' == PolygonMaterial(slots, segs[n - 1], materials, policy).1
    requires |segs[n - 1].polygons| == 0 ==> slots' == slots
    ensures slots <= slots' && Covered(segs, n, materials, policy, slots')
    ensures forall i :: 0 <= i < n - 1 && |segs[i].polygons| > 0 ==>
      SegmentMaterial(segs[i], materials, policy, slots') == SegmentMaterial(segs[i], materials, policy, slots)
  {
    forall i | 0 <= i < n - 1 && |segs[i].polygons| > 0 && Resolvable(segs[i], materials, policy)
      ensures SlotIndex(slots', materials[segs[i].materialIndex].name) == SlotIndex(slots, materials[segs[i].materialIndex].name)
    {
      SlotIndexStable(slots, slots'[|slots|..], materials[segs[i].materialIndex].name);
      assert slots + slots'[|slots|..] == slots';
    }
  }

  lemma PolygonsStep(segs: seq<Segment>, n: nat, materials: seq<Material>, policy: MaterialPolicy,
                     slots: seq<MaterialSlot>, slots': seq<MaterialSlot>, polygons: seq<Polygon>, ps: seq<Polygon>, m: int)
    requires 0 < n <= |segs|
    requires |polygons| == PolygonOffset(segs, n - 1) && PolygonsPlaced(segs, n - 1, materials, policy, slots, polygons)
    requires forall i :: 0 <= i < n - 1 && |segs[i].polygons| > 0 ==>
      SegmentMaterial(segs[i], materials, policy, slots') == SegmentMaterial(segs[i], materials, policy, slots)
    requires |segs[n - 1].polygons| > 0 ==> slots' == PolygonMaterial(slots, segs[n - 1], materials, policy).1
    requires m == PolygonMaterial(slots, segs[n - 1], materials, policy).0
    requires |ps| == |segs[n - 1].polygons|
    requires forall k :: 0 <= k < |ps| ==> ps[k] == Polygon(m, Rebase(segs[n - 1].polygons[k], VertexOffset(segs, n - 1)))
    ensures PolygonsPlaced(segs, n, materials, policy, slots', polygons + ps)
  {
    var seg := segs[n - 1];
    if |seg.polygons| > 0 {
      assert m == SegmentMaterial(seg, materials, policy, slots');
    }
    forall i, j | 0 <= i < n && 0 <= j < |segs[i].polygons|
      ensures At(polygons + ps, PolygonOffset(segs, i) + j) ==
         Some(Polygon(SegmentMaterial(segs[i], materials, policy, slots'), Rebase(segs[i].polygons[j], VertexOffset(segs, i))))
    {
      if i < n - 1 {
        assert At(polygons, PolygonOffset(segs, i) + j) ==
          Some(Polygon(SegmentMaterial(segs[i], materials, policy, slots), Rebase(segs[i].polygons[j], VertexOffset(segs, i))));
      }
    }
  }

  lemma IndicesStep(segs: seq<Segment>, n: nat, polygons: seq<Polygon>, ps: seq<Polygon>, count: nat)
    requires 0 < n <= |segs| && LocalIndicesValid(segs, n)
    requires IndicesInRange(polygons, count) && count == VertexOffset(segs, n - 1)
    requires |ps| == |segs[n - 1].polygons|
    requires forall k :: 0 <= k < |ps| ==> ps[k].indices == Rebase(segs[n - 1].polygons[k], count)
    ensures IndicesInRange(polygons + ps, count + |segs[n - 1].vertices|)
  {
    var all := polygons + ps;
    forall p, k | 0 <= p < |all| && 0 <= k < |all[p].indices|
      ensures all[p].indices[k] < count + |segs[n - 1].vertices|
    {
      if p >= |polygons| {
        var j := p - |polygons|;
        assert all[p] == ps[j];
        assert segs[n - 1].polygons[j][k] < |segs[n - 1].vertices|;
      } else {
        assert all[p] == polygons[p];
      }
    }
  }

  /** The outcome of converting one model's geometry. */
  datatype MeshResult = MeshResult(mesh: Option<MeshData>, slots: seq<MaterialSlot>, log: Log)

  /**
   * Builds the mesh of `model`. On an inconsistent segment no mesh results,
   * but material slots added for earlier segments stay on the node.
   */
  function ModelToMesh(model: Model, materials: seq<Material>, policy: MaterialPolicy, slots: seq<MaterialSlot>)
    : (r: MeshResult)
    ensures r.mesh.Some? <==> forall i :: 0 <= i < |model.segments| ==> Consistent(model.segments[i])
    ensures slots <= r.slots
    ensures r.mesh.Some? ==> r.mesh.value.name == model.name && r.mesh.value.skins == []
  {
    var segs := model.segments;
    var b := AssembleSegments(segs, materials, policy, slots, |segs|);
    if b.failed then MeshResult(None, b.slots, b.log)
    else MeshResult(Some(MeshData(model.name, b.controlPoints, b.normals, b.uvs, b.polygons, [])), b.slots, b.log)
  }

  /** A built mesh holds every segment's geometry at its offsets, with slots for the materials its polygons use. */
  lemma ModelToMeshMatches(model: Model, materials: seq<Material>, policy: MaterialPolicy, slots: seq<MaterialSlot>)
    ensures var r := ModelToMesh(model, materials, policy, slots);
      r.mesh.Some? ==> MeshMatches(model.segments, materials, policy, r.slots, r.mesh.value)
  {
    AssembleSegmentsFacts(model.segments, materials, policy, slots, |model.segments|,
                          AssembleSegments(model.segments, materials, policy, slots, |model.segments|));
  }

  /** What a successfully assembled mesh promises about its segments. */
  predicate MeshMatches(segs: seq<Segment>, materials: seq<Material>, policy: MaterialPolicy,
                        slots: seq<MaterialSlot>, m: MeshData)
  {
    Assembled(segs, |segs|, materials, policy,
              Build(false, m.controlPoints, m.normals, m.uvs, m.polygons, slots, [], |m.controlPoints|))
  }
}
