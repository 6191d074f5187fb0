/**
 * Vertex weights to skin clusters. Every non-zero weight of a segment names,
 * through the model's envelope, a bone model of the file; the weight is added
 * to that bone's cluster, which is linked to the parent of the bone's node
 * (a bone in the source format ends where its weights apply; in the output
 * it starts there). Clusters are created on first use and shared by all the
 * meshes of one file.
 */
module Weights {

  import opened Wrappers
  import opened Msh
  import opened Scenes
  import opened Diagnostics
  import Geometry

  /** What the weight pass reads: the envelope of the model, the file's models, the CRC table. */
  datatype WeightContext = WeightContext(
    envelope: seq<nat>,
    models: seq<Model>,
    crcToNode: map<Checksum, NodeId>,
    crc: string -> Checksum)

  /** The CRC table only holds nodes of the scene. */
  predicate LookupValid(ctx: WeightContext, nodes: seq<Node>) {
    forall c :: c in ctx.crcToNode ==> ctx.crcToNode[c] < |nodes|
  }

  /** The node a bone model's cluster links to: the parent of the bone's node, if both exist. */
  function BoneLink(b: nat, ctx: WeightContext, nodes: seq<Node>): Option<NodeId>
    requires LookupValid(ctx, nodes)
  {
    if b < |ctx.models| && ctx.crc(ctx.models[b].name) in ctx.crcToNode then
      nodes[ctx.crcToNode[ctx.crc(ctx.models[b].name)]].parent
    else None
  }

  /** The verdict on one weight: ignored, rejected with a warning, or accepted for a bone. */
  datatype Resolution = Skip | Reject(event: Event) | Accept(bone: nat, link: NodeId)

  /** The checks one weight goes through, in the converter's order. */
  function Resolve(w: BoneWeight, ctx: WeightContext, nodes: seq<Node>): (r: Resolution)
    requires LookupValid(ctx, nodes)
    ensures r.Accept? <==>
      && w.value != 0.0
      && w.envelopeIndex < |ctx.envelope|
      && BoneLink(ctx.envelope[w.envelopeIndex], ctx, nodes).Some?
    ensures r.Accept? ==> r.bone == ctx.envelope[w.envelopeIndex] && BoneLink(r.bone, ctx, nodes) == Some(r.link)
    ensures r.Skip? <==> w.value == 0.0
  {
    if w.value == 0.0 then Skip
    else if w.envelopeIndex >= |ctx.envelope| then
      Reject(EnvelopeIndexOutOfRange(w.envelopeIndex, |ctx.envelope|))
    else
      var b := ctx.envelope[w.envelopeIndex];
      if b >= |ctx.models| then Reject(ModelIndexOutOfRange(b, |ctx.models|))
      else
        var bone := ctx.models[b];
        var crc := ctx.crc(bone.name);
        if crc !in ctx.crcToNode then Reject(BoneNotFound(bone.name))
        else
          match nodes[ctx.crcToNode[crc]].parent
          case None => Reject(BoneParentNull(bone.parent))
          case Some(p) => Accept(b, p)
  }

  /** The clusters built so far and the bone-to-cluster table of the current file. */
  datatype SkinState = SkinState(clusters: seq<Cluster>, boneToCluster: map<nat, ClusterId>, log: Log)

  /** The table names existing clusters, one per bone. */
  predicate Wf(st: SkinState) {
    && (forall b :: b in st.boneToCluster ==> st.boneToCluster[b] < |st.clusters|)
    && (forall b1, b2 :: b1 in st.boneToCluster && b2 in st.boneToCluster && b1 != b2 ==>
          st.boneToCluster[b1] != st.boneToCluster[b2])
  }

  /** The entries of bone `b`'s cluster, empty while it has none. */
  function Entries(st: SkinState, b: nat): seq<WeightEntry>
    requires Wf(st)
  {
    if b in st.boneToCluster then st.clusters[st.boneToCluster[b]].entries else []
  }

  /** How `r` relates to an earlier state `st`: bones keep their clusters, unowned clusters are untouched. */
  predicate Extends(st: SkinState, r: SkinState) {
    && |st.clusters| <= |r.clusters|
    && (forall b :: b in st.boneToCluster ==> b in r.boneToCluster && r.boneToCluster[b] == st.boneToCluster[b])
    && (forall c :: 0 <= c < |st.clusters| && c !in r.boneToCluster.Values ==> r.clusters[c] == st.clusters[c])
  }

  /** A cluster created during the pass for bone `b`. */
  predicate NewCluster(r: SkinState, b: nat, ctx: WeightContext, nodes: seq<Node>)
    requires Wf(r) && b in r.boneToCluster && LookupValid(ctx, nodes)
  {
    && b < |ctx.models|
    && r.clusters[r.boneToCluster[b]].name == ctx.models[b].name + "_Cluster"
    && Some(r.clusters[r.boneToCluster[b]].link) == BoneLink(b, ctx, nodes)
  }

  /** What an accepted weight adds to bone `b`'s cluster. */
  function Gain(res: Resolution, b: nat, entry: WeightEntry): seq<WeightEntry> {
    if res.Accept? && res.bone == b then [entry] else []
  }

  /**
   * What processing `items` did to `st`, giving `r`: bones keep their
   * clusters, a bone has a cluster exactly when it had one or received an
   * entry, each cluster's entries grew by exactly the bone's contribution,
   * and new clusters are named after and linked for their bone.
   */
  ghost predicate Accumulates(st: SkinState, r: SkinState, items: seq<(BoneWeight, nat)>, ctx: WeightContext, nodes: seq<Node>)
    requires Wf(st) && Wf(r) && LookupValid(ctx, nodes)
  {
    && Extends(st, r)
    && KeepsIdentity(st, r)
    && Membership(st, r, items, ctx, nodes)
    && EntriesGrow(st, r, items, ctx, nodes)
    && (forall b :: b in r.boneToCluster && b !in st.boneToCluster ==> NewCluster(r, b, ctx, nodes))
  }

  /** Existing clusters keep their name and link. */
  predicate KeepsIdentity(st: SkinState, r: SkinState)
    requires Wf(st) && Wf(r)
  {
    forall b :: b in st.boneToCluster && b in r.boneToCluster ==>
      && r.clusters[r.boneToCluster[b]].name == st.clusters[st.boneToCluster[b]].name
      && r.clusters[r.boneToCluster[b]].link == st.clusters[st.boneToCluster[b]].link
  }

  /** A bone has a cluster exactly when it had one or received an entry. */
  ghost predicate Membership(st: SkinState, r: SkinState, items: seq<(BoneWeight, nat)>, ctx: WeightContext, nodes: seq<Node>)
    requires LookupValid(ctx, nodes)
  {
    forall b :: b in r.boneToCluster <==> b in st.boneToCluster || |Contribution(items, b, ctx, nodes)| > 0
  }

  /** Each cluster's entries grew by exactly its bone's contribution. */
  predicate EntriesGrow(st: SkinState, r: SkinState, items: seq<(BoneWeight, nat)>, ctx: WeightContext, nodes: seq<Node>)
    requires Wf(st) && Wf(r) && LookupValid(ctx, nodes)
  {
    forall b :: b in r.boneToCluster ==> Entries(r, b) == Entries(st, b) + Contribution(items, b, ctx, nodes)
  }

  /** What one weight's verdict `res` did to `st`, giving `r`. */
  ghost predicate StepEffect(st: SkinState, r: SkinState, res: Resolution, entry: WeightEntry, ctx: WeightContext, nodes: seq<Node>)
    requires Wf(st) && Wf(r) && LookupValid(ctx, nodes)
  {
    && Extends(st, r)
    && KeepsIdentity(st, r)
    && (forall b :: b in r.boneToCluster <==> b in st.boneToCluster || |Gain(res, b, entry)| > 0)
    && (forall b :: b in r.boneToCluster ==> Entries(r, b) == Entries(st, b) + Gain(res, b, entry))
    && (forall b :: b in r.boneToCluster && b !in st.boneToCluster ==> NewCluster(r, b, ctx, nodes))
  }

  /** One weight of vertex `vertex` (already shifted by the segment's vertex offset). */
  function Step(st: SkinState, w: BoneWeight, vertex: nat, ctx: WeightContext, nodes: seq<Node>): (r: SkinState)
    requires Wf(st) && LookupValid(ctx, nodes)
    ensures Wf(r)
    ensures r.log == st.log + (match Resolve(w, ctx, nodes) case Reject(e) => [Warn(e)] case _ => [])
  {
    var entry := WeightEntry(vertex, w.value);
    var res := Resolve(w, ctx, nodes);
    match res
    case Skip => st
    case Reject(e) => st.(log := st.log + [Warn(e)])
    case Accept(b, link) =>
      if b in st.boneToCluster then AppendEntry(st, b, entry, res)
      else AddCluster(st, b, link, entry, ctx, nodes, res)
  }

  /**
   * One weight: a rejected or zero weight changes no cluster; an accepted one
   * adds its entry to its bone's cluster, creating the cluster, named after
   * the bone and linked to the bone node's parent, on the bone's first weight.
   */
  lemma StepFacts(st: SkinState, w: BoneWeight, vertex: nat, ctx: WeightContext, nodes: seq<Node>, r: SkinState)
    requires Wf(st) && LookupValid(ctx, nodes) && r == Step(st, w, vertex, ctx, nodes)
    ensures StepEffect(st, r, Resolve(w, ctx, nodes), WeightEntry(vertex, w.value), ctx, nodes)
  {
    var res := Resolve(w, ctx, nodes);
    if !res.Accept? {
      SameTables(st, r, res, WeightEntry(vertex, w.value), ctx, nodes);
    }
  }

  /** A step that does not touch the tables has the effect of a weight that is not accepted. */
  lemma SameTables(st: SkinState, r: SkinState, res: Resolution, entry: WeightEntry, ctx: WeightContext, nodes: seq<Node>)
    requires Wf(st) && LookupValid(ctx, nodes) && !res.Accept?
    requires r.clusters == st.clusters && r.boneToCluster == st.boneToCluster
    ensures Wf(r) && StepEffect(st, r, res, entry, ctx, nodes)
  {
    assert forall b :: Gain(res, b, entry) == [];
    assert forall b :: b in r.boneToCluster ==> Entries(r, b) == Entries(st, b);
  }

  /** An accepted weight for a bone that already has a cluster. */
  function AppendEntry(st: SkinState, b: nat, entry: WeightEntry, res: Resolution): (r: SkinState)
    requires Wf(st) && b in st.boneToCluster && res.Accept? && res.bone == b
    ensures Wf(r) && Extends(st, r) && r.boneToCluster == st.boneToCluster && r.log == st.log
    ensures forall b' :: b' in r.boneToCluster ==> Entries(r, b') == Entries(st, b') + Gain(res, b', entry)
    ensures forall b' :: b' in r.boneToCluster ==> r.clusters[r.boneToCluster[b']].name == st.clusters[st.boneToCluster[b']].name
    ensures forall b' :: b' in r.boneToCluster ==> r.clusters[r.boneToCluster[b']].link == st.clusters[st.boneToCluster[b']].link
  {
    var c := st.boneToCluster[b];
    assert forall b' :: b' in st.boneToCluster && b' != b ==> st.boneToCluster[b'] != c;
    st.(clusters := st.clusters[c := st.clusters[c].(entries := st.clusters[c].entries + [entry])])
  }

  /** An accepted weight for a bone without a cluster: a new cluster linked to `link`. */
  function AddCluster(st: SkinState, b: nat, link: NodeId, entry: WeightEntry, ctx: WeightContext, nodes: seq<Node>,
                      res: Resolution): (r: SkinState)
    requires Wf(st) && LookupValid(ctx, nodes) && b !in st.boneToCluster
    requires res == Accept(b, link) && BoneLink(b, ctx, nodes) == Some(link)
    ensures Wf(r) && Extends(st, r) && r.log == st.log
    ensures r.boneToCluster.Keys == st.boneToCluster.Keys + {b}
    ensures forall b' :: b' in r.boneToCluster ==> Entries(r, b') == Entries(st, b') + Gain(res, b', entry)
    ensures forall b' :: b' in st.boneToCluster ==> r.clusters[r.boneToCluster[b']] == st.clusters[st.boneToCluster[b']]
    ensures NewCluster(r, b, ctx, nodes)
  {
    var c := |st.clusters|;
    var r := st.(clusters := st.clusters + [Cluster(ctx.models[b].name + "_Cluster", link, [entry])],
                 boneToCluster := st.boneToCluster[b := c]);
    assert forall c' :: c' in r.boneToCluster.Values && c' < |st.clusters| ==> c' in st.boneToCluster.Values;
    r
  }

  /** The weights of a segment in loop order, each paired with its shifted vertex index. */
  function Items(ws: seq<VertexWeights>, offset: nat): (r: seq<(BoneWeight, nat)>)
    ensures |r| == NumWeights * |ws|
    ensures forall k :: 0 <= k < |r| ==> offset <= r[k].1 < offset + |ws|
    ensures forall i, j :: 0 <= i < |ws| && 0 <= j < NumWeights ==> r[NumWeights * i + j] == (ws[i][j], i + offset)
  {
    if |ws| == 0 then []
    else
      var last := |ws| - 1;
      var r := Items(ws[..last], offset) + seq(NumWeights, j requires 0 <= j < NumWeights => (ws[last][j], last + offset));
      assert forall i :: 0 <= i < last ==> ws[..last][i] == ws[i];
      r
  }

  /** The entries a sequence of weights adds to bone `b`'s cluster, in order. */
  function Contribution(items: seq<(BoneWeight, nat)>, b: nat, ctx: WeightContext, nodes: seq<Node>): seq<WeightEntry>
    requires LookupValid(ctx, nodes)
  {
    if |items| == 0 then []
    else
      var last := items[|items| - 1];
      Contribution(items[..|items| - 1], b, ctx, nodes) + Gain(Resolve(last.0, ctx, nodes), b, WeightEntry(last.1, last.0.value))
  }

  lemma {:induction false} ContributionAppend(xs: seq<(BoneWeight, nat)>, ys: seq<(BoneWeight, nat)>, b: nat,
                                              ctx: WeightContext, nodes: seq<Node>)
    requires LookupValid(ctx, nodes)
    ensures Contribution(xs + ys, b, ctx, nodes) == Contribution(xs, b, ctx, nodes) + Contribution(ys, b, ctx, nodes)
    decreases |ys|
  {
    if |ys| == 0 {
      assert xs + ys == xs;
    } else {
      hide Gain, Resolve;
      assert (xs + ys)[..|xs + ys| - 1] == xs + ys[..|ys| - 1];
      assert (xs + ys)[|xs + ys| - 1] == ys[|ys| - 1];
      ContributionAppend(xs, ys[..|ys| - 1], b, ctx, nodes);
    }
  }

  /** One more weight after `prefix`: the accumulated effect extends by that weight's gain. */
  lemma AccumulatesStep(st: SkinState, mid: SkinState, r: SkinState, items: seq<(BoneWeight, nat)>,
                        ctx: WeightContext, nodes: seq<Node>)
    requires Wf(st) && Wf(mid) && Wf(r) && LookupValid(ctx, nodes) && |items| > 0
    requires Accumulates(st, mid, items[..|items| - 1], ctx, nodes)
    requires StepEffect(mid, r, Resolve(items[|items| - 1].0, ctx, nodes),
                        WeightEntry(items[|items| - 1].1, items[|items| - 1].0.value), ctx, nodes)
    ensures Accumulates(st, r, items, ctx, nodes)
  {
    var prefix, last := items[..|items| - 1], items[|items| - 1];
    var res, entry := Resolve(last.0, ctx, nodes), WeightEntry(last.1, last.0.value);
    ExtendsTrans(st, mid, r);
    KeepsIdentityTrans(st, mid, r);
    MembershipStep(st, mid, r, items, ctx, nodes);
    EntriesStep(st, mid, r, items, ctx, nodes);
    forall b | b in r.boneToCluster && b !in st.boneToCluster
      ensures NewCluster(r, b, ctx, nodes)
    {
      if b in mid.boneToCluster {
        assert NewCluster(mid, b, ctx, nodes);
      }
    }
  }

  lemma KeepsIdentityTrans(st: SkinState, mid: SkinState, r: SkinState)
    requires Wf(st) && Wf(mid) && Wf(r) && Extends(st, mid)
    requires KeepsIdentity(st, mid) && KeepsIdentity(mid, r)
    ensures KeepsIdentity(st, r)
  {
  }

  lemma MembershipStep(st: SkinState, mid: SkinState, r: SkinState, items: seq<(BoneWeight, nat)>,
                       ctx: WeightContext, nodes: seq<Node>)
    requires LookupValid(ctx, nodes) && |items| > 0
    requires Membership(st, mid, items[..|items| - 1], ctx, nodes)
    requires forall b :: b in r.boneToCluster <==> (b in mid.boneToCluster ||
      |Gain(Resolve(items[|items| - 1].0, ctx, nodes), b, WeightEntry(items[|items| - 1].1, items[|items| - 1].0.value))| > 0)
    ensures Membership(st, r, items, ctx, nodes)
  {
  }

  lemma EntriesStep(st: SkinState, mid: SkinState, r: SkinState, items: seq<(BoneWeight, nat)>,
                    ctx: WeightContext, nodes: seq<Node>)
    requires Wf(st) && Wf(mid) && Wf(r) && LookupValid(ctx, nodes) && |items| > 0
    requires Membership(st, mid, items[..|items| - 1], ctx, nodes)
    requires EntriesGrow(st, mid, items[..|items| - 1], ctx, nodes)
    requires forall b :: b in r.boneToCluster ==> (Entries(r, b) == Entries(mid, b) +
      Gain(Resolve(items[|items| - 1].0, ctx, nodes), b, WeightEntry(items[|items| - 1].1, items[|items| - 1].0.value)))
    ensures EntriesGrow(st, r, items, ctx, nodes)
  {
    var prefix, last := items[..|items| - 1], items[|items| - 1];
    var res, entry := Resolve(last.0, ctx, nodes), WeightEntry(last.1, last.0.value);
    forall b | b in r.boneToCluster
      ensures Entries(r, b) == Entries(st, b) + Contribution(items, b, ctx, nodes)
    {
      assert b !in mid.boneToCluster ==> b !in st.boneToCluster && |Contribution(prefix, b, ctx, nodes)| == 0;
      EntriesAt(st, mid, r, items, b, ctx, nodes);
    }
  }

  lemma EntriesAt(st: SkinState, mid: SkinState, r: SkinState, items: seq<(BoneWeight, nat)>, b: nat,
                  ctx: WeightContext, nodes: seq<Node>)
    requires Wf(st) && Wf(mid) && Wf(r) && LookupValid(ctx, nodes) && |items| > 0 && b in r.boneToCluster
    requires b in mid.boneToCluster ==> Entries(mid, b) == Entries(st, b) + Contribution(items[..|items| - 1], b, ctx, nodes)
    requires b !in mid.boneToCluster ==> b !in st.boneToCluster && |Contribution(items[..|items| - 1], b, ctx, nodes)| == 0
    requires Entries(r, b) == Entries(mid, b) +
      Gain(Resolve(items[|items| - 1].0, ctx, nodes), b, WeightEntry(items[|items| - 1].1, items[|items| - 1].0.value))
    ensures Entries(r, b) == Entries(st, b) + Contribution(items, b, ctx, nodes)
  {
  }

  lemma ExtendsTrans(st: SkinState, mid: SkinState, r: SkinState)
    requires Extends(st, mid) && Extends(mid, r)
    ensures Extends(st, r)
  {
    assert forall c :: c in mid.boneToCluster.Values ==> c in r.boneToCluster.Values;
  }

  /** The weight loop over `items`. */
  function Fold(st: SkinState, items: seq<(BoneWeight, nat)>, ctx: WeightContext, nodes: seq<Node>): (r: SkinState)
    requires Wf(st) && LookupValid(ctx, nodes)
    ensures Wf(r)
    decreases |items|
  {
    if |items| == 0 then st
    else
      var (w, v) := items[|items| - 1];
      Step(Fold(st, items[..|items| - 1], ctx, nodes), w, v, ctx, nodes)
  }

  /**
   * The weight loop's effect: bones keep their clusters, a bone ends with a
   * cluster exactly when it had one or received an entry, each cluster's
   * entries grow by exactly the bone's contribution in loop order, and new
   * clusters are named after and linked for their bone.
   */
  lemma {:induction false} FoldAccumulates(st: SkinState, items: seq<(BoneWeight, nat)>, ctx: WeightContext, nodes: seq<Node>)
    requires Wf(st) && LookupValid(ctx, nodes)
    ensures Accumulates(st, Fold(st, items, ctx, nodes), items, ctx, nodes)
    decreases |items|
  {
    if |items| == 0 {
      assert forall b :: Contribution(items, b, ctx, nodes) == [];
    } else {
      var (w, v) := items[|items| - 1];
      var mid := Fold(st, items[..|items| - 1], ctx, nodes);
      FoldAccumulates(st, items[..|items| - 1], ctx, nodes);
      var r := Step(mid, w, v, ctx, nodes);
      StepFacts(mid, w, v, ctx, nodes, r);
      AccumulatesStep(st, mid, r, items, ctx, nodes);
    }
  }

  /** Processing `xs` and then `ys` is processing `xs + ys`. */
  lemma {:induction false} FoldAppend(st: SkinState, xs: seq<(BoneWeight, nat)>, ys: seq<(BoneWeight, nat)>,
                                      ctx: WeightContext, nodes: seq<Node>)
    requires Wf(st) && LookupValid(ctx, nodes)
    ensures Fold(Fold(st, xs, ctx, nodes), ys, ctx, nodes) == Fold(st, xs + ys, ctx, nodes)
    decreases |ys|
  {
    if |ys| == 0 {
      assert xs + ys == xs;
    } else {
      var zs, init, last := xs + ys, ys[..|ys| - 1], ys[|ys| - 1];
      assert zs[..|zs| - 1] == xs + init && zs[|zs| - 1] == last;
      FoldAppend(st, xs, init, ctx, nodes);
      var mid := Fold(st, xs + init, ctx, nodes);
      assert Fold(st, zs, ctx, nodes) == Step(mid, last.0, last.1, ctx, nodes);
    }
  }

  /** True when no segment has more weight entries than vertices. */
  predicate WeightsFit(segs: seq<Segment>) {
    forall i :: 0 <= i < |segs| ==> |segs[i].weights| <= |segs[i].vertices|
  }

  /** The weights of the first `n` segments in loop order, vertex indices shifted by each segment's offset. */
  function ModelItems(segs: seq<Segment>, n: nat): (r: seq<(BoneWeight, nat)>)
    requires n <= |segs|
    ensures WeightsFit(segs) ==> forall k :: 0 <= k < |r| ==> r[k].1 < Geometry.VertexOffset(segs, n)
  {
    if n == 0 then []
    else ModelItems(segs, n - 1) + Items(segs[n - 1].weights, Geometry.VertexOffset(segs, n - 1))
  }

  /**
   * The weight pass over a mesh model: each segment's weights in turn, the
   * vertex offset advancing by the segment's vertex count.
   */
  function SegmentsToSkin(st: SkinState, segs: seq<Segment>, n: nat, ctx: WeightContext, nodes: seq<Node>): (r: SkinState)
    requires Wf(st) && LookupValid(ctx, nodes) && n <= |segs|
    ensures r == Fold(st, ModelItems(segs, n), ctx, nodes)
    ensures Wf(r) && Extends(st, r)
    ensures forall b :: b in r.boneToCluster && b !in st.boneToCluster ==> b < |ctx.models|
  {
    if n == 0 then FoldAccumulates(st, [], ctx, nodes); st
    else
      var prev := SegmentsToSkin(st, segs, n - 1, ctx, nodes);
      var items := Items(segs[n - 1].weights, Geometry.VertexOffset(segs, n - 1));
      FoldAppend(st, ModelItems(segs, n - 1), items, ctx, nodes);
      FoldAccumulates(st, ModelItems(segs, n), ctx, nodes);
      Fold(prev, items, ctx, nodes)
  }

  /** Every entry the weight pass adds names a control point of the model's mesh, when the weights fit. */
  lemma EntriesInMesh(segs: seq<Segment>, b: nat, ctx: WeightContext, nodes: seq<Node>, e: WeightEntry)
    requires LookupValid(ctx, nodes) && WeightsFit(segs)
    requires e in Contribution(ModelItems(segs, |segs|), b, ctx, nodes)
    ensures e.controlPoint < Geometry.VertexOffset(segs, |segs|)
  {
    ContributionSound(ModelItems(segs, |segs|), b, ctx, nodes, e);
  }

  /** Weights that are all zero change nothing. */
  lemma {:induction false} ZeroWeightsChangeNothing(st: SkinState, items: seq<(BoneWeight, nat)>, ctx: WeightContext, nodes: seq<Node>)
    requires Wf(st) && LookupValid(ctx, nodes)
    requires forall k :: 0 <= k < |items| ==> items[k].0.value == 0.0
    ensures Fold(st, items, ctx, nodes) == st
    decreases |items|
  {
    if |items| > 0 {
      ZeroWeightsChangeNothing(st, items[..|items| - 1], ctx, nodes);
    }
  }

  /** Every entry a bone receives comes from an accepted weight for that bone, with its value. */
  lemma {:induction false} ContributionSound(items: seq<(BoneWeight, nat)>, b: nat, ctx: WeightContext, nodes: seq<Node>, e: WeightEntry)
    requires LookupValid(ctx, nodes)
    requires e in Contribution(items, b, ctx, nodes)
    ensures exists k :: (0 <= k < |items| && e == WeightEntry(items[k].1, items[k].0.value) &&
                         Resolve(items[k].0, ctx, nodes).Accept? && Resolve(items[k].0, ctx, nodes).bone == b)
    decreases |items|
  {
    var last := items[|items| - 1];
    var prev := Contribution(items[..|items| - 1], b, ctx, nodes);
    if e in prev {
      ContributionSound(items[..|items| - 1], b, ctx, nodes, e);
      var k :| 0 <= k < |items| - 1 && e == WeightEntry(items[..|items| - 1][k].1, items[..|items| - 1][k].0.value)
        && Resolve(items[..|items| - 1][k].0, ctx, nodes).Accept? && Resolve(items[..|items| - 1][k].0, ctx, nodes).bone == b;
      assert items[..|items| - 1][k] == items[k];
    } else {
      assert e == WeightEntry(last.1, last.0.value);
    }
  }

  /** Every accepted weight for bone `b` appears among its entries. */
  lemma {:induction false} ContributionComplete(items: seq<(BoneWeight, nat)>, b: nat, ctx: WeightContext, nodes: seq<Node>, k: nat)
    requires LookupValid(ctx, nodes) && k < |items|
    requires Resolve(items[k].0, ctx, nodes).Accept? && Resolve(items[k].0, ctx, nodes).bone == b
    ensures WeightEntry(items[k].1, items[k].0.value) in Contribution(items, b, ctx, nodes)
    decreases |items|
  {
    if k < |items| - 1 {
      assert items[..|items| - 1][k] == items[k];
      ContributionComplete(items[..|items| - 1], b, ctx, nodes, k);
    }
  }

  /** The keys of `m` below `n`, in ascending order. */
  function KeysBelow(m: map<nat, ClusterId>, n: nat): (r: seq<nat>)
    ensures forall x :: x in r <==> x in m && x < n
    ensures forall i, j :: 0 <= i < j < |r| ==> r[i] < r[j]
    ensures forall i :: 0 <= i < |r| ==> r[i] < n
  {
    if n == 0 then [] else KeysBelow(m, n - 1) + (if n - 1 in m then [n - 1] else [])
  }

  /**
   * The skin of a mesh: every cluster the current file has created so far,
   * in ascending order of the bone (model index) that owns it. All bones are
   * models of the file, so `bound` is the file's model count.
   */
  function MakeSkin(name: string, boneToCluster: map<nat, ClusterId>, bound: nat): (r: Skin)
    requires forall b :: b in boneToCluster ==> b < bound
    ensures r.name == name + "_Skin"
    ensures forall c :: c in r.clusters <==> c in boneToCluster.Values
  {
    var bones := KeysBelow(boneToCluster, bound);
    var r := Skin(name + "_Skin", seq(|bones|, i requires 0 <= i < |bones| => boneToCluster[bones[i]]));
    assert forall c :: c in boneToCluster.Values ==> c in r.clusters by {
      forall c | c in boneToCluster.Values ensures c in r.clusters {
        var b :| b in boneToCluster && boneToCluster[b] == c;
        var i :| 0 <= i < |bones| && bones[i] == b;
        assert r.clusters[i] == c;
      }
    }
    r
  }

  /** A skin never lists a cluster twice when the table is one-to-one. */
  lemma SkinDistinct(name: string, st: SkinState, bound: nat)
    requires Wf(st) && forall b :: b in st.boneToCluster ==> b < bound
    ensures var r := MakeSkin(name, st.boneToCluster, bound);
            forall i, j :: 0 <= i < j < |r.clusters| ==> r.clusters[i] != r.clusters[j]
  {
  }
}
