/**
 * The base pose pass: a base pose file holds one frame per bone. Every entry
 * whose checksum has a node and that carries both a translation and a rotation
 * sets that node's local translation and rotation from its first frames; the
 * node's scale stays. Entries that cannot be used are reported and skipped.
 */
module Pose {

  import opened Wrappers
  import opened Msh
  import opened Scenes
  import opened Diagnostics

  /** An entry the pass applies: its bone has a node and it has translation and rotation data. */
  predicate Usable(bf: BoneFrames, crcToNode: map<Checksum, NodeId>) {
    bf.checksum in crcToNode && |bf.translations| > 0 && |bf.rotations| > 0
  }

  /** The local transform an entry gives a node whose current scale is `scaling`. */
  function PoseTransform(bf: BoneFrames, scaling: Vector3, toEuler: Vector4 -> Vector3): Transform
    requires |bf.translations| > 0 && |bf.rotations| > 0
  {
    Transform(bf.translations[0].translation, toEuler(bf.rotations[0].rotation), scaling)
  }

  /** The diagnostic for an entry that cannot be used, in the order the checks are made. */
  function Rejection(bf: BoneFrames, crcToNode: map<Checksum, NodeId>): (r: Diag)
    requires !Usable(bf, crcToNode)
    ensures r.severity == Warning
  {
    if bf.checksum !in crcToNode then Warn(BaseposeBoneNotFound(bf.checksum))
    else if |bf.translations| == 0 then Warn(BaseposeNoTranslation)
    else Warn(BaseposeNoRotation)
  }

  /** Applies one entry. */
  function PoseOne(s: Scene, crcToNode: map<Checksum, NodeId>, bf: BoneFrames, toEuler: Vector4 -> Vector3)
    : (r: (Scene, Log))
    requires TableFits(s, crcToNode)
    ensures |r.0.nodes| == |s.nodes| && r.0.clusters == s.clusters && r.0.stacks == s.stacks
  {
    if bf.checksum !in crcToNode then (s, [Warn(BaseposeBoneNotFound(bf.checksum))])
    else if |bf.translations| == 0 then (s, [Warn(BaseposeNoTranslation)])
    else if |bf.rotations| == 0 then (s, [Warn(BaseposeNoRotation)])
    else
      var n := crcToNode[bf.checksum];
      (SetTransform(s, n, PoseTransform(bf, s.nodes[n].transform.scaling, toEuler)), [])
  }

  /** The entries among the first `k`, in order. */
  function PoseAll(s: Scene, crcToNode: map<Checksum, NodeId>, bfs: seq<BoneFrames>, k: nat, toEuler: Vector4 -> Vector3)
    : (r: (Scene, Log))
    requires TableFits(s, crcToNode) && k <= |bfs|
    ensures |r.0.nodes| == |s.nodes| && r.0.clusters == s.clusters && r.0.stacks == s.stacks
  {
    if k == 0 then (s, [])
    else
      var (s1, log) := PoseAll(s, crcToNode, bfs, k - 1, toEuler);
      var (s2, log2) := PoseOne(s1, crcToNode, bfs[k - 1], toEuler);
      (s2, log + log2)
  }

  /** The last usable entry among the first `k` that targets node `n`. */
  function LastPose(bfs: seq<BoneFrames>, k: nat, crcToNode: map<Checksum, NodeId>, n: NodeId): (r: Option<BoneFrames>)
    requires k <= |bfs|
    ensures r.Some? ==> Usable(r.value, crcToNode) && crcToNode[r.value.checksum] == n
    ensures r.Some? <==> exists i :: 0 <= i < k && Usable(bfs[i], crcToNode) && crcToNode[bfs[i].checksum] == n
  {
    if k == 0 then None
    else if Usable(bfs[k - 1], crcToNode) && crcToNode[bfs[k - 1].checksum] == n then Some(bfs[k - 1])
    else LastPose(bfs, k - 1, crcToNode, n)
  }

  /**
   * After the first `k` entries, a node targeted by some usable entry has the
   * translation and rotation of the last such entry and its old scale; every
   * other node is unchanged. The log holds one diagnostic per unusable entry, in order.
   */
  lemma {:induction false} PoseAllEffect(s: Scene, crcToNode: map<Checksum, NodeId>, bfs: seq<BoneFrames>, k: nat,
                                         toEuler: Vector4 -> Vector3)
    requires TableFits(s, crcToNode) && k <= |bfs|
    ensures var r := PoseAll(s, crcToNode, bfs, k, toEuler).0;
      forall n :: 0 <= n < |s.nodes| ==>
        r.nodes[n] == match LastPose(bfs, k, crcToNode, n)
                      case None => s.nodes[n]
                      case Some(bf) => s.nodes[n].(transform := PoseTransform(bf, s.nodes[n].transform.scaling, toEuler))
    ensures PoseAll(s, crcToNode, bfs, k, toEuler).1 == Rejections(bfs, k, crcToNode)
  {
    if k > 0 {
      PoseAllEffect(s, crcToNode, bfs, k - 1, toEuler);
      var s1 := PoseAll(s, crcToNode, bfs, k - 1, toEuler).0;
      assert PoseAll(s, crcToNode, bfs, k, toEuler).0 == PoseOne(s1, crcToNode, bfs[k - 1], toEuler).0;
    }
  }

  /** The diagnostics of the unusable entries among the first `k`, in order. */
  function Rejections(bfs: seq<BoneFrames>, k: nat, crcToNode: map<Checksum, NodeId>): (r: Log)
    requires k <= |bfs|
    ensures |r| <= k
  {
    if k == 0 then []
    else Rejections(bfs, k - 1, crcToNode) + (if Usable(bfs[k - 1], crcToNode) then [] else [Rejection(bfs[k - 1], crcToNode)])
  }

  /** The base pose pass: nothing without a base pose, a warning for a base pose without frames. */
  function ApplyBasepose(s: Scene, crcToNode: map<Checksum, NodeId>, basepose: Option<MshFile>, toEuler: Vector4 -> Vector3)
    : (r: (Scene, Log))
    requires TableFits(s, crcToNode)
    ensures |r.0.nodes| == |s.nodes| && r.0.clusters == s.clusters && r.0.stacks == s.stacks
    ensures basepose.None? ==> r == (s, [])
    ensures basepose.Some? && |basepose.value.animations.boneFrames| == 0 ==> r == (s, [Warn(BaseposeNoFrames)])
    ensures basepose.Some? && |basepose.value.animations.boneFrames| > 0 ==>
      var bfs := basepose.value.animations.boneFrames;
      r.1 == Rejections(bfs, |bfs|, crcToNode) &&
      forall n :: 0 <= n < |s.nodes| ==>
        r.0.nodes[n] == match LastPose(bfs, |bfs|, crcToNode, n)
                        case None => s.nodes[n]
                        case Some(bf) => s.nodes[n].(transform := PoseTransform(bf, s.nodes[n].transform.scaling, toEuler))
  {
    match basepose
    case None => (s, [])
    case Some(b) =>
      var bfs := b.animations.boneFrames;
      if |bfs| == 0 then (s, [Warn(BaseposeNoFrames)])
      else
        PoseAllEffect(s, crcToNode, bfs, |bfs|, toEuler);
        PoseAll(s, crcToNode, bfs, |bfs|, toEuler)
  }
}
