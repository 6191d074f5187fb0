/**
 * The animation converter: the first animation cycle of a file becomes one
 * animation stack with one layer; every bone-frame entry whose checksum names
 * a converted node writes its translation keys to that node's three
 * translation curves and its rotation keys, as Euler angles, to the three
 * rotation curves.
 */
module Animation {

  import opened Wrappers
  import opened Msh
  import opened Scenes
  import opened Diagnostics

  // ---------------------------------------------------------------- keys and curves

  /** The value the last key of `keys` at frame `f` carries, if any key is at `f`. */
  function LastAt(keys: seq<(nat, real)>, f: nat): Option<real> {
    if |keys| == 0 then None
    else if keys[|keys| - 1].0 == f then Some(keys[|keys| - 1].1)
    else LastAt(keys[..|keys| - 1], f)
  }

  /**
   * Adds `keys` to `curve` in order. Adding a key at a frame that already has
   * one replaces that key's value, so the last key at each frame wins.
   */
  function SetKeys(curve: Curve, keys: seq<(nat, real)>): Curve {
    if |keys| == 0 then curve
    else
      var (f, v) := keys[|keys| - 1];
      SetKeys(curve, keys[..|keys| - 1])[f := v]
  }

  /** After adding `keys`, a frame holds the last of its keys, or its old value if `keys` has none at it. */
  lemma {:induction false} SetKeysLookup(curve: Curve, keys: seq<(nat, real)>, f: nat)
    ensures f in SetKeys(curve, keys) <==> f in curve || LastAt(keys, f).Some?
    ensures f in SetKeys(curve, keys) ==>
      SetKeys(curve, keys)[f] == (if LastAt(keys, f).Some? then LastAt(keys, f).value else curve[f])
    decreases |keys|
  {
    if |keys| > 0 {
      SetKeysLookup(curve, keys[..|keys| - 1], f);
    }
  }

  /** Adding two batches of keys is adding their concatenation. */
  lemma {:induction false} SetKeysAppend(curve: Curve, a: seq<(nat, real)>, b: seq<(nat, real)>)
    ensures SetKeys(SetKeys(curve, a), b) == SetKeys(curve, a + b)
    decreases |b|
  {
    if |b| == 0 {
      assert a + b == a;
    } else {
      assert (a + b)[..|a + b| - 1] == a + b[..|b| - 1];
      SetKeysAppend(curve, a, b[..|b| - 1]);
    }
  }

  function CurveOf(curves: map<CurveId, Curve>, id: CurveId): Curve {
    if id in curves then curves[id] else map[]
  }

  function Component(v: Vector3, ch: Channel): real {
    match ch
    case TX => v.x
    case TY => v.y
    case TZ => v.z
    case RX => v.x
    case RY => v.y
    case RZ => v.z
  }

  predicate IsTranslation(ch: Channel) {
    ch == TX || ch == TY || ch == TZ
  }

  /** The keys one bone-frame entry sets on channel `ch`, in source order. */
  function ChannelKeys(bf: BoneFrames, ch: Channel, toEuler: Vector4 -> Vector3): (r: seq<(nat, real)>)
    ensures IsTranslation(ch) ==> |r| == |bf.translations| && forall j :: 0 <= j < |r| ==>
      r[j] == (bf.translations[j].frame, Component(bf.translations[j].translation, ch))
    ensures !IsTranslation(ch) ==> |r| == |bf.rotations| && forall j :: 0 <= j < |r| ==>
      r[j] == (bf.rotations[j].frame, Component(toEuler(bf.rotations[j].rotation), ch))
  {
    if IsTranslation(ch) then
      seq(|bf.translations|, j requires 0 <= j < |bf.translations| =>
        (bf.translations[j].frame, Component(bf.translations[j].translation, ch)))
    else
      seq(|bf.rotations|, j requires 0 <= j < |bf.rotations| =>
        (bf.rotations[j].frame, Component(toEuler(bf.rotations[j].rotation), ch)))
  }

  /**
   * One bone-frame entry applied to node `n`: all six curves of the node
   * exist afterwards, even when the entry has no keys for them.
   */
  function ApplyBone(curves: map<CurveId, Curve>, n: NodeId, bf: BoneFrames, toEuler: Vector4 -> Vector3)
    : (r: map<CurveId, Curve>)
    ensures forall id :: id in r <==> id in curves || id.0 == n
    ensures forall id :: id in curves && id.0 != n ==> r[id] == curves[id]
    ensures forall ch :: r[(n, ch)] == SetKeys(CurveOf(curves, (n, ch)), ChannelKeys(bf, ch, toEuler))
  {
    ApplyBoneDomain(curves, n, bf, toEuler);
    ApplyBoneKeeps(curves, n, bf, toEuler);
    ApplyBoneSets(curves, n, bf, toEuler);
    hide BoneCurves;
    BoneCurves(curves, n, bf, toEuler)
  }

  /** The curve table after the entry, built over the old curves and the node's six. */
  function BoneCurves(curves: map<CurveId, Curve>, n: NodeId, bf: BoneFrames, toEuler: Vector4 -> Vector3)
    : map<CurveId, Curve>
  {
    var ids := curves.Keys + {(n, TX), (n, TY), (n, TZ), (n, RX), (n, RY), (n, RZ)};
    map id | id in ids :: if id.0 == n then SetKeys(CurveOf(curves, id), ChannelKeys(bf, id.1, toEuler)) else curves[id]
  }

  lemma ApplyBoneDomain(curves: map<CurveId, Curve>, n: NodeId, bf: BoneFrames, toEuler: Vector4 -> Vector3)
    ensures forall id :: id in BoneCurves(curves, n, bf, toEuler) <==> id in curves || id.0 == n
  {
    var ids := curves.Keys + {(n, TX), (n, TY), (n, TZ), (n, RX), (n, RY), (n, RZ)};
    SixChannels(n, ids);
  }

  lemma ApplyBoneKeeps(curves: map<CurveId, Curve>, n: NodeId, bf: BoneFrames, toEuler: Vector4 -> Vector3)
    ensures forall id :: id in curves && id.0 != n ==> BoneCurves(curves, n, bf, toEuler)[id] == curves[id]
  {
  }

  lemma ApplyBoneSets(curves: map<CurveId, Curve>, n: NodeId, bf: BoneFrames, toEuler: Vector4 -> Vector3)
    ensures forall ch :: (n, ch) in BoneCurves(curves, n, bf, toEuler) &&
                         BoneCurves(curves, n, bf, toEuler)[(n, ch)] ==
                           SetKeys(CurveOf(curves, (n, ch)), ChannelKeys(bf, ch, toEuler))
  {
    ApplyBoneDomain(curves, n, bf, toEuler);
  }

  lemma SixChannels(n: NodeId, ids: set<CurveId>)
    requires {(n, TX), (n, TY), (n, TZ), (n, RX), (n, RY), (n, RZ)} <= ids
    ensures forall ch: Channel :: (n, ch) in ids
  {
    forall ch: Channel ensures (n, ch) in ids {
      match ch
      case TX => case TY => case TZ => case RX => case RY => case RZ =>
    }
  }

  // ---------------------------------------------------------------- the bone-frame loop

  /** The keys all entries among the first `k` that resolve to node `n` set on channel `ch`. */
  function KeysFor(bfs: seq<BoneFrames>, k: nat, crcToNode: map<Checksum, NodeId>, n: NodeId, ch: Channel,
                   toEuler: Vector4 -> Vector3): seq<(nat, real)>
    requires k <= |bfs|
  {
    if k == 0 then []
    else
      var bf := bfs[k - 1];
      KeysFor(bfs, k - 1, crcToNode, n, ch, toEuler) +
        (if bf.checksum in crcToNode && crcToNode[bf.checksum] == n then ChannelKeys(bf, ch, toEuler) else [])
  }

  /** Some entry among the first `k` resolves to node `n`. */
  predicate Animated(bfs: seq<BoneFrames>, k: nat, crcToNode: map<Checksum, NodeId>, n: NodeId)
    requires k <= |bfs|
  {
    exists i :: 0 <= i < k && bfs[i].checksum in crcToNode && crcToNode[bfs[i].checksum] == n
  }

  /**
   * The loop over the first `k` bone-frame entries; entries whose checksum is
   * unknown are skipped with a warning.
   */
  function BoneLoop(bfs: seq<BoneFrames>, k: nat, crcToNode: map<Checksum, NodeId>, toEuler: Vector4 -> Vector3)
    : (r: (map<CurveId, Curve>, Log))
    requires k <= |bfs|
    ensures forall i :: 0 <= i < k && bfs[i].checksum !in crcToNode ==> Warn(AnimatedBoneNotFound(bfs[i].checksum)) in r.1
    ensures forall d :: d in r.1 ==> exists i :: 0 <= i < k && bfs[i].checksum !in crcToNode && d == Warn(AnimatedBoneNotFound(bfs[i].checksum))
    ensures r.1 == UnknownWarnings(bfs[..k], crcToNode)
  {
    if k == 0 then (map[], [])
    else
      var (curves, log) := BoneLoop(bfs, k - 1, crcToNode, toEuler);
      var bf := bfs[k - 1];
      assert bfs[..k] == bfs[..k - 1] + [bf];
      UnknownWarningsSnoc(bfs[..k - 1], bf, crcToNode);
      if bf.checksum !in crcToNode then (curves, log + [Warn(AnimatedBoneNotFound(bf.checksum))])
      else (ApplyBone(curves, crcToNode[bf.checksum], bf, toEuler), log)
  }

  /** One warning per entry whose checksum names no node, in the order of the entries. */
  function UnknownWarnings(bfs: seq<BoneFrames>, crcToNode: map<Checksum, NodeId>): (r: Log)
    ensures |r| <= |bfs|
  {
    if bfs == [] then []
    else
      (if bfs[0].checksum !in crcToNode then [Warn(AnimatedBoneNotFound(bfs[0].checksum))] else []) +
      UnknownWarnings(bfs[1..], crcToNode)
  }

  /** An entry added at the end adds its warning, if any, at the end. */
  lemma {:induction false} UnknownWarningsSnoc(bfs: seq<BoneFrames>, bf: BoneFrames, crcToNode: map<Checksum, NodeId>)
    ensures UnknownWarnings(bfs + [bf], crcToNode) ==
      UnknownWarnings(bfs, crcToNode) + (if bf.checksum !in crcToNode then [Warn(AnimatedBoneNotFound(bf.checksum))] else [])
  {
    if bfs == [] {
      assert [bf][1..] == [];
    } else {
      assert (bfs + [bf])[1..] == bfs[1..] + [bf];
      UnknownWarningsSnoc(bfs[1..], bf, crcToNode);
    }
  }

  /** Exactly the nodes some entry resolves to have curves, all six of them. */
  lemma {:induction false} BoneLoopCurveSet(bfs: seq<BoneFrames>, k: nat, crcToNode: map<Checksum, NodeId>, toEuler: Vector4 -> Vector3)
    requires k <= |bfs|
    ensures forall id :: id in BoneLoop(bfs, k, crcToNode, toEuler).0 <==> Animated(bfs, k, crcToNode, id.0)
  {
    if k > 0 {
      BoneLoopCurveSet(bfs, k - 1, crcToNode, toEuler);
      AnimatedStep(bfs, k, crcToNode);
    }
  }

  lemma AnimatedStep(bfs: seq<BoneFrames>, k: nat, crcToNode: map<Checksum, NodeId>)
    requires 0 < k <= |bfs|
    ensures forall n :: Animated(bfs, k, crcToNode, n) <==>
      Animated(bfs, k - 1, crcToNode, n) || (bfs[k - 1].checksum in crcToNode && crcToNode[bfs[k - 1].checksum] == n)
  {
    forall n | Animated(bfs, k, crcToNode, n)
      ensures Animated(bfs, k - 1, crcToNode, n) || (bfs[k - 1].checksum in crcToNode && crcToNode[bfs[k - 1].checksum] == n)
    {
      var i :| 0 <= i < k && bfs[i].checksum in crcToNode && crcToNode[bfs[i].checksum] == n;
      if i < k - 1 {
        assert Animated(bfs, k - 1, crcToNode, n);
      }
    }
  }

  lemma {:induction false} NoEntryNoKeys(bfs: seq<BoneFrames>, k: nat, crcToNode: map<Checksum, NodeId>, n: NodeId, ch: Channel,
                                         toEuler: Vector4 -> Vector3)
    requires k <= |bfs| && !Animated(bfs, k, crcToNode, n)
    ensures KeysFor(bfs, k, crcToNode, n, ch, toEuler) == []
  {
    if k > 0 {
      assert !Animated(bfs, k - 1, crcToNode, n);
      NoEntryNoKeys(bfs, k - 1, crcToNode, n, ch, toEuler);
    }
  }

  /**
   * Each curve the loop builds holds the keys of all entries resolving to its
   * node, in order, the last key at a frame winning.
   */
  lemma {:induction false} BoneLoopCurves(bfs: seq<BoneFrames>, k: nat, crcToNode: map<Checksum, NodeId>, toEuler: Vector4 -> Vector3)
    requires k <= |bfs|
    ensures CurvesHoldKeys(bfs, k, crcToNode, toEuler, BoneLoop(bfs, k, crcToNode, toEuler).0)
  {
    // The base case and the step carry the definitions.
    hide BoneLoop, CurvesHoldKeys;
    if k == 0 {
      NoCurvesYet(bfs, crcToNode, toEuler);
    } else {
      BoneLoopCurves(bfs, k - 1, crcToNode, toEuler);
      BoneLoopCurvesStep(bfs, k, crcToNode, toEuler);
    }
  }

  lemma NoCurvesYet(bfs: seq<BoneFrames>, crcToNode: map<Checksum, NodeId>, toEuler: Vector4 -> Vector3)
    ensures CurvesHoldKeys(bfs, 0, crcToNode, toEuler, BoneLoop(bfs, 0, crcToNode, toEuler).0)
  {
  }

  /** One more entry keeps every curve equal to the keys of the entries so far. */
  lemma BoneLoopCurvesStep(bfs: seq<BoneFrames>, k: nat, crcToNode: map<Checksum, NodeId>, toEuler: Vector4 -> Vector3)
    requires 0 < k <= |bfs|
    requires CurvesHoldKeys(bfs, k - 1, crcToNode, toEuler, BoneLoop(bfs, k - 1, crcToNode, toEuler).0)
    ensures CurvesHoldKeys(bfs, k, crcToNode, toEuler, BoneLoop(bfs, k, crcToNode, toEuler).0)
  {
    hide ApplyBone, ChannelKeys;
    var curves := BoneLoop(bfs, k - 1, crcToNode, toEuler).0;
    BoneLoopStep(bfs, k, crcToNode, toEuler);
    if bfs[k - 1].checksum !in crcToNode {
      SkippedEntryKeepsKeys(bfs, k, crcToNode, toEuler, curves);
    } else {
      AppliedEntryAddsKeys(bfs, k, crcToNode, toEuler, curves);
    }
  }

  lemma BoneLoopStep(bfs: seq<BoneFrames>, k: nat, crcToNode: map<Checksum, NodeId>, toEuler: Vector4 -> Vector3)
    requires 0 < k <= |bfs|
    ensures var bf := bfs[k - 1];
      BoneLoop(bfs, k, crcToNode, toEuler).0 ==
        if bf.checksum !in crcToNode then BoneLoop(bfs, k - 1, crcToNode, toEuler).0
        else ApplyBone(BoneLoop(bfs, k - 1, crcToNode, toEuler).0, crcToNode[bf.checksum], bf, toEuler)
  {
  }

  predicate CurvesHoldKeys(bfs: seq<BoneFrames>, k: nat, crcToNode: map<Checksum, NodeId>, toEuler: Vector4 -> Vector3,
                           curves: map<CurveId, Curve>)
    requires k <= |bfs|
  {
    forall id :: id in curves ==> curves[id] == SetKeys(map[], KeysFor(bfs, k, crcToNode, id.0, id.1, toEuler))
  }

  lemma SkippedEntryKeepsKeys(bfs: seq<BoneFrames>, k: nat, crcToNode: map<Checksum, NodeId>, toEuler: Vector4 -> Vector3,
                              curves: map<CurveId, Curve>)
    requires 0 < k <= |bfs| && bfs[k - 1].checksum !in crcToNode
    requires CurvesHoldKeys(bfs, k - 1, crcToNode, toEuler, curves)
    ensures CurvesHoldKeys(bfs, k, crcToNode, toEuler, curves)
  {
    forall id | id in curves
      ensures curves[id] == SetKeys(map[], KeysFor(bfs, k, crcToNode, id.0, id.1, toEuler))
    {
      KeysForStep(bfs, k, crcToNode, id.0, id.1, toEuler);
    }
  }

  lemma AppliedEntryAddsKeys(bfs: seq<BoneFrames>, k: nat, crcToNode: map<Checksum, NodeId>, toEuler: Vector4 -> Vector3,
                             curves: map<CurveId, Curve>)
    requires 0 < k <= |bfs| && bfs[k - 1].checksum in crcToNode
    requires CurvesHoldKeys(bfs, k - 1, crcToNode, toEuler, curves)
    requires curves == BoneLoop(bfs, k - 1, crcToNode, toEuler).0
    ensures CurvesHoldKeys(bfs, k, crcToNode, toEuler, BoneLoop(bfs, k, crcToNode, toEuler).0)
  {
    hide ApplyBone, ChannelKeys;
    BoneLoopCurveSet(bfs, k - 1, crcToNode, toEuler);
    BoneLoopStep(bfs, k, crcToNode, toEuler);
    var bf := bfs[k - 1];
    var n := crcToNode[bf.checksum];
    var r := ApplyBone(curves, n, bf, toEuler);
    forall id | id in r
      ensures r[id] == SetKeys(map[], KeysFor(bfs, k, crcToNode, id.0, id.1, toEuler))
    {
      AppliedCurveAt(bfs, k, crcToNode, toEuler, curves, id);
    }
  }

  /** One curve after an entry that resolves to a node. */
  lemma AppliedCurveAt(bfs: seq<BoneFrames>, k: nat, crcToNode: map<Checksum, NodeId>, toEuler: Vector4 -> Vector3,
                       curves: map<CurveId, Curve>, id: CurveId)
    requires 0 < k <= |bfs| && bfs[k - 1].checksum in crcToNode
    requires id in curves ==> curves[id] == SetKeys(map[], KeysFor(bfs, k - 1, crcToNode, id.0, id.1, toEuler))
    requires id !in curves ==> !Animated(bfs, k - 1, crcToNode, id.0)
    requires id in ApplyBone(curves, crcToNode[bfs[k - 1].checksum], bfs[k - 1], toEuler)
    ensures ApplyBone(curves, crcToNode[bfs[k - 1].checksum], bfs[k - 1], toEuler)[id] ==
      SetKeys(map[], KeysFor(bfs, k, crcToNode, id.0, id.1, toEuler))
  {
    // The contract of the step is all this needs.
    hide ApplyBone, ChannelKeys;
    var n := crcToNode[bfs[k - 1].checksum];
    KeysForStep(bfs, k, crcToNode, id.0, id.1, toEuler);
    if id.0 == n {
      if id !in curves {
        NoEntryNoKeys(bfs, k - 1, crcToNode, id.0, id.1, toEuler);
        assert SetKeys(map[], []) == map[];
      }
      AppliedCurve(bfs, k, crcToNode, toEuler, CurveOf(curves, id), id.0, id.1);
    }
  }

  /** The curve of a channel of the entry's node before the entry, extended by the entry's keys. */
  lemma AppliedCurve(bfs: seq<BoneFrames>, k: nat, crcToNode: map<Checksum, NodeId>, toEuler: Vector4 -> Vector3,
                     curve: Curve, n: NodeId, ch: Channel)
    requires 0 < k <= |bfs| && bfs[k - 1].checksum in crcToNode && crcToNode[bfs[k - 1].checksum] == n
    requires curve == SetKeys(map[], KeysFor(bfs, k - 1, crcToNode, n, ch, toEuler))
    ensures SetKeys(curve, ChannelKeys(bfs[k - 1], ch, toEuler)) == SetKeys(map[], KeysFor(bfs, k, crcToNode, n, ch, toEuler))
  {
    KeysForStep(bfs, k, crcToNode, n, ch, toEuler);
    SetKeysAppend(map[], KeysFor(bfs, k - 1, crcToNode, n, ch, toEuler), ChannelKeys(bfs[k - 1], ch, toEuler));
  }

  lemma KeysForStep(bfs: seq<BoneFrames>, k: nat, crcToNode: map<Checksum, NodeId>, n: NodeId, ch: Channel,
                    toEuler: Vector4 -> Vector3)
    requires 0 < k <= |bfs|
    ensures bfs[k - 1].checksum in crcToNode && crcToNode[bfs[k - 1].checksum] == n ==>
      KeysFor(bfs, k, crcToNode, n, ch, toEuler) == KeysFor(bfs, k - 1, crcToNode, n, ch, toEuler) + ChannelKeys(bfs[k - 1], ch, toEuler)
    ensures !(bfs[k - 1].checksum in crcToNode && crcToNode[bfs[k - 1].checksum] == n) ==>
      KeysFor(bfs, k, crcToNode, n, ch, toEuler) == KeysFor(bfs, k - 1, crcToNode, n, ch, toEuler)
  {
    assert KeysFor(bfs, k - 1, crcToNode, n, ch, toEuler) + [] == KeysFor(bfs, k - 1, crcToNode, n, ch, toEuler);
  }

  // ---------------------------------------------------------------- the converter entry

  /**
   * Converts the animation chunk of a file. Without a cycle nothing is built
   * and a warning is logged. Otherwise one stack named after the override (or
   * the first cycle when there is none) spans the first cycle's frames, and its
   * single layer holds the curves of every node some entry resolves to.
   */
  function ConvertAnimations(anims: Animations, overrideName: string, crcToNode: map<Checksum, NodeId>,
                             toEuler: Vector4 -> Vector3): (r: (Option<AnimStack>, Log))
    ensures r.0.None? <==> |anims.cycles| == 0
    ensures |anims.cycles| == 0 ==> r.1 == [Warn(NoAnimationCycle)]
    ensures r.0.Some? ==>
      var cycle := anims.cycles[0];
      var stack := r.0.value;
      && stack.name == (if overrideName != "" then overrideName else cycle.name)
      && stack.layer == stack.name + "_Layer"
      && stack.firstFrame == cycle.firstFrame && stack.lastFrame == cycle.lastFrame
      && stack.frameRate == cycle.frameRate
      && (forall id :: id in stack.curves <==> Animated(anims.boneFrames, |anims.boneFrames|, crcToNode, id.0))
      && CurvesHoldKeys(anims.boneFrames, |anims.boneFrames|, crcToNode, toEuler, stack.curves)
    ensures r.0.Some? ==>
      && (forall i :: 0 <= i < |anims.boneFrames| && anims.boneFrames[i].checksum !in crcToNode ==>
            Warn(AnimatedBoneNotFound(anims.boneFrames[i].checksum)) in r.1)
      && (forall d :: d in r.1 ==>
            exists i :: 0 <= i < |anims.boneFrames| && anims.boneFrames[i].checksum !in crcToNode &&
                        d == Warn(AnimatedBoneNotFound(anims.boneFrames[i].checksum)))
    ensures r.0.Some? ==> r.1 == UnknownWarnings(anims.boneFrames, crcToNode)
  {
    if |anims.cycles| == 0 then (None, [Warn(NoAnimationCycle)])
    else
      var cycle := anims.cycles[0];
      var name := if overrideName != "" then overrideName else cycle.name;
      var bfs := anims.boneFrames;
      var (curves, log) := BoneLoop(bfs, |bfs|, crcToNode, toEuler);
      assert bfs[..|bfs|] == bfs;
      BoneLoopCurveSet(bfs, |bfs|, crcToNode, toEuler);
      BoneLoopCurves(bfs, |bfs|, crcToNode, toEuler);
      (Some(AnimStack(name, name + "_Layer", cycle.firstFrame, cycle.lastFrame, cycle.frameRate, curves)), log)
  }

  /** The last key some entry of node `n` sets on channel `ch` at frame `f`, over the first `k` entries. */
  function LastKey(bfs: seq<BoneFrames>, k: nat, crcToNode: map<Checksum, NodeId>, n: NodeId, ch: Channel,
                   toEuler: Vector4 -> Vector3, f: nat): Option<real>
    requires k <= |bfs|
  {
    LastAt(KeysFor(bfs, k, crcToNode, n, ch, toEuler), f)
  }

  /**
   * A converted curve has a key at a frame exactly when some entry of its node
   * sets one there, and the key holds the value of the last such entry.
   */
  lemma StackCurveAt(anims: Animations, overrideName: string, crcToNode: map<Checksum, NodeId>,
                     toEuler: Vector4 -> Vector3, id: CurveId, f: nat)
    requires |anims.cycles| > 0
    requires id in ConvertAnimations(anims, overrideName, crcToNode, toEuler).0.value.curves
    ensures var curve := ConvertAnimations(anims, overrideName, crcToNode, toEuler).0.value.curves[id];
      var last := LastKey(anims.boneFrames, |anims.boneFrames|, crcToNode, id.0, id.1, toEuler, f);
      && (f in curve <==> last.Some?)
      && (f in curve ==> curve[f] == last.value)
  {
    var bfs := anims.boneFrames;
    SetKeysLookup(map[], KeysFor(bfs, |bfs|, crcToNode, id.0, id.1, toEuler), f);
  }

}
