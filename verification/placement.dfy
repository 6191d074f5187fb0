/**
 * The second pass over the converted models: each model's node moves under
 * the node named as the model's parent, if one is found below the root, and
 * takes the model's local transform.
 */
module Placement {

  import opened Wrappers
  import opened Msh
  import opened Scenes
  import opened Diagnostics

  /** The local transform of a model: translation and scale as stored, rotation as Euler angles. */
  function ModelTransform(model: Model, toEuler: Vector4 -> Vector3): Transform {
    Transform(model.transition.translation, toEuler(model.transition.rotation), model.transition.scale)
  }

  /** Two nodes agree on everything the placement pass leaves alone. */
  predicate Kept(a: Node, b: Node) {
    a.name == b.name && a.attribute == b.attribute && a.materials == b.materials
  }

  /** Node `n` of model `model` hangs under the root or under a node named as the model's parent. */
  predicate ParentOk(s: Scene, model: Model, n: NodeId)
    requires n < |s.nodes|
  {
    s.nodes[n].parent == Some(Root) ||
    (model.parent != "" && s.nodes[n].parent.Some? && s.nodes[n].parent.value < |s.nodes| &&
     s.nodes[s.nodes[n].parent.value].name == model.parent)
  }

  /** Places the node `e.1` of model `e.0`. */
  function PlaceOne(s: Scene, models: seq<Model>, e: (nat, NodeId), toEuler: Vector4 -> Vector3): (r: (Scene, Log))
    requires e.0 < |models| && e.1 < |s.nodes|
    ensures |r.0.nodes| == |s.nodes| && r.0.clusters == s.clusters && r.0.stacks == s.stacks
  {
    var model := models[e.0];
    var n := e.1;
    var (s1, log) :=
      if model.parent == "" then (s, [])
      else
        match FindByName(s, model.parent)
        case Some(p) => (AddChild(RemoveChild(s, Root, n), p, n), [])
        case None => (s, [Warn(ParentNotFound(model.parent))]);
    (SetTransform(s1, n, ModelTransform(model, toEuler)), log)
  }

  /**
   * Placing one node touches only that node's parent link and transform
   * (besides the child lists), and gives the node its model's transform.
   */
  lemma PlaceOneFrame(s: Scene, models: seq<Model>, e: (nat, NodeId), toEuler: Vector4 -> Vector3)
    requires e.0 < |models| && e.1 < |s.nodes|
    ensures var r := PlaceOne(s, models, e, toEuler).0;
      && (forall i :: 0 <= i < |s.nodes| ==> Kept(r.nodes[i], s.nodes[i]))
      && (forall i :: 0 <= i < |s.nodes| && i != e.1 ==>
            r.nodes[i].parent == s.nodes[i].parent && r.nodes[i].transform == s.nodes[i].transform)
      && r.nodes[e.1].transform == ModelTransform(models[e.0], toEuler)
  {
  }

  /**
   * The node becomes the last child of the node found by its model's parent
   * name, or stays where it is (with a warning when a parent is named but no
   * such node exists).
   */
  lemma PlaceOneEffect(s: Scene, models: seq<Model>, e: (nat, NodeId), toEuler: Vector4 -> Vector3)
    requires e.0 < |models| && e.1 < |s.nodes|
    ensures var (r, log) := PlaceOne(s, models, e, toEuler);
      var name := models[e.0].parent;
      && (name == "" ==> r.nodes[e.1].parent == s.nodes[e.1].parent && log == [])
      && (name != "" && FindByName(s, name).None? ==>
            r.nodes[e.1].parent == s.nodes[e.1].parent && log == [Warn(ParentNotFound(name))])
      && (name != "" && FindByName(s, name).Some? ==>
            var p := FindByName(s, name).value;
            && r.nodes[e.1].parent == Some(p) && log == []
            && |r.nodes[p].children| > 0 && r.nodes[p].children[|r.nodes[p].children| - 1] == e.1)
  {
  }

  /** The placement pass over the first `k` converted models. */
  function PlaceAll(s: Scene, models: seq<Model>, ps: seq<(nat, NodeId)>, k: nat, toEuler: Vector4 -> Vector3)
    : (r: (Scene, Log))
    requires k <= |ps| && forall j :: 0 <= j < |ps| ==> ps[j].0 < |models| && ps[j].1 < |s.nodes|
    ensures |r.0.nodes| == |s.nodes| && r.0.clusters == s.clusters && r.0.stacks == s.stacks
  {
    if k == 0 then (s, [])
    else
      var (s1, log) := PlaceAll(s, models, ps, k - 1, toEuler);
      var (s2, log2) := PlaceOne(s1, models, ps[k - 1], toEuler);
      (s2, log + log2)
  }

  /** The facts the placement pass establishes after `k` steps. */
  predicate Placed(s: Scene, r: Scene, models: seq<Model>, ps: seq<(nat, NodeId)>, k: nat, toEuler: Vector4 -> Vector3)
    requires k <= |ps| && |r.nodes| == |s.nodes|
    requires forall j :: 0 <= j < |ps| ==> ps[j].0 < |models| && ps[j].1 < |s.nodes|
  {
    && (forall i :: 0 <= i < |s.nodes| ==> Kept(r.nodes[i], s.nodes[i]))
    && (forall j :: 0 <= j < k ==> r.nodes[ps[j].1].transform == ModelTransform(models[ps[j].0], toEuler))
    && (forall j :: 0 <= j < k ==> ParentOk(r, models[ps[j].0], ps[j].1))
    && (forall j :: k <= j < |ps| ==> r.nodes[ps[j].1].parent == s.nodes[ps[j].1].parent)
    && (forall i :: 0 <= i < |s.nodes| && (forall j :: 0 <= j < k ==> ps[j].1 != i) ==>
          r.nodes[i].transform == s.nodes[i].transform && r.nodes[i].parent == s.nodes[i].parent)
  }

  /**
   * After the pass, every converted model's node carries the model's transform
   * and hangs under the root or under a node named as the model's parent;
   * names, attributes and materials of all nodes, and transforms and parents
   * of nodes of other models, are unchanged.
   */
  lemma {:induction false} PlaceAllFacts(s: Scene, models: seq<Model>, ps: seq<(nat, NodeId)>, k: nat, toEuler: Vector4 -> Vector3,
                                         r: Scene)
    requires k <= |ps| && forall j :: 0 <= j < |ps| ==> ps[j].0 < |models| && ps[j].1 < |s.nodes|
    requires DistinctNodes(ps)
    requires forall j :: 0 <= j < |ps| ==> s.nodes[ps[j].1].parent == Some(Root)
    requires r == PlaceAll(s, models, ps, k, toEuler).0
    ensures Placed(s, r, models, ps, k, toEuler)
  {
    // The step lemma carries the definitions; here they only need chaining.
    hide Placed, PlaceOne;
    if k == 0 {
      PlacedNothing(s, models, ps, toEuler);
    } else {
      var s1 := PlaceAll(s, models, ps, k - 1, toEuler).0;
      assert r == PlaceOne(s1, models, ps[k - 1], toEuler).0;
      PlaceAllFacts(s, models, ps, k - 1, toEuler, s1);
      PlacedStep(s, s1, r, models, ps, k, toEuler);
    }
  }

  /** Before the first step the pass's facts hold of the scene it starts from. */
  lemma PlacedNothing(s: Scene, models: seq<Model>, ps: seq<(nat, NodeId)>, toEuler: Vector4 -> Vector3)
    requires forall j :: 0 <= j < |ps| ==> ps[j].0 < |models| && ps[j].1 < |s.nodes|
    ensures Placed(s, PlaceAll(s, models, ps, 0, toEuler).0, models, ps, 0, toEuler)
  {
  }

  lemma PlacedStep(s: Scene, s1: Scene, r: Scene, models: seq<Model>, ps: seq<(nat, NodeId)>, k: nat,
                   toEuler: Vector4 -> Vector3)
    requires 0 < k <= |ps| && forall j :: 0 <= j < |ps| ==> ps[j].0 < |models| && ps[j].1 < |s.nodes|
    requires DistinctNodes(ps)
    requires forall j :: 0 <= j < |ps| ==> s.nodes[ps[j].1].parent == Some(Root)
    requires |s1.nodes| == |s.nodes| && Placed(s, s1, models, ps, k - 1, toEuler)
    requires r == PlaceOne(s1, models, ps[k - 1], toEuler).0
    ensures Placed(s, r, models, ps, k, toEuler)
  {
    PlaceOneFrame(s1, models, ps[k - 1], toEuler);
    FramesStep(s, s1, r, models, ps, k, toEuler);
    ParentsStep(s, s1, r, models, ps, k, toEuler);
  }

  lemma FramesStep(s: Scene, s1: Scene, r: Scene, models: seq<Model>, ps: seq<(nat, NodeId)>, k: nat,
                   toEuler: Vector4 -> Vector3)
    requires 0 < k <= |ps| && forall j :: 0 <= j < |ps| ==> ps[j].0 < |models| && ps[j].1 < |s.nodes|
    requires DistinctNodes(ps)
    requires |s1.nodes| == |s.nodes| && Placed(s, s1, models, ps, k - 1, toEuler)
    requires r == PlaceOne(s1, models, ps[k - 1], toEuler).0
    ensures |r.nodes| == |s.nodes|
    ensures forall i :: 0 <= i < |s.nodes| ==> Kept(r.nodes[i], s.nodes[i])
    ensures forall j :: 0 <= j < k ==> r.nodes[ps[j].1].transform == ModelTransform(models[ps[j].0], toEuler)
    ensures forall j :: k <= j < |ps| ==> r.nodes[ps[j].1].parent == s.nodes[ps[j].1].parent
    ensures forall i :: 0 <= i < |s.nodes| && (forall j :: 0 <= j < k ==> ps[j].1 != i) ==>
      r.nodes[i].transform == s.nodes[i].transform && r.nodes[i].parent == s.nodes[i].parent
  {
    PlaceOneFrame(s1, models, ps[k - 1], toEuler);
    var n := ps[k - 1].1;
    forall j | 0 <= j < k
      ensures r.nodes[ps[j].1].transform == ModelTransform(models[ps[j].0], toEuler)
    {
      if j < k - 1 {
        assert ps[j].1 != n;
      }
    }
    forall j | k <= j < |ps|
      ensures r.nodes[ps[j].1].parent == s.nodes[ps[j].1].parent
    {
      assert ps[j].1 != n;
    }
    forall i | 0 <= i < |s.nodes| && (forall j :: 0 <= j < k ==> ps[j].1 != i)
      ensures r.nodes[i].transform == s.nodes[i].transform && r.nodes[i].parent == s.nodes[i].parent
    {
      assert ps[k - 1].1 != i;
    }
  }

  lemma ParentsStep(s: Scene, s1: Scene, r: Scene, models: seq<Model>, ps: seq<(nat, NodeId)>, k: nat,
                    toEuler: Vector4 -> Vector3)
    requires 0 < k <= |ps| && forall j :: 0 <= j < |ps| ==> ps[j].0 < |models| && ps[j].1 < |s.nodes|
    requires DistinctNodes(ps)
    requires forall j :: 0 <= j < |ps| ==> s.nodes[ps[j].1].parent == Some(Root)
    requires |s1.nodes| == |s.nodes| && Placed(s, s1, models, ps, k - 1, toEuler)
    requires r == PlaceOne(s1, models, ps[k - 1], toEuler).0
    ensures |r.nodes| == |s.nodes|
    ensures forall j :: 0 <= j < k ==> ParentOk(r, models[ps[j].0], ps[j].1)
  {
    PlaceOneFrame(s1, models, ps[k - 1], toEuler);
    PlaceOneEffect(s1, models, ps[k - 1], toEuler);
    var n := ps[k - 1].1;
    forall j | 0 <= j < k
      ensures ParentOk(r, models[ps[j].0], ps[j].1)
    {
      if j < k - 1 {
        assert ps[j].1 != n;
        assert ParentOk(s1, models[ps[j].0], ps[j].1);
        var q := r.nodes[ps[j].1].parent;
        if q.Some? && q.value < |s.nodes| {
          assert Kept(r.nodes[q.value], s1.nodes[q.value]);
        }
      } else {
        if r.nodes[n].parent != s1.nodes[n].parent {
          var p := FindByName(s1, models[ps[k - 1].0].parent).value;
          assert Kept(r.nodes[p], s1.nodes[p]);
        }
      }
    }
  }
}
