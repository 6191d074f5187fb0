/**
 * The output scene graph, reduced to what the converter builds: nodes with a
 * name, a parent back-link, an ordered child list, one attribute, material
 * slots and a local transform; a table of skin clusters (clusters are shared
 * objects: several skins may hold the same cluster); animation stacks.
 * A node id is an index into `nodes`; node 0 is the scene's root.
 */
module Scenes {

  import opened Wrappers
  import opened Msh

  type NodeId = nat
  type ClusterId = nat

  const Root: NodeId := 0

  datatype SkeletonType = RootBone | LimbNode

  /** A polygon: its material slot (-1 for none) and global control-point indices. */
  datatype Polygon = Polygon(material: int, indices: seq<nat>)

  /** A skin deformer: the clusters it holds, by id. */
  datatype Skin = Skin(name: string, clusters: seq<ClusterId>)

  datatype MeshData = MeshData(
    name: string,
    controlPoints: seq<Vector3>,
    normals: seq<Vector3>,
    uvs: seq<Vector2>,
    polygons: seq<Polygon>,
    skins: seq<Skin>)

  datatype Attribute = NoAttribute | MeshAttr(mesh: MeshData) | SkeletonAttr(kind: SkeletonType)

  datatype MaterialSlot = MaterialSlot(name: string, diffuse: Vector3, ambient: Vector3, specular: Vector3, texture: string)

  datatype Transform = Transform(translation: Vector3, rotation: Vector3, scaling: Vector3)

  datatype Node = Node(
    name: string,
    parent: Option<NodeId>,
    children: seq<NodeId>,
    attribute: Attribute,
    materials: seq<MaterialSlot>,
    transform: Transform)

  /** One weighted control point of a cluster. */
  datatype WeightEntry = WeightEntry(controlPoint: nat, weight: real)

  /** A skin cluster: the bone node it is linked to and its weighted control points. */
  datatype Cluster = Cluster(name: string, link: NodeId, entries: seq<WeightEntry>)

  datatype Channel = TX | TY | TZ | RX | RY | RZ

  /**
   * An animation curve: key values by frame. A key's time is its frame divided
   * by the stack's frame rate, so one frame holds at most one key.
   */
  type Curve = map<nat, real>

  type CurveId = (NodeId, Channel)

  /** An animation stack with its single layer and the curves of that layer. */
  datatype AnimStack = AnimStack(
    name: string,
    layer: string,
    firstFrame: nat,
    lastFrame: nat,
    frameRate: real,
    curves: map<CurveId, Curve>)

  datatype Scene = Scene(nodes: seq<Node>, clusters: seq<Cluster>, stacks: seq<AnimStack>)

  const IdentityTransform: Transform :=
    Transform(Vector3(0.0, 0.0, 0.0), Vector3(0.0, 0.0, 0.0), Vector3(1.0, 1.0, 1.0))

  /** The CRC table only names nodes of `s`. */
  predicate TableFits(s: Scene, crcToNode: map<Checksum, NodeId>) {
    forall c :: c in crcToNode ==> crcToNode[c] < |s.nodes|
  }

  /** The node ids of a list of (model index, node) entries are pairwise distinct. */
  predicate DistinctNodes(ps: seq<(nat, NodeId)>) {
    forall j, j' :: 0 <= j < j' < |ps| ==> ps[j].1 != ps[j'].1
  }

  function NewNode(name: string): Node {
    Node(name, None, [], NoAttribute, [], IdentityTransform)
  }

  /** A fresh scene holds its root node and nothing else. */
  function EmptyScene(): (s: Scene)
    ensures |s.nodes| == 1 && s.nodes[Root].children == [] && s.nodes[Root].parent.None?
    ensures s.clusters == [] && s.stacks == []
  {
    Scene([NewNode("")], [], [])
  }

  function AllIds(s: Scene): (r: set<NodeId>)
    ensures forall i: nat :: i in r <==> i < |s.nodes|
  {
    Range(|s.nodes|)
  }

  /** The ids below `n`. */
  function Range(n: nat): (r: set<NodeId>)
    ensures forall i: nat :: i in r <==> i < n
  {
    if n == 0 then {} else Range(n - 1) + {n - 1}
  }

  /** `xs` without any occurrence of `x`. */
  function Without(xs: seq<NodeId>, x: NodeId): (r: seq<NodeId>)
    ensures forall y :: y in r <==> y in xs && y != x
    ensures x !in xs ==> r == xs
  {
    if |xs| == 0 then []
    else (if xs[0] == x then [] else [xs[0]]) + Without(xs[1..], x)
  }

  /**
   * Detaches `c` from `p` when it is one of its children: `c` leaves the child
   * list of `p` and its parent becomes null. Otherwise nothing changes.
   */
  function RemoveChild(s: Scene, p: NodeId, c: NodeId): (r: Scene)
    requires p < |s.nodes| && c < |s.nodes|
    ensures |r.nodes| == |s.nodes| && r.clusters == s.clusters && r.stacks == s.stacks
    ensures c !in s.nodes[p].children ==> r == s
    ensures c in s.nodes[p].children ==>
      && r.nodes[p].children == Without(s.nodes[p].children, c)
      && r.nodes[c].parent.None?
    ensures forall i :: 0 <= i < |s.nodes| && i != p && i != c ==> r.nodes[i] == s.nodes[i]
    ensures forall i :: 0 <= i < |s.nodes| ==> SameContent(r.nodes[i], s.nodes[i])
    ensures forall i :: 0 <= i < |s.nodes| && i != c ==> r.nodes[i].parent == s.nodes[i].parent
  {
    if c !in s.nodes[p].children then s
    else
      var pn := s.nodes[p];
      var nodes1 := s.nodes[p := pn.(children := Without(pn.children, c))];
      s.(nodes := nodes1[c := nodes1[c].(parent := None)])
  }

  /**
   * Makes `c` the last child of `p`. A node that already has a parent is first
   * removed from that parent's child list.
   */
  function AddChild(s: Scene, p: NodeId, c: NodeId): (r: Scene)
    requires p < |s.nodes| && c < |s.nodes|
    ensures |r.nodes| == |s.nodes| && r.clusters == s.clusters && r.stacks == s.stacks
    ensures r.nodes[c].parent == Some(p)
    ensures |r.nodes[p].children| > 0 && r.nodes[p].children[|r.nodes[p].children| - 1] == c
    ensures forall i :: 0 <= i < |s.nodes| && i != p && i != c && Some(i) != s.nodes[c].parent ==>
      r.nodes[i] == s.nodes[i]
    ensures forall i :: 0 <= i < |s.nodes| ==> SameContent(r.nodes[i], s.nodes[i])
    ensures forall i :: 0 <= i < |s.nodes| && i != c ==> r.nodes[i].parent == s.nodes[i].parent
  {
    var s1 := Detach(s, c);
    var pn := s1.nodes[p];
    var nodes2 := s1.nodes[p := pn.(children := pn.children + [c])];
    s1.(nodes := nodes2[c := nodes2[c].(parent := Some(p))])
  }

  /** Removes `c` from its current parent, if it has a valid one. */
  function Detach(s: Scene, c: NodeId): (r: Scene)
    requires c < |s.nodes|
    ensures |r.nodes| == |s.nodes| && r.clusters == s.clusters && r.stacks == s.stacks
    ensures forall i :: 0 <= i < |s.nodes| && i != c && Some(i) != s.nodes[c].parent ==> r.nodes[i] == s.nodes[i]
    ensures forall i :: 0 <= i < |s.nodes| ==> SameContent(r.nodes[i], s.nodes[i])
    ensures forall i :: 0 <= i < |s.nodes| && i != c ==> r.nodes[i].parent == s.nodes[i].parent
  {
    match s.nodes[c].parent
    case Some(q) => if q < |s.nodes| then RemoveChild(s, q, c) else s
    case None => s
  }

  /** Two nodes agree on everything except their links. */
  predicate SameContent(a: Node, b: Node) {
    a.name == b.name && a.attribute == b.attribute && a.materials == b.materials && a.transform == b.transform
  }

  /** Appends a new node named `name` and makes it a child of the root. */
  function CreateUnderRoot(s: Scene, name: string): (r: (Scene, NodeId))
    requires |s.nodes| > 0
    ensures r.1 == |s.nodes| && |r.0.nodes| == |s.nodes| + 1
    ensures r.0.nodes[r.1] == NewNode(name).(parent := Some(Root))
    ensures r.0.nodes[Root] == s.nodes[Root].(children := s.nodes[Root].children + [r.1])
    ensures forall i :: 0 < i < |s.nodes| ==> r.0.nodes[i] == s.nodes[i]
    ensures r.0.clusters == s.clusters && r.0.stacks == s.stacks
  {
    var id := |s.nodes|;
    var root := s.nodes[Root];
    (s.(nodes := s.nodes[Root := root.(children := root.children + [id])] + [NewNode(name).(parent := Some(Root))]), id)
  }

  function SetAttribute(s: Scene, id: NodeId, a: Attribute): (r: Scene)
    requires id < |s.nodes|
    ensures r.nodes == s.nodes[id := s.nodes[id].(attribute := a)]
    ensures r.clusters == s.clusters && r.stacks == s.stacks
  {
    s.(nodes := s.nodes[id := s.nodes[id].(attribute := a)])
  }

  function SetMaterials(s: Scene, id: NodeId, slots: seq<MaterialSlot>): (r: Scene)
    requires id < |s.nodes|
    ensures r.nodes == s.nodes[id := s.nodes[id].(materials := slots)]
    ensures r.clusters == s.clusters && r.stacks == s.stacks
  {
    s.(nodes := s.nodes[id := s.nodes[id].(materials := slots)])
  }

  function SetTransform(s: Scene, id: NodeId, t: Transform): (r: Scene)
    requires id < |s.nodes|
    ensures r.nodes == s.nodes[id := s.nodes[id].(transform := t)]
    ensures r.clusters == s.clusters && r.stacks == s.stacks
  {
    s.(nodes := s.nodes[id := s.nodes[id].(transform := t)])
  }

  /**
   * The nodes reachable from the nodes of `work` along child lists, together
   * with `seen`; invalid ids are ignored. Terminates on cyclic child lists.
   */
  function Reach(s: Scene, work: seq<NodeId>, seen: set<NodeId>): (r: set<NodeId>)
    requires seen <= AllIds(s)
    ensures seen <= r <= AllIds(s)
    ensures forall y :: y in work && y < |s.nodes| ==> y in r
    ensures forall y, c :: y in r && y !in seen && c in s.nodes[y].children && c < |s.nodes| ==> c in r
    decreases |AllIds(s) - seen|, |work|
  {
    if |work| == 0 then seen
    else
      var x := work[0];
      if x >= |s.nodes| || x in seen then Reach(s, work[1..], seen)
      else
        assert AllIds(s) - (seen + {x}) < AllIds(s) - seen by {
          assert x in AllIds(s) - seen;
        }
        var r := Reach(s, work[1..] + s.nodes[x].children, seen + {x});
        assert forall y :: y in work[1..] ==> y in work[1..] + s.nodes[x].children;
        r
  }

  /** The nodes of the tree under the root (the root itself only if some node lists it as a child). */
  function Descendants(s: Scene): (r: set<NodeId>)
    ensures r <= AllIds(s)
    ensures |s.nodes| > 0 ==> forall c :: c in s.nodes[Root].children && c < |s.nodes| ==> c in r
    ensures forall y, c :: y in r && c in s.nodes[y].children && c < |s.nodes| ==> c in r
  {
    if |s.nodes| == 0 then {} else Reach(s, s.nodes[Root].children, {})
  }

  /**
   * Name lookup over the tree under the root: the least node id below the
   * root whose name is `name`.
   */
  function FindByName(s: Scene, name: string): (r: Option<NodeId>)
    ensures r.Some? ==>
      && 0 < r.value < |s.nodes| && r.value in Descendants(s) && s.nodes[r.value].name == name
      && forall i :: 0 < i < r.value && i in Descendants(s) ==> s.nodes[i].name != name
    ensures r.None? ==> forall i :: 0 < i < |s.nodes| && i in Descendants(s) ==> s.nodes[i].name != name
  {
    FirstNamed(s, name, Descendants(s), 1)
  }

  function FirstNamed(s: Scene, name: string, d: set<NodeId>, from: nat): (r: Option<NodeId>)
    requires from > 0
    ensures r.Some? ==>
      && from <= r.value < |s.nodes| && r.value in d && s.nodes[r.value].name == name
      && forall i :: from <= i < r.value && i in d ==> s.nodes[i].name != name
    ensures r.None? ==> forall i :: from <= i < |s.nodes| && i in d ==> s.nodes[i].name != name
    decreases |s.nodes| - from
  {
    if from >= |s.nodes| then None
    else if from in d && s.nodes[from].name == name then Some(from)
    else FirstNamed(s, name, d, from + 1)
  }
}
