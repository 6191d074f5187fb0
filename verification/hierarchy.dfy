/**
 * The hierarchy validator: a depth-first walk from the root that reports
 * depth overruns, revisited nodes, null children and parent back-links that
 * disagree with the child lists. It only produces diagnostics.
 */
module Hierarchy {

  import opened Wrappers
  import opened Scenes
  import opened Diagnostics

  /** Deeper branches are abandoned as a suspected parentship circle. */
  const MaxDepth: nat := 1000

  /** The walk's state: the list of already processed children and the log so far. */
  datatype Walk = Walk(processed: seq<NodeId>, log: Log)

  predicate NoDuplicates(xs: seq<NodeId>) {
    forall i, j :: 0 <= i < j < |xs| ==> xs[i] != xs[j]
  }

  predicate AllValid(s: Scene, xs: seq<NodeId>) {
    forall x :: x in xs ==> x < |s.nodes|
  }

  predicate NoDepthAbort(log: Log) {
    forall d :: d in log ==> d.event != MaxDepthReached
  }

  /** The invariant the walk keeps about its visited list. */
  predicate WalkInv(s: Scene, w: Walk) {
    NoDuplicates(w.processed) && AllValid(s, w.processed)
  }

  /** The error for a child `c` of `n` that was already processed, and the note naming its parent. */
  function CircleDiags(c: NodeId, n: NodeId): Log {
    [Err(CircleDetected(c, n)), Diag(Info, CircleParent(c, n))]
  }

  /** Diagnostics for a child whose parent back-link is not `n`. */
  function BacklinkDiags(s: Scene, c: NodeId, n: NodeId): (r: Log)
    requires c < |s.nodes|
    ensures r == [] <==> s.nodes[c].parent == Some(n)
  {
    match s.nodes[c].parent
    case None => [Err(NullParent(c, n))]
    case Some(q) => if q == n then [] else [Err(InconsistentParent(c, n))]
  }

  /** Checks the hierarchy of the current scene, if there is one. */
  function CheckHierarchy(scene: Option<Scene>): (r: Log)
    ensures scene.None? ==> r == [Err(SceneNull)]
    ensures scene.Some? && 0 < |scene.value.nodes| <= MaxDepth ==> NoDepthAbort(r)
  {
    match scene
    case None => [Err(SceneNull)]
    case Some(s) =>
      if |s.nodes| == 0 then [Err(NullNode)]
      else Visit(s, Root, 0, Walk([], [])).log
  }

  /**
   * Visits node `n` at `depth`. Each visit below the root appended its node to
   * the processed list, so `depth` never exceeds that list's length; hence the
   * depth guard cannot fire on a scene of at most `MaxDepth` nodes.
   */
  function Visit(s: Scene, n: NodeId, depth: nat, w: Walk): (r: Walk)
    requires n < |s.nodes| && WalkInv(s, w) && depth <= |w.processed|
    ensures WalkInv(s, r)
    ensures w.processed <= r.processed && w.log <= r.log
    ensures |s.nodes| <= MaxDepth && NoDepthAbort(w.log) ==> NoDepthAbort(r.log)
    decreases MaxDepth + 1 - depth, |s.nodes[n].children| + 1
  {
    if depth > MaxDepth then
      DepthBound(s, w.processed);
      w.(log := w.log + [Err(MaxDepthReached)])
    else VisitChildren(s, n, 0, depth, w)
  }

  /** Visits the children of `n` from index `i` on, in order. */
  function VisitChildren(s: Scene, n: NodeId, i: nat, depth: nat, w: Walk): (r: Walk)
    requires n < |s.nodes| && i <= |s.nodes[n].children| && depth <= MaxDepth
    requires WalkInv(s, w) && depth <= |w.processed|
    ensures WalkInv(s, r)
    ensures w.processed <= r.processed && w.log <= r.log
    ensures |s.nodes| <= MaxDepth && NoDepthAbort(w.log) ==> NoDepthAbort(r.log)
    decreases MaxDepth + 1 - depth, |s.nodes[n].children| - i
  {
    if i == |s.nodes[n].children| then w
    else
      var c := s.nodes[n].children[i];
      if c >= |s.nodes| then
        VisitChildren(s, n, i + 1, depth, w.(log := w.log + [Err(NullChild(n))]))
      else if c in w.processed then
        VisitChildren(s, n, i + 1, depth, w.(log := w.log + CircleDiags(c, n)))
      else
        var w0 := Walk(w.processed + [c], w.log + BacklinkDiags(s, c, n));
        assert WalkInv(s, w0) by { assert forall j :: 0 <= j < |w.processed| ==> w0.processed[j] == w.processed[j]; }
        assert NoDepthAbort(w.log) ==> NoDepthAbort(w0.log);
        var w1 := Visit(s, c, depth + 1, w0);
        VisitChildren(s, n, i + 1, depth, w1)
  }

  /** A duplicate-free list of valid ids is no longer than the node table. */
  lemma DepthBound(s: Scene, xs: seq<NodeId>)
    requires NoDuplicates(xs) && AllValid(s, xs)
    ensures |xs| <= |s.nodes|
  {
    var elems := Elems(xs);
    DistinctCard(xs);
    assert elems <= AllIds(s);
    SubsetCard(elems, AllIds(s));
    RangeCard(|s.nodes|);
  }

  /** The elements of a list, as a set. */
  function Elems(xs: seq<NodeId>): (r: set<NodeId>)
    ensures forall x :: x in r <==> x in xs
  {
    if |xs| == 0 then {} else Elems(xs[..|xs| - 1]) + {xs[|xs| - 1]}
  }

  lemma {:induction false} DistinctCard(xs: seq<NodeId>)
    requires NoDuplicates(xs)
    ensures |Elems(xs)| == |xs|
  {
    if |xs| > 0 {
      var init := xs[..|xs| - 1];
      assert NoDuplicates(init);
      DistinctCard(init);
      assert xs[|xs| - 1] !in init;
      assert xs[|xs| - 1] !in Elems(init);
    }
  }

  lemma {:induction false} SubsetCard(a: set<NodeId>, b: set<NodeId>)
    requires a <= b
    ensures |a| <= |b|
    decreases |b|
  {
    if a != {} {
      var x :| x in a;
      SubsetCard(a - {x}, b - {x});
    }
  }

  lemma {:induction false} RangeCard(n: nat)
    ensures |Range(n)| == n
  {
    if n > 0 {
      RangeCard(n - 1);
      var prev := Range(n - 1);
      assert Range(n) == prev + {n - 1};
      assert n - 1 !in prev;
      assert |prev + {n - 1}| == |prev| + 1;
    }
  }

  /** Two scenes with the same child lists; parent back-links may differ. */
  predicate SameShape(s: Scene, t: Scene) {
    |s.nodes| == |t.nodes| && forall i :: 0 <= i < |s.nodes| ==> s.nodes[i].children == t.nodes[i].children
  }

  /**
   * Back-link mismatches are diagnostics only: the order in which the walk
   * processes nodes depends on the child lists alone.
   */
  lemma {:induction false} VisitIgnoresBacklinks(s: Scene, t: Scene, n: NodeId, depth: nat, ws: Walk, wt: Walk)
    requires SameShape(s, t) && n < |s.nodes|
    requires WalkInv(s, ws) && WalkInv(t, wt) && depth <= |ws.processed| && depth <= |wt.processed|
    requires ws.processed == wt.processed
    ensures Visit(s, n, depth, ws).processed == Visit(t, n, depth, wt).processed
    decreases MaxDepth + 1 - depth, |s.nodes[n].children| + 1
  {
    if depth <= MaxDepth {
      ChildrenIgnoreBacklinks(s, t, n, 0, depth, ws, wt);
    }
  }

  lemma {:induction false} ChildrenIgnoreBacklinks(s: Scene, t: Scene, n: NodeId, i: nat, depth: nat, ws: Walk, wt: Walk)
    requires SameShape(s, t) && n < |s.nodes| && i <= |s.nodes[n].children| && depth <= MaxDepth
    requires WalkInv(s, ws) && WalkInv(t, wt) && depth <= |ws.processed| && depth <= |wt.processed|
    requires ws.processed == wt.processed
    ensures VisitChildren(s, n, i, depth, ws).processed == VisitChildren(t, n, i, depth, wt).processed
    decreases MaxDepth + 1 - depth, |s.nodes[n].children| - i
  {
    if i < |s.nodes[n].children| {
      var c := s.nodes[n].children[i];
      assert c == t.nodes[n].children[i];
      if c >= |s.nodes| {
        ChildrenIgnoreBacklinks(s, t, n, i + 1, depth,
          ws.(log := ws.log + [Err(NullChild(n))]), wt.(log := wt.log + [Err(NullChild(n))]));
      } else if c in ws.processed {
        ChildrenIgnoreBacklinks(s, t, n, i + 1, depth,
          ws.(log := ws.log + CircleDiags(c, n)), wt.(log := wt.log + CircleDiags(c, n)));
      } else {
        var vs := Walk(ws.processed + [c], ws.log + BacklinkDiags(s, c, n));
        var vt := Walk(wt.processed + [c], wt.log + BacklinkDiags(t, c, n));
        VisitIgnoresBacklinks(s, t, c, depth + 1, vs, vt);
        ChildrenIgnoreBacklinks(s, t, n, i + 1, depth, Visit(s, c, depth + 1, vs), Visit(t, c, depth + 1, vt));
      }
    }
  }

  /**
   * Meeting a valid child that was already processed logs a circle error and
   * a note naming the listing node as its parent, then moves on to the next
   * child: the processed list gains nothing from it, and both entries stay in
   * the final log.
   */
  lemma RevisitIsCircle(s: Scene, n: NodeId, i: nat, depth: nat, w: Walk)
    requires n < |s.nodes| && i < |s.nodes[n].children| && depth <= MaxDepth
    requires WalkInv(s, w) && depth <= |w.processed|
    requires s.nodes[n].children[i] < |s.nodes| && s.nodes[n].children[i] in w.processed
    ensures var c := s.nodes[n].children[i];
      var logged := Walk(w.processed, w.log + CircleDiags(c, n));
      && VisitChildren(s, n, i, depth, w) == VisitChildren(s, n, i + 1, depth, logged)
      && logged.log <= VisitChildren(s, n, i, depth, w).log
  {
  }

  /** `c` is a valid id other than the root and its back-link names `n`. */
  predicate ListedByParent(s: Scene, n: NodeId, c: NodeId) {
    c < |s.nodes| && c != Root && s.nodes[c].parent == Some(n)
  }

  /**
   * A consistent tree: every listed child is a valid non-root node whose
   * back-link names the node that lists it, and no list names a child twice.
   * So each node is listed at most once, and only by its parent.
   */
  predicate ConsistentTree(s: Scene) {
    && 0 < |s.nodes|
    && (forall n, j :: 0 <= n < |s.nodes| && 0 <= j < |s.nodes[n].children| ==>
          ListedByParent(s, n, s.nodes[n].children[j]))
    && (forall n, j, k :: 0 <= n < |s.nodes| && 0 <= j < k < |s.nodes[n].children| ==>
          s.nodes[n].children[j] != s.nodes[n].children[k])
  }

  /** Every node in `xs` hangs below the root or below another node of `xs`. */
  predicate Closed(s: Scene, xs: seq<NodeId>) {
    forall x :: x in xs ==>
      x < |s.nodes| && s.nodes[x].parent.Some? && (s.nodes[x].parent.value == Root || s.nodes[x].parent.value in xs)
  }

  /** Every node `q` adds to `p` hangs below `n` or below another added node. */
  predicate AddedBelow(s: Scene, p: seq<NodeId>, q: seq<NodeId>, n: NodeId) {
    forall x :: x in q && x !in p ==>
      x < |s.nodes| && s.nodes[x].parent.Some? &&
      (s.nodes[x].parent.value == n || (s.nodes[x].parent.value in q && s.nodes[x].parent.value !in p))
  }

  /** A consistent tree of at most `MaxDepth` nodes passes the check without a diagnostic. */
  lemma ConsistentTreeIsClean(s: Scene)
    requires ConsistentTree(s) && |s.nodes| <= MaxDepth
    ensures CheckHierarchy(Some(s)) == []
  {
    TreeVisitClean(s, Root, 0, Walk([], []));
  }

  /**
   * In a consistent tree, visiting a node whose children are all unprocessed
   * logs nothing, and every node it adds hangs below it.
   */
  lemma {:induction false} TreeVisitClean(s: Scene, n: NodeId, depth: nat, w: Walk)
    requires ConsistentTree(s) && |s.nodes| <= MaxDepth
    requires n < |s.nodes| && WalkInv(s, w) && depth <= |w.processed|
    requires (n == Root || n in w.processed) && Root !in w.processed && Closed(s, w.processed)
    requires forall j :: 0 <= j < |s.nodes[n].children| ==> s.nodes[n].children[j] !in w.processed
    ensures var r := Visit(s, n, depth, w);
      r.log == w.log && Root !in r.processed && Closed(s, r.processed) && AddedBelow(s, w.processed, r.processed, n)
    decreases MaxDepth + 1 - depth, |s.nodes[n].children| + 1
  {
    DepthBound(s, w.processed);
    TreeChildrenClean(s, n, 0, depth, w);
  }

  lemma {:induction false} TreeChildrenClean(s: Scene, n: NodeId, i: nat, depth: nat, w: Walk)
    requires ConsistentTree(s) && |s.nodes| <= MaxDepth
    requires n < |s.nodes| && i <= |s.nodes[n].children| && depth <= MaxDepth
    requires WalkInv(s, w) && depth <= |w.processed|
    requires (n == Root || n in w.processed) && Root !in w.processed && Closed(s, w.processed)
    requires forall j :: i <= j < |s.nodes[n].children| ==> s.nodes[n].children[j] !in w.processed
    ensures var r := VisitChildren(s, n, i, depth, w);
      r.log == w.log && Root !in r.processed && Closed(s, r.processed) && AddedBelow(s, w.processed, r.processed, n)
    decreases MaxDepth + 1 - depth, |s.nodes[n].children| - i
  {
    hide Visit, VisitChildren, ConsistentTree, Closed, AddedBelow;
    if i == |s.nodes[n].children| {
      ChildrenDone(s, n, depth, w);
    } else {
      var c := s.nodes[n].children[i];
      TreeListed(s, n, i, i);
      var w0 := Walk(w.processed + [c], w.log);
      FreshChildFacts(s, n, c, w.processed);
      FreshChildStep(s, n, i, depth, w);
      TreeVisitClean(s, c, depth + 1, w0);
      var w1 := Visit(s, c, depth + 1, w0);
      forall j | i + 1 <= j < |s.nodes[n].children|
        ensures s.nodes[n].children[j] !in w1.processed
      {
        var d := s.nodes[n].children[j];
        TreeListed(s, n, i, j);
        assert d !in w0.processed;
        SiblingUntouched(s, n, c, d, w0.processed, w1.processed);
      }
      TreeChildrenClean(s, n, i + 1, depth, w1);
      var r := VisitChildren(s, n, i + 1, depth, w1);
      AddedBelowJoin(s, n, c, w.processed, w0.processed, w1.processed, r.processed);
    }
  }

  /** Past the last child the walk is unchanged. */
  lemma ChildrenDone(s: Scene, n: NodeId, depth: nat, w: Walk)
    requires n < |s.nodes| && depth <= MaxDepth && WalkInv(s, w) && depth <= |w.processed|
    ensures VisitChildren(s, n, |s.nodes[n].children|, depth, w) == w
    ensures AddedBelow(s, w.processed, w.processed, n)
  {
  }

  /** In a consistent tree, the children a node lists are listed by it alone, and once. */
  lemma TreeListed(s: Scene, n: NodeId, i: nat, j: nat)
    requires ConsistentTree(s) && n < |s.nodes| && i <= j < |s.nodes[n].children|
    ensures ListedByParent(s, n, s.nodes[n].children[j])
    ensures i < j ==> s.nodes[n].children[i] != s.nodes[n].children[j]
  {
  }

  /** A fresh child whose back-link agrees is processed, visited, and the walk goes on with its siblings. */
  lemma FreshChildStep(s: Scene, n: NodeId, i: nat, depth: nat, w: Walk)
    requires n < |s.nodes| && i < |s.nodes[n].children| && depth <= MaxDepth
    requires WalkInv(s, w) && depth <= |w.processed|
    requires ListedByParent(s, n, s.nodes[n].children[i]) && s.nodes[n].children[i] !in w.processed
    ensures var c := s.nodes[n].children[i];
      var w0 := Walk(w.processed + [c], w.log);
      WalkInv(s, w0) &&
      VisitChildren(s, n, i, depth, w) == VisitChildren(s, n, i + 1, depth, Visit(s, c, depth + 1, w0))
  {
    var c := s.nodes[n].children[i];
    assert BacklinkDiags(s, c, n) == [];
    assert w.log + [] == w.log;
  }

  /** Processing a fresh child of a processed node keeps the walk's invariants and leaves its children unprocessed. */
  lemma FreshChildFacts(s: Scene, n: NodeId, c: NodeId, p: seq<NodeId>)
    requires ConsistentTree(s) && ListedByParent(s, n, c) && c !in p
    requires NoDuplicates(p) && AllValid(s, p)
    requires (n == Root || n in p) && Root !in p && Closed(s, p)
    ensures var q := p + [c];
      && NoDuplicates(q) && AllValid(s, q) && Root !in q && Closed(s, q)
      && (forall j :: 0 <= j < |s.nodes[c].children| ==> s.nodes[c].children[j] !in q)
  {
    var q := p + [c];
    assert forall j :: 0 <= j < |p| ==> q[j] == p[j];
    forall j | 0 <= j < |s.nodes[c].children|
      ensures s.nodes[c].children[j] !in q
    {
      assert ListedByParent(s, c, s.nodes[c].children[j]);
    }
  }

  /** A sibling of `c` is not among the nodes added below `c`. */
  lemma SiblingUntouched(s: Scene, n: NodeId, c: NodeId, d: NodeId, p: seq<NodeId>, q: seq<NodeId>)
    requires ListedByParent(s, n, d) && d !in p && n != c
    requires (n == Root || n in p) && Root !in q
    requires AddedBelow(s, p, q, c)
    ensures d !in q
  {
  }

  /** Nodes added below a child of `n`, and then below `n`, are added below `n`. */
  lemma AddedBelowJoin(s: Scene, n: NodeId, c: NodeId, p: seq<NodeId>, p0: seq<NodeId>, p1: seq<NodeId>, r: seq<NodeId>)
    requires p0 == p + [c] && c !in p && c < |s.nodes| && s.nodes[c].parent == Some(n)
    requires p0 <= p1 <= r
    requires AddedBelow(s, p0, p1, c) && AddedBelow(s, p1, r, n)
    ensures AddedBelow(s, p, r, n)
  {
    assert forall x :: x in p ==> x in p0;
    assert forall x :: x in p0 ==> x in p1;
    assert forall x :: x in p1 ==> x in r;
    forall x | x in r && x !in p
      ensures x < |s.nodes| && s.nodes[x].parent.Some?
      ensures s.nodes[x].parent.value == n || (s.nodes[x].parent.value in r && s.nodes[x].parent.value !in p)
    {
      if x == c {
      } else if x in p1 {
        assert x !in p0;
      }
    }
  }

  /** root -> 1 -> 2, and node 2 lists its ancestor 1 as a child again. */
  function CircleScene(): (s: Scene)
    ensures |s.nodes| == 3
  {
    Scene([NewNode("").(children := [1]),
           NewNode("A").(parent := Some(Root), children := [2]),
           NewNode("B").(parent := Some(1), children := [1])], [], [])
  }

  /**
   * A node's descendant re-declared as its child is reported as a circle
   * at that node, and the walk does not descend into it a second time.
   */
  lemma CircleIsReported()
    ensures CheckHierarchy(Some(CircleScene())) == [Err(CircleDetected(1, 2)), Diag(Info, CircleParent(1, 2))]
  {
    CircleOuterSteps();
    assert Visit(CircleScene(), Root, 0, Walk([], [])) == VisitChildren(CircleScene(), Root, 0, 0, Walk([], []));
  }

  lemma CircleOuterSteps()
    ensures VisitChildren(CircleScene(), Root, 0, 0, Walk([], [])) == Walk([1, 2], CircleDiags(1, 2))
  {
    var s := CircleScene();
    CircleMiddleSteps();
    CircleInnerSteps();
    assert VisitChildren(s, Root, 0, 0, Walk([], [])) == VisitChildren(s, Root, 1, 0, Walk([1, 2], CircleDiags(1, 2)));
  }

  lemma CircleMiddleSteps()
    ensures Visit(CircleScene(), 1, 1, Walk([1], [])) == Walk([1, 2], CircleDiags(1, 2))
  {
    var s := CircleScene();
    CircleInnerSteps();
    assert s.nodes[1].children[0] == 2 && 2 !in [1] && [1] + [2] == [1, 2];
    assert BacklinkDiags(s, 2, 1) == [];
    assert VisitChildren(s, 1, 0, 1, Walk([1], [])) == VisitChildren(s, 1, 1, 1, Walk([1, 2], CircleDiags(1, 2)));
  }

  lemma CircleInnerSteps()
    ensures Visit(CircleScene(), 2, 2, Walk([1, 2], [])) == Walk([1, 2], CircleDiags(1, 2))
    ensures VisitChildren(CircleScene(), 1, 1, 1, Walk([1, 2], CircleDiags(1, 2)))
         == Walk([1, 2], CircleDiags(1, 2))
    ensures VisitChildren(CircleScene(), Root, 1, 0, Walk([1, 2], CircleDiags(1, 2)))
         == Walk([1, 2], CircleDiags(1, 2))
  {
    var s := CircleScene();
    var done := Walk([1, 2], CircleDiags(1, 2));
    assert 1 in [1, 2];
    assert VisitChildren(s, 2, 0, 2, Walk([1, 2], [])) == VisitChildren(s, 2, 1, 2, done);
  }
}
