/** What a finished walk says about the control-flow graph: the visited blocks are the reachable ones, the
    numbering is depth-first, and dominance read off the numbers is dominance in the graph. */
module Numbering {
  import opened Paths
  import opened Semidominators
  import opened Discovery

  // ----- paths over block identities

  ghost predicate CfgPath(c: Cfg, p: seq<nat>, u: nat, v: nat) {
    && 0 < |p| && p[0] == u && p[|p| - 1] == v
    && (forall i :: 0 <= i < |p| ==> p[i] < |c.succs|)
    && forall i :: 0 < i < |p| ==> p[i] in c.succs[p[i - 1]]
  }

  ghost predicate CfgReachable(c: Cfg, b: nat) {
    exists p :: CfgPath(c, p, 0, b)
  }

  ghost predicate CfgDominates(c: Cfg, d: nat, b: nat) {
    forall p :: CfgPath(c, p, 0, b) ==> d in p
  }

  ghost predicate CfgImmediatelyDominates(c: Cfg, d: nat, b: nat) {
    && d != b && CfgDominates(c, d, b)
    && forall e: nat :: e != b && CfgDominates(c, e, b) ==> CfgDominates(c, e, d)
  }

  // ----- the visited blocks are the reachable ones

  lemma {:induction false} PathStaysMarked(c: Cfg, w: Walk, p: seq<nat>, i: nat)
    requires Discovered(c, w) && i < |p| && CfgPath(c, p, 0, p[|p| - 1])
    ensures Marked(w, p[i])
  {
    if i == 0 {
      assert w.preorder[0] == 0;
    } else {
      PathStaysMarked(c, w, p, i - 1);
      EdgesSettled(c, w, p[i - 1], p[i]);
    }
  }

  lemma EdgesSettled(c: Cfg, w: Walk, u: nat, v: nat)
    requires Discovered(c, w) && Marked(w, u) && v in c.succs[u]
    ensures EdgeSettled(c, w, u, v)
  {
    assert !OnStack(w, u);
    assert Finished(w, u);
  }

  lemma {:induction false} TreeBranch(c: Cfg, w: Walk, i: nat) returns (p: seq<nat>)
    requires Discovered(c, w) && i < |w.preorder|
    ensures CfgPath(c, p, 0, w.preorder[i])
    decreases i
  {
    if i == 0 {
      p := [0];
    } else {
      p := TreeBranch(c, w, w.parent[i]);
      p := p + [w.preorder[i]];
    }
  }

  /** Discovery visits exactly the blocks reachable from the entry, each once: preorder and postorder are
      enumerations of the reachable set without repetition. */
  lemma DiscoveryVisitsReachable(c: Cfg, w: Walk, b: nat)
    requires Discovered(c, w)
    ensures Marked(w, b) <==> CfgReachable(c, b)
    ensures Finished(w, b) <==> CfgReachable(c, b)
    ensures b in w.preorder <==> CfgReachable(c, b)
    ensures b in w.postorder <==> CfgReachable(c, b)
    ensures forall i, j :: 0 <= i < j < |w.preorder| ==> w.preorder[i] != w.preorder[j]
    ensures forall i, j :: 0 <= i < j < |w.postorder| ==> w.postorder[i] != w.postorder[j]
  {
    if Marked(w, b) {
      var p := TreeBranch(c, w, w.preorderNum[b]);
      assert !OnStack(w, b);
    }
    if CfgReachable(c, b) {
      var p :| CfgPath(c, p, 0, b);
      PathStaysMarked(c, w, p, |p| - 1);
    }
    if b in w.preorder {
      var i :| 0 <= i < |w.preorder| && w.preorder[i] == b;
    }
    if b in w.postorder {
      var i :| 0 <= i < |w.postorder| && w.postorder[i] == b;
      assert Finished(w, b);
    }
  }

  /** Reverse postorder puts a block before its successors, except along edges back to a tree ancestor. */
  lemma PostorderOrdersEdges(c: Cfg, w: Walk, u: nat, v: nat)
    requires Discovered(c, w) && CfgReachable(c, u) && v in c.succs[u]
    ensures Marked(w, u) && Marked(w, v)
    ensures w.postorderNum[v] < w.postorderNum[u] || Ancestor(w.parent, Num(w, v), Num(w, u))
  {
    DiscoveryVisitsReachable(c, w, u);
    EdgesSettled(c, w, u, v);
  }

  /** The finishing order, read off the spanning tree: a block finishes after everything below it, and blocks
      neither of which is below the other finish in the order they were visited. */
  lemma PostorderFromTree(c: Cfg, w: Walk, a: nat, b: nat)
    requires Discovered(c, w) && Ordered(c, w) && Marked(w, a) && Marked(w, b) && a != b
    ensures Finished(w, a) && Finished(w, b)
    ensures w.postorderNum[a] < w.postorderNum[b] <==>
              Ancestor(w.parent, Num(w, b), Num(w, a)) ||
              (Num(w, a) < Num(w, b) && !Ancestor(w.parent, Num(w, a), Num(w, b)))
  {
    assert !OnStack(w, a) && !OnStack(w, b);
    assert w.preorder[Num(w, a)] == a && w.preorder[Num(w, b)] == b;
    if Num(w, a) < Num(w, b) {
      assert FinishInOrder(w, a, b);
      if Ancestor(w.parent, Num(w, b), Num(w, a)) {
        AncestorBounds(w.parent, Num(w, b), Num(w, a));
      }
    } else {
      assert FinishInOrder(w, b, a);
    }
  }

  /** The first predecessor a join lists is its parent in the spanning tree, and a later one was not visited earlier,
      unless it is an ancestor of the one before. */
  lemma JoinListsFollowWalk(c: Cfg, w: Walk, b: nat)
    requires Discovered(c, w) && Ordered(c, w) && Marked(w, b) && c.kinds[b] == JoinEntry
    ensures 0 < Num(w, b) && w.predecessors[b] != []
    ensures w.predecessors[b][0] == w.preorder[w.parent[Num(w, b)]]
    ensures forall i, j :: 0 <= i < j < |w.predecessors[b]| ==>
              Marked(w, w.predecessors[b][i]) && Marked(w, w.predecessors[b][j]) &&
              (Num(w, w.predecessors[b][i]) <= Num(w, w.predecessors[b][j]) ||
               Ancestor(w.parent, Num(w, w.predecessors[b][j]), Num(w, w.predecessors[b][i])))
  {
    assert ListedInOrder(c, w, b);
    forall i, j | 0 <= i < j < |w.predecessors[b]|
      ensures NotAfter(w, w.predecessors[b][i], w.predecessors[b][j])
    {
    }
  }

  /** Successors are visited from the last of the list to the first: of two tree children of a block, the one
      mentioned last is visited first. */
  lemma LastSuccessorFirst(c: Cfg, w: Walk, x: nat, y: nat, j: nat)
    requires Discovered(c, w) && Ordered(c, w) && Marked(w, x) && 0 < Num(w, x)
    requires j < |c.succs[w.preorder[w.parent[Num(w, x)]]]| && c.succs[w.preorder[w.parent[Num(w, x)]]][j] == y
    requires x !in c.succs[w.preorder[w.parent[Num(w, x)]]][j..]
    ensures Marked(w, y) && Num(w, y) < Num(w, x)
  {
    assert VisitedFromBack(c, w, x);
  }

  // ----- the recorded predecessor lists, in numbers

  /** block_predecessor_count and block_predecessor_at: the graph entry has no predecessors. */
  function Predecessors(c: Cfg, lists: seq<seq<nat>>, b: nat): seq<nat>
    requires b < |c.kinds| == |lists|
  {
    if c.kinds[b] == GraphEntry then [] else lists[b]
  }

  function NumberAll(nums: seq<int>, blocks: seq<nat>): (r: seq<nat>)
    requires forall u :: u in blocks ==> u < |nums| && nums[u] >= 0
  {
    seq(|blocks|, i requires 0 <= i < |blocks| => assert blocks[i] in blocks; nums[blocks[i]])
  }

  /** When the walk is over, every edge out of a visited block has been looked at. */
  lemma SeenIsAll(c: Cfg, w: Walk, u: nat)
    requires Discovered(c, w) && u < |c.succs|
    ensures SeenSuccessors(c, w, u) == if Marked(w, u) then c.succs[u] else []
  {
    if Marked(w, u) {
      assert !OnStack(w, u);
      assert Finished(w, u);
    }
  }

  lemma RecordedEdge(c: Cfg, w: Walk, b: nat, u: nat)
    requires Discovered(c, w) && Marked(w, b)
    ensures u in Predecessors(c, w.predecessors, b) ==> Marked(w, u) && b in c.succs[u]
    ensures c.kinds[b] == JoinEntry && Marked(w, u) && b in c.succs[u] ==> u in Predecessors(c, w.predecessors, b)
    ensures c.kinds[b] == TargetEntry ==> |Predecessors(c, w.predecessors, b)| == 1
  {
    assert RecordsEdges(c, w, b);
    if u < |c.succs| {
      SeenIsAll(c, w, u);
      if c.kinds[b] == JoinEntry {
        assert u in multiset(w.predecessors[b]) <==> u in w.predecessors[b];
        assert b in multiset(SeenSuccessors(c, w, u)) <==> b in SeenSuccessors(c, w, u);
      }
    }
  }

  lemma PredecessorsAreMarked(c: Cfg, w: Walk, b: nat)
    requires Discovered(c, w) && Marked(w, b)
    ensures forall u :: u in Predecessors(c, w.predecessors, b) ==> Marked(w, u)
  {
    forall u | u in Predecessors(c, w.predecessors, b)
      ensures Marked(w, u)
    {
      RecordedEdge(c, w, b, u);
    }
  }

  /** A join block's list holds each reachable edge into it exactly once. */
  lemma JoinListsAreExact(c: Cfg, w: Walk, b: nat, u: nat)
    requires Discovered(c, w) && CfgReachable(c, b) && u < |c.succs|
    ensures b < |c.succs|
    ensures c.kinds[b] == JoinEntry ==>
              multiset(Predecessors(c, w.predecessors, b))[u] ==
              if CfgReachable(c, u) then multiset(c.succs[u])[b] else 0
  {
    DiscoveryVisitsReachable(c, w, b);
    DiscoveryVisitsReachable(c, w, u);
    SeenIsAll(c, w, u);
    assert RecordsEdges(c, w, b);
  }

  /** The graph compute_dominators works on. */
  ghost function NumberedGraph(c: Cfg, w: Walk): Graph
    requires Discovered(c, w)
  {
    seq(|w.preorder|, i requires 0 <= i < |w.preorder| =>
      assert Marked(w, w.preorder[i]);
      PredecessorsAreMarked(c, w, w.preorder[i]);
      NumberAll(w.preorderNum, Predecessors(c, w.predecessors, w.preorder[i])))
  }

  /** The predecessor fields can represent the reachable graph: a target block has room for one
      predecessor, the graph entry for none. */
  ghost predicate SinglyEntered(c: Cfg) {
    && (forall u: nat, b: nat :: ReachableEdge(c, u, b) ==> c.kinds[b] != GraphEntry)
    && (forall u: nat, v: nat, b: nat ::
          ReachableEdge(c, u, b) && ReachableEdge(c, v, b) && c.kinds[b] == TargetEntry ==> u == v)
  }

  ghost predicate ReachableEdge(c: Cfg, u: nat, b: nat) {
    CfgReachable(c, u) && u < |c.succs| && b in c.succs[u] && b < |c.kinds|
  }

  lemma NumberedEdges(c: Cfg, w: Walk, i: nat, j: nat)
    requires Discovered(c, w) && j < |w.preorder|
    ensures i in NumberedGraph(c, w)[j] <==>
            i < |w.preorder| && w.preorder[i] in Predecessors(c, w.predecessors, w.preorder[j])
  {
    var b := w.preorder[j];
    assert Marked(w, b);
    PredecessorsAreMarked(c, w, b);
    var ps := Predecessors(c, w.predecessors, b);
    var ns := NumberedGraph(c, w)[j];
    assert ns == NumberAll(w.preorderNum, ps);
    if i in ns {
      var k :| 0 <= k < |ns| && ns[k] == i;
      assert ps[k] in ps;
    }
    if i < |w.preorder| && w.preorder[i] in ps {
      var k :| 0 <= k < |ps| && ps[k] == w.preorder[i];
      assert ns[k] == i;
    }
  }

  /** Both graphs have an edge between the blocks numbered i and j, or neither has. */
  ghost predicate SameEdge(c: Cfg, w: Walk, i: nat, j: nat)
    requires Discovered(c, w) && i < |w.preorder| && j < |w.preorder|
  {
    i in NumberedGraph(c, w)[j] <==> w.preorder[j] in c.succs[w.preorder[i]]
  }

  ghost predicate SameEdges(c: Cfg, w: Walk)
    requires Discovered(c, w)
  {
    forall i: nat, j: nat :: i < |w.preorder| && j < |w.preorder| ==> SameEdge(c, w, i, j)
  }

  /** The numbered graph has exactly the edges of the reachable graph if and only if the predecessor fields
      can represent it. */
  lemma NumberedGraphExact(c: Cfg, w: Walk)
    requires Discovered(c, w)
    ensures SinglyEntered(c) <==> SameEdges(c, w)
  {
    if SinglyEntered(c) {
      forall i: nat, j: nat | i < |w.preorder| && j < |w.preorder|
        ensures SameEdge(c, w, i, j)
      {
        SinglyEnteredEdge(c, w, i, j);
      }
    }
    if SameEdges(c, w) {
      forall u: nat, b: nat | ReachableEdge(c, u, b)
        ensures c.kinds[b] != GraphEntry
        ensures c.kinds[b] == TargetEntry ==> Predecessors(c, w.predecessors, b) == [u]
      {
        EdgeIsRecorded(c, w, u, b);
      }
    }
  }

  lemma EdgeIsListed(c: Cfg, w: Walk, u: nat, b: nat)
    requires Discovered(c, w) && SameEdges(c, w) && CfgReachable(c, u) && u < |c.succs| && b in c.succs[u]
    ensures Marked(w, u) && Marked(w, b) && u in Predecessors(c, w.predecessors, b)
  {
    DiscoveryVisitsReachable(c, w, u);
    EdgesSettled(c, w, u, b);
    assert SameEdge(c, w, Num(w, u), Num(w, b));
    NumberedEdges(c, w, Num(w, u), Num(w, b));
  }

  lemma EdgeIsRecorded(c: Cfg, w: Walk, u: nat, b: nat)
    requires Discovered(c, w) && SameEdges(c, w) && CfgReachable(c, u) && u < |c.succs| && b in c.succs[u]
    ensures Marked(w, u) && Marked(w, b) && u in Predecessors(c, w.predecessors, b)
    ensures c.kinds[b] != GraphEntry
    ensures c.kinds[b] == TargetEntry ==> Predecessors(c, w.predecessors, b) == [u]
  {
    EdgeIsListed(c, w, u, b);
    RecordedEdge(c, w, b, u);
  }

  lemma SinglyEnteredEdge(c: Cfg, w: Walk, i: nat, j: nat)
    requires Discovered(c, w) && SinglyEntered(c) && i < |w.preorder| && j < |w.preorder|
    ensures SameEdge(c, w, i, j)
  {
    var u, b := w.preorder[i], w.preorder[j];
    assert Marked(w, u) && Marked(w, b);
    NumberedEdges(c, w, i, j);
    RecordedEdge(c, w, b, u);
    if b in c.succs[u] {
      OnlyPredecessor(c, w, b, u);
    }
  }

  lemma OnlyPredecessor(c: Cfg, w: Walk, b: nat, u: nat)
    requires Discovered(c, w) && SinglyEntered(c) && Marked(w, b) && Marked(w, u) && b in c.succs[u]
    ensures c.kinds[b] != GraphEntry
    ensures c.kinds[b] == TargetEntry ==> Predecessors(c, w.predecessors, b) == [u]
  {
    DiscoveryVisitsReachable(c, w, u);
    assert ReachableEdge(c, u, b);
    RecordedEdge(c, w, b, u);
    if c.kinds[b] == TargetEntry {
      var v := Predecessors(c, w.predecessors, b)[0];
      RecordedEdge(c, w, b, v);
      DiscoveryVisitsReachable(c, w, v);
      assert ReachableEdge(c, v, b);
    }
  }

  /** The numbering discovery computes is depth-first. */
  lemma NumberingIsDepthFirst(c: Cfg, w: Walk)
    requires Discovered(c, w) && SinglyEntered(c)
    ensures DepthFirst(NumberedGraph(c, w), w.parent)
  {
    var g := NumberedGraph(c, w);
    NumberedGraphExact(c, w);
    forall v, u | 0 <= v < |g| && u in g[v]
      ensures u < |g|
    {
      NumberedEdges(c, w, u, v);
    }
    forall v | 0 < v < |g|
      ensures Edge(g, w.parent[v], v)
    {
      assert SameEdge(c, w, w.parent[v], v);
    }
    forall u: nat, v: nat | Edge(g, u, v) && u < v
      ensures Ancestor(w.parent, u, v)
    {
      NumberedEdges(c, w, u, v);
      assert SameEdge(c, w, u, v);
      assert Marked(w, w.preorder[u]);
      EdgesSettled(c, w, w.preorder[u], w.preorder[v]);
    }
  }

  // ----- dominance does not depend on the names

  lemma NumberPath(c: Cfg, w: Walk, p: seq<nat>, b: nat) returns (q: seq<nat>)
    requires Discovered(c, w) && SinglyEntered(c) && CfgPath(c, p, 0, b)
    ensures Marked(w, b) && PathBetween(NumberedGraph(c, w), q, 0, Num(w, b)) && |q| == |p|
    ensures forall i :: 0 <= i < |p| ==> Marked(w, p[i]) && q[i] == Num(w, p[i])
  {
    forall i | 0 <= i < |p|
      ensures Marked(w, p[i])
    {
      PathStaysMarked(c, w, p, i);
    }
    q := seq(|p|, i requires 0 <= i < |p| => Num(w, p[i]));
    assert Num(w, 0) == 0 by { assert w.preorder[0] == 0; }
    NumbersArePath(c, w, p, q);
  }

  lemma NumbersArePath(c: Cfg, w: Walk, p: seq<nat>, q: seq<nat>)
    requires Discovered(c, w) && SinglyEntered(c) && 0 < |p| == |q|
    requires forall i :: 0 <= i < |p| ==> Marked(w, p[i]) && q[i] == Num(w, p[i])
    requires forall i :: 0 < i < |p| ==> p[i] in c.succs[p[i - 1]]
    ensures IsPath(NumberedGraph(c, w), q)
  {
    forall i | 0 < i < |q|
      ensures Edge(NumberedGraph(c, w), q[i - 1], q[i])
    {
      NumberedStep(c, w, p[i - 1], p[i]);
    }
  }

  lemma NumberedStep(c: Cfg, w: Walk, u: nat, v: nat)
    requires Discovered(c, w) && SinglyEntered(c) && Marked(w, u) && Marked(w, v) && v in c.succs[u]
    ensures Edge(NumberedGraph(c, w), Num(w, u), Num(w, v))
  {
    SinglyEnteredEdge(c, w, Num(w, u), Num(w, v));
  }

  lemma NamePath(c: Cfg, w: Walk, q: seq<nat>, j: nat) returns (p: seq<nat>)
    requires Discovered(c, w) && SinglyEntered(c) && PathBetween(NumberedGraph(c, w), q, 0, j) && j < |w.preorder|
    ensures CfgPath(c, p, 0, w.preorder[j]) && |p| == |q|
    ensures forall i :: 0 <= i < |q| ==> q[i] < |w.preorder| && p[i] == w.preorder[q[i]]
  {
    var g := NumberedGraph(c, w);
    forall i | 0 <= i < |q|
      ensures q[i] < |w.preorder|
    {
      PathVertices(g, q, i);
    }
    p := seq(|q|, i requires 0 <= i < |q| => w.preorder[q[i]]);
    forall i | 0 < i < |p|
      ensures p[i] in c.succs[p[i - 1]]
    {
      assert Edge(g, q[i - 1], q[i]);
      SinglyEnteredEdge(c, w, q[i - 1], q[i]);
    }
  }

  lemma DominanceTransported(c: Cfg, w: Walk, i: nat, j: nat)
    requires Discovered(c, w) && SinglyEntered(c) && i < |w.preorder| && j < |w.preorder|
    ensures Dominates(NumberedGraph(c, w), i, j) <==> CfgDominates(c, w.preorder[i], w.preorder[j])
  {
    var g, d, b := NumberedGraph(c, w), w.preorder[i], w.preorder[j];
    if Dominates(g, i, j) {
      forall p | CfgPath(c, p, 0, b)
        ensures d in p
      {
        var q := NumberPath(c, w, p, b);
        assert i in q;
      }
    }
    if CfgDominates(c, d, b) {
      forall q | PathBetween(g, q, 0, j)
        ensures i in q
      {
        var p := NamePath(c, w, q, j);
        var k :| 0 <= k < |p| && p[k] == d;
      }
    }
  }

  lemma CfgDominatorIsMarked(c: Cfg, w: Walk, e: nat, b: nat)
    requires Discovered(c, w) && CfgReachable(c, b) && CfgDominates(c, e, b)
    ensures Marked(w, e)
  {
    var p :| CfgPath(c, p, 0, b);
    var k :| 0 <= k < |p| && p[k] == e;
    PathStaysMarked(c, w, p, k);
  }

  lemma ImmediateDominanceTransported(c: Cfg, w: Walk, i: nat, j: nat)
    requires Discovered(c, w) && SinglyEntered(c) && i < |w.preorder| && j < |w.preorder|
    requires ImmediatelyDominates(NumberedGraph(c, w), i, j)
    ensures CfgImmediatelyDominates(c, w.preorder[i], w.preorder[j])
  {
    var b := w.preorder[j];
    DominanceTransported(c, w, i, j);
    forall e: nat | e != b && CfgDominates(c, e, b)
      ensures CfgDominates(c, e, w.preorder[i])
    {
      assert Marked(w, b);
      DiscoveryVisitsReachable(c, w, b);
      CfgDominatorIsMarked(c, w, e, b);
      DominanceTransported(c, w, Num(w, e), j);
      DominanceTransported(c, w, Num(w, e), i);
    }
  }
}
