/** graph_discover_blocks: an explicit-stack depth-first walk that numbers the reachable blocks. */
module Discovery {
  import opened Paths
  import opened Semidominators

  datatype BlockKind = GraphEntry | TargetEntry | JoinEntry

  /** The control-flow graph as the passes see it: successor lists over block identities, entry at 0. */
  datatype Cfg = Cfg(succs: seq<seq<nat>>, kinds: seq<BlockKind>) {
    ghost predicate Valid() {
      && 0 < |succs| == |kinds|
      && kinds[0] == GraphEntry
      && forall b, v :: 0 <= b < |succs| && v in succs[b] ==> v < |succs|
    }
  }

  /** block_traversal_state. next counts the successors still to be visited, minus one. */
  datatype Frame = Frame(block: nat, next: int)

  /** The state of a walk: the per-block fields (numbers and predecessors), the graph's arrays, the stack,
      and, for the proof, how many successors of each block have been looked at. */
  datatype Walk = Walk(
    preorderNum: seq<int>, postorderNum: seq<int>, predecessors: seq<seq<nat>>,
    preorder: seq<nat>, parent: seq<int>, postorder: seq<nat>,
    stack: seq<Frame>, seen: seq<nat>)

  function AddPredecessor(kind: BlockKind, preds: seq<nat>, u: nat): seq<nat> {
    match kind
    case GraphEntry => preds
    case TargetEntry => [u]
    case JoinEntry => preds + [u]
  }

  // ----- the invariant

  ghost predicate Shapes(c: Cfg, w: Walk) {
    && c.Valid()
    && |w.preorderNum| == |w.postorderNum| == |w.predecessors| == |w.seen| == |c.succs|
    && (forall i :: 0 <= i < |w.preorder| ==> w.preorder[i] < |c.succs| && w.preorderNum[w.preorder[i]] == i)
    && (forall i :: 0 <= i < |w.postorder| ==> w.postorder[i] < |c.succs| && w.postorderNum[w.postorder[i]] == i)
    && 0 < |w.preorder| == |w.parent| && w.preorder[0] == 0
  }

  /** is_marked: stale numbers of unvisited blocks do no harm. */
  predicate Marked(w: Walk, b: nat) {
    && b < |w.preorderNum|
    && 0 <= w.preorderNum[b] < |w.preorder|
    && w.preorder[w.preorderNum[b]] == b
  }

  /** The number of a visited block. */
  ghost function Num(w: Walk, b: nat): nat
    requires Marked(w, b)
  {
    w.preorderNum[b]
  }

  ghost predicate Spanning(c: Cfg, w: Walk)
    requires Shapes(c, w)
  {
    && IsTree(w.parent)
    && (forall i :: 0 < i < |w.parent| ==> w.preorder[i] in c.succs[w.preorder[w.parent[i]]])
    && (forall i :: 0 < i < |w.parent| ==> Ancestor(w.parent, w.parent[i], i - 1))
  }

  /** The frames belong to visited blocks, in increasing order, and count what is left to see. */
  ghost predicate FramesFit(c: Cfg, w: Walk)
    requires Shapes(c, w)
  {
    && (forall k :: 0 <= k < |w.stack| ==>
        Marked(w, w.stack[k].block) && -1 <= w.stack[k].next < |c.succs[w.stack[k].block]|)
    && (forall k :: 0 <= k < |w.stack| ==>
        w.seen[w.stack[k].block] == |c.succs[w.stack[k].block]| - 1 - w.stack[k].next)
    && (forall k, l :: 0 <= k < l < |w.stack| ==> Num(w, w.stack[k].block) < Num(w, w.stack[l].block))
  }

  /** The stack is a branch of the tree, and everything visited since a block was pushed is below it. */
  ghost predicate StackIsBranch(c: Cfg, w: Walk)
    requires Shapes(c, w) && Spanning(c, w)
  {
    && FramesFit(c, w)
    && (forall k, i :: 0 <= k < |w.stack| && Num(w, w.stack[k].block) <= i < |w.preorder| ==>
          Ancestor(w.parent, Num(w, w.stack[k].block), i))
  }

  ghost predicate OnStack(w: Walk, b: nat) {
    exists k :: 0 <= k < |w.stack| && w.stack[k].block == b
  }

  ghost predicate Finished(w: Walk, b: nat) {
    && b < |w.postorderNum|
    && 0 <= w.postorderNum[b] < |w.postorder|
    && w.postorder[w.postorderNum[b]] == b
  }

  /** Visited blocks are either on the stack or finished, never both. */
  ghost predicate Partitioned(c: Cfg, w: Walk) {
    && (forall b: nat :: Marked(w, b) ==> (OnStack(w, b) <==> !Finished(w, b)))
    && (forall b: nat :: Finished(w, b) ==> Marked(w, b))
  }

  /** What a finished block knows about its successor v. */
  ghost predicate EdgeSettled(c: Cfg, w: Walk, u: nat, v: nat)
    requires Shapes(c, w) && Spanning(c, w) && Marked(w, u)
  {
    && Marked(w, v)
    && (Num(w, u) < Num(w, v) ==> Ancestor(w.parent, Num(w, u), Num(w, v)))
    && Finished(w, u)
    && ((Finished(w, v) && w.postorderNum[v] < w.postorderNum[u]) || Ancestor(w.parent, Num(w, v), Num(w, u)))
  }

  ghost predicate FinishedEdgesSettled(c: Cfg, w: Walk)
    requires Shapes(c, w) && Spanning(c, w)
  {
    forall u: nat, v: nat :: Marked(w, u) && Finished(w, u) && v in c.succs[u] ==> EdgeSettled(c, w, u, v)
  }

  /** The successors of u looked at so far are the last ones of its list. */
  ghost function SeenSuccessors(c: Cfg, w: Walk, u: nat): seq<nat>
    requires Shapes(c, w) && u < |c.succs| && w.seen[u] <= |c.succs[u]|
  {
    c.succs[u][|c.succs[u]| - w.seen[u]..]
  }

  ghost predicate SeenAreMarked(c: Cfg, w: Walk)
    requires Shapes(c, w)
  {
    && (forall u :: 0 <= u < |c.succs| ==> w.seen[u] <= |c.succs[u]|)
    && (forall u: nat :: u < |c.succs| && !Marked(w, u) ==> w.seen[u] == 0)
    && (forall u: nat :: Finished(w, u) ==> w.seen[u] == |c.succs[u]|)
    && (forall u, v: nat :: 0 <= u < |c.succs| && v in SeenSuccessors(c, w, u) ==> Marked(w, v))
  }

  /** Each predecessor list records the edges looked at: a join every one of them, once per edge; a target
      block the last one only; the graph entry none. */
  ghost predicate RecordsEdges(c: Cfg, w: Walk, b: nat)
    requires Shapes(c, w) && SeenAreMarked(c, w) && b < |c.succs|
  {
    match c.kinds[b]
    case GraphEntry => true
    case TargetEntry =>
      && |w.predecessors[b]| == 1
      && w.predecessors[b][0] < |c.succs|
      && b in SeenSuccessors(c, w, w.predecessors[b][0])
    case JoinEntry =>
      && (forall u :: u in w.predecessors[b] ==> u < |c.succs|)
      && (forall u :: 0 <= u < |c.succs| ==> multiset(w.predecessors[b])[u] == multiset(SeenSuccessors(c, w, u))[b])
  }

  ghost predicate PredecessorsRecorded(c: Cfg, w: Walk)
    requires Shapes(c, w) && SeenAreMarked(c, w)
  {
    forall b: nat :: Marked(w, b) ==> RecordsEdges(c, w, b)
  }

  ghost predicate Invariant(c: Cfg, w: Walk) {
    && Shapes(c, w) && Spanning(c, w) && StackIsBranch(c, w) && Partitioned(c, w)
    && FinishedEdgesSettled(c, w) && SeenAreMarked(c, w) && PredecessorsRecorded(c, w)
  }

  // ----- the steps of the walk, as functions of the state

  /** block_discover_blocks on an unmarked block. */
  function Visit(c: Cfg, w: Walk, b: nat, preds: seq<nat>, parentNum: int): Walk
    requires b < |c.succs| == |w.preorderNum| == |w.predecessors|
  {
    w.(predecessors := w.predecessors[b := preds],
       parent := w.parent + [parentNum],
       preorderNum := w.preorderNum[b := |w.preorder|],
       preorder := w.preorder + [b],
       stack := w.stack + [Frame(b, |c.succs[b]| - 1)])
  }

  function Top(w: Walk): Frame
    requires w.stack != []
  {
    w.stack[|w.stack| - 1]
  }

  /** Taking the next successor off the top frame. */
  function Advance(w: Walk): Walk
    requires w.stack != [] && Top(w).block < |w.seen|
  {
    w.(stack := w.stack[|w.stack| - 1 := Top(w).(next := Top(w).next - 1)],
       seen := w.seen[Top(w).block := w.seen[Top(w).block] + 1])
  }

  /** The successor was visited before: its predecessor list grows. */
  function Revisit(c: Cfg, w: Walk, v: nat): Walk
    requires w.stack != [] && Top(w).block < |w.seen| && v < |c.kinds| == |w.predecessors|
  {
    var a := Advance(w);
    a.(predecessors := w.predecessors[v := AddPredecessor(c.kinds[v], w.predecessors[v], Top(w).block)])
  }

  /** The successor is new. */
  function Enter(c: Cfg, w: Walk, v: nat): Walk
    requires |c.kinds| == |c.succs| == |w.preorderNum| == |w.predecessors| == |w.seen|
    requires w.stack != [] && Top(w).block < |c.succs| && v < |c.succs|
  {
    Visit(c, Advance(w), v, AddPredecessor(c.kinds[v], [], Top(w).block), w.preorderNum[Top(w).block])
  }

  /** All successors of the top block are done. */
  function Leave(w: Walk): Walk
    requires w.stack != [] && Top(w).block < |w.postorderNum|
  {
    w.(stack := w.stack[..|w.stack| - 1],
       postorderNum := w.postorderNum[Top(w).block := |w.postorder|],
       postorder := w.postorder + [Top(w).block])
  }

  // ----- each step keeps the invariant

  lemma {:induction false} AncestorExtended(parent: seq<int>, x: int, a: int, v: int)
    requires IsTree(parent) && 0 <= x < |parent| && 0 <= v < |parent|
    ensures IsTree(parent + [x])
    ensures Ancestor(parent + [x], a, v) <==> Ancestor(parent, a, v)
    decreases v
  {
    if v > 0 {
      AncestorExtended(parent, x, a, parent[v]);
    }
  }

  /** The walk is about to look at successor v of the top block, u. */
  ghost predicate AboutToSee(c: Cfg, w: Walk, u: nat, v: nat) {
    && Shapes(c, w) && Spanning(c, w) && StackIsBranch(c, w)
    && w.stack != [] && Top(w).next >= 0
    && u == Top(w).block && Marked(w, u)
    && v == c.succs[u][Top(w).next] && v < |c.succs|
  }

  lemma VisitedAfterEnter(c: Cfg, w: Walk, v: nat)
    requires Shapes(c, w) && w.stack != [] && Top(w).block < |c.succs| && v < |c.succs| && !Marked(w, v)
    ensures Shapes(c, Enter(c, w, v))
    ensures forall b: nat :: Marked(Enter(c, w, v), b) <==> Marked(w, b) || b == v
    ensures forall b: nat :: Marked(w, b) ==> Enter(c, w, v).preorderNum[b] == w.preorderNum[b]
    ensures forall b: nat :: Finished(Enter(c, w, v), b) <==> Finished(w, b)
  {
    var w' := Enter(c, w, v);
    forall i | 0 <= i < |w'.preorder|
      ensures w'.preorder[i] < |c.succs| && w'.preorderNum[w'.preorder[i]] == i
    {
      if i < |w.preorder| {
        assert Marked(w, w.preorder[i]);
      }
    }
  }

  lemma EnterKeepsTree(c: Cfg, w: Walk, u: nat, v: nat)
    requires AboutToSee(c, w, u, v) && !Marked(w, v)
    ensures Shapes(c, Enter(c, w, v)) && Spanning(c, Enter(c, w, v))
    ensures forall a: int, i :: 0 <= i < |w.parent| ==>
            (Ancestor(Enter(c, w, v).parent, a, i) <==> Ancestor(w.parent, a, i))
    ensures Ancestor(Enter(c, w, v).parent, w.preorderNum[u], |w.preorder|)
  {
    VisitedAfterEnter(c, w, v);
    var x, n := w.preorderNum[u], |w.parent|;
    var parent' := w.parent + [x];
    assert Enter(c, w, v).parent == parent' && Enter(c, w, v).preorder == w.preorder + [v];
    TreeExtended(w.parent, x);
    assert Ancestor(w.parent, Num(w, w.stack[|w.stack| - 1].block), n - 1);
    BranchExtended(w.parent, x);
    EdgesExtended(c, w.preorder, w.parent, x, v);
  }

  lemma BranchExtended(parent: seq<int>, x: int)
    requires IsTree(parent) && 0 <= x < |parent| && Ancestor(parent, x, |parent| - 1)
    requires forall i :: 0 < i < |parent| ==> Ancestor(parent, parent[i], i - 1)
    ensures IsTree(parent + [x])
    ensures forall i :: 0 < i < |parent| + 1 ==> Ancestor(parent + [x], (parent + [x])[i], i - 1)
  {
    TreeExtended(parent, x);
  }

  lemma EdgesExtended(c: Cfg, preorder: seq<nat>, parent: seq<int>, x: int, v: nat)
    requires IsTree(parent) && |preorder| == |parent| && 0 <= x < |parent|
    requires forall i :: 0 <= i < |preorder| ==> preorder[i] < |c.succs|
    requires v in c.succs[preorder[x]]
    requires forall i :: 0 < i < |parent| ==> preorder[i] in c.succs[preorder[parent[i]]]
    ensures forall i :: 0 < i < |parent| + 1 ==>
              0 <= (parent + [x])[i] < |preorder| &&
              (preorder + [v])[i] in c.succs[(preorder + [v])[(parent + [x])[i]]]
  {
  }

  lemma TreeExtended(parent: seq<int>, x: int)
    requires IsTree(parent) && 0 <= x < |parent|
    ensures IsTree(parent + [x])
    ensures forall a: int, i :: 0 <= i < |parent| ==> (Ancestor(parent + [x], a, i) <==> Ancestor(parent, a, i))
    ensures Ancestor(parent + [x], x, |parent|)
  {
    forall a: int, i | 0 <= i < |parent|
      ensures IsTree(parent + [x]) && (Ancestor(parent + [x], a, i) <==> Ancestor(parent, a, i))
    {
      AncestorExtended(parent, x, a, i);
    }
    AncestorExtended(parent, x, 0, 0);
  }

  lemma EnterKeepsBranch(c: Cfg, w: Walk, u: nat, v: nat)
    requires AboutToSee(c, w, u, v) && !Marked(w, v) && w.seen[v] == 0
    ensures Shapes(c, Enter(c, w, v)) && Spanning(c, Enter(c, w, v)) && StackIsBranch(c, Enter(c, w, v))
  {
    VisitedAfterEnter(c, w, v);
    FramesAfterEnter(c, w, Enter(c, w, v), u, v);
    BranchAfterEnter(c, w, u, v);
  }

  lemma FramesAfterEnter(c: Cfg, w: Walk, w': Walk, u: nat, v: nat)
    requires Shapes(c, w) && FramesFit(c, w) && w.stack != [] && Top(w).next >= 0 && u == Top(w).block && Marked(w, u)
    requires v < |c.succs| && !Marked(w, v) && w.seen[v] == 0
    requires Shapes(c, w') && Marked(w', v) && Num(w', v) == |w.preorder|
    requires w'.stack == w.stack[|w.stack| - 1 := Frame(u, Top(w).next - 1)] + [Frame(v, |c.succs[v]| - 1)]
    requires w'.seen == w.seen[u := w.seen[u] + 1]
    requires forall b: nat :: Marked(w, b) ==> Marked(w', b) && w'.preorderNum[b] == w.preorderNum[b]
    ensures FramesFit(c, w')
  {
    var n := |w.stack|;
    forall k | 0 <= k < |w'.stack|
      ensures Marked(w', w'.stack[k].block) && -1 <= w'.stack[k].next < |c.succs[w'.stack[k].block]|
      ensures w'.seen[w'.stack[k].block] == |c.succs[w'.stack[k].block]| - 1 - w'.stack[k].next
      ensures k < n ==> w'.stack[k].block == w.stack[k].block && Num(w', w'.stack[k].block) == Num(w, w.stack[k].block)
      ensures k == n ==> w'.stack[k].block == v
    {
      if k < n {
        assert Marked(w, w.stack[k].block);
      }
      if k < n - 1 {
        assert Num(w, w.stack[k].block) < Num(w, w.stack[n - 1].block);
      }
    }
  }

  lemma BlocksAfterEnter(c: Cfg, w: Walk, v: nat, k: nat)
    requires |c.kinds| == |c.succs| == |w.preorderNum| == |w.predecessors| == |w.seen|
    requires w.stack != [] && Top(w).block < |c.succs| && v < |c.succs| && k < |w.stack|
    ensures k < |Enter(c, w, v).stack| == |w.stack| + 1 && Enter(c, w, v).stack[k].block == w.stack[k].block
  {
  }

  lemma BranchAfterEnter(c: Cfg, w: Walk, u: nat, v: nat)
    requires AboutToSee(c, w, u, v) && !Marked(w, v)
    requires Shapes(c, Enter(c, w, v)) && FramesFit(c, Enter(c, w, v))
    ensures Spanning(c, Enter(c, w, v)) && StackIsBranch(c, Enter(c, w, v))
  {
    VisitedAfterEnter(c, w, v);
    EnterKeepsTree(c, w, u, v);
    var w' := Enter(c, w, v);
    forall k, i | 0 <= k < |w'.stack| && Num(w', w'.stack[k].block) <= i < |w'.preorder|
      ensures Ancestor(w'.parent, Num(w', w'.stack[k].block), i)
    {
      if k < |w.stack| {
        BlocksAfterEnter(c, w, v, k);
        BelowFrame(c, w, u, v, k, i);
      }
    }
  }

  lemma BelowFrame(c: Cfg, w: Walk, u: nat, v: nat, k: nat, i: nat)
    requires AboutToSee(c, w, u, v) && !Marked(w, v) && k < |w.stack| && Marked(w, w.stack[k].block)
    requires Num(w, w.stack[k].block) <= i <= |w.preorder|
    ensures IsTree(Enter(c, w, v).parent) && i < |Enter(c, w, v).parent|
    ensures Ancestor(Enter(c, w, v).parent, Num(w, w.stack[k].block), i)
  {
    EnterKeepsTree(c, w, u, v);
    if i < |w.preorder| {
      assert Ancestor(w.parent, Num(w, w.stack[k].block), i);
    } else {
      assert Num(w, w.stack[k].block) <= Num(w, w.stack[|w.stack| - 1].block);
      assert Ancestor(w.parent, Num(w, w.stack[k].block), Num(w, u));
      AncestorTransitive(Enter(c, w, v).parent, Num(w, w.stack[k].block), Num(w, u), i);
    }
  }

  lemma EnterKeepsPartition(c: Cfg, w: Walk, u: nat, v: nat)
    requires AboutToSee(c, w, u, v) && !Marked(w, v) && Partitioned(c, w)
    ensures Partitioned(c, Enter(c, w, v))
  {
    VisitedAfterEnter(c, w, v);
    var w' := Enter(c, w, v);
    forall b: nat
      ensures OnStack(w', b) <==> OnStack(w, b) || b == v
    {
      assert forall k :: 0 <= k < |w.stack| ==> w'.stack[k].block == w.stack[k].block;
      assert w'.stack[|w.stack|].block == v;
      if OnStack(w, b) {
        var k :| 0 <= k < |w.stack| && w.stack[k].block == b;
        assert w'.stack[k].block == b;
      }
    }
    assert !Finished(w, v);
  }

  lemma EnterKeepsSettled(c: Cfg, w: Walk, u: nat, v: nat)
    requires AboutToSee(c, w, u, v) && !Marked(w, v) && FinishedEdgesSettled(c, w) && Partitioned(c, w)
    ensures Shapes(c, Enter(c, w, v)) && Spanning(c, Enter(c, w, v)) && FinishedEdgesSettled(c, Enter(c, w, v))
  {
    VisitedAfterEnter(c, w, v);
    EnterKeepsTree(c, w, u, v);
    var w' := Enter(c, w, v);
    forall x: nat, y: nat | Marked(w', x) && Finished(w', x) && y in c.succs[x]
      ensures EdgeSettled(c, w', x, y)
    {
      assert EdgeSettled(c, w, x, y);
    }
  }

  /** What looking at the edge from u to its successor v does to the seen successors. */
  lemma SeenAfterAdvance(c: Cfg, w: Walk, w': Walk, u: nat, v: nat)
    requires AboutToSee(c, w, u, v) && Shapes(c, w') && w'.seen == w.seen[u := w.seen[u] + 1]
    requires forall x :: 0 <= x < |c.succs| ==> w.seen[x] <= |c.succs[x]|
    ensures forall x :: 0 <= x < |c.succs| ==> w'.seen[x] <= |c.succs[x]|
    ensures SeenSuccessors(c, w', u) == [v] + SeenSuccessors(c, w, u)
    ensures forall x :: 0 <= x < |c.succs| && x != u ==> SeenSuccessors(c, w', x) == SeenSuccessors(c, w, x)
  {
    assert w.stack[|w.stack| - 1] == Top(w);
  }

  lemma EnterKeepsSeen(c: Cfg, w: Walk, u: nat, v: nat)
    requires AboutToSee(c, w, u, v) && !Marked(w, v) && SeenAreMarked(c, w) && Partitioned(c, w)
    ensures Shapes(c, Enter(c, w, v)) && SeenAreMarked(c, Enter(c, w, v))
  {
    VisitedAfterEnter(c, w, v);
    var w' := Enter(c, w, v);
    SeenAfterAdvance(c, w, w', u, v);
    assert OnStack(w, u);
    forall x, y: nat | 0 <= x < |c.succs| && y in SeenSuccessors(c, w', x)
      ensures Marked(w', y)
    {
    }
  }

  lemma EnterKeepsRecords(c: Cfg, w: Walk, u: nat, v: nat)
    requires AboutToSee(c, w, u, v) && !Marked(w, v) && SeenAreMarked(c, w) && Partitioned(c, w)
    requires PredecessorsRecorded(c, w)
    ensures Shapes(c, Enter(c, w, v)) && SeenAreMarked(c, Enter(c, w, v)) && PredecessorsRecorded(c, Enter(c, w, v))
  {
    VisitedAfterEnter(c, w, v);
    EnterKeepsSeen(c, w, u, v);
    var w' := Enter(c, w, v);
    SeenAfterAdvance(c, w, w', u, v);
    forall b: nat | Marked(w', b)
      ensures RecordsEdges(c, w', b)
    {
      if b == v {
        FirstEdgeRecorded(c, w, w', u, v);
      } else {
        assert RecordsEdges(c, w, b);
        OtherRecordsKept(c, w, w', u, v, b);
      }
    }
  }

  /** Seeing the edge from u to v adds it to what has been seen, and nothing else. */
  lemma SeenCount(c: Cfg, w: Walk, w': Walk, u: nat, v: nat, x: nat, b: nat)
    requires AboutToSee(c, w, u, v) && SeenAreMarked(c, w) && x < |c.succs|
    requires Shapes(c, w') && SeenAreMarked(c, w') && w'.seen == w.seen[u := w.seen[u] + 1]
    ensures w.seen[x] <= |c.succs[x]| && w'.seen[x] <= |c.succs[x]|
    ensures multiset(SeenSuccessors(c, w', x))[b] ==
            multiset(SeenSuccessors(c, w, x))[b] + (if x == u && b == v then 1 else 0)
    ensures b in SeenSuccessors(c, w', x) <==> b in SeenSuccessors(c, w, x) || (x == u && b == v)
  {
    SeenAfterAdvance(c, w, w', u, v);
    PrependedCount(v, SeenSuccessors(c, w, u), b);
  }

  lemma PrependedCount(v: nat, s: seq<nat>, b: nat)
    ensures multiset([v] + s)[b] == multiset(s)[b] + (if b == v then 1 else 0)
    ensures b in [v] + s <==> b in s || b == v
  {
    assert multiset([v] + s) == multiset([v]) + multiset(s);
  }

  lemma FirstEdgeRecorded(c: Cfg, w: Walk, w': Walk, u: nat, v: nat)
    requires AboutToSee(c, w, u, v) && !Marked(w, v) && SeenAreMarked(c, w)
    requires Shapes(c, w') && SeenAreMarked(c, w') && w'.seen == w.seen[u := w.seen[u] + 1]
    requires w'.predecessors[v] == AddPredecessor(c.kinds[v], [], u)
    ensures RecordsEdges(c, w', v)
  {
    assert u < |c.succs|;
    forall x | 0 <= x < |c.succs|
      ensures multiset([u])[x] == multiset(SeenSuccessors(c, w', x))[v]
    {
      SeenCount(c, w, w', u, v, x, v);
      assert v !in SeenSuccessors(c, w, x);
    }
    SeenCount(c, w, w', u, v, u, v);
  }

  /** Seeing an edge to v leaves the records of every other block right. */
  lemma OtherRecordsKept(c: Cfg, w: Walk, w': Walk, u: nat, v: nat, b: nat)
    requires AboutToSee(c, w, u, v) && SeenAreMarked(c, w)
    requires Shapes(c, w') && SeenAreMarked(c, w') && w'.seen == w.seen[u := w.seen[u] + 1]
    requires b < |c.succs| && b != v && RecordsEdges(c, w, b) && w'.predecessors[b] == w.predecessors[b]
    ensures RecordsEdges(c, w', b)
  {
    forall x | 0 <= x < |c.succs|
      ensures multiset(SeenSuccessors(c, w', x))[b] == multiset(SeenSuccessors(c, w, x))[b]
      ensures b in SeenSuccessors(c, w', x) <==> b in SeenSuccessors(c, w, x)
    {
      SeenCount(c, w, w', u, v, x, b);
    }
  }

  lemma RevisitRecorded(c: Cfg, w: Walk, w': Walk, u: nat, v: nat)
    requires AboutToSee(c, w, u, v) && SeenAreMarked(c, w)
    requires Shapes(c, w') && SeenAreMarked(c, w') && w'.seen == w.seen[u := w.seen[u] + 1]
    requires RecordsEdges(c, w, v) && w'.predecessors[v] == AddPredecessor(c.kinds[v], w.predecessors[v], u)
    ensures RecordsEdges(c, w', v)
  {
    SeenCount(c, w, w', u, v, u, v);
    if c.kinds[v] == JoinEntry {
      assert multiset(w'.predecessors[v]) == multiset(w.predecessors[v]) + multiset([u]);
      forall x | 0 <= x < |c.succs|
        ensures multiset(w'.predecessors[v])[x] == multiset(SeenSuccessors(c, w', x))[v]
      {
        SeenCount(c, w, w', u, v, x, v);
      }
    }
  }

  lemma EnterKeepsInvariant(c: Cfg, w: Walk, u: nat, v: nat)
    requires Invariant(c, w) && AboutToSee(c, w, u, v) && !Marked(w, v)
    ensures Invariant(c, Enter(c, w, v))
  {
    EnterKeepsTree(c, w, u, v);
    EnterKeepsBranch(c, w, u, v);
    EnterKeepsPartition(c, w, u, v);
    EnterKeepsSettled(c, w, u, v);
    EnterKeepsRecords(c, w, u, v);
  }

  lemma RevisitKeepsInvariant(c: Cfg, w: Walk, u: nat, v: nat)
    requires Invariant(c, w) && AboutToSee(c, w, u, v) && Marked(w, v)
    ensures Invariant(c, Revisit(c, w, v))
  {
    assert w.stack[|w.stack| - 1] == Top(w);
    RevisitKeepsBranch(c, w, u, v);
    RevisitKeepsPartition(c, w, u, v);
    RevisitKeepsSettled(c, w, u, v);
    RevisitKeepsSeen(c, w, u, v);
    RevisitKeepsRecords(c, w, u, v);
  }

  lemma RevisitKeepsBranch(c: Cfg, w: Walk, u: nat, v: nat)
    requires AboutToSee(c, w, u, v)
    ensures Shapes(c, Revisit(c, w, v)) && Spanning(c, Revisit(c, w, v)) && StackIsBranch(c, Revisit(c, w, v))
  {
    var w' := Revisit(c, w, v);
    forall k | 0 <= k < |w'.stack|
      ensures w'.stack[k].block == w.stack[k].block && Marked(w', w'.stack[k].block)
      ensures -1 <= w'.stack[k].next < |c.succs[w'.stack[k].block]|
      ensures w'.seen[w'.stack[k].block] == |c.succs[w'.stack[k].block]| - 1 - w'.stack[k].next
    {
      assert Marked(w, w.stack[k].block);
      if k < |w.stack| - 1 {
        assert Num(w, w.stack[k].block) < Num(w, w.stack[|w.stack| - 1].block);
      }
    }
    forall k, i | 0 <= k < |w'.stack| && Num(w', w'.stack[k].block) <= i < |w'.preorder|
      ensures Ancestor(w'.parent, Num(w', w'.stack[k].block), i)
    {
      assert w'.stack[k].block == w.stack[k].block;
      assert Ancestor(w.parent, Num(w, w.stack[k].block), i);
    }
  }

  lemma RevisitKeepsPartition(c: Cfg, w: Walk, u: nat, v: nat)
    requires AboutToSee(c, w, u, v) && Partitioned(c, w)
    ensures Partitioned(c, Revisit(c, w, v))
  {
    var w' := Revisit(c, w, v);
    forall b: nat
      ensures OnStack(w', b) <==> OnStack(w, b)
      ensures Finished(w', b) <==> Finished(w, b)
      ensures Marked(w', b) <==> Marked(w, b)
    {
      assert forall k :: 0 <= k < |w'.stack| ==> w'.stack[k].block == w.stack[k].block;
      if OnStack(w, b) {
        var k :| 0 <= k < |w.stack| && w.stack[k].block == b;
        assert w'.stack[k].block == b;
      }
    }
  }

  lemma RevisitKeepsSettled(c: Cfg, w: Walk, u: nat, v: nat)
    requires AboutToSee(c, w, u, v) && FinishedEdgesSettled(c, w)
    ensures Shapes(c, Revisit(c, w, v)) && Spanning(c, Revisit(c, w, v))
    ensures FinishedEdgesSettled(c, Revisit(c, w, v))
  {
    var w' := Revisit(c, w, v);
    forall x: nat, y: nat | Marked(w', x) && Finished(w', x) && y in c.succs[x]
      ensures EdgeSettled(c, w', x, y)
    {
      assert Marked(w, x) && Finished(w, x);
      assert EdgeSettled(c, w, x, y);
    }
  }

  lemma RevisitKeepsSeen(c: Cfg, w: Walk, u: nat, v: nat)
    requires AboutToSee(c, w, u, v) && Marked(w, v) && OnStack(w, u) && Partitioned(c, w) && SeenAreMarked(c, w)
    ensures Shapes(c, Revisit(c, w, v)) && SeenAreMarked(c, Revisit(c, w, v))
  {
    var w' := Revisit(c, w, v);
    SeenAfterAdvance(c, w, w', u, v);
    forall b: nat
      ensures Marked(w', b) <==> Marked(w, b)
      ensures Finished(w', b) <==> Finished(w, b)
    {
    }
  }

  lemma RevisitKeepsRecords(c: Cfg, w: Walk, u: nat, v: nat)
    requires AboutToSee(c, w, u, v) && Marked(w, v) && SeenAreMarked(c, w) && PredecessorsRecorded(c, w)
    requires Shapes(c, Revisit(c, w, v)) && SeenAreMarked(c, Revisit(c, w, v))
    ensures PredecessorsRecorded(c, Revisit(c, w, v))
  {
    var w' := Revisit(c, w, v);
    forall b: nat | Marked(w', b)
      ensures RecordsEdges(c, w', b)
    {
      assert Marked(w, b) && RecordsEdges(c, w, b);
      if b == v {
        RevisitRecorded(c, w, w', u, v);
      } else {
        OtherRecordsKept(c, w, w', u, v, b);
      }
    }
  }

  // ----- leaving a block

  lemma LeaveKeepsInvariant(c: Cfg, w: Walk)
    requires Invariant(c, w) && w.stack != [] && Top(w).next < 0
    ensures Top(w).block < |c.succs| && Invariant(c, Leave(w))
  {
    var u := Top(w).block;
    assert w.stack[|w.stack| - 1] == Top(w);
    assert OnStack(w, u) && Marked(w, u);
    LeaveKeepsPartition(c, w, u);
    LeaveKeepsSettled(c, w, u);
    LeaveKeepsRecords(c, w, u);
    LeaveKeepsBranch(c, w, u);
  }

  lemma LeaveKeepsBranch(c: Cfg, w: Walk, u: nat)
    requires Shapes(c, w) && Spanning(c, w) && StackIsBranch(c, w)
    requires w.stack != [] && Top(w).block == u && u < |c.succs|
    requires Shapes(c, Leave(w))
    ensures Spanning(c, Leave(w)) && StackIsBranch(c, Leave(w))
  {
    var w' := Leave(w);
    assert forall k :: 0 <= k < |w'.stack| ==> w'.stack[k] == w.stack[k];
  }

  lemma LeaveKeepsRecords(c: Cfg, w: Walk, u: nat)
    requires Shapes(c, w) && SeenAreMarked(c, w) && PredecessorsRecorded(c, w)
    requires w.stack != [] && Top(w).block == u && u < |c.succs| && w.seen[u] == |c.succs[u]|
    requires Shapes(c, Leave(w))
    requires forall b: nat :: Finished(Leave(w), b) <==> Finished(w, b) || b == u
    ensures SeenAreMarked(c, Leave(w)) && PredecessorsRecorded(c, Leave(w))
  {
    var w' := Leave(w);
    forall b: nat
      ensures Marked(w', b) <==> Marked(w, b)
    {
    }
    forall x | 0 <= x < |c.succs|
      ensures w'.seen[x] <= |c.succs[x]| && SeenSuccessors(c, w', x) == SeenSuccessors(c, w, x)
    {
    }
    forall b: nat | Marked(w', b)
      ensures SeenAreMarked(c, w') && RecordsEdges(c, w', b)
    {
      assert RecordsEdges(c, w, b);
    }
  }

  lemma LeaveKeepsPartition(c: Cfg, w: Walk, u: nat)
    requires Shapes(c, w) && Spanning(c, w) && StackIsBranch(c, w) && Partitioned(c, w)
    requires w.stack != [] && Top(w).block == u && Marked(w, u) && OnStack(w, u)
    ensures Shapes(c, Leave(w)) && Partitioned(c, Leave(w))
    ensures forall b: nat :: Finished(Leave(w), b) <==> Finished(w, b) || b == u
    ensures forall b: nat :: Finished(w, b) ==> Leave(w).postorderNum[b] == w.postorderNum[b]
  {
    var w' := Leave(w);
    assert !Finished(w, u);
    forall i | 0 <= i < |w'.postorder|
      ensures w'.postorder[i] < |c.succs| && w'.postorderNum[w'.postorder[i]] == i
    {
      if i < |w.postorder| {
        assert Finished(w, w.postorder[i]);
      }
    }
    forall b: nat
      ensures Marked(w', b) <==> Marked(w, b)
      ensures Finished(w', b) <==> Finished(w, b) || b == u
    {
    }
    forall b: nat | Marked(w, b)
      ensures OnStack(w', b) <==> OnStack(w, b) && b != u
    {
      assert forall k :: 0 <= k < |w'.stack| ==> w'.stack[k] == w.stack[k];
      if OnStack(w, b) && b != u {
        var k :| 0 <= k < |w.stack| && w.stack[k].block == b;
        assert w'.stack[k].block == b;
      }
      if OnStack(w', b) {
        var k :| 0 <= k < |w'.stack| && w'.stack[k].block == b;
        assert Num(w, w.stack[k].block) < Num(w, w.stack[|w.stack| - 1].block);
      }
    }
  }

  lemma LeaveKeepsSettled(c: Cfg, w: Walk, u: nat)
    requires Invariant(c, w) && w.stack != [] && Top(w).next < 0 && Top(w).block == u && Marked(w, u) && OnStack(w, u)
    ensures Shapes(c, Leave(w)) && Spanning(c, Leave(w)) && FinishedEdgesSettled(c, Leave(w))
  {
    LeaveKeepsPartition(c, w, u);
    var w' := Leave(w);
    forall x: nat, y: nat | Marked(w', x) && Finished(w', x) && y in c.succs[x]
      ensures EdgeSettled(c, w', x, y)
    {
      assert Marked(w, x);
      if x == u {
        LastBlockSettled(c, w, u, y);
      } else {
        assert EdgeSettled(c, w, x, y);
      }
    }
  }

  /** A block leaves the stack knowing about all its successors. */
  lemma LastBlockSettled(c: Cfg, w: Walk, u: nat, y: nat)
    requires Invariant(c, w) && w.stack != [] && Top(w).next < 0 && Top(w).block == u && Marked(w, u)
    requires y in c.succs[u]
    ensures Marked(w, y)
    ensures Num(w, u) < Num(w, y) ==> Ancestor(w.parent, Num(w, u), Num(w, y))
    ensures Finished(w, y) || Ancestor(w.parent, Num(w, y), Num(w, u))
  {
    assert w.stack[|w.stack| - 1] == Top(w);
    assert SeenSuccessors(c, w, u) == c.succs[u];
    assert y in SeenSuccessors(c, w, u);
    if !Finished(w, y) {
      var k :| 0 <= k < |w.stack| && w.stack[k].block == y;
      assert Num(w, w.stack[k].block) <= Num(w, w.stack[|w.stack| - 1].block);
    }
  }

  // ----- the order of the walk

  /** Block x is visited before y, or is below y in the tree. */
  ghost predicate NotAfter(w: Walk, x: nat, y: nat)
    requires IsTree(w.parent) && |w.parent| == |w.preorder|
  {
    Marked(w, x) && Marked(w, y) && (Num(w, x) <= Num(w, y) || Ancestor(w.parent, Num(w, y), Num(w, x)))
  }

  /** A join lists the block it was reached from first, and its other predecessors in the order of the walk; a target
      block keeps the last one. */
  ghost predicate ListedInOrder(c: Cfg, w: Walk, b: nat)
    requires Shapes(c, w) && Spanning(c, w) && SeenAreMarked(c, w) && Marked(w, b)
  {
    var list := w.predecessors[b];
    match c.kinds[b]
    case GraphEntry => true
    case TargetEntry =>
      && |list| == 1
      && forall u: nat :: u < |c.succs| && b in SeenSuccessors(c, w, u) ==> NotAfter(w, u, list[0])
    case JoinEntry =>
      && 0 < Num(w, b)
      && list != [] && list[0] == w.preorder[w.parent[Num(w, b)]]
      && forall i, j :: 0 <= i < j < |list| ==> NotAfter(w, list[i], list[j])
  }

  /** Successors are visited from the last to the first: whatever follows the last mention of a tree child x in its
      parent's successor list was visited before x. */
  ghost predicate VisitedFromBack(c: Cfg, w: Walk, x: nat)
    requires Shapes(c, w) && Spanning(c, w) && Marked(w, x) && 0 < Num(w, x)
  {
    var succs := c.succs[w.preorder[w.parent[Num(w, x)]]];
    forall j {:trigger succs[j]} ::
      0 <= j < |succs| && x !in succs[j..] ==> Marked(w, succs[j]) && Num(w, succs[j]) < Num(w, x)
  }

  /** A block finishes after everything below it and before everything visited later. */
  ghost predicate FinishInOrder(w: Walk, a: nat, b: nat)
    requires IsTree(w.parent) && |w.parent| == |w.preorder|
    requires Marked(w, a) && Marked(w, b)
  {
    if Ancestor(w.parent, Num(w, a), Num(w, b)) then
      Finished(w, a) ==> Finished(w, b) && w.postorderNum[b] < w.postorderNum[a]
    else
      Finished(w, a) && (Finished(w, b) ==> w.postorderNum[a] < w.postorderNum[b])
  }

  ghost predicate ListsInOrder(c: Cfg, w: Walk)
    requires Shapes(c, w) && Spanning(c, w) && SeenAreMarked(c, w)
  {
    forall b: nat {:trigger ListedInOrder(c, w, b)} :: Marked(w, b) ==> ListedInOrder(c, w, b)
  }

  ghost predicate SuccessorsFromBack(c: Cfg, w: Walk)
    requires Shapes(c, w) && Spanning(c, w)
  {
    forall x: nat {:trigger VisitedFromBack(c, w, x)} ::
      Marked(w, x) && 0 < Num(w, x) ==> VisitedFromBack(c, w, x)
  }

  ghost predicate FinishingInOrder(w: Walk)
    requires IsTree(w.parent) && |w.parent| == |w.preorder|
  {
    forall a: nat, b: nat {:trigger FinishInOrder(w, a, b)} ::
      Marked(w, a) && Marked(w, b) && Num(w, a) < Num(w, b) ==> FinishInOrder(w, a, b)
  }

  /** The invariant, and the order in which the walk does its work. */
  ghost predicate Ordered(c: Cfg, w: Walk) {
    && Invariant(c, w)
    && ListsInOrder(c, w) && SuccessorsFromBack(c, w) && FinishingInOrder(w)
  }

  /** Nothing visited so far comes after the top of the stack. */
  lemma NothingAfterTop(c: Cfg, w: Walk, u: nat, x: nat)
    requires Shapes(c, w) && Spanning(c, w) && StackIsBranch(c, w) && w.stack != [] && Top(w).block == u && Marked(w, x)
    ensures NotAfter(w, x, u)
  {
    assert w.stack[|w.stack| - 1] == Top(w);
    if Num(w, u) < Num(w, x) {
      assert Ancestor(w.parent, Num(w, u), Num(w, x));
    }
  }

  lemma NotAfterKept(c: Cfg, w: Walk, w': Walk, x: nat, y: nat)
    requires Shapes(c, w) && Spanning(c, w) && Shapes(c, w') && Spanning(c, w') && NotAfter(w, x, y)
    requires TreeGrown(w, w')
    ensures NotAfter(w', x, y)
  {
  }

  /** Numbers, tree and finished blocks are as before, but for the blocks added. */
  ghost predicate TreeGrown(w: Walk, w': Walk)
    requires IsTree(w.parent) && IsTree(w'.parent) && |w.parent| == |w.preorder| && |w'.parent| == |w'.preorder|
  {
    && w.preorder <= w'.preorder && w.parent <= w'.parent
    && (forall b: nat :: Marked(w, b) ==> Marked(w', b) && Num(w', b) == Num(w, b))
    && (forall a: int, i :: 0 <= i < |w.parent| ==> (Ancestor(w'.parent, a, i) <==> Ancestor(w.parent, a, i)))
  }

  lemma ListKept(c: Cfg, w: Walk, w': Walk, b: nat)
    requires Shapes(c, w) && Spanning(c, w) && SeenAreMarked(c, w) && Marked(w, b) && ListedInOrder(c, w, b)
    requires Shapes(c, w') && Spanning(c, w') && SeenAreMarked(c, w') && TreeGrown(w, w')
    requires w'.predecessors[b] == w.predecessors[b]
    requires forall u: nat :: u < |c.succs| ==>
               (b in SeenSuccessors(c, w', u) <==> b in SeenSuccessors(c, w, u))
    ensures ListedInOrder(c, w', b)
  {
    forall x: nat, y: nat | NotAfter(w, x, y)
      ensures NotAfter(w', x, y)
    {
      NotAfterKept(c, w, w', x, y);
    }
  }

  /** The list of v after the edge from the top block u. */
  lemma ListGrown(c: Cfg, w: Walk, w': Walk, u: nat, v: nat)
    requires AboutToSee(c, w, u, v) && Marked(w, v) && SeenAreMarked(c, w) && ListedInOrder(c, w, v)
    requires RecordsEdges(c, w, v)
    requires Shapes(c, w') && Spanning(c, w') && SeenAreMarked(c, w') && TreeGrown(w, w')
    requires w'.seen == w.seen[u := w.seen[u] + 1]
    requires w'.predecessors[v] == AddPredecessor(c.kinds[v], w.predecessors[v], u)
    ensures ListedInOrder(c, w', v)
  {
    var list, list' := w.predecessors[v], w'.predecessors[v];
    forall x: nat | Marked(w, x)
      ensures NotAfter(w', x, u)
    {
      NothingAfterTop(c, w, u, x);
      NotAfterKept(c, w, w', x, u);
    }
    forall x: nat | x < |c.succs| && v in SeenSuccessors(c, w', x)
      ensures Marked(w, x)
    {
      SeenCount(c, w, w', u, v, x, v);
    }
    if c.kinds[v] == JoinEntry {
      assert list' == list + [u];
      forall i, j | 0 <= i < j < |list'|
        ensures NotAfter(w', list'[i], list'[j])
      {
        if j < |list| {
          NotAfterKept(c, w, w', list[i], list[j]);
        } else {
          ListedAreMarked(c, w, v, list[i]);
        }
      }
    }
  }

  lemma ListedAreMarked(c: Cfg, w: Walk, b: nat, x: nat)
    requires Shapes(c, w) && SeenAreMarked(c, w) && b < |c.succs| && RecordsEdges(c, w, b)
    requires c.kinds[b] == JoinEntry && x in w.predecessors[b]
    ensures Marked(w, x)
  {
    assert x in multiset(w.predecessors[b]) && multiset(w.predecessors[b])[x] > 0;
    assert b in multiset(SeenSuccessors(c, w, x));
    assert w.seen[x] > 0;
  }

  lemma FirstListed(c: Cfg, w: Walk, w': Walk, u: nat, v: nat)
    requires AboutToSee(c, w, u, v) && !Marked(w, v) && SeenAreMarked(c, w)
    requires Shapes(c, w') && Spanning(c, w') && SeenAreMarked(c, w') && TreeGrown(w, w')
    requires w'.seen == w.seen[u := w.seen[u] + 1] && Marked(w', v) && Num(w', v) == |w.preorder|
    requires w'.parent == w.parent + [w.preorderNum[u]]
    requires w'.predecessors[v] == AddPredecessor(c.kinds[v], [], u)
    ensures ListedInOrder(c, w', v)
  {
    forall x: nat | x < |c.succs| && v in SeenSuccessors(c, w', x)
      ensures x == u
    {
      SeenCount(c, w, w', u, v, x, v);
    }
    assert w'.preorder[w.preorderNum[u]] == u;
  }

  lemma EnterGrowsTree(c: Cfg, w: Walk, u: nat, v: nat)
    requires AboutToSee(c, w, u, v) && !Marked(w, v)
    ensures Shapes(c, Enter(c, w, v)) && Spanning(c, Enter(c, w, v)) && TreeGrown(w, Enter(c, w, v))
    ensures Ancestor(Enter(c, w, v).parent, w.preorderNum[u], |w.preorder|)
    ensures forall a: int :: a != |w.parent| && Ancestor(Enter(c, w, v).parent, a, |w.preorder|) ==>
              Ancestor(w.parent, a, w.preorderNum[u])
  {
    VisitedAfterEnter(c, w, v);
    EnterKeepsTree(c, w, u, v);
  }

  lemma EnterKeepsList(c: Cfg, w: Walk, u: nat, v: nat, b: nat)
    requires AboutToSee(c, w, u, v) && !Marked(w, v) && SeenAreMarked(c, w) && ListsInOrder(c, w)
    requires Shapes(c, Enter(c, w, v)) && Spanning(c, Enter(c, w, v)) && SeenAreMarked(c, Enter(c, w, v))
    requires TreeGrown(w, Enter(c, w, v)) && Marked(Enter(c, w, v), b) && (Marked(w, b) || b == v)
    ensures ListedInOrder(c, Enter(c, w, v), b)
  {
    if b == v {
      FirstListed(c, w, Enter(c, w, v), u, v);
    } else {
      OtherListKept(c, w, Enter(c, w, v), u, v, b);
    }
  }

  lemma OtherListKept(c: Cfg, w: Walk, w': Walk, u: nat, v: nat, b: nat)
    requires AboutToSee(c, w, u, v) && SeenAreMarked(c, w) && Marked(w, b) && ListedInOrder(c, w, b) && b != v
    requires Shapes(c, w') && Spanning(c, w') && SeenAreMarked(c, w') && TreeGrown(w, w')
    requires w'.seen == w.seen[u := w.seen[u] + 1] && w'.predecessors[b] == w.predecessors[b]
    ensures ListedInOrder(c, w', b)
  {
    forall x: nat | x < |c.succs|
      ensures b in SeenSuccessors(c, w', x) <==> b in SeenSuccessors(c, w, x)
    {
      SeenCount(c, w, w', u, v, x, b);
    }
    ListKept(c, w, w', b);
  }

  /** The successors behind the one being looked at have been seen. */
  lemma SeenFromBack(c: Cfg, w: Walk, u: nat, v: nat, j: nat)
    requires AboutToSee(c, w, u, v) && SeenAreMarked(c, w) && j < |c.succs[u]|
    ensures v in c.succs[u][j..] || Marked(w, c.succs[u][j])
  {
    assert w.stack[|w.stack| - 1] == Top(w);
    if j <= Top(w).next {
      assert c.succs[u][j..][Top(w).next - j] == v;
    } else {
      assert c.succs[u][j] == SeenSuccessors(c, w, u)[j - Top(w).next - 1];
    }
  }

  lemma EnterKeepsBackFirst(c: Cfg, w: Walk, u: nat, v: nat, x: nat)
    requires Ordered(c, w) && AboutToSee(c, w, u, v) && !Marked(w, v)
    requires Invariant(c, Enter(c, w, v)) && Marked(Enter(c, w, v), x) && 0 < Num(Enter(c, w, v), x)
    ensures VisitedFromBack(c, Enter(c, w, v), x)
  {
    EnterGrowsTree(c, w, u, v);
    VisitedAfterEnter(c, w, v);
    var w' := Enter(c, w, v);
    if x == v {
      assert w'.preorder[w'.parent[Num(w', v)]] == u;
      forall j | 0 <= j < |c.succs[u]| && v !in c.succs[u][j..]
        ensures Marked(w, c.succs[u][j])
      {
        SeenFromBack(c, w, u, v, j);
      }
    } else {
      assert VisitedFromBack(c, w, x);
    }
  }

  lemma EnterKeepsFinishing(c: Cfg, w: Walk, u: nat, v: nat, a: nat, b: nat)
    requires Ordered(c, w) && AboutToSee(c, w, u, v) && !Marked(w, v)
    requires Invariant(c, Enter(c, w, v)) && Marked(Enter(c, w, v), a) && Marked(Enter(c, w, v), b)
    requires Num(Enter(c, w, v), a) < Num(Enter(c, w, v), b)
    ensures FinishInOrder(Enter(c, w, v), a, b)
  {
    EnterGrowsTree(c, w, u, v);
    VisitedAfterEnter(c, w, v);
    var w' := Enter(c, w, v);
    assert a != v;
    if b == v {
      assert !Finished(w, v);
      assert w.stack[|w.stack| - 1] == Top(w);
      assert OnStack(w, u) && !Finished(w, u);
      if Ancestor(w'.parent, Num(w', a), Num(w', b)) {
        assert Ancestor(w.parent, Num(w, a), Num(w, u));
        AncestorBounds(w.parent, Num(w, a), Num(w, u));
        assert a == u || FinishInOrder(w, a, u);
      } else if OnStack(w, a) {
        var k :| 0 <= k < |w.stack| && w.stack[k].block == a;
        BelowFrame(c, w, u, v, k, |w.preorder|);
      }
    } else {
      assert FinishInOrder(w, a, b);
    }
  }

  lemma EnterKeepsOrder(c: Cfg, w: Walk, u: nat, v: nat)
    requires Ordered(c, w) && AboutToSee(c, w, u, v) && !Marked(w, v)
    ensures Ordered(c, Enter(c, w, v))
  {
    EnterKeepsInvariant(c, w, u, v);
    EnterGrowsTree(c, w, u, v);
    VisitedAfterEnter(c, w, v);
    var w' := Enter(c, w, v);
    forall b: nat | Marked(w', b)
      ensures ListedInOrder(c, w', b)
    {
      EnterKeepsList(c, w, u, v, b);
    }
    forall x: nat | Marked(w', x) && 0 < Num(w', x)
      ensures VisitedFromBack(c, w', x)
    {
      EnterKeepsBackFirst(c, w, u, v, x);
    }
    forall a: nat, b: nat | Marked(w', a) && Marked(w', b) && Num(w', a) < Num(w', b)
      ensures FinishInOrder(w', a, b)
    {
      EnterKeepsFinishing(c, w, u, v, a, b);
    }
  }

  lemma RevisitKeepsOrder(c: Cfg, w: Walk, u: nat, v: nat)
    requires Ordered(c, w) && AboutToSee(c, w, u, v) && Marked(w, v)
    ensures Ordered(c, Revisit(c, w, v))
  {
    RevisitKeepsInvariant(c, w, u, v);
    var w' := Revisit(c, w, v);
    forall b: nat | Marked(w', b)
      ensures ListedInOrder(c, w', b)
    {
      RevisitKeepsList(c, w, u, v, b);
    }
    BackFirstCarried(c, w, w');
    FinishCarried(w, w');
  }

  lemma RevisitKeepsList(c: Cfg, w: Walk, u: nat, v: nat, b: nat)
    requires AboutToSee(c, w, u, v) && SeenAreMarked(c, w) && Marked(w, v) && Marked(w, b)
    requires ListedInOrder(c, w, b) && RecordsEdges(c, w, b)
    requires Shapes(c, Revisit(c, w, v)) && Spanning(c, Revisit(c, w, v)) && SeenAreMarked(c, Revisit(c, w, v))
    ensures ListedInOrder(c, Revisit(c, w, v), b)
  {
    var w' := Revisit(c, w, v);
    SameTree(c, w, w');
    if b == v {
      ListGrown(c, w, w', u, v);
    } else {
      OtherListKept(c, w, w', u, v, b);
    }
  }

  lemma SameTree(c: Cfg, w: Walk, w': Walk)
    requires Shapes(c, w) && Spanning(c, w) && Shapes(c, w') && Spanning(c, w')
    requires w'.preorder == w.preorder && w'.preorderNum == w.preorderNum && w'.parent == w.parent
    ensures TreeGrown(w, w')
  {
  }

  lemma BackFirstCarried(c: Cfg, w: Walk, w': Walk)
    requires Shapes(c, w) && Spanning(c, w) && SuccessorsFromBack(c, w)
    requires Shapes(c, w') && Spanning(c, w')
    requires w'.preorder == w.preorder && w'.preorderNum == w.preorderNum && w'.parent == w.parent
    ensures SuccessorsFromBack(c, w')
  {
    forall x: nat | Marked(w', x) && 0 < Num(w', x)
      ensures VisitedFromBack(c, w', x)
    {
      SameFromBack(c, w, w', x);
    }
  }

  lemma SameFromBack(c: Cfg, w: Walk, w': Walk, x: nat)
    requires Shapes(c, w) && Spanning(c, w) && Shapes(c, w') && Spanning(c, w')
    requires w'.preorder == w.preorder && w'.preorderNum == w.preorderNum && w'.parent == w.parent
    requires Marked(w, x) && 0 < Num(w, x) && VisitedFromBack(c, w, x)
    ensures VisitedFromBack(c, w', x)
  {
  }

  lemma FinishCarried(w: Walk, w': Walk)
    requires w'.preorder == w.preorder && w'.preorderNum == w.preorderNum && w'.parent == w.parent
    requires w'.postorder == w.postorder && w'.postorderNum == w.postorderNum
    requires IsTree(w.parent) && |w.parent| == |w.preorder| && FinishingInOrder(w)
    ensures FinishingInOrder(w')
  {
    forall a: nat, b: nat | Marked(w', a) && Marked(w', b) && Num(w', a) < Num(w', b)
      ensures FinishInOrder(w', a, b)
    {
      assert Marked(w, a) && Marked(w, b) && FinishInOrder(w, a, b);
    }
  }

  lemma LeaveKeepsFinishing(c: Cfg, w: Walk, u: nat, a: nat, b: nat)
    requires Ordered(c, w) && w.stack != [] && Top(w).next < 0 && Top(w).block == u && u < |c.succs|
    requires Invariant(c, Leave(w)) && Marked(w, a) && Marked(w, b) && Num(w, a) < Num(w, b)
    ensures FinishInOrder(Leave(w), a, b)
  {
    assert w.stack[|w.stack| - 1] == Top(w);
    assert OnStack(w, u) && Marked(w, u);
    LeaveKeepsPartition(c, w, u);
    assert FinishInOrder(w, a, b);
    if a == u {
      assert Ancestor(w.parent, Num(w, u), Num(w, b));
      TopIsHighest(c, w, u, b);
    }
  }

  lemma TopIsHighest(c: Cfg, w: Walk, u: nat, b: nat)
    requires Shapes(c, w) && FramesFit(c, w) && w.stack != [] && Top(w).block == u && Marked(w, u) && Marked(w, b)
    ensures OnStack(w, b) ==> Num(w, b) <= Num(w, u)
  {
    if OnStack(w, b) {
      var k :| 0 <= k < |w.stack| && w.stack[k].block == b;
      assert Num(w, w.stack[k].block) <= Num(w, w.stack[|w.stack| - 1].block);
    }
  }

  lemma LeaveKeepsOrder(c: Cfg, w: Walk)
    requires Ordered(c, w) && w.stack != [] && Top(w).next < 0
    ensures Top(w).block < |c.succs| && Ordered(c, Leave(w))
  {
    LeaveKeepsInvariant(c, w);
    var w' := Leave(w);
    forall b: nat | Marked(w', b)
      ensures ListedInOrder(c, w', b)
    {
      ListKept(c, w, w', b);
    }
    BackFirstCarried(c, w, w');
    forall a: nat, b: nat | Marked(w', a) && Marked(w', b) && Num(w', a) < Num(w', b)
      ensures FinishInOrder(w', a, b)
    {
      LeaveKeepsFinishing(c, w, Top(w).block, a, b);
    }
  }

  // ----- the method

  /** What discovery promises: the invariant, over the final state of the walk. */
  ghost predicate Discovered(c: Cfg, w: Walk) {
    w.stack == [] && Invariant(c, w)
  }

  lemma InitialInvariant(c: Cfg, w: Walk)
    requires c.Valid() && |w.preorderNum| == |w.postorderNum| == |w.predecessors| == |w.seen| == |c.succs|
    requires w.preorder == [] && w.parent == [] && w.postorder == [] && w.stack == []
    requires forall u :: 0 <= u < |w.seen| ==> w.seen[u] == 0
    ensures Ordered(c, Visit(c, w, 0, [], -1))
  {
    var w' := Visit(c, w, 0, [], -1);
    assert w'.stack[0].block == 0;
  }

  ghost predicate CanStep(c: Cfg, w: Walk) {
    && w.stack != []
    && |c.kinds| == |c.succs| == |w.preorderNum| == |w.postorderNum| == |w.predecessors| == |w.seen|
    && Top(w).block < |c.succs| && Top(w).next < |c.succs[Top(w).block]|
    && (Top(w).next >= 0 ==> c.succs[Top(w).block][Top(w).next] < |c.succs|)
  }

  /** One round of the walk. */
  ghost function Next(c: Cfg, w: Walk): Walk
    requires CanStep(c, w)
  {
    if Top(w).next < 0 then Leave(w)
    else
      var v := c.succs[Top(w).block][Top(w).next];
      if Marked(w, v) then Revisit(c, w, v) else Enter(c, w, v)
  }

  lemma NextKeepsInvariant(c: Cfg, w: Walk)
    requires Invariant(c, w) && w.stack != []
    ensures CanStep(c, w) && Invariant(c, Next(c, w))
    ensures || Unmarked(c, Next(c, w)) < Unmarked(c, w)
            || (Unmarked(c, Next(c, w)) == Unmarked(c, w) && Pending(Next(c, w).stack) < Pending(w.stack))
  {
    var u := Top(w).block;
    assert w.stack[|w.stack| - 1] == Top(w);
    assert Marked(w, u);
    if Top(w).next < 0 {
      LeaveKeepsInvariant(c, w);
      LeaveShrinks(c, w);
    } else {
      var v := c.succs[u][Top(w).next];
      assert v in c.succs[u];
      if Marked(w, v) {
        RevisitKeepsInvariant(c, w, u, v);
        SeenShrinks(c, w, v);
      } else {
        EnterKeepsInvariant(c, w, u, v);
        EnterShrinks(c, w, v);
      }
    }
  }

  /** Every step of the walk keeps its order. */
  lemma NextKeepsOrder(c: Cfg, w: Walk)
    requires Ordered(c, w) && w.stack != []
    ensures CanStep(c, w) && Ordered(c, Next(c, w))
  {
    NextKeepsInvariant(c, w);
    var u := Top(w).block;
    assert w.stack[|w.stack| - 1] == Top(w) && Marked(w, u);
    if Top(w).next < 0 {
      LeaveKeepsOrder(c, w);
    } else {
      var v := c.succs[u][Top(w).next];
      assert v in c.succs[u];
      if Marked(w, v) {
        RevisitKeepsOrder(c, w, u, v);
      } else {
        EnterKeepsOrder(c, w, u, v);
      }
    }
  }

  // The walk terminates: each round visits a new block, or shortens what the stack still has to do.

  ghost function Unmarked(c: Cfg, w: Walk): set<nat> {
    set b: nat | b < |c.succs| && !Marked(w, b)
  }

  ghost function Pending(stack: seq<Frame>): nat {
    if stack == [] then 0
    else Pending(stack[..|stack| - 1]) + (if stack[|stack| - 1].next >= -1 then stack[|stack| - 1].next + 2 else 1)
  }

  lemma EnterShrinks(c: Cfg, w: Walk, v: nat)
    requires Shapes(c, w) && w.stack != [] && Top(w).block < |c.succs| && v < |c.succs| && !Marked(w, v)
    ensures Unmarked(c, Enter(c, w, v)) < Unmarked(c, w)
  {
    VisitedAfterEnter(c, w, v);
    assert v in Unmarked(c, w) && v !in Unmarked(c, Enter(c, w, v));
  }

  lemma SeenShrinks(c: Cfg, w: Walk, v: nat)
    requires w.stack != [] && Top(w).block < |w.seen| && Top(w).next >= 0 && v < |c.kinds| == |w.predecessors|
    ensures Unmarked(c, Revisit(c, w, v)) == Unmarked(c, w)
    ensures Pending(Revisit(c, w, v).stack) < Pending(w.stack)
  {
    var n := |w.stack| - 1;
    assert Revisit(c, w, v).stack[..n] == w.stack[..n];
    assert forall b: nat :: Marked(Revisit(c, w, v), b) <==> Marked(w, b);
  }

  lemma LeaveShrinks(c: Cfg, w: Walk)
    requires w.stack != [] && Top(w).block < |w.postorderNum|
    ensures Unmarked(c, Leave(w)) == Unmarked(c, w)
    ensures Pending(Leave(w).stack) < Pending(w.stack)
  {
    assert forall b: nat :: Marked(Leave(w), b) <==> Marked(w, b);
  }

  class FlowGraph {
    const cfg: Cfg
    var preorderNum: seq<int>
    var postorderNum: seq<int>
    var predecessors: seq<seq<nat>>
    var preorder: seq<nat>
    var parent: seq<int>
    var postorder: seq<nat>
    var reversePostorder: seq<nat>

    ghost predicate Valid()
      reads this
    {
      cfg.Valid() && |preorderNum| == |postorderNum| == |predecessors| == |cfg.succs|
    }

    /** The numbers and predecessor lists of the blocks may be left over from an earlier run. */
    constructor (cfg: Cfg, preorderNum: seq<int>, postorderNum: seq<int>, predecessors: seq<seq<nat>>)
      requires cfg.Valid() && |preorderNum| == |postorderNum| == |predecessors| == |cfg.succs|
      ensures Valid() && this.cfg == cfg
    {
      this.cfg, this.preorderNum, this.postorderNum, this.predecessors := cfg, preorderNum, postorderNum, predecessors;
      preorder, parent, postorder, reversePostorder := [], [], [], [];
    }

    ghost function State(stack: seq<Frame>, seen: seq<nat>): Walk
      reads this
    {
      Walk(preorderNum, postorderNum, predecessors, preorder, parent, postorder, stack, seen)
    }

    /** block_discover_blocks: record the edge if the block is marked, number it if it is not. */
    method DiscoverBlock(block: nat, predecessor: int, ghost stack: seq<Frame>,
            ghost seen: seq<nat>) returns (isNew: bool)
      requires Valid() && block < |cfg.succs| && -1 <= predecessor < |cfg.succs|
      modifies this`preorderNum, this`predecessors, this`preorder, this`parent
      ensures Valid() && isNew == !old(Marked(State(stack, seen), block))
      ensures !isNew ==> unchanged(`preorderNum, `preorder, `parent)
      ensures !isNew && predecessor < 0 ==> unchanged(`predecessors)
      ensures !isNew && predecessor >= 0 ==>
                predecessors ==
                    old(predecessors[block := AddPredecessor(cfg.kinds[block], predecessors[block], predecessor)])
      ensures isNew ==> State(stack + [Frame(block, |cfg.succs[block]| - 1)], seen) ==
                        old(Visit(cfg, State(stack, seen), block,
                                  if predecessor < 0 then [] else AddPredecessor(cfg.kinds[block], [], predecessor),
                                  if predecessor < 0 then -1 else preorderNum[predecessor]))
    {
      var index := preorderNum[block];
      if 0 <= index < |preorder| && preorder[index] == block {
        if predecessor >= 0 {
          predecessors := predecessors[block := AddPredecessor(cfg.kinds[block], predecessors[block], predecessor)];
        }
        return false;
      }
      predecessors := predecessors[block := []];
      if predecessor >= 0 {
        predecessors := predecessors[block := AddPredecessor(cfg.kinds[block], predecessors[block], predecessor)];
      }
      parent := parent + [if predecessor < 0 then -1 else preorderNum[predecessor]];
      preorderNum := preorderNum[block := |preorder|];
      preorder := preorder + [block];
      return true;
    }

    /** One round of the loop of graph_discover_blocks. */
    method Step(stack: seq<Frame>, ghost w: Walk) returns (stack': seq<Frame>, ghost w': Walk)
      requires Valid() && w == State(stack, w.seen) && CanStep(cfg, w)
      modifies this`preorderNum, this`postorderNum, this`predecessors, this`preorder, this`parent, this`postorder
      ensures Valid() && w' == State(stack', w'.seen) && w' == Next(cfg, w)
    {
      var state := stack[|stack| - 1];
      var u := state.block;
      w' := Next(cfg, w);
      if state.next >= 0 {
        var v := cfg.succs[u][state.next];
        stack' := stack[|stack| - 1 := state.(next := state.next - 1)];
        var isNew := DiscoverBlock(v, u, stack', w'.seen);
        if isNew {
          stack' := stack' + [Frame(v, |cfg.succs[v]| - 1)];
        }
      } else {
        stack' := stack[..|stack| - 1];
        postorderNum := postorderNum[u := |postorder|];
        postorder := postorder + [u];
      }
    }

    /** graph_discover_blocks. The source pushes the address of a loop-local traversal state; here the
        states are held by value. */
    method Discover() returns (ghost w: Walk)
      requires Valid()
      modifies this
      ensures Valid() && w == State([], w.seen) && Discovered(cfg, w) && Ordered(cfg, w)
      ensures |reversePostorder| == |postorder|
      ensures forall i :: 0 <= i < |postorder| ==> reversePostorder[i] == postorder[|postorder| - 1 - i]
    {
      w := Begin();
      w := Traverse([Frame(0, |cfg.succs[0]| - 1)], w);
      ReversePostorder();
    }

    /** Clearing the arrays and visiting the graph entry. */
    method Begin() returns (ghost w: Walk)
      requires Valid()
      modifies this
      ensures Valid() && w == State([Frame(0, |cfg.succs[0]| - 1)], w.seen) && Ordered(cfg, w)
    {
      preorder, postorder, reversePostorder, parent := [], [], [], [];
      w := State([], seq(|cfg.succs|, _ => 0));
      InitialInvariant(cfg, w);
      var _ := DiscoverBlock(0, -1, [], w.seen);
      w := Visit(cfg, w, 0, [], -1);
    }

    /** The loop of graph_discover_blocks. */
    method Traverse(initial: seq<Frame>, ghost w0: Walk) returns (ghost w: Walk)
      requires Valid() && w0 == State(initial, w0.seen) && Ordered(cfg, w0)
      modifies this`preorderNum, this`postorderNum, this`predecessors, this`preorder, this`parent, this`postorder
      ensures Valid() && w == State([], w.seen) && Ordered(cfg, w)
    {
      var stack := initial;
      w := w0;
      while stack != []
        invariant Valid() && w == State(stack, w.seen) && Ordered(cfg, w)
        decreases Unmarked(cfg, w), Pending(stack)
      {
        NextKeepsInvariant(cfg, w);
        NextKeepsOrder(cfg, w);
        stack, w := Step(stack, w);
      }
    }

    method ReversePostorder()
      modifies this`reversePostorder
      ensures |reversePostorder| == |postorder|
      ensures forall i :: 0 <= i < |postorder| ==> reversePostorder[i] == postorder[|postorder| - 1 - i]
    {
      reversePostorder := [];
      var count := |postorder|;
      for i := 0 to count
        invariant |reversePostorder| == i
        invariant forall k :: 0 <= k < i ==> reversePostorder[k] == postorder[count - 1 - k]
      {
        reversePostorder := reversePostorder + [postorder[count - i - 1]];
      }
    }
  }
}
