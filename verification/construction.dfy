/** graph_compute_ssa up to the renaming: discovery, dominators, frontiers, liveness and phi placement one after
    the other, and what the result says about the control-flow graph itself. */
module SsaConstruction {
  import opened Paths
  import opened Semidominators
  import opened Dominators
  import opened Discovery
  import opened Numbering
  import opened BitVectors
  import opened Frontiers
  import F = Flow
  import L = Liveness
  import P = Phis
  import opened Ssa
  import opened Renaming

  /** The blocks' code over their own names. */
  ghost function Source(c: Cfg, code: seq<F.Code>): F.Program {
    F.Program(code, c.succs)
  }

  ghost function FrontierSets(g: Graph): seq<set<nat>> {
    seq(|g|, x requires 0 <= x < |g| => set y: nat | y < |g| && InFrontier(g, x, y))
  }

  /** The blocks, by number, that store v and leave it live. */
  ghost function Assigned(c: Cfg, code: seq<F.Code>, w: Walk, v: nat): set<nat>
    requires Discovered(c, w) && Source(c, code).Valid()
  {
    set j: nat | j < |w.preorder| && F.Stores(code[w.preorder[j]], v) && F.LiveAtEnd(Source(c, code), w.preorder[j], v)
  }

  ghost function AssignedSets(c: Cfg, code: seq<F.Code>, w: Walk, n: nat): seq<set<nat>>
    requires Discovered(c, w) && Source(c, code).Valid()
  {
    seq(n, v requires 0 <= v < n => Assigned(c, code, w, v))
  }

  /** All blocks, by number, that store v. */
  ghost function Storing(c: Cfg, code: seq<F.Code>, w: Walk, v: nat): set<nat>
    requires Discovered(c, w) && Source(c, code).Valid()
  {
    set j: nat | j < |w.preorder| && F.Stores(code[w.preorder[j]], v)
  }

  /** The blocks, by number, that got a phi for v. */
  ghost function PhiBlocks(phis: seq<P.PhiTable>, v: nat): set<nat> {
    set j: nat | j < |phis| && P.HasPhi(phis[j], v)
  }

  /** Number of predecessors of each block, by number. */
  ghost function PredecessorCounts(g: Graph): seq<nat> {
    seq(|g|, j requires 0 <= j < |g| => |g[j]|)
  }

  /** What the passes leave: the dominator tree of the numbered graph, and phis exactly on the iterated frontiers of
      the assigned blocks. */
  ghost predicate InSsaForm(c: Cfg, code: seq<F.Code>, n: nat, w: Walk, idom: seq<int>, phis: seq<P.PhiTable>) {
    && Discovered(c, w) && SinglyEntered(c) && Source(c, code).Valid()
    && Dominated(NumberedGraph(c, w), idom)
    && P.PhisComplete(FrontierSets(NumberedGraph(c, w)), AssignedSets(c, code, w, n),
        PredecessorCounts(NumberedGraph(c, w)), phis, n, n)
  }

  // ----- the numbered graph

  lemma NumberedIsDominated(c: Cfg, w: Walk, idom: seq<int>)
    requires Discovered(c, w) && SinglyEntered(c) && IsDominatorTree(NumberedGraph(c, w), idom)
    ensures Dominated(NumberedGraph(c, w), idom)
  {
    var g := NumberedGraph(c, w);
    NumberingIsDepthFirst(c, w);
    forall j | 0 <= j < |g| ensures Reachable(g, j) {
      var p := TreeBranch(c, w, j);
      var q := NumberPath(c, w, p, w.preorder[j]);
    }
  }

  /** Every reachable block but the entry has its immediate dominator in the tree. */
  lemma ImmediateDominators(c: Cfg, w: Walk, idom: seq<int>, b: nat)
    requires Discovered(c, w) && SinglyEntered(c) && IsDominatorTree(NumberedGraph(c, w), idom)
    requires CfgReachable(c, b) && b != 0
    ensures Marked(w, b) && 0 <= idom[Num(w, b)] < |w.preorder|
    ensures CfgImmediatelyDominates(c, w.preorder[idom[Num(w, b)]], b)
  {
    DiscoveryVisitsReachable(c, w, b);
    assert Num(w, b) > 0;
    ImmediateDominanceTransported(c, w, idom[Num(w, b)], Num(w, b));
  }

  /** Phis land only in join blocks (the source casts the block to one without looking). */
  lemma PhiBlocksAreJoins(c: Cfg, code: seq<F.Code>, n: nat, w: Walk, idom: seq<int>, phis: seq<P.PhiTable>, j: nat,
          v: nat)
    requires InSsaForm(c, code, n, w, idom, phis) && v < n && j < |phis| && P.HasPhi(phis[j], v)
    ensures j < |w.preorder| && c.kinds[w.preorder[j]] == JoinEntry &&
            |Predecessors(c, w.predecessors, w.preorder[j])| > 1
    ensures phis[j][v].value == P.Phi(v, |Predecessors(c, w.predecessors, w.preorder[j])|, true)
  {
    var g := NumberedGraph(c, w);
    var f, a := FrontierSets(g), AssignedSets(c, code, w, n);
    assert P.SlotComplete(f, a, PredecessorCounts(g), phis, j, v, n);
    var chain :| P.FrontierChain(f, a[v], chain) && chain[|chain| - 1] == j;
    assert P.FrontierStep(f, chain[|chain| - 2], j);
    if |g[j]| <= 1 {
      SinglePredecessorRunsNowhere(g, idom, chain[|chain| - 2], j);
      assert false;
    }
    assert Marked(w, w.preorder[j]);
    RecordedEdge(c, w, w.preorder[j], 0);
  }

  // ----- which definitions matter

  lemma CoversAssigned(c: Cfg, code: seq<F.Code>, n: nat, w: Walk, idom: seq<int>, phis: seq<P.PhiTable>, v: nat)
    requires InSsaForm(c, code, n, w, idom, phis) && v < n
    ensures CoversFrontiers(NumberedGraph(c, w), Assigned(c, code, w, v), PhiBlocks(phis, v))
  {
    var g := NumberedGraph(c, w);
    var f, a := FrontierSets(g), AssignedSets(c, code, w, n);
    forall x: nat, y: nat | InFrontier(g, x, y) && (x in a[v] || x in PhiBlocks(phis, v))
      ensures y in PhiBlocks(phis, v)
    {
      if x in PhiBlocks(phis, v) {
        assert P.SlotComplete(f, a, PredecessorCounts(g), phis, x, v, n);
      }
      P.IteratedFrontierStep(f, a[v], x, y);
      assert P.SlotComplete(f, a, PredecessorCounts(g), phis, y, v, n);
    }
  }

  lemma SuccessorOnPath(c: Cfg, w: Walk, p: seq<nat>, i: nat)
    requires Discovered(c, w) && SinglyEntered(c) && IsPath(NumberedGraph(c, w), p) && i + 1 < |p|
    ensures p[i] < |w.preorder| && p[i + 1] < |w.preorder| && w.preorder[p[i + 1]] in c.succs[w.preorder[p[i]]]
  {
    var g := NumberedGraph(c, w);
    PathVertices(g, p, i);
    PathVertices(g, p, i + 1);
    assert Edge(g, p[i + 1 - 1], p[i + 1]);
    SinglyEnteredEdge(c, w, p[i], p[i + 1]);
  }

  /** A variable live at the end of a path is live at every point of it that no store follows. */
  lemma {:induction false} LiveBackAlong(c: Cfg, code: seq<F.Code>, w: Walk, p: seq<nat>, v: nat, i: nat)
    requires Discovered(c, w) && SinglyEntered(c) && Source(c, code).Valid()
    requires IsPath(NumberedGraph(c, w), p) && i + 1 < |p| && p[|p| - 1] < |w.preorder|
    requires F.LiveAtStart(Source(c, code), w.preorder[p[|p| - 1]], v)
    requires forall k :: i < k < |p| - 1 ==> p[k] !in Storing(c, code, w, v)
    ensures p[i] < |w.preorder| && F.LiveAtEnd(Source(c, code), w.preorder[p[i]], v)
    decreases |p| - i
  {
    SuccessorOnPath(c, w, p, i);
    if i + 2 < |p| {
      LiveBackAlong(c, code, w, p, v, i + 1);
      assert p[i + 1] !in Storing(c, code, w, v);
      F.LiveAtStartUnfolds(Source(c, code), w.preorder[p[i + 1]], v);
    }
  }

  /** The last block before the end of a path that stores the variable, or the path's start. */
  lemma {:induction false} LastStore(storing: set<nat>, p: seq<nat>, n: nat) returns (i: nat)
    requires 0 < n <= |p|
    ensures i < n && (i == 0 || p[i] in storing) && forall k :: i < k < n ==> p[k] !in storing
    decreases n
  {
    if n == 1 || p[n - 1] in storing {
      i := n - 1;
    } else {
      i := LastStore(storing, p, n - 1);
    }
  }

  lemma LastAssignment(c: Cfg, code: seq<F.Code>, w: Walk, p: seq<nat>, v: nat) returns (i: nat)
    requires Discovered(c, w) && SinglyEntered(c) && Source(c, code).Valid()
    requires IsPath(NumberedGraph(c, w), p) && |p| >= 2 && p[|p| - 1] < |w.preorder|
    requires F.LiveAtStart(Source(c, code), w.preorder[p[|p| - 1]], v)
    requires p[0] == 0 || p[0] in Storing(c, code, w, v)
    ensures i < |p| - 1 && (p[i] == 0 || p[i] in Assigned(c, code, w, v))
  {
    i := LastStore(Storing(c, code, w, v), p, |p| - 1);
    LiveBackAlong(c, code, w, p, v, i);
  }

  /** Where the variable is live, it makes no difference that stores which are not live out of their block got no
      phis: the last definition on the way is the same. */
  lemma SameLastDefinition(c: Cfg, code: seq<F.Code>, w: Walk, phis: set<nat>, p: seq<nat>, v: nat)
    requires Discovered(c, w) && SinglyEntered(c) && Source(c, code).Valid()
    requires IsPath(NumberedGraph(c, w), p) && |p| >= 2 && p[0] == 0 && p[|p| - 1] < |w.preorder|
    requires F.LiveAtStart(Source(c, code), w.preorder[p[|p| - 1]], v)
    ensures LastDefinition(Storing(c, code, w, v), phis, p) == LastDefinition(Assigned(c, code, w, v), phis, p)
  {
    var storing, kept := Storing(c, code, w, v), Assigned(c, code, w, v);
    var i := LastDefinitionAt(storing, phis, p);
    var j := LastDefinitionAt(kept, phis, p);
    assert kept <= storing;
    forall k | i < k < |p| - 1 ensures p[k] !in storing { assert !Defines(storing, phis, p[k]); }
    LiveBackAlong(c, code, w, p, v, i);
    assert Defines(kept, phis, p[i]);
    if i < j {
      assert Defines(storing, phis, p[j]);
      assert false;
    } else if j < i {
      assert false;
    }
  }

  // ----- the main results

  lemma OneDefinitionReachesNumber(c: Cfg, code: seq<F.Code>, n: nat, w: Walk, idom: seq<int>, phis: seq<P.PhiTable>,
          v: nat, z: nat, p: seq<nat>, q: seq<nat>)
    requires InSsaForm(c, code, n, w, idom, phis) && v < n && 0 < z < |w.preorder|
    requires F.LiveAtStart(Source(c, code), w.preorder[z], v) && z !in PhiBlocks(phis, v)
    requires PathBetween(NumberedGraph(c, w), p, 0, z) && PathBetween(NumberedGraph(c, w), q, 0, z)
    ensures |p| >= 2 && |q| >= 2
    ensures LastDefinition(Storing(c, code, w, v), PhiBlocks(phis, v), p) ==
            LastDefinition(Storing(c, code, w, v), PhiBlocks(phis, v), q)
  {
    CoversAssigned(c, code, n, w, idom, phis, v);
    var g := NumberedGraph(c, w);
    SameLastDefinition(c, code, w, PhiBlocks(phis, v), p, v);
    SameLastDefinition(c, code, w, PhiBlocks(phis, v), q, v);
    OneDefinitionReaches(g, idom, Assigned(c, code, w, v), PhiBlocks(phis, v), z, p);
    OneDefinitionReaches(g, idom, Assigned(c, code, w, v), PhiBlocks(phis, v), z, q);
  }

  lemma MeetingNumbersHavePhi(c: Cfg, code: seq<F.Code>, n: nat, w: Walk, idom: seq<int>, phis: seq<P.PhiTable>,
          v: nat, p: seq<nat>, q: seq<nat>)
    requires InSsaForm(c, code, n, w, idom, phis) && v < n
    requires IsPath(NumberedGraph(c, w), p) && IsPath(NumberedGraph(c, w), q) && |p| >= 2 && |q| >= 2
    requires p[0] == 0 || p[0] in Storing(c, code, w, v)
    requires q[0] == 0 || q[0] in Storing(c, code, w, v)
    requires p[|p| - 1] == q[|q| - 1] < |w.preorder|
    requires forall i, j :: 0 <= i < |p| - 1 && 0 <= j < |q| - 1 ==> p[i] != q[j]
    requires F.LiveAtStart(Source(c, code), w.preorder[p[|p| - 1]], v)
    ensures p[|p| - 1] in PhiBlocks(phis, v)
  {
    var g := NumberedGraph(c, w);
    CoversAssigned(c, code, n, w, idom, phis, v);
    var i := LastAssignment(c, code, w, p, v);
    var j := LastAssignment(c, code, w, q, v);
    ConvergeBehind(g, idom, Assigned(c, code, w, v), PhiBlocks(phis, v), p, q, i, j);
  }

  /** Paths that converge do so from any later points on them. */
  lemma ConvergeBehind(g: Graph, idom: seq<int>, stores: set<nat>, phis: set<nat>, p: seq<nat>, q: seq<nat>, i: nat,
          j: nat)
    requires Dominated(g, idom) && CoversFrontiers(g, stores, phis)
    requires IsPath(g, p) && IsPath(g, q) && i < |p| - 1 && j < |q| - 1 && p[|p| - 1] == q[|q| - 1]
    requires p[i] == 0 || p[i] in stores
    requires q[j] == 0 || q[j] in stores
    requires forall k, l :: 0 <= k < |p| - 1 && 0 <= l < |q| - 1 ==> p[k] != q[l]
    ensures p[|p| - 1] in phis
  {
    SlicePath(g, p, i, |p|);
    SlicePath(g, q, j, |q|);
    PathsConvergeAtPhi(g, idom, stores, phis, p[i], q[j], p[|p| - 1], p[i..|p|], q[j..|q|]);
  }

  lemma NumberPathFrom(c: Cfg, w: Walk, p: seq<nat>, u: nat, v: nat) returns (q: seq<nat>)
    requires Discovered(c, w) && SinglyEntered(c) && CfgPath(c, p, u, v) && CfgReachable(c, u)
    ensures |q| == |p| && forall i :: 0 <= i < |p| ==> Marked(w, p[i]) && q[i] == Num(w, p[i])
    ensures IsPath(NumberedGraph(c, w), q)
  {
    DiscoveryVisitsReachable(c, w, u);
    forall i | 0 <= i < |p| ensures Marked(w, p[i]) {
      PathFromMarked(c, w, p, i);
    }
    q := seq(|p|, i requires 0 <= i < |p| => Num(w, p[i]));
    NumbersArePath(c, w, p, q);
  }

  lemma {:induction false} PathFromMarked(c: Cfg, w: Walk, p: seq<nat>, i: nat)
    requires Discovered(c, w) && i < |p| && CfgPath(c, p, p[0], p[|p| - 1]) && Marked(w, p[0])
    ensures Marked(w, p[i])
  {
    if i > 0 {
      PathFromMarked(c, w, p, i - 1);
      EdgesSettled(c, w, p[i - 1], p[i]);
    }
  }

  /** The blocks, by name, that store v. */
  ghost function StoringBlocks(code: seq<F.Code>, v: nat): set<nat> {
    set b: nat | b < |code| && F.Stores(code[b], v)
  }

  /** The blocks, by name, that got a phi for v. */
  ghost function MergingBlocks(c: Cfg, w: Walk, phis: seq<P.PhiTable>, v: nat): set<nat>
    requires Discovered(c, w)
  {
    set b: nat | b < |c.succs| && Marked(w, b) && Num(w, b) in PhiBlocks(phis, v)
  }

  /** The last definition on a path is the same block by name and by number. */
  lemma LastDefinitionNamed(c: Cfg, code: seq<F.Code>, w: Walk, phis: seq<P.PhiTable>, p: seq<nat>, pn: seq<nat>,
      v: nat)
    requires Discovered(c, w) && Source(c, code).Valid() && |p| == |pn| >= 2 && p[0] == 0 && pn[0] == 0
    requires forall i :: 0 <= i < |p| ==> p[i] < |c.succs| && Marked(w, p[i]) && pn[i] == Num(w, p[i])
    ensures LastDefinition(Storing(c, code, w, v), PhiBlocks(phis, v), pn) < |w.preorder|
    ensures w.preorder[LastDefinition(Storing(c, code, w, v), PhiBlocks(phis, v), pn)] ==
            LastDefinition(StoringBlocks(code, v), MergingBlocks(c, w, phis, v), p)
  {
    var i := LastDefinitionAt(Storing(c, code, w, v), PhiBlocks(phis, v), pn);
    var j := LastDefinitionAt(StoringBlocks(code, v), MergingBlocks(c, w, phis, v), p);
    forall k | 0 <= k < |p|
      ensures Defines(Storing(c, code, w, v), PhiBlocks(phis, v), pn[k]) <==>
              Defines(StoringBlocks(code, v), MergingBlocks(c, w, phis, v), p[k])
    {
      assert w.preorder[pn[k]] == p[k];
      assert w.preorder[0] == 0;
    }
    assert i == j;
  }

  lemma NumberEntryPath(c: Cfg, w: Walk, p: seq<nat>, z: nat) returns (pn: seq<nat>)
    requires Discovered(c, w) && SinglyEntered(c) && CfgPath(c, p, 0, z) && z != 0
    ensures |p| == |pn| >= 2 && pn[0] == 0 && Marked(w, z) && 0 < Num(w, z) < |w.preorder|
    ensures forall i :: 0 <= i < |p| ==> p[i] < |c.succs| && Marked(w, p[i]) && pn[i] == Num(w, p[i])
    ensures PathBetween(NumberedGraph(c, w), pn, 0, Num(w, z))
  {
    assert CfgPath(c, [0], 0, 0);
    pn := NumberPathFrom(c, w, p, 0, z);
    assert w.preorder[0] == 0 && w.preorder[Num(w, z)] == z;
  }

  /** One definition reaches each block: where a variable is live into a block without a phi for it, the last block
      that stores it or holds a phi for it is the same on all paths from the entry. */
  lemma OneDefinitionReachesBlock(c: Cfg, code: seq<F.Code>, n: nat, w: Walk, idom: seq<int>, phis: seq<P.PhiTable>,
          v: nat, z: nat, p: seq<nat>, q: seq<nat>)
    requires InSsaForm(c, code, n, w, idom, phis) && v < n && z != 0
    requires CfgPath(c, p, 0, z) && CfgPath(c, q, 0, z)
    requires F.LiveAtStart(Source(c, code), z, v) && z !in MergingBlocks(c, w, phis, v)
    ensures |p| >= 2 && |q| >= 2
    ensures LastDefinition(StoringBlocks(code, v), MergingBlocks(c, w, phis, v), p) ==
            LastDefinition(StoringBlocks(code, v), MergingBlocks(c, w, phis, v), q)
  {
    var pn := NumberEntryPath(c, w, p, z);
    var qn := NumberEntryPath(c, w, q, z);
    assert w.preorder[Num(w, z)] == z;
    OneDefinitionReachesNumber(c, code, n, w, idom, phis, v, Num(w, z), pn, qn);
    LastDefinitionNamed(c, code, w, phis, p, pn, v);
    LastDefinitionNamed(c, code, w, phis, q, qn, v);
  }

  /** Whenever two paths from different reachable blocks that store a variable (or are the entry) first meet at a block
      where the variable is live, that block has a phi for it. */
  lemma MeetingPathsHavePhi(c: Cfg, code: seq<F.Code>, n: nat, w: Walk, idom: seq<int>, phis: seq<P.PhiTable>,
                            v: nat, x: nat, y: nat, z: nat, p: seq<nat>, q: seq<nat>)
    requires InSsaForm(c, code, n, w, idom, phis) && v < n
    requires CfgReachable(c, x) && x < |code| && (x == 0 || F.Stores(code[x], v))
    requires CfgReachable(c, y) && y < |code| && (y == 0 || F.Stores(code[y], v))
    requires |p| >= 2 && CfgPath(c, p, x, z) && |q| >= 2 && CfgPath(c, q, y, z)
    requires forall i, j :: 0 <= i < |p| - 1 && 0 <= j < |q| - 1 ==> p[i] != q[j]
    requires F.LiveAtStart(Source(c, code), z, v)
    ensures Marked(w, z) && Num(w, z) in PhiBlocks(phis, v)
  {
    var pn := NumberPathFrom(c, w, p, x, z);
    var qn := NumberPathFrom(c, w, q, y, z);
    assert Num(w, 0) == 0 by { assert w.preorder[0] == 0; }
    forall i, j | 0 <= i < |pn| - 1 && 0 <= j < |qn| - 1 ensures pn[i] != qn[j] {
      assert w.preorder[pn[i]] == p[i] && w.preorder[qn[j]] == q[j];
    }
    MeetingNumbersHavePhi(c, code, n, w, idom, phis, v, pn, qn);
  }

  /** Where it is not live there need be none: a variable has phis only if some reachable block stores it and leaves
      it live, wherever paths from its stores meet. */
  lemma PhisComeFromLiveStores(c: Cfg, code: seq<F.Code>, n: nat, w: Walk, idom: seq<int>, phis: seq<P.PhiTable>,
          v: nat, j: nat) returns (x: nat)
    requires InSsaForm(c, code, n, w, idom, phis) && v < n && j in PhiBlocks(phis, v)
    ensures x < |w.preorder| && F.Stores(code[w.preorder[x]], v) && F.LiveAtEnd(Source(c, code), w.preorder[x], v)
  {
    var g := NumberedGraph(c, w);
    var f, a := FrontierSets(g), AssignedSets(c, code, w, n);
    assert P.SlotComplete(f, a, PredecessorCounts(g), phis, j, v, n);
    var chain :| P.FrontierChain(f, a[v], chain) && chain[|chain| - 1] == j;
    x := chain[0];
    assert x in Assigned(c, code, w, v);
  }

  // ----- the passes, one after the other

  /** Row j of the numbered graph is read off the predecessor fields. */
  ghost predicate RowReads(c: Cfg, preorder: seq<nat>, preorderNum: seq<int>, predecessors: seq<seq<nat>>, g: Graph,
          j: nat) {
    && j < |preorder| == |g| && preorder[j] < |c.kinds| == |predecessors|
    && var preds := Predecessors(c, predecessors, preorder[j]);
       && (forall u :: u in preds ==> u < |preorderNum| && preorderNum[u] >= 0)
       && g[j] == NumberAll(preorderNum, preds)
  }

  lemma RowsRead(c: Cfg, w: Walk)
    requires Discovered(c, w)
    ensures forall j :: 0 <= j < |w.preorder| ==>
            RowReads(c, w.preorder, w.preorderNum, w.predecessors, NumberedGraph(c, w), j)
  {
    forall j | 0 <= j < |w.preorder|
      ensures RowReads(c, w.preorder, w.preorderNum, w.predecessors, NumberedGraph(c, w), j)
    {
      assert Marked(w, w.preorder[j]);
      PredecessorsAreMarked(c, w, w.preorder[j]);
    }
  }

  /** The numbered predecessor lists, read through block_predecessor_at and the preorder numbers. */
  method ReadPredecessors(c: Cfg, preorder: seq<nat>, preorderNum: seq<int>, predecessors: seq<seq<nat>>,
          ghost g: Graph) returns (r: Graph)
    requires |g| == |preorder|
    requires forall j :: 0 <= j < |preorder| ==> RowReads(c, preorder, preorderNum, predecessors, g, j)
    ensures r == g
  {
    r := [];
    for j := 0 to |preorder|
      invariant |r| == j && r == g[..j]
    {
      assert RowReads(c, preorder, preorderNum, predecessors, g, j);
      r := r + [NumberAll(preorderNum, Predecessors(c, predecessors, preorder[j]))];
    }
  }

  lemma SuccessorsFinished(c: Cfg, w: Walk, b: nat)
    requires Discovered(c, w) && b in w.postorder
    ensures Finished(w, b) && b < |c.succs| && forall s :: s in c.succs[b] ==> Finished(w, s)
  {
    DiscoveryVisitsReachable(c, w, b);
    forall s | s in c.succs[b] ensures Finished(w, s) {
      EdgesSettled(c, w, b, s);
      DiscoveryVisitsReachable(c, w, s);
    }
  }

  /** The successors of block b have postorder numbers. */
  ghost predicate SuccessorsNumbered(c: Cfg, postorder: seq<nat>, postorderNum: seq<int>, b: nat) {
    && b < |c.succs| && (forall s :: s in c.succs[b] ==> s < |postorderNum| && postorderNum[s] >= 0)
    && NumberedBy(c, postorder, b, NumberAll(postorderNum, c.succs[b]))
  }

  /** The postorder numbers of b's successors. */
  ghost predicate NumberedBy(c: Cfg, postorder: seq<nat>, b: nat, numbers: seq<nat>) {
    && b < |c.succs| && |numbers| == |c.succs[b]|
    && forall k :: 0 <= k < |numbers| ==> numbers[k] < |postorder| && postorder[numbers[k]] == c.succs[b][k]
  }

  lemma AllSuccessorsNumbered(c: Cfg, w: Walk)
    requires Discovered(c, w)
    ensures forall i :: 0 <= i < |w.postorder| ==> SuccessorsNumbered(c, w.postorder, w.postorderNum, w.postorder[i])
  {
    forall i | 0 <= i < |w.postorder|
      ensures SuccessorsNumbered(c, w.postorder, w.postorderNum, w.postorder[i])
    {
      var b := w.postorder[i];
      SuccessorsFinished(c, w, b);
      forall k | 0 <= k < |c.succs[b]| ensures Finished(w, c.succs[b][k]) {
        assert c.succs[b][k] in c.succs[b];
      }
    }
  }

  /** The first n blocks in postorder, with numbered successors. */
  ghost predicate FirstBlocks(c: Cfg, code: seq<F.Code>, postorder: seq<nat>, q: F.Program, n: nat) {
    && |q.code| == |q.succs| == n <= |postorder|
    && (forall i :: 0 <= i < n ==> postorder[i] < |code| && q.code[i] == code[postorder[i]])
    && (forall i :: 0 <= i < n ==> NumberedBy(c, postorder, postorder[i], q.succs[i]))
  }

  lemma NumberedIsRenamed(c: Cfg, code: seq<F.Code>, postorder: seq<nat>, q: F.Program)
    requires c.Valid() && |code| == |c.succs| && FirstBlocks(c, code, postorder, q, |postorder|)
    ensures Renamed(Source(c, code), q, postorder)
  {
    forall i, s | 0 <= i < |q.succs| && s in q.succs[i] ensures s < |q.succs| {
      assert NumberedBy(c, postorder, postorder[i], q.succs[i]);
    }
    forall i | 0 <= i < |postorder| ensures SameSuccessors(Source(c, code), q, postorder, i) {
      assert NumberedBy(c, postorder, postorder[i], q.succs[i]);
    }
  }

  /** The program the liveness pass works on: the reachable blocks by postorder number. */
  method NumberProgram(c: Cfg, code: seq<F.Code>, postorder: seq<nat>, postorderNum: seq<int>) returns (q: F.Program)
    requires c.Valid() && |code| == |c.succs|
    requires forall i :: 0 <= i < |postorder| ==> SuccessorsNumbered(c, postorder, postorderNum, postorder[i])
    ensures Renamed(Source(c, code), q, postorder)
  {
    q := F.Program([], []);
    for i := 0 to |postorder|
      invariant FirstBlocks(c, code, postorder, q, i)
    {
      var b := postorder[i];
      assert SuccessorsNumbered(c, postorder, postorderNum, b);
      q := F.Program(q.code + [code[b]], q.succs + [NumberAll(postorderNum, c.succs[b])]);
    }
    NumberedIsRenamed(c, code, postorder, q);
  }

  /** The postorder numbers of the blocks in preorder. */
  ghost predicate Orders(w: Walk, order: seq<nat>) {
    && |order| == |w.preorder|
    && (forall i :: 0 <= i < |order| ==> order[i] < |w.postorder| && w.postorder[order[i]] == w.preorder[i])
    && (forall i, j :: 0 <= i < j < |order| ==> order[i] != order[j])
  }

  lemma PostorderOfPreorder(c: Cfg, w: Walk)
    requires Discovered(c, w)
    ensures forall b :: b in w.preorder ==> b < |w.postorderNum| && w.postorderNum[b] >= 0
    ensures Orders(w, NumberAll(w.postorderNum, w.preorder))
  {
    forall b | b in w.preorder ensures Finished(w, b) {
      DiscoveryVisitsReachable(c, w, b);
    }
    DiscoveryVisitsReachable(c, w, 0);
    forall i | 0 <= i < |w.preorder| ensures w.preorder[i] in w.preorder {
    }
  }

  lemma AssignedByNumber(c: Cfg, code: seq<F.Code>, w: Walk, q: F.Program, n: nat, i: nat, j: nat, v: nat,
          outs: set<nat>)
    requires Discovered(c, w) && Source(c, code).Valid() && Renamed(Source(c, code), q, w.postorder)
    requires i < |w.postorder| && j < |w.preorder| && w.postorder[i] == w.preorder[j] && v < n
    requires v in outs <==> F.LiveAtEnd(q, i, v)
    ensures v in L.StoredIn(q.code[i], n) * outs <==> j in Assigned(c, code, w, v)
  {
    LiveAtEndRenamed(Source(c, code), q, w.postorder, i, v);
  }

  /** The sets held by the analysis, block by block in preorder, are the assigned variables. */
  lemma AssignedInPreorder(c: Cfg, code: seq<F.Code>, w: Walk, q: F.Program, n: nat, order: seq<nat>,
          ins: seq<set<nat>>, outs: seq<set<nat>>, held: seq<set<nat>>)
    requires Discovered(c, w) && Source(c, code).Valid() && Renamed(Source(c, code), q, w.postorder) && Orders(w, order)
    requires F.IsLiveness(q, n, ins, outs) && |held| == |order|
    requires forall j :: 0 <= j < |held| ==> held[j] == L.StoredIn(q.code[order[j]], n) * outs[order[j]]
    ensures forall v :: 0 <= v < n ==> AssignedSets(c, code, w, n)[v] == Holding(held, v)
  {
    forall j: nat, v: nat | j < |held| && v < n
      ensures v in held[j] <==> j in Assigned(c, code, w, v)
    {
      AssignedByNumber(c, code, w, q, n, order[j], j, v, outs[order[j]]);
    }
  }

  ghost function Holding(held: seq<set<nat>>, v: nat): set<nat> {
    set j: nat | j < |held| && v in held[j]
  }

  /** Liveness of a program, and its kill sets cut down to what is live-out, in the given order. */
  method Analyze(q: F.Program, n: nat, order: seq<nat>)
    returns (assignedVars: seq<BitVector>, ghost ins: seq<set<nat>>, ghost outs: seq<set<nat>>,
            ghost held: seq<set<nat>>)
    requires q.Valid() && forall i :: 0 <= i < |order| ==> order[i] < |q.succs|
    requires forall i, j :: 0 <= i < j < |order| ==> order[i] != order[j]
    ensures F.IsLiveness(q, n, ins, outs) && |held| == |order| && L.Holds(assignedVars, held)
    ensures forall j :: 0 <= j < |assignedVars| ==>
            fresh(assignedVars[j].data) && n <= BITS_PER_WORD * assignedVars[j].data.Length
    ensures forall j :: 0 <= j < |held| ==> held[j] == L.StoredIn(q.code[order[j]], n) * outs[order[j]]
  {
    var analysis := new L.LivenessAnalysis(q, n);
    ins, outs := analysis.Analyze();
    assignedVars := analysis.ComputeAssigned(order);
    held := seq(|order|, j requires 0 <= j < |order| && order[j] < |q.succs| =>
      L.StoredIn(q.code[order[j]], n) * outs[order[j]]);
  }

  /** Liveness, then the assigned variables of each block by preorder number. */
  method ComputeAssigned(c: Cfg, code: seq<F.Code>, n: nat, preorder: seq<nat>, postorder: seq<nat>,
          postorderNum: seq<int>, ghost w: Walk)
    returns (assignedVars: seq<BitVector>, ghost held: seq<set<nat>>)
    requires Discovered(c, w) && |code| == |c.succs|
    requires preorder == w.preorder && postorder == w.postorder && postorderNum == w.postorderNum
    ensures Source(c, code).Valid() && |held| == |w.preorder| && L.Holds(assignedVars, held)
    ensures forall j :: 0 <= j < |assignedVars| ==>
            fresh(assignedVars[j].data) && n <= BITS_PER_WORD * assignedVars[j].data.Length
    ensures forall v :: 0 <= v < n ==> AssignedSets(c, code, w, n)[v] == Holding(held, v)
  {
    AllSuccessorsNumbered(c, w);
    var q := NumberProgram(c, code, postorder, postorderNum);
    PostorderOfPreorder(c, w);
    var order := NumberAll(postorderNum, preorder);
    ghost var ins, outs;
    assignedVars, ins, outs, held := Analyze(q, n, order);
    AssignedInPreorder(c, code, w, q, n, order, ins, outs, held);
  }

  /** compute_dominators, liveness_analyze, compute_assigned and insert_phis, on a graph whose blocks have been
      discovered. */
  method ComputeSsa(graph: FlowGraph, code: seq<F.Code>, n: nat, ghost w: Walk)
    returns (idom: array<int>, dominated: array<seq<nat>>, dominance: seq<BitVector>, inserter: P.PhiInserter)
    requires w == graph.State([], w.seen) && Discovered(graph.cfg, w) && |code| == |graph.cfg.succs|
    requires SinglyEntered(graph.cfg)
    ensures InSsaForm(graph.cfg, code, n, w, idom[..], inserter.phis)
    ensures P.LiveComplete(inserter.phis, inserter.livePhis)
    ensures ListsDominated(NumberedGraph(graph.cfg, w), dominated[..])
    ensures L.Holds(dominance, FrontierSets(NumberedGraph(graph.cfg, w)))
  {
    RowsRead(graph.cfg, w);
    var g := ReadPredecessors(graph.cfg, graph.preorder, graph.preorderNum, graph.predecessors,
        NumberedGraph(graph.cfg, w));
    NumberingIsDepthFirst(graph.cfg, w);
    var parent := new int[|graph.parent|](i requires 0 <= i < |graph.parent| reads graph => graph.parent[i]);
    assert parent[..] == w.parent;
    idom, dominated := ComputeDominatorTree(g, parent);
    NumberedIsDominated(graph.cfg, w, idom[..]);
    dominance := ComputeFrontiers(g, idom);
    inserter := InsertPhis(graph, code, n, w, g, dominance);
  }

  method InsertPhis(graph: FlowGraph, code: seq<F.Code>, n: nat, ghost w: Walk, g: Graph,
          dominance: seq<BitVector>) returns (inserter: P.PhiInserter)
    requires w == graph.State([], w.seen) && Discovered(graph.cfg, w) && |code| == |graph.cfg.succs|
    requires g == NumberedGraph(graph.cfg, w) && |dominance| == |g| && Separate(dominance, |g|)
    requires forall x, y: nat :: 0 <= x < |g| ==> (y in dominance[x].Contents() <==> InFrontier(g, x, y))
    ensures Source(graph.cfg, code).Valid()
    ensures P.PhisComplete(FrontierSets(g), AssignedSets(graph.cfg, code, w, n), PredecessorCounts(g), inserter.phis,
            n, n)
    ensures P.LiveComplete(inserter.phis, inserter.livePhis)
  {
    ghost var held;
    var assignedVars;
    assignedVars, held := ComputeAssigned(graph.cfg, code, n, graph.preorder, graph.postorder, graph.postorderNum, w);
    inserter := InsertAssigned(n, g, dominance, assignedVars, held, AssignedSets(graph.cfg, code, w, n));
  }

  method InsertAssigned(n: nat, g: Graph, dominance: seq<BitVector>, assignedVars: seq<BitVector>,
          ghost held: seq<set<nat>>, ghost a: seq<set<nat>>)
    returns (inserter: P.PhiInserter)
    requires |dominance| == |g| && Separate(dominance, |g|)
    requires forall x, y: nat :: 0 <= x < |g| ==> (y in dominance[x].Contents() <==> InFrontier(g, x, y))
    requires |held| == |g| && L.Holds(assignedVars, held)
    requires |a| == n && forall v :: 0 <= v < n ==> a[v] == Holding(held, v)
    requires forall j :: 0 <= j < |assignedVars| ==> n <= BITS_PER_WORD * assignedVars[j].data.Length
    ensures P.PhisComplete(FrontierSets(g), a, PredecessorCounts(g), inserter.phis, n, n)
    ensures P.LiveComplete(inserter.phis, inserter.livePhis)
  {
    var inputs := seq(|g|, j requires 0 <= j < |g| => |g[j]|);
    inserter := new P.PhiInserter(inputs, n);
    ghost var f := FrontierSets(g);
    forall x | 0 <= x < |g| ensures dominance[x].Contents() == f[x] && dominance[x].data.Length > 0 {
    }
    forall v | 0 <= v < n ensures a[v] == P.AssignedIn(assignedVars, v) {
    }
    inserter.Insert(assignedVars, dominance, f, a);
  }

  /** All passes on a control-flow graph, whatever numbers and predecessor lists its blocks start with. */
  method BuildSsa(c: Cfg, code: seq<F.Code>, n: nat, preorderNum: seq<int>, postorderNum: seq<int>,
          predecessors: seq<seq<nat>>)
    returns (graph: FlowGraph, idom: array<int>, dominated: array<seq<nat>>, dominance: seq<BitVector>,
            inserter: P.PhiInserter, ghost w: Walk)
    requires c.Valid() && SinglyEntered(c) && |code| == |c.succs|
    requires |preorderNum| == |postorderNum| == |predecessors| == |c.succs|
    ensures graph.cfg == c && w == graph.State([], w.seen) && Discovered(c, w) && Ordered(c, w)
    ensures InSsaForm(c, code, n, w, idom[..], inserter.phis) && P.LiveComplete(inserter.phis, inserter.livePhis)
    ensures ListsDominated(NumberedGraph(c, w), dominated[..])
    ensures L.Holds(dominance, FrontierSets(NumberedGraph(c, w)))
  {
    graph := new FlowGraph(c, preorderNum, postorderNum, predecessors);
    w := graph.Discover();
    idom, dominated, dominance, inserter := ComputeSsa(graph, code, n, w);
  }
}
