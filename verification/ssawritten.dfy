/** Phi placement after the liveness analysis as written: no variable counts as assigned anywhere, so no phi is
    placed. */
module SsaAsWritten {
  import opened Paths
  import opened Semidominators
  import opened Discovery
  import opened Numbering
  import opened BitVectors
  import opened Frontiers
  import opened SsaConstruction
  import opened Renaming
  import F = Flow
  import L = Liveness
  import P = Phis
  import W = LivenessAsWritten

  ghost function NoSets(count: nat): seq<set<nat>> {
    seq(count, _ => {})
  }

  /** compute_assigned cuts every kill set down to the empty live-out. */
  method AnalyzeAsWritten(q: F.Program, n: nat, order: seq<nat>) returns (assignedVars: seq<BitVector>)
    requires q.Valid() && W.AllCounted(q, n) && forall i :: 0 <= i < |order| ==> order[i] < |q.succs|
    requires forall i, j :: 0 <= i < j < |order| ==> order[i] != order[j]
    ensures L.Holds(assignedVars, NoSets(|order|))
    ensures forall j :: 0 <= j < |assignedVars| ==> n <= BITS_PER_WORD * assignedVars[j].data.Length
  {
    var analysis := new L.LivenessAnalysis(q, n);
    W.Analyze(analysis);
    assignedVars := analysis.ComputeAssigned(order);
  }

  /** Liveness and the assigned variables of each block by preorder number. */
  method ComputeAssignedAsWritten(c: Cfg, code: seq<F.Code>, n: nat, preorder: seq<nat>, postorder: seq<nat>,
          postorderNum: seq<int>, ghost w: Walk) returns (assignedVars: seq<BitVector>)
    requires Discovered(c, w) && |code| == |c.succs| && forall b :: 0 <= b < |code| ==> W.Counted(code[b], n)
    requires preorder == w.preorder && postorder == w.postorder && postorderNum == w.postorderNum
    ensures L.Holds(assignedVars, NoSets(|w.preorder|))
    ensures forall j :: 0 <= j < |assignedVars| ==> n <= BITS_PER_WORD * assignedVars[j].data.Length
  {
    AllSuccessorsNumbered(c, w);
    var q := NumberProgram(c, code, postorder, postorderNum);
    PostorderOfPreorder(c, w);
    var order := NumberAll(postorderNum, preorder);
    assignedVars := AnalyzeAsWritten(q, n, order);
  }

  /** liveness_analyze, compute_assigned and insert_phis as written, on a discovered graph. */
  method InsertPhisAsWritten(graph: FlowGraph, code: seq<F.Code>, n: nat, ghost w: Walk, g: Graph,
          dominance: seq<BitVector>) returns (inserter: P.PhiInserter)
    requires w == graph.State([], w.seen) && Discovered(graph.cfg, w) && |code| == |graph.cfg.succs|
    requires forall b :: 0 <= b < |code| ==> W.Counted(code[b], n)
    requires g == NumberedGraph(graph.cfg, w) && |dominance| == |g| && Separate(dominance, |g|)
    requires forall x, y: nat :: 0 <= x < |g| ==> (y in dominance[x].Contents() <==> InFrontier(g, x, y))
    ensures P.PhisComplete(FrontierSets(g), NoSets(n), PredecessorCounts(g), inserter.phis, n, n)
  {
    var assignedVars :=
      ComputeAssignedAsWritten(graph.cfg, code, n, graph.preorder, graph.postorder, graph.postorderNum, w);
    inserter := InsertAssigned(n, g, dominance, assignedVars, NoSets(|g|), NoSets(n));
  }

  /** No assigned block has a frontier. */
  ghost predicate NothingToMerge(c: Cfg, code: seq<F.Code>, n: nat, w: Walk)
    requires Discovered(c, w) && Source(c, code).Valid()
  {
    forall v: nat, x: nat, y: nat :: v < n && x in Assigned(c, code, w, v) ==> !InFrontier(NumberedGraph(c, w), x, y)
  }

  lemma FirstStep(f: seq<set<nat>>, a: set<nat>, y: nat) returns (x: nat, z: nat)
    requires P.InIteratedFrontier(f, a, y)
    ensures x in a && P.FrontierStep(f, x, z)
  {
    var chain :| P.FrontierChain(f, a, chain) && chain[|chain| - 1] == y;
    x, z := chain[0], chain[1];
    assert P.FrontierStep(f, chain[1 - 1], chain[1]);
  }

  lemma IntendedPhi(c: Cfg, code: seq<F.Code>, n: nat, w: Walk, phis: seq<P.PhiTable>, v: nat, x: nat, y: nat)
    requires Discovered(c, w) && Source(c, code).Valid() && v < n && x in Assigned(c, code, w, v)
    requires InFrontier(NumberedGraph(c, w), x, y)
    requires var g := NumberedGraph(c, w);
             P.PhisComplete(FrontierSets(g), AssignedSets(c, code, w, n), PredecessorCounts(g), phis, n, n)
    ensures y < |phis| && P.HasPhi(phis[y], v)
  {
    var g := NumberedGraph(c, w);
    var f, a := FrontierSets(g), AssignedSets(c, code, w, n);
    P.IteratedFrontierStep(f, a[v], x, y);
    assert P.SlotComplete(f, a, PredecessorCounts(g), phis, y, v, n);
  }

  /** As written there is no phi at all, and that is the intended placement if and only if no block that stores a
      variable and leaves it live has anything in its dominance frontier. */
  lemma PhisAsWritten(c: Cfg, code: seq<F.Code>, n: nat, w: Walk, phis: seq<P.PhiTable>)
    requires Discovered(c, w) && Source(c, code).Valid()
    requires var g := NumberedGraph(c, w); P.PhisComplete(FrontierSets(g), NoSets(n), PredecessorCounts(g), phis, n, n)
    ensures forall j: nat, v: nat :: j < |phis| ==> !P.HasPhi(phis[j], v)
    ensures var g := NumberedGraph(c, w);
            P.PhisComplete(FrontierSets(g), AssignedSets(c, code, w, n), PredecessorCounts(g), phis, n, n) <==>
            NothingToMerge(c, code, n, w)
  {
    var g := NumberedGraph(c, w);
    var f, a, counts := FrontierSets(g), AssignedSets(c, code, w, n), PredecessorCounts(g);
    forall j: nat, v: nat | j < |phis|
      ensures !P.HasPhi(phis[j], v)
    {
      if v < n {
        assert P.SlotComplete(f, NoSets(n), counts, phis, j, v, n);
      }
    }
    if NothingToMerge(c, code, n, w) {
      forall j: nat, v: nat | j < |phis| && v < n
        ensures P.SlotComplete(f, a, counts, phis, j, v, n)
      {
        if P.InIteratedFrontier(f, a[v], j) {
          var x, z := FirstStep(f, a[v], j);
          assert false;
        }
      }
    }
    if P.PhisComplete(f, a, counts, phis, n, n) {
      forall v: nat, x: nat, y: nat | v < n && x in Assigned(c, code, w, v)
        ensures !InFrontier(g, x, y)
      {
        if InFrontier(g, x, y) {
          IntendedPhi(c, code, n, w, phis, v, x, y);
        }
      }
    }
  }
}
