/** Dominance frontiers: the runner loop that ends compute_dominators. */
module Frontiers {
  import opened Paths
  import opened Semidominators
  import opened Dominators
  import opened BitVectors

  /** y is in the dominance frontier of x: x dominates a predecessor of y but does not strictly dominate y. */
  ghost predicate InFrontier(g: Graph, x: nat, y: nat) {
    && y < |g|
    && (exists p :: p in g[y] && Dominates(g, x, p))
    && !StrictlyDominates(g, x, y)
  }

  /** A graph with its dominator tree; nothing enters the graph entry. */
  ghost predicate Dominated(g: Graph, idom: seq<int>) {
    WellFormed(g) && AllReachable(g) && IsDominatorTree(g, idom) && g[0] == []
  }

  // ----- the frontier, read off the dominator tree

  lemma StrictDominators(g: Graph, idom: seq<int>, x: nat, y: nat)
    requires Dominated(g, idom) && 0 < y < |g|
    ensures StrictlyDominates(g, x, y) <==> Ancestor(idom, x, idom[y])
  {
    var d := idom[y];
    DominatorsAreAncestors(g, idom, x, d);
    if Dominates(g, x, d) {
      DominatesTransitive(g, x, d, y);
      AncestorBoundsIf(idom, x, d);
    }
  }

  lemma AncestorBoundsIf(parent: seq<int>, a: int, v: int)
    requires IsTree(parent) && 0 <= v < |parent|
    ensures Ancestor(parent, a, v) ==> 0 <= a <= v
  {
    if Ancestor(parent, a, v) { AncestorBounds(parent, a, v); }
  }

  /** The tree form of the frontier condition for one predecessor p of y. */
  ghost predicate Runs(idom: seq<int>, x: nat, p: nat, y: nat)
    requires IsTree(idom) && p < |idom| && 0 < y < |idom|
  {
    Ancestor(idom, x, p) && !Ancestor(idom, x, idom[y])
  }

  ghost predicate RunsFrom(g: Graph, idom: seq<int>, x: nat, y: nat, n: nat)
    requires Dominated(g, idom) && y < |g| && n <= |g[y]|
  {
    exists k :: 0 <= k < n && g[y][k] < |g| && y > 0 && Runs(idom, x, g[y][k], y)
  }

  lemma FrontierIsRuns(g: Graph, idom: seq<int>, x: nat, y: nat)
    requires Dominated(g, idom) && y < |g|
    ensures InFrontier(g, x, y) <==> RunsFrom(g, idom, x, y, |g[y]|)
  {
    if y > 0 {
      StrictDominators(g, idom, x, y);
      forall p: nat | p in g[y]
        ensures p < |g| && (Dominates(g, x, p) <==> Ancestor(idom, x, p))
      {
        DominatorsAreAncestors(g, idom, x, p);
      }
    }
  }

  /** The immediate dominator of y dominates every predecessor of y. */
  lemma IdomAbovePredecessor(g: Graph, idom: seq<int>, p: nat, y: nat)
    requires Dominated(g, idom) && 0 < y < |g| && p in g[y]
    ensures p < |g| && Ancestor(idom, idom[y], p)
  {
    assert Edge(g, p, y);
    DominatorOfPredecessor(g, idom[y], p, y);
    DominatorsAreAncestors(g, idom, idom[y], p);
  }

  /** Why blocks with a single predecessor can be skipped: that predecessor is the immediate dominator. */
  lemma SinglePredecessorRunsNowhere(g: Graph, idom: seq<int>, x: nat, y: nat)
    requires Dominated(g, idom) && y < |g| && |g[y]| <= 1
    ensures !InFrontier(g, x, y)
  {
    if y > 0 && |g[y]| == 1 && InFrontier(g, x, y) {
      var p := g[y][0];
      assert p in g[y];
      SinglePredecessorDominates(g, p, y);
      DominatesTransitive(g, x, p, y);
      assert Reachable(g, y);
      SinglePredecessorFirst(g, p, y);
    }
  }

  lemma SinglePredecessorFirst(g: Graph, p: nat, y: nat)
    requires WellFormed(g) && 0 < y < |g| && g[y] == [p] && Reachable(g, y)
    ensures !Dominates(g, y, p)
  {
    var path :| PathBetween(g, path, 0, y);
    var i := PrefixUpTo(g, path, y);
    assert Edge(g, path[i - 1], path[i]);
    SlicePath(g, path, 0, i);
    assert path[0..i] == path[..i];
    assert PathBetween(g, path[..i], 0, p);
  }

  lemma SinglePredecessorDominates(g: Graph, p: nat, y: nat)
    requires WellFormed(g) && 0 < y < |g| && g[y] == [p]
    ensures Dominates(g, p, y)
  {
    forall path | PathBetween(g, path, 0, y)
      ensures p in path
    {
      assert Edge(g, path[|path| - 2], path[|path| - 1]);
    }
  }

  // ----- the method

  /** The while loop: from predecessor p up the dominator tree to y's immediate dominator. */
  method RunUp(g: Graph, idom: array<int>, y: nat, p: nat, dominance: seq<BitVector>)
    requires Dominated(g, idom[..]) && 0 < y < |g| == |dominance| && p in g[y]
    requires Separate(dominance, |g|)
    modifies set v | v in dominance :: v.data
    ensures p < |g|
    ensures forall x :: 0 <= x < |g| ==>
              dominance[x].Contents() == old(dominance[x].Contents()) + (if Runs(idom[..], x, p, y) then {y} else {})
  {
    ghost var tree := idom[..];
    IdomAbovePredecessor(g, tree, p, y);
    var runner := p;
    forall x | 0 <= x < |g|
      ensures !(Ancestor(tree, x, p) && p < x)
    {
      AncestorBoundsIf(tree, x, p);
    }
    while runner != idom[y]
      invariant 0 <= runner < |g| && Ancestor(tree, tree[y], runner) && Ancestor(tree, runner, p)
      invariant forall x :: 0 <= x < |g| ==>
                  dominance[x].Contents() ==
                      old(dominance[x].Contents()) + (if Ancestor(tree, x, p) && runner < x then {y} else {})
      decreases runner
    {
      AncestorBounds(tree, tree[y], runner);
      dominance[runner].Add(y);
      ghost var before := runner;
      runner := idom[runner];
      AncestorTransitive(tree, runner, before, p);
      forall x | 0 <= x < |g|
        ensures Ancestor(tree, x, p) && runner < x <==> Ancestor(tree, x, p) && before <= x
      {
        NothingBetween(tree, x, before, p);
      }
    }
    forall x | 0 <= x < |g|
      ensures Ancestor(tree, x, p) && runner < x <==> Runs(tree, x, p, y)
    {
      AncestorBoundsIf(tree, x, runner);
      if Ancestor(tree, x, p) && x <= runner {
        AncestorsLinear(tree, x, runner, p);
      }
    }
  }

  /** Two ancestors of p have nothing between a block and its parent. */
  lemma NothingBetween(tree: seq<int>, x: int, v: int, p: int)
    requires IsTree(tree) && 0 <= p < |tree| && 0 < v < |tree| && Ancestor(tree, v, p)
    ensures Ancestor(tree, x, p) && tree[v] < x ==> v <= x
  {
    if Ancestor(tree, x, p) && x <= v {
      AncestorsLinear(tree, x, v, p);
      AncestorBoundsIf(tree, x, tree[v]);
    }
  }

  /** The last loop nest of compute_dominators. */
  method ComputeFrontiers(g: Graph, idom: array<int>) returns (dominance: seq<BitVector>)
    requires Dominated(g, idom[..])
    ensures |dominance| == |g| && Separate(dominance, |g|)
    ensures forall x :: 0 <= x < |g| ==> fresh(dominance[x].data)
    ensures forall x, y: nat :: 0 <= x < |g| ==> (y in dominance[x].Contents() <==> InFrontier(g, x, y))
  {
    ghost var tree := idom[..];
    dominance := NewVectors(|g|, |g|);
    var y := 0;
    while y < |g|
      invariant y <= |g| == |dominance| && Separate(dominance, |g|)
      invariant forall x :: 0 <= x < |g| ==> fresh(dominance[x].data)
      invariant forall x, z: nat :: 0 <= x < |g| ==> (z in dominance[x].Contents() <==> z < y && InFrontier(g, x, z))
    {
      var count := |g[y]|;
      if count > 1 {
        RunPredecessors(g, idom, y, dominance);
      } else {
        forall x: nat
          ensures !InFrontier(g, x, y)
        {
          SinglePredecessorRunsNowhere(g, tree, x, y);
        }
      }
      y := y + 1;
    }
  }

  method RunPredecessors(g: Graph, idom: array<int>, y: nat, dominance: seq<BitVector>)
    requires Dominated(g, idom[..]) && y < |g| == |dominance| && |g[y]| > 1
    requires Separate(dominance, |g|)
    requires forall v :: v in dominance ==> v.data as object != idom
    modifies set v | v in dominance :: v.data
    ensures forall x, z: nat :: 0 <= x < |g| ==>
              (z in dominance[x].Contents() <==> z in old(dominance[x].Contents()) || (z == y && InFrontier(g, x, z)))
  {
    var i := 0;
    while i < |g[y]|
      invariant 0 <= i <= |g[y]| && idom[..] == old(idom[..])
      invariant forall x, z: nat :: 0 <= x < |g| ==>
                  (z in dominance[x].Contents() <==>
                      z in old(dominance[x].Contents()) || (z == y && RunsFrom(g, idom[..], x, y, i)))
    {
      assert g[y][i] in g[y];
      RunUp(g, idom, y, g[y][i], dominance);
      i := i + 1;
    }
    forall x: nat
      ensures InFrontier(g, x, y) <==> RunsFrom(g, idom[..], x, y, |g[y]|)
    {
      FrontierIsRuns(g, idom[..], x, y);
    }
  }
}
