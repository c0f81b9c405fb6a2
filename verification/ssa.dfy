/** Why phis on the iterated frontier suffice: no point of the graph is reached by two definitions. */
module Ssa {
  import opened Paths
  import opened Semidominators
  import opened Dominators
  import opened Frontiers

  /** A variable's definitions after phi placement: the entry (undefined or a parameter), the blocks that
      assign it, and the blocks that hold a phi for it. */
  ghost predicate Defines(stores: set<nat>, phis: set<nat>, b: nat) {
    b == 0 || b in stores || b in phis
  }

  /** The phis cover the frontier of every assigning block and of one another. */
  ghost predicate CoversFrontiers(g: Graph, stores: set<nat>, phis: set<nat>) {
    forall x: nat, y: nat :: InFrontier(g, x, y) && (x in stores || x in phis) ==> y in phis
  }

  /** The last block of p before its end that defines the variable: the definition that reaches the end of p
      from outside. */
  ghost function LastDefinition(stores: set<nat>, phis: set<nat>, p: seq<nat>): nat
    requires |p| >= 2 && p[0] == 0
  {
    if |p| == 2 || Defines(stores, phis, p[|p| - 2]) then p[|p| - 2]
    else LastDefinition(stores, phis, p[..|p| - 1])
  }

  lemma {:induction false} LastDefinitionAt(stores: set<nat>, phis: set<nat>, p: seq<nat>) returns (i: nat)
    requires |p| >= 2 && p[0] == 0
    ensures i < |p| - 1 && p[i] == LastDefinition(stores, phis, p) && Defines(stores, phis, p[i])
    ensures forall k :: i < k < |p| - 1 ==> !Defines(stores, phis, p[k])
  {
    i := |p| - 2;
    if |p| > 2 && !Defines(stores, phis, p[i]) {
      i := LastDefinitionAt(stores, phis, p[..|p| - 1]);
    }
  }

  /** The last visit to x before the end of p. */
  lemma LastVisit(p: seq<nat>, x: nat) returns (i: nat)
    requires |p| >= 2 && x in p[..|p| - 1]
    ensures i < |p| - 1 && p[i] == x && forall k :: i < k < |p| - 1 ==> p[k] != x
  {
    i := |p| - 2;
    while p[i] != x
      invariant 0 <= i < |p| - 1 && forall k :: i < k < |p| - 1 ==> p[k] != x
      invariant x in p[..|p| - 1]
      decreases i
    {
      var j :| 0 <= j < |p| - 1 && p[..|p| - 1][j] == x;
      assert p[j] == x;
      i := i - 1;
    }
  }

  /** Between its last visit to z's immediate dominator d and z, a path stays strictly below d. */
  lemma BelowImmediateDominator(g: Graph, d: nat, z: nat, p: seq<nat>, i: nat, k: nat)
    requires WellFormed(g) && ImmediatelyDominates(g, d, z)
    requires PathBetween(g, p, 0, z) && i < k < |p| && p[i] == d
    requires forall j :: i < j < |p| ==> p[j] != d
    ensures StrictlyDominates(g, d, p[k])
  {
    forall q | PathBetween(g, q, 0, p[k])
      ensures d in q
    {
      SlicePath(g, p, k, |p|);
      GluePaths(g, q, p[k..]);
      assert d in Glue(q, p[k..]);
      assert d !in p[k..] by { assert forall j :: 0 <= j < |p[k..]| ==> p[k..][j] == p[k + j]; }
    }
  }

  /** Along a path from b to a block that b does not strictly dominate, some block after b is in b's
      frontier. */
  lemma FrontierOnPath(g: Graph, p: seq<nat>, b: nat) returns (k: nat)
    requires WellFormed(g) && IsPath(g, p) && |p| >= 2 && p[0] == b
    requires !StrictlyDominates(g, b, p[|p| - 1])
    ensures 0 < k < |p| && InFrontier(g, b, p[k])
  {
    DominatesReflexive(g, b);
    k := 1;
    while StrictlyDominates(g, b, p[k])
      invariant 0 < k < |p| && Dominates(g, b, p[k - 1])
      decreases |p| - k
    {
      k := k + 1;
    }
    assert Edge(g, p[k - 1], p[k]);
  }

  /** Between the immediate dominator of z and z, nothing defines the variable unless z holds a phi. */
  lemma NoDefinitionBelowDominator(g: Graph, idom: seq<int>, stores: set<nat>, phis: set<nat>, z: nat, p: seq<nat>,
          i: nat)
    requires Dominated(g, idom) && CoversFrontiers(g, stores, phis) && 0 < z < |g| && z !in phis
    requires PathBetween(g, p, 0, z) && i < |p| - 1 && p[i] == idom[z]
    requires forall j :: i < j < |p| ==> p[j] != idom[z]
    ensures forall k :: i < k < |p| - 1 ==> !Defines(stores, phis, p[k])
  {
    var d: nat := idom[z];
    var m := |p| - 2;
    while m > i && !Defines(stores, phis, p[m])
      invariant i <= m <= |p| - 2
      invariant forall k :: m < k < |p| - 1 ==> !Defines(stores, phis, p[k])
    {
      m := m - 1;
    }
    if m > i {
      // p[m] would be the last definition before z. Its frontier meets the rest of the path, where the only
      // block that may hold a phi is z.
      BelowImmediateDominator(g, d, z, p, i, m);
      NotStrictlyAbove(g, idom, z, p[m]);
      SlicePath(g, p, m, |p|);
      var k := FrontierOnPath(g, p[m..], p[m]);
      EntryBelowNothing(g, d, p[m]);
      assert false;
    }
  }

  lemma EntryBelowNothing(g: Graph, d: nat, b: nat)
    requires WellFormed(g) && StrictlyDominates(g, d, b)
    ensures b != 0
  {
    assert PathBetween(g, [0], 0, 0);
  }

  /** A block strictly below z's immediate dominator does not strictly dominate z. */
  lemma NotStrictlyAbove(g: Graph, idom: seq<int>, z: nat, b: nat)
    requires Dominated(g, idom) && 0 < z < |g| && StrictlyDominates(g, idom[z], b)
    ensures !StrictlyDominates(g, b, z)
  {
    if StrictlyDominates(g, b, z) {
      var d: nat := idom[z];
      assert Dominates(g, b, d);
      assert Reachable(g, d);
      var p :| PathBetween(g, p, 0, d);
      DominatesAntisymmetric(g, b, d, p);
    }
  }

  /** The definition that reaches z without a phi is the one that reaches the end of its immediate
      dominator, whichever path was taken. */
  lemma ReachingThroughDominator(g: Graph, idom: seq<int>, stores: set<nat>, phis: set<nat>, z: nat,
          p: seq<nat>) returns (i: nat)
    requires Dominated(g, idom) && CoversFrontiers(g, stores, phis) && 0 < z < |g| && z !in phis
    requires PathBetween(g, p, 0, z) && |p| >= 2
    ensures i < |p| - 1 && p[i] == idom[z] && PathBetween(g, p[..i + 1], 0, idom[z])
    ensures forall k :: i < k < |p| - 1 ==> !Defines(stores, phis, p[k])
  {
    var d: nat := idom[z];
    assert d in p && d != z;
    assert d in p[..|p| - 1] by { assert p == p[..|p| - 1] + [z]; }
    i := LastVisit(p, d);
    assert forall j :: i < j < |p| ==> p[j] != d;
    NoDefinitionBelowDominator(g, idom, stores, phis, z, p, i);
    SlicePath(g, p, 0, i + 1);
    assert p[0..i + 1] == p[..i + 1];
  }

  /** The single definition that reaches the start of z when z holds no phi: follow immediate dominators up
      to the first one that defines the variable. */
  ghost function ReachingDefinition(idom: seq<int>, stores: set<nat>, phis: set<nat>, z: nat): nat
    requires IsTree(idom) && 0 < z < |idom|
    decreases z
  {
    if Defines(stores, phis, idom[z]) then idom[z] else ReachingDefinition(idom, stores, phis, idom[z])
  }

  lemma {:induction false} LastDefinitionCut(stores: set<nat>, phis: set<nat>, p: seq<nat>, i: nat)
    requires |p| >= 2 && p[0] == 0 && i < |p| - 1
    requires forall k :: i < k < |p| - 1 ==> !Defines(stores, phis, p[k])
    ensures Defines(stores, phis, p[i]) ==> LastDefinition(stores, phis, p) == p[i]
    ensures !Defines(stores, phis, p[i]) ==>
            i > 0 && LastDefinition(stores, phis, p) == LastDefinition(stores, phis, p[..i + 1])
    decreases |p|
  {
    var j := LastDefinitionAt(stores, phis, p);
    if !Defines(stores, phis, p[i]) {
      var l := LastDefinitionAt(stores, phis, p[..i + 1]);
      assert j < i && l < i;
      assert j == l;
    }
  }

  /** One definition reaches each point: on every path from the entry to a block without a phi, the last
      definition before that block is the same. */
  lemma {:induction false} OneDefinitionReaches(g: Graph, idom: seq<int>, stores: set<nat>, phis: set<nat>, z: nat,
          p: seq<nat>)
    requires Dominated(g, idom) && CoversFrontiers(g, stores, phis) && 0 < z < |g| && z !in phis
    requires PathBetween(g, p, 0, z) && |p| >= 2
    ensures LastDefinition(stores, phis, p) == ReachingDefinition(idom, stores, phis, z)
    decreases z
  {
    var i := ReachingThroughDominator(g, idom, stores, phis, z, p);
    LastDefinitionCut(stores, phis, p, i);
    var d: nat := idom[z];
    if !Defines(stores, phis, d) {
      OneDefinitionReaches(g, idom, stores, phis, d, p[..i + 1]);
    }
  }

  /** The path-convergence criterion. Two paths from different blocks that assign the variable (or the entry),
      with no block in common before they end in z, meet at a block that holds a phi. */
  lemma PathsConvergeAtPhi(g: Graph, idom: seq<int>, stores: set<nat>, phis: set<nat>, x: nat, y: nat, z: nat,
          p: seq<nat>, q: seq<nat>)
    requires Dominated(g, idom) && CoversFrontiers(g, stores, phis)
    requires (x == 0 || x in stores) && (y == 0 || y in stores)
    requires |p| >= 2 && |q| >= 2 && PathBetween(g, p, x, z) && PathBetween(g, q, y, z)
    requires forall i, j :: 0 <= i < |p| - 1 && 0 <= j < |q| - 1 ==> p[i] != q[j]
    ensures z in phis
  {
    if z !in phis {
      PathVertices(g, p, |p| - 1);
      assert Edge(g, p[|p| - 2], z);
      var b := ReachedFrom(g, idom, stores, phis, x, z, p);
      var b' := ReachedFrom(g, idom, stores, phis, y, z, q);
    }
  }

  /** The definition that reaches z along p, when p starts at a definition, lies on p. */
  lemma ReachedFrom(g: Graph, idom: seq<int>, stores: set<nat>, phis: set<nat>, x: nat, z: nat,
          p: seq<nat>) returns (b: nat)
    requires Dominated(g, idom) && CoversFrontiers(g, stores, phis) && 0 < z < |g| && z !in phis
    requires Defines(stores, phis, x) && |p| >= 2 && PathBetween(g, p, x, z)
    ensures b in p[..|p| - 1] && b == ReachingDefinition(idom, stores, phis, z)
  {
    PathVertices(g, p, 0);
    assert Reachable(g, x);
    var r :| PathBetween(g, r, 0, x);
    GluePaths(g, r, p);
    var t := Glue(r, p);
    OneDefinitionReaches(g, idom, stores, phis, z, t);
    var i := LastDefinitionAt(stores, phis, t);
    b := t[i];
    var m := |r| - 1;
    assert t[m] == x;
    assert i >= m;
    assert forall k :: m <= k < |t| ==> t[k] == p[k - m];
    assert b == p[..|p| - 1][i - m];
  }
}
