/** Paths and dominance in a finite flow graph, and the trees over its blocks.

    A graph is given the way the passes see it: block v carries its list of predecessors. Blocks are
    named by preorder number, so block 0 is the graph entry. */
module Paths {

  type Graph = seq<seq<nat>>

  ghost predicate WellFormed(g: Graph) {
    |g| > 0 && forall v, u :: 0 <= v < |g| && u in g[v] ==> u < |g|
  }

  ghost predicate Edge(g: Graph, u: nat, v: nat) {
    v < |g| && u in g[v]
  }

  ghost predicate IsPath(g: Graph, p: seq<nat>) {
    0 < |p| && p[0] < |g| && forall i :: 0 < i < |p| ==> Edge(g, p[i - 1], p[i])
  }

  ghost predicate PathBetween(g: Graph, p: seq<nat>, u: nat, v: nat) {
    IsPath(g, p) && p[0] == u && p[|p| - 1] == v
  }

  /** d dominates v: every path from the entry to v passes through d. */
  ghost predicate Dominates(g: Graph, d: nat, v: nat) {
    forall p :: PathBetween(g, p, 0, v) ==> d in p
  }

  ghost predicate StrictlyDominates(g: Graph, d: nat, v: nat) {
    d != v && Dominates(g, d, v)
  }

  /** d is the immediate dominator of v: a strict dominator that every other strict dominator dominates. */
  ghost predicate ImmediatelyDominates(g: Graph, d: nat, v: nat) {
    StrictlyDominates(g, d, v) && forall e: nat :: StrictlyDominates(g, e, v) ==> Dominates(g, e, d)
  }

  // ----- path surgery

  lemma PathVertices(g: Graph, p: seq<nat>, i: nat)
    requires IsPath(g, p) && i < |p|
    ensures p[i] < |g|
  {
    if i > 0 {
      assert Edge(g, p[i - 1], p[i]);
    }
  }

  lemma SlicePath(g: Graph, p: seq<nat>, i: nat, j: nat)
    requires IsPath(g, p) && i < j <= |p|
    ensures IsPath(g, p[i..j])
  {
    var q := p[i..j];
    PathVertices(g, p, i);
    forall k | 0 < k < |q|
      ensures Edge(g, q[k - 1], q[k])
    {
      assert Edge(g, p[i + k - 1], p[i + k]);
    }
  }

  /** Two paths glued at a common block. */
  function Glue(p: seq<nat>, q: seq<nat>): seq<nat>
    requires 0 < |p| && 0 < |q|
  {
    p + q[1..]
  }

  lemma GluePaths(g: Graph, p: seq<nat>, q: seq<nat>)
    requires IsPath(g, p) && IsPath(g, q) && p[|p| - 1] == q[0]
    ensures PathBetween(g, Glue(p, q), p[0], q[|q| - 1])
    ensures forall x :: x in Glue(p, q) <==> x in p || x in q
  {
    var r := Glue(p, q);
    forall k | 0 < k < |r|
      ensures Edge(g, r[k - 1], r[k])
    {
      if k < |p| {
        assert r[k] == p[k] && r[k - 1] == p[k - 1];
      } else {
        assert r[k] == q[k - |p| + 1];
        assert r[k - 1] == q[k - |p|];
      }
    }
    assert q == [q[0]] + q[1..];
  }

  // ----- dominance is a partial order on reachable blocks

  ghost predicate Reachable(g: Graph, v: nat) {
    exists p :: PathBetween(g, p, 0, v)
  }

  ghost predicate AllReachable(g: Graph) {
    forall v: nat :: v < |g| ==> Reachable(g, v)
  }

  lemma PrefixUpTo(g: Graph, p: seq<nat>, x: nat) returns (i: nat)
    requires IsPath(g, p) && x in p
    ensures i < |p| && p[i] == x && x !in p[..i]
    ensures PathBetween(g, p[..i + 1], p[0], x)
  {
    i := 0;
    while p[i] != x
      invariant i < |p| && forall k :: 0 <= k < i ==> p[k] != x
      decreases |p| - i
    {
      var j :| 0 <= j < |p| && p[j] == x;
      i := i + 1;
    }
    SlicePath(g, p, 0, i + 1);
    assert p[0..i + 1] == p[..i + 1];
  }

  lemma DominatesTransitive(g: Graph, a: nat, b: nat, c: nat)
    requires Dominates(g, a, b) && Dominates(g, b, c)
    ensures Dominates(g, a, c)
  {
    forall p | PathBetween(g, p, 0, c)
      ensures a in p
    {
      var i := PrefixUpTo(g, p, b);
      assert a in p[..i + 1];
    }
  }

  lemma DominatesReflexive(g: Graph, v: nat)
    ensures Dominates(g, v, v)
  {
    forall p | PathBetween(g, p, 0, v)
      ensures v in p
    {
      assert p[|p| - 1] == v;
    }
  }

  lemma {:induction false} DominatesAntisymmetric(g: Graph, a: nat, b: nat, p: seq<nat>)
    requires PathBetween(g, p, 0, b)
    requires Dominates(g, a, b) && Dominates(g, b, a)
    ensures a == b
  {
    // Cut p at its first visit to b. If a comes earlier, the cut at a would have to contain b.
    var i := PrefixUpTo(g, p, b);
    var j := PrefixUpTo(g, p[..i + 1], a);
    assert b in p[..i + 1][..j + 1];
    assert p[..i + 1][..j + 1] == p[..j + 1];
    assert forall k :: 0 <= k < i ==> p[k] != b by {
      assert forall k :: 0 <= k < i ==> p[k] == p[..i][k];
    }
  }

  /** A dominator of v dominates every predecessor of v, unless it is v itself. */
  lemma DominatorOfPredecessor(g: Graph, d: nat, u: nat, v: nat)
    requires Edge(g, u, v) && StrictlyDominates(g, d, v)
    ensures Dominates(g, d, u)
  {
    forall p | PathBetween(g, p, 0, u)
      ensures d in p
    {
      assert IsPath(g, [u, v]) by { PathVertices(g, p, |p| - 1); }
      GluePaths(g, p, [u, v]);
      assert d in Glue(p, [u, v]);
    }
  }

  // ----- trees given by parent arrays in which parents have smaller numbers

  ghost predicate IsTree(parent: seq<int>) {
    |parent| > 0 && parent[0] == -1 && forall v :: 0 < v < |parent| ==> 0 <= parent[v] < v
  }

  ghost predicate Ancestor(parent: seq<int>, a: int, v: int)
    requires IsTree(parent) && 0 <= v < |parent|
    decreases v
  {
    a == v || (v > 0 && Ancestor(parent, a, parent[v]))
  }

  lemma {:induction false} AncestorBounds(parent: seq<int>, a: int, v: int)
    requires IsTree(parent) && 0 <= v < |parent|
    requires Ancestor(parent, a, v)
    ensures 0 <= a <= v
    decreases v
  {
    if a != v {
      AncestorBounds(parent, a, parent[v]);
    }
  }

  lemma {:induction false} AncestorTransitive(parent: seq<int>, a: int, b: int, c: int)
    requires IsTree(parent) && 0 <= b < |parent| && 0 <= c < |parent|
    requires Ancestor(parent, a, b) && Ancestor(parent, b, c)
    ensures Ancestor(parent, a, c)
    decreases c
  {
    if b != c {
      AncestorTransitive(parent, a, b, parent[c]);
    }
  }

  lemma {:induction false} AncestorsLinear(parent: seq<int>, a: int, b: int, c: int)
    requires IsTree(parent) && 0 <= c < |parent|
    requires Ancestor(parent, a, c) && Ancestor(parent, b, c) && a <= b
    ensures 0 <= b < |parent| && Ancestor(parent, a, b)
    decreases c
  {
    AncestorBounds(parent, b, c);
    AncestorBounds(parent, a, c);
    if b != c {
      AncestorsLinear(parent, a, b, parent[c]);
    }
  }

  lemma {:induction false} RootIsAncestor(parent: seq<int>, v: int)
    requires IsTree(parent) && 0 <= v < |parent|
    ensures Ancestor(parent, 0, v)
    decreases v
  {
    if v > 0 {
      RootIsAncestor(parent, parent[v]);
    }
  }
}
