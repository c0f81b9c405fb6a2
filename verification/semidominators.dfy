/** The theory behind the dominator computation: depth-first numberings, semidominators, and why climbing
    the dominator chain of the spanning-tree parent down to the semidominator finds the immediate
    dominator. */
module Semidominators {
  import opened Paths

  /** What block discovery establishes about its numbering (Discovery.Discover proves it of the
      numbering it computes): parent is a spanning tree of g, every block attaches to the branch that
      ends in the previously numbered block, and an edge to a higher number goes to a descendant. */
  ghost predicate DepthFirst(g: Graph, parent: seq<int>) {
    && WellFormed(g)
    && |parent| == |g|
    && IsTree(parent)
    && (forall v :: 0 < v < |g| ==> Edge(g, parent[v], v))
    && (forall v :: 0 < v < |g| ==> Ancestor(parent, parent[v], v - 1))
    && (forall u: nat, v: nat :: Edge(g, u, v) && u < v ==> Ancestor(parent, u, v))
  }

  // ----- depth-first numberings

  /** A subtree is an interval that starts at its root. */
  lemma {:induction false} SubtreeIsInterval(g: Graph, parent: seq<int>, a: nat, w: nat, v: nat)
    requires DepthFirst(g, parent) && v < |g|
    requires a <= w <= v && Ancestor(parent, a, v)
    ensures Ancestor(parent, a, w)
    decreases v
  {
    if a != v && w != v {
      AncestorTransitive(parent, a, parent[v], v - 1);
      SubtreeIsInterval(g, parent, a, w, v - 1);
    }
  }

  /** A path that never goes below its first block stays inside that block's subtree. */
  lemma {:induction false} PathAboveStartsAtAncestor(g: Graph, parent: seq<int>, p: seq<nat>)
    requires DepthFirst(g, parent) && IsPath(g, p)
    requires forall i :: 0 <= i < |p| ==> p[0] <= p[i]
    ensures p[|p| - 1] < |g| && Ancestor(parent, p[0], p[|p| - 1])
  {
    if |p| > 1 {
      var q := p[..|p| - 1];
      SlicePath(g, p, 0, |p| - 1);
      assert p[0..|p| - 1] == q;
      PathAboveStartsAtAncestor(g, parent, q);
      var y, z := p[|p| - 2], p[|p| - 1];
      assert Edge(g, y, z);
      if y < z {
        AncestorTransitive(parent, p[0], y, z);
      } else {
        SubtreeIsInterval(g, parent, p[0], z, y);
      }
    }
  }

  /** The tree path from an ancestor down to a descendant; all its blocks lie between the two. */
  lemma {:induction false} TreePath(g: Graph, parent: seq<int>, a: nat, v: nat) returns (p: seq<nat>)
    requires DepthFirst(g, parent) && v < |g| && Ancestor(parent, a, v)
    ensures PathBetween(g, p, a, v)
    ensures forall x :: x in p ==> a <= x <= v && x < |g| && Ancestor(parent, a, x) && Ancestor(parent, x, v)
    decreases v
  {
    if a == v {
      p := [v];
    } else {
      AncestorBounds(parent, a, v);
      var q := TreePath(g, parent, a, parent[v]);
      p := q + [v];
      assert Edge(g, parent[v], v);
    }
  }

  lemma DominatorIsAncestor(g: Graph, parent: seq<int>, d: nat, v: nat)
    requires DepthFirst(g, parent) && v < |g| && Dominates(g, d, v)
    ensures Ancestor(parent, d, v)
  {
    RootIsAncestor(parent, v);
    var p := TreePath(g, parent, 0, v);
  }

  // ----- semidominators

  /** A path from x to w whose inner blocks all have numbers above w. */
  ghost predicate SemiPath(g: Graph, p: seq<nat>, x: nat, w: nat) {
    |p| >= 2 && PathBetween(g, p, x, w) && forall i :: 0 < i < |p| - 1 ==> w < p[i]
  }

  ghost predicate SemiPathFrom(g: Graph, x: nat, w: nat) {
    exists p :: SemiPath(g, p, x, w)
  }

  /** s is the semidominator of w: the least start of such a path. */
  ghost predicate IsSemidominator(g: Graph, s: nat, w: nat) {
    SemiPathFrom(g, s, w) && forall x: nat :: SemiPathFrom(g, x, w) ==> s <= x
  }

  lemma EdgeIsSemiPath(g: Graph, u: nat, v: nat)
    requires WellFormed(g) && Edge(g, u, v)
    ensures SemiPathFrom(g, u, v)
  {
    assert SemiPath(g, [u, v], u, v);
  }

  lemma SemidominatorAtMostParent(g: Graph, parent: seq<int>, s: nat, w: nat)
    requires DepthFirst(g, parent) && 0 < w < |g| && IsSemidominator(g, s, w)
    ensures s <= parent[w] < w
  {
    EdgeIsSemiPath(g, parent[w], w);
  }

  // ----- strict dominators of w are exactly the dominators of its parent at or above its semidominator

  lemma DominatorNotBelowSemidominator(g: Graph, parent: seq<int>, s: nat, d: nat, w: nat)
    requires DepthFirst(g, parent) && 0 < w < |g| && IsSemidominator(g, s, w)
    requires StrictlyDominates(g, d, w)
    ensures d <= s
  {
    SemidominatorAtMostParent(g, parent, s, w);
    DominatorIsAncestor(g, parent, d, w);
    AncestorBounds(parent, d, w);
    RootIsAncestor(parent, s);
    var q := TreePath(g, parent, 0, s);
    var p :| SemiPath(g, p, s, w);
    GluePaths(g, q, p);
    assert d in Glue(q, p);
    assert s in q by { assert q[|q| - 1] == s; }
    assert forall i :: 0 <= i < |p| ==> p[i] == s || p[i] == w || w < p[i];
  }

  /** The last block of p before position n that is numbered below d. */
  lemma LastBelow(p: seq<nat>, d: nat) returns (i: nat)
    requires |p| > 0 && p[0] < d
    ensures i < |p| && p[i] < d && forall k :: i < k < |p| ==> d <= p[k]
  {
    i := |p| - 1;
    while d <= p[i]
      invariant 0 <= i < |p| && forall k :: i < k < |p| ==> d <= p[k]
      decreases i
    {
      i := i - 1;
    }
  }

  /** The first block of p on the spanning-tree path from d (exclusive) down to w. */
  lemma FirstOnTreePath(g: Graph, parent: seq<int>, p: seq<nat>, d: nat, w: nat, from: nat) returns (i: nat)
    requires DepthFirst(g, parent) && w < |g| && IsPath(g, p)
    requires from < |p| && p[|p| - 1] == w && d < w && Ancestor(parent, d, w)
    requires forall k :: from <= k < |p| ==> d < p[k]
    ensures from <= i < |p| && Ancestor(parent, p[i], w)
    ensures forall k :: from <= k < i ==> p[k] < |g| && !Ancestor(parent, p[k], w)
  {
    forall k | 0 <= k < |p| ensures p[k] < |g| { PathVertices(g, p, k); }
    i := from;
    while !Ancestor(parent, p[i], w)
      invariant from <= i < |p|
      invariant forall k :: from <= k < i ==> p[k] < |g| && !Ancestor(parent, p[k], w)
      decreases |p| - i
    {
      i := i + 1;
    }
  }

  /** If q runs from z to y above d, avoids the tree path from d to w except at its end y, then nothing on
      q is numbered below y. */
  lemma {:induction false} ArrivesFromAbove(g: Graph, parent: seq<int>, q: seq<nat>, w: nat)
    requires DepthFirst(g, parent) && w < |g| && IsPath(g, q)
    requires q[|q| - 1] < |g| && Ancestor(parent, q[|q| - 1], w)
    requires forall k :: 0 <= k < |q| - 1 ==> q[k] < |g| && !Ancestor(parent, q[k], w)
    ensures forall k :: 0 <= k < |q| - 1 ==> q[|q| - 1] < q[k]
  {
    var y := q[|q| - 1];
    forall k | 0 <= k < |q| - 1
      ensures y < q[k]
    {
      // A lowest block from position k on is an ancestor of y, hence of w, so it is y itself.
      var m := Lowest(q, k);
      SlicePath(g, q, m, |q|);
      PathAboveStartsAtAncestor(g, parent, q[m..]);
      assert q[m..][|q| - m - 1] == y;
      AncestorTransitive(parent, q[m], y, w);
      assert m == |q| - 1;
    }
  }

  /** The position of a lowest block of q at or after k. */
  lemma Lowest(q: seq<nat>, k: nat) returns (m: nat)
    requires k < |q|
    ensures k <= m < |q| && forall i :: k <= i < |q| ==> q[m] <= q[i]
  {
    m := k;
    var i := k + 1;
    while i < |q|
      invariant k <= m < |q| && k < i <= |q|
      invariant forall j :: k <= j < i ==> q[m] <= q[j]
    {
      if q[i] < q[m] { m := i; }
      i := i + 1;
    }
  }

  /** A dominator of the parent that is numbered at most the semidominator dominates w as well. */
  lemma ParentDominatorAboveSemidominator(g: Graph, parent: seq<int>, s: nat, d: nat, w: nat)
    requires DepthFirst(g, parent) && 0 < w < |g| && IsSemidominator(g, s, w)
    requires Dominates(g, d, parent[w]) && d <= s
    ensures StrictlyDominates(g, d, w)
  {
    SemidominatorAtMostParent(g, parent, s, w);
    DominatorIsAncestor(g, parent, d, parent[w]);
    assert Ancestor(parent, d, w);
    forall p | PathBetween(g, p, 0, w)
      ensures d in p
    {
      if d !in p {
        var r, y := CrossingPiece(g, parent, d, w, p);
        if y == w {
          assert SemiPathFrom(g, r[0], w);
        } else {
          AncestorBounds(parent, y, w);
          CrossingAvoids(g, parent, d, w, r, y);
        }
      }
    }
  }

  /** A path to w that avoids its ancestor d crosses from below d onto the tree path below d, and the
      crossing piece is a semidominator path. */
  lemma CrossingPiece(g: Graph, parent: seq<int>, d: nat, w: nat, p: seq<nat>) returns (r: seq<nat>, y: nat)
    requires DepthFirst(g, parent) && d < w < |g| && Ancestor(parent, d, w)
    requires PathBetween(g, p, 0, w) && d !in p
    ensures d < y < |g| && Ancestor(parent, y, w)
    ensures |r| >= 2 && r[0] < d && d !in r && SemiPath(g, r, r[0], y)
  {
    assert forall k :: 0 <= k < |p| ==> p[k] in p;
    var i := LastBelow(p, d);
    var j := FirstOnTreePath(g, parent, p, d, w, i + 1);
    y := p[j];
    r := p[i..j + 1];
    PathVertices(g, p, j);
    PieceIsSemiPath(g, parent, p, i, j, w);
  }

  lemma PieceIsSemiPath(g: Graph, parent: seq<int>, p: seq<nat>, i: nat, j: nat, w: nat)
    requires DepthFirst(g, parent) && w < |g| && IsPath(g, p)
    requires i < j < |p| && p[j] < |g| && Ancestor(parent, p[j], w)
    requires forall k :: i < k < j ==> p[k] < |g| && !Ancestor(parent, p[k], w)
    ensures SemiPath(g, p[i..j + 1], p[i], p[j])
  {
    SlicePath(g, p, i, j + 1);
    SlicePath(g, p, i + 1, j + 1);
    var q, r := p[i + 1..j + 1], p[i..j + 1];
    assert forall k :: 0 <= k < |q| ==> q[k] == p[i + 1 + k];
    ArrivesFromAbove(g, parent, q, w);
    assert forall k :: 0 < k < |r| - 1 ==> r[k] == q[k - 1];
  }

  /** If the piece ends strictly above w, the tree carries on to parent[w] without meeting d. */
  lemma CrossingAvoids(g: Graph, parent: seq<int>, d: nat, w: nat, r: seq<nat>, y: nat)
    requires DepthFirst(g, parent) && 0 < w < |g|
    requires d < y < w && Ancestor(parent, y, w)
    requires |r| >= 2 && r[0] < d && d !in r && PathBetween(g, r, r[0], y)
    ensures !Dominates(g, d, parent[w])
  {
    RootIsAncestor(parent, r[0]);
    var t := TreePath(g, parent, 0, r[0]);
    var u := TreePath(g, parent, y, parent[w]);
    GluePaths(g, t, r);
    GluePaths(g, Glue(t, r), u);
    assert d !in Glue(Glue(t, r), u);
  }

  /** The characterisation that the climb in compute_dominators rests on. */
  lemma StrictDominatorsCharacterised(g: Graph, parent: seq<int>, s: nat, d: nat, w: nat)
    requires DepthFirst(g, parent) && 0 < w < |g| && IsSemidominator(g, s, w)
    ensures StrictlyDominates(g, d, w) <==> Dominates(g, d, parent[w]) && d <= s
  {
    if StrictlyDominates(g, d, w) {
      DominatorNotBelowSemidominator(g, parent, s, d, w);
      DominatorOfPredecessor(g, d, parent[w], w);
    }
    if Dominates(g, d, parent[w]) && d <= s {
      ParentDominatorAboveSemidominator(g, parent, s, d, w);
    }
  }
}
