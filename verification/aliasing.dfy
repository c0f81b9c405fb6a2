/** compute_dominators as written. The label cell of a finished block is the cell of its semidominator, so that
    compression goes on lowering finished semidominators; and what a predecessor offers is read from its
    semidominator cell, which for a finished block is the label after all. One array then stands for both. */
module Aliasing {
  import opened Paths
  import opened Semidominators
  import opened Dominators

  // ----- the shared cells, as a function

  function Compress(start: nat, current: nat, parent: seq<int>, cells: seq<int>): (r: (seq<int>, seq<int>))
    requires IsTree(parent) && |cells| == |parent| && start < current < |parent|
    ensures IsTree(r.0) && |r.0| == |r.1| == |parent|
    decreases current
  {
    var next := parent[current];
    if next > start then
      var (p, c) := Compress(start, next, parent, cells);
      (p[current := p[next]], c[current := Min(c[current], c[next])])
    else (parent, cells)
  }

  /** The least offer of b's predecessors from the i-th on. */
  function Offers(g: Graph, b: nat, i: nat, s: int, parent: seq<int>, cells: seq<int>): (r: (int, seq<int>, seq<int>))
    requires WellFormed(g) && b < |g| == |parent| == |cells| && i <= |g[b]| && IsTree(parent)
    ensures IsTree(r.1) && |r.1| == |r.2| == |parent|
    decreases |g[b]| - i
  {
    if i == |g[b]| then (s, parent, cells)
    else
      var pred := g[b][i];
      assert pred in g[b];
      if pred > b then
        var (p, c) := Compress(b, pred, parent, cells);
        Offers(g, b, i + 1, Min(s, c[pred]), p, c)
      else Offers(g, b, i + 1, Min(s, cells[pred]), parent, cells)
  }

  /** Links and cells when blocks b down to 1 have been finished. */
  function Finish(g: Graph, b: nat, parent: seq<int>, cells: seq<int>): (r: (seq<int>, seq<int>))
    requires WellFormed(g) && b < |g| == |parent| == |cells| && IsTree(parent)
    ensures |r.0| == |r.1| == |g| && IsTree(r.0)
    decreases b
  {
    if b == 0 then (parent, cells)
    else
      var (s, p, c) := Offers(g, b, 0, b, parent, cells);
      Finish(g, b - 1, p, c[b := s])
  }

  function Identity(n: nat): (r: seq<int>)
    ensures |r| == n && forall i :: 0 <= i < n ==> r[i] == i
  {
    seq(n, i requires 0 <= i < n => i)
  }

  function FinalCells(g: Graph, parent: seq<int>): (r: seq<int>)
    requires WellFormed(g) && |g| == |parent| && IsTree(parent)
    ensures |r| == |g|
  {
    Finish(g, |g| - 1, parent, Identity(|g|)).1
  }

  // ----- the links alone

  /** compress_path without the labels. */
  function Shorten(start: nat, current: nat, parent: seq<int>): (r: seq<int>)
    requires IsTree(parent) && start < current < |parent|
    ensures IsTree(r) && |r| == |parent|
    decreases current
  {
    var next := parent[current];
    if next > start then
      var p := Shorten(start, next, parent);
      p[current := p[next]]
    else parent
  }

  /** The links after compressing from the predecessors of b above it, from the i-th on. */
  function ShortenAll(g: Graph, b: nat, i: nat, parent: seq<int>): (r: seq<int>)
    requires WellFormed(g) && b < |g| == |parent| && i <= |g[b]| && IsTree(parent)
    ensures IsTree(r) && |r| == |parent|
    decreases |g[b]| - i
  {
    if i == |g[b]| then parent
    else
      var pred := g[b][i];
      assert pred in g[b];
      ShortenAll(g, b, i + 1, if pred > b then Shorten(b, pred, parent) else parent)
  }

  /** The links when blocks b down to 1 have been finished. They depend on the edges and the spanning tree, and
      on nothing the pass computes. */
  function Links(g: Graph, b: nat, parent: seq<int>): (r: seq<int>)
    requires WellFormed(g) && b < |g| == |parent| && IsTree(parent)
    ensures IsTree(r) && |r| == |parent|
  {
    if b == 0 then parent else Links(g, b - 1, ShortenAll(g, b, 0, parent))
  }

  function FinalLinks(g: Graph, parent: seq<int>): (r: seq<int>)
    requires WellFormed(g) && |g| == |parent| && IsTree(parent)
    ensures IsTree(r) && |r| == |g|
  {
    Links(g, |g| - 1, parent)
  }

  lemma {:induction false} CompressShortens(start: nat, current: nat, parent: seq<int>, cells: seq<int>)
    requires IsTree(parent) && |cells| == |parent| && start < current < |parent|
    ensures Compress(start, current, parent, cells).0 == Shorten(start, current, parent)
    decreases current
  {
    if parent[current] > start {
      CompressShortens(start, parent[current], parent, cells);
    }
  }

  lemma {:induction false} OffersShorten(g: Graph, b: nat, i: nat, s: int, parent: seq<int>, cells: seq<int>)
    requires WellFormed(g) && b < |g| == |parent| == |cells| && i <= |g[b]| && IsTree(parent)
    ensures Offers(g, b, i, s, parent, cells).1 == ShortenAll(g, b, i, parent)
    decreases |g[b]| - i
  {
    if i < |g[b]| {
      var pred := g[b][i];
      assert pred in g[b];
      if pred > b {
        CompressShortens(b, pred, parent, cells);
        var (p, c) := Compress(b, pred, parent, cells);
        OffersShorten(g, b, i + 1, Min(s, c[pred]), p, c);
      } else {
        OffersShorten(g, b, i + 1, Min(s, cells[pred]), parent, cells);
      }
    }
  }

  lemma {:induction false} FinishLinks(g: Graph, b: nat, parent: seq<int>, cells: seq<int>)
    requires WellFormed(g) && b < |g| == |parent| == |cells| && IsTree(parent)
    ensures Finish(g, b, parent, cells).0 == Links(g, b, parent)
    decreases b
  {
    if b > 0 {
      OffersShorten(g, b, 0, b, parent, cells);
      var (s, p, c) := Offers(g, b, 0, b, parent, cells);
      FinishLinks(g, b - 1, p, c[b := s]);
    }
  }

  // ----- what the cells hold

  lemma {:induction false} CompressKeeps(tree: seq<int>, semi: seq<int>, start: nat, current: nat, parent: seq<int>,
          cells: seq<int>)
    requires Compressed(tree, semi, parent, cells, start) && start < current < |tree|
    ensures var (p, c) := Compress(start, current, parent, cells);
            && Compressed(tree, semi, p, c, start)
            && p[current] <= start && c[current] == LeastAbove(tree, semi, start, current)
            && (forall v :: 0 <= v <= start ==> c[v] == cells[v])
            && (forall v :: current < v < |tree| ==> p[v] == parent[v] && c[v] == cells[v])
    decreases current
  {
    var next := parent[current];
    if next > start {
      CompressKeeps(tree, semi, start, next, parent, cells);
      var (p, c) := Compress(start, next, parent, cells);
      ShortenedLink(tree, semi, p, c, start, current);
    }
    var (p, c) := Compress(start, current, parent, cells);
    AnswerIsLeastAbove(tree, semi, p, c, start, current);
  }

  lemma {:induction false} OffersKeep(g: Graph, tree: seq<int>, semi: seq<int>, b: nat, i: nat, s: int,
          parent: seq<int>, cells: seq<int>)
    requires DepthFirst(g, tree) && 1 <= b < |g| && i <= |g[b]| && FinishedAbove(g, semi, b)
    requires Compressed(tree, semi, parent, cells, b) && forall v :: 0 <= v <= b ==> cells[v] == v
    requires 0 <= s <= b && (s == b || SemiPathFrom(g, s, b)) && OffersMet(g, tree, semi, b, i, s)
    ensures var (r, p, c) := Offers(g, b, i, s, parent, cells);
            && Compressed(tree, semi, p, c, b) && (forall v :: 0 <= v <= b ==> c[v] == v)
            && 0 <= r <= b && (r == b || SemiPathFrom(g, r, b)) && OffersMet(g, tree, semi, b, |g[b]|, r)
    decreases |g[b]| - i
  {
    if i < |g[b]| {
      var pred := g[b][i];
      assert Edge(g, pred, b);
      if pred > b {
        CompressKeeps(tree, semi, b, pred, parent, cells);
        var (p, c) := Compress(b, pred, parent, cells);
        CompressedOffer(g, tree, semi, b, pred);
        OfferAtMostBlock(g, tree, semi, b, pred);
        OneMoreOffer(g, tree, semi, b, i, s, c[pred], Min(s, c[pred]));
        OffersKeep(g, tree, semi, b, i + 1, Min(s, c[pred]), p, c);
      } else {
        EdgeIsSemiPath(g, pred, b);
        NoAncestorAbove(tree, b, pred);
        OneMoreOffer(g, tree, semi, b, i, s, pred, Min(s, pred));
        OffersKeep(g, tree, semi, b, i + 1, Min(s, pred), parent, cells);
      }
    }
  }

  /** In the end each cell holds the least semidominator of the blocks that its block's link jumps over. */
  lemma {:induction false} FinishKeeps(g: Graph, tree: seq<int>, semi: seq<int>, b: nat, parent: seq<int>,
          cells: seq<int>) returns (semi': seq<int>, parent': seq<int>, cells': seq<int>)
    requires DepthFirst(g, tree) && b < |g| && FinishedAbove(g, semi, b)
    requires Compressed(tree, semi, parent, cells, b)
    requires forall v :: 0 <= v <= b ==> semi[v] == v && cells[v] == v
    ensures (parent', cells') == Finish(g, b, parent, cells)
    ensures FinishedAbove(g, semi', 0) && Compressed(tree, semi', parent', cells', 0)
    decreases b
  {
    if b == 0 {
      semi', parent', cells' := semi, parent, cells;
    } else {
      assert Edge(g, tree[b], b);
      OffersKeep(g, tree, semi, b, 0, b, parent, cells);
      var (s, p, c) := Offers(g, b, 0, b, parent, cells);
      RecurrenceIsSemidominator(g, tree, semi, b, s);
      LinkBlock(tree, semi, p, c, b, s);
      semi', parent', cells' := FinishKeeps(g, tree, semi[b := s], b - 1, p, c[b := s]);
    }
  }

  lemma CellsBounded(g: Graph, tree: seq<int>, semi: seq<int>, parent: seq<int>, cells: seq<int>)
    requires |tree| == |g| && FinishedAbove(g, semi, 0) && Compressed(tree, semi, parent, cells, 0)
    ensures forall v :: 0 < v < |g| ==> 0 <= cells[v] <= semi[v]
  {
    forall v | 0 < v < |g| ensures 0 <= cells[v] <= semi[v] {
      LeastAboveBounds(tree, semi, parent[v], v, v);
      var u := LeastAboveAttained(tree, semi, parent[v], v);
    }
  }

  // ----- the climb

  function Climb(idom: seq<int>, cell: int, dom: int): (r: int)
    requires IsTree(idom) && 0 <= dom < |idom| && 0 <= cell
    ensures 0 <= r <= dom && r <= cell
    decreases dom
  {
    if dom > cell then Climb(idom, cell, idom[dom]) else dom
  }

  /** The dominator array when the blocks below n have climbed. */
  function Climbed(tree: seq<int>, cells: seq<int>, n: nat): (r: seq<int>)
    requires IsTree(tree) && n <= |tree| == |cells| && forall v :: 0 < v < |tree| ==> 0 <= cells[v]
    ensures |r| == |tree| && IsTree(r) && forall v :: n <= v < |tree| ==> r[v] == tree[v]
    decreases n
  {
    if n <= 1 then tree
    else
      var r := Climbed(tree, cells, n - 1);
      r[n - 1 := Climb(r, cells[n - 1], r[n - 1])]
  }

  /** Climbing from the tree parent stops at the lowest of its dominators that is not above the cell. */
  lemma {:induction false} ClimbStops(g: Graph, tree: seq<int>, idom: seq<int>, b: nat, cell: int, dom: int)
    requires DepthFirst(g, tree) && 0 < b < |g| == |idom| && IsTree(idom) && 0 <= cell
    requires 0 <= dom < b && Dominates(g, dom, tree[b])
    requires forall v :: 0 < v < b ==> ImmediatelyDominates(g, idom[v], v)
    requires forall d: nat :: Dominates(g, d, tree[b]) && d <= cell ==> Dominates(g, d, dom)
    ensures var r := Climb(idom, cell, dom);
            Dominates(g, r, tree[b]) && forall d: nat :: Dominates(g, d, tree[b]) && d <= cell ==> Dominates(g, d, r)
    decreases dom
  {
    if dom > cell {
      DominatesTransitive(g, idom[dom], dom, tree[b]);
      ClimbStops(g, tree, idom, b, cell, idom[dom]);
    }
  }

  /** A block climbs to its immediate dominator exactly if that is not above its cell. */
  lemma ClimbIsRight(g: Graph, tree: seq<int>, idom: seq<int>, semi: seq<int>, b: nat, cell: int)
    requires DepthFirst(g, tree) && AllReachable(g) && 0 < b < |g| == |idom| && IsTree(idom)
    requires FinishedAbove(g, semi, 0) && 0 <= cell <= semi[b]
    requires forall v :: 0 < v < b ==> ImmediatelyDominates(g, idom[v], v)
    ensures ImmediatelyDominates(g, Climb(idom, cell, tree[b]), b) <==> NotAbove(g, b, cell)
  {
    DominatesReflexive(g, tree[b]);
    ClimbStops(g, tree, idom, b, cell, tree[b]);
    ClimbStops(g, tree, idom, b, semi[b], tree[b]);
    var s, x, d := semi[b], Climb(idom, cell, tree[b]), Climb(idom, semi[b], tree[b]);
    assert IsSemidominator(g, s, b);
    forall e: nat ensures StrictlyDominates(g, e, b) <==> Dominates(g, e, tree[b]) && e <= s {
      StrictDominatorsCharacterised(g, tree, s, e, b);
    }
    assert ImmediatelyDominates(g, d, b);
    assert Reachable(g, b);
    if d <= cell {
      assert Dominates(g, d, x) && Dominates(g, x, d);
      var p :| PathBetween(g, p, 0, b);
      assert d in p;
      var i := PrefixUpTo(g, p, d);
      DominatesAntisymmetric(g, x, d, p[..i + 1]);
      forall e: nat | ImmediatelyDominates(g, e, b) ensures e <= cell {
        ImmediateDominatorUnique(g, d, e, b);
      }
    } else if ImmediatelyDominates(g, x, b) {
      ImmediateDominatorUnique(g, d, x, b);
      assert false;
    }
  }

  /** The immediate dominator of b is not above the cell. */
  ghost predicate NotAbove(g: Graph, b: nat, cell: int) {
    forall d: nat :: ImmediatelyDominates(g, d, b) ==> d <= cell
  }

  ghost predicate RightUpTo(g: Graph, idom: seq<int>, n: nat)
    requires IsTree(idom) && n <= |idom|
  {
    forall v :: 0 < v < n ==> ImmediatelyDominates(g, idom[v], v)
  }

  ghost predicate NotAboveUpTo(g: Graph, cells: seq<int>, n: nat)
    requires n <= |cells|
  {
    forall v :: 0 < v < n ==> NotAbove(g, v, cells[v])
  }

  lemma {:induction false} ClimbedUpTo(g: Graph, tree: seq<int>, semi: seq<int>, cells: seq<int>, n: nat)
    requires DepthFirst(g, tree) && AllReachable(g) && n <= |g| == |cells|
    requires FinishedAbove(g, semi, 0) && forall v :: 0 < v < |g| ==> 0 <= cells[v] <= semi[v]
    ensures RightUpTo(g, Climbed(tree, cells, n), n) <==> NotAboveUpTo(g, cells, n)
    decreases n
  {
    if n > 1 {
      var b := n - 1;
      ClimbedUpTo(g, tree, semi, cells, b);
      var before, after := Climbed(tree, cells, b), Climbed(tree, cells, n);
      assert after[b] == Climb(before, cells[b], tree[b]);
      assert forall v :: 0 < v < b ==> after[v] == before[v];
      assert RightUpTo(g, after, n) <==> RightUpTo(g, before, b) && ImmediatelyDominates(g, after[b], b);
      assert NotAboveUpTo(g, cells, n) <==> NotAboveUpTo(g, cells, b) && NotAbove(g, b, cells[b]);
      if RightUpTo(g, before, b) {
        ClimbIsRight(g, tree, before, semi, b, cells[b]);
      }
    }
  }

  /** A dominator of v dominates every block below it on the tree path to v. */
  lemma DominatorPassesDown(g: Graph, tree: seq<int>, d: nat, u: nat, v: nat)
    requires DepthFirst(g, tree) && u < |g| && v < |g| && Dominates(g, d, v) && Ancestor(tree, u, v) && d < u
    ensures StrictlyDominates(g, d, u)
  {
    var t := TreePath(g, tree, u, v);
    forall p | PathBetween(g, p, 0, u) ensures d in p {
      GluePaths(g, p, t);
      assert d in Glue(p, t);
    }
  }

  /** The cell of v is lowered past its immediate dominator exactly if the link of v jumps over it: then the cell
      has taken the dominator's own semidominator, and otherwise only those of blocks it dominates. */
  lemma CellOrLink(g: Graph, tree: seq<int>, semi: seq<int>, links: seq<int>, cells: seq<int>, v: nat)
    requires DepthFirst(g, tree) && FinishedAbove(g, semi, 0) && Compressed(tree, semi, links, cells, 0)
    requires 0 < v < |g|
    ensures NotAbove(g, v, cells[v]) <==> NotAbove(g, v, links[v])
  {
    forall d: nat | ImmediatelyDominates(g, d, v) ensures d <= cells[v] <==> d <= links[v] {
      DominatorIsAncestor(g, tree, d, v);
      AncestorBounds(tree, d, v);
      if d <= links[v] {
        var u := LeastAboveAttained(tree, semi, links[v], v);
        DominatorPassesDown(g, tree, d, u, v);
        DominatorNotBelowSemidominator(g, tree, semi[u], d, u);
      } else {
        LeastAboveBounds(tree, semi, links[v], v, d);
        SemidominatorAtMostParent(g, tree, semi[d], d);
      }
    }
  }

  lemma FinishIsFinal(g: Graph, tree: seq<int>, identity: seq<int>)
    requires WellFormed(g) && |tree| == |g| && IsTree(tree) && identity == Identity(|g|)
    ensures Finish(g, |g| - 1, tree, identity) == (FinalLinks(g, tree), FinalCells(g, tree))
  {
    FinishLinks(g, |g| - 1, tree, identity);
  }

  lemma FinalForest(g: Graph, tree: seq<int>, identity: seq<int>)
    returns (semi: seq<int>, links: seq<int>, cells: seq<int>)
    requires DepthFirst(g, tree) && identity == Identity(|g|)
    ensures (links, cells) == Finish(g, |g| - 1, tree, identity)
    ensures FinishedAbove(g, semi, 0) && Compressed(tree, semi, links, cells, 0)
  {
    InitiallyCompressed(tree, identity);
    semi, links, cells := FinishKeeps(g, tree, identity, |g| - 1, tree, identity);
  }

  lemma InitiallyCompressed(tree: seq<int>, identity: seq<int>)
    requires IsTree(tree) && |identity| == |tree| && forall i :: 0 <= i < |identity| ==> identity[i] == i
    ensures Compressed(tree, identity, tree, identity, |tree| - 1)
  {
  }

  /** As written, the result is the dominator tree if and only if no block's link, which path compression alone
      decides, jumps over the block's immediate dominator. */
  lemma DominatorsAsWritten(g: Graph, tree: seq<int>)
    requires DepthFirst(g, tree) && AllReachable(g)
    ensures forall v :: 0 < v < |g| ==> 0 <= FinalCells(g, tree)[v]
    ensures IsDominatorTree(g, Climbed(tree, FinalCells(g, tree), |g|)) <==>
            NotAboveUpTo(g, FinalLinks(g, tree), |g|)
  {
    var semi, links, cells := FinalForest(g, tree, Identity(|g|));
    FinishIsFinal(g, tree, Identity(|g|));
    CellsBounded(g, tree, semi, links, cells);
    ClimbedUpTo(g, tree, semi, cells, |g|);
    forall v: nat | 0 < v < |g| ensures NotAbove(g, v, cells[v]) <==> NotAbove(g, v, links[v]) {
      CellOrLink(g, tree, semi, links, cells, v);
    }
  }

  // ----- conditions on the graph

  lemma {:induction false} ShortenLowers(start: nat, current: nat, parent: seq<int>)
    requires IsTree(parent) && start < current < |parent|
    ensures var r := Shorten(start, current, parent);
            r[current] <= start && forall v :: 0 <= v < |parent| ==> r[v] <= parent[v]
    decreases current
  {
    if parent[current] > start {
      ShortenLowers(start, parent[current], parent);
    }
  }

  lemma {:induction false} ShortenAllLowers(g: Graph, b: nat, i: nat, parent: seq<int>)
    requires WellFormed(g) && b < |g| == |parent| && i <= |g[b]| && IsTree(parent)
    ensures forall v :: 0 <= v < |g| ==> ShortenAll(g, b, i, parent)[v] <= parent[v]
    ensures forall k :: i <= k < |g[b]| && b < g[b][k] < |g| ==> ShortenAll(g, b, i, parent)[g[b][k]] <= b
    decreases |g[b]| - i
  {
    if i < |g[b]| {
      var pred := g[b][i];
      assert pred in g[b];
      if pred > b {
        ShortenLowers(b, pred, parent);
      }
      ShortenAllLowers(g, b, i + 1, if pred > b then Shorten(b, pred, parent) else parent);
    }
  }

  /** After an edge from u back to b, the link of u goes no higher than b. */
  lemma {:induction false} LinksLower(g: Graph, b: nat, parent: seq<int>)
    requires WellFormed(g) && b < |g| == |parent| && IsTree(parent)
    ensures forall v :: 0 <= v < |g| ==> Links(g, b, parent)[v] <= parent[v]
    ensures forall c: nat, u: nat :: 1 <= c <= b && c < u < |g| && Edge(g, u, c) ==> Links(g, b, parent)[u] <= c
    decreases b
  {
    if b > 0 {
      ShortenAllLowers(g, b, 0, parent);
      LinksLower(g, b - 1, ShortenAll(g, b, 0, parent));
    }
  }

  /** Some block has an edge back past one of its strict dominators, to a block other than the entry. */
  ghost predicate EdgePastDominator(g: Graph) {
    exists b: nat, u: nat, d: nat :: 1 <= b < u < |g| && Edge(g, u, b) && StrictlyDominates(g, d, u) && b < d
  }

  /** In a dominator tree the immediate dominator is the highest strict dominator. */
  lemma StrictDominatorBelowParent(g: Graph, tree: seq<int>, idom: seq<int>, d: nat, u: nat)
    requires DepthFirst(g, tree) && IsTree(idom) && |idom| == |g| && 0 < u < |g|
    requires ImmediatelyDominates(g, idom[u], u) && StrictlyDominates(g, d, u)
    ensures d <= idom[u]
  {
    DominatorIsAncestor(g, tree, d, idom[u]);
    AncestorBounds(tree, d, idom[u]);
  }

  lemma NotRightPastDominator(g: Graph, tree: seq<int>, idom: seq<int>, links: seq<int>, b: nat, u: nat, d: nat)
    requires DepthFirst(g, tree) && |idom| == |links| == |g| && b < u < |g|
    requires links[u] <= b < d && StrictlyDominates(g, d, u)
    ensures !(IsDominatorTree(g, idom) && NotAboveUpTo(g, links, |g|))
  {
    if IsDominatorTree(g, idom) {
      StrictDominatorBelowParent(g, tree, idom, d, u);
      assert !NotAbove(g, u, links[u]);
    }
  }

  lemma LinkAfterEdge(g: Graph, tree: seq<int>, b: nat, u: nat)
    requires DepthFirst(g, tree) && 1 <= b < u < |g| && Edge(g, u, b)
    ensures FinalLinks(g, tree)[u] <= b
  {
    LinksLower(g, |g| - 1, tree);
  }

  /** Then the pass as written goes wrong. */
  lemma WrongAsWritten(g: Graph, tree: seq<int>)
    requires DepthFirst(g, tree) && AllReachable(g) && EdgePastDominator(g)
    ensures forall v :: 0 < v < |g| ==> 0 <= FinalCells(g, tree)[v]
    ensures !IsDominatorTree(g, Climbed(tree, FinalCells(g, tree), |g|))
  {
    DominatorsAsWritten(g, tree);
    var b: nat, u: nat, d: nat :| 1 <= b < u < |g| && Edge(g, u, b) && StrictlyDominates(g, d, u) && b < d;
    LinkAfterEdge(g, tree, b, u);
    NotRightPastDominator(g, tree, Climbed(tree, FinalCells(g, tree), |g|), FinalLinks(g, tree), b, u, d);
  }

  /** No edge from u back to b, other than to the entry, has a block between them on the tree path to u with a
      strict dominator past b. */
  ghost predicate EdgesWithinDominators(g: Graph, tree: seq<int>)
    requires IsTree(tree) && |tree| == |g|
  {
    forall b: nat, u: nat :: 1 <= b < u < |g| && Edge(g, u, b) ==> PathWithinDominators(g, tree, b, u)
  }

  ghost predicate PathWithinDominators(g: Graph, tree: seq<int>, b: nat, u: nat)
    requires IsTree(tree) && |tree| == |g| && u < |g|
  {
    forall x: nat, d: nat :: b < x <= u && Ancestor(tree, x, u) && StrictlyDominates(g, d, x) ==> d <= b
  }

  /** No link jumps over a strict dominator. */
  ghost predicate LinksRight(g: Graph, tree: seq<int>, parent: seq<int>) {
    && IsTree(tree) && IsTree(parent) && |g| == |tree| == |parent|
    && (forall v :: 0 < v < |tree| ==> Ancestor(tree, parent[v], v))
    && forall v: nat, d: nat :: 0 < v < |tree| && StrictlyDominates(g, d, v) ==> d <= parent[v]
  }

  lemma TreeLinksRight(g: Graph, tree: seq<int>)
    requires DepthFirst(g, tree)
    ensures LinksRight(g, tree, tree)
  {
    forall v: nat, d: nat | 0 < v < |tree| && StrictlyDominates(g, d, v) ensures d <= tree[v] {
      DominatorOfPredecessor(g, d, tree[v], v);
      DominatorIsAncestor(g, tree, d, tree[v]);
      AncestorBounds(tree, d, tree[v]);
    }
  }

  lemma {:induction false} ShortenKeepsRight(g: Graph, tree: seq<int>, start: nat, current: nat, parent: seq<int>)
    requires DepthFirst(g, tree) && LinksRight(g, tree, parent) && start < current < |g|
    requires PathWithinDominators(g, tree, start, current)
    ensures LinksRight(g, tree, Shorten(start, current, parent))
    decreases current
  {
    var next := parent[current];
    if next > start {
      forall x: nat | x <= next && Ancestor(tree, x, next) ensures Ancestor(tree, x, current) {
        AncestorTransitive(tree, x, next, current);
      }
      ShortenKeepsRight(g, tree, start, next, parent);
      var p := Shorten(start, next, parent);
      AncestorTransitive(tree, p[next], next, current);
      forall d: nat | StrictlyDominates(g, d, current) ensures d <= p[next] {
        assert Ancestor(tree, current, current) && d <= start;
        DominatorPassesDown(g, tree, d, next, current);
      }
    }
  }

  lemma {:induction false} ShortenAllKeepsRight(g: Graph, tree: seq<int>, b: nat, i: nat, parent: seq<int>)
    requires DepthFirst(g, tree) && LinksRight(g, tree, parent) && 1 <= b < |g| && i <= |g[b]|
    requires EdgesWithinDominators(g, tree)
    ensures LinksRight(g, tree, ShortenAll(g, b, i, parent))
    decreases |g[b]| - i
  {
    if i < |g[b]| {
      var pred := g[b][i];
      assert Edge(g, pred, b);
      if pred > b {
        ShortenKeepsRight(g, tree, b, pred, parent);
      }
      ShortenAllKeepsRight(g, tree, b, i + 1, if pred > b then Shorten(b, pred, parent) else parent);
    }
  }

  lemma {:induction false} LinksStayRight(g: Graph, tree: seq<int>, b: nat, parent: seq<int>)
    requires DepthFirst(g, tree) && LinksRight(g, tree, parent) && b < |g| && EdgesWithinDominators(g, tree)
    ensures LinksRight(g, tree, Links(g, b, parent))
    decreases b
  {
    if b > 0 {
      ShortenAllKeepsRight(g, tree, b, 0, parent);
      var next := ShortenAll(g, b, 0, parent);
      LinksStayRight(g, tree, b - 1, next);
      assert Links(g, b, parent) == Links(g, b - 1, next);
    }
  }

  lemma RightLinksNotAbove(g: Graph, tree: seq<int>, links: seq<int>)
    requires LinksRight(g, tree, links)
    ensures NotAboveUpTo(g, links, |g|)
  {
    forall v: nat, d: nat | 0 < v < |g| && ImmediatelyDominates(g, d, v) ensures d <= links[v] {
      assert StrictlyDominates(g, d, v);
    }
  }

  /** Then the pass as written is right. */
  lemma RightAsWritten(g: Graph, tree: seq<int>)
    requires DepthFirst(g, tree) && AllReachable(g) && EdgesWithinDominators(g, tree)
    ensures forall v :: 0 < v < |g| ==> 0 <= FinalCells(g, tree)[v]
    ensures IsDominatorTree(g, Climbed(tree, FinalCells(g, tree), |g|))
  {
    DominatorsAsWritten(g, tree);
    TreeLinksRight(g, tree);
    LinksStayRight(g, tree, |g| - 1, tree);
    RightLinksNotAbove(g, tree, FinalLinks(g, tree));
  }

  // ----- a loop it gets wrong

  lemma LoopCells(g: Graph, tree: seq<int>)
    requires g == [[], [0, 3], [1], [2]] && tree == [-1, 0, 1, 2]
    ensures WellFormed(g) && IsTree(tree) && FinalCells(g, tree) == [0, 0, 1, 1]
  {
    var identity := Identity(|g|);
    assert identity == [0, 1, 2, 3];
    assert g[1] == [0, 3] && g[2] == [1] && g[3] == [2];
    assert Offers(g, 3, 1, 2, tree, identity) == (2, tree, identity);
    assert Offers(g, 3, 0, 3, tree, identity) == (2, tree, identity);
    var c3 := identity[3 := 2];
    assert Offers(g, 2, 1, 1, tree, c3) == (1, tree, c3);
    assert Offers(g, 2, 0, 2, tree, c3) == (1, tree, c3);
    var c2 := c3[2 := 1];
    LoopCompressed(tree, c2);
    var p, c1 := tree[3 := 1], c2[3 := 1];
    assert Offers(g, 1, 2, 0, p, c1) == (0, p, c1);
    assert Offers(g, 1, 1, 0, tree, c2) == (0, p, c1);
    assert Offers(g, 1, 0, 1, tree, c2) == (0, p, c1);
    assert Finish(g, 1, tree, c2) == (p, c1[1 := 0]);
    assert Finish(g, 2, tree, c3) == (p, c1[1 := 0]);
    assert Finish(g, 3, tree, identity) == (p, c1[1 := 0]);
  }

  lemma LoopCompressed(tree: seq<int>, cells: seq<int>)
    requires tree == [-1, 0, 1, 2] && cells == [0, 1, 1, 2]
    ensures Compress(1, 3, tree, cells) == (tree[3 := 1], cells[3 := 1])
  {
    assert Compress(1, 2, tree, cells) == (tree, cells);
  }

  lemma LoopClimb(tree: seq<int>, cells: seq<int>)
    requires tree == [-1, 0, 1, 2] && cells == [0, 0, 1, 1]
    ensures Climbed(tree, cells, 4) == [-1, 0, 1, 1]
  {
    assert Climbed(tree, cells, 1) == tree;
    assert Climb(tree, 0, 0) == 0;
    assert Climbed(tree, cells, 2) == tree;
    assert Climb(tree, 1, 1) == 1;
    assert Climbed(tree, cells, 3) == tree;
    assert Climb(tree, 1, 2) == 1;
  }

  lemma LoopDominators(g: Graph)
    requires g == [[], [0, 3], [1], [2]]
    ensures ImmediatelyDominates(g, 2, 3)
  {
    forall p | PathBetween(g, p, 0, 3) ensures 2 in p {
      assert Edge(g, p[|p| - 2], p[|p| - 1]);
    }
    forall e: nat, q | StrictlyDominates(g, e, 3) && PathBetween(g, q, 0, 2) ensures e in q {
      assert Edge(g, 2, 3);
      assert PathBetween(g, q + [3], 0, 3);
      assert e in q + [3];
    }
  }

  lemma LoopDiscovered(g: Graph, tree: seq<int>)
    requires g == [[], [0, 3], [1], [2]] && tree == [-1, 0, 1, 2]
    ensures DepthFirst(g, tree) && AllReachable(g)
  {
    assert g[1] == [0, 3] && g[2] == [1] && g[3] == [2];
    assert Ancestor(tree, 0, 0) && Ancestor(tree, 1, 1) && Ancestor(tree, 2, 2);
    assert Ancestor(tree, 0, 1) && Ancestor(tree, 1, 2) && Ancestor(tree, 2, 3);
    assert PathBetween(g, [0], 0, 0) && PathBetween(g, [0, 1], 0, 1);
    assert PathBetween(g, [0, 1, 2], 0, 2) && PathBetween(g, [0, 1, 2, 3], 0, 3);
  }

  /** The pass fails on a loop of three blocks behind the entry, 0 to 1 to 2 to 3 and back to 1: compressing from 3
      when 1 is finished lowers the cell of 3 from 2 to 1, and 3 climbs to 1, past its immediate dominator 2. */
  lemma LoopIsMisread()
    ensures var g, tree := [[], [0, 3], [1], [2]], [-1, 0, 1, 2];
            && DepthFirst(g, tree) && AllReachable(g)
            && FinalCells(g, tree) == [0, 0, 1, 1]
            && Climbed(tree, [0, 0, 1, 1], 4) == [-1, 0, 1, 1]
            && ImmediatelyDominates(g, 2, 3)
  {
    var g: Graph, tree := [[], [0, 3], [1], [2]], [-1, 0, 1, 2];
    LoopDiscovered(g, tree);
    LoopCells(g, tree);
    LoopClimb(tree, [0, 0, 1, 1]);
    LoopDominators(g);
  }
}
