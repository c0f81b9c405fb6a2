/** compute_dominators: semidominators by path compression, then immediate dominators by climbing. */
module Dominators {
  import opened Paths
  import opened Semidominators

  function Min(a: int, b: int): int {
    if a < b then a else b
  }

  // ----- the semidominator recurrence

  /** Every block above w is finished: semi holds its semidominator. */
  ghost predicate FinishedAbove(g: Graph, semi: seq<int>, w: int) {
    |semi| == |g| && forall u :: 0 <= w < u < |g| ==> semi[u] >= 0 && IsSemidominator(g, semi[u], u)
  }

  /** s is at most every value the predecessors of w offer. */
  ghost predicate BelowOffers(g: Graph, parent: seq<int>, semi: seq<int>, w: nat, v: nat, s: int)
    requires DepthFirst(g, parent) && |semi| == |g| && v < |g|
  {
    && (v < w ==> s <= v)
    && forall u :: w < u < |g| && Ancestor(parent, u, v) ==> s <= semi[u]
  }

  /** s is at most the offers of the first n predecessors of w. */
  ghost predicate OffersMet(g: Graph, parent: seq<int>, semi: seq<int>, w: nat, n: nat, s: int)
    requires DepthFirst(g, parent) && |semi| == |g| && w < |g| && n <= |g[w]|
  {
    forall k :: 0 <= k < n ==> g[w][k] < |g| && BelowOffers(g, parent, semi, w, g[w][k], s)
  }

  lemma OneMoreOffer(g: Graph, parent: seq<int>, semi: seq<int>, w: nat, n: nat, s: int, best: int, s': int)
    requires DepthFirst(g, parent) && |semi| == |g| && w < |g| && n < |g[w]| && g[w][n] < |g|
    requires OffersMet(g, parent, semi, w, n, s) && BelowOffers(g, parent, semi, w, g[w][n], best)
    requires s' <= s && s' <= best
    ensures OffersMet(g, parent, semi, w, n + 1, s')
  {
  }

  /** A semidominator path to an ancestor u of a predecessor v of w extends to one to w. */
  lemma OfferIsSemiPath(g: Graph, parent: seq<int>, x: nat, u: nat, v: nat, w: nat)
    requires DepthFirst(g, parent) && w < u && v < |g| && Ancestor(parent, u, v)
    requires Edge(g, v, w) && SemiPathFrom(g, x, u)
    ensures SemiPathFrom(g, x, w)
  {
    var p :| SemiPath(g, p, x, u);
    var t := TreePath(g, parent, u, v);
    GluePaths(g, p, t);
    var q := Glue(p, t);
    GluePaths(g, q, [v, w]);
    var r := Glue(q, [v, w]);
    forall i | 0 < i < |r| - 1
      ensures w < r[i]
    {
      if i < |p| {
        assert r[i] == p[i];
        assert i < |p| - 1 ==> u < p[i];
      } else {
        assert r[i] == t[i - |p| + 1];
        assert r[i] in t;
      }
    }
    assert SemiPath(g, r, x, w);
  }

  /** Conversely, whatever starts a semidominator path to w is at least one of the offers. */
  lemma OffersAreLeast(g: Graph, parent: seq<int>, semi: seq<int>, w: nat, s: int, x: nat, p: seq<nat>)
    requires DepthFirst(g, parent) && 0 < w < |g| && FinishedAbove(g, semi, w)
    requires OffersMet(g, parent, semi, w, |g[w]|, s)
    requires SemiPath(g, p, x, w)
    ensures s <= x
  {
    var v := p[|p| - 2];
    PathVertices(g, p, |p| - 2);
    assert Edge(g, v, w);
    assert BelowOffers(g, parent, semi, w, v, s);
    if |p| == 2 {
      assert Edge(g, parent[w], w);
      assert BelowOffers(g, parent, semi, w, parent[w], s);
    } else {
      var j := FirstAncestorOf(g, parent, p, v);
      PathVertices(g, p, j);
      PieceIsSemiPath(g, parent, p, 0, j, v);
      assert SemiPathFrom(g, x, p[j]);
      assert IsSemidominator(g, semi[p[j]], p[j]);
    }
  }

  /** The first block after the start of p that is an ancestor of v. */
  lemma FirstAncestorOf(g: Graph, parent: seq<int>, p: seq<nat>, v: nat) returns (j: nat)
    requires DepthFirst(g, parent) && v < |g| && IsPath(g, p)
    requires |p| > 2 && p[|p| - 2] == v
    ensures 0 < j <= |p| - 2 && p[j] < |g| && Ancestor(parent, p[j], v)
    ensures forall k :: 0 < k < j ==> p[k] < |g| && !Ancestor(parent, p[k], v)
  {
    forall k | 0 <= k < |p| ensures p[k] < |g| { PathVertices(g, p, k); }
    j := 1;
    while !Ancestor(parent, p[j], v)
      invariant 0 < j <= |p| - 2
      invariant forall k :: 0 < k < j ==> !Ancestor(parent, p[k], v)
      decreases |p| - j
    {
      j := j + 1;
    }
  }

  lemma RecurrenceIsSemidominator(g: Graph, parent: seq<int>, semi: seq<int>, w: nat, s: nat)
    requires DepthFirst(g, parent) && 0 < w < |g| && FinishedAbove(g, semi, w)
    requires OffersMet(g, parent, semi, w, |g[w]|, s)
    requires SemiPathFrom(g, s, w)
    ensures IsSemidominator(g, s, w)
  {
    forall x: nat | SemiPathFrom(g, x, w)
      ensures s <= x
    {
      var p :| SemiPath(g, p, x, w);
      OffersAreLeast(g, parent, semi, w, s, x, p);
    }
  }

  // ----- path compression

  /** The least value of semi on the tree path from v up to, and excluding, the blocks at or below lo. */
  ghost function LeastAbove(tree: seq<int>, semi: seq<int>, lo: int, v: int): int
    requires IsTree(tree) && |semi| == |tree| && lo < v && 0 <= v < |tree|
    decreases v
  {
    if v == 0 || tree[v] <= lo then semi[v]
    else Min(semi[v], LeastAbove(tree, semi, lo, tree[v]))
  }

  /** The answer the compressed forest gives for v: follow the shortened links while they stay above lo. */
  ghost function Answer(parent: seq<int>, labels: seq<int>, lo: int, v: int): int
    requires IsTree(parent) && |labels| == |parent| && lo < v && 0 <= v < |parent|
    decreases v
  {
    if v == 0 || parent[v] <= lo then labels[v]
    else Min(labels[v], Answer(parent, labels, lo, parent[v]))
  }

  /** parent and labels compress tree: each link jumps over blocks above lo only, to a tree ancestor, and
      the label is the least semi over the blocks the link jumps over (v included). Blocks up to lo are
      not linked yet. */
  ghost predicate Compressed(tree: seq<int>, semi: seq<int>, parent: seq<int>, labels: seq<int>, lo: int) {
    && IsTree(tree) && IsTree(parent)
    && |tree| == |semi| == |parent| == |labels|
    && (forall v :: 0 < v < |tree| ==> Ancestor(tree, parent[v], v))
    && (forall v :: 0 < v < |tree| ==> labels[v] == LeastAbove(tree, semi, parent[v], v))
    && (forall v :: 0 < v <= lo && v < |tree| ==> parent[v] == tree[v])
    && (forall u: int, v :: lo < v < |tree| && 0 < v && Ancestor(tree, u, v) && parent[v] < u ==> lo < u)
  }

  lemma {:induction false} LeastAboveBounds(tree: seq<int>, semi: seq<int>, lo: int, v: int, u: int)
    requires IsTree(tree) && |semi| == |tree| && lo < u && 0 <= v < |tree| && Ancestor(tree, u, v) && 0 <= u
    ensures 0 <= u <= v && lo < v && LeastAbove(tree, semi, lo, v) <= semi[u]
    decreases v
  {
    AncestorBounds(tree, u, v);
    if u != v {
      LeastAboveBounds(tree, semi, lo, tree[v], u);
    }
  }

  lemma {:induction false} LeastAboveAttained(tree: seq<int>, semi: seq<int>, lo: int, v: int) returns (u: int)
    requires IsTree(tree) && |semi| == |tree| && lo < v && 0 <= v < |tree|
    ensures lo < u && 0 <= u <= v && Ancestor(tree, u, v) && LeastAbove(tree, semi, lo, v) == semi[u]
    decreases v
  {
    u := v;
    if v > 0 && tree[v] > lo {
      var t := LeastAboveAttained(tree, semi, lo, tree[v]);
      if semi[t] < semi[v] { u := t; }
    }
  }

  /** Splitting the tree path at an ancestor b. */
  lemma {:induction false} LeastAboveSplits(tree: seq<int>, semi: seq<int>, a: int, b: int, v: int)
    requires IsTree(tree) && |semi| == |tree| && a < b < v && 0 <= b && v < |tree| && Ancestor(tree, b, v)
    ensures LeastAbove(tree, semi, a, v) == Min(LeastAbove(tree, semi, b, v), LeastAbove(tree, semi, a, b))
    decreases v
  {
    AncestorBounds(tree, b, tree[v]);
    if b != tree[v] {
      LeastAboveSplits(tree, semi, a, b, tree[v]);
    }
  }

  /** Raising the bound past blocks that are not on the path changes nothing. */
  lemma {:induction false} LeastAboveSameBound(tree: seq<int>, semi: seq<int>, a: int, b: int, v: int)
    requires IsTree(tree) && |semi| == |tree| && a <= b < v && 0 <= v < |tree|
    requires forall u: int :: Ancestor(tree, u, v) && a < u ==> b < u
    ensures LeastAbove(tree, semi, a, v) == LeastAbove(tree, semi, b, v)
    decreases v
  {
    if v > 0 && tree[v] > a {
      assert Ancestor(tree, tree[v], v);
      forall u: int | Ancestor(tree, u, tree[v]) && a < u
        ensures b < u
      {
        assert Ancestor(tree, u, v);
      }
      LeastAboveSameBound(tree, semi, a, b, tree[v]);
    }
  }

  /** Only the blocks on the path matter. */
  lemma {:induction false} LeastAboveFrame(tree: seq<int>, semi: seq<int>, semi': seq<int>, a: int, v: int)
    requires IsTree(tree) && |semi| == |tree| == |semi'| && a < v && 0 <= v < |tree|
    requires forall u: int :: 0 <= u < |tree| && Ancestor(tree, u, v) && a < u ==> semi[u] == semi'[u]
    ensures LeastAbove(tree, semi, a, v) == LeastAbove(tree, semi', a, v)
    decreases v
  {
    if v > 0 && tree[v] > a {
      forall u: int | 0 <= u < |tree| && Ancestor(tree, u, tree[v]) && a < u
        ensures semi[u] == semi'[u]
      {
        assert Ancestor(tree, u, v);
      }
      LeastAboveFrame(tree, semi, semi', a, tree[v]);
    }
  }

  /** Compression is transparent: a compressed forest answers every query exactly as the tree does. */
  lemma {:induction false} AnswerIsLeastAbove(tree: seq<int>, semi: seq<int>, parent: seq<int>, labels: seq<int>,
          lo: nat, v: int)
    requires Compressed(tree, semi, parent, labels, lo) && lo < v < |tree|
    ensures Answer(parent, labels, lo, v) == LeastAbove(tree, semi, lo, v)
    decreases v
  {
    var b := parent[v];
    if b <= lo {
      LeastAboveSameBound(tree, semi, b, lo, v);
    } else {
      AnswerIsLeastAbove(tree, semi, parent, labels, lo, b);
      LeastAboveSplits(tree, semi, lo, b, v);
    }
  }

  /** One shortened link: v's link to b is replaced by b's own link. */
  lemma ShortenedLink(tree: seq<int>, semi: seq<int>, parent: seq<int>, labels: seq<int>, lo: nat, v: int)
    requires Compressed(tree, semi, parent, labels, lo) && lo < v < |tree|
    requires lo < parent[v] && parent[parent[v]] <= lo
    ensures Compressed(tree, semi,
                       parent[v := parent[parent[v]]],
                       labels[v := Min(labels[v], labels[parent[v]])], lo)
  {
    var b := parent[v];
    var a := parent[b];
    AncestorTransitive(tree, a, b, v);
    LeastAboveSplits(tree, semi, a, b, v);
    forall u: int | Ancestor(tree, u, v) && a < u
      ensures lo < u
    {
      if u <= b {
        AncestorsLinear(tree, u, b, v);
      }
    }
    var parent', labels' := parent[v := a], labels[v := Min(labels[v], labels[b])];
    forall x | 0 < x < |tree|
      ensures Ancestor(tree, parent'[x], x) && labels'[x] == LeastAbove(tree, semi, parent'[x], x)
    {
    }
    forall u: int, x | lo < x < |tree| && 0 < x && Ancestor(tree, u, x) && parent'[x] < u
      ensures lo < u
    {
      if x != v {
        assert parent'[x] == parent[x];
      }
    }
  }

  method CompressPath(ghost tree: seq<int>, ghost semi: seq<int>, start: nat, current: nat, parent: array<int>,
          labels: array<int>)
    requires parent != labels
    requires Compressed(tree, semi, parent[..], labels[..], start)
    requires start < current < |tree|
    modifies parent, labels
    ensures Compressed(tree, semi, parent[..], labels[..], start)
    ensures parent[current] <= start && Ancestor(tree, parent[current], current)
    ensures labels[current] == LeastAbove(tree, semi, start, current)
    ensures forall v :: start < v < |tree| ==>
              Answer(parent[..], labels[..], start, v) == old(Answer(parent[..], labels[..], start, v))
    ensures forall v :: current < v < |tree| ==> parent[v] == old(parent[v]) && labels[v] == old(labels[v])
    decreases current
  {
    var next := parent[current];
    if next > start {
      CompressPath(tree, semi, start, next, parent, labels);
      ShortenedLink(tree, semi, parent[..], labels[..], start, current);
      labels[current] := Min(labels[current], labels[next]);
      parent[current] := parent[next];
    }
    AnswerIsLeastAbove(tree, semi, parent[..], labels[..], start, current);
    forall v | start < v < |tree|
      ensures Answer(parent[..], labels[..], start, v) == old(Answer(parent[..], labels[..], start, v))
    {
      AnswerIsLeastAbove(tree, semi, parent[..], labels[..], start, v);
      AnswerIsLeastAbove(tree, semi, old(parent[..]), old(labels[..]), start, v);
    }
  }

  // ----- semidominators, block by block from the highest number down

  /** Storing b's semidominator as its label links b into the forest. */
  lemma LinkBlock(tree: seq<int>, semi: seq<int>, parent: seq<int>, labels: seq<int>, b: nat, s: int)
    requires 0 < b < |tree| && Compressed(tree, semi, parent, labels, b)
    requires forall v :: 0 <= v <= b ==> semi[v] == v
    ensures Compressed(tree, semi[b := s], parent, labels[b := s], b - 1)
  {
    var semi', labels' := semi[b := s], labels[b := s];
    forall v | 0 < v < |tree|
      ensures labels'[v] == LeastAbove(tree, semi', parent[v], v)
    {
      if v > b {
        LeastAboveFrame(tree, semi, semi', parent[v], v);
      } else {
        assert parent[v] == tree[v];
      }
    }
    forall u: int, v | b - 1 < v < |tree| && 0 < v && Ancestor(tree, u, v) && parent[v] < u
      ensures b - 1 < u
    {
      if v == b && u != b {
        AncestorBounds(tree, u, tree[b]);
      }
    }
  }

  /** What one predecessor offers, read off the forest after compressing from it. */
  lemma CompressedOffer(g: Graph, tree: seq<int>, semi: seq<int>, b: nat, v: nat)
    requires DepthFirst(g, tree) && 0 < b < v < |g| && Edge(g, v, b) && FinishedAbove(g, semi, b)
    ensures LeastAbove(tree, semi, b, v) >= 0
    ensures SemiPathFrom(g, LeastAbove(tree, semi, b, v), b)
    ensures BelowOffers(g, tree, semi, b, v, LeastAbove(tree, semi, b, v))
  {
    var best := LeastAbove(tree, semi, b, v);
    var u := LeastAboveAttained(tree, semi, b, v);
    OfferIsSemiPath(g, tree, best, u, v, b);
    forall u | b < u < |g| && Ancestor(tree, u, v)
      ensures best <= semi[u]
    {
      LeastAboveBounds(tree, semi, b, v, u);
    }
  }

  /** The topmost block above b on v's branch has its parent at or below b, which bounds the offer. */
  lemma {:induction false} OfferAtMostBlock(g: Graph, tree: seq<int>, semi: seq<int>, b: nat, v: nat)
    requires DepthFirst(g, tree) && 0 < b < v < |g| && FinishedAbove(g, semi, b)
    ensures LeastAbove(tree, semi, b, v) <= b
    decreases v
  {
    if tree[v] <= b {
      SemidominatorAtMostParent(g, tree, semi[v], v);
    } else {
      OfferAtMostBlock(g, tree, semi, b, tree[v]);
    }
  }

  /** The first half of compute_dominators. In the source the label cell of a finished block is the
      semidominator cell itself, so compression would overwrite finished semidominators; and the label of
      the predecessor is never read. Here both arrays hold values, and best is read from labels. */
  method ComputeSemidominators(g: Graph, parent: array<int>) returns (semi: array<int>)
    requires DepthFirst(g, parent[..])
    modifies parent
    ensures fresh(semi) && FinishedAbove(g, semi[..], 0)
  {
    var size := parent.Length;
    ghost var tree := parent[..];
    semi := new int[size](i => i);
    var labels := new int[size](i => i);
    var b := size - 1;
    while b >= 1
      invariant 0 <= b < size && fresh(semi) && fresh(labels) && semi != labels
      invariant FinishedAbove(g, semi[..], b)
      invariant forall v :: 0 <= v <= b ==> semi[v] == v
      invariant Compressed(tree, semi[..], parent[..], labels[..], b)
    {
      SemidominatorOf(g, tree, b, parent, semi, labels);
      b := b - 1;
    }
  }

  method SemidominatorOf(g: Graph, ghost tree: seq<int>, b: nat, parent: array<int>, semi: array<int>,
          labels: array<int>)
    requires parent != semi && parent != labels && semi != labels
    requires DepthFirst(g, tree) && 1 <= b < |g|
    requires FinishedAbove(g, semi[..], b)
    requires forall v :: 0 <= v <= b ==> semi[v] == v
    requires Compressed(tree, semi[..], parent[..], labels[..], b)
    modifies parent, semi, labels
    ensures FinishedAbove(g, semi[..], b - 1)
    ensures forall v :: 0 <= v < b ==> semi[v] == v
    ensures Compressed(tree, semi[..], parent[..], labels[..], b - 1)
  {
    ghost var semi0 := semi[..];
    var i := 0;
    while i < |g[b]|
      invariant 0 <= i <= |g[b]|
      invariant semi[..] == semi0[b := semi[b]] && 0 <= semi[b] <= b
      invariant Compressed(tree, semi0, parent[..], labels[..], b)
      invariant semi[b] == b || SemiPathFrom(g, semi[b], b)
      invariant OffersMet(g, tree, semi0, b, i, semi[b])
    {
      var best := OfferOf(g, tree, semi0, b, g[b][i], parent, labels);
      ghost var s := semi[b];
      semi[b] := Min(semi[b], semi[best]);
      OneMoreOffer(g, tree, semi0, b, i, s, best, semi[b]);
      i := i + 1;
    }
    assert Edge(g, tree[b], b);
    RecurrenceIsSemidominator(g, tree, semi0, b, semi[b]);
    LinkBlock(tree, semi0, parent[..], labels[..], b, semi[b]);
    labels[b] := semi[b];
  }

  /** The candidate semidominator that one predecessor offers. */
  method OfferOf(g: Graph, ghost tree: seq<int>, ghost semi: seq<int>, b: nat, pred: nat, parent: array<int>,
          labels: array<int>)
    returns (best: int)
    requires parent != labels && DepthFirst(g, tree) && 1 <= b < |g| && Edge(g, pred, b)
    requires FinishedAbove(g, semi, b) && Compressed(tree, semi, parent[..], labels[..], b)
    modifies parent, labels
    ensures Compressed(tree, semi, parent[..], labels[..], b)
    ensures 0 <= best <= b && SemiPathFrom(g, best, b)
    ensures pred < |g| && BelowOffers(g, tree, semi, b, pred, best)
  {
    best := pred;
    if pred > b {
      CompressPath(tree, semi, b, pred, parent, labels);
      best := labels[pred];
      CompressedOffer(g, tree, semi, b, pred);
      OfferAtMostBlock(g, tree, semi, b, pred);
    } else {
      EdgeIsSemiPath(g, pred, b);
      NoAncestorAbove(tree, b, pred);
    }
  }

  lemma NoAncestorAbove(tree: seq<int>, b: nat, v: nat)
    requires IsTree(tree) && v <= b < |tree|
    ensures forall u: int :: b < u ==> !Ancestor(tree, u, v)
  {
    forall u: int | Ancestor(tree, u, v)
      ensures u <= v
    {
      AncestorBounds(tree, u, v);
    }
  }

  // ----- the climb

  /** idom names the immediate dominator of every block but the entry. */
  ghost predicate IsDominatorTree(g: Graph, idom: seq<int>) {
    && |idom| == |g|
    && IsTree(idom)
    && forall v :: 0 < v < |g| ==> ImmediatelyDominates(g, idom[v], v)
  }

  ghost predicate Increasing(s: seq<nat>) {
    forall i, j :: 0 <= i < j < |s| ==> s[i] < s[j]
  }

  /** Each list holds, in increasing order, the blocks below n that idom attaches to its block. */
  ghost predicate ListsAttached(dominated: seq<seq<nat>>, idom: seq<int>, n: nat)
    requires n <= |idom|
  {
    && |dominated| == |idom|
    && (forall d: nat, b: nat {:trigger b in dominated[d]} :: d < |dominated| ==>
          (b in dominated[d] <==> 0 < b < n && idom[b] == d))
    && (forall d :: 0 <= d < |dominated| ==> Increasing(dominated[d]))
  }

  /** Each list holds exactly the blocks that its block dominates immediately, in increasing order. */
  ghost predicate ListsDominated(g: Graph, dominated: seq<seq<nat>>) {
    && |dominated| == |g|
    && (forall d: nat, b: nat :: d < |g| ==>
          (b in dominated[d] <==> 0 < b < |g| && ImmediatelyDominates(g, d, b)))
    && (forall d :: 0 <= d < |dominated| ==> Increasing(dominated[d]))
  }

  /** Only one block dominates another immediately. */
  lemma ImmediateDominatorUnique(g: Graph, d: nat, e: nat, b: nat)
    requires ImmediatelyDominates(g, d, b) && ImmediatelyDominates(g, e, b) && Reachable(g, b)
    ensures d == e
  {
    var p :| PathBetween(g, p, 0, b);
    assert d in p;
    var i := PrefixUpTo(g, p, d);
    DominatesAntisymmetric(g, e, d, p[..i + 1]);
  }

  lemma AttachedAreDominated(g: Graph, tree: seq<int>, idom: seq<int>, dominated: seq<seq<nat>>)
    requires DepthFirst(g, tree) && IsDominatorTree(g, idom) && ListsAttached(dominated, idom, |g|)
    ensures ListsDominated(g, dominated)
  {
    forall d: nat, b: nat | d < |g| && 0 < b < |g|
      ensures idom[b] == d <==> ImmediatelyDominates(g, d, b)
    {
      var e: nat := idom[b];
      assert ImmediatelyDominates(g, e, b);
      RootIsAncestor(tree, b);
      var p := TreePath(g, tree, 0, b);
      if ImmediatelyDominates(g, d, b) {
        ImmediateDominatorUnique(g, d, e, b);
      }
    }
  }

  /** One more block, b, at the end of the list of the block that it attaches to. */
  lemma OneMoreAttached(dominated: seq<seq<nat>>, idom: seq<int>, idom': seq<int>, b: nat, dom: nat)
    requires b < |idom| && 0 < b && dom < |idom| && ListsAttached(dominated, idom, b) && idom' == idom[b := dom]
    ensures ListsAttached(dominated[dom := dominated[dom] + [b]], idom', b + 1)
  {
    var s := dominated[dom];
    forall i | 0 <= i < |s| ensures s[i] < b {
      assert s[i] in s && s[i] in dominated[dom];
    }
    assert Increasing(s) && Increasing(s + [b]);
  }

  /** block_add_dominated */
  method AddDominated(b: nat, dom: nat, idom: array<int>, dominated: array<seq<nat>>)
    requires 0 < b < idom.Length && dom < b && ListsAttached(dominated[..], idom[..], b)
    modifies idom, dominated
    ensures idom[..] == old(idom[..])[b := dom]
    ensures ListsAttached(dominated[..], idom[..], b + 1)
  {
    ghost var before, lists := idom[..], dominated[..];
    idom[b] := dom;
    dominated[dom] := dominated[dom] + [b];
    OneMoreAttached(lists, before, idom[..], b, dom);
    assert dominated[..] == lists[dom := lists[dom] + [b]];
  }

  /** The second half of compute_dominators: climb from the spanning-tree parent to the semidominator. */
  method ClimbToDominators(g: Graph, semi: array<int>, idom: array<int>) returns (dominated: array<seq<nat>>)
    requires semi != idom && semi.Length == idom.Length
    requires DepthFirst(g, idom[..]) && FinishedAbove(g, semi[..], 0)
    modifies idom
    ensures fresh(dominated) && dominated.Length == |g|
    ensures IsDominatorTree(g, idom[..])
    ensures forall d: nat, b: nat :: d < |g| ==> (b in dominated[d] <==> 0 < b < |g| && idom[b] == d)
    ensures ListsDominated(g, dominated[..])
  {
    var size := idom.Length;
    ghost var tree := idom[..];
    dominated := new seq<nat>[size](i => []);
    var b := 1;
    while b < size
      invariant 1 <= b <= size && fresh(dominated)
      invariant idom[0] == -1
      invariant forall v :: b <= v < size ==> idom[v] == tree[v]
      invariant forall v :: 0 < v < b ==> 0 <= idom[v] < v && ImmediatelyDominates(g, idom[v], v)
      invariant ListsAttached(dominated[..], idom[..], b)
    {
      var dom := ClimbFrom(g, tree, b, semi, idom);
      AddDominated(b, dom, idom, dominated);
      b := b + 1;
    }
    AttachedAreDominated(g, tree, idom[..], dominated[..]);
  }

  method ClimbFrom(g: Graph, ghost tree: seq<int>, b: nat, semi: array<int>, idom: array<int>) returns (dom: int)
    requires DepthFirst(g, tree) && 1 <= b < |g| == semi.Length == idom.Length
    requires FinishedAbove(g, semi[..], 0) && idom[b] == tree[b]
    requires forall v :: 0 < v < b ==> 0 <= idom[v] < v && ImmediatelyDominates(g, idom[v], v)
    ensures 0 <= dom < b && ImmediatelyDominates(g, dom, b)
  {
    ghost var s := semi[b];
    assert IsSemidominator(g, s, b) by { assert semi[..][b] == s >= 0; }
    dom := idom[b];
    DominatesReflexive(g, tree[b]);
    while dom > semi[b]
      invariant 0 <= dom < b && Dominates(g, dom, tree[b])
      invariant forall d: nat :: Dominates(g, d, tree[b]) && d <= s ==> Dominates(g, d, dom)
      decreases dom
    {
      var up := idom[dom];
      DominatesTransitive(g, up, dom, tree[b]);
      dom := up;
    }
    forall d: nat
      ensures StrictlyDominates(g, d, b) <==> Dominates(g, d, tree[b]) && d <= s
    {
      StrictDominatorsCharacterised(g, tree, s, d, b);
    }
  }

  /** compute_dominators up to the frontiers: idom starts as a copy of the spanning-tree parents, which the
      first half then compresses in place. */
  method ComputeDominatorTree(g: Graph, parent: array<int>) returns (idom: array<int>, dominated: array<seq<nat>>)
    requires DepthFirst(g, parent[..])
    modifies parent
    ensures fresh(idom) && fresh(dominated) && dominated.Length == |g|
    ensures IsDominatorTree(g, idom[..])
    ensures forall d: nat, b: nat :: d < |g| ==> (b in dominated[d] <==> 0 < b < |g| && idom[b] == d)
    ensures ListsDominated(g, dominated[..])
  {
    idom := new int[parent.Length](i requires 0 <= i < parent.Length reads parent => parent[i]);
    assert idom[..] == parent[..];
    var semi := ComputeSemidominators(g, parent);
    dominated := ClimbToDominators(g, semi, idom);
  }

  // ----- what the dominator tree says

  /** Ancestors in the dominator tree are exactly the dominators. */
  lemma {:induction false} DominatorsAreAncestors(g: Graph, idom: seq<int>, d: nat, v: nat)
    requires IsDominatorTree(g, idom) && v < |g| && Reachable(g, 0)
    ensures Ancestor(idom, d, v) <==> Dominates(g, d, v)
    decreases v
  {
    DominatesReflexive(g, v);
    if v > 0 {
      DominatorsAreAncestors(g, idom, d, idom[v]);
      if Dominates(g, d, idom[v]) {
        DominatesTransitive(g, d, idom[v], v);
      }
    } else {
      assert IsPath(g, [0]) by { var p :| PathBetween(g, p, 0, 0); }
      assert PathBetween(g, [0], 0, 0);
    }
  }
}
