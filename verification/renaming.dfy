/** Liveness does not depend on how blocks are named. */
module Renaming {
  import opened Flow

  /** Block i of q is block names[i] of p: same code, same successors. */
  ghost predicate Renamed(p: Program, q: Program, names: seq<nat>) {
    && p.Valid() && q.Valid() && |names| == |q.succs|
    && (forall i :: 0 <= i < |names| ==> names[i] < |p.succs| && q.code[i] == p.code[names[i]])
    && forall i :: 0 <= i < |names| ==> SameSuccessors(p, q, names, i)
  }

  ghost predicate SameSuccessors(p: Program, q: Program, names: seq<nat>, i: nat)
    requires q.Valid() && i < |names| == |q.succs| && names[i] < |p.succs|
  {
    && |q.succs[i]| == |p.succs[names[i]]|
    && forall k :: 0 <= k < |q.succs[i]| ==> q.succs[i][k] in q.succs[i] && names[q.succs[i][k]] == p.succs[names[i]][k]
  }

  function NameAll(names: seq<nat>, w: seq<nat>): seq<nat>
    requires forall i :: 0 <= i < |w| ==> w[i] < |names|
  {
    seq(|w|, i requires 0 <= i < |w| => names[w[i]])
  }

  lemma {:induction false} NamedWalk(p: Program, q: Program, names: seq<nat>, w: seq<nat>)
    requires Renamed(p, q, names) && Walk(q, w)
    ensures Walk(p, NameAll(names, w)) && Trace(p, NameAll(names, w)) == Trace(q, w)
    decreases |w|
  {
    if w != [] {
      var named := NameAll(names, w);
      assert named[1..] == NameAll(names, w[1..]);
      forall i | 0 < i < |w| ensures named[i] in p.succs[named[i - 1]] {
        var after := q.succs[w[i - 1]];
        assert w[i] in after;
        var k :| 0 <= k < |after| && after[k] == w[i];
        assert SameSuccessors(p, q, names, w[i - 1]);
      }
      NamedWalk(p, q, names, w[1..]);
    }
  }

  lemma {:induction false} WalkOfNames(p: Program, q: Program, names: seq<nat>, named: seq<nat>,
          b: nat) returns (w: seq<nat>)
    requires Renamed(p, q, names) && Walk(p, named) && named != [] && b < |names| && named[0] == names[b]
    ensures w != [] && w[0] == b && Walk(q, w) && NameAll(names, w) == named
    decreases |named|
  {
    if |named| == 1 {
      w := [b];
    } else {
      assert SameSuccessors(p, q, names, b);
      assert named[1] in p.succs[names[b]];
      var k :| 0 <= k < |q.succs[b]| && names[q.succs[b][k]] == named[1];
      var rest := WalkOfNames(p, q, names, named[1..], q.succs[b][k]);
      w := [b] + rest;
      assert NameAll(names, w) == [names[b]] + NameAll(names, rest);
    }
  }

  lemma LiveRenamed(p: Program, q: Program, names: seq<nat>, b: nat, v: nat)
    requires Renamed(p, q, names) && b < |names|
    ensures LiveAtStart(q, b, v) <==> LiveAtStart(p, names[b], v)
  {
    if LiveAtStart(q, b, v) {
      var w :| w != [] && w[0] == b && Walk(q, w) && Exposed(Trace(q, w), v);
      NamedWalk(p, q, names, w);
      assert NameAll(names, w)[0] == names[b];
    }
    if LiveAtStart(p, names[b], v) {
      var named :| named != [] && named[0] == names[b] && Walk(p, named) && Exposed(Trace(p, named), v);
      var w := WalkOfNames(p, q, names, named, b);
      NamedWalk(p, q, names, w);
    }
  }

  lemma LiveAtEndRenamed(p: Program, q: Program, names: seq<nat>, b: nat, v: nat)
    requires Renamed(p, q, names) && b < |names|
    ensures LiveAtEnd(q, b, v) <==> LiveAtEnd(p, names[b], v)
  {
    assert SameSuccessors(p, q, names, b);
    forall k | 0 <= k < |q.succs[b]|
      ensures LiveAtStart(q, q.succs[b][k], v) <==> LiveAtStart(p, p.succs[names[b]][k], v)
    {
      LiveRenamed(p, q, names, q.succs[b][k], v);
    }
  }
}
