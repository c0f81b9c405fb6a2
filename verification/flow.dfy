/** What liveness means: loads and stores along the walks of a control-flow graph. */
module Flow {

  /** The instructions the analysis looks at; every other instruction is neutral. */
  datatype Instr = Load(v: nat) | Store(v: nat) | Neutral

  type Code = seq<Instr>

  /** Blocks with their code and successors, named by postorder number. */
  datatype Program = Program(code: seq<Code>, succs: seq<seq<nat>>) {
    ghost predicate Valid() {
      |code| == |succs| && forall b, s :: 0 <= b < |succs| && s in succs[b] ==> s < |succs|
    }
  }

  predicate Stores(c: Code, v: nat) {
    Store(v) in c
  }

  predicate Loads(c: Code, v: nat) {
    Load(v) in c
  }

  /** The first access to v in c is a load. */
  predicate Exposed(c: Code, v: nat) {
    c != [] && (c[0] == Load(v) || (c[0] != Store(v) && Exposed(c[1..], v)))
  }

  lemma {:induction false} ExposedConcat(c: Code, d: Code, v: nat)
    ensures Exposed(c + d, v) <==> Exposed(c, v) || (!Stores(c, v) && Exposed(d, v))
  {
    if c == [] {
      assert c + d == d;
    } else {
      assert (c + d)[1..] == c[1..] + d;
      assert c == [c[0]] + c[1..];
      ExposedConcat(c[1..], d, v);
    }
  }

  lemma {:induction false} ExposedLoads(c: Code, v: nat)
    ensures Exposed(c, v) ==> Loads(c, v)
    ensures Loads(c, v) && !Stores(c, v) ==> Exposed(c, v)
  {
    if c != [] {
      assert c == [c[0]] + c[1..];
      ExposedLoads(c[1..], v);
    }
  }

  // ----- walks

  ghost predicate Walk(p: Program, w: seq<nat>) {
    && (forall i :: 0 <= i < |w| ==> w[i] < |p.succs|)
    && (forall i :: 0 < i < |w| ==> w[i] in p.succs[w[i - 1]])
  }

  /** The instructions met along a walk. */
  ghost function Trace(p: Program, w: seq<nat>): Code
    requires p.Valid() && Walk(p, w)
  {
    if w == [] then [] else p.code[w[0]] + Trace(p, w[1..])
  }

  /** Some walk that starts at the beginning of b meets a load of v before any store to v. */
  ghost predicate LiveAtStart(p: Program, b: nat, v: nat)
    requires p.Valid()
  {
    exists w :: w != [] && w[0] == b && Walk(p, w) && Exposed(Trace(p, w), v)
  }

  ghost predicate LiveAtEnd(p: Program, b: nat, v: nat)
    requires p.Valid() && b < |p.succs|
  {
    exists s :: s in p.succs[b] && LiveAtStart(p, s, v)
  }

  /** w carries on from block b. */
  ghost predicate Continues(p: Program, b: nat, w: seq<nat>)
    requires p.Valid() && b < |p.succs|
  {
    Walk(p, w) && (w != [] ==> w[0] in p.succs[b])
  }

  /** Some walk from just after instruction k of block b meets a load of v before any store to v. */
  ghost predicate LiveAfter(p: Program, b: nat, k: nat, v: nat)
    requires p.Valid() && b < |p.succs| && k < |p.code[b]|
  {
    exists w :: Continues(p, b, w) && Exposed(p.code[b][k + 1..] + Trace(p, w), v)
  }

  lemma LiveAtEndByWalk(p: Program, b: nat, v: nat)
    requires p.Valid() && b < |p.succs|
    ensures LiveAtEnd(p, b, v) <==> exists w :: Continues(p, b, w) && Exposed(Trace(p, w), v)
  {
    if LiveAtEnd(p, b, v) {
      var s :| s in p.succs[b] && LiveAtStart(p, s, v);
      var w :| w != [] && w[0] == s && Walk(p, w) && Exposed(Trace(p, w), v);
      assert Continues(p, b, w);
    }
    if w :| Continues(p, b, w) && Exposed(Trace(p, w), v) {
      assert LiveAtStart(p, w[0], v);
    }
  }

  lemma LiveAtStartUnfolds(p: Program, b: nat, v: nat)
    requires p.Valid() && b < |p.succs|
    ensures LiveAtStart(p, b, v) <==> Exposed(p.code[b], v) || (!Stores(p.code[b], v) && LiveAtEnd(p, b, v))
  {
    LiveAtEndByWalk(p, b, v);
    if LiveAtStart(p, b, v) {
      var w :| w != [] && w[0] == b && Walk(p, w) && Exposed(Trace(p, w), v);
      ExposedConcat(p.code[b], Trace(p, w[1..]), v);
      assert Continues(p, b, w[1..]);
    }
    if Exposed(p.code[b], v) {
      assert Trace(p, [b]) == p.code[b] + Trace(p, []);
      ExposedConcat(p.code[b], [], v);
      assert Walk(p, [b]);
    } else if !Stores(p.code[b], v) && LiveAtEnd(p, b, v) {
      var w :| Continues(p, b, w) && Exposed(Trace(p, w), v);
      assert ([b] + w)[1..] == w;
      ExposedConcat(p.code[b], Trace(p, w), v);
      assert Walk(p, [b] + w);
    }
  }

  lemma LiveAfterUnfolds(p: Program, b: nat, k: nat, v: nat)
    requires p.Valid() && b < |p.succs| && k < |p.code[b]|
    ensures LiveAfter(p, b, k, v) <==>
            Exposed(p.code[b][k + 1..], v) || (!Stores(p.code[b][k + 1..], v) && LiveAtEnd(p, b, v))
  {
    var rest := p.code[b][k + 1..];
    LiveAtEndByWalk(p, b, v);
    if LiveAfter(p, b, k, v) {
      var w :| Continues(p, b, w) && Exposed(rest + Trace(p, w), v);
      ExposedConcat(rest, Trace(p, w), v);
    }
    if Exposed(rest, v) {
      ExposedConcat(rest, Trace(p, []), v);
      assert Continues(p, b, []);
    } else if !Stores(rest, v) && LiveAtEnd(p, b, v) {
      var w :| Continues(p, b, w) && Exposed(Trace(p, w), v);
      ExposedConcat(rest, Trace(p, w), v);
    }
  }

  // ----- the data-flow equations, for the variables below n

  /** live_out is the union over the successors, live_in what is exposed or passes through. */
  ghost predicate Solves(p: Program, n: nat, liveIn: seq<set<nat>>, liveOut: seq<set<nat>>)
    requires p.Valid()
  {
    && |liveIn| == |liveOut| == |p.succs|
    && (forall b, v: nat :: 0 <= b < |p.succs| ==> (v in liveOut[b] <==> InSomeSuccessor(p, liveIn, b, v)))
    && (forall b, v: nat :: 0 <= b < |p.succs| ==>
          (v in liveIn[b] <==> v < n && (Exposed(p.code[b], v) || (v in liveOut[b] && !Stores(p.code[b], v)))))
  }

  ghost predicate InSomeSuccessor(p: Program, liveIn: seq<set<nat>>, b: nat, v: nat)
    requires p.Valid() && b < |p.succs| == |liveIn|
  {
    exists s :: s in p.succs[b] && v in liveIn[s]
  }

  /** Every solution contains what is live along some walk. */
  lemma {:induction false} SolutionsContainLive(p: Program, n: nat, liveIn: seq<set<nat>>, liveOut: seq<set<nat>>,
          w: seq<nat>, v: nat)
    requires p.Valid() && Solves(p, n, liveIn, liveOut) && v < n
    requires w != [] && Walk(p, w) && Exposed(Trace(p, w), v)
    ensures v in liveIn[w[0]]
    decreases |w|
  {
    var b := w[0];
    ExposedConcat(p.code[b], Trace(p, w[1..]), v);
    if !Exposed(p.code[b], v) {
      assert w[1..] != [];
      SolutionsContainLive(p, n, liveIn, liveOut, w[1..], v);
      assert w[1] in p.succs[b];
      assert InSomeSuccessor(p, liveIn, b, v);
    }
  }

  /** liveIn and liveOut are exactly liveness. */
  ghost predicate IsLiveness(p: Program, n: nat, liveIn: seq<set<nat>>, liveOut: seq<set<nat>>)
    requires p.Valid()
  {
    && |liveIn| == |liveOut| == |p.succs|
    && (forall b: nat, v: nat :: b < |p.succs| ==> (v in liveIn[b] <==> v < n && LiveAtStart(p, b, v)))
    && (forall b: nat, v: nat :: b < |p.succs| ==> (v in liveOut[b] <==> v < n && LiveAtEnd(p, b, v)))
  }

  ghost predicate PointwiseBelow(x: seq<set<nat>>, y: seq<set<nat>>) {
    |x| == |y| && forall b :: 0 <= b < |x| ==> x[b] <= y[b]
  }

  /** A solution that holds nothing but live variables is exactly liveness, and the least solution. */
  lemma SoundSolutionIsLiveness(p: Program, n: nat, liveIn: seq<set<nat>>, liveOut: seq<set<nat>>)
    requires p.Valid() && Solves(p, n, liveIn, liveOut)
    requires forall b: nat, v: nat :: b < |p.succs| && v in liveIn[b] ==> LiveAtStart(p, b, v)
    ensures IsLiveness(p, n, liveIn, liveOut)
    ensures forall in', out' :: Solves(p, n, in', out') ==> PointwiseBelow(liveIn, in') && PointwiseBelow(liveOut, out')
  {
    forall b: nat, v: nat, in', out' | b < |p.succs| && v < n && LiveAtStart(p, b, v) && Solves(p, n, in', out')
      ensures v in in'[b]
    {
      var w :| w != [] && w[0] == b && Walk(p, w) && Exposed(Trace(p, w), v);
      SolutionsContainLive(p, n, in', out', w, v);
    }
    forall b: nat, v: nat | b < |p.succs|
      ensures v in liveOut[b] <==> v < n && LiveAtEnd(p, b, v)
    {
      assert v in liveOut[b] <==> InSomeSuccessor(p, liveIn, b, v);
    }
    forall in', out', b | Solves(p, n, in', out') && 0 <= b < |p.succs|
      ensures liveIn[b] <= in'[b] && liveOut[b] <= out'[b]
    {
      forall v | v in liveOut[b]
        ensures v in out'[b]
      {
        var s :| s in p.succs[b] && v in liveIn[s];
        assert InSomeSuccessor(p, in', b, v);
      }
    }
  }
}
