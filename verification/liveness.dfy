/** The liveness analysis: block-local sets and flags, the fixpoint loop, and the queries built on it. */
module Liveness {
  import opened BitVectors
  import opened Flow

  /** The is_last and is_dead marks of a load or store. */
  datatype Flags = Flags(isLast: bool, isDead: bool)

  /** The marks the backward scan leaves on instruction i, given the instructions that follow it. */
  ghost function FlagsFor(i: Instr, rest: Code, n: nat): Flags {
    match i
    case Load(v) => Flags(v < n && !Loads(rest, v), false)
    case Store(v) =>
      Flags(v < n && !Stores(rest, v) && !Exposed(rest, v), v < n && Stores(rest, v) && !Exposed(rest, v))
    case Neutral => Flags(false, false)
  }

  ghost predicate Scanned(code: Code, flags: seq<Flags>, n: nat) {
    |flags| == |code| && forall k :: 0 <= k < |code| ==> flags[k] == FlagsFor(code[k], code[k + 1..], n)
  }

  ghost function ExposedIn(code: Code, n: nat): set<nat> {
    set v: nat | v < n && Exposed(code, v)
  }

  ghost function StoredIn(code: Code, n: nat): set<nat> {
    set v: nat | v < n && Stores(code, v)
  }

  ghost function LoadedIn(code: Code, n: nat): set<nat> {
    set v: nat | v < n && Loads(code, v)
  }

  lemma OneMoreInstruction(i: Instr, rest: Code, n: nat)
    ensures LoadedIn([i] + rest, n) == LoadedIn(rest, n) + (if i.Load? && i.v < n then {i.v} else {})
    ensures StoredIn([i] + rest, n) == StoredIn(rest, n) + (if i.Store? && i.v < n then {i.v} else {})
    ensures ExposedIn([i] + rest, n) ==
            ExposedIn(rest, n) +
                (if i.Load? && i.v < n then {i.v} else {}) - (if i.Store? && i.v < n then {i.v} else {})
  {
    assert ([i] + rest)[1..] == rest;
  }

  /** One block of variable_liveness_compute_initial_sets, from its last instruction back to the entry. In the
      source a load adds a boxed index to the list of live-in vectors instead of setting the bit, and both
      index tests compare with the number of blocks; here the bit is set, and the test is against the number
      of variables. */
  method ScanBlock(code: Code, n: nat, liveIn: BitVector, kill: BitVector) returns (flags: seq<Flags>)
    requires liveIn.data != kill.data
    requires n <= BITS_PER_WORD * liveIn.data.Length && n <= BITS_PER_WORD * kill.data.Length
    requires liveIn.Contents() == {} && kill.Contents() == {}
    modifies liveIn.data, kill.data
    ensures liveIn.Contents() == ExposedIn(code, n) && kill.Contents() == StoredIn(code, n)
    ensures Scanned(code, flags, n)
  {
    var loads := new BitVector(n);
    flags := [];
    ghost var rest: Code := [];
    var k := |code|;
    while k > 0
      invariant 0 <= k <= |code| && rest == code[k..]
      invariant fresh(loads.data) && n <= BITS_PER_WORD * loads.data.Length
      invariant loads.Contents() == LoadedIn(rest, n)
      invariant liveIn.Contents() == ExposedIn(rest, n) && kill.Contents() == StoredIn(rest, n)
      invariant Scanned(rest, flags, n)
    {
      k := k - 1;
      var flag := ScanInstruction(code[k], rest, n, loads, liveIn, kill);
      ScannedOneMore(code[k], rest, flag, flags, n);
      flags := [flag] + flags;
      rest := [code[k]] + rest;
    }
  }

  lemma ScannedOneMore(i: Instr, rest: Code, flag: Flags, flags: seq<Flags>, n: nat)
    requires Scanned(rest, flags, n) && flag == FlagsFor(i, rest, n)
    ensures Scanned([i] + rest, [flag] + flags, n)
  {
    var code := [i] + rest;
    assert code[1..] == rest;
    forall k | 0 < k < |code|
      ensures ([flag] + flags)[k] == FlagsFor(code[k], code[k + 1..], n)
    {
      assert code[k + 1..] == rest[k..];
    }
  }

  method ScanInstruction(i: Instr, ghost rest: Code, n: nat, loads: BitVector, liveIn: BitVector,
          kill: BitVector) returns (flag: Flags)
    requires liveIn.data != kill.data && loads.data != kill.data && loads.data != liveIn.data
    requires n <= BITS_PER_WORD * liveIn.data.Length && n <= BITS_PER_WORD * kill.data.Length &&
             n <= BITS_PER_WORD * loads.data.Length
    requires loads.Contents() == LoadedIn(rest, n)
    requires liveIn.Contents() == ExposedIn(rest, n) && kill.Contents() == StoredIn(rest, n)
    modifies loads.data, liveIn.data, kill.data
    ensures flag == FlagsFor(i, rest, n)
    ensures loads.Contents() == LoadedIn([i] + rest, n)
    ensures liveIn.Contents() == ExposedIn([i] + rest, n) && kill.Contents() == StoredIn([i] + rest, n)
  {
    OneMoreInstruction(i, rest, n);
    flag := Flags(false, false);
    if i.Load? {
      var index := i.v;
      if index >= n { return; }
      liveIn.Add(index);
      if !loads.Contains(index) {
        loads.Add(index);
        flag := flag.(isLast := true);
      }
    } else if i.Store? {
      var index := i.v;
      if index >= n { return; }
      if kill.Contains(index) {
        if !liveIn.Contains(index) { flag := flag.(isDead := true); }
      } else {
        if !liveIn.Contains(index) { flag := flag.(isLast := true); }
        kill.Add(index);
      }
      liveIn.Remove(index);
    }
  }

  // ----- the fixpoint, on sets

  /** What holds throughout the iteration, although live-in is recomputed only when live-out changed: live-in
      is always what live-out determines, live-out holds nothing that is not live-in at a successor, and
      nothing is in the sets that is not live. */
  ghost predicate Consistent(p: Program, n: nat, ins: seq<set<nat>>, outs: seq<set<nat>>)
    requires p.Valid()
  {
    && |ins| == |outs| == |p.succs|
    && (forall b :: 0 <= b < |p.succs| ==> ins[b] == ExposedIn(p.code[b], n) + (outs[b] - StoredIn(p.code[b], n)))
    && (forall b, v: nat :: 0 <= b < |p.succs| && v in outs[b] ==> InSomeSuccessor(p, ins, b, v))
    && (forall b: nat, v: nat :: b < |p.succs| && v in ins[b] ==> v < n && LiveAtStart(p, b, v))
  }

  /** The first k blocks have taken over everything live-in at their successors. */
  ghost predicate Settled(p: Program, ins: seq<set<nat>>, outs: seq<set<nat>>, k: nat)
    requires p.Valid() && |ins| == |outs| == |p.succs| && k <= |p.succs|
  {
    forall b, v: nat :: 0 <= b < k && InSomeSuccessor(p, ins, b, v) ==> v in outs[b]
  }

  ghost function SuccessorsIn(p: Program, ins: seq<set<nat>>, b: nat, k: nat): set<nat>
    requires p.Valid() && b < |p.succs| == |ins| && k <= |p.succs[b]|
  {
    if k == 0 then {}
    else
      assert p.succs[b][k - 1] in p.succs[b];
      SuccessorsIn(p, ins, b, k - 1) + ins[p.succs[b][k - 1]]
  }

  lemma {:induction false} SuccessorsInMembers(p: Program, ins: seq<set<nat>>, b: nat, k: nat, v: nat)
    requires p.Valid() && b < |p.succs| == |ins| && k <= |p.succs[b]|
    ensures v in SuccessorsIn(p, ins, b, k) <==>
            exists i :: 0 <= i < k && p.succs[b][i] < |ins| && v in ins[p.succs[b][i]]
    decreases k
  {
    if k > 0 {
      assert p.succs[b][k - 1] in p.succs[b];
      SuccessorsInMembers(p, ins, b, k - 1, v);
    }
  }

  lemma SuccessorsInAll(p: Program, ins: seq<set<nat>>, b: nat, v: nat)
    requires p.Valid() && b < |p.succs| == |ins|
    ensures v in SuccessorsIn(p, ins, b, |p.succs[b]|) <==> InSomeSuccessor(p, ins, b, v)
  {
    SuccessorsInMembers(p, ins, b, |p.succs[b]|, v);
    if InSomeSuccessor(p, ins, b, v) {
      var s :| s in p.succs[b] && v in ins[s];
      var i :| 0 <= i < |p.succs[b]| && p.succs[b][i] == s;
    }
  }

  /** update_live_out */
  ghost function NewOut(p: Program, ins: seq<set<nat>>, outs: seq<set<nat>>, b: nat): set<nat>
    requires p.Valid() && b < |p.succs| == |ins| == |outs|
  {
    outs[b] + SuccessorsIn(p, ins, b, |p.succs[b]|)
  }

  /** update_live_in, given the new live-out */
  ghost function NewIn(p: Program, n: nat, ins: seq<set<nat>>, out: set<nat>, b: nat): set<nat>
    requires p.Valid() && b < |p.succs| == |ins|
  {
    ins[b] + (out - StoredIn(p.code[b], n))
  }

  lemma UpdateKeepsConsistent(p: Program, n: nat, ins: seq<set<nat>>, outs: seq<set<nat>>, b: nat)
    requires p.Valid() && Consistent(p, n, ins, outs) && b < |p.succs|
    ensures var out := NewOut(p, ins, outs, b);
            Consistent(p, n, ins[b := NewIn(p, n, ins, out, b)], outs[b := out])
    ensures NewOut(p, ins, outs, b) == outs[b] ==> NewIn(p, n, ins, outs[b], b) == ins[b]
  {
    var out := NewOut(p, ins, outs, b);
    var ins' := ins[b := NewIn(p, n, ins, out, b)];
    forall c, v: nat | 0 <= c < |p.succs| && v in outs[b := out][c]
      ensures InSomeSuccessor(p, ins', c, v)
    {
      SuccessorsInAll(p, ins, b, v);
      assert InSomeSuccessor(p, ins, c, v);
      var s :| s in p.succs[c] && v in ins[s];
      assert v in ins'[s];
    }
    forall v: nat | v in ins'[b] && v !in ins[b]
      ensures v < n && LiveAtStart(p, b, v)
    {
      SuccessorsInAll(p, ins, b, v);
      var s :| s in p.succs[b] && v in ins[s];
      assert LiveAtEnd(p, b, v);
      LiveAtStartUnfolds(p, b, v);
    }
  }

  lemma UpdateSettles(p: Program, n: nat, ins: seq<set<nat>>, outs: seq<set<nat>>, b: nat)
    requires p.Valid() && |ins| == |outs| == |p.succs| && b < |p.succs| && Settled(p, ins, outs, b)
    ensures Settled(p, ins, outs[b := NewOut(p, ins, outs, b)], b + 1)
  {
    forall v: nat | InSomeSuccessor(p, ins, b, v)
      ensures v in NewOut(p, ins, outs, b)
    {
      SuccessorsInAll(p, ins, b, v);
    }
  }

  lemma SettledSolves(p: Program, n: nat, ins: seq<set<nat>>, outs: seq<set<nat>>)
    requires p.Valid() && Consistent(p, n, ins, outs) && Settled(p, ins, outs, |p.succs|)
    ensures Solves(p, n, ins, outs)
  {
    forall b, v: nat | 0 <= b < |p.succs| && v in outs[b]
      ensures v < n
    {
      assert InSomeSuccessor(p, ins, b, v);
      var s :| s in p.succs[b] && v in ins[s];
    }
  }

  /** The pairs the live-in sets could still grow by. */
  ghost function Missing(n: nat, ins: seq<set<nat>>): set<(nat, nat)> {
    set b: nat, v: nat | b < |ins| && v < n && v !in ins[b] :: (b, v)
  }

  lemma GrowthShrinksMissing(p: Program, n: nat, ins: seq<set<nat>>, b: nat, x: set<nat>)
    requires b < |ins| && ins[b] <= x && forall v :: v in x ==> v < n
    ensures Missing(n, ins[b := x]) <= Missing(n, ins)
    ensures x != ins[b] ==> Missing(n, ins[b := x]) < Missing(n, ins)
  {
    if x != ins[b] {
      var v :| v in x && v !in ins[b];
      assert (b, v) in Missing(n, ins) && (b, v) !in Missing(n, ins[b := x]);
    }
  }

  ghost function NextOuts(p: Program, ins: seq<set<nat>>, outs: seq<set<nat>>, b: nat): seq<set<nat>>
    requires p.Valid() && b < |p.succs| == |ins| == |outs|
  {
    outs[b := NewOut(p, ins, outs, b)]
  }

  ghost function NextIns(p: Program, n: nat, ins: seq<set<nat>>, outs: seq<set<nat>>, b: nat): seq<set<nat>>
    requires p.Valid() && b < |p.succs| == |ins| == |outs|
  {
    ins[b := NewIn(p, n, ins, NewOut(p, ins, outs, b), b)]
  }

  /** What a pass from ins has achieved after k blocks. */
  ghost predicate PassResult(p: Program, n: nat, ins: seq<set<nat>>, ins': seq<set<nat>>, outs': seq<set<nat>>,
          changed: bool, k: nat)
    requires p.Valid() && k <= |p.succs|
  {
    && Consistent(p, n, ins', outs')
    && Missing(n, ins') <= Missing(n, ins)
    && (changed ==> Missing(n, ins') < Missing(n, ins))
    && (!changed ==> ins' == ins && Settled(p, ins', outs', k))
  }

  lemma BlockStep(p: Program, n: nat, ins0: seq<set<nat>>, ins: seq<set<nat>>, outs: seq<set<nat>>, changed: bool,
          b: nat)
    requires p.Valid() && b < |p.succs| && PassResult(p, n, ins0, ins, outs, changed, b)
    ensures NewOut(p, ins, outs, b) == outs[b] ==> NewIn(p, n, ins, outs[b], b) == ins[b]
    ensures PassResult(p, n, ins0, NextIns(p, n, ins, outs, b), NextOuts(p, ins, outs, b),
                       changed || NextIns(p, n, ins, outs, b) != ins, b + 1)
  {
    UpdateKeepsConsistent(p, n, ins, outs, b);
    GrowthShrinksMissing(p, n, ins, b, NextIns(p, n, ins, outs, b)[b]);
    if !changed && NextIns(p, n, ins, outs, b) == ins {
      UpdateSettles(p, n, ins, outs, b);
    }
  }

  // ----- the analysis object

  /** The vectors hold the given sets. */
  ghost predicate Holds(vectors: seq<BitVector>, sets: seq<set<nat>>)
    reads set x | x in vectors :: x.data
  {
    |vectors| == |sets| && forall b :: 0 <= b < |vectors| ==> vectors[b].Contents() == sets[b]
  }

  ghost predicate Apart(xs: seq<BitVector>, ys: seq<BitVector>) {
    forall i, j :: 0 <= i < |xs| && 0 <= j < |ys| ==> xs[i].data != ys[j].data
  }

  class LivenessAnalysis {
    const program: Program
    const numVars: nat
    const liveOut: seq<BitVector>
    const liveIn: seq<BitVector>
    const kill: seq<BitVector>
    var flags: seq<seq<Flags>>

    ghost predicate Valid() {
      && program.Valid()
      && |liveOut| == |liveIn| == |kill| == |program.succs|
      && Separate(liveOut, numVars) && Separate(liveIn, numVars) && Separate(kill, numVars)
      && Apart(liveOut, liveIn) && Apart(liveOut, kill) && Apart(liveIn, kill)
    }

    /** liveness_init, and the empty vectors liveness_analyze starts from. */
    constructor (program: Program, numVars: nat)
      requires program.Valid()
      ensures this.program == program && this.numVars == numVars && Valid()
      ensures forall b :: 0 <= b < |program.succs| ==>
                fresh(liveIn[b].data) && fresh(liveOut[b].data) && fresh(kill[b].data) &&
                liveIn[b].Contents() == {} && liveOut[b].Contents() == {} && kill[b].Contents() == {}
    {
      var outs := NewVectors(|program.succs|, numVars);
      var kills := NewVectors(|program.succs|, numVars);
      var ins := NewVectors(|program.succs|, numVars);
      this.program, this.numVars, flags := program, numVars, [];
      liveOut, kill, liveIn := outs, kills, ins;
    }

    /** update_live_out */
    method UpdateLiveOut(b: nat, ghost ins: seq<set<nat>>, ghost outs: seq<set<nat>>) returns (changed: bool)
      requires Valid() && b < |program.succs| && Holds(liveIn, ins) && Holds(liveOut, outs)
      modifies liveOut[b].data
      ensures Holds(liveIn, ins) && Holds(liveOut, outs[b := NewOut(program, ins, outs, b)])
      ensures changed <==> NewOut(program, ins, outs, b) != outs[b]
    {
      changed := false;
      var successors := program.succs[b];
      for i := 0 to |successors|
        invariant liveOut[b].Contents() == outs[b] + SuccessorsIn(program, ins, b, i)
        invariant changed <==> liveOut[b].Contents() != outs[b]
      {
        assert successors[i] in successors;
        assert liveIn[successors[i]].Contents() == ins[successors[i]];
        var c := liveOut[b].AddAll(liveIn[successors[i]]);
        if c { changed := true; }
      }
    }

    /** update_live_in */
    method UpdateLiveIn(b: nat, ghost ins: seq<set<nat>>, ghost outs: seq<set<nat>>,
            ghost kills: seq<set<nat>>) returns (changed: bool)
      requires Valid() && b < |program.succs| && Holds(liveIn, ins) && Holds(liveOut, outs) && Holds(kill, kills)
      requires kills[b] == StoredIn(program.code[b], numVars)
      modifies liveIn[b].data
      ensures Holds(liveIn, ins[b := NewIn(program, numVars, ins, outs[b], b)])
      ensures changed <==> NewIn(program, numVars, ins, outs[b], b) != ins[b]
    {
      changed := liveIn[b].KillAndAdd(kill[b], liveOut[b]);
    }

    /** One block of a pass: live-in is recomputed only if live-out changed. */
    method UpdateBlock(b: nat, ghost ins: seq<set<nat>>, ghost outs: seq<set<nat>>,
            ghost kills: seq<set<nat>>) returns (changed: bool)
      requires Valid() && b < |program.succs| && kills == KillSets(program, numVars)
      requires Holds(liveIn, ins) && Holds(liveOut, outs) && Holds(kill, kills)
      requires NewOut(program, ins, outs, b) == outs[b] ==> NewIn(program, numVars, ins, outs[b], b) == ins[b]
      modifies liveIn[b].data, liveOut[b].data
      ensures Holds(liveIn, NextIns(program, numVars, ins, outs, b)) && Holds(liveOut, NextOuts(program, ins, outs, b))
      ensures Holds(kill, kills)
      ensures changed <==> NextIns(program, numVars, ins, outs, b) != ins
    {
      changed := UpdateLiveOut(b, ins, outs);
      if changed {
        changed := UpdateLiveIn(b, ins, NextOuts(program, ins, outs, b), kills);
      }
    }

    /** One pass over the blocks in postorder. */
    method Pass(ghost ins: seq<set<nat>>, ghost outs: seq<set<nat>>, ghost kills: seq<set<nat>>)
      returns (changed: bool, ghost ins': seq<set<nat>>, ghost outs': seq<set<nat>>)
      requires Valid() && Consistent(program, numVars, ins, outs) && kills == KillSets(program, numVars)
      requires Holds(liveIn, ins) && Holds(liveOut, outs) && Holds(kill, kills)
      modifies set x | x in liveIn :: x.data, set x | x in liveOut :: x.data
      ensures Holds(liveIn, ins') && Holds(liveOut, outs') && Holds(kill, kills)
      ensures PassResult(program, numVars, ins, ins', outs', changed, |program.succs|)
    {
      changed := false;
      ins', outs' := ins, outs;
      for b := 0 to |program.succs|
        invariant Holds(liveIn, ins') && Holds(liveOut, outs') && Holds(kill, kills)
        invariant PassResult(program, numVars, ins, ins', outs', changed, b)
      {
        assert liveIn[b] in liveIn && liveOut[b] in liveOut;
        BlockStep(program, numVars, ins, ins', outs', changed, b);
        var c := UpdateBlock(b, ins', outs', kills);
        ins', outs' := NextIns(program, numVars, ins', outs', b), NextOuts(program, ins', outs', b);
        if c { changed := true; }
      }
    }

    /** liveness_compute_live_sets: passes until nothing changes. */
    method ComputeLiveSets(ghost ins0: seq<set<nat>>, ghost outs0: seq<set<nat>>, ghost kills: seq<set<nat>>)
      returns (ghost ins: seq<set<nat>>, ghost outs: seq<set<nat>>)
      requires Valid() && Consistent(program, numVars, ins0, outs0)
      requires Holds(liveIn, ins0) && Holds(liveOut, outs0) && Holds(kill, kills)
      requires kills == KillSets(program, numVars)
      modifies set x | x in liveIn :: x.data, set x | x in liveOut :: x.data
      ensures Holds(liveIn, ins) && Holds(liveOut, outs) && Holds(kill, kills)
      ensures Consistent(program, numVars, ins, outs) && Settled(program, ins, outs, |program.succs|)
    {
      var changed := true;
      ins, outs := ins0, outs0;
      while changed
        invariant Holds(liveIn, ins) && Holds(liveOut, outs) && Holds(kill, kills)
        invariant Consistent(program, numVars, ins, outs)
        invariant !changed ==> Settled(program, ins, outs, |program.succs|)
        decreases Missing(numVars, ins), changed
      {
        changed, ins, outs := Pass(ins, outs, kills);
      }
    }

    /** liveness_analyze: the block-local sets, then the fixpoint. */
    method Analyze() returns (ghost ins: seq<set<nat>>, ghost outs: seq<set<nat>>)
      requires Valid()
      requires forall b :: 0 <= b < |program.succs| ==>
                 liveIn[b].Contents() == {} && liveOut[b].Contents() == {} && kill[b].Contents() == {}
      modifies this`flags, set x | x in liveIn :: x.data, set x | x in liveOut :: x.data, set x | x in kill :: x.data
      ensures Holds(liveIn, ins) && Holds(liveOut, outs) && Holds(kill, KillSets(program, numVars))
      ensures IsLiveness(program, numVars, ins, outs) && IsLeastSolution(program, numVars, ins, outs)
      ensures AllScanned(program, flags, numVars)
    {
      InitialSets();
      ins, outs := ExposedSets(program, numVars), seq(|program.succs|, _ => {});
      InitiallyConsistent(program, numVars);
      ins, outs := ComputeLiveSets(ins, outs, KillSets(program, numVars));
      SettledSolves(program, numVars, ins, outs);
      SoundSolutionIsLiveness(program, numVars, ins, outs);
    }

    /** variable_liveness_compute_initial_sets */
    method InitialSets()
      requires Valid()
      requires forall b :: 0 <= b < |program.succs| ==> liveIn[b].Contents() == {} && kill[b].Contents() == {}
      modifies this`flags, set x | x in liveIn :: x.data, set x | x in kill :: x.data
      ensures Holds(liveIn, ExposedSets(program, numVars)) && Holds(kill, KillSets(program, numVars))
      ensures AllScanned(program, flags, numVars)
    {
      flags := [];
      ghost var ins, kills := ExposedSets(program, numVars), KillSets(program, numVars);
      for b := 0 to |program.succs|
        invariant |flags| == b && forall c :: 0 <= c < b ==> Scanned(program.code[c], flags[c], numVars)
        invariant Holds(liveIn, FirstOnly(ins, b)) && Holds(kill, FirstOnly(kills, b))
      {
        assert liveIn[b] in liveIn && kill[b] in kill;
        InitialBlock(b, ins, kills);
      }
    }

    /** One block, among vectors that hold the first b live-in and kill sets. */
    method InitialBlock(b: nat, ghost ins: seq<set<nat>>, ghost kills: seq<set<nat>>)
      requires Valid() && b < |program.succs| && Holds(liveIn, FirstOnly(ins, b)) && Holds(kill, FirstOnly(kills, b))
      requires ins[b] == ExposedIn(program.code[b], numVars) && kills[b] == StoredIn(program.code[b], numVars)
      modifies this`flags, liveIn[b].data, kill[b].data
      ensures Holds(liveIn, FirstOnly(ins, b + 1)) && Holds(kill, FirstOnly(kills, b + 1))
      ensures exists f :: flags == old(flags) + [f] && Scanned(program.code[b], f, numVars)
    {
      var f := ScanBlock(program.code[b], numVars, liveIn[b], kill[b]);
      flags := flags + [f];
    }

    /** variable_liveness_is_store_alive */
    method IsStoreAlive(b: nat, k: nat) returns (alive: bool)
      requires Valid() && b < |program.succs| == |flags| && k < |program.code[b]| == |flags[b]|
      requires program.code[b][k].Store? && program.code[b][k].v < numVars
      ensures alive <==> StoreAlive(flags[b][k], program.code[b][k].v in liveOut[b].Contents())
    {
      if flags[b][k].isDead { return false; }
      if flags[b][k].isLast {
        return liveOut[b].Contains(program.code[b][k].v);
      }
      return true;
    }

    /** variable_liveness_is_last_load. The source looks in the live-in set of the block. */
    method IsLastLoad(b: nat, k: nat) returns (last: bool)
      requires Valid() && b < |program.succs| == |flags| && k < |program.code[b]| == |flags[b]|
      requires program.code[b][k].Load? && program.code[b][k].v < numVars
      ensures last <==> LastLoad(flags[b][k], program.code[b][k].v in liveOut[b].Contents())
    {
      return flags[b][k].isLast && !liveOut[b].Contains(program.code[b][k].v);
    }

    /** variable_liveness_compute_assigned: the kill sets, cut down in place to what is live-out, in the given
        block order. */
    method ComputeAssigned(order: seq<nat>) returns (assignedVars: seq<BitVector>)
      requires Valid()
      requires forall i :: 0 <= i < |order| ==> order[i] < |program.succs|
      requires forall i, j :: 0 <= i < j < |order| ==> order[i] != order[j]
      modifies set x | x in kill :: x.data
      ensures |assignedVars| == |order|
      ensures forall i :: 0 <= i < |order| ==> assignedVars[i] == kill[order[i]]
      ensures forall i :: 0 <= i < |order| ==>
                assignedVars[i].Contents() == old(kill[order[i]].Contents()) * liveOut[order[i]].Contents()
    {
      assignedVars := [];
      for i := 0 to |order|
        invariant |assignedVars| == i && forall j :: 0 <= j < i ==> assignedVars[j] == kill[order[j]]
        invariant forall j :: 0 <= j < |order| ==>
                    kill[order[j]].Contents() ==
                    if j < i then old(kill[order[j]].Contents()) * liveOut[order[j]].Contents()
                        else old(kill[order[j]].Contents())
      {
        assert kill[order[i]] in kill;
        kill[order[i]].Intersect(liveOut[order[i]]);
        assignedVars := assignedVars + [kill[order[i]]];
      }
    }
  }

  /** What is_store_alive computes from the marks and from membership in live-out. */
  predicate StoreAlive(f: Flags, liveOut: bool) {
    !f.isDead && (f.isLast ==> liveOut)
  }

  predicate LastLoad(f: Flags, liveOut: bool) {
    f.isLast && !liveOut
  }

  ghost predicate AllScanned(p: Program, flags: seq<seq<Flags>>, n: nat)
    requires |p.code| == |p.succs|
  {
    |flags| == |p.succs| && forall b :: 0 <= b < |p.succs| ==> Scanned(p.code[b], flags[b], n)
  }

  ghost predicate IsLeastSolution(p: Program, n: nat, ins: seq<set<nat>>, outs: seq<set<nat>>)
    requires p.Valid()
  {
    && Solves(p, n, ins, outs)
    && forall in', out' :: Solves(p, n, in', out') ==> PointwiseBelow(ins, in') && PointwiseBelow(outs, out')
  }

  ghost function ExposedSets(p: Program, n: nat): seq<set<nat>> {
    seq(|p.code|, b requires 0 <= b < |p.code| => ExposedIn(p.code[b], n))
  }

  /** The first n of the sets, and empty ones. */
  ghost function FirstOnly(sets: seq<set<nat>>, n: nat): seq<set<nat>> {
    seq(|sets|, b requires 0 <= b < |sets| => if b < n then sets[b] else {})
  }

  lemma InitiallyConsistent(p: Program, n: nat)
    requires p.Valid()
    ensures Consistent(p, n, ExposedSets(p, n), seq(|p.succs|, _ => {}))
  {
    var ins := ExposedSets(p, n);
    forall b: nat, v: nat | b < |p.succs| && v in ins[b]
      ensures v < n && LiveAtStart(p, b, v)
    {
      LiveAtStartUnfolds(p, b, v);
    }
  }

  // ----- what the queries mean

  /** A store is reported alive exactly when some walk from just after it reaches a load of its variable
      before another store. */
  lemma StoreAliveMeansLive(p: Program, n: nat, flags: seq<seq<Flags>>, ins: seq<set<nat>>, outs: seq<set<nat>>,
          b: nat, k: nat)
    requires p.Valid() && AllScanned(p, flags, n) && IsLiveness(p, n, ins, outs)
    requires b < |p.succs| && k < |p.code[b]| && p.code[b][k].Store? && p.code[b][k].v < n
    ensures var v := p.code[b][k].v;
            StoreAlive(flags[b][k], v in outs[b]) <==> LiveAfter(p, b, k, v)
  {
    var v := p.code[b][k].v;
    LiveAfterUnfolds(p, b, k, v);
    ExposedLoads(p.code[b][k + 1..], v);
    assert flags[b][k] == FlagsFor(p.code[b][k], p.code[b][k + 1..], n);
  }

  /** A load is reported last only if no walk from just after it reaches another load before a store; and
      when no store to the variable follows in its block, every such load is reported. */
  lemma LastLoadMeansDead(p: Program, n: nat, flags: seq<seq<Flags>>, ins: seq<set<nat>>, outs: seq<set<nat>>, b: nat,
          k: nat)
    requires p.Valid() && AllScanned(p, flags, n) && IsLiveness(p, n, ins, outs)
    requires b < |p.succs| && k < |p.code[b]| && p.code[b][k].Load? && p.code[b][k].v < n
    ensures var v := p.code[b][k].v;
            && (LastLoad(flags[b][k], v in outs[b]) ==> !LiveAfter(p, b, k, v))
            && (!Stores(p.code[b][k + 1..], v) ==> (LastLoad(flags[b][k], v in outs[b]) <==> !LiveAfter(p, b, k, v)))
  {
    var v := p.code[b][k].v;
    LiveAfterUnfolds(p, b, k, v);
    ExposedLoads(p.code[b][k + 1..], v);
    assert flags[b][k] == FlagsFor(p.code[b][k], p.code[b][k + 1..], n);
  }

  ghost function KillSets(p: Program, n: nat): seq<set<nat>> {
    seq(|p.code|, b requires 0 <= b < |p.code| => StoredIn(p.code[b], n))
  }
}
