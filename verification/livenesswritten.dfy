/** The liveness analysis as written. A load puts its index at the end of the list of live-in vectors, where it
    should set a bit; and both index tests compare with the length of that list. Live-in and live-out then stay
    empty, and every query and the assigned sets are read off empty sets. */
module LivenessAsWritten {
  import opened BitVectors
  import opened DeadStores
  import opened Flow
  import opened Liveness

  // ----- the list of vectors grows

  /** The length of the list after the backward scan of code, if it was size before. */
  function SizeAfter(code: Code, size: nat): nat {
    if code == [] then size
    else
      var s := SizeAfter(code[1..], size);
      if code[0].Load? && code[0].v < s then s + 1 else s
  }

  lemma {:induction false} SizeGrows(code: Code, size: nat)
    ensures size <= SizeAfter(code, size)
  {
    if code != [] {
      SizeGrows(code[1..], size);
    }
  }

  /** The length of the list when the scan comes to block b: one vector per block, and what earlier blocks
      added. */
  function SizeBefore(p: Program, b: nat): nat
    requires p.Valid() && b <= |p.succs|
  {
    if b == 0 then |p.succs| else SizeAfter(p.code[b - 1], SizeBefore(p, b - 1))
  }

  lemma {:induction false} SizeBeforeGrows(p: Program, b: nat)
    requires p.Valid() && b <= |p.succs|
    ensures |p.succs| <= SizeBefore(p, b)
  {
    if b > 0 {
      SizeBeforeGrows(p, b - 1);
      SizeGrows(p.code[b - 1], SizeBefore(p, b - 1));
    }
  }

  /** Access i, followed by rest, passes the index test. */
  predicate PassesTest(i: Instr, rest: Code, size: nat) {
    !i.Neutral? && i.v < SizeAfter(rest, size)
  }

  /** A load of v in code passes the index test. */
  predicate LoadPasses(code: Code, v: nat, size: nat) {
    code != [] && ((code[0] == Load(v) && PassesTest(code[0], code[1..], size)) || LoadPasses(code[1..], v, size))
  }

  predicate StorePasses(code: Code, v: nat, size: nat) {
    code != [] && ((code[0] == Store(v) && PassesTest(code[0], code[1..], size)) || StorePasses(code[1..], v, size))
  }

  ghost function PassedLoads(code: Code, n: nat, size: nat): set<nat> {
    set v: nat | v < n && LoadPasses(code, v, size)
  }

  ghost function PassedStores(code: Code, n: nat, size: nat): set<nat> {
    set v: nat | v < n && StorePasses(code, v, size)
  }

  /** The marks the scan as written leaves on instruction i, given the instructions that follow it. */
  ghost function FlagsWritten(i: Instr, rest: Code, size: nat): Flags {
    match i
    case Load(v) => Flags(PassesTest(i, rest, size) && !LoadPasses(rest, v, size), false)
    case Store(v) =>
      Flags(PassesTest(i, rest, size) && !StorePasses(rest, v, size),
            PassesTest(i, rest, size) && StorePasses(rest, v, size))
    case Neutral => Flags(false, false)
  }

  ghost predicate ScannedAsWritten(code: Code, flags: seq<Flags>, size: nat) {
    && |flags| == |code|
    && forall k :: 0 <= k < |code| ==> flags[k] == FlagsWritten(code[k], code[k + 1..], size)
  }

  /** Every accessed variable is among the first n. */
  ghost predicate Counted(code: Code, n: nat) {
    forall i :: i in code && !i.Neutral? ==> i.v < n
  }

  lemma OneMoreWritten(i: Instr, rest: Code, n: nat, size: nat)
    requires !i.Neutral? ==> i.v < n
    ensures var passes := PassesTest(i, rest, size);
            && SizeAfter([i] + rest, size) ==
                (if i.Load? && passes then SizeAfter(rest, size) + 1 else SizeAfter(rest, size))
            && PassedLoads([i] + rest, n, size) ==
               PassedLoads(rest, n, size) + (if i.Load? && passes then {i.v} else {})
            && PassedStores([i] + rest, n, size) ==
               PassedStores(rest, n, size) + (if i.Store? && passes then {i.v} else {})
  {
    assert ([i] + rest)[1..] == rest;
  }

  lemma ScannedOneMoreWritten(i: Instr, rest: Code, flag: Flags, flags: seq<Flags>, size: nat)
    requires ScannedAsWritten(rest, flags, size) && flag == FlagsWritten(i, rest, size)
    ensures ScannedAsWritten([i] + rest, [flag] + flags, size)
  {
    var code := [i] + rest;
    assert code[1..] == rest;
    forall k | 0 < k < |code|
      ensures ([flag] + flags)[k] == FlagsWritten(code[k], code[k + 1..], size)
    {
      assert code[k + 1..] == rest[k..];
    }
  }

  /** The loads that pass the index test, by position. */
  ghost function PassingLoads(code: Code, size: nat): set<nat> {
    set k: nat | k < |code| && code[k].Load? && PassesTest(code[k], code[k + 1..], size)
  }

  ghost function OneUp(s: set<nat>): set<nat> {
    set k | k in s :: k + 1
  }

  lemma {:induction false} OneUpSize(s: set<nat>)
    ensures |OneUp(s)| == |s|
    decreases s
  {
    if s != {} {
      var k :| k in s;
      var r := s - {k};
      OneUpSize(r);
      OneUpAdds(r, k);
      assert r + {k} == s;
    }
  }

  lemma OneUpAdds(r: set<nat>, k: nat)
    requires k !in r
    ensures OneUp(r + {k}) == OneUp(r) + {k + 1} && k + 1 !in OneUp(r)
  {
    var s := r + {k};
    forall x: nat ensures x in OneUp(s) <==> x in OneUp(r) + {k + 1} {
      if x in OneUp(r) {
        var y :| y in r && x == y + 1;
        assert y in s;
      }
      if x == k + 1 {
        assert k in s;
      }
    }
  }

  lemma WithZero(first: bool, up: set<nat>)
    requires 0 !in up
    ensures |(if first then {0} else {}) + up| == |up| + (if first then 1 else 0)
  {
    if !first {
      assert {} + up == up;
    }
  }

  lemma PassingShifted(code: Code, size: nat, k: nat)
    requires code != []
    ensures 0 in PassingLoads(code, size) <==> code[0].Load? && PassesTest(code[0], code[1..], size)
    ensures k + 1 in PassingLoads(code, size) <==> k in PassingLoads(code[1..], size)
  {
    if k + 1 < |code| {
      assert code[k + 1] == code[1..][k] && code[k + 2..] == code[1..][k + 1..];
    }
  }

  lemma PassingSplit(code: Code, size: nat)
    requires code != []
    ensures PassingLoads(code, size) ==
            (if code[0].Load? && PassesTest(code[0], code[1..], size) then {0} else {}) +
            OneUp(PassingLoads(code[1..], size))
  {
    var up := OneUp(PassingLoads(code[1..], size));
    forall k: nat ensures 0 < k ==> (k in PassingLoads(code, size) <==> k in up) {
      if 0 < k {
        PassingShifted(code, size, k - 1);
        assert k in up <==> k - 1 in PassingLoads(code[1..], size);
      }
    }
    PassingShifted(code, size, 0);
  }

  /** The scan makes the list longer by one for each load that passes the index test. */
  lemma {:induction false} OneLongerPerLoad(code: Code, size: nat)
    ensures SizeAfter(code, size) == size + |PassingLoads(code, size)|
  {
    if code == [] {
      assert PassingLoads(code, size) == {};
    } else {
      var rest := PassingLoads(code[1..], size);
      OneLongerPerLoad(code[1..], size);
      OneUpSize(rest);
      PassingSplit(code, size);
      WithZero(code[0].Load? && PassesTest(code[0], code[1..], size), OneUp(rest));
    }
  }

  // ----- the scan

  method ScanInstruction(i: Instr, ghost rest: Code, n: nat, ghost size0: nat, size: nat, loads: BitVector,
          liveIn: BitVector, kill: BitVector) returns (flag: Flags, size': nat)
    requires liveIn.data != kill.data && loads.data != kill.data && loads.data != liveIn.data
    requires n <= BITS_PER_WORD * liveIn.data.Length && n <= BITS_PER_WORD * kill.data.Length
    requires n <= BITS_PER_WORD * loads.data.Length
    requires (!i.Neutral? ==> i.v < n) && size == SizeAfter(rest, size0)
    requires loads.Contents() == PassedLoads(rest, n, size0)
    requires liveIn.Contents() == {} && kill.Contents() == PassedStores(rest, n, size0)
    modifies loads.data, liveIn.data, kill.data
    ensures flag == FlagsWritten(i, rest, size0) && size' == SizeAfter([i] + rest, size0)
    ensures loads.Contents() == PassedLoads([i] + rest, n, size0)
    ensures liveIn.Contents() == {} && kill.Contents() == PassedStores([i] + rest, n, size0)
  {
    OneMoreWritten(i, rest, n, size0);
    flag, size' := Flags(false, false), size;
    if i.Load? {
      var index := i.v;
      if index >= size { return; }
      size' := size + 1;
      if !loads.Contains(index) {
        loads.Add(index);
        flag := flag.(isLast := true);
      }
    } else if i.Store? {
      var index := i.v;
      if index >= size { return; }
      if kill.Contains(index) {
        if !liveIn.Contains(index) { flag := flag.(isDead := true); }
      } else {
        if !liveIn.Contains(index) { flag := flag.(isLast := true); }
        kill.Add(index);
      }
      liveIn.Remove(index);
    }
  }

  /** One block of the scan. */
  method ScanBlock(code: Code, n: nat, size: nat, liveIn: BitVector, kill: BitVector)
    returns (flags: seq<Flags>, size': nat)
    requires liveIn.data != kill.data
    requires n <= BITS_PER_WORD * liveIn.data.Length && n <= BITS_PER_WORD * kill.data.Length
    requires Counted(code, n) && liveIn.Contents() == {} && kill.Contents() == {}
    modifies liveIn.data, kill.data
    ensures liveIn.Contents() == {} && kill.Contents() == PassedStores(code, n, size)
    ensures ScannedAsWritten(code, flags, size) && size' == SizeAfter(code, size)
  {
    var loads := new BitVector(n);
    flags, size' := [], size;
    ghost var rest: Code := [];
    var k := |code|;
    while k > 0
      invariant 0 <= k <= |code| && rest == code[k..]
      invariant size' == SizeAfter(rest, size) && ScannedAsWritten(rest, flags, size)
      invariant fresh(loads.data) && n <= BITS_PER_WORD * loads.data.Length
      invariant loads.Contents() == PassedLoads(rest, n, size)
      invariant liveIn.Contents() == {} && kill.Contents() == PassedStores(rest, n, size)
    {
      k := k - 1;
      var flag;
      flag, size' := ScanInstruction(code[k], rest, n, size, size', loads, liveIn, kill);
      ScannedOneMoreWritten(code[k], rest, flag, flags, size);
      flags := [flag] + flags;
      rest := [code[k]] + rest;
    }
  }

  ghost function EmptySets(p: Program): seq<set<nat>> {
    seq(|p.succs|, _ => {})
  }

  ghost function KillsWritten(p: Program, n: nat): seq<set<nat>>
    requires p.Valid()
  {
    seq(|p.succs|, b requires 0 <= b < |p.succs| => PassedStores(p.code[b], n, SizeBefore(p, b)))
  }

  ghost predicate AllCounted(p: Program, n: nat) {
    forall b :: 0 <= b < |p.code| ==> Counted(p.code[b], n)
  }

  ghost predicate AllScannedAsWritten(p: Program, flags: seq<seq<Flags>>, k: nat)
    requires p.Valid() && k <= |p.succs|
  {
    |flags| == k && forall b :: 0 <= b < k ==> ScannedAsWritten(p.code[b], flags[b], SizeBefore(p, b))
  }

  lemma OneMoreBlock(p: Program, flags: seq<seq<Flags>>, f: seq<Flags>, b: nat)
    requires p.Valid() && b < |p.succs| && AllScannedAsWritten(p, flags, b)
    requires ScannedAsWritten(p.code[b], f, SizeBefore(p, b))
    ensures AllScannedAsWritten(p, flags + [f], b + 1)
  {
  }

  /** One block, among vectors that hold the live-in sets none and the first b of the kill sets. */
  method NextBlock(a: LivenessAnalysis, b: nat, size: nat, ghost none: seq<set<nat>>, ghost kills: seq<set<nat>>)
    returns (size': nat, ghost marks: seq<Flags>)
    requires a.Valid() && b < |a.program.succs| && Counted(a.program.code[b], a.numVars)
    requires Holds(a.liveIn, none) && Holds(a.kill, FirstOnly(kills, b))
    requires none[b] == {} && kills[b] == PassedStores(a.program.code[b], a.numVars, size)
    modifies a`flags, a.liveIn[b].data, a.kill[b].data
    ensures Holds(a.liveIn, none) && Holds(a.kill, FirstOnly(kills, b + 1))
    ensures a.flags == old(a.flags) + [marks] && ScannedAsWritten(a.program.code[b], marks, size)
    ensures size' == SizeAfter(a.program.code[b], size)
  {
    var flags;
    flags, size' := ScanBlock(a.program.code[b], a.numVars, size, a.liveIn[b], a.kill[b]);
    a.flags := a.flags + [flags];
    marks := flags;
  }

  /** The first b blocks are scanned. */
  ghost predicate ScannedTo(a: LivenessAnalysis, none: seq<set<nat>>, kills: seq<set<nat>>, b: nat, size: nat)
    requires a.program.Valid() && b <= |a.program.succs|
    reads a, set x | x in a.liveIn :: x.data, set x | x in a.kill :: x.data
  {
    && Holds(a.liveIn, none) && Holds(a.kill, FirstOnly(kills, b))
    && size == SizeBefore(a.program, b) && AllScannedAsWritten(a.program, a.flags, b)
  }

  method ScanNext(a: LivenessAnalysis, b: nat, size: nat, ghost none: seq<set<nat>>, ghost kills: seq<set<nat>>)
    returns (size': nat)
    requires a.Valid() && AllCounted(a.program, a.numVars) && b < |a.program.succs|
    requires none == EmptySets(a.program) && kills == KillsWritten(a.program, a.numVars)
    requires ScannedTo(a, none, kills, b, size)
    modifies a`flags, a.liveIn[b].data, a.kill[b].data
    ensures ScannedTo(a, none, kills, b + 1, size')
  {
    ghost var earlier, marks := a.flags, [];
    size', marks := NextBlock(a, b, size, none, kills);
    OneMoreBlock(a.program, earlier, marks, b);
  }

  /** variable_liveness_compute_initial_sets */
  method InitialSets(a: LivenessAnalysis, ghost none: seq<set<nat>>, ghost kills: seq<set<nat>>)
    requires a.Valid() && AllCounted(a.program, a.numVars)
    requires none == EmptySets(a.program) && kills == KillsWritten(a.program, a.numVars)
    requires Holds(a.liveIn, none) && Holds(a.kill, none)
    modifies a`flags, set x | x in a.liveIn :: x.data, set x | x in a.kill :: x.data
    ensures Holds(a.liveIn, none) && Holds(a.kill, kills)
    ensures AllScannedAsWritten(a.program, a.flags, |a.program.succs|)
  {
    var size: nat := |a.program.succs|;
    a.flags := [];
    assert FirstOnly(kills, 0) == none;
    for b := 0 to |a.program.succs|
      invariant ScannedTo(a, none, kills, b, size)
    {
      assert a.liveIn[b] in a.liveIn && a.kill[b] in a.kill;
      size := ScanNext(a, b, size, none, kills);
    }
    assert FirstOnly(kills, |a.program.succs|) == kills;
  }

  // ----- the fixpoint

  lemma {:induction false} NothingFromSuccessors(p: Program, b: nat, k: nat)
    requires p.Valid() && b < |p.succs| && k <= |p.succs[b]|
    ensures SuccessorsIn(p, EmptySets(p), b, k) == {}
  {
    if k > 0 {
      NothingFromSuccessors(p, b, k - 1);
      assert p.succs[b][k - 1] in p.succs[b];
    }
  }

  /** One block of a pass. update_live_in would run if live-out changed, and it does not. */
  method UpdateBlock(a: LivenessAnalysis, b: nat) returns (changed: bool)
    requires a.Valid() && b < |a.program.succs|
    requires Holds(a.liveIn, EmptySets(a.program)) && Holds(a.liveOut, EmptySets(a.program))
    modifies a.liveOut[b].data
    ensures !changed && Holds(a.liveIn, EmptySets(a.program)) && Holds(a.liveOut, EmptySets(a.program))
  {
    ghost var none := EmptySets(a.program);
    NothingFromSuccessors(a.program, b, |a.program.succs[b]|);
    changed := a.UpdateLiveOut(b, none, none);
    assert none[b := {}] == none;
  }

  method ComputeLiveSets(a: LivenessAnalysis)
    requires a.Valid() && Holds(a.liveIn, EmptySets(a.program)) && Holds(a.liveOut, EmptySets(a.program))
    modifies set x | x in a.liveOut :: x.data
    ensures Holds(a.liveIn, EmptySets(a.program)) && Holds(a.liveOut, EmptySets(a.program))
  {
    var changed := true;
    while changed
      invariant Holds(a.liveIn, EmptySets(a.program)) && Holds(a.liveOut, EmptySets(a.program))
      decreases changed
    {
      changed := false;
      for b := 0 to |a.program.succs|
        invariant !changed && Holds(a.liveIn, EmptySets(a.program)) && Holds(a.liveOut, EmptySets(a.program))
      {
        assert a.liveOut[b] in a.liveOut;
        var c := UpdateBlock(a, b);
        if c { changed := true; }
      }
    }
  }

  /** liveness_analyze: the scan, then a pass that changes nothing. */
  method Analyze(a: LivenessAnalysis)
    requires a.Valid() && AllCounted(a.program, a.numVars) && Holds(a.liveIn, EmptySets(a.program))
    requires Holds(a.liveOut, EmptySets(a.program)) && Holds(a.kill, EmptySets(a.program))
    modifies a`flags, set x | x in a.liveIn :: x.data, set x | x in a.liveOut :: x.data, set x | x in a.kill :: x.data
    ensures Holds(a.liveIn, EmptySets(a.program)) && Holds(a.liveOut, EmptySets(a.program))
    ensures Holds(a.kill, KillsWritten(a.program, a.numVars))
    ensures AllScannedAsWritten(a.program, a.flags, |a.program.succs|)
  {
    InitialSets(a, EmptySets(a.program), KillsWritten(a.program, a.numVars));
    ComputeLiveSets(a);
  }

  /** variable_liveness_is_last_load */
  method IsLastLoad(a: LivenessAnalysis, b: nat, k: nat) returns (last: bool)
    requires a.Valid() && b < |a.program.succs| == |a.flags| && k < |a.program.code[b]| == |a.flags[b]|
    requires a.program.code[b][k].Load? && a.program.code[b][k].v < a.numVars
    ensures last <==> LastLoad(a.flags[b][k], a.program.code[b][k].v in a.liveIn[b].Contents())
  {
    return a.flags[b][k].isLast && !a.liveIn[b].Contains(a.program.code[b][k].v);
  }

  // ----- when the live sets are right

  ghost predicate LoadsFirst(p: Program, n: nat)
    requires p.Valid()
  {
    exists b: nat, v: nat :: b < |p.succs| && v < n && Exposed(p.code[b], v)
  }

  /** No pass changes the empty sets; and they are liveness if and only if no block loads a variable before
      storing it. */
  lemma EmptySetsRight(p: Program, n: nat)
    requires p.Valid()
    ensures forall b :: 0 <= b < |p.succs| ==> NewOut(p, EmptySets(p), EmptySets(p), b) == {}
    ensures IsLiveness(p, n, EmptySets(p), EmptySets(p)) <==> !LoadsFirst(p, n)
  {
    var none := EmptySets(p);
    forall b | 0 <= b < |p.succs| ensures NewOut(p, none, none, b) == {} {
      NothingFromSuccessors(p, b, |p.succs[b]|);
    }
    if LoadsFirst(p, n) {
      var b: nat, v: nat :| b < |p.succs| && v < n && Exposed(p.code[b], v);
      LiveAtStartUnfolds(p, b, v);
      assert v !in none[b];
    } else {
      forall b: nat, v: nat | b < |p.succs| && v < n ensures !Exposed(p.code[b], v) {
      }
      assert Solves(p, n, none, none);
      SoundSolutionIsLiveness(p, n, none, none);
    }
  }

  // ----- when the queries are right

  ghost predicate IsStore(p: Program, b: nat, k: nat)
    requires p.Valid()
  {
    b < |p.succs| && k < |p.code[b]| && p.code[b][k].Store?
  }

  ghost predicate IsLoad(p: Program, b: nat, k: nat)
    requires p.Valid()
  {
    b < |p.succs| && k < |p.code[b]| && p.code[b][k].Load?
  }

  /** Access k of block b passes the index test. */
  predicate Passes(p: Program, b: nat, k: nat)
    requires p.Valid() && b < |p.succs| && k < |p.code[b]|
  {
    PassesTest(p.code[b][k], p.code[b][k + 1..], SizeBefore(p, b))
  }

  /** The variable of access k is loaded before it is stored, further down in block b or beyond it. */
  ghost predicate LoadedLater(p: Program, b: nat, k: nat)
    requires p.Valid() && b < |p.succs| && k < |p.code[b]| && !p.code[b][k].Neutral?
  {
    var rest, v := p.code[b][k + 1..], p.code[b][k].v;
    Exposed(rest, v) || (!Stores(rest, v) && LiveAtEnd(p, b, v))
  }

  /** With a block for every variable, the index test lets every access pass. */
  lemma AllPass(p: Program, n: nat, b: nat, k: nat)
    requires p.Valid() && AllCounted(p, n) && n <= |p.succs|
    requires b < |p.succs| && k < |p.code[b]| && !p.code[b][k].Neutral?
    ensures Passes(p, b, k)
  {
    assert p.code[b][k] in p.code[b];
    SizeBeforeGrows(p, b);
    SizeGrows(p.code[b][k + 1..], SizeBefore(p, b));
  }

  /** is_store_alive answers no for each store that passes the index test, and yes for every other. */
  lemma AliveIffSkipped(p: Program, flags: seq<seq<Flags>>, b: nat, k: nat)
    requires p.Valid() && AllScannedAsWritten(p, flags, |p.succs|) && IsStore(p, b, k)
    ensures StoreAlive(flags[b][k], p.code[b][k].v in EmptySets(p)[b]) <==> !Passes(p, b, k)
  {
    assert flags[b][k] == FlagsWritten(p.code[b][k], p.code[b][k + 1..], SizeBefore(p, b));
  }

  ghost predicate StoresRight(p: Program, flags: seq<seq<Flags>>)
    requires p.Valid() && AllScannedAsWritten(p, flags, |p.succs|)
  {
    forall b: nat, k: nat :: IsStore(p, b, k) ==>
      (StoreAlive(flags[b][k], p.code[b][k].v in EmptySets(p)[b]) <==> LiveAfter(p, b, k, p.code[b][k].v))
  }

  /** All answers about stores are right if and only if exactly the stores that nothing loads later pass the
      index test; with a block for every variable, if and only if no store is loaded later. */
  lemma StoresRightIff(p: Program, n: nat, flags: seq<seq<Flags>>)
    requires p.Valid() && AllScannedAsWritten(p, flags, |p.succs|)
    ensures StoresRight(p, flags) <==>
            forall b: nat, k: nat :: IsStore(p, b, k) ==> (Passes(p, b, k) <==> !LoadedLater(p, b, k))
    ensures AllCounted(p, n) && n <= |p.succs| ==>
            (StoresRight(p, flags) <==> forall b: nat, k: nat :: IsStore(p, b, k) ==> !LoadedLater(p, b, k))
  {
    forall b: nat, k: nat | IsStore(p, b, k)
      ensures StoreAlive(flags[b][k], p.code[b][k].v in EmptySets(p)[b]) <==> !Passes(p, b, k)
      ensures LiveAfter(p, b, k, p.code[b][k].v) <==> LoadedLater(p, b, k)
      ensures AllCounted(p, n) && n <= |p.succs| ==> Passes(p, b, k)
    {
      AliveIffSkipped(p, flags, b, k);
      LiveAfterUnfolds(p, b, k, p.code[b][k].v);
      if AllCounted(p, n) && n <= |p.succs| {
        AllPass(p, n, b, k);
      }
    }
  }

  /** is_last_load answers yes if the load passes the index test and no later load of its block that passes is
      of the same variable. */
  lemma LastIffNoLoadAfter(p: Program, flags: seq<seq<Flags>>, b: nat, k: nat)
    requires p.Valid() && AllScannedAsWritten(p, flags, |p.succs|) && IsLoad(p, b, k)
    ensures LastLoad(flags[b][k], p.code[b][k].v in EmptySets(p)[b]) <==>
            Passes(p, b, k) && !LoadPasses(p.code[b][k + 1..], p.code[b][k].v, SizeBefore(p, b))
  {
    assert flags[b][k] == FlagsWritten(p.code[b][k], p.code[b][k + 1..], SizeBefore(p, b));
  }

  /** A load that passes in a block with enough vectors before it is a load. */
  lemma {:induction false} LoadsPass(code: Code, n: nat, v: nat, size: nat)
    requires Counted(code, n) && n <= size
    ensures LoadPasses(code, v, size) <==> Loads(code, v)
  {
    if code != [] {
      assert code == [code[0]] + code[1..];
      assert code[0] in code;
      LoadsPass(code[1..], n, v, size);
      SizeGrows(code[1..], size);
    }
  }

  ghost predicate LoadRight(p: Program, flags: seq<seq<Flags>>, b: nat, k: nat)
    requires p.Valid() && AllScannedAsWritten(p, flags, |p.succs|) && IsLoad(p, b, k)
  {
    LastLoad(flags[b][k], p.code[b][k].v in EmptySets(p)[b]) <==> !LiveAfter(p, b, k, p.code[b][k].v)
  }

  /** The answer about a load is right if and only if it is the last load of its block that passes the index
      test just when it is not loaded later. With a block for every variable: if another load follows in the
      block it has to come before any store, and if none follows, a store must or the variable is not live at
      the end. */
  lemma LoadRightIff(p: Program, n: nat, flags: seq<seq<Flags>>, b: nat, k: nat)
    requires p.Valid() && AllScannedAsWritten(p, flags, |p.succs|) && IsLoad(p, b, k)
    ensures var rest, v := p.code[b][k + 1..], p.code[b][k].v;
            && (LoadRight(p, flags, b, k) <==>
                (Passes(p, b, k) && !LoadPasses(rest, v, SizeBefore(p, b)) <==> !LoadedLater(p, b, k)))
            && (AllCounted(p, n) && n <= |p.succs| ==>
                (LoadRight(p, flags, b, k) <==>
                 if Loads(rest, v) then Exposed(rest, v) else Stores(rest, v) || !LiveAtEnd(p, b, v)))
  {
    var rest, v := p.code[b][k + 1..], p.code[b][k].v;
    LastIffNoLoadAfter(p, flags, b, k);
    LiveAfterUnfolds(p, b, k, v);
    if AllCounted(p, n) && n <= |p.succs| {
      AllPass(p, n, b, k);
      SizeBeforeGrows(p, b);
      CountedRest(p.code[b], n, k);
      LoadsPass(rest, n, v, SizeBefore(p, b));
      ExposedLoads(rest, v);
    }
  }

  lemma CountedRest(code: Code, n: nat, k: nat)
    requires Counted(code, n) && k < |code|
    ensures Counted(code[k + 1..], n)
  {
  }

  /** The last line of is_last_load alone, on correct sets: it looks in live-in where live-out is meant. */
  lemma LastLoadLooksInLiveIn(p: Program, n: nat, flags: seq<seq<Flags>>, ins: seq<set<nat>>, outs: seq<set<nat>>,
          b: nat, k: nat)
    requires p.Valid() && AllScanned(p, flags, n) && IsLiveness(p, n, ins, outs)
    requires IsLoad(p, b, k) && p.code[b][k].v < n
    ensures var code, rest, v := p.code[b], p.code[b][k + 1..], p.code[b][k].v;
            (LastLoad(flags[b][k], v in ins[b]) <==> !LiveAfter(p, b, k, v)) <==>
            if Loads(rest, v) then Exposed(rest, v)
            else (Exposed(code, v) <==> !Stores(rest, v) && LiveAtEnd(p, b, v))
  {
    var code, rest, v := p.code[b], p.code[b][k + 1..], p.code[b][k].v;
    assert flags[b][k] == FlagsFor(code[k], rest, n);
    LiveAfterUnfolds(p, b, k, v);
    LiveAtStartUnfolds(p, b, v);
    ExposedLoads(rest, v);
    assert code == code[..k + 1] + rest;
    ExposedConcat(code[..k + 1], rest, v);
    ExposedLoads(code[..k + 1], v);
    assert Loads(code[..k + 1], v) by { assert code[..k + 1][k] == Load(v); }
  }

  // ----- when dropping stores is invisible

  /** All instructions but the stores is_store_alive rejects. */
  ghost function Kept(p: Program, flags: seq<seq<Flags>>): seq<seq<bool>>
    requires p.Valid() && AllScannedAsWritten(p, flags, |p.succs|)
  {
    seq(|p.succs|, b requires 0 <= b < |p.succs| =>
      seq(|p.code[b]|, k requires 0 <= k < |p.code[b]| =>
        p.code[b][k].Store? ==> StoreAlive(flags[b][k], p.code[b][k].v in EmptySets(p)[b])))
  }

  /** No store that passes the index test is loaded later. */
  ghost predicate NonePassedLoaded(p: Program)
    requires p.Valid()
  {
    forall b: nat, k: nat :: IsStore(p, b, k) && Passes(p, b, k) ==> !LoadedLater(p, b, k)
  }

  /** Dropping them goes unseen on every walk if and only if no store that passes the index test is loaded
      later. */
  lemma DropsUnseenIff(p: Program, flags: seq<seq<Flags>>)
    requires p.Valid() && AllScannedAsWritten(p, flags, |p.succs|)
    ensures KeepsAllButStores(p, Kept(p, flags))
    ensures DropsNothingLive(p, Kept(p, flags)) <==> NonePassedLoaded(p)
    ensures (forall w :: Walk(p, w) ==> Unseen(p, Kept(p, flags), w)) <==> NonePassedLoaded(p)
  {
    var kept := Kept(p, flags);
    forall b: nat, k: nat | b < |kept| && k < |kept[b]|
      ensures !kept[b][k] <==> IsStore(p, b, k) && Passes(p, b, k)
      ensures IsStore(p, b, k) ==> (LiveAfter(p, b, k, p.code[b][k].v) <==> LoadedLater(p, b, k))
    {
      if p.code[b][k].Store? {
        AliveIffSkipped(p, flags, b, k);
        LiveAfterUnfolds(p, b, k, p.code[b][k].v);
      }
    }
    assert DropsNothingLive(p, kept) <==> NonePassedLoaded(p);
    UnseenIffNothingLive(p, kept);
  }

  /** Then it is invisible whatever the stores compute. */
  lemma DroppingAsWritten<V>(p: Program, flags: seq<seq<Flags>>, w: seq<nat>, env: nat -> V,
          value: (nat, seq<V>) -> V, nil: V)
    requires p.Valid() && AllScannedAsWritten(p, flags, |p.succs|) && Walk(p, w) && NonePassedLoaded(p)
    ensures KeepsAllButStores(p, Kept(p, flags))
    ensures Run(Trace(p, w), KeptOnWalk(p, Kept(p, flags), w), 0, env, [], value, nil) ==
            Run(Trace(p, w), KeepAll(|Trace(p, w)|), 0, env, [], value, nil)
  {
    DropsUnseenIff(p, flags);
    NothingLiveDropped(p, Kept(p, flags), w, env, value, nil);
  }

  lemma LoadedStoreMarks()
    ensures ScannedAsWritten([Store(0), Load(0), Store(0)],
                             [Flags(false, true), Flags(true, false), Flags(true, false)], 1)
  {
    var code: Code := [Store(0), Load(0), Store(0)];
    var two: Code, one: Code, none: Code := [Load(0), Store(0)], [Store(0)], [];
    assert code[1..] == two && code[2..] == one && code[3..] == none && two[1..] == one && one[1..] == none;
    assert SizeAfter(none, 1) == 1 && SizeAfter(one, 1) == 1 && SizeAfter(two, 1) == 2;
    assert StorePasses(one, 0, 1) && StorePasses(two, 0, 1);
    assert !LoadPasses(one, 0, 1) && !StorePasses(none, 0, 1);
    var flags := [Flags(false, true), Flags(true, false), Flags(true, false)];
    assert flags[0] == FlagsWritten(code[0], two, 1);
    assert flags[1] == FlagsWritten(code[1], one, 1);
    assert flags[2] == FlagsWritten(code[2], none, 1);
  }

  /** One block that stores a variable, loads it and stores it again. The empty sets are its liveness, and yet
      the first store is marked dead and reported not alive, although the load sees it. */
  lemma LoadedStoreReportedDead()
    ensures var p := Program([[Store(0), Load(0), Store(0)]], [[]]);
            && p.Valid() && AllCounted(p, 1) && IsLiveness(p, 1, EmptySets(p), EmptySets(p))
            && AllScannedAsWritten(p, [[Flags(false, true), Flags(true, false), Flags(true, false)]], 1)
            && !StoreAlive(Flags(false, true), 0 in EmptySets(p)[0]) && LiveAfter(p, 0, 0, 0)
  {
    var p := Program([[Store(0), Load(0), Store(0)]], [[]]);
    LoadedStoreMarks();
    assert SizeBefore(p, 0) == 1 && p.code[0] == [Store(0), Load(0), Store(0)];
    LiveAfterUnfolds(p, 0, 0, 0);
    assert p.code[0][1..] == [Load(0), Store(0)];
    assert !LoadsFirst(p, 1);
    EmptySetsRight(p, 1);
  }
}
