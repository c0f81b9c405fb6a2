/** The parallel-move resolver: perform_move, the two emitters, and compile. */
module Resolver {
  import opened Words
  import opened Machine
  import opened Moves
  import opened Cycles

  // ----- what perform_move may do to the other moves

  /** Moves only disappear; a move that stays and is not pending keeps its source, or now reads what a move
      that disappeared has written. */
  ghost predicate Progress(before: seq<Move>, after: seq<Move>, dests: seq<Location>, pending: seq<nat>) {
    && |before| == |after| == |dests|
    && (forall j :: Live(after, j) ==> Live(before, j))
    && (forall j :: Live(after, j) && j !in pending ==>
          after[j].src == before[j].src ||
          (!before[j].src.Constant? && ReadsResult(before, after, dests, pending, after[j].src)))
  }

  ghost predicate ReadsResult(before: seq<Move>, after: seq<Move>, dests: seq<Location>, pending: seq<nat>, l: Location)
    requires |before| == |after| == |dests|
  {
    exists x :: x !in pending && Live(before, x) && !Live(after, x) && dests[x] == l
  }

  lemma ProgressTransitive(a: seq<Move>, b: seq<Move>, c: seq<Move>, dests: seq<Location>, pending: seq<nat>)
    requires Progress(a, b, dests, pending) && Progress(b, c, dests, pending)
    ensures Progress(a, c, dests, pending)
  {
    forall j | Live(c, j) && j !in pending
      ensures c[j].src == a[j].src || (!a[j].src.Constant? && ReadsResult(a, c, dests, pending, c[j].src))
    {
      if c[j].src != b[j].src {
        var x :| x !in pending && Live(b, x) && !Live(c, x) && dests[x] == c[j].src;
        assert Live(a, x);
      } else if b[j].src != a[j].src {
        var x :| x !in pending && Live(a, x) && !Live(b, x) && dests[x] == b[j].src;
        assert !Live(c, x);
      }
    }
  }

  /** No move that is not pending reads loc, as far as the first n go. */
  ghost predicate NoBlocker(moves: seq<Move>, pending: seq<nat>, loc: Location, n: int)
    requires n <= |moves|
  {
    forall j :: 0 <= j < n && j !in pending ==> !Blocks(moves[j], loc)
  }

  /** What the recursion does creates no new blocker of the destination the caller is waiting to write. */
  lemma ProgressKeepsUnblocked(before: seq<Move>, after: seq<Move>, dests: seq<Location>, pending: seq<nat>,
          index: nat, n: nat)
    requires Targets(dests) && Progress(before, after, dests, pending) && index in pending && index < |dests| &&
             n <= |before|
    requires NoBlocker(before, pending, dests[index], n)
    ensures NoBlocker(after, pending, dests[index], n)
  {
    forall j | 0 <= j < n && j !in pending
      ensures !Blocks(after[j], dests[index])
    {
      assert !Blocks(before[j], dests[index]);
      if Blocks(after[j], dests[index]) {
        assert Live(after, j) && Live(before, j);
        var x :| x !in pending && Live(before, x) && !Live(after, x) && dests[x] == after[j].src;
        SamePlaceSameMove(dests, x, index);
      }
    }
  }

  /** The moves perform_move may still be called on; marking or eliminating one makes the set smaller. */
  ghost function Active(moves: seq<Move>): set<nat> {
    set i: nat | i < |moves| && !IsEliminated(moves[i]) && !IsPending(moves[i])
  }

  // ----- marking and unmarking

  function WithDest(moves: seq<Move>, i: nat, dest: Location): seq<Move>
    requires i < |moves|
  {
    moves[i := moves[i].(dest := dest)]
  }

  lemma MarkKeepsInv(moves: seq<Move>, dests: seq<Location>, pending: seq<nat>, i: nat)
    requires Inv(moves, dests, pending) && Live(moves, i) && i !in pending
    requires pending != [] ==> moves[i].src == dests[pending[|pending| - 1]]
    ensures Inv(WithDest(moves, i, Invalid), dests, pending + [i])
    ensures moves[i].dest == dests[i] && Active(WithDest(moves, i, Invalid)) == Active(moves) - {i}
    ensures forall code, goal :: Works(moves, dests, code, goal) ==>
            Works(WithDest(moves, i, Invalid), dests, code, goal)
    ensures OnlyRegisterCycles(WithDest(moves, i, Invalid), dests) <==> OnlyRegisterCycles(moves, dests)
  {
    SameSources(moves, WithDest(moves, i, Invalid), dests);
    MarkedMatch(moves, dests, pending, i);
    ChainGrown(moves, dests, pending, i);
  }

  lemma MarkedMatch(moves: seq<Move>, dests: seq<Location>, pending: seq<nat>, i: nat)
    requires |moves| == |dests| && DestsMatch(moves, dests, pending) && i < |moves|
    ensures DestsMatch(WithDest(moves, i, Invalid), dests, pending + [i])
  {
    assert forall k :: k in pending + [i] <==> k in pending || k == i;
  }

  lemma ChainGrown(moves: seq<Move>, dests: seq<Location>, pending: seq<nat>, i: nat)
    requires |moves| == |dests| && PendingChain(moves, dests, pending) && Live(moves, i) && i !in pending
    requires pending != [] ==> moves[i].src == dests[pending[|pending| - 1]]
    ensures PendingChain(WithDest(moves, i, Invalid), dests, pending + [i])
  {
    assert forall m :: 0 <= m < |pending| ==> (pending + [i])[m] == pending[m];
  }

  /** Destinations fields do not matter for the effect of the moves and for their cycles. */
  lemma SameSources(moves: seq<Move>, moves': seq<Move>, dests: seq<Location>)
    requires |moves| == |moves'| == |dests| && Targets(dests) && SourcesFit(moves, dests)
    requires forall j :: 0 <= j < |moves| ==> moves'[j].src == moves[j].src
    ensures SourcesFit(moves', dests)
    ensures forall code, goal :: Works(moves, dests, code, goal) ==> Works(moves', dests, code, goal)
    ensures OnlyRegisterCycles(moves', dests) <==> OnlyRegisterCycles(moves, dests)
  {
    assert forall j :: Live(moves', j) <==> Live(moves, j);
    forall s, t | Realises(moves, dests, s, t)
      ensures Realises(moves', dests, s, t)
    {
      forall p: Place | !Scratch(p) && !Targeted(moves', dests, p)
        ensures t[p] == s[p]
      {
        assert !Targeted(moves, dests, p);
      }
    }
    forall c: set<nat>
      ensures IsCycle(moves, dests, c) <==> IsCycle(moves', dests, c)
    {
      if IsCycle(moves, dests, c) { CycleElsewhere(moves, moves', dests, c); }
      if IsCycle(moves', dests, c) { CycleElsewhere(moves', moves, dests, c); }
    }
  }

  lemma UnmarkKeepsInv(moves: seq<Move>, dests: seq<Location>, pending: seq<nat>, i: nat)
    requires Inv(moves, dests, pending + [i]) && i < |dests|
    ensures Live(moves, i) && i !in pending
    ensures Inv(WithDest(moves, i, dests[i]), dests, pending)
    ensures pending != [] ==> moves[i].src == dests[pending[|pending| - 1]]
    ensures forall code, goal :: Works(moves, dests, code, goal) ==>
            Works(WithDest(moves, i, dests[i]), dests, code, goal)
    ensures OnlyRegisterCycles(WithDest(moves, i, dests[i]), dests) <==> OnlyRegisterCycles(moves, dests)
  {
    var moves', stack, n := WithDest(moves, i, dests[i]), pending + [i], |pending|;
    assert stack[n] == i && forall m :: 0 <= m < n ==> stack[m] == pending[m];
    assert forall m :: 0 <= m < n ==> pending[m] != i;
    SameSources(moves, moves', dests);
  }

  // ----- the three ways perform_move ends

  /** Whatever the machine state at the start: after the code emitted so far, carrying out the live moves at
      once reaches the goal. */
  ghost predicate Works(moves: seq<Move>, dests: seq<Location>, code: seq<Instr>, goal: State -> State)
    requires |moves| == |dests| && Targets(dests) && SourcesFit(moves, dests)
  {
    forall s: State :: Realises(moves, dests, ExecAll(code, s), goal(s))
  }

  /** What perform_move owes its caller: move i is gone, the rest still works towards target, and the cycles
      that are left can be resolved exactly if all could be. */
  ghost predicate Settles(before: seq<Move>, after: seq<Move>, dests: seq<Location>, pending: seq<nat>, i: nat,
          code: seq<Instr>, goal: State -> State) {
    && Inv(after, dests, pending) && !Live(after, i)
    && |before| == |dests| && Progress(before, after, dests, pending)
    && Works(after, dests, code, goal)
    && (OnlyRegisterCycles(before, dests) <==> OnlyRegisterCycles(after, dests))
  }

  /** All recursive calls are done: nothing that is not pending blocks move i any more. */
  ghost predicate Ready(moves: seq<Move>, dests: seq<Location>, pending: seq<nat>, i: nat, code: seq<Instr>,
          goal: State -> State) {
    && Inv(moves, dests, pending) && Live(moves, i) && i !in pending
    && (pending != [] ==> moves[i].src == dests[pending[|pending| - 1]])
    && NoBlocker(moves, pending + [i], dests[i], |moves|)
    && Works(moves, dests, code, goal)
  }

  lemma EliminationKeepsInv(moves: seq<Move>, dests: seq<Location>, pending: seq<nat>, i: nat)
    requires Inv(moves, dests, pending) && Live(moves, i) && i !in pending
    ensures Inv(moves[i := ELIMINATED], dests, pending) && Progress(moves, moves[i := ELIMINATED], dests, pending)
  {
  }

  lemma FinishBySelf(moves: seq<Move>, dests: seq<Location>, pending: seq<nat>, i: nat, code: seq<Instr>,
          goal: State -> State)
    requires Ready(moves, dests, pending, i, code, goal) && moves[i].src == dests[i]
    ensures Settles(moves, moves[i := ELIMINATED], dests, pending, i, code, goal)
  {
    EliminationKeepsInv(moves, dests, pending, i);
    forall s: State
      ensures SourcesFit(moves[i := ELIMINATED], dests) &&
              Realises(moves[i := ELIMINATED], dests, ExecAll(code, s), goal(s))
    {
      assert Realises(moves, dests, ExecAll(code, s), goal(s));
      EliminateSelf(moves, dests, i, ExecAll(code, s), goal(s));
    }
    EliminateKeepsCycles(moves, dests, i);
  }

  lemma FinishByMove(moves: seq<Move>, dests: seq<Location>, pending: seq<nat>, i: nat, code: seq<Instr>,
          goal: State -> State)
    requires Ready(moves, dests, pending, i, code, goal) && moves[i].src != dests[i]
    requires forall j :: 0 <= j < |moves| ==> !Blocks(moves[j], dests[i])
    ensures Settles(moves, moves[i := ELIMINATED], dests, pending, i, code + MoveCode(moves[i].src, dests[i]), goal)
  {
    assert forall j :: Live(moves, j) ==> !Blocks(moves[j], dests[i]);
    EliminationKeepsInv(moves, dests, pending, i);
    var emitted := MoveCode(moves[i].src, dests[i]);
    forall s: State
      ensures SourcesFit(moves[i := ELIMINATED], dests) &&
              Realises(moves[i := ELIMINATED], dests, ExecAll(code + emitted, s), goal(s))
    {
      assert Realises(moves, dests, ExecAll(code, s), goal(s));
      EmitMoveRealises(moves, dests, i, ExecAll(code, s), goal(s));
      ExecConcat(code, emitted, s);
    }
    EliminateKeepsCycles(moves, dests, i);
  }

  /** If something still blocks i, it is the outermost pending move, and the stack is a cycle. */
  lemma BlockedMeansCycle(moves: seq<Move>, dests: seq<Location>, pending: seq<nat>, i: nat, j: nat, code: seq<Instr>,
          goal: State -> State)
    requires Ready(moves, dests, pending, i, code, goal) && moves[i].src != dests[i]
    requires j < |moves| && Blocks(moves[j], dests[i])
    ensures SwapReady(moves, dests, pending, i)
  {
    var stack, n := pending + [i], |pending|;
    assert j in stack;
    assert j in pending;
    var m :| 0 <= m < n && pending[m] == j;
    if m > 0 {
      SamePlaceSameMove(dests, pending[m - 1], i);
    }
    assert pending[0] == j;
    assert stack[n] == i && forall k :: 0 <= k < n ==> stack[k] == pending[k];
    forall k | Live(moves, k) && k !in pending && k != i
      ensures moves[k].src != dests[i]
    {
      assert !Blocks(moves[k], dests[i]);
    }
  }

  lemma FinishBySwap(moves: seq<Move>, dests: seq<Location>, pending: seq<nat>, i: nat, code: seq<Instr>,
          goal: State -> State)
    requires Ready(moves, dests, pending, i, code, goal) && SwapReady(moves, dests, pending, i)
    requires moves[i].src.Register? && dests[i].Register?
    ensures Settles(moves, Swapped(moves, i, moves[i].src, dests[i]), dests, pending, i,
                    code + SwapCode(moves[i].src.reg, dests[i].reg), goal)
  {
    var moves' := Swapped(moves, i, moves[i].src, dests[i]);
    SwapReadyFacts(moves, dests, pending, i);
    SourcesAfterSwap(moves, dests, pending, i);
    var emitted := SwapCode(moves[i].src.reg, dests[i].reg);
    forall s: State
      ensures SourcesFit(moves', dests) && Realises(moves', dests, ExecAll(code + emitted, s), goal(s))
    {
      assert Realises(moves, dests, ExecAll(code, s), goal(s));
      EmitSwapRealises(moves, dests, i, pending[|pending| - 1], ExecAll(code, s), goal(s));
      ExecConcat(code, emitted, s);
    }
    SwapKeepsSources(moves, dests, i);
    SwapKeepsCycles(moves, dests, pending, i);
    assert PendingChain(moves', dests, pending);
    forall j | Live(moves', j) && j !in pending
      ensures moves'[j].src == moves[j].src ||
              (!moves[j].src.Constant? && ReadsResult(moves, moves', dests, pending, moves'[j].src))
    {
      assert !Live(moves', i) && Live(moves, j);
    }
  }

  lemma NotPendingNotOnStack(moves: seq<Move>, dests: seq<Location>, stack: seq<nat>, i: nat)
    requires Inv(moves, dests, stack) && i < |moves| && !IsEliminated(moves[i]) && !IsPending(moves[i])
    ensures i !in stack && i in Active(moves) && moves[i].dest == dests[i]
  {
  }

  /** Between marking and unmarking only other moves have changed. */
  lemma BlockersGone(start: seq<Move>, moves: seq<Move>, dests: seq<Location>, pending: seq<nat>, i: nat,
          code: seq<Instr>, goal: State -> State)
    requires Inv(start, dests, pending) && Live(start, i) && i !in pending
    requires Inv(moves, dests, pending + [i])
    requires Progress(WithDest(start, i, Invalid), moves, dests, pending + [i])
    requires NoBlocker(moves, pending + [i], dests[i], |moves|) && Works(moves, dests, code, goal)
    ensures Ready(WithDest(moves, i, dests[i]), dests, pending, i, code, goal)
    ensures OnlyRegisterCycles(WithDest(moves, i, dests[i]), dests) <==> OnlyRegisterCycles(moves, dests)
    ensures OthersProgressed(start, WithDest(moves, i, dests[i]), dests, pending, i)
  {
    UnmarkKeepsInv(moves, dests, pending, i);
    var marked, moves' := WithDest(start, i, Invalid), WithDest(moves, i, dests[i]);
    forall j | 0 <= j < |moves'| && j !in pending + [i]
      ensures !Blocks(moves'[j], dests[i])
    {
      assert !Blocks(moves[j], dests[i]);
    }
    forall j | Live(moves', j) && j !in pending && j != i
      ensures Live(start, j)
      ensures moves'[j].src == start[j].src ||
              (!start[j].src.Constant? && ReadsResult(start, moves', dests, pending, moves'[j].src))
    {
      assert Live(moves, j) && Live(marked, j);
      if moves[j].src != marked[j].src {
        var x :| x !in pending + [i] && Live(marked, x) && !Live(moves, x) && dests[x] == moves[j].src;
        assert x !in pending && Live(start, x) && !Live(moves', x);
      }
    }
    forall j | Live(moves', j)
      ensures Live(start, j)
    {
      assert Live(moves, j) && Live(marked, j);
    }
  }

  /** Progress, except for what move i itself reads. */
  ghost predicate OthersProgressed(before: seq<Move>, after: seq<Move>, dests: seq<Location>, pending: seq<nat>,
          i: nat) {
    && |before| == |after| == |dests|
    && (forall j :: Live(after, j) ==> Live(before, j))
    && (forall j :: Live(after, j) && j !in pending && j != i ==>
          after[j].src == before[j].src ||
          (!before[j].src.Constant? && ReadsResult(before, after, dests, pending, after[j].src)))
  }

  lemma SettledAfterBlockers(start: seq<Move>, before: seq<Move>, after: seq<Move>, dests: seq<Location>,
          pending: seq<nat>, i: nat, code: seq<Instr>, goal: State -> State)
    requires OthersProgressed(start, before, dests, pending, i) && Settles(before, after, dests, pending, i, code, goal)
    requires OnlyRegisterCycles(start, dests) <==> OnlyRegisterCycles(before, dests)
    ensures Settles(start, after, dests, pending, i, code, goal)
  {
    forall j | Live(after, j) && j !in pending
      ensures after[j].src == start[j].src ||
              (!start[j].src.Constant? && ReadsResult(start, after, dests, pending, after[j].src))
    {
      assert Live(before, j);
      if after[j].src != before[j].src {
        var x :| x !in pending && Live(before, x) && !Live(after, x) && dests[x] == after[j].src;
        assert Live(start, x);
      } else if before[j].src != start[j].src {
        var x :| x !in pending && Live(start, x) && !Live(before, x) && dests[x] == before[j].src;
        assert !Live(after, x);
      }
    }
  }

  /** One blocker is gone, and none has appeared. */
  lemma BlockerPerformed(start: seq<Move>, before: seq<Move>, after: seq<Move>, dests: seq<Location>, stack: seq<nat>,
          i: nat)
    requires Inv(start, dests, stack) && Inv(before, dests, stack) && Inv(after, dests, stack)
    requires stack != [] && stack[|stack| - 1] < |dests| && i < |before|
    requires Progress(start, before, dests, stack) && Progress(before, after, dests, stack) && !Live(after, i)
    requires NoBlocker(before, stack, dests[stack[|stack| - 1]], i)
    ensures Progress(start, after, dests, stack) && Active(after) <= Active(start)
    ensures NoBlocker(after, stack, dests[stack[|stack| - 1]], i + 1)
  {
    ProgressTransitive(start, before, after, dests, stack);
    ProgressKeepsUnblocked(before, after, dests, stack, stack[|stack| - 1], i);
    forall j | j in Active(after)
      ensures j in Active(start)
    {
      assert Live(after, j) && Live(start, j);
      assert j !in stack;
    }
  }

  // ----- the parallel move the resolver is given

  /** The moves that say something: not eliminated, with a destination. */
  predicate Assigns(m: Move) {
    !IsEliminated(m) && !m.dest.Invalid?
  }

  /** Distinct destinations, no scratch registers, kinds the emitter has code for (see
      Machine.MovesIffKindsMatch), no location that overlaps another one without being it, and no slots if the
      frame pointer is a destination. */
  ghost predicate ValidParallel(ms: seq<Move>) {
    && (forall i :: 0 <= i < |ms| && Assigns(ms[i]) ==> Movable(ms[i].src, ms[i].dest))
    && (forall i, j :: 0 <= i < j < |ms| && Assigns(ms[i]) && Assigns(ms[j]) ==>
        PlaceOf(ms[i].dest) != PlaceOf(ms[j].dest))
    && (forall i, j :: 0 <= i < |ms| && 0 <= j < |ms| && Assigns(ms[i]) && Assigns(ms[j]) ==>
        NoOverlap(ms[i].src, ms[j].dest))
    && (forall i, j ::
        0 <= i < |ms| && 0 <= j < |ms| && Assigns(ms[i]) && Assigns(ms[j]) && ms[i].dest == Register(FPREG) ==>
          !IsSlot(ms[j].src) && !IsSlot(ms[j].dest))
  }

  ghost predicate NoOverlap(source: Location, dest: Location)
    requires Readable(source) && Writable(dest)
  {
    !source.Constant? && PlaceOf(source) == PlaceOf(dest) ==> source == dest
  }

  /** All sources are read in s before any destination is written. */
  ghost function ParallelAssign(ms: seq<Move>, s: State): State
    requires ValidParallel(ms)
  {
    if ms == [] then s
    else
      var m, t := ms[|ms| - 1], ParallelAssign(ms[..|ms| - 1], s);
      if Assigns(m) then t[PlaceOf(m.dest) := ValueIn(m.src, s)] else t
  }

  /** build_initial_moves_list */
  function Filtered(ms: seq<Move>): seq<Move> {
    if ms == [] then []
    else Filtered(ms[..|ms| - 1]) + (if IsRedundant(ms[|ms| - 1]) then [] else [ms[|ms| - 1]])
  }

  function DestsOf(ms: seq<Move>): seq<Location> {
    seq(|ms|, i requires 0 <= i < |ms| => ms[i].dest)
  }

  lemma {:induction false} FilteredFrom(ms: seq<Move>, j: nat) returns (k: nat)
    requires j < |Filtered(ms)|
    ensures k < |ms| && ms[k] == Filtered(ms)[j] && !IsRedundant(ms[k])
  {
    var n := |ms| - 1;
    if j < |Filtered(ms[..n])| {
      k := FilteredFrom(ms[..n], j);
    } else {
      k := n;
    }
  }

  /** The moves that are not redundant keep their order. */
  lemma {:induction false} FilteredInOrder(ms: seq<Move>, i: nat, j: nat) returns (k: nat, l: nat)
    requires i < j < |Filtered(ms)|
    ensures k < l < |ms| && ms[k] == Filtered(ms)[i] && ms[l] == Filtered(ms)[j]
  {
    var n := |ms| - 1;
    if j < |Filtered(ms[..n])| {
      k, l := FilteredInOrder(ms[..n], i, j);
    } else {
      k := FilteredFrom(ms[..n], i);
      l := n;
    }
  }

  lemma {:induction false} FilteredDistinct(ms: seq<Move>, i: nat, j: nat)
    requires ValidParallel(ms) && i < j < |Filtered(ms)|
    ensures Assigns(Filtered(ms)[i]) && Assigns(Filtered(ms)[j])
    ensures Writable(Filtered(ms)[i].dest) && Writable(Filtered(ms)[j].dest)
    ensures PlaceOf(Filtered(ms)[i].dest) != PlaceOf(Filtered(ms)[j].dest)
  {
    var n := |ms| - 1;
    var k := FilteredFrom(ms, i);
    var l := FilteredFrom(ms, j);
    if j < |Filtered(ms[..n])| {
      FilteredDistinct(ms[..n], i, j);
    } else {
      var k' := FilteredFrom(ms[..n], i);
      assert Assigns(ms[k']) && Assigns(ms[n]);
    }
  }

  /** If the frame pointer is written, no slot is used. */
  lemma FilteredSlotFree(ms: seq<Move>, i: nat)
    requires ValidParallel(ms) && Register(FPREG) in DestsOf(Filtered(ms)) && i < |Filtered(ms)|
    ensures !IsSlot(Filtered(ms)[i].src) && !IsSlot(Filtered(ms)[i].dest)
  {
    var j :| 0 <= j < |Filtered(ms)| && DestsOf(Filtered(ms))[j] == Register(FPREG);
    var k := FilteredFrom(ms, j);
    var l := FilteredFrom(ms, i);
  }

  lemma FilteredFits(ms: seq<Move>)
    requires ValidParallel(ms)
    ensures Inv(Filtered(ms), DestsOf(Filtered(ms)), [])
  {
    var moves, dests := Filtered(ms), DestsOf(Filtered(ms));
    forall i | 0 <= i < |moves|
      ensures !IsRedundant(moves[i]) && Movable(moves[i].src, dests[i])
    {
      var k := FilteredFrom(ms, i);
    }
    forall i | 0 <= i < |moves| && Register(FPREG) in dests
      ensures !IsSlot(moves[i].src) && !IsSlot(dests[i])
    {
      FilteredSlotFree(ms, i);
    }
    forall i, j | 0 <= i < j < |dests|
      ensures PlaceOf(dests[i]) != PlaceOf(dests[j])
    {
      FilteredDistinct(ms, i, j);
    }
    forall i, j | Live(moves, i) && 0 <= j < |dests| && !moves[i].src.Constant? &&
        PlaceOf(moves[i].src) == PlaceOf(dests[j])
      ensures moves[i].src == dests[j]
    {
      var k := FilteredFrom(ms, i);
      var l := FilteredFrom(ms, j);
    }
  }

  lemma {:induction false} AssignedValue(ms: seq<Move>, s: State, k: nat)
    requires ValidParallel(ms) && k < |ms| && Assigns(ms[k])
    ensures ParallelAssign(ms, s)[PlaceOf(ms[k].dest)] == ValueIn(ms[k].src, s)
  {
    if k < |ms| - 1 {
      AssignedValue(ms[..|ms| - 1], s, k);
    }
  }

  lemma {:induction false} UnassignedValue(ms: seq<Move>, s: State, p: Place)
    requires ValidParallel(ms) && forall k :: 0 <= k < |ms| && Assigns(ms[k]) ==> PlaceOf(ms[k].dest) != p
    ensures ParallelAssign(ms, s)[p] == s[p]
  {
    if ms != [] {
      UnassignedValue(ms[..|ms| - 1], s, p);
    }
  }

  lemma {:induction false} NotRedundantIsFiltered(ms: seq<Move>, k: nat) returns (j: nat)
    requires k < |ms| && !IsRedundant(ms[k])
    ensures j < |Filtered(ms)| && Filtered(ms)[j] == ms[k]
  {
    var n := |ms| - 1;
    if k < n {
      j := NotRedundantIsFiltered(ms[..n], k);
    } else {
      j := |Filtered(ms[..n])|;
    }
  }

  /** Dropping redundant moves does not change what the parallel move means. */
  lemma FilteredRealises(ms: seq<Move>, s: State)
    requires ValidParallel(ms)
    ensures Inv(Filtered(ms), DestsOf(Filtered(ms)), [])
    ensures Realises(Filtered(ms), DestsOf(Filtered(ms)), s, ParallelAssign(ms, s))
  {
    FilteredFits(ms);
    var moves, dests, target := Filtered(ms), DestsOf(Filtered(ms)), ParallelAssign(ms, s);
    forall i | Live(moves, i)
      ensures target[PlaceOf(dests[i])] == ValueIn(moves[i].src, s)
    {
      var k := FilteredFrom(ms, i);
      AssignedValue(ms, s, k);
    }
    forall p: Place | !Scratch(p) && !Targeted(moves, dests, p)
      ensures target[p] == s[p]
    {
      if k :| 0 <= k < |ms| && Assigns(ms[k]) && PlaceOf(ms[k].dest) == p {
        AssignedValue(ms, s, k);
        if !IsRedundant(ms[k]) {
          var j := NotRedundantIsFiltered(ms, k);
          assert Live(moves, j);
        }
      } else {
        UnassignedValue(ms, s, p);
      }
    }
  }

  /** Where the whole move list should lead, after the code that was there before. */
  ghost function GoalOf(ms: seq<Move>, start: seq<Instr>): State -> State
    requires ValidParallel(ms)
  {
    s => ParallelAssign(ms, ExecAll(start, s))
  }

  lemma InitiallyWorks(ms: seq<Move>, start: seq<Instr>) returns (moves: seq<Move>, dests: seq<Location>)
    requires ValidParallel(ms)
    ensures moves == Filtered(ms) && dests == DestsOf(moves)
    ensures Inv(moves, dests, []) && Works(moves, dests, start, GoalOf(ms, start))
  {
    moves := Filtered(ms);
    dests := DestsOf(moves);
    FilteredFits(ms);
    var goal := GoalOf(ms, start);
    forall s: State
      ensures Realises(moves, dests, ExecAll(start, s), goal(s))
    {
      FilteredRealises(ms, ExecAll(start, s));
    }
  }

  /** The code is as good as the parallel move: scratch registers aside, it does the same to every place. */
  ghost predicate Implements(ms: seq<Move>, start: seq<Instr>, code: seq<Instr>)
    requires ValidParallel(ms)
  {
    forall s: State, p: Place :: SameEffect(ms, start, code, s, p)
  }

  ghost predicate SameEffect(ms: seq<Move>, start: seq<Instr>, code: seq<Instr>, s: State, p: Place)
    requires ValidParallel(ms)
  {
    !Scratch(p) ==> ExecAll(code, s)[p] == ParallelAssign(ms, ExecAll(start, s))[p]
  }

  /** Nothing is left to do. */
  lemma FinallyDone(moves: seq<Move>, dests: seq<Location>, code: seq<Instr>, ms: seq<Move>, start: seq<Instr>)
    requires ValidParallel(ms) && Inv(moves, dests, []) && Works(moves, dests, code, GoalOf(ms, start))
    requires forall j :: !Live(moves, j)
    ensures Implements(ms, start, code) && OnlyRegisterCycles(moves, dests)
  {
    forall s: State, p: Place
      ensures SameEffect(ms, start, code, s, p)
    {
      assert Realises(moves, dests, ExecAll(code, s), GoalOf(ms, start)(s));
      assert !Targeted(moves, dests, p);
    }
  }

  // ----- the frame pointer while the code runs

  /** No instruction uses the frame if one may set the frame pointer. */
  ghost predicate FrameSafe(code: seq<Instr>, dests: seq<Location>) {
    forall i :: i in code ==> if Register(FPREG) in dests then !UsesFrame(i) else !SetsFramePointer(i)
  }

  lemma MoveIsFrameSafe(moves: seq<Move>, dests: seq<Location>, i: nat, code: seq<Instr>)
    requires |moves| == |dests| && Targets(dests) && SourcesFit(moves, dests) && Live(moves, i) &&
             FrameSafe(code, dests)
    ensures FrameSafe(code + MoveCode(moves[i].src, dests[i]), dests)
  {
    assert Movable(moves[i].src, dests[i]) && dests[i] in dests;
    MoveCodeFrame(moves[i].src, dests[i]);
  }

  lemma SwapIsFrameSafe(dests: seq<Location>, a: Location, b: Location, code: seq<Instr>)
    requires a.Register? && b.Register? && a in dests && b in dests && FrameSafe(code, dests)
    ensures FrameSafe(code + SwapCode(a.reg, b.reg), dests)
  {
  }

  // ----- the resolver

  class MoveResolver {
    var moves: seq<Move>
    var code: seq<Instr>

    constructor ()
      ensures moves == [] && code == []
    {
      moves, code := [], [];
    }

    method EmitMove(index: nat)
      requires index < |moves|
      modifies this
      ensures code == old(code) + MoveCode(old(moves[index].src), old(moves[index].dest))
      ensures moves == old(moves)[index := ELIMINATED]
    {
      code := code + MoveCode(moves[index].src, moves[index].dest);
      moves := moves[index := ELIMINATED];
    }

    /** Swaps registers only; for anything else the source aborts, which ok == false stands for. */
    method EmitSwap(index: nat) returns (ok: bool)
      requires index < |moves| && !IsEliminated(moves[index]) && moves[index].src != moves[index].dest
      modifies this
      ensures ok <==> old(moves[index].src.Register? && moves[index].dest.Register?)
      ensures ok ==> code == old(code) + SwapCode(old(moves[index].src.reg), old(moves[index].dest.reg))
      ensures ok ==> moves == old(Swapped(moves, index, moves[index].src, moves[index].dest))
    {
      var source, dest := moves[index].src, moves[index].dest;
      if !source.Register? || !dest.Register? {
        return false;
      }
      code := code + SwapCode(source.reg, dest.reg);
      moves := moves[index := ELIMINATED];
      ghost var eliminated := moves;
      for i := 0 to |moves|
        invariant |moves| == |eliminated| && code == old(code) + SwapCode(source.reg, dest.reg)
        invariant forall j :: i <= j < |moves| ==> moves[j] == eliminated[j]
        invariant forall j :: 0 <= j < i ==> moves[j] == Swapped(old(moves), index, source, dest)[j]
      {
        if Blocks(moves[i], source) {
          moves := moves[i := moves[i].(src := dest)];
        } else if Blocks(moves[i], dest) {
          moves := moves[i := moves[i].(src := source)];
        }
      }
      return true;
    }

    /** perform_move. The test that eliminates the move is inverted in the source. */
    method PerformMove(index: nat, ghost dests: seq<Location>, ghost pending: seq<nat>,
            ghost goal: State -> State) returns (ok: bool)
      requires Inv(moves, dests, pending) && Live(moves, index) && index !in pending
      requires pending != [] ==> moves[index].src == dests[pending[|pending| - 1]]
      requires Works(moves, dests, code, goal)
      modifies this
      ensures ok ==> Settles(old(moves), moves, dests, pending, index, code, goal)
      ensures ok && FrameSafe(old(code), dests) ==> FrameSafe(code, dests)
      ensures !ok ==> !OnlyRegisterCycles(old(moves), dests)
      decreases Active(moves), 0
    {
      ghost var stack := pending + [index];
      MarkKeepsInv(moves, dests, pending, index);
      assert index in Active(moves);
      var dest := moves[index].dest;
      moves := WithDest(moves, index, Invalid);
      ok := PerformBlockers(dest, dests, stack, goal);
      if !ok { return; }
      BlockersGone(old(moves), moves, dests, pending, index, code, goal);
      moves := WithDest(moves, index, dest);
      ghost var unmarked := moves;
      ok := Finish(index, dests, pending, goal);
      if ok {
        SettledAfterBlockers(old(moves), unmarked, moves, dests, pending, index, code, goal);
      }
    }

    /** The loop of perform_move that performs what blocks the pending move first. */
    method PerformBlockers(dest: Location, ghost dests: seq<Location>, ghost stack: seq<nat>,
            ghost goal: State -> State) returns (ok: bool)
      requires Inv(moves, dests, stack) && stack != [] && stack[|stack| - 1] < |dests| &&
               dest == dests[stack[|stack| - 1]]
      requires Works(moves, dests, code, goal)
      modifies this
      ensures ok ==> Inv(moves, dests, stack) && Progress(old(moves), moves, dests, stack)
      ensures ok ==> NoBlocker(moves, stack, dest, |moves|) && Works(moves, dests, code, goal)
      ensures ok ==> (OnlyRegisterCycles(old(moves), dests) <==> OnlyRegisterCycles(moves, dests))
      ensures ok && FrameSafe(old(code), dests) ==> FrameSafe(code, dests)
      ensures !ok ==> !OnlyRegisterCycles(old(moves), dests)
      decreases Active(moves), 1
    {
      ok := true;
      var i := 0;
      while i < |moves|
        invariant 0 <= i <= |moves| && Inv(moves, dests, stack) && Progress(old(moves), moves, dests, stack)
        invariant NoBlocker(moves, stack, dest, i) && Works(moves, dests, code, goal)
        invariant OnlyRegisterCycles(old(moves), dests) <==> OnlyRegisterCycles(moves, dests)
        invariant Active(moves) <= old(Active(moves))
        invariant FrameSafe(old(code), dests) ==> FrameSafe(code, dests)
        decreases |moves| - i
      {
        var other := moves[i];
        if Blocks(other, dest) && !IsPending(other) {
          ghost var before := moves;
          NotPendingNotOnStack(moves, dests, stack, i);
          ok := PerformMove(i, dests, stack, goal);
          if !ok { return; }
          BlockerPerformed(old(moves), before, moves, dests, stack, i);
        }
        i := i + 1;
      }
    }

    /** The end of perform_move: nothing but pending moves can still block this one. */
    method Finish(index: nat, ghost dests: seq<Location>, ghost pending: seq<nat>,
            ghost goal: State -> State) returns (ok: bool)
      requires Ready(moves, dests, pending, index, code, goal)
      modifies this
      ensures ok ==> Settles(old(moves), moves, dests, pending, index, code, goal)
      ensures ok && FrameSafe(old(code), dests) ==> FrameSafe(code, dests)
      ensures !ok ==> !OnlyRegisterCycles(old(moves), dests)
    {
      var dest := moves[index].dest;
      assert dest == dests[index];
      if moves[index].src == dest {
        FinishBySelf(moves, dests, pending, index, code, goal);
        moves := moves[index := ELIMINATED];
        return true;
      }
      for i := 0 to |moves|
        invariant moves == old(moves) && code == old(code)
        invariant forall j :: 0 <= j < i ==> !Blocks(moves[j], dest)
      {
        if Blocks(moves[i], dest) {
          BlockedMeansCycle(moves, dests, pending, index, i, code, goal);
          SwapKeepsCycles(moves, dests, pending, index);
          ok := EmitSwap(index);
          if ok {
            FinishBySwap(old(moves), dests, pending, index, old(code), goal);
            SwapReadyFacts(old(moves), dests, pending, index);
            if FrameSafe(old(code), dests) {
              SwapIsFrameSafe(dests, old(moves[index].src), dest, old(code));
            }
          }
          return;
        }
      }
      FinishByMove(moves, dests, pending, index, code, goal);
      if FrameSafe(code, dests) {
        MoveIsFrameSafe(moves, dests, index, code);
      }
      EmitMove(index);
      return true;
    }

    /** build_initial_moves_list */
    method BuildInitialMovesList(parallel: seq<Move>)
      requires moves == []
      modifies this`moves
      ensures moves == Filtered(parallel) && code == old(code)
    {
      for i := 0 to |parallel|
        invariant moves == Filtered(parallel[..i])
      {
        assert parallel[..i + 1][..i] == parallel[..i];
        if !IsRedundant(parallel[i]) {
          moves := moves + [parallel[i]];
        }
      }
      assert parallel[..|parallel|] == parallel;
    }

    /** move_resolver_compile. In the source the body of the loop is empty. Here every move that does not load
        a constant is performed, then the constants are loaded, then the list is cleared. */
    method Compile(parallel: seq<Move>) returns (ok: bool)
      requires ValidParallel(parallel) && moves == []
      modifies this
      ensures ok <==> OnlyRegisterCycles(Filtered(parallel), DestsOf(Filtered(parallel)))
      ensures ok ==> moves == []
      ensures ok ==> Implements(parallel, old(code), code)
      ensures ok && old(code) == [] ==> FrameSafe(code, DestsOf(Filtered(parallel)))
    {
      ghost var initial, dests := InitiallyWorks(parallel, code);
      BuildInitialMovesList(parallel);
      ok := CompileList(initial, dests, parallel);
    }

    method CompileList(ghost initial: seq<Move>, ghost dests: seq<Location>,
            ghost parallel: seq<Move>) returns (ok: bool)
      requires ValidParallel(parallel) && moves == initial
      requires Inv(initial, dests, []) && Works(initial, dests, code, GoalOf(parallel, code))
      modifies this
      ensures ok <==> OnlyRegisterCycles(initial, dests)
      ensures ok ==> moves == [] && Implements(parallel, old(code), code)
      ensures ok && FrameSafe(old(code), dests) ==> FrameSafe(code, dests)
    {
      ghost var start, goal := code, GoalOf(parallel, code);
      ok := PerformMoves(dests, goal);
      if !ok { return; }
      LoadConstants(dests, goal);
      ghost var final := code;
      FinallyDone(moves, dests, final, parallel, start);
      moves := [];
      assert code == final && old(code) == start;
      assert Implements(parallel, start, final);
    }

    method PerformMoves(ghost dests: seq<Location>, ghost goal: State -> State) returns (ok: bool)
      requires Inv(moves, dests, []) && Works(moves, dests, code, goal)
      modifies this
      ensures ok ==> Inv(moves, dests, []) && Works(moves, dests, code, goal)
      ensures ok ==> OnlyConstants(moves, |moves|)
      ensures ok && FrameSafe(old(code), dests) ==> FrameSafe(code, dests)
      ensures ok ==> (OnlyRegisterCycles(old(moves), dests) <==> OnlyRegisterCycles(moves, dests))
      ensures !ok ==> !OnlyRegisterCycles(old(moves), dests)
    {
      ok := true;
      var i := 0;
      while i < |moves|
        invariant 0 <= i <= |moves| && Inv(moves, dests, []) && Works(moves, dests, code, goal)
        invariant OnlyConstants(moves, i) && (FrameSafe(old(code), dests) ==> FrameSafe(code, dests))
        invariant OnlyRegisterCycles(old(moves), dests) <==> OnlyRegisterCycles(moves, dests)
        decreases |dests| - i
      {
        if !IsEliminated(moves[i]) && !moves[i].src.Constant? {
          ghost var before := moves;
          ok := PerformMove(i, dests, [], goal);
          if !ok { return; }
          assert Progress(before, moves, dests, []);
        }
        i := i + 1;
      }
    }

    method LoadConstants(ghost dests: seq<Location>, ghost goal: State -> State)
      requires Inv(moves, dests, []) && Works(moves, dests, code, goal) && OnlyConstants(moves, |moves|)
      modifies this
      ensures Inv(moves, dests, []) && Works(moves, dests, code, goal)
      ensures forall j :: !Live(moves, j)
      ensures FrameSafe(old(code), dests) ==> FrameSafe(code, dests)
      ensures OnlyRegisterCycles(old(moves), dests) <==> OnlyRegisterCycles(moves, dests)
    {
      var i := 0;
      while i < |moves|
        invariant 0 <= i <= |moves| && Inv(moves, dests, []) && Works(moves, dests, code, goal)
        invariant OnlyConstants(moves, |moves|) && forall j :: 0 <= j < i ==> !Live(moves, j)
        invariant FrameSafe(old(code), dests) ==> FrameSafe(code, dests)
        invariant OnlyRegisterCycles(old(moves), dests) <==> OnlyRegisterCycles(moves, dests)
        decreases |dests| - i
      {
        if !IsEliminated(moves[i]) {
          ConstantIsReady(moves, dests, i, code, goal);
          FinishByMove(moves, dests, [], i, code, goal);
          if FrameSafe(code, dests) {
            MoveIsFrameSafe(moves, dests, i, code);
          }
          EmitMove(i);
        }
        i := i + 1;
      }
    }
  }

  /** Of the first n moves, only constant loads are left. */
  ghost predicate OnlyConstants(moves: seq<Move>, n: int)
    requires n <= |moves|
  {
    forall j :: 0 <= j < n && Live(moves, j) ==> moves[j].src.Constant?
  }

  lemma ConstantIsReady(moves: seq<Move>, dests: seq<Location>, i: nat, code: seq<Instr>, goal: State -> State)
    requires Inv(moves, dests, []) && Works(moves, dests, code, goal) && OnlyConstants(moves, |moves|) && Live(moves, i)
    ensures Ready(moves, dests, [], i, code, goal) && moves[i].src != dests[i] && moves[i].dest == dests[i]
    ensures forall j :: 0 <= j < |moves| ==> !Blocks(moves[j], dests[i])
  {
    forall j | 0 <= j < |moves|
      ensures !Blocks(moves[j], dests[i])
    {
      if !IsEliminated(moves[j]) { assert Live(moves, j); }
    }
  }

  // ----- the resolver as written

  /** As written, compile emits no code at all. That meets the specification exactly when every move of the
      list is redundant. */
  lemma CompileAsWritten(parallel: seq<Move>)
    requires ValidParallel(parallel)
    ensures Implements(parallel, [], []) <==> (forall k :: 0 <= k < |parallel| ==> IsRedundant(parallel[k]))
  {
    if forall k :: 0 <= k < |parallel| ==> IsRedundant(parallel[k]) {
      forall s: State, p: Place
        ensures SameEffect(parallel, [], [], s, p)
      {
        if k :| 0 <= k < |parallel| && Assigns(parallel[k]) && PlaceOf(parallel[k].dest) == p {
          AssignedValue(parallel, s, k);
        } else {
          UnassignedValue(parallel, s, p);
        }
      }
    }
    if k :| 0 <= k < |parallel| && !IsRedundant(parallel[k]) {
      // A state in which the destination does not happen to hold the value already.
      var m := parallel[k];
      var d := PlaceOf(m.dest);
      assert Movable(m.src, m.dest) && !Scratch(d);
      var s := OnlyAt(d, if m.src.Constant? then m.src.value + 1 else 1);
      AssignedValue(parallel, s, k);
      assert !SameEffect(parallel, [], [], s, d);
    }
  }
}
