/** The theory of the parallel-move resolver: what a partly executed move list still has to do, and what
    single moves, swaps and eliminations do to it. */
module Moves {
  import opened Words
  import opened Machine

  datatype Move = Move(src: Location, dest: Location)

  const ELIMINATED := Move(Invalid, Invalid)

  // ----- parallel_move.h

  predicate IsEliminated(m: Move) {
    m.src.Invalid?
  }

  predicate IsRedundant(m: Move) {
    IsEliminated(m) || m.dest.Invalid? || m.src == m.dest
  }

  predicate Blocks(m: Move, loc: Location) {
    !IsEliminated(m) && m.src == loc
  }

  predicate IsPending(m: Move) {
    m.dest.Invalid? && !m.src.Invalid?
  }

  // ----- the invariant. Pending moves hide their destination, so dests keeps the true ones; pending is the
  //       stack of pending moves, outermost first.

  ghost predicate Live(moves: seq<Move>, i: int) {
    0 <= i < |moves| && !IsEliminated(moves[i])
  }

  /** Destinations can be written and do not overlap; if the frame pointer is one, no slot is. */
  ghost predicate Targets(dests: seq<Location>) {
    && (forall i :: 0 <= i < |dests| ==> Writable(dests[i]))
    && (Register(FPREG) in dests ==> forall i :: 0 <= i < |dests| ==> !IsSlot(dests[i]))
    && (forall i, j :: 0 <= i < j < |dests| ==> PlaceOf(dests[i]) != PlaceOf(dests[j]))
  }

  /** Each live move can be carried out, and its source overlaps a destination only if it is that
      destination. Slots are read only while the frame pointer stays. */
  ghost predicate SourcesFit(moves: seq<Move>, dests: seq<Location>)
    requires |moves| == |dests| && Targets(dests)
  {
    && (forall i :: Live(moves, i) ==> Movable(moves[i].src, dests[i]))
    && (Register(FPREG) in dests ==> forall i :: Live(moves, i) ==> !IsSlot(moves[i].src))
    && (forall i, j ::
        Live(moves, i) && 0 <= j < |dests| && !moves[i].src.Constant? && PlaceOf(moves[i].src) == PlaceOf(dests[j]) ==>
          moves[i].src == dests[j])
  }

  ghost predicate DestsMatch(moves: seq<Move>, dests: seq<Location>, pending: seq<nat>)
    requires |moves| == |dests|
  {
    forall i :: 0 <= i < |moves| ==>
      moves[i].dest == if IsEliminated(moves[i]) || i in pending then Invalid else dests[i]
  }

  /** Each pending move waits for the next one, whose source it would overwrite. */
  ghost predicate PendingChain(moves: seq<Move>, dests: seq<Location>, pending: seq<nat>)
    requires |moves| == |dests|
  {
    && (forall m :: 0 <= m < |pending| ==> Live(moves, pending[m]))
    && (forall m, k :: 0 <= m < k < |pending| ==> pending[m] != pending[k])
    && (forall m :: 0 < m < |pending| ==> moves[pending[m]].src == dests[pending[m - 1]])
  }

  ghost predicate Inv(moves: seq<Move>, dests: seq<Location>, pending: seq<nat>) {
    && |moves| == |dests| && Targets(dests) && SourcesFit(moves, dests)
    && DestsMatch(moves, dests, pending) && PendingChain(moves, dests, pending)
  }

  /** Carrying out the live moves at once from s gives target (scratch registers aside). */
  ghost predicate Realises(moves: seq<Move>, dests: seq<Location>, s: State, target: State)
    requires |moves| == |dests| && Targets(dests) && SourcesFit(moves, dests)
  {
    && (forall i :: Live(moves, i) ==> target[PlaceOf(dests[i])] == ValueIn(moves[i].src, s))
    && (forall p: Place :: !Scratch(p) && !Targeted(moves, dests, p) ==> target[p] == s[p])
  }

  ghost predicate Targeted(moves: seq<Move>, dests: seq<Location>, p: Place)
    requires |moves| == |dests| && Targets(dests)
  {
    exists i :: Live(moves, i) && PlaceOf(dests[i]) == p
  }

  lemma SamePlaceSameMove(dests: seq<Location>, i: nat, j: nat)
    requires Targets(dests) && i < |dests| && j < |dests|
    ensures dests[i] == dests[j] ==> i == j
    ensures PlaceOf(dests[i]) == PlaceOf(dests[j]) ==> i == j
  {
    if i < j || j < i {
      assert PlaceOf(dests[i]) != PlaceOf(dests[j]);
    }
  }

  // ----- eliminating a move whose source has become its destination

  lemma EliminateSelf(moves: seq<Move>, dests: seq<Location>, i: nat, s: State, target: State)
    requires |moves| == |dests| && Targets(dests) && SourcesFit(moves, dests) && Realises(moves, dests, s, target)
    requires Live(moves, i) && moves[i].src == dests[i]
    ensures SourcesFit(moves[i := ELIMINATED], dests) && Realises(moves[i := ELIMINATED], dests, s, target)
  {
    var moves' := moves[i := ELIMINATED];
    forall p: Place | !Scratch(p) && !Targeted(moves', dests, p)
      ensures target[p] == s[p]
    {
      if Targeted(moves, dests, p) {
        var j :| Live(moves, j) && PlaceOf(dests[j]) == p;
        assert j != i ==> Live(moves', j);
      }
    }
    assert forall j :: Live(moves', j) ==> Live(moves, j) && moves'[j] == moves[j];
  }

  // ----- a plain move

  lemma EmitMoveRealises(moves: seq<Move>, dests: seq<Location>, i: nat, s: State, target: State)
    requires |moves| == |dests| && Targets(dests) && SourcesFit(moves, dests) && Realises(moves, dests, s, target)
    requires Live(moves, i) && forall j :: Live(moves, j) && j != i ==> moves[j].src != dests[i]
    ensures SourcesFit(moves[i := ELIMINATED], dests)
    ensures Realises(moves[i := ELIMINATED], dests, ExecAll(MoveCode(moves[i].src, dests[i]), s), target)
  {
    var moves' := moves[i := ELIMINATED];
    var d := dests[i];
    MoveCodeMoves(moves[i].src, d, s);
    var s' := ExecAll(MoveCode(moves[i].src, d), s);
    forall j | Live(moves', j)
      ensures Live(moves, j) && moves'[j] == moves[j] && ValueIn(moves[j].src, s') == ValueIn(moves[j].src, s)
    {
      var source := moves[j].src;
      if !source.Constant? {
        assert Movable(source, dests[j]);
        assert PlaceOf(source) != PlaceOf(d);
      }
    }
    forall p: Place | !Scratch(p) && !Targeted(moves', dests, p)
      ensures target[p] == s'[p]
    {
      if p != PlaceOf(d) {
        assert !Targeted(moves, dests, p);
      }
    }
  }

  // ----- a swap

  /** The sources after the values of a and b have changed places. */
  function SwapSource(l: Location, a: Location, b: Location): Location {
    if l == a then b else if l == b then a else l
  }

  /** The move list after move_resolver_emit_swap. In the source the second branch rewrites the destination
      of the move; here it rewrites the source. */
  function Swapped(moves: seq<Move>, i: nat, a: Location, b: Location): seq<Move>
    requires i < |moves|
  {
    seq(|moves|, j requires 0 <= j < |moves| =>
      if j == i then ELIMINATED
      else if IsEliminated(moves[j]) then moves[j]
      else moves[j].(src := SwapSource(moves[j].src, a, b)))
  }

  lemma SwapKeepsSources(moves: seq<Move>, dests: seq<Location>, i: nat)
    requires |moves| == |dests| && Targets(dests) && SourcesFit(moves, dests) && Live(moves, i)
    requires moves[i].src.Register? && dests[i].Register?
    ensures SourcesFit(Swapped(moves, i, moves[i].src, dests[i]), dests)
  {
    var moves' := Swapped(moves, i, moves[i].src, dests[i]);
    assert Movable(moves[i].src, dests[i]);
    forall j | Live(moves', j)
      ensures Movable(moves'[j].src, dests[j]) && (Register(FPREG) in dests ==> !IsSlot(moves'[j].src))
    {
      assert Live(moves, j) && Movable(moves[j].src, dests[j]);
    }
    forall j, k | Live(moves', j) && 0 <= k < |dests| && !moves'[j].src.Constant? &&
        PlaceOf(moves'[j].src) == PlaceOf(dests[k])
      ensures moves'[j].src == dests[k]
    {
      assert Live(moves, j);
    }
  }

  /** A swap settles move i, provided the register it takes the value from is the destination of another live
      move, h. */
  lemma EmitSwapRealises(moves: seq<Move>, dests: seq<Location>, i: nat, h: nat, s: State, target: State)
    requires |moves| == |dests| && Targets(dests) && SourcesFit(moves, dests) && Realises(moves, dests, s, target)
    requires Live(moves, i) && moves[i].src.Register? && dests[i].Register? && moves[i].src != dests[i]
    requires Live(moves, h) && moves[i].src == dests[h]
    ensures SourcesFit(Swapped(moves, i, moves[i].src, dests[i]), dests)
    ensures Realises(Swapped(moves, i, moves[i].src, dests[i]), dests,
                     ExecAll(SwapCode(moves[i].src.reg, dests[i].reg), s), target)
  {
    var a, b := moves[i].src, dests[i];
    var moves' := Swapped(moves, i, a, b);
    assert Movable(a, b);
    SwapKeepsSources(moves, dests, i);
    SwapCodeSwaps(a.reg, b.reg, s);
    var s' := ExecAll(SwapCode(a.reg, b.reg), s);
    forall j | Live(moves', j)
      ensures Live(moves, j) && ValueIn(moves'[j].src, s') == ValueIn(moves[j].src, s)
    {
      assert Movable(moves[j].src, dests[j]);
      ValueAfterSwap(moves[j].src, a, b, s, s');
    }
    forall p: Place | !Scratch(p) && !Targeted(moves', dests, p)
      ensures target[p] == s'[p]
    {
      if p == PlaceOf(b) {
      } else {
        assert p != PlaceOf(a) by { assert Live(moves', h); }
        assert !Targeted(moves, dests, p);
      }
    }
  }

  lemma ValueAfterSwap(l: Location, a: Location, b: Location, s: State, s': State)
    requires Readable(l) && a.Register? && b.Register?
    requires s'[PlaceOf(a)] == s[PlaceOf(b)] && s'[PlaceOf(b)] == s[PlaceOf(a)]
    requires forall p: Place :: !Scratch(p) && p != PlaceOf(a) && p != PlaceOf(b) ==> s'[p] == s[p]
    ensures ValueIn(SwapSource(l, a, b), s') == ValueIn(l, s)
  {
  }
}
