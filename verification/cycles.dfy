/** Cycles of moves: when the resolver has to swap, and when it cannot. */
module Cycles {
  import opened Words
  import opened Machine
  import opened Moves

  /** c is a union of cycles of live moves: each of its destinations is the source of exactly one of its
      moves, and each source is a destination. Moves onto themselves do not count. */
  ghost predicate IsCycle(moves: seq<Move>, dests: seq<Location>, c: set<nat>)
    requires |moves| == |dests|
  {
    && (forall i :: i in c ==> Live(moves, i) && moves[i].src != dests[i])
    && (forall i {:trigger SourceIn(moves, c, dests[i])} :: i in c ==> SourceIn(moves, c, dests[i]))
    && (forall j {:trigger DestIn(dests, c, moves[j].src)} :: j in c ==> DestIn(dests, c, moves[j].src))
    && (forall j, k :: j in c && k in c && j != k ==> moves[j].src != moves[k].src)
  }

  ghost predicate SourceIn(moves: seq<Move>, c: set<nat>, l: Location) {
    exists j :: j in c && j < |moves| && moves[j].src == l
  }

  ghost predicate DestIn(dests: seq<Location>, c: set<nat>, l: Location) {
    exists i :: i in c && i < |dests| && dests[i] == l
  }

  ghost predicate OnlyRegisters(dests: seq<Location>, c: set<nat>) {
    forall i :: i in c && i < |dests| ==> dests[i].Register?
  }

  /** The resolver can swap registers only. */
  ghost predicate OnlyRegisterCycles(moves: seq<Move>, dests: seq<Location>)
    requires |moves| == |dests|
  {
    forall c :: IsCycle(moves, dests, c) ==> OnlyRegisters(dests, c)
  }

  // ----- eliminations leave the cycles alone

  lemma EliminateKeepsCycles(moves: seq<Move>, dests: seq<Location>, i: nat)
    requires |moves| == |dests| && i < |moves|
    requires moves[i].src == dests[i] || forall j :: Live(moves, j) && j != i ==> moves[j].src != dests[i]
    ensures forall c: set<nat> :: IsCycle(moves, dests, c) <==> IsCycle(moves[i := ELIMINATED], dests, c)
    ensures OnlyRegisterCycles(moves, dests) <==> OnlyRegisterCycles(moves[i := ELIMINATED], dests)
  {
    forall c: set<nat>
      ensures IsCycle(moves, dests, c) <==> IsCycle(moves[i := ELIMINATED], dests, c)
    {
      var moves' := moves[i := ELIMINATED];
      if IsCycle(moves, dests, c) {
        assert i in c ==> SourceIn(moves, c, dests[i]);
        assert i !in c;
        CycleElsewhere(moves, moves', dests, c);
      }
      if IsCycle(moves', dests, c) {
        assert i !in c by { assert !Live(moves', i); }
        CycleElsewhere(moves', moves, dests, c);
      }
    }
  }

  /** Only the sources of the members matter. */
  lemma CycleElsewhere(moves: seq<Move>, moves': seq<Move>, dests: seq<Location>, c: set<nat>)
    requires |moves| == |moves'| == |dests| && IsCycle(moves, dests, c)
    requires forall i :: i in c && i < |moves| ==> moves'[i].src == moves[i].src
    ensures IsCycle(moves', dests, c)
  {
    forall i | i in c
      ensures Live(moves', i) && SourceIn(moves', c, dests[i])
    {
      assert Live(moves, i);
      assert SourceIn(moves, c, dests[i]);
      var j :| j in c && j < |moves| && moves[j].src == dests[i];
      assert moves'[j].src == dests[i];
    }
    forall j | j in c
      ensures DestIn(dests, c, moves'[j].src)
    {
      assert DestIn(dests, c, moves[j].src);
    }
  }

  // ----- the pending stack closes a cycle

  ghost function Members(stack: seq<nat>): set<nat> {
    set i | i in stack
  }

  /** The whole stack is one cycle: its outermost move reads what its innermost one writes. */
  ghost predicate Closed(moves: seq<Move>, dests: seq<Location>, stack: seq<nat>)
    requires |moves| == |dests|
  {
    && Targets(dests) && PendingChain(moves, dests, stack) && |stack| >= 2
    && moves[stack[0]].src == dests[stack[|stack| - 1]]
  }

  /** The position before m, around the cycle. */
  function Before(m: nat, n: nat): nat
    requires m < n
  {
    if m == 0 then n - 1 else m - 1
  }

  function After(m: nat, n: nat): nat
    requires m < n
  {
    if m == n - 1 then 0 else m + 1
  }

  lemma StackLink(moves: seq<Move>, dests: seq<Location>, stack: seq<nat>, m: nat)
    requires |moves| == |dests| && Closed(moves, dests, stack) && m < |stack|
    ensures Live(moves, stack[m]) && Live(moves, stack[Before(m, |stack|)])
    ensures moves[stack[m]].src == dests[stack[Before(m, |stack|)]]
    ensures stack[m] != stack[Before(m, |stack|)]
  {
  }

  lemma StackMember(moves: seq<Move>, dests: seq<Location>, stack: seq<nat>, m: nat)
    requires |moves| == |dests| && Closed(moves, dests, stack) && m < |stack|
    ensures Live(moves, stack[m]) && moves[stack[m]].src != dests[stack[m]]
    ensures SourceIn(moves, Members(stack), dests[stack[m]]) && DestIn(dests, Members(stack), moves[stack[m]].src)
  {
    StackLink(moves, dests, stack, m);
    StackLink(moves, dests, stack, After(m, |stack|));
    SamePlaceSameMove(dests, stack[Before(m, |stack|)], stack[m]);
    assert stack[After(m, |stack|)] in Members(stack) && stack[Before(m, |stack|)] in Members(stack);
  }

  lemma StackSourcesDiffer(moves: seq<Move>, dests: seq<Location>, stack: seq<nat>, m: nat, l: nat)
    requires |moves| == |dests| && Closed(moves, dests, stack) && m < l < |stack|
    ensures Live(moves, stack[m]) && Live(moves, stack[l]) && moves[stack[m]].src != moves[stack[l]].src
  {
    StackLink(moves, dests, stack, m);
    StackLink(moves, dests, stack, l);
    assert Before(m, |stack|) != Before(l, |stack|);
    assert stack[Before(m, |stack|)] != stack[Before(l, |stack|)];
    SamePlaceSameMove(dests, stack[Before(m, |stack|)], stack[Before(l, |stack|)]);
  }

  lemma ClosedStackIsCycle(moves: seq<Move>, dests: seq<Location>, stack: seq<nat>)
    requires |moves| == |dests| && Closed(moves, dests, stack)
    ensures IsCycle(moves, dests, Members(stack))
  {
    var c := Members(stack);
    forall i | i in c
      ensures Live(moves, i) && moves[i].src != dests[i]
    {
      var m :| 0 <= m < |stack| && stack[m] == i;
      StackMember(moves, dests, stack, m);
    }
    forall i {:trigger SourceIn(moves, c, dests[i])} | i in c
      ensures SourceIn(moves, c, dests[i])
    {
      var m :| 0 <= m < |stack| && stack[m] == i;
      StackMember(moves, dests, stack, m);
    }
    forall i {:trigger DestIn(dests, c, moves[i].src)} | i in c
      ensures DestIn(dests, c, moves[i].src)
    {
      var m :| 0 <= m < |stack| && stack[m] == i;
      StackMember(moves, dests, stack, m);
    }
    forall j, k | j in c && k in c && j != k
      ensures moves[j].src != moves[k].src
    {
      var m :| 0 <= m < |stack| && stack[m] == j;
      var l :| 0 <= l < |stack| && stack[l] == k;
      if m < l {
        StackSourcesDiffer(moves, dests, stack, m, l);
      } else {
        StackSourcesDiffer(moves, dests, stack, l, m);
      }
    }
  }

  // ----- a swap at the top of the stack shortens the cycle and keeps all others

  /** A swap of the top of a closed stack: nothing outside the stack reads what the top writes. */
  ghost predicate SwapReady(moves: seq<Move>, dests: seq<Location>, pending: seq<nat>, i: nat)
    requires |moves| == |dests|
  {
    && pending != [] && Closed(moves, dests, pending + [i])
    && forall j :: Live(moves, j) && j !in pending && j != i ==> moves[j].src != dests[i]
  }

  lemma SwapReadyFacts(moves: seq<Move>, dests: seq<Location>, pending: seq<nat>, i: nat)
    requires |moves| == |dests| && SwapReady(moves, dests, pending, i)
    ensures Live(moves, i) && i !in pending
    ensures forall m :: 0 <= m < |pending| ==> pending[m] < |moves|
    ensures moves[i].src == dests[pending[|pending| - 1]]
    ensures moves[pending[0]].src == dests[i] && moves[i].src != dests[i]
    ensures forall m :: 0 <= m < |pending| ==> Live(moves, pending[m])
    ensures forall m :: 0 < m < |pending| ==> moves[pending[m]].src == dests[pending[m - 1]]
    ensures forall m, k :: 0 <= m < k < |pending| ==> pending[m] != pending[k]
    ensures forall j :: Live(moves, j) && moves[j].src == dests[i] ==> j == pending[0]
  {
    var stack, n := pending + [i], |pending|;
    assert forall m :: 0 <= m < n ==> stack[m] == pending[m];
    assert stack[n] == i;
    SamePlaceSameMove(dests, pending[n - 1], i);
    forall j | Live(moves, j) && moves[j].src == dests[i]
      ensures j == pending[0]
    {
      if j in pending {
        var m :| 0 <= m < n && pending[m] == j;
        if m > 0 {
          SamePlaceSameMove(dests, pending[m - 1], i);
        }
      }
    }
  }

  /** The sources after the swap, move by move. */
  lemma SourcesAfterSwap(moves: seq<Move>, dests: seq<Location>, pending: seq<nat>, i: nat)
    requires |moves| == |dests| && SwapReady(moves, dests, pending, i)
    ensures Live(moves, i) && forall m :: 0 <= m < |pending| ==> pending[m] < |moves|
    ensures var a, moves' := moves[i].src, Swapped(moves, i, moves[i].src, dests[i]);
            && moves'[pending[0]].src == a
            && (forall j: nat :: Live(moves', j) <==> Live(moves, j) && j != i)
            && (forall j: nat :: Live(moves', j) && j != pending[0] ==>
                  moves'[j].src == if moves[j].src == a then dests[i] else moves[j].src)
            && (forall m :: 0 < m < |pending| ==> moves'[pending[m]].src == moves[pending[m]].src)
  {
    SwapReadyFacts(moves, dests, pending, i);
    forall m | 0 < m < |pending|
      ensures moves[pending[m]].src != moves[i].src && moves[pending[m]].src != dests[i]
    {
      SamePlaceSameMove(dests, pending[m - 1], pending[|pending| - 1]);
    }
  }

  /** Any cycle after the swap is a cycle before it, or becomes one when i rejoins. */
  lemma CycleBeforeSwap(moves: seq<Move>, dests: seq<Location>, pending: seq<nat>, i: nat, c: set<nat>)
    requires |moves| == |dests| && SwapReady(moves, dests, pending, i)
    requires Live(moves, i) && IsCycle(Swapped(moves, i, moves[i].src, dests[i]), dests, c)
    ensures IsCycle(moves, dests, c) || IsCycle(moves, dests, c + {i})
  {
    SwapReadyFacts(moves, dests, pending, i);
    SourcesAfterSwap(moves, dests, pending, i);
    var a, b, first := moves[i].src, dests[i], pending[0];
    var moves' := Swapped(moves, i, a, b);
    forall j | j in c
      ensures Live(moves', j) && j != i && (j != first ==> moves'[j].src == moves[j].src)
    {
      assert Live(moves', j);
      if j != first && moves[j].src == a {
        // j would now read b, which only i writes.
        assert DestIn(dests, c, moves'[j].src);
        var k :| k in c && k < |dests| && dests[k] == b;
        SamePlaceSameMove(dests, k, i);
      }
    }
    if first !in c {
      CycleElsewhere(moves', moves, dests, c);
    } else {
      CycleRejoined(moves, moves', dests, c, i, first);
    }
  }

  /** c, a cycle of moves', in which first reads what i read before the swap; everything else in c is as it
      was before. */
  ghost predicate Rejoinable(moves: seq<Move>, moves': seq<Move>, dests: seq<Location>, c: set<nat>, i: nat,
          first: nat) {
    && |moves| == |moves'| == |dests| && Targets(dests) && IsCycle(moves', dests, c)
    && Live(moves, i) && i !in c && first in c && moves[i].src != dests[i]
    && Live(moves', first) && Live(moves, first) && first != i
    && moves'[first].src == moves[i].src && moves[first].src == dests[i]
    && forall j :: j in c && j != first ==> Live(moves, j) && moves'[j].src == moves[j].src
  }

  lemma RejoinedSource(moves: seq<Move>, moves': seq<Move>, dests: seq<Location>, c: set<nat>, i: nat, first: nat,
          k: nat)
    requires Rejoinable(moves, moves', dests, c, i, first) && k in c + {i}
    ensures Live(moves, k) && moves[k].src != dests[k] && SourceIn(moves, c + {i}, dests[k])
  {
    SamePlaceSameMove(dests, first, i);
    if k == i {
      assert first in c + {i};
    } else {
      assert SourceIn(moves', c, dests[k]);
      var j :| j in c && j < |moves'| && moves'[j].src == dests[k];
      var j' := if j == first then i else j;
      assert j' in c + {i} && moves[j'].src == dests[k];
    }
  }

  lemma RejoinedDest(moves: seq<Move>, moves': seq<Move>, dests: seq<Location>, c: set<nat>, i: nat, first: nat, j: nat)
    requires Rejoinable(moves, moves', dests, c, i, first) && j in c + {i}
    ensures j < |moves| && DestIn(dests, c + {i}, moves[j].src)
  {
    if j == first {
      assert i in c + {i};
    } else {
      var j' := if j == i then first else j;
      assert DestIn(dests, c, moves'[j'].src);
      var k :| k in c && k < |dests| && dests[k] == moves'[j'].src;
      assert k in c + {i};
    }
  }

  /** A member other than first that read what i writes would need i in c. */
  lemma OthersReadElsewhere(moves: seq<Move>, moves': seq<Move>, dests: seq<Location>, c: set<nat>, i: nat,
          first: nat, x: nat)
    requires Rejoinable(moves, moves', dests, c, i, first) && x in c && x != first
    ensures x < |moves| && moves[x].src != dests[i] && moves[x].src != moves[i].src
  {
    assert DestIn(dests, c, moves'[x].src);
    var y :| y in c && y < |dests| && dests[y] == moves'[x].src;
    SamePlaceSameMove(dests, y, i);
    assert moves'[x].src != moves'[first].src;
  }

  lemma RejoinedSourcesDiffer(moves: seq<Move>, moves': seq<Move>, dests: seq<Location>, c: set<nat>, i: nat,
          first: nat, j: nat, k: nat)
    requires Rejoinable(moves, moves', dests, c, i, first) && j in c + {i} && k in c + {i} && j != k
    ensures j < |moves| && k < |moves| && moves[j].src != moves[k].src
  {
    if j in c && j != first { OthersReadElsewhere(moves, moves', dests, c, i, first, j); }
    if k in c && k != first { OthersReadElsewhere(moves, moves', dests, c, i, first, k); }
  }

  lemma CycleRejoined(moves: seq<Move>, moves': seq<Move>, dests: seq<Location>, c: set<nat>, i: nat, first: nat)
    requires Rejoinable(moves, moves', dests, c, i, first)
    ensures IsCycle(moves, dests, c + {i})
  {
    var d := c + {i};
    forall k | k in d
      ensures Live(moves, k) && moves[k].src != dests[k]
    {
      RejoinedSource(moves, moves', dests, c, i, first, k);
    }
    forall k {:trigger SourceIn(moves, d, dests[k])} | k in d
      ensures SourceIn(moves, d, dests[k])
    {
      RejoinedSource(moves, moves', dests, c, i, first, k);
    }
    forall k {:trigger DestIn(dests, d, moves[k].src)} | k in d
      ensures DestIn(dests, d, moves[k].src)
    {
      RejoinedDest(moves, moves', dests, c, i, first, k);
    }
    forall j, k | j in d && k in d && j != k
      ensures moves[j].src != moves[k].src
    {
      RejoinedSourcesDiffer(moves, moves', dests, c, i, first, j, k);
    }
  }

  // ----- and the other way round: a cycle before the swap leaves one behind

  lemma {:induction false} ChainBackward(moves: seq<Move>, dests: seq<Location>, pending: seq<nat>, c: set<nat>, m: nat)
    requires |moves| == |dests| && Targets(dests) && IsCycle(moves, dests, c) && m < |pending|
    requires forall k :: 0 <= k < |pending| ==> pending[k] < |moves|
    requires forall k :: 0 < k < |pending| ==> moves[pending[k]].src == dests[pending[k - 1]]
    requires pending[m] in c
    ensures pending[0] in c
  {
    if m > 0 {
      ReadsMember(moves, dests, c, pending[m], pending[m - 1]);
      ChainBackward(moves, dests, pending, c, m - 1);
    }
  }

  /** If a member of a cycle reads what h writes, h is a member. */
  lemma ReadsMember(moves: seq<Move>, dests: seq<Location>, c: set<nat>, j: nat, h: nat)
    requires |moves| == |dests| && Targets(dests) && IsCycle(moves, dests, c)
    requires j in c && j < |moves| && h < |dests| && moves[j].src == dests[h]
    ensures h in c
  {
    assert DestIn(dests, c, moves[j].src);
    var k :| k in c && k < |dests| && dests[k] == moves[j].src;
    SamePlaceSameMove(dests, k, h);
  }

  /** If h is a member of a cycle, a member reads what it writes. */
  lemma WritesMember(moves: seq<Move>, dests: seq<Location>, c: set<nat>, h: nat, j: nat)
    requires |moves| == |dests| && IsCycle(moves, dests, c) && h in c && h < |dests|
    requires forall x :: Live(moves, x) && moves[x].src == dests[h] ==> x == j
    ensures j in c
  {
    assert SourceIn(moves, c, dests[h]);
    var x :| x in c && x < |moves| && moves[x].src == dests[h];
    assert Live(moves, x);
  }

  lemma CycleWithoutTop(moves: seq<Move>, dests: seq<Location>, pending: seq<nat>, i: nat, c: set<nat>)
    requires |moves| == |dests| && SwapReady(moves, dests, pending, i) && Live(moves, i)
    requires IsCycle(moves, dests, c) && i !in c
    ensures IsCycle(Swapped(moves, i, moves[i].src, dests[i]), dests, c)
  {
    SwapReadyFacts(moves, dests, pending, i);
    SourcesAfterSwap(moves, dests, pending, i);
    var moves', n := Swapped(moves, i, moves[i].src, dests[i]), |pending|;
    if pending[0] in c {
      ReadsMember(moves, dests, c, pending[0], i);
    }
    forall j | j in c && j < |moves|
      ensures moves'[j].src == moves[j].src
    {
      assert Live(moves, j);
      if moves[j].src == moves[i].src {
        ReadsMember(moves, dests, c, j, pending[n - 1]);
        ChainBackward(moves, dests, pending, c, n - 1);
      }
    }
    CycleElsewhere(moves, moves', dests, c);
  }

  /** c holds the top i of the stack, the bottom first (which reads what i writes) and last (which writes what
      i reads); the swap lets first read what i read. */
  ghost predicate Shrinkable(moves: seq<Move>, moves': seq<Move>, dests: seq<Location>, c: set<nat>, i: nat,
          first: nat, last: nat) {
    && |moves| == |moves'| == |dests| && Targets(dests) && IsCycle(moves, dests, c)
    && i in c && first in c && last in c && i != first && i != last
    && i < |moves| && first < |moves| && last < |moves|
    && moves[i].src == dests[last] && moves[first].src == dests[i] && moves'[first].src == dests[last]
    && (forall j: nat :: j < |moves| && j != i ==> (Live(moves', j) <==> Live(moves, j)))
    && (forall j :: j in c && j != first && j != i && j < |moves| ==>
          moves'[j].src == if moves[j].src == moves[i].src then dests[i] else moves[j].src)
  }

  /** What is left of c after the swap: without i, and without first too if it now reads what it writes. */
  ghost function Rest(c: set<nat>, i: nat, first: nat, last: nat): set<nat> {
    if first == last then c - {i} - {first} else c - {i}
  }

  lemma ShrunkMember(moves: seq<Move>, moves': seq<Move>, dests: seq<Location>, c: set<nat>, i: nat, first: nat,
          last: nat, k: nat)
    requires Shrinkable(moves, moves', dests, c, i, first, last) && k in Rest(c, i, first, last)
    ensures Live(moves', k) && moves'[k].src != dests[k]
    ensures k != first ==> moves'[k].src == moves[k].src
    ensures SourceIn(moves', Rest(c, i, first, last), dests[k])
    ensures DestIn(dests, Rest(c, i, first, last), moves'[k].src)
  {
    var r := Rest(c, i, first, last);
    assert Live(moves, k);
    if k == first {
      SamePlaceSameMove(dests, first, last);
      assert last in r;
    } else {
      assert moves[k].src != moves[i].src && moves[k].src != moves[first].src;
      assert DestIn(dests, c, moves[k].src);
      var h :| h in c && h < |dests| && dests[h] == moves[k].src;
      assert h in r;
    }
    assert SourceIn(moves, c, dests[k]);
    var j :| j in c && j < |moves| && moves[j].src == dests[k];
    if j == i {
      SamePlaceSameMove(dests, last, k);
      assert first in r && moves'[first].src == dests[k];
    } else if j == first {
      SamePlaceSameMove(dests, i, k);
    } else {
      assert moves[j].src != moves[i].src;
      assert j in r && moves'[j].src == dests[k];
    }
  }

  lemma CycleShrunk(moves: seq<Move>, moves': seq<Move>, dests: seq<Location>, c: set<nat>, i: nat, first: nat,
          last: nat)
    requires Shrinkable(moves, moves', dests, c, i, first, last)
    ensures IsCycle(moves', dests, Rest(c, i, first, last))
  {
    var r := Rest(c, i, first, last);
    forall k | k in r
      ensures Live(moves', k) && moves'[k].src != dests[k] && (k != first ==> moves'[k].src == moves[k].src)
    {
      ShrunkMember(moves, moves', dests, c, i, first, last, k);
    }
    forall k {:trigger SourceIn(moves', r, dests[k])} | k in r
      ensures SourceIn(moves', r, dests[k])
    {
      ShrunkMember(moves, moves', dests, c, i, first, last, k);
    }
    forall k {:trigger DestIn(dests, r, moves'[k].src)} | k in r
      ensures DestIn(dests, r, moves'[k].src)
    {
      ShrunkMember(moves, moves', dests, c, i, first, last, k);
    }
    forall j, k | j in r && k in r && j != k
      ensures moves'[j].src != moves'[k].src
    {
      assert Live(moves, i);
      assert j != first ==> moves'[j].src != moves[i].src;
      assert k != first ==> moves'[k].src != moves[i].src;
    }
  }

  lemma CycleWithTop(moves: seq<Move>, dests: seq<Location>, pending: seq<nat>, i: nat, c: set<nat>)
    requires |moves| == |dests| && SwapReady(moves, dests, pending, i) && Live(moves, i)
    requires IsCycle(moves, dests, c) && i in c
    ensures pending[|pending| - 1] in c
    ensures IsCycle(Swapped(moves, i, moves[i].src, dests[i]), dests, Rest(c, i, pending[0], pending[|pending| - 1]))
  {
    SwapReadyFacts(moves, dests, pending, i);
    SourcesAfterSwap(moves, dests, pending, i);
    var moves', first, last := Swapped(moves, i, moves[i].src, dests[i]), pending[0], pending[|pending| - 1];
    WritesMember(moves, dests, c, i, first);
    ReadsMember(moves, dests, c, i, last);
    CycleShrunk(moves, moves', dests, c, i, first, last);
  }

  // ----- together

  /** A swap takes its move out of the cycles that hold it (and the move that then reads what it writes), leaves
      all other cycles as they are, and makes none. */
  ghost predicate SwapOnlyShortens(moves: seq<Move>, moves': seq<Move>, dests: seq<Location>, i: nat, first: nat,
          last: nat)
    requires |moves| == |moves'| == |dests|
  {
    && (forall c: set<nat> :: IsCycle(moves, dests, c) ==>
          IsCycle(moves', dests, if i in c then Rest(c, i, first, last) else c))
    && (forall c: set<nat> :: IsCycle(moves', dests, c) ==> IsCycle(moves, dests, c) || IsCycle(moves, dests, c + {i}))
  }

  lemma SwapShortensCycles(moves: seq<Move>, dests: seq<Location>, pending: seq<nat>, i: nat)
    requires |moves| == |dests| && SwapReady(moves, dests, pending, i)
    ensures Live(moves, i)
    ensures SwapOnlyShortens(moves, Swapped(moves, i, moves[i].src, dests[i]), dests, i, pending[0],
            pending[|pending| - 1])
  {
    SwapReadyFacts(moves, dests, pending, i);
    var moves', first, last := Swapped(moves, i, moves[i].src, dests[i]), pending[0], pending[|pending| - 1];
    forall c: set<nat> | IsCycle(moves, dests, c)
      ensures IsCycle(moves', dests, if i in c then Rest(c, i, first, last) else c)
    {
      if i in c {
        CycleWithTop(moves, dests, pending, i, c);
      } else {
        CycleWithoutTop(moves, dests, pending, i, c);
      }
    }
    forall c: set<nat> | IsCycle(moves', dests, c)
      ensures IsCycle(moves, dests, c) || IsCycle(moves, dests, c + {i})
    {
      CycleBeforeSwap(moves, dests, pending, i, c);
    }
  }

  /** At a swap: what it swaps are registers if only register cycles are left; its effect on the cycles; and it
      neither makes nor destroys a cycle that could not be resolved. */
  lemma SwapKeepsCycles(moves: seq<Move>, dests: seq<Location>, pending: seq<nat>, i: nat)
    requires |moves| == |dests| && SwapReady(moves, dests, pending, i)
    ensures Live(moves, i) && (OnlyRegisterCycles(moves, dests) ==> moves[i].src.Register? && dests[i].Register?)
    ensures SwapOnlyShortens(moves, Swapped(moves, i, moves[i].src, dests[i]), dests, i, pending[0],
            pending[|pending| - 1])
    ensures moves[i].src.Register? && dests[i].Register? ==>
              (OnlyRegisterCycles(moves, dests) <==>
                  OnlyRegisterCycles(Swapped(moves, i, moves[i].src, dests[i]), dests))
  {
    SwapReadyFacts(moves, dests, pending, i);
    SwapShortensCycles(moves, dests, pending, i);
    ClosedStackIsCycle(moves, dests, pending + [i]);
    var last := pending[|pending| - 1];
    if OnlyRegisterCycles(moves, dests) {
      assert i in Members(pending + [i]) && last in Members(pending + [i]);
      assert OnlyRegisters(dests, Members(pending + [i]));
    }
    if moves[i].src.Register? && dests[i].Register? {
      ShortenedResolvable(moves, Swapped(moves, i, moves[i].src, dests[i]), dests, i, pending[0], last);
    }
  }

  lemma ShortenedResolvable(moves: seq<Move>, moves': seq<Move>, dests: seq<Location>, i: nat, first: nat, last: nat)
    requires |moves| == |moves'| == |dests| && SwapOnlyShortens(moves, moves', dests, i, first, last)
    requires i < |dests| && last < |dests| && first < |dests| && dests[i].Register? && dests[last].Register?
    ensures OnlyRegisterCycles(moves, dests) <==> OnlyRegisterCycles(moves', dests)
  {
    if OnlyRegisterCycles(moves, dests) {
      forall c | IsCycle(moves', dests, c)
        ensures OnlyRegisters(dests, c)
      {
        if !IsCycle(moves, dests, c) {
          assert OnlyRegisters(dests, c + {i});
        }
      }
    }
    if OnlyRegisterCycles(moves', dests) {
      forall c | IsCycle(moves, dests, c)
        ensures OnlyRegisters(dests, c)
      {
        var rest := if i in c then Rest(c, i, first, last) else c;
        assert IsCycle(moves', dests, rest) && OnlyRegisters(dests, rest);
      }
    }
  }
}
