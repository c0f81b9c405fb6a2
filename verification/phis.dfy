/** insert_phis: placing phi instructions on iterated dominance frontiers. */
module Phis {
  import opened BitVectors
  import opened Frontiers
  import opened Wrappers

  /** A phi instruction: the variable it merges, one input per predecessor, and its alive flag. */
  datatype Phi = Phi(varIndex: nat, inputs: nat, isAlive: bool)

  /** The phis of a join block: empty while the source's pointer is still null, afterwards one slot per
      variable. */
  type PhiTable = seq<Option<Phi>>

  predicate HasPhi(table: PhiTable, v: nat) {
    v < |table| && table[v].Some?
  }

  /** join_entry_instr_insert_phi */
  function InsertPhi(table: PhiTable, v: nat, varCount: nat, phi: Phi): PhiTable
    requires v < varCount && (table == [] || |table| == varCount)
  {
    var slots := if table == [] then seq(varCount, _ => None) else table;
    slots[v := Some(phi)]
  }

  // ----- iterated frontiers

  ghost predicate FrontierStep(f: seq<set<nat>>, x: nat, y: nat) {
    x < |f| && y in f[x]
  }

  /** c starts in a and follows the frontier relation f. */
  ghost predicate FrontierChain(f: seq<set<nat>>, a: set<nat>, c: seq<nat>) {
    && |c| >= 2 && c[0] in a
    && forall i :: 0 < i < |c| ==> FrontierStep(f, c[i - 1], c[i])
  }

  /** The blocks reachable from a through one or more frontier steps. */
  ghost predicate InIteratedFrontier(f: seq<set<nat>>, a: set<nat>, y: nat) {
    exists c :: FrontierChain(f, a, c) && c[|c| - 1] == y
  }

  /** s contains the frontier of every block of a, and of every block of its own. */
  ghost predicate ClosedUnderFrontier(f: seq<set<nat>>, a: set<nat>, s: iset<nat>) {
    forall x, y :: 0 <= x < |f| && y in f[x] && (x in a || x in s) ==> y in s
  }

  /** The iterated frontier is the least set that is closed under frontiers. */
  lemma IteratedFrontierIsLeast(f: seq<set<nat>>, a: set<nat>)
    ensures ClosedUnderFrontier(f, a, iset y: nat | InIteratedFrontier(f, a, y))
    ensures forall s :: ClosedUnderFrontier(f, a, s) ==> forall y: nat :: InIteratedFrontier(f, a, y) ==> y in s
  {
    forall x, y | 0 <= x < |f| && y in f[x] && (x in a || InIteratedFrontier(f, a, x))
      ensures InIteratedFrontier(f, a, y)
    {
      IteratedFrontierStep(f, a, x, y);
    }
    forall s, y: nat | ClosedUnderFrontier(f, a, s) && InIteratedFrontier(f, a, y)
      ensures y in s
    {
      var c :| FrontierChain(f, a, c) && c[|c| - 1] == y;
      ChainStaysInside(f, a, s, c);
    }
  }

  lemma IteratedFrontierStep(f: seq<set<nat>>, a: set<nat>, x: nat, y: nat)
    requires x < |f| && y in f[x] && (x in a || InIteratedFrontier(f, a, x))
    ensures InIteratedFrontier(f, a, y)
  {
    if x in a {
      assert FrontierChain(f, a, [x, y]);
    } else {
      var c :| FrontierChain(f, a, c) && c[|c| - 1] == x;
      assert FrontierChain(f, a, c + [y]);
    }
  }

  lemma {:induction false} ChainStaysInside(f: seq<set<nat>>, a: set<nat>, s: iset<nat>, c: seq<nat>)
    requires ClosedUnderFrontier(f, a, s) && FrontierChain(f, a, c)
    ensures c[|c| - 1] in s
  {
    assert FrontierStep(f, c[|c| - 2], c[|c| - 1]);
    if |c| > 2 {
      ChainStaysInside(f, a, s, c[..|c| - 1]);
    }
  }

  // ----- the worklist for one variable

  /** The marks: no mark is ahead of the current variable v. */
  ghost predicate MarksUpTo(marks: seq<int>, v: int) {
    forall b :: 0 <= b < |marks| ==> marks[b] <= v
  }

  /** What holds between two rounds of the worklist loop: every block that ever entered the worklist is
      assigned or in the iterated frontier; every phi is in the iterated frontier and its block entered the
      worklist; and blocks that left the worklist have phis all over their frontier. */
  ghost predicate WorklistInvariant(f: seq<set<nat>>, a: set<nat>, hasAlready: seq<int>, work: seq<int>,
          worklist: seq<nat>, v: nat) {
    && |f| == |hasAlready| == |work|
    && (forall x, y :: 0 <= x < |f| && y in f[x] ==> y < |f|)
    && MarksUpTo(hasAlready, v) && MarksUpTo(work, v)
    && (forall i :: 0 <= i < |worklist| ==> worklist[i] < |f| && work[worklist[i]] == v)
    && (forall b :: 0 <= b < |f| && work[b] == v ==> b in a || InIteratedFrontier(f, a, b))
    && (forall b :: 0 <= b < |f| && b in a ==> work[b] == v)
    && (forall b :: 0 <= b < |f| && hasAlready[b] == v ==> InIteratedFrontier(f, a, b) && work[b] == v)
  }

  ghost predicate FrontierDone(f: seq<set<nat>>, hasAlready: seq<int>, b: nat, v: nat)
    requires b < |f| == |hasAlready|
  {
    forall y :: y in f[b] && y < |f| ==> hasAlready[y] == v
  }

  ghost predicate LeftAreDone(f: seq<set<nat>>, hasAlready: seq<int>, work: seq<int>, worklist: seq<nat>, v: nat)
    requires |f| == |hasAlready| == |work|
  {
    forall b: nat :: b < |f| && work[b] == v && b !in worklist ==> FrontierDone(f, hasAlready, b, v)
  }

  /** When the worklist is empty, the phis are exactly the iterated frontier. */
  lemma EmptyWorklistIsFixpoint(f: seq<set<nat>>, a: set<nat>, hasAlready: seq<int>, work: seq<int>, v: nat)
    requires WorklistInvariant(f, a, hasAlready, work, [], v) && LeftAreDone(f, hasAlready, work, [], v)
    requires forall b :: b in a ==> b < |f|
    ensures forall y: nat :: y < |f| ==> (hasAlready[y] == v <==> InIteratedFrontier(f, a, y))
  {
    var s := iset y: nat | y < |f| && hasAlready[y] == v;
    forall x, y | 0 <= x < |f| && y in f[x] && (x in a || x in s)
      ensures y in s
    {
      assert FrontierDone(f, hasAlready, x, v);
    }
    assert ClosedUnderFrontier(f, a, s);
    IteratedFrontierIsLeast(f, a);
  }

  // ----- one step, as a function of the state

  /** The marks, the worklist, the phi tables of the blocks, and the list of live phis (block, variable). */
  datatype Progress = Progress(hasAlready: seq<int>, work: seq<int>, worklist: seq<nat>, phis: seq<PhiTable>,
      live: seq<(nat, nat)>)

  /** Block y has a phi for variable v exactly when has_already marks it, and it is the right one. */
  ghost predicate PhisMatch(phis: seq<PhiTable>, inputs: seq<nat>, hasAlready: seq<int>, varCount: nat, v: nat) {
    && |phis| == |inputs| == |hasAlready|
    && (forall b :: 0 <= b < |phis| ==> phis[b] == [] || |phis[b]| == varCount)
    && (forall b :: 0 <= b < |phis| ==> (HasPhi(phis[b], v) <==> hasAlready[b] == v))
    && (forall b :: 0 <= b < |phis| && HasPhi(phis[b], v) ==> phis[b][v].value == Phi(v, inputs[b], true))
  }

  /** The phis of all variables but v are as they were. */
  ghost predicate OtherPhisKept(before: seq<PhiTable>, after: seq<PhiTable>, v: nat) {
    && |before| == |after|
    && forall b, u: nat :: 0 <= b < |before| && u != v ==> SamePhi(before[b], after[b], u)
  }

  ghost predicate SamePhi(before: PhiTable, after: PhiTable, u: nat) {
    && (HasPhi(after, u) <==> HasPhi(before, u))
    && (HasPhi(before, u) ==> after[u] == before[u])
  }

  /** The phis recorded as live since the list had length from: one per marked block. */
  ghost predicate LiveMatch(live: seq<(nat, nat)>, from: nat, hasAlready: seq<int>, v: nat) {
    && from <= |live|
    && (forall i :: from <= i < |live| ==> live[i].1 == v && live[i].0 < |hasAlready| && hasAlready[live[i].0] == v)
    && (forall i, j :: from <= i < j < |live| ==> live[i].0 != live[j].0)
    && (forall b: nat :: b < |hasAlready| && hasAlready[b] == v ==> (b, v) in live[from..])
  }

  ghost predicate Placing(f: seq<set<nat>>, a: set<nat>, inputs: seq<nat>, varCount: nat, p: Progress, v: nat,
          from: nat) {
    && v < varCount
    && WorklistInvariant(f, a, p.hasAlready, p.work, p.worklist, v)
    && PhisMatch(p.phis, inputs, p.hasAlready, varCount, v)
    && LiveMatch(p.live, from, p.hasAlready, v)
  }

  /** The body of the iteration over a frontier: place a phi unless the block has one for v already. */
  function Place(inputs: seq<nat>, varCount: nat, p: Progress, index: nat, v: nat): Progress
    requires v < varCount && index < |p.hasAlready| == |p.work| == |p.phis| == |inputs|
    requires p.phis[index] == [] || |p.phis[index]| == varCount
  {
    if p.hasAlready[index] < v then
      var q := p.(phis := p.phis[index := InsertPhi(p.phis[index], v, varCount, Phi(v, inputs[index], true))],
                  live := p.live + [(index, v)],
                  hasAlready := p.hasAlready[index := v]);
      if p.work[index] < v then q.(work := p.work[index := v], worklist := p.worklist + [index]) else q
    else p
  }

  lemma PlaceKeepsPlacing(f: seq<set<nat>>, a: set<nat>, inputs: seq<nat>, varCount: nat, p: Progress, index: nat,
          v: nat, from: nat)
    requires Placing(f, a, inputs, varCount, p, v, from) && index < |f| && InIteratedFrontier(f, a, index)
    ensures Placing(f, a, inputs, varCount, Place(inputs, varCount, p, index, v), v, from)
  {
    WorklistAfter(f, a, inputs, varCount, p, index, v);
    if p.hasAlready[index] < v {
      PhisMatchAfter(inputs, varCount, p.phis, p.hasAlready, index, v);
      LiveMatchAfter(p.live, from, p.hasAlready, index, v);
    }
  }

  lemma PlaceKeepsOthers(inputs: seq<nat>, varCount: nat, p: Progress, index: nat, v: nat, from: nat)
    requires v < varCount && PhisMatch(p.phis, inputs, p.hasAlready, varCount, v)
    requires index < |p.hasAlready| == |p.work| && from <= |p.live|
    ensures OtherPhisKept(p.phis, Place(inputs, varCount, p, index, v).phis, v)
    ensures Place(inputs, varCount, p, index, v).live[..from] == p.live[..from]
  {
    if p.hasAlready[index] < v {
      PhisMatchAfter(inputs, varCount, p.phis, p.hasAlready, index, v);
    } else {
      assert forall b, u: nat :: 0 <= b < |p.phis| ==> SamePhi(p.phis[b], p.phis[b], u);
    }
  }

  lemma WorklistAfter(f: seq<set<nat>>, a: set<nat>, inputs: seq<nat>, varCount: nat, p: Progress, index: nat, v: nat)
    requires WorklistInvariant(f, a, p.hasAlready, p.work, p.worklist, v) && index < |f| &&
             InIteratedFrontier(f, a, index)
    requires v < varCount && |p.phis| == |inputs| == |f| && (p.phis[index] == [] || |p.phis[index]| == varCount)
    ensures var q := Place(inputs, varCount, p, index, v); WorklistInvariant(f, a, q.hasAlready, q.work, q.worklist, v)
  {
  }

  lemma PhisMatchAfter(inputs: seq<nat>, varCount: nat, phis: seq<PhiTable>, hasAlready: seq<int>, index: nat, v: nat)
    requires v < varCount && PhisMatch(phis, inputs, hasAlready, varCount, v) && index < |phis|
    ensures var phis' := phis[index := InsertPhi(phis[index], v, varCount, Phi(v, inputs[index], true))];
            PhisMatch(phis', inputs, hasAlready[index := v], varCount, v) && OtherPhisKept(phis, phis', v)
  {
  }

  lemma LiveMatchAfter(live: seq<(nat, nat)>, from: nat, hasAlready: seq<int>, index: nat, v: nat)
    requires LiveMatch(live, from, hasAlready, v) && index < |hasAlready| && hasAlready[index] < v
    ensures LiveMatch(live + [(index, v)], from, hasAlready[index := v], v)
  {
    var live', hasAlready' := live + [(index, v)], hasAlready[index := v];
    assert live'[from..] == live[from..] + [(index, v)];
    assert live'[|live|] in live'[from..];
  }

  /** The blocks whose frontier is fully placed stay so, and the only new entry of the worklist is index. */
  lemma PlaceKeepsDone(f: seq<set<nat>>, a: set<nat>, inputs: seq<nat>, varCount: nat, p: Progress, index: nat,
          v: nat, from: nat, current: nat)
    requires Placing(f, a, inputs, varCount, p, v, from) && index < |f|
    requires AllButCurrentDone(f, p, v, current)
    ensures var q := Place(inputs, varCount, p, index, v);
            && |q.hasAlready| == |q.work| == |f|
            && q.hasAlready[index] == v
            && (forall b :: 0 <= b < |f| && p.hasAlready[b] == v ==> q.hasAlready[b] == v)
            && AllButCurrentDone(f, q, v, current)
            && Shrunk(p, q, v)
  {
    var q := Place(inputs, varCount, p, index, v);
    assert forall b :: b in q.worklist <==> b in p.worklist || (b == index && q.worklist != p.worklist);
    if q.worklist != p.worklist {
      assert index in Unworked(p.work, v) && index !in Unworked(q.work, v);
    }
  }

  /** The blocks that may still enter the worklist; this set shrinks with every push. */
  ghost function Unworked(work: seq<int>, v: int): set<nat> {
    set b: nat | b < |work| && work[b] < v
  }

  ghost predicate AllButCurrentDone(f: seq<set<nat>>, p: Progress, v: nat, current: nat)
    requires |f| == |p.hasAlready| == |p.work|
  {
    forall b: nat :: b < |f| && p.work[b] == v && b !in p.worklist && b != current ==>
        FrontierDone(f, p.hasAlready, b, v)
  }

  /** The worklist grew only at the expense of the unworked blocks. */
  ghost predicate Shrunk(p: Progress, q: Progress, v: nat) {
    && Unworked(q.work, v) <= Unworked(p.work, v)
    && (Unworked(q.work, v) == Unworked(p.work, v) ==> q.worklist == p.worklist)
  }

  // ----- the methods

  class PhiInserter {
    const inputs: seq<nat>
    const varCount: nat
    var phis: seq<PhiTable>
    var hasAlready: seq<int>
    var work: seq<int>
    var worklist: seq<nat>
    var livePhis: seq<(nat, nat)>

    /** All blocks start unmarked and without phis. */
    constructor (inputs: seq<nat>, varCount: nat)
      ensures this.inputs == inputs && this.varCount == varCount
      ensures State() == Initial(|inputs|)
    {
      this.inputs, this.varCount := inputs, varCount;
      phis := seq(|inputs|, _ => []);
      hasAlready := seq(|inputs|, _ => -1);
      work := seq(|inputs|, _ => -1);
      worklist, livePhis := [], [];
    }

    ghost function State(): Progress
      reads this
    {
      Progress(hasAlready, work, worklist, phis, livePhis)
    }

    method PlacePhi(index: nat, v: nat)
      requires v < varCount && index < |inputs| == |hasAlready| == |work| == |phis|
      requires phis[index] == [] || |phis[index]| == varCount
      modifies this
      ensures State() == old(Place(inputs, varCount, State(), index, v))
    {
      if hasAlready[index] < v {
        phis := phis[index := InsertPhi(phis[index], v, varCount, Phi(v, inputs[index], true))];
        livePhis := livePhis + [(index, v)];
        hasAlready := hasAlready[index := v];
        if work[index] < v {
          work := work[index := v];
          worklist := worklist + [index];
        }
      }
    }

    /** One block off the worklist: visit its frontier. */
    method ProcessBlock(current: nat, frontier: BitVector, v: nat, ghost f: seq<set<nat>>, ghost a: set<nat>,
            ghost from: nat, ghost p: Progress)
      returns (ghost q: Progress)
      requires p == State() && Placing(f, a, inputs, varCount, p, v, from)
      requires current < |f| && frontier.data.Length > 0 && frontier.Contents() == f[current]
      requires current in a || InIteratedFrontier(f, a, current)
      requires AllButCurrentDone(f, p, v, current)
      modifies this
      ensures q == State() && Moved(f, a, inputs, varCount, p, q, v, from)
      ensures LeftAreDone(f, q.hasAlready, q.work, q.worklist, v)
    {
      q := p;
      var it := new BitVectorIterator(frontier);
      ghost var left := it.Remaining();
      VisitStarts(f, a, inputs, varCount, p, v, from, current);
      while !it.Done()
        invariant fresh(it) && it.Valid() && it.Remaining() == left
        invariant q == State() && Visiting(f, a, inputs, varCount, p, q, v, from, current, left)
        decreases left
      {
        q := PlaceNext(it.Current(), v, f, a, from, p, q, current, left);
        left := left - {it.Current()};
        it.Advance();
      }
      VisitEnds(f, a, inputs, varCount, p, q, v, from, current);
    }

    /** One member of the frontier of the current block. */
    method PlaceNext(index: nat, v: nat, ghost f: seq<set<nat>>, ghost a: set<nat>, ghost from: nat,
            ghost p: Progress, ghost q: Progress, ghost current: nat, ghost left: set<nat>)
      returns (ghost r: Progress)
      requires q == State() && Visiting(f, a, inputs, varCount, p, q, v, from, current, left) && index in left
      requires current in a || InIteratedFrontier(f, a, current)
      modifies this
      ensures r == State() && Visiting(f, a, inputs, varCount, p, r, v, from, current, left - {index})
    {
      IteratedFrontierStep(f, a, current, index);
      PlaceMoves(f, a, inputs, varCount, p, q, index, v, from, current);
      PlacePhi(index, v);
      r := Place(inputs, varCount, q, index, v);
    }

    /** The blocks that assign v start the worklist. */
    method SeedWorklist(v: nat, assignedVars: seq<BitVector>, ghost a: set<nat>)
      requires |assignedVars| == |inputs| == |work| && worklist == []
      requires forall b :: 0 <= b < |assignedVars| ==> v < BITS_PER_WORD * assignedVars[b].data.Length
      requires a == AssignedIn(assignedVars, v)
      requires forall b :: 0 <= b < |work| ==> work[b] < v
      modifies this`work, this`worklist
      ensures |work| == old(|work|)
      ensures forall b :: 0 <= b < |work| ==> work[b] == if b in a then v else old(work[b])
      ensures forall b: nat :: b in worklist <==> b in a
    {
      for b := 0 to |inputs|
        invariant |work| == |inputs|
        invariant forall x :: 0 <= x < |work| ==> work[x] == if x < b && x in a then v else old(work[x])
        invariant forall x: nat :: x in worklist <==> x < b && x in a
      {
        if assignedVars[b].Contains(v) {
          work := work[b := v];
          worklist := worklist + [b];
        }
      }
    }

    /** insert_phis for one variable. */
    method PlaceVariable(v: nat, assignedVars: seq<BitVector>, dominance: seq<BitVector>, ghost f: seq<set<nat>>,
            ghost a: set<nat>, ghost p: Progress)
      returns (ghost q: Progress)
      requires p == State() && BeforeVariable(inputs, varCount, p, v)
      requires |assignedVars| == |dominance| == |inputs| == |f| && a == AssignedIn(assignedVars, v)
      requires forall b :: 0 <= b < |assignedVars| ==> v < BITS_PER_WORD * assignedVars[b].data.Length
      requires forall x :: 0 <= x < |f| ==> dominance[x].data.Length > 0 && f[x] == dominance[x].Contents()
      requires forall x, y :: 0 <= x < |f| && y in f[x] ==> y < |f|
      modifies this
      ensures q == State() && Placed(f, a, inputs, varCount, p, q, v)
    {
      SeedWorklist(v, assignedVars, a);
      q := State();
      SeedIsUnderway(f, a, inputs, varCount, p, q, v);
      while worklist != []
        invariant q == State() && Underway(f, a, inputs, varCount, p, q, v)
        decreases Unworked(q.work, v), |worklist|
      {
        q := ProcessNext(v, dominance, f, a, p, q);
      }
      PlacementFinished(f, a, inputs, varCount, p, q, v);
    }

    /** insert_phis: all variables, over one set of marks that is never cleared. */
    method Insert(assignedVars: seq<BitVector>, dominance: seq<BitVector>, ghost f: seq<set<nat>>,
            ghost a: seq<set<nat>>)
      requires State() == Initial(|inputs|)
      requires |assignedVars| == |dominance| == |inputs| == |f| && |a| == varCount
      requires forall v :: 0 <= v < varCount ==> a[v] == AssignedIn(assignedVars, v)
      requires forall b :: 0 <= b < |assignedVars| ==> varCount <= BITS_PER_WORD * assignedVars[b].data.Length
      requires forall x :: 0 <= x < |f| ==> dominance[x].data.Length > 0 && f[x] == dominance[x].Contents()
      requires forall x, y :: 0 <= x < |f| && y in f[x] ==> y < |f|
      modifies this
      ensures PhisComplete(f, a, inputs, phis, varCount, varCount) && LiveComplete(phis, livePhis)
    {
      ghost var p := State();
      NothingPlaced(f, a, inputs, varCount);
      for v := 0 to varCount
        invariant p == State() && BetweenVariables(f, a, inputs, varCount, p, v)
      {
        NoPhisYet(f, a, inputs, varCount, p, v);
        ghost var q := PlaceVariable(v, assignedVars, dominance, f, a[v], p);
        VariableDone(f, a, inputs, varCount, p, q, v);
        p := q;
      }
    }

    /** Take a block off the worklist and process it. */
    method ProcessNext(v: nat, dominance: seq<BitVector>, ghost f: seq<set<nat>>, ghost a: set<nat>,
            ghost p: Progress, ghost q: Progress)
      returns (ghost r: Progress)
      requires q == State() && Underway(f, a, inputs, varCount, p, q, v) && worklist != [] && |f| == |dominance|
      requires forall x :: 0 <= x < |f| ==> dominance[x].data.Length > 0 && f[x] == dominance[x].Contents()
      modifies this
      ensures r == State() && Underway(f, a, inputs, varCount, p, r, v)
      ensures || Unworked(r.work, v) < Unworked(q.work, v)
              || (Unworked(r.work, v) == Unworked(q.work, v) && |r.worklist| < |q.worklist|)
    {
      PopKeepsPlacing(f, a, inputs, varCount, q, v, |p.live|);
      var current := worklist[|worklist| - 1];
      worklist := worklist[..|worklist| - 1];
      ghost var popped := q.(worklist := q.worklist[..|q.worklist| - 1]);
      r := ProcessBlock(current, dominance[current], v, f, a, |p.live|, popped);
      OtherPhisTransitive(p.phis, popped.phis, r.phis, v);
    }
  }

  ghost function Initial(n: nat): Progress {
    Progress(seq(n, _ => -1), seq(n, _ => -1), [], seq(n, _ => []), [])
  }

  /** The phis of the first n variables stand exactly on the iterated frontiers of their assignments, with
      one input per predecessor; the later variables have none. */
  ghost predicate PhisComplete(f: seq<set<nat>>, a: seq<set<nat>>, inputs: seq<nat>, phis: seq<PhiTable>,
          varCount: nat, n: nat)
    requires |a| == varCount
  {
    && |phis| == |inputs| == |f|
    && (forall b :: 0 <= b < |phis| ==> phis[b] == [] || |phis[b]| == varCount)
    && (forall b: nat, u: nat :: b < |phis| && u < varCount ==> SlotComplete(f, a, inputs, phis, b, u, n))
  }

  ghost predicate SlotComplete(f: seq<set<nat>>, a: seq<set<nat>>, inputs: seq<nat>, phis: seq<PhiTable>, b: nat,
          u: nat, n: nat)
    requires b < |phis| == |inputs| && u < |a|
  {
    && (HasPhi(phis[b], u) <==> u < n && InIteratedFrontier(f, a[u], b))
    && (HasPhi(phis[b], u) ==> phis[b][u].value == Phi(u, inputs[b], true))
  }

  /** The list of live phis holds each phi exactly once. */
  ghost predicate LiveComplete(phis: seq<PhiTable>, live: seq<(nat, nat)>) {
    && (forall i, j :: 0 <= i < j < |live| ==> live[i] != live[j])
    && (forall e :: e in live <==> e.0 < |phis| && HasPhi(phis[e.0], e.1))
  }

  ghost predicate BetweenVariables(f: seq<set<nat>>, a: seq<set<nat>>, inputs: seq<nat>, varCount: nat, p: Progress,
          v: nat) {
    && |a| == varCount && v <= varCount
    && |p.hasAlready| == |p.work| == |p.phis| && p.worklist == []
    && MarksUpTo(p.hasAlready, v - 1) && MarksUpTo(p.work, v - 1)
    && PhisComplete(f, a, inputs, p.phis, varCount, v)
    && LiveComplete(p.phis, p.live)
  }

  lemma NothingPlaced(f: seq<set<nat>>, a: seq<set<nat>>, inputs: seq<nat>, varCount: nat)
    requires |a| == varCount && |f| == |inputs|
    ensures BetweenVariables(f, a, inputs, varCount, Initial(|inputs|), 0)
  {
    var p := Initial(|inputs|);
    assert forall b :: 0 <= b < |p.phis| ==> p.phis[b] == [];
    assert PhisComplete(f, a, inputs, p.phis, varCount, 0);
  }

  lemma VariableDone(f: seq<set<nat>>, a: seq<set<nat>>, inputs: seq<nat>, varCount: nat, p: Progress, q: Progress,
          v: nat)
    requires BetweenVariables(f, a, inputs, varCount, p, v) && v < varCount
    requires Placed(f, a[v], inputs, varCount, p, q, v)
    ensures BetweenVariables(f, a, inputs, varCount, q, v + 1)
  {
    PhisGrow(f, a, inputs, varCount, p, q, v);
    NoPhisYet(f, a, inputs, varCount, p, v);
    LiveGrows(varCount, p, q, v);
  }

  lemma NoPhisYet(f: seq<set<nat>>, a: seq<set<nat>>, inputs: seq<nat>, varCount: nat, p: Progress, v: nat)
    requires BetweenVariables(f, a, inputs, varCount, p, v) && v < varCount
    ensures BeforeVariable(inputs, varCount, p, v)
  {
    forall b: nat | b < |p.phis|
      ensures !HasPhi(p.phis[b], v)
    {
      assert SlotComplete(f, a, inputs, p.phis, b, v, v);
    }
  }

  lemma PhisGrow(f: seq<set<nat>>, a: seq<set<nat>>, inputs: seq<nat>, varCount: nat, p: Progress, q: Progress, v: nat)
    requires BetweenVariables(f, a, inputs, varCount, p, v) && v < varCount
    requires Placed(f, a[v], inputs, varCount, p, q, v)
    ensures PhisComplete(f, a, inputs, q.phis, varCount, v + 1)
  {
    var n := v + 1;
    forall b: nat, u: nat | b < |q.phis| && u < varCount
      ensures SlotComplete(f, a, inputs, q.phis, b, u, n)
    {
      assert SlotComplete(f, a, inputs, p.phis, b, u, v);
      if u != v {
        assert SamePhi(p.phis[b], q.phis[b], u);
      }
    }
  }

  lemma LiveGrows(varCount: nat, p: Progress, q: Progress, v: nat)
    requires LiveComplete(p.phis, p.live) && LiveMatch(q.live, |p.live|, q.hasAlready, v) &&
             q.live[..|p.live|] == p.live
    requires |q.hasAlready| == |p.phis| && OtherPhisKept(p.phis, q.phis, v)
    requires forall b :: 0 <= b < |p.phis| ==> !HasPhi(p.phis[b], v)
    requires forall b :: 0 <= b < |q.phis| ==> (HasPhi(q.phis[b], v) <==> q.hasAlready[b] == v)
    ensures LiveComplete(q.phis, q.live)
  {
    var n := |p.live|;
    assert q.live == p.live + q.live[n..];
    forall e
      ensures e in q.live <==> e.0 < |q.phis| && HasPhi(q.phis[e.0], e.1)
    {
      if e.0 < |q.phis| && e.1 != v {
        assert SamePhi(p.phis[e.0], q.phis[e.0], e.1);
      }
      assert e in q.live <==> e in p.live || e in q.live[n..];
      assert e.1 == v ==> e !in p.live;
      if e in q.live[n..] {
        var i :| 0 <= i < |q.live[n..]| && q.live[n..][i] == e;
        assert q.live[n + i] == e;
      }
    }
    forall i, j | 0 <= i < j < |q.live|
      ensures q.live[i] != q.live[j]
    {
      if i < n && n <= j {
        assert q.live[i] in p.live;
      }
    }
  }

  /** Between two rounds for v, started from p. */
  ghost predicate Underway(f: seq<set<nat>>, a: set<nat>, inputs: seq<nat>, varCount: nat, p: Progress, q: Progress,
          v: nat) {
    && Placing(f, a, inputs, varCount, q, v, |p.live|)
    && OtherPhisKept(p.phis, q.phis, v) && q.live[..|p.live|] == p.live
    && LeftAreDone(f, q.hasAlready, q.work, q.worklist, v)
  }

  lemma PlacementFinished(f: seq<set<nat>>, a: set<nat>, inputs: seq<nat>, varCount: nat, p: Progress, q: Progress,
          v: nat)
    requires Underway(f, a, inputs, varCount, p, q, v) && q.worklist == [] && |f| == |inputs|
    requires forall b :: b in a ==> b < |f|
    ensures Placed(f, a, inputs, varCount, p, q, v)
  {
    EmptyWorklistIsFixpoint(f, a, q.hasAlready, q.work, v);
  }

  /** The blocks in whose assigned set v is. */
  ghost function AssignedIn(assignedVars: seq<BitVector>, v: nat): set<nat>
    reads set x | x in assignedVars :: x.data
  {
    set b: nat | b < |assignedVars| && v in assignedVars[b].Contents()
  }

  /** No mark of v or a later variable has been set, and no block has a phi for v. */
  ghost predicate BeforeVariable(inputs: seq<nat>, varCount: nat, p: Progress, v: nat) {
    && v < varCount && |inputs| == |p.hasAlready| == |p.work| == |p.phis| && p.worklist == []
    && MarksUpTo(p.hasAlready, v - 1) && MarksUpTo(p.work, v - 1)
    && (forall b :: 0 <= b < |p.phis| ==> p.phis[b] == [] || |p.phis[b]| == varCount)
    && (forall b :: 0 <= b < |p.phis| ==> !HasPhi(p.phis[b], v))
  }

  /** After v: its phis stand exactly on the iterated frontier of a, one per block and well formed; all
      other phis are untouched; and live gained exactly the new phis, each once. */
  ghost predicate Placed(f: seq<set<nat>>, a: set<nat>, inputs: seq<nat>, varCount: nat, p: Progress, q: Progress,
          v: nat)
    requires |f| == |inputs|
  {
    && |inputs| == |q.hasAlready| == |q.work| == |q.phis| && q.worklist == []
    && MarksUpTo(q.hasAlready, v) && MarksUpTo(q.work, v)
    && PhisMatch(q.phis, inputs, q.hasAlready, varCount, v)
    && (forall b: nat :: b < |f| ==> (q.hasAlready[b] == v <==> InIteratedFrontier(f, a, b)))
    && OtherPhisKept(p.phis, q.phis, v)
    && LiveMatch(q.live, |p.live|, q.hasAlready, v) && q.live[..|p.live|] == p.live
  }

  /** From p to q the placement of v went on: the invariant still holds, phis of other variables and older
      live phis are untouched, marks of v stay, and the worklist grew only at the expense of unworked
      blocks. */
  ghost predicate Moved(f: seq<set<nat>>, a: set<nat>, inputs: seq<nat>, varCount: nat, p: Progress, q: Progress,
          v: nat, from: nat) {
    && Placing(f, a, inputs, varCount, q, v, from)
    && OtherPhisKept(p.phis, q.phis, v) && from <= |p.live| && q.live[..from] == p.live[..from]
    && Shrunk(p, q, v)
  }

  lemma MovedReflexive(f: seq<set<nat>>, a: set<nat>, inputs: seq<nat>, varCount: nat, p: Progress, v: nat, from: nat)
    requires Placing(f, a, inputs, varCount, p, v, from)
    ensures Moved(f, a, inputs, varCount, p, p, v, from)
  {
    assert forall b, u: nat :: 0 <= b < |p.phis| ==> SamePhi(p.phis[b], p.phis[b], u);
  }

  lemma SeedIsUnderway(f: seq<set<nat>>, a: set<nat>, inputs: seq<nat>, varCount: nat, p: Progress, q: Progress, v: nat)
    requires BeforeVariable(inputs, varCount, p, v) && |f| == |inputs|
    requires q == p.(work := q.work, worklist := q.worklist) && |q.work| == |p.work|
    requires forall b :: 0 <= b < |q.work| ==> q.work[b] == if b in a then v else p.work[b]
    requires forall b: nat :: b in q.worklist <==> b in a
    requires forall b :: b in a ==> b < |f|
    requires forall x, y :: 0 <= x < |f| && y in f[x] ==> y < |f|
    ensures Underway(f, a, inputs, varCount, p, q, v)
  {
    assert forall b, u: nat :: 0 <= b < |p.phis| ==> SamePhi(p.phis[b], p.phis[b], u);
    assert forall i :: 0 <= i < |q.worklist| ==> q.worklist[i] in a;
  }

  lemma PopKeepsPlacing(f: seq<set<nat>>, a: set<nat>, inputs: seq<nat>, varCount: nat, q: Progress, v: nat, from: nat)
    requires Placing(f, a, inputs, varCount, q, v, from) && LeftAreDone(f, q.hasAlready, q.work, q.worklist, v)
    requires q.worklist != []
    ensures var current, r := q.worklist[|q.worklist| - 1], q.(worklist := q.worklist[..|q.worklist| - 1]);
            && Placing(f, a, inputs, varCount, r, v, from)
            && current < |f| && (current in a || InIteratedFrontier(f, a, current))
            && AllButCurrentDone(f, r, v, current)
  {
    var n := |q.worklist| - 1;
    assert q.worklist == q.worklist[..n] + [q.worklist[n]];
  }

  lemma PlaceMoves(f: seq<set<nat>>, a: set<nat>, inputs: seq<nat>, varCount: nat, p: Progress, q: Progress,
          index: nat, v: nat, from: nat, current: nat)
    requires Moved(f, a, inputs, varCount, p, q, v, from) && index < |f| && InIteratedFrontier(f, a, index)
    requires AllButCurrentDone(f, q, v, current)
    ensures Moved(f, a, inputs, varCount, p, Place(inputs, varCount, q, index, v), v, from)
    ensures AllButCurrentDone(f, Place(inputs, varCount, q, index, v), v, current)
    ensures Place(inputs, varCount, q, index, v).hasAlready[index] == v
    ensures forall b :: 0 <= b < |f| && q.hasAlready[b] == v ==> Place(inputs, varCount, q, index, v).hasAlready[b] == v
  {
    var r := Place(inputs, varCount, q, index, v);
    PlaceKeepsPlacing(f, a, inputs, varCount, q, index, v, from);
    PlaceKeepsOthers(inputs, varCount, q, index, v, from);
    PlaceKeepsDone(f, a, inputs, varCount, q, index, v, from, current);
    OtherPhisTransitive(p.phis, q.phis, r.phis, v);
  }

  lemma OtherPhisTransitive(x: seq<PhiTable>, y: seq<PhiTable>, z: seq<PhiTable>, v: nat)
    requires OtherPhisKept(x, y, v) && OtherPhisKept(y, z, v)
    ensures OtherPhisKept(x, z, v)
  {
    forall b, u: nat | 0 <= b < |x| && u != v
      ensures SamePhi(x[b], z[b], u)
    {
      assert SamePhi(x[b], y[b], u) && SamePhi(y[b], z[b], u);
    }
  }

  // ----- visiting one frontier

  /** Part of the current block's frontier is left; the rest has its phis, and all other blocks are in order. */
  ghost predicate Visiting(f: seq<set<nat>>, a: set<nat>, inputs: seq<nat>, varCount: nat, p: Progress, q: Progress,
          v: nat, from: nat, current: nat, left: set<nat>) {
    && Moved(f, a, inputs, varCount, p, q, v, from)
    && current < |f| && AllButCurrentDone(f, q, v, current)
    && left <= f[current] && forall y :: y in f[current] ==> y < |f| && (y in left || q.hasAlready[y] == v)
  }

  lemma VisitStarts(f: seq<set<nat>>, a: set<nat>, inputs: seq<nat>, varCount: nat, p: Progress, v: nat, from: nat,
          current: nat)
    requires Placing(f, a, inputs, varCount, p, v, from) && current < |f| && AllButCurrentDone(f, p, v, current)
    ensures Visiting(f, a, inputs, varCount, p, p, v, from, current, f[current])
  {
    MovedReflexive(f, a, inputs, varCount, p, v, from);
  }

  lemma VisitEnds(f: seq<set<nat>>, a: set<nat>, inputs: seq<nat>, varCount: nat, p: Progress, q: Progress, v: nat,
          from: nat, current: nat)
    requires Visiting(f, a, inputs, varCount, p, q, v, from, current, {})
    ensures Moved(f, a, inputs, varCount, p, q, v, from) && LeftAreDone(f, q.hasAlready, q.work, q.worklist, v)
  {
  }
}
