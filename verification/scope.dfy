/** Frame slots for the local variables of a function: allocation over the scope tree, and the dense index of the
    variables that the data-flow passes use. */
module FrameSlots {
  import Machine

  /** Slot of the last parameter, and of the first local, counted from the frame pointer. */
  const PARAM_END_SLOT := 1
  const FIRST_LOCAL_SLOT := -3

  /** A variable and the scope it belongs to. Index -1 means no slot. */
  class LocalVariable {
    const owner: nat
    var index: int

    constructor (owner: nat)
      ensures this.owner == owner && !HasIndex()
    {
      this.owner, index := owner, -1;
    }

    /** local_var_has_index */
    predicate HasIndex()
      reads this
    {
      index != -1
    }
  }

  /** A scope with its own name, its list of variables, and the chain of its child scopes. A variable may be listed
      in scopes it does not belong to. */
  datatype Scope = Scope(id: nat, variables: seq<LocalVariable>, children: seq<Scope>)

  // ----- the variables of a tree

  predicate Owned(scope: Scope, v: LocalVariable) {
    v.owner == scope.id
  }

  /** The variables at positions lo <= k < hi that belong to the scope. */
  function OwnedList(scope: Scope, lo: nat, hi: nat): (r: seq<LocalVariable>)
    requires lo <= hi <= |scope.variables|
    ensures forall k :: 0 <= k < |r| ==> r[k] in scope.variables[lo..hi] && Owned(scope, r[k])
  {
    if lo == hi then []
    else
      var before := OwnedList(scope, lo, hi - 1);
      assert scope.variables[lo..hi] == scope.variables[lo..hi - 1] + [scope.variables[hi - 1]];
      if Owned(scope, scope.variables[hi - 1]) then before + [scope.variables[hi - 1]] else before
  }

  function Locals(scope: Scope, params: nat): seq<LocalVariable>
    requires params <= |scope.variables|
  {
    OwnedList(scope, params, |scope.variables|)
  }

  ghost function Ids(scope: Scope): set<nat>
    decreases scope
  {
    {scope.id} + set k, id | 0 <= k < |scope.children| && id in Ids(scope.children[k]) :: id
  }

  /** The variables that get a slot below the parameters: in each scope the ones that belong to it. */
  ghost function Slots(scope: Scope, params: nat): set<LocalVariable>
    requires params <= |scope.variables|
    decreases scope, |scope.children| + 1
  {
    (set v | v in Locals(scope, params)) + ChildSlots(scope, |scope.children|)
  }

  ghost function ChildSlots(scope: Scope, n: nat): set<LocalVariable>
    requires n <= |scope.children|
    decreases scope, n
  {
    if n == 0 then {} else ChildSlots(scope, n - 1) + Slots(scope.children[n - 1], 0)
  }

  /** No scope occurs twice in the tree and no variable twice in a scope (adding a name again is refused). */
  ghost predicate Tree(scope: Scope)
    decreases scope
  {
    && (forall i, j :: 0 <= i < j < |scope.variables| ==> scope.variables[i] != scope.variables[j])
    && (forall k :: 0 <= k < |scope.children| ==> Tree(scope.children[k]) && scope.id !in Ids(scope.children[k]))
    && (forall i, j :: 0 <= i < j < |scope.children| ==> Ids(scope.children[i]) !! Ids(scope.children[j]))
  }

  /** The parameters of a function come first and belong to its outermost scope. */
  ghost predicate Parameters(scope: Scope, params: nat) {
    params <= |scope.variables| && forall p :: 0 <= p < params ==> Owned(scope, scope.variables[p])
  }

  lemma {:induction false} SlotsOwned(scope: Scope, params: nat, v: LocalVariable)
    requires params <= |scope.variables| && v in Slots(scope, params)
    ensures v.owner in Ids(scope)
    ensures v !in Locals(scope, params) ==> v in ChildSlots(scope, |scope.children|)
    decreases scope, |scope.children| + 1
  {
    if v !in Locals(scope, params) {
      ChildSlotsOwned(scope, |scope.children|, v);
    }
  }

  lemma {:induction false} ChildSlotsOwned(scope: Scope, n: nat, v: LocalVariable)
    requires n <= |scope.children| && v in ChildSlots(scope, n)
    ensures exists k :: 0 <= k < n && v.owner in Ids(scope.children[k])
    decreases scope, n
  {
    if v in Slots(scope.children[n - 1], 0) {
      SlotsOwned(scope.children[n - 1], 0, v);
    } else {
      ChildSlotsOwned(scope, n - 1, v);
    }
  }

  /** The slots of a child are not slots of earlier children, and those of children are not the scope's own. */
  lemma ChildSlotsApart(scope: Scope, n: nat, v: LocalVariable)
    requires Tree(scope) && n <= |scope.children| && v in ChildSlots(scope, n)
    ensures v.owner != scope.id
    ensures n < |scope.children| ==> v !in Slots(scope.children[n], 0)
  {
    ChildSlotsOwned(scope, n, v);
    if n < |scope.children| && v in Slots(scope.children[n], 0) {
      SlotsOwned(scope.children[n], 0, v);
    }
  }

  lemma {:induction false} ChildSlotsGrow(scope: Scope, m: nat, n: nat)
    requires m <= n <= |scope.children|
    ensures ChildSlots(scope, m) <= ChildSlots(scope, n)
    decreases n
  {
    if m < n {
      ChildSlotsGrow(scope, m, n - 1);
    }
  }

  lemma EarlierApart(scope: Scope, k: nat)
    requires Tree(scope) && k < |scope.children|
    ensures ChildSlots(scope, k) !! Slots(scope.children[k], 0)
  {
    forall v | v in ChildSlots(scope, k) ensures v !in Slots(scope.children[k], 0) {
      ChildSlotsApart(scope, k, v);
    }
  }

  lemma ChildWithin(scope: Scope, k: nat)
    requires k < |scope.children|
    ensures Slots(scope.children[k], 0) <= ChildSlots(scope, |scope.children|)
  {
    ChildSlotsGrow(scope, k + 1, |scope.children|);
  }

  /** Parameters, own locals and the slots of child scopes are different variables. */
  lemma OwnApart(scope: Scope, params: nat)
    requires Tree(scope) && Parameters(scope, params)
    ensures forall k :: 0 <= k < |Locals(scope, params)| ==> Locals(scope, params)[k] !in scope.variables[..params]
    ensures forall k :: 0 <= k < |Locals(scope, params)| ==>
            Locals(scope, params)[k] !in ChildSlots(scope, |scope.children|)
    ensures forall k :: 0 <= k < params ==> scope.variables[..params][k] !in ChildSlots(scope, |scope.children|)
  {
    forall v | v in ChildSlots(scope, |scope.children|) ensures v.owner != scope.id {
      ChildSlotsApart(scope, |scope.children|, v);
    }
  }

  // ----- the layout

  /** The deepest nesting of locals in a scope and below. */
  function Depth(scope: Scope, params: nat): nat
    requires params <= |scope.variables|
    decreases scope, |scope.children| + 1
  {
    |Locals(scope, params)| + DeepestChild(scope, |scope.children|)
  }

  function DeepestChild(scope: Scope, n: nat): nat
    requires n <= |scope.children|
    decreases scope, n
  {
    if n == 0 then 0
    else
      var rest, child := DeepestChild(scope, n - 1), Depth(scope.children[n - 1], 0);
      if child > rest then child else rest
  }

  /** The k-th variable sits k slots below the first. */
  ghost predicate Descending(vars: seq<LocalVariable>, first: int)
    reads vars
  {
    forall k :: 0 <= k < |vars| ==> vars[k].index == first - k
  }

  /** A scope's locals go down from the frame slot, and those of each child scope follow below all of them. */
  ghost predicate Placed(scope: Scope, params: nat, frame: int)
    requires params <= |scope.variables|
    reads Slots(scope, params)
    decreases scope, |scope.children| + 1
  {
    && Descending(Locals(scope, params), frame)
    && ChildrenPlaced(scope, |scope.children|, frame - |Locals(scope, params)|)
  }

  ghost predicate ChildrenPlaced(scope: Scope, n: nat, frame: int)
    requires n <= |scope.children|
    reads ChildSlots(scope, n)
    decreases scope, n
  {
    n == 0 || (ChildrenPlaced(scope, n - 1, frame) && Placed(scope.children[n - 1], 0, frame))
  }

  // ----- the allocation

  lemma {:induction false} OwnedListGrows(scope: Scope, lo: nat, middle: nat, hi: nat)
    requires lo <= middle <= hi <= |scope.variables|
    ensures OwnedList(scope, lo, middle) <= OwnedList(scope, lo, hi)
    decreases hi
  {
    if middle < hi {
      OwnedListGrows(scope, lo, middle, hi - 1);
    }
  }

  lemma OwnedVariable(scope: Scope, lo: nat, pos: nat)
    requires Tree(scope) && lo <= pos < |scope.variables| && Owned(scope, scope.variables[pos])
    ensures scope.variables[pos] in Locals(scope, lo)
    ensures scope.variables[pos] !in OwnedList(scope, lo, pos)
    ensures scope.variables[pos] !in scope.variables[..lo]
  {
    OwnedListGrows(scope, lo, pos + 1, |scope.variables|);
    var r := OwnedList(scope, lo, pos + 1);
    assert r[|r| - 1] == Locals(scope, lo)[|r| - 1];
    assert scope.variables[pos] !in scope.variables[lo..pos];
  }

  /** The first loop of local_scope_alloc_variables: parameters, from the first parameter slot downwards. */
  method AllocParameters(params: seq<LocalVariable>, firstParam: int)
    requires forall i, j :: 0 <= i < j < |params| ==> params[i] != params[j]
    modifies params
    ensures Descending(params, firstParam)
  {
    var pos, frame := 0, firstParam;
    while pos < |params|
      invariant 0 <= pos <= |params| && frame == firstParam - pos
      invariant forall p :: 0 <= p < pos ==> params[p].index == firstParam - p
    {
      params[pos].index := frame;
      pos := pos + 1;
      frame := frame - 1;
    }
  }

  /** The second loop: the scope's own locals, from the first frame slot downwards. */
  method AllocLocals(scope: Scope, params: nat, firstFrame: int) returns (frame: int)
    requires Tree(scope) && params <= |scope.variables|
    modifies Locals(scope, params)
    ensures Descending(Locals(scope, params), firstFrame)
    ensures frame == firstFrame - |Locals(scope, params)|
  {
    frame := firstFrame;
    var pos := params;
    while pos < |scope.variables|
      invariant params <= pos <= |scope.variables|
      invariant frame == firstFrame - |OwnedList(scope, params, pos)|
      invariant Descending(OwnedList(scope, params, pos), firstFrame)
    {
      var local := scope.variables[pos];
      ghost var before := OwnedList(scope, params, pos);
      if local.owner == scope.id {
        OwnedVariable(scope, params, pos);
        assert OwnedList(scope, params, pos + 1) == before + [local];
        local.index := frame;
        frame := frame - 1;
      } else {
        assert OwnedList(scope, params, pos + 1) == before;
      }
      pos := pos + 1;
    }
  }

  method AllocOwn(scope: Scope, firstParam: int, params: nat, firstFrame: int) returns (frame: int)
    requires Tree(scope) && params <= |scope.variables|
    requires forall k :: 0 <= k < |Locals(scope, params)| ==> Locals(scope, params)[k] !in scope.variables[..params]
    modifies scope.variables[..params], Locals(scope, params)
    ensures Descending(scope.variables[..params], firstParam)
    ensures Descending(Locals(scope, params), firstFrame)
    ensures frame == firstFrame - |Locals(scope, params)|
  {
    AllocParameters(scope.variables[..params], firstParam);
    frame := AllocLocals(scope, params, firstFrame);
  }

  /** The third loop: the child scopes, all from the slot below the scope's own locals. */
  method AllocChildren(scope: Scope, frame: int) returns (next: int)
    requires Tree(scope)
    modifies ChildSlots(scope, |scope.children|)
    ensures ChildrenPlaced(scope, |scope.children|, frame)
    ensures next == frame - DeepestChild(scope, |scope.children|)
    decreases scope, 1
  {
    next := frame;
    var k := 0;
    while k < |scope.children|
      invariant 0 <= k <= |scope.children|
      invariant ChildrenPlaced(scope, k, frame)
      invariant next == frame - DeepestChild(scope, k)
    {
      EarlierApart(scope, k);
      ChildWithin(scope, k);
      var child := AllocChild(scope, k, frame, ChildSlots(scope, k));
      if child < next {
        next := child;
      }
      k := k + 1;
    }
  }

  method AllocChild(scope: Scope, k: nat, frame: int, ghost earlier: set<LocalVariable>) returns (next: int)
    requires k < |scope.children| && Tree(scope.children[k])
    requires earlier == ChildSlots(scope, k) && earlier !! Slots(scope.children[k], 0)
    requires ChildrenPlaced(scope, k, frame)
    modifies Slots(scope.children[k], 0)
    ensures ChildrenPlaced(scope, k + 1, frame)
    ensures next == frame - Depth(scope.children[k], 0)
    decreases scope, 0
  {
    assert scope.children[k].variables[..0] == [];
    next := AllocVariables(scope.children[k], 0, 0, frame);
    assert forall v :: v in earlier ==> v.index == old(v.index);
  }

  /** local_scope_alloc_variables */
  method AllocVariables(scope: Scope, firstParam: int, params: nat, firstFrame: int) returns (next: int)
    requires Tree(scope) && Parameters(scope, params)
    modifies scope.variables[..params], Slots(scope, params)
    ensures Descending(scope.variables[..params], firstParam)
    ensures Placed(scope, params, firstFrame)
    ensures next == firstFrame - Depth(scope, params)
    decreases scope, 2
  {
    OwnApart(scope, params);
    var frame := AllocOwn(scope, firstParam, params, firstFrame);
    next := AllocChildren(scope, frame);
  }

  // ----- what the layout means

  /** A path from the outermost scope inwards, by positions among the children. */
  predicate Path(scope: Scope, path: seq<nat>)
    decreases |path|
  {
    path == [] || (path[0] < |scope.children| && Path(scope.children[path[0]], path[1..]))
  }

  /** The locals visible at the end of a path: those of the scopes along it, outermost first. */
  function VisibleLocals(scope: Scope, params: nat, path: seq<nat>): seq<LocalVariable>
    requires params <= |scope.variables| && Path(scope, path)
    decreases |path|
  {
    Locals(scope, params) + if path == [] then [] else VisibleLocals(scope.children[path[0]], 0, path[1..])
  }

  lemma {:induction false} ChildIsPlaced(scope: Scope, n: nat, k: nat, frame: int)
    requires k < n <= |scope.children| && ChildrenPlaced(scope, n, frame)
    ensures Placed(scope.children[k], 0, frame)
    ensures Depth(scope.children[k], 0) <= DeepestChild(scope, n)
    decreases n
  {
    if k < n - 1 {
      ChildIsPlaced(scope, n - 1, k, frame);
    }
  }

  /** Along every path the visible locals take consecutive slots downwards, no more of them than were counted. */
  lemma {:induction false} VisibleDescend(scope: Scope, params: nat, frame: int, path: seq<nat>)
    requires params <= |scope.variables| && Placed(scope, params, frame) && Path(scope, path)
    ensures Descending(VisibleLocals(scope, params, path), frame)
    ensures |VisibleLocals(scope, params, path)| <= Depth(scope, params)
    decreases |path|
  {
    if path != [] {
      var rest := frame - |Locals(scope, params)|;
      ChildIsPlaced(scope, |scope.children|, path[0], rest);
      VisibleDescend(scope.children[path[0]], 0, rest, path[1..]);
    }
  }

  /** Some path needs all the slots counted. */
  lemma {:induction false} DepthReached(scope: Scope, params: nat) returns (path: seq<nat>)
    requires params <= |scope.variables|
    ensures Path(scope, path) && |VisibleLocals(scope, params, path)| == Depth(scope, params)
    decreases scope, |scope.children| + 1
  {
    path := DeepestReached(scope, |scope.children|);
    if path == [] {
      assert VisibleLocals(scope, params, path) == Locals(scope, params) + [];
    }
  }

  lemma {:induction false} DeepestReached(scope: Scope, n: nat) returns (path: seq<nat>)
    requires n <= |scope.children|
    ensures Path(scope, path)
    ensures DeepestChild(scope, n) == if path == [] then 0 else |VisibleLocals(scope.children[path[0]], 0, path[1..])|
    decreases scope, n
  {
    if n == 0 {
      path := [];
    } else if Depth(scope.children[n - 1], 0) > DeepestChild(scope, n - 1) {
      var inner := DepthReached(scope.children[n - 1], 0);
      path := [n - 1] + inner;
      assert path[1..] == inner;
    } else {
      path := DeepestReached(scope, n - 1);
    }
  }

  // ----- functions

  /** local_var_bit_index */
  function BitIndex(index: int, params: int): int {
    if index > 0 then params - (index - PARAM_END_SLOT) else params - (index - FIRST_LOCAL_SLOT)
  }

  /** The parameters, then the locals visible at the end of a path. */
  function Visible(scope: Scope, params: nat, path: seq<nat>): seq<LocalVariable>
    requires params <= |scope.variables| && Path(scope, path)
  {
    scope.variables[..params] + VisibleLocals(scope, params, path)
  }

  /** The cell of a frame index, in bytes from the frame pointer. */
  function CellOf(index: int): int {
    8 * index
  }

  /** The stack slot that addresses the cell of a frame index. */
  function SlotOf(index: int): int {
    if index > 0 then 1 - index else -3 - index
  }

  /** Variable i of those visible is where its position says: parameters above the return address, the last one next
      to it, and locals from three words below the saved frame pointer down. Its cell is the one its slot addresses,
      and holds neither the saved frame pointer nor the return address. */
  predicate InItsCell(index: int, i: nat, params: nat) {
    && index == (if i < params then 1 + params - i else params - i - 3)
    && SlotOf(index) == i - params && Machine.FrameOffset(SlotOf(index)) == CellOf(index)
    && Machine.CellsApart(CellOf(index), Machine.SAVED_FRAME_POINTER)
    && Machine.CellsApart(CellOf(index), Machine.RETURN_ADDRESS)
    && (i < params ==> CellOf(index) > Machine.RETURN_ADDRESS)
    && (i + 1 == params ==> CellOf(index) == Machine.RETURN_ADDRESS + 8)
    && (i >= params ==> CellOf(index) < Machine.SAVED_FRAME_POINTER)
  }

  /** Any two variables visible at once have different slots and cells, parameters above the frame pointer and locals
      below it, and each has the bit of its position: all bits lie below the variable count. */
  ghost predicate VisibleApart(visible: seq<LocalVariable>, params: nat, stackLocals: int)
    reads visible
  {
    && params <= |visible| <= params + stackLocals
    && (forall i, j :: 0 <= i < j < |visible| ==> visible[i].index != visible[j].index)
    && (forall i, j :: 0 <= i < j < |visible| ==>
          Machine.CellsApart(CellOf(visible[i].index), CellOf(visible[j].index)))
    && (forall i :: 0 <= i < |visible| ==>
          && visible[i].HasIndex() && InItsCell(visible[i].index, i, params)
          && BitIndex(visible[i].index, params) == i < params + stackLocals
          && (i < params ==> visible[i].index > PARAM_END_SLOT)
          && (i >= params ==> visible[i].index <= FIRST_LOCAL_SLOT))
  }

  lemma PlacedApart(scope: Scope, params: nat, path: seq<nat>)
    requires params <= |scope.variables| && Path(scope, path)
    requires Descending(scope.variables[..params], PARAM_END_SLOT + params)
    requires Placed(scope, params, FIRST_LOCAL_SLOT)
    ensures VisibleApart(Visible(scope, params, path), params, Depth(scope, params))
  {
    VisibleDescend(scope, params, FIRST_LOCAL_SLOT, path);
    var locals := VisibleLocals(scope, params, path);
    var visible := Visible(scope, params, path);
    forall i | 0 <= i < |visible|
      ensures visible[i].index == if i < params then PARAM_END_SLOT + params - i else FIRST_LOCAL_SLOT - (i - params)
    {
      if i < params {
        assert visible[i] == scope.variables[..params][i];
      } else {
        assert visible[i] == locals[i - params];
      }
    }
  }

  /** The scope at the end of a path. */
  function Innermost(scope: Scope, path: seq<nat>): Scope
    requires Path(scope, path)
    decreases |path|
  {
    if path == [] then scope else Innermost(scope.children[path[0]], path[1..])
  }

  /** Every variable that belongs to the innermost scope is visible there, and of its locals the one declared first
      sits highest. */
  ghost predicate InnermostShown(scope: Scope, params: nat, path: seq<nat>)
    requires params <= |scope.variables| && Path(scope, path)
    reads Visible(scope, params, path)
  {
    var inner, first := Innermost(scope, path), if path == [] then params else 0;
    && (forall k :: 0 <= k < |inner.variables| && Owned(inner, inner.variables[k]) ==>
          inner.variables[k] in Visible(scope, params, path))
    && (forall k, l :: first <= k < l < |inner.variables| ==>
          Owned(inner, inner.variables[k]) ==> Owned(inner, inner.variables[l]) ==>
          inner.variables[k].index > inner.variables[l].index)
  }

  /** The locals of the innermost scope come last among those visible. */
  lemma {:induction false} InnermostLast(scope: Scope, params: nat, path: seq<nat>)
    returns (outer: seq<LocalVariable>, first: nat)
    requires params <= |scope.variables| && Path(scope, path)
    ensures first == (if path == [] then params else 0) && first <= |Innermost(scope, path).variables|
    ensures VisibleLocals(scope, params, path) == outer + Locals(Innermost(scope, path), first)
    decreases |path|
  {
    if path == [] {
      outer, first := [], params;
    } else {
      var rest, start := InnermostLast(scope.children[path[0]], 0, path[1..]);
      outer, first := Locals(scope, params) + rest, 0;
    }
  }

  /** Where the owned variable at position k comes among the locals. */
  lemma OwnedAt(scope: Scope, lo: nat, k: nat) returns (at: nat)
    requires lo <= k < |scope.variables| && Owned(scope, scope.variables[k])
    ensures at == |OwnedList(scope, lo, k)| < |Locals(scope, lo)| && Locals(scope, lo)[at] == scope.variables[k]
  {
    OwnedListGrows(scope, lo, k + 1, |scope.variables|);
    at := |OwnedList(scope, lo, k)|;
    assert OwnedList(scope, lo, k + 1)[at] == Locals(scope, lo)[at];
  }

  lemma OwnedIsVisible(scope: Scope, params: nat, path: seq<nat>, k: nat)
    requires params <= |scope.variables| && Path(scope, path)
    requires k < |Innermost(scope, path).variables|
    requires Owned(Innermost(scope, path), Innermost(scope, path).variables[k])
    ensures Innermost(scope, path).variables[k] in Visible(scope, params, path)
  {
    var outer, first := InnermostLast(scope, params, path);
    var inner := Innermost(scope, path);
    if k < first {
      assert scope.variables[..params][k] == inner.variables[k];
    } else {
      var at := OwnedAt(inner, first, k);
      assert VisibleLocals(scope, params, path)[|outer| + at] == inner.variables[k];
    }
  }

  lemma DeclaredFirstIsHighest(scope: Scope, params: nat, path: seq<nat>, frame: int, k: nat, l: nat)
    requires params <= |scope.variables| && Path(scope, path) && Placed(scope, params, frame)
    requires (if path == [] then params else 0) <= k < l < |Innermost(scope, path).variables|
    requires Owned(Innermost(scope, path), Innermost(scope, path).variables[k])
    requires Owned(Innermost(scope, path), Innermost(scope, path).variables[l])
    ensures Innermost(scope, path).variables[k].index > Innermost(scope, path).variables[l].index
  {
    VisibleDescend(scope, params, frame, path);
    var outer, first := InnermostLast(scope, params, path);
    var inner, locals := Innermost(scope, path), VisibleLocals(scope, params, path);
    var at := OwnedAt(inner, first, k);
    var after := OwnedAt(inner, first, l);
    OwnedListGrows(inner, first, k + 1, l);
    assert locals[|outer| + at] == inner.variables[k] && locals[|outer| + after] == inner.variables[l];
  }

  lemma InnermostIsShown(scope: Scope, params: nat, path: seq<nat>, frame: int)
    requires params <= |scope.variables| && Path(scope, path) && Placed(scope, params, frame)
    ensures InnermostShown(scope, params, path)
  {
    var inner, first := Innermost(scope, path), if path == [] then params else 0;
    forall k | 0 <= k < |inner.variables| && Owned(inner, inner.variables[k])
      ensures inner.variables[k] in Visible(scope, params, path)
    {
      OwnedIsVisible(scope, params, path, k);
    }
    forall k, l | first <= k < l < |inner.variables| && Owned(inner, inner.variables[k]) &&
                  Owned(inner, inner.variables[l])
      ensures inner.variables[k].index > inner.variables[l].index
    {
      DeclaredFirstIsHighest(scope, params, path, frame, k, l);
    }
  }

  /** The frame layout of a function. */
  class Function {
    const scope: Scope
    const numParams: nat
    var numStackLocals: int
    var numCopiedParams: int
    var firstParamIndex: int
    var firstStackLocalIndex: int

    constructor (scope: Scope, numParams: nat)
      ensures this.scope == scope && this.numParams == numParams
    {
      this.scope, this.numParams := scope, numParams;
    }

    /** func_num_non_copied_params */
    function NumNonCopiedParams(): int
      reads this
    {
      if numCopiedParams == 0 then numParams else 0
    }

    /** graph_variable_count */
    function VariableCount(): int
      reads this
    {
      numCopiedParams + NumNonCopiedParams() + numStackLocals
    }

    /** func_alloc_variables. Wherever control is in the scope tree, the visible variables have different slots and
        different bits below the variable count; and the locals reserved are as many as some place needs. */
    method AllocFrame()
      requires Tree(scope) && Parameters(scope, numParams)
      modifies this, scope.variables[..numParams], Slots(scope, numParams)
      ensures firstParamIndex == 1 + numParams && firstStackLocalIndex == -3
      ensures NumNonCopiedParams() == numParams && VariableCount() == numParams + numStackLocals
      ensures forall path {:trigger Path(scope, path)} | Path(scope, path) ::
              VisibleApart(Visible(scope, numParams, path), numParams, numStackLocals) &&
              InnermostShown(scope, numParams, path)
      ensures exists path {:trigger Path(scope, path)} ::
              Path(scope, path) && |Visible(scope, numParams, path)| == VariableCount()
    {
      firstParamIndex := PARAM_END_SLOT + numParams;
      firstStackLocalIndex := FIRST_LOCAL_SLOT;
      numCopiedParams := 0;
      var nextFree := AllocVariables(scope, firstParamIndex, numParams, firstStackLocalIndex);
      numStackLocals := firstStackLocalIndex - nextFree;
      forall path {:trigger Path(scope, path)} | Path(scope, path)
        ensures VisibleApart(Visible(scope, numParams, path), numParams, numStackLocals)
        ensures InnermostShown(scope, numParams, path)
      {
        PlacedApart(scope, numParams, path);
        InnermostIsShown(scope, numParams, path, FIRST_LOCAL_SLOT);
      }
      ghost var deepest := DepthReached(scope, numParams);
      assert |Visible(scope, numParams, deepest)| == VariableCount();
    }
  }
}
