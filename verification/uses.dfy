/** The use lists of definitions: doubly linked through the inputs themselves. */
module Uses {

  class Definition {
    var useList: Input?

    constructor ()
      ensures useList == null
    {
      useList := null;
    }
  }

  class Input {
    var next: Input?
    var prev: Input?
    var defn: Definition

    /** input_new: not yet on any list. */
    constructor (defn: Definition)
      ensures next == null && prev == null && this.defn == defn
    {
      next, prev, this.defn := null, null, defn;
    }
  }

  /** The use list of d is a well-formed doubly linked list of exactly these inputs, in this order. */
  ghost predicate Chained(d: Definition, s: seq<Input>)
    reads d, s
  {
    && d.useList == (if s == [] then null else s[0])
    && (forall i, j :: 0 <= i < j < |s| ==> s[i] != s[j])
    && (forall k :: 0 <= k < |s| ==> Linked(d, s, k))
  }

  ghost predicate Linked(d: Definition, s: seq<Input>, k: nat)
    requires k < |s|
    reads s[k]
  {
    && s[k].defn == d
    && s[k].next == (if k + 1 < |s| then s[k + 1] else null)
    && s[k].prev == (if k > 0 then s[k - 1] else null)
  }

  /** Following next from the head visits the inputs in order and ends: the list has no cycle. */
  function Follow(input: Input?, steps: nat): Input?
    reads *
    decreases steps
  {
    if steps == 0 || input == null then input else Follow(input.next, steps - 1)
  }

  lemma {:induction false} ChainEnds(d: Definition, s: seq<Input>, k: nat, steps: nat)
    requires Chained(d, s) && k <= |s|
    ensures Follow(if k < |s| then s[k] else null, steps) == if k + steps < |s| then s[k + steps] else null
    decreases steps
  {
    if steps > 0 && k < |s| {
      assert Linked(d, s, k);
      ChainEnds(d, s, k + 1, steps - 1);
    }
  }

  /** The list without its k-th input. */
  function Without(s: seq<Input>, k: nat): seq<Input>
    requires k < |s|
  {
    s[..k] + s[k + 1..]
  }

  /** Both inputs are on the list, x before y. */
  ghost predicate Precedes(s: seq<Input>, x: Input, y: Input) {
    exists i: nat, j: nat :: i < j < |s| && s[i] == x && s[j] == y
  }

  ghost predicate Distinct(s: seq<Input>) {
    forall i, j :: 0 <= i < j < |s| ==> s[i] != s[j]
  }

  /** On every list the inputs other than this one are the same ones as before, in the same order. */
  ghost predicate OthersStay(input: Input, was: map<Definition, seq<Input>>, now: map<Definition, seq<Input>>)
  {
    && now.Keys == was.Keys
    && (forall e, x :: e in was && x in was[e] && x != input ==> x in now[e])
    && (forall e, x :: e in now && x in now[e] && x != input ==> x in was[e])
    && (forall e, x, y :: e in was && x in was[e] && y in was[e] && x != input && y != input ==>
          (Precedes(now[e], x, y) <==> Precedes(was[e], x, y)))
  }

  lemma OthersStayWithout(lists: map<Definition, seq<Input>>, d: Definition, k: nat)
    requires d in lists && k < |lists[d]| && Distinct(lists[d])
    ensures OthersStay(lists[d][k], lists, lists[d := Without(lists[d], k)])
  {
    forall x: Input, y: Input | x != lists[d][k] && y != lists[d][k]
      ensures x in Without(lists[d], k) <==> x in lists[d]
      ensures Precedes(Without(lists[d], k), x, y) <==> Precedes(lists[d], x, y)
    {
      OthersWithout(lists[d], k, x, y);
    }
  }

  lemma OthersStayBehind(lists: map<Definition, seq<Input>>, d: Definition, input: Input)
    requires d in lists
    ensures OthersStay(input, lists, lists[d := [input] + lists[d]])
  {
    forall x: Input, y: Input | x != input && y != input
      ensures x in [input] + lists[d] <==> x in lists[d]
      ensures Precedes([input] + lists[d], x, y) <==> Precedes(lists[d], x, y)
    {
      OthersBehind(lists[d], input, x, y);
    }
  }

  /** Without its k-th input a list has the others, in the same order. */
  lemma OthersWithout(s: seq<Input>, k: nat, x: Input, y: Input)
    requires Distinct(s) && k < |s| && x != s[k] && y != s[k]
    ensures x in Without(s, k) <==> x in s
    ensures Precedes(Without(s, k), x, y) <==> Precedes(s, x, y)
  {
    OthersMoved(s[..k], [s[k]], s[k + 1..], x, y);
    assert s[..k] + [s[k]] + s[k + 1..] == s;
  }

  /** Behind a new first input a list has the inputs it had, in the same order. */
  lemma OthersBehind(s: seq<Input>, input: Input, x: Input, y: Input)
    requires x != input && y != input
    ensures x in [input] + s <==> x in s
    ensures Precedes([input] + s, x, y) <==> Precedes(s, x, y)
  {
    OthersMoved([], [input], s, x, y);
    assert [] + [input] + s == [input] + s && [] + s == s;
  }

  /** One input more between two parts of a list leaves the order of the others. */
  lemma OthersMoved(a: seq<Input>, one: seq<Input>, b: seq<Input>, x: Input, y: Input)
    requires |one| == 1 && x != one[0] && y != one[0]
    ensures x in a + one + b <==> x in a + b
    ensures Precedes(a + one + b, x, y) <==> Precedes(a + b, x, y)
  {
    PrecedesInParts(a + one, b, x, y);
    PrecedesInParts(a, one, x, y);
    PrecedesInParts(a, b, x, y);
  }

  lemma PrecedesInParts(a: seq<Input>, b: seq<Input>, x: Input, y: Input)
    ensures Precedes(a + b, x, y) <==> Precedes(a, x, y) || Precedes(b, x, y) || (x in a && y in b)
  {
    var s := a + b;
    if Precedes(s, x, y) {
      var i: nat, j: nat :| i < j < |s| && s[i] == x && s[j] == y;
      if j < |a| {
        assert a[i] == x && a[j] == y;
      } else if i < |a| {
        assert a[i] == x && b[j - |a|] == y;
      } else {
        assert b[i - |a|] == x && b[j - |a|] == y;
      }
    }
    if Precedes(a, x, y) {
      var i: nat, j: nat :| i < j < |a| && a[i] == x && a[j] == y;
      assert s[i] == x && s[j] == y;
    }
    if Precedes(b, x, y) {
      var i: nat, j: nat :| i < j < |b| && b[i] == x && b[j] == y;
      assert s[|a| + i] == x && s[|a| + j] == y;
    }
    if x in a && y in b {
      var i: nat :| i < |a| && a[i] == x;
      var j: nat :| j < |b| && b[j] == y;
      assert s[i] == x && s[|a| + j] == y;
    }
  }

  /** The lists after the k-th input of one definition's list went to the front of another's. */
  ghost function Rebound(lists: map<Definition, seq<Input>>, d: Definition, e: Definition, input: Input,
          k: nat): map<Definition, seq<Input>>
    requires d in lists && e in lists && k < |lists[d]|
  {
    var removed := lists[d := Without(lists[d], k)];
    removed[e := [input] + removed[e]]
  }

  /** input_add: in front of the list. */
  method Prepend(input: Input, d: Definition, ghost s: seq<Input>)
    requires Chained(d, s) && input !in s && input.defn == d
    modifies input, d, s
    ensures Chained(d, [input] + s) && input.defn == d
    ensures forall x :: x in s ==> x.defn == old(x.defn)
  {
    var next := d.useList;
    d.useList := input;
    input.next := next;
    input.prev := null;
    if next != null {
      next.prev := input;
    }
    ghost var t := [input] + s;
    forall k | 0 <= k < |t| ensures Linked(d, t, k) {
      if k > 0 {
        assert old(Linked(d, s, k - 1)) && t[k] == s[k - 1];
      }
    }
  }

  /** input_remove_from_list */
  method Unlink(input: Input, ghost s: seq<Input>, ghost k: nat)
    requires Chained(input.defn, s) && k < |s| && s[k] == input
    modifies input.defn, s
    ensures Chained(input.defn, Without(s, k)) && input.next == null && input.prev == null
    ensures forall x :: x in s ==> x.defn == old(x.defn)
  {
    var d := input.defn;
    var next := input.next;
    assert Linked(d, s, k);
    if input == d.useList {
      assert k == 0;
      d.useList := next;
      if next != null {
        next.prev := null;
      }
    } else {
      assert k > 0;
      var prev := input.prev;
      prev.next := next;
      if next != null {
        next.prev := prev;
      }
    }
    input.next := null;
    input.prev := null;
    ghost var t := Without(s, k);
    forall i | 0 <= i < |t| ensures Linked(d, t, i) {
      ghost var j := if i < k then i else i + 1;
      assert t[i] == s[j] && old(Linked(d, s, j));
    }
  }

  /** The use lists of all definitions of a graph. */
  class UseLists {
    ghost var lists: map<Definition, seq<Input>>

    constructor ()
      ensures Valid() && lists == map[]
    {
      lists := map[];
    }

    ghost predicate Enlisted(input: Input)
      reads this
    {
      exists d, k :: d in lists && 0 <= k < |lists[d]| && lists[d][k] == input
    }

    ghost function Footprint(): set<object>
      reads this
    {
      lists.Keys + set d, k | d in lists && 0 <= k < |lists[d]| :: lists[d][k]
    }

    ghost predicate Valid()
      reads this, Footprint()
    {
      forall d :: d in lists ==> Chained(d, lists[d])
    }

    /** An input is on exactly one list, that of its definition, or on none. */
    lemma OnlyOnItsOwnList(input: Input, d: Definition)
      requires Valid() && d in lists
      ensures input in lists[d] <==> Enlisted(input) && input.defn == d
    {
      if input in lists[d] {
        var k :| 0 <= k < |lists[d]| && lists[d][k] == input;
        assert Linked(d, lists[d], k);
      }
      if Enlisted(input) && input.defn == d {
        var e, k :| e in lists && 0 <= k < |lists[e]| && lists[e][k] == input;
        assert Linked(e, lists[e], k);
      }
    }

    /** A new definition, with no uses. */
    method Register(d: Definition)
      requires Valid() && d !in lists && d.useList == null
      modifies this
      ensures Valid() && lists == old(lists)[d := []]
    {
      lists := lists[d := []];
    }

    /** The lists of other definitions are not touched by changes to d, to the inputs on its list, or to an input on
        no list. */
    twostate lemma OtherListsStay(d: Definition)
      requires old(Valid()) && d in old(lists)
      requires forall e :: e in old(lists) && e != d ==> e.useList == old(e.useList)
      requires forall e, x :: e in old(lists) && e != d && x in old(lists)[e] && x !in old(lists)[d] ==>
                 x.next == old(x.next) && x.prev == old(x.prev) && x.defn == old(x.defn)
      ensures forall e :: e in old(lists) && e != d ==> Chained(e, old(lists)[e])
    {
      var t := old(lists)[d];
      forall e, k | e in old(lists) && e != d && 0 <= k < |old(lists)[e]|
        ensures Linked(e, old(lists)[e], k)
      {
        assert old(Linked(e, lists[e], k));
        forall j | 0 <= j < |t| ensures t[j] != old(lists)[e][k] {
          assert old(Linked(d, lists[d], j));
        }
      }
    }

    /** input_add on the list of the input's definition. */
    method Add(input: Input)
      requires Valid() && input.defn in lists && !Enlisted(input)
      modifies this, Footprint(), input
      ensures Valid() && input.defn == old(input.defn)
      ensures lists == old(lists)[input.defn := [input] + old(lists)[input.defn]]
      ensures Enlisted(input) && lists[input.defn] != [] && lists[input.defn][0] == input
      ensures OthersStay(input, old(lists), lists)
    {
      var d := input.defn;
      ghost var was := lists;
      Prepend(input, d, was[d]);
      OtherListsStay(d);
      lists := was[d := [input] + was[d]];
      assert lists[d][0] == input;
      OthersStayBehind(was, d, input);
    }

    method Remove(input: Input) returns (ghost k: nat)
      requires Valid() && input.defn in lists && Enlisted(input)
      modifies this, Footprint()
      ensures Valid() && input.defn == old(input.defn) && !Enlisted(input)
      ensures k < |old(lists)[input.defn]| && old(lists)[input.defn][k] == input
      ensures lists == old(lists)[input.defn := Without(old(lists)[input.defn], k)]
      ensures OthersStay(input, old(lists), lists)
    {
      var d := input.defn;
      ghost var was := lists;
      OnlyOnItsOwnList(input, d);
      k :| 0 <= k < |was[d]| && was[d][k] == input;
      Unlink(input, was[d], k);
      OtherListsStay(d);
      lists := was[d := Without(was[d], k)];
      assert input !in lists[d];
      OthersStayWithout(was, d, k);
      OnlyOnItsOwnList(input, d);
    }

    /** input_bind: from the list of the old definition to the front of the new one's. */
    method Bind(input: Input, d: Definition) returns (ghost k: nat)
      requires Valid() && input.defn in lists && Enlisted(input) && d in lists
      modifies this, Footprint()
      ensures Valid() && input.defn == d
      ensures Enlisted(input) && d in lists && lists[d] != [] && lists[d][0] == input
      ensures OthersStay(input, old(lists), lists)
      ensures k < |old(lists[input.defn])| && old(lists[input.defn])[k] == input
      ensures d in lists && lists == Rebound(old(lists), old(input.defn), d, input, k)
    {
      k := Remove(input);
      Redirect(input, d);
      Add(input);
    }

    method Redirect(input: Input, d: Definition)
      requires Valid() && !Enlisted(input)
      modifies input`defn
      ensures Valid() && !Enlisted(input) && input.defn == d
    {
      assert forall e :: e in lists ==> input !in lists[e];
      input.defn := d;
    }

    /** Following the links from a definition visits its enlisted inputs and nothing else, then ends. */
    lemma LinksAreTheList(d: Definition)
      requires Valid() && d in lists
      ensures forall k :: 0 <= k < |lists[d]| ==> Follow(d.useList, k) == lists[d][k]
      ensures Follow(d.useList, |lists[d]|) == null
    {
      var s := lists[d];
      forall k | 0 <= k <= |s| ensures Follow(d.useList, k) == if k < |s| then s[k] else null {
        ChainEnds(d, s, 0, k);
      }
    }
  }
}
