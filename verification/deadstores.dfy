/** Why it is safe to drop the stores that is_store_alive rejects. */
module DeadStores {
  import opened Flow
  import opened Liveness

  /** The values all loads see when a trace runs. What a store stores may depend on its position and on
      everything loaded before it; a store that is not kept stores null. */
  ghost function Run<V>(trace: Code, kept: seq<bool>, i: nat,
          env: nat -> V, seen: seq<V>, value: (nat, seq<V>) -> V, nil: V): seq<V>
    requires i <= |trace| == |kept|
    decreases |trace| - i
  {
    if i == |trace| then seen
    else
      match trace[i]
      case Load(v) => Run(trace, kept, i + 1, env, seen + [env(v)], value, nil)
      case Store(v) =>
        Run(trace, kept, i + 1, Update(env, v, if kept[i] then value(i, seen) else nil), seen, value, nil)
      case Neutral => Run(trace, kept, i + 1, env, seen, value, nil)
  }

  ghost function Update<V>(env: nat -> V, v: nat, x: V): nat -> V {
    (u: nat) => if u == v then x else env(u)
  }

  /** Only stores whose value no later load sees are dropped. */
  ghost predicate DropsOnlyDead(trace: Code, kept: seq<bool>) {
    && |kept| == |trace|
    && forall i :: 0 <= i < |trace| && !kept[i] ==> trace[i].Store? && !Exposed(trace[i + 1..], trace[i].v)
  }

  ghost function KeepAll(n: nat): seq<bool> {
    seq(n, _ => true)
  }

  /** The two environments agree on everything the rest of the trace will load before storing. */
  ghost predicate Agree<V>(trace: Code, i: nat, env: nat -> V, env': nat -> V)
    requires i <= |trace|
  {
    forall v: nat :: Exposed(trace[i..], v) ==> env(v) == env'(v)
  }

  lemma {:induction false} DroppingIsInvisible<V>(trace: Code, kept: seq<bool>, i: nat,
          env: nat -> V, env': nat -> V, seen: seq<V>, value: (nat, seq<V>) -> V, nil: V)
    requires i <= |trace| && DropsOnlyDead(trace, kept) && Agree(trace, i, env, env')
    ensures Run(trace, kept, i, env', seen, value, nil) == Run(trace, KeepAll(|trace|), i, env, seen, value, nil)
    decreases |trace| - i
  {
    if i < |trace| {
      assert trace[i..][1..] == trace[i + 1..];
      match trace[i]
      case Load(v) =>
        assert Exposed(trace[i..], v);
        assert Agree(trace, i + 1, env, env') by {
          forall u: nat | Exposed(trace[i + 1..], u) ensures env(u) == env'(u) {
            assert Exposed(trace[i..], u);
          }
        }
        DroppingIsInvisible(trace, kept, i + 1, env, env', seen + [env(v)], value, nil);
      case Store(v) =>
        var stored := value(i, seen);
        var after, after' := Update(env, v, stored), Update(env', v, if kept[i] then stored else nil);
        assert Agree(trace, i + 1, after, after') by {
          forall u: nat | Exposed(trace[i + 1..], u) ensures after(u) == after'(u) {
            assert u != v ==> Exposed(trace[i..], u);
          }
        }
        DroppingIsInvisible(trace, kept, i + 1, after, after', seen, value, nil);
      case Neutral =>
        assert Agree(trace, i + 1, env, env') by {
          forall u: nat | Exposed(trace[i + 1..], u) ensures env(u) == env'(u) {
            assert Exposed(trace[i..], u);
          }
        }
        DroppingIsInvisible(trace, kept, i + 1, env, env', seen, value, nil);
    }
  }

  // ----- a dropped store that is seen

  /** Loads see true unless a store is dropped: everything is true at first, every store stores true, and null
      is false. */
  ghost function Marks(trace: Code, kept: seq<bool>, i: nat, env: nat -> bool, seen: seq<bool>): seq<bool>
    requires i <= |trace| == |kept|
  {
    Run(trace, kept, i, env, seen, AlwaysTrue, false)
  }

  ghost function AlwaysTrue(i: nat, seen: seq<bool>): bool {
    true
  }

  ghost function TrueAtFirst(v: nat): bool {
    true
  }

  lemma {:induction false} NothingDroppedNothingFalse(trace: Code, i: nat, env: nat -> bool, seen: seq<bool>)
    requires i <= |trace| && (forall v :: env(v)) && false !in seen
    ensures false !in Marks(trace, KeepAll(|trace|), i, env, seen)
    decreases |trace| - i
  {
    if i < |trace| {
      match trace[i]
      case Load(v) => NothingDroppedNothingFalse(trace, i + 1, env, seen + [env(v)]);
      case Store(v) => NothingDroppedNothingFalse(trace, i + 1, Update(env, v, true), seen);
      case Neutral => NothingDroppedNothingFalse(trace, i + 1, env, seen);
    }
  }

  lemma {:induction false} SeenStays(trace: Code, kept: seq<bool>, i: nat, env: nat -> bool, seen: seq<bool>)
    requires i <= |trace| == |kept| && false in seen
    ensures false in Marks(trace, kept, i, env, seen)
    decreases |trace| - i
  {
    if i < |trace| {
      match trace[i]
      case Load(v) => SeenStays(trace, kept, i + 1, env, seen + [env(v)]);
      case Store(v) => SeenStays(trace, kept, i + 1, Update(env, v, kept[i]), seen);
      case Neutral => SeenStays(trace, kept, i + 1, env, seen);
    }
  }

  lemma {:induction false} FalseIsSeen(trace: Code, kept: seq<bool>, i: nat, env: nat -> bool, seen: seq<bool>,
          v: nat)
    requires i <= |trace| == |kept| && Exposed(trace[i..], v) && !env(v)
    ensures false in Marks(trace, kept, i, env, seen)
    decreases |trace| - i
  {
    assert trace[i..][1..] == trace[i + 1..];
    match trace[i]
    case Load(u) =>
      if u == v {
        SeenStays(trace, kept, i + 1, env, seen + [env(u)]);
      } else {
        FalseIsSeen(trace, kept, i + 1, env, seen + [env(u)], v);
      }
    case Store(u) => FalseIsSeen(trace, kept, i + 1, Update(env, u, kept[i]), seen, v);
    case Neutral => FalseIsSeen(trace, kept, i + 1, env, seen, v);
  }

  lemma {:induction false} DropIsSeen(trace: Code, kept: seq<bool>, i: nat, j: nat, env: nat -> bool,
          seen: seq<bool>)
    requires i <= j < |trace| == |kept|
    requires trace[j].Store? && !kept[j] && Exposed(trace[j + 1..], trace[j].v)
    ensures false in Marks(trace, kept, i, env, seen)
    decreases j - i
  {
    match trace[i]
    case Load(v) => DropIsSeen(trace, kept, i + 1, j, env, seen + [env(v)]);
    case Store(v) =>
      if i == j {
        FalseIsSeen(trace, kept, i + 1, Update(env, v, kept[i]), seen, v);
      } else {
        DropIsSeen(trace, kept, i + 1, j, Update(env, v, kept[i]), seen);
      }
    case Neutral => DropIsSeen(trace, kept, i + 1, j, env, seen);
  }

  // ----- the blocks of a program

  /** Which instructions stay: all but some stores. */
  ghost predicate KeepsAllButStores(p: Program, kept: seq<seq<bool>>)
    requires p.Valid()
  {
    && |kept| == |p.succs|
    && (forall b :: 0 <= b < |kept| ==> |kept[b]| == |p.code[b]|)
    && forall b, k :: 0 <= b < |kept| && 0 <= k < |kept[b]| && !kept[b][k] ==> p.code[b][k].Store?
  }

  ghost function KeptOnWalk(p: Program, kept: seq<seq<bool>>, w: seq<nat>): (r: seq<bool>)
    requires p.Valid() && KeepsAllButStores(p, kept) && Walk(p, w)
    ensures |r| == |Trace(p, w)|
  {
    if w == [] then [] else kept[w[0]] + KeptOnWalk(p, kept, w[1..])
  }

  ghost predicate DropsNothingLive(p: Program, kept: seq<seq<bool>>)
    requires p.Valid() && KeepsAllButStores(p, kept)
  {
    forall b: nat, k: nat :: b < |kept| && k < |kept[b]| && !kept[b][k] ==> !LiveAfter(p, b, k, p.code[b][k].v)
  }

  lemma DroppedIsDead(p: Program, kept: seq<seq<bool>>, b: nat, rest: seq<nat>, i: nat)
    requires p.Valid() && KeepsAllButStores(p, kept) && DropsNothingLive(p, kept)
    requires b < |kept| && Continues(p, b, rest) && i < |kept[b]| && !kept[b][i]
    ensures p.code[b][i].Store? && !Exposed(p.code[b][i + 1..] + Trace(p, rest), p.code[b][i].v)
  {
    assert !LiveAfter(p, b, i, p.code[b][i].v);
  }

  lemma {:induction false} WalkDropsOnlyDead(p: Program, kept: seq<seq<bool>>, w: seq<nat>)
    requires p.Valid() && KeepsAllButStores(p, kept) && DropsNothingLive(p, kept) && Walk(p, w)
    ensures DropsOnlyDead(Trace(p, w), KeptOnWalk(p, kept, w))
  {
    if w != [] {
      var b, rest := w[0], w[1..];
      WalkDropsOnlyDead(p, kept, rest);
      var code, later := p.code[b], Trace(p, rest);
      assert Continues(p, b, rest);
      forall i | 0 <= i < |code| && !kept[b][i]
        ensures code[i].Store? && !Exposed(code[i + 1..] + later, code[i].v)
      {
        DroppedIsDead(p, kept, b, rest, i);
      }
      DropsConcat(code, kept[b], later, KeptOnWalk(p, kept, rest));
    }
  }

  lemma DropsConcat(code: Code, first: seq<bool>, later: Code, kept: seq<bool>)
    requires |first| == |code| && DropsOnlyDead(later, kept)
    requires forall i :: 0 <= i < |code| && !first[i] ==> code[i].Store? && !Exposed(code[i + 1..] + later, code[i].v)
    ensures DropsOnlyDead(code + later, first + kept)
  {
    var trace := code + later;
    forall i | 0 <= i < |trace| && !(first + kept)[i]
      ensures trace[i].Store? && !Exposed(trace[i + 1..], trace[i].v)
    {
      if i < |code| {
        assert trace[i + 1..] == code[i + 1..] + later;
      } else {
        assert trace[i + 1..] == later[i - |code| + 1..];
      }
    }
  }

  /** Dropping stores that are not live is invisible: whatever walk a run takes and whatever the stores compute,
      no load sees a different value when the dropped stores store null. */
  lemma NothingLiveDropped<V>(p: Program, kept: seq<seq<bool>>, w: seq<nat>, env: nat -> V,
          value: (nat, seq<V>) -> V, nil: V)
    requires p.Valid() && KeepsAllButStores(p, kept) && DropsNothingLive(p, kept) && Walk(p, w)
    ensures Run(Trace(p, w), KeptOnWalk(p, kept, w), 0, env, [], value, nil) ==
            Run(Trace(p, w), KeepAll(|Trace(p, w)|), 0, env, [], value, nil)
  {
    WalkDropsOnlyDead(p, kept, w);
    DroppingIsInvisible(Trace(p, w), KeptOnWalk(p, kept, w), 0, env, env, [], value, nil);
  }

  /** On the walk w no load sees a dropped store. */
  ghost predicate Unseen(p: Program, kept: seq<seq<bool>>, w: seq<nat>)
    requires p.Valid() && KeepsAllButStores(p, kept) && Walk(p, w)
  {
    Marks(Trace(p, w), KeptOnWalk(p, kept, w), 0, TrueAtFirst, []) ==
    Marks(Trace(p, w), KeepAll(|Trace(p, w)|), 0, TrueAtFirst, [])
  }

  /** And only then: each live store that is dropped is seen on some walk. */
  lemma LiveDropIsSeen(p: Program, kept: seq<seq<bool>>, b: nat, k: nat) returns (w: seq<nat>)
    requires p.Valid() && KeepsAllButStores(p, kept) && b < |kept| && k < |kept[b]| && !kept[b][k]
    requires LiveAfter(p, b, k, p.code[b][k].v)
    ensures Walk(p, w) && !Unseen(p, kept, w)
  {
    var code, v := p.code[b], p.code[b][k].v;
    var next :| Continues(p, b, next) && Exposed(code[k + 1..] + Trace(p, next), v);
    w := [b] + next;
    assert w[1..] == next;
    var trace := Trace(p, w);
    assert trace == code + Trace(p, next);
    assert trace[k + 1..] == code[k + 1..] + Trace(p, next);
    DropIsSeen(trace, KeptOnWalk(p, kept, w), 0, k, TrueAtFirst, []);
    NothingDroppedNothingFalse(trace, 0, TrueAtFirst, []);
  }

  /** What is dropped goes unseen on all walks if and only if nothing live is dropped. */
  lemma UnseenIffNothingLive(p: Program, kept: seq<seq<bool>>)
    requires p.Valid() && KeepsAllButStores(p, kept)
    ensures (forall w :: Walk(p, w) ==> Unseen(p, kept, w)) <==> DropsNothingLive(p, kept)
  {
    if DropsNothingLive(p, kept) {
      forall w | Walk(p, w) ensures Unseen(p, kept, w) {
        NothingLiveDropped(p, kept, w, TrueAtFirst, AlwaysTrue, false);
      }
    } else {
      var b: nat, k: nat :| b < |kept| && k < |kept[b]| && !kept[b][k] && LiveAfter(p, b, k, p.code[b][k].v);
      var w := LiveDropIsSeen(p, kept, b, k);
    }
  }

  // ----- dropping what is_store_alive rejects

  /** All instructions but the stores of counted variables that are not reported alive. */
  ghost function KeptAlive(p: Program, n: nat, flags: seq<seq<Flags>>, outs: seq<set<nat>>): seq<seq<bool>>
    requires p.Valid() && AllScanned(p, flags, n) && |outs| == |p.succs|
  {
    seq(|p.succs|, b requires 0 <= b < |p.succs| =>
      seq(|p.code[b]|, k requires 0 <= k < |p.code[b]| =>
        p.code[b][k].Store? && p.code[b][k].v < n ==> StoreAlive(flags[b][k], p.code[b][k].v in outs[b])))
  }

  /** Dead-store elimination is invisible: whatever walk a run takes and whatever the stores compute, no load
      sees a different value when every store not reported alive stores null. */
  lemma DeadStoresAreInvisible<V>(p: Program, n: nat, flags: seq<seq<Flags>>, ins: seq<set<nat>>, outs: seq<set<nat>>,
          w: seq<nat>, env: nat -> V, value: (nat, seq<V>) -> V, nil: V)
    requires p.Valid() && AllScanned(p, flags, n) && IsLiveness(p, n, ins, outs) && Walk(p, w)
    ensures KeepsAllButStores(p, KeptAlive(p, n, flags, outs))
    ensures Run(Trace(p, w), KeptOnWalk(p, KeptAlive(p, n, flags, outs), w), 0, env, [], value, nil) ==
            Run(Trace(p, w), KeepAll(|Trace(p, w)|), 0, env, [], value, nil)
  {
    var kept := KeptAlive(p, n, flags, outs);
    forall b: nat, k: nat | b < |kept| && k < |kept[b]| && !kept[b][k]
      ensures !LiveAfter(p, b, k, p.code[b][k].v)
    {
      StoreAliveMeansLive(p, n, flags, ins, outs, b, k);
    }
    NothingLiveDropped(p, kept, w, env, value, nil);
  }
}
