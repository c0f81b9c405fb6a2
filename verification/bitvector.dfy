/** The word-packed bit vectors of the data-flow passes, and their iterator. */
module BitVectors {

  const BITS_PER_WORD := 64

  /** An unsigned machine word, as its bits, least significant first. */
  type Word = w: seq<bool> | |w| == BITS_PER_WORD witness seq(BITS_PER_WORD, _ => false)

  const ZERO: Word := seq(BITS_PER_WORD, _ => false)

  /** 1 << k */
  function Bit(k: nat): Word
    requires k < BITS_PER_WORD
  {
    seq(BITS_PER_WORD, i => i == k)
  }

  function Or(a: Word, b: Word): Word {
    seq(BITS_PER_WORD, i requires 0 <= i < BITS_PER_WORD => a[i] || b[i])
  }

  function And(a: Word, b: Word): Word {
    seq(BITS_PER_WORD, i requires 0 <= i < BITS_PER_WORD => a[i] && b[i])
  }

  function Not(a: Word): Word {
    seq(BITS_PER_WORD, i requires 0 <= i < BITS_PER_WORD => !a[i])
  }

  /** a >> k */
  function Shr(a: Word, k: nat): Word {
    seq(BITS_PER_WORD, i requires 0 <= i < BITS_PER_WORD => i + k < BITS_PER_WORD && a[i + k])
  }

  /** (a & ((1 << n) - 1)) == 0 */
  predicate LowBitsClear(a: Word, n: nat)
    requires n <= BITS_PER_WORD
  {
    forall i :: 0 <= i < n ==> !a[i]
  }

  lemma NonZeroHasBit(a: Word) returns (k: nat)
    requires a != ZERO
    ensures k < BITS_PER_WORD && a[k]
  {
    assert !(forall i :: 0 <= i < BITS_PER_WORD ==> a[i] == ZERO[i]);
    k :| 0 <= k < BITS_PER_WORD && a[k];
  }

  /** The set of bit positions a word array holds. */
  ghost function Members(data: seq<Word>): set<nat> {
    set i: nat | i < BITS_PER_WORD * |data| && data[i / BITS_PER_WORD][i % BITS_PER_WORD]
  }

  lemma MembersOfUpdate(data: seq<Word>, n: nat, w: Word)
    requires n < |data|
    ensures forall i: nat :: i in Members(data[n := w]) <==>
              if i / BITS_PER_WORD == n then w[i % BITS_PER_WORD] else i in Members(data)
  {
  }

  lemma TestBit(w: Word, k: nat)
    requires k < BITS_PER_WORD
    ensures And(w, Bit(k)) != ZERO <==> w[k]
  {
    if And(w, Bit(k)) != ZERO {
      var j := NonZeroHasBit(And(w, Bit(k)));
    } else {
      assert !And(w, Bit(k))[k];
    }
  }

  /** C division truncates, so a vector of size 0 still has one word. */
  function WordCount(size: nat): (r: nat)
    ensures r > 0 && size <= BITS_PER_WORD * r
    ensures size > 0 ==> size > BITS_PER_WORD * (r - 1)
    ensures size == 0 ==> r == 1
  {
    if size == 0 then 1 else 1 + (size - 1) / BITS_PER_WORD
  }

  class BitVector {
    const size: nat
    const data: array<Word>

    /** bit_vector_init */
    constructor (size: nat)
      ensures this.size == size && fresh(data) && data.Length == WordCount(size)
      ensures Contents() == {}
    {
      this.size := size;
      data := new Word[WordCount(size)](_ => ZERO);
    }

    ghost function Contents(): set<nat>
      reads data
    {
      Members(data[..])
    }

    function Contains(index: nat): (r: bool)
      requires index < BITS_PER_WORD * data.Length
      reads data
      ensures r <==> index in Contents()
    {
      TestBit(data[index / BITS_PER_WORD], index % BITS_PER_WORD);
      And(data[index / BITS_PER_WORD], Bit(index % BITS_PER_WORD)) != ZERO
    }

    method Add(index: nat)
      requires index < BITS_PER_WORD * data.Length
      modifies data
      ensures Contents() == old(Contents()) + {index}
    {
      var n := index / BITS_PER_WORD;
      MembersOfUpdate(data[..], n, Or(data[n], Bit(index % BITS_PER_WORD)));
      data[n] := Or(data[n], Bit(index % BITS_PER_WORD));
      assert data[..] == old(data[..])[n := data[n]];
    }

    method Remove(index: nat)
      requires index < BITS_PER_WORD * data.Length
      modifies data
      ensures Contents() == old(Contents()) - {index}
    {
      var n := index / BITS_PER_WORD;
      MembersOfUpdate(data[..], n, And(data[n], Not(Bit(index % BITS_PER_WORD))));
      data[n] := And(data[n], Not(Bit(index % BITS_PER_WORD)));
      assert data[..] == old(data[..])[n := data[n]];
    }

    method Clear()
      modifies data
      ensures Contents() == {}
    {
      for i := 0 to data.Length
        invariant forall j :: 0 <= j < i ==> data[j] == ZERO
      {
        data[i] := ZERO;
      }
    }

    method Intersect(other: BitVector)
      requires other.data.Length == data.Length
      modifies data
      ensures Contents() == old(Contents()) * old(other.Contents())
    {
      for i := 0 to data.Length
        invariant forall j :: 0 <= j < i ==> data[j] == And(old(data[j]), old(other.data[j]))
        invariant forall j :: i <= j < data.Length ==> data[j] == old(data[j]) && other.data[j] == old(other.data[j])
      {
        data[i] := And(data[i], other.data[i]);
      }
    }

    /** Union in place; reports whether anything was new. */
    method AddAll(from: BitVector) returns (changed: bool)
      requires from.data.Length == data.Length
      modifies data
      ensures Contents() == old(Contents()) + old(from.Contents())
      ensures changed <==> Contents() != old(Contents())
    {
      changed := false;
      for i := 0 to data.Length
        invariant forall j :: 0 <= j < i ==> data[j] == Or(old(data[j]), old(from.data[j]))
        invariant forall j :: i <= j < data.Length ==> data[j] == old(data[j]) && from.data[j] == old(from.data[j])
        invariant changed <==> exists j :: 0 <= j < i && data[j] != old(data[j])
      {
        var before := data[i];
        var after := Or(data[i], from.data[i]);
        if before != after {
          changed := true;
          data[i] := after;
        }
      }
      SameWordsIffSameMembers(old(data[..]), data[..]);
    }

    /** this |= gen & ~kill; reports whether anything was new. */
    method KillAndAdd(kill: BitVector, gen: BitVector) returns (changed: bool)
      requires kill.data.Length == gen.data.Length == data.Length
      requires kill.data != data && gen.data != data
      modifies data
      ensures Contents() == old(Contents()) + (gen.Contents() - kill.Contents())
      ensures changed <==> Contents() != old(Contents())
    {
      changed := false;
      for i := 0 to data.Length
        invariant forall j :: 0 <= j < i ==> data[j] == Or(old(data[j]), And(gen.data[j], Not(kill.data[j])))
        invariant forall j :: i <= j < data.Length ==> data[j] == old(data[j])
        invariant changed <==> exists j :: 0 <= j < i && data[j] != old(data[j])
      {
        var before := data[i];
        var after := Or(data[i], And(gen.data[i], Not(kill.data[i])));
        if before != after {
          changed := true;
          data[i] := after;
        }
      }
      SameWordsIffSameMembers(old(data[..]), data[..]);
    }
  }

  /** One bit vector per block, on separate storage, each wide enough for n members. */
  ghost predicate Separate(vectors: seq<BitVector>, n: nat) {
    && (forall i :: 0 <= i < |vectors| ==> vectors[i].data.Length == WordCount(n))
    && (forall i, j :: 0 <= i < j < |vectors| ==> vectors[i].data != vectors[j].data)
  }

  method NewVectors(count: nat, size: nat) returns (vectors: seq<BitVector>)
    ensures |vectors| == count && Separate(vectors, size)
    ensures forall i :: 0 <= i < count ==> fresh(vectors[i].data) && vectors[i].Contents() == {}
  {
    vectors := [];
    for i := 0 to count
      invariant |vectors| == i && Separate(vectors, size)
      invariant forall k :: 0 <= k < i ==> fresh(vectors[k].data) && vectors[k].Contents() == {}
    {
      var vec := new BitVector(size);
      vectors := vectors + [vec];
    }
  }

  lemma SameWordsIffSameMembers(a: seq<Word>, b: seq<Word>)
    requires |a| == |b|
    ensures a == b <==> Members(a) == Members(b)
  {
    if Members(a) == Members(b) {
      forall n | 0 <= n < |a|
        ensures a[n] == b[n]
      {
        forall k | 0 <= k < BITS_PER_WORD
          ensures a[n][k] == b[n][k]
        {
          var i := BITS_PER_WORD * n + k;
          assert i / BITS_PER_WORD == n && i % BITS_PER_WORD == k;
          assert i in Members(a) <==> a[n][k];
          assert i in Members(b) <==> b[n][k];
        }
      }
    }
  }

  // ----- the iterator

  /** The members above position i. */
  ghost function Above(data: seq<Word>, i: int): set<nat> {
    set j | j in Members(data) && i < j
  }

  class BitVectorIterator {
    const target: BitVector
    var bitIndex: int
    var wordIndex: nat
    var currentWord: Word

    /** currentWord is the rest of the word at wordIndex, shifted so that its lowest bit stands for position
        bitIndex + 1. */
    ghost predicate Aligned()
      reads this, target.data
    {
      && wordIndex < target.data.Length
      && BITS_PER_WORD * wordIndex - 1 <= bitIndex < BITS_PER_WORD * (wordIndex + 1)
      && var shift := bitIndex + 1 - BITS_PER_WORD * wordIndex;
         currentWord == Shr(target.data[wordIndex], shift)
    }

    ghost predicate Valid()
      reads this, target.data
    {
      && target.data.Length > 0
      && (Aligned() || (wordIndex >= target.data.Length && currentWord == ZERO))
      && (!Done() ==> bitIndex >= 0 && bitIndex in target.Contents())
    }

    /** What the iterator has still to yield, the current position included. */
    ghost function Remaining(): set<nat>
      reads this, target.data
    {
      if Done() then {} else set j | j in target.Contents() && bitIndex <= j
    }

    constructor (vec: BitVector)
      requires vec.data.Length > 0
      ensures target == vec && Valid() && Remaining() == vec.Contents()
    {
      target := vec;
      bitIndex := -1;
      wordIndex := 0;
      currentWord := vec.data[0];
      new;
      assert currentWord == Shr(target.data[0], 0);
      Advance();
    }

    function Current(): nat
      requires Valid() && !Done()
      reads this, target.data
    {
      bitIndex
    }

    function Done(): bool
      reads this
    {
      wordIndex >= target.data.Length
    }

    /** Moves to the next member. The constructor calls it once from position -1. */
    method Advance()
      requires Valid() || (Aligned() && bitIndex == -1)
      modifies this
      ensures Valid()
      ensures Remaining() == old(if Done() then {} else Above(target.data[..], bitIndex))
      ensures old(Valid() && !Done()) ==>
                old(Current() in Remaining()) && Remaining() == old(Remaining()) - {old(Current())}
    {
      if Done() {
        StayDone();
        return;
      }
      ghost var start := bitIndex;
      NextWord();
      if Done() { return; }
      SkipClearBits(start);
    }

    /** Advancing a finished iterator finds no further word. */
    method StayDone()
      requires Valid() && Done()
      modifies this
      ensures Valid() && Done()
    {
      bitIndex := bitIndex + 1;
      wordIndex := wordIndex + 1;
    }

    /** currentWord is not zero, its lowest bit stands for position bitIndex, and no member lies between
        start and bitIndex. */
    ghost predicate Searching(start: int)
      reads this, target.data
    {
      && wordIndex < target.data.Length
      && BITS_PER_WORD * wordIndex <= bitIndex < BITS_PER_WORD * (wordIndex + 1)
      && currentWord == Shr(target.data[wordIndex], bitIndex - BITS_PER_WORD * wordIndex)
      && currentWord != ZERO
      && start < bitIndex
      && forall j: nat :: start < j < bitIndex ==> j !in target.Contents()
    }

    /** The first half of advance: if the current word is used up, go to the next word that is not zero. */
    method NextWord()
      requires Aligned()
      modifies this
      ensures wordIndex <= target.data.Length
      ensures Done() ==> currentWord == ZERO && Above(target.data[..], old(bitIndex)) == {}
      ensures !Done() ==> Searching(old(bitIndex))
    {
      ghost var start, w, members := bitIndex, wordIndex, target.Contents();
      bitIndex := bitIndex + 1;
      if currentWord == ZERO {
        forall j: nat | start < j < BITS_PER_WORD * (w + 1)
          ensures j !in members
        {
          assert !currentWord[j - start - 1];
        }
        wordIndex := wordIndex + 1;
        if wordIndex < target.data.Length {
          currentWord := target.data[wordIndex];
        }
        while wordIndex < target.data.Length && currentWord == ZERO
          invariant w < wordIndex <= target.data.Length && target.Contents() == members
          invariant currentWord == if wordIndex < target.data.Length then target.data[wordIndex] else ZERO
          invariant forall j: nat :: start < j < BITS_PER_WORD * wordIndex ==> j !in members
          decreases target.data.Length - wordIndex
        {
          assert forall j: nat :: j / BITS_PER_WORD == wordIndex ==> j !in members;
          wordIndex := wordIndex + 1;
          if wordIndex < target.data.Length {
            currentWord := target.data[wordIndex];
          }
        }
        if wordIndex >= target.data.Length {
          assert forall j: nat :: j in members ==> j < BITS_PER_WORD * wordIndex;
          return;
        }
        bitIndex := wordIndex * BITS_PER_WORD;
        assert currentWord == Shr(target.data[wordIndex], 0);
      } else {
        var k := NonZeroHasBit(currentWord);
      }
    }

    /** The second half: shift clear bits away, a byte at a time while possible, then bit by bit. */
    method SkipClearBits(ghost start: int)
      requires Searching(start)
      modifies this
      ensures Valid() && !Done()
      ensures Remaining() == Above(target.data[..], start)
    {
      while LowBitsClear(currentWord, 8)
        invariant Searching(start)
        decreases BITS_PER_WORD * target.data.Length - bitIndex
      {
        ShiftAway(start, 8);
      }
      while LowBitsClear(currentWord, 1)
        invariant Searching(start)
        decreases BITS_PER_WORD * target.data.Length - bitIndex
      {
        ShiftAway(start, 1);
      }
      FoundMember(start);
      currentWord := Shr(currentWord, 1);
    }

    lemma FoundMember(start: int)
      requires Searching(start) && currentWord[0]
      ensures bitIndex in target.Contents()
      ensures Above(target.data[..], start) == set j | j in target.Contents() && bitIndex <= j
      ensures Shr(currentWord, 1) == Shr(target.data[wordIndex], bitIndex + 1 - BITS_PER_WORD * wordIndex)
    {
      assert bitIndex / BITS_PER_WORD == wordIndex;
      assert target.data[wordIndex][bitIndex % BITS_PER_WORD];
    }

    /** currentWord >>= n; bit_index += n; where the n bits shifted out are clear. */
    method ShiftAway(ghost start: int, n: nat)
      requires Searching(start) && 0 < n < BITS_PER_WORD && LowBitsClear(currentWord, n)
      modifies this
      ensures Searching(start) && bitIndex == old(bitIndex) + n
    {
      var k := NonZeroHasBit(currentWord);
      forall j: nat | bitIndex <= j < bitIndex + n
        ensures j !in target.Contents()
      {
        assert !currentWord[j - bitIndex];
      }
      assert Shr(currentWord, n)[k - n];
      currentWord := Shr(currentWord, n);
      bitIndex := bitIndex + n;
    }
  }

  /** The iteration protocol yields exactly the members, in strictly increasing order. */
  method Enumerate(vec: BitVector) returns (yielded: seq<nat>)
    requires vec.data.Length > 0
    ensures forall i, j :: 0 <= i < j < |yielded| ==> yielded[i] < yielded[j]
    ensures forall x :: x in yielded <==> x in vec.Contents()
  {
    yielded := [];
    var it := new BitVectorIterator(vec);
    while !it.Done()
      invariant fresh(it) && it.target == vec && it.Valid()
      invariant forall i, j :: 0 <= i < j < |yielded| ==> yielded[i] < yielded[j]
      invariant forall i, x :: 0 <= i < |yielded| && x in it.Remaining() ==> yielded[i] < x
      invariant forall x :: x in vec.Contents() <==> x in yielded || x in it.Remaining()
      decreases it.Remaining()
    {
      var current := it.Current();
      yielded := yielded + [current];
      it.Advance();
    }
  }
}
