/**
 CRollingBloomFilter (src/bloom.h, src/bloom.cpp): two bits per position hold the generation, 1 to 3, of
 the last insertion there; starting a generation wipes the positions of the one three before it.
 */
module RollingBloom {
  import opened Power

  type Key = seq<nat>

  // ----- two-bit cells of a word -----

  function CellGet(w: bv32, s: bv32): bv32
    requires s < 16
  {
    (w >> (2 * s)) & 3
  }

  function CellPut(w: bv32, s: bv32, v: bv32): bv32
    requires s < 16
  {
    (w & !(3 << (2 * s))) | (v << (2 * s))
  }

  lemma CellSame(w: bv32, s: bv32, v: bv32)
    requires s < 16 && v < 4
    ensures CellGet(CellPut(w, s, v), s) == v
  {
  }

  lemma CellOther(w: bv32, s: bv32, t: bv32, v: bv32)
    requires s < 16 && t < 16 && s != t && v < 4
    ensures CellGet(CellPut(w, s, v), t) == CellGet(w, t)
  {
  }

  function Slot(k: nat): (s: bv32)
    requires k < 16
    ensures s < 16
  {
    match k
    case 0 => 0 case 1 => 1 case 2 => 2 case 3 => 3 case 4 => 4 case 5 => 5 case 6 => 6 case 7 => 7
    case 8 => 8 case 9 => 9 case 10 => 10 case 11 => 11 case 12 => 12 case 13 => 13 case 14 => 14 case 15 => 15
  }

  lemma SlotInjective(j: nat, k: nat)
    requires j < 16 && k < 16 && Slot(j) == Slot(k)
    ensures j == k
  {
  }

  /** The two bits at a position: get(). */
  function CellAt(d: seq<bv32>, p: nat): bv32
    requires |d| > 0
  {
    CellGet(d[(p / 16) % |d|], Slot(p % 16))
  }

  function Stored(d: seq<bv32>, p: nat, v: bv32): (r: seq<bv32>)
    requires |d| > 0
    ensures |r| == |d|
  {
    d[(p / 16) % |d| := CellPut(d[(p / 16) % |d|], Slot(p % 16), v)]
  }

  /** put() changes the position it is given and no other. */
  lemma StoredAt(d: seq<bv32>, p: nat, v: bv32, q: nat)
    requires |d| > 0 && v < 4 && p < 16 * |d| && q < 16 * |d|
    ensures CellAt(Stored(d, p, v), q) == if q == p then v else CellAt(d, q)
  {
    hide CellGet, CellPut, Slot;
    WordOfPosition(|d|, p);
    WordOfPosition(|d|, q);
    if p / 16 == q / 16 {
      SameWord(d[p / 16], p % 16, q % 16, v);
    }
  }

  lemma WordOfPosition(words: nat, p: nat)
    requires words > 0 && p < 16 * words
    ensures p / 16 < words && (p / 16) % words == p / 16
  {
  }

  lemma SameWord(w: bv32, j: nat, k: nat, v: bv32)
    requires j < 16 && k < 16 && v < 4
    ensures CellGet(CellPut(w, Slot(j), v), Slot(k)) == if j == k then v else CellGet(w, Slot(k))
  {
    hide CellGet, CellPut, Slot;
    if j == k {
      CellSame(w, Slot(j), v);
    } else if Slot(j) == Slot(k) {
      SlotInjective(j, k);
    } else {
      CellOther(w, Slot(j), Slot(k), v);
    }
  }

  // ----- generations -----

  /** The number that generation j is stored as. */
  function Code(j: nat): (c: bv32)
    ensures 0 < c < 4
  {
    if j % 3 == 0 then 1 else if j % 3 == 1 then 2 else 3
  }

  lemma CodesDiffer(i: nat, j: nat)
    requires i < j < i + 3
    ensures Code(i) != Code(j) && Code(i) == Code(i + 3)
  {
  }

  /** The value of a position last written in generation stamp, -1 for never, when cur is the current one. */
  function Shown(stamp: int, cur: nat): bv32 {
    if stamp >= 0 && stamp >= cur - 2 then Code(stamp) else 0
  }

  ghost predicate CellsOk(d: seq<bv32>, stamps: seq<int>, cur: nat) {
    && |d| > 0 && |stamps| == 16 * |d|
    && (forall p :: 0 <= p < |stamps| ==> stamps[p] <= cur && CellAt(d, p) == Shown(stamps[p], cur))
  }

  /** Wiping the code of the next generation removes exactly what is three generations old. */
  lemma ShownNext(stamp: int, cur: nat)
    requires stamp <= cur
    ensures Shown(stamp, cur + 1) == if Shown(stamp, cur) == Code(cur + 1) then 0 else Shown(stamp, cur)
  {
    if stamp >= 0 && stamp >= cur - 2 {
      if stamp == cur - 2 {
        CodesDiffer(stamp, stamp + 1);
      } else {
        CodesDiffer(stamp, cur + 1);
      }
    }
  }

  // ----- the history of a filter -----

  /** What fixes the positions of a key: the hash, the tweak, the number of positions and of hash functions. */
  datatype Hashing = Hashing(murmur: (nat, Key) -> nat, tweak: nat, size: nat, funcs: nat)

  function Position(h: Hashing, n: nat, key: Key): (p: nat)
    requires h.size > 0
    ensures p < h.size
  {
    h.murmur((n * 0xFBA4C795 + h.tweak) % 0x1_0000_0000, key) % h.size
  }

  /** Entry i of the history wrote position p through hash function n. */
  ghost predicate Wrote(h: Hashing, history: seq<Key>, i: nat, n: nat, p: nat)
    requires h.size > 0
  {
    i < |history| && n < h.funcs && Position(h, n, history[i]) == p
  }

  /** The generation of entry i. */
  function Generation(i: nat, perGeneration: nat): nat
    requires perGeneration > 0
  {
    i / perGeneration
  }

  /** stamps[p] is the generation of the last entry that wrote p. */
  ghost predicate StampsOk(h: Hashing, history: seq<Key>, per: nat, stamps: seq<int>) {
    && h.size > 0 && per > 0 && |stamps| == h.size
    && (forall i: nat, n: nat, p: nat {:trigger Wrote(h, history, i, n, p)} ::
      Wrote(h, history, i, n, p) ==> p < |stamps| && stamps[p] >= Generation(i, per))
    && (forall p :: 0 <= p < |stamps| && stamps[p] >= 0 ==> StampHeld(h, history, per, p, stamps[p]))
  }

  ghost predicate StampHeld(h: Hashing, history: seq<Key>, per: nat, p: nat, g: int)
    requires h.size > 0 && per > 0
  {
    exists i: nat, n: nat :: Wrote(h, history, i, n, p) && Generation(i, per) == g
  }

  /** Some entry of the current generation or of the two before it wrote p. */
  ghost predicate Covered(h: Hashing, history: seq<Key>, per: nat, cur: nat, p: nat)
    requires h.size > 0 && per > 0
  {
    exists i: nat, n: nat :: Wrote(h, history, i, n, p) && Generation(i, per) >= cur - 2
  }

  ghost predicate AllCovered(h: Hashing, history: seq<Key>, per: nat, cur: nat, key: Key)
    requires h.size > 0 && per > 0
  {
    forall n :: 0 <= n < h.funcs ==> Covered(h, history, per, cur, Position(h, n, key))
  }

  lemma ShownCovered(h: Hashing, history: seq<Key>, per: nat, stamps: seq<int>, cur: nat, p: nat)
    requires StampsOk(h, history, per, stamps) && p < h.size
    ensures Shown(stamps[p], cur) != 0 <==> Covered(h, history, per, cur, p)
  {
    if stamps[p] >= 0 {
      assert StampHeld(h, history, per, p, stamps[p]);
    }
  }

  /** The counters say in which generation the next entry falls. */
  ghost predicate CountsOk(history: seq<Key>, per: nat, entries: nat, cur: nat) {
    per > 0 && entries <= per && cur * per + entries == |history|
  }

  lemma NextGeneration(history: seq<Key>, per: nat, entries: nat, cur: nat)
    requires CountsOk(history, per, entries, cur) && entries < per
    ensures Generation(|history|, per) == cur
  {
    DivModUnique(|history|, per, cur, entries);
  }

  lemma RecentGeneration(i: nat, per: nat, cur: nat, entries: nat)
    requires per > 0 && i >= cur * per + entries - 2 * per
    ensures Generation(i, per) >= cur - 2
  {
    if cur >= 2 {
      Distribute(cur, 2, per);
      DivModUnique((cur - 2) * per, per, cur - 2, 0);
      DivMono((cur - 2) * per, i, per);
    }
  }

  lemma RollCounts(history: seq<Key>, per: nat, cur: nat)
    requires CountsOk(history, per, per, cur)
    ensures CountsOk(history, per, 0, cur + 1)
  {
    Distribute(cur, 1, per);
  }

  /** Every key among the last 2 * per insertions is found. */
  lemma RecentFound(h: Hashing, history: seq<Key>, per: nat, entries: nat, cur: nat, i: nat)
    requires h.size > 0 && CountsOk(history, per, entries, cur) && |history| - 2 * per <= i < |history|
    ensures AllCovered(h, history, per, cur, history[i])
  {
    RecentGeneration(i, per, cur, entries);
    hide Generation, Position;
    forall n | 0 <= n < h.funcs
      ensures Covered(h, history, per, cur, Position(h, n, history[i]))
    {
      assert Wrote(h, history, i, n, Position(h, n, history[i]));
    }
  }

  /** p was written by one of the last count entries. */
  ghost predicate WrittenLately(h: Hashing, history: seq<Key>, count: nat, p: nat)
    requires h.size > 0
  {
    exists i: nat, n: nat :: Wrote(h, history, i, n, p) && i + count >= |history|
  }

  /** A key is found only through the last 3 * per insertions: what is older is forgotten. */
  lemma OldForgotten(h: Hashing, history: seq<Key>, per: nat, entries: nat, cur: nat, key: Key)
    requires h.size > 0 && CountsOk(history, per, entries, cur) && AllCovered(h, history, per, cur, key)
    ensures forall n :: 0 <= n < h.funcs ==> WrittenLately(h, history, 3 * per, Position(h, n, key))
  {
    hide Position, Generation;
    forall n | 0 <= n < h.funcs
      ensures WrittenLately(h, history, 3 * per, Position(h, n, key))
    {
      assert Covered(h, history, per, cur, Position(h, n, key));
      var i: nat, m: nat :| Wrote(h, history, i, m, Position(h, n, key)) && Generation(i, per) >= cur - 2;
      hide Wrote;
      GenerationNotOlder(i, per, cur);
    }
  }

  lemma GenerationNotOlder(i: nat, per: nat, cur: nat)
    requires per > 0 && Generation(i, per) >= cur - 2
    ensures i + 2 * per >= cur * per
  {
    DivMod(i, per);
    if cur >= 2 {
      MulMono(cur - 2, i / per, per);
      Distribute(cur - 2, 2, per);
    } else {
      MulMono(cur, 1, per);
    }
  }

  /** Nothing is found right after a reset. */
  lemma EmptyFindsNothing(h: Hashing, per: nat, cur: nat, key: Key)
    requires h.size > 0 && per > 0 && h.funcs > 0
    ensures !AllCovered(h, [], per, cur, key)
  {
    assert !Covered(h, [], per, cur, Position(h, 0, key));
  }

  // ----- one insertion on the values -----

  lemma RollCells(d: seq<bv32>, e: seq<bv32>, stamps: seq<int>, cur: nat)
    requires CellsOk(d, stamps, cur) && |e| == |d|
    requires forall p :: 0 <= p < 16 * |d| ==> CellAt(e, p) == Wiped(CellAt(d, p), Code(cur + 1))
    ensures CellsOk(e, stamps, cur + 1)
  {
    hide CellAt, Shown, Code;
    forall p | 0 <= p < |stamps|
      ensures stamps[p] <= cur + 1 && CellAt(e, p) == Shown(stamps[p], cur + 1)
    {
      ShownNext(stamps[p], cur);
    }
  }

  function Wiped(v: bv32, code: bv32): bv32 {
    if v == code then 0 else v
  }

  lemma PutCell(d: seq<bv32>, stamps: seq<int>, cur: nat, p: nat)
    requires CellsOk(d, stamps, cur) && p < |stamps|
    ensures CellsOk(Stored(d, p, Code(cur)), stamps[p := cur], cur)
  {
    hide CellAt, Code, Stored;
    forall q | 0 <= q < |stamps|
      ensures stamps[p := cur][q] <= cur && CellAt(Stored(d, p, Code(cur)), q) == Shown(stamps[p := cur][q], cur)
    {
      StoredAt(d, p, Code(cur), q);
    }
  }

  /** The stamps after the first n hash functions of the newest entry have written. */
  ghost predicate StampsUpTo(h: Hashing, history: seq<Key>, per: nat, was: seq<int>, stamps: seq<int>, n: nat) {
    && h.size > 0 && per > 0 && |history| > 0 && |stamps| == |was| == h.size
    && (forall p :: 0 <= p < h.size ==>
      stamps[p] == if WroteBelow(h, history[|history| - 1], n, p) then Generation(|history| - 1, per) else was[p])
  }

  ghost predicate WroteBelow(h: Hashing, key: Key, n: nat, p: nat)
    requires h.size > 0
  {
    exists m: nat :: m < n && Position(h, m, key) == p
  }

  lemma StampsStep(h: Hashing, history: seq<Key>, per: nat, was: seq<int>, stamps: seq<int>, n: nat)
    requires StampsUpTo(h, history, per, was, stamps, n)
    ensures var p := Position(h, n, history[|history| - 1]);
      StampsUpTo(h, history, per, was, stamps[p := Generation(|history| - 1, per)], n + 1)
  {
    hide Position, Generation;
    var key := history[|history| - 1];
    var p := Position(h, n, key);
    forall q | 0 <= q < h.size
      ensures WroteBelow(h, key, n + 1, q) <==> WroteBelow(h, key, n, q) || q == p
    {
      if WroteBelow(h, key, n + 1, q) {
        var m: nat :| m < n + 1 && Position(h, m, key) == q;
        assert m < n || m == n;
      }
    }
  }

  lemma StampsPushed(h: Hashing, history: seq<Key>, key: Key, per: nat, was: seq<int>, stamps: seq<int>)
    requires StampsOk(h, history, per, was) && StampsUpTo(h, history + [key], per, was, stamps, h.funcs)
    requires forall p :: 0 <= p < |was| ==> was[p] <= Generation(|history|, per)
    ensures StampsOk(h, history + [key], per, stamps)
  {
    hide Position, Generation;
    var longer := history + [key];
    forall i: nat, n: nat, p: nat | Wrote(h, longer, i, n, p)
      ensures p < |stamps| && stamps[p] >= Generation(i, per)
    {
      if i < |history| {
        assert Wrote(h, history, i, n, p);
      } else {
        assert WroteBelow(h, key, h.funcs, p);
      }
    }
    forall p | 0 <= p < |stamps| && stamps[p] >= 0
      ensures StampHeld(h, longer, per, p, stamps[p])
    {
      if WroteBelow(h, key, h.funcs, p) {
        var n: nat :| n < h.funcs && Position(h, n, key) == p;
        assert Wrote(h, longer, |history|, n, p);
      } else {
        assert StampHeld(h, history, per, p, was[p]);
        var i: nat, n: nat :| Wrote(h, history, i, n, p) && Generation(i, per) == was[p];
        assert Wrote(h, longer, i, n, p);
      }
    }
  }

  class RollingBloomFilter {
    const murmur: (nat, Key) -> nat
    const nEntriesPerGeneration: nat
    const nHashFuncs: nat
    const data: array<bv32>
    var nEntriesThisGeneration: nat
    var nGeneration: nat
    var nTweak: nat
    ghost var history: seq<Key>
    ghost var stamps: seq<int>
    ghost var cur: nat

    ghost function H(): Hashing
      reads this
    {
      Hashing(murmur, nTweak, 16 * data.Length, nHashFuncs)
    }

    ghost predicate Valid()
      reads this, data
    {
      && data.Length > 0 && nGeneration == cur % 3 + 1
      && CountsOk(history, nEntriesPerGeneration, nEntriesThisGeneration, cur)
      && CellsOk(data[..], stamps, cur)
      && StampsOk(H(), history, nEntriesPerGeneration, stamps)
    }

    constructor (murmur: (nat, Key) -> nat, nElements: nat, nHashFuncs: nat, words: nat, tweak: nat)
      requires nElements >= 1 && words >= 1
      ensures Valid() && history == [] && 2 * nEntriesPerGeneration >= nElements
    {
      this.murmur, this.nHashFuncs := murmur, nHashFuncs;
      nEntriesPerGeneration := (nElements + 1) / 2;
      data := new bv32[words];
      new;
      Reset(tweak);
    }

    /** An empty filter with a new tweak. */
    method Reset(tweak: nat)
      requires data.Length > 0 && nEntriesPerGeneration > 0
      modifies this, data
      ensures Valid() && history == [] && nTweak == tweak
    {
      nTweak := tweak;
      nEntriesThisGeneration := 0;
      nGeneration := 1;
      for i := 0 to data.Length
        invariant forall j :: 0 <= j < i ==> data[j] == 0
        invariant nTweak == tweak && nEntriesThisGeneration == 0 && nGeneration == 1
      {
        data[i] := 0;
      }
      history, cur := [], 0;
      stamps := seq(16 * data.Length, _ => -1);
      AllClear(data[..], stamps);
    }

    method Get(p: nat) returns (v: bv32)
      requires data.Length > 0
      ensures v == CellAt(data[..], p)
    {
      v := CellGet(data[(p / 16) % data.Length], Slot(p % 16));
    }

    method Put(p: nat, v: bv32)
      requires data.Length > 0
      modifies data
      ensures data[..] == Stored(old(data[..]), p, v)
    {
      var i := (p / 16) % data.Length;
      data[i] := CellPut(data[i], Slot(p % 16), v);
    }

    /** The key joins the history; every earlier key keeps what the generations leave it. */
    method Insert(vKey: Key)
      requires Valid()
      modifies this, data
      ensures Valid() && history == old(history) + [vKey] && nTweak == old(nTweak)
    {
      hide CellsOk, StampsOk;
      if nEntriesThisGeneration == nEntriesPerGeneration {
        Roll();
      }
      NextGeneration(history, nEntriesPerGeneration, nEntriesThisGeneration, cur);
      nEntriesThisGeneration := nEntriesThisGeneration + 1;
      WriteAll(vKey);
    }

    /** Starts the next generation and wipes the positions that still show its number. */
    method Roll()
      requires Valid() && nEntriesThisGeneration == nEntriesPerGeneration
      modifies this, data
      ensures Valid() && nEntriesThisGeneration == 0 && history == old(history) && nTweak == old(nTweak)
    {
      hide CellsOk, StampsOk, CountsOk, CellAt, Code, Wiped;
      RollCounts(history, nEntriesPerGeneration, cur);
      nEntriesThisGeneration := 0;
      nGeneration := nGeneration + 1;
      if nGeneration == 4 {
        nGeneration := 1;
      }
      Wipe(CodeBits(nGeneration));
      CodeOf(cur + 1);
      RollCells(old(data[..]), data[..], stamps, cur);
      cur := cur + 1;
    }

    method Wipe(code: bv32)
      requires data.Length > 0
      modifies data
      ensures forall p :: 0 <= p < 16 * data.Length ==> CellAt(data[..], p) == Wiped(old(CellAt(data[..], p)), code)
    {
      ghost var was := data[..];
      var p := 0;
      while p < 16 * data.Length
        invariant 0 <= p <= 16 * data.Length
        invariant forall q :: 0 <= q < 16 * data.Length ==>
          CellAt(data[..], q) == if q < p then Wiped(CellAt(was, q), code) else CellAt(was, q)
      {
        hide CellAt, Stored;
        var v := Get(p);
        if v == code {
          ghost var d := data[..];
          Put(p, 0);
          forall q | 0 <= q < 16 * data.Length
            ensures CellAt(data[..], q) == if q == p then 0 else CellAt(d, q)
          {
            StoredAt(d, p, 0, q);
          }
        }
        p := p + 1;
      }
    }

    /** The puts of one key, which becomes the newest entry. */
    method WriteAll(vKey: Key)
      requires data.Length > 0 && nEntriesPerGeneration > 0 && nGeneration == cur % 3 + 1
      requires CellsOk(data[..], stamps, cur) && StampsOk(H(), history, nEntriesPerGeneration, stamps)
      requires Generation(|history|, nEntriesPerGeneration) == cur
      modifies this`history, this`stamps, data
      ensures history == old(history) + [vKey]
      ensures CellsOk(data[..], stamps, cur) && StampsOk(H(), history, nEntriesPerGeneration, stamps)
    {
      ghost var was, longer := stamps, history + [vKey];
      StampsBounded(data[..], stamps, cur);
      StartStamps(H(), longer, nEntriesPerGeneration, was);
      hide CellsOk, StampsOk, Generation, StampsUpTo, Stored, Position, Code;
      CodeOf(cur);
      for n := 0 to nHashFuncs
        invariant CellsOk(data[..], stamps, cur) && history == old(history)
        invariant StampsUpTo(H(), longer, nEntriesPerGeneration, was, stamps, n)
      {
        var p := murmur((n * 0xFBA4C795 + nTweak) % 0x1_0000_0000, vKey) % (16 * data.Length);
        WritePosition(n, vKey, p);
        StampsStep(H(), longer, nEntriesPerGeneration, was, stamps, n);
        CellsSize(data[..], stamps, cur);
        PutCell(data[..], stamps, cur, p);
        Put(p, CodeBits(nGeneration));
        stamps := stamps[p := cur];
      }
      StampsPushed(H(), history, vKey, nEntriesPerGeneration, was, stamps);
      history := longer;
    }

    lemma WritePosition(n: nat, key: Key, p: nat)
      requires data.Length > 0 && p == murmur((n * 0xFBA4C795 + nTweak) % 0x1_0000_0000, key) % (16 * data.Length)
      ensures p == Position(H(), n, key)
    {
    }

    /** True exactly when every position of the key was written by one of the recent entries. */
    method Contains(vKey: Key) returns (r: bool)
      requires Valid()
      ensures r <==> AllCovered(H(), history, nEntriesPerGeneration, cur, vKey)
    {
      hide StampsOk, Covered, Position, Shown;
      for n := 0 to nHashFuncs
        invariant forall m :: 0 <= m < n ==> Covered(H(), history, nEntriesPerGeneration, cur, Position(H(), m, vKey))
      {
        var p := murmur((n * 0xFBA4C795 + nTweak) % 0x1_0000_0000, vKey) % (16 * data.Length);
        WritePosition(n, vKey, p);
        ShownCovered(H(), history, nEntriesPerGeneration, stamps, cur, p);
        var v := Get(p);
        if v == 0 {
          return false;
        }
      }
      return true;
    }
  }

  lemma AllClear(d: seq<bv32>, stamps: seq<int>)
    requires |d| > 0 && |stamps| == 16 * |d| && (forall i :: 0 <= i < |d| ==> d[i] == 0) &&
        forall p :: 0 <= p < |stamps| ==> stamps[p] == -1
    ensures CellsOk(d, stamps, 0)
  {
    hide Slot;
    forall p | 0 <= p < |stamps|
      ensures CellAt(d, p) == 0
    {
      ClearCell(Slot(p % 16));
    }
  }

  lemma ClearCell(s: bv32)
    requires s < 16
    ensures CellGet(0, s) == 0
  {
  }

  function CodeBits(g: nat): (c: bv32)
    ensures c < 4
  {
    if g == 1 then 1 else if g == 2 then 2 else if g == 3 then 3 else 0
  }

  lemma CodeOf(j: nat)
    ensures CodeBits(j % 3 + 1) == Code(j)
  {
  }

  lemma CellsSize(d: seq<bv32>, stamps: seq<int>, cur: nat)
    requires CellsOk(d, stamps, cur)
    ensures |stamps| == 16 * |d| && |d| > 0
  {
  }

  lemma StampsBounded(d: seq<bv32>, stamps: seq<int>, cur: nat)
    requires CellsOk(d, stamps, cur)
    ensures forall p :: 0 <= p < |stamps| ==> stamps[p] <= cur
  {
  }

  lemma StartStamps(h: Hashing, history: seq<Key>, per: nat, stamps: seq<int>)
    requires h.size > 0 && per > 0 && |history| > 0 && |stamps| == h.size
    ensures StampsUpTo(h, history, per, stamps, stamps, 0)
  {
  }

  /** In every run since a reset, each of the last 2 * per keys, at least the requested number, is found. */
  method Run(filter: RollingBloomFilter, keys: seq<Key>, i: nat) returns (found: bool)
    requires filter.Valid() && i < |keys| && i >= |keys| - 2 * filter.nEntriesPerGeneration && filter.history == []
    modifies filter, filter.data
    ensures found && filter.Valid() && filter.history == keys
  {
    for j := 0 to |keys|
      invariant filter.Valid() && filter.history == keys[..j]
    {
      filter.Insert(keys[j]);
    }
    assert keys[..|keys|] == keys;
    RecentFound(filter.H(), keys, filter.nEntriesPerGeneration, filter.nEntriesThisGeneration, filter.cur, i);
    found := filter.Contains(keys[i]);
  }
}
