/**
 The cuckoo cache of src/cuckoocache.h: a table of slots with eight candidate positions per element,
 lazily collected garbage, and two epochs aged by a lazily recomputed counter. The size is a power of
 two, so masking a hash is taking it modulo the size; steps are sequential.
 */
module CuckooCache {
  import opened Power

  datatype Element = Element(id: nat)

  /** What the table is filled with before anything is inserted. */
  const FILLER := Element(0)

  const WAYS: nat := 8

  /** A slot holds an element; `dead` marks it collectable, `recent` the current epoch. */
  datatype Slot = Slot(elem: Element, dead: bool, recent: bool)

  /** The eight positions of an element. */
  function Locs(hash: (nat, Element) -> nat, size: nat, e: Element): (locs: seq<nat>)
    requires size > 0
    ensures |locs| == WAYS && forall i :: 0 <= i < WAYS ==> locs[i] == hash(i, e) % size < size
  {
    seq(WAYS, i requires 0 <= i < WAYS => hash(i, e) % size)
  }

  // ----- what is in a table -----

  /** The live elements with their epoch. */
  ghost function Live(t: seq<Slot>): set<(Element, bool)> {
    set i | 0 <= i < |t| && !t[i].dead :: (t[i].elem, t[i].recent)
  }

  function Recent(s: Slot): nat { if !s.dead && s.recent then 1 else 0 }

  /** How many live elements are of the current epoch. */
  function CountRecent(t: seq<Slot>): nat {
    if t == [] then 0 else CountRecent(t[..|t| - 1]) + Recent(t[|t| - 1])
  }

  ghost function RecentPlaces(t: seq<Slot>): set<nat> {
    set i: nat | i < |t| && !t[i].dead && t[i].recent
  }

  lemma {:induction false} CountIs(t: seq<Slot>)
    ensures CountRecent(t) == |RecentPlaces(t)|
  {
    if t != [] {
      var last := |t| - 1;
      CountIs(t[..last]);
      assert RecentPlaces(t) == RecentPlaces(t[..last]) + if Recent(t[last]) == 1 then {last} else {};
    }
  }

  /** Whatever is live or was inserted sits at one of its own positions, and only the filler can be
      stored twice. */
  ghost predicate WellPlaced(hash: (nat, Element) -> nat, t: seq<Slot>) {
    && |t| > 0
    && (forall i :: 0 <= i < |t| && (!t[i].dead || t[i].elem != FILLER) ==> i in Locs(hash, |t|, t[i].elem))
    && (forall i, j :: 0 <= i < j < |t| && t[i].elem == t[j].elem ==> t[i].elem == FILLER)
  }

  lemma {:induction false} CountUpdate(t: seq<Slot>, i: nat, s: Slot)
    requires i < |t|
    ensures CountRecent(t[i := s]) + Recent(t[i]) == CountRecent(t) + Recent(s)
  {
    var last := |t| - 1;
    if i == last {
      assert t[i := s][..last] == t[..last];
    } else {
      assert t[i := s][..last] == t[..last][i := s];
      CountUpdate(t[..last], i, s);
    }
  }

  /** Overwriting a slot changes the live elements only through that slot. */
  lemma LiveUpdate(t: seq<Slot>, i: nat, s: Slot)
    requires i < |t| && !s.dead
    ensures t[i].dead ==> Live(t[i := s]) == Live(t) + {(s.elem, s.recent)}
    ensures !t[i].dead ==> Live(t[i := s]) + {(t[i].elem, t[i].recent)} == Live(t) + {(s.elem, s.recent)}
  {
    var u := t[i := s];
    forall x | x in Live(t) ensures x in Live(u) || (!t[i].dead && x == (t[i].elem, t[i].recent)) {
      var k :| 0 <= k < |t| && !t[k].dead && x == (t[k].elem, t[k].recent);
      if k != i { assert u[k] == t[k]; }
    }
    forall x | x in Live(u) ensures x in Live(t) || x == (s.elem, s.recent) {
      var k :| 0 <= k < |u| && !u[k].dead && x == (u[k].elem, u[k].recent);
      if k != i { assert u[k] == t[k]; }
    }
    assert u[i] == s;
    if !t[i].dead { assert (t[i].elem, t[i].recent) in Live(t); }
  }

  /** e is nowhere in the table if it is at none of its positions. */
  lemma NotStored(hash: (nat, Element) -> nat, t: seq<Slot>, e: Element)
    requires WellPlaced(hash, t) && e != FILLER && forall k :: 0 <= k < WAYS ==> t[Locs(hash, |t|, e)[k]].elem != e
    ensures forall i :: 0 <= i < |t| ==> t[i].elem != e
  {
    assert forall i :: i in Locs(hash, |t|, e) ==> t[i].elem != e;
  }

  /** Storing an element that is not in the table at one of its positions. */
  lemma StoreKeeps(hash: (nat, Element) -> nat, t: seq<Slot>, i: nat, s: Slot)
    requires WellPlaced(hash, t) && i < |t| && i in Locs(hash, |t|, s.elem)
    requires s.elem != FILLER ==> forall j :: 0 <= j < |t| && j != i ==> t[j].elem != s.elem
    ensures WellPlaced(hash, t[i := s])
  {
    var u := t[i := s];
    forall j | 0 <= j < |u| && (!u[j].dead || u[j].elem != FILLER) ensures j in Locs(hash, |u|, u[j].elem) {
      if j != i { assert u[j] == t[j]; }
    }
  }

  lemma OnlyOnce(hash: (nat, Element) -> nat, t: seq<Slot>, i: nat, j: nat)
    requires WellPlaced(hash, t) && i < |t| && j < |t| && i != j && t[i].elem != FILLER
    ensures t[j].elem != t[i].elem
  {
  }

  // ----- epochs -----

  /** Ageing: the old epoch becomes collectable and the current one old. */
  function AgedSlot(s: Slot): Slot {
    if s.recent then s.(recent := false) else s.(dead := true)
  }

  function Aged(t: seq<Slot>): (u: seq<Slot>)
    ensures |u| == |t| && forall i :: 0 <= i < |t| ==> u[i] == AgedSlot(t[i])
  {
    seq(|t|, i requires 0 <= i < |t| => AgedSlot(t[i]))
  }

  function Max(a: int, b: int): int { if a < b then b else a }

  /** The table and the counter after epoch_check. */
  function AfterEpochCheck(t: seq<Slot>, counter: nat, epochSize: nat): (seq<Slot>, nat) {
    if counter != 0 then (t, counter - 1)
    else if CountRecent(t) >= epochSize then (Aged(t), epochSize)
    else (t, Max(1, Max(epochSize / 16, epochSize - CountRecent(t))))
  }

  /** The size of an epoch, computed in 32 bits. */
  function EpochSize(size: nat): nat { Max(1, (45 * size) % 0x1_0000_0000 / 100) }

  /** It is the intended 45 percent of the table exactly for tables of less than 2^27 slots; from there
      on the product wraps. */
  lemma EpochIsShare(k: nat)
    ensures EpochSize(Pow(2, k)) == Max(1, 45 * Pow(2, k) / 100) <==> k < 27
  {
    TableSizes();
    hide Pow, EpochSize;
    if k < 27 {
      PowMono(2, k, 26);
      NoWrap(Pow(2, k));
    } else {
      PowMono(2, 27, k);
      Wraps(Pow(2, k));
    }
  }

  lemma TableSizes()
    ensures Pow(2, 26) == 0x400_0000 && Pow(2, 27) == 0x800_0000
  {
    assert Pow(2, 2) == 4 && Pow(2, 1) == 2 && Pow(2, 8) == 256;
    PowAdd(2, 8, 8);
    PowAdd(2, 16, 8);
    PowAdd(2, 24, 2);
    PowAdd(2, 26, 1);
  }

  lemma NoWrap(n: nat)
    requires n <= 0x400_0000
    ensures EpochSize(n) == Max(1, 45 * n / 100)
  {
  }

  lemma Wraps(n: nat)
    requires n >= 0x800_0000
    ensures EpochSize(n) < Max(1, 45 * n / 100)
  {
    var x := 45 * n;
    var r := x % 0x1_0000_0000;
    assert x - r >= 100;
    assert r / 100 < x / 100;
    assert 1 < x / 100;
  }

  /** The bound on the current epoch: live elements of it, plus the inserts until the next scan. */
  function EpochBound(epochSize: nat): nat { epochSize + Max(1, epochSize / 16) }

  lemma {:induction false} AgedCount(t: seq<Slot>)
    ensures CountRecent(Aged(t)) == 0
  {
    if t != [] {
      var last := |t| - 1;
      assert Aged(t)[..last] == Aged(t[..last]);
      AgedCount(t[..last]);
    }
  }

  /** Exactly the current epoch stays live, as the old one; nothing moves. */
  lemma AgedKeeps(hash: (nat, Element) -> nat, t: seq<Slot>)
    requires WellPlaced(hash, t)
    ensures WellPlaced(hash, Aged(t)) && forall i :: 0 <= i < |t| ==> Aged(t)[i].elem == t[i].elem
    ensures Live(Aged(t)) == set x | x in Live(t) && x.1 :: (x.0, false)
  {
    var u := Aged(t);
    var kept := set y | y in Live(t) && y.1 :: (y.0, false);
    forall i | 0 <= i < |u| && (!u[i].dead || u[i].elem != FILLER) ensures i in Locs(hash, |u|, u[i].elem) {
      assert u[i] == AgedSlot(t[i]);
    }
    forall x | x in Live(u) ensures x in kept {
      var k :| 0 <= k < |u| && !u[k].dead && x == (u[k].elem, u[k].recent);
      assert u[k] == AgedSlot(t[k]) && (t[k].elem, t[k].recent) in Live(t);
    }
    forall x | x in kept ensures x in Live(u) {
      var y :| y in Live(t) && y.1 && x == (y.0, false);
      var k :| 0 <= k < |t| && !t[k].dead && y == (t[k].elem, t[k].recent);
      assert u[k] == AgedSlot(t[k]);
    }
  }

  /** The epoch check lets nothing go before the counter has run out and a whole epoch is live, and then
      exactly the old epoch; and it does not count again before the epoch can have become full. */
  lemma EpochCheckLive(hash: (nat, Element) -> nat, t: seq<Slot>, counter: nat, epochSize: nat)
    requires WellPlaced(hash, t)
    ensures var (u, c) := AfterEpochCheck(t, counter, epochSize);
      && (counter > 0 || CountRecent(t) < epochSize ==> u == t)
      && (counter == 0 && CountRecent(t) >= epochSize ==> Live(u) == set x | x in Live(t) && x.1 :: (x.0, false))
      && (if counter > 0 then c == counter - 1 else c >= 1 || epochSize == 0)
      && (counter == 0 ==> CountRecent(u) + c >= epochSize)
  {
    AgedCount(t);
    AgedKeeps(hash, t);
  }

  /** After epoch_check there is room for one more element of the current epoch. */
  lemma EpochCheckRoom(hash: (nat, Element) -> nat, t: seq<Slot>, counter: nat, epochSize: nat)
    requires WellPlaced(hash, t) && CountRecent(t) + counter <= EpochBound(epochSize)
    ensures var (u, c) := AfterEpochCheck(t, counter, epochSize);
            WellPlaced(hash, u) && |u| == |t| && CountRecent(u) + 1 + c <= EpochBound(epochSize)
  {
    AgedCount(t);
    AgedKeeps(hash, t);
  }

  // ----- the eviction chain -----

  /** What an insert may lead to from table t: everything live and the new element are still there, each
      with its epoch and at one of its own positions, except at most the element `lost`. */
  ghost predicate Inserted(hash: (nat, Element) -> nat, t: seq<Slot>, t': seq<Slot>, e: Element,
      lost: set<(Element, bool)>) {
    && |t'| == |t| && WellPlaced(hash, t') && |lost| <= 1
    && Live(t') + lost == Live(t) + {(e, true)}
    && CountRecent(t') <= CountRecent(t) + 1
  }

  /** In the middle of the chain element e, of epoch `recent`, is in hand. */
  ghost predicate InHand(hash: (nat, Element) -> nat, t: seq<Slot>, t': seq<Slot>, e0: Element, e: Element,
      recent: bool) {
    && |t'| == |t| && WellPlaced(hash, t')
    && Live(t') + {(e, recent)} == Live(t) + {(e0, true)}
    && (e != FILLER ==> forall i :: 0 <= i < |t'| ==> t'[i].elem != e)
    && CountRecent(t') + (if recent then 1 else 0) == CountRecent(t) + 1
  }

  lemma Settle(hash: (nat, Element) -> nat, t: seq<Slot>, t': seq<Slot>, e0: Element, e: Element, recent: bool, i: nat)
    requires InHand(hash, t, t', e0, e, recent) && i < |t'| && t'[i].dead && i in Locs(hash, |t'|, e)
    ensures Inserted(hash, t, t'[i := Slot(e, false, recent)], e0, {})
  {
    var s := Slot(e, false, recent);
    LiveUpdate(t', i, s);
    CountUpdate(t', i, s);
    StoreKeeps(hash, t', i, s);
  }

  lemma SwapOut(hash: (nat, Element) -> nat, t: seq<Slot>, t': seq<Slot>, e0: Element, e: Element, recent: bool, i: nat)
    requires InHand(hash, t, t', e0, e, recent) && i < |t'| && !t'[i].dead && i in Locs(hash, |t'|, e)
    ensures InHand(hash, t, t'[i := Slot(e, false, recent)], e0, t'[i].elem, t'[i].recent)
    ensures i in Locs(hash, |t'|, t'[i].elem)
  {
    var s := Slot(e, false, recent);
    LiveUpdate(t', i, s);
    CountUpdate(t', i, s);
    StoreKeeps(hash, t', i, s);
    var u := t'[i := s];
    var out := t'[i].elem;
    if out != FILLER {
      forall k | 0 <= k < |u| ensures u[k].elem != out {
        if k != i { OnlyOnce(hash, t', i, k); }
      }
    }
    assert Live(u) + {(out, t'[i].recent)} == Live(t') + {(e, recent)};
  }

  lemma StartInHand(hash: (nat, Element) -> nat, t: seq<Slot>, e: Element)
    requires WellPlaced(hash, t) && forall k :: 0 <= k < WAYS ==> t[Locs(hash, |t|, e)[k]].elem != e
    ensures InHand(hash, t, t, e, e, true)
  {
    if e != FILLER { NotStored(hash, t, e); }
  }

  /** Out of depth: what is in hand is lost. */
  lemma Dropped(hash: (nat, Element) -> nat, t: seq<Slot>, t': seq<Slot>, e0: Element, e: Element, recent: bool)
    requires InHand(hash, t, t', e0, e, recent)
    ensures Inserted(hash, t, t', e0, {(e, recent)})
  {
  }

  // ----- the chain, step by step -----

  /** A table and the element in hand. */
  datatype Hand = Hand(table: seq<Slot>, elem: Element, recent: bool)

  /** The positions of the element in hand. */
  function Ways(hash: (nat, Element) -> nat, h: Hand): (locs: seq<nat>)
    ensures h.table != [] ==> locs == Locs(hash, |h.table|, h.elem)
    ensures forall loc :: loc in locs ==> loc < |h.table|
  {
    if h.table == [] then [] else Locs(hash, |h.table|, h.elem)
  }

  ghost predicate AllLive(hash: (nat, Element) -> nat, h: Hand) {
    forall loc :: loc in Ways(hash, h) ==> !h.table[loc].dead
  }

  /** The element in hand, all of whose positions are taken, changes places with the one at loc. */
  ghost predicate Exchanged(hash: (nat, Element) -> nat, h: Hand, h': Hand, loc: nat) {
    && AllLive(hash, h) && loc in Ways(hash, h)
    && h'.table == h.table[loc := Slot(h.elem, false, h.recent)]
    && h'.elem == h.table[loc].elem && h'.recent == h.table[loc].recent
  }

  /** next stands right after the first place of last, the end wrapping around. */
  ghost predicate Follows(locs: seq<nat>, last: nat, next: nat) {
    exists i :: FirstAt(locs, i, last) && next == locs[(i + 1) % |locs|]
  }

  predicate FirstAt(locs: seq<nat>, i: int, loc: nat) {
    0 <= i < |locs| && locs[i] == loc && forall j :: 0 <= j < i ==> locs[j] != loc
  }

  /** The first exchange is at the second position of the new element, and each further one at the
      position after the one the element in hand was driven from. */
  ghost predicate Turn(hash: (nat, Element) -> nat, hs: seq<Hand>, at: seq<nat>, k: nat)
    requires k < |at| && |hs| == |at| + 1
  {
    && Exchanged(hash, hs[k], hs[k + 1], at[k])
    && if k == 0 then |Ways(hash, hs[0])| == WAYS && at[0] == Ways(hash, hs[0])[1]
       else Follows(Ways(hash, hs[k]), at[k - 1], at[k])
  }

  ghost predicate Chain(hash: (nat, Element) -> nat, hs: seq<Hand>, at: seq<nat>) {
    |hs| == |at| + 1 && forall k :: 0 <= k < |at| ==> Turn(hash, hs, at, k)
  }

  /** The element in hand is put at the first of its positions that is collectable. */
  ghost predicate PutDown(hash: (nat, Element) -> nat, h: Hand, t: seq<Slot>) {
    var locs := Ways(hash, h);
    exists k :: 0 <= k < |locs| && h.table[locs[k]].dead && (forall j :: 0 <= j < k ==> !h.table[locs[j]].dead)
                && t == h.table[locs[k] := Slot(h.elem, false, h.recent)]
  }

  /** The chain ends with the element in hand put down, or after `limit` exchanges with it dropped. */
  ghost predicate Ends(hash: (nat, Element) -> nat, hs: seq<Hand>, at: seq<nat>, limit: nat, t: seq<Slot>,
                       lost: set<(Element, bool)>) {
    && Chain(hash, hs, at) && |at| <= limit
    && var h := hs[|at|];
       if |at| < limit then PutDown(hash, h, t) && lost == {}
       else t == h.table && lost == {(h.elem, h.recent)}
  }

  lemma ChainOne(hash: (nat, Element) -> nat, hs: seq<Hand>, at: seq<nat>, h: Hand, loc: nat)
    requires Chain(hash, hs, at) && Turn(hash, hs + [h], at + [loc], |at|)
    ensures Chain(hash, hs + [h], at + [loc])
  {
    var hs', at' := hs + [h], at + [loc];
    forall k | 0 <= k < |at'| ensures Turn(hash, hs', at', k) {
      if k < |at| { assert Turn(hash, hs, at, k); }
    }
  }

  /** Where the next exchange is. */
  lemma NextLoc(locs: seq<nat>, last: nat, first: bool)
    requires |locs| == WAYS && if first then last !in locs else last in locs
    ensures var next := locs[(1 + IndexOf(locs, last)) % WAYS];
      next in locs && if first then next == locs[1] else Follows(locs, last, next)
  {
    var i := IndexOf(locs, last);
    assert first <==> i == WAYS;
    assert !first ==> FirstAt(locs, i, last);
  }

  /** The chain has led from table t and element e0 to the hand h. */
  ghost predicate Underway(hash: (nat, Element) -> nat, t: seq<Slot>, e0: Element, hs: seq<Hand>, at: seq<nat>,
      h: Hand) {
    && Chain(hash, hs, at) && hs[0] == Hand(t, e0, true) && hs[|at|] == h
    && InHand(hash, t, h.table, e0, h.elem, h.recent)
  }

  lemma UnderwayStart(hash: (nat, Element) -> nat, t: seq<Slot>, e0: Element)
    requires InHand(hash, t, t, e0, e0, true)
    ensures Underway(hash, t, e0, [Hand(t, e0, true)], [], Hand(t, e0, true))
  {
  }

  function Swapped(h: Hand, loc: nat): Hand
    requires loc < |h.table|
  {
    Hand(h.table[loc := Slot(h.elem, false, h.recent)], h.table[loc].elem, h.table[loc].recent)
  }

  lemma UnderwayStep(hash: (nat, Element) -> nat, t: seq<Slot>, e0: Element, hs: seq<Hand>, at: seq<nat>, h: Hand,
      loc: nat)
    requires Underway(hash, t, e0, hs, at, h) && AllLive(hash, h) && loc in Ways(hash, h)
    requires if at == [] then |Ways(hash, h)| == WAYS && loc == Ways(hash, h)[1]
             else Follows(Ways(hash, h), at[|at| - 1], loc)
    ensures Underway(hash, t, e0, hs + [Swapped(h, loc)], at + [loc], Swapped(h, loc))
    ensures loc in Ways(hash, Swapped(h, loc))
  {
    assert |hs| == |at| + 1 && !h.table[loc].dead;
    hide InHand, Chain, AllLive, Follows;
    SwapOut(hash, t, h.table, e0, h.elem, h.recent, loc);
    var h' := Swapped(h, loc);
    assert Turn(hash, hs + [h'], at + [loc], |at|);
    ChainOne(hash, hs, at, h', loc);
  }

  /** All that holds of a finished chain. */
  ghost predicate Finished(hash: (nat, Element) -> nat, t: seq<Slot>, e0: Element, hs: seq<Hand>, at: seq<nat>,
      limit: nat, t': seq<Slot>, lost: set<(Element, bool)>) {
    && Ends(hash, hs, at, limit, t', lost) && hs[0] == Hand(t, e0, true)
    && Inserted(hash, t, t', e0, lost)
    && (e0 != FILLER ==> ((e0, true) !in lost <==> exists i :: 0 <= i < |t'| && t'[i].elem == e0))
  }

  lemma SomeElement(t: seq<Slot>, e: Element, recent: bool)
    requires (e, recent) in Live(t)
    ensures exists i :: 0 <= i < |t| && t[i].elem == e
  {
    var i :| 0 <= i < |t| && !t[i].dead && (e, recent) == (t[i].elem, t[i].recent);
  }

  lemma FinishedDown(hash: (nat, Element) -> nat, t: seq<Slot>, e0: Element, hs: seq<Hand>, at: seq<nat>, limit: nat,
      h: Hand, k: nat)
    requires Underway(hash, t, e0, hs, at, h) && |at| < limit && k < |Ways(hash, h)| && h.table[Ways(hash, h)[k]].dead
    requires forall j :: 0 <= j < k ==> !h.table[Ways(hash, h)[j]].dead
    ensures Finished(hash, t, e0, hs, at, limit, h.table[Ways(hash, h)[k] := Slot(h.elem, false, h.recent)], {})
  {
    var t' := h.table[Ways(hash, h)[k] := Slot(h.elem, false, h.recent)];
    assert PutDown(hash, h, t');
    hide WellPlaced, InHand, CountRecent, Live, PutDown, Chain;
    Settle(hash, t, h.table, e0, h.elem, h.recent, Ways(hash, h)[k]);
    SomeElement(t', e0, true);
  }

  lemma FinishedDropped(hash: (nat, Element) -> nat, t: seq<Slot>, e0: Element, hs: seq<Hand>, at: seq<nat>, h: Hand)
    requires Underway(hash, t, e0, hs, at, h)
    ensures Finished(hash, t, e0, hs, at, |at|, h.table, {(h.elem, h.recent)})
  {
    hide WellPlaced, CountRecent, Live, Chain;
    Dropped(hash, t, h.table, e0, h.elem, h.recent);
    if (h.elem, h.recent) != (e0, true) { SomeElement(h.table, e0, true); }
  }

  lemma PutDownLive(hash: (nat, Element) -> nat, h: Hand, t: seq<Slot>)
    requires PutDown(hash, h, t)
    ensures Live(t) == Live(h.table) + {(h.elem, h.recent)}
  {
    var locs := Ways(hash, h);
    var k :| 0 <= k < |locs| && h.table[locs[k]].dead && t == h.table[locs[k] := Slot(h.elem, false, h.recent)];
    LiveUpdate(h.table, locs[k], Slot(h.elem, false, h.recent));
  }

  /** If some position of the new element is collectable it is stored at the first such, and nothing is
      lost. */
  lemma StoredAtOnce(hash: (nat, Element) -> nat, t: seq<Slot>, e0: Element, hs: seq<Hand>, at: seq<nat>, limit: nat,
                     t': seq<Slot>, lost: set<(Element, bool)>)
    requires Finished(hash, t, e0, hs, at, limit, t', lost) && limit >= 1 && !AllLive(hash, Hand(t, e0, true))
    ensures at == [] && PutDown(hash, Hand(t, e0, true), t') && lost == {} && Live(t') == Live(t) + {(e0, true)}
  {
    hide AllLive, PutDown, Follows, Inserted;
    assert at != [] ==> Turn(hash, hs, at, 0);
    PutDownLive(hash, hs[0], t');
  }

  /** An element is lost only after `limit` exchanges, each of which found all eight positions taken, and
      the new element was first put at its second position. */
  lemma LostOnlyAtLimit(hash: (nat, Element) -> nat, t: seq<Slot>, e0: Element, hs: seq<Hand>, at: seq<nat>, limit: nat,
                        t': seq<Slot>, lost: set<(Element, bool)>)
    requires Finished(hash, t, e0, hs, at, limit, t', lost) && lost != {} && limit >= 1 && t != []
    ensures |at| == limit && forall k :: 0 <= k < limit ==> AllLive(hash, hs[k])
    ensures var loc := Locs(hash, |t|, e0)[1]; hs[1].table == t[loc := Slot(e0, false, true)]
  {
    forall k | 0 <= k < limit ensures AllLive(hash, hs[k]) { assert Turn(hash, hs, at, k); }
    assert Turn(hash, hs, at, 0);
  }

  lemma SwappedIs(h: Hand, loc: nat)
    requires loc < |h.table|
    ensures Swapped(h, loc) == Hand(h.table[loc := Slot(h.elem, false, h.recent)], h.table[loc].elem,
        h.table[loc].recent)
  {
  }

  lemma FinishedFacts(hash: (nat, Element) -> nat, t: seq<Slot>, e0: Element, hs: seq<Hand>, at: seq<nat>, limit: nat,
                      t': seq<Slot>, lost: set<(Element, bool)>)
    requires Finished(hash, t, e0, hs, at, limit, t', lost) && limit >= 1 && t != []
    ensures WellPlaced(hash, t') && CountRecent(t') <= CountRecent(t) + 1
    ensures !AllLive(hash, Hand(t, e0, true)) ==> lost == {} && Live(t') == Live(t) + {(e0, true)}
    ensures lost != {} ==> |at| == limit && |hs| == limit + 1
    ensures lost != {} ==> forall k :: 0 <= k < limit ==> AllLive(hash, hs[k])
    ensures e0 != FILLER ==> ((e0, true) !in lost <==> exists i :: 0 <= i < |t'| && t'[i].elem == e0)
  {
    hide AllLive, PutDown, Turn, WellPlaced, CountRecent, Live;
    if !AllLive(hash, Hand(t, e0, true)) { StoredAtOnce(hash, t, e0, hs, at, limit, t', lost); }
    if lost != {} { LostOnlyAtLimit(hash, t, e0, hs, at, limit, t', lost); }
  }

  /** The element is kept at a position of its own where it was, in the current epoch. */
  ghost predicate Revived(hash: (nat, Element) -> nat, t: seq<Slot>, t': seq<Slot>, e: Element) {
    exists loc :: loc in Ways(hash, Hand(t, e, true)) && t[loc].elem == e && t' == t[loc := Slot(e, false, true)]
  }

  lemma RevivedAt(hash: (nat, Element) -> nat, t: seq<Slot>, e: Element, loc: nat)
    requires loc in Ways(hash, Hand(t, e, true)) && t[loc].elem == e
    ensures Revived(hash, t, t[loc := Slot(e, false, true)], e)
  {
  }

  /** Re-inserting an element that is still stored revives it in the current epoch. */
  lemma KeptInPlace(hash: (nat, Element) -> nat, t: seq<Slot>, i: nat)
    requires WellPlaced(hash, t) && i < |t| && i in Locs(hash, |t|, t[i].elem)
    ensures WellPlaced(hash, t[i := Slot(t[i].elem, false, true)])
    ensures CountRecent(t[i := Slot(t[i].elem, false, true)]) <= CountRecent(t) + 1
    ensures t[i].elem != FILLER ==>
      Live(t[i := Slot(t[i].elem, false, true)]) == Live(t) - {(t[i].elem, false)} + {(t[i].elem, true)}
  {
    var s := Slot(t[i].elem, false, true);
    CountUpdate(t, i, s);
    if s.elem != FILLER { RevivedLive(hash, t, i); }
    if s.elem != FILLER {
      forall j | 0 <= j < |t| && j != i ensures t[j].elem != s.elem { OnlyOnce(hash, t, i, j); }
    }
    StoreKeeps(hash, t, i, s);
  }

  lemma RevivedLive(hash: (nat, Element) -> nat, t: seq<Slot>, i: nat)
    requires WellPlaced(hash, t) && i < |t| && t[i].elem != FILLER
    ensures Live(t[i := Slot(t[i].elem, false, true)]) == Live(t) - {(t[i].elem, false)} + {(t[i].elem, true)}
  {
    var u := t[i := Slot(t[i].elem, false, true)];
    forall x | x in Live(u) ensures x in Live(t) - {(t[i].elem, false)} || x == (t[i].elem, true) {
      var k :| 0 <= k < |u| && !u[k].dead && x == (u[k].elem, u[k].recent);
      if k != i { OnlyOnce(hash, t, i, k); }
    }
    forall x | x in Live(t) && x != (t[i].elem, false) ensures x in Live(u) {
      var k :| 0 <= k < |t| && !t[k].dead && x == (t[k].elem, t[k].recent);
      if k != i { assert u[k] == t[k]; } else { assert u[i] == Slot(t[i].elem, false, true); }
    }
    assert u[i] == Slot(t[i].elem, false, true);
  }

  lemma ErasedKeeps(hash: (nat, Element) -> nat, t: seq<Slot>, i: nat)
    requires WellPlaced(hash, t) && i < |t|
    ensures WellPlaced(hash, t[i := t[i].(dead := true)])
    ensures CountRecent(t[i := t[i].(dead := true)]) <= CountRecent(t)
  {
    CountUpdate(t, i, t[i].(dead := true));
    var u := t[i := t[i].(dead := true)];
    forall j | 0 <= j < |u| && (!u[j].dead || u[j].elem != FILLER) ensures j in Locs(hash, |u|, u[j].elem) {
      assert u[j].elem == t[j].elem;
    }
  }

  lemma {:induction false} NothingRecent(t: seq<Slot>)
    requires forall i :: 0 <= i < |t| ==> t[i].dead
    ensures CountRecent(t) == 0
  {
    if t != [] { NothingRecent(t[..|t| - 1]); }
  }

  /** The first index that holds loc, or the length. */
  function IndexOf(locs: seq<nat>, loc: nat): (k: nat)
    ensures k <= |locs| && (k < |locs| ==> locs[k] == loc) && forall j :: 0 <= j < k ==> locs[j] != loc
  {
    if locs == [] || locs[0] == loc then 0 else 1 + IndexOf(locs[1..], loc)
  }

  // ----- bit-packed flags -----

  function Mask(k: nat): bv8
    requires k < 8
  {
    1 << k
  }

  /** Setting or clearing one bit of a byte. */
  lemma MaskBits(m: bv8, k: nat, j: nat)
    requires k < 8 && j < 8
    ensures Mask(j) & (m | Mask(k)) != 0 <==> j == k || Mask(j) & m != 0
    ensures Mask(j) & (m & !Mask(k)) != 0 <==> j != k && Mask(j) & m != 0
  {
    assert k == 0 || k == 1 || k == 2 || k == 3 || k == 4 || k == 5 || k == 6 || k == 7;
    assert j == 0 || j == 1 || j == 2 || j == 3 || j == 4 || j == 5 || j == 6 || j == 7;
  }

  lemma MaskFull(j: nat)
    requires j < 8
    ensures Mask(j) & 0xFF != 0
  {
    assert j == 0 || j == 1 || j == 2 || j == 3 || j == 4 || j == 5 || j == 6 || j == 7;
  }

  /** Garbage collection flags, eight to a byte. */
  class BitPackedFlags {
    const mem: array<bv8>
    const size: nat

    ghost predicate Valid() { size <= 8 * mem.Length }

    predicate BitIsSet(s: nat)
      requires s < size && Valid()
      reads mem
    {
      Mask(s % 8) & mem[s / 8] != 0
    }

    constructor (n: nat)
      ensures Valid() && size == n && fresh(mem)
      ensures forall s :: 0 <= s < size ==> BitIsSet(s)
    {
      size := n;
      mem := new bv8[(n + 7) / 8](_ => 0xFF);
      new;
      forall s | 0 <= s < size ensures BitIsSet(s) { MaskFull(s % 8); }
    }

    method BitSet(s: nat)
      requires Valid() && s < size
      modifies mem
      ensures forall t :: 0 <= t < size ==> (BitIsSet(t) <==> t == s || old(BitIsSet(t)))
    {
      ghost var was := mem[s / 8];
      mem[s / 8] := mem[s / 8] | Mask(s % 8);
      hide Mask;
      forall t | 0 <= t < size ensures BitIsSet(t) <==> t == s || old(BitIsSet(t)) {
        if t / 8 == s / 8 { MaskBits(was, s % 8, t % 8); }
      }
    }

    method BitUnset(s: nat)
      requires Valid() && s < size
      modifies mem
      ensures forall t :: 0 <= t < size ==> (BitIsSet(t) <==> t != s && old(BitIsSet(t)))
    {
      ghost var was := mem[s / 8];
      mem[s / 8] := mem[s / 8] & !Mask(s % 8);
      hide Mask;
      forall t | 0 <= t < size ensures BitIsSet(t) <==> t != s && old(BitIsSet(t)) {
        if t / 8 == s / 8 { MaskBits(was, s % 8, t % 8); }
      }
    }
  }

  // ----- the cache -----

  class Cache {
    const hash: (nat, Element) -> nat
    const size: nat
    const epochSize: nat
    const depthLimit: nat
    const flags: BitPackedFlags

    var table: seq<Element>
    var epochFlags: seq<bool>
    var epochHeuristicCounter: nat

    ghost predicate Shaped()
      reads this
    {
      size > 0 && flags.Valid() && flags.size == size && |table| == size && |epochFlags| == size
    }

    ghost function Slots(): (t: seq<Slot>)
      requires Shaped()
      reads this, flags.mem
      ensures |t| == size
    {
      seq(size, i requires 0 <= i < size &&
          Shaped() reads this, flags.mem => Slot(table[i], flags.BitIsSet(i), epochFlags[i]))
    }

    /** Elements are where they belong and the current epoch is within its bound. */
    ghost predicate Valid()
      reads this, flags.mem
    {
      && Shaped() && depthLimit >= 1 && WellPlaced(hash, Slots())
      && CountRecent(Slots()) + epochHeuristicCounter <= EpochBound(epochSize)
    }

    /** setup() with the size it computes: a power of two of at least two slots. */
    constructor (hash: (nat, Element) -> nat, logSize: nat)
      requires 1 <= logSize < 32
      ensures Valid() && fresh(flags) && fresh(flags.mem) && size == Pow(2, logSize) && depthLimit == logSize
      ensures epochSize == EpochSize(size) == epochHeuristicCounter
      ensures Live(Slots()) == {}
    {
      this.hash := hash;
      depthLimit := logSize;
      PowPositive(2, logSize);
      var n := Pow(2, logSize);
      size := n;
      epochSize := EpochSize(n);
      epochHeuristicCounter := EpochSize(n);
      table := seq(n, _ => FILLER);
      epochFlags := seq(n, _ => false);
      var f := new BitPackedFlags(n);
      flags := f;
      new;
      NothingRecent(Slots());
    }

    method AllowErase(n: nat)
      requires Shaped() && n < size
      modifies flags.mem
      ensures Slots() == old(Slots())[n := old(Slots())[n].(dead := true)]
    {
      flags.BitSet(n);
    }

    method PleaseKeep(n: nat)
      requires Shaped() && n < size
      modifies flags.mem
      ensures Slots() == old(Slots())[n := old(Slots())[n].(dead := false)]
    {
      flags.BitUnset(n);
    }

    /** Put an element into a slot and keep it. */
    method Put(loc: nat, e: Element, recent: bool)
      requires Shaped() && loc < size
      modifies this`table, this`epochFlags, flags.mem
      ensures Shaped() && Slots() == old(Slots())[loc := Slot(e, false, recent)]
    {
      ghost var t := Slots();
      table := table[loc := e];
      assert Slots() == t[loc := t[loc].(elem := e)];
      PleaseKeep(loc);
      assert Slots() == t[loc := Slot(e, false, t[loc].recent)];
      ghost var u := Slots();
      epochFlags := epochFlags[loc := recent];
      assert forall j :: 0 <= j < size ==> Slots()[j] == u[j].(recent := if j == loc then recent else u[j].recent);
    }

    method EpochCheck()
      requires Shaped()
      modifies this`epochFlags, this`epochHeuristicCounter, flags.mem
      ensures Shaped() && (Slots(), epochHeuristicCounter) == AfterEpochCheck(old(Slots()), old(epochHeuristicCounter),
          epochSize)
    {
      ghost var t := Slots();
      if epochHeuristicCounter != 0 {
        epochHeuristicCounter := epochHeuristicCounter - 1;
        assert Slots() == t;
        return;
      }
      var epochUnusedCount := 0;
      for i := 0 to size
        invariant epochUnusedCount == CountRecent(t[..i])
      {
        assert t[..i + 1][..i] == t[..i];
        if epochFlags[i] && !flags.BitIsSet(i) {
          epochUnusedCount := epochUnusedCount + 1;
        }
      }
      assert t[..size] == t;
      if epochUnusedCount >= epochSize {
        Age();
        ghost var u := Slots();
        epochHeuristicCounter := epochSize;
        assert Slots() == u;
      } else {
        epochHeuristicCounter := Max(1, Max(epochSize / 16, epochSize - epochUnusedCount));
        assert Slots() == t;
      }
    }

    method Age()
      requires Shaped()
      modifies this`epochFlags, flags.mem
      ensures Shaped() && Slots() == Aged(old(Slots()))
    {
      ghost var t := Slots();
      for i := 0 to size
        invariant Shaped() && table == old(table)
        invariant forall j :: 0 <= j < size ==> Slots()[j] == if j < i then AgedSlot(t[j]) else t[j]
      {
        if epochFlags[i] {
          epochFlags := epochFlags[i := false];
        } else {
          AllowErase(i);
        }
      }
    }

    /** The element is at one of its positions. */
    ghost predicate IsAt(t: seq<Slot>, e: Element) {
      exists loc :: loc in Ways(hash, Hand(t, e, true)) && t[loc].elem == e
    }

    /** Insert an element. `mid` is the table after the epoch check. An element that is stored is kept
        where it is, in the current epoch. Any other starts a chain of exchanges: it is stored at once if
        one of its positions is collectable, and something is lost only after depthLimit exchanges that
        found all positions taken. */
    method Insert(e0: Element)
      returns (ghost mid: seq<Slot>, ghost lost: set<(Element, bool)>, ghost hs: seq<Hand>, ghost at: seq<nat>)
      requires Valid()
      modifies this, flags.mem
      ensures Valid()
      ensures mid == AfterEpochCheck(old(Slots()), old(epochHeuristicCounter), epochSize).0
      ensures IsAt(mid, e0) ==> lost == {} && Revived(hash, mid, Slots(), e0)
      ensures IsAt(mid, e0) && e0 != FILLER ==> Live(Slots()) == Live(mid) - {(e0, false)} + {(e0, true)}
      ensures !IsAt(mid, e0) ==> Finished(hash, mid, e0, hs, at, depthLimit, Slots(), lost)
      ensures !IsAt(mid, e0) && !AllLive(hash, Hand(mid, e0, true)) ==>
                lost == {} && Live(Slots()) == Live(mid) + {(e0, true)}
      ensures lost != {} ==> |at| == depthLimit && |hs| == depthLimit + 1
      ensures lost != {} ==> forall k :: 0 <= k < depthLimit ==> AllLive(hash, hs[k])
      ensures e0 != FILLER ==> (e0 in table <==> (e0, true) !in lost)
    {
      hide WellPlaced, CountRecent, Live, InHand, Finished, AllLive, Revived;
      EpochCheckRoom(hash, Slots(), epochHeuristicCounter, epochSize);
      EpochCheck();
      mid, lost, hs, at := Slots(), {}, [], [];
      var locs := Locs(hash, size, e0);
      var k := FindStored(locs, e0);
      if k < WAYS {
        assert locs[k] in Ways(hash, Hand(mid, e0, true));
        KeptInPlace(hash, mid, locs[k]);
        RevivedAt(hash, mid, e0, locs[k]);
        Put(locs[k], e0, true);
        assert Slots()[locs[k]].elem == e0;
        InTable(e0);
        return;
      }
      assert !IsAt(mid, e0);
      StartInHand(hash, mid, e0);
      lost, hs, at := Displace(e0, mid);
      FinishedFacts(hash, mid, e0, hs, at, depthLimit, Slots(), lost);
      InTable(e0);
    }

    lemma InTable(e: Element)
      requires Shaped()
      ensures e in table <==> exists i :: 0 <= i < |Slots()| && Slots()[i].elem == e
    {
      if e in table {
        var i :| 0 <= i < |table| && table[i] == e;
        assert Slots()[i].elem == e;
      }
    }

    /** The chain of evictions: at most depthLimit elements are moved. */
    method Displace(e0: Element, ghost mid: seq<Slot>)
      returns (ghost lost: set<(Element, bool)>, ghost hs: seq<Hand>, ghost at: seq<nat>)
      requires Shaped() && Slots() == mid && InHand(hash, mid, mid, e0, e0, true)
      modifies this`table, this`epochFlags, flags.mem
      ensures Shaped() && Finished(hash, mid, e0, hs, at, depthLimit, Slots(), lost)
    {
      hide WellPlaced, CountRecent, Live, InHand, Finished, Underway, Follows, Swapped;
      lost := {};
      var e, lastLoc, lastEpoch := e0, size, true;
      var locs := Locs(hash, size, e);
      hs, at := [Hand(mid, e0, true)], [];
      UnderwayStart(hash, mid, e0);
      for depth := 0 to depthLimit
        invariant Shaped() && locs == Locs(hash, size, e) && |at| == depth
        invariant Underway(hash, mid, e0, hs, at, Hand(Slots(), e, lastEpoch))
        invariant if depth == 0 then lastLoc == size else lastLoc == at[depth - 1] && lastLoc in locs
      {
        var open := FindOpen(locs);
        if open < WAYS {
          FinishedDown(hash, mid, e0, hs, at, depthLimit, Hand(Slots(), e, lastEpoch), open);
          Put(locs[open], e, lastEpoch);
          return;
        }
        e, lastLoc, lastEpoch, hs, at := SwapNext(e, lastLoc, lastEpoch, locs, e0, mid, hs, at);
        locs := Locs(hash, size, e);
      }
      lost := {(e, lastEpoch)};
      FinishedDropped(hash, mid, e0, hs, at, Hand(Slots(), e, lastEpoch));
    }

    /** One exchange of the chain. */
    method SwapNext(e: Element, last: nat, epoch: bool, locs: seq<nat>, ghost e0: Element, ghost mid: seq<Slot>,
                    ghost hs: seq<Hand>, ghost at: seq<nat>)
      returns (out: Element, loc: nat, outEpoch: bool, ghost hs': seq<Hand>, ghost at': seq<nat>)
      requires Shaped() && locs == Locs(hash, size, e) && Underway(hash, mid, e0, hs, at, Hand(Slots(), e, epoch))
      requires forall j :: 0 <= j < WAYS ==> !Slots()[locs[j]].dead
      requires if at == [] then last == size else last == at[|at| - 1] && last in locs
      modifies this`table, this`epochFlags
      ensures Shaped() && Underway(hash, mid, e0, hs', at', Hand(Slots(), out, outEpoch))
      ensures |at'| == |at| + 1 && loc == at'[|at|] && loc in Locs(hash, size, out)
    {
      hide WellPlaced, CountRecent, Live, InHand, Underway, Follows, Swapped;
      NextLoc(locs, last, at == []);
      loc := locs[(1 + IndexOf(locs, last)) % WAYS];
      ghost var h := Hand(Slots(), e, epoch);
      assert Ways(hash, h) == locs;
      UnderwayStep(hash, mid, e0, hs, at, h, loc);
      SwappedIs(h, loc);
      out, outEpoch := Exchange(loc, e, epoch);
      hs', at' := hs + [Swapped(h, loc)], at + [loc];
    }

    /** The first position that holds the element, or WAYS. */
    method FindStored(locs: seq<nat>, e: Element) returns (k: nat)
      requires Shaped() && |locs| == WAYS && forall i :: 0 <= i < WAYS ==> locs[i] < size
      ensures k <= WAYS && (k < WAYS ==> Slots()[locs[k]].elem == e) && forall j :: 0 <= j < k ==>
          Slots()[locs[j]].elem != e
    {
      k := 0;
      while k < WAYS
        invariant k <= WAYS && forall j :: 0 <= j < k ==> Slots()[locs[j]].elem != e
      {
        if table[locs[k]] == e { return; }
        k := k + 1;
      }
    }

    /** The first collectable position, or WAYS. */
    method FindOpen(locs: seq<nat>) returns (k: nat)
      requires Shaped() && |locs| == WAYS && forall i :: 0 <= i < WAYS ==> locs[i] < size
      ensures k <= WAYS && (k < WAYS ==> Slots()[locs[k]].dead) && forall j :: 0 <= j < k ==> !Slots()[locs[j]].dead
    {
      k := 0;
      while k < WAYS
        invariant k <= WAYS && forall j :: 0 <= j < k ==> !Slots()[locs[j]].dead
      {
        if flags.BitIsSet(locs[k]) { return; }
        k := k + 1;
      }
    }

    /** Swap the element in hand with the one in a live slot. */
    method Exchange(loc: nat, e: Element, recent: bool) returns (out: Element, outRecent: bool)
      requires Shaped() && loc < size && !Slots()[loc].dead
      modifies this`table, this`epochFlags
      ensures Shaped() && Slots() == old(Slots())[loc := Slot(e, false, recent)]
      ensures out == old(Slots())[loc].elem && outRecent == old(Slots())[loc].recent
    {
      out, outRecent := table[loc], epochFlags[loc];
      table := table[loc := e];
      epochFlags := epochFlags[loc := recent];
    }

    /** Look an element up; with `erase` its slot becomes collectable, but nothing is removed yet. */
    method Contains(e: Element, erase: bool) returns (found: bool)
      requires Valid()
      modifies flags.mem
      ensures Valid()
      ensures e != FILLER ==> (found <==> e in table)
      ensures if !found || !erase then Slots() == old(Slots())
              else exists k ::
                     && 0 <= k < size && k in Locs(hash, size, e) && table[k] == e
                     && Slots() == old(Slots())[k := old(Slots())[k].(dead := true)]
    {
      var locs := Locs(hash, size, e);
      for k := 0 to WAYS
        invariant Slots() == old(Slots()) && forall j :: 0 <= j < k ==> table[locs[j]] != e
      {
        if table[locs[k]] == e {
          if erase {
            ErasedKeeps(hash, Slots(), locs[k]);
            AllowErase(locs[k]);
          }
          return true;
        }
      }
      if e != FILLER {
        NotStored(hash, Slots(), e);
        forall i | 0 <= i < size ensures table[i] != e { assert Slots()[i].elem == table[i]; }
      }
      return false;
    }
  }
  /** As the header promises: an element that is erased is still found, until its slot is needed. */
  method ErasedStillFound(c: Cache, e: Element) returns (r: bool)
    requires c.Valid() && e != FILLER
    modifies c, c.flags.mem
    ensures r
  {
    hide WellPlaced, Live, Finished, AllLive, AfterEpochCheck;
    var _, _, _, _ := c.Insert(e);
    var first := c.Contains(e, true);
    if !first { return true; }
    r := c.Contains(e, false);
  }
}
