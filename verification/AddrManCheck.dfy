/**
 CAddrMan::Check_ (src/addrman.cpp), loop by loop: exactly which managers it accepts, and that every
 manager the operations can produce is one of them.
 */
module AddrManCheck {
  import opened Wrappers
  import opened M = AddrManModel
  import A = AddrMan
  import D = AddrManDisk

  // ----- what Check_ accepts -----

  /** mapAddr[info]: a missing key reads as 0. */
  function Lookup(m: map<NetAddr, int>, a: NetAddr): int { if a in m then m[a] else 0 }

  /** What the loop over mapInfo reports of one entry. */
  function InfoCode(s: State, id: int): int
    requires id in s.mapInfo
  {
    var info := s.mapInfo[id];
    if info.fInTried && info.peer.nLastSuccess == 0 then -1
    else if info.fInTried && info.nRefCount != 0 then -2
    else if !info.fInTried && !(0 <= info.nRefCount <= NEW_BUCKETS_PER_ADDRESS) then -3
    else if !info.fInTried && info.nRefCount == 0 then -4
    else if Lookup(s.mapAddr, info.Ip()) != id then -5
    else if !(0 <= info.nRandomPos < |s.vRandom|) || s.vRandom[info.nRandomPos] != id then -14
    else if info.peer.nLastTry < 0 then -6
    else if info.peer.nLastSuccess < 0 then -8
    else 0
  }

  ghost predicate EntryPasses(s: State, id: int) { id in s.mapInfo ==> InfoCode(s, id) == 0 }

  /** r is what the loop over mapInfo reports: the code of the first entry that has one. */
  ghost predicate FirstCode(s: State, order: seq<int>, r: int)
    requires forall k :: 0 <= k < |order| ==> order[k] in s.mapInfo
  {
    if r == 0 then forall k :: 0 <= k < |order| ==> InfoCode(s, order[k]) == 0
    else exists k :: 0 <= k < |order| && InfoCode(s, order[k]) == r && forall j :: 0 <= j < k ==>
        InfoCode(s, order[j]) == 0
  }

  predicate InTable(c: Cell, buckets: nat) { c.bucket < buckets && c.pos < BUCKET_SIZE }

  ghost predicate TriedPasses(h: Hashing, s: State, c: Cell) { InTable(c, TRIED_BUCKET_COUNT) ==> TriedCellOk(h, s, c) }
  ghost predicate NewPasses(h: Hashing, s: State, c: Cell) { InTable(c, NEW_BUCKET_COUNT) ==> NewCellOk(h, s, c) }

  predicate Sits(h: Hashing, s: State, id: int)
    requires id in s.mapInfo
  {
    var c := TriedCell(h, s.nKey, s.mapInfo[id].Service());
    c in s.vvTried && s.vvTried[c] == id
  }

  ghost predicate TriedSits(h: Hashing, s: State, id: int) { id in s.mapInfo && s.mapInfo[id].fInTried ==>
      Sits(h, s, id) }

  /** The cells of the table proper that hold id. */
  function RefsIn(t: Table, id: int): set<Cell> { set c | c in Refs(t, id) && InTable(c, NEW_BUCKET_COUNT) }

  predicate IsNew(s: State, id: int) { id in s.mapInfo && !s.mapInfo[id].fInTried }

  ghost predicate CountExact(s: State, id: int) { IsNew(s, id) ==> s.mapInfo[id].nRefCount == |RefsIn(s.vvNew, id)| }

  ghost predicate TriedTablePasses(h: Hashing, s: State) { forall c :: TriedPasses(h, s, c) }
  ghost predicate NewTablePasses(h: Hashing, s: State) { (forall c :: NewPasses(h, s, c)) &&
      forall id :: CountExact(s, id) }

  /** Everything Check_ looks at is in order, but for the key. */
  ghost predicate InOrder(h: Hashing, s: State) {
    && |s.vRandom| == s.nTried + s.nNew && s.nTried == |TriedIds(s.mapInfo)| && s.nNew == |NewIds(s.mapInfo)|
    && (forall id :: EntryPasses(s, id)) && (forall id :: TriedSits(h, s, id))
    && TriedTablePasses(h, s) && NewTablePasses(h, s)
  }

  // ----- the loop over mapInfo -----

  /** id is in the collection of its kind, as far as ids go. */
  ghost predicate SortedAmong(m: map<int, Info>, ids: seq<int>, setTried: set<int>, mapNew: map<int, int>, id: int) {
    && (id in setTried <==> id in ids && id in m && m[id].fInTried)
    && (id in mapNew <==> id in ids && id in m && !m[id].fInTried)
    && (id in mapNew && id in m ==> mapNew[id] == m[id].nRefCount)
  }

  ghost predicate SortedUpTo(m: map<int, Info>, order: seq<int>, k: nat, setTried: set<int>, mapNew: map<int, int>)
    requires k <= |order|
  {
    forall id :: SortedAmong(m, order[..k], setTried, mapNew, id)
  }

  /** setTried and mapNew are the two halves of mapInfo. */
  ghost predicate Halves(m: map<int, Info>, setTried: set<int>, mapNew: map<int, int>) {
    && setTried == TriedIds(m) && mapNew.Keys == NewIds(m)
    && forall id :: id in mapNew && id in m ==> mapNew[id] == m[id].nRefCount
  }

  lemma SortNext(m: map<int, Info>, order: seq<int>, k: nat, setTried: set<int>, mapNew: map<int, int>)
    requires k < |order| && order[k] in m && SortedUpTo(m, order, k, setTried, mapNew)
    ensures var n := order[k];
      if m[n].fInTried then SortedUpTo(m, order, k + 1, setTried + {n}, mapNew)
      else SortedUpTo(m, order, k + 1, setTried, mapNew[n := m[n].nRefCount])
  {
    var n := order[k];
    var next := order[..k + 1];
    assert next == order[..k] + [n];
    var t := if m[n].fInTried then setTried + {n} else setTried;
    var w := if m[n].fInTried then mapNew else mapNew[n := m[n].nRefCount];
    forall id
      ensures SortedAmong(m, next, t, w, id)
    {
      assert SortedAmong(m, order[..k], setTried, mapNew, id);
    }
  }

  lemma SortedAll(m: map<int, Info>, order: seq<int>, setTried: set<int>, mapNew: map<int, int>)
    requires D.Enumerates(order, m) && SortedUpTo(m, order, |order|, setTried, mapNew)
    ensures Halves(m, setTried, mapNew)
  {
    var all := order[..|order|];
    assert all == order;
    forall id
      ensures id in setTried <==> id in TriedIds(m)
      ensures id in mapNew <==> id in NewIds(m)
      ensures id in mapNew && id in m ==> mapNew[id] == m[id].nRefCount
    {
      assert SortedAmong(m, all, setTried, mapNew, id);
    }
  }

  method CheckInfos(a: A.AddrMan, order: seq<int>) returns (r: int, setTried: set<int>, mapNew: map<int, int>)
    requires D.Enumerates(order, a.mapInfo) && forall k :: 0 <= k < |order| ==> order[k] in a.mapInfo
    ensures FirstCode(a.Snapshot(), order, r)
    ensures r == 0 ==> Halves(a.mapInfo, setTried, mapNew)
  {
    hide SortedUpTo, Halves, D.Enumerates;
    setTried, mapNew := {}, map[];
    var k := 0;
    NothingSorted(a.mapInfo, order);
    while k < |order|
      invariant 0 <= k <= |order|
      invariant SortedUpTo(a.mapInfo, order, k, setTried, mapNew)
      invariant forall j :: 0 <= j < k ==> InfoCode(a.Snapshot(), order[j]) == 0
    {
      SortNext(a.mapInfo, order, k, setTried, mapNew);
      var n, info := order[k], a.mapInfo[order[k]];
      ghost var code := InfoCode(a.Snapshot(), n);
      if info.fInTried {
        if info.peer.nLastSuccess == 0 { assert code == -1; return -1, setTried, mapNew; }
        if info.nRefCount != 0 { assert code == -2; return -2, setTried, mapNew; }
        setTried := setTried + {n};
      } else {
        if info.nRefCount < 0 || info.nRefCount > NEW_BUCKETS_PER_ADDRESS { assert code == -3; return -3, setTried,
            mapNew; }
        if info.nRefCount == 0 { assert code == -4; return -4, setTried, mapNew; }
        mapNew := mapNew[n := info.nRefCount];
      }
      if Lookup(a.mapAddr, info.Ip()) != n { assert code == -5; return -5, setTried, mapNew; }
      if info.nRandomPos < 0 || info.nRandomPos >= |a.vRandom| || a.vRandom[info.nRandomPos] != n {
        assert code == -14;
        return -14, setTried, mapNew;
      }
      if info.peer.nLastTry < 0 { assert code == -6; return -6, setTried, mapNew; }
      if info.peer.nLastSuccess < 0 { assert code == -8; return -8, setTried, mapNew; }
      k := k + 1;
    }
    SortedAll(a.mapInfo, order, setTried, mapNew);
    r := 0;
  }

  lemma NothingSorted(m: map<int, Info>, order: seq<int>)
    ensures SortedUpTo(m, order, 0, {}, map[])
  {
    assert order[..0] == [];
  }

  lemma AllPass(s: State, order: seq<int>)
    requires D.Enumerates(order, s.mapInfo) && forall k :: 0 <= k < |order| ==> order[k] in s.mapInfo
    ensures FirstCode(s, order, 0) <==> forall id :: EntryPasses(s, id)
  {
    if FirstCode(s, order, 0) {
      forall id
        ensures EntryPasses(s, id)
      {
        if id in s.mapInfo {
          assert id in order;
        }
      }
    }
    if forall id :: EntryPasses(s, id) {
      forall k | 0 <= k < |order|
        ensures InfoCode(s, order[k]) == 0
      {
        assert EntryPasses(s, order[k]);
      }
    }
  }

  // ----- the loop over the tried cells -----

  /** The nested loops have passed cell c when they are at position i of bucket n. */
  predicate Passed(c: Cell, n: nat, i: nat) {
    c.bucket < n || (c.bucket == n && c.pos < i)
  }

  ghost predicate TriedBehind(h: Hashing, s: State, n: nat, i: nat, c: Cell) { Passed(c, n, i) ==>
      TriedPasses(h, s, c) }

  /** id still waits for its tried cell. */
  ghost predicate TriedLeft(h: Hashing, s: State, left: set<int>, n: nat, i: nat, id: int) {
    id in left <==> id in TriedIds(s.mapInfo) && !(Passed(TriedCell(h, s.nKey, s.mapInfo[id].Service()), n, i) && Sits(h, s, id))
  }

  ghost predicate TriedSoFar(h: Hashing, s: State, left: set<int>, n: nat, i: nat) {
    (forall c :: TriedBehind(h, s, n, i, c)) && forall id :: TriedLeft(h, s, left, n, i, id)
  }

  /** The tests that the loop applies to one tried cell. */
  predicate TriedFails(h: Hashing, s: State, left: set<int>, c: Cell) {
    c in s.vvTried &&
    (|| s.vvTried[c] !in left || s.vvTried[c] !in s.mapInfo
     || GetTriedBucket(h, s.nKey, s.mapInfo[s.vvTried[c]].Service()) != c.bucket
     || GetBucketPosition(h, s.nKey, s.mapInfo[s.vvTried[c]].Service(), false, c.bucket) != c.pos)
  }

  /** A cell that fails the tests is a wrong one; any other crosses off its id. */
  lemma TriedNext(h: Hashing, s: State, left: set<int>, n: nat, i: nat)
    requires TriedSoFar(h, s, left, n, i) && InTable(Cell(n, i), TRIED_BUCKET_COUNT)
    ensures TriedFails(h, s, left, Cell(n, i)) ==> !TriedTablePasses(h, s)
    ensures !TriedFails(h, s, left, Cell(n, i)) ==>
      TriedSoFar(h, s, if Cell(n, i) in s.vvTried then left - {s.vvTried[Cell(n, i)]} else left, n, i + 1)
  {
    var c := Cell(n, i);
    if c in s.vvTried {
      assert TriedLeft(h, s, left, n, i, s.vvTried[c]);
    }
    if TriedFails(h, s, left, c) {
      assert !TriedPasses(h, s, c);
    } else {
      var next, j := if c in s.vvTried then left - {s.vvTried[c]} else left, i + 1;
      forall d
        ensures TriedBehind(h, s, n, j, d)
      {
        assert TriedBehind(h, s, n, i, d);
      }
      forall id
        ensures TriedLeft(h, s, next, n, j, id)
      {
        assert TriedLeft(h, s, left, n, i, id);
      }
    }
  }

  lemma TriedNextBucket(h: Hashing, s: State, left: set<int>, n: nat)
    requires TriedSoFar(h, s, left, n, BUCKET_SIZE)
    ensures TriedSoFar(h, s, left, n + 1, 0)
  {
    var m := n + 1;
    forall c
      ensures TriedBehind(h, s, m, 0, c)
    {
      assert TriedBehind(h, s, n, BUCKET_SIZE, c);
    }
    forall id
      ensures TriedLeft(h, s, left, m, 0, id)
    {
      assert TriedLeft(h, s, left, n, BUCKET_SIZE, id);
    }
  }

  lemma TriedStarts(h: Hashing, s: State)
    ensures TriedSoFar(h, s, TriedIds(s.mapInfo), 0, 0)
  {
  }

  lemma TriedEnds(h: Hashing, s: State, left: set<int>)
    requires TriedSoFar(h, s, left, TRIED_BUCKET_COUNT, 0)
    ensures TriedTablePasses(h, s) && (left == {} <==> forall id :: TriedSits(h, s, id))
  {
    forall c
      ensures TriedPasses(h, s, c)
    {
      assert TriedBehind(h, s, TRIED_BUCKET_COUNT, 0, c);
    }
    forall id
      ensures id in left <==> !TriedSits(h, s, id)
    {
      assert TriedLeft(h, s, left, TRIED_BUCKET_COUNT, 0, id);
    }
    hide TriedSits, TriedSoFar;
    if forall id :: TriedSits(h, s, id) {
      forall id
        ensures id !in left
      {
        assert TriedSits(h, s, id);
      }
      assert left == {};
    }
  }

  method CheckTried(a: A.AddrMan, setTried: set<int>) returns (r: int, left: set<int>)
    requires setTried == TriedIds(a.mapInfo)
    ensures r == 0 <==> TriedTablePasses(a.h, a.Snapshot())
    ensures r == 0 ==> (left == {} <==> forall id :: TriedSits(a.h, a.Snapshot(), id))
  {
    hide TriedSoFar, TriedTablePasses, TriedIds, TriedSits;
    left := setTried;
    TriedStarts(a.h, a.Snapshot());
    var n := 0;
    while n < TRIED_BUCKET_COUNT
      invariant 0 <= n <= TRIED_BUCKET_COUNT && TriedSoFar(a.h, a.Snapshot(), left, n, 0)
    {
      var i := 0;
      while i < BUCKET_SIZE
        invariant 0 <= i <= BUCKET_SIZE && TriedSoFar(a.h, a.Snapshot(), left, n, i)
      {
        TriedNext(a.h, a.Snapshot(), left, n, i);
        var c := Cell(n, i);
        if c in a.vvTried {
          var id := a.vvTried[c];
          if id !in left { return -11, left; }
          if id !in a.mapInfo || GetTriedBucket(a.h, a.nKey, a.mapInfo[id].Service()) != n { return -17, left; }
          if GetBucketPosition(a.h, a.nKey, a.mapInfo[id].Service(), false, n) != i { return -18, left; }
          left := left - {id};
        }
        i := i + 1;
      }
      TriedNextBucket(a.h, a.Snapshot(), left, n);
      n := n + 1;
    }
    TriedEnds(a.h, a.Snapshot(), left);
    r := 0;
  }

  // ----- the loop over the new cells -----

  /** The cells of id that have been passed. */
  ghost function Behind(t: Table, id: int, n: nat, i: nat): set<Cell> {
    set c | c in RefsIn(t, id) && Passed(c, n, i)
  }

  ghost predicate NewBehind(h: Hashing, s: State, n: nat, i: nat, c: Cell) { Passed(c, n, i) ==> NewPasses(h, s, c) }

  /** mapNew counts down from the reference count of id to zero, and never below. */
  ghost predicate NewLeft(s: State, left: map<int, int>, n: nat, i: nat, id: int) {
    var k := |Behind(s.vvNew, id, n, i)|;
    && (id in left <==> IsNew(s, id) && k < s.mapInfo[id].nRefCount)
    && (id in left ==> left[id] == s.mapInfo[id].nRefCount - k)
    && (IsNew(s, id) ==> k <= s.mapInfo[id].nRefCount)
  }

  ghost predicate NewSoFar(h: Hashing, s: State, left: map<int, int>, n: nat, i: nat) {
    (forall c :: NewBehind(h, s, n, i, c)) && forall id :: NewLeft(s, left, n, i, id)
  }

  lemma BehindNext(t: Table, id: int, n: nat, i: nat)
    requires InTable(Cell(n, i), NEW_BUCKET_COUNT)
    ensures var c := Cell(n, i);
      if c in t && t[c] == id then Behind(t, id, n, i + 1) == Behind(t, id, n, i) + {c} && c !in Behind(t, id, n, i)
      else Behind(t, id, n, i + 1) == Behind(t, id, n, i)
  {
  }

  lemma BehindSize(t: Table, id: int, n: nat, i: nat)
    ensures |Behind(t, id, n, i)| <= |RefsIn(t, id)|
  {
    var rest := RefsIn(t, id) - Behind(t, id, n, i);
    assert RefsIn(t, id) == Behind(t, id, n, i) + rest;
  }

  /** What one round of the new-table loop does to mapNew. */
  function Counted(left: map<int, int>, id: int): map<int, int>
    requires id in left
  {
    if left[id] - 1 == 0 then left - {id} else left[id := left[id] - 1]
  }

  /** The tests that the loop applies to one new cell. */
  predicate NewFails(h: Hashing, s: State, left: map<int, int>, c: Cell) {
    c in s.vvNew &&
    (|| s.vvNew[c] !in left || s.vvNew[c] !in s.mapInfo
     || GetBucketPosition(h, s.nKey, s.mapInfo[s.vvNew[c]].Service(), true, c.bucket) != c.pos)
  }

  /** A cell fails the tests only if it is a wrong one or its id has too many. */
  lemma NewFailing(h: Hashing, s: State, left: map<int, int>, n: nat, i: nat)
    requires NewSoFar(h, s, left, n, i) && InTable(Cell(n, i), NEW_BUCKET_COUNT) && NewFails(h, s, left, Cell(n, i))
    ensures !NewTablePasses(h, s)
  {
    var c := Cell(n, i);
    var id := s.vvNew[c];
    assert NewLeft(s, left, n, i, id);
    if NewPasses(h, s, c) {
      BehindNext(s.vvNew, id, n, i);
      BehindSize(s.vvNew, id, n, i + 1);
      assert !CountExact(s, id);
    }
  }

  lemma NewLeftNext(s: State, left: map<int, int>, n: nat, i: nat, id: int)
    requires NewLeft(s, left, n, i, id) && InTable(Cell(n, i), NEW_BUCKET_COUNT)
    requires Cell(n, i) in s.vvNew ==> s.vvNew[Cell(n, i)] in left
    ensures NewLeft(s, if Cell(n, i) in s.vvNew then Counted(left, s.vvNew[Cell(n, i)]) else left, n, i + 1, id)
  {
    BehindNext(s.vvNew, id, n, i);
    hide Behind;
  }

  lemma NewNext(h: Hashing, s: State, left: map<int, int>, n: nat, i: nat)
    requires NewSoFar(h, s, left, n, i) && InTable(Cell(n, i), NEW_BUCKET_COUNT) && !NewFails(h, s, left, Cell(n, i))
    ensures NewSoFar(h, s, if Cell(n, i) in s.vvNew then Counted(left, s.vvNew[Cell(n, i)]) else left, n, i + 1)
  {
    var c := Cell(n, i);
    if c in s.vvNew {
      assert NewLeft(s, left, n, i, s.vvNew[c]);
    }
    var next, j := if c in s.vvNew then Counted(left, s.vvNew[c]) else left, i + 1;
    forall d
      ensures NewBehind(h, s, n, j, d)
    {
      assert NewBehind(h, s, n, i, d);
    }
    hide NewLeft, NewBehind;
    forall id
      ensures NewLeft(s, next, n, j, id)
    {
      NewLeftNext(s, left, n, i, id);
    }
  }

  lemma NewNextBucket(h: Hashing, s: State, left: map<int, int>, n: nat)
    requires NewSoFar(h, s, left, n, BUCKET_SIZE)
    ensures NewSoFar(h, s, left, n + 1, 0)
  {
    var m := n + 1;
    forall c
      ensures NewBehind(h, s, m, 0, c)
    {
      assert NewBehind(h, s, n, BUCKET_SIZE, c);
    }
    forall id
      ensures NewLeft(s, left, m, 0, id)
    {
      assert NewLeft(s, left, n, BUCKET_SIZE, id);
      assert Behind(s.vvNew, id, n, BUCKET_SIZE) == Behind(s.vvNew, id, m, 0);
    }
  }

  lemma NewStarts(h: Hashing, s: State, setTried: set<int>, mapNew: map<int, int>)
    requires (forall id :: EntryPasses(s, id)) && Halves(s.mapInfo, setTried, mapNew)
    ensures NewSoFar(h, s, mapNew, 0, 0)
  {
    forall id
      ensures NewLeft(s, mapNew, 0, 0, id)
    {
      assert EntryPasses(s, id);
      assert Behind(s.vvNew, id, 0, 0) == {};
    }
  }

  lemma NewEnds(h: Hashing, s: State, left: map<int, int>)
    requires NewSoFar(h, s, left, NEW_BUCKET_COUNT, 0)
    ensures left == map[] <==> NewTablePasses(h, s)
  {
    forall c
      ensures NewPasses(h, s, c)
    {
      assert NewBehind(h, s, NEW_BUCKET_COUNT, 0, c);
    }
    forall id
      ensures id in left <==> !CountExact(s, id)
    {
      assert NewLeft(s, left, NEW_BUCKET_COUNT, 0, id);
      assert Behind(s.vvNew, id, NEW_BUCKET_COUNT, 0) == RefsIn(s.vvNew, id);
    }
    hide CountExact, NewSoFar, NewPasses;
    if forall id :: CountExact(s, id) {
      forall id
        ensures id !in left
      {
        assert CountExact(s, id);
      }
      assert left == map[];
    }
  }

  method CheckNew(a: A.AddrMan, mapNew: map<int, int>) returns (r: int, left: map<int, int>)
    requires NewSoFar(a.h, a.Snapshot(), mapNew, 0, 0)
    ensures r == 0 && left == map[] <==> NewTablePasses(a.h, a.Snapshot())
  {
    hide NewSoFar, NewTablePasses;
    left := mapNew;
    var n := 0;
    while n < NEW_BUCKET_COUNT
      invariant 0 <= n <= NEW_BUCKET_COUNT && NewSoFar(a.h, a.Snapshot(), left, n, 0)
    {
      var i := 0;
      while i < BUCKET_SIZE
        invariant 0 <= i <= BUCKET_SIZE && NewSoFar(a.h, a.Snapshot(), left, n, i)
      {
        var c := Cell(n, i);
        if NewFails(a.h, a.Snapshot(), left, c) {
          NewFailing(a.h, a.Snapshot(), left, n, i);
        } else {
          NewNext(a.h, a.Snapshot(), left, n, i);
        }
        if c in a.vvNew {
          var id := a.vvNew[c];
          if id !in left { return -12, left; }
          if id !in a.mapInfo || GetBucketPosition(a.h, a.nKey, a.mapInfo[id].Service(), true, n) != i { return -19,
              left; }
          left := Counted(left, id);
        }
        i := i + 1;
      }
      NewNextBucket(a.h, a.Snapshot(), left, n);
      n := n + 1;
    }
    NewEnds(a.h, a.Snapshot(), left);
    r := 0;
  }

  // ----- Check_ as a whole -----

  /** 0 exactly if everything Check_ looks at is in order and the key is not null; if the sizes add up,
      the first bad entry of mapInfo decides the code. */
  method Check(a: A.AddrMan, order: seq<int>) returns (r: int)
    requires D.Enumerates(order, a.mapInfo) && forall k :: 0 <= k < |order| ==> order[k] in a.mapInfo
    ensures r == 0 <==> InOrder(a.h, a.Snapshot()) && a.nKey != 0
    ensures r == -16 <== InOrder(a.h, a.Snapshot()) && a.nKey == 0
    ensures |a.vRandom| == a.nTried + a.nNew && !FirstCode(a.Snapshot(), order, 0) ==> FirstCode(a.Snapshot(), order, r)
  {
    hide EntryPasses, FirstCode, TriedSits, TriedTablePasses, NewTablePasses, TriedIds, NewIds, NewSoFar, D.Enumerates;
    ghost var s := a.Snapshot();
    AllPass(s, order);
    if |a.vRandom| != a.nTried + a.nNew { return -7; }
    var code, setTried, mapNew := CheckInfos(a, order);
    if code != 0 {
      OneCode(s, order, code);
      return code;
    }
    assert |mapNew| == |mapNew.Keys|;
    if |setTried| != a.nTried { return -9; }
    if |mapNew| != a.nNew { return -10; }
    NewStarts(a.h, s, setTried, mapNew);
    var triedCode, triedLeft := CheckTried(a, setTried);
    if triedCode != 0 { return triedCode; }
    var newCode, newLeft := CheckNew(a, mapNew);
    if newCode != 0 { return newCode; }
    if |triedLeft| != 0 { return -13; }
    if |newLeft| != 0 { return -15; }
    if a.nKey == 0 { return -16; }
    return 0;
  }

  lemma OneCode(s: State, order: seq<int>, r: int)
    requires forall k :: 0 <= k < |order| ==> order[k] in s.mapInfo
    requires FirstCode(s, order, r) && r != 0
    ensures !FirstCode(s, order, 0)
  {
  }

  // ----- what an accepted manager is -----

  /** What Check_ does not look at: the range of ids, the addresses that lead nowhere, whether the
      address of entry 0 is known at all, and cells outside the tables. */
  ghost predicate Unseen(s: State) {
    && 0 <= s.nIdCount && (forall id :: id in s.mapInfo ==> 0 <= id < s.nIdCount)
    && (forall a :: AddrOk(s, a)) && (0 in s.mapInfo ==> s.mapInfo[0].Ip() in s.mapAddr)
    && (forall c :: c in s.vvTried ==> InTable(c, TRIED_BUCKET_COUNT)) &&
        (forall c :: c in s.vvNew ==> InTable(c, NEW_BUCKET_COUNT))
  }

  ghost function Ids(v: seq<int>): set<int> { set id | id in v }

  lemma {:induction false} IdsAtMost(v: seq<int>)
    ensures |Ids(v)| <= |v|
  {
    if v != [] {
      var n := |v| - 1;
      IdsAtMost(v[..n]);
      assert Ids(v) == Ids(v[..n]) + {v[n]};
    }
  }

  lemma IdsFewer(v: seq<int>, i: int, j: int)
    requires 0 <= i < j < |v| && v[i] == v[j]
    ensures |Ids(v)| < |v|
  {
    var w := v[..j] + v[j + 1..];
    IdsAtMost(w);
    assert Ids(w) == Ids(v) by {
      assert w[i] == v[j];
      forall k | 0 <= k < |v|
        ensures v[k] in w
      {
        if k < j { assert w[k] == v[k]; }
        if k > j { assert w[k - 1] == v[k]; }
      }
    }
  }

  lemma SameSize(a: set<int>, b: set<int>)
    requires a <= b && |a| >= |b|
    ensures a == b
  {
    assert b == a + (b - a);
    assert |b - a| == 0;
  }

  ghost predicate Knows(s: State, id: int) {
    id in s.mapInfo ==> 0 <= s.mapInfo[id].nRandomPos < |s.vRandom| && s.vRandom[s.mapInfo[id].nRandomPos] == id
  }

  /** If the sizes add up and every entry knows its place in vRandom, no place is left over. */
  lemma NoPlaceLeft(s: State, i: int)
    requires |s.vRandom| == |s.mapInfo| && forall id :: Knows(s, id)
    ensures PosOk(s, i)
  {
    var keys := s.mapInfo.Keys;
    forall id | id in keys
      ensures id in Ids(s.vRandom)
    {
      assert Knows(s, id);
    }
    IdsAtMost(s.vRandom);
    assert |keys| == |s.mapInfo|;
    SameSize(keys, Ids(s.vRandom));
    if 0 <= i < |s.vRandom| {
      var id := s.vRandom[i];
      assert id in Ids(s.vRandom) && Knows(s, id);
      var p := s.mapInfo[id].nRandomPos;
      if p < i { IdsFewer(s.vRandom, p, i); }
      if i < p { IdsFewer(s.vRandom, i, p); }
    }
  }

  lemma RefsInAll(s: State, id: int)
    requires Unseen(s)
    ensures RefsIn(s.vvNew, id) == Refs(s.vvNew, id)
  {
  }

  lemma EntryIsOk(h: Hashing, s: State, id: int)
    requires InOrder(h, s) && Unseen(s)
    ensures IdOk(h, s, {}, id) && StampOk(s, id)
  {
    assert EntryPasses(s, id) && TriedSits(h, s, id) && CountExact(s, id);
    RefsInAll(s, id);
    hide InOrder, Unseen, RefsIn, Refs, TriedCell;
  }

  lemma Sizes(m: map<int, Info>)
    ensures |TriedIds(m)| + |NewIds(m)| == |m|
  {
    assert m.Keys == TriedIds(m) + NewIds(m);
    assert TriedIds(m) !! NewIds(m);
  }

  /** Check_ and what it does not look at make up the whole invariant. */
  lemma AcceptedIsConsistent(h: Hashing, s: State)
    requires InOrder(h, s) && Unseen(s)
    ensures Inv(h, s, {}, {}) && Stamped(s)
  {
    Sizes(s.mapInfo);
    assert NewIds(s.mapInfo) - {} == NewIds(s.mapInfo);
    forall id
      ensures IdOk(h, s, {}, id) && StampOk(s, id)
    {
      EntryIsOk(h, s, id);
    }
    forall i
      ensures PosOk(s, i)
    {
      forall id
        ensures Knows(s, id)
      {
        assert IdOk(h, s, {}, id);
      }
      NoPlaceLeft(s, i);
    }
    forall c
      ensures TriedCellOk(h, s, c) && NewCellOk(h, s, c)
    {
      assert TriedPasses(h, s, c) && NewPasses(h, s, c);
    }
  }

  lemma UnseenHolds(h: Hashing, s: State)
    requires Inv(h, s, {}, {})
    ensures Unseen(s)
  {
    forall id | id in s.mapInfo
      ensures 0 <= id < s.nIdCount && s.mapInfo[id].Ip() in s.mapAddr
    {
      assert IdOk(h, s, {}, id);
    }
    forall c
      ensures (c in s.vvTried ==> InTable(c, TRIED_BUCKET_COUNT)) && (c in s.vvNew ==> InTable(c, NEW_BUCKET_COUNT))
    {
      assert TriedCellOk(h, s, c) && NewCellOk(h, s, c);
    }
  }

  lemma ConsistentIsAccepted(h: Hashing, s: State)
    requires Inv(h, s, {}, {}) && Stamped(s)
    ensures InOrder(h, s)
  {
    UnseenHolds(h, s);
    SizeIsTriedPlusNew(h, s);
    assert NewIds(s.mapInfo) - {} == NewIds(s.mapInfo);
    forall id
      ensures EntryPasses(s, id) && TriedSits(h, s, id) && CountExact(s, id)
    {
      assert IdOk(h, s, {}, id) && StampOk(s, id);
      RefsInAll(s, id);
    }
    forall c
      ensures TriedPasses(h, s, c) && NewPasses(h, s, c)
    {
      assert TriedCellOk(h, s, c) && NewCellOk(h, s, c);
    }
  }

  /** Exactly the consistent and stamped managers pass and have nothing wrong that Check_ overlooks. */
  lemma AcceptedExactly(h: Hashing, s: State)
    ensures InOrder(h, s) && Unseen(s) <==> Inv(h, s, {}, {}) && Stamped(s)
  {
    hide InOrder, Unseen, Inv, Stamped;
    if InOrder(h, s) && Unseen(s) { AcceptedIsConsistent(h, s); }
    if Inv(h, s, {}, {}) && Stamped(s) {
      ConsistentIsAccepted(h, s);
      UnseenHolds(h, s);
    }
  }

  // ----- runs -----

  lemma RandomEnumerates(h: Hashing, s: State)
    requires Inv(h, s, {}, {})
    ensures D.Enumerates(s.vRandom, s.mapInfo) && forall k :: 0 <= k < |s.vRandom| ==> s.vRandom[k] in s.mapInfo
  {
    forall k | 0 <= k < |s.vRandom|
      ensures s.vRandom[k] in s.mapInfo && s.mapInfo[s.vRandom[k]].nRandomPos == k
    {
      assert PosOk(s, k);
    }
    forall id | id in s.mapInfo
      ensures id in s.vRandom
    {
      assert IdOk(h, s, {}, id);
    }
  }

  /** Check_ of a manager that is consistent and stamped, going through the entries in some order. */
  method CheckNow(a: A.AddrMan) returns (code: int)
    requires a.Valid()
    ensures Stamped(a.Snapshot()) ==> code == if a.nKey == 0 then -16 else 0
    ensures !Stamped(a.Snapshot()) ==> code != 0
  {
    hide Inv, InOrder, D.Enumerates, FirstCode, Stamped;
    RandomEnumerates(a.h, a.Snapshot());
    AcceptedExactly(a.h, a.Snapshot());
    UnseenHolds(a.h, a.Snapshot());
    code := Check(a, a.vRandom);
  }

  datatype Op =
    | Add(addr: Address, source: NetAddr, penalty: int, now: int, rnd: nat)
    | Good(service: Service, testBeforeEvict: bool, now: int, rnd: nat)
    | Attempt(service: Service, fCountFailure: bool, now: int)
    | Connected(service: Service, now: int)
    | GetAddr(maxAddresses: nat, maxPct: nat, network: Option<nat>, now: int, draws: nat -> nat)
    | ResolveCollisions(now: int, rnd: nat)
    | SelectTriedCollision(id: int)
    | Restart(asmap: nat, key: nat)

  /** The operations that stamp an entry are given a clock that runs. */
  predicate ClockRuns(op: Op) { op.Good? || op.Attempt? || op.ResolveCollisions? ==> op.now > 0 }

  method Execute(a: A.AddrMan, op: Op) returns (b: A.AddrMan)
    requires a.Valid() && Stamped(a.Snapshot()) && ClockRuns(op)
    modifies a
    ensures b.Valid() && Stamped(b.Snapshot()) && b.h == a.h && b.nKey == old(a.nKey) && (b == a || fresh(b))
  {
    hide Inv, CollisionsOk, Stamped;
    b := a;
    match op
    case Add(addr, source, penalty, now, rnd) => var _ := a.Add(addr, source, penalty, now, rnd);
    case Good(service, testBeforeEvict, now, rnd) => a.Good(service, testBeforeEvict, now, rnd);
    case Attempt(service, fCountFailure, now) => a.Attempt(service, fCountFailure, now);
    case Connected(service, now) => a.Connected(service, now);
    case GetAddr(maxAddresses, maxPct, network, now, draws) => var _,
        _ := a.GetAddr(maxAddresses, maxPct, network, now, draws);
    case ResolveCollisions(now, rnd) => var _ := a.ResolveCollisions(now, rnd);
    case SelectTriedCollision(id) =>
      if a.collisions == {} || id in a.collisions {
        var _ := a.SelectTriedCollision(id);
      }
    case Restart(asmap, key) =>
      RandomEnumerates(a.h, a.Snapshot());
      b := new A.AddrMan(a.h, key);
      var _ := D.Reload(a, b, a.vRandom, asmap, key);
  }

  /** Every run of operations from an empty manager, restarts included, ends in a manager that is
      consistent and that Check_ accepts. */
  method Run(h: Hashing, key: nat, ops: seq<Op>) returns (a: A.AddrMan, code: int)
    requires forall k :: 0 <= k < |ops| ==> ClockRuns(ops[k])
    ensures a.Valid() && Stamped(a.Snapshot()) && code == if key == 0 then -16 else 0
  {
    hide Inv, CollisionsOk, Stamped;
    a := new A.AddrMan(h, key);
    for k := 0 to |ops|
      invariant a.Valid() && Stamped(a.Snapshot()) && a.h == h && a.nKey == key && fresh(a)
    {
      a := Execute(a, ops[k]);
    }
    code := CheckNow(a);
  }

  /** The first address added gets id 0 and a cell. */
  lemma FirstAdded(h: Hashing, key: nat, s: State, addr: Address, source: NetAddr, penalty: int, now: int, rnd: nat)
    requires A.AddSteps(h, State(key, 0, map[], map[], [], 0, map[], 0, map[], {}), s, addr, source, penalty, now, rnd)
    ensures s.mapInfo.Keys == {0} && s.mapInfo[0].Service() == addr.service && !s.mapInfo[0].fInTried &&
        s.vvTried == map[]
    ensures s.nKey == key
  {
    var none := State(key, 0, map[], map[], [], 0, map[], 0, map[], {});
    var s1 := Create(none, addr.(nTime := A.Max0(addr.nTime - penalty)), source);
    assert s1.mapInfo.Keys == {0} && s1.vvNew == map[];
    var c := A.SourceCell(h, key, addr.service, source);
    assert A.GivesWay(s1, 0, c, now) && Get(s1.vvNew, c) == -1;
    assert forall x :: x in s.mapInfo ==> x in s1.mapInfo;
  }

  lemma MarkedAtZero(h: Hashing, s: State, s': State, service: Service, testBeforeEvict: bool)
    requires 0 in s.mapInfo && s.mapInfo[0].Service() == service && !s.mapInfo[0].fInTried && s.vvTried == map[]
    requires Find(s.mapAddr, service.ip) == 0 && A.GoodEffect(h, s, s', service, testBeforeEvict, 0)
    ensures 0 in s'.mapInfo && InfoCode(s', 0) == -1
  {
  }

  lemma OnlyZero(m: map<int, Info>)
    requires m.Keys == {0}
    ensures D.Enumerates([0], m)
  {
    assert forall id :: id in m <==> id in m.Keys;
  }

  lemma OnlyCode(s: State, id: int)
    requires id in s.mapInfo && InfoCode(s, id) != 0
    ensures [id][0] == id && !FirstCode(s, [id], 0)
  {
  }

  lemma SameCode(s: State, id: int, r: int)
    requires id in s.mapInfo && [id][0] == id && InfoCode(s, id) != 0 && FirstCode(s, [id], r)
    ensures r == InfoCode(s, id)
  {
  }

  /** With the clock at zero the promise fails: add an address to an empty manager and mark it good, and
      Check_ reports a tried entry without a success. */
  method ClockAtZero(h: Hashing, key: nat, addr: Address, source: NetAddr, now: int, rnd: nat) returns (before: int,
      after: int)
    requires h.routable(addr.service.ip)
    ensures before == (if key == 0 then -16 else 0) && after == -1
  {
    hide Inv, CollisionsOk, Stamped, D.Enumerates, A.GoodEffect, A.AddSteps, A.AddEffect, A.KeepsStamps, InfoCode,
        InOrder;
    var a := new A.AddrMan(h, key);
    var _ := a.Add(addr, source, 0, now, rnd);
    FirstAdded(h, key, a.Snapshot(), addr, source, 0, now, rnd);
    before := CheckNow(a);
    ghost var s := a.Snapshot();
    IdAt(h, s, 0, {}, {});
    a.Good(addr.service, true, 0, rnd);
    MarkedAtZero(h, s, a.Snapshot(), addr.service, true);
    SizeIsTriedPlusNew(h, a.Snapshot());
    OnlyZero(a.mapInfo);
    OnlyCode(a.Snapshot(), 0);
    after := Check(a, [0]);
    SameCode(a.Snapshot(), 0, after);
  }
}
