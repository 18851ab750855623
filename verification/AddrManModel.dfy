/**
 The tables of the address manager (src/addrman.h, src/addrman.cpp) as values: what `Check_` demands
 of them and how the internal operations change them. An empty bucket cell (-1 in the source) is an
 absent key; the keyed hashes are fixed but arbitrary functions.
 */
module AddrManModel {

  const TRIED_BUCKET_COUNT: nat := 256
  const NEW_BUCKET_COUNT: nat := 1024
  const BUCKET_SIZE: nat := 64
  const NEW_BUCKETS_PER_ADDRESS: nat := 8
  const HORIZON_DAYS: int := 30
  const RETRIES: int := 3
  const MAX_FAILURES: int := 10
  const MIN_FAIL_DAYS: int := 7
  const REPLACEMENT_HOURS: int := 4
  const SET_TRIED_COLLISION_SIZE: nat := 10
  const TEST_WINDOW: int := 40 * 60

  type NetAddr = nat
  datatype Service = Service(ip: NetAddr, port: nat)
  datatype Address = Address(service: Service, nTime: int, nServices: set<nat>)

  /** What is known about a peer. */
  datatype Peer = Peer(
    addr: Address, source: NetAddr, nLastTry: int, nLastCountAttempt: int, nLastSuccess: int, nAttempts: int)

  /** A peer and its place in the tables. */
  datatype Info = Info(peer: Peer, nRefCount: int, fInTried: bool, nRandomPos: int) {
    function Service(): Service { peer.addr.service }
    function Ip(): NetAddr { peer.addr.service.ip }
  }

  /** The keyed hashes, address grouping included, and the classification of addresses. */
  datatype Hashing = Hashing(
    tried: (nat, Service) -> nat, newBucket: (nat, Service, NetAddr) -> nat, position: (nat, Service, bool, nat) -> nat,
    routable: NetAddr -> bool, valid: NetAddr -> bool, network: NetAddr -> nat)

  datatype Cell = Cell(bucket: nat, pos: nat)

  function GetTriedBucket(h: Hashing, key: nat, s: Service): nat { h.tried(key, s) % TRIED_BUCKET_COUNT }
  function GetNewBucket(h: Hashing, key: nat, s: Service,
      src: NetAddr): nat { h.newBucket(key, s, src) % NEW_BUCKET_COUNT }
  function GetBucketPosition(h: Hashing, key: nat, s: Service, fNew: bool, bucket: nat): nat {
    h.position(key, s, fNew, bucket) % BUCKET_SIZE
  }

  function TriedCell(h: Hashing, key: nat, s: Service): Cell {
    var b := GetTriedBucket(h, key, s);
    Cell(b, GetBucketPosition(h, key, s, false, b))
  }

  /** The only cell of a new bucket that can hold the address. */
  function NewCell(h: Hashing, key: nat, s: Service, bucket: nat): Cell {
    Cell(bucket, GetBucketPosition(h, key, s, true, bucket))
  }

  predicate IsTerrible(p: Peer, now: int) {
    if p.nLastTry != 0 && p.nLastTry >= now - 60 then false
    else
      || p.addr.nTime > now + 10 * 60
      || p.addr.nTime == 0 || now - p.addr.nTime > HORIZON_DAYS * 24 * 60 * 60
      || (p.nLastSuccess == 0 && p.nAttempts >= RETRIES)
      || (now - p.nLastSuccess > MIN_FAIL_DAYS * 24 * 60 * 60 && p.nAttempts >= MAX_FAILURES)
  }

  /** In days and minutes: never within a minute of a try, and else if its time is more than ten minutes
      ahead, unknown or thirty days back, if three tries brought no success at all, or if ten tries have
      failed and the last success is a week back. */
  lemma TerribleMeans(p: Peer, now: int)
    ensures var minute, day := 60, 86400;
      IsTerrible(p, now) <==>
        && (p.nLastTry == 0 || now - p.nLastTry > minute)
        && (|| p.addr.nTime - now > 10 * minute || p.addr.nTime == 0 || now - p.addr.nTime > 30 * day
            || (p.nAttempts >= 3 && p.nLastSuccess == 0) || (p.nAttempts >= 10 && now - p.nLastSuccess > 7 * day))
  {
  }

  type Table = map<Cell, int>

  datatype State = State(
    nKey: nat, nIdCount: int, mapInfo: map<int, Info>, mapAddr: map<NetAddr, int>, vRandom: seq<int>,
    nTried: int, vvTried: Table, nNew: int, vvNew: Table, collisions: set<int>)

  // ----- the invariant of Check_ -----

  /** The cells of a table that hold id. */
  function Refs(t: Table, id: int): set<Cell> { set c | c in t && t[c] == id }

  function TriedIds(m: map<int, Info>): set<int> { set id | id in m && m[id].fInTried }
  function NewIds(m: map<int, Info>): set<int> { set id | id in m && !m[id].fInTried }

  function Get(t: Table, c: Cell): int { if c in t then t[c] else -1 }
  function Find(m: map<NetAddr, int>, a: NetAddr): int { if a in m then m[a] else -1 }

  /** What holds of an id: mapAddr leads back to it, it knows its place in vRandom, and it sits in
      exactly its own tried cell, or else in exactly nRefCount new cells, at most eight. Only ids in
      `zero` may have no cell at all. */
  ghost predicate IdOk(h: Hashing, s: State, zero: set<int>, id: int) {
    id in s.mapInfo ==>
      var info := s.mapInfo[id];
      && 0 <= id < s.nIdCount
      && info.Ip() in s.mapAddr && s.mapAddr[info.Ip()] == id
      && 0 <= info.nRandomPos < |s.vRandom| && s.vRandom[info.nRandomPos] == id
      && if info.fInTried then info.nRefCount == 0 && Get(s.vvTried, TriedCell(h, s.nKey, info.Service())) == id
         else info.nRefCount == |Refs(s.vvNew, id)| <= NEW_BUCKETS_PER_ADDRESS && (id !in zero ==> info.nRefCount > 0)
  }

  ghost predicate AddrOk(s: State, a: NetAddr) {
    a in s.mapAddr ==> s.mapAddr[a] in s.mapInfo && s.mapInfo[s.mapAddr[a]].Ip() == a
  }

  ghost predicate PosOk(s: State, i: int) {
    0 <= i < |s.vRandom| ==> s.vRandom[i] in s.mapInfo && s.mapInfo[s.vRandom[i]].nRandomPos == i
  }

  /** A tried cell holds a tried id that belongs there. */
  ghost predicate TriedCellOk(h: Hashing, s: State, c: Cell) {
    c in s.vvTried ==>
      s.vvTried[c] in s.mapInfo && s.mapInfo[s.vvTried[c]].fInTried &&
          c == TriedCell(h, s.nKey, s.mapInfo[s.vvTried[c]].Service())
  }

  /** A new cell holds a new id, at the position its bucket allows. */
  ghost predicate NewCellOk(h: Hashing, s: State, c: Cell) {
    c in s.vvNew ==>
      && s.vvNew[c] in s.mapInfo && !s.mapInfo[s.vvNew[c]].fInTried
      && c.bucket < NEW_BUCKET_COUNT && c == NewCell(h, s.nKey, s.mapInfo[s.vvNew[c]].Service(), c.bucket)
  }

  /** The invariant in the middle of an operation: ids in `zero` may have lost all their cells, and
      ids in `uncounted` are not in nNew. */
  ghost predicate Inv(h: Hashing, s: State, zero: set<int>, uncounted: set<int>) {
    && (forall id :: IdOk(h, s, zero, id)) && (forall a :: AddrOk(s, a)) && (forall i :: PosOk(s, i))
    && (forall c :: TriedCellOk(h, s, c)) && (forall c :: NewCellOk(h, s, c))
    && 0 <= s.nIdCount
    && s.nTried == |TriedIds(s.mapInfo)|
    && s.nNew == |NewIds(s.mapInfo) - uncounted|
  }

  /** A colliding id waits for a tried cell that is occupied. */
  ghost predicate CollisionOk(h: Hashing, s: State, id: int) {
    id in s.collisions ==>
      0 <= id < s.nIdCount && (id in s.mapInfo ==> TriedCell(h, s.nKey, s.mapInfo[id].Service()) in s.vvTried)
  }

  ghost predicate CollisionsOk(h: Hashing, s: State) {
    |s.collisions| <= SET_TRIED_COLLISION_SIZE && forall id :: CollisionOk(h, s, id)
  }

  /** The time stamps Check_ looks at. */
  predicate StampOk(s: State, id: int) {
    id in s.mapInfo ==>
      var p := s.mapInfo[id].peer;
      p.nLastTry >= 0 && p.nLastSuccess >= 0 && (s.mapInfo[id].fInTried ==> p.nLastSuccess != 0)
  }

  ghost predicate Stamped(s: State) { forall id :: StampOk(s, id) }

  ghost predicate Consistent(h: Hashing, s: State) {
    Inv(h, s, {}, {}) && CollisionsOk(h, s)
  }

  // ----- the internal operations -----

  predicate SwapOk(s: State, i: int, j: int) {
    0 <= i < |s.vRandom| && 0 <= j < |s.vRandom| && s.vRandom[i] in s.mapInfo && s.vRandom[j] in s.mapInfo
  }

  function SwapRandom(s: State, i: int, j: int): State
    requires SwapOk(s, i, j)
  {
    if i == j then s
    else
      var a, b := s.vRandom[i], s.vRandom[j];
      var m := s.mapInfo[a := s.mapInfo[a].(nRandomPos := j)];
      s.(mapInfo := m[b := m[b].(nRandomPos := i)], vRandom := s.vRandom[i := b][j := a])
  }

  function Delete(s: State, id: int): State
    requires id in s.mapInfo && SwapOk(s, s.mapInfo[id].nRandomPos, |s.vRandom| - 1)
  {
    PopLast(SwapRandom(s, s.mapInfo[id].nRandomPos, |s.vRandom| - 1), id)
  }

  function PopLast(s: State, id: int): State
    requires id in s.mapInfo && s.vRandom != []
  {
    s.(vRandom := s.vRandom[..|s.vRandom| - 1], mapAddr := s.mapAddr - {s.mapInfo[id].Ip()},
       mapInfo := s.mapInfo - {id}, nNew := s.nNew - 1)
  }

  /** Take one reference of the entry in cell c away, without deleting the entry. */
  function DropRef(s: State, c: Cell): State
    requires c in s.vvNew && s.vvNew[c] in s.mapInfo
  {
    var id := s.vvNew[c];
    s.(vvNew := s.vvNew - {c}, mapInfo := s.mapInfo[id := s.mapInfo[id].(nRefCount := s.mapInfo[id].nRefCount - 1)])
  }

  predicate ClearOk(s: State, c: Cell) {
    c in s.vvNew ==> s.vvNew[c] in s.mapInfo && SwapOk(s, s.mapInfo[s.vvNew[c]].nRandomPos, |s.vRandom| - 1)
  }

  /** Empty a cell of the new table; an entry without references is deleted. */
  function ClearNew(s: State, c: Cell): State
    requires ClearOk(s, c)
  {
    if c !in s.vvNew then s
    else
      var s1 := DropRef(s, c);
      if s1.mapInfo[s.vvNew[c]].nRefCount == 0 then Delete(s1, s.vvNew[c]) else s1
  }

  // ----- what they keep -----

  /** Two infos that differ at most in their place in vRandom. */
  predicate SameEntry(a: Info, b: Info) { a.peer == b.peer && a.nRefCount == b.nRefCount && a.fInTried == b.fInTried }

  /** Everything but the order of vRandom is the same. */
  ghost predicate Shuffled(s: State, s': State) {
    && s'.(mapInfo := s.mapInfo, vRandom := s.vRandom) == s && |s'.vRandom| == |s.vRandom|
    && s'.mapInfo.Keys == s.mapInfo.Keys
    && forall id :: id in s.mapInfo ==> SameEntry(s'.mapInfo[id], s.mapInfo[id])
  }

  lemma SwapShuffles(s: State, i: int, j: int)
    requires SwapOk(s, i, j)
    ensures Shuffled(s, SwapRandom(s, i, j))
  {
  }

  lemma SameIds(m: map<int, Info>, m': map<int, Info>)
    requires m.Keys == m'.Keys && forall id :: id in m ==> m[id].fInTried == m'[id].fInTried
    ensures TriedIds(m) == TriedIds(m') && NewIds(m) == NewIds(m')
  {
    forall id ensures (id in TriedIds(m) <==> id in TriedIds(m')) && (id in NewIds(m) <==> id in NewIds(m')) {
      assert id in m.Keys <==> id in m'.Keys;
      if id in m { assert m[id].fInTried == m'[id].fInTried; }
    }
  }

  lemma SwapKeeps(h: Hashing, s: State, i: int, j: int, zero: set<int>, uncounted: set<int>)
    requires Inv(h, s, zero, uncounted) && SwapOk(s, i, j)
    ensures Inv(h, SwapRandom(s, i, j), zero, uncounted)
  {
    var s' := SwapRandom(s, i, j);
    SwapShuffles(s, i, j);
    forall id ensures IdOk(h, s', zero, id) { SwapId(h, s, i, j, zero, uncounted, id); }
    forall a ensures AddrOk(s', a) { assert AddrOk(s, a); }
    forall k ensures PosOk(s', k) { assert PosOk(s, k) && PosOk(s, i) && PosOk(s, j); }
    forall c ensures TriedCellOk(h, s', c) { assert TriedCellOk(h, s, c); }
    forall c ensures NewCellOk(h, s', c) { assert NewCellOk(h, s, c); }
    SameIds(s.mapInfo, s'.mapInfo);
  }

  lemma SwapId(h: Hashing, s: State, i: int, j: int, zero: set<int>, uncounted: set<int>, id: int)
    requires Inv(h, s, zero, uncounted) && SwapOk(s, i, j)
    ensures IdOk(h, SwapRandom(s, i, j), zero, id)
  {
    assert IdOk(h, s, zero, id) && PosOk(s, i) && PosOk(s, j);
  }

  lemma DeleteKeeps(h: Hashing, s: State, id: int, zero: set<int>, uncounted: set<int>)
    requires Inv(h, s, zero, uncounted)
    requires id in s.mapInfo && !s.mapInfo[id].fInTried && s.mapInfo[id].nRefCount == 0 && id !in uncounted
    ensures SwapOk(s, s.mapInfo[id].nRandomPos, |s.vRandom| - 1)
    ensures Inv(h, Delete(s, id), zero - {id}, uncounted)
  {
    var last := |s.vRandom| - 1;
    assert IdOk(h, s, zero, id) && PosOk(s, last);
    assert SwapRandom(s, s.mapInfo[id].nRandomPos, last).vRandom[last] == id;
    hide IdOk, PosOk, AddrOk, TriedCellOk, NewCellOk, SwapRandom, PopLast, TriedIds, NewIds;
    SwapShuffles(s, s.mapInfo[id].nRandomPos, last);
    SwapKeeps(h, s, s.mapInfo[id].nRandomPos, last, zero, uncounted);
    assert SameEntry(SwapRandom(s, s.mapInfo[id].nRandomPos, last).mapInfo[id], s.mapInfo[id]);
    PopLastKeeps(h, SwapRandom(s, s.mapInfo[id].nRandomPos, last), id, zero, uncounted);
  }

  lemma DeleteEffect(h: Hashing, s: State, id: int, zero: set<int>, uncounted: set<int>)
    requires Inv(h, s, zero, uncounted) && id in s.mapInfo
    ensures SwapOk(s, s.mapInfo[id].nRandomPos, |s.vRandom| - 1)
    ensures var s' := Delete(s, id);
            && s'.mapInfo.Keys == s.mapInfo.Keys - {id}
            && (forall x :: x in s.mapInfo && x != id ==> SameEntry(s'.mapInfo[x], s.mapInfo[x]))
            && s'.mapAddr == s.mapAddr - {s.mapInfo[id].Ip()} && s'.vvTried == s.vvTried && s'.vvNew == s.vvNew
            && s'.nKey == s.nKey && s'.nIdCount == s.nIdCount && s'.collisions == s.collisions && s'.nTried == s.nTried
  {
    var last := |s.vRandom| - 1;
    assert IdOk(h, s, zero, id) && PosOk(s, last);
    hide IdOk, PosOk, AddrOk, TriedCellOk, NewCellOk, SwapRandom;
    SwapShuffles(s, s.mapInfo[id].nRandomPos, last);
    var s1 := SwapRandom(s, s.mapInfo[id].nRandomPos, last);
    assert SameEntry(s1.mapInfo[id], s.mapInfo[id]);
  }

  /** Deleting the id that stands last in vRandom. */
  lemma PopLastKeeps(h: Hashing, s: State, id: int, zero: set<int>, uncounted: set<int>)
    requires Inv(h, s, zero, uncounted)
    requires id in s.mapInfo && !s.mapInfo[id].fInTried && s.mapInfo[id].nRefCount == 0 && id !in uncounted
    requires s.vRandom != [] && s.vRandom[|s.vRandom| - 1] == id
    ensures Inv(h, PopLast(s, id), zero - {id}, uncounted)
  {
    var s' := PopLast(s, id);
    assert IdOk(h, s, zero, id);
    assert Refs(s.vvNew, id) == {};
    forall x ensures IdOk(h, s', zero - {id}, x) { assert IdOk(h, s, zero, x); }
    forall a ensures AddrOk(s', a) { assert AddrOk(s, a); }
    forall k ensures PosOk(s', k) { assert PosOk(s, k) && PosOk(s, |s.vRandom| - 1); }
    forall c ensures TriedCellOk(h, s', c) { assert TriedCellOk(h, s, c); }
    forall c ensures NewCellOk(h, s', c) {
      assert NewCellOk(h, s, c);
      assert c !in Refs(s.vvNew, id);
    }
    assert TriedIds(s'.mapInfo) == TriedIds(s.mapInfo);
    assert NewIds(s'.mapInfo) - uncounted == (NewIds(s.mapInfo) - uncounted) - {id};
  }

  lemma DropRefKeeps(h: Hashing, s: State, c: Cell, zero: set<int>, uncounted: set<int>)
    requires Inv(h, s, zero, uncounted) && c in s.vvNew
    ensures s.vvNew[c] in s.mapInfo && s.mapInfo[s.vvNew[c]].nRefCount > 0
    ensures Inv(h, DropRef(s, c), zero + {s.vvNew[c]}, uncounted)
  {
    assert NewCellOk(h, s, c);
    var id := s.vvNew[c];
    var s' := DropRef(s, c);
    assert IdOk(h, s, zero, id);
    assert c in Refs(s.vvNew, id);
    assert Refs(s'.vvNew, id) == Refs(s.vvNew, id) - {c};
    forall x ensures IdOk(h, s', zero + {id}, x) {
      assert IdOk(h, s, zero, x);
      if x != id { assert Refs(s'.vvNew, x) == Refs(s.vvNew, x); }
    }
    forall a ensures AddrOk(s', a) { assert AddrOk(s, a); }
    forall k ensures PosOk(s', k) { assert PosOk(s, k); }
    forall d ensures TriedCellOk(h, s', d) { assert TriedCellOk(h, s, d); }
    forall d ensures NewCellOk(h, s', d) { assert NewCellOk(h, s, d); }
    SameIds(s.mapInfo, s'.mapInfo);
  }

  /** What emptying cell c does to everyone else: nothing but a place in vRandom. */
  ghost predicate Cleared(s: State, s': State, c: Cell) {
    && s'.nKey == s.nKey && s'.nIdCount == s.nIdCount && s'.collisions == s.collisions
    && s'.vvTried == s.vvTried && s'.nTried == s.nTried && s'.vvNew == s.vvNew - {c}
    && s'.mapInfo.Keys <= s.mapInfo.Keys
    && (forall id :: id in s.mapInfo && id != Get(s.vvNew, c) ==>
        id in s'.mapInfo && SameEntry(s'.mapInfo[id], s.mapInfo[id]))
    && (forall id :: id in s'.mapInfo ==>
        s'.mapInfo[id].peer == s.mapInfo[id].peer && s'.mapInfo[id].fInTried == s.mapInfo[id].fInTried)
  }

  lemma ClearNewKeeps(h: Hashing, s: State, c: Cell, zero: set<int>, uncounted: set<int>)
    requires Inv(h, s, zero, uncounted)
    requires c in s.vvNew ==> s.vvNew[c] !in uncounted && s.vvNew[c] !in zero
    ensures ClearOk(s, c) && Inv(h, ClearNew(s, c), zero, uncounted) && Cleared(s, ClearNew(s, c), c)
    ensures c in s.vvNew ==> (s.vvNew[c] in ClearNew(s, c).mapInfo <==> s.mapInfo[s.vvNew[c]].nRefCount > 1)
  {
    if c !in s.vvNew {
      assert s.vvNew - {c} == s.vvNew;
    } else {
      var id := s.vvNew[c];
      DropRefKeeps(h, s, c, zero, uncounted);
      assert ClearOk(s, c) by { assert NewCellOk(h, s, c) && IdOk(h, s, zero, id) && PosOk(s, |s.vRandom| - 1); }
      ClearNewEffect(h, s, c, zero, uncounted);
      var s1 := DropRef(s, c);
      assert !s1.mapInfo[id].fInTried by { assert NewCellOk(h, s, c); }
      hide IdOk, PosOk, AddrOk, TriedCellOk, NewCellOk, SwapRandom, PopLast, Cleared;
      if s1.mapInfo[id].nRefCount == 0 {
        DeleteKeeps(h, s1, id, zero + {id}, uncounted);
        assert zero + {id} - {id} == zero;
      } else {
        DropRefAlive(h, s1, id, zero, uncounted);
      }
    }
  }

  lemma ClearNewEffect(h: Hashing, s: State, c: Cell, zero: set<int>, uncounted: set<int>)
    requires Inv(h, s, zero, uncounted) && c in s.vvNew && ClearOk(s, c)
    ensures Cleared(s, ClearNew(s, c), c)
    ensures s.vvNew[c] in ClearNew(s, c).mapInfo <==> s.mapInfo[s.vvNew[c]].nRefCount != 1
  {
    hide IdOk, PosOk, AddrOk, TriedCellOk, NewCellOk, Inv, Delete;
    DropRefKeeps(h, s, c, zero, uncounted);
    var s1 := DropRef(s, c);
    DeleteEffect(h, s1, s.vvNew[c], zero + {s.vvNew[c]}, uncounted);
  }

  lemma DropRefAlive(h: Hashing, s: State, id: int, zero: set<int>, uncounted: set<int>)
    requires Inv(h, s, zero + {id}, uncounted) && (id in s.mapInfo ==> s.mapInfo[id].nRefCount > 0)
    ensures Inv(h, s, zero, uncounted)
  {
    forall x ensures IdOk(h, s, zero, x) { assert IdOk(h, s, zero + {id}, x); }
  }

  // ----- entering and leaving the tables -----

  /** A new entry without any reference, counted in nNew. */
  function Create(s: State, addr: Address, source: NetAddr): State {
    var info := Info(Peer(addr, source, 0, 0, 0, 0), 0, false, |s.vRandom|);
    s.(nIdCount := s.nIdCount + 1, mapInfo := s.mapInfo[s.nIdCount := info],
       mapAddr := s.mapAddr[addr.service.ip := s.nIdCount], vRandom := s.vRandom + [s.nIdCount], nNew := s.nNew + 1)
  }

  /** Put id into an empty cell of the new table. */
  function AddRef(s: State, c: Cell, id: int): State
    requires id in s.mapInfo
  {
    s.(vvNew := s.vvNew[c := id], mapInfo := s.mapInfo[id := s.mapInfo[id].(nRefCount := s.mapInfo[id].nRefCount + 1)])
  }

  /** Take id out of every new bucket. */
  function RemoveRefs(s: State, id: int): State
    requires id in s.mapInfo
  {
    s.(vvNew := s.vvNew - Refs(s.vvNew, id), mapInfo := s.mapInfo[id := s.mapInfo[id].(nRefCount := 0)],
        nNew := s.nNew - 1)
  }

  /** Take the entry out of tried cell c. */
  function Evict(s: State, c: Cell): State
    requires c in s.vvTried && s.vvTried[c] in s.mapInfo
  {
    var id := s.vvTried[c];
    s.(vvTried := s.vvTried - {c}, mapInfo := s.mapInfo[id := s.mapInfo[id].(fInTried := false)],
        nTried := s.nTried - 1)
  }

  function EnterTried(s: State, c: Cell, id: int): State
    requires id in s.mapInfo
  {
    s.(vvTried := s.vvTried[c := id], mapInfo := s.mapInfo[id := s.mapInfo[id].(fInTried := true)],
        nTried := s.nTried + 1)
  }

  lemma CreateKeeps(h: Hashing, s: State, addr: Address, source: NetAddr, zero: set<int>, uncounted: set<int>)
    requires Inv(h, s, zero, uncounted) && addr.service.ip !in s.mapAddr
    requires forall id :: id in uncounted ==> id < s.nIdCount
    ensures Inv(h, Create(s, addr, source), zero + {s.nIdCount}, uncounted)
    ensures s.nIdCount !in s.mapInfo
  {
    var s' := Create(s, addr, source);
    CreateIsNew(h, s, zero, uncounted);
    CreateCounts(s, addr, source, uncounted);
    CreateIndex(h, s, addr, source, zero, uncounted);
    CreateTables(h, s, addr, source, zero, uncounted);
    hide TriedIds, NewIds, Refs, AddrOk, PosOk, TriedCellOk, NewCellOk, IdOk;
    forall x ensures IdOk(h, s', zero + {s.nIdCount}, x) { CreateId(h, s, addr, source, zero, uncounted, x); }
  }

  lemma CreateIndex(h: Hashing, s: State, addr: Address, source: NetAddr, zero: set<int>, uncounted: set<int>)
    requires Inv(h, s, zero, uncounted) && s.nIdCount !in s.mapInfo
    ensures forall a :: AddrOk(Create(s, addr, source), a)
    ensures forall k :: PosOk(Create(s, addr, source), k)
  {
    var s' := Create(s, addr, source);
    forall a ensures AddrOk(s', a) { assert AddrOk(s, a); }
    forall k ensures PosOk(s', k) { assert PosOk(s, k); }
  }

  lemma CreateTables(h: Hashing, s: State, addr: Address, source: NetAddr, zero: set<int>, uncounted: set<int>)
    requires Inv(h, s, zero, uncounted) && s.nIdCount !in s.mapInfo
    ensures forall c :: TriedCellOk(h, Create(s, addr, source), c)
    ensures forall c :: NewCellOk(h, Create(s, addr, source), c)
  {
    var s' := Create(s, addr, source);
    forall c ensures TriedCellOk(h, s', c) { assert TriedCellOk(h, s, c); }
    forall c ensures NewCellOk(h, s', c) { assert NewCellOk(h, s, c); }
  }

  lemma CreateIsNew(h: Hashing, s: State, zero: set<int>, uncounted: set<int>)
    requires Inv(h, s, zero, uncounted)
    ensures s.nIdCount !in s.mapInfo && Refs(s.vvNew, s.nIdCount) == {}
  {
    assert IdOk(h, s, zero, s.nIdCount);
    forall c | c in s.vvNew ensures s.vvNew[c] != s.nIdCount { assert NewCellOk(h, s, c); }
  }

  lemma CreateCounts(s: State, addr: Address, source: NetAddr, uncounted: set<int>)
    requires s.nIdCount !in s.mapInfo && s.nIdCount !in uncounted
    ensures var m := Create(s, addr, source).mapInfo;
            TriedIds(m) == TriedIds(s.mapInfo) && |NewIds(m) - uncounted| == |NewIds(s.mapInfo) - uncounted| + 1
  {
    var m := Create(s, addr, source).mapInfo;
    assert m == s.mapInfo[s.nIdCount := m[s.nIdCount]] && !m[s.nIdCount].fInTried;
    hide Create;
    assert TriedIds(m) == TriedIds(s.mapInfo);
    assert NewIds(m) - uncounted == (NewIds(s.mapInfo) - uncounted) + {s.nIdCount};
  }

  lemma CreateId(h: Hashing, s: State, addr: Address, source: NetAddr, zero: set<int>, uncounted: set<int>, x: int)
    requires Inv(h, s, zero, uncounted) && addr.service.ip !in s.mapAddr && s.nIdCount >= 0
    requires Refs(s.vvNew, s.nIdCount) == {} && s.nIdCount !in s.mapInfo
    ensures IdOk(h, Create(s, addr, source), zero + {s.nIdCount}, x)
  {
    assert IdOk(h, s, zero, x);
    var s' := Create(s, addr, source);
    if x in s.mapInfo {
      assert s'.mapInfo[x] == s.mapInfo[x] && s'.vRandom[s.mapInfo[x].nRandomPos] == x;
    }
  }

  lemma AddRefKeeps(h: Hashing, s: State, c: Cell, id: int, zero: set<int>, uncounted: set<int>)
    requires Inv(h, s, zero, uncounted) && id in s.mapInfo && !s.mapInfo[id].fInTried && c !in s.vvNew
    requires s.mapInfo[id].nRefCount < NEW_BUCKETS_PER_ADDRESS
    requires c.bucket < NEW_BUCKET_COUNT && c == NewCell(h, s.nKey, s.mapInfo[id].Service(), c.bucket)
    ensures Inv(h, AddRef(s, c, id), zero - {id}, uncounted)
  {
    var s' := AddRef(s, c, id);
    forall x ensures IdOk(h, s', zero - {id}, x) { AddRefId(h, s, c, id, zero, uncounted, x); }
    SameIds(s.mapInfo, s'.mapInfo);
    hide IdOk, TriedIds, NewIds, Refs;
    forall a ensures AddrOk(s', a) { assert AddrOk(s, a); }
    forall k ensures PosOk(s', k) { assert PosOk(s, k); }
    forall d ensures TriedCellOk(h, s', d) { assert TriedCellOk(h, s, d); }
    forall d ensures NewCellOk(h, s', d) { assert NewCellOk(h, s, d); }
  }

  lemma AddRefId(h: Hashing, s: State, c: Cell, id: int, zero: set<int>, uncounted: set<int>, x: int)
    requires Inv(h, s, zero, uncounted) && id in s.mapInfo && !s.mapInfo[id].fInTried && c !in s.vvNew
    requires s.mapInfo[id].nRefCount < NEW_BUCKETS_PER_ADDRESS
    ensures IdOk(h, AddRef(s, c, id), zero - {id}, x)
  {
    assert IdOk(h, s, zero, x);
    hide Inv, TriedCell, Refs;
    RefsAdded(s.vvNew, c, id, x);
  }

  lemma RefsAdded(t: Table, c: Cell, id: int, x: int)
    requires c !in t
    ensures |Refs(t[c := id], x)| == |Refs(t, x)| + if x == id then 1 else 0
  {
    assert Refs(t[c := id], x) == if x == id then Refs(t, x) + {c} else Refs(t, x);
  }

  lemma RemoveRefsKeeps(h: Hashing, s: State, id: int)
    requires Inv(h, s, {}, {}) && id in s.mapInfo && !s.mapInfo[id].fInTried
    ensures Inv(h, RemoveRefs(s, id), {id}, {id})
    ensures forall c :: c in RemoveRefs(s, id).vvNew ==> RemoveRefs(s, id).vvNew[c] != id
  {
    var s' := RemoveRefs(s, id);
    assert IdOk(h, s, {}, id);
    assert Refs(s'.vvNew, id) == {};
    forall x ensures IdOk(h, s', {id}, x) {
      assert IdOk(h, s, {}, x);
      if x != id { assert Refs(s'.vvNew, x) == Refs(s.vvNew, x); }
    }
    forall a ensures AddrOk(s', a) { assert AddrOk(s, a); }
    forall k ensures PosOk(s', k) { assert PosOk(s, k); }
    forall d ensures TriedCellOk(h, s', d) { assert TriedCellOk(h, s, d); }
    forall d ensures NewCellOk(h, s', d) { assert NewCellOk(h, s, d); }
    SameIds(s.mapInfo, s'.mapInfo);
    assert NewIds(s.mapInfo) - {} == NewIds(s.mapInfo) == (NewIds(s'.mapInfo) - {id}) + {id};
  }

  lemma EvictKeeps(h: Hashing, s: State, c: Cell, zero: set<int>, uncounted: set<int>)
    requires Inv(h, s, zero, uncounted) && c in s.vvTried
    ensures s.vvTried[c] in s.mapInfo
    ensures Inv(h, Evict(s, c), zero + {s.vvTried[c]}, uncounted + {s.vvTried[c]})
    ensures forall d :: d in s.vvNew ==> s.vvNew[d] != s.vvTried[c]
  {
    assert TriedCellOk(h, s, c);
    var id := s.vvTried[c];
    var s' := Evict(s, c);
    assert IdOk(h, s, zero, id);
    forall d | d in s.vvNew ensures s.vvNew[d] != id { assert NewCellOk(h, s, d); }
    assert Refs(s.vvNew, id) == {};
    forall x ensures IdOk(h, s', zero + {id}, x) { assert IdOk(h, s, zero, x); }
    forall a ensures AddrOk(s', a) { assert AddrOk(s, a); }
    forall k ensures PosOk(s', k) { assert PosOk(s, k); }
    forall d ensures TriedCellOk(h, s', d) { assert TriedCellOk(h, s, d); }
    forall d ensures NewCellOk(h, s', d) { assert NewCellOk(h, s, d); }
    assert TriedIds(s.mapInfo) == TriedIds(s'.mapInfo) + {id};
    assert NewIds(s'.mapInfo) - (uncounted + {id}) == NewIds(s.mapInfo) - uncounted by {
      assert id !in NewIds(s.mapInfo);
    }
  }

  lemma CountAgain(h: Hashing, s: State, id: int, zero: set<int>, uncounted: set<int>)
    requires Inv(h, s, zero, uncounted) && id in uncounted && id in s.mapInfo && !s.mapInfo[id].fInTried
    ensures Inv(h, s.(nNew := s.nNew + 1), zero, uncounted - {id})
  {
    var s' := s.(nNew := s.nNew + 1);
    forall x ensures IdOk(h, s', zero, x) { assert IdOk(h, s, zero, x); }
    forall a ensures AddrOk(s', a) { assert AddrOk(s, a); }
    forall k ensures PosOk(s', k) { assert PosOk(s, k); }
    forall d ensures TriedCellOk(h, s', d) { assert TriedCellOk(h, s, d); }
    forall d ensures NewCellOk(h, s', d) { assert NewCellOk(h, s, d); }
    assert NewIds(s.mapInfo) - (uncounted - {id}) == (NewIds(s.mapInfo) - uncounted) + {id};
  }

  lemma EnterTriedKeeps(h: Hashing, s: State, id: int)
    requires Inv(h, s, {id}, {id}) && id in s.mapInfo && !s.mapInfo[id].fInTried && s.mapInfo[id].nRefCount == 0
    requires TriedCell(h, s.nKey, s.mapInfo[id].Service()) !in s.vvTried
    ensures Inv(h, EnterTried(s, TriedCell(h, s.nKey, s.mapInfo[id].Service()), id), {}, {})
  {
    var s' := EnterTried(s, TriedCell(h, s.nKey, s.mapInfo[id].Service()), id);
    assert IdOk(h, s, {id}, id);
    assert Refs(s.vvNew, id) == {};
    forall x ensures IdOk(h, s', {}, x) { EnterTriedId(h, s, id, x); }
    forall a ensures AddrOk(s', a) { assert AddrOk(s, a); }
    forall k ensures PosOk(s', k) { assert PosOk(s, k); }
    forall d ensures TriedCellOk(h, s', d) { assert TriedCellOk(h, s, d); }
    forall d ensures NewCellOk(h, s', d) { assert NewCellOk(h, s, d) && d !in Refs(s.vvNew, id); }
    hide IdOk, PosOk, AddrOk, TriedCellOk, NewCellOk;
    assert TriedIds(s'.mapInfo) == TriedIds(s.mapInfo) + {id};
    assert NewIds(s'.mapInfo) - {} == NewIds(s.mapInfo) - {id};
  }

  lemma EnterTriedId(h: Hashing, s: State, id: int, x: int)
    requires Inv(h, s, {id}, {id}) && id in s.mapInfo && !s.mapInfo[id].fInTried && s.mapInfo[id].nRefCount == 0
    requires TriedCell(h, s.nKey, s.mapInfo[id].Service()) !in s.vvTried
    ensures IdOk(h, EnterTried(s, TriedCell(h, s.nKey, s.mapInfo[id].Service()), id), {}, x)
  {
    assert IdOk(h, s, {id}, x);
    hide Inv, Refs, TriedCell;
  }

  // ----- moving an entry to tried -----

  /** The cell of the new table an evicted entry goes back to: chosen by its own source. */
  function HomeCell(h: Hashing, key: nat, p: Peer): Cell {
    NewCell(h, key, p.addr.service, GetNewBucket(h, key, p.addr.service, p.source))
  }

  /** Make room in tried cell c: its entry goes back to the new table. */
  ghost function PutBack(h: Hashing, s: State, c: Cell, id: int): State
    requires Inv(h, s, {id}, {id}) && c in s.vvTried && id !in s.vvNew.Values
  {
    EvictKeeps(h, s, c, {id}, {id});
    var old_ := s.vvTried[c];
    var s1 := Evict(s, c);
    var home := HomeCell(h, s.nKey, s.mapInfo[old_].peer);
    PutBackOk(h, s, c, id);
    var s2 := ClearNew(s1, home);
    AddRef(s2, home, old_).(nNew := s2.nNew + 1)
  }

  lemma PutBackOk(h: Hashing, s: State, c: Cell, id: int)
    requires Inv(h, s, {id}, {id}) && c in s.vvTried && id !in s.vvNew.Values
    ensures s.vvTried[c] in s.mapInfo
    ensures var home := HomeCell(h, s.nKey, s.mapInfo[s.vvTried[c]].peer);
            && ClearOk(Evict(s, c), home)
            && Inv(h, ClearNew(Evict(s, c), home), {id, s.vvTried[c]}, {id, s.vvTried[c]})
            && Cleared(Evict(s, c), ClearNew(Evict(s, c), home), home)
            && s.vvTried[c] in ClearNew(Evict(s, c), home).mapInfo
            && SameEntry(ClearNew(Evict(s, c), home).mapInfo[s.vvTried[c]], Evict(s, c).mapInfo[s.vvTried[c]])
  {
    EvictKeeps(h, s, c, {id}, {id});
    var old_ := s.vvTried[c];
    var s1 := Evict(s, c);
    var home := HomeCell(h, s.nKey, s.mapInfo[old_].peer);
    assert {id} + {old_} == {id, old_};
    assert home in s1.vvNew ==> s1.vvNew[home] in s.vvNew.Values;
    hide IdOk, PosOk, AddrOk, TriedCellOk, NewCellOk, ClearNew;
    ClearNewKeeps(h, s1, home, {id, old_}, {id, old_});
  }

  lemma TriedAt(h: Hashing, s: State, c: Cell, zero: set<int>, uncounted: set<int>)
    requires Inv(h, s, zero, uncounted) && c in s.vvTried
    ensures s.vvTried[c] in s.mapInfo && s.mapInfo[s.vvTried[c]].fInTried && s.mapInfo[s.vvTried[c]].nRefCount == 0
    ensures c == TriedCell(h, s.nKey, s.mapInfo[s.vvTried[c]].Service())
  {
    assert TriedCellOk(h, s, c) && IdOk(h, s, zero, s.vvTried[c]);
  }

  lemma NewAt(h: Hashing, s: State, c: Cell, zero: set<int>, uncounted: set<int>)
    requires Inv(h, s, zero, uncounted) && c in s.vvNew
    ensures ClearOk(s, c) && s.vvNew[c] in s.mapInfo && !s.mapInfo[s.vvNew[c]].fInTried
  {
    assert NewCellOk(h, s, c) && IdOk(h, s, zero, s.vvNew[c]) && PosOk(s, |s.vRandom| - 1);
  }

  /** The cells that hold id are found by looking at one position of every bucket. */
  lemma RefsWhere(h: Hashing, s: State, id: int)
    requires Inv(h, s, {}, {}) && id in s.mapInfo && !s.mapInfo[id].fInTried
    ensures forall c :: c in Refs(s.vvNew, id) ==>
        c.bucket < NEW_BUCKET_COUNT && c == NewCell(h, s.nKey, s.mapInfo[id].Service(), c.bucket)
    ensures s.mapInfo[id].nRefCount == |Refs(s.vvNew, id)| > 0
  {
    assert IdOk(h, s, {}, id);
    forall c | c in Refs(s.vvNew, id) ensures c.bucket < NEW_BUCKET_COUNT &&
        c == NewCell(h, s.nKey, s.mapInfo[id].Service(), c.bucket) {
      assert NewCellOk(h, s, c);
    }
  }

  lemma AddrAt(h: Hashing, s: State, a: NetAddr)
    requires Inv(h, s, {}, {}) && a in s.mapAddr
    ensures s.mapAddr[a] in s.mapInfo && s.mapInfo[s.mapAddr[a]].Ip() == a
  {
    assert AddrOk(s, a);
  }

  ghost function Below(refs: set<Cell>, bucket: nat): set<Cell> { set c | c in refs && c.bucket < bucket }

  /** Looking at the one position of the next bucket that can hold id. */
  lemma BelowStep(h: Hashing, s: State, id: int, bucket: nat)
    requires id in s.mapInfo
    requires forall c :: c in Refs(s.vvNew, id) ==> c == NewCell(h, s.nKey, s.mapInfo[id].Service(), c.bucket)
    ensures var c := NewCell(h, s.nKey, s.mapInfo[id].Service(), bucket);
            var refs := Refs(s.vvNew, id);
            && (Get(s.vvNew - Below(refs, bucket), c) == id && c in s.vvNew - Below(refs, bucket) <==> c in refs)
            && (c in refs ==> |Below(refs, bucket + 1)| == |Below(refs, bucket)| + 1)
            && (c in refs ==> (s.vvNew - Below(refs, bucket)) - {c} == s.vvNew - Below(refs, bucket + 1))
            && (c !in refs ==> Below(refs, bucket + 1) == Below(refs, bucket))
  {
    var c := NewCell(h, s.nKey, s.mapInfo[id].Service(), bucket);
    var refs := Refs(s.vvNew, id);
    forall d | d in refs && d.bucket == bucket ensures d == c {}
    assert c.bucket == bucket && (c in refs <==> c in s.vvNew && s.vvNew[c] == id);
    hide Refs, NewCell;
    BelowNext(refs, c);
    TakenBelow(s.vvNew, refs, c);
  }

  /** The next bucket adds the one cell that can be in it. */
  lemma BelowNext(refs: set<Cell>, c: Cell)
    requires forall d :: d in refs && d.bucket == c.bucket ==> d == c
    ensures c in refs ==> Below(refs, c.bucket + 1) == Below(refs, c.bucket) + {c}
    ensures c in refs ==> |Below(refs, c.bucket + 1)| == |Below(refs, c.bucket)| + 1
    ensures c !in refs ==> Below(refs, c.bucket + 1) == Below(refs, c.bucket)
  {
    if c in refs {
      assert Below(refs, c.bucket + 1) == Below(refs, c.bucket) + {c};
    } else {
      assert Below(refs, c.bucket + 1) == Below(refs, c.bucket);
    }
  }

  lemma TakenBelow(t: Table, refs: set<Cell>, c: Cell)
    ensures c in t - Below(refs, c.bucket) <==> c in t
    ensures c in t ==> (t - Below(refs, c.bucket))[c] == t[c]
    ensures (t - Below(refs, c.bucket)) - {c} == t - (Below(refs, c.bucket) + {c})
  {
  }

  lemma IdAt(h: Hashing, s: State, id: int, zero: set<int>, uncounted: set<int>)
    requires Inv(h, s, zero, uncounted) && id in s.mapInfo
    ensures 0 <= id < s.nIdCount && 0 <= s.mapInfo[id].nRefCount <= NEW_BUCKETS_PER_ADDRESS
    ensures Find(s.mapAddr, s.mapInfo[id].Ip()) == id
    ensures !s.mapInfo[id].fInTried && id !in zero ==> s.mapInfo[id].nRefCount > 0
    ensures SwapOk(s, s.mapInfo[id].nRandomPos, |s.vRandom| - 1)
  {
    assert IdOk(h, s, zero, id) && PosOk(s, |s.vRandom| - 1);
  }

  /** The displaced entry is back with one reference, at home; everyone else keeps their place. */
  ghost predicate Displaced(h: Hashing, s: State, s': State, c: Cell)
    requires c in s.vvTried && s.vvTried[c] in s.mapInfo
  {
    var old_ := s.vvTried[c];
    var home := HomeCell(h, s.nKey, s.mapInfo[old_].peer);
    && s'.nKey == s.nKey && s'.nIdCount == s.nIdCount && s'.collisions == s.collisions
    && s'.vvTried == s.vvTried - {c} && s'.vvNew == s.vvNew[home := old_]
    && s'.mapInfo.Keys <= s.mapInfo.Keys
    && old_ in s'.mapInfo && !s'.mapInfo[old_].fInTried && s'.mapInfo[old_].nRefCount == 1
    && (forall x :: x in s.mapInfo && x !in s'.mapInfo ==> x == Get(s.vvNew, home) && s.mapInfo[x].nRefCount == 1)
    && (forall x :: x in s'.mapInfo ==>
        s'.mapInfo[x].peer == s.mapInfo[x].peer && (x != old_ ==> s'.mapInfo[x].fInTried == s.mapInfo[x].fInTried))
  }

  lemma PutBackKeeps(h: Hashing, s: State, c: Cell, id: int)
    requires Inv(h, s, {id}, {id}) && c in s.vvTried && id !in s.vvNew.Values && id in s.mapInfo &&
        !s.mapInfo[id].fInTried
    ensures Inv(h, PutBack(h, s, c, id), {id}, {id})
  {
    hide IdOk, PosOk, AddrOk, TriedCellOk, NewCellOk, ClearNew, Inv, TriedIds, NewIds;
    var old_ := s.vvTried[c];
    TriedAt(h, s, c, {id}, {id});
    PutBackOk(h, s, c, id);
    var home := HomeCell(h, s.nKey, s.mapInfo[old_].peer);
    var s2 := ClearNew(Evict(s, c), home);
    AddRefKeeps(h, s2, home, old_, {id, old_}, {id, old_});
    assert {id, old_} - {old_} == {id};
    CountAgain(h, AddRef(s2, home, old_), old_, {id}, {id, old_});
  }

  lemma PutBackEffect(h: Hashing, s: State, c: Cell, id: int)
    requires Inv(h, s, {id}, {id}) && c in s.vvTried && id !in s.vvNew.Values && id in s.mapInfo &&
        !s.mapInfo[id].fInTried
    ensures s.vvTried[c] in s.mapInfo && s.mapInfo[s.vvTried[c]].fInTried
    ensures Displaced(h, s, PutBack(h, s, c, id), c)
    ensures var s' := PutBack(h, s, c, id);
            id in s'.mapInfo && !s'.mapInfo[id].fInTried && s'.mapInfo[id].nRefCount == s.mapInfo[id].nRefCount
  {
    var old_ := s.vvTried[c];
    TriedAt(h, s, c, {id}, {id});
    IdAt(h, s, id, {id}, {id});
    hide IdOk, PosOk, AddrOk, TriedCellOk, NewCellOk, ClearNew, Inv, Cleared, Displaced, Evict, AddRef, ClearOk;
    PutBackOk(h, s, c, id);
    PutBackLost(h, s, c, id);
    var home := HomeCell(h, s.nKey, s.mapInfo[old_].peer);
    assert id != Get(s.vvNew, home) by {
      assert home in s.vvNew ==> s.vvNew[home] in s.vvNew.Values;
    }
    DisplacedBy(h, s, c, id, ClearNew(Evict(s, c), home));
  }

  lemma DisplacedBy(h: Hashing, s: State, c: Cell, id: int, s2: State)
    requires c in s.vvTried && s.vvTried[c] in s.mapInfo && s.mapInfo[s.vvTried[c]].nRefCount == 0
    requires id in s.mapInfo && id != s.vvTried[c]
    requires var home := HomeCell(h, s.nKey, s.mapInfo[s.vvTried[c]].peer);
             && Cleared(Evict(s, c), s2, home) && id != Get(s.vvNew, home)
             && s.vvTried[c] in s2.mapInfo && SameEntry(s2.mapInfo[s.vvTried[c]], Evict(s, c).mapInfo[s.vvTried[c]])
             && forall x :: x in s.mapInfo && x !in s2.mapInfo ==>
                 x == Get(s.vvNew, home) && s.mapInfo[x].nRefCount == 1
    ensures var home := HomeCell(h, s.nKey, s.mapInfo[s.vvTried[c]].peer);
            var s' := AddRef(s2, home, s.vvTried[c]).(nNew := s2.nNew + 1);
            && Displaced(h, s, s', c)
            && id in s'.mapInfo && SameEntry(s'.mapInfo[id], s.mapInfo[id])
  {
    var old_ := s.vvTried[c];
    var home := HomeCell(h, s.nKey, s.mapInfo[old_].peer);
    assert (s.vvNew - {home})[home := old_] == s.vvNew[home := old_];
  }

  lemma PutBackLost(h: Hashing, s: State, c: Cell, id: int)
    requires Inv(h, s, {id}, {id}) && c in s.vvTried && id !in s.vvNew.Values
    ensures s.vvTried[c] in s.mapInfo
    ensures var home := HomeCell(h, s.nKey, s.mapInfo[s.vvTried[c]].peer);
            && ClearOk(Evict(s, c), home)
            && (forall x :: x in s.mapInfo && x !in ClearNew(Evict(s, c), home).mapInfo ==>
                x == Get(s.vvNew, home) && s.mapInfo[x].nRefCount == 1)
  {
    PutBackOk(h, s, c, id);
    EvictKeeps(h, s, c, {id}, {id});
    var s1 := Evict(s, c);
    var home := HomeCell(h, s.nKey, s.mapInfo[s.vvTried[c]].peer);
    if home in s1.vvNew {
      ClearNewEffect(h, s1, home, {id} + {s.vvTried[c]}, {id} + {s.vvTried[c]});
    }
  }

  /** Move a new entry to its tried cell; whoever is there goes back to the new table. */
  ghost function MakeTried(h: Hashing, s: State, id: int): State
    requires Inv(h, s, {}, {}) && id in s.mapInfo && !s.mapInfo[id].fInTried
  {
    RemoveRefsKeeps(h, s, id);
    var s1 := RemoveRefs(s, id);
    var c := TriedCell(h, s.nKey, s.mapInfo[id].Service());
    if c in s.vvTried then
      PutBackEffect(h, s1, c, id);
      EnterTried(PutBack(h, s1, c, id), c, id)
    else EnterTried(s1, c, id)
  }

  lemma MakeTriedKeeps(h: Hashing, s: State, id: int)
    requires Inv(h, s, {}, {}) && id in s.mapInfo && !s.mapInfo[id].fInTried
    ensures Inv(h, MakeTried(h, s, id), {}, {})
  {
    RemoveRefsKeeps(h, s, id);
    var s1 := RemoveRefs(s, id);
    var c := TriedCell(h, s.nKey, s.mapInfo[id].Service());
    hide IdOk, PosOk, AddrOk, TriedCellOk, NewCellOk, PutBack, EnterTried;
    if c in s.vvTried {
      PutBackKeeps(h, s1, c, id);
      PutBackEffect(h, s1, c, id);
      EnterTriedKeeps(h, PutBack(h, s1, c, id), id);
    } else {
      EnterTriedKeeps(h, s1, id);
    }
  }

  /** MakeTried changes one tried cell. It brings the entry it displaces back with one reference in its
      home cell, and loses at most the entry whose last reference was there. */
  ghost predicate MovedToTried(h: Hashing, s: State, s': State, id: int)
    requires id in s.mapInfo
  {
    var c := TriedCell(h, s.nKey, s.mapInfo[id].Service());
    var rest := s.vvNew - Refs(s.vvNew, id);
    && s'.nKey == s.nKey && s'.nIdCount == s.nIdCount && s'.collisions == s.collisions
    && s'.vvTried == s.vvTried[c := id]
    && s'.mapInfo.Keys <= s.mapInfo.Keys && id in s'.mapInfo && s'.mapInfo[id].fInTried
    && (forall x :: x in s'.mapInfo ==>
        s'.mapInfo[x].peer == s.mapInfo[x].peer && (s'.mapInfo[x].fInTried ==> x == id || s.mapInfo[x].fInTried))
    && if c in s.vvTried then
         s.vvTried[c] in s.mapInfo &&
         var old_ := s.vvTried[c];
         var home := HomeCell(h, s.nKey, s.mapInfo[old_].peer);
         && s'.vvNew == rest[home := old_]
         && old_ in s'.mapInfo && !s'.mapInfo[old_].fInTried && s'.mapInfo[old_].nRefCount == 1
         && (forall x :: x in s.mapInfo && x !in s'.mapInfo ==> x == Get(rest, home) && s.mapInfo[x].nRefCount == 1)
       else s'.vvNew == rest && s'.mapInfo.Keys == s.mapInfo.Keys
  }

  lemma MakeTriedEffect(h: Hashing, s: State, id: int)
    requires Inv(h, s, {}, {}) && id in s.mapInfo && !s.mapInfo[id].fInTried
    ensures MovedToTried(h, s, MakeTried(h, s, id), id)
  {
    RemoveRefsKeeps(h, s, id);
    var s1 := RemoveRefs(s, id);
    var c := TriedCell(h, s.nKey, s.mapInfo[id].Service());
    hide IdOk, PosOk, AddrOk, TriedCellOk, NewCellOk, PutBack, Inv, Displaced, MovedToTried;
    if c in s.vvTried {
      PutBackEffect(h, s1, c, id);
      assert id != s.vvTried[c];
      MovedBy(h, s, id, PutBack(h, s1, c, id));
    } else {
      MovedFree(h, s, id);
    }
  }

  lemma MovedFree(h: Hashing, s: State, id: int)
    requires id in s.mapInfo && TriedCell(h, s.nKey, s.mapInfo[id].Service()) !in s.vvTried
    ensures MovedToTried(h, s, EnterTried(RemoveRefs(s, id), TriedCell(h, s.nKey, s.mapInfo[id].Service()), id), id)
  {
  }

  lemma MovedBy(h: Hashing, s: State, id: int, s2: State)
    requires id in s.mapInfo
    requires var c := TriedCell(h, s.nKey, s.mapInfo[id].Service());
             && c in s.vvTried && s.vvTried[c] in s.mapInfo && s.vvTried[c] != id
             && Displaced(h, RemoveRefs(s, id), s2, c) && id in s2.mapInfo
    ensures MovedToTried(h, s, EnterTried(s2, TriedCell(h, s.nKey, s.mapInfo[id].Service()), id), id)
  {
    var c := TriedCell(h, s.nKey, s.mapInfo[id].Service());
    assert (s.vvTried - {c})[c := id] == s.vvTried[c := id];
    var home := HomeCell(h, s.nKey, s.mapInfo[s.vvTried[c]].peer);
    assert id != Get(s.vvNew - Refs(s.vvNew, id), home) || home !in s.vvNew - Refs(s.vvNew, id);
  }

  // ----- what is known about a peer can change -----

  function SetPeer(s: State, id: int, p: Peer): State
    requires id in s.mapInfo
  {
    s.(mapInfo := s.mapInfo[id := s.mapInfo[id].(peer := p)])
  }

  lemma SetPeerKeeps(h: Hashing, s: State, id: int, p: Peer, zero: set<int>, uncounted: set<int>)
    requires Inv(h, s, zero, uncounted) && id in s.mapInfo && p.addr.service == s.mapInfo[id].Service()
    ensures Inv(h, SetPeer(s, id, p), zero, uncounted)
    ensures CollisionsOk(h, s) ==> CollisionsOk(h, SetPeer(s, id, p))
  {
    var s' := SetPeer(s, id, p);
    SameIds(s.mapInfo, s'.mapInfo);
    hide TriedIds, NewIds, Refs;
    forall x ensures IdOk(h, s', zero, x) { assert IdOk(h, s, zero, x); }
    hide IdOk;
    forall a ensures AddrOk(s', a) { assert AddrOk(s, a); }
    forall k ensures PosOk(s', k) { assert PosOk(s, k); }
    forall c ensures TriedCellOk(h, s', c) { assert TriedCellOk(h, s, c); }
    forall c ensures NewCellOk(h, s', c) { assert NewCellOk(h, s, c); }
    if CollisionsOk(h, s) { CollisionsSurvive(h, s, s'); }
  }

  // ----- collisions and time stamps survive what only moves entries -----

  lemma CollisionsSurvive(h: Hashing, s: State, s': State)
    requires CollisionsOk(h, s) && s'.collisions <= s.collisions && s'.nKey == s.nKey && s.nIdCount <= s'.nIdCount
    requires s.vvTried.Keys <= s'.vvTried.Keys
    requires forall id :: id in s'.mapInfo && id < s.nIdCount ==>
        id in s.mapInfo && s'.mapInfo[id].Service() == s.mapInfo[id].Service()
    ensures CollisionsOk(h, s')
  {
    assert |s'.collisions| <= |s.collisions| by { SubsetSize(s'.collisions, s.collisions); }
    forall id ensures CollisionOk(h, s', id) { assert CollisionOk(h, s, id); }
  }

  lemma SubsetSize(a: set<int>, b: set<int>)
    requires a <= b
    ensures |a| <= |b|
  {
    assert b == a + (b - a);
  }

  // ----- vRandom lists every id once -----

  lemma RandomCount(h: Hashing, s: State, zero: set<int>, uncounted: set<int>)
    requires Inv(h, s, zero, uncounted)
    ensures |s.vRandom| == |s.mapInfo|
  {
    forall i, j | 0 <= i < j < |s.vRandom| ensures s.vRandom[i] != s.vRandom[j] {
      assert PosOk(s, i) && PosOk(s, j);
    }
    CountDistinct(s.vRandom);
    assert (set id | id in s.vRandom) == s.mapInfo.Keys by {
      forall id | id in s.mapInfo ensures id in s.vRandom { assert IdOk(h, s, zero, id); }
      forall id | id in s.vRandom ensures id in s.mapInfo {
        var i :| 0 <= i < |s.vRandom| && s.vRandom[i] == id;
        assert PosOk(s, i);
      }
    }
  }

  lemma {:induction false} CountDistinct(v: seq<int>)
    requires forall i, j :: 0 <= i < j < |v| ==> v[i] != v[j]
    ensures |set id | id in v| == |v|
  {
    if v != [] {
      var rest := v[..|v| - 1];
      CountDistinct(rest);
      assert v == rest + [v[|v| - 1]];
      assert (set id | id in v) == (set id | id in rest) + {v[|v| - 1]};
    }
  }

  /** Check_'s first test: the vector holds as many ids as the two counters say. */
  lemma SizeIsTriedPlusNew(h: Hashing, s: State)
    requires Inv(h, s, {}, {})
    ensures |s.vRandom| == s.nTried + s.nNew
  {
    RandomCount(h, s, {}, {});
    assert s.mapInfo.Keys == TriedIds(s.mapInfo) + NewIds(s.mapInfo);
    assert TriedIds(s.mapInfo) !! NewIds(s.mapInfo);
    assert NewIds(s.mapInfo) - {} == NewIds(s.mapInfo);
  }
}
