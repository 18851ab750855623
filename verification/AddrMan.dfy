/**
 The address manager object of src/addrman.cpp. Random draws and the clock are parameters.
 */
module AddrMan {
  import opened Wrappers
  import opened Power
  import opened M = AddrManModel
  import opened AddrManCollisions

  function GoodPeer(p: Peer, nTime: int): Peer {
    p.(nLastSuccess := nTime, nLastTry := nTime, nAttempts := 0)
  }

  /** What MoveOrQueue does. */
  ghost predicate MoveEffect(h: Hashing, s: State, s': State, id: int, testBeforeEvict: bool)
    requires id in s.mapInfo
  {
    if testBeforeEvict && TriedCell(h, s.nKey, s.mapInfo[id].Service()) in s.vvTried then
      s' == s.(collisions := if |s.collisions| < SET_TRIED_COLLISION_SIZE then s.collisions + {id} else s.collisions)
    else MovedToTried(h, s, s', id)
  }

  /** What Good does: nothing for an unknown service; otherwise the peer is stamped, and an entry that
      was new is moved to its tried cell, unless that is taken and must be tested first. */
  ghost predicate GoodEffect(h: Hashing, s: State, s': State, addr: Service, testBeforeEvict: bool, nTime: int) {
    var id := Find(s.mapAddr, addr.ip);
    if Unknown(s, addr) then s' == s
    else
      var s1 := SetPeer(s, id, GoodPeer(s.mapInfo[id].peer, nTime));
      if s.mapInfo[id].fInTried then s' == s1 else MoveEffect(h, s1, s', id, testBeforeEvict)
  }

  lemma QueueKeeps(h: Hashing, s: State, id: int)
    requires Consistent(h, s) && id in s.mapInfo && |s.collisions| < SET_TRIED_COLLISION_SIZE && id < s.nIdCount
    requires TriedCell(h, s.nKey, s.mapInfo[id].Service()) in s.vvTried
    ensures Consistent(h, s.(collisions := s.collisions + {id}))
  {
    var s' := s.(collisions := s.collisions + {id});
    forall x ensures IdOk(h, s', {}, x) { assert IdOk(h, s, {}, x); }
    forall a ensures AddrOk(s', a) { assert AddrOk(s, a); }
    forall k ensures PosOk(s', k) { assert PosOk(s, k); }
    forall c ensures TriedCellOk(h, s', c) { assert TriedCellOk(h, s, c); }
    forall c ensures NewCellOk(h, s', c) { assert NewCellOk(h, s, c); }
    forall x ensures CollisionOk(h, s', x) { assert CollisionOk(h, s, x) && IdOk(h, s, {}, id); }
  }

  /** No entry is known for exactly this service. */
  predicate Unknown(s: State, addr: Service) {
    var id := Find(s.mapAddr, addr.ip);
    addr.ip !in s.mapAddr || id !in s.mapInfo || s.mapInfo[id].Service() != addr
  }

  /** When Good leaves the time stamps as Check_ wants them: the service is unknown, the clock is
      positive, or the clock is at zero and the entry stays in the new table. */
  predicate KeepsStamps(h: Hashing, s: State, addr: Service, testBeforeEvict: bool, nTime: int) {
    || Unknown(s, addr) || nTime > 0
    || (nTime == 0 && testBeforeEvict
        && !s.mapInfo[s.mapAddr[addr.ip]].fInTried && TriedCell(h, s.nKey, addr) in s.vvTried)
  }

  /** What Good does to a known service, said outright: its record is stamped and nobody else's changes;
      a new entry gets its tried cell and leaves the new table if it may, and otherwise is queued while
      there is room, with all tables as before. */
  ghost predicate GoodOutright(h: Hashing, s: State, s': State, addr: Service, testBeforeEvict: bool, nTime: int) {
    !Unknown(s, addr) ==>
      var id := s.mapAddr[addr.ip];
      var c := TriedCell(h, s.nKey, addr);
      var stays := s.mapInfo[id].fInTried || (testBeforeEvict && c in s.vvTried);
      && id in s'.mapInfo && MarkedGood(s.mapInfo[id].peer, s'.mapInfo[id].peer, nTime)
      && (forall x :: x in s'.mapInfo && x != id ==> x in s.mapInfo && s'.mapInfo[x].peer == s.mapInfo[x].peer)
      && (stays ==> s'.vvTried == s.vvTried && s'.vvNew == s.vvNew && s'.mapInfo.Keys == s.mapInfo.Keys)
      && (stays && !s.mapInfo[id].fInTried && |s.collisions| < 10 ==> s'.collisions == s.collisions + {id})
      && (stays && (s.mapInfo[id].fInTried || |s.collisions| >= 10) ==> s'.collisions == s.collisions)
      && (!stays ==> s'.vvTried == s.vvTried[c := id] && s'.mapInfo[id].fInTried && s'.collisions == s.collisions
                     && forall d :: d in s'.vvNew ==> s'.vvNew[d] != id)
      && (!stays && c in s.vvTried && s.vvTried[c] in s.mapInfo ==>
            var x := s.vvTried[c];
            x in s'.mapInfo && !s'.mapInfo[x].fInTried && s'.mapInfo[x].nRefCount == 1)
  }

  lemma GoodIsOutright(h: Hashing, s: State, s': State, addr: Service, testBeforeEvict: bool, nTime: int)
    requires GoodEffect(h, s, s', addr, testBeforeEvict, nTime)
    requires forall c :: c in s.vvTried && s.vvTried[c] in s.mapInfo ==> s.mapInfo[s.vvTried[c]].fInTried
    ensures GoodOutright(h, s, s', addr, testBeforeEvict, nTime)
  {
    if !Unknown(s, addr) {
      var id := s.mapAddr[addr.ip];
      var s1 := SetPeer(s, id, GoodPeer(s.mapInfo[id].peer, nTime));
      var c := TriedCell(h, s.nKey, addr);
      if !s.mapInfo[id].fInTried && !(testBeforeEvict && c in s.vvTried) {
        assert MovedToTried(h, s1, s', id);
        forall d | d in s'.vvNew ensures s'.vvNew[d] != id {
          assert d in s1.vvNew && s1.vvNew[d] == id ==> d in Refs(s1.vvNew, id);
        }
      }
    }
  }

  lemma TriedHolders(h: Hashing, s: State)
    requires Inv(h, s, {}, {})
    ensures forall c :: c in s.vvTried && s.vvTried[c] in s.mapInfo ==> s.mapInfo[s.vvTried[c]].fInTried
  {
    forall c | c in s.vvTried && s.vvTried[c] in s.mapInfo ensures s.mapInfo[s.vvTried[c]].fInTried {
      assert TriedCellOk(h, s, c);
    }
  }

  lemma GoodStamps(h: Hashing, s: State, s': State, addr: Service, testBeforeEvict: bool, nTime: int)
    requires Stamped(s) && GoodEffect(h, s, s', addr, testBeforeEvict, nTime)
    ensures Stamped(s') <==> KeepsStamps(h, s, addr, testBeforeEvict, nTime)
  {
    if !Unknown(s, addr) {
      var id := s.mapAddr[addr.ip];
      if KeepsStamps(h, s, addr, testBeforeEvict, nTime) {
        forall x ensures StampOk(s', x) { assert StampOk(s, x); }
      } else {
        assert !StampOk(s', id);
      }
    }
  }

  function Max0(x: int): int { if x < 0 then 0 else x }

  /** What a repeated announcement does to a known peer: its time moves up if it is stale by more than
      the update interval, and its services accumulate. */
  function RefreshPeer(p: Peer, addr: Address, penalty: int, now: int): Peer {
    var interval := if now - addr.nTime < 24 * 60 * 60 then 60 * 60 else 24 * 60 * 60;
    var nTime := if addr.nTime != 0 && (p.addr.nTime == 0 || p.addr.nTime < addr.nTime - interval - penalty)
                 then Max0(addr.nTime - penalty) else p.addr.nTime;
    p.(addr := Address(p.addr.service, nTime, p.addr.nServices + addr.nServices))
  }

  /** Said outright: services accumulate; the time moves only from unknown or up by more than an hour (a
      day, if the announcement is older than a day), to the announced one less the penalty; nothing else
      changes. */
  lemma RefreshMeans(p: Peer, addr: Address, penalty: int, now: int)
    ensures var q := RefreshPeer(p, addr, penalty, now);
      var interval := if now - addr.nTime < 86400 then 3600 else 86400;
      var moves := addr.nTime != 0 && (p.addr.nTime == 0 || addr.nTime - penalty - p.addr.nTime > interval);
      && q.addr.service == p.addr.service && q.addr.nServices == p.addr.nServices + addr.nServices
      && q.source == p.source && q.nLastTry == p.nLastTry && q.nLastCountAttempt == p.nLastCountAttempt
      && q.nLastSuccess == p.nLastSuccess && q.nAttempts == p.nAttempts
      && (!moves ==> q.addr.nTime == p.addr.nTime)
      && (moves && addr.nTime >= penalty ==> q.addr.nTime == addr.nTime - penalty)
      && (moves && addr.nTime < penalty ==> q.addr.nTime == 0)
  {
  }

  /** The entry in cell c gives way to a new reference of id. */
  predicate GivesWay(s: State, id: int, c: Cell, now: int)
    requires id in s.mapInfo
  {
    c !in s.vvNew ||
    (s.vvNew[c] in s.mapInfo &&
       (IsTerrible(s.mapInfo[s.vvNew[c]].peer, now) ||
           (s.mapInfo[s.vvNew[c]].nRefCount > 1 && s.mapInfo[id].nRefCount == 0)))
  }

  /** The last step of Add: id gets cell c if that is free or its entry gives way; an id without any
      cell is deleted again. */
  ghost predicate Placed(s: State, s': State, id: int, c: Cell, now: int)
    requires id in s.mapInfo
  {
    && s'.nKey == s.nKey && s'.nIdCount == s.nIdCount && s'.collisions == s.collisions && s'.vvTried == s.vvTried &&
        s'.nTried == s.nTried
    && (forall x :: x in s'.mapInfo ==>
        x in s.mapInfo && s'.mapInfo[x].peer == s.mapInfo[x].peer && s'.mapInfo[x].fInTried == s.mapInfo[x].fInTried)
    && if Get(s.vvNew, c) == id then s' == s
       else if GivesWay(s, id, c, now) then
         && s'.vvNew == s.vvNew[c := id] && id in s'.mapInfo && s'.mapInfo[id].nRefCount == s.mapInfo[id].nRefCount + 1
         && (forall x :: x in s.mapInfo && x !in s'.mapInfo ==> x == Get(s.vvNew, c) && s.mapInfo[x].nRefCount == 1)
       else
         && s'.vvNew == s.vvNew
         && s'.mapInfo.Keys == if s.mapInfo[id].nRefCount == 0 then s.mapInfo.Keys - {id} else s.mapInfo.Keys
  }

  function Pow2(n: int): (p: nat)
    ensures p > 0
  {
    if n <= 0 then 1
    else
      PowPositive(2, n);
      Pow(2, n)
  }

  /** id may take cell c, once that is cleared. */
  ghost predicate TakeReady(h: Hashing, s: State, id: int, c: Cell, zero: set<int>) {
    && Inv(h, s, zero, {}) && zero <= {id} && id >= 0
    && id in s.mapInfo && !s.mapInfo[id].fInTried && s.mapInfo[id].nRefCount < NEW_BUCKETS_PER_ADDRESS
    && c.bucket < NEW_BUCKET_COUNT && c == NewCell(h, s.nKey, s.mapInfo[id].Service(), c.bucket)
    && Get(s.vvNew, c) != id
  }

  lemma TakeCleared(h: Hashing, s: State, id: int, c: Cell, zero: set<int>)
    requires TakeReady(h, s, id, c, zero)
    ensures ClearOk(s, c) && Inv(h, M.ClearNew(s, c), zero, {}) && Cleared(s, M.ClearNew(s, c), c)
    ensures id in M.ClearNew(s, c).mapInfo && SameEntry(M.ClearNew(s, c).mapInfo[id], s.mapInfo[id])
  {
    hide Inv, IdOk, PosOk, AddrOk, TriedCellOk, NewCellOk, M.ClearNew;
    ClearNewKeeps(h, s, c, zero, {});
  }

  ghost function Taken(h: Hashing, s: State, id: int, c: Cell, zero: set<int>): State
    requires TakeReady(h, s, id, c, zero)
  {
    TakeCleared(h, s, id, c, zero);
    AddRef(M.ClearNew(s, c), c, id)
  }

  lemma TakenKeeps(h: Hashing, s: State, id: int, c: Cell, zero: set<int>)
    requires TakeReady(h, s, id, c, zero)
    ensures Inv(h, Taken(h, s, id, c, zero), {}, {}) && ClearOk(s, c) && id in M.ClearNew(s, c).mapInfo
  {
    hide Inv, IdOk, PosOk, AddrOk, TriedCellOk, NewCellOk, M.ClearNew;
    TakeCleared(h, s, id, c, zero);
    AddRefKeeps(h, M.ClearNew(s, c), c, id, zero, {});
    assert zero - {id} == {};
  }

  lemma PlacedByTaking(h: Hashing, s: State, id: int, c: Cell, now: int)
    requires TakeReady(h, s, id, c, if id in s.mapInfo && s.mapInfo[id].nRefCount == 0 then {id}
                                    else {}) && GivesWay(s, id, c, now)
    ensures Placed(s, Taken(h, s, id, c, if s.mapInfo[id].nRefCount == 0 then {id} else {}), id, c, now)
  {
    hide Inv, IdOk, PosOk, AddrOk, TriedCellOk, NewCellOk, M.ClearNew, Cleared, Placed, AddRef;
    var zero := if s.mapInfo[id].nRefCount == 0 then {id} else {};
    TakeLost(h, s, id, c, zero);
    TakeCleared(h, s, id, c, zero);
    PlacedAfter(s, M.ClearNew(s, c), id, c, now);
  }

  lemma PlacedAfter(s: State, s2: State, id: int, c: Cell, now: int)
    requires id in s.mapInfo && GivesWay(s, id, c, now) && Get(s.vvNew, c) != id && Cleared(s, s2, c)
    requires id in s2.mapInfo && SameEntry(s2.mapInfo[id], s.mapInfo[id])
    requires forall x :: x in s.mapInfo && x !in s2.mapInfo ==> x == Get(s.vvNew, c) && s.mapInfo[x].nRefCount == 1
    ensures Placed(s, AddRef(s2, c, id), id, c, now)
  {
    assert (s.vvNew - {c})[c := id] == s.vvNew[c := id];
  }

  lemma TakeLost(h: Hashing, s: State, id: int, c: Cell, zero: set<int>)
    requires TakeReady(h, s, id, c, zero)
    ensures ClearOk(s, c)
    ensures var s' := M.ClearNew(s, c);
            forall x :: x in s.mapInfo && x !in s'.mapInfo ==> x == Get(s.vvNew, c) && s.mapInfo[x].nRefCount == 1
  {
    hide Inv, IdOk, PosOk, AddrOk, TriedCellOk, NewCellOk, M.Delete, DropRef;
    TakeCleared(h, s, id, c, zero);
    if c in s.vvNew { ClearNewEffect(h, s, c, zero, {}); }
  }

  lemma HoldsCell(h: Hashing, s: State, id: int, c: Cell, zero: set<int>)
    requires Inv(h, s, zero, {}) && zero <= {id} && id >= 0 && Get(s.vvNew, c) == id && id in s.mapInfo
    ensures Inv(h, s, {}, {})
  {
    assert c in Refs(s.vvNew, id) && NewCellOk(h, s, c);
    forall x ensures IdOk(h, s, {}, x) { assert IdOk(h, s, zero, x); }
  }

  lemma CreateReady(h: Hashing, s: State)
    requires Inv(h, s, {}, {})
    ensures s.nIdCount !in s.mapInfo && s.nIdCount !in s.vvNew.Values
  {
    CreateIsNew(h, s, {}, {});
    forall c | c in s.vvNew ensures s.vvNew[c] != s.nIdCount {
      assert c !in Refs(s.vvNew, s.nIdCount);
    }
  }

  /** Setting the time of a created entry is creating it with that time. */
  lemma CreateLate(s: State, addr: Address, source: NetAddr, nTime: int)
    ensures var s1, s2 := M.Create(s, addr, source), M.Create(s, addr.(nTime := nTime), source);
      && s.nIdCount in s1.mapInfo && s1.mapInfo[s.nIdCount].peer == Peer(addr, source, 0, 0, 0, 0)
      && s2 == s1.(mapInfo := s1.mapInfo[s.nIdCount := s1.mapInfo[s.nIdCount].(peer := Peer(addr.(nTime := nTime),
          source, 0, 0, 0, 0))])
  {
  }

  function KnownOr(s: State, addr: Address): int {
    if addr.service.ip in s.mapAddr then s.mapAddr[addr.service.ip] else s.nIdCount
  }

  /** What Add does to everyone: the tried table is untouched, at most one cell of the new table
      changes, and it changes to the announced address, which is known afterwards if it was before or if
      it got the cell; at most one other entry is lost, the one that held only that cell. */
  ghost predicate AddEffect(h: Hashing, s: State, s': State, addr: Address, source: NetAddr) {
    var id := KnownOr(s, addr);
    var known := addr.service.ip in s.mapAddr;
    var service := if known && id in s.mapInfo then s.mapInfo[id].Service() else addr.service;
    var c := NewCell(h, s.nKey, service, GetNewBucket(h, s.nKey, service, source));
    && s'.nKey == s.nKey && s'.vvTried == s.vvTried && s'.nTried == s.nTried && s'.collisions == s.collisions
    && (s'.vvNew == s.vvNew || s'.vvNew == s.vvNew[c := id])
    && (if known then id in s'.mapInfo else (id in s'.mapInfo <==> s'.vvNew == s.vvNew[c := id]))
    && (forall x :: x in s.mapInfo && x !in s'.mapInfo ==>
        x == Get(s.vvNew, c) && s'.vvNew == s.vvNew[c := id] && s.mapInfo[x].nRefCount == 1)
    && (forall x :: x in s'.mapInfo && x != id ==>
        x in s.mapInfo && s'.mapInfo[x].peer == s.mapInfo[x].peer && s'.mapInfo[x].fInTried == s.mapInfo[x].fInTried)
    && (id in s'.mapInfo && known ==>
        id in s.mapInfo && Announced(s.mapInfo[id].peer, s'.mapInfo[id].peer) &&
            s'.mapInfo[id].fInTried == s.mapInfo[id].fInTried)
    && (id in s'.mapInfo && !known ==>
          s'.mapInfo[id].peer == Peer(addr.(nTime := s'.mapInfo[id].peer.addr.nTime), source, 0, 0, 0, 0) &&
              !s'.mapInfo[id].fInTried)
  }

  /** A repeated announcement may earn another cell: it is newer, the entry is new and has room, and the
      draw, 2^nRefCount times harder each time, succeeds. */
  predicate Proceeds(info: Info, addr: Address, rnd: nat) {
    && addr.nTime != 0 && (info.peer.addr.nTime == 0 || addr.nTime > info.peer.addr.nTime) && !info.fInTried
    && info.nRefCount < NEW_BUCKETS_PER_ADDRESS && rnd % Pow2(info.nRefCount) == 0
  }

  /** What Add does, step by step: a known entry is refreshed and perhaps placed once more, an unknown
      one is created and placed. */
  ghost predicate AddSteps(h: Hashing, s: State, s': State, addr: Address, source: NetAddr, penalty: int, now: int,
      rnd: nat) {
    if addr.service.ip in s.mapAddr then
      var id := s.mapAddr[addr.service.ip];
      && id in s.mapInfo
      && var s1 := SetPeer(s, id, RefreshPeer(s.mapInfo[id].peer, addr, penalty, now));
         if Proceeds(s1.mapInfo[id], addr, rnd) then Placed(s1, s', id,
             SourceCell(h, s.nKey, s.mapInfo[id].Service(), source), now)
         else s' == s1
    else
      var s1 := M.Create(s, addr.(nTime := Max0(addr.nTime - penalty)), source);
      Placed(s1, s', s.nIdCount, SourceCell(h, s.nKey, addr.service, source), now)
  }

  /** The same service with the same history; time and service bits may differ. */
  predicate Announced(p: Peer, p': Peer) { p' == p.(addr := p'.addr) && p'.addr.service == p.addr.service }

  function SourceCell(h: Hashing, key: nat, service: Service, source: NetAddr): Cell {
    NewCell(h, key, service, GetNewBucket(h, key, service, source))
  }

  /** Refreshing without a new cell is an Add that places nothing. */
  lemma RefreshedIsAdd(h: Hashing, s: State, id: int, p: Peer, addr: Address, source: NetAddr)
    requires addr.service.ip in s.mapAddr && id == s.mapAddr[addr.service.ip] && id in s.mapInfo &&
        Announced(s.mapInfo[id].peer, p)
    ensures AddEffect(h, s, SetPeer(s, id, p), addr, source)
  {
  }

  lemma PlacedKnown(h: Hashing, s: State, id: int, p: Peer, s': State, addr: Address, source: NetAddr, now: int)
    requires addr.service.ip in s.mapAddr && id == s.mapAddr[addr.service.ip] && id in s.mapInfo &&
        Announced(s.mapInfo[id].peer, p)
    requires s.mapInfo[id].nRefCount > 0 &&
        Placed(SetPeer(s, id, p), s', id, SourceCell(h, s.nKey, s.mapInfo[id].Service(), source), now)
    ensures AddEffect(h, s, s', addr, source)
  {
    assert s.mapInfo[id].nRefCount == SetPeer(s, id, p).mapInfo[id].nRefCount;
  }

  lemma PlacedNew(h: Hashing, s: State, nTime: int, s': State, addr: Address, source: NetAddr, now: int)
    requires addr.service.ip !in s.mapAddr && s.nIdCount !in s.mapInfo && s.nIdCount !in s.vvNew.Values &&
        s.nIdCount >= 0
    requires Placed(M.Create(s, addr.(nTime := nTime), source), s', s.nIdCount,
        SourceCell(h, s.nKey, addr.service, source), now)
    ensures AddEffect(h, s, s', addr, source)
  {
    var s1 := M.Create(s, addr.(nTime := nTime), source);
    var c := SourceCell(h, s.nKey, addr.service, source);
    assert c in s.vvNew ==> s.vvNew[c] in s.vvNew.Values;
    assert s.vvNew[c := s.nIdCount][c] == s.nIdCount;
    assert s.vvNew[c := s.nIdCount] != s.vvNew;
  }

  /** The only entry an announcement can drive out is a terrible one that had no other cell. */
  lemma AddLosesTerrible(h: Hashing, s: State, s': State, addr: Address, source: NetAddr, penalty: int, now: int,
      rnd: nat, x: int)
    requires AddSteps(h, s, s', addr, source, penalty, now, rnd) && x in s.mapInfo && x !in s'.mapInfo
    requires s.nIdCount !in s.mapInfo && x >= 0
    requires addr.service.ip in s.mapAddr && s.mapAddr[addr.service.ip] in s.mapInfo ==>
      s.mapInfo[s.mapAddr[addr.service.ip]].fInTried || s.mapInfo[s.mapAddr[addr.service.ip]].nRefCount > 0
    ensures IsTerrible(s.mapInfo[x].peer, now) && s.mapInfo[x].nRefCount == 1
  {
    hide IsTerrible, RefreshPeer;
  }

  /** An unknown address gets the cell its source leads to, if that is free, or held by a terrible entry or
      by one that has another cell; otherwise it is not kept. */
  lemma NewcomerPlaced(h: Hashing, s: State, s': State, addr: Address, source: NetAddr, penalty: int, now: int,
      rnd: nat)
    requires Inv(h, s, {}, {}) && addr.service.ip !in s.mapAddr
    requires AddSteps(h, s, s', addr, source, penalty, now, rnd)
    ensures var id, c := s.nIdCount, SourceCell(h, s.nKey, addr.service, source);
      var room := c !in s.vvNew || (s.vvNew[c] in s.mapInfo &&
        (IsTerrible(s.mapInfo[s.vvNew[c]].peer, now) || s.mapInfo[s.vvNew[c]].nRefCount > 1));
      && (id in s'.mapInfo <==> room) && s'.vvNew == (if room then s.vvNew[c := id] else s.vvNew)
      && s'.vvTried == s.vvTried && s'.collisions == s.collisions
      && (room ==> s'.mapInfo[id].peer.addr.service == addr.service && s'.mapInfo[id].peer.source == source
                   && s'.mapInfo[id].nRefCount == 1)
  {
    assert 0 <= s.nIdCount;
    CreateReady(h, s);
    hide Inv, IsTerrible;
  }

  /** A known entry gets no further cell if it is tried, has eight, or is not newer than known. */
  lemma KnownKept(h: Hashing, s: State, s': State, addr: Address, source: NetAddr, penalty: int, now: int, rnd: nat)
    requires addr.service.ip in s.mapAddr && AddSteps(h, s, s', addr, source, penalty, now, rnd)
    ensures var was := s.mapInfo[s.mapAddr[addr.service.ip]];
      was.fInTried || was.nRefCount == 8 || addr.nTime == 0 || 0 < addr.nTime <= was.peer.addr.nTime ==>
        s'.vvNew == s.vvNew && s'.vvTried == s.vvTried && s'.mapInfo.Keys == s.mapInfo.Keys
  {
    hide IsTerrible;
  }

  lemma AddLosses(h: Hashing, s: State, s': State, addr: Address, source: NetAddr, penalty: int, now: int, rnd: nat)
    requires Inv(h, s, {}, {}) && AddSteps(h, s, s', addr, source, penalty, now, rnd)
    ensures forall x :: x in s.mapInfo && x !in s'.mapInfo ==>
        IsTerrible(s.mapInfo[x].peer, now) && s.mapInfo[x].nRefCount == 1
  {
    CreateReady(h, s);
    if addr.service.ip in s.mapAddr {
      assert IdOk(h, s, {}, s.mapAddr[addr.service.ip]);
    }
    hide Inv, AddSteps, IsTerrible;
    forall x | x in s.mapInfo && x !in s'.mapInfo
      ensures IsTerrible(s.mapInfo[x].peer, now) && s.mapInfo[x].nRefCount == 1
    {
      IdAt(h, s, x, {}, {});
      AddLosesTerrible(h, s, s', addr, source, penalty, now, rnd, x);
    }
  }

  lemma AddKeepsRest(h: Hashing, s: State, s': State, addr: Address, source: NetAddr)
    requires Consistent(h, s) && AddEffect(h, s, s', addr, source) && s.nIdCount <= s'.nIdCount
    ensures CollisionsOk(h, s') && (Stamped(s) ==> Stamped(s'))
  {
    hide Inv;
    CollisionsSurvive(h, s, s');
    if Stamped(s) {
      forall x ensures StampOk(s', x) { assert StampOk(s, x); }
    }
  }

  /** Changing only what an update of one known peer may change. */
  lemma SetPeerValid(h: Hashing, s: State, id: int, p: Peer)
    requires Consistent(h, s) && id in s.mapInfo && p.addr.service == s.mapInfo[id].Service()
    ensures Consistent(h, SetPeer(s, id, p))
    ensures Stamped(s) && p.nLastTry >= 0 && p.nLastSuccess == s.mapInfo[id].peer.nLastSuccess ==>
        Stamped(SetPeer(s, id, p))
  {
    hide Inv;
    SetPeerKeeps(h, s, id, p, {}, {});
    if Stamped(s) && p.nLastTry >= 0 && p.nLastSuccess == s.mapInfo[id].peer.nLastSuccess {
      forall x ensures StampOk(SetPeer(s, id, p), x) { assert StampOk(s, x); }
    }
  }

  lemma StampAt(s: State, id: int)
    requires Stamped(s) && id in s.mapInfo
    ensures s.mapInfo[id].peer.nLastTry >= 0
  {
    assert StampOk(s, id);
  }

  /** No two entries have the same service. */
  lemma OnlyOne(h: Hashing, s: State, id: int)
    requires Inv(h, s, {}, {}) && id in s.mapInfo
    ensures forall x :: x in s.mapInfo && s.mapInfo[x].Service() == s.mapInfo[id].Service() ==> x == id
  {
    hide Inv;
    IdAt(h, s, id, {}, {});
    forall x | x in s.mapInfo && s.mapInfo[x].Service() == s.mapInfo[id].Service() ensures x == id {
      IdAt(h, s, x, {}, {});
    }
  }

  lemma ForgetCollision(h: Hashing, s: State, id: int)
    requires Consistent(h, s)
    ensures Consistent(h, s.(collisions := s.collisions - {id}))
    ensures Stamped(s) ==> Stamped(s.(collisions := s.collisions - {id}))
  {
    var s' := s.(collisions := s.collisions - {id});
    CollisionsSurvive(h, s, s');
    forall x ensures IdOk(h, s', {}, x) { assert IdOk(h, s, {}, x); }
    forall a ensures AddrOk(s', a) { assert AddrOk(s, a); }
    forall k ensures PosOk(s', k) { assert PosOk(s, k); }
    forall c ensures TriedCellOk(h, s', c) { assert TriedCellOk(h, s, c); }
    forall c ensures NewCellOk(h, s', c) { assert NewCellOk(h, s, c); }
    if Stamped(s) {
      forall x ensures StampOk(s', x) { assert StampOk(s, x); }
    }
  }

  /** The tried cell a collision waits for is occupied, by a tried entry. */
  lemma CollisionAt(h: Hashing, s: State, id: int)
    requires Consistent(h, s) && id in s.collisions && id in s.mapInfo
    ensures var c := TriedCell(h, s.nKey, s.mapInfo[id].Service());
            c in s.vvTried && s.vvTried[c] in s.mapInfo && s.mapInfo[s.vvTried[c]].fInTried
  {
    assert CollisionOk(h, s, id);
    TriedAt(h, s, TriedCell(h, s.nKey, s.mapInfo[id].Service()), {}, {});
  }

  function Attempted(was: Info, addr: Service, fCountFailure: bool, nTime: int, nLastGood: int): Info {
    if was.Service() != addr then was
    else if fCountFailure && was.peer.nLastCountAttempt < nLastGood then
      was.(peer := was.peer.(nLastTry := nTime, nLastCountAttempt := nTime, nAttempts := was.peer.nAttempts + 1))
    else was.(peer := was.peer.(nLastTry := nTime))
  }

  /** Between two successes at most one failure is counted: an attempt counted at a time not before the
      last success makes the following ones not count. */
  lemma CountedOnce(was: Info, addr: Service, t: int, fCount: bool, u: int, nLastGood: int)
    requires was.Service() == addr && nLastGood <= t
    ensures var once := Attempted(was, addr, true, t, nLastGood);
      var twice := Attempted(once, addr, fCount, u, nLastGood);
      && once.peer.nAttempts <= was.peer.nAttempts + 1
      && (once.peer.nAttempts > was.peer.nAttempts <==> was.peer.nLastCountAttempt < nLastGood)
      && twice.peer.nAttempts == once.peer.nAttempts && twice.peer.nLastTry == u
  {
  }

  function NowConnected(was: Info, addr: Service, nTime: int): Info {
    if was.Service() == addr && nTime - was.peer.addr.nTime > 20 * 60
    then was.(peer := was.peer.(addr := was.peer.addr.(nTime := nTime))) else was
  }

  /** Afterwards the time is at most twenty minutes old, and it moves only if it was older. */
  lemma ConnectedMeans(was: Info, addr: Service, nTime: int)
    requires was.Service() == addr
    ensures var now := NowConnected(was, addr, nTime);
      && nTime - 1200 <= now.peer.addr.nTime
      && (nTime <= was.peer.addr.nTime + 1200 ==> now == was)
      && (nTime > was.peer.addr.nTime + 1200 ==> now.peer.addr.nTime == nTime)
      && now.Service() == addr && now.peer.addr.nServices == was.peer.addr.nServices
  {
  }

  /** The entry that id is waiting to replace. */
  ghost predicate IsIncumbent(h: Hashing, s: State, id: int, info: Info) {
    && id in s.collisions && id in s.mapInfo
    && var c := TriedCell(h, s.nKey, s.mapInfo[id].Service());
       c in s.vvTried && s.vvTried[c] in s.mapInfo && info == s.mapInfo[s.vvTried[c]] && info.fInTried
  }

  lemma ShuffledAt(s: State, s': State, id: int)
    requires Shuffled(s, s') && id in s.mapInfo
    ensures id in s'.mapInfo && s'.mapInfo[id].peer == s.mapInfo[id].peer
  {
    assert SameEntry(s'.mapInfo[id], s.mapInfo[id]);
  }

  lemma ShuffledStamps(s: State, s': State)
    requires Shuffled(s, s')
    ensures Stamped(s) ==> Stamped(s')
  {
    if Stamped(s) {
      forall x ensures StampOk(s', x) { assert StampOk(s, x); }
    }
  }

  lemma ShuffledPeers(s: State, s': State, ids: seq<int>, vAddr: seq<Address>)
    requires Shuffled(s, s') && |ids| == |vAddr|
    requires forall i :: 0 <= i < |ids| ==> ids[i] in s.mapInfo && vAddr[i] == s.mapInfo[ids[i]].peer.addr
    ensures forall i :: 0 <= i < |ids| ==> ids[i] in s'.mapInfo && vAddr[i] == s'.mapInfo[ids[i]].peer.addr
  {
    forall i | 0 <= i < |ids| ensures ids[i] in s'.mapInfo && vAddr[i] == s'.mapInfo[ids[i]].peer.addr {
      ShuffledAt(s, s', ids[i]);
    }
  }

  predicate Eligible(h: Hashing, info: Info, network: Option<nat>, now: int) {
    (network.Some? ==> h.network(info.Ip()) == network.value) && !IsTerrible(info.peer, now)
  }

  /** How many addresses GetAddr may return: a percentage of all, capped; zero means no limit. */
  function Quota(size: nat, maxAddresses: nat, maxPct: nat): nat {
    var share := if maxPct != 0 then maxPct * size / 100 else size;
    if maxAddresses != 0 && maxAddresses < share then maxAddresses else share
  }

  /** How far from the draw bucket b is, going round. */
  ghost function TurnTo(b: nat, rnd: nat): (at: nat)
    requires b < NEW_BUCKET_COUNT
    ensures at < NEW_BUCKET_COUNT && (at + rnd) % NEW_BUCKET_COUNT == b
  {
    (b + NEW_BUCKET_COUNT - rnd % NEW_BUCKET_COUNT) % NEW_BUCKET_COUNT
  }

  /** The largest number within both limits. */
  lemma QuotaMeans(size: nat, maxAddresses: nat, maxPct: nat, n: nat)
    ensures n <= Quota(size, maxAddresses, maxPct) <==>
      && (maxAddresses != 0 ==> n <= maxAddresses)
      && (if maxPct != 0 then 100 * n <= maxPct * size else n <= size)
  {
    var all := maxPct * size;
    assert n <= all / 100 <==> 100 * n <= all;
  }

  lemma RandomDistinct(h: Hashing, s: State, i: nat, j: nat)
    requires Inv(h, s, {}, {}) && i < j < |s.vRandom|
    ensures s.vRandom[i] != s.vRandom[j]
  {
    assert PosOk(s, i) && PosOk(s, j);
  }

  lemma RandomKnown(h: Hashing, s: State, i: nat)
    requires Inv(h, s, {}, {}) && i < |s.vRandom|
    ensures s.vRandom[i] in s.mapInfo
  {
    assert PosOk(s, i);
  }

  lemma RandomComplete(h: Hashing, s: State, id: int)
    requires Inv(h, s, {}, {}) && id in s.mapInfo
    ensures id in s.vRandom
  {
    assert IdOk(h, s, {}, id);
  }

  lemma SwapValid(h: Hashing, s: State, i: nat, j: nat)
    requires Consistent(h, s) && SwapOk(s, i, j)
    ensures Consistent(h, M.SwapRandom(s, i, j))
  {
    hide Inv, M.SwapRandom;
    SwapKeeps(h, s, i, j, {}, {});
    SwapShuffles(s, i, j);
    CollisionsSurvive(h, s, M.SwapRandom(s, i, j));
  }

  /** Choosing from a shuffled prefix: distinct, eligible and nothing eligible left out. */
  ghost predicate ChosenFrom(h: Hashing, s: State, n: nat, ids: seq<int>, network: Option<nat>, now: int) {
    && n <= |s.vRandom|
    && (forall i, j :: 0 <= i < j < |ids| ==> ids[i] != ids[j])
    && (forall i :: 0 <= i < |ids| ==>
        ids[i] in s.vRandom[..n] && ids[i] in s.mapInfo && Eligible(h, s.mapInfo[ids[i]], network, now))
    && (forall k :: 0 <= k < n && s.vRandom[k] in s.mapInfo && Eligible(h, s.mapInfo[s.vRandom[k]], network, now) ==>
        s.vRandom[k] in ids)
  }

  lemma ChooseNone(h: Hashing, s: State, network: Option<nat>, now: int)
    ensures ChosenFrom(h, s, 0, [], network, now)
  {
  }

  lemma ChosenFacts(h: Hashing, s: State, n: nat, ids: seq<int>, network: Option<nat>, now: int)
    requires Inv(h, s, {}, {}) && ChosenFrom(h, s, n, ids, network, now)
    ensures forall i, j :: 0 <= i < j < |ids| ==> ids[i] != ids[j]
    ensures forall i :: 0 <= i < |ids| ==> ids[i] in s.mapInfo && Eligible(h, s.mapInfo[ids[i]], network, now)
    ensures n == |s.vRandom| ==> forall id :: id in s.mapInfo && Eligible(h, s.mapInfo[id], network, now) ==> id in ids
  {
    hide Inv, Eligible;
    if n == |s.vRandom| {
      forall id | id in s.mapInfo && Eligible(h, s.mapInfo[id], network, now) ensures id in ids {
        RandomComplete(h, s, id);
        var k :| 0 <= k < |s.vRandom| && s.vRandom[k] == id;
      }
    }
  }

  lemma SwapChosen(h: Hashing, s: State, n: nat, j: nat, ids: seq<int>, network: Option<nat>, now: int)
    requires ChosenFrom(h, s, n, ids, network, now) && n <= j && SwapOk(s, n, j)
    ensures ChosenFrom(h, M.SwapRandom(s, n, j), n, ids, network, now)
  {
    SwapShuffles(s, n, j);
    var s' := M.SwapRandom(s, n, j);
    assert s'.vRandom[..n] == s.vRandom[..n];
    hide M.SwapRandom;
    assert forall k :: 0 <= k < n ==> s'.vRandom[k] == s'.vRandom[..n][k] == s.vRandom[k];
  }

  lemma ChooseNext(h: Hashing, s: State, n: nat, ids: seq<int>, network: Option<nat>, now: int)
    requires Inv(h, s, {}, {}) && ChosenFrom(h, s, n, ids, network, now) && n < |s.vRandom| && s.vRandom[n] in s.mapInfo
    ensures var more := if Eligible(h, s.mapInfo[s.vRandom[n]], network, now) then ids + [s.vRandom[n]] else ids;
            ChosenFrom(h, s, n + 1, more, network, now)
  {
    hide Inv, Eligible;
    var x := s.vRandom[n];
    var more := if Eligible(h, s.mapInfo[x], network, now) then ids + [x] else ids;
    assert s.vRandom[..n + 1] == s.vRandom[..n] + [x];
    forall i | 0 <= i < |ids| ensures ids[i] != x {
      var k :| 0 <= k < n && s.vRandom[..n][k] == ids[i];
      RandomDistinct(h, s, k, n);
    }
    forall i | 0 <= i < |more| ensures more[i] in s.vRandom[..n + 1] && more[i] in s.mapInfo &&
        Eligible(h, s.mapInfo[more[i]], network, now) {
      if i < |ids| { assert more[i] == ids[i]; }
    }
    forall k | 0 <= k < n + 1 && s.vRandom[k] in s.mapInfo &&
        Eligible(h, s.mapInfo[s.vRandom[k]], network, now) ensures s.vRandom[k] in more {
      if k < n { assert s.vRandom[k] in ids; } else { assert more[|ids|] == x; }
    }
  }

  // ----- collisions -----

  lemma GoodKeepsCollisions(h: Hashing, s: State, s': State, addr: Service, nTime: int)
    requires GoodEffect(h, s, s', addr, false, nTime)
    ensures s'.collisions == s.collisions
  {
  }

  /** Marking a known address good without the test makes it take over its tried cell. */
  lemma GoodTakesOver(h: Hashing, s: State, s': State, id: int, now: int)
    requires Consistent(h, s) && id in s.mapInfo && GoodEffect(h, s, s', s.mapInfo[id].Service(), false, now)
    ensures TakesOver(h, s, s'.(collisions := s.collisions - {id}), id, now)
  {
    IdAt(h, s, id, {}, {});
    assert IdOk(h, s, {}, id);
    hide Inv, CollisionsOk;
  }

  class AddrMan {
    const h: Hashing
    var nKey: nat
    var nIdCount: int
    var mapInfo: map<int, Info>
    var mapAddr: map<NetAddr, int>
    var vRandom: seq<int>
    var nTried: int
    var vvTried: Table
    var nNew: int
    var vvNew: Table
    var nLastGood: int
    var collisions: set<int>

    ghost function Snapshot(): State
      reads this
    {
      State(nKey, nIdCount, mapInfo, mapAddr, vRandom, nTried, vvTried, nNew, vvNew, collisions)
    }

    ghost predicate Valid()
      reads this
    {
      Consistent(h, Snapshot())
    }

    constructor (h: Hashing, key: nat)
      ensures this.h == h && Valid() && Stamped(Snapshot())
      ensures Snapshot() == State(key, 0, map[], map[], [], 0, map[], 0, map[], {}) && nLastGood == 1
    {
      this.h := h;
      nKey, nIdCount, mapInfo, mapAddr, vRandom := key, 0, map[], map[], [];
      nTried, vvTried, nNew, vvNew, nLastGood, collisions := 0, map[], 0, map[], 1, {};
    }

    // ----- internal operations -----

    method SwapRandom(i: nat, j: nat)
      requires i == j || SwapOk(Snapshot(), i, j)
      modifies this`mapInfo, this`vRandom
      ensures Snapshot() == if i == j then old(Snapshot()) else M.SwapRandom(old(Snapshot()), i, j)
    {
      if i == j { return; }
      assert i < |vRandom| && j < |vRandom|;
      var nId1, nId2 := vRandom[i], vRandom[j];
      assert nId1 in mapInfo && nId2 in mapInfo;
      mapInfo := mapInfo[nId1 := mapInfo[nId1].(nRandomPos := j)];
      mapInfo := mapInfo[nId2 := mapInfo[nId2].(nRandomPos := i)];
      vRandom := vRandom[i := nId2][j := nId1];
    }

    method Delete(nId: int)
      requires nId in mapInfo && !mapInfo[nId].fInTried && mapInfo[nId].nRefCount == 0
      requires SwapOk(Snapshot(), mapInfo[nId].nRandomPos, |vRandom| - 1)
      modifies this`mapInfo, this`vRandom, this`mapAddr, this`nNew
      ensures Snapshot() == M.Delete(old(Snapshot()), nId)
    {
      var info := mapInfo[nId];
      ghost var s := Snapshot();
      SwapRandom(info.nRandomPos, |vRandom| - 1);
      assert mapInfo[nId].peer == info.peer;
      vRandom := vRandom[..|vRandom| - 1];
      mapAddr := mapAddr - {info.Ip()};
      mapInfo := mapInfo - {nId};
      nNew := nNew - 1;
    }

    method ClearNew(c: Cell, ghost zero: set<int>, ghost uncounted: set<int>)
      requires Inv(h, Snapshot(), zero, uncounted)
      modifies this`mapInfo, this`vRandom, this`mapAddr, this`nNew, this`vvNew
      ensures ClearOk(old(Snapshot()), c) && Snapshot() == M.ClearNew(old(Snapshot()), c)
    {
      hide Inv, IdOk, PosOk, AddrOk, TriedCellOk, NewCellOk;
      if c in vvNew {
        DropRefKeeps(h, Snapshot(), c, zero, uncounted);
        NewAt(h, Snapshot(), c, zero, uncounted);
        var nIdDelete := vvNew[c];
        assert mapInfo[nIdDelete].nRefCount > 0;
        mapInfo := mapInfo[nIdDelete := mapInfo[nIdDelete].(nRefCount := mapInfo[nIdDelete].nRefCount - 1)];
        vvNew := vvNew - {c};
        if mapInfo[nIdDelete].nRefCount == 0 {
          Delete(nIdDelete);
        }
      }
    }

    /** The loop of MakeTried over all new buckets: it finds every reference. */
    method RemoveFromNew(nId: int)
      requires Inv(h, Snapshot(), {}, {}) && nId in mapInfo && !mapInfo[nId].fInTried
      modifies this`mapInfo, this`vvNew, this`nNew
      ensures Snapshot() == RemoveRefs(old(Snapshot()), nId)
    {
      hide Inv, IdOk, PosOk, AddrOk, TriedCellOk, NewCellOk;
      ghost var s := Snapshot();
      ghost var refs := Refs(vvNew, nId);
      RefsWhere(h, s, nId);
      assert s.vvNew - Below(refs, 0) == s.vvNew by { assert Below(refs, 0) == {}; }
      assert s.mapInfo[nId := s.mapInfo[nId].(nRefCount := s.mapInfo[nId].nRefCount - |Below(refs, 0)|)] == s.mapInfo;
      for bucket := 0 to NEW_BUCKET_COUNT
        invariant nId in mapInfo
        invariant mapInfo ==
          s.mapInfo[nId := s.mapInfo[nId].(nRefCount := s.mapInfo[nId].nRefCount - |Below(refs, bucket)|)]
        invariant vvNew == s.vvNew - Below(refs, bucket)
        invariant Snapshot().(mapInfo := s.mapInfo, vvNew := s.vvNew) == s
      {
        var c := NewCell(h, nKey, mapInfo[nId].Service(), bucket);
        BelowStep(h, s, nId, bucket);
        if c in vvNew && vvNew[c] == nId {
          vvNew := vvNew - {c};
          mapInfo := mapInfo[nId := mapInfo[nId].(nRefCount := mapInfo[nId].nRefCount - 1)];
        }
      }
      assert Below(refs, NEW_BUCKET_COUNT) == refs;
      nNew := nNew - 1;
    }

    method MakeTried(nId: int)
      requires Inv(h, Snapshot(), {}, {}) && nId in mapInfo && !mapInfo[nId].fInTried
      modifies this`mapInfo, this`mapAddr, this`vRandom, this`vvNew, this`vvTried, this`nNew, this`nTried
      ensures Snapshot() == M.MakeTried(h, old(Snapshot()), nId)
    {
      hide IdOk, PosOk, AddrOk, TriedCellOk, NewCellOk, Inv;
      ghost var s := Snapshot();
      RemoveRefsKeeps(h, s, nId);
      RemoveFromNew(nId);
      assert mapInfo[nId].nRefCount == 0;
      ghost var s1 := Snapshot();
      var c := TriedCell(h, nKey, mapInfo[nId].Service());
      if c in vvTried {
        PutBackEffect(h, s1, c, nId);
        EvictTried(c, nId);
      }
      assert c !in vvTried;
      vvTried := vvTried[c := nId];
      nTried := nTried + 1;
      mapInfo := mapInfo[nId := mapInfo[nId].(fInTried := true)];
    }

    method TakeOutOfTried(c: Cell) returns (nIdEvict: int)
      requires c in vvTried && vvTried[c] in mapInfo
      modifies this`mapInfo, this`vvTried, this`nTried
      ensures Snapshot() == Evict(old(Snapshot()), c) && nIdEvict == old(vvTried[c])
    {
      nIdEvict := vvTried[c];
      assert nIdEvict in mapInfo;
      mapInfo := mapInfo[nIdEvict := mapInfo[nIdEvict].(fInTried := false)];
      vvTried := vvTried - {c};
      nTried := nTried - 1;
    }

    /** Make space in a tried cell: the entry there is moved to new, clearing whatever is in its way. */
    method EvictTried(c: Cell, ghost nId: int)
      requires Inv(h, Snapshot(), {nId}, {nId}) && c in vvTried && nId !in vvNew.Values
      modifies this`mapInfo, this`mapAddr, this`vRandom, this`vvNew, this`vvTried, this`nNew, this`nTried
      ensures Snapshot() == PutBack(h, old(Snapshot()), c, nId)
    {
      hide IdOk, PosOk, AddrOk, TriedCellOk, NewCellOk, Inv, Cleared, ClearOk, M.ClearNew;
      ghost var s := Snapshot();
      PutBackOk(h, s, c, nId);
      EvictKeeps(h, s, c, {nId}, {nId});
      TriedAt(h, s, c, {nId}, {nId});
      var nIdEvict := TakeOutOfTried(c);
      var peer := mapInfo[nIdEvict].peer;
      var home := NewCell(h, nKey, peer.addr.service, GetNewBucket(h, nKey, peer.addr.service, peer.source));
      ClearNew(home, {nId} + {nIdEvict}, {nId} + {nIdEvict});
      mapInfo := mapInfo[nIdEvict := mapInfo[nIdEvict].(nRefCount := 1)];
      vvNew := vvNew[home := nIdEvict];
      nNew := nNew + 1;
    }

    // ----- the public operations -----

    /** Mark an address good. */
    method Good(addr: Service, testBeforeEvict: bool, nTime: int, nRnd: nat)
      requires Valid()
      modifies this
      ensures Valid() && nLastGood == nTime
      ensures old(Stamped(Snapshot())) ==>
                (Stamped(Snapshot()) <==> KeepsStamps(h, old(Snapshot()), addr, testBeforeEvict, nTime))
      ensures nKey == old(nKey) && nIdCount == old(nIdCount) && mapInfo.Keys <= old(mapInfo.Keys) &&
          old(vvTried.Keys) <= vvTried.Keys
      ensures GoodEffect(h, old(Snapshot()), Snapshot(), addr, testBeforeEvict, nTime)
      ensures GoodOutright(h, old(Snapshot()), Snapshot(), addr, testBeforeEvict, nTime)
    {
      hide Inv, IdOk, PosOk, AddrOk, TriedCellOk, NewCellOk, TriedIds, NewIds, Refs, Stamped, KeepsStamps;
      hide GoodEffect, GoodOutright;
      TriedHolders(h, Snapshot());
      nLastGood := nTime;
      Mark(addr, testBeforeEvict, nTime, nRnd);
      GoodIsOutright(h, old(Snapshot()), Snapshot(), addr, testBeforeEvict, nTime);
      if old(Stamped(Snapshot())) {
        GoodStamps(h, old(Snapshot()), Snapshot(), addr, testBeforeEvict, nTime);
      }
    }

    /** What Good does once it has noted the time. */
    method Mark(addr: Service, testBeforeEvict: bool, nTime: int, nRnd: nat)
      requires Valid()
      modifies this
      ensures Valid() && nLastGood == old(nLastGood)
      ensures nKey == old(nKey) && nIdCount == old(nIdCount) && mapInfo.Keys <= old(mapInfo.Keys) &&
          old(vvTried.Keys) <= vvTried.Keys
      ensures GoodEffect(h, old(Snapshot()), Snapshot(), addr, testBeforeEvict, nTime)
    {
      hide Inv, IdOk, PosOk, AddrOk, TriedCellOk, NewCellOk, TriedIds, NewIds, Refs;
      ghost var s := Snapshot();
      if addr.ip !in mapAddr { return; }
      var nId := mapAddr[addr.ip];
      AddrAt(h, s, addr.ip);
      if mapInfo[nId].Service() != addr { return; }
      var peer := mapInfo[nId].peer.(nLastSuccess := nTime, nLastTry := nTime, nAttempts := 0);
      SetPeerKeeps(h, s, nId, peer, {}, {});
      mapInfo := mapInfo[nId := mapInfo[nId].(peer := peer)];
      ghost var s1 := Snapshot();
      assert s1 == SetPeer(s, nId, peer);
      if mapInfo[nId].fInTried { return; }
      var nUBucket := FindBucket(nId, nRnd);
      assert nUBucket != -1;
      if nUBucket == -1 { return; }
      MoveOrQueue(nId, testBeforeEvict);
    }

    /** Some bucket that holds a new entry; there always is one. */
    method FindBucket(nId: int, nRnd: nat) returns (nUBucket: int)
      requires Inv(h, Snapshot(), {}, {}) && nId in mapInfo && !mapInfo[nId].fInTried
      ensures 0 <= nUBucket < NEW_BUCKET_COUNT && Get(vvNew, NewCell(h, nKey, mapInfo[nId].Service(), nUBucket)) == nId
    {
      hide Inv;
      RefsWhere(h, Snapshot(), nId);
      ghost var c :| c in Refs(vvNew, nId);
      ghost var at := TurnTo(c.bucket, nRnd);
      for n := 0 to NEW_BUCKET_COUNT
        invariant n <= at
      {
        var nB := (n + nRnd) % NEW_BUCKET_COUNT;
        if Get(vvNew, NewCell(h, nKey, mapInfo[nId].Service(), nB)) == nId {
          return nB;
        }
      }
      return -1;
    }

    /** Move a new entry to tried, or remember that its cell is taken. */
    method MoveOrQueue(nId: int, testBeforeEvict: bool)
      requires Valid() && nId in mapInfo && !mapInfo[nId].fInTried
      modifies this`mapInfo, this`mapAddr, this`vRandom, this`vvNew, this`vvTried, this`nNew, this`nTried,
          this`collisions
      ensures Valid() && old(vvTried.Keys) <= vvTried.Keys
      ensures MoveEffect(h, old(Snapshot()), Snapshot(), nId, testBeforeEvict)
    {
      hide Inv, IdOk, PosOk, AddrOk, TriedCellOk, NewCellOk, TriedIds, NewIds, Refs;
      ghost var s := Snapshot();
      IdAt(h, s, nId, {}, {});
      var c := TriedCell(h, nKey, mapInfo[nId].Service());
      if testBeforeEvict && c in vvTried {
        if |collisions| < SET_TRIED_COLLISION_SIZE {
          collisions := collisions + {nId};
          QueueKeeps(h, s, nId);
        }
      } else {
        MakeTriedKeeps(h, s, nId);
        MakeTriedEffect(h, s, nId);
        MakeTried(nId);
        CollisionsSurvive(h, s, Snapshot());
      }
    }

    method Create(addr: Address, source: NetAddr) returns (nId: int)
      requires addr.service.ip !in mapAddr && nIdCount >= 0
      modifies this`nIdCount, this`mapInfo, this`mapAddr, this`vRandom
      ensures nId == old(nIdCount)
      ensures Snapshot() == M.Create(old(Snapshot()), addr, source).(nNew := old(nNew))
    {
      nId := nIdCount;
      nIdCount := nIdCount + 1;
      mapInfo := mapInfo[nId := Info(Peer(addr, source, 0, 0, 0, 0), 0, false, -1)];
      mapAddr := mapAddr[addr.service.ip := nId];
      mapInfo := mapInfo[nId := mapInfo[nId].(nRandomPos := |vRandom|)];
      vRandom := vRandom + [nId];
    }

    /** Add an address to the new table. The result says that the address was not known before; it
        does not say that it is now. */
    method Add(addr: Address, source: NetAddr, nTimePenalty: int, now: int, rnd: nat) returns (fNew: bool)
      requires Valid()
      modifies this
      ensures Valid() && nLastGood == old(nLastGood)
      ensures old(Stamped(Snapshot())) ==> Stamped(Snapshot())
      ensures fNew <==> h.routable(addr.service.ip) && addr.service.ip !in old(mapAddr)
      ensures if h.routable(addr.service.ip) then AddEffect(h, old(Snapshot()), Snapshot(), addr, source)
              else Snapshot() == old(Snapshot())
      ensures h.routable(addr.service.ip) ==>
                AddSteps(h, old(Snapshot()), Snapshot(), addr, source, if addr.service.ip == source then 0
                                                                       else nTimePenalty, now, rnd)
      ensures forall x :: x in old(mapInfo) && x !in mapInfo ==>
                IsTerrible(old(mapInfo)[x].peer, now) && old(mapInfo)[x].nRefCount == 1
    {
      if !h.routable(addr.service.ip) { return false; }
      var penalty := if addr.service.ip == source then 0 else nTimePenalty;
      fNew := AddRoutable(addr, source, penalty, now, rnd);
      AddLosses(h, old(Snapshot()), Snapshot(), addr, source, penalty, now, rnd);
    }

    method AddRoutable(addr: Address, source: NetAddr, penalty: int, now: int, rnd: nat) returns (fNew: bool)
      requires Valid() && h.routable(addr.service.ip)
      modifies this
      ensures Valid() && nLastGood == old(nLastGood) && (old(Stamped(Snapshot())) ==> Stamped(Snapshot()))
      ensures fNew <==> addr.service.ip !in old(mapAddr)
      ensures AddEffect(h, old(Snapshot()), Snapshot(), addr, source)
      ensures AddSteps(h, old(Snapshot()), Snapshot(), addr, source, penalty, now, rnd)
    {
      hide Inv, IdOk, PosOk, AddrOk, TriedCellOk, NewCellOk, TriedIds, NewIds, Refs, Placed;
      ghost var s := Snapshot();
      var nId: int;
      if addr.service.ip in mapAddr {
        fNew := false;
        AddrAt(h, s, addr.service.ip);
        nId := mapAddr[addr.service.ip];
        IdAt(h, s, nId, {}, {});
        ghost var p := RefreshPeer(mapInfo[nId].peer, addr, penalty, now);
        var proceed := Refresh(nId, addr, penalty, now, rnd);
        if proceed {
          Place(nId, source, now);
          PlacedKnown(h, s, nId, p, Snapshot(), addr, source, now);
        } else {
          RefreshedIsAdd(h, s, nId, p, addr, source);
        }
      } else {
        fNew := true;
        nId := Announce(addr, source, penalty);
        Place(nId, source, now);
        PlacedNew(h, s, Max0(addr.nTime - penalty), Snapshot(), addr, source, now);
      }
      AddKeepsRest(h, s, Snapshot(), addr, source);
    }

    /** A new entry, counted in nNew, that still needs a cell. */
    method Announce(addr: Address, source: NetAddr, penalty: int) returns (nId: int)
      requires Inv(h, Snapshot(), {}, {}) && addr.service.ip !in mapAddr
      modifies this`nIdCount, this`mapInfo, this`mapAddr, this`vRandom, this`nNew
      ensures nId == old(nIdCount) >= 0 && old(nIdCount !in mapInfo && nIdCount !in vvNew.Values)
      ensures Inv(h, Snapshot(), {nId}, {})
      ensures Snapshot() == M.Create(old(Snapshot()), addr.(nTime := Max0(addr.nTime - penalty)), source)
    {
      assert 0 <= nIdCount;
      hide Inv, IdOk, PosOk, AddrOk, TriedCellOk, NewCellOk, M.Create;
      CreateReady(h, Snapshot());
      ghost var none: set<int> := {};
      ghost var s, nTime := Snapshot(), Max0(addr.nTime - penalty);
      CreateKeeps(h, s, addr.(nTime := nTime), source, none, {});
      assert none + {nIdCount} == {nIdCount};
      CreateLate(s, addr, source, nTime);
      nId := Create(addr, source);
      hide Max0;
      Penalize(nId, penalty);
      nNew := nNew + 1;
    }

    method Penalize(nId: int, penalty: int)
      requires nId in mapInfo
      modifies this`mapInfo
      ensures var was, p := old(mapInfo)[nId], old(mapInfo)[nId].peer;
        mapInfo == old(mapInfo)[nId := was.(peer := p.(addr := p.addr.(nTime := Max0(p.addr.nTime - penalty))))]
    {
      var p := mapInfo[nId].peer;
      mapInfo := mapInfo[nId := mapInfo[nId].(peer := p.(addr := p.addr.(nTime := Max0(p.addr.nTime - penalty))))];
    }

    /** Update a known entry and decide whether it may get another cell: 2^nRefCount times harder each
        time, never for a tried entry and never more than eight. */
    method Refresh(nId: int, addr: Address, penalty: int, now: int, rnd: nat) returns (proceed: bool)
      requires Valid() && nId in mapInfo
      modifies this`mapInfo
      ensures Valid() && Snapshot() == SetPeer(old(Snapshot()), nId,
          RefreshPeer(old(mapInfo[nId].peer), addr, penalty, now))
      ensures proceed <==> Proceeds(mapInfo[nId], addr, rnd)
    {
      hide Inv, IdOk, PosOk, AddrOk, TriedCellOk, NewCellOk, TriedIds, NewIds, Refs;
      IdAt(h, Snapshot(), nId, {}, {});
      SetPeerKeeps(h, Snapshot(), nId, RefreshPeer(mapInfo[nId].peer, addr, penalty, now), {}, {});
      var p := mapInfo[nId].peer;
      var fCurrentlyOnline := now - addr.nTime < 24 * 60 * 60;
      var nUpdateInterval := if fCurrentlyOnline then 60 * 60 else 24 * 60 * 60;
      if addr.nTime != 0 && (p.addr.nTime == 0 || p.addr.nTime < addr.nTime - nUpdateInterval - penalty) {
        p := p.(addr := p.addr.(nTime := Max0(addr.nTime - penalty)));
      }
      p := p.(addr := p.addr.(nServices := p.addr.nServices + addr.nServices));
      mapInfo := mapInfo[nId := mapInfo[nId].(peer := p)];
      if addr.nTime == 0 || (p.addr.nTime != 0 && addr.nTime <= p.addr.nTime) { return false; }
      if mapInfo[nId].fInTried { return false; }
      if mapInfo[nId].nRefCount == NEW_BUCKETS_PER_ADDRESS { return false; }
      var nFactor := 1;
      for n := 0 to mapInfo[nId].nRefCount
        invariant nFactor == Pow2(n)
      {
        nFactor := nFactor * 2;
      }
      if nFactor > 1 && rnd % nFactor != 0 { return false; }
      return true;
    }

    /** Give the entry the cell its announcer's bucket allows, if that is to be had. */
    method Place(nId: int, source: NetAddr, now: int)
      requires nId in mapInfo && !mapInfo[nId].fInTried && 0 <= mapInfo[nId].nRefCount < NEW_BUCKETS_PER_ADDRESS &&
          nId >= 0
      requires Inv(h, Snapshot(), if mapInfo[nId].nRefCount == 0 then {nId} else {}, {})
      modifies this`mapInfo, this`vRandom, this`mapAddr, this`nNew, this`vvNew
      ensures Inv(h, Snapshot(), {}, {})
      ensures Placed(old(Snapshot()), Snapshot(), nId, SourceCell(h, old(nKey), old(mapInfo[nId].Service()), source),
          now)
    {
      hide Inv, IdOk, PosOk, AddrOk, TriedCellOk, NewCellOk, TriedIds, NewIds, Refs, Cleared, IsTerrible, Taken;
      ghost var s := Snapshot();
      ghost var zero := if mapInfo[nId].nRefCount == 0 then {nId} else {};
      var nUBucket := GetNewBucket(h, nKey, mapInfo[nId].Service(), source);
      var c := NewCell(h, nKey, mapInfo[nId].Service(), nUBucket);
      if Get(vvNew, c) != nId {
        var fInsert := c !in vvNew;
        if !fInsert {
          NewAt(h, s, c, zero, {});
          var existing := mapInfo[vvNew[c]];
          if IsTerrible(existing.peer, now) || (existing.nRefCount > 1 && mapInfo[nId].nRefCount == 0) {
            fInsert := true;
          }
        }
        if fInsert {
          Take(nId, c, zero);
          PlacedByTaking(h, s, nId, c, now);
        } else if mapInfo[nId].nRefCount == 0 {
          Withdraw(nId, c, now);
        }
      } else {
        HoldsCell(h, s, nId, c, zero);
      }
    }

    /** An entry that got no cell is deleted again. */
    method Withdraw(nId: int, c: Cell, ghost now: int)
      requires nId in mapInfo && !mapInfo[nId].fInTried && mapInfo[nId].nRefCount == 0 && Inv(h, Snapshot(), {nId}, {})
      requires Get(vvNew, c) != nId && !GivesWay(Snapshot(), nId, c, now)
      modifies this`mapInfo, this`vRandom, this`mapAddr, this`nNew
      ensures Inv(h, Snapshot(), {}, {}) && Placed(old(Snapshot()), Snapshot(), nId, c, now)
    {
      hide Inv, IdOk, PosOk, AddrOk, TriedCellOk, NewCellOk, M.Delete, GivesWay;
      ghost var s := Snapshot();
      IdAt(h, s, nId, {nId}, {});
      DeleteKeeps(h, s, nId, {nId}, {});
      DeleteEffect(h, s, nId, {nId}, {});
      assert {nId} - {nId} == {};
      Delete(nId);
    }

    method Take(nId: int, c: Cell, ghost zero: set<int>)
      requires TakeReady(h, Snapshot(), nId, c, zero)
      modifies this`mapInfo, this`vRandom, this`mapAddr, this`nNew, this`vvNew
      ensures Inv(h, Snapshot(), {}, {}) && Snapshot() == Taken(h, old(Snapshot()), nId, c, zero)
    {
      hide Inv, IdOk, PosOk, AddrOk, TriedCellOk, NewCellOk, TriedIds, NewIds, Refs, Cleared, M.ClearNew, ClearOk;
      TakenKeeps(h, Snapshot(), nId, c, zero);
      ClearNew(c, zero, {});
      mapInfo := mapInfo[nId := mapInfo[nId].(nRefCount := mapInfo[nId].nRefCount + 1)];
      vvNew := vvNew[c := nId];
    }

    /** Find the entry of exactly this service. */
    method FindService(addr: Service) returns (nId: int)
      requires Valid()
      ensures nId == -1 || (nId >= 0 && nId in mapInfo && mapInfo[nId].Service() == addr)
      ensures nId == -1 ==> forall id :: id in mapInfo ==> mapInfo[id].Service() != addr
    {
      nId := -1;
      if addr.ip in mapAddr {
        AddrAt(h, Snapshot(), addr.ip);
        IdAt(h, Snapshot(), mapAddr[addr.ip], {}, {});
        if mapInfo[mapAddr[addr.ip]].Service() == addr {
          return mapAddr[addr.ip];
        }
      }
      forall id | id in mapInfo ensures mapInfo[id].Service() != addr {
        IdAt(h, Snapshot(), id, {}, {});
      }
    }

    method Attempt(addr: Service, fCountFailure: bool, nTime: int)
      requires Valid()
      modifies this`mapInfo
      ensures Valid() && (old(Stamped(Snapshot())) && nTime >= 0 ==> Stamped(Snapshot()))
      ensures mapInfo.Keys == old(mapInfo.Keys)
      ensures forall id :: id in mapInfo ==>
          mapInfo[id] == Attempted(old(mapInfo)[id], addr, fCountFailure, nTime, nLastGood)
    {
      hide Inv;
      var nId := FindService(addr);
      if nId == -1 { return; }
      OnlyOne(h, Snapshot(), nId);
      var p := mapInfo[nId].peer.(nLastTry := nTime);
      if fCountFailure && p.nLastCountAttempt < nLastGood {
        p := p.(nLastCountAttempt := nTime, nAttempts := p.nAttempts + 1);
      }
      SetPeerValid(h, Snapshot(), nId, p);
      mapInfo := mapInfo[nId := mapInfo[nId].(peer := p)];
    }

    method Connected(addr: Service, nTime: int)
      requires Valid()
      modifies this`mapInfo
      ensures Valid() && (old(Stamped(Snapshot())) ==> Stamped(Snapshot()))
      ensures mapInfo.Keys == old(mapInfo.Keys)
      ensures forall id :: id in mapInfo ==> mapInfo[id] == NowConnected(old(mapInfo)[id], addr, nTime)
    {
      hide Inv;
      var nId := FindService(addr);
      if nId == -1 { return; }
      OnlyOne(h, Snapshot(), nId);
      var p := mapInfo[nId].peer;
      if nTime - p.addr.nTime > 20 * 60 {
        p := p.(addr := p.addr.(nTime := nTime));
        if Stamped(Snapshot()) { StampAt(Snapshot(), nId); }
        SetPeerValid(h, Snapshot(), nId, p);
        mapInfo := mapInfo[nId := mapInfo[nId].(peer := p)];
      }
    }

    /** Draw addresses in random order: distinct, fit to pass on, within the limits, and everything fit
        if the limits allow. `ids` names the entries returned. */
    method GetAddr(maxAddresses: nat, maxPct: nat, network: Option<nat>, now: int, rnd: nat -> nat)
      returns (vAddr: seq<Address>, ghost ids: seq<int>)
      requires Valid()
      modifies this`mapInfo, this`vRandom
      ensures Valid() && Shuffled(old(Snapshot()), Snapshot()) && (old(Stamped(Snapshot())) ==> Stamped(Snapshot()))
      ensures |vAddr| == |ids| <= Quota(|vRandom|, maxAddresses, maxPct)
      ensures forall i, j :: 0 <= i < j < |ids| ==> ids[i] != ids[j]
      ensures forall i :: 0 <= i < |ids| ==>
          ids[i] in mapInfo && Eligible(h, mapInfo[ids[i]], network, now) && vAddr[i] == mapInfo[ids[i]].peer.addr
      ensures forall i :: 0 <= i < |ids| ==> !IsTerrible(mapInfo[ids[i]].peer, now)
      ensures network.Some? ==> forall a :: a in vAddr ==> h.network(a.service.ip) == network.value
      ensures |vAddr| < Quota(|vRandom|, maxAddresses, maxPct) ==>
                forall id :: id in mapInfo && Eligible(h, mapInfo[id], network, now) ==> id in ids
    {
      hide Inv, IsTerrible, ChosenFrom, CollisionOk;
      ChooseNone(h, Snapshot(), network, now);
      vAddr, ids := [], [];
      var nNodes := CountNodes(maxAddresses, maxPct);
      ghost var s := Snapshot();
      var n := 0;
      while n < |vRandom|
        invariant Valid() && Shuffled(s, Snapshot()) && 0 <= n <= |vRandom|
        invariant |vAddr| == |ids| <= nNodes
        invariant ChosenFrom(h, Snapshot(), n, ids, network, now)
        invariant forall i :: 0 <= i < |ids| ==> ids[i] in mapInfo && vAddr[i] == mapInfo[ids[i]].peer.addr
      {
        if |vAddr| >= nNodes { break; }
        var nRndPos := rnd(n) % (|vRandom| - n) + n;
        RandomKnown(h, Snapshot(), n);
        RandomKnown(h, Snapshot(), nRndPos);
        ghost var before := Snapshot();
        Shuffle(n, nRndPos, ids, network, now);
        ShuffledPeers(before, Snapshot(), ids, vAddr);
        RandomKnown(h, Snapshot(), n);
        ChooseNext(h, Snapshot(), n, ids, network, now);
        var ai := mapInfo[vRandom[n]];
        ghost var nId := vRandom[n];
        n := n + 1;
        if network.Some? && h.network(ai.Ip()) != network.value { continue; }
        if IsTerrible(ai.peer, now) { continue; }
        vAddr := vAddr + [ai.peer.addr];
        ids := ids + [nId];
      }
      ChosenFacts(h, Snapshot(), n, ids, network, now);
      ShuffledStamps(s, Snapshot());
    }

    method CountNodes(maxAddresses: nat, maxPct: nat) returns (nNodes: nat)
      ensures nNodes == Quota(|vRandom|, maxAddresses, maxPct)
    {
      nNodes := |vRandom|;
      if maxPct != 0 {
        nNodes := maxPct * nNodes / 100;
      }
      if maxAddresses != 0 && maxAddresses < nNodes {
        nNodes := maxAddresses;
      }
    }

    /** One swap of GetAddr's shuffle. */
    method Shuffle(n: nat, j: nat, ghost ids: seq<int>, ghost network: Option<nat>, ghost now: int)
      requires Valid() && n <= j && SwapOk(Snapshot(), n, j) && ChosenFrom(h, Snapshot(), n, ids, network, now)
      modifies this`mapInfo, this`vRandom
      ensures Valid() && Shuffled(old(Snapshot()), Snapshot()) && ChosenFrom(h, Snapshot(), n, ids, network, now)
    {
      hide Inv, ChosenFrom, Eligible;
      SwapValid(h, Snapshot(), n, j);
      SwapShuffles(Snapshot(), n, j);
      SwapChosen(h, Snapshot(), n, j, ids, network, now);
      SwapRandom(n, j);
    }

    /** Settle the collisions whose incumbents have been tested, or could not be, in increasing order
        of ids: trace[k] is the state before id k is looked at. */
    method ResolveCollisions(now: int, rnd: nat) returns (ghost trace: seq<State>)
      requires Valid()
      modifies this
      ensures Valid() && collisions <= old(collisions) && nKey == old(nKey)
      ensures mapInfo.Keys <= old(mapInfo.Keys) && old(vvTried.Keys) <= vvTried.Keys
      ensures old(Stamped(Snapshot())) && now > 0 ==> Stamped(Snapshot())
      ensures |trace| == old(nIdCount) + 1 && trace[0] == old(Snapshot()) && trace[|trace| - 1] == Snapshot()
      ensures SettledInTurn(h, trace, now) && AllSettled(h, old(Snapshot()), Snapshot(), now)
    {
      hide Stamped, CollisionOk, Refs, MovedToTried;
      ghost var s := Snapshot();
      assert 0 <= nIdCount;
      hide Inv, Settles, SettledInTurn, AllSettled;
      trace := [s];
      StartTrace(h, s, now);
      for idNew := 0 to nIdCount
        invariant Valid() && collisions <= s.collisions && nKey == s.nKey && nIdCount == s.nIdCount
        invariant mapInfo.Keys <= s.mapInfo.Keys && s.vvTried.Keys <= vvTried.Keys
        invariant Stamped(s) && now > 0 ==> Stamped(Snapshot())
        invariant |trace| == idNew + 1 && trace[0] == s && trace[idNew] == Snapshot()
        invariant SettledInTurn(h, trace, now)
      {
        if idNew in collisions {
          ResolveAndForget(idNew, now, rnd);
        }
        ExtendTrace(h, trace, Snapshot(), now);
        trace := trace + [Snapshot()];
      }
      Outcome(h, trace, now);
    }

    method ResolveAndForget(idNew: int, now: int, rnd: nat)
      requires Valid() && idNew in collisions
      modifies this
      ensures Valid() && collisions <= old(collisions) && nKey == old(nKey) && nIdCount == old(nIdCount)
      ensures mapInfo.Keys <= old(mapInfo.Keys) && old(vvTried.Keys) <= vvTried.Keys
      ensures old(Stamped(Snapshot())) && now > 0 ==> Stamped(Snapshot())
      ensures Settles(h, old(Snapshot()), Snapshot(), idNew, now)
    {
      hide Inv, Stamped, CollisionOk, Refs, GoodEffect, Settles;
      var erase := ResolveOne(idNew, now, rnd);
      if erase {
        ForgetCollision(h, Snapshot(), idNew);
        collisions := collisions - {idNew};
      }
    }

    method ResolveOne(idNew: int, now: int, rnd: nat) returns (erase: bool)
      requires Valid() && idNew in collisions
      modifies this
      ensures Valid() && collisions == old(collisions) && nKey == old(nKey) && nIdCount == old(nIdCount)
      ensures mapInfo.Keys <= old(mapInfo.Keys) && old(vvTried.Keys) <= vvTried.Keys
      ensures old(Stamped(Snapshot())) && now > 0 ==> Stamped(Snapshot())
      ensures var s := Snapshot();
        Settles(h, old(Snapshot()), if erase then s.(collisions := s.collisions - {idNew}) else s, idNew, now)
    {
      hide Inv, Stamped, CollisionOk, Refs, GoodEffect, TakesOver;
      erase := false;
      if idNew !in mapInfo {
        return true;
      }
      var service := mapInfo[idNew].Service();
      var c := TriedCell(h, nKey, service);
      if !h.valid(service.ip) {
        return true;
      }
      if c in vvTried {
        CollisionAt(h, Snapshot(), idNew);
        var old_ := mapInfo[vvTried[c]].peer;
        if now - old_.nLastSuccess < REPLACEMENT_HOURS * (60 * 60) {
          return true;
        } else if now - old_.nLastTry < REPLACEMENT_HOURS * (60 * 60) {
          if now - old_.nLastTry > 60 {
            ReplaceIncumbent(idNew, now, rnd);
            return true;
          }
        } else if now - mapInfo[idNew].peer.nLastSuccess > TEST_WINDOW {
          ReplaceIncumbent(idNew, now, rnd);
          return true;
        }
      } else {
        ReplaceIncumbent(idNew, now, rnd);
        return true;
      }
    }

    /** Good_ without the test: whatever is in the way makes room. */
    method ReplaceIncumbent(idNew: int, now: int, rnd: nat)
      requires Valid() && idNew in mapInfo
      modifies this
      ensures Valid() && collisions == old(collisions) && nKey == old(nKey) && nIdCount == old(nIdCount)
      ensures mapInfo.Keys <= old(mapInfo.Keys) && old(vvTried.Keys) <= vvTried.Keys
      ensures old(Stamped(Snapshot())) && now > 0 ==> Stamped(Snapshot())
      ensures TakesOver(h, old(Snapshot()), Snapshot().(collisions := collisions - {idNew}), idNew, now)
    {
      hide Inv, Stamped, CollisionOk, Refs, GoodEffect, TakesOver;
      var service := mapInfo[idNew].Service();
      Good(service, false, now, rnd);
      GoodKeepsCollisions(h, old(Snapshot()), Snapshot(), service, now);
      GoodTakesOver(h, old(Snapshot()), Snapshot(), idNew, now);
    }

    /** A tried entry that some other address, drawn at random, wants to evict: never an empty cell. */
    method SelectTriedCollision(idNew: int) returns (r: Option<Info>)
      requires Valid() && (collisions != {} ==> idNew in collisions)
      modifies this`collisions
      ensures Valid() && collisions <= old(collisions) && (old(Stamped(Snapshot())) ==> Stamped(Snapshot()))
      ensures r.Some? ==> collisions == old(collisions) && IsIncumbent(h, Snapshot(), idNew, r.value)
      ensures r == None ==> old(collisions) == {} || (idNew !in mapInfo && collisions == old(collisions) - {idNew})
    {
      hide Inv;
      if collisions == {} { return None; }
      if idNew !in mapInfo {
        ForgetCollision(h, Snapshot(), idNew);
        collisions := collisions - {idNew};
        return None;
      }
      CollisionAt(h, Snapshot(), idNew);
      var c := TriedCell(h, nKey, mapInfo[idNew].Service());
      assert c in vvTried;
      r := Some(mapInfo[vvTried[c]]);
      assert IsIncumbent(h, Snapshot(), idNew, r.value);
    }
  }
}
