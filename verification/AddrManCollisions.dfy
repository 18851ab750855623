/**
 Addresses that wait to replace a tried entry (ResolveCollisions_, src/addrman.cpp): what settling one
 does, and what settling all in turn leads to.
 */
module AddrManCollisions {
  import opened M = AddrManModel

  /** The record of a peer that was marked good: only its stamps change. */
  ghost predicate MarkedGood(p: Peer, p': Peer, now: int) {
    && p'.nLastSuccess == now && p'.nLastTry == now && p'.nAttempts == 0
    && p'.addr == p.addr && p'.source == p.source && p'.nLastCountAttempt == p.nLastCountAttempt
  }

  /** id drives whoever holds its tried cell back to the new table, and its collision is over. */
  ghost predicate TakesOver(h: Hashing, s: State, s': State, id: int, now: int)
    requires id in s.mapInfo
  {
    var c := TriedCell(h, s.nKey, s.mapInfo[id].Service());
    && s'.nKey == s.nKey && s'.collisions == s.collisions - {id} && s'.vvTried == s.vvTried[c := id]
    && id in s'.mapInfo && s'.mapInfo[id].fInTried && MarkedGood(s.mapInfo[id].peer, s'.mapInfo[id].peer, now)
    && (forall x :: x in s'.mapInfo ==> x in s.mapInfo)
    && (forall x :: x in s'.mapInfo && x != id ==> s'.mapInfo[x].peer == s.mapInfo[x].peer)
    && (c in s.vvTried && s.vvTried[c] != id ==>
          var x := s.vvTried[c];
          x in s'.mapInfo && !s'.mapInfo[x].fInTried && s'.mapInfo[x].nRefCount == 1)
  }

  ghost predicate LetGo(s: State, s': State, id: int) { s' == s.(collisions := s.collisions - {id}) }

  /** What becomes of the waiting id. It is let go if it is gone or not valid any more, or if the entry in
      its cell succeeded within four hours. It takes over if that entry was tried within four hours in
      vain, at least a minute ago, or was not tried for four hours and id itself succeeded more than
      forty minutes ago, or if the cell is free after all. Otherwise it waits on. */
  ghost predicate Settles(h: Hashing, s: State, s': State, id: int, now: int) {
    if id !in s.mapInfo || !h.valid(s.mapInfo[id].Ip()) then LetGo(s, s', id)
    else
      var c := TriedCell(h, s.nKey, s.mapInfo[id].Service());
      if c !in s.vvTried then TakesOver(h, s, s', id, now)
      else
        && s.vvTried[c] in s.mapInfo
        && var holder := s.mapInfo[s.vvTried[c]].peer;
           var good, tried, waited := now - holder.nLastSuccess, now - holder.nLastTry,
               now - s.mapInfo[id].peer.nLastSuccess;
           && (good < 4 * 60 * 60 ==> LetGo(s, s', id))
           && (good >= 4 * 60 * 60 && tried <= 60 ==> s' == s)
           && (good >= 4 * 60 * 60 && 60 < tried < 4 * 60 * 60 ==> TakesOver(h, s, s', id, now))
           && (good >= 4 * 60 * 60 && tried >= 4 * 60 * 60 && waited > 40 * 60 ==> TakesOver(h, s, s', id, now))
           && (good >= 4 * 60 * 60 && tried >= 4 * 60 * 60 && waited <= 40 * 60 ==> s' == s)
  }

  ghost predicate InTurn(h: Hashing, s: State, s': State, id: int, now: int) {
    if id in s.collisions then Settles(h, s, s', id, now) else s' == s
  }

  /** trace[k] is the state before id k is looked at. */
  ghost predicate SettledInTurn(h: Hashing, trace: seq<State>, now: int) {
    && (forall k :: 0 <= k < |trace| ==> Consistent(h, trace[k]))
    && forall k :: 0 <= k < |trace| - 1 ==> InTurn(h, trace[k], trace[k + 1], k, now)
  }

  lemma StartTrace(h: Hashing, s: State, now: int)
    requires Consistent(h, s)
    ensures SettledInTurn(h, [s], now)
  {
  }

  lemma ExtendTrace(h: Hashing, trace: seq<State>, s': State, now: int)
    requires |trace| > 0 && SettledInTurn(h, trace, now) && Consistent(h, s')
    requires InTurn(h, trace[|trace| - 1], s', |trace| - 1, now)
    ensures SettledInTurn(h, trace + [s'], now)
  {
    hide InTurn, Consistent;
    var longer := trace + [s'];
    forall k | 0 <= k < |longer| - 1
      ensures InTurn(h, longer[k], longer[k + 1], k, now)
    {
      if k < |trace| - 1 {
        assert InTurn(h, trace[k], trace[k + 1], k, now);
      }
    }
  }

  // ----- what all turns together lead to -----

  predicate GoodLately(p: Peer, now: int) { now - p.nLastSuccess < 4 * 60 * 60 }

  /** An entry that nobody may drive out now. */
  predicate Spared(p: Peer, now: int) { GoodLately(p, now) || now - p.nLastTry <= 60 }

  /** An entry that q, waiting for its cell, is to drive out now. */
  predicate Overdue(p: Peer, q: Peer, now: int) {
    && now - p.nLastSuccess >= 4 * 60 * 60
    && (60 < now - p.nLastTry < 4 * 60 * 60 || (now - p.nLastTry >= 4 * 60 * 60 && now - q.nLastSuccess > 40 * 60))
  }

  ghost predicate HeldBy(s: State, c: Cell, x: int) { c in s.vvTried && s.vvTried[c] == x && x in s.mapInfo }

  ghost predicate WaitsFor(h: Hashing, s: State, id: int, c: Cell) {
    id in s.collisions && id in s.mapInfo && c == TriedCell(h, s.nKey, s.mapInfo[id].Service())
  }

  /** Cell c has gone from an entry that was not spared to one that waited for it. */
  ghost predicate GoneTo(h: Hashing, s0: State, s: State, c: Cell, now: int) {
    && c in s.vvTried && HeldBy(s, c, s.vvTried[c]) && WaitsFor(h, s0, s.vvTried[c], c) && s.vvTried[c] !in s.collisions
    && s.mapInfo[s.vvTried[c]].peer.nLastSuccess == now
    && c in s0.vvTried && HeldBy(s0, c, s0.vvTried[c]) && !Spared(s0.mapInfo[s0.vvTried[c]].peer, now)
  }

  ghost predicate CellAfter(h: Hashing, s0: State, s: State, c: Cell, now: int) {
    c in s0.vvTried ==>
      || GoneTo(h, s0, s, c, now)
      || (HeldBy(s0, c, s0.vvTried[c]) && HeldBy(s, c, s0.vvTried[c])
          && s.mapInfo[s0.vvTried[c]].peer == s0.mapInfo[s0.vvTried[c]].peer)
  }

  /** What holds of the waiting id when it is the turn of k. */
  ghost predicate IdAfter(h: Hashing, s0: State, s: State, k: int, id: int, now: int) {
    && (id in s.mapInfo ==> id in s0.mapInfo && s.mapInfo[id].peer.addr == s0.mapInfo[id].peer.addr)
    && (id in s0.collisions && id >= k ==>
          id in s.collisions && (id in s.mapInfo ==> s.mapInfo[id].peer == s0.mapInfo[id].peer))
    && (id in s0.collisions && id < k ==> TurnOver(h, s0, s, id, now))
  }

  /** The turn of id is over: it waits no more if it is gone or not valid, or if the entry in its cell
      succeeded lately; an entry that was overdue has lost its cell; and in any other case id still waits,
      unless another one took the cell. */
  ghost predicate TurnOver(h: Hashing, s0: State, s: State, id: int, now: int) {
    if id !in s0.mapInfo || !h.valid(s0.mapInfo[id].Ip()) then id !in s.collisions
    else
      var c := TriedCell(h, s0.nKey, s0.mapInfo[id].Service());
      && c in s0.vvTried && HeldBy(s0, c, s0.vvTried[c])
      && var holder := s0.mapInfo[s0.vvTried[c]].peer;
         && (GoodLately(holder, now) ==> id !in s.collisions)
         && (id in s.mapInfo && Overdue(holder, s0.mapInfo[id].peer, now) ==>
             id !in s.collisions && GoneTo(h, s0, s, c, now))
         && (id in s.mapInfo && !GoodLately(holder, now) && !Overdue(holder, s0.mapInfo[id].peer, now) ==>
               id in s.collisions || GoneTo(h, s0, s, c, now))
  }

  ghost predicate SoFar(h: Hashing, s0: State, s: State, k: int, now: int) {
    && s.nKey == s0.nKey && s.collisions <= s0.collisions
    && (forall c :: CellAfter(h, s0, s, c, now)) && forall id :: IdAfter(h, s0, s, k, id, now)
  }

  lemma SoFarStart(h: Hashing, s0: State, now: int)
    requires Consistent(h, s0)
    ensures SoFar(h, s0, s0, 0, now)
  {
    forall c ensures CellAfter(h, s0, s0, c, now) { assert TriedCellOk(h, s0, c); }
    forall id ensures IdAfter(h, s0, s0, 0, id, now) { assert CollisionOk(h, s0, id); }
  }

  /** A turn changes at most the cell that k waits for, and lets only k go. */
  lemma TurnFrame(h: Hashing, s: State, s': State, k: int, now: int)
    requires Consistent(h, s) && InTurn(h, s, s', k, now)
    ensures s'.nKey == s.nKey && s.collisions - {k} <= s'.collisions <= s.collisions
    ensures forall x :: x in s'.mapInfo ==> x in s.mapInfo && s'.mapInfo[x].peer.addr == s.mapInfo[x].peer.addr
    ensures forall x :: x in s'.mapInfo && x != k ==> s'.mapInfo[x].peer == s.mapInfo[x].peer
    ensures s' == s || LetGo(s, s', k) || (k in s.collisions && k in s.mapInfo && TakesOver(h, s, s', k, now))
  {
    hide Consistent;
  }

  /** Whoever holds another cell keeps it, with the same record. */
  lemma OtherCell(h: Hashing, s: State, s': State, k: int, c: Cell, now: int)
    requires Consistent(h, s) && Consistent(h, s') && InTurn(h, s, s', k, now)
    requires c in s.vvTried && HeldBy(s, c, s.vvTried[c]) && !WaitsFor(h, s, k, c)
    ensures HeldBy(s', c, s.vvTried[c]) && s'.mapInfo[s.vvTried[c]].peer == s.mapInfo[s.vvTried[c]].peer
  {
    assert TriedCellOk(h, s, c) && TriedCellOk(h, s', c);
    hide Inv, CollisionsOk;
    TurnFrame(h, s, s', k, now);
    hide InTurn;
  }

  /** The entry in the cell that k waits for stays if it is spared. */
  lemma OwnCellSpared(h: Hashing, s: State, s': State, k: int, c: Cell, now: int)
    requires InTurn(h, s, s', k, now) && WaitsFor(h, s, k, c) && c in s.vvTried && HeldBy(s, c, s.vvTried[c])
    requires Spared(s.mapInfo[s.vvTried[c]].peer, now)
    ensures s' == s || LetGo(s, s', k)
    ensures GoodLately(s.mapInfo[s.vvTried[c]].peer, now) ==> k !in s'.collisions
  {
  }

  lemma GoneStays(h: Hashing, s0: State, s: State, s': State, k: int, c: Cell, now: int)
    requires Consistent(h, s) && Consistent(h, s') && InTurn(h, s, s', k, now) && GoneTo(h, s0, s, c, now)
    ensures GoneTo(h, s0, s', c, now)
  {
    hide Consistent;
    TurnFrame(h, s, s', k, now);
    if WaitsFor(h, s, k, c) {
      OwnCellSpared(h, s, s', k, c, now);
    } else {
      OtherCell(h, s, s', k, c, now);
    }
  }

  lemma CellStep(h: Hashing, s0: State, s: State, s': State, k: int, c: Cell, now: int)
    requires Consistent(h, s) && Consistent(h, s') && InTurn(h, s, s', k, now) && SoFar(h, s0, s, k, now)
    ensures CellAfter(h, s0, s', c, now)
  {
    assert CellAfter(h, s0, s, c, now) && IdAfter(h, s0, s, k, k, now);
    hide Consistent, SoFar, InTurn;
    if c in s0.vvTried {
      if GoneTo(h, s0, s, c, now) {
        GoneStays(h, s0, s, s', k, c, now);
      } else if !WaitsFor(h, s, k, c) {
        OtherCell(h, s, s', k, c, now);
      } else {
        OwnCell(h, s0, s, s', k, c, now);
      }
    }
  }

  /** The turn of k comes while its cell is as it was. */
  lemma OwnCell(h: Hashing, s0: State, s: State, s': State, k: int, c: Cell, now: int)
    requires Consistent(h, s) && InTurn(h, s, s', k, now) && SoFar(h, s0, s, k, now) && WaitsFor(h, s, k, c)
    requires c in s0.vvTried && !GoneTo(h, s0, s, c, now)
    ensures CellAfter(h, s0, s', c, now)
    ensures HeldBy(s0, c, s0.vvTried[c]) && WaitsFor(h, s0, k, c)
    ensures GoodLately(s0.mapInfo[s0.vvTried[c]].peer, now) ==> k !in s'.collisions
    ensures h.valid(s.mapInfo[k].Ip()) && Overdue(s0.mapInfo[s0.vvTried[c]].peer, s0.mapInfo[k].peer, now) ==>
      k !in s'.collisions && GoneTo(h, s0, s', c, now)
    ensures var holder := s0.mapInfo[s0.vvTried[c]].peer;
      h.valid(s.mapInfo[k].Ip()) && !GoodLately(holder, now) && !Overdue(holder, s0.mapInfo[k].peer, now) ==>
          k in s'.collisions
  {
    assert CellAfter(h, s0, s, c, now) && IdAfter(h, s0, s, k, k, now);
    hide Consistent, SoFar;
  }

  lemma IdStep(h: Hashing, s0: State, s: State, s': State, k: int, id: int, now: int)
    requires Consistent(h, s0) && Consistent(h, s) && Consistent(h, s') && InTurn(h, s, s', k, now) &&
        SoFar(h, s0, s, k, now)
    ensures IdAfter(h, s0, s', k + 1, id, now)
  {
    assert IdAfter(h, s0, s, k, id, now) && CollisionOk(h, s0, id);
    TurnFrame(h, s, s', k, now);
    if id in s0.collisions && id <= k {
      hide InTurn, SoFar, Consistent, IdAfter;
      if id == k {
        OwnTurn(h, s0, s, s', k, now);
      } else {
        assert TurnOver(h, s0, s, id, now) by {
          assert IdAfter(h, s0, s, k, id, now);
          TurnWasOver(h, s0, s, k, id, now);
        }
        if id in s0.mapInfo {
          var c := TriedCell(h, s0.nKey, s0.mapInfo[id].Service());
          if GoneTo(h, s0, s, c, now) { GoneStays(h, s0, s, s', k, c, now); }
        }
      }
      IdAfterTurn(h, s0, s, s', k, id, now);
    }
  }

  lemma TurnWasOver(h: Hashing, s0: State, s: State, k: int, id: int, now: int)
    requires IdAfter(h, s0, s, k, id, now) && id in s0.collisions && id < k
    ensures TurnOver(h, s0, s, id, now)
  {
  }

  lemma IdAfterTurn(h: Hashing, s0: State, s: State, s': State, k: int, id: int, now: int)
    requires IdAfter(h, s0, s, k, id, now) && id <= k && TurnOver(h, s0, s', id, now)
    requires id in s'.mapInfo ==> id in s.mapInfo && s'.mapInfo[id].peer.addr == s.mapInfo[id].peer.addr
    ensures IdAfter(h, s0, s', k + 1, id, now)
  {
  }

  /** After its own turn the turn of k is over. */
  lemma OwnTurn(h: Hashing, s0: State, s: State, s': State, k: int, now: int)
    requires Consistent(h, s0) && Consistent(h, s) && Consistent(h, s') && InTurn(h, s, s', k, now) &&
        SoFar(h, s0, s, k, now)
    requires k in s0.collisions
    ensures TurnOver(h, s0, s', k, now)
  {
    assert IdAfter(h, s0, s, k, k, now) && CollisionOk(h, s0, k);
    TurnFrame(h, s, s', k, now);
    if k in s0.mapInfo {
      var c := TriedCell(h, s0.nKey, s0.mapInfo[k].Service());
      assert TriedCellOk(h, s0, c);
      if k in s.mapInfo {
        hide Consistent;
        if GoneTo(h, s0, s, c, now) {
          OwnCellSpared(h, s, s', k, c, now);
          GoneStays(h, s0, s, s', k, c, now);
        } else {
          OwnCell(h, s0, s, s', k, c, now);
        }
      }
    }
  }

  lemma {:induction false} AllTurns(h: Hashing, trace: seq<State>, now: int, k: nat)
    requires SettledInTurn(h, trace, now) && k < |trace|
    ensures SoFar(h, trace[0], trace[k], k, now)
  {
    hide Consistent, InTurn, CellAfter, IdAfter;
    if k == 0 {
      SoFarStart(h, trace[0], now);
    } else {
      AllTurns(h, trace, now, k - 1);
      var s0, s, s' := trace[0], trace[k - 1], trace[k];
      assert InTurn(h, s, s', k - 1, now);
      TurnFrame(h, s, s', k - 1, now);
      forall c ensures CellAfter(h, s0, s', c, now) { CellStep(h, s0, s, s', k - 1, c, now); }
      forall id ensures IdAfter(h, s0, s', k, id, now) { IdStep(h, s0, s, s', k - 1, id, now); }
    }
  }

  /** What settling all collisions leads to. A spared entry keeps its tried cell; every cell is held as
      before or by an id that waited for it; and the turn of every waiting id is over. */
  ghost predicate AllSettled(h: Hashing, s0: State, s: State, now: int) {
    && (forall c :: c in s0.vvTried ==> SparedKeeps(s0, s, c, now))
    && (forall c :: c in s0.vvTried ==>
        c in s.vvTried && (s.vvTried[c] == s0.vvTried[c] || WaitsFor(h, s0, s.vvTried[c], c)))
    && (forall id :: id in s0.collisions ==> TurnOver(h, s0, s, id, now))
  }

  ghost predicate SparedKeeps(s0: State, s: State, c: Cell, now: int)
    requires c in s0.vvTried
  {
    var x := s0.vvTried[c];
    x in s0.mapInfo && Spared(s0.mapInfo[x].peer, now) ==>
      HeldBy(s, c, x) && s.mapInfo[x].peer == s0.mapInfo[x].peer
  }

  lemma Outcome(h: Hashing, trace: seq<State>, now: int)
    requires SettledInTurn(h, trace, now) && |trace| > 0 && |trace| == trace[0].nIdCount + 1
    ensures AllSettled(h, trace[0], trace[|trace| - 1], now)
  {
    var n := |trace| - 1;
    var s0, s := trace[0], trace[n];
    AllTurns(h, trace, now, n);
    assert Consistent(h, s0);
    forall c | c in s0.vvTried
      ensures SparedKeeps(s0, s, c, now)
      ensures c in s.vvTried && (s.vvTried[c] == s0.vvTried[c] || WaitsFor(h, s0, s.vvTried[c], c))
    {
      assert CellAfter(h, s0, s, c, now);
    }
    forall id | id in s0.collisions ensures TurnOver(h, s0, s, id, now) {
      assert CollisionOk(h, s0, id) && IdAfter(h, s0, s, n, id, now);
    }
  }
}
