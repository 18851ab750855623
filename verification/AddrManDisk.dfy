/**
 The address manager on disk (Serialize and Unserialize of src/addrman.h). The stream is a record of
 what is written; ids are replaced by positions in it.
 */
module AddrManDisk {
  import opened M = AddrManModel
  import A = AddrMan

  const FILE_FORMAT: nat := 3
  const V1_DETERMINISTIC: nat := 1
  const V2_ASMAP: nat := 2
  const INCOMPATIBILITY_BASE: nat := 32

  /** The part of an entry that is written. */
  datatype DiskInfo = DiskInfo(addr: Address, source: NetAddr, nLastSuccess: int, nAttempts: int)

  datatype Stream = Stream(
    format: nat, compat: nat, nKey: nat, nNew: int, nTried: int, nUBuckets: int,
    newInfos: seq<DiskInfo>, triedInfos: seq<DiskInfo>, buckets: seq<seq<int>>, asmap: nat)

  function ToDisk(p: Peer): DiskInfo { DiskInfo(p.addr, p.source, p.nLastSuccess, p.nAttempts) }

  function FromDisk(d: DiskInfo): Peer { Peer(d.addr, d.source, 0, 0, d.nLastSuccess, d.nAttempts) }

  /** x ^ (1 << 30) for a 32-bit integer. */
  function FlipBit30(x: int): int {
    if (x / 0x4000_0000) % 2 == 1 then x - 0x4000_0000 else x + 0x4000_0000
  }

  // ----- what is written -----

  predicate Wanted(m: map<int, Info>, id: int, tried: bool) {
    id in m && if tried then m[id].fInTried else m[id].nRefCount != 0
  }

  /** The ids whose entries are written, in order: those with references, or the tried ones. */
  function Listed(m: map<int, Info>, order: seq<int>, tried: bool): (r: seq<int>)
    ensures forall i :: 0 <= i < |r| ==> r[i] in order && Wanted(m, r[i], tried)
  {
    if order == [] then []
    else
      var rest := Listed(m, order[..|order| - 1], tried);
      if Wanted(m, order[|order| - 1], tried) then rest + [order[|order| - 1]] else rest
  }

  function Infos(m: map<int, Info>, ids: seq<int>): (r: seq<DiskInfo>)
    requires forall i :: 0 <= i < |ids| ==> ids[i] in m
    ensures |r| == |ids| && forall i :: 0 <= i < |r| ==> r[i] == ToDisk(m[ids[i]].peer)
  {
    seq(|ids|, i requires 0 <= i < |ids| => ToDisk(m[ids[i]].peer))
  }

  /** mapUnkIds: the position of an id among the written new entries. */
  function UnkIds(m: map<int, Info>, order: seq<int>): map<int, int> {
    if order == [] then map[]
    else UnkIds(m, order[..|order| - 1])[order[|order| - 1] := |Listed(m, order[..|order| - 1], false)|]
  }

  /** The entries of the first n cells of a bucket. */
  function BucketEntries(t: Table, unk: map<int, int>, bucket: nat, n: nat): seq<int> {
    if n == 0 then []
    else
      var c := Cell(bucket, n - 1);
      BucketEntries(t, unk, bucket, n - 1) + if c in t then [if t[c] in unk then unk[t[c]] else 0] else []
  }

  function Buckets(t: Table, unk: map<int, int>, n: nat): (r: seq<seq<int>>)
    ensures |r| == n && forall b :: 0 <= b < n ==> r[b] == BucketEntries(t, unk, b, BUCKET_SIZE)
  {
    seq(n, b requires b >= 0 => BucketEntries(t, unk, b, BUCKET_SIZE))
  }

  function Written(s: State, order: seq<int>, asmap: nat): Stream {
    Stream(FILE_FORMAT, INCOMPATIBILITY_BASE + FILE_FORMAT, s.nKey, s.nNew, s.nTried, FlipBit30(NEW_BUCKET_COUNT),
           Infos(s.mapInfo, Listed(s.mapInfo, order, false)), Infos(s.mapInfo, Listed(s.mapInfo, order, true)),
           Buckets(s.vvNew, UnkIds(s.mapInfo, order), NEW_BUCKET_COUNT), asmap)
  }

  /** order goes once through all ids. */
  ghost predicate Enumerates(order: seq<int>, m: map<int, Info>) {
    Distinct(order) && forall id :: id in m <==> id in order
  }

  predicate Distinct(v: seq<int>) {
    forall i, j :: 0 <= i < j < |v| ==> v[i] != v[j]
  }

  lemma {:induction false} ListedDistinct(m: map<int, Info>, order: seq<int>, tried: bool)
    requires Distinct(order)
    ensures Distinct(Listed(m, order, tried))
  {
    if order != [] {
      var n := |order| - 1;
      ListedDistinct(m, order[..n], tried);
      var l, r := Listed(m, order[..n], tried), Listed(m, order, tried);
      forall i, j | 0 <= i < j < |r|
        ensures r[i] != r[j]
      {
        if j < |l| {
          assert l[i] != l[j];
        } else {
          assert l[i] in order[..n];
          var k :| 0 <= k < n && order[k] == l[i];
          assert order[k] != order[n];
        }
      }
    }
  }

  lemma {:induction false} ListedComplete(m: map<int, Info>, order: seq<int>, tried: bool, id: int)
    requires id in order && Wanted(m, id, tried)
    ensures id in Listed(m, order, tried)
  {
    var rest := order[..|order| - 1];
    if id != order[|order| - 1] {
      assert id in rest;
      ListedComplete(m, rest, tried, id);
    }
  }

  lemma {:induction false} ListedPrefix(m: map<int, Info>, order: seq<int>, tried: bool, k: nat)
    requires k <= |order|
    ensures Listed(m, order[..k], tried) <= Listed(m, order, tried)
  {
    if k == |order| {
      assert order[..k] == order;
    } else {
      var rest := order[..|order| - 1];
      ListedPrefix(m, rest, tried, k);
      assert rest[..k] == order[..k];
    }
  }

  /** mapUnkIds leads each written new id to its position. */
  lemma {:induction false} UnkIdsIndex(m: map<int, Info>, order: seq<int>, k: nat)
    requires k < |order| && Distinct(order) && Wanted(m, order[k], false)
    ensures order[k] in UnkIds(m, order)
    ensures var u := UnkIds(m, order)[order[k]];
      0 <= u < |Listed(m, order, false)| && Listed(m, order, false)[u] == order[k]
  {
    var rest := order[..|order| - 1];
    if k == |order| - 1 {
    } else {
      UnkIdsIndex(m, rest, k);
      assert rest[k] == order[k] != order[|order| - 1];
      ListedPrefix(m, order, false, |order| - 1);
    }
  }

  lemma SizeOfDistinct(v: seq<int>)
    requires Distinct(v)
    ensures |set id | id in v| == |v|
  {
    forall i, j | 0 <= i < j < |v|
      ensures v[i] != v[j]
    {
    }
    CountDistinct(v);
  }

  /** A known id is in the list of its kind. */
  ghost predicate InList(s: State, nl: seq<int>, tl: seq<int>, id: int) {
    id in s.mapInfo ==> if s.mapInfo[id].fInTried then id in tl else id in nl
  }

  ghost predicate AllOfKind(s: State, v: seq<int>, tried: bool) {
    forall k :: 0 <= k < |v| ==> v[k] in s.mapInfo && s.mapInfo[v[k]].fInTried == tried
  }

  /** The two lists go once through the new and the tried ids. */
  ghost predicate Lists(s: State, nl: seq<int>, tl: seq<int>) {
    Distinct(nl) && Distinct(tl) && AllOfKind(s, nl, false) && AllOfKind(s, tl, true) &&
        forall id :: InList(s, nl, tl, id)
  }

  lemma ListedLists(h: Hashing, s: State, order: seq<int>)
    requires Inv(h, s, {}, {}) && Enumerates(order, s.mapInfo)
    ensures Lists(s, Listed(s.mapInfo, order, false), Listed(s.mapInfo, order, true))
  {
    var nl, tl := Listed(s.mapInfo, order, false), Listed(s.mapInfo, order, true);
    ListedDistinct(s.mapInfo, order, false);
    ListedDistinct(s.mapInfo, order, true);
    hide Listed;
    forall k | 0 <= k < |nl|
      ensures nl[k] in s.mapInfo && !s.mapInfo[nl[k]].fInTried
    {
      assert IdOk(h, s, {}, nl[k]) && Wanted(s.mapInfo, nl[k], false);
    }
    forall id
      ensures InList(s, nl, tl, id)
    {
      if id in s.mapInfo {
        assert IdOk(h, s, {}, id);
        ListedComplete(s.mapInfo, order, s.mapInfo[id].fInTried, id);
      }
    }
  }

  lemma ListSizes(s: State, nl: seq<int>, tl: seq<int>)
    requires Lists(s, nl, tl)
    ensures |nl| == |NewIds(s.mapInfo)| && |tl| == |TriedIds(s.mapInfo)|
  {
    SizeOfDistinct(nl);
    SizeOfDistinct(tl);
    forall id
      ensures id in nl <==> id in NewIds(s.mapInfo)
      ensures id in tl <==> id in TriedIds(s.mapInfo)
    {
      assert InList(s, nl, tl, id);
    }
    assert (set id | id in nl) == NewIds(s.mapInfo);
    assert (set id | id in tl) == TriedIds(s.mapInfo);
  }

  /** In a consistent state the lists are as long as the counters say. */
  lemma ListedCounts(h: Hashing, s: State, order: seq<int>)
    requires Inv(h, s, {}, {}) && Enumerates(order, s.mapInfo)
    ensures |Listed(s.mapInfo, order, false)| == s.nNew && |Listed(s.mapInfo, order, true)| == s.nTried
  {
    ListedLists(h, s, order);
    hide Listed, Lists, Enumerates;
    ListSizes(s, Listed(s.mapInfo, order, false), Listed(s.mapInfo, order, true));
    assert NewIds(s.mapInfo) - {} == NewIds(s.mapInfo);
  }

  // ----- what is read -----

  /** A new entry enters under the given id, not yet in any bucket. */
  function AddNew(s: State, p: Peer, id: int): State {
    s.(mapInfo := s.mapInfo[id := Info(p, 0, false, |s.vRandom|)], mapAddr := s.mapAddr[p.addr.service.ip := id],
       vRandom := s.vRandom + [id])
  }

  function LoadNew(s: State, infos: seq<DiskInfo>, n: nat): State
    requires n <= |infos|
  {
    if n == 0 then s else AddNew(LoadNew(s, infos, n - 1), FromDisk(infos[n - 1]), n - 1)
  }

  /** A tried entry enters its cell, or is lost if that is taken. */
  function AddTried(h: Hashing, s: State, p: Peer): State {
    var c := TriedCell(h, s.nKey, p.addr.service);
    if c in s.vvTried then s.(nTried := s.nTried - 1)
    else
      s.(mapInfo := s.mapInfo[s.nIdCount := Info(p, 0, true, |s.vRandom|)],
         mapAddr := s.mapAddr[p.addr.service.ip := s.nIdCount], vRandom := s.vRandom + [s.nIdCount],
         vvTried := s.vvTried[c := s.nIdCount], nIdCount := s.nIdCount + 1)
  }

  function LoadTried(h: Hashing, s: State, infos: seq<DiskInfo>, n: nat): State
    requires n <= |infos|
  {
    if n == 0 then s else AddTried(h, LoadTried(h, s, infos, n - 1), FromDisk(infos[n - 1]))
  }

  /** entryToBucket: the last of the first b buckets that lists entry n; 0 if none does. */
  function BucketOf(buckets: seq<seq<int>>, n: int, b: nat): (r: nat)
    requires b <= |buckets|
    ensures r < b || (b == 0 && r == 0) || r == 0
  {
    if b == 0 then 0 else if n in buckets[b - 1] then b - 1 else BucketOf(buckets, n, b - 1)
  }

  function PutNew(s: State, c: Cell, id: int): State
    requires id in s.mapInfo
  {
    s.(vvNew := s.vvNew[c := id], mapInfo := s.mapInfo[id := s.mapInfo[id].(nRefCount := s.mapInfo[id].nRefCount + 1)])
  }

  /** A new entry goes to the bucket it was read from, or to the bucket of its source. */
  function Place(h: Hashing, s: State, id: int, bucket: nat, usable: bool): State
    requires id in s.mapInfo
  {
    var info := s.mapInfo[id];
    var c := NewCell(h, s.nKey, info.Service(), bucket);
    var d := HomeCell(h, s.nKey, info.peer);
    if usable && c !in s.vvNew && info.nRefCount < NEW_BUCKETS_PER_ADDRESS then PutNew(s, c, id)
    else if d !in s.vvNew then PutNew(s, d, id)
    else s
  }

  /** A manager that was just cleared. */
  function Empty(key: nat, nNew: int, nTried: int): State {
    State(key, 0, map[], map[], [], nTried, map[], nNew, map[], {})
  }

  // ----- the loaded state, entry by entry -----

  ghost predicate Known(src: State, ids: seq<int>) {
    forall k :: 0 <= k < |ids| ==> ids[k] in src.mapInfo
  }

  /** The source's peer for place k of the list ids, as it comes back from disk. */
  ghost function PeerAt(src: State, ids: seq<int>, k: nat): Peer
    requires k < |ids| && Known(src, ids)
  {
    FromDisk(ToDisk(src.mapInfo[ids[k]].peer))
  }

  /** ids is a list of the source's ids, new ones before cut and tried ones from cut on, with no address twice. */
  ghost predicate Source(h: Hashing, src: State, ids: seq<int>, cut: nat) {
    && cut <= |ids| && Distinct(ids)
    && Known(src, ids)
    && (forall k :: 0 <= k < |ids| ==> (src.mapInfo[ids[k]].fInTried <==> k >= cut))
    && Inv(h, src, {}, {})
  }

  ghost predicate EntryAt(src: State, ids: seq<int>, cut: nat, t: State, k: int)
    requires Known(src, ids)
  {
    0 <= k < |ids| && k in t.mapInfo
    && t.mapInfo[k].peer == PeerAt(src, ids, k) && t.mapInfo[k].nRandomPos == k && t.mapInfo[k].fInTried == (k >= cut)
    && k < |t.vRandom| && t.vRandom[k] == k
    && t.mapInfo[k].Ip() in t.mapAddr && t.mapAddr[t.mapInfo[k].Ip()] == k
  }

  /** The first n entries of the list are loaded, under their places as ids, and nothing else. */
  ghost predicate Loaded(h: Hashing, src: State, ids: seq<int>, cut: nat, t: State, n: nat) {
    && Source(h, src, ids, cut) && n <= |ids| && t.nKey == src.nKey
    && (forall k :: 0 <= k < n ==> EntryAt(src, ids, cut, t, k))
    && (forall k :: k in t.mapInfo ==> 0 <= k < n) && |t.vRandom| == n
    && (forall a :: a in t.mapAddr ==>
        0 <= t.mapAddr[a] < n && t.mapAddr[a] in t.mapInfo && t.mapInfo[t.mapAddr[a]].Ip() == a)
  }

  lemma IpsDiffer(h: Hashing, src: State, ids: seq<int>, cut: nat, j: nat, k: nat)
    requires Source(h, src, ids, cut) && j < |ids| && k < |ids| && j != k
    ensures PeerAt(src, ids, j).addr.service.ip != PeerAt(src, ids, k).addr.service.ip
  {
    assert IdOk(h, src, {}, ids[j]) && IdOk(h, src, {}, ids[k]);
    assert ids[j] != ids[k];
  }

  ghost predicate Unplaced(t: State) {
    t.vvNew == map[] && forall k :: k in t.mapInfo ==> t.mapInfo[k].nRefCount == 0
  }

  /** The next entry of the list enters under the next id. */
  lemma Append(h: Hashing, src: State, ids: seq<int>, cut: nat, t: State, n: nat, t': State)
    requires Loaded(h, src, ids, cut, t, n) && n < |ids| && t'.nKey == t.nKey
    requires t'.mapInfo == t.mapInfo[n := Info(PeerAt(src, ids, n), 0, n >= cut, |t.vRandom|)]
    requires t'.mapAddr == t.mapAddr[PeerAt(src, ids, n).addr.service.ip := n] && t'.vRandom == t.vRandom + [n]
    ensures Loaded(h, src, ids, cut, t', n + 1)
  {
    hide PeerAt, Inv;
    forall k | 0 <= k < n + 1
      ensures EntryAt(src, ids, cut, t', k)
    {
      if k < n {
        assert EntryAt(src, ids, cut, t, k);
        IpsDiffer(h, src, ids, cut, k, n);
      }
    }
    forall a | a in t'.mapAddr
      ensures 0 <= t'.mapAddr[a] < n + 1 && t'.mapAddr[a] in t'.mapInfo && t'.mapInfo[t'.mapAddr[a]].Ip() == a
    {
      if a != PeerAt(src, ids, n).addr.service.ip {
        assert a in t.mapAddr;
      }
    }
  }

  ghost predicate WrittenFrom(src: State, ids: seq<int>, cut: nat, st: Stream)
    requires Known(src, ids)
  {
    && cut <= |ids| && |st.newInfos| == cut && |st.triedInfos| == |ids| - cut
    && (forall k :: 0 <= k < cut ==> st.newInfos[k] == ToDisk(src.mapInfo[ids[k]].peer))
    && (forall k :: cut <= k < |ids| ==> st.triedInfos[k - cut] == ToDisk(src.mapInfo[ids[k]].peer))
  }

  lemma {:induction false} NewLoaded(h: Hashing, src: State, ids: seq<int>, cut: nat, st: Stream, s: State, n: nat)
    requires Source(h, src, ids, cut) && WrittenFrom(src, ids, cut, st) && n <= cut
    requires s == Empty(src.nKey, s.nNew, s.nTried)
    ensures var t := LoadNew(s, st.newInfos, n);
      Loaded(h, src, ids, cut, t, n) && Unplaced(t) && t.vvTried == map[] && t.nIdCount == 0
      && t.nNew == s.nNew && t.nTried == s.nTried && t.collisions == {}
  {
    if n > 0 {
      NewLoaded(h, src, ids, cut, st, s, n - 1);
      var t := LoadNew(s, st.newInfos, n - 1);
      Append(h, src, ids, cut, t, n - 1, AddNew(t, FromDisk(st.newInfos[n - 1]), n - 1));
    }
  }

  /** The tried table holds exactly the loaded tried entries. */
  ghost predicate TriedOk(h: Hashing, t: State, cut: nat, n: nat) {
    && (forall k :: cut <= k < n ==> TriedEntry(h, t, k))
    && (forall c :: c in t.vvTried ==> cut <= t.vvTried[c] < n && HoldsEntry(h, t, c))
  }

  ghost predicate HoldsEntry(h: Hashing, t: State, c: Cell)
    requires c in t.vvTried
  {
    t.vvTried[c] in t.mapInfo && c == TriedCell(h, t.nKey, t.mapInfo[t.vvTried[c]].Service())
  }

  ghost predicate TriedEntry(h: Hashing, t: State, k: int) {
    k in t.mapInfo && TriedCell(h, t.nKey, t.mapInfo[k].Service()) in t.vvTried
    && t.vvTried[TriedCell(h, t.nKey, t.mapInfo[k].Service())] == k
  }

  lemma TriedCellsDiffer(h: Hashing, src: State, ids: seq<int>, cut: nat, j: nat, k: nat)
    requires Source(h, src, ids, cut) && cut <= j < k < |ids|
    ensures TriedCell(h, src.nKey, PeerAt(src, ids, j).addr.service) != TriedCell(h, src.nKey,
        PeerAt(src, ids, k).addr.service)
  {
    assert IdOk(h, src, {}, ids[j]) && IdOk(h, src, {}, ids[k]);
    assert ids[j] != ids[k];
    assert TriedCellOk(h, src, TriedCell(h, src.nKey, src.mapInfo[ids[j]].Service()));
  }

  lemma NotLost(h: Hashing, src: State, ids: seq<int>, cut: nat, t: State, n: nat)
    requires Loaded(h, src, ids, cut, t, n) && TriedOk(h, t, cut, n) && cut <= n < |ids|
    ensures TriedCell(h, t.nKey, PeerAt(src, ids, n).addr.service) !in t.vvTried
  {
    var c := TriedCell(h, t.nKey, PeerAt(src, ids, n).addr.service);
    if c in t.vvTried {
      var j := t.vvTried[c];
      assert EntryAt(src, ids, cut, t, j);
      TriedCellsDiffer(h, src, ids, cut, j, n);
    }
  }

  /** After the new entries and n tried ones. */
  ghost predicate TriedPart(h: Hashing, src: State, ids: seq<int>, cut: nat, t: State, n: nat, nNew: int, nTried: int) {
    && Loaded(h, src, ids, cut, t, n) && TriedOk(h, t, cut, n) && Unplaced(t)
    && t.nIdCount == n && t.nNew == nNew && t.nTried == nTried && t.collisions == {}
  }

  lemma TriedStep(h: Hashing, src: State, ids: seq<int>, cut: nat, t: State, n: nat, nNew: int, nTried: int)
    requires TriedPart(h, src, ids, cut, t, n, nNew, nTried) && cut <= n < |ids|
    ensures TriedPart(h, src, ids, cut, AddTried(h, t, PeerAt(src, ids, n)), n + 1, nNew, nTried)
  {
    var p := PeerAt(src, ids, n);
    var t' := AddTried(h, t, p);
    NotLost(h, src, ids, cut, t, n);
    Append(h, src, ids, cut, t, n, t');
    hide Loaded, PeerAt, TriedCell;
    forall k | cut <= k < n + 1
      ensures TriedEntry(h, t', k)
    {
      if k < n {
        assert TriedEntry(h, t, k);
        LoadedIds(h, src, ids, cut, t, n);
      }
    }
    forall c | c in t'.vvTried
      ensures cut <= t'.vvTried[c] < n + 1 && HoldsEntry(h, t', c)
    {
      if c in t.vvTried {
        assert HoldsEntry(h, t, c);
      }
    }
  }

  lemma LoadedIds(h: Hashing, src: State, ids: seq<int>, cut: nat, t: State, n: nat)
    requires Loaded(h, src, ids, cut, t, n)
    ensures forall k :: k in t.mapInfo <==> 0 <= k < n
  {
    forall k | 0 <= k < n
      ensures k in t.mapInfo
    {
      assert EntryAt(src, ids, cut, t, k);
    }
  }

  lemma {:induction false} TriedLoaded(h: Hashing, src: State, ids: seq<int>, cut: nat, st: Stream, s: State, n: nat)
    requires Source(h, src, ids, cut) && WrittenFrom(src, ids, cut, st) && n <= |ids| - cut
    requires TriedPart(h, src, ids, cut, s, cut, s.nNew, s.nTried)
    ensures TriedPart(h, src, ids, cut, LoadTried(h, s, st.triedInfos, n), cut + n, s.nNew, s.nTried)
  {
    hide TriedPart, Source, AddTried;
    if n > 0 {
      TriedLoaded(h, src, ids, cut, st, s, n - 1);
      var t := LoadTried(h, s, st.triedInfos, n - 1);
      PeerOf(h, src, ids, cut, st, n - 1);
      TriedStep(h, src, ids, cut, t, cut + n - 1, s.nNew, s.nTried);
    }
  }

  lemma PeerOf(h: Hashing, src: State, ids: seq<int>, cut: nat, st: Stream, n: nat)
    requires Source(h, src, ids, cut) && WrittenFrom(src, ids, cut, st) && n < |ids| - cut
    ensures Known(src, ids) && PeerAt(src, ids, cut + n) == FromDisk(st.triedInfos[n])
  {
  }

  // ----- the buckets -----

  lemma {:induction false} EntryListed(t: Table, unk: map<int, int>, bucket: nat, n: nat, pos: nat)
    requires pos < n && Cell(bucket, pos) in t && t[Cell(bucket, pos)] in unk
    ensures unk[t[Cell(bucket, pos)]] in BucketEntries(t, unk, bucket, n)
  {
    if pos < n - 1 {
      EntryListed(t, unk, bucket, n - 1, pos);
    }
  }

  lemma {:induction false} EntryFrom(t: Table, unk: map<int, int>, bucket: nat, n: nat, x: int) returns (pos: nat)
    requires x in BucketEntries(t, unk, bucket, n)
    ensures pos < n && Cell(bucket, pos) in t
    ensures t[Cell(bucket, pos)] in unk ==> unk[t[Cell(bucket, pos)]] == x
  {
    if x in BucketEntries(t, unk, bucket, n - 1) {
      pos := EntryFrom(t, unk, bucket, n - 1, x);
    } else {
      pos := n - 1;
    }
  }

  lemma {:induction false} BucketOfLists(buckets: seq<seq<int>>, n: int, b: nat, w: nat)
    requires w < b <= |buckets| && n in buckets[w]
    ensures BucketOf(buckets, n, b) < b && n in buckets[BucketOf(buckets, n, b)]
  {
    if n !in buckets[b - 1] {
      BucketOfLists(buckets, n, b - 1, w);
    }
  }

  /** Every id in a new cell is written, under the index that leads back to it. */
  lemma CellIndex(h: Hashing, s: State, order: seq<int>, c: Cell)
    requires Inv(h, s, {}, {}) && Enumerates(order, s.mapInfo) && c in s.vvNew
    ensures s.vvNew[c] in s.mapInfo && s.vvNew[c] in UnkIds(s.mapInfo, order)
    ensures var u, nl := UnkIds(s.mapInfo, order)[s.vvNew[c]], Listed(s.mapInfo, order, false);
      0 <= u < |nl| && nl[u] == s.vvNew[c]
  {
    var id := s.vvNew[c];
    assert NewCellOk(h, s, c) && IdOk(h, s, {}, id);
    var k :| 0 <= k < |order| && order[k] == id;
    UnkIdsIndex(s.mapInfo, order, k);
  }

  ghost predicate SourceCell(h: Hashing, src: State, id: int, bucket: nat)
    requires id in src.mapInfo
  {
    bucket < NEW_BUCKET_COUNT && Get(src.vvNew, NewCell(h, src.nKey, src.mapInfo[id].Service(), bucket)) == id
  }

  /** The bucket read for a new entry is one the entry occupied. */
  lemma BucketRead(h: Hashing, s: State, order: seq<int>, j: nat)
    requires Inv(h, s, {}, {}) && Enumerates(order, s.mapInfo) && j < |Listed(s.mapInfo, order, false)|
    ensures var id := Listed(s.mapInfo, order, false)[j];
      id in s.mapInfo && SourceCell(h, s, id,
          BucketOf(Buckets(s.vvNew, UnkIds(s.mapInfo, order), NEW_BUCKET_COUNT), j, NEW_BUCKET_COUNT))
  {
    var nl, unk := Listed(s.mapInfo, order, false), UnkIds(s.mapInfo, order);
    var id := nl[j];
    assert Wanted(s.mapInfo, id, false);
    var c := SomeCell(h, s, id);
    CellIndex(h, s, order, c);
    ListedDistinct(s.mapInfo, order, false);
    SameIndex(nl, unk[id], j);
    hide Listed, UnkIds, BucketEntries, Inv;
    EntryListed(s.vvNew, unk, c.bucket, BUCKET_SIZE, c.pos);
    var buckets := Buckets(s.vvNew, unk, NEW_BUCKET_COUNT);
    BucketOfLists(buckets, j, NEW_BUCKET_COUNT, c.bucket);
    var b := BucketOf(buckets, j, NEW_BUCKET_COUNT);
    var pos := EntryFrom(s.vvNew, unk, b, BUCKET_SIZE, j);
    CellIndex(h, s, order, Cell(b, pos));
    CellPlace(h, s, Cell(b, pos));
  }

  lemma SameIndex(v: seq<int>, i: nat, j: nat)
    requires Distinct(v) && i < |v| && j < |v| && v[i] == v[j]
    ensures i == j
  {
  }

  lemma SomeCell(h: Hashing, s: State, id: int) returns (c: Cell)
    requires Inv(h, s, {}, {}) && id in s.mapInfo && s.mapInfo[id].nRefCount != 0
    ensures c in s.vvNew && s.vvNew[c] == id && c.bucket < NEW_BUCKET_COUNT && c.pos < BUCKET_SIZE
  {
    assert IdOk(h, s, {}, id);
    assert Refs(s.vvNew, id) != {};
    c :| c in Refs(s.vvNew, id);
    assert NewCellOk(h, s, c);
  }

  lemma CellPlace(h: Hashing, s: State, c: Cell)
    requires Inv(h, s, {}, {}) && c in s.vvNew
    ensures s.vvNew[c] in s.mapInfo && c.bucket < NEW_BUCKET_COUNT
    ensures c == NewCell(h, s.nKey, s.mapInfo[s.vvNew[c]].Service(), c.bucket)
  {
    assert NewCellOk(h, s, c);
  }

  // ----- placing the new entries -----

  /** bs[k] is a bucket of the source in which the k-th new entry has a cell. */
  ghost predicate BucketsOk(h: Hashing, src: State, ids: seq<int>, cut: nat, bs: seq<nat>)
    requires Known(src, ids)
  {
    cut <= |ids| && |bs| == cut && forall k :: 0 <= k < cut ==> SourceCell(h, src, ids[k], bs[k])
  }

  ghost predicate NewEntry(h: Hashing, t: State, bs: seq<nat>, n: nat, k: int) {
    k in t.mapInfo ==>
      && t.mapInfo[k].nRefCount == (if 0 <= k < n then 1 else 0)
      && (0 <= k < n ==> k < |bs| && Get(t.vvNew, NewCell(h, t.nKey, t.mapInfo[k].Service(), bs[k])) == k)
  }

  ghost predicate NewPlace(h: Hashing, t: State, bs: seq<nat>, n: nat, c: Cell) {
    c in t.vvNew ==>
      var k := t.vvNew[c];
      0 <= k < n && k < |bs| && k in t.mapInfo && c == NewCell(h, t.nKey, t.mapInfo[k].Service(), bs[k])
  }

  /** The first n new entries have one cell each, in their buckets. */
  ghost predicate NewPart(h: Hashing, src: State, ids: seq<int>, cut: nat, bs: seq<nat>, t: State, n: nat) {
    && Loaded(h, src, ids, cut, t, |ids|) && TriedOk(h, t, cut, |ids|) && BucketsOk(h, src, ids, cut, bs) && n <= cut
    && (forall k :: NewEntry(h, t, bs, n, k)) && (forall c :: NewPlace(h, t, bs, n, c))
    && t.nIdCount == |ids| && t.nNew == cut && t.nTried == |ids| - cut && t.collisions == {}
  }

  lemma StartPlacing(h: Hashing, src: State, ids: seq<int>, cut: nat, bs: seq<nat>, t: State)
    requires TriedPart(h, src, ids, cut, t, |ids|, cut, |ids| - cut) && cut <= |ids| && Known(src, ids) &&
        BucketsOk(h, src, ids, cut, bs)
    ensures NewPart(h, src, ids, cut, bs, t, 0)
  {
    hide Loaded, TriedOk, BucketsOk;
  }

  lemma FreeCell(h: Hashing, src: State, ids: seq<int>, cut: nat, bs: seq<nat>, t: State, n: nat)
    requires NewPart(h, src, ids, cut, bs, t, n) && n < cut
    ensures n in t.mapInfo && t.mapInfo[n].nRefCount == 0 && !t.mapInfo[n].fInTried
    ensures NewCell(h, t.nKey, t.mapInfo[n].Service(), bs[n]) !in t.vvNew
  {
    assert EntryAt(src, ids, cut, t, n) && NewEntry(h, t, bs, n, n);
    var c := NewCell(h, t.nKey, t.mapInfo[n].Service(), bs[n]);
    forall k | 0 <= k < n
      ensures k in t.mapInfo && NewCell(h, t.nKey, t.mapInfo[k].Service(), bs[k]) != c
    {
      assert EntryAt(src, ids, cut, t, k);
      CellsApart(h, src, ids, cut, bs, k, n);
    }
    assert NewPlace(h, t, bs, n, c);
  }

  lemma CellsApart(h: Hashing, src: State, ids: seq<int>, cut: nat, bs: seq<nat>, j: nat, k: nat)
    requires Source(h, src, ids, cut) && BucketsOk(h, src, ids, cut, bs) && j < k < cut
    ensures NewCell(h, src.nKey, PeerAt(src, ids, j).addr.service, bs[j]) != NewCell(h, src.nKey,
        PeerAt(src, ids, k).addr.service, bs[k])
  {
    assert SourceCell(h, src, ids[j], bs[j]) && SourceCell(h, src, ids[k], bs[k]);
    assert ids[j] != ids[k];
  }

  /** Counting a reference changes nothing of what was loaded. */
  lemma RefKeepsLoaded(h: Hashing, src: State, ids: seq<int>, cut: nat, t: State, c: Cell, id: int)
    requires Loaded(h, src, ids, cut, t, |ids|) && TriedOk(h, t, cut, |ids|) && id in t.mapInfo
    ensures Loaded(h, src, ids, cut, PutNew(t, c, id), |ids|) && TriedOk(h, PutNew(t, c, id), cut, |ids|)
  {
    var t' := PutNew(t, c, id);
    hide PeerAt, Inv, TriedCell;
    forall k | 0 <= k < |ids|
      ensures EntryAt(src, ids, cut, t', k)
    {
      assert EntryAt(src, ids, cut, t, k);
    }
    forall k | cut <= k < |ids|
      ensures TriedEntry(h, t', k)
    {
      assert TriedEntry(h, t, k);
    }
    forall d | d in t'.vvTried
      ensures HoldsEntry(h, t', d)
    {
      assert HoldsEntry(h, t, d);
    }
  }

  lemma PlaceStep(h: Hashing, src: State, ids: seq<int>, cut: nat, bs: seq<nat>, t: State, n: nat)
    requires NewPart(h, src, ids, cut, bs, t, n) && n < cut
    ensures n in t.mapInfo && NewPart(h, src, ids, cut, bs, Place(h, t, n, bs[n], true), n + 1)
  {
    FreeCell(h, src, ids, cut, bs, t, n);
    var c := NewCell(h, t.nKey, t.mapInfo[n].Service(), bs[n]);
    var t' := Place(h, t, n, bs[n], true);
    assert t' == PutNew(t, c, n);
    RefKeepsLoaded(h, src, ids, cut, t, c, n);
    hide Loaded, TriedOk, NewCell;
    var m := n + 1;
    forall k
      ensures NewEntry(h, t', bs, m, k)
    {
      assert NewEntry(h, t, bs, n, k);
    }
    forall d
      ensures NewPlace(h, t', bs, m, d)
    {
      assert NewPlace(h, t, bs, n, d);
    }
  }

  // ----- the round trip -----

  /** t is s after a trip to disk: ids are places in the lists nl and tl, what is not written is zero. */
  ghost predicate Reloaded(h: Hashing, s: State, t: State, nl: seq<int>, tl: seq<int>)
    requires Known(s, nl + tl)
  {
    && Lists(s, nl, tl) && t.nKey == s.nKey
    && (forall k :: k in t.mapInfo <==> 0 <= k < |nl + tl|)
    && (forall k :: 0 <= k < |nl + tl| ==> EntryAt(s, nl + tl, |nl|, t, k))
    && (forall k :: 0 <= k < |tl| ==> SameTriedCell(h, s, t, tl[k], |nl| + k))
    && (forall c :: c in t.vvTried <==> c in s.vvTried)
    && (forall k :: 0 <= k < |nl| ==> OneOfItsCells(s, t, nl[k], k))
  }

  /** The tried entry is in the cell it was in. */
  ghost predicate SameTriedCell(h: Hashing, s: State, t: State, id: int, k: int) {
    id in s.mapInfo &&
    var c := TriedCell(h, s.nKey, s.mapInfo[id].Service());
    Get(s.vvTried, c) == id && Get(t.vvTried, c) == k
  }

  /** The new entry has exactly one cell, and had it before. */
  ghost predicate OneOfItsCells(s: State, t: State, id: int, k: int) {
    exists c :: Refs(t.vvNew, k) == {c} && c in Refs(s.vvNew, id)
  }

  lemma OneCell(h: Hashing, src: State, ids: seq<int>, cut: nat, bs: seq<nat>, t: State, k: nat)
    requires NewPart(h, src, ids, cut, bs, t, cut) && k < cut
    ensures k in t.mapInfo && t.mapInfo[k].nRefCount == 1 && |Refs(t.vvNew, k)| == 1
    ensures Known(src, ids) && k < |ids| && OneOfItsCells(src, t, ids[k], k)
  {
    assert EntryAt(src, ids, cut, t, k) && NewEntry(h, t, bs, cut, k) && SourceCell(h, src, ids[k], bs[k]);
    var c := NewCell(h, t.nKey, t.mapInfo[k].Service(), bs[k]);
    forall d | d in Refs(t.vvNew, k)
      ensures d == c
    {
      assert NewPlace(h, t, bs, cut, d);
    }
    IdsNatural(h, src, ids, cut, k);
    assert c in t.vvNew && c in src.vvNew;
    assert Refs(t.vvNew, k) == {c};
  }

  lemma IdsNatural(h: Hashing, src: State, ids: seq<int>, cut: nat, k: nat)
    requires Source(h, src, ids, cut) && k < |ids|
    ensures ids[k] >= 0
  {
    assert IdOk(h, src, {}, ids[k]);
  }

  lemma PlacedIds(h: Hashing, src: State, ids: seq<int>, cut: nat, bs: seq<nat>, t: State, k: int)
    requires NewPart(h, src, ids, cut, bs, t, cut)
    ensures IdOk(h, t, {}, k)
  {
    if k in t.mapInfo {
      assert EntryAt(src, ids, cut, t, k);
      if k < cut {
        OneCell(h, src, ids, cut, bs, t, k);
      } else {
        assert TriedEntry(h, t, k) && NewEntry(h, t, bs, cut, k);
      }
    }
  }

  function Range(lo: int, hi: int): (v: seq<int>)
    requires lo <= hi
    ensures |v| == hi - lo && forall i :: 0 <= i < |v| ==> v[i] == lo + i
  {
    seq(hi - lo, i => lo + i)
  }

  lemma InRange(lo: int, hi: int, k: int)
    requires lo <= hi
    ensures k in Range(lo, hi) <==> lo <= k < hi
  {
    if lo <= k < hi {
      assert Range(lo, hi)[k - lo] == k;
    }
  }

  lemma PlacedCounts(h: Hashing, src: State, ids: seq<int>, cut: nat, bs: seq<nat>, t: State)
    requires NewPart(h, src, ids, cut, bs, t, cut)
    ensures |TriedIds(t.mapInfo)| == |ids| - cut && |NewIds(t.mapInfo) - {}| == cut
  {
    LoadedIds(h, src, ids, cut, t, |ids|);
    forall k | 0 <= k < |ids|
      ensures k in t.mapInfo && (t.mapInfo[k].fInTried <==> k >= cut)
    {
      assert EntryAt(src, ids, cut, t, k);
    }
    var n, r := Range(0, cut), Range(cut, |ids|);
    SizeOfDistinct(n);
    SizeOfDistinct(r);
    forall k
      ensures k in TriedIds(t.mapInfo) <==> k in r
      ensures k in NewIds(t.mapInfo) <==> k in n
    {
      InRange(0, cut, k);
      InRange(cut, |ids|, k);
    }
    assert TriedIds(t.mapInfo) == set k | k in r;
    assert NewIds(t.mapInfo) - {} == set k | k in n;
  }

  /** The loaded state satisfies everything Check_ demands of the tables. */
  lemma PlacedConsistent(h: Hashing, src: State, ids: seq<int>, cut: nat, bs: seq<nat>, t: State)
    requires NewPart(h, src, ids, cut, bs, t, cut)
    ensures Consistent(h, t)
  {
    forall k
      ensures IdOk(h, t, {}, k)
    {
      PlacedIds(h, src, ids, cut, bs, t, k);
    }
    PlacedTables(h, src, ids, cut, bs, t);
    PlacedCounts(h, src, ids, cut, bs, t);
    forall k
      ensures CollisionOk(h, t, k)
    {
    }
  }

  lemma PlacedTables(h: Hashing, src: State, ids: seq<int>, cut: nat, bs: seq<nat>, t: State)
    requires NewPart(h, src, ids, cut, bs, t, cut)
    ensures (forall a :: AddrOk(t, a)) && (forall i :: PosOk(t, i))
    ensures (forall c :: TriedCellOk(h, t, c)) && (forall c :: NewCellOk(h, t, c))
  {
    forall i
      ensures PosOk(t, i)
    {
      if 0 <= i < |t.vRandom| {
        assert EntryAt(src, ids, cut, t, i);
      }
    }
    forall c
      ensures TriedCellOk(h, t, c)
    {
      if c in t.vvTried {
        assert HoldsEntry(h, t, c);
        assert EntryAt(src, ids, cut, t, t.vvTried[c]);
      }
    }
    forall c
      ensures NewCellOk(h, t, c)
    {
      if c in t.vvNew {
        assert NewPlace(h, t, bs, cut, c);
        assert EntryAt(src, ids, cut, t, t.vvNew[c]);
        assert SourceCell(h, src, ids[t.vvNew[c]], bs[t.vvNew[c]]);
      }
    }
  }

  // ----- the counts fit the limits of the reader -----

  lemma Pigeonhole(v: seq<int>, n: nat)
    requires Distinct(v) && forall i :: 0 <= i < |v| ==> 0 <= v[i] < n
    ensures |v| <= n
  {
    SizeOfDistinct(v);
    var r := Range(0, n);
    SizeOfDistinct(r);
    forall k | k in v
      ensures k in r
    {
      InRange(0, n, k);
    }
    SubsetSize(set k | k in v, set k | k in r);
  }

  function CellNumber(c: Cell): int { c.bucket * BUCKET_SIZE + c.pos }

  lemma CellNumbers(c: Cell, d: Cell)
    requires c.pos < BUCKET_SIZE && d.pos < BUCKET_SIZE && CellNumber(c) == CellNumber(d)
    ensures c == d
  {
  }

  /** Distinct cells of a table with the given number of buckets. */
  lemma CellsFit(cells: seq<Cell>, buckets: nat)
    requires forall i :: 0 <= i < |cells| ==> cells[i].bucket < buckets && cells[i].pos < BUCKET_SIZE
    requires forall i, j :: 0 <= i < j < |cells| ==> cells[i] != cells[j]
    ensures |cells| <= buckets * BUCKET_SIZE
  {
    var v := seq(|cells|, i requires 0 <= i < |cells| => CellNumber(cells[i]));
    forall i, j | 0 <= i < j < |v|
      ensures v[i] != v[j]
    {
      assert cells[i] != cells[j];
      if v[i] == v[j] {
        CellNumbers(cells[i], cells[j]);
      }
    }
    Pigeonhole(v, buckets * BUCKET_SIZE);
  }

  lemma LimitsHold(h: Hashing, src: State, ids: seq<int>, cut: nat, bs: seq<nat>)
    requires Source(h, src, ids, cut) && BucketsOk(h, src, ids, cut, bs)
    ensures cut <= NEW_BUCKET_COUNT * BUCKET_SIZE && |ids| - cut <= TRIED_BUCKET_COUNT * BUCKET_SIZE
  {
    var new_ := seq(cut, k requires 0 <= k < cut => NewCell(h, src.nKey, PeerAt(src, ids, k).addr.service, bs[k]));
    forall i, j | 0 <= i < j < |new_|
      ensures new_[i] != new_[j]
    {
      CellsApart(h, src, ids, cut, bs, i, j);
    }
    forall k | 0 <= k < cut
      ensures new_[k].bucket < NEW_BUCKET_COUNT
    {
      assert SourceCell(h, src, ids[k], bs[k]);
    }
    CellsFit(new_, NEW_BUCKET_COUNT);
    TriedFit(h, src, ids, cut);
  }

  lemma TriedFit(h: Hashing, src: State, ids: seq<int>, cut: nat)
    requires Source(h, src, ids, cut)
    ensures |ids| - cut <= TRIED_BUCKET_COUNT * BUCKET_SIZE
  {
    var cells := seq(|ids| - cut, k requires 0 <= k < |ids| - cut => TriedCell(h, src.nKey,
        PeerAt(src, ids, cut + k).addr.service));
    forall i, j | 0 <= i < j < |cells|
      ensures cells[i] != cells[j]
    {
      TriedCellsDiffer(h, src, ids, cut, cut + i, cut + j);
    }
    forall k | 0 <= k < |cells|
      ensures cells[k].bucket < TRIED_BUCKET_COUNT && cells[k].pos < BUCKET_SIZE
    {
      TriedCellRange(h, src.nKey, PeerAt(src, ids, cut + k).addr.service);
    }
    CellsFit(cells, TRIED_BUCKET_COUNT);
  }

  lemma TriedCellRange(h: Hashing, key: nat, s: Service)
    ensures TriedCell(h, key, s).bucket < TRIED_BUCKET_COUNT && TriedCell(h, key, s).pos < BUCKET_SIZE
  {
  }

  // ----- reading a whole stream -----

  function UBuckets(st: Stream): int {
    if st.format >= V1_DETERMINISTIC then FlipBit30(st.nUBuckets) else st.nUBuckets
  }

  function NatOf(x: int): nat { if x < 0 then 0 else x }

  /** The stream is not refused: a compatible format, counts within the limits, and nothing missing. */
  predicate Readable(st: Stream) {
    && (st.compat - INCOMPATIBILITY_BASE) % 256 <= FILE_FORMAT
    && st.nNew <= NEW_BUCKET_COUNT * BUCKET_SIZE && st.nTried <= TRIED_BUCKET_COUNT * BUCKET_SIZE
    && st.nNew <= |st.newInfos| && st.nTried <= |st.triedInfos| && UBuckets(st) <= |st.buckets|
  }

  /** The buckets that were read can be used as they are. */
  predicate Usable(st: Stream, asmap: nat) {
    st.format >= V2_ASMAP && UBuckets(st) == NEW_BUCKET_COUNT && st.asmap == asmap
  }

  function PlaceAll(h: Hashing, s: State, st: Stream, usable: bool, n: nat): State
    requires UBuckets(st) <= |st.buckets|
  {
    if n == 0 then s
    else
      var t := PlaceAll(h, s, st, usable, n - 1);
      if n - 1 in t.mapInfo then Place(h, t, n - 1, BucketOf(st.buckets, n - 1, NatOf(UBuckets(st))), usable) else t
  }

  function Read(h: Hashing, st: Stream, asmap: nat): State
    requires Readable(st)
  {
    var s1 := LoadNew(Empty(st.nKey, st.nNew, st.nTried), st.newInfos, NatOf(st.nNew)).(nIdCount := st.nNew);
    var s2 := LoadTried(h, s1, st.triedInfos, NatOf(st.nTried));
    PlaceAll(h, s2, st, Usable(st, asmap), NatOf(st.nNew))
  }

  ghost function ReadBuckets(st: Stream, n: nat): (bs: seq<nat>)
    requires UBuckets(st) <= |st.buckets|
    ensures |bs| == n && forall k :: 0 <= k < n ==> bs[k] == BucketOf(st.buckets, k, NatOf(UBuckets(st)))
  {
    seq(n, k requires 0 <= k => BucketOf(st.buckets, k, NatOf(UBuckets(st))))
  }

  lemma {:induction false} AllPlaced(h: Hashing, src: State, ids: seq<int>, cut: nat, st: Stream, s: State, n: nat)
    requires UBuckets(st) <= |st.buckets| && n <= cut
    requires NewPart(h, src, ids, cut, ReadBuckets(st, cut), s, 0)
    ensures NewPart(h, src, ids, cut, ReadBuckets(st, cut), PlaceAll(h, s, st, true, n), n)
  {
    hide NewPart, Place;
    if n > 0 {
      AllPlaced(h, src, ids, cut, st, s, n - 1);
      PlaceStep(h, src, ids, cut, ReadBuckets(st, cut), PlaceAll(h, s, st, true, n - 1), n - 1);
    }
  }

  lemma AfterNew(h: Hashing, src: State, ids: seq<int>, cut: nat, t: State, nTried: int)
    requires Loaded(h, src, ids, cut, t, cut) && Unplaced(t) && t.vvTried == map[] && t.nNew == cut &&
        t.nTried == nTried && t.collisions == {}
    ensures TriedPart(h, src, ids, cut, t.(nIdCount := cut), cut, cut, nTried)
  {
    var t' := t.(nIdCount := cut);
    forall k | 0 <= k < cut
      ensures EntryAt(src, ids, cut, t', k)
    {
      assert EntryAt(src, ids, cut, t, k);
    }
  }

  lemma SourceOf(h: Hashing, s: State, nl: seq<int>, tl: seq<int>)
    requires Inv(h, s, {}, {}) && Lists(s, nl, tl)
    ensures Source(h, s, nl + tl, |nl|)
  {
    hide Inv;
    var ids := nl + tl;
    forall k | 0 <= k < |ids|
      ensures ids[k] in s.mapInfo && (s.mapInfo[ids[k]].fInTried <==> k >= |nl|)
    {
      if k >= |nl| {
        assert ids[k] == tl[k - |nl|];
      }
    }
    forall i, j | 0 <= i < j < |ids|
      ensures ids[i] != ids[j]
    {
      if i >= |nl| {
        assert tl[i - |nl|] != tl[j - |nl|];
      }
    }
  }

  lemma WrittenInfos(s: State, order: seq<int>, asmap: nat)
    requires Lists(s, Listed(s.mapInfo, order, false), Listed(s.mapInfo, order, true))
    ensures var nl, tl := Listed(s.mapInfo, order, false), Listed(s.mapInfo, order, true);
      Known(s, nl + tl) && WrittenFrom(s, nl + tl, |nl|, Written(s, order, asmap))
  {
    var nl, tl, st := Listed(s.mapInfo, order, false), Listed(s.mapInfo, order, true), Written(s, order, asmap);
    hide Listed, UnkIds, Buckets;
    var ids := nl + tl;
    forall k | 0 <= k < |ids|
      ensures ids[k] in s.mapInfo
      ensures if k < |nl| then st.newInfos[k] == ToDisk(s.mapInfo[ids[k]].peer)
              else st.triedInfos[k - |nl|] == ToDisk(s.mapInfo[ids[k]].peer)
    {
      if k < |nl| {
        assert ids[k] == nl[k];
      } else {
        assert ids[k] == tl[k - |nl|];
      }
    }
  }

  lemma WrittenBuckets(h: Hashing, s: State, order: seq<int>, asmap: nat)
    requires Inv(h, s, {}, {}) && Enumerates(order, s.mapInfo)
    requires Lists(s, Listed(s.mapInfo, order, false), Listed(s.mapInfo, order, true))
    ensures var nl, tl, st := Listed(s.mapInfo, order, false), Listed(s.mapInfo, order, true), Written(s, order, asmap);
      Known(s, nl + tl) && UBuckets(st) == NEW_BUCKET_COUNT == |st.buckets| &&
          BucketsOk(h, s, nl + tl, |nl|, ReadBuckets(st, |nl|))
  {
    WrittenInfos(s, order, asmap);
    var nl, tl, st := Listed(s.mapInfo, order, false), Listed(s.mapInfo, order, true), Written(s, order, asmap);
    assert UBuckets(st) == NEW_BUCKET_COUNT &&
        st.buckets == Buckets(s.vvNew, UnkIds(s.mapInfo, order), NEW_BUCKET_COUNT);
    hide Inv, Listed, UnkIds, Buckets, SourceCell, Written, Enumerates;
    var ids, bs := nl + tl, ReadBuckets(st, |nl|);
    forall k | 0 <= k < |nl|
      ensures SourceCell(h, s, ids[k], bs[k])
    {
      BucketRead(h, s, order, k);
      assert ids[k] == nl[k];
    }
  }

  /** What Serialize writes is not refused, and can be used as it is. */
  lemma WrittenIs(h: Hashing, s: State, order: seq<int>, asmap: nat)
    requires Inv(h, s, {}, {}) && Enumerates(order, s.mapInfo)
    ensures var nl, tl, st := Listed(s.mapInfo, order, false), Listed(s.mapInfo, order, true), Written(s, order, asmap);
      Lists(s, nl, tl) && Source(h, s, nl + tl, |nl|) && WrittenFrom(s, nl + tl, |nl|, st)
      && Readable(st) && Usable(st, asmap) && UBuckets(st) == NEW_BUCKET_COUNT
      && BucketsOk(h, s, nl + tl, |nl|, ReadBuckets(st, |nl|)) && st.nNew == |nl| && st.nTried == |tl|
  {
    var nl, tl, st := Listed(s.mapInfo, order, false), Listed(s.mapInfo, order, true), Written(s, order, asmap);
    assert st.nNew == s.nNew && st.nTried == s.nTried && st.format == 3 && st.compat == 35 && st.asmap == asmap;
    hide Inv, Enumerates, Listed, Lists, Written, Source, BucketsOk;
    ListedLists(h, s, order);
    ListedCounts(h, s, order);
    SourceOf(h, s, nl, tl);
    WrittenInfos(s, order, asmap);
    WrittenBuckets(h, s, order, asmap);
    LimitsHold(h, s, nl + tl, |nl|, ReadBuckets(st, |nl|));
  }

  /** Reading it back loads and places every entry. */
  lemma ReadPlaces(h: Hashing, s: State, order: seq<int>, asmap: nat)
    requires Inv(h, s, {}, {}) && Enumerates(order, s.mapInfo)
    ensures var st, nl, tl := Written(s, order, asmap), Listed(s.mapInfo, order, false), Listed(s.mapInfo, order, true);
      Readable(st) && NewPart(h, s, nl + tl, |nl|, ReadBuckets(st, |nl|), Read(h, st, asmap), |nl|)
  {
    var st, nl, tl := Written(s, order, asmap), Listed(s.mapInfo, order, false), Listed(s.mapInfo, order, true);
    var ids, cut := nl + tl, |nl|;
    WrittenKey(s, order, asmap);
    hide Inv, Enumerates, Written, Listed, Lists, Source, Loaded, TriedPart, NewPart, BucketsOk, WrittenFrom, LoadNew,
        LoadTried, PlaceAll;
    WrittenIs(h, s, order, asmap);
    SourceKnown(h, s, ids, cut);
    var s0 := Empty(st.nKey, st.nNew, st.nTried);
    NewLoaded(h, s, ids, cut, st, s0, cut);
    var s1 := LoadNew(s0, st.newInfos, cut);
    AfterNew(h, s, ids, cut, s1, |tl|);
    TriedLoaded(h, s, ids, cut, st, s1.(nIdCount := cut), |tl|);
    var s2 := LoadTried(h, s1.(nIdCount := cut), st.triedInfos, |tl|);
    StartPlacing(h, s, ids, cut, ReadBuckets(st, cut), s2);
    AllPlaced(h, s, ids, cut, st, s2, cut);
  }

  lemma SourceKnown(h: Hashing, s: State, ids: seq<int>, cut: nat)
    requires Source(h, s, ids, cut)
    ensures Known(s, ids) && cut <= |ids|
  {
  }

  /** Serialize, then Unserialize into a fresh manager with the same asmap. */
  lemma RoundTrip(h: Hashing, s: State, order: seq<int>, asmap: nat)
    requires Consistent(h, s) && Enumerates(order, s.mapInfo)
    ensures var st, nl, tl := Written(s, order, asmap), Listed(s.mapInfo, order, false), Listed(s.mapInfo, order, true);
      Readable(st) && Known(s, nl + tl) && Consistent(h, Read(h, st, asmap)) &&
          Reloaded(h, s, Read(h, st, asmap), nl, tl)
  {
    assert Inv(h, s, {}, {});
    var st, nl, tl := Written(s, order, asmap), Listed(s.mapInfo, order, false), Listed(s.mapInfo, order, true);
    hide Inv, Enumerates, Written, Listed, NewPart, Consistent, Reloaded, Read;
    ListedLists(h, s, order);
    ReadPlaces(h, s, order, asmap);
    var t := Read(h, st, asmap);
    PlacedConsistent(h, s, nl + tl, |nl|, ReadBuckets(st, |nl|), t);
    PlacedReloaded(h, s, nl, tl, ReadBuckets(st, |nl|), t);
  }

  lemma WrittenKey(s: State, order: seq<int>, asmap: nat)
    ensures Written(s, order, asmap).nKey == s.nKey
  {
  }

  lemma PlacedReloaded(h: Hashing, s: State, nl: seq<int>, tl: seq<int>, bs: seq<nat>, t: State)
    requires NewPart(h, s, nl + tl, |nl|, bs, t, |nl|) && Lists(s, nl, tl)
    ensures Known(s, nl + tl) && Reloaded(h, s, t, nl, tl)
  {
    var ids, cut := nl + tl, |nl|;
    LoadedIds(h, s, ids, cut, t, |ids|);
    forall k | 0 <= k < |tl|
      ensures SameTriedCell(h, s, t, tl[k], cut + k)
    {
      assert ids[cut + k] == tl[k];
      assert EntryAt(s, ids, cut, t, cut + k) && TriedEntry(h, t, cut + k) && IdOk(h, s, {}, tl[k]);
    }
    forall c
      ensures c in t.vvTried <==> c in s.vvTried
    {
      TriedCellKept(h, s, nl, tl, bs, t, c);
    }
    forall k | 0 <= k < |nl|
      ensures OneOfItsCells(s, t, nl[k], k)
    {
      assert ids[k] == nl[k];
      OneCell(h, s, ids, cut, bs, t, k);
    }
  }

  lemma TriedCellKept(h: Hashing, s: State, nl: seq<int>, tl: seq<int>, bs: seq<nat>, t: State, c: Cell)
    requires NewPart(h, s, nl + tl, |nl|, bs, t, |nl|) && Lists(s, nl, tl)
    ensures c in t.vvTried <==> c in s.vvTried
  {
    var ids, cut := nl + tl, |nl|;
    if c in t.vvTried {
      assert HoldsEntry(h, t, c);
      var k := t.vvTried[c];
      assert EntryAt(s, ids, cut, t, k) && IdOk(h, s, {}, ids[k]);
      IdsNatural(h, s, ids, cut, k);
    }
    if c in s.vvTried {
      assert TriedCellOk(h, s, c) && InList(s, nl, tl, s.vvTried[c]);
      var j :| 0 <= j < |tl| && tl[j] == s.vvTried[c];
      var k := cut + j;
      assert ids[k] == tl[j];
      assert EntryAt(s, ids, cut, t, k) && TriedEntry(h, t, k);
    }
  }

  /** The time stamps Check_ looks at survive too. */
  lemma StampsSurvive(h: Hashing, s: State, t: State, nl: seq<int>, tl: seq<int>)
    requires Stamped(s) && Known(s, nl + tl) && Reloaded(h, s, t, nl, tl) && Inv(h, s, {}, {}) &&
        Source(h, s, nl + tl, |nl|)
    ensures Stamped(t)
  {
    forall k
      ensures StampOk(t, k)
    {
      if k in t.mapInfo {
        assert EntryAt(s, nl + tl, |nl|, t, k);
        assert StampOk(s, (nl + tl)[k]);
      }
    }
  }

  // ----- Serialize -----

  /** The loop over mapInfo can never write more entries than the counter announces. */
  lemma RoomToWrite(h: Hashing, s: State, order: seq<int>, tried: bool, k: nat)
    requires Inv(h, s, {}, {}) && Enumerates(order, s.mapInfo) && k < |order| && Wanted(s.mapInfo, order[k], tried)
    ensures |Listed(s.mapInfo, order[..k], tried)| < if tried then s.nTried else s.nNew
  {
    ListedCounts(h, s, order);
    ListedPrefix(s.mapInfo, order, tried, k + 1);
    assert order[..k + 1][..k] == order[..k];
  }

  lemma OneMoreListed(m: map<int, Info>, order: seq<int>, tried: bool, k: nat)
    requires k < |order|
    ensures var l := Listed(m, order[..k], tried);
      Listed(m, order[..k + 1], tried) == if Wanted(m, order[k], tried) then l + [order[k]] else l
    ensures UnkIds(m, order[..k + 1]) == UnkIds(m, order[..k])[order[k] := |Listed(m, order[..k], false)|]
  {
    assert order[..k + 1][..k] == order[..k];
  }

  /** One of the two loops over mapInfo. Its assertion on the counter never fails. */
  method WriteInfos(a: A.AddrMan, order: seq<int>, tried: bool) returns (infos: seq<DiskInfo>, unk: map<int, int>)
    requires a.Valid() && Enumerates(order, a.mapInfo)
    ensures infos == Infos(a.mapInfo, Listed(a.mapInfo, order, tried)) && unk == UnkIdsOf(a.mapInfo, order, tried)
  {
    hide Listed, UnkIds, Inv, CollisionsOk, Enumerates;
    ListedNone(a.mapInfo, tried);
    infos, unk := [], map[];
    var nIds := 0;
    var k := 0;
    while k < |order|
      invariant 0 <= k <= |order| && nIds == |infos|
      invariant infos == Infos(a.mapInfo, Listed(a.mapInfo, order[..k], tried))
      invariant unk == UnkIdsOf(a.mapInfo, order[..k], tried)
    {
      OneMoreListed(a.mapInfo, order, tried, k);
      OrderKnown(a.mapInfo, order, k);
      var info := a.mapInfo[order[k]];
      if !tried {
        unk := unk[order[k] := nIds];
      }
      if if tried then info.fInTried else info.nRefCount != 0 {
        RoomToWrite(a.h, a.Snapshot(), order, tried, k);
        assert nIds != if tried then a.nTried else a.nNew;
        infos := infos + [ToDisk(info.peer)];
        nIds := nIds + 1;
      }
      k := k + 1;
    }
    assert order[..k] == order;
  }

  function UnkIdsOf(m: map<int, Info>, order: seq<int>, tried: bool): map<int, int> {
    if tried then map[] else UnkIds(m, order)
  }

  lemma ListedNone(m: map<int, Info>, tried: bool)
    ensures Listed(m, [], tried) == [] && UnkIds(m, []) == map[]
  {
  }

  lemma OrderKnown(m: map<int, Info>, order: seq<int>, k: nat)
    requires Enumerates(order, m) && k < |order|
    ensures order[k] in m
  {
    assert order[k] in order;
  }

  method WriteBuckets(t: Table, unk: map<int, int>) returns (buckets: seq<seq<int>>)
    ensures buckets == Buckets(t, unk, NEW_BUCKET_COUNT)
  {
    buckets := [];
    var bucket := 0;
    while bucket < NEW_BUCKET_COUNT
      invariant 0 <= bucket <= NEW_BUCKET_COUNT && buckets == Buckets(t, unk, bucket)
    {
      var entries: seq<int> := [];
      var i := 0;
      while i < BUCKET_SIZE
        invariant 0 <= i <= BUCKET_SIZE && entries == BucketEntries(t, unk, bucket, i)
      {
        var c := Cell(bucket, i);
        if c in t {
          entries := entries + [if t[c] in unk then unk[t[c]] else 0];
        }
        i := i + 1;
      }
      buckets := buckets + [entries];
      bucket := bucket + 1;
    }
  }

  method Serialize(a: A.AddrMan, order: seq<int>, asmap: nat) returns (st: Stream)
    requires a.Valid() && Enumerates(order, a.mapInfo)
    ensures st == Written(a.Snapshot(), order, asmap)
  {
    var newInfos, unk := WriteInfos(a, order, false);
    var triedInfos, _ := WriteInfos(a, order, true);
    var buckets := WriteBuckets(a.vvNew, unk);
    st := Stream(FILE_FORMAT, INCOMPATIBILITY_BASE + FILE_FORMAT, a.nKey, a.nNew, a.nTried, FlipBit30(NEW_BUCKET_COUNT),
                 newInfos, triedInfos, buckets, asmap);
  }

  // ----- Unserialize -----

  ghost predicate RandomAt(s: State, id: int) {
    id in s.mapInfo ==> 0 <= s.mapInfo[id].nRandomPos < |s.vRandom| && s.vRandom[s.mapInfo[id].nRandomPos] == id
  }

  /** vRandom lists every id once, and every id knows its place: what Delete relies on. */
  ghost predicate RandomOk(s: State, bound: int) {
    (forall id :: RandomAt(s, id)) && (forall i :: PosOk(s, i)) && forall id :: id in s.mapInfo ==> id < bound
  }

  lemma RandomAppend(s: State, s': State, id: int, info: Info)
    requires RandomOk(s, id) && s'.vRandom == s.vRandom + [id] && s'.mapInfo == s.mapInfo[id := info] &&
        info.nRandomPos == |s.vRandom|
    ensures RandomOk(s', id + 1)
  {
    forall x
      ensures RandomAt(s', x)
    {
      assert RandomAt(s, x);
    }
    forall i
      ensures PosOk(s', i)
    {
      assert PosOk(s, i);
    }
  }

  ghost predicate SamePlace(s: State, s': State, id: int) {
    (id in s'.mapInfo <==> id in s.mapInfo) &&
        (id in s.mapInfo ==> s'.mapInfo[id].nRandomPos == s.mapInfo[id].nRandomPos)
  }

  lemma RandomSame(s: State, s': State, bound: int)
    requires RandomOk(s, bound) && s'.vRandom == s.vRandom && forall id :: SamePlace(s, s', id)
    ensures RandomOk(s', bound)
  {
    forall x
      ensures RandomAt(s', x)
    {
      assert RandomAt(s, x) && SamePlace(s, s', x);
    }
    forall i
      ensures PosOk(s', i)
    {
      assert PosOk(s, i);
      if 0 <= i < |s.vRandom| {
        assert SamePlace(s, s', s.vRandom[i]);
      }
    }
    forall x | x in s'.mapInfo
      ensures x < bound
    {
      assert SamePlace(s, s', x);
    }
  }

  /** Deleting an entry leaves every other one, and keeps vRandom in order. */
  lemma RandomDelete(s: State, id: int, bound: int)
    requires RandomOk(s, bound) && id in s.mapInfo
    ensures SwapOk(s, s.mapInfo[id].nRandomPos, |s.vRandom| - 1)
    ensures RandomOk(Delete(s, id), bound)
    ensures forall x :: Spared(s, Delete(s, id), id, x)
  {
    var i, last := s.mapInfo[id].nRandomPos, |s.vRandom| - 1;
    assert RandomAt(s, id) && PosOk(s, last) && PosOk(s, i);
    var s' := Delete(s, id);
    forall x
      ensures RandomAt(s', x) && Spared(s, s', id, x)
    {
      assert RandomAt(s, x);
    }
    forall k
      ensures PosOk(s', k)
    {
      assert PosOk(s, k);
    }
    forall x | x in s'.mapInfo
      ensures x < bound
    {
      assert Spared(s, s', id, x);
    }
  }

  ghost predicate Spared(s: State, s': State, id: int, x: int) {
    (x in s'.mapInfo <==> x in s.mapInfo && x != id) && (x in s'.mapInfo ==> SameEntry(s'.mapInfo[x], s.mapInfo[x]))
  }

  ghost predicate Kept(t: State, id: int) {
    id in t.mapInfo && (t.mapInfo[id].fInTried || t.mapInfo[id].nRefCount != 0)
  }

  /** The loops over the new and the tried entries. */
  method LoadInfos(h: Hashing, st: Stream) returns (s: State)
    requires Readable(st)
    ensures s == LoadTried(h, LoadNew(Empty(st.nKey, st.nNew, st.nTried), st.newInfos,
        NatOf(st.nNew)).(nIdCount := st.nNew),
                           st.triedInfos, NatOf(st.nTried))
    ensures RandomOk(s, s.nIdCount) && NatOf(st.nNew) <= NatOf(s.nIdCount)
  {
    hide RandomOk, AddNew, AddTried, LoadNew, LoadTried;
    s := Empty(st.nKey, st.nNew, st.nTried);
    ghost var s0 := s;
    RandomEmpty(s);
    LoadNone(h, s, st);
    var n := 0;
    while n < st.nNew
      invariant 0 <= n <= NatOf(st.nNew) && s == LoadNew(s0, st.newInfos, n) && RandomOk(s, n)
    {
      LoadNewStep(s0, st.newInfos, n);
      AddNewRandom(s, FromDisk(st.newInfos[n]), n);
      s := AddNew(s, FromDisk(st.newInfos[n]), n);
      n := n + 1;
    }
    NewIdsBelow(s, n, st.nNew);
    s := s.(nIdCount := st.nNew);
    ghost var s1 := s;
    LoadNone(h, s1, st);
    n := 0;
    while n < st.nTried
      invariant 0 <= n <= NatOf(st.nTried) && s == LoadTried(h, s1, st.triedInfos, n) && RandomOk(s, s.nIdCount) &&
          s.nIdCount >= st.nNew
    {
      LoadTriedStep(h, s1, st.triedInfos, n);
      AddTriedRandom(h, s, FromDisk(st.triedInfos[n]));
      s := AddTried(h, s, FromDisk(st.triedInfos[n]));
      n := n + 1;
    }
  }

  lemma RandomEmpty(s: State)
    requires s.mapInfo == map[] && s.vRandom == []
    ensures RandomOk(s, 0)
  {
  }

  lemma LoadNone(h: Hashing, s: State, st: Stream)
    ensures LoadNew(s, st.newInfos, 0) == s && LoadTried(h, s, st.triedInfos, 0) == s
  {
  }

  lemma LoadNewStep(s: State, infos: seq<DiskInfo>, n: nat)
    requires n < |infos|
    ensures LoadNew(s, infos, n + 1) == AddNew(LoadNew(s, infos, n), FromDisk(infos[n]), n)
  {
  }

  lemma LoadTriedStep(h: Hashing, s: State, infos: seq<DiskInfo>, n: nat)
    requires n < |infos|
    ensures LoadTried(h, s, infos, n + 1) == AddTried(h, LoadTried(h, s, infos, n), FromDisk(infos[n]))
  {
  }

  lemma AddNewRandom(s: State, p: Peer, id: int)
    requires RandomOk(s, id)
    ensures RandomOk(AddNew(s, p, id), id + 1)
  {
    RandomAppend(s, AddNew(s, p, id), id, Info(p, 0, false, |s.vRandom|));
  }

  lemma AddTriedRandom(h: Hashing, s: State, p: Peer)
    requires RandomOk(s, s.nIdCount)
    ensures RandomOk(AddTried(h, s, p), AddTried(h, s, p).nIdCount) && AddTried(h, s, p).nIdCount >= s.nIdCount
  {
    if TriedCell(h, s.nKey, p.addr.service) in s.vvTried {
      RandomSame(s, AddTried(h, s, p), s.nIdCount);
    } else {
      RandomAppend(s, AddTried(h, s, p), s.nIdCount, Info(p, 0, true, |s.vRandom|));
    }
  }

  /** Without new entries the tried ids start at the counter, even if it is negative. */
  lemma NewIdsBelow(s: State, n: nat, nNew: int)
    requires RandomOk(s, n) && n == NatOf(nNew) && (n == 0 ==> s.mapInfo == map[])
    ensures RandomOk(s.(nIdCount := nNew), nNew)
  {
    RandomSame(s, s.(nIdCount := nNew), n);
  }

  lemma PutNewRandom(h: Hashing, s: State, id: int, bucket: nat, usable: bool, bound: int)
    requires RandomOk(s, bound) && id in s.mapInfo
    ensures RandomOk(Place(h, s, id, bucket, usable), bound) && Place(h, s, id, bucket, usable).nIdCount == s.nIdCount
  {
    hide NewCell, HomeCell;
    RandomSame(s, Place(h, s, id, bucket, usable), bound);
  }

  /** entryToBucket, filled bucket by bucket. */
  method ReadBucketLists(st: Stream) returns (entryToBucket: map<int, nat>)
    requires Readable(st)
    ensures forall n :: 0 <= n < st.nNew ==>
      (if n in entryToBucket then entryToBucket[n] else 0) == BucketOf(st.buckets, n, NatOf(UBuckets(st)))
  {
    entryToBucket := map[];
    var bucket := 0;
    while bucket < UBuckets(st)
      invariant 0 <= bucket <= NatOf(UBuckets(st))
      invariant forall n :: 0 <= n < st.nNew ==>
        (if n in entryToBucket then entryToBucket[n] else 0) == BucketOf(st.buckets, n, bucket)
    {
      ghost var was := entryToBucket;
      var k := 0;
      while k < |st.buckets[bucket]|
        invariant 0 <= k <= |st.buckets[bucket]|
        invariant forall n :: 0 <= n < st.nNew ==> (n in entryToBucket <==> n in was || n in st.buckets[bucket][..k])
        invariant forall n :: 0 <= n < st.nNew && n in entryToBucket ==>
            entryToBucket[n] == if n in st.buckets[bucket][..k] then bucket else was[n]
      {
        var nIndex := st.buckets[bucket][k];
        if 0 <= nIndex < st.nNew {
          entryToBucket := entryToBucket[nIndex := bucket];
        }
        k := k + 1;
      }
      assert st.buckets[bucket][..k] == st.buckets[bucket];
      bucket := bucket + 1;
    }
  }

  /** The loop that gives every new entry a cell. */
  method PlaceEntries(h: Hashing, st: Stream, asmap: nat, s0: State) returns (s: State)
    requires Readable(st) && RandomOk(s0, s0.nIdCount)
    ensures s == PlaceAll(h, s0, st, Usable(st, asmap), NatOf(st.nNew)) && RandomOk(s, s.nIdCount)
  {
    hide Place, RandomOk, BucketOf;
    var entryToBucket := ReadBucketLists(st);
    s := s0;
    var n := 0;
    while n < st.nNew
      invariant 0 <= n <= NatOf(st.nNew) && s == PlaceAll(h, s0, st, Usable(st, asmap), n) && RandomOk(s, s.nIdCount)
    {
      if n in s.mapInfo {
        var bucket := if n in entryToBucket then entryToBucket[n] else 0;
        PutNewRandom(h, s, n, bucket, Usable(st, asmap), s.nIdCount);
        s := Place(h, s, n, bucket, Usable(st, asmap));
      }
      n := n + 1;
    }
  }

  /** The last loop: new entries that found no cell are deleted. */
  method Prune(a: A.AddrMan, lo: int)
    requires RandomOk(a.Snapshot(), a.nIdCount) && lo <= a.nIdCount && forall id :: id in a.mapInfo ==> lo <= id
    modifies a`mapInfo, a`vRandom, a`mapAddr, a`nNew
    ensures forall id :: id in a.mapInfo ==> Kept(a.Snapshot(), id)
    ensures forall id :: Kept(old(a.Snapshot()), id) ==> id in a.mapInfo && SameEntry(a.mapInfo[id], old(a.mapInfo)[id])
    ensures (forall id :: id in old(a.mapInfo) ==> Kept(old(a.Snapshot()), id)) ==> a.Snapshot() == old(a.Snapshot())
  {
    ghost var s0 := a.Snapshot();
    assert forall x :: x in s0.mapInfo ==> x < a.nIdCount;
    hide RandomOk, Pruned;
    StartPrune(s0, lo);
    var id := lo;
    while id < a.nIdCount
      invariant lo <= id <= a.nIdCount && RandomOk(a.Snapshot(), a.nIdCount)
      invariant Pruned(s0, a.Snapshot(), id)
      invariant (forall x :: x in s0.mapInfo ==> Kept(s0, x)) ==> a.Snapshot() == s0
    {
      ghost var s := a.Snapshot();
      if id in a.mapInfo && !a.mapInfo[id].fInTried && a.mapInfo[id].nRefCount == 0 {
        RandomDelete(s, id, a.nIdCount);
        a.Delete(id);
        assert a.Snapshot() == Delete(s, id);
      }
      PruneStep(s0, s, a.Snapshot(), id);
      id := id + 1;
    }
    PruneEnd(s0, a.Snapshot(), id);
  }

  /** With the ids below `id` done, x is as it was, or was to be pruned and is gone. */
  ghost predicate PruneOk(s0: State, s: State, id: int, x: int) {
    && (x in s.mapInfo ==> x in s0.mapInfo && SameEntry(s.mapInfo[x], s0.mapInfo[x]) && (x < id ==> Kept(s0, x)))
    && (x in s0.mapInfo && (x >= id || Kept(s0, x)) ==> x in s.mapInfo)
  }

  ghost predicate Pruned(s0: State, s: State, id: int) {
    forall x :: PruneOk(s0, s, id, x)
  }

  lemma StartPrune(s: State, lo: int)
    requires forall id :: id in s.mapInfo ==> lo <= id
    ensures Pruned(s, s, lo)
  {
  }

  lemma PruneStep(s0: State, s: State, s': State, id: int)
    requires Pruned(s0, s, id)
    requires if id in s.mapInfo && !s.mapInfo[id].fInTried &&
        s.mapInfo[id].nRefCount == 0 then forall x :: Spared(s, s', id, x) else s' == s
    ensures Pruned(s0, s', id + 1)
    ensures (forall x :: x in s0.mapInfo ==> Kept(s0, x)) && s == s0 ==> s' == s0
  {
    assert PruneOk(s0, s, id, id);
    var next := id + 1;
    forall x
      ensures PruneOk(s0, s', next, x)
    {
      assert PruneOk(s0, s, id, x);
      if id in s.mapInfo && !s.mapInfo[id].fInTried && s.mapInfo[id].nRefCount == 0 {
        assert Spared(s, s', id, x);
      }
    }
  }

  lemma PruneEnd(s0: State, s: State, id: int)
    requires Pruned(s0, s, id)
    requires forall x :: x in s0.mapInfo ==> x < id
    ensures forall x :: x in s.mapInfo ==> Kept(s, x)
    ensures forall x :: Kept(s0, x) ==> x in s.mapInfo && SameEntry(s.mapInfo[x], s0.mapInfo[x])
  {
    forall x | x in s.mapInfo
      ensures Kept(s, x)
    {
      assert PruneOk(s0, s, id, x);
    }
    forall x | Kept(s0, x)
      ensures x in s.mapInfo && SameEntry(s.mapInfo[x], s0.mapInfo[x])
    {
      assert PruneOk(s0, s, id, x);
    }
  }

  /** Everything goes but the collisions; the key is drawn anew. */
  method Clear(a: A.AddrMan, key: nat)
    modifies a
    ensures a.Snapshot() == Empty(key, 0, 0).(collisions := old(a.collisions)) && a.nLastGood == 1
  {
    a.vRandom, a.nKey, a.vvNew, a.vvTried := [], key, map[], map[];
    a.nIdCount, a.nTried, a.nNew, a.nLastGood := 0, 0, 0, 1;
    a.mapInfo, a.mapAddr := map[], map[];
  }

  predicate FormatKnown(st: Stream) { (st.compat - INCOMPATIBILITY_BASE) % 256 <= FILE_FORMAT }

  predicate WithinLimits(st: Stream) {
    st.nNew <= NEW_BUCKET_COUNT * BUCKET_SIZE && st.nTried <= TRIED_BUCKET_COUNT * BUCKET_SIZE
  }

  /** Unserialize; key is the draw of Clear. What Clear leaves alone, the set of collisions, stays. An
      unknown format leaves an empty manager; counters over their limits are left behind with empty tables. */
  method Unserialize(a: A.AddrMan, st: Stream, asmap: nat, key: nat) returns (ok: bool)
    modifies a
    ensures ok <==> Readable(st)
    ensures !FormatKnown(st) ==> a.Snapshot() == Empty(key, 0, 0).(collisions := old(a.collisions))
    ensures FormatKnown(st) && !WithinLimits(st) ==>
      a.Snapshot() == Empty(st.nKey, st.nNew, st.nTried).(collisions := old(a.collisions))
    ensures ok ==> forall id :: id in a.mapInfo ==> Kept(a.Snapshot(), id)
    ensures ok && (forall id :: id in Read(a.h, st, asmap).mapInfo ==> Kept(Read(a.h, st, asmap), id)) ==>
      a.Snapshot() == Read(a.h, st, asmap).(collisions := old(a.collisions))
  {
    Clear(a, key);
    if (st.compat - INCOMPATIBILITY_BASE) % 256 > FILE_FORMAT {
      return false;
    }
    a.nKey, a.nNew, a.nTried := st.nKey, st.nNew, st.nTried;
    if st.nNew > NEW_BUCKET_COUNT * BUCKET_SIZE || st.nTried > TRIED_BUCKET_COUNT * BUCKET_SIZE {
      return false;
    }
    if st.nNew > |st.newInfos| || st.nTried > |st.triedInfos| || UBuckets(st) > |st.buckets| {
      return false;
    }
    var s := LoadInfos(a.h, st);
    s := PlaceEntries(a.h, st, asmap, s);
    Store(a, s);
    var lo := if st.nNew < 0 then st.nNew else 0;
    LowIds(a.h, st, asmap);
    RandomColl(s, a.Snapshot());
    Prune(a, lo);
    ok := true;
  }

  method Store(a: A.AddrMan, s: State)
    modifies a
    ensures a.Snapshot() == s.(collisions := old(a.collisions))
  {
    a.nKey, a.nIdCount, a.mapInfo, a.mapAddr, a.vRandom := s.nKey, s.nIdCount, s.mapInfo, s.mapAddr, s.vRandom;
    a.nTried, a.vvTried, a.nNew, a.vvNew, a.nLastGood := s.nTried, s.vvTried, s.nNew, s.vvNew, 1;
  }

  lemma RandomColl(s: State, s': State)
    requires RandomOk(s, s.nIdCount) && s' == s.(collisions := s'.collisions)
    ensures RandomOk(s', s'.nIdCount)
  {
    RandomSame(s, s', s.nIdCount);
  }

  ghost predicate IdsFrom(s: State, lo: int) {
    s.nIdCount >= lo && forall id :: id in s.mapInfo ==> lo <= id
  }

  lemma {:induction false} LoadNewIds(s: State, infos: seq<DiskInfo>, n: nat, lo: int)
    requires n <= |infos| && IdsFrom(s, lo) && lo <= 0
    ensures IdsFrom(LoadNew(s, infos, n), lo)
  {
    if n > 0 {
      LoadNewIds(s, infos, n - 1, lo);
    }
  }

  lemma {:induction false} LoadTriedIds(h: Hashing, s: State, infos: seq<DiskInfo>, n: nat, lo: int)
    requires n <= |infos| && IdsFrom(s, lo)
    ensures IdsFrom(LoadTried(h, s, infos, n), lo)
  {
    if n > 0 {
      LoadTriedIds(h, s, infos, n - 1, lo);
    }
  }

  lemma {:induction false} PlaceAllIds(h: Hashing, s: State, st: Stream, usable: bool, n: nat, lo: int)
    requires UBuckets(st) <= |st.buckets| && IdsFrom(s, lo)
    ensures IdsFrom(PlaceAll(h, s, st, usable, n), lo)
  {
    if n > 0 {
      PlaceAllIds(h, s, st, usable, n - 1, lo);
    }
  }

  lemma LowIds(h: Hashing, st: Stream, asmap: nat)
    requires Readable(st)
    ensures IdsFrom(Read(h, st, asmap), if st.nNew < 0 then st.nNew else 0)
  {
    var lo := if st.nNew < 0 then st.nNew else 0;
    var s0 := Empty(st.nKey, st.nNew, st.nTried);
    LoadNewIds(s0, st.newInfos, NatOf(st.nNew), lo);
    var s1 := LoadNew(s0, st.newInfos, NatOf(st.nNew)).(nIdCount := st.nNew);
    assert IdsFrom(s1, lo);
    LoadTriedIds(h, s1, st.triedInfos, NatOf(st.nTried), lo);
    PlaceAllIds(h, LoadTried(h, s1, st.triedInfos, NatOf(st.nTried)), st, Usable(st, asmap), NatOf(st.nNew), lo);
  }

  /** Everything a consistent state holds is kept by the last loop. */
  lemma ConsistentKept(h: Hashing, t: State, id: int)
    requires Inv(h, t, {}, {}) && id in t.mapInfo
    ensures Kept(t, id)
  {
    assert IdOk(h, t, {}, id);
  }

  ghost predicate AllKept(t: State) {
    forall id :: id in t.mapInfo ==> Kept(t, id)
  }

  lemma NoCollisions(h: Hashing, src: State, ids: seq<int>, cut: nat, bs: seq<nat>, t: State)
    requires NewPart(h, src, ids, cut, bs, t, cut)
    ensures t.collisions == {}
  {
  }

  /** All that holds of what comes back. */
  lemma ReloadFacts(h: Hashing, s: State, order: seq<int>, asmap: nat)
    requires Consistent(h, s) && Enumerates(order, s.mapInfo)
    ensures var st, nl, tl := Written(s, order, asmap), Listed(s.mapInfo, order, false), Listed(s.mapInfo, order, true);
      Readable(st) && Known(s, nl + tl) && ReloadsTo(h, s, nl, tl, Read(h, st, asmap))
  {
    assert Inv(h, s, {}, {});
    var st, nl, tl := Written(s, order, asmap), Listed(s.mapInfo, order, false), Listed(s.mapInfo, order, true);
    hide Enumerates, Written, Read, Readable, Listed, Lists, Source, Stamped, Kept, Reloaded, WrittenFrom, BucketsOk,
        NewPart, IdOk;
    RoundTrip(h, s, order, asmap);
    ReadPlaces(h, s, order, asmap);
    var t := Read(h, st, asmap);
    NoCollisions(h, s, nl + tl, |nl|, ReadBuckets(st, |nl|), t);
    assert Inv(h, t, {}, {});
    forall id | id in t.mapInfo
      ensures Kept(t, id)
    {
      ConsistentKept(h, t, id);
    }
    if Stamped(s) {
      WrittenIs(h, s, order, asmap);
      StampsSurvive(h, s, t, nl, tl);
    }
  }

  ghost predicate ReloadsTo(h: Hashing, s: State, nl: seq<int>, tl: seq<int>, t: State)
    requires Known(s, nl + tl)
  {
    Consistent(h, t) && Reloaded(h, s, t, nl, tl) && AllKept(t) && t.collisions == {} && (Stamped(s) ==> Stamped(t))
  }

  /** Saving one manager and loading it into a fresh one with the same asmap. */
  method Reload(source: A.AddrMan, target: A.AddrMan, order: seq<int>, asmap: nat, key: nat) returns (ok: bool)
    requires source.Valid() && Enumerates(order, source.mapInfo) && target.h == source.h && target.collisions == {} &&
        target != source
    modifies target
    ensures ok && target.Valid() && target.nKey == source.nKey
    ensures var s, t := source.Snapshot(), target.Snapshot();
      var nl, tl := Listed(s.mapInfo, order, false), Listed(s.mapInfo, order, true);
      Known(s, nl + tl) && Reloaded(source.h, s, t, nl, tl) && (Stamped(s) ==> Stamped(t))
  {
    hide Consistent, Lists, EntryAt, SameTriedCell, OneOfItsCells, Enumerates, Written, Read, Readable, Listed,
        Stamped, Kept, Known;
    var st := Serialize(source, order, asmap);
    ReloadFacts(source.h, source.Snapshot(), order, asmap);
    ok := Unserialize(target, st, asmap, key);
    assert target.Snapshot() == Read(source.h, st, asmap);
  }
}
