/**
 Values of the coin cache stack (src/coins.h, src/coins.cpp): cache entries with their DIRTY and
 FRESH flags, what a cache over a base shows, what a flush makes of the parent's entries, and the
 flat reference the stack must agree with.
 */
module CoinsModel {
  import opened Wrappers

  type Hash = nat
  const NULL_HASH: Hash := 0

  datatype OutPoint = OutPoint(hash: Hash, n: nat)
  datatype Script = Script(bytes: seq<nat>, unspendable: bool, zerocoinMint: bool)
  datatype TxOut = TxOut(nValue: int, script: Script)

  datatype Coin = Coin(out: TxOut, nHeight: nat, fCoinBase: bool, fCoinStake: bool) {
    predicate IsSpent() { out.nValue == -1 }
  }

  const EMPTY_COIN := Coin(TxOut(-1, Script([], false, false)), 0, false, false)

  datatype CoinEntry = CoinEntry(coin: Coin, isDirty: bool, isFresh: bool)

  /** The Sapling note commitment tree; its root hash is a parameter of the stack. */
  datatype Tree = Tree(leaves: seq<Hash>)
  const EMPTY_TREE := Tree([])

  datatype AnchorEntry = AnchorEntry(entered: bool, tree: Tree, isDirty: bool)
  datatype NullifierEntry = NullifierEntry(entered: bool, isDirty: bool)

  type CoinMap = map<OutPoint, CoinEntry>
  type AnchorMap = map<Hash, AnchorEntry>
  type NullifierMap = map<Hash, NullifierEntry>

  /** What one level of the stack shows: unspent coins, entered anchors, spent nullifiers. The two
      hashes are the level's own, null when the level defers to the one below. */
  datatype Layer = Layer(
    coins: map<OutPoint, Coin>, anchors: map<Hash, Tree>, nullifiers: set<Hash>,
    hashBlock: Hash, hashAnchor: Hash)

  function Get<K, V>(m: map<K, V>, k: K): Option<V> {
    if k in m then Some(m[k]) else None
  }

  // ----- what a cache shows over its base -----

  function CoinOverlay(c: CoinMap, b: map<OutPoint, Coin>): map<OutPoint, Coin> {
    map o | o in c.Keys + b.Keys && (o in c ==> !c[o].coin.IsSpent()) :: if o in c then c[o].coin else b[o]
  }

  function AnchorOverlay(c: AnchorMap, b: map<Hash, Tree>): map<Hash, Tree> {
    map r | r in c.Keys + b.Keys && (r in c ==> c[r].entered) :: if r in c then c[r].tree else b[r]
  }

  function NullifierOverlay(c: NullifierMap, b: set<Hash>): set<Hash> {
    set n | n in c.Keys + b && (n in c ==> c[n].entered)
  }

  // ----- the cache invariants -----

  /** A non-DIRTY entry agrees with the base (spent meaning absent) and a FRESH one is absent there. */
  predicate CoinEntryOk(e: CoinEntry, b: Option<Coin>) {
    && (!e.isDirty ==> b == if e.coin.IsSpent() then None else Some(e.coin))
    && (e.isFresh ==> b == None)
  }

  ghost predicate CoinsOk(c: CoinMap, b: map<OutPoint, Coin>) {
    forall o :: o in c ==> CoinEntryOk(c[o], Get(b, o))
  }

  ghost predicate Injective(rootOf: Tree -> Hash) {
    forall s, t :: rootOf(s) == rootOf(t) ==> s == t
  }

  ghost predicate Rooted(rootOf: Tree -> Hash, b: map<Hash, Tree>) {
    forall r :: r in b ==> rootOf(b[r]) == r
  }

  /** A cached tree has its key as root; a non-DIRTY anchor is entered and agrees with the base. */
  ghost predicate AnchorEntryOk(rootOf: Tree -> Hash, r: Hash, e: AnchorEntry, b: Option<Tree>) {
    rootOf(e.tree) == r && (!e.isDirty ==> e.entered && b == Some(e.tree))
  }

  ghost predicate AnchorsOk(rootOf: Tree -> Hash, c: AnchorMap, b: map<Hash, Tree>) {
    forall r :: r in c ==> AnchorEntryOk(rootOf, r, c[r], Get(b, r))
  }

  ghost predicate NullifiersOk(c: NullifierMap, b: set<Hash>) {
    forall n :: n in c ==> !c[n].isDirty ==> (c[n].entered <==> n in b)
  }

  // ----- one key of BatchWrite -----

  /** The FRESH flag of the child contradicts an unspent entry of the parent. */
  predicate FreshMisapplied(child: CoinEntry, parent: Option<CoinEntry>) {
    child.isDirty && child.isFresh && parent.Some? && !parent.value.coin.IsSpent()
  }

  function MergeCoin(child: CoinEntry, parent: Option<CoinEntry>): Option<CoinEntry> {
    if !child.isDirty then parent
    else match parent
      case None =>
        if child.isFresh && child.coin.IsSpent() then None else Some(CoinEntry(child.coin, true, child.isFresh))
      case Some(p) =>
        if p.isFresh && child.coin.IsSpent() then None else Some(CoinEntry(child.coin, true, p.isFresh))
  }

  function MergeAnchor(child: AnchorEntry, parent: Option<AnchorEntry>): Option<AnchorEntry> {
    if !child.isDirty then parent
    else match parent
      case None => Some(AnchorEntry(child.entered, child.tree, true))
      case Some(p) =>
        if p.entered != child.entered then Some(AnchorEntry(child.entered, p.tree, true)) else Some(p)
  }

  function MergeNullifier(child: NullifierEntry, parent: Option<NullifierEntry>): Option<NullifierEntry> {
    if !child.isDirty then parent
    else match parent
      case None => Some(NullifierEntry(child.entered, true))
      case Some(p) => if p.entered != child.entered then Some(NullifierEntry(child.entered, true)) else Some(p)
  }

  /** m' is m with every key of child merged in by f. */
  ghost predicate Merged<K(!new), V>(m': map<K, V>, m: map<K, V>, child: map<K, V>, f: (V, Option<V>) -> Option<V>) {
    forall k :: Get(m', k) == if k in child then f(child[k], Get(m, k)) else Get(m, k)
  }

  // ----- the other operations, seen per map -----

  lemma FetchedCoin(c: CoinMap, b: map<OutPoint, Coin>, o: OutPoint, coin: Coin)
    requires CoinsOk(c, b) && o !in c && Get(b, o) == if coin.IsSpent() then None else Some(coin)
    ensures CoinsOk(c[o := CoinEntry(coin, false, coin.IsSpent())], b)
    ensures CoinOverlay(c[o := CoinEntry(coin, false, coin.IsSpent())], b) == CoinOverlay(c, b)
  {
    MapsEqual(CoinOverlay(c[o := CoinEntry(coin, false, coin.IsSpent())], b), CoinOverlay(c, b));
  }

  function CachedOr(c: CoinMap, o: OutPoint): CoinEntry {
    if o in c then c[o] else CoinEntry(EMPTY_COIN, false, false)
  }

  /** Storing a coin as DIRTY shows it; the invariant survives exactly when a FRESH mark is only
      given to an outpoint with nothing visible. */
  lemma StoredCoin(c: CoinMap, b: map<OutPoint, Coin>, o: OutPoint, coin: Coin, overwrite: bool)
    requires CoinsOk(c, b) && !coin.IsSpent() && (overwrite || CachedOr(c, o).coin.IsSpent())
    ensures var e := CachedOr(c, o);
            var c' := c[o := CoinEntry(coin, true, e.isFresh || (!overwrite && !e.isDirty))];
            && (CoinsOk(c', b) <==> overwrite || o !in CoinOverlay(c, b))
            && CoinOverlay(c', b) == CoinOverlay(c, b)[o := coin]
  {
    var e := CachedOr(c, o);
    var c' := c[o := CoinEntry(coin, true, e.isFresh || (!overwrite && !e.isDirty))];
    if o in c { assert CoinEntryOk(c[o], Get(b, o)); }
    assert CoinEntryOk(c'[o], Get(b, o)) <==> overwrite || o !in CoinOverlay(c, b);
    MapsEqual(CoinOverlay(c', b), CoinOverlay(c, b)[o := coin]);
  }

  lemma SpentCoin(c: CoinMap, b: map<OutPoint, Coin>, o: OutPoint)
    requires CoinsOk(c, b) && o in c
    ensures var c' := if c[o].isFresh then c - {o} else c[o := CoinEntry(EMPTY_COIN, true, false)];
            CoinsOk(c', b) && CoinOverlay(c', b) == CoinOverlay(c, b) - {o}
  {
    var c' := if c[o].isFresh then c - {o} else c[o := CoinEntry(EMPTY_COIN, true, false)];
    assert CoinEntryOk(c[o], Get(b, o));
    MapsEqual(CoinOverlay(c', b), CoinOverlay(c, b) - {o});
  }

  lemma UncachedCoin(c: CoinMap, b: map<OutPoint, Coin>, o: OutPoint)
    requires CoinsOk(c, b) && o in c && !c[o].isDirty && !c[o].isFresh
    ensures CoinsOk(c - {o}, b) && CoinOverlay(c - {o}, b) == CoinOverlay(c, b)
  {
    assert CoinEntryOk(c[o], Get(b, o));
    MapsEqual(CoinOverlay(c - {o}, b), CoinOverlay(c, b));
  }

  /** Putting an entry with the right root into the anchor cache shows its tree if it is entered. */
  lemma StoredAnchor(rootOf: Tree -> Hash, c: AnchorMap, b: map<Hash, Tree>, r: Hash, e: AnchorEntry)
    requires AnchorsOk(rootOf, c, b) && AnchorEntryOk(rootOf, r, e, Get(b, r))
    ensures AnchorsOk(rootOf, c[r := e], b)
    ensures AnchorOverlay(c[r := e], b) == if e.entered then AnchorOverlay(c, b)[r := e.tree]
                                           else AnchorOverlay(c, b) - {r}
  {
    MapsEqual(AnchorOverlay(c[r := e], b), if e.entered then AnchorOverlay(c, b)[r := e.tree]
                                           else AnchorOverlay(c, b) - {r});
  }

  lemma AnchorShown(c: AnchorMap, b: map<Hash, Tree>, r: Hash)
    ensures Get(AnchorOverlay(c, b), r) ==
            if r in c then (if c[r].entered then Some(c[r].tree) else None) else Get(b, r)
  {
  }

  lemma FetchedAnchor(rootOf: Tree -> Hash, c: AnchorMap, b: map<Hash, Tree>, r: Hash)
    requires AnchorsOk(rootOf, c, b) && Rooted(rootOf, b) && r !in c && r in b
    ensures AnchorsOk(rootOf, c[r := AnchorEntry(true, b[r], false)], b)
    ensures AnchorOverlay(c[r := AnchorEntry(true, b[r], false)], b) == AnchorOverlay(c, b)
  {
    StoredAnchor(rootOf, c, b, r, AnchorEntry(true, b[r], false));
    assert AnchorOverlay(c, b)[r := b[r]] == AnchorOverlay(c, b);
  }

  lemma RemovedAnchor(rootOf: Tree -> Hash, c: AnchorMap, b: map<Hash, Tree>, r: Hash)
    requires AnchorsOk(rootOf, c, b) && r in c
    ensures AnchorsOk(rootOf, c[r := c[r].(entered := false, isDirty := true)], b)
    ensures AnchorOverlay(c[r := c[r].(entered := false, isDirty := true)], b) == AnchorOverlay(c, b) - {r}
  {
    StoredAnchor(rootOf, c, b, r, c[r].(entered := false, isDirty := true));
  }

  lemma StoredNullifier(c: NullifierMap, b: set<Hash>, n: Hash, e: NullifierEntry)
    requires NullifiersOk(c, b) && (!e.isDirty ==> (e.entered <==> n in b))
    ensures NullifiersOk(c[n := e], b)
    ensures NullifierOverlay(c[n := e], b) == if e.entered then NullifierOverlay(c, b) + {n}
                                              else NullifierOverlay(c, b) - {n}
  {
  }

  lemma EmptyCache(rootOf: Tree -> Hash, b: Layer)
    ensures CoinsOk(map[], b.coins) && AnchorsOk(rootOf, map[], b.anchors) && NullifiersOk(map[], b.nullifiers)
    ensures CoinOverlay(map[], b.coins) == b.coins
    ensures AnchorOverlay(map[], b.anchors) == b.anchors
    ensures NullifierOverlay(map[], b.nullifiers) == b.nullifiers
  {
    MapsEqual(CoinOverlay(map[], b.coins), b.coins);
    MapsEqual(AnchorOverlay(map[], b.anchors), b.anchors);
  }

  // ----- a flush, seen per map -----

  /** Flushing a consistent child: the parent then shows what the child showed, the parent's entries
      still satisfy the invariant over the grandparent, and FRESH was not misapplied. */
  lemma FlushCoins(child: CoinMap, parent: CoinMap, merged: CoinMap, b: map<OutPoint, Coin>)
    requires CoinsOk(parent, b) && CoinsOk(child, CoinOverlay(parent, b))
    requires Merged(merged, parent, child, MergeCoin)
    ensures CoinsOk(merged, b)
    ensures CoinOverlay(merged, b) == CoinOverlay(child, CoinOverlay(parent, b))
  {
    var mid := CoinOverlay(parent, b);
    var seen := CoinOverlay(child, mid);
    var shown := CoinOverlay(merged, b);
    forall o ensures Get(shown, o) == Get(seen, o) && (o in merged ==> CoinEntryOk(merged[o], Get(b, o))) {
      assert Get(merged, o) == if o in child then MergeCoin(child[o], Get(parent, o)) else Get(parent, o);
      if o in child { assert CoinEntryOk(child[o], Get(mid, o)); }
      if o in parent { assert CoinEntryOk(parent[o], Get(b, o)); }
    }
    MapsEqual(shown, seen);
  }

  lemma NoFreshMisapplied(child: CoinMap, parent: CoinMap, b: map<OutPoint, Coin>, o: OutPoint)
    requires CoinsOk(child, CoinOverlay(parent, b)) && o in child
    ensures !FreshMisapplied(child[o], Get(parent, o))
  {
    assert CoinEntryOk(child[o], Get(CoinOverlay(parent, b), o));
  }

  lemma FlushAnchors(rootOf: Tree -> Hash, child: AnchorMap, parent: AnchorMap, merged: AnchorMap, b: map<Hash, Tree>)
    requires Injective(rootOf)
    requires AnchorsOk(rootOf, parent, b) && AnchorsOk(rootOf, child, AnchorOverlay(parent, b))
    requires Merged(merged, parent, child, MergeAnchor)
    ensures AnchorsOk(rootOf, merged, b)
    ensures AnchorOverlay(merged, b) == AnchorOverlay(child, AnchorOverlay(parent, b))
  {
    var seen := AnchorOverlay(child, AnchorOverlay(parent, b));
    var shown := AnchorOverlay(merged, b);
    forall r ensures Get(shown, r) == Get(seen, r) && (r in merged ==> AnchorEntryOk(rootOf, r, merged[r], Get(b, r))) {
      FlushAnchorAt(rootOf, child, parent, merged, b, r);
    }
    MapsEqual(shown, seen);
  }

  lemma SameRoot(rootOf: Tree -> Hash, s: Tree, t: Tree)
    requires Injective(rootOf) && rootOf(s) == rootOf(t)
    ensures s == t
  {
  }

  lemma FlushAnchorAt(rootOf: Tree -> Hash, child: AnchorMap, parent: AnchorMap, merged: AnchorMap, b: map<Hash, Tree>,
      r: Hash)
    requires Injective(rootOf)
    requires AnchorsOk(rootOf, parent, b) && AnchorsOk(rootOf, child, AnchorOverlay(parent, b))
    requires Merged(merged, parent, child, MergeAnchor)
    ensures Get(AnchorOverlay(merged, b), r) == Get(AnchorOverlay(child, AnchorOverlay(parent, b)), r)
    ensures r in merged ==> AnchorEntryOk(rootOf, r, merged[r], Get(b, r))
  {
    assert Get(merged, r) == if r in child then MergeAnchor(child[r], Get(parent, r)) else Get(parent, r);
    if r in child { assert AnchorEntryOk(rootOf, r, child[r], Get(AnchorOverlay(parent, b), r)); }
    if r in parent { assert AnchorEntryOk(rootOf, r, parent[r], Get(b, r)); }
    if r in child && r in parent {
      SameRoot(rootOf, child[r].tree, parent[r].tree);
    }
  }

  lemma FlushNullifiers(child: NullifierMap, parent: NullifierMap, merged: NullifierMap, b: set<Hash>)
    requires NullifiersOk(parent, b) && NullifiersOk(child, NullifierOverlay(parent, b))
    requires Merged(merged, parent, child, MergeNullifier)
    ensures NullifiersOk(merged, b)
    ensures NullifierOverlay(merged, b) == NullifierOverlay(child, NullifierOverlay(parent, b))
  {
    var mid := NullifierOverlay(parent, b);
    forall n ensures n in NullifierOverlay(merged, b) <==> n in NullifierOverlay(child, mid)
             ensures n in merged ==> !merged[n].isDirty ==> (merged[n].entered <==> n in b)
    {
      assert Get(merged, n) == if n in child then MergeNullifier(child[n], Get(parent, n)) else Get(parent, n);
    }
  }

  lemma MapsEqual<K(!new), V>(a: map<K, V>, b: map<K, V>)
    requires forall k :: Get(a, k) == Get(b, k)
    ensures a == b
  {
    forall k ensures k in a <==> k in b {
      assert Get(a, k) == Get(b, k);
    }
    forall k | k in a ensures a[k] == b[k] {
      assert Get(a, k) == Get(b, k);
    }
  }

  lemma OverlayRooted(rootOf: Tree -> Hash, c: AnchorMap, b: map<Hash, Tree>)
    requires AnchorsOk(rootOf, c, b) && Rooted(rootOf, b)
    ensures Rooted(rootOf, AnchorOverlay(c, b))
  {
  }

  // ----- the flat reference -----

  /** The best block (anchor) seen at the top: the first hash of its own on the way down. */
  function BestBlock(views: seq<Layer>): Hash
    requires views != []
  {
    if |views| == 1 || views[0].hashBlock != NULL_HASH then views[0].hashBlock else BestBlock(views[1..])
  }

  function BestAnchor(views: seq<Layer>): Hash
    requires views != []
  {
    if |views| == 1 || views[0].hashAnchor != NULL_HASH then views[0].hashAnchor else BestAnchor(views[1..])
  }

  /** Asking for the best block (anchor) makes every level asked remember the answer. */
  function AskBestBlock(views: seq<Layer>): (asked: seq<Layer>)
    requires views != []
    ensures |asked| == |views|
  {
    if |views| == 1 || views[0].hashBlock != NULL_HASH then views
    else [views[0].(hashBlock := BestBlock(views[1..]))] + AskBestBlock(views[1..])
  }

  function AskBestAnchor(views: seq<Layer>): (asked: seq<Layer>)
    requires views != []
    ensures |asked| == |views|
  {
    if |views| == 1 || views[0].hashAnchor != NULL_HASH then views
    else [views[0].(hashAnchor := BestAnchor(views[1..]))] + AskBestAnchor(views[1..])
  }

  predicate Storable(coin: Coin) {
    !coin.out.script.unspendable && !coin.out.script.zerocoinMint
  }

  function AddCoinFlat(l: Layer, o: OutPoint, coin: Coin): Layer {
    if Storable(coin) then l.(coins := l.coins[o := coin]) else l
  }

  function SpendCoinFlat(l: Layer, o: OutPoint): Layer {
    l.(coins := l.coins - {o})
  }

  datatype Tx = Tx(txid: Hash, vout: seq<TxOut>, fCoinBase: bool, fCoinStake: bool)

  function OutputCoin(tx: Tx, i: nat, nHeight: nat): Coin
    requires i < |tx.vout|
  {
    Coin(tx.vout[i], nHeight, tx.fCoinBase, tx.fCoinStake)
  }

  /** The flat effect of adding the first n outputs of tx; banned outputs are spent instead. */
  function AddOutputsFlat(l: Layer, tx: Tx, n: nat, nHeight: nat, banned: set<OutPoint>): Layer
    requires n <= |tx.vout|
  {
    if n == 0 then l
    else
      var before := AddOutputsFlat(l, tx, n - 1, nHeight, banned);
      var o := OutPoint(tx.txid, n - 1);
      if o in banned then SpendCoinFlat(before, o) else AddCoinFlat(before, o, OutputCoin(tx, n - 1, nHeight))
  }

  /** Output n is untouched while the outputs before it are added. */
  lemma {:induction false} LaterOutputsUntouched(l: Layer, tx: Tx, n: nat, nHeight: nat, banned: set<OutPoint>, m: nat)
    requires n <= |tx.vout| && n <= m
    ensures Get(AddOutputsFlat(l, tx, n, nHeight, banned).coins, OutPoint(tx.txid, m)) == Get(l.coins,
        OutPoint(tx.txid, m))
  {
    if n > 0 {
      LaterOutputsUntouched(l, tx, n - 1, nHeight, banned, m);
    }
  }

  /** What is shown of output i of tx after it was added, field by field: a banned output is gone, one
      that is not stored shows as before, and any other shows the output with where it comes from. */
  ghost predicate OutputShown(before: map<OutPoint, Coin>, after: map<OutPoint, Coin>, tx: Tx, i: nat, nHeight: nat,
                              banned: set<OutPoint>)
    requires i < |tx.vout|
  {
    var o, out := OutPoint(tx.txid, i), tx.vout[i];
    if o in banned then o !in after
    else if out.script.unspendable || out.script.zerocoinMint then Get(after, o) == Get(before, o)
    else
      && o in after && after[o].out == out && after[o].nHeight == nHeight
      && after[o].fCoinBase == tx.fCoinBase && after[o].fCoinStake == tx.fCoinStake
  }

  /** The first n outputs of tx are added and nothing else changes. */
  ghost predicate OutputsAdded(before: map<OutPoint, Coin>, after: map<OutPoint, Coin>, tx: Tx, n: nat, nHeight: nat,
                               banned: set<OutPoint>)
    requires n <= |tx.vout|
  {
    && (forall i :: 0 <= i < n ==> OutputShown(before, after, tx, i, nHeight, banned))
    && (forall o: OutPoint :: o.hash != tx.txid || o.n >= n ==> Get(after, o) == Get(before, o))
  }

  lemma {:induction false} AddOutputsShows(l: Layer, tx: Tx, n: nat, nHeight: nat, banned: set<OutPoint>)
    requires n <= |tx.vout|
    ensures var after := AddOutputsFlat(l, tx, n, nHeight, banned);
      after == l.(coins := after.coins) && OutputsAdded(l.coins, after.coins, tx, n, nHeight, banned)
  {
    if n > 0 {
      AddOutputsShows(l, tx, n - 1, nHeight, banned);
      var mid, after := AddOutputsFlat(l, tx, n - 1, nHeight, banned), AddOutputsFlat(l, tx, n, nHeight, banned);
      forall i | 0 <= i < n ensures OutputShown(l.coins, after.coins, tx, i, nHeight, banned) {
        if i < n - 1 { assert OutputShown(l.coins, mid.coins, tx, i, nHeight, banned); }
      }
    }
  }

  function PushAnchorFlat(l: Layer, best: Hash, rt: Hash, tree: Tree): Layer {
    if best == rt then l else l.(anchors := l.anchors[rt := tree], hashAnchor := rt)
  }

  function PopAnchorFlat(l: Layer, best: Hash, rt: Hash): Layer {
    if best == rt then l else l.(anchors := l.anchors - {best}, hashAnchor := rt)
  }

  function SetNullifiersFlat(l: Layer, nfs: seq<Hash>, spent: bool): Layer {
    var ns := set n | n in nfs;
    l.(nullifiers := if spent then l.nullifiers + ns else l.nullifiers - ns)
  }

  /** A flush into a cache hands everything down; into the database, a null best anchor is not
      written and the empty tree stays known whatever the cache says. */
  function FlushedInto(top: Layer, below: Layer, isDb: bool, emptyRoot: Hash): Layer {
    if isDb then top.(anchors := top.anchors[emptyRoot := EMPTY_TREE],
                      hashAnchor := if top.hashAnchor == NULL_HASH then below.hashAnchor else top.hashAnchor)
    else top
  }

  /** The stack of flat maps after flushing its top; nothing stays cached above. */
  function FlushFlat(views: seq<Layer>, emptyRoot: Hash): seq<Layer>
    requires |views| >= 2
  {
    var d := FlushedInto(views[0], views[1], |views| == 2, emptyRoot);
    [d.(hashBlock := views[0].hashBlock, hashAnchor := views[0].hashAnchor), d] + views[2..]
  }

  lemma FlushFlatIs(views: seq<Layer>, emptyRoot: Hash)
    requires |views| >= 2
    ensures var d := FlushedInto(views[0], views[1], |views| == 2, emptyRoot);
      FlushFlat(views, emptyRoot)
      == [d.(hashBlock := views[0].hashBlock, hashAnchor := views[0].hashAnchor)] + ([d] + views[2..])
  {
  }

  // ----- operations on a whole stack -----

  datatype Op =
    | PushCache | PopCache | FlushTop
    | Fetch(o: OutPoint) | Add(o: OutPoint, coin: Coin, overwrite: bool) | Spend(o: OutPoint) | Uncache(o: OutPoint)
    | LookAnchor(rt: Hash) | PushAnchor(tree: Tree) | PopAnchor(rt: Hash)
    | LookNullifier(n: Hash) | SetNullifiers(nfs: seq<Hash>, spent: bool)
    | AskBlock | SetBlock(h: Hash) | AskAnchor
    | AddTx(tx: Tx, nHeight: nat, check: bool, banned: set<OutPoint>)

  /** What AddCoins demands: no output to be added is null, and, unless it is to check, none that is
      stored overwrites a coin. */
  predicate Addable(l: Layer, tx: Tx, nHeight: nat, check: bool, banned: set<OutPoint>) {
    forall i :: 0 <= i < |tx.vout| && OutPoint(tx.txid, i) !in banned ==>
      tx.vout[i].nValue != -1 && (check || !Storable(OutputCoin(tx, i, nHeight)) || OutPoint(tx.txid, i) !in l.coins)
  }

  /** What the source demands of its callers, in terms of what the stack shows. */
  predicate Allowed(views: seq<Layer>, op: Op) {
    && views != []
    && match op
       case PushCache => true
       case Add(o, coin, overwrite) =>
         |views| >= 2 && !coin.IsSpent() && (overwrite || !Storable(coin) || o !in views[0].coins)
       case FlushTop => |views| >= 2 && (|views| == 2 ==> views[0].hashBlock != NULL_HASH)
       case AddTx(tx, nHeight, check, banned) => |views| >= 2 && Addable(views[0], tx, nHeight, check, banned)
       case PopAnchor(rt) => |views| >= 2 && (BestAnchor(views) == rt || BestAnchor(views) in views[0].anchors)
       case _ => |views| >= 2
  }

  /** The same operation on a stack of flat maps: caching does not show. */
  function FlatStep(views: seq<Layer>, op: Op, rootOf: Tree -> Hash): seq<Layer>
    requires Allowed(views, op)
  {
    match op
    case PushCache => [views[0].(hashBlock := NULL_HASH, hashAnchor := NULL_HASH)] + views
    case PopCache => views[1..]
    case FlushTop => FlushFlat(views, rootOf(EMPTY_TREE))
    case Fetch(_) => views
    case Add(o, coin, _) => [AddCoinFlat(views[0], o, coin)] + views[1..]
    case Spend(o) => [SpendCoinFlat(views[0], o)] + views[1..]
    case Uncache(_) => views
    case LookAnchor(_) => views
    case PushAnchor(tree) =>
      var asked := AskBestAnchor(views);
      [PushAnchorFlat(asked[0], BestAnchor(views), rootOf(tree), tree)] + asked[1..]
    case PopAnchor(rt) =>
      var asked := AskBestAnchor(views);
      [PopAnchorFlat(asked[0], BestAnchor(views), rt)] + asked[1..]
    case LookNullifier(_) => views
    case SetNullifiers(nfs, spent) => [SetNullifiersFlat(views[0], nfs, spent)] + views[1..]
    case AskBlock => AskBestBlock(views)
    case SetBlock(h) => [views[0].(hashBlock := h)] + views[1..]
    case AskAnchor => AskBestAnchor(views)
    case AddTx(tx, nHeight, _, banned) => [AddOutputsFlat(views[0], tx, |tx.vout|, nHeight, banned)] + views[1..]
  }

  datatype Answer =
    | Done | CoinIs(coin: Option<Coin>) | AnchorIs(tree: Option<Tree>) | NullifierIs(entered: bool) | HashIs(hash: Hash)

  /** What a caller learns from an operation on the stack of flat maps. */
  function FlatAnswer(views: seq<Layer>, op: Op): Answer
    requires Allowed(views, op)
  {
    match op
    case Fetch(o) => CoinIs(Get(views[0].coins, o))
    case Spend(o) => CoinIs(Get(views[0].coins, o))
    case LookAnchor(rt) => AnchorIs(Get(views[0].anchors, rt))
    case LookNullifier(n) => NullifierIs(n in views[0].nullifiers)
    case AskBlock => HashIs(BestBlock(views))
    case AskAnchor => HashIs(BestAnchor(views))
    case _ => Done
  }

  // ----- what a reader learns after an operation -----

  /** What Fetch(q) answers after an operation other than leaving a cache, from what it answered before. */
  ghost predicate CoinRead(op: Op, q: OutPoint, before: Option<Coin>, after: Option<Coin>) {
    match op
    case Add(o, coin, _) =>
      after == if q == o && !coin.out.script.unspendable && !coin.out.script.zerocoinMint then Some(coin) else before
    case Spend(o) => after == if q == o then None else before
    case AddTx(tx, nHeight, _, banned) =>
      if q.hash != tx.txid || q.n >= |tx.vout| then after == before
      else if q in banned then after == None
      else if tx.vout[q.n].script.unspendable || tx.vout[q.n].script.zerocoinMint then after == before
      else after == Some(Coin(tx.vout[q.n], nHeight, tx.fCoinBase, tx.fCoinStake))
    case _ => after == before
  }

  lemma ReadCoin(views: seq<Layer>, op: Op, rootOf: Tree -> Hash, q: OutPoint)
    requires Allowed(views, op) && !op.PopCache?
    ensures CoinRead(op, q, Get(views[0].coins, q), Get(FlatStep(views, op, rootOf)[0].coins, q))
  {
    match op
    case AddTx(tx, nHeight, _, banned) =>
      AddOutputsShows(views[0], tx, |tx.vout|, nHeight, banned);
      var after := AddOutputsFlat(views[0], tx, |tx.vout|, nHeight, banned);
      hide AddOutputsFlat;
      if q.hash == tx.txid && q.n < |tx.vout| {
        assert OutputShown(views[0].coins, after.coins, tx, q.n, nHeight, banned);
        assert q == OutPoint(tx.txid, q.n);
      }
    case PushAnchor(_) => AskBestAnchorSame(views);
    case PopAnchor(_) => AskBestAnchorSame(views);
    case AskAnchor => AskBestAnchorSame(views);
    case AskBlock => AskBestBlockSame(views);
    case _ =>
  }

  lemma ReadNullifier(views: seq<Layer>, op: Op, rootOf: Tree -> Hash, q: Hash)
    requires Allowed(views, op) && !op.PopCache?
    ensures q in FlatStep(views, op, rootOf)[0].nullifiers <==>
              if op.SetNullifiers? && q in op.nfs then op.spent else q in views[0].nullifiers
  {
    match op
    case AddTx(tx, nHeight, _, banned) => AddOutputsShows(views[0], tx, |tx.vout|, nHeight, banned);
    case PushAnchor(_) => AskBestAnchorSame(views);
    case PopAnchor(_) => AskBestAnchorSame(views);
    case AskAnchor => AskBestAnchorSame(views);
    case AskBlock => AskBestBlockSame(views);
    case _ =>
  }

  /** A pushed tree is found under its root, which is the best anchor from then on; a popped root is not
      found any more, and the one given is the best. */
  lemma ReadAnchor(views: seq<Layer>, op: Op, rootOf: Tree -> Hash, q: Hash)
    requires Allowed(views, op) && (op.PushAnchor? || op.PopAnchor?)
    ensures var best, after := BestAnchor(views), FlatStep(views, op, rootOf);
      var rt := if op.PushAnchor? then rootOf(op.tree) else op.rt;
      && (rt == best ==> Get(after[0].anchors, q) == Get(views[0].anchors, q))
      && (rt != best && op.PushAnchor? ==>
            Get(after[0].anchors, q) == if q == rt then Some(op.tree) else Get(views[0].anchors, q))
      && (rt != best && op.PopAnchor? ==>
            Get(after[0].anchors, q) == if q == best then None else Get(views[0].anchors, q))
      && (rt != NULL_HASH ==> BestAnchor(after) == rt) && BestBlock(after) == BestBlock(views)
  {
    AskBestAnchorSame(views);
    AskAnchorKeepsBlock(views);
  }

  lemma {:induction false} AskAnchorKeepsBlock(views: seq<Layer>)
    requires views != []
    ensures BestBlock(AskBestAnchor(views)) == BestBlock(views)
    ensures AskBestAnchor(views)[0].hashBlock == views[0].hashBlock
    ensures |views| > 1 ==> BestBlock(AskBestAnchor(views)[1..]) == BestBlock(views[1..])
  {
    if |views| > 1 && views[0].hashAnchor == NULL_HASH {
      AskAnchorKeepsBlock(views[1..]);
      assert AskBestAnchor(views)[1..] == AskBestAnchor(views[1..]);
    }
  }

  /** A spent coin is no coin to the caller. */
  function Unspent(r: Option<Coin>): Option<Coin> { if r.Some? && !r.value.IsSpent() then r else None }

  ghost predicate AllowedRun(views: seq<Layer>, ops: seq<Op>, rootOf: Tree -> Hash)
    decreases |ops|
  {
    ops == [] || (Allowed(views, ops[0]) && AllowedRun(FlatStep(views, ops[0], rootOf), ops[1..], rootOf))
  }

  ghost function FlatRun(views: seq<Layer>, ops: seq<Op>, rootOf: Tree -> Hash): seq<Layer>
    requires AllowedRun(views, ops, rootOf)
    decreases |ops|
  {
    if ops == [] then views else FlatRun(FlatStep(views, ops[0], rootOf), ops[1..], rootOf)
  }

  ghost function FlatAnswers(views: seq<Layer>, ops: seq<Op>, rootOf: Tree -> Hash): seq<Answer>
    requires AllowedRun(views, ops, rootOf)
    decreases |ops|
  {
    if ops == [] then []
    else [FlatAnswer(views, ops[0])] + FlatAnswers(FlatStep(views, ops[0], rootOf), ops[1..], rootOf)
  }

  lemma {:induction false} AskBestAnchorSame(views: seq<Layer>)
    requires views != []
    ensures BestAnchor(AskBestAnchor(views)) == BestAnchor(views)
    ensures AskBestAnchor(views)[0] == views[0].(hashAnchor := BestAnchor(views))
  {
    if |views| > 1 && views[0].hashAnchor == NULL_HASH {
      AskBestAnchorSame(views[1..]);
      assert AskBestAnchor(views)[1..] == AskBestAnchor(views[1..]);
    }
  }

  lemma {:induction false} AskBestBlockSame(views: seq<Layer>)
    requires views != []
    ensures BestBlock(AskBestBlock(views)) == BestBlock(views)
    ensures AskBestBlock(views)[0] == views[0].(hashBlock := BestBlock(views))
  {
    if |views| > 1 && views[0].hashBlock == NULL_HASH {
      AskBestBlockSame(views[1..]);
      assert AskBestBlock(views)[1..] == AskBestBlock(views[1..]);
    }
  }

  /** Flushing keeps the visible best anchor and best block exactly when the cache has its own hash
      or the level below already showed what the level below that shows. */
  lemma FlushBest(views: seq<Layer>, emptyRoot: Hash)
    requires |views| >= 3
    ensures BestAnchor(FlushFlat(views, emptyRoot)) == BestAnchor(views)
            <==> views[0].hashAnchor != NULL_HASH || BestAnchor(views[1..]) == BestAnchor(views[2..])
    ensures BestBlock(FlushFlat(views, emptyRoot)) == BestBlock(views)
            <==> views[0].hashBlock != NULL_HASH || BestBlock(views[1..]) == BestBlock(views[2..])
  {
    var f := FlushFlat(views, emptyRoot);
    assert f[1..][1..] == views[2..] && views[1..][1..] == views[2..];
  }

  /** Into the database the anchor survives even a null hash, but the anchors survive exactly when
      the empty tree is still among those shown. */
  lemma FlushIntoDb(views: seq<Layer>, emptyRoot: Hash)
    requires |views| == 2
    ensures BestAnchor(FlushFlat(views, emptyRoot)) == BestAnchor(views)
    ensures FlushFlat(views, emptyRoot)[0].coins == views[0].coins == FlushFlat(views, emptyRoot)[1].coins
    ensures FlushFlat(views, emptyRoot)[0].anchors == views[0].anchors
            <==> Get(views[0].anchors, emptyRoot) == Some(EMPTY_TREE)
  {
    var f := FlushFlat(views, emptyRoot);
    assert f[1..] == [f[1]] && views[1..] == [views[1]];
    var a := views[0].anchors;
    assert a[emptyRoot := EMPTY_TREE] == a <==> Get(a, emptyRoot) == Some(EMPTY_TREE) by {
      assert Get(a[emptyRoot := EMPTY_TREE], emptyRoot) == Some(EMPTY_TREE);
    }
  }

  lemma {:induction false} AskBestAnchorTwice(views: seq<Layer>)
    requires views != []
    ensures AskBestAnchor(AskBestAnchor(views)) == AskBestAnchor(views)
  {
    if |views| > 1 && views[0].hashAnchor == NULL_HASH {
      AskBestAnchorTwice(views[1..]);
      AskBestAnchorSame(views[1..]);
      assert AskBestAnchor(views)[1..] == AskBestAnchor(views[1..]);
    }
  }

  lemma PushedAnchors(anchors: map<Hash, Tree>, rt: Hash, tree: Tree)
    ensures anchors[rt := tree] - {rt} == anchors <==> rt !in anchors
  {
    if rt !in anchors {
      assert anchors[rt := tree] - {rt} == anchors;
    } else {
      assert rt !in anchors[rt := tree] - {rt};
    }
  }

  /** Popping right after a push of another root, level by level. */
  lemma PopAfterPush(asked: seq<Layer>, best: Hash, rt: Hash, tree: Tree)
    requires |asked| >= 2 && asked[0].hashAnchor == best && best != rt && rt != NULL_HASH
    ensures var pushed := [PushAnchorFlat(asked[0], best, rt, tree)] + asked[1..];
      && BestAnchor(pushed) == rt && rt in pushed[0].anchors && AskBestAnchor(pushed) == pushed
      && ([PopAnchorFlat(pushed[0], rt, best)] + pushed[1..] == asked <==> rt !in asked[0].anchors)
  {
    var pushed := [PushAnchorFlat(asked[0], best, rt, tree)] + asked[1..];
    var popped := [PopAnchorFlat(pushed[0], rt, best)] + pushed[1..];
    PushedAnchors(asked[0].anchors, rt, tree);
    assert pushed[1..] == asked[1..] && asked == [asked[0]] + asked[1..];
    assert popped[0] == asked[0].(anchors := asked[0].anchors[rt := tree] - {rt});
  }

  /** On any stack, PopAnchor back to the old best anchor undoes PushAnchor exactly when the pushed root
      was not already entered (or was the best one). What stays is that the levels asked for the best
      anchor remember it. */
  lemma PopUndoesPush(views: seq<Layer>, tree: Tree, rootOf: Tree -> Hash)
    requires |views| >= 2 && rootOf(tree) != NULL_HASH
    ensures var pushed := FlatStep(views, PushAnchor(tree), rootOf);
      && Allowed(pushed, PopAnchor(BestAnchor(views)))
      && (FlatStep(pushed, PopAnchor(BestAnchor(views)), rootOf) == AskBestAnchor(views)
          <==> BestAnchor(views) == rootOf(tree) || rootOf(tree) !in views[0].anchors)
  {
    var best, asked := BestAnchor(views), AskBestAnchor(views);
    StepPush(views, tree, rootOf);
    hide BestAnchor, AskBestAnchor, PushAnchorFlat, PopAnchorFlat, FlatStep, Allowed;
    AskBestAnchorSame(views);
    var pushed := [PushAnchorFlat(asked[0], best, rootOf(tree), tree)] + asked[1..];
    if best == rootOf(tree) {
      NothingPushed(asked, best, tree);
      AskBestAnchorTwice(views);
    } else {
      PopAfterPush(asked, best, rootOf(tree), tree);
    }
    StepPop(pushed, best, rootOf);
  }

  lemma StepPush(views: seq<Layer>, tree: Tree, rootOf: Tree -> Hash)
    requires |views| >= 2
    ensures Allowed(views, PushAnchor(tree))
    ensures var asked := AskBestAnchor(views);
      FlatStep(views, PushAnchor(tree),
          rootOf) == [PushAnchorFlat(asked[0], BestAnchor(views), rootOf(tree), tree)] + asked[1..]
  {
  }

  lemma StepPop(views: seq<Layer>, rt: Hash, rootOf: Tree -> Hash)
    requires |views| >= 2 && (BestAnchor(views) == rt || BestAnchor(views) in views[0].anchors)
    ensures Allowed(views, PopAnchor(rt))
    ensures var asked := AskBestAnchor(views);
      FlatStep(views, PopAnchor(rt), rootOf) == [PopAnchorFlat(asked[0], BestAnchor(views), rt)] + asked[1..]
  {
  }

  lemma NothingPushed(asked: seq<Layer>, best: Hash, tree: Tree)
    requires |asked| >= 2
    ensures [PushAnchorFlat(asked[0], best, best, tree)] + asked[1..] == asked
    ensures [PopAnchorFlat(asked[0], best, best)] + asked[1..] == asked
  {
  }

  // ----- inputs on which the promises fail -----

  /** The operations are allowed one after the other, and lead from one stack to the other. */
  ghost predicate Leads(start: seq<Layer>, ops: seq<Op>, end: seq<Layer>, rootOf: Tree -> Hash) {
    AllowedRun(start, ops, rootOf) && FlatRun(start, ops, rootOf) == end
  }

  lemma {:induction false} OneMore(start: seq<Layer>, ops: seq<Op>, end: seq<Layer>, op: Op, rootOf: Tree -> Hash)
    requires Leads(start, ops, end, rootOf) && Allowed(end, op)
    ensures Leads(start, ops + [op], FlatStep(end, op, rootOf), rootOf)
    decreases |ops|
  {
    var all := ops + [op];
    if ops == [] {
      assert all[0] == op && all[1..] == [];
    } else {
      OneMore(FlatStep(start, ops[0], rootOf), ops[1..], end, op, rootOf);
      assert all[0] == ops[0] && all[1..] == ops[1..] + [op];
    }
  }

  /** A new cache over the database. */
  lemma FirstCache(db: Layer, rootOf: Tree -> Hash)
    ensures Leads([db], [PushCache], [db.(hashBlock := NULL_HASH, hashAnchor := NULL_HASH), db], rootOf)
    ensures BestAnchor([db.(hashBlock := NULL_HASH, hashAnchor := NULL_HASH), db]) == db.hashAnchor
  {
    var none: seq<Op> := [];
    assert Leads([db], none, [db], rootOf);
    OneMore([db], none, [db], PushCache, rootOf);
    assert none + [PushCache] == [PushCache];
    var two := [db.(hashBlock := NULL_HASH, hashAnchor := NULL_HASH), db];
    assert FlatStep([db], PushCache, rootOf) == two && two[1..] == [db];
  }

  /** PushAnchor on a cache over the database. */
  lemma PushOnTwo(top: Layer, db: Layer, tree: Tree, rootOf: Tree -> Hash)
    requires (if top.hashAnchor == NULL_HASH then db.hashAnchor else top.hashAnchor) != rootOf(tree)
    ensures FlatStep([top, db], PushAnchor(tree), rootOf)
            == [top.(anchors := top.anchors[rootOf(tree) := tree], hashAnchor := rootOf(tree)), db]
  {
    assert [top, db][1..] == [db];
    AskBestAnchorSame([top, db]);
    var asked := AskBestAnchor([top, db]);
    assert asked[1..] == [db];
  }

  lemma PopOnTwo(top: Layer, db: Layer, rt: Hash, rootOf: Tree -> Hash)
    requires var best := if top.hashAnchor == NULL_HASH then db.hashAnchor else top.hashAnchor;
      best != rt && best in top.anchors
    ensures Allowed([top, db], PopAnchor(rt))
    ensures FlatStep([top, db], PopAnchor(rt), rootOf)
            == [top.(anchors := top.anchors - {if top.hashAnchor == NULL_HASH then db.hashAnchor
              else top.hashAnchor}, hashAnchor := rt), db]
  {
    assert [top, db][1..] == [db];
    AskBestAnchorSame([top, db]);
    var asked := AskBestAnchor([top, db]);
    assert asked[1..] == [db];
  }

  /** A cache that was never asked, flushed over one with hashes of its own, wipes them out. */
  lemma FlushLosesBest(db: Layer, tree: Tree, block: Hash, rootOf: Tree -> Hash) returns (before: seq<Layer>,
      after: seq<Layer>)
    requires rootOf(tree) != db.hashAnchor && rootOf(tree) != NULL_HASH && block != NULL_HASH
    ensures Leads([db], [PushCache, PushAnchor(tree), SetBlock(block), PushCache], before, rootOf)
    ensures Leads([db], [PushCache, PushAnchor(tree), SetBlock(block), PushCache, FlushTop], after, rootOf)
    ensures |before| == 3 && BestAnchor(before) == rootOf(tree) && BestBlock(before) == block
    ensures |after| == 3 && BestAnchor(after) == db.hashAnchor && BestBlock(after) == db.hashBlock
  {
    hide Leads, AskBestAnchor;
    var v1 := [db.(hashBlock := NULL_HASH, hashAnchor := NULL_HASH), db];
    var top := v1[0].(anchors := db.anchors[rootOf(tree) := tree], hashAnchor := rootOf(tree));
    var full := top.(hashBlock := block);
    FirstCache(db, rootOf);
    PushOnTwo(v1[0], db, tree, rootOf);
    OneMore([db], [PushCache], v1, PushAnchor(tree), rootOf);
    assert [PushCache] + [PushAnchor(tree)] == [PushCache, PushAnchor(tree)];
    OneMore([db], [PushCache, PushAnchor(tree)], [top, db], SetBlock(block), rootOf);
    assert [PushCache, PushAnchor(tree)] + [SetBlock(block)] == [PushCache, PushAnchor(tree), SetBlock(block)];
    assert FlatStep([top, db], SetBlock(block), rootOf) == [full, db];
    OneMore([db], [PushCache, PushAnchor(tree), SetBlock(block)], [full, db], PushCache, rootOf);
    var ops := [PushCache, PushAnchor(tree), SetBlock(block), PushCache];
    assert [PushCache, PushAnchor(tree), SetBlock(block)] + [PushCache] == ops;
    before := FlatStep([full, db], PushCache, rootOf);
    assert before[1..] == [full, db];
    OneMore([db], ops, before, FlushTop, rootOf);
    assert ops + [FlushTop] == [PushCache, PushAnchor(tree), SetBlock(block), PushCache, FlushTop];
    after := FlatStep(before, FlushTop, rootOf);
    var below := after[1..];
    assert below[1..] == [db] && BestBlock([db]) == db.hashBlock && BestAnchor([db]) == db.hashAnchor;
    assert BestBlock(below) == db.hashBlock && BestAnchor(below) == db.hashAnchor;
  }

  /** The empty root, once popped, is back after a flush into the database. */
  lemma EmptyRootReturns(db: Layer, rt: Hash, block: Hash, rootOf: Tree -> Hash) returns (before: seq<Layer>,
      after: seq<Layer>)
    requires db.hashAnchor == rootOf(EMPTY_TREE) && Get(db.anchors, rootOf(EMPTY_TREE)) == Some(EMPTY_TREE)
    requires rt != rootOf(EMPTY_TREE) && block != NULL_HASH
    ensures Leads([db], [PushCache, PopAnchor(rt), SetBlock(block)], before, rootOf)
    ensures Leads([db], [PushCache, PopAnchor(rt), SetBlock(block), FlushTop], after, rootOf)
    ensures |before| == 2 && rootOf(EMPTY_TREE) !in before[0].anchors
    ensures |after| == 2 && rootOf(EMPTY_TREE) in after[0].anchors
  {
    hide Leads, AskBestAnchor, BestAnchor;
    var e := rootOf(EMPTY_TREE);
    var v1 := [db.(hashBlock := NULL_HASH, hashAnchor := NULL_HASH), db];
    var top := v1[0].(anchors := db.anchors - {e}, hashAnchor := rt);
    FirstCache(db, rootOf);
    PopOnTwo(v1[0], db, rt, rootOf);
    OneMore([db], [PushCache], v1, PopAnchor(rt), rootOf);
    assert [PushCache] + [PopAnchor(rt)] == [PushCache, PopAnchor(rt)];
    OneMore([db], [PushCache, PopAnchor(rt)], [top, db], SetBlock(block), rootOf);
    var ops := [PushCache, PopAnchor(rt), SetBlock(block)];
    assert [PushCache, PopAnchor(rt)] + [SetBlock(block)] == ops;
    before := FlatStep([top, db], SetBlock(block), rootOf);
    OneMore([db], ops, before, FlushTop, rootOf);
    assert ops + [FlushTop] == [PushCache, PopAnchor(rt), SetBlock(block), FlushTop];
    after := FlatStep(before, FlushTop, rootOf);
  }

  /** A root pushed a second time is gone after one pop, although it was entered before. */
  lemma SecondPushLost(db: Layer, one: Tree, two: Tree, rootOf: Tree -> Hash) returns (before: seq<Layer>,
      after: seq<Layer>)
    requires rootOf(one) != db.hashAnchor && rootOf(one) != NULL_HASH && rootOf(two) != rootOf(one) &&
        rootOf(two) != NULL_HASH
    ensures Leads([db], [PushCache, PushAnchor(one), PushAnchor(two)], before, rootOf)
    ensures Leads([db], [PushCache, PushAnchor(one), PushAnchor(two), PushAnchor(one), PopAnchor(rootOf(two))], after,
        rootOf)
    ensures |before| == 2 && BestAnchor(before) == rootOf(two) && rootOf(one) in before[0].anchors
    ensures |after| == 2 && BestAnchor(after) == rootOf(two) && rootOf(one) !in after[0].anchors
  {
    hide Leads, AskBestAnchor;
    var v1 := [db.(hashBlock := NULL_HASH, hashAnchor := NULL_HASH), db];
    var r1, r2 := rootOf(one), rootOf(two);
    var t1 := v1[0].(anchors := db.anchors[r1 := one], hashAnchor := r1);
    var t2 := t1.(anchors := t1.anchors[r2 := two], hashAnchor := r2);
    var t3 := t2.(anchors := t2.anchors[r1 := one], hashAnchor := r1);
    FirstCache(db, rootOf);
    PushOnTwo(v1[0], db, one, rootOf);
    OneMore([db], [PushCache], v1, PushAnchor(one), rootOf);
    assert [PushCache] + [PushAnchor(one)] == [PushCache, PushAnchor(one)];
    PushOnTwo(t1, db, two, rootOf);
    OneMore([db], [PushCache, PushAnchor(one)], [t1, db], PushAnchor(two), rootOf);
    assert [PushCache, PushAnchor(one)] + [PushAnchor(two)] == [PushCache, PushAnchor(one), PushAnchor(two)];
    before := [t2, db];
    PushOnTwo(t2, db, one, rootOf);
    OneMore([db], [PushCache, PushAnchor(one), PushAnchor(two)], before, PushAnchor(one), rootOf);
    var ops := [PushCache, PushAnchor(one), PushAnchor(two), PushAnchor(one)];
    assert [PushCache, PushAnchor(one), PushAnchor(two)] + [PushAnchor(one)] == ops;
    PopOnTwo(t3, db, r2, rootOf);
    OneMore([db], ops, [t3, db], PopAnchor(r2), rootOf);
    assert ops + [PopAnchor(r2)] == [PushCache, PushAnchor(one), PushAnchor(two), PushAnchor(one),
        PopAnchor(rootOf(two))];
    after := FlatStep([t3, db], PopAnchor(r2), rootOf);
  }
}
