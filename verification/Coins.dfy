/**
 The coin database and the write-back caches stacked on it (src/coins.cpp over src/txdb.cpp). The
 stack may have any depth; a cache's base is the database or another cache.
 */
module Coins {
  import opened Wrappers
  import opened CoinsModel

  ghost function Elements(s: seq<Hash>): set<Hash> { set n | n in s }

  lemma ElementsStep(s: seq<Hash>, i: nat)
    requires i < |s|
    ensures Elements(s[..i + 1]) == Elements(s[..i]) + {s[i]}
  {
    assert s[..i + 1] == s[..i] + [s[i]];
  }

  /** What a cache can sit on. */
  datatype View = Db(db: CoinsDb) | Cached(cache: Cache) {

    ghost function Depth(): nat { if Db? then 0 else cache.depth }

    ghost function Footprint(): set<object> { if Db? then {db} else cache.footprint }

    function RootOf(): Tree -> Hash { if Db? then db.rootOf else cache.rootOf }

    /** The shape of the stack, which never changes: a chain of distinct objects. */
    ghost predicate Wf()
      decreases Depth()
    {
      match this
      case Db(db) => true
      case Cached(c) =>
        && c.depth == c.base.Depth() + 1 && c.rootOf == c.base.RootOf()
        && c.footprint == c.base.Footprint() + {c} && c !in c.base.Footprint()
        && c.base.Wf()
    }

    /** What each level shows, from this one down to the database. */
    ghost function Views(): (views: seq<Layer>)
      requires Wf()
      reads Footprint()
      decreases Depth()
      ensures |views| == Depth() + 1
    {
      match this
      case Db(db) => [db.Show()]
      case Cached(c) => [c.Show(c.base.Views()[0])] + c.base.Views()
    }

    /** Every cache entry of the stack is consistent with what the level below shows. */
    ghost predicate Valid()
      requires Wf()
      reads Footprint()
      decreases Depth()
    {
      match this
      case Db(db) => db.Valid()
      case Cached(c) => c.base.Valid() && c.Consistent(c.base.Views()[0])
    }

    lemma ShownRooted()
      requires Wf() && Valid()
      ensures Rooted(RootOf(), Views()[0].anchors)
      decreases Depth()
    {
      if Cached? {
        cache.base.ShownRooted();
        OverlayRooted(cache.rootOf, cache.anchors, cache.base.Views()[0].anchors);
      }
    }

    /** May return a spent coin when a cache remembers that the coin is spent. */
    method GetCoin(o: OutPoint) returns (r: Option<Coin>)
      requires Wf() && Valid()
      modifies Footprint()
      decreases Depth(), 2
      ensures Valid() && Views() == old(Views())
      ensures Get(Views()[0].coins, o) == if r.Some? && !r.value.IsSpent() then r else None
    {
      match this {
        case Db(db) => r := Get(db.coins, o);
        case Cached(c) => r := c.GetCoin(o);
      }
    }

    method GetSaplingAnchorAt(rt: Hash) returns (r: Option<Tree>)
      requires Wf() && Valid()
      modifies Footprint()
      decreases Depth(), 2
      ensures Valid() && Views() == old(Views()) && r == Get(Views()[0].anchors, rt)
    {
      match this {
        case Db(db) =>
          if rt == db.rootOf(EMPTY_TREE) {
            r := Some(EMPTY_TREE);
          } else {
            r := Get(db.anchors, rt);
          }
        case Cached(c) => r := c.GetSaplingAnchorAt(rt);
      }
    }

    method GetNullifier(n: Hash) returns (r: bool)
      requires Wf() && Valid()
      modifies Footprint()
      decreases Depth(), 2
      ensures Valid() && Views() == old(Views()) && r == (n in Views()[0].nullifiers)
    {
      match this {
        case Db(db) => r := n in db.nullifiers;
        case Cached(c) => r := c.GetNullifier(n);
      }
    }

    method GetBestBlock() returns (r: Hash)
      requires Wf() && Valid()
      modifies Footprint()
      decreases Depth(), 2
      ensures Valid() && r == BestBlock(old(Views())) && Views() == AskBestBlock(old(Views()))
    {
      match this {
        case Db(db) => r := db.hashBlock;
        case Cached(c) => r := c.GetBestBlock();
      }
    }

    method GetBestAnchor() returns (r: Hash)
      requires Wf() && Valid()
      modifies Footprint()
      decreases Depth(), 2
      ensures Valid() && r == BestAnchor(old(Views())) && Views() == AskBestAnchor(old(Views()))
    {
      match this {
        case Db(db) => r := if db.hashAnchor == NULL_HASH then db.rootOf(EMPTY_TREE) else db.hashAnchor;
        case Cached(c) => r := c.GetBestAnchor();
      }
    }
  }

  /** The database at the bottom. It stores unspent coins only and always knows the empty tree. */
  class CoinsDb {
    const rootOf: Tree -> Hash
    var coins: map<OutPoint, Coin>
    var anchors: map<Hash, Tree>
    var nullifiers: set<Hash>
    var hashBlock: Hash
    var hashAnchor: Hash

    constructor (rootOf: Tree -> Hash)
      ensures this.rootOf == rootOf && Valid()
      ensures Show() == Layer(map[], map[rootOf(EMPTY_TREE) := EMPTY_TREE], {}, NULL_HASH, rootOf(EMPTY_TREE))
    {
      this.rootOf := rootOf;
      coins, anchors, nullifiers, hashBlock, hashAnchor := map[], map[], {}, NULL_HASH, NULL_HASH;
    }

    ghost function Show(): Layer
      reads this
    {
      Layer(coins, anchors[rootOf(EMPTY_TREE) := EMPTY_TREE], nullifiers, hashBlock,
            if hashAnchor == NULL_HASH then rootOf(EMPTY_TREE) else hashAnchor)
    }

    ghost predicate Valid()
      reads this
    {
      && (forall o :: o in coins ==> !coins[o].IsSpent())
      && Rooted(rootOf, anchors)
    }

    method BatchWrite(mapCoins: CoinMap, hashBlockIn: Hash, hashAnchorIn: Hash, mapAnchors: AnchorMap,
        mapNullifiers: NullifierMap)
      requires hashBlockIn != NULL_HASH
      modifies this
      ensures forall o :: Get(coins, o) == if o in mapCoins && mapCoins[o].isDirty
                then (if mapCoins[o].coin.IsSpent() then None else Some(mapCoins[o].coin))
                else Get(old(coins), o)
      ensures forall r :: Get(anchors, r) == if r in mapAnchors && mapAnchors[r].isDirty &&
          (mapAnchors[r].entered ==> r != rootOf(EMPTY_TREE))
                then (if mapAnchors[r].entered then Some(mapAnchors[r].tree) else None)
                else Get(old(anchors), r)
      ensures forall n :: n in nullifiers <==>
                if n in mapNullifiers && mapNullifiers[n].isDirty then mapNullifiers[n].entered
                else n in old(nullifiers)
      ensures hashBlock == hashBlockIn
      ensures hashAnchor == if hashAnchorIn == NULL_HASH then old(hashAnchor) else hashAnchorIn
    {
      WriteCoins(mapCoins);
      WriteAnchors(mapAnchors);
      WriteNullifiers(mapNullifiers);
      if hashAnchorIn != NULL_HASH {
        hashAnchor := hashAnchorIn;
      }
      hashBlock := hashBlockIn;
    }

    method WriteCoins(mapCoins: CoinMap)
      modifies this`coins
      ensures forall o :: Get(coins, o) == if o in mapCoins && mapCoins[o].isDirty
                then (if mapCoins[o].coin.IsSpent() then None else Some(mapCoins[o].coin))
                else Get(old(coins), o)
    {
      var todo := mapCoins.Keys;
      while todo != {}
        invariant todo <= mapCoins.Keys
        invariant forall o :: Get(coins, o) == if o in mapCoins && o !in todo && mapCoins[o].isDirty
                    then (if mapCoins[o].coin.IsSpent() then None else Some(mapCoins[o].coin))
                    else Get(old(coins), o)
        decreases todo
      {
        var o :| o in todo;
        if mapCoins[o].isDirty {
          if mapCoins[o].coin.IsSpent() {
            coins := coins - {o};
          } else {
            coins := coins[o := mapCoins[o].coin];
          }
        }
        todo := todo - {o};
      }
    }

    method WriteAnchors(mapAnchors: AnchorMap)
      modifies this`anchors
      ensures forall r :: Get(anchors, r) == if r in mapAnchors && mapAnchors[r].isDirty &&
          (mapAnchors[r].entered ==> r != rootOf(EMPTY_TREE))
                then (if mapAnchors[r].entered then Some(mapAnchors[r].tree) else None)
                else Get(old(anchors), r)
    {
      var todo := mapAnchors.Keys;
      while todo != {}
        invariant todo <= mapAnchors.Keys
        invariant forall r ::
          Get(anchors, r) == if r in mapAnchors && r !in todo && mapAnchors[r].isDirty &&
              (mapAnchors[r].entered ==> r != rootOf(EMPTY_TREE))
                    then (if mapAnchors[r].entered then Some(mapAnchors[r].tree) else None)
                    else Get(old(anchors), r)
        decreases todo
      {
        var r :| r in todo;
        if mapAnchors[r].isDirty {
          if !mapAnchors[r].entered {
            anchors := anchors - {r};
          } else if r != rootOf(EMPTY_TREE) {
            anchors := anchors[r := mapAnchors[r].tree];
          }
        }
        todo := todo - {r};
      }
    }

    method WriteNullifiers(mapNullifiers: NullifierMap)
      modifies this`nullifiers
      ensures forall n :: n in nullifiers <==>
                if n in mapNullifiers && mapNullifiers[n].isDirty then mapNullifiers[n].entered
                else n in old(nullifiers)
    {
      var todo := mapNullifiers.Keys;
      while todo != {}
        invariant todo <= mapNullifiers.Keys
        invariant forall n :: n in nullifiers <==>
                    if n in mapNullifiers && n !in todo && mapNullifiers[n].isDirty then mapNullifiers[n].entered
                    else n in old(nullifiers)
        decreases todo
      {
        var n :| n in todo;
        if mapNullifiers[n].isDirty {
          if mapNullifiers[n].entered {
            nullifiers := nullifiers + {n};
          } else {
            nullifiers := nullifiers - {n};
          }
        }
        todo := todo - {n};
      }
    }
  }

  class Cache {
    const base: View
    const rootOf: Tree -> Hash
    ghost const depth: nat
    ghost const footprint: set<object>

    var coins: CoinMap
    var anchors: AnchorMap
    var nullifiers: NullifierMap
    var hashBlock: Hash
    var hashAnchor: Hash

    ghost function Show(b: Layer): Layer
      reads this
    {
      Layer(CoinOverlay(coins, b.coins), AnchorOverlay(anchors, b.anchors),
            NullifierOverlay(nullifiers, b.nullifiers), hashBlock, hashAnchor)
    }

    ghost predicate Consistent(b: Layer)
      reads this
    {
      CoinsOk(coins, b.coins) && AnchorsOk(rootOf, anchors, b.anchors) && NullifiersOk(nullifiers, b.nullifiers)
    }

    ghost function Self(): View { Cached(this) }

    constructor (base: View)
      requires base.Wf() && base.Valid()
      ensures this.base == base && Self().Wf() && Self().Valid()
      ensures Self().Footprint() == base.Footprint() + {this}
      ensures Self().Views() == [base.Views()[0].(hashBlock := NULL_HASH, hashAnchor := NULL_HASH)] + base.Views()
    {
      this.base := base;
      rootOf := base.RootOf();
      depth := base.Depth() + 1;
      footprint := base.Footprint() + {this};
      coins, anchors, nullifiers, hashBlock, hashAnchor := map[], map[], map[], NULL_HASH, NULL_HASH;
      new;
      EmptyCache(rootOf, base.Views()[0]);
    }

    // ----- coins -----

    method FetchCoin(o: OutPoint) returns (found: bool)
      requires Self().Wf() && Self().Valid()
      modifies footprint
      decreases depth, 0
      ensures Self().Valid() && Self().Views() == old(Self().Views())
      ensures found == (o in coins)
      ensures Get(Self().Views()[0].coins, o) == if found && !coins[o].coin.IsSpent() then Some(coins[o].coin) else None
    {
      if o in coins {
        return true;
      }
      var tmp := base.GetCoin(o);
      if tmp == None {
        return false;
      }
      Emplace(o, tmp.value);
      return true;
    }

    /** Remember what the base said; a spent coin there makes ours FRESH. */
    method Emplace(o: OutPoint, coin: Coin)
      requires Self().Wf() && Self().Valid() && o !in coins
      requires Get(base.Views()[0].coins, o) == if coin.IsSpent() then None else Some(coin)
      modifies this`coins
      ensures Self().Valid() && Self().Views() == old(Self().Views())
      ensures o in coins && coins[o].coin == coin
    {
      hide CoinsOk, AnchorsOk, NullifiersOk, CoinOverlay, AnchorOverlay, NullifierOverlay;
      FetchedCoin(coins, base.Views()[0].coins, o, coin);
      var entry := CoinEntry(coin, false, false);
      if entry.coin.IsSpent() {
        entry := entry.(isFresh := true);
      }
      coins := coins[o := entry];
    }

    method GetCoin(o: OutPoint) returns (r: Option<Coin>)
      requires Self().Wf() && Self().Valid()
      modifies footprint
      decreases depth, 1
      ensures Self().Valid() && Self().Views() == old(Self().Views())
      ensures Get(Self().Views()[0].coins, o) == if r.Some? && !r.value.IsSpent() then r else None
    {
      var found := FetchCoin(o);
      r := if found then Some(coins[o].coin) else None;
    }

    method HaveCoin(o: OutPoint) returns (have: bool)
      requires Self().Wf() && Self().Valid()
      modifies footprint
      ensures Self().Valid() && Self().Views() == old(Self().Views())
      ensures have == (o in Self().Views()[0].coins)
    {
      var found := FetchCoin(o);
      have := found && !coins[o].coin.IsSpent();
    }

    /** The contract of AddCoin: an overwrite is announced, or there is nothing to overwrite. It is
        exactly what keeps the exception away and the stack consistent. */
    method AddCoin(o: OutPoint, coin: Coin, possibleOverwrite: bool) returns (threw: bool)
      requires Self().Wf() && Self().Valid() && !coin.IsSpent()
      modifies this`coins
      ensures threw ==> coins == old(coins)
      ensures threw <==> Storable(coin) && !possibleOverwrite && o in old(coins) && !old(coins[o]).coin.IsSpent()
      ensures (!threw && Self().Valid()) <==>
          (!Storable(coin) || possibleOverwrite || o !in old(Self().Views()[0].coins))
      ensures !threw && Self().Valid() ==>
                Self().Views() == [AddCoinFlat(old(Self().Views()[0]), o, coin)] + old(Self().Views())[1..]
    {
      hide AnchorsOk, NullifiersOk, AnchorOverlay, NullifierOverlay;
      if coin.out.script.unspendable { return false; }
      if coin.out.script.zerocoinMint { return false; }
      var entry := CachedOr(coins, o);
      var isFresh := false;
      if !possibleOverwrite {
        if !entry.coin.IsSpent() {
          return true;
        }
        isFresh := !entry.isDirty;
      }
      StoredCoin(coins, base.Views()[0].coins, o, coin, possibleOverwrite);
      coins := coins[o := CoinEntry(coin, true, entry.isFresh || isFresh)];
      return false;
    }

    /** Returns the entry moved out, if the cache had or fetched one. */
    method SpendCoin(o: OutPoint) returns (moved: Option<Coin>)
      requires Self().Wf() && Self().Valid()
      modifies footprint
      ensures Self().Valid()
      ensures Self().Views() == [SpendCoinFlat(old(Self().Views()[0]), o)] + old(Self().Views())[1..]
      ensures Get(old(Self().Views())[0].coins, o) == if moved.Some? && !moved.value.IsSpent() then moved else None
    {
      var found := FetchCoin(o);
      if !found {
        assert Self().Views()[0].coins - {o} == Self().Views()[0].coins;
        return None;
      }
      moved := Some(coins[o].coin);
      EraseOrClear(o);
    }

    /** A FRESH entry can be forgotten; any other must tell the base that the coin is spent. */
    method EraseOrClear(o: OutPoint)
      requires Self().Wf() && Self().Valid() && o in coins
      modifies this`coins
      ensures Self().Valid()
      ensures Self().Views() == [SpendCoinFlat(old(Self().Views()[0]), o)] + old(Self().Views())[1..]
    {
      hide CoinsOk, AnchorsOk, NullifiersOk, CoinOverlay, AnchorOverlay, NullifierOverlay;
      SpentCoin(coins, base.Views()[0].coins, o);
      ghost var shown := CoinOverlay(coins, base.Views()[0].coins);
      if coins[o].isFresh {
        coins := coins - {o};
      } else {
        coins := coins[o := CoinEntry(EMPTY_COIN, true, false)];
      }
      assert base.Views() == old(base.Views());
      assert Self().Views()[0].coins == shown - {o};
    }

    method Uncache(o: OutPoint)
      requires Self().Wf() && Self().Valid()
      modifies this`coins
      ensures Self().Valid() && Self().Views() == old(Self().Views())
      ensures o in coins ==> coins[o].isDirty || coins[o].isFresh
    {
      hide CoinsOk, AnchorsOk, NullifiersOk, CoinOverlay, AnchorOverlay, NullifierOverlay;
      if o in coins && !coins[o].isDirty && !coins[o].isFresh {
        UncachedCoin(coins, base.Views()[0].coins, o);
        coins := coins - {o};
      }
    }

    /** Add all outputs of a transaction. With `check` the cache itself finds out about overwrites, so
        no input can make it throw; without it the caller vouches that there are none. */
    method AddCoins(tx: Tx, nHeight: nat, check: bool, banned: set<OutPoint>) returns (threw: bool)
      requires Self().Wf() && Self().Valid()
      requires Addable(Self().Views()[0], tx, nHeight, check, banned)
      modifies footprint
      ensures !threw && Self().Valid()
      ensures Self().Views()
              == [AddOutputsFlat(old(Self().Views()[0]), tx, |tx.vout|, nHeight, banned)] + old(Self().Views())[1..]
      ensures OutputsAdded(old(Self().Views()[0]).coins, Self().Views()[0].coins, tx, |tx.vout|, nHeight, banned)
    {
      hide CoinsOk, AnchorsOk, NullifiersOk, CoinOverlay, AnchorOverlay, NullifierOverlay;
      ghost var was := Self().Views();
      for i := 0 to |tx.vout|
        invariant Self().Valid()
        invariant Self().Views() == [AddOutputsFlat(was[0], tx, i, nHeight, banned)] + was[1..]
      {
        var o := OutPoint(tx.txid, i);
        LaterOutputsUntouched(was[0], tx, i, nHeight, banned, i);
        if o in banned {
          var _ := SpendCoin(o);
        } else {
          var overwrite := false;
          if check {
            overwrite := HaveCoin(o);
          }
          threw := AddCoin(o, Coin(tx.vout[i], nHeight, tx.fCoinBase, tx.fCoinStake), overwrite);
          assert !threw;
        }
      }
      threw := false;
      AddOutputsShows(was[0], tx, |tx.vout|, nHeight, banned);
    }

    // ----- anchors and nullifiers -----

    method GetSaplingAnchorAt(rt: Hash) returns (r: Option<Tree>)
      requires Self().Wf() && Self().Valid()
      modifies footprint
      decreases depth, 0
      ensures Self().Valid() && Self().Views() == old(Self().Views())
      ensures r == Get(Self().Views()[0].anchors, rt) && (r.Some? ==> rt in anchors)
    {
      hide CoinsOk, AnchorsOk, NullifiersOk, CoinOverlay, AnchorOverlay, NullifierOverlay;
      AnchorShown(anchors, base.Views()[0].anchors, rt);
      if rt in anchors {
        return if anchors[rt].entered then Some(anchors[rt].tree) else None;
      }
      r := base.GetSaplingAnchorAt(rt);
      if r.Some? {
        RememberAnchor(rt, r.value);
      }
    }

    method RememberAnchor(rt: Hash, tree: Tree)
      requires Self().Wf() && Self().Valid() && rt !in anchors && Get(base.Views()[0].anchors, rt) == Some(tree)
      modifies this`anchors
      ensures Self().Valid() && Self().Views() == old(Self().Views()) && rt in anchors
    {
      hide CoinsOk, AnchorsOk, NullifiersOk, CoinOverlay, AnchorOverlay, NullifierOverlay;
      base.ShownRooted();
      FetchedAnchor(rootOf, anchors, base.Views()[0].anchors, rt);
      anchors := anchors[rt := AnchorEntry(true, tree, false)];
    }

    method GetNullifier(n: Hash) returns (r: bool)
      requires Self().Wf() && Self().Valid()
      modifies footprint
      decreases depth, 0
      ensures Self().Valid() && Self().Views() == old(Self().Views())
      ensures r == (n in Self().Views()[0].nullifiers)
    {
      if n in nullifiers {
        return nullifiers[n].entered;
      }
      r := base.GetNullifier(n);
      RememberNullifier(n, r);
    }

    method RememberNullifier(n: Hash, entered: bool)
      requires Self().Wf() && Self().Valid() && n !in nullifiers && entered == (n in base.Views()[0].nullifiers)
      modifies this`nullifiers
      ensures Self().Valid() && Self().Views() == old(Self().Views())
      ensures entered == (n in Self().Views()[0].nullifiers)
    {
      hide CoinsOk, AnchorsOk, CoinOverlay, AnchorOverlay;
      ghost var b := base.Views()[0].nullifiers;
      StoredNullifier(nullifiers, b, n, NullifierEntry(entered, false));
      ghost var shown := NullifierOverlay(nullifiers, b);
      assert entered ==> shown + {n} == shown;
      assert !entered ==> shown - {n} == shown;
      nullifiers := nullifiers[n := NullifierEntry(entered, false)];
    }

    method GetBestBlock() returns (r: Hash)
      requires Self().Wf() && Self().Valid()
      modifies footprint
      decreases depth, 0
      ensures Self().Valid() && r == BestBlock(old(Self().Views())) &&
          Self().Views() == AskBestBlock(old(Self().Views()))
    {
      hide CoinsOk, AnchorsOk, NullifiersOk, CoinOverlay, AnchorOverlay, NullifierOverlay;
      ghost var views := Self().Views();
      assert views[1..] == base.Views();
      if hashBlock == NULL_HASH {
        var h := base.GetBestBlock();
        AskBestBlockSame(views[1..]);
        hashBlock := h;
      }
      return hashBlock;
    }

    method SetBestBlock(h: Hash)
      requires Self().Wf() && Self().Valid()
      modifies this`hashBlock
      ensures Self().Valid()
      ensures Self().Views() == [old(Self().Views())[0].(hashBlock := h)] + old(Self().Views())[1..]
    {
      hide CoinsOk, AnchorsOk, NullifiersOk, CoinOverlay, AnchorOverlay, NullifierOverlay;
      hashBlock := h;
    }

    method GetBestAnchor() returns (r: Hash)
      requires Self().Wf() && Self().Valid()
      modifies footprint
      decreases depth, 0
      ensures Self().Valid() && r == BestAnchor(old(Self().Views())) &&
          Self().Views() == AskBestAnchor(old(Self().Views()))
    {
      hide CoinsOk, AnchorsOk, NullifiersOk, CoinOverlay, AnchorOverlay, NullifierOverlay;
      ghost var views := Self().Views();
      assert views[1..] == base.Views();
      if hashAnchor == NULL_HASH {
        var h := base.GetBestAnchor();
        AskBestAnchorSame(views[1..]);
        hashAnchor := h;
      }
      return hashAnchor;
    }

    method PushAnchor(tree: Tree)
      requires Self().Wf() && Self().Valid()
      modifies footprint
      ensures Self().Valid()
      ensures var views := AskBestAnchor(old(Self().Views()));
              Self().Views() == [PushAnchorFlat(views[0], BestAnchor(views), rootOf(tree), tree)] + views[1..]
    {
      hide CoinsOk, AnchorsOk, NullifiersOk, CoinOverlay, AnchorOverlay, NullifierOverlay;
      var newrt := rootOf(tree);
      AskBestAnchorSame(Self().Views());
      var currentRoot := GetBestAnchor();
      if currentRoot != newrt {
        StoredAnchor(rootOf, anchors, base.Views()[0].anchors, newrt, AnchorEntry(true, tree, true));
        anchors := anchors[newrt := AnchorEntry(true, tree, true)];
        hashAnchor := newrt;
      }
    }

    /** The source asserts that the anchor to remove is visible. */
    method PopAnchor(newrt: Hash)
      requires Self().Wf() && Self().Valid()
      requires BestAnchor(Self().Views()) == newrt || BestAnchor(Self().Views()) in Self().Views()[0].anchors
      modifies footprint
      ensures Self().Valid()
      ensures var views := AskBestAnchor(old(Self().Views()));
              Self().Views() == [PopAnchorFlat(views[0], BestAnchor(views), newrt)] + views[1..]
    {
      hide CoinsOk, AnchorsOk, NullifiersOk, CoinOverlay, AnchorOverlay, NullifierOverlay;
      AskBestAnchorSame(Self().Views());
      var currentRoot := GetBestAnchor();
      if currentRoot != newrt {
        var tree := GetSaplingAnchorAt(currentRoot);
        assert tree.Some?;
        RemoveAnchor(currentRoot, newrt);
      }
    }

    method RemoveAnchor(root: Hash, newrt: Hash)
      requires Self().Wf() && Self().Valid() && root in anchors && root != newrt
      modifies this`anchors, this`hashAnchor
      ensures Self().Valid()
      ensures Self().Views() == [PopAnchorFlat(old(Self().Views()[0]), root, newrt)] + old(Self().Views())[1..]
    {
      hide CoinsOk, AnchorsOk, NullifiersOk, CoinOverlay, AnchorOverlay, NullifierOverlay;
      var entry := anchors[root].(entered := false, isDirty := true);
      RemovedAnchor(rootOf, anchors, base.Views()[0].anchors, root);
      anchors := anchors[root := entry];
      hashAnchor := newrt;
    }

    method SetNullifiers(nfs: seq<Hash>, spent: bool)
      requires Self().Wf() && Self().Valid()
      modifies this`nullifiers
      ensures Self().Valid()
      ensures Self().Views() == [SetNullifiersFlat(old(Self().Views()[0]), nfs, spent)] + old(Self().Views())[1..]
    {
      hide CoinsOk, AnchorsOk, NullifiersOk, CoinOverlay, AnchorOverlay, NullifierOverlay;
      ghost var b := base.Views()[0].nullifiers;
      ghost var before := NullifierOverlay(nullifiers, b);
      for i := 0 to |nfs|
        invariant NullifiersOk(nullifiers, b) && base.Views() == old(base.Views()) && base.Valid()
        invariant NullifierOverlay(nullifiers, b) == if spent then before + Elements(nfs[..i])
                                                     else before - Elements(nfs[..i])
      {
        ElementsStep(nfs, i);
        StoredNullifier(nullifiers, b, nfs[i], NullifierEntry(spent, true));
        nullifiers := nullifiers[nfs[i] := NullifierEntry(spent, true)];
      }
      assert nfs[..|nfs|] == nfs;
    }

    // ----- flushing -----

    method BatchWrite(mapCoins: CoinMap, hashBlockIn: Hash, hashAnchorIn: Hash, mapAnchors: AnchorMap,
        mapNullifiers: NullifierMap)
      returns (threw: bool)
      modifies this
      ensures threw <==> exists o :: o in mapCoins && FreshMisapplied(mapCoins[o], Get(old(coins), o))
      ensures !threw ==> Merged(coins, old(coins), mapCoins, MergeCoin)
      ensures !threw ==> Merged(anchors, old(anchors), mapAnchors, MergeAnchor)
      ensures !threw ==> Merged(nullifiers, old(nullifiers), mapNullifiers, MergeNullifier)
      ensures !threw ==> hashBlock == hashBlockIn && hashAnchor == hashAnchorIn
    {
      threw := BatchWriteCoins(mapCoins);
      if threw { return; }
      BatchWriteAnchors(mapAnchors);
      BatchWriteNullifiers(mapNullifiers);
      hashAnchor := hashAnchorIn;
      hashBlock := hashBlockIn;
    }

    method BatchWriteCoins(mapCoins: CoinMap) returns (threw: bool)
      modifies this`coins
      ensures threw <==> exists o :: o in mapCoins && FreshMisapplied(mapCoins[o], Get(old(coins), o))
      ensures !threw ==> Merged(coins, old(coins), mapCoins, MergeCoin)
    {
      ghost var start := coins;
      var todo := mapCoins.Keys;
      while todo != {}
        invariant todo <= mapCoins.Keys
        invariant forall o :: Get(coins, o) == if o in mapCoins &&
            o !in todo then MergeCoin(mapCoins[o], Get(start, o)) else Get(start, o)
        invariant forall o :: o in mapCoins && o !in todo ==> !FreshMisapplied(mapCoins[o], Get(start, o))
        decreases todo
      {
        var o :| o in todo;
        assert Get(coins, o) == Get(start, o);
        todo := todo - {o};
        var child := mapCoins[o];
        if !child.isDirty { continue; }
        if o !in coins {
          if !(child.isFresh && child.coin.IsSpent()) {
            coins := coins[o := CoinEntry(child.coin, true, child.isFresh)];
          }
        } else {
          if child.isFresh && !coins[o].coin.IsSpent() {
            assert FreshMisapplied(mapCoins[o], Get(start, o));
            return true;
          }
          if coins[o].isFresh && child.coin.IsSpent() {
            coins := coins - {o};
          } else {
            coins := coins[o := CoinEntry(child.coin, true, coins[o].isFresh)];
          }
        }
      }
      return false;
    }

    method BatchWriteAnchors(mapAnchors: AnchorMap)
      modifies this`anchors
      ensures Merged(anchors, old(anchors), mapAnchors, MergeAnchor)
    {
      ghost var start := anchors;
      var todo := mapAnchors.Keys;
      while todo != {}
        invariant todo <= mapAnchors.Keys
        invariant forall r :: Get(anchors, r) == if r in mapAnchors &&
            r !in todo then MergeAnchor(mapAnchors[r], Get(start, r)) else Get(start, r)
        decreases todo
      {
        var r :| r in todo;
        assert Get(anchors, r) == Get(start, r);
        var child := mapAnchors[r];
        if child.isDirty {
          if r !in anchors {
            anchors := anchors[r := AnchorEntry(child.entered, child.tree, true)];
          } else if anchors[r].entered != child.entered {
            anchors := anchors[r := anchors[r].(entered := child.entered, isDirty := true)];
          }
        }
        todo := todo - {r};
      }
    }

    method BatchWriteNullifiers(mapNullifiers: NullifierMap)
      modifies this`nullifiers
      ensures Merged(nullifiers, old(nullifiers), mapNullifiers, MergeNullifier)
    {
      ghost var start := nullifiers;
      var todo := mapNullifiers.Keys;
      while todo != {}
        invariant todo <= mapNullifiers.Keys
        invariant forall n :: Get(nullifiers, n) == if n in mapNullifiers &&
            n !in todo then MergeNullifier(mapNullifiers[n], Get(start, n)) else Get(start, n)
        decreases todo
      {
        var n :| n in todo;
        assert Get(nullifiers, n) == Get(start, n);
        var child := mapNullifiers[n];
        if child.isDirty {
          if n !in nullifiers {
            nullifiers := nullifiers[n := NullifierEntry(child.entered, true)];
          } else if nullifiers[n].entered != child.entered {
            nullifiers := nullifiers[n := NullifierEntry(child.entered, true)];
          }
        }
        todo := todo - {n};
      }
    }

    /** Hand every modification to the base. The exception of BatchWrite is out of reach, the base
        then shows what this cache showed, and the database insists on a best block. */
    method Flush() returns (threw: bool)
      requires Self().Wf() && Self().Valid() && Injective(rootOf) && (base.Db? ==> hashBlock != NULL_HASH)
      modifies footprint
      ensures !threw && Self().Valid() && coins == map[] && anchors == map[] && nullifiers == map[]
      ensures Self().Views() == FlushFlat(old(Self().Views()), rootOf(EMPTY_TREE))
    {
      hide CoinsOk, AnchorsOk, NullifiersOk, CoinOverlay, AnchorOverlay, NullifierOverlay, FlushFlat, FlushedInto;
      ghost var views := Self().Views();
      threw := HandDown();
      Forget();
      FlushFlatIs(views, rootOf(EMPTY_TREE));
    }

    /** BatchWrite of the base, whichever that is. */
    method HandDown() returns (threw: bool)
      requires Self().Wf() && Self().Valid() && Injective(rootOf) && (base.Db? ==> hashBlock != NULL_HASH)
      modifies base.Footprint()
      ensures !threw && base.Valid() && |old(Self().Views())| >= 2
      ensures base.Views() == [FlushedInto(old(Self().Views())[0], old(Self().Views())[1], base.Db?,
          rootOf(EMPTY_TREE))] +
          old(Self().Views())[2..]
    {
      hide CoinsOk, AnchorsOk, NullifiersOk, CoinOverlay, AnchorOverlay, NullifierOverlay;
      match base {
        case Db(db) =>
          threw := false;
          FlushToDb(db);
        case Cached(parent) =>
          threw := FlushToCache(parent);
      }
    }

    method Forget()
      requires Self().Wf() && base.Valid()
      modifies this`coins, this`anchors, this`nullifiers
      ensures Self().Valid() && coins == map[] && anchors == map[] && nullifiers == map[]
      ensures Self().Views() == [base.Views()[0].(hashBlock := hashBlock, hashAnchor := hashAnchor)] + base.Views()
      ensures base.Views() == old(base.Views())
    {
      hide CoinsOk, AnchorsOk, NullifiersOk, CoinOverlay, AnchorOverlay, NullifierOverlay;
      EmptyCache(rootOf, base.Views()[0]);
      coins := map[];
      anchors := map[];
      nullifiers := map[];
      assert base.Views() == old(base.Views());
    }

    method FlushToCache(parent: Cache) returns (threw: bool)
      requires Self().Wf() && Self().Valid() && base == Cached(parent) && Injective(rootOf)
      modifies parent
      ensures !threw && base.Valid()
      ensures base.Views() == [old(Self().Views())[0]] + old(Self().Views())[2..]
    {
      hide CoinsOk, AnchorsOk, NullifiersOk, CoinOverlay, AnchorOverlay, NullifierOverlay;
      ghost var b := parent.base.Views()[0];
      ghost var c, a, n := parent.coins, parent.anchors, parent.nullifiers;
      forall o | o in coins ensures !FreshMisapplied(coins[o], Get(c, o)) {
        NoFreshMisapplied(coins, c, b.coins, o);
      }
      threw := parent.BatchWrite(coins, hashBlock, hashAnchor, anchors, nullifiers);
      FlushCoins(coins, c, parent.coins, b.coins);
      FlushAnchors(rootOf, anchors, a, parent.anchors, b.anchors);
      FlushNullifiers(nullifiers, n, parent.nullifiers, b.nullifiers);
      assert base.Views() == [parent.Show(b)] + parent.base.Views();
    }

    method FlushToDb(db: CoinsDb)
      requires Self().Wf() && Self().Valid() && base == Db(db) && hashBlock != NULL_HASH
      modifies db
      ensures base.Valid()
      ensures base.Views() == [FlushedInto(old(Self().Views())[0], old(Self().Views())[1], true, rootOf(EMPTY_TREE))]
    {
      ghost var b := db.Show();
      ghost var top := Show(b);
      db.BatchWrite(coins, hashBlock, hashAnchor, anchors, nullifiers);
      forall o ensures Get(db.coins, o) == Get(top.coins, o) {
        if o in coins { assert CoinEntryOk(coins[o], Get(b.coins, o)); }
      }
      MapsEqual(db.coins, top.coins);
      var stored, shown := db.Show().anchors, top.anchors[rootOf(EMPTY_TREE) := EMPTY_TREE];
      forall r ensures Get(stored, r) == Get(shown, r) {
        if r in anchors { assert AnchorEntryOk(rootOf, r, anchors[r], Get(b.anchors, r)); }
      }
      MapsEqual(stored, shown);
      assert db.nullifiers == top.nullifiers;
      forall r | r in db.anchors ensures rootOf(db.anchors[r]) == r {
        if r in anchors { assert AnchorEntryOk(rootOf, r, anchors[r], Get(b.anchors, r)); }
        assert Get(db.anchors, r) == Some(db.anchors[r]);
      }
    }
  }

  // ----- runs -----

  predicate IsQuery(op: Op) { op.Fetch? || op.LookAnchor? || op.LookNullifier? || op.AskBlock? || op.AskAnchor? }

  method Query(c: Cache, op: Op) returns (answer: Answer)
    requires c.Self().Wf() && c.Self().Valid() && IsQuery(op) && Allowed(c.Self().Views(), op)
    modifies c.footprint
    ensures c.Self().Valid() && c.Self().Views() == FlatStep(old(c.Self().Views()), op, c.rootOf)
    ensures answer == FlatAnswer(old(c.Self().Views()), op)
  {
    hide CoinsOk, AnchorsOk, NullifiersOk, CoinOverlay, AnchorOverlay, NullifierOverlay, AskBestBlock, AskBestAnchor,
        BestBlock, BestAnchor;
    match op
    case Fetch(o) =>
      var r := c.GetCoin(o);
      answer := CoinIs(Unspent(r));
    case LookAnchor(rt) =>
      var r := c.GetSaplingAnchorAt(rt);
      answer := AnchorIs(r);
    case LookNullifier(n) =>
      var r := c.GetNullifier(n);
      answer := NullifierIs(r);
    case AskBlock =>
      var r := c.GetBestBlock();
      answer := HashIs(r);
    case AskAnchor =>
      var r := c.GetBestAnchor();
      answer := HashIs(r);
  }

  method Change(c: Cache, op: Op) returns (answer: Answer)
    requires c.Self().Wf() && c.Self().Valid() && Allowed(c.Self().Views(), op) && Injective(c.rootOf)
    requires !IsQuery(op) && !op.PushCache? && !op.PopCache?
    modifies c.footprint
    ensures c.Self().Valid() && c.Self().Views() == FlatStep(old(c.Self().Views()), op, c.rootOf)
    ensures answer == FlatAnswer(old(c.Self().Views()), op)
  {
    hide CoinsOk, AnchorsOk, NullifiersOk, CoinOverlay, AnchorOverlay, NullifierOverlay;
    hide AddCoinFlat, SpendCoinFlat, PushAnchorFlat, PopAnchorFlat, SetNullifiersFlat, FlushFlat, AddOutputsFlat,
        Addable;
    answer := Done;
    match op
    case FlushTop => var _ := c.Flush();
    case Add(o, coin, overwrite) => var _ := c.AddCoin(o, coin, overwrite);
    case AddTx(tx, nHeight, check, banned) => var _ := c.AddCoins(tx, nHeight, check, banned);
    case Spend(o) =>
      var moved := c.SpendCoin(o);
      answer := CoinIs(Unspent(moved));
    case Uncache(o) => c.Uncache(o);
    case PushAnchor(tree) => AskBestAnchorSame(c.Self().Views()); c.PushAnchor(tree);
    case PopAnchor(rt) => AskBestAnchorSame(c.Self().Views()); c.PopAnchor(rt);
    case SetNullifiers(nfs, spent) => c.SetNullifiers(nfs, spent);
    case SetBlock(h) => c.SetBestBlock(h);
  }

  method Execute(top: View, op: Op) returns (top': View, answer: Answer)
    requires top.Wf() && top.Valid() && Allowed(top.Views(), op) && Injective(top.RootOf())
    modifies top.Footprint()
    ensures top'.Wf() && top'.Valid() && top'.RootOf() == top.RootOf()
    ensures fresh(top'.Footprint() - top.Footprint())
    ensures top'.Views() == FlatStep(old(top.Views()), op, top.RootOf()) && answer == FlatAnswer(old(top.Views()), op)
  {
    hide CoinsOk, AnchorsOk, NullifiersOk, CoinOverlay, AnchorOverlay, NullifierOverlay;
    top', answer := top, Done;
    if op.PushCache? {
      var c := new Cache(top);
      return Cached(c), Done;
    }
    var c := top.cache;
    if op.PopCache? {
      top' := c.base;
    } else if IsQuery(op) {
      answer := Query(c, op);
    } else {
      answer := Change(c, op);
    }
  }

  /** Every run that respects what the source demands answers what a stack of flat maps would answer,
      and shows, at every level of the stack, exactly what that would show. */
  method Run(start: View, ops: seq<Op>) returns (top: View, answers: seq<Answer>)
    requires start.Wf() && start.Valid() && Injective(start.RootOf())
    requires AllowedRun(start.Views(), ops, start.RootOf())
    modifies start.Footprint()
    ensures top.Wf() && top.Valid() && top.Views() == FlatRun(old(start.Views()), ops, start.RootOf())
    ensures answers == FlatAnswers(old(start.Views()), ops, start.RootOf())
  {
    hide CoinsOk, AnchorsOk, NullifiersOk, CoinOverlay, AnchorOverlay, NullifierOverlay, FlatStep, Allowed, FlatAnswer;
    ghost var rootOf := start.RootOf();
    top, answers := start, [];
    for i := 0 to |ops|
      invariant top.Wf() && top.Valid() && top.RootOf() == rootOf
      invariant fresh(top.Footprint() - start.Footprint())
      invariant AllowedRun(top.Views(), ops[i..], rootOf)
      invariant FlatRun(top.Views(), ops[i..], rootOf) == FlatRun(old(start.Views()), ops, rootOf)
      invariant answers + FlatAnswers(top.Views(), ops[i..], rootOf) == FlatAnswers(old(start.Views()), ops, rootOf)
    {
      assert ops[i..][0] == ops[i] && ops[i..][1..] == ops[i + 1..];
      var answer;
      top, answer := Execute(top, ops[i]);
      answers := answers + [answer];
    }
  }
}
