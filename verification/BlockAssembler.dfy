/**
 Package selection of src/blockassembler.cpp: a greedy loop over the mempool that keeps, for every
 transaction with ancestors already in the block, its totals without those ancestors. The order of
 the fee-rate index, the comparison of scores and the minimum fee for a size are arbitrary.
 No entry is shielded.
 */
module BlockAssembler {
  import opened Wrappers
  import opened Mempool

  const MAX_BLOCK_SIGOPS_CURRENT: int := 2000000 / 50
  const RESERVED_SIZE: int := 1000
  const RESERVED_SIGOPS: int := 100

  type ModMap = map<Tx, Total>

  function Get(m: ModMap, t: Tx): Option<Total> { if t in m then Some(m[t]) else None }

  function Elements(s: seq<Tx>): set<Tx> { set t | t in s }

  // ----- the packages affected by an addition -----

  /** What mapModifiedTx holds for t once the transactions in `done` are accounted for: the old or the
      full total without them; nothing new for members of the added package or non-descendants. */
  ghost function UpdatedAt(p: Pool, m: ModMap, added: set<Tx>, done: set<Tx>, t: Tx): Option<Total>
    requires p.Valid() && done <= p.entries.Keys
  {
    if t !in p.entries || t in added || p.Ancestors(t) * done == {} then Get(m, t)
    else Some((if t in m then m[t] else p.WithAncestors(t)).Minus(p.Sum(p.Ancestors(t) * done)))
  }

  ghost predicate UpdatedBy(p: Pool, m: ModMap, m': ModMap, added: set<Tx>, done: set<Tx>)
    requires p.Valid() && done <= p.entries.Keys
  {
    forall t :: Get(m', t) == UpdatedAt(p, m, added, done, t)
  }

  function OrElse(e: Option<Total>, full: Total): Total { if e.Some? then e.value else full }

  /** The entry of a descendant changes by exactly one more included transaction. */
  lemma UpdateStep(p: Pool, m: ModMap, added: set<Tx>, done: set<Tx>, it: Tx, t: Tx)
    requires p.Valid() && added <= p.entries.Keys && done <= added && it in added && it !in done && t in p.entries
    requires it in p.Ancestors(t) && t !in added
    ensures UpdatedAt(p, m, added, done + {it},
        t) == Some(OrElse(UpdatedAt(p, m, added, done, t), p.WithAncestors(t)).Minus(p.entries[it]))
  {
    hide Pool.Valid, Pool.Ancestors;
    var a := p.Ancestors(t);
    assert a * (done + {it}) == a * done + {it};
    p.SumRemove(a * done + {it}, it);
    assert a * done + {it} - {it} == a * done;
  }

  lemma UpdateElsewhere(p: Pool, m: ModMap, added: set<Tx>, done: set<Tx>, it: Tx, t: Tx)
    requires p.Valid() && added <= p.entries.Keys && done <= added && it in added
    requires t !in p.entries || t in added || it !in p.Ancestors(t)
    ensures UpdatedAt(p, m, added, done + {it}, t) == UpdatedAt(p, m, added, done, t)
  {
    hide Pool.Valid, Pool.Ancestors, Pool.Sum;
    if t in p.entries && t !in added {
      assert p.Ancestors(t) * (done + {it}) == p.Ancestors(t) * done;
    }
  }

  /** Enough is recorded for every transaction that its included ancestors can be subtracted. */
  ghost predicate NoWrap(p: Pool, m: ModMap, added: set<Tx>)
    requires p.Valid() && added <= p.entries.Keys
  {
    forall t :: t in m && t in p.entries ==> m[t].Covers(p.Sum(p.Ancestors(t) * added))
  }

  lemma SubtractionFits(p: Pool, m: ModMap, added: set<Tx>, done: set<Tx>, it: Tx, t: Tx)
    requires p.Valid() && added <= p.entries.Keys && done <= added && it in added && it !in done && t in p.entries
    requires NoWrap(p, m, added) && it in p.Ancestors(t) && t !in added
    ensures OrElse(UpdatedAt(p, m, added, done, t), p.WithAncestors(t)).Covers(p.entries[it])
  {
    var a := p.Ancestors(t);
    if a * done == {} { assert p.Sum(a * done) == ZERO; }
    hide Pool.Ancestors, Pool.Valid, Pool.Sum;
    p.AncestorsKnown(t);
    p.SumCovers(a + {t}, a * added);
    SumOneMore(p, a * added, a * done, it);
  }

  lemma SumOneMore(p: Pool, all: set<Tx>, part: set<Tx>, x: Tx)
    requires p.Valid() && all <= p.entries.Keys && part <= all && x in all && x !in part
    ensures p.Sum(all).Covers(p.Sum(part).Plus(p.entries[x]))
  {
    hide Pool.Valid, Pool.Sum;
    p.SumCovers(all, part + {x});
    p.SumRemove(part + {x}, x);
    assert part + {x} - {x} == part;
  }

  /** Account for newly included transactions in all packages that depend on them. */
  method UpdatePackagesForAdded(p: Pool, added: set<Tx>, m0: ModMap) returns (m: ModMap)
    requires p.Valid() && added <= p.entries.Keys && NoWrap(p, m0, added)
    ensures UpdatedBy(p, m0, m, added, added)
  {
    m := m0;
    var todo := added;
    assert UpdatedBy(p, m0, m, added, {});
    while todo != {}
      invariant todo <= added && UpdatedBy(p, m0, m, added, added - todo)
      decreases todo
    {
      var it :| it in todo;
      m := UpdateDescendants(p, added, added - todo, it, m0, m);
      assert added - todo + {it} == added - (todo - {it});
      todo := todo - {it};
    }
    assert added - todo == added;
  }

  method UpdateDescendants(p: Pool, added: set<Tx>, ghost done: set<Tx>, it: Tx, ghost m0: ModMap,
      m1: ModMap) returns (m: ModMap)
    requires p.Valid() && added <= p.entries.Keys && done <= added && it in added && it !in done
    requires NoWrap(p, m0, added) && UpdatedBy(p, m0, m1, added, done)
    ensures UpdatedBy(p, m0, m, added, done + {it})
  {
    hide NoWrap, Pool.Valid, Pool.Ancestors, Pool.Sum;
    m := m1;
    var descendants := p.Descendants(it);
    var todo := descendants;
    while todo != {}
      invariant todo <= descendants
      invariant forall t :: Get(m, t) == UpdatedAt(p, m0, added, if t in descendants && t !in todo then done + {it}
                                                                 else done, t)
      decreases todo
    {
      hide UpdatedAt;
      var desc :| desc in todo;
      todo := todo - {desc};
      if desc in added {
        UpdateElsewhere(p, m0, added, done, it, desc);
        continue;
      }
      UpdateStep(p, m0, added, done, it, desc);
      assert Get(m, desc) == UpdatedAt(p, m0, added, done, desc);
      SubtractionFits(p, m0, added, done, it, desc);
      if desc !in m {
        var modEntry := FullTotal(p, desc);
        assert modEntry.size >= p.entries[it].size && modEntry.sigOps >= p.entries[it].sigOps;
        m := m[desc := modEntry.Minus(p.entries[it])];
      } else {
        assert m[desc].size >= p.entries[it].size && m[desc].sigOps >= p.entries[it].sigOps;
        m := m[desc := m[desc].Minus(p.entries[it])];
      }
    }
    forall t ensures Get(m, t) == UpdatedAt(p, m0, added, done + {it}, t) {
      if t !in descendants { UpdateElsewhere(p, m0, added, done, it, t); }
    }
  }

  /** The totals with ancestors, as the pool caches them. */
  method FullTotal(p: Pool, t: Tx) returns (total: Total)
    requires p.Valid() && t in p.entries
    ensures total == p.WithAncestors(t)
  {
    hide Pool.Ancestors, Pool.Valid;
    p.AncestorsKnown(t);
    total := ZERO;
    var todo := p.Ancestors(t) + {t};
    ghost var all := todo;
    while todo != {}
      invariant todo <= all && total.Plus(p.Sum(todo)) == p.Sum(all)
      decreases todo
    {
      var x :| x in todo;
      p.SumRemove(todo, x);
      hide Pool.Sum;
      total := total.Plus(p.entries[x]);
      todo := todo - {x};
    }
  }

  // ----- the order inside a package -----

  predicate Before(p: Pool, a: Tx, b: Tx)
    requires p.Valid() && a in p.entries && b in p.entries
  {
    p.Count(a) < p.Count(b) || (p.Count(a) == p.Count(b) && a.hash < b.hash)
  }

  ghost predicate SortedBy(p: Pool, s: seq<Tx>)
    requires p.Valid() && Elements(s) <= p.entries.Keys
  {
    forall i, j :: 0 <= i < j < |s| ==> s[i] in Elements(s) && s[j] in Elements(s) && Before(p, s[i], s[j])
  }

  /** The first of a package in the order of CompareTxIterByAncestorCount. */
  method First(p: Pool, package: set<Tx>) returns (first: Tx)
    requires p.Valid() && package <= p.entries.Keys && package != {}
    ensures first in package && forall t :: t in package && t != first ==> Before(p, first, t)
  {
    first :| first in package;
    var todo := package - {first};
    while todo != {}
      invariant todo <= package && first in package && first !in todo
      invariant forall t :: t in package && t !in todo && t != first ==> Before(p, first, t)
      decreases todo
    {
      var t :| t in todo;
      todo := todo - {t};
      if Before(p, t, first) { first := t; }
    }
  }

  method SortForBlock(p: Pool, package: set<Tx>) returns (sorted: seq<Tx>)
    requires p.Valid() && package <= p.entries.Keys
    ensures Elements(sorted) == package && SortedBy(p, sorted)
  {
    sorted := [];
    var todo := package;
    while todo != {}
      invariant todo <= package && Elements(sorted) == package - todo && SortedBy(p, sorted)
      invariant forall i, t :: 0 <= i < |sorted| && t in todo ==> sorted[i] in p.entries && Before(p, sorted[i], t)
      decreases todo
    {
      var first := First(p, todo);
      assert Elements(sorted + [first]) == Elements(sorted) + {first};
      sorted := sorted + [first];
      todo := todo - {first};
    }
  }

  // ----- the block under construction -----

  /** No transaction twice, and every ancestor before its descendant. */
  ghost predicate BlockOk(p: Pool, txs: seq<Tx>)
    requires p.Valid()
  {
    && Elements(txs) <= p.entries.Keys
    && (forall i, j :: 0 <= i < j < |txs| ==> txs[i] != txs[j])
    && (forall j :: AfterAncestors(p, txs, j))
  }

  ghost predicate AfterAncestors(p: Pool, txs: seq<Tx>, j: int)
    requires p.Valid()
  {
    0 <= j < |txs| ==> txs[j] in p.entries && p.Ancestors(txs[j]) <= Elements(txs[..j])
  }

  lemma BlockExtend(p: Pool, txs: seq<Tx>, t: Tx)
    requires p.Valid() && BlockOk(p, txs) && t in p.entries && t !in Elements(txs) && p.Ancestors(t) <= Elements(txs)
    ensures BlockOk(p, txs + [t]) && Elements(txs + [t]) == Elements(txs) + {t}
  {
    hide Pool.Valid, Pool.Ancestors;
    var more := txs + [t];
    assert Elements(more) == Elements(txs) + {t};
    forall j ensures AfterAncestors(p, more, j) {
      assert AfterAncestors(p, txs, j);
      if 0 <= j < |txs| { assert more[..j] == txs[..j]; }
      if j == |txs| { assert more[..j] == txs; }
    }
  }

  /** What a block must be, in terms of parents alone: no transaction twice, and every one after all of
      its parents in the pool. */
  ghost predicate ParentsFirst(p: Pool, txs: seq<Tx>) {
    && (forall i, j :: 0 <= i < j < |txs| ==> txs[i] != txs[j])
    && (forall j, q :: 0 <= j < |txs| && txs[j] in p.parents && q in p.parents[txs[j]] ==> q in txs[..j])
    && (forall j :: 0 <= j < |txs| ==> txs[j] in p.parents)
  }

  lemma BlockParentsFirst(p: Pool, txs: seq<Tx>)
    requires p.Valid() && BlockOk(p, txs)
    ensures ParentsFirst(p, txs)
  {
    hide Pool.Ancestors;
    forall j | 0 <= j < |txs| ensures txs[j] in p.parents { assert AfterAncestors(p, txs, j); }
    forall j, q | 0 <= j < |txs| && txs[j] in p.parents && q in p.parents[txs[j]] ensures q in txs[..j] {
      assert AfterAncestors(p, txs, j);
      p.AncestorsAreReached(txs[j], q);
    }
  }

  /** What is in the block includes all its ancestors. */
  lemma BlockClosed(p: Pool, txs: seq<Tx>, t: Tx)
    requires p.Valid() && BlockOk(p, txs) && t in Elements(txs)
    ensures t in p.entries && p.Ancestors(t) <= Elements(txs)
  {
    var j :| 0 <= j < |txs| && txs[j] == t;
    assert AfterAncestors(p, txs, j);
    assert Elements(txs[..j]) <= Elements(txs);
  }

  /** An ancestor stands before its descendant, and no transaction stands twice. */
  lemma AncestorFirst(p: Pool, txs: seq<Tx>, i: int, j: int)
    requires p.Valid() && BlockOk(p, txs) && 0 <= i < |txs| && 0 <= j < |txs| && txs[j] in p.entries &&
        txs[i] in p.Ancestors(txs[j])
    ensures i < j
  {
    assert AfterAncestors(p, txs, j);
    var k :| 0 <= k < |txs[..j]| && txs[..j][k] == txs[i];
    assert txs[k] == txs[i];
  }

  ghost predicate Closed(p: Pool, inBlock: set<Tx>)
    requires p.Valid()
  {
    inBlock <= p.entries.Keys && forall t :: t in inBlock ==> p.Ancestors(t) <= inBlock
  }

  /** An entry of mapModifiedTx never under-counts what is left of its package, and is exact unless the
      transaction has failed before. */
  ghost predicate EntryOk(p: Pool, inBlock: set<Tx>, m: ModMap, failed: set<Tx>, t: Tx)
    requires p.Valid()
  {
    t in m ==>
      && t in p.entries && t !in inBlock && p.Ancestors(t) * inBlock != {} && m[t].Covers(p.Remaining(t, inBlock))
      && (t !in failed ==> m[t] == p.Remaining(t, inBlock))
  }

  /** A transaction whose cached totals are stale is in mapModifiedTx, or has failed. */
  ghost predicate StaleKnown(p: Pool, inBlock: set<Tx>, m: ModMap, failed: set<Tx>, t: Tx)
    requires p.Valid()
  {
    t in p.entries && t !in inBlock && p.Ancestors(t) * inBlock != {} ==> t in m || t in failed
  }

  ghost predicate ModOk(p: Pool, inBlock: set<Tx>, m: ModMap, failed: set<Tx>)
    requires p.Valid()
  {
    (forall t :: EntryOk(p, inBlock, m, failed, t)) && forall t :: StaleKnown(p, inBlock, m, failed, t)
  }

  /** Without an ancestor in the block the cached totals are the totals of the package. */
  lemma CachedIsExact(p: Pool, inBlock: set<Tx>, t: Tx)
    requires p.Valid() && t in p.entries && t !in inBlock && p.Ancestors(t) * inBlock == {}
    ensures p.WithAncestors(t) == p.Remaining(t, inBlock)
  {
    hide Pool.Valid, Pool.Ancestors, Pool.Sum;
    forall x | x in p.Ancestors(t) ensures x !in inBlock { assert x !in p.Ancestors(t) * inBlock; }
    assert p.Package(t, inBlock) == p.Ancestors(t) + {t};
  }

  /** Including a package takes the included ancestors out of every remaining package. */
  lemma RemainingShrinks(p: Pool, inBlock: set<Tx>, added: set<Tx>, t: Tx)
    requires p.Valid() && t in p.entries && t !in inBlock && t !in added && added !! inBlock && added <= p.entries.Keys
    ensures p.Remaining(t, inBlock + added) == p.Remaining(t, inBlock).Minus(p.Sum(p.Ancestors(t) * added))
    ensures p.Remaining(t, inBlock).Covers(p.Sum(p.Ancestors(t) * added))
  {
    var pkg, gone := p.Package(t, inBlock), p.Ancestors(t) * added;
    p.AncestorsKnown(t);
    p.SumCovers(pkg, gone);
    hide Pool.Valid, Pool.Ancestors, Pool.Sum;
    assert p.Package(t, inBlock + added) == pkg - gone;
    p.SumMinus(pkg, gone);
  }

  lemma NoWrapAfter(p: Pool, inBlock: set<Tx>, added: set<Tx>, m: ModMap, failed: set<Tx>)
    requires p.Valid() && ModOk(p, inBlock, m, failed) && added !! inBlock && added <= p.entries.Keys
    ensures NoWrap(p, m - added, added)
  {
    hide Pool.Valid, Pool.Ancestors, Pool.Sum;
    forall t | t in m - added && t in p.entries ensures (m - added)[t].Covers(p.Sum(p.Ancestors(t) * added)) {
      assert EntryOk(p, inBlock, m, failed, t);
      RemainingShrinks(p, inBlock, added, t);
    }
  }

  lemma EntryAfter(p: Pool, inBlock: set<Tx>, added: set<Tx>, m: ModMap, m': ModMap, failed: set<Tx>, t: Tx)
    requires p.Valid() && ModOk(p, inBlock, m, failed) && Closed(p, inBlock) && added !! inBlock &&
        added <= p.entries.Keys
    requires UpdatedBy(p, m - added, m', added, added)
    ensures EntryOk(p, inBlock + added, m', failed, t)
    ensures StaleKnown(p, inBlock + added, m', failed, t)
  {
    hide Pool.Valid, Pool.Ancestors, Pool.Sum;
    assert EntryOk(p, inBlock, m, failed, t) && StaleKnown(p, inBlock, m, failed, t);
    assert Get(m', t) == UpdatedAt(p, m - added, added, added, t);
    if t in p.entries && t !in added {
      var a := p.Ancestors(t);
      assert a * (inBlock + added) == a * inBlock + a * added;
      if t !in inBlock {
        RemainingShrinks(p, inBlock, added, t);
        RemainingAll(p, inBlock, t);
        if a * added == {} {
          forall x | x in a ensures x !in added { assert x !in a * added; }
          assert p.Package(t, inBlock + added) == p.Package(t, inBlock);
        }
        if a * inBlock == {} { CachedIsExact(p, inBlock, t); }
      } else {
        assert a * added == {};
      }
    }
  }

  lemma RemainingAll(p: Pool, inBlock: set<Tx>, t: Tx)
    requires p.Valid() && t in p.entries
    ensures p.WithAncestors(t).Covers(p.Remaining(t, inBlock))
  {
    p.AncestorsKnown(t);
    p.SumCovers(p.Ancestors(t) + {t}, p.Package(t, inBlock));
  }

  lemma ModAfter(p: Pool, inBlock: set<Tx>, added: set<Tx>, m: ModMap, m': ModMap, failed: set<Tx>)
    requires p.Valid() && ModOk(p, inBlock, m, failed) && Closed(p, inBlock) && added !! inBlock &&
        added <= p.entries.Keys
    requires UpdatedBy(p, m - added, m', added, added)
    ensures ModOk(p, inBlock + added, m', failed)
  {
    hide EntryOk, StaleKnown, UpdatedBy, Closed;
    forall t ensures EntryOk(p, inBlock + added, m', failed, t) && StaleKnown(p, inBlock + added, m', failed, t) {
      EntryAfter(p, inBlock, added, m, m', failed, t);
    }
  }

  /** Before anything is in the block nothing is stale. */
  lemma ModNone(p: Pool)
    requires p.Valid()
    ensures ModOk(p, {}, map[], {})
  {
  }

  /** Taking a failed entry out and remembering it keeps the bookkeeping. */
  lemma ModFailed(p: Pool, inBlock: set<Tx>, m: ModMap, failed: set<Tx>, t: Tx)
    requires p.Valid() && ModOk(p, inBlock, m, failed)
    ensures ModOk(p, inBlock, m - {t}, failed + {t})
  {
    hide Pool.Valid, Pool.Ancestors, Pool.Sum;
    forall x ensures EntryOk(p, inBlock, m - {t}, failed + {t}, x) { assert EntryOk(p, inBlock, m, failed, x); }
    forall x ensures StaleKnown(p, inBlock, m - {t}, failed + {t}, x) { assert StaleKnown(p, inBlock, m, failed, x); }
  }

  lemma SortedByCount(p: Pool, sorted: seq<Tx>, i: nat, k: nat)
    requires p.Valid() && Elements(sorted) <= p.entries.Keys && SortedBy(p, sorted) && i < |sorted| && k < |sorted|
    requires sorted[i] in p.entries && sorted[k] in p.entries && p.Count(sorted[k]) < p.Count(sorted[i])
    ensures k < i
  {
  }

  lemma EmptyBlock(p: Pool, empty: seq<Tx>)
    requires p.Valid() && |empty| == 0
    ensures BlockOk(p, empty) && Recorded(p, empty, [-1], [-1])
  {
  }

  lemma EmptySum(p: Pool, empty: seq<Tx>)
    requires |empty| == 0
    ensures Counted(p, Elements(empty), Total(RESERVED_SIZE, RESERVED_SIGOPS, 0))
  {
    assert Elements(empty) == {};
    assert p.Sum(Elements(empty)) == ZERO;
  }

  /** In a sorted package every transaction comes after its ancestors. */
  lemma PackageOrder(p: Pool, iter: Tx, inBlock: set<Tx>, txs: seq<Tx>, sorted: seq<Tx>, i: nat)
    requires p.Valid() && iter in p.entries && BlockOk(p, txs) && inBlock == Elements(txs)
    requires Elements(sorted) == p.Package(iter, inBlock) && Elements(sorted) <= p.entries.Keys &&
        SortedBy(p, sorted) && i < |sorted|
    ensures sorted[i] in p.entries && sorted[i] !in inBlock && sorted[i] !in Elements(sorted[..i])
    ensures p.Ancestors(sorted[i]) <= inBlock + Elements(sorted[..i])
  {
    var t := sorted[i];
    assert t in Elements(sorted);
    forall k | 0 <= k < i ensures sorted[k] != t { assert Before(p, sorted[k], t); }
    forall a | a in p.Ancestors(t) ensures a in inBlock + Elements(sorted[..i]) {
      p.CountGrows(t, a);
      if t != iter { p.AncestorsTransitive(iter, t); }
      if a !in inBlock {
        assert a in Elements(sorted);
        var k :| 0 <= k < |sorted| && sorted[k] == a;
        SortedByCount(p, sorted, i, k);
        assert sorted[..i][k] == a;
      }
    }
  }

  /** The template's fee and sigop lists follow the transactions, after the coinbase's entry. */
  predicate Recorded(p: Pool, vtx: seq<Tx>, fees: seq<int>, sigOps: seq<int>) {
    && |fees| == |sigOps| == |vtx| + 1
    && forall i :: 0 <= i < |vtx| ==>
        vtx[i] in p.entries && fees[i + 1] == p.entries[vtx[i]].fee && sigOps[i + 1] == p.entries[vtx[i]].sigOps
  }

  lemma BlockIsClosed(p: Pool, txs: seq<Tx>)
    requires p.Valid() && BlockOk(p, txs)
    ensures Closed(p, Elements(txs))
  {
    hide Pool.Valid, Pool.Ancestors;
    forall t | t in Elements(txs) ensures p.Ancestors(t) <= Elements(txs) { BlockClosed(p, txs, t); }
  }

  /** How many transactions of the pool are not in the block. */
  ghost function Outside(p: Pool, inBlock: set<Tx>): nat { |p.entries.Keys - inBlock| }

  lemma FewerLeft(p: Pool, inBlock: set<Tx>, added: set<Tx>, t: Tx)
    requires t in p.entries && t !in inBlock && t in added
    ensures Outside(p, inBlock + added) < Outside(p, inBlock)
  {
    var all := p.entries.Keys;
    var a, b := all - inBlock, all - (inBlock + added);
    assert a == b + (a - b);
    assert t in a - b;
  }

  lemma SomethingIn(txs: seq<Tx>, t: Tx)
    requires t in Elements(txs)
    ensures |txs| > 0
  {
  }

  lemma ModStart(p: Pool, m: ModMap)
    requires p.Valid() && UpdatedBy(p, map[], m, {}, {})
    ensures ModOk(p, {}, m, {})
  {
    var none: ModMap, e: set<Tx> := map[], {};
    assert none - e == none && e + e == e;
    ModNone(p);
    hide EntryOk, StaleKnown, UpdatedBy;
    ModAfter(p, e, e, none, m, e);
    assert ModOk(p, e, m, e);
  }

  method AnyKey(m: ModMap) returns (t: Tx)
    requires m != map[]
    ensures t in m
  {
    t :| t in m;
  }

  /** The running counters are their start values plus the sums over the block. */
  ghost predicate Counted(p: Pool, inBlock: set<Tx>, counters: Total)
    requires inBlock <= p.entries.Keys
  {
    counters == Total(RESERVED_SIZE, RESERVED_SIGOPS, 0).Plus(p.Sum(inBlock))
  }

  // ----- why a transaction is not in the block -----

  ghost predicate AllFinal(final: Tx -> bool, inBlock: set<Tx>) { forall t :: t in inBlock ==> final(t) }

  /** What is left of the package of t cannot join the block: it is too large, has too many sigops, or
      holds a transaction that is not final. */
  ghost predicate Refused(p: Pool, maxSize: int, final: Tx -> bool, inBlock: set<Tx>, t: Tx)
    requires p.Valid()
  {
    && t in p.entries && inBlock <= p.entries.Keys
    && (|| RESERVED_SIZE + p.Sum(inBlock).size + p.Remaining(t, inBlock).size >= maxSize
        || RESERVED_SIGOPS + p.Sum(inBlock).sigOps + p.Remaining(t, inBlock).sigOps >= MAX_BLOCK_SIGOPS_CURRENT
        || exists a :: a in p.Package(t, inBlock) && !final(a))
  }

  /** The block together with what is left of a package is the block together with the whole package. */
  lemma JoinedSum(p: Pool, inBlock: set<Tx>, t: Tx)
    requires p.Valid() && t in p.entries && inBlock <= p.entries.Keys
    ensures p.Ancestors(t) <= p.entries.Keys
    ensures p.Sum(inBlock + (p.Ancestors(t) + {t})) == p.Sum(inBlock).Plus(p.Remaining(t, inBlock))
  {
    p.AncestorsKnown(t);
    hide Pool.Valid, Pool.Ancestors, Pool.Sum;
    var all := inBlock + (p.Ancestors(t) + {t});
    p.SumMinus(all, inBlock);
    assert all - inBlock == p.Package(t, inBlock);
  }

  /** A package that cannot join the block never can again, however the block grows. */
  lemma StillRefused(p: Pool, maxSize: int, final: Tx -> bool, inBlock: set<Tx>, more: set<Tx>, t: Tx)
    requires p.Valid() && Refused(p, maxSize, final, inBlock, t)
    requires inBlock <= more <= p.entries.Keys && AllFinal(final, more)
    ensures Refused(p, maxSize, final, more, t)
  {
    JoinedSum(p, inBlock, t);
    JoinedSum(p, more, t);
    hide Pool.Ancestors, Pool.Sum, Pool.Remaining;
    var package := p.Ancestors(t) + {t};
    p.SumCovers(more + package, inBlock + package);
    hide Pool.Valid;
    if a :| a in p.Package(t, inBlock) && !final(a) {
      assert a in p.Package(t, more);
    }
  }

  /** t is in the block, cannot join it, or still waits among the modified entries. */
  ghost predicate Settled(p: Pool, maxSize: int, final: Tx -> bool, inBlock: set<Tx>, m: ModMap, t: Tx)
    requires p.Valid()
  {
    t in inBlock || t in m || Refused(p, maxSize, final, inBlock, t)
  }

  /** What is behind the iterator is settled, and so is everything in failedTx, for good. */
  ghost predicate Progress(p: Pool, maxSize: int, final: Tx -> bool, inBlock: set<Tx>, m: ModMap, failed: set<Tx>,
      order: seq<Tx>, mi: nat)
    requires p.Valid()
  {
    && mi <= |order| && (forall k :: 0 <= k < mi ==> Settled(p, maxSize, final, inBlock, m, order[k]))
    && (forall t :: t in failed ==> Refused(p, maxSize, final, inBlock, t))
  }

  /** A round that keeps every waiting entry but one, which it settles. */
  lemma ProgressRound(p: Pool, maxSize: int, final: Tx -> bool, inBlock: set<Tx>, m: ModMap, failed: set<Tx>,
      order: seq<Tx>, mi: nat,
                      inBlock': set<Tx>, m': ModMap, failed': set<Tx>, mi': nat, iter: Tx)
    requires p.Valid() && Progress(p, maxSize, final, inBlock, m, failed, order, mi) && inBlock <= inBlock'
    requires m.Keys <= m'.Keys + inBlock' + {iter} && failed' <= failed + {iter}
    requires inBlock' <= p.entries.Keys && AllFinal(final, inBlock')
    requires iter in inBlock' || Refused(p, maxSize, final, inBlock', iter)
    requires iter in inBlock' ==> failed' <= failed
    requires mi' == mi || (mi' == mi + 1 && mi < |order| && order[mi] == iter)
    ensures Progress(p, maxSize, final, inBlock', m', failed', order, mi')
  {
    hide Pool.Valid, Refused;
    forall k | 0 <= k < mi'
      ensures Settled(p, maxSize, final, inBlock', m', order[k])
    {
      if k < mi {
        assert Settled(p, maxSize, final, inBlock, m, order[k]);
        if Refused(p, maxSize, final, inBlock, order[k]) {
          StillRefused(p, maxSize, final, inBlock, inBlock', order[k]);
        }
      }
    }
    forall t | t in failed'
      ensures Refused(p, maxSize, final, inBlock', t)
    {
      if t in failed {
        StillRefused(p, maxSize, final, inBlock, inBlock', t);
      }
    }
  }

  /** Everything in the index is in the block, or cannot join it as it is now. */
  ghost predicate Complete(p: Pool, maxSize: int, final: Tx -> bool, inBlock: set<Tx>, order: seq<Tx>)
    requires p.Valid()
  {
    forall k :: 0 <= k < |order| ==> order[k] in inBlock || Refused(p, maxSize, final, inBlock, order[k])
  }

  /** The package of t, by its exact totals or else as one that cannot join the block anyway, pays too
      little. */
  ghost predicate FeeTooLow(p: Pool, maxSize: int, final: Tx -> bool, minFee: int -> int, inBlock: set<Tx>, t: Tx,
      total: Total)
    requires p.Valid()
  {
    && t in p.entries && t !in inBlock && total.Covers(p.Remaining(t, inBlock)) && total.fee < minFee(total.size)
    && (total == p.Remaining(t, inBlock) || Refused(p, maxSize, final, inBlock, t))
  }

  /** The cut-off came at t, which is the next entry of the index or has ancestors in the block; all
      entries of the index before are in the block, cannot join it, or have ancestors in it. */
  ghost predicate CutOffAt(p: Pool, maxSize: int, final: Tx -> bool, minFee: int -> int, inBlock: set<Tx>,
      order: seq<Tx>, n: int, t: Tx, total: Total)
    requires p.Valid()
  {
    && FeeTooLow(p, maxSize, final, minFee, inBlock, t, total)
    && 0 <= n <= |order| && ((n < |order| && t == order[n]) || p.Ancestors(t) * inBlock != {})
    && forall k :: 0 <= k < n ==> PassedOver(p, maxSize, final, inBlock, order[k])
  }

  ghost predicate PassedOver(p: Pool, maxSize: int, final: Tx -> bool, inBlock: set<Tx>, t: Tx)
    requires p.Valid()
  {
    t in inBlock || Refused(p, maxSize, final, inBlock, t) || (t in p.entries && p.Ancestors(t) * inBlock != {})
  }

  ghost predicate SomeFeeTooLow(p: Pool, maxSize: int, final: Tx -> bool, minFee: int -> int, inBlock: set<Tx>,
                                order: seq<Tx>)
    requires p.Valid()
  {
    exists n, t, total :: CutOffAt(p, maxSize, final, minFee, inBlock, order, n, t, total)
  }

  lemma CutOff(p: Pool, maxSize: int, final: Tx -> bool, minFee: int -> int, inBlock: set<Tx>, m: ModMap,
      failed: set<Tx>, order: seq<Tx>, n: nat, t: Tx, total: Total)
    requires p.Valid() && Progress(p, maxSize, final, inBlock, m, failed, order, n) && ModOk(p, inBlock, m, failed)
    requires FeeTooLow(p, maxSize, final, minFee, inBlock, t, total) && (t in m || (n < |order| && t == order[n]))
    ensures SomeFeeTooLow(p, maxSize, final, minFee, inBlock, order)
  {
    hide Pool.Valid, Pool.Ancestors, Refused, Pool.Remaining;
    assert EntryOk(p, inBlock, m, failed, t);
    forall k | 0 <= k < n ensures PassedOver(p, maxSize, final, inBlock, order[k]) {
      assert Settled(p, maxSize, final, inBlock, m, order[k]) && EntryOk(p, inBlock, m, failed, order[k]);
    }
    assert CutOffAt(p, maxSize, final, minFee, inBlock, order, n, t, total);
  }

  lemma FailedRefused(p: Pool, maxSize: int, final: Tx -> bool, inBlock: set<Tx>, m: ModMap, failed: set<Tx>,
      order: seq<Tx>, mi: nat, t: Tx)
    requires p.Valid() && Progress(p, maxSize, final, inBlock, m, failed, order, mi)
    ensures t in failed ==> Refused(p, maxSize, final, inBlock, t)
  {
  }

  lemma NoneFinal(final: Tx -> bool, empty: seq<Tx>)
    requires |empty| == 0
    ensures AllFinal(final, Elements(empty))
  {
  }

  lemma NothingBehind(p: Pool, maxSize: int, final: Tx -> bool, inBlock: set<Tx>, m: ModMap, failed: set<Tx>,
      order: seq<Tx>)
    requires p.Valid() && failed == {}
    ensures Progress(p, maxSize, final, inBlock, m, failed, order, 0)
  {
  }

  /** Entries of mapTx that are skipped are settled already. */
  lemma SkipSettled(p: Pool, maxSize: int, final: Tx -> bool, inBlock: set<Tx>, m: ModMap, failed: set<Tx>,
      order: seq<Tx>, mi: nat)
    requires p.Valid() && Progress(p, maxSize, final, inBlock, m, failed, order, mi) && mi < |order|
    requires order[mi] in m || order[mi] in inBlock || order[mi] in failed
    ensures Progress(p, maxSize, final, inBlock, m, failed, order, mi + 1)
  {
    hide Pool.Valid, Refused;
  }

  lemma AllSettled(p: Pool, maxSize: int, final: Tx -> bool, inBlock: set<Tx>, m: ModMap, failed: set<Tx>,
      order: seq<Tx>)
    requires p.Valid() && Progress(p, maxSize, final, inBlock, m, failed, order, |order|) && m == map[]
    ensures Complete(p, maxSize, final, inBlock, order)
  {
    hide Pool.Valid, Refused;
    forall k | 0 <= k < |order|
      ensures order[k] in inBlock || Refused(p, maxSize, final, inBlock, order[k])
    {
      assert Settled(p, maxSize, final, inBlock, m, order[k]);
    }
  }

  lemma InBlockKnown(p: Pool, txs: seq<Tx>)
    requires p.Valid() && BlockOk(p, txs)
    ensures Elements(txs) <= p.entries.Keys
  {
  }

  lemma CountersAre(p: Pool, inBlock: set<Tx>, counters: Total)
    requires p.Valid() && inBlock <= p.entries.Keys && Counted(p, inBlock, counters)
    ensures counters.size == RESERVED_SIZE + p.Sum(inBlock).size &&
        counters.sigOps == RESERVED_SIGOPS + p.Sum(inBlock).sigOps
  {
  }

  lemma KeysKept(p: Pool, m: ModMap, m': ModMap, added: set<Tx>)
    requires p.Valid() && added <= p.entries.Keys && UpdatedBy(p, m, m', added, added)
    ensures m.Keys <= m'.Keys
  {
    hide Pool.Valid, Pool.Ancestors, Pool.Sum;
    forall t | t in m
      ensures t in m'
    {
      assert Get(m', t) == UpdatedAt(p, m, added, added, t);
    }
  }

  /** Generating a block from the pool. */
  class BlockAssembler {
    const p: Pool
    const nBlockMaxSize: int

    var inBlock: set<Tx>
    var vtx: seq<Tx>          // without the coinbase
    var vTxFees: seq<int>
    var vTxSigOps: seq<int>
    var nBlockSize: int
    var nBlockTx: int
    var nBlockSigOps: int
    var nFees: int

    /** The block lists what it contains in a valid order, and the counters are their start values plus
        the sums over the transactions added. */
    ghost predicate Valid()
      reads this
    {
      && p.Valid() && BlockOk(p, vtx) && inBlock == Elements(vtx) && nBlockTx == |vtx|
      && Counted(p, inBlock, Total(nBlockSize, nBlockSigOps, nFees))
      && Recorded(p, vtx, vTxFees, vTxSigOps)
    }

    ghost predicate WithinLimits()
      reads this
    {
      nBlockSize < nBlockMaxSize && nBlockSigOps < MAX_BLOCK_SIGOPS_CURRENT
    }

    /** The configured size, taken as a 32-bit unsigned number, is brought between 1000 and the maximum
        less 1000. */
    constructor (p: Pool, blockMaxSize: int)
      ensures this.p == p && 1000 <= nBlockMaxSize <= 2000000 - 1000
      ensures 0 <= blockMaxSize < 1000 ==> nBlockMaxSize == 1000
      ensures 1000 <= blockMaxSize <= 2000000 - 1000 ==> nBlockMaxSize == blockMaxSize
      ensures 2000000 - 1000 < blockMaxSize < 0x1_0000_0000 ==> nBlockMaxSize == 2000000 - 1000
    {
      this.p := p;
      var asked := blockMaxSize % 0x1_0000_0000;
      var capped := if asked < 2000000 - 1000 then asked else 2000000 - 1000;
      nBlockMaxSize := if capped > 1000 then capped else 1000;
      inBlock, vtx, vTxFees, vTxSigOps := {}, [], [], [];
      nBlockSize, nBlockSigOps, nBlockTx, nFees := 0, 0, 0, 0;
    }

    /** Start a block: room is reserved for the coinbase, and nothing else is in it. */
    method ResetBlock()
      requires p.Valid()
      modifies this
      ensures Valid() && |vtx| == 0
    {
      hide Pool.Valid, Pool.Ancestors, BlockOk, Pool.Sum, Elements, Recorded, Counted;
      var empty: seq<Tx> := [];
      EmptyBlock(p, empty);
      EmptySum(p, empty);
      inBlock := Elements(empty);
      vtx := empty;
      vTxFees, vTxSigOps := [-1], [-1];
      nBlockSize := RESERVED_SIZE;
      nBlockSigOps := RESERVED_SIGOPS;
      nBlockTx := 0;
      nFees := 0;
    }

    predicate TestPackage(packageSize: int, packageSigOps: int)
      reads this
    {
      nBlockSize + packageSize < nBlockMaxSize && nBlockSigOps + packageSigOps < MAX_BLOCK_SIGOPS_CURRENT
    }

    method AddToBlock(t: Tx)
      requires Valid() && t in p.entries && t !in inBlock && p.Ancestors(t) <= inBlock
      modifies this
      ensures Valid() && vtx == old(vtx) + [t] && inBlock == old(inBlock) + {t}
    {
      hide Pool.Valid, Pool.Ancestors, BlockOk, Pool.Sum;
      BlockExtend(p, vtx, t);
      p.SumRemove(inBlock + {t}, t);
      assert inBlock + {t} - {t} == inBlock;
      vtx := vtx + [t];
      vTxFees := vTxFees + [p.entries[t].fee];
      vTxSigOps := vTxSigOps + [p.entries[t].sigOps];
      nBlockSize := nBlockSize + p.entries[t].size;
      nBlockTx := nBlockTx + 1;
      nBlockSigOps := nBlockSigOps + p.entries[t].sigOps;
      nFees := nFees + p.entries[t].fee;
      inBlock := inBlock + {t};
    }

    method OnlyUnconfirmed(testSet: set<Tx>) returns (rest: set<Tx>)
      ensures rest == testSet - inBlock
    {
      rest := testSet;
      var todo := testSet;
      while todo != {}
        invariant todo <= testSet && rest == testSet - (inBlock - todo)
        decreases todo
      {
        var t :| t in todo;
        if t in inBlock { rest := rest - {t}; }
        todo := todo - {t};
      }
    }

    method TestPackageFinality(package: set<Tx>, final: Tx -> bool) returns (ok: bool)
      ensures ok <==> forall t :: t in package ==> final(t)
    {
      var todo := package;
      while todo != {}
        invariant todo <= package && forall t :: t in package && t !in todo ==> final(t)
        decreases todo
      {
        var t :| t in todo;
        if !final(t) { return false; }
        todo := todo - {t};
      }
      return true;
    }

    predicate SkipMapTxEntry(t: Tx, m: ModMap, failed: set<Tx>)
      reads this
    {
      t in m || t in inBlock || t in failed
    }

    /** Add a whole package in ancestor order. */
    method AddPackage(iter: Tx, package: set<Tx>, m0: ModMap) returns (m: ModMap)
      requires Valid() && iter in p.entries && iter !in inBlock && package == p.Package(iter, inBlock)
      modifies this
      ensures Valid() && inBlock == old(inBlock) + package && old(vtx) <= vtx && m == m0 - package
      ensures Total(nBlockSize, nBlockSigOps, nFees) == old(Total(nBlockSize, nBlockSigOps, nFees)).Plus(p.Sum(package))
    {
      hide Pool.Valid, Pool.Ancestors, Pool.Sum, BlockOk, SortedBy, Before;
      p.AncestorsKnown(iter);
      var sorted := SortForBlock(p, package);
      ghost var start, before := inBlock, vtx;
      m := m0;
      for i := 0 to |sorted|
        invariant Valid() && inBlock == start + Elements(sorted[..i]) && before <= vtx &&
            m == m0 - Elements(sorted[..i])
      {
        var t := sorted[i];
        PackageOrder(p, iter, start, before, sorted, i);
        assert sorted[..i + 1] == sorted[..i] + [t];
        assert Elements(sorted[..i + 1]) == Elements(sorted[..i]) + {t};
        AddToBlock(t);
        m := m - {t};
      }
      assert sorted[..|sorted|] == sorted;
      p.SumMinus(inBlock, package);
      assert inBlock - package == start;
    }

    /** Add transactions by packages until the pool is exhausted or fees are too low. `order` is the
        fee-rate index of the pool. Whatever is added, size and sigops stay under their limits; unless
        the fee cut-off ended the loop, no package of the index can still join the block. */
    method AddPackageTxs(order: seq<Tx>, final: Tx -> bool, minFee: int -> int, modifiedWins: (Tx, Tx) -> bool)
      returns (stopped: bool)
      requires Valid() && Elements(order) <= p.entries.Keys && |vtx| == 0
      modifies this
      ensures Valid()
      ensures ParentsFirst(p, vtx)
      ensures |vtx| > 0 ==> WithinLimits()
      ensures AllFinal(final, inBlock)
      ensures if stopped then SomeFeeTooLow(p, nBlockMaxSize, final, minFee, inBlock, order)
              else Complete(p, nBlockMaxSize, final, inBlock, order)
    {
      hide Pool.Valid, Pool.Ancestors, Pool.Sum, BlockOk, Recorded, Counted, ModOk, UpdatedBy, NoWrap, Progress,
          Refused, Elements, Settled, Complete, SomeFeeTooLow, Outside, AllFinal, ParentsFirst;
      var m := Start();
      var failed: set<Tx> := {};
      var mi := 0;
      stopped := false;
      NoneFinal(final, vtx);
      NothingBehind(p, nBlockMaxSize, final, inBlock, m, failed, order);
      while mi < |order| || m != map[]
        invariant Valid() && 0 <= mi <= |order| && ModOk(p, inBlock, m, failed) && (|vtx| > 0 ==> WithinLimits())
        invariant Progress(p, nBlockMaxSize, final, inBlock, m, failed, order, mi) && AllFinal(final, inBlock)
        decreases Outside(p, inBlock), |order| - mi, |m|
      {
        if mi < |order| && SkipMapTxEntry(order[mi], m, failed) {
          SkipSettled(p, nBlockMaxSize, final, inBlock, m, failed, order, mi);
          mi := mi + 1;
        } else {
          mi, m, failed, stopped := Round(order, mi, m, failed, final, minFee, modifiedWins);
          if stopped { break; }
        }
      }
      BlockParentsFirst(p, vtx);
      if !stopped { AllSettled(p, nBlockMaxSize, final, inBlock, m, failed, order); }
    }

    /** The rest of an iteration, once the iterator is not at a stale entry. */
    method Round(order: seq<Tx>, mi0: nat, m0: ModMap, failed0: set<Tx>, final: Tx -> bool, minFee: int -> int,
                 modifiedWins: (Tx, Tx) -> bool) returns (mi: nat, m: ModMap, failed: set<Tx>, stop: bool)
      requires Valid() && Elements(order) <= p.entries.Keys && mi0 <= |order| && (mi0 < |order| || m0 != map[])
      requires mi0 < |order| ==> !SkipMapTxEntry(order[mi0], m0, failed0)
      requires ModOk(p, inBlock, m0, failed0) && (|vtx| > 0 ==> WithinLimits())
      requires Progress(p, nBlockMaxSize, final, inBlock, m0, failed0, order, mi0) && AllFinal(final, inBlock)
      modifies this
      ensures Valid() && mi <= |order| && ModOk(p, inBlock, m, failed) && (|vtx| > 0 ==> WithinLimits())
      ensures AllFinal(final, inBlock) && (stop ==> SomeFeeTooLow(p, nBlockMaxSize, final, minFee, inBlock, order))
      ensures !stop ==> Progress(p, nBlockMaxSize, final, inBlock, m, failed, order, mi)
      ensures stop || Outside(p, inBlock) < Outside(p, old(inBlock))
              || (inBlock == old(inBlock) && (mi == mi0 + 1 || (mi == mi0 && |m| < |m0|)))
    {
      hide Pool.Valid, Pool.Ancestors, Pool.Sum, BlockOk, Recorded, Counted, ModOk, UpdatedBy, NoWrap, Progress,
          Refused, Pool.Remaining, Pool.Package, SomeFeeTooLow;
      mi, m, failed, stop := mi0, m0, failed0, false;
      var iter, fUsingModified := NextCandidate(order, mi, m, modifiedWins);
      if !fUsingModified {
        assert order[mi] in Elements(order);
        mi := mi + 1;
      }
      var total := PackageTotal(iter, fUsingModified, m, failed);
      assert iter !in inBlock;
      FailedRefused(p, nBlockMaxSize, final, inBlock, m, failed, order, mi0, iter);
      if total.fee < minFee(total.size) {
        CutOff(p, nBlockMaxSize, final, minFee, inBlock, m0, failed0, order, mi0, iter, total);
        stop := true;
        return;
      }
      var added;
      m, failed, added := Consider(iter, fUsingModified, total, m, failed, final);
      InBlockKnown(p, vtx);
      ProgressRound(p, nBlockMaxSize, final, old(inBlock), m0, failed0, order, mi0, inBlock, m, failed, mi, iter);
    }

    /** The packages affected by what is in the block from the start: nothing is. */
    method Start() returns (m: ModMap)
      requires Valid() && |vtx| == 0
      ensures ModOk(p, inBlock, m, {})
    {
      hide Pool.Valid, Pool.Ancestors, Pool.Sum, BlockOk, Recorded, Counted, ModOk, UpdatedBy;
      var none: ModMap := map[];
      assert inBlock == {};
      m := UpdatePackagesForAdded(p, inBlock, none);
      ModStart(p, m);
    }

    /** The next entry of the index, or the best modified one if that wins or the index is exhausted. */
    method NextCandidate(order: seq<Tx>, mi: nat, m: ModMap, modifiedWins: (Tx, Tx) -> bool) returns (iter: Tx,
        fUsingModified: bool)
      requires mi <= |order| && (mi < |order| || m != map[])
      ensures if fUsingModified then iter in m else mi < |order| && iter == order[mi]
    {
      if mi == |order| {
        iter := AnyKey(m);
        fUsingModified := true;
      } else {
        iter := order[mi];
        fUsingModified := false;
        if m != map[] {
          var best := AnyKey(m);
          if modifiedWins(best, iter) {
            iter := best;
            fUsingModified := true;
          }
        }
      }
    }

    /** Try one package. A failed modified entry is taken out and remembered; a package that fits and
        is final goes into the block. */
    method Consider(iter: Tx, fUsingModified: bool, total: Total, m0: ModMap, failed0: set<Tx>, final: Tx -> bool)
      returns (m: ModMap, failed: set<Tx>, added: bool)
      requires Valid() && ModOk(p, inBlock, m0, failed0) && (|vtx| > 0 ==> WithinLimits())
      requires iter in p.entries && iter !in inBlock && total.Covers(p.Remaining(iter, inBlock)) &&
          (fUsingModified ==> iter in m0)
      requires AllFinal(final, inBlock) &&
          (total == p.Remaining(iter, inBlock) || Refused(p, nBlockMaxSize, final, inBlock, iter))
      modifies this
      ensures Valid() && ModOk(p, inBlock, m, failed) && (|vtx| > 0 ==> WithinLimits())
      ensures AllFinal(final, inBlock) && old(inBlock) <= inBlock
      ensures added ==> inBlock == old(inBlock) + p.Package(iter, old(inBlock))
      ensures added ==> Outside(p, inBlock) < Outside(p, old(inBlock))
      ensures !added ==> inBlock == old(inBlock) && vtx == old(vtx) && if fUsingModified then |m| < |m0| &&
          failed == failed0 + {iter} else m == m0
      ensures m0.Keys <= m.Keys + inBlock + {iter} && failed <= failed0 + {iter}
      ensures if added then iter in inBlock && failed == failed0
              else Refused(p, nBlockMaxSize, final, inBlock, iter) && (fUsingModified || failed == failed0)
    {
      hide Pool.Valid, Pool.Ancestors, Pool.Sum, BlockOk, Recorded, Counted, ModOk, UpdatedBy, NoWrap;
      m, failed, added := m0, failed0, false;
      InBlockKnown(p, vtx);
      CountersAre(p, inBlock, Total(nBlockSize, nBlockSigOps, nFees));
      if !TestPackage(total.size, total.sigOps) {
        assert Refused(p, nBlockMaxSize, final, inBlock, iter);
        if fUsingModified {
          m, failed := Fail(iter, m, failed);
        }
        return;
      }
      var ancestors := OnlyUnconfirmed(p.Ancestors(iter));
      ancestors := ancestors + {iter};
      assert ancestors == p.Package(iter, inBlock);
      var isFinal := TestPackageFinality(ancestors, final);
      if !isFinal {
        assert Refused(p, nBlockMaxSize, final, inBlock, iter);
        if fUsingModified {
          m, failed := Fail(iter, m, failed);
        }
        return;
      }
      m := Include(iter, ancestors, m, failed);
      added := true;
    }

    method Fail(iter: Tx, m0: ModMap, failed0: set<Tx>) returns (m: ModMap, failed: set<Tx>)
      requires p.Valid() && ModOk(p, inBlock, m0, failed0) && iter in m0
      ensures ModOk(p, inBlock, m, failed) && |m| < |m0| && failed == failed0 + {iter} && m.Keys == m0.Keys - {iter}
    {
      hide Pool.Valid, Pool.Ancestors, Pool.Sum, ModOk;
      ModFailed(p, inBlock, m0, failed0, iter);
      m := m0 - {iter};
      failed := failed0 + {iter};
      assert m.Keys == m0.Keys - {iter};
    }

    /** The totals used to judge a package: never less than what is left of it, and exact unless it has
        failed before. */
    method PackageTotal(iter: Tx, fUsingModified: bool, m: ModMap, ghost failed: set<Tx>) returns (total: Total)
      requires Valid() && ModOk(p, inBlock, m, failed)
      requires if fUsingModified then iter in m else iter in p.entries && !SkipMapTxEntry(iter, m, failed)
      ensures iter in p.entries && iter !in inBlock && total.Covers(p.Remaining(iter, inBlock))
      ensures iter !in failed ==> total == p.Remaining(iter, inBlock)
    {
      hide Pool.Valid, Pool.Ancestors, Pool.Sum, BlockOk, Recorded, Counted;
      assert EntryOk(p, inBlock, m, failed, iter) && StaleKnown(p, inBlock, m, failed, iter);
      if fUsingModified {
        total := m[iter];
      } else {
        CachedIsExact(p, inBlock, iter);
        total := FullTotal(p, iter);
      }
    }

    /** Put a package that fits into the block and update every package that depends on it. */
    method Include(iter: Tx, ancestors: set<Tx>, m0: ModMap, ghost failed: set<Tx>) returns (m: ModMap)
      requires Valid() && ModOk(p, inBlock, m0, failed) && iter in p.entries && iter !in inBlock
      requires ancestors == p.Package(iter, inBlock)
      requires TestPackage(p.Remaining(iter, inBlock).size, p.Remaining(iter, inBlock).sigOps)
      modifies this
      ensures Valid() && ModOk(p, inBlock, m, failed) && WithinLimits() && |vtx| > 0
      ensures inBlock == old(inBlock) + ancestors && old(vtx) <= vtx && iter in inBlock
      ensures Outside(p, inBlock) < Outside(p, old(inBlock)) && m0.Keys <= m.Keys + inBlock
    {
      hide Pool.Valid, Pool.Ancestors, Pool.Sum, BlockOk, Recorded, Counted, ModOk, UpdatedBy, NoWrap, Closed, Elements;
      ghost var start := inBlock;
      BlockIsClosed(p, vtx);
      p.AncestorsKnown(iter);
      NoWrapAfter(p, inBlock, ancestors, m0, failed);
      m := AddPackage(iter, ancestors, m0);
      ghost var left := m;
      m := UpdatePackagesForAdded(p, ancestors, m);
      KeysKept(p, left, m, ancestors);
      ModAfter(p, start, ancestors, m0, m, failed);
      FewerLeft(p, start, ancestors, iter);
      SomethingIn(vtx, iter);
    }
  }
}
