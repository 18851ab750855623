/**
 The block index and the active chain (src/chain.h, src/chain.cpp). Blocks form a tree through pprev;
 pskip jumps to an older ancestor, and CChain keeps the path from the genesis block to its tip.
 */
module Chain {
  import opened Power

  // ----- heights -----

  /** Bitwise and of two naturals. */
  function BitAnd(a: nat, b: nat): nat {
    if a == 0 || b == 0 then 0 else (if a % 2 == 1 && b % 2 == 1 then 1 else 0) + 2 * BitAnd(a / 2, b / 2)
  }

  function InvertLowestOne(n: nat): nat {
    if n == 0 then 0 else BitAnd(n, n - 1)
  }

  function GetSkipHeight(height: int): (r: nat)
    ensures height > 0 ==> r < height
    ensures height <= 0 ==> r == 0
  {
    InvertBelow(height);
    if height < 2 then 0
    else if height % 2 == 1 then InvertLowestOne(InvertLowestOne(height - 1)) + 1
    else InvertLowestOne(height)
  }

  lemma {:induction false} BitAndSame(n: nat)
    ensures BitAnd(n, n) == n
  {
    if n > 0 {
      BitAndSame(n / 2);
    }
  }

  /** n & (n - 1) is n with its lowest one cleared: 2^k * (2m + 1) becomes 2^k * 2m. */
  lemma {:induction false} InvertClearsLowestOne(n: nat)
    requires n > 0
    ensures n % 2 == 1 ==> InvertLowestOne(n) == n - 1
    ensures n % 2 == 0 ==> InvertLowestOne(n) == 2 * InvertLowestOne(n / 2)
  {
    if n % 2 == 1 {
      BitAndSame(n / 2);
      assert (n - 1) / 2 == n / 2;
    } else {
      assert (n - 1) / 2 == n / 2 - 1;
    }
  }

  lemma {:induction false} InvertLess(n: nat)
    ensures n > 0 ==> InvertLowestOne(n) < n
    ensures n % 2 == 0 ==> InvertLowestOne(n) % 2 == 0
  {
    if n > 0 {
      InvertClearsLowestOne(n);
      hide InvertLowestOne;
      if n % 2 == 0 {
        var k := n / 2;
        assert n == 2 * k;
        InvertLess(k);
      }
    }
  }

  lemma InvertBelow(height: int)
    ensures height >= 2 && height % 2 == 0 ==> InvertLowestOne(height) < height
    ensures height >= 2 && height % 2 == 1 ==> InvertLowestOne(InvertLowestOne(height - 1)) + 1 < height
  {
    if height >= 2 {
      if height % 2 == 0 {
        InvertLess(height);
      } else {
        InvertLess(height - 1);
        InvertLess(InvertLowestOne(height - 1));
      }
    }
  }

  // ----- the block tree -----

  class BlockIndex {
    const hash: nat
    var pprev: BlockIndex?
    var pskip: BlockIndex?
    var nHeight: int

    constructor (hash: nat)
      ensures this.hash == hash && pprev == null && pskip == null && nHeight == 0
    {
      this.hash := hash;
      pprev, pskip, nHeight := null, null, 0;
    }

    /** GetAncestor finds what walking pprev down to the height finds. */
    method GetAncestor(height: int, ghost S: set<BlockIndex>) returns (r: BlockIndex?)
      requires Linked(S) && this in S && SkipsUpTo(S, nHeight)
      ensures height < 0 || height > nHeight ==> r == null
      ensures 0 <= height <= nHeight ==> r != null && r in S && r.nHeight == height && r == Ancestor(S, this, height)
    {
      if height > nHeight || height < 0 {
        return null;
      }
      var pindexWalk, heightWalk := this, nHeight;
      while heightWalk > height
        invariant height <= heightWalk <= nHeight
        invariant pindexWalk in S && pindexWalk.nHeight == heightWalk
        invariant Ancestor(S, pindexWalk, height) == Ancestor(S, this, height)
        decreases heightWalk
      {
        var heightSkip, heightSkipPrev := GetSkipHeight(heightWalk), GetSkipHeight(heightWalk - 1);
        SkipFacts(S, pindexWalk, nHeight);
        if heightSkip == height ||
          (heightSkip > height && !(heightSkipPrev < heightSkip - 2 && heightSkipPrev >= height))
        {
          AncestorOfAncestor(S, pindexWalk, heightSkip, height);
          pindexWalk := pindexWalk.pskip;
          heightWalk := heightSkip;
        } else {
          pindexWalk := pindexWalk.pprev;
          heightWalk := heightWalk - 1;
        }
      }
      r := pindexWalk;
    }

    /** Puts a new block on top of prev. */
    method Attach(prev: BlockIndex, ghost S: set<BlockIndex>)
      requires Linked(S) && AllSkips(S) && prev in S && this !in S && pskip == null
      modifies this
      ensures pprev == prev && nHeight == prev.nHeight + 1
      ensures Linked(S) && AllSkips(S) && Linked(S + {this}) && SkipOk(S + {this}, this)
    {
      hide Linked, AllSkips, SkipOk;
      pprev := prev;
      nHeight := pprev.nHeight + 1;
      HeightAt(S, prev);
      Grown(S, this);
      SkipsBelowNew(S, this);
      BuildSkip(S + {this});
    }

    method BuildSkip(ghost S: set<BlockIndex>)
      requires Linked(S) && this in S && SkipsUpTo(S, nHeight - 1) && (pprev == null ==> pskip == null)
      modifies this`pskip
      ensures SkipOk(S, this)
    {
      if pprev != null {
        pskip := pprev.GetAncestor(GetSkipHeight(nHeight), S);
      }
    }
  }

  ghost predicate LinkOk(S: set<BlockIndex>, b: BlockIndex)
    reads S`pprev, S`nHeight, b`pprev, b`nHeight
  {
    && b.nHeight >= 0
    && (b.pprev == null <==> b.nHeight == 0)
    && (b.pprev != null ==> b.pprev in S && b.pprev.nHeight == b.nHeight - 1)
  }

  /** S is closed under pprev, and heights count the steps to a block without predecessor. */
  ghost predicate Linked(S: set<BlockIndex>)
    reads S`pprev, S`nHeight
  {
    forall b :: b in S ==> LinkOk(S, b)
  }

  /** The block reached by walking pprev down to height h. */
  ghost function Ancestor(S: set<BlockIndex>, b: BlockIndex, h: int): (r: BlockIndex)
    requires Linked(S) && b in S && 0 <= h <= b.nHeight
    reads S`pprev, S`nHeight
    ensures r in S && r.nHeight == h
    decreases b.nHeight
  {
    assert LinkOk(S, b);
    if b.nHeight == h then b else Ancestor(S, b.pprev, h)
  }

  ghost predicate SkipOk(S: set<BlockIndex>, b: BlockIndex)
    requires Linked(S) && b in S
    reads S`pprev, S`nHeight, b`pskip
  {
    assert LinkOk(S, b);
    b.pskip == if b.pprev == null then null else Ancestor(S, b, GetSkipHeight(b.nHeight))
  }

  ghost predicate SkipsUpTo(S: set<BlockIndex>, h: int)
    requires Linked(S)
    reads S
  {
    forall b :: b in S && b.nHeight <= h ==> SkipOk(S, b)
  }

  lemma SkipFacts(S: set<BlockIndex>, b: BlockIndex, h: int)
    requires Linked(S) && b in S && SkipsUpTo(S, h) && 0 < b.nHeight <= h
    ensures b.pprev != null && b.pprev in S && b.pprev.nHeight == b.nHeight - 1
    ensures GetSkipHeight(b.nHeight) < b.nHeight
    ensures b.pskip == Ancestor(S, b, GetSkipHeight(b.nHeight))
  {
    assert LinkOk(S, b) && SkipOk(S, b);
  }

  lemma {:induction false} AncestorOfAncestor(S: set<BlockIndex>, b: BlockIndex, h: int, g: int)
    requires Linked(S) && b in S && 0 <= g <= h <= b.nHeight
    ensures Ancestor(S, Ancestor(S, b, h), g) == Ancestor(S, b, g)
    decreases b.nHeight
  {
    assert LinkOk(S, b);
    if b.nHeight > h {
      AncestorOfAncestor(S, b.pprev, h, g);
    }
  }

  lemma {:induction false} AncestorInLarger(S: set<BlockIndex>, T: set<BlockIndex>, b: BlockIndex, h: int)
    requires S <= T && Linked(S) && Linked(T) && b in S && 0 <= h <= b.nHeight
    ensures Ancestor(T, b, h) == Ancestor(S, b, h)
    decreases b.nHeight
  {
    assert LinkOk(S, b);
    if b.nHeight > h {
      AncestorInLarger(S, T, b.pprev, h);
    }
  }

  /** mapBlockIndex: the blocks by hash. */
  class BlockMap {
    var blocks: map<nat, BlockIndex>

    ghost function Blocks(): set<BlockIndex>
      reads this
    {
      blocks.Values
    }

    ghost predicate Valid()
      reads this, Blocks()
    {
      Linked(Blocks()) && AllSkips(Blocks())
    }

    constructor ()
      ensures Valid() && blocks == map[]
    {
      blocks := map[];
    }

    /** A new block extends the tree at the block it names, with its skip pointer in place. */
    method AddToBlockIndex(hash: nat, hashPrevBlock: nat) returns (r: BlockIndex)
      requires Valid() && hash != hashPrevBlock
      modifies this
      ensures Valid()
      ensures hash in old(blocks) ==> blocks == old(blocks) && r == blocks[hash]
      ensures hash !in old(blocks) ==> fresh(r) && blocks == old(blocks)[hash := r] && r.hash == hash
      ensures hash !in old(blocks) && hashPrevBlock in old(blocks) ==>
        r.pprev == old(blocks)[hashPrevBlock] && r.nHeight == r.pprev.nHeight + 1
      ensures hash !in old(blocks) && hashPrevBlock !in old(blocks) ==> r.pprev == null && r.nHeight == 0
    {
      hide Linked, AllSkips, SkipOk;
      if hash in blocks {
        return blocks[hash];
      }
      ghost var S := Blocks();
      r := new BlockIndex(hash);
      NewValue(blocks, hash, r);
      blocks := blocks[hash := r];
      if hashPrevBlock in blocks {
        var prev := blocks[hashPrevBlock];
        assert prev in S;
        r.Attach(prev, S);
      } else {
        RootOk(S, r);
      }
      SkipsInLarger(S, r);
    }

    /** LoadBlockIndexDB: one pass in order of height rebuilds every skip pointer. */
    method RebuildSkips(vSortedByHeight: seq<BlockIndex>)
      requires Linked(Blocks())
      requires SortedBlocks(Blocks(), vSortedByHeight)
      requires forall b :: b in Blocks() ==> b.pskip == null
      modifies Blocks()`pskip
      ensures Valid()
    {
      hide Linked, SortedBlocks, Rebuilt, AllSkips;
      ghost var S := Blocks();
      StartRebuild(S, vSortedByHeight);
      var i := 0;
      while i < |vSortedByHeight|
        invariant 0 <= i <= |vSortedByHeight|
        invariant Linked(S) && SortedBlocks(S, vSortedByHeight) && Rebuilt(S, vSortedByHeight, i)
      {
        InOrder(S, vSortedByHeight, i);
        RebuildOne(vSortedByHeight, i, S);
        i := i + 1;
      }
      RebuiltAll(S, vSortedByHeight);
    }
  }

  ghost predicate AllSkips(S: set<BlockIndex>)
    requires Linked(S)
    reads S
  {
    forall b :: b in S ==> SkipOk(S, b)
  }

  ghost predicate SortedBlocks(S: set<BlockIndex>, v: seq<BlockIndex>)
    reads S`nHeight
  {
    && (forall b :: b in S ==> b in v)
    && (forall i :: 0 <= i < |v| ==> v[i] in S)
    && (forall i, j :: 0 <= i < j < |v| ==> v[i].nHeight <= v[j].nHeight)
  }

  /** Blocks at positions below i have their skip pointer. */
  ghost predicate Rebuilt(S: set<BlockIndex>, v: seq<BlockIndex>, i: nat)
    requires Linked(S) && SortedBlocks(S, v) && i <= |v|
    reads S
  {
    && (forall j :: 0 <= j < i ==> SkipOk(S, v[j]))
    && (forall b :: b in S && b.pprev == null ==> b.pskip == null)
  }

  lemma NextInOrder(S: set<BlockIndex>, v: seq<BlockIndex>, i: nat)
    requires Linked(S) && SortedBlocks(S, v) && i < |v| && Rebuilt(S, v, i)
    ensures v[i] in S && SkipsUpTo(S, v[i].nHeight - 1)
    ensures v[i].pprev == null ==> v[i].pskip == null
  {
    forall b | b in S && b.nHeight <= v[i].nHeight - 1
      ensures SkipOk(S, b)
    {
      var j :| 0 <= j < |v| && v[j] == b;
      assert j < i;
    }
  }

  lemma HeightAt(S: set<BlockIndex>, b: BlockIndex)
    requires Linked(S) && b in S
    ensures b.nHeight >= 0
  {
    assert LinkOk(S, b);
  }

  lemma SkipsBelowNew(S: set<BlockIndex>, r: BlockIndex)
    requires Linked(S) && AllSkips(S) && r !in S && Linked(S + {r})
    ensures SkipsUpTo(S + {r}, r.nHeight - 1)
  {
    var T := S + {r};
    forall b | b in T && b.nHeight <= r.nHeight - 1
      ensures SkipOk(T, b)
    {
      assert SkipOk(S, b) && LinkOk(S, b);
      if b.pprev != null {
        AncestorInLarger(S, T, b, GetSkipHeight(b.nHeight));
      }
    }
  }

  lemma StartRebuild(S: set<BlockIndex>, v: seq<BlockIndex>)
    requires Linked(S) && SortedBlocks(S, v) && forall b :: b in S ==> b.pskip == null
    ensures Rebuilt(S, v, 0)
  {
  }

  lemma InOrder(S: set<BlockIndex>, v: seq<BlockIndex>, i: nat)
    requires SortedBlocks(S, v) && i < |v|
    ensures v[i] in S
  {
  }

  method RebuildOne(v: seq<BlockIndex>, i: nat, ghost S: set<BlockIndex>)
    requires Linked(S) && SortedBlocks(S, v) && i < |v| && Rebuilt(S, v, i)
    modifies {v[i]}`pskip
    ensures Linked(S) && SortedBlocks(S, v) && Rebuilt(S, v, i + 1)
  {
    hide Linked, SkipOk;
    var pindex := v[i];
    NextInOrder(S, v, i);
    if pindex.pprev != null {
      pindex.BuildSkip(S);
    } else {
      RootSkip(S, pindex);
    }
  }

  lemma RootSkip(S: set<BlockIndex>, b: BlockIndex)
    requires Linked(S) && b in S && b.pprev == null && b.pskip == null
    ensures SkipOk(S, b)
  {
  }

  lemma RebuiltAll(S: set<BlockIndex>, v: seq<BlockIndex>)
    requires Linked(S) && SortedBlocks(S, v) && Rebuilt(S, v, |v|)
    ensures AllSkips(S)
  {
    forall b | b in S
      ensures SkipOk(S, b)
    {
      var j :| 0 <= j < |v| && v[j] == b;
    }
  }

  lemma RootOk(S: set<BlockIndex>, r: BlockIndex)
    requires Linked(S) && r !in S && r.pprev == null && r.pskip == null && r.nHeight == 0
    ensures Linked(S + {r}) && SkipOk(S + {r}, r)
  {
    Grown(S, r);
  }

  lemma SkipsInLarger(S: set<BlockIndex>, r: BlockIndex)
    requires Linked(S) && AllSkips(S) && r !in S && Linked(S + {r}) && SkipOk(S + {r}, r)
    ensures AllSkips(S + {r})
  {
    var T := S + {r};
    forall b | b in T
      ensures SkipOk(T, b)
    {
      if b != r {
        assert SkipOk(S, b) && LinkOk(S, b);
        if b.pprev != null {
          AncestorInLarger(S, T, b, GetSkipHeight(b.nHeight));
        }
      }
    }
  }

  lemma NewValue(m: map<nat, BlockIndex>, k: nat, b: BlockIndex)
    requires k !in m
    ensures m[k := b].Values == m.Values + {b}
  {
    var n := m[k := b];
    assert n[k] == b;
    forall x | x in m.Values
      ensures x in n.Values
    {
      var j :| j in m && m[j] == x;
      assert n[j] == x;
    }
  }

  lemma Grown(S: set<BlockIndex>, r: BlockIndex)
    requires Linked(S) && r !in S && r.nHeight >= 0
    requires r.pprev == null <==> r.nHeight == 0
    requires r.pprev != null ==> r.pprev in S && r.pprev.nHeight == r.nHeight - 1
    ensures Linked(S + {r})
  {
    forall b | b in S + {r}
      ensures LinkOk(S + {r}, b)
    {
      if b != r {
        assert LinkOk(S, b);
      }
    }
  }

  // ----- the active chain -----

  ghost predicate IsAncestor(S: set<BlockIndex>, a: BlockIndex, b: BlockIndex?)
    requires Linked(S) && (b == null || b in S)
    reads S`pprev, S`nHeight
  {
    b != null && a in S && 0 <= a.nHeight <= b.nHeight && Ancestor(S, b, a.nHeight) == a
  }

  /** r is the highest block that is an ancestor of both x and y, null if there is none. */
  ghost predicate IsMeet(S: set<BlockIndex>, x: BlockIndex?, y: BlockIndex?, r: BlockIndex?)
    requires Linked(S) && (x == null || x in S) && (y == null || y in S)
    reads S`pprev, S`nHeight
  {
    && (r != null ==> IsAncestor(S, r, x) && IsAncestor(S, r, y))
    && (forall b :: b in S && IsAncestor(S, b, x) && IsAncestor(S, b, y) ==> r != null && b.nHeight <= r.nHeight)
  }

  lemma AncestorTransitive(S: set<BlockIndex>, a: BlockIndex, b: BlockIndex, c: BlockIndex?)
    requires Linked(S) && b in S && (c == null || c in S) && IsAncestor(S, a, b) && IsAncestor(S, b, c)
    ensures IsAncestor(S, a, c)
  {
    AncestorOfAncestor(S, c, b.nHeight, a.nHeight);
  }

  /** Two ancestors of one block are ancestors of each other, by height. */
  lemma AncestorsOrdered(S: set<BlockIndex>, a: BlockIndex, b: BlockIndex, c: BlockIndex?)
    requires Linked(S) && (c == null || c in S) && IsAncestor(S, a, c) && IsAncestor(S, b, c) && a.nHeight <= b.nHeight
    ensures IsAncestor(S, a, b)
  {
    AncestorOfAncestor(S, c, b.nHeight, a.nHeight);
  }

  /** The blocks two chains share are exactly the ancestors of their meet. */
  lemma MeetDecides(S: set<BlockIndex>, x: BlockIndex?, y: BlockIndex?, r: BlockIndex?, b: BlockIndex)
    requires Linked(S) && (x == null || x in S) && (y == null || y in S) && IsMeet(S, x, y, r) && b in S
    ensures IsAncestor(S, b, x) && IsAncestor(S, b, y) <==> r != null && IsAncestor(S, b, r)
  {
    hide Linked, IsAncestor;
    if r != null && IsAncestor(S, r, x) {
      MeetInside(S, x, r);
      if IsAncestor(S, b, r) {
        AncestorTransitive(S, b, r, x);
        AncestorTransitive(S, b, r, y);
      } else if IsAncestor(S, b, x) && IsAncestor(S, b, y) {
        AncestorsOrdered(S, b, r, x);
      }
    }
  }

  lemma MeetInside(S: set<BlockIndex>, x: BlockIndex?, r: BlockIndex)
    requires Linked(S) && (x == null || x in S) && IsAncestor(S, r, x)
    ensures r in S
  {
  }

  /** The path of blocks from height 0 to tip. */
  ghost predicate PathTo(S: set<BlockIndex>, v: seq<BlockIndex?>, tip: BlockIndex?)
    requires Linked(S)
    reads S`pprev, S`nHeight
  {
    if tip == null then v == []
    else tip in S && |v| == tip.nHeight + 1 && forall i :: 0 <= i < |v| ==> v[i] == Ancestor(S, tip, i)
  }

  function Last(v: seq<BlockIndex?>): BlockIndex? {
    if v == [] then null else v[|v| - 1]
  }

  function Resized(v: seq<BlockIndex?>, n: nat): (r: seq<BlockIndex?>)
    ensures |r| == n && forall i :: 0 <= i < n ==> r[i] == if i < |v| then v[i] else null
  {
    seq(n, i requires 0 <= i => if i < |v| then v[i] else null)
  }

  /** SetTip at p: above p the path to tip is written, up to p the previous chain remains. */
  ghost predicate Filling(S: set<BlockIndex>, v: seq<BlockIndex?>, was: seq<BlockIndex?>, tip: BlockIndex,
      p: BlockIndex?)
    requires Linked(S) && tip in S
    reads S`pprev, S`nHeight
  {
    && |v| == tip.nHeight + 1
    && (p != null ==> IsAncestor(S, p, tip))
    && (forall i :: 0 <= i < |v| && (p == null || p.nHeight < i) ==> v[i] == Ancestor(S, tip, i))
    && (forall i :: 0 <= i < |v| && p != null && i <= p.nHeight ==> v[i] == Kept(was, i))
  }

  function Kept(was: seq<BlockIndex?>, i: nat): BlockIndex? {
    if i < |was| then was[i] else null
  }

  lemma StartFill(S: set<BlockIndex>, was: seq<BlockIndex?>, tip: BlockIndex)
    requires Linked(S) && tip in S && tip.nHeight >= 0
    ensures Filling(S, Resized(was, tip.nHeight + 1), was, tip, tip)
  {
  }

  lemma FillStep(S: set<BlockIndex>, v: seq<BlockIndex?>, was: seq<BlockIndex?>, tip: BlockIndex, p: BlockIndex)
    requires Linked(S) && tip in S && p in S && Filling(S, v, was, tip, p)
    ensures 0 <= p.nHeight < |v| && Filling(S, v[p.nHeight := p], was, tip, p.pprev)
    ensures p.pprev != null ==> p.pprev in S && 0 <= p.pprev.nHeight == p.nHeight - 1
  {
    assert LinkOk(S, p);
    StepDown(S, p, tip);
  }

  lemma FillingSize(S: set<BlockIndex>, v: seq<BlockIndex?>, was: seq<BlockIndex?>, tip: BlockIndex, p: BlockIndex?)
    requires Linked(S) && tip in S && Filling(S, v, was, tip, p)
    ensures |v| == tip.nHeight + 1
  {
  }

  lemma Filled(S: set<BlockIndex>, v: seq<BlockIndex?>, was: seq<BlockIndex?>, tip: BlockIndex, p: BlockIndex?)
    requires Linked(S) && tip in S && Filling(S, v, was, tip, p) && PathTo(S, was, Last(was))
    requires p != null ==> p in S && 0 <= p.nHeight < |v| && v[p.nHeight] == p
    ensures PathTo(S, v, tip) && v != [] && Last(v) == tip
  {
    HeightAt(S, tip);
    if p != null {
      assert v[p.nHeight] == Kept(was, p.nHeight);
      EarlyStop(S, was, p, tip);
      assert forall i :: 0 <= i <= p.nHeight ==> v[i] == Kept(was, i);
    }
  }

  lemma StepDown(S: set<BlockIndex>, p: BlockIndex, tip: BlockIndex)
    requires Linked(S) && tip in S && p in S && IsAncestor(S, p, tip)
    ensures p.pprev != null ==> p.pprev in S && p.pprev.nHeight == p.nHeight - 1 && IsAncestor(S, p.pprev, tip)
    ensures p.pprev == null <==> p.nHeight == 0
  {
    assert LinkOk(S, p);
    if p.pprev != null {
      AncestorOfAncestor(S, tip, p.nHeight, p.nHeight - 1);
      assert LinkOk(S, p.pprev);
    }
  }

  lemma EarlyStop(S: set<BlockIndex>, was: seq<BlockIndex?>, p: BlockIndex, tip: BlockIndex)
    requires Linked(S) && tip in S && p in S && IsAncestor(S, p, tip)
    requires PathTo(S, was, Last(was)) && p.nHeight < |was| && was[p.nHeight] == p
    ensures forall i :: 0 <= i <= p.nHeight ==> was[i] == Ancestor(S, tip, i)
  {
    forall i | 0 <= i <= p.nHeight
      ensures was[i] == Ancestor(S, tip, i)
    {
      AncestorOfAncestor(S, tip, p.nHeight, i);
      AncestorOfAncestor(S, Last(was), p.nHeight, i);
    }
  }

  class ActiveChain {
    var vChain: seq<BlockIndex?>

    ghost predicate Valid(S: set<BlockIndex>)
      reads this, S`pprev, S`nHeight
    {
      Linked(S) && PathTo(S, vChain, Last(vChain)) && (vChain != [] ==> Last(vChain) != null)
    }

    constructor (ghost S: set<BlockIndex>)
      requires Linked(S)
      ensures Valid(S) && vChain == []
    {
      vChain := [];
    }

    function Tip(): BlockIndex?
      reads this
    {
      Last(vChain)
    }

    function Height(): int
      reads this
    {
      |vChain| - 1
    }

    /** operator[] */
    function At(nHeight: int): BlockIndex?
      reads this
    {
      if nHeight < 0 || nHeight >= |vChain| then null else vChain[nHeight]
    }

    predicate Contains(pindex: BlockIndex)
      reads this, pindex
    {
      At(pindex.nHeight) == pindex
    }

    function Next(pindex: BlockIndex): BlockIndex?
      reads this, pindex
    {
      if Contains(pindex) then At(pindex.nHeight + 1) else null
    }

    lemma ContainsAncestors(S: set<BlockIndex>, b: BlockIndex)
      requires Valid(S) && b in S
      ensures Contains(b) <==> IsAncestor(S, b, Tip())
    {
      assert LinkOk(S, b);
    }

    /** Next is the block of this chain whose predecessor is the given one. */
    lemma NextFollows(S: set<BlockIndex>, b: BlockIndex)
      requires Valid(S) && b in S
      ensures Contains(b) && b != Tip() ==> Next(b) != null && Next(b) in S && Next(b).pprev == b && Contains(Next(b))
      ensures !Contains(b) || b == Tip() ==> Next(b) == null
    {
      assert LinkOk(S, b);
      if Contains(b) && b != Tip() {
        var n := Next(b);
        assert n == Ancestor(S, Tip(), b.nHeight + 1);
        AncestorOfAncestor(S, Tip(), b.nHeight + 1, b.nHeight);
        assert LinkOk(S, n);
        assert Ancestor(S, n, b.nHeight) == n.pprev;
      }
    }

    /** Whatever chain was there, the early stop leaves exactly the new tip's ancestor path. */
    method SetTip(pindex: BlockIndex?, ghost S: set<BlockIndex>)
      requires Valid(S) && (pindex == null || pindex in S)
      modifies this
      ensures Valid(S) && Tip() == pindex && PathTo(S, vChain, pindex)
    {
      if pindex == null {
        vChain := [];
        return;
      }
      hide Linked, PathTo, Filling, Resized;
      HeightAt(S, pindex);
      ghost var was := vChain;
      vChain := Resized(vChain, pindex.nHeight + 1);
      StartFill(S, was, pindex);
      Fill(pindex, S, was);
    }

    method Fill(pindex: BlockIndex, ghost S: set<BlockIndex>, ghost was: seq<BlockIndex?>)
      requires Linked(S) && pindex in S && pindex.nHeight >= 0
      requires Filling(S, vChain, was, pindex, pindex) && PathTo(S, was, Last(was))
      modifies this
      ensures PathTo(S, vChain, pindex) && vChain != [] && Last(vChain) == pindex
    {
      hide Linked, PathTo, Filling;
      var p: BlockIndex? := pindex;
      FillingSize(S, vChain, was, pindex, p);
      while p != null && vChain[p.nHeight] != p
        invariant Filling(S, vChain, was, pindex, p)
        invariant p != null ==> p in S && 0 <= p.nHeight < |vChain|
        decreases if p == null then -1 else p.nHeight
      {
        FillStep(S, vChain, was, pindex, p);
        vChain := vChain[p.nHeight := p];
        p := p.pprev;
      }
      Filled(S, vChain, was, pindex, p);
    }

    /** The highest block of this chain that is an ancestor of pindex. */
    method FindFork(pindex: BlockIndex?, ghost S: set<BlockIndex>) returns (r: BlockIndex?)
      requires Valid(S) && AllSkips(S) && (pindex == null || pindex in S)
      ensures IsMeet(S, pindex, Tip(), r)
    {
      if pindex == null {
        return null;
      }
      HeightAt(S, pindex);
      r := pindex;
      if pindex.nHeight > Height() {
        r := pindex.GetAncestor(Height(), S);
      }
      StartAt(S, pindex, Tip(), r);
      r := WalkDown(pindex, r, S);
    }

    /** Follows pprev to the first block of this chain. */
    method WalkDown(ghost pindex: BlockIndex, p: BlockIndex?, ghost S: set<BlockIndex>) returns (r: BlockIndex?)
      requires Valid(S) && pindex in S && (p != null ==> p in S && p.nHeight >= 0) && NoneAbove(S, pindex, Tip(), p)
      ensures IsMeet(S, pindex, Tip(), r)
    {
      hide Valid, Linked, IsAncestor, NoneAbove, Tip;
      ValidTip(S);
      r := p;
      while r != null && !Contains(r)
        invariant r != null ==> r in S && r.nHeight >= 0
        invariant NoneAbove(S, pindex, Tip(), r)
        decreases if r == null then -1 else r.nHeight
      {
        ContainsAncestors(S, r);
        GoDown(S, pindex, Tip(), r);
        r := r.pprev;
      }
      if r != null {
        ContainsAncestors(S, r);
      }
      Met(S, pindex, Tip(), r);
    }

    lemma ValidTip(S: set<BlockIndex>)
      requires Valid(S)
      ensures Linked(S) && (Tip() == null || Tip() in S)
    {
    }

    /** Hashes of ancestors at heights that start at the block and thin out towards the genesis block. */
    method GetLocator(pindex: BlockIndex?, ghost S: set<BlockIndex>) returns (vHave: seq<nat>)
      requires Valid(S) && AllSkips(S) && (pindex == null || pindex in S)
      ensures pindex == null && Tip() == null ==> vHave == []
      ensures pindex == null && Tip() != null ==> Tip() in S && IsLocator(S, Tip(), vHave)
      ensures pindex != null ==> IsLocator(S, pindex, vHave)
    {
      hide IsLocator;
      var p := pindex;
      if p == null {
        p := Tip();
      }
      vHave := [];
      if p != null {
        vHave := LocatorFrom(p, S);
      }
    }

    method LocatorFrom(start: BlockIndex, ghost S: set<BlockIndex>) returns (vHave: seq<nat>)
      requires Valid(S) && AllSkips(S) && start in S
      ensures IsLocator(S, start, vHave)
    {
      hide Valid, AllSkips, Linked, Locating, IsLocator, IsAncestor, Tip, At, Last;
      ValidTip(S);
      HeightAt(S, start);
      StartLocator(S, start);
      var nStep, p := 1, start;
      vHave := [];
      while true
        invariant p in S && p.nHeight >= 0 && nStep >= 1
        invariant Locating(S, start, p, nStep, vHave)
        decreases p.nHeight
      {
        LocatingAt(S, start, p, nStep, vHave);
        ghost var had := vHave;
        vHave := vHave + [p.hash];
        if p.nHeight == 0 {
          break;
        }
        var nHeight := if p.nHeight - nStep > 0 then p.nHeight - nStep else 0;
        var q := Back(p, nHeight, S, start);
        LocatingNext(S, start, p, q, nStep, had);
        p := q;
        if |vHave| > 10 {
          nStep := nStep * 2;
        }
      }
    }

    /** One step back, through the chain where it holds the block and through the skip list elsewhere. */
    method Back(p: BlockIndex, nHeight: int, ghost S: set<BlockIndex>, ghost start: BlockIndex) returns (r: BlockIndex)
      requires Valid(S) && AllSkips(S) && p in S && start in S && 0 <= nHeight < p.nHeight && IsAncestor(S, p, start)
      ensures r in S && r.nHeight == nHeight && IsAncestor(S, r, start)
    {
      AncestorOfAncestor(S, start, p.nHeight, nHeight);
      if Contains(p) {
        ContainsAncestors(S, p);
        AncestorOfAncestor(S, Tip(), p.nHeight, nHeight);
        r := At(nHeight);
      } else {
        r := p.GetAncestor(nHeight, S);
      }
    }
  }

  /** p is an ancestor of x, and x and y share nothing above p. */
  ghost predicate NoneAbove(S: set<BlockIndex>, x: BlockIndex, y: BlockIndex?, p: BlockIndex?)
    requires Linked(S) && x in S && (y == null || y in S)
    reads S`pprev, S`nHeight
  {
    && (p != null ==> IsAncestor(S, p, x))
    && (forall b :: b in S && IsAncestor(S, b, x) && IsAncestor(S, b, y) ==> p != null && b.nHeight <= p.nHeight)
  }

  /** Nothing shared lies above the height of either block. */
  lemma StartAt(S: set<BlockIndex>, x: BlockIndex, y: BlockIndex?, p: BlockIndex?)
    requires Linked(S) && x in S && (y == null || y in S)
    requires p != null ==> IsAncestor(S, p, x) && (p.nHeight == x.nHeight || (y != null && p.nHeight == y.nHeight))
    requires p == null ==> y == null
    ensures NoneAbove(S, x, y, p)
  {
  }

  lemma GoDown(S: set<BlockIndex>, x: BlockIndex, y: BlockIndex?, p: BlockIndex)
    requires Linked(S) && x in S && (y == null || y in S) && p in S && NoneAbove(S, x, y, p) && !IsAncestor(S, p, y)
    ensures NoneAbove(S, x, y, p.pprev)
    ensures p.pprev == null <==> p.nHeight == 0
    ensures p.pprev != null ==> p.pprev in S && 0 <= p.pprev.nHeight == p.nHeight - 1
  {
    assert LinkOk(S, p);
    StepDown(S, p, x);
    forall b | b in S && IsAncestor(S, b, x) && IsAncestor(S, b, y)
      ensures p.pprev != null && b.nHeight <= p.pprev.nHeight
    {
      assert LinkOk(S, b);
      assert b.nHeight == p.nHeight ==> b == p;
    }
  }

  lemma Met(S: set<BlockIndex>, x: BlockIndex, y: BlockIndex?, r: BlockIndex?)
    requires Linked(S) && x in S && (y == null || y in S) && NoneAbove(S, x, y, r)
    requires r != null ==> IsAncestor(S, r, y)
    ensures IsMeet(S, x, y, r)
  {
  }

  lemma Apart(S: set<BlockIndex>, x: BlockIndex, y: BlockIndex, a: BlockIndex, b: BlockIndex)
    requires Linked(S) && x in S && y in S && NoneAbove(S, x, y, a) && NoneAbove(S, y, x, b)
    requires a.nHeight == b.nHeight && a != b
    ensures !IsAncestor(S, a, y) && !IsAncestor(S, b, x)
  {
  }

  lemma Together(S: set<BlockIndex>, x: BlockIndex, y: BlockIndex, r: BlockIndex?)
    requires Linked(S) && x in S && y in S && NoneAbove(S, x, y, r) && NoneAbove(S, y, x, r)
    ensures IsMeet(S, x, y, r)
  {
  }

  /** The highest block that is an ancestor of both; its assertion never fails. */
  method LastCommonAncestor(pa: BlockIndex, pb: BlockIndex, ghost S: set<BlockIndex>) returns (r: BlockIndex?)
    requires Linked(S) && AllSkips(S) && pa in S && pb in S
    ensures IsMeet(S, pa, pb, r)
  {
    HeightAt(S, pa);
    HeightAt(S, pb);
    var a: BlockIndex?, b: BlockIndex? := pa, pb;
    if a.nHeight > b.nHeight {
      a := a.GetAncestor(b.nHeight, S);
    } else if b.nHeight > a.nHeight {
      b := b.GetAncestor(a.nHeight, S);
    }
    StartAt(S, pa, pb, a);
    StartAt(S, pb, pa, b);
    r := WalkTogether(pa, pb, a, b, S);
  }

  method WalkTogether(ghost pa: BlockIndex, ghost pb: BlockIndex, a0: BlockIndex?, b0: BlockIndex?,
      ghost S: set<BlockIndex>)
    returns (r: BlockIndex?)
    requires Linked(S) && pa in S && pb in S
    requires a0 == null <==> b0 == null
    requires a0 != null && b0 != null ==> a0 in S && b0 in S && 0 <= a0.nHeight == b0.nHeight
    requires NoneAbove(S, pa, pb, a0) && NoneAbove(S, pb, pa, b0)
    ensures IsMeet(S, pa, pb, r)
  {
    hide Linked, NoneAbove, IsAncestor;
    var a, b := a0, b0;
    while a != b && a != null && b != null
      invariant a == null <==> b == null
      invariant a != null && b != null ==> a in S && b in S && 0 <= a.nHeight == b.nHeight
      invariant NoneAbove(S, pa, pb, a) && NoneAbove(S, pb, pa, b)
      decreases if a == null then -1 else a.nHeight
    {
      Apart(S, pa, pb, a, b);
      GoDown(S, pa, pb, a);
      GoDown(S, pb, pa, b);
      a, b := a.pprev, b.pprev;
    }
    assert a == b;
    Together(S, pa, pb, a);
    r := a;
  }

  // ----- what the skip heights are -----

  /** Clearing the lowest one, said with powers: 2^k * (2m + 1) becomes 2^k * 2m. */
  lemma {:induction false} InvertPower(k: nat, m: nat)
    ensures InvertLowestOne(Pow(2, k) * (2 * m + 1)) == Pow(2, k) * (2 * m)
  {
    var n := Pow(2, k) * (2 * m + 1);
    PowPositive(2, k);
    MulPositive(Pow(2, k), 2 * m + 1);
    if k == 0 {
      InvertClearsLowestOne(2 * m + 1);
    } else {
      InvertPower(k - 1, m);
      HalvePower(k, 2 * m + 1);
      HalvePower(k, 2 * m);
      InvertClearsLowestOne(n);
    }
  }

  lemma HalvePower(k: nat, x: nat)
    requires k > 0
    ensures Pow(2, k) * x == 2 * (Pow(2, k - 1) * x)
  {
    MulAssoc(2, Pow(2, k - 1), x);
  }

  /** An even height skips to the height with its lowest one cleared. */
  lemma SkipOfEven(k: nat, m: nat)
    requires k > 0
    ensures GetSkipHeight(Pow(2, k) * (2 * m + 1)) == Pow(2, k) * (2 * m)
  {
    EvenMultiple(k, 2 * m + 1);
    InvertPower(k, m);
  }

  lemma SkipAboveEven(h: nat)
    requires h > 0 && h % 2 == 0
    ensures GetSkipHeight(h + 1) == InvertLowestOne(InvertLowestOne(h)) + 1
  {}

  lemma EvenMultiple(k: nat, x: nat)
    requires k > 0 && x > 0
    ensures Pow(2, k) * x > 0 && Pow(2, k) * x % 2 == 0
  {
    HalvePower(k, x);
    PowPositive(2, k - 1);
    MulPositive(Pow(2, k - 1), x);
  }

  /** An odd height other than 1 skips to one above the even height below it with two ones cleared: from
      2^k * (2m + 1) + 1, where 2^k * 2m is 2^j * (2n + 1), to 2^j * 2n + 1. */
  lemma SkipOfOdd(k: nat, m: nat, j: nat, n: nat)
    requires k > 0 && Pow(2, k) * (2 * m) == Pow(2, j) * (2 * n + 1)
    ensures GetSkipHeight(Pow(2, k) * (2 * m + 1) + 1) == Pow(2, j) * (2 * n) + 1
  {
    hide GetSkipHeight, InvertLowestOne, Pow;
    EvenMultiple(k, 2 * m + 1);
    SkipAboveEven(Pow(2, k) * (2 * m + 1));
    InvertPower(k, m);
    InvertPower(j, n);
  }

  /** And to 1 if there is only one to clear. */
  lemma SkipOfPowerPlusOne(k: nat)
    requires k > 0
    ensures GetSkipHeight(Pow(2, k) + 1) == 1
  {
    EvenMultiple(k, 1);
    SkipAboveEven(Pow(2, k));
    InvertPower(k, 0);
  }

  // ----- locators -----

  /** The heights of a locator: size entries are there already, and step is the next distance. */
  function LocatorHeights(h: nat, size: nat, step: nat): seq<nat>
    requires step >= 1
    decreases h
  {
    if h == 0 then [0]
    else [h] + LocatorHeights(if h > step then h - step else 0, size + 1, if size + 1 > 10 then 2 * step else step)
  }

  ghost predicate HashesAt(S: set<BlockIndex>, b: BlockIndex, hs: seq<nat>, hashes: seq<nat>)
    requires Linked(S) && b in S
    reads S`pprev, S`nHeight
  {
    |hashes| == |hs| && forall i :: 0 <= i < |hs| ==> hs[i] <= b.nHeight && hashes[i] == Ancestor(S, b, hs[i]).hash
  }

  ghost predicate IsLocator(S: set<BlockIndex>, b: BlockIndex, hashes: seq<nat>)
    requires Linked(S) && b in S
    reads S`pprev, S`nHeight
  {
    b.nHeight >= 0 && HashesAt(S, b, LocatorHeights(b.nHeight, 0, 1), hashes)
  }

  /** A locator of start is finished by what a locator from p adds. */
  ghost predicate Locating(S: set<BlockIndex>, start: BlockIndex, p: BlockIndex, step: nat, hashes: seq<nat>)
    requires Linked(S) && start in S
    reads S`pprev, S`nHeight, p`nHeight
  {
    && IsAncestor(S, p, start) && step >= 1
    && var v := LocatorHeights(start.nHeight, 0, 1);
       |hashes| < |v| && HashesAt(S, start, v[..|hashes|], hashes) &&
           v[|hashes|..] == LocatorHeights(p.nHeight, |hashes|, step)
  }

  lemma StartLocator(S: set<BlockIndex>, start: BlockIndex)
    requires Linked(S) && start in S
    ensures Locating(S, start, start, 1, [])
  {
    HeightAt(S, start);
    LocatorDescends(start.nHeight, 0, 1);
  }

  lemma LocatingAt(S: set<BlockIndex>, start: BlockIndex, p: BlockIndex, step: nat, hashes: seq<nat>)
    requires Linked(S) && start in S && p in S && Locating(S, start, p, step, hashes)
    ensures IsAncestor(S, p, start)
    ensures p.nHeight == 0 ==> IsLocator(S, start, hashes + [p.hash])
  {
    if p.nHeight == 0 {
      LocatingPrefix(S, start, p, step, hashes);
      var v, n := LocatorHeights(start.nHeight, 0, 1), |hashes|;
      assert v[n..] == [0];
      assert v[..n + 1] == v;
    }
  }

  lemma LocatingPrefix(S: set<BlockIndex>, start: BlockIndex, p: BlockIndex, step: nat, hashes: seq<nat>)
    requires Linked(S) && start in S && p in S && Locating(S, start, p, step, hashes)
    ensures var v := LocatorHeights(start.nHeight, 0, 1);
      && HashesAt(S, start, v[..|hashes| + 1], hashes + [p.hash])
      && v[|hashes| + 1..] == LocatorHeights(p.nHeight, |hashes|, step)[1..]
  {
    var v := LocatorHeights(start.nHeight, 0, 1);
    var n := |hashes|;
    assert v[n] == v[n..][0] == p.nHeight;
    assert v[..n + 1] == v[..n] + [v[n]];
    assert HashesAt(S, start, v[..n + 1], hashes + [p.hash]);
    assert v[n + 1..] == v[n..][1..];
  }

  lemma LocatingNext(S: set<BlockIndex>, start: BlockIndex, p: BlockIndex, q: BlockIndex, step: nat, hashes: seq<nat>)
    requires Linked(S) && start in S && p in S && q in S && Locating(S, start, p, step, hashes)
    requires p.nHeight > 0 && IsAncestor(S, q, start) && q.nHeight == if p.nHeight > step then p.nHeight - step else 0
    ensures Locating(S, start, q, if |hashes| + 1 > 10 then 2 * step else step, hashes + [p.hash])
  {
    LocatingPrefix(S, start, p, step, hashes);
    LocatorDescends(q.nHeight, |hashes| + 1, if |hashes| + 1 > 10 then 2 * step else step);
    hide HashesAt;
    var rest := LocatorHeights(q.nHeight, |hashes| + 1, if |hashes| + 1 > 10 then 2 * step else step);
    assert LocatorHeights(p.nHeight, |hashes|, step) == [p.nHeight] + rest;
  }

  /** Strictly descending from the block to the genesis block. */
  lemma {:induction false} LocatorDescends(h: nat, size: nat, step: nat)
    requires step >= 1
    ensures var v := LocatorHeights(h, size, step);
      && v != [] && v[0] == h && v[|v| - 1] == 0 && forall i, j :: 0 <= i < j < |v| ==> v[i] > v[j]
    decreases h
  {
    if h > 0 {
      LocatorDescends(if h > step then h - step else 0, size + 1, if size + 1 > 10 then 2 * step else step);
    }
  }

  lemma {:induction false} DoublingLength(h: nat, size: nat, step: nat, k: nat)
    requires step >= 1 && size >= 10 && h + step <= step * Pow(2, k)
    ensures |LocatorHeights(h, size, step)| <= k + 1
    decreases h
  {
    if h > 0 {
      NextDoubling(h, step, k);
      DoublingLength(if h > step then h - step else 0, size + 1, 2 * step, k - 1);
    }
  }

  lemma NextDoubling(h: nat, step: nat, k: nat)
    requires step >= 1 && h > 0 && h + step <= step * Pow(2, k)
    ensures k > 0 && (if h > step then h - step else 0) + 2 * step <= (2 * step) * Pow(2, k - 1)
  {
    if k > 0 {
      var p := Pow(2, k - 1);
      PowPositive(2, k - 1);
      assert step * (2 * p) == (2 * step) * p;
      assert (2 * step) * p >= 2 * step;
    }
  }

  lemma {:induction false} UnitLength(h: nat, size: nat, k: nat)
    requires size <= 10 && h < Pow(2, k)
    ensures |LocatorHeights(h, size, 1)| <= k + 11 - size
    decreases 10 - size
  {
    if size == 10 {
      DoublingLength(h, 10, 1, k);
    } else if h > 0 {
      UnitLength(h - 1, size + 1, k);
    }
  }

  /** Logarithmic in the height. */
  lemma LocatorLength(h: nat, k: nat)
    requires h < Pow(2, k)
    ensures |LocatorHeights(h, 0, 1)| <= k + 11
  {
    UnitLength(h, 0, k);
  }

  /** From the twelfth entry on the distances are 2, 4, 8, ..., until the genesis block is reached. */
  lemma {:induction false} LocatorGaps(h: nat, size: nat, step: nat, i: nat)
    requires step >= 1 && size >= 11
    requires i + 1 < |LocatorHeights(h, size, step)|
    ensures var v := LocatorHeights(h, size, step);
      v[i + 1] == if v[i] > step * Pow(2, i) then v[i] - step * Pow(2, i) else 0
    decreases i
  {
    var rest := LocatorHeights(if h > step then h - step else 0, size + 1, 2 * step);
    assert LocatorHeights(h, size, step) == [h] + rest;
    LocatorDescends(if h > step then h - step else 0, size + 1, 2 * step);
    if i > 0 {
      LocatorGaps(if h > step then h - step else 0, size + 1, 2 * step, i - 1);
      MulAssoc(step, 2, Pow(2, i - 1));
    }
  }

  /** The whole shape: a locator from height h lists h, ..., h - 11, and then goes back by 2, 4, 8, ... */
  lemma {:induction false} LocatorTail(h: nat, size: nat)
    requires h >= 11 - size && size <= 10
    ensures var v := LocatorHeights(h, size, 1);
      |v| > 11 - size && v[11 - size..] == LocatorHeights(h - (11 - size), 11, 2)
    decreases 11 - size
  {
    var v := LocatorHeights(h, size, 1);
    if size == 10 {
      assert v == [h] + LocatorHeights(h - 1, 11, 2);
      LocatorDescends(h - 1, 11, 2);
    } else {
      var rest := LocatorHeights(h - 1, size + 1, 1);
      assert v == [h] + rest;
      LocatorTail(h - 1, size + 1);
      assert v[11 - size..] == rest[10 - size..];
    }
  }

  /** The first twelve entries are consecutive. */
  lemma {:induction false} LocatorDense(h: nat, size: nat, i: nat)
    requires size <= 10 && i <= h && i + size <= 11
    ensures i < |LocatorHeights(h, size, 1)| && LocatorHeights(h, size, 1)[i] == h - i
    decreases i
  {
    if i > 0 {
      if size == 10 {
        assert i == 1;
        assert LocatorHeights(h, size, 1) == [h] + LocatorHeights(h - 1, 11, 2);
      } else {
        LocatorDense(h - 1, size + 1, i - 1);
      }
    }
  }
}
