/**
 CDBTransaction (src/dbwrapper.h): pending writes and deletes over a parent, committed into a target,
 and an iterator that merges the pending writes with the parent's keys. Parent and target are a store
 or another transaction, so transactions nest to any depth, as they do in src/evo/evodb.h.
 */
module DbTransaction {
  import opened Wrappers
  import opened DbKeys

  /** A value with the type it was written as and its serialization. */
  datatype Value = Value(kind: nat, bytes: seq<nat>)

  datatype ReadResult = Found(value: Value) | Missing | WrongType

  type Data = map<Key, Value>

  /** The map a transaction shows: the parent's, without the deleted keys, with the written ones. */
  function View(parent: Data, writes: Data, deletes: set<Key>): Data {
    (parent - deletes) + writes
  }

  // ----- the memory estimate -----

  function Cost(writes: Data, k: Key): nat {
    |k| + if k in writes then |writes[k].bytes| else 0
  }

  /** The sum over a set of pending keys. */
  ghost function Usage(writes: Data, keys: set<Key>): nat
    decreases |keys|
  {
    if keys == {} then 0 else var k :| k in keys; Cost(writes, k) + Usage(writes, keys - {k})
  }

  lemma {:induction false} UsageRemove(writes: Data, keys: set<Key>, k: Key)
    requires k in keys
    ensures Usage(writes, keys) == Cost(writes, k) + Usage(writes, keys - {k})
    decreases |keys|
  {
    var c :| c in keys && Usage(writes, keys) == Cost(writes, c) + Usage(writes, keys - {c});
    if c != k {
      UsageRemove(writes, keys - {c}, k);
      UsageRemove(writes, keys - {k}, c);
      assert keys - {c} - {k} == keys - {k} - {c};
    }
  }

  lemma {:induction false} UsageSame(v: Data, w: Data, keys: set<Key>)
    requires forall k :: k in keys ==> Cost(v, k) == Cost(w, k)
    ensures Usage(v, keys) == Usage(w, keys)
    decreases |keys|
  {
    if keys != {} {
      var k :| k in keys;
      UsageRemove(v, keys, k);
      UsageRemove(w, keys, k);
      UsageSame(v, w, keys - {k});
    }
  }

  /** Replacing the pending entry of one key. */
  lemma UsageUpdate(v: Data, w: Data, keys: set<Key>, k: Key)
    requires forall x :: x in keys && x != k ==> Cost(v, x) == Cost(w, x)
    ensures Usage(w, keys + {k}) == Usage(v, keys) - (if k in keys then Cost(v, k) else 0) + Cost(w, k)
  {
    var rest := keys - {k};
    UsageRemove(w, keys + {k}, k);
    assert keys + {k} - {k} == rest;
    UsageSame(v, w, rest);
    if k in keys {
      UsageRemove(v, keys, k);
    } else {
      assert rest == keys;
    }
  }

  // ----- changes, and stores to apply them to -----

  datatype Change = Put(key: Key, value: Value) | Delete(key: Key)

  function Changed(m: Data, c: Change): Data {
    match c
    case Put(k, v) => m[k := v]
    case Delete(k) => m - {k}
  }

  function AllChanged(m: Data, cs: seq<Change>): Data {
    if cs == [] then m else Changed(AllChanged(m, cs[..|cs| - 1]), cs[|cs| - 1])
  }

  class Store {
    var data: Data

    constructor ()
      ensures data == map[]
    {
      data := map[];
    }

    method Read(k: Key) returns (r: ReadResult)
      ensures r == if k in data then Found(data[k]) else Missing
    {
      r := if k in data then Found(data[k]) else Missing;
    }

    method Write(k: Key, v: Value)
      modifies this
      ensures data == old(data)[k := v]
    {
      data := data[k := v];
    }

    method Erase(k: Key)
      modifies this
      ensures data == old(data) - {k}
    {
      data := data - {k};
    }

    method WriteBatch(b: Batch)
      modifies this
      ensures data == AllChanged(old(data), b.changes)
    {
      for i := 0 to |b.changes|
        invariant data == AllChanged(old(data), b.changes[..i])
      {
        assert b.changes[..i + 1][..i] == b.changes[..i];
        match b.changes[i]
        case Put(k, v) => Write(k, v);
        case Delete(k) => Erase(k);
      }
      assert b.changes[..|b.changes|] == b.changes;
    }
  }

  lemma WriteUsage(writes: Data, deletes: set<Key>, k: Key, v: Value)
    requires writes.Keys !! deletes
    ensures Usage(writes[k := v], writes[k := v].Keys + (deletes - {k})) == Usage(writes, writes.Keys + deletes)
      - (if k in deletes then |k| else 0) - (if k in writes then |k| + |writes[k].bytes| else 0) + |k| + |v.bytes|
  {
    UsageUpdate(writes, writes[k := v], writes.Keys + deletes, k);
    assert writes[k := v].Keys + (deletes - {k}) == writes.Keys + deletes + {k};
  }

  lemma EraseUsage(writes: Data, deletes: set<Key>, k: Key)
    requires writes.Keys !! deletes
    ensures Usage(writes - {k}, (writes - {k}).Keys + (deletes + {k})) == Usage(writes, writes.Keys + deletes)
      - (if k in writes then |k| + |writes[k].bytes| else 0) + if k in deletes then 0 else |k|
  {
    UsageUpdate(writes, writes - {k}, writes.Keys + deletes, k);
    assert (writes - {k}).Keys + (deletes + {k}) == writes.Keys + deletes + {k};
  }

  lemma WriteView(parent: Data, writes: Data, deletes: set<Key>, k: Key, v: Value)
    ensures View(parent, writes[k := v], deletes - {k}) == View(parent, writes, deletes)[k := v]
  {
  }

  lemma EraseView(parent: Data, writes: Data, deletes: set<Key>, k: Key)
    ensures View(parent, writes - {k}, deletes + {k}) == View(parent, writes, deletes) - {k}
  {
  }

  lemma OneMoreChange(m: Data, cs: seq<Change>, c: Change)
    ensures AllChanged(m, cs + [c]) == Changed(AllChanged(m, cs), c)
  {
    assert (cs + [c])[..|cs|] == cs;
  }

  /** CDBBatch: changes collected for the store they are to be written to. */
  class Batch {
    ghost const onto: Store
    var changes: seq<Change>

    constructor (ghost onto: Store)
      ensures this.onto == onto && changes == []
    {
      this.onto := onto;
      changes := [];
    }

    method Write(k: Key, v: Value)
      modifies this
      ensures changes == old(changes) + [Put(k, v)]
    {
      changes := changes + [Put(k, v)];
    }

    method Erase(k: Key)
      modifies this
      ensures changes == old(changes) + [Delete(k)]
    {
      changes := changes + [Delete(k)];
    }

    method Clear()
      modifies this
      ensures changes == []
    {
      changes := [];
    }
  }

  /** What a transaction sits on or is committed into. A batch is only committed into. */
  datatype Base = Plain(store: Store) | Collected(batch: Batch) | Over(tx: Transaction) {

    ghost function Depth(): nat { if Over? then tx.depth else 0 }

    ghost function Footprint(): set<object> {
      match this
      case Plain(s) => {s}
      case Collected(b) => {b, b.onto}
      case Over(t) => t.footprint
    }

    /** The one object that a change at this level changes. */
    function Head(): object {
      match this
      case Plain(s) => s
      case Collected(b) => b
      case Over(t) => t
    }

    /** The shape of the stack, which never changes: a chain of distinct objects. */
    ghost predicate Wf()
      decreases Depth()
    {
      Over? ==>
        var t := tx;
        && !t.parent.Collected? && t.depth == t.parent.Depth() + 1
        && t.footprint == t.parent.Footprint() + {t} && t !in t.parent.Footprint()
        && t.parent.Wf()
    }

    /** The map this level shows; for a batch, the one its store will have. */
    ghost function Map(): Data
      requires Wf()
      reads Footprint()
      decreases Depth()
    {
      match this
      case Plain(s) => s.data
      case Collected(b) => AllChanged(b.onto.data, b.changes)
      case Over(t) => View(t.parent.Map(), t.writes, t.deletes)
    }

    ghost predicate Valid()
      requires Wf()
      reads Footprint()
      decreases Depth()
    {
      Over? ==> tx.Sound() && tx.parent.Valid()
    }

    /** The type of the pending write that the value of k comes from, at whatever level. */
    ghost function Pending(k: Key): Option<nat>
      requires Wf()
      reads Footprint()
      decreases Depth()
    {
      match this
      case Plain(_) => None
      case Collected(_) => None
      case Over(t) =>
        if k in t.deletes then None
        else if k in t.writes then Some(t.writes[k].kind)
        else t.parent.Pending(k)
    }

    method Read(k: Key, kind: nat) returns (r: ReadResult)
      requires Wf() && Valid() && !Collected?
      ensures r == Answer(Map(), Pending(k), k, kind)
      decreases Depth(), 4
    {
      match this {
        case Plain(s) => r := s.Read(k);
        case Over(t) => r := t.Read(k, kind);
      }
    }

    method Exists(k: Key) returns (r: bool)
      requires Wf() && Valid() && !Collected?
      ensures r <==> k in Map()
      decreases Depth(), 4
    {
      match this {
        case Plain(s) => r := k in s.data;
        case Over(t) => r := t.Exists(k);
      }
    }

    method Write(k: Key, v: Value)
      requires Wf() && Valid()
      modifies Head()
      ensures Valid() && Map() == old(Map())[k := v]
    {
      match this {
        case Plain(s) => s.Write(k, v);
        case Collected(b) =>
          OneMoreChange(b.onto.data, b.changes, Put(k, v));
          b.Write(k, v);
        case Over(t) => t.Write(k, v);
      }
    }

    method Erase(k: Key)
      requires Wf() && Valid()
      modifies Head()
      ensures Valid() && Map() == old(Map()) - {k}
    {
      match this {
        case Plain(s) => s.Erase(k);
        case Collected(b) =>
          OneMoreChange(b.onto.data, b.changes, Delete(k));
          b.Erase(k);
        case Over(t) => t.Erase(k);
      }
    }
  }

  /** What reading k as a value of the given type gives: an error if it is pending with another type. */
  function Answer(m: Data, pending: Option<nat>, k: Key, kind: nat): ReadResult {
    if pending.Some? && pending.value != kind then WrongType
    else if k in m then Found(m[k])
    else Missing
  }

  lemma ErasedOne(start: Data, ks: set<Key>, left: set<Key>, k: Key)
    requires k in left && left <= ks
    ensures (start - (ks - left)) - {k} == start - (ks - (left - {k}))
  {
  }

  /** All of m but the keys left to write. */
  function WrittenSoFar(start: Data, m: Data, left: set<Key>): Data { start + (m - left) }

  lemma WroteOne(start: Data, m: Data, left: set<Key>, k: Key)
    requires k in left && left <= m.Keys
    ensures WrittenSoFar(start, m, left)[k := m[k]] == WrittenSoFar(start, m, left - {k})
  {
  }

  lemma WroteAll(start: Data, m: Data)
    ensures WrittenSoFar(start, m, m.Keys) == start && WrittenSoFar(start, m, {}) == start + m
  {
    assert m - {} == m;
  }

  method EraseAll(target: Base, ks: set<Key>)
    requires target.Wf() && target.Valid()
    modifies target.Head()
    ensures target.Valid() && target.Map() == old(target.Map()) - ks
  {
    hide View, Base.Map, Base.Valid, Base.Pending, Base.Wf;
    var left := ks;
    assert old(target.Map()) - (ks - left) == old(target.Map());
    while left != {}
      invariant left <= ks && target.Valid() && target.Map() == old(target.Map()) - (ks - left)
      decreases |left|
    {
      var k :| k in left;
      ErasedOne(old(target.Map()), ks, left, k);
      target.Erase(k);
      left := left - {k};
    }
    assert ks - left == ks;
  }

  method WriteAll(target: Base, m: Data)
    requires target.Wf() && target.Valid()
    modifies target.Head()
    ensures target.Valid() && target.Map() == old(target.Map()) + m
  {
    hide View, Base.Map, Base.Valid, Base.Pending, Base.Wf, WrittenSoFar;
    var left := m.Keys;
    WroteAll(target.Map(), m);
    while left != {}
      invariant left <= m.Keys && target.Valid() && target.Map() == WrittenSoFar(old(target.Map()), m, left)
      decreases |left|
    {
      var k :| k in left;
      WroteOne(old(target.Map()), m, left, k);
      target.Write(k, m[k]);
      left := left - {k};
    }
  }

  class Transaction {
    const parent: Base
    const commitTarget: Base
    ghost const depth: nat
    ghost const footprint: set<object>
    var writes: Data
    var deletes: set<Key>
    var memoryUsage: int

    ghost predicate Sound()
      reads this
    {
      writes.Keys !! deletes && memoryUsage == Usage(writes, writes.Keys + deletes)
    }

    ghost function Self(): Base { Over(this) }

    constructor (parent: Base, commitTarget: Base)
      requires parent.Wf() && parent.Valid() && !parent.Collected?
      ensures this.parent == parent && this.commitTarget == commitTarget && writes == map[] && deletes == {}
      ensures Self().Wf() && Self().Valid() && Self().Map() == parent.Map() &&
          Self().Footprint() == parent.Footprint() + {this}
    {
      this.parent, this.commitTarget := parent, commitTarget;
      depth := parent.Depth() + 1;
      footprint := parent.Footprint() + {this};
      writes, deletes, memoryUsage := map[], {}, 0;
    }

    method Write(ssKey: Key, v: Value)
      requires Self().Wf() && Self().Valid()
      modifies this
      ensures Self().Valid() && Self().Map() == old(Self().Map())[ssKey := v]
    {
      hide View, Usage;
      WriteUsage(writes, deletes, ssKey, v);
      WriteView(parent.Map(), writes, deletes, ssKey, v);
      var valueMemoryUsage := |v.bytes|;
      if ssKey in deletes {
        deletes := deletes - {ssKey};
        memoryUsage := memoryUsage - |ssKey|;
      }
      if ssKey in writes {
        memoryUsage := memoryUsage - (|ssKey| + |writes[ssKey].bytes|);
      }
      writes := writes[ssKey := v];
      memoryUsage := memoryUsage + (|ssKey| + valueMemoryUsage);
      assert deletes == old(deletes) - {ssKey};
    }

    /** A pending write of another type, at this level or one below, is an error; everything else reads
        as the map. */
    method Read(ssKey: Key, kind: nat) returns (r: ReadResult)
      requires Self().Wf() && Self().Valid()
      ensures r == Answer(Self().Map(), Self().Pending(ssKey), ssKey, kind)
      decreases depth, 0
    {
      if ssKey in deletes {
        return Missing;
      }
      if ssKey in writes {
        if writes[ssKey].kind != kind {
          return WrongType;
        }
        return Found(writes[ssKey]);
      }
      r := parent.Read(ssKey, kind);
    }

    method Exists(ssKey: Key) returns (r: bool)
      requires Self().Wf() && Self().Valid()
      ensures r <==> ssKey in Self().Map()
      decreases depth, 0
    {
      if ssKey in deletes {
        return false;
      }
      if ssKey in writes {
        return true;
      }
      r := parent.Exists(ssKey);
    }

    method Erase(ssKey: Key)
      requires Self().Wf() && Self().Valid()
      modifies this
      ensures Self().Valid() && Self().Map() == old(Self().Map()) - {ssKey}
    {
      hide View, Usage;
      EraseUsage(writes, deletes, ssKey);
      EraseView(parent.Map(), writes, deletes, ssKey);
      if ssKey in writes {
        memoryUsage := memoryUsage - (|ssKey| + |writes[ssKey].bytes|);
        writes := writes - {ssKey};
      }
      if ssKey !in deletes {
        deletes := deletes + {ssKey};
        memoryUsage := memoryUsage + |ssKey|;
      }
      assert deletes == old(deletes) + {ssKey} && writes == old(writes) - {ssKey};
    }

    method Clear()
      requires Self().Wf() && parent.Valid()
      modifies this
      ensures Self().Valid() && writes == map[] && deletes == {} && Self().Map() == parent.Map()
    {
      writes, deletes, memoryUsage := map[], {}, 0;
    }

    /** The target shows the changes afterwards; committing into the parent keeps the map. The target is
        the parent, or changes nothing the stack shows. */
    method Commit()
      requires Self().Wf() && Self().Valid() && commitTarget.Wf() && commitTarget.Valid()
      requires this !in commitTarget.Footprint() && (commitTarget == parent || commitTarget.Head() !in footprint)
      modifies this, commitTarget.Head()
      ensures Self().Valid() && commitTarget.Valid() && writes == map[] && deletes == {}
      ensures commitTarget.Map() == View(old(commitTarget.Map()), old(writes), old(deletes))
      ensures Self().Map() == if commitTarget == parent then old(Self().Map()) else old(parent.Map())
    {
      hide Usage;
      EraseAll(commitTarget, deletes);
      WriteAll(commitTarget, writes);
      Clear();
    }

    /** Any writes and erases show as the same changes made to the map in order. */
    method Apply(cs: seq<Change>)
      requires Self().Wf() && Self().Valid()
      modifies this
      ensures Self().Valid() && Self().Map() == AllChanged(old(Self().Map()), cs)
    {
      hide View;
      for i := 0 to |cs|
        invariant Self().Valid() && Self().Map() == AllChanged(old(Self().Map()), cs[..i])
      {
        assert cs[..i + 1][..i] == cs[..i];
        match cs[i]
        case Put(k, v) => Write(k, v);
        case Delete(k) => Erase(k);
      }
      assert cs[..|cs|] == cs;
    }

    /** Never negative, so the guard against it never takes effect. */
    method GetMemoryUsage() returns (r: int)
      requires Sound()
      ensures r == Usage(writes, writes.Keys + deletes)
    {
      r := memoryUsage;
      if r < 0 {
        r := 0;
      }
    }
  }

  // ----- the merging iterator -----

  /** The parent's keys that the transaction neither deletes nor overwrites. */
  function ParentOnly(parent: Data, writes: Data, deletes: set<Key>): set<Key> {
    parent.Keys - deletes - writes.Keys
  }

  lemma KeptIff(parent: Data, writes: Data, deletes: set<Key>, k: Key)
    ensures k in ParentOnly(parent, writes, deletes) <==> k in parent && k !in deletes && k !in writes
  {
  }

  lemma KeptApart(parent: Data, writes: Data, deletes: set<Key>)
    ensures writes.Keys !! ParentOnly(parent, writes, deletes)
  {
  }

  lemma KeptKnown(parent: Data, writes: Data, deletes: set<Key>)
    ensures parent.Keys * ParentOnly(parent, writes, deletes) == ParentOnly(parent, writes, deletes)
  {
  }

  lemma SkipOne(left: set<Key>, kept: set<Key>, k: Key)
    ensures k !in kept ==> (left - {k}) * kept == left * kept
  {
  }

  lemma MergedKeys(parent: Data, writes: Data, deletes: set<Key>)
    ensures View(parent, writes, deletes).Keys == writes.Keys + ParentOnly(parent, writes, deletes)
  {
  }

  /** The own position is at a pending write; what the parent has left begins with a key that may be
      yielded; and the smaller of the two keys is the current one. */
  ghost predicate Placed(w: set<Key>, po: set<Key>, t: Pos, p: set<Key>, parentKey: Key, curIsParent: bool) {
    && (t.At? ==> t.key in w)
    && (p != {} ==> Least(p) in po && parentKey == Least(p))
    && (t.At? || p != {} ==> (curIsParent <==> p != {} && (t.End? || !Less(t.key, parentKey))))
  }

  /** What is left to yield: the pending writes from the own position on, and what the parent has left
      without the deleted and overwritten keys. */
  ghost function Rest(w: set<Key>, po: set<Key>, t: Pos, p: set<Key>): set<Key> {
    FromPos(w, t) + p * po
  }

  lemma NothingLeft(w: set<Key>, po: set<Key>)
    ensures Rest(w, po, End, {}) == {} && Placed(w, po, End, {}, [], false)
  {
  }

  lemma FromIncludes(s: set<Key>, k: Key)
    requires k in s
    ensures k in From(s, k) && Least(From(s, k)) == k
  {
    LessIrreflexive(k);
    LeastIs(From(s, k), k);
  }

  lemma LeastOfPart(s: set<Key>, part: set<Key>)
    requires part <= s && s != {} && Least(s) in part
    ensures Least(part) == Least(s)
  {
    LeastIs(part, Least(s));
  }

  /** The current key is the first one left. */
  lemma CurrentIsFirst(w: set<Key>, po: set<Key>, t: Pos, p: set<Key>, parentKey: Key, curIsParent: bool)
    requires Placed(w, po, t, p, parentKey, curIsParent)
    ensures t.At? || p != {} <==> Rest(w, po, t, p) != {}
    ensures t.At? || p != {} ==> if curIsParent then p != {} else t.At?
    ensures t.At? || p != {} ==> Least(Rest(w, po, t, p)) == if curIsParent then parentKey else t.key
  {
    if t.At? {
      FromIncludes(w, t.key);
    }
    if p != {} {
      LeastOfPart(p, p * po);
    }
    if t.At? && p != {} {
      LeastOfUnion(p * po, From(w, t.key));
      assert p * po + From(w, t.key) == Rest(w, po, t, p);
    } else if t.At? {
      assert Rest(w, po, t, p) == From(w, t.key);
    } else if p != {} {
      assert Rest(w, po, t, p) == p * po;
    }
  }

  lemma FirstInside(s: set<Key>, k: Key)
    ensures First(After(s, k)).At? ==> First(After(s, k)).key in s
  {
  }

  lemma AllFromSeek(s: set<Key>, k: Key)
    ensures FromPos(s, First(From(s, k))) == From(s, k)
    ensures First(From(s, k)).At? ==> First(From(s, k)).key in s
  {
    var f := From(s, k);
    forall x | x in s
      ensures x in FromPos(s, First(f)) <==> x in f
    {
      if x in f {
        assert !Less(x, Least(f));
      } else if f != {} {
        NotAfterEqual(x, k, Least(f));
      }
    }
  }

  lemma NotAfterEqual(x: Key, k: Key, l: Key)
    requires Less(x, k) && !Less(l, k)
    ensures Less(x, l)
  {
    LessTotal(l, k);
    if Less(k, l) {
      LessTransitive(x, k, l);
    }
  }

  /** A key is left in one of the two sources only. */
  lemma OnlyOnce(w: set<Key>, po: set<Key>, t: Pos, p: set<Key>, parentKey: Key, curIsParent: bool)
    requires w !! po && Placed(w, po, t, p, parentKey, curIsParent) && (t.At? || p != {})
    ensures curIsParent ==> p != {} && Rest(w, po, t, p) - {Least(p)} == Rest(w, po, t, p - {Least(p)})
    ensures !curIsParent ==> t.At? && Rest(w, po, t, p) - {t.key} == (From(w, t.key) - {t.key}) + p * po
  {
  }

  /** The iterator of the store: a position among its keys. */
  class StoreIterator {
    const store: Store
    var pos: Pos

    constructor (store: Store)
      ensures this.store == store && pos == End
    {
      this.store, pos := store, End;
    }

    method SeekToFirst()
      modifies this
      ensures FromPos(store.data.Keys, pos) == store.data.Keys && (pos.At? ==> pos.key in store.data)
    {
      pos := FindFirst(store.data.Keys);
      FromFirst(store.data.Keys);
    }

    method Seek(ssKey: Key)
      modifies this
      ensures FromPos(store.data.Keys, pos) == From(store.data.Keys, ssKey) && (pos.At? ==> pos.key in store.data)
    {
      pos := FindFirst(From(store.data.Keys, ssKey));
      AllFromSeek(store.data.Keys, ssKey);
    }

    method Next()
      requires pos.At? && pos.key in store.data
      modifies this
      ensures FromPos(store.data.Keys, pos) == From(store.data.Keys, old(pos.key)) - {old(pos.key)}
      ensures pos.At? ==> pos.key in store.data
    {
      StepPos(store.data.Keys, pos.key);
      FirstInside(store.data.Keys, pos.key);
      pos := FindFirst(After(store.data.Keys, pos.key));
    }
  }

  /** An iterator over a store or over a transaction. */
  datatype Iter = OfStore(it: StoreIterator) | OfTransaction(merge: TransactionIterator) {

    ghost function Depth(): nat { if OfStore? then 0 else merge.depth }

    ghost function Footprint(): set<object> { if OfStore? then {it} else merge.footprint }

    /** What it goes through. */
    ghost function Source(): Base { if OfStore? then Plain(it.store) else Over(merge.transaction) }

    ghost predicate Wf()
      decreases Depth()
    {
      && Source().Wf() && Footprint() !! Source().Footprint()
      && (OfTransaction? ==>
            && merge.depth == merge.parentIt.Depth() + 1
            && merge.footprint == merge.parentIt.Footprint() + {merge} && merge !in merge.parentIt.Footprint()
            && merge.parentIt.Source() == merge.transaction.parent && merge.parentIt.Wf())
    }

    /** The keys still to be yielded, the current one included. */
    ghost function Left(): set<Key>
      requires Wf()
      reads Footprint(), Source().Footprint()
      decreases Depth()
    {
      match this
      case OfStore(i) => FromPos(i.store.data.Keys, i.pos)
      case OfTransaction(m) => Rest(m.transaction.writes.Keys, m.Kept(), m.transactionIt, m.parentIt.Left())
    }

    ghost predicate Ready()
      requires Wf()
      reads Footprint(), Source().Footprint()
      decreases Depth()
    {
      match this
      case OfStore(i) => i.pos.At? ==> i.pos.key in i.store.data
      case OfTransaction(m) =>
        && m.parentIt.Ready()
        && Placed(m.transaction.writes.Keys, m.Kept(), m.transactionIt, m.parentIt.Left(), m.parentKey, m.curIsParent)
    }

    lemma LeftInMap()
      requires Wf()
      ensures Left() <= Source().Map().Keys
    {
    }

    lemma LowestLeft()
      requires Wf() && Ready() && OfStore?
      ensures it.pos.At? <==> Left() != {}
      ensures it.pos.At? ==> Least(Left()) == it.pos.key
    {
      if it.pos.At? {
        FromIncludes(it.store.data.Keys, it.pos.key);
      }
    }

    method IsValid() returns (r: bool)
      requires Wf() && Ready()
      ensures r <==> Left() != {}
      decreases Depth(), 4
    {
      match this {
        case OfStore(i) =>
          LowestLeft();
          r := i.pos.At?;
        case OfTransaction(m) => r := m.IsValid();
      }
    }

    method SeekToFirst()
      requires Wf()
      modifies Footprint()
      ensures Ready() && Left() == Source().Map().Keys
      decreases Depth(), 4
    {
      match this {
        case OfStore(i) => i.SeekToFirst();
        case OfTransaction(m) => m.SeekToFirst();
      }
    }

    method Seek(ssKey: Key)
      requires Wf()
      modifies Footprint()
      ensures Ready() && Left() == From(Source().Map().Keys, ssKey)
      decreases Depth(), 4
    {
      match this {
        case OfStore(i) => i.Seek(ssKey);
        case OfTransaction(m) => m.Seek(ssKey);
      }
    }

    /** To be called only on a valid iterator, as the source does below its own end test. */
    method Next()
      requires Wf() && Ready() && Left() != {}
      modifies Footprint()
      ensures Ready() && Left() == old(Left()) - {Least(old(Left()))}
      decreases Depth(), 4
    {
      match this {
        case OfStore(i) =>
          LowestLeft();
          i.Next();
        case OfTransaction(m) => m.Next();
      }
    }

    method GetKey() returns (k: Key)
      requires Wf() && Ready() && Left() != {}
      ensures k == Least(Left())
      decreases Depth(), 4
    {
      match this {
        case OfStore(i) =>
          LowestLeft();
          k := i.pos.key;
        case OfTransaction(m) => k := m.GetKey();
      }
    }
  }

  /** An iterator over a base, with iterators of its own for every level below. */
  method NewIterator(b: Base) returns (r: Iter)
    requires b.Wf() && !b.Collected?
    ensures r.Wf() && r.Source() == b && fresh(r.Footprint()) && r.Ready() && r.Left() == {}
    decreases b.Depth(), 4
  {
    match b {
      case Plain(s) =>
        var it := new StoreIterator(s);
        r := OfStore(it);
      case Over(t) =>
        var m := new TransactionIterator(t);
        r := OfTransaction(m);
    }
  }

  class TransactionIterator {
    const transaction: Transaction
    const parentIt: Iter
    ghost const depth: nat
    ghost const footprint: set<object>
    var transactionIt: Pos
    var parentKey: Key
    var curIsParent: bool

    ghost function Self(): Iter { OfTransaction(this) }

    ghost function Kept(): set<Key>
      requires Over(transaction).Wf()
      reads transaction.footprint
    {
      ParentOnly(transaction.parent.Map(), transaction.writes, transaction.deletes)
    }

    constructor (transaction: Transaction)
      requires Over(transaction).Wf()
      ensures this.transaction == transaction && Self().Wf() && fresh(footprint)
      ensures Self().Ready() && Self().Left() == {}
      decreases transaction.depth, 0
    {
      hide View, ParentOnly, Rest, Placed, From, FromPos, Less, Base.Valid, Base.Map, Base.Pending;
      var p := NewIterator(transaction.parent);
      this.transaction, parentIt := transaction, p;
      depth := p.Depth() + 1;
      footprint := p.Footprint() + {this};
      transactionIt, parentKey, curIsParent := End, [], false;
      new;
      NothingLeft(transaction.writes.Keys, Kept());
    }

    /** Stop at the parent's key if it may be yielded, and else leave it behind. */
    method SkipUnlessKept() returns (stop: bool)
      requires Self().Wf() && parentIt.Ready() && parentIt.Left() != {} &&
          parentIt.Left() <= transaction.parent.Map().Keys
      modifies footprint
      ensures parentIt.Ready() && transactionIt == old(transactionIt) && parentKey == Least(old(parentIt.Left()))
      ensures stop <==> parentKey in Kept()
      ensures parentIt.Left() == if stop then old(parentIt.Left()) else old(parentIt.Left()) - {parentKey}
      decreases depth, 0
    {
      hide View, ParentOnly, Rest, Placed, From, FromPos, Less, Base.Valid, Base.Map, Base.Pending;
      parentKey := parentIt.GetKey();
      KeptIff(transaction.parent.Map(), transaction.writes, transaction.deletes, parentKey);
      stop := parentKey !in transaction.deletes && parentKey !in transaction.writes;
      if !stop {
        parentIt.Next();
      }
    }

    /** Moves the parent past deleted and overwritten keys; no key to be yielded is lost. */
    method SkipDeletedAndOverwritten()
      requires Self().Wf() && parentIt.Ready() && parentIt.Left() <= transaction.parent.Map().Keys
      modifies footprint
      ensures parentIt.Ready() && transactionIt == old(transactionIt)
      ensures parentIt.Left() != {} ==> Least(parentIt.Left()) in Kept() && parentKey == Least(parentIt.Left())
      ensures parentIt.Left() * Kept() == old(parentIt.Left() * Kept())
      decreases depth, 1
    {
      hide View, ParentOnly, Rest, Placed, From, FromPos, Less, Base.Valid, Base.Map, Base.Pending, Iter.Ready;
      var more := parentIt.IsValid();
      while more
        invariant parentIt.Ready() && parentIt.Left() <= transaction.parent.Map().Keys &&
            (more <==> parentIt.Left() != {})
        invariant transactionIt == old(transactionIt) && parentIt.Left() * Kept() == old(parentIt.Left() * Kept())
        decreases parentIt.Left()
      {
        ghost var left := parentIt.Left();
        var stop := SkipUnlessKept();
        if stop {
          break;
        }
        SkipOne(left, Kept(), parentKey);
        more := parentIt.IsValid();
      }
    }

    method DecideCur()
      requires Self().Wf() && Settled()
      modifies `curIsParent
      ensures Self().Ready() && Self().Left() == old(Self().Left())
      decreases depth, 0
    {
      hide View, ParentOnly, Rest, From, FromPos, Less, Base.Valid, Base.Map, Base.Pending;
      var parentValid := parentIt.IsValid();
      if transactionIt.At? && !parentValid {
        curIsParent := false;
      } else if !transactionIt.At? && parentValid {
        curIsParent := true;
      } else if transactionIt.At? && parentValid {
        if Less(transactionIt.key, parentKey) {
          curIsParent := false;
        } else {
          curIsParent := true;
        }
      }
    }

    /** SkipDeletedAndOverwritten and DecideCur: nothing that was left is lost. */
    method Decide()
      requires Self().Wf() && parentIt.Ready() && parentIt.Left() <= transaction.parent.Map().Keys
      requires transactionIt.At? ==> transactionIt.key in transaction.writes
      modifies footprint
      ensures Self().Ready() && Self().Left() == old(Self().Left())
      decreases depth, 2
    {
      hide View, ParentOnly, From, FromPos, Less, Placed, Base.Valid, Base.Map, Base.Pending;
      SkipDeletedAndOverwritten();
      DecideCur();
    }

    lemma Current()
      requires Self().Wf() && Self().Ready()
      ensures transactionIt.At? || parentIt.Left() != {} <==> Self().Left() != {}
      ensures Self().Left() != {} ==> if curIsParent then parentIt.Left() != {} else transactionIt.At?
      ensures Self().Left() != {} ==> Least(Self().Left()) == if curIsParent then parentKey else transactionIt.key
      ensures curIsParent && parentIt.Left() != {} ==> parentKey == Least(parentIt.Left())
    {
      CurrentIsFirst(transaction.writes.Keys, Kept(), transactionIt, parentIt.Left(), parentKey, curIsParent);
    }

    method IsValid() returns (r: bool)
      requires Self().Wf() && Self().Ready()
      ensures r <==> Self().Left() != {}
      decreases depth, 0
    {
      Current();
      r := transactionIt.At?;
      if !r {
        r := parentIt.IsValid();
      }
    }

    method SeekToFirst()
      requires Self().Wf()
      modifies footprint
      ensures Self().Ready() && Self().Left() == Over(transaction).Map().Keys
      decreases depth, 0
    {
      FromFirst(transaction.writes.Keys);
      MergedKeys(transaction.parent.Map(), transaction.writes, transaction.deletes);
      KeptKnown(transaction.parent.Map(), transaction.writes, transaction.deletes);
      assert Over(transaction).Map() == View(transaction.parent.Map(), transaction.writes, transaction.deletes);
      hide View, ParentOnly, From, FromPos, First, Less, Placed, Base.Valid, Base.Map, Base.Pending;
      transactionIt := FindFirst(transaction.writes.Keys);
      parentIt.SeekToFirst();
      Decide();
    }

    /** lower_bound in the writes, Seek in the parent. */
    method Seek(ssKey: Key)
      requires Self().Wf()
      modifies footprint
      ensures Self().Ready() && Self().Left() == From(Over(transaction).Map().Keys, ssKey)
      decreases depth, 0
    {
      AllFromSeek(transaction.writes.Keys, ssKey);
      MergedKeys(transaction.parent.Map(), transaction.writes, transaction.deletes);
      transactionIt := FindFirst(From(transaction.writes.Keys, ssKey));
      parentIt.Seek(ssKey);
      assert From(transaction.parent.Map().Keys, ssKey) * Kept() == From(Kept(), ssKey);
      assert From(Over(transaction).Map().Keys, ssKey) == From(transaction.writes.Keys, ssKey) + From(Kept(), ssKey);
      Decide();
    }

    /** The position may be decided on: the own one is at a pending write, and the parent's first key left
        may be yielded. */
    ghost predicate Settled()
      requires Self().Wf()
      reads footprint, transaction.footprint
    {
      && parentIt.Ready() && (transactionIt.At? ==> transactionIt.key in transaction.writes)
      && (parentIt.Left() != {} ==> Least(parentIt.Left()) in Kept() && parentKey == Least(parentIt.Left()))
    }

    method StepParent()
      requires Self().Wf() && Self().Ready() && curIsParent && Self().Left() != {}
      modifies footprint
      ensures Settled() && Self().Left() == old(Self().Left()) - {Least(old(Self().Left()))}
      decreases depth, 2
    {
      hide View, ParentOnly, From, FromPos, Less, Base.Valid, Base.Map, Base.Pending, After, First;
      Current();
      KeptApart(transaction.parent.Map(), transaction.writes, transaction.deletes);
      OnlyOnce(transaction.writes.Keys, Kept(), transactionIt, parentIt.Left(), parentKey, curIsParent);
      parentIt.LeftInMap();
      parentIt.Next();
      SkipDeletedAndOverwritten();
    }

    method StepOwn()
      requires Self().Wf() && Self().Ready() && !curIsParent && Self().Left() != {}
      modifies `transactionIt
      ensures Settled() && Self().Left() == old(Self().Left()) - {Least(old(Self().Left()))}
      decreases depth, 0
    {
      hide View, ParentOnly, From, Less, Base.Valid, Base.Map, Base.Pending, After, First;
      Current();
      KeptApart(transaction.parent.Map(), transaction.writes, transaction.deletes);
      OnlyOnce(transaction.writes.Keys, Kept(), transactionIt, parentIt.Left(), parentKey, curIsParent);
      StepPos(transaction.writes.Keys, transactionIt.key);
      FirstInside(transaction.writes.Keys, transactionIt.key);
      transactionIt := FindFirst(After(transaction.writes.Keys, transactionIt.key));
    }

    /** Leaves out exactly the current key; at the end, nothing happens. */
    method Next()
      requires Self().Wf() && Self().Ready()
      modifies footprint
      ensures Self().Ready()
      ensures old(Self().Left()) == {} ==> Self().Left() == {}
      ensures old(Self().Left()) != {} ==> Self().Left() == old(Self().Left()) - {Least(old(Self().Left()))}
      decreases depth, 3
    {
      hide View, ParentOnly, From, FromPos, Less, Rest, Placed, Base.Valid, Base.Map, Base.Pending, Iter.Left,
          Iter.Ready;
      Current();
      var more := IsValid();
      if !more {
        return;
      }
      if curIsParent {
        StepParent();
      } else {
        StepOwn();
      }
      DecideCur();
    }

    /** The current key; the empty key past the end. */
    method GetKey() returns (k: Key)
      requires Self().Wf() && Self().Ready()
      ensures k == if Self().Left() == {} then [] else Least(Self().Left())
      decreases depth, 0
    {
      Current();
      var more := IsValid();
      if !more {
        return [];
      }
      if curIsParent {
        k := parentIt.GetKey();
      } else {
        k := transactionIt.key;
      }
    }

    /** GetKey, Next and Valid. */
    method Advance() returns (k: Key, more: bool)
      requires Self().Wf() && Self().Ready() && Self().Left() != {}
      modifies footprint
      ensures Self().Ready() && k == Least(old(Self().Left())) && Self().Left() == old(Self().Left()) - {k}
      ensures more <==> Self().Left() != {}
    {
      hide Rest, Placed, Less, Base.Map, Base.Valid, Base.Pending, View, ParentOnly, Iter.Left, Iter.Ready;
      k := GetKey();
      Next();
      more := IsValid();
    }

    /** What the map shows at the current key, read as a value of the given type. */
    method GetValue(kind: nat) returns (r: ReadResult)
      requires Self().Wf() && Self().Ready() && Over(transaction).Valid()
      ensures Self().Left() == {} ==> r == Missing
      ensures Self().Left() != {} ==>
        var k := Least(Self().Left());
        k in Over(transaction).Map() && r == Answer(Over(transaction).Map(), Over(transaction).Pending(k), k, kind)
    {
      Current();
      Self().LeftInMap();
      var more := IsValid();
      if !more {
        return Missing;
      }
      if curIsParent {
        r := transaction.Read(parentKey, kind);
      } else {
        r := transaction.Read(transactionIt.key, kind);
      }
    }
  }

  // ----- the two transactions of the evo database -----

  /** CEvoDB: a current transaction over a root transaction over the store; the root is written out
      through a batch. */
  class EvoDb {
    const db: Store
    const rootBatch: Batch
    const root: Transaction
    const cur: Transaction

    ghost predicate Shape() {
      && rootBatch.onto == db && root.parent == Plain(db) && root.commitTarget == Collected(rootBatch)
      && cur.parent == cur.commitTarget == Over(root)
      && Over(cur).Wf() && root.footprint == {db, root} && cur.footprint == {db, root, cur}
    }

    ghost predicate Valid()
      reads root, cur
    {
      Shape() && root.Sound() && cur.Sound()
    }

    ghost function RootMap(): Data
      reads db, root
    {
      View(db.data, root.writes, root.deletes)
    }

    /** What readers see. */
    ghost function Map(): Data
      reads db, root, cur
    {
      View(RootMap(), cur.writes, cur.deletes)
    }

    lemma Layers()
      requires Valid()
      ensures Over(root).Wf() && Over(root).Valid() && Over(root).Map() == RootMap()
      ensures Over(cur).Valid() && Over(cur).Map() == Map()
    {
      hide View, Usage;
    }

    predicate IsClean()
      reads cur
    {
      cur.writes == map[] && cur.deletes == {}
    }

    constructor ()
      ensures Valid() && Map() == map[] && IsClean() && rootBatch.changes == []
      ensures fresh(db) && fresh(rootBatch) && fresh(root) && fresh(cur)
    {
      hide Usage, View, AllChanged;
      var d := new Store();
      var b := new Batch(d);
      var r := new Transaction(Plain(d), Collected(b));
      var c := new Transaction(Over(r), Over(r));
      db, rootBatch, root, cur := d, b, r, c;
      new;
      CleanMap(map[]);
    }

    /** A scope of BeginTransaction: whatever is changed in it is seen afterwards if it is committed, and
        gone without a trace if it is rolled back. The store is not touched. */
    method Scope(cs: seq<Change>, commit: bool)
      requires Valid() && IsClean()
      modifies root, cur
      ensures Valid() && IsClean() && Map() == if commit then AllChanged(old(Map()), cs) else old(Map())
    {
      hide View, Usage, AllChanged;
      Layers();
      CleanMap(RootMap());
      cur.Apply(cs);
      if commit {
        cur.Commit();
      } else {
        cur.Clear();
      }
      Layers();
      CleanMap(RootMap());
    }

    /** The first half of CommitRootTransaction: the root transaction goes into the batch. */
    method CollectRoot()
      requires Valid() && IsClean()
      modifies root, rootBatch
      ensures Valid() && IsClean() && root.writes == map[] && root.deletes == {} && Map() == db.data
      ensures AllChanged(db.data, rootBatch.changes)
              == View(AllChanged(db.data, old(rootBatch.changes)), old(root.writes), old(root.deletes))
    {
      hide View, Usage, AllChanged;
      Layers();
      root.Commit();
      Layers();
      CleanMap(db.data);
    }

    /** Write the root transaction out. If the store accepts the batch it becomes what readers see, on top
        of anything an earlier failure left in the batch; if it does not, the store is as before, the
        changes wait in the batch, and readers no longer see them. */
    method CommitRoot(accepted: bool)
      requires Valid() && IsClean()
      modifies root, db, rootBatch
      ensures Valid() && IsClean() && Map() == db.data
      ensures accepted ==> rootBatch.changes == []
      ensures accepted ==> db.data == View(AllChanged(old(db.data), old(rootBatch.changes)), old(root.writes),
          old(root.deletes))
      ensures accepted && old(rootBatch.changes) == [] ==> Map() == old(Map())
      ensures !accepted ==> db.data == old(db.data)
      ensures !accepted ==>
        AllChanged(db.data, rootBatch.changes) == View(AllChanged(old(db.data), old(rootBatch.changes)),
            old(root.writes), old(root.deletes))
    {
      CleanMap(RootMap());
      NoChange(db.data);
      hide View, Usage, AllChanged;
      CollectRoot();
      if accepted {
        db.WriteBatch(rootBatch);
        CleanMap(db.data);
        rootBatch.Clear();
      }
    }
  }

  lemma NoChange(m: Data)
    ensures AllChanged(m, []) == m
  {
  }

  lemma CleanMap(m: Data)
    ensures View(m, map[], {}) == m
  {
  }

  /** GetKey and Next until the end: all that is left, in increasing byte order. */
  method Drain(it: TransactionIterator) returns (ks: seq<Key>)
    requires it.Self().Wf() && it.Self().Ready()
    modifies it.footprint
    ensures forall i, j :: 0 <= i < j < |ks| ==> ByteLess(ks[i], ks[j])
    ensures (set k | k in ks) == old(it.Self().Left())
  {
    hide Rest, Placed, Less, ByteLess, Base.Map, Base.Valid, Base.Pending, View, ParentOnly, Yielded, Iter.Left,
        Iter.Ready;
    var more := it.IsValid();
    ghost var all := it.Self().Left();
    ks := [];
    YieldNone(all);
    while more
      invariant it.Self().Ready() && (more <==> it.Self().Left() != {})
      invariant Yielded(ks, it.Self().Left(), all)
      decreases it.Self().Left()
    {
      YieldOne(ks, it.Self().Left(), all);
      var k;
      k, more := it.Advance();
      ks := ks + [k];
    }
    YieldAll(ks, all);
  }

  /** A full iteration over transactions nested to any depth yields the keys of the map once each, in
      increasing byte order. */
  method AllKeys(transaction: Transaction) returns (ks: seq<Key>)
    requires Over(transaction).Wf()
    ensures forall i, j :: 0 <= i < j < |ks| ==> ByteLess(ks[i], ks[j])
    ensures (set k | k in ks) == Over(transaction).Map().Keys
  {
    hide Rest, Placed, Less, ByteLess, Base.Map, Base.Valid, Base.Pending, View, ParentOnly, Iter.Left, Iter.Ready;
    var it := new TransactionIterator(transaction);
    it.SeekToFirst();
    ks := Drain(it);
  }

  /** An iteration from a key on yields the keys of the map that are not below it in byte order. */
  method KeysFrom(transaction: Transaction, ssKey: Key) returns (ks: seq<Key>)
    requires Over(transaction).Wf()
    ensures forall i, j :: 0 <= i < j < |ks| ==> ByteLess(ks[i], ks[j])
    ensures forall k :: k in ks <==> k in Over(transaction).Map() && !ByteLess(k, ssKey)
  {
    hide Rest, Placed, Less, ByteLess, From, Base.Map, Base.Valid, Base.Pending, View, ParentOnly, Iter.Left,
        Iter.Ready;
    FromBytes(Over(transaction).Map().Keys, ssKey);
    var it := new TransactionIterator(transaction);
    it.Seek(ssKey);
    ks := Drain(it);
    assert forall k :: k in ks <==> k in (set x | x in ks);
  }

  lemma YieldNone(all: set<Key>)
    ensures Yielded([], all, all)
  {
  }

  lemma YieldAll(ks: seq<Key>, all: set<Key>)
    requires Yielded(ks, {}, all)
    ensures (forall i, j :: 0 <= i < j < |ks| ==> ByteLess(ks[i], ks[j])) && (set k | k in ks) == all
  {
    forall i, j | 0 <= i < j < |ks| ensures ByteLess(ks[i], ks[j]) { LessBytes(ks[i], ks[j]); }
  }

  lemma FromBytes(s: set<Key>, k: Key)
    ensures forall x :: x in From(s, k) <==> x in s && !ByteLess(x, k)
  {
    hide Less, ByteLess;
    forall x ensures x in From(s, k) <==> x in s && !ByteLess(x, k) { LessBytes(x, k); }
  }

  ghost predicate Yielded(ks: seq<Key>, left: set<Key>, all: set<Key>) {
    && (forall i, j :: 0 <= i < j < |ks| ==> Less(ks[i], ks[j]))
    && (forall i, x :: 0 <= i < |ks| && x in left ==> Less(ks[i], x))
    && (set k | k in ks) + left == all
  }

  lemma YieldOne(ks: seq<Key>, left: set<Key>, all: set<Key>)
    requires Yielded(ks, left, all) && left != {}
    ensures Yielded(ks + [Least(left)], left - {Least(left)}, all)
  {
    var k := Least(left);
    var us, rest := ks + [k], left - {k};
    forall x | x in rest
      ensures Less(k, x)
    {
      LessTotal(k, x);
    }
    assert (set x | x in us) == (set x | x in ks) + {k};
  }
}
