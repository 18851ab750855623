/**
 The part of the memory pool that block assembly looks at (src/txmempool.h through
 src/blockassembler.cpp): a finite acyclic graph of transactions with exact sums over ancestors.
 */
module Mempool {

  datatype Tx = Tx(hash: nat)

  /** Size, signature operations and fee of one transaction or of a package. */
  datatype Total = Total(size: int, sigOps: int, fee: int) {
    function Plus(o: Total): Total { Total(size + o.size, sigOps + o.sigOps, fee + o.fee) }
    function Minus(o: Total): Total { Total(size - o.size, sigOps - o.sigOps, fee - o.fee) }

    /** At least as large in the components that decide whether a package fits. */
    predicate Covers(o: Total) { size >= o.size && sigOps >= o.sigOps }
  }

  const ZERO := Total(0, 0, 0)

  /** `level` witnesses that the parent relation has no cycle. */
  datatype Pool = Pool(entries: map<Tx, Total>, parents: map<Tx, set<Tx>>, level: map<Tx, nat>) {

    predicate Valid() {
      && parents.Keys == entries.Keys == level.Keys
      && (forall t :: t in entries ==> entries[t].size >= 0 && entries[t].sigOps >= 0)
      && (forall t, q :: t in entries && q in parents[t] ==> q in entries && level[q] < level[t])
    }

    /** All transactions t depends on, directly or not. */
    function Ancestors(t: Tx): set<Tx>
      requires Valid() && t in entries
      decreases level[t]
    {
      parents[t] + set q, a | q in parents[t] && a in Ancestors(q) :: a
    }

    function Descendants(t: Tx): set<Tx>
      requires Valid() && t in entries
    {
      set d | d in entries && (d == t || t in Ancestors(d))
    }

    /** The package of t without what is already in the block. */
    function Package(t: Tx, inBlock: set<Tx>): set<Tx>
      requires Valid() && t in entries
    {
      Ancestors(t) + {t} - inBlock
    }

    ghost function Sum(s: set<Tx>): Total
      requires s <= entries.Keys
    {
      if s == {} then ZERO else var x :| x in s; entries[x].Plus(Sum(s - {x}))
    }

    /** What the pool caches with every entry. */
    ghost function WithAncestors(t: Tx): Total
      requires Valid() && t in entries
    {
      AncestorsKnown(t);
      Sum(Ancestors(t) + {t})
    }

    ghost function Remaining(t: Tx, inBlock: set<Tx>): Total
      requires Valid() && t in entries
    {
      AncestorsKnown(t);
      Sum(Package(t, inBlock))
    }

    function Count(t: Tx): nat
      requires Valid() && t in entries
    {
      |Ancestors(t)| + 1
    }

    lemma {:induction false} AncestorsKnown(t: Tx)
      requires Valid() && t in entries
      decreases level[t]
      ensures Ancestors(t) <= entries.Keys
    {
      forall q, a | q in parents[t] && a in Ancestors(q) ensures a in entries {
        AncestorsKnown(q);
      }
    }

    lemma {:induction false} AncestorsBelow(t: Tx, a: Tx)
      requires Valid() && t in entries && a in Ancestors(t)
      decreases level[t]
      ensures a in entries && level[a] < level[t]
    {
      if a !in parents[t] {
        var q :| q in parents[t] && a in Ancestors(q);
        AncestorsBelow(q, a);
      }
    }

    lemma {:induction false} AncestorsTransitive(t: Tx, a: Tx)
      requires Valid() && t in entries && a in Ancestors(t)
      decreases level[t]
      ensures a in entries && Ancestors(a) <= Ancestors(t)
    {
      if a !in parents[t] {
        var q :| q in parents[t] && a in Ancestors(q);
        AncestorsTransitive(q, a);
      }
    }

    /** c goes from t to a along at least one parent link. */
    ghost predicate Links(c: seq<Tx>, t: Tx, a: Tx) {
      && |c| >= 2 && c[0] == t && c[|c| - 1] == a
      && forall i :: 0 <= i < |c| - 1 ==> c[i] in parents && c[i + 1] in parents[c[i]]
    }

    ghost predicate Reaches(t: Tx, a: Tx) { exists c :: Links(c, t, a) }

    lemma {:induction false} AncestorIsReached(t: Tx, a: Tx)
      requires Valid() && t in entries && a in Ancestors(t)
      decreases level[t]
      ensures Reaches(t, a)
    {
      if a in parents[t] {
        assert Links([t, a], t, a);
      } else {
        var q :| q in parents[t] && a in Ancestors(q);
        AncestorIsReached(q, a);
        var c :| Links(c, q, a);
        assert Links([t] + c, t, a);
      }
    }

    lemma {:induction false} ReachedIsAncestor(c: seq<Tx>, t: Tx, a: Tx)
      requires Valid() && t in entries && Links(c, t, a)
      decreases |c|
      ensures a in Ancestors(t)
    {
      var q := c[1];
      assert q in parents[c[0]];
      if |c| > 2 {
        ReachedIsAncestor(c[1..], q, a);
      }
    }

    /** The ancestors are exactly what parent links lead to. */
    lemma AncestorsAreReached(t: Tx, a: Tx)
      requires Valid() && t in entries
      ensures a in Ancestors(t) <==> Reaches(t, a)
      ensures a in parents[t] ==> a in Ancestors(t)
    {
      hide Ancestors;
      if a in Ancestors(t) { AncestorIsReached(t, a); }
      if c :| Links(c, t, a) { ReachedIsAncestor(c, t, a); }
      if a in parents[t] { ReachedIsAncestor([t, a], t, a); }
    }

    /** A transaction has more ancestors than each of them: sorting by ancestor count is a valid order. */
    lemma CountGrows(t: Tx, a: Tx)
      requires Valid() && t in entries && a in Ancestors(t)
      ensures a in entries && Count(a) < Count(t)
    {
      AncestorsTransitive(t, a);
      AncestorsBelow(t, a);
      assert a !in Ancestors(a) by {
        if a in Ancestors(a) { AncestorsBelow(a, a); }
      }
      var rest := Ancestors(t) - Ancestors(a);
      assert Ancestors(t) == Ancestors(a) + rest;
      assert a in rest;
    }

    lemma {:induction false} SumRemove(s: set<Tx>, y: Tx)
      requires s <= entries.Keys && y in s
      ensures Sum(s) == entries[y].Plus(Sum(s - {y}))
      decreases s
    {
      var x :| x in s && Sum(s) == entries[x].Plus(Sum(s - {x}));
      if x != y {
        var rest := s - {x, y};
        assert s - {x} - {y} == rest && s - {y} - {x} == rest;
        SumRemove(s - {x}, y);
        SumRemove(s - {y}, x);
        var ex, ey, r := entries[x], entries[y], Sum(rest);
        assert Sum(s) == ex.Plus(ey.Plus(r));
        assert Sum(s - {y}) == ex.Plus(r);
        assert ex.Plus(ey.Plus(r)) == ey.Plus(ex.Plus(r));
      }
    }

    lemma {:induction false} SumMinus(s: set<Tx>, u: set<Tx>)
      requires s <= entries.Keys && u <= s
      ensures Sum(s - u) == Sum(s).Minus(Sum(u))
      decreases u
    {
      if u == {} {
        assert s - u == s;
      } else {
        var x :| x in u;
        SumRemove(s, x);
        SumRemove(u, x);
        SumMinus(s - {x}, u - {x});
        assert s - {x} - (u - {x}) == s - u;
      }
    }

    lemma {:induction false} SumCovers(s: set<Tx>, u: set<Tx>)
      requires Valid() && s <= entries.Keys && u <= s
      ensures Sum(s).Covers(Sum(u)) && Sum(u).Covers(ZERO)
      decreases s
    {
      if s != {} {
        var x :| x in s;
        SumRemove(s, x);
        if x in u { SumRemove(u, x); }
        SumCovers(s - {x}, u - {x});
        if x !in u { assert u - {x} == u; }
      }
    }
  }
}
