/** Keys of the database in byte order, and the map operations that positions in an ordered map rest on. */
module DbKeys {

  type Key = seq<nat>

  /** std::lexicographical_compare on the bytes. */
  predicate Less(a: Key, b: Key) {
    if b == [] then false
    else if a == [] then true
    else if a[0] != b[0] then a[0] < b[0]
    else Less(a[1..], b[1..])
  }

  /** a and b part at index k, where a ends or has the smaller byte. */
  predicate PartAt(a: Key, b: Key, k: int) {
    0 <= k <= |a| && k < |b| && a[..k] == b[..k] && (k == |a| || a[k] < b[k])
  }

  /** The byte order said outright: a is a proper prefix of b, or has the smaller byte where they first
      differ. */
  ghost predicate ByteLess(a: Key, b: Key) { exists k :: PartAt(a, b, k) }

  lemma {:induction false} LessBytes(a: Key, b: Key)
    ensures Less(a, b) <==> ByteLess(a, b)
  {
    if b == [] {
    } else if a == [] {
      assert PartAt(a, b, 0);
    } else if a[0] != b[0] {
      if a[0] < b[0] { assert PartAt(a, b, 0); }
      forall k | PartAt(a, b, k) ensures a[0] < b[0] {
        if k > 0 { assert a[..k][0] == b[..k][0]; }
      }
    } else {
      LessBytes(a[1..], b[1..]);
      forall k | PartAt(a[1..], b[1..], k) ensures PartAt(a, b, k + 1) { PartShift(a, b, k); }
      forall k | PartAt(a, b, k) ensures PartAt(a[1..], b[1..], k - 1) { PartShift(a, b, k - 1); }
    }
  }

  lemma PartShift(a: Key, b: Key, k: int)
    requires a != [] && b != [] && a[0] == b[0]
    ensures PartAt(a[1..], b[1..], k) <==> PartAt(a, b, k + 1) && k >= 0
  {
    if 0 <= k < |a| && k < |b| {
      var x, y := a[1..], b[1..];
      assert a[..k + 1] == [a[0]] + x[..k] && b[..k + 1] == [b[0]] + y[..k];
      assert x[..k] == a[1..k + 1] && y[..k] == b[1..k + 1];
      if a[..k + 1] == b[..k + 1] {
        assert a[1..k + 1] == a[..k + 1][1..] && b[1..k + 1] == b[..k + 1][1..];
      }
    }
  }

  lemma {:induction false} LessIrreflexive(a: Key)
    ensures !Less(a, a)
  {
    if a != [] {
      LessIrreflexive(a[1..]);
    }
  }

  lemma {:induction false} LessTransitive(a: Key, b: Key, c: Key)
    requires Less(a, b) && Less(b, c)
    ensures Less(a, c)
  {
    if a != [] && a[0] == b[0] && b[0] == c[0] {
      LessTransitive(a[1..], b[1..], c[1..]);
    }
  }

  lemma {:induction false} LessTotal(a: Key, b: Key)
    ensures Less(a, b) || a == b || Less(b, a)
  {
    if a != [] && b != [] && a[0] == b[0] {
      LessTotal(a[1..], b[1..]);
      assert a == [a[0]] + a[1..] && b == [b[0]] + b[1..];
    }
  }

  /** Nothing in s is before k. */
  predicate Lowest(s: set<Key>, k: Key) {
    forall x :: x in s ==> !Less(x, k)
  }

  lemma {:induction false} LowestExists(s: set<Key>)
    requires s != {}
    ensures exists k :: k in s && Lowest(s, k)
    decreases |s|
  {
    var a :| a in s;
    var t := s - {a};
    if t == {} {
      LessIrreflexive(a);
      forall x | x in s
        ensures x == a
      {
        assert x !in t;
      }
      assert Lowest(s, a);
    } else {
      LowestExists(t);
      var b :| b in t && Lowest(t, b);
      if Less(a, b) {
        forall x | x in s
          ensures !Less(x, a)
        {
          if x == a {
            LessIrreflexive(a);
          } else if Less(x, a) {
            LessTransitive(x, a, b);
          }
        }
        assert Lowest(s, a);
      } else {
        assert Lowest(s, b);
      }
    }
  }

  lemma LowestUnique(s: set<Key>, a: Key, b: Key)
    requires a in s && b in s && Lowest(s, a) && Lowest(s, b)
    ensures a == b
  {
    LessTotal(a, b);
  }

  /** The first key in byte order. */
  ghost function Least(s: set<Key>): (k: Key)
    requires s != {}
    ensures k in s && Lowest(s, k)
  {
    LowestExists(s);
    var k :| k in s && Lowest(s, k);
    k
  }

  lemma LeastIs(s: set<Key>, k: Key)
    requires k in s && Lowest(s, k)
    ensures s != {} && Least(s) == k
  {
    LowestUnique(s, k, Least(s));
  }

  /** The first key of a union is the first of the two firsts. */
  lemma LeastOfUnion(s: set<Key>, t: set<Key>)
    requires s != {} && t != {}
    ensures Least(s + t) == if Less(Least(t), Least(s)) then Least(t) else Least(s)
  {
    var k := if Less(Least(t), Least(s)) then Least(t) else Least(s);
    forall x | x in s + t
      ensures !Less(x, k)
    {
      if Less(x, k) {
        NotBefore(s, t, x, k);
      }
    }
    LeastIs(s + t, k);
  }

  lemma NotBefore(s: set<Key>, t: set<Key>, x: Key, k: Key)
    requires s != {} && t != {} && x in s + t && k == if Less(Least(t), Least(s)) then Least(t) else Least(s)
    ensures !Less(x, k)
  {
    var a, b := Least(s), Least(t);
    if Less(x, k) {
      if x in s {
        if k == b {
          LessTransitiveTo(x, b, a);
        }
      } else {
        if k == a {
          if Less(a, b) {
            LessTransitive(x, a, b);
          } else {
            LessTotal(a, b);
          }
        }
      }
    }
  }

  lemma LessTransitiveTo(a: Key, b: Key, c: Key)
    requires Less(a, b)
    ensures Less(b, c) ==> Less(a, c)
  {
    if Less(b, c) {
      LessTransitive(a, b, c);
    }
  }

  /** The keys not before k, and the keys after k. */
  function From(s: set<Key>, k: Key): set<Key> { set x | x in s && !Less(x, k) }

  function After(s: set<Key>, k: Key): set<Key> { set x | x in s && Less(k, x) }

  /** A position in an ordered container: at one of its keys, or past the end. */
  datatype Pos = End | At(key: Key)

  ghost function First(s: set<Key>): Pos {
    if s == {} then End else At(Least(s))
  }

  /** What an iterator at p has still to visit of s. */
  function FromPos(s: set<Key>, p: Pos): set<Key> {
    if p.End? then {} else From(s, p.key)
  }

  lemma FromFirst(s: set<Key>)
    ensures FromPos(s, First(s)) == s
  {
  }

  /** Stepping from a key of the container leaves out exactly that key. */
  lemma StepPos(s: set<Key>, k: Key)
    requires k in s
    ensures FromPos(s, First(After(s, k))) == From(s, k) - {k}
  {
    var r := After(s, k);
    forall x | x in s
      ensures x in FromPos(s, First(r)) <==> x in From(s, k) && x != k
    {
      LessIrreflexive(k);
      LessTotal(x, k);
      if Less(k, x) {
        LessAsymmetric(k, x);
        assert x in r;
      } else if r != {} {
        NotAfter(x, k, Least(r));
      }
    }
  }

  lemma LessAsymmetric(a: Key, b: Key)
    requires Less(a, b)
    ensures !Less(b, a)
  {
    if Less(b, a) {
      LessTransitive(a, b, a);
      LessIrreflexive(a);
    }
  }

  lemma NotAfter(x: Key, k: Key, l: Key)
    requires !Less(k, x) && Less(k, l)
    ensures Less(x, l)
  {
    LessTotal(x, k);
    if Less(x, k) {
      LessTransitive(x, k, l);
    }
  }

  /** The first position of a container, found by going through its keys. */
  method FindFirst(s: set<Key>) returns (p: Pos)
    ensures p == First(s)
  {
    p := End;
    var left := s;
    while left != {}
      invariant left <= s && p == First(s - left)
      decreases |left|
    {
      var k :| k in left;
      ghost var seen := s - left;
      assert s - (left - {k}) == seen + {k};
      OneMoreKey(seen, k);
      if p.End? || Less(k, p.key) {
        p := At(k);
      }
      left := left - {k};
    }
    assert s - left == s;
  }

  lemma OneMoreKey(s: set<Key>, k: Key)
    ensures First(s + {k}) == if s == {} || Less(k, Least(s)) then At(k) else At(Least(s))
  {
    LessIrreflexive(k);
    if s == {} {
      LeastIs(s + {k}, k);
    } else {
      LeastIs({k}, k);
      LeastOfUnion(s, {k});
    }
  }
}
