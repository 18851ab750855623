/**
 base_uint (src/arith_uint256.h, src/arith_uint256.cpp): unsigned integers of a fixed number of bits in
 an array of 32-bit words, least significant first. Value() is the number an object stands for.
 */
module ArithUint {
  import opened Power
  import opened Words
  import opened WordShifts

  // ----- one step of each carry chain -----

  lemma AddStep(r: seq<Word>, a: seq<Word>, b: seq<Word>, i: nat, carry: nat, w: Word, c: nat)
    requires i < |r| == |a| == |b| && r[i] == w && carry + a[i] + b[i] == c * B + w
    requires Val(r[..i]) + carry * Weight(i) == Val(a[..i]) + Val(b[..i])
    ensures Val(r[..i + 1]) + c * Weight(i + 1) == Val(a[..i + 1]) + Val(b[..i + 1])
  {
    ValTake(r, i);
    ValTake(a, i);
    ValTake(b, i);
    CarryStep(carry + a[i] + b[i], w, c, i);
    Distribute(carry + a[i], b[i], Weight(i));
    Distribute(carry, a[i], Weight(i));
  }

  /** The 64-bit total of a multiplication step: it does not overflow, and its carry is a word. */
  function MulAdd(carry: Word, a: Word, p: Word, q: Word): (n: nat)
    ensures n < 0x1_0000_0000_0000_0000 && n / B < B
  {
    ProductBound(p, q);
    carry + a + p * q
  }

  lemma ProductBound(p: Word, q: Word)
    ensures 0 <= p * q <= 0xffff_fffe_0000_0001
  {
    MulMono(p, 0xffff_ffff, q);
    MulMono(0, p, q);
    assert 0xffff_ffff * q <= 0xffff_ffff * 0xffff_ffff;
  }

  lemma MulAlgebra(v: int, m: int, x: int, carry: int, w: int)
    ensures (carry + m * x) * w + m * v == carry * w + m * (v + x * w)
  {
    Distribute(carry, m * x, w);
    MulAssoc(m, x, w);
    assert m * (v + x * w) == m * v + m * (x * w);
  }

  lemma MulStep(r: seq<Word>, a: seq<Word>, m: Word, i: nat, carry: nat, w: Word, c: nat)
    requires i < |r| == |a| && r[i] == w && carry < B && MulAdd(carry, 0, m, a[i]) == c * B + w
    requires Val(r[..i]) + carry * Weight(i) == m * Val(a[..i])
    ensures Val(r[..i + 1]) + c * Weight(i + 1) == m * Val(a[..i + 1])
  {
    hide Val, Weight;
    ValTake(r, i);
    ValTake(a, i);
    assert carry + m * a[i] == c * B + w;
    CarryStep(carry + m * a[i], w, c, i);
    MulAlgebra(Val(a[..i]), m, a[i], carry, Weight(i));
  }

  /** A carry out of the top word is a multiple of the modulus. */
  lemma Wraps(r: seq<Word>, carry: nat, total: nat)
    requires Val(r) + carry * Weight(|r|) == total
    ensures Val(r) == total % Weight(|r|)
  {
    ValBelow(r);
    DivModUnique(total, Weight(|r|), carry, Val(r));
  }

  lemma RowAlgebra(m: int, u: int, v: int, y: int, t: int, carry: int, a: int)
    ensures (carry + a + m * y) * (u * t) + (m * u) * v == carry * (u * t) + a * (u * t) + (m * u) * (v + y * t)
  {
    Distribute(carry + a, m * y, u * t);
    Distribute(carry, a, u * t);
    MulAssoc(m, y, u * t);
    MulAssoc(y, u, t);
    MulAssoc(u, y, t);
    MulAssoc(m, u, y * t);
    assert (m * u) * (v + y * t) == (m * u) * v + (m * u) * (y * t);
  }

  /** One word of a row of the schoolbook multiplication: m * y, shifted by j words, is added to a. */
  lemma RowStep(r: seq<Word>, a: seq<Word>, y: seq<Word>, m: Word, j: nat, i: nat, carry: nat, w: Word, c: nat)
    requires i + j < |r| == |a| && i < |y| && r[i + j] == w
    requires carry < B && MulAdd(carry, a[i + j], m, y[i]) == c * B + w
    requires Val(r[..i + j]) + carry * Weight(i + j) == Val(a[..i + j]) + (m * Weight(j)) * Val(y[..i])
    ensures Val(r[..i + j + 1]) + c * Weight(i + j + 1) == Val(a[..i + j + 1]) + (m * Weight(j)) * Val(y[..i + 1])
  {
    hide Val, Weight;
    WeightAdd(j, i);
    var n := carry + a[i + j] + m * y[i];
    assert n == c * B + w;
    ValTake(r, i + j);
    ValTake(a, i + j);
    ValTake(y, i);
    CarryStep(n, w, c, i + j);
    RowAlgebra(m, Weight(j), Val(y[..i]), y[i], Weight(i), carry, a[i + j]);
  }

  lemma RowEndAlgebra(m: int, u: int, t: int, v: int, z: int, w: int)
    requires w == u * t
    ensures (m * u) * (v + t * z) == (m * u) * v + (m * z) * w
  {
    assert (m * u) * (v + t * z) == (m * u) * v + (m * u) * (t * z);
    MulAssoc(m, u, t * z);
    MulAssoc(u, t, z);
    MulAssoc(m, z, u * t);
  }

  lemma RowTotal(r: int, carry: int, w: int, a: int, k: int, v: int, x: int, all: int)
    requires r + carry * w == a + k * v && k * all == k * v + x * w
    ensures r + (carry + x) * w == a + k * all
  {
    Distribute(carry, x, w);
  }

  /** What a row cuts off at the top word is a multiple of the modulus. */
  lemma RowEnd(r: seq<Word>, a: seq<Word>, y: seq<Word>, m: Word, j: nat, carry: nat)
    requires |r| == |a| == |y| && j <= |r|
    requires Val(r) + carry * Weight(|r|) == Val(a) + (m * Weight(j)) * Val(y[..|r| - j])
    ensures Val(r) == (Val(a) + (m * Weight(j)) * Val(y)) % Weight(|r|)
  {
    hide Val, Weight;
    var k := |r| - j;
    var z := Val(y[k..]);
    WeightAdd(j, k);
    ValSplit(y, k);
    RowEndAlgebra(m, Weight(j), Weight(k), Val(y[..k]), z, Weight(|r|));
    RowTotal(Val(r), carry, Weight(|r|), Val(a), m * Weight(j), Val(y[..k]), m * z, Val(y));
    assert carry + m * z >= 0;
    Wraps(r, carry + m * z, Val(a) + (m * Weight(j)) * Val(y));
  }

  lemma RowsStep(x: seq<Word>, y: nat, j: nat, a: nat, m: nat)
    requires j < |x| && m > 0 && a == (Val(x[..j]) * y) % m
    ensures (a + (x[j] * Weight(j)) * y) % m == (Val(x[..j + 1]) * y) % m
  {
    hide Val, Weight;
    ValTake(x, j);
    Distribute(Val(x[..j]), x[j] * Weight(j), y);
    ModAdd(Val(x[..j]) * y, (x[j] * Weight(j)) * y, m);
  }

  lemma ModAdd(p: int, q: int, m: nat)
    requires m > 0
    ensures (p % m + q) % m == (p + q) % m
  {
    var k := p / m;
    assert p == k * m + p % m;
    ModSame(p % m + q, k, m);
  }

  lemma ComplementStep(s: seq<Word>, t: seq<Word>, i: nat)
    requires i < |s| == |t| && t[i] == B - 1 - s[i] && Val(t[..i]) + Val(s[..i]) + 1 == Weight(i)
    ensures Val(t[..i + 1]) + Val(s[..i + 1]) + 1 == Weight(i + 1)
  {
    ValTake(s, i);
    ValTake(t, i);
    WeightStep(i);
    Distribute(t[i], s[i], Weight(i));
  }

  /** Adding one to word i either stays there or carries one into word i + 1. */
  lemma IncrementWord(s: seq<Word>, i: nat)
    requires i < |s|
    ensures var w := (s[i] + 1) % B;
      Val(s[i := w]) + (if w == 0 then Weight(i + 1) else 0) == Val(s) + Weight(i)
  {
    hide Val, Weight;
    var w := (s[i] + 1) % B;
    ValUpdate(s, i, w);
    WeightStep(i);
    if w == 0 {
      assert (w - s[i]) * Weight(i) == Weight(i) - B * Weight(i);
    }
  }

  lemma DecrementWord(s: seq<Word>, i: nat)
    requires i < |s|
    ensures var w := (s[i] - 1) % B;
      Val(s[i := w]) + Weight(i) == Val(s) + if w == B - 1 then Weight(i + 1) else 0
  {
    hide Val, Weight;
    var w := (s[i] - 1) % B;
    ValUpdate(s, i, w);
    WeightStep(i);
    if s[i] == 0 {
      assert w == B - 1;
      assert (w - s[i]) * Weight(i) == B * Weight(i) - Weight(i);
    } else {
      assert w == s[i] - 1;
    }
  }

  lemma AddNegative(x: nat, y: nat, m: nat)
    requires x < m && y < m
    ensures (x + (m - y) % m) % m == (x - y) % m
  {
    if y == 0 {
      DivModUnique(m, m, 1, 0);
    } else {
      DivModUnique(m - y, m, 0, m - y);
      ModSame(x - y, 1, m);
    }
  }

  lemma LowTwo(s: seq<Word>, b: nat)
    requires |s| >= 2 && b < B * B && s[0] == b % B && s[1] == b / B
    requires forall i :: 2 <= i < |s| ==> s[i] == 0
    ensures Val(s) == b
  {
    assert Weight(0) == 1 && Val(s[..0]) == 0;
    hide Val, Weight;
    ValSplit(s, 2);
    ValZeroes(s[2..]);
    ValTake(s, 1);
    ValTake(s, 0);
    WeightStep(0);
  }

  class BaseUint {
    const pn: array<Word>

    ghost predicate Valid() {
      pn.Length >= 2
    }

    ghost function Value(): nat
      reads pn
    {
      Val(pn[..])
    }

    /** 2^BITS */
    ghost function Modulus(): (m: nat)
      ensures m > 0
    {
      Weight(pn.Length)
    }

    constructor (width: nat)
      requires width >= 2
      ensures Valid() && fresh(pn) && pn.Length == width && Value() == 0
    {
      pn := new Word[width](_ => 0);
      new;
      ValZeroes(pn[..]);
    }

    constructor Copy(b: BaseUint)
      requires b.Valid()
      ensures Valid() && fresh(pn) && pn.Length == b.pn.Length && pn[..] == b.pn[..]
    {
      var p := new Word[b.pn.Length];
      for i := 0 to p.Length
        invariant forall j :: 0 <= j < i ==> p[j] == b.pn[j]
      {
        p[i] := b.pn[i];
      }
      pn := p;
      new;
      assert pn[..] == b.pn[..];
    }

    /** operator+= */
    method Add(b: BaseUint)
      requires Valid() && b.Valid() && b.pn.Length == pn.Length
      modifies pn
      ensures Value() == (old(Value()) + old(b.Value())) % Modulus()
    {
      ghost var x, y := pn[..], b.pn[..];
      var carry := 0;
      var i := 0;
      while i < pn.Length
        invariant 0 <= i <= pn.Length && 0 <= carry <= 1
        invariant forall j :: i <= j < pn.Length ==> pn[j] == x[j] && b.pn[j] == y[j]
        invariant Val(pn[..i]) + carry * Weight(i) == Val(x[..i]) + Val(y[..i])
      {
        hide Val, Weight;
        var n := carry + pn[i] + b.pn[i];
        ghost var before := pn[..i];
        pn[i] := n % B;
        assert pn[..][..i] == pn[..i] == before && pn[..][..i + 1] == pn[..i + 1];
        AddStep(pn[..], x, y, i, carry, n % B, n / B);
        carry := n / B;
        i := i + 1;
      }
      assert pn[..i] == pn[..] && x[..i] == x && y[..i] == y;
      Wraps(pn[..], carry, Val(x) + Val(y));
    }

    /** operator=(uint64_t) */
    method Assign64(b: nat)
      requires Valid() && b < 0x1_0000_0000_0000_0000
      modifies pn
      ensures Value() == b
    {
      pn[0] := b % B;
      pn[1] := b / B;
      for i := 2 to pn.Length
        invariant pn[0] == b % B && pn[1] == b / B && forall j :: 2 <= j < i ==> pn[j] == 0
      {
        pn[i] := 0;
      }
      LowTwo(pn[..], b);
    }

    /** operator= */
    method Assign(b: BaseUint)
      requires b.pn.Length == pn.Length
      modifies pn
      ensures pn[..] == old(b.pn[..])
    {
      ghost var y := b.pn[..];
      for i := 0 to pn.Length
        invariant forall j :: 0 <= j < i ==> pn[j] == y[j]
        invariant forall j :: i <= j < pn.Length ==> b.pn[j] == y[j]
      {
        pn[i] := b.pn[i];
      }
    }

    /** operator++ */
    method Increment()
      requires Valid()
      modifies pn
      ensures Value() == (old(Value()) + 1) % Modulus()
    {
      hide Val, Weight;
      WeightZero();
      ghost var x := pn[..];
      var i := 0;
      IncrementWord(pn[..], 0);
      pn[0] := (pn[0] + 1) % B;
      assert pn[..] == x[0 := (x[0] + 1) % B];
      while pn[i] == 0 && i < pn.Length - 1
        invariant 0 <= i < pn.Length
        invariant Val(pn[..]) + (if pn[i] == 0 then Weight(i + 1) else 0) == Val(x) + 1
      {
        i := i + 1;
        IncrementWord(pn[..], i);
        ghost var t := pn[..];
        pn[i] := (pn[i] + 1) % B;
        assert pn[..] == t[i := (t[i] + 1) % B];
      }
      Wraps(pn[..], if pn[i] == 0 then 1 else 0, Val(x) + 1);
    }

    /** operator-- */
    method Decrement()
      requires Valid()
      modifies pn
      ensures Value() == (old(Value()) - 1) % Modulus()
    {
      hide Val, Weight;
      WeightZero();
      ghost var x := pn[..];
      var i := 0;
      DecrementWord(pn[..], 0);
      pn[0] := (pn[0] - 1) % B;
      assert pn[..] == x[0 := (x[0] - 1) % B];
      while pn[i] == B - 1 && i < pn.Length - 1
        invariant 0 <= i < pn.Length
        invariant Val(pn[..]) + 1 == Val(x) + if pn[i] == B - 1 then Weight(i + 1) else 0
      {
        i := i + 1;
        DecrementWord(pn[..], i);
        ghost var t := pn[..];
        pn[i] := (pn[i] - 1) % B;
        assert pn[..] == t[i := (t[i] - 1) % B];
      }
      ValBelow(pn[..]);
      DivModUnique(Val(x) - 1, Modulus(), if pn[i] == B - 1 then -1 else 0, Val(pn[..]));
    }

    /** Unary minus: the complement of every word, plus one. */
    method Negated() returns (ret: BaseUint)
      requires Valid()
      ensures fresh(ret) && fresh(ret.pn) && ret.Valid() && ret.pn.Length == pn.Length
      ensures ret.Value() == (Modulus() - Value()) % Modulus()
    {
      ret := new BaseUint(pn.Length);
      hide Weight;
      WeightZero();
      for i := 0 to pn.Length
        invariant Val(ret.pn[..i]) + Val(pn[..i]) + 1 == Weight(i)
      {
        ghost var before := ret.pn[..i];
        ret.pn[i] := B - 1 - pn[i];
        assert ret.pn[..][..i] == ret.pn[..i] == before && ret.pn[..][..i + 1] == ret.pn[..i + 1];
        assert pn[..][..i] == pn[..i] && pn[..][..i + 1] == pn[..i + 1];
        ComplementStep(pn[..], ret.pn[..], i);
      }
      assert ret.pn[..pn.Length] == ret.pn[..] && pn[..pn.Length] == pn[..];
      ret.Increment();
    }

    /** operator-= */
    method Subtract(b: BaseUint)
      requires Valid() && b.Valid() && b.pn.Length == pn.Length
      modifies pn
      ensures Value() == (old(Value()) - old(b.Value())) % Modulus()
    {
      hide Val, Weight;
      ghost var x, y := Value(), b.Value();
      ValBelow(pn[..]);
      ValBelow(b.pn[..]);
      AddNegative(x, y, Modulus());
      var c := b.Negated();
      Add(c);
    }

    /** operator*=(uint32_t) */
    method MultiplyWord(b32: Word)
      requires Valid()
      modifies pn
      ensures Value() == (b32 * old(Value())) % Modulus()
    {
      ghost var x := pn[..];
      var carry := 0;
      var i := 0;
      while i < pn.Length
        invariant 0 <= i <= pn.Length && 0 <= carry < B
        invariant forall j :: i <= j < pn.Length ==> pn[j] == x[j]
        invariant Val(pn[..i]) + carry * Weight(i) == b32 * Val(x[..i])
      {
        hide Val, Weight, MulAdd;
        var n := MulAdd(carry, 0, b32, pn[i]);
        ghost var before := pn[..i];
        pn[i] := n % B;
        assert pn[..][..i] == pn[..i] == before && pn[..][..i + 1] == pn[..i + 1];
        MulStep(pn[..], x, b32, i, carry, n % B, n / B);
        carry := n / B;
        i := i + 1;
      }
      assert pn[..i] == pn[..] && x[..i] == x;
      Wraps(pn[..], carry, b32 * Val(x));
    }

    /** -1, 0 or 1 as this is less than, equal to or greater than b. */
    method CompareTo(b: BaseUint) returns (r: int)
      requires b.pn.Length == pn.Length
      ensures r == if Value() < b.Value() then -1 else if Value() == b.Value() then 0 else 1
    {
      hide Val;
      ghost var x, y := pn[..], b.pn[..];
      var i := pn.Length - 1;
      while i >= 0
        invariant -1 <= i < pn.Length
        invariant forall j :: i < j < pn.Length ==> x[j] == y[j]
      {
        assert x[i + 1..] == y[i + 1..];
        if pn[i] < b.pn[i] {
          ValCompare(x, y, i);
          return -1;
        }
        if pn[i] > b.pn[i] {
          ValCompare(y, x, i);
          return 1;
        }
        i := i - 1;
      }
      assert x == y;
      return 0;
    }

    /** The inner loop of operator*=: adds m * b, shifted by j words, to this. */
    method AddRow(m: Word, b: BaseUint, j: nat)
      requires Valid() && b.pn.Length == pn.Length && b.pn != pn && j < pn.Length
      modifies pn
      ensures Value() == (old(Value()) + (m * Weight(j)) * b.Value()) % Modulus()
    {
      hide Val, Weight, MulAdd;
      ghost var x, y := pn[..], b.pn[..];
      var carry := 0;
      var i := 0;
      assert x[..0 + j] == pn[..0 + j];
      ValZeroes(y[..0]);
      while i + j < pn.Length
        invariant 0 <= i <= pn.Length - j && 0 <= carry < B && b.pn[..] == y
        invariant forall k :: i + j <= k < pn.Length ==> pn[k] == x[k]
        invariant Val(pn[..i + j]) + carry * Weight(i + j) == Val(x[..i + j]) + (m * Weight(j)) * Val(y[..i])
      {
        var n := MulAdd(carry, pn[i + j], m, b.pn[i]);
        ghost var before := pn[..i + j];
        pn[i + j] := n % B;
        assert pn[..][..i + j] == pn[..i + j] == before && pn[..][..i + j + 1] == pn[..i + j + 1];
        RowStep(pn[..], x, y, m, j, i, carry, n % B, n / B);
        carry := n / B;
        i := i + 1;
      }
      assert pn[..i + j] == pn[..] && x[..i + j] == x;
      RowEnd(pn[..], x, y, m, j, carry);
    }

    /** operator*= */
    method Multiply(b: BaseUint)
      requires Valid() && b.Valid() && b.pn.Length == pn.Length
      modifies pn
      ensures Value() == (old(Value()) * old(b.Value())) % Modulus()
    {
      ghost var x, y := pn[..], b.Value();
      var a := new BaseUint(pn.Length);
      assert Val(x[..0]) * y == 0;
      for j := 0 to pn.Length
        invariant pn[..] == x && b.Value() == y
        invariant a.Value() == (Val(x[..j]) * y) % Modulus()
      {
        hide Val, Weight;
        RowsStep(x, y, j, a.Value(), Modulus());
        a.AddRow(pn[j], b, j);
      }
      assert x[..pn.Length] == x;
      Assign(a);
    }

    /** operator<<= */
    method ShiftLeft(shift: nat)
      requires Valid()
      modifies pn
      ensures Value() == (old(Value()) * Pow(2, shift)) % Modulus()
    {
      hide Val, Weight, Pow, LeftUpTo, IsLeft;
      var a := new BaseUint.Copy(this);
      ghost var x := pn[..];
      Clear();
      var k, s := shift / 32, shift % 32;
      StartLeft(x, k, s, pn[..]);
      for i := 0 to pn.Length
        invariant a.pn[..] == x && LeftUpTo(x, k, s, i, pn[..])
      {
        LeftRound(a.pn[i], k, s, i, x);
      }
      LeftDone(x, k, s, pn[..]);
      LeftValue(x, k, s, pn[..]);
    }

    method LeftRound(w: Word, k: nat, s: nat, i: nat, ghost x: seq<Word>)
      requires i < |x| == pn.Length && w == x[i] && LeftUpTo(x, k, s, i, pn[..])
      modifies pn
      ensures LeftUpTo(x, k, s, i + 1, pn[..])
    {
      hide LeftWord, ShiftUp, ShiftDown, BitOr;
      LeftCross(x, k, s, i, pn[..]);
      if i + k + 1 < pn.Length && s != 0 {
        pn[i + k + 1] := BitOr(pn[i + k + 1], ShiftDown(w, 32 - s));
      }
      if i + k < pn.Length {
        LeftStay(x, k, s, i, pn[i + k]);
        pn[i + k] := BitOr(pn[i + k], ShiftUp(w, s));
      }
    }

    method Clear()
      modifies pn
      ensures forall j :: 0 <= j < pn.Length ==> pn[j] == 0
    {
      for i := 0 to pn.Length
        invariant forall j :: 0 <= j < i ==> pn[j] == 0
      {
        pn[i] := 0;
      }
    }

    /** operator>>= */
    method ShiftRight(shift: nat)
      requires Valid()
      modifies pn
      ensures Pow(2, shift) > 0 && Value() == old(Value()) / Pow(2, shift)
    {
      hide Val, Weight, Pow, RightUpTo, IsRight;
      var a := new BaseUint.Copy(this);
      ghost var x := pn[..];
      Clear();
      var k, s := shift / 32, shift % 32;
      StartRight(x, k, s, pn[..]);
      for i := 0 to pn.Length
        invariant a.pn[..] == x && RightUpTo(x, k, s, i, pn[..])
      {
        RightRound(a.pn[i], k, s, i, x);
      }
      RightDone(x, k, s, pn[..]);
      RightValue(x, k, s, pn[..]);
    }

    method RightRound(w: Word, k: nat, s: nat, i: nat, ghost x: seq<Word>)
      requires i < |x| == pn.Length && w == x[i] && RightUpTo(x, k, s, i, pn[..])
      modifies pn
      ensures RightUpTo(x, k, s, i + 1, pn[..])
    {
      hide RightWord, ShiftUp, ShiftDown, BitOr;
      OrZero(ShiftDown(w, s));
      if i - k - 1 >= 0 {
        RightCross(x, k, s, i, pn[i - k - 1]);
      }
      if i - k - 1 >= 0 && s != 0 {
        pn[i - k - 1] := BitOr(pn[i - k - 1], ShiftUp(w, 32 - s));
      }
      if i - k >= 0 {
        pn[i - k] := BitOr(pn[i - k], ShiftDown(w, s));
      }
    }

    /** The position of the highest bit set plus one, zero for zero. */
    method Bits() returns (r: nat)
      ensures IsBitLength(Value(), r)
    {
      hide Val, IsBitLength;
      ghost var x := pn[..];
      var pos := pn.Length - 1;
      while pos >= 0
        invariant -1 <= pos < pn.Length && forall j :: pos < j < pn.Length ==> x[j] == 0
      {
        if pn[pos] != 0 {
          var b := WordBits(pn[pos]);
          TopWordDecides(x, pos, b);
          return 32 * pos + b;
        }
        pos := pos - 1;
      }
      ValZeroes(x);
      NoBits();
      return 0;
    }

    /** pn[shift / 32] |= 1 << (shift & 31), where no bit up to shift is set. */
    method SetBit(shift: nat, ghost t: nat)
      requires shift < 32 * pn.Length && Value() == t * Pow(2, shift + 1)
      modifies pn
      ensures Value() == old(Value()) + Pow(2, shift)
    {
      hide Val, Pow, BitOr;
      var i, k := shift / 32, shift % 32;
      ghost var x := pn[..];
      SetBitValue(x, i, k, t);
      pn[i] := BitOr(pn[i], Pow(2, k));
      assert pn[..] == x[i := BitOr(x[i], Pow(2, k))];
    }

    /** operator/=: the floor quotient; division by zero is refused, after the value was set to zero. */
    method Divide(b: BaseUint) returns (ok: bool)
      requires Valid() && b.Valid() && b.pn.Length == pn.Length
      modifies pn
      ensures ok <==> old(b.Value()) != 0
      ensures ok ==> Value() == old(Value()) / old(b.Value())
      ensures !ok ==> Value() == 0
    {
      hide Val, Weight, Pow, IsBitLength, Dividing;
      ghost var n, d := Value(), b.Value();
      var div := new BaseUint.Copy(b);
      var num := new BaseUint.Copy(this);
      Assign64(0);
      var num_bits := num.Bits();
      var div_bits := div.Bits();
      ZeroLength(d, div_bits);
      if div_bits == 0 {
        return false;
      }
      if div_bits > num_bits {
        Shorter(n, d, num_bits, div_bits);
        return true;
      }
      var shift := num_bits - div_bits;
      LengthFits(num.pn[..], num_bits);
      StartDivision(n, d, num_bits, div_bits, pn.Length);
      div.ShiftLeft(shift);
      ghost var t := 0;
      while shift >= 0
        invariant -1 <= shift < 32 * pn.Length
        invariant Dividing(n, d, num.Value(), div.Value(), Value(), shift, t)
      {
        t := Round(num, div, shift, n, d, t);
        shift := shift - 1;
      }
      Divided(n, d, num.Value(), div.Value(), Value(), t);
      return true;
    }

    /** One round of long division at the given bit. */
    method Round(num: BaseUint, div: BaseUint, shift: nat, ghost n: nat, ghost d: nat,
        ghost t: nat) returns (ghost u: nat)
      requires num.Valid() && div.Valid() && num.pn.Length == div.pn.Length == pn.Length
      requires num.pn != div.pn && num.pn != pn && div.pn != pn && shift < 32 * pn.Length
      requires Dividing(n, d, num.Value(), div.Value(), Value(), shift, t)
      modifies pn, num.pn, div.pn
      ensures Dividing(n, d, num.Value(), div.Value(), Value(), shift - 1, u)
    {
      hide Val, Weight, Pow, Dividing;
      ghost var r, e, q := num.Value(), div.Value(), Value();
      ValBelow(num.pn[..]);
      ValBelow(div.pn[..]);
      QuotientShape(n, d, r, e, q, shift, t);
      DivisionStep(n, d, r, e, q, shift, t);
      var c := num.CompareTo(div);
      u := 2 * t;
      if c >= 0 {
        Reduced(r - e, Modulus());
        num.Subtract(div);
        SetBit(shift, t);
        u := 2 * t + 1;
      }
      div.ShiftRight(1);
      PowOne();
    }
  }

  /** The bit length of one word: the inner loop of bits(). */
  method WordBits(x: Word) returns (b: nat)
    requires x != 0
    ensures IsBitLength(x, b)
  {
    WordIsPower();
    PowOne();
    hide TestBit, Pow;
    var bits := 31;
    while bits > 0
      invariant 0 <= bits <= 31 && x < Pow(2, bits + 1)
    {
      TestTop(x, bits);
      if TestBit(x, bits) {
        return bits + 1;
      }
      bits := bits - 1;
    }
    return 1;
  }

  lemma PowOne()
    ensures Pow(2, 0) == 1 && Pow(2, 1) == 2
  {
  }

  lemma NoBits()
    ensures IsBitLength(0, 0)
  {
  }

  lemma ZeroLength(v: nat, r: nat)
    requires IsBitLength(v, r)
    ensures v == 0 <==> r == 0
  {
  }

  lemma Shorter(n: nat, d: nat, nb: nat, db: nat)
    requires IsBitLength(n, nb) && IsBitLength(d, db) && nb < db
    ensures d > 0 && 0 == n / d
  {
    if n > 0 {
      PowMono(2, nb, db - 1);
    }
    DivModUnique(n, d, 0, n);
  }

  /** Long division at bit shift: n is q * d + r, r is below 2^(shift + 1) * d, and q has no bit up to shift. */
  ghost predicate Dividing(n: nat, d: nat, r: nat, e: nat, q: nat, shift: int, t: nat) {
    && shift >= -1 && d > 0
    && n == q * d + r && r < d * Pow(2, shift + 1)
    && q == t * Pow(2, shift + 1)
    && (shift >= 0 ==> e == d * Pow(2, shift))
  }

  lemma LengthFits(s: seq<Word>, r: nat)
    requires IsBitLength(Val(s), r)
    ensures r <= 32 * |s|
  {
    if r > 32 * |s| {
      ValBelow(s);
      WeightIsPower(|s|);
      PowMono(2, 32 * |s|, r - 1);
    }
  }

  lemma StartDivision(n: nat, d: nat, nb: nat, db: nat, width: nat)
    requires IsBitLength(n, nb) && IsBitLength(d, db) && 0 < db <= nb <= 32 * width
    ensures (d * Pow(2, nb - db)) % Weight(width) == d * Pow(2, nb - db)
    ensures Dividing(n, d, n, d * Pow(2, nb - db), 0, nb - db, 0)
  {
    var p := Pow(2, nb - db);
    assert d < Pow(2, db) && Pow(2, db - 1) <= d && n < Pow(2, nb) && d > 0;
    PowAdd(2, db, nb - db);
    PowAdd(2, db - 1, nb - db + 1);
    hide Pow, Weight;
    WeightIsPower(width);
    PowPositive(2, nb - db);
    PowPositive(2, nb - db + 1);
    StrictProduct(d, Pow(2, db), p);
    PowMono(2, nb, 32 * width);
    DivModUnique(d * p, Weight(width), 0, d * p);
    MulMono(Pow(2, db - 1), d, Pow(2, nb - db + 1));
  }

  lemma StrictProduct(x: nat, y: nat, z: nat)
    requires x < y && z > 0
    ensures x * z < y * z
  {
    MulMono(x + 1, y, z);
    Distribute(x, 1, z);
  }

  lemma QuotientShape(n: nat, d: nat, r: nat, e: nat, q: nat, shift: nat, t: nat)
    requires Dividing(n, d, r, e, q, shift, t)
    ensures q == t * Pow(2, shift + 1)
  {
  }

  /** Taking the bit or leaving it keeps the invariant one bit further down. */
  lemma DivisionStep(n: nat, d: nat, r: nat, e: nat, q: nat, shift: nat, t: nat)
    requires Dividing(n, d, r, e, q, shift, t)
    ensures r >= e ==> Dividing(n, d, r - e, e / 2, q + Pow(2, shift), shift - 1, 2 * t + 1)
    ensures r < e ==> Dividing(n, d, r, e / 2, q, shift - 1, 2 * t)
  {
    Doubling(shift);
    if shift >= 1 {
      Doubling(shift - 1);
      ShiftBack(d, Pow(2, shift - 1));
    }
    hide Pow;
    StepAlgebra(d, q, t, Pow(2, shift));
  }

  lemma Doubling(k: nat)
    ensures Pow(2, k + 1) == 2 * Pow(2, k)
  {
  }

  lemma ShiftBack(d: nat, p: nat)
    ensures (d * (2 * p)) / 2 == d * p
  {
    assert d * (2 * p) == 2 * (d * p);
  }

  lemma StepAlgebra(d: nat, q: nat, t: nat, p: nat)
    ensures d * (2 * p) == 2 * (d * p)
    ensures t * (2 * p) == (2 * t) * p
    ensures (2 * t + 1) * p == (2 * t) * p + p
    ensures (q + p) * d == q * d + d * p
  {
    Distribute(2 * t, 1, p);
    Distribute(q, p, d);
  }

  lemma Reduced(x: nat, m: nat)
    requires x < m
    ensures x % m == x
  {
    DivModUnique(x, m, 0, x);
  }

  lemma Divided(n: nat, d: nat, r: nat, e: nat, q: nat, t: nat)
    requires Dividing(n, d, r, e, q, -1, t)
    ensures d > 0 && q == n / d
  {
    PowOne();
    DivModUnique(n, d, q, r);
  }

  lemma StartLeft(x: seq<Word>, k: nat, s: nat, r: seq<Word>)
    requires s < 32 && |r| == |x| && forall j :: 0 <= j < |r| ==> r[j] == 0
    ensures LeftUpTo(x, k, s, 0, r)
  {
  }

  lemma StartRight(x: seq<Word>, k: nat, s: nat, r: seq<Word>)
    requires s < 32 && |r| == |x| && forall j :: 0 <= j < |r| ==> r[j] == 0
    ensures RightUpTo(x, k, s, 0, r)
  {
  }
}
