/**
 Bech32 (src/bech32.cpp; "Bech32" and its "Checksum" subsection of BIP 173). Strings and data are
 sequences of bytes; the checksum is a 30-bit state in a 32-bit word.
 */
module Bech32 {

  type Bytes = seq<bv8>

  // ----- one step of the checksum is linear over XOR and injective -----

  function Xor(a: bv32, b: bv32): bv32 { a ^ b }
  function AddIf(p: bool, x: bv32, k: bv32): bv32 { if p then Xor(x, k) else x }
  function Low(c: bv32): bv32 { (c & 0x1ffffff) << 5 }
  function Bit(c: bv32, i: nat): bool {
    var c0 := c >> 25;
    match i
    case 0 => c0 & 1 != 0
    case 1 => c0 & 2 != 0
    case 2 => c0 & 4 != 0
    case 3 => c0 & 8 != 0
    case _ => c0 & 16 != 0
  }

  function Shift(c: bv32): bv32 {
    var d := AddIf(Bit(c, 0), Low(c), 0x3b6a57b2);
    var d := AddIf(Bit(c, 1), d, 0x26508e6d);
    var d := AddIf(Bit(c, 2), d, 0x1ea119fa);
    var d := AddIf(Bit(c, 3), d, 0x3d4233dd);
    AddIf(Bit(c, 4), d, 0x2a1462b3)
  }

  lemma BitXor(a: bv32, b: bv32, i: nat)
    ensures Bit(Xor(a, b), i) <==> Bit(a, i) != Bit(b, i)
  {
    if i == 0 {
    } else if i == 1 {
    } else if i == 2 {
    } else if i == 3 {
    }
  }
  lemma LowXor(a: bv32, b: bv32)
    ensures Low(Xor(a, b)) == Xor(Low(a), Low(b))
  {
  }

  lemma XorUnit(k: bv32)
    ensures Xor(k, k) == 0 && Xor(k, 0) == k
  {
  }

  lemma XorAssoc(x: bv32, y: bv32, k: bv32)
    ensures Xor(x, Xor(y, k)) == Xor(Xor(x, y), k)
  {
  }

  lemma XorCommutes(x: bv32, y: bv32)
    ensures Xor(x, y) == Xor(y, x)
  {
  }

  lemma XorSwap(x: bv32, y: bv32, k: bv32)
    ensures Xor(Xor(x, k), y) == Xor(Xor(x, y), k)
  {
    hide Xor;
    XorAssoc(x, k, y);
    XorCommutes(k, y);
    XorAssoc(x, y, k);
  }

  lemma XorCancel(x: bv32, y: bv32, k: bv32)
    ensures Xor(Xor(x, k), Xor(y, k)) == Xor(x, y)
  {
    hide Xor;
    XorAssoc(Xor(x, k), y, k);
    XorSwap(x, y, k);
    XorAssoc(Xor(x, y), k, k);
    XorUnit(k);
    XorUnit(Xor(x, y));
  }

  lemma AddIfXor(p: bool, q: bool, x: bv32, y: bv32, k: bv32)
    ensures AddIf(p != q, Xor(x, y), k) == Xor(AddIf(p, x, k), AddIf(q, y, k))
  {
    hide Xor;
    XorCancel(x, y, k);
    XorSwap(x, y, k);
    XorAssoc(x, y, k);
  }

  lemma ShiftLinear(a: bv32, b: bv32)
    ensures Shift(Xor(a, b)) == Xor(Shift(a), Shift(b))
  {
    hide Low, Bit, AddIf, Xor;
    LowXor(a, b);
    BitXor(a, b, 0); BitXor(a, b, 1); BitXor(a, b, 2); BitXor(a, b, 3); BitXor(a, b, 4);
    AddIfXor(Bit(a, 0), Bit(b, 0), Low(a), Low(b), 0x3b6a57b2);
    var x1, y1 := AddIf(Bit(a, 0), Low(a), 0x3b6a57b2), AddIf(Bit(b, 0), Low(b), 0x3b6a57b2);
    AddIfXor(Bit(a, 1), Bit(b, 1), x1, y1, 0x26508e6d);
    var x2, y2 := AddIf(Bit(a, 1), x1, 0x26508e6d), AddIf(Bit(b, 1), y1, 0x26508e6d);
    AddIfXor(Bit(a, 2), Bit(b, 2), x2, y2, 0x1ea119fa);
    var x3, y3 := AddIf(Bit(a, 2), x2, 0x1ea119fa), AddIf(Bit(b, 2), y2, 0x1ea119fa);
    AddIfXor(Bit(a, 3), Bit(b, 3), x3, y3, 0x3d4233dd);
    var x4, y4 := AddIf(Bit(a, 3), x3, 0x3d4233dd), AddIf(Bit(b, 3), y3, 0x3d4233dd);
    AddIfXor(Bit(a, 4), Bit(b, 4), x4, y4, 0x2a1462b3);
  }

  function Five(x: bv32): bv32 { x & 31 }

  lemma FiveAddIf(p: bool, x: bv32, k: bv32)
    ensures Five(AddIf(p, x, k)) == AddIf(p, Five(x), Five(k))
  {
  }

  lemma Independent(p0: bool, p1: bool, p2: bool, p3: bool, p4: bool)
    requires AddIf(p4, AddIf(p3, AddIf(p2, AddIf(p1, AddIf(p0, 0, 0x12), 0x0d), 0x1a), 0x1d), 0x13) == 0
    ensures !p0 && !p1 && !p2 && !p3 && !p4
  {
  }

  lemma FiveConstants(c: bv32)
    ensures Five(0x3b6a57b2) == 0x12 && Five(0x26508e6d) == 0x0d && Five(0x1ea119fa) == 0x1a
    ensures Five(0x3d4233dd) == 0x1d && Five(0x2a1462b3) == 0x13 && Five(Low(c)) == 0 && Five(0) == 0
  {
  }

  lemma BitsAndLow(c: bv32)
    requires c < 0x40000000 && Low(c) == 0 && !Bit(c, 0) && !Bit(c, 1) && !Bit(c, 2) && !Bit(c, 3) && !Bit(c, 4)
    ensures c == 0
  {
  }

  lemma ShiftInjective(c: bv32)
    requires c < 0x40000000 && Shift(c) == 0
    ensures c == 0
  {
    var x := Low(c);
    var p0, p1, p2, p3, p4 := Bit(c, 0), Bit(c, 1), Bit(c, 2), Bit(c, 3), Bit(c, 4);
    assert c == 0 by {
      hide Low, Bit, AddIf, Five;
      FiveConstants(c);
      var d1 := AddIf(p0, x, 0x3b6a57b2);
      var d2 := AddIf(p1, d1, 0x26508e6d);
      var d3 := AddIf(p2, d2, 0x1ea119fa);
      var d4 := AddIf(p3, d3, 0x3d4233dd);
      FiveAddIf(p0, x, 0x3b6a57b2);
      FiveAddIf(p1, d1, 0x26508e6d);
      FiveAddIf(p2, d2, 0x1ea119fa);
      FiveAddIf(p3, d3, 0x3d4233dd);
      FiveAddIf(p4, d4, 0x2a1462b3);
      Independent(p0, p1, p2, p3, p4);
      NoTaps(c);
      BitsAndLow(c);
    }
  }

  lemma NoTaps(c: bv32)
    requires !Bit(c, 0) && !Bit(c, 1) && !Bit(c, 2) && !Bit(c, 3) && !Bit(c, 4)
    ensures Shift(c) == Low(c)
  {
    hide Bit, Xor, Low;
  }

  lemma AddIfRange(p: bool, x: bv32, k: bv32)
    requires x < 0x40000000 && k < 0x40000000
    ensures AddIf(p, x, k) < 0x40000000
  {
  }

  lemma ShiftRange(c: bv32)
    ensures Shift(c) < 0x40000000
  {
    assert Low(c) < 0x40000000;
    hide Low, Bit, AddIf;
    var d1 := AddIf(Bit(c, 0), Low(c), 0x3b6a57b2);
    AddIfRange(Bit(c, 0), Low(c), 0x3b6a57b2);
    var d2 := AddIf(Bit(c, 1), d1, 0x26508e6d);
    AddIfRange(Bit(c, 1), d1, 0x26508e6d);
    var d3 := AddIf(Bit(c, 2), d2, 0x1ea119fa);
    AddIfRange(Bit(c, 2), d2, 0x1ea119fa);
    var d4 := AddIf(Bit(c, 3), d3, 0x3d4233dd);
    AddIfRange(Bit(c, 3), d3, 0x3d4233dd);
    AddIfRange(Bit(c, 4), d4, 0x2a1462b3);
  }

  lemma SmallBits(c: bv32)
    requires c < 0x2000000
    ensures Low(c) == Up(c)
    ensures !Bit(c, 0) && !Bit(c, 1) && !Bit(c, 2) && !Bit(c, 3) && !Bit(c, 4)
  {
  }

  lemma ShiftSmall(c: bv32)
    requires c < 0x2000000
    ensures Shift(c) == Up(c)
  {
    SmallBits(c);
    NoTaps(c);
  }

  /** Multiplication by {2} in GF(32), modulo a^5 + a^3 + 1, of all six 5-bit coefficients of m. */
  function Double(m: bv32): bv32 {
    var carries := (m & 0x21084210) >> 4;
    ((m & 0x1ef7bdef) << 1) ^ carries ^ (carries << 3)
  }

  /** The five constants are k(x), {2}k(x), {4}k(x), {8}k(x) and {16}k(x). */
  lemma GeneratorMultiples()
    ensures Double(0x3b6a57b2) == 0x26508e6d && Double(0x26508e6d) == 0x1ea119fa
    ensures Double(0x1ea119fa) == 0x3d4233dd && Double(0x3d4233dd) == 0x2a1462b3
    ensures Groups(0x3b6a57b2) == [29, 22, 20, 21, 29, 18]
  {
    forall i | 0 <= i < 6
      ensures Groups(0x3b6a57b2)[i] == [29, 22, 20, 21, 29, 18][i]
    {
      assert Group(0x3b6a57b2, 0) == 29 && Group(0x3b6a57b2, 1) == 22 && Group(0x3b6a57b2, 2) == 20;
      assert Group(0x3b6a57b2, 3) == 21 && Group(0x3b6a57b2, 4) == 29 && Group(0x3b6a57b2, 5) == 18;
    }
  }

  /** What a step does: below x^6 it multiplies by x, and the five bits of the coefficient of x^6 bring in
      the five multiples of k(x). */
  lemma ShiftTaps(c: bv32)
    ensures c < 0x2000000 ==> Shift(c) == c << 5
    ensures Shift(0x2000000) == 0x3b6a57b2 && Shift(0x4000000) == 0x26508e6d && Shift(0x8000000) == 0x1ea119fa
    ensures Shift(0x10000000) == 0x3d4233dd && Shift(0x20000000) == 0x2a1462b3
  {
    if c < 0x2000000 {
      SmallBits(c);
      assert Low(c) == c << 5;
    }
  }

  // ----- reading a sequence of symbols -----

  function Wide(v: bv8): bv32 { v as bv32 }

  function Step(c: bv32, v: bv8): bv32 { Xor(Shift(c), Wide(v)) }

  /** The state after reading v from state c. */
  function Fold(c: bv32, v: Bytes): bv32 {
    if v == [] then c else Step(Fold(c, v[..|v| - 1]), v[|v| - 1])
  }

  function Residue(v: Bytes): bv32 { Fold(1, v) }

  lemma FoldNothing(c: bv32)
    ensures Fold(c, []) == c
  {
  }

  lemma FoldPush(c: bv32, v: Bytes, x: bv8)
    ensures Fold(c, v + [x]) == Step(Fold(c, v), x)
  {
    assert (v + [x])[..|v|] == v;
  }

  lemma {:induction false} FoldConcat(c: bv32, a: Bytes, b: Bytes)
    ensures Fold(c, a + b) == Fold(Fold(c, a), b)
    decreases |b|
  {
    if b == [] {
      assert a + b == a;
    } else {
      FoldConcat(c, a, b[..|b| - 1]);
      assert a + b == (a + b[..|b| - 1]) + [b[|b| - 1]];
      FoldPush(c, a + b[..|b| - 1], b[|b| - 1]);
    }
  }

  lemma WideXor(u: bv8, w: bv8)
    ensures Xor(Wide(u), Wide(w)) == Wide(u ^ w)
  {
  }

  /** The difference of two states steps like a state that reads the difference of the symbols. */
  lemma StepDifference(x: bv32, y: bv32, u: bv8, w: bv8)
    ensures Xor(Step(x, u), Step(y, w)) == Step(Xor(x, y), u ^ w)
  {
    hide Xor, Wide, Shift;
    ShiftLinear(x, y);
    WideXor(u, w);
    XorAssoc(Xor(Shift(x), Wide(u)), Shift(y), Wide(w));
    XorSwap(Shift(x), Shift(y), Wide(u));
    XorAssoc(Xor(Shift(x), Shift(y)), Wide(u), Wide(w));
  }

  /** A difference that k symbols of a window can make: 5k bits, and never more than 30. */
  predicate Within(d: bv32, k: int) {
    if k <= 0 then d == 0
    else if k == 1 then d < 0x20
    else if k == 2 then d < 0x400
    else if k == 3 then d < 0x8000
    else if k == 4 then d < 0x100000
    else if k == 5 then d < 0x2000000
    else d < 0x40000000
  }

  lemma SmallStep(d: bv32, e: bv8, k: int)
    requires 0 <= k < 6 && Within(d, k) && e < 32
    ensures Within(Xor(Up(d), Wide(e)), k + 1)
    ensures Xor(Up(d), Wide(e)) == 0 <==> d == 0 && e == 0
  {
    if k == 0 {
    } else if k == 1 {
    } else if k == 2 {
    } else if k == 3 {
    } else if k == 4 {
    }
  }

  lemma WithinSmall(d: bv32, k: int)
    requires k < 6 && Within(d, k)
    ensures d < 0x2000000
  {
  }

  lemma WithinWord(d: bv32, k: int)
    ensures k <= 0 && Within(d, k) ==> d == 0
    ensures Within(0, k)
    ensures Within(d, k) ==> d < 0x40000000
    ensures k >= 6 && d < 0x40000000 ==> Within(d, k)
  {
  }

  lemma ZeroSymbol(d: bv32)
    ensures Step(d, 0) == Shift(d)
  {
    hide Shift;
  }

  lemma ShiftZero()
    ensures Shift(0) == 0
  {
    ShiftSmall(0);
  }

  /** Inside the window a difference only grows by five bits; after it, it never vanishes. */
  lemma DifferenceStep(d: bv32, e: bv8, k: int)
    requires Within(d, k) && e < 32 && (0 <= k < 6 || e == 0)
    ensures Within(Step(d, e), k + 1)
    ensures Step(d, e) == 0 <==> d == 0 && e == 0
  {
    hide Within, Xor, Wide, Shift, Up;
    if 0 <= k < 6 {
      WithinSmall(d, k);
      ShiftSmall(d);
      SmallStep(d, e, k);
    } else {
      QuietStep(d, k);
    }
  }

  lemma QuietStep(d: bv32, k: int)
    requires Within(d, k) && !(0 <= k < 6)
    ensures Within(Step(d, 0), k + 1)
    ensures Step(d, 0) == 0 <==> d == 0
  {
    hide Within, Step, Shift;
    WithinWord(d, k);
    WithinWord(Shift(d), k + 1);
    ZeroSymbol(d);
    ShiftZero();
    ShiftRange(d);
    if Shift(d) == 0 {
      ShiftInjective(d);
    }
  }

  ghost predicate SameOutside(a: Bytes, b: Bytes, w: nat) {
    && |a| == |b|
    && (forall i :: 0 <= i < |a| ==> a[i] < 32 && b[i] < 32)
    && (forall i :: 0 <= i < |a| && !(w <= i < w + 6) ==> a[i] == b[i])
  }

  lemma SymbolXor(u: bv8, w: bv8)
    requires u < 32 && w < 32
    ensures u ^ w < 32 && (u ^ w == 0 <==> u == w)
  {
  }

  lemma SliceEqual(a: Bytes, b: Bytes, n: nat)
    requires 0 < n <= |a| == |b|
    ensures a[..n] == a[..n - 1] + [a[n - 1]]
    ensures a[..n] == b[..n] <==> a[..n - 1] == b[..n - 1] && a[n - 1] == b[n - 1]
  {
    assert a[..n] == a[..n - 1] + [a[n - 1]];
    assert b[..n] == b[..n - 1] + [b[n - 1]];
  }

  lemma {:induction false} DifferenceAfter(c: bv32, a: Bytes, b: Bytes, w: nat, n: nat)
    requires SameOutside(a, b, w) && n <= |a|
    ensures Within(Xor(Fold(c, a[..n]), Fold(c, b[..n])), n - w)
    ensures Xor(Fold(c, a[..n]), Fold(c, b[..n])) == 0 <==> a[..n] == b[..n]
  {
    hide Within, Xor, Step, Fold;
    if n == 0 {
      assert a[..0] == [] && b[..0] == [];
      FoldNothing(c);
      XorUnit(c);
      WithinWord(0, 0 - w);
    } else {
      DifferenceAfter(c, a, b, w, n - 1);
      var u, v := a[n - 1], b[n - 1];
      assert u < 32 && v < 32 && (0 <= n - 1 - w < 6 || u == v);
      hide SameOutside;
      SliceEqual(a, b, n);
      SliceEqual(b, a, n);
      FoldPush(c, a[..n - 1], u);
      FoldPush(c, b[..n - 1], v);
      NextDifference(Fold(c, a[..n - 1]), Fold(c, b[..n - 1]), u, v, n - 1 - w);
    }
  }

  lemma NextDifference(x: bv32, y: bv32, u: bv8, v: bv8, k: int)
    requires Within(Xor(x, y), k) && u < 32 && v < 32 && (0 <= k < 6 || u == v)
    ensures Within(Xor(Step(x, u), Step(y, v)), k + 1)
    ensures Xor(Step(x, u), Step(y, v)) == 0 <==> Xor(x, y) == 0 && u == v
  {
    hide Within, Xor, Step;
    SymbolXor(u, v);
    StepDifference(x, y, u, v);
    DifferenceStep(Xor(x, y), u ^ v, k);
  }

  /** Two symbol sequences that differ only inside one window of six never have the same residue. */
  lemma BurstDetected(c: bv32, a: Bytes, b: Bytes, w: nat)
    requires SameOutside(a, b, w) && a != b
    ensures Fold(c, a) != Fold(c, b)
  {
    hide Within, Xor, Fold;
    DifferenceAfter(c, a, b, w, |a|);
    assert a[..|a|] == a && b[..|a|] == b;
    XorUnit(Fold(c, a));
  }

  // ----- the checksum of a human-readable part and its data -----

  function High(c: bv8): bv8 { c >> 5 }

  function Lower5(c: bv8): bv8 { c & 31 }

  function Expanded(hrp: Bytes): Bytes {
    seq(|hrp|, i requires 0 <= i < |hrp| => High(hrp[i])) + [0]
      + seq(|hrp|, i requires 0 <= i < |hrp| => Lower5(hrp[i]))
  }

  predicate Verifies(hrp: Bytes, values: Bytes) {
    Residue(Expanded(hrp) + values) == 1
  }

  predicate Symbols(v: Bytes) {
    forall i :: 0 <= i < |v| ==> v[i] < 32
  }

  lemma ReadOne(v: Bytes, x: bv8, c: bv32, d: bv32)
    requires Residue(v) == c && Step(c, x) == d
    ensures Residue(v + [x]) == d
  {
    FoldPush(1, v, x);
  }

  lemma VectorSteps()
    ensures Step(0x1, 3) == 0x23 && Step(0x23, 0) == 0x460 && Step(0x460, 1) == 0x8c01
    ensures Step(0x8c01, 10) == 0x11802a && Step(0x11802a, 28) == 0x230055c && Step(0x230055c, 25) == 0x3d6afc2b
    ensures Step(0x3d6afc2b, 31) == 0x2f84386 && Step(0x2f84386, 20) == 0x24622766 && Step(0x24622766, 31) == 0x1
  {
  }

  /** The first valid string of BIP 173, A12UEL5L: no data under the human-readable part "a". */
  lemma FirstVector()
    ensures Verifies([0x61], [10, 28, 25, 31, 20, 31])
  {
    VectorSteps();
    assert Expanded([0x61]) == [3, 0, 1] by {
      assert High(0x61) == 3 && Lower5(0x61) == 1;
    }
    hide Step, Fold;
    var none: Bytes := [];
    var hrp: Bytes := [3, 0, 1];
    FoldNothing(1);
    ReadOne(none, 3, 0x1, 0x23);
    ReadOne(none + [3], 0, 0x23, 0x460);
    ReadOne(none + [3] + [0], 1, 0x460, 0x8c01);
    assert none + [3] + [0] + [1] == hrp;
    ReadOne(hrp, 10, 0x8c01, 0x11802a);
    ReadOne(hrp + [10], 28, 0x11802a, 0x230055c);
    ReadOne(hrp + [10] + [28], 25, 0x230055c, 0x3d6afc2b);
    ReadOne(hrp + [10] + [28] + [25], 31, 0x3d6afc2b, 0x2f84386);
    ReadOne(hrp + [10] + [28] + [25] + [31], 20, 0x2f84386, 0x24622766);
    ReadOne(hrp + [10] + [28] + [25] + [31] + [20], 31, 0x24622766, 0x1);
    assert hrp + [10] + [28] + [25] + [31] + [20] + [31] == hrp + [10, 28, 25, 31, 20, 31];
  }

  /** Same human-readable part: no burst of at most six symbols turns a valid word into a valid word. */
  lemma OneWordPerWindow(hrp: Bytes, a: Bytes, b: Bytes, w: nat)
    requires SameOutside(a, b, w) && Verifies(hrp, a) && Verifies(hrp, b)
    ensures a == b
  {
    FoldConcat(1, Expanded(hrp), a);
    FoldConcat(1, Expanded(hrp), b);
    if a != b {
      BurstDetected(Residue(Expanded(hrp)), a, b, w);
    }
  }

  const SIX_ZEROES: Bytes := [0, 0, 0, 0, 0, 0]

  function LastFive(x: bv32): bv8 { (x & 31) as bv8 }

  /** The 5-bit group i, from the most significant, of a 30-bit word. */
  function Group(m: bv32, i: nat): bv8 {
    match i
    case 0 => LastFive(m >> 25)
    case 1 => LastFive(m >> 20)
    case 2 => LastFive(m >> 15)
    case 3 => LastFive(m >> 10)
    case 4 => LastFive(m >> 5)
    case _ => LastFive(m)
  }

  function Groups(m: bv32): (r: Bytes)
    ensures |r| == 6
  {
    seq(6, i requires 0 <= i => Group(m, i))
  }

  function Up(x: bv32): bv32 { x << 5 }

  function Down(x: bv32): bv32 { x >> 5 }

  /** The first n groups of m, as a word. */
  function Top(m: bv32, n: nat): bv32
    requires n <= 6
    decreases 6 - n
  {
    if n == 6 then m else Down(Top(m, n + 1))
  }

  lemma Down10(m: bv32)
    ensures m >> 10 == Down(m >> 5)
  {
  }

  lemma Down15(m: bv32)
    ensures m >> 15 == Down(m >> 10)
  {
  }

  lemma Down20(m: bv32)
    ensures m >> 20 == Down(m >> 15)
  {
  }

  lemma Down25(m: bv32)
    ensures m >> 25 == Down(m >> 20)
  {
  }

  lemma TopByShift(m: bv32)
    ensures Top(m, 6) == m && Top(m, 5) == m >> 5 && Top(m, 4) == m >> 10
    ensures Top(m, 3) == m >> 15 && Top(m, 2) == m >> 20 && Top(m, 1) == m >> 25
    ensures Top(m, 0) == Down(m >> 25)
  {
    assert m >> 5 == Down(m);
    hide Down;
    Down10(m);
    Down15(m);
    Down20(m);
    Down25(m);
    assert Top(m, 5) == Down(m);
    assert Top(m, 4) == Down(m >> 5);
    assert Top(m, 3) == Down(m >> 10);
    assert Top(m, 2) == Down(m >> 15);
    assert Top(m, 1) == Down(m >> 20);
  }

  lemma TopZero(m: bv32)
    requires m < 0x40000000
    ensures Top(m, 0) == 0
  {
    TopByShift(m);
    hide Top;
    assert Down(m >> 25) == 0;
  }

  lemma GroupOfTop(m: bv32, n: nat)
    requires n < 6
    ensures Group(m, n) == LastFive(Top(m, n + 1))
  {
    hide LastFive, Top;
    TopByShift(m);
  }

  lemma Rejoin(x: bv32)
    ensures Xor(Up(Down(x)), Wide(LastFive(x))) == x
  {
  }

  lemma DownSmall(x: bv32)
    requires x < 0x40000000
    ensures Down(x) < 0x2000000
  {
  }

  lemma TopSmall(m: bv32, n: nat)
    requires m < 0x40000000 && n <= 6
    ensures Top(m, n) < 0x40000000
    decreases 6 - n
  {
    hide Down;
    if n < 6 {
      TopSmall(m, n + 1);
      DownSmall(Top(m, n + 1));
    }
  }

  lemma TopStep(m: bv32, n: nat)
    requires m < 0x40000000 && n < 6
    ensures Step(Top(m, n), Group(m, n)) == Top(m, n + 1)
  {
    hide Group, Xor, Wide, Shift, LastFive, Up, Down;
    TopSmall(m, n + 1);
    DownSmall(Top(m, n + 1));
    GroupOfTop(m, n);
    ShiftSmall(Top(m, n));
    Rejoin(Top(m, n + 1));
  }

  /** XORing the groups of m into six zeroes XORs m into the state. */
  lemma {:induction false} PackedDifference(c: bv32, m: bv32, n: nat)
    requires m < 0x40000000 && n <= 6
    ensures Xor(Fold(c, Groups(m)[..n]), Fold(c, SIX_ZEROES[..n])) == Top(m, n)
  {
    hide Group, Xor, Step, Top;
    if n == 0 {
      XorUnit(c);
      TopZero(m);
    } else {
      PackedDifference(c, m, n - 1);
      TopStep(m, n - 1);
      var x, y := Fold(c, Groups(m)[..n - 1]), Fold(c, SIX_ZEROES[..n - 1]);
      var u := Group(m, n - 1);
      assert Groups(m)[..n] == Groups(m)[..n - 1] + [u];
      assert SIX_ZEROES[..n] == SIX_ZEROES[..n - 1] + [0];
      FoldPush(c, Groups(m)[..n - 1], u);
      FoldPush(c, SIX_ZEROES[..n - 1], 0);
      StepDifference(x, y, u, 0);
      assert u ^ 0 == u;
    }
  }

  function ChecksumOf(hrp: Bytes, values: Bytes): (r: Bytes)
    ensures |r| == 6
  {
    Groups(Xor(Residue(Expanded(hrp) + values + SIX_ZEROES), 1))
  }

  lemma GroupSymbol(m: bv32, i: nat)
    ensures Group(m, i) < 32
  {
    hide LastFive;
    forall x: bv32
      ensures LastFive(x) < 32
    {
      LastFiveSymbol(x);
    }
  }

  lemma LastFiveSymbol(x: bv32)
    ensures LastFive(x) < 32
  {
  }

  lemma FoldRange(c: bv32, v: Bytes)
    requires v != []
    ensures Fold(c, v) < 0x40000000
  {
    hide Shift;
    var d := Fold(c, v[..|v| - 1]);
    ShiftRange(d);
    assert Xor(Shift(d), Wide(v[|v| - 1])) < 0x40000000;
  }

  /** The checksum is made of symbols and completes the data to a word that verifies. */
  lemma ChecksumVerifies(hrp: Bytes, values: Bytes)
    ensures Symbols(ChecksumOf(hrp, values))
    ensures Verifies(hrp, values + ChecksumOf(hrp, values))
  {
    hide Xor, Fold, Group, Expanded, Top;
    var enc := Expanded(hrp) + values;
    var z := Fold(1, enc + SIX_ZEROES);
    var m := Xor(z, 1);
    forall i | 0 <= i < 6
      ensures Groups(m)[i] < 32
    {
      GroupSymbol(m, i);
    }
    FoldRange(1, enc + SIX_ZEROES);
    FlipRange(z);
    FoldConcat(1, enc, SIX_ZEROES);
    FoldConcat(1, enc, Groups(m));
    assert Expanded(hrp) + (values + Groups(m)) == enc + Groups(m);
    PackedDifference(Fold(1, enc), m, 6);
    assert Groups(m)[..6] == Groups(m) && SIX_ZEROES[..6] == SIX_ZEROES;
    TopByShift(m);
    Solve(Fold(1, enc + Groups(m)), z);
  }

  lemma FlipRange(z: bv32)
    requires z < 0x40000000
    ensures Xor(z, 1) < 0x40000000
  {
  }

  lemma Solve(x: bv32, z: bv32)
    requires Xor(x, z) == Xor(z, 1)
    ensures x == 1
  {
  }

  /** It is the only completion by six symbols that verifies. */
  lemma ChecksumUnique(hrp: Bytes, values: Bytes, tail: Bytes)
    requires Symbols(values) && Symbols(tail) && |tail| == 6 && Verifies(hrp, values + tail)
    ensures tail == ChecksumOf(hrp, values)
  {
    hide Verifies, ChecksumOf;
    ChecksumVerifies(hrp, values);
    var a, b := values + tail, values + ChecksumOf(hrp, values);
    assert forall i :: 0 <= i < |values| ==> a[i] == values[i] && b[i] == values[i];
    OneWordPerWindow(hrp, a, b, |values|);
    assert tail == a[|values|..] && ChecksumOf(hrp, values) == b[|values|..];
  }

  // ----- strings -----

  const SEPARATOR: bv8 := 0x31

  /** CHARSET: the character of a symbol. */
  function Char(v: bv8): bv8 {
    match v
    case 0 => 0x71 case 1 => 0x70 case 2 => 0x7a case 3 => 0x72
    case 4 => 0x79 case 5 => 0x39 case 6 => 0x78 case 7 => 0x38
    case 8 => 0x67 case 9 => 0x66 case 10 => 0x32 case 11 => 0x74
    case 12 => 0x76 case 13 => 0x64 case 14 => 0x77 case 15 => 0x30
    case 16 => 0x73 case 17 => 0x33 case 18 => 0x6a case 19 => 0x6e
    case 20 => 0x35 case 21 => 0x34 case 22 => 0x6b case 23 => 0x68
    case 24 => 0x63 case 25 => 0x65 case 26 => 0x36 case 27 => 0x6d
    case 28 => 0x75 case 29 => 0x61 case 30 => 0x37 case 31 => 0x6c
    case _ => 0
  }

  const CHARSET := "qpzry9x8gf2tvdw0s3jn54khce6mua7l"

  // The characters in order.

  lemma CharsetFirst()
    ensures |CHARSET| == 32
    ensures Char(0) as int == CHARSET[0] as int && Char(1) as int == CHARSET[1] as int
    ensures Char(2) as int == CHARSET[2] as int && Char(3) as int == CHARSET[3] as int
    ensures Char(4) as int == CHARSET[4] as int && Char(5) as int == CHARSET[5] as int
    ensures Char(6) as int == CHARSET[6] as int && Char(7) as int == CHARSET[7] as int
  {
  }

  lemma CharsetSecond()
    ensures |CHARSET| == 32
    ensures Char(8) as int == CHARSET[8] as int && Char(9) as int == CHARSET[9] as int
    ensures Char(10) as int == CHARSET[10] as int && Char(11) as int == CHARSET[11] as int
    ensures Char(12) as int == CHARSET[12] as int && Char(13) as int == CHARSET[13] as int
    ensures Char(14) as int == CHARSET[14] as int && Char(15) as int == CHARSET[15] as int
  {
  }

  lemma CharsetThird()
    ensures |CHARSET| == 32
    ensures Char(16) as int == CHARSET[16] as int && Char(17) as int == CHARSET[17] as int
    ensures Char(18) as int == CHARSET[18] as int && Char(19) as int == CHARSET[19] as int
    ensures Char(20) as int == CHARSET[20] as int && Char(21) as int == CHARSET[21] as int
    ensures Char(22) as int == CHARSET[22] as int && Char(23) as int == CHARSET[23] as int
  {
  }

  lemma CharsetFourth()
    ensures |CHARSET| == 32
    ensures Char(24) as int == CHARSET[24] as int && Char(25) as int == CHARSET[25] as int
    ensures Char(26) as int == CHARSET[26] as int && Char(27) as int == CHARSET[27] as int
    ensures Char(28) as int == CHARSET[28] as int && Char(29) as int == CHARSET[29] as int
    ensures Char(30) as int == CHARSET[30] as int && Char(31) as int == CHARSET[31] as int
  {
  }

  // CHARSET_REV, two rows at a time: the symbol of a character, 0xff (-1) outside the set.

  function RevDigit(c: bv8): bv8 {
    match c
    case 0x30 => 15 case 0x32 => 10 case 0x33 => 17 case 0x34 => 21
    case 0x35 => 20 case 0x36 => 26 case 0x37 => 30 case 0x38 => 7
    case 0x39 => 5
    case _ => 0xff
  }

  function RevUpper(c: bv8): bv8 {
    match c
    case 0x41 => 29 case 0x43 => 24 case 0x44 => 13 case 0x45 => 25
    case 0x46 => 9 case 0x47 => 8 case 0x48 => 23 case 0x4a => 18
    case 0x4b => 22 case 0x4c => 31 case 0x4d => 27 case 0x4e => 19
    case 0x50 => 1 case 0x51 => 0 case 0x52 => 3 case 0x53 => 16
    case 0x54 => 11 case 0x55 => 28 case 0x56 => 12 case 0x57 => 14
    case 0x58 => 6 case 0x59 => 4 case 0x5a => 2
    case _ => 0xff
  }

  function RevLower(c: bv8): bv8 {
    match c
    case 0x61 => 29 case 0x63 => 24 case 0x64 => 13 case 0x65 => 25
    case 0x66 => 9 case 0x67 => 8 case 0x68 => 23 case 0x6a => 18
    case 0x6b => 22 case 0x6c => 31 case 0x6d => 27 case 0x6e => 19
    case 0x70 => 1 case 0x71 => 0 case 0x72 => 3 case 0x73 => 16
    case 0x74 => 11 case 0x75 => 28 case 0x76 => 12 case 0x77 => 14
    case 0x78 => 6 case 0x79 => 4 case 0x7a => 2
    case _ => 0xff
  }

  function Rev(c: bv8): bv8 {
    if c < 0x40 then RevDigit(c) else if c < 0x60 then RevUpper(c) else RevLower(c)
  }

  predicate IsLower(c: bv8) { 0x61 <= c <= 0x7a }

  predicate IsUpper(c: bv8) { 0x41 <= c <= 0x5a }

  predicate IsPrintable(c: bv8) { 33 <= c <= 126 }

  function LowerCase(c: bv8): bv8 {
    if IsUpper(c) then (c - 0x41) + 0x61 else c
  }

  lemma CharRevFirst(v: bv8)
    requires v < 16
    ensures Rev(Char(v)) == v
    ensures IsPrintable(Char(v)) && !IsUpper(Char(v)) && Char(v) != SEPARATOR
  {
    match v
    case 0 => assert Rev(0x71) == 0; case 1 => assert Rev(0x70) == 1; case 2 => assert Rev(0x7a) == 2;
    case 3 => assert Rev(0x72) == 3; case 4 => assert Rev(0x79) == 4; case 5 => assert Rev(0x39) == 5;
    case 6 => assert Rev(0x78) == 6; case 7 => assert Rev(0x38) == 7; case 8 => assert Rev(0x67) == 8;
    case 9 => assert Rev(0x66) == 9; case 10 => assert Rev(0x32) == 10; case 11 => assert Rev(0x74) == 11;
    case 12 => assert Rev(0x76) == 12; case 13 => assert Rev(0x64) == 13; case 14 => assert Rev(0x77) == 14;
    case 15 => assert Rev(0x30) == 15;
    case _ =>
  }

  lemma CharRevSecond(v: bv8)
    requires 16 <= v < 32
    ensures Rev(Char(v)) == v
    ensures IsPrintable(Char(v)) && !IsUpper(Char(v)) && Char(v) != SEPARATOR
  {
    match v
    case 16 => assert Rev(0x73) == 16; case 17 => assert Rev(0x33) == 17; case 18 => assert Rev(0x6a) == 18;
    case 19 => assert Rev(0x6e) == 19; case 20 => assert Rev(0x35) == 20; case 21 => assert Rev(0x34) == 21;
    case 22 => assert Rev(0x6b) == 22; case 23 => assert Rev(0x68) == 23; case 24 => assert Rev(0x63) == 24;
    case 25 => assert Rev(0x65) == 25; case 26 => assert Rev(0x36) == 26; case 27 => assert Rev(0x6d) == 27;
    case 28 => assert Rev(0x75) == 28; case 29 => assert Rev(0x61) == 29; case 30 => assert Rev(0x37) == 30;
    case 31 => assert Rev(0x6c) == 31;
    case _ =>
  }

  lemma CharRev(v: bv8)
    requires v < 32
    ensures Rev(Char(v)) == v
    ensures IsPrintable(Char(v)) && !IsUpper(Char(v)) && Char(v) != SEPARATOR
  {
    hide Rev, Char, IsUpper, IsPrintable;
    if v < 16 {
      CharRevFirst(v);
    } else {
      CharRevSecond(v);
    }
  }

  lemma RevDigitChar(c: bv8)
    requires c < 0x40 && RevDigit(c) != 0xff
    ensures RevDigit(c) < 32 && Char(RevDigit(c)) == LowerCase(c)
  {
    match c
    case 0x30 => assert Char(15) == 0x30; case 0x32 => assert Char(10) == 0x32; case 0x33 => assert Char(17) == 0x33;
    case 0x34 => assert Char(21) == 0x34; case 0x35 => assert Char(20) == 0x35; case 0x36 => assert Char(26) == 0x36;
    case 0x37 => assert Char(30) == 0x37; case 0x38 => assert Char(7) == 0x38; case 0x39 => assert Char(5) == 0x39;
    case _ =>
  }

  lemma RevUpperChar(c: bv8)
    requires 0x40 <= c < 0x60 && RevUpper(c) != 0xff
    ensures RevUpper(c) < 32 && Char(RevUpper(c)) == LowerCase(c)
  {
    match c
    case 0x41 => assert Char(29) == 0x61; case 0x43 => assert Char(24) == 0x63; case 0x44 => assert Char(13) == 0x64;
    case 0x45 => assert Char(25) == 0x65; case 0x46 => assert Char(9) == 0x66; case 0x47 => assert Char(8) == 0x67;
    case 0x48 => assert Char(23) == 0x68; case 0x4a => assert Char(18) == 0x6a; case 0x4b => assert Char(22) == 0x6b;
    case 0x4c => assert Char(31) == 0x6c; case 0x4d => assert Char(27) == 0x6d; case 0x4e => assert Char(19) == 0x6e;
    case 0x50 => assert Char(1) == 0x70; case 0x51 => assert Char(0) == 0x71; case 0x52 => assert Char(3) == 0x72;
    case 0x53 => assert Char(16) == 0x73; case 0x54 => assert Char(11) == 0x74; case 0x55 => assert Char(28) == 0x75;
    case 0x56 => assert Char(12) == 0x76; case 0x57 => assert Char(14) == 0x77; case 0x58 => assert Char(6) == 0x78;
    case 0x59 => assert Char(4) == 0x79; case 0x5a => assert Char(2) == 0x7a;
    case _ =>
  }

  lemma RevLowerChar(c: bv8)
    requires 0x60 <= c && RevLower(c) != 0xff
    ensures RevLower(c) < 32 && Char(RevLower(c)) == LowerCase(c)
  {
    match c
    case 0x61 => assert Char(29) == 0x61; case 0x63 => assert Char(24) == 0x63; case 0x64 => assert Char(13) == 0x64;
    case 0x65 => assert Char(25) == 0x65; case 0x66 => assert Char(9) == 0x66; case 0x67 => assert Char(8) == 0x67;
    case 0x68 => assert Char(23) == 0x68; case 0x6a => assert Char(18) == 0x6a; case 0x6b => assert Char(22) == 0x6b;
    case 0x6c => assert Char(31) == 0x6c; case 0x6d => assert Char(27) == 0x6d; case 0x6e => assert Char(19) == 0x6e;
    case 0x70 => assert Char(1) == 0x70; case 0x71 => assert Char(0) == 0x71; case 0x72 => assert Char(3) == 0x72;
    case 0x73 => assert Char(16) == 0x73; case 0x74 => assert Char(11) == 0x74; case 0x75 => assert Char(28) == 0x75;
    case 0x76 => assert Char(12) == 0x76; case 0x77 => assert Char(14) == 0x77; case 0x78 => assert Char(6) == 0x78;
    case 0x79 => assert Char(4) == 0x79; case 0x7a => assert Char(2) == 0x7a;
    case _ =>
  }

  lemma RevChar(c: bv8)
    requires Rev(c) != 0xff
    ensures Rev(c) < 32 && Char(Rev(c)) == LowerCase(c)
  {
    hide RevDigit, RevUpper, RevLower, Char, LowerCase;
    if c < 0x40 {
      RevDigitChar(c);
    } else if c < 0x60 {
      RevUpperChar(c);
    } else {
      RevLowerChar(c);
    }
  }

  function Chars(v: Bytes): (r: Bytes)
    ensures |r| == |v|
  {
    seq(|v|, i requires 0 <= i < |v| => Char(v[i]))
  }

  function Revs(s: Bytes): (r: Bytes)
    ensures |r| == |s|
  {
    seq(|s|, i requires 0 <= i < |s| => Rev(s[i]))
  }

  function Lowered(s: Bytes): (r: Bytes)
    ensures |r| == |s|
  {
    seq(|s|, i requires 0 <= i < |s| => LowerCase(s[i]))
  }

  predicate Printable(s: Bytes) {
    forall i :: 0 <= i < |s| ==> IsPrintable(s[i])
  }

  predicate HasLower(s: Bytes) {
    exists i :: 0 <= i < |s| && IsLower(s[i])
  }

  predicate HasUpper(s: Bytes) {
    exists i :: 0 <= i < |s| && IsUpper(s[i])
  }

  /** rfind of the separator; -1 stands for npos. */
  function LastSeparator(s: Bytes): (p: int)
    ensures -1 <= p < |s|
    ensures p >= 0 ==> s[p] == SEPARATOR
    ensures forall i :: p < i < |s| ==> s[i] != SEPARATOR
  {
    if s == [] then -1
    else if s[|s| - 1] == SEPARATOR then |s| - 1
    else LastSeparator(s[..|s| - 1])
  }

  /** Encode's result: the empty string unless every value is a symbol. */
  function EncodedAs(hrp: Bytes, values: Bytes): Bytes {
    if Symbols(values) then hrp + [SEPARATOR] + Chars(values + ChecksumOf(hrp, values)) else []
  }

  datatype Result = Result(hrp: Bytes, values: Bytes)

  const NOTHING := Result([], [])

  predicate WellFormed(s: Bytes) {
    && Printable(s)
    && !(HasLower(s) && HasUpper(s))
    && |s| <= 1023
    && 1 <= LastSeparator(s) <= |s| - 7
    && (forall i :: LastSeparator(s) < i < |s| ==> Rev(s[i]) != 0xff)
  }

  function HrpOf(s: Bytes): Bytes
    requires LastSeparator(s) >= 0
  {
    Lowered(s[..LastSeparator(s)])
  }

  function WordOf(s: Bytes): (r: Bytes)
    ensures |r| == |s| - 1 - LastSeparator(s)
  {
    Revs(s[LastSeparator(s) + 1..])
  }

  predicate Accepted(s: Bytes) {
    WellFormed(s) && Verifies(HrpOf(s), WordOf(s))
  }

  function DecodedAs(s: Bytes): Result {
    if Accepted(s) then Result(HrpOf(s), WordOf(s)[..|WordOf(s)| - 6]) else NOTHING
  }

  // ----- decoding undoes encoding -----

  /** What the encoder must be given for its string to decode to the same pair. */
  predicate Encodable(hrp: Bytes, values: Bytes) {
    Printable(hrp) && !HasUpper(hrp) && Symbols(values) && |hrp| + 1 + |values| + 6 <= 1023
  }

  lemma LastSeparatorIs(s: Bytes, p: nat)
    requires p < |s| && s[p] == SEPARATOR && forall i :: p < i < |s| ==> s[i] != SEPARATOR
    ensures LastSeparator(s) == p
  {
  }

  lemma CharsOfSymbols(v: Bytes)
    requires Symbols(v)
    ensures Printable(Chars(v)) && !HasUpper(Chars(v)) && SEPARATOR !in Chars(v)
    ensures Revs(Chars(v)) == v
    ensures forall i :: 0 <= i < |v| ==> Rev(Chars(v)[i]) != 0xff
  {
    hide Char, Rev, IsUpper, IsPrintable;
    forall i | 0 <= i < |v|
      ensures IsPrintable(Chars(v)[i]) && !IsUpper(Chars(v)[i]) && Chars(v)[i] != SEPARATOR
      ensures Rev(Chars(v)[i]) == v[i] && Rev(Chars(v)[i]) != 0xff
    {
      CharRev(v[i]);
    }
  }

  lemma SymbolsConcat(a: Bytes, b: Bytes)
    requires Symbols(a) && Symbols(b)
    ensures Symbols(a + b)
  {
  }

  /** Where the separator of an encoded string is, whatever the human-readable part. */
  lemma EncodedShape(hrp: Bytes, values: Bytes)
    requires Symbols(values)
    ensures var s, w := EncodedAs(hrp, values), values + ChecksumOf(hrp, values);
      && LastSeparator(s) == |hrp| && |s| == |hrp| + 1 + |values| + 6
      && s[..|hrp|] == hrp && s[|hrp| + 1..] == Chars(w) && WordOf(s) == w
  {
    hide ChecksumOf, Verifies, Chars, Revs, LastSeparator;
    ChecksumVerifies(hrp, values);
    var s, w := EncodedAs(hrp, values), values + ChecksumOf(hrp, values);
    SymbolsConcat(values, ChecksumOf(hrp, values));
    CharsOfSymbols(w);
    assert s[..|hrp|] == hrp && s[|hrp| + 1..] == Chars(w);
    forall i | |hrp| < i < |s|
      ensures s[i] != SEPARATOR
    {
      assert s[i] == Chars(w)[i - |hrp| - 1];
    }
    LastSeparatorIs(s, |hrp|);
  }

  lemma EncodedWellFormed(hrp: Bytes, values: Bytes)
    requires Encodable(hrp, values) && hrp != []
    ensures WellFormed(EncodedAs(hrp, values))
  {
    hide ChecksumOf, Verifies, Chars, Revs, LastSeparator, IsUpper, IsPrintable, Rev;
    EncodedShape(hrp, values);
    ChecksumVerifies(hrp, values);
    var s, w := EncodedAs(hrp, values), values + ChecksumOf(hrp, values);
    SymbolsConcat(values, ChecksumOf(hrp, values));
    CharsOfSymbols(w);
    SeparatorPlain();
    forall i | 0 <= i < |s|
      ensures IsPrintable(s[i]) && !IsUpper(s[i]) && (i > |hrp| ==> Rev(s[i]) != 0xff)
    {
      if i > |hrp| {
        assert s[i] == Chars(w)[i - |hrp| - 1];
      } else if i < |hrp| {
        assert s[i] == hrp[i];
      }
    }
  }

  lemma SeparatorPlain()
    ensures IsPrintable(SEPARATOR) && !IsUpper(SEPARATOR) && LowerCase(SEPARATOR) == SEPARATOR
  {
  }

  lemma LoweredSame(s: Bytes)
    ensures Lowered(s) == s <==> !HasUpper(s)
  {
    forall i | 0 <= i < |s|
      ensures Lowered(s)[i] == s[i] <==> !IsUpper(s[i])
    {
      LowerCaseFixed(s[i]);
    }
    hide LowerCase, IsUpper;
    if Lowered(s) == s {
      forall i | 0 <= i < |s|
        ensures !IsUpper(s[i])
      {
        assert Lowered(s)[i] == s[i];
      }
    }
  }

  lemma LowerCaseFixed(c: bv8)
    ensures LowerCase(c) == c <==> !IsUpper(c)
  {
  }

  /** Without a human-readable part there is nothing before the separator, and nothing is accepted. */
  lemma EmptyHrp(values: Bytes)
    ensures DecodedAs(EncodedAs([], values)) == NOTHING
  {
    hide ChecksumOf, Verifies, Chars, Revs, LastSeparator;
    if Symbols(values) {
      EncodedShape([], values);
    }
  }

  /** Decoding undoes encoding exactly for encodable input with a human-readable part, and for no input
      at all. */
  lemma RoundTrip(hrp: Bytes, values: Bytes)
    ensures DecodedAs(EncodedAs(hrp, values)) == Result(hrp, values)
            <==> if hrp == [] then values == [] else Encodable(hrp, values)
  {
    hide DecodedAs, EncodedAs, Encodable;
    if hrp == [] {
      EmptyHrp(values);
    } else {
      NamedRoundTrip(hrp, values);
    }
  }

  lemma NamedRoundTrip(hrp: Bytes, values: Bytes)
    requires hrp != []
    ensures DecodedAs(EncodedAs(hrp, values)) == Result(hrp, values) <==> Encodable(hrp, values)
  {
    hide ChecksumOf, Verifies, Chars, Revs, LastSeparator, HasUpper, Lowered;
    var s := EncodedAs(hrp, values);
    LoweredSame(hrp);
    if Symbols(values) {
      EncodedShape(hrp, values);
      ChecksumVerifies(hrp, values);
      assert (values + ChecksumOf(hrp, values))[..|values|] == values;
      if Encodable(hrp, values) {
        EncodedWellFormed(hrp, values);
      } else if Accepted(s) {
        forall i | 0 <= i < |hrp|
          ensures IsPrintable(hrp[i])
        {
          assert s[i] == hrp[i];
        }
      }
    }
  }

  // ----- encoding undoes decoding, up to case -----

  lemma CharsOfRevs(s: Bytes)
    requires forall i :: 0 <= i < |s| ==> Rev(s[i]) != 0xff
    ensures Symbols(Revs(s)) && Chars(Revs(s)) == Lowered(s)
  {
    hide Char, Rev, LowerCase;
    forall i | 0 <= i < |s|
      ensures Revs(s)[i] < 32 && Chars(Revs(s))[i] == LowerCase(s[i])
    {
      RevChar(s[i]);
    }
  }

  lemma LoweredSplit(s: Bytes, p: nat)
    requires p < |s| && s[p] == SEPARATOR
    ensures Lowered(s) == Lowered(s[..p]) + [SEPARATOR] + Lowered(s[p + 1..])
  {
    SeparatorPlain();
    hide LowerCase;
    var l, r := Lowered(s), Lowered(s[..p]) + [SEPARATOR] + Lowered(s[p + 1..]);
    assert |l| == |r|;
    forall i | 0 <= i < |s|
      ensures l[i] == r[i]
    {
      if i > p {
        assert s[p + 1..][i - p - 1] == s[i];
      }
    }
  }

  /** Every accepted string is, up to case, the encoding of what it decodes to. */
  lemma Reencode(s: Bytes)
    requires Accepted(s)
    ensures EncodedAs(DecodedAs(s).hrp, DecodedAs(s).values) == Lowered(s)
  {
    hide ChecksumOf, Verifies, Chars, Revs, Lowered, Printable, HasUpper, HasLower, Rev;
    var p := LastSeparator(s);
    var d, w := s[p + 1..], WordOf(s);
    forall i | 0 <= i < |d|
      ensures Rev(d[i]) != 0xff
    {
      assert d[i] == s[p + 1 + i];
    }
    CharsOfRevs(d);
    var values, tail := w[..|w| - 6], w[|w| - 6..];
    assert w == values + tail;
    assert Symbols(values) && Symbols(tail);
    ChecksumUnique(HrpOf(s), values, tail);
    LoweredSplit(s, p);
  }

  // ----- the loops -----

  lemma TapsCommute(p: bool, x: bv32, v: bv32, k: bv32)
    ensures AddIf(p, Xor(x, v), k) == Xor(AddIf(p, x, k), v)
  {
    hide Xor;
    XorSwap(x, v, k);
  }

  /** The state update as the loop of PolyMod makes it: the symbol first, then the conditional XORs. */
  method NextState(c: bv32, v: bv8) returns (d: bv32)
    ensures d == Step(c, v)
  {
    hide Xor, AddIf, Bit, Low, Wide;
    d := Xor(Low(c), Wide(v));
    TapsCommute(Bit(c, 0), Low(c), Wide(v), 0x3b6a57b2);
    d := AddIf(Bit(c, 0), d, 0x3b6a57b2);
    ghost var x1 := AddIf(Bit(c, 0), Low(c), 0x3b6a57b2);
    TapsCommute(Bit(c, 1), x1, Wide(v), 0x26508e6d);
    d := AddIf(Bit(c, 1), d, 0x26508e6d);
    ghost var x2 := AddIf(Bit(c, 1), x1, 0x26508e6d);
    TapsCommute(Bit(c, 2), x2, Wide(v), 0x1ea119fa);
    d := AddIf(Bit(c, 2), d, 0x1ea119fa);
    ghost var x3 := AddIf(Bit(c, 2), x2, 0x1ea119fa);
    TapsCommute(Bit(c, 3), x3, Wide(v), 0x3d4233dd);
    d := AddIf(Bit(c, 3), d, 0x3d4233dd);
    ghost var x4 := AddIf(Bit(c, 3), x3, 0x3d4233dd);
    TapsCommute(Bit(c, 4), x4, Wide(v), 0x2a1462b3);
    d := AddIf(Bit(c, 4), d, 0x2a1462b3);
  }

  method PolyMod(v: Bytes) returns (c: bv32)
    ensures c == Residue(v)
  {
    hide Step;
    c := 1;
    for i := 0 to |v|
      invariant c == Fold(1, v[..i])
    {
      assert v[..i + 1] == v[..i] + [v[i]];
      FoldPush(1, v[..i], v[i]);
      c := NextState(c, v[i]);
    }
    assert v[..|v|] == v;
  }

  method ExpandHRP(hrp: Bytes) returns (ret: Bytes)
    ensures ret == Expanded(hrp)
  {
    var n := |hrp|;
    var a := new bv8[n * 2 + 1];
    for i := 0 to n
      invariant forall j :: 0 <= j < i ==> a[j] == High(hrp[j]) && a[j + n + 1] == Lower5(hrp[j])
    {
      a[i] := High(hrp[i]);
      a[i + n + 1] := Lower5(hrp[i]);
    }
    a[n] := 0;
    ret := a[..];
    ghost var e := Expanded(hrp);
    forall j | 0 <= j < 2 * n + 1
      ensures a[j] == e[j]
    {
      if j > n {
        assert a[(j - n - 1) + n + 1] == Lower5(hrp[j - n - 1]);
      }
    }
  }

  method VerifyChecksum(hrp: Bytes, values: Bytes) returns (ok: bool)
    ensures ok == Verifies(hrp, values)
  {
    var expanded := ExpandHRP(hrp);
    var c := PolyMod(expanded + values);
    ok := c == 1;
  }

  /** The six symbols returned are the only ones that complete the data to a word that verifies. */
  method CreateChecksum(hrp: Bytes, values: Bytes) returns (ret: Bytes)
    ensures ret == ChecksumOf(hrp, values)
    ensures |ret| == 6 && Symbols(ret) && Verifies(hrp, values + ret)
    ensures forall t: Bytes :: |t| == 6 && Symbols(t) && Symbols(values) && Verifies(hrp, values + t) ==> t == ret
  {
    hide Group, Fold, Verifies, Xor;
    var expanded := ExpandHRP(hrp);
    var c := PolyMod(expanded + values + SIX_ZEROES);
    var m := Xor(c, 1);
    ret := [];
    for i := 0 to 6
      invariant |ret| == i
      invariant forall j :: 0 <= j < i ==> ret[j] == Group(m, j)
    {
      ret := ret + [Group(m, i)];
    }
    assert ret == Groups(m);
    ChecksumVerifies(hrp, values);
    forall t: Bytes | |t| == 6 && Symbols(t) && Symbols(values) && Verifies(hrp, values + t)
      ensures t == ret
    {
      ChecksumUnique(hrp, values, t);
    }
  }

  method Encode(hrp: Bytes, values: Bytes) returns (ret: Bytes)
    ensures ret == EncodedAs(hrp, values)
  {
    hide ChecksumOf, Verifies, Char;
    var checksum := CreateChecksum(hrp, values);
    var combined := values + checksum;
    ret := hrp + [SEPARATOR];
    for i := 0 to |combined|
      invariant forall j :: 0 <= j < i ==> combined[j] < 32
      invariant ret == hrp + [SEPARATOR] + Chars(combined[..i])
    {
      if combined[i] >= 32 {
        assert values[i] >= 32;
        return [];
      }
      ret := ret + [Char(combined[i])];
      assert Chars(combined[..i + 1]) == Chars(combined[..i]) + [Char(combined[i])];
    }
    assert combined[..|combined|] == combined;
    assert forall j :: 0 <= j < |values| ==> combined[j] == values[j];
  }

  method FindLast(s: Bytes) returns (p: int)
    ensures p == LastSeparator(s)
  {
    p := |s| - 1;
    while p >= 0 && s[p] != SEPARATOR
      invariant -1 <= p < |s|
      invariant forall i :: p < i < |s| ==> s[i] != SEPARATOR
    {
      p := p - 1;
    }
  }

  /** The first loop of Decode: printable characters, not in both cases. */
  method CheckCharacters(s: Bytes) returns (ok: bool)
    ensures ok <==> Printable(s) && !(HasLower(s) && HasUpper(s))
  {
    hide IsPrintable, IsLower, IsUpper;
    var lower, upper := false, false;
    for i := 0 to |s|
      invariant forall j :: 0 <= j < i ==> IsPrintable(s[j])
      invariant lower <==> exists j :: 0 <= j < i && IsLower(s[j])
      invariant upper <==> exists j :: 0 <= j < i && IsUpper(s[j])
    {
      if !IsPrintable(s[i]) {
        return false;
      }
      if IsLower(s[i]) {
        lower := true;
      }
      if IsUpper(s[i]) {
        upper := true;
      }
    }
    ok := !(lower && upper);
  }

  /** The second loop: the symbols of the data part, if every character has one. */
  method ReadWord(s: Bytes, pos: nat) returns (ok: bool, values: Bytes)
    requires pos < |s|
    ensures ok <==> forall i :: pos < i < |s| ==> Rev(s[i]) != 0xff
    ensures ok ==> values == Revs(s[pos + 1..])
  {
    hide Rev;
    values := [];
    var n := |s| - 1 - pos;
    for i := 0 to n
      invariant |values| == i
      invariant forall j :: 0 <= j < i ==> values[j] == Rev(s[pos + 1 + j]) && values[j] != 0xff
    {
      var rev := Rev(s[i + pos + 1]);
      if rev == 0xff {
        return false, values;
      }
      values := values + [rev];
    }
    forall i | pos < i < |s|
      ensures Rev(s[i]) != 0xff
    {
      assert values[i - pos - 1] == Rev(s[pos + 1 + (i - pos - 1)]);
    }
    return true, values;
  }

  method ReadHrp(s: Bytes, pos: nat) returns (hrp: Bytes)
    requires pos <= |s|
    ensures hrp == Lowered(s[..pos])
  {
    hide LowerCase;
    hrp := [];
    for i := 0 to pos
      invariant |hrp| == i
      invariant forall j :: 0 <= j < i ==> hrp[j] == LowerCase(s[j])
    {
      hrp := hrp + [LowerCase(s[i])];
    }
  }

  method Decode(s: Bytes) returns (r: Result)
    ensures r == DecodedAs(s)
  {
    hide Verifies, Revs, Lowered, Printable, HasUpper, HasLower, Rev;
    var plain := CheckCharacters(s);
    if !plain {
      return NOTHING;
    }
    var pos := FindLast(s);
    if |s| > 1023 || pos == -1 || pos == 0 || pos + 7 > |s| {
      return NOTHING;
    }
    var ok, values := ReadWord(s, pos);
    if !ok {
      return NOTHING;
    }
    var hrp := ReadHrp(s, pos);
    var verified := VerifyChecksum(hrp, values);
    if !verified {
      return NOTHING;
    }
    return Result(hrp, values[..|values| - 6]);
  }
}
