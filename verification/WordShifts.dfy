/** Bits of words: or-ing disjoint parts, shifting one word, and what word-wise shifts do to the value. */
module WordShifts {
  import opened Power
  import opened Words

  function BitOr(a: nat, b: nat): nat {
    if a == 0 then b
    else if b == 0 then a
    else (if a % 2 == 1 || b % 2 == 1 then 1 else 0) + 2 * BitOr(a / 2, b / 2)
  }

  lemma {:induction false} BitOrCommutes(a: nat, b: nat)
    ensures BitOr(a, b) == BitOr(b, a)
  {
    if a != 0 && b != 0 {
      BitOrCommutes(a / 2, b / 2);
    }
  }

  /** Parts without common bits are added. */
  lemma {:induction false} BitOrDisjoint(h: nat, l: nat, k: nat)
    requires l < Pow(2, k)
    ensures BitOr(h * Pow(2, k), l) == h * Pow(2, k) + l
  {
    if k > 0 && h > 0 && l > 0 {
      var p := Pow(2, k - 1);
      assert h * Pow(2, k) == 2 * (h * p) by {
        MulAssoc(h, 2, p);
        MulAssoc(2, h, p);
      }
      BitOrDisjoint(h, l / 2, k - 1);
      PowPositive(2, k - 1);
      MulPositive(h, p);
      Halve(h * p);
    }
  }

  lemma Halve(x: nat)
    ensures (2 * x) % 2 == 0 && (2 * x) / 2 == x
  {
  }

  lemma WordIsPower()
    ensures Pow(2, 32) == B
  {
    assert Pow(2, 4) == 16;
    PowAdd(2, 4, 4);
    PowAdd(2, 8, 8);
    PowAdd(2, 16, 16);
  }

  lemma WeightIsPower(k: nat)
    ensures Weight(k) == Pow(2, 32 * k)
  {
    WordIsPower();
    PowPow(2, 32, k);
  }

  // ----- shifting one word -----

  /** x << s in 32 bits. */
  function ShiftUp(x: Word, s: nat): Word { (x * Pow(2, s)) % B }

  /** x >> s. */
  function ShiftDown(x: Word, s: nat): (r: Word)
  {
    PowPositive(2, s);
    DivBelow(x, Pow(2, s));
    x / Pow(2, s)
  }

  lemma DivBelow(x: nat, p: nat)
    requires p > 0
    ensures 0 <= x / p <= x
  {
    if x / p > x {
      MulMono(1, p, x / p);
    }
  }

  /** The two parts a word falls into when it is shifted across a word boundary. */
  lemma ShiftParts(x: Word, s: nat)
    requires s <= 32
    ensures Pow(2, s) * Pow(2, 32 - s) == B
    ensures x * Pow(2, s) == ShiftDown(x, 32 - s) * B + ShiftUp(x, s)
    ensures ShiftUp(x, s) == (x % Pow(2, 32 - s)) * Pow(2, s)
    ensures ShiftDown(x, 32 - s) < Pow(2, s)
  {
    WordIsPower();
    PowAdd(2, s, 32 - s);
    PowPositive(2, 32 - s);
    PowPositive(2, s);
    PartsAlgebra(x, Pow(2, s), Pow(2, 32 - s));
  }

  lemma PartsAlgebra(x: Word, p: nat, q: nat)
    requires p > 0 && q > 0 && p * q == B
    ensures (x * p) % B == (x % q) * p
    ensures x * p == (x / q) * B + (x % q) * p
    ensures x / q < p
  {
    var h, l := x / q, x % q;
    Distribute(h * q, l, p);
    MulAssoc(h, q, p);
    MulMono(l + 1, q, p);
    Distribute(l, 1, p);
    DivModUnique(x * p, B, h, l * p);
    if h >= p {
      MulMono(p, h, q);
    }
  }

  /** The two parts fit together in one word. */
  lemma PartsFit(x: Word, y: Word, s: nat)
    requires s <= 32
    ensures ShiftUp(x, s) + ShiftDown(y, 32 - s) < B
    ensures BitOr(ShiftDown(y, 32 - s), ShiftUp(x, s)) == ShiftUp(x, s) + ShiftDown(y, 32 - s)
    ensures BitOr(ShiftUp(x, s), ShiftDown(y, 32 - s)) == ShiftUp(x, s) + ShiftDown(y, 32 - s)
  {
    hide ShiftUp, ShiftDown, BitOr, Pow;
    PowPositive(2, 32 - s);
    ShiftParts(x, s);
    ShiftParts(y, s);
    FitAlgebra(x % Pow(2, 32 - s), ShiftDown(y, 32 - s), Pow(2, s), Pow(2, 32 - s));
    BitOrDisjoint(x % Pow(2, 32 - s), ShiftDown(y, 32 - s), s);
    BitOrCommutes(ShiftUp(x, s), ShiftDown(y, 32 - s));
  }

  lemma FitAlgebra(m: nat, d: nat, p: nat, q: nat)
    requires m < q && d < p && p * q == B
    ensures m * p + d < B
  {
    MulMono(m + 1, q, p);
    Distribute(m, 1, p);
  }

  // ----- shifting all words left -----

  /** What the word below position i sends up into it. */
  function FromBelow(a: seq<Word>, s: nat, i: int): Word
    requires s <= 32 && i <= |a|
  {
    if i <= 0 then 0 else ShiftDown(a[i - 1], 32 - s)
  }

  /** Word j of a shifted left by k words and s bits. */
  function LeftWord(a: seq<Word>, k: nat, s: nat, j: nat): (w: Word)
    requires s <= 32 && j < |a|
  {
    if j < k then 0
    else if j == k then ShiftUp(a[0], s)
    else PartsFit(a[j - k], a[j - k - 1], s); ShiftUp(a[j - k], s) + ShiftDown(a[j - k - 1], 32 - s)
  }

  lemma LeftWordIs(a: seq<Word>, k: nat, s: nat, j: nat)
    requires s <= 32 && k <= j < |a|
    ensures LeftWord(a, k, s, j) == ShiftUp(a[j - k], s) + FromBelow(a, s, j - k)
  {
  }

  ghost predicate IsLeft(a: seq<Word>, k: nat, s: nat, r: seq<Word>) {
    s <= 32 && |r| == |a| && forall j :: 0 <= j < |r| ==> r[j] == LeftWord(a, k, s, j)
  }

  lemma LeftAlgebra(up: int, below: int, x: int, p: int, down: int, wn: int)
    requires x * p == down * B + up
    ensures (up + below) * wn + (B * wn) * down == below * wn + (x * p) * wn
  {
    Distribute(up, below, wn);
    Distribute(down * B, up, wn);
    assert (B * wn) * down == (down * B) * wn by {
      MulAssoc(B, wn, down);
      MulAssoc(down, B, wn);
    }
  }

  lemma LeftFactor(v: int, x: int, wi: int, wk: int, wn: int, p: int)
    requires wn == wi * wk
    ensures (v + x * wi) * (p * wk) == v * (p * wk) + (x * p) * wn
  {
    Distribute(v, x * wi, p * wk);
    MulAssoc(x, wi, p * wk);
    MulAssoc(wi, p, wk);
    MulAssoc(p, wi, wk);
    MulAssoc(x, p, wi * wk);
  }

  lemma {:induction false} LeftPrefix(a: seq<Word>, k: nat, s: nat, r: seq<Word>, n: nat)
    requires IsLeft(a, k, s, r) && k <= n <= |a|
    ensures Val(r[..n]) + Weight(n) * FromBelow(a, s, n - k) == Val(a[..n - k]) * (Pow(2, s) * Weight(k))
  {
    hide Val, Weight, Pow, ShiftUp, ShiftDown;
    if n == k {
      ValZeroes(r[..k]);
      ValZeroes(a[..0]);
    } else {
      LeftPrefix(a, k, s, r, n - 1);
      LeftWordIs(a, k, s, n - 1);
      LeftNext(a, k, s, r, n - 1);
    }
  }

  lemma LeftNext(a: seq<Word>, k: nat, s: nat, r: seq<Word>, m: nat)
    requires s <= 32 && k <= m < |a| == |r| && r[m] == ShiftUp(a[m - k], s) + FromBelow(a, s, m - k)
    requires Val(r[..m]) + Weight(m) * FromBelow(a, s, m - k) == Val(a[..m - k]) * (Pow(2, s) * Weight(k))
    ensures Val(r[..m + 1]) + Weight(m + 1) * ShiftDown(a[m - k],
        32 - s) == Val(a[..m + 1 - k]) * (Pow(2, s) * Weight(k))
  {
    hide Val, Weight, Pow, ShiftUp, ShiftDown, FromBelow;
    var i := m - k;
    ValTake(r, m);
    ValTake(a, i);
    WeightStep(m);
    WeightAdd(i, k);
    ShiftParts(a[i], s);
    LeftAlgebra(ShiftUp(a[i], s), FromBelow(a, s, i), a[i], Pow(2, s), ShiftDown(a[i], 32 - s), Weight(m));
    LeftFactor(Val(a[..i]), a[i], Weight(i), Weight(k), Weight(m), Pow(2, s));
  }

  lemma ShiftFactor(k: nat, s: nat)
    ensures Pow(2, 32 * k + s) == Pow(2, s) * Weight(k)
  {
    WeightIsPower(k);
    PowAdd(2, s, 32 * k);
  }

  lemma CutAlgebra(v: int, z: int, wi: int, wk: int, wn: int, p: int)
    requires wn == wi * wk
    ensures (v + wi * z) * (p * wk) == v * (p * wk) + (z * p) * wn
  {
    LeftFactor(v, z, wi, wk, wn, p);
  }

  lemma LeftWithin(a: seq<Word>, k: nat, s: nat, r: seq<Word>)
    requires IsLeft(a, k, s, r) && k <= |a|
    ensures Val(r) == (Val(a) * (Pow(2, s) * Weight(k))) % Weight(|a|)
  {
    hide Val, Weight, Pow, LeftWord, FromBelow;
    var n := |a|;
    LeftPrefix(a, k, s, r, n);
    assert r[..n] == r;
    hide IsLeft;
    var v, z, c := Val(a[..n - k]), Val(a[n - k..]), FromBelow(a, s, n - k);
    ValSplit(a, n - k);
    WeightAdd(n - k, k);
    CutAlgebra(v, z, Weight(n - k), Weight(k), Weight(n), Pow(2, s));
    ValBelow(r);
    LeftTotal(Val(r), c, z * Pow(2, s), Weight(n), Val(a), v + Weight(n - k) * z, v, Pow(2, s) * Weight(k));
  }

  lemma LeftTotal(r: nat, c: nat, d: nat, w: nat, a: nat, a2: nat, v: nat, f: nat)
    requires w > 0 && r < w && a == a2 && a2 * f == v * f + d * w && r + w * c == v * f
    ensures r == (a * f) % w
  {
    Shortfall(r, c, d, w, a * f);
  }

  lemma LeftBeyond(a: seq<Word>, k: nat, s: nat, r: seq<Word>)
    requires IsLeft(a, k, s, r) && k > |a|
    ensures Val(r) == (Val(a) * (Pow(2, s) * Weight(k))) % Weight(|a|)
  {
    hide Val, Weight, Pow;
    ValZeroes(r);
    hide IsLeft;
    WeightAdd(k - |a|, |a|);
    Multiple(Val(a), Pow(2, s), Weight(k - |a|), Weight(|a|), Weight(k));
  }

  lemma Multiple(v: nat, p: nat, u: nat, w: nat, uw: nat)
    requires w > 0 && uw == u * w
    ensures (v * (p * uw)) % w == 0
  {
    MulAssoc(v, p, uw);
    MulAssoc(v * p, u, w);
    ModSame(0, (v * p) * u, w);
  }

  /** A word-wise left shift multiplies by a power of two, modulo 2^BITS. */
  lemma LeftValue(a: seq<Word>, k: nat, s: nat, r: seq<Word>)
    requires IsLeft(a, k, s, r)
    ensures Val(r) == (Val(a) * Pow(2, 32 * k + s)) % Weight(|a|)
  {
    hide Val, Weight, Pow, IsLeft;
    ShiftFactor(k, s);
    if k <= |a| {
      LeftWithin(a, k, s, r);
    } else {
      LeftBeyond(a, k, s, r);
    }
  }

  /** total is r, less one multiple of w and more another. */
  lemma Shortfall(r: nat, c: nat, d: nat, w: nat, total: nat)
    requires w > 0 && r < w && total == (r + w * c) + d * w
    ensures r == total % w
  {
    Distribute(c, d, w);
    DivModUnique(total, w, c + d, r);
  }

  // ----- shifting all words right -----

  /** What the word above position i sends down into the word below it. */
  function FromAbove(a: seq<Word>, s: nat, i: nat): Word
    requires s <= 32
  {
    if i >= |a| then 0 else ShiftUp(a[i], 32 - s)
  }

  /** Word j of a shifted right by k words and s bits. */
  function RightWord(a: seq<Word>, k: nat, s: nat, j: nat): (w: Word)
    requires s <= 32
  {
    if j + k >= |a| then 0
    else if j + k + 1 == |a| then ShiftDown(a[j + k], s)
    else PartsFit(a[j + k + 1], a[j + k], 32 - s); ShiftUp(a[j + k + 1], 32 - s) + ShiftDown(a[j + k], s)
  }

  lemma RightWordIs(a: seq<Word>, k: nat, s: nat, j: nat)
    requires s <= 32 && j + k < |a|
    ensures RightWord(a, k, s, j) == ShiftDown(a[j + k], s) + FromAbove(a, s, j + k + 1)
  {
  }

  ghost predicate IsRight(a: seq<Word>, k: nat, s: nat, r: seq<Word>) {
    s <= 32 && |r| == |a| && forall j :: 0 <= j < |r| ==> r[j] == RightWord(a, k, s, j)
  }

  /** The bits of word i that a shift by s moves out of it. */
  function Lost(a: seq<Word>, s: nat, i: nat): nat {
    PowPositive(2, s);
    if i >= |a| then 0 else a[i] % Pow(2, s)
  }

  lemma LostAbove(a: seq<Word>, s: nat, i: nat)
    requires s <= 32
    ensures FromAbove(a, s, i) * Pow(2, s) == Lost(a, s, i) * B
  {
    if i < |a| {
      ShiftParts(a[i], 32 - s);
      PowPositive(2, s);
      MulAssoc(a[i] % Pow(2, s), Pow(2, 32 - s), Pow(2, s));
    }
  }

  lemma RightAlgebra(down: int, above: int, x: int, p: int, lost: int, next: int, w: int)
    requires x == down * p + lost && above * p == next * B
    ensures ((down + above) * w) * p + lost * w == x * w + (B * w) * next
  {
    MulAssoc(down + above, w, p);
    MulAssoc(down + above, p, w);
    Distribute(down, above, p);
    Distribute(down * p, lost, w);
    Distribute(down * p, above * p, w);
    assert (B * w) * next == (next * B) * w by {
      MulAssoc(B, w, next);
      MulAssoc(next, B, w);
    }
  }

  lemma {:induction false} RightPrefix(a: seq<Word>, k: nat, s: nat, r: seq<Word>, n: nat)
    requires IsRight(a, k, s, r) && k + n <= |a|
    ensures Val(r[..n]) * Pow(2, s) + Lost(a, s, k) == Val(a[k..k + n]) + Weight(n) * Lost(a, s, k + n)
  {
    hide Val, Weight, Pow, ShiftUp, ShiftDown, Lost;
    if n == 0 {
      ValZeroes(r[..0]);
      ValZeroes(a[k..k + 0]);
      WeightZero();
    } else {
      var m := n - 1;
      var i := k + m;
      RightPrefix(a, k, s, r, m);
      RightWordIs(a, k, s, m);
      hide IsRight, RightWord;
      ValTake(r, m);
      ValTake(a[k..], m);
      assert a[k..][..m] == a[k..k + m] && a[k..][..m + 1] == a[k..k + n] && a[k..][m] == a[i];
      WeightStep(m);
      LostAbove(a, s, i + 1);
      DownAndLost(a, s, i);
      RightAlgebra(ShiftDown(a[i], s), FromAbove(a, s, i + 1), a[i], Pow(2, s), Lost(a, s, i), Lost(a, s, i + 1),
          Weight(m));
      Distribute(Val(r[..m]), r[m] * Weight(m), Pow(2, s));
    }
  }

  lemma DownAndLost(a: seq<Word>, s: nat, i: nat)
    requires i < |a|
    ensures a[i] == ShiftDown(a[i], s) * Pow(2, s) + Lost(a, s, i)
  {
    PowPositive(2, s);
  }

  lemma RightWithin(a: seq<Word>, k: nat, s: nat, r: seq<Word>)
    requires IsRight(a, k, s, r) && k < |a|
    ensures Pow(2, s) > 0 && Val(r) == Val(a[k..]) / Pow(2, s)
  {
    hide Val, Weight, Pow, ShiftUp, ShiftDown;
    var n := |a|;
    ValSplit(r, n - k);
    ValZeroes(r[n - k..]);
    RightPrefix(a, k, s, r, n - k);
    assert a[k..k + (n - k)] == a[k..];
    PowPositive(2, s);
    hide IsRight;
    DivModUnique(Val(a[k..]), Pow(2, s), Val(r), Lost(a, s, k));
  }

  lemma RightBeyond(a: seq<Word>, k: nat, s: nat)
    requires k >= |a|
    ensures Val(a) < Pow(2, s) * Weight(k)
  {
    hide Val, Weight, Pow;
    ValBelow(a);
    WeightAdd(k - |a|, |a|);
    PowPositive(2, s);
    MulMono(1, Weight(k - |a|), Weight(|a|));
    MulMono(1, Pow(2, s), Weight(k));
  }

  lemma DropWords(a: seq<Word>, k: nat)
    requires k <= |a|
    ensures Val(a[k..]) == Val(a) / Weight(k)
  {
    hide Val, Weight;
    ValSplit(a, k);
    ValBelow(a[..k]);
    DivModUnique(Val(a), Weight(k), Val(a[k..]), Val(a[..k]));
  }

  /** A word-wise right shift divides by a power of two. */
  lemma RightValue(a: seq<Word>, k: nat, s: nat, r: seq<Word>)
    requires IsRight(a, k, s, r)
    ensures Pow(2, 32 * k + s) > 0 && Val(r) == Val(a) / Pow(2, 32 * k + s)
  {
    hide Val, Weight, Pow;
    PowPositive(2, 32 * k + s);
    PowPositive(2, s);
    ShiftFactor(k, s);
    if k < |a| {
      RightWithin(a, k, s, r);
      DropWords(a, k);
      DivDiv(Val(a), Weight(k), Pow(2, s));
    } else {
      ValZeroes(r);
      RightBeyond(a, k, s);
      DivModUnique(Val(a), Pow(2, 32 * k + s), 0, Val(a));
    }
  }

  // ----- the loops of operator<<= and operator>>= -----

  /** The words after i rounds of the left-shift loop. */
  ghost predicate LeftUpTo(a: seq<Word>, k: nat, s: nat, i: nat, r: seq<Word>) {
    && s < 32 && i <= |a| == |r|
    && forall j :: 0 <= j < |r| ==> r[j] == LeftSoFar(a, k, s, i, j)
  }

  function LeftSoFar(a: seq<Word>, k: nat, s: nat, i: nat, j: nat): Word
    requires s < 32 && i <= |a| && j < |a|
  {
    if j < i + k then LeftWord(a, k, s, j) else if j == i + k then FromBelow(a, s, i) else 0
  }

  lemma WholeWordDown(x: Word)
    ensures ShiftDown(x, 32) == 0
  {
    WordIsPower();
    DivModUnique(x, B, 0, x);
  }

  lemma OrZero(x: nat)
    ensures BitOr(0, x) == x && BitOr(x, 0) == x
  {
  }

  /** The first write of a round: the bits that cross into the next word. */
  lemma LeftCross(a: seq<Word>, k: nat, s: nat, i: nat, r: seq<Word>)
    requires LeftUpTo(a, k, s, i, r) && i < |a|
    ensures i + k + 1 < |r| ==> BitOr(r[i + k + 1], ShiftDown(a[i], 32 - s)) == FromBelow(a, s, i + 1)
    ensures s == 0 ==> FromBelow(a, s, i + 1) == 0
    ensures i + k + 1 < |r| ==> r[i + k + 1] == 0
  {
    WholeWordDown(a[i]);
    OrZero(ShiftDown(a[i], 32 - s));
  }

  /** The second write: the bits that stay. */
  lemma LeftStay(a: seq<Word>, k: nat, s: nat, i: nat, w: Word)
    requires s < 32 && i < |a| && i + k < |a| && w == FromBelow(a, s, i)
    ensures BitOr(w, ShiftUp(a[i], s)) == LeftWord(a, k, s, i + k)
  {
    if i > 0 {
      PartsFit(a[i], a[i - 1], s);
    } else {
      OrZero(ShiftUp(a[i], s));
    }
  }

  lemma LeftDone(a: seq<Word>, k: nat, s: nat, r: seq<Word>)
    requires LeftUpTo(a, k, s, |a|, r)
    ensures IsLeft(a, k, s, r)
  {
    hide LeftWord;
  }

  /** The words after i rounds of the right-shift loop. */
  ghost predicate RightUpTo(a: seq<Word>, k: nat, s: nat, i: nat, r: seq<Word>) {
    && s < 32 && i <= |a| == |r|
    && forall j :: 0 <= j < |r| ==> r[j] == RightSoFar(a, k, s, i, j)
  }

  function RightSoFar(a: seq<Word>, k: nat, s: nat, i: nat, j: nat): Word
    requires s < 32 && i <= |a|
  {
    if j + k + 1 < i then RightWord(a, k, s, j) else if j + k + 1 == i then ShiftDown(a[j + k], s) else 0
  }

  lemma WholeWordUp(x: Word)
    ensures ShiftUp(x, 32) == 0
  {
    WordIsPower();
    ModSame(0, x, B);
  }

  lemma RightCross(a: seq<Word>, k: nat, s: nat, i: nat, w: Word)
    requires s < 32 && k + 1 <= i < |a| && w == ShiftDown(a[i - 1], s)
    ensures BitOr(w, ShiftUp(a[i], 32 - s)) == RightWord(a, k, s, i - k - 1)
    ensures s == 0 ==> RightWord(a, k, s, i - k - 1) == w
  {
    PartsFit(a[i], a[i - 1], 32 - s);
    WholeWordUp(a[i]);
  }

  lemma RightDone(a: seq<Word>, k: nat, s: nat, r: seq<Word>)
    requires RightUpTo(a, k, s, |a|, r)
    ensures IsRight(a, k, s, r)
  {
    hide RightWord, ShiftDown;
    forall j | 0 <= j < |r|
      ensures r[j] == RightWord(a, k, s, j)
    {
      LastRight(a, k, s, j);
    }
  }

  lemma LastRight(a: seq<Word>, k: nat, s: nat, j: nat)
    requires s < 32
    ensures j + k + 1 == |a| ==> RightWord(a, k, s, j) == ShiftDown(a[j + k], s)
    ensures j + k >= |a| ==> RightWord(a, k, s, j) == 0
  {
  }

  // ----- single bits -----

  function TestBit(x: nat, k: nat): bool {
    PowPositive(2, k);
    (x / Pow(2, k)) % 2 == 1
  }

  ghost predicate IsBitLength(v: nat, r: nat) {
    if v == 0 then r == 0 else r > 0 && Pow(2, r - 1) <= v < Pow(2, r)
  }

  lemma TestTop(x: nat, k: nat)
    requires x < Pow(2, k + 1)
    ensures TestBit(x, k) <==> x >= Pow(2, k)
  {
    PowPositive(2, k);
    var p := Pow(2, k);
    if x >= p {
      DivModUnique(x, p, 1, x - p);
    } else {
      DivModUnique(x, p, 0, x);
    }
  }

  /** The length in bits is decided by the highest word that is not zero. */
  lemma TopWordDecides(s: seq<Word>, i: nat, b: nat)
    requires i < |s| && s[i] != 0 && IsBitLength(s[i], b) && forall j :: i < j < |s| ==> s[j] == 0
    ensures IsBitLength(Val(s), 32 * i + b)
  {
    hide Val, Weight, Pow;
    ValSplit(s, i + 1);
    ValZeroes(s[i + 1..]);
    ValTake(s, i);
    ValBelow(s[..i]);
    PowPositive(2, b - 1);
    TopAlgebra(Val(s[..i]), s[i], Weight(i), Pow(2, b - 1), Pow(2, b));
    ShiftFactor(i, b - 1);
    ShiftFactor(i, b);
  }

  lemma TopAlgebra(v: nat, x: nat, w: nat, lo: nat, hi: nat)
    requires v < w && 0 < lo <= x < hi
    ensures 0 < lo * w <= v + x * w < hi * w
  {
    MulMono(lo, x, w);
    MulMono(x + 1, hi, w);
    Distribute(x, 1, w);
    MulPositive(lo, w);
  }

  lemma LowerHalf(x: nat, m: nat, t: int, c: int, z: int)
    requires m > 0 && x + (m * c) * z == m * t
    ensures x == m * (t - c * z) && t - c * z >= 0
  {
    MulAssoc(m, c, z);
    assert m * (t - c * z) == m * t - m * (c * z);
    if t - c * z < 0 {
      MulMono(t - c * z, -1, m);
    }
  }

  /** Below a multiple of a power of two, the word that holds the next bit has none of its lower bits. */
  lemma WordOfMultiple(s: seq<Word>, i: nat, k: nat, t: nat)
    requires i < |s| && k < 32 && Val(s) == t * Pow(2, 32 * i + k + 1)
    ensures exists u: nat {:trigger u * Pow(2, k + 1)} :: s[i] == u * Pow(2, k + 1)
  {
    hide Val, Weight, Pow;
    var m := Pow(2, k + 1);
    ShiftFactor(i, k + 1);
    MulAssoc(t, m, Weight(i));
    DropWords(s, i);
    DivModUnique(Val(s), Weight(i), t * m, 0);
    HeadOfVal(s[i..]);
    WordIsPower();
    PowAdd(2, k + 1, 31 - k);
    PowPositive(2, k + 1);
    LowerHalf(s[i], m, t, Pow(2, 31 - k), Val(s[i..][1..]));
    assert s[i] == (t - Pow(2, 31 - k) * Val(s[i..][1..])) * Pow(2, k + 1);
  }

  lemma HeadOfVal(s: seq<Word>)
    requires s != []
    ensures Val(s) == s[0] + B * Val(s[1..])
  {
    assert Val(s[..0]) == 0;
    hide Val, Weight;
    ValSplit(s, 1);
    ValTake(s, 0);
    WeightStep(0);
    WeightZero();
  }

  /** Setting a bit that is not set, nor any below it. */
  lemma SetBitValue(s: seq<Word>, i: nat, k: nat, t: nat)
    requires i < |s| && k < 32 && Val(s) == t * Pow(2, 32 * i + k + 1)
    ensures BitOr(s[i], Pow(2, k)) < B
    ensures Val(s[i := BitOr(s[i], Pow(2, k))]) == Val(s) + Pow(2, 32 * i + k)
  {
    WordOfMultiple(s, i, k, t);
    var u: nat :| s[i] == u * Pow(2, k + 1);
    PowPositive(2, k);
    BitOrDisjoint(u, Pow(2, k), k + 1);
    RoomForBit(u, k, s[i]);
    hide Val, Pow, Weight;
    ValUpdate(s, i, s[i] + Pow(2, k));
    ShiftFactor(i, k);
  }

  lemma RoomForBit(u: nat, k: nat, x: Word)
    requires k < 32 && x == u * Pow(2, k + 1)
    ensures x + Pow(2, k) < B
  {
    WordIsPower();
    PowAdd(2, 31 - k, k + 1);
    PowPositive(2, k);
    var p, q := Pow(2, k + 1), Pow(2, 31 - k);
    MulLess(u, q, p);
    MulMono(u + 1, q, p);
    Distribute(u, 1, p);
  }
}
