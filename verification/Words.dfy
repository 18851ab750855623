/** Little-endian sequences of 32-bit words and the numbers they stand for. */
module Words {
  import opened Power

  const B := 0x1_0000_0000

  type Word = x: int | 0 <= x < 0x1_0000_0000

  /** The weight of word i. */
  function Weight(i: nat): (w: nat)
    ensures w > 0
  {
    PowPositive(B, i);
    Pow(B, i)
  }

  function Val(s: seq<Word>): nat {
    if s == [] then 0 else Val(s[..|s| - 1]) + s[|s| - 1] * Weight(|s| - 1)
  }

  lemma WeightZero()
    ensures Weight(0) == 1
  {
  }

  lemma WeightStep(i: nat)
    ensures Weight(i + 1) == B * Weight(i) && Weight(i) > 0
  {
    PowPositive(B, i);
  }

  lemma WeightAdd(i: nat, j: nat)
    ensures Weight(i + j) == Weight(i) * Weight(j)
  {
    PowAdd(B, i, j);
  }

  lemma ValTake(s: seq<Word>, i: nat)
    requires i < |s|
    ensures Val(s[..i + 1]) == Val(s[..i]) + s[i] * Weight(i)
  {
    assert s[..i + 1][..i] == s[..i];
  }

  lemma {:induction false} ValBelow(s: seq<Word>)
    ensures Val(s) < Weight(|s|)
  {
    if s != [] {
      var n := |s| - 1;
      ValBelow(s[..n]);
      WeightStep(n);
      MulMono(s[n], B - 1, Weight(n));
    }
  }

  lemma Regroup(v: int, x: int, w: int, u: int)
    ensures w * v + x * (w * u) == w * (v + x * u)
  {
    MulAssoc(w, x, u);
    MulAssoc(x, w, u);
  }

  /** The value of a prefix and of the rest. */
  lemma {:induction false} ValSplit(s: seq<Word>, k: nat)
    requires k <= |s|
    ensures Val(s) == Val(s[..k]) + Weight(k) * Val(s[k..])
  {
    if k == |s| {
      assert s[..k] == s && s[k..] == [];
    } else {
      var n := |s| - 1;
      ValSplit(s[..n], k);
      assert s[..n][..k] == s[..k];
      assert s[k..][..n - k] == s[..n][k..];
      PowAdd(B, k, n - k);
      Regroup(Val(s[..n][k..]), s[n], Weight(k), Weight(n - k));
    }
  }

  /** One step of a carry chain: n is the total at word i, w its low word and c the next carry. */
  lemma CarryStep(n: nat, w: Word, c: nat, i: nat)
    requires n == c * B + w
    ensures n * Weight(i) == w * Weight(i) + c * Weight(i + 1)
  {
    WeightStep(i);
    Distribute(c * B, w, Weight(i));
    MulAssoc(c, B, Weight(i));
  }

  /** Writing word i. */
  lemma {:induction false} ValUpdate(s: seq<Word>, i: nat, w: Word)
    requires i < |s|
    ensures Val(s[i := w]) == Val(s) + (w - s[i]) * Weight(i)
  {
    var n := |s| - 1;
    var t := s[i := w];
    if i == n {
      assert t[..n] == s[..n];
      Distribute(w, s[i], Weight(i));
    } else {
      ValUpdate(s[..n], i, w);
      assert t[..n] == s[..n][i := w];
    }
  }

  lemma {:induction false} ValZeroes(s: seq<Word>)
    requires forall i :: 0 <= i < |s| ==> s[i] == 0
    ensures Val(s) == 0
  {
    if s != [] {
      ValZeroes(s[..|s| - 1]);
    }
  }

  /** The highest differing word decides. */
  lemma ValCompare(a: seq<Word>, b: seq<Word>, i: nat)
    requires |a| == |b| && i < |a| && a[i + 1..] == b[i + 1..] && a[i] < b[i]
    ensures Val(a) < Val(b)
  {
    ValSplit(a, i + 1);
    ValSplit(b, i + 1);
    ValTake(a, i);
    ValTake(b, i);
    ValBelow(a[..i]);
    MulMono(a[i] + 1, b[i], Weight(i));
    Distribute(a[i], 1, Weight(i));
  }
}
