/** Numbers as big-endian digits in an arbitrary base, without leading zeroes. */
module Digits {
  import opened Power

  /** The number that digits stand for. */
  function NatOf(b: nat, s: seq<nat>): nat {
    if s == [] then 0 else NatOf(b, s[..|s| - 1]) * b + s[|s| - 1]
  }

  /** The digits of a number; none for zero. */
  function DigitsOf(b: nat, n: nat): seq<nat>
    requires b >= 2
  {
    if n == 0 then [] else Smaller(n, b); DigitsOf(b, n / b) + [n % b]
  }

  lemma Smaller(n: nat, b: nat)
    requires n > 0 && b >= 2
    ensures 0 <= n / b < n
  {
    if n / b >= n {
      MulMono(2, b, n / b);
    }
  }

  predicate Below(b: nat, s: seq<nat>) {
    forall i :: 0 <= i < |s| ==> s[i] < b
  }

  lemma NatOfPush(b: nat, s: seq<nat>, x: nat)
    ensures NatOf(b, s + [x]) == NatOf(b, s) * b + x
  {
    assert (s + [x])[..|s|] == s;
  }

  /** Digits stand for the number they were taken from; the first is not zero. */
  lemma {:induction false} DigitsValue(b: nat, n: nat)
    requires b >= 2
    ensures NatOf(b, DigitsOf(b, n)) == n && Below(b, DigitsOf(b, n))
    ensures n > 0 ==> DigitsOf(b, n) != [] && DigitsOf(b, n)[0] > 0
  {
    if n > 0 {
      hide NatOf;
      Smaller(n, b);
      var q, r := n / b, n % b;
      DivMod(n, b);
      DigitsValue(b, q);
      NatOfPush(b, DigitsOf(b, q), r);
    } else {
      assert DigitsOf(b, n) == [];
    }
  }

  lemma {:induction false} NatOfBelow(b: nat, s: seq<nat>)
    requires b >= 2 && Below(b, s)
    ensures NatOf(b, s) < Pow(b, |s|)
  {
    if s != [] {
      var n := |s| - 1;
      NatOfBelow(b, s[..n]);
      MulMono(NatOf(b, s[..n]) + 1, Pow(b, n), b);
      Distribute(NatOf(b, s[..n]), 1, b);
    }
  }

  /** A sequence is read back as itself exactly when its value needs its length. */
  lemma {:induction false} ReadBack(b: nat, s: seq<nat>)
    requires b >= 2 && Below(b, s) && (s == [] || NatOf(b, s) >= Pow(b, |s| - 1))
    ensures DigitsOf(b, NatOf(b, s)) == s
  {
    if s != [] {
      var n := |s| - 1;
      var v := NatOf(b, s[..n]);
      DivModUnique(NatOf(b, s), b, v, s[n]);
      PowPositive(b, n);
      if n > 0 && v < Pow(b, n - 1) {
        MulMono(v + 1, Pow(b, n - 1), b);
        Distribute(v, 1, b);
      }
      ReadBack(b, s[..n]);
    }
  }

  lemma {:induction false} LeadingWeight(b: nat, s: seq<nat>)
    requires b >= 2 && s != [] && s[0] > 0
    ensures NatOf(b, s) >= Pow(b, |s| - 1)
  {
    if |s| == 1 {
      assert s[..0] == [];
    } else {
      var n := |s| - 1;
      LeadingWeight(b, s[..n]);
      MulMono(Pow(b, n - 1), NatOf(b, s[..n]), b);
    }
  }

  /** Without a leading zero, reading the digits of the value gives the same digits. */
  lemma Canonical(b: nat, s: seq<nat>)
    requires b >= 2 && Below(b, s) && (s == [] || s[0] > 0)
    ensures DigitsOf(b, NatOf(b, s)) == s
  {
    if s != [] {
      LeadingWeight(b, s);
    }
    ReadBack(b, s);
  }

  lemma PowStep(b: nat, n: nat)
    ensures Pow(b, n + 1) == b * Pow(b, n)
  {
  }

  lemma PrependAlgebra(x: nat, p: nat, v: nat, b: nat)
    ensures (x * p + v) * b == x * (b * p) + v * b
  {
    Distribute(x * p, v, b);
    MulAssoc(x, p, b);
  }

  lemma {:induction false} NatOfPrepend(b: nat, x: nat, s: seq<nat>)
    ensures NatOf(b, [x] + s) == x * Pow(b, |s|) + NatOf(b, s)
  {
    if s == [] {
      assert [x] + s == [x] && [x][..0] == [];
    } else {
      var n := |s| - 1;
      NatOfPrepend(b, x, s[..n]);
      assert ([x] + s)[..n + 1] == [x] + s[..n];
      PowStep(b, n);
      hide NatOf, Pow;
      PrependAlgebra(x, Pow(b, n), NatOf(b, s[..n]), b);
    }
  }

  lemma {:induction false} LeadingZeroes(b: nat, s: seq<nat>, k: nat)
    requires k <= |s| && forall i :: 0 <= i < k ==> s[i] == 0
    ensures NatOf(b, s) == NatOf(b, s[k..])
  {
    if k > 0 {
      assert s == [0] + s[1..];
      NatOfPrepend(b, 0, s[1..]);
      LeadingZeroes(b, s[1..], k - 1);
      assert s[1..][k - 1..] == s[k..];
    }
  }

  lemma {:induction false} PowBaseMono(b: nat, c: nat, e: nat)
    requires b <= c
    ensures Pow(b, e) <= Pow(c, e)
  {
    if e > 0 {
      PowBaseMono(b, c, e - 1);
      MulMono(b, c, Pow(b, e - 1));
      MulMono(Pow(b, e - 1), Pow(c, e - 1), c);
    }
  }

  lemma {:induction false} PowBaseStrict(b: nat, c: nat, e: nat)
    requires b < c && e > 0
    ensures Pow(b, e) < Pow(c, e)
  {
    PowBaseMono(b, c, e - 1);
    PowPositive(c, e - 1);
    MulMono(Pow(b, e - 1), Pow(c, e - 1), b);
    MulMono(b + 1, c, Pow(c, e - 1));
    Distribute(b, 1, Pow(c, e - 1));
  }

  /** If a^q <= b^p and m / n >= p / q, then n digits in base a fit in m digits in base b. */
  lemma EnoughDigits(a: nat, b: nat, p: nat, q: nat, n: nat, m: nat)
    requires a > 0 && b > 0 && q > 0 && Pow(a, q) <= Pow(b, p) && q * m >= p * n
    ensures Pow(a, n) <= Pow(b, m)
  {
    hide Pow;
    PowCompare(b, p, n, q, m);
    PowSwap(a, n, q);
    PowBaseMono(Pow(a, q), Pow(b, p), n);
    PowSwap(b, m, q);
    PowRoot(Pow(a, n), Pow(b, m), q);
  }

  lemma PowCompare(b: nat, p: nat, n: nat, q: nat, m: nat)
    requires b > 0 && q * m >= p * n
    ensures Pow(Pow(b, p), n) <= Pow(Pow(b, q), m)
  {
    hide Pow;
    PowPow(b, p, n);
    PowPow(b, q, m);
    var x, y := p * n, q * m;
    PowMono(b, x, y);
  }

  lemma PowRoot(x: nat, y: nat, q: nat)
    requires q > 0 && Pow(x, q) <= Pow(y, q)
    ensures x <= y
  {
    hide Pow;
    if x > y {
      PowBaseStrict(y, x, q);
    }
  }

  lemma PowSwap(a: nat, n: nat, q: nat)
    ensures Pow(Pow(a, n), q) == Pow(Pow(a, q), n)
  {
    hide Pow;
    PowPow(a, n, q);
    PowPow(a, q, n);
    assert n * q == q * n;
  }
}
