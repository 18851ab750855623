/** Powers and the few laws of division that the multi-word integers and the base conversions need. */
module Power {

  function Pow(b: nat, e: nat): nat {
    if e == 0 then 1 else b * Pow(b, e - 1)
  }

  lemma {:induction false} PowPositive(b: nat, e: nat)
    requires b > 0
    ensures Pow(b, e) > 0
  {
    if e > 0 {
      PowPositive(b, e - 1);
      MulPositive(b, Pow(b, e - 1));
    }
  }

  lemma MulPositive(x: nat, y: nat)
    requires x > 0 && y > 0
    ensures x * y > 0
  {
  }

  lemma MulAssoc(x: int, y: int, z: int)
    ensures (x * y) * z == x * (y * z)
  {
  }

  lemma MulMono(x: int, y: int, z: nat)
    requires x <= y
    ensures x * z <= y * z
  {
  }

  lemma MulLess(x: int, y: int, z: nat)
    requires x * z < y * z
    ensures x < y
  {
  }

  lemma Distribute(x: int, y: int, z: int)
    ensures (x + y) * z == x * z + y * z
    ensures (x - y) * z == x * z - y * z
  {
  }

  lemma {:induction false} PowAdd(b: nat, m: nat, n: nat)
    ensures Pow(b, m + n) == Pow(b, m) * Pow(b, n)
  {
    if m == 0 {
      assert Pow(b, 0) == 1;
    } else {
      PowAdd(b, m - 1, n);
      MulAssoc(b, Pow(b, m - 1), Pow(b, n));
    }
  }

  lemma PowMono(b: nat, m: nat, n: nat)
    requires b > 0 && m <= n
    ensures Pow(b, m) <= Pow(b, n)
  {
    PowAdd(b, n - m, m);
    PowPositive(b, n - m);
    MulMono(1, Pow(b, n - m), Pow(b, m));
  }

  lemma {:induction false} PowPow(b: nat, m: nat, n: nat)
    ensures Pow(Pow(b, m), n) == Pow(b, m * n)
  {
    if n > 0 {
      PowPow(b, m, n - 1);
      Distribute(1, n - 1, m);
      PowAdd(b, m, m * (n - 1));
    }
  }

  lemma DivModUnique(a: int, b: nat, q: int, r: int)
    requires b > 0 && a == q * b + r && 0 <= r < b
    ensures q == a / b && r == a % b
  {
    var k := q - a / b;
    Distribute(q, a / b, b);
    assert k * b == a % b - r;
    if k >= 1 {
      MulMono(1, k, b);
    }
    if k <= -1 {
      MulMono(k, -1, b);
    }
  }

  lemma DivMod(n: nat, b: nat)
    requires b > 0
    ensures n == (n / b) * b + n % b && 0 <= n % b < b && n / b >= 0
  {
  }

  lemma ModSame(a: int, k: int, m: nat)
    requires m > 0
    ensures (a + k * m) % m == a % m
  {
    Distribute(a / m, k, m);
    DivModUnique(a + k * m, m, a / m + k, a % m);
  }

  /** Dividing by a product is dividing twice. */
  lemma DivDiv(a: nat, b: nat, c: nat)
    requires b > 0 && c > 0
    ensures b * c > 0 && a / (b * c) == (a / b) / c
  {
    MulPositive(b, c);
    var q, r := a / b, a % b;
    var q2, r2 := q / c, q % c;
    MulMono(r2, c - 1, b);
    Distribute(c, 1, b);
    Distribute(q2 * c, r2, b);
    MulAssoc(q2, c, b);
    DivModUnique(a, b * c, q2, r2 * b + r);
  }

  lemma DivMono(a: nat, b: nat, m: nat)
    requires m > 0 && a <= b
    ensures a / m <= b / m
  {
    if a / m > b / m {
      MulMono(b / m + 1, a / m, m);
      Distribute(b / m, 1, m);
    }
  }
}
