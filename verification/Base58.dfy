/**
 Base58 (src/base58.cpp): byte strings as numbers in base 58 over an alphabet without look-alikes, with
 one '1' for every leading zero byte.
 */
module Base58 {
  import opened Wrappers
  import opened Power
  import opened Digits

  // ----- the alphabet -----

  const ALPHABET: string := "123456789" + "ABCDEFGH" + "JKLMN" + "PQRSTUVWXYZ" + "abcdefghijk" + "mnopqrstuvwxyz"

  /** The alphabet by its runs of consecutive characters. */
  function CharOf(d: nat): char
    requires d < 58
  {
    if d < 9 then '1' + d as char
    else if d < 17 then 'A' + (d - 9) as char
    else if d < 22 then 'J' + (d - 17) as char
    else if d < 33 then 'P' + (d - 22) as char
    else if d < 44 then 'a' + (d - 33) as char
    else 'm' + (d - 44) as char
  }

  lemma AlphabetIs(d: nat)
    requires d < 58
    ensures |ALPHABET| == 58 && ALPHABET[d] == CharOf(d)
  {
    assert forall i :: 0 <= i < 9 ==> "123456789"[i] == '1' + i as char;
    assert forall i :: 0 <= i < 8 ==> "ABCDEFGH"[i] == 'A' + i as char;
    assert forall i :: 0 <= i < 5 ==> "JKLMN"[i] == 'J' + i as char;
    assert forall i :: 0 <= i < 11 ==> "PQRSTUVWXYZ"[i] == 'P' + i as char;
    assert forall i :: 0 <= i < 11 ==> "abcdefghijk"[i] == 'a' + i as char;
    assert forall i :: 0 <= i < 14 ==> "mnopqrstuvwxyz"[i] == 'm' + i as char;
  }

  lemma CharsDistinct(d: nat, e: nat)
    requires d < 58 && e < 58 && CharOf(d) == CharOf(e)
    ensures d == e
  {
  }

  predicate IsSpace(c: char) {
    c == ' ' || '\t' <= c <= '\r'
  }

  ghost predicate InAlphabet(c: char) {
    exists d: nat :: d < 58 && CharOf(d) == c
  }

  ghost function DigitOf(c: char): (d: nat)
    ensures InAlphabet(c) ==> d < 58 && CharOf(d) == c
  {
    if InAlphabet(c) then var d: nat :| d < 58 && CharOf(d) == c; d else 0
  }

  lemma DigitOfChar(d: nat)
    requires d < 58
    ensures InAlphabet(CharOf(d)) && DigitOf(CharOf(d)) == d && !IsSpace(CharOf(d)) && (CharOf(d) == '1' <==> d == 0)
  {
    CharsDistinct(d, DigitOf(CharOf(d)));
  }

  /** strchr */
  method FindChar(c: char) returns (i: int)
    ensures InAlphabet(c) ==> i == DigitOf(c)
    ensures !InAlphabet(c) ==> i == -1
  {
    hide CharOf;
    AlphabetIs(0);
    i := 0;
    while i < 58
      invariant 0 <= i <= 58 && forall d: nat :: d < i ==> CharOf(d) != c
    {
      AlphabetIs(i);
      if ALPHABET[i] == c {
        DigitOfChar(i);
        return;
      }
      i := i + 1;
    }
    return -1;
  }

  // ----- what encoding and decoding mean -----

  /** How many elements equal to x the sequence begins with. */
  function Leading<T(==)>(s: seq<T>, x: T): (n: nat)
    ensures n <= |s| && (forall i :: 0 <= i < n ==> s[i] == x) && (n < |s| ==> s[n] != x)
  {
    if s == [] || s[0] != x then 0 else 1 + Leading(s[1..], x)
  }

  lemma LeadingIs<T>(s: seq<T>, x: T, n: nat)
    requires n <= |s| && (forall i :: 0 <= i < n ==> s[i] == x) && (n < |s| ==> s[n] != x)
    ensures Leading(s, x) == n
  {
  }

  function Repeat<T>(x: T, n: nat): (s: seq<T>)
    ensures |s| == n && forall i :: 0 <= i < n ==> s[i] == x
  {
    seq(n, _ => x)
  }

  function CharsOf(ds: seq<nat>): (s: string)
    requires Below(58, ds)
    ensures |s| == |ds| && forall i :: 0 <= i < |s| ==> s[i] == CharOf(ds[i])
  {
    seq(|ds|, i requires 0 <= i < |ds| => CharOf(ds[i]))
  }

  ghost function DigitsIn(s: string): (ds: seq<nat>)
    ensures |ds| == |s| && forall i :: 0 <= i < |s| ==> ds[i] == DigitOf(s[i])
  {
    seq(|s|, i requires 0 <= i < |s| => DigitOf(s[i]))
  }

  function Encoded(v: seq<nat>): string {
    var z := Leading(v, 0);
    DigitsValue(58, NatOf(256, v[z..]));
    Repeat('1', z) + CharsOf(DigitsOf(58, NatOf(256, v[z..])))
  }

  ghost predicate AllInAlphabet(s: string) {
    forall i :: 0 <= i < |s| ==> InAlphabet(s[i])
  }

  /** The bytes a string over the alphabet stands for. */
  ghost function Payload(s: string): seq<nat> {
    var z := Leading(s, '1');
    Repeat(0, z) + DigitsOf(256, NatOf(58, DigitsIn(s[z..])))
  }

  function SkipSpaces(s: string): (n: nat)
    ensures n <= |s| && (forall i :: 0 <= i < n ==> IsSpace(s[i])) && (n < |s| ==> !IsSpace(s[n]))
  {
    if s == [] || !IsSpace(s[0]) then 0 else 1 + SkipSpaces(s[1..])
  }

  /** The string without the spaces before it and after it. */
  function Stripped(s: string): string {
    StripEnd(s[SkipSpaces(s)..])
  }

  function StripEnd(s: string): (t: string)
    ensures |t| <= |s| && t == s[..|t|] && (forall i :: |t| <= i < |s| ==> IsSpace(s[i]))
    ensures t != [] ==> !IsSpace(t[|t| - 1])
  {
    if s == [] || !IsSpace(s[|s| - 1]) then s else StripEnd(s[..|s| - 1])
  }

  // Strings of the repository's own tests.

  lemma Vectors()
    ensures Encoded([]) == "" && Encoded([0x61]) == "2g"
  {
    assert NatOf(256, [0x61]) == 0x61;
    assert DigitsOf(58, 0x61) == [1, 39];
    assert [0x61][0..] == [0x61];
  }

  // ----- the round trips -----

  lemma CharsBack(ds: seq<nat>)
    requires Below(58, ds)
    ensures AllInAlphabet(CharsOf(ds)) && DigitsIn(CharsOf(ds)) == ds
    ensures ds != [] && ds[0] > 0 ==> CharsOf(ds)[0] != '1'
  {
    hide CharOf, DigitOf, InAlphabet, IsSpace;
    forall i | 0 <= i < |ds|
      ensures InAlphabet(CharsOf(ds)[i]) && DigitOf(CharsOf(ds)[i]) == ds[i] && (ds[i] > 0 ==> CharsOf(ds)[i] != '1')
    {
      DigitOfChar(ds[i]);
    }
    assert DigitsIn(CharsOf(ds)) == ds;
  }

  lemma OnesThen(z: nat, t: string)
    requires AllInAlphabet(t) && (t != [] ==> t[0] != '1')
    ensures AllInAlphabet(Repeat('1', z) + t)
    ensures Leading(Repeat('1', z) + t, '1') == z && (Repeat('1', z) + t)[z..] == t
  {
    hide CharOf, InAlphabet, IsSpace, DigitOf;
    DigitOfChar(0);
    IsOne();
    LeadingIs(Repeat('1', z) + t, '1', z);
  }

  lemma IsOne()
    ensures CharOf(0) == '1'
  {
  }

  lemma PayloadOfEncoded(v: seq<nat>)
    requires Below(256, v)
    ensures AllInAlphabet(Encoded(v)) && Payload(Encoded(v)) == v
  {
    hide CharsOf, DigitsIn, NatOf, DigitsOf, AllInAlphabet, Leading;
    var z := Leading(v, 0);
    var n := NatOf(256, v[z..]);
    var ds := DigitsOf(58, n);
    DigitsValue(58, n);
    NoDigits(58);
    CharsBack(ds);
    OnesThen(z, CharsOf(ds));
    Canonical(256, v[z..]);
    assert v == Repeat(0, z) + v[z..];
  }

  lemma NoDigits(b: nat)
    requires b >= 2
    ensures DigitsOf(b, 0) == []
  {
  }

  lemma CharsOfDigits(t: string)
    requires AllInAlphabet(t)
    ensures Below(58, DigitsIn(t)) && CharsOf(DigitsIn(t)) == t
    ensures t != [] && t[0] != '1' ==> DigitsIn(t)[0] > 0
  {
    hide CharOf;
    IsOne();
  }

  lemma ZeroesThen(z: nat, ds: seq<nat>)
    requires Below(256, ds) && (ds != [] ==> ds[0] > 0)
    ensures Below(256, Repeat(0, z) + ds)
    ensures Leading(Repeat(0, z) + ds, 0) == z && (Repeat(0, z) + ds)[z..] == ds
  {
    LeadingIs(Repeat(0, z) + ds, 0, z);
  }

  lemma SplitOnes(s: string)
    ensures var z := Leading(s, '1'); s == Repeat('1', z) + s[z..]
  {
  }

  lemma EncodedParts(z: nat, ds: seq<nat>, t: string)
    requires Below(256, ds) && (ds != [] ==> ds[0] > 0)
    requires Below(58, DigitsIn(t)) && CharsOf(DigitsIn(t)) == t && DigitsOf(58, NatOf(256, ds)) == DigitsIn(t)
    ensures Encoded(Repeat(0, z) + ds) == Repeat('1', z) + t
  {
    hide CharsOf, NatOf, DigitsOf, DigitsIn, Repeat, Leading;
    ZeroesThen(z, ds);
  }

  /** What a string over the alphabet decodes to encodes to the string. */
  lemma EncodedOfPayload(s: string)
    requires AllInAlphabet(s)
    ensures Below(256, Payload(s)) && Encoded(Payload(s)) == s
  {
    var z := Leading(s, '1');
    var t := s[z..];
    assert AllInAlphabet(t) && (t != [] ==> t[0] != '1');
    hide CharsOf, NatOf, DigitsOf, AllInAlphabet, DigitsIn, Repeat, Leading, Encoded;
    SplitOnes(s);
    CharsOfDigits(t);
    var n := NatOf(58, DigitsIn(t));
    DigitsValue(256, n);
    NoDigits(256);
    Canonical(58, DigitsIn(t));
    ZeroesThen(z, DigitsOf(256, n));
    EncodedParts(z, DigitsOf(256, n), t);
  }

  // ----- the buffers are large enough -----

  lemma PowOfOne(b: nat)
    ensures Pow(b, 1) == b
  {
  }

  lemma Pow256To8()
    ensures Pow(256, 8) == 0x10000000000000000
  {
    PowOfOne(256);
    hide Pow;
    PowAdd(256, 1, 1);
    assert Pow(256, 2) == 0x10000;
    PowAdd(256, 2, 2);
    assert Pow(256, 4) == 0x100000000;
    PowAdd(256, 4, 4);
    assert Pow(256, 8) == 0x10000000000000000;
  }

  lemma Pow58To11()
    ensures Pow(58, 11) == 0x15ac264554f032800
  {
    PowOfOne(58);
    hide Pow;
    PowAdd(58, 1, 1);
    assert Pow(58, 2) == 0xd24;
    PowAdd(58, 2, 2);
    assert Pow(58, 4) == 0xacad10;
    PowAdd(58, 4, 4);
    assert Pow(58, 8) == 0x7479027ea100;
    PowAdd(58, 8, 2);
    assert Pow(58, 10) == 0x5fa8624c7fba400;
    PowAdd(58, 10, 1);
    assert Pow(58, 11) == 0x15ac264554f032800;
  }

  lemma Pow58To71()
    ensures Pow(58, 71) == 0xf1a10f76073f997e1af0b37f5c795ecf145633452837a5de3fa17ac74b86f60a0ebe5446f358940a4ca12a800000000000000000
  {
    PowOfOne(58);
    hide Pow;
    PowAdd(58, 1, 1);
    assert Pow(58, 2) == 0xd24;
    PowAdd(58, 2, 2);
    assert Pow(58, 4) == 0xacad10;
    PowAdd(58, 4, 4);
    assert Pow(58, 8) == 0x7479027ea100;
    PowAdd(58, 8, 8);
    assert Pow(58, 16) == 0x34fde3761da26b26e1410000;
    PowAdd(58, 16, 16);
    assert Pow(58, 32) == 0xaf820335d9b3d9cf58b911d87035677fb7f528100000000;
    PowAdd(58, 32, 32);
    assert Pow(58, 64) == 0x7853026ae25f4ce0c69893e6f1f86f67aef4db69563516064adeb967a9d66f4fe64b09ec94e5010000000000000000;
    PowAdd(58, 64, 4);
    assert Pow(58, 68) == 0x51291d3da279b033ee22c4e4a6e2dedc799439d259d1820f6deea1c2dcc053504eae09c5598944bbfd100000000000000000;
    PowAdd(58, 68, 2);
    assert Pow(58, 70) == 0x42a80443deb070f6a6540e34ca0fd38892d9fc7d024451112c093c5a49ccf46cb49e6f8654c8fcb364966400000000000000000;
    PowAdd(58, 70, 1);
    assert Pow(58, 71) == 0xf1a10f76073f997e1af0b37f5c795ecf145633452837a5de3fa17ac74b86f60a0ebe5446f358940a4ca12a800000000000000000;
  }

  lemma Pow256To52()
    ensures Pow(256, 52) == 0x100000000000000000000000000000000000000000000000000000000000000000000000000000000000000000000000000000000
  {
    PowOfOne(256);
    hide Pow;
    PowAdd(256, 1, 1);
    assert Pow(256, 2) == 0x10000;
    PowAdd(256, 2, 2);
    assert Pow(256, 4) == 0x100000000;
    PowAdd(256, 4, 4);
    assert Pow(256, 8) == 0x10000000000000000;
    PowAdd(256, 8, 8);
    assert Pow(256, 16) == 0x100000000000000000000000000000000;
    PowAdd(256, 16, 16);
    assert Pow(256, 32) == 0x10000000000000000000000000000000000000000000000000000000000000000;
    PowAdd(256, 32, 16);
    assert Pow(256, 48) == 0x1000000000000000000000000000000000000000000000000000000000000000000000000000000000000000000000000;
    PowAdd(256, 48, 4);
    assert Pow(256, 52) == 0x100000000000000000000000000000000000000000000000000000000000000000000000000000000000000000000000000000000;
  }

  /** n bytes fit in n * 138 / 100 + 1 digits of base 58, since 256^8 <= 58^11. */
  lemma EncodeBuffer(n: nat)
    ensures Pow(256, n) <= Pow(58, n * 138 / 100 + 1)
  {
    Pow256To8();
    Pow58To11();
    EnoughDigits(256, 58, 11, 8, n, n * 138 / 100 + 1);
  }

  /** n digits of base 58 fit in n * 733 / 1000 + 1 bytes, since 58^71 <= 256^52. */
  lemma DecodeBuffer(n: nat)
    ensures Pow(58, n) <= Pow(256, n * 733 / 1000 + 1)
  {
    Pow58To71();
    Pow256To52();
    EnoughDigits(58, 256, 52, 71, n, n * 733 / 1000 + 1);
  }

  // ----- one digit more -----

  /** A big-endian buffer that holds the digits of v in its last length places. */
  ghost predicate Holds(s: seq<nat>, b: nat, v: nat, length: nat)
    requires b >= 2
  {
    && length <= |s| && Below(b, s)
    && (forall i :: 0 <= i < |s| - length ==> s[i] == 0)
    && s[|s| - length..] == DigitsOf(b, v)
  }

  lemma HeldLength(s: seq<nat>, b: nat, v: nat, length: nat)
    requires b >= 2 && Holds(s, b, v, length)
    ensures length == |DigitsOf(b, v)| && length <= |s|
    ensures length > 0 ==> v >= Pow(b, length - 1)
  {
    hide NatOf, Pow;
    DigitsValue(b, v);
    NatOfNothing(b);
    if length > 0 {
      LeadingWeight(b, s[|s| - length..]);
    }
  }

  lemma HeldSuffix(s: seq<nat>, b: nat, v: nat, length: nat, i: nat)
    requires b >= 2 && Holds(s, b, v, length) && length <= i <= |s|
    ensures NatOf(b, s[|s| - i..]) == v
  {
    hide NatOf;
    DigitsValue(b, v);
    LeadingZeroes(b, s[|s| - i..], i - length);
    assert s[|s| - i..][i - length..] == s[|s| - length..];
  }

  lemma NatOfNothing(b: nat)
    requires b >= 2
    ensures NatOf(b, []) == 0 && DigitsOf(b, 0) == []
  {
  }

  lemma CarryAlgebra(carry: nat, m: nat, d: nat, c: nat, w: nat, b: nat, p: nat, low: nat, was: nat, add: nat)
    requires low + carry * p == was * m + add && carry + m * d == c * b + w
    ensures (w * p + low) + c * (b * p) == (d * p + was) * m + add
  {
    assert (carry + m * d) * p == (c * b + w) * p;
    Distribute(carry, m * d, p);
    Distribute(c * b, w, p);
    MulAssoc(c, b, p);
    Distribute(d * p, was, m);
    MulAssoc(m, d, p);
    assert (d * p) * m == m * (d * p);
  }

  /** The invariant of the inner loop: i low digits are done, and carry is what they leave. */
  ghost predicate Accumulating(s: seq<nat>, was: seq<nat>, b: nat, m: nat, c: nat, i: nat, carry: nat) {
    && i <= |s| == |was| && Below(b, s) && Below(b, was)
    && s[..|s| - i] == was[..|s| - i]
    && NatOf(b, s[|s| - i..]) + carry * Pow(b, i) == NatOf(b, was[|s| - i..]) * m + c
  }

  lemma AccumulateStep(s: seq<nat>, was: seq<nat>, b: nat, m: nat, c: nat, i: nat, carry: nat)
    requires b >= 2 && Accumulating(s, was, b, m, c, i, carry) && i < |s|
    ensures var k := |s| - 1 - i; var t := carry + m * s[k];
      t % b >= 0 && t / b >= 0 && Accumulating(s[k := t % b], was, b, m, c, i + 1, t / b)
  {
    hide NatOf, Pow;
    var k := |s| - 1 - i;
    var d := s[k];
    assert d == s[..k + 1][k] == was[..k + 1][k] == was[k];
    var t := carry + m * d;
    DivMod(t, b);
    var r := s[k := t % b];
    assert r[k..] == [t % b] + s[k + 1..];
    assert was[k..] == [d] + was[k + 1..];
    NatOfPrepend(b, t % b, s[k + 1..]);
    NatOfPrepend(b, d, was[k + 1..]);
    PowStep(b, i);
    CarryAlgebra(carry, m, d, t / b, t % b, b, Pow(b, i), NatOf(b, s[k + 1..]), NatOf(b, was[k + 1..]), c);
    assert r[..k] == was[..k] by {
      assert r[..k] == s[..k + 1][..k];
      assert was[..k] == was[..k + 1][..k];
    }
  }

  /** When the loop stops, no carry is left and the buffer holds v * m + c, in as few digits as it needs. */
  lemma AccumulateDone(s: seq<nat>, was: seq<nat>, b: nat, m: nat, c: nat, i: nat, carry: nat, v: nat, length: nat)
    requires b >= 2 && m >= 1 && Accumulating(s, was, b, m, c, i, carry) && Holds(was, b, v, length)
    requires v * m + c < Pow(b, |s|) && length <= i && (carry == 0 || i == |s|)
    requires i > length ==> v * m + c >= Pow(b, i - 1)
    ensures carry == 0 && Holds(s, b, v * m + c, i)
  {
    hide NatOf, Pow, DigitsOf;
    var n := |s|;
    HeldSuffix(was, b, v, length, i);
    HeldLength(was, b, v, length);
    NoCarry(NatOf(b, s[n - i..]), carry, Pow(b, n), v * m + c, i == n);
    if i == length && i > 0 {
      MulMono(1, m, v);
    }
    ReadBack(b, s[n - i..]);
    forall j | 0 <= j < n - i
      ensures s[j] == 0
    {
      assert s[j] == s[..n - i][j] == was[..n - i][j] == was[j];
    }
  }

  lemma NoCarry(low: nat, carry: nat, p: nat, total: nat, full: bool)
    requires total < p && (carry == 0 || full) && (full ==> low + carry * p == total)
    ensures carry == 0
  {
    if carry > 0 {
      MulMono(1, carry, p);
    }
  }

  /** The inner loop of both directions: buf = buf * m + c. Its assertion that no carry is left never fails. */
  method Accumulate(buf: array<nat>, b: nat, m: nat, c: nat, length: nat, ghost v: nat) returns (i: nat)
    requires b >= 2 && m >= 1 && Holds(buf[..], b, v, length) && v * m + c < Pow(b, buf.Length)
    modifies buf
    ensures Holds(buf[..], b, v * m + c, i)
  {
    hide NatOf, Pow, DigitsOf, Accumulating, Holds;
    ghost var was := buf[..];
    var n := buf.Length;
    var carry := c;
    i := 0;
    StartAccumulate(was, b, m, c, v, length);
    while (carry != 0 || i < length) && i != n
      invariant 0 <= i <= n && carry >= 0
      invariant Accumulating(buf[..], was, b, m, c, i, carry)
      invariant i > length ==> v * m + c >= Pow(b, i - 1)
      decreases n - i
    {
      ghost var s := buf[..];
      AccumulateStep(s, was, b, m, c, i, carry);
      Grows(s, was, b, m, c, i, carry, v, length);
      carry := carry + m * buf[n - 1 - i];
      buf[n - 1 - i] := carry % b;
      carry := carry / b;
      i := i + 1;
      assert buf[..] == s[n - i := buf[n - i]];
    }
    AccumulateDone(buf[..], was, b, m, c, i, carry, v, length);
    assert carry == 0;
  }

  lemma StartAccumulate(was: seq<nat>, b: nat, m: nat, c: nat, v: nat, length: nat)
    requires b >= 2 && Holds(was, b, v, length)
    ensures Accumulating(was, was, b, m, c, 0, c) && length <= |was|
  {
    assert was[|was| - 0..] == [];
  }

  /** A carry beyond the digits held so far means that the result needs one digit more. */
  lemma Grows(s: seq<nat>, was: seq<nat>, b: nat, m: nat, c: nat, i: nat, carry: nat, v: nat, length: nat)
    requires b >= 2 && Accumulating(s, was, b, m, c, i, carry) && Holds(was, b, v, length)
    ensures i >= length && carry > 0 ==> v * m + c >= Pow(b, i)
  {
    hide NatOf, Pow, Holds;
    if i >= length && carry > 0 {
      HeldSuffix(was, b, v, length, i);
      MulMono(1, carry, Pow(b, i));
    }
  }

  // ----- encoding -----

  lemma EmptyBuffer(s: seq<nat>, b: nat)
    requires b >= 2 && forall i :: 0 <= i < |s| ==> s[i] == 0
    ensures Holds(s, b, 0, 0)
  {
    NatOfNothing(b);
    assert s[|s| - 0..] == [];
  }

  /** A prefix of n digits in base a, with one more, still fits the buffer. */
  lemma StillFits(a: nat, b: nat, s: seq<nat>, k: nat, size: nat)
    requires a >= 2 && b >= 2 && Below(a, s) && k < |s| && Pow(a, |s|) <= Pow(b, size)
    ensures NatOf(a, s[..k + 1]) == NatOf(a, s[..k]) * a + s[k] < Pow(b, size)
  {
    assert s[..k + 1] == s[..k] + [s[k]];
    NatOfPush(a, s[..k], s[k]);
    NatOfBelow(a, s[..k + 1]);
    PowMono(a, k + 1, |s|);
  }

  method EncodeBase58(v: seq<nat>) returns (str: string)
    requires Below(256, v)
    ensures str == Encoded(v)
  {
    hide NatOf, Pow, DigitsOf, Holds, CharOf;
    var zeroes := 0;
    while zeroes < |v| && v[zeroes] == 0
      invariant 0 <= zeroes <= |v| && forall i :: 0 <= i < zeroes ==> v[i] == 0
    {
      zeroes := zeroes + 1;
    }
    LeadingIs(v, 0, zeroes);
    ghost var rest := v[zeroes..];
    var size := (|v| - zeroes) * 138 / 100 + 1;
    EncodeBuffer(|rest|);
    var b58 := new nat[size](_ => 0);
    EmptyBuffer(b58[..], 58);
    NatOfNothing(256);
    var p, length := zeroes, 0;
    while p < |v|
      invariant zeroes <= p <= |v|
      invariant Holds(b58[..], 58, NatOf(256, rest[..p - zeroes]), length)
    {
      StillFits(256, 58, rest, p - zeroes, size);
      length := Accumulate(b58, 58, 256, v[p], length, NatOf(256, rest[..p - zeroes]));
      p := p + 1;
    }
    assert rest[..|rest|] == rest;
    ghost var n := NatOf(256, rest);
    HeldDigits(b58[..], 58, n, length);
    var it := SkipZeroes(b58, size - length);
    NoZeroToSkip(b58[..], n, length, it);
    str := Translate(zeroes, b58[it..]);
    assert b58[it..] == b58[..][it..];
  }

  method SkipZeroes(buf: array<nat>, start: nat) returns (it: nat)
    requires start <= buf.Length
    ensures start <= it <= buf.Length && (it < buf.Length ==> buf[it] != 0)
    ensures forall i :: start <= i < it ==> buf[i] == 0
  {
    it := start;
    while it < buf.Length && buf[it] == 0
      invariant start <= it <= buf.Length && forall i :: start <= i < it ==> buf[i] == 0
    {
      it := it + 1;
    }
  }

  /** The digits held have no leading zero. */
  lemma NoZeroToSkip(s: seq<nat>, v: nat, length: nat, it: nat)
    requires Holds(s, 58, v, length) && |s| - length <= it <= |s| && forall i :: |s| - length <= i < it ==> s[i] == 0
    ensures it == |s| - length && s[it..] == DigitsOf(58, v) && Below(58, s[it..])
  {
    DigitsValue(58, v);
    NoDigits(58);
    hide DigitsOf;
    var k := |s| - length;
    assert length > 0 ==> s[k] == s[k..][0] == DigitsOf(58, v)[0];
  }

  lemma HeldDigits(s: seq<nat>, b: nat, v: nat, length: nat)
    requires b >= 2 && Holds(s, b, v, length)
    ensures length <= |s| && s[|s| - length..] == DigitsOf(b, v)
  {
  }

  method Translate(zeroes: nat, digits: seq<nat>) returns (str: string)
    requires Below(58, digits)
    ensures str == Repeat('1', zeroes) + CharsOf(digits)
  {
    hide CharOf;
    str := Repeat('1', zeroes);
    for i := 0 to |digits|
      invariant str == Repeat('1', zeroes) + CharsOf(digits[..i])
    {
      AlphabetIs(digits[i]);
      str := str + [ALPHABET[digits[i]]];
      assert CharsOf(digits[..i + 1]) == CharsOf(digits[..i]) + [CharOf(digits[i])];
    }
    assert digits[..|digits|] == digits;
  }

  // ----- decoding -----

  /** Decode's result: nothing unless the stripped string is over the alphabet and its bytes fit. */
  ghost function Decoded(s: string, maxRetLen: int): Option<seq<nat>> {
    var t := Stripped(s);
    if AllInAlphabet(t) && (Payload(t) == [] || |Payload(t)| <= maxRetLen) then Some(Payload(t)) else None
  }

  lemma NotSpace(c: char)
    requires InAlphabet(c)
    ensures !IsSpace(c) && c != '\0'
  {
    DigitOfChar(DigitOf(c));
  }

  lemma {:induction false} StripKeeps(s: string, i: nat, j: nat)
    requires SkipSpaces(s) <= i <= j < |s| && !IsSpace(s[j])
    ensures i - SkipSpaces(s) < |Stripped(s)| && Stripped(s)[i - SkipSpaces(s)] == s[i]
  {
    var k := SkipSpaces(s);
    var t := Stripped(s);
    assert s[k..][j - k] == s[j];
    assert t == s[k..][..|t|];
  }

  lemma {:induction false} StripEndIs(s: string, n: nat)
    requires n <= |s| && (n == 0 || !IsSpace(s[n - 1])) && forall i :: n <= i < |s| ==> IsSpace(s[i])
    ensures StripEnd(s) == s[..n]
  {
    hide IsSpace;
    if n < |s| {
      StripEndIs(s[..|s| - 1], n);
      assert s[..|s| - 1][..n] == s[..n];
    } else {
      assert s[..n] == s;
    }
  }

  lemma StripTail(s: string, k: nat, e: nat)
    requires k <= e <= |s| && (e == k || !IsSpace(s[e - 1])) && forall i :: e <= i < |s| ==> IsSpace(s[i])
    ensures StripEnd(s[k..]) == s[k..e]
  {
    hide IsSpace, StripEnd;
    var t, n := s[k..], e - k;
    assert n > 0 ==> t[n - 1] == s[e - 1];
    forall i | n <= i < |t|
      ensures IsSpace(t[i])
    {
      assert t[i] == s[k + i];
    }
    StripEndIs(t, n);
    assert t[..n] == s[k..e];
  }

  lemma StrippedIs(s: string, e: nat)
    requires SkipSpaces(s) <= e <= |s| && (e == SkipSpaces(s) || !IsSpace(s[e - 1])) && forall i :: e <= i < |s| ==>
        IsSpace(s[i])
    ensures Stripped(s) == s[SkipSpaces(s)..e]
  {
    hide IsSpace, SkipSpaces, StripEnd;
    var k := SkipSpaces(s);
    StripTail(s, k, e);
  }

  /** A stripped string that holds a character outside the alphabet is refused. */
  lemma Refused(s: string, i: nat, j: nat, maxRetLen: int)
    requires SkipSpaces(s) <= i <= j < |s| && !InAlphabet(s[i]) && !IsSpace(s[j])
    ensures Decoded(s, maxRetLen) == None
  {
    StripKeeps(s, i, j);
  }

  lemma {:induction false} NatOfPrefix(b: nat, s: seq<nat>, k: nat)
    requires b >= 1 && k <= |s|
    ensures NatOf(b, s[..k]) <= NatOf(b, s)
  {
    if k < |s| {
      var n := |s| - 1;
      NatOfPrefix(b, s[..n], k);
      assert s[..n][..k] == s[..k];
      MulMono(1, b, NatOf(b, s[..n]));
    } else {
      assert s[..k] == s;
    }
  }

  lemma {:induction false} MoreDigits(b: nat, u: nat, v: nat)
    requires b >= 2 && u <= v
    ensures |DigitsOf(b, u)| <= |DigitsOf(b, v)|
  {
    if u > 0 {
      Smaller(u, b);
      Smaller(v, b);
      DivMono(u, v, b);
      MoreDigits(b, u / b, v / b);
    }
  }

  /** Leading ones and a part of the digits already bound the length of the payload from below. */
  lemma PayloadAtLeast(t: string, z: nat, k: nat)
    requires AllInAlphabet(t) && z <= k <= |t| && (forall i :: 0 <= i < z ==> t[i] == '1') && (z < k ==> t[z] != '1')
    ensures |Payload(t)| >= z + |DigitsOf(256, NatOf(58, DigitsIn(t[z..k])))|
  {
    hide NatOf, DigitsOf, DigitOf, InAlphabet;
    var y := Leading(t, '1');
    if z < k {
      LeadingIs(t, '1', z);
      assert DigitsIn(t[z..])[..k - z] == DigitsIn(t[z..k]);
      NatOfPrefix(58, DigitsIn(t[z..]), k - z);
      MoreDigits(256, NatOf(58, DigitsIn(t[z..k])), NatOf(58, DigitsIn(t[z..])));
    } else {
      assert DigitsIn(t[z..k]) == [];
      NatOfNothing(58);
      NatOfNothing(256);
      AtLeastOnes(t, z);
    }
  }

  lemma AtLeastOnes(t: string, z: nat)
    requires z <= |t| && forall i :: 0 <= i < z ==> t[i] == '1'
    ensures Leading(t, '1') >= z
  {
    assert Leading(t, '1') < |t| ==> t[Leading(t, '1')] != '1';
  }

  /** The early exits refuse only what would not fit. */
  lemma TooLong(s: string, z: nat, p: nat, maxRetLen: int)
    requires var k := SkipSpaces(s);
      && k + z <= p <= |s| && (forall i :: k <= i < k + z ==> s[i] == '1') && (k + z < p ==> s[k + z] != '1')
      && (forall i :: k <= i < p ==> InAlphabet(s[i])) && p > k
      && z + |DigitsOf(256, NatOf(58, DigitsIn(s[k + z..p])))| > maxRetLen
    ensures Decoded(s, maxRetLen) == None
  {
    hide NatOf, DigitsOf, DigitsIn, InAlphabet, DigitOf, IsSpace, SkipSpaces, Stripped, Payload;
    var k := SkipSpaces(s);
    NotSpace(s[p - 1]);
    PrefixKept(s, p);
    var t, m := Stripped(s), p - k;
    assert t[..m][z..m] == t[z..m] == s[k..p][z..m] == s[k + z..p];
    forall i | 0 <= i < m
      ensures t[i] == s[k + i]
    {
      assert t[i] == t[..m][i] == s[k..p][i];
    }
    if AllInAlphabet(t) {
      PayloadAtLeast(t, z, m);
      NonEmptyPayload(t);
    }
  }

  lemma PrefixKept(s: string, p: nat)
    requires SkipSpaces(s) < p <= |s| && !IsSpace(s[p - 1])
    ensures p - SkipSpaces(s) <= |Stripped(s)| && Stripped(s)[..p - SkipSpaces(s)] == s[SkipSpaces(s)..p]
  {
    StripKeeps(s, p - 1, p - 1);
  }

  lemma NonEmptyPayload(t: string)
    requires AllInAlphabet(t) && t != []
    ensures Payload(t) != []
  {
    EncodedOfPayload(t);
    assert Encoded([]) == [] by {
      NatOfNothing(256);
      NatOfNothing(58);
    }
  }

  /** The characters from start to p are over the alphabet. */
  ghost predicate Body(s: string, start: nat, p: nat) {
    start <= p <= |s| && forall i :: start <= i < p ==> InAlphabet(s[i])
  }

  lemma BodyFits(s: string, start: nat, p: nat)
    requires Body(s, start, p) && p < |s| && InAlphabet(s[p])
    ensures Body(s, start, p + 1)
    ensures NatOf(58, DigitsIn(s[start..p + 1])) == NatOf(58, DigitsIn(s[start..p])) * 58 + DigitOf(s[p])
    ensures NatOf(58, DigitsIn(s[start..p])) * 58 + DigitOf(s[p]) < Pow(256, (|s| - start) * 733 / 1000 + 1)
  {
    hide NatOf, Pow, DigitOf, InAlphabet;
    DecodeBuffer(|s| - start);
    var t, k := s[start..p + 1], p - start;
    var ds := DigitsIn(t);
    forall i | 0 <= i < |ds|
      ensures ds[i] < 58
    {
      assert InAlphabet(t[i]) by {
        assert t[i] == s[start + i];
      }
    }
    PowMono(58, |ds|, |s| - start);
    StillFits(58, 256, ds, k, (|s| - start) * 733 / 1000 + 1);
    assert ds[..k] == DigitsIn(s[start..p]) && ds[..k + 1] == ds;
  }

  /** The main loop of DecodeBase58. */
  method ReadBody(s: string, start: nat, zeroes: nat, maxRetLen: int) returns (ok: bool, p: nat, length: nat,
      b256: array<nat>)
    requires start <= |s|
    ensures Body(s, start, p) && Holds(b256[..], 256, NatOf(58, DigitsIn(s[start..p])), length)
    ensures ok ==> (p == |s| || IsSpace(s[p])) && (p == start || length + zeroes <= maxRetLen)
    ensures !ok ==> (p < |s| && !IsSpace(s[p]) && !InAlphabet(s[p])) || (p > start && length + zeroes > maxRetLen)
  {
    hide NatOf, Pow, DigitsOf, Holds, CharOf, DigitOf, InAlphabet, IsSpace, DigitsIn;
    var size := (|s| - start) * 733 / 1000 + 1;
    b256 := new nat[size](_ => 0);
    EmptyBuffer(b256[..], 256);
    NatOfNothing(58);
    assert s[start..start] == [];
    NoDigitsIn();
    p, length := start, 0;
    while p < |s| && !IsSpace(s[p])
      invariant Body(s, start, p) && (p == start || length + zeroes <= maxRetLen)
      invariant Holds(b256[..], 256, NatOf(58, DigitsIn(s[start..p])), length)
      decreases |s| - p
    {
      var digit := FindChar(s[p]);
      if digit == -1 {
        return false, p, length, b256;
      }
      BodyFits(s, start, p);
      length := Accumulate(b256, 256, 58, digit, length, NatOf(58, DigitsIn(s[start..p])));
      p := p + 1;
      if length + zeroes > maxRetLen {
        return false, p, length, b256;
      }
    }
    ok := true;
  }

  lemma NoDigitsIn()
    ensures DigitsIn([]) == []
  {
  }

  /** Leading spaces, ones, a body and trailing spaces: what the code accepts. */
  ghost predicate Shape(s: string, z: nat, p: nat) {
    var k := SkipSpaces(s);
    && k + z <= |s| && (forall i :: k <= i < k + z ==> s[i] == '1') && (k + z < |s| ==> s[k + z] != '1')
    && Body(s, k + z, p)
  }

  lemma ShapeInAlphabet(s: string, z: nat, p: nat)
    requires Shape(s, z, p)
    ensures forall i :: SkipSpaces(s) <= i < p ==> InAlphabet(s[i])
  {
    hide InAlphabet, IsSpace, SkipSpaces;
    OneInAlphabet();
  }

  lemma OneInAlphabet()
    ensures InAlphabet('1')
  {
    IsOne();
  }

  lemma ShapeDecoded(s: string, z: nat, p: nat, maxRetLen: int)
    requires Shape(s, z, p) && forall i :: p <= i < |s| ==> IsSpace(s[i])
    ensures var v := Repeat(0, z) + DigitsOf(256, NatOf(58, DigitsIn(s[SkipSpaces(s) + z..p])));
      Decoded(s, maxRetLen) == if v == [] || |v| <= maxRetLen then Some(v) else None
  {
    hide NatOf, DigitsOf, DigitsIn, InAlphabet, IsSpace, Leading, SkipSpaces, Stripped;
    var k := SkipSpaces(s);
    ShapeInAlphabet(s, z, p);
    if p > k {
      NotSpace(s[p - 1]);
    }
    StrippedIs(s, p);
    var t := s[k..p];
    forall i | 0 <= i < |t|
      ensures InAlphabet(t[i])
    {
      assert t[i] == s[k + i];
    }
    assert z < |t| ==> t[z] == s[k + z];
    LeadingIs(t, '1', z);
    assert t[z..] == s[k + z..p];
  }

  method CountOnes(s: string, start: nat, maxRetLen: int) returns (ok: bool, zeroes: nat)
    requires start <= |s|
    ensures start + zeroes <= |s| && forall i :: start <= i < start + zeroes ==> s[i] == '1'
    ensures ok ==> (start + zeroes < |s| ==> s[start + zeroes] != '1') && (zeroes == 0 || zeroes <= maxRetLen)
    ensures !ok ==> zeroes > 0 && zeroes > maxRetLen
  {
    zeroes := 0;
    while start + zeroes < |s| && s[start + zeroes] == '1'
      invariant start + zeroes <= |s| && (forall i :: start <= i < start + zeroes ==> s[i] == '1')
      invariant zeroes == 0 || zeroes <= maxRetLen
    {
      zeroes := zeroes + 1;
      if zeroes > maxRetLen {
        return false, zeroes;
      }
    }
    ok := true;
  }

  method SkipSpacesFrom(s: string, start: nat) returns (p: nat)
    requires start <= |s|
    ensures start <= p <= |s| && (forall i :: start <= i < p ==> IsSpace(s[i])) && (p < |s| ==> !IsSpace(s[p]))
  {
    p := start;
    while p < |s| && IsSpace(s[p])
      invariant start <= p <= |s| && forall i :: start <= i < p ==> IsSpace(s[i])
    {
      p := p + 1;
    }
  }

  lemma SkipSpacesIs(s: string, n: nat)
    requires n <= |s| && (forall i :: 0 <= i < n ==> IsSpace(s[i])) && (n < |s| ==> !IsSpace(s[n]))
    ensures SkipSpaces(s) == n
  {
    hide IsSpace;
  }

  /** DecodeBase58 on a C string. */
  method DecodeBase58(s: string, maxRetLen: int) returns (ok: bool, vch: seq<nat>)
    ensures ok <==> Decoded(s, maxRetLen).Some?
    ensures ok ==> vch == Decoded(s, maxRetLen).value
  {
    hide NatOf, DigitsOf, DigitsIn, InAlphabet, IsSpace, SkipSpaces, Decoded, Pow;
    vch := [];
    var k := SkipSpacesFrom(s, 0);
    SkipSpacesIs(s, k);
    var few, zeroes := CountOnes(s, k, maxRetLen);
    if !few {
      ManyOnes(s, zeroes, maxRetLen);
      return false, vch;
    }
    var read, p, length, b256 := ReadBody(s, k + zeroes, zeroes, maxRetLen);
    HeldDigits(b256[..], 256, NatOf(58, DigitsIn(s[k + zeroes..p])), length);
    ShapeInAlphabet(s, zeroes, p);
    if !read {
      if p < |s| && !InAlphabet(s[p]) && !IsSpace(s[p]) {
        Refused(s, p, p, maxRetLen);
      } else {
        TooLong(s, zeroes, p, maxRetLen);
      }
      return false, vch;
    }
    var e := SkipSpacesFrom(s, p);
    if e != |s| {
      SpaceOutside(s[p]);
      Refused(s, p, e, maxRetLen);
      return false, vch;
    }
    ShapeDecoded(s, zeroes, p, maxRetLen);
    vch := Repeat(0, zeroes) + b256[b256.Length - length..];
    assert b256[b256.Length - length..] == b256[..][b256.Length - length..];
    Nothing(s[k + zeroes..p]);
    ok := true;
  }

  lemma Nothing(s: string)
    ensures s == [] ==> DigitsOf(256, NatOf(58, DigitsIn(s))) == []
  {
    NatOfNothing(58);
    NatOfNothing(256);
  }

  lemma SpaceOutside(c: char)
    ensures !(InAlphabet(c) && IsSpace(c))
  {
    if InAlphabet(c) {
      NotSpace(c);
    }
  }

  lemma ManyOnes(s: string, z: nat, maxRetLen: int)
    requires SkipSpaces(s) + z <= |s| && (forall i :: SkipSpaces(s) <= i < SkipSpaces(s) + z ==> s[i] == '1')
    requires z > 0 && z > maxRetLen
    ensures Decoded(s, maxRetLen) == None
  {
    hide NatOf, DigitsOf, DigitsIn, InAlphabet, IsSpace, SkipSpaces, Decoded;
    OneInAlphabet();
    Nothing([]);
    var k := SkipSpaces(s);
    assert s[k + z..k + z] == [];
    TooLong(s, z, k + z, maxRetLen);
  }

  // ----- the two laws -----

  lemma NothingToStrip(s: string)
    requires AllInAlphabet(s)
    ensures Stripped(s) == s
  {
    hide InAlphabet, IsSpace, SkipSpaces, Stripped;
    forall i | 0 <= i < |s|
      ensures !IsSpace(s[i])
    {
      NotSpace(s[i]);
    }
    SkipSpacesIs(s, 0);
    StrippedIs(s, |s|);
    assert s[0..|s|] == s;
  }

  /** Decoding undoes encoding exactly for byte strings that fit. */
  lemma DecodeEncoded(v: seq<nat>, maxRetLen: int)
    requires Below(256, v)
    ensures Decoded(Encoded(v), maxRetLen) == Some(v) <==> v == [] || |v| <= maxRetLen
  {
    hide Encoded, Payload, AllInAlphabet, Stripped;
    PayloadOfEncoded(v);
    NothingToStrip(Encoded(v));
  }

  /** Every accepted string is, without the spaces around it, the encoding of what it decodes to. */
  lemma EncodeDecoded(s: string, maxRetLen: int)
    requires Decoded(s, maxRetLen).Some?
    ensures Below(256, Decoded(s, maxRetLen).value)
    ensures Encoded(Decoded(s, maxRetLen).value) == Stripped(s)
  {
    hide Encoded, Payload, AllInAlphabet, Stripped;
    EncodedOfPayload(Stripped(s));
  }

  /** DecodeBase58 on a std::string refuses embedded NULs first. */
  method DecodeString(str: string, maxRetLen: int) returns (ok: bool, vch: seq<nat>)
    ensures ok <==> Decoded(str, maxRetLen).Some?
    ensures ok ==> vch == Decoded(str, maxRetLen).value
  {
    hide Decoded, InAlphabet, IsSpace, SkipSpaces;
    for i := 0 to |str|
      invariant forall j :: 0 <= j < i ==> str[j] != '\0'
    {
      if str[i] == '\0' {
        NulRefused(str, i, maxRetLen);
        return false, [];
      }
    }
    ok, vch := DecodeBase58(str, maxRetLen);
  }

  lemma NulRefused(s: string, i: nat, maxRetLen: int)
    requires i < |s| && s[i] == '\0'
    ensures Decoded(s, maxRetLen) == None
  {
    assert !IsSpace(s[i]);
    assert SkipSpaces(s) <= i;
    if InAlphabet(s[i]) {
      NotSpace(s[i]);
    } else {
      Refused(s, i, i, maxRetLen);
    }
  }
}
