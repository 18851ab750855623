/**
 Compact targets (arith_uint256::SetCompact and GetCompact, src/arith_uint256.cpp): a size in bytes, a
 sign bit and a 23-bit mantissa in one 32-bit word.
 */
module Compact {
  import opened Power
  import opened Words
  import opened WordShifts
  import opened ArithUint

  const SIZE_UNIT := 0x100_0000
  const SIGN_BIT := 0x80_0000

  function SizeOf(n: nat): nat { n / SIZE_UNIT }

  function MantissaOf(n: nat): nat { n % SIGN_BIT }

  predicate SignOf(n: nat) { (n / SIGN_BIT) % 2 == 1 }

  /** The magnitude a compact word stands for: mantissa * 256^(size - 3), rounded down. */
  function Magnitude(n: nat): nat { Scaled(MantissaOf(n), SizeOf(n)) }

  function Scaled(w: nat, z: nat): nat {
    PowPositive(2, 8 * (if z <= 3 then 3 - z else 0));
    if z <= 3 then w / Pow(2, 8 * (3 - z)) else w * Pow(2, 8 * (z - 3))
  }

  ghost predicate OverflowTest(w: nat, z: nat) {
    w != 0 && (z > 34 || (w > 0xff && z > 33) || (w > 0xffff && z > 32))
  }

  lemma ScaleCompare(w: nat, k: nat, p: nat)
    requires p > 0
    ensures w * p >= k * p <==> w >= k
  {
    if w >= k {
      MulMono(k, w, p);
    } else {
      MulMono(w + 1, k, p);
      Distribute(w, 1, p);
    }
  }

  /** The flag's tests on size and mantissa decide whether the magnitude needs more than 256 bits. */
  lemma OverflowExact(w: nat, z: nat)
    requires w < SIGN_BIT && z > 3
    ensures OverflowTest(w, z) <==> w * Pow(2, 8 * (z - 3)) >= Pow(2, 256)
  {
    hide Pow;
    var e := 8 * (z - 3);
    PowPositive(2, e);
    PowPositive(2, 256);
    SmallPowers();
    if z > 34 {
      PowMono(2, 256, e);
      if w > 0 {
        MulMono(1, w, Pow(2, e));
      }
    } else if z == 34 {
      PowAdd(2, 8, 248);
      ScaleCompare(w, 256, Pow(2, 248));
    } else if z == 33 {
      PowAdd(2, 16, 240);
      ScaleCompare(w, 65536, Pow(2, 240));
    } else {
      PowAdd(2, 24, e);
      PowMono(2, 24 + e, 256);
      ScaleCompare(w, SIZE_UNIT, Pow(2, e));
    }
  }

  lemma SmallPowers()
    ensures Pow(2, 8) == 256 && Pow(2, 16) == 65536 && Pow(2, 23) == SIGN_BIT && Pow(2, 24) == SIZE_UNIT
  {
    assert Pow(2, 4) == 16;
    PowAdd(2, 4, 4);
    PowAdd(2, 8, 8);
    assert Pow(2, 3) == 8;
    PowAdd(2, 3, 4);
    PowAdd(2, 7, 16);
    PowAdd(2, 8, 16);
  }

  lemma WidthPower()
    ensures Weight(8) == Pow(2, 256)
  {
    WeightIsPower(8);
  }

  /** The value is the magnitude modulo 2^256, and the flags tell a cut-off and a sign apart. */
  method SetCompact(x: BaseUint, nCompact: Word) returns (fNegative: bool, fOverflow: bool)
    requires x.pn.Length == 8
    modifies x.pn
    ensures Pow(2, 256) > 0 && x.Value() == Magnitude(nCompact) % Pow(2, 256)
    ensures fOverflow <==> Magnitude(nCompact) >= Pow(2, 256)
    ensures fNegative <==> SignOf(nCompact) && Magnitude(nCompact) != 0
  {
    hide Val, Weight, Pow;
    var nSize := nCompact / SIZE_UNIT;
    var nWord := nCompact % SIGN_BIT;
    WidthPower();
    PowPositive(2, 256);
    if nSize <= 3 {
      PowPositive(2, 8 * (3 - nSize));
      SmallMagnitude(nWord, 8 * (3 - nSize));
      nWord := nWord / Pow(2, 8 * (3 - nSize));
      x.Assign64(nWord);
    } else {
      OverflowExact(nWord, nSize);
      PowPositive(2, 8 * (nSize - 3));
      if nWord > 0 {
        MulPositive(nWord, Pow(2, 8 * (nSize - 3)));
      }
      x.Assign64(nWord);
      x.ShiftLeft(8 * (nSize - 3));
    }
    fNegative := nWord != 0 && (nCompact / SIGN_BIT) % 2 == 1;
    fOverflow := nWord != 0 && (nSize > 34 || (nWord > 0xff && nSize > 33) || (nWord > 0xffff && nSize > 32));
  }

  lemma SmallMagnitude(w: nat, e: nat)
    requires w < SIGN_BIT
    ensures Pow(2, e) > 0 && 0 <= w / Pow(2, e) <= w
    ensures Pow(2, 256) > 0 && (w / Pow(2, e)) % Pow(2, 256) == w / Pow(2, e) < Pow(2, 256)
  {
    PowPositive(2, e);
    hide Pow;
    DivBelow(w, Pow(2, e));
    SmallPowers();
    PowMono(2, 23, 256);
    DivModUnique(w / Pow(2, e), Pow(2, 256), 0, w / Pow(2, e));
  }

  // ----- the compact form of a number -----

  function BitLength(v: nat): nat {
    if v == 0 then 0 else 1 + BitLength(v / 2)
  }

  lemma {:induction false} BitLengthIs(v: nat)
    ensures IsBitLength(v, BitLength(v))
  {
    if v > 0 {
      BitLengthIs(v / 2);
    }
  }

  lemma BitLengthUnique(v: nat, r: nat, q: nat)
    requires IsBitLength(v, r) && IsBitLength(v, q)
    ensures r == q
  {
    if r < q {
      PowMono(2, r, q - 1);
    } else if q < r {
      PowMono(2, q, r - 1);
    }
  }

  /** The bytes a mantissa of 23 bits needs: one more than whole bytes of the length. */
  function ByteSize(v: nat): nat {
    if v == 0 then 0 else BitLength(v) / 8 + 1
  }

  /** The three most significant bytes at that size. */
  function Mantissa(v: nat): nat {
    var z := ByteSize(v);
    PowPositive(2, 8 * (if z > 3 then z - 3 else 0));
    if z <= 3 then v * Pow(2, 8 * (3 - z)) else v / Pow(2, 8 * (z - 3))
  }

  function CompactOf(v: nat, fNegative: bool): nat {
    Mantissa(v) + ByteSize(v) * SIZE_UNIT + if fNegative && Mantissa(v) != 0 then SIGN_BIT else 0
  }

  lemma ScaledBelow(v: nat, r: nat, e: nat)
    requires v < Pow(2, r)
    ensures v * Pow(2, e) < Pow(2, r + e)
  {
    PowAdd(2, r, e);
    PowPositive(2, e);
    StrictProduct(v, Pow(2, r), Pow(2, e));
  }

  lemma ScaledAbove(v: nat, r: nat, e: nat)
    requires v >= Pow(2, r)
    ensures v * Pow(2, e) >= Pow(2, r + e)
  {
    PowAdd(2, r, e);
    MulMono(Pow(2, r), v, Pow(2, e));
  }

  lemma CutBelow(v: nat, r: nat, e: nat)
    requires v < Pow(2, r + e)
    ensures Pow(2, e) > 0 && v / Pow(2, e) < Pow(2, r)
  {
    PowAdd(2, r, e);
    PowPositive(2, e);
    if v / Pow(2, e) >= Pow(2, r) {
      MulMono(Pow(2, r), v / Pow(2, e), Pow(2, e));
    }
  }

  lemma CutAbove(v: nat, r: nat, e: nat)
    requires v >= Pow(2, r + e)
    ensures Pow(2, e) > 0 && v / Pow(2, e) >= Pow(2, r)
  {
    PowAdd(2, r, e);
    PowPositive(2, e);
    if v / Pow(2, e) < Pow(2, r) {
      MulMono(v / Pow(2, e) + 1, Pow(2, r), Pow(2, e));
      Distribute(v / Pow(2, e), 1, Pow(2, e));
    }
  }

  lemma MantissaFits(v: nat)
    ensures Mantissa(v) < SIGN_BIT
  {
    hide Pow;
    SmallPowers();
    if v > 0 {
      BitLengthIs(v);
      var r, z := BitLength(v), ByteSize(v);
      PowMono(2, r, 8 * z - 1);
      if z <= 3 {
        ScaledBelow(v, 8 * z - 1, 8 * (3 - z));
      } else {
        CutBelow(v, 23, 8 * (z - 3));
      }
    }
  }

  /** The bytes below the mantissa. */
  function Dropped(v: nat): nat {
    if ByteSize(v) > 3 then 8 * (ByteSize(v) - 3) else 0
  }

  lemma FieldsOf(v: nat, neg: bool)
    ensures SizeOf(CompactOf(v, neg)) == ByteSize(v) && MantissaOf(CompactOf(v, neg)) == Mantissa(v)
    ensures SignOf(CompactOf(v, neg)) <==> neg && Mantissa(v) != 0
  {
    MantissaFits(v);
    hide Mantissa, ByteSize;
  }

  lemma ExactBelow(v: nat, e: nat)
    ensures Pow(2, e) > 0 && (v * Pow(2, e)) / Pow(2, e) == v
  {
    PowPositive(2, e);
    DivModUnique(v * Pow(2, e), Pow(2, e), v, 0);
  }

  /** Decoding the compact form gives the number without its lowest bytes. */
  lemma CompactTruncates(v: nat, neg: bool)
    ensures Pow(2, Dropped(v)) > 0
    ensures Magnitude(CompactOf(v, neg)) == v - v % Pow(2, Dropped(v))
    ensures SignOf(CompactOf(v, neg)) <==> neg && Mantissa(v) != 0
  {
    FieldsOf(v, neg);
    hide CompactOf, Pow, Scaled, SizeOf, MantissaOf, Mantissa, Dropped, SignOf;
    PowPositive(2, Dropped(v));
    ScaledBack(v);
  }

  lemma ScaledBack(v: nat)
    ensures Pow(2, Dropped(v)) > 0 && Scaled(Mantissa(v), ByteSize(v)) == v - v % Pow(2, Dropped(v))
  {
    hide Pow;
    PowPositive(2, Dropped(v));
    var z := ByteSize(v);
    hide ByteSize;
    if z <= 3 {
      ExactBelow(v, 8 * (3 - z));
      PowZero();
    } else {
      QuotientTimes(v, Pow(2, 8 * (z - 3)));
    }
  }

  lemma QuotientTimes(v: nat, p: nat)
    requires p > 0
    ensures v / p * p == v - v % p
  {
  }

  lemma PowZero()
    ensures Pow(2, 0) == 1
  {
  }

  function Truncated(v: nat): nat { Magnitude(CompactOf(v, false)) }

  /** The size is the least number of bytes that leaves the highest bit, where the sign goes, clear. */
  lemma SizeIsLeast(v: nat)
    requires v > 0
    ensures var z := SizeOf(CompactOf(v, false));
      z >= 1 && v < Pow(2, 8 * z - 1) && (z > 1 ==> v >= Pow(2, 8 * (z - 1) - 1))
  {
    FieldsOf(v, false);
    BitLengthIs(v);
    hide CompactOf, SizeOf, MantissaOf, SignOf, Mantissa, Pow;
    var r, z := BitLength(v), ByteSize(v);
    PowMono(2, r, 8 * z - 1);
    if z > 1 {
      PowMono(2, 8 * (z - 1) - 1, r - 1);
    }
  }

  /** What is lost is less than one part in 2^15, and nothing below 2^23. */
  lemma Precise(v: nat)
    ensures v < Pow(2, 23) ==> Truncated(v) == v
    ensures v > 0 ==> (v - Truncated(v)) * Pow(2, 15) < v
  {
    CompactTruncates(v, false);
    hide CompactOf, Magnitude, Pow;
    if v == 0 {
    } else if ByteSize(v) <= 3 {
      PowZero();
    } else {
      LossBelow(v);
    }
  }

  lemma LossBelow(v: nat)
    requires ByteSize(v) > 3
    ensures Pow(2, Dropped(v)) > 0 && Pow(2, 23) <= v && v % Pow(2, Dropped(v)) * Pow(2, 15) < v
  {
    BitLengthIs(v);
    hide Pow;
    var e, r := Dropped(v), BitLength(v);
    PowPositive(2, e);
    PowPositive(2, 15);
    PowMono(2, 23, r - 1);
    PowMono(2, 15 + e, r - 1);
    PowAdd(2, e, 15);
    StrictProduct(v % Pow(2, e), Pow(2, e), Pow(2, 15));
  }

  // Words of the repository's own tests.

  lemma WordVectors()
    ensures Magnitude(0x01123456) == 0x12 && Magnitude(0x02123456) == 0x1234
    ensures Magnitude(0x01fedcba) == 0x7e && SignOf(0x01fedcba)
    ensures Magnitude(0x04923456) == 0x12345600 && SignOf(0x04923456)
    ensures Magnitude(0x05009234) == 0x92340000 && !SignOf(0x05009234)
  {
    assert MantissaOf(0x01123456) == 0x123456 && MantissaOf(0x02123456) == 0x123456 &&
        MantissaOf(0x01fedcba) == 0x7edcba;
    assert Pow(2, 8) == 0x100 && Pow(2, 16) == 0x10000;
  }

  lemma ShortFormVectors()
    ensures CompactOf(0x12, false) == 0x01120000
    ensures CompactOf(0x80, false) == 0x02008000
    ensures CompactOf(0x1234, false) == 0x02123400
    ensures CompactOf(0x7e, true) == 0x01fe0000
  {
    assert BitLength(0x12) == 5 && BitLength(0x80) == 8 && BitLength(0x1234) == 13 && BitLength(0x7e) == 7;
    assert ByteSize(0x12) == 1 && ByteSize(0x80) == 2 && ByteSize(0x1234) == 2 && ByteSize(0x7e) == 1;
    assert Pow(2, 8) == 0x100 && Pow(2, 16) == 0x10000;
  }

  lemma LongFormVectors()
    ensures CompactOf(0x12345600, true) == 0x04923456
    ensures CompactOf(0x92340000, false) == 0x05009234
  {
    LengthVectors();
    hide BitLength;
    assert Pow(2, 8) == 0x100 && Pow(2, 16) == 0x10000;
  }

  lemma LengthVectors()
    ensures BitLength(0x12345600) == 29 && BitLength(0x92340000) == 32
  {
    SmallPowers();
    assert Pow(2, 4) == 16 && Pow(2, 5) == 32 && Pow(2, 7) == 128;
    PowAdd(2, 4, 24);
    PowAdd(2, 5, 24);
    PowAdd(2, 7, 24);
    PowAdd(2, 8, 24);
    BitLengthIs(0x12345600);
    BitLengthIs(0x92340000);
    hide Pow, BitLength;
    BitLengthUnique(0x12345600, 29, BitLength(0x12345600));
    BitLengthUnique(0x92340000, 32, BitLength(0x92340000));
  }

  /** Truncation keeps the highest bit, so the size does not change. */
  lemma TruncationKeepsLength(v: nat)
    ensures Truncated(v) <= v && BitLength(Truncated(v)) == BitLength(v)
    ensures v > 0 ==> Pow(2, BitLength(v) - 1) <= Truncated(v)
  {
    CompactTruncates(v, false);
    BitLengthIs(v);
    BitLengthIs(Truncated(v));
    hide Pow, Magnitude, CompactOf;
    var r, e := BitLength(v), Dropped(v);
    var m := v % Pow(2, e);
    if v > 0 {
      if e == 0 {
        PowZero();
      } else {
        KeepsTop(v, r, e);
      }
      PowPositive(2, r - 1);
      BitLengthUnique(Truncated(v), r, BitLength(Truncated(v)));
    }
  }

  /** 2^(r-1) is a multiple of 2^e, so rounding down to a multiple of 2^e does not pass it. */
  lemma KeepsTop(v: nat, r: nat, e: nat)
    requires e < r && Pow(2, r - 1) <= v
    ensures Pow(2, e) > 0 && Pow(2, r - 1) <= v - v % Pow(2, e)
  {
    CutAbove(v, r - 1 - e, e);
    PowAdd(2, r - 1 - e, e);
    MulMono(Pow(2, r - 1 - e), v / Pow(2, e), Pow(2, e));
  }

  lemma RoundDown(v: nat, p: nat)
    requires p > 0
    ensures v - v % p == (v / p) * p && (v - v % p) / p == v / p && v - v % p >= 0
  {
    assert v == (v / p) * p + v % p;
    DivModUnique(v - v % p, p, v / p, 0);
  }

  /** A truncated number has the same compact form again. */
  lemma CompactStable(v: nat, neg: bool)
    ensures CompactOf(Truncated(v), neg) == CompactOf(v, neg)
  {
    hide Mantissa, ByteSize, Truncated;
    SizeStable(v);
    MantissaStable(v);
  }

  lemma SizeStable(v: nat)
    ensures ByteSize(Truncated(v)) == ByteSize(v)
  {
    hide Truncated;
    TruncationKeepsLength(v);
    BitLengthBound(v);
    BitLengthBound(Truncated(v));
  }

  lemma MantissaStable(v: nat)
    ensures Mantissa(Truncated(v)) == Mantissa(v)
  {
    hide Pow, Truncated, ByteSize;
    SizeStable(v);
    TruncatedIs(v);
    PowZero();
    if ByteSize(v) > 3 {
      RoundDown(v, Pow(2, Dropped(v)));
    } else {
      assert v % 1 == 0;
    }
  }

  lemma RoundDownMonotone(u: nat, v: nat, p: nat)
    requires p > 0 && u <= v
    ensures u - u % p <= v - v % p
  {
    RoundDown(u, p);
    RoundDown(v, p);
    DivMono(u, v, p);
    MulMono(u / p, v / p, p);
  }

  lemma {:induction false} BitLengthMonotone(u: nat, v: nat)
    requires u <= v
    ensures BitLength(u) <= BitLength(v)
  {
    if u > 0 {
      BitLengthMonotone(u / 2, v / 2);
    }
  }

  /** Truncation is monotone. */
  lemma CompactMonotone(u: nat, v: nat)
    requires u <= v
    ensures Truncated(u) <= Truncated(v)
  {
    hide Pow, Truncated, BitLength, IsBitLength;
    TruncationKeepsLength(u);
    TruncationKeepsLength(v);
    BitLengthMonotone(u, v);
    BitLengthBound(u);
    var a, b := BitLength(u), BitLength(v);
    if a < b {
      BitLengthBound(v);
      PowMono(2, a, b - 1);
    } else {
      TruncatedIs(u);
      TruncatedIs(v);
      SameDropped(u, v);
      RoundDownMonotone(u, v, Pow(2, Dropped(v)));
    }
  }

  lemma BitLengthBound(v: nat)
    ensures v < Pow(2, BitLength(v)) && (v == 0 <==> BitLength(v) == 0)
  {
    BitLengthIs(v);
    PowZero();
  }

  lemma TruncatedIs(v: nat)
    ensures Pow(2, Dropped(v)) > 0 && Truncated(v) == v - v % Pow(2, Dropped(v))
  {
    CompactTruncates(v, false);
  }

  lemma SameDropped(u: nat, v: nat)
    requires BitLength(u) == BitLength(v)
    ensures Dropped(u) == Dropped(v)
  {
    BitLengthBound(u);
    BitLengthBound(v);
  }

  // ----- GetCompact -----

  lemma Low64(s: seq<Word>)
    requires |s| == 8 && Val(s) < 0x1_0000_0000_0000_0000
    ensures s[0] + s[1] * B == Val(s) && BitOr(s[0], s[1] * B) == Val(s)
  {
    HeadOfVal(s);
    HeadOfVal(s[1..]);
    WordIsPower();
    BitOrDisjoint(s[1], s[0], 32);
    BitOrCommutes(s[0], s[1] * B);
    var h := Val(s[1..][1..]);
    assert s[1..][0] == s[1];
    assert Val(s) == s[0] + B * s[1] + B * (B * h);
    assert h == 0;
  }

  /** bits(), rounded up to bytes, and whether the highest bit of the highest byte is set. */
  lemma CodeSize(v: nat, r: nat)
    requires IsBitLength(v, r)
    ensures v == 0 ==> (r + 7) / 8 == 0
    ensures v > 0 ==> ByteSize(v) == (r + 7) / 8 + if r % 8 == 0 then 1 else 0
  {
    BitLengthIs(v);
    BitLengthUnique(v, r, BitLength(v));
  }

  /** The 24-bit mantissa of the code before it makes room for the sign. */
  function Leading(v: nat, z: nat): nat {
    PowPositive(2, 8 * (if z > 3 then z - 3 else 0));
    if z <= 3 then v * Pow(2, 8 * (3 - z)) else v / Pow(2, 8 * (z - 3))
  }

  lemma LeadingRange(v: nat, r: nat)
    requires IsBitLength(v, r)
    ensures Leading(v, (r + 7) / 8) < SIZE_UNIT
    ensures v > 0 ==> (Leading(v, (r + 7) / 8) >= SIGN_BIT <==> r % 8 == 0)
  {
    SmallPowers();
    var z := (r + 7) / 8;
    if v > 0 {
      assert Pow(2, r - 1) <= v < Pow(2, r);
      hide Pow;
      PowMono(2, r, 8 * z);
      if r % 8 == 0 {
        LeadingAbove(v, z);
      } else {
        PowMono(2, r, 8 * z - 1);
        LeadingBelow(v, z, 1);
      }
      LeadingBelow(v, z, 0);
    }
  }

  lemma LeadingAbove(v: nat, z: nat)
    requires z > 0 && v >= Pow(2, 8 * z - 1)
    ensures Leading(v, z) >= Pow(2, 23)
  {
    hide Pow;
    if z <= 3 {
      ScaledAbove(v, 8 * z - 1, 8 * (3 - z));
    } else {
      CutAbove(v, 23, 8 * (z - 3));
    }
  }

  lemma LeadingBelow(v: nat, z: nat, d: nat)
    requires z > 0 && d <= 1 && v < Pow(2, 8 * z - d)
    ensures Leading(v, z) < Pow(2, 24 - d)
  {
    hide Pow;
    if z <= 3 {
      ScaledBelow(v, 8 * z - d, 8 * (3 - z));
    } else {
      CutBelow(v, 24 - d, 8 * (z - 3));
    }
  }

  /** Dropping the lowest byte of the mantissa is the mantissa at the next size. */
  lemma LeadingNext(v: nat, z: nat)
    ensures Leading(v, z) / 256 == Leading(v, z + 1)
  {
    hide Pow;
    SmallPowers();
    PowZero();
    if z < 3 {
      PowAdd(2, 8 * (3 - (z + 1)), 8);
      MulAssoc(v, Pow(2, 8 * (3 - (z + 1))), 256);
      ExactBelow(Leading(v, z + 1), 8);
    } else {
      var e := 8 * (z - 3);
      PowAdd(2, e, 8);
      PowPositive(2, e);
      PowPositive(2, e + 8);
      DivDiv(v, Pow(2, e), 256);
      assert v * Pow(2, 0) == v && v / Pow(2, 0) == v;
    }
  }

  lemma Join(m: nat, z: nat, neg: bool)
    requires m < SIGN_BIT
    ensures BitOr(m, z * SIZE_UNIT) == m + z * SIZE_UNIT
    ensures BitOr(m + z * SIZE_UNIT, if neg then SIGN_BIT else 0) == m + z * SIZE_UNIT + if neg then SIGN_BIT else 0
  {
    SmallPowers();
    BitOrDisjoint(z, m, 24);
    BitOrCommutes(m, z * SIZE_UNIT);
    OrSignBit(m, z);
    OrZero(m + z * SIZE_UNIT);
  }

  lemma {:induction false} BitOrAdd(a: nat, b: nat, l: nat, k: nat)
    requires l < Pow(2, k)
    ensures BitOr(a * Pow(2, k) + l, b * Pow(2, k)) == BitOr(a, b) * Pow(2, k) + l
  {
    hide Pow, BitOr;
    if k == 0 {
      PowZero();
    } else {
      var p := Pow(2, k - 1);
      Doubling(k - 1);
      BitOrAdd(a, b, l / 2, k - 1);
      BitOrShift(a * p + l / 2, b * p, l % 2);
      DoubleParts(a, p, l);
      DoubleParts(b, p, 0);
      DoubleParts(BitOr(a, b), p, l);
    }
  }

  lemma DoubleParts(a: nat, p: nat, l: nat)
    ensures a * (2 * p) + l == 2 * (a * p + l / 2) + l % 2
  {
    MulAssoc(a, 2, p);
    MulAssoc(2, a, p);
  }

  lemma BitOrShift(x: nat, y: nat, b: nat)
    requires b < 2
    ensures BitOr(2 * x + b, 2 * y) == 2 * BitOr(x, y) + b
  {
  }

  lemma OrSignBit(m: nat, z: nat)
    requires m < SIGN_BIT
    ensures BitOr(m + z * SIZE_UNIT, SIGN_BIT) == m + z * SIZE_UNIT + SIGN_BIT
  {
    SmallPowers();
    BitOrAdd(2 * z, 1, m, 23);
    BitOrShift(z, 0, 0);
    assert BitOr(2 * z, 1) == 2 * z + 1;
  }

  /** The code's mantissa and size, with room made for the sign, are the compact form. */
  method GetCompact(x: BaseUint, fNegative: bool) returns (nCompact: Word)
    requires x.pn.Length == 8
    ensures nCompact == CompactOf(x.Value(), fNegative)
  {
    hide Val, Weight, Pow, IsBitLength, Leading, BitOr, Mantissa, ByteSize;
    ghost var v := x.Value();
    var bits := x.Bits();
    LengthFits(x.pn[..], bits);
    CodeSize(v, bits);
    LeadingRange(v, bits);
    var nSize := (bits + 7) / 8;
    var n := LeadingBytes(x, nSize, bits);
    LeadingNext(v, nSize);
    CompactFields(v, nSize, bits);
    if (n / SIGN_BIT) % 2 == 1 {
      n := n / 256;
      nSize := nSize + 1;
    }
    assert n < SIGN_BIT && nSize < 256;
    assert n == Mantissa(v) && nSize == ByteSize(v);
    Join(n, nSize, fNegative && n != 0);
    n := BitOr(n, nSize * SIZE_UNIT);
    nCompact := BitOr(n, if fNegative && n % SIGN_BIT != 0 then SIGN_BIT else 0);
  }

  method LeadingBytes(x: BaseUint, nSize: nat, ghost bits: nat) returns (n: nat)
    requires x.pn.Length == 8 && IsBitLength(x.Value(), bits) && nSize == (bits + 7) / 8
    ensures n == Leading(x.Value(), nSize)
  {
    hide Val, Weight, Pow, IsBitLength, BitOr;
    ghost var v := x.Value();
    LeadingRange(v, bits);
    PowPositive(2, 8 * (if nSize <= 3 then 3 - nSize else nSize - 3));
    if nSize <= 3 {
      SmallValue(v, bits);
      Low64(x.pn[..]);
      n := BitOr(x.pn[0], x.pn[1] * B) * Pow(2, 8 * (3 - nSize));
    } else {
      var bn := new BaseUint.Copy(x);
      bn.ShiftRight(8 * (nSize - 3));
      Low64(bn.pn[..]);
      n := BitOr(bn.pn[0], bn.pn[1] * B);
    }
  }

  lemma SmallValue(v: nat, r: nat)
    requires IsBitLength(v, r) && (r + 7) / 8 <= 3
    ensures v < SIZE_UNIT
  {
    SmallPowers();
    PowMono(2, r, 24);
  }

  lemma CompactFields(v: nat, z: nat, r: nat)
    requires IsBitLength(v, r) && z == (r + 7) / 8
    ensures r % 8 == 0 && v > 0 ==> ByteSize(v) == z + 1 && Mantissa(v) == Leading(v, z + 1)
    ensures r % 8 != 0 || v == 0 ==> ByteSize(v) == z && Mantissa(v) == Leading(v, z)
    ensures v == 0 ==> Leading(v, z) == 0
  {
    CodeSize(v, r);
    hide BitLength;
  }
}
