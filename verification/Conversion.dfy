/**
 Conversions between floats and integers, and between float formats. Each
 result is the exact value correctly rounded, or the saturated bound.
 */
module Conversion {
  import opened Powers
  import opened Ieee
  import opened Words
  import opened Rounding
  import opened Addition
  import opened Multiplication
  import opened Division
  import opened FusedMultiplyAdd

  /** |a| as a real number. */
  ghost function AbsValue(f: Format, a: nat): real {
    Scaled(f.Units(MagOf(f, a)) as real, f.UnitExp())
  }

  // ----- float to integer -----

  /** The largest magnitude of an n-bit result with this sign. */
  function IntBound(n: nat, isUnsigned: bool, sign: bool): nat
    requires n >= 1
  {
    if isUnsigned then (if sign then 0 else Pow2(n) - 1) else (if sign then Pow2(n - 1) else Pow2(n - 1) - 1)
  }

  /** The n-bit two's complement pattern of a magnitude with a sign. */
  function IntWord(n: nat, sign: bool, r: nat): nat
    requires r <= Pow2(n)
  {
    if sign && r != 0 then Pow2(n) - r else r
  }

  /** Integer exponent of the significand. */
  function IntExp(f: Format, a: nat): int {
    EffExp(f, a) - f.Bias() - f.mantSize
  }

  function CvtToInt(f: Format, n: nat, a: nat, isUnsigned: bool, rm: RoundingMode, ff: Flags): (nat, Flags)
    requires n >= 1
  {
    var sign := SignOf(f, a) && !IsNan(f, a);
    var exp, bound := IntExp(f, a), IntBound(n, isUnsigned, sign);
    IntBoundFits(n, isUnsigned, sign);
    if exp >= 0 then
      if exp <= n - 1 - f.mantSize then
        var r := Low(Shl(FullMant(f, a), exp), n);
        if r > bound then (bound, ff.Or(INVALID)) else (IntWord(n, sign, r), ff)
      else (bound, ff.Or(INVALID))
    else
      var m := RshiftRnd(f, Shl(FullMant(f, a), f.RndSize()), -exp);
      var r := RoundMant(f, sign, m, rm);
      if r > bound then (bound, ff.Or(INVALID))
      else (IntWord(n, sign, r), if Low(m, f.RndSize()) != 0 then ff.(inexact := true) else ff)
  }

  /** y rounded to an integer in mode rm, y having the given sign. */
  ghost function RoundInt(rm: RoundingMode, sign: bool, y: real): nat
    requires y >= 0.0
  {
    var k := y.Floor;
    var half := k as real + 0.5;
    var up := match rm
      case RTZ => false
      case RDN => sign
      case RUP => !sign
      case RMM => y >= half
      case RNE => y > half || (y == half && k % 2 == 1);
    if y == k as real || !up then k else k + 1
  }

  lemma IntBoundFits(n: nat, isUnsigned: bool, sign: bool)
    requires n >= 1
    ensures IntBound(n, isUnsigned, sign) < Pow2(n)
  {
    Pow2Double(n - 1);
  }

  /** Exact value of a finite word at the scale of its full significand. */
  lemma AbsValueAt(f: Format, a: nat)
    requires IsWord(f, a)
    ensures AbsValue(f, a) == At(FullMant(f, a), IntExp(f, a)) >= 0.0
  {
    hide Shl, Scaled, FullMant, EffExp, BinaryFormat.Units, MagOf;
    UnitsOfWord(f, a);
    EffExpPositive(f, a);
    AtShl(FullMant(f, a), EffExp(f, a) - 1, 0);
    AtZero(f.Units(MagOf(f, a)));
    ScaledTwice(FullMant(f, a) as real, EffExp(f, a) - 1, f.UnitExp());
    AtNonneg(FullMant(f, a), IntExp(f, a));
  }

  /** The shifted significand with its spare bits places y among integers and half integers. */
  lemma SpareBitsOfReal(m: nat, r: nat, y: real)
    requires r >= 2 && y >= 0.0 && Agrees(Plain(y), m, 1, 0 - r)
    ensures y.Floor == Shr(m, r)
    ensures y == Shr(m, r) as real <==> Low(m, r) == 0
    ensures y < Shr(m, r) as real + 0.5 <==> Low(m, r) < Pow2(r - 1)
    ensures y == Shr(m, r) as real + 0.5 <==> Low(m, r) == Pow2(r - 1)
  {
    hide Shl, Shr, Low, Scaled;
    var n, x := Shr(m, r), Plain(y);
    SpareBits(m, r);
    IntegerPoint(x, m, r, n);
    IntegerPoint(x, m, r, n + 1);
    HalfPoint(x, m, r, n);
  }

  lemma IntegerPoint(x: Magnitude, m: nat, r: nat, n: nat)
    requires r >= 1 && Agrees(x, m, 1, 0 - r)
    ensures x.Below(n as real) <==> m < Shl(n, r)
    ensures x.Is(n as real) <==> m == Shl(n, r)
  {
    hide Shl, Scaled, Magnitude.Below, Magnitude.Is;
    AgreesCoarser(x, m, 1, r, 0 - r);
    assert AgreesOn(x, m, Shl(n, r), 0 - r);
    UnitChange(x, n, 0 - r, r);
    AtZero(n);
  }

  lemma HalfPoint(x: Magnitude, m: nat, r: nat, n: nat)
    requires r >= 2 && Agrees(x, m, 1, 0 - r)
    ensures x.Below(n as real + 0.5) <==> m < Shl(2 * n + 1, r - 1)
    ensures x.Is(n as real + 0.5) <==> m == Shl(2 * n + 1, r - 1)
  {
    hide Shl, Magnitude.Below, Magnitude.Is;
    AgreesCoarser(x, m, 1, r - 1, 0 - r);
    assert AgreesOn(x, m, Shl(2 * n + 1, r - 1), 0 - r);
    UnitChange(x, 2 * n + 1, 0 - r, r - 1);
    assert At(2 * n + 1, -1) == n as real + 0.5;
  }

  /** A fractional significand: shifting and rounding the mantissa rounds the value. */
  lemma RoundFraction(f: Format, a: nat, sign: bool, rm: RoundingMode)
    requires IsWord(f, a) && IntExp(f, a) < 0
    ensures AbsValue(f, a) >= 0.0
    ensures var m := RshiftRnd(f, Shl(FullMant(f, a), f.RndSize()), -IntExp(f, a));
            && RoundMant(f, sign, m, rm) == RoundInt(rm, sign, AbsValue(f, a))
            && (Low(m, f.RndSize()) != 0 <==> AbsValue(f, a) != AbsValue(f, a).Floor as real)
  {
    hide Shl, Shr, Low, At, FullMant, Agrees, AbsValue, RshiftRnd, RoundMant;
    AbsValueAt(f, a);
    var r, y, d := f.RndSize(), AbsValue(f, a), -IntExp(f, a);
    var g := Shl(FullMant(f, a), r);
    assert IsWord(f, g) by {
      UnitsOfWord(f, a);
      Pow2Shl(f.mantSize + 1, r);
      ShlOrder(FullMant(f, a), Pow2(f.mantSize + 1), r);
      Pow2Double(f.mantSize);
      Pow2Mono(f.FSize() - 1, f.FSize());
    }
    RshiftRndIs(f, g, d);
    AtShl(FullMant(f, a), r, 0 - d - r);
    AgreesExact(Plain(y), g, 0, 0 - d - r);
    AgreesSticky(Plain(y), g, 0, 0 - d - r, d, 1);
    var m := RshiftRnd(f, g, d);
    SpareBitsOfReal(m, r, y);
    RoundMantIs(f, sign, m, rm);
  }

  lemma FloorOfNat(n: nat)
    ensures (n as real).Floor == n
  {
  }

  /** An integral significand is its own rounding. */
  lemma RoundIntegral(f: Format, a: nat, sign: bool, rm: RoundingMode)
    requires IsWord(f, a) && IntExp(f, a) >= 0
    ensures AbsValue(f, a) == Shl(FullMant(f, a), IntExp(f, a)) as real
    ensures RoundInt(rm, sign, AbsValue(f, a)) == Shl(FullMant(f, a), IntExp(f, a))
  {
    hide Shl, At, FullMant, AbsValue;
    AbsValueAt(f, a);
    AtShl(FullMant(f, a), IntExp(f, a), 0);
    AtZero(Shl(FullMant(f, a), IntExp(f, a)));
    FloorOfNat(Shl(FullMant(f, a), IntExp(f, a)));
  }

  /** A significand shifted up fits an n-bit word exactly when the exponent guard says so. */
  lemma IntegralRange(f: Format, n: nat, a: nat)
    requires IsWord(f, a) && IntExp(f, a) >= 0
    ensures IntExp(f, a) <= n - 1 - f.mantSize ==> Shl(FullMant(f, a), IntExp(f, a)) < Pow2(n)
    ensures IntExp(f, a) > n - 1 - f.mantSize ==> Shl(FullMant(f, a), IntExp(f, a)) >= Pow2(n)
  {
    hide Shl, Pow2, FullMant, EffExp;
    var e, m := IntExp(f, a), FullMant(f, a);
    UnitsOfWord(f, a);
    Pow2Double(f.mantSize);
    if e <= n - 1 - f.mantSize {
      ShlOrder(m, Pow2(f.mantSize + 1), e);
      Pow2Shl(f.mantSize + 1, e);
      Pow2Mono(f.mantSize + 1 + e, n);
    } else {
      assert f.Bias() >= 127 by { ExpMaskLarge(f); }
      ShlOrder(m, Pow2(f.mantSize), e);
      Pow2Shl(f.mantSize, e);
      Pow2Mono(n, f.mantSize + e);
    }
  }

  // ----- what an n-bit word says -----

  /** The integer an n-bit word stands for, as an unsigned number or in two's complement. */
  ghost function Reading(n: nat, isUnsigned: bool, w: nat): int
    requires n >= 1
  {
    if isUnsigned || w < Pow2(n - 1) then w else w - Pow2(n)
  }

  ghost function Smallest(n: nat, isUnsigned: bool): int
    requires n >= 1
  {
    if isUnsigned then 0 else 0 - Pow2(n - 1)
  }

  ghost function Largest(n: nat, isUnsigned: bool): int
    requires n >= 1
  {
    (if isUnsigned then Pow2(n) else Pow2(n - 1)) - 1
  }

  /** v itself if an n-bit word can say it, else the nearer end of what it can. */
  ghost function Saturated(n: nat, isUnsigned: bool, v: int): int
    requires n >= 1
  {
    if v < Smallest(n, isUnsigned) then Smallest(n, isUnsigned)
    else if v > Largest(n, isUnsigned) then Largest(n, isUnsigned)
    else v
  }

  function Signed(sign: bool, r: nat): int { if sign then 0 - r else r }

  /** The bound of the magnitude is that of the range, and the pattern of a bound reads as it. */
  lemma BoundReads(n: nat, isUnsigned: bool, sign: bool, r: nat)
    requires n >= 1
    ensures r > IntBound(n, isUnsigned, sign) <==>
            Signed(sign, r) < Smallest(n, isUnsigned) || Signed(sign, r) > Largest(n, isUnsigned)
    ensures var b := IntBound(n, isUnsigned, sign);
            && b < Pow2(n)
            && Reading(n, isUnsigned, b) == if sign then Smallest(n, isUnsigned) else Largest(n, isUnsigned)
  {
    Pow2Double(n - 1);
  }

  /** The pattern of a number in range reads as that number. */
  lemma WordReads(n: nat, isUnsigned: bool, sign: bool, r: nat)
    requires n >= 1 && r <= IntBound(n, isUnsigned, sign)
    ensures r <= Pow2(n) && IntWord(n, sign, r) < Pow2(n)
    ensures Reading(n, isUnsigned, IntWord(n, sign, r)) == Signed(sign, r)
  {
    Pow2Double(n - 1);
  }

  /**
   For every finite a, the conversion to an n-bit integer reads as the value
   rounded to an integer if an n-bit word can say that, inexact if it changed;
   otherwise as the nearer end of the range, with only the invalid flag.
   */
  lemma ToIntCorrect(f: Format, n: nat, a: nat, isUnsigned: bool, rm: RoundingMode, ff: Flags)
    requires n >= 1 && IsWord(f, a) && IsFinite(f, a)
    ensures AbsValue(f, a) >= 0.0
    ensures var y := AbsValue(f, a);
            var v := Signed(SignOf(f, a), RoundInt(rm, SignOf(f, a), y));
            var (w, ff') := CvtToInt(f, n, a, isUnsigned, rm, ff);
            && w < Pow2(n) && Reading(n, isUnsigned, w) == Saturated(n, isUnsigned, v)
            && ff' == if v != Saturated(n, isUnsigned, v) then ff.Or(INVALID)
                      else if y == y.Floor as real then ff else ff.(inexact := true)
  {
    hide Shl, Shr, Low, Pow2, SignOf, AbsValue, RoundInt, IntBound, IntWord, CvtToInt, Reading;
    ToIntPattern(f, n, a, isUnsigned, rm, ff);
    var sign := SignOf(f, a);
    var r := RoundInt(rm, sign, AbsValue(f, a));
    BoundReads(n, isUnsigned, sign, r);
    if r <= IntBound(n, isUnsigned, sign) {
      WordReads(n, isUnsigned, sign, r);
    } else {
      OutOfRange(n, isUnsigned, sign, r);
    }
  }

  lemma OutOfRange(n: nat, isUnsigned: bool, sign: bool, r: nat)
    requires n >= 1 && (Signed(sign, r) < Smallest(n, isUnsigned) || Signed(sign, r) > Largest(n, isUnsigned))
    ensures Saturated(n, isUnsigned, Signed(sign, r)) ==
            if sign then Smallest(n, isUnsigned) else Largest(n, isUnsigned)
  {
    Pow2Double(n - 1);
  }

  /** The word, by the magnitude and the bound of it for its sign. */
  lemma ToIntPattern(f: Format, n: nat, a: nat, isUnsigned: bool, rm: RoundingMode, ff: Flags)
    requires n >= 1 && IsWord(f, a) && IsFinite(f, a)
    ensures AbsValue(f, a) >= 0.0
    ensures var sign, y := SignOf(f, a), AbsValue(f, a);
            var v, bound := RoundInt(rm, sign, y), IntBound(n, isUnsigned, sign);
            v <= Pow2(n) || v > bound
    ensures var sign, y := SignOf(f, a), AbsValue(f, a);
            var v, bound := RoundInt(rm, sign, y), IntBound(n, isUnsigned, sign);
            bound < Pow2(n) &&
            CvtToInt(f, n, a, isUnsigned, rm, ff) ==
            if v > bound then (bound, ff.Or(INVALID))
            else (IntWord(n, sign, v), if y == y.Floor as real then ff else ff.(inexact := true))
  {
    hide Shl, Shr, Low, Pow2, FullMant, EffExp, SignOf, AbsValue, RoundMant, RshiftRnd, RoundInt, IntBound, IntWord,
         MantOf, ExpOf, IntExp;
    var sign, y := SignOf(f, a), AbsValue(f, a);
    AbsValueAt(f, a);
    IntBoundFits(n, isUnsigned, sign);
    assert !IsNan(f, a);
    if IntExp(f, a) >= 0 {
      var r := Shl(FullMant(f, a), IntExp(f, a));
      RoundIntegral(f, a, sign, rm);
      IntegralRange(f, n, a);
      FloorOfNat(r);
      if r < Pow2(n) { LowSmall(r, n); }
    } else {
      RoundFraction(f, a, sign, rm);
    }
  }

  /** Infinities and NaN saturate, NaN like plus infinity, if the format reaches past the integer range. */
  lemma ToIntSpecial(f: Format, n: nat, a: nat, isUnsigned: bool, rm: RoundingMode, ff: Flags)
    requires n >= 1 && IsWord(f, a) && !IsFinite(f, a)
    requires f.Bias() + 1 >= f.mantSize && f.Bias() + 2 > n
    ensures var (w, ff') := CvtToInt(f, n, a, isUnsigned, rm, ff);
            && w < Pow2(n) && ff' == ff.Or(INVALID)
            && Reading(n, isUnsigned, w) ==
               if SignOf(f, a) && !IsNan(f, a) then Smallest(n, isUnsigned) else Largest(n, isUnsigned)
  {
    hide *;
    SpecialPattern(f, n, a, isUnsigned, rm, ff);
    BoundReads(n, isUnsigned, SignOf(f, a) && !IsNan(f, a), 0);
  }

  lemma SpecialPattern(f: Format, n: nat, a: nat, isUnsigned: bool, rm: RoundingMode, ff: Flags)
    requires n >= 1 && IsWord(f, a) && !IsFinite(f, a)
    requires f.Bias() + 1 >= f.mantSize && f.Bias() + 2 > n
    ensures CvtToInt(f, n, a, isUnsigned, rm, ff) ==
            (IntBound(n, isUnsigned, SignOf(f, a) && !IsNan(f, a)), ff.Or(INVALID))
  {
    hide Shl, Shr, Low, FullMant, SignOf, RoundMant, RshiftRnd, IntBound, IntWord, MantOf;
    ExpMaskLarge(f);
    BiasIs(f);
    Pow2Double(f.expSize - 1);
  }

  // ----- integer to float -----

  /** The float nearest an integer: too long magnitudes are first cut to FSize() - 1 bits with a sticky bit. */
  function CvtFromInt(f: Format, a: int, rm: RoundingMode, ff: Flags): (nat, Flags) {
    var r: nat := if a < 0 then -a else a;
    var l := BitLen(r) - (f.FSize() - 1);
    var exp := f.Bias() + f.FSize() - 2;
    if l > 0 then
      FromIntFits(f, r, l);
      Normalize(f, a < 0, exp + l, OrBit(Shr(r, l), Low(r, l) != 0), rm, ff)
    else
      Normalize(f, a < 0, exp, r, rm, ff)
  }

  lemma FromIntFits(f: Format, r: nat, l: nat)
    requires BitLen(r) == l + f.FSize() - 1
    ensures var m := OrBit(Shr(r, l), Low(r, l) != 0);
            Pow2(f.FSize() - 2) <= m < Pow2(f.FSize() - 1) && Clz(f, m) >= 1
  {
    hide Shl, Shr, Low, BitLen, Pow2;
    assert r > 0 by { BitLenOfZero(); }
    BitLenBounds(r);
    StickyRange(r, l, f.FSize() - 2, f.FSize() - 1);
    ClzPositive(f, OrBit(Shr(r, l), Low(r, l) != 0));
  }

  lemma BitLenOfZero()
    ensures BitLen(0) == 0
  {
  }

  /** Every integer is converted to the float that is its value correctly rounded. */
  lemma FromIntCorrect(f: Format, a: int, rm: RoundingMode, ff: Flags)
    ensures CvtFromInt(f, a, rm, ff) ==
            Rounded(f, a < 0, rm, ff, Plain(Scaled((if a < 0 then -a else a) as real, -f.UnitExp())))
  {
    hide Shl, Shr, Low, Scaled, BitLen, Pow2, Normalize, Rounded, Agrees, BinaryFormat.Bias;
    var r: nat := if a < 0 then -a else a;
    var l, exp := BitLen(r) - (f.FSize() - 1), f.Bias() + f.FSize() - 2;
    var x, s := Plain(Scaled(r as real, -f.UnitExp())), exp - 1 - f.RndSize();
    assert s == -f.UnitExp();
    if l > 0 {
      FromIntFits(f, r, l);
      AgreesExact(x, r, 0, s);
      AgreesSticky(x, r, 0, s, l, 1);
      Pow2Mono(f.mantSize + 2, f.FSize() - 2);
      NormalizeSticky(f, a < 0, exp + l, OrBit(Shr(r, l), Low(r, l) != 0), rm, ff, x);
    } else {
      assert r < Pow2(f.FSize() - 1) by {
        BitLenTop(r);
        Pow2Mono(BitLen(r), f.FSize() - 1);
      }
      NormalizeExact(f, a < 0, exp, r, rm, ff, x);
    }
  }

  /** An integer of at most mantSize + 1 bits is a number of the format. */
  lemma IntPattern(f: Format, r: nat) returns (k: nat)
    requires r < Pow2(f.mantSize + 1) && f.mantSize <= f.Bias()
    ensures k < f.Inf() && f.Units(k) as real == Scaled(r as real, -f.UnitExp())
  {
    hide Shl, Scaled, Pow2, BinaryFormat.Units, BinaryFormat.Bias, BitLen;
    if r == 0 {
      k := 0;
      assert f.Units(0) == 0 by { UnitsZero(f); }
      AtNonneg(0, -f.UnitExp());
    } else {
      BitLenBounds(r);
      BitLenAtMost(r, f.mantSize + 1);
      var l := BitLen(r);
      var d, e := f.mantSize + 1 - l, f.Bias() + l - 1;
      var n := Shl(r, d);
      Pow2Shl(l - 1, d);
      Pow2Shl(l, d);
      ShlOrder(r, Pow2(l - 1), d);
      ShlOrder(r, Pow2(l), d);
      Pow2Double(f.mantSize);
      assert 1 <= e < f.ExpMask() by { BiasRange(f); }
      k := PatternAt(f, e, n);
      PatternBelowInf(f, e, n);
      PatternValue(f, e, n);
      AtShl(r, d, e - 1);
    }
  }

  lemma BiasRange(f: Format)
    ensures f.Bias() >= 127 && f.ExpMask() == 2 * f.Bias() + 1
  {
    ExpMaskLarge(f);
    BiasIs(f);
    Pow2Double(f.expSize - 1);
  }

  /** An integer of magnitude below 2^(mantSize+1) is a number of the format, and converts to it without flags. */
  lemma FromIntExact(f: Format, a: int, rm: RoundingMode, ff: Flags)
    requires f.mantSize <= f.Bias() && 0 - Pow2(f.mantSize + 1) < a < Pow2(f.mantSize + 1)
    ensures var (w, ff') := CvtFromInt(f, a, rm, ff);
            && IsWord(f, w) && IsFinite(f, w) && SignOf(f, w) == (a < 0) && ff' == ff
            && AbsValue(f, w) == (if a < 0 then 0 - a else a) as real
  {
    hide Shl, Shr, Low, Scaled, Pow2, BinaryFormat.Units, BinaryFormat.Inf, Rounded, CvtFromInt, SignOf, MagOf;
    var r: nat := if a < 0 then 0 - a else a;
    var k := IntPattern(f, r);
    FromIntCorrect(f, a, rm, ff);
    RoundedExact(f, a < 0, k, rm, ff);
    var w := SignBit(f, a < 0) + k;
    InfIsWord(f);
    PackFields(f, a < 0, k);
    FiniteBelowInf(f, w);
    ScaledTwice(r as real, -f.UnitExp(), f.UnitExp());
    assert AbsValue(f, w) == r as real by { ScaledNone(r as real); }
  }

  /** Integers of magnitude below 2^(mantSize+1) survive the trip through the format, in every mode, without flags. */
  lemma IntRoundTrip(f: Format, n: nat, a: int, isUnsigned: bool, rm: RoundingMode, rm': RoundingMode, ff: Flags)
    requires n >= 1 && f.mantSize <= f.Bias() && 0 - Pow2(f.mantSize + 1) < a < Pow2(f.mantSize + 1)
    requires Smallest(n, isUnsigned) <= a <= Largest(n, isUnsigned)
    ensures CvtFromInt(f, a, rm, ff).1 == ff
    ensures var (w, ff') := CvtToInt(f, n, CvtFromInt(f, a, rm, ff).0, isUnsigned, rm', ff);
            w < Pow2(n) && Reading(n, isUnsigned, w) == a && ff' == ff
  {
    hide Pow2, CvtFromInt, CvtToInt, RoundInt, SignOf, Reading, AbsValue, IsFinite, Smallest, Largest;
    FromIntExact(f, a, rm, ff);
    ToIntCorrect(f, n, CvtFromInt(f, a, rm, ff).0, isUnsigned, rm', ff);
    RoundIntOfNat(rm', a < 0, if a < 0 then 0 - a else a);
  }

  lemma RoundIntOfNat(rm: RoundingMode, sign: bool, r: nat)
    ensures RoundInt(rm, sign, r as real) == r && (r as real).Floor == r
  {
  }

  lemma InfIsWord(f: Format)
    ensures f.Inf() < Pow2(f.FSize() - 1)
  {
    ShlSucc(f.ExpMask(), f.mantSize);
    Pow2Shl(f.expSize, f.mantSize);
  }

  // ----- between formats -----

  /** w is wide enough for every number of n to be a normal number of w, and for n to lie far above w's subnormals. */
  predicate Widens(n: Format, w: Format) {
    w.mantSize >= n.FSize() - 2 && w.Bias() >= n.Bias() + n.FSize()
  }

  lemma FormatsWiden()
    ensures Widens(FLOAT32, FLOAT64) && Widens(FLOAT32, FLOAT128) && Widens(FLOAT64, FLOAT128)
  {
    FormatsFit();
    assert Pow2(7) == 128 && Pow2(10) == 1024 && Pow2(14) == 16384;
    BiasIs(FLOAT32);
    BiasIs(FLOAT64);
    BiasIs(FLOAT128);
  }

  /** Conversion to a wider format; the implicit bit falls to the mantissa mask of the packing. */
  function CvtWiden(n: Format, w: Format, a: nat, ff: Flags): (nat, Flags)
    requires Widens(n, w)
  {
    if ExpOf(n, a) == n.ExpMask() then
      if MantOf(n, a) != 0 then (QNan(w), if IsSigNan(n, a) then ff.Or(INVALID) else ff)
      else (Pack(w, SignOf(n, a), w.ExpMask(), 0), ff)
    else if IsZero(n, a) then (Pack(w, SignOf(n, a), 0, 0), ff)
    else
      NormExpRange(n, a);
      var mant := if ExpOf(n, a) == 0 then NormMant(n, a) else MantOf(n, a);
      (Pack(w, SignOf(n, a), NormExp(n, a) - n.Bias() + w.Bias(), Shl(mant, w.mantSize - n.mantSize)), ff)
  }

  lemma NormExpRange(n: Format, a: nat)
    requires !IsZero(n, a) && ExpOf(n, a) < n.ExpMask()
    ensures 1 - n.mantSize <= NormExp(n, a) <= 2 * n.Bias()
  {
    hide Shr, Low, BitLen, Pow2;
    BiasRange(n);
    BitLenPositive(MantOf(n, a));
    MantBits(n, a);
  }

  lemma BitLenPositive(m: nat)
    ensures m > 0 ==> BitLen(m) >= 1
  {
  }

  /** Conversion to a narrower format. A subnormal operand has its exponent adjusted but not its mantissa. */
  function CvtNarrow(n: Format, w: Format, a: nat, rm: RoundingMode, ff: Flags): (nat, Flags)
    requires Widens(n, w)
  {
    if ExpOf(w, a) == w.ExpMask() then
      if MantOf(w, a) != 0 then (QNan(n), if IsSigNan(w, a) then ff.Or(INVALID) else ff)
      else (Pack(n, SignOf(w, a), n.ExpMask(), 0), ff)
    else if IsZero(w, a) then (Pack(n, SignOf(w, a), 0, 0), ff)
    else
      var exp := NormExp(w, a) - w.Bias() + n.Bias();
      NarrowFits(n, w, a);
      Normalize(n, SignOf(w, a), exp, RshiftRnd(w, FullMant(w, a), w.mantSize - (n.FSize() - 2)), rm, ff)
  }

  /** The shifted significand has at most FSize() - 1 bits of the narrow format, and is not zero. */
  lemma NarrowFits(n: Format, w: Format, a: nat)
    requires Widens(n, w) && !IsZero(w, a)
    ensures var m := RshiftRnd(w, FullMant(w, a), w.mantSize - (n.FSize() - 2));
            && m == OrBit(Shr(FullMant(w, a), w.mantSize - (n.FSize() - 2)),
                          Low(FullMant(w, a), w.mantSize - (n.FSize() - 2)) != 0)
            && 0 < m < Pow2(n.FSize() - 1) && Clz(n, m) >= 1
            && (ExpOf(w, a) != 0 ==> m >= Pow2(n.FSize() - 2))
  {
    hide Shl, Shr, Low, Pow2, BitLen, RshiftRnd;
    var v, d, k := FullMant(w, a), w.mantSize - (n.FSize() - 2), n.FSize();
    LowBound(a, w.mantSize);
    Pow2Double(w.mantSize);
    Pow2Mono(w.mantSize + 1, w.FSize());
    RshiftRndIs(w, v, d);
    ShrLow(v, d);
    ShrBound(v, d, k - 1);
    Pow2Double(k - 2);
    if ExpOf(w, a) != 0 { StickyRange(v, d, k - 2, k - 1); }
    ClzPositive(n, RshiftRnd(w, v, d));
  }

  lemma LowBound(a: nat, d: nat)
    ensures Low(a, d) < Pow2(d)
  {
  }

  /** A normal operand is rounded correctly. */
  lemma NarrowNormal(n: Format, w: Format, a: nat, rm: RoundingMode, ff: Flags)
    requires Widens(n, w) && IsWord(w, a) && IsFinite(w, a) && ExpOf(w, a) != 0
    ensures CvtNarrow(n, w, a, rm, ff) ==
            Rounded(n, SignOf(w, a), rm, ff, Plain(Scaled(AbsValue(w, a), -n.UnitExp())))
  {
    hide Shl, Shr, Low, Scaled, Pow2, BitLen, Normalize, Rounded, Agrees, FullMant, SignOf, RshiftRnd, MagOf, OrBit,
         BinaryFormat.Units, BinaryFormat.Bias;
    AbsValueAt(w, a);
    NarrowFits(n, w, a);
    var v, d := FullMant(w, a), w.mantSize - (n.FSize() - 2);
    var exp := NormExp(w, a) - w.Bias() + n.Bias();
    var s, x := exp - 1 - n.RndSize(), Plain(Scaled(AbsValue(w, a), -n.UnitExp()));
    ScaledTwice(v as real, IntExp(w, a), -n.UnitExp());
    AgreesExact(x, v, 0, s - d);
    AgreesSticky(x, v, 0, s - d, d, 1);
    Pow2Mono(n.mantSize + 2, n.FSize() - 2);
    NormalizeSticky(n, SignOf(w, a), exp, RshiftRnd(w, v, d), rm, ff, x);
  }

  /** Any nonzero mantissa far below the subnormals is packed as a number below a quarter unit is rounded. */
  lemma PackTiny(n: Format, sign: bool, exp: int, m: nat, rm: RoundingMode, ff: Flags, x: Magnitude)
    requires Pow2(n.FSize() - 2) <= m < Pow2(n.FSize() - 1) && 1 - exp >= n.FSize()
    requires x.Plain? && 0.0 < x.q < 0.25
    ensures RoundPack(n, sign, exp, m, rm, ff) == Rounded(n, sign, rm, ff, x)
  {
    hide Shl, Shr, Low, Pow2, PackRounded, RaiseFlags, RoundMant, Addend, Rounded, TinyAfterRounding;
    TinyStands(n, x, 1);
    TinyBelowQuarter(n, sign, x, rm);
    ExpMaskLarge(n);
    assert 1 < Pow2(n.FSize() - 1) by { Pow2Mono(0, n.FSize() - 1); Pow2One(); }
    PackInRange(n, sign, x, 1, 1, rm, ff, true);
  }

  /** The mantissa 1 stands for any number strictly between 0 and one half of a unit. */
  lemma TinyStands(n: Format, x: Magnitude, m: nat)
    requires x.Plain? && 0.0 < x.q < 0.5 && m == 1
    ensures StandsFor(n, x, m, 1)
  {
    hide Shl, Scaled;
    var t, s := n.RndSize() - 1, 0 - n.RndSize();
    forall k: nat ensures AgreesOn(x, m, Shl(k, t), s) {
      AtShl(k, t, s);
      AtOrder(k, 1, -1);
      AtOrder(0, k, -1);
      AtNonneg(0, -1);
      assert At(1, -1) == 0.5 by { AtHalf(); }
      ShlGrows2(k, t);
    }
  }

  lemma AtHalf()
    ensures At(1, -1) == 0.5
  {
  }

  lemma ShlGrows2(k: nat, t: nat)
    requires t >= 1
    ensures k >= 1 ==> Shl(k, t) >= 2
  {
  }

  lemma TinyBelowQuarter(n: Format, sign: bool, x: Magnitude, rm: RoundingMode)
    requires x.Plain? && 0.0 < x.q < 0.25
    ensures TinyAfterRounding(n, rm, sign, x)
  {
    hide Shl, Shr, Low, Pow2, RoundMant, RoundBits;
    ExpMaskLarge(n);
    TinyStands(n, x.Twice(), 1);
    assert 1 <= Pow2(n.FSize() - 2) < Pow2(n.FSize() - 1) by { Pow2Double(n.FSize() - 2); }
    RoundInRange(n, sign, x.Twice(), 1, 1, rm);
    SmallSignificand(n, sign, 1, rm);
  }

  /** A subnormal operand of the wide format is below a quarter unit of the narrow one. */
  lemma SubnormalTiny(n: Format, w: Format, a: nat)
    requires Widens(n, w) && IsWord(w, a) && ExpOf(w, a) == 0 && !IsZero(w, a)
    ensures 0.0 < Scaled(AbsValue(w, a), -n.UnitExp()) < 0.25
  {
    hide Shl, Shr, Low, Scaled, Pow2, MagOf, BinaryFormat.Units, BinaryFormat.Bias, FullMant, EffExp;
    AbsValueAt(w, a);
    UnitsOfWord(w, a);
    var v, s := FullMant(w, a), IntExp(w, a) - n.UnitExp();
    assert EffExp(w, a) == 1 && 0 < v < Pow2(w.mantSize) by { SubnormalFields(w, a); }
    ScaledTwice(v as real, IntExp(w, a), -n.UnitExp());
    AtPositive(v, s);
    AtOrder(v, Pow2(w.mantSize), s);
    ShlOne(w.mantSize);
    AtShl(1, w.mantSize, s);
    AtMono(1, s + w.mantSize, -2);
    assert At(1, -2) == 0.25 by { AtQuarter(); }
  }

  lemma SubnormalFields(w: Format, a: nat)
    requires ExpOf(w, a) == 0 && !IsZero(w, a)
    ensures EffExp(w, a) == 1 && 0 < FullMant(w, a) < Pow2(w.mantSize)
  {
  }

  lemma AtQuarter()
    ensures At(1, -2) == 0.25
  {
  }

  /** Discarding the normalized mantissa of a subnormal does no harm. */
  lemma NarrowSubnormal(n: Format, w: Format, a: nat, rm: RoundingMode, ff: Flags)
    requires Widens(n, w) && IsWord(w, a) && ExpOf(w, a) == 0 && !IsZero(w, a)
    ensures CvtNarrow(n, w, a, rm, ff) ==
            Rounded(n, SignOf(w, a), rm, ff, Plain(Scaled(AbsValue(w, a), -n.UnitExp())))
  {
    hide Shl, Shr, Low, Scaled, Pow2, BitLen, RoundPack, Rounded, AbsValue, FullMant, SignOf, RshiftRnd, OrBit,
         BinaryFormat.Bias, Normalized, MantOf;
    NarrowFits(n, w, a);
    SubnormalTiny(n, w, a);
    ExpMaskLarge(w);
    var m := RshiftRnd(w, FullMant(w, a), w.mantSize - (n.FSize() - 2));
    var exp := NormExp(w, a) - w.Bias() + n.Bias();
    assert NormExp(w, a) <= 1 by { BitLenPositive(MantOf(w, a)); MantBits(w, a); }
    NormalizeShift(n, m);
    var shift := Clz(n, m) - 1;
    assert Pow2(n.FSize() - 2) <= Shl(m, shift) < Pow2(n.FSize() - 1) by { NormalizedNonzero(n, Shl(m, shift)); }
    PackTiny(n, SignOf(w, a), exp - shift, Shl(m, shift), rm, ff, Plain(Scaled(AbsValue(w, a), -n.UnitExp())));
  }

  lemma NormalizedNonzero(n: Format, m: nat)
    requires Normalized(n, m) && m > 0
    ensures Pow2(n.FSize() - 2) <= m < Pow2(n.FSize() - 1)
  {
  }

  /** Every finite number of the wide format is narrowed to its value correctly rounded. */
  lemma NarrowCorrect(n: Format, w: Format, a: nat, rm: RoundingMode, ff: Flags)
    requires Widens(n, w) && IsWord(w, a) && IsFinite(w, a)
    ensures CvtNarrow(n, w, a, rm, ff) ==
            Rounded(n, SignOf(w, a), rm, ff, Plain(Scaled(AbsValue(w, a), -n.UnitExp())))
  {
    hide Shl, Shr, Low, Scaled, Pow2, Rounded, SignOf, MagOf, BinaryFormat.Units, ExpOf, MantOf, Normalize;
    if IsZero(w, a) {
      ZeroUnits(w, a);
      AtNonneg(0, w.UnitExp());
      AtNonneg(0, -n.UnitExp());
      RoundedZero(n, SignOf(w, a), rm, ff);
    } else if ExpOf(w, a) == 0 {
      NarrowSubnormal(n, w, a, rm, ff);
    } else {
      NarrowNormal(n, w, a, rm, ff);
    }
  }

  /** Packing a significand with its top bit at mantSize gives the word of that exponent and significand. */
  lemma PackSignificand(w: Format, sign: bool, e: nat, m: nat)
    requires 1 <= e < w.ExpMask() && Pow2(w.mantSize) <= m < Pow2(w.mantSize + 1)
    ensures var a := Pack(w, sign, e, m);
            && IsWord(w, a) && IsFinite(w, a) && SignOf(w, a) == sign
            && UnitsReal(w, a) == At(m, e - 1)
  {
    hide Shl, Shr, Low, Pow2, At, BinaryFormat.Units, BinaryFormat.Inf, SignOf, MagOf, ExpOf;
    Pow2Double(w.mantSize);
    CarryFields(w.mantSize, m);
    PatternCarry(w, e, m);
    PatternBelowInf(w, e, m);
    PatternValue(w, e, m);
    InfIsWord(w);
    PackFields(w, sign, PatternAt(w, e, m));
    FiniteBelowInf(w, Pack(w, sign, e, m));
  }

  /** The units of a word, as a real. */
  ghost function UnitsReal(w: Format, a: nat): real {
    w.Units(MagOf(w, a)) as real
  }

  lemma PackIgnoresTop(w: Format, sign: bool, e: nat, m: nat)
    requires m < Pow2(w.mantSize)
    ensures Pack(w, sign, e, m) == Pack(w, sign, e, Pow2(w.mantSize) + m)
  {
    hide Shl, Shr, Low;
    LowSmall(m, w.mantSize);
    ShlOne(w.mantSize);
    SplitUnique(Pow2(w.mantSize) + m, w.mantSize, 1, m);
  }

  /** Every finite number widens to the same number, with no flags. */
  lemma WidenCorrect(n: Format, w: Format, a: nat, ff: Flags)
    requires Widens(n, w) && IsWord(n, a) && IsFinite(n, a)
    ensures var (b, ff') := CvtWiden(n, w, a, ff);
            && IsWord(w, b) && IsFinite(w, b) && ff' == ff
            && SignOf(w, b) == SignOf(n, a) && AbsValue(w, b) == AbsValue(n, a)
  {
    hide Shl, Shr, Low, Pow2, Scaled, BinaryFormat.Units, BinaryFormat.Bias, BinaryFormat.Inf, SignOf, MagOf, ExpOf,
         MantOf, NormExp, NormMant, IsFinite, Pack;
    FiniteExp(n, a);
    if IsZero(n, a) {
      ZeroUnits(n, a);
      ZeroPack(w, SignOf(n, a));
      AtNonneg(0, n.UnitExp());
      AtNonneg(0, w.UnitExp());
    } else {
      assert ExpOf(n, a) < n.ExpMask() by { WordFields(n, a); }
      NormExpRange(n, a);
      BiasRange(n);
      BiasRange(w);
      NormMantBounds(n, a);
      NormalizedWord(n, a);
      var d, m := w.mantSize - n.mantSize, NormMant(n, a);
      var e := NormExp(n, a) - n.Bias() + w.Bias();
      Pow2Shl(n.mantSize, d);
      Pow2Shl(n.mantSize + 1, d);
      ShlOrder(m, Pow2(n.mantSize), d);
      ShlOrder(m, Pow2(n.mantSize + 1), d);
      PackSignificand(w, SignOf(n, a), e, Shl(m, d));
      WidenMantissa(n, w, a, e);
      ScaledTwice(m as real, NormExp(n, a) - 1, n.UnitExp());
      AtShl(m, d, e - 1);
      ScaledTwice(m as real, e - 1 + d, w.UnitExp());
    }
  }

  lemma FiniteExp(n: Format, a: nat)
    requires IsFinite(n, a)
    ensures ExpOf(n, a) != n.ExpMask()
  {
  }

  lemma ZeroPack(w: Format, sign: bool)
    ensures var b := Pack(w, sign, 0, 0);
            IsWord(w, b) && IsFinite(w, b) && SignOf(w, b) == sign && w.Units(MagOf(w, b)) == 0
  {
    hide Shl, Shr, Low, BinaryFormat.Units, SignOf, MagOf, ExpOf;
    LowSmall(0, w.mantSize);
    PackFields(w, sign, 0);
    UnitsZero(w);
    FiniteBelowInf(w, Pack(w, sign, 0, 0));
  }

  /** The packed mantissa field is the same with and without the implicit bit. */
  lemma WidenMantissa(n: Format, w: Format, a: nat, e: nat)
    requires Widens(n, w) && !IsZero(n, a)
    ensures var d := w.mantSize - n.mantSize;
            var mant := if ExpOf(n, a) == 0 then NormMant(n, a) else MantOf(n, a);
            Pack(w, SignOf(n, a), e, Shl(mant, d)) == Pack(w, SignOf(n, a), e, Shl(NormMant(n, a), d))
  {
    hide Shl, Shr, Low, Pow2, SignOf, ExpOf, Pack;
    var d := w.mantSize - n.mantSize;
    if ExpOf(n, a) != 0 {
      LowBound(a, n.mantSize);
      Pow2Shl(n.mantSize, d);
      ShlAdd(Pow2(n.mantSize), MantOf(n, a), d);
      ShlOrder(MantOf(n, a), Pow2(n.mantSize), d);
      PackIgnoresTop(w, SignOf(n, a), e, Shl(MantOf(n, a), d));
    }
  }

  /** Widening then narrowing gives back every number and infinity, in every mode and without flags. */
  lemma WidenNarrow(n: Format, w: Format, a: nat, rm: RoundingMode, ff: Flags)
    requires Widens(n, w) && IsWord(n, a) && !IsNan(n, a)
    ensures CvtNarrow(n, w, CvtWiden(n, w, a, ff).0, rm, ff) == (a, ff)
  {
    hide Shl, Shr, Low, Pow2, Scaled, BinaryFormat.Units, BinaryFormat.Inf, SignOf, MagOf, ExpOf, MantOf, Rounded,
         CvtNarrow;
    if IsFinite(n, a) {
      WidenFinite(n, w, a, rm, ff);
    } else {
      WidenInfinity(n, w, a, rm, ff);
    }
  }

  lemma WidenFinite(n: Format, w: Format, a: nat, rm: RoundingMode, ff: Flags)
    requires Widens(n, w) && IsWord(n, a) && IsFinite(n, a)
    ensures CvtNarrow(n, w, CvtWiden(n, w, a, ff).0, rm, ff) == (a, ff)
  {
    hide Shl, Shr, Low, Pow2, Scaled, BinaryFormat.Units, BinaryFormat.Inf, SignOf, MagOf, ExpOf, MantOf, Rounded,
         CvtNarrow, CvtWiden, IsFinite;
    WidenCorrect(n, w, a, ff);
    var b := CvtWiden(n, w, a, ff).0;
    NarrowCorrect(n, w, b, rm, ff);
    var u := n.Units(MagOf(n, a)) as real;
    ScaledTwice(u, n.UnitExp(), -n.UnitExp());
    ScaledNone(u);
    FiniteExp(n, a);
    FiniteBelowInf(n, a);
    RoundedExact(n, SignOf(n, a), MagOf(n, a), rm, ff);
    WordFields(n, a);
  }

  lemma InfinityFields(w: Format, sign: bool)
    ensures var b := Pack(w, sign, w.ExpMask(), 0);
            IsWord(w, b) && SignOf(w, b) == sign && ExpOf(w, b) == w.ExpMask() && MantOf(w, b) == 0
  {
    hide Shl, Shr, Low, SignOf, MagOf, ExpOf, MantOf;
    LowSmall(0, w.mantSize);
    InfIsWord(w);
    PackFields(w, sign, w.Inf());
    var b := Pack(w, sign, w.ExpMask(), 0);
    WordFields(w, b);
    MantBelow(w, b);
    SplitUnique(w.Inf(), w.mantSize, w.ExpMask(), 0);
    SplitUnique(w.Inf(), w.mantSize, ExpOf(w, b), MantOf(w, b));
  }

  lemma MantBelow(w: Format, b: nat)
    ensures MantOf(w, b) < Pow2(w.mantSize)
  {
  }

  lemma WidenInfinity(n: Format, w: Format, a: nat, rm: RoundingMode, ff: Flags)
    requires Widens(n, w) && IsWord(n, a) && IsInf(n, a)
    ensures CvtNarrow(n, w, CvtWiden(n, w, a, ff).0, rm, ff) == (a, ff)
  {
    hide Shl, Shr, Low, Pow2, SignOf, MagOf, ExpOf, MantOf;
    InfinityFields(w, SignOf(n, a));
    WordFields(n, a);
    LowSmall(0, n.mantSize);
  }
}
