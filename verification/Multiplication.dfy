/**
 mul_sf: the double-word product of the normalized significands, reduced to one
 word with a sticky bit. The result is the exact product, rounded once.
 Also the half-word multiplier that stands in for a double-width type.
 */
module Multiplication {
  import opened Powers
  import opened Ieee
  import opened Words
  import opened Rounding
  import opened Addition

  /** High and low word of a product. */
  function MulU(f: Format, a: nat, b: nat): (nat, nat) {
    (Shr(Times(a, b), f.FSize()), Low(Times(a, b), f.FSize()))
  }

  /** The product of two significands as one word with a sticky low bit. */
  function MulMant(f: Format, am: nat, bm: nat): nat {
    var (hi, lo) := MulU(f, Shl(am, f.RndSize()), Shl(bm, f.RndSize() + 1));
    OrBit(hi, lo != 0)
  }

  /** Product of nonzero finite a and b. */
  function MulNormal(f: Format, a: nat, b: nat, rm: RoundingMode, ff: Flags): (nat, Flags)
    requires !IsZero(f, a) && !IsZero(f, b)
  {
    NormMantBounds(f, a);
    NormMantBounds(f, b);
    MulFits(f, NormMant(f, a), NormMant(f, b));
    var exp := NormExp(f, a) + NormExp(f, b) - Pow2(f.expSize - 1) + 2;
    Normalize(f, SignOf(f, a) != SignOf(f, b), exp, MulMant(f, NormMant(f, a), NormMant(f, b)), rm, ff)
  }

  function MulSf(f: Format, a: nat, b: nat, rm: RoundingMode, ff: Flags): (nat, Flags)
    requires IsWord(f, a) && IsWord(f, b)
  {
    var sign := SignOf(f, a) != SignOf(f, b);
    if ExpOf(f, a) == f.ExpMask() || ExpOf(f, b) == f.ExpMask() then
      if IsNan(f, a) || IsNan(f, b) then
        (QNan(f), if IsSigNan(f, a) || IsSigNan(f, b) then ff.Or(INVALID) else ff)
      else if (ExpOf(f, a) == f.ExpMask() && IsZero(f, b)) || (ExpOf(f, b) == f.ExpMask() && IsZero(f, a)) then
        (QNan(f), ff.Or(INVALID))
      else (Pack(f, sign, f.ExpMask(), 0), ff)
    else if IsZero(f, a) || IsZero(f, b) then (Pack(f, sign, 0, 0), ff)
    else MulNormal(f, a, b, rm, ff)
  }

  // ----- significands -----

  /** A normalized significand has its top bit at mantSize. */
  lemma NormMantBounds(f: Format, a: nat)
    requires !IsZero(f, a)
    ensures Pow2(f.mantSize) <= NormMant(f, a) < Pow2(f.mantSize + 1)
  {
    hide Shl, Shr, BitLen, ExpOf, Low;
    MantBits(f, a);
    var m := MantOf(f, a);
    if ExpOf(f, a) == 0 {
      BitLenBounds(m);
      var l := BitLen(m);
      var shift := f.mantSize - (l - 1);
      Pow2Shl(l - 1, shift);
      Pow2Shl(l, shift);
      ShlOrder(m, Pow2(l - 1), shift);
      ShlOrder(m, Pow2(l), shift);
    }
  }

  /** With its exponent it denotes the word. */
  lemma NormalizedWord(f: Format, a: nat)
    requires IsWord(f, a) && !IsZero(f, a)
    ensures f.Units(MagOf(f, a)) as real == At(NormMant(f, a), NormExp(f, a) - 1)
  {
    hide Shl, Shr, Low, At, BitLen, BinaryFormat.Units, ExpOf, MantOf;
    UnitsOfWord(f, a);
    MantBits(f, a);
    var u, e, m := f.Units(MagOf(f, a)), ExpOf(f, a), MantOf(f, a);
    if e == 0 {
      var shift := f.mantSize - (BitLen(m) - 1);
      AtShl(m, shift, 0 - shift);
    } else {
      AtShl(FullMant(f, a), e - 1, 0);
    }
    AtZero(u);
  }

  lemma TimesOrder(a: nat, b: nat, c: nat, d: nat)
    requires a <= c && b <= d
    ensures Times(a, b) <= Times(c, d)
    ensures a < c && b < d ==> Times(a, b) < Times(c, d)
  {
    MulNatMono(a, c, b);
    MulNatMono(b, d, c);
    assert b * c == c * b && d * c == c * d;
    if a < c && b < d {
      MulNatMono(a + 1, c, d);
      MulNatMono(b, d, a);
      assert (a + 1) * d == a * d + d && d * a == a * d && b * a == a * b;
    }
  }

  lemma TimesPow2(n: nat, k: nat)
    ensures Times(Pow2(n), Pow2(k)) == Pow2(n + k)
  {
    ShlMul(Pow2(n), k);
    Pow2Shl(n, k);
  }

  lemma TimesBounds(a: nat, b: nat, n: nat)
    requires Pow2(n) <= a < Pow2(n + 1) && Pow2(n) <= b < Pow2(n + 1)
    ensures Pow2(2 * n) <= Times(a, b) < Pow2(2 * n + 2)
  {
    hide Times, Pow2;
    TimesPow2(n, n);
    TimesPow2(n + 1, n + 1);
    TimesOrder(Pow2(n), Pow2(n), a, b);
    TimesOrder(a, b, Pow2(n + 1), Pow2(n + 1));
  }

  lemma Regroup(a: nat, p: nat, b: nat, q: nat)
    ensures Times(Times(a, p), Times(b, q)) == Times(Times(a, b), Times(p, q))
  {
    assert (a * p) * (b * q) == (a * b) * (p * q);
  }

  lemma ShlTimes(a: nat, b: nat, i: nat, j: nat)
    ensures Times(Shl(a, i), Shl(b, j)) == Shl(Times(a, b), i + j)
  {
    hide Pow2, Shl;
    ShlMul(a, i);
    ShlMul(b, j);
    ShlMul(Times(a, b), i + j);
    TimesPow2(i, j);
    Regroup(a, Pow2(i), b, Pow2(j));
  }

  /** A number of bits n + d shifted right by d, sticky bit included, has its top bit where it was. */
  lemma StickyRange(p: nat, d: nat, lo: nat, n: nat)
    requires Pow2(lo + d) <= p < Pow2(n + d) && n >= 1
    ensures Pow2(lo) <= OrBit(Shr(p, d), Low(p, d) != 0) < Pow2(n)
  {
    hide Shl, Shr, Low;
    ShrBound(p, d, n);
    Pow2Shl(lo, d);
    ShrOrder(p, d, Pow2(lo));
    Pow2Double(n - 1);
  }

  /** The sticky high word of the product of two significands has its top bit at FSize() - 3 or - 2. */
  lemma MulFits(f: Format, am: nat, bm: nat)
    requires Pow2(f.mantSize) <= am < Pow2(f.mantSize + 1) && Pow2(f.mantSize) <= bm < Pow2(f.mantSize + 1)
    ensures Pow2(f.FSize() - 3) <= MulMant(f, am, bm) < Pow2(f.FSize() - 1)
    ensures Clz(f, MulMant(f, am, bm)) >= 1
  {
    hide Shl, Shr, Low, BitLen, Pow2, Times;
    var d, p := 2 * f.RndSize() + 1, Times(am, bm);
    ShlTimes(am, bm, f.RndSize(), f.RndSize() + 1);
    TimesBounds(am, bm, f.mantSize);
    Pow2Shl(2 * f.mantSize, d);
    Pow2Shl(2 * f.mantSize + 2, d);
    ShlOrder(p, Pow2(2 * f.mantSize), d);
    ShlOrder(p, Pow2(2 * f.mantSize + 2), d);
    StickyRange(Shl(p, d), f.FSize(), f.FSize() - 3, f.FSize() - 1);
    ClzPositive(f, MulMant(f, am, bm));
  }

  // ----- the exact product -----

  /** |a * b| in units of the smallest subnormal. */
  ghost function ProductOf(f: Format, a: nat, b: nat): Magnitude {
    Plain(Scaled(Times(f.Units(MagOf(f, a)), f.Units(MagOf(f, b))) as real, f.UnitExp()))
  }

  lemma BiasIs(f: Format)
    ensures f.Bias() == Pow2(f.expSize - 1) - 1
  {
  }

  lemma TimesReal(m: nat, n: nat)
    ensures Times(m, n) as real == m as real * n as real
  {
  }

  /** Products of scaled numbers. */
  lemma AtProduct(m: nat, n: nat, s: int, t: int)
    ensures At(m, s) * At(n, t) == At(Times(m, n), s + t)
  {
    hide Scaled, Times;
    var y, z, p := m as real, n as real, Times(m, n) as real;
    TimesReal(m, n);
    var w := Scaled(z, t);
    ScaledMul(z, y, p, t);
    ScaledMul(y, w, Scaled(p, t), s);
    ScaledTwice(p, t, s);
  }

  /** The product of two numbers given by significand and exponent. */
  lemma ProductAt(f: Format, a: nat, b: nat)
    requires IsWord(f, a) && !IsZero(f, a) && IsWord(f, b) && !IsZero(f, b)
    ensures IsAt(ProductOf(f, a, b), Times(NormMant(f, a), NormMant(f, b)),
                 NormExp(f, a) + NormExp(f, b) - 2 + f.UnitExp())
  {
    hide Scaled, NormExp, NormMant, BinaryFormat.Units, BinaryFormat.UnitExp, Times;
    NormalizedWord(f, a);
    NormalizedWord(f, b);
    var ua, ub := f.Units(MagOf(f, a)), f.Units(MagOf(f, b));
    var am, bm, s, t := NormMant(f, a), NormMant(f, b), NormExp(f, a) - 1, NormExp(f, b) - 1;
    AtProduct(am, bm, s, t);
    TimesReal(ua, ub);
    ScaledTwice(Times(am, bm) as real, s + t, f.UnitExp());
  }

  lemma MulNormalCorrect(f: Format, a: nat, b: nat, rm: RoundingMode, ff: Flags)
    requires IsWord(f, a) && !IsZero(f, a) && IsWord(f, b) && !IsZero(f, b)
    ensures MulNormal(f, a, b, rm, ff) == Rounded(f, SignOf(f, a) != SignOf(f, b), rm, ff, ProductOf(f, a, b))
  {
    hide Shl, Shr, Low, At, NormExp, NormMant, Normalize, Rounded, ProductOf, SignOf, Agrees, BitLen, Times;
    NormMantBounds(f, a);
    NormMantBounds(f, b);
    var am, bm, x, r := NormMant(f, a), NormMant(f, b), ProductOf(f, a, b), f.RndSize();
    MulFits(f, am, bm);
    ProductAt(f, a, b);
    BiasIs(f);
    ShlTimes(am, bm, r, r + 1);
    var p, exp := Times(Shl(am, r), Shl(bm, r + 1)), NormExp(f, a) + NormExp(f, b) - Pow2(f.expSize - 1) + 2;
    var s := exp - 1 - r;
    UnitChange(x, Times(am, bm), s - f.FSize(), 2 * r + 1);
    AgreesExact(x, p, 0, s - f.FSize());
    AgreesSticky(x, p, 0, s - f.FSize(), f.FSize(), 1);
    Pow2Mono(f.mantSize + 2, f.FSize() - 3);
    NormalizeSticky(f, SignOf(f, a) != SignOf(f, b), exp, MulMant(f, am, bm), rm, ff, x);
  }

  /** Zero is rounded to zero without flags. */
  lemma RoundedZero(f: Format, sign: bool, rm: RoundingMode, ff: Flags)
    ensures Rounded(f, sign, rm, ff, Plain(0.0)) == (Pack(f, sign, 0, 0), ff)
  {
    var x := Plain(0.0);
    AtNonneg(0, 0 - f.RndSize());
    AgreesExact(x, 0, f.RndSize() - 1, 0 - f.RndSize());
    RoundPackZero(f, sign, 1, rm, ff, x);
    RoundZero(f, sign, 1, rm, ff);
    LowSmall(0, f.mantSize);
  }

  lemma ZeroUnits(f: Format, a: nat)
    requires IsWord(f, a)
    ensures IsZero(f, a) <==> f.Units(MagOf(f, a)) == 0
  {
    hide Shl, Shr, Low, BinaryFormat.Units, MagOf, ExpOf, MantOf;
    UnitsOfWord(f, a);
    if !IsZero(f, a) {
      assert FullMant(f, a) > 0;
      ShlOrder(0, FullMant(f, a), EffExp(f, a) - 1);
    }
  }

  /**
   For all finite a and b and every rounding mode, mul_sf returns the exact
   product correctly rounded, signed by the exclusive or of the signs.
   */
  lemma MulCorrect(f: Format, a: nat, b: nat, rm: RoundingMode, ff: Flags)
    requires IsWord(f, a) && IsWord(f, b) && IsFinite(f, a) && IsFinite(f, b)
    ensures MulSf(f, a, b, rm, ff) == Rounded(f, SignOf(f, a) != SignOf(f, b), rm, ff, ProductOf(f, a, b))
  {
    hide Shl, Shr, Low, MagOf, SignOf, ExpOf, MantOf, MulNormal, Rounded, BinaryFormat.Units;
    if IsZero(f, a) || IsZero(f, b) {
      ZeroUnits(f, a);
      ZeroUnits(f, b);
      AtNonneg(0, f.UnitExp());
      RoundedZero(f, SignOf(f, a) != SignOf(f, b), rm, ff);
    } else {
      MulNormalCorrect(f, a, b, rm, ff);
    }
  }
}
