/**
 div_sf: a quotient of the normalized significands with a sticky bit for the
 remainder. The result is the exact quotient, rounded once. Also the bit-serial
 divider that stands in for a double-width type.
 */
module Division {
  import opened Powers
  import opened Ieee
  import opened Words
  import opened Rounding
  import opened Addition
  import opened Multiplication

  /** The quotient of two significands, with a sticky low bit. */
  function DivMant(f: Format, am: nat, bm: nat): nat
    requires bm > 0
  {
    var n, d := Shl(am, f.FSize()), Shl(bm, 2);
    OrBit(Quotient(n, d), Remainder(n, d) != 0)
  }

  /** Quotient of nonzero finite a and b. */
  function DivNormal(f: Format, a: nat, b: nat, rm: RoundingMode, ff: Flags): (nat, Flags)
    requires !IsZero(f, a) && !IsZero(f, b)
  {
    NormMantBounds(f, a);
    NormMantBounds(f, b);
    DivFits(f, NormMant(f, a), NormMant(f, b));
    var exp := NormExp(f, a) - NormExp(f, b) + Pow2(f.expSize - 1) - 1;
    Normalize(f, SignOf(f, a) != SignOf(f, b), exp, DivMant(f, NormMant(f, a), NormMant(f, b)), rm, ff)
  }

  function DivSf(f: Format, a: nat, b: nat, rm: RoundingMode, ff: Flags): (nat, Flags)
    requires IsWord(f, a) && IsWord(f, b)
  {
    var sign := SignOf(f, a) != SignOf(f, b);
    var nanFlags := if IsSigNan(f, a) || IsSigNan(f, b) then ff.Or(INVALID) else ff;
    if ExpOf(f, a) == f.ExpMask() then
      if MantOf(f, a) != 0 || IsNan(f, b) then (QNan(f), nanFlags)
      else if ExpOf(f, b) == f.ExpMask() then (QNan(f), ff.Or(INVALID))
      else (Pack(f, sign, f.ExpMask(), 0), ff)
    else if ExpOf(f, b) == f.ExpMask() then
      if MantOf(f, b) != 0 then (QNan(f), nanFlags) else (Pack(f, sign, 0, 0), ff)
    else if IsZero(f, b) then
      if IsZero(f, a) then (QNan(f), ff.Or(INVALID)) else (Pack(f, sign, f.ExpMask(), 0), ff.Or(DIVIDE_BY_ZERO))
    else if IsZero(f, a) then (Pack(f, sign, 0, 0), ff)
    else DivNormal(f, a, b, rm, ff)
  }

  /** The quotient of two significands has its top bit at FSize() - 3 or - 2. */
  lemma DivFits(f: Format, am: nat, bm: nat)
    requires Pow2(f.mantSize) <= am < Pow2(f.mantSize + 1) && Pow2(f.mantSize) <= bm < Pow2(f.mantSize + 1)
    ensures Pow2(f.FSize() - 3) <= DivMant(f, am, bm) < Pow2(f.FSize() - 1)
    ensures Clz(f, DivMant(f, am, bm)) >= 1
  {
    hide Shl, BitLen, Pow2, Times, Quotient, Remainder;
    var n, d, k := Shl(am, f.FSize()), Shl(bm, 2), f.FSize();
    Pow2Double(f.mantSize);
    Pow2Double(k - 2);
    Pow2Times(k - 3, d);
    Pow2Times(k - 1, d);
    QuotientRange(am, bm, k);
    DivOrder(n, d, Pow2(k - 3));
    DivOrder(n, d, Pow2(k - 1));
    ClzPositive(f, DivMant(f, am, bm));
  }

  lemma QuotientRange(am: nat, bm: nat, k: nat)
    requires k >= 3 && bm < 2 * am && am < 2 * bm
    ensures Shl(Shl(bm, 2), k - 3) <= Shl(am, k) < Shl(Shl(bm, 2), k - 1)
  {
    hide Shl;
    ShlShl(bm, 2, k - 3);
    ShlShl(bm, 2, k - 1);
    ShlDouble(am, k - 1);
    ShlDouble(bm, k);
    ShlOrder(bm, 2 * am, k - 1);
    ShlOrder(am, 2 * bm, k);
  }

  // ----- the exact quotient -----

  /** |a / b| in units of the smallest subnormal. */
  ghost function QuotientOf(f: Format, a: nat, b: nat): Magnitude
    requires f.Units(MagOf(f, b)) != 0
  {
    Plain(Scaled(f.Units(MagOf(f, a)) as real / f.Units(MagOf(f, b)) as real, -f.UnitExp()))
  }

  lemma RatioOrder(a: real, b: real, y: real)
    requires b > 0.0
    ensures a / b < y <==> a < y * b
    ensures a / b == y <==> a == y * b
  {
    var q := a / b;
    assert q * b == a;
    if q < y { assert (y - q) * b > 0.0; }
    if q > y { assert (q - y) * b > 0.0; }
  }

  lemma AtPositive(n: nat, s: int)
    requires n > 0
    ensures At(n, s) > 0.0
  {
    AtOrder(0, n, s);
    AtNonneg(0, s);
  }

  /** Comparing a ratio of scaled numbers with k units of 2^s is comparing shifted integers. */
  lemma RatioOn(am: nat, bm: nat, ea: int, eb: int, t: int, s: int, w: nat, k: nat)
    requires bm > 0 && s + eb - 2 == ea + t - w
    ensures At(bm, eb) > 0.0
    ensures var x := Plain(Scaled(At(am, ea) / At(bm, eb), t));
            && (BelowAt(x, k, s) <==> Shl(am, w) < Times(k, Shl(bm, 2)))
            && (IsAt(x, k, s) <==> Shl(am, w) == Times(k, Shl(bm, 2)))
  {
    hide Shl, Times, Scaled;
    AtPositive(bm, eb);
    var a, b, y := At(am, ea), At(bm, eb), At(k, s);
    RatioOrder(a, b, Scaled(y, 0 - t));
    ScaledOrder(a / b, Scaled(y, 0 - t), t);
    ScaledTwice(y, 0 - t, t);
    assert Scaled(y, 0) == y by { ScaledNone(y); }
    ScaledTwice(k as real, s, 0 - t);
    AtProduct(k, bm, s - t, eb);
    // a < y * 2^-t * b in whole units of 2^(ea - w)
    AtShl(am, w, ea - w);
    AtShl(Times(k, bm), 2, s - t + eb - 2);
    TimesShl(k, bm, 2);
    AtOrder(Shl(am, w), Times(k, Shl(bm, 2)), ea - w);
  }

  lemma ScaledNone(y: real)
    ensures Scaled(y, 0) == y
  {
  }

  lemma TimesShl(k: nat, b: nat, d: nat)
    ensures Times(k, Shl(b, d)) == Shl(Times(k, b), d)
  {
    ShlTimes(k, b, 0, d);
  }

  /** A sticky quotient agrees on even numbers with the ratio it was divided from. */
  lemma RatioAgrees(am: nat, bm: nat, ea: int, eb: int, t: int, s: int, w: nat)
    requires bm > 0 && s + eb - 2 == ea + t - w
    ensures At(bm, eb) > 0.0
    ensures var n, d := Shl(am, w), Shl(bm, 2);
            Agrees(Plain(Scaled(At(am, ea) / At(bm, eb), t)), OrBit(Quotient(n, d), Remainder(n, d) != 0), 1, s)
  {
    hide Shl, Times, Scaled, At, Quotient, Remainder, BelowAt, IsAt;
    AtPositive(bm, eb);
    var n, d := Shl(am, w), Shl(bm, 2);
    var x, m := Plain(Scaled(At(am, ea) / At(bm, eb), t)), OrBit(Quotient(n, d), Remainder(n, d) != 0);
    forall k: nat ensures AgreesOn(x, m, Shl(k, 1), s) {
      RatioOn(am, bm, ea, eb, t, s, w, Shl(k, 1));
      DivOrder(n, d, Shl(k, 1));
      ShlDouble(k, 0);
    }
  }

  lemma DivNormalCorrect(f: Format, a: nat, b: nat, rm: RoundingMode, ff: Flags)
    requires IsWord(f, a) && !IsZero(f, a) && IsWord(f, b) && !IsZero(f, b)
    ensures f.Units(MagOf(f, b)) != 0
    ensures DivNormal(f, a, b, rm, ff) == Rounded(f, SignOf(f, a) != SignOf(f, b), rm, ff, QuotientOf(f, a, b))
  {
    hide Shl, Scaled, At, NormExp, NormMant, Normalize, Rounded, SignOf, BitLen, Times, Pow2, MagOf, BinaryFormat.Units,
         Agrees;
    ZeroUnits(f, b);
    NormMantBounds(f, a);
    NormMantBounds(f, b);
    NormalizedWord(f, a);
    NormalizedWord(f, b);
    BiasIs(f);
    var am, bm, x := NormMant(f, a), NormMant(f, b), QuotientOf(f, a, b);
    DivFits(f, am, bm);
    var exp := NormExp(f, a) - NormExp(f, b) + Pow2(f.expSize - 1) - 1;
    RatioAgrees(am, bm, NormExp(f, a) - 1, NormExp(f, b) - 1, -f.UnitExp(), exp - 1 - f.RndSize(), f.FSize());
    Pow2Mono(f.mantSize + 2, f.FSize() - 3);
    NormalizeSticky(f, SignOf(f, a) != SignOf(f, b), exp, DivMant(f, am, bm), rm, ff, x);
  }

  /**
   For all finite a and nonzero finite b and every rounding mode, div_sf returns
   the exact quotient correctly rounded.
   */
  lemma DivCorrect(f: Format, a: nat, b: nat, rm: RoundingMode, ff: Flags)
    requires IsWord(f, a) && IsWord(f, b) && IsFinite(f, a) && IsFinite(f, b) && !IsZero(f, b)
    ensures f.Units(MagOf(f, b)) != 0
    ensures DivSf(f, a, b, rm, ff) == Rounded(f, SignOf(f, a) != SignOf(f, b), rm, ff, QuotientOf(f, a, b))
  {
    hide Shl, Shr, Low, MagOf, SignOf, ExpOf, MantOf, DivNormal, Rounded, BinaryFormat.Units, Scaled;
    ZeroUnits(f, b);
    if IsZero(f, a) {
      ZeroUnits(f, a);
      AtNonneg(0, -f.UnitExp());
      assert 0.0 / f.Units(MagOf(f, b)) as real == 0.0;
      RoundedZero(f, SignOf(f, a) != SignOf(f, b), rm, ff);
    } else {
      DivNormalCorrect(f, a, b, rm, ff);
    }
  }
}
