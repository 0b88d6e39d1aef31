/**
 add_sf: operands are aligned with three guard bits and a sticky bit, added or
 subtracted, and normalized. The result is the exact sum, rounded once.
 */
module Addition {
  import opened Powers
  import opened Ieee
  import opened Words
  import opened Rounding

  /** The number a finite word denotes, in units of the smallest subnormal. */
  function SignedUnits(f: Format, a: nat): int {
    if SignOf(f, a) then 0 - f.Units(MagOf(f, a)) else f.Units(MagOf(f, a))
  }

  predicate IsFinite(f: Format, a: nat) {
    ExpOf(f, a) != f.ExpMask()
  }

  /** The significand with three guard bits. */
  function Guarded(f: Format, a: nat): nat {
    Shl(FullMant(f, a), 3)
  }

  /** Sum of finite a and b where |a| >= |b|. */
  function AddAligned(f: Format, a: nat, b: nat, rm: RoundingMode, ff: Flags): (nat, Flags)
    requires IsWord(f, a) && IsWord(f, b)
    requires MagOf(f, b) <= MagOf(f, a)
  {
    AlignedBounds(f, a, b);
    var am := Guarded(f, a);
    var bm := RshiftRnd(f, Guarded(f, b), EffExp(f, a) - EffExp(f, b));
    var exp := EffExp(f, a) + f.RndSize() - 3;
    if SignOf(f, a) == SignOf(f, b) then
      Normalize(f, SignOf(f, a), exp, am + bm, rm, ff)
    else
      Normalize(f, if am == bm then rm == RDN else SignOf(f, a), exp, am - bm, rm, ff)
  }

  function AddSf(f: Format, a: nat, b: nat, rm: RoundingMode, ff: Flags): (nat, Flags)
    requires IsWord(f, a) && IsWord(f, b)
  {
    var (a, b) := if MagOf(f, a) < MagOf(f, b) then (b, a) else (a, b);
    if ExpOf(f, a) == f.ExpMask() then
      if MantOf(f, a) != 0 then
        (QNan(f), if Shr(MantOf(f, a), f.mantSize - 1) == 0 || IsSigNan(f, b) then ff.Or(INVALID) else ff)
      else if ExpOf(f, b) == f.ExpMask() && SignOf(f, a) != SignOf(f, b) then (QNan(f), ff.Or(INVALID))
      else (a, ff)
    else AddAligned(f, a, b, rm, ff)
  }

  /** The word with its sign bit flipped. */
  function Negated(f: Format, b: nat): nat {
    SignBit(f, !SignOf(f, b)) + MagOf(f, b)
  }

  function SubSf(f: Format, a: nat, b: nat, rm: RoundingMode, ff: Flags): (nat, Flags)
    requires IsWord(f, a) && IsWord(f, b)
  {
    PackFields(f, !SignOf(f, b), MagOf(f, b));
    AddSf(f, a, Negated(f, b), rm, ff)
  }

  // ----- sums and differences with a sticky operand -----

  /** Adding a sticky right shift to an even number still agrees with the exact sum on even numbers. */
  lemma SumOn(r: nat, c: nat, d: nat, s: int, n: nat)
    requires r % 2 == 0 && n % 2 == 0
    ensures AgreesOn(Plain(At(r, s) + At(c, s - d)), r + OrBit(Shr(c, d), Low(c, d) != 0), n, s)
  {
    hide Shl, Shr, Low, At;
    AtNonneg(c, s - d);
    AtOrder(n, r, s);
    if n >= r {
      StickyOrder(c, d, n - r);
      AtOrder(c, Shl(n - r, d), s - d);
      AtShl(n - r, d, s - d);
      AtSum(r, n - r, s);
    }
  }

  lemma DifferenceOn(r: nat, c: nat, d: nat, s: int, n: nat)
    requires r % 2 == 0 && n % 2 == 0 && OrBit(Shr(c, d), Low(c, d) != 0) <= r
    ensures AgreesOn(Plain(At(r, s) - At(c, s - d)), r - OrBit(Shr(c, d), Low(c, d) != 0), n, s)
  {
    hide Shl, Shr, Low, At;
    AtNonneg(c, s - d);
    AtOrder(r, n, s);
    if n <= r {
      StickyOrder(c, d, r - n);
      AtOrder(c, Shl(r - n, d), s - d);
      AtShl(r - n, d, s - d);
      AtSum(n, r - n, s);
    }
  }

  lemma AtSum(m: nat, n: nat, s: int)
    ensures At(m + n, s) == At(m, s) + At(n, s)
  {
    ScaledSum(m as real, n as real, s);
    assert (m + n) as real == m as real + n as real;
  }

  lemma SumAgrees(r: nat, c: nat, d: nat, s: int)
    requires r % 2 == 0
    ensures Agrees(Plain(At(r, s) + At(c, s - d)), r + OrBit(Shr(c, d), Low(c, d) != 0), 1, s)
  {
    hide Shr, Low, At, AgreesOn;
    var x, m := Plain(At(r, s) + At(c, s - d)), r + OrBit(Shr(c, d), Low(c, d) != 0);
    forall k: nat ensures AgreesOn(x, m, Shl(k, 1), s) { SumOn(r, c, d, s, Shl(k, 1)); }
  }

  lemma DifferenceAgrees(r: nat, c: nat, d: nat, s: int)
    requires r % 2 == 0 && OrBit(Shr(c, d), Low(c, d) != 0) <= r
    ensures Agrees(Plain(At(r, s) - At(c, s - d)), r - OrBit(Shr(c, d), Low(c, d) != 0), 1, s)
  {
    hide Shr, Low, At, AgreesOn;
    var x, m := Plain(At(r, s) - At(c, s - d)), r - OrBit(Shr(c, d), Low(c, d) != 0);
    forall k: nat ensures AgreesOn(x, m, Shl(k, 1), s) { DifferenceOn(r, c, d, s, Shl(k, 1)); }
  }

  /** When the shift drops only zeros nothing is lost. */
  lemma ExactShift(c: nat, d: nat, s: int)
    requires Low(c, d) == 0
    ensures At(c, s - d) == At(Shr(c, d), s)
  {
    hide Shl, Shr, Low, At;
    ShrLow(c, d);
    AtShl(Shr(c, d), d, s - d);
  }

  // ----- alignment -----

  /** Shifting right by no more than was shifted left drops only zeros. */
  lemma LowOfShl(b: nat, k: nat, d: nat)
    requires d <= k
    ensures Low(Shl(b, k), d) == 0 && Shr(Shl(b, k), d) == Shl(b, k - d)
  {
    hide Shl, Shr, Low;
    ShlShl(b, k - d, d);
    SplitUnique(Shl(b, k), d, Shl(b, k - d), 0);
  }

  /** The smaller operand never has the larger exponent. */
  lemma AlignedExponents(f: Format, a: nat, b: nat)
    requires IsWord(f, a) && IsWord(f, b) && MagOf(f, b) <= MagOf(f, a)
    ensures EffExp(f, b) <= EffExp(f, a)
    ensures EffExp(f, b) == EffExp(f, a) ==> FullMant(f, b) <= FullMant(f, a)
  {
    hide Shl, Shr, Low;
    WordFields(f, a);
    WordFields(f, b);
    var ea, eb := ExpOf(f, a), ExpOf(f, b);
    ShlSucc(ea, f.mantSize);
    ShlOrder(eb, ea + 1, f.mantSize);
    assert eb <= ea;
  }

  lemma GuardedBounds(f: Format, a: nat)
    requires IsWord(f, a)
    ensures Guarded(f, a) < Pow2(f.mantSize + 4) && Guarded(f, a) % 2 == 0
    ensures EffExp(f, a) > 1 ==> Guarded(f, a) >= Pow2(f.mantSize + 3)
    ensures Pow2(f.mantSize + 5) <= Pow2(f.FSize() - 1)
  {
    UnitsOfWord(f, a);
    ShlMantissa(f.mantSize, FullMant(f, a));
    Pow2Mono(f.mantSize + 5, f.FSize() - 1);
  }

  lemma ShlMantissa(d: nat, n: nat)
    requires n < 2 * Pow2(d)
    ensures Shl(n, 3) < Pow2(d + 4) && Shl(n, 3) % 2 == 0
    ensures n >= Pow2(d) ==> Shl(n, 3) >= Pow2(d + 3)
  {
    ShlOrder(n, Pow2(d + 1), 3);
    Pow2Shl(d + 1, 3);
    ShlOrder(n, Pow2(d), 3);
    Pow2Shl(d, 3);
  }

  /** Shifting right by at least one bit leaves a number, sticky bit included, no larger than half the range. */
  lemma StickyBound(c: nat, d: nat, n: nat)
    requires c < Pow2(d + n)
    ensures OrBit(Shr(c, d), Low(c, d) != 0) <= Pow2(n)
  {
    ShrBound(c, d, n);
  }

  /** The facts that make the aligned sum and difference fit, with three bits to spare when bits were lost. */
  lemma AlignedBounds(f: Format, a: nat, b: nat)
    requires IsWord(f, a) && IsWord(f, b) && MagOf(f, b) <= MagOf(f, a)
    ensures EffExp(f, b) <= EffExp(f, a)
    ensures var d, am := EffExp(f, a) - EffExp(f, b), Guarded(f, a);
            var bm := RshiftRnd(f, Guarded(f, b), d);
            && bm == OrBit(Shr(Guarded(f, b), d), Low(Guarded(f, b), d) != 0)
            && bm <= am && am + bm < Pow2(f.FSize() - 1)
            && Clz(f, am + bm) >= 1 && Clz(f, am - bm) >= 1
            && (Low(Guarded(f, b), d) != 0 ==> am - bm >= Pow2(f.mantSize + 2))
  {
    hide Shl, Shr, Low, BitLen, Guarded, EffExp, FullMant, RshiftRnd;
    AlignedExponents(f, a, b);
    GuardedBounds(f, a);
    GuardedBounds(f, b);
    var d, am, gb := EffExp(f, a) - EffExp(f, b), Guarded(f, a), Guarded(f, b);
    assert IsWord(f, gb) by { Pow2Mono(f.mantSize + 4, f.FSize()); }
    RshiftRndIs(f, gb, d);
    var bm := RshiftRnd(f, gb, d);
    AlignedSmaller(f, a, b);
    if Low(gb, d) != 0 {
      AlignedLoss(f, a, b);
    }
    ClzPositive(f, am + bm);
    ClzPositive(f, am - bm);
  }

  lemma AlignedSmaller(f: Format, a: nat, b: nat)
    requires IsWord(f, a) && IsWord(f, b) && MagOf(f, b) <= MagOf(f, a)
    requires EffExp(f, b) <= EffExp(f, a)
    ensures var d := EffExp(f, a) - EffExp(f, b);
            OrBit(Shr(Guarded(f, b), d), Low(Guarded(f, b), d) != 0) <= Guarded(f, a)
  {
    hide Shl, Shr, Low, FullMant, EffExp;
    AlignedExponents(f, a, b);
    GuardedBounds(f, a);
    GuardedBounds(f, b);
    var d := EffExp(f, a) - EffExp(f, b);
    if d == 0 {
      ShlOrder(FullMant(f, a), FullMant(f, b), 3);
      LowOfShl(FullMant(f, b), 3, 0);
    } else {
      EffExpPositive(f, b);
      Pow2Mono(f.mantSize + 4, d + (f.mantSize + 3));
      StickyBound(Guarded(f, b), d, f.mantSize + 3);
    }
  }

  /** Bits are lost only by a shift of four or more, and then the difference keeps all but one leading bit. */
  lemma AlignedLoss(f: Format, a: nat, b: nat)
    requires IsWord(f, a) && IsWord(f, b) && MagOf(f, b) <= MagOf(f, a)
    requires EffExp(f, b) <= EffExp(f, a)
    requires Low(Guarded(f, b), EffExp(f, a) - EffExp(f, b)) != 0
    ensures var d := EffExp(f, a) - EffExp(f, b);
            OrBit(Shr(Guarded(f, b), d), true) + Pow2(f.mantSize + 2) <= Guarded(f, a)
  {
    hide Shl, Shr, Low, FullMant, EffExp;
    GuardedBounds(f, a);
    GuardedBounds(f, b);
    UnitsOfWord(f, b);
    var d := EffExp(f, a) - EffExp(f, b);
    if d <= 3 {
      LowOfShl(FullMant(f, b), 3, d);
    }
    Pow2Mono(f.mantSize + 4, d + f.mantSize);
    StickyBound(Guarded(f, b), d, f.mantSize);
    assert EffExp(f, b) >= 1 by { EffExpPositive(f, b); }
    assert Pow2(f.mantSize + 3) == 2 * Pow2(f.mantSize + 2);
    Pow2Mono(f.mantSize, f.mantSize + 2);
  }

  lemma EffExpPositive(f: Format, a: nat)
    ensures EffExp(f, a) >= 1
  {
  }

  // ----- the exact sum -----

  /** The magnitude of an integer number of units. */
  ghost function Abs(s: int): Magnitude {
    Plain((if s < 0 then -s else s) as real)
  }

  /** Sign of a sum: that of the exact sum; a zero is negative if both operands are, or by cancellation in RDN. */
  ghost predicate SumSign(f: Format, rm: RoundingMode, a: nat, b: nat) {
    var s := SignedUnits(f, a) + SignedUnits(f, b);
    if s != 0 then s < 0
    else if SignOf(f, a) == SignOf(f, b) then SignOf(f, a)
    else rm == RDN
  }

  /** A word in units of its guarded significand. */
  lemma GuardedUnits(f: Format, a: nat)
    requires IsWord(f, a)
    ensures f.Units(MagOf(f, a)) as real == At(Guarded(f, a), EffExp(f, a) - 4)
  {
    hide Shl, At, FullMant, EffExp, BinaryFormat.Units;
    UnitsOfWord(f, a);
    EffExpPositive(f, a);
    var e: int, m := EffExp(f, a), FullMant(f, a);
    AtShl(m, 3, e - 4);
    AtShl(m, e - 1, 0);
    AtZero(f.Units(MagOf(f, a)));
  }

  lemma AtZero(n: nat)
    ensures At(n, 0) == n as real
  {
  }

  lemma AlignedSum(f: Format, a: nat, b: nat, rm: RoundingMode, ff: Flags)
    requires IsWord(f, a) && IsWord(f, b) && MagOf(f, b) <= MagOf(f, a)
    requires SignOf(f, a) == SignOf(f, b)
    ensures AddAligned(f, a, b, rm, ff) ==
            Rounded(f, SignOf(f, a), rm, ff, Plain((f.Units(MagOf(f, a)) + f.Units(MagOf(f, b))) as real))
  {
    hide Shl, Shr, Low, At, Guarded, FullMant, EffExp, RshiftRnd, Normalize, Rounded, BinaryFormat.Units, Agrees;
    AlignedBounds(f, a, b);
    GuardedBounds(f, a);
    GuardedUnits(f, a);
    GuardedUnits(f, b);
    var d, am, gb := EffExp(f, a) - EffExp(f, b), Guarded(f, a), Guarded(f, b);
    var s := EffExp(f, a) - 4;
    var x := Plain(At(am, s) + At(gb, s - d));
    var bm, exp := RshiftRnd(f, gb, d), EffExp(f, a) + f.RndSize() - 3;
    assert x == Plain((f.Units(MagOf(f, a)) + f.Units(MagOf(f, b))) as real);
    if Low(gb, d) == 0 {
      ExactShift(gb, d, s);
      AtSum(am, Shr(gb, d), s);
      NormalizeExact(f, SignOf(f, a), exp, am + bm, rm, ff, x);
    } else {
      SumAgrees(am, gb, d, s);
      NormalizeSticky(f, SignOf(f, a), exp, am + bm, rm, ff, x);
    }
  }

  lemma AlignedDifference(f: Format, a: nat, b: nat, rm: RoundingMode, ff: Flags)
    requires IsWord(f, a) && IsWord(f, b) && MagOf(f, b) <= MagOf(f, a)
    requires SignOf(f, a) != SignOf(f, b)
    ensures f.Units(MagOf(f, b)) <= f.Units(MagOf(f, a))
    ensures var u := f.Units(MagOf(f, a)) - f.Units(MagOf(f, b));
            AddAligned(f, a, b, rm, ff) ==
            Rounded(f, if u == 0 then rm == RDN else SignOf(f, a), rm, ff, Plain(u as real))
  {
    hide Shl, Shr, Low, At, Guarded, FullMant, EffExp, RshiftRnd, Normalize, Rounded, BinaryFormat.Units, Agrees;
    AlignedBounds(f, a, b);
    GuardedBounds(f, a);
    GuardedUnits(f, a);
    GuardedUnits(f, b);
    UnitsMono(f, MagOf(f, b), MagOf(f, a));
    var d, am, gb := EffExp(f, a) - EffExp(f, b), Guarded(f, a), Guarded(f, b);
    var s := EffExp(f, a) - 4;
    var x := Plain(At(am, s) - At(gb, s - d));
    var bm, exp := RshiftRnd(f, gb, d), EffExp(f, a) + f.RndSize() - 3;
    var u := f.Units(MagOf(f, a)) - f.Units(MagOf(f, b));
    assert x == Plain(u as real);
    var sign := if am == bm then rm == RDN else SignOf(f, a);
    if Low(gb, d) == 0 {
      ExactShift(gb, d, s);
      AtSum(am - bm, bm, s);
      AtOrder(bm, am, s);
      NormalizeExact(f, sign, exp, am - bm, rm, ff, x);
    } else {
      DifferenceAgrees(am, gb, d, s);
      assert u != 0 by {
        DifferenceOn(am, gb, d, s, 0);
        AtNonneg(0, s);
      }
      NormalizeSticky(f, sign, exp, am - bm, rm, ff, x);
    }
  }

  /**
   For all finite a and b and every rounding mode, add_sf returns the exact sum
   correctly rounded, with the flags of that rounding and the right sign of zero.
   */
  lemma AddCorrect(f: Format, a: nat, b: nat, rm: RoundingMode, ff: Flags)
    requires IsWord(f, a) && IsWord(f, b) && IsFinite(f, a) && IsFinite(f, b)
    ensures AddSf(f, a, b, rm, ff) ==
            Rounded(f, SumSign(f, rm, a, b), rm, ff, Abs(SignedUnits(f, a) + SignedUnits(f, b)))
  {
    hide Shl, Shr, Low, MagOf, SignOf, ExpOf, AddAligned, Rounded, BinaryFormat.Units;
    if MagOf(f, a) < MagOf(f, b) {
      UnitsMono(f, MagOf(f, a), MagOf(f, b));
      if SignOf(f, a) == SignOf(f, b) { AlignedSum(f, b, a, rm, ff); } else { AlignedDifference(f, b, a, rm, ff); }
    } else {
      UnitsMono(f, MagOf(f, b), MagOf(f, a));
      if SignOf(f, a) == SignOf(f, b) { AlignedSum(f, a, b, rm, ff); } else { AlignedDifference(f, a, b, rm, ff); }
    }
  }

  lemma NegatedIs(f: Format, b: nat)
    requires IsWord(f, b) && IsFinite(f, b)
    ensures IsWord(f, Negated(f, b)) && IsFinite(f, Negated(f, b))
    ensures SignOf(f, Negated(f, b)) == !SignOf(f, b) && SignedUnits(f, Negated(f, b)) == 0 - SignedUnits(f, b)
  {
    hide Shr, Low, Shl, Pow2, BinaryFormat.Units;
    WordFields(f, b);
    PackFields(f, !SignOf(f, b), MagOf(f, b));
    WordFields(f, Negated(f, b));
    FiniteBelowInf(f, b);
    FiniteBelowInf(f, Negated(f, b));
  }

  /** Subtraction is the exact difference correctly rounded; equal operands give +0, or -0 in RDN. */
  lemma SubCorrect(f: Format, a: nat, b: nat, rm: RoundingMode, ff: Flags)
    requires IsWord(f, a) && IsWord(f, b) && IsFinite(f, a) && IsFinite(f, b)
    ensures var s := SignedUnits(f, a) - SignedUnits(f, b);
            var sign := if s != 0 then s < 0 else if SignOf(f, a) != SignOf(f, b) then SignOf(f, a) else rm == RDN;
            SubSf(f, a, b, rm, ff) == Rounded(f, sign, rm, ff, Abs(s))
  {
    hide Shr, Low, Shl, Pow2, BinaryFormat.Units, Rounded, AddSf, IsWord, IsFinite, SignedUnits, SignOf;
    NegatedIs(f, b);
    AddCorrect(f, a, Negated(f, b), rm, ff);
  }
}
