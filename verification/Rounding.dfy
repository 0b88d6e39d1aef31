/**
 Rounding a normalized internal mantissa into a packed word, and the proof that
 it is the rounding of IEEE 754 whenever the mantissa agrees with the exact
 result on the multiples of half a unit in the last place.
 */
module Rounding {
  import opened Powers
  import opened Ieee
  import opened Words

  // ----- rounding and packing -----

  /** Right shift that keeps whether anything nonzero was shifted out, in the low bit. */
  function RshiftRnd(f: Format, a: nat, d: nat): nat {
    if d == 0 then a
    else if d >= f.FSize() then (if a != 0 then 1 else 0)
    else OrBit(Shr(a, d), Low(a, d) != 0)
  }

  function Addend(f: Format, sign: bool, rm: RoundingMode): nat {
    match rm
    case RNE => Pow2(f.RndSize() - 1)
    case RMM => Pow2(f.RndSize() - 1)
    case RTZ => 0
    case RDN => if sign then Pow2(f.RndSize()) - 1 else 0
    case RUP => if sign then 0 else Pow2(f.RndSize()) - 1
  }

  /** The mantissa without its spare bits, after adding the addend; halfway goes to even in RNE. */
  function RoundMant(f: Format, sign: bool, mant: nat, rm: RoundingMode): nat {
    var m := Shr(mant + Addend(f, sign, rm), f.RndSize());
    if rm == RNE && Low(mant, f.RndSize()) == Pow2(f.RndSize() - 1) then m - m % 2 else m
  }

  /** Carry into the exponent, detect a subnormal or an overflow, and pack. */
  function PackRounded(f: Format, sign: bool, exp: nat, m: nat, chops: bool, ff: Flags): (nat, Flags)
    requires exp >= 1
  {
    var e := exp + Shr(m, f.mantSize + 1);
    if m < Pow2(f.mantSize) then (Pack(f, sign, 0, m), ff)
    else if e >= f.ExpMask() then
      var ff' := ff.(overflow := true, inexact := true);
      if chops then (Pack(f, sign, f.ExpMask() - 1, Pow2(f.mantSize) - 1), ff')
      else (Pack(f, sign, f.ExpMask(), 0), ff')
    else (Pack(f, sign, e, m), ff)
  }

  /** The flags that round_pack_sf adds before packing. */
  function RaiseFlags(ff: Flags, tiny: bool, inexact: bool): Flags {
    var ff1 := if tiny && inexact then ff.(underflow := true) else ff;
    if inexact then ff1.(inexact := true) else ff1
  }

  /** mant has its top bit at FSize() - 2, or is zero; exp is its biased exponent. */
  function RoundPack(f: Format, sign: bool, exp: int, mant: nat, rm: RoundingMode, ff: Flags): (nat, Flags)
  {
    var addend := Addend(f, sign, rm);
    var isSubnormal := exp < 0 || (exp == 0 && mant + addend < Pow2(f.FSize() - 1));
    var mant' := if exp <= 0 then RshiftRnd(f, mant, 1 - exp) else mant;
    var exp' := if exp <= 0 then 1 else exp;
    var inexact := Low(mant', f.RndSize()) != 0;
    PackRounded(f, sign, exp', RoundMant(f, sign, mant', rm), addend == 0, RaiseFlags(ff, isSubnormal, inexact))
  }

  /** mant has at most FSize() - 1 bits. */
  function Normalize(f: Format, sign: bool, exp: int, mant: nat, rm: RoundingMode, ff: Flags): (nat, Flags)
    requires Clz(f, mant) >= 1
  {
    var shift := Clz(f, mant) - 1;
    RoundPack(f, sign, exp - shift, ShlW(f, mant, shift), rm, ff)
  }

  /** The double word mant1:mant0 shifted left and reduced to one word with a sticky low bit. */
  function Collapse(f: Format, mant1: nat, mant0: nat, shift: nat): nat {
    if shift == 0 then OrBit(mant1, mant0 != 0)
    else if shift < f.FSize() then
      OrBit(ShlW(f, mant1, shift) + Shr(mant0, f.FSize() - shift), ShlW(f, mant0, shift) != 0)
    else ShlW(f, mant0, shift - f.FSize())
  }

  /** Normalize for a double word whose high word has at most FSize() - 1 bits. */
  function Normalize2(f: Format, sign: bool, exp: int, mant1: nat, mant0: nat, rm: RoundingMode, ff: Flags)
    : (nat, Flags)
    requires Clz(f, mant1) >= 1 && Clz(f, mant0) >= 0
  {
    var l := if mant1 == 0 then f.FSize() + Clz(f, mant0) else Clz(f, mant1);
    var shift := l - 1;
    RoundPack(f, sign, exp - shift, Collapse(f, mant1, mant0, shift), rm, ff)
  }

  // ----- a mantissa that stands for an exact result -----

  ghost predicate BelowAt(x: Magnitude, n: nat, s: int) {
    x.Below(At(n, s))
  }

  ghost predicate IsAt(x: Magnitude, n: nat, s: int) {
    x.Is(At(n, s))
  }

  /** In units of 2^s, m compares with n as x does. */
  ghost predicate AgreesOn(x: Magnitude, m: nat, n: nat, s: int) {
    (BelowAt(x, n, s) <==> m < n) && (IsAt(x, n, s) <==> m == n)
  }

  /** In units of 2^s, m compares with every multiple of 2^t as x does. */
  ghost predicate Agrees(x: Magnitude, m: nat, t: nat, s: int) {
    forall k: nat :: AgreesOn(x, m, Shl(k, t), s)
  }

  lemma ExactOn(x: Magnitude, m: nat, n: nat, s: int)
    requires IsAt(x, m, s)
    ensures AgreesOn(x, m, n, s)
  {
    var y, z := At(m, s), At(n, s);
    AtNonneg(m, s);
    AtNonneg(n, s);
    AtOrder(m, n, s);
    AtOrder(n, m, s);
    if m < n {
      IsBetween(x, y, z);
      BelowMono(x, z, z);
    } else if n < m {
      if x.Below(z) { BelowMono(x, z, y); }
      if x.Is(z) { IsBetween(x, z, y); }
    } else {
      IsBetween(x, y, y + 1.0);
    }
  }

  lemma AgreesExact(x: Magnitude, m: nat, t: nat, s: int)
    requires IsAt(x, m, s)
    ensures Agrees(x, m, t, s)
  {
    forall k: nat ensures AgreesOn(x, m, Shl(k, t), s) { ExactOn(x, m, Shl(k, t), s); }
  }

  lemma AgreesCoarser(x: Magnitude, m: nat, t: nat, t': nat, s: int)
    requires t <= t' && Agrees(x, m, t, s)
    ensures Agrees(x, m, t', s)
  {
    forall k: nat ensures AgreesOn(x, m, Shl(k, t'), s) {
      ShlShl(k, t' - t, t);
      assert AgreesOn(x, m, Shl(Shl(k, t' - t), t), s);
    }
  }

  /** Comparing with 2^d-fold counts of the smaller unit is comparing with counts of the larger. */
  lemma UnitChange(x: Magnitude, n: nat, s: int, d: nat)
    ensures BelowAt(x, Shl(n, d), s) <==> BelowAt(x, n, s + d)
    ensures IsAt(x, Shl(n, d), s) <==> IsAt(x, n, s + d)
  {
    AtShl(n, d, s);
  }

  lemma ShlOn(x: Magnitude, m: nat, n: nat, s: int, d: nat)
    requires AgreesOn(x, m, n, s)
    ensures AgreesOn(x, Shl(m, d), Shl(n, d), s - d)
  {
    UnitChange(x, n, s - d, d);
    ShlOrder(m, n, d);
  }

  /** Shifting left moves agreement along with the unit. */
  lemma AgreesShl(x: Magnitude, m: nat, t: nat, s: int, d: nat)
    requires Agrees(x, m, t, s)
    ensures Agrees(x, Shl(m, d), t + d, s - d)
  {
    var t', s' := t + d, s - d;
    forall k: nat ensures AgreesOn(x, Shl(m, d), Shl(k, t'), s') {
      ShlOn(x, m, Shl(k, t), s, d);
      ShlShl(k, t, d);
    }
  }

  lemma RshiftRndIs(f: Format, a: nat, d: nat)
    requires IsWord(f, a)
    ensures RshiftRnd(f, a, d) == OrBit(Shr(a, d), Low(a, d) != 0)
  {
    if d >= f.FSize() {
      Pow2Mono(f.FSize(), d);
      LowSmall(a, d);
    }
  }

  /** A sticky quotient compares with an even number as the dividend does with its multiple. */
  lemma StickyOrder(m: nat, d: nat, n: nat)
    requires n % 2 == 0
    ensures m < Shl(n, d) <==> OrBit(Shr(m, d), Low(m, d) != 0) < n
    ensures m == Shl(n, d) <==> OrBit(Shr(m, d), Low(m, d) != 0) == n
  {
    ShrOrder(m, d, n);
  }

  lemma StickyOn(x: Magnitude, m: nat, n: nat, s: int, d: nat)
    requires n % 2 == 0
    requires AgreesOn(x, m, Shl(n, d), s)
    ensures AgreesOn(x, OrBit(Shr(m, d), Low(m, d) != 0), n, s + d)
  {
    UnitChange(x, n, s, d);
    StickyOrder(m, d, n);
  }

  /** Shifting right with a sticky bit is round-to-odd: it keeps agreement on even multiples. */
  lemma AgreesSticky(x: Magnitude, m: nat, t: nat, s: int, d: nat, t': nat)
    requires Agrees(x, m, t, s)
    requires t' >= 1 && t' + d >= t
    ensures Agrees(x, OrBit(Shr(m, d), Low(m, d) != 0), t', s + d)
  {
    AgreesCoarser(x, m, t, t' + d, s);
    var r, s' := OrBit(Shr(m, d), Low(m, d) != 0), s + d;
    forall k: nat ensures AgreesOn(x, r, Shl(k, t'), s') {
      ShlShl(k, t' - 1, 1);
      ShlShl(k, t', d);
      StickyOn(x, m, Shl(k, t'), s, d);
    }
  }

  // ----- rounding a mantissa that agrees with x -----

  /** Pattern of the exponent e >= 1 with n as full or subnormal significand, before any carry. */
  ghost function PatternAt(f: Format, e: nat, n: nat): nat
    requires e >= 1
  {
    Shl(e - 1, f.mantSize) + n
  }

  lemma HalfwayAt(n: nat, s: int)
    ensures At(n, s + 1) + At(n + 1, s + 1) == 2.0 * At(2 * n + 1, s)
  {
    ScaledUp(n as real, s);
    ScaledUp((n + 1) as real, s);
    ScaledSum(n as real, (n + 1) as real, s);
    assert n as real + (n + 1) as real == (2 * n + 1) as real;
  }

  /** In units of 2^(e-1) a pattern and its successor are n and n + 1. */
  lemma PatternValue(f: Format, e: nat, n: nat)
    requires e >= 1 && n < 2 * Pow2(f.mantSize) && (e == 1 || n >= Pow2(f.mantSize))
    ensures f.Units(PatternAt(f, e, n)) as real == At(n, e - 1)
    ensures f.Units(PatternAt(f, e, n) + 1) as real == At(n + 1, e - 1)
  {
    hide Shl, BinaryFormat.Units;
    UnitsAt(f, e, n);
    UnitsAt(f, e, n + 1);
    AtShl(n, e - 1, 0);
    AtShl(n + 1, e - 1, 0);
  }

  lemma PatternMidpoint(f: Format, e: nat, n: nat)
    requires e >= 1 && n < 2 * Pow2(f.mantSize) && (e == 1 || n >= Pow2(f.mantSize))
    ensures Midpoint(f, PatternAt(f, e, n)) == At(2 * n + 1, e - 2)
  {
    PatternValue(f, e, n);
    HalfwayAt(n, e - 2);
  }

  /** Where x stands among the multiples of one and of half a unit in the last place. */
  lemma AgreesUlp(f: Format, x: Magnitude, m: nat, e: int, n: nat)
    requires Agrees(x, m, f.RndSize() - 1, e - 1 - f.RndSize())
    ensures (BelowAt(x, n, e - 1) <==> m < Shl(n, f.RndSize()))
    ensures (IsAt(x, n, e - 1) <==> m == Shl(n, f.RndSize()))
    ensures (BelowAt(x, n, e - 2) <==> m < Shl(n, f.RndSize() - 1))
    ensures (IsAt(x, n, e - 2) <==> m == Shl(n, f.RndSize() - 1))
  {
    var r := f.RndSize();
    var s := e - 1 - r;
    assert AgreesOn(x, m, Shl(n, r - 1), s);
    assert AgreesOn(x, m, Shl(Shl(n, 1), r - 1), s);
    ShlShl(n, 1, r - 1);
    UnitChange(x, n, s, r - 1);
    UnitChange(x, n, s, r);
  }

  lemma PatternBelowInf(f: Format, e: nat, n: nat)
    requires 1 <= e < f.ExpMask() && n < 2 * Pow2(f.mantSize)
    ensures PatternAt(f, e, n) < f.Inf()
  {
    ShlSucc(e - 1, f.mantSize);
    ShlSucc(e, f.mantSize);
    ShlOrder(f.ExpMask(), e + 1, f.mantSize);
  }

  lemma SignificandRange(f: Format, m: nat)
    requires m < Pow2(f.FSize() - 1)
    ensures Shr(m, f.RndSize()) < 2 * Pow2(f.mantSize)
    ensures m >= Pow2(f.FSize() - 2) ==> Shr(m, f.RndSize()) >= Pow2(f.mantSize)
  {
    var r := f.RndSize();
    ShrBound(m, r, f.mantSize + 1);
    Pow2Shl(f.mantSize, r);
    ShrOrder(m, r, Pow2(f.mantSize));
  }

  /** The quotient and the spare bits of m place it among multiples of whole and half units. */
  lemma SpareBits(m: nat, r: nat)
    requires r >= 1
    ensures Shl(Shr(m, r), r) <= m < Shl(Shr(m, r) + 1, r)
    ensures m == Shl(Shr(m, r), r) <==> Low(m, r) == 0
    ensures m < Shl(2 * Shr(m, r) + 1, r - 1) <==> Low(m, r) < Pow2(r - 1)
    ensures m == Shl(2 * Shr(m, r) + 1, r - 1) <==> Low(m, r) == Pow2(r - 1)
  {
    hide Shl, Shr, Low;
    var n := Shr(m, r);
    ShrLow(m, r);
    ShlSucc(n, r);
    ShlSucc(2 * n, r - 1);
    ShlDouble(n, r - 1);
  }

  /** The quotient and the spare bits of m place x between two patterns and about their midpoint. */
  lemma PlaceBetween(f: Format, x: Magnitude, m: nat, e: nat)
    requires 1 <= e < f.ExpMask() && m < Pow2(f.FSize() - 1) && (e == 1 || m >= Pow2(f.FSize() - 2))
    requires Agrees(x, m, f.RndSize() - 1, e - 1 - f.RndSize())
    ensures var n, low, half := Shr(m, f.RndSize()), Low(m, f.RndSize()), Pow2(f.RndSize() - 1);
            var k := PatternAt(f, e, n);
            && n < 2 * Pow2(f.mantSize) && (e == 1 || n >= Pow2(f.mantSize))
            && k < f.Inf() && FloorBits(f, x) == k
            && x.Below(f.Units(k + 1) as real)
            && (x.Is(f.Units(k) as real) <==> low == 0)
            && (x.Below(Midpoint(f, k)) <==> low < half)
            && (x.Is(Midpoint(f, k)) <==> low == half)
  {
    hide Shl, Shr, Low, Pow2, At, Midpoint, BinaryFormat.Units, BinaryFormat.Inf, BinaryFormat.ExpMask;
    var n := Shr(m, f.RndSize());
    SignificandRange(f, m);
    SpareBits(m, f.RndSize());
    PatternValue(f, e, n);
    PatternMidpoint(f, e, n);
    PatternBelowInf(f, e, n);
    AgreesUlp(f, x, m, e, n);
    AgreesUlp(f, x, m, e, n + 1);
    AgreesUlp(f, x, m, e, 2 * n + 1);
    FloorUnique(f, x, PatternAt(f, e, n));
  }

  /** Does the mode round up a mantissa with quotient n and spare bits low? */
  predicate StepsUp(f: Format, sign: bool, rm: RoundingMode, n: nat, low: nat) {
    match rm
    case RTZ => false
    case RDN => sign && low != 0
    case RUP => !sign && low != 0
    case RMM => low >= Pow2(f.RndSize() - 1)
    case RNE => low > Pow2(f.RndSize() - 1) || (low == Pow2(f.RndSize() - 1) && n % 2 == 1)
  }

  lemma AddendBelow(f: Format, sign: bool, rm: RoundingMode)
    ensures Addend(f, sign, rm) < Pow2(f.RndSize())
    ensures Addend(f, sign, rm) == 0 <==> Chops(rm, sign)
  {
    assert Pow2(f.RndSize()) == 2 * Pow2(f.RndSize() - 1);
    assert f.RndSize() >= 7;
  }

  /** Adding the addend and dropping the spare bits is a step up or none. */
  lemma RoundMantIs(f: Format, sign: bool, m: nat, rm: RoundingMode)
    ensures var n, low := Shr(m, f.RndSize()), Low(m, f.RndSize());
            RoundMant(f, sign, m, rm) == n + (if StepsUp(f, sign, rm, n, low) then 1 else 0)
  {
    hide Shl, Shr, Low;
    var n, low, add := Shr(m, f.RndSize()), Low(m, f.RndSize()), Addend(f, sign, rm);
    ShrLow(m, f.RndSize());
    AddendBelow(f, sign, rm);
    ShlSucc(n, f.RndSize());
    var p := Pow2(f.RndSize());
    assert p == 2 * Pow2(f.RndSize() - 1);
    if low + add < p {
      SplitUnique(m + add, f.RndSize(), n, low + add);
    } else {
      SplitUnique(m + add, f.RndSize(), n + 1, low + add - p);
    }
  }

  lemma PatternParity(f: Format, e: nat, n: nat)
    requires e >= 1
    ensures PatternAt(f, e, n) % 2 == n % 2
  {
    ShlShl(e - 1, f.mantSize - 1, 1);
  }

  /** The mode's decision on the mantissa is its decision on x. */
  lemma SameDecision(f: Format, sign: bool, x: Magnitude, m: nat, e: nat, rm: RoundingMode)
    requires 1 <= e < f.ExpMask() && m < Pow2(f.FSize() - 1) && (e == 1 || m >= Pow2(f.FSize() - 2))
    requires Agrees(x, m, f.RndSize() - 1, e - 1 - f.RndSize())
    ensures var n, low := Shr(m, f.RndSize()), Low(m, f.RndSize());
            low != 0 ==> (GoesUp(f, rm, sign, x, PatternAt(f, e, n)) <==> StepsUp(f, sign, rm, n, low))
  {
    PlaceBetween(f, x, m, e);
    PatternParity(f, e, Shr(m, f.RndSize()));
  }

  /** Rounding the mantissa is rounding x: value, inexactness and overflow, below the overflow range. */
  lemma RoundInRange(f: Format, sign: bool, x: Magnitude, m: nat, e: nat, rm: RoundingMode)
    requires 1 <= e < f.ExpMask() && m < Pow2(f.FSize() - 1) && (e == 1 || m >= Pow2(f.FSize() - 2))
    requires Agrees(x, m, f.RndSize() - 1, e - 1 - f.RndSize())
    ensures RoundBits(f, rm, sign, x) == PatternAt(f, e, RoundMant(f, sign, m, rm))
    ensures Inexact(f, rm, sign, x) <==> Low(m, f.RndSize()) != 0
    ensures Overflows(f, rm, sign, x) <==> RoundBits(f, rm, sign, x) == f.Inf()
    ensures RoundMant(f, sign, m, rm) <= 2 * Pow2(f.mantSize)
    ensures e == 1 || RoundMant(f, sign, m, rm) >= Pow2(f.mantSize)
    ensures Overflows(f, rm, sign, x) ==> !Chops(rm, sign)
  {
    var n := Shr(m, f.RndSize());
    PlaceBetween(f, x, m, e);
    SameDecision(f, sign, x, m, e, rm);
    RoundMantIs(f, sign, m, rm);
    RoundFrom(f, rm, sign, x, PatternAt(f, e, n));
    assert PatternAt(f, e, n) + 1 == PatternAt(f, e, n + 1);
  }

  // ----- packing -----

  /** The carry and the mantissa field of a rounded significand. */
  lemma CarryFields(d: nat, m: nat)
    requires m <= 2 * Pow2(d)
    ensures m < Pow2(d) ==> Low(m, d) == m
    ensures m < 2 * Pow2(d) ==> Shr(m, d + 1) == 0
    ensures Pow2(d) <= m < 2 * Pow2(d) ==> Low(m, d) == m - Pow2(d)
    ensures m == 2 * Pow2(d) ==> Shr(m, d + 1) == 1 && Low(m, d) == 0
  {
    var p := Pow2(d);
    ShlOne(d);
    ShlOne(d + 1);
    ShlSucc(1, d);
    if m < p { LowSmall(m, d); } else if m < 2 * p { SplitUnique(m, d, 1, m - p); } else { SplitUnique(m, d, 2, 0); }
    if m < 2 * p { LowSmall(m, d + 1); } else { SplitUnique(m, d + 1, 1, 0); }
  }

  /** A significand at most 2^(mantSize+1) reaches the pattern of infinity only by a carry from the top. */
  lemma PatternCarry(f: Format, e: nat, m: nat)
    requires 1 <= e < f.ExpMask() && m <= 2 * Pow2(f.mantSize)
    ensures m >= Pow2(f.mantSize) ==> PatternAt(f, e, m) == Shl(e, f.mantSize) + (m - Pow2(f.mantSize))
    ensures m == 2 * Pow2(f.mantSize) ==> PatternAt(f, e, m) == Shl(e + 1, f.mantSize)
    ensures PatternAt(f, e, m) == f.Inf() <==> m == 2 * Pow2(f.mantSize) && e + 1 == f.ExpMask()
  {
    ShlSucc(e - 1, f.mantSize);
    ShlSucc(e, f.mantSize);
    if m < 2 * Pow2(f.mantSize) {
      PatternBelowInf(f, e, m);
    } else {
      ShlOrder(e + 1, f.ExpMask(), f.mantSize);
    }
  }

  /** Packing a rounded significand gives its pattern: carries run from mantissa to exponent by themselves. */
  lemma PackedPattern(f: Format, sign: bool, e: nat, m: nat, chops: bool, ff: Flags)
    requires 1 <= e < f.ExpMask() && m <= 2 * Pow2(f.mantSize) && (e == 1 || m >= Pow2(f.mantSize))
    requires PatternAt(f, e, m) == f.Inf() ==> !chops
    ensures PackRounded(f, sign, e, m, chops, ff) ==
            (SignBit(f, sign) + PatternAt(f, e, m),
             if PatternAt(f, e, m) == f.Inf() then ff.(overflow := true, inexact := true) else ff)
  {
    hide Shl, Shr, Low, Pow2;
    CarryFields(f.mantSize, m);
    PatternCarry(f, e, m);
    LowSmall(0, f.mantSize);
  }

  lemma ExpMaskLarge(f: Format)
    ensures f.ExpMask() >= 255
  {
    Pow2Mono(8, f.expSize);
  }

  /** Infinity is one more than all ones in the mantissa of the largest exponent. */
  lemma InfPattern(f: Format)
    ensures f.Inf() == PatternAt(f, f.ExpMask(), Pow2(f.mantSize))
    ensures f.Units(f.Inf()) as real == At(Pow2(f.mantSize), f.ExpMask() - 1)
  {
    ExpMaskLarge(f);
    ShlSucc(f.ExpMask() - 1, f.mantSize);
    PatternValue(f, f.ExpMask(), Pow2(f.mantSize));
  }

  lemma AtMono(n: nat, d: int, e: int)
    requires d <= e
    ensures 0.0 <= At(n, d) <= At(n, e)
  {
    AtShl(n, e - d, d);
    AtOrder(Shl(n, e - d), n, d);
    AtNonneg(n, d);
  }

  /** A mantissa with an exponent past the largest stands for an x past every finite number. */
  lemma PastFinite(f: Format, x: Magnitude, m: nat, e: nat)
    requires e >= f.ExpMask() && m >= Pow2(f.FSize() - 2)
    requires Agrees(x, m, f.RndSize() - 1, e - 1 - f.RndSize())
    ensures FloorBits(f, x) == f.Inf()
  {
    var p, mask := Pow2(f.mantSize), f.ExpMask();
    ExpMaskLarge(f);
    assert !BelowAt(x, p, e - 1) by {
      AgreesUlp(f, x, m, e, p);
      Pow2Shl(f.mantSize, f.RndSize());
    }
    InfPattern(f);
    AtMono(p, mask - 1, e - 1);
    if x.Below(At(p, mask - 1)) { BelowMono(x, At(p, mask - 1), At(p, e - 1)); }
  }

  lemma PackOverflow(f: Format, sign: bool, m: nat, e: nat, chops: bool, ff: Flags)
    requires e >= f.ExpMask() && m >= Pow2(f.mantSize)
    ensures PackRounded(f, sign, e, m, chops, ff) ==
            (SignBit(f, sign) + (if chops then f.Inf() - 1 else f.Inf()), ff.(overflow := true, inexact := true))
  {
    ExpMaskLarge(f);
    LowSmall(Pow2(f.mantSize) - 1, f.mantSize);
    LowSmall(0, f.mantSize);
    ShlSucc(f.ExpMask() - 1, f.mantSize);
  }

  // ----- round_pack_sf is correct -----

  /** m is what round_pack_sf expects: top bit at FSize() - 2, or zero. */
  ghost predicate Normalized(f: Format, m: nat) {
    m == 0 || Pow2(f.FSize() - 2) <= m < Pow2(f.FSize() - 1)
  }

  /** m at biased exponent exp stands for x closely enough to round it. */
  ghost predicate StandsFor(f: Format, x: Magnitude, m: nat, exp: int) {
    Agrees(x, m, f.RndSize() - 1, exp - 1 - f.RndSize())
  }

  lemma TwiceOn(x: Magnitude, m: nat, n: nat, s: int)
    requires AgreesOn(x, m, n, s)
    ensures AgreesOn(x.Twice(), m, n, s + 1)
  {
    ScaledUp(n as real, s);
    TwiceCompare(x, At(n, s));
  }

  lemma TwiceStandsFor(f: Format, x: Magnitude, m: nat, exp: int)
    requires StandsFor(f, x, m, exp)
    ensures StandsFor(f, x.Twice(), m, exp + 1)
  {
    var t, s, s' := f.RndSize() - 1, exp - 1 - f.RndSize(), exp - f.RndSize();
    forall k: nat ensures AgreesOn(x.Twice(), m, Shl(k, t), s') { TwiceOn(x, m, Shl(k, t), s); }
  }

  /** Shifting a small mantissa down to the exponent of the subnormals. */
  lemma Denormalize(f: Format, x: Magnitude, m: nat, exp: int)
    requires exp <= 0 && m < Pow2(f.FSize() - 1) && StandsFor(f, x, m, exp)
    ensures var m' := RshiftRnd(f, m, 1 - exp);
            StandsFor(f, x, m', 1) && m' <= Pow2(f.FSize() - 2)
  {
    var d := 1 - exp;
    Pow2Mono(f.FSize() - 1, f.FSize());
    RshiftRndIs(f, m, d);
    AgreesSticky(x, m, f.RndSize() - 1, exp - 1 - f.RndSize(), d, f.RndSize() - 1);
    Pow2Mono(f.FSize() - 1, d + (f.FSize() - 2));
    ShrBound(m, d, f.FSize() - 2);
  }

  /** A full significand carries out in rounding when adding the addend carries out. */
  lemma CarriesOut(f: Format, sign: bool, m: nat, rm: RoundingMode)
    requires m < Pow2(f.FSize() - 1)
    ensures RoundMant(f, sign, m, rm) < 2 * Pow2(f.mantSize) <==> m + Addend(f, sign, rm) < Pow2(f.FSize() - 1)
  {
    hide Shl, Shr, Low, Addend, Pow2;
    var r, p := f.RndSize(), Pow2(f.mantSize + 1);
    Pow2Shl(f.mantSize + 1, r);
    ShrOrder(m + Addend(f, sign, rm), r, p);
    Pow2Double(f.mantSize);
  }

  /** In the binade just below the normal numbers, x is tiny when adding the addend does not carry out. */
  lemma TinyAtZero(f: Format, sign: bool, x: Magnitude, m: nat, rm: RoundingMode)
    requires Pow2(f.FSize() - 2) <= m < Pow2(f.FSize() - 1) && StandsFor(f, x, m, 0)
    ensures TinyAfterRounding(f, rm, sign, x) <==> m + Addend(f, sign, rm) < Pow2(f.FSize() - 1)
  {
    hide Shl, Shr, Low, RoundBits, RoundMant, Addend;
    ExpMaskLarge(f);
    TwiceStandsFor(f, x, m, 0);
    RoundInRange(f, sign, x.Twice(), m, 1, rm);
    CarriesOut(f, sign, m, rm);
  }

  lemma SmallSignificand(f: Format, sign: bool, m: nat, rm: RoundingMode)
    requires m <= Pow2(f.FSize() - 2)
    ensures RoundMant(f, sign, m, rm) <= Pow2(f.mantSize) + 1 < 2 * Pow2(f.mantSize)
  {
    Pow2Shl(f.mantSize, f.RndSize());
    ShlSucc(Pow2(f.mantSize), f.RndSize());
    ShrOrder(m, f.RndSize(), Pow2(f.mantSize) + 1);
    RoundMantIs(f, sign, m, rm);
    assert Pow2(f.mantSize) >= 4;
  }

  lemma TinyBelowZero(f: Format, sign: bool, x: Magnitude, m: nat, exp: int, rm: RoundingMode)
    requires exp < 0 && m < Pow2(f.FSize() - 1) && StandsFor(f, x, m, exp)
    ensures TinyAfterRounding(f, rm, sign, x)
  {
    ExpMaskLarge(f);
    TwiceStandsFor(f, x, m, exp);
    Denormalize(f, x.Twice(), m, exp + 1);
    var m' := RshiftRnd(f, m, -exp);
    Pow2Mono(f.FSize() - 2, f.FSize() - 1);
    RoundInRange(f, sign, x.Twice(), m', 1, rm);
    SmallSignificand(f, sign, m', rm);
  }

  lemma NotTiny(f: Format, sign: bool, x: Magnitude, m: nat, exp: int, rm: RoundingMode)
    requires exp >= 1 && Pow2(f.FSize() - 2) <= m < Pow2(f.FSize() - 1) && StandsFor(f, x, m, exp)
    ensures !TinyAfterRounding(f, rm, sign, x)
  {
    hide Shl, Shr, Low, Pow2, RoundMant, FloorBits, GoesUp;
    var d := f.mantSize;
    ExpMaskLarge(f);
    TwiceStandsFor(f, x, m, exp);
    ShlOne(d);
    ShlSucc(1, d);
    ShlSucc(2, d);
    if exp + 1 < f.ExpMask() {
      RoundInRange(f, sign, x.Twice(), m, exp + 1, rm);
      ShlOrder(exp, 1, d);
    } else {
      PastFinite(f, x.Twice(), m, exp + 1);
      ShlOrder(f.ExpMask(), 3, d);
    }
  }

  /** The packed word and flags of x correctly rounded, with the given sign. */
  ghost function Rounded(f: Format, sign: bool, rm: RoundingMode, ff: Flags, x: Magnitude): (nat, Flags) {
    (SignBit(f, sign) + RoundBits(f, rm, sign, x), ff.Or(RoundFlags(f, rm, sign, x)))
  }

  lemma FlagsFrom(f: Format, rm: RoundingMode, sign: bool, x: Magnitude, ff: Flags,
                  tiny: bool, inexact: bool, overflow: bool)
    requires overflow == Overflows(f, rm, sign, x)
    requires inexact || overflow <==> Inexact(f, rm, sign, x)
    requires inexact || overflow ==> ((tiny && inexact) <==> TinyAfterRounding(f, rm, sign, x))
    ensures ff.Or(RoundFlags(f, rm, sign, x)) ==
            var ff' := RaiseFlags(ff, tiny, inexact);
            if overflow then ff'.(overflow := true, inexact := true) else ff'
  {
  }

  /** Rounding below the overflow range. */
  lemma PackInRange(f: Format, sign: bool, x: Magnitude, m: nat, e: nat, rm: RoundingMode, ff: Flags, tiny: bool)
    requires 1 <= e < f.ExpMask() && m < Pow2(f.FSize() - 1) && (e == 1 || m >= Pow2(f.FSize() - 2))
    requires StandsFor(f, x, m, e)
    requires Low(m, f.RndSize()) != 0 ==> tiny == TinyAfterRounding(f, rm, sign, x)
    ensures PackRounded(f, sign, e, RoundMant(f, sign, m, rm), Addend(f, sign, rm) == 0,
                        RaiseFlags(ff, tiny, Low(m, f.RndSize()) != 0)) == Rounded(f, sign, rm, ff, x)
  {
    hide Shl, Shr, Low, Pow2, RoundBits, RoundMant, Addend, Overflows, TinyAfterRounding, RoundFlags,
         RaiseFlags, PackRounded;
    var inexact, m' := Low(m, f.RndSize()) != 0, RoundMant(f, sign, m, rm);
    RoundInRange(f, sign, x, m, e, rm);
    AddendBelow(f, sign, rm);
    FlagsFrom(f, rm, sign, x, ff, tiny, inexact, PatternAt(f, e, m') == f.Inf());
    PackedPattern(f, sign, e, m', Addend(f, sign, rm) == 0, RaiseFlags(ff, tiny, inexact));
  }

  /** Rounding in the overflow range. */
  lemma PackPastFinite(f: Format, sign: bool, x: Magnitude, m: nat, e: nat, rm: RoundingMode, ff: Flags)
    requires e >= f.ExpMask() && Pow2(f.FSize() - 2) <= m < Pow2(f.FSize() - 1)
    requires StandsFor(f, x, m, e)
    ensures PackRounded(f, sign, e, RoundMant(f, sign, m, rm), Addend(f, sign, rm) == 0,
                        RaiseFlags(ff, false, Low(m, f.RndSize()) != 0)) == Rounded(f, sign, rm, ff, x)
  {
    hide Shl, Shr, Low, Pow2, RoundMant, Addend, TinyAfterRounding, RoundFlags, RaiseFlags, PackRounded;
    var inexact, m' := Low(m, f.RndSize()) != 0, RoundMant(f, sign, m, rm);
    assert FloorBits(f, x) == f.Inf() by { PastFinite(f, x, m, e); }
    assert !TinyAfterRounding(f, rm, sign, x) by { ExpMaskLarge(f); NotTiny(f, sign, x, m, e, rm); }
    assert m' >= Pow2(f.mantSize) by {
      RoundMantIs(f, sign, m, rm);
      SignificandRange(f, m);
    }
    AddendBelow(f, sign, rm);
    FlagsFrom(f, rm, sign, x, ff, false, inexact, true);
    PackOverflow(f, sign, m', e, Addend(f, sign, rm) == 0, RaiseFlags(ff, false, inexact));
  }

  /** A zero mantissa stands only for zero, at any exponent. */
  lemma ZeroStandsFor(f: Format, x: Magnitude, exp: int)
    requires StandsFor(f, x, 0, exp)
    ensures x.Is(0.0) && forall e: int :: StandsFor(f, x, 0, e)
  {
    assert AgreesOn(x, 0, Shl(0, f.RndSize() - 1), exp - 1 - f.RndSize());
    ShlOne(f.RndSize() - 1);
    AtNonneg(0, exp - 1 - f.RndSize());
    forall e: int ensures StandsFor(f, x, 0, e) {
      AtNonneg(0, e - 1 - f.RndSize());
      AgreesExact(x, 0, f.RndSize() - 1, e - 1 - f.RndSize());
    }
  }

  lemma RoundZero(f: Format, sign: bool, exp: int, rm: RoundingMode, ff: Flags)
    ensures RoundPack(f, sign, exp, 0, rm, ff) == (SignBit(f, sign), ff)
    ensures PackRounded(f, sign, 1, RoundMant(f, sign, 0, rm), Addend(f, sign, rm) == 0, ff) == (SignBit(f, sign), ff)
  {
    LowSmall(0, f.RndSize());
    LowSmall(0, f.mantSize);
    if exp <= 0 { LowSmall(0, 1 - exp); }
    RoundMantIs(f, sign, 0, rm);
  }

  lemma RoundPackZero(f: Format, sign: bool, exp: int, rm: RoundingMode, ff: Flags, x: Magnitude)
    requires StandsFor(f, x, 0, exp)
    ensures RoundPack(f, sign, exp, 0, rm, ff) == Rounded(f, sign, rm, ff, x)
  {
    ExpMaskLarge(f);
    ZeroStandsFor(f, x, exp);
    LowSmall(0, f.RndSize());
    PackInRange(f, sign, x, 0, 1, rm, ff, true);
    RoundZero(f, sign, exp, rm, ff);
  }

  lemma RoundPackNormal(f: Format, sign: bool, exp: int, m: nat, rm: RoundingMode, ff: Flags, x: Magnitude)
    requires exp >= 1 && Pow2(f.FSize() - 2) <= m < Pow2(f.FSize() - 1) && StandsFor(f, x, m, exp)
    ensures RoundPack(f, sign, exp, m, rm, ff) == Rounded(f, sign, rm, ff, x)
  {
    if exp >= f.ExpMask() {
      PackPastFinite(f, sign, x, m, exp, rm, ff);
    } else {
      NotTiny(f, sign, x, m, exp, rm);
      PackInRange(f, sign, x, m, exp, rm, ff, false);
    }
  }

  lemma RoundPackSmall(f: Format, sign: bool, exp: int, m: nat, rm: RoundingMode, ff: Flags, x: Magnitude)
    requires exp <= 0 && Pow2(f.FSize() - 2) <= m < Pow2(f.FSize() - 1) && StandsFor(f, x, m, exp)
    ensures RoundPack(f, sign, exp, m, rm, ff) == Rounded(f, sign, rm, ff, x)
  {
    hide Shl, Shr, Low, PackRounded, RaiseFlags, Addend, RoundMant, TinyAfterRounding, Rounded, RshiftRnd;
    var tiny := exp < 0 || m + Addend(f, sign, rm) < Pow2(f.FSize() - 1);
    assert tiny == TinyAfterRounding(f, rm, sign, x) by {
      if exp == 0 { TinyAtZero(f, sign, x, m, rm); } else { TinyBelowZero(f, sign, x, m, exp, rm); }
    }
    Denormalize(f, x, m, exp);
    Pow2Mono(f.FSize() - 2, f.FSize() - 1);
    ExpMaskLarge(f);
    PackInRange(f, sign, x, RshiftRnd(f, m, 1 - exp), 1, rm, ff, tiny);
  }

  /**
   A normalized mantissa that stands for x is packed into x correctly rounded,
   whether the result is normal, subnormal, zero, carried out or overflowing,
   and raises exactly the flags of that rounding.
   */
  lemma RoundPackCorrect(f: Format, sign: bool, exp: int, m: nat, rm: RoundingMode, ff: Flags, x: Magnitude)
    requires Normalized(f, m) && StandsFor(f, x, m, exp)
    ensures RoundPack(f, sign, exp, m, rm, ff) == Rounded(f, sign, rm, ff, x)
  {
    if m == 0 {
      RoundPackZero(f, sign, exp, rm, ff, x);
    } else if exp >= 1 {
      RoundPackNormal(f, sign, exp, m, rm, ff, x);
    } else {
      RoundPackSmall(f, sign, exp, m, rm, ff, x);
    }
  }

  // ----- normalize_sf is correct -----

  lemma ClzPositive(f: Format, m: nat)
    requires m < Pow2(f.FSize() - 1)
    ensures 1 <= Clz(f, m) <= f.FSize()
  {
    BitLenAtMost(m, f.FSize() - 1);
  }

  /** The shift of normalize_sf brings the top bit to FSize() - 2 and drops nothing. */
  lemma NormalizeShift(f: Format, m: nat)
    requires m < Pow2(f.FSize() - 1)
    ensures Clz(f, m) >= 1
    ensures ShlW(f, m, Clz(f, m) - 1) == Shl(m, Clz(f, m) - 1)
    ensures Normalized(f, Shl(m, Clz(f, m) - 1))
  {
    hide Shl, Shr, Low, BitLen;
    ClzPositive(f, m);
    var l, shift := BitLen(m), Clz(f, m) - 1;
    if m == 0 {
      ShlOne(shift);
      LowSmall(0, f.FSize());
    } else {
      BitLenBounds(m);
      Pow2Shl(l - 1, shift);
      Pow2Shl(l, shift);
      ShlOrder(m, Pow2(l - 1), shift);
      ShlOrder(m, Pow2(l), shift);
      LowSmall(Shl(m, shift), f.FSize());
    }
  }

  /** An exact mantissa of any size is rounded correctly. */
  lemma NormalizeExact(f: Format, sign: bool, exp: int, m: nat, rm: RoundingMode, ff: Flags, x: Magnitude)
    requires m < Pow2(f.FSize() - 1)
    requires IsAt(x, m, exp - 1 - f.RndSize())
    ensures Clz(f, m) >= 1
    ensures Normalize(f, sign, exp, m, rm, ff) == Rounded(f, sign, rm, ff, x)
  {
    hide Shl, Shr, Low, Rounded, RoundPack, ShlW, Agrees;
    NormalizeShift(f, m);
    var shift := Clz(f, m) - 1;
    UnitChange(x, m, exp - shift - 1 - f.RndSize(), shift);
    AgreesExact(x, Shl(m, shift), f.RndSize() - 1, exp - shift - 1 - f.RndSize());
    RoundPackCorrect(f, sign, exp - shift, Shl(m, shift), rm, ff, x);
  }

  /** A mantissa that agrees with x on even numbers is rounded correctly if it has two bits to spare. */
  lemma NormalizeSticky(f: Format, sign: bool, exp: int, m: nat, rm: RoundingMode, ff: Flags, x: Magnitude)
    requires Pow2(f.mantSize + 2) <= m < Pow2(f.FSize() - 1)
    requires Agrees(x, m, 1, exp - 1 - f.RndSize())
    ensures Clz(f, m) >= 1
    ensures Normalize(f, sign, exp, m, rm, ff) == Rounded(f, sign, rm, ff, x)
  {
    hide Shl, Shr, Low, Rounded, RoundPack, ShlW, Agrees;
    NormalizeShift(f, m);
    var shift := Clz(f, m) - 1;
    assert shift <= f.RndSize() - 2 by {
      BitLenBounds(m);
      if BitLen(m) < f.mantSize + 3 { Pow2Mono(BitLen(m), f.mantSize + 2); }
    }
    AgreesShl(x, m, 1, exp - 1 - f.RndSize(), shift);
    AgreesCoarser(x, Shl(m, shift), 1 + shift, f.RndSize() - 1, exp - 1 - f.RndSize() - shift);
    RoundPackCorrect(f, sign, exp - shift, Shl(m, shift), rm, ff, x);
  }
}
