/**
 The operations on infinities, zero divisors and NaN, by the arithmetic of the
 real numbers with two infinities: section 6.1 of IEEE 754-2008, with the invalid
 operations of section 7.2, the division by zero of section 7.3 and the NaN
 results of section 6.2. With the theorems on finite operands every operand is
 covered.
 */
module SpecialValues {
  import opened Common
  import opened Powers
  import opened Ieee
  import opened Words
  import opened Rounding
  import opened Addition
  import opened Multiplication
  import opened Division
  import opened FusedMultiplyAdd
  import opened Comparison
  import opened Conversion

  datatype Extended = Minus | Finite(value: real) | Plus

  /** The number a word stands for, if it is not a NaN. */
  ghost function Value(f: Format, a: nat): Extended {
    if IsInf(f, a) then (if SignOf(f, a) then Minus else Plus)
    else Finite(if SignOf(f, a) then -AbsValue(f, a) else AbsValue(f, a))
  }

  /** Opposite infinities have no sum. */
  ghost function Sum(x: Extended, y: Extended): Option<Extended> {
    if x.Finite? && y.Finite? then Some(Finite(x.value + y.value))
    else if x.Finite? then Some(y)
    else if y.Finite? || x == y then Some(x)
    else None
  }

  ghost predicate Negative(x: Extended) { x.Minus? || (x.Finite? && x.value < 0.0) }

  /** Zero and an infinity have no product. */
  ghost function Product(x: Extended, y: Extended): Option<Extended> {
    if x.Finite? && y.Finite? then Some(Finite(x.value * y.value))
    else if x == Finite(0.0) || y == Finite(0.0) then None
    else Some(if Negative(x) == Negative(y) then Plus else Minus)
  }

  /** What an operation gives for an exact result that is an infinity or does not exist. */
  ghost predicate Gives(f: Format, exact: Option<Extended>, r: nat, ff: Flags, ff': Flags) {
    match exact
    case None => r == QNan(f) && ff' == ff.Or(INVALID)
    case Some(x) => !x.Finite? && IsWord(f, r) && Value(f, r) == x && !IsNan(f, r) && ff' == ff
  }

  // ----- words -----

  lemma QNanFields(f: Format)
    ensures var e, m := f.ExpMask(), Pow2(f.mantSize - 1);
            && IsWord(f, QNan(f)) && MagOf(f, QNan(f)) == QNan(f) == Shl(e, f.mantSize) + m && m < Pow2(f.mantSize)
            && ExpOf(f, QNan(f)) == e && MantOf(f, QNan(f)) == m && !SignOf(f, QNan(f))
  {
    hide Shl, Shr, Low, SignOf, MagOf, ExpOf, MantOf;
    var e, m := f.ExpMask(), Pow2(f.mantSize - 1);
    Pow2Double(f.mantSize - 1);
    PatternFits(f, e, m);
    FieldsOf(f, false, e, m);
  }

  /** A pattern of exponent and mantissa fits below the sign. */
  lemma PatternFits(f: Format, e: nat, m: nat)
    requires e <= f.ExpMask() && m < Pow2(f.mantSize)
    ensures Shl(e, f.mantSize) + m < Pow2(f.FSize() - 1)
  {
    hide Shl;
    ShlSucc(e, f.mantSize);
    Pow2Shl(f.expSize, f.mantSize);
    ShlOrder(e + 1, Pow2(f.expSize), f.mantSize);
  }

  /** The fields of a word put together from a sign, an exponent and a mantissa. */
  lemma FieldsOf(f: Format, sign: bool, e: nat, m: nat)
    requires e <= f.ExpMask() && m < Pow2(f.mantSize)
    ensures var w := SignBit(f, sign) + (Shl(e, f.mantSize) + m);
            && IsWord(f, w) && SignOf(f, w) == sign && MagOf(f, w) == Shl(e, f.mantSize) + m
            && ExpOf(f, w) == e && MantOf(f, w) == m
            && Pack(f, sign, e, m) == w
  {
    hide Shl, Shr, Low, SignOf, MagOf, ExpOf, MantOf, SignBit;
    var k := Shl(e, f.mantSize) + m;
    PatternFits(f, e, m);
    PackFields(f, sign, k);
    var w := SignBit(f, sign) + k;
    WordFields(f, w);
    LowOfMant(f, w);
    SplitUnique(k, f.mantSize, ExpOf(f, w), MantOf(f, w));
    SplitUnique(k, f.mantSize, e, m);
    LowSmall(m, f.mantSize);
  }

  lemma LowOfMant(f: Format, w: nat)
    ensures MantOf(f, w) < Pow2(f.mantSize)
  {
  }

  /** The bits at and above place m - 1 of a number are those above m, and one more that is the top of the low m. */
  lemma TopBit(a: nat, m: nat, e: nat)
    requires m >= 1
    ensures var t := Shr(a, m - 1) % 2;
            && Low(Shr(a, m - 1), e + 1) == 2 * Low(Shr(a, m), e) + t
            && (Low(a, m) < Pow2(m - 1) <==> t == 0)
  {
    var x := Shr(a, m - 1);
    var q, t := x / 2, x % 2;
    ShrLow(a, m - 1);
    ShlDouble(q, m - 1);
    ShlAdd(2 * q, t, m - 1);
    ShlOne(m - 1);
    Pow2Double(m - 1);
    SplitUnique(a, m, q, Shl(t, m - 1) + Low(a, m - 1));
  }

  /** A signalling NaN is one whose mantissa has its top bit clear. */
  lemma SigNanIs(f: Format, a: nat)
    ensures IsSigNan(f, a) <==> IsNan(f, a) && MantOf(f, a) < Pow2(f.mantSize - 1)
  {
    TopBit(a, f.mantSize, f.expSize);
  }

  /** The NaN that every operation returns is a quiet one. */
  lemma QNanIsQuiet(f: Format)
    ensures IsWord(f, QNan(f)) && IsNan(f, QNan(f)) && !IsSigNan(f, QNan(f)) && !SignOf(f, QNan(f))
  {
    hide Shl, Shr, Low, SignOf, MagOf, ExpOf, MantOf;
    QNanFields(f);
    SigNanIs(f, QNan(f));
  }

  lemma InfiniteWord(f: Format, sign: bool)
    ensures var w := Pack(f, sign, f.ExpMask(), 0);
            IsWord(f, w) && IsInf(f, w) && !IsNan(f, w) && Value(f, w) == if sign then Minus else Plus
  {
    hide Shl, Shr, Low, SignOf, MagOf, ExpOf, MantOf, AbsValue;
    FieldsOf(f, sign, f.ExpMask(), 0);
  }

  /** A zero of either sign. */
  lemma ZeroWord(f: Format, sign: bool)
    ensures var w := Pack(f, sign, 0, 0); IsWord(f, w) && IsZero(f, w) && SignOf(f, w) == sign
  {
    hide Shl, Shr, Low, SignOf, MagOf, ExpOf, MantOf;
    FieldsOf(f, sign, 0, 0);
  }

  /** Zero and sign of a word, as a number. */
  lemma ValueFacts(f: Format, a: nat)
    requires IsWord(f, a) && !IsNan(f, a)
    ensures if IsFinite(f, a) then Value(f, a).Finite? else Value(f, a) == if SignOf(f, a) then Minus else Plus
    ensures Value(f, a) == Finite(0.0) <==> IsZero(f, a)
    ensures !IsZero(f, a) ==> (Negative(Value(f, a)) <==> SignOf(f, a))
  {
    hide Shl, Shr, Low, SignOf, MagOf, ExpOf, MantOf, Scaled, BinaryFormat.Units;
    ZeroUnits(f, a);
    ScaledOrder(0.0, f.Units(MagOf(f, a)) as real, f.UnitExp());
    ScaledOrder(f.Units(MagOf(f, a)) as real, 0.0, f.UnitExp());
    ZeroScaled(f.UnitExp());
    ExpMaskLarge(f);
  }

  lemma {:induction false} ZeroScaled(s: int)
    ensures Scaled(0.0, s) == 0.0
    decreases if s < 0 then -s else s
  {
    if s > 0 { ZeroScaled(s - 1); }
    if s < 0 { ZeroScaled(s + 1); }
  }

  /** Infinities have larger patterns than numbers, and NaNs larger ones than infinities. */
  lemma PatternClasses(f: Format, a: nat)
    requires IsWord(f, a)
    ensures IsFinite(f, a) <==> MagOf(f, a) < f.Inf()
    ensures IsInf(f, a) <==> MagOf(f, a) == f.Inf()
    ensures IsNan(f, a) <==> MagOf(f, a) > f.Inf()
  {
    hide Shl, Shr, Low, SignOf, MagOf, ExpOf, MantOf;
    FiniteBelowInf(f, a);
    WordFields(f, a);
  }

  // ----- operations -----

  /** What an operation on a NaN gives: the quiet NaN, invalid exactly if an operand is signalling. */
  ghost predicate GivesNan(f: Format, signalling: bool, r: nat, ff: Flags, ff': Flags) {
    r == QNan(f) && ff' == if signalling then ff.Or(INVALID) else ff
  }

  lemma AddSpecial(f: Format, a: nat, b: nat, rm: RoundingMode, ff: Flags)
    requires IsWord(f, a) && IsWord(f, b) && !(IsFinite(f, a) && IsFinite(f, b))
    ensures var (r, ff') := AddSf(f, a, b, rm, ff);
            if IsNan(f, a) || IsNan(f, b) then GivesNan(f, IsSigNan(f, a) || IsSigNan(f, b), r, ff, ff')
            else Gives(f, Sum(Value(f, a), Value(f, b)), r, ff, ff')
  {
    hide Shl, Shr, Low, SignOf, MagOf, ExpOf, MantOf, AbsValue, IsSigNan, QNan, AddAligned, BinaryFormat.Inf;
    PatternClasses(f, a);
    PatternClasses(f, b);
    SigNanIs(f, a);
    SigNanIs(f, b);
    TopMant(f, a);
    TopMant(f, b);
  }

  lemma TopMant(f: Format, a: nat)
    ensures Shr(MantOf(f, a), f.mantSize - 1) == 0 <==> MantOf(f, a) < Pow2(f.mantSize - 1)
  {
    ShrOrder(MantOf(f, a), f.mantSize - 1, 1);
    ShlOne(f.mantSize - 1);
  }

  ghost function Opposite(x: Extended): Extended {
    match x
    case Minus => Plus
    case Finite(v) => Finite(-v)
    case Plus => Minus
  }

  /** Flipping the sign bit keeps a NaN and gives the opposite of anything else. */
  lemma NegatedValue(f: Format, b: nat)
    requires IsWord(f, b)
    ensures var w := Negated(f, b);
            && IsWord(f, w) && (IsNan(f, w) <==> IsNan(f, b)) && (IsSigNan(f, w) <==> IsSigNan(f, b))
            && (IsFinite(f, w) <==> IsFinite(f, b)) && Value(f, w) == Opposite(Value(f, b))
  {
    hide Shl, Shr, Low, SignOf, MagOf, ExpOf, MantOf, AbsValue, BinaryFormat.Inf, SignBit, IsSigNan;
    WordFields(f, b);
    PackFields(f, !SignOf(f, b), MagOf(f, b));
    var w := Negated(f, b);
    WordFields(f, w);
    LowOfMant(f, w);
    LowOfMant(f, b);
    SplitUnique(MagOf(f, b), f.mantSize, ExpOf(f, w), MantOf(f, w));
    SplitUnique(MagOf(f, b), f.mantSize, ExpOf(f, b), MantOf(f, b));
    SigNanIs(f, w);
    SigNanIs(f, b);
    SameAbs(f, b, w);
  }

  lemma SameAbs(f: Format, b: nat, w: nat)
    requires MagOf(f, b) == MagOf(f, w)
    ensures AbsValue(f, b) == AbsValue(f, w)
  {
  }

  lemma SubSpecial(f: Format, a: nat, b: nat, rm: RoundingMode, ff: Flags)
    requires IsWord(f, a) && IsWord(f, b) && !(IsFinite(f, a) && IsFinite(f, b))
    ensures var (r, ff') := SubSf(f, a, b, rm, ff);
            if IsNan(f, a) || IsNan(f, b) then GivesNan(f, IsSigNan(f, a) || IsSigNan(f, b), r, ff, ff')
            else Gives(f, Sum(Value(f, a), Opposite(Value(f, b))), r, ff, ff')
  {
    hide Shl, Shr, Low, SignOf, MagOf, ExpOf, MantOf, AbsValue, QNan, AddSf, IsSigNan, IsNan, IsFinite, Value, Gives;
    NegatedValue(f, b);
    AddSpecial(f, a, Negated(f, b), rm, ff);
  }

  lemma MulSpecial(f: Format, a: nat, b: nat, rm: RoundingMode, ff: Flags)
    requires IsWord(f, a) && IsWord(f, b) && !(IsFinite(f, a) && IsFinite(f, b))
    ensures var (r, ff') := MulSf(f, a, b, rm, ff);
            if IsNan(f, a) || IsNan(f, b) then GivesNan(f, IsSigNan(f, a) || IsSigNan(f, b), r, ff, ff')
            else Gives(f, Product(Value(f, a), Value(f, b)), r, ff, ff')
  {
    hide Shl, Shr, Low, SignOf, MagOf, ExpOf, MantOf, AbsValue, IsSigNan, QNan, MulNormal, Pack;
    if !IsNan(f, a) && !IsNan(f, b) {
      ValueFacts(f, a);
      ValueFacts(f, b);
      InfiniteWord(f, SignOf(f, a) != SignOf(f, b));
    }
  }

  /**
   Division: an infinity by an infinity and zero by zero are invalid; a number by
   zero is an infinity with the divide-by-zero flag; an infinity by a number is an
   infinity and a number by an infinity a zero. Signs follow the exclusive or.
   */
  lemma DivSpecial(f: Format, a: nat, b: nat, rm: RoundingMode, ff: Flags)
    requires IsWord(f, a) && IsWord(f, b) && (!IsFinite(f, a) || !IsFinite(f, b) || IsZero(f, b))
    ensures var (r, ff') := DivSf(f, a, b, rm, ff);
            var sign := SignOf(f, a) != SignOf(f, b);
            if IsNan(f, a) || IsNan(f, b) then GivesNan(f, IsSigNan(f, a) || IsSigNan(f, b), r, ff, ff')
            else if (IsInf(f, a) && IsInf(f, b)) || (IsZero(f, a) && IsZero(f, b)) then Gives(f, None, r, ff, ff')
            else if IsInf(f, b) then IsWord(f, r) && IsZero(f, r) && SignOf(f, r) == sign && ff' == ff
            else Gives(f, Some(if sign then Minus else Plus), r, if IsInf(f, a) then ff else ff.Or(DIVIDE_BY_ZERO), ff')
  {
    hide Shl, Shr, Low, SignOf, MagOf, ExpOf, MantOf, AbsValue, IsSigNan, QNan, DivNormal, Pack;
    InfiniteWord(f, SignOf(f, a) != SignOf(f, b));
    ZeroWord(f, SignOf(f, a) != SignOf(f, b));
    ExpMaskLarge(f);
    SigNanIs(f, a);
    SigNanIs(f, b);
  }

  /** The exact a * b + c, where there is one. */
  ghost function ProductSum(x: Extended, y: Extended, z: Extended): Option<Extended> {
    match Product(x, y)
    case None => None
    case Some(p) => Sum(p, z)
  }

  lemma FmaSpecial(f: Format, a: nat, b: nat, c: nat, rm: RoundingMode, ff: Flags)
    requires IsWord(f, a) && IsWord(f, b) && IsWord(f, c)
    requires !(IsFinite(f, a) && IsFinite(f, b) && IsFinite(f, c))
    ensures var (r, ff') := FmaSf(f, a, b, c, rm, ff);
            if IsNan(f, a) || IsNan(f, b) || IsNan(f, c) then
              GivesNan(f, IsSigNan(f, a) || IsSigNan(f, b) || IsSigNan(f, c), r, ff, ff')
            else Gives(f, ProductSum(Value(f, a), Value(f, b), Value(f, c)), r, ff, ff')
  {
    hide Shl, Shr, Low, SignOf, MagOf, ExpOf, MantOf, AbsValue, IsSigNan, QNan, FmaNormal, Pack, IsZero, Value, Gives,
         ProductSum;
    if !IsNan(f, a) && !IsNan(f, b) && !IsNan(f, c) {
      FmaInfinite(f, a, b, c, rm, ff);
    }
  }

  lemma FmaInfinite(f: Format, a: nat, b: nat, c: nat, rm: RoundingMode, ff: Flags)
    requires IsWord(f, a) && IsWord(f, b) && IsWord(f, c) && !IsNan(f, a) && !IsNan(f, b) && !IsNan(f, c)
    requires !(IsFinite(f, a) && IsFinite(f, b) && IsFinite(f, c))
    ensures var (r, ff') := FmaSf(f, a, b, c, rm, ff);
            Gives(f, ProductSum(Value(f, a), Value(f, b), Value(f, c)), r, ff, ff')
  {
    hide *;
    var x, y, z := Value(f, a), Value(f, b), Value(f, c);
    ValueFacts(f, a);
    ValueFacts(f, b);
    ValueFacts(f, c);
    var s, t := SignOf(f, a) != SignOf(f, b), SignOf(f, c);
    FmaCases(f, a, b, c, rm, ff);
    ExtendedCases(x, y, z, SignOf(f, a), SignOf(f, b), t);
    GivesInfinite(f, s, ff);
    GivesInfinite(f, t, ff);
    GivesInvalid(f, ff);
  }

  /** The code, by which operands are infinite or zero. */
  lemma FmaCases(f: Format, a: nat, b: nat, c: nat, rm: RoundingMode, ff: Flags)
    requires IsWord(f, a) && IsWord(f, b) && IsWord(f, c) && !IsNan(f, a) && !IsNan(f, b) && !IsNan(f, c)
    requires !(IsFinite(f, a) && IsFinite(f, b) && IsFinite(f, c))
    ensures var sign := SignOf(f, a) != SignOf(f, b);
            var infinite := !IsFinite(f, a) || !IsFinite(f, b);
            FmaSf(f, a, b, c, rm, ff) ==
            if infinite && (IsZero(f, a) || IsZero(f, b) || (!IsFinite(f, c) && sign != SignOf(f, c)))
            then (QNan(f), ff.Or(INVALID))
            else (Pack(f, if infinite then sign else SignOf(f, c), f.ExpMask(), 0), ff)
  {
    hide Shl, Shr, Low, SignOf, MagOf, ExpOf, MantOf, QNan, FmaNormal, Pack, IsSigNan;
    ExpMaskLarge(f);
  }

  /** The exact result, by which operands are infinite or zero. */
  lemma ExtendedCases(x: Extended, y: Extended, z: Extended, s: bool, t: bool, u: bool)
    requires x.Finite? || x == if s then Minus else Plus
    requires y.Finite? || y == if t then Minus else Plus
    requires z.Finite? || z == if u then Minus else Plus
    requires (x != Finite(0.0) ==> (Negative(x) <==> s)) && (y != Finite(0.0) ==> (Negative(y) <==> t))
    requires !(x.Finite? && y.Finite? && z.Finite?)
    ensures var infinite := !x.Finite? || !y.Finite?;
            ProductSum(x, y, z) ==
            if infinite && (x == Finite(0.0) || y == Finite(0.0) || (!z.Finite? && (s != t) != u)) then None
            else Some(if (if infinite then s != t else u) then Minus else Plus)
  {
  }

  lemma GivesInfinite(f: Format, sign: bool, ff: Flags)
    ensures Gives(f, Some(if sign then Minus else Plus), Pack(f, sign, f.ExpMask(), 0), ff, ff)
  {
    InfiniteWord(f, sign);
  }

  lemma GivesInvalid(f: Format, ff: Flags)
    ensures Gives(f, None, QNan(f), ff, ff.Or(INVALID))
  {
  }

  // ----- comparisons and conversions -----

  /** A NaN is unordered: equality is quiet, the ordered comparisons are invalid. */
  lemma CompareNan(f: Format, a: nat, b: nat, ff: Flags)
    requires IsNan(f, a) || IsNan(f, b)
    ensures EqQuiet(f, a, b, ff) == (false, if IsSigNan(f, a) || IsSigNan(f, b) then ff.Or(INVALID) else ff)
    ensures Le(f, a, b, ff) == Lt(f, a, b, ff) == (false, ff.Or(INVALID))
  {
  }

  lemma WidenSpecial(n: Format, w: Format, a: nat, ff: Flags)
    requires Widens(n, w) && IsWord(n, a) && !IsFinite(n, a)
    ensures var (r, ff') := CvtWiden(n, w, a, ff);
            if IsNan(n, a) then GivesNan(w, IsSigNan(n, a), r, ff, ff')
            else Gives(w, Some(Value(n, a)), r, ff, ff')
  {
    hide Shl, Shr, Low, SignOf, MagOf, ExpOf, MantOf, AbsValue, IsSigNan, QNan, Pack;
    InfiniteWord(w, SignOf(n, a));
  }

  lemma NarrowSpecial(n: Format, w: Format, a: nat, rm: RoundingMode, ff: Flags)
    requires Widens(n, w) && IsWord(w, a) && !IsFinite(w, a)
    ensures var (r, ff') := CvtNarrow(n, w, a, rm, ff);
            if IsNan(w, a) then GivesNan(n, IsSigNan(w, a), r, ff, ff')
            else Gives(n, Some(Value(w, a)), r, ff, ff')
  {
    hide Shl, Shr, Low, SignOf, MagOf, ExpOf, MantOf, AbsValue, IsSigNan, QNan, Pack;
    InfiniteWord(n, SignOf(w, a));
  }
}
