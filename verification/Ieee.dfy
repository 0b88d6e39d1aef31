/**
 The arithmetic that IEEE 754-2008 promises, stated without reference to any
 algorithm: what the bit patterns of a binary format denote, and what it means
 to round an exact non-negative magnitude to one of them (section 4.3), with
 the inexact, overflow and underflow flags of section 7.

 The non-negative numbers of a format, infinity included, are enumerated in
 increasing order by their bit patterns without the sign: 0, 1, 2, ... Inf().
 Rounding is therefore a statement about neighbouring naturals.
 */
module Ieee {
  import opened Powers

  datatype RoundingMode = RNE | RTZ | RDN | RUP | RMM

  /** The accrued exception flags. */
  datatype Flags = Flags(invalid: bool, divideByZero: bool, overflow: bool, underflow: bool, inexact: bool) {
    function Or(f: Flags): Flags {
      Flags(invalid || f.invalid, divideByZero || f.divideByZero, overflow || f.overflow,
            underflow || f.underflow, inexact || f.inexact)
    }
  }

  const NO_FLAGS := Flags(false, false, false, false, false)
  const INVALID := NO_FLAGS.(invalid := true)
  const DIVIDE_BY_ZERO := NO_FLAGS.(divideByZero := true)

  /** A binary interchange format: a sign, expSize exponent bits and mantSize fraction bits. */
  datatype BinaryFormat = BinaryFormat(mantSize: nat, expSize: nat) {
    predicate Valid() {
      mantSize >= 2 && expSize >= 8
    }

    /** Width of the whole word. */
    function FSize(): nat { mantSize + expSize + 1 }

    /** Spare low bits of the internal mantissa, whose top bit is at FSize() - 2. */
    function RndSize(): int { FSize() - 2 - mantSize }

    function ExpMask(): nat { Pow2(expSize) - 1 }

    function Bias(): nat { ExpMask() / 2 }

    /** The bit pattern of +infinity: one past the largest finite number. */
    function Inf(): (r: nat)
      ensures Valid() ==> r >= 2
    {
      assert Valid() ==> Pow2(expSize) >= 4;
      Shl(ExpMask(), mantSize)
    }

    /** The number that the magnitude pattern k denotes, in units of the smallest subnormal. */
    function Units(k: nat): nat {
      var e, m := Shr(k, mantSize), Low(k, mantSize);
      if e == 0 then m else Shl(Pow2(mantSize) + m, e - 1)
    }

    /** Exponent of two of the smallest subnormal. */
    function UnitExp(): int { 1 - Bias() - mantSize }
  }

  type Format = f: BinaryFormat | f.Valid() witness BinaryFormat(23, 8)

  const FLOAT32 := BinaryFormat(23, 8)
  const FLOAT64 := BinaryFormat(52, 11)
  const FLOAT128 := BinaryFormat(112, 15)

  /** Exactly how the three formats of the library fill their words. */
  lemma FormatsFit()
    ensures FLOAT32.Valid() && FLOAT32.FSize() == 32 && FLOAT32.RndSize() == 7
    ensures FLOAT64.Valid() && FLOAT64.FSize() == 64 && FLOAT64.RndSize() == 10
    ensures FLOAT128.Valid() && FLOAT128.FSize() == 128 && FLOAT128.RndSize() == 14
  {
  }

  /**
   An exact non-negative result, known only by how it compares with real
   numbers: a real q itself, or the square root of q.
   */
  datatype Magnitude = Plain(q: real) | Root(q: real) {
    ghost predicate Below(y: real) {
      match this
      case Plain(q) => q < y
      case Root(q) => 0.0 < y && q < y * y
    }

    ghost predicate Is(y: real) {
      match this
      case Plain(q) => q == y
      case Root(q) => 0.0 <= y && q == y * y
    }

    ghost function Twice(): Magnitude {
      match this
      case Plain(q) => Plain(2.0 * q)
      case Root(q) => Root(4.0 * q)
    }
  }

  /** Comparison with the smallest-subnormal multiple denoted by pattern k. */
  ghost predicate BelowBits(f: Format, x: Magnitude, k: nat) {
    x.Below(f.Units(k) as real)
  }

  ghost function FloorFrom(f: Format, x: Magnitude, k: nat): nat {
    if k == 0 || !BelowBits(f, x, k) then k else FloorFrom(f, x, k - 1)
  }

  /** The greatest pattern, infinity included, whose number does not exceed x. */
  ghost function FloorBits(f: Format, x: Magnitude): nat {
    FloorFrom(f, x, f.Inf())
  }

  /** The point halfway between pattern k and the next one. */
  ghost function Midpoint(f: Format, k: nat): real {
    (f.Units(k) + f.Units(k + 1)) as real / 2.0
  }

  /** The modes that never move away from zero for this sign. */
  predicate Chops(rm: RoundingMode, sign: bool) {
    rm == RTZ || (rm == RDN && !sign) || (rm == RUP && sign)
  }

  /** Does x, strictly between patterns k and k + 1, go to k + 1? */
  ghost predicate GoesUp(f: Format, rm: RoundingMode, sign: bool, x: Magnitude, k: nat) {
    match rm
    case RTZ => false
    case RDN => sign
    case RUP => !sign
    case RMM => !x.Below(Midpoint(f, k))
    case RNE => !x.Below(Midpoint(f, k)) && (x.Is(Midpoint(f, k)) ==> k % 2 == 1)
  }

  /** The magnitude pattern of x rounded in mode rm, x having the given sign (section 4.3). */
  ghost function RoundBits(f: Format, rm: RoundingMode, sign: bool, x: Magnitude): nat {
    var k := FloorBits(f, x);
    if k == f.Inf() then (if Chops(rm, sign) then f.Inf() - 1 else f.Inf())
    else if x.Is(f.Units(k) as real) || !GoesUp(f, rm, sign, x, k) then k
    else k + 1
  }

  /** x exceeds what the mode can round to a finite number. */
  ghost predicate Overflows(f: Format, rm: RoundingMode, sign: bool, x: Magnitude) {
    FloorBits(f, x) == f.Inf() || RoundBits(f, rm, sign, x) == f.Inf()
  }

  /**
   x is below the smallest normal number after rounding to full precision with
   an unbounded exponent. Doubling x lends it the one extra bit that the binade
   below the smallest normal number has in such a rounding.
   */
  ghost predicate TinyAfterRounding(f: Format, rm: RoundingMode, sign: bool, x: Magnitude) {
    RoundBits(f, rm, sign, x.Twice()) < 2 * Pow2(f.mantSize)
  }

  ghost predicate Inexact(f: Format, rm: RoundingMode, sign: bool, x: Magnitude) {
    Overflows(f, rm, sign, x) || !x.Is(f.Units(RoundBits(f, rm, sign, x)) as real)
  }

  /** The flags a rounding raises (sections 7.4 to 7.6). */
  ghost function RoundFlags(f: Format, rm: RoundingMode, sign: bool, x: Magnitude): Flags {
    NO_FLAGS.(overflow := Overflows(f, rm, sign, x),
              underflow := TinyAfterRounding(f, rm, sign, x) && Inexact(f, rm, sign, x),
              inexact := Inexact(f, rm, sign, x))
  }

  // ----- the enumeration by patterns is strictly increasing -----

  /** n units of 2^(e-1) is the number of pattern (e-1) * 2^mantSize + n, for a full or subnormal n. */
  lemma {:induction false} UnitsAt(f: Format, e: nat, n: nat)
    requires e >= 1 && n <= 2 * Pow2(f.mantSize) && (e == 1 || n >= Pow2(f.mantSize))
    ensures f.Units(Shl(e - 1, f.mantSize) + n) == Shl(n, e - 1)
  {
    hide Shl, Shr, Low;
    var p := Pow2(f.mantSize);
    var k := Shl(e - 1, f.mantSize) + n;
    ShlSucc(e - 1, f.mantSize);
    ShlSucc(e, f.mantSize);
    if n < p {
      SplitUnique(k, f.mantSize, e - 1, n);
    } else if n < 2 * p {
      SplitUnique(k, f.mantSize, e, n - p);
    } else {
      SplitUnique(k, f.mantSize, e + 1, 0);
      ShlDouble(p, e - 1);
    }
  }

  /** Every pattern has the form of UnitsAt, for some exponent and full or subnormal n. */
  lemma {:induction false} Decompose(f: Format, k: nat) returns (e: nat, n: nat)
    ensures e >= 1 && n < 2 * Pow2(f.mantSize) && (e == 1 || n >= Pow2(f.mantSize))
    ensures k == Shl(e - 1, f.mantSize) + n
    ensures f.Units(k) == Shl(n, e - 1) && f.Units(k + 1) == Shl(n + 1, e - 1)
  {
    hide Shl, Shr, Low, BinaryFormat.Units;
    var q, r := Shr(k, f.mantSize), Low(k, f.mantSize);
    ShrLow(k, f.mantSize);
    if q == 0 {
      e, n := 1, r;
      ShlOne(f.mantSize);
    } else {
      e, n := q, Pow2(f.mantSize) + r;
      ShlSucc(q - 1, f.mantSize);
    }
    UnitsAt(f, e, n);
    UnitsAt(f, e, n + 1);
  }

  lemma UnitsZero(f: Format)
    ensures f.Units(0) == 0
  {
    LowSmall(0, f.mantSize);
  }

  lemma {:induction false} UnitsStep(f: Format, k: nat)
    ensures f.Units(k) < f.Units(k + 1)
  {
    var e, n := Decompose(f, k);
    ShlOrder(n, n + 1, e - 1);
  }

  lemma {:induction false} UnitsMono(f: Format, j: nat, k: nat)
    requires j <= k
    ensures f.Units(j) <= f.Units(k)
    ensures j < k ==> f.Units(j) < f.Units(k)
    decreases k
  {
    if j < k {
      UnitsMono(f, j, k - 1);
      UnitsStep(f, k - 1);
    }
  }

  // ----- magnitudes -----

  lemma BelowMono(x: Magnitude, y: real, z: real)
    requires 0.0 <= y <= z
    requires x.Below(y)
    ensures x.Below(z) && !x.Is(y) && !x.Is(z)
  {
    assert x.Root? ==> y * y <= z * z;
  }

  lemma IsBetween(x: Magnitude, y: real, z: real)
    requires 0.0 <= y < z
    requires x.Is(y)
    ensures !x.Below(y) && x.Below(z)
  {
    SquareOrder(y, z);
  }

  lemma TwiceCompare(x: Magnitude, y: real)
    ensures x.Twice().Below(2.0 * y) <==> x.Below(y)
    ensures x.Twice().Is(2.0 * y) <==> x.Is(y)
  {
    assert (2.0 * y) * (2.0 * y) == 4.0 * (y * y);
  }

  // ----- the floor is unique -----

  lemma {:induction false} FloorFromUnique(f: Format, x: Magnitude, k: nat, j: nat)
    requires k <= j
    requires !BelowBits(f, x, k)
    requires x.Below(f.Units(k + 1) as real)
    ensures FloorFrom(f, x, j) == k
    decreases j
  {
    if j > k {
      UnitsMono(f, k + 1, j);
      BelowMono(x, f.Units(k + 1) as real, f.Units(j) as real);
      FloorFromUnique(f, x, k, j - 1);
    }
  }

  lemma {:induction false} FloorUnique(f: Format, x: Magnitude, k: nat)
    requires k < f.Inf()
    requires !x.Below(f.Units(k) as real) && x.Below(f.Units(k + 1) as real)
    ensures FloorBits(f, x) == k
  {
    FloorFromUnique(f, x, k, f.Inf());
  }

  /** A number strictly inside the range is rounded to one of its neighbours, exactly only if it is one. */
  lemma RoundFrom(f: Format, rm: RoundingMode, sign: bool, x: Magnitude, k: nat)
    requires k < f.Inf() && FloorBits(f, x) == k && x.Below(f.Units(k + 1) as real)
    ensures Inexact(f, rm, sign, x) <==> !x.Is(f.Units(k) as real)
    ensures Overflows(f, rm, sign, x) <==> RoundBits(f, rm, sign, x) == f.Inf()
    ensures Overflows(f, rm, sign, x) ==> !Chops(rm, sign)
  {
    hide BinaryFormat.Units, BinaryFormat.Inf, FloorBits, Midpoint;
    BelowMono(x, f.Units(k + 1) as real, f.Units(k + 1) as real);
  }
}
