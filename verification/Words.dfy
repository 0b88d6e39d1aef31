/**
 Words of a format: naturals below 2^FSize(). The C operators << (which drops
 high bits), >>, & and | on words become Shl/ShlW, Shr, Low and additions of
 disjoint bit fields. Below the fields stand the lemmas that read a word as a
 number.
 */
module Words {
  import opened Powers
  import opened Ieee

  /** Shift left inside an F-bit word. */
  function ShlW(f: Format, a: nat, d: nat): nat {
    Low(Shl(a, d), f.FSize())
  }

  /** a - b in an F-bit word. */
  function SubW(f: Format, a: nat, b: nat): nat
    requires b <= Pow2(f.FSize())
  {
    if a >= b then a - b else a + Pow2(f.FSize()) - b
  }

  /** a | b, for a single low bit b. */
  function OrBit(a: nat, b: bool): nat {
    if b && a % 2 == 0 then a + 1 else a
  }

  function BitLen(a: nat): nat {
    if a == 0 then 0 else 1 + BitLen(a / 2)
  }

  /** Number of leading zeros of a word. */
  function Clz(f: Format, a: nat): int {
    f.FSize() - BitLen(a)
  }

  // ----- fields of a word -----

  ghost predicate IsWord(f: Format, a: nat) {
    a < Pow2(f.FSize())
  }

  predicate SignOf(f: Format, a: nat) {
    Shr(a, f.FSize() - 1) == 1
  }

  function MagOf(f: Format, a: nat): nat {
    Low(a, f.FSize() - 1)
  }

  function ExpOf(f: Format, a: nat): nat {
    Low(Shr(a, f.mantSize), f.expSize)
  }

  function MantOf(f: Format, a: nat): nat {
    Low(a, f.mantSize)
  }

  predicate IsNan(f: Format, a: nat) {
    ExpOf(f, a) == f.ExpMask() && MantOf(f, a) != 0
  }

  predicate IsSigNan(f: Format, a: nat) {
    Low(Shr(a, f.mantSize - 1), f.expSize + 1) == 2 * f.ExpMask() && MantOf(f, a) != 0
  }

  predicate IsInf(f: Format, a: nat) {
    ExpOf(f, a) == f.ExpMask() && MantOf(f, a) == 0
  }

  predicate IsZero(f: Format, a: nat) {
    ExpOf(f, a) == 0 && MantOf(f, a) == 0
  }

  function QNan(f: Format): nat {
    Shl(f.ExpMask(), f.mantSize) + Pow2(f.mantSize - 1)
  }

  function SignBit(f: Format, sign: bool): nat {
    if sign then Pow2(f.FSize() - 1) else 0
  }

  function Pack(f: Format, sign: bool, exp: nat, mant: nat): nat {
    SignBit(f, sign) + Shl(exp, f.mantSize) + Low(mant, f.mantSize)
  }

  /** Effective exponent: subnormals share the exponent of the smallest normals. */
  function EffExp(f: Format, a: nat): nat {
    if ExpOf(f, a) == 0 then 1 else ExpOf(f, a)
  }

  /** The significand with its implicit bit. */
  function FullMant(f: Format, a: nat): nat {
    if ExpOf(f, a) == 0 then MantOf(f, a) else Pow2(f.mantSize) + MantOf(f, a)
  }

  // ----- significands of nonzero finite numbers -----

  /** Biased exponent of a nonzero finite number once its significand has its top bit at mantSize. */
  function NormExp(f: Format, a: nat): int {
    if ExpOf(f, a) == 0 then 1 - (f.mantSize - (BitLen(MantOf(f, a)) - 1)) else ExpOf(f, a)
  }

  /** That significand. */
  function NormMant(f: Format, a: nat): nat
    requires !IsZero(f, a)
  {
    MantBits(f, a);
    if ExpOf(f, a) == 0 then Shl(MantOf(f, a), f.mantSize - (BitLen(MantOf(f, a)) - 1))
    else Pow2(f.mantSize) + MantOf(f, a)
  }

  // ----- reading a word as a number -----

  lemma {:induction false} BitLenBounds(a: nat)
    requires a > 0
    ensures BitLen(a) >= 1 && Pow2(BitLen(a) - 1) <= a < Pow2(BitLen(a))
  {
    if a > 1 { BitLenBounds(a / 2); }
  }

  lemma BitLenAtMost(a: nat, n: nat)
    requires a < Pow2(n)
    ensures BitLen(a) <= n
  {
    if a > 0 {
      BitLenBounds(a);
      if BitLen(a) > n { Pow2Mono(n, BitLen(a) - 1); }
    }
  }

  lemma BitLenIs(a: nat, n: nat)
    requires Pow2(n) <= a < 2 * Pow2(n)
    ensures BitLen(a) == n + 1
  {
    BitLenAtMost(a, n + 1);
    BitLenBounds(a);
    if BitLen(a) <= n { Pow2Mono(BitLen(a), n); }
  }

  lemma MantBits(f: Format, a: nat)
    ensures BitLen(MantOf(f, a)) <= f.mantSize
  {
    BitLenAtMost(MantOf(f, a), f.mantSize);
  }

  /** A word is its sign bit and its magnitude pattern; the pattern is exponent and mantissa side by side. */
  lemma WordFields(f: Format, a: nat)
    requires IsWord(f, a)
    ensures a == SignBit(f, SignOf(f, a)) + MagOf(f, a)
    ensures MagOf(f, a) == Shl(ExpOf(f, a), f.mantSize) + MantOf(f, a)
    ensures MagOf(f, a) < Pow2(f.FSize() - 1)
    ensures ExpOf(f, a) <= f.ExpMask()
  {
    hide Shl, Shr, Low;
    var n := f.FSize() - 1;
    ShrLow(a, n);
    ShrBound(a, n, 1);
    ShlOne(n);
    var mag := MagOf(f, a);
    ShrLow(mag, f.mantSize);
    ShrBound(mag, f.mantSize, f.expSize);
    var hi, e, m := Shr(a, n), Shr(mag, f.mantSize), Low(mag, f.mantSize);
    ShlShl(hi, f.expSize, f.mantSize);
    ShlAdd(Shl(hi, f.expSize), e, f.mantSize);
    SplitUnique(a, f.mantSize, Shl(hi, f.expSize) + e, m);
    SplitUnique(Shl(hi, f.expSize) + e, f.expSize, hi, e);
  }

  /** The fields of a packed word are those it was packed from. */
  lemma PackFields(f: Format, sign: bool, k: nat)
    requires k < Pow2(f.FSize() - 1)
    ensures IsWord(f, SignBit(f, sign) + k)
    ensures SignOf(f, SignBit(f, sign) + k) == sign && MagOf(f, SignBit(f, sign) + k) == k
  {
    ShlOne(f.FSize() - 1);
    SplitUnique(SignBit(f, sign) + k, f.FSize() - 1, if sign then 1 else 0, k);
  }

  /** The number a word denotes, by its effective exponent and full significand. */
  lemma UnitsOfWord(f: Format, a: nat)
    requires IsWord(f, a)
    ensures f.Units(MagOf(f, a)) == Shl(FullMant(f, a), EffExp(f, a) - 1)
    ensures FullMant(f, a) < 2 * Pow2(f.mantSize)
    ensures EffExp(f, a) > 1 ==> FullMant(f, a) >= Pow2(f.mantSize)
  {
    WordFields(f, a);
    SplitUnique(MagOf(f, a), f.mantSize, ExpOf(f, a), MantOf(f, a));
  }

  /** Finite words have patterns below infinity. */
  lemma FiniteBelowInf(f: Format, a: nat)
    requires IsWord(f, a)
    ensures ExpOf(f, a) != f.ExpMask() <==> MagOf(f, a) < f.Inf()
  {
    WordFields(f, a);
    SplitUnique(MagOf(f, a), f.mantSize, ExpOf(f, a), MantOf(f, a));
    ShrOrder(MagOf(f, a), f.mantSize, f.ExpMask());
  }
}
