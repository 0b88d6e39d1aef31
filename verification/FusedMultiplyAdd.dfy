/**
 fma_sf: a double-word product, an aligned double-word addend, one addition or
 subtraction, and one rounding. The result is the exact a * b + c, rounded once,
 although the alignment may drop sticky bits of the low word.
 */
module FusedMultiplyAdd {
  import opened Powers
  import opened Ieee
  import opened Words
  import opened Rounding
  import opened Addition
  import opened Multiplication
  import opened Division

  /** A double word. */
  datatype DWord = DWord(hi: nat, lo: nat) {
    ghost function Value(f: Format): nat {
      Shl(hi, f.FSize()) + lo
    }

    ghost predicate Fits(f: Format) {
      hi < Pow2(f.FSize()) && lo < Pow2(f.FSize())
    }
  }

  /** The product of two significands with its top bit brought to FSize() - 3 of the high word. */
  function FmaProduct(f: Format, am: nat, bm: nat): (DWord, bool) {
    var (hi, lo) := MulU(f, Shl(am, f.RndSize()), Shl(bm, f.RndSize()));
    if hi < Pow2(f.FSize() - 3) then
      (DWord(ShlW(f, hi, 1) + Shr(lo, f.FSize() - 1), ShlW(f, lo, 1)), true)
    else (DWord(hi, lo), false)
  }

  /** The smaller operand shifted right with a sticky bit; from a shift of FSize() + 1 on the low word is dropped. */
  function FmaAlign(f: Format, c: DWord, shift: nat): DWord {
    var n := f.FSize();
    if shift >= 2 * n then DWord(0, if c.lo != 0 || c.hi != 0 then 1 else 0)
    else if shift >= n + 1 then DWord(0, RshiftRnd(f, c.hi, shift - n))
    else if shift == n then DWord(0, OrBit(c.hi, c.lo != 0))
    else if shift != 0 then
      DWord(Shr(c.hi, shift), OrBit(ShlW(f, c.hi, n - shift) + Shr(c.lo, shift), Low(c.lo, shift) != 0))
    else c
  }

  function DAdd(f: Format, r: DWord, c: DWord): DWord {
    var lo := Low(r.lo + c.lo, f.FSize());
    DWord(Low(r.hi + c.hi + (if lo < c.lo then 1 else 0), f.FSize()), lo)
  }

  function DSub(f: Format, r: DWord, c: DWord): DWord
    requires c.lo <= Pow2(f.FSize()) && c.hi < Pow2(f.FSize())
  {
    var lo := SubW(f, r.lo, c.lo);
    DWord(SubW(f, r.hi, c.hi + (if lo > r.lo then 1 else 0)), lo)
  }

  /** The sum of aligned operands of exponents be >= se and signs bs and ss, rounded. */
  function FmaCombine(f: Format, bs: bool, be: int, big: DWord, ss: bool, se: int, small: DWord,
                      rm: RoundingMode, ff: Flags): (nat, Flags)
    requires be >= se && Ordered(f, big, small, be - se)
  {
    CombineFits(f, big, small, be - se);
    var al := FmaAlign(f, small, be - se);
    if bs == ss then
      var d := DAdd(f, big, al);
      Normalize2(f, bs, be, d.hi, d.lo, rm, ff)
    else
      var d := DSub(f, big, al);
      Normalize2(f, if d.hi == 0 && d.lo == 0 then rm == RDN else bs, be, d.hi, d.lo, rm, ff)
  }

  /** The addend as a double word whose top bit is where the product has it. */
  function FmaAddend(f: Format, c: nat): DWord
    requires !IsZero(f, c)
  {
    DWord(ShlW(f, NormMant(f, c), f.RndSize() - 1), 0)
  }

  /** Biased exponent of the double-word product. */
  function FmaExp(f: Format, a: nat, b: nat): int
    requires !IsZero(f, a) && !IsZero(f, b)
  {
    NormExp(f, a) + NormExp(f, b) - Pow2(f.expSize - 1) + 3
      - (if FmaProduct(f, NormMant(f, a), NormMant(f, b)).1 then 1 else 0)
  }

  /** a * b + c for nonzero finite a and b and finite c. */
  function FmaNormal(f: Format, a: nat, b: nat, c: nat, rm: RoundingMode, ff: Flags): (nat, Flags)
    requires !IsZero(f, a) && !IsZero(f, b)
  {
    var sign, exp := SignOf(f, a) != SignOf(f, b), FmaExp(f, a, b);
    var r := FmaProduct(f, NormMant(f, a), NormMant(f, b)).0;
    FmaProductFull(f, a, b);
    if IsZero(f, c) then
      ClzPositive(f, OrBit(r.hi, r.lo != 0));
      Normalize(f, sign, exp, OrBit(r.hi, r.lo != 0), rm, ff)
    else
      FmaAddendFull(f, c);
      var cexp, cd := NormExp(f, c) + 1, FmaAddend(f, c);
      OrderedOperands(f, r, cd, exp, cexp);
      if exp > cexp || (exp == cexp && r.hi >= cd.hi) then
        FmaCombine(f, sign, exp, r, SignOf(f, c), cexp, cd, rm, ff)
      else
        FmaCombine(f, SignOf(f, c), cexp, cd, sign, exp, r, rm, ff)
  }

  function FmaSf(f: Format, a: nat, b: nat, c: nat, rm: RoundingMode, ff: Flags): (nat, Flags)
    requires IsWord(f, a) && IsWord(f, b) && IsWord(f, c)
  {
    var sign := SignOf(f, a) != SignOf(f, b);
    var ea, eb, ec, mask := ExpOf(f, a), ExpOf(f, b), ExpOf(f, c), f.ExpMask();
    if ea == mask || eb == mask || ec == mask then
      if IsNan(f, a) || IsNan(f, b) || IsNan(f, c) then
        (QNan(f), if IsSigNan(f, a) || IsSigNan(f, b) || IsSigNan(f, c) then ff.Or(INVALID) else ff)
      else if (ea == mask && IsZero(f, b)) || (eb == mask && IsZero(f, a)) ||
              ((ea == mask || eb == mask) && ec == mask && sign != SignOf(f, c)) then
        (QNan(f), ff.Or(INVALID))
      else if ec == mask then (Pack(f, SignOf(f, c), mask, 0), ff)
      else (Pack(f, sign, mask, 0), ff)
    else if IsZero(f, a) || IsZero(f, b) then
      if IsZero(f, c) then (Pack(f, if SignOf(f, c) != sign then rm == RDN else sign, 0, 0), ff)
      else (c, ff)
    else FmaNormal(f, a, b, c, rm, ff)
  }

  // ----- double words -----

  lemma DWordOf(f: Format, v: nat)
    requires v < Pow2(2 * f.FSize())
    ensures var d := DWord(Shr(v, f.FSize()), Low(v, f.FSize())); d.Fits(f) && d.Value(f) == v
  {
    ShrLow(v, f.FSize());
    ShrBound(v, f.FSize(), f.FSize());
  }

  /** The words of a double word are determined by its value. */
  lemma DWordUnique(f: Format, d: DWord, v: nat)
    requires d.lo < Pow2(f.FSize()) && d.Value(f) == v
    ensures d.hi == Shr(v, f.FSize()) && d.lo == Low(v, f.FSize())
  {
    SplitUnique(v, f.FSize(), d.hi, d.lo);
  }

  lemma DAddValue(f: Format, r: DWord, c: DWord)
    requires r.Fits(f) && c.Fits(f) && r.Value(f) + c.Value(f) < Pow2(2 * f.FSize())
    ensures DAdd(f, r, c).Fits(f) && DAdd(f, r, c).Value(f) == r.Value(f) + c.Value(f)
  {
    hide Shl, Shr, Low;
    var n := f.FSize();
    var sum, carry := r.lo + c.lo, if r.lo + c.lo >= Pow2(n) then 1 else 0;
    ShlOne(n);
    if carry == 1 { SplitUnique(sum, n, 1, sum - Pow2(n)); } else { LowSmall(sum, n); }
    assert carry == if Low(sum, n) < c.lo then 1 else 0;
    ShlAdd(r.hi, c.hi, n);
    ShlAdd(r.hi + c.hi, carry, n);
    var hi := r.hi + c.hi + carry;
    assert Shl(hi, n) + Low(sum, n) == r.Value(f) + c.Value(f);
    Pow2Shl(n, n);
    ShlOrder(hi, Pow2(n), n);
    LowSmall(hi, n);
  }

  lemma DSubValue(f: Format, r: DWord, c: DWord)
    requires r.Fits(f) && c.Fits(f) && c.Value(f) <= r.Value(f)
    ensures DSub(f, r, c).Fits(f) && DSub(f, r, c).Value(f) == r.Value(f) - c.Value(f)
  {
    hide Shl, Shr, Low;
    var n := f.FSize();
    var borrow := if r.lo < c.lo then 1 else 0;
    ShlSucc(c.hi, n);
    ShlOrder(r.hi, c.hi + borrow, n);
    assert c.hi + borrow <= r.hi by {
      ShlSucc(r.hi, n);
      ShlOrder(r.hi + 1, c.hi + borrow, n);
    }
    ShlAdd(r.hi - (c.hi + borrow), c.hi + borrow, n);
  }

  // ----- alignment -----

  lemma OrBitFits(a: nat, b: bool, n: nat)
    requires n >= 1 && a < Pow2(n)
    ensures OrBit(a, b) < Pow2(n)
  {
    Pow2Double(n - 1);
  }

  lemma OrBitHigh(h: nat, n: nat, a: nat, b: bool)
    requires n >= 1
    ensures Shl(h, n) + OrBit(a, b) == OrBit(Shl(h, n) + a, b)
  {
    ShlShl(h, n - 1, 1);
  }

  /** A short shift splits both words. */
  lemma ShiftWords(n: nat, hi: nat, lo: nat, d: nat)
    requires 1 <= d < n && hi < Pow2(n) && lo < Pow2(n)
    ensures var v := Shl(hi, n) + lo;
            && Low(v, d) == Low(lo, d)
            && Shl(Shr(hi, d), n) + (Low(Shl(hi, n - d), n) + Shr(lo, d)) == Shr(v, d)
            && Low(Shl(hi, n - d), n) + Shr(lo, d) < Pow2(n)
  {
    hide Shl, Shr, Low;
    var v, e := Shl(hi, n) + lo, n - d;
    ShrLow(lo, d);
    ShlShl(hi, e, d);
    ShlAdd(Shl(hi, e), Shr(lo, d), d);
    SplitUnique(v, d, Shl(hi, e) + Shr(lo, d), Low(lo, d));
    ShrLow(hi, d);
    ShlAdd(Shl(Shr(hi, d), d), Low(hi, d), e);
    ShlShl(Shr(hi, d), d, e);
    Pow2Shl(d, e);
    ShlSucc(Low(hi, d), e);
    ShlOrder(Pow2(d), Low(hi, d) + 1, e);
    ShrBound(lo, d, e);
    SplitUnique(Shl(hi, e), n, Shr(hi, d), Shl(Low(hi, d), e));
  }

  /** A long shift of a double word with a zero low word is a shift of the high word. */
  lemma ShiftHigh(n: nat, hi: nat, k: nat)
    ensures Shr(Shl(hi, n), k + n) == Shr(hi, k)
    ensures Low(Shl(hi, n), k + n) == 0 <==> Low(hi, k) == 0
  {
    hide Shl, Shr, Low;
    ShrLow(hi, k);
    ShlAdd(Shl(Shr(hi, k), k), Low(hi, k), n);
    ShlShl(Shr(hi, k), k, n);
    Pow2Shl(k, n);
    ShlOrder(Low(hi, k), Pow2(k), n);
    SplitUnique(Shl(hi, n), k + n, Shr(hi, k), Shl(Low(hi, k), n));
    ShlOrder(0, Low(hi, k), n);
  }

  /** What the alignment should be: a right shift of the double word with a sticky bit. */
  ghost predicate IsSticky(f: Format, r: DWord, v: nat, shift: nat) {
    r.Fits(f) && r.Value(f) == OrBit(Shr(v, shift), Low(v, shift) != 0)
  }

  lemma AlignShort(f: Format, c: DWord, shift: nat)
    requires c.Fits(f) && 1 <= shift <= f.FSize()
    ensures IsSticky(f, FmaAlign(f, c, shift), c.Value(f), shift)
  {
    hide Shl, Shr, Low, Pow2;
    var n, v := f.FSize(), c.Value(f);
    Pow2Double(n - 1);
    if shift == n {
      DWordUnique(f, c, v);
      OrBitFits(c.hi, c.lo != 0, n);
    } else {
      ShiftWords(n, c.hi, c.lo, shift);
      var lo, sticky := ShlW(f, c.hi, n - shift) + Shr(c.lo, shift), Low(c.lo, shift) != 0;
      OrBitFits(lo, sticky, n);
      OrBitHigh(Shr(c.hi, shift), n, lo, sticky);
      ShrBelow(c.hi, shift);
    }
  }

  lemma AlignLong(f: Format, c: DWord, shift: nat)
    requires c.Fits(f) && shift > f.FSize() && (shift >= 2 * f.FSize() || c.lo == 0)
    ensures IsSticky(f, FmaAlign(f, c, shift), c.Value(f), shift)
  {
    hide Shl, Shr, Low, Pow2;
    var n, v := f.FSize(), c.Value(f);
    Pow2Double(n - 1);
    if shift >= 2 * n {
      DWordBelow(f, c);
      Pow2Mono(2 * n, shift);
      LowSmall(v, shift);
      ShlOrder(0, c.hi, n);
    } else {
      RshiftRndIs(f, c.hi, shift - n);
      ShiftHigh(n, c.hi, shift - n);
      ShrBelow(c.hi, shift - n);
      OrBitFits(Shr(c.hi, shift - n), Low(c.hi, shift - n) != 0, n);
    }
  }

  /** Where the alignment keeps every sticky bit it is a right shift of the double word. */
  lemma AlignKeeps(f: Format, c: DWord, shift: nat)
    requires c.Fits(f) && (shift <= f.FSize() || shift >= 2 * f.FSize() || c.lo == 0)
    ensures IsSticky(f, FmaAlign(f, c, shift), c.Value(f), shift)
  {
    hide Shl, Shr, Low, Pow2;
    if shift > f.FSize() {
      AlignLong(f, c, shift);
    } else if shift != 0 {
      AlignShort(f, c, shift);
    } else {
      ShiftNone(c.Value(f));
    }
  }

  lemma ShiftNone(v: nat)
    ensures Shr(v, 0) == v && Low(v, 0) == 0
  {
  }

  lemma DWordBelow(f: Format, c: DWord)
    requires c.Fits(f)
    ensures c.Value(f) < Pow2(2 * f.FSize())
  {
    hide Shl;
    var n := f.FSize();
    Pow2Shl(n, n);
    ShlSucc(c.hi, n);
    ShlOrder(Pow2(n), c.hi + 1, n);
  }

  /** Where it drops the low word, both what it keeps and what it should keep lie strictly inside the low word. */
  lemma AlignDrops(f: Format, c: DWord, shift: nat)
    requires c.Fits(f) && c.hi > 0 && f.FSize() < shift < 2 * f.FSize()
    ensures FmaAlign(f, c, shift).Fits(f) && 0 < FmaAlign(f, c, shift).Value(f) < Pow2(f.FSize())
    ensures 0 < c.Value(f) < Shl(Pow2(f.FSize()), shift)
  {
    hide Shl, Shr, Low, Pow2;
    var n, k := f.FSize(), shift - f.FSize();
    RshiftRndIs(f, c.hi, k);
    ShrLow(c.hi, k);
    ShrBelow(c.hi, k);
    OrBitFits(Shr(c.hi, k), Low(c.hi, k) != 0, n);
    DWordBelow(f, c);
    Pow2Shl(n, shift);
    Pow2Mono(2 * n, n + shift);
  }

  lemma ShrBelow(a: nat, k: nat)
    ensures Shr(a, k) <= a
  {
  }

  // ----- the exact sum of the aligned operands -----

  /** A fraction strictly between 0 and one high-word unit does not matter to multiples of that unit. */
  lemma DroppedOn(b1: nat, n: nat, kept: nat, c: nat, shift: nat, s: int, k: nat)
    requires 0 < kept < Pow2(n) && 0 < c < Shl(Pow2(n), shift)
    ensures AgreesOn(Plain(At(Shl(b1, n), s) + At(c, s - shift)), Shl(b1, n) + kept, Shl(k, n), s)
    ensures b1 > 0 && kept <= Shl(b1, n) ==>
            AgreesOn(Plain(At(Shl(b1, n), s) - At(c, s - shift)), Shl(b1, n) - kept, Shl(k, n), s)
  {
    hide Shl, At, Pow2;
    assert 0.0 < At(c, s - shift) < At(Pow2(n), s) by {
      AtPositive(c, s - shift);
      AtShl(Pow2(n), shift, s - shift);
      AtOrder(c, Shl(Pow2(n), shift), s - shift);
    }
    ShlSucc(b1, n);
    ShlOrder(b1, k, n);
    ShlOrder(b1 + 1, k, n);
    AtSum(Shl(b1, n), Pow2(n), s);
    AtOrder(Shl(b1, n), Shl(k, n), s);
    AtOrder(Shl(b1 + 1, n), Shl(k, n), s);
    if b1 > 0 {
      ShlSucc(b1 - 1, n);
      ShlOrder(b1 - 1, k, n);
      AtSum(Shl(b1 - 1, n), Pow2(n), s);
      AtOrder(Shl(b1 - 1, n), Shl(k, n), s);
    }
  }

  lemma DroppedAgrees(b1: nat, n: nat, kept: nat, c: nat, shift: nat, s: int)
    requires 0 < kept < Pow2(n) && 0 < c < Shl(Pow2(n), shift) && b1 > 0
    ensures kept <= Shl(b1, n)
    ensures Agrees(Plain(At(Shl(b1, n), s) + At(c, s - shift)), Shl(b1, n) + kept, n, s)
    ensures Agrees(Plain(At(Shl(b1, n), s) - At(c, s - shift)), Shl(b1, n) - kept, n, s)
  {
    hide Shl, At, AgreesOn;
    ShlOne(n);
    ShlOrder(b1, 1, n);
    var x, y := Plain(At(Shl(b1, n), s) + At(c, s - shift)), Plain(At(Shl(b1, n), s) - At(c, s - shift));
    forall k: nat ensures AgreesOn(x, Shl(b1, n) + kept, Shl(k, n), s) { DroppedOn(b1, n, kept, c, shift, s, k); }
    forall k: nat ensures AgreesOn(y, Shl(b1, n) - kept, Shl(k, n), s) { DroppedOn(b1, n, kept, c, shift, s, k); }
  }

  // ----- normalize2_sf is correct -----

  /** Collapsing a short left shift is a sticky shift down by one word. */
  lemma CollapseShort(f: Format, d: DWord, shift: nat)
    requires d.Fits(f) && shift < f.FSize() && Shl(d.hi, shift) < Pow2(f.FSize())
    ensures var v := Shl(d.Value(f), shift);
            Collapse(f, d.hi, d.lo, shift) == OrBit(Shr(v, f.FSize()), Low(v, f.FSize()) != 0)
  {
    hide Shl, Shr, Low;
    var n, v := f.FSize(), Shl(d.Value(f), shift);
    ShlAdd(Shl(d.hi, n), d.lo, shift);
    ShlShl(d.hi, n, shift);
    ShlShl(d.hi, shift, n);
    if shift == 0 {
      SplitUnique(v, n, d.hi, d.lo);
    } else {
      LowSmall(Shl(d.hi, shift), n);
      ShiftUp(n, d.lo, shift);
      var up := Shr(d.lo, n - shift);
      ShlAdd(Shl(d.hi, shift), up, n);
      SplitUnique(v, n, Shl(d.hi, shift) + up, Low(Shl(d.lo, shift), n));
    }
  }

  /** Shifting a word left moves its top bits into the next word. */
  lemma ShiftUp(n: nat, lo: nat, d: nat)
    requires 1 <= d < n && lo < Pow2(n)
    ensures Shl(lo, d) == Shl(Shr(lo, n - d), n) + Low(Shl(lo, d), n)
  {
    hide Shl, Shr, Low;
    var e := n - d;
    ShrLow(lo, e);
    ShlAdd(Shl(Shr(lo, e), e), Low(lo, e), d);
    ShlShl(Shr(lo, e), e, d);
    Pow2Shl(e, d);
    ShlOrder(Low(lo, e), Pow2(e), d);
    SplitUnique(Shl(lo, d), n, Shr(lo, e), Shl(Low(lo, e), d));
  }

  /** The shift of normalize2_sf and the normalized word it yields, for a nonzero high word. */
  lemma CollapseHigh(f: Format, d: DWord)
    requires d.Fits(f) && 0 < d.hi < Pow2(f.FSize() - 1)
    ensures var shift := Clz(f, d.hi) - 1;
            && 0 <= shift < f.FSize() - 1
            && Shl(d.hi, shift) < Pow2(f.FSize())
            && Normalized(f, Collapse(f, d.hi, d.lo, shift))
  {
    hide Shl, Shr, Low, BitLen, Collapse, Pow2;
    var n := f.FSize();
    ClzPositive(f, d.hi);
    BitLenBounds(d.hi);
    var shift := Clz(f, d.hi) - 1;
    NormalizeShift(f, d.hi);
    ShlOrder(0, d.hi, shift);
    Pow2Mono(n - 1, n);
    CollapseShort(f, d, shift);
    var v := Shl(d.Value(f), shift);
    ShlAdd(Shl(d.hi, n), d.lo, shift);
    ShlShl(d.hi, n, shift);
    ShlShl(d.hi, shift, n);
    Pow2Shl(n - 2, n);
    ShlOrder(Shl(d.hi, shift), Pow2(n - 2), n);
    Pow2Shl(BitLen(d.hi), shift);
    CollapseBelow(n, d.hi, d.lo, shift);
    StickyRange(v, n, n - 2, n - 1);
  }

  lemma CollapseBelow(n: nat, hi: nat, lo: nat, shift: nat)
    requires n >= 1 && Shl(hi, shift) < Pow2(n - 1) && lo < Pow2(n) && shift <= n - 1
    requires Shl(Pow2(BitLen(hi)), shift) == Pow2(n - 1)
    ensures Shl(Shl(hi, n) + lo, shift) < Pow2(n - 1 + n)
  {
    hide Shl, BitLen;
    var v := Shl(hi, n) + lo;
    ShlSucc(hi, n);
    ShlOrder(v, Shl(hi + 1, n), shift);
    ShlShl(hi + 1, n, shift);
    BitLenTop(hi);
    ShlOrder(hi + 1, Pow2(BitLen(hi)) + 1, n + shift);
    ShlOrder(Pow2(BitLen(hi)), hi + 1, n + shift);
    ShlShl(Pow2(BitLen(hi)), shift, n);
    Pow2Shl(n - 1, n);
  }

  lemma BitLenTop(a: nat)
    ensures a < Pow2(BitLen(a))
  {
    if a > 0 { BitLenBounds(a); }
  }

  /** Agreement of a double word carries over to its collapsed and normalized single word. */
  lemma CollapseAgrees(f: Format, d: DWord, shift: nat, x: Magnitude, t: nat, s: int)
    requires d.Fits(f) && shift < f.FSize() && Shl(d.hi, shift) < Pow2(f.FSize())
    requires Agrees(x, d.Value(f), t, s) && t + shift <= f.FSize() + f.RndSize() - 1
    ensures Agrees(x, Collapse(f, d.hi, d.lo, shift), f.RndSize() - 1, s - shift + f.FSize())
  {
    hide Shl, Shr, Low, Agrees, Collapse;
    var v := d.Value(f);
    CollapseShort(f, d, shift);
    AgreesShl(x, v, t, s, shift);
    AgreesSticky(x, Shl(v, shift), t + shift, s - shift, f.FSize(), f.RndSize() - 1);
  }

  /** An inexact double word needs only four bits of headroom to be rounded correctly. */
  lemma Normalize2Sticky(f: Format, sign: bool, exp: int, d: DWord, rm: RoundingMode, ff: Flags, x: Magnitude, t: nat)
    requires d.Fits(f) && Pow2(f.FSize() - 4) <= d.hi < Pow2(f.FSize() - 1)
    requires t <= f.FSize() && Agrees(x, d.Value(f), t, exp - 1 - f.RndSize() - f.FSize())
    ensures Clz(f, d.hi) >= 1 && Clz(f, d.lo) >= 0
    ensures Normalize2(f, sign, exp, d.hi, d.lo, rm, ff) == Rounded(f, sign, rm, ff, x)
  {
    hide Shl, Shr, Low, BitLen, Agrees, Collapse, RoundPack, Rounded, Normalized;
    CollapseHigh(f, d);
    BitLenAtMost(d.lo, f.FSize());
    var shift := Clz(f, d.hi) - 1;
    assert shift <= 2 by {
      BitLenBounds(d.hi);
      if BitLen(d.hi) < f.FSize() - 3 { Pow2Mono(BitLen(d.hi), f.FSize() - 4); }
    }
    CollapseAgrees(f, d, shift, x, t, exp - 1 - f.RndSize() - f.FSize());
    RoundPackCorrect(f, sign, exp - shift, Collapse(f, d.hi, d.lo, shift), rm, ff, x);
  }

  /** An exact double word is rounded correctly however far it cancelled. */
  lemma Normalize2Exact(f: Format, sign: bool, exp: int, d: DWord, rm: RoundingMode, ff: Flags, x: Magnitude)
    requires d.Fits(f) && d.hi < Pow2(f.FSize() - 1)
    requires IsAt(x, d.Value(f), exp - 1 - f.RndSize() - f.FSize())
    ensures Clz(f, d.hi) >= 1 && Clz(f, d.lo) >= 0
    ensures Normalize2(f, sign, exp, d.hi, d.lo, rm, ff) == Rounded(f, sign, rm, ff, x)
  {
    hide Shl, Shr, Low, BitLen, Agrees, Collapse, RoundPack, Rounded, Normalized;
    var s := exp - 1 - f.RndSize() - f.FSize();
    ClzPositive(f, d.hi);
    BitLenAtMost(d.lo, f.FSize());
    AgreesExact(x, d.Value(f), 0, s);
    if d.hi > 0 {
      CollapseHigh(f, d);
      var shift := Clz(f, d.hi) - 1;
      CollapseAgrees(f, d, shift, x, 0, s);
      RoundPackCorrect(f, sign, exp - shift, Collapse(f, d.hi, d.lo, shift), rm, ff, x);
    } else if d.lo >= Pow2(f.FSize() - 1) {
      CollapseTop(f, d);
      var shift := f.FSize() - 1;
      CollapseAgrees(f, d, shift, x, 0, s);
      RoundPackCorrect(f, sign, exp - shift, Collapse(f, d.hi, d.lo, shift), rm, ff, x);
    } else {
      CollapseLow(f, d, x, s);
      var shift := f.FSize() + Clz(f, d.lo) - 1;
      RoundPackCorrect(f, sign, exp - shift, Collapse(f, d.hi, d.lo, shift), rm, ff, x);
    }
  }

  /** A double word that is a full low word loses one bit when collapsed. */
  lemma CollapseTop(f: Format, d: DWord)
    requires d.hi == 0 && Pow2(f.FSize() - 1) <= d.lo < Pow2(f.FSize())
    ensures Clz(f, d.lo) == 0
    ensures Normalized(f, Collapse(f, d.hi, d.lo, f.FSize() - 1))
    ensures d.Fits(f) && Shl(d.hi, f.FSize() - 1) < Pow2(f.FSize())
  {
    hide Shl, Shr, Low, BitLen, Collapse, Pow2;
    var n := f.FSize();
    Pow2Double(n - 1);
    BitLenIs(d.lo, n - 1);
    CollapseShort(f, d, n - 1);
    var v := Shl(d.lo, n - 1);
    Pow2Shl(n - 1, n - 1);
    Pow2Shl(n, n - 1);
    ShlOrder(d.lo, Pow2(n - 1), n - 1);
    ShlOrder(d.lo, Pow2(n), n - 1);
    StickyRange(v, n, n - 2, n - 1);
  }

  /** A double word whose high word cancelled is shifted up exactly. */
  lemma CollapseLow(f: Format, d: DWord, x: Magnitude, s: int)
    requires d.hi == 0 && d.lo < Pow2(f.FSize() - 1) && IsAt(x, d.lo, s)
    ensures var shift := f.FSize() + Clz(f, d.lo) - 1;
            && shift >= f.FSize()
            && Normalized(f, Collapse(f, d.hi, d.lo, shift))
            && Agrees(x, Collapse(f, d.hi, d.lo, shift), f.RndSize() - 1, s - shift + f.FSize())
  {
    hide Shl, Shr, Low, BitLen, Agrees;
    NormalizeShift(f, d.lo);
    var k := Clz(f, d.lo) - 1;
    UnitChange(x, d.lo, s - k, k);
    AgreesExact(x, Shl(d.lo, k), f.RndSize() - 1, s - k);
  }

  // ----- adding or subtracting the aligned operands -----

  /** The operands of the final addition: full double words, one with a zero low word, the first no smaller. */
  ghost predicate Ordered(f: Format, big: DWord, small: DWord, shift: nat) {
    && big.Fits(f) && small.Fits(f)
    && Pow2(2 * f.FSize() - 3) <= big.Value(f) < Pow2(2 * f.FSize() - 2)
    && small.hi > 0 && small.Value(f) < Pow2(2 * f.FSize() - 2)
    && (shift == 0 ==> small.Value(f) <= big.Value(f))
    && (big.lo == 0 || small.lo == 0)
    && big.Value(f) % 2 == 0
    && Low(small.Value(f), 2) == 0
  }

  /** Does the alignment drop sticky bits of a nonzero low word? */
  ghost predicate DropsLow(f: Format, small: DWord, shift: nat) {
    f.FSize() < shift < 2 * f.FSize() && small.lo != 0
  }

  /** The aligned operand never exceeds the larger one, and both leave headroom. */
  lemma AlignedFits(f: Format, big: DWord, small: DWord, shift: nat)
    requires Ordered(f, big, small, shift)
    ensures var al := FmaAlign(f, small, shift);
            && al.Fits(f) && al.Value(f) <= big.Value(f)
            && big.Value(f) + al.Value(f) < Pow2(2 * f.FSize() - 1)
            && (shift >= 2 ==> big.Value(f) - al.Value(f) >= Pow2(2 * f.FSize() - 4))
  {
    hide Shl, Shr, Low, Pow2, FmaAlign, DWord.Value;
    var n, v := f.FSize(), small.Value(f);
    Pow2Double(2 * n - 2);
    Pow2Double(2 * n - 3);
    Pow2Double(2 * n - 4);
    if DropsLow(f, small, shift) {
      AlignDrops(f, small, shift);
      Pow2Mono(n, 2 * n - 4);
    } else {
      AlignKeeps(f, small, shift);
      if shift == 0 {
        ShiftNone(v);
      } else {
        Pow2Mono(2 * n - 2, shift + (2 * n - 3));
        StickyBound(v, shift, 2 * n - 3);
        if shift >= 2 {
          Pow2Mono(2 * n - 2, shift + (2 * n - 4));
          StickyBound(v, shift, 2 * n - 4);
        }
      }
    }
  }

  lemma HighOfDWord(f: Format, d: DWord, k: nat)
    requires d.Fits(f)
    ensures d.Value(f) < Pow2(k + f.FSize()) <==> d.hi < Pow2(k)
  {
    hide Shl, Shr, Low;
    DWordUnique(f, d, d.Value(f));
    Pow2Shl(k, f.FSize());
    ShrOrder(d.Value(f), f.FSize(), Pow2(k));
  }

  lemma ShortShiftExact(v: nat, shift: nat)
    requires Low(v, 2) == 0 && Low(v, shift) != 0
    ensures shift >= 2
  {
  }

  lemma FmaSum(f: Format, sign: bool, exp: int, big: DWord, small: DWord, shift: nat, rm: RoundingMode, ff: Flags)
    requires Ordered(f, big, small, shift)
    ensures var s := exp - 1 - f.RndSize() - f.FSize();
            var d := DAdd(f, big, FmaAlign(f, small, shift));
            var x := Plain(At(big.Value(f), s) + At(small.Value(f), s - shift));
            && Clz(f, d.hi) >= 1 && Clz(f, d.lo) >= 0
            && Normalize2(f, sign, exp, d.hi, d.lo, rm, ff) == Rounded(f, sign, rm, ff, x)
  {
    hide Shl, Shr, Low, Pow2, At, BitLen, FmaAlign, DAdd, DWord.Value, Agrees, Normalize2, Rounded;
    var n, b, v := f.FSize(), big.Value(f), small.Value(f);
    var s, al := exp - 1 - f.RndSize() - n, FmaAlign(f, small, shift);
    var x := Plain(At(b, s) + At(v, s - shift));
    AlignedFits(f, big, small, shift);
    Pow2Mono(2 * n - 1, 2 * n);
    DAddValue(f, big, al);
    var d := DAdd(f, big, al);
    HighOfDWord(f, d, n - 1);
    HighOfDWord(f, d, n - 4);
    Pow2Mono(2 * n - 4, 2 * n - 3);
    if DropsLow(f, small, shift) {
      DroppedSum(f, big, small, shift, s);
      Normalize2Sticky(f, sign, exp, d, rm, ff, x, n);
    } else {
      AlignKeeps(f, small, shift);
      if Low(v, shift) == 0 {
        ExactShift(v, shift, s);
        AtSum(b, Shr(v, shift), s);
        Normalize2Exact(f, sign, exp, d, rm, ff, x);
      } else {
        SumAgrees(b, v, shift, s);
        Normalize2Sticky(f, sign, exp, d, rm, ff, x, 1);
      }
    }
  }

  /** The sum and the difference have a free top bit. */
  lemma CombineFits(f: Format, big: DWord, small: DWord, shift: nat)
    requires Ordered(f, big, small, shift)
    ensures FmaAlign(f, small, shift).Fits(f)
    ensures var d := DAdd(f, big, FmaAlign(f, small, shift)); Clz(f, d.hi) >= 1 && Clz(f, d.lo) >= 0
    ensures var d := DSub(f, big, FmaAlign(f, small, shift)); Clz(f, d.hi) >= 1 && Clz(f, d.lo) >= 0
  {
    hide DAdd, DSub, FmaAlign, DWord.Value, Clz, Pow2, Low, Normalize2, Rounded;
    AlignedFits(f, big, small, shift);
    FmaSum(f, false, 0, big, small, shift, RTZ, NO_FLAGS);
    FmaDifference(f, false, 0, big, small, shift, RTZ, NO_FLAGS);
  }

  lemma FmaDifference(f: Format, sign: bool, exp: int, big: DWord, small: DWord, shift: nat, rm: RoundingMode,
                      ff: Flags)
    requires Ordered(f, big, small, shift)
    ensures FmaAlign(f, small, shift).Fits(f)
    ensures var s := exp - 1 - f.RndSize() - f.FSize();
            var d := DSub(f, big, FmaAlign(f, small, shift));
            var x := Plain(At(big.Value(f), s) - At(small.Value(f), s - shift));
            && Clz(f, d.hi) >= 1 && Clz(f, d.lo) >= 0
            && (d.hi == 0 && d.lo == 0 <==> x.q == 0.0)
            && Normalize2(f, sign, exp, d.hi, d.lo, rm, ff) == Rounded(f, sign, rm, ff, x)
  {
    hide Shl, Shr, Low, Pow2, At, BitLen, FmaAlign, DSub, DWord.Value, Agrees, Normalize2, Rounded;
    var n, b, v := f.FSize(), big.Value(f), small.Value(f);
    var s, al := exp - 1 - f.RndSize() - n, FmaAlign(f, small, shift);
    var x := Plain(At(b, s) - At(v, s - shift));
    AlignedFits(f, big, small, shift);
    DSubValue(f, big, al);
    var d := DSub(f, big, al);
    HighOfDWord(f, d, n - 1);
    HighOfDWord(f, d, n - 4);
    DWordZero(f, d);
    if DropsLow(f, small, shift) {
      DroppedDifference(f, big, small, shift, s);
      AgreesAtZero(x, d.Value(f), n, s);
      Normalize2Sticky(f, sign, exp, d, rm, ff, x, n);
    } else {
      AlignKeeps(f, small, shift);
      if Low(v, shift) == 0 {
        ExactShift(v, shift, s);
        AtSum(b - Shr(v, shift), Shr(v, shift), s);
        AgreesExact(x, d.Value(f), 0, s);
        AgreesAtZero(x, d.Value(f), 0, s);
        Normalize2Exact(f, sign, exp, d, rm, ff, x);
      } else {
        ShortShiftExact(v, shift);
        DifferenceAgrees(b, v, shift, s);
        AgreesAtZero(x, d.Value(f), 1, s);
        Normalize2Sticky(f, sign, exp, d, rm, ff, x, 1);
      }
    }
  }

  lemma DWordZero(f: Format, d: DWord)
    requires d.Fits(f)
    ensures d.Value(f) == 0 <==> d.hi == 0 && d.lo == 0
  {
    ShlOrder(0, d.hi, f.FSize());
  }

  lemma AgreesAtZero(x: Magnitude, m: nat, t: nat, s: int)
    requires x.Plain? && Agrees(x, m, t, s)
    ensures x.q == 0.0 <==> m == 0
  {
    assert AgreesOn(x, m, Shl(0, t), s);
    AtNonneg(0, s);
  }

  lemma DroppedSum(f: Format, big: DWord, small: DWord, shift: nat, s: int)
    requires Ordered(f, big, small, shift) && DropsLow(f, small, shift)
    ensures Agrees(Plain(At(big.Value(f), s) + At(small.Value(f), s - shift)),
                   big.Value(f) + FmaAlign(f, small, shift).Value(f), f.FSize(), s)
  {
    hide Shl, Pow2, At, FmaAlign, Agrees;
    AlignDrops(f, small, shift);
    DWordZero(f, big);
    DroppedAgrees(big.hi, f.FSize(), FmaAlign(f, small, shift).Value(f), small.Value(f), shift, s);
  }

  lemma DroppedDifference(f: Format, big: DWord, small: DWord, shift: nat, s: int)
    requires Ordered(f, big, small, shift) && DropsLow(f, small, shift)
    requires FmaAlign(f, small, shift).Value(f) <= big.Value(f)
    ensures Agrees(Plain(At(big.Value(f), s) - At(small.Value(f), s - shift)),
                   big.Value(f) - FmaAlign(f, small, shift).Value(f), f.FSize(), s)
  {
    hide Shl, Pow2, At, FmaAlign, Agrees;
    AlignDrops(f, small, shift);
    DWordZero(f, big);
    DroppedAgrees(big.hi, f.FSize(), FmaAlign(f, small, shift).Value(f), small.Value(f), shift, s);
  }

  // ----- the operands -----

  /** A double word with its top bit at FSize() - 3 of the high word and two low zeros. */
  ghost predicate Full(f: Format, d: DWord) {
    && d.Fits(f)
    && Pow2(2 * f.FSize() - 3) <= d.Value(f) < Pow2(2 * f.FSize() - 2)
    && Low(d.Value(f), 2) == 0
    && Pow2(f.FSize() - 3) <= d.hi < Pow2(f.FSize() - 2)
  }

  lemma FullFrom(f: Format, d: DWord, q: nat, k: nat)
    requires d.Fits(f) && Pow2(f.FSize() - 3) <= d.hi < Pow2(f.FSize() - 2)
    requires k >= 2 && d.Value(f) == Shl(q, k)
    ensures Full(f, d)
  {
    hide Shl, Shr, Low, Pow2;
    HighOfDWord(f, d, f.FSize() - 3);
    HighOfDWord(f, d, f.FSize() - 2);
    LowOfShl(q, k, 2);
  }

  /** The double-word product of two significands: its value, and that it is full. */
  lemma FmaProductValue(f: Format, am: nat, bm: nat)
    requires Pow2(f.mantSize) <= am < Pow2(f.mantSize + 1) && Pow2(f.mantSize) <= bm < Pow2(f.mantSize + 1)
    ensures var (r, dec) := FmaProduct(f, am, bm);
            Full(f, r) && r.Value(f) == Shl(Times(am, bm), 2 * f.RndSize() + (if dec then 1 else 0))
  {
    hide Shl, Shr, Low, Pow2, Times, DWord.Value;
    var n, k, t := f.FSize(), 2 * f.RndSize(), Times(am, bm);
    ShlTimes(am, bm, f.RndSize(), f.RndSize());
    TimesBounds(am, bm, f.mantSize);
    var v := Shl(t, k);
    Pow2Shl(2 * f.mantSize, k);
    Pow2Shl(2 * f.mantSize + 2, k);
    ShlOrder(t, Pow2(2 * f.mantSize), k);
    ShlOrder(t, Pow2(2 * f.mantSize + 2), k);
    Pow2Mono(2 * n - 2, 2 * n);
    DWordOf(f, v);
    var d := DWord(Shr(v, n), Low(v, n));
    HighOfDWord(f, d, n - 4);
    HighOfDWord(f, d, n - 2);
    if d.hi < Pow2(n - 3) {
      DoubleUp(f, d);
      ShlStep(t, k);
      FullFrom(f, FmaProduct(f, am, bm).0, t, k + 1);
    } else {
      FullFrom(f, d, t, k);
    }
  }

  /** Doubling a double word across the word boundary. */
  lemma DoubleWords(n: nat, hi: nat, lo: nat)
    requires n >= 2 && 2 * hi < Pow2(n) && lo < Pow2(n)
    ensures Low(Shl(hi, 1), n) == 2 * hi && Shr(lo, n - 1) <= 1
    ensures Shl(2 * hi + Shr(lo, n - 1), n) + Low(Shl(lo, 1), n) == 2 * (Shl(hi, n) + lo)
  {
    hide Shl, Shr, Low, Pow2;
    var top := Shr(lo, n - 1);
    Pow2One();
    ShiftUp(n, lo, 1);
    ShrBound(lo, n - 1, 1);
    assert Shl(hi, 1) == 2 * hi by { ShlStep(hi, 0); }
    assert Shl(lo, 1) == 2 * lo by { ShlStep(lo, 0); }
    LowSmall(2 * hi, n);
    ShlAdd(2 * hi, top, n);
    ShlAdd(hi, hi, n);
  }

  lemma DoubleUp(f: Format, d: DWord)
    requires d.Fits(f) && Pow2(f.FSize() - 4) <= d.hi < Pow2(f.FSize() - 3)
    ensures var e := DWord(ShlW(f, d.hi, 1) + Shr(d.lo, f.FSize() - 1), ShlW(f, d.lo, 1));
            && e.Fits(f) && e.Value(f) == 2 * d.Value(f)
            && Pow2(f.FSize() - 3) <= e.hi < Pow2(f.FSize() - 2)
  {
    hide Shl, Shr, Low, Pow2;
    var n := f.FSize();
    Pow2Double(n - 4);
    Pow2Double(n - 3);
    Pow2Mono(n - 2, n);
    DoubleWords(n, d.hi, d.lo);
  }

  lemma FmaProductFull(f: Format, a: nat, b: nat)
    requires !IsZero(f, a) && !IsZero(f, b)
    ensures var r := FmaProduct(f, NormMant(f, a), NormMant(f, b)).0;
            Full(f, r) && OrBit(r.hi, r.lo != 0) < Pow2(f.FSize() - 1)
  {
    hide NormMant, FmaProduct, Shl, Low;
    NormMantBounds(f, a);
    NormMantBounds(f, b);
    FmaProductValue(f, NormMant(f, a), NormMant(f, b));
  }

  lemma FmaAddendFull(f: Format, c: nat)
    requires !IsZero(f, c)
    ensures Full(f, FmaAddend(f, c))
    ensures FmaAddend(f, c).Value(f) == Shl(NormMant(f, c), f.RndSize() - 1 + f.FSize())
  {
    hide Shl, Low, Pow2, NormMant;
    var n, m, k := f.FSize(), NormMant(f, c), f.RndSize() - 1;
    NormMantBounds(f, c);
    Pow2Shl(f.mantSize, k);
    Pow2Shl(f.mantSize + 1, k);
    ShlOrder(m, Pow2(f.mantSize), k);
    ShlOrder(m, Pow2(f.mantSize + 1), k);
    Pow2Mono(n - 2, n);
    LowSmall(Shl(m, k), n);
    ShlShl(m, k, n);
    FullFrom(f, FmaAddend(f, c), m, k + n);
  }

  /** Comparing exponents and high words puts the larger operand first. */
  lemma OrderedOperands(f: Format, r: DWord, c: DWord, re: int, ce: int)
    requires Full(f, r) && Full(f, c) && c.lo == 0
    ensures if re > ce || (re == ce && r.hi >= c.hi) then re >= ce && Ordered(f, r, c, re - ce)
            else ce >= re && Ordered(f, c, r, ce - re)
  {
    hide Shl, Pow2, Low;
    var n := f.FSize();
    EvenFromLow(r.Value(f));
    EvenFromLow(c.Value(f));
    ShlOrder(r.hi, c.hi, n);
    ShlSucc(r.hi, n);
    ShlOrder(c.hi, r.hi + 1, n);
  }

  lemma EvenFromLow(v: nat)
    requires Low(v, 2) == 0
    ensures v % 2 == 0
  {
  }

  // ----- the exact fused result -----

  /** a * b + c in units of the smallest subnormal. */
  ghost function FmaExact(f: Format, a: nat, b: nat, c: nat): real {
    (if SignOf(f, a) != SignOf(f, b) then -ProductOf(f, a, b).q else ProductOf(f, a, b).q)
      + SignedUnits(f, c) as real
  }

  /** Sign of the result: that of the exact result; a zero is negative if both terms are, or by cancellation in RDN. */
  ghost predicate FmaSign(f: Format, rm: RoundingMode, a: nat, b: nat, c: nat) {
    var e, sign := FmaExact(f, a, b, c), SignOf(f, a) != SignOf(f, b);
    if e != 0.0 then e < 0.0 else if sign == SignOf(f, c) then sign else rm == RDN
  }

  ghost function AbsReal(y: real): Magnitude {
    Plain(if y < 0.0 then -y else y)
  }

  /** The product and the addend as double words at the scale of their exponents. */
  lemma FmaOperands(f: Format, a: nat, b: nat)
    requires IsWord(f, a) && !IsZero(f, a) && IsWord(f, b) && !IsZero(f, b)
    ensures var r := FmaProduct(f, NormMant(f, a), NormMant(f, b)).0;
            ProductOf(f, a, b).q == At(r.Value(f), FmaExp(f, a, b) - 1 - f.RndSize() - f.FSize())
  {
    hide Shl, At, NormExp, NormMant, FmaProduct, ProductOf, Times, Pow2, DWord.Value;
    NormMantBounds(f, a);
    NormMantBounds(f, b);
    FmaProductValue(f, NormMant(f, a), NormMant(f, b));
    ProductAt(f, a, b);
    BiasIs(f);
    var (r, dec) := FmaProduct(f, NormMant(f, a), NormMant(f, b));
    var t, k := Times(NormMant(f, a), NormMant(f, b)), 2 * f.RndSize() + (if dec then 1 else 0);
    AtShl(t, k, FmaExp(f, a, b) - 1 - f.RndSize() - f.FSize());
    PlainProduct(f, a, b);
  }

  lemma PlainProduct(f: Format, a: nat, b: nat)
    ensures ProductOf(f, a, b).Plain? && ProductOf(f, a, b).q >= 0.0
  {
    AtNonneg(Times(f.Units(MagOf(f, a)), f.Units(MagOf(f, b))), f.UnitExp());
  }

  lemma FmaAddendAt(f: Format, c: nat)
    requires IsWord(f, c) && !IsZero(f, c)
    ensures f.Units(MagOf(f, c)) as real ==
            At(FmaAddend(f, c).Value(f), NormExp(f, c) + 1 - 1 - f.RndSize() - f.FSize())
  {
    hide Shl, At, NormExp, NormMant, FmaAddend, DWord.Value, BinaryFormat.Units, MagOf;
    NormalizedWord(f, c);
    FmaAddendFull(f, c);
    AtShl(NormMant(f, c), f.RndSize() - 1 + f.FSize(), NormExp(f, c) - f.RndSize() - f.FSize());
  }

  /** The larger operand really is the larger, so the sign of the exact sum is its sign. */
  lemma CombineCorrect(f: Format, bs: bool, be: int, big: DWord, ss: bool, se: int, small: DWord,
                       rm: RoundingMode, ff: Flags)
    requires be >= se && Ordered(f, big, small, be - se)
    ensures var u := -1 - f.RndSize() - f.FSize();
            var y, z := At(big.Value(f), be + u), At(small.Value(f), se + u);
            var e := (if bs then -y else y) + (if ss then -z else z);
            FmaCombine(f, bs, be, big, ss, se, small, rm, ff) ==
            Rounded(f, if e != 0.0 then e < 0.0 else rm == RDN, rm, ff, AbsReal(e))
  {
    hide Shl, Low, Pow2, At, DWord.Value, FmaAlign, DAdd, DSub, Normalize2, Rounded;
    var u, shift := -1 - f.RndSize() - f.FSize(), be - se;
    var b, c := big.Value(f), small.Value(f);
    var y, z := At(b, be + u), At(c, se + u);
    var e := (if bs then -y else y) + (if ss then -z else z);
    AtPositive(b, be + u);
    AtNonneg(c, se + u);
    SmallerAt(f, big, small, be + u, shift);
    if bs == ss {
      FmaSum(f, bs, be, big, small, shift, rm, ff);
      assert e != 0.0 && (e < 0.0 <==> bs);
    } else {
      var zero := y == z;
      FmaDifference(f, if zero then rm == RDN else bs, be, big, small, shift, rm, ff);
      assert e == 0.0 <==> zero;
    }
  }

  lemma SmallerAt(f: Format, big: DWord, small: DWord, s: int, shift: nat)
    requires Ordered(f, big, small, shift)
    ensures At(small.Value(f), s - shift) <= At(big.Value(f), s)
  {
    hide Shl, Low, Pow2, At, DWord.Value;
    var n, b, c := f.FSize(), big.Value(f), small.Value(f);
    AtShl(b, shift, s - shift);
    if shift == 0 {
      AtOrder(b, c, s);
    } else {
      Pow2Double(2 * n - 3);
      ShlStep(b, shift - 1);
      ShlGrows(b, shift - 1);
      AtOrder(Shl(b, shift), c, s - shift);
    }
  }

  lemma ShlGrows(b: nat, d: nat)
    ensures Shl(b, d) >= b
  {
  }

  lemma FmaNormalCorrect(f: Format, a: nat, b: nat, c: nat, rm: RoundingMode, ff: Flags)
    requires IsWord(f, a) && !IsZero(f, a) && IsWord(f, b) && !IsZero(f, b) && IsWord(f, c) && !IsZero(f, c)
    ensures FmaNormal(f, a, b, c, rm, ff) ==
            Rounded(f, FmaSign(f, rm, a, b, c), rm, ff, AbsReal(FmaExact(f, a, b, c)))
  {
    hide Shl, Low, Pow2, At, DWord.Value, FmaAddend, FmaProduct, FmaExp, NormExp, NormMant, FmaCombine, Rounded,
         ProductOf, BinaryFormat.Units, MagOf, SignOf, Full, IsZero;
    var sign, exp := SignOf(f, a) != SignOf(f, b), FmaExp(f, a, b);
    var r := FmaProduct(f, NormMant(f, a), NormMant(f, b)).0;
    var cexp, cd := NormExp(f, c) + 1, FmaAddend(f, c);
    FmaProductFull(f, a, b);
    FmaAddendFull(f, c);
    assert cd.lo == 0 by { AddendLow(f, c); }
    OrderedOperands(f, r, cd, exp, cexp);
    FmaOperands(f, a, b);
    FmaAddendAt(f, c);
    FmaNonzeroTerms(f, a, b, c);
    if exp > cexp || (exp == cexp && r.hi >= cd.hi) {
      CombineCorrect(f, sign, exp, r, SignOf(f, c), cexp, cd, rm, ff);
    } else {
      CombineCorrect(f, SignOf(f, c), cexp, cd, sign, exp, r, rm, ff);
    }
  }

  lemma AddendLow(f: Format, c: nat)
    requires !IsZero(f, c)
    ensures FmaAddend(f, c).lo == 0
  {
  }

  /** Terms of equal sign do not cancel. */
  lemma FmaNonzeroTerms(f: Format, a: nat, b: nat, c: nat)
    requires IsWord(f, c) && !IsZero(f, c)
    ensures (SignOf(f, a) != SignOf(f, b)) == SignOf(f, c) ==> FmaExact(f, a, b, c) != 0.0
  {
    hide ProductOf, BinaryFormat.Units, MagOf, SignOf, IsZero;
    ZeroUnits(f, c);
    PlainProduct(f, a, b);
  }

  /** Adding zero to a nonzero product rounds the product. */
  lemma FmaZeroAddend(f: Format, a: nat, b: nat, c: nat, rm: RoundingMode, ff: Flags)
    requires IsWord(f, a) && !IsZero(f, a) && IsWord(f, b) && !IsZero(f, b) && IsWord(f, c) && IsZero(f, c)
    ensures FmaNormal(f, a, b, c, rm, ff) ==
            Rounded(f, SignOf(f, a) != SignOf(f, b), rm, ff, ProductOf(f, a, b))
  {
    hide Shl, Shr, Low, Pow2, At, FmaProduct, FmaExp, NormExp, NormMant, Rounded, ProductOf, SignOf, Agrees, Normalize,
         IsZero;
    var sign, exp := SignOf(f, a) != SignOf(f, b), FmaExp(f, a, b);
    var r, x := FmaProduct(f, NormMant(f, a), NormMant(f, b)).0, ProductOf(f, a, b);
    FmaProductFull(f, a, b);
    FmaOperands(f, a, b);
    PlainProduct(f, a, b);
    var n, s := f.FSize(), exp - 1 - f.RndSize();
    AgreesExact(x, r.Value(f), 0, s - n);
    DWordUnique(f, r, r.Value(f));
    AgreesSticky(x, r.Value(f), 0, s - n, n, 1);
    Pow2Mono(f.mantSize + 2, n - 3);
    NormalizeSticky(f, sign, exp, OrBit(r.hi, r.lo != 0), rm, ff, x);
  }

  /** A number of the format rounds to itself without flags. */
  lemma RoundedExact(f: Format, sign: bool, k: nat, rm: RoundingMode, ff: Flags)
    requires k < f.Inf()
    ensures Rounded(f, sign, rm, ff, Plain(f.Units(k) as real)) == (SignBit(f, sign) + k, ff)
  {
    hide BinaryFormat.Units, BinaryFormat.Inf;
    var x := Plain(f.Units(k) as real);
    UnitsStep(f, k);
    FloorUnique(f, x, k);
    RoundFrom(f, rm, sign, x, k);
  }

  /** A zero product leaves the addend, or a zero with the sign rule. */
  lemma FmaZeroProduct(f: Format, a: nat, b: nat, c: nat, rm: RoundingMode, ff: Flags)
    requires IsWord(f, a) && IsWord(f, b) && IsWord(f, c)
    requires IsFinite(f, a) && IsFinite(f, b) && IsFinite(f, c) && (IsZero(f, a) || IsZero(f, b))
    ensures FmaSf(f, a, b, c, rm, ff) ==
            Rounded(f, FmaSign(f, rm, a, b, c), rm, ff, AbsReal(FmaExact(f, a, b, c)))
  {
    hide Shl, Low, Shr, Pow2, Scaled, Rounded, BinaryFormat.Units, MagOf, SignOf, ExpOf, MantOf;
    ZeroUnits(f, a);
    ZeroUnits(f, b);
    ZeroUnits(f, c);
    AtNonneg(0, f.UnitExp());
    assert ProductOf(f, a, b).q == 0.0;
    if IsZero(f, c) {
      RoundedZero(f, FmaSign(f, rm, a, b, c), rm, ff);
    } else {
      FiniteBelowInf(f, c);
      WordFields(f, c);
      RoundedExact(f, SignOf(f, c), MagOf(f, c), rm, ff);
    }
  }

  /**
   For all finite a, b and c and every rounding mode, fma_sf returns a * b + c
   rounded once, with the flags of that rounding and the right sign of zero,
   through total cancellation and whichever operand is larger.
   */
  lemma FmaCorrect(f: Format, a: nat, b: nat, c: nat, rm: RoundingMode, ff: Flags)
    requires IsWord(f, a) && IsWord(f, b) && IsWord(f, c)
    requires IsFinite(f, a) && IsFinite(f, b) && IsFinite(f, c)
    ensures FmaSf(f, a, b, c, rm, ff) ==
            Rounded(f, FmaSign(f, rm, a, b, c), rm, ff, AbsReal(FmaExact(f, a, b, c)))
  {
    hide Shl, Low, Shr, Pow2, Rounded, BinaryFormat.Units, MagOf, SignOf, ExpOf, MantOf, FmaNormal, ProductOf;
    if IsZero(f, a) || IsZero(f, b) {
      FmaZeroProduct(f, a, b, c, rm, ff);
    } else if IsZero(f, c) {
      FmaZeroAddend(f, a, b, c, rm, ff);
      ZeroUnits(f, c);
      PlainProduct(f, a, b);
      ProductPositive(f, a, b);
    } else {
      FmaNormalCorrect(f, a, b, c, rm, ff);
    }
  }

  lemma ProductPositive(f: Format, a: nat, b: nat)
    requires IsWord(f, a) && !IsZero(f, a) && IsWord(f, b) && !IsZero(f, b)
    ensures ProductOf(f, a, b).q > 0.0
  {
    hide BinaryFormat.Units, MagOf, Scaled, IsZero;
    ZeroUnits(f, a);
    ZeroUnits(f, b);
    var ua, ub := f.Units(MagOf(f, a)), f.Units(MagOf(f, b));
    assert Times(ua, ub) > 0;
    AtPositive(Times(ua, ub), f.UnitExp());
  }
}
