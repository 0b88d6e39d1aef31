/**
 The multiplier and the divider used where no double-width integer type exists:
 a product from four half-word products, and a quotient one bit at a time.
 Both equal the double-width operation for all operands.
 */
module WordArithmetic {
  import opened Powers
  import opened Multiplication

  // ----- multiplication by halves -----

  lemma TimesAdd(a: nat, b: nat, c: nat)
    ensures Times(a + b, c) == Times(a, c) + Times(b, c)
    ensures Times(c, a + b) == Times(c, a) + Times(c, b)
  {
  }

  /** A product of two words is the sum of four half-word products in their places. */
  lemma SplitTimes(h: nat, a1: nat, a0: nat, b1: nat, b0: nat)
    ensures Times(Shl(a1, h) + a0, Shl(b1, h) + b0) ==
            Shl(Times(a1, b1), 2 * h) + Shl(Times(a0, b1) + Times(a1, b0), h) + Times(a0, b0)
  {
    hide Shl, Times;
    TimesAdd(Shl(a1, h), a0, Shl(b1, h) + b0);
    TimesAdd(Shl(b1, h), b0, Shl(a1, h));
    TimesAdd(Shl(b1, h), b0, a0);
    ShlTimes(a1, b1, h, h);
    ShlTimes(a1, b0, h, 0);
    ShlTimes(a0, b1, 0, h);
    ShlAdd(Times(a0, b1), Times(a1, b0), h);
  }

  /** Carrying a column over into the next place. */
  lemma CarryOver(h: nat, s: nat, d: nat)
    ensures Shl(s, d) == Shl(Shr(s, h), h + d) + Shl(Low(s, h), d)
  {
    hide Shl, Shr, Low;
    ShrLow(s, h);
    ShlAdd(Shl(Shr(s, h), h), Low(s, h), d);
    ShlShl(Shr(s, h), h, d);
  }

  /** Summing half-word columns with their carries gives the whole product. */
  lemma Columns(h: nat, r00: nat, r01: nat, r10: nat, r11: nat)
    ensures var s1 := Shr(r00, h) + Low(r01, h) + Low(r10, h);
            var s2 := Shr(s1, h) + Shr(r01, h) + Shr(r10, h) + Low(r11, h);
            var r3 := Shr(s2, h) + Shr(r11, h);
            Shl(r11, 2 * h) + Shl(r01 + r10, h) + r00 ==
            Shl(Shl(r3, h) + Low(s2, h), 2 * h) + (Shl(Low(s1, h), h) + Low(r00, h))
  {
    hide Shl, Shr, Low;
    var s1 := Shr(r00, h) + Low(r01, h) + Low(r10, h);
    var s2 := Shr(s1, h) + Shr(r01, h) + Shr(r10, h) + Low(r11, h);
    var r3 := Shr(s2, h) + Shr(r11, h);
    var h2, h3 := 2 * h, 3 * h;
    CarryOver(h, r00, 0);
    CarryOver(h, r01, h);
    CarryOver(h, r10, h);
    CarryOver(h, r11, h2);
    ShlAdd(r01, r10, h);
    CarryOver(h, s1, h);
    ShlAdd(Shr(r00, h), Low(r01, h), h);
    ShlAdd(Shr(r00, h) + Low(r01, h), Low(r10, h), h);
    CarryOver(h, s2, h2);
    ShlAdd(Shr(s1, h), Shr(r01, h), h2);
    ShlAdd(Shr(s1, h) + Shr(r01, h), Shr(r10, h), h2);
    ShlAdd(Shr(s1, h) + Shr(r01, h) + Shr(r10, h), Low(r11, h), h2);
    ShlAdd(Shr(s2, h), Shr(r11, h), h3);
    ShlAdd(Shl(r3, h), Low(s2, h), h2);
    ShlShl(r3, h, h2);
  }

  lemma JoinHalves(h: nat, r1: nat, r0: nat)
    requires r0 < Pow2(h)
    ensures r1 < Pow2(h) <==> Shl(r1, h) + r0 < Pow2(2 * h)
  {
    hide Shl;
    Pow2Shl(h, h);
    ShlSucc(r1, h);
    ShlOrder(Pow2(h), r1 + 1, h);
    ShlOrder(r1, Pow2(h), h);
  }

  /** The top half word of the column sums does not overflow, and the columns are the two product words. */
  lemma HalvesCorrect(h: nat, a: nat, b: nat)
    requires a < Pow2(2 * h) && b < Pow2(2 * h)
    ensures var a1, a0, b1, b0 := Shr(a, h), Low(a, h), Shr(b, h), Low(b, h);
            var r00, r01, r10, r11 := Times(a0, b0), Times(a0, b1), Times(a1, b0), Times(a1, b1);
            var s1 := Shr(r00, h) + Low(r01, h) + Low(r10, h);
            var s2 := Shr(s1, h) + Shr(r01, h) + Shr(r10, h) + Low(r11, h);
            var r3 := Shr(s2, h) + Shr(r11, h);
            && Low(r3, h) == r3
            && Shl(r3, h) + Low(s2, h) == Shr(Times(a, b), 2 * h)
            && Shl(Low(s1, h), h) + Low(r00, h) == Low(Times(a, b), 2 * h)
  {
    hide Shl, Shr, Low, Pow2, Times;
    var a1, a0, b1, b0 := Shr(a, h), Low(a, h), Shr(b, h), Low(b, h);
    ShrLow(a, h);
    ShrLow(b, h);
    SplitTimes(h, a1, a0, b1, b0);
    var r00, r01, r10, r11 := Times(a0, b0), Times(a0, b1), Times(a1, b0), Times(a1, b1);
    Columns(h, r00, r01, r10, r11);
    var s1 := Shr(r00, h) + Low(r01, h) + Low(r10, h);
    var s2 := Shr(s1, h) + Shr(r01, h) + Shr(r10, h) + Low(r11, h);
    var r3 := Shr(s2, h) + Shr(r11, h);
    JoinHalves(h, Low(s1, h), Low(r00, h));
    SplitUnique(Times(a, b), 2 * h, Shl(r3, h) + Low(s2, h), Shl(Low(s1, h), h) + Low(r00, h));
    TimesOrder(a, b, Pow2(2 * h), Pow2(2 * h));
    TimesPow2(2 * h, 2 * h);
    ShrBound(Times(a, b), 2 * h, 2 * h);
    JoinHalves(h, r3, Low(s2, h));
    LowSmall(r3, h);
  }

  /** Product of two 2h-bit words from half words; equals the double-width product. */
  method MulHalves(h: nat, a: nat, b: nat) returns (hi: nat, lo: nat)
    requires a < Pow2(2 * h) && b < Pow2(2 * h)
    ensures hi == Shr(Times(a, b), 2 * h) && lo == Low(Times(a, b), 2 * h)
  {
    hide Shl, Shr, Low, Pow2, Times;
    HalvesCorrect(h, a, b);
    var a0, a1, b0, b1 := Low(a, h), Shr(a, h), Low(b, h), Shr(b, h);
    var r00, r01, r10, r11 := Times(a0, b0), Times(a0, b1), Times(a1, b0), Times(a1, b1);
    var r0 := Low(r00, h);
    var c := Shr(r00, h) + Low(r01, h) + Low(r10, h);
    var r1 := Low(c, h);
    c := Shr(c, h) + Shr(r01, h) + Shr(r10, h) + Low(r11, h);
    var r2 := Low(c, h);
    var r3 := Low(Shr(c, h) + Shr(r11, h), h);
    lo := Shl(r1, h) + r0;
    hi := Shl(r3, h) + r2;
  }

  // ----- division bit by bit -----

  lemma QuotientUnique(a: nat, b: nat, q: nat, r: nat)
    requires a == Times(q, b) + r && r < b
    ensures Quotient(a, b) == q && Remainder(a, b) == r
  {
    var dq := a / b - q;
    assert b * (a / b) + a % b == a;
    assert b * dq == r - a % b;
  }

  /** A word shifted left by one loses its top bit. */
  lemma ShiftByOne(n: nat, a: nat)
    requires n >= 1
    ensures Low(2 * a, n) == 2 * Low(a, n - 1)
  {
  }

  /** Shifting the low word up by one moves one dividend bit out at the top. */
  lemma ShiftOut(n: nat, i: nat, rem: nat, q: nat)
    requires i < n && rem < Pow2(n - i) && q < Pow2(i)
    ensures var lo, rest := Shl(rem, i) + q, Low(rem, n - i - 1);
            && Shr(lo, n - 1) == Shr(rem, n - i - 1) <= 1
            && Low(2 * lo, n) == Shl(rest, i + 1) + 2 * q
            && Shl(rest, i + 1) + 2 * q + 1 < Pow2(n)
  {
    hide Shl, Shr, Low, Pow2;
    var k := n - i - 1;
    Pow2Double(n - 1);
    Pow2One();
    var lo, bit, rest := Shl(rem, i) + q, Shr(rem, k), Low(rem, k);
    ShrLow(rem, k);
    ShrBound(rem, k, 1);
    ShlAdd(Shl(bit, k), rest, i);
    ShlShl(bit, k, i);
    var tail := Shl(rest, i) + q;
    ShlSucc(rest, i);
    ShlOrder(Pow2(k), rest + 1, i);
    Pow2Shl(k, i);
    SplitUnique(lo, n - 1, bit, tail);
    ShiftByOne(n, lo);
    ShlStep(rest, i);
  }

  /** One more dividend bit: the prefix doubles and takes it in. */
  lemma PrefixStep(a: nat, k: nat, p: nat, rem: nat)
    requires a == Shl(p, k + 1) + rem
    ensures a == Shl(2 * p + Shr(rem, k), k) + Low(rem, k)
  {
    hide Shl, Shr, Low;
    ShrLow(rem, k);
    ShlAdd(2 * p, Shr(rem, k), k);
    ShlDouble(p, k);
  }

  /** The truncated doubled remainder and its carry bit. */
  lemma DoubleRemainder(n: nat, hi: nat)
    requires n >= 1 && hi < Pow2(n)
    ensures Shr(hi, n - 1) <= 1
    ensures 2 * hi == (if Shr(hi, n - 1) == 0 then 0 else Pow2(n)) + Low(2 * hi, n)
    ensures Low(2 * hi, n) + 1 < Pow2(n)
  {
    hide Shl, Shr, Low, Pow2;
    Pow2Double(n - 1);
    Pow2One();
    ShrLow(hi, n - 1);
    ShrBound(hi, n - 1, 1);
    ShlOne(n - 1);
    ShiftByOne(n, hi);
  }

  lemma TimesStep(q: nat, b: nat)
    ensures Times(2 * q, b) == 2 * Times(q, b) && Times(2 * q + 1, b) == 2 * Times(q, b) + b
  {
    assert (2 * q) * b == 2 * (q * b);
    assert (2 * q + 1) * b == 2 * (q * b) + b;
  }

  /** Quotient and remainder of the double word a1:a0 by b, one bit at a time, in n-bit words. */
  method DivRemU(n: nat, a1: nat, a0: nat, b: nat) returns (q: nat, r: nat)
    requires n >= 1 && a1 < b < Pow2(n) && a0 < Pow2(n)
    ensures q == Quotient(Shl(a1, n) + a0, b) && r == Remainder(Shl(a1, n) + a0, b)
  {
    hide Shl, Shr, Low, Times, Quotient, Remainder, Pow2;
    Pow2One();
    ghost var a: nat, done: nat, rem: nat := Shl(a1, n) + a0, 0, a0;
    var hi: nat, lo: nat, i: nat := a1, a0, 0;
    assert Times(0, b) == 0 by { TimesZero(b); }
    while i < n
      invariant 0 <= i <= n && hi < b
      invariant rem < Pow2(n - i) && done < Pow2(i)
      invariant lo == Shl(rem, i) + done
      invariant a == Shl(Times(done, b) + hi, n - i) + rem
    {
      ShiftOut(n, i, rem, done);
      PrefixStep(a, n - i - 1, Times(done, b) + hi, rem);
      TimesStep(done, b);
      Pow2Double(i);
      DoubleRemainder(n, hi);
      var carry := Shr(hi, n - 1);
      hi := Low(2 * hi, n) + Shr(lo, n - 1);
      var qb: nat;
      if carry != 0 || hi >= b {
        hi := if hi >= b then hi - b else hi + Pow2(n) - b;
        qb := 1;
      } else {
        qb := 0;
      }
      lo := Low(2 * lo, n) + qb;
      rem, done, i := Low(rem, n - i - 1), 2 * done + qb, i + 1;
    }
    QuotientUnique(a, b, done, hi);
    q, r := lo, hi;
  }

  lemma TimesZero(b: nat)
    ensures Times(0, b) == 0
  {
  }
}
