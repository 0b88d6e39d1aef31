/**
 sqrt_sf: Newton's iteration for the integer square root of a double word, with
 a sticky bit for inexactness. The result is the exact root, rounded once.
 */
module SquareRoot {
  import opened Powers
  import opened Ieee
  import opened Words
  import opened Rounding
  import opened Addition
  import opened Multiplication
  import opened Division
  import opened WordArithmetic

  /** s is the square root of a rounded down. */
  ghost predicate IsSqrt(a: nat, s: nat) {
    Times(s, s) <= a < Times(s + 1, s + 1)
  }

  /** The root if and only if the iteration does not start below it; else it never leaves its start. */
  ghost predicate RootOrStart(a: nat, start: nat, s: nat) {
    && (IsSqrt(a, s) <==> a < Times(start + 1, start + 1))
    && (!IsSqrt(a, s) ==> s == start)
  }

  /** The power of two the iteration starts from. */
  function SqrtStart(n: nat, ah: nat, al: nat): nat
    requires ah > 0 || al > 0
  {
    var l := if ah != 0 then n + BitLen(ah - 1) else BitLen(al - 1);
    Pow2((l + 1) / 2)
  }

  // ----- Newton's iteration -----

  lemma MeanSquare(p: nat, s: nat)
    ensures 4 * Times(p, s) <= Times(p + s, p + s)
  {
    assert (p + s) * (p + s) - 4 * (p * s) == (p - s) * (p - s);
  }

  lemma TimesTwice(u: nat)
    ensures Times(2 * u, 2 * u) == 4 * Times(u, u)
  {
  }

  /** From any positive s one step lands at or above the root. */
  lemma NewtonAbove(a: nat, s: nat)
    requires s > 0
    ensures var u := (Quotient(a, s) + s) / 2; a < Times(u + 1, u + 1)
  {
    hide Times, Quotient;
    var q := Quotient(a, s);
    var u := (q + s) / 2;
    DivOrder(a, s, q + 1);
    var v := 2 * (u + 1);
    MeanSquare(q + 1, s);
    TimesOrder(q + 1 + s, q + 1 + s, v, v);
    TimesTwice(u + 1);
  }

  /** When a step does not go down, s is at or below the root. */
  lemma NewtonStops(a: nat, s: nat)
    requires s > 0
    ensures (Quotient(a, s) + s) / 2 >= s <==> Times(s, s) <= a
  {
    DivOrder(a, s, s);
  }

  lemma SquareMono(s: nat, t: nat)
    requires s <= t
    ensures Times(s, s) <= Times(t, t)
  {
    TimesOrder(s, s, t, t);
  }

  lemma StartPositive(n: nat, ah: nat, al: nat)
    requires ah > 0 || al > 0
    ensures SqrtStart(n, ah, al) >= 1
  {
  }

  /**
   Integer square root of the double word ah:al. It is the true root exactly when
   the starting point is not already below it, which holds whenever the low word
   is zero, as in the only call.
   */
  method SqrtRemU(n: nat, ah: nat, al: nat) returns (s: nat, inexact: bool)
    requires n >= 2 && ah < Pow2(n - 2) && al < Pow2(n)
    ensures var a := Shl(ah, n) + al;
            a == 0 ==> s == 0 && !inexact
    ensures var a := Shl(ah, n) + al;
            a > 0 ==> (ah > 0 || al > 0) && RootOrStart(a, SqrtStart(n, ah, al), s)
    ensures inexact <==> Times(s, s) != Shl(ah, n) + al
  {
    hide Shl, Times, Quotient;
    ShlOrder(0, ah, n);
    assert Times(0, 0) == 0 by { TimesZero(0); }
    if ah == 0 && al == 0 {
      return 0, false;
    }
    var a := Shl(ah, n) + al;
    var u := SqrtStart(n, ah, al);
    ghost var start := u;
    while true
      invariant 1 <= u <= start
      invariant u == start || (a < Times(u + 1, u + 1) && a < Times(start + 1, start + 1))
      decreases u
    {
      s := u;
      u := (Quotient(a, s) + s) / 2;
      NewtonAbove(a, s);
      NewtonStops(a, s);
      if u >= s {
        break;
      }
      SquareMono(s, start + 1);
      if u == 0 { QuotientSmall(a, s); }
    }
    SquareMono(s + 1, start + 1);
    inexact := a != Times(s, s);
  }

  lemma QuotientSmall(a: nat, s: nat)
    requires s >= 1 && (Quotient(a, s) + s) / 2 == 0
    ensures a == 0
  {
    DivOrder(a, s, 1);
  }

  // ----- the starting point -----

  lemma BitLenCovers(m: nat)
    requires m >= 1
    ensures m <= Pow2(BitLen(m - 1))
  {
    if m > 1 { BitLenBounds(m - 1); }
  }

  lemma SquareOfStart(l: nat)
    ensures Pow2(l) <= Times(Pow2((l + 1) / 2), Pow2((l + 1) / 2))
  {
    hide Times, Pow2;
    var h := (l + 1) / 2;
    TimesPow2(h, h);
    Pow2Mono(l, h + h);
  }

  /** With a zero low word, or a zero high word, the start is at or above the root. */
  lemma StartAbove(n: nat, ah: nat, al: nat)
    requires (ah > 0 && al == 0) || (ah == 0 && al > 0)
    ensures var u := SqrtStart(n, ah, al); Shl(ah, n) + al < Times(u + 1, u + 1)
  {
    hide Shl, Times, Pow2, BitLen;
    if ah > 0 {
      var l := BitLen(ah - 1);
      BitLenCovers(ah);
      Pow2Shl(l, n);
      ShlOrder(Pow2(l), ah, n);
      SquareOfStart(n + l);
    } else {
      BitLenCovers(al);
      SquareOfStart(BitLen(al - 1));
    }
    var u := SqrtStart(n, ah, al);
    SquareSucc(u);
  }

  lemma SquareSucc(u: nat)
    ensures Times(u + 1, u + 1) == Times(u, u) + 2 * u + 1
  {
  }

  /** The start fits below the top bit of a word. */
  lemma StartFits(n: nat, ah: nat, al: nat)
    requires n >= 3 && ah < Pow2(n - 2) && al < Pow2(n) && (ah > 0 || al > 0)
    ensures SqrtStart(n, ah, al) <= Pow2(n - 1)
  {
    hide BitLen, Pow2;
    if ah > 0 { BitLenAtMost(ah - 1, n - 2); } else { BitLenAtMost(al - 1, n); }
    var l := if ah != 0 then n + BitLen(ah - 1) else BitLen(al - 1);
    Pow2Mono((l + 1) / 2, n - 1);
  }

  // ----- the same iteration in single words -----

  lemma TimesFour(a: nat)
    ensures Times(2 * a, 2 * a) == Times(4 * a, a)
  {
  }

  /** The high word is below any s that is at or above the root, so the divider applies. */
  lemma HighBelowRoot(n: nat, a1: nat, a0: nat, s: nat)
    requires n >= 2 && s >= 1 && a1 < Pow2(n - 2) && Shl(a1, n) + a0 < Times(s + 1, s + 1)
    ensures a1 < s
  {
    hide Shl, Times;
    if s <= a1 {
      SquareMono(s + 1, a1 + 1);
      SquareMono(a1 + 1, 2 * a1);
      TimesFour(a1);
      Pow2Double(n - 2);
      Pow2Double(n - 1);
      TimesOrder(4 * a1, a1, Pow2(n), a1);
      Pow2Times(n, a1);
    }
  }

  /** The sum of quotient and s fits in a word, unless a is one less than the largest square. */
  lemma NewtonSumFits(n: nat, a: nat, s: nat)
    requires n >= 2 && 1 <= s <= Pow2(n - 1) && a + 1 < Pow2(2 * n - 2) && a < Times(s + 1, s + 1)
    ensures Quotient(a, s) + s < Pow2(n)
  {
    hide Quotient, Times;
    var h := Pow2(n - 1);
    TimesPow2(n - 1, n - 1);
    Pow2Double(n - 1);
    if s == h {
      DivOrder(a, s, h);
    } else {
      DivOrder(a, s, s + 3);
      SquareSucc(s);
      TimesPlus(s, 3);
      if s == h - 1 {
        DivOrder(a, s, s + 2);
        TimesPlus(s, 2);
      }
    }
  }

  lemma AroundSquare(p: nat)
    requires p >= 1
    ensures Times(p + 1, p - 1) + 1 == Times(p, p) && Times(p - 1, p - 1) + 2 * p == Times(p, p) + 1
    ensures Times(p - 1, p) + p == Times(p, p)
  {
  }

  /** A number in range for which the starting point is below the root, so that the iteration stops at once. */
  lemma StartTooLow()
    ensures var ah, al := 1, 0xFFFF_FFFF;
            && SqrtStart(32, ah, al) == 0x1_0000
            && Shl(ah, 32) + al >= Times(SqrtStart(32, ah, al) + 1, SqrtStart(32, ah, al) + 1)
  {
    hide Pow2, Shl, SqrtStart;
    StartOfOne(0xFFFF_FFFF);
    Pow2Sixteen();
    ShlOne(32);
    TimesPow2(16, 16);
  }

  lemma StartOfOne(al: nat)
    ensures SqrtStart(32, 1, al) == Pow2(16)
  {
    hide Pow2;
    assert BitLen(0) == 0;
  }

  lemma Pow2Sixteen()
    ensures Pow2(16) == 0x1_0000
  {
    assert Pow2(8) == 256;
    TimesPow2(8, 8);
  }

  lemma TimesPlus(s: nat, k: nat)
    ensures Times(s + k, s) == Times(s, s) + k * s
  {
  }

  /** One estimate from another, the sum of quotient and estimate being cut to a word. */
  function WordStep(n: nat, a: nat, s: nat): nat
    requires s > 0
  {
    Low(Quotient(a, s) + s, n) / 2
  }

  /** A start below the root is still more than twice the high word, and its sum fits. */
  lemma LowStartFits(n: nat, a1: nat, a0: nat)
    requires n >= 4 && a1 < Pow2(n - 2) && a0 < Pow2(n) && (a1 > 0 || a0 > 0)
    requires var s := SqrtStart(n, a1, a0); Times(s + 1, s + 1) <= Shl(a1, n) + a0
    ensures var s := SqrtStart(n, a1, a0); a1 < s < Pow2(n) && Quotient(Shl(a1, n) + a0, s) + s < Pow2(n)
  {
    hide Shl, Times, Pow2, BitLen, Quotient, SqrtStart;
    var s, a := SqrtStart(n, a1, a0), Shl(a1, n) + a0;
    assert s >= 1 by { StartPositive(n, a1, a0); }
    if a1 == 0 || a0 == 0 {
      ShlOne(n);
      StartAbove(n, a1, a0);
    } else {
      StartSquare(n, a1, a0);
      ShlSucc(a1, n);
      SquareSucc(s);
      StartBelowQuarter(n, a1, a0);
      Pow2Double(n - 2);
      Pow2Double(n - 1);
      HighBelowStart(n, a1, s);
      ShlOrder(a1, 1, n);
      ShlOne(n);
      DivOrder(a, s, 2 * s);
      TimesDouble(s);
    }
  }

  lemma TimesDouble(s: nat)
    ensures Times(2 * s, s) == 2 * Times(s, s)
  {
  }

  /** The square of the start covers the high word. */
  lemma StartSquare(n: nat, a1: nat, a0: nat)
    requires a1 > 0
    ensures var s := SqrtStart(n, a1, a0); Shl(a1, n) <= Times(s, s)
  {
    hide Shl, Times, Pow2, BitLen;
    var l := BitLen(a1 - 1);
    BitLenCovers(a1);
    Pow2Shl(l, n);
    ShlOrder(Pow2(l), a1, n);
    SquareOfStart(n + l);
  }

  lemma StartBelowQuarter(n: nat, a1: nat, a0: nat)
    requires n >= 4 && a1 < Pow2(n - 2) && a0 < Pow2(n) && a1 > 0
    requires var s := SqrtStart(n, a1, a0); Times(s + 1, s + 1) <= Shl(a1, n) + a0
    ensures SqrtStart(n, a1, a0) <= Pow2(n - 2)
  {
    hide Shl, Times, Pow2, BitLen;
    var l := n + BitLen(a1 - 1);
    var e := (l + 1) / 2;
    if e > n - 2 {
      Pow2Mono(n - 1, e);
      SquareMono(Pow2(n - 1), Pow2(e) + 1);
      SquareSucc(Pow2(e));
      SquareMono(Pow2(n - 1), Pow2(e));
      TimesPow2(n - 1, n - 1);
      Pow2Shl(n - 2, n);
      ShlSucc(a1, n);
      ShlOrder(Pow2(n - 2), a1 + 1, n);
    } else {
      Pow2Mono(e, n - 2);
    }
  }

  lemma HighBelowStart(n: nat, a1: nat, s: nat)
    requires n >= 2 && 0 < a1 < Pow2(n - 2) && Shl(a1, n) <= Times(s, s)
    ensures a1 < s
  {
    hide Shl, Times;
    if s <= a1 {
      SquareMono(s, a1);
      Pow2Double(n - 2);
      Pow2Double(n - 1);
      TimesOrder(a1, a1, Pow2(n), a1);
      Pow2Times(n, a1);
      SquareBelow(a1, Pow2(n));
    }
  }

  lemma SquareBelow(a: nat, b: nat)
    requires 0 < a < b
    ensures Times(a, a) < Times(b, a)
  {
    assert b * a == a * a + (b - a) * a;
    assert (b - a) * a > 0;
  }

  /**
   The one argument in range at which the fallback fails: its estimates are
   2^(n-1), then the root 2^(n-1) - 1, and then, the sum having left the word, 0,
   by which it cannot divide.
   */
  lemma FallbackFails(n: nat)
    requires n >= 4
    ensures var a1, a0 := Pow2(n - 2) - 1, Pow2(n) - 1;
            var a := Pow2(2 * n - 2) - 1;
            && Shl(a1, n) + a0 == a
            && a1 > 0 && SqrtStart(n, a1, a0) == Pow2(n - 1)
            && WordStep(n, a, Pow2(n - 1)) == Pow2(n - 1) - 1 > 0
            && IsSqrt(a, Pow2(n - 1) - 1)
            && WordStep(n, a, Pow2(n - 1) - 1) == 0
  {
    hide Pow2, Times, Quotient, Shl, Low, SqrtStart;
    var p := Pow2(n - 1);
    Pow2Mono(2, n - 2);
    Pow2One();
    Pow2Double(1);
    Pow2Double(n - 1);
    Pow2Double(n - 2);
    TimesPow2(n - 1, n - 1);
    AroundSquare(p);
    TopArgument(n);
    QuotientUnique(Pow2(2 * n - 2) - 1, p, p - 1, p - 1);
    QuotientUnique(Pow2(2 * n - 2) - 1, p - 1, p + 1, 0);
    LowSmall(p - 1 + p, n);
    ShlOne(n);
    SplitUnique(Pow2(n), n, 1, 0);
  }

  lemma TopArgument(n: nat)
    requires n >= 4
    ensures var a1, a0 := Pow2(n - 2) - 1, Pow2(n) - 1;
            a1 > 0 && Shl(a1, n) + a0 == Pow2(2 * n - 2) - 1 && SqrtStart(n, a1, a0) == Pow2(n - 1)
  {
    hide Pow2, Shl, BitLen;
    Pow2Mono(2, n - 2);
    Pow2One();
    Pow2Double(1);
    var a1 := Pow2(n - 2) - 1;
    ShlSucc(a1, n);
    Pow2Shl(n - 2, n);
    Pow2Double(n - 3);
    Pow2Mono(1, n - 3);
    BitLenIs(a1 - 1, n - 3);
  }

  /** The fallback's loop in n-bit words; false if its divider is asked to divide by too small a number. */
  method NewtonWords(n: nat, a1: nat, a0: nat) returns (ok: bool, s: nat)
    requires n >= 4 && a1 < Pow2(n - 2) && a0 < Pow2(n) && (a1 > 0 || a0 > 0)
    ensures ok <==> Shl(a1, n) + a0 != Pow2(2 * n - 2) - 1
    ensures ok ==> RootOrStart(Shl(a1, n) + a0, SqrtStart(n, a1, a0), s) && s < Pow2(n)
  {
    hide Shl, Shr, Low, Times, Quotient, Remainder, SqrtStart, Pow2;
    ghost var a, top := Shl(a1, n) + a0, Pow2(2 * n - 2) - 1;
    FallbackFails(n);
    if a == top { SplitUnique(a, n, a1, a0); SplitUnique(a, n, Pow2(n - 2) - 1, Pow2(n) - 1); }
    InRange(n, a1, a0);
    ok := true;
    var u := SqrtStart(n, a1, a0);
    ghost var start := u;
    StartFits(n, a1, a0);
    assert u >= 1 by { StartPositive(n, a1, a0); }
    SquareMono(Pow2(n - 1), Pow2(n - 1) + 1);
    Pow2Double(n - 1);
    while true
      invariant u <= start <= Pow2(n - 1)
      invariant a == top ==> u == Pow2(n - 1) || u == Pow2(n - 1) - 1 || u == 0
      invariant a != top ==> u >= 1
      invariant u == start || u == 0 || (a < Times(u + 1, u + 1) && a < Times(start + 1, start + 1))
      decreases u
    {
      s := u;
      if a != top { EstimateFits(n, a1, a0, s); }
      if a1 >= s {
        return false, s;
      }
      var q, r := DivRemU(n, a1, a0, s);
      u := Low(q + s, n) / 2;
      if a != top {
        LowSmall(q + s, n);
        NewtonAbove(a, s);
        NewtonStops(a, s);
      }
      if u >= s {
        break;
      }
      if a != top {
        SquareMono(s, start + 1);
        if u == 0 { QuotientSmall(a, s); }
      }
    }
    SquareMono(s + 1, start + 1);
  }

  /**
   The fallback for words of 2h bits. It ends, with the root and exactness of the
   double-width iteration, for every argument in range but the largest, at which
   the divider is asked to divide by 0 and the assertion in it fails.
   */
  method SqrtRemWords(h: nat, a1: nat, a0: nat) returns (ok: bool, s: nat, inexact: bool)
    requires h >= 2 && a1 < Pow2(2 * h - 2) && a0 < Pow2(2 * h)
    ensures ok <==> Shl(a1, 2 * h) + a0 != Pow2(4 * h - 2) - 1
    ensures var a := Shl(a1, 2 * h) + a0;
            a == 0 ==> s == 0 && !inexact
    ensures var a := Shl(a1, 2 * h) + a0;
            ok && a > 0 ==> (a1 > 0 || a0 > 0) && RootOrStart(a, SqrtStart(2 * h, a1, a0), s)
    ensures ok ==> (inexact <==> Times(s, s) != Shl(a1, 2 * h) + a0)
  {
    hide Shl, Shr, Low, Times, SqrtStart, Pow2, RootOrStart;
    var n := 2 * h;
    ShlOrder(0, a1, n);
    if a1 == 0 && a0 == 0 {
      TopArgument(n);
      ShlOne(n);
      assert Times(0, 0) == 0 by { TimesZero(0); }
      return true, 0, false;
    }
    inexact := false;
    ok, s := NewtonWords(n, a1, a0);
    if ok {
      var sq1, sq0 := MulHalves(h, s, s);
      inexact := sq0 != a0 || sq1 != a1;
      SplitUnique(Shl(a1, n) + a0, n, a1, a0);
      ShrLow(Times(s, s), n);
    }
  }

  lemma InRange(n: nat, a1: nat, a0: nat)
    requires n >= 2 && a1 < Pow2(n - 2) && a0 < Pow2(n)
    ensures Shl(a1, n) + a0 < Pow2(2 * n - 2)
  {
    hide Shl, Pow2;
    ShlSucc(a1, n);
    Pow2Shl(n - 2, n);
    ShlOrder(Pow2(n - 2), a1 + 1, n);
  }

  /** Below the largest argument every estimate is one the divider takes, and its sum fits the word. */
  lemma EstimateFits(n: nat, a1: nat, a0: nat, s: nat)
    requires n >= 4 && a1 < Pow2(n - 2) && a0 < Pow2(n) && (a1 > 0 || a0 > 0)
    requires Shl(a1, n) + a0 + 1 < Pow2(2 * n - 2) && 1 <= s <= Pow2(n - 1)
    requires s == SqrtStart(n, a1, a0) || Shl(a1, n) + a0 < Times(s + 1, s + 1)
    ensures a1 < s && Quotient(Shl(a1, n) + a0, s) + s < Pow2(n)
  {
    hide Shl, Times, Pow2, Quotient, SqrtStart;
    if Shl(a1, n) + a0 < Times(s + 1, s + 1) {
      HighBelowRoot(n, a1, a0, s);
      NewtonSumFits(n, Shl(a1, n) + a0, s);
    } else {
      LowStartFits(n, a1, a0);
    }
  }

  // ----- the float square root -----

  /** sqrt(a) in units of the smallest subnormal. */
  ghost function RootOf(f: Format, a: nat): Magnitude {
    Root(Scaled(f.Units(MagOf(f, a)) as real, -f.UnitExp()))
  }

  /** A root compares with n units as the radicand with the square of n. */
  lemma RootOn(a: nat, n: nat, s: int)
    ensures BelowAt(Root(At(a, 2 * s)), n, s) <==> a < Times(n, n)
    ensures IsAt(Root(At(a, 2 * s)), n, s) <==> a == Times(n, n)
  {
    hide At, Times;
    AtProduct(n, n, s, s);
    AtOrder(a, Times(n, n), 2 * s);
    AtNonneg(n, s);
    if n == 0 {
      AtNonneg(0, s);
      TimesZero(0);
    } else {
      AtPositive(n, s);
    }
  }

  /** A root rounded down, with a sticky bit, agrees with the exact root on even numbers. */
  lemma RootAgrees(a: nat, m: nat, inexact: bool, s: int)
    requires IsSqrt(a, m) && (inexact <==> Times(m, m) != a)
    ensures Agrees(Root(At(a, 2 * s)), OrBit(m, inexact), 1, s)
  {
    hide Shl, At, Times, BelowAt, IsAt;
    var x, r := Root(At(a, 2 * s)), OrBit(m, inexact);
    forall k: nat ensures AgreesOn(x, r, Shl(k, 1), s) {
      var n := Shl(k, 1);
      ShlDouble(k, 0);
      RootOn(a, n, s);
      if m < n { SquareMono(m + 1, n); } else { SquareMono(n, m); }
      if n < m { SquareMono(n + 1, m); SquareSucc(n); }
    }
  }

  /** The radicand of sqrt_sf: significand with an even exponent, and half that exponent. */
  function EvenMant(f: Format, a: nat): nat
    requires !IsZero(f, a)
  {
    if (NormExp(f, a) - f.Bias()) % 2 == 1 then 2 * NormMant(f, a) else NormMant(f, a)
  }

  function EvenExp(f: Format, a: nat): int {
    var e := NormExp(f, a) - f.Bias();
    (if e % 2 == 1 then e - 1 else e) / 2 + f.Bias()
  }

  /** The radicand has one of its top two bits at FSize() - 4. */
  lemma RadicandRange(f: Format, a: nat)
    requires !IsZero(f, a)
    ensures Pow2(f.FSize() - 4) <= Shl(EvenMant(f, a), f.FSize() - 4 - f.mantSize) < Pow2(f.FSize() - 2)
  {
    hide Shl, NormExp, NormMant;
    NormMantBounds(f, a);
    Pow2Double(f.mantSize);
    Pow2Double(f.mantSize + 1);
    var m, d := EvenMant(f, a), f.FSize() - 4 - f.mantSize;
    Pow2Shl(f.mantSize, d);
    Pow2Shl(f.mantSize + 2, d);
    ShlOrder(m, Pow2(f.mantSize), d);
    ShlOrder(m, Pow2(f.mantSize + 2), d);
  }

  /** The square of the exact root is the radicand double word at twice the scale of the result. */
  lemma RadicandScale(f: Format, a: nat)
    requires IsWord(f, a) && !IsZero(f, a)
    ensures var w := Shl(Shl(EvenMant(f, a), f.FSize() - 4 - f.mantSize), f.FSize());
            RootOf(f, a) == Root(At(w, 2 * (EvenExp(f, a) - 1 - f.RndSize())))
  {
    hide Shl, Scaled, NormExp, NormMant, BinaryFormat.Units, MagOf, BinaryFormat.Bias;
    NormalizedWord(f, a);
    var e, d, m := NormExp(f, a), f.FSize() - 4 - f.mantSize, EvenMant(f, a);
    var s := EvenExp(f, a) - 1 - f.RndSize();
    var k := e - f.Bias();
    // e - 1 - UnitExp() in terms of the even exponent
    var e2 := if k % 2 == 1 then k - 1 else k;
    ScaledTwice(NormMant(f, a) as real, e - 1, -f.UnitExp());
    if k % 2 == 1 {
      AtShl(NormMant(f, a), 1, e2 + 2 * f.Bias() + f.mantSize - 2);
      ShlDouble(NormMant(f, a), 0);
    }
    assert Scaled(f.Units(MagOf(f, a)) as real, -f.UnitExp()) == At(m, e2 + 2 * f.Bias() + f.mantSize - 2);
    ShlShl(m, d, f.FSize());
    AtShl(m, d + f.FSize(), 2 * s);
  }

  lemma RootBounds(n: nat, a: nat, s: nat)
    requires n >= 2 && Pow2(2 * n - 4) <= a < Pow2(2 * n - 2) && IsSqrt(a, s)
    ensures Pow2(n - 2) <= s < Pow2(n - 1)
  {
    hide Times, Pow2;
    TimesPow2(n - 2, n - 2);
    TimesPow2(n - 1, n - 1);
    if s < Pow2(n - 2) { SquareMono(s + 1, Pow2(n - 2)); }
    if s >= Pow2(n - 1) { SquareMono(Pow2(n - 1), s); }
  }

  /** Any exact zero rounds to zero. */
  lemma RootOfZero(f: Format, a: nat, rm: RoundingMode, ff: Flags)
    requires IsWord(f, a) && IsZero(f, a)
    ensures Rounded(f, false, rm, ff, RootOf(f, a)) == (Pack(f, false, 0, 0), ff)
  {
    ZeroUnits(f, a);
    AtNonneg(0, -f.UnitExp());
    var x := RootOf(f, a);
    AtNonneg(0, 0 - f.RndSize());
    AgreesExact(x, 0, f.RndSize() - 1, 0 - f.RndSize());
    RoundPackZero(f, false, 1, rm, ff, x);
    RoundZero(f, false, 1, rm, ff);
    LowSmall(0, f.mantSize);
  }

  /** The word after normalizing a sticky integer root is the exact root rounded. */
  lemma RootRounded(f: Format, a: nat, s: nat, inexact: bool, rm: RoundingMode, ff: Flags)
    requires IsWord(f, a) && !IsZero(f, a)
    requires var w := Shl(Shl(EvenMant(f, a), f.FSize() - 4 - f.mantSize), f.FSize());
             IsSqrt(w, s) && (inexact <==> Times(s, s) != w)
    ensures Clz(f, OrBit(s, inexact)) >= 1
    ensures Normalize(f, false, EvenExp(f, a), OrBit(s, inexact), rm, ff) == Rounded(f, false, rm, ff, RootOf(f, a))
  {
    hide Shl, At, NormExp, NormMant, EvenMant, EvenExp, BitLen, Normalize, Rounded, RootOf, Agrees, Times, IsSqrt, Pow2;
    RadicandRange(f, a);
    RadicandScale(f, a);
    var m1, n, exp := Shl(EvenMant(f, a), f.FSize() - 4 - f.mantSize), f.FSize(), EvenExp(f, a);
    var w := Shl(m1, n);
    Pow2Shl(n - 4, n);
    Pow2Shl(n - 2, n);
    ShlOrder(m1, Pow2(n - 4), n);
    ShlOrder(m1, Pow2(n - 2), n);
    RootBounds(n, w, s);
    Pow2Double(n - 2);
    RootAgrees(w, s, inexact, exp - 1 - f.RndSize());
    Pow2Mono(f.mantSize + 2, n - 2);
    NormalizeSticky(f, false, exp, OrBit(s, inexact), rm, ff, RootOf(f, a));
  }

  /**
   sqrt_sf, over the double-width iteration or, where there is no double-width
   word, over the fallback. For every non-negative finite a, minus zero included,
   the result is the exact square root correctly rounded in every mode.
   */
  method SqrtSf(f: Format, a: nat, rm: RoundingMode, ff: Flags, wide: bool) returns (r: nat, ff': Flags)
    requires IsWord(f, a) && (wide || f.FSize() % 2 == 0)
    ensures IsFinite(f, a) && !SignOf(f, a) ==> (r, ff') == Rounded(f, false, rm, ff, RootOf(f, a))
    ensures IsZero(f, a) ==> (r, ff') == (a, ff)
    ensures IsInf(f, a) && !SignOf(f, a) ==> (r, ff') == (a, ff)
    ensures SignOf(f, a) && !IsZero(f, a) && !IsNan(f, a) ==> (r, ff') == (QNan(f), ff.Or(INVALID))
    ensures IsNan(f, a) ==> (r, ff') == (QNan(f), if IsSigNan(f, a) then ff.Or(INVALID) else ff)
  {
    hide Shl, Shr, Low, ExpOf, MantOf, SignOf, MagOf, Rounded, RootOf, Normalize, EvenMant, EvenExp, IsSqrt, Times,
         SqrtStart, BitLen, QNan, IsSigNan, BinaryFormat.ExpMask, Pow2;
    assert f.ExpMask() > 0 by { ExpMaskLarge(f); }
    if ExpOf(f, a) == f.ExpMask() {
      if MantOf(f, a) != 0 {
        return QNan(f), if IsSigNan(f, a) then ff.Or(INVALID) else ff;
      } else if SignOf(f, a) {
        return QNan(f), ff.Or(INVALID);
      } else {
        return a, ff;
      }
    }
    if SignOf(f, a) {
      if IsZero(f, a) {
        return a, ff;
      }
      return QNan(f), ff.Or(INVALID);
    }
    if IsZero(f, a) {
      RootOfZero(f, a, rm, ff);
      ZeroWord(f, a);
      return Pack(f, false, 0, 0), ff;
    }
    var mant := Shl(EvenMant(f, a), f.FSize() - 4 - f.mantSize);
    RadicandRange(f, a);
    assert mant > 0;
    StartAbove(f.FSize(), mant, 0);
    assert Pow2(f.FSize()) > 0;
    var s, inexact;
    if wide {
      s, inexact := SqrtRemU(f.FSize(), mant, 0);
    } else {
      ZeroLowWord(f.FSize(), mant);
      var ok;
      ok, s, inexact := SqrtRemWords(f.FSize() / 2, mant, 0);
      assert ok;
    }
    RootRounded(f, a, s, inexact, rm, ff);
    var res := Normalize(f, false, EvenExp(f, a), OrBit(s, inexact), rm, ff);
    r, ff' := res.0, res.1;
  }

  /** With a zero low word the argument is not the one the fallback fails at. */
  lemma ZeroLowWord(n: nat, a1: nat)
    requires n >= 4
    ensures Shl(a1, n) != Pow2(2 * n - 2) - 1
  {
    hide Shl, Shr, Low, Pow2;
    TopArgument(n);
    Pow2Mono(1, n);
    Pow2One();
    SplitUnique(Shl(a1, n), n, a1, 0);
    if Shl(a1, n) == Pow2(2 * n - 2) - 1 {
      SplitUnique(Shl(a1, n), n, Pow2(n - 2) - 1, Pow2(n) - 1);
    }
  }

  lemma ZeroWord(f: Format, a: nat)
    requires IsWord(f, a) && IsZero(f, a)
    ensures a == Pack(f, SignOf(f, a), 0, 0)
  {
    WordFields(f, a);
    LowSmall(0, f.mantSize);
  }
}
