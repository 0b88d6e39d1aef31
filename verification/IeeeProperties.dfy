/**
 What the rounding of module Ieee means in the words of section 4.3 of
 IEEE 754-2008: nearest is nearest, directed roundings bound the exact value
 from the right side, rounding never inverts order, and tininess is that of the
 number rounded as if the exponent had no bound.
 */
module IeeeProperties {
  import opened Powers
  import opened Ieee

  lemma {:induction false} FloorBounds(f: Format, x: Magnitude, j: nat)
    ensures FloorFrom(f, x, j) <= j
    ensures !BelowBits(f, x, FloorFrom(f, x, j)) || FloorFrom(f, x, j) == 0
    ensures FloorFrom(f, x, j) < j ==> BelowBits(f, x, FloorFrom(f, x, j) + 1)
    decreases j
  {
    if j != 0 && BelowBits(f, x, j) { FloorBounds(f, x, j - 1); }
  }

  /** The floor of an exact result is between its neighbours. */
  lemma FloorBetween(f: Format, x: Magnitude)
    requires x.q >= 0.0
    ensures var k := FloorBits(f, x);
            k <= f.Inf() && !BelowBits(f, x, k) && (k < f.Inf() ==> BelowBits(f, x, k + 1))
  {
    hide BinaryFormat.Units, BinaryFormat.Inf;
    UnitsZero(f);
    FloorBounds(f, x, f.Inf());
  }

  // ----- nearest -----

  /** Halfway between the numbers of two patterns. */
  ghost function Middle(f: Format, r: nat, j: nat): real {
    (f.Units(r) + f.Units(j)) as real / 2.0
  }

  /** x is at least as close to the number of pattern r as to that of j: it is on r's side of their middle. */
  ghost predicate Closer(f: Format, x: Magnitude, r: nat, j: nat) {
    if r < j then x.Below(Middle(f, r, j)) || x.Is(Middle(f, r, j))
    else r == j || !x.Below(Middle(f, r, j))
  }

  ghost function Distance(q: real, u: real): real {
    if q < u then u - q else q - u
  }

  /** For a real number that is a comparison of distances, and the middle is where they are equal. */
  lemma CloserIsDistance(f: Format, q: real, r: nat, j: nat)
    ensures var dr, dj := Distance(q, f.Units(r) as real), Distance(q, f.Units(j) as real);
            && (Closer(f, Plain(q), r, j) <==> dr <= dj)
            && (r != j ==> (Plain(q).Is(Middle(f, r, j)) <==> dr == dj))
  {
    hide BinaryFormat.Units;
    if r < j { UnitsMono(f, r, j); } else { UnitsMono(f, j, r); }
    if r < j { UnitsStep(f, r); UnitsMono(f, r + 1, j); }
    if j < r { UnitsStep(f, j); UnitsMono(f, j + 1, r); }
  }

  /** A square root compares with non-negative numbers as the real number whose square it is the root of. */
  lemma RootIsReal(q: real, y: real, z: real)
    requires y >= 0.0 && z >= 0.0 && y * y == q
    ensures Root(q).Below(z) <==> Plain(y).Below(z)
    ensures Root(q).Is(z) <==> Plain(y).Is(z)
  {
    if y < z { SquareOrder(y, z); } else if z < y { SquareOrder(z, y); }
  }

  lemma MiddleOrder(f: Format, r: nat, j: nat, i: nat)
    requires j < i
    ensures Middle(f, r, j) < Middle(f, r, i) && Middle(f, r, j) >= 0.0
    ensures r <= j ==> f.Units(r) as real <= Middle(f, r, j)
    ensures j <= r ==> Middle(f, r, j) <= f.Units(r) as real
  {
    hide BinaryFormat.Units;
    UnitsStep(f, j);
    UnitsMono(f, j + 1, i);
    if r <= j { UnitsMono(f, r, j); } else { UnitsMono(f, j, r); }
  }

  lemma FloorNotAbove(f: Format, x: Magnitude, k: nat, j: nat)
    requires x.q >= 0.0 && !BelowBits(f, x, k) && j <= k
    ensures !x.Below(Middle(f, k, j))
  {
    hide BinaryFormat.Units;
    MiddleOrder(f, k, j, j + 1);
    if x.Below(Middle(f, k, j)) { BelowMono(x, Middle(f, k, j), f.Units(k) as real); }
  }

  lemma CeilingNotBelow(f: Format, x: Magnitude, k: nat, j: nat)
    requires BelowBits(f, x, k) && k <= j
    ensures x.Below(Middle(f, k, j))
  {
    hide BinaryFormat.Units;
    MiddleOrder(f, k, j, j + 1);
    BelowMono(x, f.Units(k) as real, Middle(f, k, j));
  }

  /**
   Beyond the neighbours: a point of the upper neighbour's side of the midpoint
   is farther still from lower numbers.
   */
  lemma AboveMidpoint(f: Format, x: Magnitude, k: nat, j: nat)
    requires x.q >= 0.0 && !x.Below(Midpoint(f, k)) && j <= k
    ensures !x.Below(Middle(f, k + 1, j)) && (j < k ==> !x.Is(Middle(f, k + 1, j)))
  {
    hide BinaryFormat.Units;
    if j < k {
      MiddleOrder(f, k + 1, j, k);
      if x.Below(Middle(f, k + 1, j)) { BelowMono(x, Middle(f, k + 1, j), Midpoint(f, k)); }
      if x.Is(Middle(f, k + 1, j)) { IsBetween(x, Middle(f, k + 1, j), Midpoint(f, k)); }
    }
  }

  lemma BelowMidpoint(f: Format, x: Magnitude, k: nat, j: nat)
    requires (x.Below(Midpoint(f, k)) || x.Is(Midpoint(f, k))) && k + 1 < j
    ensures x.Below(Middle(f, k, j)) && !x.Is(Middle(f, k, j))
  {
    hide BinaryFormat.Units;
    MiddleOrder(f, k, k + 1, j);
    if x.Below(Midpoint(f, k)) {
      BelowMono(x, Midpoint(f, k), Middle(f, k, j));
    } else {
      IsBetween(x, Midpoint(f, k), Middle(f, k, j));
      BelowMono(x, Middle(f, k, j), Middle(f, k, j));
    }
  }

  /**
   Round to nearest gives a number nearest to x, a real number or a square root,
   for either tie rule; on a tie between two numbers RNE takes the one with an
   even mantissa and RMM the larger.
   */
  lemma NearestIsNearest(f: Format, rm: RoundingMode, sign: bool, x: Magnitude, j: nat)
    requires x.q >= 0.0 && (rm == RNE || rm == RMM) && FloorBits(f, x) < f.Inf()
    ensures var r := RoundBits(f, rm, sign, x);
            && Closer(f, x, r, j)
            && (j != r && x.Is(Middle(f, r, j)) ==> if rm == RNE then r % 2 == 0 else j < r)
  {
    hide BinaryFormat.Units, BinaryFormat.Inf, FloorBits, Magnitude.Below, Magnitude.Is;
    var k := FloorBits(f, x);
    FloorBetween(f, x);
    if RoundBits(f, rm, sign, x) == k {
      NearestDown(f, rm, x, k, j);
    } else {
      if j <= k { AboveMidpoint(f, x, k, j); } else { CeilingNotBelow(f, x, k + 1, j); }
      if j > k + 1 { MiddleOrder(f, k + 1, k + 1, j); BelowMono(x, f.Units(k + 1) as real, Middle(f, k + 1, j)); }
    }
  }

  lemma NearestDown(f: Format, rm: RoundingMode, x: Magnitude, k: nat, j: nat)
    requires x.q >= 0.0 && (rm == RNE || rm == RMM) && !BelowBits(f, x, k) && BelowBits(f, x, k + 1)
    requires x.Is(f.Units(k) as real) || !GoesUp(f, rm, false, x, k)
    ensures Closer(f, x, k, j)
    ensures j != k && x.Is(Middle(f, k, j)) ==> if rm == RNE then k % 2 == 0 else j < k
  {
    hide BinaryFormat.Units, Magnitude.Below, Magnitude.Is;
    if j < k {
      FloorNotAbove(f, x, k, j);
      TieBelow(f, x, k, j);
    } else if j > k {
      if x.Is(f.Units(k) as real) {
        MiddleOrder(f, k, k, k + 1);
        IsBetween(x, f.Units(k) as real, Midpoint(f, k));
      }
      if x.Below(Midpoint(f, k)) { BelowMono(x, Midpoint(f, k), Midpoint(f, k)); }
      if j > k + 1 { BelowMidpoint(f, x, k, j); }
    }
  }

  /** A point not below pattern k is not a tie with anything smaller. */
  lemma TieBelow(f: Format, x: Magnitude, k: nat, j: nat)
    requires !BelowBits(f, x, k) && j < k
    ensures !x.Is(Middle(f, k, j))
  {
    hide BinaryFormat.Units;
    MiddleOrder(f, k, j, k);
    if x.Is(Middle(f, k, j)) { IsBetween(x, Middle(f, k, j), f.Units(k) as real); }
  }

  // ----- directed, and order -----

  /**
   The chopping modes give the largest number not above x, the others of the
   directed modes the smallest not below.
   */
  lemma DirectedBounds(f: Format, rm: RoundingMode, sign: bool, x: Magnitude, j: nat)
    requires x.q >= 0.0 && rm in {RTZ, RDN, RUP} && j < f.Inf()
    ensures var r := RoundBits(f, rm, sign, x);
            if Chops(rm, sign) then !BelowBits(f, x, r) && (!BelowBits(f, x, j) ==> j <= r)
            else (r < f.Inf() ==> NotAbove(f, x, r)) && (NotAbove(f, x, j) ==> r <= j)
  {
    hide BinaryFormat.Units, BinaryFormat.Inf, FloorBits, Magnitude.Below, Magnitude.Is;
    var k := FloorBits(f, x);
    FloorBetween(f, x);
    if k == f.Inf() {
      BelowLater(f, x, k - 1, k);
      BelowLater(f, x, j, k);
    } else {
      BelowLater(f, x, k + 1, j);
      BelowLater(f, x, j, k);
    }
  }

  /** x does not exceed the number of pattern j. */
  ghost predicate NotAbove(f: Format, x: Magnitude, j: nat) {
    BelowBits(f, x, j) || x.Is(f.Units(j) as real)
  }

  lemma BelowLater(f: Format, x: Magnitude, i: nat, j: nat)
    ensures i <= j && BelowBits(f, x, i) ==> BelowBits(f, x, j) && !x.Is(f.Units(i) as real)
    ensures i < j && x.Is(f.Units(i) as real) ==> BelowBits(f, x, j)
  {
    hide BinaryFormat.Units;
    if i <= j { UnitsMono(f, i, j); }
    if i <= j && BelowBits(f, x, i) { BelowMono(x, f.Units(i) as real, f.Units(j) as real); }
    if i < j && x.Is(f.Units(i) as real) { IsBetween(x, f.Units(i) as real, f.Units(j) as real); }
  }

  lemma AtMostCompare(x: Magnitude, x': Magnitude, y: real)
    requires x.Plain? == x'.Plain? && 0.0 <= x.q <= x'.q
    ensures x'.Below(y) ==> x.Below(y)
    ensures x'.Is(y) ==> x.Below(y) || x.Is(y) || y == 0.0
  {
  }

  /** Rounding keeps order: a larger number of the same sign, or root of one, is never rounded to a smaller one. */
  lemma RoundMonotone(f: Format, rm: RoundingMode, sign: bool, x: Magnitude, x': Magnitude)
    requires x.Plain? == x'.Plain? && 0.0 <= x.q <= x'.q
    ensures RoundBits(f, rm, sign, x) <= RoundBits(f, rm, sign, x')
  {
    hide BinaryFormat.Units, BinaryFormat.Inf, FloorBits;
    var k, k' := FloorBits(f, x), FloorBits(f, x');
    FloorBetween(f, x);
    FloorBetween(f, x');
    if k > k' {
      AtMostCompare(x, x', f.Units(k' + 1) as real);
      BelowLater(f, x, k' + 1, k);
    } else if k == k' && k < f.Inf() {
      SameFloor(f, rm, sign, x, x', k);
    }
  }

  lemma SameFloor(f: Format, rm: RoundingMode, sign: bool, x: Magnitude, x': Magnitude, k: nat)
    requires x.Plain? == x'.Plain? && 0.0 <= x.q <= x'.q && !BelowBits(f, x, k)
    ensures x'.Is(f.Units(k) as real) ==> x.Is(f.Units(k) as real)
    ensures !x.Is(f.Units(k) as real) && GoesUp(f, rm, sign, x, k) ==> GoesUp(f, rm, sign, x', k)
  {
    hide BinaryFormat.Units;
    UnitsStep(f, k);
  }

  // ----- tininess -----

  /** x lies in [n, n + 1) units of 2^s, n being a full significand; every exponent s is allowed. */
  ghost predicate Bracketed(f: Format, x: Magnitude, n: nat, s: int) {
    && Pow2(f.mantSize) <= n < 2 * Pow2(f.mantSize)
    && !x.Below(At(n, s)) && x.Below(At(n + 1, s))
  }

  /** x rounded to a full significand as if the exponent had no bound, in units of 2^s. */
  ghost function RoundUnbounded(rm: RoundingMode, sign: bool, x: Magnitude, n: nat, s: int): nat {
    var middle := At(2 * n + 1, s - 1);
    var up := match rm
      case RTZ => false
      case RDN => sign
      case RUP => !sign
      case RMM => !x.Below(middle)
      case RNE => !x.Below(middle) && (x.Is(middle) ==> n % 2 == 1);
    if x.Is(At(n, s)) || !up then n else n + 1
  }

  /** The reference's tininess is being below the smallest normal number after that rounding. */
  lemma TinyIsTiny(f: Format, rm: RoundingMode, sign: bool, x: Magnitude, n: nat, s: int)
    requires x.q >= 0.0 && Bracketed(f, x, n, s)
    ensures TinyAfterRounding(f, rm, sign, x) <==>
            At(RoundUnbounded(rm, sign, x, n, s), s) < Pow2(f.mantSize) as real
  {
    hide At, BinaryFormat.Units, BinaryFormat.Inf, FloorBits, Magnitude.Below, Magnitude.Is, RoundBits, RoundUnbounded;
    var p, r := Pow2(f.mantSize), RoundUnbounded(rm, sign, x, n, s);
    assert n <= r <= n + 1 by { UnboundedStep(rm, sign, x, n, s); }
    if s >= 0 {
      NormalNotTiny(f, rm, sign, x, n, s);
      WholeAt(n, s);
      if n < r { AtOrder(n, r, s); }
    } else if s == -1 {
      SameRounding(f, rm, sign, x, n);
      HalfAt(r);
    } else {
      BelowHalf(f, x, n, s);
      FarBelow(f, rm, sign, x);
      AtOrder(r, 2 * p, s);
      SmallAt(2 * p, s);
    }
  }

  lemma UnboundedStep(rm: RoundingMode, sign: bool, x: Magnitude, n: nat, s: int)
    ensures n <= RoundUnbounded(rm, sign, x, n, s) <= n + 1
  {
  }

  lemma {:induction false} WholeAt(n: nat, s: int)
    requires s >= 0
    ensures At(n, s) >= n as real
    decreases s
  {
    if s > 0 { WholeAt(n, s - 1); ScaledUp(n as real, s - 1); }
  }

  lemma HalfAt(n: nat)
    ensures At(n, -1) == n as real / 2.0
  {
    ScaledUp(n as real, -1);
  }

  /** Four or more times less. */
  lemma {:induction false} SmallAt(n: nat, s: int)
    requires s <= -2
    ensures At(n, s) <= n as real / 4.0
    decreases -s
  {
    hide At;
    ScaledUpAt(n, s);
    if s == -2 { HalfAt(n); } else { SmallAt(n, s + 1); AtNonneg(n, s); }
  }

  lemma ScaledUpAt(n: nat, s: int)
    ensures At(n, s + 1) == 2.0 * At(n, s)
  {
    ScaledUp(n as real, s);
  }

  /** Patterns up to twice the hidden bit are their own numbers of units. */
  lemma SmallUnits(f: Format, k: nat)
    requires k <= 2 * Pow2(f.mantSize)
    ensures f.Units(k) == k
  {
    hide Shl, BinaryFormat.Units;
    UnitsAt(f, 1, k);
    ShlOne(f.mantSize);
  }

  lemma InfBig(f: Format)
    ensures 2 * Pow2(f.mantSize) + 1 < f.Inf()
  {
    hide Shl, Pow2;
    Pow2Mono(8, f.expSize);
    assert Pow2(8) == 256 by { EightBits(); }
    ShlOrder(4, f.ExpMask(), f.mantSize);
    ShlShl(1, 2, f.mantSize);
    ShlDouble(2, f.mantSize);
    ShlMul(4, f.mantSize);
    Pow2Mono(1, f.mantSize);
    Pow2One();
  }

  lemma EightBits()
    ensures Pow2(8) == 256
  {
  }

  lemma NormalNotTiny(f: Format, rm: RoundingMode, sign: bool, x: Magnitude, n: nat, s: int)
    requires x.q >= 0.0 && Bracketed(f, x, n, s) && s >= 0
    ensures !TinyAfterRounding(f, rm, sign, x)
  {
    hide At, BinaryFormat.Units, BinaryFormat.Inf, FloorBits, Pow2;
    var k := 2 * Pow2(f.mantSize);
    WholeAt(n, s);
    SmallUnits(f, k);
    InfBig(f);
    var p := Pow2(f.mantSize) as real;
    if x.Below(p) { BelowMono(x, p, At(n, s)); }
    TwiceCompare(x, p);
    FloorBetween(f, x.Twice());
    var j := FloorBits(f, x.Twice());
    if j < k { BelowLater(f, x.Twice(), j + 1, k); }
  }

  lemma BelowHalf(f: Format, x: Magnitude, n: nat, s: int)
    requires Bracketed(f, x, n, s) && s <= -2
    ensures x.Below(Pow2(f.mantSize) as real / 2.0)
  {
    hide At, Pow2;
    var p := Pow2(f.mantSize);
    AtOrder(2 * p, n + 1, s);
    SmallAt(2 * p, s);
    AtNonneg(n + 1, s);
    BelowMono(x, At(n + 1, s), p as real / 2.0);
  }

  lemma FarBelow(f: Format, rm: RoundingMode, sign: bool, x: Magnitude)
    requires x.q >= 0.0 && x.Below(Pow2(f.mantSize) as real / 2.0)
    ensures TinyAfterRounding(f, rm, sign, x)
  {
    hide BinaryFormat.Units, BinaryFormat.Inf, FloorBits, Pow2;
    var p := Pow2(f.mantSize);
    TwiceCompare(x, p as real / 2.0);
    SmallUnits(f, p);
    InfBig(f);
    FloorBetween(f, x.Twice());
    var j := FloorBits(f, x.Twice());
    if j >= p { BelowLater(f, x.Twice(), p, j); }
  }

  /** In the binade below the smallest normal number, doubling lends the bit that the format lacks there. */
  lemma SameRounding(f: Format, rm: RoundingMode, sign: bool, x: Magnitude, n: nat)
    requires x.q >= 0.0 && Bracketed(f, x, n, -1)
    ensures RoundBits(f, rm, sign, x.Twice()) == RoundUnbounded(rm, sign, x, n, -1)
  {
    hide At, BinaryFormat.Units, BinaryFormat.Inf, FloorBits, Pow2;
    HalfAt(n);
    HalfAt(n + 1);
    QuarterAt(2 * n + 1);
    SmallUnits(f, n);
    SmallUnits(f, n + 1);
    InfBig(f);
    TwiceCompare(x, At(n, -1));
    TwiceCompare(x, At(n + 1, -1));
    TwiceCompare(x, At(2 * n + 1, -2));
    FloorUnique(f, x.Twice(), n);
    assert Midpoint(f, n) == 2.0 * At(2 * n + 1, -2);
  }

  lemma QuarterAt(n: nat)
    ensures At(n, -2) == n as real / 4.0
  {
    hide At;
    ScaledUpAt(n, -2);
    HalfAt(n);
  }
}
