/**
 Powers of two, and shifts by a variable number of bits defined by doubling and
 halving, so that reasoning about them stays linear.
 */
module Powers {

  function Pow2(n: nat): (r: nat)
    ensures r >= 1
  {
    if n == 0 then 1 else 2 * Pow2(n - 1)
  }

  /** a shifted left by d bits, in an unbounded word. */
  function Shl(a: nat, d: nat): (r: nat)
    ensures r >= a
    ensures a == 0 || d == 0 ==> r == a
  {
    if d == 0 then a else 2 * Shl(a, d - 1)
  }

  /** a shifted right by d bits. */
  function Shr(a: nat, d: nat): (r: nat)
    ensures r <= a
  {
    if d == 0 then a else Shr(a / 2, d - 1)
  }

  /** The low d bits of a. */
  function Low(a: nat, d: nat): (r: nat)
    ensures r < Pow2(d)
  {
    if d == 0 then 0 else 2 * Low(a / 2, d - 1) + a % 2
  }

  /** y times 2^s, for any integer s. */
  ghost function Scaled(y: real, s: int): real
    decreases if s < 0 then -s else s
  {
    if s == 0 then y else if s > 0 then 2.0 * Scaled(y, s - 1) else Scaled(y, s + 1) / 2.0
  }

  // ----- shifts -----

  lemma {:induction false} Pow2Mono(a: nat, b: nat)
    requires a <= b
    ensures Pow2(a) <= Pow2(b)
    ensures a < b ==> 2 * Pow2(a) <= Pow2(b)
    decreases b
  {
    if a < b { Pow2Mono(a, b - 1); }
  }

  lemma Pow2One()
    ensures Pow2(0) == 1 && Pow2(1) == 2
  {
  }

  lemma Pow2Double(n: nat)
    ensures Pow2(n + 1) == 2 * Pow2(n)
  {
  }

  lemma {:induction false} Pow2Shl(a: nat, d: nat)
    ensures Shl(Pow2(a), d) == Pow2(a + d)
  {
    if d != 0 { Pow2Shl(a, d - 1); }
  }

  lemma {:induction false} ShlMul(a: nat, d: nat)
    ensures Shl(a, d) == a * Pow2(d)
  {
    if d != 0 {
      ShlMul(a, d - 1);
      assert 2 * (a * Pow2(d - 1)) == a * (2 * Pow2(d - 1));
    }
  }

  lemma {:induction false} ShlShl(k: nat, a: nat, b: nat)
    ensures Shl(Shl(k, a), b) == Shl(k, a + b)
    decreases b
  {
    if b != 0 { ShlShl(k, a, b - 1); }
  }

  lemma {:induction false} ShlAdd(a: nat, b: nat, d: nat)
    ensures Shl(a + b, d) == Shl(a, d) + Shl(b, d)
  {
    if d != 0 { ShlAdd(a, b, d - 1); }
  }

  lemma ShlOne(d: nat)
    ensures Shl(1, d) == Pow2(d) && Shl(0, d) == 0
  {
    if d != 0 { ShlOne(d - 1); }
  }

  /** An even number of d-bit shifts is a number of (d+1)-bit shifts. */
  lemma ShlDouble(n: nat, d: nat)
    ensures Shl(2 * n, d) == Shl(n, d + 1)
  {
    ShlShl(n, 1, d);
  }

  lemma ShlStep(a: nat, d: nat)
    ensures Shl(a, d + 1) == 2 * Shl(a, d)
  {
  }

  lemma ShlSucc(a: nat, d: nat)
    ensures Shl(a + 1, d) == Shl(a, d) + Pow2(d)
  {
    ShlAdd(a, 1, d);
    ShlOne(d);
  }

  /** Shifting left keeps and reflects order. */
  lemma {:induction false} ShlOrder(a: nat, b: nat, d: nat)
    ensures a < b <==> Shl(a, d) < Shl(b, d)
    ensures a == b <==> Shl(a, d) == Shl(b, d)
  {
    if d != 0 { ShlOrder(a, b, d - 1); }
  }

  lemma {:induction false} ShrLow(a: nat, d: nat)
    ensures a == Shl(Shr(a, d), d) + Low(a, d)
  {
    if d != 0 { ShrLow(a / 2, d - 1); }
  }

  /** High and low part are determined by how they make up the number. */
  lemma {:induction false} SplitUnique(a: nat, d: nat, q: nat, r: nat)
    requires a == Shl(q, d) + r && r < Pow2(d)
    ensures Shr(a, d) == q && Low(a, d) == r
    decreases d
  {
    if d != 0 { SplitUnique(a / 2, d - 1, q, r / 2); }
  }

  lemma LowSmall(a: nat, d: nat)
    requires a < Pow2(d)
    ensures Low(a, d) == a && Shr(a, d) == 0
  {
    ShlOne(d);
    SplitUnique(a, d, 0, a);
  }

  lemma ShrOrder(a: nat, d: nat, n: nat)
    ensures a < Shl(n, d) <==> Shr(a, d) < n
    ensures a == Shl(n, d) <==> Shr(a, d) == n && Low(a, d) == 0
  {
    var q := Shr(a, d);
    ShrLow(a, d);
    ShlSucc(q, d);
    ShlOrder(n, q, d);
    ShlOrder(q + 1, n, d);
  }

  /** A number of d + n bits keeps n of them when shifted right by d. */
  lemma ShrBound(a: nat, d: nat, n: nat)
    requires a < Pow2(d + n)
    ensures Shr(a, d) < Pow2(n)
  {
    Pow2Shl(n, d);
    ShrOrder(a, d, Pow2(n));
  }

  lemma {:induction false} ShrShl(a: nat, d: nat)
    ensures Shr(Shl(a, d), d) == a && Low(Shl(a, d), d) == 0
  {
    SplitUnique(Shl(a, d), d, a, 0);
  }

  // ----- scaling by a power of two -----

  lemma ScaledUp(y: real, s: int)
    ensures Scaled(y, s + 1) == 2.0 * Scaled(y, s)
  {
  }

  lemma {:induction false} ScaledOrder(y: real, z: real, s: int)
    ensures y < z <==> Scaled(y, s) < Scaled(z, s)
    ensures y == z <==> Scaled(y, s) == Scaled(z, s)
    decreases if s < 0 then -s else s
  {
    if s > 0 { ScaledOrder(y, z, s - 1); } else if s < 0 { ScaledOrder(y, z, s + 1); }
  }

  lemma {:induction false} ScaledSum(y: real, z: real, s: int)
    ensures Scaled(y + z, s) == Scaled(y, s) + Scaled(z, s)
    ensures Scaled(y - z, s) == Scaled(y, s) - Scaled(z, s)
    decreases if s < 0 then -s else s
  {
    if s > 0 { ScaledSum(y, z, s - 1); } else if s < 0 { ScaledSum(y, z, s + 1); }
  }

  lemma {:induction false} ScaledMul(y: real, z: real, p: real, s: int)
    requires p == y * z
    ensures Scaled(p, s) == Scaled(y, s) * z
    decreases if s < 0 then -s else s
  {
    if s > 0 {
      ScaledMul(y, z, p, s - 1);
      assert (2.0 * Scaled(y, s - 1)) * z == 2.0 * (Scaled(y, s - 1) * z);
    } else if s < 0 {
      ScaledMul(y, z, p, s + 1);
      assert (Scaled(y, s + 1) / 2.0) * z == (Scaled(y, s + 1) * z) / 2.0;
    }
  }

  lemma {:induction false} ScaledTwice(y: real, s: int, t: int)
    ensures Scaled(Scaled(y, s), t) == Scaled(y, s + t)
    decreases if t < 0 then -t else t
  {
    if t > 0 {
      ScaledTwice(y, s, t - 1);
      ScaledUp(y, s + t - 1);
    } else if t < 0 {
      ScaledTwice(y, s, t + 1);
      ScaledUp(y, s + t);
    }
  }

  /** n units of 2^s. */
  ghost function At(n: nat, s: int): real {
    Scaled(n as real, s)
  }

  lemma {:induction false} AtNonneg(n: nat, s: int)
    ensures At(n, s) >= 0.0
    ensures At(0, s) == 0.0
    decreases if s < 0 then -s else s
  {
    if s > 0 { AtNonneg(n, s - 1); } else if s < 0 { AtNonneg(n, s + 1); }
  }

  lemma AtOrder(m: nat, n: nat, s: int)
    ensures m < n <==> At(m, s) < At(n, s)
    ensures m == n <==> At(m, s) == At(n, s)
  {
    ScaledOrder(m as real, n as real, s);
  }

  /** A count of units 2^(s+d) is the 2^d-fold count of units 2^s. */
  lemma {:induction false} AtShl(n: nat, d: nat, s: int)
    ensures At(Shl(n, d), s) == At(n, s + d)
    decreases d
  {
    if d != 0 {
      AtShl(n, d - 1, s);
      ScaledUp(n as real, s + d - 1);
      ScaledSum(Shl(n, d - 1) as real, Shl(n, d - 1) as real, s);
      assert Shl(n, d) as real == Shl(n, d - 1) as real + Shl(n, d - 1) as real;
    }
  }

  // ----- products and quotients -----

  function Times(a: nat, b: nat): (r: nat) {
    a * b
  }

  function Quotient(a: nat, p: nat): (r: nat)
    requires p > 0
  {
    a / p
  }

  function Remainder(a: nat, p: nat): (r: nat)
    requires p > 0
  {
    a % p
  }

  lemma MulNatMono(a: nat, b: nat, c: nat)
    requires a <= b
    ensures a * c <= b * c
  {
  }

  /** m lies below the n-fold of p exactly when its quotient lies below n. */
  lemma DivOrder(m: nat, p: nat, n: nat)
    requires p > 0
    ensures m < Times(n, p) <==> Quotient(m, p) < n
    ensures m == Times(n, p) <==> Quotient(m, p) == n && Remainder(m, p) == 0
  {
    var q, r := m / p, m % p;
    assert m == q * p + r;
    if q < n { MulNatMono(q + 1, n, p); } else { MulNatMono(n, q, p); }
    if n < q { MulNatMono(n + 1, q, p); }
  }

  lemma Pow2Times(k: nat, a: nat)
    ensures Times(Pow2(k), a) == Shl(a, k)
  {
    ShlMul(a, k);
  }

  lemma SquareOrder(a: real, b: real)
    requires 0.0 <= a < b
    ensures a * a < b * b
  {
    var d := b - a;
    assert b * b == a * a + 2.0 * (a * d) + d * d;
    assert d * d > 0.0;
    assert a * d >= 0.0;
  }
}
