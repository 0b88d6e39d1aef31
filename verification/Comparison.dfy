/** The comparisons order words as the numbers they denote; zeros of either sign are equal. */
module Comparison {
  import opened Powers
  import opened Ieee
  import opened Words
  import opened Addition

  /** Both words are zeros: their bits vanish once the sign is shifted out. */
  predicate BothZero(f: Format, a: nat, b: nat) {
    MagOf(f, a) == 0 && MagOf(f, b) == 0
  }

  function EqQuiet(f: Format, a: nat, b: nat, ff: Flags): (bool, Flags) {
    if IsNan(f, a) || IsNan(f, b) then
      (false, if IsSigNan(f, a) || IsSigNan(f, b) then ff.Or(INVALID) else ff)
    else (BothZero(f, a, b) || a == b, ff)
  }

  function Le(f: Format, a: nat, b: nat, ff: Flags): (bool, Flags) {
    if IsNan(f, a) || IsNan(f, b) then (false, ff.Or(INVALID))
    else if SignOf(f, a) != SignOf(f, b) then (SignOf(f, a) || BothZero(f, a, b), ff)
    else if SignOf(f, a) then (a >= b, ff)
    else (a <= b, ff)
  }

  function Lt(f: Format, a: nat, b: nat, ff: Flags): (bool, Flags) {
    if IsNan(f, a) || IsNan(f, b) then (false, ff.Or(INVALID))
    else if SignOf(f, a) != SignOf(f, b) then (SignOf(f, a) && !BothZero(f, a, b), ff)
    else if SignOf(f, a) then (a > b, ff)
    else (a < b, ff)
  }

  /** On words that are not NaN the three comparisons are those of the numbers, infinities at the ends. */
  lemma CompareCorrect(f: Format, a: nat, b: nat, ff: Flags)
    requires IsWord(f, a) && IsWord(f, b) && !IsNan(f, a) && !IsNan(f, b)
    ensures EqQuiet(f, a, b, ff) == (SignedUnits(f, a) == SignedUnits(f, b), ff)
    ensures Le(f, a, b, ff) == (SignedUnits(f, a) <= SignedUnits(f, b), ff)
    ensures Lt(f, a, b, ff) == (SignedUnits(f, a) < SignedUnits(f, b), ff)
  {
    hide Shl, Shr, Low, Pow2, BinaryFormat.Units, MagOf, SignOf, IsNan;
    WordFields(f, a);
    WordFields(f, b);
    var j, k := MagOf(f, a), MagOf(f, b);
    assert f.Units(0) == 0 by { UnitsZero(f); }
    UnitsMono(f, 0, j);
    UnitsMono(f, 0, k);
    if j <= k { UnitsMono(f, j, k); } else { UnitsMono(f, k, j); }
  }
}
