/**
 RangeAllocator: claimed intervals of one linear space, sorted and disjoint.
 Alloc's single pass over the gaps finds the lowest aligned free place in its
 window, and fails for lack of space only if there is none.
 */
module RangeAllocation {
  import opened Powers

  const MAX_ENTRIES := 128
  const WORD := 0x1_0000_0000_0000_0000
  // addresses and sizes up to here cannot wrap in the sums below
  const ROOM := 0x1000_0000_0000_0000

  /** 64-bit addition. */
  function Add(a: nat, b: nat): nat { (a + b) % WORD }

  datatype Entry = Entry(base: nat, size: nat) {
    function End(): nat { base + size }
  }

  predicate Apart(base: nat, size: nat, e: Entry) {
    base + size <= e.base || e.End() <= base
  }

  /** Nonempty intervals in order, none overlapping, none near the end of the number range. */
  ghost predicate Sorted(es: seq<Entry>) {
    && (forall i :: 0 <= i < |es| ==> 0 < es[i].size && es[i].End() <= ROOM)
    && (forall i, j :: 0 <= i < j < |es| ==> es[i].End() <= es[j].base)
  }

  ghost predicate Free(es: seq<Entry>, base: nat, size: nat) {
    forall i :: 0 <= i < |es| ==> Apart(base, size, es[i])
  }

  ghost predicate Aligned(a: nat, align: nat)
    requires align > 0
  {
    a % align == 0
  }

  /** An aligned free place for size bytes between two addresses. */
  ghost predicate Fits(es: seq<Entry>, lo: nat, hi: nat, size: nat, align: nat, a: nat)
    requires align > 0
  {
    Aligned(a, align) && lo <= a && a + size <= hi && Free(es, a, size)
  }

  // ----- alignment -----

  /** x with the bits of a - 1 cleared, for a power of two a: without its remainder. */
  function Mask(x: nat, a: nat): (r: nat)
    requires a > 0
    ensures r <= x < r + a && r % a == 0
  {
    TakeOffRemainder(x, a);
    x - x % a
  }

  /** x rounded up to a multiple of a. */
  function AlignUp(x: nat, a: nat): nat
    requires a > 0
  {
    Mask(Add(x, a - 1), a)
  }

  /** Clearing the k low bits of a word is taking off the remainder. */
  lemma MaskIsRemainder(x: nat, k: nat)
    ensures Shl(Shr(x, k), k) == Mask(x, Pow2(k))
  {
    hide Mask, Shl, Shr, Low, Pow2;
    ShrLow(x, k);
    ShlMul(Shr(x, k), k);
    MultipleOf(Shr(x, k), Pow2(k));
    var m := Mask(x, Pow2(k));
    var s := Shl(Shr(x, k), k);
    if m < s { MultiplesApart(Pow2(k), m, s); }
    if s < m { MultiplesApart(Pow2(k), s, m); }
  }

  lemma MultipleOf(q: nat, a: nat)
    requires a > 0
    ensures (q * a) % a == 0
  {
    var x := q * a;
    var d := x / a - q;
    assert x % a == x - (x / a) * a == 0 - d * a;
    assert d < 0 ==> 0 - d * a >= a;
  }

  lemma TakeOffRemainder(x: nat, a: nat)
    requires a > 0
    ensures x % a <= x < x - x % a + a && (x - x % a) % a == 0
  {
    assert x == (x / a) * a + x % a;
    assert (x / a) * a >= 0;
    MultipleOf(x / a, a);
  }

  lemma MultiplesApart(a: nat, x: nat, y: nat)
    requires a > 0 && x % a == 0 && y % a == 0 && x < y
    ensures x + a <= y
  {
    var q, p := x / a, y / a;
    assert x == a * q && y == a * p;
    assert q < p;
    assert a * (q + 1) <= a * p;
  }

  lemma AlignedUp(x: nat, a: nat)
    requires 0 < a <= ROOM && x <= 4 * ROOM
    ensures Aligned(AlignUp(x, a), a) && x <= AlignUp(x, a) < x + a
    ensures forall y: nat :: x <= y && Aligned(y, a) ==> AlignUp(x, a) <= y
  {
    assert Add(x, a - 1) == x + a - 1;
    hide Mask;
    var r := AlignUp(x, a);
    forall y: nat | x <= y && Aligned(y, a) ensures r <= y {
      if y < r { MultiplesApart(a, y, r); }
    }
  }

  /** Alignments are powers of two; only for those does the mask round. */
  ghost predicate PowerOfTwo(a: nat) {
    exists k: nat :: a == Pow2(k)
  }

  // ----- insertion -----

  lemma SortedInserted(es: seq<Entry>, k: nat, e: Entry)
    requires Sorted(es) && k <= |es| && Free(es, e.base, e.size) && 0 < e.size && e.End() <= ROOM
    requires forall i :: 0 <= i < k ==> es[i].base < e.base
    requires forall i :: k <= i < |es| ==> e.base <= es[i].base
    ensures Sorted(es[..k] + [e] + es[k..])
  {
    forall i | 0 <= i < |es| ensures Apart(e.base, e.size, es[i]) {
    }
  }

  class RangeAllocator {
    var windowBase: nat
    var windowSize: nat
    var highBase: nat
    var highSize: nat
    var entries: seq<Entry>

    ghost predicate Valid()
      reads this
    {
      && Sorted(entries) && |entries| <= MAX_ENTRIES
      && windowBase + windowSize <= ROOM && highBase + highSize <= ROOM
    }

    constructor ()
      ensures Valid() && entries == [] && windowBase == windowSize == highBase == highSize == 0
    {
      windowBase, windowSize, highBase, highSize, entries := 0, 0, 0, 0, [];
    }

    /** The first entry that does not begin before base. */
    method InsertIndex(base: nat) returns (i: nat)
      ensures i <= |entries|
      ensures forall j :: 0 <= j < i ==> entries[j].base < base
      ensures i < |entries| ==> base <= entries[i].base
    {
      i := 0;
      while i < |entries| && entries[i].base < base
        invariant i <= |entries|
        invariant forall j :: 0 <= j < i ==> entries[j].base < base
      {
        i := i + 1;
      }
    }

    /** Whether an interval is free; if not, some entry overlaps it. */
    method FindOverlap(base: nat, size: nat) returns (conflict: bool)
      requires Valid() && base + size <= ROOM
      ensures conflict <==> size > 0 && !Free(entries, base, size)
    {
      if size == 0 {
        return false;
      }
      for i := 0 to |entries|
        invariant forall j :: 0 <= j < i ==> Apart(base, size, entries[j])
      {
        if base < Add(entries[i].base, entries[i].size) && entries[i].base < Add(base, size) {
          assert !Apart(base, size, entries[i]);
          return true;
        }
      }
      return false;
    }

    method Insert(base: nat, size: nat) returns (ok: bool)
      requires Valid() && 0 < size && base + size <= ROOM && Free(entries, base, size)
      modifies this`entries
      ensures Valid() && (ok <==> |old(entries)| < MAX_ENTRIES)
      ensures !ok ==> entries == old(entries)
      ensures ok ==> Entry(base, size) in entries && forall e :: e in old(entries) ==> e in entries
      ensures forall e :: e in entries ==> e in old(entries) || e == Entry(base, size)
    {
      var k := InsertIndex(base);
      if |entries| >= MAX_ENTRIES {
        return false;
      }
      assert forall i :: k <= i < |entries| ==> base <= entries[i].base;
      SortedInserted(entries, k, Entry(base, size));
      entries := entries[..k] + [Entry(base, size)] + entries[k..];
      assert entries[k] == Entry(base, size);
      return true;
    }

    /** Reserve a fixed interval: refused exactly if it overlaps one already claimed, or the table is full. */
    method Claim(base: nat, size: nat) returns (ok: bool)
      requires Valid() && base + size <= ROOM
      modifies this`entries
      ensures Valid()
      ensures ok <==> size == 0 || (Free(old(entries), base, size) && |old(entries)| < MAX_ENTRIES)
      ensures !ok || size == 0 ==> entries == old(entries)
      ensures ok && size > 0 ==> Entry(base, size) in entries && Free(old(entries), base, size)
      ensures forall e :: e in old(entries) ==> e in entries
      ensures forall e :: e in entries ==> e in old(entries) || e == Entry(base, size)
    {
      if size == 0 {
        return true;
      }
      var conflict := FindOverlap(base, size);
      if conflict {
        return false;
      }
      ok := Insert(base, size);
    }

    /**
     Place size bytes in the window: at the lowest aligned free address there is.
     Refused exactly if there is none, or the table is full.
     */
    method Alloc(size: nat, align0: nat, high: bool) returns (ok: bool, base: nat)
      requires Valid() && size <= ROOM && align0 <= ROOM
      requires size > 0 ==> PowerOfTwo(if align0 == 0 then size else align0)
      modifies this`entries
      ensures Valid()
      ensures size == 0 ==> ok && base == 0 && entries == old(entries)
      ensures size > 0 ==>
                var align := if align0 == 0 then size else align0;
                var lo := if high then highBase else windowBase;
                var hi := lo + if high then highSize else windowSize;
                && (ok ==> Fits(old(entries), lo, hi, size, align, base))
                && (ok ==> forall a: nat :: Fits(old(entries), lo, hi, size, align, a) ==> base <= a)
                && (!ok ==> |old(entries)| == MAX_ENTRIES
                            || forall a: nat :: !Fits(old(entries), lo, hi, size, align, a))
                && (ok ==> Entry(base, size) in entries)
      ensures !ok ==> entries == old(entries)
      ensures forall e :: e in old(entries) ==> e in entries
      ensures forall e :: e in entries ==> e in old(entries) || (ok && e == Entry(base, size))
    {
      hide Fits, Free, Sorted, PowerOfTwo;
      base := 0;
      if size == 0 {
        return true, 0;
      }
      var lo := if high then highBase else windowBase;
      var windowSize := if high then highSize else windowSize;
      var align := if align0 == 0 then size else align0;
      var found, candidate := FindGap(lo, lo + windowSize, size, align);
      if !found {
        return false, 0;
      }
      ok := Insert(candidate, size);
      if ok {
        base := candidate;
      }
    }

    /** The walk over the gaps between claimed intervals. */
    method FindGap(lo: nat, windowEnd: nat, size: nat, align: nat) returns (found: bool, candidate: nat)
      requires Valid() && lo <= windowEnd <= ROOM && 0 < size <= ROOM && 0 < align <= ROOM
      ensures found ==> Fits(entries, lo, windowEnd, size, align, candidate) && Free(entries, candidate, size)
      ensures found ==> candidate + size <= windowEnd
      ensures found ==> forall a: nat :: Fits(entries, lo, windowEnd, size, align, a) ==> candidate <= a
      ensures !found ==> forall a: nat :: !Fits(entries, lo, windowEnd, size, align, a)
    {
      hide AlignUp, Fits, Free, Aligned, Add;
      AlignedUp(lo, align);
      candidate := AlignUp(lo, align);
      NothingBefore(entries, lo, windowEnd, size, align, candidate);
      for i := 0 to |entries| + 1
        invariant Aligned(candidate, align) && lo <= candidate <= 2 * ROOM
        invariant forall j :: 0 <= j < i && j < |entries| ==> entries[j].End() <= candidate
        invariant forall a: nat :: Fits(entries, lo, windowEnd, size, align, a) ==> candidate <= a
        invariant i == |entries| + 1 ==> candidate + size > windowEnd
      {
        var gapEnd := if i < |entries| then entries[i].base else windowEnd;
        if gapEnd > windowEnd {
          gapEnd := windowEnd;
        }
        AddSmall(candidate, size);
        if Add(candidate, size) <= gapEnd {
          GapFits(entries, i, lo, windowEnd, size, align, candidate);
          return true, candidate;
        }
        if i < |entries| {
          AddSmall(entries[i].base, entries[i].size);
          var next := Add(entries[i].base, entries[i].size);
          if next > candidate {
            AlignedUp(next, align);
            GapTooSmall(entries, i, lo, windowEnd, size, align, candidate, AlignUp(next, align));
            candidate := AlignUp(next, align);
          }
        }
      }
      NoRoom(entries, lo, windowEnd, size, align, candidate);
      found := false;
    }
  }

  lemma AddSmall(a: nat, b: nat)
    requires a + b <= 4 * ROOM
    ensures Add(a, b) == a + b
  {
  }

  lemma NothingBefore(es: seq<Entry>, lo: nat, hi: nat, size: nat, align: nat, c: nat)
    requires align > 0 && forall y: nat :: lo <= y && Aligned(y, align) ==> c <= y
    ensures forall a: nat :: Fits(es, lo, hi, size, align, a) ==> c <= a
  {
  }

  /** A gap before entry i that is large enough is free. */
  lemma GapFits(es: seq<Entry>, i: nat, lo: nat, hi: nat, size: nat, align: nat, c: nat)
    requires Sorted(es) && i <= |es| && align > 0 && Aligned(c, align) && lo <= c && c + size <= hi
    requires forall j :: 0 <= j < i ==> es[j].End() <= c
    requires i < |es| ==> c + size <= es[i].base
    ensures Fits(es, lo, hi, size, align, c) && Free(es, c, size)
  {
    forall j | 0 <= j < |es| ensures Apart(c, size, es[j]) {
      assert i < j ==> es[i].End() <= es[j].base;
    }
  }

  /** If the gap before entry i is too small for the candidate, nothing fits before the entry's end. */
  lemma GapTooSmall(es: seq<Entry>, i: nat, lo: nat, hi: nat, size: nat, align: nat, c: nat, next: nat)
    requires i < |es| && align > 0 && (c + size > es[i].base || c + size > hi)
    requires forall a: nat :: Fits(es, lo, hi, size, align, a) ==> c <= a
    requires forall y: nat :: es[i].End() <= y && Aligned(y, align) ==> next <= y
    ensures forall a: nat :: Fits(es, lo, hi, size, align, a) ==> next <= a
  {
    forall a: nat | Fits(es, lo, hi, size, align, a) ensures next <= a {
      assert Apart(a, size, es[i]);
    }
  }

  lemma NoRoom(es: seq<Entry>, lo: nat, hi: nat, size: nat, align: nat, c: nat)
    requires align > 0 && c + size > hi
    requires forall a: nat :: Fits(es, lo, hi, size, align, a) ==> c <= a
    ensures forall a: nat :: !Fits(es, lo, hi, size, align, a)
  {
  }
}
