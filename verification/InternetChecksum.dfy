/**
 cksum: the Internet checksum of section 2 of RFC 1071, computed on a
 little-endian host in 16-bit words, with unrolled loops, late carries, and a
 byte-swapped sum when the data begin at an odd address.
 */
module InternetChecksum {
  import opened Common

  // ----- the checksum of RFC 1071 -----

  /** One's complement addition of 16-bit words. */
  function OcAdd(a: nat, b: nat): nat { if a + b > 65535 then a + b - 65535 else a + b }

  /** The i-th big-endian word of the data, zero padded. */
  function WordBe(d: seq<Byte>, i: nat): nat
    requires 2 * i < |d|
  {
    var hi: nat := d[2 * i];
    var lo: nat := if 2 * i + 1 < |d| then d[2 * i + 1] else 0;
    256 * hi + lo
  }

  function WordCount(d: seq<Byte>): nat { (|d| + 1) / 2 }

  function OcSum(d: seq<Byte>, k: nat): nat
    requires k <= WordCount(d)
  {
    if k == 0 then 0 else OcAdd(OcSum(d, k - 1), WordBe(d, k - 1))
  }

  /** The checksum, as a big-endian word. */
  function Rfc1071(d: seq<Byte>): int { 65535 - OcSum(d, WordCount(d)) }

  // ----- sums and their reduction -----

  /** The representative of a sum that one's complement addition arrives at. */
  function Fold(n: nat): (r: nat)
    ensures r <= 65535 && (r == 0 <==> n == 0)
  {
    if n == 0 then 0 else (n - 1) % 65535 + 1
  }

  /** Sums that differ by a multiple of 65535 have the same representative, if both are zero or neither. */
  lemma FoldSame(a: nat, b: nat, q: nat)
    requires b == a + 65535 * q && (a == 0 ==> b == 0)
    ensures Fold(a) == Fold(b)
  {
    if a > 0 { ModShift(a - 1, q); }
  }

  lemma {:induction false} ModShift(x: nat, q: nat)
    ensures (x + 65535 * q) % 65535 == x % 65535
  {
    if q > 0 {
      ModShift(x, q - 1);
      assert x + 65535 * q == (x + 65535 * (q - 1)) + 65535;
    }
  }

  lemma FoldQuotient(n: nat) returns (q: nat)
    ensures n == Fold(n) + 65535 * q
  {
    if n == 0 { return 0; }
    q := (n - 1) / 65535;
  }

  lemma FoldSmall(n: nat)
    requires n <= 65535
    ensures Fold(n) == n
  {
  }

  /** REDUCE: the two halves of the sum added with the carry brought round. */
  function Reduce(sum: nat): nat {
    var s := sum / 65536 + sum % 65536;
    if s > 65535 then s - 65535 else s
  }

  lemma ReduceIsFold(sum: nat)
    requires sum < 0x1_0000_0000
    ensures Reduce(sum) == Fold(sum)
  {
    var h, l := sum / 65536, sum % 65536;
    assert sum == h + l + 65535 * h;
    FoldSame(h + l, sum, h);
    if h + l > 65535 {
      FoldSame(h + l - 65535, h + l, 1);
      FoldSmall(h + l - 65535);
    } else {
      FoldSmall(h + l);
    }
  }

  /** Reducing early makes no difference, also under multiplication. */
  lemma FoldEarly(m: nat, a: nat, b: nat)
    requires m > 0
    ensures Fold(m * Fold(a) + b) == Fold(m * a + b)
  {
    var q := FoldQuotient(a);
    assert m * a == m * Fold(a) + 65535 * (m * q);
    if a == 0 {
    } else {
      assert m * Fold(a) > 0;
      FoldSame(m * Fold(a) + b, m * a + b, m * q);
    }
  }

  lemma OcAddFold(a: nat, w: nat)
    requires w <= 65535
    ensures OcAdd(Fold(a), w) == Fold(a + w)
  {
    var q := FoldQuotient(a);
    var s := Fold(a) + w;
    if s > 65535 {
      FoldSmall(s - 65535);
      FoldSame(s - 65535, a + w, q + 1);
    } else {
      FoldSmall(s);
      if s > 0 { FoldSame(s, a + w, q); }
    }
  }

  // ----- the host's sum -----

  /** The little-endian word at an address. */
  function WordLe(d: seq<Byte>, at: nat): (w: nat)
    requires at + 1 < |d|
    ensures w <= 65535
  {
    var lo: nat, hi: nat := d[at], d[at + 1];
    lo + 256 * hi
  }

  /** The sum of k words from an address on. */
  ghost function Sum(d: seq<Byte>, from: nat, k: nat): (s: nat)
    requires from + 2 * k <= |d|
    ensures s <= 65535 * k
  {
    if k == 0 then 0 else Sum(d, from, k - 1) + WordLe(d, from + 2 * (k - 1))
  }

  function FourWords(d: seq<Byte>, p: nat): nat
    requires p + 8 <= |d|
  {
    WordLe(d, p) + WordLe(d, p + 2) + WordLe(d, p + 4) + WordLe(d, p + 6)
  }

  lemma SumFour(d: seq<Byte>, from: nat, k: nat)
    requires from + 2 * (k + 4) <= |d|
    ensures var p := from + 2 * k;
            Sum(d, from, k + 4) == Sum(d, from, k) + FourWords(d, p)
  {
    hide WordLe;
    assert Sum(d, from, k + 1) == Sum(d, from, k) + WordLe(d, from + 2 * k);
    assert Sum(d, from, k + 2) == Sum(d, from, k + 1) + WordLe(d, from + 2 * k + 2);
    assert Sum(d, from, k + 3) == Sum(d, from, k + 2) + WordLe(d, from + 2 * k + 4);
  }

  /** The whole of the data, an odd byte at the end counting as the low half of a word. */
  ghost function Whole(d: seq<Byte>): nat {
    var tail: nat := if |d| % 2 == 1 then d[|d| - 1] else 0;
    Sum(d, 0, |d| / 2) + tail
  }

  /** The bytes that turn from high to low half when the sum is shifted by a byte. */
  ghost function Evens(d: seq<Byte>, k: nat): nat
    requires 2 * k < |d|
  {
    if k == 0 then 0 else
      var b: nat := d[2 * k];
      Evens(d, k - 1) + b
  }

  /** Words taken from an odd address, shifted by a byte, make up the words from the even address before it. */
  lemma {:induction false} ShiftedSum(d: seq<Byte>, k: nat)
    requires 2 * k < |d|
    ensures var first: nat, last: nat := d[0], d[2 * k];
            256 * Sum(d, 1, k) + first == Sum(d, 0, k) + last + 65535 * Evens(d, k)
  {
    if k > 0 {
      ShiftedSum(d, k - 1);
    }
  }

  /** The loops unrolled to sixteen and to four words; fewer than eight bytes are left. */
  method SumUnrolled(d: seq<Byte>, from: nat) returns (sum: nat, pos: nat, ghost k: nat)
    requires from <= |d|
    ensures pos == from + 2 * k <= |d| < pos + 8
    ensures sum == Sum(d, from, k)
  {
    hide Sum, WordLe, FourWords;
    sum, pos, k := 0, from, 0;
    SumNone(d, from);
    var mlen: int := |d| - from;
    mlen := mlen - 32;
    while mlen >= 0
      invariant mlen == |d| - pos - 32 && pos == from + 2 * k <= |d| && sum == Sum(d, from, k)
    {
      SumSixteen(d, from, k);
      sum := sum + FourWords(d, pos) + FourWords(d, pos + 8) + FourWords(d, pos + 16) + FourWords(d, pos + 24);
      pos, k := pos + 32, k + 16;
      mlen := mlen - 32;
    }
    mlen := mlen + 32;
    mlen := mlen - 8;
    while mlen >= 0
      invariant mlen == |d| - pos - 8 && pos == from + 2 * k <= |d| && sum == Sum(d, from, k)
    {
      SumFour(d, from, k);
      sum := sum + FourWords(d, pos);
      pos, k := pos + 8, k + 4;
      mlen := mlen - 8;
    }
  }

  lemma SumSixteen(d: seq<Byte>, from: nat, k: nat)
    requires from + 2 * (k + 16) <= |d|
    ensures var p := from + 2 * k;
            Sum(d, from, k + 16) ==
            Sum(d, from, k) + FourWords(d, p) + FourWords(d, p + 8) + FourWords(d, p + 16) + FourWords(d, p + 24)
  {
    hide Sum, FourWords;
    SumFour(d, from, k);
    SumFour(d, from, k + 4);
    SumFour(d, from, k + 8);
    SumFour(d, from, k + 12);
  }

  lemma SumNone(d: seq<Byte>, from: nat)
    requires from <= |d|
    ensures Sum(d, from, 0) == 0
  {
  }

  /** The words left over, added to a reduced sum; mlen is -1 if a byte remains, else -2. */
  method SumRest(d: seq<Byte>, from: nat, sum0: nat, pos0: nat, ghost k0: nat)
    returns (sum: nat, pos: nat, mlen: int, ghost k: nat)
    requires pos0 == from + 2 * k0 <= |d| < pos0 + 8 && sum0 == Fold(Sum(d, from, k0))
    ensures pos == from + 2 * k <= |d| && mlen == |d| - pos - 2 && -2 <= mlen < 0
    ensures sum <= 5 * 65535 && Fold(sum) == Fold(Sum(d, from, k))
  {
    hide Sum, WordLe, Fold;
    sum, pos, k := sum0, pos0, k0;
    mlen := |d| - pos0;
    mlen := mlen - 2;
    while mlen >= 0
      invariant mlen == |d| - pos - 2 && pos == from + 2 * k <= |d| && k0 <= k
      invariant sum == Fold(Sum(d, from, k0)) + (Sum(d, from, k) - Sum(d, from, k0)) <= 65535 * (1 + k - k0)
    {
      SumOne(d, from, k);
      sum := sum + WordLe(d, pos);
      pos, k := pos + 2, k + 1;
      mlen := mlen - 2;
    }
    SumGrows(d, from, k0, k);
    FoldEarly(1, Sum(d, from, k0), Sum(d, from, k) - Sum(d, from, k0));
  }

  lemma SumOne(d: seq<Byte>, from: nat, k: nat)
    requires from + 2 * (k + 1) <= |d|
    ensures Sum(d, from, k + 1) == Sum(d, from, k) + WordLe(d, from + 2 * k)
  {
  }

  lemma {:induction false} SumGrows(d: seq<Byte>, from: nat, a: nat, b: nat)
    requires a <= b && from + 2 * b <= |d|
    ensures Sum(d, from, a) <= Sum(d, from, b)
  {
    if a < b { SumGrows(d, from, a, b - 1); }
  }

  lemma SumBound(d: seq<Byte>, from: nat, k: nat)
    requires from + 2 * k <= |d| <= 65535
    ensures Sum(d, from, k) <= 0x7FFF_FFFF
  {
  }

  lemma FoldPlus(a: nat, b: nat, c: nat)
    requires Fold(a) == Fold(b)
    ensures Fold(a + c) == Fold(b + c)
  {
    hide Fold;
    FoldEarly(1, a, c);
    FoldEarly(1, b, c);
  }

  lemma {:induction false} EvensBound(d: seq<Byte>, k: nat)
    requires 2 * k < |d|
    ensures var last: nat := d[2 * k];
            Evens(d, k) <= Sum(d, 0, k) + last
  {
    if k > 0 { EvensBound(d, k - 1); }
  }

  /** The last byte, if the words from an odd address leave one. */
  function OddTail(d: seq<Byte>): nat
    requires d != []
  {
    var last: nat := d[|d| - 1];
    if |d| % 2 == 0 then last else 0
  }

  /** The byte-swapped sum, with the first and perhaps the last byte, stands for the whole. */
  lemma SwappedWhole(d: seq<Byte>, sum: nat)
    requires d != [] && sum == Fold(Sum(d, 1, (|d| - 1) / 2))
    ensures var first: nat := d[0];
            Fold(256 * sum + (first + 256 * OddTail(d))) == Fold(Whole(d))
  {
    var k := (|d| - 1) / 2;
    var first: nat, last: nat := d[0], d[2 * k];
    var x := first + 256 * OddTail(d);
    assert 2 * k < |d|;
    ShiftedSum(d, k);
    EvensBound(d, k);
    assert Whole(d) == Sum(d, 0, k) + last + 256 * OddTail(d) by { WholeSplits(d, k); }
    hide Fold, Sum, Evens, Whole;
    FoldEarly(256, Sum(d, 1, k), x);
    FoldSame(Whole(d), 256 * Sum(d, 1, k) + x, Evens(d, k));
  }

  lemma WholeSplits(d: seq<Byte>, k: nat)
    requires d != [] && k == (|d| - 1) / 2 && 2 * k < |d|
    ensures var last: nat := d[2 * k];
            Whole(d) == Sum(d, 0, k) + last + 256 * OddTail(d)
  {
    if |d| % 2 == 0 {
      SumOne(d, 0, k);
    }
  }

  lemma PlainWhole(d: seq<Byte>, sum: nat)
    requires Fold(sum) == Fold(Sum(d, 0, |d| / 2))
    ensures var tail: nat := if |d| % 2 == 1 then d[|d| - 1] else 0;
            Fold(sum + tail) == Fold(Whole(d))
  {
    hide Fold, Sum;
    FoldPlus(sum, Sum(d, 0, |d| / 2), if |d| % 2 == 1 then d[|d| - 1] else 0);
  }

  /**
   The checksum of the first len bytes, at either alignment. The sum never
   leaves the range of a 32-bit int.
   */
  method Cksum(data: seq<Byte>, oddAddress: bool, len: nat) returns (r: nat)
    requires |data| <= 65535
    ensures r == 65535 - Fold(Whole(data[..if len < |data| then len else |data|]))
  {
    hide Sum, Fold, Whole, Reduce;
    var d := data[..if len < |data| then len else |data|];
    var swapped := oddAddress && |d| > 0;
    var from := if swapped then 1 else 0;
    var sum, pos, k := SumUnrolled(d, from);
    var mlen: int := |d| - pos;
    SumBound(d, from, k);
    ReduceIsFold(sum);
    if mlen == 0 && !swapped {
      PlainWhole(d, sum);
      return 65535 - Reduce(sum);
    }
    sum, pos, mlen, k := SumRest(d, from, Reduce(sum), pos, k);
    ReduceIsFold(sum);
    var c0: nat := 0;
    if swapped {
      SwappedWhole(d, Reduce(sum));
      sum := 256 * Reduce(sum);
      c0 := d[0];
      if mlen == -1 {
        var c1: nat := d[pos];
        sum := sum + (c0 + 256 * c1);
        mlen := 0;
      } else {
        mlen := -1;
      }
    } else {
      PlainWhole(d, sum);
      if mlen == -1 {
        c0 := d[pos];
      }
    }
    if mlen == -1 {
      sum := sum + c0;
    }
    assert sum <= 0x7FFF_FFFF;
    ReduceIsFold(sum);
    r := 65535 - Reduce(sum);
  }

  // ----- agreement with RFC 1071 -----

  /** The two bytes of a word exchanged. */
  function Swap(v: nat): nat { v % 256 * 256 + v / 256 }

  ghost function BeSum(d: seq<Byte>, k: nat): nat
    requires k <= WordCount(d)
  {
    if k == 0 then 0 else BeSum(d, k - 1) + WordBe(d, k - 1)
  }

  lemma {:induction false} OcSumIsFold(d: seq<Byte>, k: nat)
    requires k <= WordCount(d)
    ensures OcSum(d, k) == Fold(BeSum(d, k))
  {
    if k > 0 {
      OcSumIsFold(d, k - 1);
      OcAddFold(BeSum(d, k - 1), WordBe(d, k - 1));
    }
  }

  /** The first bytes of the first k words. */
  ghost function Highs(d: seq<Byte>, k: nat): nat
    requires k <= WordCount(d)
  {
    if k == 0 then 0 else
      var b: nat := d[2 * (k - 1)];
      Highs(d, k - 1) + b
  }

  /** Little-endian words sum to a byte-shift of the big-endian ones. */
  lemma {:induction false} LeOfBe(d: seq<Byte>, k: nat)
    requires 2 * k <= |d|
    ensures 256 * BeSum(d, k) == Sum(d, 0, k) + 65535 * Highs(d, k) && Highs(d, k) <= Sum(d, 0, k)
  {
    if k > 0 { LeOfBe(d, k - 1); }
  }

  lemma WholeOfBe(d: seq<Byte>)
    ensures var k := WordCount(d);
            256 * BeSum(d, k) == Whole(d) + 65535 * Highs(d, k) && Highs(d, k) <= Whole(d)
  {
    LeOfBe(d, |d| / 2);
  }

  lemma SwapIsFold(v: nat)
    requires v <= 65535
    ensures Swap(v) == Fold(256 * v) && Swap(v) <= 65535
  {
    assert 256 * v == Swap(v) + 65535 * (v / 256);
    FoldSame(Swap(v), 256 * v, v / 256);
    FoldSmall(Swap(v));
  }

  lemma SwapComplement(v: nat)
    requires v <= 65535
    ensures Swap(v) <= 65535 && Swap(65535 - Swap(v)) == 65535 - v
  {
    var a, b := v / 256, v % 256;
    assert 65535 - Swap(v) == (255 - b) * 256 + (255 - a);
  }

  /** The word returned, in the host's byte order, is the checksum of RFC 1071 in network byte order. */
  lemma AgreesWithRfc1071(d: seq<Byte>)
    ensures Swap(65535 - Fold(Whole(d))) == Rfc1071(d)
  {
    hide Fold, Whole, BeSum, OcSum, Highs, Swap;
    var k := WordCount(d);
    var b := BeSum(d, k);
    WholeOfBe(d);
    FoldSame(Whole(d), 256 * b, Highs(d, k));
    FoldEarly(256, b, 0);
    OcSumIsFold(d, k);
    SwapIsFold(Fold(b));
    SwapComplement(Fold(b));
  }

  /** Data with a word stored at an even place. */
  function WithWord(d: seq<Byte>, f: nat, c: nat): (r: seq<Byte>)
    requires f + 1 < |d| && c <= 65535
    ensures |r| == |d|
  {
    d[f := c % 256][f + 1 := c / 256]
  }

  lemma {:induction false} SumWithWord(d: seq<Byte>, j: nat, c: nat, k: nat)
    requires 2 * j + 1 < |d| && c <= 65535 && d[2 * j] == 0 && d[2 * j + 1] == 0 && 2 * k <= |d|
    ensures Sum(WithWord(d, 2 * j, c), 0, k) == Sum(d, 0, k) + if j < k then c else 0
  {
    if k > 0 { SumWithWord(d, j, c, k - 1); }
  }

  /** Stored in a zeroed field at an even place, the checksum makes the checksum of the whole zero. */
  lemma StoredChecksumVerifies(d: seq<Byte>, j: nat)
    requires 2 * j + 1 < |d| && d[2 * j] == 0 && d[2 * j + 1] == 0
    ensures 65535 - Fold(Whole(WithWord(d, 2 * j, 65535 - Fold(Whole(d))))) == 0
  {
    var c := 65535 - Fold(Whole(d));
    var e := WithWord(d, 2 * j, c);
    SumWithWord(d, j, c, |d| / 2);
    assert Whole(e) == Whole(d) + c;
    hide Fold, Whole;
    var q := FoldQuotient(Whole(d));
    FoldSame(65535, Whole(e), q);
    FoldSmall(65535);
  }
}
