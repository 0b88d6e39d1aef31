/**
 One device access of one to eight bytes, fitted to the widths a device takes:
 passed on, split into halves, or taken from or merged into a wider register.
 For a device that is plain storage the result is the little-endian value of
 the bytes addressed, and a write changes those bytes only.
 */
module DeviceAccess {
  import opened Common
  import opened Powers

  // ----- bit fields -----

  function GetBits(v: nat, pos: nat, len: nat): nat { Low(Shr(v, pos), len) }

  /** high placed above the low len bits of low. */
  function ConcatBits(high: nat, low: nat, len: nat): nat { Shl(high, len) + Low(low, len) }

  /** v with its len bits from pos on replaced by field. */
  function SetBits(v: nat, pos: nat, len: nat, field: nat): nat {
    Shl(Shl(Shr(v, pos + len), len) + Low(field, len), pos) + Low(v, pos)
  }

  function ByteAt(v: nat, i: nat): nat { GetBits(v, 8 * i, 8) }

  lemma {:induction false} ShrShr(v: nat, a: nat, b: nat)
    ensures Shr(Shr(v, a), b) == Shr(v, a + b)
    decreases a
  {
    if a != 0 { ShrShr(v / 2, a - 1, b); }
  }

  lemma {:induction false} LowLow(v: nat, a: nat, b: nat)
    requires a <= b
    ensures Low(Low(v, b), a) == Low(v, a)
    decreases a
  {
    if a != 0 {
      LowLow(v / 2, a - 1, b - 1);
      assert Low(v, b) / 2 == Low(v / 2, b - 1) && Low(v, b) % 2 == v % 2;
    }
  }

  lemma {:induction false} ShrOfLow(v: nat, a: nat, b: nat)
    ensures Shr(Low(v, a + b), a) == Low(Shr(v, a), b)
    decreases a
  {
    if a != 0 {
      ShrOfLow(v / 2, a - 1, b);
      assert Low(v, a + b) / 2 == Low(v / 2, a + b - 1);
    }
  }

  /** A field of a field. */
  lemma GetGet(v: nat, p: nat, n: nat, q: nat, m: nat)
    requires q + m <= n
    ensures GetBits(GetBits(v, p, n), q, m) == GetBits(v, p + q, m)
  {
    hide Shr, Low;
    ShrOfLow(Shr(v, p), q, n - q);
    LowLow(Shr(Shr(v, p), q), m, n - q);
    ShrShr(v, p, q);
  }

  /** Fields of a number made of two parts. */
  lemma GetOfParts(h: nat, l: nat, n: nat, q: nat, m: nat)
    requires l < Pow2(n)
    ensures q + m <= n ==> GetBits(Shl(h, n) + l, q, m) == GetBits(l, q, m)
    ensures GetBits(Shl(h, n) + l, n + q, m) == GetBits(h, q, m)
  {
    hide Shr, Low, Shl, Pow2;
    var x := Shl(h, n) + l;
    SplitUnique(x, n, h, l);
    ShrShr(x, n, q);
    if q + m <= n {
      WholeIsLow(x, n);
      GetGet(x, 0, n, q, m);
    }
  }

  lemma WholeIsLow(x: nat, n: nat)
    ensures GetBits(x, 0, n) == Low(x, n)
  {
  }

  lemma GetOfSet(v: nat, pos: nat, len: nat, f: nat, q: nat, m: nat)
    ensures q + m <= pos ==> GetBits(SetBits(v, pos, len, f), q, m) == GetBits(v, q, m)
    ensures q + m <= len ==> GetBits(SetBits(v, pos, len, f), pos + q, m) == GetBits(f, q, m)
    ensures GetBits(SetBits(v, pos, len, f), pos + len + q, m) == GetBits(v, pos + len + q, m)
  {
    hide Shr, Low, Shl, Pow2, GetBits;
    var y := Shl(Shr(v, pos + len), len) + Low(f, len);
    GetOfParts(y, Low(v, pos), pos, q, m);
    GetOfParts(y, Low(v, pos), pos, len + q, m);
    GetOfParts(Shr(v, pos + len), Low(f, len), len, q, m);
    WholeIsLow(v, pos);
    WholeIsLow(f, len);
    if q + m <= pos { GetGet(v, 0, pos, q, m); }
    if q + m <= len { GetGet(f, 0, len, q, m); }
    GetOfShr(v, pos + len, q, m);
  }

  lemma GetOfShr(v: nat, a: nat, q: nat, m: nat)
    ensures GetBits(Shr(v, a), q, m) == GetBits(v, a + q, m)
  {
    hide Shr, Low;
    ShrShr(v, a, q);
  }

  /** A number is determined by its bytes. */
  lemma {:induction false} SameBytes(v: nat, w: nat, n: nat)
    requires v < Pow2(8 * n) && w < Pow2(8 * n)
    requires forall i :: 0 <= i < n ==> ByteAt(v, i) == ByteAt(w, i)
    ensures v == w
  {
    hide Shr, Low, Shl;
    if n > 0 {
      ShrLow(v, 8);
      ShrLow(w, 8);
      WholeIsLow(v, 8);
      WholeIsLow(w, 8);
      assert ByteAt(v, 0) == ByteAt(w, 0);
      ShrBound(v, 8, 8 * (n - 1));
      ShrBound(w, 8, 8 * (n - 1));
      forall i | 0 <= i < n - 1 ensures ByteAt(Shr(v, 8), i) == ByteAt(Shr(w, 8), i) {
        GetOfShr(v, 8, 8 * i, 8);
        GetOfShr(w, 8, 8 * i, 8);
        assert ByteAt(v, i + 1) == ByteAt(w, i + 1);
      }
      SameBytes(Shr(v, 8), Shr(w, 8), n - 1);
    }
  }

  // ----- widths -----

  /** Bytes of an access, by the logarithm of its size. */
  function Width(sizeLog2: nat): nat { Pow2(sizeLog2) }

  predicate IsAligned(offset: nat, sizeLog2: nat) { Low(offset, sizeLog2) == 0 }

  /** The register of a width that holds offset. */
  function Register(offset: nat, sizeLog2: nat): (r: nat)
    ensures r <= offset
  {
    ShrLow(offset, sizeLog2);
    offset - Low(offset, sizeLog2)
  }

  /** The widths a range takes, and how it takes others. */
  datatype Flags = Flags(takes: seq<bool>, merge: bool, unaligned: bool) {
    predicate Valid() { |takes| == 4 }

    predicate None()
      requires Valid()
    {
      !takes[0] && !takes[1] && !takes[2] && !takes[3]
    }

    /** Some width narrower than this one is taken. */
    predicate Narrower(sizeLog2: nat)
      requires Valid() && sizeLog2 <= 3
    {
      || (sizeLog2 > 0 && takes[0])
      || (sizeLog2 > 1 && takes[1])
      || (sizeLog2 > 2 && takes[2])
    }

    predicate PassesOn(offset: nat, sizeLog2: nat)
      requires Valid() && sizeLog2 <= 3
    {
      takes[sizeLog2] && (unaligned || IsAligned(offset, sizeLog2))
    }

    predicate Splits(offset: nat, sizeLog2: nat)
      requires Valid() && sizeLog2 <= 3
    {
      Narrower(sizeLog2) || !IsAligned(offset, sizeLog2)
    }

    /** The narrowest width taken. */
    function Narrowest(): (w: nat)
      requires Valid() && !None()
      ensures w <= 3 && takes[w] && forall k :: 0 <= k < w ==> !takes[k]
    {
      if takes[0] then 0 else if takes[1] then 1 else if takes[2] then 2 else 3
    }
  }

  datatype Access = Access(offset: nat, sizeLog2: nat)

  /** The device was only asked what it takes: registered widths, at aligned offsets unless it allows others. */
  ghost predicate Proper(f: Flags, log: seq<Access>) {
    f.Valid() && forall i :: 0 <= i < |log| ==> Taken(f, log[i])
  }

  ghost predicate Taken(f: Flags, a: Access)
    requires f.Valid()
  {
    a.sizeLog2 <= 3 && f.takes[a.sizeLog2] && (f.unaligned || a.offset % Width(a.sizeLog2) == 0)
  }

  /** What is passed on is taken. */
  lemma PassedIsTaken(f: Flags, offset: nat, sizeLog2: nat)
    requires f.Valid() && sizeLog2 <= 3
    ensures f.PassesOn(offset, sizeLog2) <==> Taken(f, Access(offset, sizeLog2))
  {
    AlignedIs(offset, sizeLog2);
  }

  lemma AlignedIs(offset: nat, k: nat)
    requires k <= 3
    ensures IsAligned(offset, k) <==> offset % Width(k) == 0
  {
    assert Pow2(1) == 2 && Pow2(2) == 4 && Pow2(3) == 8;
    assert k == 1 ==> Low(offset, k) == offset % 2;
    assert k == 2 ==> Low(offset, k) == 2 * (offset / 2 % 2) + offset % 2;
    assert k == 3 ==> Low(offset, k) == 2 * Low(offset / 2, 2) + offset % 2;
    assert Low(offset / 2, 2) == 2 * (offset / 2 / 2 % 2) + offset / 2 % 2;
  }

  /** v's low bytes are the memory's from offset on. */
  ghost predicate Matches(v: nat, mem: seq<Byte>, offset: nat, n: nat)
    requires offset + n <= |mem|
  {
    forall i :: 0 <= i < n ==> ByteAt(v, i) == mem[offset + i]
  }

  /** A device that is plain byte storage; what it returns above the width asked for is arbitrary. */
  class Storage {
    const mem: array<Byte>
    ghost var log: seq<Access>

    constructor (size: nat)
      ensures fresh(mem) && mem.Length == size && log == [] && forall i :: 0 <= i < size ==> mem[i] == 0
    {
      mem := new Byte[size](_ => 0);
      log := [];
    }

    method Read(offset: nat, sizeLog2: nat) returns (v: nat)
      requires sizeLog2 <= 3 && offset + Width(sizeLog2) <= mem.Length
      modifies this`log
      ensures Matches(v, mem[..], offset, Width(sizeLog2))
      ensures log == old(log) + [Access(offset, sizeLog2)]
    {
      hide GetBits, Shl, Low, Shr;
      var above: nat := *;
      v := above;
      var i := Width(sizeLog2);
      while i > 0
        invariant 0 <= i <= Width(sizeLog2)
        invariant Matches(v, mem[..], offset + i, Width(sizeLog2) - i)
      {
        i := i - 1;
        ghost var w := v;
        v := ConcatBits(v, mem[offset + i], 8);
        forall j | 0 <= j < Width(sizeLog2) - i ensures ByteAt(v, j) == mem[offset + i + j] {
          LowByteIn(w, mem[offset + i], j);
        }
      }
      log := log + [Access(offset, sizeLog2)];
    }

    method Write(offset: nat, v: nat, sizeLog2: nat)
      requires sizeLog2 <= 3 && offset + Width(sizeLog2) <= mem.Length
      requires v < Pow2(8 * Width(sizeLog2))
      modifies this`log, mem
      ensures forall i :: 0 <= i < mem.Length ==>
                mem[i] == if offset <= i < offset + Width(sizeLog2) then ByteAt(v, i - offset) else old(mem[i])
      ensures log == old(log) + [Access(offset, sizeLog2)]
    {
      hide GetBits;
      ByteBound(v);
      forall i | 0 <= i < Width(sizeLog2) {
        mem[offset + i] := ByteAt(v, i);
      }
      log := log + [Access(offset, sizeLog2)];
    }
  }

  lemma ByteBound(v: nat)
    ensures forall i: nat :: ByteAt(v, i) < 256
  {
    assert Pow2(8) == 256;
  }

  /** Bytes of a number with one byte put below. */
  lemma LowByteIn(w: nat, b: Byte, j: nat)
    ensures ByteAt(ConcatBits(w, b, 8), j) == if j == 0 then b else ByteAt(w, j - 1)
  {
    hide GetBits, Shl, Low, Shr;
    assert b < Pow2(8);
    LowSmall(b, 8);
    if j == 0 {
      GetOfParts(w, b, 8, 0, 8);
      WholeIsLow(b, 8);
    } else {
      GetOfParts(w, b, 8, 8 * (j - 1), 8);
    }
  }

  /** The low half and the high half make up the whole. */
  lemma HalvesMatch(low: nat, high: nat, mem: seq<Byte>, offset: nat, n: nat)
    requires offset + 2 * n <= |mem| && low < Pow2(8 * n) && high < Pow2(8 * n)
    requires Matches(low, mem, offset, n) && Matches(high, mem, offset + n, n)
    ensures Matches(ConcatBits(high, low, 8 * n), mem, offset, 2 * n)
    ensures ConcatBits(high, low, 8 * n) < Pow2(8 * (2 * n))
  {
    hide GetBits, Shl, Low, Shr, Pow2;
    var v := ConcatBits(high, low, 8 * n);
    LowSmall(low, 8 * n);
    forall i | 0 <= i < 2 * n ensures ByteAt(v, i) == mem[offset + i] {
      if i < n {
        GetOfParts(high, low, 8 * n, 8 * i, 8);
        assert ByteAt(low, i) == mem[offset + i];
      } else {
        GetOfParts(high, low, 8 * n, 8 * (i - n), 8);
        assert ByteAt(high, i - n) == mem[offset + n + (i - n)];
      }
    }
    SplitUnique(v, 8 * n, high, low);
    Pow2Shl(8 * n, 8 * n);
    ShrOrder(v, 8 * n, Pow2(8 * n));
  }

  /** A field of a wider register. */
  lemma PartMatches(v: nat, mem: seq<Byte>, reg: nat, w: nat, offset: nat, n: nat)
    requires reg + w <= |mem| && reg <= offset && offset + n <= reg + w && Matches(v, mem, reg, w)
    ensures Matches(GetBits(v, (offset - reg) * 8, 8 * n), mem, offset, n)
  {
    hide GetBits;
    var x := GetBits(v, (offset - reg) * 8, 8 * n);
    forall i | 0 <= i < n ensures ByteAt(x, i) == mem[offset + i] {
      GetGet(v, (offset - reg) * 8, 8 * n, 8 * i, 8);
      assert ByteAt(v, offset - reg + i) == mem[reg + (offset - reg + i)];
    }
  }

  lemma GetBound(v: nat, pos: nat, len: nat)
    ensures GetBits(v, pos, len) < Pow2(len)
  {
  }

  /** Reading through the widths taken gives the little-endian value of the bytes addressed. */
  method DeviceRead(f: Flags, dev: Storage, offset: nat, sizeLog2: nat) returns (ok: bool, val: nat)
    requires f.Valid() && sizeLog2 <= 3 && offset + Width(sizeLog2) <= dev.mem.Length
    requires !f.None() ==> IsAligned(dev.mem.Length, f.Narrowest())
    requires Proper(f, dev.log)
    modifies dev`log
    ensures (ok <==> !f.None()) && (!ok ==> val == 0)
    ensures ok ==> val < Pow2(8 * Width(sizeLog2)) && Matches(val, dev.mem[..], offset, Width(sizeLog2))
    ensures Proper(f, dev.log)
    decreases sizeLog2
  {
    hide GetBits, Shl, Low, Shr, Pow2, Matches;
    val := 0;
    if f.None() {
      return false, 0;
    }
    var n := Width(sizeLog2);
    PassedIsTaken(f, offset, sizeLog2);
    PassedIsTaken(f, Register(offset, f.Narrowest()), f.Narrowest());
    if f.PassesOn(offset, sizeLog2) {
      var v := dev.Read(offset, sizeLog2);
      PartMatches(v, dev.mem[..], offset, n, offset, n);
      GetBound(v, 0, 8 * n);
      val := GetBits(v, 0, 8 * n);
    } else if f.Splits(offset, sizeLog2) {
      SplitsInHalf(f, offset, sizeLog2);
      var half := n / 2;
      var okLow, low := DeviceRead(f, dev, offset, sizeLog2 - 1);
      var okHigh, high := DeviceRead(f, dev, offset + half, sizeLog2 - 1);
      HalvesMatch(low, high, dev.mem[..], offset, half);
      val := ConcatBits(high, low, 8 * half);
    } else {
      var wide := f.Narrowest();
      var reg := Register(offset, wide);
      RegisterHolds(f, offset, sizeLog2, dev.mem.Length);
      var v := dev.Read(reg, wide);
      PartMatches(v, dev.mem[..], reg, Width(wide), offset, n);
      GetBound(v, (offset - reg) * 8, 8 * n);
      val := GetBits(v, (offset - reg) * 8, 8 * n);
    }
    ok := true;
  }

  lemma SplitsInHalf(f: Flags, offset: nat, sizeLog2: nat)
    requires f.Valid() && sizeLog2 <= 3 && f.Splits(offset, sizeLog2)
    ensures sizeLog2 > 0 && Width(sizeLog2) == 2 * Width(sizeLog2 - 1)
  {
  }

  /** A piece aligned to its own size does not cross a boundary of a larger size. */
  lemma InOneRegister(offset: nat, a: nat, b: nat, size: nat)
    requires a < b <= 3 && IsAligned(offset, a) && IsAligned(size, b) && offset < size
    ensures var reg := Register(offset, b);
            IsAligned(reg, b) && offset + Width(a) <= reg + Width(b) <= size
  {
    hide Shl, Shr, Low, Pow2;
    var reg, l, q := Register(offset, b), Low(offset, b), Shr(offset, b);
    ShrLow(offset, b);
    ShrShl(q, b);
    LowLow(offset, a, b);
    ShrLow(l, a);
    Pow2Shl(b - a, a);
    ShrOrder(l, a, Pow2(b - a));
    ShlSucc(Shr(l, a), a);
    ShlOrder(Pow2(b - a), Shr(l, a) + 1, a);
    ShrLow(size, b);
    ShlSucc(q, b);
    ShlOrder(Shr(size, b), q + 1, b);
    ShrOrder(offset, b, Shr(size, b));
  }

  /** An access narrower than any width taken lies in one register of the narrowest. */
  lemma RegisterHolds(f: Flags, offset: nat, sizeLog2: nat, size: nat)
    requires f.Valid() && !f.None() && sizeLog2 <= 3 && offset + Width(sizeLog2) <= size
    requires IsAligned(size, f.Narrowest())
    requires !f.PassesOn(offset, sizeLog2) && !f.Splits(offset, sizeLog2)
    ensures var wide := f.Narrowest();
            var reg := Register(offset, wide);
            && sizeLog2 < wide && IsAligned(reg, wide)
            && offset + Width(sizeLog2) <= reg + Width(wide) <= size
  {
    hide IsAligned, Pow2;
    InOneRegister(offset, sizeLog2, f.Narrowest(), size);
  }

  /** Whether a write reaches every byte: with merging always, else if no piece is narrower than what is taken. */
  predicate Writable(f: Flags, offset: nat, sizeLog2: nat)
    requires f.Valid() && sizeLog2 <= 3
  {
    !f.None() && (f.merge || (f.Narrowest() <= sizeLog2 && (f.unaligned || IsAligned(offset, f.Narrowest()))))
  }

  /** Written: the bytes from offset on are v's; without all, some may be as before. */
  ghost predicate Stored(before: seq<Byte>, mem: seq<Byte>, offset: nat, n: nat, v: nat, all: bool) {
    && |before| == |mem| && offset + n <= |mem|
    && forall i :: 0 <= i < |mem| ==>
         if offset <= i < offset + n
         then mem[i] == ByteAt(v, i - offset) || (!all && mem[i] == before[i])
         else mem[i] == before[i]
  }

  /** Storing the halves one after the other. */
  lemma HalvesStored(m0: seq<Byte>, m1: seq<Byte>, m2: seq<Byte>, offset: nat, n: nat, v: nat, low: nat, high: nat,
                     okLow: bool, okHigh: bool)
    requires Stored(m0, m1, offset, n, low, okLow) && Stored(m1, m2, offset + n, n, high, okHigh)
    requires low == v && high == Shr(v, 8 * n)
    ensures Stored(m0, m2, offset, 2 * n, v, okLow && okHigh)
  {
    hide GetBits, Shr;
    forall i | 0 <= i < |m2|
      ensures if offset <= i < offset + 2 * n
              then m2[i] == ByteAt(v, i - offset) || (!(okLow && okHigh) && m2[i] == m0[i])
              else m2[i] == m0[i]
    {
      if offset + n <= i < offset + 2 * n {
        GetOfShr(v, 8 * n, 8 * (i - offset - n), 8);
      }
    }
  }

  /** Cutting a value to the width of the access keeps the bytes that count. */
  lemma CutStored(m0: seq<Byte>, m1: seq<Byte>, offset: nat, n: nat, v: nat, all: bool)
    requires Stored(m0, m1, offset, n, GetBits(v, 0, 8 * n), all)
    ensures Stored(m0, m1, offset, n, v, all)
  {
    hide GetBits;
    forall i: nat | i < n ensures ByteAt(GetBits(v, 0, 8 * n), i) == ByteAt(v, i) {
      GetGet(v, 0, 8 * n, 8 * i, 8);
    }
  }

  /** Writing a register back with a field replaced stores the field only. */
  lemma MergeStored(m0: seq<Byte>, m1: seq<Byte>, reg: nat, w: nat, offset: nat, n: nat, u: nat, v: nat)
    requires reg <= offset && offset + n <= reg + w <= |m0| && Matches(u, m0, reg, w)
    requires Stored(m0, m1, reg, w, SetBits(u, (offset - reg) * 8, 8 * n, v), true)
    ensures Stored(m0, m1, offset, n, v, true)
  {
    hide GetBits, SetBits;
    var p := (offset - reg) * 8;
    var x := SetBits(u, p, 8 * n, v);
    forall i | 0 <= i < |m1|
      ensures if offset <= i < offset + n then m1[i] == ByteAt(v, i - offset) else m1[i] == m0[i]
    {
      if reg <= i < reg + w {
        assert ByteAt(u, i - reg) == m0[reg + (i - reg)];
        if i < offset {
          GetOfSet(u, p, 8 * n, v, 8 * (i - reg), 8);
        } else if i < offset + n {
          GetOfSet(u, p, 8 * n, v, 8 * (i - offset), 8);
        } else {
          GetOfSet(u, p, 8 * n, v, 8 * (i - offset - n), 8);
        }
      }
    }
  }

  lemma AlignedNarrower(offset: nat, a: nat, b: nat)
    requires a <= b && IsAligned(offset, b)
    ensures IsAligned(offset, a)
  {
    hide Low;
    LowLow(offset, a, b);
    LowSmall(0, a);
  }

  /** Moving by a whole unit keeps the low bits. */
  lemma LowOfSum(offset: nat, a: nat, b: nat)
    requires a <= b
    ensures Low(offset + Pow2(b), a) == Low(offset, a)
  {
    hide Low, Shr, Shl, Pow2;
    ShrLow(offset, a);
    Pow2Shl(b - a, a);
    ShlAdd(Shr(offset, a), Pow2(b - a), a);
    SplitUnique(offset + Pow2(b), a, Shr(offset, a) + Pow2(b - a), Low(offset, a));
  }

  lemma PassedIsWritable(f: Flags, offset: nat, sizeLog2: nat)
    requires f.Valid() && sizeLog2 <= 3 && f.PassesOn(offset, sizeLog2)
    ensures Writable(f, offset, sizeLog2)
  {
    hide IsAligned;
    if IsAligned(offset, sizeLog2) { AlignedNarrower(offset, f.Narrowest(), sizeLog2); }
  }

  /** A split access is writable exactly if both halves are. */
  lemma SplitIsWritable(f: Flags, offset: nat, sizeLog2: nat)
    requires f.Valid() && sizeLog2 <= 3 && !f.None() && !f.PassesOn(offset, sizeLog2) && f.Splits(offset, sizeLog2)
    ensures sizeLog2 > 0
    ensures Writable(f, offset, sizeLog2) <==>
            Writable(f, offset, sizeLog2 - 1) && Writable(f, offset + Width(sizeLog2 - 1), sizeLog2 - 1)
  {
    hide Low, Pow2;
    SplitsInHalf(f, offset, sizeLog2);
    var w := f.Narrowest();
    if w < sizeLog2 {
      LowOfSum(offset, w, sizeLog2 - 1);
    }
  }

  /** Writing through the widths taken changes the bytes addressed and no others. */
  method DeviceWrite(f: Flags, dev: Storage, offset: nat, val0: nat, sizeLog2: nat) returns (ok: bool)
    requires f.Valid() && sizeLog2 <= 3 && offset + Width(sizeLog2) <= dev.mem.Length
    requires !f.None() ==> IsAligned(dev.mem.Length, f.Narrowest())
    requires Proper(f, dev.log)
    modifies dev`log, dev.mem
    ensures ok <==> Writable(f, offset, sizeLog2)
    ensures Stored(old(dev.mem[..]), dev.mem[..], offset, Width(sizeLog2), val0, ok)
    ensures Proper(f, dev.log)
    decreases sizeLog2
  {
    hide GetBits, Shl, Low, Shr, Pow2, SetBits;
    ghost var m0 := dev.mem[..];
    if f.None() {
      return false;
    }
    var n := Width(sizeLog2);
    var val := GetBits(val0, 0, 8 * n);
    GetBound(val0, 0, 8 * n);
    PassedIsTaken(f, offset, sizeLog2);
    PassedIsTaken(f, Register(offset, f.Narrowest()), f.Narrowest());
    if f.PassesOn(offset, sizeLog2) {
      PassedIsWritable(f, offset, sizeLog2);
      dev.Write(offset, val, sizeLog2);
      CutStored(m0, dev.mem[..], offset, n, val0, true);
      return true;
    }
    if f.Splits(offset, sizeLog2) {
      SplitIsWritable(f, offset, sizeLog2);
      SplitsInHalf(f, offset, sizeLog2);
      var half := n / 2;
      var low := DeviceWrite(f, dev, offset, val, sizeLog2 - 1);
      ghost var m1 := dev.mem[..];
      var high := DeviceWrite(f, dev, offset + half, Shr(val, 8 * half), sizeLog2 - 1);
      HalvesStored(m0, m1, dev.mem[..], offset, half, val, val, Shr(val, 8 * half), low, high);
      CutStored(m0, dev.mem[..], offset, n, val0, low && high);
      return low && high;
    }
    RegisterHolds(f, offset, sizeLog2, dev.mem.Length);
    if !f.merge {
      return false;
    }
    var wide := f.Narrowest();
    var reg := Register(offset, wide);
    var v := dev.Read(reg, wide);
    var x := SetBits(v, (offset - reg) * 8, 8 * n, val);
    GetBound(x, 0, 8 * Width(wide));
    dev.Write(reg, GetBits(x, 0, 8 * Width(wide)), wide);
    CutStored(m0, dev.mem[..], reg, Width(wide), x, true);
    MergeStored(m0, dev.mem[..], reg, Width(wide), offset, n, v, val);
    CutStored(m0, dev.mem[..], offset, n, val0, true);
    ok := true;
  }
}
