/**
 The flattened devicetree format, as section 5 of the Devicetree Specification
 (v0.4) defines it: a decoder, written from the specification, for the blob
 that FdtBuilder writes.
 */
module FlatTree {
  import opened Common

  /** One step of the structure block. */
  datatype Event = Begin(name: seq<Byte>) | Prop(prop: seq<Byte>, data: seq<Byte>) | End

  datatype Reservation = Reservation(address: nat, size: nat)

  datatype Contents = Contents(events: seq<Event>, reservations: seq<Reservation>)

  const FDT_BEGIN_NODE := 1
  const FDT_END_NODE := 2
  const FDT_PROP := 3
  const FDT_NOP := 4
  const FDT_END := 9
  const FDT_MAGIC := 0xd00dfeed
  const FDT_VERSION := 17
  const FDT_LAST_COMPATIBLE := 16
  const HEADER_SIZE := 40
  const WORD := 0x1_0000_0000

  // ----- big-endian words -----

  function Be32(v: nat): (s: seq<Byte>)
    requires v < WORD
    ensures |s| == 4
  {
    [v / 0x1000000, v / 0x10000 % 256, v / 0x100 % 256, v % 256]
  }

  function Be64(v: nat): (s: seq<Byte>)
    requires v < WORD * WORD
    ensures |s| == 8
  {
    Be32(v / WORD) + Be32(v % WORD)
  }

  function Word(s: seq<Byte>, at: nat): nat
    requires at + 4 <= |s|
  {
    var a: nat, b: nat, c: nat, d: nat := s[at], s[at + 1], s[at + 2], s[at + 3];
    a * 0x1000000 + b * 0x10000 + c * 0x100 + d
  }

  function DoubleWord(s: seq<Byte>, at: nat): nat
    requires at + 8 <= |s|
  {
    Word(s, at) * WORD + Word(s, at + 4)
  }

  lemma WordOfBe32(a: seq<Byte>, v: nat, b: seq<Byte>)
    requires v < WORD
    ensures |a + Be32(v) + b| == |a| + 4 + |b| && Word(a + Be32(v) + b, |a|) == v
  {
    var s := a + Be32(v) + b;
    assert s[|a|] == Be32(v)[0] && s[|a| + 1] == Be32(v)[1] && s[|a| + 2] == Be32(v)[2] && s[|a| + 3] == Be32(v)[3];
    BytesOfWord(v);
  }

  lemma BytesOfWord(v: nat)
    requires v < WORD
    ensures v / 0x1000000 * 0x1000000 + v / 0x10000 % 256 * 0x10000 + v / 0x100 % 256 * 0x100 + v % 256 == v
  {
    var a := v / 256;
    var b := a / 256;
    assert v / 0x100 == a && v / 0x10000 == b && v / 0x1000000 == b / 256;
  }

  // ----- strings -----

  /** Where the string from position at on ends. */
  function NulAt(s: seq<Byte>, at: nat): (k: nat)
    requires at <= |s|
    ensures at <= k <= |s| && (k < |s| ==> s[k] == 0) && forall i :: at <= i < k ==> s[i] != 0
    decreases |s| - at
  {
    if at == |s| || s[at] == 0 then at else NulAt(s, at + 1)
  }

  /** The string at an offset of the strings block. */
  function StringAt(table: seq<Byte>, off: nat): Option<seq<Byte>> {
    if off < |table| && NulAt(table, off) < |table| then Some(table[off..NulAt(table, off)]) else None
  }

  /** Offsets stay valid as the table grows. */
  lemma StringStays(table: seq<Byte>, more: seq<Byte>, off: nat)
    requires StringAt(table, off).Some?
    ensures StringAt(table + more, off) == StringAt(table, off)
  {
    var k := NulAt(table, off);
    NulUnique(table + more, off, k);
    assert (table + more)[off..k] == table[off..k];
  }

  lemma NulUnique(s: seq<Byte>, at: nat, k: nat)
    requires at <= k < |s| && s[k] == 0 && forall i :: at <= i < k ==> s[i] != 0
    ensures NulAt(s, at) == k
  {
  }

  // ----- the structure block -----

  /** Lengths are rounded up to whole words. */
  function Padded(n: nat): (r: nat)
    ensures r % 4 == 0 && n <= r < n + 4
  {
    (n + 3) / 4 * 4
  }

  /** The steps of a structure block, up to its end token. */
  function ReadSteps(s: seq<Byte>, table: seq<Byte>): Option<seq<Event>>
    decreases |s|
  {
    if |s| < 4 then None
    else
      var token := Word(s, 0);
      if token == FDT_END then Some([])
      else if token == FDT_NOP then ReadSteps(s[4..], table)
      else if token == FDT_END_NODE then Cons(End, ReadSteps(s[4..], table))
      else if token == FDT_BEGIN_NODE then
        var k := NulAt(s, 4);
        var next := 4 + Padded(k - 4 + 1);
        if k == |s| || next > |s| then None
        else Cons(Begin(s[4..k]), ReadSteps(s[next..], table))
      else if token == FDT_PROP && |s| >= 12 then
        var len := Word(s, 4);
        var name := StringAt(table, Word(s, 8));
        var next := 12 + Padded(len);
        if name.None? || next > |s| then None
        else Cons(Prop(name.value, s[12..12 + len]), ReadSteps(s[next..], table))
      else None
  }

  function Cons(e: Event, rest: Option<seq<Event>>): Option<seq<Event>> {
    if rest.Some? then Some([e] + rest.value) else None
  }

  /** The reservation block: entries up to one of all zeros. */
  function ReadReservations(s: seq<Byte>): Option<seq<Reservation>> {
    if |s| < 16 then None
    else
      var r := Reservation(DoubleWord(s, 0), DoubleWord(s, 8));
      if r == Reservation(0, 0) then Some([])
      else
        var rest := ReadReservations(s[16..]);
        if rest.Some? then Some([r] + rest.value) else None
  }

  /** The header's words, but for the boot processor. */
  datatype Header = Header(magic: nat, total: nat, struct: nat, strings: nat, rsv: nat, version: nat,
                           lastCompatible: nat, stringsSize: nat, structSize: nat)

  function ReadHeader(b: seq<Byte>): Header
    requires |b| >= HEADER_SIZE
  {
    Header(Word(b, 0), Word(b, 4), Word(b, 8), Word(b, 12), Word(b, 16), Word(b, 20), Word(b, 24), Word(b, 32),
           Word(b, 36))
  }

  /** The blocks lie inside the blob, aligned as the specification asks. */
  predicate LaidOut(h: Header, size: nat) {
    && h.magic == FDT_MAGIC && h.version >= FDT_LAST_COMPATIBLE && h.lastCompatible <= FDT_VERSION
    && h.total <= size && h.struct + h.structSize <= h.total && h.strings + h.stringsSize <= h.total && h.rsv <= h.total
    && h.rsv % 8 == 0 && h.struct % 4 == 0
  }

  function DecodeBlocks(b: seq<Byte>, h: Header): Option<Contents>
    requires LaidOut(h, |b|)
  {
    var events := ReadSteps(b[h.struct..h.struct + h.structSize], b[h.strings..h.strings + h.stringsSize]);
    var reservations := ReadReservations(b[h.rsv..h.total]);
    if events.Some? && reservations.Some? then Some(Contents(events.value, reservations.value)) else None
  }

  /** A whole blob. */
  function Decode(b: seq<Byte>): Option<Contents> {
    if |b| < HEADER_SIZE || !LaidOut(ReadHeader(b), |b|) then None else DecodeBlocks(b, ReadHeader(b))
  }
}
