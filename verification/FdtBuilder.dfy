/**
 FDTBuilder: accumulates the structure and string blocks of a flattened
 devicetree and writes the blob. Whatever calls were made, decoding the blob
 gives back those calls, and the reservations.
 */
module FdtBuilder {
  import opened Common
  import opened DeviceTree
  import opened FlatTree

  const MAX_RESERVATIONS := 8
  const INT_MAX := 0x7FFF_FFFF

  /** A C string: no zero byte inside. */
  ghost predicate CString(s: seq<Byte>) {
    forall i :: 0 <= i < |s| ==> s[i] != 0
  }

  function Zeros(n: nat): (s: seq<Byte>)
    ensures |s| == n && forall i :: 0 <= i < n ==> s[i] == 0
  {
    seq(n, i => 0)
  }

  /** The data, zero padded to whole words. */
  function PadData(d: seq<Byte>): (s: seq<Byte>)
    ensures |s| == Padded(|d|) && s[..|d|] == d
  {
    d + Zeros(Padded(|d|) - |d|)
  }

  /** What the builder writes for one call; off is the offset of a property's name. */
  function Encoded(e: Event, off: nat): seq<Byte>
    requires off < WORD && (e.Prop? ==> |e.data| < WORD)
  {
    match e
    case Begin(name) => Be32(FDT_BEGIN_NODE) + PadData(name + [0])
    case End => Be32(FDT_END_NODE)
    case Prop(_, data) => Be32(FDT_PROP) + (Be32(|data|) + (Be32(off) + PadData(data)))
  }

  /** The call can be read back with this strings block. */
  ghost predicate Readable(e: Event, off: nat, table: seq<Byte>) {
    && off < WORD
    && match e
       case Begin(name) => CString(name)
       case End => true
       case Prop(name, data) => |data| < WORD && StringAt(table, off) == Some(name)
  }

  lemma FirstWord(v: nat, b: seq<Byte>)
    requires v < WORD
    ensures |Be32(v) + b| == 4 + |b| && Word(Be32(v) + b, 0) == v && (Be32(v) + b)[4..] == b
  {
    WordOfBe32([], v, b);
    assert [] + Be32(v) + b == Be32(v) + b;
  }

  lemma LaterWord(v: nat, b: seq<Byte>, at: nat)
    requires v < WORD && 4 <= at && at - 4 + 4 <= |b|
    ensures |Be32(v) + b| == 4 + |b| && Word(Be32(v) + b, at) == Word(b, at - 4)
  {
  }

  lemma ReadBegin(name: seq<Byte>, rest: seq<Byte>, table: seq<Byte>)
    requires CString(name)
    ensures ReadSteps(Be32(FDT_BEGIN_NODE) + PadData(name + [0]) + rest, table) ==
            Cons(Begin(name), ReadSteps(rest, table))
  {
    var p := PadData(name + [0]);
    var s := Be32(FDT_BEGIN_NODE) + p + rest;
    assert s == Be32(FDT_BEGIN_NODE) + (p + rest);
    FirstWord(FDT_BEGIN_NODE, p + rest);
    assert p[..|name| + 1] == name + [0];
    forall i | 0 <= i <= |name| ensures s[4 + i] == (name + [0])[i] {
      assert s[4 + i] == p[i] == p[..|name| + 1][i];
    }
    NulUnique(s, 4, 4 + |name|);
    assert s[4..4 + |name|] == name;
    assert s[4 + Padded(|name| + 1)..] == rest;
  }

  lemma ReadEnd(rest: seq<Byte>, table: seq<Byte>)
    ensures ReadSteps(Be32(FDT_END_NODE) + rest, table) == Cons(End, ReadSteps(rest, table))
  {
    FirstWord(FDT_END_NODE, rest);
  }

  lemma ReadProp(name: seq<Byte>, data: seq<Byte>, off: nat, rest: seq<Byte>, table: seq<Byte>)
    requires off < WORD && |data| < WORD && StringAt(table, off) == Some(name)
    ensures ReadSteps(Be32(FDT_PROP) + (Be32(|data|) + (Be32(off) + PadData(data))) + rest, table) ==
            Cons(Prop(name, data), ReadSteps(rest, table))
  {
    hide StringAt, Word, Be32, ReadSteps;
    var p := PadData(data);
    var c := Be32(off) + (p + rest);
    var b := Be32(|data|) + c;
    var s := Be32(FDT_PROP) + b;
    assert Be32(FDT_PROP) + (Be32(|data|) + (Be32(off) + p)) + rest == s;
    FirstWord(FDT_PROP, b);
    FirstWord(|data|, c);
    FirstWord(off, p + rest);
    LaterWord(FDT_PROP, b, 4);
    LaterWord(|data|, c, 4);
    LaterWord(FDT_PROP, b, 8);
    PropSlices(|data|, off, data, rest);
    ReadPropAt(s, table);
  }

  lemma ReadPropAt(s: seq<Byte>, table: seq<Byte>)
    requires |s| >= 12 && Word(s, 0) == FDT_PROP && StringAt(table, Word(s, 8)).Some?
    requires 12 + Padded(Word(s, 4)) <= |s|
    ensures 12 + Word(s, 4) <= |s|
    ensures ReadSteps(s, table) ==
            Cons(Prop(StringAt(table, Word(s, 8)).value, s[12..12 + Word(s, 4)]),
                 ReadSteps(s[12 + Padded(Word(s, 4))..], table))
  {
    hide Word, StringAt;
  }

  lemma PropSlices(len: nat, off: nat, data: seq<Byte>, rest: seq<Byte>)
    requires len == |data| < WORD && off < WORD
    ensures var s := Be32(FDT_PROP) + (Be32(len) + (Be32(off) + (PadData(data) + rest)));
            && |s| == 12 + Padded(len) + |rest|
            && s[12..12 + len] == data
            && s[12 + Padded(len)..] == rest
  {
    hide Be32;
    var p := PadData(data);
    var s := Be32(FDT_PROP) + (Be32(len) + (Be32(off) + (p + rest)));
    assert s[12..] == p + rest;
    assert s[12..12 + len] == (p + rest)[..len] == p[..len];
    assert s[12 + Padded(len)..] == (p + rest)[Padded(len)..] == rest;
  }

  /** One call is read back, and reading goes on behind it. */
  lemma ReadOne(e: Event, off: nat, rest: seq<Byte>, table: seq<Byte>)
    requires Readable(e, off, table)
    ensures ReadSteps(Encoded(e, off) + rest, table) == Cons(e, ReadSteps(rest, table))
  {
    hide ReadSteps;
    match e
    case Begin(name) => ReadBegin(name, rest, table);
    case End => ReadEnd(rest, table);
    case Prop(name, data) => ReadProp(name, data, off, rest, table);
  }

  // ----- the structure block -----

  ghost predicate AllReadable(es: seq<Event>, offs: seq<nat>, table: seq<Byte>) {
    |offs| == |es| && forall i :: 0 <= i < |es| ==> Readable(es[i], offs[i], table)
  }

  /** What the first n calls wrote. */
  ghost function Structure(es: seq<Event>, offs: seq<nat>, table: seq<Byte>, n: nat): seq<Byte>
    requires AllReadable(es, offs, table) && n <= |es|
  {
    if n == 0 then [] else Structure(es, offs, table, n - 1) + Encoded(es[n - 1], offs[n - 1])
  }

  function Prepend(es: seq<Event>, rest: Option<seq<Event>>): Option<seq<Event>> {
    if rest.Some? then Some(es + rest.value) else None
  }

  lemma PrependCons(es: seq<Event>, e: Event, r: Option<seq<Event>>)
    ensures Prepend(es, Cons(e, r)) == Prepend(es + [e], r)
  {
    if r.Some? { assert es + ([e] + r.value) == es + [e] + r.value; }
  }

  lemma BytesAssoc(a: seq<Byte>, b: seq<Byte>, c: seq<Byte>)
    ensures a + b + c == a + (b + c)
  {
  }

  lemma {:induction false} ReadStructure(es: seq<Event>, offs: seq<nat>, table: seq<Byte>, n: nat, rest: seq<Byte>)
    requires AllReadable(es, offs, table) && n <= |es|
    ensures ReadSteps(Structure(es, offs, table, n) + rest, table) == Prepend(es[..n], ReadSteps(rest, table))
  {
    hide ReadSteps, Encoded;
    if n == 0 {
      assert [] + rest == rest;
      if ReadSteps(rest, table).Some? { assert es[..0] + ReadSteps(rest, table).value == ReadSteps(rest, table).value; }
    } else {
      assert Readable(es[n - 1], offs[n - 1], table);
      var e, c := es[n - 1], Encoded(es[n - 1], offs[n - 1]);
      BytesAssoc(Structure(es, offs, table, n - 1), c, rest);
      ReadStructure(es, offs, table, n - 1, c + rest);
      ReadOne(e, offs[n - 1], rest, table);
      PrependCons(es[..n - 1], e, ReadSteps(rest, table));
      assert es[..n - 1] + [e] == es[..n];
    }
  }

  /** A complete structure block is read back whole. */
  lemma ReadComplete(es: seq<Event>, offs: seq<nat>, table: seq<Byte>)
    requires AllReadable(es, offs, table)
    ensures ReadSteps(Structure(es, offs, table, |es|) + Be32(FDT_END), table) == Some(es)
  {
    ReadStructure(es, offs, table, |es|, Be32(FDT_END));
    FirstWord(FDT_END, []);
    assert Be32(FDT_END) + [] == Be32(FDT_END);
    assert es[..|es|] + [] == es;
  }

  /** Calls stay readable, and what they wrote the same, as the strings block grows. */
  lemma {:induction false} StaysReadable(es: seq<Event>, offs: seq<nat>, table: seq<Byte>, more: seq<Byte>, n: nat)
    requires AllReadable(es, offs, table) && n <= |es|
    ensures AllReadable(es, offs, table + more)
    ensures Structure(es, offs, table + more, n) == Structure(es, offs, table, n)
  {
    hide Encoded, StringAt;
    forall i | 0 <= i < |es| ensures Readable(es[i], offs[i], table + more) {
      assert Readable(es[i], offs[i], table);
      if es[i].Prop? { StringStays(table, more, offs[i]); }
    }
    if n > 0 { StaysReadable(es, offs, table, more, n - 1); }
  }

  lemma {:induction false} OneMoreCall(es: seq<Event>, offs: seq<nat>, table: seq<Byte>, e: Event, off: nat, n: nat)
    requires AllReadable(es, offs, table) && Readable(e, off, table) && n <= |es|
    ensures AllReadable(es + [e], offs + [off], table)
    ensures Structure(es + [e], offs + [off], table, n) == Structure(es, offs, table, n)
    ensures n == |es| ==>
              Structure(es + [e], offs + [off], table, n + 1) == Structure(es, offs, table, n) + Encoded(e, off)
  {
    hide Encoded, Readable;
    if n > 0 { OneMoreCall(es, offs, table, e, off, n - 1); }
  }

  // ----- the reservation block -----

  function EncodedReservations(rs: seq<Reservation>): (s: seq<Byte>)
    requires forall i :: 0 <= i < |rs| ==> Sized(rs[i])
    ensures |s| == 16 * |rs|
  {
    if rs == [] then [] else
      assert Sized(rs[0]);
      Be64(rs[0].address) + (Be64(rs[0].size) + EncodedReservations(rs[1..]))
  }

  predicate Sized(r: Reservation) {
    0 < r.size < WORD * WORD && r.address < WORD * WORD
  }

  lemma FirstDoubleWord(v: nat, b: seq<Byte>)
    requires v < WORD * WORD
    ensures |Be64(v) + b| == 8 + |b| && DoubleWord(Be64(v) + b, 0) == v && (Be64(v) + b)[8..] == b
  {
    hide Be32, Word;
    var h, l := v / WORD, v % WORD;
    assert Be64(v) + b == Be32(h) + (Be32(l) + b);
    FirstWord(h, Be32(l) + b);
    FirstWord(l, b);
    LaterWord(h, Be32(l) + b, 4);
  }

  lemma LaterDoubleWord(v: nat, b: seq<Byte>)
    requires v < WORD * WORD && 8 <= |b|
    ensures |Be64(v) + b| == 8 + |b| && DoubleWord(Be64(v) + b, 8) == DoubleWord(b, 0)
  {
    hide Be64;
  }

  lemma {:induction false} ReservationsReadBack(rs: seq<Reservation>, rest: seq<Byte>)
    requires forall i :: 0 <= i < |rs| ==> Sized(rs[i])
    ensures ReadReservations(EncodedReservations(rs) + (Zeros(16) + rest)) == Some(rs)
  {
    hide Be64, DoubleWord, Zeros;
    var t := Zeros(16) + rest;
    if rs == [] {
      assert EncodedReservations(rs) + t == t;
      ZeroEntry(rest);
    } else {
      var r, e := rs[0], EncodedReservations(rs[1..]);
      assert Sized(r) && rs == [r] + rs[1..];
      var b := Be64(r.size) + (e + t);
      assert EncodedReservations(rs) + t == Be64(r.address) + b;
      FirstDoubleWord(r.address, b);
      LaterDoubleWord(r.address, b);
      FirstDoubleWord(r.size, e + t);
      assert (Be64(r.address) + b)[16..] == b[8..];
      ReservationsReadBack(rs[1..], rest);
    }
  }

  lemma ZeroEntry(rest: seq<Byte>)
    ensures DoubleWord(Zeros(16) + rest, 0) == 0 && DoubleWord(Zeros(16) + rest, 8) == 0
  {
  }

  // ----- the header -----

  function Words(ws: seq<nat>): (s: seq<Byte>)
    requires forall i :: 0 <= i < |ws| ==> ws[i] < WORD
    ensures |s| == 4 * |ws|
  {
    if ws == [] then [] else Be32(ws[0]) + Words(ws[1..])
  }

  lemma {:induction false} WordOfWords(ws: seq<nat>, rest: seq<Byte>, i: nat)
    requires (forall j :: 0 <= j < |ws| ==> ws[j] < WORD) && i < |ws|
    ensures |Words(ws) + rest| == 4 * |ws| + |rest| && Word(Words(ws) + rest, 4 * i) == ws[i]
  {
    hide Be32, Word;
    var tail := Words(ws[1..]) + rest;
    assert Words(ws) + rest == Be32(ws[0]) + tail;
    if i == 0 {
      FirstWord(ws[0], tail);
    } else {
      WordOfWords(ws[1..], rest, i - 1);
      LaterWord(ws[0], tail, 4 * i);
    }
  }

  /** The blocks of a blob, one after the other. */
  function Tail(r: seq<Byte>, s: seq<Byte>, t: seq<Byte>, p: seq<Byte>): seq<Byte> { r + (s + (t + p)) }

  function Blob(h: seq<Byte>, r: seq<Byte>, s: seq<Byte>, t: seq<Byte>, p: seq<Byte>): seq<Byte> {
    h + Tail(r, s, t, p)
  }

  lemma TailSlices(r: seq<Byte>, s: seq<Byte>, t: seq<Byte>, p: seq<Byte>)
    ensures var b := Tail(r, s, t, p);
            && |b| == |r| + |s| + |t| + |p|
            && b[|r|..|r| + |s|] == s
            && b[|r| + |s|..|r| + |s| + |t|] == t
  {
    var b := r + (s + (t + p));
    assert b[|r|..] == s + (t + p);
    assert b[|r| + |s|..] == t + p;
  }

  lemma Slices(h: seq<Byte>, r: seq<Byte>, s: seq<Byte>, t: seq<Byte>, p: seq<Byte>)
    ensures var b := Blob(h, r, s, t, p);
            && |b| == |h| + |r| + |s| + |t| + |p|
            && b[|h|..|b|] == Tail(r, s, t, p)
            && b[|h| + |r|..|h| + |r| + |s|] == s
            && b[|h| + |r| + |s|..|h| + |r| + |s| + |t|] == t
  {
    hide Tail;
    TailSlices(r, s, t, p);
    var x := Tail(r, s, t, p);
    var b := h + x;
    assert b[|h| + |r|..|h| + |r| + |s|] == x[|r|..|r| + |s|];
    assert b[|h| + |r| + |s|..|h| + |r| + |s| + |t|] == x[|r| + |s|..|r| + |s| + |t|];
  }

  /** The words the builder writes in a header. */
  function HeaderWords(h: Header): seq<nat> {
    [h.magic, h.total, h.struct, h.strings, h.rsv, h.version, h.lastCompatible, 0, h.stringsSize, h.structSize]
  }

  ghost predicate Fits(h: Header) {
    forall i :: 0 <= i < 10 ==> HeaderWords(h)[i] < WORD
  }

  function HeaderBytes(h: Header): (s: seq<Byte>)
    requires Fits(h)
    ensures |s| == HEADER_SIZE
  {
    Words(HeaderWords(h))
  }

  lemma HeaderReadBack(h: Header, rest: seq<Byte>)
    requires Fits(h)
    ensures ReadHeader(HeaderBytes(h) + rest) == h
  {
    hide Word, Words;
    var ws := HeaderWords(h);
    WordOfWords(ws, rest, 0);
    WordOfWords(ws, rest, 1);
    WordOfWords(ws, rest, 2);
    WordOfWords(ws, rest, 3);
    WordOfWords(ws, rest, 4);
    WordOfWords(ws, rest, 5);
    WordOfWords(ws, rest, 6);
    WordOfWords(ws, rest, 8);
    WordOfWords(ws, rest, 9);
  }

  /** Where the blocks go, given their sizes. */
  ghost predicate Places(h: Header, entries: nat, tab: nat, strings: nat, pad: nat) {
    && h.magic == FDT_MAGIC && h.version == FDT_VERSION && h.lastCompatible == FDT_LAST_COMPATIBLE
    && h.rsv == HEADER_SIZE && h.struct == HEADER_SIZE + 16 * entries + 16 && h.strings == h.struct + tab
    && h.stringsSize == strings && h.structSize == tab && h.total == h.strings + strings + pad
  }

  lemma ReservationBlock(rs: seq<Reservation>, tab: seq<Byte>, strings: seq<Byte>, pad: seq<Byte>)
    requires forall i :: 0 <= i < |rs| ==> Sized(rs[i])
    ensures ReadReservations(Tail(EncodedReservations(rs) + Zeros(16), tab, strings, pad)) == Some(rs)
  {
    hide ReadReservations, EncodedReservations, Zeros;
    var rest := tab + (strings + pad);
    BytesAssoc(EncodedReservations(rs), Zeros(16), rest);
    ReservationsReadBack(rs, rest);
  }

  lemma HeaderOfBlob(h: Header, r: seq<Byte>, s: seq<Byte>, t: seq<Byte>, p: seq<Byte>)
    requires Fits(h)
    ensures |Blob(HeaderBytes(h), r, s, t, p)| >= HEADER_SIZE && ReadHeader(Blob(HeaderBytes(h), r, s, t, p)) == h
  {
    hide HeaderBytes, ReadHeader, Fits;
    HeaderReadBack(h, Tail(r, s, t, p));
  }

  /** The blob is laid out as its header says. */
  lemma BlobDecodes(h: Header, rs: seq<Reservation>, tab: seq<Byte>, strings: seq<Byte>, pad: seq<Byte>, es: seq<Event>)
    requires Fits(h) && Places(h, |rs|, |tab|, |strings|, |pad|)
    requires forall i :: 0 <= i < |rs| ==> Sized(rs[i])
    requires ReadSteps(tab, strings) == Some(es)
    ensures Decode(Blob(HeaderBytes(h), EncodedReservations(rs) + Zeros(16), tab, strings, pad)) ==
            Some(Contents(es, rs))
  {
    hide *;
    ReservationBlock(rs, tab, strings, pad);
    PlacesLaidOut(h, |rs|, |tab|, |strings|, |pad|);
    ReservationLength(rs);
    BlocksDecode(h, EncodedReservations(rs) + Zeros(16), tab, strings, pad, es, rs);
  }

  lemma ReservationLength(rs: seq<Reservation>)
    requires forall i :: 0 <= i < |rs| ==> Sized(rs[i])
    ensures |EncodedReservations(rs) + Zeros(16)| == 16 * |rs| + 16
  {
  }

  lemma BlocksDecode(h: Header, r: seq<Byte>, tab: seq<Byte>, strings: seq<Byte>, pad: seq<Byte>, es: seq<Event>,
                     rs: seq<Reservation>)
    requires Fits(h) && LaidOut(h, h.total) && |r| == 16 * |rs| + 16 && Places(h, |rs|, |tab|, |strings|, |pad|)
    requires ReadSteps(tab, strings) == Some(es) && ReadReservations(Tail(r, tab, strings, pad)) == Some(rs)
    ensures Decode(Blob(HeaderBytes(h), r, tab, strings, pad)) == Some(Contents(es, rs))
  {
    hide ReadSteps, ReadReservations, HeaderBytes, ReadHeader, Fits, LaidOut, Blob, Tail, Decode, DecodeBlocks;
    var w := HeaderBytes(h);
    HeaderOfBlob(h, r, tab, strings, pad);
    Slices(w, r, tab, strings, pad);
    var b := Blob(w, r, tab, strings, pad);
    assert h.total == |b|;
    DecodeFrom(b, h, tab, strings, es, rs);
  }

  lemma DecodeFrom(b: seq<Byte>, h: Header, tab: seq<Byte>, strings: seq<Byte>, es: seq<Event>, rs: seq<Reservation>)
    requires |b| >= HEADER_SIZE && ReadHeader(b) == h && LaidOut(h, |b|)
    requires b[h.struct..h.struct + h.structSize] == tab && b[h.strings..h.strings + h.stringsSize] == strings
    requires ReadSteps(tab, strings) == Some(es) && ReadReservations(b[h.rsv..h.total]) == Some(rs)
    ensures Decode(b) == Some(Contents(es, rs))
  {
    hide ReadSteps, ReadReservations, ReadHeader;
  }

  lemma FourTimes(k: nat)
    ensures 4 * k % 4 == 0
  {
  }

  lemma PlacesLaidOut(h: Header, entries: nat, tab: nat, strings: nat, pad: nat)
    requires Places(h, entries, tab, strings, pad)
    ensures LaidOut(h, h.total)
    ensures h.rsv == HEADER_SIZE && h.struct == HEADER_SIZE + 16 * entries + 16
  {
    FourTimes(14 + 4 * entries);
  }

  // ----- bytes written out -----

  /** The words of the format, most significant byte first. */
  lemma WordBytes()
    ensures Be32(FDT_MAGIC) == [0xd0, 0x0d, 0xfe, 0xed] && Be32(0) == [0, 0, 0, 0]
    ensures Be32(FDT_BEGIN_NODE) == [0, 0, 0, 1] && Be32(FDT_END_NODE) == [0, 0, 0, 2]
    ensures Be32(FDT_PROP) == [0, 0, 0, 3] && Be32(FDT_NOP) == [0, 0, 0, 4] && Be32(FDT_END) == [0, 0, 0, 9]
    ensures Be32(FDT_VERSION) == [0, 0, 0, 17] && Be32(FDT_LAST_COMPATIBLE) == [0, 0, 0, 16]
    ensures Be32(40) == [0, 0, 0, 40] && Be32(56) == [0, 0, 0, 56] && Be32(72) == [0, 0, 0, 72]
  {
  }

  /** The ten words of a header, in the order of the specification. */
  lemma HeaderLayout(h: Header)
    requires Fits(h)
    ensures h.magic < WORD && h.total < WORD && h.struct < WORD && h.strings < WORD && h.rsv < WORD
    ensures h.version < WORD && h.lastCompatible < WORD && h.stringsSize < WORD && h.structSize < WORD
    ensures HeaderBytes(h) ==
            Be32(h.magic) + (Be32(h.total) + (Be32(h.struct) + (Be32(h.strings) + (Be32(h.rsv) + (Be32(h.version) +
            (Be32(h.lastCompatible) + (Be32(0) + (Be32(h.stringsSize) + Be32(h.structSize)))))))))
  {
    hide Be32;
    var ws := HeaderWords(h);
    FitsEach(h);
    OneWordMore(ws, 9);
    OneWordMore(ws, 8);
    OneWordMore(ws, 7);
    OneWordMore(ws, 6);
    OneWordMore(ws, 5);
    OneWordMore(ws, 4);
    OneWordMore(ws, 3);
    OneWordMore(ws, 2);
    OneWordMore(ws, 1);
    OneWordMore(ws, 0);
    assert ws[0..] == ws && Words(ws[10..]) == [];
    assert Be32(h.structSize) + [] == Be32(h.structSize);
  }

  lemma FitsEach(h: Header)
    requires Fits(h)
    ensures h.magic < WORD && h.total < WORD && h.struct < WORD && h.strings < WORD && h.rsv < WORD
    ensures h.version < WORD && h.lastCompatible < WORD && h.stringsSize < WORD && h.structSize < WORD
    ensures forall i :: 0 <= i < |HeaderWords(h)| ==> HeaderWords(h)[i] < WORD
  {
    var ws := HeaderWords(h);
    assert ws[0] < WORD && ws[1] < WORD && ws[2] < WORD && ws[3] < WORD && ws[4] < WORD;
    assert ws[5] < WORD && ws[6] < WORD && ws[8] < WORD && ws[9] < WORD;
  }

  lemma OneWordMore(ws: seq<nat>, i: nat)
    requires (forall j :: 0 <= j < |ws| ==> ws[j] < WORD) && i < |ws|
    ensures Words(ws[i..]) == Be32(ws[i]) + Words(ws[i + 1..])
  {
    hide Be32;
    assert ws[i..][1..] == ws[i + 1..];
  }

  /** What the calls write, byte by byte. */
  lemma CallBytes(d: Byte)
    ensures Encoded(Begin([]), 0) == [0, 0, 0, 1, 0, 0, 0, 0]
    ensures Encoded(Begin([d]), 0) == [0, 0, 0, 1, d, 0, 0, 0]
    ensures Encoded(End, 0) == [0, 0, 0, 2]
    ensures Encoded(Prop([97], [d]), 5) == [0, 0, 0, 3, 0, 0, 0, 1, 0, 0, 0, 5, d, 0, 0, 0]
  {
    WordBytes();
    assert Be32(5) == [0, 0, 0, 5];
    assert PadData([] + [0]) == [0, 0, 0, 0];
    assert PadData([d] + [0]) == [d, 0, 0, 0];
    assert PadData([d]) == [d, 0, 0, 0];
  }

  /** The blob of a structure block and a strings block, filled up to a multiple of eight. */
  function Laid(rs: seq<Reservation>, tab: seq<Byte>, strings: seq<Byte>): seq<Byte>
    requires forall i :: 0 <= i < |rs| ==> Sized(rs[i])
    requires HEADER_SIZE + 16 * (|rs| + 1) + |tab| + |strings| + 8 <= INT_MAX
  {
    var struct := HEADER_SIZE + 16 * |rs| + 16;
    var end := struct + |tab| + |strings|;
    var pad := (8 - end % 8) % 8;
    var h := Header(FDT_MAGIC, end + pad, struct, struct + |tab|, HEADER_SIZE, FDT_VERSION, FDT_LAST_COMPATIBLE,
                    |strings|, |tab|);
    Blob(HeaderBytes(h), EncodedReservations(rs) + Zeros(16), tab, strings, Zeros(pad))
  }

  /** A root node and nothing else: 72 bytes. */
  lemma RootBlob()
    ensures Laid([], [0, 0, 0, 1, 0, 0, 0, 0, 0, 0, 0, 2, 0, 0, 0, 9], []) ==
            ([0xd0, 0x0d, 0xfe, 0xed] + ([0, 0, 0, 72] + ([0, 0, 0, 56] + ([0, 0, 0, 72] + ([0, 0, 0, 40] +
             ([0, 0, 0, 17] + ([0, 0, 0, 16] + ([0, 0, 0, 0] + ([0, 0, 0, 0] + [0, 0, 0, 16]))))))))) +
            ([0, 0, 0, 0, 0, 0, 0, 0, 0, 0, 0, 0, 0, 0, 0, 0] + [0, 0, 0, 1, 0, 0, 0, 0, 0, 0, 0, 2, 0, 0, 0, 9])
  {
    hide Be32, HeaderBytes, Fits;
    var tab: seq<Byte> := [0, 0, 0, 1, 0, 0, 0, 0, 0, 0, 0, 2, 0, 0, 0, 9];
    RootHeader();
    NoReservations();
    assert tab + ([] + Zeros(0)) == tab;
  }

  lemma RootHeader()
    ensures var h := Header(FDT_MAGIC, 72, 56, 72, 40, FDT_VERSION, FDT_LAST_COMPATIBLE, 0, 16);
            && Fits(h)
            && HeaderBytes(h) ==
               [0xd0, 0x0d, 0xfe, 0xed] + ([0, 0, 0, 72] + ([0, 0, 0, 56] + ([0, 0, 0, 72] + ([0, 0, 0, 40] +
               ([0, 0, 0, 17] + ([0, 0, 0, 16] + ([0, 0, 0, 0] + ([0, 0, 0, 0] + [0, 0, 0, 16]))))))))
  {
    hide Be32, HeaderBytes;
    WordBytes();
    HeaderLayout(Header(FDT_MAGIC, 72, 56, 72, 40, FDT_VERSION, FDT_LAST_COMPATIBLE, 0, 16));
  }

  lemma NoReservations()
    ensures EncodedReservations([]) + Zeros(16) == [0, 0, 0, 0, 0, 0, 0, 0, 0, 0, 0, 0, 0, 0, 0, 0]
  {
  }

  // ----- the builder -----

  /** A strings block is made of whole strings. */
  predicate Whole(table: seq<Byte>) { table == [] || table[|table| - 1] == 0 }

  lemma NulFound(table: seq<Byte>, pos: nat)
    requires Whole(table) && pos < |table|
    ensures NulAt(table, pos) < |table|
  {
  }

  /** One of the strings from a place on is the name. */
  ghost predicate Listed(table: seq<Byte>, name: seq<Byte>, from: nat)
    requires from <= |table|
    decreases |table| - from
  {
    var k := NulAt(table, from);
    k < |table| && (table[from..k] == name || Listed(table, name, k + 1))
  }

  lemma NewString(table: seq<Byte>, name: seq<Byte>)
    requires CString(name)
    ensures StringAt(table + (name + [0]), |table|) == Some(name) && Whole(table + (name + [0]))
  {
    var t := table + (name + [0]);
    NulUnique(t, |table|, |table| + |name|);
    assert t[|table|..|table| + |name|] == name;
  }

  class Builder {
    var tab: seq<Byte>
    var openNodes: int
    var strings: seq<Byte>
    var cells: seq<Byte>
    var reservations: seq<Reservation>
    ghost var calls: seq<Event>
    ghost var offs: seq<nat>

    ghost predicate Valid()
      reads this
    {
      && AllReadable(calls, offs, strings)
      && tab == Structure(calls, offs, strings, |calls|)
      && openNodes == Opened(calls)
      && Whole(strings) && |strings| <= INT_MAX
      && |reservations| <= MAX_RESERVATIONS && forall i :: 0 <= i < |reservations| ==> Sized(reservations[i])
    }

    constructor ()
      ensures Valid() && calls == [] && reservations == [] && cells == []
    {
      tab, openNodes, strings, cells, reservations, calls, offs := [], 0, [], [], [], [], [];
    }

    /** Empty reservations and those that do not fit the table are dropped. */
    method AddReservation(address: nat, size: nat)
      requires Valid() && address < WORD * WORD && size < WORD * WORD
      modifies this`reservations
      ensures Valid()
      ensures reservations == if size == 0 || |old(reservations)| >= MAX_RESERVATIONS then old(reservations)
                              else old(reservations) + [Reservation(address, size)]
    {
      if size == 0 {
        return;
      }
      if |reservations| >= MAX_RESERVATIONS {
        return;
      }
      reservations := reservations + [Reservation(address, size)];
    }

    /** Append what a call writes. */
    method Record(e: Event, off: nat)
      requires Valid() && Readable(e, off, strings)
      modifies this`tab, this`openNodes, this`calls, this`offs
      ensures Valid() && calls == old(calls) + [e]
    {
      hide Encoded, Readable, Structure, Opened;
      assert off < WORD && (e.Prop? ==> |e.data| < WORD) by { ReadableFits(e, off, strings); }
      OneMoreCall(calls, offs, strings, e, off, |calls|);
      OpenedOneMore(calls, e);
      tab := tab + Encoded(e, off);
      openNodes := openNodes + Turn(e);
      calls, offs := calls + [e], offs + [off];
    }

    method BeginNode(name: seq<Byte>)
      requires Valid() && CString(name)
      modifies this`tab, this`openNodes, this`calls, this`offs
      ensures Valid() && calls == old(calls) + [Begin(name)]
    {
      Record(Begin(name), 0);
    }

    method EndNode()
      requires Valid()
      modifies this`tab, this`openNodes, this`calls, this`offs
      ensures Valid() && calls == old(calls) + [End]
    {
      Record(End, 0);
    }

    /** The offset of a name in the strings block, which gets it if it was not there. */
    method StringOffset(name: seq<Byte>) returns (pos: nat)
      requires Valid() && CString(name) && |strings| + |name| + 1 <= INT_MAX
      modifies this`strings
      ensures Valid() && old(strings) <= strings && pos <= INT_MAX
      ensures StringAt(strings, pos) == Some(name)
      ensures strings == if Listed(old(strings), name, 0) then old(strings) else old(strings) + (name + [0])
    {
      hide Structure, Opened, Readable;
      pos := 0;
      while pos < |strings|
        invariant pos <= |strings| && strings == old(strings)
        invariant Listed(strings, name, 0) <==> Listed(strings, name, pos)
        decreases |strings| - pos
      {
        NulFound(strings, pos);
        var k := NulAt(strings, pos);
        if strings[pos..k] == name {
          return;
        }
        pos := k + 1;
      }
      NewString(strings, name);
      StaysReadable(calls, offs, strings, name + [0], |calls|);
      pos := |strings|;
      strings := strings + (name + [0]);
    }

    method PutProp(name: seq<Byte>, data: seq<Byte>)
      requires Valid() && CString(name) && |data| <= INT_MAX && |strings| + |name| + 1 <= INT_MAX
      modifies this`tab, this`openNodes, this`calls, this`offs, this`strings
      ensures Valid() && calls == old(calls) + [Prop(name, data)]
    {
      hide StringAt, AllReadable, Structure, Opened;
      var off := StringOffset(name);
      Record(Prop(name, data), off);
    }

    /** A value assembled cell by cell, in big-endian order. */
    method AddCellU32(val: nat)
      requires val < WORD
      modifies this`cells
      ensures cells == old(cells) + Be32(val)
    {
      cells := cells + Be32(val);
    }

    method PropCells(name: seq<Byte>)
      requires Valid() && CString(name) && |cells| <= INT_MAX && |strings| + |name| + 1 <= INT_MAX
      modifies this`tab, this`openNodes, this`calls, this`offs, this`strings, this`cells
      ensures Valid() && calls == old(calls) + [Prop(name, old(cells))] && cells == []
    {
      PutProp(name, cells);
      cells := [];
    }

    /** The reservation block, ended by an entry of zeros. */
    method WriteReservations() returns (rsv: seq<Byte>)
      requires Valid()
      ensures rsv == EncodedReservations(reservations) + Zeros(16)
    {
      hide Structure, Opened, AllReadable, Be64;
      rsv := [];
      assert reservations[0..] == reservations;
      for i := 0 to |reservations|
        invariant EncodedReservations(reservations) == rsv + EncodedReservations(reservations[i..])
      {
        var r := reservations[i];
        assert Sized(r) && reservations[i..][1..] == reservations[i + 1..];
        ghost var tail := EncodedReservations(reservations[i + 1..]);
        OneEntry(rsv, Be64(r.address), Be64(r.size), tail);
        rsv := rsv + (Be64(r.address) + Be64(r.size));
      }
      assert rsv + [] == rsv;
      rsv := rsv + Zeros(16);
    }

    /**
     Write the blob: reservations, structure, strings. Decoding it gives back every
     call and reservation; it is the blob of a tree exactly when the calls were
     well formed, and then of the tree they describe.
     */
    method Output() returns (dst: seq<Byte>)
      requires Valid() && openNodes == 0
      requires HEADER_SIZE + 16 * (|reservations| + 1) + |tab| + 4 + |strings| + 8 <= INT_MAX
      modifies this`tab
      ensures tab == old(tab) + Be32(FDT_END) && dst == Laid(reservations, tab, strings)
      ensures Decode(dst) == Some(Contents(calls, reservations))
      ensures DecodeTree(dst).Some? <==> WellFormed(calls)
      ensures forall t :: DecodeTree(dst) == Some(Device(t, reservations)) <==> calls == Steps(t)
    {
      hide Structure, Opened, AllReadable, Be32, Decode, Zeros, ReadSteps, EncodedReservations, HeaderBytes, Blob,
           Steps, ReadTree, WellFormed;
      ReadComplete(calls, offs, strings);
      var rsv := WriteReservations();
      tab := tab + Be32(FDT_END);
      var offStruct := HEADER_SIZE + |rsv|;
      var offStrings := offStruct + |tab|;
      var pad := PadTo8(offStrings + |strings|);
      var h := Header(FDT_MAGIC, offStrings + |strings| + |pad|, offStruct, offStrings, HEADER_SIZE, FDT_VERSION,
                      FDT_LAST_COMPATIBLE, |strings|, |tab|);
      BlobDecodes(h, reservations, tab, strings, pad, calls);
      TreesRead(calls);
      dst := Blob(HeaderBytes(h), rsv, tab, strings, pad);
    }
  }

  lemma OneEntry(a: seq<Byte>, b: seq<Byte>, c: seq<Byte>, d: seq<Byte>)
    ensures a + (b + (c + d)) == a + (b + c) + d
  {
  }

  /** Zero bytes up to a multiple of eight. */
  method PadTo8(pos: nat) returns (pad: seq<Byte>)
    ensures |pad| < 8 && (pos + |pad|) % 8 == 0 && pad == Zeros((8 - pos % 8) % 8)
  {
    pad := [];
    ghost var q := (pos + 7) / 8;
    while (pos + |pad|) % 8 != 0
      invariant pos <= pos + |pad| <= 8 * q < pos + 8
      invariant forall i :: 0 <= i < |pad| ==> pad[i] == 0
      decreases 8 * q - (pos + |pad|)
    {
      assert pos + |pad| != 8 * q;
      pad := pad + [0];
    }
  }

  lemma ReadableFits(e: Event, off: nat, table: seq<Byte>)
    requires Readable(e, off, table)
    ensures off < WORD && (e.Prop? ==> |e.data| < WORD)
  {
  }
}
