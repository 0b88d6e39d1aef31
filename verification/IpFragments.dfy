/**
 IP fragmentation in ip_output and reassembly in ip_reass. Fragments of a
 datagram may arrive in any order, more than once, and cut differently by
 routers on the way; the datagram comes out exactly when every byte of it has
 arrived, and it is the datagram that was sent.
 */
module IpFragments {
  import opened Common

  const IF_MTU := 1500
  const IP_HEADER := 20
  const IPFRAGTTL := 60

  /** A fragment on the wire: its offset in units of eight bytes and the more-fragments bit. */
  datatype Wire = Wire(off8: nat, data: seq<Byte>, mf: bool)

  /** A fragment on a reassembly queue, with its offset in bytes. */
  datatype Frag = Frag(off: nat, data: seq<Byte>, mf: bool) {
    function End(): nat { off + |data| }
  }

  /** A datagram as it comes out, with the length its header says. */
  datatype Datagram = Datagram(data: seq<Byte>, ipLen: nat)

  const LEN_MOD := 0x1_0000

  /** The header has 16 bits for the length, so it is right exactly up to 65535 bytes. */
  function Whole(payload: seq<Byte>): (d: Datagram)
    ensures d.ipLen == |payload| <==> |payload| < LEN_MOD
  {
    Datagram(payload, |payload| % LEN_MOD)
  }

  function Received(w: Wire): Frag { Frag(w.off8 * 8, w.data, w.mf) }

  /** The fragment is a piece of the payload, and says truly whether more follows. */
  ghost predicate Piece(payload: seq<Byte>, f: Frag) {
    && f.End() <= |payload|
    && f.data == payload[f.off..f.End()]
    && (f.mf <==> f.End() < |payload|)
  }

  /** Pieces in order and not overlapping. */
  ghost predicate InOrder(payload: seq<Byte>, q: seq<Frag>) {
    && (forall i :: 0 <= i < |q| ==> Piece(payload, q[i]))
    && (forall i, j :: 0 <= i < j < |q| ==> q[i].End() <= q[j].off)
  }

  ghost predicate Within(f: Frag, p: nat) {
    f.off <= p < f.End()
  }

  /** Some queued fragment holds byte p. */
  ghost predicate Holds(q: seq<Frag>, p: nat) {
    exists i :: 0 <= i < |q| && Within(q[i], p)
  }

  /** Every byte of the payload has arrived. */
  ghost predicate Complete(payload: seq<Byte>, q: seq<Frag>) {
    forall p: nat :: p < |payload| ==> Holds(q, p)
  }

  /** m_adj from the head, with the offset following. */
  function TrimHead(f: Frag, n: nat): Frag
    requires n <= |f.data|
  {
    Frag(f.off + n, f.data[n..], f.mf)
  }

  lemma TrimHeadPiece(payload: seq<Byte>, f: Frag, n: nat)
    requires Piece(payload, f) && n <= |f.data|
    ensures Piece(payload, TrimHead(f, n)) && TrimHead(f, n).End() == f.End()
  {
  }

  lemma HoldsTrimmed(q: seq<Frag>, k: nat, n: nat)
    requires k < |q| && n <= |q[k].data|
    ensures forall p: nat :: Holds(q, p) <==>
              Holds(q[k := TrimHead(q[k], n)], p) || q[k].off <= p < q[k].off + n
  {
    var q' := q[k := TrimHead(q[k], n)];
    forall p: nat
      ensures Holds(q, p) <==> Holds(q', p) || q[k].off <= p < q[k].off + n
    {
      if Holds(q, p) {
        var i :| 0 <= i < |q| && Within(q[i], p);
        assert i != k ==> Within(q'[i], p);
        assert i == k && q[k].off + n <= p ==> Within(q'[k], p);
      }
      if Holds(q', p) {
        var i :| 0 <= i < |q'| && Within(q'[i], p);
        assert Within(q[i], p);
      }
      if q[k].off <= p < q[k].off + n { assert Within(q[k], p); }
    }
  }

  lemma HoldsRemoved(q: seq<Frag>, k: nat)
    requires k < |q|
    ensures forall p: nat :: Holds(q, p) <==> Holds(q[..k] + q[k + 1..], p) || Within(q[k], p)
  {
    hide Within;
    var q' := q[..k] + q[k + 1..];
    forall p: nat
      ensures Holds(q, p) <==> Holds(q', p) || Within(q[k], p)
    {
      if Holds(q, p) {
        var i :| 0 <= i < |q| && Within(q[i], p);
        if i < k { assert q'[i] == q[i]; }
        if i > k { assert q'[i - 1] == q[i]; }
      }
      if Holds(q', p) {
        var i :| 0 <= i < |q'| && Within(q'[i], p);
        assert q[if i < k then i else i + 1] == q'[i];
      }
    }
  }

  lemma HoldsInserted(q: seq<Frag>, k: nat, f: Frag)
    requires k <= |q|
    ensures forall p: nat :: Holds(q[..k] + [f] + q[k..], p) <==> Holds(q, p) || Within(f, p)
  {
    var q' := q[..k] + [f] + q[k..];
    assert q'[..k] + q'[k + 1..] == q;
    HoldsRemoved(q', k);
  }

  lemma InOrderRemoved(payload: seq<Byte>, q: seq<Frag>, k: nat)
    requires InOrder(payload, q) && k < |q|
    ensures InOrder(payload, q[..k] + q[k + 1..])
  {
    hide Piece, Frag.End;
  }

  lemma InOrderTrimmed(payload: seq<Byte>, q: seq<Frag>, k: nat, n: nat)
    requires InOrder(payload, q) && k < |q| && n <= |q[k].data|
    ensures InOrder(payload, q[k := TrimHead(q[k], n)])
  {
    hide Piece;
    TrimHeadPiece(payload, q[k], n);
  }

  lemma InOrderInserted(payload: seq<Byte>, q: seq<Frag>, k: nat, f: Frag)
    requires InOrder(payload, q) && k <= |q| && Piece(payload, f)
    requires forall i :: 0 <= i < k ==> q[i].End() <= f.off
    requires forall i :: k <= i < |q| ==> f.End() <= q[i].off
    ensures InOrder(payload, q[..k] + [f] + q[k..])
  {
    hide Piece, Frag.End;
  }

  /** Where the first n fragments of a chain end. */
  function ChainEnd(q: seq<Frag>, n: nat): nat
    requires n <= |q|
  {
    if n == 0 then 0 else q[n - 1].End()
  }

  /** Each fragment begins where the one before it ends, the first at 0. */
  ghost predicate Adjacent(q: seq<Frag>) {
    forall i :: 0 <= i < |q| ==> Flush(q, i)
  }

  predicate Flush(q: seq<Frag>, i: nat)
    requires i < |q|
  {
    q[i].off == ChainEnd(q, i)
  }

  /** What m_cat joins. */
  function Joined(q: seq<Frag>, n: nat): seq<Byte>
    requires n <= |q|
  {
    if n == 0 then [] else Joined(q, n - 1) + q[n - 1].data
  }

  lemma {:induction false} JoinedAdjacent(payload: seq<Byte>, q: seq<Frag>, n: nat)
    requires Adjacent(q) && InOrder(payload, q) && n <= |q|
    ensures ChainEnd(q, n) <= |payload| && Joined(q, n) == payload[..ChainEnd(q, n)]
  {
    if n > 0 {
      JoinedAdjacent(payload, q, n - 1);
      var f := q[n - 1];
      assert Piece(payload, f) && Flush(q, n - 1);
      assert payload[..f.off] + payload[f.off..f.End()] == payload[..f.End()];
    }
  }

  /** A byte between two neighbours of a chain, or after the last, is not held. */
  lemma GapNotHeld(payload: seq<Byte>, q: seq<Frag>, i: nat, p: nat)
    requires InOrder(payload, q) && i <= |q|
    requires ChainEnd(q, i) <= p && (i < |q| ==> p < q[i].off)
    ensures !Holds(q, p)
  {
    hide Piece;
    forall j | 0 <= j < |q| ensures !Within(q[j], p) {
      assert j < i - 1 ==> q[j].End() <= q[i - 1].off;
      assert i < j ==> q[i].End() <= q[j].off;
    }
  }

  lemma {:induction false} AdjacentHolds(q: seq<Frag>, n: nat, p: nat)
    requires Adjacent(q) && n <= |q| && p < ChainEnd(q, n)
    ensures Holds(q, p)
  {
    if !Within(q[n - 1], p) {
      assert Flush(q, n - 1);
      AdjacentHolds(q, n - 1, p);
    }
  }

  /** A chain in order has no gaps and ends the datagram exactly when it holds every byte. */
  lemma GaplessIffComplete(payload: seq<Byte>, q: seq<Frag>)
    requires InOrder(payload, q) && q != []
    ensures Adjacent(q) && !q[|q| - 1].mf <==> Complete(payload, q)
  {
    var l := |q|;
    assert Piece(payload, q[l - 1]);
    if Complete(payload, q) {
      forall i | 0 <= i < l ensures Flush(q, i) {
        assert Piece(payload, q[i]);
        if i > 0 { assert q[i - 1].End() <= q[i].off; }
        if ChainEnd(q, i) < q[i].off { GapNotHeld(payload, q, i, ChainEnd(q, i)); }
      }
      if q[l - 1].mf { GapNotHeld(payload, q, l, ChainEnd(q, l)); }
    }
    if Adjacent(q) && !q[l - 1].mf {
      forall p: nat | p < |payload| ensures Holds(q, p) {
        AdjacentHolds(q, l, p);
      }
    }
  }

  /** Queue the fragment: it loses what an earlier one holds, later ones lose what it holds. */
  method Enqueue(ghost payload: seq<Byte>, q0: seq<Frag>, f0: Frag) returns (q: seq<Frag>, dropped: bool)
    requires InOrder(payload, q0) && Piece(payload, f0)
    ensures InOrder(payload, q) && q != [] && (dropped ==> q == q0)
    ensures forall p: nat :: Holds(q, p) <==> Holds(q0, p) || Within(f0, p)
  {
    hide Piece, Holds;
    var f := f0;
    var k := 0;
    while k < |q0| && q0[k].off <= f.off
      invariant 0 <= k <= |q0|
      invariant forall i :: 0 <= i < k ==> q0[i].off <= f.off
    {
      k := k + 1;
    }
    if k > 0 {
      var i := q0[k - 1].End() - f.off;
      if i > 0 {
        HeldBy(q0, k - 1);
        if i >= |f.data| {
          return q0, true;
        }
        TrimHeadPiece(payload, f, i);
        f := TrimHead(f, i);
      }
    }
    assert forall i :: 0 <= i < k ==> q0[i].End() <= f.off;
    q := InsertAt(payload, q0, k, f);
    dropped := false;
  }

  lemma HeldBy(q: seq<Frag>, k: nat)
    requires k < |q|
    ensures forall p: nat :: Within(q[k], p) ==> Holds(q, p)
  {
  }

  method InsertAt(ghost payload: seq<Byte>, q0: seq<Frag>, k: nat, f: Frag) returns (q: seq<Frag>)
    requires InOrder(payload, q0) && Piece(payload, f) && k <= |q0|
    requires forall i :: 0 <= i < k ==> q0[i].End() <= f.off
    requires forall i :: k <= i < |q0| ==> f.off <= q0[i].off
    ensures InOrder(payload, q) && q != []
    ensures forall p: nat :: Holds(q, p) <==> Holds(q0, p) || Within(f, p)
  {
    hide Piece, Holds;
    q := q0;
    while k < |q| && f.End() > q[k].off
      invariant InOrder(payload, q) && k <= |q|
      invariant forall i :: 0 <= i < k ==> q[i].End() <= f.off
      invariant forall i :: k <= i < |q| ==> f.off <= q[i].off
      invariant forall p: nat :: Holds(q, p) || Within(f, p) <==> Holds(q0, p) || Within(f, p)
      decreases |q|
    {
      var i := f.End() - q[k].off;
      if i < |q[k].data| {
        InOrderTrimmed(payload, q, k, i);
        HoldsTrimmed(q, k, i);
        q := q[k := TrimHead(q[k], i)];
        break;
      }
      HoldsRemoved(q, k);
      InOrderRemoved(payload, q, k);
      q := q[..k] + q[k + 1..];
    }
    assert forall i :: k <= i < |q| ==> f.End() <= q[i].off;
    InOrderInserted(payload, q, k, f);
    HoldsInserted(q, k, f);
    q := q[..k] + [f] + q[k..];
  }

  /** Walk the chain: complete when it is gapless and its last fragment ends the datagram. */
  method TryJoin(ghost payload: seq<Byte>, q: seq<Frag>) returns (whole: Option<Datagram>)
    requires InOrder(payload, q) && q != []
    ensures whole == if Complete(payload, q) then Some(Whole(payload)) else None
  {
    hide Piece, Complete;
    GaplessIffComplete(payload, q);
    var next: nat := 0;
    var k := 0;
    while k < |q|
      invariant 0 <= k <= |q| && next == ChainEnd(q, k)
      invariant forall i :: 0 <= i < k ==> Flush(q, i)
    {
      if q[k].off != next {
        assert !Flush(q, k);
        return None;
      }
      next := next + |q[k].data|;
      k := k + 1;
    }
    if q[|q| - 1].mf {
      return None;
    }
    var m := [];
    k := 0;
    while k < |q|
      invariant 0 <= k <= |q| && m == Joined(q, k)
    {
      m := m + q[k].data;
      k := k + 1;
    }
    JoinedAdjacent(payload, q, |q|);
    LastEnds(payload, q);
    whole := Some(Datagram(m, next % LEN_MOD));
  }

  lemma LastEnds(payload: seq<Byte>, q: seq<Frag>)
    requires InOrder(payload, q) && q != [] && !q[|q| - 1].mf
    ensures payload[..ChainEnd(q, |q|)] == payload
  {
    assert Piece(payload, q[|q| - 1]);
  }

  /** The fragments as a receiver would see them. */
  function Arrived(fs: seq<Wire>): (q: seq<Frag>)
    ensures |q| == |fs| && forall i :: 0 <= i < |fs| ==> q[i] == Received(fs[i])
  {
    seq(|fs|, i requires 0 <= i < |fs| => Received(fs[i]))
  }

  /** The fragments so far are the payload up to off, each whole eights and small enough for the interface. */
  ghost predicate CutUpTo(payload: seq<Byte>, fs: seq<Wire>, end: nat) {
    && InOrder(payload, Arrived(fs)) && Adjacent(Arrived(fs)) && ChainEnd(Arrived(fs), |fs|) == end
    && (forall i :: 0 <= i < |fs| ==> fs[i].off8 < 8192 && |fs[i].data| + IP_HEADER <= IF_MTU)
    && (if payload == [] then |fs| <= 1 else forall i :: 0 <= i < |fs| ==> fs[i].data != [])
  }

  lemma CutOneMore(payload: seq<Byte>, fs: seq<Wire>, end: nat, w: Wire)
    requires CutUpTo(payload, fs, end) && Piece(payload, Received(w)) && Received(w).off == end
    requires w.off8 < 8192 && |w.data| + IP_HEADER <= IF_MTU
    requires if payload == [] then fs == [] else w.data != []
    ensures CutUpTo(payload, fs + [w], Received(w).End())
  {
    hide Piece, Received;
    var q, r := Arrived(fs), Arrived(fs + [w]);
    assert r == q + [Received(w)];
    forall i | 0 <= i < |q| ensures r[i].End() <= end {
      if i < |q| - 1 { assert q[i].End() <= q[|q| - 1].off; }
    }
    forall i | 0 <= i < |r| ensures Flush(r, i) {
      assert i < |q| ==> Flush(q, i);
    }
  }

  /**
   ip_output: cut the payload into fragments if it is too long for the
   interface. They are pieces of the payload in order, and together all of it.
   */
  method Fragment(payload: seq<Byte>, df: bool) returns (r: Option<seq<Wire>>)
    requires IP_HEADER + |payload| <= 0xFFFF
    ensures r.None? <==> df && IP_HEADER + |payload| > IF_MTU
    ensures r.Some? ==> CutUpTo(payload, r.value, |payload|) && Complete(payload, Arrived(r.value)) && r.value != []
  {
    hide InOrder, Adjacent, Complete;
    var ipLen := IP_HEADER + |payload|;
    var fs: seq<Wire> := [];
    assert CutUpTo(payload, [], 0) by { NothingCut(payload); }
    if ipLen <= IF_MTU {
      CutOneMore(payload, [], 0, Wire(0, payload, false));
      fs := fs + [Wire(0, payload, false)];
      AllCut(payload, fs);
      return Some(fs);
    }
    if df {
      return None;
    }
    var len := (IF_MTU - IP_HEADER) / 8 * 8;
    if len < 8 {
      return None;
    }
    CutOneMore(payload, [], 0, Wire(0, payload[..len], true));
    fs := fs + [Wire(0, payload[..len], true)];
    var off := IP_HEADER + len;
    while off < ipLen
      invariant IP_HEADER < off <= ipLen
      invariant off < ipLen ==> len == IF_MTU - IP_HEADER && (off - IP_HEADER) % 8 == 0
      invariant fs != [] && CutUpTo(payload, fs, off - IP_HEADER)
      decreases ipLen - off
    {
      var mf := false;
      if off + len >= ipLen {
        len := ipLen - off;
      } else {
        mf := true;
      }
      var w := Wire((off - IP_HEADER) / 8, payload[off - IP_HEADER..off - IP_HEADER + len], mf);
      CutOneMore(payload, fs, off - IP_HEADER, w);
      fs := fs + [w];
      off := off + len;
    }
    AllCut(payload, fs);
    r := Some(fs);
  }

  lemma NothingCut(payload: seq<Byte>)
    ensures CutUpTo(payload, [], 0)
  {
  }

  lemma AllCut(payload: seq<Byte>, fs: seq<Wire>)
    requires CutUpTo(payload, fs, |payload|)
    ensures Complete(payload, Arrived(fs))
  {
    forall p: nat | p < |payload| ensures Holds(Arrived(fs), p) {
      AdjacentHolds(Arrived(fs), |fs|, p);
    }
  }

  /** A queue of some of a datagram's pieces, but not all. */
  ghost predicate Pending(payload: seq<Byte>, q: seq<Frag>) {
    q != [] && InOrder(payload, q) && !Complete(payload, q)
  }

  /** With f, every byte has arrived. */
  ghost predicate Completes(payload: seq<Byte>, q: seq<Frag>, f: Frag) {
    forall p: nat :: p < |payload| ==> Holds(q, p) || Within(f, p)
  }

  /** ip_reass on one queue, which is empty if the datagram is new. */
  method Reass(ghost payload: seq<Byte>, q0: seq<Frag>, f: Frag) returns (q: seq<Frag>, whole: Option<Datagram>)
    requires (q0 == [] || Pending(payload, q0)) && Piece(payload, f)
    ensures whole == if Completes(payload, q0, f) then Some(Whole(payload)) else None
    ensures whole.None? ==> Pending(payload, q)
    ensures forall p: nat :: Holds(q, p) <==> Holds(q0, p) || Within(f, p)
  {
    hide Piece, Holds, Within;
    var dropped;
    q, dropped := Enqueue(payload, q0, f);
    assert Complete(payload, q) <==> Completes(payload, q0, f);
    if dropped {
      return q, None;
    }
    whole := TryJoin(payload, q);
  }

  /** What distinguishes datagrams. */
  datatype Key = Key(id: nat, src: nat, dst: nat, proto: nat)

  class Reassembler {
    var queues: map<Key, seq<Frag>>
    var ttl: map<Key, nat>
    ghost var payloads: map<Key, seq<Byte>>

    /** Every queue is an incomplete datagram's pieces in order. */
    ghost predicate Valid()
      reads this
    {
      && queues.Keys == ttl.Keys == payloads.Keys
      && forall k :: k in queues ==> Pending(payloads[k], queues[k]) && ttl[k] > 0
    }

    constructor ()
      ensures Valid() && queues == map[]
    {
      queues, ttl, payloads := map[], map[], map[];
    }

    /** The bytes of k's datagram that have arrived. */
    ghost predicate Has(k: Key, p: nat)
      reads this
    {
      k in queues && Holds(queues[k], p)
    }

    /**
     ip_input and ip_reass for a datagram of which only some may have arrived.
     The datagram comes out if and only if nothing of it is missing any more; no
     other datagram's queue is touched. One that arrives whole leaves its own queue
     to time out, too, unless the reserved bit of its header is set.
     */
    method Input(k: Key, w: Wire, reserved: bool, ghost payload: seq<Byte>) returns (whole: Option<Datagram>)
      requires Valid() && Piece(payload, Received(w)) && IP_HEADER + |w.data| < LEN_MOD
      requires k in queues && (w.mf || w.off8 > 0) ==> payload == payloads[k]
      modifies this
      ensures Valid()
      ensures whole == if forall p: nat :: p < |payload| ==> old(Has(k, p)) || Within(Received(w), p)
                       then Some(Whole(payload)) else None
      ensures !w.mf && w.off8 == 0 ==> whole == Some(Datagram(w.data, |w.data|))
      ensures whole.Some? ==>
                queues == if w.mf || w.off8 > 0 || reserved then old(queues) - {k} else old(queues)
      ensures whole.None? ==>
                && k in queues && payloads[k] == payload
                && forall p: nat :: Has(k, p) <==> old(Has(k, p)) || Within(Received(w), p)
      ensures forall j :: j != k ==> (j in queues <==> j in old(queues))
      ensures forall j :: j != k && j in queues ==> queues[j] == old(queues)[j] && ttl[j] == old(ttl)[j]
    {
      hide Piece, Pending, Holds, Within, Received;
      if !w.mf && w.off8 == 0 {
        WholePiece(payload, w);
        if reserved {
          Forget(k);
        }
        return Some(Datagram(w.data, |w.data|));
      }
      var q0 := if k in queues then queues[k] else [];
      assert q0 == [] ==> forall p: nat :: !Holds(q0, p) by { EmptyInOrder(payload); }
      assert forall p: nat :: Has(k, p) <==> Holds(q0, p);
      var q;
      q, whole := Reass(payload, q0, Received(w));
      if whole.Some? {
        Forget(k);
      } else {
        Store(k, q, payload);
      }
    }

    method Forget(k: Key)
      requires Valid()
      modifies this
      ensures Valid() && queues == old(queues) - {k} && ttl == old(ttl) - {k}
    {
      hide Pending;
      queues, ttl, payloads := queues - {k}, ttl - {k}, payloads - {k};
    }

    method Store(k: Key, q: seq<Frag>, ghost payload: seq<Byte>)
      requires Valid() && Pending(payload, q)
      modifies this
      ensures Valid() && queues == old(queues)[k := q] && payloads == old(payloads)[k := payload]
      ensures ttl == old(ttl)[k := if k in old(ttl) then old(ttl)[k] else IPFRAGTTL]
    {
      hide Pending;
      var t := if k in ttl then ttl[k] else IPFRAGTTL;
      queues, ttl, payloads := queues[k := q], ttl[k := t], payloads[k := payload];
    }

    /**
     The fragments of a datagram, as ip_output cut it, arrive in some order, some of
     them perhaps several times and some never, until the datagram comes out. That
     happens if and only if each of them has arrived.
     */
    method Deliver(k: Key, ghost payload: seq<Byte>, fs: seq<Wire>, order: seq<nat>) returns (whole: Option<Datagram>)
      requires Valid() && k !in queues && CutUpTo(payload, fs, |payload|) && fs != []
      requires forall i :: 0 <= i < |order| ==> order[i] < |fs|
      modifies this
      ensures Valid() && whole == if EachIn(fs, order) then Some(Whole(payload)) else None
      ensures forall j :: j != k ==> (j in queues <==> j in old(queues))
      ensures forall j :: j != k && j in queues ==> queues[j] == old(queues)[j] && ttl[j] == old(ttl)[j]
    {
      hide CutUpTo, Pending, Holds, Within, Received, EachIn, Came, Piece;
      NothingCame(fs);
      for n := 0 to |order|
        invariant Valid() && !EachIn(fs, order[..n])
        invariant k in queues ==> payloads[k] == payload
        invariant forall p: nat :: Has(k, p) <==> Came(fs, order[..n], p)
        invariant forall j :: j != k ==> (j in queues <==> j in old(queues))
        invariant forall j :: j != k && j in queues ==> queues[j] == old(queues)[j] && ttl[j] == old(ttl)[j]
      {
        CutPiece(payload, fs, order[n]);
        ghost var came, now := order[..n], order[..n + 1];
        CameOneMore(fs, came, order[n], now);
        AllCame(payload, fs, now);
        whole := Input(k, fs[order[n]], false, payload);
        if whole.Some? {
          StillIn(fs, order, n + 1);
          return;
        }
      }
      assert order[..|order|] == order;
      whole := None;
    }

    /** ip_slowtimo: queues out of time are given up, the others keep what they hold. */
    method SlowTimo()
      requires Valid()
      modifies this
      ensures Valid()
      ensures forall k :: k in queues <==> k in old(queues) && old(ttl)[k] != 1
      ensures forall k :: k in queues ==> queues[k] == old(queues)[k] && ttl[k] == old(ttl)[k] - 1
    {
      hide Pending;
      var todo := queues.Keys;
      while todo != {}
        invariant Valid() && todo <= queues.Keys <= old(queues).Keys
        invariant forall k :: k in old(queues) ==> (k in queues <==> k in todo || old(ttl)[k] != 1)
        invariant forall k :: k in queues ==> queues[k] == old(queues)[k] && payloads[k] == old(payloads)[k]
        invariant forall k :: k in queues ==> ttl[k] == old(ttl)[k] - (if k in todo then 0 else 1)
        decreases todo
      {
        var k :| k in todo;
        todo := todo - {k};
        if ttl[k] - 1 == 0 {
          queues, ttl, payloads := queues - {k}, ttl - {k}, payloads - {k};
        } else {
          ttl := ttl[k := ttl[k] - 1];
        }
      }
    }
  }

  /** Each fragment is among those of the given numbers. */
  ghost predicate EachIn(fs: seq<Wire>, order: seq<nat>) {
    forall i :: 0 <= i < |fs| ==> i in order
  }

  /** Byte p has come with one of the fragments of the given numbers. */
  ghost predicate Came(fs: seq<Wire>, order: seq<nat>, p: nat)
    requires forall i :: 0 <= i < |order| ==> order[i] < |fs|
  {
    exists m :: 0 <= m < |order| && Within(Received(fs[order[m]]), p)
  }

  lemma NothingCame(fs: seq<Wire>)
    requires fs != []
    ensures !EachIn(fs, []) && forall p: nat :: !Came(fs, [], p)
  {
    assert 0 !in [];
  }

  lemma CameOneMore(fs: seq<Wire>, a: seq<nat>, i: nat, b: seq<nat>)
    requires b == a + [i] && i < |fs| && forall m :: 0 <= m < |a| ==> a[m] < |fs|
    ensures forall p: nat :: Came(fs, b, p) <==> Came(fs, a, p) || Within(Received(fs[i]), p)
  {
    hide Within, Received;
    forall p: nat ensures Came(fs, b, p) <==> Came(fs, a, p) || Within(Received(fs[i]), p) {
      if m :| 0 <= m < |a| && Within(Received(fs[a[m]]), p) {
        assert b[m] == a[m];
      }
      assert b[|a|] == i;
    }
  }

  lemma StillIn(fs: seq<Wire>, order: seq<nat>, n: nat)
    requires n <= |order| && EachIn(fs, order[..n])
    ensures EachIn(fs, order)
  {
    forall i | 0 <= i < |fs| ensures i in order {
      assert i in order[..n];
    }
  }

  lemma CutPiece(payload: seq<Byte>, fs: seq<Wire>, i: nat)
    requires CutUpTo(payload, fs, |payload|) && i < |fs|
    ensures Piece(payload, Received(fs[i])) && IP_HEADER + |fs[i].data| < LEN_MOD
  {
    assert Arrived(fs)[i] == Received(fs[i]);
  }

  /** The first byte of a fragment is in no other. */
  lemma FirstByte(payload: seq<Byte>, fs: seq<Wire>, i: nat, j: nat)
    requires CutUpTo(payload, fs, |payload|) && i < |fs| && j < |fs| && payload != []
    ensures var p := Received(fs[i]).off; p < |payload| && (Within(Received(fs[j]), p) <==> i == j)
  {
    CutPiece(payload, fs, i);
    var q := Arrived(fs);
    assert q[i] == Received(fs[i]) && q[j] == Received(fs[j]) && q[i].data != [] && q[j].data != [];
    assert i < j ==> q[i].End() <= q[j].off;
    assert j < i ==> q[j].End() <= q[i].off;
  }

  /** Every byte has come exactly when every fragment has. */
  lemma AllCame(payload: seq<Byte>, fs: seq<Wire>, order: seq<nat>)
    requires CutUpTo(payload, fs, |payload|) && order != [] && forall i :: 0 <= i < |order| ==> order[i] < |fs|
    ensures (forall p: nat :: p < |payload| ==> Came(fs, order, p)) <==> EachIn(fs, order)
  {
    hide CutUpTo, Received, Within;
    if payload == [] {
      OneEmpty(fs);
      assert order[0] == 0;
    } else if EachIn(fs, order) {
      AllCut(payload, fs);
      forall p: nat | p < |payload| ensures Came(fs, order, p) {
        assert Holds(Arrived(fs), p);
        var i :| 0 <= i < |fs| && Within(Arrived(fs)[i], p);
        assert i in order;
        var m :| 0 <= m < |order| && order[m] == i;
        assert Within(Received(fs[order[m]]), p);
      }
    } else {
      var i :| 0 <= i < |fs| && i !in order;
      FirstByte(payload, fs, i, i);
      forall m | 0 <= m < |order| ensures !Within(Received(fs[order[m]]), Received(fs[i]).off) {
        FirstByte(payload, fs, i, order[m]);
      }
      assert !Came(fs, order, Received(fs[i]).off);
    }
  }

  lemma OneEmpty(fs: seq<Wire>)
    requires CutUpTo([], fs, 0)
    ensures |fs| <= 1
  {
  }

  lemma WholePiece(payload: seq<Byte>, w: Wire)
    requires Piece(payload, Received(w)) && w.off8 == 0 && !w.mf
    ensures w.data == payload && forall p: nat :: p < |payload| ==> Within(Received(w), p)
  {
  }

  lemma EmptyInOrder(payload: seq<Byte>)
    ensures InOrder(payload, []) && forall p: nat :: !Holds([], p)
  {
  }
}
