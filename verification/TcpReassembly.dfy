/**
 tcp_reass: the queue of out-of-order segments, ordered by 32-bit sequence
 numbers that wrap. Segments are compared as the code does, by the sign of a
 32-bit difference; the proofs refer each to its place in the peer's stream.
 */
module TcpReassembly {
  import opened Common
  import opened SocketBuffer

  const MOD := 0x1_0000_0000
  const HALF := 0x8000_0000
  const REACH := 0x4000_0000

  datatype Segment = Segment(seqNo: nat, data: seq<Byte>, fin: bool)

  /** Sequence number of the stream byte at position p, after an initial number irs. */
  function SeqAt(irs: nat, p: nat): nat {
    (irs + 1 + p) % MOD
  }

  /** The 32-bit difference a - b read as a signed number. */
  function Diff(a: int, b: int): int {
    var d := (a - b) % MOD;
    if d >= HALF then d - MOD else d
  }

  /** Comparing wrapped sequence numbers compares positions less than half the number space apart. */
  lemma DiffOfPositions(irs: nat, p: nat, q: nat)
    requires -HALF <= p - q < HALF
    ensures Diff(SeqAt(irs, p), SeqAt(irs, q)) == p - q
  {
  }

  /** A difference does not see whole turns of the number space. */
  lemma DiffWraps(a: int, b: int)
    ensures Diff(a % MOD, b) == Diff(a, b) == Diff(a, b % MOD)
  {
  }

  lemma SeqAdvance(irs: nat, p: nat, n: nat)
    ensures (SeqAt(irs, p) + n) % MOD == SeqAt(irs, p + n)
  {
  }

  /** Equal numbers are equal positions, for positions less than half the number space apart. */
  lemma SeqEqual(irs: nat, p: nat, q: nat)
    requires -HALF < p - q < HALF
    ensures SeqAt(irs, p) == SeqAt(irs, q) <==> p == q
  {
    DiffOfPositions(irs, p, q);
    DiffOfPositions(irs, q, q);
  }

  /** The segment carries the stream's bytes for its place. */
  ghost predicate Genuine(irs: nat, stream: seq<Byte>, s: Segment, start: nat) {
    && s.seqNo == SeqAt(irs, start)
    && start + |s.data| <= |stream|
    && s.data == stream[start..start + |s.data|]
  }

  /** Segments in stream order, not overlapping, each in its place between lo and hi. */
  ghost predicate InOrder(irs: nat, stream: seq<Byte>, q: seq<Segment>, st: seq<nat>, lo: int, hi: int) {
    && |st| == |q|
    && (forall i :: 0 <= i < |q| ==> Genuine(irs, stream, q[i], st[i]))
    && (forall i :: 0 <= i < |q| ==> lo <= st[i] && st[i] + |q[i].data| <= hi)
    && (forall i, j :: 0 <= i < j < |q| ==> st[i] + |q[i].data| <= st[j])
  }

  /** Every FIN is carried by a segment that reaches the end of the stream. */
  ghost predicate FinsAtEnd(stream: seq<Byte>, q: seq<Segment>, st: seq<nat>)
    requires |st| == |q|
  {
    forall i :: 0 <= i < |q| ==> FinAtEnd(stream, q[i], st[i])
  }

  ghost predicate FinAtEnd(stream: seq<Byte>, s: Segment, start: nat) {
    s.fin ==> start + |s.data| == |stream|
  }

  /** Some queued segment holds the byte at position p. */
  ghost predicate Holds(q: seq<Segment>, st: seq<nat>, p: nat)
    requires |st| == |q|
  {
    exists i :: 0 <= i < |q| && Within(st[i], |q[i].data|, p)
  }

  ghost predicate Within(start: nat, len: nat, p: nat) {
    start <= p < start + len
  }

  /** m_adj from the head, with the header following. */
  function TrimHead(s: Segment, n: nat): Segment
    requires n <= |s.data|
  {
    Segment((s.seqNo + n) % MOD, s.data[n..], s.fin)
  }

  lemma TrimHeadGenuine(irs: nat, stream: seq<Byte>, s: Segment, start: nat, n: nat)
    requires Genuine(irs, stream, s, start) && n <= |s.data|
    ensures Genuine(irs, stream, TrimHead(s, n), start + n)
  {
    SeqAdvance(irs, start, n);
  }

  /** How far the end of one segment reaches past the start of another. */
  lemma EndDiff(irs: nat, stream: seq<Byte>, a: Segment, p: nat, b: Segment, r: nat)
    requires Genuine(irs, stream, a, p) && Genuine(irs, stream, b, r) && -HALF <= p + |a.data| - r < HALF
    ensures Diff(a.seqNo + |a.data|, b.seqNo) == p + |a.data| - r
  {
    hide Diff, SeqAt;
    SeqAdvance(irs, p, |a.data|);
    DiffWraps(a.seqNo + |a.data|, b.seqNo);
    DiffOfPositions(irs, p + |a.data|, r);
  }

  /** The first queued segment that begins after ti does. */
  method FindAfter(irs: nat, ghost stream: seq<Byte>, q: seq<Segment>, ghost st: seq<nat>, ghost lo: int, ghost hi: int,
                   ti: Segment, ghost start: nat) returns (k: nat)
    requires InOrder(irs, stream, q, st, lo, hi) && hi <= lo + REACH && lo <= start <= hi
    requires ti.seqNo == SeqAt(irs, start)
    ensures k <= |q|
    ensures forall i :: 0 <= i < k ==> st[i] <= start
    ensures forall i :: k <= i < |q| ==> start < st[i]
  {
    k := 0;
    while k < |q|
      invariant 0 <= k <= |q|
      invariant forall i :: 0 <= i < k ==> st[i] <= start
    {
      DiffOfPositions(irs, st[k], start);
      if Diff(q[k].seqNo, ti.seqNo) > 0 {
        break;
      }
      k := k + 1;
    }
  }

  lemma InOrderTrimmed(irs: nat, stream: seq<Byte>, q: seq<Segment>, st: seq<nat>, lo: int, hi: int, k: nat, n: nat)
    requires InOrder(irs, stream, q, st, lo, hi) && k < |q| && n <= |q[k].data|
    ensures InOrder(irs, stream, q[k := TrimHead(q[k], n)], st[k := st[k] + n], lo, hi)
  {
    TrimHeadGenuine(irs, stream, q[k], st[k], n);
  }

  lemma InOrderRemoved(irs: nat, stream: seq<Byte>, q: seq<Segment>, st: seq<nat>, lo: int, hi: int, k: nat)
    requires InOrder(irs, stream, q, st, lo, hi) && k < |q|
    ensures InOrder(irs, stream, q[..k] + q[k + 1..], st[..k] + st[k + 1..], lo, hi)
  {
    hide Genuine;
  }

  lemma InOrderInserted(irs: nat, stream: seq<Byte>, q: seq<Segment>, st: seq<nat>, lo: int, hi: int, k: nat,
                        ti: Segment, start: nat)
    requires InOrder(irs, stream, q, st, lo, hi) && k <= |q|
    requires Genuine(irs, stream, ti, start) && lo <= start && start + |ti.data| <= hi
    requires forall i :: 0 <= i < k ==> st[i] + |q[i].data| <= start
    requires forall i :: k <= i < |q| ==> start + |ti.data| <= st[i]
    ensures InOrder(irs, stream, q[..k] + [ti] + q[k..], st[..k] + [start] + st[k..], lo, hi)
  {
    hide Genuine;
  }

  /** A segment that the one ending at end leaves nothing of. */
  predicate Gone(start: nat, len: nat, end: nat) {
    start < end && start + len <= end
  }

  /** Drop from the queue at k what ti covers: whole segments, then the head of one more. */
  method TrimFollowing(irs: nat, ghost stream: seq<Byte>, q0: seq<Segment>, ghost st0: seq<nat>, ghost lo: int,
                       ghost hi: int, k: nat, ti: Segment, ghost start: nat)
    returns (q: seq<Segment>, ghost st: seq<nat>)
    requires InOrder(irs, stream, q0, st0, lo, hi) && hi <= lo + REACH && k <= |q0|
    requires Genuine(irs, stream, ti, start) && lo <= start && start + |ti.data| <= hi
    requires forall i :: k <= i < |q0| ==> start <= st0[i]
    ensures InOrder(irs, stream, q, st, lo, hi) && k <= |q|
    ensures q[..k] == q0[..k] && st[..k] == st0[..k]
    ensures forall i :: k <= i < |q| ==> start + |ti.data| <= st[i]
    ensures FinsAtEnd(stream, q0, st0) ==> FinsAtEnd(stream, q, st)
    ensures AnyFin(q) <==> FinLeft(q0, st0, k, start + |ti.data|)
    ensures Worth(q0) ==> Worth(q)
    ensures forall p: nat :: Holds(q, st, p) || Within(start, |ti.data|, p)
                             <==> Holds(q0, st0, p) || Within(start, |ti.data|, p)
  {
    hide Genuine, Holds, Diff, SeqAt, AnyFin, FinLeft;
    q, st := q0, st0;
    FinsUntouched(q0, st0, k, start + |ti.data|);
    while k < |q|
      invariant InOrder(irs, stream, q, st, lo, hi) && k <= |q|
      invariant q[..k] == q0[..k] && st[..k] == st0[..k]
      invariant forall i :: k <= i < |q| ==> start <= st[i]
      invariant FinsAtEnd(stream, q0, st0) ==> FinsAtEnd(stream, q, st)
      invariant FinLeft(q, st, k, start + |ti.data|) <==> FinLeft(q0, st0, k, start + |ti.data|)
      invariant Worth(q0) ==> Worth(q)
      invariant forall p: nat :: Holds(q, st, p) || Within(start, |ti.data|, p)
                                 <==> Holds(q0, st0, p) || Within(start, |ti.data|, p)
      decreases |q|
    {
      EndDiff(irs, stream, ti, start, q[k], st[k]);
      var i := Diff(ti.seqNo + |ti.data|, q[k].seqNo);
      if i <= 0 {
        break;
      }
      if i < |q[k].data| {
        InOrderTrimmed(irs, stream, q, st, lo, hi, k, i);
        HoldsTrimmed(q, st, k, i);
        FinsTrimmed(q, st, k, i, start + |ti.data|);
        q, st := q[k := TrimHead(q[k], i)], st[k := st[k] + i];
        break;
      }
      HoldsRemoved(q, st, k);
      InOrderRemoved(irs, stream, q, st, lo, hi, k);
      FinsRemoved(q, st, k, start + |ti.data|);
      q, st := q[..k] + q[k + 1..], st[..k] + st[k + 1..];
    }
    FinsUntouched(q, st, k, start + |ti.data|);
  }

  /** A queued segment without data is there for its FIN. */
  ghost predicate Worth(q: seq<Segment>) {
    forall i :: 0 <= i < |q| ==> q[i].data != [] || q[i].fin
  }

  /** Some queued segment carries a FIN. */
  predicate AnyFin(q: seq<Segment>) {
    exists i :: 0 <= i < |q| && q[i].fin
  }

  /** Some queued segment carries a FIN, and is before place k or not gone when one ends at end. */
  ghost predicate FinLeft(q: seq<Segment>, st: seq<nat>, k: nat, end: nat)
    requires |st| == |q|
  {
    exists i :: 0 <= i < |q| && q[i].fin && (i < k || !Gone(st[i], |q[i].data|, end))
  }

  lemma FinsUntouched(q: seq<Segment>, st: seq<nat>, k: nat, end: nat)
    requires |st| == |q|
    ensures (forall i :: k <= i < |q| ==> end <= st[i]) ==> (AnyFin(q) <==> FinLeft(q, st, k, end))
  {
  }

  lemma FinsTrimmed(q: seq<Segment>, st: seq<nat>, k: nat, n: nat, end: nat)
    requires |st| == |q| && k < |q| && n < |q[k].data| && st[k] + n == end
    ensures FinLeft(q[k := TrimHead(q[k], n)], st[k := st[k] + n], k, end) <==> FinLeft(q, st, k, end)
  {
    var q', st' := q[k := TrimHead(q[k], n)], st[k := st[k] + n];
    forall i | 0 <= i < |q|
      ensures q'[i].fin == q[i].fin && Gone(st'[i], |q'[i].data|, end) == Gone(st[i], |q[i].data|, end)
    {
    }
  }

  lemma FinsRemoved(q: seq<Segment>, st: seq<nat>, k: nat, end: nat)
    requires |st| == |q| && k < |q| && Gone(st[k], |q[k].data|, end)
    ensures FinLeft(q[..k] + q[k + 1..], st[..k] + st[k + 1..], k, end) <==> FinLeft(q, st, k, end)
  {
    var q', st' := q[..k] + q[k + 1..], st[..k] + st[k + 1..];
    if FinLeft(q, st, k, end) {
      var i :| 0 <= i < |q| && q[i].fin && (i < k || !Gone(st[i], |q[i].data|, end));
      var j := if i < k then i else i - 1;
      assert q'[j] == q[i] && st'[j] == st[i];
    }
    if FinLeft(q', st', k, end) {
      var j :| 0 <= j < |q'| && q'[j].fin && (j < k || !Gone(st'[j], |q'[j].data|, end));
      var i := if j < k then j else j + 1;
      assert q'[j] == q[i] && st'[j] == st[i];
    }
  }

  lemma HoldsTrimmed(q: seq<Segment>, st: seq<nat>, k: nat, n: nat)
    requires |st| == |q| && k < |q| && n <= |q[k].data|
    ensures forall p: nat :: Holds(q, st, p) <==>
              Holds(q[k := TrimHead(q[k], n)], st[k := st[k] + n], p) || Within(st[k], n, p)
  {
    var q', st' := q[k := TrimHead(q[k], n)], st[k := st[k] + n];
    forall p: nat
      ensures Holds(q, st, p) <==> Holds(q', st', p) || Within(st[k], n, p)
    {
      if Holds(q, st, p) {
        var i :| 0 <= i < |q| && Within(st[i], |q[i].data|, p);
        assert i != k ==> Within(st'[i], |q'[i].data|, p);
        assert i == k && !Within(st[k], n, p) ==> Within(st'[k], |q'[k].data|, p);
      }
      if Holds(q', st', p) {
        var i :| 0 <= i < |q'| && Within(st'[i], |q'[i].data|, p);
        assert Within(st[i], |q[i].data|, p);
      }
      if Within(st[k], n, p) { assert Within(st[k], |q[k].data|, p); }
    }
  }

  lemma HoldsRemoved(q: seq<Segment>, st: seq<nat>, k: nat)
    requires |st| == |q| && k < |q|
    ensures forall p: nat :: Holds(q, st, p) <==>
              Holds(q[..k] + q[k + 1..], st[..k] + st[k + 1..], p) || Within(st[k], |q[k].data|, p)
  {
    hide Within;
    var q', st' := q[..k] + q[k + 1..], st[..k] + st[k + 1..];
    forall p: nat
      ensures Holds(q, st, p) <==> Holds(q', st', p) || Within(st[k], |q[k].data|, p)
    {
      if Holds(q, st, p) {
        var i :| 0 <= i < |q| && Within(st[i], |q[i].data|, p);
        if i < k { assert q'[i] == q[i] && st'[i] == st[i]; }
        if i > k { assert q'[i - 1] == q[i] && st'[i - 1] == st[i]; }
      }
      if Holds(q', st', p) {
        var i :| 0 <= i < |q'| && Within(st'[i], |q'[i].data|, p);
        var j := if i < k then i else i + 1;
        assert q[j] == q'[i] && st[j] == st'[i];
      }
    }
  }

  lemma HoldsInserted(q: seq<Segment>, st: seq<nat>, k: nat, ti: Segment, start: nat)
    requires |st| == |q| && k <= |q|
    ensures forall p: nat :: Holds(q[..k] + [ti] + q[k..], st[..k] + [start] + st[k..], p) <==>
              Holds(q, st, p) || Within(start, |ti.data|, p)
  {
    var q', st' := q[..k] + [ti] + q[k..], st[..k] + [start] + st[k..];
    assert q'[..k] + q'[k + 1..] == q && st'[..k] + st'[k + 1..] == st;
    HoldsRemoved(q', st', k);
  }

  lemma FinsInserted(stream: seq<Byte>, q: seq<Segment>, st: seq<nat>, k: nat, ti: Segment, start: nat)
    requires |st| == |q| && k <= |q|
    requires FinsAtEnd(stream, q, st) && FinAtEnd(stream, ti, start)
    ensures FinsAtEnd(stream, q[..k] + [ti] + q[k..], st[..k] + [start] + st[k..])
  {
    hide FinAtEnd;
  }

  lemma AnyFinInserted(q: seq<Segment>, k: nat, ti: Segment)
    requires k <= |q|
    ensures AnyFin(q[..k] + [ti] + q[k..]) <==> AnyFin(q) || ti.fin
  {
    var q' := q[..k] + [ti] + q[k..];
    if AnyFin(q) {
      var i :| 0 <= i < |q| && q[i].fin;
      assert q'[if i < k then i else i + 1] == q[i];
    }
    if ti.fin { assert q'[k] == ti; }
    if AnyFin(q') {
      var j :| 0 <= j < |q'| && q'[j].fin;
      assert j < k ==> q'[j] == q[j];
      assert j > k ==> q'[j] == q[j - 1];
    }
  }

  /** A queued segment that begins no later already holds all of the new one, and more than its first byte's place. */
  ghost predicate Redundant(q: seq<Segment>, st: seq<nat>, start: nat, len: nat)
    requires |st| == |q|
  {
    exists i :: 0 <= i < |q| && st[i] <= start && Reaches(st[i] + |q[i].data|, start, len)
  }

  predicate Reaches(end: nat, start: nat, len: nat) {
    start < end && start + len <= end
  }

  /**
   Where the FINs go: a queued one is lost with its segment if that begins after
   the new one and ends no later; the new one's is lost if the new one is dropped.
   */
  ghost predicate FinKept(q: seq<Segment>, st: seq<nat>, fin: bool, start: nat, len: nat)
    requires |st| == |q|
  {
    || (exists i :: 0 <= i < |q| && q[i].fin && !(start < st[i] && Gone(st[i], |q[i].data|, start + len)))
    || (fin && !Redundant(q, st, start, len))
  }

  lemma FinKeptAt(q: seq<Segment>, st: seq<nat>, fin: bool, start: nat, len: nat, k: nat)
    requires |st| == |q| && k <= |q|
    requires forall i :: 0 <= i < k ==> st[i] <= start
    requires forall i :: k <= i < |q| ==> start < st[i]
    ensures FinKept(q, st, fin, start, len) <==>
            FinLeft(q, st, k, start + len) || (fin && !Redundant(q, st, start, len))
  {
    hide Redundant;
  }

  /** Only the last segment that begins no later can hold all of the new one. */
  lemma RedundantAt(irs: nat, stream: seq<Byte>, q: seq<Segment>, st: seq<nat>, lo: int, hi: int, start: nat, len: nat,
                    k: nat)
    requires InOrder(irs, stream, q, st, lo, hi) && k <= |q|
    requires forall i :: 0 <= i < k ==> st[i] <= start
    requires forall i :: k <= i < |q| ==> start < st[i]
    ensures Redundant(q, st, start, len) <==> k > 0 && Reaches(st[k - 1] + |q[k - 1].data|, start, len)
  {
    hide Genuine;
    forall i | 0 <= i < k - 1 ensures !Reaches(st[i] + |q[i].data|, start, len) {
      assert st[i] + |q[i].data| <= st[k - 1] <= start;
    }
  }

  /** A dropped segment removes no FIN. */
  lemma NothingGone(irs: nat, stream: seq<Byte>, q: seq<Segment>, st: seq<nat>, lo: int, hi: int, end: nat, k: nat)
    requires InOrder(irs, stream, q, st, lo, hi) && 0 < k <= |q| && end <= st[k - 1] + |q[k - 1].data|
    ensures AnyFin(q) <==> FinLeft(q, st, k, end)
  {
    hide Genuine;
    FinsUntouched(q, st, k, end);
  }

  /** A FIN that is lost: five bytes with it are queued, and all ten arrive without it. */
  lemma FinSuperseded(data: seq<Byte>)
    requires |data| == 5
    ensures !FinKept([Segment(6, data, true)], [5], false, 0, |data + data|)
  {
  }

  /** Later segments lose what ti holds, and ti goes in at k. */
  method InsertAt(irs: nat, ghost stream: seq<Byte>, q0: seq<Segment>, ghost st0: seq<nat>, ghost lo: int,
                  ghost hi: int, k: nat, ti: Segment, ghost start: nat) returns (q: seq<Segment>, ghost st: seq<nat>)
    requires InOrder(irs, stream, q0, st0, lo, hi) && hi <= lo + REACH && k <= |q0|
    requires Genuine(irs, stream, ti, start) && lo <= start && start + |ti.data| <= hi
    requires forall i :: 0 <= i < k ==> st0[i] + |q0[i].data| <= start
    requires forall i :: k <= i < |q0| ==> start <= st0[i]
    ensures InOrder(irs, stream, q, st, lo, hi)
    ensures FinsAtEnd(stream, q0, st0) && FinAtEnd(stream, ti, start) ==> FinsAtEnd(stream, q, st)
    ensures AnyFin(q) <==> FinLeft(q0, st0, k, start + |ti.data|) || ti.fin
    ensures Worth(q0) && (ti.data != [] || ti.fin) ==> Worth(q)
    ensures forall p: nat :: Holds(q, st, p) <==> Holds(q0, st0, p) || Within(start, |ti.data|, p)
  {
    hide Genuine, Holds, Within, FinsAtEnd, FinAtEnd, AnyFin, FinLeft;
    q, st := TrimFollowing(irs, stream, q0, st0, lo, hi, k, ti, start);
    forall i | 0 <= i < k ensures st[i] + |q[i].data| <= start {
      assert q[..k][i] == q0[..k][i] && st[..k][i] == st0[..k][i];
    }
    InOrderInserted(irs, stream, q, st, lo, hi, k, ti, start);
    HoldsInserted(q, st, k, ti, start);
    if FinsAtEnd(stream, q, st) && FinAtEnd(stream, ti, start) {
      FinsInserted(stream, q, st, k, ti, start);
    }
    AnyFinInserted(q, k, ti);
    q, st := q[..k] + [ti] + q[k..], st[..k] + [start] + st[k..];
  }

  /**
   The queueing half of tcp_reass: ti loses what an earlier segment already
   holds, later segments lose what ti holds, and ti goes in between. The queue
   stays in order and holds exactly the old bytes and those of ti.
   */
  method Enqueue(irs: nat, ghost stream: seq<Byte>, q0: seq<Segment>, ghost st0: seq<nat>, ghost lo: int, ghost hi: int,
                 ti0: Segment, ghost start0: nat) returns (q: seq<Segment>, ghost st: seq<nat>)
    requires InOrder(irs, stream, q0, st0, lo, hi) && hi <= lo + REACH
    requires Genuine(irs, stream, ti0, start0) && lo <= start0 && start0 + |ti0.data| <= hi
    ensures |st| == |q| && InOrder(irs, stream, q, st, lo, hi)
    ensures FinsAtEnd(stream, q0, st0) && FinAtEnd(stream, ti0, start0) ==> FinsAtEnd(stream, q, st)
    ensures AnyFin(q) <==> FinKept(q0, st0, ti0.fin, start0, |ti0.data|)
    ensures Worth(q0) && (ti0.data != [] || ti0.fin) ==> Worth(q)
    ensures forall p: nat :: Holds(q, st, p) <==> Holds(q0, st0, p) || Within(start0, |ti0.data|, p)
  {
    hide Genuine, Holds, Diff, SeqAt, FinsAtEnd, AnyFin, FinLeft, FinKept, Redundant;
    var ti := ti0;
    ghost var start := start0;
    assert ti.seqNo == SeqAt(irs, start) by { SeqOfGenuine(irs, stream, ti, start); }
    var k := FindAfter(irs, stream, q0, st0, lo, hi, ti, start);
    FinKeptAt(q0, st0, ti0.fin, start0, |ti0.data|, k);
    RedundantAt(irs, stream, q0, st0, lo, hi, start0, |ti0.data|, k);
    if k > 0 {
      EndDiff(irs, stream, q0[k - 1], st0[k - 1], ti, start);
      var i := Diff(q0[k - 1].seqNo + |q0[k - 1].data|, ti.seqNo);
      if i > 0 {
        HeldBy(q0, st0, k - 1);
        if i >= |ti.data| {
          NothingGone(irs, stream, q0, st0, lo, hi, start0 + |ti0.data|, k);
          return q0, st0;
        }
        TrimHeadGenuine(irs, stream, ti, start, i);
        ti, start := TrimHead(ti, i), start + i;
      }
    }
    q, st := InsertAt(irs, stream, q0, st0, lo, hi, k, ti, start);
  }

  lemma SeqOfGenuine(irs: nat, stream: seq<Byte>, s: Segment, start: nat)
    requires Genuine(irs, stream, s, start)
    ensures s.seqNo == SeqAt(irs, start) && start + |s.data| <= |stream|
  {
  }

  lemma HeldBy(q: seq<Segment>, st: seq<nat>, k: nat)
    requires |st| == |q| && k < |q|
    ensures forall p: nat :: Within(st[k], |q[k].data|, p) ==> Holds(q, st, p)
  {
  }
}
