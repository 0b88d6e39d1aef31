/**
 The receiving side of a TCP connection: tcp_input's trimming to the window,
 the two in-sequence paths, tcp_reass, sbappend to the host, and the window
 that tcp_output advertises. Whatever segments arrive, in whatever order and
 overlap, the host is given exactly the peer's bytes, once each and in order, but
 for the places of FINs; and those are before the end only if a FIN was cut.
 */
module TcpReceiver {
  import opened Common
  import opened SocketBuffer
  import opened StreamGaps
  import opened TcpReassembly

  datatype State = SynReceived | Established | CloseWait | FinWait1 | Closing | LastAck | FinWait2 | TimeWait {
    /** The states after a FIN; of these only TIME_WAIT ignores the text of segments. */
    predicate FinSeen() { CloseWait? || Closing? || LastAck? || TimeWait? }

    /** After a FIN has been acted on. */
    function AfterFin(): State {
      match this
      case SynReceived => CloseWait
      case Established => CloseWait
      case FinWait1 => Closing
      case FinWait2 => TimeWait
      case _ => this
    }

    /** After tcp_sockclosed. */
    function Closed(): State {
      match this
      case SynReceived => FinWait1
      case Established => FinWait1
      case CloseWait => LastAck
      case _ => this
    }

    /** After our FIN has been acknowledged. */
    function Acked(): State {
      match this
      case FinWait1 => FinWait2
      case Closing => TimeWait
      case _ => this
    }
  }

  /** How far our own side has closed, and whether the peer's FIN has been seen. */
  datatype Own = NotClosed | FinDue | FinDone
  datatype Sides = Sides(own: Own, peer: bool)

  function SidesOf(s: State): Sides {
    match s
    case SynReceived => Sides(NotClosed, false)
    case Established => Sides(NotClosed, false)
    case CloseWait => Sides(NotClosed, true)
    case FinWait1 => Sides(FinDue, false)
    case Closing => Sides(FinDue, true)
    case LastAck => Sides(FinDue, true)
    case FinWait2 => Sides(FinDone, false)
    case TimeWait => Sides(FinDone, true)
  }

  /**
   Each transition moves one side only: a FIN the peer's, closing and its
   acknowledgement our own. CLOSING is where the FINs crossed, LAST_ACK where the
   peer's came first; neither becomes the other, and no transition goes back.
   */
  lemma Transitions(s: State)
    ensures SidesOf(s.AfterFin()) == SidesOf(s).(peer := true)
    ensures SidesOf(s.Closed()) == SidesOf(s).(own := if SidesOf(s).own.NotClosed? then FinDue else SidesOf(s).own)
    ensures !s.LastAck? ==>
              SidesOf(s.Acked()) == SidesOf(s).(own := if SidesOf(s).own.FinDue? then FinDone else SidesOf(s).own)
    ensures (s.AfterFin().LastAck? <==> s.LastAck?) && (s.Closed().Closing? <==> s.Closing?)
    ensures s.FinSeen() <==> SidesOf(s).peer
    ensures SidesOf(s).peer ==> s.AfterFin() == s
    ensures !SidesOf(s).own.NotClosed? ==> s.Closed() == s
    ensures !SidesOf(s).own.FinDue? || s.LastAck? ==> s.Acked() == s
  {
  }

  const TCP_MAXWIN := 65535

  /** What is left of a segment, and whether its FIN is still to be acted on. */
  datatype Trimmed = Dropped | Kept(seg: Segment, fin: bool) {
    /** It goes on to tcp_reass. */
    predicate Going() { Kept? && (|seg.data| > 0 || fin) }
  }

  function Bit(b: bool): nat { if b then 1 else 0 }

  /** m_adj from the tail; the header's flags stay as they were. */
  function TrimTail(s: Segment, n: nat): Segment
    requires n <= |s.data|
  {
    s.(data := s.data[..|s.data| - n])
  }

  /** Cut off what was received before; nothing left means only an acknowledgement. */
  function TrimLeft(s: Segment, rcvNxt: nat): (r: Trimmed)
    ensures r.Kept?
  {
    var todrop := Diff(rcvNxt, s.seqNo);
    if todrop <= 0 then Kept(s, s.fin)
    else if todrop > |s.data| || (todrop == |s.data| && !s.fin) then Kept(TrimHead(s, |s.data|), false)
    else Kept(TrimHead(s, todrop), s.fin)
  }

  /** Cut off what lies beyond the window. */
  function TrimRight(k: Trimmed, rcvNxt: nat, wnd: nat): Trimmed
    requires k.Kept?
  {
    var todrop := Diff(k.seg.seqNo + |k.seg.data|, rcvNxt + wnd);
    if todrop <= 0 then k
    else if todrop >= |k.seg.data| then
      if wnd == 0 && k.seg.seqNo == rcvNxt then Kept(TrimTail(k.seg, |k.seg.data|), false) else Dropped
    else Kept(TrimTail(k.seg, todrop), false)
  }

  function TrimToWindow(s: Segment, rcvNxt: nat, wnd: nat): Trimmed {
    TrimRight(TrimLeft(s, rcvNxt), rcvNxt, wnd)
  }

  /** Where the kept part begins. */
  function KeptStart(start: nat, len: nat, pos: nat): nat {
    if pos <= start then start else if pos <= start + len then pos else start + len
  }

  lemma LeftSound(irs: nat, stream: seq<Byte>, s: Segment, start: nat, pos: nat)
    requires Genuine(irs, stream, s, start) && -REACH <= start - pos <= REACH
    ensures var k := TrimLeft(s, SeqAt(irs, pos));
            var at := KeptStart(start, |s.data|, pos);
            && Genuine(irs, stream, k.seg, at)
            && at + |k.seg.data| == start + |s.data|
            && k.seg.fin == s.fin
            && (k.fin <==> s.fin && pos <= start + |s.data|)
  {
    hide Diff, SeqAt, Genuine;
    SeqOfGenuine(irs, stream, s, start);
    DiffOfPositions(irs, pos, start);
    var todrop := Diff(SeqAt(irs, pos), s.seqNo);
    if todrop > 0 {
      TrimHeadGenuine(irs, stream, s, start, if todrop > |s.data| then |s.data| else todrop);
    }
  }

  lemma TailGenuine(irs: nat, stream: seq<Byte>, s: Segment, start: nat, n: nat)
    requires Genuine(irs, stream, s, start) && n <= |s.data|
    ensures Genuine(irs, stream, TrimTail(s, n), start)
  {
  }

  /** The segment's end against the right edge of the window. */
  lemma EdgeDiff(irs: nat, stream: seq<Byte>, s: Segment, start: nat, pos: nat, wnd: nat)
    requires Genuine(irs, stream, s, start) && -HALF <= start + |s.data| - (pos + wnd) < HALF
    ensures Diff(s.seqNo + |s.data|, SeqAt(irs, pos) + wnd) == start + |s.data| - (pos + wnd)
  {
    hide Diff, SeqAt;
    SeqAdvance(irs, start, |s.data|);
    SeqAdvance(irs, pos, wnd);
    DiffWraps(s.seqNo + |s.data|, SeqAt(irs, pos) + wnd);
    DiffWraps(SeqAt(irs, start + |s.data|), SeqAt(irs, pos) + wnd);
    DiffOfPositions(irs, start + |s.data|, pos + wnd);
  }

  /**
   Trimming keeps exactly the segment's bytes inside the window, and a FIN is
   acted on only when its segment ended inside the window and was not old.
   */
  lemma TrimSound(irs: nat, stream: seq<Byte>, s: Segment, start: nat, pos: nat, wnd: nat)
    requires Genuine(irs, stream, s, start) && wnd < HALF
    requires -REACH <= start - pos <= REACH && start + |s.data| <= pos + REACH
    ensures var r := TrimToWindow(s, SeqAt(irs, pos), wnd);
            var at := KeptStart(start, |s.data|, pos);
            if r.Dropped? then
              forall p: nat :: Within(start, |s.data|, p) ==> !Within(pos, wnd, p)
            else
              && Genuine(irs, stream, r.seg, at)
              && (|r.seg.data| > 0 || r.fin ==> pos <= at && at + |r.seg.data| <= pos + wnd)
              && (r.fin <==> s.fin && pos <= start + |s.data| <= pos + wnd)
              && r.seg.fin == s.fin
              && forall p: nat :: Within(at, |r.seg.data|, p) <==> Within(start, |s.data|, p) && Within(pos, wnd, p)
  {
    hide Diff, SeqAt, Genuine, TrimLeft;
    LeftSound(irs, stream, s, start, pos);
    var k := TrimLeft(s, SeqAt(irs, pos));
    var at := KeptStart(start, |s.data|, pos);
    SeqOfGenuine(irs, stream, k.seg, at);
    SeqEqual(irs, at, pos);
    if start + |s.data| < pos {
      OldTrimmed(k, SeqAt(irs, pos), wnd);
    } else {
      EdgeDiff(irs, stream, k.seg, at, pos, wnd);
      var todrop := at + |k.seg.data| - (pos + wnd);
      if todrop > 0 {
        TailGenuine(irs, stream, k.seg, at, if todrop > |k.seg.data| then |k.seg.data| else todrop);
      }
    }
  }

  /** Of a segment that was received before, nothing is left to trim. */
  lemma OldTrimmed(k: Trimmed, rcvNxt: nat, wnd: nat)
    requires k.Kept? && k.seg.data == [] && !k.fin && k.seg.seqNo != rcvNxt
    ensures var r := TrimRight(k, rcvNxt, wnd); r == k || r == Dropped
  {
    hide Diff;
  }

  /** A segment that is not old is dropped exactly if it lies beyond the window, unless it begins at a closed one. */
  lemma WhenDropped(irs: nat, stream: seq<Byte>, s: Segment, start: nat, pos: nat, wnd: nat)
    requires Genuine(irs, stream, s, start) && wnd < HALF
    requires -REACH <= start - pos <= REACH && pos <= start + |s.data| <= pos + REACH
    ensures var at := KeptStart(start, |s.data|, pos);
            TrimToWindow(s, SeqAt(irs, pos), wnd).Dropped? <==>
            at >= pos + wnd && start + |s.data| > pos + wnd && !(wnd == 0 && at == pos)
  {
    hide Diff, SeqAt, Genuine, TrimLeft;
    LeftSound(irs, stream, s, start, pos);
    var k := TrimLeft(s, SeqAt(irs, pos));
    var at := KeptStart(start, |s.data|, pos);
    SeqOfGenuine(irs, stream, k.seg, at);
    SeqEqual(irs, at, pos);
    EdgeDiff(irs, stream, k.seg, at, pos, wnd);
  }

  /** The segment carries the peer's FIN and some of its bytes, but not all, are inside the window. */
  ghost predicate CutFin(s: Segment, start: nat, pos: nat, wnd: nat) {
    s.fin && start < pos + wnd < start + |s.data| && 0 < wnd
  }

  /**
   The header that goes on to tcp_reass keeps its FIN even when the tail is cut
   off. So the FIN still marks the end of the stream if and only if the segment
   did not reach beyond the window.
   */
  lemma FinAfterTrim(irs: nat, stream: seq<Byte>, s: Segment, start: nat, pos: nat, wnd: nat)
    requires Genuine(irs, stream, s, start) && FinAtEnd(stream, s, start) && wnd < HALF
    requires -REACH <= start - pos <= REACH && start + |s.data| <= pos + REACH
    ensures var r := TrimToWindow(s, SeqAt(irs, pos), wnd);
            var at := KeptStart(start, |s.data|, pos);
            if r.Kept? && (|r.seg.data| > 0 || r.fin)
            then FinAtEnd(stream, r.seg, at) <==> !CutFin(s, start, pos, wnd)
            else !CutFin(s, start, pos, wnd)
  {
    hide SeqAt, Genuine, TrimToWindow;
    TrimSound(irs, stream, s, start, pos, wnd);
    var r := TrimToWindow(s, SeqAt(irs, pos), wnd);
    var at := KeptStart(start, |s.data|, pos);
    if r.Kept? {
      KeptLength(start, |s.data|, pos, wnd, |r.seg.data|);
    } else if 0 < pos + wnd {
      assert Within(start, |s.data|, pos + wnd - 1) ==> !Within(pos, wnd, pos + wnd - 1);
    }
  }

  /** A part of the segment is kept, or its FIN acted on, and ends beyond the free space. */
  ghost predicate Overruns(s: Segment, start: nat, pos: nat, space: nat, wnd: nat) {
    var lo := if start < pos then pos else start;
    var hi := if start + |s.data| < pos + wnd then start + |s.data| else pos + wnd;
    hi > pos + space && (lo < hi || (s.fin && lo == hi == start + |s.data|))
  }

  /** Some of the segment's text is inside the window, or its FIN is and is not old. */
  ghost predicate Acts(s: Segment, start: nat, pos: nat, wnd: int) {
    var lo := if start < pos then pos else start;
    var hi := if start + |s.data| < pos + wnd then start + |s.data| else pos + wnd;
    lo < hi || (s.fin && pos <= start + |s.data| <= pos + wnd)
  }

  /** How much of a segment is inside the window. */
  ghost function KeptLen(start: nat, len: nat, pos: nat, wnd: int): nat {
    var at := KeptStart(start, len, pos);
    var end := if start + len <= pos + wnd then start + len else pos + wnd;
    if at <= end then end - at else 0
  }

  /** What goes on to tcp_reass, and how much of it, short of an overrun. */
  lemma ActsInside(irs: nat, stream: seq<Byte>, s: Segment, start: nat, pos: nat, space: nat, wnd: nat)
    requires Genuine(irs, stream, s, start) && space <= wnd < HALF && !Overruns(s, start, pos, space, wnd)
    requires -REACH <= start - pos <= REACH && start + |s.data| <= pos + REACH
    ensures var r := TrimToWindow(s, SeqAt(irs, pos), wnd);
            && (r.Going() <==> Acts(s, start, pos, space))
            && (r.Kept? ==> r.seg.fin == s.fin && (r.fin ==> s.fin))
            && (r.Going() ==> |r.seg.data| == KeptLen(start, |s.data|, pos, space))
  {
    hide SeqAt, Genuine, TrimToWindow;
    TrimSound(irs, stream, s, start, pos, wnd);
    var r := TrimToWindow(s, SeqAt(irs, pos), wnd);
    if r.Kept? {
      KeptLength(start, |s.data|, pos, wnd, |r.seg.data|);
    } else {
      NotDroppedInside(s, start, pos, space, wnd);
      FinBeyond(irs, stream, s, start, pos, wnd);
    }
  }

  /** Past the end of the stream every segment is old. */
  lemma AfterTheEnd(s: Segment, start: nat, len: nat, pos: nat, space: nat, wnd: nat)
    requires start + |s.data| <= len < pos
    ensures !Acts(s, start, pos, space) && !Overruns(s, start, pos, space, wnd) && !CutFin(s, start, pos, space)
  {
  }

  /** TrimSound and FinAfterTrim, as the receiver uses them. */
  lemma WindowCut(irs: nat, stream: seq<Byte>, s: Segment, start: nat, pos: nat, wnd: nat)
    requires Genuine(irs, stream, s, start) && FinAtEnd(stream, s, start) && wnd < HALF
    requires -REACH <= start - pos <= REACH && start + |s.data| <= pos + REACH
    ensures var r := TrimToWindow(s, SeqAt(irs, pos), wnd);
            var at := KeptStart(start, |s.data|, pos);
            if r.Dropped? then
              && !CutFin(s, start, pos, wnd)
              && forall p: nat :: Within(start, |s.data|, p) && p < pos + wnd ==> p < pos
            else
              && Genuine(irs, stream, r.seg, at)
              && at + |r.seg.data| <= start + |s.data|
              && (|r.seg.data| > 0 || r.fin ==> pos <= at && at + |r.seg.data| <= pos + wnd)
              && (|r.seg.data| > 0 || r.fin ==> (FinAtEnd(stream, r.seg, at) <==> !CutFin(s, start, pos, wnd)))
              && (start <= pos && CutFin(s, start, pos, wnd) ==>
                    at == pos && |r.seg.data| > 0 && r.seg.fin && at + |r.seg.data| < |stream|)
              && (|r.seg.data| == 0 && !r.fin ==> !CutFin(s, start, pos, wnd))
              && forall p: nat :: p < pos || Within(at, |r.seg.data|, p) <==>
                   p < pos || (Within(start, |s.data|, p) && p < pos + wnd)
  {
    hide SeqAt, Genuine, TrimToWindow;
    TrimSound(irs, stream, s, start, pos, wnd);
    FinAfterTrim(irs, stream, s, start, pos, wnd);
    var r := TrimToWindow(s, SeqAt(irs, pos), wnd);
    if r.Kept? {
      KeptLength(start, |s.data|, pos, wnd, |r.seg.data|);
      SeqOfGenuine(irs, stream, s, start);
    }
  }

  /** Where what is left of a segment ends, against the free space. */
  lemma OverrunSeen(irs: nat, stream: seq<Byte>, s: Segment, start: nat, pos: nat, space: nat, wnd: nat)
    requires Genuine(irs, stream, s, start) && space <= wnd < HALF && space <= REACH
    requires -REACH <= start - pos <= REACH && start + |s.data| <= pos + REACH
    ensures var r := TrimToWindow(s, SeqAt(irs, pos), wnd);
            var at := KeptStart(start, |s.data|, pos);
            if r.Kept? && (|r.seg.data| > 0 || r.fin) then
              && (Overruns(s, start, pos, space, wnd) <==> at + |r.seg.data| > pos + space)
              && Diff(r.seg.seqNo + |r.seg.data|, SeqAt(irs, pos) + space) == at + |r.seg.data| - (pos + space)
            else !Overruns(s, start, pos, space, wnd)
  {
    hide SeqAt, Genuine, TrimToWindow, Diff;
    TrimSound(irs, stream, s, start, pos, wnd);
    var r := TrimToWindow(s, SeqAt(irs, pos), wnd);
    var at := KeptStart(start, |s.data|, pos);
    if r.Kept? {
      KeptLength(start, |s.data|, pos, wnd, |r.seg.data|);
      if |r.seg.data| > 0 || r.fin { EdgeDiff(irs, stream, r.seg, at, pos, space); }
    } else {
      NotDroppedInside(s, start, pos, space, wnd);
      FinBeyond(irs, stream, s, start, pos, wnd);
    }
  }

  /** If some byte is kept, some byte is inside the window. */
  lemma NotDroppedInside(s: Segment, start: nat, pos: nat, space: nat, wnd: nat)
    requires forall p: nat :: Within(start, |s.data|, p) ==> !Within(pos, wnd, p)
    ensures var lo := if start < pos then pos else start;
            var hi := if start + |s.data| < pos + wnd then start + |s.data| else pos + wnd;
            lo >= hi
  {
    var lo := if start < pos then pos else start;
    assert Within(start, |s.data|, lo) ==> !Within(pos, wnd, lo);
  }

  /** A segment without text in the window is dropped only if it ends beyond the window or is old. */
  lemma FinBeyond(irs: nat, stream: seq<Byte>, s: Segment, start: nat, pos: nat, wnd: nat)
    requires Genuine(irs, stream, s, start) && wnd < HALF
    requires -REACH <= start - pos <= REACH && start + |s.data| <= pos + REACH
    requires TrimToWindow(s, SeqAt(irs, pos), wnd).Dropped?
    ensures start + |s.data| < pos || start + |s.data| > pos + wnd
  {
    hide Diff, SeqAt, Genuine, TrimLeft;
    LeftSound(irs, stream, s, start, pos);
    var k := TrimLeft(s, SeqAt(irs, pos));
    var at := KeptStart(start, |s.data|, pos);
    if start + |s.data| >= pos { EdgeDiff(irs, stream, k.seg, at, pos, wnd); }
  }

  /** Short of an overrun the window might as well be the free space. */
  lemma SpaceCut(s: Segment, start: nat, pos: nat, space: nat, wnd: nat)
    requires space <= wnd && !Overruns(s, start, pos, space, wnd)
    ensures CutFin(s, start, pos, space) <==> CutFin(s, start, pos, wnd)
    ensures forall p: nat :: Within(start, |s.data|, p) && pos <= p < pos + wnd ==> p < pos + space
  {
    forall p: nat | Within(start, |s.data|, p) && pos <= p < pos + wnd ensures p < pos + space {
    }
  }

  /** A run of bytes with the same members as the overlap of two has its length. */
  lemma KeptLength(start: nat, len: nat, pos: nat, wnd: nat, kept: nat)
    requires var at := KeptStart(start, len, pos);
             forall p: nat :: Within(at, kept, p) <==> Within(start, len, p) && Within(pos, wnd, p)
    ensures var at := KeptStart(start, len, pos);
            var end := if start + len <= pos + wnd then start + len else pos + wnd;
            at + kept == if at <= end then end else at
  {
    var at := KeptStart(start, len, pos);
    var end := if start + len <= pos + wnd then start + len else pos + wnd;
    assert Within(at, kept, at + kept) <==> Within(start, len, at + kept) && Within(pos, wnd, at + kept);
    if kept > 0 {
      assert Within(at, kept, at + kept - 1) <==> Within(start, len, at + kept - 1) && Within(pos, wnd, at + kept - 1);
    }
    if at < end {
      assert Within(at, kept, end - 1) <==> Within(start, len, end - 1) && Within(pos, wnd, end - 1);
    }
  }

  /** Two bytes and a FIN into a window of one byte: the FIN is kept with the first byte. */
  lemma FinCutShort(a: Byte, b: Byte)
    ensures var s := Segment(1, [a, b], true);
            && Genuine(0, [a, b], s, 0) && FinAtEnd([a, b], s, 0)
            && TrimToWindow(s, SeqAt(0, 0), 1) == Kept(Segment(1, [a], true), false)
  {
    assert [a, b][0..2] == [a, b] && [a, b][..1] == [a];
  }

  /** Received or passed over: before rcv_nxt, or queued. */
  ghost predicate Have(pos: nat, q: seq<Segment>, st: seq<nat>, p: nat)
    requires |st| == |q|
  {
    p < pos || Holds(q, st, p)
  }

  /** What a segment that fits adds to an empty queue. */
  lemma PredictedHas(pos: nat, len: nat, space: int)
    requires len <= space
    ensures forall p: nat :: Have(pos + len, [], [], p) <==>
              Have(pos, [], [], p) || (Within(pos, len, p) && p < pos + space)
  {
  }

  /** Nothing queued begins at pos. */
  ghost predicate Gap(st: seq<nat>, pos: nat) {
    st == [] || pos < st[0]
  }

  /** Then the byte at pos is the first one missing. */
  lemma FirstMissing(irs: nat, stream: seq<Byte>, q: seq<Segment>, st: seq<nat>, pos: nat, hi: int)
    requires InOrder(irs, stream, q, st, pos, hi) && Gap(st, pos)
    ensures forall p: nat :: p < pos ==> Have(pos, q, st, p)
    ensures !Have(pos, q, st, pos)
  {
    assert forall i :: 0 <= i < |q| ==> pos < st[i];
  }

  lemma FrontTaken(irs: nat, stream: seq<Byte>, q: seq<Segment>, st: seq<nat>, pos: nat, hi: int)
    requires InOrder(irs, stream, q, st, pos, hi) && |q| > 0 && st[0] == pos
    ensures InOrder(irs, stream, q[1..], st[1..], pos + |q[0].data|, hi)
    ensures forall p: nat :: Have(pos + |q[0].data|, q[1..], st[1..], p) <==> Have(pos, q, st, p)
    ensures FinsAtEnd(stream, q, st) ==> FinsAtEnd(stream, q[1..], st[1..])
    ensures Worth(q) ==> Worth(q[1..])
  {
    hide Genuine, FinAtEnd;
    HoldsRemoved(q, st, 0);
    assert q[..0] + q[1..] == q[1..] && st[..0] + st[1..] == st[1..];
  }

  lemma GenuineBytes(irs: nat, stream: seq<Byte>, s: Segment, pos: nat)
    requires Genuine(irs, stream, s, pos)
    ensures pos + |s.data| <= |stream| && s.data == stream[pos..pos + |s.data|]
  {
  }

  /** FINs in the queue; what begins at the end of the stream is there for one. */
  lemma FrontFin(irs: nat, stream: seq<Byte>, q: seq<Segment>, st: seq<nat>, pos: nat, hi: int)
    requires InOrder(irs, stream, q, st, pos, hi) && Worth(q) && q != [] && st[0] == pos
    ensures AnyFin(q) <==> q[0].fin || AnyFin(q[1..])
    ensures pos >= |stream| ==> q[0].fin
  {
    assert q == [q[0]] + q[1..];
    if AnyFin(q[1..]) {
      var i :| 0 <= i < |q[1..]| && q[1..][i].fin;
      assert q[i + 1].fin;
    }
    if i :| 0 < i < |q| && q[i].fin {
      assert q[1..][i - 1].fin;
    }
    assert Genuine(irs, stream, q[0], st[0]);
  }

  /** Nothing waits behind the end of the stream. */
  lemma NoneLeft(irs: nat, stream: seq<Byte>, q: seq<Segment>, st: seq<nat>, pos: nat, hi: int)
    requires InOrder(irs, stream, q, st, pos, hi)
    ensures Gap(st, pos) && pos >= |stream| ==> !AnyFin(q)
  {
    if q != [] { assert Genuine(irs, stream, q[0], st[0]); }
  }

  /** If nothing begins at pos, the queue lies behind it. */
  lemma BehindGap(irs: nat, stream: seq<Byte>, q: seq<Segment>, st: seq<nat>, pos: nat, hi: int)
    requires InOrder(irs, stream, q, st, pos, hi) && Gap(st, pos)
    ensures InOrder(irs, stream, q, st, pos + 1, hi + 1)
  {
    hide Genuine;
  }

  lemma InSequenceHas(pos: nat, len: nat)
    ensures forall p: nat :: Have(pos + len, [], [], p) <==> Have(pos, [], [], p) || Within(pos, len, p)
  {
  }

  lemma OnePlaceOn(pos: nat, q: seq<Segment>, st: seq<nat>)
    requires |st| == |q|
    ensures forall p: nat :: Have(pos + 1, q, st, p) <==> Have(pos, q, st, p) || p == pos
  {
  }

  lemma NothingWithin(at: nat, len: nat)
    ensures len == 0 ==> forall p: nat :: !Within(at, len, p)
  {
  }

  lemma FinOfOne(fin: bool, start: nat, len: nat)
    ensures FinKept([], [], fin, start, len) <==> fin
  {
  }

  lemma FinFrom(q: seq<Segment>, st: seq<nat>, fin: bool, start: nat, len: nat)
    requires |st| == |q|
    ensures FinKept(q, st, fin, start, len) ==> AnyFin(q) || fin
  {
  }

  lemma NothingEarly(len: nat, n: nat, n': nat)
    ensures !Early(len, {}) && Unbroken(len, n, {}) && Unbroken(len, n', {})
  {
  }

  /** When a segment breaks the run of bytes. */
  lemma PrefixStep(len: nat, pos: nat, pos': nat, fin: bool, upTo: nat, closed: bool, skipped: set<nat>)
    requires (forall p :: p in skipped ==> p < pos) && upTo <= pos && (!closed ==> upTo == pos)
    requires pos + Bit(fin) <= pos' && (pos' > pos + Bit(fin) ==> pos' - Bit(fin) <= len)
    ensures var skipped' := if fin then skipped + {pos' - 1} else skipped;
            var upTo' := if closed then upTo else pos';
            Unbroken(len, upTo', skipped') <==>
            Unbroken(len, upTo, skipped) && !(Early(len, skipped) && !closed && pos' > pos + Bit(fin))
  {
    if closed {
      assert fin ==> forall q :: q < upTo ==> (q in skipped <==> q in skipped + {pos' - 1});
    } else {
      UnbrokenStep(len, pos, pos' - pos - Bit(fin), fin, skipped);
    }
  }

  /**
   A FIN cut at the window, and what follows: abc with its FIN into one free byte,
   then c with the FIN again. The first goes on as a with the FIN, which takes the
   place of b; the second is in sequence there. The host is given a and c.
   */
  lemma ByteSkipped(a: Byte, b: Byte, c: Byte)
    requires b != c
    ensures var stream, s, t := [a, b, c], Segment(SeqAt(0, 0), [a, b, c], true), Segment(SeqAt(0, 2), [c], true);
            && Genuine(0, stream, s, 0) && FinAtEnd(stream, s, 0) && Genuine(0, stream, t, 2) && FinAtEnd(stream, t, 2)
            && TrimToWindow(s, SeqAt(0, 0), 1) == Kept(Segment(SeqAt(0, 0), [a], true), false)
            && TrimToWindow(t, SeqAt(0, 2), 1) == Kept(t, true)
            && Passed(stream, 2, {1}) == [a] && Unbroken(|stream|, 2, {1})
            && Passed(stream, 4, {1, 3}) == [a, c] && !([a, c] <= stream) && !Unbroken(|stream|, 4, {1, 3})
  {
    var stream := [a, b, c];
    assert stream[0..3] == stream && stream[2..3] == [c] && stream[..1] == [a];
    assert Passed(stream, 1, {1}) == [a];
    assert Passed(stream, 1, {1, 3}) == [a] && Passed(stream, 2, {1, 3}) == [a] && Passed(stream, 3, {1, 3}) == [a, c];
    assert 1 in {1, 3} && 2 !in {1, 3};
    assert [a, c][1] != stream[1];
  }

  lemma Widened(irs: nat, stream: seq<Byte>, q: seq<Segment>, st: seq<nat>, lo: int, hi: int, hi': int)
    requires InOrder(irs, stream, q, st, lo, hi) && hi <= hi'
    ensures InOrder(irs, stream, q, st, lo, hi')
  {
    hide Genuine;
  }

  lemma FrontGenuine(irs: nat, stream: seq<Byte>, q: seq<Segment>, st: seq<nat>, pos: nat, hi: int)
    requires InOrder(irs, stream, q, st, pos, hi) && |q| > 0
    ensures |st| == |q| && Genuine(irs, stream, q[0], st[0]) && pos <= st[0] && st[0] + |q[0].data| <= hi
    ensures st[0] + |q[0].data| <= |stream|
    ensures FinsAtEnd(stream, q, st) ==> FinAtEnd(stream, q[0], st[0])
  {
  }

  /** The first queued segment begins at rcv_nxt exactly when its sequence number says so. */
  lemma FrontPlace(irs: nat, stream: seq<Byte>, q: seq<Segment>, st: seq<nat>, pos: nat, hi: int)
    requires InOrder(irs, stream, q, st, pos, hi) && |q| > 0 && hi <= pos + REACH
    ensures pos <= st[0] && (q[0].seqNo == SeqAt(irs, pos) <==> st[0] == pos)
  {
    hide SeqAt;
    FrontGenuine(irs, stream, q, st, pos, hi);
    SeqEqual(irs, st[0], pos);
  }

  /** The places of two sequence numbers, as an unsigned difference. */
  lemma GapOfPositions(irs: nat, p: nat, q: nat)
    ensures (SeqAt(irs, p) - SeqAt(irs, q)) % MOD == (p - q) % MOD
    ensures Diff(SeqAt(irs, p), SeqAt(irs, q)) == Diff(p, q)
  {
    var a, b := (irs + 1 + p) / MOD, (irs + 1 + q) / MOD;
    assert SeqAt(irs, p) - SeqAt(irs, q) == (p - q) - MOD * (a - b);
    TurnsOut(p - q, a - b);
  }

  lemma TurnsOut(x: int, k: int)
    ensures (x - MOD * k) % MOD == x % MOD
  {
  }

  /**
   The promised edge is not so far behind rcv_nxt that its signed distance turns
   positive and beyond the free space.
   */
  predicate InSight(pos: nat, advPos: nat, space: nat) {
    var behind := (pos - advPos) % MOD;
    behind <= HALF || MOD - behind <= space
  }

  /** The receive window is the free space exactly as long as that holds. */
  lemma WindowIsSpace(pos: nat, advPos: nat, space: nat)
    requires advPos <= pos + space && space < HALF
    ensures Diff(advPos, pos) <= space <==> InSight(pos, advPos, space)
  {
  }

  /**
   A state in which it is not: rcv_nxt is 2^31 + 1 bytes past the promised edge
   and one byte is free, so the window is 2^31 - 1 and two bytes are kept whole.
   */
  lemma WindowTurns(a: Byte, b: Byte)
    ensures var pos, s := HALF + 1, Segment(SeqAt(0, HALF + 1), [a, b], false);
            && !InSight(pos, 0, 1)
            && Diff(SeqAt(0, 0), SeqAt(0, pos)) == HALF - 1
            && TrimToWindow(s, SeqAt(0, pos), HALF - 1) == Kept(s, false)
            && Overruns(s, pos, pos, 1, HALF - 1)
  {
  }

  /** The window and the promised edge that tcp_output works out, where a long has more than 32 bits. */
  function NewEdge(rcvNxt: nat, rcvAdv: nat, usable: int): (r: (int, int))
    ensures r.0 >= usable
  {
    var promised := (rcvAdv - rcvNxt) % MOD;
    var win := if usable < promised then promised else usable;
    (win, if win > 0 && Diff(rcvNxt + win, rcvAdv) > 0 then (rcvNxt + win) % MOD else rcvAdv)
  }

  /** In places of the stream: the edge moves exactly if the usable space reaches past the unsigned distance to it. */
  lemma EdgeMoves(irs: nat, nxt: nat, adv: nat, usable: nat)
    requires usable <= TCP_MAXWIN
    ensures var promised := (adv - nxt) % MOD;
            NewEdge(SeqAt(irs, nxt), SeqAt(irs, adv), usable) ==
            if usable > promised then (usable, SeqAt(irs, nxt + usable)) else (promised, SeqAt(irs, adv))
  {
    hide SeqAt, Diff;
    GapOfPositions(irs, adv, nxt);
    var promised := (adv - nxt) % MOD;
    var win := if usable < promised then promised else usable;
    SeqAdvance(irs, nxt, win);
    DiffWraps(SeqAt(irs, nxt) + win, SeqAt(irs, adv));
    GapOfPositions(irs, nxt + win, adv);
    EdgeDistance(nxt, adv, win);
  }

  lemma EdgeDistance(nxt: nat, adv: nat, win: nat)
    requires var promised := (adv - nxt) % MOD; promised <= win < promised + HALF
    ensures Diff(nxt + win, adv) == win - (adv - nxt) % MOD
  {
  }

  /**
   A state in which the edge is stuck: rcv_nxt is one byte past it and the whole
   buffer is free, yet it does not move, and the window field says 65535.
   */
  lemma EdgeStuck()
    ensures NewEdge(SeqAt(0, 1), SeqAt(0, 0), 8192) == (MOD - 1, SeqAt(0, 0)) && (MOD - 1) % 65536 == 65535
  {
  }

  /** What has become of a segment: it is taken, or stopped where the source would store more than there is room for. */
  datatype Outcome = Taken(fin: bool) | Overrun

  class Connection {
    const irs: nat
    const sb: SBuf
    ghost const stream: seq<Byte>
    var state: State
    // SS_FCANTSENDMORE and SS_FWDRAIN
    var hostClosed: bool
    var draining: bool
    var rcvNxt: nat
    var rcvAdv: nat
    var queue: seq<Segment>
    ghost var starts: seq<nat>
    // the places of rcv_nxt and of the advertised right edge, and of every acknowledgement sent
    ghost var pos: nat
    ghost var advPos: nat
    ghost var acks: set<nat>
    // the places of FINs acted on, what the host took, and how far that goes with the buffer
    ghost var skipped: set<nat>
    ghost var out: seq<Byte>
    ghost var upTo: nat
    // no segment with a FIN has been cut at the window's edge
    ghost var finWhole: bool

    /** Queued data fits the buffer. */
    ghost function Edge(): int
      reads this`pos, sb
    {
      pos + sb.Space()
    }

    /** The 32-bit numbers and the places they stand for. */
    ghost predicate Numbers()
      reads this`rcvNxt, this`rcvAdv, this`pos, this`advPos, this`acks, sb
    {
      && rcvNxt == SeqAt(irs, pos)
      && rcvAdv == SeqAt(irs, advPos)
      && advPos <= pos + sb.Space() && advPos <= pos + TCP_MAXWIN
      && forall a :: a in acks ==> a <= pos
    }

    /** What waits: queued in order, within the free space. */
    ghost predicate Stored()
      reads this`pos, this`queue, this`starts, this`finWhole, sb, sb.data
    {
      && sb.Valid() && sb.data.Length <= MAX_BUFFER
      && |starts| == |queue| && InOrder(irs, stream, queue, starts, pos, Edge()) && Worth(queue)
      && (finWhole ==> FinsAtEnd(stream, queue, starts))
    }

    /** What has been handed on: the stream's bytes but for the places that FINs took, up to when the host closed. */
    ghost predicate Handed()
      reads this`pos, this`skipped, this`upTo, this`out, this`hostClosed, this`finWhole, sb, sb.data
    {
      && sb.Valid()
      && pos <= |stream| + 1 && (pos > |stream| ==> |stream| in skipped)
      && (forall p :: p in skipped ==> p < pos) && (finWhole ==> skipped <= {|stream|})
      && upTo <= pos && (!hostClosed ==> upTo == pos)
      && out + sb.Contents() == Passed(stream, upTo, skipped)
    }

    /** A FIN has been acted on in the states after one, and the host does not close before. */
    ghost predicate Phase()
      reads this`state, this`skipped, this`hostClosed, this`draining
    {
      && (skipped != {} <==> state.FinSeen()) && (draining ==> state.FinSeen())
      && (hostClosed ==> !state.SynReceived? && !state.Established?)
    }

    /** What every step keeps, but for the order to hand queued data on. */
    ghost predicate Inv()
      reads this, sb, sb.data
    {
      Numbers() && Stored() && Handed() && Phase()
    }

    ghost predicate Valid()
      reads this, sb, sb.data
    {
      Inv() && (state.Established? ==> Gap(starts, pos))
    }

    /** What the host and the buffer have are the first bytes of the stream, whatever those are. */
    ghost predicate Prefix()
      reads this`upTo, this`skipped
    {
      Unbroken(|stream|, upTo, skipped)
    }

    constructor (irs: nat, buffer: nat, ghost stream: seq<Byte>)
      requires 0 < buffer <= MAX_BUFFER
      ensures Valid() && fresh(sb) && fresh(sb.data)
      ensures this.irs == irs && this.stream == stream && pos == 0 && queue == [] && out == [] && finWhole
    {
      this.irs := irs;
      this.stream := stream;
      var b := new SBuf.Reserve(buffer);
      sb := b;
      state, hostClosed, draining := SynReceived, false, false;
      rcvNxt, rcvAdv := SeqAt(irs, 0), SeqAt(irs, 0);
      queue, starts := [], [];
      pos, advPos, acks, skipped, out, upTo, finWhole := 0, 0, {}, {}, [], 0, true;
    }

    /** sbappend: straight to the host if nothing is waiting, the rest into the buffer. */
    method HostAppend(m: seq<Byte>)
      requires sb.Valid() && |m| <= sb.Space()
      modifies this`out, sb, sb.data
      ensures sb.Valid() && sb.data == old(sb.data)
      ensures out + sb.Contents() == old(out + sb.Contents()) + m
      ensures sb.Space() >= old(sb.Space()) - |m|
    {
      hide SBuf.Contents;
      if |m| == 0 {
        return;
      }
      var ret: int := 0;
      if sb.cc == 0 {
        ret :| -1 <= ret <= |m|;
      }
      if ret <= 0 {
        sb.Append(m);
      } else {
        out := out + m[..ret];
        if ret != |m| {
          sb.Append(m[ret..]);
        }
      }
    }

    /** Bytes from rcv_nxt on go to the host, or nowhere if it has closed. */
    method HandOn(m: seq<Byte>)
      requires Handed() && pos + |m| <= |stream| && m == stream[pos..pos + |m|] && |m| <= sb.Space()
      modifies this`pos, this`upTo, this`out, sb, sb.data
      ensures Handed() && sb.Valid() && sb.data == old(sb.data) && pos == old(pos) + |m|
      ensures upTo == if hostClosed then old(upTo) else pos
      ensures sb.Space() >= old(sb.Space()) - |m|
    {
      hide SBuf.Contents, SBuf.Valid, Passed;
      PassedRun(stream, pos, |m|, skipped);
      pos := pos + |m|;
      if !hostClosed {
        HostAppend(m);
        upTo := pos;
      }
    }

    /** One turn of the loop that hands on queued data: the first segment, which begins at rcv_nxt. */
    method TakeFront() returns (fin: bool)
      requires Inv() && !state.SynReceived? && queue != [] && starts[0] == pos
      modifies this`rcvNxt, this`queue, this`starts, this`pos, this`upTo, this`out, sb, sb.data
      ensures Inv() && sb.data == old(sb.data)
      ensures queue == old(queue[1..]) && starts == old(starts[1..]) && fin == old(queue[0].fin)
      ensures pos == old(pos + |queue[0].data|) <= |stream|
      ensures upTo == if hostClosed then old(upTo) else pos
      ensures forall p: nat :: Have(pos, queue, starts, p) <==> old(Have(pos, queue, starts, p))
      ensures finWhole && fin ==> pos == |stream|
    {
      hide InOrder, Genuine, SeqAt, Holds, SBuf.Contents, SBuf.Valid, FinsAtEnd, Handed, Phase;
      ghost var hi := Edge();
      var s := queue[0];
      FrontGenuine(irs, stream, queue, starts, pos, hi);
      FrontTaken(irs, stream, queue, starts, pos, hi);
      GenuineBytes(irs, stream, s, pos);
      SeqAdvance(irs, pos, |s.data|);
      rcvNxt := (rcvNxt + |s.data|) % MOD;
      fin := s.fin;
      queue, starts := queue[1..], starts[1..];
      HandOn(s.data);
      Widened(irs, stream, queue, starts, pos, hi, Edge());
    }

    /** The end of tcp_reass: hand on what is queued from rcv_nxt on. */
    method Present() returns (fin: bool)
      requires Inv() && !state.TimeWait?
      modifies this`rcvNxt, this`queue, this`starts, this`pos, this`upTo, this`out, sb, sb.data
      ensures Inv() && sb.data == old(sb.data)
      ensures forall p: nat :: Have(pos, queue, starts, p) <==> old(Have(pos, queue, starts, p))
      ensures pos >= old(pos) && upTo == (if hostClosed then old(upTo) else pos)
      ensures state.SynReceived? ==> !fin && pos == old(pos)
      ensures !state.SynReceived? ==> Gap(starts, pos)
      ensures fin ==> pos <= |stream|
      ensures fin || AnyFin(queue) ==> old(AnyFin(queue))
      ensures finWhole && !state.SynReceived? ==> (fin <==> old(AnyFin(queue)) && pos >= |stream|)
    {
      hide Genuine, SeqAt, Holds, SBuf.Contents, SBuf.Valid, Handed, Phase, InOrder, AnyFin, FinsAtEnd, Worth;
      fin := false;
      assert upTo == if hostClosed then old(upTo) else pos by { UpToPos(); }
      if state.SynReceived? {
        return;
      }
      while queue != [] && queue[0].seqNo == rcvNxt
        invariant Inv() && sb.data == old(sb.data)
        invariant forall p: nat :: Have(pos, queue, starts, p) <==> old(Have(pos, queue, starts, p))
        invariant pos >= old(pos) && upTo == (if hostClosed then old(upTo) else pos)
        invariant fin ==> pos <= |stream|
        invariant finWhole && fin ==> pos == |stream|
        invariant fin || AnyFin(queue) ==> old(AnyFin(queue))
        invariant finWhole && old(AnyFin(queue)) ==> fin || AnyFin(queue)
        decreases |queue|
      {
        FrontPlace(irs, stream, queue, starts, pos, Edge());
        FrontFin(irs, stream, queue, starts, pos, Edge());
        fin := TakeFront();
      }
      if queue != [] {
        FrontPlace(irs, stream, queue, starts, pos, Edge());
      }
      NoneLeft(irs, stream, queue, starts, pos, Edge());
    }

    lemma UpToPos()
      requires Handed()
      ensures upTo == if hostClosed then upTo else pos
    {
    }

    /** tcp_reass: queue the segment, then hand on what has become in sequence. */
    method Reass(ti: Segment, ghost start: nat) returns (fin: bool)
      requires Inv() && !state.TimeWait? && (ti.data != [] || ti.fin)
      requires Genuine(irs, stream, ti, start) && pos <= start && start + |ti.data| <= Edge()
      requires finWhole ==> FinAtEnd(stream, ti, start)
      modifies this`rcvNxt, this`queue, this`starts, this`pos, this`upTo, this`out, sb, sb.data
      ensures Inv() && sb.data == old(sb.data)
      ensures forall p: nat :: Have(pos, queue, starts, p) <==>
                old(Have(pos, queue, starts, p)) || Within(start, |ti.data|, p)
      ensures pos >= old(pos) && upTo == (if hostClosed then old(upTo) else pos)
      ensures state.SynReceived? ==> !fin && pos == old(pos)
      ensures !state.SynReceived? ==> Gap(starts, pos)
      ensures fin ==> pos <= |stream|
      ensures fin || AnyFin(queue) ==> old(AnyFin(queue)) || ti.fin
      ensures finWhole && !state.SynReceived? ==>
                (fin <==> old(FinKept(queue, starts, ti.fin, start, |ti.data|)) && pos >= |stream|)
    {
      hide Genuine, SeqAt, Holds, SBuf.Contents, SBuf.Valid, Within, Handed, Phase, InOrder, AnyFin, FinsAtEnd, FinKept,
           Worth;
      FinFrom(queue, starts, ti.fin, start, |ti.data|);
      queue, starts := Enqueue(irs, stream, queue, starts, pos, Edge(), ti, start);
      label queued:
      assert forall p: nat :: old@queued(Have(pos, queue, starts, p)) <==>
                old(Have(pos, queue, starts, p)) || Within(start, |ti.data|, p);
      fin := Present();
    }

    /** A segment that begins at rcv_nxt when nothing is queued goes straight on. */
    method TakeInSequence(ti: Segment) returns (fin: bool)
      requires Inv() && state.Established? && queue == []
      requires Genuine(irs, stream, ti, pos) && pos + |ti.data| <= Edge()
      requires finWhole ==> FinAtEnd(stream, ti, pos)
      modifies this`rcvNxt, this`pos, this`upTo, this`out, sb, sb.data
      ensures Inv() && sb.data == old(sb.data) && fin == ti.fin
      ensures pos == old(pos) + |ti.data| <= |stream| && upTo == pos
      ensures finWhole && fin ==> pos == |stream|
    {
      hide Genuine, SeqAt, Holds, SBuf.Contents, SBuf.Valid, Handed;
      SeqOfGenuine(irs, stream, ti, pos);
      GenuineBytes(irs, stream, ti, pos);
      SeqAdvance(irs, pos, |ti.data|);
      rcvNxt := (rcvNxt + |ti.data|) % MOD;
      fin := ti.fin;
      HandOn(ti.data);
    }

    /** rcv_wnd: the buffer's free space, but not less than what was advertised. */
    method Window() returns (wnd: nat)
      requires Inv()
      ensures 0 <= sb.Space() <= wnd < HALF
      ensures wnd == sb.Space() <==> InSight(pos, advPos, sb.Space())
      ensures !InSight(pos, advPos, sb.Space()) ==> wnd == MOD - (pos - advPos) % MOD
    {
      hide SeqAt, SBuf.Contents, Handed;
      GapOfPositions(irs, advPos, pos);
      WindowIsSpace(pos, advPos, sb.Space());
      var win := sb.Space();
      if win < 0 {
        win := 0;
      }
      var adv := Diff(rcvAdv, rcvNxt);
      wnd := if win > adv then win else adv;
    }

    /** The place at rcv_nxt is passed over. */
    ghost method PassOver()
      requires Handed() && pos <= |stream| && (finWhole ==> pos == |stream|)
      modifies this`pos, this`skipped, this`upTo
      ensures Handed() && pos == old(pos) + 1 && skipped == old(skipped) + {old(pos)}
      ensures upTo == if hostClosed then old(upTo) else pos
    {
      hide SBuf.Contents, SBuf.Valid, Passed;
      PassedOver(stream, pos, skipped);
      PassedBefore(stream, upTo, skipped, pos);
      skipped, pos, upTo := skipped + {pos}, pos + 1, if hostClosed then upTo else pos + 1;
      assert sb.Contents() == old(sb.Contents());
    }

    /** sofwdrain: the host is closed once it has taken what waits. */
    method CloseWhenDrained()
      requires Handed() && Phase() && state.FinSeen()
      modifies this`hostClosed, this`draining
      ensures Handed() && Phase() && hostClosed == (old(hostClosed) || sb.cc == 0)
      ensures draining == (old(draining) || sb.cc != 0)
    {
      hide SBuf.Contents, SBuf.Valid, Passed;
      if sb.cc != 0 {
        draining := true;
      } else {
        hostClosed := true;
      }
      assert sb.Contents() == old(sb.Contents());
    }

    /** A FIN takes the sequence number at rcv_nxt. */
    method TakeFin()
      requires Inv() && !state.SynReceived? && !state.TimeWait? && Gap(starts, pos)
      requires pos <= |stream| && (finWhole ==> pos == |stream|)
      modifies this`rcvNxt, this`state, this`pos, this`skipped, this`upTo, this`hostClosed, this`draining
      ensures Valid() && state == old(state).AfterFin()
      ensures pos == old(pos) + 1 && skipped == old(skipped) + {old(pos)}
      ensures hostClosed == (old(hostClosed) || sb.cc == 0) && draining == (old(draining) || sb.cc != 0)
      ensures upTo == if old(hostClosed) then old(upTo) else pos
    {
      hide SeqAt, InOrder, FinsAtEnd, Worth, SBuf.Contents, SBuf.Valid, Handed;
      SeqAdvance(irs, pos, 1);
      BehindGap(irs, stream, queue, starts, pos, Edge());
      PassOver();
      rcvNxt := (rcvNxt + 1) % MOD;
      state := state.AfterFin();
      CloseWhenDrained();
    }

    /** TCP_REASS: in sequence, or through the queue. */
    method Merge(ti: Segment, ghost at: nat) returns (fin: bool)
      requires Valid() && !state.TimeWait? && (ti.data != [] || ti.fin)
      requires Genuine(irs, stream, ti, at) && pos <= at && at + |ti.data| <= Edge()
      requires finWhole ==> FinAtEnd(stream, ti, at)
      modifies this`rcvNxt, this`queue, this`starts, this`pos, this`upTo, this`out, sb, sb.data
      ensures Inv() && sb.data == old(sb.data)
      ensures forall p: nat :: Have(pos, queue, starts, p) <==>
                old(Have(pos, queue, starts, p)) || Within(at, |ti.data|, p)
      ensures pos >= old(pos) && upTo == (if hostClosed then old(upTo) else pos)
      ensures state.SynReceived? ==> !fin && pos == old(pos)
      ensures !state.SynReceived? ==>
                && Gap(starts, pos)
                && (pos > old(pos) <==> old(Have(pos, queue, starts, pos)) || Within(at, |ti.data|, old(pos)))
      ensures fin ==> pos <= |stream|
      ensures fin || AnyFin(queue) ==> old(AnyFin(queue)) || ti.fin
      ensures finWhole && !state.SynReceived? ==>
                (fin <==> old(FinKept(queue, starts, ti.fin, at, |ti.data|)) && pos >= |stream|)
      ensures old(state).Established? && old(queue) == [] && at == old(pos) && ti.data != [] ==>
                fin == ti.fin && pos == at + |ti.data|
    {
      hide Genuine, SeqAt, SBuf.Contents, SBuf.Valid, InOrder, FinsAtEnd, Handed, Have, Within, FinKept, Worth,
           AnyFin;
      SeqOfGenuine(irs, stream, ti, at);
      SeqEqual(irs, at, pos);
      if ti.seqNo == rcvNxt && queue == [] && state.Established? {
        InSequenceHas(pos, |ti.data|);
        FinOfOne(ti.fin, at, |ti.data|);
        fin := TakeInSequence(ti);
      } else {
        fin := Reass(ti, at);
      }
      if !state.SynReceived? {
        FirstMissing(irs, stream, queue, starts, pos, Edge());
      }
    }

    /** Process the segment text, if there is any or a FIN; then the FIN, if one is reported. */
    method Accept(k: Trimmed, ghost at: nat) returns (fin: bool)
      requires Valid() && !state.TimeWait? && k.Kept? && (k.fin ==> k.seg.fin) && Genuine(irs, stream, k.seg, at)
      requires k.Going() ==> pos <= at && at + |k.seg.data| <= Edge()
      requires finWhole && k.Going() ==> FinAtEnd(stream, k.seg, at)
      modifies this`rcvNxt, this`queue, this`starts, this`pos, this`upTo, this`out, this`state, this`skipped,
               this`hostClosed, this`draining, sb, sb.data
      ensures Valid() && sb.data == old(sb.data)
      ensures !k.Going() ==> !fin && unchanged(this, sb, sb.data)
      ensures state == if fin then old(state).AfterFin() else old(state)
      ensures pos >= old(pos) + Bit(fin)
      ensures skipped == if fin then old(skipped) + {pos - 1} else old(skipped)
      ensures hostClosed == (old(hostClosed) || (fin && sb.cc == 0))
      ensures upTo == if old(hostClosed) then old(upTo) else pos
      ensures old(state).SynReceived? ==> !fin && pos == old(pos)
      ensures forall p: nat :: Have(pos, queue, starts, p) <==>
                old(Have(pos, queue, starts, p)) || Within(at, |k.seg.data|, p) || (fin && p == pos - 1)
      ensures k.Going() && !old(state).SynReceived? ==>
                (pos - Bit(fin) > old(pos) <==>
                 old(Have(pos, queue, starts, pos)) || Within(at, |k.seg.data|, old(pos)))
      ensures fin || AnyFin(queue) ==> old(AnyFin(queue)) || k.seg.fin
      ensures finWhole && !old(state).SynReceived? ==>
                (fin <==> k.Going() && old(FinKept(queue, starts, k.seg.fin, at, |k.seg.data|)) && pos >= |stream|)
      ensures old(state).Established? && old(queue) == [] && at == old(pos) && |k.seg.data| > 0 && k.seg.fin ==>
                fin && pos == at + |k.seg.data| + 1
    {
      hide Genuine, SeqAt, SBuf.Contents, SBuf.Valid, InOrder, FinsAtEnd, Handed, Phase, Have, FinKept, Worth,
           FinAtEnd, Stored, AnyFin;
      fin := false;
      assert upTo == (if hostClosed then upTo else pos) by { UpToPos(); }
      if !k.Going() {
        NothingWithin(at, |k.seg.data|);
        return;
      }
      fin := Merge(k.seg, at);
      if fin {
        Queued();
        ghost var m, q, st := pos, queue, starts;
        OnePlaceOn(m, q, st);
        TakeFin();
        assert pos == m + 1 && queue == q && starts == st;
        assert forall p: nat :: Have(pos, queue, starts, p) <==> Have(m, q, st, p) || p == pos - 1;
      }
    }

    /** Remember whether a FIN has been cut. */
    ghost method NoteCut(seg: Segment, start: nat, wnd: nat)
      requires Valid()
      modifies this`finWhole
      ensures Valid() && finWhole == (old(finWhole) && !CutFin(seg, start, pos, wnd))
    {
      hide Genuine, SBuf.Contents, SBuf.Valid, InOrder, FinsAtEnd, Gap, Numbers, CutFin, Passed, Phase;
      finWhole := finWhole && !CutFin(seg, start, pos, wnd);
      assert sb.Contents() == old(sb.Contents());
    }

    /** The window as the places of rcv_nxt and the promised edge make it. */
    ghost function WindowSize(): nat
      reads this, sb, sb.data
      requires sb.Valid()
    {
      if InSight(pos, advPos, sb.Space()) then sb.Space() else MOD - (pos - advPos) % MOD
    }

    /** The place has been received or passed over. */
    ghost predicate Has(p: nat)
      reads this`pos, this`queue, this`starts
    {
      |starts| == |queue| && Have(pos, queue, starts, p)
    }

    /** The segment goes on to tcp_reass, and the byte at rcv_nxt is in it or waits in the queue. */
    ghost predicate Reached(seg: Segment, start: nat)
      reads this`pos, this`queue, this`starts, sb
    {
      Acts(seg, start, pos, sb.Space()) && (Has(pos) || (Within(start, |seg.data|, pos) && 0 < sb.Space()))
    }

    /** Accept what the window leaves of a segment, when that is all inside the free space. */
    method AcceptInside(k: Trimmed, ghost seg: Segment, ghost start: nat, ghost wnd: nat) returns (fin: bool)
      requires Valid() && !state.TimeWait? && Genuine(irs, stream, seg, start) && FinAtEnd(stream, seg, start)
      requires -REACH <= start - pos <= REACH && start + |seg.data| <= pos + REACH
      requires 0 <= sb.Space() <= wnd < HALF && !Overruns(seg, start, pos, sb.Space(), wnd)
      requires k == TrimToWindow(seg, rcvNxt, wnd)
      modifies this`rcvNxt, this`queue, this`starts, this`pos, this`upTo, this`out, this`state, this`skipped,
               this`hostClosed, this`draining, this`finWhole, sb, sb.data
      ensures Valid() && sb.data == old(sb.data)
      ensures !old(Acts(seg, start, pos, sb.Space())) ==>
                && !fin && state == old(state) && pos == old(pos) && queue == old(queue)
                && out == old(out) && upTo == old(upTo)
      ensures state == (if fin then old(state).AfterFin() else old(state))
      ensures pos >= old(pos) + Bit(fin)
      ensures skipped == (if fin then old(skipped) + {pos - 1} else old(skipped))
      ensures hostClosed == (old(hostClosed) || (fin && sb.cc == 0))
      ensures upTo == (if old(hostClosed) then old(upTo) else pos)
      ensures finWhole == (old(finWhole) && !CutFin(seg, start, old(pos), old(sb.Space())))
      ensures forall p: nat :: Have(pos, queue, starts, p) <==>
                || old(Have(pos, queue, starts, p)) || (fin && p == pos - 1)
                || (Within(start, |seg.data|, p) && p < old(pos + sb.Space()))
      ensures if old(state).SynReceived? then pos == old(pos)
              else pos - Bit(fin) > old(pos) <==> old(Reached(seg, start))
      ensures fin || AnyFin(queue) ==> old(AnyFin(queue)) || seg.fin
      ensures !old(state).SynReceived? && finWhole ==>
                (fin <==>
                 && Acts(seg, start, old(pos), old(sb.Space())) && pos >= |stream|
                 && old(FinKept(queue, starts, seg.fin, KeptStart(start, |seg.data|, pos),
                                KeptLen(start, |seg.data|, pos, sb.Space()))))
      ensures (&& old(state).Established? && old(queue) == [] && start <= old(pos)
               && CutFin(seg, start, old(pos), old(sb.Space()))) ==> fin && pos <= |stream|
    {
      hide Genuine, SeqAt, Holds, SBuf.Contents, SBuf.Valid, TrimToWindow, Within, CutFin, KeptStart, KeptLen, FinAtEnd,
           FinsAtEnd, InOrder, Gap, Overruns, InSight, Diff, Stored, Handed, Phase, Acts, FinKept,
           AnyFin;
      SpaceLeft();
      Queued();
      WindowCut(irs, stream, seg, start, pos, wnd);
      OverrunSeen(irs, stream, seg, start, pos, sb.Space(), wnd);
      SpaceCut(seg, start, pos, sb.Space(), wnd);
      InsideSpace(seg, start, pos, sb.Space(), wnd);
      ActsInside(irs, stream, seg, start, pos, sb.Space(), wnd);
      fin := false;
      if k.Kept? {
        NoteCut(seg, start, wnd);
        fin := Accept(k, KeptStart(start, |seg.data|, pos));
      } else {
        UpToPos();
      }
    }

    /**
     tcp_input's data path, for a segment of the peer's stream within a quarter of
     the number space of rcv_nxt. The places received are those received before,
     the segment's inside the free space and that of a FIN acted on, no others. It
     stops short exactly when the window is wrong and something is kept that the
     free space does not hold. Only in TIME_WAIT is the text of a segment ignored;
     once rcv_nxt is past the end of the stream, it is old.
     */
    method Input(seg: Segment, ghost start: nat) returns (r: Outcome)
      requires Valid() && Genuine(irs, stream, seg, start) && FinAtEnd(stream, seg, start)
      requires -REACH <= start - pos <= REACH && start + |seg.data| <= pos + REACH
      modifies this`rcvNxt, this`queue, this`starts, this`pos, this`upTo, this`out, this`state, this`skipped,
               this`hostClosed, this`draining, this`finWhole, sb, sb.data
      ensures Valid() && sb.data == old(sb.data)
      ensures r.Overrun? <==> !old(state).TimeWait? &&
                              Overruns(seg, start, old(pos), old(sb.Space()), old(WindowSize()))
      ensures old(state).TimeWait? || r.Overrun? ==> r != Taken(true) && unchanged(this, sb, sb.data)
      ensures old(pos) > |stream| ==>
                && r == Taken(false) && state == old(state) && pos == old(pos) && queue == old(queue)
                && out == old(out) && upTo == old(upTo) && finWhole == old(finWhole)
      ensures !old(state).TimeWait? && r.Taken? ==>
                && state == (if r.fin then old(state).AfterFin() else old(state))
                && pos >= old(pos) + Bit(r.fin)
                && skipped == (if r.fin then old(skipped) + {pos - 1} else old(skipped))
                && hostClosed == (old(hostClosed) || (r.fin && sb.cc == 0))
                && upTo == (if old(hostClosed) then old(upTo) else pos)
                && finWhole == (old(finWhole) && !CutFin(seg, start, old(pos), old(sb.Space())))
                && (forall p: nat :: Have(pos, queue, starts, p) <==>
                      || old(Have(pos, queue, starts, p)) || (r.fin && p == pos - 1)
                      || (Within(start, |seg.data|, p) && p < old(pos + sb.Space())))
                && (if old(state).SynReceived? then pos == old(pos)
                    else pos - Bit(r.fin) > old(pos) <==> old(Reached(seg, start)))
                && (r.fin || AnyFin(queue) ==> old(AnyFin(queue)) || seg.fin)
      ensures !old(state).TimeWait? && !old(state).SynReceived? && r.Taken? && finWhole ==>
                (r.fin <==>
                 && Acts(seg, start, old(pos), old(sb.Space())) && pos >= |stream|
                 && old(FinKept(queue, starts, seg.fin, KeptStart(start, |seg.data|, pos),
                                KeptLen(start, |seg.data|, pos, sb.Space()))))
      ensures (&& old(state).Established? && old(queue) == [] && start <= old(pos) && r.Taken?
               && CutFin(seg, start, old(pos), old(sb.Space()))) ==> r.fin && pos <= |stream|
    {
      hide Genuine, SeqAt, Holds, SBuf.Contents, SBuf.Valid, TrimToWindow, Within, CutFin, KeptStart, KeptLen, FinAtEnd,
           FinsAtEnd, InOrder, Gap, Overruns, InSight, Diff, Stored, Handed, Phase, Acts, FinKept, Have, Reached,
           AnyFin;
      if state.TimeWait? {
        return Taken(false);
      }
      SpaceLeft();
      var wnd := Window();
      OverrunSeen(irs, stream, seg, start, pos, sb.Space(), wnd);
      SeqOfGenuine(irs, stream, seg, start);
      if pos > |stream| { AfterTheEnd(seg, start, |stream|, pos, sb.Space(), wnd); }
      var k := TrimToWindow(seg, rcvNxt, wnd);
      if k.Going() && Diff(k.seg.seqNo + |k.seg.data|, rcvNxt + sb.Space()) > 0 {
        return Overrun;
      }
      var fin := AcceptInside(k, seg, start, wnd);
      r := Taken(fin);
    }

    /**
     Header prediction: a pure in-sequence segment that fits is taken without
     trimming, and stored all the same. quiet stands for the tests on the sending
     side: nothing to resend, the window unchanged, nothing newly acknowledged.
     */
    method Predicted(seg: Segment, ghost start: nat, quiet: bool) returns (taken: bool)
      requires Valid() && Genuine(irs, stream, seg, start)
      requires -REACH <= start - pos <= REACH
      modifies this`rcvNxt, this`pos, this`upTo, this`out, sb, sb.data
      ensures Valid() && sb.data == old(sb.data)
      ensures taken <==> state.Established? && quiet && !seg.fin && start == old(pos) && |seg.data| > 0 &&
                         queue == [] && |seg.data| <= old(sb.Space())
      ensures taken ==> pos == upTo == old(pos) + |seg.data| && starts == [] && skipped == {} && !hostClosed
      ensures !taken ==> unchanged(this, sb, sb.data)
    {
      hide Genuine, SeqAt, Holds, SBuf.Contents, SBuf.Valid, Handed;
      if state.Established? && quiet {
        SeqOfGenuine(irs, stream, seg, start);
        SeqEqual(irs, start, pos);
        if !seg.fin && seg.seqNo == rcvNxt && |seg.data| != 0 && queue == [] && |seg.data| <= sb.Space() {
          var fin := TakeInSequence(seg);
          return true;
        }
      }
      return false;
    }

    /**
     A segment comes in: by header prediction, or else down tcp_input's data path.
     The places received are the same. What the host and the buffer have stays a
     prefix of the stream, whatever that is, unless a FIN has been acted on early,
     the host still takes data and the byte at rcv_nxt is reached; then it does not.
     */
    method Receive(seg: Segment, ghost start: nat, quiet: bool) returns (r: Outcome)
      requires Valid() && Genuine(irs, stream, seg, start) && FinAtEnd(stream, seg, start)
      requires -REACH <= start - pos <= REACH && start + |seg.data| <= pos + REACH
      modifies this`rcvNxt, this`queue, this`starts, this`pos, this`upTo, this`out, this`state, this`skipped,
               this`hostClosed, this`draining, this`finWhole, sb, sb.data
      ensures Valid() && sb.data == old(sb.data)
      ensures old(state).TimeWait? || r.Overrun? ==> r != Taken(true) && unchanged(this, sb, sb.data)
      ensures !old(state).TimeWait? && r.Taken? ==>
                && state == (if r.fin then old(state).AfterFin() else old(state))
                && pos >= old(pos) + Bit(r.fin)
                && skipped == (if r.fin then old(skipped) + {pos - 1} else old(skipped))
                && (forall p: nat :: Has(p) <==>
                      || old(Has(p)) || (r.fin && p == pos - 1)
                      || (Within(start, |seg.data|, p) && p < old(pos + sb.Space())))
                && upTo == (if old(hostClosed) then old(upTo) else pos)
                && (r.fin || AnyFin(queue) ==> old(AnyFin(queue)) || seg.fin)
                && (Prefix() <==>
                    old(Prefix()) && !(old(Early(|stream|, skipped)) && !old(hostClosed) && old(Reached(seg, start))))
      ensures r == Taken(true) && finWhole ==> pos == |stream| + 1
    {
      hide Genuine, SeqAt, Holds, SBuf.Contents, SBuf.Valid, CutFin, FinAtEnd, FinsAtEnd, InOrder, Gap, Overruns, Have,
           InSight, Numbers, Stored, Within, FinKept, KeptStart, KeptLen, Acts, Unbroken, Early, Reached,
           Passed, AnyFin;
      Queued();
      var predicted := Predicted(seg, start, quiet);
      if predicted {
        Queued();
        PredictedHas(old(pos), |seg.data|, old(sb.Space()));
        NothingEarly(|stream|, old(pos), pos);
        return Taken(false);
      }
      r := Input(seg, start);
      Queued();
      if !old(state).TimeWait? && r.Taken? {
        assert Handed() && old(Handed());
        PrefixStep(|stream|, old(pos), pos, r.fin, old(upTo), old(hostClosed), old(skipped));
        if old(state).SynReceived? {
          NothingEarly(|stream|, old(upTo), upTo);
        }
      }
    }

    /** A FIN that was not cut ends the stream. */
    lemma WholeFinEnds()
      requires Valid() && finWhole && state.FinSeen()
      ensures pos == |stream| + 1 && skipped == {|stream|} && Prefix()
    {
      hide SBuf.Contents, SBuf.Valid, InOrder, Passed, Stored, Numbers;
      var p :| p in skipped;
    }

    /** sowrite finds the host gone: it takes no more, what is handed on from now on is dropped, and our side closes. */
    method HostGone()
      requires Valid()
      modifies this`hostClosed, this`state
      ensures Valid() && hostClosed && state == old(state).Closed()
    {
      hide Genuine, SeqAt, Holds, SBuf.Contents, SBuf.Valid, InOrder, FinsAtEnd, Gap, Stored, Passed;
      hostClosed := true;
      state := state.Closed();
      assert sb.Contents() == old(sb.Contents());
    }

    /** tcp_sockclosed: our side closes. */
    method Close()
      requires Valid()
      modifies this`state
      ensures Valid() && state == old(state).Closed()
    {
      hide SeqAt, SBuf.Contents, SBuf.Valid, Stored, Handed, Numbers;
      state := state.Closed();
    }

    /** The peer acknowledges our FIN; in LAST_ACK that is the end of the connection. */
    method FinAcked()
      requires Valid() && !state.LastAck?
      modifies this`state
      ensures Valid() && state == old(state).Acked()
    {
      hide SeqAt, SBuf.Contents, SBuf.Valid, Stored, Handed, Numbers;
      state := state.Acked();
    }

    /** The three-way handshake completes: hand on what was queued before. */
    method Establish() returns (fin: bool)
      requires Valid() && state.SynReceived?
      modifies this`rcvNxt, this`queue, this`starts, this`pos, this`upTo, this`out, this`state, sb, sb.data
      ensures Valid() && state.Established? && sb.data == old(sb.data) && pos >= old(pos)
      ensures AnyFin(queue) ==> old(AnyFin(queue))
      ensures forall p: nat :: Have(pos, queue, starts, p) <==> old(Have(pos, queue, starts, p))
    {
      hide Genuine, SeqAt, Holds, SBuf.Contents, SBuf.Valid, Stored, Handed, Numbers, AnyFin;
      state := Established;
      fin := Present();
    }

    /** sowrite: the host takes n waiting bytes. */
    method HostTake(n: nat)
      requires sb.Valid() && n <= sb.cc
      modifies this`out, sb`rptr, sb`cc
      ensures sb.Valid() && out + sb.Contents() == old(out + sb.Contents()) && |out| == old(|out|) + n
      ensures sb.Space() == old(sb.Space()) + n
    {
      hide SBuf.Contents, SBuf.Valid;
      var w := sb.Write(n);
      out := out + w;
    }

    /** The host takes n waiting bytes; after a FIN the last of them closes it. */
    method Drain(n: nat)
      requires Valid() && n <= sb.cc
      modifies this`out, this`hostClosed, sb`rptr, sb`cc
      ensures Valid() && hostClosed == (old(hostClosed) || (draining && sb.cc == 0))
      ensures out + sb.Contents() == old(out + sb.Contents()) && |out| == old(|out|) + n
    {
      hide Genuine, SeqAt, Holds, SBuf.Contents, SBuf.Valid, InOrder, FinsAtEnd, Passed, Worth;
      ghost var hi := Edge();
      HostTake(n);
      Widened(irs, stream, queue, starts, pos, hi, Edge());
      if draining && sb.cc == 0 {
        hostClosed := true;
      }
      assert sb.Contents() == sb.Contents();
    }

    /**
     What tcp_output puts in every segment: rcv_nxt as the acknowledgement, and as
     the window the usable space, but never less than was promised. The promised
     edge never moves back and never promises more than the buffer can take. While
     rcv_nxt has not passed it, the edge is the larger of itself and the usable
     space, and the field says how far it is; once rcv_nxt has, it moves only when
     nearly a whole turn has gone by.
     */
    method Advertise(maxseg: nat) returns (ack: nat, field: nat)
      requires Valid()
      modifies this`rcvAdv, this`advPos, this`acks
      ensures Valid() && advPos >= old(advPos)
      ensures ack == SeqAt(irs, pos) && acks == old(acks) + {pos}
      ensures pos <= old(advPos) ==>
                && field == advPos - pos
                && advPos == if sb.Space() >= sb.data.Length / 4 || sb.Space() >= maxseg
                             then Max(old(advPos), pos + Min(sb.Space(), TCP_MAXWIN)) else old(advPos)
      ensures 0 < pos - old(advPos) <= MOD - TCP_MAXWIN ==>
                advPos == old(advPos) && field == (MOD - (pos - old(advPos))) % 65536
      ensures advPos == old(advPos) || advPos <= pos + Min(sb.Space(), TCP_MAXWIN)
    {
      hide SeqAt, Diff, Stored, NewEdge, Gap, Handed, Phase, EdgeAfter;
      SpaceLeft();
      var usable := Offered(sb.Space(), sb.data.Length, maxseg);
      AdvertisedEdge(irs, pos, advPos, usable);
      var r := NewEdge(rcvNxt, rcvAdv, usable);
      rcvAdv := r.1;
      ack, field := rcvNxt, r.0 % 65536;
      acks := acks + {pos};
      advPos := EdgeAfter(pos, advPos, usable);
    }

    lemma SpaceLeft()
      requires Valid()
      ensures 0 <= sb.Space() <= MAX_BUFFER
    {
    }

    lemma Queued()
      requires Stored()
      ensures |starts| == |queue|
    {
    }
  }

  /** The usable space, as tcp_output works it out. */
  method Offered(space: nat, size: nat, maxseg: nat) returns (usable: nat)
    ensures usable == if space < size / 4 && space < maxseg then 0 else Min(space, TCP_MAXWIN)
  {
    usable := space;
    if usable < size / 4 && usable < maxseg {
      usable := 0;
    }
    if usable > TCP_MAXWIN {
      usable := TCP_MAXWIN;
    }
  }

  /** The promised edge moves to the usable space exactly if that is beyond the unsigned distance to it. */
  ghost function EdgeAfter(nxt: nat, adv: nat, w: nat): nat {
    if w > (adv - nxt) % MOD then nxt + w else adv
  }

  lemma AdvertisedEdge(irs: nat, nxt: nat, adv: nat, w: nat)
    requires w <= TCP_MAXWIN && adv <= nxt + TCP_MAXWIN
    ensures var r := NewEdge(SeqAt(irs, nxt), SeqAt(irs, adv), w);
            var promised := (adv - nxt) % MOD;
            && r.0 == (if w > promised then w else promised)
            && r.1 == SeqAt(irs, EdgeAfter(nxt, adv, w))
            && adv <= EdgeAfter(nxt, adv, w)
            && (EdgeAfter(nxt, adv, w) == adv || EdgeAfter(nxt, adv, w) == nxt + w)
            && (nxt <= adv ==> EdgeAfter(nxt, adv, w) == Max(adv, nxt + w) == nxt + r.0 % 65536)
            && (0 < nxt - adv <= MOD - w ==> EdgeAfter(nxt, adv, w) == adv && r.0 == MOD - (nxt - adv))
  {
    hide SeqAt, NewEdge;
    EdgeMoves(irs, nxt, adv, w);
    GapRange(nxt, adv, w);
  }

  lemma GapRange(nxt: nat, adv: nat, w: nat)
    requires w <= TCP_MAXWIN && adv <= nxt + TCP_MAXWIN
    ensures nxt <= adv ==> (adv - nxt) % MOD == adv - nxt <= TCP_MAXWIN
    ensures 0 < nxt - adv <= MOD - w ==> (adv - nxt) % MOD == MOD + adv - nxt >= w
    ensures w > (adv - nxt) % MOD ==> nxt + w > adv
  {
  }

  /** Short of an overrun, inside the window and inside the free space are the same for bytes not yet received. */
  lemma InsideSpace(s: Segment, start: nat, pos: nat, space: nat, wnd: nat)
    requires space <= wnd && !Overruns(s, start, pos, space, wnd)
    ensures forall p: nat :: p < pos || (Within(start, |s.data|, p) && p < pos + wnd) <==>
              p < pos || (Within(start, |s.data|, p) && p < pos + space)
  {
    SpaceCut(s, start, pos, space, wnd);
  }
}
