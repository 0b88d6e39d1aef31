/**
 Both ends of a connection. Whatever segments the sender has ever sent may be
 delivered at any time, in any order and any number of times, or never; while no
 FIN is cut, the receiving host is given a prefix of the bytes the sending host
 has written, all of them once it is told of the end, and what it lacks is still
 in the sender's buffer.
 */
module TcpEndToEnd {
  import opened Common
  import opened SocketBuffer
  import opened StreamGaps
  import opened TcpReassembly
  import Sending = TcpSender
  import Receiving = TcpReceiver

  /** A segment sent when only part of the stream had been read is true to the whole stream. */
  lemma SentIsGenuine(iss: nat, part: seq<Byte>, whole: seq<Byte>, closed: bool, log: seq<Segment>, at: seq<nat>,
                      i: nat)
    requires Sending.Truthful(iss, part, closed, log, at) && i < |log|
    requires part <= whole && (closed ==> part == whole)
    ensures Genuine(iss, whole, log[i], at[i]) && FinAtEnd(whole, log[i], at[i])
    ensures at[i] + |log[i].data| <= |part|
  {
    var s, p := log[i], at[i];
    assert Genuine(iss, part, s, p);
    assert part[p..p + |s.data|] == whole[p..p + |s.data|];
  }

  /** Nothing has been received of a stream that the sender's host has not written. */
  ghost predicate NothingInvented(pos: nat, q: seq<Segment>, st: seq<nat>, len: nat, written: nat)
    requires |st| == |q|
  {
    forall p: nat :: Receiving.Have(pos, q, st, p) && p < len ==> p < written
  }

  /** What a segment adds has been written, and a FIN comes when all has. */
  lemma StillWritten(pos: nat, q: seq<Segment>, st: seq<nat>, pos': nat, q': seq<Segment>, st': seq<nat>,
                     len: nat, written: nat, start: nat, n: nat, edge: int, fin: bool)
    requires |st| == |q| && |st'| == |q'| && NothingInvented(pos, q, st, len, written)
    requires forall p: nat :: Receiving.Have(pos', q', st', p) <==>
               || Receiving.Have(pos, q, st, p) || (fin && p == pos' - 1) || (Within(start, n, p) && p < edge)
    requires start + n <= written && (fin ==> len <= written)
    ensures NothingInvented(pos', q', st', len, written)
  {
    hide Receiving.Have;
  }

  /**
   The ends agree on the first sequence number. The stream the receiver's bytes
   are compared with extends what the sender's host has written so far, and is
   just that once the host has closed or a FIN has come. Nothing is acknowledged
   that has not been received.
   */
  ghost predicate Connected(snd: Sending.Sender, rcv: Receiving.Connection)
    reads snd, snd.sb, snd.sb.data, rcv, rcv.sb, rcv.sb.data
  {
    && snd.Valid() && rcv.Valid()
    && snd.sb != rcv.sb && snd.sb.data != rcv.sb.data
    && snd.iss == rcv.irs && snd.una <= rcv.pos
    && snd.stream <= rcv.stream && (!snd.state.Open? ==> snd.stream == rcv.stream)
    && (AnyFin(rcv.queue) || rcv.skipped != {} ==> snd.stream == rcv.stream)
    && NothingInvented(rcv.pos, rcv.queue, rcv.starts, |rcv.stream|, |snd.stream|)
  }

  /**
   In every state the receiving host, with the buffer, has what the sending host
   has written but for the places of FINs; and that is a prefix of it if no byte
   was taken after a FIN was acted on early, as when no FIN has been cut.
   */
  lemma PrefixReceived(snd: Sending.Sender, rcv: Receiving.Connection)
    requires Connected(snd, rcv)
    ensures rcv.out + rcv.sb.Contents() == Passed(snd.stream, rcv.upTo, rcv.skipped)
    ensures rcv.Prefix() ==> rcv.out + rcv.sb.Contents() <= snd.stream
    ensures rcv.finWhole ==> rcv.Prefix() && rcv.out + rcv.sb.Contents() == snd.stream[..Min(rcv.upTo, |snd.stream|)]
  {
    hide InOrder, SeqAt, FinsAtEnd, SBuf.Contents, SBuf.Valid, Receiving.Gap, Sending.Sender.Valid, Passed, AnyFin;
    if rcv.pos > 0 {
      assert Receiving.Have(rcv.pos, rcv.queue, rcv.starts, rcv.pos - 1);
    }
    PassedOfPart(snd.stream, rcv.stream, rcv.upTo, rcv.skipped);
    if rcv.Prefix() {
      UnbrokenIsPrefix(snd.stream, rcv.upTo, rcv.skipped);
    }
  }

  /** No byte is lost: what has not been received is still in the sender's buffer. */
  lemma NothingLost(snd: Sending.Sender, rcv: Receiving.Connection)
    requires Connected(snd, rcv) && rcv.finWhole && rcv.upTo == rcv.pos
    ensures var got, n := rcv.out + rcv.sb.Contents(), Sending.Low(snd.una, |snd.stream|);
            n <= |got| && snd.stream == got[..n] + snd.sb.Contents()
  {
    hide InOrder, SeqAt, FinsAtEnd, SBuf.Contents, SBuf.Valid, Receiving.Gap, Passed, AnyFin, Sending.Truthful,
         Receiving.Connection.Stored, Receiving.Connection.Numbers, Receiving.Connection.Phase;
    PrefixReceived(snd, rcv);
    var got, n := rcv.out + rcv.sb.Contents(), Sending.Low(snd.una, |snd.stream|);
    assert got[..n] == snd.stream[..n];
  }

  /** A connection is set up with agreed first numbers; whole is what the sending host will come to write. */
  method Connect(isn: nat, sndBuffer: nat, rcvBuffer: nat, maxseg: nat, wnd: nat, cwnd: nat, ghost whole: seq<Byte>)
    returns (snd: Sending.Sender, rcv: Receiving.Connection)
    requires 0 < sndBuffer <= MAX_BUFFER && 0 < rcvBuffer <= MAX_BUFFER && 0 < maxseg
    ensures Connected(snd, rcv) && fresh(snd) && fresh(rcv)
    ensures snd.stream == [] && rcv.stream == whole && rcv.out == []
  {
    hide InOrder, SeqAt, SBuf.Contents, SBuf.Valid;
    snd := new Sending.Sender(isn, sndBuffer, maxseg, wnd, cwnd);
    rcv := new Receiving.Connection(isn, rcvBuffer, whole);
  }

  /**
   The network delivers some segment of the log, through header prediction or,
   where that does not take it, the whole of tcp_input's data path. The receiver
   has then exactly the places it had, the segment's that its free space takes and
   that of a FIN acted on. Its host, with the buffer, still has a prefix of what
   the sending host has written, unless a FIN had been acted on early, the host
   takes data and the segment brings some. If the host is told of the end it has
   all of it, unless a FIN was once cut at the window.
   */
  method Deliver(snd: Sending.Sender, rcv: Receiving.Connection, ghost i: nat, seg: Segment, ghost start: nat,
                 quiet: bool)
    returns (r: Receiving.Outcome)
    requires i < |snd.log| == |snd.logAt| && seg == snd.log[i] && start == snd.logAt[i]
    requires Connected(snd, rcv)
    requires -REACH <= start - rcv.pos <= REACH && start + |seg.data| <= rcv.pos + REACH
    modifies rcv, rcv.sb, rcv.sb.data
    ensures Connected(snd, rcv)
    ensures old(rcv.state).TimeWait? || r.Overrun? ==> r != Receiving.Taken(true) && unchanged(rcv)
    ensures !old(rcv.state).TimeWait? && r.Taken? ==>
              && (forall p: nat :: rcv.Has(p) <==>
                    || old(rcv.Has(p)) || (r.fin && p == rcv.pos - 1)
                    || (Within(start, |seg.data|, p) && p < old(rcv.pos + rcv.sb.Space())))
              && (rcv.Prefix() <==>
                  && old(rcv.Prefix())
                  && !(old(Early(|rcv.stream|, rcv.skipped)) && !old(rcv.hostClosed) && old(rcv.Reached(seg, start))))
    ensures rcv.Prefix() ==> rcv.out + rcv.sb.Contents() <= snd.stream
    ensures rcv.finWhole ==> rcv.Prefix()
    ensures r == Receiving.Taken(true) && rcv.finWhole && !old(rcv.hostClosed) ==>
              rcv.out + rcv.sb.Contents() == snd.stream
  {
    hide Genuine, FinAtEnd, InOrder, SeqAt, FinsAtEnd, SBuf.Contents, SBuf.Valid, Sending.Truthful, Sending.Ordered,
         Receiving.Have, Receiving.Gap, Receiving.Acts, Passed, Unbroken, Early, AnyFin, Receiving.Connection.Stored,
         Receiving.Connection.Handed, Receiving.Connection.Numbers, Receiving.Connection.Phase,
         Receiving.Connection.Reached, Receiving.Connection.Prefix, Sending.Sender.Holding, Sending.Sender.Numbers,
         NothingInvented;
    rcv.Queued();
    SentIsGenuine(snd.iss, snd.stream, rcv.stream, !snd.state.Open?, snd.log, snd.logAt, i);
    r := rcv.Receive(seg, start, quiet);
    rcv.Queued();
    if !old(rcv.state).TimeWait? && r.Taken? {
      assert forall p: nat :: old(rcv.Has(p)) <==> old(Receiving.Have(rcv.pos, rcv.queue, rcv.starts, p));
      assert forall p: nat :: rcv.Has(p) <==> Receiving.Have(rcv.pos, rcv.queue, rcv.starts, p);
      StillWritten(old(rcv.pos), old(rcv.queue), old(rcv.starts), rcv.pos, rcv.queue, rcv.starts, |rcv.stream|,
                   |snd.stream|, start, |seg.data|, old(rcv.pos + rcv.sb.Space()), r.fin);
    }
    PrefixReceived(snd, rcv);
  }

  /** What the sending side may do between deliveries. */
  datatype SenderStep =
    | Read(incoming: seq<Byte>)
    | Close
    | Output(force: bool)
    | Ack(ack: nat, cwnd: nat)
    | PredictedAck(ack: nat, tiwin: nat)
    | SetWindows(wnd: nat, cwnd: nat)
    | FastRetransmit(cwnd: nat)
    | RetransmitTimeout
    | HalveSegments
    | PersistTimeout

  /** The number is that of an acknowledgement the receiver has sent, not too long ago. */
  ghost predicate Acknowledges(snd: Sending.Sender, rcv: Receiving.Connection, ack: nat)
    reads snd`una, rcv`acks
  {
    exists p :: p in rcv.acks && ack == SeqAt(rcv.irs, p) && -REACH <= p - snd.una <= REACH
  }

  /** The host writes only the stream, and closes only after its last byte; acknowledgements are the receiver's. */
  ghost predicate SenderMay(snd: Sending.Sender, rcv: Receiving.Connection, step: SenderStep)
    requires snd.Valid()
    reads snd, snd.sb, snd.sb.data, rcv`acks
  {
    match step
    case Read(m) => snd.state.Open? && |m| <= Offer(snd.sb.Space(), snd.maxseg) && snd.stream + m <= rcv.stream
    case Close => snd.state.Open? && snd.stream == rcv.stream
    case Ack(a, _) => Acknowledges(snd, rcv, a)
    case PredictedAck(a, _) => snd.state.Open? && Acknowledges(snd, rcv, a)
    case _ => true
  }

  /** An acknowledgement is never beyond what was received. */
  lemma AckedIsReceived(snd: Sending.Sender, rcv: Receiving.Connection, ack: nat)
    requires Connected(snd, rcv) && Acknowledges(snd, rcv, ack)
    ensures ack < MOD && snd.una + Diff(ack, snd.sndUna) <= rcv.pos
  {
    hide InOrder, Diff, SBuf.Contents, SBuf.Valid, AnyFin, Sending.Truthful, Passed;
    var p :| p in rcv.acks && ack == SeqAt(rcv.irs, p) && -REACH <= p - snd.una <= REACH;
    DiffOfPositions(snd.iss, p, snd.una);
  }

  /** Every step of the sending side keeps the ends connected. */
  method SenderMoves(snd: Sending.Sender, rcv: Receiving.Connection, step: SenderStep)
    requires Connected(snd, rcv) && SenderMay(snd, rcv, step)
    modifies snd, snd.sb, snd.sb.data
    ensures Connected(snd, rcv)
    ensures snd.stream == if step.Read? then old(snd.stream) + step.incoming else old(snd.stream)
  {
    hide Genuine, FinAtEnd, InOrder, SeqAt, FinsAtEnd, SBuf.Contents, SBuf.Valid, Sending.Truthful, Sending.Ordered,
         Receiving.Have, Receiving.Gap, Diff, Acknowledges, AnyFin, Receiving.Connection.Stored,
         Receiving.Connection.Handed, Receiving.Connection.Numbers, Receiving.Connection.Phase;
    rcv.Queued();
    match step
    case Read(m) => snd.Read(m);
    case Close => snd.Close();
    case Output(force) => snd.Output(force);
    case Ack(a, c) =>
      AckedIsReceived(snd, rcv, a);
      var _ := snd.Ack(a, c);
    case PredictedAck(a, w) =>
      AckedIsReceived(snd, rcv, a);
      var _ := snd.PredictedAck(a, w);
    case SetWindows(w, c) => snd.SetWindows(w, c);
    case FastRetransmit(c) => snd.FastRetransmit(c);
    case RetransmitTimeout => snd.RetransmitTimeout();
    case HalveSegments => var _ := snd.HalveSegments();
    case PersistTimeout => snd.PersistTimeout();
  }

  /** What the receiving side may do between deliveries. */
  datatype ReceiverStep = Establish | Drain(n: nat) | Advertise(maxseg: nat) | HostGone | OwnClose | OwnFinAcked

  /** Every step of the receiving side keeps the ends connected, and what the host has a prefix of what was written. */
  method ReceiverMoves(snd: Sending.Sender, rcv: Receiving.Connection, step: ReceiverStep)
    requires Connected(snd, rcv)
    requires step.Establish? ==> rcv.state.SynReceived?
    requires step.Drain? ==> step.n <= rcv.sb.cc
    requires step.OwnFinAcked? ==> !rcv.state.LastAck?
    modifies rcv, rcv.sb, rcv.sb.data
    ensures Connected(snd, rcv)
    ensures old(rcv.Prefix()) ==> rcv.Prefix() && rcv.out + rcv.sb.Contents() <= snd.stream
  {
    hide Genuine, FinAtEnd, InOrder, SeqAt, FinsAtEnd, SBuf.Contents, SBuf.Valid, Sending.Truthful, Sending.Ordered,
         Receiving.Have, Receiving.Gap, AnyFin, Passed, Receiving.Connection.Stored, Receiving.Connection.Handed,
         Receiving.Connection.Numbers, Sending.Sender.Holding, Sending.Sender.Numbers;
    rcv.Queued();
    match step {
      case Establish => var _ := rcv.Establish();
      case Drain(n) => rcv.Drain(n);
      case Advertise(maxseg) => var _, _ := rcv.Advertise(maxseg);
      case HostGone => rcv.HostGone();
      case OwnClose => rcv.Close();
      case OwnFinAcked => rcv.FinAcked();
    }
    rcv.Queued();
    PrefixReceived(snd, rcv);
  }
}
