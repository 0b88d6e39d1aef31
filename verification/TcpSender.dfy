/**
 The sending side of a TCP connection: tcp_output's again loop, the
 acknowledgement half of tcp_input, the retransmit and persist timers, and
 reads from the host. In every run snd_una <= snd_nxt <= snd_max as places in
 the stream, whatever the wrap of their 32-bit numbers, the buffer holds exactly
 the unacknowledged bytes, and every segment sent carries the stream's bytes
 for its sequence number, with a FIN only at the stream's end.
 */
module TcpSender {
  import opened Common
  import opened SocketBuffer
  import opened TcpReassembly

  /** Open: no FIN to send. Closing: FIN_WAIT_1, CLOSING and LAST_ACK. FinAcked: what follows them. */
  datatype State = Open | Closing | FinAcked

  /** Every logged segment is true to the stream; a FIN comes after the last byte, once no more will be read. */
  ghost predicate Truthful(iss: nat, stream: seq<Byte>, closed: bool, log: seq<Segment>, at: seq<nat>) {
    && |at| == |log|
    && forall i :: 0 <= i < |log| ==>
         Genuine(iss, stream, log[i], at[i]) && (log[i].fin ==> closed && at[i] + |log[i].data| == |stream|)
  }

  lemma TruthfulSent(iss: nat, stream: seq<Byte>, closed: bool, log: seq<Segment>, at: seq<nat>, s: Segment, p: nat)
    requires Truthful(iss, stream, closed, log, at)
    requires Genuine(iss, stream, s, p) && (s.fin ==> closed && p + |s.data| == |stream|)
    ensures Truthful(iss, stream, closed, log + [s], at + [p])
  {
    hide Genuine;
  }

  lemma TruthfulRead(iss: nat, stream: seq<Byte>, more: seq<Byte>, log: seq<Segment>, at: seq<nat>)
    requires Truthful(iss, stream, false, log, at)
    ensures Truthful(iss, stream + more, false, log, at)
  {
    forall i | 0 <= i < |log| ensures Genuine(iss, stream + more, log[i], at[i]) {
      assert Genuine(iss, stream, log[i], at[i]);
    }
  }

  /** snd_una, snd_nxt and snd_max as places in a stream of t bytes, whose FIN has place t. */
  ghost predicate Ordered(u: nat, n: nat, x: nat, t: nat, sentFin: bool, state: State) {
    && u <= n <= x <= (if sentFin then t + 1 else t)
    && (sentFin ==> x == t + 1 && !state.Open?)
    && (state.FinAcked? <==> u == t + 1)
  }

  /** The oldest byte not acknowledged. */
  function Low(u: nat, t: nat): nat { if u < t then u else t }

  /**
   The window to send into: the smaller of the peer's and the congestion window,
   one byte for a forced probe into none.
   */
  function SendWindow(wnd: nat, cwnd: nat, force: bool): nat {
    var w := if wnd < cwnd then wnd else cwnd;
    if force && w == 0 then 1 else w
  }

  /** Unsent bytes inside the window, up to one segment. */
  function DueBytes(cc: nat, win: nat, off: int, maxseg: nat): nat {
    var n := (if cc < win then cc else win) - off;
    if n < 0 then 0 else if n > maxseg then maxseg else n
  }

  lemma DueBound(cc: nat, win: nat, off: nat, maxseg: nat)
    requires maxseg > 0
    ensures var d := DueBytes(cc, win, off, maxseg);
            && d <= maxseg && (d > 0 ==> off + d <= cc && win > 0)
            && (Min(cc, win) - off > maxseg ==> d == maxseg && win > 1)
  {
  }

  /** It is as much as the data, the window and the segment size allow. */
  lemma DueLargest(cc: nat, win: nat, off: nat, maxseg: nat, n: nat)
    requires n <= maxseg && off + n <= cc && off + n <= win
    ensures n <= DueBytes(cc, win, off, maxseg)
  {
  }

  /** Once the last of what the window takes is sent, nothing is due. */
  lemma DueDone(cc: nat, win: nat, off: nat, off': nat, maxseg: nat)
    requires win == 0 || (Min(cc, win) - off <= maxseg && off' >= off + DueBytes(cc, win, off, maxseg))
    ensures DueBytes(cc, win, off', maxseg) == 0
  {
  }

  /** Whether tcp_output has a reason to send now; owed stands for an ACK, a window update or urgent data. */
  predicate ShouldSend(len: nat, off: int, cc: nat, maxseg: nat, force: bool, maxSndwnd: nat,
                       behind: bool, fin: bool, sentFin: bool, atUna: bool, owed: bool) {
    || (len > 0 && (|| len == maxseg || len + off >= cc || force
                    || (len >= maxSndwnd / 2 && maxSndwnd > 0) || behind))
    || owed
    || (fin && (!sentFin || atUna))
  }

  /** An acknowledgement that passes both 32-bit tests lies between snd_una and snd_max. */
  lemma AckRange(iss: nat, ack: nat, u: nat, x: nat)
    requires ack < MOD && u <= x <= u + REACH
    requires Diff(ack, SeqAt(iss, u)) > 0 && Diff(ack, SeqAt(iss, x)) <= 0
    ensures Diff(ack, SeqAt(iss, u)) <= x - u
    ensures ack == SeqAt(iss, u + Diff(ack, SeqAt(iss, u)))
  {
    var d := Diff(ack, SeqAt(iss, u));
    AckPlace(iss, ack, u, d);
    if d > x - u {
      DiffOfPositions(iss, u + d, x);
    }
  }

  /** One that fails the second test lies beyond snd_max. */
  lemma AckBeyond(iss: nat, ack: nat, u: nat, x: nat)
    requires ack < MOD && u <= x <= u + REACH
    requires Diff(ack, SeqAt(iss, u)) > 0 && Diff(ack, SeqAt(iss, x)) > 0
    ensures Diff(ack, SeqAt(iss, u)) > x - u
  {
    var d := Diff(ack, SeqAt(iss, u));
    AckPlace(iss, ack, u, d);
    DiffOfPositions(iss, u + d, x);
  }

  lemma AckPlace(iss: nat, ack: nat, u: nat, d: nat)
    requires ack < MOD && d == Diff(ack, SeqAt(iss, u))
    ensures ack == SeqAt(iss, u + d)
  {
    SeqAdvance(iss, u, d);
  }

  lemma SeqBack(iss: nat, p: nat)
    requires p > 0
    ensures (SeqAt(iss, p) - 1) % MOD == SeqAt(iss, p - 1)
  {
  }

  /** Comparing the end of a segment with the end of the buffered data. */
  lemma EndCompare(iss: nat, n: nat, len: nat, u: nat, cc: nat)
    requires -HALF <= n + len - (u + cc) < HALF
    ensures Diff(SeqAt(iss, n) + len, SeqAt(iss, u) + cc) == n + len - (u + cc)
  {
    hide SeqAt, Diff;
    SeqAdvance(iss, n, len);
    SeqAdvance(iss, u, cc);
    DiffWraps(SeqAt(iss, n) + len, SeqAt(iss, u) + cc);
    DiffWraps(SeqAt(iss, n + len), SeqAt(iss, u) + cc);
    DiffOfPositions(iss, n + len, u + cc);
  }

  /** 32-bit addition to the number of place p. */
  function NextSeq(ghost iss: nat, a: nat, ghost p: nat, k: nat): (r: nat)
    requires a == SeqAt(iss, p)
    ensures r == SeqAt(iss, p + k)
  {
    (a + k) % MOD
  }

  /** The bytes at offset n - u of the unacknowledged data are the stream's from n on. */
  lemma SliceOfTail(stream: seq<Byte>, u: nat, n: nat, len: nat)
    requires u <= n && n + len <= |stream|
    ensures stream[Low(u, |stream|)..][n - u..n - u + len] == stream[n..n + len]
  {
    assert Low(u, |stream|) == u;
    var tail := stream[u..];
    var a, b := tail[n - u..n - u + len], stream[n..n + len];
    assert |a| == |b| == len;
    forall i | 0 <= i < len ensures a[i] == b[i] {
      assert a[i] == tail[n - u + i] == stream[n + i];
    }
  }

  /** Bytes of the stream, under the number of their place, make a genuine segment. */
  lemma CopiedIsGenuine(iss: nat, stream: seq<Byte>, n: nat, data: seq<Byte>, fin: bool)
    requires n + |data| <= |stream| && (data != [] ==> data == stream[n..n + |data|])
    ensures Genuine(iss, stream, Segment(SeqAt(iss, n), data, fin), n)
  {
    hide SeqAt;
    if data == [] { assert stream[n..n] == data; }
  }

  /** What is left of the unacknowledged data after k more are acknowledged. */
  lemma TailDropped(stream: seq<Byte>, u: nat, k: nat)
    requires u <= |stream|
    ensures Low(u + k, |stream|) <= |stream|
    ensures stream[Low(u + k, |stream|)..] == stream[Low(u, |stream|)..][Min(k, |stream| - u)..]
  {
    var a, b := stream[Low(u + k, |stream|)..], stream[Low(u, |stream|)..][Min(k, |stream| - u)..];
    assert |a| == |b|;
    forall i | 0 <= i < |a| ensures a[i] == b[i] {
    }
  }

  /** Segments have been added to a log, none changed. */
  ghost predicate Continues(log0: seq<Segment>, at0: seq<nat>, log: seq<Segment>, at: seq<nat>) {
    && |log0| == |at0| <= |log| == |at|
    && forall i :: 0 <= i < |log0| ==> log[i] == log0[i] && at[i] == at0[i]
  }

  /** One segment has been added, of len bytes at place p. */
  ghost predicate Sends(log0: seq<Segment>, at0: seq<nat>, log: seq<Segment>, at: seq<nat>, p: nat, len: nat,
                        fin: bool) {
    && |log| == |log0| + 1 && log[..|log0|] == log0 && at == at0 + [p]
    && |log[|log0|].data| == len && log[|log0|].fin == fin
  }

  class Sender {
    const iss: nat
    const sb: SBuf
    var state: State
    var sentFin: bool
    var sndUna: nat
    var sndNxt: nat
    var sndMax: nat
    var sndWnd: nat
    var sndCwnd: nat
    var maxSndwnd: nat
    var maxseg: nat
    var persist: bool
    ghost var stream: seq<Byte>
    ghost var una: nat
    ghost var nxt: nat
    ghost var max: nat
    ghost var log: seq<Segment>
    ghost var logAt: seq<nat>

    ghost predicate Numbers()
      reads this
    {
      && sndUna == SeqAt(iss, una) && sndNxt == SeqAt(iss, nxt) && sndMax == SeqAt(iss, max)
      && Ordered(una, nxt, max, |stream|, sentFin, state)
    }

    /** The buffer holds exactly the bytes not acknowledged. */
    ghost predicate Holding()
      reads this`stream, this`una, this`maxseg, sb, sb.data
    {
      && sb.Valid() && sb.data.Length <= MAX_BUFFER && 0 < maxseg
      && sb.Contents() == stream[Low(una, |stream|)..]
    }

    ghost predicate Logged()
      reads this`stream, this`state, this`log, this`logAt
    {
      Truthful(iss, stream, !state.Open?, log, logAt)
    }

    ghost predicate Valid()
      reads this, sb, sb.data
    {
      Holding() && Numbers() && Logged()
    }

    constructor (iss: nat, buffer: nat, maxseg: nat, wnd: nat, cwnd: nat)
      requires 0 < buffer <= MAX_BUFFER && 0 < maxseg
      ensures Valid() && fresh(sb) && fresh(sb.data)
      ensures this.iss == iss && stream == [] && log == [] && state.Open? && una == nxt == max == 0 && !persist
      ensures this.maxseg == maxseg && sb.data.Length == buffer && sndWnd == maxSndwnd == wnd && sndCwnd == cwnd
    {
      this.iss := iss;
      this.maxseg := maxseg;
      var b := new SBuf.Reserve(buffer);
      sb := b;
      state, sentFin, persist := Open, false, false;
      sndUna, sndNxt, sndMax := SeqAt(iss, 0), SeqAt(iss, 0), SeqAt(iss, 0);
      sndWnd, sndCwnd, maxSndwnd := wnd, cwnd, wnd;
      stream, una, nxt, max, log, logAt := [], 0, 0, 0, [], [];
    }

    /** soread: bytes from the host, as many as were offered room for. */
    method Read(incoming: seq<Byte>)
      requires Valid() && state.Open? && |incoming| <= Offer(sb.Space(), maxseg)
      modifies this`stream, sb, sb.data
      ensures Valid() && sb.data == old(sb.data) && stream == old(stream) + incoming
    {
      hide SBuf.Contents, SBuf.Valid, SeqAt, Genuine, Truthful;
      TruthfulRead(iss, stream, incoming, log, logAt);
      var nn := sb.Read(maxseg, incoming);
      stream := stream + incoming;
    }

    /** tcp_sockclosed: a FIN is now due after the last byte. */
    method Close()
      requires Valid() && state.Open?
      modifies this`state
      ensures Valid() && state.Closing?
    {
      hide SBuf.Contents, SBuf.Valid, SeqAt, Genuine;
      state := Closing;
    }

    /** How many bytes are buffered, in places of the stream. */
    lemma Buffered()
      requires Valid()
      ensures sb.cc == |stream| - Low(una, |stream|)
      ensures state.FinAcked? ==> sb.cc == 0 && una == nxt == max == |stream| + 1
      ensures !state.FinAcked? ==> una + sb.cc == |stream|
      ensures 0 <= nxt - una <= max - una <= sb.cc + 1 <= MAX_BUFFER + 1
    {
      hide SBuf.Contents, SeqAt, Genuine, Truthful, Logged;
    }

    ghost function Due(force: bool): nat
      reads this, sb
    {
      DueBytes(sb.cc, SendWindow(sndWnd, sndCwnd, force), nxt - una, maxseg)
    }

    /** Data that must not wait: a full segment, the last of it, a probe, half a window, or something sent before. */
    ghost predicate MustSend(force: bool)
      reads this, sb
    {
      Due(force) > 0 && (|| Due(force) == maxseg || nxt - una + Due(force) >= sb.cc || force || nxt < max
                         || (Due(force) >= maxSndwnd / 2 && maxSndwnd > 0))
    }

    /** Persisting ends when a forced pass finds the window open. */
    ghost predicate StillPersisting(force: bool)
      reads this
    {
      persist && !(force && sndWnd > 0 && sndCwnd > 0)
    }

    /** The window is open, so sending goes on from snd_nxt. */
    ghost predicate Moves(force: bool)
      reads this`sndWnd, this`sndCwnd
    {
      SendWindow(sndWnd, sndCwnd, force) > 0
    }

    lemma MustMoves(force: bool)
      requires Valid() && MustSend(force)
      ensures Moves(force)
    {
      hide SeqAt, Holding, Truthful, Logged;
      MaxsegPositive();
      Buffered();
      DueBound(sb.cc, SendWindow(sndWnd, sndCwnd, force), nxt - una, maxseg);
    }

    /** Where sending goes on: from snd_una if the window has closed. */
    ghost function From(force: bool): nat
      reads this
    {
      if SendWindow(sndWnd, sndCwnd, force) == 0 then una else nxt
    }

    /** The FIN goes with what is due: that reaches the end of the stream, and is no probe into a closed window. */
    ghost predicate FinFits(force: bool)
      reads this, sb
    {
      && state.Closing? && From(force) + Due(force) >= |stream|
      && !(force && (sndWnd == 0 || sndCwnd == 0) && nxt - una < sb.cc)
    }

    /** A FIN that must not wait: it has not been sent, or is sent again from snd_una or with data. */
    ghost predicate FinDue(force: bool)
      reads this, sb
    {
      FinFits(force) && (!sentFin || From(force) == una || MustSend(force))
    }

    /** The window takes all that is buffered, and the FIN or something before it is still to be sent. */
    ghost predicate FinWaiting()
      reads this, sb
    {
      && state.Closing? && sb.cc <= SendWindow(sndWnd, sndCwnd, false)
      && (!sentFin || nxt == una || nxt < |stream|)
    }

    /** A segment with the FIN, that ends at the end of the stream, has been sent since the log had n entries. */
    ghost predicate FinSent(n: nat)
      reads this`log, this`logAt, this`stream
    {
      && |log| == |logAt|
      && exists i :: n <= i < |log| && log[i].fin && logAt[i] + |log[i].data| == |stream|
    }

    lemma MaxsegPositive()
      requires Valid()
      ensures 0 < maxseg && |log| == |logAt|
    {
    }

    /**
     How much tcp_output would send, whether a FIN may go with it, whether more
     may follow, and whether snd_nxt falls back because the window has closed.
     */
    static method Choose(off: nat, cc: nat, wnd: nat, cwnd: nat, maxseg: nat, force: bool, closing: bool)
      returns (len: nat, fin: bool, more: bool, back: bool, probe: bool)
      requires 0 < maxseg
      ensures len == DueBytes(cc, SendWindow(wnd, cwnd, force), off, maxseg)
      ensures probe <==> force && (wnd == 0 || cwnd == 0)
      ensures fin <==> closing && !(probe && off < cc)
      ensures more <==> Min(cc, SendWindow(wnd, cwnd, force)) - off > maxseg
      ensures back <==> SendWindow(wnd, cwnd, force) == 0 && off > 0
    {
      more, back, probe := false, false, false;
      var win := if wnd < cwnd then wnd else cwnd;
      fin := closing;
      if force {
        if win == 0 {
          if off < cc {
            fin := false;
          }
          win := 1;
          probe := true;
        }
      }
      var n: int := (if cc < win then cc else win) - off;
      if n < 0 {
        n := 0;
        if win == 0 {
          back := true;
        }
      }
      if n > maxseg {
        n := maxseg;
        more := true;
      }
      len := n;
    }

    /**
     What tcp_output would send: len bytes at offset off and perhaps the FIN,
     after which more may follow.
     */
    method Plan(force: bool) returns (off: int, len: nat, fin: bool, more: bool)
      requires Valid()
      modifies this`sndNxt, this`nxt, this`persist
      ensures Valid() && len == old(Due(force)) && nxt == old(From(force))
      ensures off == old(nxt) - una >= 0 && (len > 0 ==> off + len <= sb.cc)
      ensures fin <==> old(FinFits(force))
      ensures more <==> Min(sb.cc, SendWindow(sndWnd, sndCwnd, force)) - off > maxseg
      ensures more ==> !(force && persist)
      ensures persist == old(StillPersisting(force))
    {
      hide SeqAt, Diff, Holding, Logged, DueBytes;
      Buffered();
      MaxsegPositive();
      DiffOfPositions(iss, nxt, una);
      off := Diff(sndNxt, sndUna);
      var back, probe;
      len, fin, more, back, probe := Choose(off, sb.cc, sndWnd, sndCwnd, maxseg, force, state.Closing?);
      DueBound(sb.cc, SendWindow(sndWnd, sndCwnd, force), off, maxseg);
      if force && !probe {
        persist := false;
      }
      if back {
        sndNxt, nxt := sndUna, una;
      }
      EndCompare(iss, nxt, len, una, sb.cc);
      if Diff(sndNxt + len, sndUna + sb.cc) < 0 {
        fin := false;
      }
    }

    /** The bytes to send, left in the buffer for retransmission. */
    method CopyData(off: int, len: nat) returns (data: seq<Byte>)
      requires Holding() && (len > 0 ==> off == nxt - una >= 0 && off + len <= sb.cc && una + sb.cc == |stream|)
      ensures |data| == len
      ensures len > 0 ==> nxt + len <= |stream| && data == stream[nxt..nxt + len]
    {
      hide SBuf.Contents, SBuf.Valid;
      data := [];
      if len > 0 {
        SliceOfTail(stream, una, nxt, len);
        data := sb.Copy(off, len);
      }
    }

    /** Build the segment; a FIN sent again keeps its number. */
    method Build(off: int, len: nat, fin: bool)
      requires Valid()
      requires len > 0 ==> off == nxt - una && off + len <= sb.cc
      requires fin ==> state.Closing? && nxt + len >= |stream|
      modifies this`sndNxt, this`nxt, this`log, this`logAt
      ensures Valid()
      ensures len > 0 ==> nxt == old(nxt)
      ensures len == 0 && !fin ==> nxt == old(nxt) && log == old(log) && logAt == old(logAt)
      ensures nxt + len <= |stream| || !fin
      ensures fin ==> nxt + len == |stream|
      ensures len > 0 || fin ==> Sends(old(log), old(logAt), log, logAt, nxt, len, fin)
      ensures old(nxt) - (if fin then 1 else 0) <= nxt <= old(nxt)
    {
      hide Holding, SeqAt, Genuine, Truthful;
      Buffered();
      var data := CopyData(off, len);
      SeqEqual(iss, nxt, max);
      if fin && sentFin && sndNxt == sndMax {
        SeqBack(iss, nxt);
        sndNxt, nxt := (sndNxt - 1) % MOD, nxt - 1;
      }
      if len > 0 || fin {
        CopiedIsGenuine(iss, stream, nxt, data, fin);
        TruthfulSent(iss, stream, !state.Open?, log, logAt, Segment(sndNxt, data, fin), nxt);
        log, logAt := log + [Segment(sndNxt, data, fin)], logAt + [nxt];
      }
    }

    /** Advance snd_nxt and snd_max over the segment; a persist probe only raises snd_max. */
    method Advance(len: nat, fin: bool, force: bool)
      requires Valid()
      requires nxt + len <= |stream| || (len == 0 && !fin)
      requires fin ==> state.Closing? && nxt + len == |stream|
      modifies this`sndNxt, this`sndMax, this`sentFin, this`nxt, this`max
      ensures Valid()
      ensures nxt == old(nxt) + (if force && persist then 0 else if fin then len + 1 else len)
      ensures sentFin == (old(sentFin) || (fin && !(force && persist)))
      ensures var end := old(nxt) + (if fin && !(force && persist) then len + 1 else len);
              max == if end > old(max) then end else old(max)
    {
      hide SeqAt, Diff, Holding, Logged;
      Buffered();
      var end := NextSeq(iss, sndNxt, nxt, len);
      ghost var e := nxt + len;
      if !force || !persist {
        if fin {
          end, e := NextSeq(iss, end, e, 1), e + 1;
          sentFin := true;
        }
        sndNxt, nxt := end, e;
      }
      DiffOfPositions(iss, e, max);
      if Diff(end, sndMax) > 0 {
        sndMax, max := end, e;
      }
    }

    /** Send the segment that was planned. */
    method Emit(off: int, len: nat, fin: bool, force: bool)
      requires Valid()
      requires len > 0 ==> off == nxt - una && off + len <= sb.cc
      requires fin ==> state.Closing? && nxt + len >= |stream|
      modifies this`sndNxt, this`sndMax, this`sentFin, this`nxt, this`max, this`log, this`logAt
      ensures Valid() && max >= old(max) && Continues(old(log), old(logAt), log, logAt)
      ensures if force && persist then nxt <= old(nxt) else nxt >= old(nxt) + len && (!fin ==> nxt == old(nxt) + len)
      ensures len == 0 && !fin ==> log == old(log) && logAt == old(logAt)
      ensures len > 0 || fin ==>
                Sends(old(log), old(logAt), log, logAt, if len > 0 then old(nxt) else |stream|, len, fin)
      ensures fin ==> (if len > 0 then old(nxt) else |stream|) + len == |stream|
      ensures sentFin == (old(sentFin) || (fin && !(force && persist)))
      ensures fin && !(force && persist) ==> nxt == max == |stream| + 1
    {
      hide SeqAt, Holding, Truthful;
      MaxsegPositive();
      Buffered();
      Build(off, len, fin);
      Buffered();
      Advance(len, fin, force);
    }

    /** What a pass plans, and whether it is sent; owed stands for the reasons to send outside this model. */
    method Pass(force: bool, owed: bool) returns (more: bool, ghost sent: bool)
      requires Valid()
      modifies this`sndNxt, this`sndMax, this`sentFin, this`persist, this`nxt, this`max, this`log, this`logAt
      ensures Valid() && max >= old(max) && persist == old(StillPersisting(force))
      ensures sent <==> owed || old(MustSend(force)) || old(FinDue(force))
      ensures !sent ==> !more && log == old(log) && logAt == old(logAt) && sentFin == old(sentFin) && max == old(max)
      ensures !sent ==> nxt == old(From(force))
      ensures sent ==>
                var len, fin, at := old(Due(force)), old(FinFits(force)), old(From(force));
                && (more <==> old(Min(sb.cc, SendWindow(sndWnd, sndCwnd, force)) - (nxt - una) > maxseg))
                && (more ==> !(force && persist))
                && (if len > 0 || fin
                    then Sends(old(log), old(logAt), log, logAt, if len > 0 then at else |stream|, len, fin)
                    else log == old(log) && logAt == old(logAt))
                && (len > 0 && fin ==> at + len == |stream|)
                && sentFin == (old(sentFin) || (fin && !(force && persist)))
                && (fin && !(force && persist) ==> nxt == max == |stream| + 1)
                && (if force && persist then nxt <= at else nxt >= at + len && (!fin ==> nxt == at + len))
    {
      hide SeqAt, Diff, Holding, Truthful, DueBytes, Ordered, Logged;
      Buffered();
      MaxsegPositive();
      DueBound(sb.cc, SendWindow(sndWnd, sndCwnd, force), nxt - una, maxseg);
      var off, len, fin, m := Plan(force);
      Buffered();
      DiffOfPositions(iss, nxt, max);
      SeqEqual(iss, nxt, una);
      sent := ShouldSend(len, off, sb.cc, maxseg, force, maxSndwnd, Diff(sndNxt, sndMax) < 0, fin, sentFin,
                         sndNxt == sndUna, owed);
      if !ShouldSend(len, off, sb.cc, maxseg, force, maxSndwnd, Diff(sndNxt, sndMax) < 0, fin, sentFin,
                     sndNxt == sndUna, owed) {
        return false, false;
      }
      Emit(off, len, fin, force);
      more := m;
    }

    /** What must be sent is sent from snd_nxt, and a FIN that must be sent fits. */
    lemma MustFrom(force: bool)
      requires Valid()
      ensures MustSend(force) ==> Due(force) > 0 && From(force) == nxt
      ensures FinDue(force) ==> FinFits(force)
      ensures 0 < maxseg && Due(force) <= maxseg && (Due(force) == maxseg ==> MustSend(force))
      ensures Min(sb.cc, SendWindow(sndWnd, sndCwnd, force)) - (nxt - una) > maxseg ==>
                Due(force) == maxseg && From(force) == nxt && !FinFits(force)
    {
      hide SeqAt, Holding, Truthful, Logged;
      MaxsegPositive();
      Buffered();
    }

    lemma LastIsFin(n: nat)
      ensures |log| == |logAt| == n + 1 && log[n].fin && logAt[n] + |log[n].data| == |stream| ==> FinSent(n)
    {
    }

    /** One pass of tcp_output from its again label. */
    method SendOnce(force: bool, owed: bool) returns (more: bool)
      requires Valid()
      modifies this`sndNxt, this`sndMax, this`sentFin, this`persist, this`nxt, this`max, this`log, this`logAt
      ensures Valid() && max >= old(max) && Continues(old(log), old(logAt), log, logAt)
      ensures more <==> old(Min(sb.cc, SendWindow(sndWnd, sndCwnd, force)) - (nxt - una) > maxseg)
      ensures more ==> nxt == old(nxt) + maxseg > old(nxt) && sentFin == old(sentFin) && !(force && persist)
      ensures persist == old(StillPersisting(force)) && (force && persist ==> nxt <= old(nxt))
      ensures old(Moves(force)) && !(force && persist) ==> nxt >= old(nxt)
      ensures old(MustSend(force)) && !(force && persist) ==> nxt >= old(nxt) + old(Due(force))
      ensures old(MustSend(force)) ==>
                Sends(old(log), old(logAt), log, logAt, old(nxt), old(Due(force)), old(FinFits(force)))
      ensures old(FinDue(force)) ==> FinSent(|old(log)|) && (!(force && persist) ==> sentFin && max == |stream| + 1)
      ensures !owed && !old(MustSend(force)) && !old(FinDue(force)) ==> log == old(log) && nxt == old(From(force))
      ensures !more && !force ==> Due(false) < maxseg
    {
      hide SeqAt, Diff, Holding, Truthful, DueBytes, Ordered, Logged, FinFits, MustSend, FinDue, FinSent, Min,
           FinWaiting;
      Buffered();
      MaxsegPositive();
      MustFrom(force);
      ghost var win := SendWindow(sndWnd, sndCwnd, force);
      ghost var off0 := nxt - una;
      DueBound(sb.cc, win, off0, maxseg);
      ghost var sent;
      more, sent := Pass(force, owed);
      Buffered();
      LastIsFin(|old(log)|);
      if sent {
        if !more && !force { DueDone(sb.cc, win, off0, nxt - una, maxseg); }
      } else if win == 0 {
        DueDone(sb.cc, win, off0, nxt - una, maxseg);
      }
    }

    /** While the window takes all that is buffered, a pass but the last leaves data, and the last takes the FIN. */
    lemma WaitingFits()
      requires Valid() && FinWaiting()
      ensures if Min(sb.cc, SendWindow(sndWnd, sndCwnd, false)) - (nxt - una) > maxseg
              then Due(false) == maxseg && nxt + maxseg < |stream| && From(false) == nxt
              else FinDue(false)
    {
      hide SeqAt, Truthful, SBuf.Contents, SBuf.Valid;
      Buffered();
    }

    /** A pass, as the loop over them sees it. */
    method Turn(force: bool) returns (more: bool)
      requires Valid()
      modifies this`sndNxt, this`sndMax, this`sentFin, this`persist, this`nxt, this`max, this`log, this`logAt
      ensures Valid() && max >= old(max) && Continues(old(log), old(logAt), log, logAt)
      ensures more ==> nxt > old(nxt) && !(force && persist)
      ensures persist == old(StillPersisting(force)) && (force && persist ==> nxt <= old(nxt))
      ensures old(Moves(force)) && !(force && persist) ==> nxt >= old(nxt)
      ensures old(MustSend(force)) && !(force && persist) ==> nxt >= old(nxt) + old(Due(force))
      ensures old(MustSend(force)) ==>
                |log| > |old(log)| && logAt[|old(log)|] == old(nxt) && |log[|old(log)|].data| == old(Due(force))
      ensures old(FinWaiting()) && !force ==>
                if more then FinWaiting() else FinSent(|old(log)|) && sentFin && max == |stream| + 1
      ensures !more && !force ==> Due(false) < maxseg
    {
      hide SeqAt, Holding, Logged, DueBytes, FinFits, FinDue, MustSend, Ordered, FinSent, Min, Continues;
      MaxsegPositive();
      if !force && FinWaiting() { WaitingFits(); }
      var owed: bool := *;
      more := SendOnce(force, owed);
    }

    /** tcp_output: passes until nothing more is due. */
    method Output(force: bool)
      requires Valid()
      modifies this`sndNxt, this`sndMax, this`sentFin, this`persist, this`nxt, this`max, this`log, this`logAt
      ensures Valid() && max >= old(max) && Continues(old(log), old(logAt), log, logAt)
      ensures old(MustSend(force)) ==>
                |log| > |old(log)| && logAt[|old(log)|] == old(nxt) && |log[|old(log)|].data| == old(Due(force))
      ensures old(FinWaiting()) && !force ==> FinSent(|old(log)|) && sentFin && max == |stream| + 1
      ensures !force ==> Due(false) < maxseg
      ensures persist == old(StillPersisting(force)) && (force && persist ==> nxt <= old(nxt))
      ensures old(MustSend(force)) && !(force && persist) ==> nxt >= old(nxt) + old(Due(force))
    {
      hide SeqAt, Holding, Logged, DueBytes, FinWaiting, MustSend, Moves, SendWindow;
      if MustSend(force) { MustMoves(force); }
      var more := Turn(force);
      while more
        invariant Valid() && max >= old(max) && Continues(old(log), old(logAt), log, logAt)
        invariant old(MustSend(force)) ==>
                    |log| > |old(log)| && logAt[|old(log)|] == old(nxt) && |log[|old(log)|].data| == old(Due(force))
        invariant !more && !force ==> Due(false) < maxseg
        invariant persist == old(StillPersisting(force)) && (force && persist ==> nxt <= old(nxt) && !more)
        invariant Moves(force) == old(Moves(force))
        invariant old(MustSend(force)) && !(force && persist) ==> nxt >= old(nxt) + old(Due(force))
        invariant old(FinWaiting()) && !force ==>
                    if more then FinWaiting() else FinSent(|old(log)|) && sentFin && max == |stream| + 1
        decreases more, |stream| + 2 - nxt
      {
        more := Turn(force);
      }
    }

    /** sbdrop of k acknowledged places, of which the last may be the FIN's. */
    method DropBytes(k: nat)
      requires Holding() && una <= |stream| && sb.cc == |stream| - una
      modifies this`una, sb`rptr, sb`cc
      ensures Holding() && una == old(una) + k
    {
      hide SBuf.Contents, SBuf.Valid;
      TailDropped(stream, una, k);
      sb.Drop(if k > sb.cc then sb.cc else k);
      una := una + k;
    }

    /** Remove k acknowledged bytes; more than are buffered means the FIN is acknowledged too. */
    method DropAcked(k: nat)
      requires Valid() && 0 < k <= max - una
      modifies this`una, this`sndUna, this`sndNxt, this`nxt, this`state, sb`rptr, sb`cc
      ensures Valid() && una == old(una) + k
      ensures nxt == if old(nxt) < una then una else old(nxt)
      ensures state == if una == |stream| + 1 then FinAcked else old(state)
      ensures state.Open? <==> old(state).Open?
    {
      hide SeqAt, Diff, Holding, Truthful;
      Buffered();
      var finAcked := k > sb.cc;
      sndUna := NextSeq(iss, sndUna, una, k);
      DropBytes(k);
      DiffOfPositions(iss, nxt, una);
      if Diff(sndNxt, sndUna) < 0 {
        sndNxt, nxt := sndUna, una;
      }
      if finAcked {
        state := FinAcked;
      }
    }

    /**
     Header prediction of a pure acknowledgement, in ESTABLISHED, with nothing to
     resend, the peer's window as it was and not larger than the congestion window.
     */
    method PredictedAck(ack: nat, tiwin: nat) returns (taken: bool)
      requires Valid() && state.Open? && ack < MOD
      modifies this`una, this`sndUna, this`sndNxt, this`nxt, this`state, sb`rptr, sb`cc
      ensures Valid() && state.Open?
      ensures taken <==> && old(nxt) == max && 0 < Diff(ack, old(sndUna)) <= max - old(una)
                         && 0 < tiwin == sndWnd <= sndCwnd
      ensures una == old(una) + (if taken then Diff(ack, old(sndUna)) else 0)
      ensures nxt == old(nxt)
    {
      hide SeqAt, Diff, Holding, Truthful;
      Buffered();
      SeqEqual(iss, nxt, max);
      taken := false;
      if tiwin != 0 && tiwin == sndWnd && sndNxt == sndMax {
        if Diff(ack, sndUna) > 0 && Diff(ack, sndMax) <= 0 && sndCwnd >= sndWnd {
          AckRange(iss, ack, una, max);
          DropAcked(Diff(ack, sndUna));
          taken := true;
        } else if Diff(ack, sndUna) > 0 && Diff(ack, sndMax) > 0 {
          AckBeyond(iss, ack, una, max);
        }
      }
    }

    /**
     An acknowledgement that is not a duplicate. Numbers that do not lie between
     snd_una and snd_max change nothing, whatever they are.
     */
    method Ack(ack: nat, cwnd: nat) returns (taken: bool)
      requires Valid() && ack < MOD
      modifies this, sb`rptr, sb`cc
      ensures Valid() && stream == old(stream) && max == old(max) && log == old(log)
      ensures taken <==> 0 < Diff(ack, old(sndUna)) <= max - old(una)
      ensures una == old(una) + (if taken then Diff(ack, old(sndUna)) else 0)
      ensures nxt == if old(nxt) < una then una else old(nxt)
      ensures state == if una == |stream| + 1 then FinAcked else old(state)
      ensures state.Open? <==> old(state).Open?
      ensures sndCwnd == if taken then cwnd else old(sndCwnd)
      ensures sndWnd == if taken then (old(sndWnd) - Min(una - old(una), old(sb.cc))) % MOD else old(sndWnd)
    {
      hide SeqAt, Diff, Holding, Truthful;
      Buffered();
      var acked := Diff(ack, sndUna);
      taken := false;
      if acked <= 0 {
        return;
      }
      if Diff(ack, sndMax) > 0 {
        AckBeyond(iss, ack, una, max);
        return;
      }
      AckRange(iss, ack, una, max);
      sndCwnd := cwnd;
      sndWnd := (sndWnd - (if acked > sb.cc then sb.cc else acked)) % MOD;
      DropAcked(acked);
      taken := true;
    }

    /** Window updates and congestion control may set the windows to anything. */
    method SetWindows(wnd: nat, cwnd: nat)
      requires Valid()
      modifies this`sndWnd, this`sndCwnd, this`maxSndwnd
      ensures Valid() && sndWnd == wnd && sndCwnd == cwnd && maxSndwnd == Max(old(maxSndwnd), wnd)
    {
      hide SeqAt, Holding, Logged;
      sndWnd, sndCwnd := wnd, cwnd;
      if wnd > maxSndwnd {
        maxSndwnd := wnd;
      }
    }

    /** Start again from snd_una with a window of one segment. */
    method Resend()
      requires Valid()
      modifies this
      ensures Valid() && stream == old(stream) && una == old(una) && Continues(old(log), old(logAt), log, logAt)
      ensures state == old(state) && maxseg == old(maxseg) && max >= old(max) && sndCwnd == maxseg
      ensures persist == old(persist) && Due(false) < maxseg
      ensures old(una < max && sb.cc > 0 && sndWnd > 0) ==>
                && |log| > |old(log)| && logAt[|old(log)|] == una && |log[|old(log)|].data| > 0
                && nxt >= una + |log[|old(log)|].data|
    {
      hide SeqAt, Holding, Logged;
      MaxsegPositive();
      Buffered();
      sndNxt, nxt := sndUna, una;
      sndCwnd := maxseg;
      Output(false);
    }

    /** The third duplicate acknowledgement: one segment is sent again from snd_una, then sending goes on as before. */
    method FastRetransmit(cwndAfter: nat)
      requires Valid()
      modifies this
      ensures Valid() && stream == old(stream) && una == old(una) && Continues(old(log), old(logAt), log, logAt)
      ensures nxt >= old(nxt) && state == old(state) && sndCwnd == cwndAfter && persist == old(persist)
      ensures old(una < max && sb.cc > 0 && sndWnd > 0) ==>
                && |log| > |old(log)| && logAt[|old(log)|] == una && |log[|old(log)|].data| > 0
                && nxt >= una + |log[|old(log)|].data|
    {
      hide SeqAt, Diff, Holding, Logged;
      Buffered();
      var onxt := sndNxt;
      ghost var o := nxt;
      Resend();
      Buffered();
      sndCwnd := cwndAfter;
      DiffOfPositions(iss, o, nxt);
      if Diff(onxt, sndNxt) > 0 {
        sndNxt, nxt := onxt, o;
      }
    }

    /** The retransmit timer. */
    method RetransmitTimeout()
      requires Valid()
      modifies this
      ensures Valid() && stream == old(stream) && una == old(una) && Continues(old(log), old(logAt), log, logAt)
      ensures state == old(state) && sndCwnd == maxseg && persist == old(persist) && Due(false) < maxseg
      ensures old(una < max && sb.cc > 0 && sndWnd > 0) ==>
                && |log| > |old(log)| && logAt[|old(log)|] == una && |log[|old(log)|].data| > 0
                && nxt >= una + |log[|old(log)|].data|
    {
      Resend();
    }

    /** After many retransmissions the segment size is halved; below 32 bytes the connection is given up. */
    method HalveSegments() returns (dropped: bool)
      requires Valid()
      modifies this`maxseg
      ensures Valid() && (dropped <==> old(maxseg) / 2 < 32)
      ensures maxseg == if dropped then old(maxseg) else old(maxseg) / 2
    {
      hide SeqAt, SBuf.Contents, SBuf.Valid, Logged;
      if maxseg / 2 < 32 {
        return true;
      }
      maxseg := maxseg / 2;
      assert sb.Contents() == old(sb.Contents());
      return false;
    }

    /** The persist timer: force a probe into a closed window. */
    method PersistTimeout()
      requires Valid()
      modifies this
      ensures Valid() && stream == old(stream) && una == old(una) && Continues(old(log), old(logAt), log, logAt)
      ensures state == old(state)
      ensures old(sndWnd == 0 || sndCwnd == 0) ==> persist && nxt <= old(nxt)
      ensures old(MustSend(true)) ==>
                |log| > |old(log)| && logAt[|old(log)|] == old(nxt) && |log[|old(log)|].data| == old(Due(true))
    {
      hide SeqAt, Diff, Holding, Logged;
      persist := true;
      Output(true);
    }
  }
}
