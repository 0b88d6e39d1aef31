/**
 The output queues of if.c: sessions on a fast queue, sent first, and on a batch
 queue, sent one packet each in turn; greedy fast sessions are moved to the
 batch queue. In every run each socket's packets leave in the order they were
 queued, each once.
 */
module IfQueue {
  import opened Common

  datatype Sock = NoSocket | Socket(id: nat)

  datatype Packet = Packet(data: seq<Byte>)

  /** The packets of one session, oldest first. */
  datatype Session = Session(so: Sock, pkts: seq<Packet>)

  /** next_m: the batch session to send from next, or the head of the queue. */
  datatype Next = Head | At(so: Sock)

  datatype Entry = Entry(so: Sock, pkt: Packet)

  /** The packets a queue holds for a socket, in order. */
  ghost function PacketsOf(q: seq<Session>, so: Sock): seq<Packet> {
    if q == [] then [] else Part(q[0], so) + PacketsOf(q[1..], so)
  }

  ghost function Part(s: Session, so: Sock): seq<Packet> {
    if s.so == so then s.pkts else []
  }

  ghost function Total(q: seq<Session>): nat {
    if q == [] then 0 else |q[0].pkts| + Total(q[1..])
  }

  /** A socket's part of a log. */
  ghost function Of(log: seq<Entry>, so: Sock): seq<Packet> {
    if log == [] then []
    else Of(log[..|log| - 1], so) + if log[|log| - 1].so == so then [log[|log| - 1].pkt] else []
  }

  lemma OfLogged(log: seq<Entry>, e: Entry, so: Sock)
    ensures Of(log + [e], so) == Of(log, so) + if e.so == so then [e.pkt] else []
  {
    assert (log + [e])[..|log|] == log;
  }

  lemma Assoc(a: seq<Packet>, b: seq<Packet>, c: seq<Packet>)
    ensures a + b + c == a + (b + c)
  {
  }

  lemma NoPackets(a: seq<Packet>)
    ensures a + [] == a && [] + a == a
  {
  }

  lemma NoSessions(so: Sock)
    ensures PacketsOf([], so) == []
  {
  }

  lemma FirstSession(q: seq<Session>, so: Sock)
    requires q != []
    ensures PacketsOf(q, so) == Part(q[0], so) + PacketsOf(q[1..], so)
  {
  }

  lemma {:induction false} PacketsConcat(a: seq<Session>, b: seq<Session>, so: Sock)
    ensures PacketsOf(a + b, so) == PacketsOf(a, so) + PacketsOf(b, so)
  {
    hide PacketsOf, Part;
    if a == [] {
      assert a + b == b;
      NoSessions(so);
      NoPackets(PacketsOf(b, so));
    } else {
      FirstSession(a, so);
      FirstSession(a + b, so);
      PacketsConcat(a[1..], b, so);
      assert (a + b)[1..] == a[1..] + b;
      Assoc(Part(a[0], so), PacketsOf(a[1..], so), PacketsOf(b, so));
    }
  }

  lemma {:induction false} TotalConcat(a: seq<Session>, b: seq<Session>)
    ensures Total(a + b) == Total(a) + Total(b)
  {
    if a == [] {
      assert a + b == b;
    } else {
      TotalConcat(a[1..], b);
      assert (a + b)[1..] == a[1..] + b;
    }
  }

  lemma PacketsOne(s: Session, so: Sock)
    ensures PacketsOf([s], so) == Part(s, so)
    ensures Total([s]) == |s.pkts|
  {
    assert [s][1..] == [];
    NoPackets(Part(s, so));
  }

  /** A queue seen as one session among others. */
  lemma PacketsAround(a: seq<Session>, s: Session, b: seq<Session>, so: Sock)
    ensures PacketsOf(a + [s] + b, so) == PacketsOf(a, so) + Part(s, so) + PacketsOf(b, so)
    ensures Total(a + [s] + b) == Total(a) + |s.pkts| + Total(b)
  {
    hide PacketsOf, Total, Part;
    PacketsConcat(a + [s], b, so);
    PacketsConcat(a, [s], so);
    TotalConcat(a + [s], b);
    TotalConcat(a, [s]);
    PacketsOne(s, so);
  }

  ghost predicate Absent(q: seq<Session>, so: Sock) {
    forall i :: 0 <= i < |q| ==> q[i].so != so
  }

  ghost predicate Distinct(q: seq<Session>) {
    forall i, j :: 0 <= i < j < |q| ==> q[i].so != q[j].so
  }

  ghost predicate NonEmpty(q: seq<Session>) {
    forall i :: 0 <= i < |q| ==> q[i].pkts != []
  }

  lemma {:induction false} AbsentNone(q: seq<Session>, so: Sock)
    requires Absent(q, so)
    ensures PacketsOf(q, so) == []
  {
    if q != [] { AbsentNone(q[1..], so); }
  }

  /** A socket with one session among several distinct ones has just its packets. */
  lemma PacketsOnly(a: seq<Session>, s: Session, b: seq<Session>)
    requires Absent(a, s.so) && Absent(b, s.so)
    ensures PacketsOf(a + [s] + b, s.so) == s.pkts
  {
    hide PacketsOf, Absent;
    PacketsAround(a, s, b, s.so);
    AbsentNone(a, s.so);
    AbsentNone(b, s.so);
    NoPackets(s.pkts);
  }

  /** Other sockets do not see the session at all. */
  lemma PacketsOther(a: seq<Session>, s: Session, b: seq<Session>, so: Sock)
    requires so != s.so
    ensures PacketsOf(a + [s] + b, so) == PacketsOf(a, so) + PacketsOf(b, so) == PacketsOf(a + b, so)
  {
    hide PacketsOf;
    PacketsAround(a, s, b, so);
    PacketsConcat(a, b, so);
    NoPackets(PacketsOf(a, so));
  }

  lemma Split(q: seq<Session>, i: nat)
    requires Distinct(q) && i < |q|
    ensures q == q[..i] + [q[i]] + q[i + 1..]
    ensures Absent(q[..i], q[i].so) && Absent(q[i + 1..], q[i].so)
  {
  }

  /** Replacing one of several distinct sessions changes its own socket's packets only. */
  lemma PacketsReplaced(q: seq<Session>, i: nat, s: Session, so: Sock)
    requires Distinct(q) && i < |q| && s.so == q[i].so
    ensures PacketsOf(q[i := s], so) == if so == s.so then s.pkts else PacketsOf(q, so)
    ensures PacketsOf(q, s.so) == q[i].pkts
    ensures Total(q[i := s]) == Total(q) - |q[i].pkts| + |s.pkts|
  {
    hide PacketsOf, Total, Absent, Distinct;
    var a, b := q[..i], q[i + 1..];
    Split(q, i);
    assert q[i := s] == a + [s] + b;
    PacketsOnly(a, q[i], b);
    PacketsOnly(a, s, b);
    PacketsAround(a, q[i], b, so);
    PacketsAround(a, s, b, so);
    if so != s.so {
      PacketsOther(a, q[i], b, so);
      PacketsOther(a, s, b, so);
    }
  }

  lemma PacketsRemoved(q: seq<Session>, i: nat, so: Sock)
    requires Distinct(q) && i < |q|
    ensures PacketsOf(q[..i] + q[i + 1..], so) == if so == q[i].so then [] else PacketsOf(q, so)
    ensures Total(q[..i] + q[i + 1..]) == Total(q) - |q[i].pkts|
  {
    hide PacketsOf, Total, Absent, Distinct;
    var a, b := q[..i], q[i + 1..];
    Split(q, i);
    PacketsAround(a, q[i], b, so);
    TotalConcat(a, b);
    if so != q[i].so {
      PacketsOther(a, q[i], b, so);
    } else {
      PacketsConcat(a, b, so);
      AbsentNone(a, so);
      AbsentNone(b, so);
    }
  }

  /** All that is queued for a socket; what is on the fast queue is older. */
  ghost function Pending(fast: seq<Session>, batch: seq<Session>, so: Sock): seq<Packet> {
    PacketsOf(fast, so) + PacketsOf(batch, so)
  }

  /** The shape of the queues: no empty session, one batch session at most for each socket. */
  ghost predicate Shape(fast: seq<Session>, batch: seq<Session>) {
    NonEmpty(fast) && NonEmpty(batch) && Distinct(batch)
  }

  ghost function Amount(fast: seq<Session>, batch: seq<Session>): nat {
    Total(fast) + Total(batch)
  }

  /** What queueing pkt for so has done, whichever queue it went to. */
  ghost predicate Added(fast: seq<Session>, batch: seq<Session>, so: Sock, pkt: Packet,
                        fast': seq<Session>, batch': seq<Session>) {
    && Amount(fast', batch') == Amount(fast, batch) + 1
    && forall x :: Pending(fast', batch', x) ==
         if x == so then Pending(fast, batch, x) + [pkt] else Pending(fast, batch, x)
  }

  function Grown(s: Session, pkt: Packet): Session { Session(s.so, s.pkts + [pkt]) }

  /** A packet joins the last session if that is its socket's, else begins one. */
  function JoinedLast(fast: seq<Session>, so: Sock, pkt: Packet): seq<Session> {
    var l := |fast| - 1;
    if l >= 0 && fast[l].so == so then fast[l := Grown(fast[l], pkt)] else fast + [Session(so, [pkt])]
  }

  /** A packet joins its socket's batch session. */
  lemma AddedToBatch(fast: seq<Session>, batch: seq<Session>, i: nat, pkt: Packet)
    requires Shape(fast, batch) && i < |batch|
    ensures Shape(fast, batch[i := Grown(batch[i], pkt)])
    ensures Added(fast, batch, batch[i].so, pkt, fast, batch[i := Grown(batch[i], pkt)])
  {
    hide PacketsOf, Total;
    var s := Grown(batch[i], pkt);
    forall x ensures Pending(fast, batch[i := s], x) ==
                     if x == s.so then Pending(fast, batch, x) + [pkt] else Pending(fast, batch, x)
    {
      PacketsReplaced(batch, i, s, x);
      Assoc(PacketsOf(fast, x), PacketsOf(batch, x), [pkt]);
    }
    PacketsReplaced(batch, i, s, s.so);
  }

  /** A packet joins the last fast session, its socket having no batch session. */
  lemma AddedToLast(fast: seq<Session>, batch: seq<Session>, pkt: Packet)
    requires Shape(fast, batch) && fast != [] && Absent(batch, fast[|fast| - 1].so)
    ensures var l := |fast| - 1;
            && Shape(fast[l := Grown(fast[l], pkt)], batch)
            && Added(fast, batch, fast[l].so, pkt, fast[l := Grown(fast[l], pkt)], batch)
  {
    hide PacketsOf, Total;
    var l := |fast| - 1;
    var a, s := fast[..l], fast[l];
    assert fast == a + [s] && fast[l := Grown(s, pkt)] == a + [Grown(s, pkt)];
    TotalConcat(a, [s]);
    TotalConcat(a, [Grown(s, pkt)]);
    PacketsOne(s, s.so);
    PacketsOne(Grown(s, pkt), s.so);
    forall x ensures Pending(a + [Grown(s, pkt)], batch, x) ==
                     if x == s.so then Pending(a + [s], batch, x) + [pkt] else Pending(a + [s], batch, x)
    {
      LastFast(a, s, batch, x);
      LastFast(a, Grown(s, pkt), batch, x);
      Assoc(PacketsOf(a, x), s.pkts, [pkt]);
    }
  }

  lemma LastFast(a: seq<Session>, s: Session, batch: seq<Session>, x: Sock)
    requires Absent(batch, s.so)
    ensures Pending(a + [s], batch, x) ==
            if x == s.so then PacketsOf(a, x) + s.pkts else PacketsOf(a, x) + PacketsOf(batch, x)
  {
    hide PacketsOf, Absent;
    PacketsConcat(a, [s], x);
    PacketsOne(s, x);
    NoPackets(PacketsOf(a, x));
    if x == s.so {
      AbsentNone(batch, x);
      NoPackets(PacketsOf(a, x) + s.pkts);
    }
  }

  /** A new session at the end of the fast queue. */
  lemma AddedNewFast(fast: seq<Session>, batch: seq<Session>, so: Sock, pkt: Packet)
    requires Shape(fast, batch) && Absent(batch, so)
    ensures Shape(fast + [Session(so, [pkt])], batch)
    ensures Added(fast, batch, so, pkt, fast + [Session(so, [pkt])], batch)
  {
    hide PacketsOf, Total;
    var s := Session(so, [pkt]);
    TotalConcat(fast, [s]);
    PacketsOne(s, so);
    forall x ensures Pending(fast + [s], batch, x) ==
                     if x == so then Pending(fast, batch, x) + [pkt] else Pending(fast, batch, x)
    {
      LastFast(fast, s, batch, x);
      if x == so { AbsentNone(batch, x); NoPackets(PacketsOf(fast, x)); }
    }
  }

  /** A new session at the end of the batch queue. */
  lemma AddedNewBatch(fast: seq<Session>, batch: seq<Session>, so: Sock, pkt: Packet)
    requires Shape(fast, batch) && Absent(batch, so)
    ensures Shape(fast, batch + [Session(so, [pkt])])
    ensures Added(fast, batch, so, pkt, fast, batch + [Session(so, [pkt])])
  {
    hide PacketsOf, Total;
    var s := Session(so, [pkt]);
    TotalConcat(batch, [s]);
    PacketsOne(s, so);
    forall x ensures Pending(fast, batch + [s], x) ==
                     if x == so then Pending(fast, batch, x) + [pkt] else Pending(fast, batch, x)
    {
      PacketsConcat(batch, [s], x);
      PacketsOne(s, x);
      Assoc(PacketsOf(fast, x), PacketsOf(batch, x), Part(s, x));
      NoPackets(Pending(fast, batch, x));
    }
  }

  /** Moving sessions about has changed nothing for any socket. */
  ghost predicate SamePending(fast: seq<Session>, batch: seq<Session>, fast': seq<Session>, batch': seq<Session>) {
    && Amount(fast', batch') == Amount(fast, batch)
    && forall x :: Pending(fast', batch', x) == Pending(fast, batch, x)
  }

  /** The last fast session may go to the front of the batch queue: what stays on the fast queue is older. */
  lemma DowngradeFast(fast: seq<Session>, batch: seq<Session>)
    requires Shape(fast, batch) && fast != [] && Absent(batch, fast[|fast| - 1].so)
    ensures var l := |fast| - 1;
            && Shape(fast[..l], [fast[l]] + batch)
            && SamePending(fast, batch, fast[..l], [fast[l]] + batch)
  {
    hide PacketsOf, Total;
    var l := |fast| - 1;
    var a, s := fast[..l], fast[l];
    assert fast == a + [s];
    TotalConcat(a, [s]);
    TotalConcat([s], batch);
    forall x ensures Pending(a, [s] + batch, x) == Pending(a + [s], batch, x) {
      LastFast(a, s, batch, x);
      PacketsConcat([s], batch, x);
      PacketsOne(s, x);
      NoPackets(PacketsOf(batch, x));
      if x == s.so {
        AbsentNone(batch, x);
        NoPackets(s.pkts);
      }
    }
  }

  /** A batch session may move to the front. */
  lemma DowngradeBatch(fast: seq<Session>, batch: seq<Session>, i: nat)
    requires Shape(fast, batch) && i < |batch|
    ensures var b := [batch[i]] + (batch[..i] + batch[i + 1..]);
            Shape(fast, b) && SamePending(fast, batch, fast, b)
  {
    hide PacketsOf, Total;
    var s, r := batch[i], batch[..i] + batch[i + 1..];
    TotalConcat([s], r);
    PacketsOne(s, s.so);
    forall x ensures PacketsOf([s] + r, x) == PacketsOf(batch, x) {
      PacketsConcat([s], r, x);
      PacketsOne(s, x);
      PacketsRemoved(batch, i, x);
      PacketsReplaced(batch, i, s, x);
      NoPackets(PacketsOf(batch, x));
      NoPackets(s.pkts);
    }
    PacketsRemoved(batch, i, s.so);
  }

  /** A packet has left: it was the oldest of its socket. */
  ghost predicate Removed(fast: seq<Session>, batch: seq<Session>, so: Sock, pkt: Packet,
                          fast': seq<Session>, batch': seq<Session>) {
    && Amount(fast', batch') + 1 == Amount(fast, batch)
    && forall x :: Pending(fast, batch, x) ==
         if x == so then [pkt] + Pending(fast', batch', x) else Pending(fast', batch', x)
  }

  /** What is left of a session, if anything, in its place in the queue. */
  function Rest(s: Session): seq<Session>
    requires s.pkts != []
  {
    if |s.pkts| > 1 then [Session(s.so, s.pkts[1..])] else []
  }

  lemma RestPackets(s: Session, x: Sock)
    requires s.pkts != []
    ensures Part(s, x) == if x == s.so then [s.pkts[0]] + PacketsOf(Rest(s), x) else []
    ensures x != s.so ==> PacketsOf(Rest(s), x) == []
    ensures Total(Rest(s)) == |s.pkts| - 1
  {
    if |s.pkts| > 1 {
      PacketsOne(Session(s.so, s.pkts[1..]), x);
    }
  }

  lemma SentFast(fast: seq<Session>, batch: seq<Session>)
    requires Shape(fast, batch) && fast != []
    ensures Shape(Rest(fast[0]) + fast[1..], batch)
    ensures Removed(fast, batch, fast[0].so, fast[0].pkts[0], Rest(fast[0]) + fast[1..], batch)
  {
    hide PacketsOf, Total, Part;
    var s, r := fast[0], fast[1..];
    assert fast == [s] + r;
    TotalConcat([s], r);
    TotalConcat(Rest(s), r);
    PacketsOne(s, s.so);
    RestPackets(s, s.so);
    forall x ensures Pending(fast, batch, x) ==
                     if x == s.so then [s.pkts[0]] + Pending(Rest(s) + r, batch, x) else Pending(Rest(s) + r, batch, x)
    {
      FirstSession(fast, x);
      PacketsConcat(Rest(s), r, x);
      RestPackets(s, x);
      NoPackets(PacketsOf(r, x));
      Assoc([s.pkts[0]], PacketsOf(Rest(s), x), PacketsOf(r, x));
      Assoc([s.pkts[0]], PacketsOf(Rest(s) + r, x), PacketsOf(batch, x));
    }
  }

  lemma SentBatch(batch: seq<Session>, i: nat)
    requires Shape([], batch) && i < |batch|
    ensures var b := batch[..i] + Rest(batch[i]) + batch[i + 1..];
            Shape([], b) && Removed([], batch, batch[i].so, batch[i].pkts[0], [], b)
  {
    hide PacketsOf, Total;
    var s := batch[i];
    var b := batch[..i] + Rest(s) + batch[i + 1..];
    forall x ensures Pending([], batch, x) ==
                     if x == s.so then [s.pkts[0]] + Pending([], b, x) else Pending([], b, x)
    {
      NoSessions(x);
      NoPackets(PacketsOf(b, x));
      NoPackets(PacketsOf(batch, x));
      BatchRest(batch, i, x);
    }
    BatchRest(batch, i, s.so);
    assert Distinct(b) && NonEmpty(b) by { BatchShape(batch, i); }
  }

  lemma BatchShape(batch: seq<Session>, i: nat)
    requires Distinct(batch) && NonEmpty(batch) && i < |batch|
    ensures var b := batch[..i] + Rest(batch[i]) + batch[i + 1..];
            Distinct(b) && NonEmpty(b)
  {
    var s := batch[i];
    if |s.pkts| > 1 {
      assert batch[..i] + Rest(s) + batch[i + 1..] == batch[i := Session(s.so, s.pkts[1..])];
    } else {
      assert batch[..i] + Rest(s) + batch[i + 1..] == batch[..i] + batch[i + 1..];
    }
  }

  lemma BatchRest(batch: seq<Session>, i: nat, x: Sock)
    requires Distinct(batch) && NonEmpty(batch) && i < |batch|
    ensures var s, b := batch[i], batch[..i] + Rest(batch[i]) + batch[i + 1..];
            && Total(b) + 1 == Total(batch)
            && PacketsOf(batch, x) == if x == s.so then [s.pkts[0]] + PacketsOf(b, x) else PacketsOf(b, x)
  {
    hide PacketsOf, Total;
    var s := batch[i];
    PacketsReplaced(batch, i, s, x);
    if |s.pkts| > 1 {
      var r := Session(s.so, s.pkts[1..]);
      assert batch[..i] + Rest(s) + batch[i + 1..] == batch[i := r];
      PacketsReplaced(batch, i, r, x);
      assert s.pkts == [s.pkts[0]] + s.pkts[1..];
    } else {
      assert batch[..i] + Rest(s) + batch[i + 1..] == batch[..i] + batch[i + 1..];
      PacketsRemoved(batch, i, x);
      assert s.pkts == [s.pkts[0]] + [];
    }
  }

  function Count(m: map<nat, nat>, id: nat): nat { if id in m then m[id] else 0 }

  /** What was queued for each socket is what has left and then what is still queued, in order. */
  ghost predicate Ledger(inLog: seq<Entry>, outLog: seq<Entry>, fast: seq<Session>, batch: seq<Session>) {
    forall x :: Of(outLog, x) + Pending(fast, batch, x) == Of(inLog, x)
  }

  /** so_queued is the number of packets queued; so_nqueued counts on until that falls to zero. */
  ghost predicate Counted(queued: map<nat, nat>, nqueued: map<nat, nat>, fast: seq<Session>, batch: seq<Session>) {
    forall id: nat :: CountedFor(queued, nqueued, fast, batch, id)
  }

  ghost predicate CountedFor(queued: map<nat, nat>, nqueued: map<nat, nat>, fast: seq<Session>, batch: seq<Session>,
                             id: nat) {
    && Count(queued, id) == |Pending(fast, batch, Socket(id))| <= Count(nqueued, id)
    && (Count(queued, id) == 0 ==> Count(nqueued, id) == 0)
  }

  lemma LedgerAdded(inLog: seq<Entry>, outLog: seq<Entry>, fast: seq<Session>, batch: seq<Session>,
                    so: Sock, pkt: Packet, fast': seq<Session>, batch': seq<Session>)
    requires Ledger(inLog, outLog, fast, batch) && Added(fast, batch, so, pkt, fast', batch')
    ensures Ledger(inLog + [Entry(so, pkt)], outLog, fast', batch')
  {
    hide Of, Pending, Amount;
    forall x ensures Of(outLog, x) + Pending(fast', batch', x) == Of(inLog + [Entry(so, pkt)], x) {
      OfLogged(inLog, Entry(so, pkt), x);
      Assoc(Of(outLog, x), Pending(fast, batch, x), [pkt]);
      NoPackets(Of(inLog, x));
    }
  }

  lemma LedgerRemoved(inLog: seq<Entry>, outLog: seq<Entry>, fast: seq<Session>, batch: seq<Session>,
                      so: Sock, pkt: Packet, fast': seq<Session>, batch': seq<Session>)
    requires Ledger(inLog, outLog, fast, batch) && Removed(fast, batch, so, pkt, fast', batch')
    ensures Ledger(inLog, outLog + [Entry(so, pkt)], fast', batch')
  {
    hide Of, Pending, Amount;
    forall x ensures Of(outLog + [Entry(so, pkt)], x) + Pending(fast', batch', x) == Of(inLog, x) {
      OfLogged(outLog, Entry(so, pkt), x);
      Assoc(Of(outLog, x), [pkt], Pending(fast', batch', x));
      NoPackets(Of(outLog, x));
    }
  }

  /** Adding to a socket's count. */
  function Bump(m: map<nat, nat>, so: Sock): map<nat, nat> {
    if so.Socket? then m[so.id := Count(m, so.id) + 1] else m
  }

  lemma CountedAdded(queued: map<nat, nat>, nqueued: map<nat, nat>, fast: seq<Session>, batch: seq<Session>,
                     so: Sock, pkt: Packet, fast': seq<Session>, batch': seq<Session>)
    requires Counted(queued, nqueued, fast, batch) && Added(fast, batch, so, pkt, fast', batch')
    ensures Counted(Bump(queued, so), Bump(nqueued, so), fast', batch')
  {
    hide Pending, Amount;
    forall id: nat ensures CountedFor(Bump(queued, so), Bump(nqueued, so), fast', batch', id) {
      assert CountedFor(queued, nqueued, fast, batch, id);
    }
  }

  /** Taking from a socket's count; at zero the session has paused. */
  function Lower(m: map<nat, nat>, so: Sock): map<nat, nat> {
    if so.Socket? && Count(m, so.id) > 0 then m[so.id := Count(m, so.id) - 1] else m
  }

  function Paused(queued: map<nat, nat>, nqueued: map<nat, nat>, so: Sock): map<nat, nat> {
    if so.Socket? && Count(queued, so.id) == 0 then nqueued[so.id := 0] else nqueued
  }

  lemma CountsAfter(queued: map<nat, nat>, nqueued: map<nat, nat>, so: Sock)
    requires so.Socket? ==> Count(queued, so.id) > 0
    ensures forall id :: Count(Lower(queued, so), id) == Count(queued, id) - if so == Socket(id) then 1 else 0
    ensures forall id :: Count(Paused(Lower(queued, so), nqueued, so), id) ==
              if so == Socket(id) && Count(Lower(queued, so), id) == 0 then 0 else Count(nqueued, id)
  {
  }

  lemma CountedRemoved(queued: map<nat, nat>, nqueued: map<nat, nat>, fast: seq<Session>, batch: seq<Session>,
                       so: Sock, pkt: Packet, fast': seq<Session>, batch': seq<Session>)
    requires Counted(queued, nqueued, fast, batch) && Removed(fast, batch, so, pkt, fast', batch')
    ensures so.Socket? ==> Count(queued, so.id) > 0
    ensures Counted(Lower(queued, so), Paused(Lower(queued, so), nqueued, so), fast', batch')
  {
    hide Pending, Amount;
    forall id: nat ensures CountedFor(Lower(queued, so), Paused(Lower(queued, so), nqueued, so), fast', batch', id) {
      assert CountedFor(queued, nqueued, fast, batch, id);
    }
    if so.Socket? {
      assert CountedFor(queued, nqueued, fast, batch, so.id);
    }
  }

  lemma SameKept(inLog: seq<Entry>, outLog: seq<Entry>, queued: map<nat, nat>, nqueued: map<nat, nat>,
                 fast: seq<Session>, batch: seq<Session>, fast': seq<Session>, batch': seq<Session>)
    requires Ledger(inLog, outLog, fast, batch) && Counted(queued, nqueued, fast, batch)
    requires SamePending(fast, batch, fast', batch')
    ensures Ledger(inLog, outLog, fast', batch') && Counted(queued, nqueued, fast', batch')
  {
    hide Of, Pending, Amount;
    forall id: nat ensures CountedFor(queued, nqueued, fast', batch', id) {
      assert CountedFor(queued, nqueued, fast, batch, id);
    }
  }

  /** Where a socket's session is. */
  function IndexOf(q: seq<Session>, so: Sock): (i: nat)
    requires !Absent(q, so)
    ensures i < |q| && q[i].so == so
  {
    if q[0].so == so then 0 else 1 + IndexOf(q[1..], so)
  }

  /** The session a batch send takes from. */
  function NextIndex(batch: seq<Session>, next: Next): (i: nat)
    requires next.At? ==> !Absent(batch, next.so)
    ensures batch != [] ==> i < |batch|
  {
    if next.At? then IndexOf(batch, next.so) else 0
  }

  function Following(batch: seq<Session>, i: nat): Next
    requires i < |batch|
  {
    if i + 1 < |batch| then At(batch[i + 1].so) else Head
  }

  /** Where a packet was put. */
  datatype Place = OnBatch(index: nat) | LastFast

  class Interface {
    var fastq: seq<Session>
    var batchq: seq<Session>
    var nextM: Next
    var queued: nat
    var soQueued: map<nat, nat>
    var soNqueued: map<nat, nat>
    ghost var inLog: seq<Entry>
    ghost var outLog: seq<Entry>

    ghost predicate Valid()
      reads this
    {
      && Shape(fastq, batchq)
      && queued == Amount(fastq, batchq)
      && (nextM.At? ==> !Absent(batchq, nextM.so))
      && Ledger(inLog, outLog, fastq, batchq)
      && Counted(soQueued, soNqueued, fastq, batchq)
    }

    constructor ()
      ensures Valid() && inLog == [] && outLog == []
    {
      fastq, batchq, nextM, queued := [], [], Head, 0;
      soQueued, soNqueued, inLog, outLog := map[], map[], [], [];
    }

    /** Choose a queue for the packet and put it there. */
    method Put(so: Sock, pkt: Packet, lowDelay: bool) returns (place: Place)
      requires Valid()
      modifies this`fastq, this`batchq
      ensures Shape(fastq, batchq) && Added(old(fastq), old(batchq), so, pkt, fastq, batchq)
      ensures nextM.At? ==> !Absent(batchq, nextM.so)
      ensures match place
              case OnBatch(i) => i < |batchq| && batchq[i].so == so && fastq == old(fastq)
              case LastFast => fastq != [] && fastq[|fastq| - 1].so == so && Absent(batchq, so) && batchq == old(batchq)
      ensures place.LastFast? <==> Absent(old(batchq), so) && so.Socket? && lowDelay
      ensures place.LastFast? ==> fastq == JoinedLast(old(fastq), so, pkt)
      ensures place.OnBatch? ==> |batchq| == |old(batchq)| + if Absent(old(batchq), so) then 1 else 0
      ensures place.OnBatch? && Absent(old(batchq), so) ==> place.index == |old(batchq)|
    {
      hide PacketsOf, Total, Added, Ledger, Counted;
      var i := |batchq|;
      while i > 0
        invariant 0 <= i <= |batchq|
        invariant forall j :: i <= j < |batchq| ==> batchq[j].so != so
      {
        i := i - 1;
        if batchq[i].so == so {
          AddedToBatch(fastq, batchq, i, pkt);
          StillThere(batchq, i, Grown(batchq[i], pkt), nextM);
          batchq := batchq[i := Grown(batchq[i], pkt)];
          return OnBatch(i);
        }
      }
      if so.Socket? && lowDelay {
        var l := |fastq| - 1;
        if l >= 0 && fastq[l].so == so {
          AddedToLast(fastq, batchq, pkt);
          fastq := fastq[l := Grown(fastq[l], pkt)];
        } else {
          AddedNewFast(fastq, batchq, so, pkt);
          fastq := fastq + [Session(so, [pkt])];
        }
        return LastFast;
      }
      AddedNewBatch(fastq, batchq, so, pkt);
      StillThereAppended(batchq, [Session(so, [pkt])], nextM);
      batchq := batchq + [Session(so, [pkt])];
      place := OnBatch(|batchq| - 1);
    }

    /** Put the session that holds the packet at the front of the batch queue. */
    method Downgrade(place: Place)
      requires Valid()
      requires match place
               case OnBatch(i) => i < |batchq|
               case LastFast => fastq != [] && Absent(batchq, fastq[|fastq| - 1].so)
      modifies this`fastq, this`batchq
      ensures Valid()
      ensures SamePending(old(fastq), old(batchq), fastq, batchq)
      ensures batchq != []
      ensures batchq[0] == match place case OnBatch(i) => old(batchq)[i] case LastFast => old(fastq)[|old(fastq)| - 1]
    {
      hide PacketsOf, Total, Ledger, Counted, Amount, Absent, Shape, Pending;
      match place
      case OnBatch(i) =>
        DowngradeBatch(fastq, batchq, i);
        var b := [batchq[i]] + (batchq[..i] + batchq[i + 1..]);
        SameKept(inLog, outLog, soQueued, soNqueued, fastq, batchq, fastq, b);
        MovedToFront(batchq, i, nextM);
        batchq := b;
      case LastFast =>
        var l := |fastq| - 1;
        DowngradeFast(fastq, batchq);
        SameKept(inLog, outLog, soQueued, soNqueued, fastq, batchq, fastq[..l], [fastq[l]] + batchq);
        StillThereAppended([fastq[l]], batchq, nextM);
        fastq, batchq := fastq[..l], [fastq[l]] + batchq;
    }

    /** A session is greedy once six packets were queued without a pause and three of them have left. */
    static predicate Greedy(queued: map<nat, nat>, nqueued: map<nat, nat>, so: Sock) {
      so.Socket? && Count(nqueued, so.id) >= 6 && Count(nqueued, so.id) - Count(queued, so.id) >= 3
    }

    /** Queue a packet, and move a greedy session to the front of the batch queue. */
    method Queue(so: Sock, pkt: Packet, lowDelay: bool) returns (moved: bool)
      requires Valid()
      modifies this
      ensures Valid() && inLog == old(inLog) + [Entry(so, pkt)] && outLog == old(outLog) && nextM == old(nextM)
      ensures queued == old(queued) + 1
      ensures forall id :: Count(soQueued, id) == Count(old(soQueued), id) + if so == Socket(id) then 1 else 0
      ensures forall id :: Count(soNqueued, id) == Count(old(soNqueued), id) + if so == Socket(id) then 1 else 0
      ensures moved <==> Greedy(soQueued, soNqueued, so)
      ensures moved ==> batchq != [] && batchq[0].so == so
    {
      hide PacketsOf, Total, Ledger, Counted, Absent, Shape, Pending;
      var place := Put(so, pkt, lowDelay);
      LedgerAdded(inLog, outLog, old(fastq), old(batchq), so, pkt, fastq, batchq);
      CountedAdded(soQueued, soNqueued, old(fastq), old(batchq), so, pkt, fastq, batchq);
      inLog := inLog + [Entry(so, pkt)];
      queued := queued + 1;
      soQueued, soNqueued := Bump(soQueued, so), Bump(soNqueued, so);
      moved := false;
      if so.Socket? && Count(soNqueued, so.id) >= 6 && Count(soNqueued, so.id) - Count(soQueued, so.id) >= 3 {
        Downgrade(place);
        moved := true;
      }
    }

    /** if_output: queue a packet, then send what can be sent. */
    method Output(so: Sock, pkt: Packet, lowDelay: bool, takes: nat)
      requires Valid()
      modifies this
      ensures Valid() && inLog == old(inLog) + [Entry(so, pkt)] && old(outLog) <= outLog
      ensures |outLog| == |old(outLog)| + if takes <= old(queued) then takes else old(queued) + 1
    {
      hide PacketsOf, Total, Ledger, Counted, Absent, Shape, Pending;
      var moved := Queue(so, pkt, lowDelay);
      Start(takes);
    }

    /**
     One packet of if_start: from the first fast session if there is one, else
     from the batch session whose turn it is.
     */
    method SendOne() returns (e: Entry)
      requires Valid() && queued > 0
      modifies this
      ensures Valid() && inLog == old(inLog) && outLog == old(outLog) + [e] && queued == old(queued) - 1
      ensures if old(fastq) != [] then
                && e == Entry(old(fastq)[0].so, old(fastq)[0].pkts[0])
                && batchq == old(batchq) && nextM == old(nextM)
              else
                && fastq == [] && old(batchq) != []
                && var i := NextIndex(old(batchq), old(nextM));
                && e == Entry(old(batchq)[i].so, old(batchq)[i].pkts[0])
                && batchq == old(batchq)[..i] + Rest(old(batchq)[i]) + old(batchq)[i + 1..]
                && nextM == Following(old(batchq), i)
      ensures forall id :: Count(soQueued, id) == Count(old(soQueued), id) - if e.so == Socket(id) then 1 else 0
      ensures forall id :: Count(soNqueued, id) ==
                if e.so == Socket(id) && Count(soQueued, id) == 0 then 0 else Count(old(soNqueued), id)
    {
      hide PacketsOf, Total, Ledger, Counted, Absent, Pending, Amount, Count, Lower, Paused;
      SomethingQueued(fastq, batchq);
      if fastq != [] {
        var s := fastq[0];
        SentFast(fastq, batchq);
        e := Entry(s.so, s.pkts[0]);
        fastq := Rest(s) + fastq[1..];
      } else {
        var i := NextIndex(batchq, nextM);
        var s := batchq[i];
        SentBatch(batchq, i);
        NextKept(batchq, i);
        e := Entry(s.so, s.pkts[0]);
        nextM := Following(batchq, i);
        batchq := batchq[..i] + Rest(s) + batchq[i + 1..];
      }
      assert Removed(old(fastq), old(batchq), e.so, e.pkt, fastq, batchq);
      LedgerRemoved(inLog, outLog, old(fastq), old(batchq), e.so, e.pkt, fastq, batchq);
      CountedRemoved(soQueued, soNqueued, old(fastq), old(batchq), e.so, e.pkt, fastq, batchq);
      CountsAfter(soQueued, soNqueued, e.so);
      outLog := outLog + [e];
      queued := queued - 1;
      soQueued := Lower(soQueued, e.so);
      soNqueued := Paused(soQueued, soNqueued, e.so);
    }

    /** if_start: send for as long as the link takes packets, of which it takes so many now. */
    method Start(takes: nat)
      requires Valid()
      modifies this
      ensures Valid() && inLog == old(inLog) && old(outLog) <= outLog
      ensures var n := if takes < old(queued) then takes else old(queued);
              |outLog| == |old(outLog)| + n && queued == old(queued) - n
    {
      hide PacketsOf, Total, Ledger, Counted, Absent, Pending, Amount, Shape;
      var left := takes;
      while queued > 0
        invariant Valid() && inLog == old(inLog) && old(outLog) <= outLog && 0 <= left <= takes
        invariant |outLog| == |old(outLog)| + (takes - left) && queued == old(queued) - (takes - left)
        decreases queued
      {
        if left == 0 {
          return;
        }
        left := left - 1;
        var e := SendOne();
      }
    }

    /**
     if_start while no fast session has packets, over k packets. Two sockets that
     still have packets at the end have had as many sent, or one more or fewer.
     */
    method DrainBatch(k: nat) returns (ghost sent: seq<Entry>)
      requires Valid() && fastq == [] && k <= queued
      modifies this
      ensures Valid() && inLog == old(inLog) && outLog == old(outLog) + sent && |sent| == k
      ensures fastq == [] && queued == old(queued) - k
      ensures forall i, j :: 0 <= i < |batchq| && 0 <= j < |batchq| ==>
                -1 <= |Of(sent, batchq[i].so)| - |Of(sent, batchq[j].so)| <= 1
    {
      hide PacketsOf, Total, Ledger, Counted, Absent, Pending, Amount, NonEmpty, Distinct, After, SentIn, Turns, Of,
           NextIndex, Following, Rest;
      ghost var r := Turns(batchq, nextM);
      sent := [];
      NoTurns(r);
      for n := 0 to k
        invariant Valid() && inLog == old(inLog) && outLog == old(outLog) + sent && |sent| == n
        invariant fastq == [] && queued == old(queued) - n
        invariant Turns(batchq, nextM) == After(r, n) && Tally(r, n, sent)
      {
        ghost var batch, next := batchq, nextM;
        var e := SendOne();
        OneTurn(r, n, batch, next, sent);
        sent := sent + [e];
      }
      AllFair(r, k, batchq, nextM, sent);
    }
  }

  lemma SomethingQueued(fast: seq<Session>, batch: seq<Session>)
    requires Shape(fast, batch) && Amount(fast, batch) > 0
    ensures fast != [] || batch != []
  {
  }

  lemma MovedToFront(q: seq<Session>, i: nat, next: Next)
    requires i < |q| && (next.At? ==> !Absent(q, next.so))
    ensures next.At? ==> !Absent([q[i]] + (q[..i] + q[i + 1..]), next.so)
  {
    if next.At? {
      var j :| 0 <= j < |q| && q[j].so == next.so;
      var b := [q[i]] + (q[..i] + q[i + 1..]);
      assert b[if j == i then 0 else if j < i then j + 1 else j].so == next.so;
    }
  }

  /** The session after the one sent from stays on the queue. */
  lemma NextKept(q: seq<Session>, i: nat)
    requires i < |q| && q[i].pkts != []
    ensures Following(q, i).At? ==> !Absent(q[..i] + Rest(q[i]) + q[i + 1..], Following(q, i).so)
  {
    if i + 1 < |q| {
      var b := q[..i] + Rest(q[i]) + q[i + 1..];
      assert b[i + |Rest(q[i])|].so == q[i + 1].so;
    }
  }

  lemma StillThere(q: seq<Session>, i: nat, s: Session, next: Next)
    requires i < |q| && s.so == q[i].so && (next.At? ==> !Absent(q, next.so))
    ensures next.At? ==> !Absent(q[i := s], next.so)
  {
    if next.At? {
      var j :| 0 <= j < |q| && q[j].so == next.so;
      assert q[i := s][j].so == next.so;
    }
  }

  lemma StillThereAppended(a: seq<Session>, b: seq<Session>, next: Next)
    requires next.At? ==> !Absent(a, next.so) || !Absent(b, next.so)
    ensures next.At? ==> !Absent(a + b, next.so)
  {
    if next.At? {
      if !Absent(a, next.so) {
        var j :| 0 <= j < |a| && a[j].so == next.so;
        assert (a + b)[j].so == next.so;
      } else {
        var j :| 0 <= j < |b| && b[j].so == next.so;
        assert (a + b)[|a| + j].so == next.so;
      }
    }
  }

  /** A list begun again at place i. */
  ghost function Rotated(q: seq<Session>, i: nat): seq<Session>
    requires i <= |q|
  {
    q[i..] + q[..i]
  }

  lemma RotatedShape(q: seq<Session>, i: nat)
    requires i <= |q| && Distinct(q) && NonEmpty(q)
    ensures Distinct(Rotated(q, i)) && NonEmpty(Rotated(q, i))
  {
  }

  /** One session for each socket, none empty, and next_m is one of them. */
  ghost predicate Ready(batch: seq<Session>, next: Next) {
    Distinct(batch) && NonEmpty(batch) && (next.At? ==> !Absent(batch, next.so))
  }

  /** The batch sessions in the order of their turns. */
  ghost function Turns(batch: seq<Session>, next: Next): (r: seq<Session>)
    requires Ready(batch, next)
    ensures Distinct(r) && NonEmpty(r) && |r| == |batch|
  {
    if batch == [] then [] else
      RotatedShape(batch, NextIndex(batch, next));
      Rotated(batch, NextIndex(batch, next))
  }

  /** One packet of the first session, which then goes to the back. */
  ghost function Turn(r: seq<Session>): seq<Session>
    requires NonEmpty(r)
  {
    if r == [] then [] else r[1..] + Rest(r[0])
  }

  lemma IndexIs(q: seq<Session>, i: nat)
    requires Distinct(q) && i < |q|
    ensures !Absent(q, q[i].so) && IndexOf(q, q[i].so) == i
  {
  }

  /** Sending from place i and going on behind it turns the rotated list. */
  lemma RotatedSend(q: seq<Session>, i: nat)
    requires NonEmpty(q) && i < |q|
    ensures var b := q[..i] + Rest(q[i]) + q[i + 1..];
            && Rotated(q, i)[0] == q[i]
            && Rotated(b, i + |Rest(q[i])|) == Rotated(q, i)[1..] + Rest(q[i])
            && (i + 1 == |q| ==> Rotated(b, 0) == Rotated(b, i + |Rest(q[i])|))
            && (i + 1 < |q| ==> b[i + |Rest(q[i])|] == q[i + 1])
  {
    hide Rest;
    var s := Rest(q[i]);
    var b := q[..i] + s + q[i + 1..];
    assert Rotated(q, i)[1..] == q[i + 1..] + q[..i];
    assert b[i + |s|..] == q[i + 1..] && b[..i + |s|] == q[..i] + s;
    if i + 1 == |q| {
      assert b == q[..i] + s;
    }
  }

  /** The queue with next_m is a round-robin ring: a batch send turns it. */
  lemma BatchSendTurns(batch: seq<Session>, next: Next)
    requires Ready(batch, next) && batch != []
    ensures var i := NextIndex(batch, next);
            var b := batch[..i] + Rest(batch[i]) + batch[i + 1..];
            && Ready(b, Following(batch, i))
            && Turns(batch, next)[0] == batch[i]
            && Turns(b, Following(batch, i)) == Turn(Turns(batch, next))
  {
    var i := NextIndex(batch, next);
    var b := batch[..i] + Rest(batch[i]) + batch[i + 1..];
    BatchShape(batch, i);
    NextKept(batch, i);
    RotatedSend(batch, i);
    hide IndexOf, Distinct, NonEmpty, Absent, Rest, Rotated;
    if i + 1 < |batch| {
      IndexIs(b, i + |Rest(batch[i])|);
    }
  }

  lemma TurnShape(r: seq<Session>)
    requires Distinct(r) && NonEmpty(r)
    ensures Distinct(Turn(r)) && NonEmpty(Turn(r))
  {
  }

  /** The ring after k turns. */
  ghost function After(r: seq<Session>, k: nat): (t: seq<Session>)
    requires Distinct(r) && NonEmpty(r)
    ensures Distinct(t) && NonEmpty(t)
  {
    if k == 0 then r else TurnShape(After(r, k - 1)); Turn(After(r, k - 1))
  }

  /** How many of the first k turns were the socket's. */
  ghost function SentIn(r: seq<Session>, k: nat, so: Sock): nat
    requires Distinct(r) && NonEmpty(r)
  {
    if k == 0 then 0
    else SentIn(r, k - 1, so) + if After(r, k - 1) != [] && After(r, k - 1)[0].so == so then 1 else 0
  }

  /** Sessions up to place m of the ring have had c turns, those behind them one more. */
  ghost predicate Level(r: seq<Session>, k: nat, c: nat, m: nat)
    requires Distinct(r) && NonEmpty(r)
  {
    && m <= |After(r, k)|
    && forall i :: 0 <= i < |After(r, k)| ==> SentIn(r, k, After(r, k)[i].so) == if i < m then c else c + 1
  }

  lemma {:induction false} StaysLevel(r: seq<Session>, k: nat) returns (c: nat, m: nat)
    requires Distinct(r) && NonEmpty(r)
    ensures Level(r, k, c, m)
  {
    if k == 0 {
      return 0, |r|;
    }
    c, m := StaysLevel(r, k - 1);
    var a := After(r, k - 1);
    if a != [] && m == 0 {
      c, m := c + 1, |a|;
    }
    if a != [] {
      m := m - 1;
      LevelAfterTurn(r, k - 1, c, m + 1);
    }
  }

  lemma NextTurn(r: seq<Session>, k: nat, so: Sock)
    requires Distinct(r) && NonEmpty(r) && After(r, k) != []
    ensures After(r, k + 1) == After(r, k)[1..] + Rest(After(r, k)[0])
    ensures SentIn(r, k + 1, so) == SentIn(r, k, so) + if After(r, k)[0].so == so then 1 else 0
  {
  }

  lemma LevelAfterTurn(r: seq<Session>, k: nat, c: nat, m: nat)
    requires Distinct(r) && NonEmpty(r) && After(r, k) != [] && m > 0 && Level(r, k, c, m)
    ensures Level(r, k + 1, c, m - 1)
  {
    hide After, SentIn;
    var a, b := After(r, k), After(r, k + 1);
    NextTurn(r, k, a[0].so);
    forall i | 0 <= i < |b| ensures SentIn(r, k + 1, b[i].so) == if i < m - 1 then c else c + 1 {
      NextTurn(r, k, b[i].so);
      if i < |a| - 1 {
        assert b[i] == a[i + 1] && a[0].so != a[i + 1].so;
      } else {
        assert b[i].so == a[0].so;
      }
    }
  }

  /** Each socket has as many packets in the log as it had turns. */
  ghost predicate Tally(r: seq<Session>, k: nat, sent: seq<Entry>)
    requires Distinct(r) && NonEmpty(r)
  {
    forall so :: |Of(sent, so)| == SentIn(r, k, so)
  }

  lemma NoTurns(r: seq<Session>)
    requires Distinct(r) && NonEmpty(r)
    ensures After(r, 0) == r && Tally(r, 0, [])
  {
  }

  /** A batch send is one turn of the ring, and its packet one more of the socket whose turn it is. */
  lemma OneTurn(r: seq<Session>, k: nat, batch: seq<Session>, next: Next, sent: seq<Entry>)
    requires Distinct(r) && NonEmpty(r)
    requires Ready(batch, next) && batch != []
    requires Turns(batch, next) == After(r, k) && Tally(r, k, sent)
    ensures var i := NextIndex(batch, next);
            var b := batch[..i] + Rest(batch[i]) + batch[i + 1..];
            && Ready(b, Following(batch, i))
            && Turns(b, Following(batch, i)) == After(r, k + 1)
            && Tally(r, k + 1, sent + [Entry(batch[i].so, batch[i].pkts[0])])
  {
    hide Turns, SentIn, Of, Distinct, Absent, NextIndex, Following, Rest;
    BatchSendTurns(batch, next);
    var i := NextIndex(batch, next);
    var e := Entry(batch[i].so, batch[i].pkts[0]);
    forall so ensures |Of(sent + [e], so)| == SentIn(r, k + 1, so) {
      OfLogged(sent, e, so);
      NextTurn(r, k, so);
    }
  }

  /** Sessions in the ring are at most one packet apart. */
  lemma RingIsFair(r: seq<Session>, k: nat, i: nat, j: nat)
    requires Distinct(r) && NonEmpty(r) && i < |After(r, k)| && j < |After(r, k)|
    ensures -1 <= SentIn(r, k, After(r, k)[i].so) - SentIn(r, k, After(r, k)[j].so) <= 1
  {
    var c, m := StaysLevel(r, k);
  }

  /** Every session of the queue has a place in the ring. */
  lemma PlaceInRing(batch: seq<Session>, next: Next, i: nat) returns (p: nat)
    requires Ready(batch, next) && i < |batch|
    ensures p < |Turns(batch, next)| && Turns(batch, next)[p] == batch[i]
  {
    var n := NextIndex(batch, next);
    p := if i < n then |batch| - n + i else i - n;
  }

  lemma AllFair(r: seq<Session>, k: nat, batch: seq<Session>, next: Next, sent: seq<Entry>)
    requires Distinct(r) && NonEmpty(r)
    requires Ready(batch, next)
    requires Turns(batch, next) == After(r, k) && Tally(r, k, sent)
    ensures forall i, j :: 0 <= i < |batch| && 0 <= j < |batch| ==>
              -1 <= |Of(sent, batch[i].so)| - |Of(sent, batch[j].so)| <= 1
  {
    hide Turns, After, SentIn, Of, Distinct, NonEmpty, Absent;
    forall i, j | 0 <= i < |batch| && 0 <= j < |batch|
      ensures -1 <= |Of(sent, batch[i].so)| - |Of(sent, batch[j].so)| <= 1
    {
      var p := PlaceInRing(batch, next, i);
      var q := PlaceInRing(batch, next, j);
      RingIsFair(r, k, p, q);
    }
  }
}
