/**
 The socket ring buffer of sbuf.c and socket.c. Every operation is proved to act
 on a bounded Byte queue: appends add at its end, drops and host writes remove
 from its front, host reads fill free space that sopreprbuf offered.
 */
module SocketBuffer {
  import opened Common

  /** No socket buffer is larger than this. */
  const MAX_BUFFER := 0x1000_0000

  /** Up to two runs of buffer space, as handed to readv and writev. */
  datatype Runs = Runs(base0: nat, len0: nat, base1: nat, len1: nat) {
    function Total(): nat { len0 + len1 }
  }

  /** Position i of a ring of n cells, counted past the end at most once. */
  function Wrap(i: nat, n: nat): nat
    requires i < 2 * n
  {
    if i < n then i else i - n
  }

  /** Cell i of ring d counted from position r. */
  function Cell(d: seq<Byte>, r: nat, i: nat): Byte
    requires r < |d| && i < |d|
  {
    d[Wrap(r + i, |d|)]
  }

  /** The c cells of ring d from position r on. */
  ghost function Ring(d: seq<Byte>, r: nat, c: nat): (s: seq<Byte>)
    requires r < |d| && c <= |d|
    ensures |s| == c
  {
    seq(c, i requires 0 <= i < c => Cell(d, r, i))
  }

  /** Dropping from the front of a ring moves its start. */
  lemma RingDrop(d: seq<Byte>, r: nat, c: nat, n: nat)
    requires r < |d| && n <= c <= |d|
    ensures Ring(d, Wrap(r + n, |d|), c - n) == Ring(d, r, c)[n..]
  {
    var w, t := Ring(d, Wrap(r + n, |d|), c - n), Ring(d, r, c);
    forall i | 0 <= i < |w| ensures w[i] == t[n..][i] {
      assert w[i] == Cell(d, Wrap(r + n, |d|), i) == Cell(d, r, n + i) == t[n + i];
    }
  }

  /** A run of a ring is one or two runs of its cells. */
  lemma RingRun(d: seq<Byte>, r: nat, c: nat, off: nat, len: nat)
    requires r < |d| && off + len <= c <= |d|
    ensures var from := if r + off < |d| then r + off else r + off - |d|;
            Ring(d, r, c)[off..off + len] ==
            if from + len <= |d| then d[from..from + len] else d[from..] + d[..from + len - |d|]
  {
    var from := if r + off < |d| then r + off else r + off - |d|;
    var s := if from + len <= |d| then d[from..from + len] else d[from..] + d[..from + len - |d|];
    var t := Ring(d, r, c)[off..off + len];
    forall i | 0 <= i < len ensures s[i] == t[i] {
      assert t[i] == Cell(d, r, off + i);
    }
  }

  /** Ring d with m written from position w on, wrapping at the end. */
  ghost function Fill(d: seq<Byte>, w: nat, m: seq<Byte>): (s: seq<Byte>)
    requires w < |d| && |m| <= |d|
    ensures |s| == |d|
  {
    seq(|d|, k requires 0 <= k < |d| =>
      if w <= k < w + |m| then m[k - w] else if k + |d| < w + |m| then m[k + |d| - w] else d[k])
  }

  /** Writing from the end of the queue on appends to it. */
  lemma FillAppends(d: seq<Byte>, r: nat, c: nat, m: seq<Byte>)
    requires r < |d| && c + |m| <= |d|
    requires c < |d| || m == []
    ensures Ring(Fill(d, Wrap(r + c, |d|), m), r, c + |m|) == Ring(d, r, c) + m
  {
    var e := Fill(d, Wrap(r + c, |d|), m);
    var s, t := Ring(e, r, c + |m|), Ring(d, r, c) + m;
    forall i | 0 <= i < c + |m| ensures s[i] == t[i] {
      assert s[i] == Cell(e, r, i);
    }
  }

  /** How much a host read may take: all the space if at most one segment, else whole segments. */
  function Offer(space: int, mss: nat): (o: int)
    requires mss > 0
    ensures 0 <= space ==> 0 <= o <= space
    ensures if space <= mss then o == space else o % mss == 0 && space < o + mss
  {
    if space <= mss then space else WholeSegments(space, mss); space - space % mss
  }

  lemma WholeSegments(space: nat, mss: nat)
    requires mss > 0
    ensures (space - space % mss) % mss == 0 && space % mss < mss
  {
    var q := space / mss;
    assert space - space % mss == q * mss;
    MultipleLeavesNothing(q, mss);
  }

  lemma MultipleLeavesNothing(q: nat, m: nat)
    requires m > 0
    ensures (q * m) % m == 0
  {
    var x := q * m;
    var d := x / m - q;
    assert x % m == 0 - d * m;
    assert d < 0 ==> 0 - d * m >= m;
  }

  function Min(a: int, b: int): int { if a < b then a else b }

  function Max(a: int, b: int): int { if a < b then b else a }

  class SBuf {
    var data: array<Byte>
    var rptr: nat
    var wptr: nat
    var cc: nat

    ghost predicate Valid()
      reads this, data
    {
      && 0 < data.Length && rptr < data.Length && cc <= data.Length
      && wptr == (if rptr + cc < data.Length then rptr + cc else rptr + cc - data.Length)
    }

    /** The queued bytes, oldest first. */
    ghost function Contents(): (s: seq<Byte>)
      reads this, data
      requires Valid()
      ensures |s| == cc
    {
      Ring(data[..], rptr, cc)
    }

    function Space(): int
      reads this
    {
      data.Length - cc
    }

    constructor Reserve(size: nat)
      requires size > 0
      ensures Valid() && fresh(data) && Contents() == [] && Space() == size
    {
      data := new Byte[size];
      rptr, wptr, cc := 0, 0, 0;
    }

    method Drop(num: nat)
      requires Valid()
      modifies this`rptr, this`cc
      ensures Valid() && data == old(data)
      ensures Contents() == old(Contents())[Min(num, old(cc))..]
    {
      var n := if num > cc then cc else num;
      RingDrop(data[..], rptr, cc, n);
      cc := cc - n;
      rptr := rptr + n;
      if rptr >= data.Length {
        rptr := rptr - data.Length;
      }
    }

    /** memcpy of m[from..from+n] to the buffer at base. */
    method CopyIn(base: nat, m: seq<Byte>, from: nat, n: nat)
      requires base + n <= data.Length && from + n <= |m|
      modifies data
      ensures forall i :: 0 <= i < data.Length ==>
                data[i] == if base <= i < base + n then m[from + (i - base)] else old(data[i])
    {
      forall i | 0 <= i < n {
        data[base + i] := m[from + i];
      }
    }

    /** sbappendsb: room for m is the caller's responsibility. */
    method Append(m: seq<Byte>)
      requires Valid() && |m| <= Space()
      modifies this`wptr, this`cc, data
      ensures Valid() && data == old(data)
      ensures Contents() == old(Contents()) + m
    {
      hide Ring, Cell;
      ghost var d := data[..];
      var n: nat;
      var len := |m|;
      if wptr < rptr {
        n := rptr - wptr;
        if n > len {
          n := len;
        }
        CopyIn(wptr, m, 0, n);
      } else {
        n := data.Length - wptr;
        if n > len {
          n := len;
        }
        CopyIn(wptr, m, 0, n);
        len := len - n;
        if len != 0 {
          var nn := rptr;
          if nn > len {
            nn := len;
          }
          CopyIn(0, m, n, nn);
          n := n + nn;
        }
      }
      assert data[..] == Fill(d, wptr, m);
      FillAppends(d, rptr, cc, m);
      cc := cc + n;
      wptr := wptr + n;
      if wptr >= data.Length {
        wptr := wptr - data.Length;
      }
    }

    /** sbcopy: bytes off.. of the queue, left in place for retransmission. */
    method Copy(off: nat, len: nat) returns (to: seq<Byte>)
      requires Valid() && off + len <= cc
      ensures to == Contents()[off..off + len]
    {
      var from := rptr + off;
      if from >= data.Length {
        from := from - data.Length;
      }
      if from < wptr {
        var l := if len > cc then cc else len;
        to := data[from..from + l];
      } else {
        var edge := data.Length - from;
        if edge > len {
          edge := len;
        }
        to := data[from..from + edge];
        if len - edge != 0 {
          to := to + data[..len - edge];
        }
      }
      RingRun(data[..], rptr, cc, off, len);
    }

    /** The free space after the write pointer, and the part that wraps to the start. */
    ghost predicate FreeRuns(r: Runs)
      reads this, data
      requires Valid()
    {
      && r.Total() <= Space()
      && r.base0 == wptr && r.base0 + r.len0 <= data.Length
      && (r.len1 > 0 ==> r.base1 == 0 && r.base0 + r.len0 == data.Length && r.len1 <= rptr)
    }

    /**
     sopreprbuf: where the next host read may go. All of the free space if it is
     no more than one segment, otherwise the largest whole number of segments.
     */
    method PrepareRead(mss: nat) returns (r: Runs)
      requires Valid() && mss > 0
      ensures FreeRuns(r)
      ensures r.Total() == Offer(Space(), mss)
    {
      var len := data.Length - cc;
      if len <= 0 {
        return Runs(wptr, 0, 0, 0);
      }
      var len0: int, len1: int, n := 0, 0, 1;
      if wptr < rptr {
        len0 := rptr - wptr;
        if len0 > len {
          len0 := len;
        }
        if len0 > mss {
          len0 := len0 - len0 % mss;
        }
      } else {
        len0 := data.Length - wptr;
        if len0 > len {
          len0 := len;
        }
        len := len - len0;
        if len != 0 {
          len1 := rptr;
          if len1 > len {
            len1 := len;
          }
          var total := len0 + len1;
          if total > mss {
            var lss := total % mss;
            if len1 > lss {
              len1 := len1 - lss;
              n := 2;
            } else {
              lss := lss - len1;
              len0 := len0 - lss;
            }
          } else {
            n := 2;
          }
        } else if len0 > mss {
          len0 := len0 - len0 % mss;
        }
      }
      r := Runs(wptr, len0, 0, if n == 2 then len1 else 0);
    }

    /**
     soread: the host delivers bytes, no more than were offered; they join the
     queue in order. A read of nothing changes nothing.
     */
    method Read(mss: nat, incoming: seq<Byte>) returns (nn: nat)
      requires Valid() && mss > 0
      requires |incoming| <= Offer(Space(), mss)
      modifies this`wptr, this`cc, data
      ensures Valid() && data == old(data)
      ensures nn == |incoming| && Contents() == old(Contents()) + incoming
    {
      hide Ring, Cell, Offer;
      ghost var d := data[..];
      var r := PrepareRead(mss);
      nn := |incoming|;
      var first := if nn < r.len0 then nn else r.len0;
      CopyIn(r.base0, incoming, 0, first);
      if nn > first {
        CopyIn(r.base1, incoming, first, nn - first);
      }
      assert data[..] == Fill(d, wptr, incoming);
      FillAppends(d, rptr, cc, incoming);
      cc := cc + nn;
      wptr := wptr + nn;
      if wptr >= data.Length {
        wptr := wptr - data.Length;
      }
    }

    /** The queued bytes, in one or two runs. */
    method Gather() returns (all: seq<Byte>)
      requires Valid()
      ensures all == Contents()
    {
      hide Ring, Cell;
      var len := cc;
      var len0: int, len1: int := 0, 0;
      if rptr < wptr {
        len0 := wptr - rptr;
        if len0 > len {
          len0 := len;
        }
      } else {
        len0 := data.Length - rptr;
        if len0 > len {
          len0 := len;
        }
        len := len - len0;
        if len != 0 {
          len1 := wptr;
          if len1 > len {
            len1 := len;
          }
        }
      }
      all := data[rptr..rptr + len0] + data[..len1];
      RingRun(data[..], rptr, cc, 0, cc);
      assert all == Contents()[0..cc] == Contents();
    }

    /** sowrite: the host takes the first nn queued bytes. */
    method Write(nn: nat) returns (written: seq<Byte>)
      requires Valid() && nn <= cc
      modifies this`rptr, this`cc
      ensures Valid() && data == old(data)
      ensures written == old(Contents())[..nn] && Contents() == old(Contents())[nn..]
    {
      hide Ring, Cell;
      var all := Gather();
      written := all[..nn];
      RingDrop(data[..], rptr, cc, nn);
      cc := cc - nn;
      rptr := rptr + nn;
      if rptr >= data.Length {
        rptr := rptr - data.Length;
      }
    }
  }
}
