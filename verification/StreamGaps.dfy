/**
 What is left of a stream when some of its places are passed over: tcp_input
 counts one sequence number for every FIN it acts on, wherever that is.
 */
module StreamGaps {
  import opened Common

  /** The bytes of the first n places, without those passed over; a place after the last byte holds none. */
  ghost function Passed(stream: seq<Byte>, n: nat, skipped: set<nat>): seq<Byte> {
    if n == 0 then []
    else Passed(stream, n - 1, skipped) + if n - 1 in skipped || n > |stream| then [] else [stream[n - 1]]
  }

  /** A run of places of which none is passed over. */
  lemma {:induction false} PassedRun(stream: seq<Byte>, n: nat, k: nat, skipped: set<nat>)
    requires n + k <= |stream| && forall p :: p in skipped ==> p < n
    ensures Passed(stream, n + k, skipped) == Passed(stream, n, skipped) + stream[n..n + k]
  {
    if k > 0 {
      PassedRun(stream, n, k - 1, skipped);
      assert stream[n..n + k] == stream[n..n + k - 1] + [stream[n + k - 1]];
    }
  }

  /** Passing over a later place changes nothing before it. */
  lemma {:induction false} PassedBefore(stream: seq<Byte>, n: nat, skipped: set<nat>, p: nat)
    requires n <= p
    ensures Passed(stream, n, skipped + {p}) == Passed(stream, n, skipped)
  {
    if n > 0 {
      PassedBefore(stream, n - 1, skipped, p);
    }
  }

  /** Passing over the next place. */
  lemma PassedOver(stream: seq<Byte>, n: nat, skipped: set<nat>)
    ensures Passed(stream, n + 1, skipped + {n}) == Passed(stream, n, skipped)
  {
    PassedBefore(stream, n, skipped, n);
  }

  /** Only the part of the stream that has been reached matters. */
  lemma {:induction false} PassedOfPart(part: seq<Byte>, whole: seq<Byte>, n: nat, skipped: set<nat>)
    requires part <= whole && (n <= |part| || part == whole)
    ensures Passed(whole, n, skipped) == Passed(part, n, skipped)
  {
    if n > 0 {
      PassedOfPart(part, whole, n - 1, skipped);
    }
  }

  /** Once a place has been passed over, no later byte has been taken. */
  ghost predicate Unbroken(len: nat, n: nat, skipped: set<nat>) {
    forall p, q :: p in skipped && p <= q < n && q < len ==> q in skipped
  }

  /** A place before the end has been passed over. */
  ghost predicate Early(len: nat, skipped: set<nat>) {
    exists p :: p in skipped && p < len
  }

  lemma {:induction false} UnbrokenIsPrefix(stream: seq<Byte>, n: nat, skipped: set<nat>)
    requires Unbroken(|stream|, n, skipped)
    ensures Passed(stream, n, skipped) <= stream
    ensures (forall p :: p in skipped && p < n ==> |stream| <= p) ==>
              Passed(stream, n, skipped) == stream[..if n < |stream| then n else |stream|]
  {
    if n > 0 {
      UnbrokenIsPrefix(stream, n - 1, skipped);
      if n - 1 !in skipped && n <= |stream| {
        assert stream[..n] == stream[..n - 1] + [stream[n - 1]];
      }
    }
  }

  lemma {:induction false} PassedGrows(stream: seq<Byte>, m: nat, n: nat, skipped: set<nat>)
    requires m <= n
    ensures Passed(stream, m, skipped) <= Passed(stream, n, skipped)
  {
    if m < n {
      PassedGrows(stream, m, n - 1, skipped);
    }
  }

  /** All of a run of places passed over. */
  lemma {:induction false} AllPassedOver(stream: seq<Byte>, m: nat, n: nat, skipped: set<nat>)
    requires m <= n && forall p :: m <= p < n ==> p in skipped
    ensures Passed(stream, n, skipped) == Passed(stream, m, skipped)
  {
    if m < n {
      AllPassedOver(stream, m, n - 1, skipped);
    }
  }

  /** The first place from p on that is not passed over. */
  lemma FirstTaken(p: nat, q: nat, skipped: set<nat>) returns (t: nat)
    requires p <= q && q !in skipped
    ensures p <= t <= q && t !in skipped && forall i :: p <= i < t ==> i in skipped
    decreases q - p
  {
    t := p;
    while t in skipped
      invariant p <= t <= q && forall i :: p <= i < t ==> i in skipped
      decreases q - t
    {
      t := t + 1;
    }
  }

  /** The first place passed over. */
  lemma FirstSkipped(p: nat, skipped: set<nat>) returns (f: nat)
    requires p in skipped
    ensures f <= p && f in skipped && forall i :: 0 <= i < f ==> i !in skipped
  {
    f := 0;
    while f !in skipped
      invariant f <= p && forall i :: 0 <= i < f ==> i !in skipped
      decreases p - f
    {
      f := f + 1;
    }
  }

  function OneAt(len: nat, t: nat): (s: seq<Byte>)
    ensures |s| == len && forall i :: 0 <= i < len ==> s[i] == if i == t then 1 else 0
  {
    seq(len, i => if i == t then 1 else 0)
  }

  /** If a byte has been taken after a place passed over, there is a stream of which the bytes taken are no prefix. */
  lemma BrokenShows(len: nat, n: nat, skipped: set<nat>) returns (s: seq<Byte>)
    requires !Unbroken(len, n, skipped)
    ensures |s| == len && !(Passed(s, n, skipped) <= s)
  {
    var p, q :| p in skipped && p <= q < n && q < len && q !in skipped;
    var f := FirstSkipped(p, skipped);
    var t := FirstTaken(f, q, skipped);
    s := OneAt(len, t);
    UnbrokenIsPrefix(s, f, skipped);
    AllPassedOver(s, f, t, skipped);
    PassedGrows(s, t + 1, n, skipped);
    assert Passed(s, t + 1, skipped)[f] == 1;
  }

  /** The places passed over decide exactly whether the bytes taken are a prefix of the stream, whatever it is. */
  lemma PrefixExactly(len: nat, n: nat, skipped: set<nat>)
    ensures Unbroken(len, n, skipped) <==> forall s: seq<Byte> :: |s| == len ==> Passed(s, n, skipped) <= s
  {
    if Unbroken(len, n, skipped) {
      forall s: seq<Byte> | |s| == len ensures Passed(s, n, skipped) <= s {
        UnbrokenIsPrefix(s, n, skipped);
      }
    } else {
      var s := BrokenShows(len, n, skipped);
    }
  }

  /** k more bytes and perhaps a FIN: the run of bytes breaks exactly if some come after a place passed over early. */
  lemma UnbrokenStep(len: nat, n: nat, k: nat, fin: bool, skipped: set<nat>)
    requires (forall p :: p in skipped ==> p < n) && (k > 0 ==> n + k <= len)
    ensures var skipped' := if fin then skipped + {n + k} else skipped;
            var n' := if fin then n + k + 1 else n + k;
            Unbroken(len, n', skipped') <==> Unbroken(len, n, skipped) && !(k > 0 && Early(len, skipped))
  {
    var skipped' := if fin then skipped + {n + k} else skipped;
    var n' := if fin then n + k + 1 else n + k;
    if k > 0 && Early(len, skipped) {
      var p :| p in skipped && p < len;
      assert p <= n < n' && n !in skipped';
    } else if Unbroken(len, n, skipped) {
      forall p, q | p in skipped' && p <= q < n' && q < len ensures q in skipped' {
      }
    } else {
      var p, q :| p in skipped && p <= q < n && q < len && q !in skipped;
      assert p in skipped' && q !in skipped';
    }
  }
}
