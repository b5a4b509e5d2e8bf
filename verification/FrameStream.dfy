/**
 The byte stream format accepted by the protocol layer, stated twice: as a receiver that is
 fed one byte at a time and remembers only the bytes since the last header, and as a
 recursive description of a whole stream. The two are proved equal on every stream.
 */
module FrameStream {
  import opened Bytes

  const SYNC: byte := 0xaa
  const BUFF_SIZE: nat := 1024

  /**
   What the receiver is waiting for. `Overrun` records that a byte was stored past the end of
   the buffer; it is kept as a mark that this happened, and says nothing about what the C code
   does afterwards, which is undefined.
   */
  datatype Receiver =
    | Hunt
    | HalfHeader
    | Body(acc: seq<byte>)
    | Overrun

  /** Where the receiver ends and which frames (without `aa aa`) it accepted on the way. */
  datatype Result = Result(end: Receiver, frames: seq<seq<byte>>)

  datatype Verdict = More | Accept | Reject | Overflow

  /** What to do once the bytes `acc` have followed a header. */
  function Judge(acc: seq<byte>): Verdict {
    if |acc| < 2 then More
    else
      var n := Word(acc[0], acc[1]);
      if n >= BUFF_SIZE then Reject
      else if n == 0 then (if |acc| <= BUFF_SIZE then More else Overflow)
      else if n < 4 then (if |acc| < 3 then More else Reject)
      else if |acc| < n then More
      else if Sum(acc) % 256 == 0 then Accept
      else Reject
  }

  function FeedByte(r: Receiver, ch: byte): Result {
    match r
    case Hunt => Result(if ch == SYNC then HalfHeader else Hunt, [])
    case HalfHeader => Result(if ch == SYNC then Body([]) else Hunt, [])
    case Overrun => Result(Overrun, [])
    case Body(acc) =>
      match Judge(acc + [ch])
      case More => Result(Body(acc + [ch]), [])
      case Accept => Result(Hunt, [acc + [ch]])
      case Reject => Result(Hunt, [])
      case Overflow => Result(Overrun, [])
  }

  function Feed(r: Receiver, s: seq<byte>): Result
    decreases |s|
  {
    if s == [] then Result(r, [])
    else
      var one := FeedByte(r, s[0]);
      var rest := Feed(one.end, s[1..]);
      Result(rest.end, one.frames + rest.frames)
  }

  /** States a receiver can be in between two bytes. */
  ghost predicate Resting(r: Receiver) {
    r.Body? ==> Judge(r.acc) == More
  }

  // ----- the whole-stream description

  predicate PairAt(s: seq<byte>, i: nat) {
    i + 1 < |s| && s[i] == SYNC && s[i + 1] == SYNC
  }

  ghost predicate NoPair(s: seq<byte>) {
    forall i: nat :: !PairAt(s, i)
  }

  predicate EndsInSync(s: seq<byte>) {
    s != [] && s[|s| - 1] == SYNC
  }

  /** Position of the first `aa aa`, or -1. */
  function FindHeader(s: seq<byte>): (h: int)
    ensures -1 <= h
    ensures h == -1 ==> NoPair(s)
    ensures h >= 0 ==> PairAt(s, h) && forall i: nat :: i < h ==> !PairAt(s, i)
  {
    if |s| < 2 then -1
    else if PairAt(s, 0) then 0
    else
      var h := FindHeader(s[1..]);
      assert forall i: nat {:trigger PairAt(s, i)} :: 1 <= i ==> PairAt(s, i) == PairAt(s[1..], i - 1);
      if h < 0 then -1 else h + 1
  }

  /** Number of bytes behind a header that belong to it when it declares length n > 0. */
  function Span(n: nat): nat {
    if n >= BUFF_SIZE then 2 else if n < 4 then 3 else n
  }

  /** The frame, if any, that a header declaring length n > 0 yields from the bytes behind it. */
  function Taken(n: nat, t: seq<byte>): seq<seq<byte>>
    requires Span(n) <= |t|
  {
    if 4 <= n < BUFF_SIZE && Sum(t[..n]) % 256 == 0 then [t[..n]] else []
  }

  /**
   Find the first header, read the declared length, take or reject what belongs to it, go on
   behind. A declared length of zero ends the description: everything that follows is
   swallowed, and more than a buffer full of it is an overrun.
   */
  function Parse(s: seq<byte>): Result
    decreases |s|
  {
    var h := FindHeader(s);
    if h < 0 then Result(if EndsInSync(s) then HalfHeader else Hunt, [])
    else ParseBehindHeader(s[h + 2..])
  }

  function ParseBehindHeader(t: seq<byte>): Result
    decreases |t|
  {
    if |t| < 2 then Result(Body(t), [])
    else
      var n := Word(t[0], t[1]);
      if n == 0 then Result(if |t| <= BUFF_SIZE then Body(t) else Overrun, [])
      else if |t| < Span(n) then Result(Body(t), [])
      else
        var rest := Parse(t[Span(n)..]);
        Result(rest.end, Taken(n, t) + rest.frames)
  }

  // ----- feeding

  lemma {:induction false} FeedConcat(r: Receiver, a: seq<byte>, b: seq<byte>)
    ensures Feed(r, a + b) ==
            Result(Feed(Feed(r, a).end, b).end, Feed(r, a).frames + Feed(Feed(r, a).end, b).frames)
    decreases |a|
  {
    if a == [] {
      assert a + b == b;
    } else {
      assert (a + b)[0] == a[0] && (a + b)[1..] == a[1..] + b;
      var one := FeedByte(r, a[0]);
      FeedConcat(one.end, a[1..], b);
      Assoc(one.frames, Feed(one.end, a[1..]).frames, Feed(Feed(r, a).end, b).frames);
    }
  }

  lemma FeedOne(r: Receiver, ch: byte)
    ensures Feed(r, [ch]) == FeedByte(r, ch)
  {
    assert [ch][1..] == [];
    assert Feed(FeedByte(r, ch).end, []) == Result(FeedByte(r, ch).end, []);
    assert FeedByte(r, ch).frames + [] == FeedByte(r, ch).frames;
  }

  lemma FeedSnoc(r: Receiver, s: seq<byte>, ch: byte)
    ensures Feed(r, s + [ch]) ==
            Result(FeedByte(Feed(r, s).end, ch).end, Feed(r, s).frames + FeedByte(Feed(r, s).end, ch).frames)
  {
    FeedConcat(r, s, [ch]);
    FeedOne(Feed(r, s).end, ch);
  }

  lemma {:induction false} FeedResting(r: Receiver, s: seq<byte>)
    requires Resting(r)
    ensures Resting(Feed(r, s).end)
    decreases |s|
  {
    if s == [] {
    } else {
      FeedResting(FeedByte(r, s[0]).end, s[1..]);
    }
  }

  /** Feeding a stream call by call is feeding it at once. */
  function FeedChunks(r: Receiver, chunks: seq<seq<byte>>): Result
    decreases |chunks|
  {
    if chunks == [] then Result(r, [])
    else
      var one := Feed(r, chunks[0]);
      var rest := FeedChunks(one.end, chunks[1..]);
      Result(rest.end, one.frames + rest.frames)
  }

  lemma {:induction false} ChunkingInvariance(r: Receiver, chunks: seq<seq<byte>>)
    ensures FeedChunks(r, chunks) == Feed(r, Flatten(chunks))
    decreases |chunks|
  {
    if chunks == [] {
    } else {
      ChunkingInvariance(Feed(r, chunks[0]).end, chunks[1..]);
      FeedConcat(r, chunks[0], Flatten(chunks[1..]));
    }
  }

  // ----- the receiver computes the whole-stream description

  lemma {:induction false} FeedNoPair(s: seq<byte>)
    requires NoPair(s)
    ensures Feed(Hunt, s) == Result(if EndsInSync(s) then HalfHeader else Hunt, [])
  {
    if s == [] {
    } else {
      var init, last := s[..|s| - 1], s[|s| - 1];
      assert s == init + [last];
      assert NoPair(init) by {
        forall i: nat ensures !PairAt(init, i) { assert !PairAt(s, i); }
      }
      FeedNoPair(init);
      FeedSnoc(Hunt, init, last);
      if |s| >= 2 { assert !PairAt(s, |s| - 2); }
    }
  }

  lemma FeedUpToHeader(s: seq<byte>, h: nat)
    requires PairAt(s, h) && forall i: nat :: i < h ==> !PairAt(s, i)
    ensures Feed(Hunt, s[..h + 2]) == Result(Body([]), [])
  {
    var before := s[..h + 1];
    assert NoPair(before) by {
      forall i: nat ensures !PairAt(before, i) { if i < h { assert !PairAt(s, i); } }
    }
    FeedNoPair(before);
    assert s[..h + 2] == before + [s[h + 1]];
    FeedSnoc(Hunt, before, s[h + 1]);
  }

  /** While every prefix asks for more, a body just accumulates. */
  lemma {:induction false} FeedAccumulates(acc: seq<byte>, u: seq<byte>)
    requires forall i :: |acc| < i <= |acc| + |u| ==> Judge((acc + u)[..i]) == More
    ensures Feed(Body(acc), u) == Result(Body(acc + u), [])
    decreases |u|
  {
    if u == [] {
      assert acc + u == acc;
    } else {
      var acc1 := acc + [u[0]];
      assert acc1 == (acc + u)[..|acc| + 1];
      assert acc1 + u[1..] == acc + u;
      FeedAccumulates(acc1, u[1..]);
    }
  }

  /** Bytes after a header that settle nothing yet. */
  lemma FeedPartial(t: seq<byte>)
    requires forall i :: 0 < i <= |t| ==> Judge(t[..i]) == More
    ensures Feed(Body([]), t) == Result(Body(t), [])
  {
    assert [] + t == t;
    FeedAccumulates([], t);
  }

  /** The first `k` bytes after a header when the bytes before the k-th ask for more. */
  lemma FeedBodyUntil(t: seq<byte>, k: nat)
    requires 1 <= k <= |t|
    requires forall i :: 0 < i < k ==> Judge(t[..i]) == More
    ensures Feed(Body([]), t[..k]) == FeedByte(Body(t[..k - 1]), t[k - 1])
  {
    var u := t[..k - 1];
    forall i | 0 < i <= |u| ensures Judge(u[..i]) == More { assert u[..i] == t[..i]; }
    FeedPartial(u);
    assert t[..k] == u + [t[k - 1]];
    FeedSnoc(Body([]), u, t[k - 1]);
  }

  lemma FeedSettled(t: seq<byte>)
    requires |t| >= 2 && Word(t[0], t[1]) != 0
    requires |t| >= Span(Word(t[0], t[1]))
    ensures var n := Word(t[0], t[1]);
            Feed(Body([]), t[..Span(n)]) == Result(Hunt, Taken(n, t))
  {
    var k := Span(Word(t[0], t[1]));
    FeedBodyUntil(t, k);
    assert t[..k - 1] + [t[k - 1]] == t[..k];
  }

  lemma FeedZeroLengthFits(acc: seq<byte>, u: seq<byte>)
    requires 2 <= |acc| && |acc| + |u| <= BUFF_SIZE && Word(acc[0], acc[1]) == 0
    ensures Feed(Body(acc), u) == Result(Body(acc + u), [])
  {
    forall i | |acc| < i <= |acc| + |u| ensures Judge((acc + u)[..i]) == More {
      var p := (acc + u)[..i];
      assert p[0] == acc[0] && p[1] == acc[1];
    }
    FeedAccumulates(acc, u);
  }

  /** A declared length of zero swallows everything, and past the buffer it overruns. */
  lemma FeedZeroLength(acc: seq<byte>, u: seq<byte>)
    requires 2 <= |acc| <= BUFF_SIZE && Word(acc[0], acc[1]) == 0
    ensures Feed(Body(acc), u) == Result(if |acc| + |u| <= BUFF_SIZE then Body(acc + u) else Overrun, [])
  {
    var room := BUFF_SIZE - |acc|;
    if |u| <= room {
      FeedZeroLengthFits(acc, u);
    } else {
      assert u[..room] + u[room..] == u;
      FeedZeroLengthSpills(acc, u[..room], u[room..]);
    }
  }

  lemma FeedZeroLengthSpills(acc: seq<byte>, a: seq<byte>, b: seq<byte>)
    requires 2 <= |acc| && |acc| + |a| == BUFF_SIZE && Word(acc[0], acc[1]) == 0 && b != []
    ensures Feed(Body(acc), a + b) == Result(Overrun, [])
  {
    FeedZeroLengthFits(acc, a);
    FeedConcat(Body(acc), a, b);
    FeedBeyondBuffer(acc + a, b);
  }

  lemma FeedBeyondBuffer(full: seq<byte>, u: seq<byte>)
    requires |full| == BUFF_SIZE && Word(full[0], full[1]) == 0 && u != []
    ensures Feed(Body(full), u) == Result(Overrun, [])
  {
    assert Judge(full + [u[0]]) == Overflow;
    OverrunIsFinal(u[1..]);
  }

  lemma {:induction false} OverrunIsFinal(u: seq<byte>)
    ensures Feed(Overrun, u) == Result(Overrun, [])
  {
    if u == [] {
    } else {
      OverrunIsFinal(u[1..]);
    }
  }

  /** The receiver and the whole-stream description agree on every stream. */
  lemma {:induction false} FeedIsParse(s: seq<byte>)
    ensures Feed(Hunt, s) == Parse(s)
    decreases |s|
  {
    var h := FindHeader(s);
    if h < 0 {
      FeedNoPair(s);
    } else {
      FeedUpToHeader(s, h);
      assert s == s[..h + 2] + s[h + 2..];
      FeedConcat(Hunt, s[..h + 2], s[h + 2..]);
      FeedBehindHeader(s[h + 2..]);
    }
  }

  lemma {:induction false} FeedBehindHeader(t: seq<byte>)
    ensures Feed(Body([]), t) == ParseBehindHeader(t)
    decreases |t|
  {
    if |t| < 2 {
      FeedPartial(t);
    } else {
      var n := Word(t[0], t[1]);
      if n == 0 {
        FeedPartial(t[..2]);
        assert t == t[..2] + t[2..];
        FeedConcat(Body([]), t[..2], t[2..]);
        FeedZeroLength(t[..2], t[2..]);
      } else if |t| < Span(n) {
        FeedPartial(t);
      } else {
        FeedSettled(t);
        assert t == t[..Span(n)] + t[Span(n)..];
        FeedConcat(Body([]), t[..Span(n)], t[Span(n)..]);
        FeedIsParse(t[Span(n)..]);
      }
    }
  }
}
