/** What the stream format guarantees: round trips, soundness, resynchronisation, error detection. */
module StreamTheorems {
  import opened Bytes
  import opened FrameStream

  /** A frame as the protocol defines it: length of all its bytes, and a zero byte sum. */
  ghost predicate WellFormed(f: seq<byte>) {
    4 <= |f| < BUFF_SIZE && Word(f[0], f[1]) == |f| && Sum(f) % 256 == 0
  }

  /** Bytes between frames that cannot be taken for a header, nor for half of one. */
  ghost predicate Gap(g: seq<byte>) {
    NoPair(g) && !EndsInSync(g)
  }

  function OnWire(f: seq<byte>): seq<byte> {
    [SYNC, SYNC] + f
  }

  datatype Item = Item(gap: seq<byte>, frame: seq<byte>)

  function Transmit(items: seq<Item>): seq<byte> {
    if items == [] then [] else items[0].gap + OnWire(items[0].frame) + Transmit(items[1..])
  }

  function FramesOf(items: seq<Item>): seq<seq<byte>> {
    if items == [] then [] else [items[0].frame] + FramesOf(items[1..])
  }

  // ----- round trip

  lemma FeedGap(g: seq<byte>)
    requires Gap(g)
    ensures Feed(Hunt, g) == Result(Hunt, [])
  {
    FeedNoPair(g);
  }

  lemma FeedSyncPair()
    ensures Feed(Hunt, [SYNC, SYNC]) == Result(Body([]), [])
  {
    assert [SYNC, SYNC] == [SYNC] + [SYNC];
    FeedOne(Hunt, SYNC);
    FeedSnoc(Hunt, [SYNC], SYNC);
  }

  /** A body whose length field counts its own bytes: accepted exactly when its sum is zero. */
  lemma FeedCountedBody(f: seq<byte>)
    requires 4 <= |f| < BUFF_SIZE && Word(f[0], f[1]) == |f|
    ensures Feed(Hunt, OnWire(f)) == Result(Hunt, if Sum(f) % 256 == 0 then [f] else [])
  {
    FeedSyncPair();
    FeedConcat(Hunt, [SYNC, SYNC], f);
    FeedSettled(f);
    assert f[..|f|] == f;
  }

  lemma FeedItem(gap: seq<byte>, f: seq<byte>, rest: seq<byte>)
    requires Gap(gap)
    requires 4 <= |f| < BUFF_SIZE && Word(f[0], f[1]) == |f|
    ensures Feed(Hunt, gap + OnWire(f)).end == Hunt
    ensures Feed(Hunt, gap + OnWire(f) + rest) ==
            Result(Feed(Hunt, rest).end, (if Sum(f) % 256 == 0 then [f] else []) + Feed(Hunt, rest).frames)
  {
    FeedGap(gap);
    FeedCountedBody(f);
    FeedHunting(gap, OnWire(f), rest);
  }

  /** Three pieces, the first two of which leave the receiver hunting. */
  lemma FeedHunting(a: seq<byte>, b: seq<byte>, c: seq<byte>)
    requires Feed(Hunt, a) == Result(Hunt, []) && Feed(Hunt, b).end == Hunt
    ensures Feed(Hunt, a + b).end == Hunt
    ensures Feed(Hunt, a + b + c) == Result(Feed(Hunt, c).end, Feed(Hunt, b).frames + Feed(Hunt, c).frames)
  {
    FeedConcat(Hunt, a, b);
    FeedConcat(Hunt, a + b, c);
  }

  /**
   Well-formed frames between gaps: exactly these frames are accepted, in order, byte for
   byte, whatever they contain.
   */
  lemma {:induction false} StreamRoundTrip(items: seq<Item>, tail: seq<byte>)
    requires forall k :: 0 <= k < |items| ==> Gap(items[k].gap) && WellFormed(items[k].frame)
    requires NoPair(tail)
    ensures Feed(Hunt, Transmit(items) + tail) ==
            Result(if EndsInSync(tail) then HalfHeader else Hunt, FramesOf(items))
    decreases |items|
  {
    if items == [] {
      assert Transmit(items) + tail == tail;
      FeedNoPair(tail);
    } else {
      StreamRoundTrip(items[1..], tail);
      var rest := Transmit(items[1..]) + tail;
      FeedItem(items[0].gap, items[0].frame, rest);
      assert Transmit(items) + tail == items[0].gap + OnWire(items[0].frame) + rest;
    }
  }

  /** The same, however the stream is cut into calls. */
  lemma ChunkedRoundTrip(items: seq<Item>, tail: seq<byte>, chunks: seq<seq<byte>>)
    requires forall k :: 0 <= k < |items| ==> Gap(items[k].gap) && WellFormed(items[k].frame)
    requires NoPair(tail)
    requires Flatten(chunks) == Transmit(items) + tail
    ensures FeedChunks(Hunt, chunks).frames == FramesOf(items)
  {
    ChunkingInvariance(Hunt, chunks);
    StreamRoundTrip(items, tail);
  }

  // ----- soundness: nothing is accepted that was not sent

  /**
   Every accepted frame is well formed and stands in the stream behind its own `aa aa`; the
   accepted frames stand there in order and do not overlap.
   */
  lemma {:induction false} AcceptedFramesWereSent(s: seq<byte>) returns (items: seq<Item>, tail: seq<byte>)
    ensures FramesOf(items) == Parse(s).frames
    ensures Transmit(items) + tail == s
    ensures AllWellFormed(items)
    decreases |s|
  {
    items, tail := [], s;
    var h := FindHeader(s);
    if h >= 0 {
      var t := s[h + 2..];
      assert s == s[..h] + [SYNC, SYNC] + t;
      if |t| >= 2 && Word(t[0], t[1]) != 0 && |t| >= Span(Word(t[0], t[1])) {
        var n := Word(t[0], t[1]);
        items, tail := AcceptedFramesWereSent(t[Span(n)..]);
        items, tail := PrependRound(s[..h], t, Span(n), items, tail, Taken(n, t) != []);
      }
    }
  }

  ghost predicate AllWellFormed(items: seq<Item>) {
    forall i :: 0 <= i < |items| ==> WellFormed(items[i].frame)
  }

  lemma PrependRound(gap: seq<byte>, t: seq<byte>, k: nat, items: seq<Item>, tail: seq<byte>, accepted: bool)
      returns (items': seq<Item>, tail': seq<byte>)
    requires k <= |t| && Transmit(items) + tail == t[k..]
    requires accepted ==> WellFormed(t[..k])
    requires AllWellFormed(items)
    ensures FramesOf(items') == (if accepted then [t[..k]] else []) + FramesOf(items)
    ensures Transmit(items') + tail' == gap + [SYNC, SYNC] + t
    ensures AllWellFormed(items')
  {
    var taken, rest := t[..k], t[k..];
    assert t == taken + rest;
    if accepted {
      items' := PrependFrame(gap, taken, items, tail);
      tail' := tail;
    } else {
      items', tail' := PrependJunk(gap + [SYNC, SYNC] + taken, items, tail);
      Assoc(gap + [SYNC, SYNC], taken, rest);
    }
  }

  lemma PrependFrame(gap: seq<byte>, frame: seq<byte>, items: seq<Item>, tail: seq<byte>) returns (more: seq<Item>)
    ensures more == [Item(gap, frame)] + items
    ensures FramesOf(more) == [frame] + FramesOf(items)
    ensures Transmit(more) + tail == gap + [SYNC, SYNC] + (frame + (Transmit(items) + tail))
  {
    more := [Item(gap, frame)] + items;
    assert more[1..] == items;
    assert Transmit(more) == gap + OnWire(frame) + Transmit(items);
  }

  lemma PrependJunk(junk: seq<byte>, items: seq<Item>, tail: seq<byte>)
      returns (items': seq<Item>, tail': seq<byte>)
    ensures FramesOf(items') == FramesOf(items) && |items'| == |items|
    ensures Transmit(items') + tail' == junk + (Transmit(items) + tail)
    ensures AllWellFormed(items) ==> AllWellFormed(items')
  {
    if items == [] {
      items', tail' := [], junk + tail;
      assert Transmit(items') + tail' == junk + (Transmit(items) + tail);
    } else {
      var head := Item(junk + items[0].gap, items[0].frame);
      items', tail' := [head] + items[1..], tail;
      assert items'[1..] == items[1..];
      assert Transmit(items') + tail' == junk + (Transmit(items) + tail);
    }
  }

  // ----- memory of the stream

  lemma LastFed(s: seq<byte>) returns (init: seq<byte>, last: byte)
    requires s != []
    ensures init == s[..|s| - 1] && last == s[|s| - 1] && s == init + [last]
    ensures Feed(Hunt, s).end == FeedByte(Feed(Hunt, init).end, last).end
  {
    init, last := s[..|s| - 1], s[|s| - 1];
    assert s == init + [last];
    FeedSnoc(Hunt, init, last);
  }

  /** While a body is being received, the receiver holds exactly the bytes that followed the last header. */
  lemma {:induction false} BodySource(s: seq<byte>)
    requires Feed(Hunt, s).end.Body?
    ensures var acc := Feed(Hunt, s).end.acc;
            && |acc| + 2 <= |s|
            && acc == s[|s| - |acc|..]
            && PairAt(s, |s| - |acc| - 2)
    decreases |s|
  {
    var acc := Feed(Hunt, s).end.acc;
    var init, last := LastFed(s);
    if acc == [] {
      HalfHeaderHistory(init);
    } else {
      BodySource(init);
      var before := Feed(Hunt, init).end.acc;
      assert acc == before + [last];
      assert init[|init| - |before|..] + [last] == s[|s| - |acc|..];
      assert PairAt(init, |init| - |before| - 2);
    }
  }

  /** ... and `j` bytes earlier it held the same bytes without the last `j`. */
  lemma {:induction false} BodyHistory(s: seq<byte>, j: nat)
    requires Feed(Hunt, s).end.Body?
    requires j <= |Feed(Hunt, s).end.acc|
    ensures j <= |s|
    ensures var acc := Feed(Hunt, s).end.acc;
            Feed(Hunt, s[..|s| - j]).end == Body(acc[..|acc| - j])
    decreases j
  {
    var acc := Feed(Hunt, s).end.acc;
    if j == 0 {
      assert s[..|s| - j] == s && acc[..|acc| - j] == acc;
    } else {
      var init, last := LastFed(s);
      var acc' := Feed(Hunt, init).end.acc;
      assert acc[..|acc| - 1] == acc';
      BodyHistory(init, j - 1);
      assert s[..|s| - j] == init[..|init| - (j - 1)];
      assert acc[..|acc| - j] == acc'[..|acc'| - (j - 1)];
    }
  }

  lemma HalfHeaderHistory(s: seq<byte>)
    requires Feed(Hunt, s).end == HalfHeader
    ensures EndsInSync(s)
  {
    var init, last := LastFed(s);
  }

  // ----- the zero-length header: when the code leaves its buffer

  /** A declared length of zero is pending. */
  predicate Stuck(r: Receiver) {
    r.Body? && |r.acc| >= 2 && Word(r.acc[0], r.acc[1]) == 0
  }

  /** With a zero length pending every byte is swallowed, and nothing is accepted, up to the overrun. */
  lemma StuckUntilOverrun(r: Receiver, s: seq<byte>)
    requires Resting(r) && Stuck(r)
    ensures if |r.acc| + |s| <= BUFF_SIZE then Feed(r, s) == Result(Body(r.acc + s), [])
            else Feed(r, s).end == Overrun
  {
    FeedZeroLength(r.acc, s);
  }

  /** The description of the stream reaches a header, and the bytes behind it start at p. */
  predicate HeaderAt(s: seq<byte>, p: nat)
    decreases |s|
  {
    var h := FindHeader(s);
    h >= 0 && (p == h + 2 || HeaderBehind(s[h + 2..], p - (h + 2)))
  }

  /** ... the same for the bytes behind a header. */
  predicate HeaderBehind(t: seq<byte>, p: int)
    decreases |t|
  {
    && |t| >= 2 && Word(t[0], t[1]) != 0 && |t| >= Span(Word(t[0], t[1]))
    && var k := Span(Word(t[0], t[1]));
       p >= k && HeaderAt(t[k..], p - k)
  }

  /** The header whose bytes start at p declares length zero, and at least 1023 bytes follow it. */
  predicate Overlong(s: seq<byte>, p: nat) {
    HeaderAt(s, p) && p + BUFF_SIZE + 1 <= |s| && s[p] == 0 && s[p + 1] == 0
  }

  /** Fewer than 1023 bytes follow every header that declares length zero. */
  ghost predicate InBounds(s: seq<byte>) {
    forall p: nat :: !Overlong(s, p)
  }

  /** The exact condition for a store outside the 1024-byte buffer. */
  lemma OverrunExactly(s: seq<byte>)
    ensures Feed(Hunt, s).end == Overrun <==> !InBounds(s)
  {
    FeedIsParse(s);
    if p: nat :| Overlong(s, p) {
      OverlongOverruns(s, p);
    } else if Parse(s).end == Overrun {
      var p := OverrunIsOverlong(s);
    }
  }

  lemma {:induction false} OverlongOverruns(s: seq<byte>, p: nat)
    requires Overlong(s, p)
    ensures Parse(s).end == Overrun
    decreases |s|
  {
    var h := FindHeader(s);
    var t := s[h + 2..];
    var q := p - (h + 2);
    if q == 0 {
      assert t[0] == s[p] && t[1] == s[p + 1];
    } else {
      assert HeaderBehind(t, q);
      var k := Span(Word(t[0], t[1]));
      assert t[k..][q - k] == s[p] && t[k..][q - k + 1] == s[p + 1];
      OverlongOverruns(t[k..], q - k);
    }
  }

  lemma {:induction false} OverrunIsOverlong(s: seq<byte>) returns (p: nat)
    requires Parse(s).end == Overrun
    ensures Overlong(s, p)
    decreases |s|
  {
    var b := FindHeader(s) + 2;
    var q := OverrunBehind(s[b..]);
    p := b + q;
    assert s[b..][q] == s[p] && s[b..][q + 1] == s[p + 1];
  }

  lemma {:induction false} OverrunBehind(t: seq<byte>) returns (q: nat)
    requires ParseBehindHeader(t).end == Overrun
    ensures q == 0 || HeaderBehind(t, q)
    ensures q + BUFF_SIZE + 1 <= |t| && t[q] == 0 && t[q + 1] == 0
    decreases |t|
  {
    if Word(t[0], t[1]) == 0 {
      q := 0;
    } else {
      var k := Span(Word(t[0], t[1]));
      var p := OverrunIsOverlong(t[k..]);
      q := k + p;
      assert t[k..][p] == t[q] && t[k..][p + 1] == t[q + 1];
    }
  }

  /** An overrun does happen: a header, a declared length of zero, and at least 1023 more bytes. */
  lemma OverrunWitness(t: seq<byte>)
    requires |t| > BUFF_SIZE && Word(t[0], t[1]) == 0
    ensures Feed(Hunt, OnWire(t)).end == Overrun
  {
    FeedSyncPair();
    FeedConcat(Hunt, [SYNC, SYNC], t);
    FeedBehindHeader(t);
  }

  // ----- resynchronisation

  ghost predicate Filler(s: seq<byte>) {
    forall i :: 0 <= i < |s| ==> s[i] != 0 && s[i] != SYNC
  }

  /** No overrun yet and no zero length pending. */
  ghost predicate Sound(r: Receiver) {
    Resting(r) && !r.Overrun? && !Stuck(r)
  }

  /** Upper bound on the filler bytes needed before the receiver hunts again. */
  ghost function Rank(r: Receiver): nat
    requires Sound(r)
  {
    if r.Hunt? then 0
    else if r.HalfHeader? then 1
    else if |r.acc| < 2 then BUFF_SIZE - 1 - |r.acc|
    else Span(Word(r.acc[0], r.acc[1])) - |r.acc|
  }

  lemma FillerStep(r: Receiver, ch: byte)
    requires Sound(r) && ch != 0 && ch != SYNC
    ensures var one := FeedByte(r, ch);
            && Sound(one.end)
            && (r == Hunt ==> one == Result(Hunt, []))
            && (r != Hunt ==> Rank(one.end) < Rank(r))
            && (one.frames != [] ==> |one.frames| == 1 && one.end == Hunt)
  {
    if r.Body? {
      var acc1 := r.acc + [ch];
      assert acc1[|r.acc|] == ch;
    }
  }

  lemma {:induction false} FillerRun(r: Receiver, s: seq<byte>)
    requires Sound(r) && Filler(s) && Rank(r) <= |s|
    ensures Feed(r, s).end == Hunt
    ensures |Feed(r, s).frames| <= if r == Hunt then 0 else 1
    decreases |s|
  {
    if s == [] {
    } else {
      FillerStep(r, s[0]);
      assert Filler(s[1..]);
      FillerRun(FeedByte(r, s[0]).end, s[1..]);
    }
  }

  /**
   From any state the code can be in with its memory intact, 1023 filler bytes bring the
   receiver back to hunting, with at most one frame accepted on the way, unless a declared
   length of zero is pending; then they take it out of its buffer.
   */
  lemma Resynchronisation(r: Receiver, filler: seq<byte>)
    requires Resting(r) && !r.Overrun?
    requires Filler(filler) && |filler| >= BUFF_SIZE - 1
    ensures Feed(r, filler).end == if Stuck(r) then Overrun else Hunt
    ensures !Stuck(r) ==> |Feed(r, filler).frames| <= 1
  {
    if Stuck(r) {
      StuckUntilOverrun(r, filler);
    } else {
      FillerRun(r, filler);
    }
  }

  /** Unless a zero length is pending, any well-formed frame after such filler is the last one accepted. */
  lemma FrameAfterFiller(r: Receiver, filler: seq<byte>, f: seq<byte>)
    requires Sound(r) && WellFormed(f)
    requires Filler(filler) && |filler| >= BUFF_SIZE - 1
    ensures Feed(r, filler + OnWire(f)) == Result(Hunt, Feed(r, filler).frames + [f])
  {
    FillerRun(r, filler);
    FeedConcat(r, filler, OnWire(f));
    FeedCountedBody(f);
  }

  /** The bound is tight: 1022 filler bytes can leave the receiver inside a body. */
  lemma ResynchronisationBoundTight() returns (filler: seq<byte>)
    ensures Filler(filler) && |filler| == BUFF_SIZE - 2
    ensures Feed(Body([]), filler).end != Hunt
  {
    filler := [255, 3] + seq(BUFF_SIZE - 4, _ => 1);
    forall i | 0 < i <= |filler| ensures Judge(filler[..i]) == More {
      if i >= 2 { assert filler[..i][0] == 255 && filler[..i][1] == 3; }
    }
    FeedPartial(filler);
  }

  // ----- a frame whose beginning is received twice

  /** An accepted frame and its header fit into the stream. */
  lemma {:induction false} FramesFit(s: seq<byte>, g: seq<byte>)
    requires g in Parse(s).frames
    ensures |g| + 2 <= |s|
    decreases |s|
  {
    var t := s[FindHeader(s) + 2..];
    var n := Word(t[0], t[1]);
    var rest := t[Span(n)..];
    if g in Parse(rest).frames {
      FramesFit(rest, g);
    }
  }

  /** When little is left behind the first frame, only that frame can be a given longer one. */
  lemma FirstOrNone(t: seq<byte>, f: seq<byte>)
    requires |t| >= 2 && Word(t[0], t[1]) != 0
    requires |t| < Span(Word(t[0], t[1])) + |f| + 2
    ensures f in Feed(Body([]), t).frames <==>
            |t| >= Span(Word(t[0], t[1])) && f in Taken(Word(t[0], t[1]), t)
  {
    FeedBehindHeader(t);
    var n := Word(t[0], t[1]);
    if |t| >= Span(n) && f in Parse(t[Span(n)..]).frames {
      FramesFit(t[Span(n)..], f);
    }
  }

  lemma FeedHeader(t: seq<byte>)
    ensures Feed(Hunt, [SYNC, SYNC] + t) == Feed(Body([]), t)
  {
    FeedSyncPair();
    FeedConcat(Hunt, [SYNC, SYNC], t);
  }

  /** The first `k` bytes of a frame, and then the whole frame with its header. */
  lemma RestartedFrame(f: seq<byte>, k: nat)
    requires WellFormed(f) && 2 <= k < |f|
    ensures f in Feed(Hunt, OnWire(f[..k]) + OnWire(f)).frames <==> f[k..] == OnWire(f)[..|f| - k]
  {
    var t := f[..k] + OnWire(f);
    assert OnWire(f[..k]) + OnWire(f) == [SYNC, SYNC] + t;
    FeedHeader(t);
    assert t[0] == f[0] && t[1] == f[1];
    FirstOrNone(t, f);
    assert t[..|f|] == f[..k] + OnWire(f)[..|f| - k];
    assert f == f[..k] + f[k..];
    assert t[..|f|] == f ==> f[k..] == t[..|f|][k..];
    assert t[..|f|][k..] == OnWire(f)[..|f| - k];
  }

  /** One to three bytes of a frame's wire form before the frame make the receiver miss it. */
  lemma RestartedHeader(f: seq<byte>, j: nat)
    requires WellFormed(f) && 1 <= j <= 3
    ensures f !in Feed(Hunt, OnWire(f)[..j] + OnWire(f)).frames
  {
    var s := OnWire(f)[..j] + OnWire(f);
    var t := s[2..];
    assert s == [SYNC, SYNC] + t;
    FeedHeader(t);
    assert t == if j == 1 then [SYNC] + f else if j == 2 then [SYNC, SYNC] + f else [f[0], SYNC, SYNC] + f;
    FirstOrNone(t, f);
  }

  // ----- error detection

  /**
   Any damage that keeps a frame's length field and length: the receiver still ends at the
   frame's last byte, later bytes are read as if it had not been sent, and it is accepted
   exactly when its sum is still zero.
   */
  lemma DamagedFrame(gap: seq<byte>, f: seq<byte>, g: seq<byte>, rest: seq<byte>)
    requires Gap(gap) && WellFormed(f)
    requires |g| == |f| && g[..2] == f[..2]
    ensures Feed(Hunt, gap + OnWire(g)).end == Hunt
    ensures Feed(Hunt, gap + OnWire(g) + rest) ==
            Result(Feed(Hunt, rest).end, (if Sum(g) % 256 == 0 then [g] else []) + Feed(Hunt, rest).frames)
  {
    assert g[0] == g[..2][0] && g[1] == g[..2][1];
    FeedItem(gap, g, rest);
  }

  /** One wrong byte behind the length field: never accepted, and no harm to what follows. */
  lemma SingleByteCorruption(gap: seq<byte>, f: seq<byte>, k: nat, v: byte, rest: seq<byte>)
    requires Gap(gap) && WellFormed(f)
    requires 2 <= k < |f| && v != f[k]
    ensures Feed(Hunt, gap + OnWire(f[k := v])).end == Hunt
    ensures Feed(Hunt, gap + OnWire(f[k := v]) + rest) == Feed(Hunt, rest)
  {
    SumUpdate(f, k, v);
    DamagedFrame(gap, f, f[k := v], rest);
    var delta := v - f[k];
    assert Sum(f[k := v]) % 256 != 0 by {
      var q := Sum(f) / 256;
      assert Sum(f[k := v]) == 256 * q + delta;
      assert -256 < delta < 256 && delta != 0;
    }
  }
}
