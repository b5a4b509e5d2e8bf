/** The UDP receive callback: reassembly of a buffer chain, calling the handler as it goes. */
module UdpInterface {
  import opened Bytes
  import opened FrameStream
  import opened StreamTheorems
  import opened ProtocolLayer
  import opened UartFsmc

  const UDP_RX_BUFSIZE: nat := 2048

  /** What the handler is called with when `before` was already copied and `chain` follows. */
  function CallsFrom(before: seq<byte>, chain: seq<seq<byte>>): seq<seq<byte>>
    decreases |chain|
  {
    if chain == [] then []
    else
      var data := before + chain[0];
      if |data| >= UDP_RX_BUFSIZE then [] else [data] + CallsFrom(data, chain[1..])
  }

  function Calls(chain: seq<seq<byte>>): seq<seq<byte>> {
    CallsFrom([], chain)
  }

  function ClipDatagram(s: seq<byte>): seq<byte> {
    if |s| <= UDP_RX_BUFSIZE then s else s[..UDP_RX_BUFSIZE]
  }

  /** Copies one segment behind `dataLen` bytes, as far as it fits. */
  method CopySegment(recvbuf: array<byte>, dataLen: nat, payload: seq<byte>) returns (newLen: nat)
    requires recvbuf.Length == UDP_RX_BUFSIZE && dataLen <= UDP_RX_BUFSIZE
    modifies recvbuf
    ensures newLen <= UDP_RX_BUFSIZE
    ensures recvbuf[..newLen] == ClipDatagram(old(recvbuf[..dataLen]) + payload)
  {
    var count := if |payload| > UDP_RX_BUFSIZE - dataLen then UDP_RX_BUFSIZE - dataLen else |payload|;
    var i := 0;
    while i < count
      invariant i <= count
      invariant recvbuf[..dataLen + i] == old(recvbuf[..dataLen]) + payload[..i]
    {
      recvbuf[i + dataLen] := payload[i];
      assert recvbuf[..dataLen + i + 1] == recvbuf[..dataLen + i] + [payload[i]];
      i := i + 1;
    }
    newLen := dataLen + count;
  }

  /** Copies segment q of the chain; what the handler gets next is then in the buffer. */
  method CopyNext(recvbuf: array<byte>, dataLen: nat, chain: seq<seq<byte>>, q: nat, ghost heard: seq<byte>)
      returns (newLen: nat)
    requires recvbuf.Length == UDP_RX_BUFSIZE && dataLen <= UDP_RX_BUFSIZE && q < |chain|
    requires Copying(chain, q, recvbuf[..dataLen], heard)
    modifies recvbuf
    ensures newLen <= UDP_RX_BUFSIZE
    ensures if newLen < UDP_RX_BUFSIZE then Copying(chain, q + 1, recvbuf[..newLen], heard + recvbuf[..newLen])
            else Flatten(Calls(chain)) == heard && ClipDatagram(Flatten(chain)) == recvbuf[..newLen]
  {
    CopyStep(chain, q, recvbuf[..dataLen], heard);
    newLen := CopySegment(recvbuf, dataLen, chain[q]);
  }

  /** One call of the handler with what the buffer holds. */
  method CallHandler(layer: Layer, recvbuf: array<byte>, dataLen: nat,
                     ghost r0: Receiver, ghost b0: BusState, ghost heard: seq<byte>)
    requires layer.Valid() && dataLen <= recvbuf.Length
    requires recvbuf != layer.buff && recvbuf != layer.report
    requires Fed(r0, b0, layer.bus.left, heard, layer.Receiver(), layer.bus.View())
    modifies layer`step, layer`udpLen, layer`index, layer`overrun, layer.buff
    modifies layer.bus`log, layer.bus`rx, layer.bus`sentCount
    ensures layer.Valid()
    ensures Fed(r0, b0, layer.bus.left, heard + recvbuf[..dataLen], layer.Receiver(), layer.bus.View())
  {
    ghost var r, b := layer.Receiver(), layer.bus.View();
    layer.Unpacking(recvbuf, dataLen);
    FedMore(r0, b0, layer.bus.left, heard, r, b, recvbuf[..dataLen], layer.Receiver(), layer.bus.View());
  }

  /**
   The callback. `chain` are the payloads of the buffer chain (none for a null pointer) and
   `registered` tells whether a handler was registered.
   */
  method UdpRecv(layer: Layer, recvbuf: array<byte>, chain: seq<seq<byte>>, registered: bool) returns (dataLen: nat)
    requires layer.Valid() && recvbuf.Length == UDP_RX_BUFSIZE
    requires recvbuf != layer.buff && recvbuf != layer.report
    modifies recvbuf, layer`step, layer`udpLen, layer`index, layer`overrun, layer.buff
    modifies layer.bus`log, layer.bus`rx, layer.bus`sentCount
    ensures layer.Valid()
    ensures Fed(old(layer.Receiver()), old(layer.bus.View()), layer.bus.left,
                if registered then Flatten(Calls(chain)) else [], layer.Receiver(), layer.bus.View())
    ensures registered ==> dataLen <= UDP_RX_BUFSIZE && recvbuf[..dataLen] == ClipDatagram(Flatten(chain))
  {
    dataLen := 0;
    FedNothing(layer.Receiver(), layer.bus.View(), layer.bus.left);
    if registered {
      dataLen := RecvChain(layer, recvbuf, chain);
    }
  }

  /** The loop over the segments. */
  method RecvChain(layer: Layer, recvbuf: array<byte>, chain: seq<seq<byte>>) returns (dataLen: nat)
    requires layer.Valid() && recvbuf.Length == UDP_RX_BUFSIZE
    requires recvbuf != layer.buff && recvbuf != layer.report
    modifies recvbuf, layer`step, layer`udpLen, layer`index, layer`overrun, layer.buff
    modifies layer.bus`log, layer.bus`rx, layer.bus`sentCount
    ensures layer.Valid()
    ensures Fed(old(layer.Receiver()), old(layer.bus.View()), layer.bus.left, Flatten(Calls(chain)),
                layer.Receiver(), layer.bus.View())
    ensures dataLen <= UDP_RX_BUFSIZE && recvbuf[..dataLen] == ClipDatagram(Flatten(chain))
  {
    dataLen := 0;
    ghost var r0, b0, heard := layer.Receiver(), layer.bus.View(), [];
    FedNothing(r0, b0, layer.bus.left);
    CopyStart(chain);
    var q := 0;
    while q < |chain|
      invariant q <= |chain| && dataLen <= UDP_RX_BUFSIZE && layer.Valid()
      invariant Copying(chain, q, recvbuf[..dataLen], heard)
      invariant Fed(r0, b0, layer.bus.left, heard, layer.Receiver(), layer.bus.View())
    {
      dataLen := CopyNext(recvbuf, dataLen, chain, q, heard);
      if dataLen >= UDP_RX_BUFSIZE {
        return;
      }
      CallHandler(layer, recvbuf, dataLen, r0, b0, heard);
      heard := heard + recvbuf[..dataLen];
      q := q + 1;
    }
    CopyEnd(chain, recvbuf[..dataLen], heard);
  }

  /** Before segment q: what the buffer holds, and what the handler has been and will be called with. */
  ghost predicate Copying(chain: seq<seq<byte>>, q: nat, data: seq<byte>, heard: seq<byte>) {
    && q <= |chain| && |data| < UDP_RX_BUFSIZE
    && data == Flatten(chain[..q])
    && Flatten(Calls(chain)) == heard + Flatten(CallsFrom(data, chain[q..]))
  }

  lemma CopyStart(chain: seq<seq<byte>>)
    ensures Copying(chain, 0, [], [])
  {
    assert chain[0..] == chain;
    assert [] + Flatten(Calls(chain)) == Flatten(Calls(chain));
  }

  lemma CopyStep(chain: seq<seq<byte>>, q: nat, data: seq<byte>, heard: seq<byte>)
    requires Copying(chain, q, data, heard) && q < |chain|
    ensures var more := data + chain[q];
            if |more| < UDP_RX_BUFSIZE then Copying(chain, q + 1, more, heard + more)
            else Flatten(Calls(chain)) == heard && ClipDatagram(Flatten(chain)) == ClipDatagram(more)
  {
    var more := data + chain[q];
    assert chain[q..][0] == chain[q] && chain[q..][1..] == chain[q + 1..];
    assert chain[..q + 1] == chain[..q] + [chain[q]];
    FlattenSnoc(chain[..q], chain[q]);
    if |more| < UDP_RX_BUFSIZE {
      CallsUnfold(data, chain[q..]);
      assert heard + (more + Flatten(CallsFrom(more, chain[q + 1..]))) == heard + more + Flatten(CallsFrom(more, chain[q + 1..]));
    } else {
      assert chain == chain[..q + 1] + chain[q + 1..];
      FlattenConcat(chain[..q + 1], chain[q + 1..]);
      assert heard + [] == heard;
    }
  }

  lemma CallsUnfold(data: seq<byte>, chain: seq<seq<byte>>)
    requires chain != [] && |data + chain[0]| < UDP_RX_BUFSIZE
    ensures var more := data + chain[0];
            Flatten(CallsFrom(data, chain)) == more + Flatten(CallsFrom(more, chain[1..]))
  {
    var more := data + chain[0];
    FlattenConcat([more], CallsFrom(more, chain[1..]));
    FlattenOne(more);
  }

  lemma CopyEnd(chain: seq<seq<byte>>, data: seq<byte>, heard: seq<byte>)
    requires Copying(chain, |chain|, data, heard)
    ensures Flatten(Calls(chain)) == heard && ClipDatagram(Flatten(chain)) == data
  {
    assert chain[..|chain|] == chain && chain[|chain|..] == [];
    assert heard + [] == heard;
  }

  // ----- what the handler sees

  /**
   Call j gets the first j + 1 payloads joined; the calls stop before the total reaches 2048,
   and they stop earlier than the chain only for that reason.
   */
  lemma {:induction false} CallsArePrefixes(before: seq<byte>, chain: seq<seq<byte>>, j: nat)
    requires |before| < UDP_RX_BUFSIZE
    ensures |CallsFrom(before, chain)| <= |chain|
    ensures j < |CallsFrom(before, chain)| ==>
              && CallsFrom(before, chain)[j] == before + Flatten(chain[..j + 1])
              && |before + Flatten(chain[..j + 1])| < UDP_RX_BUFSIZE
    ensures j == |CallsFrom(before, chain)| < |chain| ==> |before + Flatten(chain[..j + 1])| >= UDP_RX_BUFSIZE
    decreases |chain|
  {
    if chain == [] {
    } else {
      var data := before + chain[0];
      assert forall k: nat {:trigger chain[..k + 1]} :: k < |chain| ==> chain[..k + 1] == [chain[0]] + chain[1..][..k];
      if |data| < UDP_RX_BUFSIZE {
        CallsArePrefixes(data, chain[1..], if j == 0 then 0 else j - 1);
      }
      if j < |chain| {
        FlattenConcat([chain[0]], chain[1..][..j]);
        FlattenOne(chain[0]);
        assert before + Flatten(chain[..j + 1]) == data + Flatten(chain[1..][..j]);
      }
    }
  }

  /**
   A datagram reaches the handler once and whole exactly when it came as one segment of less
   than 2048 bytes.
   */
  lemma DeliveredOnceExactly(chain: seq<seq<byte>>)
    requires chain != []
    ensures Calls(chain) == [Flatten(chain)] <==> |chain| == 1 && |chain[0]| < 2048
  {
    assert [] + chain[0] == chain[0];
    if |chain| == 1 {
      assert chain == [chain[0]];
      FlattenOne(chain[0]);
      assert CallsFrom(chain[0], chain[1..]) == [];
    } else if Calls(chain) == [Flatten(chain)] {
      CallsArePrefixes([], chain, 1);
      assert [] + Flatten(chain[..2]) == Flatten(chain[..2]);
      assert chain == chain[..2] + chain[2..];
      FlattenConcat(chain[..2], chain[2..]);
      CallsArePrefixes([], chain, 0);
    }
  }

  /**
   One frame in a chain of two segments: the handler gets the first segment and then the whole
   frame, so the frame is accepted exactly when a segment is empty or the frame, from the cut on,
   repeats its own beginning.
   */
  lemma FrameInTwoSegments(f: seq<byte>, j: nat)
    requires WellFormed(f) && j <= |OnWire(f)|
    ensures f in Feed(Hunt, Flatten(Calls([OnWire(f)[..j], OnWire(f)[j..]]))).frames <==>
            j == 0 || j == |OnWire(f)| || (j >= 4 && f[j - 2..] == OnWire(f)[..|f| + 2 - j])
  {
    var a, b := OnWire(f)[..j], OnWire(f)[j..];
    TwoSegmentsHeard(a, b);
    assert a + b == OnWire(f);
    FeedCountedBody(f);
    FeedConcat(Hunt, a, OnWire(f));
    if j == 0 {
      assert a + OnWire(f) == OnWire(f);
    } else if j == |OnWire(f)| {
      assert a == OnWire(f);
    } else if j <= 3 {
      RestartedHeader(f, j);
    } else {
      assert a == OnWire(f[..j - 2]);
      RestartedFrame(f, j - 2);
    }
  }

  /** Two segments below the buffer size together: the handler hears the first, then both. */
  lemma TwoSegmentsHeard(a: seq<byte>, b: seq<byte>)
    requires |a| + |b| < UDP_RX_BUFSIZE
    ensures Flatten(Calls([a, b])) == a + (a + b)
  {
    var bs: seq<seq<byte>> := [b];
    assert [] + a == a && [a, b][1..] == bs && |bs[1..]| == 0;
    assert CallsFrom(a + b, bs[1..]) == [];
    assert CallsFrom(a, bs) == [a + b];
    assert Calls([a, b]) == [a] + [a + b];
    assert [a, a + b][1..] == [a + b];
    FlattenOne(a + b);
  }

  /**
   A chain of two segments that are one frame each: the first frame is dispatched twice, so
   its data goes out twice.
   */
  lemma TwoSegmentsRepeatFirst(f: seq<byte>, g: seq<byte>)
    requires WellFormed(f) && WellFormed(g) && |f| + |g| + 4 < UDP_RX_BUFSIZE
    ensures Feed(Hunt, Flatten(Calls([OnWire(f), OnWire(g)]))) == Result(Hunt, [f, f, g])
  {
    var a, b := OnWire(f), OnWire(g);
    TwoSegmentsHeard(a, b);
    FeedCountedBody(f);
    FeedCountedBody(g);
    FeedConcat(Hunt, a, b);
    FeedConcat(Hunt, a, a + b);
  }
}
