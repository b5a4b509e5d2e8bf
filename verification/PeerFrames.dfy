/** The frames the peer builds for the device, byte by byte, and what each does to the bus. */
module PeerFrames {
  import opened Bytes
  import opened FrameStream
  import opened StreamTheorems
  import opened UartFsmc
  import opened Delivery
  import opened ProtocolLayer

  /** Data for a channel: length, code 0xA1, channel, count, data, check byte. */
  function DataFrame(chl: byte, data: seq<byte>, check: byte): seq<byte>
    requires |data| <= 255
  {
    [(|data| + 7) % 256, (|data| + 7) / 256, 0xA1, 0, chl, |data|] + data + [check]
  }

  /** Its fields, where the device looks for them. */
  lemma DataFrameFields(chl: byte, data: seq<byte>, check: byte)
    requires |data| <= 255
    ensures var f := DataFrame(chl, data, check);
            && |f| == |data| + 7 && Word(f[0], f[1]) == |f|
            && f[2] == 0xA1 && f[3] == 0 && f[4] == chl && f[5] == |data|
            && forall i :: 0 <= i < |data| ==> f[6 + i] == data[i]
  {
  }

  /**
   A data frame with a zero sum is accepted, and its bytes go to the data register of its channel,
   0x2004 for the first and 0x100 further for each next one, in order, and nothing else is written.
   */
  lemma DataFrameSends(chl: byte, data: seq<byte>, check: byte)
    requires chl < 16 && |data| <= 255 && Sum(DataFrame(chl, data, check)) % 256 == 0
    ensures var f := DataFrame(chl, data, check);
            && f == [(|data| + 7) % 256, (|data| + 7) / 256, 0xA1, 0, chl, |data|] + data + [check]
            && WellFormed(f) && Feed(Hunt, [0xaa, 0xaa] + f) == Result(Hunt, [f])
            && |FrameWrites(f)| == |data|
            && forall i :: 0 <= i < |data| ==> FrameWrites(f)[i] == BusWrite(0x2004 + 0x100 * chl, data[i])
  {
    DataFrameFields(chl, data, check);
    WellFormedDispatch(DataFrame(chl, data, check));
  }

  /** Any well-formed data frame for a channel that exists, with its count. */
  lemma WellFormedDispatch(f: seq<byte>)
    requires 7 <= |f| < 1024 && Word(f[0], f[1]) == |f| && Sum(f) % 256 == 0
    requires f[2] == 0xA1 && f[3] == 0 && f[4] < 16 && f[5] == |f| - 7
    ensures WellFormed(f) && Feed(Hunt, [0xaa, 0xaa] + f) == Result(Hunt, [f])
    ensures |FrameWrites(f)| == f[5]
    ensures forall i :: 0 <= i < f[5] ==> FrameWrites(f)[i] == BusWrite(0x2004 + 0x100 * f[4] as int, f[6 + i])
  {
    assert OnWire(f) == [0xaa, 0xaa] + f;
    FeedCountedBody(f);
    DispatchExactly(f);
  }

  /** On a receiver that hunts, the wire form of such a frame appends exactly these writes to the bus log. */
  lemma DataFrameOnBus(b0: BusState, left: Queues, chl: byte, data: seq<byte>, check: byte,
                       r: Receiver, b: BusState)
    requires chl < 16 && |data| <= 255 && Sum(DataFrame(chl, data, check)) % 256 == 0
    requires Fed(Hunt, b0, left, [0xaa, 0xaa] + DataFrame(chl, data, check), r, b)
    ensures r == Hunt && b.rx == b0.rx && |b.log| == |b0.log| + |data| && b.log[..|b0.log|] == b0.log
    ensures var gained := b.log[|b0.log|..];
            forall i :: 0 <= i < |gained| ==> gained[i] == BusWrite(0x2004 + 0x100 * chl, data[i])
  {
    DataFrameFields(chl, data, check);
    WellFormedOnBus(b0, left, DataFrame(chl, data, check), r, b);
  }

  lemma WellFormedOnBus(b0: BusState, left: Queues, f: seq<byte>, r: Receiver, b: BusState)
    requires 7 <= |f| < 1024 && Word(f[0], f[1]) == |f| && Sum(f) % 256 == 0
    requires f[2] == 0xA1 && f[3] == 0 && f[4] < 16 && f[5] == |f| - 7
    requires Fed(Hunt, b0, left, [0xaa, 0xaa] + f, r, b)
    ensures r == Hunt && b.rx == b0.rx && |b.log| == |b0.log| + f[5] && b.log[..|b0.log|] == b0.log
    ensures var gained := b.log[|b0.log|..];
            forall i :: 0 <= i < |gained| ==> gained[i] == BusWrite(0x2004 + 0x100 * f[4] as int, f[6 + i])
  {
    WellFormedDispatch(f);
    FrameResets(f);
    OneFrameWrites(f);
    assert b == BusState(b0.log + FrameWrites(f), b0.rx);
    assert b.log[|b0.log|..] == FrameWrites(f);
  }

  lemma OneFrameWrites(f: seq<byte>)
    ensures StreamWrites([f]) == FrameWrites(f)
  {
    assert StreamWrites([f]) == FrameWrites(f) + StreamWrites([]);
  }

  /** The reset frame is accepted, and pulls and releases the reset line. */
  lemma ResetFrameResets()
    ensures Feed(Hunt, [0xaa, 0xaa] + [5, 0, 0xA2, 0, 89]) == Result(Hunt, [[5, 0, 0xA2, 0, 89]])
    ensures FrameWrites([5, 0, 0xA2, 0, 89]) == [BusWrite(0, 0), BusWrite(0, 1)]
  {
    var f: seq<byte> := [5, 0, 0xA2, 0, 89];
    assert Sum(f) == 256 by {
      assert f == [] + [5] + [0] + [0xA2] + [0] + [89];
      SumSnoc([], 5);
      SumSnoc([] + [5], 0);
      SumSnoc([] + [5] + [0], 0xA2);
      SumSnoc([] + [5] + [0] + [0xA2], 0);
      SumSnoc([] + [5] + [0] + [0xA2] + [0], 89);
    }
    assert OnWire(f) == [0xaa, 0xaa] + f;
    FeedCountedBody(f);
    DispatchExactly(f);
  }

  // ----- many messages

  datatype Message = Message(gap: seq<byte>, chl: byte, data: seq<byte>, check: byte)

  /** At most 255 bytes, the right check byte, and before it nothing that could be taken for a header. */
  ghost predicate Sendable(m: Message) {
    |m.data| <= 255 && Gap(m.gap) && Sum(DataFrame(m.chl, m.data, m.check)) % 256 == 0
  }

  ghost predicate AllSendable(ms: seq<Message>) {
    forall k :: 0 <= k < |ms| ==> Sendable(ms[k])
  }

  /** What the peer sends. */
  ghost function Wire(ms: seq<Message>): seq<byte>
    requires AllSendable(ms)
  {
    if ms == [] then []
    else ms[0].gap + ([0xaa, 0xaa] + DataFrame(ms[0].chl, ms[0].data, ms[0].check)) + Wire(ms[1..])
  }

  /** What it means for a channel to get. */
  function SentTo(ms: seq<Message>, chl: byte): seq<byte> {
    if ms == [] then [] else (if ms[0].chl == chl then ms[0].data else []) + SentTo(ms[1..], chl)
  }

  ghost function ItemsOf(ms: seq<Message>): (items: seq<Item>)
    requires AllSendable(ms)
    ensures |items| == |ms|
  {
    if ms == [] then []
    else [Item(ms[0].gap, DataFrame(ms[0].chl, ms[0].data, ms[0].check))] + ItemsOf(ms[1..])
  }

  lemma DataFrameWellFormed(m: Message)
    requires Sendable(m)
    ensures WellFormed(DataFrame(m.chl, m.data, m.check))
    ensures forall c: byte :: Payload(DataFrame(m.chl, m.data, m.check), c) == if c == m.chl then m.data else []
  {
    var f := DataFrame(m.chl, m.data, m.check);
    forall c: byte
      ensures Payload(f, c) == if c == m.chl then m.data else []
    {
      PayloadExactly(f, c);
      assert f[6..6 + |m.data|] == m.data;
    }
  }

  lemma {:induction false} MessagesAreItems(ms: seq<Message>)
    requires AllSendable(ms)
    ensures Transmit(ItemsOf(ms)) == Wire(ms)
    ensures forall k :: 0 <= k < |ms| ==> Gap(ItemsOf(ms)[k].gap) && WellFormed(ItemsOf(ms)[k].frame)
  {
    if ms == [] {
    } else {
      var m := ms[0];
      MessagesAreItems(ms[1..]);
      DataFrameWellFormed(m);
      assert OnWire(DataFrame(m.chl, m.data, m.check)) == [0xaa, 0xaa] + DataFrame(m.chl, m.data, m.check);
      assert ItemsOf(ms)[1..] == ItemsOf(ms[1..]);
    }
  }

  lemma {:induction false} PayloadsOfMessages(ms: seq<Message>, chl: byte)
    requires AllSendable(ms)
    ensures Payloads(FramesOf(ItemsOf(ms)), chl) == SentTo(ms, chl)
  {
    if ms == [] {
    } else {
      PayloadsOfMessages(ms[1..], chl);
      DataFrameWellFormed(ms[0]);
      assert ItemsOf(ms)[1..] == ItemsOf(ms[1..]);
      assert FramesOf(ItemsOf(ms))[1..] == FramesOf(ItemsOf(ms[1..]));
    }
  }

  /** Such a transmission as frames between gaps, with what they carry for a channel. */
  lemma MessagesAsItems(ms: seq<Message>, chl: byte) returns (items: seq<Item>)
    requires AllSendable(ms)
    ensures Transmit(items) == Wire(ms)
    ensures forall k :: 0 <= k < |items| ==> Gap(items[k].gap) && WellFormed(items[k].frame)
    ensures Payloads(FramesOf(items), chl) == SentTo(ms, chl)
  {
    items := ItemsOf(ms);
    MessagesAreItems(ms);
    PayloadsOfMessages(ms, chl);
  }
}
