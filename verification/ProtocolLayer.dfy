/** The protocol layer: the byte-at-a-time frame receiver, frame dispatch, and the report builder. */
module ProtocolLayer {
  import opened Bytes
  import opened FrameStream
  import opened StreamTheorems
  import opened UartFsmc
  import opened Delivery
  import opened Report

  /** Being fed exactly `heard` took receiver state r0 and bus b0 to r and b; a reset leaves `left`. */
  ghost predicate Fed(r0: Receiver, b0: BusState, left: Queues, heard: seq<byte>, r: Receiver, b: BusState) {
    && r == Feed(r0, heard).end
    && b == After(b0, left, StreamWrites(Feed(r0, heard).frames))
  }

  lemma FedNothing(r: Receiver, b: BusState, left: Queues)
    ensures Fed(r, b, left, [], r, b)
  {
    assert Feed(r, []) == Result(r, []);
    AfterNothing(b, left);
  }

  lemma FedMore(r0: Receiver, b0: BusState, left: Queues, heard: seq<byte>, r1: Receiver, b1: BusState,
                data: seq<byte>, r2: Receiver, b2: BusState)
    requires Fed(r0, b0, left, heard, r1, b1) && Fed(r1, b1, left, data, r2, b2)
    ensures Fed(r0, b0, left, heard + data, r2, b2)
  {
    var before, more := Feed(r0, heard).frames, Feed(r1, data).frames;
    FeedConcat(r0, heard, data);
    StreamWritesConcat(before, more);
    AfterBoth(b0, left, StreamWrites(before), StreamWrites(more));
  }

  /** A byte that completes no frame. */
  lemma FedQuietly(r: Receiver, ch: byte, r': Receiver, b: BusState, left: Queues)
    requires FeedByte(r, ch) == Result(r', [])
    ensures Fed(r, b, left, [ch], r', b)
  {
    FeedOne(r, ch);
    AfterNothing(b, left);
  }

  /** The byte that completes a frame of the declared length. */
  lemma FedCheckByte(acc: seq<byte>, ch: byte, b: BusState, left: Queues, b': BusState)
    requires var f := acc + [ch];
             && 4 <= |f| == Word(f[0], f[1]) < BUFF_SIZE
             && b' == After(b, left, if Sum(f) % 256 == 0 then FrameWrites(f) else [])
    ensures Fed(Body(acc), b, left, [ch], Hunt, b')
  {
    var f := acc + [ch];
    FeedOne(Body(acc), ch);
    assert Judge(f) == if Sum(f) % 256 == 0 then Accept else Reject;
    assert StreamWrites([f]) == FrameWrites(f) + StreamWrites([]);
  }

  class Layer {
    const bus: FsmcBus
    const buff: array<byte>
    const report: array?<byte>
    var step: nat
    var udpLen: nat
    var index: nat
    /** Set when the code would store behind the end of `buff`; the model stops there. */
    var overrun: bool
    /** Datagrams handed to the UDP connection so far. */
    var sent: seq<seq<byte>>

    ghost predicate Valid()
      reads this, buff, report, bus
    {
      && buff.Length == BUFF_SIZE
      && bus.Valid()
      && ReceiverValid()
      && (report != null ==>
            && report != buff
            && report.Length == REPORT_BUFF_SIZE
            && report[0] == SYNC && report[1] == SYNC
            && report[4] == CODE_UART_REPORT && report[5] == 0)
    }

    /** The relation between step, declared length, index and buffer in every reachable state. */
    ghost predicate ReceiverValid()
      reads this, buff
    {
      && buff.Length == BUFF_SIZE
      && step <= 5
      && (!overrun && step >= 2 ==>
            && index <= BUFF_SIZE
            && (step == 2 <==> index == 0)
            && (step == 3 <==> index == 1)
            && (index == 1 ==> udpLen == buff[0])
            && (index >= 2 ==>
                  && udpLen == Word(buff[0], buff[1]) < BUFF_SIZE
                  && (1 <= udpLen < 4 ==> index == 2)
                  && (4 <= udpLen ==> index < udpLen)
                  && (step == 5 <==> 4 <= udpLen && index == udpLen - 1)))
    }

    /** What the receiver is waiting for, with the bytes since the last header. */
    ghost function Receiver(): Receiver
      reads this, buff
      requires ReceiverValid()
    {
      if overrun then Overrun
      else if step == 0 then Hunt
      else if step == 1 then HalfHeader
      else Body(buff[..index])
    }

    /** Start-up state after `initProtocolLayer`; `heapOk` is whether the heap gave a report buffer. */
    constructor (bus: FsmcBus, heapOk: bool)
      requires bus.Valid()
      ensures Valid() && fresh(buff) && (report != null ==> fresh(report)) && this.bus == bus
      ensures Receiver() == Hunt && sent == [] && (report != null <==> heapOk)
      ensures report != null ==> Word(report[2], report[3]) == 262
    {
      this.bus := bus;
      buff := new byte[BUFF_SIZE](_ => 0);
      step, udpLen, index, overrun, sent := 0, 0, 0, false, [];
      var r: array?<byte> := null;
      if heapOk {
        r := new byte[REPORT_BUFF_SIZE](_ => 0);
        r[0], r[1] := SYNC, SYNC;
        r[4], r[5] := CODE_UART_REPORT, 0;
        r[2], r[3] := (261 + 1) % 256, (261 + 1) / 256;
      }
      report := r;
    }

    /** Forwards the data of the message at the start of `buff` to its UART. */
    method SendUart()
      requires buff.Length == BUFF_SIZE && bus.Valid() && 4 <= Word(buff[0], buff[1]) < BUFF_SIZE
      modifies bus`log, bus`rx, bus`sentCount
      ensures bus.Valid()
      ensures bus.View() == After(old(bus.View()), bus.left, UartWrites(buff[..Word(buff[0], buff[1])]))
      ensures |old(bus.log)| <= |bus.log| && bus.log[..|old(bus.log)|] == old(bus.log)
      ensures var n, gained := Word(buff[0], buff[1]), bus.log[|old(bus.log)|..];
              if n >= 7 && buff[4] < 16 && buff[5] <= n - 7 then
                && |gained| == buff[5]
                && forall i :: 0 <= i < |gained| ==> gained[i] == BusWrite(0x2004 + 0x100 * buff[4] as int, buff[6 + i])
              else gained == []
    {
      UartWritesExactly(buff[..Word(buff[0], buff[1])]);
      var len := Word(buff[0], buff[1]);
      AfterNothing(bus.View(), bus.left);
      var num: nat := buff[5];
      if len >= num + 2 + 4 + 1 {
        assert buff[..len][6..6 + num] == buff[6..6 + num];
        var n := SendDataUartFsmc(bus, buff[4], buff, 6, buff[5]);
      }
    }

    /**
     Dispatches the message at the start of `buff`. The effect is a function of the message's own
     bytes, although code, channel and count are read at fixed offsets that a short message
     does not reach.
     */
    method HandleProtocol()
      requires buff.Length == BUFF_SIZE && bus.Valid() && 4 <= Word(buff[0], buff[1]) < BUFF_SIZE
      modifies bus`log, bus`rx, bus`sentCount
      ensures bus.Valid()
      ensures bus.View() == After(old(bus.View()), bus.left, FrameWrites(buff[..Word(buff[0], buff[1])]))
      ensures |old(bus.log)| <= |bus.log| && bus.log[..|old(bus.log)|] == old(bus.log)
      ensures var n, gained := Word(buff[0], buff[1]), bus.log[|old(bus.log)|..];
              if buff[2] == 0xA1 && buff[3] == 0 && n >= 7 && buff[4] < 16 && buff[5] <= n - 7 then
                && |gained| == buff[5]
                && forall i :: 0 <= i < |gained| ==> gained[i] == BusWrite(0x2004 + 0x100 * buff[4] as int, buff[6 + i])
              else if buff[2] == 0xA2 && buff[3] == 0 then gained == [BusWrite(0, 0), BusWrite(0, 1)]
              else gained == []
    {
      DispatchExactly(buff[..Word(buff[0], buff[1])]);
      AfterNothing(bus.View(), bus.left);
      var code := Word(buff[2], buff[3]);
      if code == CODE_UART_DATA {
        SendUart();
      } else if code == CODE_RESET {
        ResetUartFsmc(bus);
      }
    }

    /** `udp_buff[index_buff] = ch; index_buff++`, noting a store outside the buffer. */
    method Store(ch: byte)
      requires buff.Length == BUFF_SIZE
      modifies this`index, this`overrun, buff
      ensures old(index) < BUFF_SIZE ==>
                && index == old(index) + 1 && overrun == old(overrun)
                && buff[..] == old(buff[..])[old(index) := ch]
      ensures old(index) >= BUFF_SIZE ==> overrun && index == old(index) && buff[..] == old(buff[..])
    {
      if index < buff.Length {
        buff[index] := ch;
        index := index + 1;
      } else {
        overrun := true;
      }
    }

    /** The 8-bit sum over the whole message, counting with the shared index. */
    method CheckSum() returns (cs: byte)
      requires buff.Length == BUFF_SIZE && udpLen <= BUFF_SIZE
      modifies this`index
      ensures cs == Sum(buff[..udpLen]) % 256
      ensures index == udpLen
    {
      cs := 0;
      index := 0;
      while index < udpLen
        invariant index <= udpLen
        invariant cs == Sum(buff[..index]) % 256
      {
        SumNext(buff[..], index);
        assert buff[..][..index] == buff[..index] && buff[..][..index + 1] == buff[..index + 1];
        cs := (cs as int + buff[index]) % 256;
        index := index + 1;
      }
    }

    /** One turn of the receiving loop. */
    method OnByte(ch: byte)
      requires Valid()
      modifies this`step, this`udpLen, this`index, this`overrun, buff, bus`log, bus`rx, bus`sentCount
      ensures Valid()
      ensures Fed(old(Receiver()), old(bus.View()), bus.left, [ch], Receiver(), bus.View())
    {
      ghost var r, b := Receiver(), bus.View();
      if !overrun && step == 5 {
        ghost var acc := buff[..index];
        OnCheckByte(ch);
        FedCheckByte(acc, ch, b, bus.left, bus.View());
      } else {
        OnQuietByte(ch);
        FedQuietly(r, ch, Receiver(), b, bus.left);
      }
    }

    /** A turn that cannot complete a message; behind an overrun the model does nothing. */
    method OnQuietByte(ch: byte)
      requires Valid() && (overrun || step != 5)
      modifies this`step, this`udpLen, this`index, this`overrun, buff
      ensures Valid()
      ensures FeedByte(old(Receiver()), ch) == Result(Receiver(), [])
    {
      if overrun {
      } else if step == 0 {
        if ch == SYNC { step := 1; }
      } else if step == 1 {
        if ch == SYNC { step, index := 2, 0; } else { step := 0; }
      } else if step <= 3 {
        OnLengthByte(ch);
      } else {
        OnContentByte(ch);
      }
    }

    /** The two turns that read the declared length. */
    method OnLengthByte(ch: byte)
      requires Valid() && !overrun && 2 <= step <= 3
      modifies this`step, this`udpLen, this`index, this`overrun, buff
      ensures Valid()
      ensures FeedByte(old(Receiver()), ch) == Result(Receiver(), [])
    {
      ghost var acc := buff[..index];
      if step == 2 {
        udpLen := ch;
        Store(ch);
        step := 3;
      } else {
        udpLen := udpLen + 256 * ch;
        Store(ch);
        step := if udpLen < BUFF_SIZE then 4 else 0;
      }
      assert buff[..index] == acc + [ch];
    }

    /** A turn inside the content. */
    method OnContentByte(ch: byte)
      requires Valid() && !overrun && step == 4
      modifies this`step, this`index, this`overrun, buff
      ensures Valid()
      ensures FeedByte(old(Receiver()), ch) == Result(Receiver(), [])
    {
      ghost var acc := buff[..index];
      ghost var acc1 := acc + [ch];
      assert acc1[0] == buff[0] && acc1[1] == buff[1];
      // `udp_len-1` is an int that the comparison converts to 32 bits unsigned
      var limit := if udpLen == 0 then 0xFFFF_FFFF else udpLen - 1;
      if index < limit {
        Store(ch);
        if index == limit { step := 5; }
        assert !overrun ==> buff[..index] == acc1;
        assert Judge(acc1) == if overrun then Overflow else More;
      } else {
        step := 0;
        assert Judge(acc1) == Reject;
      }
    }

    /** The turn that completes a message. */
    method OnCheckByte(ch: byte)
      requires Valid() && !overrun && step == 5
      modifies this`step, this`index, this`overrun, buff, bus`log, bus`rx, bus`sentCount
      ensures Valid()
      ensures Receiver() == Hunt
      ensures var f := old(buff[..index]) + [ch];
              && 4 <= |f| == Word(f[0], f[1]) < BUFF_SIZE
              && bus.View() == After(old(bus.View()), bus.left, if Sum(f) % 256 == 0 then FrameWrites(f) else [])
    {
      AfterNothing(bus.View(), bus.left);
      ghost var f := buff[..index] + [ch];
      Store(ch);
      assert buff[..udpLen] == f;
      assert buff[0] == f[0] && buff[1] == f[1] && udpLen == Word(f[0], f[1]);
      var cs := CheckSum();
      if cs == 0 {
        HandleProtocol();
      }
      step := 0;
    }

    /** Feeds the first `size` bytes of a received datagram to the receiver. */
    method Unpacking(ptr: array<byte>, size: nat)
      requires Valid() && size <= ptr.Length && ptr != buff && ptr != report
      modifies this`step, this`udpLen, this`index, this`overrun, buff, bus`log, bus`rx, bus`sentCount
      ensures Valid()
      ensures Fed(old(Receiver()), old(bus.View()), bus.left, ptr[..size], Receiver(), bus.View())
    {
      var i := 0;
      ghost var r0, b0 := Receiver(), bus.View();
      FedNothing(r0, b0, bus.left);
      while i < size
        invariant i <= size && Valid()
        invariant ptr[..] == old(ptr[..])
        invariant Fed(r0, b0, bus.left, ptr[..i], Receiver(), bus.View())
      {
        var ch := ptr[i];
        assert ptr[..i + 1] == ptr[..i] + [ch];
        ghost var r, b := Receiver(), bus.View();
        OnByte(ch);
        FedMore(r0, b0, bus.left, ptr[..i], r, b, [ch], Receiver(), bus.View());
        i := i + 1;
      }
    }

    /**
     Polls a channel: the pending bytes, if any, leave as one report datagram that depends on
     nothing but the channel and these bytes.
     */
    method CheckUartFsmc(chl: byte) returns (size: byte)
      requires Valid()
      modifies this`sent, report, bus`rx
      ensures Valid() && Receiver() == old(Receiver())
      ensures size == if chl < UART_FSMC_NUM && report != null
                      then Receivable(old(bus.rx)[chl], MAX_UART_DATA_SIZE) else 0
      ensures chl < UART_FSMC_NUM && report != null ==>
                var data := old(bus.rx)[chl][..size];
                && sent == old(sent) + (if size > 0 then [OnWire(ReportFrame(chl, data))] else [])
                && bus.rx == old(bus.rx)[chl := old(bus.rx)[chl][size..]]
      ensures !(chl < UART_FSMC_NUM && report != null) ==>
                sent == old(sent) && bus.rx == old(bus.rx)
    {
      size := 0;
      if chl < UART_FSMC_NUM && report != null {
        report[6] := chl;
        ghost var head := report[..8];
        size := ReceiveDataUartFsmc(bus, chl, report, 8, MAX_UART_DATA_SIZE);
        assert report[..8] == head;
        assert forall k :: 0 <= k < 8 ==> report[k] == report[..8][k];
        if size > 0 {
          var len := BuildReport(size);
          sent := sent + [report[..len + 2]];
        }
      }
    }

    /** Fills in count, length and check byte around `size` received bytes. */
    method BuildReport(size: byte) returns (len: nat)
      requires report != null && report.Length == REPORT_BUFF_SIZE && 0 < size
      requires report[0] == SYNC && report[1] == SYNC && report[4] == CODE_UART_REPORT && report[5] == 0
      modifies report
      ensures len + 2 <= REPORT_BUFF_SIZE
      ensures report[..len + 2] == OnWire(ReportFrame(old(report[6]), old(report[8..8 + size])))
      ensures report[0] == SYNC && report[1] == SYNC && report[4] == CODE_UART_REPORT && report[5] == 0
    {
      len := FillHead(size);
      ghost var content := report[2..len + 1];
      var cs := ReportSum(len);
      report[len + 2 - 1] := (0 - cs as int) % 256;
      assert report[2..len + 1] == content;
      assert report[..len + 2] == [SYNC, SYNC] + report[2..len + 1] + [report[len + 1]];
    }

    /** Count and length fields. */
    method FillHead(size: byte) returns (len: nat)
      requires report != null && report.Length == REPORT_BUFF_SIZE
      requires report[4] == CODE_UART_REPORT && report[5] == 0
      modifies report
      ensures len == size + 7
      ensures report[2..len + 1] == Content(old(report[6]), old(report[8..8 + size]))
      ensures report[0] == old(report[0]) && report[1] == old(report[1])
      ensures report[4] == CODE_UART_REPORT && report[5] == 0
    {
      ghost var data := report[8..8 + size];
      report[7] := size;
      len := 261 + 1 - (MAX_UART_DATA_SIZE - size);
      report[2], report[3] := len % 256, len / 256;
      assert report[8..8 + size] == data;
      assert report[2..len + 1] == report[2..8] + report[8..8 + size];
    }

    /** The 8-bit sum over the message in the report buffer, its check byte left out. */
    method ReportSum(len: nat) returns (cs: byte)
      requires report != null && 1 <= len && len + 1 <= report.Length
      ensures cs == Sum(report[2..len + 1]) % 256
    {
      cs := 0;
      var i := 2;
      ghost var content := report[2..len + 1];
      while i < len + 2 - 1
        invariant 2 <= i <= len + 1
        invariant cs == Sum(content[..i - 2]) % 256
      {
        SumNext(content, i - 2);
        cs := (cs as int + report[i]) % 256;
        i := i + 1;
      }
      assert content[..len - 1] == content;
    }
  }
}
