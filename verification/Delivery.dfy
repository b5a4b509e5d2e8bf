/** What accepted frames do to the UART bus, and what that means for each channel. */
module Delivery {
  import opened Bytes
  import opened UartFsmc

  const CODE_UART_DATA: nat := 0xA1
  const CODE_UART_REPORT: nat := 0xB1
  const CODE_RESET: nat := 0xA2

  /** The bytes a frame carries for channel `chl`: only bytes of the frame, never its last one. */
  function Payload(f: seq<byte>, chl: byte): seq<byte> {
    if |f| >= 7 && Word(f[2], f[3]) == CODE_UART_DATA && f[4] == chl && f[5] <= |f| - 7
    then f[6..6 + f[5]] else []
  }

  /** The bus writes an accepted frame causes; no frame is accepted with less than four bytes. */
  function FrameWrites(f: seq<byte>): seq<BusWrite> {
    if |f| < 4 then []
    else if Word(f[2], f[3]) == CODE_UART_DATA then UartWrites(f)
    else if Word(f[2], f[3]) == CODE_RESET then ResetWrites()
    else []
  }

  /** The writes of a data frame: nothing unless count and check byte fit into its length. */
  function UartWrites(f: seq<byte>): seq<BusWrite> {
    if |f| >= 7 && f[5] <= |f| - 7 && f[4] < UART_FSMC_NUM then SendWrites(f[4], f[6..6 + f[5]]) else []
  }

  function StreamWrites(fs: seq<seq<byte>>): seq<BusWrite> {
    if fs == [] then [] else FrameWrites(fs[0]) + StreamWrites(fs[1..])
  }

  function Payloads(fs: seq<seq<byte>>, chl: byte): seq<byte> {
    if fs == [] then [] else Payload(fs[0], chl) + Payloads(fs[1..], chl)
  }

  /**
   The whole effect of a dispatch, in the numbers of the protocol and of the bus: a data frame with
   room for its count sends, a reset frame pulls and releases the reset line, nothing else is done.
   */
  lemma DispatchExactly(f: seq<byte>)
    requires |f| >= 4
    ensures var writes := FrameWrites(f);
            if f[2] == 0xA1 && f[3] == 0 && |f| >= 7 && f[4] < 16 && f[5] <= |f| - 7 then
              && |writes| == f[5]
              && forall i :: 0 <= i < |writes| ==> writes[i] == BusWrite(0x2004 + 0x100 * f[4] as int, f[6 + i])
            else if f[2] == 0xA2 && f[3] == 0 then writes == [BusWrite(0, 0), BusWrite(0, 1)]
            else writes == []
  {
    assert Word(f[2], f[3]) == 0xA1 <==> f[2] == 0xA1 && f[3] == 0;
    assert Word(f[2], f[3]) == 0xA2 <==> f[2] == 0xA2 && f[3] == 0;
    UartWritesExactly(f);
  }

  lemma UartWritesExactly(f: seq<byte>)
    ensures var writes := UartWrites(f);
            if |f| >= 7 && f[4] < 16 && f[5] <= |f| - 7 then
              && |writes| == f[5]
              && forall i :: 0 <= i < |writes| ==> writes[i] == BusWrite(0x2004 + 0x100 * f[4] as int, f[6 + i])
            else writes == []
  {
    if |f| >= 7 && f[5] <= |f| - 7 {
      SentPointwise(f[4], f[6..6 + f[5]]);
    }
  }

  lemma SentPointwise(chl: byte, data: seq<byte>)
    ensures |SendWrites(chl, data)| == |data|
    ensures forall i :: 0 <= i < |data| ==> SendWrites(chl, data)[i] == BusWrite(0x2004 + 0x100 * chl, data[i])
  {
    assert DataReg(chl) == 0x2004 + 0x100 * chl;
    assert forall i :: 0 <= i < |data| ==> SendWrites(chl, data)[i] == BusWrite(DataReg(chl), data[i]);
  }

  /** What a frame carries for a channel, in the same numbers. */
  lemma PayloadExactly(f: seq<byte>, chl: byte)
    ensures Payload(f, chl) ==
            if |f| >= 7 && f[2] == 0xA1 && f[3] == 0 && f[4] == chl && f[5] <= |f| - 7 then f[6..6 + f[5]] else []
  {
  }

  /** A channel's data register gets the payload for that channel and nothing else. */
  lemma FrameDelivery(f: seq<byte>, chl: byte)
    requires chl < UART_FSMC_NUM
    ensures DataWrites(FrameWrites(f), chl) == Payload(f, chl)
    ensures WritesAt(FrameWrites(f), 0x2004 + 0x100 * chl) ==
            if |f| >= 7 && f[2] == 0xA1 && f[3] == 0 && f[4] == chl && f[5] <= |f| - 7 then f[6..6 + f[5]] else []
  {
    PayloadExactly(f, chl);
    if |f| < 4 {
    } else if Word(f[2], f[3]) == CODE_UART_DATA {
      if |f| >= 7 && f[5] <= |f| - 7 && f[4] < UART_FSMC_NUM {
        DataWritesOfSend(f[4], f[6..6 + f[5]], chl);
      }
    } else if Word(f[2], f[3]) == CODE_RESET {
      WritesAtPair(BusWrite(RESET_ADDR, 0), BusWrite(RESET_ADDR, 1), DataReg(chl));
    }
  }

  /** A channel's data register receives exactly the payloads for that channel, in order. */
  lemma {:induction false} StreamDelivery(fs: seq<seq<byte>>, chl: byte)
    requires chl < UART_FSMC_NUM
    ensures DataWrites(StreamWrites(fs), chl) == Payloads(fs, chl)
  {
    if fs == [] {
    } else {
      FrameDelivery(fs[0], chl);
      StreamDelivery(fs[1..], chl);
      WritesAtConcat(FrameWrites(fs[0]), StreamWrites(fs[1..]), DataReg(chl));
    }
  }

  predicate IsReset(f: seq<byte>) {
    |f| >= 4 && Word(f[2], f[3]) == CODE_RESET
  }

  lemma FrameResets(f: seq<byte>)
    ensures HoldsReset(FrameWrites(f)) <==> IsReset(f)
  {
    if |f| >= 7 && Word(f[2], f[3]) == CODE_UART_DATA && f[5] <= |f| - 7 {
      SendHoldsNoReset(f[4], f[6..6 + f[5]]);
    }
  }

  /** Only a frame with code 0xA2 resets the UARTs. */
  lemma {:induction false} StreamResets(fs: seq<seq<byte>>)
    ensures HoldsReset(StreamWrites(fs)) <==> exists f :: f in fs && IsReset(f)
  {
    if fs == [] {
    } else {
      FrameResets(fs[0]);
      StreamResets(fs[1..]);
      assert fs == [fs[0]] + fs[1..];
    }
  }

  /** Frames leave address 1 alone. */
  lemma {:induction false} StreamAvoidsLine(fs: seq<seq<byte>>)
    ensures forall i :: 0 <= i < |StreamWrites(fs)| ==> StreamWrites(fs)[i].addr != 1
  {
    if fs == [] {
    } else {
      StreamAvoidsLine(fs[1..]);
      if |fs[0]| >= 4 { DispatchExactly(fs[0]); }
    }
  }

  /** The number of reset frames. */
  function ResetCount(fs: seq<seq<byte>>): nat {
    if fs == [] then 0
    else (if |fs[0]| >= 4 && fs[0][2] == 0xA2 && fs[0][3] == 0 then 1 else 0) + ResetCount(fs[1..])
  }

  /** The reset line pulled and released n times: 0, 1, 0, 1, .. */
  function ResetPulses(n: nat): (values: seq<byte>)
    ensures values != [] ==> values[|values| - 1] == 1
  {
    seq(2 * n, i requires 0 <= i < 2 * n => i % 2)
  }

  lemma OnePulseMore(n: nat)
    ensures [0, 1] + ResetPulses(n) == ResetPulses(1 + n)
    ensures [] + ResetPulses(n) == ResetPulses(n)
  {
    var more := [0, 1] + ResetPulses(n);
    assert forall i :: 0 <= i < |more| ==> more[i] == i % 2;
  }

  /** The reset line is pulled and released once for each reset frame, so it always ends released. */
  lemma {:induction false} StreamReleases(fs: seq<seq<byte>>)
    ensures WritesAt(StreamWrites(fs), 0) == ResetPulses(ResetCount(fs))
  {
    if fs == [] {
    } else {
      StreamReleases(fs[1..]);
      WritesAtConcat(FrameWrites(fs[0]), StreamWrites(fs[1..]), 0);
      FrameReleases(fs[0]);
      OnePulseMore(ResetCount(fs[1..]));
    }
  }

  lemma FrameReleases(f: seq<byte>)
    ensures WritesAt(FrameWrites(f), 0) == if |f| >= 4 && f[2] == 0xA2 && f[3] == 0 then [0, 1] else []
  {
    if |f| >= 4 && Word(f[2], f[3]) == CODE_UART_DATA && |f| >= 7 && f[5] <= |f| - 7 {
      WritesOfSend(f[4], f[6..6 + f[5]], 0);
    }
    WritesAtPair(BusWrite(RESET_ADDR, 0), BusWrite(RESET_ADDR, 1), 0);
  }

  lemma {:induction false} StreamWritesConcat(a: seq<seq<byte>>, b: seq<seq<byte>>)
    ensures StreamWrites(a + b) == StreamWrites(a) + StreamWrites(b)
  {
    if a == [] {
      assert a + b == b;
    } else {
      assert (a + b)[0] == a[0] && (a + b)[1..] == a[1..] + b;
      StreamWritesConcat(a[1..], b);
      Assoc(FrameWrites(a[0]), StreamWrites(a[1..]), StreamWrites(b));
    }
  }

  lemma {:induction false} PayloadsConcat(a: seq<seq<byte>>, b: seq<seq<byte>>, chl: byte)
    ensures Payloads(a + b, chl) == Payloads(a, chl) + Payloads(b, chl)
  {
    if a == [] {
      assert a + b == b;
    } else {
      assert (a + b)[0] == a[0] && (a + b)[1..] == a[1..] + b;
      PayloadsConcat(a[1..], b, chl);
      Assoc(Payload(a[0], chl), Payloads(a[1..], chl), Payloads(b, chl));
    }
  }
}
