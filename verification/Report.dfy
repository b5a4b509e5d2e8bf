/** The report frames sent upstream: their layout, and that it can be read back. */
module Report {
  import opened Bytes
  import opened FrameStream
  import opened StreamTheorems
  import opened Delivery

  const MAX_UART_DATA_SIZE: nat := 255
  const REPORT_BUFF_SIZE: nat := 264

  /** Length, code, channel, count and data: what the check byte is computed over. */
  function Content(chl: byte, data: seq<byte>): seq<byte>
    requires |data| <= MAX_UART_DATA_SIZE
  {
    [(|data| + 7) % 256, (|data| + 7) / 256, CODE_UART_REPORT, 0, chl, |data|] + data
  }

  /** The byte that makes the sum of a sequence zero modulo 256. */
  function CheckByte(s: seq<byte>): (cs: byte)
    ensures (Sum(s) + cs) % 256 == 0
  {
    (256 - Sum(s) % 256) % 256
  }

  function ReportFrame(chl: byte, data: seq<byte>): seq<byte>
    requires |data| <= MAX_UART_DATA_SIZE
  {
    Content(chl, data) + [CheckByte(Content(chl, data))]
  }

  lemma ReportWellFormed(chl: byte, data: seq<byte>)
    requires |data| <= MAX_UART_DATA_SIZE
    ensures WellFormed(ReportFrame(chl, data)) && |ReportFrame(chl, data)| == |data| + 7
    ensures |OnWire(ReportFrame(chl, data))| <= REPORT_BUFF_SIZE == 264
  {
    var c := Content(chl, data);
    SumConcat(c, [CheckByte(c)]);
    assert [CheckByte(c)][..0] == [];
  }

  /** The bytes of a report datagram, written out. */
  lemma ReportBytes(chl: byte, data: seq<byte>)
    requires |data| <= 255
    ensures var r := OnWire(ReportFrame(chl, data));
            && |r| == |data| + 9
            && r[..8] == [0xaa, 0xaa, (|data| + 7) % 256, (|data| + 7) / 256, 0xB1, 0, chl, |data|]
            && r[8..8 + |data|] == data
            && Sum(r[2..]) % 256 == 0
  {
    var r := OnWire(ReportFrame(chl, data));
    ReportWellFormed(chl, data);
    assert r[2..] == ReportFrame(chl, data);
  }

  /** Channel and data a report carries, as read by the peer. */
  function ReportData(f: seq<byte>, chl: byte): seq<byte> {
    if |f| >= 7 && Word(f[2], f[3]) == CODE_UART_REPORT && f[4] == chl && f[5] <= |f| - 7
    then f[6..6 + f[5]] else []
  }

  /** A peer running the same receiver gets the report's frame, and from it channel and data. */
  lemma ReportRoundTrip(chl: byte, data: seq<byte>)
    requires |data| <= MAX_UART_DATA_SIZE
    ensures Feed(Hunt, OnWire(ReportFrame(chl, data))) == Result(Hunt, [ReportFrame(chl, data)])
    ensures forall c: byte :: ReportData(ReportFrame(chl, data), c) == if c == chl then data else []
  {
    ReportWellFormed(chl, data);
    FeedCountedBody(ReportFrame(chl, data));
    var f := ReportFrame(chl, data);
    assert f[6..6 + |data|] == data;
  }
}
