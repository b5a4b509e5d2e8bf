/** The external UARTs behind the FSMC bus, and the routines that move bytes through them. */
module UartFsmc {
  import opened Bytes

  const UART_FSMC_NUM: nat := 16
  const UART1_BASE: nat := 0x2000
  const BASE_INTERVAL: nat := 0x100
  const RESET_ADDR: nat := 0

  datatype BusWrite = BusWrite(addr: nat, value: byte)

  /** Received bytes waiting in each UART. */
  type Queues = q: seq<seq<byte>> | |q| == UART_FSMC_NUM witness seq(UART_FSMC_NUM, _ => [])

  /** All bus writes so far, and the received bytes waiting. */
  datatype BusState = BusState(log: seq<BusWrite>, rx: seq<seq<byte>>)

  /** The writes pull the reset line of the UARTs. */
  predicate HoldsReset(writes: seq<BusWrite>) {
    BusWrite(RESET_ADDR, 0) in writes
  }

  /** The bus after some writes; a reset among them leaves `left` in the UARTs. */
  function After(b: BusState, left: Queues, writes: seq<BusWrite>): BusState {
    BusState(b.log + writes, if HoldsReset(writes) then left else b.rx)
  }

  lemma AfterBoth(b: BusState, left: Queues, x: seq<BusWrite>, y: seq<BusWrite>)
    ensures After(After(b, left, x), left, y) == After(b, left, x + y)
  {
    Assoc(b.log, x, y);
  }

  lemma AfterNothing(b: BusState, left: Queues)
    ensures After(b, left, []) == b
  {
    assert b.log + [] == b.log;
  }

  function AddrBase(chl: byte): nat {
    UART1_BASE + BASE_INTERVAL * chl
  }

  /** Data register: writing sends a byte, reading takes the oldest received byte. */
  function DataReg(chl: byte): nat {
    AddrBase(chl) + 4
  }

  /** The writes that send `data` on channel `chl`. */
  function SendWrites(chl: byte, data: seq<byte>): seq<BusWrite> {
    seq(|data|, i requires 0 <= i < |data| => BusWrite(DataReg(chl), data[i]))
  }

  lemma SendWritesNext(chl: byte, data: seq<byte>, i: nat)
    requires i < |data|
    ensures SendWrites(chl, data[..i + 1]) == SendWrites(chl, data[..i]) + [BusWrite(DataReg(chl), data[i])]
  {
  }

  lemma SendHoldsNoReset(chl: byte, data: seq<byte>)
    ensures !HoldsReset(SendWrites(chl, data))
  {
    var writes := SendWrites(chl, data);
    forall i | 0 <= i < |writes|
      ensures writes[i] != BusWrite(RESET_ADDR, 0)
    {
      assert writes[i].addr == DataReg(chl);
    }
  }

  /** The values a bus log has written to an address, in order. */
  function WritesAt(log: seq<BusWrite>, addr: nat): seq<byte> {
    if log == [] then [] else ValueAt(log[0], addr) + WritesAt(log[1..], addr)
  }

  function ValueAt(w: BusWrite, addr: nat): seq<byte> {
    if w.addr == addr then [w.value] else []
  }

  lemma {:induction false} WritesAtConcat(a: seq<BusWrite>, b: seq<BusWrite>, addr: nat)
    ensures WritesAt(a + b, addr) == WritesAt(a, addr) + WritesAt(b, addr)
  {
    if a == [] {
      assert a + b == b;
    } else {
      assert (a + b)[0] == a[0] && (a + b)[1..] == a[1..] + b;
      WritesAtConcat(a[1..], b, addr);
      Assoc(ValueAt(a[0], addr), WritesAt(a[1..], addr), WritesAt(b, addr));
    }
  }

  lemma WritesAtPair(v: BusWrite, w: BusWrite, addr: nat)
    ensures WritesAt([v, w], addr) == ValueAt(v, addr) + ValueAt(w, addr)
  {
    assert [v, w][1..] == [w] && [w][1..] == [];
    assert WritesAt([w], addr) == ValueAt(w, addr) + [];
  }

  /** What a bus log holds besides the writes to one address. */
  function Except(log: seq<BusWrite>, addr: nat): seq<BusWrite> {
    if log == [] then [] else (if log[0].addr == addr then [] else [log[0]]) + Except(log[1..], addr)
  }

  lemma {:induction false} ExceptConcat(a: seq<BusWrite>, b: seq<BusWrite>, addr: nat)
    ensures Except(a + b, addr) == Except(a, addr) + Except(b, addr)
  {
    if a == [] {
      assert a + b == b;
    } else {
      assert (a + b)[0] == a[0] && (a + b)[1..] == a[1..] + b;
      ExceptConcat(a[1..], b, addr);
      Assoc(if a[0].addr == addr then [] else [a[0]], Except(a[1..], addr), Except(b, addr));
    }
  }

  /** Writes that leave the address alone. */
  lemma {:induction false} ExceptNone(log: seq<BusWrite>, addr: nat)
    requires forall i :: 0 <= i < |log| ==> log[i].addr != addr
    ensures Except(log, addr) == log && WritesAt(log, addr) == []
  {
    if log == [] {
    } else {
      ExceptNone(log[1..], addr);
      assert log == [log[0]] + log[1..];
    }
  }

  lemma {:induction false} WritesAtExcept(log: seq<BusWrite>, addr: nat, other: nat)
    requires addr != other
    ensures WritesAt(Except(log, other), addr) == WritesAt(log, addr)
  {
    if log == [] {
    } else {
      WritesAtExcept(log[1..], addr, other);
      var first: seq<BusWrite> := if log[0].addr == other then [] else [log[0]];
      WritesAtConcat(first, Except(log[1..], other), addr);
      WritesAtFirst(log[0], addr, other);
    }
  }

  lemma WritesAtFirst(w: BusWrite, addr: nat, other: nat)
    requires addr != other
    ensures WritesAt(if w.addr == other then [] else [w], addr) == ValueAt(w, addr)
  {
    assert [w][1..] == [];
    assert ValueAt(w, addr) + [] == ValueAt(w, addr);
  }

  /** The bytes a bus log has written to the data register of channel `chl`, in order. */
  function DataWrites(log: seq<BusWrite>, chl: byte): seq<byte> {
    WritesAt(log, DataReg(chl))
  }

  /** The data registers start at 0x2004, 0x100 apart. */
  lemma DataWritesAddress(log: seq<BusWrite>, chl: byte)
    ensures DataWrites(log, chl) == WritesAt(log, 0x2004 + 0x100 * chl)
  {
    assert DataReg(chl) == 0x2004 + 0x100 * chl;
  }

  /** Sending on a channel writes the data to one register, 0x100 apart from the next channel's. */
  lemma {:induction false} WritesOfSend(to: byte, data: seq<byte>, addr: nat)
    ensures WritesAt(SendWrites(to, data), addr) == if addr == 0x2004 + 0x100 * to then data else []
  {
    if data == [] {
    } else {
      var w := SendWrites(to, data);
      assert w[1..] == SendWrites(to, data[1..]);
      WritesOfSend(to, data[1..], addr);
      assert w[0] == BusWrite(DataReg(to), data[0]);
      assert [data[0]] + data[1..] == data;
    }
  }

  /** Sending on one channel writes the data of that channel and of no other. */
  lemma DataWritesOfSend(to: byte, data: seq<byte>, chl: byte)
    ensures DataWrites(SendWrites(to, data), chl) == if chl == to then data else []
  {
    WritesOfSend(to, data, DataReg(chl));
  }

  function Min(a: nat, b: nat): nat {
    if a < b then a else b
  }

  /** An address of the UARTs is one register of one channel. */
  lemma RegisterAt(addr: nat, c: nat, off: nat)
    requires UART1_BASE <= addr < AddrBase(UART_FSMC_NUM)
    requires c == (addr - UART1_BASE) / BASE_INTERVAL && off == (addr - UART1_BASE) % BASE_INTERVAL
    ensures c < UART_FSMC_NUM
    ensures forall d: byte :: addr == DataReg(d) <==> d == c && off == 4
    ensures forall d: byte :: addr == AddrBase(d) + 6 <==> d == c && off == 6
    ensures forall d: byte :: addr == AddrBase(d) + 7 <==> d == c && off == 7
  {
    assert addr == UART1_BASE + BASE_INTERVAL * c + off && off < BASE_INTERVAL;
  }

  /**
   The bus with 16 UART channels. Each channel has a queue of received bytes, an 8-bit
   register telling how many of them can be read now, and a counter of sent bytes that wraps
   at 256. What the UARTs keep of the received bytes when they are reset is not known: `left` is
   what the next reset leaves in the queues, and the counters may then stand anywhere.
   */
  class FsmcBus {
    var log: seq<BusWrite>
    var rx: seq<seq<byte>>
    var sentCount: seq<byte>
    var left: Queues

    ghost predicate Valid()
      reads this
    {
      |rx| == |sentCount| == UART_FSMC_NUM
    }

    ghost function View(): BusState
      reads this
    {
      BusState(log, rx)
    }

    constructor ()
      ensures Valid()
      ensures log == [] && rx == seq(UART_FSMC_NUM, _ => [])
    {
      log := [];
      rx := seq(UART_FSMC_NUM, _ => []);
      sentCount := seq(UART_FSMC_NUM, _ => 0);
      left := seq(UART_FSMC_NUM, _ => []);
    }

    method WriteFSMC(addr: nat, val: byte)
      requires Valid()
      modifies this`log, this`rx, this`sentCount
      ensures Valid()
      ensures View() == After(old(View()), left, [BusWrite(addr, val)])
      ensures forall c: byte :: c < UART_FSMC_NUM && addr != RESET_ADDR ==>
                sentCount[c] == (old(sentCount)[c] as int + if addr == DataReg(c) then 1 else 0) % 256
    {
      log := log + [BusWrite(addr, val)];
      if UART1_BASE <= addr < AddrBase(UART_FSMC_NUM) {
        var c, off := (addr - UART1_BASE) / BASE_INTERVAL, (addr - UART1_BASE) % BASE_INTERVAL;
        RegisterAt(addr, c, off);
        if off == 4 {
          sentCount := sentCount[c := (sentCount[c] as int + 1) % 256];
        }
      } else if addr == RESET_ADDR && val == 0 {
        var counters: seq<byte> := *;
        rx := left;
        sentCount := if |counters| == UART_FSMC_NUM then counters else sentCount;
      }
    }

    /** Registers that are not modelled read as zero. */
    method ReadFSMC(addr: nat) returns (val: byte)
      requires Valid()
      modifies this`rx
      ensures Valid()
      ensures forall c: byte :: c < UART_FSMC_NUM && addr == AddrBase(c) + 6 ==> val == sentCount[c]
      ensures forall c: byte :: c < UART_FSMC_NUM && addr == AddrBase(c) + 7 ==> val == Min(|rx[c]|, 255)
      ensures forall c: byte :: c < UART_FSMC_NUM && addr == DataReg(c) && old(rx[c]) != [] ==>
                val == old(rx[c])[0]
                && rx == old(rx)[c := old(rx[c])[1..]]
      ensures (forall c: byte :: c < UART_FSMC_NUM ==> addr != DataReg(c)) ==> rx == old(rx)
    {
      val := 0;
      if UART1_BASE <= addr < AddrBase(UART_FSMC_NUM) {
        var c, off := (addr - UART1_BASE) / BASE_INTERVAL, (addr - UART1_BASE) % BASE_INTERVAL;
        RegisterAt(addr, c, off);
        assert off == 4 ==> addr == DataReg(c);
        if off == 4 && rx[c] != [] {
          val := rx[c][0];
          rx := rx[c := rx[c][1..]];
        } else if off == 6 {
          val := sentCount[c];
        } else if off == 7 {
          val := Min(|rx[c]|, 255);
        }
      }
    }
  }

  /** Reset pulse of all UARTs. */
  function ResetWrites(): seq<BusWrite> {
    [BusWrite(RESET_ADDR, 0), BusWrite(RESET_ADDR, 1)]
  }

  method ResetUartFsmc(bus: FsmcBus)
    requires bus.Valid()
    modifies bus`log, bus`rx, bus`sentCount
    ensures bus.Valid()
    ensures bus.View() == After(old(bus.View()), bus.left, ResetWrites())
    ensures bus.log == old(bus.log) + [BusWrite(0, 0), BusWrite(0, 1)]
  {
    AfterBoth(bus.View(), bus.left, [BusWrite(RESET_ADDR, 0)], [BusWrite(RESET_ADDR, 1)]);
    bus.WriteFSMC(RESET_ADDR, 0);
    bus.WriteFSMC(RESET_ADDR, 1);
  }

  /** Advance of the wrapping counter, as the firmware computes it in 8 bits. */
  function CounterGain(pre: byte, post: byte): byte {
    if post > pre then post - pre else (256 + post - pre) % 256
  }

  lemma CounterGainIsSize(pre: byte, size: byte)
    ensures CounterGain(pre, (pre as int + size) % 256) == size
  {
  }

  lemma SentOneMore(b: BusState, left: Queues, chl: byte, data: seq<byte>, i: nat)
    requires i < |data|
    ensures After(After(b, left, SendWrites(chl, data[..i])), left, [BusWrite(DataReg(chl), data[i])])
            == After(b, left, SendWrites(chl, data[..i + 1]))
  {
    SendWritesNext(chl, data, i);
    AfterBoth(b, left, SendWrites(chl, data[..i]), [BusWrite(DataReg(chl), data[i])]);
  }

  /** The write loop of a send. */
  method PutBytes(bus: FsmcBus, chl: byte, buff: array<byte>, off: nat, size: byte)
    requires bus.Valid() && chl < UART_FSMC_NUM
    requires off + size <= buff.Length
    modifies bus`log, bus`rx, bus`sentCount
    ensures bus.Valid()
    ensures bus.View() == After(old(bus.View()), bus.left, SendWrites(chl, buff[off..off + size]))
    ensures bus.sentCount[chl] == (old(bus.sentCount)[chl] as int + size) % 256
  {
    ghost var data := buff[off..off + size];
    var i: nat := 0;
    AfterNothing(bus.View(), bus.left);
    while i < size
      invariant i <= size && bus.Valid()
      invariant bus.View() == After(old(bus.View()), bus.left, SendWrites(chl, data[..i]))
      invariant bus.sentCount[chl] == (old(bus.sentCount)[chl] + i) % 256
    {
      SentOneMore(old(bus.View()), bus.left, chl, data, i);
      bus.WriteFSMC(AddrBase(chl) + 4, buff[off + i]);
      i := i + 1;
    }
    assert data[..size] == data;
  }

  method ReadSentCount(bus: FsmcBus, chl: byte) returns (count: byte)
    requires bus.Valid()
    modifies bus`rx
    ensures bus.Valid() && bus.rx == old(bus.rx)
    ensures chl < UART_FSMC_NUM ==> count == bus.sentCount[chl]
  {
    count := bus.ReadFSMC(AddrBase(chl) + 6);
  }

  /**
   Sends `size` bytes of `buff` from `off` on. The device counter, read before and after, gives
   back the number of bytes sent although it wraps at 256.
   */
  method SendDataUartFsmc(bus: FsmcBus, chl: byte, buff: array<byte>, off: nat, size: byte) returns (n: byte)
    requires bus.Valid()
    requires off + size <= buff.Length
    modifies bus`log, bus`rx, bus`sentCount
    ensures bus.Valid()
    ensures bus.View() == After(old(bus.View()), bus.left,
                                if chl < UART_FSMC_NUM then SendWrites(chl, buff[off..off + size]) else [])
    ensures bus.rx == old(bus.rx)
    ensures n == if chl < UART_FSMC_NUM then size else 0
  {
    ghost var before := bus.View();
    var preSize := ReadSentCount(bus, chl);
    if chl < UART_FSMC_NUM && size > 0 {
      PutBytes(bus, chl, buff, off, size);
      SendHoldsNoReset(chl, buff[off..off + size]);
      var postSize := ReadSentCount(bus, chl);
      CounterGainIsSize(preSize, size);
      return CounterGain(preSize, postSize);
    }
    AfterNothing(before, bus.left);
    return 0;
  }

  /** How many bytes a receive call with limit `max` moves out of a queue. */
  function Receivable(queue: seq<byte>, max: byte): byte {
    Min(max, Min(|queue|, 255))
  }

  /** Moves up to `max` pending bytes of a channel into `buff` from `off` on. */
  method ReceiveDataUartFsmc(bus: FsmcBus, chl: byte, buff: array<byte>, off: nat, max: byte) returns (n: byte)
    requires bus.Valid()
    requires off + max <= buff.Length
    modifies bus`rx, buff
    ensures bus.Valid()
    ensures n == if chl < UART_FSMC_NUM then Receivable(old(bus.rx)[chl], max) else 0
    ensures chl < UART_FSMC_NUM ==>
              && buff[off..off + n] == old(bus.rx)[chl][..n]
              && bus.rx == old(bus.rx)[chl := old(bus.rx)[chl][n..]]
    ensures chl >= UART_FSMC_NUM ==> bus.rx == old(bus.rx)
    ensures buff[..off] == old(buff[..off]) && buff[off + n..] == old(buff[off + n..])
  {
    var addrBase := AddrBase(chl);
    if chl < UART_FSMC_NUM && max > 0 {
      ghost var queue := bus.rx[chl];
      ghost var rx0 := bus.rx;
      var preSize := bus.ReadFSMC(addrBase + 7);
      var i: nat := 0;
      while i < max && i < preSize
        invariant i <= max && i <= preSize && bus.Valid()
        invariant bus.rx == rx0[chl := queue[i..]]
        invariant forall k :: 0 <= k < off || off + i <= k < buff.Length ==> buff[k] == old(buff[k])
        invariant forall k :: 0 <= k < i ==> buff[off + k] == queue[k]
      {
        var b := bus.ReadFSMC(addrBase + 4);
        assert queue[i..][1..] == queue[i + 1..];
        buff[off + i] := b;
        i := i + 1;
      }
      return i;
    }
    return 0;
  }
}
