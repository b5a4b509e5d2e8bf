/** The running firmware: its parts wired together, its interrupt handlers and its main loop. */
module Firmware {
  import opened Bytes
  import opened FrameStream
  import opened UartFsmc
  import opened Delivery
  import opened MsgInterface
  import opened Console
  import opened Timer
  import opened ProtocolLayer
  import opened EventLoop
  import opened DeviceTheorems
  import Config
  import UdpInterface

  // ----- a schedule of events, and how far it has been worked off

  /** From device d0 on, the events from i up to n lead to d. */
  ghost predicate Reaches(d0: Device, es: seq<Event>, i: nat, d: Device, n: nat)
    requires Shaped(d0)
  {
    i <= n <= |es| && d == Steps(d0, es[i..n])
  }

  lemma ReachesSelf(d: Device, es: seq<Event>, i: nat)
    requires Shaped(d) && i <= |es|
    ensures Reaches(d, es, i, d, i)
  {
    assert es[i..i] == [];
  }

  lemma ReachesOne(d: Device, es: seq<Event>, n: nat)
    requires Shaped(d) && n < |es|
    ensures Reaches(d, es, n, Step(d, es[n]), n + 1)
  {
    ReachesSelf(d, es, n);
    ReachesNext(d, es, n, d, n);
  }

  lemma ReachesNext(d0: Device, es: seq<Event>, i: nat, d: Device, n: nat)
    requires Shaped(d0) && Reaches(d0, es, i, d, n) && n < |es|
    ensures Reaches(d0, es, i, Step(d, es[n]), n + 1)
  {
    assert es[i..n + 1] == es[i..n] + [es[n]];
    StepsSnoc(d0, es[i..n], es[n]);
  }

  lemma ReachesOn(d0: Device, es: seq<Event>, i: nat, d: Device, n: nat, d': Device, k: nat)
    requires Shaped(d0) && Reaches(d0, es, i, d, n) && Reaches(d, es, n, d', k)
    ensures Reaches(d0, es, i, d', k)
  {
    assert es[i..k] == es[i..n] + es[n..k];
    StepsConcat(d0, es[i..n], es[n..k]);
  }

  class Board {
    const ring: MsgRing
    const console: ConsoleUart
    const timer: TickTimer
    const layer: Layer
    const recvbuf: array<byte>
    var linkStatus: bool
    /** What is left of the handler the main loop is in: a name for the place the code has reached. */
    ghost var job: seq<Action>

    ghost predicate Valid()
      reads this, ring, ring.list, console, console.cmds, timer, layer, layer.buff, layer.report, layer.bus
    {
      && ring.Valid() && console.Valid() && timer.Valid() && layer.Valid()
      && console.ring == ring && timer.ring == ring
      && recvbuf.Length == UdpInterface.UDP_RX_BUFSIZE
      && recvbuf != layer.buff && recvbuf != layer.report && recvbuf != console.buf
      && console.buf != layer.buff && console.buf != layer.report
    }

    ghost function View(): (d: Device)
      requires Valid()
      reads this, ring, ring.list, console, console.buf, console.cmds, timer, layer, layer.buff, layer.report, layer.bus
      ensures Shaped(d)
    {
      Device(ring.Pending(), job, console.State(), timer.timerCnt, timer.cycle, linkStatus, layer.Receiver(),
             layer.bus.log, Uplink(layer.bus.rx, layer.sent), layer.report != null)
    }

    /** The objects the board is made of. */
    ghost function Parts(): set<object>
      reads layer
    {
      {ring, ring.list, console, console.buf, console.cmds, timer, recvbuf, layer, layer.buff, layer.bus}
      + if layer.report != null then {layer.report} else {}
    }

    constructor (console: ConsoleUart, timer: TickTimer, layer: Layer, recvbuf: array<byte>)
      requires console.ring.Valid() && console.Valid() && timer.Valid() && layer.Valid()
      requires timer.ring == console.ring
      requires recvbuf.Length == UdpInterface.UDP_RX_BUFSIZE
      requires recvbuf != layer.buff && recvbuf != layer.report && recvbuf != console.buf
      requires console.buf != layer.buff && console.buf != layer.report
      ensures Valid() && linkStatus && job == []
      ensures this.ring == console.ring && this.console == console && this.timer == timer
      ensures this.layer == layer && this.recvbuf == recvbuf
    {
      this.ring, this.console, this.timer, this.layer := console.ring, console, timer, layer;
      this.recvbuf := recvbuf;
      linkStatus := true;
      job := [];
    }

    // ----- interrupts, and the world outside

    /** Bytes come in on a UART; this is the world outside, not the firmware. */
    method OnArrival(chl: byte, data: seq<byte>)
      requires Valid()
      modifies layer.bus`rx
      ensures Valid() && View() == Step(old(View()), UartArrival(chl, data))
    {
      NothingHeard(View(), UartArrival(chl, data));
      if chl < UART_FSMC_NUM {
        layer.bus.rx := layer.bus.rx[chl := layer.bus.rx[chl] + data];
      }
    }

    /** TIM3 interrupt. */
    method OnTimer()
      requires Valid()
      modifies timer, ring`iPush, ring`n, ring.list
      ensures Valid() && View() == Step(old(View()), TimerTick)
    {
      NothingHeard(View(), TimerTick);
      timer.TimerProcess();
    }

    /** USART3 interrupt. */
    method OnConsoleByte(b: byte)
      requires Valid()
      modifies console, console.buf, console.cmds, ring`iPush, ring`n, ring.list
      ensures Valid() && View() == Step(old(View()), ConsoleByte(b))
    {
      NothingHeard(View(), ConsoleByte(b));
      console.OnReceived(b);
    }

    /** EXTI8 interrupt, as far as the message is concerned. */
    method OnButton()
      requires Valid()
      modifies ring`iPush, ring`n, ring.list
      ensures Valid() && View() == Step(old(View()), Button)
    {
      NothingHeard(View(), Button);
      var status := ring.PublishMsg(MSG_CONFIG_APPLY, 0);
    }

    /** A UDP datagram from the peer; `left` is what a reset it asks for would leave in the UARTs. */
    method OnDatagram(chain: seq<seq<byte>>, left: Queues)
      requires Valid()
      modifies recvbuf, layer, layer.buff, layer.bus
      ensures Valid() && View() == Step(old(View()), Datagram(chain, left))
    {
      ghost var d := View();
      layer.bus.left := left;
      var len := UdpInterface.UdpRecv(layer, recvbuf, chain, true);
      DatagramHeard(d, chain, left, layer.Receiver(), layer.bus.View());
    }

    /** Anything that happens besides the main loop. */
    method Interrupt(e: Event)
      requires Valid() && !e.Main?
      modifies Parts()
      ensures Valid() && View() == Step(old(View()), e)
    {
      match e
      case TimerTick => OnTimer();
      case ConsoleByte(b) => OnConsoleByte(b);
      case Datagram(chain, left) => OnDatagram(chain, left);
      case UartArrival(chl, data) => OnArrival(chl, data);
      case Button => OnButton();
    }

    /** What comes before the main loop gets to its next piece of work, if it does (`on`) before the run ends. */
    method Interrupts(es: seq<Event>, i: nat) returns (n: nat, on: bool)
      requires Valid() && i <= |es|
      modifies Parts()
      ensures Valid() && Reaches(old(View()), es, i, View(), n)
      ensures on <==> n < |es|
      ensures on ==> es[n].Main?
    {
      n := i;
      ReachesSelf(View(), es, i);
      while n < |es| && !es[n].Main?
        invariant Valid() && Reaches(old(View()), es, i, View(), n)
      {
        ReachesNext(old(View()), es, i, View(), n);
        Interrupt(es[n]);
        n := n + 1;
      }
      on := n < |es|;
    }

    // ----- the main loop; interrupts come between any two pieces of its work

    /** One turn of the main loop, from where the schedule stands: a message and its handler. */
    method ProcessMsg(es: seq<Event>, i: nat) returns (n: nat, on: bool)
      requires Valid() && job == [] && i <= |es|
      modifies this`linkStatus, this`job, Parts()
      ensures Valid() && Reaches(old(View()), es, i, View(), n)
      ensures if on then job == [] && n > i else n == |es|
    {
      n, on := Interrupts(es, i);
      if on {
        ghost var d, j := View(), n;
        var status, msg, para := TakeMsg(es, n);
        n := n + 1;
        ReachesOn(old(View()), es, i, d, j, View(), n);
        if status == 0 {
          d, j := View(), n;
          n, on := Handle(msg, para, es, n);
          ReachesOn(old(View()), es, i, d, j, View(), n);
        }
      }
    }

    /** `getNextMsg`; the message decides what there is to do. */
    method TakeMsg(ghost es: seq<Event>, ghost n: nat) returns (status: int, msg: int, para: int)
      requires n < |es| && es[n].Main? && Valid() && job == []
      modifies this`job, ring`iPull, ring`n
      ensures Valid() && Reaches(old(View()), es, n, View(), n + 1)
      ensures job == if status == 0 then Script(Msg(msg, para)) else []
    {
      ghost var d := View();
      ReachesOne(d, es, n);
      NothingHeard(d, es[n]);
      status, msg, para := ring.GetNextMsg();
      if status == 0 {
        assert d.ring[0] == Msg(msg, para) && d.ring[1..] == ring.Pending();
        job := Script(Msg(msg, para));
      }
    }

    /** The switch over the message. */
    method Handle(msg: int, para: int, es: seq<Event>, i: nat) returns (n: nat, on: bool)
      requires Valid() && job == Script(Msg(msg, para)) && i <= |es|
      modifies this`linkStatus, this`job, Parts()
      ensures Valid() && Reaches(old(View()), es, i, View(), n)
      ensures if on then job == [] else n == |es|
    {
      if msg == MSG_CONSOLE_COMMAND {
        n, on := OnConsoleCommand(es, i);
      } else if msg == MSG_WORKTICK {
        n, on := OnWorkTick(para, es, i);
      } else if msg == MSG_CONFIG_APPLY || msg == MSG_LINK_DOWN {
        n, on := PulseLine(es, i);
      } else {
        ReachesSelf(View(), es, i);
        n, on := i, true;
      }
    }

    method OnConsoleCommand(es: seq<Event>, i: nat) returns (n: nat, on: bool)
      requires Valid() && |job| == 1 && job[0] == FetchCommand && i <= |es|
      modifies this`job, Parts()
      ensures Valid() && Reaches(old(View()), es, i, View(), n)
      ensures if on then job == [] else n == |es|
    {
      n, on := Interrupts(es, i);
      if on {
        ghost var d, j := View(), n;
        TakeCommand(es, n);
        n := n + 1;
        ReachesOn(old(View()), es, i, d, j, View(), n);
      }
    }

    method TakeCommand(ghost es: seq<Event>, ghost n: nat)
      requires n < |es| && es[n].Main? && Valid() && job != [] && job[0] == FetchCommand
      modifies this`job, console
      ensures Valid() && Reaches(old(View()), es, n, View(), n + 1) && job == old(job)[1..]
    {
      ReachesOne(View(), es, n);
      NextPiece(View(), es[n].linkDown);
      job := job[1..];
      GetOne();
    }

    method GetOne()
      requires Valid()
      modifies console
      ensures Valid()
      ensures var d := old(View()); View() == d.(console := Pop(d.console))
    {
      var num := console.GetCommandNum();
      if num > 0 {
        var found, text := console.GetCommand();
      }
    }

    /** A work tick polls two channels, or looks at the link, or neither. */
    method OnWorkTick(para: int, es: seq<Event>, i: nat) returns (n: nat, on: bool)
      requires Valid() && job == Script(Msg(MSG_WORKTICK, para)) && i <= |es|
      modifies this`linkStatus, this`job, Parts()
      ensures Valid() && Reaches(old(View()), es, i, View(), n)
      ensures if on then job == [] else n == |es|
    {
      if 0 <= para < 8 {
        n, on := CheckUartFsmc(para * 2, es, i);
        if on {
          ghost var d, j := View(), n;
          n, on := CheckUartFsmc(para * 2 + 1, es, n);
          ReachesOn(old(View()), es, i, d, j, View(), n);
        }
      } else if para == 9 {
        n, on := LookAtLink(es, i);
      } else {
        ReachesSelf(View(), es, i);
        n, on := i, true;
      }
    }

    /** Polls one channel. */
    method CheckUartFsmc(chl: byte, es: seq<Event>, i: nat) returns (n: nat, on: bool)
      requires Valid() && job != [] && job[0] == PollChannel(chl) && i <= |es|
      modifies this`job, Parts()
      ensures Valid() && Reaches(old(View()), es, i, View(), n)
      ensures if on then job == old(job)[1..] else n == |es|
    {
      n, on := Interrupts(es, i);
      if on {
        ghost var d, j := View(), n;
        PollNow(chl, es, n);
        n := n + 1;
        ReachesOn(old(View()), es, i, d, j, View(), n);
      }
    }

    method PollNow(chl: byte, ghost es: seq<Event>, ghost n: nat)
      requires n < |es| && es[n].Main? && Valid() && job != [] && job[0] == PollChannel(chl)
      modifies this`job, layer`sent, layer.report, layer.bus`rx
      ensures Valid() && Reaches(old(View()), es, n, View(), n + 1) && job == old(job)[1..]
    {
      ReachesOne(View(), es, n);
      NextPiece(View(), es[n].linkDown);
      job := job[1..];
      PollOne(chl);
    }

    /** Without a report buffer nothing happens. */
    method PollOne(chl: byte)
      requires Valid()
      modifies layer`sent, layer.report, layer.bus`rx
      ensures Valid()
      ensures var d := old(View());
              View() == d.(uplink := if chl < UART_FSMC_NUM && d.reports then Poll(d.uplink, chl) else d.uplink)
    {
      var size := layer.CheckUartFsmc(chl);
    }

    /** Tracks the Ethernet link; a loss is noted first and announced next. */
    method LookAtLink(es: seq<Event>, i: nat) returns (n: nat, on: bool)
      requires Valid() && job == [CheckLink] && i <= |es|
      modifies this`linkStatus, this`job, Parts()
      ensures Valid() && Reaches(old(View()), es, i, View(), n)
      ensures if on then job == [] else n == |es|
    {
      n, on := Interrupts(es, i);
      if on {
        ghost var d, j := View(), n;
        var lost := TrackLink(es, n);
        n := n + 1;
        ReachesOn(old(View()), es, i, d, j, View(), n);
        if lost {
          d, j := View(), n;
          n, on := PublishLoss(es, n);
          ReachesOn(old(View()), es, i, d, j, View(), n);
        }
      }
    }

    method TrackLink(es: seq<Event>, n: nat) returns (lost: bool)
      requires n < |es| && es[n].Main? && Valid() && job == [CheckLink]
      modifies this`linkStatus, this`job
      ensures Valid() && Reaches(old(View()), es, n, View(), n + 1)
      ensures job == if lost then [AnnounceLoss] else []
    {
      ReachesOne(View(), es, n);
      LinkPiece(View(), es[n].linkDown);
      lost := NoteLink(es[n].linkDown);
    }

    method NoteLink(linkDown: bool) returns (lost: bool)
      requires Valid()
      modifies this`linkStatus, this`job
      ensures Valid() && lost == (linkDown && old(linkStatus))
      ensures job == if lost then [AnnounceLoss] else []
      ensures View() == old(View()).(link := !linkDown, job := job)
    {
      lost := false;
      if linkDown {
        if linkStatus {
          linkStatus := false;
          lost := true;
        }
      } else {
        linkStatus := true;
      }
      job := if lost then [AnnounceLoss] else [];
    }

    /** Publishes the loss; the ring may refuse it. */
    method PublishLoss(es: seq<Event>, i: nat) returns (n: nat, on: bool)
      requires Valid() && |job| == 1 && job[0] == AnnounceLoss && i <= |es|
      modifies this`job, Parts()
      ensures Valid() && Reaches(old(View()), es, i, View(), n)
      ensures if on then job == [] else n == |es|
    {
      n, on := Interrupts(es, i);
      if on {
        ghost var d, j := View(), n;
        PublishNow(es, n);
        n := n + 1;
        ReachesOn(old(View()), es, i, d, j, View(), n);
      }
    }

    method PublishNow(ghost es: seq<Event>, ghost n: nat)
      requires n < |es| && es[n].Main? && Valid() && job != [] && job[0] == AnnounceLoss
      modifies this`job, ring`iPush, ring`n, ring.list
      ensures Valid() && Reaches(old(View()), es, n, View(), n + 1) && job == old(job)[1..]
    {
      ReachesOne(View(), es, n);
      NextPiece(View(), es[n].linkDown);
      job := job[1..];
      var status := ring.PublishMsg(MSG_LINK_DOWN, 0);
    }

    /** The pulse that ends a configuration or link change. */
    method PulseLine(es: seq<Event>, i: nat) returns (n: nat, on: bool)
      requires Valid() && job == [Pulse(0), Pulse(1), Pulse(0)] && i <= |es|
      modifies this`job, Parts()
      ensures Valid() && Reaches(old(View()), es, i, View(), n)
      ensures if on then job == [] else n == |es|
    {
      n, on := WriteLine(0, es, i);
      if on {
        ghost var d, j := View(), n;
        n, on := WriteLine(1, es, n);
        ReachesOn(old(View()), es, i, d, j, View(), n);
      }
      if on {
        ghost var d, j := View(), n;
        n, on := WriteLine(0, es, n);
        ReachesOn(old(View()), es, i, d, j, View(), n);
      }
    }

    method WriteLine(value: byte, es: seq<Event>, i: nat) returns (n: nat, on: bool)
      requires Valid() && job != [] && job[0] == Pulse(value) && i <= |es|
      modifies this`job, Parts()
      ensures Valid() && Reaches(old(View()), es, i, View(), n)
      ensures if on then job == old(job)[1..] else n == |es|
    {
      n, on := Interrupts(es, i);
      if on {
        ghost var d, j := View(), n;
        WriteNow(value, es, n);
        n := n + 1;
        ReachesOn(old(View()), es, i, d, j, View(), n);
      }
    }

    method WriteNow(value: byte, ghost es: seq<Event>, ghost n: nat)
      requires n < |es| && es[n].Main? && Valid() && job != [] && job[0] == Pulse(value)
      modifies this`job, layer.bus`log, layer.bus`rx, layer.bus`sentCount
      ensures Valid() && Reaches(old(View()), es, n, View(), n + 1) && job == old(job)[1..]
    {
      ReachesOne(View(), es, n);
      NextPiece(View(), es[n].linkDown);
      job := job[1..];
      layer.bus.WriteFSMC(1, value);
    }
  }

  // ----- start-up

  /** Ring, console and timer as they start. */
  method InitializeMessages(queryCycle: byte) returns (console: ConsoleUart, timer: TickTimer)
    ensures fresh(console) && fresh(console.buf) && fresh(console.cmds) && fresh(timer)
    ensures fresh(console.ring) && fresh(console.ring.list) && timer.ring == console.ring
    ensures console.ring.Valid() && console.Valid() && timer.Valid()
    ensures console.ring.Pending() == [] && console.State() == START
    ensures timer.timerCnt == 0 && timer.cycle == CycleOf(queryCycle)
  {
    var ring := new MsgRing();
    console := new ConsoleUart(ring);
    timer := new TickTimer(ring, queryCycle);
  }

  /** Bus and protocol layer as they start. */
  method InitializeLayer(heapOk: bool) returns (layer: Layer)
    ensures fresh(layer) && fresh(layer.buff) && fresh(layer.bus) && (layer.report != null ==> fresh(layer.report))
    ensures layer.Valid() && layer.Receiver() == Hunt && layer.sent == []
    ensures layer.bus.log == [] && layer.bus.rx == Booted(0, heapOk).uplink.rx && (layer.report != null <==> heapOk)
  {
    var bus := new FsmcBus();
    layer := new Layer(bus, heapOk);
  }

  /** Every part in its initial state, wired together. */
  method WireUp(queryCycle: byte, heapOk: bool) returns (board: Board)
    ensures fresh(board) && fresh(board.Parts()) && board.Valid()
    ensures board.View() == Booted(queryCycle, heapOk)
  {
    var recvbuf := new byte[UdpInterface.UDP_RX_BUFSIZE](_ => 0);
    var console, timer := InitializeMessages(queryCycle);
    var layer := InitializeLayer(heapOk);
    board := new Board(console, timer, layer, recvbuf);
  }

  /** Start-up: the configuration in flash, or the default, decides the period of the work ticks. */
  method Initialize(store: Config.ConfigStore, heapOk: bool) returns (board: Board)
    modifies store, store.flash
    ensures fresh(board) && fresh(board.Parts()) && board.Valid()
    ensures board.View() == Booted(Config.BootCycle(old(store.flash.mem)), heapOk)
    ensures store.cfg.queryCycle == Config.BootCycle(old(store.flash.mem))
  {
    var outcome := store.PrepareConfig();
    board := WireUp(store.cfg.queryCycle, heapOk);
  }

  /**
   The firmware from power-on on, through any interleaving of interrupts, arriving data and pieces of
   main loop work: the objects follow the state machine, so what they did to each UART is what its
   theorems say.
   */
  method Operate(store: Config.ConfigStore, heapOk: bool, es: seq<Event>) returns (board: Board)
    modifies store, store.flash
    ensures fresh(board) && board.Valid()
    ensures var q := Config.BootCycle(old(store.flash.mem));
            && board.View() == WorldAfter(q, heapOk, es).now
            && (Intact(WorldAfter(q, heapOk, es)) ==>
                  forall c: byte :: c < UART_FSMC_NUM ==>
                    DataWrites(board.layer.bus.log, c) == Payloads(Parse(WorldAfter(q, heapOk, es).heard).frames, c))
  {
    ghost var q := Config.BootCycle(store.flash.mem);
    board := Initialize(store, heapOk);
    MainLoop(board, es);
    BootedReaches(q, heapOk, es, board.View());
    assert board.layer.bus.log == board.View().log;
  }

  /** `while(1)`, for as long as there are events. */
  method MainLoop(board: Board, es: seq<Event>)
    requires board.Valid() && board.job == []
    modifies board, board.Parts()
    ensures board.Valid() && Reaches(old(board.View()), es, 0, board.View(), |es|)
  {
    var n, on := 0, true;
    ReachesSelf(board.View(), es, 0);
    while on
      invariant board.Valid() && Reaches(old(board.View()), es, 0, board.View(), n)
      invariant if on then board.job == [] else n == |es|
      decreases |es| - n, on
    {
      ghost var d, j := board.View(), n;
      n, on := board.ProcessMsg(es, n);
      ReachesOn(old(board.View()), es, 0, d, j, board.View(), n);
    }
  }

  lemma BootedReaches(q: byte, heapOk: bool, es: seq<Event>, d: Device)
    requires Reaches(Booted(q, heapOk), es, 0, d, |es|)
    ensures d == WorldAfter(q, heapOk, es).now
    ensures Intact(WorldAfter(q, heapOk, es)) ==>
              forall c: byte :: c < UART_FSMC_NUM ==>
                DataWrites(d.log, c) == Payloads(Parse(WorldAfter(q, heapOk, es).heard).frames, c)
  {
    assert es[0..|es|] == es;
    RunIsSteps(Genesis(q, heapOk), es);
    if Intact(WorldAfter(q, heapOk, es)) {
      DownstreamAll(q, heapOk, es);
    }
  }

  // ----- steps written out

  /** A step inside a handler. */
  lemma NextPiece(d: Device, linkDown: bool)
    requires Shaped(d) && d.job != []
    ensures var d1 := d.(job := d.job[1..]);
            Step(d, Main(linkDown)) ==
            match d.job[0]
            case FetchCommand => d1.(console := Pop(d.console))
            case PollChannel(chl) => d1.(uplink := if chl < UART_FSMC_NUM && d.reports then Poll(d.uplink, chl) else d.uplink)
            case CheckLink => d1.(link := !linkDown, job := (if linkDown && d.link then [AnnounceLoss] else []) + d.job[1..])
            case AnnounceLoss => d1.(ring := Enqueue(d.ring, Msg(MSG_LINK_DOWN, 0)))
            case Pulse(value) => d1.(log := d.log + [BusWrite(1, value)])
  {
    NothingHeard(d, Main(linkDown));
    assert [] + d.job[1..] == d.job[1..];
    assert d.ring[0..] == d.ring;
    assert d.log + [] == d.log;
  }

  lemma LinkPiece(d: Device, linkDown: bool)
    requires Shaped(d) && d.job == [CheckLink]
    ensures Step(d, Main(linkDown)) ==
            d.(link := !linkDown, job := if linkDown && d.link then [AnnounceLoss] else [])
  {
    NextPiece(d, linkDown);
    assert [AnnounceLoss] + d.job[1..] == [AnnounceLoss] && [] + d.job[1..] == [];
  }

  /** A step that brings a datagram. */
  lemma DatagramHeard(d: Device, chain: seq<seq<byte>>, left: Queues, r: Receiver, b: BusState)
    requires Shaped(d)
    requires Fed(d.receiver, BusState(d.log, d.uplink.rx), left, Flatten(UdpInterface.Calls(chain)), r, b)
    ensures Step(d, Datagram(chain, left)) == d.(receiver := r, log := b.log, uplink := d.uplink.(rx := b.rx))
  {
    assert d.ring[0..] == d.ring;
    assert b.log + [] == b.log;
  }

  /** Steps that bring no datagram leave the receiver alone, and the bus log but for a pulse. */
  lemma NothingHeard(d: Device, e: Event)
    requires !e.Datagram?
    ensures Feed(d.receiver, Heard(e)) == Result(d.receiver, [])
    ensures NextLog(d, e) == d.log + PulseWrites(Doing(d, e))
  {
    assert d.log + [] == d.log;
  }
}
