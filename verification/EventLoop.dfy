/**
 The whole device as a state machine. Interrupt handlers publish messages; the main loop takes
 one, and works off what its handler has to do: fetching a command, polling a channel, looking at
 the link, publishing, writing to the bus. Each interrupt handler and each of these pieces is one
 atomic step, and anything may come between two of them.
 */
module EventLoop {
  import opened Bytes
  import opened FrameStream
  import opened UartFsmc
  import opened Delivery
  import opened Report
  import opened StreamTheorems
  import opened MsgInterface
  import opened Console
  import opened Timer
  import UdpInterface

  /**
   `Main` is the next piece of the main loop's work: taking a message if nothing is left to do,
   the next piece of the current handler otherwise. `linkDown` is what the Ethernet chip reports
   if that piece asks it. `left` is what the UARTs hold of received bytes after the reset that a
   datagram may ask for.
   */
  datatype Event =
    | TimerTick
    | ConsoleByte(b: byte)
    | Datagram(chain: seq<seq<byte>>, left: Queues)
    | UartArrival(chl: byte, data: seq<byte>)
    | Button
    | Main(linkDown: bool)

  /** The pieces handlers are made of. */
  datatype Action =
    | FetchCommand
    | PollChannel(chl: byte)
    | CheckLink
    | AnnounceLoss
    | Pulse(value: byte)

  /** UART receive queues, and the datagrams sent so far. */
  datatype Uplink = Uplink(rx: seq<seq<byte>>, sent: seq<seq<byte>>)

  /** `job` is what is left of the handler the main loop is in. */
  datatype Device = Device(
    ring: seq<Msg>,
    job: seq<Action>,
    console: ConsoleState,
    timerCnt: nat,
    cycle: nat,
    link: bool,
    receiver: Receiver,
    log: seq<BusWrite>,
    uplink: Uplink,
    reports: bool)

  predicate Shaped(d: Device) {
    d.cycle > 0 && |d.uplink.rx| == UART_FSMC_NUM
  }

  // ----- one step

  /** The channels a work tick polls. */
  function PolledBy(m: Msg): seq<byte> {
    if m.msg == MSG_WORKTICK && 0 <= m.para < 8 then [m.para * 2, m.para * 2 + 1] else []
  }

  /** What handling a message consists of. */
  function Script(m: Msg): seq<Action> {
    if m.msg == MSG_CONSOLE_COMMAND then [FetchCommand]
    else if m.msg == MSG_WORKTICK then
      if 0 <= m.para < 8 then [PollChannel(m.para * 2), PollChannel(m.para * 2 + 1)]
      else if m.para == 9 then [CheckLink]
      else []
    else if m.msg == MSG_CONFIG_APPLY || m.msg == MSG_LINK_DOWN then [Pulse(0), Pulse(1), Pulse(0)]
    else []
  }

  /** The message a step takes out of the ring. */
  function Popped(d: Device, e: Event): seq<Msg> {
    if e.Main? && d.job == [] && d.ring != [] then [d.ring[0]] else []
  }

  /** The piece of a handler a step does. */
  function Doing(d: Device, e: Event): seq<Action> {
    if e.Main? && d.job != [] then [d.job[0]] else []
  }

  /** The step finds the link lost that was up before. */
  predicate LosesLink(d: Device, e: Event) {
    Doing(d, e) == [CheckLink] && e.linkDown && d.link
  }

  function NextJob(d: Device, e: Event): seq<Action> {
    if Popped(d, e) != [] then Script(d.ring[0])
    else if Doing(d, e) != [] then (if LosesLink(d, e) then [AnnounceLoss] else []) + d.job[1..]
    else d.job
  }

  /** The message a step tries to publish. */
  function Published(d: Device, e: Event): (pub: seq<Msg>)
    requires d.cycle > 0
    ensures |pub| <= 1
  {
    match e
    case TimerTick => Tick(d.timerCnt, d.cycle)
    case ConsoleByte(b) => if Announces(d.console, b) then [Msg(MSG_CONSOLE_COMMAND, 0)] else []
    case Button => [Msg(MSG_CONFIG_APPLY, 0)]
    case Main(_) => if Doing(d, e) == [AnnounceLoss] then [Msg(MSG_LINK_DOWN, 0)] else []
    case Datagram(_, _) => []
    case UartArrival(_, _) => []
  }

  /** The ring after taking the oldest `k` messages and publishing `pub`, which may be refused. */
  function Turnover(q: seq<Msg>, k: nat, pub: seq<Msg>): seq<Msg>
    requires k <= |q| && |pub| <= 1
  {
    if pub == [] then q[k..] else Enqueue(q[k..], pub[0])
  }

  function NextRing(d: Device, e: Event): seq<Msg>
    requires d.cycle > 0
  {
    Turnover(d.ring, |Popped(d, e)|, Published(d, e))
  }

  function NextConsole(d: Device, e: Event): ConsoleState {
    if e.ConsoleByte? then OnByte(d.console, e.b)
    else if Doing(d, e) == [FetchCommand] then Pop(d.console)
    else d.console
  }

  function NextLink(d: Device, e: Event): bool {
    if Doing(d, e) == [CheckLink] then !e.linkDown else d.link
  }

  /** The handler's input a datagram amounts to. */
  function Heard(e: Event): seq<byte> {
    if e.Datagram? then Flatten(UdpInterface.Calls(e.chain)) else []
  }

  /** The bus write of a step of the pulse that ends a configuration or link change. */
  function PulseWrites(acts: seq<Action>): seq<BusWrite> {
    if |acts| == 1 && acts[0].Pulse? then [BusWrite(1, acts[0].value)] else []
  }

  /** The bus writes of the frames a step accepts. */
  function FrameLog(d: Device, e: Event): seq<BusWrite> {
    StreamWrites(Feed(d.receiver, Heard(e)).frames)
  }

  /** The step resets the UARTs. */
  predicate Resets(d: Device, e: Event) {
    e.Datagram? && HoldsReset(FrameLog(d, e))
  }

  function NextLog(d: Device, e: Event): seq<BusWrite> {
    d.log + FrameLog(d, e) + PulseWrites(Doing(d, e))
  }

  function Poll(u: Uplink, chl: byte): Uplink
    requires |u.rx| == UART_FSMC_NUM && chl < UART_FSMC_NUM
  {
    var n := Receivable(u.rx[chl], MAX_UART_DATA_SIZE);
    Uplink(u.rx[chl := u.rx[chl][n..]],
           u.sent + if n > 0 then [OnWire(ReportFrame(chl, u.rx[chl][..n]))] else [])
  }

  /** The channel a step polls, if any. */
  function Polls(acts: seq<Action>): seq<byte> {
    if |acts| == 1 && acts[0].PollChannel? then [acts[0].chl] else []
  }

  function Arrive(rx: seq<seq<byte>>, chl: byte, data: seq<byte>): seq<seq<byte>>
    requires |rx| == UART_FSMC_NUM
  {
    if chl < UART_FSMC_NUM then rx[chl := rx[chl] + data] else rx
  }

  function NextUplink(d: Device, e: Event): Uplink
    requires |d.uplink.rx| == UART_FSMC_NUM
  {
    var polls := Polls(Doing(d, e));
    if e.UartArrival? then d.uplink.(rx := Arrive(d.uplink.rx, e.chl, e.data))
    else if Resets(d, e) then d.uplink.(rx := e.left)
    else if polls != [] && polls[0] < UART_FSMC_NUM && d.reports then Poll(d.uplink, polls[0])
    else d.uplink
  }

  function Step(d: Device, e: Event): (d': Device)
    requires Shaped(d)
    ensures Shaped(d')
  {
    Device(
      NextRing(d, e),
      NextJob(d, e),
      NextConsole(d, e),
      if e.TimerTick? then NextCount(d.timerCnt, d.cycle) else d.timerCnt,
      d.cycle,
      NextLink(d, e),
      Feed(d.receiver, Heard(e)).end,
      NextLog(d, e),
      NextUplink(d, e),
      d.reports)
  }

  /** The device after the events `es`; in three parts, so that a proof about schedules need not look into a step. */
  /** The device after the events `es`; in three parts, so that a proof about schedules need not look into a step. */
  function Steps(d: Device, es: seq<Event>): (d': Device)
    requires Shaped(d)
    ensures Shaped(d')
    decreases |es|, 2
  {
    if es == [] then d else LastStep(d, es)
  }

  function LastStep(d: Device, es: seq<Event>): (d': Device)
    requires Shaped(d) && es != []
    ensures Shaped(d')
    decreases |es|, 1
  {
    StepAfter(d, es[..|es| - 1], es[|es| - 1])
  }

  function StepAfter(d: Device, es: seq<Event>, e: Event): (d': Device)
    requires Shaped(d)
    ensures Shaped(d')
    decreases |es| + 1, 0
  {
    Step(Steps(d, es), e)
  }

  lemma StepsSnoc(d: Device, es: seq<Event>, e: Event)
    requires Shaped(d)
    ensures Steps(d, es + [e]) == Step(Steps(d, es), e)
  {
    assert (es + [e])[..|es|] == es;
    assert LastStep(d, es + [e]) == StepAfter(d, es, e);
  }

  lemma {:induction false} StepsConcat(d: Device, a: seq<Event>, b: seq<Event>)
    requires Shaped(d)
    ensures Steps(d, a + b) == Steps(Steps(d, a), b)
    decreases |b|
  {
    if b == [] {
      assert a + b == a;
    } else {
      var init, last := b[..|b| - 1], b[|b| - 1];
      assert init + [last] == b;
      StepsConcat(d, a, init);
      StepsConcatSnoc(d, a, init, last);
    }
  }

  lemma StepsConcatSnoc(d: Device, a: seq<Event>, b: seq<Event>, e: Event)
    requires Shaped(d) && Steps(d, a + b) == Steps(Steps(d, a), b)
    ensures Steps(d, a + (b + [e])) == Steps(Steps(d, a), b + [e])
  {
    StepsSnoc(d, a + b, e);
    StepsSnoc(Steps(d, a), b, e);
    Assoc(a, b, [e]);
  }

  /** The device after initialisation. */
  function Booted(queryCycle: byte, reports: bool): Device {
    Device([], [], START, 0, CycleOf(queryCycle), true, Hunt, [],
           Uplink(seq(UART_FSMC_NUM, _ => []), []), reports)
  }

  // ----- runs, with their history

  /**
   A device and what happened since it booted: bytes that arrived on each UART, the same without
   those that a reset dropped and with those it left, bytes given to the protocol layer, messages
   accepted by the ring, refused by it and taken from it, the number of timer interrupts, the
   channels polled, how often the link was found lost, the bytes typed at the console while its
   receiver was not latched, the commands fetched, the number of datagrams that reset the UARTs, what
   was read at each look at the link (true for down), and how often the button was pressed.
   */
  datatype World = World(
    now: Device,
    arrived: seq<seq<byte>>,
    kept: seq<seq<byte>>,
    heard: seq<byte>,
    accepted: seq<Msg>,
    refused: seq<Msg>,
    taken: seq<Msg>,
    ticks: nat,
    polled: seq<byte>,
    losses: nat,
    typed: seq<byte>,
    fetched: seq<seq<byte>>,
    resets: nat,
    looks: seq<bool>,
    presses: nat)

  predicate WorldShaped(w: World) {
    Shaped(w.now) && |w.arrived| == |w.kept| == UART_FSMC_NUM
  }

  /** The ring has room for what the step publishes. */
  predicate Fits(d: Device, e: Event) {
    |d.ring| - |Popped(d, e)| < MSG_MAX_LEN
  }

  /** The step hears a byte at the console. */
  function Typed(d: Device, e: Event): seq<byte> {
    if e.ConsoleByte? && !OnByte(d.console, e.b).latched then [e.b] else []
  }

  /** The command a step takes over. */
  function Fetched(d: Device, e: Event): seq<seq<byte>> {
    if Doing(d, e) == [FetchCommand] && d.console.queue != [] then [d.console.queue[0]] else []
  }

  /** What a step reads off the link. */
  function Looks(d: Device, e: Event): seq<bool> {
    if Doing(d, e) == [CheckLink] then [e.linkDown] else []
  }

  /** The last n elements of s replaced by t. */
  function Replaced(s: seq<byte>, n: nat, t: seq<byte>): seq<byte> {
    (if n <= |s| then s[..|s| - n] else []) + t
  }

  /** What a reset does to the record of kept bytes: the waiting ones are replaced by those it left. */
  function KeptByReset(kept: seq<seq<byte>>, rx: seq<seq<byte>>, left: Queues): seq<seq<byte>>
    requires |kept| == |rx| == UART_FSMC_NUM
  {
    seq(UART_FSMC_NUM, c requires 0 <= c < UART_FSMC_NUM => Replaced(kept[c], |rx[c]|, left[c]))
  }

  function NextKept(w: World, e: Event): seq<seq<byte>>
    requires WorldShaped(w)
  {
    if e.UartArrival? then Arrive(w.kept, e.chl, e.data)
    else if Resets(w.now, e) then KeptByReset(w.kept, w.now.uplink.rx, e.left)
    else w.kept
  }

  function Advance(w: World, e: Event): (w': World)
    requires WorldShaped(w)
    ensures WorldShaped(w')
  {
    var pub := Published(w.now, e);
    World(
      Step(w.now, e),
      if e.UartArrival? then Arrive(w.arrived, e.chl, e.data) else w.arrived,
      NextKept(w, e),
      w.heard + Heard(e),
      if Fits(w.now, e) then w.accepted + pub else w.accepted,
      if Fits(w.now, e) then w.refused else w.refused + pub,
      w.taken + Popped(w.now, e),
      w.ticks + if e.TimerTick? then 1 else 0,
      w.polled + Polls(Doing(w.now, e)),
      w.losses + (if LosesLink(w.now, e) then 1 else 0),
      w.typed + Typed(w.now, e),
      w.fetched + Fetched(w.now, e),
      w.resets + (if Resets(w.now, e) then 1 else 0),
      w.looks + Looks(w.now, e),
      w.presses + if e.Button? then 1 else 0)
  }

  function Run(w: World, es: seq<Event>): (w': World)
    requires WorldShaped(w)
    ensures WorldShaped(w')
    decreases |es|
  {
    if es == [] then w else Advance(Run(w, es[..|es| - 1]), es[|es| - 1])
  }

  lemma {:induction false} RunIsSteps(w: World, es: seq<Event>)
    requires WorldShaped(w)
    ensures Run(w, es).now == Steps(w.now, es)
    decreases |es|
  {
    if es == [] {
    } else {
      var init, e := es[..|es| - 1], es[|es| - 1];
      assert init + [e] == es;
      RunIsSteps(w, init);
      StepsSnoc(w.now, init, e);
    }
  }

  function Genesis(queryCycle: byte, reports: bool): World {
    World(Booted(queryCycle, reports), seq(UART_FSMC_NUM, _ => []), seq(UART_FSMC_NUM, _ => []),
          [], [], [], [], 0, [], 0, [], [], 0, [], 0)
  }

  // ----- the messages of one kind

  function Only(q: seq<Msg>, code: int): seq<Msg> {
    if q == [] then [] else Match(q[0], code) + Only(q[1..], code)
  }

  function Match(m: Msg, code: int): seq<Msg> {
    if m.msg == code then [m] else []
  }

  lemma {:induction false} OnlyConcat(a: seq<Msg>, b: seq<Msg>, code: int)
    ensures Only(a + b, code) == Only(a, code) + Only(b, code)
    decreases |a|
  {
    if a == [] {
      assert a + b == b;
    } else {
      assert (a + b)[0] == a[0] && (a + b)[1..] == a[1..] + b;
      OnlyConcat(a[1..], b, code);
      Assoc(Match(a[0], code), Only(a[1..], code), Only(b, code));
    }
  }

  lemma OnlyOne(m: Msg, code: int)
    ensures Only([m], code) == if m.msg == code then [m] else []
  {
    assert [m][1..] == [];
  }

  // ----- the ring as a FIFO

  ghost predicate QueueInv(w: World) {
    w.taken + w.now.ring == w.accepted && |w.now.ring| <= MSG_MAX_LEN
  }

  lemma TurnoverSplit(q: seq<Msg>, k: nat, pub: seq<Msg>)
    requires k <= |q| && |pub| <= 1
    ensures Turnover(q, k, pub) == q[k..] + if |q| - k < MSG_MAX_LEN then pub else []
    ensures q == q[..k] + q[k..]
  {
    if pub != [] { assert pub == [pub[0]]; }
  }

  lemma PoppedIsPrefix(d: Device, e: Event)
    ensures |Popped(d, e)| <= |d.ring| && Popped(d, e) == d.ring[..|Popped(d, e)|]
  {
  }

  lemma QueueStep(w: World, e: Event)
    requires WorldShaped(w) && QueueInv(w)
    ensures QueueInv(Advance(w, e))
    ensures !Fits(w.now, e) ==> Advance(w, e).now.ring == w.now.ring
  {
    var popped, pub := Popped(w.now, e), Published(w.now, e);
    PoppedIsPrefix(w.now, e);
    TurnoverSplit(w.now.ring, |popped|, pub);
    var got := if Fits(w.now, e) then pub else [];
    var rest := w.now.ring[|popped|..];
    Assoc(w.taken, popped, rest + got);
    Assoc(popped, rest, got);
    Assoc(w.taken, w.now.ring, got);
    assert w.accepted + [] == w.accepted;
  }

  lemma TurnoverCount(q: seq<Msg>, k: nat, pub: seq<Msg>, refused: seq<Msg>, code: int)
    requires k <= |q| && |pub| <= 1
    ensures |Only(q, code)| == |Only(q[..k], code)| + |Only(q[k..], code)|
    ensures |q| - k < MSG_MAX_LEN ==> |Only(Turnover(q, k, pub), code)| == |Only(q[k..], code)| + |Only(pub, code)|
    ensures |q| - k >= MSG_MAX_LEN ==> Turnover(q, k, pub) == q[k..]
    ensures |Only(refused + pub, code)| == |Only(refused, code)| + |Only(pub, code)|
  {
    TurnoverSplit(q, k, pub);
    OnlyConcat(q[..k], q[k..], code);
    OnlyConcat(q[k..], pub, code);
    OnlyConcat(refused, pub, code);
  }

  /** What a step does to the number of messages of one kind waiting in the ring. */
  lemma RingCount(w: World, e: Event, code: int)
    requires WorldShaped(w)
    ensures var w' := Advance(w, e);
            |Only(w'.now.ring, code)| + |Only(w'.refused, code)| + |Only(Popped(w.now, e), code)|
            == |Only(w.now.ring, code)| + |Only(w.refused, code)| + |Only(Published(w.now, e), code)|
  {
    PoppedIsPrefix(w.now, e);
    TurnoverCount(w.now.ring, |Popped(w.now, e)|, Published(w.now, e), w.refused, code);
  }

  // ----- commands and their messages

  /** How often a piece of work is still to be done. */
  function Count(job: seq<Action>, a: Action): nat {
    if job == [] then 0 else (if job[0] == a then 1 else 0) + Count(job[1..], a)
  }

  lemma CountPair(a: Action, b: Action, x: Action)
    ensures Count([a, b], x) == (if a == x then 1 else 0) + (if b == x then 1 else 0)
  {
    assert [a, b][1..] == [b] && [b][1..] == [];
    assert Count([b], x) == if b == x then 1 else 0;
  }

  /** Every handler does at most one thing that concerns commands, and starts with no announcement. */
  lemma ScriptCounts(m: Msg)
    ensures Count(Script(m), FetchCommand) == if m.msg == MSG_CONSOLE_COMMAND then 1 else 0
    ensures Count(Script(m), AnnounceLoss) == 0
  {
    var s := Script(m);
    if |s| == 3 {
      CountPair(Pulse(1), Pulse(0), FetchCommand);
      CountPair(Pulse(1), Pulse(0), AnnounceLoss);
      assert s[1..] == [Pulse(1), Pulse(0)];
    } else if |s| == 2 {
      CountPair(s[0], s[1], FetchCommand);
      CountPair(s[0], s[1], AnnounceLoss);
      assert s == [s[0], s[1]];
    }
  }

  /** What a step does to the number of pieces of one kind that are left. */
  lemma JobCount(d: Device, e: Event, a: Action)
    requires a == FetchCommand || a == AnnounceLoss
    ensures Count(NextJob(d, e), a) + (if Doing(d, e) == [a] then 1 else 0) ==
            Count(d.job, a)
            + (if a == FetchCommand && Popped(d, e) != [] && d.ring[0].msg == MSG_CONSOLE_COMMAND then 1 else 0)
            + (if a == AnnounceLoss && LosesLink(d, e) then 1 else 0)
  {
    if Popped(d, e) != [] {
      ScriptCounts(d.ring[0]);
    } else if Doing(d, e) != [] {
      var rest := d.job[1..];
      assert ([AnnounceLoss] + rest)[1..] == rest;
      assert [] + rest == rest;
    }
  }

  /**
   Every waiting command has its message in the ring, or taken from it and about to fetch the
   command, or had its message refused.
   */
  ghost predicate ConsoleInv(w: World) {
    && |w.now.console.queue| == |Only(w.now.ring, MSG_CONSOLE_COMMAND)| + Count(w.now.job, FetchCommand)
                                + |Only(w.refused, MSG_CONSOLE_COMMAND)|
    && |w.now.console.queue| <= CMD_MAX_CNT
  }

  lemma KindPublished(d: Device, e: Event, code: int)
    requires d.cycle > 0
    ensures |Only(Published(d, e), code)| == if |Published(d, e)| == 1 && Published(d, e)[0].msg == code then 1 else 0
  {
    var pub := Published(d, e);
    if pub != [] {
      assert pub == [pub[0]];
      OnlyOne(pub[0], code);
    }
  }

  lemma KindPopped(d: Device, e: Event, code: int)
    ensures |Only(Popped(d, e), code)| == if Popped(d, e) != [] && d.ring[0].msg == code then 1 else 0
  {
    if Popped(d, e) != [] { OnlyOne(d.ring[0], code); }
  }

  lemma ConsoleStep(w: World, e: Event)
    requires WorldShaped(w) && ConsoleInv(w)
    ensures ConsoleInv(Advance(w, e))
  {
    RingCount(w, e, MSG_CONSOLE_COMMAND);
    JobCount(w.now, e, FetchCommand);
    KindPublished(w.now, e, MSG_CONSOLE_COMMAND);
    KindPopped(w.now, e, MSG_CONSOLE_COMMAND);
    FetchFindsCommand(w, e);
  }

  /** A fetch in progress finds a command. */
  lemma FetchFindsCommand(w: World, e: Event)
    requires WorldShaped(w) && ConsoleInv(w)
    ensures Doing(w.now, e) == [FetchCommand] ==> w.now.console.queue != []
  {
    if Doing(w.now, e) == [FetchCommand] {
      assert Count(w.now.job, FetchCommand) >= 1;
    }
  }

  // ----- commands and lines

  /** The commands fetched followed by those waiting are the lines of the bytes typed. */
  ghost predicate LineInv(w: World) {
    LinesAccounted(ConsoleRun(w.now.console, w.fetched, w.typed))
  }

  lemma LineStep(w: World, e: Event)
    requires WorldShaped(w) && LineInv(w)
    ensures LineInv(Advance(w, e))
  {
    var r := ConsoleRun(w.now.console, w.fetched, w.typed);
    if e.ConsoleByte? {
      ReactKeepsLines(r, Byte(e.b));
      assert w.fetched + [] == w.fetched && w.typed + [] == w.typed;
    } else if Doing(w.now, e) == [FetchCommand] {
      ReactKeepsLines(r, Get);
      assert w.typed + [] == w.typed;
    } else {
      assert w.fetched + [] == w.fetched && w.typed + [] == w.typed;
    }
  }

  // ----- the shape of the work left

  /** Only polls and pulses come in groups, of at most three; everything else is a handler's only piece of work. */
  ghost predicate JobInv(w: World) {
    JobShaped(w.now.job)
  }

  predicate JobShaped(job: seq<Action>) {
    |job| <= 1 || (|job| <= 3 && forall k :: 0 <= k < |job| ==> job[k].PollChannel? || job[k].Pulse?)
  }

  lemma JobStep(w: World, e: Event)
    requires WorldShaped(w) && JobInv(w)
    ensures JobInv(Advance(w, e))
  {
    var d := w.now;
    if Popped(d, e) == [] && Doing(d, e) != [] && LosesLink(d, e) {
      assert d.job == [CheckLink];
    }
  }

  // ----- losses of the link

  /**
   Every loss found was announced, or is about to be, or its announcement was refused; and while
   it is about to be announced the link counts as lost.
   */
  ghost predicate LossInv(w: World) {
    && w.losses == |Only(w.accepted, MSG_LINK_DOWN)| + |Only(w.refused, MSG_LINK_DOWN)| + Count(w.now.job, AnnounceLoss)
    && (Count(w.now.job, AnnounceLoss) > 0 ==> !w.now.link)
  }

  lemma LossStep(w: World, e: Event)
    requires WorldShaped(w) && JobInv(w) && LossInv(w)
    ensures LossInv(Advance(w, e))
  {
    var pub := Published(w.now, e);
    JobCount(w.now, e, AnnounceLoss);
    KindPublished(w.now, e, MSG_LINK_DOWN);
    OnlyConcat(w.accepted, pub, MSG_LINK_DOWN);
    OnlyConcat(w.refused, pub, MSG_LINK_DOWN);
    if Doing(w.now, e) == [CheckLink] {
      assert w.now.job[1..] == [];
    }
  }

  // ----- polls

  /** The polls that are left. */
  function PollsLeft(job: seq<Action>): seq<byte> {
    if job == [] then [] else Polls([job[0]]) + PollsLeft(job[1..])
  }

  /** The polls that work ticks ask for, in order. */
  function PollsOf(ms: seq<Msg>): seq<byte> {
    if ms == [] then [] else PollsOf(ms[..|ms| - 1]) + PolledBy(ms[|ms| - 1])
  }

  /** Polls made and polls left are those of the work ticks taken. */
  ghost predicate PollInv(w: World) {
    w.polled + PollsLeft(w.now.job) == PollsOf(Only(w.taken, MSG_WORKTICK))
  }

  lemma PollsPair(a: Action, b: Action)
    ensures PollsLeft([a, b]) == Polls([a]) + Polls([b])
  {
    assert [a, b][1..] == [b] && [b][1..] == [];
    assert PollsLeft([b]) == Polls([b]) + [];
  }

  lemma ScriptPolls(m: Msg)
    ensures PollsLeft(Script(m)) == PolledBy(m)
  {
    var s := Script(m);
    if |s| == 3 {
      PollsPair(Pulse(1), Pulse(0));
      assert s[1..] == [Pulse(1), Pulse(0)];
    } else if |s| == 2 {
      PollsPair(s[0], s[1]);
      assert s == [s[0], s[1]];
    } else if |s| == 1 {
      assert s[1..] == [];
    }
  }

  lemma PollTaken(taken: seq<Msg>, m: Msg)
    ensures PollsOf(Only(taken + [m], MSG_WORKTICK)) == PollsOf(Only(taken, MSG_WORKTICK)) + PolledBy(m)
  {
    OnlyConcat(taken, [m], MSG_WORKTICK);
    OnlyOne(m, MSG_WORKTICK);
    var ticks := Only(taken, MSG_WORKTICK);
    if m.msg == MSG_WORKTICK {
      assert (ticks + [m])[..|ticks|] == ticks;
    } else {
      assert ticks + [] == ticks;
    }
  }

  lemma PollDone(d: Device, e: Event)
    requires JobShaped(d.job) && Popped(d, e) == []
    ensures Polls(Doing(d, e)) + PollsLeft(NextJob(d, e)) == PollsLeft(d.job)
  {
    if Doing(d, e) != [] {
      var rest := d.job[1..];
      assert [] + rest == rest;
      if LosesLink(d, e) {
        assert rest == [] && [AnnounceLoss] + rest == [AnnounceLoss] && [AnnounceLoss][1..] == [];
      }
    }
  }

  lemma PollStep(w: World, e: Event)
    requires WorldShaped(w) && JobInv(w) && PollInv(w)
    ensures PollInv(Advance(w, e))
  {
    var d := w.now;
    if Popped(d, e) != [] {
      ScriptPolls(d.ring[0]);
      PollTaken(w.taken, d.ring[0]);
      assert w.polled + [] == w.polled;
    } else {
      PollDone(d, e);
      assert w.taken + [] == w.taken;
      Assoc(w.polled, Polls(Doing(d, e)), PollsLeft(NextJob(d, e)));
    }
  }

  // ----- pulses

  /** The values the pulses still to come will write to address 1. */
  function PulsesLeft(job: seq<Action>): seq<byte> {
    if job == [] then [] else (if job[0].Pulse? then [job[0].value] else []) + PulsesLeft(job[1..])
  }

  /** 0, 1, 0 for each message that asks for a change of configuration or tells of the loss of the link. */
  function PulsesOf(ms: seq<Msg>): seq<byte> {
    if ms == [] then []
    else
      var m := ms[|ms| - 1];
      PulsesOf(ms[..|ms| - 1]) + if m.msg == MSG_CONFIG_APPLY || m.msg == MSG_LINK_DOWN then [0, 1, 0] else []
  }

  /** Pulses written and pulses left are those of the messages taken. */
  ghost predicate PulseInv(w: World) {
    WritesAt(w.now.log, 1) + PulsesLeft(w.now.job) == PulsesOf(w.taken)
  }

  lemma PulsesLeftCons(a: Action, job: seq<Action>)
    ensures PulsesLeft([a] + job) == (if a.Pulse? then [a.value] else []) + PulsesLeft(job)
  {
    assert ([a] + job)[1..] == job;
  }

  lemma ScriptPulses(m: Msg)
    ensures PulsesLeft(Script(m)) == if m.msg == MSG_CONFIG_APPLY || m.msg == MSG_LINK_DOWN then [0, 1, 0] else []
  {
    var s := Script(m);
    if |s| == 3 {
      PulsesLeftCons(Pulse(0), []);
      PulsesLeftCons(Pulse(1), [Pulse(0)]);
      PulsesLeftCons(Pulse(0), [Pulse(1), Pulse(0)]);
      assert [Pulse(0)] + [] == [Pulse(0)] && [Pulse(1)] + [Pulse(0)] == [Pulse(1), Pulse(0)];
      assert s == [Pulse(0)] + [Pulse(1), Pulse(0)];
    } else if |s| == 2 {
      PulsesLeftCons(s[1], []);
      PulsesLeftCons(s[0], [s[1]]);
      assert [s[1]] + [] == [s[1]] && s == [s[0]] + [s[1]];
    } else if |s| == 1 {
      PulsesLeftCons(s[0], []);
      assert s == [s[0]] + [];
    }
  }

  lemma PulseTaken(taken: seq<Msg>, m: Msg)
    ensures PulsesOf(taken + [m]) ==
            PulsesOf(taken) + if m.msg == MSG_CONFIG_APPLY || m.msg == MSG_LINK_DOWN then [0, 1, 0] else []
  {
    assert (taken + [m])[..|taken|] == taken;
  }

  /** The frames a step accepts leave address 1 alone, so its log there grows by a pulse, or not. */
  lemma PulseLogged(d: Device, e: Event)
    ensures WritesAt(NextLog(d, e), 1) == WritesAt(d.log, 1) + WritesAt(PulseWrites(Doing(d, e)), 1)
  {
    StreamAvoidsLine(Feed(d.receiver, Heard(e)).frames);
    ExceptNone(FrameLog(d, e), 1);
    WritesAtConcat(d.log, FrameLog(d, e), 1);
    WritesAtConcat(d.log + FrameLog(d, e), PulseWrites(Doing(d, e)), 1);
    assert WritesAt(d.log, 1) + [] == WritesAt(d.log, 1);
  }

  lemma PulseDone(d: Device, e: Event)
    requires JobShaped(d.job) && Popped(d, e) == []
    ensures WritesAt(PulseWrites(Doing(d, e)), 1) + PulsesLeft(NextJob(d, e)) == PulsesLeft(d.job)
  {
    if Doing(d, e) != [] {
      var rest := d.job[1..];
      PulsesLeftCons(AnnounceLoss, rest);
      assert [] + rest == rest;
      PulseValue(d.job[0]);
    }
  }

  lemma PulseValue(a: Action)
    ensures WritesAt(PulseWrites([a]), 1) == if a.Pulse? then [a.value] else []
  {
    if a.Pulse? { assert [BusWrite(1, a.value)][1..] == []; }
  }

  lemma PulseStep(w: World, e: Event)
    requires WorldShaped(w) && JobInv(w) && PulseInv(w)
    ensures PulseInv(Advance(w, e))
  {
    var d := w.now;
    PulseLogged(d, e);
    if Popped(d, e) != [] {
      ScriptPulses(d.ring[0]);
      PulseTaken(w.taken, d.ring[0]);
      assert WritesAt(d.log, 1) + [] == WritesAt(d.log, 1);
    } else {
      PulseDone(d, e);
      assert w.taken + [] == w.taken;
      Assoc(WritesAt(d.log, 1), WritesAt(PulseWrites(Doing(d, e)), 1), PulsesLeft(NextJob(d, e)));
    }
  }

  // ----- the button, and looks at the link

  /** Every press of the button was accepted or refused as a change of configuration. */
  ghost predicate PressInv(w: World) {
    w.presses == |Only(w.accepted, MSG_CONFIG_APPLY)| + |Only(w.refused, MSG_CONFIG_APPLY)|
  }

  lemma PressStep(w: World, e: Event)
    requires WorldShaped(w) && PressInv(w)
    ensures PressInv(Advance(w, e))
  {
    var pub := Published(w.now, e);
    KindPublished(w.now, e, MSG_CONFIG_APPLY);
    OnlyConcat(w.accepted, pub, MSG_CONFIG_APPLY);
    OnlyConcat(w.refused, pub, MSG_CONFIG_APPLY);
  }

  /** The last look found the link down; before the first look it counts as up. */
  predicate LastDown(looks: seq<bool>) {
    looks != [] && looks[|looks| - 1]
  }

  /** How often the link was found down after it had been up. */
  function Falls(looks: seq<bool>): nat {
    if looks == [] then 0
    else
      var before := looks[..|looks| - 1];
      Falls(before) + if looks[|looks| - 1] && !LastDown(before) then 1 else 0
  }

  /** The looks at the link that work ticks ask for. */
  function LooksOf(ms: seq<Msg>): nat {
    if ms == [] then 0 else LooksOf(ms[..|ms| - 1]) + if ms[|ms| - 1].para == 9 then 1 else 0
  }

  /**
   The link status is that of the last look, losses are changes from up to down, and the looks
   made and the looks left are those of the work ticks taken.
   */
  ghost predicate LookInv(w: World) {
    && w.now.link == !LastDown(w.looks)
    && w.losses == Falls(w.looks)
    && |w.looks| + Count(w.now.job, CheckLink) == LooksOf(Only(w.taken, MSG_WORKTICK))
  }

  lemma ScriptLooks(m: Msg)
    ensures Count(Script(m), CheckLink) == if m.msg == MSG_WORKTICK && m.para == 9 then 1 else 0
  {
    var s := Script(m);
    if |s| == 3 {
      CountPair(Pulse(1), Pulse(0), CheckLink);
      assert s[1..] == [Pulse(1), Pulse(0)];
    } else if |s| == 2 {
      CountPair(s[0], s[1], CheckLink);
      assert s == [s[0], s[1]];
    } else if |s| == 1 {
      assert s[1..] == [];
    }
  }

  lemma LookTaken(taken: seq<Msg>, m: Msg)
    ensures LooksOf(Only(taken + [m], MSG_WORKTICK)) ==
            LooksOf(Only(taken, MSG_WORKTICK)) + if m.msg == MSG_WORKTICK && m.para == 9 then 1 else 0
  {
    OnlyConcat(taken, [m], MSG_WORKTICK);
    OnlyOne(m, MSG_WORKTICK);
    var ticks := Only(taken, MSG_WORKTICK);
    if m.msg == MSG_WORKTICK {
      assert (ticks + [m])[..|ticks|] == ticks;
    } else {
      assert ticks + [] == ticks;
    }
  }

  lemma LookDone(d: Device, e: Event)
    requires Popped(d, e) == []
    ensures |Looks(d, e)| + Count(NextJob(d, e), CheckLink) == Count(d.job, CheckLink)
  {
    if Doing(d, e) != [] {
      var rest := d.job[1..];
      assert ([AnnounceLoss] + rest)[1..] == rest;
      assert [] + rest == rest;
    }
  }

  lemma LooksMore(looks: seq<bool>, down: bool)
    ensures Falls(looks + [down]) == Falls(looks) + if down && !LastDown(looks) then 1 else 0
    ensures LastDown(looks + [down]) == down
  {
    assert (looks + [down])[..|looks|] == looks;
  }

  lemma LookedStep(w: World, e: Event)
    requires WorldShaped(w) && w.now.link == !LastDown(w.looks) && w.losses == Falls(w.looks)
    ensures Advance(w, e).now.link == !LastDown(Advance(w, e).looks)
    ensures Advance(w, e).losses == Falls(Advance(w, e).looks)
  {
    if Doing(w.now, e) == [CheckLink] {
      LooksMore(w.looks, e.linkDown);
    } else {
      assert w.looks + [] == w.looks;
    }
  }

  lemma LookCountStep(d: Device, e: Event, taken: seq<Msg>)
    ensures |Looks(d, e)| + Count(NextJob(d, e), CheckLink) + LooksOf(Only(taken, MSG_WORKTICK)) ==
            Count(d.job, CheckLink) + LooksOf(Only(taken + Popped(d, e), MSG_WORKTICK))
  {
    if Popped(d, e) != [] {
      ScriptLooks(d.ring[0]);
      LookTaken(taken, d.ring[0]);
    } else {
      LookDone(d, e);
      assert taken + [] == taken;
    }
  }

  lemma LookStep(w: World, e: Event)
    requires WorldShaped(w) && LookInv(w)
    ensures LookInv(Advance(w, e))
  {
    LookedStep(w, e);
    LookCountStep(w.now, e, w.taken);
  }

  // ----- work ticks

  ghost predicate TickInv(w: World) {
    && WorldShaped(w)
    && w.now.timerCnt == CountAfter(w.now.cycle, w.ticks)
    && Accounted(w.accepted, w.refused, TicksAfter(w.now.cycle, w.ticks))
  }

  lemma TicksPublished(d: Device, e: Event)
    requires d.cycle > 0
    ensures Only(Published(d, e), MSG_WORKTICK) == if e.TimerTick? then Tick(d.timerCnt, d.cycle) else []
  {
    var pub := Published(d, e);
    if pub != [] {
      assert pub == [pub[0]];
      OnlyOne(pub[0], MSG_WORKTICK);
    }
  }

  /** The ticks accepted and refused so far account for all that were asked for. */
  ghost predicate Accounted(accepted: seq<Msg>, refused: seq<Msg>, asked: seq<Msg>) {
    && |Only(accepted, MSG_WORKTICK)| + |Only(refused, MSG_WORKTICK)| == |asked|
    && (Only(refused, MSG_WORKTICK) == [] ==> Only(accepted, MSG_WORKTICK) == asked)
  }

  lemma AccountedMore(accepted: seq<Msg>, refused: seq<Msg>, asked: seq<Msg>, pub: seq<Msg>)
    requires Accounted(accepted, refused, asked)
    ensures Accounted(accepted + pub, refused, asked + Only(pub, MSG_WORKTICK))
    ensures Accounted(accepted, refused + pub, asked + Only(pub, MSG_WORKTICK))
  {
    OnlyConcat(accepted, pub, MSG_WORKTICK);
    OnlyConcat(refused, pub, MSG_WORKTICK);
  }

  lemma TickStep(w: World, e: Event)
    requires WorldShaped(w) && TickInv(w)
    ensures TickInv(Advance(w, e))
  {
    var asked := TicksAfter(w.now.cycle, w.ticks);
    TicksPublished(w.now, e);
    AccountedMore(w.accepted, w.refused, asked, Published(w.now, e));
    assert asked + [] == asked;
  }

  // ----- downstream

  /** Without an overrun before the step there is none to come back from: an overrun stays on record. */
  lemma OverrunStays(w: World, e: Event)
    requires WorldShaped(w)
    ensures Advance(w, e).now.receiver != Overrun ==> w.now.receiver != Overrun
  {
    OverrunIsFinal(Heard(e));
  }

  /**
   As long as no byte was stored outside the buffer, each channel's data register has received
   the payloads of the accepted frames for it.
   */
  ghost predicate DownInv(w: World) {
    && w.now.receiver == Feed(Hunt, w.heard).end
    && (w.now.receiver != Overrun ==>
          forall c: byte :: c < UART_FSMC_NUM ==>
            DataWrites(w.now.log, c) == Payloads(Feed(Hunt, w.heard).frames, c))
  }

  lemma PulseWritesOnly(acts: seq<Action>, addr: nat)
    ensures Except(PulseWrites(acts), 1) == []
    ensures addr != 1 ==> WritesAt(PulseWrites(acts), addr) == []
  {
    if PulseWrites(acts) != [] {
      assert PulseWrites(acts)[1..] == [];
    }
  }

  /** What the log gains besides the writes to address 1 are those of the accepted frames. */
  lemma LogGains(log: seq<BusWrite>, frames: seq<seq<byte>>, acts: seq<Action>)
    ensures Except(log + StreamWrites(frames) + PulseWrites(acts), 1) == Except(log, 1) + StreamWrites(frames)
  {
    ExceptConcat(log, StreamWrites(frames), 1);
    ExceptConcat(log + StreamWrites(frames), PulseWrites(acts), 1);
    PulseWritesOnly(acts, 1);
    StreamAvoidsLine(frames);
    ExceptNone(StreamWrites(frames), 1);
  }

  lemma LogAdded(log: seq<BusWrite>, frames: seq<seq<byte>>, acts: seq<Action>, c: byte)
    requires c < UART_FSMC_NUM
    ensures DataWrites(log + StreamWrites(frames) + PulseWrites(acts), c) == DataWrites(log, c) + Payloads(frames, c)
  {
    WritesAtConcat(log, StreamWrites(frames), DataReg(c));
    WritesAtConcat(log + StreamWrites(frames), PulseWrites(acts), DataReg(c));
    PulseWritesOnly(acts, DataReg(c));
    StreamDelivery(frames, c);
  }

  /**
   The whole bus, as long as no byte was stored outside the buffer: besides the pulses at address
   1 it was written what the accepted frames ask for, in order, and nothing else.
   */
  ghost predicate BusInv(w: World) {
    w.now.receiver != Overrun ==> Except(w.now.log, 1) == StreamWrites(Feed(Hunt, w.heard).frames)
  }

  lemma BusStep(w: World, e: Event)
    requires WorldShaped(w) && DownInv(w) && BusInv(w)
    ensures BusInv(Advance(w, e))
  {
    var d := w.now;
    OverrunStays(w, e);
    if Advance(w, e).now.receiver != Overrun {
      var before, gained := Feed(Hunt, w.heard).frames, Feed(d.receiver, Heard(e)).frames;
      FeedConcat(Hunt, w.heard, Heard(e));
      LogGains(d.log, gained, Doing(d, e));
      StreamWritesConcat(before, gained);
    }
  }

  lemma DownStep(w: World, e: Event)
    requires WorldShaped(w) && DownInv(w)
    ensures DownInv(Advance(w, e))
  {
    var d := w.now;
    OverrunStays(w, e);
    FeedConcat(Hunt, w.heard, Heard(e));
    if Advance(w, e).now.receiver != Overrun {
      var before, gained := Feed(Hunt, w.heard).frames, Feed(d.receiver, Heard(e)).frames;
      forall c: byte | c < UART_FSMC_NUM
        ensures DataWrites(NextLog(d, e), c) == Payloads(before + gained, c)
      {
        LogAdded(d.log, gained, Doing(d, e), c);
        PayloadsConcat(before, gained, c);
      }
    }
  }

  // ----- upstream

  /** The bytes reported for channel c by a list of frames. */
  function Reported(fs: seq<seq<byte>>, c: byte): seq<byte> {
    if fs == [] then [] else ReportData(fs[0], c) + Reported(fs[1..], c)
  }

  lemma {:induction false} ReportedSnoc(fs: seq<seq<byte>>, f: seq<byte>, c: byte)
    ensures Reported(fs + [f], c) == Reported(fs, c) + ReportData(f, c)
    decreases |fs|
  {
    if fs == [] {
      assert fs + [f] == [f] && [f][1..] == [];
    } else {
      assert (fs + [f])[0] == fs[0] && (fs + [f])[1..] == fs[1..] + [f];
      ReportedSnoc(fs[1..], f, c);
      Assoc(ReportData(fs[0], c), Reported(fs[1..], c), ReportData(f, c));
    }
  }

  /**
   A peer that feeds the sent datagrams to the same receiver ends hunting, and the frames it
   accepts carry for each channel exactly the bytes kept there that wait no longer.
   */
  ghost predicate Conserved(u: Uplink, kept: seq<seq<byte>>) {
    && |u.rx| == |kept| == UART_FSMC_NUM
    && Feed(Hunt, Flatten(u.sent)).end == Hunt
    && forall c: byte :: c < UART_FSMC_NUM ==>
         kept[c] == Reported(Feed(Hunt, Flatten(u.sent)).frames, c) + u.rx[c]
  }

  lemma SendOneMore(sent: seq<seq<byte>>, d: seq<byte>)
    requires Feed(Hunt, Flatten(sent)).end == Hunt
    ensures Feed(Hunt, Flatten(sent + [d])) ==
            Result(Feed(Hunt, d).end, Feed(Hunt, Flatten(sent)).frames + Feed(Hunt, d).frames)
  {
    FlattenSnoc(sent, d);
    FeedConcat(Hunt, Flatten(sent), d);
  }

  lemma PollConserves(u: Uplink, kept: seq<seq<byte>>, chl: byte)
    requires Conserved(u, kept) && chl < UART_FSMC_NUM
    ensures Conserved(Poll(u, chl), kept)
  {
    var n := Receivable(u.rx[chl], MAX_UART_DATA_SIZE);
    var data := u.rx[chl][..n];
    assert u.rx[chl] == data + u.rx[chl][n..];
    if n > 0 {
      var f := ReportFrame(chl, data);
      var fs := Feed(Hunt, Flatten(u.sent)).frames;
      ReportRoundTrip(chl, data);
      SendOneMore(u.sent, OnWire(f));
      forall c: byte | c < UART_FSMC_NUM
        ensures kept[c] == Reported(fs + [f], c) + Poll(u, chl).rx[c]
      {
        ReportedSnoc(fs, f, c);
        Assoc(Reported(fs, c), ReportData(f, c), Poll(u, chl).rx[c]);
        assert [] + u.rx[c] == u.rx[c];
      }
    } else {
      assert Poll(u, chl).rx == u.rx;
      assert u.sent + [] == u.sent;
    }
  }

  /**
   As long as no byte was stored outside the receive buffer, the report side loses nothing but
   what a reset drops.
   */
  ghost predicate UpInv(w: World) {
    w.now.receiver != Overrun ==>
      && Conserved(w.now.uplink, w.kept)
      && (!w.now.reports ==> w.now.uplink.sent == [])
      && (w.resets == 0 ==> w.kept == w.arrived)
  }

  lemma ArrivalConserves(u: Uplink, kept: seq<seq<byte>>, chl: byte, data: seq<byte>)
    requires Conserved(u, kept)
    ensures Conserved(u.(rx := Arrive(u.rx, chl, data)), Arrive(kept, chl, data))
  {
    if chl < UART_FSMC_NUM {
      Assoc(Reported(Feed(Hunt, Flatten(u.sent)).frames, chl), u.rx[chl], data);
    }
  }

  lemma ReplacedTail(s: seq<byte>, t: seq<byte>, t': seq<byte>)
    ensures Replaced(s + t, |t|, t') == s + t'
  {
    assert (s + t)[..|s|] == s;
  }

  /** A reset changes what waits, and nothing of what was reported. */
  lemma ResetConserves(u: Uplink, kept: seq<seq<byte>>, left: Queues)
    requires Conserved(u, kept)
    ensures Conserved(u.(rx := left), KeptByReset(kept, u.rx, left))
  {
    forall c: byte | c < UART_FSMC_NUM
      ensures KeptByReset(kept, u.rx, left)[c] == Reported(Feed(Hunt, Flatten(u.sent)).frames, c) + left[c]
    {
      ReplacedTail(Reported(Feed(Hunt, Flatten(u.sent)).frames, c), u.rx[c], left[c]);
    }
  }

  lemma UpStep(w: World, e: Event)
    requires WorldShaped(w) && UpInv(w)
    ensures UpInv(Advance(w, e))
  {
    OverrunStays(w, e);
    if Advance(w, e).now.receiver != Overrun {
      var polls := Polls(Doing(w.now, e));
      if e.UartArrival? {
        ArrivalConserves(w.now.uplink, w.kept, e.chl, e.data);
      } else if Resets(w.now, e) {
        ResetConserves(w.now.uplink, w.kept, e.left);
      } else if polls != [] && polls[0] < UART_FSMC_NUM && w.now.reports {
        PollConserves(w.now.uplink, w.kept, polls[0]);
      }
    }
  }

  // ----- all invariants over every run

  ghost predicate Inv(w: World) {
    && WorldShaped(w) && QueueInv(w) && JobInv(w) && ConsoleInv(w) && LineInv(w) && LossInv(w)
    && TickInv(w) && PollInv(w) && PulseInv(w) && PressInv(w) && LookInv(w) && DownInv(w) && BusInv(w) && UpInv(w)
  }

  lemma GenesisInv(queryCycle: byte, reports: bool)
    ensures Inv(Genesis(queryCycle, reports))
  {
    var w := Genesis(queryCycle, reports);
    assert Feed(Hunt, []) == Result(Hunt, []);
    assert Flatten<byte>([]) == [];
    assert TicksAfter(w.now.cycle, 0) == [];
  }

  lemma StepInv(w: World, e: Event)
    requires Inv(w)
    ensures Inv(Advance(w, e))
  {
    QueueStep(w, e);
    JobStep(w, e);
    ConsoleStep(w, e);
    LineStep(w, e);
    LossStep(w, e);
    PollStep(w, e);
    TickStep(w, e);
    PulseStep(w, e);
    PressStep(w, e);
    LookStep(w, e);
    DownStep(w, e);
    BusStep(w, e);
    UpStep(w, e);
  }

  lemma {:induction false} RunInv(w: World, es: seq<Event>)
    requires Inv(w)
    ensures Inv(Run(w, es))
    decreases |es|
  {
    if es == [] {
    } else {
      RunInv(w, es[..|es| - 1]);
      StepInv(Run(w, es[..|es| - 1]), es[|es| - 1]);
    }
  }
}
