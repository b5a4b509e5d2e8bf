/** What holds of every run of the device from its boot on. */
module DeviceTheorems {
  import opened Bytes
  import opened FrameStream
  import opened StreamTheorems
  import opened UartFsmc
  import opened Delivery
  import opened MsgInterface
  import opened Console
  import opened Timer
  import opened EventLoop
  import opened Report
  import opened PeerFrames
  import UdpInterface

  /** The world after the events `es` from boot on. */
  function WorldAfter(queryCycle: byte, reports: bool, es: seq<Event>): World {
    Run(Genesis(queryCycle, reports), es)
  }

  lemma ReachableInv(queryCycle: byte, reports: bool, es: seq<Event>)
    ensures Inv(WorldAfter(queryCycle, reports, es))
  {
    GenesisInv(queryCycle, reports);
    RunInv(Genesis(queryCycle, reports), es);
  }

  lemma {:induction false} RunConcat(w: World, a: seq<Event>, b: seq<Event>)
    requires WorldShaped(w)
    ensures Run(w, a + b) == Run(Run(w, a), b)
    decreases |b|
  {
    if b == [] {
      assert a + b == a;
    } else {
      assert (a + b)[..|a + b| - 1] == a + b[..|b| - 1];
      RunConcat(w, a, b[..|b| - 1]);
    }
  }

  lemma RunSnoc(w: World, es: seq<Event>, e: Event)
    requires WorldShaped(w)
    ensures Run(w, es + [e]) == Advance(Run(w, es), e)
  {
    assert (es + [e])[..|es|] == es;
  }

  lemma RunCons(w: World, e: Event, es: seq<Event>)
    requires WorldShaped(w)
    ensures Run(w, [e] + es) == Run(Advance(w, e), es)
  {
    assert [] + [e] == [e];
    RunSnoc(w, [], e);
    RunConcat(w, [e], es);
  }

  // ----- messages and commands

  /** The ring hands out the accepted messages in order, and never holds more than 64. */
  lemma RingIsFifo(queryCycle: byte, reports: bool, es: seq<Event>)
    ensures var w := WorldAfter(queryCycle, reports, es);
            w.taken + w.now.ring == w.accepted && |w.now.ring| <= 64
  {
    ReachableInv(queryCycle, reports, es);
  }

  /**
   The waiting commands are those whose message is in the ring, those whose message was taken
   and whose fetch is still to come, and those whose message was refused, never more than eight;
   so a fetch always finds a command.
   */
  lemma ConsoleMessagesFindCommands(queryCycle: byte, reports: bool, es: seq<Event>)
    ensures var w := WorldAfter(queryCycle, reports, es);
            && |w.now.console.queue| == |Only(w.now.ring, MSG_CONSOLE_COMMAND)| + Count(w.now.job, FetchCommand)
                                        + |Only(w.refused, MSG_CONSOLE_COMMAND)|
            && |w.now.console.queue| <= 8
            && (w.now.job != [] && w.now.job[0] == FetchCommand ==> w.now.console.queue != [])
  {
    ReachableInv(queryCycle, reports, es);
    FetchFindsCommand(WorldAfter(queryCycle, reports, es), Main(false));
  }

  /** All bytes typed at the console. */
  function ConsoleBytes(es: seq<Event>): seq<byte> {
    if es == [] then []
    else ConsoleBytes(es[..|es| - 1]) + if es[|es| - 1].ConsoleByte? then [es[|es| - 1].b] else []
  }

  lemma {:induction false} TypedUntilLatched(queryCycle: byte, reports: bool, es: seq<Event>)
    ensures var w := WorldAfter(queryCycle, reports, es);
            w.typed <= ConsoleBytes(es) && (!w.now.console.latched ==> w.typed == ConsoleBytes(es))
    decreases |es|
  {
    if es == [] {
    } else {
      TypedUntilLatched(queryCycle, reports, es[..|es| - 1]);
    }
  }

  /**
   The commands the main loop has fetched, followed by those that wait, are exactly the lines
   typed at the console, up to the byte that latches the receiver, if it is.
   */
  lemma CommandsAreLinesTyped(queryCycle: byte, reports: bool, es: seq<Event>)
    ensures var w := WorldAfter(queryCycle, reports, es);
            && w.fetched + w.now.console.queue == ScanLines(w.typed).lines
            && w.typed <= ConsoleBytes(es)
            && (!w.now.console.latched ==> w.typed == ConsoleBytes(es))
  {
    ReachableInv(queryCycle, reports, es);
    TypedUntilLatched(queryCycle, reports, es);
  }

  // ----- pulses, the button and the link

  /**
   Address 1 was written 0, 1, 0 once for each message taken that asks for a change of configuration
   or tells of the loss of the link, in order; what is missing are the pulses of the current handler.
   */
  lemma PulsesFollowMessages(queryCycle: byte, reports: bool, es: seq<Event>)
    ensures var w := WorldAfter(queryCycle, reports, es);
            && WritesAt(w.now.log, 1) + PulsesLeft(w.now.job) == PulsesOf(w.taken)
            && (w.now.job == [] ==> WritesAt(w.now.log, 1) == PulsesOf(w.taken))
  {
    ReachableInv(queryCycle, reports, es);
    var w := WorldAfter(queryCycle, reports, es);
    assert WritesAt(w.now.log, 1) + [] == WritesAt(w.now.log, 1);
  }

  /** Every press of the button was published as a change of configuration, unless the ring was full. */
  lemma ButtonIsPublished(queryCycle: byte, reports: bool, es: seq<Event>)
    ensures var w := WorldAfter(queryCycle, reports, es);
            w.presses == |Only(w.accepted, MSG_CONFIG_APPLY)| + |Only(w.refused, MSG_CONFIG_APPLY)|
  {
    ReachableInv(queryCycle, reports, es);
  }

  /**
   The link counts as the last look found it, and its loss was announced, refused or is about to be
   announced once for each change from up to down.
   */
  lemma LinkIsTracked(queryCycle: byte, reports: bool, es: seq<Event>)
    ensures var w := WorldAfter(queryCycle, reports, es);
            && w.now.link == !LastDown(w.looks)
            && |Only(w.accepted, MSG_LINK_DOWN)| + |Only(w.refused, MSG_LINK_DOWN)| + Count(w.now.job, AnnounceLoss)
               == Falls(w.looks)
  {
    ReachableInv(queryCycle, reports, es);
  }

  lemma {:induction false} LooksOfSchedule(n: nat)
    ensures LooksOf(Schedule(n)) == n / 10
  {
    if n == 0 {
    } else {
      LooksOfSchedule(n - 1);
      assert Schedule(n)[..n - 1] == Schedule(n - 1);
      assert n / 10 == (n - 1) / 10 + if (n - 1) % 10 == 9 then 1 else 0;
    }
  }

  /** If no work tick was refused, the link is looked at once in ten ticks taken. */
  lemma LinkLookedAt(queryCycle: byte, reports: bool, es: seq<Event>)
    requires Only(WorldAfter(queryCycle, reports, es).refused, MSG_WORKTICK) == []
    ensures var w := WorldAfter(queryCycle, reports, es);
            |w.looks| + Count(w.now.job, CheckLink) == |Only(w.taken, MSG_WORKTICK)| / 10
  {
    ReachableInv(queryCycle, reports, es);
    TakenTicksFollowSchedule(queryCycle, reports, es);
    LooksOfSchedule(|Only(WorldAfter(queryCycle, reports, es).taken, MSG_WORKTICK)|);
  }

  // ----- ticks

  lemma {:induction false} CycleStays(w: World, es: seq<Event>)
    requires WorldShaped(w)
    ensures Run(w, es).now.cycle == w.now.cycle
    decreases |es|
  {
    if es == [] {
    } else {
      CycleStays(w, es[..|es| - 1]);
    }
  }

  /**
   The query cycle q the device booted with decides the ticks: after n interrupts one was asked for
   in every 20q of them (20 if q is 0), phases 0 to 9 in turn, and each was accepted or refused.
   */
  lemma TicksOfRun(queryCycle: byte, reports: bool, es: seq<Event>)
    ensures var w := WorldAfter(queryCycle, reports, es);
            var period: nat := if queryCycle > 0 then 20 * queryCycle as int else 20;
            && |Only(w.accepted, MSG_WORKTICK)| + |Only(w.refused, MSG_WORKTICK)| == CeilDiv(w.ticks, period)
            && (Only(w.refused, MSG_WORKTICK) == [] ==>
                  Only(w.accepted, MSG_WORKTICK) == Schedule(CeilDiv(w.ticks, period)))
  {
    var w := WorldAfter(queryCycle, reports, es);
    ReachableInv(queryCycle, reports, es);
    CycleStays(Genesis(queryCycle, reports), es);
    TickSchedule(w.now.cycle, w.ticks);
  }

  // ----- fair polling

  /** How many of the messages poll channel c. */
  function TimesPolled(ms: seq<Msg>, c: byte): nat {
    if ms == [] then 0
    else TimesPolled(ms[..|ms| - 1], c) + if c in PolledBy(ms[|ms| - 1]) then 1 else 0
  }

  /** How many ticks after the j-th of the schedule channel c is polled. */
  function Wait(j: nat, c: byte): (i: nat)
    requires c < UART_FSMC_NUM
    ensures i < PHASES
  {
    (c / 2 + PHASES - j % PHASES) % PHASES
  }

  lemma {:induction false} WindowPolls(k: nat, j: nat, n: nat, c: byte)
    requires j + n <= k && n <= PHASES && c < UART_FSMC_NUM
    ensures TimesPolled(Schedule(k)[j..j + n], c) == if Wait(j, c) < n then 1 else 0
  {
    if n == 0 {
      assert Schedule(k)[j..j + n] == [];
    } else {
      WindowPolls(k, j, n - 1, c);
      WindowNext(k, j, n - 1, c);
    }
  }

  lemma WindowNext(k: nat, j: nat, n: nat, c: byte)
    requires j + n < k && n < PHASES && c < UART_FSMC_NUM
    ensures TimesPolled(Schedule(k)[j..j + n + 1], c) ==
            TimesPolled(Schedule(k)[j..j + n], c) + if Wait(j, c) == n then 1 else 0
  {
    assert Schedule(k)[j..j + n + 1][..n] == Schedule(k)[j..j + n];
    PolledByPhase((j + n) % PHASES, c);
    PhaseHit(j, n, c);
  }

  lemma PolledByPhase(p: nat, c: byte)
    requires p < PHASES && c < UART_FSMC_NUM
    ensures c in PolledBy(Msg(MSG_WORKTICK, p)) <==> p == c / 2
  {
    assert p < 8 ==> PolledBy(Msg(MSG_WORKTICK, p)) == [p * 2, p * 2 + 1];
  }

  lemma PhaseHit(j: nat, i: nat, c: byte)
    requires i < PHASES && c < UART_FSMC_NUM
    ensures (j + i) % PHASES == c / 2 <==> Wait(j, c) == i
  {
    var r := j % PHASES;
    assert (j + i) % PHASES == if r + i < PHASES then r + i else r + i - PHASES;
  }

  lemma SchedulePrefix(a: seq<Msg>, b: seq<Msg>, k: nat)
    requires a + b == Schedule(k)
    ensures a == Schedule(|a|)
  {
    assert a == Schedule(k)[..|a|];
  }

  /** If no work tick was refused, the ticks the main loop has taken are the phases 0..9 over and over. */
  lemma TakenTicksFollowSchedule(queryCycle: byte, reports: bool, es: seq<Event>)
    requires Only(WorldAfter(queryCycle, reports, es).refused, MSG_WORKTICK) == []
    ensures var ticks := Only(WorldAfter(queryCycle, reports, es).taken, MSG_WORKTICK);
            ticks == Schedule(|ticks|)
  {
    var w := WorldAfter(queryCycle, reports, es);
    ReachableInv(queryCycle, reports, es);
    var ticks, waiting := Only(w.taken, MSG_WORKTICK), Only(w.now.ring, MSG_WORKTICK);
    assert ticks + waiting == Only(w.accepted, MSG_WORKTICK) by {
      OnlyConcat(w.taken, w.now.ring, MSG_WORKTICK);
    }
    TickSchedule(w.now.cycle, w.ticks);
    SchedulePrefix(ticks, waiting, CeilDiv(w.ticks, w.now.cycle));
  }

  /** ... and any ten of them in a row poll each of the sixteen channels exactly once. */
  lemma FairPolling(queryCycle: byte, reports: bool, es: seq<Event>, j: nat, c: byte)
    requires Only(WorldAfter(queryCycle, reports, es).refused, MSG_WORKTICK) == []
    requires j + PHASES <= |Only(WorldAfter(queryCycle, reports, es).taken, MSG_WORKTICK)|
    requires c < UART_FSMC_NUM
    ensures TimesPolled(Only(WorldAfter(queryCycle, reports, es).taken, MSG_WORKTICK)[j..j + PHASES], c) == 1
  {
    TakenTicksFollowSchedule(queryCycle, reports, es);
    WindowPolls(|Only(WorldAfter(queryCycle, reports, es).taken, MSG_WORKTICK)|, j, PHASES, c);
  }

  /** Number of polls made by the first k work ticks: sixteen in a round of ten. */
  function PollCount(k: nat): nat {
    16 * (k / PHASES) + 2 * (if k % PHASES < 8 then k % PHASES else 8)
  }

  lemma PollCountStep(k: nat)
    ensures PollCount(k + 1) == PollCount(k) + if k % PHASES < 8 then 2 else 0
    ensures k % PHASES < 8 ==> PollCount(k) % UART_FSMC_NUM == 2 * (k % PHASES)
  {
    var q, r := k / PHASES, k % PHASES;
    assert k == PHASES * q + r;
    if r == PHASES - 1 {
      Quotient(k + 1, PHASES, q + 1, 0);
    } else {
      Quotient(k + 1, PHASES, q, r + 1);
    }
    if r < 8 { Quotient(PollCount(k), UART_FSMC_NUM, q, 2 * r); }
  }

  /** Channels in turn, from 0 on. */
  ghost predicate InTurn(chls: seq<byte>) {
    forall i :: 0 <= i < |chls| ==> chls[i] == i % UART_FSMC_NUM
  }

  lemma TurnContinues(chls: seq<byte>, p: nat)
    requires InTurn(chls) && p < PHASES && (p < 8 ==> |chls| % UART_FSMC_NUM == 2 * p)
    ensures InTurn(chls + PolledBy(Msg(MSG_WORKTICK, p)))
    ensures |chls + PolledBy(Msg(MSG_WORKTICK, p))| == |chls| + if p < 8 then 2 else 0
  {
    var n := |chls|;
    if p < 8 {
      assert n % UART_FSMC_NUM == p * 2 && (n + 1) % UART_FSMC_NUM == p * 2 + 1;
    }
  }

  lemma {:induction false} PollsOfSchedule(k: nat)
    ensures |PollsOf(Schedule(k))| == PollCount(k) && InTurn(PollsOf(Schedule(k)))
  {
    if k == 0 {
    } else {
      PollsOfSchedule(k - 1);
      PollCountStep(k - 1);
      assert Schedule(k)[..k - 1] == Schedule(k - 1);
      TurnContinues(PollsOf(Schedule(k - 1)), (k - 1) % PHASES);
    }
  }

  /** If no work tick was refused, channels are polled in turn: 0, 1, .., 15, 0, 1, .. */
  lemma PollingOrder(queryCycle: byte, reports: bool, es: seq<Event>)
    requires Only(WorldAfter(queryCycle, reports, es).refused, MSG_WORKTICK) == []
    ensures InTurn(WorldAfter(queryCycle, reports, es).polled)
  {
    var w := WorldAfter(queryCycle, reports, es);
    ReachableInv(queryCycle, reports, es);
    TakenTicksFollowSchedule(queryCycle, reports, es);
    PollsOfSchedule(|Only(w.taken, MSG_WORKTICK)|);
    assert w.polled == (w.polled + PollsLeft(w.now.job))[..|w.polled|];
  }

  // ----- end to end

  /** The datagrams of a run, in order. */
  function Datagrams(es: seq<Event>): seq<seq<seq<byte>>> {
    if es == [] then []
    else Datagrams(es[..|es| - 1]) + if es[|es| - 1].Datagram? then [es[|es| - 1].chain] else []
  }

  /** Their contents joined. */
  function Contents(chains: seq<seq<seq<byte>>>): seq<byte> {
    if chains == [] then []
    else Contents(chains[..|chains| - 1]) + Flatten(chains[|chains| - 1])
  }

  ghost predicate SingleSegment(chain: seq<seq<byte>>) {
    |chain| == 1 && |chain[0]| < UdpInterface.UDP_RX_BUFSIZE
  }

  lemma {:induction false} HeardIsContents(queryCycle: byte, reports: bool, es: seq<Event>)
    requires forall k :: 0 <= k < |es| && es[k].Datagram? ==> SingleSegment(es[k].chain)
    ensures Run(Genesis(queryCycle, reports), es).heard == Contents(Datagrams(es))
    decreases |es|
  {
    if es == [] {
    } else {
      var init, e := es[..|es| - 1], es[|es| - 1];
      HeardIsContents(queryCycle, reports, init);
      assert Contents(Datagrams(init)) + [] == Contents(Datagrams(init)) && Datagrams(init) + [] == Datagrams(init);
      if e.Datagram? {
        assert SingleSegment(e.chain);
        UdpInterface.DeliveredOnceExactly(e.chain);
        FlattenOne(Flatten(e.chain));
        assert (Datagrams(init) + [e.chain])[..|Datagrams(init)|] == Datagrams(init);
      }
    }
  }

  /** The bytes the protocol layer was given never took it out of its buffer. */
  ghost predicate Intact(w: World) {
    InBounds(w.heard)
  }

  lemma IntactExactly(queryCycle: byte, reports: bool, es: seq<Event>)
    ensures var w := WorldAfter(queryCycle, reports, es);
            Intact(w) <==> w.now.receiver != Overrun
  {
    ReachableInv(queryCycle, reports, es);
    OverrunExactly(WorldAfter(queryCycle, reports, es).heard);
  }

  /**
   The peer's side to the UARTs: whatever else happens in the run, each channel's data register
   is written exactly the payloads, in order, of the frames the byte stream of the datagrams holds.
   */
  lemma Downstream(queryCycle: byte, reports: bool, es: seq<Event>, c: byte)
    requires c < UART_FSMC_NUM && Intact(WorldAfter(queryCycle, reports, es))
    ensures var w := WorldAfter(queryCycle, reports, es);
            DataWrites(w.now.log, c) == Payloads(Parse(w.heard).frames, c)
  {
    ReachableInv(queryCycle, reports, es);
    IntactExactly(queryCycle, reports, es);
    FeedIsParse(WorldAfter(queryCycle, reports, es).heard);
  }

  /**
   All of the bus: besides the pulses at address 1, the log of any run is exactly what the frames in
   the byte stream ask for, frame by frame.
   */
  lemma BusHistory(queryCycle: byte, reports: bool, es: seq<Event>)
    requires Intact(WorldAfter(queryCycle, reports, es))
    ensures var w := WorldAfter(queryCycle, reports, es);
            Except(w.now.log, 1) == StreamWrites(Parse(w.heard).frames)
  {
    ReachableInv(queryCycle, reports, es);
    IntactExactly(queryCycle, reports, es);
    FeedIsParse(WorldAfter(queryCycle, reports, es).heard);
  }

  /** The reset line was pulled and released once for each reset frame, so it stands released. */
  lemma ResetLineReleased(queryCycle: byte, reports: bool, es: seq<Event>)
    requires Intact(WorldAfter(queryCycle, reports, es))
    ensures var w := WorldAfter(queryCycle, reports, es);
            var line := WritesAt(w.now.log, 0);
            && line == ResetPulses(ResetCount(Parse(w.heard).frames))
            && (line != [] ==> line[|line| - 1] == 1)
  {
    var w := WorldAfter(queryCycle, reports, es);
    BusHistory(queryCycle, reports, es);
    WritesAtExcept(w.now.log, 0, 1);
    StreamReleases(Parse(w.heard).frames);
  }

  lemma DownstreamAll(queryCycle: byte, reports: bool, es: seq<Event>)
    requires Intact(WorldAfter(queryCycle, reports, es))
    ensures forall c: byte :: c < UART_FSMC_NUM ==>
              var w := WorldAfter(queryCycle, reports, es);
              DataWrites(w.now.log, c) == Payloads(Parse(w.heard).frames, c)
  {
    forall c: byte | c < UART_FSMC_NUM
      ensures var w := WorldAfter(queryCycle, reports, es);
              DataWrites(w.now.log, c) == Payloads(Parse(w.heard).frames, c)
    {
      Downstream(queryCycle, reports, es, c);
    }
  }

  /** ... so well-formed frames sent in single segments, cut anywhere, all arrive at their channels. */
  lemma DownstreamDelivery(queryCycle: byte, reports: bool, es: seq<Event>, items: seq<Item>, tail: seq<byte>, c: byte)
    requires c < UART_FSMC_NUM
    requires forall k :: 0 <= k < |es| && es[k].Datagram? ==> SingleSegment(es[k].chain)
    requires Contents(Datagrams(es)) == Transmit(items) + tail && NoPair(tail)
    requires forall k :: 0 <= k < |items| ==> Gap(items[k].gap) && WellFormed(items[k].frame)
    ensures DataWrites(WorldAfter(queryCycle, reports, es).now.log, c) == Payloads(FramesOf(items), c)
  {
    ReachableInv(queryCycle, reports, es);
    HeardIsContents(queryCycle, reports, es);
    StreamRoundTrip(items, tail);
  }

  /**
   ... and for the peer's own data frames: the register at 0x2004, 0x100 further for each channel,
   gets the data of the messages for its channel, in order, and nothing else.
   */
  lemma PeerDataDelivered(queryCycle: byte, reports: bool, es: seq<Event>, ms: seq<Message>, tail: seq<byte>, c: byte)
    requires c < 16 && AllSendable(ms)
    requires forall k :: 0 <= k < |es| && es[k].Datagram? ==> SingleSegment(es[k].chain)
    requires Contents(Datagrams(es)) == Wire(ms) + tail && NoPair(tail)
    ensures WritesAt(WorldAfter(queryCycle, reports, es).now.log, 0x2004 + 0x100 * c) == SentTo(ms, c)
  {
    var items := MessagesAsItems(ms, c);
    DownstreamDelivery(queryCycle, reports, es, items, tail, c);
    DataWritesAddress(WorldAfter(queryCycle, reports, es).now.log, c);
  }

  /** What a peer running the same receiver reads for channel c from the datagrams sent. */
  function PeerReads(sent: seq<seq<byte>>, c: byte): seq<byte> {
    Reported(Parse(Flatten(sent)).frames, c)
  }

  lemma KeptIsRead(w: World, c: byte)
    requires UpInv(w) && WorldShaped(w) && w.now.receiver != Overrun && c < UART_FSMC_NUM
    ensures w.kept[c] == PeerReads(w.now.uplink.sent, c) + w.now.uplink.rx[c]
    ensures w.resets == 0 ==> w.kept[c] == w.arrived[c]
  {
    FeedIsParse(Flatten(w.now.uplink.sent));
  }

  /**
   The UARTs to the peer's side: the frames a peer decodes from the sent datagrams carry, channel
   by channel, the bytes that arrived and that no reset dropped, in order, without the ones still
   waiting. Before the first reset these are all bytes that arrived.
   */
  lemma Upstream(queryCycle: byte, reports: bool, es: seq<Event>, c: byte)
    requires c < UART_FSMC_NUM && Intact(WorldAfter(queryCycle, reports, es))
    ensures var w := WorldAfter(queryCycle, reports, es);
            && w.kept[c] == PeerReads(w.now.uplink.sent, c) + w.now.uplink.rx[c]
            && (w.resets == 0 ==> w.kept[c] == w.arrived[c])
  {
    ReachableInv(queryCycle, reports, es);
    IntactExactly(queryCycle, reports, es);
    KeptIsRead(WorldAfter(queryCycle, reports, es), c);
  }

  /** The UARTs were never reset exactly when no frame with code 0xA2 was accepted. */
  lemma NeverResetExactly(queryCycle: byte, reports: bool, es: seq<Event>)
    ensures var w := WorldAfter(queryCycle, reports, es);
            w.resets == 0 <==> !exists f :: f in Parse(w.heard).frames && IsReset(f)
  {
    var w := WorldAfter(queryCycle, reports, es);
    ResetsOfFrames(queryCycle, reports, es);
    FeedIsParse(w.heard);
    StreamResets(Parse(w.heard).frames);
  }

  lemma {:induction false} ResetsOfFrames(queryCycle: byte, reports: bool, es: seq<Event>)
    ensures var w := WorldAfter(queryCycle, reports, es);
            w.resets == 0 <==> !HoldsReset(StreamWrites(Feed(Hunt, w.heard).frames))
    decreases |es|
  {
    if es == [] {
      assert Feed(Hunt, []) == Result(Hunt, []);
    } else {
      var init, e := es[..|es| - 1], es[|es| - 1];
      ResetsOfFrames(queryCycle, reports, init);
      ReachableInv(queryCycle, reports, init);
      ResetStep(WorldAfter(queryCycle, reports, init), e);
    }
  }

  lemma ResetStep(w: World, e: Event)
    requires WorldShaped(w) && DownInv(w)
    ensures HoldsReset(StreamWrites(Feed(Hunt, w.heard + Heard(e)).frames)) <==>
            HoldsReset(StreamWrites(Feed(Hunt, w.heard).frames)) || Resets(w.now, e)
  {
    FeedConcat(Hunt, w.heard, Heard(e));
    StreamWritesConcat(Feed(Hunt, w.heard).frames, Feed(w.now.receiver, Heard(e)).frames);
    if !e.Datagram? {
      assert Feed(w.now.receiver, []) == Result(w.now.receiver, []);
    }
  }

  /** What a run never takes back: resets, an overrun, and datagrams sent. */
  lemma {:induction false} RunGrows(w: World, es: seq<Event>)
    requires WorldShaped(w)
    ensures Run(w, es).resets >= w.resets
    ensures Run(w, es).now.receiver != Overrun ==> w.now.receiver != Overrun
    ensures w.now.uplink.sent <= Run(w, es).now.uplink.sent
    decreases |es|
  {
    if es == [] {
    } else {
      var init, e := es[..|es| - 1], es[|es| - 1];
      RunGrows(w, init);
      OverrunStays(Run(w, init), e);
      SentGrows(Run(w, init).now, e);
    }
  }

  lemma SentGrows(d: Device, e: Event)
    requires Shaped(d)
    ensures d.uplink.sent <= Step(d, e).uplink.sent
  {
  }

  lemma KeptStep(w: World, e: Event, c: byte, since: seq<byte>, kept0: seq<byte>, arrived0: seq<byte>)
    requires WorldShaped(w) && c < UART_FSMC_NUM && !Resets(w.now, e)
    requires w.kept[c] == kept0 + since && w.arrived[c] == arrived0 + since
    ensures var more := if e.UartArrival? && e.chl == c then e.data else [];
            Advance(w, e).kept[c] == kept0 + (since + more) && Advance(w, e).arrived[c] == arrived0 + (since + more)
  {
    assert since + [] == since;
    if e.UartArrival? && e.chl == c {
      Assoc(kept0, since, e.data);
      Assoc(arrived0, since, e.data);
    }
  }

  /** While no reset comes, the bytes kept grow by exactly those that arrive. */
  lemma {:induction false} KeptBetween(w: World, es: seq<Event>, c: byte) returns (since: seq<byte>)
    requires WorldShaped(w) && c < UART_FSMC_NUM && Run(w, es).resets == w.resets
    ensures Run(w, es).kept[c] == w.kept[c] + since && Run(w, es).arrived[c] == w.arrived[c] + since
    decreases |es|
  {
    if es == [] {
      since := [];
    } else {
      var init, e := es[..|es| - 1], es[|es| - 1];
      RunGrows(w, init);
      var before := KeptBetween(w, init, c);
      KeptStep(Run(w, init), e, c, before, w.kept[c], w.arrived[c]);
      since := before + if e.UartArrival? && e.chl == c then e.data else [];
    }
  }

  lemma {:induction false} ReportedConcat(a: seq<seq<byte>>, b: seq<seq<byte>>, c: byte)
    ensures Reported(a + b, c) == Reported(a, c) + Reported(b, c)
    decreases |a|
  {
    if a == [] {
      assert a + b == b;
    } else {
      assert (a + b)[0] == a[0] && (a + b)[1..] == a[1..] + b;
      ReportedConcat(a[1..], b, c);
      Assoc(ReportData(a[0], c), Reported(a[1..], c), Reported(b, c));
    }
  }

  /** Later datagrams add to what a peer has read. */
  lemma PeerReadsOn(sent: seq<seq<byte>>, more: seq<seq<byte>>, c: byte) returns (reported: seq<byte>)
    requires Feed(Hunt, Flatten(sent)).end == Hunt
    ensures PeerReads(sent + more, c) == PeerReads(sent, c) + reported
  {
    FeedIsParse(Flatten(sent));
    FeedIsParse(Flatten(sent + more));
    FlattenConcat(sent, more);
    FeedConcat(Hunt, Flatten(sent), Flatten(more));
    var frames := Feed(Hunt, Flatten(more)).frames;
    ReportedConcat(Parse(Flatten(sent)).frames, frames, c);
    reported := Reported(frames, c);
  }

  lemma BooksBalance(r: seq<byte>, a: seq<byte>, b: seq<byte>, x: seq<byte>, y: seq<byte>)
    requires (r + a) + b == (r + x) + y
    ensures a + b == x + y
  {
    assert (r + a) + b == r + (a + b) && (r + x) + y == r + (x + y);
    assert a + b == (r + (a + b))[|r|..] && x + y == (r + (x + y))[|r|..];
  }

  /** The same for a run from any world with its invariants. */
  lemma UpstreamFrom(w: World, es: seq<Event>, c: byte) returns (since: seq<byte>, reported: seq<byte>)
    requires c < UART_FSMC_NUM && Inv(w)
    requires Run(w, es).now.receiver != Overrun && Run(w, es).resets == w.resets
    ensures var w' := Run(w, es);
            && w'.arrived[c] == w.arrived[c] + since
            && PeerReads(w'.now.uplink.sent, c) == PeerReads(w.now.uplink.sent, c) + reported
            && w.now.uplink.rx[c] + since == reported + w'.now.uplink.rx[c]
  {
    RunGrows(w, es);
    RunInv(w, es);
    since := KeptBetween(w, es, c);
    reported := ReadSince(w, Run(w, es), c);
    KeptIsRead(w, c);
    KeptIsRead(Run(w, es), c);
    BooksBalance(PeerReads(w.now.uplink.sent, c), w.now.uplink.rx[c], since, reported, Run(w, es).now.uplink.rx[c]);
  }

  lemma ReadSince(w: World, w': World, c: byte) returns (reported: seq<byte>)
    requires UpInv(w) && w.now.receiver != Overrun && w.now.uplink.sent <= w'.now.uplink.sent
    ensures PeerReads(w'.now.uplink.sent, c) == PeerReads(w.now.uplink.sent, c) + reported
  {
    var n := |w.now.uplink.sent|;
    assert w'.now.uplink.sent == w.now.uplink.sent + w'.now.uplink.sent[n..];
    reported := PeerReadsOn(w.now.uplink.sent, w'.now.uplink.sent[n..], c);
  }

  /**
   Between any two moments of a run with no reset in between: what waited at the first and what
   arrived since is what was reported since and what waits at the second.
   */
  lemma UpstreamBetween(queryCycle: byte, reports: bool, a: seq<Event>, b: seq<Event>, c: byte)
      returns (since: seq<byte>, reported: seq<byte>)
    requires c < UART_FSMC_NUM && Intact(WorldAfter(queryCycle, reports, a + b))
    requires WorldAfter(queryCycle, reports, a + b).resets == WorldAfter(queryCycle, reports, a).resets
    ensures var w, w' := WorldAfter(queryCycle, reports, a), WorldAfter(queryCycle, reports, a + b);
            && w'.arrived[c] == w.arrived[c] + since
            && PeerReads(w'.now.uplink.sent, c) == PeerReads(w.now.uplink.sent, c) + reported
            && w.now.uplink.rx[c] + since == reported + w'.now.uplink.rx[c]
  {
    RunConcat(Genesis(queryCycle, reports), a, b);
    ReachableInv(queryCycle, reports, a);
    IntactExactly(queryCycle, reports, a + b);
    since, reported := UpstreamFrom(WorldAfter(queryCycle, reports, a), b, c);
  }

  // ----- progress

  /** The bytes that came to channel c, or that a reset left there, since it was polled last. */
  function Since(queryCycle: byte, es: seq<Event>, c: byte): seq<byte>
    requires c < UART_FSMC_NUM
  {
    if es == [] then []
    else
      var init, e := es[..|es| - 1], es[|es| - 1];
      var d := WorldAfter(queryCycle, true, init).now;
      if c in Polls(Doing(d, e)) then []
      else if Resets(d, e) then e.left[c]
      else if e.UartArrival? && e.chl == c then Since(queryCycle, init, c) + e.data
      else Since(queryCycle, init, c)
  }

  /** Whenever channel c is polled, at most 255 bytes have come to it since the last time. */
  ghost predicate Paced(queryCycle: byte, es: seq<Event>, c: byte)
    requires c < UART_FSMC_NUM
  {
    es == [] || (Paced(queryCycle, es[..|es| - 1], c) && PacedAt(queryCycle, es[..|es| - 1], es[|es| - 1], c))
  }

  ghost predicate PacedAt(queryCycle: byte, before: seq<Event>, e: Event, c: byte)
    requires c < UART_FSMC_NUM
  {
    c in Polls(Doing(WorldAfter(queryCycle, true, before).now, e)) ==> |Since(queryCycle, before, c)| <= 255
  }

  /** What a step does to the queue of channel c. */
  lemma QueueOfChannel(d: Device, e: Event, c: byte)
    requires Shaped(d) && c < UART_FSMC_NUM && d.reports
    ensures var q := d.uplink.rx[c];
            Step(d, e).uplink.rx[c] ==
            if c in Polls(Doing(d, e)) then q[Receivable(q, MAX_UART_DATA_SIZE)..]
            else if Resets(d, e) then e.left[c]
            else if e.UartArrival? && e.chl == c then q + e.data
            else q
  {
  }

  lemma {:induction false} QueueIsSince(queryCycle: byte, es: seq<Event>, c: byte)
    requires c < UART_FSMC_NUM && Paced(queryCycle, es, c)
    ensures WorldAfter(queryCycle, true, es).now.uplink.rx[c] == Since(queryCycle, es, c)
    ensures WorldAfter(queryCycle, true, es).now.reports
    decreases |es|
  {
    if es == [] {
    } else {
      var n := |es| - 1;
      QueueIsSince(queryCycle, es[..n], c);
      QueueOfChannel(WorldAfter(queryCycle, true, es[..n]).now, es[n], c);
    }
  }

  /**
   Progress: if at most 255 bytes come to a channel between its polls, no byte waits longer than
   to the next poll; what waits are exactly the bytes that came since the last one.
   */
  lemma NoByteWaitsLonger(queryCycle: byte, es: seq<Event>, c: byte)
    requires c < UART_FSMC_NUM && Paced(queryCycle, es, c) && Intact(WorldAfter(queryCycle, true, es))
    ensures var w := WorldAfter(queryCycle, true, es);
            && w.kept[c] == PeerReads(w.now.uplink.sent, c) + Since(queryCycle, es, c)
            && (w.resets == 0 ==> w.kept[c] == w.arrived[c])
  {
    QueueIsSince(queryCycle, es, c);
    Upstream(queryCycle, true, es, c);
  }
}
