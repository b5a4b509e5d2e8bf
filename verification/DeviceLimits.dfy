/**
 Where the device falls short of what one would expect of it: exactly when no command is announced
 any more, and exactly when the loss of the link is never announced.
 */
module DeviceLimits {
  import opened Bytes
  import opened MsgInterface
  import opened Console
  import opened Timer
  import opened EventLoop
  import opened DeviceTheorems

  // ----- working off what is pending

  /** The most pieces of main loop work a message can still cause, its own taking included. */
  function MsgWeight(m: Msg): nat {
    if m.msg == MSG_WORKTICK then 8 else 4
  }

  function RingWeight(q: seq<Msg>): nat {
    if q == [] then 0 else MsgWeight(q[0]) + RingWeight(q[1..])
  }

  /** A look at the link may lead to an announcement, and that to one more message. */
  function ActionWeight(a: Action): nat {
    if a == CheckLink then 7 else if a == AnnounceLoss then 6 else 1
  }

  function JobWeight(job: seq<Action>): nat {
    if job == [] then 0 else ActionWeight(job[0]) + JobWeight(job[1..])
  }

  function Weight(d: Device): nat {
    RingWeight(d.ring) + JobWeight(d.job)
  }

  lemma {:induction false} RingWeightSnoc(q: seq<Msg>, m: Msg)
    ensures RingWeight(q + [m]) == RingWeight(q) + MsgWeight(m)
  {
    if q == [] {
      assert q + [m] == [m] && [m][1..] == [];
    } else {
      assert (q + [m])[0] == q[0] && (q + [m])[1..] == q[1..] + [m];
      RingWeightSnoc(q[1..], m);
    }
  }

  lemma PairWeight(a: Action, b: Action)
    ensures JobWeight([a, b]) == ActionWeight(a) + ActionWeight(b)
  {
    assert [a, b][1..] == [b] && [b][1..] == [];
    assert JobWeight([b]) == ActionWeight(b);
  }

  lemma ScriptWeight(m: Msg)
    ensures JobWeight(Script(m)) < MsgWeight(m)
  {
    var s := Script(m);
    if |s| == 3 {
      PairWeight(Pulse(1), Pulse(0));
      assert s[1..] == [Pulse(1), Pulse(0)];
    } else if |s| == 2 {
      PairWeight(s[0], s[1]);
      assert s == [s[0], s[1]];
    } else if |s| == 1 {
      assert s[1..] == [];
    }
  }

  /** Whatever the link, a piece of main loop work leaves less to do. */
  lemma MainLightens(d: Device, linkDown: bool)
    requires Shaped(d)
    ensures Weight(d) == 0 ==> Weight(Step(d, Main(linkDown))) == 0
    ensures Weight(d) > 0 ==> Weight(Step(d, Main(linkDown))) < Weight(d)
  {
    var e := Main(linkDown);
    assert d.ring[0..] == d.ring;
    if Popped(d, e) != [] {
      ScriptWeight(d.ring[0]);
    } else if d.job != [] {
      PieceLightens(d, linkDown);
    }
  }

  lemma PieceLightens(d: Device, linkDown: bool)
    requires Shaped(d) && d.job != []
    ensures Weight(Step(d, Main(linkDown))) < Weight(d)
  {
    JobAfterPiece(d, linkDown);
    RingAfterPiece(d, linkDown);
  }

  lemma JobAfterPiece(d: Device, linkDown: bool)
    requires d.job != []
    ensures JobWeight(NextJob(d, Main(linkDown))) ==
            JobWeight(d.job[1..]) + if LosesLink(d, Main(linkDown)) then ActionWeight(AnnounceLoss) else 0
  {
    var rest := d.job[1..];
    assert [] + rest == rest;
    assert ([AnnounceLoss] + rest)[1..] == rest;
  }

  lemma RingAfterPiece(d: Device, linkDown: bool)
    requires Shaped(d) && d.job != []
    ensures RingWeight(NextRing(d, Main(linkDown))) <=
            RingWeight(d.ring) + if d.job[0] == AnnounceLoss then MsgWeight(Msg(MSG_LINK_DOWN, 0)) else 0
  {
    assert d.ring[0..] == d.ring;
    RingWeightSnoc(d.ring, Msg(MSG_LINK_DOWN, 0));
  }

  /** Nothing but main loop work happens, with whatever link. */
  ghost predicate MainOnly(es: seq<Event>) {
    forall k :: 0 <= k < |es| ==> es[k].Main?
  }

  lemma {:induction false} MainRunLightens(w: World, es: seq<Event>)
    requires WorldShaped(w) && MainOnly(es)
    ensures Weight(Run(w, es).now) <= if |es| < Weight(w.now) then Weight(w.now) - |es| else 0
    decreases |es|
  {
    if es == [] {
    } else {
      var init, e := es[..|es| - 1], es[|es| - 1];
      MainRunLightens(w, init);
      MainLightens(Run(w, init).now, e.linkDown);
    }
  }

  /** The most there can be to do: 64 messages and a look at the link. */
  const MOST_WORK: nat := 8 * MSG_MAX_LEN + 7

  lemma {:induction false} RingWeightBound(q: seq<Msg>)
    ensures RingWeight(q) <= 8 * |q|
  {
    if q == [] {
    } else {
      RingWeightBound(q[1..]);
    }
  }

  lemma JobWeightBound(job: seq<Action>)
    requires JobShaped(job)
    ensures JobWeight(job) <= 7
  {
    if |job| == 1 {
      assert job[1..] == [];
    } else if |job| == 2 {
      PairWeight(job[0], job[1]);
      assert job == [job[0], job[1]];
    } else if |job| == 3 {
      PairWeight(job[1], job[2]);
      assert job[1..] == [job[1], job[2]];
    }
  }

  lemma WorkIsBounded(w: World)
    requires Inv(w)
    ensures Weight(w.now) <= MOST_WORK
  {
    RingWeightBound(w.now.ring);
    JobWeightBound(w.now.job);
  }

  /**
   Left to itself the main loop gets everything done: when nothing comes in between, ring and
   current handler are empty once it has done as many pieces of work as they weigh, however the
   link changes meanwhile; and they never weigh more than 519.
   */
  lemma Drain(w: World, es: seq<Event>)
    requires Inv(w) && MainOnly(es)
    ensures Weight(w.now) <= MOST_WORK
    ensures |es| >= Weight(w.now) ==> Run(w, es).now.ring == [] && Run(w, es).now.job == []
  {
    WorkIsBounded(w);
    MainRunLightens(w, es);
    AtRest(Run(w, es).now);
  }

  lemma AtRest(d: Device)
    ensures Weight(d) == 0 ==> d.ring == [] && d.job == []
  {
  }

  /** What main loop work with the link up leaves alone: the console's receiver, the messages of commands. */
  ghost predicate Undisturbed(w: World, w': World) {
    && w'.ticks == w.ticks && w'.now.cycle == w.now.cycle
    && w'.now.console.line == w.now.console.line && w'.now.console.latched == w.now.console.latched
    && Only(w'.accepted, MSG_CONSOLE_COMMAND) == Only(w.accepted, MSG_CONSOLE_COMMAND)
    && Only(w'.refused, MSG_CONSOLE_COMMAND) == Only(w.refused, MSG_CONSOLE_COMMAND)
    && (w.now.link ==> w'.now.link)
  }

  lemma MainDisturbsNothing(w: World)
    requires WorldShaped(w)
    ensures Undisturbed(w, Advance(w, Main(false)))
  {
    var pub := Published(w.now, Main(false));
    KindPublished(w.now, Main(false), MSG_CONSOLE_COMMAND);
    OnlyConcat(w.accepted, pub, MSG_CONSOLE_COMMAND);
    OnlyConcat(w.refused, pub, MSG_CONSOLE_COMMAND);
    assert Only(w.accepted, MSG_CONSOLE_COMMAND) + [] == Only(w.accepted, MSG_CONSOLE_COMMAND);
    assert Only(w.refused, MSG_CONSOLE_COMMAND) + [] == Only(w.refused, MSG_CONSOLE_COMMAND);
  }

  lemma StillUndisturbed(w: World, w1: World)
    requires WorldShaped(w1) && Undisturbed(w, w1)
    ensures Undisturbed(w, Advance(w1, Main(false)))
  {
    MainDisturbsNothing(w1);
  }

  /** n pieces of main loop work with the link up. */
  function Work(n: nat): (es: seq<Event>)
    ensures |es| == n && MainOnly(es)
  {
    if n == 0 then [] else Work(n - 1) + [Main(false)]
  }

  lemma {:induction false} WorkRun(w: World, n: nat)
    requires WorldShaped(w)
    ensures Undisturbed(w, Run(w, Work(n)))
  {
    if n == 0 {
    } else {
      WorkRun(w, n - 1);
      StillUndisturbed(w, Run(w, Work(n - 1)));
      RunSnoc(w, Work(n - 1), Main(false));
    }
  }

  /** So some main loop work brings the device to rest. */
  lemma ComeToRest(w: World) returns (es: seq<Event>)
    requires Inv(w)
    ensures Inv(Run(w, es)) && Undisturbed(w, Run(w, es))
    ensures Run(w, es).now.ring == [] && Run(w, es).now.job == []
  {
    es := Work(Weight(w.now));
    WorkRun(w, Weight(w.now));
    Drain(w, es);
    RunInv(w, es);
  }

  // ----- when the console falls silent

  /**
   The receiver is latched, or all eight places hold commands of which no message is left: in a
   reachable state their messages were refused.
   */
  predicate Deaf(d: Device) {
    || d.console.latched
    || (|d.console.queue| == CMD_MAX_CNT && Only(d.ring, MSG_CONSOLE_COMMAND) == [] && FetchCommand !in d.job)
  }

  lemma {:induction false} CountIsMembership(job: seq<Action>, a: Action)
    ensures Count(job, a) == 0 <==> a !in job
  {
    if job == [] {
    } else {
      CountIsMembership(job[1..], a);
      assert job == [job[0]] + job[1..];
    }
  }

  /** ... which the history shows as eight refusals. */
  lemma DeafIsRefusals(w: World)
    requires ConsoleInv(w)
    ensures Deaf(w.now) <==> w.now.console.latched || |Only(w.refused, MSG_CONSOLE_COMMAND)| == CMD_MAX_CNT
  {
    CountIsMembership(w.now.job, FetchCommand);
  }

  lemma NoCommandPublished(d: Device, e: Event)
    requires d.cycle > 0 && (d.console.latched || |d.console.queue| >= CMD_MAX_CNT)
    ensures Only(Published(d, e), MSG_CONSOLE_COMMAND) == []
  {
    KindPublished(d, e, MSG_CONSOLE_COMMAND);
  }

  lemma DeafStep(w: World, e: Event)
    requires Inv(w) && Inv(Advance(w, e)) && Deaf(w.now)
    ensures Deaf(Advance(w, e).now)
    ensures Only(Advance(w, e).accepted, MSG_CONSOLE_COMMAND) == Only(w.accepted, MSG_CONSOLE_COMMAND)
  {
    var pub := Published(w.now, e);
    NoCommandPublished(w.now, e);
    OnlyConcat(w.accepted, pub, MSG_CONSOLE_COMMAND);
    OnlyConcat(w.refused, pub, MSG_CONSOLE_COMMAND);
    DeafIsRefusals(w);
    DeafIsRefusals(Advance(w, e));
  }

  lemma {:induction false} DeafRun(w: World, es: seq<Event>)
    requires Inv(w) && Deaf(w.now)
    ensures Deaf(Run(w, es).now) && Only(Run(w, es).accepted, MSG_CONSOLE_COMMAND) == Only(w.accepted, MSG_CONSOLE_COMMAND)
    decreases |es|
  {
    if es == [] {
    } else {
      DeafRun(w, es[..|es| - 1]);
      RunInv(w, es[..|es| - 1]);
      RunInv(w, es);
      DeafStep(Run(w, es[..|es| - 1]), es[|es| - 1]);
    }
  }

  /** An end of line that finds room in queue and ring is announced. */
  lemma LineAnnounced(w: World)
    requires Inv(w) && w.now.ring == [] && !w.now.console.latched && w.now.console.line.cr
    requires |w.now.console.queue| < CMD_MAX_CNT
    ensures Only(Advance(w, ConsoleByte(LF)).accepted, MSG_CONSOLE_COMMAND)
            == Only(w.accepted, MSG_CONSOLE_COMMAND) + [Msg(MSG_CONSOLE_COMMAND, 0)]
  {
    OnlyConcat(w.accepted, [Msg(MSG_CONSOLE_COMMAND, 0)], MSG_CONSOLE_COMMAND);
    OnlyOne(Msg(MSG_CONSOLE_COMMAND, 0), MSG_CONSOLE_COMMAND);
  }

  lemma CrReceived(w: World)
    requires Inv(w) && w.now.ring == [] && !w.now.console.latched && !w.now.console.line.cr
    ensures var w' := Advance(w, ConsoleByte(CR));
            && w'.now.ring == [] && !w'.now.console.latched && w'.now.console.line.cr
            && w'.now.console.queue == w.now.console.queue && w'.accepted == w.accepted
  {
  }

  lemma RunTwo(w: World, es: seq<Event>, a: Event, b: Event)
    requires WorldShaped(w)
    ensures Run(w, es + [a] + [b]) == Advance(Advance(Run(w, es), a), b)
  {
    RunSnoc(w, es, a);
    RunSnoc(w, es + [a], b);
  }

  /** While the console is not deaf some continuation of the run announces a command. */
  lemma CanBeHeard(w: World) returns (es: seq<Event>)
    requires Inv(w) && !Deaf(w.now)
    ensures Only(Run(w, es).accepted, MSG_CONSOLE_COMMAND) != Only(w.accepted, MSG_CONSOLE_COMMAND)
  {
    var idle := ComeToRest(w);
    var w1 := Run(w, idle);
    DeafIsRefusals(w);
    RoomWhenIdle(w1);
    if w1.now.console.line.cr {
      LineAnnounced(w1);
      RunSnoc(w, idle, ConsoleByte(LF));
      es := idle + [ConsoleByte(LF)];
    } else {
      CrReceived(w1);
      StepInv(w1, ConsoleByte(CR));
      LineAnnounced(Advance(w1, ConsoleByte(CR)));
      RunTwo(w, idle, ConsoleByte(CR), ConsoleByte(LF));
      es := idle + [ConsoleByte(CR)] + [ConsoleByte(LF)];
    }
  }

  lemma RoomWhenIdle(w: World)
    requires Inv(w) && w.now.ring == [] && w.now.job == [] && |Only(w.refused, MSG_CONSOLE_COMMAND)| != CMD_MAX_CNT
    ensures |w.now.console.queue| < CMD_MAX_CNT
  {
  }

  /**
   No continuation of a run announces another command exactly when the line receiver is latched
   or eight commands wait of which no message is left.
   */
  lemma ConsoleSilentExactly(w: World)
    requires Inv(w)
    ensures (forall es: seq<Event> ::
               Only(Run(w, es).accepted, MSG_CONSOLE_COMMAND) == Only(w.accepted, MSG_CONSOLE_COMMAND))
            <==> Deaf(w.now)
  {
    if Deaf(w.now) {
      forall es: seq<Event>
        ensures Only(Run(w, es).accepted, MSG_CONSOLE_COMMAND) == Only(w.accepted, MSG_CONSOLE_COMMAND)
      {
        DeafRun(w, es);
      }
    } else {
      var es := CanBeHeard(w);
    }
  }

  function Buttons(n: nat): seq<Event> {
    if n == 0 then [] else Buttons(n - 1) + [Button]
  }

  /** The button fills the ring and changes nothing else. */
  ghost predicate Filled(w: World, n: nat, w': World) {
    && |w'.now.ring| == |w.now.ring| + n
    && w'.now.job == w.now.job && w'.now.console == w.now.console && w'.now.link == w.now.link
    && w'.refused == w.refused
  }

  lemma FilledMore(w: World, n: nat, w': World)
    requires WorldShaped(w') && Filled(w, n, w') && |w.now.ring| + n < MSG_MAX_LEN
    ensures Filled(w, n + 1, Advance(w', Button))
  {
  }

  lemma {:induction false} ButtonsFillTheRing(w: World, n: nat)
    requires WorldShaped(w) && |w.now.ring| + n <= MSG_MAX_LEN
    ensures Filled(w, n, Run(w, Buttons(n)))
  {
    if n == 0 {
    } else {
      ButtonsFillTheRing(w, n - 1);
      FilledMore(w, n - 1, Run(w, Buttons(n - 1)));
      RunSnoc(w, Buttons(n - 1), Button);
    }
  }

  lemma CrAtFullRing(w: World)
    requires WorldShaped(w) && w.now.console.line == BLANK && !w.now.console.latched
    ensures var w' := Advance(w, ConsoleByte(CR));
            && w'.now.ring == w.now.ring && w'.refused == w.refused
            && w'.now.console == ConsoleState(Line([], true), false, w.now.console.queue)
  {
  }

  lemma LfAtFullRing(w: World)
    requires WorldShaped(w) && |w.now.ring| == MSG_MAX_LEN && |w.now.console.queue| < CMD_MAX_CNT
    requires w.now.console.line == Line([], true) && !w.now.console.latched
    ensures var w' := Advance(w, ConsoleByte(LF));
            && w'.now.ring == w.now.ring && w'.refused == w.refused + [Msg(MSG_CONSOLE_COMMAND, 0)]
            && w'.now.console == ConsoleState(BLANK, false, w.now.console.queue + [[]])
  {
  }

  /** A line typed while 64 messages wait is kept without its message. */
  lemma LineAtFullRing(w: World)
    requires WorldShaped(w) && |w.now.ring| == MSG_MAX_LEN && |w.now.console.queue| < CMD_MAX_CNT
    requires w.now.console.line == BLANK && !w.now.console.latched
    ensures var w' := Advance(Advance(w, ConsoleByte(CR)), ConsoleByte(LF));
            && w'.now.ring == w.now.ring && w'.refused == w.refused + [Msg(MSG_CONSOLE_COMMAND, 0)]
            && w'.now.console == ConsoleState(BLANK, false, w.now.console.queue + [[]])
  {
    CrAtFullRing(w);
    LfAtFullRing(Advance(w, ConsoleByte(CR)));
  }

  lemma OneMoreRefused(refused: seq<Msg>)
    ensures |Only(refused + [Msg(MSG_CONSOLE_COMMAND, 0)], MSG_CONSOLE_COMMAND)| == |Only(refused, MSG_CONSOLE_COMMAND)| + 1
  {
    OnlyConcat(refused, [Msg(MSG_CONSOLE_COMMAND, 0)], MSG_CONSOLE_COMMAND);
    OnlyOne(Msg(MSG_CONSOLE_COMMAND, 0), MSG_CONSOLE_COMMAND);
  }

  /** n lines typed at a full ring: all are kept, and none has its message. */
  ghost predicate Unheard(w: World, n: nat) {
    && |w.now.ring| == MSG_MAX_LEN
    && w.now.console.line == BLANK && !w.now.console.latched && |w.now.console.queue| == n
    && |Only(w.refused, MSG_CONSOLE_COMMAND)| == n
  }

  lemma UnheardLine(w: World, n: nat)
    requires WorldShaped(w) && Unheard(w, n) && n < CMD_MAX_CNT
    ensures Unheard(Advance(Advance(w, ConsoleByte(CR)), ConsoleByte(LF)), n + 1)
  {
    LineAtFullRing(w);
    OneMoreRefused(w.refused);
  }

  lemma {:induction false} LinesAtFullRing(w: World, n: nat) returns (es: seq<Event>)
    requires WorldShaped(w) && Unheard(w, 0) && n <= CMD_MAX_CNT
    ensures Unheard(Run(w, es), n)
  {
    if n == 0 {
      es := [];
    } else {
      var before := LinesAtFullRing(w, n - 1);
      es := UnheardAfter(w, before, n - 1);
    }
  }

  lemma UnheardAfter(w: World, before: seq<Event>, n: nat) returns (es: seq<Event>)
    requires WorldShaped(w) && Unheard(Run(w, before), n) && n < CMD_MAX_CNT
    ensures Unheard(Run(w, es), n + 1)
  {
    es := before + [ConsoleByte(CR)] + [ConsoleByte(LF)];
    RunTwo(w, before, ConsoleByte(CR), ConsoleByte(LF));
    UnheardLine(Run(w, before), n);
  }

  /** From boot, a run that leaves the console silent with its receiver not latched: eight refusals. */
  lemma SilenceReachable(queryCycle: byte, reports: bool) returns (es: seq<Event>)
    ensures var w := WorldAfter(queryCycle, reports, es);
            Inv(w) && Deaf(w.now) && !w.now.console.latched
  {
    var g := Genesis(queryCycle, reports);
    ButtonsFillTheRing(g, MSG_MAX_LEN);
    var lines := LinesAtFullRing(Run(g, Buttons(MSG_MAX_LEN)), CMD_MAX_CNT);
    RunConcat(g, Buttons(MSG_MAX_LEN), lines);
    es := Buttons(MSG_MAX_LEN) + lines;
    ReachableInv(queryCycle, reports, es);
    DeafIsRefusals(WorldAfter(queryCycle, reports, es));
  }

  // ----- when the loss of the link goes unannounced

  /** No loss is left to announce and the link counts as lost. */
  ghost predicate LossSettled(w: World) {
    !w.now.link && Count(w.now.job, AnnounceLoss) == 0
  }

  lemma SettledStep(w: World, e: Event)
    requires WorldShaped(w) && LossSettled(w) && (e.Main? ==> e.linkDown)
    ensures LossSettled(Advance(w, e))
    ensures Only(Advance(w, e).accepted, MSG_LINK_DOWN) == Only(w.accepted, MSG_LINK_DOWN)
  {
    JobCount(w.now, e, AnnounceLoss);
    NoLossPublished(w.now, e);
    OnlyConcat(w.accepted, Published(w.now, e), MSG_LINK_DOWN);
    assert Only(w.accepted, MSG_LINK_DOWN) + [] == Only(w.accepted, MSG_LINK_DOWN);
  }

  lemma NoLossPublished(d: Device, e: Event)
    requires d.cycle > 0 && Count(d.job, AnnounceLoss) == 0
    ensures Only(Published(d, e), MSG_LINK_DOWN) == []
  {
    KindPublished(d, e, MSG_LINK_DOWN);
  }

  lemma {:induction false} SettledRun(w: World, es: seq<Event>)
    requires Inv(w) && LossSettled(w)
    requires forall k :: 0 <= k < |es| && es[k].Main? ==> es[k].linkDown
    ensures LossSettled(Run(w, es)) && Only(Run(w, es).accepted, MSG_LINK_DOWN) == Only(w.accepted, MSG_LINK_DOWN)
    decreases |es|
  {
    if es == [] {
    } else {
      SettledRun(w, es[..|es| - 1]);
      RunInv(w, es[..|es| - 1]);
      SettledStep(Run(w, es[..|es| - 1]), es[|es| - 1]);
    }
  }

  /** The announcement itself: accepted exactly when the ring has room at that moment. */
  lemma AnnouncementStep(w: World)
    requires WorldShaped(w) && w.now.job == [AnnounceLoss] && !w.now.link
    ensures LossSettled(Advance(w, Main(true)))
    ensures Only(Advance(w, Main(true)).accepted, MSG_LINK_DOWN) ==
            Only(w.accepted, MSG_LINK_DOWN) + if |w.now.ring| < MSG_MAX_LEN then [Msg(MSG_LINK_DOWN, 0)] else []
  {
    AnnouncementJob(w.now);
    OnlyConcat(w.accepted, [Msg(MSG_LINK_DOWN, 0)], MSG_LINK_DOWN);
    OnlyOne(Msg(MSG_LINK_DOWN, 0), MSG_LINK_DOWN);
    assert Only(w.accepted, MSG_LINK_DOWN) + [] == Only(w.accepted, MSG_LINK_DOWN);
  }

  lemma AnnouncementJob(d: Device)
    requires d.cycle > 0 && d.job == [AnnounceLoss]
    ensures NextJob(d, Main(true)) == [] && NextLink(d, Main(true)) == d.link
    ensures Popped(d, Main(true)) == [] && Published(d, Main(true)) == [Msg(MSG_LINK_DOWN, 0)]
  {
    assert [] + d.job[1..] == [];
  }

  /**
   A loss that was found is never announced while the link stays down exactly when the ring is
   full at the moment of the announcement, which was refilled since the message was taken.
   */
  lemma LossUnannouncedExactly(w: World, es: seq<Event>)
    requires Inv(w) && w.now.job == [AnnounceLoss]
    requires forall k :: 0 <= k < |es| && es[k].Main? ==> es[k].linkDown
    ensures Only(Run(w, [Main(true)] + es).accepted, MSG_LINK_DOWN) == Only(w.accepted, MSG_LINK_DOWN)
            <==> |w.now.ring| == MSG_MAX_LEN
  {
    assert Count(w.now.job, AnnounceLoss) > 0;
    AnnouncementStep(w);
    StepInv(w, Main(true));
    SettledRun(Advance(w, Main(true)), es);
    RunCons(w, Main(true), es);
  }

  /** The counter stands where the number of interrupts puts it. */
  predicate InTime(w: World) {
    WorldShaped(w) && w.now.timerCnt == CountAfter(w.now.cycle, w.ticks)
  }

  lemma TimerStep(w: World)
    requires InTime(w) && |w.now.ring| + |Tick(w.now.timerCnt, w.now.cycle)| <= MSG_MAX_LEN
    ensures var w' := Advance(w, TimerTick);
            w'.now.ring == w.now.ring + Tick(w.now.timerCnt, w.now.cycle)
  {
    TurnoverSplit(w.now.ring, 0, Published(w.now, TimerTick));
  }

  /** What the n interrupts after the first t ask for. */
  function TicksBetween(cycle: nat, t: nat, n: nat): seq<Msg>
    requires cycle > 0
  {
    if n == 0 then [] else TicksBetween(cycle, t, n - 1) + Tick(CountAfter(cycle, t + n - 1), cycle)
  }

  lemma {:induction false} TicksSplit(cycle: nat, t: nat, n: nat)
    requires cycle > 0
    ensures TicksAfter(cycle, t + n) == TicksAfter(cycle, t) + TicksBetween(cycle, t, n)
  {
    if n == 0 {
      assert TicksAfter(cycle, t) + [] == TicksAfter(cycle, t);
    } else {
      TicksSplit(cycle, t, n - 1);
      Assoc(TicksAfter(cycle, t), TicksBetween(cycle, t, n - 1), Tick(CountAfter(cycle, t + n - 1), cycle));
    }
  }

  /** n timer interrupts after w, which had an empty ring, and nothing else. */
  ghost predicate Ran(w: World, n: nat, w': World)
    requires w.now.cycle > 0
  {
    && InTime(w') && w'.ticks == w.ticks + n
    && w'.now.cycle == w.now.cycle && w'.now.job == w.now.job && w'.now.link == w.now.link
    && w'.now.ring == TicksBetween(w.now.cycle, w.ticks, n)
  }

  lemma RanOneMore(w: World, n: nat, w': World)
    requires w.now.cycle > 0 && Ran(w, n, w')
    requires |TicksBetween(w.now.cycle, w.ticks, n + 1)| <= MSG_MAX_LEN
    ensures Ran(w, n + 1, Advance(w', TimerTick))
  {
    TimerStep(w');
  }

  /** Interrupts of the timer alone fill an empty ring with the ticks that fall due. */
  lemma {:induction false} TimerRun(w: World, n: nat) returns (es: seq<Event>)
    requires InTime(w) && w.now.ring == [] && RoomForTicks(w, n)
    ensures Ran(w, n, Run(w, es))
  {
    es := RanNothing(w);
    for k := 0 to n
      invariant Ran(w, k, Run(w, es))
    {
      RoomEarlier(w, k + 1, n);
      es := RanAfter(w, k, es);
    }
  }

  ghost predicate RoomForTicks(w: World, n: nat)
    requires w.now.cycle > 0
  {
    |TicksBetween(w.now.cycle, w.ticks, n)| <= MSG_MAX_LEN
  }

  lemma RanNothing(w: World) returns (es: seq<Event>)
    requires InTime(w) && w.now.ring == []
    ensures Ran(w, 0, Run(w, es))
  {
    es := [];
  }

  lemma {:induction false} RoomEarlier(w: World, k: nat, n: nat)
    requires w.now.cycle > 0 && k <= n && RoomForTicks(w, n)
    ensures RoomForTicks(w, k)
    decreases n - k
  {
    if k == n {
    } else {
      RoomEarlier(w, k, n - 1);
    }
  }

  lemma RanAfter(w: World, n: nat, before: seq<Event>) returns (es: seq<Event>)
    requires WorldShaped(w) && Ran(w, n, Run(w, before)) && RoomForTicks(w, n + 1)
    ensures Ran(w, n + 1, Run(w, es))
  {
    es := before + [TimerTick];
    RunSnoc(w, before, TimerTick);
    RanOneMore(w, n, Run(w, before));
  }

  lemma OneRound(c: nat, k: nat)
    ensures c * (k + 1) + 1 == (c * k + 1) + c
  {
  }

  lemma FirstTicks(cycle: nat, t: nat, k: nat)
    requires cycle > 0 && t == cycle * k + 1
    ensures TicksAfter(cycle, t) == Schedule(k + 1)
  {
    RoundsBegun(cycle, t, k);
    TickSchedule(cycle, t);
  }

  lemma RoundsBegun(c: nat, t: nat, k: nat)
    requires c > 0 && t == c * k + 1
    ensures CeilDiv(t, c) == k + 1
  {
    OneRound(c, k);
    Quotient(t + c - 1, c, k + 1, 0);
  }

  /** The link is looked at, found lost, and before the announcement the ring fills up. */
  lemma LossMeetsFullRing(w: World)
    requires WorldShaped(w) && w.now.ring == [Msg(MSG_WORKTICK, 9)] && w.now.job == [] && w.now.link
    ensures var d := Run(w, [Main(false)] + [Main(true)] + Buttons(MSG_MAX_LEN)).now;
            d.job == [AnnounceLoss] && |d.ring| == MSG_MAX_LEN
  {
    var w1 := Advance(w, Main(false));
    assert w1.now.job == [CheckLink] && w1.now.ring == [] && w1.now.link;
    var w2 := Advance(w1, Main(true));
    assert [AnnounceLoss] + w1.now.job[1..] == [AnnounceLoss];
    assert w2.now.job == [AnnounceLoss] && w2.now.ring == [];
    assert [] + [Main(false)] == [Main(false)];
    RunTwo(w, [], Main(false), Main(true));
    ButtonsFillTheRing(w2, MSG_MAX_LEN);
    RunConcat(w, [Main(false)] + [Main(true)], Buttons(MSG_MAX_LEN));
  }

  /** After the k-th round of interrupts, with nothing pending, one round brings the next tick alone. */
  lemma NextTickAlone(w: World, k: nat) returns (es: seq<Event>)
    requires InTime(w) && w.now.ring == [] && w.ticks == w.now.cycle * k + 1
    ensures var d := Run(w, es).now;
            d.ring == [Msg(MSG_WORKTICK, (k + 1) % PHASES)] && d.job == w.now.job && d.link == w.now.link
  {
    OneRound(w.now.cycle, k);
    FirstTicks(w.now.cycle, w.ticks, k);
    FirstTicks(w.now.cycle, w.ticks + w.now.cycle, k + 1);
    NextTickAfter(w.now.cycle, w.ticks, k);
    es := TimerRun(w, w.now.cycle);
  }

  lemma NextTickAfter(c: nat, t: nat, k: nat)
    requires c > 0 && TicksAfter(c, t) == Schedule(k + 1) && TicksAfter(c, t + c) == Schedule(k + 1 + 1)
    ensures TicksBetween(c, t, c) == [Msg(MSG_WORKTICK, (k + 1) % PHASES)]
  {
    TicksSplit(c, t, c);
    LastOfSchedule(k + 1, TicksBetween(c, t, c));
  }

  lemma LastOfSchedule(k: nat, more: seq<Msg>)
    requires Schedule(k + 1) == Schedule(k) + more
    ensures more == [Msg(MSG_WORKTICK, k % PHASES)]
  {
    assert |more| == 1 && more[0] == Schedule(k + 1)[k];
  }

  /** From boot, the first nine ticks worked off and nothing pending. */
  lemma NineTicksDone(g: World) returns (es: seq<Event>)
    requires Inv(g) && g.now.ring == [] && g.ticks == 0 && g.now.link
    ensures var w := Run(g, es);
            && Inv(w) && w.now.ring == [] && w.now.job == [] && w.now.link
            && w.now.cycle == g.now.cycle && w.ticks == g.now.cycle * 8 + 1
  {
    var n := g.now.cycle * 8 + 1;
    NineTicksFit(g.now.cycle);
    var full := TimerRun(g, n);
    RunInv(g, full);
    es := ThenRest(g, full);
  }

  lemma NineTicksFit(cycle: nat)
    requires cycle > 0
    ensures TicksBetween(cycle, 0, cycle * 8 + 1) == Schedule(9)
  {
    var n := cycle * 8 + 1;
    FirstTicks(cycle, n, 8);
    TicksSplit(cycle, 0, n);
    assert TicksAfter(cycle, 0) == [];
    assert [] + TicksBetween(cycle, 0, n) == TicksBetween(cycle, 0, n);
  }

  /** A run continued by main loop work until nothing is left. */
  lemma ThenRest(g: World, before: seq<Event>) returns (es: seq<Event>)
    requires WorldShaped(g) && Inv(Run(g, before))
    ensures var w := Run(g, es);
            && Inv(w) && w.now.ring == [] && w.now.job == [] && Undisturbed(Run(g, before), w)
  {
    var idle := ComeToRest(Run(g, before));
    RunConcat(g, before, idle);
    es := before + idle;
  }

  /** From boot, a run up to the moment at which the announcement of a loss meets a full ring. */
  lemma LossUnannouncedReachable(queryCycle: byte, reports: bool) returns (es: seq<Event>)
    ensures var w := WorldAfter(queryCycle, reports, es);
            Inv(w) && w.now.job == [AnnounceLoss] && |w.now.ring| == MSG_MAX_LEN
  {
    var g := Genesis(queryCycle, reports);
    GenesisInv(queryCycle, reports);
    var es1 := NineTicksDone(g);
    var w1 := Run(g, es1);
    var es2 := NextTickAlone(w1, 8);
    LossMeetsFullRing(Run(w1, es2));
    var last := [Main(false)] + [Main(true)] + Buttons(MSG_MAX_LEN);
    RunConcat(g, es1, es2);
    RunConcat(g, es1 + es2, last);
    es := es1 + es2 + last;
    ReachableInv(queryCycle, reports, es);
  }
}
