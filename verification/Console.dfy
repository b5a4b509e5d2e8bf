/** The serial console: its line receiver and its ring of eight commands. */
module Console {
  import opened Bytes
  import opened MsgInterface
  import opened Ring

  const COMMAND_MAX_SIZE: nat := 20
  const CMD_MAX_CNT: nat := 8
  const CR: byte := 0x0d
  const LF: byte := 0x0a

  // ----- lines

  /** Content of the line being received, and whether its 0d has come. */
  datatype Line = Line(content: seq<byte>, cr: bool)

  const BLANK: Line := Line([], false)

  /** What one byte does to the line. */
  function NextLine(l: Line, b: byte): Line {
    if l.cr then BLANK
    else if b == CR then l.(cr := true)
    else if |l.content| < COMMAND_MAX_SIZE then l.(content := l.content + [b])
    else l
  }

  /** The command a byte completes, if any. */
  function Completed(l: Line, b: byte): seq<seq<byte>> {
    if l.cr && b == LF then [l.content] else []
  }

  datatype Scan = Scan(lines: seq<seq<byte>>, rest: Line)

  function ClipLine(s: seq<byte>): seq<byte> {
    if |s| <= COMMAND_MAX_SIZE then s else s[..COMMAND_MAX_SIZE]
  }

  function FindCr(s: seq<byte>): (i: nat)
    ensures i <= |s| && CR !in s[..i]
    ensures i < |s| ==> s[i] == CR
  {
    if s == [] || s[0] == CR then 0
    else
      var i := FindCr(s[1..]) + 1;
      assert s[..i] == [s[0]] + s[1..][..i - 1];
      i
  }

  /**
   The lines of a byte stream: content up to a 0d, clipped to 20 bytes, kept if the next byte
   is 0a and dropped together with that byte otherwise.
   */
  function ScanLines(s: seq<byte>): Scan
    decreases |s|
  {
    var i := FindCr(s);
    if i == |s| then Scan([], Line(ClipLine(s), false))
    else if i + 1 == |s| then Scan([], Line(ClipLine(s[..i]), true))
    else
      var r := ScanLines(s[i + 2..]);
      Scan((if s[i + 1] == LF then [ClipLine(s[..i])] else []) + r.lines, r.rest)
  }

  function Collect(l: Line, s: seq<byte>): Scan
    decreases |s|
  {
    if s == [] then Scan([], l)
    else
      var r := Collect(NextLine(l, s[0]), s[1..]);
      Scan(Completed(l, s[0]) + r.lines, r.rest)
  }

  lemma {:induction false} CollectConcat(l: Line, a: seq<byte>, b: seq<byte>)
    ensures Collect(l, a + b) ==
            Scan(Collect(l, a).lines + Collect(Collect(l, a).rest, b).lines, Collect(Collect(l, a).rest, b).rest)
    decreases |a|
  {
    if a == [] {
      assert a + b == b;
    } else {
      assert (a + b)[0] == a[0] && (a + b)[1..] == a[1..] + b;
      CollectConcat(NextLine(l, a[0]), a[1..], b);
      Assoc(Completed(l, a[0]), Collect(NextLine(l, a[0]), a[1..]).lines, Collect(Collect(l, a).rest, b).lines);
    }
  }

  lemma CollectOne(l: Line, b: byte)
    ensures Collect(l, [b]) == Scan(Completed(l, b), NextLine(l, b))
  {
    assert [b][1..] == [];
    assert Collect(NextLine(l, b), []) == Scan([], NextLine(l, b));
    assert Completed(l, b) + [] == Completed(l, b);
  }

  lemma CollectSnoc(s: seq<byte>, b: byte)
    ensures var r := Collect(BLANK, s);
            Collect(BLANK, s + [b]) == Scan(r.lines + Completed(r.rest, b), NextLine(r.rest, b))
  {
    CollectConcat(BLANK, s, [b]);
    CollectOne(Collect(BLANK, s).rest, b);
  }

  lemma {:induction false} CollectContent(s: seq<byte>)
    requires CR !in s
    ensures Collect(BLANK, s) == Scan([], Line(ClipLine(s), false))
    decreases |s|
  {
    if s == [] {
    } else {
      var init, last := s[..|s| - 1], s[|s| - 1];
      assert s == init + [last] && last in s;
      CollectContent(init);
      ContentSnoc(init, last);
    }
  }

  lemma ContentSnoc(s: seq<byte>, b: byte)
    requires Collect(BLANK, s) == Scan([], Line(ClipLine(s), false)) && b != CR
    ensures Collect(BLANK, s + [b]) == Scan([], Line(ClipLine(s + [b]), false))
  {
    CollectSnoc(s, b);
    ClipLineSnoc(s, b);
  }

  lemma ClipLineSnoc(s: seq<byte>, b: byte)
    ensures ClipLine(s + [b]) == if |ClipLine(s)| < COMMAND_MAX_SIZE then ClipLine(s) + [b] else ClipLine(s)
  {
  }

  /** A line up to its 0d, and with the byte behind it. */
  lemma CollectLine(content: seq<byte>, b: byte)
    requires CR !in content
    ensures Collect(BLANK, content + [CR]) == Scan([], Line(ClipLine(content), true))
    ensures Collect(BLANK, content + [CR] + [b]) == Scan(if b == LF then [ClipLine(content)] else [], BLANK)
  {
    CollectContent(content);
    CollectSnoc(content, CR);
    CollectSnoc(content + [CR], b);
  }

  lemma CollectLineThenRest(content: seq<byte>, b: byte, rest: seq<byte>)
    requires CR !in content
    ensures var r := Collect(BLANK, rest);
            Collect(BLANK, content + [CR] + [b] + rest) == Scan((if b == LF then [ClipLine(content)] else []) + r.lines, r.rest)
  {
    CollectLine(content, b);
    CollectConcat(BLANK, content + [CR] + [b], rest);
  }

  /** Receiving byte by byte yields exactly the lines of the stream. */
  lemma {:induction false} CollectIsScan(s: seq<byte>)
    ensures Collect(BLANK, s) == ScanLines(s)
    decreases |s|
  {
    var i := FindCr(s);
    if i == |s| {
      assert s[..i] == s;
      CollectContent(s);
    } else if i + 1 == |s| {
      CollectLine(s[..i], 0);
      assert s == s[..i] + [CR];
    } else {
      CollectLineThenRest(s[..i], s[i + 1], s[i + 2..]);
      assert s == s[..i] + [CR] + [s[i + 1]] + s[i + 2..];
      CollectIsScan(s[i + 2..]);
    }
  }

  /**
   A line in bytes: content without 0d, clipped to 20, is a command exactly when 0d and then 0a
   follow it, and what comes behind is read as if nothing had been before.
   */
  lemma LineOfBytes(content: seq<byte>, b: byte, rest: seq<byte>)
    requires 0x0d !in content
    ensures ScanLines(content + [0x0d] + [b] + rest) ==
            Scan((if b == 0x0a then [if |content| <= 20 then content else content[..20]] else [])
                 + ScanLines(rest).lines,
                 ScanLines(rest).rest)
  {
    CollectLineThenRest(content, b, rest);
    CollectIsScan(content + [0x0d] + [b] + rest);
    CollectIsScan(rest);
  }

  // ----- the console as a state machine

  /** `latched`: a line ended while eight commands were waiting; no byte is looked at any more. */
  datatype ConsoleState = ConsoleState(line: Line, latched: bool, queue: seq<seq<byte>>)

  const START: ConsoleState := ConsoleState(BLANK, false, [])

  function OnByte(c: ConsoleState, b: byte): ConsoleState {
    if c.latched then c
    else if Completed(c.line, b) == [] then c.(line := NextLine(c.line, b))
    else if |c.queue| < CMD_MAX_CNT then ConsoleState(BLANK, false, c.queue + Completed(c.line, b))
    else c.(latched := true)
  }

  /** A line that ends with room for it among eight is stored, and one that ends without latches the receiver. */
  lemma LineEnd(c: ConsoleState)
    requires !c.latched && c.line.cr
    ensures OnByte(c, 0x0a) ==
            if |c.queue| < 8 then ConsoleState(Line([], false), false, c.queue + [c.line.content])
            else c.(latched := true)
    ensures forall b: byte :: b != 0x0a ==> OnByte(c, b) == c.(line := Line([], false))
  {
  }

  /** The byte puts a command into the queue, which the console announces with a message. */
  predicate Announces(c: ConsoleState, b: byte) {
    !c.latched && Completed(c.line, b) != [] && |c.queue| < CMD_MAX_CNT
  }

  function Pop(c: ConsoleState): ConsoleState {
    if c.queue == [] then c else c.(queue := c.queue[1..])
  }

  datatype Cmd = Cmd(len: nat, cmd: seq<byte>)

  /** The command a slot holds: its first `len` bytes, whatever older bytes follow. */
  function Text(c: Cmd): seq<byte> {
    if c.len <= |c.cmd| then c.cmd[..c.len] else []
  }

  function Texts(slots: seq<Cmd>, start: nat, n: nat): seq<seq<byte>>
    requires start < |slots| && n <= |slots|
  {
    seq(n, i requires 0 <= i < n => Text(Occupied(slots, start, n)[i]))
  }

  lemma TextsPop(slots: seq<Cmd>, start: nat, n: nat)
    requires |slots| == CMD_MAX_CNT && start < CMD_MAX_CNT && 0 < n <= CMD_MAX_CNT
    ensures Texts(slots, start, n)[1..] == Texts(slots, (start + 1) % CMD_MAX_CNT, n - 1)
    ensures Texts(slots, start, n)[0] == Text(slots[start])
  {
    PopRemoves(slots, start, n);
    assert Slot(CMD_MAX_CNT, start, 1) == (start + 1) % CMD_MAX_CNT;
  }

  /** Advancing the start by one and counting one less leaves the end where it is. */
  lemma NextSlot(start: nat, n: nat)
    requires start < CMD_MAX_CNT && 0 < n <= CMD_MAX_CNT
    ensures ((start + 1) % CMD_MAX_CNT + (n - 1)) % CMD_MAX_CNT == (start + n) % CMD_MAX_CNT
  {
  }

  lemma NextEnd(start: nat, n: nat)
    requires start < CMD_MAX_CNT && n < CMD_MAX_CNT
    ensures ((start + n) % CMD_MAX_CNT + 1) % CMD_MAX_CNT == (start + n + 1) % CMD_MAX_CNT
  {
  }

  lemma TextsPush(slots: seq<Cmd>, start: nat, n: nat, c: Cmd)
    requires |slots| == CMD_MAX_CNT && start < CMD_MAX_CNT && n < CMD_MAX_CNT
    ensures Texts(slots[(start + n) % CMD_MAX_CNT := c], start, n + 1) == Texts(slots, start, n) + [Text(c)]
  {
    PushAppends(slots, start, n, c);
    assert Slot(CMD_MAX_CNT, start, n) == (start + n) % CMD_MAX_CNT;
  }

  /** Bits 13..0 of the receive state: byte count. */
  function CountBits(sta: nat): nat {
    var low := if sta >= 0x8000 then sta - 0x8000 else sta;
    if low >= 0x4000 then low - 0x4000 else low
  }

  /** Bit 14 of the receive state: 0d seen. */
  predicate CrBit(sta: nat) {
    (if sta >= 0x8000 then sta - 0x8000 else sta) >= 0x4000
  }

  class ConsoleUart {
    const ring: MsgRing
    const buf: array<byte>
    const cmds: array<Cmd>
    var sta: nat
    var iRead: nat
    var iSave: nat
    var cnt: nat

    ghost predicate Valid()
      reads this, cmds
    {
      && buf.Length == COMMAND_MAX_SIZE && cmds.Length == CMD_MAX_CNT
      && sta < 0x1_0000 && CountBits(sta) <= COMMAND_MAX_SIZE
      && (sta >= 0x8000 ==> sta >= 0xC000)
      && iRead < CMD_MAX_CNT && iSave < CMD_MAX_CNT && cnt <= CMD_MAX_CNT
      && iSave == (iRead + cnt) % CMD_MAX_CNT
      && forall i :: 0 <= i < CMD_MAX_CNT ==> cmds[i].len <= |cmds[i].cmd| == COMMAND_MAX_SIZE
    }

    /** Bit 15 of the receive state: line complete and not taken over. */
    ghost function State(): ConsoleState
      requires Valid()
      reads this, buf, cmds
    {
      ConsoleState(Line(buf[..CountBits(sta)], CrBit(sta)), sta >= 0x8000, Queue())
    }

    ghost function Queue(): seq<seq<byte>>
      requires Valid()
      reads this, cmds
    {
      Texts(cmds[..], iRead, cnt)
    }

    constructor (ring: MsgRing)
      ensures Valid() && this.ring == ring && fresh(buf) && fresh(cmds) && State() == START
    {
      this.ring := ring;
      buf := new byte[COMMAND_MAX_SIZE](_ => 0);
      cmds := new Cmd[CMD_MAX_CNT](_ => Cmd(0, seq(COMMAND_MAX_SIZE, _ => 0)));
      sta, iRead, iSave, cnt := 0, 0, 0, 0;
    }

    method GetCommandNum() returns (num: nat)
      requires Valid()
      ensures num == |State().queue|
    {
      num := cnt;
    }

    /** The oldest command, read out of its slot. */
    method GetCommand() returns (found: bool, text: seq<byte>)
      requires Valid()
      modifies this`iRead, this`cnt
      ensures Valid()
      ensures found <==> old(State()).queue != []
      ensures found ==> text == old(State()).queue[0]
      ensures State() == Pop(old(State()))
    {
      found, text := false, [];
      if cnt > 0 {
        found, text := true, Text(cmds[iRead]);
        TextsPop(cmds[..], iRead, cnt);
        NextSlot(iRead, cnt);
        iRead := (iRead + 1) % CMD_MAX_CNT;
        cnt := cnt - 1;
      }
    }

    /** Copies the received line into the slot that is filled next. */
    method SaveCommand(len: nat)
      requires Valid() && len <= COMMAND_MAX_SIZE
      modifies cmds
      ensures Valid()
      ensures Text(cmds[iSave]) == buf[..len]
      ensures cmds[..] == old(cmds[..])[iSave := cmds[iSave]]
    {
      cmds[iSave] := cmds[iSave].(len := len);
      var i := 0;
      while i < len
        invariant i <= len && Valid()
        invariant cmds[iSave].len == len && cmds[iSave].cmd[..i] == buf[..i]
        invariant cmds[..] == old(cmds[..])[iSave := cmds[iSave]]
      {
        cmds[iSave] := cmds[iSave].(cmd := cmds[iSave].cmd[i := buf[i]]);
        i := i + 1;
        assert buf[..i] == buf[..i - 1] + [buf[i - 1]];
      }
    }

    /** Appends the received line to the command ring. */
    method AddCommand(len: nat)
      requires Valid() && len <= COMMAND_MAX_SIZE && cnt < CMD_MAX_CNT
      modifies this`iSave, this`cnt, cmds
      ensures Valid() && cnt == old(cnt) + 1
      ensures Queue() == old(Queue()) + [buf[..len]]
    {
      ghost var slots := cmds[..];
      SaveCommand(len);
      TextsPush(slots, iRead, cnt, cmds[iSave]);
      NextEnd(iRead, cnt);
      iSave := (iSave + 1) % CMD_MAX_CNT;
      cnt := cnt + 1;
    }

    /** The receive interrupt. */
    method OnReceived(res: byte)
      requires Valid() && ring.Valid()
      modifies this`sta, this`iSave, this`cnt, buf, cmds, ring`iPush, ring`n, ring.list
      ensures Valid() && ring.Valid()
      ensures State() == OnByte(old(State()), res)
      ensures ring.Pending() == if Announces(old(State()), res)
                                then Enqueue(old(ring.Pending()), Msg(MSG_CONSOLE_COMMAND, 0))
                                else old(ring.Pending())
    {
      if sta < 0x8000 {
        if sta >= 0x4000 {
          if res != LF {
            sta := 0;
          } else {
            LineEnded();
          }
        } else {
          if res == CR {
            sta := sta + 0x4000;
          } else if sta < COMMAND_MAX_SIZE {
            ghost var content := buf[..sta];
            buf[sta] := res;
            sta := sta + 1;
            assert buf[..sta] == content + [res];
          }
        }
      }
    }

    method LineEnded()
      requires Valid() && ring.Valid() && 0x4000 <= sta < 0x8000
      modifies this`sta, this`iSave, this`cnt, cmds, ring`iPush, ring`n, ring.list
      ensures Valid() && ring.Valid()
      ensures State() == OnByte(old(State()), LF)
      ensures ring.Pending() == if Announces(old(State()), LF)
                                then Enqueue(old(ring.Pending()), Msg(MSG_CONSOLE_COMMAND, 0))
                                else old(ring.Pending())
    {
      sta := sta + 0x8000;
      if cnt < CMD_MAX_CNT {
        AddCommand(CountBits(sta));
        var status := ring.PublishMsg(MSG_CONSOLE_COMMAND, 0);
        sta := 0;
      }
    }
  }

  // ----- whole runs of the receiver and its reader

  datatype ConsoleEvent = Byte(b: byte) | Get

  /** State, commands handed out, and the bytes that came before the receiver latched. */
  datatype ConsoleRun = ConsoleRun(state: ConsoleState, handed: seq<seq<byte>>, heard: seq<byte>)

  function React(r: ConsoleRun, e: ConsoleEvent): ConsoleRun {
    match e
    case Get => ConsoleRun(Pop(r.state), r.handed + (if r.state.queue == [] then [] else [r.state.queue[0]]), r.heard)
    case Byte(b) =>
      var s := OnByte(r.state, b);
      ConsoleRun(s, r.handed, if s.latched then r.heard else r.heard + [b])
  }

  function RunConsole(es: seq<ConsoleEvent>): ConsoleRun {
    if es == [] then ConsoleRun(START, [], []) else React(RunConsole(es[..|es| - 1]), es[|es| - 1])
  }

  function BytesOf(es: seq<ConsoleEvent>): seq<byte> {
    if es == [] then []
    else BytesOf(es[..|es| - 1]) + (if es[|es| - 1].Byte? then [es[|es| - 1].b] else [])
  }

  /** The k-th event ends a line while eight commands wait. */
  ghost predicate LatchesAt(es: seq<ConsoleEvent>, k: nat) {
    && k < |es| && es[k] == Byte(LF)
    && var s := RunConsole(es[..k]).state;
       !s.latched && s.line.cr && |s.queue| == CMD_MAX_CNT
  }

  ghost predicate LinesAccounted(r: ConsoleRun) {
    && ScanLines(r.heard).lines == r.handed + r.state.queue
    && ScanLines(r.heard).rest == r.state.line
    && |r.state.queue| <= CMD_MAX_CNT
  }

  lemma ReactKeepsLines(r: ConsoleRun, e: ConsoleEvent)
    requires LinesAccounted(r)
    ensures LinesAccounted(React(r, e))
  {
    match e
    case Get => assert r.state.queue != [] ==> [r.state.queue[0]] + r.state.queue[1..] == r.state.queue;
    case Byte(b) =>
      if !OnByte(r.state, b).latched {
        CollectIsScan(r.heard);
        CollectIsScan(r.heard + [b]);
        CollectSnoc(r.heard, b);
        ByteStep(r.state, b);
      }
  }

  /**
   Commands handed out followed by commands waiting are exactly the lines of the bytes heard;
   until the receiver latches these are all bytes received.
   */
  lemma {:induction false} ConsoleHandsOutLines(es: seq<ConsoleEvent>)
    ensures LinesAccounted(RunConsole(es))
    ensures !RunConsole(es).state.latched ==> RunConsole(es).heard == BytesOf(es)
    decreases |es|
  {
    if es == [] {
    } else {
      ConsoleHandsOutLines(es[..|es| - 1]);
      ReactKeepsLines(RunConsole(es[..|es| - 1]), es[|es| - 1]);
    }
  }

  lemma ByteStep(c: ConsoleState, b: byte)
    requires !OnByte(c, b).latched
    ensures !c.latched && OnByte(c, b) == ConsoleState(NextLine(c.line, b), false, c.queue + Completed(c.line, b))
  {
  }

  /** The receiver is latched exactly when some earlier byte ended a line with eight commands waiting. */
  lemma {:induction false} ConsoleLatchesExactly(es: seq<ConsoleEvent>)
    ensures RunConsole(es).state.latched <==> exists k: nat :: LatchesAt(es, k)
    decreases |es|
  {
    if es == [] {
    } else {
      var init := es[..|es| - 1];
      ConsoleLatchesExactly(init);
      ConsoleHandsOutLines(init);
      forall k: nat | k < |init| ensures LatchesAt(es, k) <==> LatchesAt(init, k) {
        assert es[..k] == init[..k];
      }
      assert LatchesAt(es, |init|) <==> !RunConsole(init).state.latched && RunConsole(es).state.latched;
    }
  }

  /** From then on nothing is heard: the lines handed out are those before the line that latched it. */
  lemma {:induction false} LatchedHearsNothing(es: seq<ConsoleEvent>, k: nat)
    requires LatchesAt(es, k)
    ensures RunConsole(es).state.latched && RunConsole(es).heard == BytesOf(es[..k])
    decreases |es|
  {
    var init := es[..|es| - 1];
    if k == |init| {
      assert es[..k] == init;
      ConsoleHandsOutLines(init);
    } else {
      assert es[..k] == init[..k];
      LatchedHearsNothing(init, k);
    }
  }
}
