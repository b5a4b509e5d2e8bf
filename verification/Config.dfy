/** The configuration record, its packed layout, and its life in the last flash sector. */
module Config {
  import opened Bytes
  import opened Flash
  import opened UartFsmc
  import opened Timer
  import opened MsgInterface

  const CFG_SIZE: nat := 103
  const CFG_OFF: nat := ADDR_FLASH_SECTOR_11 - ADDR_FLASH_SECTOR_0
  const MARK: byte := 0xaa

  datatype ConfigRecord = ConfigRecord(
    header: seq<byte>,
    ipAddr: seq<byte>,
    ipMask: seq<byte>,
    ipGate: seq<byte>,
    listenPort: nat,
    remoteIp: seq<byte>,
    remotePort: nat,
    baudRates: seq<nat>,
    parities: seq<byte>,
    queryCycle: byte
  ) {
    /** Field widths of the packed C record. */
    predicate Valid() {
      && |header| == 2 && |ipAddr| == |ipMask| == |ipGate| == |remoteIp| == 4
      && listenPort < 0x1_0000 && remotePort < 0x1_0000
      && |baudRates| == |parities| == UART_FSMC_NUM
      && forall i :: 0 <= i < UART_FSMC_NUM ==> baudRates[i] < 0x1_0000_0000
    }
  }

  type SysConfig = c: ConfigRecord | c.Valid()
    witness ConfigRecord([0, 0], [0, 0, 0, 0], [0, 0, 0, 0], [0, 0, 0, 0], 0, [0, 0, 0, 0], 0,
                         seq(UART_FSMC_NUM, _ => 0), seq(UART_FSMC_NUM, _ => 0), 0)

  // ----- packed layout

  function LE16(x: nat): (b: seq<byte>)
    requires x < 0x1_0000
    ensures |b| == 2 && Word(b[0], b[1]) == x
  {
    [x % 256, x / 256]
  }

  function Carry(lo: byte, hi: nat): nat {
    lo + 0x100 * hi
  }

  /** Little-endian 32-bit value of four bytes. */
  function Long(b: seq<byte>): (x: nat)
    requires |b| == 4
    ensures x < 0x1_0000_0000
  {
    Carry(b[0], Carry(b[1], Carry(b[2], b[3])))
  }

  function LE32(x: nat): (b: seq<byte>)
    requires x < 0x1_0000_0000
    ensures |b| == 4 && Long(b) == x
  {
    var x1 := x / 0x100;
    var x2 := x1 / 0x100;
    [x % 0x100, x1 % 0x100, x2 % 0x100, x2 / 0x100]
  }

  lemma LongInjective(b: seq<byte>)
    requires |b| == 4
    ensures LE32(Long(b)) == b
  {
    var hi2 := Carry(b[2], b[3]);
    var hi1 := Carry(b[1], hi2);
    CarrySplit(b[0], hi1);
    CarrySplit(b[1], hi2);
    CarrySplit(b[2], b[3]);
  }

  lemma CarrySplit(lo: byte, hi: nat)
    ensures Carry(lo, hi) % 0x100 == lo && Carry(lo, hi) / 0x100 == hi
  {
  }

  function PackLongs(xs: seq<nat>): (b: seq<byte>)
    requires forall i :: 0 <= i < |xs| ==> xs[i] < 0x1_0000_0000
    ensures |b| == 4 * |xs|
  {
    if xs == [] then [] else LE32(xs[0]) + PackLongs(xs[1..])
  }

  function UnpackLongs(b: seq<byte>): (xs: seq<nat>)
    requires |b| % 4 == 0
    ensures 4 * |xs| == |b|
    ensures forall i :: 0 <= i < |xs| ==> xs[i] < 0x1_0000_0000
  {
    if b == [] then [] else [Long(b[..4])] + UnpackLongs(b[4..])
  }

  lemma {:induction false} UnpackPackLongs(xs: seq<nat>)
    requires forall i :: 0 <= i < |xs| ==> xs[i] < 0x1_0000_0000
    ensures UnpackLongs(PackLongs(xs)) == xs
  {
    if xs == [] {
    } else {
      UnpackPackLongs(xs[1..]);
      assert PackLongs(xs)[..4] == LE32(xs[0]) && PackLongs(xs)[4..] == PackLongs(xs[1..]);
    }
  }

  lemma {:induction false} PackUnpackLongs(b: seq<byte>)
    requires |b| % 4 == 0
    ensures PackLongs(UnpackLongs(b)) == b
  {
    if b == [] {
    } else {
      PackUnpackLongs(b[4..]);
      LongInjective(b[..4]);
      assert UnpackLongs(b)[1..] == UnpackLongs(b[4..]);
      assert b == b[..4] + b[4..];
    }
  }

  function Encode(c: SysConfig): (b: seq<byte>)
    ensures |b| == CFG_SIZE
  {
    c.header + c.ipAddr + c.ipMask + c.ipGate + LE16(c.listenPort) + c.remoteIp + LE16(c.remotePort)
    + PackLongs(c.baudRates) + c.parities + [c.queryCycle]
  }

  function Decode(b: seq<byte>): SysConfig
    requires |b| == CFG_SIZE
  {
    ConfigRecord(b[..2], b[2..6], b[6..10], b[10..14], Word(b[14], b[15]), b[16..20], Word(b[20], b[21]),
              UnpackLongs(b[22..86]), b[86..102], b[102])
  }

  lemma DecodeEncode(c: SysConfig)
    ensures Decode(Encode(c)) == c
  {
    var b := Encode(c);
    assert b[..2] == c.header && b[2..6] == c.ipAddr && b[6..10] == c.ipMask && b[10..14] == c.ipGate;
    assert b[14..16] == LE16(c.listenPort) && b[16..20] == c.remoteIp && b[20..22] == LE16(c.remotePort);
    assert b[14] == b[14..16][0] && b[15] == b[14..16][1] && b[20] == b[20..22][0] && b[21] == b[20..22][1];
    assert b[22..86] == PackLongs(c.baudRates) && b[86..102] == c.parities && b[102] == c.queryCycle;
    UnpackPackLongs(c.baudRates);
  }

  lemma EncodeDecode(b: seq<byte>)
    requires |b| == CFG_SIZE
    ensures Encode(Decode(b)) == b
  {
    PackUnpackLongs(b[22..86]);
    WordInjective(b[14..16]);
    WordInjective(b[20..22]);
    var front, back := b[..22], b[86..];
    assert front == b[..2] + b[2..6] + b[6..10] + b[10..14] + b[14..16] + b[16..20] + b[20..22];
    assert back == b[86..102] + [b[102]];
    assert b == front + b[22..86] + back;
  }

  lemma PackedLong(xs: seq<nat>, k: nat)
    requires forall i :: 0 <= i < |xs| ==> xs[i] < 0x1_0000_0000
    requires k < |xs|
    ensures PackLongs(xs)[4 * k..4 * k + 4] == LE32(xs[k])
    decreases k
  {
    var rest := PackLongs(xs[1..]);
    assert PackLongs(xs) == LE32(xs[0]) + rest;
    if k == 0 {
    } else {
      PackedLong(xs[1..], k - 1);
      assert PackLongs(xs)[4 * k..4 * k + 4] == rest[4 * (k - 1)..4 * (k - 1) + 4];
    }
  }

  lemma LongBytes(x: nat)
    requires x < 0x1_0000_0000
    ensures var b := LE32(x); x == b[0] + 0x100 * b[1] as int + 0x1_0000 * b[2] as int + 0x100_0000 * b[3] as int
  {
  }

  /** The packed layout, field by field: where each field lies in the 103 bytes. */
  lemma Layout(c: SysConfig)
    ensures var b := Encode(c);
            && b[0..2] == c.header && b[2..6] == c.ipAddr && b[6..10] == c.ipMask && b[10..14] == c.ipGate
            && b[14] + 0x100 * b[15] as int == c.listenPort
            && b[16..20] == c.remoteIp
            && b[20] + 0x100 * b[21] as int == c.remotePort
            && b[86..102] == c.parities && b[102] == c.queryCycle
  {
    var b := Encode(c);
    assert b[..2] == c.header && b[2..6] == c.ipAddr && b[6..10] == c.ipMask && b[10..14] == c.ipGate;
    assert b[14..16] == LE16(c.listenPort) && b[16..20] == c.remoteIp && b[20..22] == LE16(c.remotePort);
    assert b[14] == b[14..16][0] && b[15] == b[14..16][1] && b[20] == b[20..22][0] && b[21] == b[20..22][1];
  }

  /** ... and of the sixteen baud rates, four bytes each, lowest byte first. */
  lemma BaudRateLayout(c: SysConfig, k: nat)
    requires k < 16
    ensures var b := Encode(c)[22 + 4 * k..26 + 4 * k];
            b[0] + 0x100 * b[1] as int + 0x1_0000 * b[2] as int + 0x100_0000 * b[3] as int == c.baudRates[k]
  {
    BaudRateBytes(c, k);
    LongBytes(c.baudRates[k]);
  }

  lemma BaudRateBytes(c: SysConfig, k: nat)
    requires k < 16
    ensures Encode(c)[22 + 4 * k..26 + 4 * k] == LE32(c.baudRates[k])
  {
    PackedLong(c.baudRates, k);
    assert Encode(c)[22..86] == PackLongs(c.baudRates);
    assert Encode(c)[22 + 4 * k..26 + 4 * k] == Encode(c)[22..86][4 * k..4 * k + 4];
  }

  lemma WordInjective(b: seq<byte>)
    requires |b| == 2
    ensures LE16(Word(b[0], b[1])) == b
  {
  }

  // ----- the operations as a state machine

  function DefaultCfg(): SysConfig {
    ConfigRecord([MARK, MARK], [10, 100, 0, 127], [255, 255, 255, 0], [10, 100, 0, 1], 4000,
              [10, 100, 0, 104], 3000, seq(UART_FSMC_NUM, _ => 115200), seq(UART_FSMC_NUM, _ => 0), 1)
  }

  function Marked(c: SysConfig): SysConfig {
    c.(header := [MARK, MARK])
  }

  function Stored(m: Image): (b: seq<byte>)
    ensures |b| == CFG_SIZE
  {
    m[CFG_OFF..CFG_OFF + CFG_SIZE]
  }

  predicate HasMark(b: seq<byte>)
    requires |b| == CFG_SIZE
  {
    b[0] == MARK && b[1] == MARK
  }

  datatype Event = Set(c: SysConfig) | Default | Boot

  /** Configuration in RAM and the flash image. */
  datatype Store = Store(ram: SysConfig, mem: Image)

  /** Effect of an operation all of whose flash operations complete. */
  ghost function Do(s: Store, e: Event): Store {
    match e
    case Set(c) => Save(s, Marked(c))
    case Default => Save(s, DefaultCfg())
    case Boot =>
      if HasMark(Stored(s.mem)) then Store(Decode(Stored(s.mem)), s.mem) else Save(s, DefaultCfg())
  }

  ghost function Save(s: Store, c: SysConfig): Store {
    Store(c, Written(s.mem, CFG_OFF, Encode(c), CFG_SIZE))
  }

  /** The record an operation writes to the flash, if it writes one. */
  function Writes(s: Store, e: Event): seq<SysConfig> {
    match e
    case Set(c) => [Marked(c)]
    case Default => [DefaultCfg()]
    case Boot => if HasMark(Stored(s.mem)) then [] else [DefaultCfg()]
  }

  /** What an operation can lead to when its flash write ends with `outcome`. */
  ghost predicate CanStep(s: Store, e: Event, outcome: Outcome, s': Store) {
    if Writes(s, e) == [] then outcome == Complete && s' == Do(s, e)
    else s'.ram == Writes(s, e)[0] && WriteEffect(s.mem, CFG_OFF, Encode(Writes(s, e)[0]), outcome, s'.mem)
  }

  lemma WriteIsStep(s: Store, e: Event, c: SysConfig, outcome: Outcome, s': Store)
    requires Writes(s, e) == [c] && s'.ram == c
    requires WriteEffect(s.mem, CFG_OFF, Encode(c), outcome, s'.mem)
    ensures CanStep(s, e, outcome, s')
    ensures outcome == Complete ==> s' == Save(s, c)
  {
  }

  lemma BootUnmarked(s: Store)
    requires !HasMark(Stored(s.mem))
    ensures Do(s, Boot) == Do(s, Default)
  {
  }

  class ConfigStore {
    const flash: FlashDevice
    var cfg: SysConfig

    ghost function View(): Store
      reads this, flash
    {
      Store(cfg, flash.mem)
    }

    constructor (flash: FlashDevice, initial: SysConfig)
      ensures this.flash == flash && cfg == initial
    {
      this.flash := flash;
      cfg := initial;
    }

    method SetConfig(c: SysConfig) returns (outcome: Outcome)
      modifies this, flash
      ensures cfg == c.(header := [0xaa, 0xaa])
      ensures CanStep(old(View()), Set(c), outcome, View())
      ensures outcome == Complete ==> View() == Do(old(View()), Set(c))
    {
      cfg := c;
      cfg := cfg.(header := [MARK, MARK]);
      outcome := SaveConfig();
      WriteIsStep(old(View()), Set(c), Marked(c), outcome, View());
    }

    method SaveConfig() returns (outcome: Outcome)
      modifies flash
      ensures WriteEffect(old(flash.mem), CFG_OFF, Encode(cfg), outcome, flash.mem)
    {
      outcome := WriteFlash(flash, ADDR_FLASH_SECTOR_11, Encode(cfg));
    }

    method DefaultConfig() returns (outcome: Outcome)
      modifies this, flash
      ensures && cfg.header == [0xaa, 0xaa] && cfg.ipAddr == [10, 100, 0, 127] && cfg.ipMask == [255, 255, 255, 0]
              && cfg.ipGate == [10, 100, 0, 1] && cfg.listenPort == 4000
              && cfg.remoteIp == [10, 100, 0, 104] && cfg.remotePort == 3000
              && (forall i :: 0 <= i < 16 ==> cfg.baudRates[i] == 115200 && cfg.parities[i] == 0)
              && cfg.queryCycle == 1
      ensures CanStep(old(View()), Default, outcome, View())
      ensures outcome == Complete ==> View() == Do(old(View()), Default)
    {
      FillDefault();
      outcome := SaveConfig();
      WriteIsStep(old(View()), Default, DefaultCfg(), outcome, View());
    }

    method FillDefault()
      modifies this
      ensures cfg == DefaultCfg()
    {
      cfg := cfg.(header := [MARK, MARK],
        ipAddr := [10, 100, 0, 127], ipMask := [255, 255, 255, 0], ipGate := [10, 100, 0, 1],
        listenPort := 4000, remoteIp := [10, 100, 0, 104], remotePort := 3000);
      FillChannels();
      cfg := cfg.(queryCycle := 1);
    }

    /** Default baud rate and parity for every channel. */
    method FillChannels()
      modifies this
      ensures cfg == old(cfg).(baudRates := DefaultCfg().baudRates, parities := DefaultCfg().parities)
    {
      var i := 0;
      while i < UART_FSMC_NUM
        invariant i <= UART_FSMC_NUM
        invariant cfg == old(cfg).(baudRates := cfg.baudRates, parities := cfg.parities)
        invariant forall k :: 0 <= k < i ==> cfg.baudRates[k] == 115200 && cfg.parities[k] == 0
      {
        cfg := cfg.(baudRates := cfg.baudRates[i := 115200], parities := cfg.parities[i := 0]);
        i := i + 1;
      }
      assert cfg.baudRates == DefaultCfg().baudRates && cfg.parities == DefaultCfg().parities;
    }

    /** Copies the store byte by byte into the record. */
    method LoadConfig()
      modifies this
      ensures cfg == Decode(Stored(flash.mem))
    {
      var raw := Encode(cfg);
      var i := 0;
      while i < CFG_SIZE
        invariant i <= CFG_SIZE && |raw| == CFG_SIZE
        invariant forall k :: 0 <= k < i ==> raw[k] == Stored(flash.mem)[k]
      {
        raw := raw[i := flash.ReadByte(ADDR_FLASH_SECTOR_11 + i)];
        i := i + 1;
      }
      assert raw == Stored(flash.mem);
      cfg := Decode(raw);
    }

    /** At start-up: load a marked store byte by byte into the record, otherwise write the default. */
    method PrepareConfig() returns (outcome: Outcome)
      modifies this, flash
      ensures HasMark(Stored(old(flash.mem))) ==>
                outcome == Complete && flash.mem == old(flash.mem) && cfg == Decode(Stored(flash.mem))
      ensures !HasMark(Stored(old(flash.mem))) ==>
                && cfg == DefaultCfg()
                && WriteEffect(old(flash.mem), CFG_OFF, Encode(cfg), outcome, flash.mem)
      ensures CanStep(old(View()), Boot, outcome, View())
      ensures outcome == Complete ==> View() == Do(old(View()), Boot)
    {
      var h0 := flash.ReadByte(ADDR_FLASH_SECTOR_11);
      var h1 := flash.ReadByte(ADDR_FLASH_SECTOR_11 + 1);
      if h0 == MARK && h1 == MARK {
        LoadConfig();
        outcome := Complete;
      } else {
        BootUnmarked(View());
        outcome := DefaultConfig();
      }
    }
  }

  // ----- whole runs

  ghost function Run(s: Store, es: seq<Event>): Store {
    if es == [] then s else Do(Run(s, es[..|es| - 1]), es[|es| - 1])
  }

  lemma RunSnoc(s: Store, es: seq<Event>, e: Event)
    ensures Run(s, es + [e]) == Do(Run(s, es), e)
  {
    assert (es + [e])[..|es|] == es;
  }

  /** The flash algorithm seen as a plain register of 103 bytes. */
  function Register(b: seq<byte>, es: seq<Event>): (b': seq<byte>)
    requires |b| == CFG_SIZE
    ensures |b'| == CFG_SIZE
  {
    if es == [] then b
    else
      var before := Register(b, es[..|es| - 1]);
      match es[|es| - 1]
      case Set(c) => Encode(Marked(c))
      case Default => Encode(DefaultCfg())
      case Boot => if HasMark(before) then before else Encode(DefaultCfg())
  }

  lemma WrittenStore(m: Image, data: seq<byte>)
    requires |data| == CFG_SIZE
    ensures Stored(Written(m, CFG_OFF, data, CFG_SIZE)) == data
    ensures forall i :: 0 <= i < FLASH_SIZE && SectorIndex(i) != 11 ==> Written(m, CFG_OFF, data, CFG_SIZE)[i] == m[i]
  {
    forall i | 0 <= i < FLASH_SIZE && SectorIndex(i) != 11
      ensures Written(m, CFG_OFF, data, CFG_SIZE)[i] == m[i]
    {
      assert !Dirty(m, CFG_OFF, CFG_OFF + CFG_SIZE, i);
    }
  }

  lemma DoRefinesRegister(s: Store, e: Event)
    ensures Stored(Do(s, e).mem) == match e
                                    case Set(c) => Encode(Marked(c))
                                    case Default => Encode(DefaultCfg())
                                    case Boot => if HasMark(Stored(s.mem)) then Stored(s.mem) else Encode(DefaultCfg())
    ensures Do(s, e).ram == Decode(Stored(Do(s, e).mem))
    ensures forall i :: 0 <= i < FLASH_SIZE && SectorIndex(i) != 11 ==> Do(s, e).mem[i] == s.mem[i]
  {
    match e
    case Set(c) => WrittenStore(s.mem, Encode(Marked(c))); DecodeEncode(Marked(c));
    case Default => WrittenStore(s.mem, Encode(DefaultCfg())); DecodeEncode(DefaultCfg());
    case Boot => WrittenStore(s.mem, Encode(DefaultCfg())); DecodeEncode(DefaultCfg());
  }

  /**
   Over any run the flash behaves as a register holding the last configuration written, the
   RAM copy agrees with it after every operation, and the program in the other eleven sectors
   is never touched.
   */
  lemma {:induction false} RunRefinesRegister(s: Store, es: seq<Event>)
    ensures Stored(Run(s, es).mem) == Register(Stored(s.mem), es)
    ensures es != [] ==> Run(s, es).ram == Decode(Register(Stored(s.mem), es))
    ensures forall i :: 0 <= i < FLASH_SIZE && SectorIndex(i) != 11 ==> Run(s, es).mem[i] == s.mem[i]
    decreases |es|
  {
    if es == [] {
    } else {
      RunRefinesRegister(s, es[..|es| - 1]);
      DoRefinesRegister(Run(s, es[..|es| - 1]), es[|es| - 1]);
    }
  }

  function Boots(n: nat): seq<Event> {
    seq(n, _ => Boot)
  }

  lemma {:induction false} RunConcat(s: Store, a: seq<Event>, b: seq<Event>)
    ensures Run(s, a + b) == Run(Run(s, a), b)
    decreases |b|
  {
    if b == [] {
      assert a + b == a;
    } else {
      var init, last := b[..|b| - 1], b[|b| - 1];
      assert b == init + [last];
      RunConcat(s, a, init);
      RunConcatSnoc(s, a, init, last);
    }
  }

  lemma RunConcatSnoc(s: Store, a: seq<Event>, b: seq<Event>, e: Event)
    requires Run(s, a + b) == Run(Run(s, a), b)
    ensures Run(s, a + (b + [e])) == Run(Run(s, a), b + [e])
  {
    RunSnoc(s, a + b, e);
    RunSnoc(Run(s, a), b, e);
    Assoc(a, b, [e]);
  }

  lemma {:induction false} BootsKeepMarked(s: Store, n: nat)
    requires HasMark(Stored(s.mem))
    ensures Run(s, Boots(n)) == if n == 0 then s else Store(Decode(Stored(s.mem)), s.mem)
    decreases n
  {
    if n == 0 {
    } else {
      BootsKeepMarked(s, n - 1);
      assert Boots(n) == Boots(n - 1) + [Boot];
      RunSnoc(s, Boots(n - 1), Boot);
    }
  }

  lemma EncodeMark(c: SysConfig)
    requires c.header == [MARK, MARK]
    ensures HasMark(Encode(c))
  {
    assert Encode(c)[..2] == c.header;
    assert Encode(c)[0] == Encode(c)[..2][0] && Encode(c)[1] == Encode(c)[..2][1];
  }

  /** A saved configuration is reloaded by every later boot, the store itself staying as it is. */
  lemma SavedSurvives(s: Store, c: SysConfig, n: nat)
    requires c.header == [MARK, MARK]
    ensures Run(Save(s, c), Boots(n)) == Save(s, c)
  {
    WrittenStore(s.mem, Encode(c));
    EncodeMark(c);
    DecodeEncode(c);
    BootsKeepMarked(Save(s, c), n);
  }

  /** Whatever happened before, a configuration that was set is what every later boot loads. */
  lemma SetSurvivesReboots(s: Store, es: seq<Event>, c: SysConfig, n: nat)
    ensures var s' := Run(s, es + [Set(c)] + Boots(n));
            s'.ram == c.(header := [0xaa, 0xaa]) && s'.mem[0xE_0000..0xE_0067] == Encode(c.(header := [0xaa, 0xaa]))
  {
    RunSnoc(s, es, Set(c));
    SavedSurvives(Run(s, es), Marked(c), n);
    RunConcat(s, es + [Set(c)], Boots(n));
    WrittenStore(Run(s, es).mem, Encode(Marked(c)));
  }

  lemma DefaultFields(cfg: SysConfig)
    requires cfg == DefaultCfg()
    ensures && cfg.header == [0xaa, 0xaa] && cfg.ipAddr == [10, 100, 0, 127] && cfg.ipMask == [255, 255, 255, 0]
            && cfg.ipGate == [10, 100, 0, 1] && cfg.listenPort == 4000
            && cfg.remoteIp == [10, 100, 0, 104] && cfg.remotePort == 3000
            && (forall i :: 0 <= i < 16 ==> cfg.baudRates[i] == 115200 && cfg.parities[i] == 0)
            && cfg.queryCycle == 1
  {
  }

  lemma UnmarkedStoreBoots(s: Store, n: nat)
    requires !HasMark(Stored(s.mem)) && n > 0
    ensures Run(s, Boots(n)) == Save(s, DefaultCfg())
  {
    assert Boots(n) == [Boot] + Boots(n - 1);
    RunConcat(s, [Boot], Boots(n - 1));
    RunSnoc(s, [], Boot);
    assert [] + [Boot] == [Boot];
    SavedSurvives(s, DefaultCfg(), n - 1);
  }

  lemma SavedStore(s: Store, c: SysConfig)
    ensures Save(s, c).ram == c && Stored(Save(s, c).mem) == Encode(c)
  {
    WrittenStore(s.mem, Encode(c));
  }

  /** A store without the mark boots into the default, and later boots reload exactly that. */
  lemma UnmarkedStoreBootsDefault(s: Store, n: nat)
    requires !HasMark(Stored(s.mem)) && n > 0
    ensures Run(s, Boots(n)) == Save(s, DefaultCfg())
    ensures Stored(Run(s, Boots(n)).mem) == Encode(Run(s, Boots(n)).ram)
    ensures var cfg := Run(s, Boots(n)).ram;
            && cfg.header == [0xaa, 0xaa] && cfg.ipAddr == [10, 100, 0, 127] && cfg.ipMask == [255, 255, 255, 0]
            && cfg.ipGate == [10, 100, 0, 1] && cfg.listenPort == 4000
            && cfg.remoteIp == [10, 100, 0, 104] && cfg.remotePort == 3000
            && (forall i :: 0 <= i < 16 ==> cfg.baudRates[i] == 115200 && cfg.parities[i] == 0)
            && cfg.queryCycle == 1
  {
    UnmarkedStoreBoots(s, n);
    SavedStore(s, DefaultCfg());
    DefaultFields(Run(s, Boots(n)).ram);
  }

  /** The bytes a first boot leaves in the store: the default configuration. */
  lemma FirstBootBytes(s: Store, n: nat)
    requires !HasMark(Stored(s.mem)) && n > 0
    ensures var b := Run(s, Boots(n)).mem[0xE_0000..0xE_0067];
            && b[0..2] == [0xaa, 0xaa] && b[2..6] == [10, 100, 0, 127] && b[6..10] == [255, 255, 255, 0]
            && b[10..14] == [10, 100, 0, 1] && b[14] == 0xA0 && b[15] == 0x0F
            && b[16..20] == [10, 100, 0, 104] && b[20] == 0xB8 && b[21] == 0x0B
            && (forall k :: 0 <= k < 16 ==> b[22 + 4 * k..26 + 4 * k] == [0x00, 0xC2, 0x01, 0x00])
            && (forall i :: 86 <= i < 102 ==> b[i] == 0) && b[102] == 1
  {
    UnmarkedStoreBootsDefault(s, n);
    DefaultBytes(Run(s, Boots(n)).ram, Stored(Run(s, Boots(n)).mem));
  }

  lemma DefaultBytes(c: SysConfig, b: seq<byte>)
    requires c == DefaultCfg() && b == Encode(c)
    ensures b[0..2] == [0xaa, 0xaa] && b[2..6] == [10, 100, 0, 127] && b[6..10] == [255, 255, 255, 0]
    ensures b[10..14] == [10, 100, 0, 1] && b[14] == 0xA0 && b[15] == 0x0F
    ensures b[16..20] == [10, 100, 0, 104] && b[20] == 0xB8 && b[21] == 0x0B
    ensures forall k :: 0 <= k < 16 ==> b[22 + 4 * k..26 + 4 * k] == [0x00, 0xC2, 0x01, 0x00]
    ensures (forall i :: 86 <= i < 102 ==> b[i] == 0) && b[102] == 1
  {
    Layout(c);
    ZeroParities(b);
    forall k | 0 <= k < 16
      ensures b[22 + 4 * k..26 + 4 * k] == [0x00, 0xC2, 0x01, 0x00]
    {
      BaudRateBytes(c, k);
      Bytes115200(c.baudRates[k]);
    }
  }

  lemma Bytes115200(x: nat)
    requires x == 115200
    ensures LE32(x) == [0x00, 0xC2, 0x01, 0x00]
  {
  }

  lemma ZeroParities(b: seq<byte>)
    requires |b| == CFG_SIZE && b[86..102] == seq(16, _ => 0)
    ensures forall i :: 86 <= i < 102 ==> b[i] == 0
  {
    assert forall i :: 86 <= i < 102 ==> b[i] == b[86..102][i - 86];
  }

  /**
   A write that stops at byte k: the next boot takes the store for a configuration exactly
   when the two mark bytes got through, and then loads the new bytes up to k with all later
   ones erased, so the mark alone does not tell a complete configuration from a torn one.
   */
  lemma BootAfterFailedProgram(m: Image, c: SysConfig, k: nat, m': Image)
    requires WriteEffect(m, CFG_OFF, Encode(Marked(c)), ProgramFailed(k), m')
    ensures HasMark(Stored(m')) <==> k >= 2 || (k == 1 && Stored(m')[1] == MARK)
    ensures Stored(m')[..k] == Encode(Marked(c))[..k]
    ensures forall i :: k < i < CFG_SIZE ==> Stored(m')[i] == ERASED
    ensures k >= 2 ==> Encode(Do(Store(c, m'), Boot).ram) == Stored(m')
  {
    TornStore(m, Encode(Marked(c)), k, m');
    EncodeMark(Marked(c));
    EncodeDecode(Stored(m'));
  }

  lemma TornStore(m: Image, image: seq<byte>, k: nat, m': Image)
    requires |image| == CFG_SIZE
    requires WriteEffect(m, CFG_OFF, image, ProgramFailed(k), m')
    ensures forall i :: 0 <= i < CFG_SIZE && i != k ==> Stored(m')[i] == if i < k then image[i] else ERASED
  {
    forall i | 0 <= i < CFG_SIZE && i != k
      ensures Stored(m')[i] == if i < k then image[i] else ERASED
    {
      assert m'[CFG_OFF + i] == Written(m, CFG_OFF, image, k)[CFG_OFF + i];
      ClearedRangeIsErased(m, CFG_OFF, CFG_OFF + CFG_SIZE, CFG_OFF + i);
    }
  }

  // ----- runs in which flash operations fail

  ghost predicate CanRun(ss: seq<Store>, es: seq<Event>, outcomes: seq<Outcome>) {
    && |ss| == |es| + 1 && |outcomes| == |es|
    && forall i :: 0 <= i < |es| ==> CanStep(ss[i], es[i], outcomes[i], ss[i + 1])
  }

  /** An operation that completes does what `Do` says, whatever failures came before it. */
  lemma CompleteStep(s: Store, e: Event, s': Store)
    requires CanStep(s, e, Complete, s')
    ensures s' == Do(s, e)
  {
  }

  lemma StepKeepsProgram(s: Store, e: Event, outcome: Outcome, s': Store, i: nat)
    requires CanStep(s, e, outcome, s') && i < FLASH_SIZE && SectorIndex(i) != 11
    ensures s'.mem[i] == s.mem[i]
  {
    if Writes(s, e) != [] {
      assert !Meets(CFG_OFF, CFG_OFF + CFG_SIZE, i);
      WriteLocality(s.mem, CFG_OFF, Encode(Writes(s, e)[0]), outcome, s'.mem, i);
    }
  }

  /** No run, however its flash operations fail, changes the program in the other eleven sectors. */
  lemma {:induction false} FailuresKeepProgram(ss: seq<Store>, es: seq<Event>, outcomes: seq<Outcome>, i: nat)
    requires CanRun(ss, es, outcomes) && i < FLASH_SIZE && SectorIndex(i) != 11
    ensures ss[|es|].mem[i] == ss[0].mem[i]
    decreases |es|
  {
    if es == [] {
    } else {
      var n := |es| - 1;
      FailuresKeepProgram(ss[..n + 1], es[..n], outcomes[..n], i);
      StepKeepsProgram(ss[n], es[n], outcomes[n], ss[n + 1], i);
    }
  }

  /**
   In a run that mixes failed and completed writes, a configuration whose write completed is
   what RAM and flash hold after any number of boots that follow it.
   */
  lemma {:induction false} CompletedSetSurvives(ss: seq<Store>, es: seq<Event>, outcomes: seq<Outcome>, k: nat)
    requires CanRun(ss, es, outcomes) && k < |es|
    requires es[k].Set? && outcomes[k] == Complete
    requires forall i :: k < i < |es| ==> es[i] == Boot
    ensures ss[|es|] == Save(ss[k], Marked(es[k].c))
    ensures ss[|es|].ram == es[k].c.(header := [0xaa, 0xaa])
    ensures ss[|es|].mem[0xE_0000..0xE_0067] == Encode(es[k].c.(header := [0xaa, 0xaa]))
    decreases |es|
  {
    var n := |es| - 1;
    WrittenStore(ss[k].mem, Encode(Marked(es[k].c)));
    if n == k {
      CompleteStep(ss[k], es[k], ss[k + 1]);
    } else {
      CompletedSetSurvives(ss[..n + 1], es[..n], outcomes[..n], k);
      EncodeMark(Marked(es[k].c));
      DecodeEncode(Marked(es[k].c));
    }
  }

  /** The first byte of the stored configuration that is not blank. */
  ghost predicate FirstToErase(m: Image, at: nat) {
    && CFG_OFF <= at < CFG_OFF + CFG_SIZE && m[at] != ERASED
    && forall a :: CFG_OFF <= a < at ==> m[a] == ERASED
  }

  /** An erase is asked for, and so can fail, only at that byte; in a marked store that is the first. */
  lemma EraseFailsAtFirst(s: Store, c: SysConfig, at: nat, s': Store)
    requires CanStep(s, Set(c), EraseFailed(at), s')
    ensures FirstToErase(s.mem, at)
    ensures HasMark(Stored(s.mem)) ==> at == CFG_OFF
  {
    assert !Dirty(s.mem, CFG_OFF, at, at);
    forall a | CFG_OFF <= a < at
      ensures s.mem[a] == ERASED
    {
      assert SameSector(a, at);
    }
  }

  /**
   ... and when it fails, any 103 bytes may be left, whatever was stored and was to be stored: no
   condition before the call keeps the old record. RAM has the new one, and the next boot takes
   what is left for a configuration if it has the mark.
   */
  lemma FailedEraseLeavesAnything(s: Store, c: SysConfig, at: nat, left: seq<byte>) returns (s': Store)
    requires FirstToErase(s.mem, at) && |left| == CFG_SIZE
    ensures CanStep(s, Set(c), EraseFailed(at), s') && s'.ram == c.(header := [0xaa, 0xaa]) && Stored(s'.mem) == left
    ensures Do(s', Boot).ram == if HasMark(left) then Decode(left) else DefaultCfg()
  {
    var cleared := Cleared(s.mem, CFG_OFF, at);
    assert !Dirty(s.mem, CFG_OFF, at, at);
    var mem: Image := cleared[..CFG_OFF] + left + cleared[CFG_OFF + CFG_SIZE..];
    s' := Store(Marked(c), mem);
    assert Stored(mem) == left;
    forall i | 0 <= i < FLASH_SIZE && SectorIndex(i) != SectorIndex(at)
      ensures mem[i] == cleared[i]
    {
      assert i < CFG_OFF;
    }
  }

  // ----- the query cycle a boot starts with

  /** What the device is configured to do after a boot from image m, whether the default gets written or not. */
  function BootCycle(m: Image): byte {
    if HasMark(Stored(m)) then Decode(Stored(m)).queryCycle else DefaultCfg().queryCycle
  }

  /** A first boot, from a store without the mark, polls every channel once in 200 interrupts. */
  lemma FirstBootPolls(m: Image, t: nat, p: nat)
    requires !HasMark(Stored(m)) && p < 10
    ensures BootCycle(m) == 1
    ensures Tick(CountAfter(CycleOf(BootCycle(m)), t), CycleOf(BootCycle(m))) == [Msg(0x1000, p)] <==> t % 200 == 20 * p
  {
    PhasePeriod(BootCycle(m), t, p);
  }

  /** A completed write decides the query cycle of the next boot. */
  lemma SetDecidesCycle(s: Store, c: SysConfig)
    ensures BootCycle(Do(s, Set(c)).mem) == c.queryCycle
  {
    WrittenStore(s.mem, Encode(Marked(c)));
    EncodeMark(Marked(c));
    DecodeEncode(Marked(c));
  }

  /**
   A write that stops behind the mark and before the last byte: whatever was configured, the
   next boot takes the blank last byte for the longest query cycle.
   */
  lemma TornWriteSlowsPolling(m: Image, c: SysConfig, k: nat, m': Image)
    requires WriteEffect(m, CFG_OFF, Encode(Marked(c)), ProgramFailed(k), m')
    requires 2 <= k < CFG_SIZE - 1
    ensures BootCycle(m') == 255
  {
    BootAfterFailedProgram(m, c, k, m');
  }
}
