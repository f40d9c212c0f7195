/** The register block as the control service's writes and reads reach it: what a command means to the
    trace hardware. */
module RegisterBlock {
  import opened Arith
  import opened Bytes
  import P = ControlProtocol
  import C = Controller
  import L = LoadM3

  /** Pulses of one clock, the settings, and the Cortex-M3's two bits. */
  datatype Block = Block(start: bool, stop: bool, reset: bool, source: nat, format: nat, baud: u32,
                         release: bool, realDap: bool)

  /** The counters the block shows. */
  datatype Counters = Counters(received: u64, dropped: u64, syncLoss: u64, highWater: u32, dmaFaults: u64)

  /** Pulses last for the clock of their write. */
  function Quiet(b: Block): Block {
    b.(start := false, stop := false, reset := false)
  }

  /** One register write, by the bits of the word. */
  function Written(b: Block, address: nat, word: u32): Block {
    var q := Quiet(b);
    if address == 0x08 then q.(start := And(word, 1) != 0, stop := And(word, 2) != 0, reset := And(word, 4) != 0)
    else if address == 0x0c then q.(source := And(word, 3), format := And(word, 0x700) / 0x100)
    else if address == 0x10 then q.(baud := word)
    else if address == 0xa0 then q.(release := And(word, 1) != 0, realDap := And(word, 2) != 0)
    else q
  }

  function Low(x: u64): u32 {
    x % 0x1_0000_0000
  }

  function High(x: u64): u32 {
    x / 0x1_0000_0000
  }

  function Wide(low: nat, high: nat): nat {
    low + 0x1_0000_0000 * high
  }

  function Read(c: Counters, address: nat): u32 {
    if address == 0x40 then Low(c.received) else if address == 0x44 then High(c.received)
    else if address == 0x48 then Low(c.dropped) else if address == 0x4c then High(c.dropped)
    else if address == 0x50 then Low(c.syncLoss) else if address == 0x54 then High(c.syncLoss)
    else if address == 0x58 then c.highWater
    else if address == 0x60 then Low(c.dmaFaults) else if address == 0x64 then High(c.dmaFaults)
    else 0
  }

  function Apply(b: Block, e: C.Effect): Block {
    match e
    case WriteRegister(offset, value) => Written(b, offset, value % 0x1_0000_0000)
    case _ => b
  }

  /** What a list of effects does to the block. */
  function Applied(b: Block, effects: seq<C.Effect>): Block {
    if effects == [] then b else Apply(Applied(b, effects[..|effects| - 1]), effects[|effects| - 1])
  }

  lemma AppliedTo(b: Block, before: seq<C.Effect>, e: C.Effect)
    ensures Applied(b, []) == b
    ensures Applied(b, before + [e]) == Apply(Applied(b, before), e)
  {
    assert (before + [e])[..|before|] == before;
  }

  lemma SettingBits(source: nat, format: nat)
    requires source < 4 && format < 8
    ensures And(source + 0x100 * format, 3) == source && And(source + 0x100 * format, 0x700) / 0x100 == format
  {
    var word := source + 0x100 * format;
    hide And;
    FormatBits(word);
    AndLowTwo(word);
  }

  lemma FormatBits(word: nat)
    ensures And(word, 0x700) / 0x100 == word / 0x100 % 8
  {
    AndByte(word, 7);
    AndLowThree(word / 0x100);
    hide And;
  }

  lemma AndLowTwo(x: nat)
    ensures And(x, 3) == x % 4
  {
    assert Pow2(2) == 4;
    AndLow(x, 2);
  }

  lemma AndLowThree(x: nat)
    ensures And(x, 7) == x % 8
  {
    assert Pow2(3) == 8;
    AndLow(x, 3);
  }

  lemma SmallBits(word: nat)
    ensures And(word, 1) == word % 2 && And(word, 2) == word / 2 % 2 * 2 && And(word, 4) == word / 4 % 2 * 4
  {
    AndOne(word);
    AndTwo(word);
    AndEven(word, 2);
    AndTwo(word / 2);
    assert word / 2 / 2 == word / 4;
  }

  lemma CommandWrites(b: Block, e: C.Effect)
    ensures Applied(b, [e]) == Apply(b, e)
  {
    AppliedTo(b, [], e);
    assert [] + [e] == [e];
  }

  /** What the commands mean to the hardware: start, stop and reset each pulse their own line and no other;
      a configuration sets source, format and baud rate to those named; the Cortex-M3's bits are set as
      given; nothing else reaches the block. */
  lemma CommandsReach(c: P.Command, capacity: nat, board: C.Board, b: Block)
    requires C.Interpret(c, capacity, board).reply.Some? && board.effects == []
    ensures var (n, q) := (Applied(b, C.Interpret(c, capacity, board).board.effects), Quiet(b));
            match c
            case Start => n == q.(start := true)
            case Stop => n == q.(stop := true)
            case Reset => n == q.(reset := true)
            case Configure(source, format, baud) =>
              n == q.(source := P.SourceByte(source), format := P.FormatByte(format), baud := baud)
            case M3Control(bits) => n == q.(release := And(bits, 1) != 0, realDap := And(bits, 2) != 0)
            case _ => n == b
  {
    hide And, C.Landed, C.Stats, WordsToLe, Applied;
    var effects := C.Interpret(c, capacity, board).board.effects;
    match c
    case Start =>
      SmallBits(1);
      CommandWrites(b, effects[0]);
      assert effects == [effects[0]];
    case Stop =>
      SmallBits(2);
      CommandWrites(b, effects[0]);
      assert effects == [effects[0]];
    case Reset =>
      SmallBits(4);
      CommandWrites(b, effects[0]);
      assert effects == [effects[0]];
    case M3Control(bits) =>
      CommandWrites(b, effects[0]);
      assert effects == [effects[0]];
    case Configure(source, format, baud) =>
      ConfigureReaches(source, format, baud, capacity, board, b);
    case LoadM3Chunk(offset, data) =>
      CommandWrites(b, effects[0]);
      assert effects == [effects[0]];
    case _ =>
      AppliedTo(b, [], C.StoreBram(0, []));
  }

  lemma ConfigureReaches(source: P.Source, format: P.Format, baud: u32, capacity: nat, board: C.Board, b: Block)
    requires board.effects == []
    ensures Applied(b, C.Interpret(P.Configure(source, format, baud), capacity, board).board.effects)
         == Quiet(b).(source := P.SourceByte(source), format := P.FormatByte(format), baud := baud)
  {
    var (f, g) := (P.SourceByte(source) as int, P.FormatByte(format) as int);
    var route := ConfigureEffects(source, format, baud, capacity, board);
    hide And, Applied, Apply, C.Interpret;
    SettingsWritten(b, f, g, baud);
    var (e1, e2) := (C.WriteRegister(0x0c, f + 0x100 * g), C.WriteRegister(0x10, baud));
    AppliedTo(b, route, e1);
    AppliedTo(b, route + [e1], e2);
    RouteAside(b, route);
  }

  lemma SettingsWritten(b: Block, source: nat, format: nat, baud: u32)
    requires source < 4 && format < 8
    ensures Apply(Apply(b, C.WriteRegister(0x0c, source + 0x100 * format)), C.WriteRegister(0x10, baud))
         == Quiet(b).(source := source, format := format, baud := baud)
  {
    SettingBits(source, format);
    hide And;
  }

  lemma ConfigureEffects(source: P.Source, format: P.Format, baud: u32, capacity: nat, board: C.Board) returns (route: seq<C.Effect>)
    requires board.effects == []
    ensures forall e <- route :: !e.WriteRegister?
    ensures var (f, g) := (P.SourceByte(source) as int, P.FormatByte(format) as int);
            C.Interpret(P.Configure(source, format, baud), capacity, board).board.effects
            == route + [C.WriteRegister(0x0c, f + 0x100 * g)] + [C.WriteRegister(0x10, baud)]
  {
    var effects := C.Interpret(P.Configure(source, format, baud), capacity, board).board.effects;
    route := effects[..|effects| - 2];
  }

  /** Selecting and enabling CoreSight does not touch the block. */
  lemma {:induction false} RouteAside(b: Block, route: seq<C.Effect>)
    requires forall e <- route :: !e.WriteRegister?
    ensures Applied(b, route) == b
  {
    if route != [] {
      RouteAside(b, route[..|route| - 1]);
    }
  }

  /** The processor clusters' traces: a configuration for one of them selects and enables that one and no
      other, before the source is set. */
  lemma RoutesOwnCluster(source: P.Source, format: P.Format, baud: u32, capacity: nat, board: C.Board, a53: bool)
    requires board.effects == []
    ensures var effects := C.Interpret(P.Configure(source, format, baud), capacity, board).board.effects;
            && (C.SelectCoresight(a53) in effects <==> source == if a53 then P.A53 else P.R5)
            && (C.EnableTrace(a53) in effects <==> source == if a53 then P.A53 else P.R5)
  {
  }

  /** A statistics reply is nine words: the block's counters in the order of their addresses, the wide ones as low
      and high half. */
  lemma StatsAreCounters(capacity: nat, board: C.Board, c: Counters) returns (w: seq<u32>)
    requires capacity >= 36 && forall a: nat :: C.ReadRegister(board.registers, a) == Read(c, a)
    ensures |w| == 9 && C.Interpret(P.GetStats, capacity, board).reply == Some(WordsToLe(w))
    ensures Wide(w[0], w[1]) == c.received && Wide(w[2], w[3]) == c.dropped
    ensures Wide(w[4], w[5]) == c.syncLoss && w[6] == c.highWater
    ensures Wide(w[7], w[8]) == c.dmaFaults
  {
    hide WordsToLe;
    w := C.Stats(board.registers);
    assert w[0] == Low(c.received) && w[1] == High(c.received) && w[2] == Low(c.dropped) && w[3] == High(c.dropped);
    assert w[4] == Low(c.syncLoss) && w[5] == High(c.syncLoss) && w[7] == Low(c.dmaFaults) && w[8] == High(c.dmaFaults);
  }

  /** What a load of the Cortex-M3 writes first holds the core, what it writes last lets it go, and neither
      routes the debug port to it. */
  lemma HoldsAndReleases(b: Block)
    ensures var (held, released) := (Apply(b, L.HOLD), Apply(b, L.RELEASE));
            && held == Quiet(b).(release := false, realDap := false)
            && released == Quiet(b).(release := true, realDap := false)
  {
    SmallBits(0);
    SmallBits(1);
    hide And;
  }
}
