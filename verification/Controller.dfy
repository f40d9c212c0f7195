/** The control commands as the firmware carries them out: register writes, CoreSight selection and
    the Cortex-M3's memory window. */
module Controller {
  import opened Bytes
  import opened P = ControlProtocol

  const M3_BRAM_SIZE := 0x1_0000
  const REG_CONTROL := 0x08
  const REG_SOURCE_FORMAT := 0x0c
  const REG_SWO_BAUD := 0x10
  const REG_M3_CONTROL := 0xa0
  /** The counter registers of a statistics reply, in order. */
  const STATS: seq<nat> := [0x40, 0x44, 0x48, 0x4c, 0x50, 0x54, 0x58, 0x60, 0x64]
  /** The product string, "ZUBoard-Orbtrace/1". */
  const INFO: seq<byte> := [0x5a, 0x55, 0x42, 0x6f, 0x61, 0x72, 0x64, 0x2d, 0x4f, 0x72, 0x62, 0x74, 0x72, 0x61,
                            0x63, 0x65, 0x2f, 0x31]

  datatype Effect =
    | SelectCoresight(a53: bool)
    | EnableTrace(a53: bool)
    | WriteRegister(offset: nat, value: nat)
    | StoreBram(offset: nat, data: seq<byte>)

  /** The board: what was done to it, its readable registers, and the memory window, some cells of
      which may be stuck at a value. */
  datatype Board = Board(effects: seq<Effect>, registers: map<nat, u32>, bram: seq<byte>, stuck: map<nat, byte>)

  function ReadRegister(registers: map<nat, u32>, offset: nat): u32 {
    if offset in registers then registers[offset] else 0
  }

  function Cell(stuck: map<nat, byte>, address: nat, value: byte): byte {
    if address in stuck then stuck[address] else value
  }

  /** The memory after storing `data` at `offset`. */
  function Landed(bram: seq<byte>, stuck: map<nat, byte>, offset: nat, data: seq<byte>): (m: seq<byte>)
    ensures |m| == |bram|
  {
    seq(|bram|, i requires 0 <= i < |bram| => LandedCell(bram, stuck, offset, data, i))
  }

  function LandedCell(bram: seq<byte>, stuck: map<nat, byte>, offset: nat, data: seq<byte>, i: nat): byte
    requires i < |bram|
  {
    if offset <= i < offset + |data| then Cell(stuck, i, data[i - offset]) else bram[i]
  }

  function Stats(registers: map<nat, u32>): (words: seq<u32>) {
    seq(|STATS|, i requires 0 <= i < |STATS| => ReadRegister(registers, STATS[i]))
  }

  /** The reply to one request, none when it is refused, and the board afterwards. */
  datatype Outcome = Outcome(reply: Option<seq<byte>>, board: Board)

  function Done(b: Board, effects: seq<Effect>): Outcome {
    Outcome(Some([0]), b.(effects := b.effects + effects))
  }

  /** What each command means. */
  function Interpret(c: Command, capacity: nat, b: Board): Outcome {
    match c
    case GetInfo => Outcome(if capacity < |INFO| then None else Some(INFO), b)
    case Configure(source, format, baud) =>
      var route := if source == R5 then [SelectCoresight(false), EnableTrace(false)]
                   else if source == A53 then [SelectCoresight(true), EnableTrace(true)] else [];
      var (s: int, f: int) := (SourceByte(source), FormatByte(format));
      Done(b, route + [WriteRegister(REG_SOURCE_FORMAT, s + 0x100 * f), WriteRegister(REG_SWO_BAUD, baud)])
    case Start => Done(b, [WriteRegister(REG_CONTROL, 1)])
    case Stop => Done(b, [WriteRegister(REG_CONTROL, 2)])
    case Reset => Done(b, [WriteRegister(REG_CONTROL, 4)])
    case GetStats => Outcome(if capacity < 36 then None else Some(WordsToLe(Stats(b.registers))), b)
    case LoadM3Chunk(offset, data) =>
      if offset + |data| > M3_BRAM_SIZE then Outcome(None, b)
      else Done(b.(bram := Landed(b.bram, b.stuck, offset, data)), [StoreBram(offset, data)])
    case ReadM3Bram(offset, length) =>
      if offset + length > M3_BRAM_SIZE || capacity < length || |b.bram| < offset + length then Outcome(None, b)
      else Outcome(Some(b.bram[offset..offset + length]), b)
    case M3Control(bits) => Done(b, [WriteRegister(REG_M3_CONTROL, bits)])
  }

  /** A configure request whose source or format byte names nothing: the host's decoder refuses it,
      the firmware writes it to the registers as it is. */
  predicate Unnamed(r: seq<byte>) {
    |r| == 9 && U16FromLe(r[..2]) == PROTOCOL_VERSION && r[2] == 2 && (SourceOf(r[3]).None? || FormatOf(r[4]).None?)
  }

  /** The firmware on raw bytes. */
  function Perform(r: seq<byte>, capacity: nat, b: Board): Outcome {
    if |r| < 3 || capacity == 0 || U16FromLe(r[..2]) != PROTOCOL_VERSION then Outcome(None, b)
    else if r[2] == 2 && |r| == 9 then
      var route := if r[3] == 1 then [SelectCoresight(false), EnableTrace(false)]
                   else if r[3] == 2 then [SelectCoresight(true), EnableTrace(true)] else [];
      var (s: int, f: int) := (r[3], r[4]);
      Done(b, route + [WriteRegister(REG_SOURCE_FORMAT, s + 0x100 * f), WriteRegister(REG_SWO_BAUD, U32FromLe(r[5..9]))])
    else match Decode(r)
      case Ok(c) => Interpret(c, capacity, b)
      case Err(_) => Outcome(None, b)
  }

  /** The firmware does what the host's decoder says a request means, and accepts nothing else but
      the unnamed configure requests. */
  lemma FirmwareFollowsHost(r: seq<byte>, capacity: nat, b: Board)
    requires capacity > 0
    ensures Decode(r).Ok? ==> Perform(r, capacity, b) == Interpret(Decode(r).value, capacity, b)
    ensures Decode(r).Err? ==> (Perform(r, capacity, b).reply.Some? <==> Unnamed(r))
  {
    hide U16FromLe, U32FromLe, Landed, WordsToLe, Stats;
  }

  /** A command is refused exactly when it names memory beyond the window or its answer does not fit, and then
      does nothing; room changes nothing else. */
  lemma RefusedIff(c: Command, capacity: nat, b: Board)
    requires capacity > 0 && |b.bram| == M3_BRAM_SIZE
    ensures var (o, roomy) := (Interpret(c, capacity, b), Interpret(c, M3_BRAM_SIZE, b));
            && (roomy.reply.None? <==> || (c.LoadM3Chunk? && c.offset + |c.data| > |b.bram|)
                                       || (c.ReadM3Bram? && c.offset + c.length > |b.bram|))
            && o == if roomy.reply.Some? && |roomy.reply.value| <= capacity then roomy else Outcome(None, b)
  {
    hide Landed;
  }

  /** A chunk stored where no cell is stuck reads back, and the memory around it is as it was. */
  lemma ChunkReadsBack(offset: u32, data: seq<byte>, capacity: nat, b: Board)
    requires |data| <= capacity && |data| < 0x1_0000 && offset + |data| <= M3_BRAM_SIZE == |b.bram|
    requires forall i <- b.stuck :: !(offset <= i < offset + |data|)
    ensures var stored := Interpret(LoadM3Chunk(offset, data), capacity, b).board;
            && Interpret(ReadM3Bram(offset, |data|), capacity, stored) == Outcome(Some(data), stored)
            && stored.bram[..offset] == b.bram[..offset]
            && stored.bram[offset + |data|..] == b.bram[offset + |data|..]
  {
    assert Landed(b.bram, b.stuck, offset, data)[offset..offset + |data|] == data;
  }

  /** The word accesses of a store land the same octets as storing them one by one. */
  lemma LandedGrows(bram: seq<byte>, stuck: map<nat, byte>, offset: nat, data: seq<byte>, n: nat)
    requires n < |data| && offset + |data| <= |bram|
    ensures Landed(bram, stuck, offset, data[..n])[offset + n := Cell(stuck, offset + n, data[n])]
         == Landed(bram, stuck, offset, data[..n + 1])
  {
  }

  lemma LandedNone(bram: seq<byte>, stuck: map<nat, byte>, offset: nat)
    ensures Landed(bram, stuck, offset, []) == bram
  {
  }

  /** A reply written at `at`, everything else as it was. */
  function Written(was: seq<byte>, at: nat, reply: seq<byte>): seq<byte>
    requires at + |reply| <= |was|
  {
    was[..at] + reply + was[at + |reply|..]
  }

  lemma WrittenGrows(was: seq<byte>, at: nat, done: seq<byte>, more: seq<byte>)
    requires at + |done| + |more| <= |was|
    ensures Written(Written(was, at, done), at + |done|, more) == Written(was, at, done + more)
    ensures Written(was, at, []) == was
  {
  }

  method PutWord(out: array<byte>, at: nat, octets: seq<byte>)
    requires |octets| == 4 && at + 4 <= out.Length
    modifies out
    ensures out[..] == Written(old(out[..]), at, octets)
  {
    out[at], out[at + 1], out[at + 2], out[at + 3] := octets[0], octets[1], octets[2], octets[3];
  }

  method PutByte(out: array<byte>, at: nat, octet: byte)
    requires at < out.Length
    modifies out
    ensures out[..] == Written(old(out[..]), at, [octet])
  {
    out[at] := octet;
  }

  /** The board as the firmware reaches it. */
  class Io {
    var effects: seq<Effect>
    const registers: map<nat, u32>
    const stuck: map<nat, byte>
    const bram: array<byte>

    ghost predicate Valid()
      reads this, bram
    {
      bram.Length == M3_BRAM_SIZE
    }

    ghost function Now(): Board
      reads this, bram
    {
      Board(effects, registers, bram[..], stuck)
    }

    constructor (registers: map<nat, u32>, stuck: map<nat, byte>)
      ensures Valid() && fresh(bram)
      ensures this.registers == registers && this.stuck == stuck && effects == []
    {
      this.registers, this.stuck, effects := registers, stuck, [];
      bram := new byte[M3_BRAM_SIZE](_ => 0);
    }

    method Write(offset: nat, value: nat)
      modifies this
      ensures effects == old(effects) + [WriteRegister(offset, value)]
    {
      effects := effects + [WriteRegister(offset, value)];
    }

    method StoreByte(address: nat, value: byte)
      requires address < bram.Length
      modifies bram
      ensures bram[..] == old(bram[..])[address := Cell(stuck, address, value)]
    {
      bram[address] := Cell(stuck, address, value);
    }

    /** One 32-bit store. */
    method StoreWord(address: nat, word: u32)
      requires address + 4 <= bram.Length
      modifies bram
      ensures bram[..] == Landed(old(bram[..]), stuck, address, U32ToLe(word))
    {
      var octets := U32ToLe(word);
      hide U32ToLe, U32FromLe;
      ghost var was := bram[..];
      LandedNone(was, stuck, address);
      assert octets[..0] == [];
      for i := 0 to 4
        invariant bram[..] == Landed(was, stuck, address, octets[..i])
      {
        LandedGrows(was, stuck, address, octets, i);
        StoreByte(address + i, octets[i]);
      }
      assert octets[..4] == octets;
    }

    /** Whole words first, then the bytes left over. */
    method WriteM3Bram(offset: nat, data: seq<byte>)
      requires Valid() && offset + |data| <= M3_BRAM_SIZE
      modifies this, bram
      ensures Valid()
      ensures Now() == Board(old(effects) + [StoreBram(offset, data)], registers,
                             Landed(old(bram[..]), stuck, offset, data), stuck)
    {
      effects := effects + [StoreBram(offset, data)];
      ghost var was := bram[..];
      var n, address := 0, offset;
      LandedNone(was, stuck, offset);
      assert data[..0] == [];
      while n + 4 <= |data|
        invariant 0 <= n <= |data| && address == offset + n && n % 4 == 0
        invariant bram[..] == Landed(was, stuck, offset, data[..n])
        invariant effects == old(effects) + [StoreBram(offset, data)]
      {
        var chunk := data[n..n + 4];
        StoreWord(address, U32FromLe(chunk));
        U32ToLeFromLe(chunk);
        assert Landed(Landed(was, stuck, offset, data[..n]), stuck, address, chunk) == Landed(was, stuck, offset, data[..n + 4]);
        address := address + 4;
        n := n + 4;
      }
      while n < |data|
        invariant 0 <= n <= |data| && address <= offset + n
        invariant bram[..] == Landed(was, stuck, offset, data[..n])
        invariant effects == old(effects) + [StoreBram(offset, data)]
      {
        LandedGrows(was, stuck, offset, data, n);
        StoreByte(offset + n, data[n]);
        n := n + 1;
      }
      assert data[..n] == data;
    }

    /** Whole words first, then the bytes left over, into `out[at..at + length]`. */
    method ReadM3Bram(offset: nat, out: array<byte>, at: nat, length: nat)
      requires Valid() && offset + length <= M3_BRAM_SIZE && at + length <= out.Length && out != bram
      modifies out
      ensures out[..] == Written(old(out[..]), at, bram[offset..offset + length])
    {
      hide U32ToLe, U32FromLe, Written;
      var n := 0;
      ghost var was := out[..];
      WrittenGrows(was, at, [], []);
      assert bram[offset..offset] == [];
      while n + 4 <= length
        invariant 0 <= n <= length
        invariant out[..] == Written(was, at, bram[offset..offset + n])
      {
        var octets := bram[offset + n..offset + n + 4];
        U32ToLeFromLe(octets);
        PutWord(out, at + n, U32ToLe(U32FromLe(octets)));
        WrittenGrows(was, at, bram[offset..offset + n], octets);
        n := n + 4;
        assert bram[offset..offset + n - 4] + octets == bram[offset..offset + n];
      }
      while n < length
        invariant 0 <= n <= length
        invariant out[..] == Written(was, at, bram[offset..offset + n])
      {
        PutByte(out, at + n, bram[offset + n]);
        WrittenGrows(was, at, bram[offset..offset + n], [bram[offset + n]]);
        n := n + 1;
        assert bram[offset..offset + n - 1] + [bram[offset + n - 1]] == bram[offset..offset + n];
      }
    }
  }

  lemma StatsFit(registers: map<nat, u32>)
    ensures |WordsToLe(Stats(registers))| == 36
  {
  }

  lemma StatsGrow(registers: map<nat, u32>, i: nat)
    requires i < |STATS|
    ensures WordsToLe(Stats(registers)[..i + 1])
         == WordsToLe(Stats(registers)[..i]) + U32ToLe(ReadRegister(registers, STATS[i]))
  {
    var s := Stats(registers);
    assert s[..i + 1][..i] == s[..i];
  }

  method Copy(out: array<byte>, at: nat, octets: seq<byte>)
    requires at + |octets| <= out.Length
    modifies out
    ensures out[..] == Written(old(out[..]), at, octets)
  {
    forall i | 0 <= i < |octets| {
      out[at + i] := octets[i];
    }
  }

  class Controller {
    const io: Io

    constructor (io: Io)
      ensures this.io == io
    {
      this.io := io;
    }

    /** Carry out one request; the reply goes into `response[at..]`. */
    method Command(request: seq<byte>, response: array<byte>, at: nat) returns (length: Option<nat>)
      requires io.Valid() && at <= response.Length && response != io.bram
      modifies io, io.bram, response
      ensures io.Valid()
      ensures var o := Perform(request, response.Length - at, old(io.Now()));
              && io.Now() == o.board
              && match o.reply
                 case None => length == None && response[..] == old(response[..])
                 case Some(reply) =>
                   && length == Some(|reply|) && at + |reply| <= response.Length
                   && response[..] == Written(old(response[..]), at, reply)
    {
      hide U16FromLe, U32FromLe, U32ToLe, WordsToLe, Landed, Stats, Written;
      var capacity := response.Length - at;
      if |request| < 3 || capacity == 0 || U16FromLe(request[..2]) != PROTOCOL_VERSION {
        return None;
      }
      var code := request[2];
      if code == 1 {
        if capacity < |INFO| {
          return None;
        }
        Copy(response, at, INFO);
        return Some(|INFO|);
      } else if code == 2 && |request| == 9 {
        Configure(request);
        PutByte(response, at, 0);
        return Some(1);
      } else if code == 3 || code == 4 || code == 5 {
        io.Write(REG_CONTROL, if code == 3 then 1 else if code == 4 then 2 else 4);
        PutByte(response, at, 0);
        return Some(1);
      } else if code == 6 && capacity >= 36 {
        CopyStats(response, at);
        return Some(36);
      } else if code == 7 && |request| >= 7 {
        var offset := U32FromLe(request[3..7]);
        if offset + |request[7..]| > M3_BRAM_SIZE {
          return None;
        }
        io.WriteM3Bram(offset, request[7..]);
        PutByte(response, at, 0);
        return Some(1);
      } else if code == 8 && |request| == 9 {
        var offset, count := U32FromLe(request[3..7]), U16FromLe(request[7..9]);
        if offset + count > M3_BRAM_SIZE || capacity < count {
          return None;
        }
        io.ReadM3Bram(offset, response, at, count);
        return Some(count);
      } else if code == 9 && |request| == 4 {
        io.Write(REG_M3_CONTROL, request[3]);
        PutByte(response, at, 0);
        return Some(1);
      }
      return None;
    }

    method Configure(request: seq<byte>)
      requires io.Valid() && |request| == 9 && request[2] == 2 && U16FromLe(request[..2]) == PROTOCOL_VERSION
      modifies io
      ensures io.Valid() && io.Now() == Perform(request, 1, old(io.Now())).board
    {
      hide U16FromLe, U32FromLe;
      if request[3] == 1 || request[3] == 2 {
        io.effects := io.effects + [SelectCoresight(request[3] == 2)];
        io.effects := io.effects + [EnableTrace(request[3] == 2)];
      }
      var source: int, format: int := request[3], request[4];
      io.Write(REG_SOURCE_FORMAT, source + 0x100 * format);
      io.Write(REG_SWO_BAUD, U32FromLe(request[5..9]));
    }

    method CopyStats(response: array<byte>, at: nat)
      requires at + 36 <= response.Length
      modifies response
      ensures |WordsToLe(Stats(io.registers))| == 36
      ensures response[..] == Written(old(response[..]), at, WordsToLe(Stats(io.registers)))
    {
      ghost var was, all := response[..], Stats(io.registers);
      StatsFit(io.registers);
      hide WordsToLe, Stats, U32ToLe, ReadRegister, Written;
      WrittenGrows(was, at, [], []);
      assert all[..0] == [];
      assert WordsToLe([]) == [] by { StatsEmpty(); }
      for i := 0 to |STATS|
        invariant |all| == |STATS|
        invariant |WordsToLe(all[..i])| == 4 * i
        invariant response[..] == Written(was, at, WordsToLe(all[..i]))
      {
        var octets := U32ToLe(ReadRegister(io.registers, STATS[i]));
        StatsGrow(io.registers, i);
        WrittenGrows(was, at, WordsToLe(all[..i]), octets);
        PutWord(response, at + 4 * i, octets);
      }
      assert all[..|STATS|] == all;
    }
  }

  lemma StatsEmpty()
    ensures WordsToLe([]) == []
  {
  }
}
