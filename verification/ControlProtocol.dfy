/** The control commands as the host writes and reads them. */
module ControlProtocol {
  import opened Bytes

  const PROTOCOL_VERSION := 1
  const MAX_CONTROL_PAYLOAD := 4096

  datatype Source = CortexM3 | R5 | A53 | Test

  datatype Format = Tpiu1 | Tpiu2 | Tpiu4 | SwoNrz | SwoManchester

  datatype Command =
    | GetInfo
    | Configure(source: Source, format: Format, baud: u32)
    | Start
    | Stop
    | Reset
    | GetStats
    | LoadM3Chunk(offset: u32, data: seq<byte>)
    | ReadM3Bram(offset: u32, length: u16)
    | M3Control(bits: byte)

  datatype CommandError = Short | BadVersion(version: nat) | UnknownCommand(code: byte) | InvalidValue

  function SourceByte(s: Source): byte {
    match s
    case CortexM3 => 0
    case R5 => 1
    case A53 => 2
    case Test => 3
  }

  function FormatByte(f: Format): byte {
    match f
    case Tpiu1 => 0
    case Tpiu2 => 1
    case Tpiu4 => 2
    case SwoNrz => 3
    case SwoManchester => 4
  }

  function SourceOf(b: byte): Option<Source> {
    if b == 0 then Some(CortexM3) else if b == 1 then Some(R5) else if b == 2 then Some(A53)
    else if b == 3 then Some(Test) else None
  }

  function FormatOf(b: byte): Option<Format> {
    if b == 0 then Some(Tpiu1) else if b == 1 then Some(Tpiu2) else if b == 2 then Some(Tpiu4)
    else if b == 3 then Some(SwoNrz) else if b == 4 then Some(SwoManchester) else None
  }

  function Encode(c: Command): seq<byte> {
    U16ToLe(PROTOCOL_VERSION) +
    match c
    case GetInfo => [1]
    case Configure(source, format, baud) => [2, SourceByte(source), FormatByte(format)] + U32ToLe(baud)
    case Start => [3]
    case Stop => [4]
    case Reset => [5]
    case GetStats => [6]
    case LoadM3Chunk(offset, data) => [7] + U32ToLe(offset) + data
    case ReadM3Bram(offset, length) => [8] + U32ToLe(offset) + U16ToLe(length)
    case M3Control(bits) => [9, bits]
  }

  function Decode(r: seq<byte>): Result<Command, CommandError> {
    if |r| < 3 then Err(Short) else
    var version := U16FromLe(r[..2]);
    if version != PROTOCOL_VERSION then Err(BadVersion(version))
    else if r[2] == 1 then Ok(GetInfo)
    else if r[2] == 2 then
      if |r| != 9 then Err(Short)
      else if SourceOf(r[3]).None? || FormatOf(r[4]).None? then Err(InvalidValue)
      else Ok(Configure(SourceOf(r[3]).value, FormatOf(r[4]).value, U32FromLe(r[5..9])))
    else if r[2] == 3 then Ok(Start)
    else if r[2] == 4 then Ok(Stop)
    else if r[2] == 5 then Ok(Reset)
    else if r[2] == 6 then Ok(GetStats)
    else if r[2] == 7 then
      if |r| < 7 then Err(Short) else Ok(LoadM3Chunk(U32FromLe(r[3..7]), r[7..]))
    else if r[2] == 8 then
      if |r| != 9 then Err(Short) else Ok(ReadM3Bram(U32FromLe(r[3..7]), U16FromLe(r[7..9])))
    else if r[2] == 9 then
      if |r| != 4 then Err(Short) else Ok(M3Control(r[3]))
    else Err(UnknownCommand(r[2]))
  }

  lemma SourceRoundTrip(s: Source, f: Format)
    ensures SourceOf(SourceByte(s)) == Some(s) && FormatOf(FormatByte(f)) == Some(f)
  {
  }

  /** Every command survives the wire. */
  lemma DecodeEncode(c: Command)
    ensures Decode(Encode(c)) == Ok(c)
  {
    var r := Encode(c);
    assert r[..2] == U16ToLe(PROTOCOL_VERSION);
    hide U16ToLe, U32ToLe, U16FromLe, U32FromLe, SourceByte, FormatByte, SourceOf, FormatOf;
    match c
    case Configure(source, format, baud) =>
      SourceRoundTrip(source, format);
      assert r[5..9] == U32ToLe(baud);
    case LoadM3Chunk(offset, data) =>
      assert r[3..7] == U32ToLe(offset) && r[7..] == data;
    case ReadM3Bram(offset, length) =>
      assert r[3..7] == U32ToLe(offset) && r[7..9] == U16ToLe(length);
    case M3Control(bits) =>
    case _ =>
  }
}
