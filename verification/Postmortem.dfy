/** The postmortem record: how an exception handler seals it, and how the host finds and checks it in
    a memory dump. */
module Postmortem {
  import opened Bytes
  import opened Crc32
  import opened GrayCode

  const PM_MAGIC: u32 := 0x504D_0001
  const PM_VERSION: u32 := 1
  const PM_EXC_DABT: u32 := 3

  const OFF_MAGIC := 0
  const OFF_VERSION := 4
  const OFF_EXC_TYPE := 8
  const OFF_CPSR := 12
  const OFF_PC := 16
  const OFF_LR_RAW := 20
  const OFF_R := 24
  const OFF_DFSR := 76
  const OFF_DFAR := 80
  const OFF_IFSR := 84
  const OFF_CRC32 := 88
  const RECORD_SIZE := 92

  function Le32(buf: seq<byte>, offset: nat): u32
    requires offset + 4 <= |buf|
  {
    U32FromLe(buf[offset..offset + 4])
  }

  /** The number a word's bits stand for. */
  function Value(b: Bits): nat {
    if b == [] then 0 else (if b[0] then 1 else 0) + 2 * Value(b[1..])
  }

  lemma {:induction false} ValueOfBits(b: Bits)
    ensures ToBits(Value(b), |b|) == b
    ensures Value(b) < Arith.Pow2(|b|)
    decreases |b|
  {
    if b != [] {
      ValueOfBits(b[1..]);
      assert Value(b) % 2 == (if b[0] then 1 else 0) && Value(b) / 2 == Value(b[1..]);
    }
  }

  /** The report the decoder prints. */
  datatype Report = Report(excType: u32, cpsr: u32, pc: u32, lrRaw: u32, r: seq<u32>, dfsr: u32, dfar: u32, ifsr: u32)

  function Registers(buf: seq<byte>): (r: seq<u32>)
    requires |buf| >= RECORD_SIZE
    ensures |r| == 13
  {
    seq(13, i requires 0 <= i < 13 => Le32(buf, OFF_R + i * 4))
  }

  function ReportOf(buf: seq<byte>): Report
    requires |buf| >= RECORD_SIZE
  {
    Report(Le32(buf, OFF_EXC_TYPE), Le32(buf, OFF_CPSR), Le32(buf, OFF_PC), Le32(buf, OFF_LR_RAW),
           Registers(buf), Le32(buf, OFF_DFSR), Le32(buf, OFF_DFAR), Le32(buf, OFF_IFSR))
  }

  predicate Accepts(buf: seq<byte>) {
    && |buf| >= RECORD_SIZE && Le32(buf, OFF_MAGIC) == PM_MAGIC && Le32(buf, OFF_VERSION) == PM_VERSION
    && Le32(buf, OFF_CRC32) == Value(Crc(buf[..OFF_CRC32]))
  }

  method ReadRegisters(buf: seq<byte>) returns (r: seq<u32>)
    requires |buf| >= RECORD_SIZE
    ensures r == Registers(buf)
  {
    hide U32FromLe, Le32;
    r := [];
    for i := 0 to 13
      invariant r == Registers(buf)[..i]
    {
      r := r + [Le32(buf, OFF_R + i * 4)];
    }
  }

  /** Parse a record at the start of `buf`: what is printed, and whether the record is valid.  A record
      with a bad checksum is printed and refused. */
  method TryParseAndPrint(buf: seq<byte>) returns (printed: Option<Report>, ok: bool)
    ensures ok <==> Accepts(buf)
    ensures ok ==> printed == Some(ReportOf(buf))
    ensures printed.Some? <==> |buf| >= RECORD_SIZE && Le32(buf, OFF_MAGIC) == PM_MAGIC && Le32(buf, OFF_VERSION) == PM_VERSION
  {
    hide U32FromLe, Le32, Crc, Value, Registers;
    if |buf| < RECORD_SIZE {
      return None, false;
    }
    if Le32(buf, OFF_MAGIC) != PM_MAGIC {
      return None, false;
    }
    if Le32(buf, OFF_VERSION) != PM_VERSION {
      return None, false;
    }
    var stored := Le32(buf, OFF_CRC32);
    var computed := ComputeCrc(buf[..OFF_CRC32]);
    var r := ReadRegisters(buf);
    return Some(Report(Le32(buf, OFF_EXC_TYPE), Le32(buf, OFF_CPSR), Le32(buf, OFF_PC), Le32(buf, OFF_LR_RAW),
                       r, Le32(buf, OFF_DFSR), Le32(buf, OFF_DFAR), Le32(buf, OFF_IFSR))),
           Value(computed) == stored;
  }

  /** The first valid record at an aligned offset of a dump, if there is one. */
  method Scan(buf: seq<byte>) returns (found: Option<nat>)
    ensures match found
            case Some(offset) =>
              && offset % 4 == 0 && offset <= |buf| && Accepts(buf[offset..])
              && forall k :: 0 <= k < offset && k % 4 == 0 ==> !Accepts(buf[k..])
            case None => forall k :: 0 <= k <= |buf| && k % 4 == 0 ==> !Accepts(buf[k..])
  {
    var offset := 0;
    hide Accepts;
    while offset + RECORD_SIZE <= |buf|
      invariant offset % 4 == 0
      invariant forall k :: 0 <= k < offset && k <= |buf| && k % 4 == 0 ==> !Accepts(buf[k..])
    {
      if Le32(buf, offset) == PM_MAGIC {
        var printed, ok := TryParseAndPrint(buf[offset..]);
        if ok {
          return Some(offset);
        }
      } else {
        NotMagic(buf, offset);
      }
      offset := offset + 4;
    }
    forall k | offset <= k <= |buf| ensures !Accepts(buf[k..]) {
      TooShort(buf[k..]);
    }
    return None;
  }

  lemma NotMagic(buf: seq<byte>, offset: nat)
    requires offset + RECORD_SIZE <= |buf| && Le32(buf, offset) != PM_MAGIC
    ensures !Accepts(buf[offset..])
  {
    assert buf[offset..][0..4] == buf[offset..offset + 4];
  }

  lemma TooShort(buf: seq<byte>)
    requires |buf| < RECORD_SIZE
    ensures !Accepts(buf)
  {
  }

  // ---- Which records are accepted ----

  /** Bits of a word written least significant octet first. */
  lemma WordBits(b: seq<byte>)
    requires |b| == 4
    ensures ToBits(U32FromLe(b), 32) == BitsOf(b)
  {
    var b0: int, b1: int, b2: int, b3: int := b[0], b[1], b[2], b[3];
    OctetOnTop(b0, b1 + 256 * (b2 + 256 * b3), 24);
    OctetOnTop(b1, b2 + 256 * b3, 16);
    OctetOnTop(b2, b3, 8);
    hide OctetBits, ToBits;
    BitsOfCons(b);
    BitsOfCons(b[1..]);
    BitsOfCons(b[2..]);
    BitsOfCons(b[3..]);
    assert OctetBits(b3) + [] == OctetBits(b3) == ToBits(b3, 8) by { OctetIs(b3); }
    hide BitsOf;
    assert b[1..][1..] == b[2..] && b[2..][1..] == b[3..] && b[3..][1..] == [];
  }

  lemma OctetIs(b: byte)
    ensures OctetBits(b) == ToBits(b, 8)
  {
  }

  lemma BitsOfCons(b: seq<byte>)
    requires b != []
    ensures BitsOf(b) == OctetBits(b[0]) + BitsOf(b[1..]) && BitsOf([]) == []
  {
  }

  lemma {:induction false} LowBitsOnTop(x: nat, rest: nat, m: nat, n: nat)
    requires x < Arith.Pow2(m)
    ensures ToBits(x + Arith.Pow2(m) * rest, m + n) == ToBits(x, m) + ToBits(rest, n)
    decreases m
  {
    if m > 0 {
      var p := Arith.Pow2(m - 1) * rest;
      assert Arith.Pow2(m) * rest == 2 * p;
      assert (x + 2 * p) % 2 == x % 2 && (x + 2 * p) / 2 == x / 2 + p;
      LowBitsOnTop(x / 2, rest, m - 1, n);
    }
  }

  lemma OctetOnTop(b: byte, rest: nat, n: nat)
    ensures var octet: int := b;
            ToBits(octet + 256 * rest, 8 + n) == OctetBits(b) + ToBits(rest, n)
  {
    assert Arith.Pow2(8) == 256;
    LowBitsOnTop(b, rest, 8, n);
  }

  /** The stored number is the checksum exactly when the stored octets are the checksum's bits. */
  lemma StoredIff(seal: seq<byte>, crc: Word)
    requires |seal| == 4
    ensures U32FromLe(seal) == Value(crc) <==> BitsOf(seal) == crc
  {
    WordBits(seal);
    ValueOfBits(crc);
    if BitsOf(seal) == crc {
      FitsWord(U32FromLe(seal));
      ToBitsInjective(U32FromLe(seal), Value(crc), 32);
    }
  }

  lemma FitsWord(x: nat)
    requires x < 0x1_0000_0000
    ensures x < Arith.Pow2(32)
  {
    assert Arith.Pow2(8) == 256;
    Pow2Sum(8, 8);
    Pow2Sum(16, 16);
  }

  /** The checksum part of acceptance, said of all 92 octets at once. */
  lemma AcceptsIffResidue(buf: seq<byte>)
    requires |buf| >= RECORD_SIZE
    ensures Accepts(buf) <==>
              && Le32(buf, OFF_MAGIC) == PM_MAGIC && Le32(buf, OFF_VERSION) == PM_VERSION
              && Register(ONES, buf[..RECORD_SIZE]) == RESIDUE
  {
    var data, seal := buf[..OFF_CRC32], buf[OFF_CRC32..RECORD_SIZE];
    assert data + seal == buf[..RECORD_SIZE];
    StoredIff(seal, Crc(data));
    SealedIff(data, seal);
    hide Crc, Register, BitsOf, Value, U32FromLe;
  }

  /** Every valid record begins with the octets 01 00 "MP" and version 1. */
  lemma RecordHeader(buf: seq<byte>)
    requires Accepts(buf)
    ensures buf[..8] == [0x01, 0x00, 0x4d, 0x50, 0x01, 0x00, 0x00, 0x00]
  {
    hide Crc, Value, U32ToLe, U32FromLe;
    var magic, version := buf[0..4], buf[4..8];
    U32ToLeFromLe(magic);
    U32ToLeFromLe(version);
    HeaderOctets();
    assert buf[..8] == magic + version;
  }

  lemma HeaderOctets()
    ensures U32ToLe(0x504D_0001) == [0x01, 0x00, 0x4d, 0x50] && U32ToLe(1) == [0x01, 0x00, 0x00, 0x00]
  {
  }

  /** A valid record damaged in any way within any four consecutive octets, its checksum's included,
      is refused. */
  lemma DamageRefused(before: seq<byte>, w: seq<byte>, v: seq<byte>, after: seq<byte>)
    requires Accepts(before + w + after)
    requires |w| == |v| <= 4 && w != v && |before| + |w| <= RECORD_SIZE
    ensures !Accepts(before + v + after)
  {
    var good, bad, n := before + w + after, before + v + after, RECORD_SIZE - |before| - |w|;
    AcceptsIffResidue(good);
    AcceptsIffResidue(bad);
    assert good[..RECORD_SIZE] == before + w + after[..n];
    assert bad[..RECORD_SIZE] == before + v + after[..n];
    hide Accepts, Register, Crc;
    BurstDetected(ONES, before, w, v, after[..n]);
  }

  // ---- The writer ----

  function LrToPcOffset(excType: u32): nat {
    if excType == PM_EXC_DABT then 8 else 4
  }

  /** The program counter saved for an exception. */
  function SavedPc(excType: u32, lr: u32): u32 {
    (lr - LrToPcOffset(excType) + 0x1_0000_0000) % 0x1_0000_0000
  }

  /** The processor enters an exception with the link register past the instruction at fault: by eight bytes
      on a data abort, type 3, by four on an undefined instruction, a prefetch abort and the reserved vector.
      The saved program counter is that instruction, at the ends of the address space too. */
  lemma SavesFaultAddress(excType: u32, address: u32)
    requires 1 <= excType <= 4
    ensures SavedPc(excType, (address + if excType == 3 then 8 else 4) % 0x1_0000_0000) == address
  {
  }

  /** The record in its fixed place in memory. */
  class PmRecord {
    var magic: u32
    var version: u32
    var excType: u32
    var cpsr: u32
    var pc: u32
    var lrRaw: u32
    const r: array<u32>
    var dfsr: u32
    var dfar: u32
    var ifsr: u32
    var crc32: u32

    ghost predicate Valid()
      reads this
    {
      r.Length == 13
    }

    /** The octets the checksum covers. */
    function Covered(): (b: seq<byte>)
      requires Valid()
      reads this, r
      ensures |b| == OFF_CRC32
    {
      WordsToLe([magic, version, excType, cpsr, pc, lrRaw] + r[..] + [dfsr, dfar, ifsr])
    }

    /** The whole record as a memory dump shows it. */
    function Image(): (b: seq<byte>)
      requires Valid()
      reads this, r
      ensures |b| == RECORD_SIZE
    {
      Covered() + U32ToLe(crc32)
    }

    constructor ()
      ensures Valid()
    {
      r := new u32[13];
      magic, version, excType, cpsr, pc, lrRaw := 0, 0, 0, 0, 0, 0;
      dfsr, dfar, ifsr, crc32 := 0, 0, 0, 0;
    }

    /** Fill and seal the record: the decoder will report what the handler was given, the program
        counter being the link register less the offset of the exception. */
    method SaveFromExc(exc: u32, spsr: u32, lrExc: u32, frame: seq<u32>, faultStatus: u32, faultAddress: u32, instructionStatus: u32)
      requires Valid() && |frame| >= 13
      modifies this, r
      ensures Valid()
      ensures Sealed(Image(), Report(exc, spsr, SavedPc(exc, lrExc), lrExc,
                                     frame[..13], faultStatus, faultAddress, instructionStatus))
    {
      hide Sealed, WordsToLe, U32ToLe, Value, Crc;
      magic := PM_MAGIC;
      version := PM_VERSION;
      excType := exc;
      cpsr := spsr;
      lrRaw := lrExc;
      pc := SavedPc(exc, lrExc);
      ghost var given := Report(exc, spsr, pc, lrExc, frame[..13], faultStatus, faultAddress, instructionStatus);
      for i := 0 to 13
        modifies r
        invariant r[..i] == frame[..i]
      {
        r[i] := frame[i];
      }
      dfsr := faultStatus;
      dfar := faultAddress;
      ifsr := instructionStatus;
      assert r[..] == frame[..13];
      assert Covered() == WordsToLe(Words(given));
      var crc := ComputeCrc(Covered());
      ValueFits(crc);
      crc32 := Value(crc);
      SealedAccepted(given, crc32);
    }
  }

  lemma ValueFits(w: Word)
    ensures Value(w) < 0x1_0000_0000
  {
    ValueOfBits(w);
    assert Arith.Pow2(8) == 256;
    Pow2Sum(8, 8);
    Pow2Sum(16, 16);
  }

  lemma {:induction false} WordAt(words: seq<u32>, after: seq<byte>, i: nat)
    requires i < |words|
    ensures Le32(WordsToLe(words) + after, 4 * i) == words[i]
    decreases |words|
  {
    var last := |words| - 1;
    var head, tail := WordsToLe(words[..last]), U32ToLe(words[last]);
    hide U32ToLe, U32FromLe;
    assert WordsToLe(words) + after == head + (tail + after);
    if i < last {
      WordAt(words[..last], tail + after, i);
    } else {
      assert (head + (tail + after))[4 * i..4 * i + 4] == tail;
    }
  }

  /** The words the checksum covers. */
  function Words(p: Report): (w: seq<u32>)
    requires |p.r| == 13
    ensures |w| == 22
  {
    [PM_MAGIC, PM_VERSION, p.excType, p.cpsr, p.pc, p.lrRaw] + p.r + [p.dfsr, p.dfar, p.ifsr]
  }

  /** Wherever this image lies in a dump, the decoder accepts it and prints this report. */
  ghost predicate Sealed(image: seq<byte>, p: Report) {
    forall after: seq<byte> :: Accepts(image + after) && ReportOf(image + after) == p
  }

  lemma WordsOf(words: seq<u32>, seal: seq<byte>, after: seq<byte>)
    requires |words| == 22 && |seal| == 4
    ensures var image := WordsToLe(words) + seal + after;
            && (forall i {:trigger words[i]} :: 0 <= i < 22 ==> Le32(image, 4 * i) == words[i])
            && image[OFF_CRC32..OFF_CRC32 + 4] == seal && image[..OFF_CRC32] == WordsToLe(words)
  {
    var image := WordsToLe(words) + seal + after;
    hide WordsToLe, Le32;
    assert image == WordsToLe(words) + (seal + after);
    forall i | 0 <= i < 22 ensures Le32(image, 4 * i) == words[i] {
      WordAt(words, seal + after, i);
    }
  }

  lemma RegistersRead(image: seq<byte>, words: seq<u32>)
    requires |words| == 22 && |image| >= RECORD_SIZE
    requires forall i {:trigger words[i]} :: 0 <= i < 22 ==> Le32(image, 4 * i) == words[i]
    ensures Registers(image) == words[6..19]
  {
    hide Le32;
    forall i | 0 <= i < 13 ensures Registers(image)[i] == words[6..19][i] {
      assert Le32(image, 4 * (6 + i)) == words[6 + i];
    }
  }

  /** A record sealed with its own checksum is accepted, and reads as it was written. */
  lemma SealedAccepted(p: Report, crc: u32)
    requires |p.r| == 13 && crc == Value(Crc(WordsToLe(Words(p))))
    ensures Sealed(WordsToLe(Words(p)) + U32ToLe(crc), p)
  {
    forall after: seq<byte> ensures var image := WordsToLe(Words(p)) + U32ToLe(crc) + after;
                                    Accepts(image) && ReportOf(image) == p {
      SealedHere(p, crc, after);
    }
  }

  lemma SealedHere(p: Report, crc: u32, after: seq<byte>)
    requires |p.r| == 13 && crc == Value(Crc(WordsToLe(Words(p))))
    ensures var image := WordsToLe(Words(p)) + U32ToLe(crc) + after;
            Accepts(image) && ReportOf(image) == p
  {
    var words, image := Words(p), WordsToLe(Words(p)) + U32ToLe(crc) + after;
    WordsOf(words, U32ToLe(crc), after);
    RegistersRead(image, words);
    assert Le32(image, OFF_CRC32) == crc by {
      hide U32ToLe, WordsToLe, Crc;
    }
    assert words[6..19] == p.r;
    hide Le32, Registers, Crc, WordsToLe, U32ToLe, Value;
    assert forall i {:trigger words[i]} :: 0 <= i < 22 ==> Le32(image, 4 * i) == words[i];
    assert words[0] == PM_MAGIC && words[1] == PM_VERSION;
    assert words[2] == p.excType && words[3] == p.cpsr && words[4] == p.pc && words[5] == p.lrRaw;
    assert words[19] == p.dfsr && words[20] == p.dfar && words[21] == p.ifsr;
  }
}
