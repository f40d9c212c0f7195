/** The reflected CRC-32 of IEEE 802.3 section 3.2.9, as the interleaved bit loop the writer and the
    decoder share computes it, and which changes of the data it must notice.

    A 32-bit register is a `seq<bool>` with bit 0 first. */
module Crc32 {
  import opened Arith
  import opened Bytes
  import opened GrayCode

  type Word = w: Bits | |w| == 32 witness ToBits(0, 32)

  const POLYNOMIAL: Word := ToBits(0xEDB8_8320, 32)
  const ONES: Word := ToBits(0xFFFF_FFFF, 32)

  /** `x ^ y` */
  function Xor(x: Word, y: Word): Word {
    seq(32, i requires 0 <= i < 32 => x[i] != y[i])
  }

  /** `x >> 1` */
  function Half(x: Word): Word {
    x[1..] + [false]
  }

  /** Low bits, zero extended. */
  function Wide(b: Bits): Word
    requires |b| <= 32
  {
    b + seq(32 - |b|, _ => false)
  }

  /** One turn of the inner loop: the register and the data bit are compared, then both shift. */
  function BitStep(crc: Word, b: Word): Word {
    if crc[0] != b[0] then Xor(Half(crc), POLYNOMIAL) else Half(crc)
  }

  function Interleaved(crc: Word, b: Word, turns: nat): Word
    decreases turns
  {
    if turns == 0 then crc else Interleaved(BitStep(crc, b), Half(b), turns - 1)
  }

  function OctetBits(b: byte): (r: Bits)
    ensures |r| == 8
  {
    ToBits(b, 8)
  }

  /** The register after `data`. */
  function Register(crc: Word, data: seq<byte>): Word {
    if data == [] then crc else
    Interleaved(Register(crc, data[..|data| - 1]), Wide(OctetBits(data[|data| - 1])), 8)
  }

  function Crc(data: seq<byte>): Word {
    Xor(Register(ONES, data), ONES)
  }

  lemma Turn(crc: Word, b: Word, turns: nat)
    requires turns > 0
    ensures Interleaved(crc, b, turns)
         == Interleaved(if crc[0] != b[0] then Xor(Half(crc), POLYNOMIAL) else Half(crc), Half(b), turns - 1)
    ensures Interleaved(crc, b, 0) == crc
  {
  }

  lemma RegisterGrows(crc: Word, data: seq<byte>, n: nat)
    requires n < |data|
    ensures Register(crc, data[..n + 1]) == Interleaved(Register(crc, data[..n]), Wide(OctetBits(data[n])), 8)
  {
    assert data[..n + 1][..n] == data[..n];
  }

  method ComputeCrc(data: seq<byte>) returns (crc: Word)
    ensures crc == Crc(data)
  {
    hide Xor, Half, Wide, OctetBits, Interleaved, ONES, POLYNOMIAL;
    crc := ONES;
    for n := 0 to |data|
      invariant crc == Register(ONES, data[..n])
    {
      var b := Wide(OctetBits(data[n]));
      ghost var before, octet := crc, b;
      for i := 0 to 8
        invariant Interleaved(before, octet, 8) == Interleaved(crc, b, 8 - i)
      {
        Turn(crc, b, 8 - i);
        crc := if crc[0] != b[0] then Xor(Half(crc), POLYNOMIAL) else Half(crc);
        b := Half(b);
      }
      Turn(crc, b, 1);
      RegisterGrows(ONES, data, n);
    }
    assert data[..|data|] == data;
    crc := Xor(crc, ONES);
  }

  // ---- The standard form ----

  /** One shift of the division register. */
  function Shift(x: Word): Word {
    if x[0] then Xor(Half(x), POLYNOMIAL) else Half(x)
  }

  function Shifts(x: Word, n: nat): Word
    decreases n
  {
    if n == 0 then x else Shifts(Shift(x), n - 1)
  }

  lemma XorFacts(x: Word, y: Word, z: Word)
    ensures Xor(x, Wide([])) == x && Xor(Xor(x, y), y) == x && Xor(Xor(x, y), z) == Xor(x, Xor(y, z))
    ensures Xor(x, y) == Xor(y, x) && Half(Xor(x, y)) == Xor(Half(x), Half(y))
  {
  }

  lemma BitStepIsShift(crc: Word, b: Word)
    ensures Shift(Xor(crc, b)) == Xor(BitStep(crc, b), Half(b))
  {
    XorFacts(crc, b, b);
    XorFacts(Half(crc), Half(b), POLYNOMIAL);
    XorFacts(Half(crc), POLYNOMIAL, Half(b));
    XorFacts(Half(b), POLYNOMIAL, b);
    assert Xor(crc, b)[0] == (crc[0] != b[0]);
    hide Xor, Half;
  }

  function Drained(b: Word, n: nat): Word
    decreases n
  {
    if n == 0 then b else Drained(Half(b), n - 1)
  }

  lemma {:induction false} InterleavedIsShifts(crc: Word, b: Word, n: nat)
    ensures Shifts(Xor(crc, b), n) == Xor(Interleaved(crc, b, n), Drained(b, n))
    decreases n
  {
    hide Shift, BitStep, Half, Xor;
    if n > 0 {
      BitStepIsShift(crc, b);
      InterleavedIsShifts(BitStep(crc, b), Half(b), n - 1);
    }
  }

  lemma {:induction false} DrainsAway(b: Bits)
    requires |b| <= 32
    ensures Drained(Wide(b), |b|) == Wide([])
    decreases |b|
  {
    if b != [] {
      assert Half(Wide(b)) == Wide(b[1..]);
      DrainsAway(b[1..]);
    }
  }

  /** The loop over a byte is the textbook one: the byte is added into the register, which is then
      shifted eight times. */
  lemma StandardForm(crc: Word, b: byte)
    ensures Interleaved(crc, Wide(OctetBits(b)), 8) == Shifts(Xor(crc, Wide(OctetBits(b))), 8)
  {
    InterleavedIsShifts(crc, Wide(OctetBits(b)), 8);
    DrainsAway(OctetBits(b));
    XorFacts(Interleaved(crc, Wide(OctetBits(b)), 8), crc, crc);
    hide Interleaved, Shifts, Drained, Xor, Wide, OctetBits;
  }

  // ---- The parameters ----

  /** The place of the term x^k in the reflected register, as a number. */
  function Term(k: nat): nat
    requires k < 32
  {
    Pow2(31 - k)
  }

  /** The generator polynomial of the standard,
      x^32 + x^26 + x^23 + x^22 + x^16 + x^12 + x^11 + x^10 + x^8 + x^7 + x^5 + x^4 + x^2 + x + 1; the register
      starts with all bits set, and the checksum is its complement. */
  lemma Parameters(data: seq<byte>)
    ensures POLYNOMIAL == ToBits(Term(26) + Term(23) + Term(22) + Term(16) + Term(12) + Term(11) + Term(10) + Term(8)
                                 + Term(7) + Term(5) + Term(4) + Term(2) + Term(1) + Term(0), 32)
    ensures Register(ONES, []) == seq(32, _ => true)
    ensures forall i :: 0 <= i < 32 ==> Crc(data)[i] == !Register(ONES, data)[i]
  {
    Powers();
    assert Pow2(5) == 32 && Pow2(8) == 256 && Pow2(9) == 512 && Pow2(15) == 0x8000 && Pow2(19) == 0x8_0000;
    assert Pow2(20) == 0x10_0000 && Pow2(21) == 0x20_0000 && Pow2(23) == 0x80_0000 && Pow2(24) == 0x100_0000;
    assert Pow2(27) == 0x800_0000 && Pow2(29) == 0x2000_0000 && Pow2(30) == 0x4000_0000;
    Pow2Double(31);
    AllSet(32);
    hide ToBits, Pow2;
    assert ONES == seq(32, _ => true);
  }

  lemma {:induction false} AllSet(n: nat)
    ensures ToBits(Pow2(n) - 1, n) == seq(n, _ => true)
  {
    if n > 0 {
      AllSet(n - 1);
      assert (Pow2(n) - 1) / 2 == Pow2(n - 1) - 1 && (Pow2(n) - 1) % 2 == 1;
      assert ToBits(Pow2(n) - 1, n) == [true] + ToBits(Pow2(n - 1) - 1, n - 1);
    }
  }

  // ---- Shifting loses nothing ----

  lemma {:induction false} TopBitSet(x: nat, n: nat)
    requires n > 0 && Pow2(n - 1) <= x < Pow2(n)
    ensures ToBits(x, n)[n - 1]
  {
    if n > 1 {
      TopBitSet(x / 2, n - 1);
    }
  }

  /** The polynomial's top bit is set, and a register shifted right has none. */
  lemma TopBit(x: Word)
    ensures Shift(x)[31] == x[0]
  {
    assert Pow2(8) == 256;
    Pow2Sum(8, 8);
    Pow2Sum(16, 15);
    Pow2Sum(8, 7);
    assert Pow2(31) == 0x8000_0000;
    Pow2Double(31);
    TopBitSet(0xEDB8_8320, 32);
    hide ToBits;
  }

  lemma {:induction false} Pow2Sum(m: nat, n: nat)
    ensures Pow2(m + n) == Pow2(m) * Pow2(n)
  {
    if m > 0 {
      Pow2Sum(m - 1, n);
    }
  }

  /** A shift can be undone: the top bit tells whether the polynomial was added. */
  lemma ShiftInjective(x: Word, y: Word)
    requires Shift(x) == Shift(y)
    ensures x == y
  {
    TopBit(x);
    TopBit(y);
    XorFacts(Half(x), POLYNOMIAL, x);
    XorFacts(Half(y), POLYNOMIAL, y);
    hide Xor, ToBits;
    assert Half(x) == Half(y);
    assert x == [x[0]] + Half(x)[..31] && y == [y[0]] + Half(y)[..31];
  }

  lemma ShiftLinear(x: Word, y: Word)
    ensures Shift(Xor(x, y)) == Xor(Shift(x), Shift(y))
  {
    forall i | 0 <= i < 32 ensures Shift(Xor(x, y))[i] == Xor(Shift(x), Shift(y))[i] {
    }
  }

  lemma {:induction false} ShiftsInjective(x: Word, y: Word, n: nat)
    requires Shifts(x, n) == Shifts(y, n)
    ensures x == y
    decreases n
  {
    hide Shift;
    if n > 0 {
      ShiftsInjective(Shift(x), Shift(y), n - 1);
      ShiftInjective(x, y);
    }
  }

  lemma {:induction false} ShiftsLinear(x: Word, y: Word, n: nat)
    ensures Shifts(Xor(x, y), n) == Xor(Shifts(x, n), Shifts(y, n))
    decreases n
  {
    hide Shift, Xor;
    if n > 0 {
      ShiftLinear(x, y);
      ShiftsLinear(Shift(x), Shift(y), n - 1);
    }
  }

  lemma {:induction false} ShiftsAdd(x: Word, m: nat, n: nat)
    ensures Shifts(Shifts(x, m), n) == Shifts(x, m + n)
    decreases m
  {
    hide Shift;
    if m > 0 {
      ShiftsAdd(Shift(x), m - 1, n);
    }
  }

  lemma {:induction false} RegisterAppends(crc: Word, a: seq<byte>, b: seq<byte>)
    ensures Register(crc, a + b) == Register(Register(crc, a), b)
    decreases |b|
  {
    hide Interleaved, Wide, OctetBits;
    if b == [] {
      assert a + b == a;
    } else {
      assert (a + b)[..|a + b| - 1] == a + b[..|b| - 1];
      RegisterAppends(crc, a, b[..|b| - 1]);
    }
  }

  /** Equal registers came from equal registers. */
  lemma {:induction false} RegisterInjective(x: Word, y: Word, data: seq<byte>)
    requires Register(x, data) == Register(y, data)
    ensures x == y
    decreases |data|
  {
    hide Interleaved, Shifts, Xor, Wide, OctetBits;
    if data != [] {
      var last := data[|data| - 1];
      var rx, ry := Register(x, data[..|data| - 1]), Register(y, data[..|data| - 1]);
      StandardForm(rx, last);
      StandardForm(ry, last);
      ShiftsInjective(Xor(rx, Wide(OctetBits(last))), Xor(ry, Wide(OctetBits(last))), 8);
      XorFacts(rx, Wide(OctetBits(last)), x);
      XorFacts(ry, Wide(OctetBits(last)), x);
      RegisterInjective(x, y, data[..|data| - 1]);
    }
  }

  // ---- Four bytes are one word ----

  /** The bits of the bytes, in the order they are sent. */
  function BitsOf(data: seq<byte>): (b: Bits)
    ensures |b| == 8 * |data|
  {
    if data == [] then [] else OctetBits(data[0]) + BitsOf(data[1..])
  }

  lemma {:induction false} ZerosShiftOut(n: nat, rest: Bits)
    requires n + |rest| <= 32
    ensures Shifts(Wide(seq(n, _ => false) + rest), n) == Wide(rest)
    decreases n
  {
    var x := Wide(seq(n, _ => false) + rest);
    if n == 0 {
      assert seq(0, _ => false) + rest == rest;
    } else {
      assert !x[0] && Half(x) == Wide(seq(n - 1, _ => false) + rest);
      ZerosShiftOut(n - 1, rest);
    }
  }

  lemma WideSplits(b: Bits, rest: Bits)
    requires |b| + |rest| <= 32
    ensures Wide(b + rest) == Xor(Wide(b), Wide(seq(|b|, _ => false) + rest))
  {
  }

  /** Bits beyond the ones being shifted just move down. */
  lemma ShiftsAhead(crc: Word, b: Bits, rest: Bits)
    requires |b| + |rest| <= 32
    ensures Shifts(Xor(crc, Wide(b + rest)), |b|) == Xor(Shifts(Xor(crc, Wide(b)), |b|), Wide(rest))
  {
    var zeros: Bits := seq(|b|, _ => false);
    WideSplits(b, rest);
    hide Xor, Wide, Shifts;
    XorFacts(crc, Wide(b), Wide(zeros + rest));
    ShiftsLinear(Xor(crc, Wide(b)), Wide(zeros + rest), |b|);
    ZerosShiftOut(|b|, rest);
  }

  /** Up to four bytes act on the register as one word added into it. */
  lemma {:induction false} WindowIsWord(crc: Word, w: seq<byte>)
    requires |w| <= 4
    ensures Register(crc, w) == Shifts(Xor(crc, Wide(BitsOf(w))), 8 * |w|)
    decreases |w|
  {
    hide Interleaved, OctetBits, Xor;
    if w == [] {
      XorFacts(crc, crc, crc);
    } else {
      var b, rest := OctetBits(w[0]), BitsOf(w[1..]);
      assert w == [w[0]] + w[1..];
      assert [w[0]][..0] == [];
      assert Register(crc, [w[0]]) == Interleaved(crc, Wide(b), 8);
      hide Wide;
      RegisterAppends(crc, [w[0]], w[1..]);
      StandardForm(crc, w[0]);
      WindowIsWord(Register(crc, [w[0]]), w[1..]);
      ShiftsAhead(crc, b, rest);
      hide Shifts;
      ShiftsAdd(Xor(crc, Wide(b + rest)), 8, 8 * |w[1..]|);
    }
  }

  lemma {:induction false} ToBitsInjective(x: nat, y: nat, n: nat)
    requires x < Pow2(n) && y < Pow2(n) && ToBits(x, n) == ToBits(y, n)
    ensures x == y
    decreases n
  {
    if n > 0 {
      var a, b := ToBits(x, n), ToBits(y, n);
      assert a[0] == b[0] && a[1..] == ToBits(x / 2, n - 1) && b[1..] == ToBits(y / 2, n - 1);
      ToBitsInjective(x / 2, y / 2, n - 1);
    }
  }

  lemma {:induction false} BitsOfInjective(w: seq<byte>, v: seq<byte>)
    requires |w| == |v| && BitsOf(w) == BitsOf(v)
    ensures w == v
    decreases |w|
  {
    if w != [] {
      assert OctetBits(w[0]) == BitsOf(w)[..8] && BitsOf(w[1..]) == BitsOf(w)[8..];
      assert OctetBits(v[0]) == BitsOf(v)[..8] && BitsOf(v[1..]) == BitsOf(v)[8..];
      assert Pow2(8) == 256;
      ToBitsInjective(w[0], v[0], 8);
      BitsOfInjective(w[1..], v[1..]);
    }
  }

  /** Changing data of any length within any four consecutive bytes, however it is changed there,
      always changes the register, and so the checksum. */
  lemma BurstDetected(crc: Word, before: seq<byte>, w: seq<byte>, v: seq<byte>, after: seq<byte>)
    requires |w| == |v| <= 4 && w != v
    ensures Register(crc, before + w + after) != Register(crc, before + v + after)
    ensures Crc(before + w + after) != Crc(before + v + after)
  {
    hide Register, Xor, Wide, Shifts, BitsOf;
    BurstMoves(crc, before, w, v, after);
    BurstMoves(ONES, before, w, v, after);
    XorFacts(Register(ONES, before + w + after), ONES, crc);
    XorFacts(Register(ONES, before + v + after), ONES, crc);
  }

  lemma BurstMoves(crc: Word, before: seq<byte>, w: seq<byte>, v: seq<byte>, after: seq<byte>)
    requires |w| == |v| <= 4 && w != v
    ensures Register(crc, before + w + after) != Register(crc, before + v + after)
  {
    hide Register, Xor, Shifts;
    if Register(crc, before + w + after) == Register(crc, before + v + after) {
      var x := Register(crc, before);
      RegisterAppends(crc, before + w, after);
      RegisterAppends(crc, before + v, after);
      RegisterInjective(Register(crc, before + w), Register(crc, before + v), after);
      RegisterAppends(crc, before, w);
      RegisterAppends(crc, before, v);
      WindowIsWord(x, w);
      WindowIsWord(x, v);
      ShiftsInjective(Xor(x, Wide(BitsOf(w))), Xor(x, Wide(BitsOf(v))), 8 * |w|);
      XorFacts(Wide(BitsOf(w)), x, x);
      XorFacts(Wide(BitsOf(v)), x, x);
      assert BitsOf(w) == Wide(BitsOf(w))[..8 * |w|] && BitsOf(v) == Wide(BitsOf(v))[..8 * |v|];
      BitsOfInjective(w, v);
    }
  }

  /** What the register holds after data followed by its own checksum. */
  const RESIDUE: Word := Shifts(ONES, 32)

  /** Four bytes after the data are its checksum exactly when the register ends on the residue. */
  lemma SealedIff(data: seq<byte>, seal: seq<byte>)
    requires |seal| == 4
    ensures BitsOf(seal) == Crc(data) <==> Register(ONES, data + seal) == RESIDUE
  {
    hide Register, Xor, Shifts, BitsOf;
    var r, s: Word := Register(ONES, data), BitsOf(seal);
    RegisterAppends(ONES, data, seal);
    WindowIsWord(r, seal);
    assert Wide(s) == s;
    if Register(ONES, data + seal) == RESIDUE {
      ShiftsInjective(Xor(r, s), ONES, 32);
    }
    XorFacts(s, r, r);
    XorFacts(r, s, s);
    XorFacts(r, ONES, ONES);
    XorFacts(ONES, r, r);
  }
}
