/** Octets, little-endian words and the two-valued results used throughout. */
module Bytes {

  type byte = x: int | 0 <= x < 256

  type u16 = x: int | 0 <= x < 0x1_0000

  type u32 = x: int | 0 <= x < 0x1_0000_0000

  type u64 = x: int | 0 <= x < 0x1_0000_0000_0000_0000

  datatype Option<+T> = None | Some(value: T)

  datatype Result<+T, +E> = Ok(value: T) | Err(error: E)

  /** The four octets of a word below 2^32, least significant first. */
  function U32ToLe(x: nat): (b: seq<byte>)
    requires x < 0x1_0000_0000
    ensures |b| == 4 && U32FromLe(b) == x
  {
    assert x / 0x1_0000 == x / 0x100 / 256 && x / 0x100_0000 == x / 0x1_0000 / 256;
    [x % 256, x / 0x100 % 256, x / 0x1_0000 % 256, x / 0x100_0000]
  }

  function U32FromLe(b: seq<byte>): (x: nat)
    requires |b| == 4
    ensures x < 0x1_0000_0000
  {
    var b0: int, b1: int, b2: int, b3: int := b[0], b[1], b[2], b[3];
    b0 + 0x100 * b1 + 0x1_0000 * b2 + 0x100_0000 * b3
  }

  /** Words one after the other, least significant octet first. */
  function WordsToLe(words: seq<u32>): (b: seq<byte>)
    ensures |b| == 4 * |words|
  {
    if words == [] then [] else WordsToLe(words[..|words| - 1]) + U32ToLe(words[|words| - 1])
  }

  function U16ToLe(x: nat): (b: seq<byte>)
    requires x < 0x1_0000
    ensures |b| == 2 && U16FromLe(b) == x
  {
    [x % 256, x / 0x100]
  }

  function U16FromLe(b: seq<byte>): (x: nat)
    requires |b| == 2
    ensures x < 0x1_0000
  {
    var b0: int, b1: int := b[0], b[1];
    b0 + 0x100 * b1
  }

  /** Writing a read word back gives the same octets. */
  lemma U32ToLeFromLe(b: seq<byte>)
    requires |b| == 4
    ensures U32ToLe(U32FromLe(b)) == b
  {
    var b0: int, b1: int, b2: int, b3: int := b[0], b[1], b[2], b[3];
    var x := U32FromLe(b);
    assert x == b0 + 256 * (b1 + 256 * (b2 + 256 * b3));
    assert x / 0x100 == b1 + 256 * (b2 + 256 * b3);
    assert x / 0x1_0000 == b2 + 256 * b3;
    assert x / 0x100_0000 == b3;
  }

  /** A memory write; one outside the memory has no effect. */
  function Store(mem: seq<byte>, i: nat, value: byte): (m: seq<byte>)
    ensures |m| == |mem|
  {
    if i < |mem| then mem[i := value] else mem
  }

  function Fetch(mem: seq<byte>, i: nat): byte {
    if i < |mem| then mem[i] else 0
  }
}
