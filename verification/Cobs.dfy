/** Consistent Overhead Byte Stuffing, without the delimiter. */
module Cobs {
  import opened Bytes

  datatype CobsError = BadCobs

  /** What the encoder has produced after some input: whole blocks, and the data of the block
      whose code byte is not known yet. */
  datatype Blocks = Blocks(done: seq<byte>, pending: seq<byte>)

  ghost predicate NonZero(s: seq<byte>) {
    forall i :: 0 <= i < |s| ==> s[i] != 0
  }

  /** A block: its code byte, then its data. */
  function Block(data: seq<byte>): seq<byte>
    requires |data| < 255
  {
    [|data| + 1] + data
  }

  function BlocksOf(input: seq<byte>): (b: Blocks)
    ensures NonZero(b.pending) && |b.pending| < 254 && |b.pending| <= |input|
  {
    if input == [] then Blocks([], []) else
    var last := |input| - 1;
    Extend(BlocksOf(input[..last]), input[last])
  }

  /** One more input byte: a zero or a 254th data byte closes the block. */
  function Extend(b: Blocks, value: byte): Blocks
    requires |b.pending| < 254
  {
    if value == 0 then Blocks(b.done + Block(b.pending), [])
    else if |b.pending| == 253 then Blocks(b.done + Block(b.pending + [value]), [])
    else Blocks(b.done, b.pending + [value])
  }

  function Encode(input: seq<byte>): seq<byte> {
    var b := BlocksOf(input);
    b.done + Block(b.pending)
  }

  function Decode(input: seq<byte>): (r: Result<seq<byte>, CobsError>) {
    if input == [] then Ok([]) else
    var code := input[0];
    if code == 0 || code > |input| then Err(BadCobs) else
    var rest := Decode(input[code..]);
    if rest.Err? then rest else
    Ok(input[1..code] + (if code != 255 && code < |input| then [0] else []) + rest.value)
  }

  /** The encoder with its reserved code position, as one pass over the input. */
  method CobsEncode(input: seq<byte>) returns (out: seq<byte>)
    ensures out == Encode(input)
  {
    out := [0];
    var codeIndex, code: byte := 0, 1;
    var i := 0;
    while i < |input|
      invariant 0 <= i <= |input|
      invariant var b := BlocksOf(input[..i]);
                codeIndex == |b.done| && code == |b.pending| + 1 && out == b.done + [0] + b.pending
    {
      ghost var b := BlocksOf(input[..i]);
      assert input[..i + 1][..i] == input[..i];
      if input[i] == 0 {
        out := out[codeIndex := code];
        assert out == b.done + Block(b.pending);
        codeIndex := |out|;
        out := out + [0];
        code := 1;
      } else {
        out := out + [input[i]];
        code := code + 1;
        if code == 255 {
          out := out[codeIndex := code];
          assert out == b.done + Block(b.pending + [input[i]]);
          codeIndex := |out|;
          out := out + [0];
          code := 1;
        }
      }
      i := i + 1;
    }
    assert input[..|input|] == input;
    out := out[codeIndex := code];
  }

  function Prepend(out: seq<byte>, r: Result<seq<byte>, CobsError>): Result<seq<byte>, CobsError> {
    if r.Err? then r else Ok(out + r.value)
  }

  lemma PrependTwice(a: seq<byte>, b: seq<byte>, r: Result<seq<byte>, CobsError>)
    ensures Prepend(a, Prepend(b, r)) == Prepend(a + b, r)
    ensures Prepend([], r) == r
  {
    if r.Ok? {
      assert a + (b + r.value) == a + b + r.value;
      assert [] + r.value == r.value;
    }
  }

  /** What a block stands for: its data, and the zero that ended it unless it is full or last. */
  function Decoded(data: seq<byte>, rest: seq<byte>): seq<byte> {
    data + if |data| != 254 && rest != [] then [0] else []
  }

  /** Decoding one block in front of more input. */
  lemma DecodeBlock(data: seq<byte>, rest: seq<byte>)
    requires |data| < 255
    ensures Decode(Block(data) + rest) == Prepend(Decoded(data, rest), Decode(rest))
  {
    var s := Block(data) + rest;
    assert s[1..|data| + 1] == data && s[|data| + 1..] == rest;
  }

  /** The decoder, block by block; a block that runs past the end is an error. */
  method CobsDecode(input: seq<byte>) returns (r: Result<seq<byte>, CobsError>)
    ensures r == Decode(input)
  {
    var out, pos := [], 0;
    assert input[0..] == input;
    PrependTwice([], [], Decode(input));
    while pos < |input|
      invariant 0 <= pos <= |input|
      invariant Decode(input) == Prepend(out, Decode(input[pos..]))
    {
      hide Decode;
      var code := input[pos];
      ghost var start, before := pos, out;
      if code == 0 || code > |input| - pos {
        DecodeBad(input[pos..]);
      }
      if code == 0 || pos + code > |input| + 1 {
        return Err(BadCobs);
      }
      pos := pos + 1;
      var k := 1;
      while k < code
        invariant 1 <= k <= code && pos == start + k <= |input|
        invariant out == before + input[start + 1..pos]
      {
        if pos >= |input| {
          return Err(BadCobs);
        }
        out := out + [input[pos]];
        pos := pos + 1;
        k := k + 1;
      }
      DecodeStep(input, start, pos);
      if code != 255 && pos < |input| {
        out := out + [0];
      }
      PrependTwice(before, Decoded(input[start + 1..pos], input[pos..]), Decode(input[pos..]));
      assert out == before + Decoded(input[start + 1..pos], input[pos..]);
    }
    assert input[pos..] == [] && out + [] == out;
    r := Ok(out);
  }

  lemma DecodeBad(s: seq<byte>)
    requires s != [] && (s[0] == 0 || s[0] > |s|)
    ensures Decode(s) == Err(BadCobs)
  {
  }

  lemma DecodeStep(input: seq<byte>, start: nat, pos: nat)
    requires start < pos <= |input| && pos - start <= 255 && input[start] == pos - start
    ensures Decode(input[start..])
         == Prepend(Decoded(input[start + 1..pos], input[pos..]), Decode(input[pos..]))
  {
    var data := input[start + 1..pos];
    assert input[start..] == Block(data) + input[pos..];
    DecodeBlock(data, input[pos..]);
  }

  /** The input that the finished blocks stand for. */
  function Finished(input: seq<byte>): seq<byte> {
    input[..|input| - |BlocksOf(input).pending|]
  }

  lemma {:induction false} PendingIsTail(input: seq<byte>)
    ensures Finished(input) + BlocksOf(input).pending == input
  {
    if input != [] {
      var last := |input| - 1;
      PendingIsTail(input[..last]);
      assert input == input[..last] + [input[last]];
    }
  }

  lemma DecodeClosed(done: seq<byte>, finished: seq<byte>, data: seq<byte>, rest: seq<byte>)
    requires |data| < 255
    requires Decode(done + (Block(data) + rest)) == Prepend(finished, Decode(Block(data) + rest))
    ensures Decode(done + Block(data) + rest) == Prepend(finished + Decoded(data, rest), Decode(rest))
  {
    hide Decode;
    DecodeBlock(data, rest);
    assert done + Block(data) + rest == done + (Block(data) + rest);
    PrependTwice(finished, Decoded(data, rest), Decode(rest));
  }

  lemma {:induction false} DecodeAfterBlocks(input: seq<byte>, rest: seq<byte>)
    requires rest != []
    ensures Decode(BlocksOf(input).done + rest) == Prepend(Finished(input), Decode(rest))
  {
    hide Decode, Prepend, Block;
    if input == [] {
      assert BlocksOf(input).done + rest == rest;
      PrependTwice([], [], Decode(rest));
    } else {
      var last := |input| - 1;
      var before := input[..last];
      var a := BlocksOf(before);
      PendingIsTail(before);
      assert input == before + [input[last]];
      if input[last] == 0 || |a.pending| == 253 {
        var data := if input[last] == 0 then a.pending else a.pending + [input[last]];
        DecodeAfterBlocks(before, Block(data) + rest);
        DecodeClosed(a.done, Finished(before), data, rest);
        assert Finished(before) + Decoded(data, rest) == Finished(input);
      } else {
        DecodeAfterBlocks(before, rest);
        assert Finished(input) == Finished(before);
      }
    }
  }

  /** Decoding undoes encoding, for every input. */
  lemma RoundTrip(input: seq<byte>)
    ensures Decode(Encode(input)) == Ok(input)
  {
    var b := BlocksOf(input);
    assert Block(b.pending) != [];
    DecodeAfterBlocks(input, Block(b.pending));
    DecodeBlock(b.pending, []);
    assert Block(b.pending) + [] == Block(b.pending) && b.pending + [] == b.pending;
    PendingIsTail(input);
  }

  lemma {:induction false} BlocksShape(input: seq<byte>)
    ensures var b := BlocksOf(input);
            && NonZero(b.done)
            && |input| <= |b.done| + |b.pending| <= |input| + (|input| - |b.pending|) / 254
  {
    if input != [] {
      BlocksShape(input[..|input| - 1]);
    }
  }

  /** No encoding contains a zero, and its length is within one byte per 254 of the input's. */
  lemma EncodingShape(input: seq<byte>)
    ensures NonZero(Encode(input))
    ensures |input| + 1 <= |Encode(input)| <= |input| + |input| / 254 + 1
  {
    BlocksShape(input);
  }
}
