/** Length-prefixed framing: the host's one-shot functions, and the firmware's decoder that takes
    one byte at a time into a fixed buffer. */
module LengthFraming {
  import opened Bytes

  datatype ProtocolError = Short | TooLarge(declared: nat)

  datatype FrameError = FrameTooLarge(declared: nat) | FramePending

  function LengthFrame(payload: seq<byte>, maximum: nat): Result<seq<byte>, ProtocolError> {
    if |payload| > maximum then Err(TooLarge(|payload|))
    else Ok(U32ToLe(|payload| % 0x1_0000_0000) + payload)
  }

  /** The first item of `bytes`, and how many of them it takes. */
  function LengthUnframe(bytes: seq<byte>, maximum: nat): (r: Result<(seq<byte>, nat), ProtocolError>)
    ensures r.Ok? ==> 4 <= r.value.1 <= |bytes| && r.value.0 == bytes[4..r.value.1] && |r.value.0| <= maximum
  {
    if |bytes| < 4 then Err(Short) else
    var length := U32FromLe(bytes[..4]);
    if length > maximum then Err(TooLarge(length))
    else if |bytes| < length + 4 then Err(Short)
    else Ok((bytes[4..4 + length], length + 4))
  }

  /** Unframing undoes framing, whatever follows. */
  lemma UnframeFrame(payload: seq<byte>, maximum: nat, rest: seq<byte>)
    requires |payload| <= maximum < 0x1_0000_0000
    ensures LengthUnframe(LengthFrame(payload, maximum).value + rest, maximum) == Ok((payload, |payload| + 4))
  {
    var framed := LengthFrame(payload, maximum).value + rest;
    assert framed[..4] == U32ToLe(|payload|);
    assert framed[4..4 + |payload|] == payload;
  }

  /** Once an item is whole, bytes after it change nothing. */
  lemma UnframeExtends(bytes: seq<byte>, rest: seq<byte>, maximum: nat)
    requires !LengthUnframe(bytes, maximum).Err? || LengthUnframe(bytes, maximum).error != Short
    ensures LengthUnframe(bytes + rest, maximum) == LengthUnframe(bytes, maximum)
  {
    assert (bytes + rest)[..4] == bytes[..4];
    if LengthUnframe(bytes, maximum).Ok? {
      var n := LengthUnframe(bytes, maximum).value.1;
      assert (bytes + rest)[4..n] == bytes[4..n];
    }
  }

  // ---- One byte at a time ----

  /** What a byte does to the bytes held so far, said with the host's function. */
  datatype Pushed = Pushed(held: seq<byte>, result: Result<bool, FrameError>)

  function PushByte(held: seq<byte>, b: byte, maximum: nat): Pushed {
    if LengthUnframe(held, maximum).Ok? then Pushed(held, Err(FramePending)) else
    match LengthUnframe(held + [b], maximum)
    case Ok(_) => Pushed(held + [b], Ok(true))
    case Err(Short) => Pushed(held + [b], Ok(false))
    case Err(TooLarge(declared)) => Pushed([], Err(FrameTooLarge(declared)))
  }

  /** A byte that completes an item leaves that item held. */
  lemma PushedWhole(held: seq<byte>, b: byte, maximum: nat)
    ensures PushByte(held, b, maximum).result == Ok(true) ==> LengthUnframe(PushByte(held, b, maximum).held, maximum).Ok?
  {
    hide LengthUnframe;
  }

  /** Bytes up to the first whole item or refusal. */
  datatype Gathered = Gathered(held: seq<byte>, taken: nat, item: Result<Option<seq<byte>>, FrameError>)

  function Gather(held: seq<byte>, input: seq<byte>, maximum: nat): (g: Gathered)
    ensures g.taken <= |input| && (input != [] ==> g.taken > 0)
    ensures g.item == Ok(None) ==> g.taken == |input|
    decreases |input|
  {
    if input == [] then Gathered(held, 0, Ok(None)) else
    var p := PushByte(held, input[0], maximum);
    if p.result.Err? then Gathered(p.held, 1, Err(p.result.error))
    else if p.result.value then Gathered(p.held, 1, Ok(Some(LengthUnframe(p.held, maximum).value.0)))
    else
      var rest := Gather(p.held, input[1..], maximum);
      rest.(taken := rest.taken + 1)
  }

  /** A framed payload is gathered whole on its last byte, wherever the input before it was cut. */
  lemma {:induction false} GatherFrame(held: seq<byte>, input: seq<byte>, payload: seq<byte>, maximum: nat)
    requires |payload| <= maximum < 0x1_0000_0000 && input != []
    requires held + input == LengthFrame(payload, maximum).value
    ensures Gather(held, input, maximum) == Gathered(held + input, |input|, Ok(Some(payload)))
    decreases |input|
  {
    var framed, h := held + input, held + [input[0]];
    UnframeFrame(payload, maximum, []);
    assert framed + [] == framed && framed == h + input[1..];
    NotYet(held, input, maximum);
    if |input| == 1 {
      assert h == framed;
    } else {
      NotYet(h, input[1..], maximum);
      hide LengthUnframe, LengthFrame;
      GatherFrame(h, input[1..], payload, maximum);
    }
  }

  /** Gathering stops at the first whole item. */
  lemma {:induction false} GatherStops(held: seq<byte>, input: seq<byte>, more: seq<byte>, maximum: nat)
    requires Gather(held, input, maximum).item.Ok? && Gather(held, input, maximum).item.value.Some?
    ensures Gather(held, input + more, maximum) == Gather(held, input, maximum)
    decreases |input|
  {
    hide LengthUnframe, PushByte;
    assert (input + more)[0] == input[0] && (input + more)[1..] == input[1..] + more;
    var p := PushByte(held, input[0], maximum);
    if p.result.Ok? && !p.result.value {
      GatherStops(p.held, input[1..], more, maximum);
    }
  }

  /** Less than an item is held. */
  lemma {:induction false} GatherShort(held: seq<byte>, input: seq<byte>, maximum: nat)
    requires LengthUnframe(held + input, maximum) == Err(Short)
    ensures Gather(held, input, maximum) == Gathered(held + input, |input|, Ok(None))
    decreases |input|
  {
    if input == [] {
      assert held + input == held;
    } else {
      var h := held + [input[0]];
      assert held + input == h + input[1..];
      ShortBefore(held, input, maximum);
      ShortBefore(h, input[1..], maximum);
      hide LengthUnframe;
      GatherShort(h, input[1..], maximum);
    }
  }

  /** A beginning of less than an item is less than an item. */
  lemma ShortBefore(held: seq<byte>, more: seq<byte>, maximum: nat)
    requires LengthUnframe(held + more, maximum) == Err(Short)
    ensures LengthUnframe(held, maximum) == Err(Short)
  {
    hide LengthUnframe;
    if LengthUnframe(held, maximum) != Err(Short) {
      UnframeExtends(held, more, maximum);
    }
  }

  /** Less than a whole item. */
  lemma NotYet(held: seq<byte>, more: seq<byte>, maximum: nat)
    requires more != [] && LengthUnframe(held + more, maximum).Ok?
    requires LengthUnframe(held + more, maximum).value.1 == |held + more|
    ensures LengthUnframe(held, maximum) == Err(Short)
  {
    if LengthUnframe(held, maximum) != Err(Short) {
      UnframeExtends(held, more, maximum);
      assert false;
    }
  }

  class FrameDecoder {
    const N: nat
    const length: array<byte>
    const payload: array<byte>
    var lengthUsed: nat
    var expected: nat
    var payloadUsed: nat
    var ready: bool

    ghost predicate Valid()
      reads this, length, payload
    {
      && length.Length == 4 && payload.Length == N && length != payload
      && payloadUsed <= expected <= N
      && if lengthUsed < 4 then expected == 0 && !ready
         else lengthUsed == 4 && expected == U32FromLe(length[..4]) && ready == (payloadUsed == expected)
    }

    /** The bytes taken since the last frame. */
    ghost function Held(): (held: seq<byte>)
      requires Valid()
      reads this, length, payload
      ensures LengthUnframe(held, N)
           == if ready then Ok((payload[..expected], |held|)) else Err(Short)
    {
      var held := length[..lengthUsed] + payload[..payloadUsed];
      assert lengthUsed == 4 ==> held[..4] == length[..4] && held[4..4 + payloadUsed] == payload[..payloadUsed];
      held
    }

    constructor (n: nat)
      ensures N == n && Valid() && Held() == [] && fresh(length) && fresh(payload)
    {
      N := n;
      length := new byte[4](_ => 0);
      payload := new byte[n](_ => 0);
      lengthUsed, expected, payloadUsed, ready := 0, 0, 0, false;
    }

    method Push(b: byte) returns (r: Result<bool, FrameError>)
      requires Valid()
      modifies this, length, payload
      ensures Valid()
      ensures Pushed(Held(), r) == PushByte(old(Held()), b, N)
    {
      if ready {
        return Err(FramePending);
      }
      ghost var before := Held();
      if lengthUsed < 4 {
        length[lengthUsed] := b;
        lengthUsed := lengthUsed + 1;
        assert length[..lengthUsed] == before + [b];
        if lengthUsed == 4 {
          assert length[..4] == before + [b];
          expected := U32FromLe(length[..4]);
          if expected > N {
            var declared := expected;
            Reset();
            return Err(FrameTooLarge(declared));
          }
          ready := expected == 0;
        }
        assert Held() == before + [b];
        return Ok(ready);
      }
      payload[payloadUsed] := b;
      payloadUsed := payloadUsed + 1;
      ready := payloadUsed == expected;
      assert Held() == before + [b];
      return Ok(ready);
    }

    method Frame() returns (frame: Option<seq<byte>>)
      requires Valid()
      ensures frame == match LengthUnframe(Held(), N)
                       case Ok(item) => Some(item.0)
                       case Err(_) => None
    {
      frame := if ready then Some(payload[..expected]) else None;
    }

    method Reset()
      requires length.Length == 4 && payload.Length == N && length != payload
      modifies this, length
      ensures Valid() && Held() == []
    {
      forall i | 0 <= i < 4 {
        length[i] := 0;
      }
      lengthUsed, expected, payloadUsed, ready := 0, 0, 0, false;
    }
  }
}
