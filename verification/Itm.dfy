/** Instrumentation packets (Armv7-M ARM DDI 0403, appendix D4): the tolerant decoder of the host, and
    printing as its inverse. */
module Itm {
  import opened Bytes

  datatype ItmPacket = Swit(port: nat, value: nat, width: nat) | Unrecognized(header: byte)

  /** Payload bytes announced by a header; none if it is no instrumentation write. */
  function Width(header: byte): (w: nat)
    ensures w == 0 || w == 1 || w == 2 || w == 4
  {
    if header % 8 == 1 then 1 else if header % 8 == 2 then 2 else if header % 8 == 3 then 4 else 0
  }

  /** The weight of a byte shifted up by `n` bytes. */
  function Shift(n: nat): (r: nat)
    ensures r > 0
  {
    if n == 0 then 1 else 256 * Shift(n - 1)
  }

  /** Little-endian value of the payload. */
  function Value(payload: seq<byte>): (v: nat)
    ensures v < Shift(|payload|)
  {
    if payload == [] then 0 else
    var low: int := payload[0];
    low + 256 * Value(payload[1..])
  }

  /** Or-ing in one more byte above the others. */
  lemma {:induction false} ValueGrows(payload: seq<byte>, b: byte)
    ensures var top: int := b; Value(payload + [b]) == Value(payload) + top * Shift(|payload|)
    decreases |payload|
  {
    var top: int, all := b, payload + [b];
    if payload == [] {
      assert all[1..] == [];
    } else {
      assert all[1..] == payload[1..] + [b];
      ValueGrows(payload[1..], b);
      assert top * (256 * Shift(|payload| - 1)) == 256 * (top * Shift(|payload| - 1));
    }
  }

  /** One packet from the front. */
  function First(bytes: seq<byte>): (r: (ItmPacket, nat))
    requires bytes != []
    ensures 0 < r.1 <= |bytes|
  {
    var w := Width(bytes[0]);
    if w == 0 || 1 + w > |bytes| then (Unrecognized(bytes[0]), 1)
    else (Swit(bytes[0] / 8, Value(bytes[1..1 + w]), w), 1 + w)
  }

  function Decode(bytes: seq<byte>): seq<ItmPacket>
    decreases |bytes|
  {
    if bytes == [] then [] else [First(bytes).0] + Decode(bytes[First(bytes).1..])
  }

  method Payload(octets: seq<byte>) returns (value: nat)
    ensures value == Value(octets)
  {
    value := 0;
    for index := 0 to |octets|
      invariant value == Value(octets[..index])
    {
      ValueGrows(octets[..index], octets[index]);
      assert octets[..index + 1] == octets[..index] + [octets[index]];
      var octet: int := octets[index];
      value := value + octet * Shift(index);
    }
    assert octets[..|octets|] == octets;
  }

  lemma DecodeNone()
    ensures Decode([]) == []
  {
  }

  lemma DecodeFirst(bytes: seq<byte>)
    requires bytes != []
    ensures Decode(bytes) == [First(bytes).0] + Decode(bytes[First(bytes).1..])
  {
  }

  lemma Slices(bytes: seq<byte>, pos: nat, width: nat)
    requires pos + 1 + width <= |bytes|
    ensures bytes[pos..][1..1 + width] == bytes[pos + 1..pos + 1 + width]
    ensures bytes[pos..][1 + width..] == bytes[pos + 1 + width..]
  {
  }

  method DecodeItmStream(bytes: seq<byte>) returns (packets: seq<ItmPacket>)
    ensures packets == Decode(bytes)
  {
    hide Value, Decode;
    packets := [];
    var pos := 0;
    assert bytes[0..] == bytes;
    DecodeNone();
    while pos < |bytes|
      invariant 0 <= pos <= |bytes|
      invariant Decode(bytes) == packets + Decode(bytes[pos..])
    {
      var header := bytes[pos];
      var width := Width(header);
      ghost var rest := bytes[pos..];
      DecodeFirst(rest);
      if width == 0 || pos + 1 + width > |bytes| {
        assert rest[1..] == bytes[pos + 1..];
        packets := packets + [Unrecognized(header)];
        pos := pos + 1;
        continue;
      }
      var value := Payload(bytes[pos + 1..pos + 1 + width]);
      Slices(bytes, pos, width);
      packets := packets + [Swit(header / 8, value, width)];
      pos := pos + 1 + width;
    }
    assert bytes[pos..] == [] && packets + [] == packets;
  }

  // ---- Printing ----

  function LeBytes(value: nat, n: nat): (b: seq<byte>)
    ensures |b| == n
  {
    if n == 0 then [] else [value % 256] + LeBytes(value / 256, n - 1)
  }

  /** A packet as it is sent. */
  function Print(p: ItmPacket): seq<byte> {
    match p
    case Unrecognized(header) => [header]
    case Swit(port, value, width) =>
      [(8 * port + if width == 4 then 3 else width) % 256] + LeBytes(value, width)
  }

  function PrintAll(packets: seq<ItmPacket>): seq<byte> {
    if packets == [] then [] else Print(packets[0]) + PrintAll(packets[1..])
  }

  lemma {:induction false} PrintValue(payload: seq<byte>)
    ensures LeBytes(Value(payload), |payload|) == payload
    decreases |payload|
  {
    if payload != [] {
      PrintValue(payload[1..]);
    }
  }

  lemma {:induction false} ValuePrint(value: nat, n: nat)
    requires value < Shift(n)
    ensures Value(LeBytes(value, n)) == value
    decreases n
  {
    if n > 0 {
      ValuePrint(value / 256, n - 1);
      assert LeBytes(value, n)[1..] == LeBytes(value / 256, n - 1);
    }
  }

  lemma PrintFirst(bytes: seq<byte>)
    requires bytes != []
    ensures Print(First(bytes).0) == bytes[..First(bytes).1]
  {
    var w := Width(bytes[0]);
    if w != 0 && 1 + w <= |bytes| {
      PrintValue(bytes[1..1 + w]);
      assert 8 * (bytes[0] / 8) + bytes[0] % 8 == bytes[0];
    }
  }

  lemma PrintCons(p: ItmPacket, packets: seq<ItmPacket>)
    ensures PrintAll([p] + packets) == Print(p) + PrintAll(packets)
  {
    hide Print;
    assert ([p] + packets)[1..] == packets;
  }

  /** Nothing is lost on any input, noise and truncated tails included. */
  lemma {:induction false} PrintDecode(bytes: seq<byte>)
    ensures PrintAll(Decode(bytes)) == bytes
    decreases |bytes|
  {
    hide First, Print, Decode;
    if bytes == [] {
      DecodeNone();
    } else {
      var f := First(bytes);
      PrintDecode(bytes[f.1..]);
      DecodeFirst(bytes);
      PrintFirst(bytes);
      PrintCons(f.0, Decode(bytes[f.1..]));
      hide PrintAll;
      assert bytes == bytes[..f.1] + bytes[f.1..];
    }
  }

  /** A packet the decoder can give when `rest` follows it: a write whose fields fit its header, or a
      header that announces no payload or more than there is. */
  predicate Decodable(p: ItmPacket, rest: seq<byte>) {
    match p
    case Unrecognized(header) => Width(header) == 0 || Width(header) > |rest|
    case Swit(port, value, width) => port < 32 && width in {1, 2, 4} && value < Shift(width)
  }

  predicate AllDecodable(packets: seq<ItmPacket>) {
    packets == [] || (Decodable(packets[0], PrintAll(packets[1..])) && AllDecodable(packets[1..]))
  }

  lemma FirstPrinted(p: ItmPacket, rest: seq<byte>)
    ensures Print(p) != []
    ensures Decodable(p, rest) ==> First(Print(p) + rest) == (p, |Print(p)|)
    ensures First(Print(p) + rest).0 == p ==> Decodable(p, rest) && First(Print(p) + rest).1 == |Print(p)|
  {
    var all := Print(p) + rest;
    if Decodable(p, rest) && p.Swit? {
      assert all[1..1 + p.width] == LeBytes(p.value, p.width);
      ValuePrint(p.value, p.width);
    }
    if First(all).0 == p && p.Swit? {
      assert all[1..1 + p.width] == Print(p)[1..];
    }
  }

  /** Decoding a printed list gives it back exactly when every packet in it is one the decoder can give
      there. */
  lemma {:induction false} DecodePrintIff(packets: seq<ItmPacket>)
    ensures Decode(PrintAll(packets)) == packets <==> AllDecodable(packets)
    decreases |packets|
  {
    if packets != [] {
      var p, rest := packets[0], PrintAll(packets[1..]);
      var all := PrintAll(packets);
      FirstPrinted(p, rest);
      DecodePrintIff(packets[1..]);
      assert Decode(all)[0] == First(all).0 && Decode(all)[1..] == Decode(all[First(all).1..]);
      assert all[|Print(p)|..] == rest;
      assert packets == [p] + packets[1..];
    }
  }
}
