/** Orbflow frames: channel, payload and checksum, COBS encoded and zero delimited; and how the
    host recovers one channel's bytes from a capture of them. */
module Orbflow {
  import opened Bytes
  import Cobs

  datatype FrameError = BadChannel | BadCobs | BadChecksum

  datatype Packet = Packet(channel: byte, payload: seq<byte>)

  /** The wrapping sum of all bytes. */
  function Sum(s: seq<byte>): byte {
    if s == [] then 0 else
    var before: int, last: int := Sum(s[..|s| - 1]), s[|s| - 1];
    (before + last) % 256
  }

  function AppendChecksum(s: seq<byte>): seq<byte> {
    var sum: int := Sum(s);
    s + [(256 - sum) % 256]
  }

  predicate VerifyChecksum(s: seq<byte>) {
    s != [] && Sum(s) == 0
  }

  function Raw(p: Packet): seq<byte> {
    AppendChecksum([p.channel] + p.payload)
  }

  function FrameBytes(p: Packet): seq<byte> {
    Cobs.Encode(Raw(p)) + [0]
  }

  /** The host's framing, which has no frame for a channel of more than seven bits. */
  function Frame(p: Packet): Result<seq<byte>, FrameError> {
    if p.channel > 0x7f then Err(BadChannel) else Ok(FrameBytes(p))
  }

  function StripDelimiter(frame: seq<byte>): seq<byte> {
    if frame != [] && frame[|frame| - 1] == 0 then frame[..|frame| - 1] else frame
  }

  function Unframe(frame: seq<byte>): Result<Packet, FrameError> {
    var raw := Cobs.Decode(StripDelimiter(frame));
    if raw.Err? then Err(BadCobs)
    else if |raw.value| < 2 || !VerifyChecksum(raw.value) then Err(BadChecksum)
    else Ok(Packet(raw.value[0], raw.value[1..|raw.value| - 1]))
  }

  /** The pieces between zero bytes; one more piece than there are zeros. */
  function Split(capture: seq<byte>): (frames: seq<seq<byte>>)
    ensures |frames| >= 1
  {
    if capture == [] then [[]] else Prefix(capture[0], Split(capture[1..]))
  }

  /** One more byte in front of a capture already split. */
  function Prefix(b: byte, frames: seq<seq<byte>>): (r: seq<seq<byte>>)
    requires |frames| >= 1
    ensures |r| >= 1
  {
    if b == 0 then [[]] + frames else [[b] + frames[0]] + frames[1..]
  }

  /** What one piece adds to a channel's stream. */
  function Contribution(frame: seq<byte>, channel: byte): seq<byte> {
    if frame == [] then [] else
    var r := Unframe(frame);
    if r.Ok? && r.value.channel == channel then r.value.payload else []
  }

  function Contributions(frames: seq<seq<byte>>, channel: byte): seq<byte> {
    if frames == [] then [] else
    var last := |frames| - 1;
    Contributions(frames[..last], channel) + Contribution(frames[last], channel)
  }

  function Reconstruct(capture: seq<byte>, channel: byte): seq<byte> {
    Contributions(Split(capture), channel)
  }

  lemma NoContributions(channel: byte)
    ensures Contributions([], channel) == []
  {
  }

  lemma OneMoreFrame(frames: seq<seq<byte>>, i: nat, channel: byte)
    requires i < |frames|
    ensures Contributions(frames[..i + 1], channel) == Contributions(frames[..i], channel) + Contribution(frames[i], channel)
  {
    hide Contribution;
    assert frames[..i + 1][..i] == frames[..i];
  }

  method ReconstructChannelStream(capture: seq<byte>, channel: byte) returns (stream: seq<byte>)
    ensures stream == Reconstruct(capture, channel)
  {
    hide Split, Unframe, Contributions;
    stream := [];
    var frames := Split(capture);
    NoContributions(channel);
    var i := 0;
    while i < |frames|
      invariant 0 <= i <= |frames|
      invariant stream == Contributions(frames[..i], channel)
    {
      var frame := frames[i];
      OneMoreFrame(frames, i, channel);
      i := i + 1;
      if frame == [] {
        continue;
      }
      var r := Unframe(frame);
      if r.Ok? && r.value.channel == channel {
        stream := stream + r.value.payload;
      }
    }
    assert frames[..|frames|] == frames;
  }

  // ---- One frame ----

  lemma ChecksumVerifies(s: seq<byte>)
    ensures VerifyChecksum(AppendChecksum(s))
  {
    assert AppendChecksum(s)[..|s|] == s;
  }

  /** Unframing undoes framing, with or without the delimiter; the host refuses to frame exactly the channels
      above 0x7f. */
  lemma UnframeFrame(p: Packet)
    ensures Unframe(FrameBytes(p)) == Ok(p) && Unframe(Cobs.Encode(Raw(p))) == Ok(p)
    ensures match Frame(p)
            case Ok(frame) => p.channel < 0x80 && Unframe(frame) == Ok(p)
            case Err(e) => p.channel >= 0x80 && e == BadChannel
  {
    var raw, encoded := Raw(p), Cobs.Encode(Raw(p));
    Cobs.RoundTrip(raw);
    Cobs.EncodingShape(raw);
    ChecksumVerifies([p.channel] + p.payload);
    assert StripDelimiter(encoded + [0]) == encoded && StripDelimiter(encoded) == encoded;
    assert raw[1..|raw| - 1] == p.payload;
  }

  /** The sum of all bytes, without a bound. */
  function Total(s: seq<byte>): nat {
    if s == [] then 0 else
    var last: int := s[|s| - 1];
    Total(s[..|s| - 1]) + last
  }

  lemma {:induction false} SumIsTotal(s: seq<byte>)
    ensures var sum: int := Sum(s); sum == Total(s) % 256
  {
    if s != [] {
      SumIsTotal(s[..|s| - 1]);
      AddModulo(Total(s[..|s| - 1]), s[|s| - 1]);
    }
  }

  lemma AddModulo(x: nat, y: nat)
    ensures (x % 256 + y) % 256 == (x + y) % 256
  {
  }

  /** What a frame is on the wire, without its delimiter: the encoding of the channel, the payload and one more
      byte that brings the sum of them all to a multiple of 256. */
  lemma FrameCarries(p: Packet)
    ensures match Cobs.Decode(FrameBytes(p)[..|FrameBytes(p)| - 1])
            case Ok(raw) =>
              && |raw| == |p.payload| + 2 && raw[0] == p.channel && raw[1..|raw| - 1] == p.payload
              && Total(raw) % 256 == 0
            case Err(_) => false
  {
    var raw, encoded := Raw(p), Cobs.Encode(Raw(p));
    Cobs.RoundTrip(raw);
    assert (encoded + [0])[..|encoded|] == encoded;
    ChecksumVerifies([p.channel] + p.payload);
    SumIsTotal(raw);
    assert raw[1..|raw| - 1] == p.payload;
  }

  /** A frame holds one zero, its last byte; and an 8192-byte payload makes at most 8228 bytes,
      so the two frames of a transfer fit the 16512-byte DMA buffer. */
  lemma FrameShape(p: Packet)
    ensures FrameBytes(p) == Cobs.Encode(Raw(p)) + [0] && Cobs.NonZero(Cobs.Encode(Raw(p)))
    ensures |p.payload| + 4 <= |FrameBytes(p)| <= |p.payload| + (|p.payload| + 2) / 254 + 4
    ensures |p.payload| <= 8192 ==> |FrameBytes(p)| <= 8228 && 2 * |FrameBytes(p)| <= 16512
  {
    Cobs.EncodingShape(Raw(p));
  }

  lemma {:induction false} SumAt(s: seq<byte>, i: nat, b: byte)
    requires i < |s| && b != s[i]
    ensures Sum(s[i := b]) != Sum(s)
  {
    hide Sum;
    var last := |s| - 1;
    SumLast(s);
    SumLast(s[i := b]);
    if i < last {
      SumAt(s[..last], i, b);
      assert s[i := b][..last] == s[..last][i := b];
      StayApart(Sum(s[..last]), Sum(s[..last][i := b]), s[last]);
    } else {
      assert s[i := b][..last] == s[..last];
      StayApart(s[last], b, Sum(s[..last]));
    }
  }

  lemma SumLast(s: seq<byte>)
    requires s != []
    ensures var (sum: int, before: int, last: int) := (Sum(s), Sum(s[..|s| - 1]), s[|s| - 1]); sum == (before + last) % 256
  {
  }

  lemma StayApart(x: byte, y: byte, z: byte)
    requires x != y
    ensures var (a: int, b: int, c: int) := (x, y, z); (a + c) % 256 != (b + c) % 256 && (c + a) % 256 != (c + b) % 256
  {
  }

  /** Changing any one byte of a frame's contents makes the frame unacceptable. */
  lemma OneByteChangeRejected(p: Packet, i: nat, b: byte)
    requires i < |Raw(p)| && b != Raw(p)[i]
    ensures Unframe(Cobs.Encode(Raw(p)[i := b])) == Err(BadChecksum)
  {
    var raw := Raw(p)[i := b];
    ChecksumVerifies([p.channel] + p.payload);
    SumAt(Raw(p), i, b);
    Cobs.RoundTrip(raw);
    Cobs.EncodingShape(raw);
    assert StripDelimiter(Cobs.Encode(raw)) == Cobs.Encode(raw);
  }

  // ---- A capture ----

  lemma {:induction false} SplitAtZero(a: seq<byte>, b: seq<byte>)
    ensures Split(a + [0] + b) == Split(a) + Split(b)
  {
    var s := a + [0] + b;
    if a == [] {
      assert s[1..] == b;
    } else {
      SplitAtZero(a[1..], b);
      assert s[1..] == a[1..] + [0] + b;
      PrefixConcat(a[0], Split(a[1..]), Split(b));
    }
  }

  lemma PrefixConcat(c: byte, x: seq<seq<byte>>, y: seq<seq<byte>>)
    requires |x| >= 1
    ensures Prefix(c, x + y) == Prefix(c, x) + y
  {
    assert (x + y)[1..] == x[1..] + y;
  }

  lemma {:induction false} SplitNonZero(a: seq<byte>)
    requires Cobs.NonZero(a)
    ensures Split(a) == [a]
  {
    if a != [] {
      SplitNonZero(a[1..]);
      assert [a[0]] + a[1..] == a;
    }
  }

  lemma {:induction false} ContributionsConcat(a: seq<seq<byte>>, b: seq<seq<byte>>, channel: byte)
    ensures Contributions(a + b, channel) == Contributions(a, channel) + Contributions(b, channel)
  {
    hide Contribution;
    if b == [] {
      assert a + b == a && Contributions(a, channel) + [] == Contributions(a, channel);
    } else {
      ContributionsConcat(a, b[..|b| - 1], channel);
      assert (a + b)[..|a + b| - 1] == a + b[..|b| - 1];
    }
  }

  lemma OneContribution(frame: seq<byte>, channel: byte)
    ensures Contributions([frame], channel) == Contribution(frame, channel)
  {
    assert [frame] == [] + [frame];
    ContributionsConcat([], [frame], channel);
  }

  /** Reconstruction is a homomorphism over the delimiter, for any bytes on either side. */
  lemma ReconstructJoins(a: seq<byte>, b: seq<byte>, channel: byte)
    ensures Reconstruct(a + [0] + b, channel) == Reconstruct(a, channel) + Reconstruct(b, channel)
  {
    SplitAtZero(a, b);
    ContributionsConcat(Split(a), Split(b), channel);
  }

  function Wire(packets: seq<Packet>): seq<byte> {
    if packets == [] then [] else
    Wire(packets[..|packets| - 1]) + FrameBytes(packets[|packets| - 1])
  }

  /** The payload bytes of one channel. */
  function Project(packets: seq<Packet>, channel: byte): seq<byte> {
    if packets == [] then [] else
    var last := packets[|packets| - 1];
    Project(packets[..|packets| - 1], channel) + if last.channel == channel then last.payload else []
  }

  /** A capture of valid frames, then anything: the frames contribute exactly their payloads. */
  lemma {:induction false} WirePrefix(packets: seq<Packet>, rest: seq<byte>, channel: byte)
    ensures Reconstruct(Wire(packets) + rest, channel) == Project(packets, channel) + Reconstruct(rest, channel)
  {
    hide Reconstruct, FrameBytes;
    if packets == [] {
      assert Wire(packets) + rest == rest;
      assert [] + Reconstruct(rest, channel) == Reconstruct(rest, channel);
    } else {
      var before, p := packets[..|packets| - 1], packets[|packets| - 1];
      assert Wire(packets) + rest == Wire(before) + (FrameBytes(p) + rest);
      WirePrefix(before, FrameBytes(p) + rest, channel);
      FramePrefix(p, rest, channel);
      Regroup(Project(before, channel), if p.channel == channel then p.payload else [], Reconstruct(rest, channel));
    }
  }

  lemma Regroup(a: seq<byte>, b: seq<byte>, c: seq<byte>)
    ensures a + (b + c) == a + b + c
  {
  }

  lemma FramePrefix(p: Packet, rest: seq<byte>, channel: byte)
    ensures Reconstruct(FrameBytes(p) + rest, channel)
         == (if p.channel == channel then p.payload else []) + Reconstruct(rest, channel)
  {
    var encoded := Cobs.Encode(Raw(p));
    FrameShape(p);
    UnframeFrame(p);
    SplitNonZero(encoded);
    OneContribution(encoded, channel);
    assert FrameBytes(p) + rest == encoded + [0] + rest;
    assert encoded != [];
    hide Cobs.Encode, Cobs.Decode, Raw, Unframe, Split, Contributions;
    ReconstructJoins(encoded, rest, channel);
  }

  /** A capture of any list of valid frames gives back each channel's payload. */
  lemma FramesReconstruct(packets: seq<Packet>, channel: byte)
    ensures Reconstruct(Wire(packets), channel) == Project(packets, channel)
  {
    WirePrefix(packets, [], channel);
    assert Wire(packets) + [] == Wire(packets);
    OneContribution([], channel);
  }

  /** Whatever replaces the bytes between two delimiters changes nothing outside them. */
  lemma DamageIsLocal(before: seq<Packet>, damage: seq<byte>, after: seq<Packet>, channel: byte)
    ensures Reconstruct(Wire(before) + damage + [0] + Wire(after), channel)
         == Project(before, channel) + Reconstruct(damage, channel) + Project(after, channel)
  {
    assert Wire(before) + damage + [0] + Wire(after) == Wire(before) + (damage + [0] + Wire(after));
    WirePrefix(before, damage + [0] + Wire(after), channel);
    ReconstructJoins(damage, Wire(after), channel);
    FramesReconstruct(after, channel);
  }
}
