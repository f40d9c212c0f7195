/** Trace formatter frames (Arm IHI 0029, chapter D4): what a 16-byte frame means, and how the host's
    decoder recovers the bytes of each trace source. */
module Tpiu {
  import opened Arith
  import opened Bytes

  type Bit = x: int | 0 <= x < 2

  type Channel = x: int | 0 <= x < 128

  datatype Muxed = Muxed(channel: Channel, data: byte)

  /** The source in force, and the one announced to follow the next data byte. */
  datatype Ids = Ids(channel: Channel, delayed: Option<Channel>)

  datatype Decoded = Decoded(ids: Ids, out: seq<Muxed>)

  /** Bit `i` of the auxiliary byte: shifted down `i` places, lowest bit taken. */
  function AuxBit(aux: nat, i: nat): Bit
    decreases i
  {
    if i == 0 then aux % 2 else AuxBit(aux / 2, i - 1)
  }

  /** A slot's byte with its low bit restored from the auxiliary byte. */
  function Restored(raw: seq<byte>, i: nat): byte
    requires |raw| == 16 && i < 15
  {
    if i % 2 == 0 then raw[i] / 2 * 2 + AuxBit(raw[15], i / 2) else raw[i]
  }

  predicate IsId(raw: seq<byte>, i: nat)
    requires |raw| == 16 && i < 15
  {
    i % 2 == 0 && raw[i] % 2 == 1
  }

  function OneSlot(ids: Ids, isId: bool, data: byte): Decoded {
    if isId then
      Decoded(if data % 2 == 1 then ids.(delayed := Some(data / 2)) else ids.(channel := data / 2), [])
    else
      Decoded(if ids.delayed.Some? then Ids(ids.delayed.value, None) else ids,
              if ids.channel != 0 then [Muxed(ids.channel, data)] else [])
  }

  /** The first `n` slots of a frame. */
  function Slots(raw: seq<byte>, n: nat, ids: Ids): Decoded
    requires |raw| == 16 && n <= 15
  {
    if n == 0 then Decoded(ids, []) else
    var before := Slots(raw, n - 1, ids);
    var s := OneSlot(before.ids, IsId(raw, n - 1), Restored(raw, n - 1));
    Decoded(s.ids, before.out + s.out)
  }

  function DecodeFrame(raw: seq<byte>, ids: Ids): Decoded
    requires |raw| == 16
  {
    Slots(raw, 15, ids)
  }

  /** Consecutive frames, and the part of one left over. */
  datatype Stream = Stream(ids: Ids, out: seq<Muxed>, rest: seq<byte>)

  function Decode(bytes: seq<byte>, ids: Ids): (s: Stream)
    ensures |s.rest| < 16
    decreases |bytes|
  {
    if |bytes| < 16 then Stream(ids, [], bytes) else
    var first := DecodeFrame(bytes[..16], ids);
    var more := Decode(bytes[16..], first.ids);
    more.(out := first.out + more.out)
  }

  /** One more byte: it waits for its frame, or completes it. */
  lemma {:induction false} DecodeSnoc(bytes: seq<byte>, b: byte, ids: Ids)
    ensures var s := Decode(bytes, ids);
            Decode(bytes + [b], ids)
            == if |s.rest| < 15 then s.(rest := s.rest + [b])
               else var f := DecodeFrame(s.rest + [b], s.ids);
                    Stream(f.ids, s.out + f.out, [])
    decreases |bytes|
  {
    hide DecodeFrame;
    var all := bytes + [b];
    if |bytes| < 15 {
    } else if |bytes| == 15 {
      assert all[..16] == all && all[16..] == [];
      var f := DecodeFrame(all, ids);
      assert Decode([], f.ids) == Stream(f.ids, [], []);
      assert f.out + [] == f.out && [] + f.out == f.out;
    } else {
      assert all[..16] == bytes[..16] && all[16..] == bytes[16..] + [b];
      DecodeSnoc(bytes[16..], b, DecodeFrame(bytes[..16], ids).ids);
      SnocOut(bytes, b, ids);
    }
  }

  lemma SnocOut(bytes: seq<byte>, b: byte, ids: Ids)
    requires |bytes| >= 16
    ensures var first := DecodeFrame(bytes[..16], ids);
            var s := Decode(bytes[16..], first.ids);
            |s.rest| == 15 ==>
              var f := DecodeFrame(s.rest + [b], s.ids);
              first.out + (s.out + f.out) == first.out + s.out + f.out
  {
  }

  // ---- The host's decoder ----

  /** The last four bytes, oldest at the bottom. */
  const HOST_SYNC: u32 := 0xffff_ff7f

  datatype Host = Host(window: u32, synced: bool, frame: seq<byte>, ids: Ids, losses: nat)

  function Shifted(window: u32, b: byte): u32 {
    var w: int, top: int := window, b;
    w / 0x100 + 0x100_0000 * top
  }

  function HostPush(h: Host, b: byte): (Host, seq<Muxed>)
    requires |h.frame| < 16
  {
    var window := Shifted(h.window, b);
    if !h.synced then
      (if window == HOST_SYNC then h.(window := window, synced := true, frame := []) else h.(window := window), [])
    else if |h.frame| < 15 then (h.(window := window, frame := h.frame + [b]), [])
    else
      var f := DecodeFrame(h.frame + [b], h.ids);
      (h.(window := window, frame := [], ids := f.ids), f.out)
  }

  class TpiuDecoder {
    var syncWindow: u32
    var synced: bool
    var frame: seq<byte>
    var channel: Channel
    var delayedChannel: Option<Channel>
    var syncLosses: nat

    ghost predicate Valid()
      reads this
    {
      |frame| < 16
    }

    ghost function Now(): Host
      reads this
    {
      Host(syncWindow, synced, frame, Ids(channel, delayedChannel), syncLosses)
    }

    constructor ()
      ensures Valid() && Now() == Host(0, false, [], Ids(0, None), 0)
    {
      syncWindow, synced, frame, channel, delayedChannel, syncLosses := 0, false, [], 0, None, 0;
    }

    method ResetSync()
      requires Valid()
      modifies this
      ensures Valid()
      ensures Now() == old(Now()).(synced := false, frame := [], losses := old(syncLosses) + if old(synced) then 1 else 0)
    {
      if synced {
        syncLosses := syncLosses + 1;
      }
      synced := false;
      frame := [];
    }

    method Push(b: byte) returns (out: seq<Muxed>)
      requires Valid()
      modifies this
      ensures Valid() && (Now(), out) == HostPush(old(Now()), b)
    {
      syncWindow := Shifted(syncWindow, b);
      if !synced {
        if syncWindow == HOST_SYNC {
          synced := true;
          frame := [];
        }
        return [];
      }
      frame := frame + [b];
      if |frame| != 16 {
        return [];
      }
      var raw := frame;
      frame := [];
      out := [];
      ghost var ids := Ids(channel, delayedChannel);
      for index := 0 to 15
        invariant Decoded(Ids(channel, delayedChannel), out) == Slots(raw, index, ids)
        invariant frame == [] && synced && syncWindow == Shifted(old(syncWindow), b) && syncLosses == old(syncLosses)
      {
        hide Slots;
        SlotsStep(raw, index, ids);
        var data := Restored(raw, index);
        if IsId(raw, index) {
          var id := data / 2;
          if data % 2 == 1 {
            delayedChannel := Some(id);
          } else {
            channel := id;
          }
        } else {
          if channel != 0 {
            out := out + [Muxed(channel, data)];
          }
          if delayedChannel.Some? {
            channel, delayedChannel := delayedChannel.value, None;
          }
        }
      }
    }
  }

  lemma SlotsStep(raw: seq<byte>, n: nat, ids: Ids)
    requires |raw| == 16 && n < 15
    ensures var (before, now) := (Slots(raw, n, ids), Slots(raw, n + 1, ids));
            var s := OneSlot(before.ids, IsId(raw, n), Restored(raw, n));
            now == Decoded(s.ids, before.out + s.out) && (s.out == [] ==> now.out == before.out)
  {
  }

  /** Pushing a sequence of bytes: the state after them, and everything they gave. */
  function HostRun(h: Host, bytes: seq<byte>): (r: (Host, seq<Muxed>))
    requires |h.frame| < 16
    ensures |r.0.frame| < 16
  {
    if bytes == [] then (h, []) else
    var before := HostRun(h, bytes[..|bytes| - 1]);
    var last := HostPush(before.0, bytes[|bytes| - 1]);
    (last.0, before.1 + last.1)
  }

  /** Once synchronised, pushing any bytes one by one decodes them frame by frame. */
  lemma {:induction false} HostDecodesFrames(h: Host, bytes: seq<byte>)
    requires h.synced && h.frame == []
    ensures var (r, s) := (HostRun(h, bytes), Decode(bytes, h.ids));
            r.0.synced && r.0.ids == s.ids && r.0.frame == s.rest && r.1 == s.out && r.0.losses == h.losses
  {
    if bytes != [] {
      var front, b := bytes[..|bytes| - 1], bytes[|bytes| - 1];
      HostDecodesFrames(h, front);
      assert bytes == front + [b];
      hide DecodeFrame;
      DecodeSnoc(front, b, h.ids);
      hide Decode;
      assert HostRun(h, front).1 + [] == HostRun(h, front).1;
    }
  }

  lemma PushUnsynced(h: Host, b: byte)
    requires |h.frame| < 16
    ensures HostPush(h, b).0.window == Shifted(h.window, b)
    ensures !h.synced ==> (HostPush(h, b).0.synced <==> Shifted(h.window, b) == HOST_SYNC)
    ensures h.synced ==> HostPush(h, b).0.synced
  {
    hide DecodeFrame, Shifted;
  }

  lemma Window(w: u32, a: byte, b: byte, c: byte, d: byte)
    ensures Shifted(Shifted(Shifted(Shifted(w, a), b), c), d) == U32FromLe([a, b, c, d])
    ensures U32FromLe([a, b, c, d]) == HOST_SYNC <==> [a, b, c, d] == [0x7f, 0xff, 0xff, 0xff]
    ensures U32FromLe([a, b, c, d]) == 0x7fff_ffff <==> [a, b, c, d] == [0xff, 0xff, 0xff, 0x7f]
  {
    U32ToLeFromLe([a, b, c, d]);
  }

  lemma RunOne(h: Host, s: seq<byte>, b: byte)
    requires |h.frame| < 16
    ensures HostRun(h, s + [b]).0 == HostPush(HostRun(h, s).0, b).0
  {
    hide HostPush;
    assert (s + [b])[..|s|] == s;
  }

  /** The window is the last four bytes, whatever came before. */
  lemma WindowIsLastFour(h: Host, s: seq<byte>, a: byte, b: byte, c: byte, d: byte)
    requires |h.frame| < 16
    ensures HostRun(h, s + [a] + [b] + [c] + [d]).0.window == U32FromLe([a, b, c, d])
  {
    RunOne(h, s, a);
    RunOne(h, s + [a], b);
    RunOne(h, s + [a] + [b], c);
    RunOne(h, s + [a] + [b] + [c], d);
    hide HostRun, HostPush, Shifted;
    PushUnsynced(HostRun(h, s).0, a);
    PushUnsynced(HostRun(h, s + [a]).0, b);
    PushUnsynced(HostRun(h, s + [a] + [b]).0, c);
    PushUnsynced(HostRun(h, s + [a] + [b] + [c]).0, d);
    Window(HostRun(h, s).0.window, a, b, c, d);
  }

  /** A host still searching locks on a byte exactly when the last four are 7f ff ff ff, in order of
      arrival. */
  lemma HostLocksOn(h: Host, s: seq<byte>, a: byte, b: byte, c: byte, d: byte)
    requires |h.frame| < 16 && !HostRun(h, s + [a] + [b] + [c]).0.synced
    ensures HostRun(h, s + [a] + [b] + [c] + [d]).0.synced <==> [a, b, c, d] == [0x7f, 0xff, 0xff, 0xff]
  {
    WindowIsLastFour(h, s, a, b, c, d);
    var before := s + [a] + [b] + [c];
    RunOne(h, before, d);
    hide HostRun, HostPush, Shifted;
    PushUnsynced(HostRun(h, before).0, d);
    Window(HostRun(h, s).0.window, a, b, c, d);
  }

  // ---- Frames as the formatter builds them ----

  /** Two slots: data, an identifier for the data that follows it, or one for the data after that; and the
      last slot on its own. */
  datatype Pair = Two(first: byte, second: byte) | Now(id: Channel, data: byte) | After(id: Channel, data: byte)

  datatype Last = LastData(data: byte) | LastId(id: Channel)

  /** A frame to be sent: seven pairs and a last slot. */
  datatype Frame = Frame(pairs: seq<Pair>, last: Last)

  /** What the formatter means by a pair, with `channel` in force before it. */
  function Means(channel: Channel, p: Pair): (Channel, seq<Muxed>) {
    match p
    case Two(first, second) => (channel, [Muxed(channel, first), Muxed(channel, second)])
    case Now(id, data) => (id, [Muxed(id, data)])
    case After(id, data) => (id, [Muxed(channel, data)])
  }

  function MeansPairs(channel: Channel, pairs: seq<Pair>): (Channel, seq<Muxed>) {
    if pairs == [] then (channel, []) else
    var before := MeansPairs(channel, pairs[..|pairs| - 1]);
    var last := Means(before.0, pairs[|pairs| - 1]);
    (last.0, before.1 + last.1)
  }

  function MeansFrame(channel: Channel, f: Frame): (Channel, seq<Muxed>) {
    var before := MeansPairs(channel, f.pairs);
    match f.last
    case LastData(data) => (before.0, before.1 + [Muxed(before.0, data)])
    case LastId(id) => (id, before.1)
  }

  /** Channel 0 is the null source: its bytes are dropped. */
  function Kept(m: seq<Muxed>): seq<Muxed> {
    if m == [] then [] else
    Kept(m[..|m| - 1]) + if m[|m| - 1].channel != 0 then [m[|m| - 1]] else []
  }

  function FirstByte(p: Pair): byte {
    match p
    case Two(first, _) => first / 2 * 2
    case Now(id, _) => id * 2 + 1
    case After(id, _) => id * 2 + 1
  }

  function SecondByte(p: Pair): byte {
    match p
    case Two(_, second) => second
    case Now(_, data) => data
    case After(_, data) => data
  }

  /** The bit moved to the auxiliary byte: the low bit of data, or whether an identifier is delayed. */
  function Moved(p: Pair): Bit {
    match p
    case Two(first, _) => first % 2
    case Now(_, _) => 0
    case After(_, _) => 1
  }

  /** Bits put together, the first lowest. */
  function Auxiliary(bits: seq<Bit>): (a: nat)
    ensures a < Pow2(|bits|)
  {
    if bits == [] then 0 else
    var low: int := bits[0];
    low + 2 * Auxiliary(bits[1..])
  }

  function MovedBit(f: Frame, i: nat): Bit
    requires |f.pairs| == 7 && i < 8
  {
    if i < 7 then Moved(f.pairs[i]) else if f.last.LastData? then f.last.data % 2 else 0
  }

  function MovedBits(f: Frame): (bits: seq<Bit>)
    requires |f.pairs| == 7
    ensures |bits| == 8
  {
    seq(8, i requires 0 <= i < 8 => MovedBit(f, i))
  }

  function FrameByte(f: Frame, i: nat): byte
    requires |f.pairs| == 7 && i < 16
  {
    assert Pow2(8) == 256;
    if i == 15 then Auxiliary(MovedBits(f))
    else if i == 14 then (if f.last.LastData? then f.last.data / 2 * 2 else f.last.id * 2 + 1)
    else if i % 2 == 0 then FirstByte(f.pairs[i / 2]) else SecondByte(f.pairs[i / 2])
  }

  /** The sixteen bytes of a frame. */
  function EncodeFrame(f: Frame): (raw: seq<byte>)
    requires |f.pairs| == 7
    ensures |raw| == 16
  {
    seq(16, i requires 0 <= i < 16 => FrameByte(f, i))
  }

  lemma {:induction false} AuxiliaryBits(bits: seq<Bit>, i: nat)
    requires i < |bits|
    ensures AuxBit(Auxiliary(bits), i) == bits[i]
    decreases i
  {
    var low: int, rest := bits[0], Auxiliary(bits[1..]);
    assert (low + 2 * rest) % 2 == low && (low + 2 * rest) / 2 == rest;
    if i > 0 {
      AuxiliaryBits(bits[1..], i - 1);
    }
  }

  lemma PairBytes(p: Pair)
    ensures FirstByte(p) % 2 == if p.Two? then 0 else 1
    ensures FirstByte(p) / 2 * 2 + Moved(p) == match p
                                               case Two(first, _) => first
                                               case Now(id, _) => 2 * id
                                               case After(id, _) => 2 * id + 1
  {
  }

  /** What the decoder sees of a pair. */
  lemma PairSeen(f: Frame, n: nat)
    requires |f.pairs| == 7 && n < 7
    ensures var (raw, p) := (EncodeFrame(f), f.pairs[n]);
            && IsId(raw, 2 * n) == !p.Two? && !IsId(raw, 2 * n + 1) && Restored(raw, 2 * n + 1) == SecondByte(p)
            && Restored(raw, 2 * n) == match p
                                       case Two(first, _) => first
                                       case Now(id, _) => 2 * id
                                       case After(id, _) => 2 * id + 1
  {
    var p := f.pairs[n];
    AuxiliaryBits(MovedBits(f), n);
    PairBytes(p);
    assert MovedBits(f)[n] == Moved(p);
    hide Auxiliary, MovedBits, AuxBit, FirstByte, SecondByte, Moved;
    assert FrameByte(f, 2 * n) == FirstByte(p) && FrameByte(f, 2 * n + 1) == SecondByte(p);
    assert FrameByte(f, 15) == Auxiliary(MovedBits(f));
    hide FrameByte;
  }

  lemma KeptFew(a: Muxed, b: Muxed)
    ensures Kept([]) == [] && Kept([a]) == (if a.channel != 0 then [a] else [])
    ensures Kept([a, b]) == Kept([a]) + Kept([b])
  {
    assert [a, b][..1] == [a] && [a][..0] == [];
    assert [] + Kept([a]) == Kept([a]);
  }

  /** A pair decodes to what the formatter means by it, nothing left announced. */
  lemma PairDecodes(f: Frame, n: nat, ids: Ids)
    requires |f.pairs| == 7 && n < 7 && Slots(EncodeFrame(f), 2 * n, ids).ids.delayed == None
    ensures var raw := EncodeFrame(f);
            var (before, now) := (Slots(raw, 2 * n, ids), Slots(raw, 2 * n + 2, ids));
            var m := Means(before.ids.channel, f.pairs[n]);
            now == Decoded(Ids(m.0, None), before.out + Kept(m.1))
  {
    var raw, p := EncodeFrame(f), f.pairs[n];
    var before := Slots(raw, 2 * n, ids);
    PairSeen(f, n);
    SlotsStep(raw, 2 * n, ids);
    SlotsStep(raw, 2 * n + 1, ids);
    hide Slots, EncodeFrame, IsId, Restored;
    PairMeans(before, p, Restored(raw, 2 * n));
  }

  lemma PairMeans(before: Decoded, p: Pair, b: byte)
    requires before.ids.delayed == None
    requires b == match p
                  case Two(first, _) => first
                  case Now(id, _) => 2 * id
                  case After(id, _) => 2 * id + 1
    ensures var first := OneSlot(before.ids, !p.Two?, b);
            var second := OneSlot(first.ids, false, SecondByte(p));
            var m := Means(before.ids.channel, p);
            second.ids == Ids(m.0, None) && before.out + first.out + second.out == before.out + Kept(m.1)
  {
    hide Kept;
    var c := before.ids.channel;
    match p
    case Two(first, second) =>
      KeptFew(Muxed(c, first), Muxed(c, second));
      KeptFew(Muxed(c, second), Muxed(c, second));
      assert before.out + Kept([Muxed(c, first)]) + Kept([Muxed(c, second)])
          == before.out + (Kept([Muxed(c, first)]) + Kept([Muxed(c, second)]));
    case Now(id, data) =>
      KeptFew(Muxed(id, data), Muxed(id, data));
      assert before.out + [] == before.out;
    case After(id, data) =>
      KeptFew(Muxed(c, data), Muxed(c, data));
      assert before.out + [] == before.out;
  }

  lemma {:induction false} KeptAppends(a: seq<Muxed>, b: seq<Muxed>)
    ensures Kept(a + b) == Kept(a) + Kept(b)
    decreases |b|
  {
    if b == [] {
      assert a + b == a;
    } else {
      assert (a + b)[..|a + b| - 1] == a + b[..|b| - 1];
      KeptAppends(a, b[..|b| - 1]);
    }
  }

  lemma {:induction false} PairsDecode(f: Frame, n: nat, channel: Channel)
    requires |f.pairs| == 7 && n <= 7
    ensures var m := MeansPairs(channel, f.pairs[..n]);
            Slots(EncodeFrame(f), 2 * n, Ids(channel, None)) == Decoded(Ids(m.0, None), Kept(m.1))
  {
    if n > 0 {
      PairsDecode(f, n - 1, channel);
      PairDecodes(f, n - 1, Ids(channel, None));
      hide Slots, EncodeFrame, Kept, Means;
      var before := MeansPairs(channel, f.pairs[..n - 1]);
      assert f.pairs[..n][..n - 1] == f.pairs[..n - 1];
      KeptAppends(before.1, Means(before.0, f.pairs[n - 1]).1);
    }
  }

  lemma LastSeen(f: Frame)
    requires |f.pairs| == 7
    ensures var raw := EncodeFrame(f);
            && IsId(raw, 14) == f.last.LastId?
            && Restored(raw, 14) == match f.last
                                    case LastData(data) => data
                                    case LastId(id) => 2 * id
  {
    AuxiliaryBits(MovedBits(f), 7);
    assert MovedBits(f)[7] == if f.last.LastData? then f.last.data % 2 else 0;
    hide Auxiliary, AuxBit, MovedBits, FirstByte, SecondByte;
    assert FrameByte(f, 15) == Auxiliary(MovedBits(f));
    assert EncodeFrame(f)[14] == FrameByte(f, 14) && EncodeFrame(f)[15] == FrameByte(f, 15);
    hide EncodeFrame;
  }

  /** A frame built by the formatter's rules decodes to exactly the bytes it carries, each with the
      source in force for it, the null source's dropped. */
  lemma FrameDecodes(f: Frame, channel: Channel)
    requires |f.pairs| == 7
    ensures var m := MeansFrame(channel, f);
            DecodeFrame(EncodeFrame(f), Ids(channel, None)) == Decoded(Ids(m.0, None), Kept(m.1))
  {
    assert f.pairs[..7] == f.pairs;
    PairsDecode(f, 7, channel);
    LastSeen(f);
    SlotsStep(EncodeFrame(f), 14, Ids(channel, None));
    hide Slots, EncodeFrame, IsId, Restored, MeansPairs;
    var before := MeansPairs(channel, f.pairs);
    LastMeans(before.0, before.1, f.last, Restored(EncodeFrame(f), 14));
  }

  lemma LastMeans(channel: Channel, out: seq<Muxed>, last: Last, b: byte)
    requires b == match last
                  case LastData(data) => data
                  case LastId(id) => 2 * id
    ensures var s := OneSlot(Ids(channel, None), last.LastId?, b);
            if last.LastData? then s.ids == Ids(channel, None) && Kept(out) + s.out == Kept(out + [Muxed(channel, last.data)])
            else s.ids == Ids(last.id, None) && Kept(out) + s.out == Kept(out)
  {
    hide Kept;
    if last.LastData? {
      KeptFew(Muxed(channel, last.data), Muxed(channel, last.data));
      KeptAppends(out, [Muxed(channel, last.data)]);
    }
    assert Kept(out) + [] == Kept(out);
  }

  /** Frames sent one after the other. */
  function EncodeFrames(frames: seq<Frame>): (bytes: seq<byte>)
    requires forall f <- frames :: |f.pairs| == 7
    ensures |bytes| == 16 * |frames|
  {
    if frames == [] then [] else EncodeFrame(frames[0]) + EncodeFrames(frames[1..])
  }

  function MeansFrames(channel: Channel, frames: seq<Frame>): (Channel, seq<Muxed>)
    decreases |frames|
  {
    if frames == [] then (channel, []) else
    var first := MeansFrame(channel, frames[0]);
    var rest := MeansFrames(first.0, frames[1..]);
    (rest.0, first.1 + rest.1)
  }

  /** Any list of frames built by the formatter's rules comes back as the bytes it carries, sources
      carried from frame to frame. */
  lemma {:induction false} FramesDecode(frames: seq<Frame>, channel: Channel)
    requires forall f <- frames :: |f.pairs| == 7
    ensures var m := MeansFrames(channel, frames);
            Decode(EncodeFrames(frames), Ids(channel, None)) == Stream(Ids(m.0, None), Kept(m.1), [])
    decreases |frames|
  {
    if frames != [] {
      var bytes, first := EncodeFrames(frames), MeansFrame(channel, frames[0]);
      assert bytes[..16] == EncodeFrame(frames[0]) && bytes[16..] == EncodeFrames(frames[1..]);
      FrameDecodes(frames[0], channel);
      FramesDecode(frames[1..], first.0);
      hide DecodeFrame, EncodeFrame, MeansFrame, Kept;
      KeptAppends(first.1, MeansFrames(first.0, frames[1..]).1);
    }
  }
}
