/** The trace path end to end: packetizer, frame encoder and AXI packer clocked together, each
    ready/valid pair shared by the two sides, and the host reading the delivered bytes back. */
module TracePipeline {
  import opened Bytes
  import opened Orbflow
  import opened PacketStream
  import P = ChannelPacketizer
  import E = OrbflowEncoder
  import A = AxisPacker

  /** `frames` per DMA transfer; packetizer and encoder share the packet limit. */
  datatype Params = Params(maxPacket: nat, idleCycles: nat, frames: nat)

  datatype Input = Input(channel: byte, data: byte, valid: bool, sinkReady: bool)

  datatype Trace = Trace(p: P.Trace, e: E.Trace, a: A.Trace)

  predicate Shape(t: Trace) {
    E.Shape(t.e.state) && A.Shape(t.a.state)
  }

  predicate Configured(p: Params) {
    p.maxPacket >= 1 && p.idleCycles >= 1 && p.frames >= 1
  }

  function PacketizerParams(p: Params): P.Params {
    P.Params(p.maxPacket, p.idleCycles)
  }

  /** What each module sees on its inputs during one clock. */
  function ToPacketizer(t: Trace, i: Input): P.Input
    requires Shape(t)
  {
    P.Input(i.channel, i.data, i.valid, E.InputReady(t.e.state))
  }

  function ToEncoder(t: Trace, i: Input, p: Params): E.Input
    requires Shape(t)
  {
    var (s, w, q) := (t.p.state, ToPacketizer(t, i), PacketizerParams(p));
    E.Input(s.channel, s.heldData, P.OutputValid(s, w, q), P.OutputLast(s, w, q),
            A.InputReady(t.a.state, i.sinkReady))
  }

  function ToPacker(t: Trace, i: Input): A.Input
    requires Shape(t)
  {
    var e := t.e.state.emit;
    A.Input(E.OutputData(e, t.e.state.banks[e.bank]), E.OutputValid(e), e.phase == E.Delimiter, i.sinkReady)
  }

  function Advance(t: Trace, i: Input, p: Params): (n: Trace)
    requires Shape(t)
    ensures Shape(n)
  {
    Trace(P.Advance(t.p, ToPacketizer(t, i), PacketizerParams(p)),
          E.Advance(t.e, ToEncoder(t, i, p), p.maxPacket),
          A.Advance(t.a, ToPacker(t, i), p.frames))
  }

  function Run(banks: seq<E.Bank>, inputs: seq<Input>, p: Params): (t: Trace)
    requires |banks| == 2
    ensures Shape(t)
  {
    if inputs == [] then
      Trace(P.Trace(P.RESET, [], []), E.Trace(E.Reset(banks), [], []), A.Trace(A.RESET, [], []))
    else
      Advance(Run(banks, inputs[..|inputs| - 1], p), inputs[|inputs| - 1], p)
  }

  // ---- Transfers are whole frames ----

  /** Frames gathered `frames` at a time. */
  function GroupFrames(k: seq<Packet>, frames: nat): A.Grouped {
    if k == [] then A.Grouped([], [], 0) else
    AddFrame(GroupFrames(k[..|k| - 1], frames), FrameBytes(k[|k| - 1]), frames)
  }

  function AddFrame(g: A.Grouped, frame: seq<byte>, frames: nat): A.Grouped {
    var open := g.open + frame;
    if g.frames + 1 == frames then A.Grouped(g.complete + [open], [], 0)
    else A.Grouped(g.complete, open, g.frames + 1)
  }

  lemma GroupFramesSnoc(k: seq<Packet>, p: Packet, frames: nat)
    ensures GroupFrames(k + [p], frames) == AddFrame(GroupFrames(k, frames), FrameBytes(p), frames)
  {
    assert (k + [p])[..|k|] == k;
  }

  lemma {:induction false} GroupFramesFlat(k: seq<Packet>, frames: nat)
    ensures A.Flat(GroupFrames(k, frames)) == Wire(k)
  {
    if k != [] {
      GroupFramesFlat(k[..|k| - 1], frames);
      var g := GroupFrames(k[..|k| - 1], frames);
      var open := g.open + FrameBytes(k[|k| - 1]);
      assert (g.complete + [open])[..|g.complete|] == g.complete;
      assert A.Concat(g.complete + [open]) + [] == A.Flat(g) + FrameBytes(k[|k| - 1]);
    }
  }

  /** The packer's input, after `sent` whole frames of `k` and some bytes of the next. */
  ghost predicate Linked(octets: seq<A.Octet>, k: seq<Packet>, sent: nat, out: seq<byte>, frames: nat) {
    && sent <= |k| && Wire(k[..sent]) <= out
    && var (g, f) := (A.GroupOctets(octets, frames), GroupFrames(k[..sent], frames));
       && g.complete == f.complete && g.frames == f.frames
       && g.open == f.open + out[|Wire(k[..sent])|..]
  }

  lemma LinkMore(octets: seq<A.Octet>, k: seq<Packet>, k': seq<Packet>, sent: nat, out: seq<byte>, frames: nat)
    requires Linked(octets, k, sent, out, frames) && k <= k'
    ensures Linked(octets, k', sent, out, frames)
  {
    assert k'[..sent] == k[..sent];
  }

  lemma LinkByte(octets: seq<A.Octet>, k: seq<Packet>, sent: nat, out: seq<byte>, o: A.Octet, frames: nat)
    requires Linked(octets, k, sent, out, frames) && !o.last
    ensures Linked(octets + [o], k, sent, out + [o.data], frames)
  {
    hide Wire, GroupFrames;
    assert (octets + [o])[..|octets|] == octets;
    var n := |Wire(k[..sent])|;
    assert (out + [o.data])[n..] == out[n..] + [o.data];
    var f := GroupFrames(k[..sent], frames);
    assert f.open + out[n..] + [o.data] == f.open + (out[n..] + [o.data]);
  }

  lemma LinkDelimiter(octets: seq<A.Octet>, k: seq<Packet>, sent: nat, out: seq<byte>, o: A.Octet, frames: nat)
    requires Linked(octets, k, sent, out, frames) && o.last && sent < |k|
    requires out + [o.data] == Wire(k[..sent + 1])
    ensures Linked(octets + [o], k, sent + 1, out + [o.data], frames)
  {
    hide Wire, FrameBytes, GroupFrames;
    assert k[..sent + 1] == k[..sent] + [k[sent]];
    WireSnoc(k[..sent], k[sent]);
    GroupFramesSnoc(k[..sent], k[sent], frames);
    assert (octets + [o])[..|octets|] == octets;
    var base, frame, f := Wire(k[..sent]), FrameBytes(k[sent]), GroupFrames(k[..sent], frames);
    LastByte(base, out, o.data, frame, f.open);
  }

  lemma LastByte(base: seq<byte>, out: seq<byte>, b: byte, frame: seq<byte>, open: seq<byte>)
    requires base <= out && out + [b] == base + frame
    ensures open + out[|base|..] + [b] == open + frame
    ensures (out + [b])[|base + frame|..] == []
  {
    assert (out + [b])[|base|..] == out[|base|..] + [b];
    assert (base + frame)[|base|..] == frame;
    assert open + out[|base|..] + [b] == open + (out[|base|..] + [b]);
  }

  // ---- The invariant ----

  ghost predicate Inv(t: Trace, sent: nat, p: Params) {
    && Configured(p)
    && P.Inv(t.p, PacketizerParams(p)) && E.Inv(t.e, sent, p.maxPacket) && A.Inv(t.a, p.frames)
    && t.e.beats == t.p.beats
    && Linked(t.a.accepted, E.Outgoing(t.e, p.maxPacket), sent, t.e.out, p.frames)
  }

  /** The packer takes exactly the byte the encoder sends, with `last` on the delimiter only. */
  lemma LinkKeeps(t: Trace, sent: nat, i: Input, p: Params) returns (sent': nat)
    requires Inv(t, sent, p)
    ensures var t' := Advance(t, i, p);
            && E.Inv(t'.e, sent', p.maxPacket)
            && Linked(t'.a.accepted, E.Outgoing(t'.e, p.maxPacket), sent', t'.e.out, p.frames)
    ensures Shape(t)
    ensures sent' == if t.e.state.emit.phase == E.Delimiter && ToEncoder(t, i, p).ready then sent + 1 else sent
  {
    InvShape(t, sent, p);
    hide E.Inv, P.Inv, A.Inv, Wire, FrameBytes, Linked, E.Outgoing, Advance, ToEncoder;
    var t', max, w := Advance(t, i, p), p.maxPacket, ToEncoder(t, i, p);
    OnTheWire(t, i, p);
    sent' := E.StepKeeps(t.e, sent, w, max);
    E.SentFrames(t'.e, sent', max);
    LinkMore(t.a.accepted, E.Outgoing(t.e, max), E.Outgoing(t'.e, max), sent, t.e.out, p.frames);
    if w.ready && t.e.state.emit.phase != E.Idle {
      var o := A.Octet(ToPacker(t, i).data, t.e.state.emit.phase == E.Delimiter);
      if o.last {
        LinkDelimiter(t.a.accepted, E.Outgoing(t'.e, max), sent, t.e.out, o, p.frames);
      } else {
        LinkByte(t.a.accepted, E.Outgoing(t'.e, max), sent, t.e.out, o, p.frames);
      }
    }
  }

  /** What passes between the encoder and the packer on a clock. */
  lemma OnTheWire(t: Trace, i: Input, p: Params)
    requires Shape(t)
    ensures var (t', w, e) := (Advance(t, i, p), ToEncoder(t, i, p), t.e.state.emit);
            var o := A.Octet(ToPacker(t, i).data, e.phase == E.Delimiter);
            && t'.e == E.Advance(t.e, w, p.maxPacket)
            && (w.ready && e.phase != E.Idle ==>
                  t'.a.accepted == t.a.accepted + [o] && t'.e.out == t.e.out + [o.data])
            && (!(w.ready && e.phase != E.Idle) ==> t'.a.accepted == t.a.accepted && t'.e.out == t.e.out)
            && (e.phase == E.Delimiter && w.ready ==> t'.e.state.emit.phase == E.Idle)
  {
    hide E.LoadStep, E.OutputData, A.Step, P.Advance;
  }

  lemma StepKeeps(t: Trace, sent: nat, i: Input, p: Params) returns (sent': nat)
    requires Inv(t, sent, p)
    ensures Shape(t) && Inv(Advance(t, i, p), sent', p)
    ensures sent' == if t.e.state.emit.phase == E.Delimiter && ToEncoder(t, i, p).ready then sent + 1 else sent
  {
    sent' := LinkKeeps(t, sent, i, p);
    hide E.Inv, P.Inv, A.Inv, Linked, E.Step, P.Step, A.Step, E.OutputData;
    P.StepKeeps(t.p, ToPacketizer(t, i), PacketizerParams(p));
    A.StepKeeps(t.a, ToPacker(t, i), p.frames);
  }

  lemma {:induction false} RunKeeps(banks: seq<E.Bank>, inputs: seq<Input>, p: Params) returns (sent: nat)
    requires Configured(p) && |banks| == 2 && forall b <- banks :: E.Memories(b, p.maxPacket)
    ensures Inv(Run(banks, inputs, p), sent, p)
  {
    if inputs == [] {
      E.ResetHolds(banks, p.maxPacket);
      A.ResetHolds(p.frames);
      sent := 0;
    } else {
      var before := inputs[..|inputs| - 1];
      var u := RunKeeps(banks, before, p);
      sent := StepKeeps(Run(banks, before, p), u, inputs[|inputs| - 1], p);
    }
  }

  // ---- What the host sees ----

  /** The bytes of one channel among tagged bytes. */
  function Select(tags: seq<P.Tagged>, channel: byte): seq<byte> {
    if tags == [] then [] else
    var last := tags[|tags| - 1];
    Select(tags[..|tags| - 1], channel) + if last.channel == channel then [last.data] else []
  }

  lemma {:induction false} SelectConcat(a: seq<P.Tagged>, b: seq<P.Tagged>, channel: byte)
    ensures Select(a + b, channel) == Select(a, channel) + Select(b, channel)
  {
    if b == [] {
      assert a + b == a;
    } else {
      SelectConcat(a, b[..|b| - 1], channel);
      assert (a + b)[..|a + b| - 1] == a + b[..|b| - 1];
    }
  }

  lemma {:induction false} SelectTags(k: Packet, channel: byte)
    ensures Select(P.Tags(k), channel) == if k.channel == channel then k.payload else []
    decreases |k.payload|
  {
    if k.payload != [] {
      var before := k.(payload := k.payload[..|k.payload| - 1]);
      SelectTags(before, channel);
      assert P.Tags(k)[..|k.payload| - 1] == P.Tags(before);
    }
  }

  lemma {:induction false} SelectAllTags(k: seq<Packet>, channel: byte)
    ensures Select(P.AllTags(k), channel) == Project(k, channel)
  {
    if k != [] {
      SelectAllTags(k[..|k| - 1], channel);
      SelectTags(k[|k| - 1], channel);
      SelectConcat(P.AllTags(k[..|k| - 1]), P.Tags(k[|k| - 1]), channel);
    }
  }

  /** Bytes that end with a delimiter and start a stream of frames are whole frames. */
  lemma {:induction false} EndsWithFrame(s: seq<byte>, k: seq<Packet>) returns (n: nat)
    requires s <= Wire(k) && (s == [] || s[|s| - 1] == 0)
    ensures n <= |k| && s == Wire(k[..n])
  {
    if s == [] {
      n := 0;
      assert k[..0] == [];
    } else {
      var before, p := k[..|k| - 1], k[|k| - 1];
      var w := Wire(before);
      if |s| <= |w| {
        n := EndsWithFrame(s, before);
        assert before[..n] == k[..n];
      } else {
        FrameShape(p);
        var j := |s| - |w| - 1;
        assert s[|s| - 1] == Wire(k)[|s| - 1] == FrameBytes(p)[j];
        n := |k|;
        assert k[..n] == k;
      }
    }
  }

  /** What the delivered beats hold. */
  function Capture(t: Trace): seq<byte>
    requires forall b <- t.a.beats :: |b.data| == |b.keep|
  {
    A.Flat(A.GroupBeats(t.a.beats))
  }

  /** No byte is held, half packed or waiting anywhere. */
  predicate Drained(t: Trace)
    requires Shape(t)
  {
    !t.p.state.held && E.Quiet(t.e.state) && t.a.state.count == 0 && !t.a.state.outValid
  }

  /** The packets the packetizer has completed are the ones that go out. */
  lemma NothingDropped(t: Trace, sent: nat, p: Params)
    requires Inv(t, sent, p)
    ensures E.Outgoing(t.e, p.maxPacket) == Parse(t.p.beats).complete
  {
    KeptAll(Parse(t.p.beats).complete, p.maxPacket);
  }

  lemma LinkedFlat(octets: seq<A.Octet>, k: seq<Packet>, sent: nat, out: seq<byte>, frames: nat)
    requires Linked(octets, k, sent, out, frames)
    ensures A.Data(octets) == out
  {
    A.FlatOctets(octets, frames);
    GroupFramesFlat(k[..sent], frames);
    var f, base := GroupFrames(k[..sent], frames), Wire(k[..sent]);
    assert A.Concat(f.complete) + (f.open + out[|base|..]) == A.Flat(f) + out[|base|..];
  }

  lemma InvShape(t: Trace, sent: nat, p: Params)
    requires Inv(t, sent, p)
    ensures Shape(t)
  {
    hide P.Inv, Linked;
  }

  /** At every moment of every run the capture is a prefix of the frames of the packets made so
      far, and all of them once the path has drained. */
  lemma CaptureIsFrames(t: Trace, sent: nat, p: Params)
    requires Inv(t, sent, p)
    ensures forall b <- t.a.beats :: |b.data| == |b.keep|
    ensures Capture(t) <= Wire(Parse(t.p.beats).complete)
    ensures Drained(t) ==> Capture(t) == Wire(Parse(t.p.beats).complete)
  {
    hide E.Inv, P.Inv, Parse, Wire, A.Wellformed, A.LowLanes, A.Inv, E.Outgoing;
    var k := E.Outgoing(t.e, p.maxPacket);
    InvShape(t, sent, p);
    NothingDropped(t, sent, p);
    A.TransferredIsPrefix(t.a, p.frames);
    LinkedFlat(t.a.accepted, k, sent, t.e.out, p.frames);
    E.SentFrames(t.e, sent, p.maxPacket);
    assert forall b <- t.a.beats :: b in A.Issued(t.a);
    if Drained(t) {
      E.QuietSentAll(t.e, sent, p.maxPacket);
    }
  }

  lemma {:induction false} ProjectPrefix(k: seq<Packet>, n: nat, channel: byte)
    requires n <= |k|
    ensures Project(k[..n], channel) <= Project(k, channel)
  {
    if n < |k| {
      var before := k[..|k| - 1];
      ProjectPrefix(before, n, channel);
      assert before[..n] == k[..n];
    } else {
      assert k[..n] == k;
    }
  }

  /** The packets made so far hold the first of the channel's bytes accepted, in order. */
  lemma SelectAccepted(t: P.Trace, p: P.Params, channel: byte)
    requires P.Inv(t, p)
    ensures var k := Parse(t.beats).complete;
            && Project(k, channel) <= Select(t.accepted, channel)
            && (!t.state.held ==> Project(k, channel) == Select(t.accepted, channel))
  {
    var (s, q) := (t.state, Parse(t.beats));
    var open, held := P.OpenTags(q.open), if s.held then [P.Tagged(s.channel, s.heldData)] else [];
    hide P.AllTags, P.OpenTags, Parse, Select;
    assert t.accepted == P.AllTags(q.complete) + (open + held);
    SelectConcat(P.AllTags(q.complete), open + held, channel);
    SelectAllTags(q.complete, channel);
    if !s.held {
      NoneSelected(q, open + held, channel);
    }
  }

  lemma NoneSelected(q: Parsed, rest: seq<P.Tagged>, channel: byte)
    requires q.open.None? && rest == P.OpenTags(q.open) + []
    ensures Select(rest, channel) == []
  {
  }

  lemma PacketizerKeeps(t: Trace, sent: nat, p: Params)
    requires Inv(t, sent, p)
    ensures P.Inv(t.p, PacketizerParams(p))
  {
    hide E.Inv, P.Inv, A.Inv, Linked;
  }

  /** End to end, for every run of the path under any input gaps and any stalls of the DMA, and
      for every channel: reading back a capture that ends at a frame boundary gives the channel's
      payload of the first packets, a prefix of the channel's bytes accepted at the far end. */
  lemma EndToEnd(banks: seq<E.Bank>, inputs: seq<Input>, p: Params, channel: byte)
    requires Configured(p) && |banks| == 2 && forall b <- banks :: E.Memories(b, p.maxPacket)
    ensures var t := Run(banks, inputs, p);
            && (forall b <- t.a.beats :: |b.data| == |b.keep|)
            && var (c, k, sent) := (Capture(t), Parse(t.p.beats).complete, Select(t.p.accepted, channel));
               && ((c == [] || c[|c| - 1] == 0) ==>
                     && (exists n :: 0 <= n <= |k| && c == Wire(k[..n]) && Reconstruct(c, channel) == Project(k[..n], channel))
                     && Reconstruct(c, channel) <= sent)
               && (Drained(t) ==> Reconstruct(c, channel) == sent)
  {
    hide Run, Inv, Parse, Capture, Wire, Reconstruct, Project, Select, P.Inv, Configured, E.Memories;
    var sent := RunKeeps(banks, inputs, p);
    var t := Run(banks, inputs, p);
    CaptureIsFrames(t, sent, p);
    PacketizerKeeps(t, sent, p);
    var c, k := Capture(t), Parse(t.p.beats).complete;
    SelectAccepted(t.p, PacketizerParams(p), channel);
    if c == [] || c[|c| - 1] == 0 {
      var n := WholeFrames(c, k, channel);
    }
    if Drained(t) {
      FramesReconstruct(k, channel);
    }
  }

  /** A capture that ends at a frame boundary is whole frames, and reads back as their payloads. */
  lemma WholeFrames(c: seq<byte>, k: seq<Packet>, channel: byte) returns (n: nat)
    requires c <= Wire(k) && (c == [] || c[|c| - 1] == 0)
    ensures n <= |k| && c == Wire(k[..n]) && Reconstruct(c, channel) == Project(k[..n], channel) <= Project(k, channel)
  {
    hide Wire, Reconstruct, Project;
    n := EndsWithFrame(c, k);
    FramesReconstruct(k[..n], channel);
    ProjectPrefix(k, n, channel);
  }

  /** Every finished DMA transfer is the next `frames` whole frames; with packets of at most 8192
      bytes and two frames a transfer, none exceeds the 16512-byte buffer. */
  lemma TransfersAreFrames(banks: seq<E.Bank>, inputs: seq<Input>, p: Params)
    requires Configured(p) && |banks| == 2 && forall b <- banks :: E.Memories(b, p.maxPacket)
    ensures var t := Run(banks, inputs, p);
            && (forall b <- t.a.beats :: |b.data| == |b.keep|)
            && var (done, all) := (A.GroupBeats(t.a.beats).complete, GroupFrames(Parse(t.p.beats).complete, p.frames));
               && done <= all.complete
               && (p.maxPacket <= 8192 && p.frames == 2 ==> forall d <- done :: |d| <= 16512)
  {
    hide Inv, Run, Parse, GroupFrames, A.GroupBeats, Configured, E.Memories;
    var sent := RunKeeps(banks, inputs, p);
    var t := Run(banks, inputs, p);
    var k := Parse(t.p.beats).complete;
    DoneTransfers(t, sent, p);
    GroupFramesPrefix(k, sent, p.frames);
    if p.maxPacket <= 8192 && p.frames == 2 {
      PacketsBounded(t, sent, p);
      TransferSizes(k);
    }
  }

  lemma DoneTransfers(t: Trace, sent: nat, p: Params)
    requires Inv(t, sent, p)
    ensures forall b <- t.a.beats :: |b.data| == |b.keep|
    ensures var k := Parse(t.p.beats).complete;
            sent <= |k| && A.GroupBeats(t.a.beats).complete <= GroupFrames(k[..sent], p.frames).complete
  {
    NothingDropped(t, sent, p);
    A.TransferredIsPrefix(t.a, p.frames);
    assert forall b <- t.a.beats :: b in A.Issued(t.a);
    hide E.Inv, P.Inv, Parse, Wire, GroupFrames, A.GroupBeats, A.GroupOctets, A.Wellformed, E.Outgoing, A.Flat, A.LowLanes;
  }

  lemma PacketsBounded(t: Trace, sent: nat, p: Params)
    requires Inv(t, sent, p)
    ensures forall q <- Parse(t.p.beats).complete :: |q.payload| <= p.maxPacket
  {
    hide E.Inv, A.Inv, Linked;
  }

  lemma {:induction false} GroupFramesPrefix(k: seq<Packet>, n: nat, frames: nat)
    requires n <= |k|
    ensures GroupFrames(k[..n], frames).complete <= GroupFrames(k, frames).complete
  {
    if n < |k| {
      var before := k[..|k| - 1];
      GroupFramesPrefix(before, n, frames);
      assert before[..n] == k[..n];
    } else {
      assert k[..n] == k;
    }
  }

  lemma {:induction false} TransferSizes(k: seq<Packet>)
    requires forall q <- k :: |q.payload| <= 8192
    ensures var g := GroupFrames(k, 2);
            g.frames < 2 && |g.open| <= g.frames * 8228 && forall d <- g.complete :: |d| <= 16512
  {
    if k != [] {
      TransferSizes(k[..|k| - 1]);
      FrameShape(k[|k| - 1]);
    }
  }
}
