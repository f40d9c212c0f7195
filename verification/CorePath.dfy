/** The trace core: the selected source goes through the demultiplexer into the packetizer, or past it as
    channel 1, and on to the DMA.  The demultiplexer's reader is the packetizer, so stalls of the DMA reach
    back to the pins. */
module CorePath {
  import opened Bytes
  import opened Orbflow
  import Tpiu
  import P = ChannelPacketizer
  import E = OrbflowEncoder
  import D = TpiuDemux
  import T = TracePipeline

  datatype Input = Input(data: byte, valid: bool, resetSync: bool, m3Source: bool, sinkReady: bool)

  /** A run, with the bytes taken from the source. */
  datatype Trace = Trace(demux: D.Trace, path: T.Trace, selected: seq<byte>)

  predicate Shape(t: Trace) {
    D.Sound(t.demux.state) && T.Shape(t.path)
  }

  /** What the packetizer is offered. */
  function ToPath(d: D.State, i: Input, bypass: bool): T.Input
    requires D.Sound(d)
  {
    if bypass then T.Input(1, i.data, i.valid, i.sinkReady)
    else T.Input(d.channel, Tpiu.Restored(d.frame, d.emit), D.OutputValid(d), i.sinkReady)
  }

  function PathReady(t: Trace, i: Input, p: T.Params, bypass: bool): bool
    requires Shape(t)
  {
    P.InputReady(t.path.p.state, T.ToPacketizer(t.path, ToPath(t.demux.state, i, bypass)), T.PacketizerParams(p))
  }

  function ToDemux(t: Trace, i: Input, p: T.Params, bypass: bool): D.Input
    requires Shape(t)
  {
    D.Input(i.resetSync, i.data, i.valid && !bypass, PathReady(t, i, p, bypass), i.m3Source)
  }

  function Advance(t: Trace, i: Input, p: T.Params, bypass: bool): (n: Trace)
    requires Shape(t)
    ensures Shape(n)
  {
    var taken := i.valid && if bypass then PathReady(t, i, p, bypass) else !t.demux.state.emitting;
    D.StepSound(t.demux.state, ToDemux(t, i, p, bypass));
    Trace(D.Advance(t.demux, ToDemux(t, i, p, bypass)),
          T.Advance(t.path, ToPath(t.demux.state, i, bypass), p),
          if taken then t.selected + [i.data] else t.selected)
  }

  function Run(s: D.State, banks: seq<E.Bank>, inputs: seq<Input>, p: T.Params, bypass: bool): (t: Trace)
    requires D.Sound(s) && |banks| == 2
    ensures Shape(t)
  {
    if inputs == [] then Trace(D.Trace(s, [], []), T.Run(banks, [], p), []) else
    Advance(Run(s, banks, inputs[..|inputs| - 1], p, bypass), inputs[|inputs| - 1], p, bypass)
  }

  // ---- The two halves, each on its own ----

  /** What the demultiplexer sees of a run. */
  function DemuxInputs(s: D.State, banks: seq<E.Bank>, inputs: seq<Input>, p: T.Params, bypass: bool): seq<D.Input>
    requires D.Sound(s) && |banks| == 2
  {
    if inputs == [] then [] else
    var before := inputs[..|inputs| - 1];
    DemuxInputs(s, banks, before, p, bypass) + [ToDemux(Run(s, banks, before, p, bypass), inputs[|inputs| - 1], p, bypass)]
  }

  /** What the packetizer and all after it see. */
  function PathInputs(s: D.State, banks: seq<E.Bank>, inputs: seq<Input>, p: T.Params, bypass: bool): seq<T.Input>
    requires D.Sound(s) && |banks| == 2
  {
    if inputs == [] then [] else
    var before := inputs[..|inputs| - 1];
    PathInputs(s, banks, before, p, bypass) + [ToPath(Run(s, banks, before, p, bypass).demux.state, inputs[|inputs| - 1], bypass)]
  }

  lemma {:induction false} Halves(s: D.State, banks: seq<E.Bank>, inputs: seq<Input>, p: T.Params, bypass: bool)
    requires D.Sound(s) && |banks| == 2
    ensures var t := Run(s, banks, inputs, p, bypass);
            && t.demux == D.Run(s, DemuxInputs(s, banks, inputs, p, bypass))
            && t.path == T.Run(banks, PathInputs(s, banks, inputs, p, bypass), p)
  {
    if inputs != [] {
      hide D.Advance, T.Advance, D.Step, ToDemux, ToPath;
      var before := inputs[..|inputs| - 1];
      Halves(s, banks, before, p, bypass);
      var (d, q) := (DemuxInputs(s, banks, before, p, bypass), PathInputs(s, banks, before, p, bypass));
      var (i, j) := (ToDemux(Run(s, banks, before, p, bypass), inputs[|inputs| - 1], p, bypass),
                     ToPath(Run(s, banks, before, p, bypass).demux.state, inputs[|inputs| - 1], bypass));
      assert (d + [i])[..|d|] == d && (q + [j])[..|q|] == q;
    }
  }

  /** Bytes as the packetizer takes them. */
  function Tagged(m: seq<Tpiu.Muxed>): (t: seq<P.Tagged>)
    ensures |t| == |m|
  {
    seq(|m|, i requires 0 <= i < |m| => P.Tagged(m[i].channel, m[i].data))
  }

  function Bypassed(bytes: seq<byte>): (t: seq<P.Tagged>)
    ensures |t| == |bytes|
  {
    seq(|bytes|, i requires 0 <= i < |bytes| => P.Tagged(1, bytes[i]))
  }

  /** Nothing is lost or repeated between the source, the demultiplexer and the packetizer. */
  predicate Linked(t: Trace, bypass: bool) {
    if bypass then t.path.p.accepted == Bypassed(t.selected)
    else t.path.p.accepted == Tagged(t.demux.out) && t.selected == t.demux.taken
  }

  lemma StepLinks(t: Trace, i: Input, p: T.Params, bypass: bool)
    requires Shape(t) && Linked(t, bypass)
    ensures Linked(Advance(t, i, p, bypass), bypass)
  {
    hide D.Step, P.Step, Tpiu.Restored, D.OutputValid, E.InputReady, P.InputReady;
    var n := Advance(t, i, p, bypass);
    PathTakes(t, i, p, bypass);
    hide T.Advance;
    if bypass {
      assert Bypassed(t.selected + [i.data]) == Bypassed(t.selected) + [P.Tagged(1, i.data)];
    } else {
      var m := Tpiu.Muxed(t.demux.state.channel, Tpiu.Restored(t.demux.state.frame, t.demux.state.emit));
      assert Tagged(t.demux.out + [m]) == Tagged(t.demux.out) + [P.Tagged(m.channel, m.data)];
    }
  }

  /** What the packetizer takes in on a clock. */
  lemma PathTakes(t: Trace, i: Input, p: T.Params, bypass: bool)
    requires Shape(t)
    ensures var w := ToPath(t.demux.state, i, bypass);
            Advance(t, i, p, bypass).path.p.accepted
            == t.path.p.accepted + if w.valid && PathReady(t, i, p, bypass) then [P.Tagged(w.channel, w.data)] else []
  {
    hide D.Advance, P.Step, E.Advance, Tpiu.Restored, D.OutputValid, E.InputReady, P.InputReady;
    assert t.path.p.accepted + [] == t.path.p.accepted;
  }

  lemma {:induction false} RunLinks(s: D.State, banks: seq<E.Bank>, inputs: seq<Input>, p: T.Params, bypass: bool)
    requires D.Sound(s) && |banks| == 2
    ensures Linked(Run(s, banks, inputs, p, bypass), bypass)
  {
    if inputs != [] {
      hide Advance, Linked;
      RunLinks(s, banks, inputs[..|inputs| - 1], p, bypass);
      StepLinks(Run(s, banks, inputs[..|inputs| - 1], p, bypass), inputs[|inputs| - 1], p, bypass);
    }
  }

  // ---- From the pins to the host ----

  lemma {:induction false} SelectPrefix(a: seq<Tpiu.Muxed>, b: seq<Tpiu.Muxed>, channel: byte)
    requires a <= b
    ensures T.Select(Tagged(a), channel) <= T.Select(Tagged(b), channel)
  {
    var more := b[|a|..];
    assert b == a + more && Tagged(b) == Tagged(a) + Tagged(more);
    T.SelectConcat(Tagged(a), Tagged(more), channel);
  }

  /** Nothing is in the demultiplexer, the path or the packer. */
  predicate Empty(t: Trace)
    requires Shape(t)
  {
    !t.demux.state.emitting && T.Drained(t.path)
  }

  predicate AtBoundary(capture: seq<byte>) {
    capture == [] || capture[|capture| - 1] == 0
  }

  /** From a fresh lock on, in every calm run under any gaps in the source and any stalls of the DMA: what the
      host reads of a channel from a capture that ends at a frame boundary is the beginning of what its own
      formatter decoder makes of the bytes taken from the pins, and all of it once the core is empty. */
  lemma CaptureMatchesHost(s: D.State, banks: seq<E.Bank>, inputs: seq<Input>, p: T.Params, h: Tpiu.Host, channel: byte)
    requires T.Configured(p) && |banks| == 2 && forall b <- banks :: E.Memories(b, p.maxPacket)
    requires D.Sound(s) && s.synced && s.fill == 0 && !s.emitting
    requires D.CalmRun(s, DemuxInputs(s, banks, inputs, p, false))
    requires h.synced && h.frame == [] && h.ids == D.IdsOf(s)
    ensures var t := Run(s, banks, inputs, p, false);
            && (forall b <- t.path.a.beats :: |b.data| == |b.keep|)
            && var (capture, host) := (T.Capture(t.path), T.Select(Tagged(Tpiu.HostRun(h, t.selected).1), channel));
               && (AtBoundary(capture) ==> Reconstruct(capture, channel) <= host)
               && (Empty(t) ==> Reconstruct(capture, channel) == host)
  {
    hide Run, DemuxInputs, PathInputs, D.Run, T.Run, T.Capture, Reconstruct, T.Select, Tpiu.HostRun, D.CalmRun, T.Drained,
         E.Memories, D.IdsOf, Tagged, T.Configured;
    Halves(s, banks, inputs, p, false);
    RunLinks(s, banks, inputs, p, false);
    T.EndToEnd(banks, PathInputs(s, banks, inputs, p, false), p, channel);
    D.DemuxMatchesHost(s, DemuxInputs(s, banks, inputs, p, false), h);
    var t := Run(s, banks, inputs, p, false);
    SelectPrefix(t.demux.out, Tpiu.HostRun(h, t.selected).1, channel);
  }

  /** Bytes the formatter's rules built come back as what they carry. */
  lemma FramesToCapture(s: D.State, banks: seq<E.Bank>, inputs: seq<Input>, p: T.Params, frames: seq<Tpiu.Frame>, channel: byte)
    requires T.Configured(p) && |banks| == 2 && forall b <- banks :: E.Memories(b, p.maxPacket)
    requires D.Sound(s) && s.synced && s.fill == 0 && !s.emitting && !s.delayedValid
    requires D.CalmRun(s, DemuxInputs(s, banks, inputs, p, false))
    requires forall f <- frames :: |f.pairs| == 7
    requires Run(s, banks, inputs, p, false).selected == Tpiu.EncodeFrames(frames)
    ensures var t := Run(s, banks, inputs, p, false);
            && (forall b <- t.path.a.beats :: |b.data| == |b.keep|)
            && var (capture, sent) := (T.Capture(t.path), T.Select(Tagged(Tpiu.Kept(Tpiu.MeansFrames(s.channel, frames).1)), channel));
               && (AtBoundary(capture) ==> Reconstruct(capture, channel) <= sent)
               && (Empty(t) ==> Reconstruct(capture, channel) == sent)
  {
    hide Run, DemuxInputs, T.Capture, Reconstruct, T.Select, Tpiu.HostRun, D.CalmRun, T.Drained, E.Memories, Tagged, T.Configured,
         Tpiu.Decode, Tpiu.EncodeFrames, Tpiu.MeansFrames, Tpiu.Kept;
    var h := Tpiu.Host(0, true, [], Tpiu.Ids(s.channel, None), 0);
    Tpiu.FramesDecode(frames, s.channel);
    Tpiu.HostDecodesFrames(h, Tpiu.EncodeFrames(frames));
    CaptureMatchesHost(s, banks, inputs, p, h, channel);
  }

  lemma {:induction false} SelectBypassed(bytes: seq<byte>)
    ensures T.Select(Bypassed(bytes), 1) == bytes
  {
    if bytes != [] {
      SelectBypassed(bytes[..|bytes| - 1]);
      assert Bypassed(bytes)[..|bytes| - 1] == Bypassed(bytes[..|bytes| - 1]);
    }
  }

  /** Past the demultiplexer the source's bytes are channel 1, all of them and nothing else. */
  lemma BypassToCapture(s: D.State, banks: seq<E.Bank>, inputs: seq<Input>, p: T.Params)
    requires T.Configured(p) && |banks| == 2 && forall b <- banks :: E.Memories(b, p.maxPacket)
    requires D.Sound(s)
    ensures var t := Run(s, banks, inputs, p, true);
            && (forall b <- t.path.a.beats :: |b.data| == |b.keep|)
            && (AtBoundary(T.Capture(t.path)) ==> Reconstruct(T.Capture(t.path), 1) <= t.selected)
            && (T.Drained(t.path) ==> Reconstruct(T.Capture(t.path), 1) == t.selected)
  {
    hide Run, PathInputs, T.Run, T.Capture, Reconstruct, T.Select, T.Drained, E.Memories, Bypassed, T.Configured;
    Halves(s, banks, inputs, p, true);
    RunLinks(s, banks, inputs, p, true);
    T.EndToEnd(banks, PathInputs(s, banks, inputs, p, true), p, 1);
    SelectBypassed(Run(s, banks, inputs, p, true).selected);
  }
}
