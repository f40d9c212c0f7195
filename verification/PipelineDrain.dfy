/** The trace path comes to rest: with no more input and a sink that stays ready, packetizer and encoder
    run empty within a bounded number of clocks, and only the packer's partial beat is left. */
module PipelineDrain {
  import opened Bytes
  import opened Orbflow
  import opened PacketStream
  import Cobs
  import P = ChannelPacketizer
  import E = OrbflowEncoder
  import A = AxisPacker
  import opened T = TracePipeline

  const QUIET := T.Input(0, 0, false, true)

  /** `n` clocks without input, the sink ready. */
  function Waited(t: Trace, n: nat, p: Params): (w: Trace)
    requires Shape(t)
    ensures Shape(w)
  {
    if n == 0 then t else Advance(Waited(t, n - 1, p), QUIET, p)
  }

  /** Packetizer and encoder hold nothing. */
  predicate Settled(t: Trace)
    requires Shape(t)
  {
    !t.p.state.held && E.Quiet(t.e.state)
  }

  /** The longest frame of a packet of at most `max` bytes. */
  function FrameBound(max: nat): nat {
    max + (max + 2) / 254 + 4
  }

  // ---- What is left to do ----

  function LoadWork(l: E.Loader): nat {
    match l.phase
    case FirstData => 3
    case Checksum => 2
    case Finalize => 1
    case Accept => 0
  }

  function Busy(e: E.Emitter): nat {
    if e.phase == E.Idle then 0 else 1
  }

  /** Loader phases, bytes not sent, and one clock to start and one to end each frame. */
  ghost function EncoderWork(t: E.Trace, sent: nat, max: nat): int {
    var k := E.Outgoing(t, max);
    LoadWork(t.state.load) + |Wire(k)| - |t.out| + 2 * (|k| - sent) - Busy(t.state.emit)
  }

  /** A held byte may yet wait out the idle limit, and then ends a packet. */
  function HeldWork(s: P.State, max: nat): nat {
    if s.held then s.idle + FrameBound(max) + 6 else 0
  }

  function SentNext(t: E.Trace, ready: bool, sent: nat): nat {
    if t.state.emit.phase == E.Delimiter && ready then sent + 1 else sent
  }

  // ---- The encoder ----

  lemma LoadFalls(l: E.Loader, b: E.Bank, i: E.Input, max: nat)
    ensures var (l', _) := E.LoadStep(l, b, i, max);
            if l.phase != E.Accept then LoadWork(l') < LoadWork(l)
            else if i.valid && !b.full then LoadWork(l') <= 3 else l' == l
  {
    hide E.StoreRaw;
  }

  /** One clock of a ready emitter: a byte, or a frame started, or nothing to send. */
  lemma EmitFalls(t: E.Trace, sent: nat, i: E.Input, max: nat)
    requires E.Shape(t.state) && i.ready
    ensures var (s, n) := (t.state, E.Advance(t, i, max));
            var (was, now) := (|t.out| + 2 * sent + Busy(s.emit), |n.out| + 2 * SentNext(t, true, sent) + Busy(n.state.emit));
            now >= was && (s.emit.phase != E.Idle || s.banks[s.emit.nextBank].full ==> now > was)
  {
    hide E.LoadStep, E.OutputData, E.Sub8;
  }

  lemma PacketTaken(t: E.Trace, sent: nat, i: E.Input, max: nat)
    requires E.Inv(t, sent, max) && E.Shape(t.state)
    ensures var (k, k') := (E.Outgoing(t, max), E.Outgoing(E.Advance(t, i, max), max));
            && (k' == k || (i.valid && E.InputReady(t.state) && |k'| == |k| + 1))
            && |Wire(k')| <= |Wire(k)| + if k' == k then 0 else FrameBound(max)
  {
    hide E.Inv, E.LoadStep, E.Outgoing, E.Advance, Wire, Parse, E.OpenNext, E.ClosedNext, E.Closing, FrameBound;
    E.LoadHalf(t, sent, i, max);
    NotTaken(t, i, max);
    var (k, k') := (E.Outgoing(t, max), E.Outgoing(E.Advance(t, i, max), max));
    OneFrameMore(k, k'[|k|..], E.Advance(t, i, max), max);
    assert k' == k + k'[|k|..];
  }

  lemma NotTaken(t: E.Trace, i: E.Input, max: nat)
    requires E.Shape(t.state)
    ensures !(i.valid && E.InputReady(t.state)) ==> E.Outgoing(E.Advance(t, i, max), max) == E.Outgoing(t, max)
  {
    hide E.Step, Kept, Parse;
  }

  lemma OneFrameMore(k: seq<Packet>, more: seq<Packet>, t: E.Trace, max: nat)
    requires k + more == E.Outgoing(t, max) && |more| <= 1
    ensures |Wire(k + more)| <= |Wire(k)| + if more == [] then 0 else FrameBound(max)
  {
    hide E.Outgoing, FrameBound, FrameBytes;
    if more == [] {
      assert k + more == k;
    } else {
      var q := more[0];
      assert k + more == k + [q] && q in k + more;
      ShortPacket(t, max, q);
      WireSnoc(k, q);
    }
  }

  lemma ShortPacket(t: E.Trace, max: nat, q: Packet)
    requires q in E.Outgoing(t, max)
    ensures |q.payload| <= max && |FrameBytes(q)| <= FrameBound(max)
  {
    hide FrameBytes, Cobs.Encode, Raw, Parse, Kept;
    assert |q.payload| <= max;
    FrameShape(q);
    assert (|q.payload| + 2) / 254 <= (max + 2) / 254;
  }

  /** Nothing to load, to start or to send. */
  predicate AtRest(s: E.State)
    requires E.Shape(s)
  {
    s.load.phase == E.Accept && s.emit.phase == E.Idle && !s.banks[s.emit.nextBank].full
  }

  /** One clock of the encoder with its output ready. */
  lemma EncoderFalls(t: E.Trace, sent: nat, i: E.Input, max: nat)
    requires E.Inv(t, sent, max) && E.Shape(t.state) && i.ready
    ensures var (s, n) := (t.state, E.Advance(t, i, max));
            var (was, now) := (EncoderWork(t, sent, max), EncoderWork(n, SentNext(t, true, sent), max));
            && (i.valid && E.InputReady(s) ==> now <= was + FrameBound(max) + 5)
            && (!(i.valid && E.InputReady(s)) ==> now <= was && (now < was || AtRest(s)))
  {
    hide E.Inv, E.LoadStep, E.Outgoing, E.Advance, Wire, FrameBound, LoadWork, Busy, SentNext;
    var s := t.state;
    LoadFalls(s.load, s.banks[s.load.bank], i, max);
    EmitFalls(t, sent, i, max);
    PacketTaken(t, sent, i, max);
    LoaderIs(t, i, max);
    NoLoadWork(s.load);
  }

  lemma NoLoadWork(l: E.Loader)
    ensures LoadWork(l) <= 3 && (l.phase == E.Accept ==> LoadWork(l) == 0)
  {
  }

  lemma LoaderIs(t: E.Trace, i: E.Input, max: nat)
    requires E.Shape(t.state)
    ensures E.Advance(t, i, max).state.load == E.LoadStep(t.state.load, t.state.banks[t.state.load.bank], i, max).0
  {
    hide E.LoadStep, E.EmitStep, E.OutputData;
  }

  /** An encoder at rest takes input, and is quiet unless a packet is open. */
  lemma RestsReady(t: E.Trace, sent: nat, max: nat)
    requires E.Inv(t, sent, max) && E.Shape(t.state) && AtRest(t.state)
    ensures E.InputReady(t.state)
    ensures Parse(t.beats).open.None? ==> E.Quiet(t.state)
  {
    hide E.EmitInv, E.Outgoing, E.Stored, E.Loaded, Wire, Parse, E.SumNeg;
  }

  lemma QuietStays(t: E.Trace, i: E.Input, max: nat)
    requires E.Shape(t.state) && E.Quiet(t.state) && !i.valid
    ensures E.Quiet(E.Advance(t, i, max).state)
  {
    hide E.StoreRaw, E.OutputData;
  }

  /** What there can be to do at most. */
  lemma WorkBounded(t: E.Trace, sent: nat, max: nat)
    requires E.Inv(t, sent, max)
    ensures 0 <= EncoderWork(t, sent, max) <= 3 * FrameBound(max) + 9
  {
    hide E.Inv, E.Outgoing, Wire, FrameBound, LoadWork, Busy;
    var k := E.Outgoing(t, max);
    E.SentFrames(t, sent, max);
    Started(t, sent, max);
    FramesBounded(t, max, sent);
    NoLoadWork(t.state.load);
    AtMostThree(|k| - sent, FrameBound(max));
  }

  lemma AtMostThree(n: nat, bound: nat)
    requires n <= 3
    ensures n * bound <= 3 * bound
  {
  }

  lemma Started(t: E.Trace, sent: nat, max: nat)
    requires E.Inv(t, sent, max)
    ensures Busy(t.state.emit) <= 1 && sent + Busy(t.state.emit) <= |E.Outgoing(t, max)|
  {
    hide E.LoadInv, E.EmitInv, E.Outgoing, Wire;
  }

  lemma {:induction false} FramesBounded(t: E.Trace, max: nat, sent: nat)
    requires sent <= |E.Outgoing(t, max)|
    ensures var k := E.Outgoing(t, max); |Wire(k)| <= |Wire(k[..sent])| + (|k| - sent) * FrameBound(max)
  {
    var k := E.Outgoing(t, max);
    hide E.Outgoing, Wire, FrameBound;
    for n := sent to |k|
      invariant |Wire(k[..n])| <= |Wire(k[..sent])| + (n - sent) * FrameBound(max)
    {
      ShortPacket(t, max, k[n]);
      WireSnoc(k[..n], k[n]);
      assert k[..n + 1] == k[..n] + [k[n]];
      assert (n + 1 - sent) * FrameBound(max) == (n - sent) * FrameBound(max) + FrameBound(max);
    }
    assert k[..|k|] == k;
  }

  // ---- The whole path ----

  ghost function Work(t: Trace, sent: nat, p: Params): int {
    EncoderWork(t.e, sent, p.maxPacket) + HeldWork(t.p.state, p.maxPacket)
  }

  /** One clock of the packetizer without input. */
  lemma PacketizerFalls(t: P.Trace, i: P.Input, q: P.Params)
    requires P.Inv(t, q) && !i.valid
    ensures var (s, n) := (t.state, P.Advance(t, i, q));
            && n.accepted == t.accepted
            && if P.OutputValid(s, i, q) && i.ready
               then s.held && !n.state.held
               else n.state.held == s.held && HeldWork(n.state, q.maxPacket) <= HeldWork(s, q.maxPacket)
                    && (s.held && !P.OutputValid(s, i, q) ==> HeldWork(n.state, q.maxPacket) < HeldWork(s, q.maxPacket))
    ensures !t.state.held ==> Parse(t.beats).open.None?
    ensures HeldWork(t.state, q.maxPacket) <= q.idleCycles + FrameBound(q.maxPacket) + 6
  {
    hide Parse, P.AllTags, P.OpenTags, FrameBound;
  }

  /** A clock without input and with the sink ready gets the path nearer to rest. */
  lemma ClockFalls(t: Trace, sent: nat, p: Params) returns (sent': nat)
    requires Inv(t, sent, p)
    ensures Shape(t) && Inv(Advance(t, QUIET, p), sent', p)
    ensures var n := Advance(t, QUIET, p);
            && n.p.accepted == t.p.accepted
            && if Settled(t) then Settled(n) && !n.a.state.outValid else Work(n, sent', p) < Work(t, sent, p)
  {
    sent' := StepKeeps(t, sent, QUIET, p);
    Parts(t, sent, p);
    var q, w := ToPacketizer(t, QUIET), ToEncoder(t, QUIET, p);
    PacketizerFalls(t.p, q, PacketizerParams(p));
    EncoderFalls(t.e, sent, w, p.maxPacket);
    if !(w.valid && E.InputReady(t.e.state)) && AtRest(t.e.state) {
      RestsReady(t.e, sent, p.maxPacket);
    }
    if Settled(t) {
      QuietStays(t.e, w, p.maxPacket);
      PackerEmpties(t, p);
    }
    hide Inv, E.Inv, P.Inv, E.Advance, P.Advance, A.Advance, EncoderWork, FrameBound, E.Quiet, AtRest, P.SizeBoundary;
  }

  lemma Parts(t: Trace, sent: nat, p: Params)
    requires Inv(t, sent, p)
    ensures P.Inv(t.p, PacketizerParams(p)) && E.Inv(t.e, sent, p.maxPacket) && t.e.beats == t.p.beats
  {
    hide P.Inv, E.Inv, A.Inv, Linked;
  }

  lemma PackerEmpties(t: Trace, p: Params)
    requires Shape(t) && t.e.state.emit.phase == E.Idle
    ensures !Advance(t, QUIET, p).a.state.outValid
  {
    hide E.Advance, P.Advance;
  }

  lemma {:induction false} WaitFalls(t: Trace, sent: nat, n: nat, p: Params) returns (sent': nat)
    requires Inv(t, sent, p) && Shape(t)
    ensures var w := Waited(t, n, p);
            && Inv(w, sent', p) && w.p.accepted == t.p.accepted
            && (Settled(w) || Work(w, sent', p) <= Work(t, sent, p) - n)
    decreases n
  {
    hide Inv, Work, Settled, Advance;
    if n == 0 {
      sent' := sent;
    } else {
      var u := WaitFalls(t, sent, n - 1, p);
      sent' := ClockFalls(Waited(t, n - 1, p), u, p);
    }
  }

  /** From any moment of any run: the clocks after which packetizer and encoder are empty. */
  function Rest(p: Params): nat {
    p.idleCycles + 4 * FrameBound(p.maxPacket) + 17
  }

  lemma Settles(t: Trace, sent: nat, n: nat, p: Params) returns (sent': nat)
    requires Inv(t, sent, p) && Shape(t) && n >= Rest(p) - 1
    ensures var w := Waited(t, n, p);
            Inv(w, sent', p) && Settled(w) && w.p.accepted == t.p.accepted
  {
    hide Inv, Settled, Advance, FrameBound, EncoderWork;
    sent' := WaitFalls(t, sent, n, p);
    var w := Waited(t, n, p);
    Parts(t, sent, p);
    Parts(w, sent', p);
    WorkBounded(t.e, sent, p.maxPacket);
    WorkBounded(w.e, sent', p.maxPacket);
    PacketizerFalls(t.p, P.Input(0, 0, false, false), PacketizerParams(p));
  }

  /** From any moment of any run, once the input stops and the sink stays ready, packetizer and encoder
      are empty within the idle limit and the time of four longest frames.  Every byte accepted has then
      been delivered but for the fewer than eight of the packer's partial beat, and packets hold each
      channel's bytes whole. */
  lemma ComesToRest(banks: seq<E.Bank>, inputs: seq<T.Input>, n: nat, p: Params, channel: byte)
    requires Configured(p) && |banks| == 2 && forall b <- banks :: E.Memories(b, p.maxPacket)
    requires n >= Rest(p)
    ensures var t := Run(banks, inputs, p);
            var w := Waited(t, n, p);
            && Settled(w) && !w.a.state.outValid && w.p.accepted == t.p.accepted
            && (forall b <- w.a.beats :: |b.data| == |b.keep|)
            && Capture(w) + w.a.state.buffer[..w.a.state.count] == Wire(Parse(w.p.beats).complete)
            && Project(Parse(w.p.beats).complete, channel) == Select(t.p.accepted, channel)
            && (w.a.state.count == 0 ==> Drained(w) && Reconstruct(Capture(w), channel) == Select(t.p.accepted, channel))
  {
    hide Run, Inv, Advance, Capture, Wire, Reconstruct, Project, Select, Parse, P.Inv, Rest, E.Memories;
    var sent := RunKeeps(banks, inputs, p);
    var t := Run(banks, inputs, p);
    assert n >= 1 && n - 1 >= Rest(p) - 1 by {
      RestPositive(p);
    }
    var u := Settles(t, sent, n - 1, p);
    var v := ClockFalls(Waited(t, n - 1, p), u, p);
    var w := Waited(t, n, p);
    AllDelivered(w, v, p);
    PacketizerKeeps(w, v, p);
    SelectAccepted(w.p, PacketizerParams(p), channel);
    if w.a.state.count == 0 {
      assert w.a.state.buffer[..0] == [] && Capture(w) + [] == Capture(w);
      FramesReconstruct(Parse(w.p.beats).complete, channel);
    }
  }

  lemma RestPositive(p: Params)
    ensures Rest(p) >= 1
  {
  }

  lemma AllDelivered(w: Trace, sent: nat, p: Params)
    requires Inv(w, sent, p) && Shape(w) && Settled(w) && !w.a.state.outValid
    ensures forall b <- w.a.beats :: |b.data| == |b.keep|
    ensures Capture(w) + w.a.state.buffer[..w.a.state.count] == Wire(Parse(w.p.beats).complete)
  {
    hide E.Inv, P.Inv, Parse, Wire, A.Wellformed, A.LowLanes, A.Inv, E.Outgoing;
    NothingDropped(w, sent, p);
    A.TransferredIsPrefix(w.a, p.frames);
    LinkedFlat(w.a.accepted, E.Outgoing(w.e, p.maxPacket), sent, w.e.out, p.frames);
    E.QuietSentAll(w.e, sent, p.maxPacket);
  }

  // ---- The path takes input ----

  function Offer(b: P.Tagged): T.Input {
    T.Input(b.channel, b.data, true, true)
  }

  /** `n` clocks with the same byte offered, the sink ready. */
  function Offered(t: Trace, b: P.Tagged, n: nat, p: Params): (w: Trace)
    requires Shape(t)
    ensures Shape(w)
  {
    if n == 0 then t else Advance(Offered(t, b, n - 1, p), Offer(b), p)
  }

  /** The packetizer takes an offered byte unless the encoder stalls it. */
  lemma TakenOrStalled(t: P.Trace, i: P.Input, q: P.Params)
    requires i.valid
    ensures P.Advance(t, i, q).accepted
            == if !t.state.held || i.ready then t.accepted + [P.Tagged(i.channel, i.data)] else t.accepted
    ensures t.state.held ==> P.OutputValid(t.state, i, q)
  {
  }

  /** A clock with a byte offered takes it, or gets the encoder nearer to taking one. */
  lemma OfferFalls(t: Trace, sent: nat, b: P.Tagged, p: Params) returns (sent': nat)
    requires Inv(t, sent, p)
    ensures Shape(t) && Inv(Advance(t, Offer(b), p), sent', p)
    ensures var n := Advance(t, Offer(b), p);
            || n.p.accepted == t.p.accepted + [b]
            || (n.p.accepted == t.p.accepted && EncoderWork(n.e, sent', p.maxPacket) < EncoderWork(t.e, sent, p.maxPacket))
  {
    sent' := StepKeeps(t, sent, Offer(b), p);
    Parts(t, sent, p);
    var q, w := ToPacketizer(t, Offer(b)), ToEncoder(t, Offer(b), p);
    TakenOrStalled(t.p, q, PacketizerParams(p));
    EncoderFalls(t.e, sent, w, p.maxPacket);
    if AtRest(t.e.state) {
      RestsReady(t.e, sent, p.maxPacket);
    }
    hide Inv, E.Inv, P.Inv, E.Advance, P.Advance, A.Advance, EncoderWork, FrameBound, E.Quiet, AtRest, P.SizeBoundary,
         P.OutputValid, P.OutputLast, E.InputReady;
  }

  lemma {:induction false} OffersFall(t: Trace, sent: nat, b: P.Tagged, n: nat, p: Params) returns (sent': nat)
    requires Inv(t, sent, p) && Shape(t)
    ensures var w := Offered(t, b, n, p);
            && Inv(w, sent', p)
            && (|| t.p.accepted + [b] <= w.p.accepted
                || (w.p.accepted == t.p.accepted
                    && EncoderWork(w.e, sent', p.maxPacket) <= EncoderWork(t.e, sent, p.maxPacket) - n))
    decreases n
  {
    hide Inv, EncoderWork, Advance;
    if n == 0 {
      sent' := sent;
    } else {
      var u := OffersFall(t, sent, b, n - 1, p);
      sent' := OfferFalls(Offered(t, b, n - 1, p), u, b, p);
    }
  }

  /** The path never locks up: from any moment of any run, a byte offered while the sink stays ready is taken
      within the time of three longest frames. */
  lemma TakesInput(banks: seq<E.Bank>, inputs: seq<T.Input>, b: P.Tagged, n: nat, p: Params)
    requires Configured(p) && |banks| == 2 && forall k <- banks :: E.Memories(k, p.maxPacket)
    requires n >= 3 * FrameBound(p.maxPacket) + 10
    ensures var t := Run(banks, inputs, p);
            t.p.accepted + [b] <= Offered(t, b, n, p).p.accepted
  {
    hide Run, Inv, Advance, FrameBound, EncoderWork, E.Memories;
    var sent := RunKeeps(banks, inputs, p);
    var t := Run(banks, inputs, p);
    var u := OffersFall(t, sent, b, n, p);
    Parts(t, sent, p);
    Parts(Offered(t, b, n, p), u, p);
    WorkBounded(t.e, sent, p.maxPacket);
    WorkBounded(Offered(t, b, n, p).e, u, p.maxPacket);
  }
}
