/** The debug service: CMSIS-DAP packets framed in a byte stream, each exchanged with the engine. */
module DapService {
  import opened Bytes
  import opened LengthFraming
  import opened SyntheticDap
  import E = DapEngine
  import M = DapMailbox

  const MAX_DAP_PACKET := 1024

  datatype ServiceError = Frame(error: FrameError) | OutputTooSmall | Dap(failure: M.DapError)

  datatype ServiceReply = ServiceReply(consumed: nat, responseLength: Option<nat>)

  /** Room for the longest answer and polls enough for the engine. */
  predicate Ample(room: nat, pollBudget: nat) {
    room >= 4 + E.MAX_RESPONSE && pollBudget >= M.LATENCY
  }

  const DAP_RESPONSE_CAP := 1028
  const DAP_POLL_BUDGET := 1_000_000

  // ---- A stream of packets ----

  /** The bytes held for the next packet, and the packets exchanged. */
  datatype Served = Served(held: seq<byte>, packets: seq<seq<byte>>)

  /** What the server loop does with one piece of the stream: a refusal, of an empty packet too, is reported as
      one byte consumed, whatever was taken. */
  function Serve(held: seq<byte>, piece: seq<byte>): Served
    decreases |piece|
  {
    if piece == [] then Served(held, []) else
    var g := Gather(held, piece, MAX_DAP_PACKET);
    match g.item
    case Err(_) => Serve(g.held, piece[1..])
    case Ok(None) => Served(g.held, [])
    case Ok(Some(packet)) =>
      if packet == [] then Serve([], piece[1..]) else
      var rest := Serve([], piece[g.taken..]);
      Served(rest.held, [packet] + rest.packets)
  }

  function ServeAll(held: seq<byte>, pieces: seq<seq<byte>>): Served
    decreases |pieces|
  {
    if pieces == [] then Served(held, []) else
    var first := Serve(held, pieces[0]);
    var rest := ServeAll(first.held, pieces[1..]);
    Served(rest.held, first.packets + rest.packets)
  }

  /** A packet's answer as it is sent: its length and the engine's answer. */
  function Reply(packet: seq<byte>, force: Forces): seq<byte> {
    var a := E.EngineAnswer(packet, force).bytes;
    U32ToLe(|a| % 0x1_0000_0000) + a
  }

  function Replies(packets: seq<seq<byte>>, force: Forces): seq<seq<byte>> {
    if packets == [] then [] else
    Replies(packets[..|packets| - 1], force) + [Reply(packets[|packets| - 1], force)]
  }

  lemma OneMoreReply(packets: seq<seq<byte>>, packet: seq<byte>, force: Forces)
    ensures Replies(packets + [packet], force) == Replies(packets, force) + [Reply(packet, force)]
    ensures E.Marked(packets + [packet]) == E.Marked(packets) + E.Mark(packet)
  {
    hide Reply, E.Mark;
    assert (packets + [packet])[..|packets|] == packets;
  }

  lemma {:induction false} MoreReplies(a: seq<seq<byte>>, b: seq<seq<byte>>, force: Forces)
    ensures Replies(a + b, force) == Replies(a, force) + Replies(b, force)
    ensures E.Marked(a + b) == E.Marked(a) + E.Marked(b)
  {
    hide Reply, E.Mark;
    if b == [] {
      assert a + b == a;
    } else {
      var front, last := b[..|b| - 1], b[|b| - 1];
      assert a + b == a + front + [last] && b == front + [last];
      MoreReplies(a, front, force);
      OneMoreReply(a + front, last, force);
      OneMoreReply(front, last, force);
    }
  }

  /** Packets framed one after the other. */
  function Framed(packets: seq<seq<byte>>): seq<byte> {
    if packets == [] then [] else U32ToLe(|packets[0]| % 0x1_0000_0000) + packets[0] + Framed(packets[1..])
  }

  function Concat(pieces: seq<seq<byte>>): seq<byte> {
    if pieces == [] then [] else pieces[0] + Concat(pieces[1..])
  }

  /** Less than a packet's frame. */
  predicate Partial(held: seq<byte>) {
    LengthUnframe(held, MAX_DAP_PACKET) == Err(ProtocolError.Short)
  }

  predicate Packets(packets: seq<seq<byte>>) {
    forall p <- packets :: 1 <= |p| <= MAX_DAP_PACKET
  }

  /** One piece of a stream of packets, wherever it ends: it completes some packets, and what is then held and
      still to come is the stream of the others. */
  lemma {:induction false} ServesPiece(held: seq<byte>, piece: seq<byte>, later: seq<byte>, packets: seq<seq<byte>>, part: seq<byte>)
    returns (n: nat)
    requires Packets(packets) && Partial(part)
    requires Partial(held)
    requires held + piece + later == Framed(packets) + part
    ensures n <= |packets| && Serve(held, piece).packets == packets[..n]
    ensures Serve(held, piece).held + later == Framed(packets[n..]) + part
    ensures Partial(Serve(held, piece).held)
    decreases |piece|
  {
    hide LengthUnframe, Gather, Framed;
    if piece == [] {
      n := 0;
      assert held + piece + later == held + later && packets[0..] == packets;
    } else if Partial(held + piece) {
      n := 0;
      GatherShort(held, piece, MAX_DAP_PACKET);
      assert packets[0..] == packets;
    } else {
      var k := Completes(held, piece, later, packets, part);
      var tail := piece[k..];
      assert Gather(held, piece, MAX_DAP_PACKET) == Gathered(held + piece[..k], k, Ok(Some(packets[0])));
      assert packets[0] in packets;
      assert forall q <- packets[1..] :: q in packets;
      assert [] + tail + later == tail + later;
      EmptyShort();
      var m := ServesPiece([], tail, later, packets[1..], part);
      n := m + 1;
      assert packets[..n] == [packets[0]] + packets[1..][..n - 1] && packets[1..][n - 1..] == packets[n..];
    }
  }

  lemma EmptyShort()
    ensures Partial([])
  {
  }

  /** A piece that completes something completes the first packet. */
  lemma Completes(held: seq<byte>, piece: seq<byte>, later: seq<byte>, packets: seq<seq<byte>>, part: seq<byte>) returns (k: nat)
    requires Packets(packets) && Partial(part)
    requires Partial(held) && !Partial(held + piece)
    requires held + piece + later == Framed(packets) + part
    ensures packets != [] && 0 < k <= |piece|
    ensures Gather(held, piece, MAX_DAP_PACKET) == Gathered(held + piece[..k], k, Ok(Some(packets[0])))
    ensures piece[k..] + later == Framed(packets[1..]) + part
  {
    hide LengthUnframe, Gather;
    var all := held + piece + later;
    if packets == [] {
      assert all == part;
      ShortBefore(held + piece, later, MAX_DAP_PACKET);
      assert false;
    }
    assert packets[0] in packets;
    var frame := LengthFrame(packets[0], MAX_DAP_PACKET).value;
    assert all == frame + (Framed(packets[1..]) + part);
    Between(packets[0], held, piece, later, Framed(packets[1..]) + part);
    hide Framed, LengthFrame;
    k := |frame| - |held|;
    assert held == frame[..|held|] && piece[..k] == frame[|held|..] by {
      assert held == all[..|held|] && piece[..k] == all[|held|..|frame|] && frame == all[..|frame|];
    }
    assert held + piece[..k] == frame && piece == piece[..k] + piece[k..];
    GatherFrame(held, piece[..k], packets[0], MAX_DAP_PACKET);
    GatherStops(held, piece[..k], piece[k..], MAX_DAP_PACKET);
    assert piece[k..] + later == all[|frame|..];
  }

  /** The first frame ends within a piece that completes something. */
  lemma Between(packet: seq<byte>, held: seq<byte>, piece: seq<byte>, later: seq<byte>, rest: seq<byte>)
    requires 1 <= |packet| <= MAX_DAP_PACKET
    requires held + piece + later == LengthFrame(packet, MAX_DAP_PACKET).value + rest
    requires Partial(held) && !Partial(held + piece)
    ensures |held| < |LengthFrame(packet, MAX_DAP_PACKET).value| <= |held + piece|
  {
    var frame, all := LengthFrame(packet, MAX_DAP_PACKET).value, held + piece + later;
    hide LengthFrame, Partial;
    Prefixes(frame, held + piece, all);
    Prefixes(frame, held, all);
    if held + piece < frame {
      BeginningPartial(packet, held + piece);
    }
    if frame <= held {
      WholeNotPartial(packet, held);
    }
  }

  lemma Prefixes(a: seq<byte>, b: seq<byte>, all: seq<byte>)
    requires a <= all && b <= all
    ensures |b| < |a| ==> b < a
    ensures |a| <= |b| ==> a <= b
  {
  }

  lemma BeginningPartial(packet: seq<byte>, x: seq<byte>)
    requires 1 <= |packet| <= MAX_DAP_PACKET && x < LengthFrame(packet, MAX_DAP_PACKET).value
    ensures Partial(x)
  {
    var frame := LengthFrame(packet, MAX_DAP_PACKET).value;
    UnframeFrame(packet, MAX_DAP_PACKET, []);
    assert frame + [] == frame && frame == x + frame[|x|..] && |frame| == |packet| + 4;
    hide LengthUnframe, LengthFrame;
    NotYet(x, frame[|x|..], MAX_DAP_PACKET);
  }

  lemma WholeNotPartial(packet: seq<byte>, x: seq<byte>)
    requires 1 <= |packet| <= MAX_DAP_PACKET && LengthFrame(packet, MAX_DAP_PACKET).value <= x
    ensures !Partial(x)
  {
    var frame := LengthFrame(packet, MAX_DAP_PACKET).value;
    assert x == frame + x[|frame|..];
    UnframeFrame(packet, MAX_DAP_PACKET, x[|frame|..]);
    hide LengthUnframe, LengthFrame;
  }

  /** However a stream of packets is cut, exactly its packets are exchanged, in order, and the beginning of
      one more is held. */
  lemma {:induction false} ServesStream(held: seq<byte>, pieces: seq<seq<byte>>, packets: seq<seq<byte>>, part: seq<byte>)
    requires Packets(packets) && Partial(part)
    requires Partial(held)
    requires held + Concat(pieces) == Framed(packets) + part
    ensures ServeAll(held, pieces) == Served(part, packets)
    decreases |pieces|
  {
    hide LengthUnframe, Serve, Framed;
    if pieces == [] {
      assert held + [] == held && held + [] + [] == held;
      NoneLeft(held, packets, part);
    } else {
      var later := Concat(pieces[1..]);
      assert held + Concat(pieces) == held + pieces[0] + later;
      var n := ServesPiece(held, pieces[0], later, packets, part);
      assert forall q <- packets[n..] :: q in packets;
      ServesStream(Serve(held, pieces[0]).held, pieces[1..], packets[n..], part);
      assert packets[..n] + packets[n..] == packets;
    }
  }

  lemma NoneLeft(held: seq<byte>, packets: seq<seq<byte>>, part: seq<byte>)
    requires Packets(packets) && Partial(held)
    requires held == Framed(packets) + part
    ensures packets == [] && held == part
  {
    if packets != [] {
      FirstFrame(packets, part);
      hide LengthFrame, Framed, Partial;
      WholeNotPartial(packets[0], held);
    } else {
      assert [] + part == part;
    }
  }

  lemma FirstFrame(packets: seq<seq<byte>>, part: seq<byte>)
    requires Packets(packets) && packets != []
    ensures packets[0] in packets && LengthFrame(packets[0], MAX_DAP_PACKET).value <= Framed(packets) + part
  {
    assert packets[0] in packets;
    assert Framed(packets) + part == LengthFrame(packets[0], MAX_DAP_PACKET).value + (Framed(packets[1..]) + part);
  }

  /** One call of the loop. */
  lemma ServeStep(held: seq<byte>, data: seq<byte>, done: seq<seq<byte>>)
    requires data != []
    ensures var g := Gather(held, data, MAX_DAP_PACKET);
            match g.item
            case Err(_) => Serve(held, data) == Serve(g.held, data[1..])
            case Ok(None) => Serve(held, data) == Serve(g.held, data[g.taken..])
            case Ok(Some(packet)) =>
              if packet == [] then Serve(held, data) == Serve([], data[1..])
              else
                var rest := Serve([], data[g.taken..]);
                && Serve(held, data).held == rest.held
                && done + Serve(held, data).packets == done + [packet] + rest.packets
  {
    hide Gather;
  }

  class DapConnection {
    const decoder: FrameDecoder
    const io: M.Mmio

    ghost predicate Valid()
      reads this, decoder, decoder.length, decoder.payload
    {
      decoder.Valid() && decoder.N == MAX_DAP_PACKET
    }

    constructor (io: M.Mmio)
      ensures Valid() && this.io == io && decoder.Held() == []
      ensures fresh(decoder) && fresh(decoder.length) && fresh(decoder.payload)
    {
      var d := new FrameDecoder(MAX_DAP_PACKET);
      decoder, this.io := d, io;
    }

    /** Feed bytes until one packet has been exchanged or the input ends.  Nothing reaches the engine
        before a packet is whole, and then exactly that packet; a reply is the length and the engine's
        whole answer to it.  With an ample buffer and budget every packet but an empty one is answered, and
        the mailbox is idle again after every call, so one call can follow another. */
    method Feed(input: seq<byte>, response: array<byte>, pollBudget: nat) returns (r: Result<ServiceReply, ServiceError>)
      requires Valid() && M.Idle(io.sys)
      requires response != decoder.length && response != decoder.payload
      modifies decoder, decoder.length, decoder.payload, io, response
      ensures Valid()
      ensures var g := Gather(old(decoder.Held()), input, MAX_DAP_PACKET);
              match g.item
              case Err(e) => r == Err(Frame(e)) && io.sys == old(io.sys) && decoder.Held() == g.held
              case Ok(None) =>
                r == Ok(ServiceReply(|input|, None)) && io.sys == old(io.sys) && decoder.Held() == g.held
              case Ok(Some(packet)) =>
                && decoder.Held() == []
                && io.sys.t.received <= old(io.sys.t.received) + E.Mark(packet)
                && match r
                   case Ok(reply) =>
                     var a := E.EngineAnswer(packet, old(io.sys.m.forces)).bytes;
                     && reply == ServiceReply(g.taken, Some(|a| + 4)) && |a| + 4 <= response.Length
                     && response[..|a| + 4] == U32ToLe(|a| % 0x1_0000_0000) + a
                     && M.Idle(io.sys) && io.sys.t.received == old(io.sys.t.received) + E.Mark(packet)
                     && (E.Agreeing(packet, old(io.sys.m.forces)) ==>
                           Execute(packet, old(io.sys.m.forces)).Ok? && a == Execute(packet, old(io.sys.m.forces)).value.bytes)
                   case Err(OutputTooSmall) => response.Length < 4 && io.sys == old(io.sys)
                   case Err(Dap(e)) => e == M.EmptyRequest <==> packet == []
                   case Err(Frame(_)) => false
      ensures io.sys.m.forces == old(io.sys.m.forces)
      ensures Gather(old(decoder.Held()), input, MAX_DAP_PACKET).item == Ok(Some([])) ==> io.sys == old(io.sys)
      ensures Ample(response.Length, pollBudget) ==>
                && M.Idle(io.sys)
                && var g := Gather(old(decoder.Held()), input, MAX_DAP_PACKET);
                   r.Ok? <==> g.item.Ok? && g.item.value != Some([])
    {
      hide LengthUnframe, M.Idle, E.EngineAnswer, E.Agreeing, Execute, E.Mark, U32ToLe, FrameDecoder.Valid, FrameDecoder.Held;
      ghost var all := Gather(decoder.Held(), input, MAX_DAP_PACKET);
      assert input[0..] == input;
      for index := 0 to |input|
        invariant Valid() && io.sys == old(io.sys)
        invariant var g := Gather(decoder.Held(), input[index..], MAX_DAP_PACKET);
                  all == g.(taken := g.taken + index)
      {
        assert input[index..][1..] == input[index + 1..];
        PushedWhole(decoder.Held(), input[index], MAX_DAP_PACKET);
        var complete := decoder.Push(input[index]);
        if complete.Err? {
          return Err(Frame(complete.error));
        }
        if complete.value {
          var length := Exchange(response, pollBudget);
          if length.Err? {
            return Err(length.error);
          }
          return Ok(ServiceReply(index + 1, Some(length.value + 4)));
        }
      }
      return Ok(ServiceReply(|input|, None));
    }

    /** A whole packet is held: exchange it and make ready for the next. */
    method Exchange(response: array<byte>, pollBudget: nat) returns (r: Result<nat, ServiceError>)
      requires Valid() && M.Idle(io.sys) && LengthUnframe(decoder.Held(), MAX_DAP_PACKET).Ok?
      requires response != decoder.length && response != decoder.payload
      modifies decoder, decoder.length, io, response
      ensures Valid() && decoder.Held() == []
      ensures var packet := LengthUnframe(old(decoder.Held()), MAX_DAP_PACKET).value.0;
              var a := E.EngineAnswer(packet, old(io.sys.m.forces)).bytes;
              && io.sys.t.received <= old(io.sys.t.received) + E.Mark(packet)
              && match r
                 case Ok(n) =>
                   && n == |a| && n + 4 <= response.Length && response[..n + 4] == U32ToLe(n % 0x1_0000_0000) + a
                   && M.Idle(io.sys) && io.sys.t.received == old(io.sys.t.received) + E.Mark(packet)
                   && (E.Agreeing(packet, old(io.sys.m.forces)) ==>
                         Execute(packet, old(io.sys.m.forces)).Ok? && a == Execute(packet, old(io.sys.m.forces)).value.bytes)
                 case Err(OutputTooSmall) => response.Length < 4 && io.sys == old(io.sys)
                 case Err(Dap(e)) => e == M.EmptyRequest <==> packet == []
                 case Err(Frame(_)) => false
      ensures io.sys.m.forces == old(io.sys.m.forces)
      ensures LengthUnframe(old(decoder.Held()), MAX_DAP_PACKET).value.0 == [] ==> io.sys == old(io.sys)
      ensures Ample(response.Length, pollBudget) ==>
                M.Idle(io.sys) && (r.Ok? <==> LengthUnframe(old(decoder.Held()), MAX_DAP_PACKET).value.0 != [])
    {
      hide LengthUnframe, M.Idle, E.EngineAnswer, E.Agreeing, Execute, E.Mark, U32ToLe, FrameDecoder.Held;
      ghost var packet := LengthUnframe(decoder.Held(), MAX_DAP_PACKET).value.0;
      assert io.sys.t.received <= io.sys.t.received + E.Mark(packet);
      if response.Length < 4 {
        decoder.Reset();
        return Err(OutputTooSmall);
      }
      var frame := decoder.Frame();
      var length := M.DapExchange(io, if frame.Some? then frame.value else [], response, 4, pollBudget);
      decoder.Reset();
      if length.Err? {
        return Err(Dap(length.error));
      }
      var n := length.value;
      ghost var was := response[..];
      PutPrefix(response, U32ToLe(n % 0x1_0000_0000));
      Prefixed(was, response[..], U32ToLe(n % 0x1_0000_0000), n);
      return Ok(n);
    }

    /** The C entry point: any refusal is reported as one byte consumed and no reply. */
    method DapFeed(input: seq<byte>, response: array<byte>, pollBudget: nat) returns (consumed: nat, responseLength: nat)
      requires Valid() && M.Idle(io.sys) && Ample(response.Length, pollBudget)
      requires response != decoder.length && response != decoder.payload
      modifies decoder, decoder.length, decoder.payload, io, response
      ensures Valid() && M.Idle(io.sys) && io.sys.m.forces == old(io.sys.m.forces)
      ensures var g := Gather(old(decoder.Held()), input, MAX_DAP_PACKET);
              match g.item
              case Err(_) =>
                consumed == 1 && responseLength == 0 && decoder.Held() == g.held && io.sys.t.received == old(io.sys.t.received)
              case Ok(None) =>
                consumed == |input| && responseLength == 0 && decoder.Held() == g.held && io.sys.t.received == old(io.sys.t.received)
              case Ok(Some(packet)) =>
                && decoder.Held() == []
                && if packet == [] then consumed == 1 && responseLength == 0 && io.sys.t.received == old(io.sys.t.received)
                   else
                     && consumed == g.taken && io.sys.t.received == old(io.sys.t.received) + E.Mark(packet)
                     && 0 < responseLength <= response.Length
                     && response[..responseLength] == Reply(packet, old(io.sys.m.forces))
    {
      hide M.Idle, E.EngineAnswer, E.Agreeing, Execute, E.Mark, Gather, U32ToLe, FrameDecoder.Valid, FrameDecoder.Held;
      var outcome := Feed(input, response, pollBudget);
      match outcome
      case Ok(reply) =>
        consumed := reply.consumed;
        responseLength := if reply.responseLength.Some? then reply.responseLength.value else 0;
      case Err(_) =>
        consumed, responseLength := 1, 0;
    }

    /** The server loop over one fragment of a received packet; the replies in the order sent. */
    method ServeFragment(data: seq<byte>) returns (replies: seq<seq<byte>>)
      requires Valid() && M.Idle(io.sys)
      modifies decoder, decoder.length, decoder.payload, io
      ensures Valid() && M.Idle(io.sys) && io.sys.m.forces == old(io.sys.m.forces)
      ensures var s := Serve(old(decoder.Held()), data);
              && decoder.Held() == s.held && replies == Replies(s.packets, old(io.sys.m.forces))
              && io.sys.t.received == old(io.sys.t.received) + E.Marked(s.packets)
    {
      hide M.Idle, E.Mark, E.Marked, Gather, FrameDecoder.Valid, FrameDecoder.Held, Reply, Serve, Replies;
      var offset := 0;
      replies := [];
      ghost var (force, before, all) := (io.sys.m.forces, io.sys.t.received, Serve(decoder.Held(), data));
      ghost var done: seq<seq<byte>> := [];
      NoReplies(force);
      assert data[0..] == data && before + [] == before && done + all.packets == all.packets;
      while offset < |data|
        invariant 0 <= offset <= |data| && Valid() && M.Idle(io.sys) && io.sys.m.forces == force
        invariant var rest := Serve(decoder.Held(), data[offset..]); all == Served(rest.held, done + rest.packets)
        invariant replies == Replies(done, force) && io.sys.t.received == before + E.Marked(done)
      {
        ghost var was := decoder.Held();
        ghost var g := Gather(was, data[offset..], MAX_DAP_PACKET);
        var response := new byte[DAP_RESPONSE_CAP];
        var consumed, length := DapFeed(data[offset..], response, DAP_POLL_BUDGET);
        assert data[offset..][consumed..] == data[offset + consumed..] && data[offset..][1..] == data[offset + 1..];
        ServeStep(was, data[offset..], done);
        if length > 0 {
          ghost var packet := g.item.value.value;
          OneMoreReply(done, packet, force);
          Grows(before, E.Marked(done), E.Mark(packet));
          done := done + [packet];
          replies := replies + [response[..length]];
        }
        offset := offset + if consumed != 0 then consumed else 1;
      }
      NothingServed(decoder.Held());
      assert data[offset..] == [] && done + [] == done;
    }

    /** A received packet: its fragments one after the other.  On a stream of packets, however it is cut, the
        engine takes exactly the packets and the replies are its answers, in order. */
    method ServeDap(fragments: seq<seq<byte>>) returns (replies: seq<seq<byte>>)
      requires Valid() && M.Idle(io.sys)
      modifies decoder, decoder.length, decoder.payload, io
      ensures Valid() && M.Idle(io.sys) && io.sys.m.forces == old(io.sys.m.forces)
      ensures var s := ServeAll(old(decoder.Held()), fragments);
              && decoder.Held() == s.held && replies == Replies(s.packets, old(io.sys.m.forces))
              && io.sys.t.received == old(io.sys.t.received) + E.Marked(s.packets)
      ensures forall packets, part ::
                && Packets(packets) && Partial(part) && Partial(old(decoder.Held()))
                && old(decoder.Held()) + Concat(fragments) == Framed(packets) + part ==>
                  && decoder.Held() == part && replies == Replies(packets, old(io.sys.m.forces))
                  && io.sys.t.received == old(io.sys.t.received) + E.Marked(packets)
    {
      hide M.Idle, E.Mark, FrameDecoder.Valid, FrameDecoder.Held, Reply, Serve, Replies, E.Marked, Framed, Packets, Partial;
      ghost var start := decoder.Held();
      forall packets, part | Packets(packets) && Partial(part) && Partial(start) && start + Concat(fragments) == Framed(packets) + part
        ensures ServeAll(start, fragments) == Served(part, packets)
      {
        ServesStream(start, fragments, packets, part);
      }
      replies := [];
      ghost var (force, before, all) := (io.sys.m.forces, io.sys.t.received, ServeAll(decoder.Held(), fragments));
      ghost var done: seq<seq<byte>> := [];
      NoReplies(force);
      assert fragments[0..] == fragments && before + [] == before && done + all.packets == all.packets;
      for i := 0 to |fragments|
        invariant Valid() && M.Idle(io.sys) && io.sys.m.forces == force
        invariant var rest := ServeAll(decoder.Held(), fragments[i..]); all == Served(rest.held, done + rest.packets)
        invariant replies == Replies(done, force) && io.sys.t.received == before + E.Marked(done)
      {
        ghost var first := Serve(decoder.Held(), fragments[i]);
        ghost var rest := ServeAll(first.held, fragments[i + 1..]);
        assert fragments[i..][1..] == fragments[i + 1..];
        var more := ServeFragment(fragments[i]);
        MoreReplies(done, first.packets, force);
        Grows(before, E.Marked(done), E.Marked(first.packets));
        assert done + (first.packets + rest.packets) == done + first.packets + rest.packets;
        done := done + first.packets;
        replies := replies + more;
      }
      assert done + [] == done;
    }

    static method PutPrefix(out: array<byte>, octets: seq<byte>)
      requires |octets| == 4 <= out.Length
      modifies out
      ensures out[..] == octets + old(out[4..])
    {
      out[0], out[1], out[2], out[3] := octets[0], octets[1], octets[2], octets[3];
    }
  }

  lemma Grows(a: seq<E.Octet>, b: seq<E.Octet>, c: seq<E.Octet>)
    ensures a + b + c == a + (b + c)
  {
  }

  lemma NothingServed(held: seq<byte>)
    ensures Serve(held, []) == Served(held, [])
  {
  }

  lemma NoReplies(force: Forces)
    ensures Replies([], force) == [] && E.Marked([]) == []
  {
  }

  lemma Prefixed(was: seq<byte>, now: seq<byte>, prefix: seq<byte>, n: nat)
    requires |prefix| == 4 && 4 + n <= |was| && now == prefix + was[4..]
    ensures now[..n + 4] == prefix + was[4..4 + n]
  {
  }
}
