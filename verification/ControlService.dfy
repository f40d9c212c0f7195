/** The control service: requests framed in a byte stream that arrives in arbitrary pieces, and the
    replies they get. */
module ControlService {
  import opened Bytes
  import P = ControlProtocol
  import opened LengthFraming
  import C = Controller

  const MAX := P.MAX_CONTROL_PAYLOAD

  datatype ServiceError = Frame(error: FrameError) | OutputTooSmall | BadControlRequest

  /** The bytes of the frame under way, and the board. */
  datatype Service = Service(held: seq<byte>, board: C.Board)

  datatype Event = Quiet | Reply(bytes: seq<byte>) | Refused(error: ServiceError)

  datatype Taken = Taken(service: Service, event: Event)

  /** A whole frame carried out. */
  function Complete(frame: seq<byte>, board: C.Board, capacity: nat): Taken {
    if capacity < 4 then Taken(Service([], board), Refused(OutputTooSmall))
    else
      var o := C.Perform(frame, capacity - 4, board);
      Taken(Service([], o.board),
            if o.reply.None? then Refused(BadControlRequest)
            else Reply(U32ToLe(|o.reply.value| % 0x1_0000_0000) + o.reply.value))
  }

  /** One byte into the service, with room for `capacity` bytes of framed reply. */
  function Take(s: Service, b: byte, capacity: nat): (t: Taken)
    ensures t.event.Reply? ==> |t.event.bytes| >= 4
  {
    var p := PushByte(s.held, b, MAX);
    if p.result.Err? then Taken(Service(p.held, s.board), Refused(Frame(p.result.error)))
    else if !p.result.value then Taken(Service(p.held, s.board), Quiet)
    else Complete(LengthUnframe(p.held, MAX).value.0, s.board, capacity)
  }

  /** Bytes up to the first reply or refusal. */
  datatype Fed = Fed(service: Service, taken: nat, event: Event)

  function FeedBytes(s: Service, input: seq<byte>, capacity: nat): (f: Fed)
    ensures f.taken <= |input| && (input != [] ==> f.taken > 0)
    ensures f.event.Quiet? ==> f.taken == |input|
    ensures f.event.Reply? ==> |f.event.bytes| >= 4
    decreases |input|
  {
    if input == [] then Fed(s, 0, Quiet) else
    var t := Take(s, input[0], capacity);
    if !t.event.Quiet? then Fed(t.service, 1, t.event) else
    var rest := FeedBytes(t.service, input[1..], capacity);
    rest.(taken := rest.taken + 1)
  }

  /** The replies and refusals of a whole stream. */
  datatype Served = Served(service: Service, events: seq<Event>)

  function Process(s: Service, stream: seq<byte>, capacity: nat): Served
    decreases |stream|
  {
    if stream == [] then Served(s, []) else
    var t := Take(s, stream[0], capacity);
    var rest := Process(t.service, stream[1..], capacity);
    if t.event.Quiet? then rest else Served(rest.service, [t.event] + rest.events)
  }

  predicate Accepted(p: Served) {
    forall e <- p.events :: e.Reply?
  }

  /** What the server loop does with one piece of the stream: a refusal is reported as one byte
      consumed, whatever was taken. */
  function Serve(s: Service, piece: seq<byte>, capacity: nat): Served
    decreases |piece|
  {
    if piece == [] then Served(s, []) else
    var f := FeedBytes(s, piece, capacity);
    var rest := Serve(f.service, piece[if f.event.Refused? then 1 else f.taken..], capacity);
    if f.event.Quiet? then rest else Served(rest.service, [f.event] + rest.events)
  }

  function ServeAll(s: Service, pieces: seq<seq<byte>>, capacity: nat): Served
    decreases |pieces|
  {
    if pieces == [] then Served(s, []) else
    var first := Serve(s, pieces[0], capacity);
    var rest := ServeAll(first.service, pieces[1..], capacity);
    Served(rest.service, first.events + rest.events)
  }

  function Concat(pieces: seq<seq<byte>>): seq<byte> {
    if pieces == [] then [] else pieces[0] + Concat(pieces[1..])
  }

  // ---- How the stream is cut does not matter ----

  lemma {:induction false} ProcessAppends(s: Service, a: seq<byte>, b: seq<byte>, capacity: nat)
    ensures var first := Process(s, a, capacity);
            var second := Process(first.service, b, capacity);
            Process(s, a + b, capacity) == Served(second.service, first.events + second.events)
    decreases |a|
  {
    hide Take;
    if a == [] {
      assert a + b == b;
      var second := Process(s, b, capacity);
      assert [] + second.events == second.events;
    } else {
      var t := Take(s, a[0], capacity);
      assert (a + b)[0] == a[0] && (a + b)[1..] == a[1..] + b;
      ProcessAppends(t.service, a[1..], b, capacity);
      var first := Process(t.service, a[1..], capacity);
      var second := Process(first.service, b, capacity);
      assert [t.event] + first.events + second.events == [t.event] + (first.events + second.events);
    }
  }

  /** One feed call, as part of processing the stream. */
  lemma {:induction false} FeedProcesses(s: Service, input: seq<byte>, capacity: nat)
    ensures var f := FeedBytes(s, input, capacity);
            Process(s, input[..f.taken], capacity) == Served(f.service, if f.event.Quiet? then [] else [f.event])
    decreases |input|
  {
    hide Take;
    if input != [] {
      var f, t := FeedBytes(s, input, capacity), Take(s, input[0], capacity);
      var head := input[..f.taken];
      assert head[0] == input[0];
      if t.event.Quiet? {
        FeedProcesses(t.service, input[1..], capacity);
        assert head[1..] == input[1..][..f.taken - 1];
      } else {
        assert head[1..] == [];
      }
    }
  }

  /** A stream without refusals: the server loop processes a piece byte for byte. */
  lemma {:induction false} ServeProcesses(s: Service, piece: seq<byte>, capacity: nat)
    requires Accepted(Process(s, piece, capacity))
    ensures Serve(s, piece, capacity) == Process(s, piece, capacity)
    decreases |piece|
  {
    hide Take, FeedBytes;
    if piece != [] {
      var f := FeedBytes(s, piece, capacity);
      var head, tail := piece[..f.taken], piece[f.taken..];
      var mine := if f.event.Quiet? then [] else [f.event];
      FeedProcesses(s, piece, capacity);
      ProcessAppends(s, head, tail, capacity);
      assert piece == head + tail;
      hide Process;
      AcceptedRest(mine, Process(f.service, tail, capacity).events);
      ServeProcesses(f.service, tail, capacity);
      assert !f.event.Refused? by {
        assert !f.event.Quiet? ==> f.event in mine;
      }
      assert f.event.Quiet? ==> mine + Serve(f.service, tail, capacity).events == Serve(f.service, tail, capacity).events;
    }
  }

  lemma AcceptedRest(first: seq<Event>, rest: seq<Event>)
    requires forall e <- first + rest :: e.Reply?
    ensures (forall e <- first :: e.Reply?) && (forall e <- rest :: e.Reply?)
  {
    assert forall e <- first :: e in first + rest;
    assert forall e <- rest :: e in first + rest;
  }

  /** Fragmentation independence: however a stream of accepted requests is cut into pieces, the
      replies, the board and the bytes left over are those of the uncut stream. */
  lemma {:induction false} CutsDoNotMatter(s: Service, pieces: seq<seq<byte>>, capacity: nat)
    requires Accepted(Process(s, Concat(pieces), capacity))
    ensures ServeAll(s, pieces, capacity) == Process(s, Concat(pieces), capacity)
    decreases |pieces|
  {
    if pieces != [] {
      hide Process, Serve;
      ProcessAppends(s, pieces[0], Concat(pieces[1..]), capacity);
      var first := Process(s, pieces[0], capacity);
      AcceptedRest(first.events, Process(first.service, Concat(pieces[1..]), capacity).events);
      ServeProcesses(s, pieces[0], capacity);
      CutsDoNotMatter(first.service, pieces[1..], capacity);
    }
  }

  function Bytewise(stream: seq<byte>): seq<seq<byte>> {
    if stream == [] then [] else [[stream[0]]] + Bytewise(stream[1..])
  }

  /** A stream that arrives one byte at a time is processed byte for byte, refusals and all. */
  lemma {:induction false} BytewiseProcesses(s: Service, stream: seq<byte>, capacity: nat)
    ensures ServeAll(s, Bytewise(stream), capacity) == Process(s, stream, capacity)
    decreases |stream|
  {
    if stream != [] {
      var t := Take(s, stream[0], capacity);
      BytewiseProcesses(t.service, stream[1..], capacity);
      hide Take;
      var piece := [stream[0]];
      assert piece[1..] == [] && Serve(t.service, [], capacity) == Served(t.service, []);
      assert FeedBytes(s, piece, capacity) == Fed(t.service, 1, t.event);
      assert t.event.Quiet? ==> [] + Process(t.service, stream[1..], capacity).events == Process(t.service, stream[1..], capacity).events;
    }
  }

  /** A cut that matters: an oversized length in one piece is read again from its second byte, in four
      pieces it is not.  `CutsDoNotMatterIff` says which streams have one. */
  lemma RefusalReplays(board: C.Board, capacity: nat)
    ensures var (s, stream) := (Service([], board), [0xff, 0xff, 0xff, 0xff]);
            && Serve(s, stream, capacity).service.held == [0xff, 0xff, 0xff]
            && ServeAll(s, Bytewise(stream), capacity).service.held == []
  {
    var s, stream := Service([], board), [0xff, 0xff, 0xff, 0xff];
    BytewiseProcesses(s, stream, capacity);
    OversizedLength(board, capacity);
    hide Take;
    assert stream[1..] == [0xff, 0xff, 0xff];
  }

  lemma OversizedLength(board: C.Board, capacity: nat)
    ensures Take(Service([], board), 0xff, capacity) == Taken(Service([0xff], board), Quiet)
    ensures Take(Service([0xff], board), 0xff, capacity) == Taken(Service([0xff, 0xff], board), Quiet)
    ensures Take(Service([0xff, 0xff], board), 0xff, capacity) == Taken(Service([0xff, 0xff, 0xff], board), Quiet)
    ensures Take(Service([0xff, 0xff, 0xff], board), 0xff, capacity)
         == Taken(Service([], board), Refused(Frame(FrameTooLarge(0xffff_ffff))))
  {
    assert [] + [0xff] == [0xff];
  }

  // ---- The frames completed are those the host's decoder finds ----

  /** What unframing finds next: a whole item, or a length no item may have. */
  datatype Item = Whole(payload: seq<byte>) | Oversize(declared: nat)

  datatype Frames = Frames(items: seq<Item>, rest: seq<byte>)

  function Next(stream: seq<byte>): (r: (Item, nat))
    requires LengthUnframe(stream, MAX) != Err(Short)
    ensures 4 <= r.1 <= |stream|
  {
    match LengthUnframe(stream, MAX)
    case Ok((payload, n)) => (Whole(payload), n)
    case Err(e) => (Oversize(e.declared), 4)
  }

  /** Unframing again and again from the front; a length that is too large is skipped. */
  function Unframes(stream: seq<byte>): Frames
    decreases |stream|
  {
    if LengthUnframe(stream, MAX) == Err(Short) then Frames([], stream) else
    var (item, n) := Next(stream);
    var rest := Unframes(stream[n..]);
    rest.(items := [item] + rest.items)
  }

  function Meet(item: Item, board: C.Board, capacity: nat): Taken {
    match item
    case Whole(payload) => Complete(payload, board, capacity)
    case Oversize(declared) => Taken(Service([], board), Refused(Frame(FrameTooLarge(declared))))
  }

  function Perform(board: C.Board, items: seq<Item>, capacity: nat): Served
    decreases |items|
  {
    if items == [] then Served(Service([], board), []) else
    var first := Meet(items[0], board, capacity);
    var rest := Perform(first.service.board, items[1..], capacity);
    Served(rest.service, [first.event] + rest.events)
  }

  /** Less than a frame: nothing happens yet. */
  lemma {:induction false} Partial(s: Service, more: seq<byte>, capacity: nat)
    requires LengthUnframe(s.held + more, MAX) == Err(Short)
    ensures Process(s, more, capacity) == Served(Service(s.held + more, s.board), [])
    decreases |more|
  {
    if more == [] {
      assert s.held + more == s.held;
    } else {
      var h := s.held + [more[0]];
      assert s.held + more == h + more[1..];
      ShortBefore(s.held, more, MAX);
      ShortBefore(h, more[1..], MAX);
      hide LengthUnframe;
      Partial(Service(h, s.board), more[1..], capacity);
    }
  }

  lemma AllButLast(h: seq<byte>, b: byte)
    requires LengthUnframe(h + [b], MAX).Ok? && LengthUnframe(h + [b], MAX).value.1 == |h| + 1
    ensures LengthUnframe(h, MAX) == Err(Short)
  {
    if LengthUnframe(h, MAX) != Err(Short) {
      UnframeExtends(h, [b], MAX);
      assert false;
    }
  }

  /** Exactly a frame: it is carried out on its last byte. */
  lemma OneFrame(board: C.Board, item: seq<byte>, capacity: nat)
    requires LengthUnframe(item, MAX).Ok? && LengthUnframe(item, MAX).value.1 == |item|
    ensures var t := Complete(LengthUnframe(item, MAX).value.0, board, capacity);
            Process(Service([], board), item, capacity) == Served(t.service, [t.event])
  {
    var last := |item| - 1;
    var s, h := Service([], board), item[..last];
    assert item == h + [item[last]] && [] + h == h;
    AllButLast(h, item[last]);
    hide LengthUnframe, Complete;
    Partial(s, h, capacity);
    ProcessAppends(s, h, [item[last]], capacity);
    OneByte(Service(h, board), item[last], capacity);
  }

  /** Four bytes of a length that is too large: refused on the last of them. */
  lemma OneOversize(board: C.Board, length: seq<byte>, declared: nat, capacity: nat)
    requires |length| == 4 && LengthUnframe(length, MAX) == Err(TooLarge(declared))
    ensures Process(Service([], board), length, capacity)
         == Served(Service([], board), [Refused(Frame(FrameTooLarge(declared)))])
  {
    var s, h := Service([], board), length[..3];
    assert length == h + [length[3]] && [] + h == h;
    assert LengthUnframe(h, MAX) == Err(Short);
    hide LengthUnframe, Complete;
    Partial(s, h, capacity);
    ProcessAppends(s, h, [length[3]], capacity);
    OneByte(Service(h, board), length[3], capacity);
  }

  lemma OneByte(s: Service, b: byte, capacity: nat)
    ensures var t := Take(s, b, capacity);
            Process(s, [b], capacity) == Served(t.service, if t.event.Quiet? then [] else [t.event])
  {
    hide Take;
  }

  /** Processing a stream from a frame boundary is carrying out, in order, the frames the host's decoder
      finds in it, refused ones and oversized lengths included; the bytes held at the end are the ones it
      leaves over. */
  lemma {:induction false} FramesAreUnframed(board: C.Board, stream: seq<byte>, capacity: nat)
    ensures var (q, p) := (Unframes(stream), Perform(board, Unframes(stream).items, capacity));
            Process(Service([], board), stream, capacity) == Served(Service(q.rest, p.service.board), p.events)
    decreases |stream|
  {
    hide LengthUnframe, Next, Complete, Meet, Process;
    if LengthUnframe(stream, MAX) == Err(Short) {
      assert [] + stream == stream;
      Partial(Service([], board), stream, capacity);
    } else {
      var (item, n) := Next(stream);
      FirstItem(board, stream, capacity);
      var q := Unframes(stream);
      assert q.items[0] == item && q.items[1..] == Unframes(stream[n..]).items;
      assert stream == stream[..n] + stream[n..];
      ProcessAppends(Service([], board), stream[..n], stream[n..], capacity);
      FramesAreUnframed(Meet(item, board, capacity).service.board, stream[n..], capacity);
    }
  }

  lemma FirstItem(board: C.Board, stream: seq<byte>, capacity: nat)
    requires LengthUnframe(stream, MAX) != Err(Short)
    ensures var (item, n) := Next(stream);
            var t := Meet(item, board, capacity);
            && t.service.held == [] && !t.event.Quiet?
            && Process(Service([], board), stream[..n], capacity) == Served(t.service, [t.event])
  {
    hide Process, C.Perform;
    var head := stream[..Next(stream).1];
    assert head[..4] == stream[..4];
    match LengthUnframe(stream, MAX)
    case Ok((payload, n)) =>
      assert head[4..n] == stream[4..n];
      OneFrame(board, head, capacity);
    case Err(e) =>
      OneOversize(board, head, e.declared, capacity);
  }

  // ---- Exactly when the cuts matter ----

  /** Between bytes the service never holds a whole frame or an oversized length; a byte that is answered
      or refused leaves nothing held. */
  lemma TakeKeepsShort(s: Service, b: byte, capacity: nat)
    requires LengthUnframe(s.held, MAX) == Err(Short)
    ensures var t := Take(s, b, capacity);
            && LengthUnframe(t.service.held, MAX) == Err(Short)
            && (t.event.Quiet? ==> t.service == Service(s.held + [b], s.board))
            && (!t.event.Quiet? ==> t.service.held == [])
  {
    hide C.Perform;
  }

  lemma {:induction false} ProcessKeepsShort(s: Service, stream: seq<byte>, capacity: nat)
    requires LengthUnframe(s.held, MAX) == Err(Short)
    ensures LengthUnframe(Process(s, stream, capacity).service.held, MAX) == Err(Short)
    decreases |stream|
  {
    hide LengthUnframe, Take;
    if stream != [] {
      TakeKeepsShort(s, stream[0], capacity);
      ProcessKeepsShort(Take(s, stream[0], capacity).service, stream[1..], capacity);
    }
  }

  lemma {:induction false} ServeKeepsShort(s: Service, piece: seq<byte>, capacity: nat)
    requires LengthUnframe(s.held, MAX) == Err(Short)
    ensures LengthUnframe(Serve(s, piece, capacity).service.held, MAX) == Err(Short)
    decreases |piece|
  {
    hide LengthUnframe, Process, FeedBytes;
    if piece != [] {
      var f := FeedBytes(s, piece, capacity);
      FeedProcesses(s, piece, capacity);
      ProcessKeepsShort(s, piece[..f.taken], capacity);
      ServeKeepsShort(f.service, piece[if f.event.Refused? then 1 else f.taken..], capacity);
    }
  }

  lemma {:induction false} ServeAllKeepsShort(s: Service, pieces: seq<seq<byte>>, capacity: nat)
    requires LengthUnframe(s.held, MAX) == Err(Short)
    ensures LengthUnframe(ServeAll(s, pieces, capacity).service.held, MAX) == Err(Short)
    decreases |pieces|
  {
    hide LengthUnframe, Serve;
    if pieces != [] {
      ServeKeepsShort(s, pieces[0], capacity);
      ServeAllKeepsShort(Serve(s, pieces[0], capacity).service, pieces[1..], capacity);
    }
  }

  lemma {:induction false} ServeAllAppends(s: Service, a: seq<seq<byte>>, b: seq<seq<byte>>, capacity: nat)
    ensures var first := ServeAll(s, a, capacity);
            var second := ServeAll(first.service, b, capacity);
            ServeAll(s, a + b, capacity) == Served(second.service, first.events + second.events)
    decreases |a|
  {
    hide Serve;
    if a == [] {
      assert a + b == b;
      var second := ServeAll(s, b, capacity);
      assert [] + second.events == second.events;
    } else {
      assert (a + b)[0] == a[0] && (a + b)[1..] == a[1..] + b;
      var one := Serve(s, a[0], capacity);
      ServeAllAppends(one.service, a[1..], b, capacity);
      var first := ServeAll(one.service, a[1..], capacity);
      var second := ServeAll(first.service, b, capacity);
      assert one.events + first.events + second.events == one.events + (first.events + second.events);
    }
  }

  lemma {:induction false} ConcatAppends(a: seq<seq<byte>>, b: seq<seq<byte>>)
    ensures Concat(a + b) == Concat(a) + Concat(b)
  {
    if a == [] {
      assert a + b == b;
    } else {
      assert (a + b)[0] == a[0] && (a + b)[1..] == a[1..] + b;
      ConcatAppends(a[1..], b);
    }
  }

  lemma {:induction false} ConcatBytewise(stream: seq<byte>)
    ensures Concat(Bytewise(stream)) == stream
    decreases |stream|
  {
    if stream != [] {
      ConcatBytewise(stream[1..]);
      assert ([[stream[0]]] + Bytewise(stream[1..]))[1..] == Bytewise(stream[1..]);
    }
  }

  /** A frame that is answered begins with a length whose two upper bytes are zero, then 01 00. */
  lemma AcceptedHead(stream: seq<byte>, board: C.Board, capacity: nat)
    requires LengthUnframe(stream, MAX).Ok?
    requires Complete(LengthUnframe(stream, MAX).value.0, board, capacity).event.Reply?
    ensures |stream| >= 7 && stream[2] == stream[3] == 0
  {
    var p := LengthUnframe(stream, MAX).value.0;
    assert |p| >= 3 by {
      hide LengthUnframe;
    }
    var b0: int, b1: int, b2: int, b3: int := stream[0], stream[1], stream[2], stream[3];
    assert U32FromLe(stream[..4]) == b0 + 0x100 * b1 + 0x1_0000 * b2 + 0x100_0000 * b3;
  }

  /** A payload whose first byte is zero names no version the firmware knows. */
  lemma ZeroRefused(p: seq<byte>, board: C.Board, capacity: nat)
    requires |p| > 0 ==> p[0] == 0
    ensures Complete(p, board, capacity).event.Refused?
  {
  }

  /** A reply to what is found in step is no reply one byte out of step. */
  lemma OutOfStep(board: C.Board, b: byte, rest: seq<byte>, capacity: nat)
    requires LengthUnframe(rest, MAX) != Err(Short) && LengthUnframe([b] + rest, MAX) != Err(Short)
    requires Meet(Next(rest).0, board, capacity).event.Reply?
    ensures Meet(Next([b] + rest).0, board, capacity).event.Refused?
  {
    AcceptedHead(rest, board, capacity);
    var r := LengthUnframe([b] + rest, MAX);
    if r.Ok? {
      var p := r.value.0;
      assert |p| > 0 ==> p[0] == ([b] + rest)[4] by {
        hide LengthUnframe;
      }
      hide LengthUnframe, Complete;
      ZeroRefused(p, board, capacity);
    }
  }

  /** One byte read twice, and nothing after it refused in step: the events or the bytes held at the end
      are others. */
  lemma ReplayDiffers(board: C.Board, b: byte, rest: seq<byte>, capacity: nat)
    requires Accepted(Process(Service([], board), rest, capacity))
    ensures Process(Service([b], board), rest, capacity) != Process(Service([], board), rest, capacity)
  {
    hide LengthUnframe, Next, Meet, Complete;
    OneHeld(board, b, rest, capacity);
    FramesAreUnframed(board, rest, capacity);
    FramesAreUnframed(board, [b] + rest, capacity);
    hide Process;
    var (mine, other) := (Perform(board, Unframes(rest).items, capacity), Perform(board, Unframes([b] + rest).items, capacity));
    if LengthUnframe(rest, MAX) != Err(Short) {
      assert mine.events[0] in mine.events;
      if LengthUnframe([b] + rest, MAX) != Err(Short) {
        OutOfStep(board, b, rest, capacity);
      }
    }
  }

  lemma OneHeld(board: C.Board, b: byte, rest: seq<byte>, capacity: nat)
    ensures Process(Service([], board), [b] + rest, capacity) == Process(Service([b], board), rest, capacity)
  {
    var stream := [b] + rest;
    assert stream[0] == b && stream[1..] == rest;
    FirstQuiet(board, b, capacity);
    hide Take;
  }

  lemma FirstQuiet(board: C.Board, b: byte, capacity: nat)
    ensures Take(Service([], board), b, capacity) == Taken(Service([b], board), Quiet)
  {
    assert [] + [b] == [b];
  }

  /** The last refusal of a stream: what precedes it, the byte refused, and only accepted bytes after it. */
  lemma {:induction false} LastRefusal(s: Service, stream: seq<byte>, capacity: nat)
    returns (before: seq<byte>, b: byte, after: seq<byte>)
    requires !Accepted(Process(s, stream, capacity))
    ensures stream == before + [b] + after
    ensures var t := Take(Process(s, before, capacity).service, b, capacity);
            t.event.Refused? && Accepted(Process(t.service, after, capacity))
    decreases |stream|
  {
    hide Take;
    var t := Take(s, stream[0], capacity);
    if Accepted(Process(t.service, stream[1..], capacity)) {
      before, b, after := [], stream[0], stream[1..];
      assert t.event.Refused?;
    } else {
      var head;
      head, b, after := LastRefusal(t.service, stream[1..], capacity);
      before := [stream[0]] + head;
      assert before[0] == stream[0] && before[1..] == head;
      assert stream == [stream[0]] + (head + [b] + after);
    }
  }

  /** Two bytes in one piece, the second refused: the second is read again. */
  lemma ServePair(s: Service, a: byte, b: byte, capacity: nat)
    requires LengthUnframe(s.held, MAX) == Err(Short)
    requires Take(Take(s, a, capacity).service, b, capacity).event.Refused?
    ensures var (t, u) := (Take(s, a, capacity), Take(Take(s, a, capacity).service, b, capacity));
            && t.event.Quiet? && u.service.held == []
            && Serve(s, [a, b], capacity) == Served(Service([b], u.service.board), [u.event])
            && Process(s, [a, b], capacity) == Served(u.service, [u.event])
  {
    TakeKeepsShort(s, a, capacity);
    var t := Take(s, a, capacity);
    TakeKeepsShort(t.service, b, capacity);
    var u := Take(t.service, b, capacity);
    FirstQuiet(t.service.board, b, capacity);
    FirstQuiet(u.service.board, b, capacity);
    hide Take, LengthUnframe;
    assert [a, b][1..] == [b] && [b][1..] == [];
    assert FeedBytes(t.service, [b], capacity) == Fed(u.service, 1, u.event);
    assert FeedBytes(s, [a, b], capacity) == Fed(u.service, 2, u.event);
    assert FeedBytes(u.service, [b], capacity) == Fed(Service([b], u.service.board), 1, Quiet);
    assert Serve(u.service, [b], capacity) == Served(Service([b], u.service.board), []);
    OneByte(t.service, b, capacity);
  }

  /** What clients and the board see of it: the replies sent, the board, and the bytes held for the next
      piece.  A refusal is not sent. */
  function Observed(p: Served): (seq<seq<byte>>, Service) {
    (Replies(p.events), p.service)
  }

  lemma {:induction false} SameReplies(a: seq<Event>, b: seq<Event>)
    requires (forall e <- a :: e.Reply?) && (forall e <- b :: e.Reply?) && Replies(a) == Replies(b)
    ensures a == b
  {
    if a != [] && b != [] {
      assert a[0].bytes == Replies(a)[0] && b[0].bytes == Replies(b)[0];
      assert Replies(a[1..]) == Replies(a)[1..] && Replies(b[1..]) == Replies(b)[1..];
      SameReplies(a[1..], b[1..]);
      assert a == [a[0]] + a[1..] && b == [b[0]] + b[1..];
    }
  }

  /** A common beginning, then two ends told apart. */
  lemma ObservedApart(head: seq<Event>, p: Served, q: Served)
    requires Observed(p) != Observed(q)
    ensures Observed(Served(p.service, head + p.events)) != Observed(Served(q.service, head + q.events))
  {
    RepliesAppend(head, p.events);
    RepliesAppend(head, q.events);
    var (h, x, y) := (Replies(head), Replies(p.events), Replies(q.events));
    assert x == (h + x)[|h|..] && y == (h + y)[|h|..];
  }

  /** The stream cut so that the byte refused shares a piece with the one before it, and after it as given:
      the byte is read again. */
  lemma AstrayCut(s: Service, a: seq<byte>, x: byte, b: byte, rest: seq<seq<byte>>, capacity: nat) returns (u: Taken)
    requires LengthUnframe(s.held, MAX) == Err(Short)
    requires Take(Process(s, a + [x], capacity).service, b, capacity).event.Refused?
    ensures u == Take(Process(s, a + [x], capacity).service, b, capacity) && u.service.held == []
    ensures var (pieces, s1) := (Bytewise(a) + [[x, b]] + rest, Process(s, a, capacity));
            var (good, bad) := (Process(u.service, Concat(rest), capacity), ServeAll(Service([b], u.service.board), rest, capacity));
            && Concat(pieces) == a + [x, b] + Concat(rest)
            && Process(s, Concat(pieces), capacity) == Served(good.service, s1.events + [u.event] + good.events)
            && ServeAll(s, pieces, capacity) == Served(bad.service, s1.events + [u.event] + bad.events)
  {
    hide LengthUnframe, Take, Process, Serve, ServeAll, Accepted;
    var s1 := Process(s, a, capacity);
    ProcessKeepsShort(s, a, capacity);
    ProcessAppends(s, a, [x], capacity);
    OneByte(s1.service, x, capacity);
    ServePair(s1.service, x, b, capacity);
    u := Take(Take(s1.service, x, capacity).service, b, capacity);
    ProcessAppends(s, a + [x, b], Concat(rest), capacity);
    ProcessAppends(s, a, [x, b], capacity);
    ConcatBytewise(a);
    ConcatAppends(Bytewise(a), [[x, b]]);
    ConcatAppends(Bytewise(a) + [[x, b]], rest);
    assert Concat([[x, b]]) == [x, b];
    BytewiseProcesses(s, a, capacity);
    ServeAllAppends(s, Bytewise(a), [[x, b]], capacity);
    ServeAllAppends(s, Bytewise(a) + [[x, b]], rest, capacity);
    ServeAllOne(s1.service, [x, b], capacity);
  }

  lemma ServeAllOne(s: Service, piece: seq<byte>, capacity: nat)
    ensures ServeAll(s, [piece], capacity) == Serve(s, piece, capacity)
  {
    hide Serve;
    var p := Serve(s, piece, capacity);
    assert ServeAll(p.service, [piece][1..], capacity) == Served(p.service, []);
    assert p.events + [] == p.events;
  }

  /** A refusal on the first byte is harmless: one byte was taken, and one is reported. */
  lemma {:induction false} FirstRefusalHarmless(s: Service, pieces: seq<seq<byte>>, capacity: nat)
    requires var stream := Concat(pieces);
             stream == [] || Accepted(Process(Take(s, stream[0], capacity).service, stream[1..], capacity))
    ensures ServeAll(s, pieces, capacity) == Process(s, Concat(pieces), capacity)
    decreases |pieces|
  {
    hide Take, FeedBytes, Accepted;
    var stream := Concat(pieces);
    if pieces != [] {
      if pieces[0] == [] {
        assert [] + Concat(pieces[1..]) == Concat(pieces[1..]);
        FirstRefusalHarmless(s, pieces[1..], capacity);
        var rest := ServeAll(s, pieces[1..], capacity);
        assert [] + rest.events == rest.events;
      } else {
        var t := Take(s, stream[0], capacity);
        assert stream[0] == pieces[0][0] && stream[1..] == pieces[0][1..] + Concat(pieces[1..]);
        if t.event.Refused? {
          RefusedFirst(s, pieces, capacity);
        } else {
          AcceptedFrom(s, stream, capacity);
          CutsDoNotMatter(s, pieces, capacity);
        }
      }
    }
  }

  lemma AcceptedFrom(s: Service, stream: seq<byte>, capacity: nat)
    requires stream != [] && !Take(s, stream[0], capacity).event.Refused?
    requires Accepted(Process(Take(s, stream[0], capacity).service, stream[1..], capacity))
    ensures Accepted(Process(s, stream, capacity))
  {
    hide Take;
  }

  lemma RefusedFirst(s: Service, pieces: seq<seq<byte>>, capacity: nat)
    requires pieces != [] && pieces[0] != [] && Take(s, pieces[0][0], capacity).event.Refused?
    requires Accepted(Process(Take(s, pieces[0][0], capacity).service, pieces[0][1..] + Concat(pieces[1..]), capacity))
    ensures ServeAll(s, pieces, capacity) == Process(s, Concat(pieces), capacity)
  {
    hide Take, Accepted;
    var (piece, t) := (pieces[0], Take(s, pieces[0][0], capacity));
    var later := [piece[1..]] + pieces[1..];
    assert later[1..] == pieces[1..];
    CutsDoNotMatter(t.service, later, capacity);
    assert FeedBytes(s, piece, capacity) == Fed(t.service, 1, t.event);
    var (first, rest) := (Serve(t.service, piece[1..], capacity), ServeAll(Serve(t.service, piece[1..], capacity).service, pieces[1..], capacity));
    assert Serve(s, piece, capacity) == Served(first.service, [t.event] + first.events);
    assert [t.event] + first.events + rest.events == [t.event] + (first.events + rest.events);
    assert Concat(pieces)[0] == piece[0] && Concat(pieces)[1..] == piece[1..] + Concat(pieces[1..]);
  }

  /** Exactly when the cuts do not matter: however the stream is cut, the server loop sends the replies, does
      to the board and is left holding what the uncut stream gives, if and only if nothing after its first
      byte is refused.  (A refusal on the first byte is reported as the one byte it took.)  Counting the
      refusals as well makes no difference. */
  lemma CutsDoNotMatterIff(s: Service, stream: seq<byte>, capacity: nat)
    requires LengthUnframe(s.held, MAX) == Err(Short)
    ensures (forall pieces :: Concat(pieces) == stream ==>
                Observed(ServeAll(s, pieces, capacity)) == Observed(Process(s, stream, capacity)))
       <==> stream == [] || Accepted(Process(Take(s, stream[0], capacity).service, stream[1..], capacity))
    ensures (forall pieces :: Concat(pieces) == stream ==> ServeAll(s, pieces, capacity) == Process(s, stream, capacity))
       <==> stream == [] || Accepted(Process(Take(s, stream[0], capacity).service, stream[1..], capacity))
  {
    hide Process, Take, ServeAll, Accepted, LengthUnframe, Concat, Observed;
    if stream == [] || Accepted(Process(Take(s, stream[0], capacity).service, stream[1..], capacity)) {
      forall pieces | Concat(pieces) == stream ensures ServeAll(s, pieces, capacity) == Process(s, stream, capacity) {
        FirstRefusalHarmless(s, pieces, capacity);
      }
    } else {
      var pieces := SomeAstrayCut(s, stream, capacity);
    }
  }

  /** From the last refusal on the service goes astray.  Either what follows is accepted astray too, and then
      the replies or the bytes held are others; or something in it is refused astray, and two cuts of it
      can be told apart. */
  lemma {:induction false} SomeAstrayCut(s: Service, stream: seq<byte>, capacity: nat) returns (pieces: seq<seq<byte>>)
    requires LengthUnframe(s.held, MAX) == Err(Short)
    requires stream != [] && !Accepted(Process(Take(s, stream[0], capacity).service, stream[1..], capacity))
    ensures Concat(pieces) == stream
    ensures Observed(ServeAll(s, pieces, capacity)) != Observed(Process(s, stream, capacity))
    decreases |stream|
  {
    hide Take, ServeAll, Accepted, LengthUnframe, Concat, Observed, Process, Bytewise;
    var a, x, b, after := LastPair(s, stream, capacity);
    ConcatBytewise(after);
    var u := AstrayCut(s, a, x, b, Bytewise(after), capacity);
    var (r, head) := (Service([b], u.service.board), Process(s, a, capacity).events + [u.event]);
    BytewiseProcesses(r, after, capacity);
    var (good, bad) := (Process(u.service, after, capacity), Process(r, after, capacity));
    pieces := Bytewise(a) + [[x, b]] + Bytewise(after);
    if Accepted(bad) {
      ReplayObserved(u.service.board, b, after, capacity);
      ObservedApart(head, good, bad);
    } else {
      RefusedLater(u.service.board, b, after, capacity);
      var more := SomeAstrayCut(r, after, capacity);
      var v := AstrayCut(s, a, x, b, more, capacity);
      ObservedApart(head, bad, ServeAll(r, more, capacity));
      if Observed(ServeAll(s, pieces, capacity)) == Observed(Process(s, stream, capacity)) {
        pieces := Bytewise(a) + [[x, b]] + more;
      }
    }
  }

  /** The last refusal, when it is not on the first byte, and the byte before it. */
  lemma LastPair(s: Service, stream: seq<byte>, capacity: nat)
    returns (a: seq<byte>, x: byte, b: byte, after: seq<byte>)
    requires stream != [] && !Accepted(Process(Take(s, stream[0], capacity).service, stream[1..], capacity))
    ensures stream == a + [x, b] + after
    ensures var u := Take(Process(s, a + [x], capacity).service, b, capacity);
            u.event.Refused? && Accepted(Process(u.service, after, capacity))
  {
    hide Take, Accepted;
    var before;
    before, b, after := LastRefusal(Take(s, stream[0], capacity).service, stream[1..], capacity);
    var front := [stream[0]] + before;
    assert front[0] == stream[0] && front[1..] == before;
    a, x := front[..|front| - 1], front[|front| - 1];
    assert a + [x] == front && a + [x, b] + after == front + [b] + after;
    assert stream == [stream[0]] + (before + [b] + after);
  }

  /** Accepted in step and one byte out of step: the replies or the bytes held differ. */
  lemma ReplayObserved(board: C.Board, b: byte, after: seq<byte>, capacity: nat)
    requires Accepted(Process(Service([], board), after, capacity))
    requires Accepted(Process(Service([b], board), after, capacity))
    ensures Observed(Process(Service([], board), after, capacity)) != Observed(Process(Service([b], board), after, capacity))
  {
    ReplayDiffers(board, b, after, capacity);
    hide Process;
    var (good, bad) := (Process(Service([], board), after, capacity), Process(Service([b], board), after, capacity));
    if Replies(good.events) == Replies(bad.events) {
      SameReplies(good.events, bad.events);
    }
  }

  /** With one byte held the next is never refused. */
  lemma RefusedLater(board: C.Board, b: byte, after: seq<byte>, capacity: nat)
    requires !Accepted(Process(Service([b], board), after, capacity))
    ensures LengthUnframe([b], MAX) == Err(Short)
    ensures after != [] && !Accepted(Process(Take(Service([b], board), after[0], capacity).service, after[1..], capacity))
  {
    if after != [] {
      assert Take(Service([b], board), after[0], capacity).event.Quiet?;
    }
    hide Take;
  }

  // ---- The firmware ----

  datatype ServiceReply = ServiceReply(consumed: nat, responseLength: Option<nat>)

  const CONTROL_RESPONSE_CAP := 4100

  function Replies(events: seq<Event>): seq<seq<byte>> {
    if events == [] then [] else
    (if events[0].Reply? then [events[0].bytes] else []) + Replies(events[1..])
  }

  lemma Framed(was: seq<byte>, prefix: seq<byte>, n: nat)
    requires |prefix| == 4 && 4 + n <= |was|
    ensures C.Written(was, 0, prefix)[..4 + n] == prefix + was[4..4 + n]
  {
  }

  /** The connection's decoder and the controller behind it. */
  class Firmware {
    const decoder: FrameDecoder
    const controller: C.Controller

    ghost predicate Valid()
      reads this, decoder, decoder.length, decoder.payload, controller, controller.io, controller.io.bram
    {
      && decoder.Valid() && decoder.N == MAX && controller.io.Valid()
      && decoder.length != controller.io.bram && decoder.payload != controller.io.bram
    }

    ghost function Now(): Service
      requires Valid()
      reads this, decoder, decoder.length, decoder.payload, controller, controller.io, controller.io.bram
    {
      Service(decoder.Held(), controller.io.Now())
    }

    constructor (io: C.Io)
      requires io.Valid()
      ensures Valid() && controller.io == io && Now() == Service([], io.Now())
      ensures fresh(decoder) && fresh(decoder.length) && fresh(decoder.payload)
    {
      var d := new FrameDecoder(MAX);
      var c := new C.Controller(io);
      decoder, controller := d, c;
    }

    /** Feed bytes until one reply is ready or the input ends. */
    method Feed(input: seq<byte>, response: array<byte>) returns (r: Result<ServiceReply, ServiceError>)
      requires Valid()
      requires response != decoder.length && response != decoder.payload && response != controller.io.bram
      modifies decoder, decoder.length, decoder.payload, controller.io, controller.io.bram, response
      ensures Valid()
      ensures var f := FeedBytes(old(Now()), input, response.Length);
              && Now() == f.service
              && match f.event
                 case Quiet => r == Ok(ServiceReply(|input|, None))
                 case Refused(e) => r == Err(e)
                 case Reply(bytes) =>
                   && r == Ok(ServiceReply(f.taken, Some(|bytes|)))
                   && |bytes| <= response.Length && response[..|bytes|] == bytes
    {
      hide Take, Valid, Now;
      ghost var all := FeedBytes(Now(), input, response.Length);
      assert input[0..] == input;
      for index := 0 to |input|
        invariant Valid()
        invariant var f := FeedBytes(Now(), input[index..], response.Length);
                  all == f.(taken := f.taken + index)
      {
        assert input[index..][1..] == input[index + 1..];
        var done := Push(input[index], response);
        if done.Err? {
          return Err(done.error);
        } else if done.value.Some? {
          return Ok(ServiceReply(index + 1, done.value));
        }
      }
      return Ok(ServiceReply(|input|, None));
    }

    /** One byte of the loop: the length of the framed reply, if this byte completes one. */
    method Push(b: byte, response: array<byte>) returns (r: Result<Option<nat>, ServiceError>)
      requires Valid()
      requires response != decoder.length && response != decoder.payload && response != controller.io.bram
      modifies decoder, decoder.length, decoder.payload, controller.io, controller.io.bram, response
      ensures Valid()
      ensures var t := Take(old(Now()), b, response.Length);
              && Now() == t.service
              && match t.event
                 case Quiet => r == Ok(None)
                 case Refused(e) => r == Err(e)
                 case Reply(bytes) =>
                   r == Ok(Some(|bytes|)) && |bytes| <= response.Length && response[..|bytes|] == bytes
    {
      PushedWhole(decoder.Held(), b, MAX);
      hide LengthUnframe, PushByte, Complete, C.Perform, FrameDecoder.Valid, FrameDecoder.Held;
      var complete := decoder.Push(b);
      if complete.Err? {
        return Err(Frame(complete.error));
      } else if !complete.value {
        return Ok(None);
      }
      r := CarryOut(response);
    }

    /** A whole frame is held: carry it out and make ready for the next. */
    method CarryOut(response: array<byte>) returns (r: Result<Option<nat>, ServiceError>)
      requires Valid() && LengthUnframe(decoder.Held(), MAX).Ok?
      requires response != decoder.length && response != decoder.payload && response != controller.io.bram
      modifies decoder, decoder.length, controller.io, controller.io.bram, response
      ensures Valid()
      ensures var t := Complete(LengthUnframe(old(decoder.Held()), MAX).value.0, old(controller.io.Now()), response.Length);
              && Now() == t.service
              && match t.event
                 case Quiet => false
                 case Refused(e) => r == Err(e)
                 case Reply(bytes) =>
                   r == Ok(Some(|bytes|)) && |bytes| <= response.Length && response[..|bytes|] == bytes
    {
      hide LengthUnframe, C.Perform, U32ToLe, FrameDecoder.Held, C.Io.Now;
      if response.Length < 4 {
        decoder.Reset();
        return Err(OutputTooSmall);
      }
      var frame := decoder.Frame();
      var length := controller.Command(if frame.Some? then frame.value else [], response, 4);
      decoder.Reset();
      if length.None? {
        return Err(BadControlRequest);
      }
      ghost var was := response[..];
      assert was[4..4 + length.value] == response[4..4 + length.value];
      C.PutWord(response, 0, U32ToLe(length.value % 0x1_0000_0000));
      Framed(was, U32ToLe(length.value % 0x1_0000_0000), length.value);
      return Ok(Some(length.value + 4));
    }

    /** The C entry point: any refusal is reported as one byte consumed and no reply. */
    method ControlFeed(input: seq<byte>, response: array<byte>) returns (consumed: nat, responseLength: nat)
      requires Valid()
      requires response != decoder.length && response != decoder.payload && response != controller.io.bram
      modifies decoder, decoder.length, decoder.payload, controller.io, controller.io.bram, response
      ensures Valid()
      ensures var f := FeedBytes(old(Now()), input, response.Length);
              && Now() == f.service && consumed == (if f.event.Refused? then 1 else f.taken)
              && match f.event
                 case Reply(bytes) =>
                   responseLength == |bytes| && |bytes| <= response.Length && response[..|bytes|] == bytes
                 case _ => responseLength == 0
    {
      hide Take, Valid, Now;
      var outcome := Feed(input, response);
      match outcome
      case Ok(reply) =>
        consumed := reply.consumed;
        responseLength := if reply.responseLength.Some? then reply.responseLength.value else 0;
      case Err(_) =>
        consumed, responseLength := 1, 0;
    }

    /** The server loop over one fragment of a received packet; the replies in the order sent. */
    method ServeFragment(data: seq<byte>) returns (replies: seq<seq<byte>>)
      requires Valid()
      modifies decoder, decoder.length, decoder.payload, controller.io, controller.io.bram
      ensures Valid()
      ensures var p := Serve(old(Now()), data, CONTROL_RESPONSE_CAP);
              Now() == p.service && replies == Replies(p.events)
    {
      hide Take, Valid, Now, FeedBytes;
      var offset := 0;
      replies := [];
      ghost var all := Serve(Now(), data, CONTROL_RESPONSE_CAP);
      assert data[0..] == data;
      while offset < |data|
        invariant 0 <= offset <= |data| && Valid()
        invariant all.service == Serve(Now(), data[offset..], CONTROL_RESPONSE_CAP).service
        invariant Replies(all.events) == replies + Replies(Serve(Now(), data[offset..], CONTROL_RESPONSE_CAP).events)
      {
        ghost var f := FeedBytes(Now(), data[offset..], CONTROL_RESPONSE_CAP);
        var response := new byte[CONTROL_RESPONSE_CAP];
        var consumed, length := ControlFeed(data[offset..], response);
        ghost var rest := Serve(Now(), data[offset..][consumed..], CONTROL_RESPONSE_CAP);
        assert data[offset..][consumed..] == data[offset + consumed..];
        FirstEvent(f.event, rest.events, replies);
        assert length > 0 <==> f.event.Reply?;
        offset := offset + if consumed != 0 then consumed else 1;
        if length > 0 {
          replies := replies + [response[..length]];
        }
      }
      assert replies + [] == replies;
    }

    /** A received packet: its fragments one after the other. */
    method ServeControl(fragments: seq<seq<byte>>) returns (replies: seq<seq<byte>>)
      requires Valid()
      modifies decoder, decoder.length, decoder.payload, controller.io, controller.io.bram
      ensures Valid()
      ensures var p := ServeAll(old(Now()), fragments, CONTROL_RESPONSE_CAP);
              Now() == p.service && replies == Replies(p.events)
    {
      hide Take, Valid, Now, Serve;
      replies := [];
      ghost var all := ServeAll(Now(), fragments, CONTROL_RESPONSE_CAP);
      assert fragments[0..] == fragments;
      for i := 0 to |fragments|
        invariant Valid()
        invariant all.service == ServeAll(Now(), fragments[i..], CONTROL_RESPONSE_CAP).service
        invariant Replies(all.events) == replies + Replies(ServeAll(Now(), fragments[i..], CONTROL_RESPONSE_CAP).events)
      {
        ghost var first := Serve(Now(), fragments[i], CONTROL_RESPONSE_CAP);
        var more := ServeFragment(fragments[i]);
        assert fragments[i..][1..] == fragments[i + 1..];
        RepliesAppend(first.events, ServeAll(first.service, fragments[i + 1..], CONTROL_RESPONSE_CAP).events);
        replies := replies + more;
      }
      assert replies + [] == replies;
    }
  }

  lemma FirstEvent(e: Event, rest: seq<Event>, before: seq<seq<byte>>)
    ensures before + Replies([e] + rest) == (if e.Reply? then before + [e.bytes] else before) + Replies(rest)
  {
    assert ([e] + rest)[1..] == rest;
    assert e.Reply? ==> before + ([e.bytes] + Replies(rest)) == before + [e.bytes] + Replies(rest);
  }

  lemma {:induction false} RepliesAppend(a: seq<Event>, b: seq<Event>)
    ensures Replies(a + b) == Replies(a) + Replies(b)
  {
    if a == [] {
      assert a + b == b;
    } else {
      assert (a + b)[0] == a[0] && (a + b)[1..] == a[1..] + b;
      RepliesAppend(a[1..], b);
    }
  }
}
