/** The host loads a Cortex-M3 image through the control service: hold the core, store the image in
    chunks, read the start back, release the core. */
module LoadM3 {
  import opened Bytes
  import opened ControlProtocol
  import opened ControlService
  import C = Controller
  import L = LengthFraming

  const M3_BRAM_CHUNK := 2048
  const M3_CONTROL_RELEASE := 1

  datatype HostError = ImageTooShort | ImageTooLarge | RequestTooLarge | NoReply | BadReply | Lost | Mismatch

  const CAPACITY := CONTROL_RESPONSE_CAP - 4

  lemma ReplyFits(c: Command, b: C.Board)
    requires C.Interpret(c, CAPACITY, b).reply.Some?
    ensures |C.Interpret(c, CAPACITY, b).reply.value| <= CAPACITY
  {
    C.StatsFit(b.registers);
    hide WordsToLe, C.Landed, C.Stats;
  }

  /** One accepted command on the wire: the service does what the command means, and the one reply
      unframes to its answer. */
  lemma OneCommand(c: Command, b: C.Board)
    requires |Encode(c)| <= MAX && C.Interpret(c, CAPACITY, b).reply.Some?
    ensures var o := C.Interpret(c, CAPACITY, b);
            var reply := U32ToLe(|o.reply.value| % 0x1_0000_0000) + o.reply.value;
            && Process(Service([], b), L.LengthFrame(Encode(c), MAX).value, CONTROL_RESPONSE_CAP)
               == Served(Service([], o.board), [Reply(reply)])
            && L.LengthUnframe(reply, MAX) == Ok((o.reply.value, |o.reply.value| + 4))
  {
    var r := Encode(c);
    var framed := L.LengthFrame(r, MAX).value;
    DecodeEncode(c);
    C.FirmwareFollowsHost(r, CAPACITY, b);
    ReplyFits(c, b);
    hide C.Perform, C.Interpret, Process, Encode, Decode, U32ToLe;
    var bytes := C.Interpret(c, CAPACITY, b).reply.value;
    L.UnframeFrame(r, MAX, []);
    L.UnframeFrame(bytes, MAX, []);
    assert framed + [] == framed;
    var reply := U32ToLe(|bytes| % 0x1_0000_0000) + bytes;
    assert reply + [] == reply;
    hide L.LengthUnframe;
    OneFrame(b, framed, CONTROL_RESPONSE_CAP);
  }

  /** The bytes of a command on the wire. */
  function Wire(c: Command): seq<byte> {
    match L.LengthFrame(Encode(c), MAX)
    case Ok(framed) => framed
    case Err(_) => []
  }

  /** A frame cut short: nothing is done yet, and what arrived is held. */
  lemma CutShort(c: Command, part: seq<byte>, b: C.Board)
    requires |Encode(c)| <= MAX && part < Wire(c)
    ensures L.LengthUnframe(part, MAX) == Err(L.Short)
    ensures Process(Service([], b), part, CONTROL_RESPONSE_CAP) == Served(Service(part, b), [])
  {
    var framed := Wire(c);
    L.UnframeFrame(Encode(c), MAX, []);
    assert framed + [] == framed && |framed| == |Encode(c)| + 4;
    hide Encode, L.LengthFrame, Wire;
    var more := framed[|part|..];
    assert framed == part + more && more != [];
    L.NotYet(part, more, MAX);
    assert [] + part == part;
    Partial(Service([], b), part, CONTROL_RESPONSE_CAP);
  }

  /** Some of a frame was delivered, in pieces of any size. */
  ghost predicate Delivered(before: Service, framed: seq<byte>, after: Service) {
    exists fragments :: Concat(fragments) <= framed && after == ServeAll(before, fragments, CONTROL_RESPONSE_CAP).service
  }

  /** The connections between host and board, and how many of them failed. */
  class Network {
    ghost var lost: nat

    constructor ()
      ensures lost == 0
    {
      lost := 0;
    }

    /** Deliver a request in pieces of any size.  The connection may fail before, within or after it; only a
        request delivered whole can be answered. */
    method Carry(stream: seq<byte>) returns (fragments: seq<seq<byte>>, answered: bool)
      modifies this
      ensures Concat(fragments) <= stream && (answered ==> Concat(fragments) == stream)
      ensures lost == old(lost) + if answered then 0 else 1
    {
      var sent: int :| 0 <= sent <= |stream|;
      fragments := Pieces(stream[..sent]);
      answered := *;
      answered := answered && sent == |stream|;
      assert stream[..|stream|] == stream;
      if !answered {
        lost := lost + 1;
      }
    }
  }

  /** Send one command, in whatever pieces the network makes of it, and read the reply.  The connection
      may fail before, within or after the request; the service's decoder keeps what arrived. */
  method Transact(network: Network, firmware: Firmware, c: Command) returns (r: Result<seq<byte>, HostError>)
    requires firmware.Valid() && L.LengthUnframe(firmware.Now().held, MAX) == Err(L.Short)
    modifies network, firmware.decoder, firmware.decoder.length, firmware.decoder.payload
    modifies firmware.controller.io, firmware.controller.io.bram
    ensures old(network.lost) <= network.lost <= old(network.lost) + 1
    ensures firmware.Valid() && L.LengthUnframe(firmware.Now().held, MAX) == Err(L.Short)
    ensures Delivered(old(firmware.Now()), Wire(c), firmware.Now())
    ensures |Encode(c)| > MAX ==> r.Err? && firmware.Now() == old(firmware.Now())
    ensures var o := C.Interpret(c, CAPACITY, old(firmware.controller.io.Now()));
            old(firmware.Now()).held == [] && |Encode(c)| <= MAX && o.reply.Some? ==>
              match r
              case Ok(bytes) => network.lost == old(network.lost) && bytes == o.reply.value && firmware.Now() == Service([], o.board)
              case Err(e) =>
                && e == Lost && network.lost > old(network.lost)
                && (firmware.Now() == Service([], o.board)
                    || (firmware.Now().held < Wire(c) && firmware.Now().board == old(firmware.Now()).board))
  {
    hide C.Interpret, Encode, Process, L.LengthFrame, L.LengthUnframe, Serve, ServeAll, Wire, Concat, Firmware.Valid;
    ghost var before := firmware.Now();
    NothingSent(before, c);
    var framed := L.LengthFrame(Encode(c), MAX);
    WireIs(c);
    if framed.Err? {
      return Err(RequestTooLarge);
    }
    var fragments, answered := network.Carry(framed.value);
    ServeAllKeepsShort(before, fragments, CONTROL_RESPONSE_CAP);
    if before.held == [] && C.Interpret(c, CAPACITY, before.board).reply.Some? {
      Outcomes(c, before.board, fragments);
    }
    var replies := firmware.ServeControl(fragments);
    if !answered {
      return Err(Lost);
    }
    if replies == [] {
      return Err(NoReply);
    }
    var reply := L.LengthUnframe(replies[0], MAX);
    r := if reply.Ok? then Ok(reply.value.0) else Err(BadReply);
  }

  /** Pieces of any size. */
  method Pieces(stream: seq<byte>) returns (fragments: seq<seq<byte>>)
    ensures Concat(fragments) == stream
  {
    assert Concat([stream]) == stream;
    fragments :| Concat(fragments) == stream;
  }

  lemma NothingSent(before: Service, c: Command)
    ensures Delivered(before, Wire(c), before)
  {
    assert Concat([]) == [] && ServeAll(before, [], CONTROL_RESPONSE_CAP).service == before;
  }

  lemma WireIs(c: Command)
    ensures L.LengthFrame(Encode(c), MAX) == if |Encode(c)| <= MAX then Ok(Wire(c)) else Err(L.TooLarge(|Encode(c)|))
    ensures |Encode(c)| <= MAX ==> |Wire(c)| == |Encode(c)| + 4
  {
  }

  /** What delivering a beginning of an accepted command does. */
  lemma Outcomes(c: Command, b: C.Board, fragments: seq<seq<byte>>)
    requires |Encode(c)| <= MAX && C.Interpret(c, CAPACITY, b).reply.Some? && Concat(fragments) <= Wire(c)
    ensures var p := ServeAll(Service([], b), fragments, CONTROL_RESPONSE_CAP);
            var o := C.Interpret(c, CAPACITY, b);
            var reply := U32ToLe(|o.reply.value| % 0x1_0000_0000) + o.reply.value;
            if Concat(fragments) == Wire(c)
            then p.service == Service([], o.board) && Replies(p.events) == [reply]
              && L.LengthUnframe(reply, MAX) == Ok((o.reply.value, |o.reply.value| + 4))
            else p.service == Service(Concat(fragments), b) && Concat(fragments) < Wire(c)
  {
    OneCommand(c, b);
    hide C.Interpret, Encode, Process, L.LengthUnframe, ServeAll, Concat, U32ToLe;
    if Concat(fragments) == Wire(c) {
      RepliesOne(C.Interpret(c, CAPACITY, b).reply.value);
    } else {
      CutShort(c, Concat(fragments), b);
    }
    CutsDoNotMatter(Service([], b), fragments, CONTROL_RESPONSE_CAP);
  }

  lemma RepliesOne(bytes: seq<byte>)
    ensures Replies([Reply(U32ToLe(|bytes| % 0x1_0000_0000) + bytes)]) == [U32ToLe(|bytes| % 0x1_0000_0000) + bytes]
  {
  }

  // ---- What a connection that dies within a request leaves to the next ----

  /** The decoder is never reset between connections: what a client sends to a decoder that holds a partial
      frame is read as if it followed that frame's bytes on one connection. */
  lemma OnPartial(held: seq<byte>, sent: seq<byte>, b: C.Board)
    requires L.LengthUnframe(held, MAX) == Err(L.Short)
    ensures Process(Service(held, b), sent, CONTROL_RESPONSE_CAP)
         == Process(Service([], b), held + sent, CONTROL_RESPONSE_CAP)
    ensures var (q, p) := (Unframes(held + sent), ControlService.Perform(b, Unframes(held + sent).items, CONTROL_RESPONSE_CAP));
            Process(Service(held, b), sent, CONTROL_RESPONSE_CAP) == Served(Service(q.rest, p.service.board), p.events)
  {
    hide Process, L.LengthUnframe, Unframes, ControlService.Perform;
    assert [] + held == held;
    Partial(Service([], b), held, CONTROL_RESPONSE_CAP);
    ProcessAppends(Service([], b), held, sent, CONTROL_RESPONSE_CAP);
    var second := Process(Service(held, b), sent, CONTROL_RESPONSE_CAP);
    assert [] + second.events == second.events;
    FramesAreUnframed(b, held + sent, CONTROL_RESPONSE_CAP);
  }

  /** A frame cut after its length, then the first command of a new connection: as long as bytes are missing
      the new command is swallowed without a reply; otherwise its first bytes complete the old command,
      which is carried out as if they were its own, and what is left of it is read as a new frame. */
  lemma Stranded(earlier: Command, part: seq<byte>, later: Command, b: C.Board)
    requires |Encode(earlier)| <= MAX && |Encode(later)| <= MAX && 4 <= |part| && part < Wire(earlier)
    ensures var (missing, sent) := (|Wire(earlier)| - |part|, Wire(later));
            var p := Process(Service(part, b), sent, CONTROL_RESPONSE_CAP);
            if |sent| < missing then p == Served(Service(part + sent, b), [])
            else
              var t := Complete(part[4..] + sent[..missing], b, CONTROL_RESPONSE_CAP);
              var rest := Process(Service([], t.service.board), sent[missing..], CONTROL_RESPONSE_CAP);
              p == Served(rest.service, [t.event] + rest.events)
  {
    var (framed, sent) := (Wire(earlier), Wire(later));
    CutShort(earlier, part, b);
    Lengths(earlier, part, sent);
    hide Encode, Wire, Complete, Process, L.LengthUnframe;
    var missing := |framed| - |part|;
    if |sent| < missing {
      Partial(Service(part, b), sent, CONTROL_RESPONSE_CAP);
    } else {
      assert sent == sent[..missing] + sent[missing..];
      Completed(part, sent[..missing], sent[missing..], b);
    }
  }

  lemma Completed(part: seq<byte>, more: seq<byte>, rest: seq<byte>, b: C.Board)
    requires L.LengthUnframe(part, MAX) == Err(L.Short)
    requires L.LengthUnframe(part + more, MAX).Ok? && L.LengthUnframe(part + more, MAX).value.1 == |part + more|
    ensures var t := Complete(L.LengthUnframe(part + more, MAX).value.0, b, CONTROL_RESPONSE_CAP);
            var later := Process(Service([], t.service.board), rest, CONTROL_RESPONSE_CAP);
            Process(Service(part, b), more + rest, CONTROL_RESPONSE_CAP) == Served(later.service, [t.event] + later.events)
  {
    hide Process, L.LengthUnframe, Complete, Unframes, ControlService.Perform;
    var frame := L.LengthUnframe(part + more, MAX).value.0;
    OnPartial(part, more, b);
    OneFrame(b, part + more, CONTROL_RESPONSE_CAP);
    CompleteClears(frame, b);
    ProcessAppends(Service(part, b), more, rest, CONTROL_RESPONSE_CAP);
  }

  lemma CompleteClears(frame: seq<byte>, b: C.Board)
    ensures var t := Complete(frame, b, CONTROL_RESPONSE_CAP); t.service == Service([], t.service.board)
  {
    hide C.Perform;
  }

  /** What the length in front of a partial frame makes of the bytes after it. */
  lemma Lengths(c: Command, part: seq<byte>, sent: seq<byte>)
    requires |Encode(c)| <= MAX && 4 <= |part| && part < Wire(c)
    ensures var missing := |Wire(c)| - |part|;
            if |sent| < missing then L.LengthUnframe(part + sent, MAX) == Err(L.Short)
            else L.LengthUnframe(part + sent[..missing], MAX) == Ok((part[4..] + sent[..missing], |Wire(c)|))
  {
    hide Wire, L.LengthUnframe;
    WireLength(c);
    var framed := Wire(c);
    assert part[..4] == framed[..4];
    hide Encode;
    AfterLength(part, sent, |framed|);
  }

  lemma WireLength(c: Command)
    requires |Encode(c)| <= MAX
    ensures |Wire(c)| == |Encode(c)| + 4 && U32FromLe(Wire(c)[..4]) == |Encode(c)|
  {
    LengthOf(Encode(c));
  }

  lemma LengthOf(payload: seq<byte>)
    requires |payload| <= MAX
    ensures var framed := L.LengthFrame(payload, MAX).value;
            |framed| == |payload| + 4 && U32FromLe(framed[..4]) == |payload|
  {
    assert L.LengthFrame(payload, MAX).value[..4] == U32ToLe(|payload|);
    hide U32ToLe, U32FromLe;
  }

  lemma AfterLength(part: seq<byte>, sent: seq<byte>, n: nat)
    requires 4 <= |part| < n <= MAX + 4 && U32FromLe(part[..4]) == n - 4
    ensures var missing := n - |part|;
            if |sent| < missing then L.LengthUnframe(part + sent, MAX) == Err(L.Short)
            else L.LengthUnframe(part + sent[..missing], MAX) == Ok((part[4..] + sent[..missing], n))
  {
    hide U32FromLe;
    assert (part + sent)[..4] == part[..4];
    if |sent| >= n - |part| {
      var more := sent[..n - |part|];
      assert (part + more)[..4] == part[..4] && (part + more)[4..n] == part[4..] + more;
    }
  }

  // ---- The load ----

  function Chunk(image: seq<byte>, offset: nat): seq<byte>
    requires offset <= |image|
  {
    image[offset..if offset + M3_BRAM_CHUNK < |image| then offset + M3_BRAM_CHUNK else |image|]
  }

  /** The stores of the image up to `offset`. */
  function Stores(image: seq<byte>, offset: nat): seq<C.Effect>
    requires offset <= |image|
  {
    if offset == 0 then [] else
    var start := (offset - 1) / M3_BRAM_CHUNK * M3_BRAM_CHUNK;
    Stores(image, start) + [C.StoreBram(start, image[start..offset])]
  }

  lemma LandedTwice(bram: seq<byte>, stuck: map<nat, byte>, image: seq<byte>, k: nat, n: nat)
    requires k <= n <= |image| <= |bram|
    ensures C.Landed(C.Landed(bram, stuck, 0, image[..k]), stuck, k, image[k..n]) == C.Landed(bram, stuck, 0, image[..n])
  {
  }

  /** No stuck cell holds a wrong value of the first `n` bytes. */
  predicate Sound(stuck: map<nat, byte>, image: seq<byte>, n: nat)
    requires n <= |image|
  {
    forall i :: 0 <= i < n && i in stuck ==> stuck[i] == image[i]
  }

  /** Some byte among the image's first sixteen is stuck at another value. */
  predicate Faulty(stuck: map<nat, byte>, image: seq<byte>) {
    exists i :: 0 <= i < |image| && i < 16 && i in stuck && stuck[i] != image[i]
  }

  lemma FaultyIff(stuck: map<nat, byte>, image: seq<byte>, n: nat)
    requires n == if |image| < 16 then |image| else 16
    ensures Faulty(stuck, image) <==> !Sound(stuck, image, n)
  {
  }

  lemma ReadsBackIff(bram: seq<byte>, stuck: map<nat, byte>, image: seq<byte>, n: nat)
    requires n <= |image| <= |bram|
    ensures C.Landed(bram, stuck, 0, image)[..n] == image[..n] <==> Sound(stuck, image, n)
  {
    var landed := C.Landed(bram, stuck, 0, image);
    if landed[..n] == image[..n] {
      forall i | 0 <= i < n && i in stuck ensures stuck[i] == image[i] {
        assert landed[..n][i] == image[..n][i];
      }
    }
  }

  /** Without stuck cells the image replaces exactly its own length. */
  lemma LandsWhole(bram: seq<byte>, image: seq<byte>)
    requires |image| <= |bram|
    ensures C.Landed(bram, map[], 0, image) == image + bram[|image|..] && Sound(map[], image, |image|)
  {
  }

  lemma CommandSizes(offset: u32, data: seq<byte>, length: u16, bits: byte)
    requires |data| <= M3_BRAM_CHUNK
    ensures |Encode(LoadM3Chunk(offset, data))| <= MAX
    ensures |Encode(ReadM3Bram(offset, length))| <= MAX && |Encode(M3Control(bits))| <= MAX
  {
  }

  const HOLD := C.WriteRegister(C.REG_M3_CONTROL, 0)
  const RELEASE := C.WriteRegister(C.REG_M3_CONTROL, M3_CONTROL_RELEASE)

  /** Everything a load does to the board besides the memory's contents. */
  function Plan(image: seq<byte>): seq<C.Effect> {
    [HOLD] + Stores(image, |image|) + [RELEASE]
  }

  /** Exactly the chunks before `offset` are stored: nothing has been done yet, or the core is held and they
      have been written, or the whole image has and the core is released. */
  ghost predicate Reached(was: C.Board, now: C.Board, image: seq<byte>, offset: nat) {
    && offset <= |image| && (offset % M3_BRAM_CHUNK == 0 || offset == |image|)
    && now.bram == C.Landed(was.bram, was.stuck, 0, image[..offset])
    && (|| (offset == 0 && now.effects == was.effects)
        || now.effects == was.effects + [HOLD] + Stores(image, offset)
        || (offset == |image| && now.effects == was.effects + Plan(image)))
  }

  /** How far a load has got: the memory holds the image up to some chunk and beyond the image is as it was,
      what was done is the beginning of the plan that says so, and the plan is done to the end only on a
      whole image whose first bytes read back. */
  ghost predicate Loading(was: C.Board, now: C.Board, image: seq<byte>)
    requires |image| <= |was.bram|
  {
    && |now.bram| == |was.bram| && now.bram[|image|..] == was.bram[|image|..]
    && (exists offset :: Reached(was, now, image, offset))
    && was.effects <= now.effects <= was.effects + Plan(image)
    && (now.effects == was.effects + Plan(image) ==>
          now.bram == C.Landed(was.bram, was.stuck, 0, image) && !Faulty(was.stuck, image))
  }

  /** The commands a load sends. */
  ghost predicate Sends(image: seq<byte>, c: Command) {
    || c == M3Control(0) || c == M3Control(M3_CONTROL_RELEASE)
    || c == ReadM3Bram(0, if |image| < 16 then |image| else 16)
    || (c.LoadM3Chunk? && c.offset % M3_BRAM_CHUNK == 0 && c.offset < |image| && c.data == Chunk(image, c.offset))
  }

  /** The beginning of one of them. */
  ghost predicate CutOff(image: seq<byte>, held: seq<byte>) {
    exists c :: Sends(image, c) && held < Wire(c)
  }

  /** How a load ends.  If it succeeds, the image is whole at the start of the memory (stuck cells apart)
      and the core was held first and released last; if the readback differs, some early cell is stuck and
      the core is still held; a failed connection leaves at most the beginning of one of the load's own
      commands in the decoder. */
  ghost predicate Ended(was: C.Board, now: Service, image: seq<byte>, r: Result<(), HostError>)
    requires |image| <= |was.bram|
  {
    && Loading(was, now.board, image)
    && match r
       case Ok(_) =>
         && now.board.effects == was.effects + Plan(image) && now.held == []
         && (was.stuck == map[] ==> now.board.bram == image + was.bram[|image|..])
       case Err(Mismatch) =>
         && now.board.bram == C.Landed(was.bram, was.stuck, 0, image)
         && now.board.effects == was.effects + [HOLD] + Stores(image, |image|)
         && Faulty(was.stuck, image)
         && was.stuck != map[] && now.held == []
       case Err(e) => e == Lost && CutOff(image, now.held)
  }

  /** The whole load of 8 to 65536 bytes, whatever connections fail on the way, before, within or after a
      request: in no case is the core released before the whole image is in and read back, and nothing
      beyond the image is touched. */
  method Load(network: Network, firmware: Firmware, image: seq<byte>) returns (r: Result<(), HostError>)
    requires firmware.Valid() && L.LengthUnframe(firmware.Now().held, MAX) == Err(L.Short)
    modifies network, firmware.decoder, firmware.decoder.length, firmware.decoder.payload
    modifies firmware.controller.io, firmware.controller.io.bram
    ensures firmware.Valid() && L.LengthUnframe(firmware.Now().held, MAX) == Err(L.Short)
    ensures |image| < 8 || |image| > C.M3_BRAM_SIZE ==> r.Err? && firmware.Now() == old(firmware.Now())
    ensures 8 <= |image| <= C.M3_BRAM_SIZE && old(firmware.Now()).held == [] ==>
              Ended(old(firmware.controller.io.Now()), firmware.Now(), image, r)
    ensures 8 <= |image| <= C.M3_BRAM_SIZE && old(firmware.Now()).held == [] ==>
              var (was, now) := (old(firmware.controller.io.Now()), firmware.controller.io.Now());
              forall i :: 0 <= i < |image| && i < 16 && i in was.stuck && was.stuck[i] != image[i] ==>
                r.Err? && now.effects < was.effects + Plan(image)
    ensures 8 <= |image| <= C.M3_BRAM_SIZE && old(firmware.Now()).held == [] ==>
              if network.lost > old(network.lost) then r == Err(Lost)
              else if Faulty(old(firmware.controller.io.Now()).stuck, image) then r == Err(Mismatch) else r.Ok?
  {
    ghost var before := firmware.Now();
    ghost var (was, clean) := (before.board, before.held == []);
    assert |was.bram| == C.M3_BRAM_SIZE;
    hide Encode, Firmware.Valid, C.Landed, Stores, Loading, L.LengthUnframe, Delivered, Wire, CutOff, Ended, Faulty, Plan;
    if |image| < 8 {
      return Err(ImageTooShort);
    }
    if |image| > C.M3_BRAM_SIZE {
      return Err(ImageTooLarge);
    }
    CommandSizes(0, [], 0, 0);
    Beginnings(was, image, 0);
    var held := Transact(network, firmware, M3Control(0));
    if held.Err? {
      Strays(image, M3Control(0), firmware.Now().held);
      EndsSo(was, firmware.Now(), image, Err(held.error));
      return Err(held.error);
    }
    var stored := Stream(network, firmware, image, was, clean);
    if stored.Err? {
      EndsSo(was, firmware.Now(), image, Err(stored.error));
      return Err(stored.error);
    }
    r := CheckAndRelease(network, firmware, image, was, clean);
    EndsSo(was, firmware.Now(), image, r);
  }

  /** A load that stopped on a lost connection has ended.  Over a byte stuck at another value the plan is never
      done to its end; and a load ends in success only without one, in a mismatch only with one. */
  lemma EndsSo(was: C.Board, now: Service, image: seq<byte>, r: Result<(), HostError>)
    requires |image| <= |was.bram|
    ensures Loading(was, now.board, image) && CutOff(image, now.held) && r == Err(Lost) ==> Ended(was, now, image, r)
    ensures Ended(was, now, image, r) ==>
              && (r == Err(Lost) || if Faulty(was.stuck, image) then r == Err(Mismatch) else r.Ok?)
              && (forall i :: 0 <= i < |image| && i < 16 && i in was.stuck && was.stuck[i] != image[i] ==>
                    r.Err? && now.board.effects < was.effects + Plan(image))
  {
    hide Plan, C.Landed, Reached;
  }

  /** The readback and, if it matches, the release. */
  method CheckAndRelease(network: Network, firmware: Firmware, image: seq<byte>, ghost was: C.Board, ghost clean: bool)
    returns (r: Result<(), HostError>)
    requires firmware.Valid() && 8 <= |image| <= C.M3_BRAM_SIZE == |was.bram|
    requires L.LengthUnframe(firmware.Now().held, MAX) == Err(L.Short)
    requires clean ==> firmware.Now() == Service([], Stored(was, image, |image|))
    modifies network, firmware.decoder, firmware.decoder.length, firmware.decoder.payload
    modifies firmware.controller.io, firmware.controller.io.bram
    ensures firmware.Valid() && L.LengthUnframe(firmware.Now().held, MAX) == Err(L.Short)
    ensures clean ==> Ended(was, firmware.Now(), image, r) && (r == Err(Lost) <==> network.lost > old(network.lost))
  {
    hide Encode, Firmware.Valid, C.Landed, Stores, Stored, Loading, L.LengthUnframe, Delivered, Wire, CutOff, Sends, C.Interpret, Plan;
    var checkLength: nat := if |image| < 16 then |image| else 16;
    CommandSizes(0, [], checkLength, M3_CONTROL_RELEASE);
    Beginnings(was, image, |image|);
    LastCommands(was, image);
    LastStrays(image, checkLength);
    var readback := Transact(network, firmware, ReadM3Bram(0, checkLength));
    if readback.Err? {
      Strays(image, ReadM3Bram(0, checkLength), firmware.Now().held);
      return Err(readback.error);
    }
    ReadsBackIff(was.bram, was.stuck, image, checkLength);
    FaultyIff(was.stuck, image, checkLength);
    if readback.value != image[..checkLength] {
      return Err(Mismatch);
    }
    if clean {
      Released(was, image);
    }
    var released := Transact(network, firmware, M3Control(M3_CONTROL_RELEASE));
    if released.Err? {
      Strays(image, M3Control(M3_CONTROL_RELEASE), firmware.Now().held);
      return Err(released.error);
    }
    LandsWhole(was.bram, image);
    return Ok(());
  }

  lemma LastStrays(image: seq<byte>, length: u16)
    requires length == if |image| < 16 then |image| else 16
    ensures Sends(image, ReadM3Bram(0, length)) && Sends(image, M3Control(M3_CONTROL_RELEASE))
  {
  }

  /** What the readback and the release do once the image is stored. */
  lemma LastCommands(was: C.Board, image: seq<byte>)
    requires 8 <= |image| <= C.M3_BRAM_SIZE == |was.bram|
    ensures var (s, n) := (Stored(was, image, |image|), if |image| < 16 then |image| else 16);
            && s.bram == C.Landed(was.bram, was.stuck, 0, image)
            && s.effects == was.effects + [HOLD] + Stores(image, |image|)
            && C.Interpret(ReadM3Bram(0, n), CAPACITY, s) == C.Outcome(Some(s.bram[..n]), s)
            && C.Interpret(M3Control(M3_CONTROL_RELEASE), CAPACITY, s)
               == C.Outcome(Some([0]), s.(effects := s.effects + [RELEASE]))
  {
    hide C.Landed, Stores, C.Interpret;
    assert image[..|image|] == image;
    ReadStart(Stored(was, image, |image|), if |image| < 16 then |image| else 16);
  }

  lemma ReadStart(b: C.Board, n: u16)
    requires n <= 16 <= |b.bram|
    ensures C.Interpret(ReadM3Bram(0, n), CAPACITY, b) == C.Outcome(Some(b.bram[..n]), b)
    ensures C.Interpret(M3Control(M3_CONTROL_RELEASE), CAPACITY, b) == C.Outcome(Some([0]), b.(effects := b.effects + [RELEASE]))
  {
  }

  /** After a command that failed. */
  lemma Strays(image: seq<byte>, c: Command, held: seq<byte>)
    requires Sends(image, c) && |Encode(c)| <= MAX
    ensures held < Wire(c) || held == [] ==> CutOff(image, held)
  {
    WireIs(c);
    hide Encode, Sends, Wire;
    assert held == [] ==> held < Wire(c);
  }

  /** The board with the first `offset` bytes of the image stored. */
  function Stored(was: C.Board, image: seq<byte>, offset: nat): C.Board
    requires offset <= |image|
  {
    was.(bram := C.Landed(was.bram, was.stuck, 0, image[..offset]),
         effects := was.effects + [HOLD] + Stores(image, offset))
  }

  /** The chunks of the image, each at its own offset. */
  method Stream(network: Network, firmware: Firmware, image: seq<byte>, ghost was: C.Board, ghost clean: bool)
    returns (r: Result<(), HostError>)
    requires firmware.Valid() && 0 < |image| <= C.M3_BRAM_SIZE == |was.bram|
    requires L.LengthUnframe(firmware.Now().held, MAX) == Err(L.Short)
    requires clean ==> firmware.Now() == Service([], Stored(was, image, 0))
    modifies network, firmware.decoder, firmware.decoder.length, firmware.decoder.payload
    modifies firmware.controller.io, firmware.controller.io.bram
    ensures firmware.Valid() && L.LengthUnframe(firmware.Now().held, MAX) == Err(L.Short)
    ensures clean ==> Loading(was, firmware.controller.io.Now(), image)
    ensures clean ==> match r
            case Ok(_) => network.lost == old(network.lost) && firmware.Now() == Service([], Stored(was, image, |image|))
            case Err(e) => e == Lost && network.lost > old(network.lost) && CutOff(image, firmware.Now().held)
  {
    hide Encode, Firmware.Valid, C.Landed, C.Interpret, Stores, Stored, Loading, L.LengthUnframe, Delivered, CutOff;
    var offset := 0;
    while offset < |image|
      invariant 0 <= offset <= |image| && (offset % M3_BRAM_CHUNK == 0 || offset == |image|)
      invariant firmware.Valid() && L.LengthUnframe(firmware.Now().held, MAX) == Err(L.Short)
      invariant clean ==> firmware.Now() == Service([], Stored(was, image, offset)) && network.lost == old(network.lost)
    {
      var chunk := Chunk(image, offset);
      CommandSizes(offset, chunk, 0, 0);
      StoredGrows(was, image, offset, offset + |chunk|);
      Beginnings(was, image, offset);
      Beginnings(was, image, offset + |chunk|);
      var stored := Transact(network, firmware, LoadM3Chunk(offset, chunk));
      if stored.Err? {
        Strays(image, LoadM3Chunk(offset, chunk), firmware.Now().held);
        return Err(stored.error);
      }
      offset := offset + |chunk|;
    }
    Beginnings(was, image, |image|);
    return Ok(());
  }

  /** One more chunk stored. */
  lemma StoredGrows(was: C.Board, image: seq<byte>, offset: nat, next: nat)
    requires offset % M3_BRAM_CHUNK == 0 && offset < next <= |image| <= C.M3_BRAM_SIZE == |was.bram|
    requires next <= offset + M3_BRAM_CHUNK
    ensures C.Interpret(LoadM3Chunk(offset, image[offset..next]), CAPACITY, Stored(was, image, offset))
         == C.Outcome(Some([0]), Stored(was, image, next))
  {
    LandedTwice(was.bram, was.stuck, image, offset, next);
    StoresGrow(image, offset, next);
    hide C.Landed, Stores;
    assert was.effects + [HOLD] + Stores(image, offset) + [C.StoreBram(offset, image[offset..next])]
        == was.effects + [HOLD] + (Stores(image, offset) + [C.StoreBram(offset, image[offset..next])]);
  }

  /** Each point before the release is a beginning. */
  lemma Beginnings(was: C.Board, image: seq<byte>, offset: nat)
    requires offset <= |image| <= |was.bram| && (offset % M3_BRAM_CHUNK == 0 || offset == |image|)
    ensures Stored(was, image, 0) == was.(effects := was.effects + [HOLD])
    ensures Loading(was, was, image) && Loading(was, Stored(was, image, offset), image)
  {
    C.LandedNone(was.bram, was.stuck, 0);
    assert image[..0] == [];
    StoresNone(image);
    BeginningEffects(was.effects, image, offset);
    BeyondUntouched(was.bram, was.stuck, image, offset);
    hide Stores, Faulty, C.Landed, Plan;
    assert was.effects + [HOLD] + [] == was.effects + [HOLD];
    assert Reached(was, was, image, 0) && Reached(was, Stored(was, image, offset), image, offset);
  }

  lemma BeginningEffects(before: seq<C.Effect>, image: seq<byte>, offset: nat)
    requires offset <= |image| && (offset % M3_BRAM_CHUNK == 0 || offset == |image|)
    ensures before < before + Plan(image) && before + [HOLD] + Stores(image, offset) < before + Plan(image)
  {
    StoresBegin(image, offset);
    hide Stores;
    Beginning(before, HOLD, Stores(image, offset), Stores(image, |image|), RELEASE);
  }

  lemma Beginning(before: seq<C.Effect>, first: C.Effect, part: seq<C.Effect>, all: seq<C.Effect>, last: C.Effect)
    requires part <= all
    ensures before < before + ([first] + all + [last])
    ensures before + [first] + part < before + ([first] + all + [last])
  {
    var rest := all[|part|..];
    assert all == part + rest;
    assert before + ([first] + all + [last]) == before + [first] + part + (rest + [last]);
  }

  lemma BeyondUntouched(bram: seq<byte>, stuck: map<nat, byte>, image: seq<byte>, offset: nat)
    requires offset <= |image| <= |bram|
    ensures C.Landed(bram, stuck, 0, image[..offset])[|image|..] == bram[|image|..]
  {
  }

  lemma Released(was: C.Board, image: seq<byte>)
    requires |image| <= |was.bram| && !Faulty(was.stuck, image)
    ensures var s := Stored(was, image, |image|);
            && s.effects + [RELEASE] == was.effects + Plan(image)
            && Loading(was, s.(effects := s.effects + [RELEASE]), image)
  {
    assert image[..|image|] == image;
    hide Stores, Faulty, C.Landed;
    assert was.effects + [HOLD] + Stores(image, |image|) + [RELEASE]
        == was.effects + ([HOLD] + Stores(image, |image|) + [RELEASE]);
    BeyondUntouched(was.bram, was.stuck, image, |image|);
    var s := Stored(was, image, |image|);
    assert Reached(was, s.(effects := s.effects + [RELEASE]), image, |image|);
  }

  lemma {:induction false} StoresBegin(image: seq<byte>, offset: nat)
    requires offset <= |image| && (offset % M3_BRAM_CHUNK == 0 || offset == |image|)
    ensures Stores(image, offset) <= Stores(image, |image|)
    decreases |image| - offset
  {
    if offset < |image| {
      var next := if offset + M3_BRAM_CHUNK < |image| then offset + M3_BRAM_CHUNK else |image|;
      StoresGrow(image, offset, next);
      StoresBegin(image, next);
    }
  }

  lemma StoresNone(image: seq<byte>)
    ensures Stores(image, 0) == []
  {
  }

  lemma StoresGrow(image: seq<byte>, offset: nat, next: nat)
    requires offset % M3_BRAM_CHUNK == 0 && offset < next <= |image| && next <= offset + M3_BRAM_CHUNK
    ensures Stores(image, next) == Stores(image, offset) + [C.StoreBram(offset, image[offset..next])]
  {
  }
}
