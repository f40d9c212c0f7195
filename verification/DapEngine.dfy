/** The clocked CMSIS-DAP engine with its synthetic target: it captures a request packet byte by
    byte, builds the response in its own memory and sends it, under any stalls on either side. */
module DapEngine {
  import opened Bytes
  import opened SyntheticDap

  datatype Phase = Capture | Prepare | Fetch | Build | Respond

  datatype State = State(phase: Phase, requestMem: seq<byte>, responseMem: seq<byte>,
                         requestPos: nat, requestLength: nat, responsePos: nat, responseLength: nat,
                         index: nat, pos: nat, outputIndex: nat, completed: nat, readAddress: nat, readData: byte,
                         command: byte, argument: byte, count: byte, data: byte,
                         complete: bool, transferCount: nat, abortCount: nat)

  datatype Input = Input(valid: bool, data: byte, last: bool, ready: bool, forces: Forces)

  datatype Octet = Octet(data: byte, last: bool)

  const MAX_TRANSFERS := 32
  const MAX_RESPONSE := 3 + MAX_TRANSFERS * 4

  predicate CommandReady(s: State) {
    s.phase == Capture && s.requestPos < MAX_PACKET
  }

  predicate ResponseValid(s: State) {
    s.phase == Respond
  }

  function ResponseOctet(s: State): Octet {
    Octet(Bytes.Fetch(s.responseMem, s.responsePos), s.responsePos + 1 == s.responseLength)
  }

  function Reset(requestMem: seq<byte>, responseMem: seq<byte>): State {
    State(Capture, requestMem, responseMem, 0, 0, 0, 0, 0, 0, 0, 0, 0, 0, 0, 0, 0, 0, false, 0, 0)
  }

  /** Octets written over the start of a memory. */
  function Overwrite(mem: seq<byte>, bytes: seq<byte>): (m: seq<byte>)
    ensures |m| == |mem|
  {
    if |bytes| <= |mem| then bytes + mem[|bytes|..] else mem
  }

  function Replying(s: State, bytes: seq<byte>): State {
    s.(responseMem := Overwrite(s.responseMem, bytes), responseLength := |bytes|, responsePos := 0, phase := Respond)
  }

  function Captured(s: State, i: Input): State {
    var p := s.requestPos;
    s.(requestMem := Store(s.requestMem, p, i.data),
       command := if p == 0 then i.data else s.command,
       argument := if p == 1 then i.data else s.argument,
       count := if p == 2 then i.data else s.count,
       data := if p == 3 then i.data else s.data,
       requestLength := if i.last then p + 1 else s.requestLength,
       requestPos := if i.last then 0 else p + 1,
       phase := if i.last then Prepare else Capture)
  }

  function Prepared(s: State, f: Forces): State {
    var n := s.requestLength;
    if s.command == 0x00 then Replying(s, if n > 1 && s.argument == 1 then [0x00, 7] + ORBCODE else [0x00, 0])
    else if s.command == 0x02 then Replying(s, [0x02, if n > 1 then s.argument % 4 else 0])
    else if s.command == 0x05 then
      if n < 3 || s.count > MAX_TRANSFERS then Replying(s, [0x05, 0, 0x04])
      else if f.wait then Replying(s, [0x05, 0, 0x02])
      else if f.fault then Replying(s, [0x05, 0, 0x04])
      else s.(responseMem := Overwrite(s.responseMem, [0x05, 0, if f.parity then 0x09 else 0x01]), responsePos := 0,
              outputIndex := 3, index := 0, pos := 3, readAddress := 3, completed := 0, phase := Fetch)
    else if s.command == 0x07 || s.command == 0x08 then
      Replying(s, [s.command, 0]).(abortCount := s.abortCount + 1)
    else if s.command == 0x10 then Replying(s, [0x10, if n > 1 then s.argument else 0])
    else if s.command == 0x14 then Replying(s, [0x14, 0, if n > 3 then FlipBit0(s.data) else 0])
    else Replying(s, [s.command, 0xff])
  }

  /** The end of a transfer list; `truncated` overwrites the status. */
  function Finished(s: State, truncated: bool): State {
    var mem := Store(s.responseMem, 1, s.completed % 256);
    s.(responseMem := if truncated then Store(mem, 2, 0x04) else mem,
       responseLength := s.outputIndex, phase := Respond)
  }

  function Built(s: State): State {
    if s.index >= s.count then Finished(s, false)
    else if s.pos >= s.requestLength then Finished(s, true)
    else
      var n := s.(transferCount := s.transferCount + 1, completed := s.completed + 1, index := s.index + 1);
      var again := if s.index + 1 < s.count then Fetch else Build;
      if IsRead(s.readData) then
        var o := s.outputIndex;
        var mem := Store(Store(Store(Store(s.responseMem, o, s.readData), o + 1, 0), o + 2, 0xa5), o + 3, 0xa5);
        n.(responseMem := mem, outputIndex := o + 4, pos := s.pos + 1, readAddress := s.pos + 1, phase := again)
      else if s.pos + 4 < s.requestLength then
        n.(pos := s.pos + 5, readAddress := s.pos + 5, phase := again)
      else
        Finished(s, true).(transferCount := n.transferCount, completed := n.completed, index := n.index)
  }

  function Sent(s: State): State {
    if s.responsePos + 1 == s.responseLength
    then s.(phase := Capture, responsePos := 0, complete := true)
    else s.(responsePos := s.responsePos + 1)
  }

  function Step(s: State, i: Input): State {
    var b := s.(complete := false, readData := Bytes.Fetch(s.requestMem, s.readAddress));
    match s.phase
    case Capture => if i.valid && CommandReady(s) then Captured(b, i) else b
    case Prepare => Prepared(b, i.forces)
    case Fetch => b.(phase := Build)
    case Build => Built(s).(complete := false, readData := b.readData)
    case Respond => if i.ready then Sent(b) else b
  }

  // ---- Requests in, responses out ----

  /** Whole requests, and the one still arriving. */
  datatype Requests = Requests(complete: seq<seq<byte>>, open: seq<byte>)

  function RequestsOf(received: seq<Octet>): Requests {
    if received == [] then Requests([], []) else
    AddOctet(RequestsOf(received[..|received| - 1]), received[|received| - 1])
  }

  function AddOctet(q: Requests, o: Octet): Requests {
    var open := q.open + [o.data];
    if o.last then Requests(q.complete + [open], []) else Requests(q.complete, open)
  }

  /** The last flag on the final byte only. */
  function Mark(bytes: seq<byte>): (m: seq<Octet>)
    ensures |m| == |bytes|
  {
    seq(|bytes|, i requires 0 <= i < |bytes| => Octet(bytes[i], i + 1 == |bytes|))
  }

  /** What the engine answers. */
  function EngineAnswer(r: seq<byte>, f: Forces): Answer {
    if r == [] then Answer([], 0, 0)
    else if r[0] == 0x00 then
      Answer(if |r| > 1 && r[1] == 1 then [0x00, 7] + ORBCODE else [0x00, 0], 0, 0)
    else if r[0] == 0x02 then Answer([0x02, At(r, 1) % 4], 0, 0)
    else if r[0] == 0x05 then
      if |r| < 3 || r[2] > MAX_TRANSFERS then Answer([0x05, 0, 0x04], 0, 0)
      else if f.wait then Answer([0x05, 0, 0x02], 0, 0)
      else if f.fault then Answer([0x05, 0, 0x04], 0, 0)
      else TransferAnswer(r, r[2], f.parity)
    else if r[0] == 0x07 || r[0] == 0x08 then Answer([r[0], 0], 0, 1)
    else if r[0] == 0x10 then Answer([0x10, At(r, 1)], 0, 0)
    else if r[0] == 0x14 then Answer([0x14, 0, if |r| > 3 then FlipBit0(r[3]) else 0], 0, 0)
    else Answer([r[0], 0xff], 0, 0)
  }

  /** The requests on which the engine and the reference target answer alike. */
  predicate Agreeing(r: seq<byte>, f: Forces) {
    && 1 <= |r| <= MAX_PACKET
    && (r[0] == 0x00 ==> At(r, 1) != 2)
    && (r[0] == 0x05 ==> |r| >= 3 && (r[2] <= MAX_TRANSFERS || (!f.wait && (f.fault || |r| == 3))))
    && (r[0] == 0x14 ==> |r| > 3)
  }

  /** The engine's answer, counters included, is the reference target's exactly on those requests:
      the rest are Info 2, truncated Transfer headers, more than 32 transfers, and JTAG sequences
      without data. */
  lemma EngineMatchesTarget(r: seq<byte>, f: Forces)
    requires 1 <= |r| <= MAX_PACKET
    ensures Execute(r, f) == Ok(EngineAnswer(r, f)) <==> Agreeing(r, f)
  {
    var e, a := Execute(r, f), EngineAnswer(r, f);
    if r[0] == 0x00 {
      assert At(r, 1) == 2 ==> e.value.bytes[1] == 16;
      assert At(r, 1) != 1 && At(r, 1) != 2 ==> e.value.bytes == [0x00, 0];
    } else if r[0] == 0x05 && |r| >= 3 && r[2] > MAX_TRANSFERS && !f.wait && !f.fault {
      var t := TransfersFrom(r, 3, r[2]);
      if |r| == 3 {
        assert t == Transfers([], 0, 0, true);
        assert e.value.bytes == [0x05, 0, 0x04];
      } else {
        assert e.value.transfers >= 1;
      }
    } else if r[0] == 0x14 {
      assert |r| <= 3 ==> e.value.bytes[2] == 1 && a.bytes[2] == 0;
    }
  }

  /** The engine on a transfer list, entries told apart by bit 1 of their first bytes. */
  lemma TransferLaw(index: byte, n: byte, entries: seq<Entry>, tail: seq<byte>, parity: bool)
    requires |entries| <= n <= MAX_TRANSFERS && (n > |entries| ==> CutOff(tail)) && forall e <- entries :: ByMask(e)
    ensures EngineAnswer([0x05, index, n] + (EntryBytes(entries) + tail), Forces(false, false, parity))
         == Answer([0x05, |entries|, if n > |entries| then 0x04 else if parity then 0x09 else 0x01] + DataRead(entries),
                   |entries| + (if n > |entries| && tail != [] then 1 else 0), 0)
  {
    var r := [0x05, index, n] + (EntryBytes(entries) + tail);
    assert r[3..] == EntryBytes(entries) + tail;
    ListParses(r, 3, n, entries, tail);
    hide TransfersFrom, EntryBytes, DataRead;
  }

  /** Everything sent and counted for answered requests. */
  datatype Log = Log(sent: seq<Octet>, transfers: nat, aborts: nat)

  function Replies(requests: seq<seq<byte>>, forces: seq<Forces>): Log
    requires |requests| == |forces|
  {
    if requests == [] then Log([], 0, 0) else
    var last := |requests| - 1;
    var (before, a) := (Replies(requests[..last], forces[..last]), EngineAnswer(requests[last], forces[last]));
    Log(before.sent + Mark(a.bytes), before.transfers + a.transfers, before.aborts + a.aborts)
  }

  /** A run: octets taken in, the forces seen at each request, octets sent. */
  datatype Trace = Trace(state: State, received: seq<Octet>, forces: seq<Forces>, sent: seq<Octet>)

  function Advance(t: Trace, i: Input): Trace {
    Trace(Step(t.state, i),
          if i.valid && CommandReady(t.state) then t.received + [Octet(i.data, i.last)] else t.received,
          if t.state.phase == Prepare then t.forces + [i.forces] else t.forces,
          if i.ready && ResponseValid(t.state) then t.sent + [ResponseOctet(t.state)] else t.sent)
  }

  // ---- The invariant ----

  ghost predicate Headers(s: State, r: seq<byte>) {
    && (|r| > 0 ==> s.command == r[0]) && (|r| > 1 ==> s.argument == r[1])
    && (|r| > 2 ==> s.count == r[2]) && (|r| > 3 ==> s.data == r[3])
  }

  ghost predicate Holds(s: State, r: seq<byte>) {
    && |s.requestMem| == MAX_PACKET && |s.responseMem| == MAX_RESPONSE
    && |r| <= MAX_PACKET && s.requestMem[..|r|] == r && Headers(s, r)
  }

  /** Inside a DAP_Transfer: the response memory holds the data of the transfers done. */
  ghost predicate Transferring(s: State, r: seq<byte>, f: Forces) {
    && |s.responseMem| == MAX_RESPONSE
    && |r| >= 3 && r[0] == 0x05 && s.count == r[2] <= MAX_TRANSFERS && !f.wait && !f.fault
    && s.completed == s.index <= s.count && s.pos >= 3 && s.responsePos == 0
    && 3 <= s.outputIndex <= 3 + 4 * s.index
    && s.responseMem[..3] == [0x05, 0, if f.parity then 0x09 else 0x01]
    && TransfersFrom(r, 3, s.count)
       == Join(s.responseMem[3..s.outputIndex], s.index, TransfersFrom(r, s.pos, s.count - s.index))
    && (s.phase == Fetch ==> s.readAddress == s.pos)
    && (s.phase == Build && s.index < s.count && s.pos < |r| ==> s.readData == r[s.pos])
  }

  /** The engine at work on `r`, with `before` sent and counted for the earlier requests. */
  ghost predicate Working(s: State, r: seq<byte>, f: Forces, before: Log, sent: seq<Octet>) {
    && r != [] && Holds(s, r) && s.requestLength == |r| && s.requestPos == 0
    && match s.phase
       case Capture => false
       case Prepare =>
         sent == before.sent && s.transferCount == before.transfers && s.abortCount == before.aborts
       case Fetch =>
         && sent == before.sent && s.transferCount == before.transfers + s.index && s.abortCount == before.aborts
         && Transferring(s, r, f)
       case Build =>
         && sent == before.sent && s.transferCount == before.transfers + s.index && s.abortCount == before.aborts
         && Transferring(s, r, f)
       case Respond =>
         var a := EngineAnswer(r, f);
         && s.transferCount == before.transfers + a.transfers && s.abortCount == before.aborts + a.aborts
         && s.responsePos < s.responseLength == |a.bytes| <= MAX_RESPONSE
         && s.responseMem[..|a.bytes|] == a.bytes
         && sent == before.sent + Mark(a.bytes)[..s.responsePos]
  }

  ghost predicate Inv(t: Trace) {
    var (s, q) := (t.state, RequestsOf(t.received));
    && if s.phase == Capture then
         && |t.forces| == |q.complete| && Holds(s, q.open) && s.requestPos == |q.open|
         && Replies(q.complete, t.forces) == Log(t.sent, s.transferCount, s.abortCount)
       else
         var n := |q.complete| - 1;
         && n >= 0 && q.open == [] && |t.forces| == (if s.phase == Prepare then n else n + 1)
         && Working(s, q.complete[n], if s.phase == Prepare then Forces(false, false, false) else t.forces[n],
                    Replies(q.complete[..n], t.forces[..n]), t.sent)
  }

  lemma OverwriteHolds(mem: seq<byte>, bytes: seq<byte>)
    requires |bytes| <= |mem|
    ensures Overwrite(mem, bytes)[..|bytes|] == bytes
  {
  }

  lemma ReplyingWorks(s: State, bytes: seq<byte>, r: seq<byte>, f: Forces, before: Log, sent: seq<Octet>)
    requires r != [] && Holds(s, r) && s.requestLength == |r| && s.requestPos == 0
    requires var a := EngineAnswer(r, f);
             && bytes == a.bytes && 1 <= |bytes| <= MAX_RESPONSE && sent == before.sent
             && s.transferCount == before.transfers + a.transfers && s.abortCount == before.aborts + a.aborts
    ensures Working(Replying(s, bytes), r, f, before, sent)
  {
    OverwriteHolds(s.responseMem, bytes);
    assert Mark(bytes)[..0] == [];
    assert sent + [] == sent;
  }

  /** A transfer that is neither refused nor forced to fail starts. */
  lemma StartTransfer(s: State, r: seq<byte>, f: Forces, i: Input, before: Log, sent: seq<Octet>)
    requires s.phase == Prepare && Working(s, r, Forces(false, false, false), before, sent) && i.forces == f
    requires r[0] == 0x05 && |r| >= 3 && r[2] <= MAX_TRANSFERS && !f.wait && !f.fault
    ensures Working(Step(s, i), r, f, before, sent) && Step(s, i).phase == Fetch
  {
    var n := Step(s, i);
    OverwriteHolds(s.responseMem, [0x05, 0, if f.parity then 0x09 else 0x01]);
    JoinStep([], 0, r, 3, s.count);
    assert n.responseMem[3..3] == [];
  }

  /** Every other command is answered at once. */
  lemma PrepareKeeps(s: State, r: seq<byte>, f: Forces, i: Input, before: Log, sent: seq<Octet>)
    requires s.phase == Prepare && Working(s, r, Forces(false, false, false), before, sent) && i.forces == f
    ensures Working(Step(s, i), r, f, before, sent) && Step(s, i).phase != Prepare && Step(s, i).phase != Capture
  {
    if r[0] == 0x05 && |r| >= 3 && r[2] <= MAX_TRANSFERS && !f.wait && !f.fault {
      StartTransfer(s, r, f, i, before, sent);
    } else {
      var a := EngineAnswer(r, f);
      var b := s.(complete := false, readData := Bytes.Fetch(s.requestMem, s.readAddress),
                  abortCount := s.abortCount + a.aborts);
      PrepareAnswers(s, r, f, i);
      hide EngineAnswer, Step;
      ReplyingWorks(b, a.bytes, r, f, before, sent);
      hide Working, Overwrite;
    }
  }

  lemma PrepareAnswers(s: State, r: seq<byte>, f: Forces, i: Input)
    requires s.phase == Prepare && r != [] && Headers(s, r) && s.requestLength == |r| && i.forces == f
    requires !(r[0] == 0x05 && |r| >= 3 && r[2] <= MAX_TRANSFERS && !f.wait && !f.fault)
    ensures var a := EngineAnswer(r, f);
            && 1 <= |a.bytes| <= MAX_RESPONSE && a.transfers == 0
            && Step(s, i) == Replying(s.(complete := false, readData := Bytes.Fetch(s.requestMem, s.readAddress),
                                         abortCount := s.abortCount + a.aborts), a.bytes)
  {
    hide Overwrite, TransferAnswer, Bytes.Fetch;
  }

  lemma FetchKeeps(s: State, r: seq<byte>, f: Forces, i: Input, before: Log, sent: seq<Octet>)
    requires s.phase == Fetch && Working(s, r, f, before, sent)
    ensures Working(Step(s, i), r, f, before, sent) && Step(s, i).phase == Build
  {
    assert s.pos < |r| ==> s.requestMem[s.pos] == s.requestMem[..|r|][s.pos];
  }

  /** The captured request stays while the response is built. */
  lemma HoldsOn(s: State, n: State, r: seq<byte>)
    requires Holds(s, r) && n.requestMem == s.requestMem && |n.responseMem| == |s.responseMem|
    requires n.command == s.command && n.argument == s.argument && n.count == s.count && n.data == s.data
    ensures Holds(n, r)
  {
  }

  lemma FinishedMemory(mem: seq<byte>, o: nat, completed: byte, status: byte)
    requires 3 <= o <= |mem| && mem[..3] == [0x05, 0, status]
    ensures Store(mem, 1, completed)[..o] == [0x05, completed, status] + mem[3..o]
    ensures Store(Store(mem, 1, completed), 2, 0x04)[..o] == [0x05, completed, 0x04] + mem[3..o]
  {
    assert mem[0] == mem[..3][0] && mem[2] == mem[..3][2];
  }

  lemma ReadMemory(mem: seq<byte>, o: nat, transfer: byte)
    requires 3 <= o && o + 4 <= |mem|
    ensures var m := Store(Store(Store(Store(mem, o, transfer), o + 1, 0), o + 2, 0xa5), o + 3, 0xa5);
            m[3..o + 4] == mem[3..o] + [transfer, 0, 0xa5, 0xa5] && m[..3] == mem[..3]
  {
  }

  /** The end of the transfer list: complete, or cut short before or inside a transfer. */
  lemma FinishWorks(s: State, r: seq<byte>, f: Forces, i: Input, truncated: bool, started: nat, before: Log, sent: seq<Octet>)
    requires s.phase == Build && Working(s, r, f, before, sent)
    requires if s.index >= s.count then !truncated && started == s.index
             else truncated && if s.pos >= |r| then started == s.index
                               else !IsRead(r[s.pos]) && s.pos + 4 >= |r| && started == s.index + 1
    requires TransfersFrom(r, 3, s.count) == SyntheticDap.Transfers(s.responseMem[3..s.outputIndex], s.index, started, truncated)
    ensures Working(Step(s, i), r, f, before, sent) && Step(s, i).phase == Respond
  {
    var n := Step(s, i);
    FinishStep(s, r, i, truncated, started);
    FinishedAnswer(s, r, f, truncated, started);
    hide TransfersFrom, Store, EngineAnswer, Step, Built;
    HoldsOn(s, n, r);
    FinishedMemory(s.responseMem, s.outputIndex, s.index, if f.parity then 0x09 else 0x01);
    ResponseStarts(n, r, f, before, sent);
  }

  /** The clock that ends a transfer list. */
  lemma FinishStep(s: State, r: seq<byte>, i: Input, truncated: bool, started: nat)
    requires s.phase == Build && s.completed == s.index <= s.count <= MAX_TRANSFERS && s.requestLength == |r|
    requires s.index < s.count && s.pos < |r| ==> s.readData == r[s.pos]
    requires if s.index >= s.count then !truncated && started == s.index
             else truncated && if s.pos >= |r| then started == s.index
                               else !IsRead(r[s.pos]) && s.pos + 4 >= |r| && started == s.index + 1
    ensures var (n, m) := (Step(s, i), Store(s.responseMem, 1, s.index));
            && n.phase == Respond && n.responseMem == (if truncated then Store(m, 2, 0x04) else m)
            && n.responseLength == s.outputIndex && n.responsePos == s.responsePos
            && n.transferCount == s.transferCount + started - s.index && n.abortCount == s.abortCount
            && n.requestMem == s.requestMem && n.requestPos == s.requestPos && n.requestLength == s.requestLength
            && n.command == s.command && n.argument == s.argument && n.count == s.count && n.data == s.data
  {
    hide Store;
  }

  lemma ResponseStarts(n: State, r: seq<byte>, f: Forces, before: Log, sent: seq<Octet>)
    requires r != [] && Holds(n, r) && n.requestLength == |r| && n.requestPos == 0 && n.phase == Respond
    requires var a := EngineAnswer(r, f);
             && n.transferCount == before.transfers + a.transfers && n.abortCount == before.aborts + a.aborts
             && n.responsePos == 0 < n.responseLength == |a.bytes| <= MAX_RESPONSE
             && n.responseMem[..|a.bytes|] == a.bytes && sent == before.sent
    ensures Working(n, r, f, before, sent)
  {
    hide EngineAnswer, Holds;
    assert Mark(EngineAnswer(r, f).bytes)[..0] == [];
    assert sent + [] == sent;
  }

  lemma FinishedAnswer(s: State, r: seq<byte>, f: Forces, truncated: bool, started: nat)
    requires Transferring(s, r, f)
    requires TransfersFrom(r, 3, s.count) == SyntheticDap.Transfers(s.responseMem[3..s.outputIndex], s.index, started, truncated)
    ensures EngineAnswer(r, f)
         == Answer([0x05, s.index, if truncated then 0x04 else if f.parity then 0x09 else 0x01]
                   + s.responseMem[3..s.outputIndex], started, 0)
  {
    hide TransfersFrom;
  }

  /** One transfer done: its data, if any, has been appended. */
  lemma TransferDone(s: State, n: State, r: seq<byte>, f: Forces)
    requires Transferring(s, r, f) && s.index < s.count && s.pos < |r|
    requires |n.responseMem| == MAX_RESPONSE && n.responseMem[..3] == s.responseMem[..3]
    requires n.count == s.count && n.completed == n.index == s.index + 1 && n.responsePos == 0
    requires n.readAddress == n.pos && n.phase == if n.index < n.count then Fetch else Build
    requires if IsRead(r[s.pos])
             then && n.outputIndex == s.outputIndex + 4 && n.pos == s.pos + 1
                  && n.responseMem[3..n.outputIndex] == s.responseMem[3..s.outputIndex] + [r[s.pos], 0, 0xa5, 0xa5]
             else && n.outputIndex == s.outputIndex && n.pos == s.pos + 5 && s.pos + 4 < |r|
                  && n.responseMem == s.responseMem
    ensures Transferring(n, r, f)
  {
    hide TransfersFrom, Join, IsRead;
    var data, more, left := s.responseMem[3..s.outputIndex], n.responseMem[3..n.outputIndex], s.count - s.index;
    assert n.count - n.index == left - 1;
    assert if IsRead(r[s.pos]) then more == data + [r[s.pos], 0, 0xa5, 0xa5] else more == data;
    OneMore(data, more, s.index, r, s.pos, n.pos, left);
  }

  lemma TransferWorks(s: State, r: seq<byte>, f: Forces, i: Input, before: Log, sent: seq<Octet>)
    requires s.phase == Build && Working(s, r, f, before, sent)
    requires s.index < s.count && s.pos < |r| && (IsRead(r[s.pos]) || s.pos + 4 < |r|)
    ensures Working(Step(s, i), r, f, before, sent)
    ensures Step(s, i).phase == Fetch || Step(s, i).phase == Build
  {
    var n := Step(s, i);
    if IsRead(r[s.pos]) {
      ReadMemory(s.responseMem, s.outputIndex, r[s.pos]);
    }
    hide TransfersFrom, Store, Join, EngineAnswer, Holds;
    TransferDone(s, n, r, f);
    hide Transferring;
    HoldsOn(s, n, r);
  }

  lemma BuildKeeps(s: State, r: seq<byte>, f: Forces, i: Input, before: Log, sent: seq<Octet>)
    requires s.phase == Build && Working(s, r, f, before, sent)
    ensures Working(Step(s, i), r, f, before, sent) && Step(s, i).phase != Prepare && Step(s, i).phase != Capture
  {
    JoinStep(s.responseMem[3..s.outputIndex], s.index, r, s.pos, s.count - s.index);
    hide TransfersFrom, Store, Step;
    if s.index >= s.count {
      FinishWorks(s, r, f, i, false, s.index, before, sent);
    } else if s.pos >= |r| {
      FinishWorks(s, r, f, i, true, s.index, before, sent);
    } else if IsRead(r[s.pos]) || s.pos + 4 < |r| {
      TransferWorks(s, r, f, i, before, sent);
    } else {
      FinishWorks(s, r, f, i, true, s.index + 1, before, sent);
    }
  }

  lemma RespondKeeps(s: State, r: seq<byte>, f: Forces, i: Input, before: Log, sent: seq<Octet>)
    requires s.phase == Respond && Working(s, r, f, before, sent)
    ensures var (n, sent', a) := (Step(s, i), if i.ready then sent + [ResponseOctet(s)] else sent, EngineAnswer(r, f));
            if n.phase == Capture
            then i.ready && sent' == before.sent + Mark(a.bytes) && n.requestPos == 0
                 && |n.requestMem| == MAX_PACKET && |n.responseMem| == MAX_RESPONSE
                 && n.transferCount == before.transfers + a.transfers && n.abortCount == before.aborts + a.aborts
            else n.phase == Respond && Working(n, r, f, before, sent')
  {
    var a := EngineAnswer(r, f);
    var m, k := Mark(a.bytes), s.responsePos;
    assert s.responseMem[k] == s.responseMem[..|a.bytes|][k];
    assert m[..k] + [m[k]] == m[..k + 1];
    assert k + 1 == |m| ==> m[..k + 1] == m;
  }

  /** One clock on a captured request: still at it, or the response has gone out whole. */
  lemma WorkKeeps(s: State, r: seq<byte>, f: Forces, i: Input, before: Log, sent: seq<Octet>)
    requires s.phase != Capture && (s.phase == Prepare ==> i.forces == f)
    requires Working(s, r, if s.phase == Prepare then Forces(false, false, false) else f, before, sent)
    ensures var (n, a) := (Step(s, i), EngineAnswer(r, f));
            var sent' := if i.ready && ResponseValid(s) then sent + [ResponseOctet(s)] else sent;
            && n.phase != Prepare
            && if n.phase == Capture
               then n.requestPos == 0 && |n.requestMem| == MAX_PACKET && |n.responseMem| == MAX_RESPONSE
                    && Log(sent', n.transferCount, n.abortCount)
                       == Log(before.sent + Mark(a.bytes), before.transfers + a.transfers, before.aborts + a.aborts)
               else Working(n, r, f, before, sent')
  {
    hide EngineAnswer, Step, Working;
    match s.phase
    case Prepare => PrepareKeeps(s, r, f, i, before, sent);
    case Fetch => FetchKeeps(s, r, f, i, before, sent);
    case Build => BuildKeeps(s, r, f, i, before, sent);
    case Respond => RespondKeeps(s, r, f, i, before, sent);
  }

  /** Every clock keeps the invariant. */
  lemma StepKeeps(t: Trace, i: Input)
    requires Inv(t)
    ensures Inv(Advance(t, i))
  {
    if t.state.phase != Capture {
      WorkingKeeps(t, i);
    } else if i.valid && CommandReady(t.state) {
      CaptureKeeps(t, i);
    }
  }

  lemma WorkingKeeps(t: Trace, i: Input)
    requires Inv(t) && t.state.phase != Capture
    ensures Inv(Advance(t, i))
  {
    hide EngineAnswer, Step, Working, RequestsOf, ResponseOctet, Holds, Replies;
    var (s, q, t') := (t.state, RequestsOf(t.received), Advance(t, i));
    var n := |q.complete| - 1;
    var f := if s.phase == Prepare then i.forces else t.forces[n];
    assert t'.received == t.received;
    assert t'.forces[..n] == t.forces[..n] && t'.forces[n] == f && |t'.forces| == n + 1;
    WorkKeeps(s, q.complete[n], f, i, Replies(q.complete[..n], t.forces[..n]), t.sent);
    AllReplied(q.complete, t'.forces, n);
    Reassembled(t', n);
  }

  /** The request is answered whole, or still being worked on. */
  lemma Reassembled(t: Trace, n: nat)
    requires var (s, q) := (t.state, RequestsOf(t.received));
             && |q.complete| == |t.forces| == n + 1 && q.open == [] && s.phase != Prepare
             && if s.phase == Capture
                then s.requestPos == 0 && |s.requestMem| == MAX_PACKET && |s.responseMem| == MAX_RESPONSE
                     && Replies(q.complete, t.forces) == Log(t.sent, s.transferCount, s.abortCount)
                else Working(s, q.complete[n], t.forces[n], Replies(q.complete[..n], t.forces[..n]), t.sent)
    ensures Inv(t)
  {
    hide RequestsOf, Working, Replies;
  }

  lemma AllReplied(requests: seq<seq<byte>>, forces: seq<Forces>, n: nat)
    requires |requests| == |forces| == n + 1
    ensures var before, a := Replies(requests[..n], forces[..n]), EngineAnswer(requests[n], forces[n]);
            Replies(requests, forces)
            == Log(before.sent + Mark(a.bytes), before.transfers + a.transfers, before.aborts + a.aborts)
  {
    hide EngineAnswer;
  }

  lemma CaptureKeeps(t: Trace, i: Input)
    requires Inv(t) && i.valid && CommandReady(t.state)
    ensures Inv(Advance(t, i))
  {
    var (s, q, t') := (t.state, RequestsOf(t.received), Advance(t, i));
    hide EngineAnswer;
    var o := Octet(i.data, i.last);
    assert t'.received[..|t.received|] == t.received;
    assert RequestsOf(t'.received) == AddOctet(q, o);
    var open := q.open + [i.data];
    assert t'.state.requestMem[..|open|] == open;
    if i.last {
      assert (q.complete + [open])[..|q.complete|] == q.complete;
      assert t.forces[..|q.complete|] == t.forces;
    }
  }

  // ---- Whole runs ----

  function Run(s: State, inputs: seq<Input>): Trace {
    if inputs == [] then Trace(s, [], [], []) else
    Advance(Run(s, inputs[..|inputs| - 1]), inputs[|inputs| - 1])
  }

  lemma {:induction false} RunKeeps(requestMem: seq<byte>, responseMem: seq<byte>, inputs: seq<Input>)
    requires |requestMem| == MAX_PACKET && |responseMem| == MAX_RESPONSE
    ensures Inv(Run(Reset(requestMem, responseMem), inputs))
  {
    if inputs != [] {
      RunKeeps(requestMem, responseMem, inputs[..|inputs| - 1]);
      StepKeeps(Run(Reset(requestMem, responseMem), inputs[..|inputs| - 1]), inputs[|inputs| - 1]);
    }
  }

  /** How often the end of an answer was signalled, and how many answers were sent whole. */
  function Signals(s: State, inputs: seq<Input>): nat {
    if inputs == [] then 0 else
    Signals(s, inputs[..|inputs| - 1]) + if Run(s, inputs).state.complete then 1 else 0
  }

  function Answers(sent: seq<Octet>): nat {
    if sent == [] then 0 else
    Answers(sent[..|sent| - 1]) + if sent[|sent| - 1].last then 1 else 0
  }

  /** Only sending raises it. */
  lemma NoSignal(s: State, i: Input)
    ensures Step(s, i).complete ==> s.phase == Respond
  {
    hide Overwrite, Store, Finished;
  }

  lemma StepSignals(t: Trace, i: Input)
    ensures var n := Advance(t, i);
            Answers(n.sent) == Answers(t.sent) + if n.state.complete then 1 else 0
  {
    hide Overwrite, Store, Prepared, Built, Captured;
    NoSignal(t.state, i);
    var n := Advance(t, i);
    if n.sent != t.sent {
      assert n.sent[..|t.sent|] == t.sent;
    }
  }

  /** In every run the interrupt line is raised once for each answer sent to its last octet, on that clock. */
  lemma {:induction false} AnswersSignalled(requestMem: seq<byte>, responseMem: seq<byte>, inputs: seq<Input>)
    ensures var s := Reset(requestMem, responseMem); Signals(s, inputs) == Answers(Run(s, inputs).sent)
  {
    if inputs != [] {
      hide Advance;
      var last := |inputs| - 1;
      AnswersSignalled(requestMem, responseMem, inputs[..last]);
      StepSignals(Run(Reset(requestMem, responseMem), inputs[..last]), inputs[last]);
    }
  }

  /** What the reference target answers to all the requests. */
  function TargetReplies(requests: seq<seq<byte>>, forces: seq<Forces>): Log
    requires |requests| == |forces|
  {
    if requests == [] then Log([], 0, 0) else
    var last := |requests| - 1;
    var before := TargetReplies(requests[..last], forces[..last]);
    match Execute(requests[last], forces[last])
    case Err(_) => before
    case Ok(a) => Log(before.sent + Mark(a.bytes), before.transfers + a.transfers, before.aborts + a.aborts)
  }

  lemma {:induction false} RepliesAgree(requests: seq<seq<byte>>, forces: seq<Forces>)
    requires |requests| == |forces|
    requires forall j :: 0 <= j < |requests| ==> Agreeing(requests[j], forces[j])
    ensures Replies(requests, forces) == TargetReplies(requests, forces)
  {
    if requests != [] {
      var last := |requests| - 1;
      RepliesAgree(requests[..last], forces[..last]);
      EngineMatchesTarget(requests[last], forces[last]);
    }
  }

  /** The clocked engine refines the reference target: under any stalls of either stream, whenever
      the engine waits for a command, what it has sent and counted is exactly the target's answers
      to the requests captured, each with its last flag, given the forces it saw on each request;
      and while it works, it has sent all earlier answers and a prefix of the current one. */
  lemma EngineRefinesTarget(requestMem: seq<byte>, responseMem: seq<byte>, inputs: seq<Input>)
    requires |requestMem| == MAX_PACKET && |responseMem| == MAX_RESPONSE
    ensures var t := Run(Reset(requestMem, responseMem), inputs);
            var (s, q, n) := (t.state, RequestsOf(t.received).complete, |t.forces|);
            && n == (if s.phase == Prepare then |q| - 1 else |q|)
            && ((forall j :: 0 <= j < n ==> Agreeing(q[j], t.forces[j])) ==>
                  && (s.phase == Capture || s.phase == Prepare ==>
                        TargetReplies(q[..n], t.forces) == Log(t.sent, s.transferCount, s.abortCount))
                  && t.sent <= TargetReplies(q[..n], t.forces).sent)
  {
    hide Run, Agreeing, RequestsOf, Inv, TargetReplies;
    RunKeeps(requestMem, responseMem, inputs);
    var t := Run(Reset(requestMem, responseMem), inputs);
    SentSoFar(t);
    var q, n := RequestsOf(t.received).complete, |t.forces|;
    if forall j :: 0 <= j < n ==> Agreeing(q[j], t.forces[j]) {
      RepliesAgree(q[..n], t.forces);
    }
  }

  /** What the invariant says of the octets sent. */
  lemma SentSoFar(t: Trace)
    requires Inv(t)
    ensures var (s, q, n) := (t.state, RequestsOf(t.received).complete, |t.forces|);
            && n == (if s.phase == Prepare then |q| - 1 else |q|)
            && (s.phase == Capture || s.phase == Prepare ==>
                  Replies(q[..n], t.forces) == Log(t.sent, s.transferCount, s.abortCount))
            && t.sent <= Replies(q[..n], t.forces).sent
  {
    hide RequestsOf, EngineAnswer, Transferring, Holds, Replies;
    var (s, q, n) := (t.state, RequestsOf(t.received).complete, |t.forces|);
    assert t.forces[..n] == t.forces && q[..|q|] == q;
    if s.phase != Capture && s.phase != Prepare {
      AllReplied(q, t.forces, n - 1);
    }
  }

  // ---- One-shot conditions against levels ----

  /** Replies on the wire. */
  function Marked(replies: seq<seq<byte>>): seq<Octet> {
    if replies == [] then [] else
    var last := |replies| - 1;
    Marked(replies[..last]) + Mark(replies[last])
  }

  /** What a run of the target, its conditions one-shot, sends and counts. */
  function SessionLog(start: Forces, requests: seq<seq<byte>>, arms: seq<Forces>): Log
    requires |requests| == |arms|
  {
    var s := SessionOf(start, requests, arms);
    Log(Marked(s.replies), s.transfers, s.aborts)
  }

  /** The same answer to one more request. */
  function Logged(before: Log, answer: Result<Answer, DapError>): Log {
    match answer
    case Err(_) => before
    case Ok(a) => Log(before.sent + Mark(a.bytes), before.transfers + a.transfers, before.aborts + a.aborts)
  }

  lemma OneMoreLogged(start: Forces, requests: seq<seq<byte>>, arms: seq<Forces>, levels: seq<Forces>, n: nat)
    requires |requests| == |arms| == |levels| && n < |requests|
    ensures SessionLog(start, requests[..n + 1], arms[..n + 1])
         == Logged(SessionLog(start, requests[..n], arms[..n]), Execute(requests[n], ArmedAt(start, requests, arms, n)))
    ensures TargetReplies(requests[..n + 1], levels[..n + 1])
         == Logged(TargetReplies(requests[..n], levels[..n]), Execute(requests[n], levels[n]))
  {
    hide Execute, ForcesAfter, Mark;
    assert requests[..n + 1][..n] == requests[..n] && arms[..n + 1][..n] == arms[..n] && levels[..n + 1][..n] == levels[..n];
    var before := SessionOf(start, requests[..n], arms[..n]);
    var answer := Execute(requests[n], ArmedAt(start, requests, arms, n));
    if answer.Ok? {
      assert (before.replies + [answer.value.bytes])[..|before.replies|] == before.replies;
    }
  }

  lemma MarkInjective(a: seq<byte>, b: seq<byte>)
    requires Mark(a) == Mark(b)
    ensures a == b
  {
    forall i | 0 <= i < |a| ensures i < |b| && a[i] == b[i] {
      assert Mark(a)[i].data == Mark(b)[i].data;
    }
  }

  lemma SameLogged(before: Log, a: Result<Answer, DapError>, b: Result<Answer, DapError>)
    requires a.Ok? <==> b.Ok?
    ensures Logged(before, a) == Logged(before, b) <==> a == b
  {
    hide Mark;
    if a.Ok? && Logged(before, a) == Logged(before, b) {
      var n := |before.sent|;
      assert Mark(a.value.bytes) == (before.sent + Mark(a.value.bytes))[n..];
      assert Mark(b.value.bytes) == (before.sent + Mark(b.value.bytes))[n..];
      MarkInjective(a.value.bytes, b.value.bytes);
    }
    if a.Err? {
      assert a.error == b.error;
    }
  }

  /** No condition decides whether a request is answered at all. */
  lemma AnsweredAlike(r: seq<byte>, f: Forces, g: Forces)
    ensures Execute(r, f).Ok? <==> Execute(r, g).Ok?
  {
    hide TransferAnswer;
  }

  /** After each of the first n requests the target has sent and counted what levels would give. */
  ghost predicate InStep(start: Forces, requests: seq<seq<byte>>, arms: seq<Forces>, levels: seq<Forces>, n: nat)
    requires |requests| == |arms| == |levels| && n <= |requests|
  {
    forall m :: 0 <= m <= n ==> SessionLog(start, requests[..m], arms[..m]) == TargetReplies(requests[..m], levels[..m])
  }

  predicate SameEffects(start: Forces, requests: seq<seq<byte>>, arms: seq<Forces>, levels: seq<Forces>, n: nat)
    requires |requests| == |arms| == |levels| && n <= |requests|
  {
    forall k :: 0 <= k < n ==> EffectOf(requests[k], ArmedAt(start, requests, arms, k)) == EffectOf(requests[k], levels[k])
  }

  /** Whatever is armed and whatever the levels are: the target's one-shot conditions and the register
      block's levels give the same answers and counts after every request exactly when, on each request,
      what is then armed and the level have the same effect. */
  lemma {:induction false} SessionMatchesIff(start: Forces, requests: seq<seq<byte>>, arms: seq<Forces>, levels: seq<Forces>, n: nat)
    requires |requests| == |arms| == |levels| && n <= |requests|
    ensures InStep(start, requests, arms, levels, n) <==> SameEffects(start, requests, arms, levels, n)
  {
    hide EffectOf, Execute, ArmedAt, SessionLog, TargetReplies, Logged;
    if n == 0 {
      NothingLogged(start);
      assert requests[..0] == [] && arms[..0] == [] && levels[..0] == [];
    } else {
      var (armed, level) := (ArmedAt(start, requests, arms, n - 1), levels[n - 1]);
      SessionMatchesIff(start, requests, arms, levels, n - 1);
      OneMoreLogged(start, requests, arms, levels, n - 1);
      AnsweredAlike(requests[n - 1], armed, level);
      SameLogged(SessionLog(start, requests[..n - 1], arms[..n - 1]), Execute(requests[n - 1], armed), Execute(requests[n - 1], level));
      SameEffect(requests[n - 1], armed, level);
      assert InStep(start, requests, arms, levels, n) <==>
        InStep(start, requests, arms, levels, n - 1)
        && SessionLog(start, requests[..n], arms[..n]) == TargetReplies(requests[..n], levels[..n]);
    }
  }

  lemma NothingLogged(start: Forces)
    ensures SessionLog(start, [], []) == TargetReplies([], []) == Log([], 0, 0)
  {
  }

  /** A level that is also armed before each request: the conditions in force are at least the level, so
      no more transfers are done. */
  lemma ArmedMore(r: seq<byte>, left: Forces, level: Forces)
    ensures var (a, b) := (Execute(r, Both(left, level)), Execute(r, level));
            && (a.Ok? <==> b.Ok?)
            && (a.Ok? ==> a.value.transfers <= b.value.transfers && a.value.aborts == b.value.aborts
                          && a.value.bytes != [] && b.value.bytes != [])
  {
    AnsweredAlike(r, Both(left, level), level);
    if EffectOf(r, level) != Untouched {
      EffectAnswers(r, level);
      EffectAnswers(r, Both(left, level));
      hide Execute, TransfersFrom;
    }
  }

  predicate EndsMarked(sent: seq<Octet>) {
    sent == [] || sent[|sent| - 1].last
  }

  lemma {:induction false} FewerTransfers(start: Forces, requests: seq<seq<byte>>, levels: seq<Forces>, n: nat)
    requires |requests| == |levels| && n <= |requests|
    ensures var (a, b) := (SessionLog(start, requests[..n], levels[..n]), TargetReplies(requests[..n], levels[..n]));
            a.transfers <= b.transfers && a.aborts == b.aborts && EndsMarked(a.sent) && EndsMarked(b.sent)
  {
    hide Execute, SessionLog, TargetReplies;
    if n == 0 {
      assert requests[..0] == [] && levels[..0] == [];
      NothingLogged(start);
    } else {
      FewerTransfers(start, requests, levels, n - 1);
      OneMoreLogged(start, requests, levels, levels, n - 1);
      ArmedMore(requests[n - 1], SessionOf(start, requests[..n - 1], levels[..n - 1]).armed, levels[n - 1]);
    }
  }

  /** Two streams of whole replies that are equal end with the same reply. */
  lemma SameLast(x: seq<Octet>, y: seq<Octet>, a: seq<byte>, b: seq<byte>)
    requires EndsMarked(x) && EndsMarked(y) && a != [] && b != []
    requires x + Mark(a) == y + Mark(b)
    ensures x == y && a == b
  {
    var (u, v) := (x + Mark(a), y + Mark(b));
    Boundary(x, a, |y| - 1);
    Boundary(y, b, |x| - 1);
    assert |u| == |x| + |a| && |v| == |y| + |b|;
    assert x == u[..|x|] && y == v[..|y|];
    assert Mark(a) == u[|x|..] && Mark(b) == v[|y|..];
    MarkInjective(a, b);
  }

  /** Where last flags can and cannot be. */
  lemma Boundary(x: seq<Octet>, a: seq<byte>, k: int)
    requires EndsMarked(x)
    ensures |x| <= k < |x| + |a| - 1 ==> !(x + Mark(a))[k].last
    ensures x != [] ==> (x + Mark(a))[|x| - 1].last
  {
  }

  /** With each level armed again before its request, the last word on it: the same octets and counts at
      the end exactly when nothing left over from before ever changes a request's effect. */
  lemma LeftoversMatchIff(start: Forces, requests: seq<seq<byte>>, levels: seq<Forces>)
    requires |requests| == |levels|
    ensures SessionLog(start, requests, levels) == TargetReplies(requests, levels)
       <==> SameEffects(start, requests, levels, levels, |requests|)
  {
    hide EffectOf, Execute, ArmedAt, SessionLog, TargetReplies;
    var n := |requests|;
    assert requests[..n] == requests && levels[..n] == levels;
    SessionMatchesIff(start, requests, levels, levels, n);
    if SessionLog(start, requests, levels) == TargetReplies(requests, levels) {
      StayedInStep(start, requests, levels, n);
    }
  }

  lemma {:induction false} StayedInStep(start: Forces, requests: seq<seq<byte>>, levels: seq<Forces>, n: nat)
    requires |requests| == |levels| && n <= |requests|
    requires SessionLog(start, requests[..n], levels[..n]) == TargetReplies(requests[..n], levels[..n])
    ensures InStep(start, requests, levels, levels, n)
  {
    hide Execute, SessionLog, TargetReplies;
    if n > 0 {
      var (x, y) := (SessionLog(start, requests[..n - 1], levels[..n - 1]), TargetReplies(requests[..n - 1], levels[..n - 1]));
      OneMoreLogged(start, requests, levels, levels, n - 1);
      FewerTransfers(start, requests, levels, n - 1);
      ArmedMore(requests[n - 1], SessionOf(start, requests[..n - 1], levels[..n - 1]).armed, levels[n - 1]);
      var (a, b) := (Execute(requests[n - 1], ArmedAt(start, requests, levels, n - 1)), Execute(requests[n - 1], levels[n - 1]));
      if a.Ok? {
        SameLast(x.sent, y.sent, a.value.bytes, b.value.bytes);
      }
      StayedInStep(start, requests, levels, n - 1);
    }
  }

  /** The engine against a run of the target, on requests both accept: with the target armed as it likes,
      the engine has sent the target's replies if on each request what is armed has the effect of the
      level the engine saw; and if each level is armed before its request, only if. */
  lemma EngineRefinesSession(requestMem: seq<byte>, responseMem: seq<byte>, inputs: seq<Input>, start: Forces, arms: seq<Forces>)
    requires |requestMem| == MAX_PACKET && |responseMem| == MAX_RESPONSE
    requires var t := Run(Reset(requestMem, responseMem), inputs);
             && |arms| == |t.forces| <= |RequestsOf(t.received).complete|
             && forall j :: 0 <= j < |arms| ==> Agreeing(RequestsOf(t.received).complete[j], t.forces[j])
    ensures var t := Run(Reset(requestMem, responseMem), inputs);
            var (s, n) := (t.state, |arms|);
            var q := RequestsOf(t.received).complete[..n];
            && (SameEffects(start, q, arms, t.forces, n) ==>
                  && (s.phase == Capture || s.phase == Prepare ==>
                        SessionLog(start, q, arms) == Log(t.sent, s.transferCount, s.abortCount))
                  && t.sent <= SessionLog(start, q, arms).sent)
            && (s.phase == Capture || s.phase == Prepare ==>
                  (SessionLog(start, q, t.forces) == Log(t.sent, s.transferCount, s.abortCount)
                   <==> SameEffects(start, q, t.forces, t.forces, n)))
  {
    hide Run, Agreeing, RequestsOf, TargetReplies, SessionLog, SameEffects;
    EngineRefinesTarget(requestMem, responseMem, inputs);
    var t := Run(Reset(requestMem, responseMem), inputs);
    var n := |arms|;
    var q := RequestsOf(t.received).complete[..n];
    SessionMatchesIff(start, q, arms, t.forces, n);
    LeftoversMatchIff(start, q, t.forces);
    assert q[..n] == q && arms[..n] == arms && t.forces[..n] == t.forces;
  }

  /** The conditions are one-shot in the target and levels in the register block: a wait set once in
      DAP_CONTROL makes the target refuse one transfer request, and the engine every one. */
  lemma WaitOnceAgainstLevel()
    ensures var (r, wait) := ([0x05, 0, 0], Forces(true, false, false));
            && Agreeing(r, wait)
            && SessionOf(UNARMED, [r, r], [wait, UNARMED]).replies == [[0x05, 0, 0x02], [0x05, 0, 0x01]]
            && TargetReplies([r, r], [wait, wait]) == Log(Marked([[0x05, 0, 0x02], [0x05, 0, 0x02]]), 0, 0)
  {
    var r: seq<byte>, wait := [0x05, 0, 0], Forces(true, false, false);
    var first := SessionOf(UNARMED, [r], [wait]);
    assert SessionOf(UNARMED, [], []) == History([], 0, 0, UNARMED);
    assert [r][..0] == [] && [wait][..0] == [];
    assert [r, r][..1] == [r] && [wait, UNARMED][..1] == [wait] && [wait, wait][..1] == [wait];
    assert first == History([[0x05, 0, 0x02]], 0, 0, UNARMED);
    assert Execute(r, UNARMED).value.bytes == [0x05, 0, 0x01];
    var sent: seq<byte> := [0x05, 0, 0x02];
    assert [sent, sent][..1] == [sent] && [sent][..0] == [];
    assert [r, r][..1][..0] == [] && [wait, wait][..1][..0] == [];
    assert TargetReplies([r], [wait]) == Log(Marked([sent]), 0, 0) by {
      assert TargetReplies([], []) == Log([], 0, 0);
    }
  }

  // ---- The registers ----

  /** Counting an abort and replying are independent. */
  lemma ReplyingCounts(s: State, bytes: seq<byte>, aborts: nat)
    ensures Replying(s.(abortCount := aborts), bytes) == Replying(s, bytes).(abortCount := aborts)
  {
    hide Overwrite;
  }

  lemma FinishedCounts(s: State)
    ensures var n := Finished(s, true);
            n.transferCount == s.transferCount && n.completed == s.completed && n.index == s.index
  {
    hide Store;
  }

  class Registers {
    const requestMem: array<byte>
    const responseMem: array<byte>
    var phase: Phase
    var requestPos: nat
    var requestLength: nat
    var responsePos: nat
    var responseLength: nat
    var index: nat
    var pos: nat
    var outputIndex: nat
    var completed: nat
    var readAddress: nat
    var readData: byte
    var command: byte
    var argument: byte
    var count: byte
    var data: byte
    var complete: bool
    var transferCount: nat
    var abortCount: nat

    ghost predicate Valid()
      reads this
    {
      requestMem.Length == MAX_PACKET && responseMem.Length == MAX_RESPONSE && requestMem != responseMem
    }

    ghost function Now(): State
      reads this, requestMem, responseMem
    {
      State(phase, requestMem[..], responseMem[..], requestPos, requestLength, responsePos, responseLength,
            index, pos, outputIndex, completed, readAddress, readData, command, argument, count, data,
            complete, transferCount, abortCount)
    }

    constructor ()
      ensures Valid() && Now() == Reset(requestMem[..], responseMem[..])
    {
      requestMem := new byte[MAX_PACKET](_ => 0);
      responseMem := new byte[MAX_RESPONSE](_ => 0);
      phase, requestPos, requestLength, responsePos, responseLength := Capture, 0, 0, 0, 0;
      index, pos, outputIndex, completed, readAddress, readData := 0, 0, 0, 0, 0, 0;
      command, argument, count, data := 0, 0, 0, 0;
      complete, transferCount, abortCount := false, 0, 0;
    }

    static method Write(mem: array<byte>, at: nat, value: byte)
      modifies mem
      ensures mem[..] == Store(old(mem[..]), at, value)
    {
      if at < mem.Length {
        mem[at] := value;
      }
    }

    /** One clock; the memory's read port is read before anything is written. */
    method Clock(i: Input)
      requires Valid()
      modifies this, requestMem, responseMem
      ensures Valid() && Now() == Step(old(Now()), i)
    {
      var read := ReadPort();
      hide Overwrite, Captured, Prepared, Built, Sent, Bytes.Fetch;
      if phase == Build {
        BuildClock();
        complete, readData := false, read;
      } else {
        complete, readData := false, read;
        if phase == Capture {
          if i.valid && requestPos < MAX_PACKET {
            CaptureClock(i);
          }
        } else if phase == Prepare {
          PrepareClock(i.forces);
        } else if phase == Fetch {
          phase := Build;
        } else if i.ready {
          RespondClock();
        }
      }
    }

    method ReadPort() returns (read: byte)
      ensures read == Bytes.Fetch(requestMem[..], readAddress)
    {
      read := if readAddress < requestMem.Length then requestMem[readAddress] else 0;
    }

    method CaptureClock(i: Input)
      requires Valid() && phase == Capture
      modifies this, requestMem
      ensures Valid() && Now() == Captured(old(Now()), i)
    {
      hide Store;
      var p := requestPos;
      Headers(p, i.data);
      if i.last {
        requestLength, requestPos, phase := p + 1, 0, Prepare;
      } else {
        requestPos := p + 1;
      }
      Write(requestMem, p, i.data);
    }

    /** The first four bytes are kept apart as well. */
    method Headers(p: nat, b: byte)
      modifies this`command, this`argument, this`count, this`data
      ensures command == if p == 0 then b else old(command)
      ensures argument == if p == 1 then b else old(argument)
      ensures count == if p == 2 then b else old(count)
      ensures data == if p == 3 then b else old(data)
    {
      if p == 0 {
        command := b;
      } else if p == 1 {
        argument := b;
      } else if p == 2 {
        count := b;
      } else if p == 3 {
        data := b;
      }
    }

    /** The first bytes of the response memory. */
    method Put(bytes: seq<byte>)
      requires Valid() && |bytes| <= MAX_RESPONSE
      modifies responseMem
      ensures responseMem[..] == Overwrite(old(responseMem[..]), bytes)
    {
      forall k | 0 <= k < |bytes| {
        responseMem[k] := bytes[k];
      }
    }

    method Reply(bytes: seq<byte>)
      requires Valid() && |bytes| <= MAX_RESPONSE
      modifies this, responseMem
      ensures Valid() && Now() == Replying(old(Now()), bytes)
    {
      hide Overwrite;
      Put(bytes);
      responsePos, responseLength, phase := 0, |bytes|, Respond;
    }

    method PrepareClock(f: Forces)
      requires Valid() && phase == Prepare
      modifies this, responseMem
      ensures Valid() && Now() == Prepared(old(Now()), f)
    {
      hide Replying, Overwrite;
      if command == 0x05 {
        PrepareTransfer(f);
      } else if command == 0x07 || command == 0x08 {
        ReplyingCounts(Now(), [command, 0], abortCount + 1);
        abortCount := abortCount + 1;
        Reply([command, 0]);
      } else {
        PrepareOther(f);
      }
    }

    method PrepareOther(f: Forces)
      requires Valid() && phase == Prepare && command != 0x05 && command != 0x07 && command != 0x08
      modifies this, responseMem
      ensures Valid() && Now() == Prepared(old(Now()), f)
    {
      hide Replying, Overwrite;
      var n := requestLength;
      Reply(if command == 0x00 then if n > 1 && argument == 1 then [0x00, 7] + ORBCODE else [0x00, 0]
            else if command == 0x02 then [0x02, if n > 1 then argument % 4 else 0]
            else if command == 0x10 then [0x10, if n > 1 then argument else 0]
            else if command == 0x14 then [0x14, 0, if n > 3 then FlipBit0(data) else 0]
            else [command, 0xff]);
    }

    method PrepareTransfer(f: Forces)
      requires Valid() && phase == Prepare && command == 0x05
      modifies this, responseMem
      ensures Valid() && Now() == Prepared(old(Now()), f)
    {
      hide Replying, Overwrite;
      if requestLength < 3 || count > MAX_TRANSFERS {
        Reply([0x05, 0, 0x04]);
      } else if f.wait {
        Reply([0x05, 0, 0x02]);
      } else if f.fault {
        Reply([0x05, 0, 0x04]);
      } else {
        StartList();
        Put([0x05, 0, if f.parity then 0x09 else 0x01]);
      }
    }

    method StartList()
      modifies this`responsePos, this`outputIndex, this`index, this`pos, this`readAddress, this`completed, this`phase
      ensures responsePos == 0 && outputIndex == 3 && index == 0 && pos == 3 && readAddress == 3 && completed == 0
      ensures phase == Fetch
    {
      responsePos, outputIndex, index, pos, readAddress, completed, phase := 0, 3, 0, 3, 3, 0, Fetch;
    }

    method Finish(truncated: bool)
      requires Valid()
      modifies this, responseMem
      ensures Valid() && Now() == Finished(old(Now()), truncated)
    {
      hide Store;
      Write(responseMem, 1, completed % 256);
      if truncated {
        Write(responseMem, 2, 0x04);
      }
      responseLength, phase := outputIndex, Respond;
    }

    method BuildClock()
      requires Valid() && phase == Build
      modifies this, responseMem
      ensures Valid() && Now() == Built(old(Now()))
    {
      hide Store;
      if index >= count {
        Finish(false);
      } else if pos >= requestLength {
        Finish(true);
      } else {
        Transfer();
      }
    }

    /** One transfer started. */
    method Transfer()
      requires Valid() && phase == Build && index < count && pos < requestLength
      modifies this, responseMem
      ensures Valid() && Now() == Built(old(Now()))
    {
      hide Store, Finished, IsRead;
      var again := if index + 1 < count then Fetch else Build;
      if IsRead(readData) {
        var at := outputIndex;
        Next(at + 4, pos + 1, again);
        PutRead(at);
      } else if pos + 4 < requestLength {
        Next(outputIndex, pos + 5, again);
      } else {
        CutShort();
      }
    }

    method CutShort()
      requires Valid()
      modifies this, responseMem
      ensures Valid()
      ensures Now() == Finished(old(Now()), true).(transferCount := old(transferCount) + 1, completed := old(completed) + 1,
                                                   index := old(index) + 1)
    {
      hide Finished;
      FinishedCounts(Now());
      Finish(true);
      Counted();
    }

    method Next(output: nat, position: nat, next: Phase)
      modifies this`outputIndex, this`pos, this`readAddress, this`phase, this`transferCount, this`completed, this`index
      ensures outputIndex == output && pos == position && readAddress == position && phase == next
      ensures transferCount == old(transferCount) + 1 && completed == old(completed) + 1 && index == old(index) + 1
    {
      outputIndex, pos, readAddress, phase := output, position, position, next;
      Counted();
    }

    method Counted()
      modifies this`transferCount, this`completed, this`index
      ensures transferCount == old(transferCount) + 1 && completed == old(completed) + 1 && index == old(index) + 1
    {
      transferCount, completed, index := transferCount + 1, completed + 1, index + 1;
    }

    method PutRead(at: nat)
      modifies responseMem
      ensures responseMem[..] == Store(Store(Store(Store(old(responseMem[..]), at, readData), at + 1, 0), at + 2, 0xa5), at + 3, 0xa5)
    {
      hide Store;
      Write(responseMem, at, readData);
      Write(responseMem, at + 1, 0);
      Write(responseMem, at + 2, 0xa5);
      Write(responseMem, at + 3, 0xa5);
    }

    method RespondClock()
      requires Valid() && phase == Respond
      modifies this
      ensures Valid() && Now() == Sent(old(Now()))
    {
      if responsePos + 1 == responseLength {
        phase := Capture;
        responsePos := 0;
        complete := true;
      } else {
        responsePos := responsePos + 1;
      }
    }
  }
}
