/** The debug mailbox: the register block's one-byte command and response holds between the
    firmware and the engine, and the firmware's exchange over them.

    One clock steps the register block and the engine together.  A register access is one clock;
    any number of clocks passes between two accesses. */
module DapMailbox {
  import Arith
  import opened Bytes
  import opened SyntheticDap
  import E = DapEngine

  const DAP_COMMAND := 0x80
  const DAP_RESPONSE := 0x84
  const DAP_STATUS := 0x88
  const DAP_CONTROL := 0x8c

  datatype Mailbox = Mailbox(commandData: byte, commandLast: bool, commandValid: bool,
                             hold: byte, holdLast: bool, holdValid: bool, forces: Forces)

  datatype BusOp = Quiet | Write(address: nat, value: nat) | Read(address: nat)

  function Bit(value: nat, mask: nat): bool
    requires mask > 0
  {
    value / mask % 2 == 1
  }

  /** What a read captures: status bits, or the held response byte with its flags above it. */
  function ReadData(m: Mailbox, address: nat): nat {
    if address == DAP_STATUS then
      (if m.holdValid then 2 else 0) + (if m.commandValid then 0 else 1)
    else if address == DAP_RESPONSE then
      var held: int := m.hold;
      held + (if m.holdValid then 0x100 else 0) + (if m.holdLast then 0x200 else 0)
    else if address == DAP_CONTROL then
      (if m.forces.wait then 1 else 0) + (if m.forces.fault then 2 else 0) + (if m.forces.parity then 4 else 0)
    else 0
  }

  /** The later assignments of a clock override the earlier ones. */
  function RegsStep(m: Mailbox, op: BusOp, commandReady: bool, responseValid: bool, response: E.Octet): Mailbox {
    var taken := if m.commandValid && commandReady then m.(commandValid := false) else m;
    var filled := if responseValid && !m.holdValid
                  then taken.(hold := response.data, holdLast := response.last, holdValid := true) else taken;
    match op
    case Quiet => filled
    case Write(address, value) =>
      if address == DAP_COMMAND && !m.commandValid then
        filled.(commandData := value % 256, commandLast := Bit(value, 0x100), commandValid := true)
      else if address == DAP_CONTROL then
        filled.(forces := Forces(Bit(value, 1), Bit(value, 2), Bit(value, 4)))
      else filled
    case Read(address) =>
      if address == DAP_RESPONSE then filled.(holdValid := false) else filled
  }

  lemma BitMasks(value: nat)
    ensures Bit(value, 1) == (Arith.And(value, 1) != 0) && Bit(value, 2) == (Arith.And(value, 2) != 0)
    ensures Bit(value, 4) == (Arith.And(value, 4) != 0)
    ensures Arith.And(value, 7)
         == (if Bit(value, 1) then 1 else 0) + (if Bit(value, 2) then 2 else 0) + (if Bit(value, 4) then 4 else 0)
  {
    Arith.AndOne(value);
    Arith.AndTwo(value);
    Arith.AndEven(value, 2);
    Arith.AndTwo(value / 2);
    assert value / 2 / 2 == value / 4;
    Arith.AndLow(value, 3);
    assert Arith.Pow2(3) == 8;
    hide Arith.And;
  }

  /** The conditions are the three low bits of the word written to the control register; they read back, and
      nothing else on the bus or from the engine changes them. */
  lemma ControlHolds(m: Mailbox, op: BusOp, commandReady: bool, responseValid: bool, response: E.Octet)
    ensures var n := RegsStep(m, op, commandReady, responseValid, response);
            if op.Write? && op.address == DAP_CONTROL
            then n.forces == Forces(Arith.And(op.value, 1) != 0, Arith.And(op.value, 2) != 0, Arith.And(op.value, 4) != 0)
                 && ReadData(n, DAP_CONTROL) == Arith.And(op.value, 7)
            else n.forces == m.forces && ReadData(n, DAP_CONTROL) == ReadData(m, DAP_CONTROL)
  {
    if op.Write? {
      BitMasks(op.value);
    }
    hide Bit, Arith.And;
  }

  class Registers {
    var commandData: byte
    var commandLast: bool
    var commandValid: bool
    var responseHold: byte
    var responseHoldLast: bool
    var responseHoldValid: bool
    var forces: Forces

    ghost function Now(): Mailbox
      reads this
    {
      Mailbox(commandData, commandLast, commandValid, responseHold, responseHoldLast, responseHoldValid, forces)
    }

    constructor ()
      ensures Now() == Mailbox(0, false, false, 0, false, false, Forces(false, false, false))
    {
      commandData, commandLast, commandValid := 0, false, false;
      responseHold, responseHoldLast, responseHoldValid := 0, false, false;
      forces := Forces(false, false, false);
    }

    /** One clock, with the word a read captures. */
    method Clock(op: BusOp, commandReady: bool, responseValid: bool, response: E.Octet) returns (word: nat)
      modifies this
      ensures Now() == RegsStep(old(Now()), op, commandReady, responseValid, response)
      ensures op.Read? ==> word == ReadData(old(Now()), op.address)
    {
      hide Bit, ReadData;
      var valid, held := commandValid, responseHoldValid;
      word := 0;
      if op.Read? {
        word := ReadMux(op.address);
      }
      if valid && commandReady {
        commandValid := false;
      }
      if responseValid && !held {
        responseHold, responseHoldLast, responseHoldValid := response.data, response.last, true;
      }
      if op.Write? && op.address == DAP_COMMAND && !valid {
        commandData, commandLast, commandValid := op.value % 256, Bit(op.value, 0x100), true;
      } else if op.Write? && op.address == DAP_CONTROL {
        forces := Forces(Bit(op.value, 1), Bit(op.value, 2), Bit(op.value, 4));
      } else if op.Read? && op.address == DAP_RESPONSE {
        responseHoldValid := false;
      }
    }

    method ReadMux(address: nat) returns (word: nat)
      ensures word == ReadData(Now(), address)
    {
      if address == DAP_STATUS {
        word := (if responseHoldValid then 2 else 0) + (if commandValid then 0 else 1);
      } else if address == DAP_RESPONSE {
        var octet: int := responseHold;
        word := octet + (if responseHoldValid then 0x100 else 0) + (if responseHoldLast then 0x200 else 0);
      } else if address == DAP_CONTROL {
        word := (if forces.wait then 1 else 0) + (if forces.fault then 2 else 0) + (if forces.parity then 4 else 0);
      } else {
        word := 0;
      }
    }
  }

  datatype System = System(m: Mailbox, t: E.Trace)

  function Clock(s: System, op: BusOp): System {
    var e := s.t.state;
    System(RegsStep(s.m, op, E.CommandReady(e), E.ResponseValid(e), E.ResponseOctet(e)),
           E.Advance(s.t, E.Input(s.m.commandValid, s.m.commandData, s.m.commandLast, !s.m.holdValid, s.m.forces)))
  }

  function Pending(m: Mailbox): seq<E.Octet> {
    if m.commandValid then [E.Octet(m.commandData, m.commandLast)] else []
  }

  function Held(m: Mailbox): seq<E.Octet> {
    if m.holdValid then [E.Octet(m.hold, m.holdLast)] else []
  }

  /** The octet a bus operation puts into the command hold: a full hold ignores the write, even on
      the clock on which the engine empties it. */
  function Accepted(m: Mailbox, op: BusOp): seq<E.Octet> {
    if op.Write? && op.address == DAP_COMMAND && !m.commandValid
    then [E.Octet(op.value % 256, Bit(op.value, 0x100))] else []
  }

  /** The octet a bus operation takes out of the response hold. */
  function Fetched(m: Mailbox, op: BusOp): seq<E.Octet> {
    if op == Read(DAP_RESPONSE) then Held(m) else []
  }

  /** No byte is lost or invented on either side: the octets written are those the engine took and
      the one pending; the octets the engine sent are those read and the one held. */
  ghost predicate Lossless(s: System, written: seq<E.Octet>, taken: seq<E.Octet>) {
    s.t.received + Pending(s.m) == written && s.t.sent == taken + Held(s.m)
  }

  lemma CommandSide(m: Mailbox, op: BusOp, ready: bool, responseValid: bool, response: E.Octet)
    ensures (if m.commandValid && ready then Pending(m) else []) + Pending(RegsStep(m, op, ready, responseValid, response))
         == Pending(m) + Accepted(m, op)
  {
  }

  lemma ResponseSide(m: Mailbox, op: BusOp, ready: bool, responseValid: bool, response: E.Octet)
    ensures Fetched(m, op) + Held(RegsStep(m, op, ready, responseValid, response))
         == Held(m) + (if responseValid && !m.holdValid && op != Read(DAP_RESPONSE) then [response] else [])
  {
  }

  lemma Regroup<T>(a: seq<T>, x: seq<T>, y: seq<T>, u: seq<T>, v: seq<T>)
    requires x + y == u + v
    ensures a + x + y == a + u + v
  {
    assert a + x + y == a + (x + y) && a + u + v == a + (u + v);
  }

  /** One clock loses nothing, whatever the bus and the engine do, with one exception: a response
      read of an empty hold on the very clock on which the engine fills it. */
  lemma ClockKeepsIff(s: System, op: BusOp, written: seq<E.Octet>, taken: seq<E.Octet>)
    requires Lossless(s, written, taken)
    ensures Lossless(Clock(s, op), written + Accepted(s.m, op), taken + Fetched(s.m, op))
       <==> !(op == Read(DAP_RESPONSE) && !s.m.holdValid && E.ResponseValid(s.t.state))
  {
    var (m, e, n) := (s.m, s.t.state, Clock(s, op));
    var (ready, valid, octet) := (E.CommandReady(e), E.ResponseValid(e), E.ResponseOctet(e));
    CommandSide(m, op, ready, valid, octet);
    ResponseSide(m, op, ready, valid, octet);
    var came := if m.commandValid && ready then Pending(m) else [];
    var filled := if valid && !m.holdValid then [octet] else [];
    var race := op == Read(DAP_RESPONSE) && !m.holdValid && valid;
    assert n.t.received == s.t.received + came && n.t.sent == s.t.sent + filled by {
      hide E.Step, RegsStep;
    }
    hide RegsStep, E.Advance, E.Step, Accepted, Pending, E.CommandReady, E.ResponseValid, E.ResponseOctet;
    Regroup(s.t.received, came, Pending(n.m), Pending(m), Accepted(m, op));
    if race {
      assert |n.t.sent| == |taken| + 1 && |taken + Fetched(m, op) + Held(n.m)| == |taken|;
    } else {
      Regroup(taken, Held(m), filled, Fetched(m, op), Held(n.m));
    }
  }

  // ---- One exchange ----

  /** Everything taken in has been answered, and both holds are empty. */
  ghost predicate Idle(s: System) {
    && E.Inv(s.t) && s.t.state.phase == E.Capture && E.RequestsOf(s.t.received).open == []
    && !s.m.commandValid && !s.m.holdValid
  }

  /** Where an exchange started, what it asks and the forces armed for it. */
  datatype Session = Session(written: seq<E.Octet>, taken: seq<E.Octet>, forces: seq<Forces>,
                             request: seq<byte>, force: Forces)

  function Asked(x: Session): seq<E.Octet> {
    x.written + E.Mark(x.request)
  }

  function Answered(x: Session): seq<E.Octet> {
    x.taken + E.Mark(E.EngineAnswer(x.request, x.force).bytes)
  }

  ghost predicate Started(x: Session) {
    var q := E.RequestsOf(x.written);
    && x.request != [] && q.open == [] && |q.complete| == |x.forces|
    && E.Replies(q.complete, x.forces).sent == x.taken
  }

  /** The engine has taken part of this request and nothing after it. */
  ghost predicate Exchange(t: E.Trace, x: Session) {
    && Started(x) && E.Inv(t) && x.written <= t.received <= Asked(x)
    && if t.received == Asked(x)
       then |x.request| <= MAX_PACKET
            && t.forces == if t.state.phase == E.Prepare then x.forces else x.forces + [x.force]
       else t.state.phase == E.Capture && t.forces == x.forces
  }

  /** A request part-way in. */
  lemma {:induction false} PartWay(written: seq<E.Octet>, request: seq<byte>, j: nat)
    requires E.RequestsOf(written).open == [] && j <= |request|
    ensures E.RequestsOf(written + E.Mark(request)[..j])
         == if 0 < j == |request| then E.Requests(E.RequestsOf(written).complete + [request], [])
            else E.Requests(E.RequestsOf(written).complete, request[..j])
  {
    var m := E.Mark(request);
    if j == 0 {
      assert written + m[..0] == written;
    } else {
      PartWay(written, request, j - 1);
      var s := written + m[..j];
      assert s[..|s| - 1] == written + m[..j - 1] && s[|s| - 1] == m[j - 1];
      assert request[..j - 1] + [request[j - 1]] == request[..j];
      assert j == |request| ==> request[..j] == request;
    }
  }

  /** What the engine has taken, as a count of the request's octets. */
  lemma Taken(t: E.Trace, x: Session) returns (j: nat)
    requires Exchange(t, x)
    ensures j <= |x.request| && t.received == x.written + E.Mark(x.request)[..j]
    ensures j == |x.request| <==> t.received == Asked(x)
    ensures E.RequestsOf(t.received)
         == if j == |x.request| then E.Requests(E.RequestsOf(x.written).complete + [x.request], [])
            else E.Requests(E.RequestsOf(x.written).complete, x.request[..j])
  {
    hide E.Inv, E.EngineAnswer;
    var m := E.Mark(x.request);
    j := |t.received| - |x.written|;
    assert t.received == Asked(x)[..|t.received|] == x.written + m[..j];
    assert j == |m| ==> m[..j] == m;
    PartWay(x.written, x.request, j);
  }

  /** A clock of the engine, fed nothing but the next octet of this request. */
  lemma AdvanceKeeps(t: E.Trace, x: Session, i: E.Input)
    requires Exchange(t, x) && i.forces == x.force
    requires i.valid ==> t.received + [E.Octet(i.data, i.last)] <= Asked(x)
    ensures Exchange(E.Advance(t, i), x)
  {
    hide E.RequestsOf, E.Replies, E.EngineAnswer, E.Holds, E.Working;
    E.StepKeeps(t, i);
    var j := Taken(t, x);
    var n := E.Advance(t, i);
    if i.valid && E.CommandReady(t.state) {
      assert n.received[j + |x.written|] == E.Mark(x.request)[j];
      assert |x.request[..j]| == t.state.requestPos;
      hide E.Inv;
      assert n.state.phase == if i.last then E.Prepare else E.Capture;
      assert j + 1 == |x.request| ==> n.received == Asked(x);
    } else if t.received != Asked(x) {
      hide E.Inv, E.RequestsOf, E.Replies, E.EngineAnswer;
    } else {
      WorkOn(t, x, i);
    }
  }

  /** The request in, the engine works on it until it is idle again. */
  lemma WorkOn(t: E.Trace, x: Session, i: E.Input)
    requires Exchange(t, x) && i.forces == x.force && t.received == Asked(x)
    requires !(i.valid && E.CommandReady(t.state)) && E.Inv(E.Advance(t, i))
    ensures E.Advance(t, i).forces == if E.Step(t.state, i).phase == E.Prepare then x.forces else x.forces + [x.force]
  {
    var n := E.Advance(t, i);
    hide E.Replies, E.EngineAnswer, E.RequestsOf, E.Working, E.Holds, E.Prepared, E.Built;
    assert n.received == t.received;
  }

  lemma AnswerNotEmpty(request: seq<byte>, f: Forces)
    requires request != []
    ensures |E.EngineAnswer(request, f).bytes| > 0
  {
  }

  /** The engine with the whole request: it has sent part of the answer, or all of it and is idle. */
  lemma SendsWhole(t: E.Trace, x: Session)
    requires Exchange(t, x) && t.received == Asked(x)
    requires E.RequestsOf(t.received) == E.Requests(E.RequestsOf(x.written).complete + [x.request], [])
    ensures x.taken <= t.sent <= Answered(x)
    ensures t.sent == Answered(x) ==> t.state.phase == E.Capture
  {
    AnswerNotEmpty(x.request, x.force);
    var c := E.RequestsOf(x.written).complete;
    var all, n := c + [x.request], |c|;
    assert all[..n] == c && all[..|all| - 1] == c && all[n] == x.request;
    hide E.EngineAnswer, E.RequestsOf, E.Holds, E.Transferring, Started;
    var m := E.Mark(E.EngineAnswer(x.request, x.force).bytes);
    if t.state.phase == E.Prepare {
      hide E.Replies;
      assert t.forces[..n] == x.forces && t.sent == x.taken;
      assert |Answered(x)| == |x.taken| + |m|;
    } else {
      assert t.forces[..n] == x.forces && t.forces[n] == x.force;
      if t.state.phase == E.Capture {
        assert t.sent == x.taken + m;
      } else {
        hide E.Replies;
        assert t.sent == x.taken + m[..t.state.responsePos] || t.sent == x.taken;
        assert |Answered(x)| == |x.taken| + |m|;
      }
    }
  }

  /** What the engine has sent. */
  lemma SendsAnswer(t: E.Trace, x: Session)
    requires Exchange(t, x)
    ensures x.taken <= t.sent <= Answered(x)
    ensures t.received != Asked(x) ==> t.sent == x.taken
    ensures t.sent == Answered(x) ==> t.received == Asked(x) && t.state.phase == E.Capture
  {
    var j := Taken(t, x);
    hide E.EngineAnswer, E.RequestsOf, E.Holds, E.Working;
    if j == |x.request| {
      SendsWhole(t, x);
    } else {
      AnswerNotEmpty(x.request, x.force);
      assert |Answered(x)| > |x.taken|;
    }
  }

  /** An exchange with `k` octets written and `length` read, in the system as a whole. */
  ghost predicate Underway(s: System, x: Session, k: nat, length: nat) {
    var a := E.EngineAnswer(x.request, x.force).bytes;
    && k <= |x.request| && length <= |a|
    && Exchange(s.t, x) && s.m.forces == x.force
    && Lossless(s, x.written + E.Mark(x.request)[..k], x.taken + E.Mark(a)[..length])
  }

  /** The bus operations of an exchange: waiting, polling, the next command octet into an empty
      hold, a read of a full one. */
  predicate Polite(s: System, x: Session, k: nat, op: BusOp) {
    match op
    case Quiet => true
    case Read(address) => address == DAP_STATUS || (address == DAP_RESPONSE && s.m.holdValid)
    case Write(address, value) =>
      && address == DAP_COMMAND && !s.m.commandValid && k < |x.request|
      && E.Octet(value % 256, Bit(value, 0x100)) == E.Mark(x.request)[k]
  }

  lemma Grown<T>(base: seq<T>, m: seq<T>, k: nat)
    requires k < |m|
    ensures base + m[..k] + [m[k]] == base + m[..k + 1]
  {
    assert m[..k + 1] == m[..k] + [m[k]];
    Regroup(base, m[..k], [m[k]], m[..k + 1], []);
  }

  /** The pending octet is the next of the request. */
  lemma PendingIsNext(s: System, x: Session, k: nat, taken: seq<E.Octet>)
    requires k <= |x.request| && Lossless(s, x.written + E.Mark(x.request)[..k], taken)
    ensures s.m.commandValid ==> s.t.received + [E.Octet(s.m.commandData, s.m.commandLast)] <= Asked(x)
  {
    var m := E.Mark(x.request);
    assert Asked(x) == x.written + m[..k] + m[k..];
  }

  /** The held octet is the next of the answer. */
  lemma HeldIsNext(s: System, taken: seq<E.Octet>, a: seq<E.Octet>, length: nat)
    requires length <= |a| && s.t.sent == taken + a[..length] + Held(s.m) && s.t.sent <= taken + a && s.m.holdValid
    ensures length < |a| && E.Octet(s.m.hold, s.m.holdLast) == a[length]
  {
    assert s.t.sent[|taken| + length] == Held(s.m)[0];
  }

  lemma HoldFlags(s: System, op: BusOp)
    ensures Clock(s, op).m.forces == s.m.forces || (op.Write? && op.address == DAP_CONTROL)
    ensures !s.m.commandValid && !op.Write? ==> !Clock(s, op).m.commandValid
    ensures s.m.holdValid ==> Clock(s, op).m.holdValid == (op != Read(DAP_RESPONSE))
  {
    hide E.Advance, E.CommandReady, E.ResponseValid, E.ResponseOctet;
  }

  lemma ClockExchange(s: System, x: Session, k: nat, length: nat, op: BusOp)
    requires Underway(s, x, k, length)
    ensures Exchange(Clock(s, op).t, x)
  {
    hide Exchange, E.EngineAnswer, E.Advance, RegsStep;
    PendingIsNext(s, x, k, x.taken + E.Mark(E.EngineAnswer(x.request, x.force).bytes)[..length]);
    AdvanceKeeps(s.t, x, E.Input(s.m.commandValid, s.m.commandData, s.m.commandLast, !s.m.holdValid, s.m.forces));
  }

  /** What a polite bus operation adds to each side. */
  lemma Moves(s: System, x: Session, k: nat, length: nat, a: seq<E.Octet>, op: BusOp)
    requires length <= |a| && k <= |x.request| && Polite(s, x, k, op)
    requires op == Read(DAP_RESPONSE) ==> length < |a| && E.Octet(s.m.hold, s.m.holdLast) == a[length]
    ensures x.written + E.Mark(x.request)[..k] + Accepted(s.m, op)
         == x.written + E.Mark(x.request)[..if op.Write? then k + 1 else k]
    ensures x.taken + a[..length] + Fetched(s.m, op)
         == x.taken + a[..if op == Read(DAP_RESPONSE) then length + 1 else length]
  {
    var q := E.Mark(x.request);
    if op.Write? {
      Grown(x.written, q, k);
    } else if op == Read(DAP_RESPONSE) {
      Grown(x.taken, a, length);
    }
    hide E.Mark;
    assert x.written + q[..k] + [] == x.written + q[..k] && x.taken + a[..length] + [] == x.taken + a[..length];
  }

  /** A full response hold has the next octet of the answer. */
  lemma HoldsNext(s: System, x: Session, k: nat, length: nat)
    requires Underway(s, x, k, length) && s.m.holdValid
    ensures length < |E.EngineAnswer(x.request, x.force).bytes|
    ensures E.Octet(s.m.hold, s.m.holdLast) == E.Mark(E.EngineAnswer(x.request, x.force).bytes)[length]
  {
    hide Exchange, E.EngineAnswer;
    SendsAnswer(s.t, x);
    HeldIsNext(s, x.taken, E.Mark(E.EngineAnswer(x.request, x.force).bytes), length);
  }

  /** Any clock of an exchange keeps it, and moves each count by what the bus did. */
  lemma ClockUnderway(s: System, x: Session, k: nat, length: nat, op: BusOp)
    requires Underway(s, x, k, length) && Polite(s, x, k, op)
    ensures Underway(Clock(s, op), x, if op.Write? then k + 1 else k, if op == Read(DAP_RESPONSE) then length + 1 else length)
  {
    hide Exchange, E.EngineAnswer, Clock, Accepted, Fetched, E.ResponseValid, E.Mark;
    var q, a := E.Mark(x.request), E.Mark(E.EngineAnswer(x.request, x.force).bytes);
    if op == Read(DAP_RESPONSE) {
      HoldsNext(s, x, k, length);
    }
    ClockKeepsIff(s, op, x.written + q[..k], x.taken + a[..length]);
    ClockExchange(s, x, k, length, op);
    HoldFlags(s, op);
    Moves(s, x, k, length, a, op);
    hide Lossless;
  }

  // ---- How long it takes ----

  /** The most clocks from the last request octet pending to an answer octet held: taking it, preparing, two
      clocks for each of 32 transfers, and the first octet. */
  const LATENCY := 68

  function Building(e: E.State): nat {
    if e.index < e.count then 2 * (e.count - e.index) + 1 else 2
  }

  /** Clocks until an answer octet is held, at most. */
  function Left(s: System): nat {
    if s.m.holdValid then 0 else
    match s.t.state.phase
    case Capture => LATENCY
    case Prepare => LATENCY - 1
    case Fetch => Building(s.t.state) + 1
    case Build => Building(s.t.state)
    case Respond => 1
  }

  /** While the engine builds its answer, every clock brings it nearer. */
  lemma EngineFalls(e: E.State, i: E.Input)
    requires e.phase != E.Capture && e.phase != E.Respond
    ensures var n := E.Step(e, i);
            match e.phase
            case Prepare => n.phase == E.Respond || (n.phase == E.Fetch && Building(n) + 1 < LATENCY - 1)
            case Fetch => n.phase == E.Build && Building(n) == Building(e)
            case Build => n.phase == E.Respond || (n.phase == E.Fetch && Building(n) + 1 < Building(e))
                                               || (n.phase == E.Build && Building(n) < Building(e))
            case _ => false
  {
    hide E.Overwrite, Store;
  }

  /** An engine waiting for a command after the whole request has sent the whole answer. */
  lemma WaitingMeansAnswered(t: E.Trace, x: Session)
    requires Exchange(t, x) && t.received == Asked(x) && t.state.phase == E.Capture
    ensures t.sent == Answered(x)
  {
    var j := Taken(t, x);
    var c := E.RequestsOf(x.written).complete;
    hide E.RequestsOf, E.EngineAnswer, E.Holds, E.Working;
    assert (c + [x.request])[..|c|] == c && (x.forces + [x.force])[..|c|] == x.forces;
    E.AllReplied(c + [x.request], x.forces + [x.force], |c|);
  }

  /** A pending octet of the request is taken on the next clock. */
  lemma PendingIsTaken(s: System, x: Session, k: nat, length: nat)
    requires Underway(s, x, k, length) && |x.request| <= MAX_PACKET && s.m.commandValid
    ensures s.t.state.phase == E.Capture && E.CommandReady(s.t.state)
    ensures s.m.commandLast == (k == |x.request|)
  {
    var j := Taken(s.t, x);
    var q := E.Mark(x.request);
    assert |s.t.received + Pending(s.m)| == |x.written| + k;
    assert (s.t.received + Pending(s.m))[|s.t.received|] == q[..k][k - 1];
    hide E.RequestsOf, E.EngineAnswer, E.Replies, E.Working;
  }

  /** Waiting for room in the command hold: none after one clock. */
  lemma RoomAfterOne(s: System, x: Session, k: nat, length: nat, op: BusOp)
    requires Underway(s, x, k, length) && |x.request| <= MAX_PACKET && !op.Write?
    ensures !Clock(s, op).m.commandValid
  {
    if s.m.commandValid {
      PendingIsTaken(s, x, k, length);
    }
    hide Underway, E.Advance, E.ResponseValid, E.ResponseOctet;
  }

  /** Waiting for the next answer octet: every clock brings it nearer. */
  lemma LeftFalls(s: System, x: Session, length: nat, op: BusOp)
    requires Underway(s, x, |x.request|, length) && |x.request| <= MAX_PACKET
    requires length < |E.EngineAnswer(x.request, x.force).bytes|
    requires op == Quiet || op == Read(DAP_STATUS)
    ensures Left(Clock(s, op)) <= if Left(s) == 0 then 0 else Left(s) - 1
  {
    hide Underway, Clock, E.EngineAnswer, E.CommandReady;
    HoldFlags(s, op);
    if !s.m.holdValid {
      if s.t.state.phase == E.Capture {
        StillPending(s, x, length);
        PendingIsTaken(s, x, |x.request|, length);
        LastTaken(s, op);
      } else if s.t.state.phase == E.Respond {
        OctetHeld(s, op);
      } else {
        Nearer(s, op);
      }
    }
  }

  lemma LastTaken(s: System, op: BusOp)
    requires !s.m.holdValid && E.CommandReady(s.t.state) && s.m.commandValid && s.m.commandLast
    ensures Left(Clock(s, op)) < Left(s)
  {
    hide E.ResponseOctet, RegsStep, Store, Bytes.Fetch;
  }

  lemma OctetHeld(s: System, op: BusOp)
    requires !s.m.holdValid && s.t.state.phase == E.Respond && op != Read(DAP_RESPONSE)
    ensures Left(Clock(s, op)) == 0
  {
    hide E.Advance, E.ResponseOctet;
  }

  lemma Nearer(s: System, op: BusOp)
    requires !s.m.holdValid && s.t.state.phase != E.Capture && s.t.state.phase != E.Respond
    ensures Left(Clock(s, op)) < Left(s)
  {
    hide E.Step, RegsStep;
    EngineFalls(s.t.state, E.Input(s.m.commandValid, s.m.commandData, s.m.commandLast, !s.m.holdValid, s.m.forces));
  }

  /** An answer not yet whole, an engine waiting and no octet held: the request's last octet is pending. */
  lemma StillPending(s: System, x: Session, length: nat)
    requires Underway(s, x, |x.request|, length) && !s.m.holdValid && s.t.state.phase == E.Capture
    requires length < |E.EngineAnswer(x.request, x.force).bytes|
    ensures s.m.commandValid
  {
    hide E.EngineAnswer, E.Inv, Exchange;
    var q := E.Mark(x.request);
    assert q[..|x.request|] == q;
    assert |s.t.sent| == |x.taken| + length;
    assert !s.m.commandValid ==> s.t.received + [] == s.t.received;
    if s.t.received == Asked(x) {
      WaitingMeansAnswered(s.t, x);
    }
  }

  /** What a poll waits for: room for the next request octet, or the next answer octet. */
  predicate Coming(x: Session, k: nat, length: nat, mask: nat) {
    && |x.request| <= MAX_PACKET
    && (mask == 2 ==> k == |x.request| && length < |E.EngineAnswer(x.request, x.force).bytes|)
  }

  /** Clocks until it is there, at most. */
  function Due(s: System, mask: nat): (n: nat) {
    if mask == 2 then Left(s) else if s.m.commandValid then 1 else 0
  }

  lemma DueFalls(s: System, x: Session, k: nat, length: nat, mask: nat, op: BusOp)
    requires Underway(s, x, k, length) && Coming(x, k, length, mask)
    requires op == Quiet || op == Read(DAP_STATUS)
    ensures Due(Clock(s, op), mask) <= if Due(s, mask) == 0 then 0 else Due(s, mask) - 1
  {
    hide Underway, Clock, Left, E.EngineAnswer;
    if mask == 2 {
      LeftFalls(s, x, length, op);
    } else {
      RoomAfterOne(s, x, k, length, op);
    }
  }

  lemma NothingDue(s: System, mask: nat)
    ensures Due(s, mask) == 0 ==> if mask == 2 then s.m.holdValid else !s.m.commandValid
  {
  }

  lemma DueBounded(s: System, x: Session, k: nat, length: nat, mask: nat)
    requires Underway(s, x, k, length) && Coming(x, k, length, mask)
    ensures Due(s, mask) <= LATENCY
  {
    if s.t.state.phase == E.Fetch || s.t.state.phase == E.Build {
      CountBounded(s.t, x);
    }
    hide Underway;
  }

  lemma CountBounded(t: E.Trace, x: Session)
    requires Exchange(t, x) && (t.state.phase == E.Fetch || t.state.phase == E.Build)
    ensures t.state.count <= E.MAX_TRANSFERS
  {
    hide E.RequestsOf, E.EngineAnswer, E.Replies, E.Holds, TransfersFrom, Join;
  }

  // ---- The firmware's exchange ----

  function Waiting(s: System, clocks: nat): System {
    if clocks == 0 then s else Clock(Waiting(s, clocks - 1), Quiet)
  }

  lemma {:induction false} WaitingUnderway(s: System, x: Session, k: nat, length: nat, clocks: nat)
    requires Underway(s, x, k, length)
    ensures Underway(Waiting(s, clocks), x, k, length)
    ensures !s.m.commandValid ==> !Waiting(s, clocks).m.commandValid
    ensures s.m.holdValid ==> Waiting(s, clocks).m.holdValid
  {
    hide Underway, Clock;
    if clocks > 0 {
      WaitingUnderway(s, x, k, length, clocks - 1);
      ClockUnderway(Waiting(s, clocks - 1), x, k, length, Quiet);
      HoldFlags(Waiting(s, clocks - 1), Quiet);
    }
  }

  lemma {:induction false} WaitingFalls(s: System, x: Session, k: nat, length: nat, mask: nat, clocks: nat)
    requires Underway(s, x, k, length) && Coming(x, k, length, mask)
    ensures Due(Waiting(s, clocks), mask) <= Due(s, mask)
  {
    hide Underway, Clock, Coming, Due;
    if clocks > 0 {
      WaitingFalls(s, x, k, length, mask, clocks - 1);
      WaitingUnderway(s, x, k, length, clocks - 1);
      DueFalls(Waiting(s, clocks - 1), x, k, length, mask, Quiet);
    }
  }

  /** The register window: each access is one clock, after any number of others. */
  class Mmio {
    var sys: System
    ghost var polls: nat  // reads of the status

    /** After reset. */
    constructor ()
      ensures Idle(sys) && sys.m.forces == Forces(false, false, false)
    {
      var request: seq<byte> := seq(MAX_PACKET, _ => 0);
      var response: seq<byte> := seq(E.MAX_RESPONSE, _ => 0);
      var none := Forces(false, false, false);
      sys := System(Mailbox(0, false, false, 0, false, false, none), E.Trace(E.Reset(request, response), [], [], []));
      polls := 0;
    }

    method Idling() returns (ghost clocks: nat)
      modifies `sys
      ensures sys == Waiting(old(sys), clocks)
    {
      var n: int :| 0 <= n;
      clocks := n;
      for i := 0 to n
        invariant sys == Waiting(old(sys), i)
      {
        sys := Clock(sys, Quiet);
      }
    }

    method ReadWord(offset: nat) returns (word: nat, ghost clocks: nat)
      modifies this
      ensures var at := Waiting(old(sys), clocks);
              word == ReadData(at.m, offset) && sys == Clock(at, Read(offset))
      ensures polls == old(polls) + if offset == DAP_STATUS then 1 else 0
    {
      clocks := Idling();
      polls := polls + if offset == DAP_STATUS then 1 else 0;
      word := ReadData(sys.m, offset);
      sys := Clock(sys, Read(offset));
    }

    method WriteWord(offset: nat, value: nat) returns (ghost clocks: nat)
      modifies `sys
      ensures sys == Clock(Waiting(old(sys), clocks), Write(offset, value))
    {
      clocks := Idling();
      sys := Clock(sys, Write(offset, value));
    }
  }

  datatype DapError = EmptyRequest | ResponseTooLarge | Timeout

  lemma StatusBits(m: Mailbox)
    ensures Bit(ReadData(m, DAP_STATUS), 1) == !m.commandValid && Bit(ReadData(m, DAP_STATUS), 2) == m.holdValid
  {
  }

  lemma ResponseBits(m: Mailbox)
    ensures ReadData(m, DAP_RESPONSE) % 256 == m.hold && Bit(ReadData(m, DAP_RESPONSE), 0x200) == m.holdLast
  {
  }

  lemma CommandBits(b: byte, last: bool)
    ensures var value := b + if last then 0x100 else 0;
            value % 256 == b && Bit(value, 0x100) == last
  {
  }

  lemma AnswerFits(request: seq<byte>, f: Forces)
    ensures |E.EngineAnswer(request, f).bytes| <= E.MAX_RESPONSE
  {
  }

  lemma Begins(s: System, request: seq<byte>) returns (x: Session)
    requires Idle(s) && request != []
    ensures Underway(s, x, 0, 0) && x == Session(s.t.received, s.t.sent, s.t.forces, request, s.m.forces)
  {
    x := Session(s.t.received, s.t.sent, s.t.forces, request, s.m.forces);
    hide E.RequestsOf, E.EngineAnswer, E.Holds, E.Working;
    assert E.Mark(request)[..0] == [] && E.Mark(E.EngineAnswer(request, x.force).bytes)[..0] == [];
    assert x.written + [] == x.written && x.taken + [] == x.taken;
    assert |Asked(x)| > |x.written|;
  }

  /** The whole answer read: the engine has the whole request, and the system is idle. */
  lemma Finishes(s: System, x: Session, k: nat)
    requires k == |x.request| && Underway(s, x, k, |E.EngineAnswer(x.request, x.force).bytes|)
    ensures Idle(s) && s.t.received == Asked(x) && s.t.sent == Answered(x) && |x.request| <= MAX_PACKET
  {
    var a := E.Mark(E.EngineAnswer(x.request, x.force).bytes);
    SendsAnswer(s.t, x);
    assert a[..|a|] == a && E.Mark(x.request)[..k] == E.Mark(x.request);
    hide E.EngineAnswer, E.Inv;
    assert |s.t.sent| == |x.taken| + |a| + |Held(s.m)| <= |x.taken| + |a|;
    assert |s.t.received| == |Asked(x)| - |Pending(s.m)|;
    assert s.t.sent == Answered(x);
    PartWay(x.written, x.request, k);
  }

  lemma AnswerComes(s: System, x: Session, k: nat, length: nat)
    requires Underway(s, x, k, length)
    ensures |E.EngineAnswer(x.request, x.force).bytes| > 0
  {
    hide E.EngineAnswer, E.Inv;
    AnswerNotEmpty(x.request, x.force);
  }

  /** Every point of an exchange is within it. */
  lemma Reaches(s: System, x: Session, k: nat, length: nat)
    requires Underway(s, x, k, length)
    ensures x.written <= s.t.received <= Asked(x) && x.taken <= s.t.sent && s.m.forces == x.force
  {
    hide E.EngineAnswer, E.Inv;
    SendsAnswer(s.t, x);
  }

  /** Poll the status register for one of its two bits, `budget` times more after the first. */
  method Poll(io: Mmio, ghost x: Session, ghost k: nat, ghost length: nat, mask: nat, budget: nat) returns (ready: bool)
    requires Underway(io.sys, x, k, length) && (mask == 1 || mask == 2)
    modifies io
    ensures Underway(io.sys, x, k, length)
    ensures ready ==> if mask == 1 then !io.sys.m.commandValid else io.sys.m.holdValid
    ensures budget >= LATENCY && Coming(x, k, length, mask) ==> ready
    ensures io.polls >= old(io.polls) + if ready then 1 else budget + 1
  {
    hide Underway, Clock, Waiting, ReadData, Bit, Coming, Left;
    var remaining := budget;
    ghost var bounded := budget >= LATENCY && Coming(x, k, length, mask);
    if bounded {
      DueBounded(io.sys, x, k, length, mask);
    }
    while true
      invariant Underway(io.sys, x, k, length)
      invariant bounded ==> Coming(x, k, length, mask) && Due(io.sys, mask) <= remaining
      invariant io.polls == old(io.polls) + budget - remaining
      decreases remaining
    {
      ghost var before := io.sys;
      var word;
      ghost var clocks;
      word, clocks := io.ReadWord(DAP_STATUS);
      ghost var at := Waiting(before, clocks);
      WaitingUnderway(before, x, k, length, clocks);
      ClockUnderway(at, x, k, length, Read(DAP_STATUS));
      StatusBits(at.m);
      HoldFlags(at, Read(DAP_STATUS));
      if bounded {
        WaitingFalls(before, x, k, length, mask, clocks);
        DueFalls(at, x, k, length, mask, Read(DAP_STATUS));
        NothingDue(at, mask);
      }
      if Bit(word, mask) {
        return true;
      }
      if remaining == 0 {
        return false;
      }
      remaining := remaining - 1;
    }
  }

  /** Write the next octet of the request into an empty command hold. */
  method SendCommand(io: Mmio, ghost x: Session, index: nat, request: seq<byte>)
    requires request == x.request && index < |request|
    requires Underway(io.sys, x, index, 0) && !io.sys.m.commandValid
    modifies io`sys
    ensures Underway(io.sys, x, index + 1, 0)
  {
    hide Underway, Clock, Waiting, Bit;
    var last := index + 1 == |request|;
    var octet: int := request[index];
    var value := octet + if last then 0x100 else 0;
    CommandBits(request[index], last);
    ghost var before := io.sys;
    ghost var clocks := io.WriteWord(DAP_COMMAND, value);
    WaitingUnderway(before, x, index, 0, clocks);
    ClockUnderway(Waiting(before, clocks), x, index, 0, Write(DAP_COMMAND, value));
  }

  /** Read the next octet of the answer from a full response hold. */
  method TakeResponse(io: Mmio, ghost x: Session, ghost k: nat, ghost length: nat) returns (word: nat)
    requires Underway(io.sys, x, k, length) && io.sys.m.holdValid
    modifies io
    ensures var a := E.EngineAnswer(x.request, x.force).bytes;
            && Underway(io.sys, x, k, length + 1) && length < |a|
            && word % 256 == a[length] && Bit(word, 0x200) == (length + 1 == |a|)
    ensures io.polls == old(io.polls)
  {
    hide Underway, Clock, Waiting, ReadData, Bit, E.EngineAnswer;
    ghost var before := io.sys;
    ghost var clocks;
    word, clocks := io.ReadWord(DAP_RESPONSE);
    ghost var at := Waiting(before, clocks);
    WaitingUnderway(before, x, k, length, clocks);
    HoldsNext(at, x, k, length);
    ClockUnderway(at, x, k, length, Read(DAP_RESPONSE));
    ResponseBits(at.m);
  }

  method SendRequest(io: Mmio, ghost x: Session, request: seq<byte>, pollBudget: nat) returns (ok: bool)
    requires request == x.request && Underway(io.sys, x, 0, 0)
    modifies io
    ensures x.written <= io.sys.t.received <= Asked(x) && x.taken <= io.sys.t.sent && io.sys.m.forces == x.force
    ensures ok ==> Underway(io.sys, x, |request|, 0)
    ensures |request| <= MAX_PACKET && pollBudget >= LATENCY ==> ok
    ensures io.polls >= old(io.polls) + if ok then 0 else pollBudget + 1
  {
    hide Underway;
    Reaches(io.sys, x, 0, 0);
    for index := 0 to |request|
      invariant Underway(io.sys, x, index, 0)
      invariant x.written <= io.sys.t.received <= Asked(x) && x.taken <= io.sys.t.sent && io.sys.m.forces == x.force
      invariant io.polls >= old(io.polls)
    {
      var ready := Poll(io, x, index, 0, 1, pollBudget);
      Reaches(io.sys, x, index, 0);
      if !ready {
        return false;
      }
      SendCommand(io, x, index, request);
      Reaches(io.sys, x, index + 1, 0);
    }
    ok := true;
  }

  /** `got` written at `at`, everything else as it was. */
  predicate Appended(now: seq<byte>, was: seq<byte>, at: nat, got: seq<byte>) {
    at + |got| <= |was| && now == was[..at] + got + was[at + |got|..]
  }

  method Append(response: array<byte>, ghost was: seq<byte>, at: nat, length: nat, octet: byte, ghost a: seq<byte>)
    requires length < |a| && octet == a[length] && at + length < response.Length
    requires Appended(response[..], was, at, a[..length])
    modifies response
    ensures Appended(response[..], was, at, a[..length + 1])
  {
    response[at + length] := octet;
    assert response[..] == was[..at] + a[..length + 1] + was[at + length + 1..];
  }

  lemma AppendedIs(now: seq<byte>, was: seq<byte>, at: nat, got: seq<byte>)
    requires Appended(now, was, at, got)
    ensures |now| == |was| && now[..at] == was[..at]
    ensures now[at..at + |got|] == got && now[at + |got|..] == was[at + |got|..]
  {
  }

  method ReceiveAnswer(io: Mmio, ghost x: Session, response: array<byte>, at: nat, pollBudget: nat)
    returns (r: Result<nat, DapError>)
    requires Underway(io.sys, x, |x.request|, 0) && at <= response.Length
    modifies io, response
    ensures x.written <= io.sys.t.received <= Asked(x) && x.taken <= io.sys.t.sent && io.sys.m.forces == x.force
    ensures response[..at] == old(response[..at])
    ensures var a := E.EngineAnswer(x.request, x.force).bytes;
            match r
            case Ok(n) =>
              && n == |a| <= response.Length - at && Underway(io.sys, x, |x.request|, n)
              && response[at..at + n] == a && response[at + n..] == old(response[at + n..])
            case Err(e) =>
              && (e == ResponseTooLarge ==> response.Length - at < |a| && response[at..] == a[..response.Length - at])
              && e != EmptyRequest
              && (e == Timeout ==> |x.request| > MAX_PACKET || pollBudget < LATENCY)
    ensures io.polls >= old(io.polls) && (r == Err(Timeout) ==> io.polls > old(io.polls) + pollBudget)
  {
    hide Underway, E.EngineAnswer, Bit, Appended;
    ghost var a := E.EngineAnswer(x.request, x.force).bytes;
    ghost var was := response[..];
    var length := 0;
    AnswerComes(io.sys, x, |x.request|, 0);
    AppendedNothing(was, at, a);
    while true
      invariant length < |a| && length <= response.Length - at
      invariant Underway(io.sys, x, |x.request|, length)
      invariant Appended(response[..], was, at, a[..length])
      invariant io.polls >= old(io.polls)
      decreases |a| - length
    {
      AppendedIs(response[..], was, at, a[..length]);
      var ready := Poll(io, x, |x.request|, length, 2, pollBudget);
      Reaches(io.sys, x, |x.request|, length);
      if !ready {
        return Err(Timeout);
      }
      var word := TakeResponse(io, x, |x.request|, length);
      Reaches(io.sys, x, |x.request|, length + 1);
      if length == response.Length - at {
        return Err(ResponseTooLarge);
      }
      Append(response, was, at, length, word % 256, a);
      length := length + 1;
      if Bit(word, 0x200) {
        assert a[..length] == a;
        AppendedIs(response[..], was, at, a);
        return Ok(length);
      }
    }
  }

  lemma AppendedNothing(was: seq<byte>, at: nat, a: seq<byte>)
    requires at <= |was|
    ensures Appended(was, was, at, a[..0])
  {
  }

  /** One exchange from the idle state, under any timing of the registers and the engine, into
      `response[at..]`.  With polls enough for the engine's latency and room for any answer it succeeds.
      When it succeeds the engine has taken exactly the request, the buffer holds the engine's whole
      answer and the system is idle again; no outcome makes the engine take anything else. */
  method DapExchange(io: Mmio, request: seq<byte>, response: array<byte>, at: nat, pollBudget: nat)
    returns (r: Result<nat, DapError>)
    requires Idle(io.sys) && at <= response.Length
    modifies io, response
    ensures r == Err(EmptyRequest) <==> request == []
    ensures request == [] ==> io.sys == old(io.sys)
    ensures io.sys.t.received <= old(io.sys.t.received) + E.Mark(request)
    ensures old(io.sys.t.sent) <= io.sys.t.sent && io.sys.m.forces == old(io.sys.m.forces)
    ensures response[..at] == old(response[..at])
    ensures var a := E.EngineAnswer(request, old(io.sys.m.forces)).bytes;
            match r
            case Ok(n) =>
              && n == |a| <= response.Length - at && response[at..at + n] == a
              && response[at + n..] == old(response[at + n..])
              && |request| <= MAX_PACKET && Idle(io.sys)
              && io.sys.t.received == old(io.sys.t.received) + E.Mark(request)
              && io.sys.t.sent == old(io.sys.t.sent) + E.Mark(a)
            case Err(ResponseTooLarge) => response.Length - at < |a| && response[at..] == a[..response.Length - at]
            case Err(Timeout) => (|request| > MAX_PACKET || pollBudget < LATENCY) && io.polls > old(io.polls) + pollBudget
            case Err(EmptyRequest) => true
    ensures 1 <= |request| <= MAX_PACKET && response.Length - at >= E.MAX_RESPONSE && pollBudget >= LATENCY ==> r.Ok?
    ensures r.Ok? && E.Agreeing(request, old(io.sys.m.forces)) ==>
              var reference := Execute(request, old(io.sys.m.forces));
              reference.Ok? && response[at..at + r.value] == reference.value.bytes
  {
    hide Idle, Underway, E.EngineAnswer, E.Mark, E.Agreeing, Execute;
    if request == [] {
      assert E.Mark(request) == [];
      return Err(EmptyRequest);
    }
    ghost var x := Begins(io.sys, request);
    AnswerFits(request, x.force);
    var sent := SendRequest(io, x, request, pollBudget);
    if !sent {
      return Err(Timeout);
    }
    r := ReceiveAnswer(io, x, response, at, pollBudget);
    if r.Ok? {
      Finishes(io.sys, x, |request|);
      E.EngineMatchesTarget(request, x.force);
    }
  }
}
