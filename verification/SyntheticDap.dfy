/** The reference CMSIS-DAP target: what a request packet is answered with. */
module SyntheticDap {
  import opened Arith
  import opened Bytes

  datatype DapError = Short

  /** Conditions armed for the next DAP_Transfer. */
  datatype Forces = Forces(wait: bool, fault: bool, parity: bool)

  /** The answer to one request, and what it adds to the counters. */
  datatype Answer = Answer(bytes: seq<byte>, transfers: nat, aborts: nat)

  const MAX_PACKET := 1024
  const ORBCODE: seq<byte> := [0x4f, 0x72, 0x62, 0x63, 0x6f, 0x64, 0x65]
  const BOARD: seq<byte> :=
    [0x5a, 0x55, 0x42, 0x6f, 0x61, 0x72, 0x64, 0x20, 0x4f, 0x72, 0x62, 0x74, 0x72, 0x61, 0x63, 0x65]

  function At(r: seq<byte>, i: nat): byte {
    if i < |r| then r[i] else 0
  }

  /** Bit 1 of a transfer request. */
  predicate IsRead(transfer: byte) {
    transfer / 2 % 2 == 1
  }

  function FlipBit0(b: byte): byte {
    if b % 2 == 0 then b + 1 else b - 1
  }

  /** The transfers of a DAP_Transfer from `pos` on: read data, how many completed and how many were
      started, and whether the request ran out before `n` of them. */
  datatype Transfers = Transfers(data: seq<byte>, completed: nat, started: nat, truncated: bool)

  function TransfersFrom(r: seq<byte>, pos: nat, n: nat): (t: Transfers)
    ensures t.completed <= n && t.completed <= t.started <= t.completed + 1
    ensures |t.data| <= 4 * t.completed
    ensures !t.truncated ==> t.completed == n && t.started == n
    decreases n
  {
    if n == 0 then Transfers([], 0, 0, false)
    else if pos >= |r| then Transfers([], 0, 0, true)
    else if IsRead(r[pos]) then
      var rest := TransfersFrom(r, pos + 1, n - 1);
      Transfers([r[pos], 0, 0xa5, 0xa5] + rest.data, rest.completed + 1, rest.started + 1, rest.truncated)
    else if pos + 4 < |r| then
      var rest := TransfersFrom(r, pos + 5, n - 1);
      Transfers(rest.data, rest.completed + 1, rest.started + 1, rest.truncated)
    else Transfers([], 0, 1, true)
  }

  /** An unconditional DAP_Transfer of `n` <= 255 transfers. */
  function TransferAnswer(r: seq<byte>, n: byte, parity: bool): Answer {
    var t := TransfersFrom(r, 3, n);
    Answer([0x05, t.completed, if t.truncated then 0x04 else if parity then 0x09 else 0x01] + t.data, t.started, 0)
  }

  function Execute(r: seq<byte>, f: Forces): Result<Answer, DapError> {
    if r == [] || |r| > MAX_PACKET then Err(Short)
    else if r[0] == 0x00 then
      var value := if At(r, 1) == 1 then ORBCODE else if At(r, 1) == 2 then BOARD else [];
      Ok(Answer([0x00, |value|] + value, 0, 0))
    else if r[0] == 0x02 then Ok(Answer([0x02, At(r, 1) % 4], 0, 0))
    else if r[0] == 0x05 then
      if |r| < 3 then Err(Short)
      else if f.wait then Ok(Answer([0x05, 0, 0x02], 0, 0))
      else if f.fault then Ok(Answer([0x05, 0, 0x04], 0, 0))
      else Ok(TransferAnswer(r, r[2], f.parity))
    else if r[0] == 0x07 || r[0] == 0x08 then Ok(Answer([r[0], 0], 0, 1))
    else if r[0] == 0x10 then Ok(Answer([0x10, At(r, 1)], 0, 0))
    else if r[0] == 0x14 then Ok(Answer([0x14, 0, FlipBit0(At(r, 3))], 0, 0))
    else Ok(Answer([r[0], 0xff], 0, 0))
  }

  // ---- What a transfer list means ----

  /** One entry of a transfer list: bit 1 of its first byte says whether it reads; a write brings a word. */
  datatype Entry = ReadEntry(transfer: byte) | WriteEntry(transfer: byte, word: seq<byte>)

  predicate ByMask(e: Entry) {
    match e
    case ReadEntry(transfer) => And(transfer, 2) == 2
    case WriteEntry(transfer, word) => And(transfer, 2) == 0 && |word| == 4
  }

  function EntryBytes(entries: seq<Entry>): seq<byte> {
    if entries == [] then [] else
    (match entries[0]
     case ReadEntry(transfer) => [transfer]
     case WriteEntry(transfer, word) => [transfer] + word)
    + EntryBytes(entries[1..])
  }

  /** A read gives its own first byte and a fixed tag, as a little-endian word. */
  function DataRead(entries: seq<Entry>): seq<byte> {
    if entries == [] then [] else
    (if entries[0].ReadEntry? then [entries[0].transfer, 0x00, 0xa5, 0xa5] else []) + DataRead(entries[1..])
  }

  /** What is left of a list that ends early: nothing, or a write with no room for its word. */
  predicate CutOff(tail: seq<byte>) {
    tail == [] || (And(tail[0], 2) == 0 && |tail| < 5)
  }

  lemma ReadMask(transfer: byte)
    ensures And(transfer, 2) == 2 <==> IsRead(transfer)
    ensures And(transfer, 2) == 0 <==> !IsRead(transfer)
  {
    AndTwo(transfer);
  }

  lemma {:induction false} ListParses(r: seq<byte>, pos: nat, n: nat, entries: seq<Entry>, tail: seq<byte>)
    requires pos <= |r| && r[pos..] == EntryBytes(entries) + tail && n >= |entries|
    requires forall e <- entries :: ByMask(e)
    requires n > |entries| ==> CutOff(tail)
    ensures TransfersFrom(r, pos, n)
         == Transfers(DataRead(entries), |entries|, |entries| + (if n > |entries| && tail != [] then 1 else 0), n > |entries|)
    decreases |entries|
  {
    hide IsRead, And, EntryBytes, DataRead, TransfersFrom, ByMask;
    NoEntries(r[pos..]);
    if entries == [] {
      assert r[pos..] == tail;
      TailParses(r, pos, n, tail);
    } else {
      var e, rest := entries[0], entries[1..];
      assert e in entries && [e] + rest == entries;
      EntryInFront(e, rest, tail);
      var first := if e.ReadEntry? then [e.transfer] else [e.transfer] + e.word;
      var after := EntryBytes(rest) + tail;
      assert r[pos..] == first + after;
      assert r[pos] == e.transfer && r[pos + |first|..] == after;
      ListParses(r, pos + |first|, n - 1, rest, tail);
      EntryParses(r, pos, n, e);
      DataFirst(entries);
    }
    DataNone();
  }

  lemma DataNone()
    ensures DataRead([]) == [] && EntryBytes([]) == []
  {
  }

  lemma DataFirst(entries: seq<Entry>)
    requires entries != []
    ensures DataRead(entries)
         == (if entries[0].ReadEntry? then [entries[0].transfer, 0x00, 0xa5, 0xa5] else []) + DataRead(entries[1..])
  {
  }

  lemma TailParses(r: seq<byte>, pos: nat, n: nat, tail: seq<byte>)
    requires pos <= |r| && r[pos..] == tail && (n > 0 ==> CutOff(tail))
    ensures TransfersFrom(r, pos, n) == Transfers([], 0, if n > 0 && tail != [] then 1 else 0, n > 0)
  {
    hide IsRead, And;
    if n > 0 && tail != [] {
      ReadMask(tail[0]);
    }
  }

  lemma EntryParses(r: seq<byte>, pos: nat, n: nat, e: Entry)
    requires n > 0 && pos < |r| && r[pos] == e.transfer && ByMask(e) && (e.WriteEntry? ==> pos + 4 < |r|)
    ensures var rest := TransfersFrom(r, pos + (if e.ReadEntry? then 1 else 5), n - 1);
            TransfersFrom(r, pos, n)
            == Transfers((if e.ReadEntry? then [e.transfer, 0x00, 0xa5, 0xa5] else []) + rest.data,
                         rest.completed + 1, rest.started + 1, rest.truncated)
  {
    hide IsRead, And;
    ReadMask(e.transfer);
    var rest := TransfersFrom(r, pos + (if e.ReadEntry? then 1 else 5), n - 1);
    assert [] + rest.data == rest.data;
  }

  /** An unconditional DAP_Transfer, said without the engine's own test: `n` entries told apart by bit 1 of
      their first bytes all complete, the reads giving their data in order; a list that ends before its `n`
      completes what is there and ends with an error, a write cut short counting as started. */
  lemma TransferLaw(index: byte, n: byte, entries: seq<Entry>, tail: seq<byte>, parity: bool)
    requires |entries| <= n && (n > |entries| ==> CutOff(tail)) && forall e <- entries :: ByMask(e)
    requires 3 + |EntryBytes(entries) + tail| <= MAX_PACKET
    ensures Execute([0x05, index, n] + (EntryBytes(entries) + tail), Forces(false, false, parity))
         == Ok(Answer([0x05, |entries|, if n > |entries| then 0x04 else if parity then 0x09 else 0x01] + DataRead(entries),
                      |entries| + (if n > |entries| && tail != [] then 1 else 0), 0))
  {
    var r := [0x05, index, n] + (EntryBytes(entries) + tail);
    assert r[3..] == EntryBytes(entries) + tail;
    ListParses(r, 3, n, entries, tail);
    hide TransfersFrom, EntryBytes, DataRead, And;
  }

  /** Every list is of this form. */
  lemma {:induction false} ListSplits(bytes: seq<byte>, n: nat) returns (entries: seq<Entry>, tail: seq<byte>)
    ensures bytes == EntryBytes(entries) + tail && |entries| <= n && (n > |entries| ==> CutOff(tail))
    ensures forall e <- entries :: ByMask(e)
    decreases n
  {
    hide And, IsRead, EntryBytes, ByMask;
    NoEntries(bytes);
    entries, tail := [], bytes;
    if n > 0 && bytes != [] {
      ReadMask(bytes[0]);
      if IsRead(bytes[0]) {
        entries, tail := ListSplits(bytes[1..], n - 1);
        EntryInFront(ReadEntry(bytes[0]), entries, tail);
        assert bytes == [bytes[0]] + bytes[1..];
        entries := [ReadEntry(bytes[0])] + entries;
      } else if |bytes| >= 5 {
        entries, tail := ListSplits(bytes[5..], n - 1);
        EntryInFront(WriteEntry(bytes[0], bytes[1..5]), entries, tail);
        assert bytes == [bytes[0]] + bytes[1..5] + bytes[5..];
        entries := [WriteEntry(bytes[0], bytes[1..5])] + entries;
      }
    }
  }

  lemma NoEntries(bytes: seq<byte>)
    ensures EntryBytes([]) + bytes == bytes
  {
  }

  lemma EntryInFront(first: Entry, entries: seq<Entry>, tail: seq<byte>)
    ensures EntryBytes([first] + entries) + tail
         == (match first case ReadEntry(t) => [t] case WriteEntry(t, word) => [t] + word) + (EntryBytes(entries) + tail)
    ensures first.ReadEntry? ==> ByMask(first) == (And(first.transfer, 2) == 2)
    ensures first.WriteEntry? ==> ByMask(first) == (And(first.transfer, 2) == 0 && |first.word| == 4)
  {
    hide And;
    assert ([first] + entries)[1..] == entries;
  }

  /** The masks of the other commands: the connect port is two bits, and a JTAG sequence's answer is its data
      with the lowest bit turned. */
  lemma MaskLaws(r: seq<byte>, f: Forces)
    requires 1 < |r| <= MAX_PACKET
    ensures r[0] == 0x02 ==> Execute(r, f) == Ok(Answer([0x02, And(r[1], 3)], 0, 0))
    ensures r[0] == 0x14 && |r| > 3 ==>
              && Execute(r, f).Ok? && |Execute(r, f).value.bytes| == 3
              && var b := Execute(r, f).value.bytes[2]; And(b, 1) != And(r[3], 1) && b / 2 == r[3] / 2
  {
    assert And(r[1], 3) == r[1] % 4 by {
      AndThree(r[1]);
    }
    if |r| > 3 {
      AndOne(r[3]);
      AndOne(FlipBit0(r[3]));
    }
    hide And, TransfersFrom;
  }

  lemma AndThree(x: nat)
    ensures And(x, 3) == x % 4
  {
    assert Pow2(2) == 4;
    AndLow(x, 2);
  }

  /** Only the first armed condition is used up, and only by a transfer request long enough. */
  function ForcesAfter(r: seq<byte>, f: Forces): Forces {
    if r == [] || |r| > MAX_PACKET || r[0] != 0x05 || |r| < 3 then f
    else if f.wait then f.(wait := false)
    else if f.fault then f.(fault := false)
    else f.(parity := false)
  }

  function Both(f: Forces, g: Forces): Forces {
    Forces(f.wait || g.wait, f.fault || g.fault, f.parity || g.parity)
  }

  const UNARMED := Forces(false, false, false)

  /** A run of the target: the answers, the counters, and what is still armed. */
  datatype History = History(replies: seq<seq<byte>>, transfers: nat, aborts: nat, armed: Forces)

  /** The requests one after the other, `arms[k]` being armed before request k. */
  function SessionOf(start: Forces, requests: seq<seq<byte>>, arms: seq<Forces>): History
    requires |requests| == |arms|
  {
    if requests == [] then History([], 0, 0, start) else
    var last := |requests| - 1;
    var before := SessionOf(start, requests[..last], arms[..last]);
    var armed := Both(before.armed, arms[last]);
    match Execute(requests[last], armed)
    case Err(_) => before.(armed := ForcesAfter(requests[last], armed))
    case Ok(a) => History(before.replies + [a.bytes], before.transfers + a.transfers, before.aborts + a.aborts,
                          ForcesAfter(requests[last], armed))
  }

  /** What should be left of the conditions after `n` transfer requests. */
  function LeftAfter(f: Forces, n: nat): Forces {
    var (waits, faults) := (if f.wait then 1 else 0, if f.fault then 1 else 0);
    Forces(f.wait && n < 1, f.fault && n < waits + 1, f.parity && n < waits + faults + 1)
  }

  function Nothing(n: nat): (arms: seq<Forces>)
    ensures |arms| == n
  {
    seq(n, _ => UNARMED)
  }

  lemma OneLess(f: Forces, n: nat, r: seq<byte>)
    requires 3 <= |r| <= MAX_PACKET && r[0] == 0x05
    ensures Both(LeftAfter(f, n), UNARMED) == LeftAfter(f, n)
    ensures Execute(r, LeftAfter(f, n)).Ok? && ForcesAfter(r, LeftAfter(f, n)) == LeftAfter(f, n + 1)
  {
    hide TransferAnswer;
  }

  function AnswerTo(r: seq<byte>, f: Forces): seq<byte> {
    match Execute(r, f) case Ok(a) => a.bytes case Err(_) => []
  }

  lemma NoneLeft(f: Forces, n: nat)
    ensures LeftAfter(f, 0) == f && (n >= 3 ==> LeftAfter(f, n) == UNARMED)
  {
  }

  lemma NothingFront(n: nat)
    ensures Nothing(n + 1)[..n] == Nothing(n) && Nothing(n + 1)[n] == UNARMED
  {
  }

  lemma NoSession(start: Forces, arms: seq<Forces>)
    requires arms == []
    ensures SessionOf(start, [], arms) == History([], 0, 0, start)
  {
  }

  lemma SessionStep(start: Forces, requests: seq<seq<byte>>, arms: seq<Forces>)
    requires |requests| == |arms| && requests != []
    ensures var last := |requests| - 1;
            var before := SessionOf(start, requests[..last], arms[..last]);
            var (h, armed) := (SessionOf(start, requests, arms), Both(before.armed, arms[last]));
            && h.armed == ForcesAfter(requests[last], armed)
            && (Execute(requests[last], armed).Ok? ==> h.replies == before.replies + [AnswerTo(requests[last], armed)])
  {
    hide Execute, ForcesAfter, Both;
  }

  /** Conditions armed once reach one transfer request each, wait first, then fault, then parity; from the fourth
      request on all are answered as if nothing had been armed. */
  lemma {:induction false} ConditionsOnce(f: Forces, requests: seq<seq<byte>>)
    requires forall k :: 0 <= k < |requests| ==> 3 <= |requests[k]| <= MAX_PACKET && requests[k][0] == 0x05
    ensures var (h, n) := (SessionOf(f, requests, Nothing(|requests|)), |requests|);
            && h.armed == LeftAfter(f, n) && (n >= 3 ==> h.armed == UNARMED)
            && |h.replies| == n && forall k :: 0 <= k < n ==> h.replies[k] == AnswerTo(requests[k], LeftAfter(f, k))
  {
    hide Execute, ForcesAfter, LeftAfter, Nothing, Both, SessionOf, AnswerTo;
    NoneLeft(f, |requests|);
    if requests == [] {
      NoSession(f, Nothing(0));
    } else {
      var last := |requests| - 1;
      NothingFront(last);
      ConditionsOnce(f, requests[..last]);
      OneLess(f, last, requests[last]);
      SessionStep(f, requests, Nothing(|requests|));
    }
  }

  /** What is armed when request k is executed. */
  function ArmedAt(start: Forces, requests: seq<seq<byte>>, arms: seq<Forces>, k: nat): Forces
    requires |requests| == |arms| && k < |requests|
  {
    Both(SessionOf(start, requests[..k], arms[..k]).armed, arms[k])
  }

  /** What the armed conditions make of a request: a list cut short before its first transfer looks
      like a fault. */
  datatype Effect = Untouched | Waits | Faults | CutShort | ParityError | Plain

  function EffectOf(r: seq<byte>, f: Forces): Effect {
    if r == [] || |r| > MAX_PACKET || r[0] != 0x05 || |r| < 3 then Untouched
    else if f.wait then Waits
    else if f.fault || (|r| == 3 && r[2] > 0) then Faults
    else if TransfersFrom(r, 3, r[2]).truncated then CutShort
    else if f.parity then ParityError else Plain
  }

  function Status(e: Effect): byte {
    match e
    case Waits => 0x02
    case Faults => 0x04
    case CutShort => 0x04
    case ParityError => 0x09
    case _ => 0x01
  }

  /** The answer to a transfer request, effect by effect. */
  lemma EffectAnswers(r: seq<byte>, f: Forces)
    requires EffectOf(r, f) != Untouched
    ensures Execute(r, f).Ok?
    ensures var (e, a, t) := (EffectOf(r, f), Execute(r, f).value, TransfersFrom(r, 3, r[2]));
            && a.aborts == 0 && |a.bytes| >= 3 && a.bytes[2] == Status(e)
            && if e == Waits || e == Faults then a.bytes == [0x05, 0, Status(e)] && a.transfers == 0
               else a.bytes == [0x05, t.completed, Status(e)] + t.data && a.transfers == t.started
                    && (e == CutShort ==> a.transfers > 0)
  {
    hide TransfersFrom;
    NoRoom(r, r[2]);
    assert [0x05, 0, 0x04] + [] == [0x05, 0, 0x04];
  }

  lemma NoRoom(r: seq<byte>, n: nat)
    ensures |r| == 3 && n > 0 ==> TransfersFrom(r, 3, n) == Transfers([], 0, 0, true)
    ensures |r| > 3 && TransfersFrom(r, 3, n).truncated ==> TransfersFrom(r, 3, n).started > 0
    ensures n == 0 ==> !TransfersFrom(r, 3, n).truncated
  {
  }

  /** Two sets of conditions are told apart by a request exactly when their effects differ. */
  lemma SameEffect(r: seq<byte>, f: Forces, g: Forces)
    ensures Execute(r, f) == Execute(r, g) <==> EffectOf(r, f) == EffectOf(r, g)
  {
    if EffectOf(r, f) != Untouched {
      EffectAnswers(r, f);
      EffectAnswers(r, g);
      hide Execute, TransfersFrom;
    }
  }

  class Target {
    var aborts: nat
    var transfers: nat
    var waitOnce: bool
    var faultOnce: bool
    var parityErrorOnce: bool

    ghost function Armed(): Forces
      reads this
    {
      Forces(waitOnce, faultOnce, parityErrorOnce)
    }

    constructor ()
      ensures aborts == 0 && transfers == 0 && Armed() == Forces(false, false, false)
    {
      aborts, transfers := 0, 0;
      waitOnce, faultOnce, parityErrorOnce := false, false, false;
    }

    /** Arm a condition for the next transfer request. */
    method Arm(f: Forces)
      modifies this`waitOnce, this`faultOnce, this`parityErrorOnce
      ensures Armed() == Both(old(Armed()), f)
    {
      waitOnce, faultOnce, parityErrorOnce := waitOnce || f.wait, faultOnce || f.fault, parityErrorOnce || f.parity;
    }

    method ExecuteRequest(request: seq<byte>) returns (response: Result<seq<byte>, DapError>)
      modifies this
      ensures match Execute(request, old(Armed()))
              case Err(e) =>
                response == Err(e) && transfers == old(transfers) && aborts == old(aborts)
              case Ok(a) =>
                && response == Ok(a.bytes)
                && transfers == old(transfers) + a.transfers && aborts == old(aborts) + a.aborts
      ensures Armed() == ForcesAfter(request, old(Armed()))
    {
      if request == [] || |request| > MAX_PACKET {
        return Err(Short);
      }
      var command := request[0];
      if command == 0x00 {
        var id := At(request, 1);
        var value := if id == 1 then ORBCODE else if id == 2 then BOARD else [];
        return Ok([0x00, |value|] + value);
      } else if command == 0x02 {
        return Ok([0x02, At(request, 1) % 4]);
      } else if command == 0x05 {
        if |request| < 3 {
          return Err(Short);
        }
        if waitOnce {
          waitOnce := false;
          return Ok([0x05, 0, 0x02]);
        }
        if faultOnce {
          faultOnce := false;
          return Ok([0x05, 0, 0x04]);
        }
        var status: byte := if parityErrorOnce then 0x09 else 0x01;
        parityErrorOnce := false;
        var out := Transfer(request, status);
        return Ok(out);
      } else if command == 0x07 || command == 0x08 {
        aborts := aborts + 1;
        return Ok([command, 0]);
      } else if command == 0x10 {
        return Ok([0x10, At(request, 1)]);
      } else if command == 0x14 {
        return Ok([0x14, 0, FlipBit0(At(request, 3))]);
      }
      return Ok([command, 0xff]);
    }

    /** The transfer loop of a DAP_Transfer. */
    method Transfer(request: seq<byte>, status: byte) returns (out: seq<byte>)
      requires |request| >= 3
      modifies this`transfers
      ensures var t := TransfersFrom(request, 3, request[2]);
              && out == Response(t.data, t.completed, if t.truncated then 0x04 else status)
              && transfers == old(transfers) + t.started
    {
      var data, completed, truncated := EachTransfer(request, request[2]);
      out := Response(data, completed, if truncated then 0x04 else status);
    }

    method EachTransfer(request: seq<byte>, count: byte) returns (data: seq<byte>, completed: byte, truncated: bool)
      requires |request| >= 3
      modifies this`transfers
      ensures transfers >= old(transfers)
      ensures TransfersFrom(request, 3, count) == Transfers(data, completed, transfers - old(transfers), truncated)
    {
      data, completed := [], 0;
      var pos := 3;
      ghost var all := TransfersFrom(request, 3, count);
      hide TransfersFrom, Join, IsRead;
      JoinNothing(all);
      while completed < count
        invariant 0 <= completed <= count
        invariant transfers == old(transfers) + completed
        invariant all == Join(data, completed, TransfersFrom(request, pos, count - completed))
      {
        ghost var left := count - completed;
        if pos >= |request| {
          Ended(data, completed, request, pos, left);
          return data, completed, true;
        }
        var transfer := request[pos];
        transfers := transfers + 1;
        if IsRead(transfer) {
          OneMore(data, data + [transfer, 0, 0xa5, 0xa5], completed, request, pos, pos + 1, left);
          data := data + [transfer, 0, 0xa5, 0xa5];
          pos := pos + 1;
        } else if pos + 4 < |request| {
          OneMore(data, data, completed, request, pos, pos + 5, left);
          pos := pos + 5;
        } else {
          Ended(data, completed, request, pos, left);
          return data, completed, true;
        }
        completed := completed + 1;
      }
      Ended(data, completed, request, pos, 0);
      return data, completed, false;
    }
  }

  /** A transfer response: how many completed, how the last one ended, and the data read. */
  function Response(data: seq<byte>, completed: byte, status: byte): seq<byte> {
    [0x05, completed, status] + data
  }

  /** Transfers done so far, followed by the rest. */
  function Join(data: seq<byte>, done: nat, rest: Transfers): Transfers {
    Transfers(data + rest.data, done + rest.completed, done + rest.started, rest.truncated)
  }

  lemma JoinNothing(t: Transfers)
    ensures Join([], 0, t) == t
  {
    assert [] + t.data == t.data;
  }

  /** One more transfer done, or the end. */
  lemma JoinStep(data: seq<byte>, done: nat, r: seq<byte>, pos: nat, n: nat)
    ensures var all := Join(data, done, TransfersFrom(r, pos, n));
            if n == 0 || pos >= |r| then all == Transfers(data, done, done, n > 0)
            else if IsRead(r[pos]) then
              all == Join(data + [r[pos], 0, 0xa5, 0xa5], done + 1, TransfersFrom(r, pos + 1, n - 1))
            else if pos + 4 < |r| then
              all == Join(data, done + 1, TransfersFrom(r, pos + 5, n - 1))
            else all == Transfers(data, done, done + 1, true)
    ensures Join([], 0, TransfersFrom(r, pos, n)) == TransfersFrom(r, pos, n)
  {
    assert data + [] == data;
    var t := TransfersFrom(r, pos, n);
    assert [] + t.data == t.data;
    if n > 0 && pos < |r| && IsRead(r[pos]) {
      var rest := TransfersFrom(r, pos + 1, n - 1);
      assert data + ([r[pos], 0, 0xa5, 0xa5] + rest.data) == data + [r[pos], 0, 0xa5, 0xa5] + rest.data;
    }
  }

  /** The data and the rest of the list, one transfer further on. */
  lemma OneMore(data: seq<byte>, more: seq<byte>, done: nat, r: seq<byte>, pos: nat, next: nat, n: nat)
    requires n > 0 && pos < |r|
    requires if IsRead(r[pos]) then more == data + [r[pos], 0, 0xa5, 0xa5] && next == pos + 1
             else more == data && next == pos + 5 && pos + 4 < |r|
    ensures Join(data, done, TransfersFrom(r, pos, n)) == Join(more, done + 1, TransfersFrom(r, next, n - 1))
  {
    JoinStep(data, done, r, pos, n);
    hide TransfersFrom, Join, IsRead;
  }

  /** The end of the list, or a transfer there is no room for. */
  lemma Ended(data: seq<byte>, done: nat, r: seq<byte>, pos: nat, n: nat)
    requires n == 0 || pos >= |r| || (!IsRead(r[pos]) && pos + 4 >= |r|)
    ensures Join(data, done, TransfersFrom(r, pos, n))
         == Transfers(data, done, if n > 0 && pos < |r| then done + 1 else done, n > 0)
  {
    JoinStep(data, done, r, pos, n);
  }
}
