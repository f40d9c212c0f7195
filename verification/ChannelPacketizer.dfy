/** The channel packetizer: it holds one byte back until it knows whether that byte ends a packet,
    because the channel changes, the packet is full, or the input has been idle too long. */
module ChannelPacketizer {
  import opened Bytes
  import opened Orbflow
  import opened PacketStream

  datatype Params = Params(maxPacket: nat, idleCycles: nat)

  datatype State = State(held: bool, endPending: bool, channel: byte, heldData: byte, count: nat, idle: nat)

  datatype Input = Input(channel: byte, data: byte, valid: bool, ready: bool)

  datatype Tagged = Tagged(channel: byte, data: byte)

  const RESET := State(false, false, 0, 0, 0, 0)

  function SizeBoundary(s: State, p: Params): bool {
    s.held && s.count == p.maxPacket
  }

  function OutputValid(s: State, i: Input, p: Params): bool {
    s.held && (i.valid || s.endPending || SizeBoundary(s, p))
  }

  function OutputLast(s: State, i: Input, p: Params): bool {
    s.endPending || (s.held && i.valid && i.channel != s.channel) || SizeBoundary(s, p)
  }

  function InputReady(s: State, i: Input, p: Params): bool {
    !s.held || (i.ready && OutputValid(s, i, p))
  }

  function Step(s: State, i: Input, p: Params): State {
    if OutputValid(s, i, p) && i.ready then
      if i.valid then
        State(true, false, i.channel, i.data, if OutputLast(s, i, p) then 1 else s.count + 1, p.idleCycles)
      else
        s.(held := false, endPending := false, count := 0, idle := 0)
    else if !s.held && i.valid then
      State(true, s.endPending, i.channel, i.data, 1, p.idleCycles)
    else if s.held && s.idle != 0 then
      s.(idle := s.idle - 1, endPending := s.endPending || s.idle == 1)
    else
      s
  }

  /** A run, with the bytes taken in and the beats handed on. */
  datatype Trace = Trace(state: State, accepted: seq<Tagged>, beats: seq<Beat>)

  function Advance(t: Trace, i: Input, p: Params): Trace {
    Trace(Step(t.state, i, p),
          if i.valid && InputReady(t.state, i, p) then t.accepted + [Tagged(i.channel, i.data)] else t.accepted,
          if OutputValid(t.state, i, p) && i.ready
          then t.beats + [Beat(t.state.channel, t.state.heldData, OutputLast(t.state, i, p))] else t.beats)
  }

  function Run(inputs: seq<Input>, p: Params): Trace {
    if inputs == [] then Trace(RESET, [], []) else
    Advance(Run(inputs[..|inputs| - 1], p), inputs[|inputs| - 1], p)
  }

  /** A packet's bytes, each with the packet's channel. */
  function Tags(p: Packet): (t: seq<Tagged>)
    ensures |t| == |p.payload|
  {
    seq(|p.payload|, i requires 0 <= i < |p.payload| => Tagged(p.channel, p.payload[i]))
  }

  function AllTags(packets: seq<Packet>): seq<Tagged> {
    if packets == [] then [] else AllTags(packets[..|packets| - 1]) + Tags(packets[|packets| - 1])
  }

  function OpenTags(open: Option<Packet>): seq<Tagged> {
    match open case None => [] case Some(p) => Tags(p)
  }

  ghost predicate Inv(t: Trace, p: Params) {
    var s, q := t.state, Parse(t.beats);
    && t.accepted == AllTags(q.complete) + OpenTags(q.open) + (if s.held then [Tagged(s.channel, s.heldData)] else [])
    && (forall k <- q.complete :: 1 <= |k.payload| <= p.maxPacket)
    && (if s.held then
          && 1 <= s.count <= p.maxPacket && s.idle <= p.idleCycles && (s.endPending || s.idle >= 1)
          && (q.open.None? ==> s.count == 1)
          && (q.open.Some? ==> q.open.value.channel == s.channel && |q.open.value.payload| == s.count - 1 >= 1)
        else
          !s.endPending && s.count == 0 && s.idle == 0 && q.open.None?)
  }

  lemma TagsSnoc(k: Packet, b: byte)
    ensures Tags(k.(payload := k.payload + [b])) == Tags(k) + [Tagged(k.channel, b)]
  {
  }

  /** Handing on the held byte moves its tag from the register into the packets. */
  lemma BeatMovesTag(q: Parsed, beat: Beat)
    requires q.open.Some? ==> q.open.value.channel == beat.channel
    ensures var q' := AddBeat(q, beat);
            AllTags(q'.complete) + OpenTags(q'.open)
            == AllTags(q.complete) + OpenTags(q.open) + [Tagged(beat.channel, beat.data)]
  {
    var k := match q.open case None => Packet(beat.channel, []) case Some(o) => o;
    TagsSnoc(k, beat.data);
    assert Tags(Packet(beat.channel, [])) == [];
    var packet := k.(payload := k.payload + [beat.data]);
    assert [] + [beat.data] == [beat.data];
    assert (q.complete + [packet])[..|q.complete|] == q.complete;
    assert AllTags(q.complete + [packet]) + [] == AllTags(q.complete) + Tags(packet);
  }

  lemma ParseSnoc(beats: seq<Beat>, beat: Beat)
    ensures Parse(beats + [beat]) == AddBeat(Parse(beats), beat)
  {
    assert (beats + [beat])[..|beats|] == beats;
  }

  lemma StepKeeps(t: Trace, i: Input, p: Params)
    requires p.maxPacket >= 1 && p.idleCycles >= 1 && Inv(t, p)
    ensures Inv(Advance(t, i, p), p)
  {
    hide Parse, AllTags;
    var s, t' := t.state, Advance(t, i, p);
    if OutputValid(s, i, p) && i.ready {
      var beat := Beat(s.channel, s.heldData, OutputLast(s, i, p));
      BeatMovesTag(Parse(t.beats), beat);
      ParseSnoc(t.beats, beat);
      NoOpenTags();
    }
  }

  lemma {:induction false} RunKeeps(inputs: seq<Input>, p: Params)
    requires p.maxPacket >= 1 && p.idleCycles >= 1
    ensures Inv(Run(inputs, p), p)
  {
    if inputs != [] {
      RunKeeps(inputs[..|inputs| - 1], p);
      StepKeeps(Run(inputs[..|inputs| - 1], p), inputs[|inputs| - 1], p);
    }
  }

  /** In every run the bytes accepted are, in order, those of the packets handed on, of the packet
      not yet ended, and the held one; a packet has one channel and 1 to `maxPacket` bytes. */
  lemma PacketsKeepBytes(inputs: seq<Input>, p: Params)
    requires p.maxPacket >= 1 && p.idleCycles >= 1
    ensures var t := Run(inputs, p); var q := Parse(t.beats);
            && t.accepted == AllTags(q.complete) + OpenTags(q.open)
                             + (if t.state.held then [Tagged(t.state.channel, t.state.heldData)] else [])
            && (forall k <- q.complete :: 1 <= |k.payload| <= p.maxPacket)
            && (q.open.Some? ==> t.state.held && q.open.value.channel == t.state.channel)
  {
    RunKeeps(inputs, p);
  }

  /** `n` clocks with the output ready and no input. */
  function IdleClocks(t: Trace, n: nat, p: Params): Trace
    decreases n
  {
    if n == 0 then t else IdleClocks(Advance(t, Input(0, 0, false, true), p), n - 1, p)
  }

  function Flushed(t: Trace): seq<Beat> {
    t.beats + if t.state.held then [Beat(t.state.channel, t.state.heldData, true)] else []
  }

  /** The idle limit flushes: with the output ready and no input, a held byte leaves within
      idleCycles + 1 clocks, as the last of its packet, and nothing else happens. */
  lemma IdleFlushes(inputs: seq<Input>, p: Params)
    requires p.maxPacket >= 1 && p.idleCycles >= 1
    ensures var (t, n) := (Run(inputs, p), IdleClocks(Run(inputs, p), p.idleCycles + 1, p));
            !n.state.held && n.accepted == t.accepted && n.beats == Flushed(t)
  {
    RunKeeps(inputs, p);
    FlushSteps(Run(inputs, p), p.idleCycles + 1, p);
  }

  lemma {:induction false} FlushSteps(t: Trace, n: nat, p: Params)
    requires p.maxPacket >= 1 && p.idleCycles >= 1 && Inv(t, p)
    requires n >= if !t.state.held then 0 else if t.state.endPending then 1 else t.state.idle + 1
    ensures var u := IdleClocks(t, n, p);
            !u.state.held && u.accepted == t.accepted && u.beats == Flushed(t)
    decreases n
  {
    if n > 0 {
      var t' := Advance(t, Input(0, 0, false, true), p);
      StepKeeps(t, Input(0, 0, false, true), p);
      hide Inv, Parse;
      FlushOne(t, p);
      FlushSteps(t', n - 1, p);
    }
  }

  lemma FlushOne(t: Trace, p: Params)
    requires Inv(t, p)
    ensures var (t', s) := (Advance(t, Input(0, 0, false, true), p), t.state);
            && t'.accepted == t.accepted && Flushed(t') == Flushed(t)
            && (t'.state.held ==>
                  s.held && !s.endPending && (if s.idle == 1 then t'.state.endPending else t'.state.idle == s.idle - 1))
  {
  }

  // ---- Why a packet ends ----

  /** How many clocks ago the last byte was taken in. */
  function Age(inputs: seq<Input>, p: Params): nat {
    if inputs == [] then 0 else
    var before := inputs[..|inputs| - 1];
    if |Run(inputs, p).accepted| > |Run(before, p).accepted| then 0 else Age(before, p) + 1
  }

  /** For each packet, how long its last byte had been held when it left. */
  function Ages(inputs: seq<Input>, p: Params): seq<nat> {
    if inputs == [] then [] else
    var before := inputs[..|inputs| - 1];
    Ages(before, p)
    + if |Parse(Run(inputs, p).beats).complete| > |Parse(Run(before, p).beats).complete| then [Age(before, p)] else []
  }

  /** Full, or followed by a byte of another channel, or out of time. */
  predicate Justified(k: Packet, end: nat, accepted: seq<Tagged>, age: nat, p: Params) {
    || |k.payload| == p.maxPacket
    || (end < |accepted| && accepted[end].channel != k.channel)
    || age >= p.idleCycles
  }

  /** Where packet `m` ends among the bytes taken in. */
  function End(packets: seq<Packet>, m: nat): nat
    requires m < |packets|
  {
    |AllTags(packets[..m + 1])|
  }

  ghost predicate AgeInv(s: State, age: nat, p: Params) {
    s.held ==> if s.endPending then age >= p.idleCycles else s.idle + age == p.idleCycles
  }

  ghost predicate EndsInv(t: Trace, ages: seq<nat>, p: Params) {
    var k := Parse(t.beats).complete;
    && |ages| == |k|
    && forall m :: 0 <= m < |k| ==> End(k, m) <= |t.accepted| && Justified(k[m], End(k, m), t.accepted, ages[m], p)
  }

  /** The age of the held byte and the idle counter run together. */
  lemma AgeKeeps(t: Trace, i: Input, age: nat, p: Params)
    requires p.idleCycles >= 1 && Inv(t, p) && AgeInv(t.state, age, p)
    ensures var n := Advance(t, i, p);
            && |t.accepted| <= |n.accepted|
            && AgeInv(n.state, if |n.accepted| > |t.accepted| then 0 else age + 1, p)
  {
    hide Parse, AllTags, OpenTags;
  }

  /** A packet that ends has a reason to. */
  lemma EndIsJustified(t: Trace, i: Input, age: nat, p: Params)
    requires p.maxPacket >= 1 && p.idleCycles >= 1 && Inv(t, p) && AgeInv(t.state, age, p)
    requires |Parse(Advance(t, i, p).beats).complete| > |Parse(t.beats).complete|
    ensures var (k, k', n) := (Parse(t.beats).complete, Parse(Advance(t, i, p).beats).complete, Advance(t, i, p));
            && k' == k + [k'[|k|]] && |AllTags(k')| == |t.accepted|
            && Justified(k'[|k|], |t.accepted|, n.accepted, age, p)
  {
    hide Parse, AllTags, OpenTags, Advance;
    var s, q := t.state, Parse(t.beats);
    EndingBeat(t, i, p);
    BeatMovesTag(q, Beat(s.channel, s.heldData, true));
    NoOpenTags();
    AcceptedBy(t, i, p);
  }

  /** The beat that ends a packet. */
  lemma EndingBeat(t: Trace, i: Input, p: Params)
    requires |Parse(Advance(t, i, p).beats).complete| > |Parse(t.beats).complete|
    ensures var s := t.state;
            && OutputValid(s, i, p) && i.ready && OutputLast(s, i, p)
            && Parse(Advance(t, i, p).beats) == AddBeat(Parse(t.beats), Beat(s.channel, s.heldData, true))
  {
    hide SizeBoundary;
    var s, n := t.state, Advance(t, i, p);
    assert n.beats != t.beats;
    assert n.beats == t.beats + [Beat(s.channel, s.heldData, OutputLast(s, i, p))];
    assert n.beats[..|t.beats|] == t.beats;
  }

  lemma AcceptedBy(t: Trace, i: Input, p: Params)
    ensures Advance(t, i, p).accepted
         == if i.valid && InputReady(t.state, i, p) then t.accepted + [Tagged(i.channel, i.data)] else t.accepted
  {
  }

  lemma NoOpenTags()
    ensures OpenTags(None) == []
  {
  }

  lemma EndsSnoc(k: seq<Packet>, last: Packet, m: nat)
    requires m <= |k|
    ensures End(k + [last], m) == if m < |k| then End(k, m) else |AllTags(k + [last])|
  {
    if m < |k| {
      assert (k + [last])[..m + 1] == k[..m + 1];
    } else {
      assert (k + [last])[..m + 1] == k + [last];
    }
  }

  lemma StepEnds(t: Trace, i: Input, ages: seq<nat>, age: nat, p: Params)
    requires p.maxPacket >= 1 && p.idleCycles >= 1 && Inv(t, p) && AgeInv(t.state, age, p) && EndsInv(t, ages, p)
    ensures var n := Advance(t, i, p);
            EndsInv(n, ages + if |Parse(n.beats).complete| > |Parse(t.beats).complete| then [age] else [], p)
  {
    hide Inv, Parse, AllTags, End, Advance, Justified;
    var n := Advance(t, i, p);
    var (k, k') := (Parse(t.beats).complete, Parse(n.beats).complete);
    AcceptedGrows(t, i, p);
    PacketsGrow(t, i, p);
    StayJustified(k, ages, t.accepted, n.accepted, p);
    if |k'| > |k| {
      EndIsJustified(t, i, age, p);
      OneMoreEnd(k, k'[|k|], k', ages, age, n.accepted, |t.accepted|, p);
    } else {
      assert ages + [] == ages;
    }
  }

  lemma StayJustified(k: seq<Packet>, ages: seq<nat>, before: seq<Tagged>, after: seq<Tagged>, p: Params)
    requires |ages| == |k| && before <= after
    requires forall m :: 0 <= m < |k| ==> End(k, m) <= |before| && Justified(k[m], End(k, m), before, ages[m], p)
    ensures forall m :: 0 <= m < |k| ==> End(k, m) <= |after| && Justified(k[m], End(k, m), after, ages[m], p)
  {
    hide End;
  }

  lemma OneMoreEnd(k: seq<Packet>, last: Packet, k': seq<Packet>, ages: seq<nat>, age: nat,
                   accepted: seq<Tagged>, end: nat, p: Params)
    requires k' == k + [last] && |ages| == |k|
    requires |AllTags(k')| == end <= |accepted| && Justified(last, end, accepted, age, p)
    requires forall m :: 0 <= m < |k| ==> End(k, m) <= |accepted| && Justified(k[m], End(k, m), accepted, ages[m], p)
    ensures forall m :: 0 <= m < |k'| ==>
              End(k', m) <= |accepted| && Justified(k'[m], End(k', m), accepted, (ages + [age])[m], p)
  {
    hide End, Justified, AllTags;
    forall m | 0 <= m < |k'| ensures End(k', m) == if m < |k| then End(k, m) else end {
      EndsSnoc(k, last, m);
    }
  }

  lemma AcceptedGrows(t: Trace, i: Input, p: Params)
    ensures t.accepted <= Advance(t, i, p).accepted
  {
  }

  lemma PacketsGrow(t: Trace, i: Input, p: Params)
    ensures var (k, k') := (Parse(t.beats).complete, Parse(Advance(t, i, p).beats).complete);
            k' == k || |k'| > |k|
  {
    var n := Advance(t, i, p);
    if n.beats != t.beats {
      assert n.beats[..|t.beats|] == t.beats;
    }
  }

  lemma {:induction false} RunEnds(inputs: seq<Input>, p: Params)
    requires p.maxPacket >= 1 && p.idleCycles >= 1
    ensures AgeInv(Run(inputs, p).state, Age(inputs, p), p) && EndsInv(Run(inputs, p), Ages(inputs, p), p)
  {
    if inputs != [] {
      var before := inputs[..|inputs| - 1];
      RunEnds(before, p);
      RunKeeps(before, p);
      AgeKeeps(Run(before, p), inputs[|inputs| - 1], Age(before, p), p);
      StepEnds(Run(before, p), inputs[|inputs| - 1], Ages(before, p), Age(before, p), p);
      hide Inv, AgeInv, EndsInv, Parse, Advance;
    }
  }

  /** A packet ends only for a reason: in every run, each packet handed on is full, or the next byte taken in
      has another channel, or its last byte was held for the full idle limit. */
  lemma EndsForReason(inputs: seq<Input>, p: Params)
    requires p.maxPacket >= 1 && p.idleCycles >= 1
    ensures var t := Run(inputs, p);
            var (k, ages) := (Parse(t.beats).complete, Ages(inputs, p));
            && |ages| == |k|
            && forall m :: 0 <= m < |k| ==>
                 || |k[m].payload| == p.maxPacket
                 || (End(k, m) < |t.accepted| && t.accepted[End(k, m)].channel != k[m].channel)
                 || ages[m] >= p.idleCycles
  {
    RunEnds(inputs, p);
    hide Parse, End, Ages, Run;
  }

  /** The bytes of one channel, none of them the last for as long as the idle limit, go out in full packets,
      up to the one still open. */
  lemma FullPackets(inputs: seq<Input>, p: Params, channel: byte)
    requires p.maxPacket >= 1 && p.idleCycles >= 1
    requires forall b <- Run(inputs, p).accepted :: b.channel == channel
    requires forall age <- Ages(inputs, p) :: age < p.idleCycles
    ensures var t := Run(inputs, p);
            var (k, open) := (Parse(t.beats).complete, Parse(t.beats).open);
            && (forall q <- k :: |q.payload| == p.maxPacket && q.channel == channel)
            && |t.accepted| == |k| * p.maxPacket + (if open.Some? then |open.value.payload| else 0) + (if t.state.held then 1 else 0)
  {
    hide Run, Parse, AllTags, OpenTags, End, Ages;
    var t := Run(inputs, p);
    var q := Parse(t.beats);
    PacketsKeepBytes(inputs, p);
    EndsForReason(inputs, p);
    forall m | 0 <= m < |q.complete| ensures |q.complete[m].payload| == p.maxPacket && q.complete[m].channel == channel {
      assert Ages(inputs, p)[m] in Ages(inputs, p);
      assert q.complete[m] in q.complete;
      ChannelThroughout(t.accepted, q.complete, m, channel,
                        OpenTags(q.open) + (if t.state.held then [Tagged(t.state.channel, t.state.heldData)] else []));
    }
    TagCount(q.complete, p.maxPacket);
    OpenCount(q.open);
  }

  lemma OpenCount(open: Option<Packet>)
    ensures |OpenTags(open)| == if open.Some? then |open.value.payload| else 0
  {
  }

  lemma ChannelThroughout(accepted: seq<Tagged>, k: seq<Packet>, m: nat, channel: byte, rest: seq<Tagged>)
    requires m < |k| && |k[m].payload| >= 1
    requires accepted == AllTags(k) + rest && forall b <- accepted :: b.channel == channel
    ensures k[m].channel == channel
    ensures End(k, m) < |accepted| ==> accepted[End(k, m)].channel == channel
  {
    TagIn(k, m);
    hide AllTags, End;
    assert accepted[End(k, m) - 1] in accepted;
    if End(k, m) < |accepted| {
      assert accepted[End(k, m)] in accepted;
    }
  }

  /** The last byte of packet `m`, among all. */
  lemma {:induction false} TagIn(k: seq<Packet>, m: nat)
    requires m < |k| && |k[m].payload| >= 1
    ensures 0 < End(k, m) <= |AllTags(k)| && AllTags(k)[End(k, m) - 1].channel == k[m].channel
    decreases |k|
  {
    var before := k[..|k| - 1];
    if m < |before| {
      TagIn(before, m);
      assert before[..m + 1] == k[..m + 1];
    } else {
      assert k[..m + 1] == k;
    }
  }

  lemma {:induction false} TagCount(k: seq<Packet>, n: nat)
    requires forall q <- k :: |q.payload| == n
    ensures |AllTags(k)| == |k| * n
  {
    if k != [] {
      TagCount(k[..|k| - 1], n);
      assert |k| * n == (|k| - 1) * n + n;
    }
  }

  // ---- The registers ----

  class Registers {
    const p: Params
    var held: bool
    var endPending: bool
    var channel: byte
    var heldData: byte
    var count: nat
    var idle: nat

    ghost function Now(): State
      reads this
    {
      State(held, endPending, channel, heldData, count, idle)
    }

    constructor (p: Params)
      ensures this.p == p && Now() == RESET
    {
      this.p := p;
      held, endPending, channel, heldData, count, idle := false, false, 0, 0, 0, 0;
    }

    /** One clock; the beat handed on, and whether the input was taken. */
    method Clock(i: Input) returns (beat: Option<Beat>, taken: bool)
      modifies this
      ensures Now() == Step(old(Now()), i, p)
      ensures taken == (i.valid && InputReady(old(Now()), i, p))
      ensures beat == if OutputValid(old(Now()), i, p) && i.ready
                      then Some(Beat(old(channel), old(heldData), OutputLast(old(Now()), i, p))) else None
    {
      var channelBoundary := held && i.valid && i.channel != channel;
      var sizeBoundary := held && count == p.maxPacket;
      var valid := held && (i.valid || endPending || sizeBoundary);
      var last := endPending || channelBoundary || sizeBoundary;
      taken := i.valid && (!held || (i.ready && valid));
      beat := if valid && i.ready then Some(Beat(channel, heldData, last)) else None;
      var nextIdle, nextEnd := idle, endPending;
      if held && idle != 0 {
        nextIdle := idle - 1;
      }
      if held && idle == 1 {
        nextEnd := true;
      }
      if valid && i.ready {
        if i.valid {
          held, heldData, channel := true, i.data, i.channel;
          count := if last then 1 else count + 1;
          nextIdle, nextEnd := p.idleCycles, false;
        } else {
          held, count, nextIdle, nextEnd := false, 0, 0, false;
        }
      } else if !held && i.valid {
        held, heldData, channel, count := true, i.data, i.channel, 1;
        nextIdle := p.idleCycles;
      }
      idle, endPending := nextIdle, nextEnd;
    }
  }
}
