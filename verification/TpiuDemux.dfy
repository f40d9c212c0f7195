/** The clocked trace demultiplexer: it takes formatter frames byte by byte and emits their data
    bytes with their sources, one slot a clock, under any stalls of its reader. */
module TpiuDemux {
  import opened Bytes
  import opened Tpiu

  datatype State = State(synced: bool, window: u32, frame: seq<byte>, fill: nat, emit: nat, emitting: bool,
                         channel: Channel, delayedChannel: Channel, delayedValid: bool, losses: nat)

  datatype Input = Input(resetSync: bool, data: byte, valid: bool, ready: bool, m3Source: bool)

  const FULL_SYNC: u32 := 0x7fff_ffff
  const M3_EXPECTED_CHANNEL := 1

  predicate Sound(s: State) {
    |s.frame| == 16 && s.fill < 16 && s.emit < 15
  }

  predicate OutputValid(s: State)
    requires Sound(s)
  {
    s.emitting && !IsId(s.frame, s.emit) && s.channel != 0
  }

  /** The slot being emitted moves on this clock. */
  predicate Moves(s: State, ready: bool)
    requires Sound(s)
  {
    s.emitting && (IsId(s.frame, s.emit) || s.channel == 0 || ready)
  }

  /** An identifier that the Cortex-M3 never sends: proof of a false lock. */
  predicate GateTrips(s: State, i: Input)
    requires Sound(s)
  {
    i.m3Source && Moves(s, i.ready) && IsId(s.frame, s.emit) && Restored(s.frame, s.emit) / 2 != M3_EXPECTED_CHANNEL
  }

  function Accepted(s: State, b: byte): State
    requires Sound(s)
  {
    var w := s.(window := Shifted(s.window, b));
    if !s.synced then
      if Shifted(s.window, b) == FULL_SYNC then w.(synced := true, fill := 0) else w
    else
      var f := w.(frame := s.frame[s.fill := b]);
      if s.fill == 15 then f.(fill := 0, emit := 0, emitting := true) else f.(fill := s.fill + 1)
  }

  function Emitted(s: State): State
    requires Sound(s)
  {
    var data := Restored(s.frame, s.emit);
    var n := if IsId(s.frame, s.emit) then
               if data % 2 == 1 then s.(delayedChannel := data / 2, delayedValid := true) else s.(channel := data / 2)
             else if s.delayedValid then s.(channel := s.delayedChannel, delayedValid := false)
             else s;
    if s.emit == 14 then n.(emitting := false) else n.(emit := s.emit + 1)
  }

  /** A reset of the lock is overridden, field by field, by what the rest of the clock assigns. */
  function Step(s: State, i: Input): State
    requires Sound(s)
  {
    var n := if GateTrips(s, i) then s.(synced := false, fill := 0, emitting := false, losses := s.losses + 1)
             else if Moves(s, i.ready) then Emitted(s)
             else if i.valid && !s.emitting then Accepted(s, i.data)
             else s;
    if !i.resetSync then n else
    n.(losses := if s.synced then s.losses + 1 else n.losses,
       synced := i.valid && !s.emitting && !s.synced && n.synced,
       fill := if i.valid && !s.emitting && s.synced then n.fill else 0,
       emitting := i.valid && !s.emitting && s.synced && s.fill == 15)
  }

  lemma StepSound(s: State, i: Input)
    requires Sound(s)
    ensures Sound(Step(s, i))
  {
  }

  function IdsOf(s: State): Ids {
    Ids(s.channel, if s.delayedValid then Some(s.delayedChannel) else None)
  }

  /** The bytes taken while locked, and the bytes given to the reader. */
  datatype Trace = Trace(state: State, taken: seq<byte>, out: seq<Muxed>)

  function Advance(t: Trace, i: Input): Trace
    requires Sound(t.state)
  {
    var s := t.state;
    Trace(Step(s, i),
          if i.valid && !s.emitting then t.taken + [i.data] else t.taken,
          if OutputValid(s) && i.ready then t.out + [Muxed(s.channel, Restored(s.frame, s.emit))] else t.out)
  }

  /** Neither a reset of the lock nor the Cortex-M3 gate intervenes. */
  predicate Calm(s: State, i: Input)
    requires Sound(s)
  {
    !i.resetSync && !GateTrips(s, i)
  }

  ghost predicate Inv(t: Trace, ids: Ids) {
    var s := t.state;
    && Sound(s) && s.synced
    && if !s.emitting then
         var d := Decode(t.taken, ids);
         IdsOf(s) == d.ids && s.frame[..s.fill] == d.rest && t.out == d.out
       else
         && |t.taken| >= 16 && s.fill == 0
         && var front := t.taken[..|t.taken| - 16];
            var d := Decode(front, ids);
            && d.rest == [] && t.taken == front + s.frame
            && Slots(s.frame, s.emit, d.ids).ids == IdsOf(s)
            && t.out == d.out + Slots(s.frame, s.emit, d.ids).out
  }

  lemma {:induction false} DecodeAppends(a: seq<byte>, b: seq<byte>, ids: Ids)
    requires Decode(a, ids).rest == []
    ensures var (d, e) := (Decode(a, ids), Decode(b, Decode(a, ids).ids));
            Decode(a + b, ids) == e.(out := d.out + e.out)
    decreases |a|
  {
    hide DecodeFrame;
    if |a| < 16 {
      assert a + b == b;
      assert [] + Decode(b, ids).out == Decode(b, ids).out;
    } else {
      assert (a + b)[..16] == a[..16] && (a + b)[16..] == a[16..] + b;
      var first := DecodeFrame(a[..16], ids);
      DecodeAppends(a[16..], b, first.ids);
      var d, e := Decode(a[16..], first.ids), Decode(b, Decode(a, ids).ids);
      assert first.out + (d.out + e.out) == first.out + d.out + e.out;
    }
  }

  /** Everything but the part of a frame left over. */
  lemma {:induction false} DecodeFront(bytes: seq<byte>, ids: Ids)
    ensures var d := Decode(bytes, ids);
            |d.rest| <= |bytes| &&
            var front := bytes[..|bytes| - |d.rest|];
            bytes == front + d.rest && Decode(front, ids) == d.(rest := [])
    decreases |bytes|
  {
    hide DecodeFrame;
    if |bytes| >= 16 {
      var first := DecodeFrame(bytes[..16], ids);
      DecodeFront(bytes[16..], first.ids);
      var rest := Decode(bytes, ids).rest;
      var front := bytes[..|bytes| - |rest|];
      assert front[..16] == bytes[..16] && front[16..] == bytes[16..][..|bytes[16..]| - |rest|];
    } else {
      assert bytes[..0] == [] && [] + bytes == bytes;
    }
  }

  lemma StepTakes(t: Trace, i: Input)
    requires Sound(t.state) && Calm(t.state, i) && !t.state.emitting && i.valid
    ensures Advance(t, i) == Trace(Accepted(t.state, i.data), t.taken + [i.data], t.out)
  {
    hide Accepted, IsId, Restored;
  }

  lemma AcceptedIs(s: State, b: byte)
    requires Sound(s) && s.synced && !s.emitting
    ensures var n := Accepted(s, b);
            && Sound(n) && n.synced && IdsOf(n) == IdsOf(s)
            && if s.fill == 15 then n.emitting && n.emit == 0 && n.fill == 0 && n.frame == s.frame[..15] + [b]
               else !n.emitting && n.fill == s.fill + 1 && n.frame[..s.fill + 1] == s.frame[..s.fill] + [b]
  {
    hide Shifted;
  }

  lemma TakeKeeps(t: Trace, i: Input, ids: Ids)
    requires Inv(t, ids) && Calm(t.state, i) && !t.state.emitting && i.valid
    ensures Inv(Advance(t, i), ids)
  {
    hide Decode, Slots, DecodeFrame, Accepted, Advance, Calm, IdsOf, Moves, OutputValid;
    var (s, d) := (t.state, Decode(t.taken, ids));
    StepTakes(t, i);
    AcceptedIs(s, i.data);
    var n := Trace(Accepted(s, i.data), t.taken + [i.data], t.out);
    if s.fill == 15 {
      DecodeFront(t.taken, ids);
      FrameTaken(t.taken, i.data, n.state.frame, d.rest);
      NoSlots(n.state.frame, d.ids);
      assert d.out + [] == d.out;
    } else {
      DecodeSnoc(t.taken, i.data, ids);
    }
  }

  /** The sixteenth byte of a frame. */
  lemma FrameTaken(taken: seq<byte>, b: byte, frame: seq<byte>, rest: seq<byte>)
    requires |taken| >= 15 == |rest| && taken == taken[..|taken| - 15] + rest && frame == rest + [b]
    ensures var n := taken + [b];
            n[..|n| - 16] == taken[..|taken| - 15] && n == taken[..|taken| - 15] + frame
  {
  }

  lemma NoSlots(raw: seq<byte>, ids: Ids)
    requires |raw| == 16
    ensures Slots(raw, 0, ids) == Decoded(ids, [])
  {
  }

  lemma StepEmits(t: Trace, i: Input)
    requires Sound(t.state) && Calm(t.state, i) && Moves(t.state, i.ready)
    ensures var s := t.state;
            Advance(t, i) == Trace(Emitted(s), t.taken, t.out + OneSlot(IdsOf(s), IsId(s.frame, s.emit), Restored(s.frame, s.emit)).out)
  {
    hide Emitted, IsId, Restored;
    assert t.out + [] == t.out;
  }

  lemma Regroup(a: seq<Muxed>, b: seq<Muxed>, c: seq<Muxed>)
    ensures a + b + c == a + (b + c)
  {
  }

  lemma EmitKeeps(t: Trace, i: Input, ids: Ids)
    requires Inv(t, ids) && Calm(t.state, i) && Moves(t.state, i.ready)
    ensures Inv(Advance(t, i), ids)
  {
    var s, front := t.state, t.taken[..|t.taken| - 16];
    var d := Decode(front, ids);
    SlotsStep(s.frame, s.emit, d.ids);
    var (before, now) := (Slots(s.frame, s.emit, d.ids), Slots(s.frame, s.emit + 1, d.ids));
    var slot := OneSlot(before.ids, IsId(s.frame, s.emit), Restored(s.frame, s.emit));
    EmittedIs(s);
    StepEmits(t, i);
    hide Slots, IsId, Restored, Emitted, Advance, Calm, IdsOf, OneSlot, Moves;
    var n := Trace(Emitted(s), t.taken, t.out + slot.out);
    Regroup(d.out, before.out, slot.out);
    assert n.out == d.out + now.out && IdsOf(n.state) == now.ids;
    if s.emit == 14 {
      DecodeAppends(front, s.frame, ids);
      OneFrame(s.frame, d.ids);
      hide Decode;
      assert n.state.frame[..0] == [];
    } else {
      hide Decode;
    }
  }

  lemma EmittedIs(s: State)
    requires Sound(s)
    ensures var n := Emitted(s);
            && IdsOf(n) == OneSlot(IdsOf(s), IsId(s.frame, s.emit), Restored(s.frame, s.emit)).ids
            && n.frame == s.frame && n.fill == s.fill && n.synced == s.synced
            && if s.emit == 14 then n.emitting == false && n.emit == 14
               else n.emitting == s.emitting && n.emit == s.emit + 1
  {
    hide IsId, Restored;
  }

  lemma OneFrame(raw: seq<byte>, ids: Ids)
    requires |raw| == 16
    ensures Decode(raw, ids) == Stream(Slots(raw, 15, ids).ids, Slots(raw, 15, ids).out, [])
  {
    hide Slots;
    assert raw[..16] == raw && raw[16..] == [];
    var f := DecodeFrame(raw, ids);
    assert Decode([], f.ids) == Stream(f.ids, [], []);
    assert f.out + [] == f.out;
  }

  lemma StepKeeps(t: Trace, i: Input, ids: Ids)
    requires Inv(t, ids) && Calm(t.state, i)
    ensures Inv(Advance(t, i), ids)
  {
    if Moves(t.state, i.ready) {
      EmitKeeps(t, i, ids);
    } else if i.valid && !t.state.emitting {
      TakeKeeps(t, i, ids);
    } else {
      hide Decode, Slots, IsId, Restored;
    }
  }

  // ---- Whole runs ----

  function Run(s: State, inputs: seq<Input>): (t: Trace)
    requires Sound(s)
    ensures Sound(t.state)
  {
    if inputs == [] then Trace(s, [], []) else
    var before := Run(s, inputs[..|inputs| - 1]);
    StepSound(before.state, inputs[|inputs| - 1]);
    Advance(before, inputs[|inputs| - 1])
  }

  /** Calm on every clock. */
  predicate CalmRun(s: State, inputs: seq<Input>)
    requires Sound(s)
  {
    if inputs == [] then true else
    var last := |inputs| - 1;
    CalmRun(s, inputs[..last]) && Calm(Run(s, inputs[..last]).state, inputs[last])
  }

  lemma {:induction false} RunKeeps(s: State, inputs: seq<Input>)
    requires Sound(s) && s.synced && s.fill == 0 && !s.emitting && CalmRun(s, inputs)
    ensures Inv(Run(s, inputs), IdsOf(s))
  {
    if inputs == [] {
      assert s.frame[..0] == [];
    } else {
      hide Inv, Step, Calm;
      var last := |inputs| - 1;
      RunKeeps(s, inputs[..last]);
      StepKeeps(Run(s, inputs[..last]), inputs[last], IdsOf(s));
    }
  }

  /** From a fresh lock, under any stalls of either side, the demultiplexer has given its reader a
      prefix of what the host's decoder makes of the same bytes, and exactly that whenever it is ready
      for another byte. */
  lemma DemuxMatchesHost(s: State, inputs: seq<Input>, h: Host)
    requires Sound(s) && s.synced && s.fill == 0 && !s.emitting && CalmRun(s, inputs)
    requires h.synced && h.frame == [] && h.ids == IdsOf(s)
    ensures var t := Run(s, inputs);
            && t.out <= HostRun(h, t.taken).1
            && (!t.state.emitting ==>
                  var r := HostRun(h, t.taken);
                  t.out == r.1 && IdsOf(t.state) == r.0.ids && t.state.frame[..t.state.fill] == r.0.frame)
  {
    RunKeeps(s, inputs);
    var t := Run(s, inputs);
    HostDecodesFrames(h, t.taken);
    hide Decode, Slots, Run, HostRun;
    if t.state.emitting {
      var front := t.taken[..|t.taken| - 16];
      var d := Decode(front, IdsOf(s));
      DecodeAppends(front, t.state.frame, IdsOf(s));
      OneFrame(t.state.frame, d.ids);
      SlotsGrow(t.state.frame, t.state.emit, 15, d.ids);
    }
  }

  lemma {:induction false} SlotsGrow(raw: seq<byte>, m: nat, n: nat, ids: Ids)
    requires |raw| == 16 && m <= n <= 15
    ensures Slots(raw, m, ids).out <= Slots(raw, n, ids).out
    decreases n
  {
    if m < n {
      SlotsGrow(raw, m, n - 1, ids);
    }
  }

  // ---- The Cortex-M3 gate, on the bytes ----

  /** An identifier slot that names another channel than the Cortex-M3's. */
  predicate Foreign(raw: seq<byte>, n: nat)
    requires |raw| == 16 && n < 15
  {
    IsId(raw, n) && Restored(raw, n) / 2 != M3_EXPECTED_CHANNEL
  }

  predicate GenuineFrame(raw: seq<byte>, n: nat)
    requires |raw| == 16 && n <= 15
  {
    forall k :: 0 <= k < n ==> !Foreign(raw, k)
  }

  function FrameAt(bytes: seq<byte>, j: nat): (raw: seq<byte>)
    requires j < |bytes| / 16
    ensures |raw| == 16
  {
    bytes[16 * j..16 * j + 16]
  }

  /** No whole frame of the bytes holds a foreign identifier. */
  predicate Genuine(bytes: seq<byte>) {
    forall j :: 0 <= j < |bytes| / 16 ==> GenuineFrame(FrameAt(bytes, j), 15)
  }

  lemma GenuineSnoc(bytes: seq<byte>, b: byte)
    ensures |bytes| % 16 != 15 ==> (Genuine(bytes + [b]) <==> Genuine(bytes))
    ensures |bytes| % 16 == 15 ==> (Genuine((bytes + [b])[..|bytes| - 15]) <==> Genuine(bytes))
  {
    hide GenuineFrame;
    var n := |bytes| / 16;
    forall j | 0 <= j < n ensures FrameAt(bytes + [b], j) == FrameAt(bytes, j) {
    }
    if |bytes| % 16 == 15 {
      var front := (bytes + [b])[..|bytes| - 15];
      assert |front| / 16 == n;
      forall j | 0 <= j < n ensures FrameAt(front, j) == FrameAt(bytes, j) {
      }
    }
  }

  lemma GenuineWhole(front: seq<byte>, raw: seq<byte>)
    requires |front| % 16 == 0 && |raw| == 16
    ensures Genuine(front + raw) <==> Genuine(front) && GenuineFrame(raw, 15)
  {
    hide GenuineFrame;
    var n := |front| / 16;
    assert |front + raw| / 16 == n + 1;
    forall j | 0 <= j < n ensures FrameAt(front + raw, j) == FrameAt(front, j) {
    }
    assert FrameAt(front + raw, n) == raw;
  }

  /** A foreign identifier is not undone by bytes that follow. */
  lemma GenuinePrefix(bytes: seq<byte>, more: seq<byte>)
    requires bytes <= more && Genuine(more)
    ensures Genuine(bytes)
  {
    hide GenuineFrame;
    forall j | 0 <= j < |bytes| / 16 ensures GenuineFrame(FrameAt(bytes, j), 15) {
      assert FrameAt(bytes, j) == FrameAt(more, j);
    }
  }

  lemma {:induction false} RestLength(bytes: seq<byte>, ids: Ids)
    ensures |Decode(bytes, ids).rest| == |bytes| % 16
    decreases |bytes|
  {
    hide DecodeFrame;
    if |bytes| >= 16 {
      RestLength(bytes[16..], DecodeFrame(bytes[..16], ids).ids);
    }
  }

  /** What has passed the gate so far. */
  ghost predicate Passed(t: Trace)
    requires Sound(t.state)
  {
    if t.state.emitting then |t.taken| >= 16 && Genuine(t.taken[..|t.taken| - 16]) && GenuineFrame(t.state.frame, t.state.emit)
    else Genuine(t.taken)
  }

  lemma StepPasses(t: Trace, i: Input, ids: Ids)
    requires Inv(t, ids) && Passed(t) && Calm(t.state, i) && i.m3Source
    ensures Sound(Step(t.state, i)) && Passed(Advance(t, i))
  {
    StepSound(t.state, i);
    if Moves(t.state, i.ready) {
      EmitPasses(t, i, ids);
    } else if i.valid && !t.state.emitting {
      TakePasses(t, i, ids);
    } else {
      hide Decode, Slots, Genuine, GenuineFrame, IsId, Restored, Inv;
    }
  }

  lemma EmitPasses(t: Trace, i: Input, ids: Ids)
    requires Inv(t, ids) && Passed(t) && Calm(t.state, i) && i.m3Source && Moves(t.state, i.ready)
    ensures Passed(Advance(t, i))
  {
    var s := t.state;
    EmittedIs(s);
    StepEmits(t, i);
    Front(t, ids);
    hide Decode, Slots, Genuine, GenuineFrame, IsId, Restored, Emitted, Advance, OneSlot, IdsOf, Inv;
    NotForeign(s, i);
    GenuineGrows(s.frame, s.emit);
    GenuineWhole(t.taken[..|t.taken| - 16], s.frame);
  }

  lemma Front(t: Trace, ids: Ids)
    requires Inv(t, ids) && t.state.emitting
    ensures |t.taken| >= 16 && t.taken == t.taken[..|t.taken| - 16] + t.state.frame && |t.taken[..|t.taken| - 16]| % 16 == 0
  {
    RestLength(t.taken[..|t.taken| - 16], ids);
    hide Decode, Slots;
  }

  lemma NotForeign(s: State, i: Input)
    requires Sound(s) && Calm(s, i) && i.m3Source && Moves(s, i.ready)
    ensures !Foreign(s.frame, s.emit)
  {
    hide Restored;
  }

  lemma GenuineGrows(raw: seq<byte>, n: nat)
    requires |raw| == 16 && n < 15 && GenuineFrame(raw, n) && !Foreign(raw, n)
    ensures GenuineFrame(raw, n + 1)
  {
    hide Foreign;
  }

  lemma TakePasses(t: Trace, i: Input, ids: Ids)
    requires Inv(t, ids) && Passed(t) && Calm(t.state, i) && i.valid && !t.state.emitting
    ensures Passed(Advance(t, i))
  {
    StepTakes(t, i);
    AcceptedIs(t.state, i.data);
    FillIsRest(t, ids);
    GenuineSnoc(t.taken, i.data);
    hide Decode, Genuine, IdsOf, Accepted, Advance, Calm, Inv;
    assert GenuineFrame(t.state.frame, 0);
  }

  lemma FillIsRest(t: Trace, ids: Ids)
    requires Inv(t, ids) && !t.state.emitting
    ensures t.state.fill == |t.taken| % 16
  {
    RestLength(t.taken, ids);
    hide Decode;
    assert |t.state.frame[..t.state.fill]| == t.state.fill;
  }

  predicate NoReset(inputs: seq<Input>) {
    forall i <- inputs :: !i.resetSync
  }

  lemma {:induction false} RunPasses(s: State, inputs: seq<Input>)
    requires Sound(s) && s.synced && s.fill == 0 && !s.emitting && CalmRun(s, inputs)
    requires forall i <- inputs :: i.m3Source
    ensures Passed(Run(s, inputs))
  {
    if inputs != [] {
      hide Inv, Passed, Step, Calm;
      var last := |inputs| - 1;
      RunPasses(s, inputs[..last]);
      RunKeeps(s, inputs[..last]);
      StepPasses(Run(s, inputs[..last]), inputs[last], IdsOf(s));
    } else {
      hide GenuineFrame;
    }
  }

  /** A run that is not calm, without resets: the gate trips on a foreign identifier.  Up to it the reader
      has been given exactly the data slots before it; the lock and the frame are dropped and a loss is
      counted; and if the Cortex-M3 was the source all along, it is the first such identifier. */
  lemma {:induction false} GateDropsAtForeign(s: State, inputs: seq<Input>) returns (k: nat)
    requires Sound(s) && s.synced && s.fill == 0 && !s.emitting && NoReset(inputs) && !CalmRun(s, inputs)
    ensures k < |inputs| && CalmRun(s, inputs[..k]) && inputs[k].m3Source
    ensures var (t, n) := (Run(s, inputs[..k]), Run(s, inputs[..k + 1]));
            && t.state.emitting && |t.taken| >= 16 && t.taken[|t.taken| - 16..] == t.state.frame
            && var (front, raw, e) := (t.taken[..|t.taken| - 16], t.state.frame, t.state.emit);
               && |front| % 16 == 0 && Foreign(raw, e)
               && n.taken == t.taken
               && n.out == Decode(front, IdsOf(s)).out + Slots(raw, e, Decode(front, IdsOf(s)).ids).out
               && !n.state.synced && !n.state.emitting && n.state.fill == 0 && n.state.losses == t.state.losses + 1
               && ((forall i <- inputs :: i.m3Source) ==> Genuine(front) && GenuineFrame(raw, e))
  {
    hide Genuine, GenuineFrame, Run, Calm, Foreign, Decode, Slots, Inv, Passed;
    var last := |inputs| - 1;
    if CalmRun(s, inputs[..last]) {
      k := last;
      assert inputs[..last + 1] == inputs;
      OneMoreRun(s, inputs, last);
      RunKeeps(s, inputs[..last]);
      assert inputs[last] in inputs;
      NotCalm(Run(s, inputs[..last]).state, inputs[last]);
      Trips(Run(s, inputs[..last]), inputs[last], IdsOf(s));
      if forall i <- inputs :: i.m3Source {
        RunPasses(s, inputs[..last]);
        PassedFront(Run(s, inputs[..last]));
      }
    } else {
      assert forall i <- inputs[..last] :: i in inputs;
      k := GateDropsAtForeign(s, inputs[..last]);
      assert inputs[..last][..k] == inputs[..k] && inputs[..last][..k + 1] == inputs[..k + 1];
    }
  }

  lemma NotCalm(s: State, i: Input)
    requires Sound(s) && !Calm(s, i) && !i.resetSync
    ensures GateTrips(s, i) && i.m3Source
  {
  }

  lemma PassedFront(t: Trace)
    requires Sound(t.state) && Passed(t) && t.state.emitting
    ensures |t.taken| >= 16 && Genuine(t.taken[..|t.taken| - 16]) && GenuineFrame(t.state.frame, t.state.emit)
  {
  }

  lemma OneMoreRun(s: State, inputs: seq<Input>, k: nat)
    requires Sound(s) && k < |inputs|
    ensures Run(s, inputs[..k + 1]) == Advance(Run(s, inputs[..k]), inputs[k])
  {
    hide Step;
    assert inputs[..k + 1][..k] == inputs[..k];
  }

  /** The clock on which the gate trips. */
  lemma Trips(t: Trace, i: Input, ids: Ids)
    requires Inv(t, ids) && GateTrips(t.state, i) && !i.resetSync
    ensures var (n, front) := (Advance(t, i), t.taken[..|t.taken| - 16]);
            && t.state.emitting && Foreign(t.state.frame, t.state.emit) && |t.taken| >= 16 && |front| % 16 == 0
            && t.taken[|t.taken| - 16..] == t.state.frame
            && n.taken == t.taken && n.out == t.out
            && n.out == Decode(front, ids).out + Slots(t.state.frame, t.state.emit, Decode(front, ids).ids).out
            && !n.state.synced && !n.state.emitting && n.state.fill == 0 && n.state.losses == t.state.losses + 1
  {
    RestLength(t.taken[..|t.taken| - 16], ids);
    hide Decode, Slots, Restored;
  }

  lemma {:induction false} TakenGrows(s: State, inputs: seq<Input>, k: nat)
    requires Sound(s) && k <= |inputs|
    ensures Run(s, inputs[..k]).taken <= Run(s, inputs).taken
    decreases |inputs|
  {
    hide Step, OutputValid;
    if k < |inputs| {
      var last := |inputs| - 1;
      TakenGrows(s, inputs[..last], k);
      assert inputs[..last][..k] == inputs[..k];
    } else {
      assert inputs[..k] == inputs;
    }
  }

  /** Calm, said of the input: without resets, a run is calm if the Cortex-M3 is never the source or no
      whole frame taken holds a foreign identifier; and if the Cortex-M3 is the source all along, only
      then, once every byte taken has been through the gate. */
  lemma CalmOnBytes(s: State, inputs: seq<Input>)
    requires Sound(s) && s.synced && s.fill == 0 && !s.emitting && NoReset(inputs)
    ensures ((forall i <- inputs :: !i.m3Source) || Genuine(Run(s, inputs).taken)) ==> CalmRun(s, inputs)
    ensures ((forall i <- inputs :: i.m3Source) && CalmRun(s, inputs) && !Run(s, inputs).state.emitting) ==>
              Genuine(Run(s, inputs).taken)
  {
    hide Run, Calm, CalmRun, Genuine, GenuineFrame, Foreign, Decode, Slots;
    if !CalmRun(s, inputs) {
      var k := GateDropsAtForeign(s, inputs);
      assert inputs[k] in inputs;
      var t := Run(s, inputs[..k]);
      TakenGrows(s, inputs, k);
      NotGenuine(t, Run(s, inputs).taken);
    } else if forall i <- inputs :: i.m3Source {
      RunPasses(s, inputs);
    }
  }

  lemma NotGenuine(t: Trace, more: seq<byte>)
    requires Sound(t.state) && |t.taken| >= 16 && |t.taken| % 16 == 0 && t.taken[|t.taken| - 16..] == t.state.frame
    requires Foreign(t.state.frame, t.state.emit) && t.taken <= more
    ensures !Genuine(more)
  {
    hide Genuine, Foreign;
    var front := t.taken[..|t.taken| - 16];
    assert t.taken == front + t.state.frame;
    GenuineWhole(front, t.state.frame);
    if Genuine(more) {
      GenuinePrefix(t.taken, more);
    }
  }

  // ---- Locking ----

  /** The window after more bytes. */
  function Windowed(window: u32, bytes: seq<byte>): u32 {
    if bytes == [] then window else Shifted(Windowed(window, bytes[..|bytes| - 1]), bytes[|bytes| - 1])
  }

  lemma StepWindow(t: Trace, i: Input)
    requires Sound(t.state)
    ensures var n := Advance(t, i);
            if i.valid && !t.state.emitting
            then n.taken == t.taken + [i.data] && n.state.window == Shifted(t.state.window, i.data)
            else n.taken == t.taken && n.state.window == t.state.window
  {
    hide Shifted, Restored, IsId;
  }

  /** Only bytes taken move the window. */
  lemma {:induction false} RunWindow(s: State, inputs: seq<Input>)
    requires Sound(s)
    ensures Run(s, inputs).state.window == Windowed(s.window, Run(s, inputs).taken)
  {
    hide Shifted, Step, OutputValid;
    if inputs != [] {
      var (t, i) := (Run(s, inputs[..|inputs| - 1]), inputs[|inputs| - 1]);
      RunWindow(s, inputs[..|inputs| - 1]);
      StepWindow(t, i);
      WindowedOne(s.window, t.taken, i.data);
    }
  }

  lemma WindowedOne(window: u32, bytes: seq<byte>, b: byte)
    ensures Windowed(window, bytes + [b]) == Shifted(Windowed(window, bytes), b)
  {
    hide Shifted;
    assert (bytes + [b])[..|bytes|] == bytes;
  }

  lemma WindowedThree(window: u32, bytes: seq<byte>, d: byte)
    requires |bytes| >= 3
    ensures var n := |bytes|;
            Shifted(Windowed(window, bytes), d) == FULL_SYNC <==> bytes[n - 3..] + [d] == [0xff, 0xff, 0xff, 0x7f]
  {
    hide Shifted, Windowed;
    var n := |bytes|;
    var (front, a, b, c) := (bytes[..n - 3], bytes[n - 3], bytes[n - 2], bytes[n - 1]);
    assert bytes == front + [a] + [b] + [c];
    WindowedOne(window, front, a);
    WindowedOne(window, front + [a], b);
    WindowedOne(window, front + [a] + [b], c);
    assert bytes[n - 3..] + [d] == [a, b, c, d];
    Window(Windowed(window, front), a, b, c, d);
  }

  /** In any run, whatever clocks lie between the bytes and whatever resets and trips of the gate: a
      demultiplexer without a lock gets one on a clock exactly when it takes a byte then and the last four
      taken are ff ff ff 7f, in order of arrival.  It is then at the start of a frame. */
  lemma DemuxLocksOn(s: State, inputs: seq<Input>, i: Input)
    requires Sound(s) && !Run(s, inputs).state.synced && |Run(s, inputs).taken| >= 3
    ensures var t := Run(s, inputs);
            var n := Advance(t, i);
            && (n.state.synced <==> i.valid && !t.state.emitting
                                    && t.taken[|t.taken| - 3..] + [i.data] == [0xff, 0xff, 0xff, 0x7f])
            && (n.state.synced ==> n.state.fill == 0 && !n.state.emitting)
  {
    RunWindow(s, inputs);
    var t := Run(s, inputs);
    WindowedThree(s.window, t.taken, i.data);
    hide Run, Shifted, Windowed, Restored, IsId;
  }

  // ---- Losses ----

  /** On how many clocks a lock was lost. */
  function LocksLost(s: State, inputs: seq<Input>): nat
    requires Sound(s)
  {
    if inputs == [] then 0 else
    var last := |inputs| - 1;
    LocksLost(s, inputs[..last])
    + if Run(s, inputs[..last]).state.synced && !Run(s, inputs).state.synced then 1 else 0
  }

  /** And on how many the gate tripped without a lock. */
  function LateTrips(s: State, inputs: seq<Input>): nat
    requires Sound(s)
  {
    if inputs == [] then 0 else
    var last := |inputs| - 1;
    var before := Run(s, inputs[..last]).state;
    LateTrips(s, inputs[..last]) + if !before.synced && GateTrips(before, inputs[last]) then 1 else 0
  }

  lemma StepLosses(s: State, i: Input)
    requires Sound(s)
    ensures var n := Step(s, i);
            && n.losses == s.losses + (if s.synced && !n.synced then 1 else 0) + (if !s.synced && GateTrips(s, i) then 1 else 0)
  {
    hide Shifted, Restored, IsId;
  }

  /** In every run the counter counts the locks lost, and once more each trip of the gate without a lock.  There can
      be such trips: a reset of the lock on the clock that takes a frame's last byte still starts the frame, and
      an identifier of another channel at its front then counts the one lock a second time. */
  lemma {:induction false} LossesCounted(s: State, inputs: seq<Input>)
    requires Sound(s)
    ensures Run(s, inputs).state.losses == s.losses + LocksLost(s, inputs) + LateTrips(s, inputs)
  {
    if inputs != [] {
      hide Step, GateTrips;
      var last := |inputs| - 1;
      LossesCounted(s, inputs[..last]);
      StepLosses(Run(s, inputs[..last]).state, inputs[last]);
    }
  }

  lemma CountedTwice(s: State, i: Input, j: Input)
    requires Sound(s) && s.synced && !s.emitting && s.fill == 15 && i.valid && i.resetSync && j.m3Source
    requires s.frame[0] % 2 == 1 && s.frame[0] / 2 != 1
    ensures var t := Run(s, [i, j]);
            t.state.losses == s.losses + 2 && LocksLost(s, [i, j]) == 1 && LateTrips(s, [i, j]) == 1
  {
    var n := Step(s, i);
    LateFrame(s, i);
    assert GateTrips(n, j);
    hide Step, GateTrips;
    assert [i, j][..1] == [i] && [i][..0] == [];
    assert Run(s, []).state == s && Run(s, [i]).state == n;
    StepLosses(s, i);
    StepLosses(n, j);
    LossesCounted(s, [i, j]);
    assert LocksLost(s, []) == 0 && LateTrips(s, []) == 0;
  }

  lemma LateFrame(s: State, i: Input)
    requires Sound(s) && s.synced && !s.emitting && s.fill == 15 && i.valid && i.resetSync
    ensures var n := Step(s, i);
            Sound(n) && !n.synced && n.emitting && n.emit == 0 && n.frame[0] == s.frame[0] && n.losses == s.losses + 1
  {
    hide Shifted;
  }

  // ---- It takes input ----

  /** The slots of the frame not emitted yet. */
  function Remaining(s: State): nat
    requires Sound(s)
  {
    if s.emitting then 15 - s.emit else 0
  }

  lemma StepPace(t: Trace, i: Input)
    requires Sound(t.state) && i.valid && i.ready
    ensures var (s, n) := (t.state, Advance(t, i));
            && Sound(n.state)
            && 16 * Remaining(n.state) + 15 * n.state.fill + 31 * |t.taken| + 16
               <= 31 * |n.taken| + 16 * Remaining(s) + 15 * s.fill
  {
    hide Shifted, Restored, IsId;
  }

  lemma {:induction false} RunPace(s: State, inputs: seq<Input>)
    requires Sound(s) && forall i <- inputs :: i.valid && i.ready
    ensures var t := Run(s, inputs);
            16 * |inputs| + 16 * Remaining(t.state) + 15 * t.state.fill
            <= 31 * |t.taken| + 16 * Remaining(s) + 15 * s.fill
  {
    if inputs != [] {
      hide Advance, Remaining;
      var last := |inputs| - 1;
      RunPace(s, inputs[..last]);
      StepPace(Run(s, inputs[..last]), inputs[last]);
    }
  }

  /** It never locks up: from any state, and whatever resets and trips of the gate, a stream of bytes is taken
      at sixteen in 31 clocks while the reader is ready, but for what was in the frame at the start. */
  lemma TakesInput(s: State, inputs: seq<Input>)
    requires Sound(s) && forall i <- inputs :: i.valid && i.ready
    ensures 16 * |inputs| <= 31 * |Run(s, inputs).taken| + 465
  {
    RunPace(s, inputs);
    hide Run;
  }

  // ---- The registers ----

  class Registers {
    const frame: array<byte>
    var synced: bool
    var syncWindow: u32
    var fill: nat
    var emit: nat
    var emitting: bool
    var channel: Channel
    var delayedChannel: Channel
    var delayedValid: bool
    var losses: nat

    ghost predicate Valid()
      reads this, frame
    {
      Sound(Now())
    }

    ghost function Now(): State
      reads this, frame
    {
      State(synced, syncWindow, frame[..], fill, emit, emitting, channel, delayedChannel, delayedValid, losses)
    }

    constructor ()
      ensures Valid() && fresh(frame) && !synced && !emitting && losses == 0
      ensures Now() == State(false, 0, frame[..], 0, 0, false, 0, 0, false, 0)
    {
      frame := new byte[16](_ => 0);
      synced, syncWindow, fill, emit, emitting := false, 0, 0, 0, false;
      channel, delayedChannel, delayedValid, losses := 0, 0, false, 0;
    }

    /** One clock: a byte taken or a slot emitted, with a reset of the lock underneath. */
    method Clock(i: Input)
      requires Valid()
      modifies this, frame
      ensures Valid() && Now() == Step(old(Now()), i)
    {
      hide Restored, Shifted, Accepted, Emitted;
      ghost var was := Now();
      var (locked, full, last) := (synced, emitting, fill);
      var lost := losses;
      if emitting {
        EmitClock(i);
      } else if i.valid {
        TakeClock(i.data);
      }
      if i.resetSync {
        losses := if locked then lost + 1 else losses;
        synced := i.valid && !full && !locked && synced;
        fill := if i.valid && !full && locked then fill else 0;
        emitting := i.valid && !full && locked && last == 15;
      }
      StepSound(was, i);
    }

    method TakeClock(b: byte)
      requires Valid() && !emitting
      modifies this, frame
      ensures Now() == Accepted(old(Now()), b)
    {
      hide Shifted;
      syncWindow := Shifted(syncWindow, b);
      if !synced {
        if syncWindow == FULL_SYNC {
          synced, fill := true, 0;
        }
      } else {
        frame[fill] := b;
        if fill == 15 {
          fill, emit, emitting := 0, 0, true;
        } else {
          fill := fill + 1;
        }
      }
    }

    method EmitClock(i: Input)
      requires Valid() && emitting
      modifies this
      ensures Now() == Step(old(Now()), i.(resetSync := false))
    {
      hide Restored;
      var data, isId := Restored(frame[..], emit), IsId(frame[..], emit);
      if isId || channel == 0 || i.ready {
        if i.m3Source && isId && data / 2 != M3_EXPECTED_CHANNEL {
          synced, fill, emitting, losses := false, 0, false, losses + 1;
        } else {
          if isId {
            if data % 2 == 1 {
              delayedChannel, delayedValid := data / 2, true;
            } else {
              channel := data / 2;
            }
          } else if delayedValid {
            channel, delayedValid := delayedChannel, false;
          }
          if emit == 14 {
            emitting := false;
          } else {
            emit := emit + 1;
          }
        }
      }
    }
  }
}
