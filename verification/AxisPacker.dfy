/** The AXI packer: bytes into 8-byte beats.  `input_last` closes a frame; every `frames`-th frame
    closes a transfer, whose last beat may be partial. */
module AxisPacker {
  import opened Bytes

  datatype Octet = Octet(data: byte, last: bool)

  datatype AxisBeat = AxisBeat(data: seq<byte>, keep: seq<bool>, last: bool)

  datatype State = State(buffer: seq<byte>, keep: seq<bool>, count: nat, frameCount: nat,
                         out: AxisBeat, outValid: bool)

  datatype Input = Input(data: byte, valid: bool, last: bool, ready: bool)

  const ZEROS: seq<byte> := [0, 0, 0, 0, 0, 0, 0, 0]
  const NONE: seq<bool> := [false, false, false, false, false, false, false, false]

  const RESET := State(ZEROS, NONE, 0, 0, AxisBeat(ZEROS, NONE, false), false)

  predicate Shape(s: State) {
    |s.buffer| == 8 && |s.keep| == 8 && s.count < 8
  }

  function InputReady(s: State, ready: bool): bool {
    !s.outValid || ready
  }

  function TransferLast(s: State, last: bool, frames: nat): bool {
    last && (frames == 1 || s.frameCount == frames - 1)
  }

  function Step(s: State, i: Input, frames: nat): (n: State)
    requires Shape(s)
    ensures Shape(n)
  {
    if i.valid && InputReady(s, i.ready) then
      var data, keep := s.buffer[s.count := i.data], s.keep[s.count := true];
      var transferLast := TransferLast(s, i.last, frames);
      var frameCount := if !i.last then s.frameCount else if transferLast then 0 else s.frameCount + 1;
      if transferLast || s.count == 7 then
        State(ZEROS, NONE, 0, frameCount, AxisBeat(data, keep, transferLast), true)
      else
        State(data, keep, s.count + 1, frameCount, s.out, false)
    else
      s.(outValid := s.outValid && !i.ready)
  }

  /** A run, with the octets taken in and the beats transferred. */
  datatype Trace = Trace(state: State, accepted: seq<Octet>, beats: seq<AxisBeat>)

  function Advance(t: Trace, i: Input, frames: nat): (n: Trace)
    requires Shape(t.state)
    ensures Shape(n.state)
  {
    Trace(Step(t.state, i, frames),
          if i.valid && InputReady(t.state, i.ready) then t.accepted + [Octet(i.data, i.last)] else t.accepted,
          if t.state.outValid && i.ready then t.beats + [t.state.out] else t.beats)
  }

  function Run(inputs: seq<Input>, frames: nat): (t: Trace)
    ensures Shape(t.state)
  {
    if inputs == [] then Trace(RESET, [], []) else
    Advance(Run(inputs[..|inputs| - 1], frames), inputs[|inputs| - 1], frames)
  }

  // ---- What the beats carry ----

  /** The bytes of a beat whose lanes are kept. */
  function Lanes(data: seq<byte>, keep: seq<bool>): seq<byte>
    requires |data| == |keep|
  {
    if data == [] then [] else
    Lanes(data[..|data| - 1], keep[..|data| - 1]) + if keep[|data| - 1] then [data[|data| - 1]] else []
  }

  /** The first `n` lanes and no others. */
  ghost predicate LowLanes(keep: seq<bool>, n: nat) {
    |keep| == 8 && n <= 8 && forall k :: 0 <= k < 8 ==> (keep[k] <==> k < n)
  }

  /** Contiguous from lane 0, at least one lane, and full unless it ends a transfer. */
  ghost predicate Wellformed(b: AxisBeat) {
    && |b.data| == 8
    && exists n :: 1 <= n <= 8 && LowLanes(b.keep, n) && (!b.last ==> n == 8)
  }

  lemma {:induction false} LanesAre(data: seq<byte>, keep: seq<bool>, n: nat)
    requires |data| == |keep| && n <= |data|
    requires forall k :: 0 <= k < |keep| ==> (keep[k] <==> k < n)
    ensures Lanes(data, keep) == data[..n]
  {
    if data != [] {
      var m := |data| - 1;
      LanesAre(data[..m], keep[..m], if n < m then n else m);
    }
  }

  /** Bytes grouped into transfers: the finished ones, and the one still open. */
  datatype Grouped = Grouped(complete: seq<seq<byte>>, open: seq<byte>, frames: nat)

  /** By the frame boundaries of the input. */
  function GroupOctets(octets: seq<Octet>, frames: nat): Grouped {
    if octets == [] then Grouped([], [], 0) else
    AddOctet(GroupOctets(octets[..|octets| - 1], frames), octets[|octets| - 1], frames)
  }

  function AddOctet(g: Grouped, o: Octet, frames: nat): Grouped {
    var open := g.open + [o.data];
    if o.last && g.frames + 1 == frames then Grouped(g.complete + [open], [], 0)
    else Grouped(g.complete, open, if o.last then g.frames + 1 else g.frames)
  }

  /** By the last flags of the output. */
  function GroupBeats(beats: seq<AxisBeat>): Grouped
    requires forall b <- beats :: |b.data| == |b.keep|
  {
    if beats == [] then Grouped([], [], 0) else
    AddBeat(GroupBeats(beats[..|beats| - 1]), beats[|beats| - 1])
  }

  function AddBeat(g: Grouped, b: AxisBeat): Grouped
    requires |b.data| == |b.keep|
  {
    var open := g.open + Lanes(b.data, b.keep);
    if b.last then Grouped(g.complete + [open], [], 0) else Grouped(g.complete, open, 0)
  }

  function Concat(parts: seq<seq<byte>>): seq<byte> {
    if parts == [] then [] else Concat(parts[..|parts| - 1]) + parts[|parts| - 1]
  }

  function Flat(g: Grouped): seq<byte> {
    Concat(g.complete) + g.open
  }

  function Data(octets: seq<Octet>): seq<byte> {
    seq(|octets|, i requires 0 <= i < |octets| => octets[i].data)
  }

  // ---- The invariant ----

  /** Transferred beats, then the one waiting. */
  function Issued(t: Trace): seq<AxisBeat> {
    if t.state.outValid then t.beats + [t.state.out] else t.beats
  }

  ghost predicate Inv(t: Trace, frames: nat) {
    var s, a := t.state, GroupOctets(t.accepted, frames);
    && Shape(s) && LowLanes(s.keep, s.count)
    && (forall b <- Issued(t) :: Wellformed(b))
    && s.frameCount == a.frames < frames
    && var g := GroupBeats(Issued(t));
       g.complete == a.complete && g.open + s.buffer[..s.count] == a.open
  }

  /** A beat handed over is still issued; so without an input nothing is issued or taken back. */
  lemma WaitKeeps(t: Trace, i: Input, frames: nat)
    requires Inv(t, frames) && !(i.valid && InputReady(t.state, i.ready))
    ensures Inv(Advance(t, i, frames), frames)
  {
    assert Issued(Advance(t, i, frames)) == Issued(t);
  }

  lemma TakeKeeps(t: Trace, i: Input, frames: nat)
    requires Inv(t, frames) && i.valid && InputReady(t.state, i.ready)
    ensures Inv(Advance(t, i, frames), frames)
  {
    var s, t' := t.state, Advance(t, i, frames);
    var issued := Issued(t);
    var o := Octet(i.data, i.last);
    assert t'.accepted[..|t.accepted|] == t.accepted;
    assert GroupOctets(t'.accepted, frames) == AddOctet(GroupOctets(t.accepted, frames), o, frames);
    var data, keep := s.buffer[s.count := i.data], s.keep[s.count := true];
    assert data[..s.count + 1] == s.buffer[..s.count] + [i.data];
    var g := GroupBeats(issued);
    assert g.open + data[..s.count + 1] == g.open + s.buffer[..s.count] + [i.data];
    assert LowLanes(keep, s.count + 1);
    if TransferLast(s, i.last, frames) || s.count == 7 {
      var b := t'.state.out;
      assert Issued(t') == issued + [b];
      assert (issued + [b])[..|issued|] == issued;
      LanesAre(data, keep, s.count + 1);
      assert Wellformed(b);
      assert GroupBeats(Issued(t')) == AddBeat(g, b);
      assert (g.open + data[..s.count + 1]) + [] == g.open + data[..s.count + 1];
    } else {
      assert Issued(t') == issued;
    }
  }

  lemma StepKeeps(t: Trace, i: Input, frames: nat)
    requires Inv(t, frames)
    ensures Inv(Advance(t, i, frames), frames)
  {
    if i.valid && InputReady(t.state, i.ready) {
      TakeKeeps(t, i, frames);
    } else {
      WaitKeeps(t, i, frames);
    }
  }

  lemma ResetHolds(frames: nat)
    requires frames >= 1
    ensures Inv(Trace(RESET, [], []), frames)
  {
    assert ZEROS[..0] == [];
  }

  lemma {:induction false} RunKeeps(inputs: seq<Input>, frames: nat)
    requires frames >= 1
    ensures Inv(Run(inputs, frames), frames)
  {
    if inputs == [] {
      ResetHolds(frames);
    } else {
      RunKeeps(inputs[..|inputs| - 1], frames);
      StepKeeps(Run(inputs[..|inputs| - 1], frames), inputs[|inputs| - 1], frames);
    }
  }

  /** The bytes of the beats transferred are those issued, short of a beat still waiting. */
  lemma TransferredIsPrefix(t: Trace, frames: nat)
    requires Inv(t, frames)
    ensures (forall b <- Issued(t) :: |b.data| == |b.keep|)
    ensures Flat(GroupBeats(t.beats)) <= Flat(GroupBeats(Issued(t)))
    ensures GroupBeats(t.beats).complete <= GroupBeats(Issued(t)).complete
    ensures Flat(GroupBeats(Issued(t))) + t.state.buffer[..t.state.count] == Data(t.accepted)
    ensures !t.state.outValid ==> t.beats == Issued(t)
  {
    hide Lanes, GroupOctets;
    FlatOctets(t.accepted, frames);
    var g := GroupBeats(Issued(t));
    assert Flat(g) + t.state.buffer[..t.state.count] == Concat(g.complete) + (g.open + t.state.buffer[..t.state.count]);
    if t.state.outValid {
      assert Issued(t)[..|t.beats|] == t.beats;
      AddBeatFlat(GroupBeats(t.beats), t.state.out);
    }
  }

  lemma AddBeatFlat(g: Grouped, b: AxisBeat)
    requires |b.data| == |b.keep|
    ensures Flat(AddBeat(g, b)) == Flat(g) + Lanes(b.data, b.keep)
    ensures g.complete <= AddBeat(g, b).complete
  {
    hide Lanes;
    var lanes := Lanes(b.data, b.keep);
    assert (g.complete + [g.open + lanes])[..|g.complete|] == g.complete;
    assert Concat(g.complete) + (g.open + lanes) == Flat(g) + lanes;
  }

  lemma {:induction false} FlatOctets(octets: seq<Octet>, frames: nat)
    ensures Flat(GroupOctets(octets, frames)) == Data(octets)
  {
    if octets != [] {
      var before, o := octets[..|octets| - 1], octets[|octets| - 1];
      FlatOctets(before, frames);
      var g := GroupOctets(before, frames);
      assert Data(octets) == Data(before) + [o.data];
      assert (g.complete + [g.open + [o.data]])[..|g.complete|] == g.complete;
      assert Flat(AddOctet(g, o, frames)) == Flat(g) + [o.data];
    }
  }

  /** In every run, under any stalls: the kept lanes of the beats issued, then the partial buffer,
      are the bytes accepted; TKEEP is contiguous from lane 0 and full except on TLAST; and the
      TLAST boundaries cut the bytes exactly after every `frames`-th frame. */
  lemma PackerKeepsBytes(inputs: seq<Input>, frames: nat)
    requires frames >= 1
    ensures var t := Run(inputs, frames);
            && (forall b <- Issued(t) :: Wellformed(b) && |b.data| == |b.keep|)
            && var (g, a) := (GroupBeats(Issued(t)), GroupOctets(t.accepted, frames));
               && g.complete == a.complete
               && g.open + t.state.buffer[..t.state.count] == a.open
               && Flat(g) + t.state.buffer[..t.state.count] == Data(t.accepted)
  {
    RunKeeps(inputs, frames);
    var t := Run(inputs, frames);
    FlatOctets(t.accepted, frames);
    var g := GroupBeats(Issued(t));
    assert Flat(g) + t.state.buffer[..t.state.count] == Concat(g.complete) + (g.open + t.state.buffer[..t.state.count]);
  }

  /** However long the sink stalls and whatever the input offers meanwhile, a beat waiting stays exactly
      as it is and nothing is accepted or transferred. */
  lemma {:induction false} StallHolds(inputs: seq<Input>, stall: seq<Input>, frames: nat)
    requires Run(inputs, frames).state.outValid && forall i <- stall :: !i.ready
    ensures Run(inputs + stall, frames) == Run(inputs, frames)
  {
    if stall == [] {
      assert inputs + stall == inputs;
    } else {
      var before := stall[..|stall| - 1];
      assert inputs + stall == inputs + before + [stall[|stall| - 1]];
      assert (inputs + stall)[..|inputs + stall| - 1] == inputs + before;
      StallHolds(inputs, before, frames);
    }
  }

  // ---- The registers ----

  class Registers {
    const frames: nat
    const buffer: array<byte>
    const keep: array<bool>
    var count: nat
    var frameCount: nat
    var output: AxisBeat
    var outputValid: bool

    ghost predicate Valid()
      reads this
    {
      buffer.Length == 8 && keep.Length == 8 && count < 8
    }

    ghost function Now(): State
      reads this, buffer, keep
    {
      State(buffer[..], keep[..], count, frameCount, output, outputValid)
    }

    constructor (frames: nat)
      ensures this.frames == frames && Valid() && Now() == RESET && fresh(buffer) && fresh(keep)
    {
      this.frames := frames;
      buffer := new byte[8](_ => 0);
      keep := new bool[8](_ => false);
      count, frameCount, output, outputValid := 0, 0, AxisBeat(ZEROS, NONE, false), false;
    }

    /** One clock; the beat transferred, and whether the input was taken. */
    method Clock(i: Input) returns (beat: Option<AxisBeat>, taken: bool)
      requires Valid()
      modifies this, buffer, keep
      ensures Valid() && Now() == Step(old(Now()), i, frames)
      ensures taken == (i.valid && InputReady(old(Now()), i.ready))
      ensures beat == if old(outputValid) && i.ready then Some(old(output)) else None
    {
      beat := if outputValid && i.ready then Some(output) else None;
      taken := i.valid && (!outputValid || i.ready);
      if beat.Some? {
        outputValid := false;
      }
      if taken {
        var transferLast := i.last && (frames == 1 || frameCount == frames - 1);
        buffer[count] := i.data;
        keep[count] := true;
        if transferLast || count == 7 {
          output, outputValid := AxisBeat(buffer[..], keep[..], transferLast), true;
          forall k | 0 <= k < 8 {
            buffer[k] := 0;
          }
          forall k | 0 <= k < 8 {
            keep[k] := false;
          }
          count := 0;
          assert buffer[..] == ZEROS && keep[..] == NONE;
        } else {
          count := count + 1;
        }
        if i.last {
          frameCount := if transferLast then 0 else frameCount + 1;
        }
      }
    }
  }
}
