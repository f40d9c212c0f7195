/** The dual-clock FIFO: two clock domains that see each other's Gray pointer through two flops.

    A run is any interleaving of write-clock and read-clock edges.  Edges that fall inside each
    other's sampling window are one `BothEdges` event, whose masks say bit by bit whether each
    first synchroniser flop caught the other pointer before or after its move.  The pointer
    width is d + 1 for a memory of 2^d words, d >= 2. */
module AsyncFifo {
  import opened Arith
  import opened GrayCode

  /** One domain: its own pointer (binary and Gray) and the two flops behind the other's. */
  datatype Side = Side(bin: nat, gray: Bits, sync1: Bits, sync2: Bits)

  datatype State<T> = State(mem: seq<T>, w: Side, r: Side)

  datatype Event<T> =
    | WriteEdge(valid: bool, data: T)
    | ReadEdge(ready: bool)
    | BothEdges(valid: bool, data: T, ready: bool, wMask: Bits, rMask: Bits)

  predicate WellFormed<T>(e: Event<T>, d: nat) {
    e.BothEdges? ==> |e.wMask| == |e.rMask| == d + 1
  }

  function WriteReady<T>(s: State<T>, d: nat): bool
    requires |s.w.sync2| >= 2
  {
    GrayOf(s.w.bin + 1, d + 1) != InvertTopTwo(s.w.sync2)
  }

  function ReadValid<T>(s: State<T>): bool {
    s.r.gray != s.r.sync2
  }

  function Pushes<T>(s: State<T>, e: Event<T>, d: nat): bool
    requires |s.w.sync2| >= 2
  {
    !e.ReadEdge? && e.valid && WriteReady(s, d)
  }

  function Pops<T>(s: State<T>, e: Event<T>): bool {
    !e.WriteEdge? && e.ready && ReadValid(s)
  }

  /** One edge of a domain: its pointer moves by `move`, the synchroniser shifts in `sample`. */
  function Clock(side: Side, move: bool, sample: Bits, d: nat): Side {
    Side(if move then Wrap(side.bin + 1, Pow2(d + 1)) else side.bin,
         if move then GrayOf(side.bin + 1, d + 1) else side.gray,
         sample, side.sync1)
  }

  predicate Widths<T>(s: State<T>, d: nat) {
    && |s.mem| == Pow2(d)
    && |s.w.gray| == |s.w.sync1| == |s.w.sync2| == d + 1
    && |s.r.gray| == |s.r.sync1| == |s.r.sync2| == d + 1
  }

  function Reset<T>(mem: seq<T>, d: nat): State<T> {
    var zero := GrayOf(0, d + 1);
    State(mem, Side(0, zero, zero, zero), Side(0, zero, zero, zero))
  }

  function Step<T>(s: State<T>, e: Event<T>, d: nat): (n: State<T>)
    requires d >= 2 && Widths(s, d) && WellFormed(e, d)
    ensures Widths(n, d)
  {
    var push, pop := Pushes(s, e, d), Pops(s, e);
    var mem := if push then s.mem[Wrap(s.w.bin, Pow2(d)) := e.data] else s.mem;
    match e
    case WriteEdge(_, _) => State(mem, Clock(s.w, push, s.r.gray, d), s.r)
    case ReadEdge(_) => State(mem, s.w, Clock(s.r, pop, s.w.gray, d))
    case BothEdges(_, _, _, wMask, rMask) =>
      var w, r := Clock(s.w, push, [], d), Clock(s.r, pop, [], d);
      State(mem, w.(sync1 := Resolve(s.r.gray, r.gray, wMask)),
            r.(sync1 := Resolve(s.w.gray, w.gray, rMask)))
  }

  /** A run with everything the writer had accepted and the reader was handed. */
  datatype Trace<T> = Trace(state: State<T>, accepted: seq<T>, delivered: seq<T>)

  function Run<T>(mem: seq<T>, events: seq<Event<T>>, d: nat): (t: Trace<T>)
    requires d >= 2 && |mem| == Pow2(d) && forall e <- events :: WellFormed(e, d)
    ensures Widths(t.state, d)
  {
    if events == [] then Trace(Reset(mem, d), [], []) else
    var last := |events| - 1;
    var t := Run(mem, events[..last], d);
    Advance(t, events[last], d)
  }

  function Advance<T>(t: Trace<T>, e: Event<T>, d: nat): (n: Trace<T>)
    requires d >= 2 && Widths(t.state, d) && WellFormed(e, d)
    ensures Widths(n.state, d)
  {
    Trace(Step(t.state, e, d),
          if Pushes(t.state, e, d) then t.accepted + [e.data] else t.accepted,
          if Pops(t.state, e) then t.delivered + [t.state.mem[Wrap(t.state.r.bin, Pow2(d))]] else t.delivered)
  }

  // ---- The invariant ----

  /** Where the stale views are, as unbounded counters. */
  datatype Views = Views(sw1: nat, sw2: nat, sr1: nat, sr2: nat)

  ghost predicate SideIs(side: Side, own: nat, s1: nat, s2: nat, d: nat) {
    && side.bin == Wrap(own, Pow2(d + 1))
    && side.gray == GrayOf(own, d + 1)
    && side.sync1 == GrayOf(s1, d + 1)
    && side.sync2 == GrayOf(s2, d + 1)
  }

  ghost predicate Inv<T>(t: Trace<T>, v: Views, d: nat)
    requires d >= 2
  {
    var (w, r) := (|t.accepted|, |t.delivered|);
    && Widths(t.state, d)
    && SideIs(t.state.w, w, v.sw1, v.sw2, d)
    && SideIs(t.state.r, r, v.sr1, v.sr2, d)
    && v.sw2 <= v.sw1 <= r <= v.sr2 <= v.sr1 <= w <= v.sw2 + Pow2(d) - 1
    && t.delivered <= t.accepted
    && forall i :: r <= i < w ==> t.state.mem[Wrap(i, Pow2(d))] == t.accepted[i]
  }

  /** Both flags are decided exactly by the stale views. */
  lemma FlagsDecide<T>(t: Trace<T>, v: Views, d: nat)
    requires d >= 2 && Inv(t, v, d)
    ensures WriteReady(t.state, d) <==> |t.accepted| < v.sw2 + Pow2(d) - 1
    ensures ReadValid(t.state) <==> |t.delivered| < v.sr2
  {
    Pow2Double(d);
    hide GrayOf, Pow2, InvertTopTwo, Wrap;
    var w, n := |t.accepted|, Pow2(d);
    InvertTopTwoAddsHalf(v.sw2, d + 1);
    BinIsCounter(t.state.w.bin, w, d + 1);
    GrayDecides(w + 1, v.sw2 + n, d + 1);
    GrayDecides(|t.delivered|, v.sr2, d + 1);
  }

  /** The registers are the counters modulo the pointer range. */
  lemma BinIsCounter(bin: nat, counter: nat, width: nat)
    requires bin == Wrap(counter, Pow2(width))
    ensures GrayOf(bin + 1, width) == GrayOf(counter + 1, width)
    ensures Wrap(bin + 1, Pow2(width)) == Wrap(counter + 1, Pow2(width))
  {
    WrapStep(counter, Pow2(width));
    GrayWraps(bin + 1, width);
    GrayWraps(counter + 1, width);
  }

  lemma ClockMoves(side: Side, move: bool, own: nat, s1: nat, s2: nat, seen: nat, d: nat)
    requires SideIs(side, own, s1, s2, d)
    ensures SideIs(Clock(side, move, GrayOf(seen, d + 1), d), if move then own + 1 else own, seen, s1, d)
  {
    BinIsCounter(side.bin, own, d + 1);
  }

  /** The memory word behind a pointer register. */
  lemma SlotOf(counter: nat, d: nat)
    ensures Wrap(Wrap(counter, Pow2(d + 1)), Pow2(d)) == Wrap(counter, Pow2(d))
  {
    WrapTwice(counter, Pow2(d));
  }

  /** Accepting a word overwrites no unread slot and keeps every unread word in place. */
  lemma MemoryKeeps<T>(t: Trace<T>, v: Views, e: Event<T>, d: nat)
    requires d >= 2 && Inv(t, v, d) && WellFormed(e, d)
    ensures var n := Advance(t, e, d);
            forall i :: |t.delivered| <= i < |n.accepted| ==>
              n.state.mem[Wrap(i, Pow2(d))] == n.accepted[i]
  {
    hide GrayOf, Pow2, InvertTopTwo, Wrap;
    if Pushes(t.state, e, d) {
      FlagsDecide(t, v, d);
      var w := |t.accepted|;
      SlotOf(w, d);
      forall i | |t.delivered| <= i < w
        ensures Wrap(i, Pow2(d)) != Wrap(w, Pow2(d))
      {
        if Wrap(i, Pow2(d)) == Wrap(w, Pow2(d)) { WrapApart(i, w, Pow2(d)); }
      }
    }
  }

  /** A read hands out the oldest word not yet read. */
  lemma ReadsOldest<T>(t: Trace<T>, v: Views, e: Event<T>, d: nat)
    requires d >= 2 && Inv(t, v, d) && WellFormed(e, d)
    ensures var n := Advance(t, e, d);
            n.delivered <= n.accepted && |n.delivered| <= v.sr2
  {
    hide GrayOf, Pow2, InvertTopTwo, Wrap;
    if Pops(t.state, e) {
      FlagsDecide(t, v, d);
      SlotOf(|t.delivered|, d);
    }
  }

  /** Sampling a pointer that moves by at most one yields its old or its new counter. */
  lemma SampleIsOldOrNew(counter: nat, moves: bool, mask: Bits, d: nat) returns (seen: nat)
    requires |mask| == d + 1
    ensures counter <= seen <= if moves then counter + 1 else counter
    ensures Resolve(GrayOf(counter, d + 1), GrayOf(if moves then counter + 1 else counter, d + 1), mask)
         == GrayOf(seen, d + 1)
  {
    var after := if moves then counter + 1 else counter;
    var r := Resolve(GrayOf(counter, d + 1), GrayOf(after, d + 1), mask);
    if moves {
      ResolveIsOldOrNew(counter, d + 1, mask);
    } else {
      assert r == GrayOf(counter, d + 1);
    }
    seen := if r == GrayOf(counter, d + 1) then counter else after;
  }

  /** Every event keeps the invariant. */
  lemma StepKeeps<T>(t: Trace<T>, v: Views, e: Event<T>, d: nat) returns (v': Views)
    requires d >= 2 && Inv(t, v, d) && WellFormed(e, d)
    ensures Inv(Advance(t, e, d), v', d)
    ensures e.ReadEdge? ==> v' == v.(sr1 := |t.accepted|, sr2 := v.sr1)
    ensures e.WriteEdge? ==> v' == v.(sw1 := |t.delivered|, sw2 := v.sw1)
    ensures e.BothEdges? ==>
              && v'.sw2 == v.sw1 && |t.delivered| <= v'.sw1 <= |Advance(t, e, d).delivered|
              && v'.sr2 == v.sr1 && |t.accepted| <= v'.sr1 <= |Advance(t, e, d).accepted|
  {
    hide GrayOf, Pow2, InvertTopTwo, Wrap;
    var (w, r) := (|t.accepted|, |t.delivered|);
    var push, pop := Pushes(t.state, e, d), Pops(t.state, e);
    FlagsDecide(t, v, d);
    MemoryKeeps(t, v, e, d);
    ReadsOldest(t, v, e, d);
    match e
    case WriteEdge(_, _) =>
      ClockMoves(t.state.w, push, w, v.sw1, v.sw2, r, d);
      v' := v.(sw1 := r, sw2 := v.sw1);
    case ReadEdge(_) =>
      ClockMoves(t.state.r, pop, r, v.sr1, v.sr2, w, d);
      v' := v.(sr1 := w, sr2 := v.sr1);
    case BothEdges(_, _, _, wMask, rMask) =>
      var seenR := SampleIsOldOrNew(r, pop, wMask, d);
      var seenW := SampleIsOldOrNew(w, push, rMask, d);
      ClockMoves(t.state.w, push, w, v.sw1, v.sw2, seenR, d);
      ClockMoves(t.state.r, pop, r, v.sr1, v.sr2, seenW, d);
      v' := Views(seenR, v.sw1, seenW, v.sr1);
  }

  lemma {:induction false} RunKeeps<T>(mem: seq<T>, events: seq<Event<T>>, d: nat) returns (v: Views)
    requires d >= 2 && |mem| == Pow2(d) && forall e <- events :: WellFormed(e, d)
    ensures Inv(Run(mem, events, d), v, d)
  {
    if events == [] {
      v := Views(0, 0, 0, 0);
    } else {
      var last := |events| - 1;
      var u := RunKeeps(mem, events[..last], d);
      v := StepKeeps(Run(mem, events[..last], d), u, events[last], d);
    }
  }

  // ---- What every run promises ----

  /** Nothing is lost, invented or reordered: what was read is a prefix of what was written, and
      the difference always fits in all but one word of the memory. */
  lemma FifoOrder<T>(mem: seq<T>, events: seq<Event<T>>, d: nat)
    requires d >= 2 && |mem| == Pow2(d) && forall e <- events :: WellFormed(e, d)
    ensures var t := Run(mem, events, d);
            && t.delivered <= t.accepted
            && |t.accepted| - |t.delivered| <= Pow2(d) - 1
            && (WriteReady(t.state, d) ==> |t.accepted| - |t.delivered| < Pow2(d) - 1)
            && (ReadValid(t.state) ==> |t.delivered| < |t.accepted|)
  {
    var v := RunKeeps(mem, events, d);
    FlagsDecide(Run(mem, events, d), v, d);
  }

  lemma RunSnoc<T>(mem: seq<T>, events: seq<Event<T>>, e: Event<T>, d: nat)
    requires d >= 2 && |mem| == Pow2(d) && WellFormed(e, d) && forall e <- events :: WellFormed(e, d)
    ensures Run(mem, events + [e], d) == Advance(Run(mem, events, d), e, d)
  {
    assert (events + [e])[..|events|] == events;
  }

  predicate WriterIdle<T>(e: Event<T>) {
    !e.ReadEdge? ==> !e.valid
  }

  predicate ReaderIdle<T>(e: Event<T>) {
    !e.WriteEdge? ==> !e.ready
  }

  predicate ReaderReady<T>(e: Event<T>) {
    !e.WriteEdge? ==> e.ready
  }

  /** Edges of the write clock, coinciding ones included. */
  function WriteTicks<T>(events: seq<Event<T>>): nat {
    if events == [] then 0 else
    var last := |events| - 1;
    WriteTicks(events[..last]) + if events[last].ReadEdge? then 0 else 1
  }

  function ReadTicks<T>(events: seq<Event<T>>): nat {
    if events == [] then 0 else
    var last := |events| - 1;
    ReadTicks(events[..last]) + if events[last].WriteEdge? then 0 else 1
  }

  /** The reader's view of a writer that has stopped is up to date after two edges of its clock. */
  lemma {:induction false} ReaderCatchesUp<T>(mem: seq<T>, events: seq<Event<T>>, more: seq<Event<T>>, d: nat)
    returns (v: Views)
    requires d >= 2 && |mem| == Pow2(d) && forall e <- events :: WellFormed(e, d)
    requires forall e <- more :: WellFormed(e, d) && WriterIdle(e)
    ensures var (t, n) := (Run(mem, events, d), Run(mem, events + more, d));
            && Inv(n, v, d) && n.accepted == t.accepted && t.delivered <= n.delivered
            && (ReadTicks(more) >= 1 ==> v.sr1 == |t.accepted|)
            && (ReadTicks(more) >= 2 ==> v.sr2 == |t.accepted|)
            && (ReadTicks(more) >= 2 && (forall e <- more :: ReaderReady(e)) ==>
                  |n.delivered| == |t.accepted| || |n.delivered| >= |t.delivered| + ReadTicks(more) - 2)
    decreases |more|
  {
    hide GrayOf, Pow2, InvertTopTwo, Wrap;
    if more == [] {
      assert events + more == events;
      v := RunKeeps(mem, events, d);
    } else {
      var before, e := more[..|more| - 1], more[|more| - 1];
      assert events + more == (events + before) + [e];
      RunSnoc(mem, events + before, e, d);
      hide Run, Inv, WriteReady, ReadValid, Step;
      var u := ReaderCatchesUp(mem, events, before, d);
      FlagsDecide(Run(mem, events + before, d), u, d);
      v := StepKeeps(Run(mem, events + before, d), u, e, d);
      InvOrders(Run(mem, events + before, d), u, d);
      assert e in more;
    }
  }

  /** The writer's view of a reader that has stopped, likewise. */
  lemma {:induction false} WriterCatchesUp<T>(mem: seq<T>, events: seq<Event<T>>, more: seq<Event<T>>, d: nat)
    returns (v: Views)
    requires d >= 2 && |mem| == Pow2(d) && forall e <- events :: WellFormed(e, d)
    requires forall e <- more :: WellFormed(e, d) && ReaderIdle(e)
    ensures var (t, n) := (Run(mem, events, d), Run(mem, events + more, d));
            && Inv(n, v, d) && n.delivered == t.delivered && t.accepted <= n.accepted
            && (WriteTicks(more) >= 1 ==> v.sw1 == |t.delivered|)
            && (WriteTicks(more) >= 2 ==> v.sw2 == |t.delivered|)
    decreases |more|
  {
    hide GrayOf, Pow2, InvertTopTwo, Wrap;
    if more == [] {
      assert events + more == events;
      v := RunKeeps(mem, events, d);
    } else {
      var before, e := more[..|more| - 1], more[|more| - 1];
      assert events + more == (events + before) + [e];
      RunSnoc(mem, events + before, e, d);
      hide Run, Inv, WriteReady, ReadValid, Step;
      var u := WriterCatchesUp(mem, events, before, d);
      v := StepKeeps(Run(mem, events + before, d), u, e, d);
      InvOrders(Run(mem, events + before, d), u, d);
      assert e in more;
    }
  }

  lemma InvOrders<T>(t: Trace<T>, v: Views, d: nat)
    requires d >= 2 && Inv(t, v, d)
    ensures v.sw2 <= v.sw1 <= |t.delivered| <= v.sr2 <= v.sr1 <= |t.accepted|
  {
    hide GrayOf, Pow2, InvertTopTwo, Wrap;
  }

  /** Each flag becomes exact once the other side stops: after two edges of the flag's own clock, among
      any edges of the other and any coincidences, ready is exactly not-full and valid exactly
      not-empty, whatever the flag's own side does meanwhile.  With both sides quiet nothing moves. */
  lemma QuietFlagsAreExact<T>(mem: seq<T>, events: seq<Event<T>>, more: seq<Event<T>>, d: nat)
    requires d >= 2 && |mem| == Pow2(d) && forall e <- events + more :: WellFormed(e, d)
    ensures var (t, n) := (Run(mem, events, d), Run(mem, events + more, d));
            && ((forall e <- more :: WriterIdle(e)) ==>
                  && n.accepted == t.accepted
                  && (ReadTicks(more) >= 2 ==> (ReadValid(n.state) <==> |n.delivered| < |n.accepted|)))
            && ((forall e <- more :: ReaderIdle(e)) ==>
                  && n.delivered == t.delivered
                  && (WriteTicks(more) >= 2 ==> (WriteReady(n.state, d) <==> |n.accepted| - |n.delivered| < Pow2(d) - 1)))
  {
    hide GrayOf, Pow2, InvertTopTwo, Wrap, Run, Inv, WriteReady, ReadValid, ReadTicks, WriteTicks;
    Parts(events, more, d);
    var n := Run(mem, events + more, d);
    if forall e <- more :: WriterIdle(e) {
      var v := ReaderCatchesUp(mem, events, more, d);
      FlagsDecide(n, v, d);
    }
    if forall e <- more :: ReaderIdle(e) {
      var v := WriterCatchesUp(mem, events, more, d);
      FlagsDecide(n, v, d);
    }
  }

  lemma Parts<T>(events: seq<Event<T>>, more: seq<Event<T>>, d: nat)
    requires forall e <- events + more :: WellFormed(e, d)
    ensures (forall e <- events :: WellFormed(e, d)) && (forall e <- more :: WellFormed(e, d))
  {
    assert forall e <- events :: e in events + more;
    assert forall e <- more :: e in events + more;
  }

  /** Everything accepted does come out: once the writer stops, whatever its clock does meanwhile, a reader
      that stays ready has read it all after two synchroniser edges and one edge per waiting word. */
  lemma DrainDelivers<T>(mem: seq<T>, events: seq<Event<T>>, more: seq<Event<T>>, d: nat)
    requires d >= 2 && |mem| == Pow2(d) && forall e <- events + more :: WellFormed(e, d)
    requires forall e <- more :: WriterIdle(e) && ReaderReady(e)
    ensures var (t, n) := (Run(mem, events, d), Run(mem, events + more, d));
            && n.accepted == t.accepted
            && (ReadTicks(more) >= |t.accepted| - |t.delivered| + 2 ==> n.delivered == t.accepted)
  {
    hide GrayOf, Pow2, InvertTopTwo, Wrap;
    Parts(events, more, d);
    var u := RunKeeps(mem, events, d);
    var v := ReaderCatchesUp(mem, events, more, d);
  }

  // ---- The registers ----

  /** The module's registers; each method is one clock edge (or a pair of coinciding ones) with
      all non-blocking assignments taken from the state before it. */
  class Registers<T(0)> {
    const d: nat
    const mem: array<T>
    var wrBin: nat
    var rdBin: nat
    var wrGray: Bits
    var rdGray: Bits
    var rdGrayW1: Bits
    var rdGrayW2: Bits
    var wrGrayR1: Bits
    var wrGrayR2: Bits

    ghost predicate Valid()
      reads this, mem
    {
      d >= 2 && Widths(Now(), d)
    }

    ghost function Now(): State<T>
      reads this, mem
    {
      State(mem[..], Side(wrBin, wrGray, rdGrayW1, rdGrayW2), Side(rdBin, rdGray, wrGrayR1, wrGrayR2))
    }

    constructor (d: nat)
      requires d >= 2
      ensures this.d == d && Valid() && fresh(mem)
      ensures Now() == Reset(mem[..], d)
    {
      var zero := GrayOf(0, d + 1);
      this.d := d;
      this.mem := new T[Pow2(d)];
      wrBin, rdBin := 0, 0;
      wrGray, rdGray := zero, zero;
      rdGrayW1, rdGrayW2, wrGrayR1, wrGrayR2 := zero, zero, zero, zero;
    }

    method WriteClock(valid: bool, data: T) returns (accepted: bool)
      requires Valid()
      modifies this, mem
      ensures Valid() && Now() == Step(old(Now()), WriteEdge(valid, data), d)
      ensures accepted == Pushes(old(Now()), WriteEdge(valid, data), d)
    {
      accepted := valid && GrayOf(wrBin + 1, d + 1) != InvertTopTwo(rdGrayW2);
      rdGrayW1, rdGrayW2 := rdGray, rdGrayW1;
      if accepted {
        mem[Wrap(wrBin, Pow2(d))] := data;
        wrBin, wrGray := Wrap(wrBin + 1, Pow2(d + 1)), GrayOf(wrBin + 1, d + 1);
      }
    }

    method ReadClock(ready: bool) returns (valid: bool, data: T)
      requires Valid()
      modifies this
      ensures Valid() && Now() == Step(old(Now()), ReadEdge(ready), d)
      ensures valid == ReadValid(old(Now())) && data == old(mem[Wrap(rdBin, Pow2(d))])
    {
      valid, data := rdGray != wrGrayR2, mem[Wrap(rdBin, Pow2(d))];
      wrGrayR1, wrGrayR2 := wrGray, wrGrayR1;
      if valid && ready {
        rdBin, rdGray := Wrap(rdBin + 1, Pow2(d + 1)), GrayOf(rdBin + 1, d + 1);
      }
    }

    method BothClocks(valid: bool, data: T, ready: bool, wMask: Bits, rMask: Bits)
      requires Valid() && |wMask| == |rMask| == d + 1
      modifies this, mem
      ensures Valid() && Now() == Step(old(Now()), BothEdges(valid, data, ready, wMask, rMask), d)
    {
      hide GrayOf, Pow2, InvertTopTwo, Wrap;
      var push := valid && GrayOf(wrBin + 1, d + 1) != InvertTopTwo(rdGrayW2);
      var pop := ready && rdGray != wrGrayR2;
      var oldWr, oldRd := wrGray, rdGray;
      rdGrayW2, wrGrayR2 := rdGrayW1, wrGrayR1;
      if push {
        mem[Wrap(wrBin, Pow2(d))] := data;
        wrBin, wrGray := Wrap(wrBin + 1, Pow2(d + 1)), GrayOf(wrBin + 1, d + 1);
      }
      if pop {
        rdBin, rdGray := Wrap(rdBin + 1, Pow2(d + 1)), GrayOf(rdBin + 1, d + 1);
      }
      rdGrayW1, wrGrayR1 := Resolve(oldRd, rdGray, wMask), Resolve(oldWr, wrGray, rMask);
    }
  }
}
