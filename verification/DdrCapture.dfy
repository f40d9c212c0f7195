/** The trace port's front end: bytes put together from 1, 2 or 4 double-data-rate lanes, as the host's
    reference does it on a recording and as the capture registers do it edge by edge. */
module DdrCapture {
  import opened Bytes

  /** Four lanes at one edge. */
  type Sample = x: int | 0 <= x < 16

  // ---- The reference ----

  /** Samples put together `base` apart, the first lowest, each cut to its lanes. */
  function Pack(samples: seq<Sample>, base: nat): (v: nat)
    requires base > 0
  {
    if samples == [] then 0 else samples[0] % base + base * Pack(samples[1..], base)
  }

  function Weight(base: nat, n: nat): nat {
    if n == 0 then 1 else base * Weight(base, n - 1)
  }

  lemma Distribute(base: nat, p: nat, t: nat, w: nat)
    ensures base * (p + t * w) == base * p + t * (base * w)
  {
    assert base * (p + t * w) == base * p + base * (t * w);
    assert base * (t * w) == t * (base * w);
  }

  lemma {:induction false} PackGrows(samples: seq<Sample>, x: Sample, base: nat)
    requires base > 0
    ensures Pack(samples + [x], base) == Pack(samples, base) + x % base * Weight(base, |samples|)
    decreases |samples|
  {
    var all := samples + [x];
    if samples == [] {
      assert all[1..] == [];
    } else {
      assert all[1..] == samples[1..] + [x];
      PackGrows(samples[1..], x, base);
      Distribute(base, Pack(samples[1..], base), x % base, Weight(base, |samples| - 1));
    }
  }

  /** Whole bytes of `n` samples each, and the samples left over. */
  datatype Assembled = Assembled(bytes: seq<nat>, rest: seq<Sample>)

  function Assemble(samples: seq<Sample>, base: nat, n: nat): (a: Assembled)
    requires base > 0 && n > 0
    ensures |a.rest| < n
    decreases |samples|
  {
    if |samples| < n then Assembled([], samples) else
    var more := Assemble(samples[n..], base, n);
    more.(bytes := [Pack(samples[..n], base)] + more.bytes)
  }

  /** One more sample. */
  lemma {:induction false} AssembleSnoc(samples: seq<Sample>, x: Sample, base: nat, n: nat)
    requires base > 0 && n > 0
    ensures var a := Assemble(samples, base, n);
            Assemble(samples + [x], base, n)
            == if |a.rest| + 1 < n then Assembled(a.bytes, a.rest + [x])
               else Assembled(a.bytes + [Pack(a.rest + [x], base)], [])
    decreases |samples|
  {
    hide Pack;
    var all := samples + [x];
    if |samples| + 1 < n {
    } else if |samples| < n {
      assert all[..n] == all && all[n..] == [];
      assert [Pack(all, base)] + [] == [] + [Pack(all, base)];
    } else {
      assert all[..n] == samples[..n] && all[n..] == samples[n..] + [x];
      AssembleSnoc(samples[n..], x, base, n);
      var a := Assemble(samples[n..], base, n);
      assert [Pack(samples[..n], base)] + (a.bytes + [Pack(a.rest + [x], base)])
          == [Pack(samples[..n], base)] + a.bytes + [Pack(a.rest + [x], base)];
    }
  }

  datatype WidthError = InvalidWidth

  /** Distance of neighbouring samples in a byte, for 1, 2 or 4 lanes. */
  function Base(lanes: nat): nat {
    if lanes == 1 then 2 else if lanes == 2 then 4 else 16
  }

  function Ddr(samples: seq<Sample>, lanes: nat): Result<seq<nat>, WidthError> {
    if lanes != 1 && lanes != 2 && lanes != 4 then Err(InvalidWidth)
    else Ok(Assemble(samples, Base(lanes), 8 / lanes).bytes)
  }

  method DecodeParallelDdr(samples: seq<Sample>, lanes: nat) returns (r: Result<seq<nat>, WidthError>)
    ensures r == Ddr(samples, lanes)
  {
    if lanes != 1 && lanes != 2 && lanes != 4 {
      return Err(InvalidWidth);
    }
    var output := Chunks(samples, Base(lanes), 8 / lanes);
    return Ok(output);
  }

  /** Whole chunks of edges only. */
  method Chunks(samples: seq<Sample>, base: nat, edges: nat) returns (output: seq<nat>)
    requires base > 0 && edges > 0
    ensures output == Assemble(samples, base, edges).bytes
  {
    hide Pack, Assemble;
    output := [];
    var at := 0;
    assert samples[0..] == samples;
    ghost var all := Assemble(samples, base, edges).bytes;
    while at + edges <= |samples|
      invariant 0 <= at <= |samples|
      invariant all == output + Assemble(samples[at..], base, edges).bytes
    {
      var octet := PackEdges(samples[at..at + edges], base);
      NextByte(samples, at, base, edges);
      assert output + ([octet] + Assemble(samples[at + edges..], base, edges).bytes)
          == output + [octet] + Assemble(samples[at + edges..], base, edges).bytes;
      output := output + [octet];
      at := at + edges;
    }
    TooFew(samples[at..], base, edges);
    assert output + [] == output;
  }

  lemma TooFew(samples: seq<Sample>, base: nat, edges: nat)
    requires base > 0 && |samples| < edges
    ensures Assemble(samples, base, edges).bytes == []
  {
  }

  lemma NextByte(samples: seq<Sample>, at: nat, base: nat, edges: nat)
    requires base > 0 && edges > 0 && at + edges <= |samples|
    ensures Assemble(samples[at..], base, edges).bytes
         == [Pack(samples[at..at + edges], base)] + Assemble(samples[at + edges..], base, edges).bytes
  {
    hide Pack;
    assert samples[at..][..edges] == samples[at..at + edges] && samples[at..][edges..] == samples[at + edges..];
  }

  method PackEdges(edges: seq<Sample>, base: nat) returns (octet: nat)
    requires base > 0
    ensures octet == Pack(edges, base)
  {
    octet := 0;
    var weight := 1;
    for index := 0 to |edges|
      invariant octet == Pack(edges[..index], base) && weight == Weight(base, index)
    {
      PackGrows(edges[..index], edges[index], base);
      assert edges[..index + 1] == edges[..index] + [edges[index]];
      octet := octet + edges[index] % base * weight;
      weight := base * weight;
    }
    assert edges[..|edges|] == edges;
  }

  // ---- The capture registers ----

  datatype State = State(rise: Sample, fall: Sample, partial: byte, phase: nat, activeWidth: nat, primed: bool,
                         byteData: byte, byteValid: bool)

  const RESET := State(0, 0, 0, 0, 0, false, 0, false)

  function FallEdge(s: State, enable: bool, data: Sample): State {
    if enable then s.(fall := data) else s
  }

  /** `partial` with two bits replaced. */
  function Placed(partial: byte, phase: nat, pair: nat): byte
    requires pair < 4
  {
    if phase == 0 then partial / 4 * 4 + pair
    else if phase == 1 then partial / 16 * 16 + pair * 4 + partial % 4
    else partial / 64 * 64 + pair * 16 + partial % 16
  }

  function RiseEdge(s: State, enable: bool, width: nat, data: Sample): State {
    var n := s.(byteValid := false, rise := data);
    if !enable || width > 2 then n.(primed := false, phase := 0)
    else if !s.primed || s.activeWidth != width then
      n.(primed := true, activeWidth := width, phase := 0, partial := 0)
    else if width == 2 then n.(byteData := s.fall * 16 + s.rise, byteValid := true)
    else if width == 1 then
      var four := s.fall % 4 * 4 + s.rise % 4;
      if s.phase == 0 then n.(partial := s.partial / 16 * 16 + four, phase := 1)
      else n.(byteData := four * 16 + s.partial % 16, byteValid := true, phase := 0)
    else
      var two := s.fall % 2 * 2 + s.rise % 2;
      if s.phase < 3 then n.(partial := Placed(s.partial, s.phase, two), phase := s.phase + 1)
      else n.(byteData := two * 64 + s.partial % 64, byteValid := true, phase := 0)
  }

  class Registers {
    var riseSample: Sample
    var fallSample: Sample
    var partial: byte
    var phase: nat
    var activeWidth: nat
    var primed: bool
    var byteData: byte
    var byteValid: bool

    ghost function Now(): State
      reads this
    {
      State(riseSample, fallSample, partial, phase, activeWidth, primed, byteData, byteValid)
    }

    constructor ()
      ensures Now() == RESET
    {
      riseSample, fallSample, partial, phase, activeWidth, primed := 0, 0, 0, 0, 0, false;
      byteData, byteValid := 0, false;
    }

    method NegEdge(enable: bool, data: Sample)
      modifies this
      ensures Now() == FallEdge(old(Now()), enable, data)
    {
      if enable {
        fallSample := data;
      }
    }

    method PosEdge(enable: bool, width: nat, data: Sample)
      modifies this
      ensures Now() == RiseEdge(old(Now()), enable, width, data)
    {
      var rise := riseSample;
      byteValid := false;
      riseSample := data;
      if !enable || width > 2 {
        primed := false;
        phase := 0;
      } else if !primed || activeWidth != width {
        primed, activeWidth, phase, partial := true, width, 0, 0;
      } else if activeWidth == 2 {
        byteData := fallSample * 16 + rise;
        byteValid := true;
      } else if activeWidth == 1 {
        var four := fallSample % 4 * 4 + rise % 4;
        if phase == 0 {
          partial := partial / 16 * 16 + four;
          phase := 1;
        } else {
          byteData := four * 16 + partial % 16;
          byteValid := true;
          phase := 0;
        }
      } else {
        var two := fallSample % 2 * 2 + rise % 2;
        if phase < 3 {
          partial := Placed(partial, phase, two);
        } else {
          byteData := two * 64 + partial % 64;
          byteValid := true;
        }
        phase := if phase >= 3 then 0 else phase + 1;
      }
    }
  }

  // ---- Enabled, at one width ----

  /** The samples of one clock cycle of the trace port. */
  datatype Cycle = Cycle(rise: Sample, fall: Sample)

  datatype Run = Run(state: State, out: seq<nat>)

  function Captured(s: State, width: nat, cycles: seq<Cycle>): Run {
    if cycles == [] then Run(s, []) else
    var before, c := Captured(s, width, cycles[..|cycles| - 1]), cycles[|cycles| - 1];
    var n := RiseEdge(before.state, true, width, c.rise);
    Run(FallEdge(n, true, c.fall), if n.byteValid then before.out + [n.byteData as int] else before.out)
  }

  /** The samples in order of time. */
  function Samples(cycles: seq<Cycle>): (s: seq<Sample>)
    ensures |s| == 2 * |cycles|
  {
    if cycles == [] then [] else
    Samples(cycles[..|cycles| - 1]) + [cycles[|cycles| - 1].rise] + [cycles[|cycles| - 1].fall]
  }

  function Lanes(width: nat): nat
    requires width <= 2
  {
    if width == 0 then 1 else if width == 1 then 2 else 4
  }

  /** What of the current byte the registers hold. */
  predicate Holds(s: State, width: nat, rest: seq<Sample>)
    requires width <= 2
  {
    && s.primed && s.activeWidth == width && |rest| == 2 * s.phase < 8 / Lanes(width)
    && match s.phase
       case 0 => true
       case 1 => if width == 0 then s.partial % 4 == Pack(rest, 2) else s.partial % 16 == Pack(rest, 4)
       case 2 => s.partial % 16 == Pack(rest, 2)
       case _ => s.partial % 64 == Pack(rest, 2)
  }

  lemma PackTwo(rest: seq<Sample>, a: Sample, b: Sample, base: nat)
    requires base > 0
    ensures Pack(rest + [a] + [b], base)
         == Pack(rest, base) + a % base * Weight(base, |rest|) + b % base * Weight(base, |rest| + 1)
  {
    PackGrows(rest, a, base);
    PackGrows(rest + [a], b, base);
  }

  lemma Weights()
    ensures Weight(2, 0) == 1 && Weight(4, 0) == 1 && Weight(16, 0) == 1
    ensures Weight(2, 1) == 2 && Weight(2, 2) == 4 && Weight(2, 3) == 8 && Weight(2, 4) == 16
    ensures Weight(2, 5) == 32 && Weight(2, 6) == 64 && Weight(2, 7) == 128
    ensures Weight(4, 1) == 4 && Weight(4, 2) == 16 && Weight(4, 3) == 64 && Weight(16, 1) == 16
  {
  }

  /** A rising edge takes in the pair of samples before it: the current byte grows, or is finished. */
  lemma PairTaken(s: State, width: nat, rest: seq<Sample>, next: Sample)
    requires width <= 2 && Holds(s, width, rest)
    ensures var (n, both) := (RiseEdge(s, true, width, next), rest + [s.rise] + [s.fall]);
            && n.rise == next && n.fall == s.fall
            && if |both| < 8 / Lanes(width) then !n.byteValid && Holds(n, width, both)
               else n.byteValid && n.byteData == Pack(both, Base(Lanes(width))) && Holds(n, width, [])
  {
    Weights();
    PackTwo(rest, s.rise, s.fall, Base(Lanes(width)));
    PackEmpty(Base(Lanes(width)));
    if width == 0 {
      LaneOne(s, rest, next);
    } else if width == 1 {
      LaneTwo(s, rest, next);
    } else {
      hide Pack, Weight;
      assert rest == [];
    }
  }

  lemma PackEmpty(base: nat)
    requires base > 0
    ensures Pack([], base) == 0
  {
  }

  lemma LowBits(partial: byte, t: nat)
    requires t < 16
    ensures (partial / 16 * 16 + t) % 16 == t
    ensures t < 4 ==> Placed(partial, 0, t) % 4 == t && Placed(partial, 1, t) % 16 == partial % 4 + 4 * t
    ensures t < 4 ==> Placed(partial, 2, t) % 64 == partial % 16 + 16 * t
  {
    Replaced(partial / 4, partial / 16, partial / 64, if t < 4 then t else 0, t,
             if t < 4 then partial % 16 + 16 * t else 0);
    if t < 4 {
      Replaced(partial / 4, partial / 16, partial / 64, t, partial % 4 + 4 * t, partial % 16 + 16 * t);
    }
  }

  lemma Replaced(q4: nat, q16: nat, q64: nat, t4: nat, t16: nat, t64: nat)
    requires t4 < 4 && t16 < 16 && t64 < 64
    ensures (q4 * 4 + t4) % 4 == t4 && (q16 * 16 + t16) % 16 == t16 && (q64 * 64 + t64) % 64 == t64
  {
  }

  lemma LaneTwo(s: State, rest: seq<Sample>, next: Sample)
    requires Holds(s, 1, rest)
    ensures var (n, both) := (RiseEdge(s, true, 1, next), rest + [s.rise] + [s.fall]);
            if |both| < 4 then !n.byteValid && Holds(n, 1, both)
            else n.byteValid && n.byteData == Pack(both, 4) && Holds(n, 1, [])
  {
    hide Pack, Weight, Placed;
    var both := rest + [s.rise] + [s.fall];
    var four := s.fall % 4 * 4 + s.rise % 4;
    Weights();
    PackTwo(rest, s.rise, s.fall, 4);
    PackEmpty(4);
    LowBits(s.partial, four);
    if s.phase == 0 {
      assert rest == [] && Pack(both, 4) == four;
    } else {
      assert s.phase == 1 && Pack(both, 4) == s.partial % 16 + 16 * four;
    }
  }

  lemma LaneOne(s: State, rest: seq<Sample>, next: Sample)
    requires Holds(s, 0, rest)
    ensures var (n, both) := (RiseEdge(s, true, 0, next), rest + [s.rise] + [s.fall]);
            if |both| < 8 then !n.byteValid && Holds(n, 0, both)
            else n.byteValid && n.byteData == Pack(both, 2) && Holds(n, 0, [])
  {
    var both := rest + [s.rise] + [s.fall];
    var two := s.fall % 2 * 2 + s.rise % 2;
    LaneOnePacks(rest, s.rise, s.fall);
    LowBits(s.partial, two);
    hide Pack, Placed;
    var n := RiseEdge(s, true, 0, next);
    if s.phase == 0 {
      assert rest == [] && Pack(both, 2) == two && n.partial % 4 == two;
    } else if s.phase == 1 {
      assert |rest| == 2 && Pack(both, 2) == s.partial % 4 + 4 * two;
    } else if s.phase == 2 {
      assert |rest| == 4 && Pack(both, 2) == s.partial % 16 + 16 * two;
    } else {
      assert |rest| == 6 && Pack(both, 2) == s.partial % 64 + 64 * two;
    }
  }

  lemma LaneOnePacks(rest: seq<Sample>, a: Sample, b: Sample)
    ensures var (p, two) := (Pack(rest + [a] + [b], 2), b % 2 * 2 + a % 2);
            && (|rest| == 0 ==> p == two)
            && (|rest| == 2 ==> p == Pack(rest, 2) + 4 * two)
            && (|rest| == 4 ==> p == Pack(rest, 2) + 16 * two)
            && (|rest| == 6 ==> p == Pack(rest, 2) + 64 * two)
  {
    PackTwo(rest, a, b, 2);
    Weights();
    PackEmpty(2);
    hide Pack, Weight;
    var x, y := a % 2, b % 2;
    if |rest| == 0 {
      assert rest == [] && x * Weight(2, 0) == x && y * Weight(2, 1) == 2 * y;
    } else if |rest| == 2 {
      assert x * Weight(2, 2) == 4 * x && y * Weight(2, 3) == 8 * y;
    } else if |rest| == 4 {
      assert x * Weight(2, 4) == 16 * x && y * Weight(2, 5) == 32 * y;
    } else if |rest| == 6 {
      assert x * Weight(2, 6) == 64 * x && y * Weight(2, 7) == 128 * y;
    }
  }

  /** The reference's bytes of whole cycles, and the samples left over. */
  function Decoded(cycles: seq<Cycle>, width: nat): Assembled
    requires width <= 2
  {
    Assemble(Samples(cycles), Base(Lanes(width)), 8 / Lanes(width))
  }

  lemma DecodedNext(cycles: seq<Cycle>, width: nat)
    requires width <= 2 && cycles != [] && |Decoded(cycles[..|cycles| - 1], width).rest| % 2 == 0
    ensures var (a, c) := (Decoded(cycles[..|cycles| - 1], width), cycles[|cycles| - 1]);
            var both := a.rest + [c.rise] + [c.fall];
            Decoded(cycles, width)
            == if |both| < 8 / Lanes(width) then Assembled(a.bytes, both)
               else Assembled(a.bytes + [Pack(both, Base(Lanes(width)))], [])
  {
    hide Samples, Assemble, Pack;
    var c := cycles[|cycles| - 1];
    SamplesLast(cycles);
    TwoMore(Samples(cycles[..|cycles| - 1]), c.rise, c.fall, Base(Lanes(width)), 8 / Lanes(width));
  }

  /** What the registers hold after `cycles`, in terms of the reference on all but the last of them. */
  ghost predicate Matches(r: Run, cycles: seq<Cycle>, width: nat)
    requires width <= 2 && cycles != []
  {
    var (d, last) := (Decoded(cycles[..|cycles| - 1], width), cycles[|cycles| - 1]);
    r.out == d.bytes && Holds(r.state, width, d.rest) && r.state.rise == last.rise && r.state.fall == last.fall
  }

  lemma {:induction false} CapturedMatches(s: State, width: nat, cycles: seq<Cycle>)
    requires width <= 2 && (!s.primed || s.activeWidth != width) && cycles != []
    ensures Matches(Captured(s, width, cycles), cycles, width)
    decreases |cycles|
  {
    if |cycles| == 1 {
      FirstEdge(s, width, cycles);
    } else {
      hide Captured, Matches;
      CapturedMatches(s, width, cycles[..|cycles| - 1]);
      NextMatches(s, width, cycles);
    }
  }

  lemma NextMatches(s: State, width: nat, cycles: seq<Cycle>)
    requires width <= 2 && |cycles| >= 2
    requires Matches(Captured(s, width, cycles[..|cycles| - 1]), cycles[..|cycles| - 1], width)
    ensures Matches(Captured(s, width, cycles), cycles, width)
  {
    hide Pack, RiseEdge, FallEdge, Holds, Decoded, Captured, Base, Lanes;
    var before, next := cycles[..|cycles| - 1], cycles[|cycles| - 1];
    var state := Captured(s, width, before).state;
    var d := Decoded(before[..|before| - 1], width);
    PairTaken(state, width, d.rest, next.rise);
    HoldsRest(state, width, d.rest);
    DecodedNext(before, width);
    FallHolds(RiseEdge(state, true, width, next.rise), width, next.fall);
    CapturedLast(s, width, cycles);
  }

  /** With enable and width held from any state that is not primed at this width, the bytes given after
      any number of cycles are the reference's of all samples but the last cycle's, which the next rising
      edge takes in. */
  lemma CaptureMatchesReference(s: State, width: nat, cycles: seq<Cycle>)
    requires width <= 2 && (!s.primed || s.activeWidth != width) && cycles != []
    ensures var (last, r) := (|cycles| - 1, Captured(s, width, cycles));
            var a := Assemble(Samples(cycles[..last]), Base(Lanes(width)), 8 / Lanes(width));
            && Ok(r.out) == Ddr(Samples(cycles[..last]), Lanes(width))
            && Holds(r.state, width, a.rest) && r.state.rise == cycles[last].rise && r.state.fall == cycles[last].fall
  {
    CapturedMatches(s, width, cycles);
    DdrIs(Samples(cycles[..|cycles| - 1]), width);
    hide Captured, Holds, Assemble, Samples, Base, Lanes, Ddr;
  }

  lemma DdrIs(samples: seq<Sample>, width: nat)
    requires width <= 2
    ensures Base(Lanes(width)) > 0 && 8 / Lanes(width) > 0
    ensures Ddr(samples, Lanes(width)) == Ok(Assemble(samples, Base(Lanes(width)), 8 / Lanes(width)).bytes)
  {
    hide Assemble;
  }

  /** The first edge only primes the capture. */
  lemma FirstEdge(s: State, width: nat, cycles: seq<Cycle>)
    requires width <= 2 && (!s.primed || s.activeWidth != width) && |cycles| == 1
    ensures Matches(Captured(s, width, cycles), cycles, width)
  {
    hide Pack;
    assert cycles[..0] == [];
    assert Captured(s, width, []) == Run(s, []);
  }

  lemma SamplesLast(cycles: seq<Cycle>)
    requires cycles != []
    ensures var last := |cycles| - 1;
            Samples(cycles) == Samples(cycles[..last]) + [cycles[last].rise] + [cycles[last].fall]
  {
  }

  lemma HoldsRest(s: State, width: nat, rest: seq<Sample>)
    requires width <= 2 && Holds(s, width, rest)
    ensures |rest| % 2 == 0 && 8 / Lanes(width) % 2 == 0
  {
  }

  lemma CapturedLast(s: State, width: nat, cycles: seq<Cycle>)
    requires cycles != []
    ensures var (before, c) := (Captured(s, width, cycles[..|cycles| - 1]), cycles[|cycles| - 1]);
            var n := RiseEdge(before.state, true, width, c.rise);
            Captured(s, width, cycles)
            == Run(FallEdge(n, true, c.fall), if n.byteValid then before.out + [n.byteData as int] else before.out)
  {
  }

  lemma FallHolds(s: State, width: nat, data: Sample)
    requires width <= 2
    ensures FallEdge(s, true, data).rise == s.rise && FallEdge(s, true, data).fall == data
    ensures forall rest :: Holds(s, width, rest) ==> Holds(FallEdge(s, true, data), width, rest)
  {
    hide Pack;
  }

  /** A pair of samples more, bytes being whole pairs. */
  lemma TwoMore(samples: seq<Sample>, a: Sample, b: Sample, base: nat, n: nat)
    requires base > 0 && n > 0 && n % 2 == 0 && |Assemble(samples, base, n).rest| % 2 == 0
    ensures var (before, rest) := (Assemble(samples, base, n), Assemble(samples, base, n).rest + [a] + [b]);
            Assemble(samples + [a] + [b], base, n)
            == if |rest| < n then Assembled(before.bytes, rest)
               else Assembled(before.bytes + [Pack(rest, base)], [])
  {
    hide Assemble, Pack;
    AssembleSnoc(samples, a, base, n);
    AssembleSnoc(samples + [a], b, base, n);
  }

  // ---- Any enable and any width on every edge ----

  /** One clock cycle: what enable and width are at the rising edge, and enable at the falling edge. */
  datatype Tick = Tick(enable: bool, width: nat, rise: Sample, fallEnable: bool, fall: Sample)

  function Step(s: State, t: Tick): State {
    FallEdge(RiseEdge(s, t.enable, t.width, t.rise), t.fallEnable, t.fall)
  }

  /** The bytes given from a state on. */
  function Given(s: State, ticks: seq<Tick>): seq<nat>
    decreases |ticks|
  {
    if ticks == [] then [] else
    var n := RiseEdge(s, ticks[0].enable, ticks[0].width, ticks[0].rise);
    (if n.byteValid then [n.byteData as int] else []) + Given(Step(s, ticks[0]), ticks[1..])
  }

  /** The width captured at, if any. */
  function Width(t: Tick): Option<nat> {
    if t.enable && t.width <= 2 then Some(t.width) else None
  }

  /** How many ticks at the start have this width. */
  function Stretch(ticks: seq<Tick>, width: Option<nat>): (n: nat)
    ensures n <= |ticks|
    ensures forall k :: 0 <= k < n ==> Width(ticks[k]) == width
    ensures n < |ticks| ==> Width(ticks[n]) != width
  {
    if ticks == [] || Width(ticks[0]) != width then 0 else 1 + Stretch(ticks[1..], width)
  }

  /** The samples of each cycle, a falling edge without enable repeating the last one taken. */
  function Cycles(fall: Sample, ticks: seq<Tick>): (c: seq<Cycle>)
    ensures |c| == |ticks|
    decreases |ticks|
  {
    if ticks == [] then [] else
    var f := if ticks[0].fallEnable then ticks[0].fall else fall;
    [Cycle(ticks[0].rise, f)] + Cycles(f, ticks[1..])
  }

  /** What should come out: the trace port is captured in stretches over which it is enabled at one width,
      and each gives the reference's bytes of its own samples, but for the last cycle's.  Nothing is
      carried from one stretch to the next. */
  function Expected(fall: Sample, ticks: seq<Tick>): seq<nat>
    decreases |ticks|
  {
    if ticks == [] then [] else
    var width := Width(ticks[0]);
    var n, cycles := Stretch(ticks, width), Cycles(fall, ticks);
    (if width.None? then [] else Ddr(Samples(cycles[..n - 1]), Lanes(width.value)).value)
    + Expected(cycles[n - 1].fall, ticks[n..])
  }

  /** Not in the middle of capturing at this width. */
  predicate Fresh(s: State, ticks: seq<Tick>) {
    ticks != [] && Width(ticks[0]).Some? ==> !s.primed || s.activeWidth != ticks[0].width
  }

  function After(s: State, ticks: seq<Tick>): State
    decreases |ticks|
  {
    if ticks == [] then s else After(Step(s, ticks[0]), ticks[1..])
  }

  lemma {:induction false} GivenAppend(s: State, a: seq<Tick>, b: seq<Tick>)
    ensures Given(s, a + b) == Given(s, a) + Given(After(s, a), b)
    decreases |a|
  {
    hide RiseEdge, Step;
    if a == [] {
      assert a + b == b;
    } else {
      assert (a + b)[0] == a[0] && (a + b)[1..] == a[1..] + b;
      GivenAppend(Step(s, a[0]), a[1..], b);
    }
  }

  /** A tick at the end. */
  lemma GivenSnoc(s: State, ticks: seq<Tick>, t: Tick)
    ensures var (u, n) := (After(s, ticks), RiseEdge(After(s, ticks), t.enable, t.width, t.rise));
            && Given(s, ticks + [t]) == Given(s, ticks) + (if n.byteValid then [n.byteData as int] else [])
            && After(s, ticks + [t]) == Step(u, t)
  {
    GivenAppend(s, ticks, [t]);
    AfterSnoc(s, ticks, t);
    hide RiseEdge, FallEdge;
    var u := After(s, ticks);
    assert [t][1..] == [] && Given(Step(u, t), []) == [];
  }

  lemma {:induction false} AfterSnoc(s: State, ticks: seq<Tick>, t: Tick)
    ensures After(s, ticks + [t]) == Step(After(s, ticks), t)
    decreases |ticks|
  {
    hide Step;
    if ticks == [] {
      assert [t][1..] == [];
    } else {
      assert (ticks + [t])[0] == ticks[0] && (ticks + [t])[1..] == ticks[1..] + [t];
      AfterSnoc(Step(s, ticks[0]), ticks[1..], t);
    }
  }

  lemma {:induction false} CyclesSnoc(fall: Sample, ticks: seq<Tick>, t: Tick)
    ensures var f := if ticks == [] then fall else Cycles(fall, ticks)[|ticks| - 1].fall;
            Cycles(fall, ticks + [t]) == Cycles(fall, ticks) + [Cycle(t.rise, if t.fallEnable then t.fall else f)]
    decreases |ticks|
  {
    if ticks == [] {
      assert [t][1..] == [];
    } else {
      assert (ticks + [t])[0] == ticks[0] && (ticks + [t])[1..] == ticks[1..] + [t];
      CyclesSnoc(if ticks[0].fallEnable then ticks[0].fall else fall, ticks[1..], t);
    }
  }

  /** A stretch of one width runs as it would with the falling edges enabled throughout. */
  lemma {:induction false} StretchRuns(s: State, width: nat, ticks: seq<Tick>)
    requires width <= 2 && forall k :: 0 <= k < |ticks| ==> Width(ticks[k]) == Some(width)
    ensures var r := Captured(s, width, Cycles(s.fall, ticks));
            && Given(s, ticks) == r.out && After(s, ticks) == r.state
            && (ticks != [] ==> r.state.fall == Cycles(s.fall, ticks)[|ticks| - 1].fall)
    decreases |ticks|
  {
    if ticks != [] {
      var before, t := ticks[..|ticks| - 1], ticks[|ticks| - 1];
      assert ticks == before + [t];
      StretchRuns(s, width, before);
      GivenSnoc(s, before, t);
      CyclesSnoc(s.fall, before, t);
      var c := Cycles(s.fall, ticks);
      assert c[..|c| - 1] == Cycles(s.fall, before);
      CapturedLast(s, width, c);
      var u := After(s, before);
      KeepsFall(u, width, t);
      hide RiseEdge, FallEdge, Captured, Given, After, Cycles;
    }
  }

  lemma KeepsFall(s: State, width: nat, t: Tick)
    requires t.enable && t.width == width
    ensures RiseEdge(s, true, width, t.rise).fall == s.fall
    ensures Step(s, t) == FallEdge(RiseEdge(s, true, width, t.rise), true, if t.fallEnable then t.fall else s.fall)
  {
  }

  /** Disabled, nothing is given, and what follows starts afresh. */
  lemma {:induction false} OffRuns(s: State, ticks: seq<Tick>)
    requires ticks != [] && forall k :: 0 <= k < |ticks| ==> Width(ticks[k]) == None
    ensures var c := Cycles(s.fall, ticks);
            Given(s, ticks) == [] && !After(s, ticks).primed && After(s, ticks).fall == c[|ticks| - 1].fall
    decreases |ticks|
  {
    var n := Step(s, ticks[0]);
    assert !n.primed && n.fall == Cycles(s.fall, ticks)[0].fall;
    if |ticks| > 1 {
      OffRuns(n, ticks[1..]);
    } else {
      assert ticks[1..] == [];
    }
  }

  lemma OnRuns(s: State, width: nat, ticks: seq<Tick>)
    requires width <= 2 && (!s.primed || s.activeWidth != width)
    requires ticks != [] && forall k :: 0 <= k < |ticks| ==> Width(ticks[k]) == Some(width)
    ensures var (c, u) := (Cycles(s.fall, ticks), After(s, ticks));
            && Ok(Given(s, ticks)) == Ddr(Samples(c[..|ticks| - 1]), Lanes(width))
            && u.fall == c[|ticks| - 1].fall && u.activeWidth == width
  {
    StretchRuns(s, width, ticks);
    CaptureMatchesReference(s, width, Cycles(s.fall, ticks));
    hide RiseEdge, FallEdge, Captured, Given, After, Cycles, Ddr, Samples, Assemble, Pack;
  }

  /** The first stretch. */
  lemma OneStretch(s: State, ticks: seq<Tick>)
    requires Fresh(s, ticks) && ticks != []
    ensures var (width, cycles) := (Width(ticks[0]), Cycles(s.fall, ticks));
            var n := Stretch(ticks, width);
            && n > 0 && After(s, ticks[..n]).fall == cycles[n - 1].fall && Fresh(After(s, ticks[..n]), ticks[n..])
            && Given(s, ticks[..n])
               == if width.None? then [] else Ddr(Samples(cycles[..n - 1]), Lanes(width.value)).value
  {
    hide RiseEdge, FallEdge, Captured, Given, After, Cycles, Ddr, Samples, Assemble, Pack;
    var width := Width(ticks[0]);
    var n, cycles := Stretch(ticks, width), Cycles(s.fall, ticks);
    var first := ticks[..n];
    assert ticks == first + ticks[n..];
    FirstCycles(s.fall, first, ticks[n..]);
    assert cycles[..n][..n - 1] == cycles[..n - 1] && cycles[..n][n - 1] == cycles[n - 1];
    if width.Some? {
      OnRuns(s, width.value, first);
    } else {
      OffRuns(s, first);
    }
  }

  /** For any enable and any width on every edge, the bytes given are those of the stretches, each decoded by
      the reference on its own samples: stopping, or changing the width, drops the byte begun and nothing
      taken before it shows up after it. */
  lemma {:induction false} CaptureByStretches(s: State, ticks: seq<Tick>)
    requires Fresh(s, ticks)
    ensures Given(s, ticks) == Expected(s.fall, ticks)
    decreases |ticks|
  {
    if ticks != [] {
      var n := Stretch(ticks, Width(ticks[0]));
      OneStretch(s, ticks);
      assert ticks == ticks[..n] + ticks[n..];
      GivenAppend(s, ticks[..n], ticks[n..]);
      CaptureByStretches(After(s, ticks[..n]), ticks[n..]);
      hide RiseEdge, FallEdge, Captured, Given, After, Cycles, Ddr, Samples, Assemble, Stretch;
    }
  }

  lemma {:induction false} FirstCycles(fall: Sample, a: seq<Tick>, b: seq<Tick>)
    ensures Cycles(fall, a + b)[..|a|] == Cycles(fall, a)
    decreases |a|
  {
    if a == [] {
    } else {
      assert (a + b)[0] == a[0] && (a + b)[1..] == a[1..] + b;
      FirstCycles(if a[0].fallEnable then a[0].fall else fall, a[1..], b);
    }
  }
}
