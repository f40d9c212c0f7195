/** The fractional-N tick: four times the baud rate out of the clock, without a divider. */
module BaudTick {
  import opened Arith

  const WRAP: nat := 0x1_0000_0000_0000_0000

  type Baud = x: int | 0 <= x < 0x1_0000_0000

  datatype State = State(accumulator: nat, tick: bool)

  function Step(s: State, clock: nat, baud: Baud): State {
    var next := (s.accumulator + 4 * baud) % WRAP;
    if baud == 0 then State(0, false)
    else if next >= clock then State(next - clock, true)
    else State(next, false)
  }

  /** The registers, one call a clock edge. */
  class Registers {
    const clock: nat
    var accumulator: nat
    var tick: bool

    constructor (clock: nat)
      ensures this.clock == clock && Now() == State(0, false)
    {
      this.clock, accumulator, tick := clock, 0, false;
    }

    ghost function Now(): State
      reads this
    {
      State(accumulator, tick)
    }

    method Clock(baud: Baud)
      modifies this
      ensures Now() == Step(old(Now()), clock, baud)
    {
      var next := (accumulator + 4 * baud) % WRAP;
      if baud == 0 {
        accumulator := 0;
        tick := false;
      } else if next >= clock {
        accumulator := next - clock;
        tick := true;
      } else {
        accumulator := next;
        tick := false;
      }
    }
  }

  /** The state after `n` edges from reset with the rate held, and the ticks so far. */
  datatype Run = Run(state: State, ticks: nat)

  function After(clock: nat, baud: Baud, n: nat): Run {
    if n == 0 then Run(State(0, false), 0) else
    var before := After(clock, baud, n - 1);
    var s := Step(before.state, clock, baud);
    Run(s, before.ticks + if s.tick then 1 else 0)
  }

  /** The edge after `n` exact ones does not carry out of the 64-bit accumulator. */
  predicate Fits(clock: nat, baud: Baud, n: nat)
    requires clock > 0
  {
    4 * baud * n % clock + 4 * baud < WRAP
  }

  lemma StepWithin(s: State, clock: nat, baud: Baud)
    requires 0 < 4 * baud <= clock && s.accumulator < clock && s.accumulator + 4 * baud < WRAP
    ensures var (n, next) := (Step(s, clock, baud), s.accumulator + 4 * baud);
            n.accumulator < clock && n.accumulator == next - if n.tick then clock else 0
  {
  }

  /** Up to one tick a clock, and while the sums fit, every unit added is either in the accumulator or paid
      for by a tick. */
  lemma {:induction false} Conserves(clock: nat, baud: Baud, n: nat)
    requires 0 < 4 * baud <= clock && forall m: nat :: m < n ==> Fits(clock, baud, m)
    ensures var r := After(clock, baud, n);
            r.state.accumulator < clock && r.ticks * clock + r.state.accumulator == 4 * baud * n
  {
    if n > 0 {
      hide Fits;
      var step: nat := 4 * baud;
      Conserves(clock, baud, n - 1);
      var before := After(clock, baud, n - 1);
      FitsSum(clock, baud, n - 1, before);
      StepWithin(before.state, clock, baud);
      hide Step;
      MulNext(step, n - 1);
      MulNext(clock, before.ticks);
    }
  }

  lemma FitsSum(clock: nat, baud: Baud, n: nat, r: Run)
    requires clock > 0 && r.state.accumulator < clock && r.ticks * clock + r.state.accumulator == 4 * baud * n
    ensures Fits(clock, baud, n) <==> r.state.accumulator + 4 * baud < WRAP
  {
    Remainder(4 * baud * n, clock, r.ticks, r.state.accumulator);
  }

  lemma MulNext(x: nat, n: nat)
    ensures x * (n + 1) == x * n + x && (n + 1) * x == n * x + x
  {
  }

  lemma Remainder(x: nat, clock: nat, q: nat, a: nat)
    requires x == q * clock + a && a < clock
    ensures x % clock == a && x / clock == q
  {
    assert (q + 1) * clock == q * clock + clock;
    Quotient(x, clock, q);
    assert x == x / clock * clock + x % clock;
  }

  /** Past one tick a clock the accumulator runs away, one tick every clock, for as long as it stays
      within the clock rate before each edge. */
  lemma {:induction false} RunsAway(clock: nat, baud: Baud, n: nat)
    requires 0 < clock < 4 * baud
    requires n > 0 ==> (n - 1) * (4 * baud - clock) < clock
    ensures After(clock, baud, n).ticks == n && After(clock, baud, n).state.accumulator == n * (4 * baud - clock)
  {
    if n > 0 {
      var d := 4 * baud - clock;
      assert n > 1 ==> (n - 2) * d <= (n - 1) * d;
      RunsAway(clock, baud, n - 1);
      assert n * d == (n - 1) * d + d;
      StepAway(After(clock, baud, n - 1).state, clock, baud);
      hide Step;
    }
  }

  lemma StepAway(s: State, clock: nat, baud: Baud)
    requires s.accumulator < clock < 4 * baud
    ensures Step(s, clock, baud) == State(s.accumulator + (4 * baud - clock), true)
  {
  }

  predicate Exact(clock: nat, baud: Baud, n: nat)
    requires clock > 0
  {
    After(clock, baud, n).ticks == 4 * baud * n / clock
  }

  /** The first edge by which a rate past the clock has fallen a tick behind. */
  function Behind(clock: nat, d: nat): (n: nat)
    requires clock > 0 && d > 0
    ensures n > 0 && (n - 1) * d < clock <= n * d
  {
    var n := (clock + d - 1) / d;
    assert clock <= n * d < clock + d;
    assert (n - 1) * d == n * d - d;
    n
  }

  lemma {:induction false} FirstMisfit(clock: nat, baud: Baud, m: nat) returns (n: nat)
    requires clock > 0 && !Fits(clock, baud, m)
    ensures !Fits(clock, baud, n) && forall k: nat :: k < n ==> Fits(clock, baud, k)
    decreases m
  {
    if k: nat :| k < m && !Fits(clock, baud, k) {
      n := FirstMisfit(clock, baud, k);
    } else {
      n := m;
    }
  }

  /** A sum that carries out loses the tick due on that edge. */
  lemma CarryLoses(clock: nat, baud: Baud, n: nat)
    requires 0 < 4 * baud <= clock < WRAP && !Fits(clock, baud, n)
    requires forall k: nat :: k < n ==> Fits(clock, baud, k)
    ensures !Exact(clock, baud, n + 1)
  {
    hide Fits, Step;
    var step: nat := 4 * baud;
    Conserves(clock, baud, n);
    var r := After(clock, baud, n);
    FitsSum(clock, baud, n, r);
    Carries(r.state, clock, baud);
    MulNext(step, n);
    TooMuch(step * (n + 1), clock, r.ticks);
  }

  lemma Carries(s: State, clock: nat, baud: Baud)
    requires 0 < 4 * baud <= clock < WRAP && s.accumulator < clock && s.accumulator + 4 * baud >= WRAP
    ensures !Step(s, clock, baud).tick
  {
  }

  function Gcd(a: nat, b: nat): (g: nat)
    requires a > 0
    ensures g > 0
    decreases b
  {
    if b == 0 then a else Gcd(b, a % b)
  }

  lemma {:induction false} GcdDivides(a: nat, b: nat) returns (p: nat, q: nat)
    requires a > 0
    ensures a == Gcd(a, b) * p && b == Gcd(a, b) * q
    decreases b
  {
    if b == 0 {
      p, q := 1, 0;
    } else {
      var r, t := GcdDivides(b, a % b);
      DividesSum(Gcd(a, b), a, b, r, t);
      p, q := r * (a / b) + t, r;
    }
  }

  lemma DividesSum(g: nat, a: nat, b: nat, r: nat, t: nat)
    requires b > 0 && b == g * r && a % b == g * t
    ensures a == g * (r * (a / b) + t)
  {
    var k := a / b;
    assert a == b * k + a % b;
    assert g * (r * k + t) == g * r * k + g * t;
  }

  /** The common divisor as a combination of the two. */
  lemma {:induction false} Combination(a: nat, b: nat) returns (x: int, y: int)
    requires a > 0
    ensures a * x + b * y == Gcd(a, b)
    decreases b
  {
    if b == 0 {
      x, y := 1, 0;
    } else {
      var u, v := Combination(b, a % b);
      CombinationStep(a, b, u, v);
      x, y := v, u - a / b * v;
    }
  }

  lemma CombinationStep(a: nat, b: nat, u: int, v: int)
    requires b > 0
    ensures a * v + b * (u - a / b * v) == b * u + a % b * v
  {
    var k := a / b;
    assert a == b * k + a % b;
    assert a * v == (b * k + a % b) * v == b * k * v + a % b * v;
    assert b * (u - k * v) == b * u - b * (k * v) == b * u - b * k * v;
  }

  /** No multiple of the step leaves more than the clock rate less the common divisor. */
  lemma LeavesAtMost(clock: nat, step: nat, n: nat)
    requires clock > 0
    ensures step * n % clock <= clock - Gcd(clock, step)
  {
    hide Gcd;
    var p, q := GcdDivides(clock, step);
    LeftoverAtMost(Gcd(clock, step), p, q, n, step * n, clock);
  }

  lemma LeftoverAtMost(g: nat, p: nat, q: nat, n: nat, x: nat, clock: nat)
    requires g > 0 && clock > 0 && clock == g * p && x == g * q * n
    ensures x % clock <= clock - g
  {
    var k, r := x / clock, x % clock;
    Factored(g, p, q, n, k);
    Rest(g, p, q * n - p * k, clock, r);
  }

  lemma Factored(g: nat, p: nat, q: nat, n: nat, k: nat)
    ensures g * q * n - g * p * k == g * (q * n - p * k)
  {
    assert g * q * n == g * (q * n) && g * p * k == g * (p * k);
  }

  lemma Rest(g: nat, p: nat, m: int, clock: nat, r: nat)
    requires g > 0 && clock == g * p && r == g * m && r < clock
    ensures r <= clock - g
  {
    if m >= p {
      MulMono(p, m, g);
    } else if m >= 0 {
      MulMono(m + 1, p, g);
    }
  }

  /** And one leaves exactly that. */
  lemma LeavesMost(clock: nat, step: nat) returns (n: nat)
    requires clock > 0
    ensures step * n % clock == clock - Gcd(clock, step)
  {
    hide Gcd;
    var g := Gcd(clock, step);
    var p, q := GcdDivides(clock, step);
    FactorAtMost(g, p, clock);
    var y, x := Combination(clock, step);
    var t := (-x) / clock;
    n := (-x) % clock;
    Turned(clock, step, x, y, t, n, g);
    Above(step, n, clock, y - step * t, g);
  }

  lemma FactorAtMost(g: nat, p: nat, x: nat)
    requires 0 < x == g * p
    ensures g <= x
  {
    if p >= 1 {
      MulMono(1, p, g);
    }
  }

  /** A multiple of the step that is `g` short of one of the clock rate. */
  lemma Above(step: nat, n: nat, clock: nat, c: int, g: nat)
    requires 0 < g <= clock && step * n == clock * c - g
    ensures step * n % clock == clock - g
  {
    var x := step * n;
    assert x >= 0;
    NotPositive(clock, c);
    assert c >= 1;
    MulNext(clock, c - 1);
    Remainder(x, clock, c - 1, clock - g);
  }

  lemma NotPositive(clock: nat, c: int)
    ensures c <= 0 ==> clock * c <= 0
  {
  }

  lemma Turned(clock: nat, step: nat, x: int, y: int, t: int, n: int, g: nat)
    requires -x == clock * t + n && clock * y + step * x == g
    ensures step * n == clock * (y - step * t) - g
  {
    assert step * n == step * (-x - clock * t) == -(step * x) - step * (clock * t);
    assert clock * (y - step * t) == clock * y - clock * (step * t);
    assert step * (clock * t) == clock * (step * t);
  }

  /** Every sum fits exactly when the largest does. */
  lemma AllFitIff(clock: nat, baud: Baud)
    requires clock > 0
    ensures (forall n: nat :: Fits(clock, baud, n)) <==> clock - Gcd(clock, 4 * baud) + 4 * baud < WRAP
  {
    var step: nat := 4 * baud;
    var n := LeavesMost(clock, step);
    assert Fits(clock, baud, n) <==> clock - Gcd(clock, step) + step < WRAP;
    forall m: nat ensures 4 * baud * m % clock <= clock - Gcd(clock, step) {
      LeavesAtMost(clock, step, m);
    }
  }

  /** At a rate held from reset, the ticks after every number of edges are exactly four times the baud
      rate times the time gone by, rounded down, if and only if that is at most a tick a clock and the
      largest sum that comes up, a step on top of the largest remainder, stays within the 64-bit
      accumulator.  (It does whenever the clock rate and a step together are at most 2^64.) */
  lemma ExactIff(clock: nat, baud: Baud)
    requires 0 < clock < 0x1_0000_0000_0000_0000 && baud > 0
    ensures (forall n: nat :: Exact(clock, baud, n))
       <==> 4 * baud <= clock && clock - Gcd(clock, 4 * baud) + 4 * baud < 0x1_0000_0000_0000_0000
  {
    hide Exact, Fits, Gcd;
    AllFitIff(clock, baud);
    if 4 * baud > clock {
      TooFast(clock, baud);
    } else if forall n: nat :: Fits(clock, baud, n) {
      forall n: nat ensures Exact(clock, baud, n) {
        ExactAt(clock, baud, n);
      }
    } else {
      var m: nat :| !Fits(clock, baud, m);
      var n := FirstMisfit(clock, baud, m);
      CarryLoses(clock, baud, n);
    }
  }

  lemma ExactAt(clock: nat, baud: Baud, n: nat)
    requires 0 < 4 * baud <= clock && forall m: nat :: Fits(clock, baud, m)
    ensures Exact(clock, baud, n)
  {
    hide Fits;
    Conserves(clock, baud, n);
    var r := After(clock, baud, n);
    Remainder(4 * baud * n, clock, r.ticks, r.state.accumulator);
  }

  lemma TooFast(clock: nat, baud: Baud)
    requires 0 < clock < 4 * baud
    ensures exists n: nat :: !Exact(clock, baud, n)
  {
    hide After;
    var d := 4 * baud - clock;
    var n := Behind(clock, d);
    RunsAway(clock, baud, n);
    MulSum(clock, d, n);
    TooMuch((clock + d) * n, clock, n);
    assert !Exact(clock, baud, n);
  }

  lemma MulSum(c: nat, d: nat, n: nat)
    ensures (c + d) * n == c * n + n * d
  {
  }

  lemma TooMuch(x: nat, clock: nat, n: nat)
    requires clock > 0 && x >= clock * n + clock
    ensures x / clock > n
  {
    var m := x / clock;
    assert x < m * clock + clock;
    if m <= n {
      MulMono(m, n, clock);
    }
  }
}
