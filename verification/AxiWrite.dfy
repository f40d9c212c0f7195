/** The write side of the AXI-Lite register block: address and data arrive on separate channels, in
    either order or together, and each write waits for the response to the one before. */
module AxiWrite {
  import opened Bytes

  datatype State = State(address: Option<nat>, data: Option<nat>, responding: bool)

  /** What the bus master offers on one clock. */
  datatype Input = Input(address: Option<nat>, data: Option<nat>, responseReady: bool)

  const RESET := State(None, None, false)

  predicate AddressTaken(s: State, i: Input) {
    i.address.Some? && s.address.None? && !s.responding
  }

  predicate DataTaken(s: State, i: Input) {
    i.data.Some? && s.data.None? && !s.responding
  }

  /** The register write done on this clock. */
  function Fired(s: State, i: Input): Option<(nat, nat)> {
    if (s.address.Some? || AddressTaken(s, i)) && (s.data.Some? || DataTaken(s, i)) && !s.responding then
      Some((if s.address.Some? then s.address.value else i.address.value,
            if s.data.Some? then s.data.value else i.data.value))
    else None
  }

  function Step(s: State, i: Input): State {
    if Fired(s, i).Some? then State(None, None, true)
    else State(if AddressTaken(s, i) then i.address else s.address,
               if DataTaken(s, i) then i.data else s.data,
               s.responding && !i.responseReady)
  }

  /** Both channels as accepted, the register writes done, and how many were answered. */
  datatype Trace = Trace(state: State, addresses: seq<nat>, data: seq<nat>, writes: seq<(nat, nat)>, answered: nat)

  function Advance(t: Trace, i: Input): Trace {
    var s := t.state;
    Trace(Step(s, i),
          if AddressTaken(s, i) then t.addresses + [i.address.value] else t.addresses,
          if DataTaken(s, i) then t.data + [i.data.value] else t.data,
          if Fired(s, i).Some? then t.writes + [Fired(s, i).value] else t.writes,
          if s.responding && i.responseReady then t.answered + 1 else t.answered)
  }

  function Run(inputs: seq<Input>): Trace {
    if inputs == [] then Trace(RESET, [], [], [], 0) else
    Advance(Run(inputs[..|inputs| - 1]), inputs[|inputs| - 1])
  }

  function Pending(o: Option<nat>): seq<nat> {
    if o.Some? then [o.value] else []
  }

  function Addresses(writes: seq<(nat, nat)>): (a: seq<nat>)
    ensures |a| == |writes|
  {
    seq(|writes|, k requires 0 <= k < |writes| => writes[k].0)
  }

  function Data(writes: seq<(nat, nat)>): (d: seq<nat>)
    ensures |d| == |writes|
  {
    seq(|writes|, k requires 0 <= k < |writes| => writes[k].1)
  }

  /** However the two channels are skewed, the writes done are the accepted addresses paired in order
      with the accepted data, at most one of either left over; no two writes are unanswered. */
  lemma {:induction false} WritesPair(inputs: seq<Input>)
    ensures var t := Run(inputs);
            && t.addresses == Addresses(t.writes) + Pending(t.state.address)
            && t.data == Data(t.writes) + Pending(t.state.data)
            && (t.state.address.None? || t.state.data.None?)
            && |t.writes| == t.answered + (if t.state.responding then 1 else 0)
            && (t.state.responding ==> t.state.address.None? && t.state.data.None?)
  {
    if inputs != [] {
      WritesPair(inputs[..|inputs| - 1]);
      var t, i := Run(inputs[..|inputs| - 1]), inputs[|inputs| - 1];
      var n := Advance(t, i);
      if Fired(t.state, i).Some? {
        assert Addresses(n.writes) == Addresses(t.writes) + [n.writes[|t.writes|].0];
        assert Data(n.writes) == Data(t.writes) + [n.writes[|t.writes|].1];
      }
    }
  }

  /** The write side never locks up: from any moment of any run, a master that offers both channels and takes
      the responses gets a write done on every second clock. */
  lemma {:induction false} WritesProceed(before: seq<Input>, offers: seq<Input>)
    requires forall i <- offers :: i.address.Some? && i.data.Some? && i.responseReady
    ensures var (t, n) := (Run(before), Run(before + offers));
            2 * |n.writes| - (if n.state.responding then 1 else 0)
            == 2 * |t.writes| - (if t.state.responding then 1 else 0) + |offers|
    decreases |offers|
  {
    if offers == [] {
      assert before + [] == before;
    } else {
      var last := |offers| - 1;
      WritesProceed(before, offers[..last]);
      assert (before + offers)[..|before| + last] == before + offers[..last];
    }
  }

  // ---- The registers ----

  class Registers {
    var addressHold: nat
    var dataHold: nat
    var addressPending: bool
    var dataPending: bool
    var responding: bool

    ghost function Now(): State
      reads this
    {
      State(if addressPending then Some(addressHold) else None, if dataPending then Some(dataHold) else None, responding)
    }

    constructor ()
      ensures Now() == RESET
    {
      addressHold, dataHold, addressPending, dataPending, responding := 0, 0, false, false, false;
    }

    /** One clock, with the register write it does. */
    method Clock(i: Input) returns (fired: Option<(nat, nat)>)
      modifies this
      ensures Now() == Step(old(Now()), i) && fired == Fired(old(Now()), i)
    {
      var addressTake := i.address.Some? && !addressPending && !responding;
      var dataTake := i.data.Some? && !dataPending && !responding;
      var fire := (addressPending || addressTake) && (dataPending || dataTake) && !responding;
      fired := if fire then Some((if addressPending then addressHold else i.address.value,
                                  if dataPending then dataHold else i.data.value)) else None;
      if responding && i.responseReady {
        responding := false;
      }
      if addressTake {
        addressHold, addressPending := i.address.value, true;
      }
      if dataTake {
        dataHold, dataPending := i.data.value, true;
      }
      if fire {
        responding, addressPending, dataPending := true, false, false;
      }
    }
  }
}
