/** The zero-copy trace stream: network packets lent to the DMA ring, filled by the hardware, swapped
    for fresh ones and handed to the network stack. */
module TraceDmaRing {
  import opened Arith
  import opened Bytes
  import R = AxiDmaRing

  const BD_COUNT := 32
  const BUFFER_SIZE := 16512
  const CACHE_LINE := 64

  /** A packet of the trace pool, known by the address range of its storage. */
  datatype Packet = Packet(start: nat, end: nat)

  /** The first cache line boundary in the packet: where the hardware writes. */
  function Aligned(start: nat): (a: nat)
    ensures start <= a < start + CACHE_LINE && a % CACHE_LINE == 0
  {
    (start + CACHE_LINE - 1) / CACHE_LINE * CACHE_LINE
  }

  predicate Roomy(p: Packet) {
    Aligned(p.start) + BUFFER_SIZE <= p.end
  }

  /** The packet pool and the socket: any call may fail, and the stack gives packets it has finished
      sending back to the pool whenever it likes. */
  class Netx {
    const all: set<Packet>
    var free: set<Packet>
    var queued: set<Packet>
    var sent: seq<seq<byte>>
    /** Calls that gave the firmware nothing to go on with: no packet, one too small, or no send. */
    ghost var refusals: nat

    ghost predicate Valid()
      reads this
    {
      free <= all && queued <= all && free !! queued
    }

    /** The packets the application has. */
    ghost function Lent(): set<Packet>
      reads this
    {
      all - free - queued
    }

    constructor (all: set<Packet>)
      ensures Valid() && this.all == all && Lent() == {} && sent == [] && refusals == 0
    {
      this.all, free, queued, sent, refusals := all, all, {}, [], 0;
    }

    method Allocate() returns (packet: Option<Packet>)
      requires Valid()
      modifies this
      ensures Valid() && sent == old(sent)
      ensures match packet
              case None => Lent() == old(Lent())
              case Some(p) => p !in old(Lent()) && Lent() == old(Lent()) + {p}
      ensures refusals == old(refusals) + if packet.Some? && Roomy(packet.value) then 0 else 1
    {
      var back: set<Packet> :| back <= queued;
      queued, free := queued - back, free + back;
      var fails := *;
      if fails || free == {} {
        refusals := refusals + 1;
        return None;
      }
      var p :| p in free;
      free := free - {p};
      refusals := refusals + if Roomy(p) then 0 else 1;
      return Some(p);
    }

    /** Only a lent packet can be released: none is released twice, or while it is being sent. */
    method Release(p: Packet)
      requires Valid() && p in Lent()
      modifies this
      ensures Valid() && sent == old(sent) && Lent() == old(Lent()) - {p} && refusals == old(refusals)
    {
      free := free + {p};
    }

    /** A send that fails leaves the packet with the caller. */
    method Send(p: Packet, payload: seq<byte>) returns (ok: bool)
      requires Valid() && p in Lent()
      modifies this
      ensures Valid()
      ensures if ok then Lent() == old(Lent()) - {p} && sent == old(sent) + [payload]
              else Lent() == old(Lent()) && sent == old(sent)
      ensures refusals == old(refusals) + if ok then 0 else 1
    {
      ok := *;
      if ok {
        queued := queued + {p};
        sent := sent + [payload];
      } else {
        refusals := refusals + 1;
      }
    }
  }

  datatype Descriptor = Descriptor(buffer: nat, control: u32, status: u32)

  /** The hardware's status word by its bits: complete, no error bit, and a length the buffer has room for. */
  lemma StatusBits(status: u32)
    ensures R.IsComplete(status) <==> And(status, 0x8000_0000) != 0
    ensures R.IsError(status) <==> And(status, 0x7000_0000) != 0
    ensures Usable(status) <==> R.IsComplete(status) && !R.IsError(status) && 1 <= status % R.LENGTH_RANGE <= 16512
  {
    R.StatusMasks(status);
  }

  /** A completed transfer the firmware will send. */
  predicate Usable(status: u32) {
    R.IsComplete(status) && !R.IsError(status) && 0 < status % R.LENGTH_RANGE <= BUFFER_SIZE
  }

  /** The packets in the slots. */
  function Held(slots: seq<Option<Packet>>): (h: set<Packet>) {
    set i | 0 <= i < |slots| && slots[i].Some? :: slots[i].value
  }

  ghost predicate Distinct(slots: seq<Option<Packet>>) {
    forall i, j :: 0 <= i < j < |slots| && slots[i].Some? ==> slots[i] != slots[j]
  }

  lemma HeldPut(slots: seq<Option<Packet>>, i: nat, p: Packet)
    requires i < |slots| && slots[i] == None && Distinct(slots) && p !in Held(slots)
    ensures Distinct(slots[i := Some(p)]) && Held(slots[i := Some(p)]) == Held(slots) + {p}
  {
    var n := slots[i := Some(p)];
    forall q | q in Held(slots) + {p} ensures q in Held(n) {
      if q != p {
        var k :| 0 <= k < |slots| && slots[k] == Some(q);
        assert n[k] == Some(q);
      } else {
        assert n[i] == Some(q);
      }
    }
    forall k | 0 <= k < |slots| && slots[k].Some? ensures slots[k] != Some(p) {
      assert slots[k].value in Held(slots);
    }
  }

  lemma HeldTake(slots: seq<Option<Packet>>, i: nat)
    requires i < |slots| && slots[i].Some? && Distinct(slots)
    ensures Distinct(slots[i := None]) && Held(slots[i := None]) == Held(slots) - {slots[i].value}
    ensures slots[i].value in Held(slots)
  {
    var n := slots[i := None];
    forall q | q in Held(slots) - {slots[i].value} ensures q in Held(n) {
      var k :| 0 <= k < |slots| && slots[k] == Some(q);
      assert n[k] == Some(q);
    }
    forall q | q in Held(n) ensures q in Held(slots) - {slots[i].value} {
      var k :| 0 <= k < |n| && n[k] == Some(q);
      assert slots[k] == Some(q);
    }
  }

  lemma HeldNone(slots: seq<Option<Packet>>)
    requires forall i :: 0 <= i < |slots| ==> slots[i] == None
    ensures Held(slots) == {} && Distinct(slots)
  {
  }

  // ---- The descriptors ----

  /** No two packets of the pool overlap. */
  ghost predicate Apart(all: set<Packet>) {
    forall p, q :: p in all && q in all && p != q ==> p.end <= q.start || q.end <= p.start
  }

  /** Every descriptor owns a packet's buffer. */
  ghost predicate Armed(slots: seq<Option<Packet>>, bds: seq<Descriptor>) {
    && |slots| == |bds| == BD_COUNT
    && forall i :: 0 <= i < BD_COUNT ==>
         && slots[i].Some? && Roomy(slots[i].value)
         && bds[i].buffer == Aligned(slots[i].value.start) && bds[i].control == BUFFER_SIZE
  }

  /** The descriptors from `consumer` on hold these payloads; the rest have nothing to send. */
  ghost predicate Filled(bds: seq<Descriptor>, buffers: map<nat, seq<byte>>, consumer: nat, payloads: seq<seq<byte>>) {
    && |bds| == BD_COUNT && consumer < BD_COUNT && |payloads| <= BD_COUNT
    && forall k :: 0 <= k < BD_COUNT ==>
         var bd := bds[R.Slot(consumer, k, BD_COUNT)];
         if k < |payloads| then
           && Usable(bd.status) && bd.buffer in buffers && buffers[bd.buffer] == payloads[k]
           && |payloads[k]| == bd.status % R.LENGTH_RANGE
         else !Usable(bd.status)
  }

  /** Past the payloads waiting no descriptor is marked complete. */
  ghost predicate Pending(bds: seq<Descriptor>, consumer: nat, waiting: nat) {
    && |bds| == BD_COUNT && consumer < BD_COUNT
    && forall k :: waiting <= k < BD_COUNT ==> !R.IsComplete(bds[R.Slot(consumer, k, BD_COUNT)].status)
  }

  /** Without a fault the oldest descriptor is complete exactly when a payload waits. */
  lemma OldestPending(bds: seq<Descriptor>, consumer: nat, waiting: seq<seq<byte>>, faults: nat)
    requires |bds| == BD_COUNT && consumer < BD_COUNT && (faults == 0 ==> Pending(bds, consumer, |waiting|))
    ensures faults == 0 && R.IsComplete(bds[consumer].status) ==> waiting != []
  {
    assert R.Slot(consumer, 0, BD_COUNT) == consumer;
  }

  lemma NotComplete()
    ensures !R.IsComplete(0)
  {
  }

  lemma PendingAdvances(bds: seq<Descriptor>, consumer: nat, waiting: nat, bd: Descriptor)
    requires Pending(bds, consumer, waiting) && 0 < waiting <= BD_COUNT && !R.IsComplete(bd.status)
    ensures Pending(bds[consumer := bd], R.Slot(consumer, 1, BD_COUNT), waiting - 1)
  {
    var c := R.Slot(consumer, 1, BD_COUNT);
    forall k | waiting - 1 <= k < BD_COUNT
      ensures R.Slot(c, k, BD_COUNT) == if k == BD_COUNT - 1 then consumer else R.Slot(consumer, k + 1, BD_COUNT)
    {
    }
  }

  /** The hardware never writes where another descriptor's packet, or anything but its own packet, is:
      each buffer lies in its packet, on whole cache lines, and no two buffers meet. */
  lemma BuffersApart(all: set<Packet>, slots: seq<Option<Packet>>, bds: seq<Descriptor>, i: nat, j: nat)
    requires Apart(all) && Armed(slots, bds) && Distinct(slots) && Held(slots) <= all
    requires i < BD_COUNT && j < BD_COUNT
    ensures bds[i].buffer % CACHE_LINE == 0
    ensures slots[i].value.start <= bds[i].buffer && bds[i].buffer + BUFFER_SIZE <= slots[i].value.end
    ensures i != j ==> bds[i].buffer + BUFFER_SIZE <= bds[j].buffer || bds[j].buffer + BUFFER_SIZE <= bds[i].buffer
  {
    assert slots[i].value in Held(slots) && slots[j].value in Held(slots);
    if i < j {
      assert slots[i] != slots[j];
    } else if j < i {
      assert slots[j] != slots[i];
    }
  }

  lemma FillsNext(all: set<Packet>, slots: seq<Option<Packet>>, bds: seq<Descriptor>, buffers: map<nat, seq<byte>>,
                  consumer: nat, payloads: seq<seq<byte>>, payload: seq<byte>, status: u32)
    requires Apart(all) && Armed(slots, bds) && Distinct(slots) && Held(slots) <= all
    requires Filled(bds, buffers, consumer, payloads) && |payloads| < BD_COUNT
    requires Usable(status) && status % R.LENGTH_RANGE == |payload|
    ensures var i := R.Slot(consumer, |payloads|, BD_COUNT);
            var n := bds[i := bds[i].(status := status)];
            Armed(slots, n) && Filled(n, buffers[bds[i].buffer := payload], consumer, payloads + [payload])
  {
    var i := R.Slot(consumer, |payloads|, BD_COUNT);
    forall k | 0 <= k < BD_COUNT ensures k != |payloads| ==> bds[R.Slot(consumer, k, BD_COUNT)].buffer != bds[i].buffer {
      BuffersApart(all, slots, bds, i, R.Slot(consumer, k, BD_COUNT));
    }
  }

  /** The firmware's checks pass exactly when a payload waits in the oldest descriptor. */
  lemma OldestWaits(bds: seq<Descriptor>, buffers: map<nat, seq<byte>>, consumer: nat, payloads: seq<seq<byte>>)
    requires Filled(bds, buffers, consumer, payloads)
    ensures Usable(bds[consumer].status) <==> payloads != []
    ensures payloads != [] ==>
              && bds[consumer].buffer in buffers && buffers[bds[consumer].buffer] == payloads[0]
              && |payloads[0]| == bds[consumer].status % R.LENGTH_RANGE
  {
    assert R.Slot(consumer, 0, BD_COUNT) == consumer;
  }

  /** The oldest payload's descriptor is rearmed with a fresh packet. */
  lemma Rearmed(slots: seq<Option<Packet>>, bds: seq<Descriptor>, buffers: map<nat, seq<byte>>,
                consumer: nat, payloads: seq<seq<byte>>, replacement: Packet)
    requires Armed(slots, bds) && Filled(bds, buffers, consumer, payloads) && payloads != [] && Roomy(replacement)
    ensures var n := bds[consumer := Descriptor(Aligned(replacement.start), BUFFER_SIZE, 0)];
            && Armed(slots[consumer := Some(replacement)], n)
            && Filled(n, buffers, R.Slot(consumer, 1, BD_COUNT), payloads[1..])
  {
    var n, c := bds[consumer := Descriptor(Aligned(replacement.start), BUFFER_SIZE, 0)], R.Slot(consumer, 1, BD_COUNT);
    forall k | 0 <= k < BD_COUNT
      ensures R.Slot(c, k, BD_COUNT) == if k == BD_COUNT - 1 then consumer else R.Slot(consumer, k + 1, BD_COUNT)
    {
    }
  }

  datatype Outcome = NotReady | Success | Failed

  class TraceDma {
    const netx: Netx
    const slots: array<Option<Packet>>
    const bds: array<Descriptor>
    /** The payloads in memory, by the address they start at. */
    var buffers: map<nat, seq<byte>>
    var consumer: nat
    /** Payloads the hardware has completed and the firmware has not taken. */
    var waiting: seq<seq<byte>>
    /** Completions the hardware has reported that are no payload: an error, or an impossible length. */
    ghost var faults: nat

    /** Every packet of the pool is in exactly one place: free, in one slot, or with the stack; `held`
        are those the running function has in hand. */
    ghost predicate Owned(held: set<Packet>)
      reads this, netx, slots, bds
    {
      && slots.Length == bds.Length == BD_COUNT && consumer < BD_COUNT
      && netx.Valid() && Apart(netx.all)
      && Distinct(slots[..]) && Held(slots[..]) !! held && netx.Lent() == Held(slots[..]) + held
    }

    ghost predicate Idle()
      reads this, netx, slots, bds
    {
      Owned({}) && forall i :: 0 <= i < BD_COUNT ==> slots[i] == None
    }

    ghost predicate Streaming()
      reads this, netx, slots, bds
    {
      && Owned({}) && Armed(slots[..], bds[..]) && Filled(bds[..], buffers, consumer, waiting)
      && (faults == 0 ==> Pending(bds[..], consumer, |waiting|))
    }

    constructor (netx: Netx)
      requires netx.Valid() && Apart(netx.all) && netx.Lent() == {}
      ensures Idle() && this.netx == netx && fresh(slots) && fresh(bds)
    {
      this.netx := netx;
      slots := new Option<Packet>[BD_COUNT](_ => None);
      bds := new Descriptor[BD_COUNT](_ => Descriptor(0, 0, 0));
      buffers, consumer, waiting, faults := map[], 0, [], 0;
      new;
      HeldNone(slots[..]);
    }

    method Stop()
      requires Owned({})
      modifies slots, netx
      ensures Idle() && netx.sent == old(netx.sent) && netx.refusals == old(netx.refusals)
      ensures faults == old(faults)
    {
      for i := 0 to BD_COUNT
        invariant Owned({}) && netx.sent == old(netx.sent) && netx.refusals == old(netx.refusals)
        invariant forall j :: 0 <= j < i ==> slots[j] == None
      {
        if slots[i].Some? {
          HeldTake(slots[..], i);
          netx.Release(slots[i].value);
          ghost var next := slots[..][i := None];
          slots[i] := None;
          assert slots[..] == next;
        }
      }
    }

    method AllocatePacket() returns (packet: Option<Packet>)
      requires Owned({})
      modifies netx
      ensures netx.sent == old(netx.sent)
      ensures match packet
              case None => Owned({})
              case Some(p) => Owned({p}) && Roomy(p)
      ensures netx.refusals == old(netx.refusals) + if packet.Some? then 0 else 1
    {
      packet := netx.Allocate();
      if packet.Some? && !Roomy(packet.value) {
        netx.Release(packet.value);
        return None;
      }
    }

    method Rearm(slot: nat, packet: Packet)
      requires slot < BD_COUNT && Owned({packet}) && slots[slot] == None
      modifies slots, bds
      ensures Owned({})
      ensures slots[..] == old(slots[..])[slot := Some(packet)]
      ensures bds[..] == old(bds[..])[slot := Descriptor(Aligned(packet.start), BUFFER_SIZE, 0)]
    {
      HeldPut(slots[..], slot, packet);
      ghost var next := slots[..][slot := Some(packet)];
      bds[slot] := Descriptor(Aligned(packet.start), BUFFER_SIZE, 0);
      slots[slot] := Some(packet);
      assert slots[..] == next;
    }

    /** Lend a packet to every descriptor; a reset that does not finish or a failed allocation leaves the
        rest empty. */
    method Initialize(resets: bool) returns (ok: bool)
      requires Idle()
      modifies this, netx, slots, bds
      ensures netx.sent == old(netx.sent) && Owned({})
      ensures ok ==> Streaming() && waiting == [] && consumer == 0 && faults == 0
      ensures ok <==> resets && netx.refusals == old(netx.refusals)
      ensures netx.refusals >= old(netx.refusals)
    {
      if !resets {
        return false;
      }
      for i := 0 to BD_COUNT
        invariant Owned({}) && netx.sent == old(netx.sent) && netx.refusals == old(netx.refusals)
        invariant forall j :: i <= j < BD_COUNT ==> slots[j] == None
        invariant forall j :: 0 <= j < i ==>
                    && slots[j].Some? && Roomy(slots[j].value)
                    && bds[j] == Descriptor(Aligned(slots[j].value.start), BUFFER_SIZE, 0)
      {
        var packet := AllocatePacket();
        if packet.None? {
          return false;
        }
        Rearm(i, packet.value);
      }
      consumer := 0;
      waiting := [];
      faults := 0;
      return true;
    }

    /** The hardware fills the next armed buffer, or fails on it. */
    method HardwareTransfers(payload: seq<byte>, status: u32)
      requires Streaming()
      requires Usable(status) ==> status % R.LENGTH_RANGE == |payload|
      modifies this, bds
      ensures Streaming() && consumer == old(consumer)
      ensures waiting == if Usable(status) && old(|waiting|) < BD_COUNT then old(waiting) + [payload] else old(waiting)
      ensures faults == old(faults) + if R.IsComplete(status) && !Usable(status) && old(|waiting|) < BD_COUNT then 1 else 0
    {
      if |waiting| == BD_COUNT {
        return;
      }
      var i := R.Slot(consumer, |waiting|, BD_COUNT);
      if Usable(status) {
        FillsNext(netx.all, slots[..], bds[..], buffers, consumer, waiting, payload, status);
        buffers := buffers[bds[i].buffer := payload];
        waiting := waiting + [payload];
      } else if R.IsComplete(status) {
        faults := faults + 1;
      }
      ghost var next := bds[..][i := bds[i].(status := status)];
      bds[i] := bds[i].(status := status);
      assert bds[..] == next;
    }

    /** The transfers the hardware makes between two polls. */
    method HardwareRuns() returns (ghost completed: seq<seq<byte>>)
      requires Streaming()
      modifies this, bds
      ensures Streaming() && waiting == old(waiting) + completed && faults >= old(faults)
    {
      var transfers: int :| 0 <= transfers;
      completed := [];
      for n := 0 to transfers
        invariant Streaming() && waiting == old(waiting) + completed && faults >= old(faults)
      {
        var payload: seq<byte>, status: u32 :| Usable(status) ==> status % R.LENGTH_RANGE == |payload|;
        ghost var before := waiting;
        HardwareTransfers(payload, status);
        completed := waiting[|old(waiting)|..];
        assert waiting == old(waiting) + completed;
      }
    }

    /** Take the oldest completed transfer: swap in a fresh packet, then send the old one.  Whatever
        fails, every packet stays accounted for; a failed send gives up the transfer and its packet goes
        back to the pool. */
    method SendCompleted() returns (outcome: Outcome)
      requires Streaming()
      modifies this, netx, slots, bds
      ensures Owned({})
      ensures outcome == NotReady ==> Streaming() && waiting == old(waiting) && netx.sent == old(netx.sent)
      ensures outcome == Success ==>
                && old(waiting) != [] && Streaming() && waiting == old(waiting)[1..]
                && netx.sent == old(netx.sent) + [old(waiting)[0]]
      ensures outcome == Failed ==> netx.sent == old(netx.sent)
      ensures var status := old(bds[consumer].status);
              && (outcome == NotReady <==> And(status, 0x8000_0000) == 0)
              && (outcome == Failed ==>
                    || And(status, 0x7000_0000) != 0 || status % 0x0400_0000 == 0 || status % 0x0400_0000 > 16512
                    || netx.refusals > old(netx.refusals))
      ensures netx.refusals >= old(netx.refusals) && faults == old(faults)
      ensures outcome == Failed && netx.refusals == old(netx.refusals) ==> faults > 0
      ensures outcome == NotReady ==> waiting == []
    {
      var slot := consumer;
      var status := bds[slot].status;
      StatusBits(status);
      hide R.IsComplete, R.IsError, And;
      OldestPending(bds[..], consumer, waiting, faults);
      OldestWaits(bds[..], buffers, consumer, waiting);
      if !R.IsComplete(status) {
        return NotReady;
      }
      if R.IsError(status) {
        return Failed;
      }
      var length := status % R.LENGTH_RANGE;
      if length == 0 || length > BUFFER_SIZE {
        return Failed;
      }
      if slots[slot].None? {
        return Failed;
      }
      outcome := SendOldest(length);
    }

    /** The oldest buffer holds a payload of this length. */
    method SendOldest(length: nat) returns (outcome: Outcome)
      requires Streaming() && waiting != [] && length == |waiting[0]|
      modifies this, netx, slots, bds
      ensures Owned({}) && faults == old(faults) && outcome != NotReady
      ensures outcome == Success ==>
                && Streaming() && waiting == old(waiting)[1..] && netx.refusals == old(netx.refusals)
                && netx.sent == old(netx.sent) + [old(waiting)[0]]
      ensures outcome == Failed ==> netx.sent == old(netx.sent) && netx.refusals > old(netx.refusals)
    {
      hide R.IsComplete, R.IsError;
      var slot := consumer;
      var packet := slots[slot].value;
      OldestWaits(bds[..], buffers, consumer, waiting);
      var payload := buffers[Aligned(packet.start)][..length];
      assert payload == waiting[0];
      var replacement := AllocatePacket();
      if replacement.None? {
        return Failed;
      }
      Rearmed(slots[..], bds[..], buffers, consumer, waiting, replacement.value);
      NotComplete();
      if faults == 0 {
        PendingAdvances(bds[..], consumer, |waiting|, Descriptor(Aligned(replacement.value.start), BUFFER_SIZE, 0));
      }
      Swap(slot, replacement.value);
      consumer := R.Slot(slot, 1, BD_COUNT);
      waiting := waiting[1..];
      var ok := netx.Send(packet, payload);
      if !ok {
        netx.Release(packet);
        return Failed;
      }
      return Success;
    }

    /** Rearm a slot that still holds a packet: the packet passes to the caller. */
    method Swap(slot: nat, replacement: Packet)
      requires slot < BD_COUNT && Owned({replacement}) && slots[slot].Some?
      modifies slots, bds
      ensures Owned({old(slots[slot].value)})
      ensures slots[..] == old(slots[..])[slot := Some(replacement)]
      ensures bds[..] == old(bds[..])[slot := Descriptor(Aligned(replacement.start), BUFFER_SIZE, 0)]
    {
      ghost var was, taken := slots[..], slots[..][slot := None];
      HeldTake(was, slot);
      HeldPut(taken, slot, replacement);
      assert taken[slot := Some(replacement)] == was[slot := Some(replacement)];
      ghost var next := bds[..][slot := Descriptor(Aligned(replacement.start), BUFFER_SIZE, 0)];
      bds[slot] := Descriptor(Aligned(replacement.start), BUFFER_SIZE, 0);
      slots[slot] := Some(replacement);
      assert slots[..] == was[slot := Some(replacement)] && bds[..] == next;
    }

    /** One connection, over any number of polls until the stream fails or the client leaves.  What was sent
        is a prefix of the transfers the hardware completed, in that order; afterwards every slot is empty
        and every packet is back in the pool or with the stack.  If nothing was refused and the hardware
        reported no fault, each poll with a transfer waiting has sent exactly one. */
    method Capture(resets: bool, polls: nat) returns (ghost completed: seq<seq<byte>>, ghost count: nat, ghost arrivals: seq<nat>)
      requires Idle()
      modifies this, netx, slots, bds
      ensures Idle()
      ensures count <= |completed| && netx.sent == old(netx.sent) + completed[..count]
      ensures netx.refusals >= old(netx.refusals)
      ensures resets && netx.refusals == old(netx.refusals) && faults == 0 ==>
                && |arrivals| == polls && count == Polled(arrivals).sent
                && |completed| == count + Polled(arrivals).waiting
    {
      hide Filled, Armed, Distinct, Held, Apart, Pending, Polled;
      completed, count, arrivals := [], 0, [];
      assert Polled([]) == Polls(0, 0) by {
        NoPolls();
      }
      ghost var before, refused := netx.sent, netx.refusals;
      assert before + completed[..0] == before;
      var ok := Initialize(resets);
      if ok {
        for poll := 0 to polls
          invariant Streaming() && netx.refusals >= refused
          invariant count <= |completed| && completed[count..] == waiting
          invariant netx.sent == before + completed[..count]
          invariant |arrivals| == poll && Polled(arrivals) == Polls(count, |waiting|)
        {
          ghost var more := HardwareRuns();
          ghost var all := completed + more;
          AfterArrivals(completed, more, count);
          completed := all;
          OneMorePoll(arrivals, |more|);
          var outcome := SendCompleted();
          if outcome == Failed {
            break;
          }
          arrivals := arrivals + [|more|];
          if outcome == Success {
            OneSent(before, all, count);
            count := count + 1;
          }
        }
      }
      Stop();
    }
  }

  /** Transfers sent and still waiting after some polls, each preceded by a number of arrivals. */
  datatype Polls = Polls(sent: nat, waiting: nat)

  function Polled(arrivals: seq<nat>): Polls {
    if arrivals == [] then Polls(0, 0) else
    var before := Polled(arrivals[..|arrivals| - 1]);
    var waiting := before.waiting + arrivals[|arrivals| - 1];
    if waiting == 0 then Polls(before.sent, 0) else Polls(before.sent + 1, waiting - 1)
  }

  lemma NoPolls()
    ensures Polled([]) == Polls(0, 0)
  {
  }

  lemma AfterArrivals(completed: seq<seq<byte>>, more: seq<seq<byte>>, count: nat)
    requires count <= |completed|
    ensures (completed + more)[..count] == completed[..count] && (completed + more)[count..] == completed[count..] + more
  {
  }

  lemma OneSent(before: seq<seq<byte>>, all: seq<seq<byte>>, count: nat)
    requires count < |all|
    ensures before + all[..count] + [all[count..][0]] == before + all[..count + 1]
    ensures all[count..][1..] == all[count + 1..]
  {
  }

  lemma OneMorePoll(arrivals: seq<nat>, more: nat)
    ensures var (was, now) := (Polled(arrivals), Polled(arrivals + [more]));
            now == if was.waiting + more == 0 then was else Polls(was.sent + 1, was.waiting + more - 1)
  {
    assert (arrivals + [more])[..|arrivals|] == arrivals;
  }
}
