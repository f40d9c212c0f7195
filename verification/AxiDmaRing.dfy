/** The software side of the AXI DMA descriptor ring: buffers handed to the hardware and completions
    taken back, over descriptors in memory that the hardware writes status words into. */
module AxiDmaRing {
  import opened Arith
  import opened Bytes

  /** The low 26 bits of a control or status word. */
  const LENGTH_RANGE := 0x0400_0000

  datatype Descriptor = Descriptor(nextLo: u32, nextHi: u32, bufferLo: u32, bufferHi: u32, control: u32, status: u32)

  datatype Buffer = Buffer(address: u64, capacity: u32)

  datatype Completed = Completed(address: u64, capacity: u32, transferred: u32, descriptorAddress: u64)

  datatype RingError = InvalidCount | UnalignedBase | InvalidCapacity | Full | Hardware(status: u32)

  predicate IsComplete(status: u32) {
    status / 0x8000_0000 == 1
  }

  /** Any of bits 28 to 30. */
  predicate IsError(status: u32) {
    status / 0x1000_0000 % 8 != 0
  }

  /** The status bits by their masks. */
  lemma StatusMasks(status: u32)
    ensures IsComplete(status) <==> And(status, 0x8000_0000) != 0
    ensures IsError(status) <==> And(status, 0x7000_0000) != 0
    ensures And(status, 0x03ff_ffff) == status % LENGTH_RANGE
  {
    Powers();
    AndTop(status, 8);
    AndTop(status, 7);
    AndEight(status / 0x1000_0000);
    AndLow(status / 0x1000_0000, 3);
    AndLow(status, 26);
    hide And, Pow2;
  }

  function Low(x: u64): u32 {
    x % 0x1_0000_0000
  }

  function High(x: u64): u32 {
    x / 0x1_0000_0000
  }

  function Whole(lo: u32, hi: u32): u64 {
    var l: int, h: int := lo, hi;
    l + 0x1_0000_0000 * h
  }

  // ---- Masks and powers of two ----

  predicate IsPowerOfTwo(n: nat) {
    n == 1 || (n > 0 && n % 2 == 0 && IsPowerOfTwo(n / 2))
  }

  /** Masking with a power of two less one is the remainder. */
  lemma {:induction false} AndMask(x: nat, n: nat)
    requires IsPowerOfTwo(n)
    ensures And(x, n - 1) == Wrap(x, n)
  {
    if n == 1 {
      WrapOne(x);
    } else {
      assert (n - 1) % 2 == 1 && (n - 1) / 2 == n / 2 - 1;
      AndMask(x / 2, n / 2);
      WrapHalf(x, n / 2);
    }
  }

  lemma {:induction false} WrapOne(x: nat)
    ensures Wrap(x, 1) == 0
  {
    if x > 0 {
      WrapOne(x - 1);
    }
  }

  /** For the counts a ring can have, masking the next index wraps it to zero at the end. */
  lemma NextIndex(i: nat, n: nat)
    requires IsPowerOfTwo(n) && i < n
    ensures And(i + 1, n - 1) == Slot(i, 1, n)
  {
    AndMask(i + 1, n);
    if i + 1 == n {
      assert Wrap(i + 1, n) == Wrap(0, n);
    }
  }

  /** `k` descriptors after `i`, around the ring. */
  function Slot(i: nat, k: nat, n: nat): (s: nat)
    requires i < n && k <= n
    ensures s < n
  {
    if i + k < n then i + k else i + k - n
  }

  // ---- The next pointers ----

  predicate Linked(d: seq<Descriptor>, base: nat) {
    && base + 64 * |d| <= 0x1_0000_0000_0000_0000
    && forall i {:trigger d[i]} :: 0 <= i < |d| ==> Whole(d[i].nextLo, d[i].nextHi) == base + 64 * Slot(i, 1, |d|)
  }

  /** The descriptor the hardware comes to after `k` next pointers. */
  function Hop(d: seq<Descriptor>, base: nat, i: nat, k: nat): (j: nat)
    requires i < |d| && Linked(d, base)
    ensures j < |d|
  {
    if k == 0 then i else
    var at := Hop(d, base, i, k - 1);
    (Whole(d[at].nextLo, d[at].nextHi) - base) / 64
  }

  lemma {:induction false} HopIsSlot(d: seq<Descriptor>, base: nat, i: nat, k: nat)
    requires i < |d| && k <= |d| && Linked(d, base)
    ensures Hop(d, base, i, k) == Slot(i, k, |d|)
  {
    if k > 0 {
      HopIsSlot(d, base, i, k - 1);
    }
  }

  /** The next pointers are one cycle through all the descriptors: from any of them, every descriptor
      is reached by exactly one number of hops below the count, and the count of hops leads back. */
  lemma OneCycle(d: seq<Descriptor>, base: nat, i: nat, target: nat) returns (k: nat)
    requires i < |d| && target < |d| && Linked(d, base)
    ensures k < |d| && Hop(d, base, i, k) == target
    ensures forall j :: 0 <= j < |d| && Hop(d, base, i, j) == target ==> j == k
    ensures Hop(d, base, i, |d|) == i
  {
    k := if target >= i then target - i else target + |d| - i;
    HopIsSlot(d, base, i, k);
    HopIsSlot(d, base, i, |d|);
    forall j | 0 <= j < |d| && Hop(d, base, i, j) == target ensures j == k {
      HopIsSlot(d, base, i, j);
    }
  }

  // ---- The ring ----

  function Carries(d: Descriptor): Buffer {
    Buffer(Whole(d.bufferLo, d.bufferHi), d.control)
  }

  /** The descriptors from `consumer` up to `producer` carry the buffers accepted and not yet given
      back, oldest first; at least one descriptor is always free. */
  ghost predicate Queued(d: seq<Descriptor>, consumer: nat, producer: nat, buffers: seq<Buffer>) {
    && consumer < |d| && |buffers| < |d| && producer == Slot(consumer, |buffers|, |d|)
    && forall k :: 0 <= k < |buffers| ==> Carries(d[Slot(consumer, k, |d|)]) == buffers[k]
  }

  lemma QueueGrows(d: seq<Descriptor>, consumer: nat, producer: nat, buffers: seq<Buffer>, filled: Descriptor)
    requires Queued(d, consumer, producer, buffers)
    ensures Slot(producer, 1, |d|) == consumer <==> |buffers| == |d| - 1
    ensures |buffers| < |d| - 1 ==>
              && Queued(d[producer := filled], consumer, Slot(producer, 1, |d|), buffers + [Carries(filled)])
              && forall k :: 0 <= k < |buffers| ==> Slot(consumer, k, |d|) != producer
  {
  }

  lemma QueueShrinks(d: seq<Descriptor>, consumer: nat, producer: nat, buffers: seq<Buffer>, emptied: Descriptor)
    requires Queued(d, consumer, producer, buffers)
    ensures consumer == producer <==> buffers == []
    ensures buffers != [] ==>
              && Carries(d[consumer]) == buffers[0]
              && Queued(d[consumer := emptied], Slot(consumer, 1, |d|), producer, buffers[1..])
              && forall k :: 1 <= k < |buffers| ==> Slot(consumer, k, |d|) != consumer
  {
    if buffers != [] {
      var next := Slot(consumer, 1, |d|);
      forall k | 0 <= k < |buffers| - 1
        ensures Carries(d[consumer := emptied][Slot(next, k, |d|)]) == buffers[1..][k]
      {
        assert Slot(next, k, |d|) == Slot(consumer, k + 1, |d|);
      }
    }
  }

  lemma LinkedStill(d: seq<Descriptor>, base: nat, i: nat, n: Descriptor)
    requires i < |d| && Linked(d, base) && n.nextLo == d[i].nextLo && n.nextHi == d[i].nextHi
    ensures Linked(d[i := n], base)
  {
  }

  /** The completions given match the buffers accepted, in order. */
  ghost predicate GivenBack(enqueued: seq<Buffer>, completed: seq<Completed>) {
    && |completed| <= |enqueued|
    && forall k :: 0 <= k < |completed| ==> Buffer(completed[k].address, completed[k].capacity) == enqueued[k]
  }

  lemma GivesBack(enqueued: seq<Buffer>, completed: seq<Completed>, more: Completed)
    requires GivenBack(enqueued, completed) && |completed| < |enqueued|
    requires Buffer(more.address, more.capacity) == enqueued[|completed|..][0]
    ensures GivenBack(enqueued, completed + [more])
    ensures enqueued[|completed + [more]|..] == enqueued[|completed|..][1..]
  {
  }

  lemma AcceptsMore(enqueued: seq<Buffer>, completed: seq<Completed>, more: Buffer)
    requires GivenBack(enqueued, completed)
    ensures GivenBack(enqueued + [more], completed)
    ensures (enqueued + [more])[|completed|..] == enqueued[|completed|..] + [more]
  {
  }

  class Ring {
    const descriptors: array<Descriptor>
    const base: u64
    var producer: nat
    var consumer: nat
    /** Every buffer accepted, and every completion given, since the ring was made. */
    ghost var enqueued: seq<Buffer>
    ghost var completed: seq<Completed>

    ghost predicate Valid()
      reads this, descriptors
    {
      && descriptors.Length >= 2 && IsPowerOfTwo(descriptors.Length)
      && base % 64 == 0 && Linked(descriptors[..], base)
      && GivenBack(enqueued, completed)
      && Queued(descriptors[..], consumer, producer, Outstanding())
      && forall b <- enqueued :: 0 < b.capacity < LENGTH_RANGE
    }

    /** The buffers the hardware has, oldest first. */
    ghost function Outstanding(): seq<Buffer>
      requires |completed| <= |enqueued|
      reads this
    {
      enqueued[|completed|..]
    }

    constructor (descriptors: array<Descriptor>, base: u64)
      requires descriptors.Length >= 2 && IsPowerOfTwo(descriptors.Length) && base % 64 == 0
      requires Linked(descriptors[..], base)
      ensures this.descriptors == descriptors && this.base == base && Valid() && enqueued == [] && completed == []
    {
      this.descriptors, this.base, producer, consumer := descriptors, base, 0, 0;
      enqueued, completed := [], [];
    }

    /** The next descriptor to complete. */
    function CurrentDescriptorAddress(): (address: nat)
      requires Valid()
      reads this, descriptors
      ensures base <= address && (address - base) / 64 == consumer
    {
      base + consumer * 64
    }

    /** Hand a buffer to the hardware.  It is refused exactly when its capacity is unusable or one
        descriptor short of all are outstanding; no outstanding descriptor is touched. */
    method Enqueue(address: u64, capacity: u32) returns (r: Result<nat, RingError>)
      requires Valid()
      modifies this, descriptors
      ensures Valid() && completed == old(completed) && consumer == old(consumer)
      ensures r == if capacity == 0 || capacity >= LENGTH_RANGE then Err(InvalidCapacity)
                   else if |old(Outstanding())| == descriptors.Length - 1 then Err(Full)
                   else Ok(base + 64 * Slot(consumer, |old(Outstanding())|, descriptors.Length))
      ensures enqueued == if r.Ok? then old(enqueued) + [Buffer(address, capacity)] else old(enqueued)
      ensures r.Err? ==> descriptors[..] == old(descriptors[..])
      ensures forall k :: 0 <= k < |old(Outstanding())| ==>
                var i := Slot(consumer, k, descriptors.Length);
                descriptors[i] == old(descriptors[i])
    {
      if capacity == 0 || capacity >= LENGTH_RANGE {
        return Err(InvalidCapacity);
      }
      NextIndex(producer, descriptors.Length);
      ghost var filled := descriptors[producer].(bufferLo := Low(address), bufferHi := High(address),
                                                 control := capacity, status := 0);
      QueueGrows(descriptors[..], consumer, producer, Outstanding(), filled);
      LinkedStill(descriptors[..], base, producer, filled);
      hide Queued, Linked, GivenBack, And, IsPowerOfTwo;
      var next := And(producer + 1, descriptors.Length - 1);
      if next == consumer {
        return Err(Full);
      }
      var index := producer;
      descriptors[index] := descriptors[index].(bufferLo := Low(address), bufferHi := High(address),
                                                control := capacity, status := 0);
      assert descriptors[..] == old(descriptors[..])[index := filled];
      AcceptsMore(enqueued, completed, Buffer(address, capacity));
      producer := next;
      enqueued := enqueued + [Buffer(address, capacity)];
      return Ok(base + index * 64);
    }

    /** Take back the oldest buffer once the hardware has marked it complete without error. */
    method PollCompleted() returns (r: Result<Option<Completed>, RingError>)
      requires Valid()
      modifies this, descriptors
      ensures Valid() && enqueued == old(enqueued)
      ensures var status := old(descriptors[consumer].status);
              if |old(Outstanding())| == 0 || !IsComplete(status) then r == Ok(None)
              else if IsError(status) then r == Err(Hardware(status))
              else r == Ok(Some(Completed(old(Outstanding())[0].address, old(Outstanding())[0].capacity,
                                          status % LENGTH_RANGE, old(CurrentDescriptorAddress()))))
      ensures completed == if r.Ok? && r.value.Some? then old(completed) + [r.value.value] else old(completed)
      ensures r.Err? || r.value.None? ==> descriptors[..] == old(descriptors[..]) && consumer == old(consumer)
      ensures forall k :: 0 <= k < |Outstanding()| ==>
                var i := Slot(consumer, k, descriptors.Length);
                descriptors[i] == old(descriptors[i])
    {
      ghost var emptied := descriptors[consumer].(control := 0, status := 0);
      assert consumer < descriptors.Length;
      hide Queued, Linked, And, IsPowerOfTwo, GivenBack;
      QueueShrinks(descriptors[..], consumer, producer, Outstanding(), emptied);
      LinkedStill(descriptors[..], base, consumer, emptied);
      if consumer == producer {
        return Ok(None);
      }
      var index := consumer;
      assert CurrentDescriptorAddress() == base + index * 64;
      hide CurrentDescriptorAddress;
      var d := descriptors[index];
      if !IsComplete(d.status) {
        return Ok(None);
      }
      if IsError(d.status) {
        return Err(Hardware(d.status));
      }
      var done := Completed(Whole(d.bufferLo, d.bufferHi), d.control % LENGTH_RANGE, d.status % LENGTH_RANGE,
                            base + index * 64);
      NextIndex(consumer, descriptors.Length);
      assert Outstanding()[0] in enqueued;
      GivesBack(enqueued, completed, done);
      descriptors[index] := d.(control := 0, status := 0);
      assert descriptors[..] == old(descriptors[..])[index := emptied];
      consumer := And(consumer + 1, descriptors.Length - 1);
      completed := completed + [done];
      return Ok(Some(done));
    }

    /** The hardware writes a status word, any at any time. */
    method HardwareStatus(index: nat, status: u32)
      requires Valid() && index < descriptors.Length
      modifies descriptors
      ensures Valid()
      ensures forall i :: 0 <= i < descriptors.Length ==>
                descriptors[i] == if i == index then old(descriptors[i]).(status := status) else old(descriptors[i])
    {
      descriptors[index] := descriptors[index].(status := status);
    }
  }

  /** Check the descriptor memory, clear it and link it up. */
  method New(descriptors: array<Descriptor>, base: u64) returns (r: Result<Ring, RingError>)
    requires base + 64 * descriptors.Length <= 0x1_0000_0000_0000_0000
    modifies descriptors
    ensures match r
            case Err(e) =>
              && descriptors[..] == old(descriptors[..])
              && if descriptors.Length < 2 || !IsPowerOfTwo(descriptors.Length) then e == InvalidCount
                 else e == UnalignedBase && base % 64 != 0
            case Ok(ring) =>
              && fresh(ring) && ring.Valid() && ring.descriptors == descriptors && ring.base == base
              && ring.enqueued == [] && ring.completed == []
  {
    if descriptors.Length < 2 || !IsPowerOfTwo(descriptors.Length) {
      return Err(InvalidCount);
    }
    if base % 64 != 0 {
      return Err(UnalignedBase);
    }
    var count := descriptors.Length;
    for index := 0 to count
      invariant forall i {:trigger descriptors[i]} :: 0 <= i < index ==>
                  Whole(descriptors[i].nextLo, descriptors[i].nextHi) == base + 64 * Slot(i, 1, count)
    {
      NextIndex(index, count);
      var next := base + And(index + 1, count - 1) * 64;
      descriptors[index] := Descriptor(Low(next), High(next), 0, 0, 0, 0);
    }
    var ring := new Ring(descriptors, base);
    return Ok(ring);
  }
}
