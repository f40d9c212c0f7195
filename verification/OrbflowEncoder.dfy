/** The clocked frame encoder: a loader fills one of two banks with a packet's raw bytes and group
    lengths while an emitter sends the other bank's packet as an Orbflow frame.  A packet longer
    than `max` is swallowed whole.

    Both halves are stepped by one clock from the state before it; every output stall and every
    gap in the input is allowed. */
module OrbflowEncoder {
  import opened Bytes
  import opened Orbflow
  import opened PacketStream
  import opened CobsGroups
  import Cobs

  datatype LoadPhase = Accept | FirstData | Checksum | Finalize
  datatype EmitPhase = Idle | Code | Data | Delimiter

  datatype Loader = Loader(phase: LoadPhase, bank: nat, payloadCount: nat, rawLength: nat,
                           groupIndex: nat, groupLength: byte, checksum: byte,
                           pendingData: byte, pendingLast: bool, dropping: bool,
                           overrun: bool, received: nat, dropped: nat)

  datatype Emitter = Emitter(phase: EmitPhase, bank: nat, nextBank: nat,
                             rawIndex: nat, groupIndex: nat, remaining: byte)

  datatype Bank = Bank(packet: seq<byte>, groups: seq<byte>, groupCount: nat, full: bool)

  datatype State = State(load: Loader, emit: Emitter, banks: seq<Bank>)

  datatype Input = Input(channel: byte, data: byte, valid: bool, last: bool, ready: bool)

  predicate Shape(s: State) {
    |s.banks| == 2 && s.load.bank < 2 && s.emit.bank < 2 && s.emit.nextBank < 2
  }

  function InputReady(s: State): bool
    requires Shape(s)
  {
    s.load.phase == Accept && !s.banks[s.load.bank].full
  }

  function OutputValid(e: Emitter): bool {
    e.phase != Idle
  }

  function OutputData(e: Emitter, b: Bank): byte {
    match e.phase
    case Code => CodeOf(Fetch(b.groups, e.groupIndex))
    case Data => Fetch(b.packet, e.rawIndex)
    case _ => 0
  }

  function Negate(x: byte): byte {
    if x == 0 then 0 else 256 - x
  }

  /** Eight-bit addition and subtraction. */
  function Add8(x: byte, y: byte): byte {
    var a: int, b: int := x, y;
    (a + b) % 256
  }

  function Sub8(x: byte, y: byte): byte {
    var a: int, b: int := x, y;
    (a - b) % 256
  }

  /** The raw byte that joins the packet on this clock. */
  function Appended(l: Loader, take: bool, i: Input, max: nat): Option<byte> {
    match l.phase
    case Accept =>
      if !take then None
      else if l.payloadCount == 0 then Some(i.channel)
      else if !l.dropping && l.payloadCount < max then Some(i.data)
      else None
    case FirstData => Some(l.pendingData)
    case Checksum => Some(l.checksum)
    case Finalize => None
  }

  /** Storing a raw byte closes a group at each zero and after 254 other bytes. */
  function StoreRaw(l: Loader, b: Bank, value: byte): (Loader, Bank) {
    var b' := b.(packet := Store(b.packet, l.rawLength, value));
    var l' := l.(rawLength := l.rawLength + 1);
    if value == 0 then
      (l'.(groupIndex := l.groupIndex + 1, groupLength := 0),
       b'.(groups := Store(b.groups, l.groupIndex, l.groupLength)))
    else if l.groupLength == 253 then
      (l'.(groupIndex := l.groupIndex + 1, groupLength := 0),
       b'.(groups := Store(b.groups, l.groupIndex, 254)))
    else
      (l'.(groupLength := Add8(l.groupLength, 1)), b')
  }

  function Cleared(l: Loader): Loader {
    l.(payloadCount := 0, rawLength := 0, groupIndex := 0, groupLength := 0, checksum := 0)
  }

  /** An accepted byte: the first of a packet, one to drop, one to keep, or the one too many. */
  function Accepted(l: Loader, l': Loader, i: Input, max: nat): Loader {
    var m := l'.(received := l.received + 1);
    if l.payloadCount == 0 then
      m.(pendingData := i.data, pendingLast := i.last, payloadCount := 1, phase := FirstData,
         checksum := Sub8(Negate(i.channel), i.data))
    else if l.dropping then
      var d := m.(dropped := l.dropped + 1);
      if i.last then Cleared(d).(dropping := false) else d
    else if l.payloadCount < max then
      m.(checksum := Sub8(l.checksum, i.data), payloadCount := l.payloadCount + 1,
         phase := if i.last then Checksum else Accept)
    else
      var d := m.(overrun := true, dropped := l.dropped + l.payloadCount + 1);
      if i.last then Cleared(d).(dropping := false) else d.(dropping := true)
  }

  function LoadStep(l: Loader, b: Bank, i: Input, max: nat): (Loader, Bank) {
    var take := l.phase == Accept && i.valid && !b.full;
    var append := Appended(l, take, i, max);
    var (l', b') := if append.Some? then StoreRaw(l, b, append.value) else (l, b);
    match l.phase
    case Accept => (if take then Accepted(l, l', i, max) else l', b')
    case FirstData => (l'.(phase := if l.pendingLast then Checksum else Accept), b')
    case Checksum => (l'.(phase := Finalize), b')
    case Finalize =>
      (Cleared(l).(phase := Accept, bank := if l.bank == 0 then 1 else 0),
       b.(groups := Store(b.groups, l.groupIndex, l.groupLength),
          groupCount := l.groupIndex + 1, full := true))
  }

  /** `b` is the bank being sent, `nextFull` says whether the next one holds a packet. */
  function EmitStep(e: Emitter, b: Bank, nextFull: bool, ready: bool): Emitter {
    var length := Fetch(b.groups, e.groupIndex);
    var lastGroup := e.groupIndex + 1 == b.groupCount;
    match e.phase
    case Idle =>
      if nextFull then e.(bank := e.nextBank, rawIndex := 0, groupIndex := 0, phase := Code) else e
    case Code =>
      if !ready then e
      else if length != 0 then e.(remaining := length, phase := Data)
      else if lastGroup then e.(phase := Delimiter)
      else e.(rawIndex := e.rawIndex + 1, groupIndex := e.groupIndex + 1)
    case Data =>
      if !ready then e
      else if e.remaining == 1 then
        if lastGroup then e.(phase := Delimiter)
        else e.(rawIndex := e.rawIndex + if length == 254 then 1 else 2,
                groupIndex := e.groupIndex + 1, phase := Code)
      else e.(rawIndex := e.rawIndex + 1, remaining := Sub8(e.remaining, 1))
    case Delimiter =>
      if ready then e.(nextBank := if e.bank == 0 then 1 else 0, phase := Idle) else e
  }

  function Step(s: State, i: Input, max: nat): (n: State)
    requires Shape(s)
    ensures Shape(n)
  {
    var (l, b) := LoadStep(s.load, s.banks[s.load.bank], i, max);
    var e := EmitStep(s.emit, s.banks[s.emit.bank], s.banks[s.emit.nextBank].full, i.ready);
    var banks := s.banks[s.load.bank := b];
    var freed := s.emit.phase == Delimiter && i.ready;
    State(l, e, if freed then banks[s.emit.bank := banks[s.emit.bank].(full := false)] else banks)
  }

  /** A run, with the beats taken in and the bytes sent. */
  datatype Trace = Trace(state: State, beats: seq<Beat>, out: seq<byte>)

  function Advance(t: Trace, i: Input, max: nat): (n: Trace)
    requires Shape(t.state)
    ensures Shape(n.state)
  {
    Trace(Step(t.state, i, max),
          if i.valid && InputReady(t.state) then t.beats + [Beat(i.channel, i.data, i.last)] else t.beats,
          if i.ready && OutputValid(t.state.emit)
          then t.out + [OutputData(t.state.emit, t.state.banks[t.state.emit.bank])] else t.out)
  }

  function Reset(banks: seq<Bank>): State
    requires |banks| == 2
  {
    State(Loader(Accept, 0, 0, 0, 0, 0, 0, 0, false, false, false, 0, 0), Emitter(Idle, 0, 0, 0, 0, 0),
          [banks[0].(full := false, groupCount := 0), banks[1].(full := false, groupCount := 0)])
  }

  predicate Memories(b: Bank, max: nat) {
    |b.packet| == max + 2 && |b.groups| == max + 3
  }

  // ---- The loader ----

  /** The bank and the loader's registers hold exactly the raw bytes `raw` and their groups. */
  ghost predicate Loaded(l: Loader, b: Bank, raw: seq<byte>, max: nat) {
    var g := GroupsOf(raw);
    && Memories(b, max)
    && l.rawLength == |raw| <= max + 2 && b.packet[..|raw|] == raw
    && l.groupIndex == |g.closed| && b.groups[..|g.closed|] == g.closed
    && l.groupLength == g.open
  }

  lemma StoreKeepsLoaded(l: Loader, b: Bank, raw: seq<byte>, value: byte, max: nat)
    requires Loaded(l, b, raw, max) && |raw| < max + 2
    ensures var (l', b') := StoreRaw(l, b, value); Loaded(l', b', raw + [value], max)
  {
    var g := GroupsOf(raw);
    var (l', b') := StoreRaw(l, b, value);
    assert GroupsOf(raw + [value]) == Grow(g, value) by {
      assert (raw + [value])[..|raw|] == raw;
    }
    assert b'.packet[..|raw| + 1] == raw + [value];
    if value == 0 {
      assert b'.groups[..|g.closed| + 1] == g.closed + [g.open];
    } else if g.open == 253 {
      assert b'.groups[..|g.closed| + 1] == g.closed + [254];
    }
  }

  /** The packet that a closing loader is finishing, and how the loader's phase says so. */
  ghost predicate Closing(l: Loader) {
    l.phase == Checksum || l.phase == Finalize || (l.phase == FirstData && l.pendingLast)
  }

  function Opened(p: Packet): seq<byte> {
    [p.channel] + p.payload
  }

  function SumNeg(p: Packet): byte {
    Negate(Sum(Opened(p)))
  }

  /** What the loader holds: `open` is the packet still arriving, `closed` the one being finished. */
  ghost predicate LoadInv(l: Loader, b: Bank, open: Option<Packet>, closed: Option<Packet>, max: nat) {
    && Memories(b, max)
    && closed.Some? == Closing(l)
    && (l.phase != Accept ==> !l.dropping)
    && match l.phase
       case Accept =>
         if l.payloadCount == 0 then
           open.None? && Loaded(l, b, [], max) && !l.dropping
         else if l.dropping then
           open.Some? && |open.value.payload| > max == l.payloadCount && !b.full
         else
           && open.Some? && |open.value.payload| == l.payloadCount <= max && !b.full
           && Loaded(l, b, Opened(open.value), max) && l.checksum == SumNeg(open.value)
       case FirstData =>
         && !b.full && (l.pendingLast ==> open.None?) && (!l.pendingLast ==> open.Some?)
         && var p := if l.pendingLast then closed.value else open.value;
            && p.payload == [l.pendingData] && l.payloadCount == 1
            && Loaded(l, b, [p.channel], max) && l.checksum == SumNeg(p)
       case Checksum =>
         && !b.full && open.None? && |closed.value.payload| <= max
         && Loaded(l, b, Opened(closed.value), max) && l.checksum == SumNeg(closed.value)
       case Finalize =>
         !b.full && open.None? && |closed.value.payload| <= max && Loaded(l, b, Raw(closed.value), max)
  }

  lemma SumSnoc(s: seq<byte>, b: byte)
    ensures Sum(s + [b]) == Add8(Sum(s), b)
    ensures Negate(Add8(Sum(s), b)) == Sub8(Negate(Sum(s)), b)
  {
    assert (s + [b])[..|s|] == s;
  }

  lemma SumOne(c: byte)
    ensures Sum([c]) == c
  {
    assert [c][..0] == [];
  }

  /** A finished bank: the emitter will find exactly this packet in it. */
  ghost predicate Stored(b: Bank, p: Packet, max: nat) {
    var (raw, gs) := (Raw(p), AllGroups(Raw(p)));
    && b.full && Memories(b, max)
    && |raw| <= max + 2 && b.packet[..|raw|] == raw
    && b.groupCount == |gs| && b.groups[..|gs|] == gs
  }

  /** What the accepted beat makes of the open packet. */
  function OpenAfter(open: Option<Packet>, beat: Beat): Packet {
    match open
    case None => Packet(beat.channel, [beat.data])
    case Some(o) => Packet(o.channel, o.payload + [beat.data])
  }

  /** One clock of the loader while it accepts. */
  lemma LoadAccepts(l: Loader, b: Bank, open: Option<Packet>, i: Input, max: nat)
    requires max >= 1 && LoadInv(l, b, open, None, max) && l.phase == Accept && i.valid && !b.full
    ensures var (l', b') := LoadStep(l, b, i, max);
            var p := OpenAfter(open, Beat(i.channel, i.data, i.last));
            LoadInv(l', b', if i.last then None else Some(p),
                    if i.last && |p.payload| <= max then Some(p) else None, max)
    ensures var (l', b') := LoadStep(l, b, i, max); l'.bank == l.bank && !b'.full
  {
    hide GroupsOf, Sum;
    if l.payloadCount == 0 {
      StoreKeepsLoaded(l, b, [], i.channel, max);
      assert [] + [i.channel] == [i.channel];
      SumOne(i.channel);
      SumSnoc([i.channel], i.data);
    } else if !l.dropping && l.payloadCount < max {
      var o := open.value;
      StoreKeepsLoaded(l, b, Opened(o), i.data, max);
      SumSnoc(Opened(o), i.data);
      assert Opened(o) + [i.data] == Opened(OpenAfter(open, Beat(i.channel, i.data, i.last)));
    } else {
      ClearedIsEmpty(l, b, max);
    }
  }

  lemma ClearedIsEmpty(l: Loader, b: Bank, max: nat)
    requires Memories(b, max)
    ensures Loaded(Cleared(l), b, [], max)
  {
  }

  /** One clock of the loader in its other phases. */
  lemma LoadFinishes(l: Loader, b: Bank, open: Option<Packet>, closed: Option<Packet>, i: Input, max: nat)
    requires max >= 1 && LoadInv(l, b, open, closed, max) && l.phase != Accept
    ensures var (l', b') := LoadStep(l, b, i, max);
            if l.phase == Finalize
            then Stored(b', closed.value, max) && l'.bank != l.bank && l'.bank < 2
                 && forall other :: Memories(other, max) ==> LoadInv(l', other, None, None, max)
            else LoadInv(l', b', open, closed, max) && l'.bank == l.bank && !b'.full
  {
    hide GroupsOf, Sum;
    match l.phase
    case FirstData =>
      var p := if l.pendingLast then closed.value else open.value;
      StoreKeepsLoaded(l, b, [p.channel], l.pendingData, max);
      assert [p.channel] + [l.pendingData] == Opened(p);
    case Checksum =>
      StoreKeepsLoaded(l, b, Opened(closed.value), l.checksum, max);
      assert Raw(closed.value) == Opened(closed.value) + [l.checksum];
    case Finalize =>
      var (l', b') := LoadStep(l, b, i, max);
      var g := GroupsOf(Raw(closed.value));
      assert b'.groups[..|g.closed| + 1] == g.closed + [g.open];
      forall other | Memories(other, max) ensures LoadInv(l', other, None, None, max) {
        ClearedIsEmpty(l, other, max);
      }
  }

  /** What the loader's clock does to the packet arriving and the packet being finished. */
  function OpenNext(l: Loader, b: Bank, open: Option<Packet>, i: Input): Option<Packet> {
    if l.phase == Accept && i.valid && !b.full
    then if i.last then None else Some(OpenAfter(open, Beat(i.channel, i.data, i.last)))
    else open
  }

  function ClosedNext(l: Loader, b: Bank, open: Option<Packet>, closed: Option<Packet>, i: Input, max: nat): Option<Packet> {
    if l.phase == Accept && i.valid && !b.full then
      var p := OpenAfter(open, Beat(i.channel, i.data, i.last));
      if i.last && |p.payload| <= max then Some(p) else None
    else if l.phase == Finalize then None
    else closed
  }

  lemma LoadKeeps(l: Loader, b: Bank, open: Option<Packet>, closed: Option<Packet>, i: Input, max: nat)
    requires max >= 1 && l.bank < 2 && LoadInv(l, b, open, closed, max)
    ensures var ((l', b'), open', closed') :=
              (LoadStep(l, b, i, max), OpenNext(l, b, open, i), ClosedNext(l, b, open, closed, i, max));
            && Memories(b', max) && Closing(l') == closed'.Some?
            && (if l.phase == Finalize
                then closed.Some? && !b.full && l'.bank == 1 - l.bank && Stored(b', closed.value, max)
                     && forall other :: Memories(other, max) ==> LoadInv(l', other, open', None, max)
                else l'.bank == l.bank && b'.full == b.full && (b.full ==> b' == b)
                     && LoadInv(l', b', open', closed', max))
  {
    if l.phase != Accept {
      LoadFinishes(l, b, open, closed, i, max);
    } else if i.valid && !b.full {
      LoadAccepts(l, b, open, i, max);
    }
  }

  // ---- The emitter ----

  /** How much of the frame of `p` has followed `base` onto the wire. */
  ghost predicate EmitInv(e: Emitter, p: Packet, base: seq<byte>, out: seq<byte>) {
    var (raw, gs, g) := (Raw(p), AllGroups(Raw(p)), e.groupIndex);
    match e.phase
    case Idle => out == base
    case Code =>
      && g < |gs| && Fits(gs[..g], raw)
      && e.rawIndex == Offset(gs[..g]) && out == base + Render(gs[..g], raw)
    case Data =>
      && g < |gs| && Fits(gs[..g], raw)
      && var off := Offset(gs[..g]);
         && 1 <= e.remaining <= gs[g] && off + gs[g] <= |raw|
         && e.rawIndex == off + gs[g] - e.remaining
         && out == base + Render(gs[..g], raw) + [CodeOf(gs[g])] + raw[off..e.rawIndex]
    case Delimiter => out == base + Cobs.Encode(raw)
  }

  /** The group the emitter is on, and what sending the whole of it gives. */
  lemma GroupAt(p: Packet, g: nat)
    requires g < |AllGroups(Raw(p))|
    ensures var (raw, gs) := (Raw(p), AllGroups(Raw(p)));
            && Fits(gs[..g], raw) && Offset(gs[..g]) + gs[g] <= |raw| && gs[g] <= 254
            && Fits(gs[..g + 1], raw)
            && Offset(gs[..g + 1]) == Offset(gs[..g]) + gs[g] + (if gs[g] == 254 then 0 else 1)
            && Render(gs[..g + 1], raw)
               == Render(gs[..g], raw) + [CodeOf(gs[g])] + raw[Offset(gs[..g])..Offset(gs[..g]) + gs[g]]
            && Render(gs[..g + 1], raw) <= Cobs.Encode(raw)
            && (g + 1 == |gs| ==> Render(gs[..g + 1], raw) == Cobs.Encode(raw))
  {
    hide Fits, Offset, Render, GroupsOf, Cobs.Encode;
    var (raw, gs) := (Raw(p), AllGroups(Raw(p)));
    GroupsEncode(raw);
    FitsPrefix(gs, g, raw);
    FitsPrefix(gs, g + 1, raw);
    assert gs[..g + 1] == gs[..g] + [gs[g]];
    RenderSnoc(gs[..g], gs[g], raw);
    RenderIsPrefix(gs, g + 1, raw);
    assert gs[g] in gs;
    assert g + 1 == |gs| ==> gs[..g + 1] == gs;
  }

  lemma EmitCode(e: Emitter, b: Bank, p: Packet, base: seq<byte>, out: seq<byte>, full: bool, max: nat)
    requires Stored(b, p, max) && EmitInv(e, p, base, out) && e.phase == Code
    ensures var e' := EmitStep(e, b, full, true);
            EmitInv(e', p, base, out + [OutputData(e, b)])
            && e'.phase != Idle && e'.bank == e.bank && e'.nextBank == e.nextBank
  {
    hide Fits, Offset, Render, GroupsOf, Cobs.Encode, Raw;
    var (raw, gs, g) := (Raw(p), AllGroups(Raw(p)), e.groupIndex);
    GroupAt(p, g);
    assert b.groups[g] == gs[g] by { assert b.groups[..|gs|][g] == gs[g]; }
    var off := Offset(gs[..g]);
    assert raw[off..off] == [];
    assert OutputData(e, b) == CodeOf(gs[g]);
  }

  lemma SnocSlice(head: seq<byte>, raw: seq<byte>, from: nat, to: nat)
    requires from <= to < |raw|
    ensures head + raw[from..to] + [raw[to]] == head + raw[from..to + 1]
  {
    assert raw[from..to] + [raw[to]] == raw[from..to + 1];
  }

  lemma EmitData(e: Emitter, b: Bank, p: Packet, base: seq<byte>, out: seq<byte>, full: bool, max: nat)
    requires Stored(b, p, max) && EmitInv(e, p, base, out) && e.phase == Data
    ensures var e' := EmitStep(e, b, full, true);
            EmitInv(e', p, base, out + [OutputData(e, b)])
            && e'.phase != Idle && e'.bank == e.bank && e'.nextBank == e.nextBank
  {
    hide Fits, Offset, Render, GroupsOf, Cobs.Encode, Raw;
    var (raw, gs, g) := (Raw(p), AllGroups(Raw(p)), e.groupIndex);
    GroupAt(p, g);
    assert b.groups[g] == gs[g] by { assert b.groups[..|gs|][g] == gs[g]; }
    assert b.packet[e.rawIndex] == raw[e.rawIndex] by { assert b.packet[..|raw|][e.rawIndex] == raw[e.rawIndex]; }
    var off, r := Offset(gs[..g]), e.rawIndex;
    assert OutputData(e, b) == raw[r];
    var head := base + Render(gs[..g], raw) + [CodeOf(gs[g])];
    SnocSlice(head, raw, off, r);
    if e.remaining == 1 {
      assert head + raw[off..off + gs[g]] == base + Render(gs[..g + 1], raw);
    }
  }

  /** One clock of the emitter: the byte on the wire is the next byte of the frame. */
  lemma EmitSends(e: Emitter, b: Bank, p: Packet, base: seq<byte>, out: seq<byte>, ready: bool, full: bool, max: nat)
    requires Stored(b, p, max) && EmitInv(e, p, base, out) && e.phase != Idle && e.bank < 2
    ensures var e' := EmitStep(e, b, full, ready);
            var out' := if ready then out + [OutputData(e, b)] else out;
            if ready && e.phase == Delimiter
            then e'.phase == Idle && out' == base + FrameBytes(p) && e'.nextBank == 1 - e.bank
            else e'.phase != Idle && EmitInv(e', p, base, out') && e'.bank == e.bank && e'.nextBank == e.nextBank
  {
    if ready && e.phase == Code {
      EmitCode(e, b, p, base, out, full, max);
    } else if ready && e.phase == Data {
      EmitData(e, b, p, base, out, full, max);
    }
  }

  /** What the emitter has sent is a prefix of the frame. */
  lemma EmittedIsPrefix(e: Emitter, p: Packet, base: seq<byte>, out: seq<byte>)
    requires EmitInv(e, p, base, out)
    ensures base <= out <= base + FrameBytes(p)
  {
    hide Fits, Offset, Render, AllGroups, Cobs.Encode, Raw;
    var (raw, gs, g) := (Raw(p), AllGroups(Raw(p)), e.groupIndex);
    assert FrameBytes(p) == Cobs.Encode(raw) + [0];
    if e.phase == Code || e.phase == Data {
      GroupAt(p, g);
      var off := Offset(gs[..g]);
      assert Render(gs[..g + 1], raw) == Render(gs[..g], raw) + ([CodeOf(gs[g])] + raw[off..off + gs[g]]);
      if e.phase == Data {
        PartOf(Render(gs[..g], raw) + [CodeOf(gs[g])], raw, off, e.rawIndex, off + gs[g]);
        PrefixUnder(base, Render(gs[..g], raw) + [CodeOf(gs[g])] + raw[off..e.rawIndex], Cobs.Encode(raw));
      } else {
        PrefixUnder(base, Render(gs[..g], raw), Cobs.Encode(raw));
      }
    }
  }

  lemma PartOf(head: seq<byte>, raw: seq<byte>, from: nat, to: nat, end: nat)
    requires from <= to <= end <= |raw|
    ensures head + raw[from..to] <= head + raw[from..end]
  {
  }

  lemma PrefixUnder(base: seq<byte>, part: seq<byte>, encoded: seq<byte>)
    requires part <= encoded
    ensures base <= base + part <= base + (encoded + [0])
  {
  }

  // ---- Whole runs ----

  /** The packets that go out, in order: those accepted whole and not too long. */
  function Outgoing(t: Trace, max: nat): seq<Packet> {
    Kept(Parse(t.beats).complete, max)
  }

  /** How many of them have been closed into a bank. */
  ghost function Finished(t: Trace, max: nat): int {
    |Outgoing(t, max)| - if Closing(t.state.load) then 1 else 0
  }

  ghost function BeingClosed(t: Trace, max: nat): Option<Packet> {
    if Closing(t.state.load) && Outgoing(t, max) != []
    then Some(Outgoing(t, max)[|Outgoing(t, max)| - 1]) else None
  }

  /** The two banks as a queue: packets `sent` up to `finished`, the next one at `finished % 2`. */
  ghost predicate Ring(banks: seq<Bank>, loadBank: nat, nextBank: nat, sent: nat, finished: nat, k: seq<Packet>, max: nat) {
    && |banks| == 2 && sent <= finished <= sent + 2 && finished <= |k|
    && loadBank == finished % 2 && nextBank == sent % 2
    && (forall b :: 0 <= b < 2 ==> Memories(banks[b], max))
    && (banks[sent % 2].full <==> sent < finished)
    && (banks[(sent + 1) % 2].full <==> sent + 1 < finished)
    && (sent < finished ==> Stored(banks[sent % 2], k[sent], max))
    && (sent + 1 < finished ==> Stored(banks[(sent + 1) % 2], k[sent + 1], max))
  }

  /** A bank filled, a bank freed, or both on the same clock. */
  lemma RingKeeps(banks: seq<Bank>, loadBank: nat, nextBank: nat, sent: nat, finished: nat, k: seq<Packet>,
                  b: Bank, finished': nat, freed: bool, k': seq<Packet>, max: nat)
    requires Ring(banks, loadBank, nextBank, sent, finished, k, max)
    requires k <= k' && finished' <= |k'| && Memories(b, max) && (freed ==> sent < finished)
    requires if finished' == finished + 1
             then !banks[loadBank].full && Stored(b, k'[finished], max)
             else finished' == finished && b.full == banks[loadBank].full && (b.full ==> b == banks[loadBank])
    ensures var (filled, sent') := (banks[loadBank := b], if freed then sent + 1 else sent);
            var after := if freed then filled[sent % 2 := filled[sent % 2].(full := false)] else filled;
            Ring(after, finished' % 2, sent' % 2, sent', finished', k', max)
  {
    hide GroupsOf, Sum;
  }

  /** After `sent` frames. */
  ghost predicate Inv(t: Trace, sent: nat, max: nat) {
    var s, k, f := t.state, Outgoing(t, max), Finished(t, max);
    && max >= 1 && f >= 0 && Shape(s)
    && Ring(s.banks, s.load.bank, s.emit.nextBank, sent, f, k, max)
    && (s.emit.phase != Idle ==> s.emit.bank == s.emit.nextBank && sent < f)
    && LoadInv(s.load, s.banks[s.load.bank], Parse(t.beats).open, BeingClosed(t, max), max)
    && EmitInv(s.emit, At(k, sent), Wire(k[..sent]), t.out)
  }

  /** The clock's effect on the packets accepted. */
  lemma LoadHalf(t: Trace, sent: nat, i: Input, max: nat)
    requires Inv(t, sent, max)
    ensures var (t', s) := (Advance(t, i, max), t.state);
            var (bank, open, closed) := (s.banks[s.load.bank], Parse(t.beats).open, BeingClosed(t, max));
            && Closing(s.load) == closed.Some?
            && Parse(t'.beats).open == OpenNext(s.load, bank, open, i)
            && Outgoing(t', max) == Outgoing(t, max)
               + (if s.load.phase == Accept && ClosedNext(s.load, bank, open, closed, i, max).Some?
                  then [ClosedNext(s.load, bank, open, closed, i, max).value] else [])
  {
    hide GroupsOf, Ring, LoadStep, Wire;
    var s, t' := t.state, Advance(t, i, max);
    var beat := Beat(i.channel, i.data, i.last);
    if i.valid && InputReady(s) {
      assert t'.beats[..|t.beats|] == t.beats;
      assert Parse(t'.beats) == AddBeat(Parse(t.beats), beat);
      KeptSnoc(Parse(t.beats).complete, OpenAfter(Parse(t.beats).open, beat), max);
    }
  }

  ghost function At(k: seq<Packet>, j: nat): Packet {
    if j < |k| then k[j] else Packet(0, [])
  }

  /** The clock's effect on the wire. */
  lemma EmitHalf(s: State, k: seq<Packet>, out: seq<byte>, sent: nat, f: nat, ready: bool, max: nat)
    requires Shape(s) && Ring(s.banks, s.load.bank, s.emit.nextBank, sent, f, k, max)
    requires s.emit.phase != Idle ==> s.emit.bank == s.emit.nextBank && sent < f
    requires EmitInv(s.emit, At(k, sent), Wire(k[..sent]), out)
    ensures var e := EmitStep(s.emit, s.banks[s.emit.bank], s.banks[s.emit.nextBank].full, ready);
            var sent' := if s.emit.phase == Delimiter && ready then sent + 1 else sent;
            && sent' <= f && e.bank < 2 && e.nextBank == sent' % 2
            && (e.phase != Idle ==> e.bank == e.nextBank && sent' < f)
            && EmitInv(e, At(k, sent'), Wire(k[..sent']),
                       if ready && OutputValid(s.emit) then out + [OutputData(s.emit, s.banks[s.emit.bank])] else out)
  {
    hide GroupsOf, Sum, Fits, Offset, Render, FrameBytes;
    if s.emit.phase == Idle {
      if s.banks[s.emit.nextBank].full {
        StartsFrame(k[sent], Wire(k[..sent]));
      }
    } else {
      EmitSends(s.emit, s.banks[s.emit.bank], k[sent], Wire(k[..sent]), out, ready,
                s.banks[s.emit.nextBank].full, max);
      if ready && s.emit.phase == Delimiter {
        assert k[..sent + 1] == k[..sent] + [k[sent]];
        WireSnoc(k[..sent], k[sent]);
      }
    }
  }

  lemma StartsFrame(p: Packet, base: seq<byte>)
    ensures forall e: Emitter :: e.phase == Code && e.rawIndex == 0 && e.groupIndex == 0 ==>
              EmitInv(e, p, base, base)
  {
    var gs := AllGroups(Raw(p));
    assert gs[..0] == [];
    assert base + [] == base;
  }

  lemma IdleForAny(e: Emitter, p: Packet, q: Packet, base: seq<byte>, out: seq<byte>)
    requires e.phase == Idle && EmitInv(e, p, base, out)
    ensures EmitInv(e, q, base, out)
  {
  }

  lemma FreedKeepsLoad(l: Loader, b: Bank, open: Option<Packet>, closed: Option<Packet>, max: nat)
    requires LoadInv(l, b, open, closed, max)
    ensures LoadInv(l, b.(full := false), open, closed, max)
  {
  }

  /** Every clock keeps the invariant. */
  lemma StepKeeps(t: Trace, sent: nat, i: Input, max: nat) returns (sent': nat)
    requires Inv(t, sent, max)
    ensures Inv(Advance(t, i, max), sent', max) && Outgoing(t, max) <= Outgoing(Advance(t, i, max), max)
    ensures sent' == if t.state.emit.phase == Delimiter && i.ready then sent + 1 else sent
  {
    hide GroupsOf, Sum, Stored, EmitInv, LoadInv, LoadStep, EmitStep, Wire, Kept, Parse, OpenNext, Loaded;
    var s, t' := t.state, Advance(t, i, max);
    var (k, k', f) := (Outgoing(t, max), Outgoing(t', max), Finished(t, max));
    var bank, closed := s.banks[s.load.bank], BeingClosed(t, max);
    LoadHalf(t, sent, i, max);
    LoadKeeps(s.load, bank, Parse(t.beats).open, closed, i, max);
    EmitHalf(s, k, t.out, sent, f, i.ready, max);
    var (l, b) := LoadStep(s.load, bank, i, max);
    sent' := if s.emit.phase == Delimiter && i.ready then sent + 1 else sent;
    var f' := if s.load.phase == Finalize then f + 1 else f;
    RingKeeps(s.banks, s.load.bank, s.emit.nextBank, sent, f, k, b, f', sent' > sent, k', max);
    StepCloses(t, sent, sent', f', l, b, i, max);
  }

  /** The halves of a clock put together. */
  lemma StepCloses(t: Trace, sent: nat, sent': nat, f': nat, l: Loader, b: Bank, i: Input, max: nat)
    requires Inv(t, sent, max) && (l, b) == LoadStep(t.state.load, t.state.banks[t.state.load.bank], i, max)
    requires sent' == if t.state.emit.phase == Delimiter && i.ready then sent + 1 else sent
    requires var (s, t') := (t.state, Advance(t, i, max));
             var (k, k') := (Outgoing(t, max), Outgoing(t', max));
             && k <= k' && f' == Finished(t', max) && l.bank == f' % 2
             && Ring(t'.state.banks, f' % 2, sent' % 2, sent', f', k', max)
             && (if s.load.phase == Finalize
                 then forall other :: Memories(other, max) ==> LoadInv(l, other, Parse(t'.beats).open, BeingClosed(t', max), max)
                 else l.bank == s.load.bank && LoadInv(l, b, Parse(t'.beats).open, BeingClosed(t', max), max))
             && sent' <= f' && t'.state.emit.bank < 2 && t'.state.emit.nextBank == sent' % 2
             && (t'.state.emit.phase != Idle ==> t'.state.emit.bank == t'.state.emit.nextBank && sent' < Finished(t, max) <= f')
             && EmitInv(t'.state.emit, At(k, sent'), Wire(k[..sent']), t'.out)
    ensures Inv(Advance(t, i, max), sent', max)
  {
    hide GroupsOf, Sum, Stored, EmitInv, LoadInv, LoadStep, EmitStep, Wire, Kept, Parse, Loaded;
    var s, t' := t.state, Advance(t, i, max);
    var (k, k') := (Outgoing(t, max), Outgoing(t', max));
    assert k'[..sent'] == k[..sent'];
    if t'.state.emit.phase == Idle {
      IdleForAny(t'.state.emit, At(k, sent'), At(k', sent'), Wire(k[..sent']), t'.out);
    }
    if s.load.phase != Finalize {
      FreedKeepsLoad(l, b, Parse(t'.beats).open, BeingClosed(t', max), max);
    }
  }

  function Run(banks: seq<Bank>, inputs: seq<Input>, max: nat): (t: Trace)
    requires |banks| == 2
    ensures Shape(t.state)
  {
    if inputs == [] then Trace(Reset(banks), [], []) else
    Advance(Run(banks, inputs[..|inputs| - 1], max), inputs[|inputs| - 1], max)
  }

  lemma ResetHolds(banks: seq<Bank>, max: nat)
    requires max >= 1 && |banks| == 2 && forall b <- banks :: Memories(b, max)
    ensures Inv(Trace(Reset(banks), [], []), 0, max)
  {
    assert banks[0] in banks && banks[1] in banks;
  }

  lemma {:induction false} RunKeeps(banks: seq<Bank>, inputs: seq<Input>, max: nat) returns (sent: nat)
    requires max >= 1 && |banks| == 2 && forall b <- banks :: Memories(b, max)
    ensures Inv(Run(banks, inputs, max), sent, max)
  {
    if inputs == [] {
      ResetHolds(banks, max);
      sent := 0;
    } else {
      var before := inputs[..|inputs| - 1];
      var u := RunKeeps(banks, before, max);
      sent := StepKeeps(Run(banks, before, max), u, inputs[|inputs| - 1], max);
    }
  }

  lemma {:induction false} WirePrefix(k: seq<Packet>, n: nat)
    requires n <= |k|
    ensures Wire(k[..n]) <= Wire(k)
  {
    if n < |k| {
      var before := k[..|k| - 1];
      WirePrefix(before, n);
      assert before[..n] == k[..n];
    } else {
      assert k[..n] == k;
    }
  }

  /** What the invariant says about the wire. */
  lemma SentFrames(t: Trace, sent: nat, max: nat)
    requires Inv(t, sent, max)
    ensures var k := Outgoing(t, max);
            && sent <= |k| <= sent + 3
            && Wire(k[..sent]) <= t.out <= Wire(k)
            && (sent < |k| ==> t.out <= Wire(k[..sent + 1]))
            && (t.state.emit.phase == Idle ==> t.out == Wire(k[..sent]))
  {
    hide LoadInv, Stored, GroupsOf, Sum, Kept, Parse, FrameBytes, EmitInv;
    var k := Outgoing(t, max);
    WirePrefix(k, sent);
    if t.state.emit.phase == Idle {
      IdleSent(t.state.emit, At(k, sent), Wire(k[..sent]), t.out);
      if sent < |k| {
        assert k[..sent + 1][..sent] == k[..sent];
        WirePrefix(k[..sent + 1], sent);
      }
    } else {
      EmittedIsPrefix(t.state.emit, k[sent], Wire(k[..sent]), t.out);
      assert k[..sent + 1] == k[..sent] + [k[sent]];
      WireSnoc(k[..sent], k[sent]);
      WirePrefix(k, sent + 1);
    }
  }

  lemma IdleSent(e: Emitter, p: Packet, base: seq<byte>, out: seq<byte>)
    requires e.phase == Idle && EmitInv(e, p, base, out)
    ensures out == base
  {
  }

  /** The encoder refines the frame format: under any input gaps and output stalls the bytes sent
      are a prefix of the frames of the packets accepted (those not too long), at most three
      packets behind, and exactly those frames once the encoder has gone idle. */
  lemma EncoderSendsFrames(banks: seq<Bank>, inputs: seq<Input>, max: nat)
    requires max >= 1 && |banks| == 2 && forall b <- banks :: Memories(b, max)
    ensures var (t, k) := (Run(banks, inputs, max), Outgoing(Run(banks, inputs, max), max));
            && t.out <= Wire(k)
            && (exists sent :: |k| - 3 <= sent <= |k| && 0 <= sent && Wire(k[..sent]) <= t.out)
            && (Quiet(t.state) ==> t.out == Wire(k) && Parse(t.beats).open == None)
  {
    hide LoadStep, EmitStep, Stored, GroupsOf, Sum, Kept, Parse, FrameBytes, EmitInv, Wire, Run;
    var sent := RunKeeps(banks, inputs, max);
    var t := Run(banks, inputs, max);
    SentFrames(t, sent, max);
    if Quiet(t.state) {
      QuietSentAll(t, sent, max);
    }
  }

  lemma QuietSentAll(t: Trace, sent: nat, max: nat)
    requires Inv(t, sent, max) && Quiet(t.state)
    ensures t.out == Wire(Outgoing(t, max)) && Parse(t.beats).open == None
  {
    hide LoadStep, EmitStep, Stored, GroupsOf, Sum, Kept, Parse, FrameBytes, Wire, Loaded;
    var k := Outgoing(t, max);
    assert k[..sent] == k;
  }

  /** Nothing in flight. */
  predicate Quiet(s: State)
    requires Shape(s)
  {
    && s.load.phase == Accept && s.load.payloadCount == 0
    && s.emit.phase == Idle && !s.banks[0].full && !s.banks[1].full
  }

  /** The counters account for every byte accepted: received less dropped is the payload of the
      packets that go out and of the one still arriving, and the overrun flag is raised exactly when
      something has been dropped. */
  ghost predicate Accounted(l: Loader, p: Parsed, beats: nat, max: nat) {
    var held := if p.open.Some? && !l.dropping then |p.open.value.payload| else 0;
    && l.received == beats == l.dropped + PayloadBytes(Kept(p.complete, max)) + held
    && (l.overrun <==> l.dropped > 0) && (l.dropping ==> l.overrun)
  }

  lemma LoadCounters(l: Loader, b: Bank, i: Input, max: nat)
    ensures var (m, take) := (LoadStep(l, b, i, max).0, l.phase == Accept && i.valid && !b.full);
            var tooMany := l.payloadCount != 0 && (l.dropping || l.payloadCount >= max);
            && m.received == l.received + (if take then 1 else 0)
            && m.dropped == l.dropped + (if !take || !tooMany then 0 else if l.dropping then 1 else l.payloadCount + 1)
            && m.dropping == (if take && tooMany then !i.last else l.dropping)
            && m.overrun == (l.overrun || (take && tooMany && !l.dropping))
  {
  }

  lemma CountersStep(l: Loader, b: Bank, p: Parsed, beats: nat, closed: Option<Packet>, i: Input, max: nat)
    requires max >= 1 && LoadInv(l, b, p.open, closed, max) && Accounted(l, p, beats, max)
    ensures var take := l.phase == Accept && i.valid && !b.full;
            Accounted(LoadStep(l, b, i, max).0,
                      if take then AddBeat(p, Beat(i.channel, i.data, i.last)) else p,
                      if take then beats + 1 else beats, max)
  {
    LoadCounters(l, b, i, max);
    hide GroupsOf, Sum, Loaded, LoadStep, Kept, PayloadBytes, SumNeg, Opened, Raw, Memories;
    var packet := OpenAfter(p.open, Beat(i.channel, i.data, i.last));
    var kept := Kept(p.complete, max);
    KeptSnoc(p.complete, packet, max);
    KeptSnoc(kept, packet, max);
    if l.phase == Accept && i.valid && !b.full {
      var p' := AddBeat(p, Beat(i.channel, i.data, i.last));
      assert i.last ==> p'.complete == p.complete + [packet];
      assert kept + [] == kept;
      assert |packet.payload| <= max <==> !l.dropping && (l.payloadCount == 0 || l.payloadCount < max);
    }
  }

  lemma {:induction false} CountersAccount(banks: seq<Bank>, inputs: seq<Input>, max: nat)
    requires max >= 1 && |banks| == 2 && forall b <- banks :: Memories(b, max)
    ensures var t := Run(banks, inputs, max); Accounted(t.state.load, Parse(t.beats), |t.beats|, max)
  {
    if inputs != [] {
      var before := inputs[..|inputs| - 1];
      CountersAccount(banks, before, max);
      var sent := RunKeeps(banks, before, max);
      var t, i := Run(banks, before, max), inputs[|inputs| - 1];
      hide GroupsOf, Sum, LoadInv, EmitInv, Ring, LoadStep, EmitStep, Accounted, Kept;
      CountersStep(t.state.load, t.state.banks[t.state.load.bank], Parse(t.beats), |t.beats|, BeingClosed(t, max), i, max);
      assert (t.beats + [Beat(i.channel, i.data, i.last)])[..|t.beats|] == t.beats;
    }
  }

  // ---- The registers ----

  /** A clock, bank by bank. */
  lemma Joined(s: State, i: Input, max: nat, b0: Bank, b1: Bank)
    requires Shape(s)
    requires var r := LoadStep(s.load, s.banks[s.load.bank], i, max);
             && b0 == (if s.load.bank == 0 then r.1 else s.banks[0])
             && b1 == (if s.load.bank == 0 then s.banks[1] else r.1)
    ensures var freed := s.emit.phase == Delimiter && i.ready;
            Step(s, i, max)
            == State(LoadStep(s.load, s.banks[s.load.bank], i, max).0,
                     EmitStep(s.emit, s.banks[s.emit.bank], s.banks[s.emit.nextBank].full, i.ready),
                     [b0.(full := b0.full && !(freed && s.emit.bank == 0)),
                      b1.(full := b1.full && !(freed && s.emit.bank == 1))])
  {
    hide LoadStep, EmitStep;
  }

  class Registers {
    const max: nat
    const packet0: array<byte>
    const packet1: array<byte>
    const groups0: array<byte>
    const groups1: array<byte>
    var groupCount0: nat
    var groupCount1: nat
    var full0: bool
    var full1: bool
    var load: Loader
    var emit: Emitter

    ghost predicate Valid()
      reads this
    {
      && load.bank < 2 && emit.bank < 2 && emit.nextBank < 2
      && packet0 != packet1 && packet0 != groups0 && packet0 != groups1
      && packet1 != groups0 && packet1 != groups1 && groups0 != groups1
    }

    function Bank0(): Bank
      reads this, packet0, groups0
    {
      Bank(packet0[..], groups0[..], groupCount0, full0)
    }

    function Bank1(): Bank
      reads this, packet1, groups1
    {
      Bank(packet1[..], groups1[..], groupCount1, full1)
    }

    ghost function Now(): State
      reads this, packet0, packet1, groups0, groups1
    {
      State(load, emit, [Bank0(), Bank1()])
    }

    constructor (max: nat)
      ensures this.max == max && Valid() && Now() == Reset(Now().banks)
      ensures fresh(packet0) && fresh(packet1) && fresh(groups0) && fresh(groups1)
    {
      this.max := max;
      packet0 := new byte[max + 2](_ => 0);
      packet1 := new byte[max + 2](_ => 0);
      groups0 := new byte[max + 3](_ => 0);
      groups1 := new byte[max + 3](_ => 0);
      groupCount0, groupCount1, full0, full1 := 0, 0, false, false;
      load := Loader(Accept, 0, 0, 0, 0, 0, 0, 0, false, false, false, 0, 0);
      emit := Emitter(Idle, 0, 0, 0, 0, 0);
    }

    /** One write port of a memory. */
    static method Write(mem: array<byte>, at: nat, value: byte)
      modifies mem
      ensures mem[..] == Store(old(mem[..]), at, value)
    {
      if at < mem.Length {
        mem[at] := value;
      }
    }

    /** One raw byte into the packet and its groups. */
    method Append(packet: array<byte>, groups: array<byte>, value: byte)
      requires packet != groups
      modifies this`load, packet, groups
      ensures load.bank == old(load.bank)
      ensures forall count, full ::
                (load, Bank(packet[..], groups[..], count, full))
                == StoreRaw(old(load), Bank(old(packet[..]), old(groups[..]), count, full), value)
    {
      hide Store;
      var l := load;
      Write(packet, l.rawLength, value);
      load := load.(rawLength := l.rawLength + 1);
      if value == 0 {
        Write(groups, l.groupIndex, l.groupLength);
        load := load.(groupIndex := l.groupIndex + 1, groupLength := 0);
      } else if l.groupLength == 253 {
        Write(groups, l.groupIndex, 254);
        load := load.(groupIndex := l.groupIndex + 1, groupLength := 0);
      } else {
        load := load.(groupLength := Add8(l.groupLength, 1));
      }
    }

    /** The loader's half of a clock. */
    method LoadClock(i: Input)
      requires Valid()
      modifies this`load, this`groupCount0, this`groupCount1, this`full0, this`full1, packet0, packet1, groups0, groups1
      ensures Valid()
      ensures var r := LoadStep(old(load), old(if load.bank == 0 then Bank0() else Bank1()), i, max);
              && load == r.0
              && Bank0() == (if old(load.bank) == 0 then r.1 else old(Bank0()))
              && Bank1() == (if old(load.bank) == 0 then old(Bank1()) else r.1)
    {
      var l, full := load, if load.bank == 0 then full0 else full1;
      var packet, groups := if l.bank == 0 then packet0 else packet1, if l.bank == 0 then groups0 else groups1;
      var take := l.phase == Accept && i.valid && !full;
      var append := Appended(l, take, i, max);
      hide StoreRaw, Accepted, Store;
      if append.Some? {
        Append(packet, groups, append.value);
      }
      match l.phase {
        case Accept =>
          if take {
            Take(i, l);
          }
        case FirstData =>
          load := load.(phase := if l.pendingLast then Checksum else Accept);
        case Checksum =>
          load := load.(phase := Finalize);
        case Finalize =>
          Close();
      }
    }

    /** The packet's last group, and its bank handed to the emitter. */
    method Close()
      requires Valid() && load.phase == Finalize
      modifies this`load, this`groupCount0, this`groupCount1, this`full0, this`full1, groups0, groups1
      ensures Valid()
      ensures var (l, b) := (old(load), old(if load.bank == 0 then Bank0() else Bank1()));
              var closed := b.(groups := Store(b.groups, l.groupIndex, l.groupLength), groupCount := l.groupIndex + 1, full := true);
              && load == Cleared(l).(phase := Accept, bank := if l.bank == 0 then 1 else 0)
              && Bank0() == (if l.bank == 0 then closed else old(Bank0()))
              && Bank1() == (if l.bank == 0 then old(Bank1()) else closed)
    {
      var l := load;
      if l.bank == 0 {
        Write(groups0, l.groupIndex, l.groupLength);
        groupCount0, full0 := l.groupIndex + 1, true;
      } else {
        Write(groups1, l.groupIndex, l.groupLength);
        groupCount1, full1 := l.groupIndex + 1, true;
      }
      load := load.(bank := if l.bank == 0 then 1 else 0, payloadCount := 0, rawLength := 0,
                    groupIndex := 0, groupLength := 0, checksum := 0, phase := Accept);
    }

    /** A byte accepted, `l` being the loader before the clock. */
    method Take(i: Input, l: Loader)
      modifies this`load
      ensures load == Accepted(l, old(load), i, max) && load.bank == old(load.bank)
    {
      load := load.(received := l.received + 1);
      if l.payloadCount == 0 {
        load := load.(pendingData := i.data, pendingLast := i.last, payloadCount := 1, phase := FirstData,
                      checksum := Sub8(Negate(i.channel), i.data));
      } else if l.dropping {
        load := load.(dropped := l.dropped + 1);
        if i.last {
          load := load.(dropping := false, payloadCount := 0, rawLength := 0, groupIndex := 0, groupLength := 0, checksum := 0);
        }
      } else if l.payloadCount < max {
        load := load.(checksum := Sub8(l.checksum, i.data), payloadCount := l.payloadCount + 1);
        load := load.(phase := if i.last then Checksum else Accept);
      } else {
        load := load.(overrun := true, dropped := l.dropped + l.payloadCount + 1);
        if i.last {
          load := load.(dropping := false, payloadCount := 0, rawLength := 0, groupIndex := 0, groupLength := 0, checksum := 0);
        } else {
          load := load.(dropping := true);
        }
      }
    }

    /** The emitter's half, from the memory's outputs before the clock. */
    method EmitClock(ghost read: Bank, length: byte, groupCount: nat, nextFull: bool, ready: bool)
      requires Valid() && Fetch(read.groups, emit.groupIndex) == length && read.groupCount == groupCount
      modifies this`emit, this`full0, this`full1
      ensures Valid()
      ensures emit == EmitStep(old(emit), read, nextFull, ready)
      ensures full0 == (old(full0) && !(old(emit).phase == Delimiter && ready && old(emit).bank == 0))
      ensures full1 == (old(full1) && !(old(emit).phase == Delimiter && ready && old(emit).bank == 1))
    {
      var e := emit;
      var lastGroup := e.groupIndex + 1 == groupCount;
      match e.phase {
        case Idle =>
          if nextFull {
            emit := emit.(bank := e.nextBank, rawIndex := 0, groupIndex := 0, phase := Code);
          }
        case Code =>
          if ready {
            if length == 0 {
              if lastGroup {
                emit := emit.(phase := Delimiter);
              } else {
                emit := emit.(rawIndex := e.rawIndex + 1, groupIndex := e.groupIndex + 1);
              }
            } else {
              emit := emit.(remaining := length, phase := Data);
            }
          }
        case Data =>
          if ready {
            if e.remaining == 1 {
              if lastGroup {
                emit := emit.(phase := Delimiter);
              } else {
                emit := emit.(rawIndex := e.rawIndex + if length == 254 then 1 else 2,
                              groupIndex := e.groupIndex + 1, phase := Code);
              }
            } else {
              emit := emit.(rawIndex := e.rawIndex + 1, remaining := Sub8(e.remaining, 1));
            }
          }
        case Delimiter =>
          if ready {
            if e.bank == 0 {
              full0 := false;
            } else {
              full1 := false;
            }
            emit := emit.(nextBank := if e.bank == 0 then 1 else 0, phase := Idle);
          }
      }
    }

    method Clock(i: Input)
      requires Valid()
      modifies this, packet0, packet1, groups0, groups1
      ensures Valid() && Now() == Step(old(Now()), i, max)
    {
      hide LoadStep, EmitStep, Step;
      ghost var now, read := Now(), if emit.bank == 0 then Bank0() else Bank1();
      var length := GroupLength();
      var groupCount := if emit.bank == 0 then groupCount0 else groupCount1;
      var nextFull := if emit.nextBank == 0 then full0 else full1;
      LoadClock(i);
      Joined(now, i, max, Bank0(), Bank1());
      EmitClock(read, length, groupCount, nextFull, i.ready);
    }

    /** The group memory's output for the emitter. */
    method GroupLength() returns (length: byte)
      requires Valid()
      ensures length == Fetch(if emit.bank == 0 then Bank0().groups else Bank1().groups, emit.groupIndex)
    {
      var groups := if emit.bank == 0 then groups0 else groups1;
      length := if emit.groupIndex < groups.Length then groups[emit.groupIndex] else 0;
    }
  }
}
