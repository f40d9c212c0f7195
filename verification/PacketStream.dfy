/** Bytes tagged with a channel and a last flag, and the packets they make up. */
module PacketStream {
  import opened Bytes
  import opened Orbflow

  datatype Beat = Beat(channel: byte, data: byte, last: bool)

  /** Whole packets, and the one whose last byte has not come yet. */
  datatype Parsed = Parsed(complete: seq<Packet>, open: Option<Packet>)

  function Parse(beats: seq<Beat>): Parsed {
    if beats == [] then Parsed([], None) else
    AddBeat(Parse(beats[..|beats| - 1]), beats[|beats| - 1])
  }

  /** A packet keeps the channel of its first byte. */
  function AddBeat(p: Parsed, beat: Beat): Parsed {
    var packet := match p.open
      case None => Packet(beat.channel, [beat.data])
      case Some(o) => Packet(o.channel, o.payload + [beat.data]);
    if beat.last then Parsed(p.complete + [packet], None) else Parsed(p.complete, Some(packet))
  }

  /** The packets whose payload is not longer than `max`. */
  function Kept(packets: seq<Packet>, max: nat): (kept: seq<Packet>)
    ensures |kept| <= |packets|
    ensures forall p <- kept :: |p.payload| <= max
  {
    if packets == [] then [] else
    var last := packets[|packets| - 1];
    Kept(packets[..|packets| - 1], max) + if |last.payload| <= max then [last] else []
  }

  function PayloadBytes(packets: seq<Packet>): nat {
    if packets == [] then 0 else
    PayloadBytes(packets[..|packets| - 1]) + |packets[|packets| - 1].payload|
  }

  lemma KeptSnoc(packets: seq<Packet>, p: Packet, max: nat)
    ensures Kept(packets + [p], max) == Kept(packets, max) + if |p.payload| <= max then [p] else []
    ensures PayloadBytes(packets + [p]) == PayloadBytes(packets) + |p.payload|
  {
    assert (packets + [p])[..|packets|] == packets;
  }

  /** When no packet is too long, all are kept. */
  lemma {:induction false} KeptAll(packets: seq<Packet>, max: nat)
    requires forall p <- packets :: |p.payload| <= max
    ensures Kept(packets, max) == packets
  {
    if packets != [] {
      KeptAll(packets[..|packets| - 1], max);
    }
  }

  lemma WireSnoc(packets: seq<Packet>, p: Packet)
    ensures Wire(packets + [p]) == Wire(packets) + FrameBytes(p)
  {
    assert (packets + [p])[..|packets|] == packets;
  }
}
