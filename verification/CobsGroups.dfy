/** The encoder's run-length view of a packet: the lengths of its COBS groups, kept beside the raw
    bytes, and the encoding they stand for. */
module CobsGroups {
  import opened Bytes
  import Cobs

  /** Lengths of the finished groups, and of the group still growing. */
  datatype Groups = Groups(closed: seq<byte>, open: byte)

  function GroupsOf(raw: seq<byte>): (g: Groups)
    ensures g.open < 254 && |g.closed| <= |raw|
    ensures forall n <- g.closed :: n <= 254
  {
    if raw == [] then Groups([], 0) else Grow(GroupsOf(raw[..|raw| - 1]), raw[|raw| - 1])
  }

  /** One more raw byte. */
  function Grow(g: Groups, value: byte): Groups
    requires g.open < 254
  {
    if value == 0 then Groups(g.closed + [g.open], 0)
    else if g.open == 253 then Groups(g.closed + [254], 0)
    else Groups(g.closed, g.open + 1)
  }

  function AllGroups(raw: seq<byte>): (gs: seq<byte>)
    ensures 1 <= |gs| <= |raw| + 1
    ensures forall n <- gs :: n <= 254
  {
    GroupsOf(raw).closed + [GroupsOf(raw).open]
  }

  /** `emit_group_length == 8'hfe ? 8'hff : emit_group_length + 1'b1` */
  function CodeOf(length: byte): byte {
    if length == 254 then 255 else if length == 255 then 0 else length + 1
  }

  /** Raw bytes that groups account for: each one shorter than 254 is followed by a zero. */
  function Offset(gs: seq<byte>): nat {
    if gs == [] then 0 else
    var n := gs[|gs| - 1];
    Offset(gs[..|gs| - 1]) + n + if n == 254 then 0 else 1
  }

  /** Every group's data lies within the raw bytes. */
  ghost predicate Fits(gs: seq<byte>, raw: seq<byte>) {
    gs != [] ==>
      && Fits(gs[..|gs| - 1], raw)
      && Offset(gs[..|gs| - 1]) + gs[|gs| - 1] <= |raw|
  }

  /** The encoded bytes of some leading groups. */
  ghost function Render(gs: seq<byte>, raw: seq<byte>): seq<byte>
    requires Fits(gs, raw)
  {
    if gs == [] then [] else
    var before, n := gs[..|gs| - 1], gs[|gs| - 1];
    Render(before, raw) + [CodeOf(n)] + raw[Offset(before)..Offset(before) + n]
  }

  /** Raw bytes that arrive later do not disturb the groups already there. */
  lemma {:induction false} RenderMore(gs: seq<byte>, raw: seq<byte>, more: seq<byte>)
    requires Fits(gs, raw)
    ensures Fits(gs, raw + more) && Render(gs, raw + more) == Render(gs, raw)
  {
    if gs != [] {
      var before, n := gs[..|gs| - 1], gs[|gs| - 1];
      RenderMore(before, raw, more);
      assert (raw + more)[Offset(before)..Offset(before) + n] == raw[Offset(before)..Offset(before) + n];
    }
  }

  /** Closing a group appends its block. */
  lemma RenderSnoc(gs: seq<byte>, n: byte, raw: seq<byte>)
    requires Fits(gs, raw) && Offset(gs) + n <= |raw|
    ensures Fits(gs + [n], raw)
    ensures Offset(gs + [n]) == Offset(gs) + n + if n == 254 then 0 else 1
    ensures Render(gs + [n], raw) == Render(gs, raw) + [CodeOf(n)] + raw[Offset(gs)..Offset(gs) + n]
  {
    assert (gs + [n])[..|gs|] == gs;
  }

  /** Groups that fit, one more of them rendered. */
  lemma {:induction false} FitsPrefix(gs: seq<byte>, g: nat, raw: seq<byte>)
    requires g <= |gs| && Fits(gs, raw)
    ensures Fits(gs[..g], raw)
    ensures g < |gs| ==> Offset(gs[..g]) + gs[g] <= |raw|
    decreases |gs|
  {
    if g < |gs| {
      var before := gs[..|gs| - 1];
      if g < |before| {
        FitsPrefix(before, g, raw);
        assert before[..g] == gs[..g];
      }
    } else {
      assert gs[..g] == gs;
    }
  }

  /** Fewer groups render to a prefix. */
  lemma {:induction false} RenderIsPrefix(gs: seq<byte>, g: nat, raw: seq<byte>)
    requires g <= |gs| && Fits(gs, raw) && Fits(gs[..g], raw)
    ensures Render(gs[..g], raw) <= Render(gs, raw)
  {
    if g < |gs| {
      var before := gs[..|gs| - 1];
      assert before[..g] == gs[..g];
      RenderIsPrefix(before, g, raw);
    } else {
      assert gs[..g] == gs;
    }
  }

  /** The finished groups render to the finished COBS blocks, the open one is the pending data. */
  ghost predicate Agree(g: Groups, b: Cobs.Blocks, raw: seq<byte>) {
    && g.open == |b.pending| <= |raw|
    && Offset(g.closed) == |raw| - |b.pending|
    && raw[|raw| - |b.pending|..] == b.pending
    && Fits(g.closed, raw)
    && Render(g.closed, raw) == b.done
  }

  lemma AgreeGrows(g: Groups, b: Cobs.Blocks, raw: seq<byte>, value: byte)
    requires Agree(g, b, raw) && g.open < 254 && |b.pending| < 254
    ensures Agree(Grow(g, value), Cobs.Extend(b, value), raw + [value])
  {
    hide Render, Fits, Offset;
    var all, start := raw + [value], Offset(g.closed);
    RenderMore(g.closed, raw, [value]);
    if value == 0 {
      assert all[start..start + g.open] == b.pending;
      RenderSnoc(g.closed, g.open, all);
    } else if g.open == 253 {
      assert all[start..start + 254] == b.pending + [value];
      RenderSnoc(g.closed, 254, all);
    }
  }

  lemma {:induction false} GroupsAreBlocks(raw: seq<byte>)
    ensures Agree(GroupsOf(raw), Cobs.BlocksOf(raw), raw)
  {
    if raw != [] {
      hide Agree;
      var before, value := raw[..|raw| - 1], raw[|raw| - 1];
      GroupsAreBlocks(before);
      AgreeGrows(GroupsOf(before), Cobs.BlocksOf(before), before, value);
      assert raw == before + [value];
    }
  }

  /** The whole list of groups renders to the COBS encoding. */
  lemma GroupsEncode(raw: seq<byte>)
    ensures Fits(AllGroups(raw), raw)
    ensures Render(AllGroups(raw), raw) == Cobs.Encode(raw)
  {
    hide Render, Fits, Offset, GroupsOf, Cobs.BlocksOf;
    var g := GroupsOf(raw);
    GroupsAreBlocks(raw);
    RenderSnoc(g.closed, g.open, raw);
  }
}
