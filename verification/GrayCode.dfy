/** Gray-coded pointers of the dual-clock FIFO.

    A register `logic [w-1:0]` is a `seq<bool>` with bit 0 first.  Pointers are unbounded
    naturals here, of which a register holds the low `w` bits. */
module GrayCode {
  import opened Arith

  type Bits = seq<bool>

  /** The Gray code of the low `width` bits of `x`: each bit differs from the next higher one. */
  function GrayOf(x: nat, width: nat): (g: Bits)
    ensures |g| == width
  {
    if width == 0 then [] else
    [(x % 2 == 1) != (width > 1 && x / 2 % 2 == 1)] + GrayOf(x / 2, width - 1)
  }

  /** The low `width` bits of `x`. */
  function ToBits(x: nat, width: nat): (b: Bits)
    ensures |b| == width
  {
    if width == 0 then [] else [x % 2 == 1] + ToBits(x / 2, width - 1)
  }

  /** `(b >> 1) ^ b` */
  function ShiftXor(b: Bits): (g: Bits)
    ensures |g| == |b|
  {
    seq(|b|, i requires 0 <= i < |b| => b[i] != (i + 1 < |b| && b[i + 1]))
  }

  /** `GrayOf` is what the assignments to `wr_gray_next` and `wr_plus_one_gray` compute. */
  lemma {:induction false} GrayIsShiftXor(x: nat, width: nat)
    ensures GrayOf(x, width) == ShiftXor(ToBits(x, width))
  {
    if width > 0 {
      GrayIsShiftXor(x / 2, width - 1);
      var b, c := ToBits(x, width), ToBits(x / 2, width - 1);
      assert b == [x % 2 == 1] + c;
      assert width > 1 ==> c[0] == (x / 2 % 2 == 1);
      assert ShiftXor(b) == [(x % 2 == 1) != (width > 1 && x / 2 % 2 == 1)] + ShiftXor(c);
    }
  }

  /** `{~g[w-1:w-2], g[w-3:0]}` */
  function InvertTopTwo(g: Bits): (r: Bits)
    requires |g| >= 2
    ensures |r| == |g|
  {
    g[..|g| - 2] + [!g[|g| - 2], !g[|g| - 1]]
  }

  /** What a flop captures while its input moves from `before` to `after`: every bit settles,
      independently, on the old value or (where `mask` is set) on the new one. */
  function Resolve(before: Bits, after: Bits, mask: Bits): (r: Bits)
    requires |before| == |after| == |mask|
    ensures |r| == |before|
    ensures forall i {:trigger r[i]} :: 0 <= i < |r| ==> r[i] == if mask[i] then after[i] else before[i]
  {
    seq(|before|, i requires 0 <= i < |before| => if mask[i] then after[i] else before[i])
  }

  /** Only the low bits matter. */
  lemma {:induction false} GrayWraps(x: nat, width: nat)
    ensures GrayOf(Wrap(x, Pow2(width)), width) == GrayOf(x, width)
  {
    if width > 0 {
      var m := Pow2(width - 1);
      WrapHalf(x, m);
      GrayWraps(x / 2, width - 1);
      if width > 1 {
        WrapHalf(x / 2, Pow2(width - 2));
      }
    }
  }

  /** Two counters with the same Gray pointer hold the same low bits. */
  lemma {:induction false} GrayInjective(x: nat, y: nat, width: nat)
    requires GrayOf(x, width) == GrayOf(y, width)
    ensures Wrap(x, Pow2(width)) == Wrap(y, Pow2(width))
  {
    if width > 0 {
      var g, h := GrayOf(x, width), GrayOf(y, width);
      assert g[0] == h[0] && g[1..] == GrayOf(x / 2, width - 1) && h[1..] == GrayOf(y / 2, width - 1);
      GrayInjective(x / 2, y / 2, width - 1);
      WrapHalf(x, Pow2(width - 1));
      WrapHalf(y, Pow2(width - 1));
      if width > 1 {
        WrapHalf(x / 2, Pow2(width - 2));
        WrapHalf(y / 2, Pow2(width - 2));
      }
    }
  }

  /** Hence counters less than 2^width apart are told apart exactly. */
  lemma GrayDecides(x: nat, y: nat, width: nat)
    requires x <= y < x + Pow2(width)
    ensures GrayOf(x, width) == GrayOf(y, width) <==> x == y
  {
    if GrayOf(x, width) == GrayOf(y, width) {
      GrayInjective(x, y, width);
      WrapApart(x, y, Pow2(width));
    }
  }

  /** One increment changes exactly one bit, also where the register wraps to zero. */
  lemma {:induction false} GrayAdjacent(x: nat, width: nat) returns (k: nat)
    requires width >= 1
    ensures k < width
    ensures forall i :: 0 <= i < width ==>
              (GrayOf(x, width)[i] != GrayOf(x + 1, width)[i] <==> i == k)
  {
    GrayParts(x, width);
    GrayParts(x + 1, width);
    hide GrayOf;
    if width == 1 || x % 2 == 0 {
      k := 0;
      assert x % 2 == 0 ==> (x + 1) / 2 == x / 2;
    } else {
      assert (x + 1) / 2 == x / 2 + 1;
      var j := GrayAdjacent(x / 2, width - 1);
      k := j + 1;
      var g, h := GrayOf(x, width), GrayOf(x + 1, width);
      var g', h' := GrayOf(x / 2, width - 1), GrayOf(x / 2 + 1, width - 1);
      forall i | 0 <= i < width ensures g[i] != h[i] <==> i == k {
        assert i > 0 ==> g[i] == g'[i - 1] && h[i] == h'[i - 1];
      }
    }
  }

  /** The lowest bit, and the bits above it. */
  lemma GrayParts(x: nat, width: nat)
    requires width >= 1
    ensures GrayOf(x, width) == [(x % 2 == 1) != (width > 1 && x / 2 % 2 == 1)] + GrayOf(x / 2, width - 1)
  {
  }

  /** So a flop that samples a moving Gray pointer holds its old or its new value, never a third. */
  lemma ResolveIsOldOrNew(x: nat, width: nat, mask: Bits)
    requires width >= 1 && |mask| == width
    ensures var r := Resolve(GrayOf(x, width), GrayOf(x + 1, width), mask);
            r == GrayOf(x, width) || r == GrayOf(x + 1, width)
  {
    var k := GrayAdjacent(x, width);
    var r := Resolve(GrayOf(x, width), GrayOf(x + 1, width), mask);
    if mask[k] {
      assert r == GrayOf(x + 1, width);
    } else {
      assert r == GrayOf(x, width);
    }
  }

  /** Inverting the two top bits of a Gray pointer adds half the pointer range to the pointer. */
  lemma {:induction false} InvertTopTwoAddsHalf(x: nat, width: nat)
    requires width >= 2
    ensures InvertTopTwo(GrayOf(x, width)) == GrayOf(x + Pow2(width - 1), width)
  {
    hide GrayOf, InvertTopTwo;
    if width == 2 {
      assert Pow2(1) == 2 * Pow2(0) == 2;
      InvertTopTwoBase(x);
    } else {
      hide Pow2;
      Pow2Double(width - 2);
      Pow2Double(width - 3);
      InvertTopTwoAddsHalf(x / 2, width - 1);
      InvertTopTwoStep(x, Pow2(width - 3), width);
    }
  }

  lemma InvertTopTwoBase(x: nat)
    ensures InvertTopTwo(GrayOf(x, 2)) == GrayOf(x + 2, 2)
  {
    assert (x + 2) / 2 == x / 2 + 1;
    assert GrayOf(x / 2, 1) == [x / 2 % 2 == 1] && GrayOf((x + 2) / 2, 1) == [(x + 2) / 2 % 2 == 1];
  }

  lemma InvertTopTwoStep(x: nat, m: nat, width: nat)
    requires width >= 3
    requires InvertTopTwo(GrayOf(x / 2, width - 1)) == GrayOf(x / 2 + 2 * m, width - 1)
    ensures InvertTopTwo(GrayOf(x, width)) == GrayOf(x + 4 * m, width)
  {
    assert (x + 4 * m) / 2 == x / 2 + 2 * m && (x + 4 * m) % 2 == x % 2;
    assert (x / 2 + 2 * m) % 2 == x / 2 % 2;
    var g, h := GrayOf(x, width), GrayOf(x / 2, width - 1);
    assert g == [g[0]] + h;
    assert InvertTopTwo(g) == [g[0]] + InvertTopTwo(h);
  }
}
