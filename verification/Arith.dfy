/** Powers of two and counters that wrap. */
module Arith {

  function Pow2(n: nat): (r: nat)
    ensures r >= 1
  {
    if n == 0 then 1 else 2 * Pow2(n - 1)
  }

  lemma Pow2Double(n: nat)
    ensures Pow2(n + 1) == 2 * Pow2(n)
  {
  }

  /** The remainder of `x` by `m`, by repeated subtraction: what a register counting modulo `m`
      holds after `x` steps. */
  function Wrap(x: nat, m: nat): (r: nat)
    requires m > 0
    ensures r < m
    ensures x < m ==> r == x
  {
    if x < m then x else Wrap(x - m, m)
  }

  /** Counters less than `m` apart have distinct remainders. */
  lemma {:induction false} WrapApart(x: nat, y: nat, m: nat)
    requires m > 0 && x <= y < x + m && Wrap(x, m) == Wrap(y, m)
    ensures x == y
  {
    if x >= m {
      WrapApart(x - m, y - m, m);
    } else if y >= m {
      assert false;
    }
  }

  /** Stepping a wrapped counter is wrapping the stepped counter. */
  lemma {:induction false} WrapStep(x: nat, m: nat)
    requires m > 0
    ensures Wrap(Wrap(x, m) + 1, m) == Wrap(x + 1, m)
  {
    if x >= m {
      WrapStep(x - m, m);
    }
  }

  /** A counter that wraps at `2 * m`, wrapped at `m`. */
  lemma {:induction false} WrapTwice(x: nat, m: nat)
    requires m > 0
    ensures Wrap(Wrap(x, 2 * m), m) == Wrap(x, m)
  {
    if x >= 2 * m {
      WrapTwice(x - 2 * m, m);
      assert Wrap(x, m) == Wrap(x - m, m) == Wrap(x - 2 * m, m);
    }
  }

  lemma {:induction false} WrapHalf(x: nat, m: nat)
    requires m > 0
    ensures Wrap(x, 2 * m) % 2 == x % 2
    ensures Wrap(x, 2 * m) / 2 == Wrap(x / 2, m)
  {
    if x >= 2 * m {
      WrapHalf(x - 2 * m, m);
      assert (x - 2 * m) / 2 == x / 2 - m;
      assert Wrap(x / 2, m) == Wrap(x / 2 - m, m);
    }
  }

  /** Bitwise and. */
  function And(x: nat, y: nat): (r: nat)
    ensures r <= y
  {
    if x == 0 || y == 0 then 0 else (if x % 2 == 1 && y % 2 == 1 then 1 else 0) + 2 * And(x / 2, y / 2)
  }

  lemma AndZero(x: nat)
    ensures And(x, 0) == 0 && And(0, x) == 0
  {
  }

  lemma AndOne(x: nat)
    ensures And(x, 1) == x % 2
  {
    AndZero(x / 2);
  }

  /** A mask of low bits is the remainder. */
  lemma {:induction false} AndLow(x: nat, k: nat)
    ensures And(x, Pow2(k) - 1) == x % Pow2(k)
  {
    if k == 0 {
      AndZero(x);
    } else {
      var m := Pow2(k - 1);
      AndLow(x / 2, k - 1);
      ModTwice(x, m);
      assert Pow2(k) == 2 * m && (Pow2(k) - 1) / 2 == m - 1 && (Pow2(k) - 1) % 2 == 1;
      if x == 0 {
        assert 0 % Pow2(k) == 0;
      }
    }
  }

  lemma AndEven(x: nat, y: nat)
    ensures And(x, 2 * y) == 2 * And(x / 2, y)
  {
    assert 2 * y / 2 == y && 2 * y % 2 == 0;
    AndZero(y);
    AndZero(x);
    AndZero(x / 2);
  }

  lemma AndFour(x: nat, y: nat)
    ensures And(x, 4 * y) == 4 * And(x / 4, y)
  {
    hide And;
    AndEven(x, 2 * y);
    AndEven(x / 2, y);
    assert x / 2 / 2 == x / 4;
  }

  /** A mask four bits up. */
  lemma AndSixteen(x: nat, y: nat)
    ensures And(x, 16 * y) == 16 * And(x / 16, y)
  {
    hide And;
    AndFour(x, 4 * y);
    AndFour(x / 4, y);
    assert x / 4 / 4 == x / 16;
  }

  lemma AndByte(x: nat, y: nat)
    ensures And(x, 0x100 * y) == 0x100 * And(x / 0x100, y)
  {
    hide And;
    AndSixteen(x, 16 * y);
    AndSixteen(x / 16, y);
    assert x / 16 / 16 == x / 0x100;
  }

  lemma AndWord(x: nat, y: nat)
    ensures And(x, 0x1_0000 * y) == 0x1_0000 * And(x / 0x1_0000, y)
  {
    hide And;
    AndByte(x, 0x100 * y);
    AndByte(x / 0x100, y);
    assert x / 0x100 / 0x100 == x / 0x1_0000;
  }

  lemma AndTop(x: nat, y: nat)
    ensures And(x, 0x1000_0000 * y) == 0x1000_0000 * And(x / 0x1000_0000, y)
  {
    hide And;
    AndWord(x, 0x1000 * y);
    AndByte(x / 0x1_0000, 16 * y);
    AndSixteen(x / 0x100_0000, y);
    assert x / 0x1_0000 / 0x100 == x / 0x100_0000 && x / 0x100_0000 / 16 == x / 0x1000_0000;
  }

  lemma AndTwo(x: nat)
    ensures And(x, 2) == x / 2 % 2 * 2
  {
    AndEven(x, 1);
    AndOne(x / 2);
  }

  lemma AndEight(x: nat)
    ensures And(x, 8) == x / 8 % 2 * 8
  {
    hide And;
    AndFour(x, 2);
    AndTwo(x / 4);
    assert x / 4 / 2 == x / 8;
  }

  lemma ModTwice(x: nat, m: nat)
    requires m > 0
    ensures x % (2 * m) == x % 2 + 2 * (x / 2 % m)
  {
    DivTwice(x, m);
    var q := x / 2 / m;
    assert x / 2 == q * m + x / 2 % m;
    assert x == q * (2 * m) + x % (2 * m);
    assert q * (2 * m) == 2 * (q * m);
  }

  lemma DivTwice(x: nat, m: nat)
    requires m > 0
    ensures x / 2 / m == x / (2 * m)
  {
    var q, r := x / 2 / m, x / 2 % m;
    assert x / 2 == q * m + r;
    var s := 2 * r + x % 2;
    assert x == q * (2 * m) + s;
    assert (q + 1) * (2 * m) == q * (2 * m) + 2 * m;
    Quotient(x, 2 * m, q);
  }

  lemma MulMono(a: nat, b: nat, c: nat)
    requires a <= b
    ensures a * c <= b * c
  {
  }

  lemma Quotient(x: nat, d: nat, q: nat)
    requires d > 0 && q * d <= x < (q + 1) * d
    ensures x / d == q
  {
    var m := x / d;
    assert m * d <= x < m * d + d;
    if m < q {
      MulMono(m + 1, q, d);
    } else if q < m {
      MulMono(q + 1, m, d);
    }
  }

  lemma Powers()
    ensures Pow2(1) == 2 && Pow2(3) == 8 && Pow2(8) == 0x100 && Pow2(16) == 0x1_0000
    ensures Pow2(26) == 0x400_0000 && Pow2(28) == 0x1000_0000 && Pow2(31) == 0x8000_0000
  {
    assert Pow2(4) == 16 && Pow2(8) == 256;
    assert Pow2(12) == 0x1000 && Pow2(16) == 0x1_0000;
    assert Pow2(20) == 0x10_0000 && Pow2(24) == 0x100_0000;
    assert Pow2(26) == 0x400_0000;
    assert Pow2(28) == 0x1000_0000;
  }
}
