/** Bitwise operations on natural numbers, bit by bit. */
module Bits {

  function Pow2(k: nat): (p: nat)
    ensures p >= 1
  {
    if k == 0 then 1 else 2 * Pow2(k - 1)
  }

  lemma Pow2Byte(k: nat)
    ensures Pow2(k + 8) == 256 * Pow2(k)
  {
    assert Pow2(k + 2) == 4 * Pow2(k);
    assert Pow2(k + 4) == 4 * Pow2(k + 2);
    assert Pow2(k + 6) == 4 * Pow2(k + 4);
    assert Pow2(k + 8) == 4 * Pow2(k + 6);
  }

  function Bit(b: bool): nat {
    if b then 1 else 0
  }

  /** The low `k` bits of `a ^ b`, `a | b` and `a & b`. */
  function Xor(a: nat, b: nat, k: nat): nat {
    if k == 0 then 0 else 2 * Xor(a / 2, b / 2, k - 1) + Bit(a % 2 != b % 2)
  }

  function Or(a: nat, b: nat, k: nat): nat {
    if k == 0 then 0 else 2 * Or(a / 2, b / 2, k - 1) + Bit(a % 2 == 1 || b % 2 == 1)
  }

  function And(a: nat, b: nat, k: nat): nat {
    if k == 0 then 0 else 2 * And(a / 2, b / 2, k - 1) + Bit(a % 2 == 1 && b % 2 == 1)
  }

  /** `a >> m`. */
  function Shr(a: nat, m: nat): nat {
    if m == 0 then a else Shr(a / 2, m - 1)
  }

  lemma {:induction false} XorBound(a: nat, b: nat, k: nat)
    ensures Xor(a, b, k) < Pow2(k)
  {
    if k > 0 { XorBound(a / 2, b / 2, k - 1); }
  }

  lemma {:induction false} ZeroHasNoBits(m: nat)
    ensures Shr(0, m) == 0
  {
    if m > 0 { ZeroHasNoBits(m - 1); }
  }

  /** Bit `i` of each result is that of the operands combined, and from bit `k` on there are none. */
  lemma {:induction false} BitsAre(a: nat, b: nat, k: nat, i: nat)
    ensures var x, y := Shr(a, i) % 2 == 1, Shr(b, i) % 2 == 1;
            && (Shr(Xor(a, b, k), i) % 2 == 1 <==> i < k && x != y)
            && (Shr(Or(a, b, k), i) % 2 == 1 <==> i < k && (x || y))
            && (Shr(And(a, b, k), i) % 2 == 1 <==> i < k && x && y)
  {
    if k == 0 {
      ZeroHasNoBits(i);
    } else if i > 0 {
      BitsAre(a / 2, b / 2, k - 1, i - 1);
    }
  }

  /** Shifting drops the low digits. */
  lemma {:induction false} ShrDivides(a: nat, m: nat)
    ensures Shr(a, m) == a / Pow2(m)
  {
    if m > 0 {
      ShrDivides(a / 2, m - 1);
      HalveThenDivide(a, Pow2(m - 1));
    }
  }

  lemma HalveThenDivide(a: nat, d: nat)
    requires d >= 1
    ensures a / 2 / d == a / (2 * d)
  {
    var h := a / 2;
    var q := h / d;
    assert h == q * d + h % d;
    assert a == q * (2 * d) + (2 * (h % d) + a % 2);
    QuotientIs(a, 2 * d, q, 2 * (h % d) + a % 2);
  }

  lemma QuotientIs(a: nat, d: nat, q: nat, r: nat)
    requires d >= 1 && r < d && a == q * d + r
    ensures a / d == q
  {
    var p := a / d;
    assert a == p * d + a % d;
    if p < q { assert (p + 1) * d <= q * d by { Product(p + 1, q, d); } }
    if q < p { assert (q + 1) * d <= p * d by { Product(q + 1, p, d); } }
  }

  lemma Product(x: nat, y: nat, d: nat)
    requires x <= y
    ensures x * d <= y * d
  {
  }

  /** Applying two keys in turn gives back the input exactly when the keys agree. */
  lemma {:induction false} XorCancel(a: nat, x: nat, y: nat, k: nat)
    requires a < Pow2(k) && x < Pow2(k) && y < Pow2(k)
    ensures Xor(Xor(a, x, k), y, k) == a <==> x == y
  {
    if k > 0 {
      XorCancel(a / 2, x / 2, y / 2, k - 1);
      assert Xor(a, x, k) / 2 == Xor(a / 2, x / 2, k - 1);
    }
  }

  // ---------- masks of the low m bits ----------

  /** `a` with its low `m` bits cleared, and with them set. */
  function Lo(a: nat, m: nat): nat {
    if m == 0 then a else 2 * Lo(a / 2, m - 1)
  }

  function Hi(a: nat, m: nat): nat {
    if m == 0 then a else 2 * Hi(a / 2, m - 1) + 1
  }

  lemma {:induction false} OrLowMask(a: nat, m: nat, k: nat)
    requires m <= k && a < Pow2(k)
    ensures Or(a, Pow2(m) - 1, k) == Hi(a, m)
  {
    if k > 0 {
      if m == 0 {
        OrLowMask(a / 2, 0, k - 1);
      } else {
        OrLowMask(a / 2, m - 1, k - 1);
        assert (Pow2(m) - 1) / 2 == Pow2(m - 1) - 1 && (Pow2(m) - 1) % 2 == 1;
      }
    }
  }

  lemma {:induction false} AndHighMask(a: nat, m: nat, k: nat)
    requires m <= k && a < Pow2(k)
    ensures And(a, Xor(Pow2(m) - 1, Pow2(k) - 1, k), k) == Lo(a, m)
  {
    if k > 0 {
      var low, ones := Pow2(m) - 1, Pow2(k) - 1;
      assert ones / 2 == Pow2(k - 1) - 1 && ones % 2 == 1;
      var below := if m == 0 then 0 else m - 1;
      assert low / 2 == Pow2(below) - 1 && low % 2 == Bit(m > 0);
      var mask := Xor(low, ones, k);
      assert mask / 2 == Xor(low / 2, ones / 2, k - 1) && mask % 2 == Bit(m == 0);
      AndHighMask(a / 2, below, k - 1);
    }
  }

  /** The bounds are the multiple of 2^m at or below the number, and the last number before the next. */
  lemma {:induction false} BoundsAre(a: nat, m: nat)
    ensures Lo(a, m) == Shr(a, m) * Pow2(m) && Hi(a, m) == Lo(a, m) + Pow2(m) - 1
  {
    if m > 0 {
      BoundsAre(a / 2, m - 1);
      var q, d := Shr(a / 2, m - 1), Pow2(m - 1);
      assert q * (2 * d) == 2 * (q * d);
    }
  }

  /** Between `Lo` and `Hi` lie exactly the numbers with the same bits above `m`. */
  lemma {:induction false} BlockIsPrefix(a: nat, m: nat, x: nat)
    ensures Lo(a, m) <= x <= Hi(a, m) <==> Shr(x, m) == Shr(a, m)
    ensures Lo(a, m) <= a <= Hi(a, m)
  {
    if m > 0 { BlockIsPrefix(a / 2, m - 1, x / 2); }
  }

  /** Numbers that agree above bit `n` agree above every higher bit. */
  lemma {:induction false} ShrMono(x: nat, y: nat, n: nat, m: nat)
    requires n <= m && Shr(x, n) == Shr(y, n)
    ensures Shr(x, m) == Shr(y, m)
  {
    if n > 0 {
      ShrMono(x / 2, y / 2, n - 1, m - 1);
    }
  }
}
