/** Bitwise operators of Rust's unsigned integers, on naturals.

    Every machine word of the model is a natural number; `And` and `Or` are the
    usual bit-by-bit operators, and the lemmas relate them to division and
    remainder, which is how the rest of the project reasons about fields. */
module Bits {
  import opened Words

  function Pow2(n: nat): (p: nat)
    ensures p > 0
  {
    if n == 0 then 1 else 2 * Pow2(n - 1)
  }

  function And(a: nat, b: nat): (r: nat)
    ensures r <= a && r <= b
  {
    if a == 0 || b == 0 then 0
    else 2 * And(a / 2, b / 2) + (if a % 2 + b % 2 == 2 then 1 else 0)
  }

  function Or(a: nat, b: nat): (r: nat)
    ensures a <= r && b <= r && r <= a + b
    decreases a + b
  {
    if a == 0 then b
    else if b == 0 then a
    else 2 * Or(a / 2, b / 2) + (if a % 2 + b % 2 == 0 then 0 else 1)
  }

  /** The complement of a 32-bit word. */
  function Not32(a: nat): (r: nat)
    requires a < U32_SIZE
    ensures r < U32_SIZE
  {
    U32_SIZE - 1 - a
  }

  predicate Bit(x: nat, k: nat) {
    if k == 0 then x % 2 == 1 else Bit(x / 2, k - 1)
  }

  lemma Pow2Add(m: nat, n: nat)
    ensures Pow2(m + n) == Pow2(m) * Pow2(n)
  {
    if m > 0 {
      Pow2Add(m - 1, n);
      assert Pow2(m + n) == 2 * Pow2(m - 1 + n);
    }
  }

  /** The powers of two that the project's masks and fields are made of. */
  lemma Powers()
    ensures Pow2(1) == 0x2 && Pow2(2) == 0x4 && Pow2(3) == 0x8 && Pow2(4) == 0x10
    ensures Pow2(6) == 0x40 && Pow2(7) == 0x80 && Pow2(8) == 0x100 && Pow2(9) == 0x200
    ensures Pow2(10) == 0x400 && Pow2(12) == 0x1000
  {
    assert Pow2(1) == 2 * Pow2(0);
    assert Pow2(2) == 2 * Pow2(1);
    assert Pow2(3) == 2 * Pow2(2);
    assert Pow2(4) == 2 * Pow2(3);
    assert Pow2(5) == 2 * Pow2(4);
    assert Pow2(6) == 2 * Pow2(5);
    assert Pow2(7) == 2 * Pow2(6);
    assert Pow2(8) == 2 * Pow2(7);
    assert Pow2(9) == 2 * Pow2(8);
    assert Pow2(10) == 2 * Pow2(9);
    assert Pow2(11) == 2 * Pow2(10);
    assert Pow2(12) == 2 * Pow2(11);
  }

  lemma WidePowers()
    ensures Pow2(16) == 0x1_0000 && Pow2(30) == 0x4000_0000 && Pow2(32) == U32_SIZE && Pow2(36) == 0x10_0000_0000
      && Pow2(40) == 0x100_0000_0000
    ensures Pow2(44) == 0x1000_0000_0000 && Pow2(52) == 0x10_0000_0000_0000
    ensures Pow2(53) == 0x20_0000_0000_0000 && Pow2(54) == 0x40_0000_0000_0000
    ensures Pow2(63) == 0x8000_0000_0000_0000
  {
    Powers();
    Pow2Add(8, 8);
    Pow2Add(10, 10);
    Pow2Add(20, 10);
    Pow2Add(16, 16);
    Pow2Add(32, 4);
    Pow2Add(32, 8);
    Pow2Add(40, 4);
    Pow2Add(40, 12);
    Pow2Add(52, 1);
    Pow2Add(52, 2);
    Pow2Add(54, 9);
  }

  /** The exponents of the powers of two that stand for fields. */
  lemma ExponentOf(p: nat) returns (k: nat)
    requires p in {0x4, 0x8, 0x80, 0x400, 0x1000, 0x4000_0000, 0x10_0000_0000, 0x100_0000_0000,
      0x10_0000_0000_0000, 0x20_0000_0000_0000, 0x8000_0000_0000_0000}
    ensures Pow2(k) == p && (p >= 0x1000 ==> k >= 12)
  {
    Powers();
    WidePowers();
    k := if p == 0x4 then 2 else if p == 0x8 then 3 else if p == 0x80 then 7 else if p == 0x400 then 10
      else if p == 0x1000 then 12 else if p == 0x4000_0000 then 30 else if p == 0x10_0000_0000 then 36
      else if p == 0x100_0000_0000 then 40 else if p == 0x10_0000_0000_0000 then 52
      else if p == 0x20_0000_0000_0000 then 53 else 63;
  }

  lemma HalfOfScaled(x: nat, k: nat)
    requires k > 0
    ensures (x * Pow2(k)) / 2 == x * Pow2(k - 1) && (x * Pow2(k)) % 2 == 0
  {
    assert x * Pow2(k) == 2 * (x * Pow2(k - 1));
  }

  lemma DivPow2Step(x: nat, k: nat)
    requires k > 0
    ensures x / Pow2(k) == (x / 2) / Pow2(k - 1)
  {
    var q, r := (x / 2) / Pow2(k - 1), (x / 2) % Pow2(k - 1);
    assert x / 2 == q * Pow2(k - 1) + r;
    assert x == q * Pow2(k) + (2 * r + x % 2);
    QuotientIs(x, Pow2(k), q, 2 * r + x % 2);
  }

  lemma ModPow2Step(x: nat, k: nat)
    requires k > 0
    ensures x % Pow2(k) == 2 * ((x / 2) % Pow2(k - 1)) + x % 2
  {
    var q, r := (x / 2) / Pow2(k - 1), (x / 2) % Pow2(k - 1);
    assert x / 2 == q * Pow2(k - 1) + r;
    assert x == q * Pow2(k) + (2 * r + x % 2);
    QuotientIs(x, Pow2(k), q, 2 * r + x % 2);
  }

  lemma AtLeastOne(a: int, d: int)
    requires a >= 1 && d > 0
    ensures a * d >= d
  {
  }

  lemma QuotientIs(x: int, d: int, q: int, r: int)
    requires d > 0 && x == q * d + r && 0 <= r < d
    ensures x / d == q && x % d == r
  {
    var gap := q - x / d;
    assert gap * d == x % d - r;
    if gap >= 1 {
      AtLeastOne(gap, d);
      assert false;
    } else if gap <= -1 {
      AtLeastOne(-gap, d);
      assert false;
    }
  }

  /** Adding a multiple of `r * w` does not disturb the field of size `r` at `w`. */
  lemma FieldAbove(x: nat, k: nat, r: nat, w: nat, low: nat)
    requires r > 0 && w > 0 && x == k * r * w
    ensures (x + low) / w % r == low / w % r
  {
    var d := low / w;
    assert x + low == (k * r + d) * w + low % w;
    QuotientIs(x + low, w, k * r + d, low % w);
    assert k * r + d == (k + d / r) * r + d % r;
    QuotientIs(k * r + d, r, k + d / r, d % r);
  }

  /** Or of a multiple of 2^k with a value below 2^k is their sum. */
  lemma {:induction false} OrDisjoint(hi: nat, k: nat, lo: nat)
    requires lo < Pow2(k)
    ensures Or(hi * Pow2(k), lo) == hi * Pow2(k) + lo
    ensures Or(lo, hi * Pow2(k)) == hi * Pow2(k) + lo
  {
    if k > 0 && hi > 0 && lo > 0 {
      HalfOfScaled(hi, k);
      OrDisjoint(hi, k - 1, lo / 2);
      assert hi * Pow2(k) > 0;
    }
  }

  /** The same, with the power of two as a number. */
  lemma OrAt(hi: nat, k: nat, p: nat, lo: nat)
    requires p == Pow2(k) && lo < p
    ensures Or(hi * p, lo) == hi * p + lo
  {
    OrDisjoint(hi, k, lo);
  }

  lemma {:induction false} OrAssociates(a: nat, b: nat, c: nat)
    ensures Or(Or(a, b), c) == Or(a, Or(b, c))
    decreases a + b + c
  {
    if a > 0 && b > 0 && c > 0 {
      OrAssociates(a / 2, b / 2, c / 2);
      OrHalves(a, b);
      OrHalves(b, c);
      OrHalves(Or(a, b), c);
      OrHalves(a, Or(b, c));
    }
  }

  /** Three values, put together in either order. */
  lemma OrThree(a: nat, b: nat, c: nat, ab: nat, bc: nat)
    requires ab == Or(a, b) && bc == Or(b, c)
    ensures Or(ab, c) == Or(a, bc)
  {
    OrAssociates(a, b, c);
  }

  lemma OrHalves(a: nat, b: nat)
    ensures Or(a, b) / 2 == Or(a / 2, b / 2)
    ensures Or(a, b) % 2 == if a % 2 + b % 2 == 0 then 0 else 1
  {
  }

  function Ones(n: nat): (m: nat)
    ensures m == Pow2(n) - 1
  {
    Pow2(n) - 1
  }

  /** Masking with n ones above k zeros extracts the field of n bits at k. */
  lemma {:induction false} AndField(x: nat, k: nat, n: nat)
    ensures And(x, Ones(n) * Pow2(k)) == (x / Pow2(k) % Pow2(n)) * Pow2(k)
    decreases k
  {
    if k == 0 {
      AndLow(x, n);
      assert Ones(n) * Pow2(0) == Ones(n);
      assert x / Pow2(0) == x;
    } else {
      AndField(x / 2, k - 1, n);
      DivPow2Step(x, k);
      AndEvenMask(x, Ones(n), k);
      DoubleScaled(x / Pow2(k) % Pow2(n), k);
    }
  }

  /** The same, with the powers of two as numbers. */
  lemma MaskAt(x: nat, k: nat, n: nat, p: nat, q: nat, mask: nat)
    requires p == Pow2(k) && q == Pow2(n) && mask == (q - 1) * p
    ensures And(x, mask) == (x / p % q) * p
  {
    AndField(x, k, n);
  }

  /** A field that holds its whole value. */
  lemma FieldIsWhole(q: nat, size: nat)
    requires q < size
    ensures q % size == q
  {
    QuotientIs(q, size, 0, q);
  }

  lemma DoubleScaled(f: nat, k: nat)
    requires k > 0
    ensures 2 * (f * Pow2(k - 1)) == f * Pow2(k)
  {
  }

  lemma AndEvenMask(x: nat, m: nat, k: nat)
    requires k > 0
    ensures And(x, m * Pow2(k)) == 2 * And(x / 2, m * Pow2(k - 1))
  {
    HalfOfScaled(m, k);
  }

  lemma AndHalves(a: nat, b: nat)
    ensures And(a, b) == 2 * And(a / 2, b / 2) + (if a % 2 + b % 2 == 2 then 1 else 0)
  {
  }

  lemma OnesHalves(n: nat)
    requires n > 0
    ensures Ones(n) / 2 == Ones(n - 1) && Ones(n) % 2 == 1
  {
  }

  lemma {:induction false} AndLow(x: nat, n: nat)
    ensures And(x, Ones(n)) == x % Pow2(n)
  {
    if x == 0 {
      QuotientIs(0, Pow2(n), 0, 0);
    } else if n > 0 {
      AndLow(x / 2, n - 1);
      OnesHalves(n);
      AndHalves(x, Ones(n));
      ModPow2Step(x, n);
    }
  }

  lemma {:induction false} BitAnd(a: nat, b: nat, k: nat)
    ensures Bit(And(a, b), k) <==> Bit(a, k) && Bit(b, k)
  {
    if a == 0 || b == 0 {
      BitZero(k);
    } else if k > 0 {
      BitAnd(a / 2, b / 2, k - 1);
    }
  }

  lemma {:induction false} BitOr(a: nat, b: nat, k: nat)
    ensures Bit(Or(a, b), k) <==> Bit(a, k) || Bit(b, k)
  {
    if a == 0 || b == 0 {
      BitZero(k);
    } else if k > 0 {
      BitOr(a / 2, b / 2, k - 1);
    }
  }

  lemma {:induction false} BitZero(k: nat)
    ensures !Bit(0, k)
  {
    if k > 0 {
      BitZero(k - 1);
    }
  }

  lemma {:induction false} BitOfPow2(j: nat, k: nat)
    ensures Bit(Pow2(j), k) <==> j == k
  {
    if j == 0 {
      if k > 0 {
        BitZero(k - 1);
      }
    } else if k > 0 {
      BitOfPow2(j - 1, k - 1);
    }
  }

  /** The bits of a complement, within its width. */
  lemma ComplementHalves(p: nat, a: nat)
    requires a < 2 * p
    ensures (2 * p - 1 - a) / 2 == p - 1 - a / 2 && (2 * p - 1 - a) % 2 == 1 - a % 2
  {
  }

  lemma {:induction false} BitComplement(a: nat, n: nat, k: nat)
    requires a < Pow2(n) && k < n
    ensures Bit(Pow2(n) - 1 - a, k) <==> !Bit(a, k)
  {
    ComplementHalves(Pow2(n - 1), a);
    if k > 0 {
      BitComplement(a / 2, n - 1, k - 1);
    }
  }

  lemma {:induction false} OrBelow(a: nat, b: nat, n: nat)
    requires a < Pow2(n) && b < Pow2(n)
    ensures Or(a, b) < Pow2(n)
  {
    if n > 0 && a > 0 && b > 0 {
      OrBelow(a / 2, b / 2, n - 1);
    }
  }

  lemma {:induction false} Pow2Monotone(m: nat, n: nat)
    requires m <= n
    ensures Pow2(m) <= Pow2(n)
  {
    if m < n {
      Pow2Monotone(m, n - 1);
    }
  }
}
