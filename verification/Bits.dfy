/** Bitwise OR, powers of two and division facts on natural numbers, for the parts of the
    system that pack fields into machine words. */
module Bits {

  function Pow2(k: nat): (p: nat)
    ensures p > 0
  {
    if k == 0 then 1 else 2 * Pow2(k - 1)
  }

  /** Bitwise OR. */
  function Or(a: nat, b: nat): (r: nat)
    decreases a + b
  {
    if a == 0 then b
    else if b == 0 then a
    else 2 * Or(a / 2, b / 2) + (if a % 2 == 1 || b % 2 == 1 then 1 else 0)
  }

  /** Bitwise AND. */
  function And(a: nat, b: nat): (r: nat) {
    if a == 0 || b == 0 then 0
    else 2 * And(a / 2, b / 2) + (if a % 2 == 1 && b % 2 == 1 then 1 else 0)
  }

  /** Bitwise exclusive OR. */
  function Xor(a: nat, b: nat): (r: nat)
    decreases a + b
  {
    if a == 0 then b
    else if b == 0 then a
    else 2 * Xor(a / 2, b / 2) + (if a % 2 != b % 2 then 1 else 0)
  }

  lemma MulGap(d: nat, a: nat, b: nat)
    requires a < b
    ensures d * a + d <= d * b
  {
    assert d * (a + 1) <= d * b;
  }

  lemma DivUnique(x: nat, d: nat, q: nat, r: nat)
    requires d > 0 && r < d && x == d * q + r
    ensures x / d == q && x % d == r
  {
    var p := x / d;
    assert x == d * p + x % d;
    if p < q {
      MulGap(d, p, q);
    } else if q < p {
      MulGap(d, q, p);
    }
  }

  lemma ModShift(m: nat, k: nat, x: nat)
    requires m > 0
    ensures (m * k + x) % m == x % m
  {
    assert m * k + x == m * (k + x / m) + x % m;
    DivUnique(m * k + x, m, k + x / m, x % m);
  }

  lemma {:induction false} Pow2Add(j: nat, k: nat)
    ensures Pow2(j + k) == Pow2(j) * Pow2(k)
  {
    if j > 0 {
      Pow2Add(j - 1, k);
    }
  }

  /** Halving an OR halves both operands. */
  lemma {:induction false} OrHalf(a: nat, b: nat)
    ensures Or(a, b) / 2 == Or(a / 2, b / 2)
    ensures Or(a, b) % 2 == if a % 2 == 1 || b % 2 == 1 then 1 else 0
  {
  }

  /** OR with bits below an aligned value is addition. */
  lemma {:induction false} OrDisjoint(a: nat, b: nat, k: nat)
    requires a % Pow2(k) == 0 && b < Pow2(k)
    ensures Or(a, b) == a + b
  {
    if a != 0 && b != 0 {
      assert k > 0;
      HalfMod(a, k);
      OrDisjoint(a / 2, b / 2, k - 1);
    }
  }

  lemma HalfMod(a: nat, k: nat)
    requires k > 0 && a % Pow2(k) == 0
    ensures a % 2 == 0 && (a / 2) % Pow2(k - 1) == 0
  {
    var q := a / Pow2(k);
    var p := Pow2(k - 1);
    assert a == q * (2 * p);
    assert a == 2 * (q * p);
    assert a / 2 == p * q + 0;
    DivUnique(a / 2, p, q, 0);
  }

  /** Dropping the low k bits, one at a time. */
  function Shr(x: nat, k: nat): nat {
    if k == 0 then x else Shr(x / 2, k - 1)
  }

  lemma {:induction false} ShrIsDiv(x: nat, k: nat)
    ensures Shr(x, k) == x / Pow2(k)
  {
    if k > 0 {
      ShrIsDiv(x / 2, k - 1);
      DivDiv(x, 2, Pow2(k - 1));
    }
  }

  /** OR commutes with dropping the low k bits. */
  lemma {:induction false} ShrOr(a: nat, b: nat, k: nat)
    ensures Shr(Or(a, b), k) == Or(Shr(a, k), Shr(b, k))
  {
    if k > 0 {
      OrHalf(a, b);
      ShrOr(a / 2, b / 2, k - 1);
    }
  }

  lemma DivDiv(x: nat, m: nat, n: nat)
    requires m > 0 && n > 0
    ensures m * n > 0 && x / m / n == x / (m * n)
  {
    var y := x / m;
    DivMod(x, m);
    DivMod(y, n);
    DivTwice(x, m, n, y / n, y % n, x % m);
  }

  lemma DivMod(x: nat, d: nat)
    requires d > 0
    ensures x == d * (x / d) + x % d
  {
  }

  lemma DivTwice(x: nat, m: nat, n: nat, q: nat, r: nat, s: nat)
    requires r < n && s < m && x == m * (n * q + r) + s
    ensures m * n > 0 && x / (m * n) == q
  {
    Spread(m, n, q, r);
    MulGap(m, r, n);
    DivUnique(x, m * n, q, m * r + s);
  }

  lemma Spread(m: nat, n: nat, q: nat, r: nat)
    ensures m * (n * q + r) == m * n * q + m * r
  {
  }

  lemma {:induction false} ShrPow2(k: nat)
    ensures Shr(Pow2(k), k) == 1
  {
    if k > 0 {
      ShrPow2(k - 1);
    }
  }

  /** The bit that was OR-ed in is set. */
  lemma {:induction false} OrSets(a: nat, k: nat)
    ensures Or(a, Pow2(k)) / Pow2(k) % 2 == 1
  {
    ShrOr(a, Pow2(k), k);
    ShrPow2(k);
    OrHalf(Shr(a, k), 1);
    ShrIsDiv(Or(a, Pow2(k)), k);
  }

  /** OR with a bit that is clear is addition. */
  lemma {:induction false} OrClearBit(a: nat, k: nat)
    requires Shr(a, k) % 2 == 0
    ensures Or(a, Pow2(k)) == a + Pow2(k)
  {
    if k > 0 {
      OrClearBit(a / 2, k - 1);
    }
  }

  lemma {:induction false} XorHalf(a: nat, b: nat)
    ensures Xor(a, b) / 2 == Xor(a / 2, b / 2)
    ensures Xor(a, b) % 2 == if a % 2 != b % 2 then 1 else 0
  {
  }

  /** XOR with the same value twice changes nothing. */
  lemma {:induction false} XorInverse(a: nat, b: nat)
    ensures Xor(Xor(a, b), b) == a
    decreases a + b
  {
    if a != 0 || b != 0 {
      XorInverse(a / 2, b / 2);
      XorHalf(a, b);
      XorHalf(Xor(a, b), b);
    }
  }

  lemma {:induction false} XorSym(a: nat, b: nat)
    ensures Xor(a, b) == Xor(b, a)
    decreases a + b
  {
    if a != 0 && b != 0 { XorSym(a / 2, b / 2); }
  }

  lemma {:induction false} XorBound(a: nat, b: nat, k: nat)
    requires a < Pow2(k) && b < Pow2(k)
    ensures Xor(a, b) < Pow2(k)
  {
    if k > 0 {
      XorBound(a / 2, b / 2, k - 1);
      XorHalf(a, b);
    }
  }
}
