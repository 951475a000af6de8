/** Single bits of natural numbers, and AND with a run of ones. */
module BitMasks {
  import opened Bits

  predicate Bit(x: nat, k: nat) { Shr(x, k) % 2 == 1 }

  /** Complement in an n-bit word. */
  function Not(x: nat, n: nat): nat
    requires x < Pow2(n)
  {
    Pow2(n) - 1 - x
  }

  lemma AndHalf(a: nat, b: nat)
    ensures And(a, b) / 2 == And(a / 2, b / 2)
    ensures And(a, b) % 2 == if a % 2 == 1 && b % 2 == 1 then 1 else 0
  {
  }

  lemma {:induction false} BitAnd(a: nat, b: nat, k: nat)
    ensures Bit(And(a, b), k) <==> Bit(a, k) && Bit(b, k)
  {
    AndHalf(a, b);
    if k > 0 { BitAnd(a / 2, b / 2, k - 1); }
  }

  lemma {:induction false} BitOr(a: nat, b: nat, k: nat)
    ensures Bit(Or(a, b), k) <==> Bit(a, k) || Bit(b, k)
  {
    OrHalf(a, b);
    if k > 0 { BitOr(a / 2, b / 2, k - 1); }
  }

  lemma {:induction false} OrBound(a: nat, b: nat, k: nat)
    requires a < Pow2(k) && b < Pow2(k)
    ensures Or(a, b) < Pow2(k)
  {
    if k > 0 {
      OrBound(a / 2, b / 2, k - 1);
      OrHalf(a, b);
    }
  }

  lemma {:induction false} BitNot(x: nat, k: nat, n: nat)
    requires x < Pow2(n) && k < n
    ensures Bit(Not(x, n), k) <==> !Bit(x, k)
  {
    assert Not(x, n) / 2 == Not(x / 2, n - 1);
    if k > 0 { BitNot(x / 2, k - 1, n - 1); }
  }

  lemma {:induction false} BitPow2(j: nat, k: nat)
    ensures Bit(Pow2(j), k) <==> j == k
  {
    if k > 0 {
      if j > 0 {
        BitPow2(j - 1, k - 1);
      } else {
        ShrZero(k - 1);
      }
    }
  }

  lemma {:induction false} ShrZero(k: nat)
    ensures Shr(0, k) == 0
  {
    if k > 0 { ShrZero(k - 1); }
  }

  lemma {:induction false} AndPow2(a: nat, k: nat)
    ensures And(a, Pow2(k)) == if Bit(a, k) then Pow2(k) else 0
  {
    if k > 0 {
      AndPow2(a / 2, k - 1);
    }
    AndHalf(a, Pow2(k));
    if k == 0 { AndZero(a / 2); }
  }

  lemma AndZero(a: nat)
    ensures And(a, 0) == 0
  {
  }

  lemma {:induction false} Pow2Mono(j: nat, k: nat)
    requires j <= k
    ensures Pow2(j) <= Pow2(k)
  {
    if j < k { Pow2Mono(j, k - 1); }
  }

  /** The bits j..w-1 of a number, in place. */
  function Field(x: nat, j: nat, w: nat): nat { x % Pow2(w) / Pow2(j) * Pow2(j) }

  lemma {:induction false} AndLow(x: nat, w: nat)
    ensures And(x, Pow2(w) - 1) == Field(x, 0, w)
  {
    if w == 0 {
      AndZero(x);
    } else {
      AndLow(x / 2, w - 1);
      AndHalf(x, Pow2(w) - 1);
      FieldLow(x, w);
    }
  }

  /** AND with the mask of bits j..w-1 keeps exactly those bits. */
  lemma {:induction false} AndField(x: nat, j: nat, w: nat)
    requires j <= w
    ensures Pow2(j) <= Pow2(w) && And(x, Pow2(w) - Pow2(j)) == Field(x, j, w)
    decreases w
  {
    hide Field, And;
    Pow2Mono(j, w);
    if j == 0 {
      AndLow(x, w);
    } else {
      var m := Pow2(w) - Pow2(j);
      AndField(x / 2, j - 1, w - 1);
      AndHalf(x, m);
      assert m / 2 == Pow2(w - 1) - Pow2(j - 1) && m % 2 == 0;
      FieldHalf(x, j, w);
    }
  }

  lemma {:induction false} AndLe(a: nat, b: nat)
    ensures And(a, b) <= b
  {
    if a != 0 && b != 0 { AndLe(a / 2, b / 2); }
  }

  lemma ModHalf(x: nat, w: nat)
    requires w > 0
    ensures x % Pow2(w) == 2 * (x / 2 % Pow2(w - 1)) + x % 2
  {
    var p := Pow2(w - 1);
    var q, r := x / 2 / p, x / 2 % p;
    assert x / 2 == p * q + r;
    assert x == 2 * (p * q + r) + x % 2;
    assert 2 * (p * q) == 2 * p * q;
    DivUnique(x, 2 * p, q, 2 * r + x % 2);
  }

  lemma FieldHalf(x: nat, j: nat, w: nat)
    requires 0 < j <= w
    ensures Field(x, j, w) == 2 * Field(x / 2, j - 1, w - 1)
  {
    ModHalf(x, w);
    var y, p := x % Pow2(w), Pow2(j - 1);
    DivDiv(y, 2, p);
    assert y / 2 == x / 2 % Pow2(w - 1);
    assert y / (2 * p) == y / 2 / p;
    Twice(y / 2 / p, p);
  }

  lemma Twice(a: nat, p: nat)
    ensures a * (2 * p) == 2 * (a * p)
  {
  }

  lemma FieldLow(x: nat, w: nat)
    requires w > 0
    ensures Field(x, 0, w) == 2 * Field(x / 2, 0, w - 1) + x % 2
  {
    ModHalf(x, w);
  }

  lemma ThirdZero(x: nat, a: nat, b: nat)
    requires a > 0 && b > 0 && x % (a * b) == 0
    ensures x % a == 0
  {
    DivDiv(x, a, b);
    var q := x / (a * b);
    assert x == a * b * q;
    Regroup(a, b, q);
    DivUnique(x, a, b * q, 0);
  }

  lemma Regroup(a: nat, b: nat, q: nat)
    ensures a * b * q == a * (b * q)
  {
  }

  /** A multiple of a larger power of two is a multiple of a smaller one. */
  lemma Divides(x: nat, j: nat, k: nat)
    requires j <= k && x % Pow2(k) == 0
    ensures x % Pow2(j) == 0
  {
    hide Pow2;
    Pow2Add(j, k - j);
    ThirdZero(x, Pow2(j), Pow2(k - j));
  }

  lemma {:induction false} BitXor(a: nat, b: nat, k: nat)
    ensures Bit(Xor(a, b), k) <==> Bit(a, k) != Bit(b, k)
  {
    XorHalf(a, b);
    if k > 0 { BitXor(a / 2, b / 2, k - 1); }
  }

  lemma {:induction false} BitShr(x: nat, n: nat, k: nat)
    ensures Bit(Shr(x, n), k) <==> Bit(x, n + k)
  {
    if n > 0 { BitShr(x / 2, n - 1, k); }
  }

  /** A number below 2^n has no bit from n on. */
  lemma {:induction false} BitHigh(x: nat, n: nat, k: nat)
    requires x < Pow2(n) && n <= k
    ensures !Bit(x, k)
  {
    if n == 0 {
      ShrZero(k);
    } else {
      BitHigh(x / 2, n - 1, k - 1);
    }
  }

  lemma BitStep(x: nat, k: nat)
    ensures Bit(x, 0) <==> x % 2 == 1
    ensures k > 0 ==> (Bit(x, k) <==> Bit(x / 2, k - 1))
  {
  }

  lemma {:induction false} BitMod(x: nat, n: nat, k: nat)
    ensures Bit(x % Pow2(n), k) <==> k < n && Bit(x, k)
  {
    if n == 0 {
      ShrZero(k);
    } else {
      var y := x % Pow2(n);
      assert y == 2 * (x / 2 % Pow2(n - 1)) + x % 2 by { ModHalf(x, n); }
      hide Pow2, Bit;
      BitStep(x, k);
      BitStep(y, k);
      if k > 0 { BitMod(x / 2, n - 1, k - 1); }
    }
  }

  /** Numbers below 2^n with the same bits are the same. */
  lemma {:induction false} SameBits(a: nat, b: nat, n: nat)
    requires a < Pow2(n) && b < Pow2(n) && forall k: nat :: k < n ==> (Bit(a, k) <==> Bit(b, k))
    ensures a == b
  {
    if n > 0 {
      assert Bit(a, 0) <==> Bit(b, 0);
      forall k: nat | k < n - 1 ensures Bit(a / 2, k) <==> Bit(b / 2, k) {
        assert Bit(a, k + 1) <==> Bit(b, k + 1);
      }
      SameBits(a / 2, b / 2, n - 1);
    }
  }
}
