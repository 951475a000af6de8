/** What the functions and tables of SHA-256 are, bit by bit and root by root: sections 4.1.2, 4.2.2 and 5.3.3
    of FIPS 180-4. */
module Sha256Laws {
  import opened Common
  import opened Bits
  import opened BitMasks
  import opened Sha256Spec

  const WORD_BITS: nat := 32

  lemma WordPow(n: nat)
    requires n == WORD_BITS
    ensures Pow2(n) == M32
  {
    var h: nat :| h == 8;
    BytePow(h);
    hide Pow2;
    Pow2Add(h, h);
    Pow2Add(2 * h, 2 * h);
  }

  lemma BytePow(h: nat)
    requires h == 8
    ensures Pow2(h) == 256
  {
  }

  /** A word is determined by its 32 bits. */
  lemma SameWord(x: Word, y: Word)
    requires x < M32 && y < M32 && forall k: nat :: k < 32 ==> (Bit(x, k) <==> Bit(y, k))
    ensures x == y
  {
    hide Pow2, Bit;
    var n: nat :| n == WORD_BITS;
    WordPow(n);
    SameBits(x, y, n);
  }

  lemma NotBit(x: Word, k: nat)
    requires x < M32 && k < 32
    ensures Not32(x) < M32 && (Bit(Not32(x), k) <==> !Bit(x, k))
  {
    hide Pow2, Bit;
    var n: nat :| n == WORD_BITS;
    WordPow(n);
    BitNot(x, k, n);
  }

  lemma {:induction false} ShlBit(x: Word, n: nat, k: nat)
    requires x < M32
    ensures Shl32(x, n) < M32 && (Bit(Shl32(x, n), k) <==> n <= k < 32 && Bit(x, k - n))
    decreases n
  {
    hide Pow2, Bit;
    var w: nat :| w == WORD_BITS;
    WordPow(w);
    if n == 0 {
      if k >= 32 { BitHigh(x, w, k); }
    } else {
      ShlBit(2 * x % M32, n - 1, k);
      if n <= k + 1 {
        BitMod(2 * x, w, k - (n - 1));
        DoubleBit(x, k - (n - 1));
      }
    }
  }

  lemma DoubleBit(x: nat, k: nat)
    ensures Bit(2 * x, k) <==> k > 0 && Bit(x, k - 1)
  {
  }

  /** Rotation: bit k comes from bit k + n, around the word. */
  lemma RotrBit(x: Word, n: nat, k: nat)
    requires x < M32 && 0 < n < 32 && k < 32
    ensures Rotr(x, n) < M32 && (Bit(Rotr(x, n), k) <==> Bit(x, (k + n) % 32))
  {
    hide Pow2, Bit, Shr, Shl32, Or;
    var w: nat :| w == WORD_BITS;
    WordPow(w);
    BitOr(Shr(x, n), Shl32(x, 32 - n), k);
    BitShr(x, n, k);
    ShlBit(x, 32 - n, k);
    if n + k >= 32 { BitHigh(x, w, n + k); }
    ShrLe(x, n);
    OrBound(Shr(x, n), Shl32(x, 32 - n), w);
  }

  lemma {:induction false} ShrLe(x: nat, n: nat)
    ensures Shr(x, n) <= x
  {
    if n > 0 { ShrLe(x / 2, n - 1); }
  }

  lemma WordXor(a: Word, b: Word)
    requires a < M32 && b < M32
    ensures Xor(a, b) < M32
  {
    hide Pow2, Xor;
    var w: nat :| w == WORD_BITS;
    WordPow(w);
    XorBound(a, b, w);
  }

  lemma WordAnd(a: Word, b: Word)
    requires b < M32
    ensures And(a, b) < M32
  {
    hide And;
    AndLe(a, b);
  }

  /** Choice: where x has a one, y's bit; elsewhere z's. */
  lemma ChBit(x: Word, y: Word, z: Word, k: nat)
    requires x < M32 && y < M32 && z < M32 && k < 32
    ensures Ch(x, y, z) < M32 && (Bit(Ch(x, y, z), k) <==> if Bit(x, k) then Bit(y, k) else Bit(z, k))
  {
    hide Bit, And, Xor, Not32;
    NotBit(x, k);
    BitAnd(x, y, k);
    BitAnd(Not32(x), z, k);
    BitXor(And(x, y), And(Not32(x), z), k);
    WordAnd(x, y);
    WordAnd(Not32(x), z);
    WordXor(And(x, y), And(Not32(x), z));
  }

  /** Majority: the bit at least two of the three have. */
  lemma MajBit(x: Word, y: Word, z: Word, k: nat)
    requires x < M32 && y < M32 && z < M32 && k < 32
    ensures Maj(x, y, z) < M32
    ensures Bit(Maj(x, y, z), k) <==>
      (Bit(x, k) && Bit(y, k)) || (Bit(x, k) && Bit(z, k)) || (Bit(y, k) && Bit(z, k))
  {
    hide Bit, And, Xor;
    var a, b, c := And(x, y), And(x, z), And(y, z);
    BitAnd(x, y, k);
    BitAnd(x, z, k);
    BitAnd(y, z, k);
    BitXor(a, b, k);
    BitXor(Xor(a, b), c, k);
    WordAnd(x, y);
    WordAnd(x, z);
    WordAnd(y, z);
    WordXor(a, b);
    WordXor(Xor(a, b), c);
  }

  lemma Xor3(a: Word, b: Word, c: Word, k: nat)
    requires a < M32 && b < M32 && c < M32
    ensures Xor(Xor(a, b), c) < M32 && (Bit(Xor(Xor(a, b), c), k) <==> ((Bit(a, k) != Bit(b, k)) != Bit(c, k)))
  {
    hide Bit, Xor;
    BitXor(a, b, k);
    BitXor(Xor(a, b), c, k);
    WordXor(a, b);
    WordXor(Xor(a, b), c);
  }

  /** Each sigma is the exclusive OR of three bits of x: around the word, or zero beyond its end. */
  lemma SigmaBits(x: Word, k: nat)
    requires x < M32 && k < 32
    ensures BigSigma0(x) < M32 && BigSigma1(x) < M32 && Sigma0(x) < M32 && Sigma1(x) < M32
    ensures Bit(BigSigma0(x), k) <==> ((Bit(x, (k + 2) % 32) != Bit(x, (k + 13) % 32)) != Bit(x, (k + 22) % 32))
    ensures Bit(BigSigma1(x), k) <==> ((Bit(x, (k + 6) % 32) != Bit(x, (k + 11) % 32)) != Bit(x, (k + 25) % 32))
    ensures Bit(Sigma0(x), k) <==>
      ((Bit(x, (k + 7) % 32) != Bit(x, (k + 18) % 32)) != (k + 3 < 32 && Bit(x, k + 3)))
    ensures Bit(Sigma1(x), k) <==>
      ((Bit(x, (k + 17) % 32) != Bit(x, (k + 19) % 32)) != (k + 10 < 32 && Bit(x, k + 10)))
  {
    hide Bit, Xor, Rotr, Shr;
    RotrBit(x, 2, k); RotrBit(x, 13, k); RotrBit(x, 22, k);
    Xor3(Rotr(x, 2), Rotr(x, 13), Rotr(x, 22), k);
    RotrBit(x, 6, k); RotrBit(x, 11, k); RotrBit(x, 25, k);
    Xor3(Rotr(x, 6), Rotr(x, 11), Rotr(x, 25), k);
    RotrBit(x, 7, k); RotrBit(x, 18, k); ShrBit(x, 3, k);
    Xor3(Rotr(x, 7), Rotr(x, 18), Shr(x, 3), k);
    RotrBit(x, 17, k); RotrBit(x, 19, k); ShrBit(x, 10, k);
    Xor3(Rotr(x, 17), Rotr(x, 19), Shr(x, 10), k);
  }

  lemma ShrBit(x: Word, n: nat, k: nat)
    requires x < M32
    ensures Shr(x, n) < M32 && (Bit(Shr(x, n), k) <==> k + n < 32 && Bit(x, k + n))
  {
    hide Bit, Shr, Pow2;
    var w: nat :| w == WORD_BITS;
    WordPow(w);
    ShrLe(x, n);
    BitShr(x, n, k);
    if k + n >= 32 { BitHigh(x, w, n + k); }
  }
}

/** The primes up to 311, and the roots of them that SHA-256's tables are cut from. */
module Sha256Tables {
  import Bits
  import opened Common
  import opened Sha256Spec

  ghost predicate Prime(n: nat) {
    n >= 2 && forall d :: 2 <= d < n ==> n % d != 0
  }

  // the first 64 primes, sixteen to a row
  function P0(): (p: seq<nat>)
    ensures |p| == 16
  {
    [2, 3, 5, 7, 11, 13, 17, 19, 23, 29, 31, 37, 41, 43, 47, 53]
  }

  function P1(): (p: seq<nat>)
    ensures |p| == 16
  {
    [59, 61, 67, 71, 73, 79, 83, 89, 97, 101, 103, 107, 109, 113, 127, 131]
  }

  function P2(): (p: seq<nat>)
    ensures |p| == 16
  {
    [137, 139, 149, 151, 157, 163, 167, 173, 179, 181, 191, 193, 197, 199, 211, 223]
  }

  function P3(): (p: seq<nat>)
    ensures |p| == 16
  {
    [227, 229, 233, 239, 241, 251, 257, 263, 269, 271, 277, 281, 283, 293, 307, 311]
  }

  function Primes(): (p: seq<nat>)
    ensures |p| == 64
  {
    P0() + P1() + P2() + P3()
  }

  /** No prime below 19 divides n, except n itself. */
  predicate Sifted(n: nat) {
    && (n == 2 || n % 2 != 0) && (n == 3 || n % 3 != 0) && (n == 5 || n % 5 != 0) && (n == 7 || n % 7 != 0)
    && (n == 11 || n % 11 != 0) && (n == 13 || n % 13 != 0) && (n == 17 || n % 17 != 0)
  }

  /** Below 19 * 19 a composite number has a factor below 19. */
  lemma SiftedIsPrime(n: nat)
    requires 2 <= n < 361
    ensures Prime(n) <==> Sifted(n)
  {
    if Sifted(n) {
      forall d | 2 <= d < n ensures n % d != 0 {
        if n % d == 0 {
          var e := n / d;
          assert n == d * e;
          Factors(n, d, e);
        }
      }
    }
  }

  lemma Factors(n: nat, d: nat, e: nat)
    requires n == d * e && 2 <= d && 2 <= e && n < 361
    ensures !Sifted(n)
  {
    if d < 19 {
      SmallFactor(n, d, e);
    } else {
      if e >= 19 { Bits.MulGap(e, 18, d); }
      SmallFactor(n, e, d);
    }
  }

  function Least(d: nat): (p: nat)
    requires 2 <= d < 19
    ensures p >= 2 && d % p == 0
  {
    if d % 2 == 0 then 2 else if d % 3 == 0 then 3 else d
  }

  lemma SmallFactor(n: nat, d: nat, e: nat)
    requires n == d * e && 2 <= d < 19 && 2 <= e
    ensures !Sifted(n)
  {
    var p := Least(d);
    var f := d / p;
    assert d == p * f;
    Multiple(n, p, f, e);
    assert p in [2, 3, 5, 7, 11, 13, 17];
  }

  lemma Multiple(n: nat, p: nat, f: nat, e: nat)
    requires n == p * f * e && p > 0 && f > 0 && e >= 2
    ensures n % p == 0 && n != p
  {
    assert n == p * (f * e);
    assert f * e >= 2;
    Bits.MulGap(p, 1, f * e);
    Bits.DivUnique(n, p, f * e, 0);
  }

  /** q is the next sifted number after p. */
  predicate Next(p: nat, q: nat)
    decreases q - p
  {
    p < q && if p + 1 == q then Sifted(q) else !Sifted(p + 1) && Next(p + 1, q)
  }

  lemma {:induction false} NextMeans(p: nat, q: nat, n: nat)
    requires Next(p, q) && p < n <= q
    ensures Sifted(n) <==> n == q
    decreases q - p
  {
    if p + 1 < q && n != p + 1 { NextMeans(p + 1, q, n); }
  }

  lemma Gaps0()
    ensures Next(2, 3) && Next(3, 5) && Next(5, 7) && Next(7, 11)
    ensures Next(11, 13) && Next(13, 17) && Next(17, 19) && Next(19, 23)
    ensures Next(23, 29) && Next(29, 31) && Next(31, 37) && Next(37, 41)
    ensures Next(41, 43) && Next(43, 47) && Next(47, 53) && Next(53, 59)
  {
  }

  lemma Ordered0(t: nat)
    requires t < 16
    ensures Next(P0()[t], if t < 15 then P0()[t + 1] else P1()[0])
  {
    hide Next;
    Gaps0();
  }

  lemma Gaps1()
    ensures Next(59, 61) && Next(61, 67) && Next(67, 71) && Next(71, 73)
    ensures Next(73, 79) && Next(79, 83) && Next(83, 89) && Next(89, 97)
    ensures Next(97, 101) && Next(101, 103) && Next(103, 107) && Next(107, 109)
    ensures Next(109, 113) && Next(113, 127) && Next(127, 131) && Next(131, 137)
  {
  }

  lemma Ordered1(t: nat)
    requires t < 16
    ensures Next(P1()[t], if t < 15 then P1()[t + 1] else P2()[0])
  {
    hide Next;
    Gaps1();
  }

  lemma Gaps2()
    ensures Next(137, 139) && Next(139, 149) && Next(149, 151) && Next(151, 157)
    ensures Next(157, 163) && Next(163, 167) && Next(167, 173) && Next(173, 179)
    ensures Next(179, 181) && Next(181, 191) && Next(191, 193) && Next(193, 197)
    ensures Next(197, 199) && Next(199, 211) && Next(211, 223) && Next(223, 227)
  {
  }

  lemma Ordered2(t: nat)
    requires t < 16
    ensures Next(P2()[t], if t < 15 then P2()[t + 1] else P3()[0])
  {
    hide Next;
    Gaps2();
  }

  lemma Gaps3()
    ensures Next(227, 229) && Next(229, 233) && Next(233, 239) && Next(239, 241)
    ensures Next(241, 251) && Next(251, 257) && Next(257, 263) && Next(263, 269)
    ensures Next(269, 271) && Next(271, 277) && Next(277, 281) && Next(281, 283)
    ensures Next(283, 293) && Next(293, 307) && Next(307, 311)
  {
  }

  lemma Ordered3(t: nat)
    requires t < 15
    ensures Next(P3()[t], P3()[t + 1])
  {
    hide Next;
    Gaps3();
  }

  /** The list holds the first 64 primes: it starts at 2, and each entry is the next prime after the one before. */
  lemma PrimesInOrder(t: nat, n: nat)
    requires t < 64
    ensures Primes()[0] == 2 && Prime(Primes()[t]) && Primes()[t] < 343
    ensures t > 0 ==> Primes()[t - 1] < Primes()[t]
    ensures t > 0 && Primes()[t - 1] < n < Primes()[t] ==> !Prime(n)
  {
    Bounded(t);
    if t == 0 {
      SiftedIsPrime(2);
    } else {
      var p, q := Primes()[t - 1], Primes()[t];
      OrderedAt(t - 1);
      hide P0, P1, P2, P3, Sifted, Prime;
      SiftedIsPrime(q);
      NextMeans(p, q, q);
      if p < n < q {
        SiftedIsPrime(n);
        NextMeans(p, q, n);
      }
    }
  }

  lemma OrderedAt(t: nat)
    requires t < 63
    ensures Next(Primes()[t], Primes()[t + 1])
  {
    hide P0, P1, P2, P3, Next;
    if t < 16 { Ordered0(t); }
    else if t < 32 { Ordered1(t - 16); }
    else if t < 48 { Ordered2(t - 32); }
    else { Ordered3(t - 48); }
  }

  lemma Bounded(t: nat)
    requires t < 64
    ensures Primes()[0] == 2 && 2 <= Primes()[t] < 343
  {
    if t < 32 {
      assert Primes()[t] == if t < 16 then P0()[t] else P1()[t - 16];
    } else {
      assert Primes()[t] == if t < 48 then P2()[t - 32] else P3()[t - 48];
    }
  }

  // ---------------------------------------------------------------- roots

  function CubeRoot(p: nat): (c: nat)
    requires 1 <= p < 343
    ensures c * c * c <= p < (c + 1) * (c + 1) * (c + 1)
  {
    if p < 8 then 1 else if p < 27 then 2 else if p < 64 then 3 else if p < 125 then 4 else if p < 216 then 5 else 6
  }

  /** k holds the first 32 bits of the fractional part of the cube root of p: with the integer part before
      them they are the largest multiple of 2^-32 not above the root. */
  predicate CubeBits(p: nat, k: nat)
    requires 1 <= p < 343
  {
    var a := CubeRoot(p) * M32 + k;
    k < M32 && a * a * a <= p * (M32 * M32 * M32) < (a + 1) * (a + 1) * (a + 1)
  }

  lemma Cubes0(t: nat)
    requires t < 16
    ensures 1 <= P0()[t] < 343 && CubeBits(P0()[t], K0()[t])
  {
  }

  lemma Cubes1(t: nat)
    requires t < 16
    ensures 1 <= P1()[t] < 343 && CubeBits(P1()[t], K1()[t])
  {
  }

  lemma Cubes2(t: nat)
    requires t < 16
    ensures 1 <= P2()[t] < 343 && CubeBits(P2()[t], K2()[t])
  {
  }

  lemma Cubes3(t: nat)
    requires t < 16
    ensures 1 <= P3()[t] < 343 && CubeBits(P3()[t], K3()[t])
  {
  }

  /** Section 4.2.2: the round constants come from the cube roots of the first 64 primes. */
  lemma KIsCubeRoots(t: nat)
    requires t < 64
    ensures 1 <= Primes()[t] < 343 && CubeBits(Primes()[t], K()[t])
  {
    hide CubeBits, P0, P1, P2, P3, K0, K1, K2, K3;
    if t < 16 { Cubes0(t); }
    else if t < 32 { Cubes1(t - 16); }
    else if t < 48 { Cubes2(t - 32); }
    else { Cubes3(t - 48); }
  }

  function SquareRoot(p: nat): (c: nat)
    requires 1 <= p < 25
    ensures c * c <= p < (c + 1) * (c + 1)
  {
    if p < 4 then 1 else if p < 9 then 2 else if p < 16 then 3 else 4
  }

  predicate SquareBits(p: nat, k: nat)
    requires 1 <= p < 25
  {
    var a := SquareRoot(p) * M32 + k;
    k < M32 && a * a <= p * (M32 * M32) < (a + 1) * (a + 1)
  }

  /** Section 5.3.3: the initial hash value comes from the square roots of the first eight. */
  lemma IVIsSquareRoots(t: nat)
    requires t < 8
    ensures 1 <= Primes()[t] < 25 && SquareBits(Primes()[t], IV()[t])
  {
    assert Primes()[t] == P0()[t];
  }
}
