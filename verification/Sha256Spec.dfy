/** Iterating a block function over data cut into 64-element blocks. */
module Chaining {

  function Chain<S, B>(f: (S, seq<B>) -> S, s: S, data: seq<B>): (r: S)
    requires |data| % 64 == 0
    decreases |data|
  {
    if data == [] then s else Chain(f, f(s, data[..64]), data[64..])
  }

  lemma {:induction false} ChainAppend<S, B>(f: (S, seq<B>) -> S, s: S, a: seq<B>, b: seq<B>)
    requires |a| % 64 == 0 && |b| % 64 == 0
    ensures |a + b| % 64 == 0
    ensures Chain(f, s, a + b) == Chain(f, Chain(f, s, a), b)
    decreases |a|
  {
    if a == [] {
      assert a + b == b;
    } else {
      ChainAppend(f, f(s, a[..64]), a[64..], b);
      assert (a + b)[..64] == a[..64] && (a + b)[64..] == a[64..] + b;
    }
  }

  lemma ChainBlock<S, B>(f: (S, seq<B>) -> S, s: S, a: seq<B>, block: seq<B>)
    requires |a| % 64 == 0 && |block| == 64
    ensures |a + block| % 64 == 0
    ensures Chain(f, s, a + block) == f(Chain(f, s, a), block)
  {
    ChainAppend(f, s, a, block);
    assert block[..64] == block && block[64..] == [];
  }

  /** Elements of m that fill whole blocks. */
  function Full<B>(m: seq<B>): (n: nat)
    ensures n <= |m| && n % 64 == 0 && |m| - n == |m| % 64
  {
    |m| / 64 * 64
  }

  /** Data that does not complete the open block leaves the whole blocks alone. */
  lemma ShortAppend<B>(m: seq<B>, d: seq<B>)
    requires |m| % 64 + |d| < 64
    ensures Full(m + d) == Full(m) && (m + d)[..Full(m)] == m[..Full(m)] && (m + d)[Full(m)..] == m[Full(m)..] + d
    ensures |m + d| % 64 == |m| % 64 + |d|
  {
  }

  /** Data that completes the open block: close it with the first k elements, chain over what
      is whole in the remainder, keep the rest. */
  lemma LongAppend<S, B>(f: (S, seq<B>) -> S, s: S, m: seq<B>, d: seq<B>, k: nat)
    requires k <= |d| && (|m| + k) % 64 == 0 && |m| % 64 + k <= 64
    ensures var rest := d[k..];
            && Full(m + d) == |m| + k + Full(rest)
            && (m + d)[Full(m + d)..] == rest[Full(rest)..]
            && |m + d| % 64 == |rest| % 64
            && Chain(f, s, (m + d)[..Full(m + d)]) == Chain(f, Chain(f, s, m + d[..k]), rest[..Full(rest)])
  {
    var rest := d[k..];
    assert (m + d)[..Full(m + d)] == (m + d[..k]) + rest[..Full(rest)];
    ChainAppend(f, s, m + d[..k], rest[..Full(rest)]);
  }

  /** ... where the closed block is the open one plus those k elements. */
  lemma CloseBlock<S, B>(f: (S, seq<B>) -> S, s: S, m: seq<B>, d: seq<B>, k: nat)
    requires k <= |d| && |m| % 64 + k == 64
    ensures (|m| + k) % 64 == 0
    ensures Chain(f, s, m + d[..k]) == f(Chain(f, s, m[..Full(m)]), m[Full(m)..] + d[..k])
  {
    hide Full, Chain;
    var done, open := m[..Full(m)], m[Full(m)..] + d[..k];
    assert m + d[..k] == done + open;
    ChainBlock(f, s, done, open);
  }

  /** What every step keeps, the chain keeps. */
  lemma {:induction false} ChainKeeps<S(!new), B(!new)>(good: S -> bool, f: (S, seq<B>) -> S, s: S, data: seq<B>)
    requires |data| % 64 == 0 && good(s)
    requires forall x, b :: good(x) && |b| == 64 ==> good(f(x, b))
    ensures good(Chain(f, s, data))
    decreases |data|
  {
    if data != [] {
      ChainKeeps(good, f, f(s, data[..64]), data[64..]);
    }
  }
}

/** SHA-256 as FIPS 180-4 defines it, for messages of whole bytes: padding (section 5.1.1),
    parsing (5.2.1), the hash computation (6.2.2).  Words are natural numbers; every addition
    is modulo 2^32. */
module Sha256Spec {
  import opened Common
  import opened Bits
  import opened Chaining

  type Word = nat

  const ROUNDS: nat := 64

  // ---------------------------------------------------------------- section 4.1.2

  /** Left shift, dropping what leaves the word. */
  function Shl32(x: Word, n: nat): Word
    decreases n
  {
    if n == 0 then x else Shl32(2 * x % M32, n - 1)
  }

  function Rotr(x: Word, n: nat): Word
    requires n <= 32
  {
    Or(Shr(x, n), Shl32(x, 32 - n))
  }

  function Not32(x: Word): Word { if x < M32 then M32 - 1 - x else 0 }

  function Ch(x: Word, y: Word, z: Word): Word { Xor(And(x, y), And(Not32(x), z)) }
  function Maj(x: Word, y: Word, z: Word): Word { Xor(Xor(And(x, y), And(x, z)), And(y, z)) }
  function BigSigma0(x: Word): Word { Xor(Xor(Rotr(x, 2), Rotr(x, 13)), Rotr(x, 22)) }
  function BigSigma1(x: Word): Word { Xor(Xor(Rotr(x, 6), Rotr(x, 11)), Rotr(x, 25)) }
  function Sigma0(x: Word): Word { Xor(Xor(Rotr(x, 7), Rotr(x, 18)), Shr(x, 3)) }
  function Sigma1(x: Word): Word { Xor(Xor(Rotr(x, 17), Rotr(x, 19)), Shr(x, 10)) }

  // ---------------------------------------------------------------- section 4.2.2

  function K(): (k: seq<Word>)
    ensures |k| == 64
  {
    K0() + K1() + K2() + K3()
  }

  function K0(): (k: seq<Word>)
    ensures |k| == 16
  {
    [0x428a2f98, 0x71374491, 0xb5c0fbcf, 0xe9b5dba5, 0x3956c25b, 0x59f111f1, 0x923f82a4, 0xab1c5ed5,
     0xd807aa98, 0x12835b01, 0x243185be, 0x550c7dc3, 0x72be5d74, 0x80deb1fe, 0x9bdc06a7, 0xc19bf174]
  }

  function K1(): (k: seq<Word>)
    ensures |k| == 16
  {
    [0xe49b69c1, 0xefbe4786, 0x0fc19dc6, 0x240ca1cc, 0x2de92c6f, 0x4a7484aa, 0x5cb0a9dc, 0x76f988da,
     0x983e5152, 0xa831c66d, 0xb00327c8, 0xbf597fc7, 0xc6e00bf3, 0xd5a79147, 0x06ca6351, 0x14292967]
  }

  function K2(): (k: seq<Word>)
    ensures |k| == 16
  {
    [0x27b70a85, 0x2e1b2138, 0x4d2c6dfc, 0x53380d13, 0x650a7354, 0x766a0abb, 0x81c2c92e, 0x92722c85,
     0xa2bfe8a1, 0xa81a664b, 0xc24b8b70, 0xc76c51a3, 0xd192e819, 0xd6990624, 0xf40e3585, 0x106aa070]
  }

  function K3(): (k: seq<Word>)
    ensures |k| == 16
  {
    [0x19a4c116, 0x1e376c08, 0x2748774c, 0x34b0bcb5, 0x391c0cb3, 0x4ed8aa4a, 0x5b9cca4f, 0x682e6ff3,
     0x748f82ee, 0x78a5636f, 0x84c87814, 0x8cc70208, 0x90befffa, 0xa4506ceb, 0xbef9a3f7, 0xc67178f2]
  }

  // ---------------------------------------------------------------- section 5.3.3

  function IV(): (h: seq<Word>)
    ensures |h| == 8
  {
    [0x6a09e667, 0xbb67ae85, 0x3c6ef372, 0xa54ff53a, 0x510e527f, 0x9b05688c, 0x1f83d9ab, 0x5be0cd19]
  }

  // ---------------------------------------------------------------- section 5.1.1

  /** Big-endian bytes of x, n of them. */
  function BigEndian(x: nat, n: nat): (b: seq<Byte>)
    ensures |b| == n
  {
    if n == 0 then [] else BigEndian(x / 256, n - 1) + [x % 256]
  }

  /** The least number of zero bytes that leaves 8 bytes of the last block for the length. */
  function ZeroPad(n: nat): (z: nat)
    ensures z < 64 && (n + 1 + z + 8) % 64 == 0
  {
    (119 - n % 64) % 64
  }

  /** For messages shorter than 2^61 bytes the length field is the exact bit length. */
  function Pad(m: seq<Byte>): (p: seq<Byte>)
    ensures |p| % 64 == 0
  {
    m + [0x80] + Zeros(ZeroPad(|m|)) + BigEndian(8 * |m| % M64, 8)
  }

  // ---------------------------------------------------------------- section 5.2.1

  /** The t-th big-endian word of a block. */
  function BlockWord(block: seq<Byte>, t: nat): Word
    requires |block| == 64 && t < 16
  {
    var b0: nat, b1: nat, b2: nat, b3: nat := block[4 * t], block[4 * t + 1], block[4 * t + 2], block[4 * t + 3];
    b0 * 0x100_0000 + b1 * 0x1_0000 + b2 * 0x100 + b3
  }

  // ---------------------------------------------------------------- section 6.2.2

  function W(block: seq<Byte>, t: nat): Word
    requires |block| == 64
  {
    if t < 16 then BlockWord(block, t)
    else (Sigma1(W(block, t - 2)) + W(block, t - 7) + Sigma0(W(block, t - 15)) + W(block, t - 16)) % M32
  }

  datatype Vars = Vars(a: Word, b: Word, c: Word, d: Word, e: Word, f: Word, g: Word, h: Word)

  function Start(hs: seq<Word>): Vars
    requires |hs| == 8
  {
    Vars(hs[0], hs[1], hs[2], hs[3], hs[4], hs[5], hs[6], hs[7])
  }

  function Round(v: Vars, k: Word, w: Word): Vars {
    var t1 := (v.h + BigSigma1(v.e) + Ch(v.e, v.f, v.g) + k + w) % M32;
    var t2 := (BigSigma0(v.a) + Maj(v.a, v.b, v.c)) % M32;
    Vars((t1 + t2) % M32, v.a, v.b, v.c, (v.d + t1) % M32, v.e, v.f, v.g)
  }

  function Rounds(hs: seq<Word>, block: seq<Byte>, t: nat): Vars
    requires |hs| == 8 && |block| == 64 && t <= ROUNDS
  {
    if t == 0 then Start(hs) else Round(Rounds(hs, block, t - 1), K()[t - 1], W(block, t - 1))
  }

  function Compress(hs: seq<Word>, block: seq<Byte>): (r: seq<Word>)
    requires |hs| == 8 && |block| == 64
    ensures |r| == 8
  {
    var v := Rounds(hs, block, ROUNDS);
    [(hs[0] + v.a) % M32, (hs[1] + v.b) % M32, (hs[2] + v.c) % M32, (hs[3] + v.d) % M32,
     (hs[4] + v.e) % M32, (hs[5] + v.f) % M32, (hs[6] + v.g) % M32, (hs[7] + v.h) % M32]
  }

  function Step(hs: seq<Word>, block: seq<Byte>): seq<Word> {
    if |hs| == 8 && |block| == 64 then Compress(hs, block) else hs
  }

  /** Chain the compression function over whole blocks. */
  function HashBlocks(hs: seq<Word>, data: seq<Byte>): (r: seq<Word>)
    requires |hs| == 8 && |data| % 64 == 0
    ensures |r| == 8
  {
    ChainKeeps((x: seq<Word>) => |x| == 8, Step, hs, data);
    Chain(Step, hs, data)
  }

  function DigestBytes(hs: seq<Word>): (d: seq<Byte>)
    ensures |d| == 4 * |hs|
  {
    if hs == [] then [] else BigEndian(hs[0], 4) + DigestBytes(hs[1..])
  }

  function Sha256(m: seq<Byte>): (d: seq<Byte>)
    ensures |d| == 32
  {
    DigestBytes(HashBlocks(IV(), Pad(m)))
  }
}
