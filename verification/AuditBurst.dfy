/** How much of a record the FNV-1a hash pins down: any change confined to four adjacent bytes. */
module AuditBurst {
  import opened Common
  import opened Bits
  import BitMasks
  import opened AuditLog

  const PRIME: int := 0x100_0000_01b3
  const PRIME2: int := PRIME * PRIME
  const PRIME3: int := PRIME * PRIME * PRIME

  // ---------------------------------------------------------------- four bytes

  /** XOR with a byte moves a number by at most 255. */
  lemma {:induction false} XorNear(x: nat, b: nat, k: nat)
    requires b < Pow2(k)
    ensures x - Pow2(k) < Xor(x, b) < x + Pow2(k)
  {
    if k > 0 {
      XorNear(x / 2, b / 2, k - 1);
      XorHalf(x, b);
    }
  }

  lemma XorByte(x: nat, b: Byte)
    ensures x - 256 < Xor(x, b) < x + 256
  {
    var k: nat :| k == 8;
    assert Pow2(k) == 256;
    hide Xor, Pow2;
    XorNear(x, b, k);
  }

  /** A step takes the distance d of two states to `next`: the bytes move it by e, the prime multiplies it. */
  predicate Moved(d: int, e: int, next: int) {
    -510 <= e <= 510 && (next - (d + e) * PRIME) % M64 == 0
  }

  lemma MixWraps(u: nat) returns (k: int)
    ensures Mix(u) == u * PRIME + k * M64
  {
    k := -(u * PRIME / M64);
  }

  lemma StepDistance(x: nat, y: nat, b: Byte, c: Byte) returns (e: int)
    ensures Xor(x, b) - Xor(y, c) == x - y + e && Moved(x - y, e, FnvStep(x, b) - FnvStep(y, c))
  {
    hide Xor, Mix;
    XorByte(x, b);
    XorByte(y, c);
    var u, v := Xor(x, b), Xor(y, c);
    e := u - v - (x - y);
    var m := MixWraps(u);
    var n := MixWraps(v);
    Wraps(FnvStep(x, b) - FnvStep(y, c) - (x - y + e) * PRIME, m - n);
  }

  lemma Wraps(z: int, k: int)
    requires z == k * M64
    ensures z % M64 == 0
  {
  }

  /** Powers of the prime have no small relation modulo 2^64. */
  lemma NoRelation(a: int, b: int, c: int, d: int, k: int)
    requires -510 <= a <= 510 && -510 <= b <= 510 && -510 <= c <= 510 && -510 <= d <= 510
    requires a * PRIME3 + b * PRIME2 + c * PRIME + d == k * M64
    ensures a == b == c == d == 0
  {
    var high := 567675 * a + 870 * b + c;
    var low := 82312875 * a + 189225 * b + 435 * c + d;
    var j := k - 72057594123452416 * a - 65536 * b;
    assert high * 0x100_0000_0000 + low == j * M64;
    assert low == 0x100_0000_0000 * (0x100_0000 * j - high);
    assert low == 0 && high == 0x100_0000 * j;
    assert -1 <= a <= 1;
    assert high == 0;
  }

  lemma {:induction false} FnvAppend(a: seq<Byte>, b: seq<Byte>, h: nat)
    ensures Fnv(a + b, h) == Fnv(b, Fnv(a, h))
  {
    hide FnvStep;
    if a == [] {
      assert a + b == b;
    } else {
      assert (a + b)[1..] == a[1..] + b;
      FnvAppend(a[1..], b, FnvStep(h, a[0]));
    }
  }

  lemma {:induction false} FnvWord(bytes: seq<Byte>, h: nat)
    requires h < M64
    ensures Fnv(bytes, h) < M64
  {
    hide FnvStep;
    if bytes != [] { FnvWord(bytes[1..], FnvStep(h, bytes[0])); }
  }

  lemma FnvFour(b: seq<Byte>, h: nat)
    requires |b| == 4
    ensures Fnv(b, h) == FnvStep(FnvStep(FnvStep(FnvStep(h, b[0]), b[1]), b[2]), b[3])
  {
    hide FnvStep;
    assert b[1..][1..] == b[2..] && b[2..][1..] == b[3..] && b[3..][1..] == [];
    assert Fnv(b, h) == Fnv(b[1..], FnvStep(h, b[0]));
    assert Fnv(b[1..], FnvStep(h, b[0])) == Fnv(b[2..], FnvStep(FnvStep(h, b[0]), b[1]));
    var x := FnvStep(FnvStep(h, b[0]), b[1]);
    assert Fnv(b[2..], x) == Fnv(b[3..], FnvStep(x, b[2]));
    assert Fnv(b[3..], FnvStep(x, b[2])) == Fnv([], FnvStep(FnvStep(x, b[2]), b[3]));
  }

  /** Two paths of four bytes from one state to one state do not part. */
  lemma NoPath(d1: int, d2: int, d3: int, a: int, b: int, c: int, d: int)
    requires Moved(0, a, d1) && Moved(d1, b, d2) && Moved(d2, c, d3) && Moved(d3, d, 0) && d3 + d == 0
    ensures a == b == c == d == 0
  {
    var j, k, l := (d1 - a * PRIME) / M64, (d2 - (d1 + b) * PRIME) / M64, (d3 - (d2 + c) * PRIME) / M64;
    assert d1 == a * PRIME + j * M64 && d2 == (d1 + b) * PRIME + k * M64 && d3 == (d2 + c) * PRIME + l * M64;
    NoRelation(a, b, c, d, -(j * PRIME2 + k * PRIME + l));
  }

  lemma LastXor(x: nat, y: nat, b: Byte, c: Byte)
    requires x < M64 && y < M64 && FnvStep(x, b) == FnvStep(y, c)
    ensures Xor(x, b) == Xor(y, c)
  {
    hide Mix, Unmix, Xor;
    XorWord(x, b);
    XorWord(y, c);
    PrimeInverse(Xor(x, b));
    PrimeInverse(Xor(y, c));
  }

  /** Four bytes hashed from one state are determined by the state they lead to. */
  lemma FourBytes(b: seq<Byte>, c: seq<Byte>, h: nat)
    requires |b| == |c| == 4 && h < M64 && Fnv(b, h) == Fnv(c, h)
    ensures b == c
  {
    hide FnvStep, Xor, Mix, Fnv, Moved;
    FnvFour(b, h);
    FnvFour(c, h);
    var x1: int, y1: int := FnvStep(h, b[0]), FnvStep(h, c[0]);
    var x2: int, y2: int := FnvStep(x1, b[1]), FnvStep(y1, c[1]);
    var x3: int, y3: int := FnvStep(x2, b[2]), FnvStep(y2, c[2]);
    var e0 := StepDistance(h, h, b[0], c[0]);
    var e1 := StepDistance(x1, y1, b[1], c[1]);
    var e2 := StepDistance(x2, y2, b[2], c[2]);
    var e3 := StepDistance(x3, y3, b[3], c[3]);
    LastXor(x3, y3, b[3], c[3]);
    NoPath(x1 - y1, x2 - y2, x3 - y3, e0, e1, e2, e3);
    SameXor(h, b[0], c[0]);
    SameXor(x1, b[1], c[1]);
    SameXor(x2, b[2], c[2]);
    SameXor(x3, b[3], c[3]);
  }

  lemma SameXor(x: nat, b: Byte, c: Byte)
    requires x < M64 && Xor(x, b) == Xor(x, c)
    ensures b == c && FnvStep(x, b) == FnvStep(x, c)
  {
    hide Xor, Mix;
    assert FnvStep(x, b) == FnvStep(x, c);
    StepByteInjective(x, b, c);
  }

  // ---------------------------------------------------------------- a burst anywhere

  /** The sequences differ, but only within four adjacent places. */
  ghost predicate Burst(a: seq<Byte>, b: seq<Byte>) {
    |a| == |b| && a != b && exists k: nat :: Agree(a, b, k)
  }

  /** a and b agree before place k and from place k + 4 on. */
  ghost predicate Agree(a: seq<Byte>, b: seq<Byte>, k: nat)
    requires |a| == |b|
  {
    forall j :: 0 <= j < |a| && (j < k || k + 4 <= j) ==> a[j] == b[j]
  }

  lemma ShortBytes(b: seq<Byte>, c: seq<Byte>, h: nat)
    requires |b| == |c| <= 4 && h < M64 && Fnv(b, h) == Fnv(c, h)
    ensures b == c
  {
    hide Fnv;
    var z: seq<Byte> := seq(4 - |b|, _ => 0);
    FnvAppend(b, z, h);
    FnvAppend(c, z, h);
    FourBytes(b + z, c + z, h);
    assert b == (b + z)[..|b|] && c == (c + z)[..|b|];
  }

  /** A burst of four bytes anywhere changes the hash. */
  lemma FnvDetectsBurst(a: seq<Byte>, b: seq<Byte>, h: nat)
    requires Burst(a, b) && h < M64
    ensures Fnv(a, h) != Fnv(b, h)
  {
    hide Fnv;
    var k: nat :| Agree(a, b, k);
    var lo, hi := Min(k, |a|), Min(k + 4, |a|);
    assert a == a[..lo] + (a[lo..hi] + a[hi..]) && b == b[..lo] + (b[lo..hi] + b[hi..]);
    assert a[..lo] == b[..lo] && a[hi..] == b[hi..];
    var g := Fnv(a[..lo], h);
    FnvAppend(a[..lo], a[lo..hi] + a[hi..], h);
    FnvAppend(b[..lo], b[lo..hi] + b[hi..], h);
    FnvAppend(a[lo..hi], a[hi..], g);
    FnvAppend(b[lo..hi], b[hi..], g);
    FnvWord(a[..lo], h);
    FnvWord(a[lo..hi], g);
    FnvWord(b[lo..hi], g);
    if Fnv(a, h) == Fnv(b, h) {
      FnvStateInjective(a[hi..], Fnv(a[lo..hi], g), Fnv(b[lo..hi], g));
      ShortBytes(a[lo..hi], b[lo..hi], g);
    }
  }

  // ---------------------------------------------------------------- the sequence number

  /** Byte j of a number. */
  function ByteOf(x: nat, j: nat): nat { Shr(x, 8 * j) % 256 }

  lemma ShrByte(x: nat, j: nat)
    requires j > 0
    ensures Shr(x, 8 * j) == Shr(x / 256, 8 * (j - 1))
  {
    var m := 8 * (j - 1);
    assert 8 * j == m + 8;
    ShrEight(x, m);
  }

  lemma ShrEight(x: nat, m: nat)
    ensures Shr(x, m + 8) == Shr(x / 256, m)
  {
    assert Shr(x, m + 8) == Shr(x / 2, m + 7) == Shr(x / 4, m + 6) == Shr(x / 8, m + 5) == Shr(x / 16, m + 4);
    assert Shr(x / 16, m + 4) == Shr(x / 32, m + 3) == Shr(x / 64, m + 2) == Shr(x / 128, m + 1);
  }

  lemma {:induction false} LittleEndianAt(x: nat, n: nat, j: nat)
    requires j < n
    ensures LittleEndian(x, n)[j] == ByteOf(x, j)
  {
    if j > 0 {
      ShrByte(x, j);
      LittleEndianAt(x / 256, n - 1, j - 1);
    }
  }

  function Pow256(n: nat): (p: nat)
    ensures p > 0
  {
    if n == 0 then 1 else 256 * Pow256(n - 1)
  }

  lemma ModByte(x: nat, p: nat)
    requires p > 0
    ensures x % (256 * p) == 256 * (x / 256 % p) + x % 256
  {
    var q, r := x / 256 / p, x / 256 % p;
    assert x / 256 == p * q + r;
    assert x == 256 * (p * q + r) + x % 256;
    assert 256 * (p * q) == 256 * p * q;
    DivUnique(x, 256 * p, q, 256 * r + x % 256);
  }

  /** n little-endian bytes determine a number modulo 256^n, and no more. */
  lemma {:induction false} LittleEndianExactly(x: nat, y: nat, n: nat)
    ensures LittleEndian(x, n) == LittleEndian(y, n) <==> x % Pow256(n) == y % Pow256(n)
  {
    if n > 0 {
      var a, b := LittleEndian(x, n), LittleEndian(y, n);
      LittleEndianExactly(x / 256, y / 256, n - 1);
      ModByte(x, Pow256(n - 1));
      ModByte(y, Pow256(n - 1));
      assert a[1..] == LittleEndian(x / 256, n - 1) && b[1..] == LittleEndian(y / 256, n - 1);
      assert a == [a[0]] + a[1..] && b == [b[0]] + b[1..];
    }
  }

  /** The 64-bit numbers differ, but only within four adjacent bytes. */
  ghost predicate NumberBurst(x: nat, y: nat) {
    x % M64 != y % M64 && exists k: nat :: BytesAgree(x, y, k)
  }

  ghost predicate BytesAgree(x: nat, y: nat, k: nat) {
    forall j: nat :: j < 8 && (j < k || k + 4 <= j) ==> ByteOf(x, j) == ByteOf(y, j)
  }

  lemma NumberBurstBytes(x: nat, y: nat)
    requires NumberBurst(x, y)
    ensures Burst(LittleEndian(x, 8), LittleEndian(y, 8))
  {
    var n: nat :| n == 8;
    assert Pow256(n) == M64;
    LittleEndianExactly(x, y, n);
    hide LittleEndian, ByteOf, Pow256;
    var k: nat :| BytesAgree(x, y, k);
    var a, b := LittleEndian(x, 8), LittleEndian(y, 8);
    forall j | 0 <= j < 8 && (j < k || k + 4 <= j) ensures a[j] == b[j] {
      LittleEndianAt(x, 8, j);
      LittleEndianAt(y, 8, j);
    }
    assert Agree(a, b, k);
  }

  // ---------------------------------------------------------------- records

  lemma BurstInside(a: seq<Byte>, x: seq<Byte>, y: seq<Byte>, b: seq<Byte>)
    requires Burst(x, y)
    ensures Burst(a + x + b, a + y + b)
  {
    var k: nat :| Agree(x, y, k);
    assert Agree(a + x + b, a + y + b, |a| + k);
    assert (a + x + b)[|a|..|a| + |x|] == x && (a + y + b)[|a|..|a| + |x|] == y;
  }

  /** One field changed, within four adjacent bytes. */
  ghost predicate Tampered(e: Event, f: Event) {
    var same := e.sequence % M64 == f.sequence % M64;
    || (Burst(e.head, f.head) && same && f.tail == e.tail)
    || (f.head == e.head && NumberBurst(e.sequence, f.sequence) && f.tail == e.tail)
    || (f.head == e.head && same && Burst(e.tail, f.tail))
  }

  lemma TamperedHash(e: Event, f: Event)
    requires Tampered(e, f)
    ensures EventHash(e) != EventHash(f)
  {
    hide Fnv, LittleEndian, Burst, NumberBurst;
    var s, t := LittleEndian(e.sequence, 8), LittleEndian(f.sequence, 8);
    assert e.sequence % M64 == f.sequence % M64 ==> s == t by {
      var n: nat :| n == 8;
      assert Pow256(n) == M64;
      LittleEndianExactly(e.sequence, f.sequence, n);
    }
    if Burst(e.head, f.head) && s == t && f.tail == e.tail {
      BurstInside([], e.head, f.head, s + e.tail);
      assert Hashed(e) == [] + e.head + (s + e.tail) && Hashed(f) == [] + f.head + (s + e.tail);
    } else if f.head == e.head && f.tail == e.tail && NumberBurst(e.sequence, f.sequence) {
      NumberBurstBytes(e.sequence, f.sequence);
      BurstInside(e.head, s, t, e.tail);
    } else {
      BurstInside(e.head + s, e.tail, f.tail, []);
      assert Hashed(e) == e.head + s + e.tail + [] && Hashed(f) == e.head + s + f.tail + [];
    }
    FnvDetectsBurst(Hashed(e), Hashed(f), BASIS);
  }

  /** Changing the fields before the sequence number, the number itself or the fields after it within four adjacent
      bytes, in any resident event of any run, makes verification fail. */
  lemma TamperedRecordFound(cap: nat, ops: seq<Op>, i: nat, f: Event)
    requires cap > 0 && i < |RunOps(cap, ops).q|
    requires Tampered(RunOps(cap, ops).q[i], f) && f.hash == RunOps(cap, ops).q[i].hash
    ensures !Verified(RunOps(cap, ops).q[i := f], SEED)
  {
    hide RunOps, EventHash, Tampered;
    var q := RunOps(cap, ops).q;
    RunConsistent(cap, ops);
    assert q[i].hash == EventHash(q[i]);
    TamperedHash(q[i], f);
    VerifyFindsHash(q[i := f], i, SEED);
  }

  /** Two numbers below 2^32 differ within four bytes. */
  lemma SmallNumberBurst(x: nat, y: nat)
    requires x < M32 && y < M32 && x != y
    ensures NumberBurst(x, y)
  {
    forall j: nat | 4 <= j < 8 ensures ByteOf(x, j) == 0 == ByteOf(y, j) {
      HighByte(x, j);
      HighByte(y, j);
    }
    assert BytesAgree(x, y, 0);
  }

  lemma HighByte(x: nat, j: nat)
    requires x < M32 && j >= 4
    ensures ByteOf(x, j) == 0
  {
    hide Shr;
    ShrByte(x, j);
    ShrByte(x / 0x100, j - 1);
    ShrByte(x / 0x1_0000, j - 2);
    ShrByte(x / 0x100_0000, j - 3);
    BitMasks.ShrZero(8 * (j - 4));
  }

  /** What the hash of the fields before the sequence number becomes over the number's eight bytes. */
  function NumberHash(e: Event, x: nat): nat { Fnv(LittleEndian(x, 8), Fnv(e.head, BASIS)) }

  lemma SequenceHash(e: Event, x: nat)
    ensures EventHash(e) == EventHash(e.(sequence := x)) <==> NumberHash(e, e.sequence) == NumberHash(e, x)
  {
    hide Fnv, LittleEndian;
    var s, t, g := LittleEndian(e.sequence, 8), LittleEndian(x, 8), Fnv(e.head, BASIS);
    FnvAppend(e.head + s, e.tail, BASIS);
    FnvAppend(e.head + t, e.tail, BASIS);
    FnvAppend(e.head, s, BASIS);
    FnvAppend(e.head, t, BASIS);
    FnvWord(e.head, BASIS);
    FnvWord(s, g);
    FnvWord(t, g);
    if EventHash(e) == EventHash(e.(sequence := x)) {
      FnvStateInjective(e.tail, Fnv(s, g), Fnv(t, g));
    }
  }

  lemma {:induction false} VerifiedSame(q: seq<Event>, i: nat, f: Event, expected: nat)
    requires i < |q| && f.prevHash == q[i].prevHash && f.hash == q[i].hash && EventHash(f) == EventHash(q[i])
    ensures Verified(q[i := f], expected) <==> Verified(q, expected)
  {
    hide EventHash;
    if i > 0 {
      assert q[i := f][1..] == q[1..][i - 1 := f];
      VerifiedSame(q[1..], i - 1, f, q[0].hash);
    } else {
      assert q[0 := f][1..] == q[1..];
    }
  }

  /** Renumbering a resident event of a log that verifies is found exactly when the new number's eight bytes,
      hashed after the fields before them, give another value than the old one's. */
  lemma RenumberedFoundExactly(cap: nat, ops: seq<Op>, i: nat, x: nat)
    requires cap > 0 && i < |RunOps(cap, ops).q| && Verified(RunOps(cap, ops).q, SEED)
    ensures var (q, e) := (RunOps(cap, ops).q, RunOps(cap, ops).q[i]);
      !Verified(q[i := e.(sequence := x)], SEED) <==> NumberHash(e, x) != NumberHash(e, e.sequence)
  {
    hide RunOps, EventHash, NumberHash;
    var q := RunOps(cap, ops).q;
    RunConsistent(cap, ops);
    assert q[i].hash == EventHash(q[i]);
    SequenceHash(q[i], x);
    if NumberHash(q[i], x) != NumberHash(q[i], q[i].sequence) {
      VerifyFindsHash(q[i := q[i].(sequence := x)], i, SEED);
    } else {
      VerifiedSame(q, i, q[i].(sequence := x), SEED);
    }
  }
}
