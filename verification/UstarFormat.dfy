/** The ustar interchange format of the POSIX pax utility: octal fields, the checksum, and a reader
    that trusts nothing the header does not prove. */
module UstarFormat {
  import opened Common
  import opened Bits

  type Bytes = seq<Byte>

  const BLOCK: nat := 512
  const SLASH: Byte := 47
  const SPACE: Byte := 32
  const ZERO: Byte := 48

  // ----- octal numbers -----

  function Pow8(n: nat): (p: nat)
    ensures p > 0
  {
    if n == 0 then 1 else 8 * Pow8(n - 1)
  }

  /** The low n octal digits, most significant first. */
  function Digits(v: nat, n: nat): (d: Bytes)
    ensures |d| == n
    ensures forall i :: 0 <= i < n ==> 48 <= d[i] < 56
  {
    if n == 0 then [] else Digits(v / 8, n - 1) + [ZERO + v % 8]
  }

  /** How many digits %lo prints. */
  function DigitCount(v: nat): (n: nat)
    ensures n > 0
  {
    if v < 8 then 1 else 1 + DigitCount(v / 8)
  }

  function Max(a: nat, b: nat): nat { if a < b then b else a }

  /** What snprintf leaves of "%0*lo" in n characters: at least n digits are printed, and the first n
      of them are kept. */
  function Text(v: nat, n: nat): (t: Bytes)
    ensures |t| == n
    ensures forall i :: 0 <= i < n ==> 48 <= t[i] < 56
  {
    Digits(v, Max(n, DigitCount(v)))[..n]
  }

  /** The reader of a numeric field: octal digits up to a NUL or a space. */
  function Number(f: Bytes, acc: nat): Option<nat> {
    if f == [] then None
    else if f[0] == 0 || f[0] == SPACE then Some(acc)
    else if 48 <= f[0] < 56 then Number(f[1..], 8 * acc + (f[0] - ZERO))
    else None
  }

  lemma ModOctal(v: nat, p: nat)
    requires p > 0
    ensures v % (8 * p) == 8 * (v / 8 % p) + v % 8
  {
    var q, r := v / 8 / p, v / 8 % p;
    assert v / 8 == p * q + r;
    assert v == 8 * (p * q + r) + v % 8;
    assert 8 * (p * q) == 8 * p * q;
    DivUnique(v, 8 * p, q, 8 * r + v % 8);
  }

  /** Reading digits back. */
  lemma {:induction false} NumberDigits(v: nat, n: nat, rest: Bytes, acc: nat)
    ensures Number(Digits(v, n) + rest, acc) == Number(rest, Pow8(n) * acc + v % Pow8(n))
  {
    if n == 0 {
      assert Digits(v, n) + rest == rest;
    } else {
      var d: Byte := ZERO + v % 8;
      NumberDigits(v / 8, n - 1, [d] + rest, acc);
      assert Digits(v, n) + rest == Digits(v / 8, n - 1) + ([d] + rest);
      assert ([d] + rest)[1..] == rest;
      ModOctal(v, Pow8(n - 1));
      Spread(Pow8(n - 1), acc);
    }
  }

  lemma Spread(p: nat, acc: nat)
    ensures 8 * (p * acc) == 8 * p * acc
  {
  }

  lemma {:induction false} CountBound(v: nat)
    ensures v < Pow8(DigitCount(v))
    ensures DigitCount(v) > 1 ==> v >= Pow8(DigitCount(v) - 1)
  {
    if v >= 8 { CountBound(v / 8); }
  }

  lemma {:induction false} Pow8Mono(m: nat, n: nat)
    requires m <= n
    ensures Pow8(m) <= Pow8(n)
  {
    if m < n { Pow8Mono(m, n - 1); }
  }

  lemma {:induction false} Pow8Add(m: nat, n: nat)
    ensures Pow8(m + n) == Pow8(m) * Pow8(n)
  {
    if m > 0 { Pow8Add(m - 1, n); Spread(Pow8(m - 1), Pow8(n)); }
  }

  /** Keeping the first digits divides by a power of eight. */
  lemma {:induction false} FirstDigits(v: nat, n: nat, extra: nat)
    ensures Digits(v, n + extra)[..n] == Digits(v / Pow8(extra), n)
  {
    if extra == 0 {
      assert Digits(v, n)[..n] == Digits(v, n);
    } else {
      FirstDigits(v / 8, n, extra - 1);
      DivDiv(v, 8, Pow8(extra - 1));
      assert Digits(v, n + extra)[..n] == Digits(v / 8, n + extra - 1)[..n];
    }
  }

  function Quotient(v: nat, p: nat): nat
    requires p > 0
  {
    v / p
  }

  /** The value an n-digit field ends up holding. */
  function Kept(v: nat, n: nat): nat {
    if DigitCount(v) <= n then v else Quotient(v, Pow8(DigitCount(v) - n))
  }

  lemma TextIs(v: nat, n: nat)
    ensures Text(v, n) == Digits(Kept(v, n), n) && Kept(v, n) < Pow8(n)
  {
    CountBound(v);
    var c := DigitCount(v);
    if c <= n {
      Pow8Mono(c, n);
      assert Digits(v, n)[..n] == Digits(v, n);
    } else {
      FirstDigits(v, n, c - n);
      Pow8Add(c - n, n);
      QuotientBound(v, Pow8(c - n), Pow8(n));
    }
  }

  lemma QuotientBound(v: nat, p: nat, q: nat)
    requires p > 0 && v < p * q
    ensures v / p < q
  {
    var k := v / p;
    assert v == p * k + v % p;
    if k > q { MulGap(p, q, k); }
  }

  /** A field holds its number exactly when the number has no more than n digits. */
  lemma KeptExactly(v: nat, n: nat)
    requires n > 0
    ensures Kept(v, n) == v <==> v < Pow8(n)
  {
    CountBound(v);
    var c := DigitCount(v);
    if c <= n {
      Pow8Mono(c, n);
    } else {
      TextIs(v, n);
      Pow8Mono(n, c - 1);
    }
  }

  /** What a reader finds in a written field. */
  lemma FieldReads(v: nat, n: nat, rest: Bytes)
    requires rest != [] && rest[0] == 0
    ensures Number(Text(v, n) + rest, 0) == Some(Kept(v, n))
  {
    hide Text, Digits, Kept, Pow8, DigitCount, Number;
    TextIs(v, n);
    var k := Kept(v, n);
    NumberDigits(k, n, rest, 0);
    assert Pow8(n) * 0 + k % Pow8(n) == k;
    Stops(rest, k);
  }

  lemma Stops(rest: Bytes, acc: nat)
    requires rest != [] && rest[0] == 0
    ensures Number(rest, acc) == Some(acc)
  {
  }

  // ----- the header checksum -----

  function Sum(s: Bytes): nat {
    if s == [] then 0 else Sum(s[..|s| - 1]) + s[|s| - 1]
  }

  lemma {:induction false} SumAppend(a: Bytes, b: Bytes)
    ensures Sum(a + b) == Sum(a) + Sum(b)
  {
    if b == [] {
      assert a + b == a;
    } else {
      SumAppend(a, b[..|b| - 1]);
      assert (a + b)[..|a + b| - 1] == a + b[..|b| - 1];
    }
  }

  lemma {:induction false} SumBound(s: Bytes)
    ensures Sum(s) <= 255 * |s|
  {
    if s != [] { SumBound(s[..|s| - 1]); }
  }

  function Blank(h: Bytes): (b: Bytes)
    requires |h| == BLOCK
    ensures |b| == BLOCK
  {
    h[..148] + Spaces() + h[156..]
  }

  function Spaces(): (b: Bytes)
    ensures |b| == 8 && forall i :: 0 <= i < 8 ==> b[i] == SPACE
  {
    [SPACE, SPACE, SPACE, SPACE, SPACE, SPACE, SPACE, SPACE]
  }

  /** The sum of all bytes, the checksum's own read as spaces; it always fits six octal digits. */
  function Checksum(h: Bytes): (c: nat)
    requires |h| == BLOCK
    ensures c < 0x40000
  {
    SumBound(Blank(h));
    Sum(Blank(h))
  }

  method CalculateChecksum(h: array<Byte>) returns (sum: nat)
    requires h.Length == BLOCK
    ensures sum == Checksum(h[..]) && sum < M32
  {
    sum := 0;
    var i := 0;
    ghost var b := Blank(h[..]);
    while i < BLOCK
      invariant 0 <= i <= BLOCK && sum == Sum(b[..i])
    {
      assert b[..i + 1][..i] == b[..i];
      if i >= 148 && i < 156 {
        sum := sum + SPACE;
      } else {
        sum := sum + h[i];
      }
      i := i + 1;
    }
    assert b[..BLOCK] == b;
  }

  // ----- reading -----

  datatype Member = Member(name: Bytes, mode: nat, mtime: nat, data: Bytes)
  datatype Header = Header(name: Bytes, mode: nat, mtime: nat, size: nat)

  /** A C string in a fixed-width field. */
  function CString(f: Bytes): (s: Bytes)
    ensures s <= f
  {
    if f == [] || f[0] == 0 then [] else [f[0]] + CString(f[1..])
  }

  function Magic(): (m: Bytes)
    ensures |m| == 8
  {
    [117, 115, 116, 97, 114, 0, 48, 48]
  }

  /** The name, with the prefix field in front when there is one. */
  function FullName(h: Bytes): Bytes
    requires |h| == BLOCK
  {
    var prefix := CString(h[345..500]);
    if prefix == [] then CString(h[..100]) else prefix + [SLASH] + CString(h[..100])
  }

  predicate Trusted(h: Bytes)
    requires |h| == BLOCK
  {
    h[257..265] == Magic() && Number(h[148..156], 0) == Some(Checksum(h)) && h[156] == ZERO
  }

  function ReadHeader(h: Bytes): Option<Header>
    requires |h| == BLOCK
  {
    if !Trusted(h) then None
    else match (Number(h[100..108], 0), Number(h[124..136], 0), Number(h[136..148], 0))
      case (Some(mode), Some(size), Some(mtime)) => Some(Header(FullName(h), mode, mtime, size))
      case _ => None
  }

  function Padding(n: nat): (p: nat)
    ensures (n + p) % BLOCK == 0 && p < BLOCK
  {
    (BLOCK - n % BLOCK) % BLOCK
  }

  /** The members of an archive, up to two zero blocks. */
  function ReadArchive(s: Bytes): Option<seq<Member>>
    decreases |s|
  {
    if |s| < BLOCK then None
    else if s[..BLOCK] == Zeros(BLOCK) then
      if |s| >= 2 * BLOCK && s[BLOCK..2 * BLOCK] == Zeros(BLOCK) then Some([]) else None
    else match ReadHeader(s[..BLOCK])
      case None => None
      case Some(h) =>
        var end := BLOCK + h.size + Padding(h.size);
        if |s| < end then None
        else match ReadArchive(s[end..])
          case None => None
          case Some(ms) => Some([Member(h.name, h.mode, h.mtime, s[BLOCK..BLOCK + h.size])] + ms)
  }

  /** The checksum follows every byte outside its own field and ignores those inside; of zeros it is that of the
      eight spaces. */
  lemma ChecksumTracks(h: Bytes, i: nat, b: Byte)
    requires |h| == BLOCK && i < BLOCK
    ensures Checksum(h[i := b]) == Checksum(h) + if 148 <= i < 156 then 0 else b - h[i]
    ensures (forall j :: 0 <= j < BLOCK ==> h[j] == 0) ==> Checksum(h) == 256
  {
    if 148 <= i < 156 {
      assert Blank(h[i := b]) == Blank(h);
    } else {
      assert Blank(h[i := b]) == Blank(h)[i := b] && Blank(h)[i] == h[i];
      SumUpdate(Blank(h), i, b);
    }
    if forall j :: 0 <= j < BLOCK ==> h[j] == 0 {
      SumAppend(h[..148] + Spaces(), h[156..]);
      SumAppend(h[..148], Spaces());
      SumZeros(h[..148]);
      SumZeros(h[156..]);
      SumSpaces();
    }
  }

  lemma {:induction false} SumZeros(s: Bytes)
    requires forall j :: 0 <= j < |s| ==> s[j] == 0
    ensures Sum(s) == 0
  {
    if s != [] { SumZeros(s[..|s| - 1]); }
  }

  lemma SumSpaces()
    ensures Sum(Spaces()) == 256
  {
    var s := Spaces();
    assert s[..7][..6] == s[..6] && s[..6][..5] == s[..5] && s[..5][..4] == s[..4] && s[..4][..3] == s[..3]
      && s[..3][..2] == s[..2] && s[..2][..1] == s[..1] && s[..1][..0] == [];
    assert Sum(s[..1]) == 32 && Sum(s[..2]) == 64 && Sum(s[..3]) == 96 && Sum(s[..4]) == 128;
    assert Sum(s[..5]) == 160 && Sum(s[..6]) == 192 && Sum(s[..7]) == 224;
  }

  /** No single changed byte of a trusted header stays trusted. */
  lemma FlippedByteFound(h: Bytes, i: nat, b: Byte)
    requires |h| == BLOCK && i < BLOCK && !(148 <= i < 156) && b != h[i] && Trusted(h)
    ensures !Trusted(h[i := b])
  {
    var g := h[i := b];
    assert g[148..156] == h[148..156];
    assert Blank(g) == Blank(h)[i := b] && Blank(h)[i] == h[i];
    SumUpdate(Blank(h), i, b);
  }

  lemma SumUpdate(s: Bytes, i: nat, b: Byte)
    requires i < |s|
    ensures Sum(s[i := b]) == Sum(s) - s[i] + b
  {
    var l, r := s[..i], s[i + 1..];
    assert s == l + [s[i]] + r && s[i := b] == l + [b] + r;
    SumAppend(l + [s[i]], r);
    SumAppend(l + [b], r);
    SumAppend(l, [s[i]]);
    SumAppend(l, [b]);
    One(s[i]);
    One(b);
  }

  lemma One(b: Byte)
    ensures Sum([b]) == b
  {
    assert [b][..0] == [];
  }
}
