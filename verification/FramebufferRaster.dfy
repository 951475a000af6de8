/** Integer square root, span filling and the filled disc of the framebuffer driver.  Video
    memory is an array of bytes; pixel x of scanline y occupies the four bytes at
    y * pitch + 4 * x, and bytes from 4 * width to pitch of a scanline are padding. */
module FramebufferRaster {
  import opened Common
  import opened Bits

  // ---------------------------------------------------------------- square root

  predicate FloorSqrt(n: nat, r: nat) { r * r <= n < (r + 1) * (r + 1) }

  /** A Newton step from any positive guess stays above the root. */
  lemma NewtonAbove(n: nat, x: nat)
    requires x > 0
    ensures var y := (x + n / x) / 2; (y + 1) * (y + 1) > n
  {
    var q := n / x;
    var y := (x + q) / 2;
    var t := q + 1;
    Square(x, t);
    assert n < x * t by {
      assert n == x * q + n % x;
      assert x * t == x * q + x;
    }
    SquareMono(x + t, 2 * (y + 1));
    assert (2 * (y + 1)) * (2 * (y + 1)) == 4 * ((y + 1) * (y + 1));
  }

  lemma Square(x: nat, t: nat)
    ensures (x + t) * (x + t) >= 4 * (x * t)
  {
    var d: int := x - t;
    assert d * d >= 0;
    assert (x + t) * (x + t) == d * d + 4 * (x * t);
  }

  lemma SquareMono(a: nat, b: nat)
    requires a <= b
    ensures a * a <= b * b
  {
    assert b * b == a * a + (b - a) * (b + a);
  }

  lemma SumProduct(x: nat, q: nat)
    requires x >= 1 && q >= 1
    ensures x + q <= x * q + 1
  {
    var a, b := x - 1, q - 1;
    assert x * q == a * b + a + b + 1;
  }

  /** The sum in the step never exceeds n + 1, so it does not wrap. */
  lemma NewtonSmall(n: nat, x: nat)
    requires 1 <= x <= n
    ensures n / x >= 1 && x + n / x <= n + 1
  {
    var q := n / x;
    QuotientPositive(n, x);
    SumProduct(x, q);
  }

  lemma QuotientPositive(n: nat, x: nat)
    requires 1 <= x <= n
    ensures n / x >= 1 && x * (n / x) <= n
  {
    assert n == x * (n / x) + n % x;
  }

  lemma NewtonStops(n: nat, x: nat)
    requires x > 0 && (x + n / x) / 2 >= x
    ensures x * x <= n
  {
    var q := n / x;
    assert q >= x;
    assert n == x * q + n % x;
    assert x * q == x * x + x * (q - x);
  }

  /** The guess has not dropped below the root. */
  predicate Above(n: nat, x: nat) { n < (x + 1) * (x + 1) }

  function NextGuess(n: nat, x: nat): nat
    requires x > 0
  {
    (x + n / x) / 2
  }

  lemma GuessNoWrap(n: nat, x: nat)
    requires 1 <= x <= n < M32 - 1
    ensures NextGuess(n, x) == (x + n / x) % M32 / 2 && 1 <= NextGuess(n, x)
  {
    NewtonSmall(n, x);
  }

  lemma GuessAbove(n: nat, x: nat)
    requires x > 0
    ensures Above(n, NextGuess(n, x))
  {
    NewtonAbove(n, x);
  }

  lemma GuessStep(n: nat, x: nat)
    requires 1 <= x <= n < M32 - 1
    ensures NextGuess(n, x) == (x + n / x) % M32 / 2
    ensures 1 <= NextGuess(n, x) && Above(n, NextGuess(n, x))
  {
    hide Above, NextGuess;
    GuessNoWrap(n, x);
    GuessAbove(n, x);
  }

  lemma GuessFirst(n: nat)
    requires 1 <= n < M32 - 1
    ensures Above(n, n) && NextGuess(n, n) == (n + 1) % M32 / 2
  {
    DivUnique(n, n, 1, 0);
    assert (n + 1) * (n + 1) == n * n + 2 * n + 1;
  }

  lemma GuessLast(n: nat, x: nat)
    requires x > 0 && Above(n, x) && NextGuess(n, x) >= x
    ensures FloorSqrt(n, x)
  {
    NewtonStops(n, x);
  }

  /** 32-bit Newton iteration.  None stands for the division fault: for the largest word the
      first guess wraps to zero. */
  method Isqrt32(n: nat) returns (r: Option<nat>)
    requires n < M32
    ensures r.None? <==> n == M32 - 1
    ensures r.Some? ==> FloorSqrt(n, r.value)
  {
    if n == 0 { return Some(0); }
    var x, y := n, (n + 1) % M32 / 2;
    if y == 0 { return None; }   // x becomes 0 and n / x faults
    hide Above, NextGuess, FloorSqrt;
    GuessFirst(n);
    while y < x
      invariant 1 <= x <= n && Above(n, x) && y == NextGuess(n, x)
      decreases x
    {
      GuessStep(n, x);
      x := y;
      GuessStep(n, x);
      y := (x + n / x) % M32 / 2;
    }
    GuessLast(n, x);
    return Some(x);
  }

  /** The floor square root decides which offsets lie in a row of the disc. */
  lemma InSpanExactly(n: nat, half: nat, d: int)
    requires FloorSqrt(n, half)
    ensures d * d <= n <==> 0 - half <= d <= half
  {
    var a: nat := if d < 0 then -d else d;
    assert d * d == a * a;
    if a <= half {
      SquareMono(a, half);
    } else {
      SquareMono(half + 1, a);
    }
  }

  // ---------------------------------------------------------------- pixels

  /** Byte k (little-endian) of a 32-bit colour. */
  function ColorByte(color: nat, k: nat): Byte {
    if k == 0 then color % 256
    else if k == 1 then color / 0x100 % 256
    else if k == 2 then color / 0x1_0000 % 256
    else color / 0x100_0000 % 256
  }

  /** The lowest byte comes first. */
  lemma ColorBytes(color: nat)
    requires color < M32
    ensures ColorByte(color, 0) + 0x100 * ColorByte(color, 1) + 0x1_0000 * ColorByte(color, 2)
            + 0x100_0000 * ColorByte(color, 3) == color
  {
    var a := color / 0x100;
    DivDiv(color, 0x100, 0x100);
    DivDiv(color, 0x1_0000, 0x100);
    assert color == 0x100 * a + color % 0x100;
  }

  /** Byte j of a 64-bit word. */
  function WordByte(w: nat, j: nat): Byte {
    if j < 4 then ColorByte(w % M32, j) else ColorByte(w / M32 % M32, j - 4)
  }

  function WordBytes(w: nat): (b: seq<Byte>)
    ensures |b| == 8 && forall j :: 0 <= j < 8 ==> b[j] == WordByte(w, j)
  {
    [WordByte(w, 0), WordByte(w, 1), WordByte(w, 2), WordByte(w, 3), WordByte(w, 4), WordByte(w, 5), WordByte(w, 6),
        WordByte(w, 7)]
  }

  lemma PowWord32()
    ensures Pow2(32) == M32
  {
    assert Pow2(8) == 256;
    hide Pow2;
    Pow2Add(8, 8);
    Pow2Add(16, 16);
  }

  lemma PatternHalves(color: nat)
    requires color < M32
    ensures var pat := Or(color * M32, color); pat / M32 == color && pat % M32 == color
  {
    hide Or, Pow2;
    PowWord32();
    DivUnique(color * M32, M32, color, 0);
    OrDisjoint(color * M32, color, 32);
    DivUnique(color * M32 + color, M32, color, color);
  }

  lemma PatternBytes(color: nat)
    requires color < M32
    ensures forall j :: 0 <= j < 8 ==> WordByte(Or(color * M32, color), j) == ColorByte(color, j % 4)
  {
    hide Or, ColorByte;
    PatternHalves(color);
    assert color % M32 == color;
  }

  class Framebuffer {
    const buffer: array<Byte>
    const width: nat
    const height: nat
    const pitch: nat
    const initialized: bool

    /** What framebuffer_init has checked. */
    ghost predicate Valid() {
      initialized ==>
        && 0 < width <= 8192 && 0 < height <= 8192
        && width * 4 <= pitch <= 65536
        && buffer.Length == pitch * height
    }

    constructor (buffer: array<Byte>, width: nat, height: nat, pitch: nat)
      ensures this.buffer == buffer && this.width == width && this.height == height && this.pitch == pitch
      ensures initialized <==>
                && 0 < width <= 8192 && 0 < height <= 8192 && width * 4 <= pitch <= 65536
                && pitch * height <= 0x1000_0000 && buffer.Length == pitch * height
      ensures Valid()
    {
      this.buffer, this.width, this.height, this.pitch := buffer, width, height, pitch;
      initialized := 0 < width <= 8192 && 0 < height <= 8192 && width * 4 <= pitch <= 65536
                     && pitch * height <= 0x1000_0000 && buffer.Length == pitch * height;
    }

    method Store64(at: nat, w: nat)
      requires at + 8 <= buffer.Length
      modifies buffer
      ensures buffer[..] == old(buffer[..])[..at] + WordBytes(w) + old(buffer[..])[at + 8..]
    {
      hide WordByte, WordBytes;
      for j := 0 to 8
        invariant forall b :: 0 <= b < buffer.Length ==>
                    buffer[b] == if at <= b < at + j then WordByte(w, b - at) else old(buffer[b])
      {
        buffer[at + j] := WordByte(w, j);
      }
    }

    method Store32(at: nat, color: nat)
      requires at + 4 <= buffer.Length
      modifies buffer
      ensures buffer[..] == Filled(old(buffer[..]), at, 1, color)
    {
      hide ColorByte;
      buffer[at] := ColorByte(color, 0);
      buffer[at + 1] := ColorByte(color, 1);
      buffer[at + 2] := ColorByte(color, 2);
      buffer[at + 3] := ColorByte(color, 3);
    }

    /** Two pixels per store, one more store for an odd last pixel. */
    method FillRow(dst: nat, color: nat, count: nat)
      requires dst + 4 * count <= buffer.Length && color < M32
      modifies buffer
      ensures buffer[..] == Filled(old(buffer[..]), dst, count, color)
    {
      var pat := Or(color * M32, color);
      var pairs, tail := count / 2, count % 2;
      FilledNone(buffer[..], dst, color);
      hide *;
      for i := 0 to pairs
        invariant buffer[..] == Filled(old(buffer[..]), dst, 2 * i, color)
      {
        PairFilled(buffer[..], dst + 8 * i, color);
        FilledExtend(old(buffer[..]), dst, 2 * i, 2, color);
        Store64(dst + 8 * i, pat);
      }
      if tail != 0 {
        FilledExtend(old(buffer[..]), dst, count - 1, 1, color);
        Store32(dst + 4 * (count - 1), color);
      }
    }

    /** The part inside the buffer of a run that does not stop there. */
    method FillToEnd(dst: nat, color: nat)
      requires dst <= buffer.Length
      modifies buffer
      ensures forall b :: 0 <= b < buffer.Length ==>
        buffer[b] == if dst <= b then ColorByte(color, (b - dst) % 4) else old(buffer[b])
    {
      hide ColorByte;
      for b := dst to buffer.Length
        invariant forall k :: 0 <= k < buffer.Length ==>
          buffer[k] == if dst <= k < b then ColorByte(color, (k - dst) % 4) else old(buffer[k])
      {
        buffer[b] := ColorByte(color, (b - dst) % 4);
      }
    }

    /** A horizontal run, clipped on the right. When the 32-bit sum wraps nothing is clipped, and the run
        overruns the buffer: everything from its first pixel on is painted, and the stores go on past it. */
    method DrawHline(x: nat, y: nat, length: nat, color: nat) returns (overrun: bool)
      requires Valid() && color < M32 && length < M32
      modifies buffer
      ensures overrun <==> initialized && x < width && y < height && x + length >= M32
      ensures !initialized ==> buffer[..] == old(buffer[..])
      ensures initialized && !overrun ==>
        Painted(old(buffer[..]), buffer[..], this.Screen(), color, Span(y, x, length))
      ensures overrun ==>
        && RowStart(y, x, pitch) + 4 * length > buffer.Length
        && buffer[..] == Filled(old(buffer[..]), RowStart(y, x, pitch), length, color)
    {
      hide Painted, Filled, Clipped, RowStart;
      overrun := false;
      if !initialized { return; }
      if x >= width || y >= height {
        SpanOffscreen(buffer[..], Screen(), y, x, length, color);
        return;
      }
      var len := Clipped(x, length, width);
      var dst := RowStart(y, x, pitch);
      ClipExactly(x, length, width);
      SpanFits(y, x, 0, pitch, height);
      if dst + 4 * len > buffer.Length {
        RunPast(x, length, len, width, y, pitch, height);
        FillToEnd(dst, color);
        FilledToEnd(old(buffer[..]), buffer[..], dst, length, color);
        return true;
      }
      RunStops(x, length, len, width, y, pitch, height);
      FillRow(dst, color, len);
      SpanPainted(old(buffer[..]), buffer[..], Screen(), y, x, length, len, color);
    }

    /** A filled disc, one clipped run per scanline. */
    method FillCircle(cx: int, cy: int, r: int, color: nat)
      requires Valid() && color < M32
      requires initialized && r > 0 ==> FitsInt32(cx, cy, r, height)
      modifies buffer
      ensures !initialized || r <= 0 ==> buffer[..] == old(buffer[..])
      ensures initialized && r > 0 ==> Painted(old(buffer[..]), buffer[..], Screen(), color, Disc(cx, cy, r))
    {
      if !initialized || r <= 0 { return; }
      var r2 := r * r;
      assert Int32(r2) by { SquareMono(r, 46340); }
      var dy := -r;
      DiscStart(buffer[..], Screen(), color, cx, cy, r);
      hide Painted, FloorSqrt;
      while dy <= r
        invariant -r <= dy <= r + 1 && cy + dy < 0x8000_0000
        invariant Painted(old(buffer[..]), buffer[..], Screen(), color, DiscAbove(cx, cy, r, cy + dy))
        decreases r - dy
      {
        var y := cy + dy;
        assert Int32(y);
        if y < 0 {
          DiscSkip(old(buffer[..]), buffer[..], Screen(), color, cx, cy, r, y);
          dy := dy + 1;
          continue;
        }
        if y >= height {
          DiscDone(old(buffer[..]), buffer[..], Screen(), color, cx, cy, r, y);
          return;
        }
        RowBound(r, dy);
        var root := Isqrt32(r2 - dy * dy);
        var half := root.value;
        RowHalf(r, dy, half);
        LeftEdge(cx, cy, r, y, half, height);
        var x0 := cx - half;
        var len := 2 * half + 1;
        assert Int32(half) && Int32(x0) && Int32(len);
        if x0 < 0 {
          len := len + x0;
          x0 := 0;
        }
        ghost var before := buffer[..];
        if len <= 0 {
          SpanNone(before, Screen(), y, x0, len, color);
        } else {
          var overrun := DrawHline(x0, y, len, color);
        }
        DiscRow(old(buffer[..]), before, buffer[..], Screen(), color, cx, cy, r, y, half, x0, len);
        dy := dy + 1;
      }
      DiscDone(old(buffer[..]), buffer[..], Screen(), color, cx, cy, r, cy + dy);
    }

    function Screen(): Geometry { Geometry(width, height, pitch) }
  }

  datatype Geometry = Geometry(width: nat, height: nat, pitch: nat)

  /** Pixel sets: a horizontal run, a disc, and the rows of a disc above a limit. */
  datatype Shape = Span(y: int, x: int, length: int) | Disc(cx: int, cy: int, r: int)
      | DiscAbove(cx: int, cy: int, r: int, limit: int)

  predicate Hit(s: Shape, v: int, px: int) {
    match s
    case Span(y, x, length) => v == y && x <= px < x + length
    case Disc(cx, cy, r) => (px - cx) * (px - cx) + (v - cy) * (v - cy) <= r * r
    case DiscAbove(cx, cy, r, limit) => v < limit && (px - cx) * (px - cx) + (v - cy) * (v - cy) <= r * r
  }

  /** The byte at column c of scanline v. */
  function At(mem: seq<Byte>, pitch: nat, v: nat, c: nat): Byte {
    if v * pitch + c < |mem| then mem[v * pitch + c] else 0
  }

  /** Every byte of every scanline: a pixel that is hit shows the colour, everything else,
      row padding included, is as before. */
  ghost predicate Painted(before: seq<Byte>, after: seq<Byte>, g: Geometry, color: nat, shape: Shape) {
    |after| == |before| &&
    forall v: nat, c: nat :: v < g.height && c < g.pitch ==>
      At(after, g.pitch, v, c) == if c < 4 * g.width && Hit(shape, v, c / 4)
          then ColorByte(color, c % 4) else At(before, g.pitch, v, c)
  }

  /** A run of n pixels written from byte dst on. */
  function Filled(s: seq<Byte>, dst: nat, n: nat, color: nat): (r: seq<Byte>)
    ensures |r| == |s|
    ensures forall b :: 0 <= b < |s| ==> r[b] == if dst <= b < dst + 4 * n
        then ColorByte(color, (b - dst) % 4) else s[b]
  {
    seq(|s|, b requires 0 <= b < |s| => FilledByte(s, dst, n, color, b))
  }

  function FilledByte(s: seq<Byte>, dst: nat, n: nat, color: nat, b: nat): Byte
    requires b < |s|
  {
    if dst <= b < dst + 4 * n then ColorByte(color, (b - dst) % 4) else s[b]
  }

  lemma FilledNone(s: seq<Byte>, dst: nat, color: nat)
    ensures Filled(s, dst, 0, color) == s
  {
  }

  lemma FilledExtend(s: seq<Byte>, dst: nat, k: nat, m: nat, color: nat)
    ensures Filled(Filled(s, dst, k, color), dst + 4 * k, m, color) == Filled(s, dst, k + m, color)
  {
    hide ColorByte, Filled;
    var a := Filled(Filled(s, dst, k, color), dst + 4 * k, m, color);
    var b := Filled(s, dst, k + m, color);
    forall i | 0 <= i < |s| ensures a[i] == b[i] {
      if dst + 4 * k <= i { assert (i - (dst + 4 * k)) % 4 == (i - dst) % 4; }
    }
  }

  /** The packed 64-bit store writes two pixels. */
  lemma PairFilled(s: seq<Byte>, at: nat, color: nat)
    requires at + 8 <= |s| && color < M32
    ensures s[..at] + WordBytes(Or(color * M32, color)) + s[at + 8..] == Filled(s, at, 2, color)
  {
    hide WordByte, WordBytes, ColorByte, Or, Filled;
    PatternBytes(color);
  }

  lemma InBuffer(y: nat, c: nat, pitch: nat, height: nat)
    requires y < height && c < pitch
    ensures y * pitch + c < pitch * height
  {
    assert (y + 1) * pitch <= height * pitch;
  }

  /** The length draw_hline goes on with: the sum is a 32-bit one. */
  function Clipped(x: nat, length: nat, width: nat): (len: nat)
    requires x < width
  {
    if (x + length) % M32 > width then width - x else length
  }

  /** The clipped run ends on the scanline exactly when the sum does not wrap, and is then the part
      of the run left of the edge. */
  lemma ClipExactly(x: nat, length: nat, width: nat)
    requires x < width <= 8192 && length < M32
    ensures x + Clipped(x, length, width) <= width <==> x + length < M32
    ensures Clipped(x, length, width) == if width < x + length < M32 then width - x else length
  {
    if x + length >= M32 { DivUnique(x + length, M32, 1, x + length - M32); }
  }

  /** Clipping at the right edge keeps exactly the on-screen pixels. */
  lemma ClipSpan(c: nat, x: nat, length: nat, len: nat, width: nat)
    requires x < width && len == if x + length > width then width - x else length
    ensures x <= c / 4 < x + len <==> c < 4 * width && x <= c / 4 < x + length
  {
  }

  /** A filled run of bytes, seen by row and column. */
  lemma SpanView(s: seq<Byte>, v: nat, c: nat, y: nat, x: nat, len: nat, pitch: nat, height: nat, color: nat)
    requires v < height && c < pitch && 4 * (x + len) <= pitch && |s| == pitch * height
    ensures At(Filled(s, y * pitch + x * 4, len, color), pitch, v, c) ==
            if v == y && x <= c / 4 < x + len then ColorByte(color, c % 4) else At(s, pitch, v, c)
  {
    hide ColorByte, Filled;
    InBuffer(v, c, pitch, height);
    SpanHit(v, c, y, x, len, pitch);
  }

  /** Byte offset of pixel x on scanline y. */
  function RowStart(y: nat, x: nat, pitch: nat): nat { y * pitch + x * 4 }

  lemma SpanFits(y: nat, x: nat, len: nat, pitch: nat, height: nat)
    requires y < height && 4 * (x + len) <= pitch
    ensures RowStart(y, x, pitch) + 4 * len <= pitch * height
  {
    MulGap(pitch, y, height);
  }

  lemma SpanOffscreen(s: seq<Byte>, g: Geometry, y: nat, x: nat, length: nat, color: nat)
    requires x >= g.width || y >= g.height
    ensures Painted(s, s, g, color, Span(y, x, length))
  {
    hide At, ColorByte;
  }

  lemma SpanByte(s: seq<Byte>, g: Geometry, y: nat, x: nat, length: nat, len: nat, color: nat, v: nat, c: nat)
    requires x < g.width && 4 * g.width <= g.pitch && |s| == g.pitch * g.height && v < g.height && c < g.pitch
    requires len == if x + length > g.width then g.width - x else length
    ensures At(Filled(s, y * g.pitch + x * 4, len, color), g.pitch, v, c) ==
            if c < 4 * g.width && Hit(Span(y, x, length), v, c / 4)
                then ColorByte(color, c % 4) else At(s, g.pitch, v, c)
  {
    hide ColorByte, Filled, At;
    SpanView(s, v, c, y, x, len, g.pitch, g.height, color);
    ClipSpan(c, x, length, len, g.width);
  }

  lemma SpanPainted(s: seq<Byte>, t: seq<Byte>, g: Geometry, y: nat, x: nat, length: nat, len: nat, color: nat)
    requires x < g.width && 4 * g.width <= g.pitch && |s| == g.pitch * g.height
    requires len == if x + length > g.width then g.width - x else length
    requires t == Filled(s, RowStart(y, x, g.pitch), len, color)
    ensures Painted(s, t, g, color, Span(y, x, length))
  {
    hide ColorByte, Filled, At, Hit;
    forall v: nat, c: nat | v < g.height && c < g.pitch
      ensures At(t, g.pitch, v, c) ==
              if c < 4 * g.width && Hit(Span(y, x, length), v, c / 4)
                  then ColorByte(color, c % 4) else At(s, g.pitch, v, c)
    {
      SpanByte(s, g, y, x, length, len, color, v, c);
    }
  }

  lemma Quarter(c: nat, x: nat, len: nat)
    ensures x <= c / 4 < x + len <==> 4 * x <= c < 4 * x + 4 * len
    ensures 4 * x <= c ==> (c - 4 * x) % 4 == c % 4
  {
  }

  /** Scanlines do not overlap: a byte lies in the span iff its row and column do. */
  lemma SpanHit(v: nat, c: nat, y: nat, x: nat, len: nat, pitch: nat)
    requires c < pitch && 4 * (x + len) <= pitch
    ensures var b := v * pitch + c; var dst := y * pitch + x * 4;
            && (dst <= b < dst + 4 * len <==> v == y && x <= c / 4 < x + len)
            && (dst <= b < dst + 4 * len ==> (b - dst) % 4 == c % 4)
  {
    Quarter(c, x, len);
    if v < y {
      MulGap(pitch, v, y);
    } else if v > y {
      MulGap(pitch, y, v);
    } else {
      assert v * pitch + c - (y * pitch + x * 4) == c - 4 * x;
    }
  }

  predicate Int32(v: int) { -0x8000_0000 <= v < 0x8000_0000 }

  /** The arguments for which no int32_t expression of fill_circle overflows: the disc must not reach the
      column left of the int32_t range on a scanline of the screen. */
  predicate FitsInt32(cx: int, cy: int, r: int, height: nat) {
    && Int32(cx) && Int32(cy) && Int32(cy - r) && r <= 46340
    && forall y: nat :: y < height ==> !Hit(Disc(cx, cy, r), y, -0x8000_0001)
  }

  lemma LeftEdge(cx: int, cy: int, r: int, y: nat, half: nat, height: nat)
    requires FitsInt32(cx, cy, r, height) && y < height
    requires 0 <= r * r - (y - cy) * (y - cy) && FloorSqrt(r * r - (y - cy) * (y - cy), half)
    ensures Int32(cx - half)
  {
    assert !Hit(Disc(cx, cy, r), y, -0x8000_0001);
    InSpanExactly(r * r - (y - cy) * (y - cy), half, -0x8000_0001 - cx);
  }

  /** An unclipped run is longer than any framebuffer. */
  lemma RunPast(x: nat, length: nat, len: nat, width: nat, y: nat, pitch: nat, height: nat)
    requires x < width <= 8192 && y < height && 4 * width <= pitch && length < M32 && len == Clipped(x, length, width)
    requires RowStart(y, x, pitch) + 4 * len > pitch * height
    ensures x + length >= M32 && len == length
  {
    ClipExactly(x, length, width);
    if x + length < M32 { SpanFits(y, x, len, pitch, height); }
  }

  lemma RunStops(x: nat, length: nat, len: nat, width: nat, y: nat, pitch: nat, height: nat)
    requires x < width <= 8192 && y < height <= 8192 && 4 * width <= pitch <= 65536 && length < M32
    requires len == Clipped(x, length, width) && RowStart(y, x, pitch) + 4 * len <= pitch * height
    ensures x + length < M32 && len == if x + length > width then width - x else length
  {
    hide RowStart, Clipped;
    ClipExactly(x, length, width);
    BufferSmall(pitch, height);
  }

  lemma BufferSmall(pitch: nat, height: nat)
    requires pitch <= 65536 && height <= 8192
    ensures pitch * height <= 0x2000_0000
  {
    if height < 8192 { MulGap(pitch, height, 8192); }
  }

  lemma FilledToEnd(s: seq<Byte>, t: seq<Byte>, dst: nat, n: nat, color: nat)
    requires |t| == |s| && dst + 4 * n > |s|
    requires forall b :: 0 <= b < |s| ==> t[b] == if dst <= b then ColorByte(color, (b - dst) % 4) else s[b]
    ensures t == Filled(s, dst, n, color)
  {
    hide ColorByte;
  }

  /** Two shapes that hit the same on-screen pixels paint the same. */
  lemma SameHits(a: seq<Byte>, b: seq<Byte>, g: Geometry, color: nat, s: Shape, t: Shape)
    requires Painted(a, b, g, color, s)
    requires forall v: nat, px: nat :: v < g.height && px < g.width ==> (Hit(s, v, px) <==> Hit(t, v, px))
    ensures Painted(a, b, g, color, t)
  {
    hide At, ColorByte, Hit;
    forall v: nat, c: nat | v < g.height && c < g.pitch
      ensures At(b, g.pitch, v, c) == if c < 4 * g.width
          && Hit(t, v, c / 4) then ColorByte(color, c % 4) else At(a, g.pitch, v, c)
    {
      if c < 4 * g.width { assert c / 4 < g.width; }
    }
  }

  /** Painting one shape after another paints both. */
  lemma BothHits(a: seq<Byte>, b: seq<Byte>, c: seq<Byte>, g: Geometry, color: nat, s: Shape, t: Shape, u: Shape)
    requires Painted(a, b, g, color, s) && Painted(b, c, g, color, t)
    requires forall v: nat, px: nat ::
      v < g.height && px < g.width ==> (Hit(s, v, px) || Hit(t, v, px) <==> Hit(u, v, px))
    ensures Painted(a, c, g, color, u)
  {
    hide At, ColorByte, Hit;
    forall v: nat, k: nat | v < g.height && k < g.pitch
      ensures At(c, g.pitch, v, k) == if k < 4 * g.width
          && Hit(u, v, k / 4) then ColorByte(color, k % 4) else At(a, g.pitch, v, k)
    {
      if k < 4 * g.width { assert k / 4 < g.width; }
    }
  }

  lemma SquareNonNegative(d: int)
    ensures d * d >= 0
  {
  }

  /** Rows further than r from the centre hold no pixel of the disc. */
  lemma FarRow(r: int, d: int, e: int)
    requires r > 0 && (d > r || d < -r)
    ensures e * e + d * d > r * r
  {
    SquareNonNegative(e);
    var a: nat := if d < 0 then -d else d;
    assert d * d == a * a;
    assert a * a == r * r + (a - r) * (a + r);
  }

  lemma DiscStart(s: seq<Byte>, g: Geometry, color: nat, cx: int, cy: int, r: int)
    requires r > 0
    ensures Painted(s, s, g, color, DiscAbove(cx, cy, r, cy - r))
  {
    hide At, ColorByte;
    var above := DiscAbove(cx, cy, r, cy - r);
    forall v: nat, px: nat | v < cy - r ensures !Hit(above, v, px) {
      FarRow(r, v - cy, px - cx);
    }
  }

  lemma DiscSkip(a: seq<Byte>, b: seq<Byte>, g: Geometry, color: nat, cx: int, cy: int, r: int, y: int)
    requires Painted(a, b, g, color, DiscAbove(cx, cy, r, y)) && y < 0
    ensures Painted(a, b, g, color, DiscAbove(cx, cy, r, y + 1))
  {
    SameHits(a, b, g, color, DiscAbove(cx, cy, r, y), DiscAbove(cx, cy, r, y + 1));
  }

  lemma DiscDone(a: seq<Byte>, b: seq<Byte>, g: Geometry, color: nat, cx: int, cy: int, r: int, y: int)
    requires r > 0 && Painted(a, b, g, color, DiscAbove(cx, cy, r, y)) && (y >= g.height || y > cy + r)
    ensures Painted(a, b, g, color, Disc(cx, cy, r))
  {
    forall v: nat, px: nat | v < g.height && px < g.width
      ensures Hit(DiscAbove(cx, cy, r, y), v, px) <==> Hit(Disc(cx, cy, r), v, px)
    {
      if v >= y { FarRow(r, v - cy, px - cx); }
    }
    SameHits(a, b, g, color, DiscAbove(cx, cy, r, y), Disc(cx, cy, r));
  }

  lemma RowBound(r: int, dy: int)
    requires 0 < r <= 46340 && -r <= dy <= r
    ensures 0 <= r * r - dy * dy < M32 - 1
  {
    SquareNonNegative(dy);
    var a: nat := if dy < 0 then -dy else dy;
    assert dy * dy == a * a;
    SquareMono(a, r);
    SquareMono(r, 46340);
  }

  lemma RowHalf(r: int, dy: int, half: nat)
    requires 0 < r && -r <= dy <= r && 0 <= r * r - dy * dy && FloorSqrt(r * r - dy * dy, half)
    ensures half <= r
  {
    SquareNonNegative(dy);
    assert (r + 1) * (r + 1) == r * r + 2 * r + 1;
    if half > r { SquareMono(r + 1, half); }
  }

  lemma SpanNone(s: seq<Byte>, g: Geometry, y: int, x: int, len: int, color: nat)
    requires len <= 0
    ensures Painted(s, s, g, color, Span(y, x, len))
  {
    hide At, ColorByte;
  }

  /** The clipped run of a row is exactly the row's part of the disc. */
  lemma RowExactly(cx: int, cy: int, r: int, y: int, half: nat, x0: int, len: int, px: nat)
    requires 0 <= r * r - (y - cy) * (y - cy) && FloorSqrt(r * r - (y - cy) * (y - cy), half)
    requires x0 == (if cx - half < 0 then 0 else cx - half) && x0 + len == cx + half + 1
    ensures x0 <= px < x0 + len <==> (px - cx) * (px - cx) + (y - cy) * (y - cy) <= r * r
  {
    InSpanExactly(r * r - (y - cy) * (y - cy), half, px - cx);
  }

  lemma DiscRow(a: seq<Byte>, b: seq<Byte>, c: seq<Byte>, g: Geometry, color: nat, cx: int, cy: int, r: int, y: nat,
      half: nat, x0: int, len: int)
    requires 0 <= r * r - (y - cy) * (y - cy) && FloorSqrt(r * r - (y - cy) * (y - cy), half)
    requires x0 == (if cx - half < 0 then 0 else cx - half) && x0 + len == cx + half + 1
    requires Painted(a, b, g, color, DiscAbove(cx, cy, r, y)) && Painted(b, c, g, color, Span(y, x0, len))
    ensures Painted(a, c, g, color, DiscAbove(cx, cy, r, y + 1))
  {
    hide Painted, FloorSqrt;
    forall v: nat, px: nat | v < g.height && px < g.width
      ensures Hit(DiscAbove(cx, cy, r, y), v, px) || Hit(Span(y, x0, len), v, px)
          <==> Hit(DiscAbove(cx, cy, r, y + 1), v, px)
    {
      RowExactly(cx, cy, r, y, half, x0, len, px);
    }
    BothHits(a, b, c, g, color, DiscAbove(cx, cy, r, y), Span(y, x0, len), DiscAbove(cx, cy, r, y + 1));
  }
}
