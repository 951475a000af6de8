/** The initial ramdisk writer: tools/mkinitrd.c. */
module InitrdWriter {
  import opened Common
  import opened Bits
  import opened UstarFormat

  const NAME_MAX: nat := 99
  const LONG: nat := 11
  const CHUNK: nat := 4096

  /** What the file system shows at one listed path, and the clock when its header is written. */
  datatype Node = Missing | Special | Unreadable(mode: nat, size: nat) | Regular(mode: nat, data: Bytes)
  datatype Entry = Entry(path: Bytes, now: nat, node: Node)

  /** A C string holds no NUL. */
  predicate Path(p: Bytes) { forall i :: 0 <= i < |p| ==> p[i] != 0 }

  // ----- the header -----

  function Strip(p: Bytes): (s: Bytes)
    ensures Path(p) ==> Path(s)
  {
    if p != [] && p[0] == SLASH then Strip(p[1..]) else p
  }

  /** Exactly the leading slashes go. */
  lemma {:induction false} StripExactly(p: Bytes)
    ensures var (s, n) := (Strip(p), |p| - |Strip(p)|);
      && n >= 0 && p == p[..n] + s && (forall i :: 0 <= i < n ==> p[i] == SLASH)
      && (s == [] || s[0] != SLASH)
  {
    if p != [] && p[0] == SLASH { StripExactly(p[1..]); }
  }

  /** strncpy into a zeroed field that is one longer. */
  function Clip(s: Bytes, n: nat): (c: Bytes)
    ensures |c| <= n && c <= s && (c == s <==> |s| <= n)
  {
    if |s| <= n then s else s[..n]
  }

  function Padded(s: Bytes, n: nat): (f: Bytes)
    requires |s| <= n
    ensures |f| == n
  {
    s + Zeros(n - |s|)
  }

  function Octal(v: nat, n: nat): (f: Bytes)
    ensures |f| == n + 1
  {
    Text(v, n) + [0]
  }

  function Root(): (b: Bytes)
    ensures |b| == 4
  {
    [114, 111, 111, 116]
  }

  /** Everything before the checksum, and everything after it. */
  function Head(path: Bytes, size: nat, mode: nat, now: nat): (h: Bytes)
    ensures |h| == 148
  {
    Padded(Clip(Strip(path), NAME_MAX), 100) + Octal(mode % 512, 7) + Octal(0, 7) + Octal(0, 7)
    + Octal(size, LONG) + Octal(now, LONG)
  }

  function Tail(): (t: Bytes)
    ensures |t| == 356
  {
    [ZERO] + Zeros(100) + Magic() + Padded(Root(), 32) + Padded(Root(), 32) + Zeros(183)
  }

  function Sealed(head: Bytes, tail: Bytes): (h: Bytes)
    requires |head| == 148 && |tail| == 356
    ensures |h| == BLOCK
  {
    head + Text(Checksum(head + Spaces() + tail), 6) + [0, SPACE] + tail
  }

  function HeaderOf(path: Bytes, size: nat, mode: nat, now: nat): (h: Bytes)
    ensures |h| == BLOCK
  {
    Sealed(Head(path, size, mode, now), Tail())
  }

  function Image(path: Bytes, now: nat, mode: nat, data: Bytes): (b: Bytes)
    ensures |b| == BLOCK + |data| + Padding(|data|)
  {
    HeaderOf(path, |data|, mode, now) + data + Zeros(Padding(|data|))
  }

  /** What create_initrd writes, and whether it succeeds. A file that cannot be opened stops the run
      after its header. */
  function Emit(es: seq<Entry>): (Bytes, bool) {
    if es == [] then (Zeros(2 * BLOCK), true)
    else match es[0].node
      case Missing => Emit(es[1..])
      case Special => Emit(es[1..])
      case Unreadable(mode, size) => (HeaderOf(es[0].path, size, mode, es[0].now), false)
      case Regular(mode, data) =>
        var rest := Emit(es[1..]);
        (Image(es[0].path, es[0].now, mode, data) + rest.0, rest.1)
  }

  // ----- the writer -----

  function Patch(h: Bytes, off: nat, b: Bytes): (r: Bytes)
    requires off + |b| <= |h|
    ensures |r| == |h|
  {
    h[..off] + b + h[off + |b|..]
  }

  method Store(h: array<Byte>, off: nat, b: Bytes)
    requires off + |b| <= h.Length
    modifies h
    ensures h[..] == Patch(old(h[..]), off, b)
  {
    var i := 0;
    while i < |b|
      invariant 0 <= i <= |b|
      invariant h[..] == Patch(old(h[..]), off, b[..i])
    {
      h[off + i] := b[i];
      i := i + 1;
    }
    assert b[..i] == b;
  }

  function Extend(done: Bytes, off: nat, b: Bytes): (r: Bytes)
    requires |done| <= off
    ensures |r| == off + |b|
  {
    done + Zeros(off - |done|) + b
  }

  predicate Filled(h: Bytes, done: Bytes) { |done| <= |h| && h == done + Zeros(|h| - |done|) }

  /** Setting a later field of a header that is still zero from there on. */
  method Put(h: array<Byte>, ghost done: Bytes, off: nat, b: Bytes)
    requires Filled(h[..], done) && |done| <= off && off + |b| <= h.Length
    modifies h
    ensures Filled(h[..], Extend(done, off, b))
  {
    Store(h, off, b);
  }

  lemma Middle(head: Bytes, mid: Bytes, tail: Bytes, b: Bytes)
    requires |b| == |mid|
    ensures Patch(head + mid + tail, |head|, b) == head + b + tail
  {
  }

  method FillHead(h: array<Byte>, name: Bytes, size: nat, mode: nat, now: nat)
    requires h.Length == BLOCK && Filled(h[..], [])
    modifies h
    ensures Filled(h[..], Padded(Clip(name, NAME_MAX), 100) + Octal(mode % 512, 7) + Octal(0, 7) + Octal(0, 7)
                          + Octal(size, LONG) + Octal(now, LONG))
  {
    hide Filled, Clip, Octal;
    var c := Clip(name, NAME_MAX);
    Put(h, [], 0, c);
    Put(h, Extend([], 0, c), 100, Octal(mode % 512, 7));
    ghost var done := Padded(c, 100) + Octal(mode % 512, 7);
    assert Extend(Extend([], 0, c), 100, Octal(mode % 512, 7)) == done;
    Put(h, done, 108, Octal(0, 7));
    Joined(done, Octal(0, 7));
    done := done + Octal(0, 7);
    Put(h, done, 116, Octal(0, 7));
    Joined(done, Octal(0, 7));
    done := done + Octal(0, 7);
    Put(h, done, 124, Octal(size, LONG));
    Joined(done, Octal(size, LONG));
    done := done + Octal(size, LONG);
    Put(h, done, 136, Octal(now, LONG));
    Joined(done, Octal(now, LONG));
  }

  lemma Joined(done: Bytes, b: Bytes)
    ensures Extend(done, |done|, b) == done + b
  {
  }

  method FillTail(h: array<Byte>, ghost head: Bytes)
    requires h.Length == BLOCK && |head| == 148 && Filled(h[..], head)
    modifies h
    ensures h[..] == head + Zeros(8) + Tail()
  {
    hide Filled, Magic, Root;
    Put(h, head, 156, [ZERO]);
    ghost var done := Extend(head, 156, [ZERO]);
    Put(h, done, 257, Magic());
    done := Extend(done, 257, Magic());
    Put(h, done, 265, Root());
    done := Extend(done, 265, Root());
    Put(h, done, 297, Root());
    done := Extend(done, 297, Root());
    TailBuilt(h[..], head);
  }

  lemma TailBuilt(h: Bytes, head: Bytes)
    requires |h| == BLOCK && |head| == 148
    requires Filled(h, Extend(Extend(Extend(Extend(head, 156, [ZERO]), 257, Magic()), 265, Root()), 297, Root()))
    ensures h == head + Zeros(8) + Tail()
  {
    hide Magic, Root;
    var d := Extend(head, 156, [ZERO]);
    var e := [ZERO] + Zeros(100) + Magic();
    assert Extend(d, 257, Magic()) == head + Zeros(8) + e;
    TailRest(head + Zeros(8), e, h);
  }

  lemma TailRest(front: Bytes, e: Bytes, h: Bytes)
    requires |front| == 156 && |e| == 109 && |h| == BLOCK
    requires Filled(h, Extend(Extend(front + e, 265, Root()), 297, Root()))
    ensures h == front + (e + Padded(Root(), 32) + Padded(Root(), 32) + Zeros(183))
  {
    hide Root;
    assert Zeros(28) + Zeros(183) == Zeros(211);
  }

  class Writer {
    var out: Bytes

    constructor ()
      ensures out == []
    {
      out := [];
    }

    method WriteTarHeader(filename: Bytes, size: nat, mode: nat, now: nat)
      modifies this
      ensures out == old(out) + HeaderOf(filename, size, mode, now)
    {
      var header := new Byte[BLOCK](_ => 0);
      var start := 0;
      while start < |filename| && filename[start] == SLASH
        invariant 0 <= start <= |filename| && Strip(filename[start..]) == Strip(filename)
      {
        start := start + 1;
      }
      assert Strip(filename) == filename[start..];
      hide Head, Tail, Checksum, Text, Patch, HeaderOf;
      assert Filled(header[..], []);
      FillHead(header, filename[start..], size, mode, now);
      ghost var head, tail := Head(filename, size, mode, now), Tail();
      HeadIs(filename, size, mode, now);
      FillTail(header, head);
      Store(header, 148, Spaces());
      Middle(head, Zeros(8), tail, Spaces());
      var checksum := CalculateChecksum(header);
      Store(header, 148, Text(checksum, 6) + [0]);
      header[154] := 0;
      header[155] := SPACE;
      SealBuilt(header[..], head, tail, checksum);
      out := out + header[..];
    }

    method WriteFileData(data: Bytes)
      modifies this
      ensures out == old(out) + data + Zeros(Padding(|data|))
    {
      var remaining := |data|;
      while remaining > 0
        invariant 0 <= remaining <= |data|
        invariant out == old(out) + data[..|data| - remaining]
      {
        var at := |data| - remaining;
        var n := if remaining > CHUNK then CHUNK else remaining;
        assert data[..at + n] == data[..at] + data[at..at + n];
        out := out + data[at..at + n];
        remaining := remaining - n;
      }
      var padding := Padding(|data|);
      if padding > 0 {
        out := out + Zeros(padding);
      }
    }

    method CreateInitrd(entries: seq<Entry>) returns (ok: bool)
      modifies this
      ensures (out, ok) == Emit(entries)
    {
      hide HeaderOf, Image, Zeros, Padding;
      out := [];
      var i := 0;
      assert entries[0..] == entries && [] + Emit(entries).0 == Emit(entries).0;
      while i < |entries|
        invariant 0 <= i <= |entries|
        invariant Emit(entries) == (out + Emit(entries[i..]).0, Emit(entries[i..]).1)
      {
        var e := entries[i];
        ghost var before, rest := out, Emit(entries[i + 1..]).0;
        assert entries[i..][0] == e && entries[i..][1..] == entries[i + 1..];
        match e.node {
          case Missing =>
          case Special =>
          case Unreadable(mode, size) =>
            WriteTarHeader(e.path, size, mode, e.now);
            return false;
          case Regular(mode, data) =>
            WriteTarHeader(e.path, |data|, mode, e.now);
            WriteFileData(data);
            Written(before, e, rest);
        }
        i := i + 1;
      }
      out := out + Zeros(2 * BLOCK);
      ok := true;
    }
  }

  lemma Written(before: Bytes, e: Entry, rest: Bytes)
    requires e.node.Regular?
    ensures var (mode, data) := (e.node.mode, e.node.data);
      before + HeaderOf(e.path, |data|, mode, e.now) + data + Zeros(Padding(|data|)) + rest
      == before + (Image(e.path, e.now, mode, data) + rest)
  {
    hide HeaderOf, Zeros, Padding;
  }

  lemma HeadIs(path: Bytes, size: nat, mode: nat, now: nat)
    ensures Head(path, size, mode, now)
         == Padded(Clip(Strip(path), NAME_MAX), 100) + Octal(mode % 512, 7) + Octal(0, 7) + Octal(0, 7)
            + Octal(size, LONG) + Octal(now, LONG)
  {
  }

  lemma SealBuilt(h: Bytes, head: Bytes, tail: Bytes, checksum: nat)
    requires |head| == 148 && |tail| == 356 && checksum == Checksum(head + Spaces() + tail)
    requires h == Patch(head + Spaces() + tail, 148, Text(checksum, 6) + [0])[154 := 0][155 := SPACE]
    ensures h == Sealed(head, tail)
  {
    hide Checksum, Text;
  }

  // ----- reading it back -----

  /** What the archive is meant to hold: the regular files, in list order. */
  function Members(es: seq<Entry>): seq<Member> {
    if es == [] then []
    else match es[0].node
      case Regular(mode, data) => [Member(Strip(es[0].path), mode % 512, es[0].now, data)] + Members(es[1..])
      case _ => Members(es[1..])
  }

  predicate Representable(e: Entry) {
    match e.node
    case Regular(_, data) => |Strip(e.path)| <= NAME_MAX && |data| < Pow8(LONG) && e.now < Pow8(LONG)
    case _ => true
  }

  lemma {:induction false} CStringOf(s: Bytes, n: nat)
    requires Path(s) && n > 0
    ensures CString(s + Zeros(n)) == s
  {
    if s == [] {
      assert s + Zeros(n) == Zeros(n);
    } else {
      assert (s + Zeros(n))[1..] == s[1..] + Zeros(n);
      CStringOf(s[1..], n);
    }
  }

  lemma HeadSlices(path: Bytes, size: nat, mode: nat, now: nat)
    ensures var h := Head(path, size, mode, now);
      && h[..100] == Padded(Clip(Strip(path), NAME_MAX), 100)
      && h[100..108] == Octal(mode % 512, 7)
      && h[124..136] == Octal(size, LONG)
      && h[136..148] == Octal(now, LONG)
  {
    hide Octal, Padded, Clip, Strip;
  }

  lemma TailSlices()
    ensures Tail()[0] == ZERO && Tail()[101..109] == Magic() && Tail()[189..344] == Zeros(155)
  {
    hide Magic;
  }

  lemma SealedSlices(head: Bytes, tail: Bytes)
    requires |head| == 148 && |tail| == 356
    ensures var h := Sealed(head, tail);
      && h[..100] == head[..100] && h[100..108] == head[100..108]
      && h[124..136] == head[124..136] && h[136..148] == head[136..148]
      && h[148..156] == Text(Checksum(head + Spaces() + tail), 6) + [0, SPACE]
      && h[156] == tail[0] && h[257..265] == tail[101..109] && h[345..500] == tail[189..344]
      && Blank(h) == head + Spaces() + tail
  {
    hide Checksum, Text;
  }

  /** The checksum written is the checksum a reader computes. */
  lemma SealedTrusted(head: Bytes, tail: Bytes)
    requires |head| == 148 && |tail| == 356 && tail[0] == ZERO && tail[101..109] == Magic()
    ensures Trusted(Sealed(head, tail))
  {
    hide Text, Sealed, Number, Magic, Sum, Kept, Pow8, DigitCount;
    SealedSlices(head, tail);
    var u := head + Spaces() + tail;
    assert Blank(u) == u;
    var c := Checksum(u);
    FieldReads(c, 6, [0, SPACE]);
    SixDigits(c);
  }

  lemma SixDigits(c: nat)
    requires c < 0x40000
    ensures Kept(c, 6) == c
  {
    hide DigitCount, Kept;
    KeptExactly(c, 6);
  }

  lemma OctalReads(v: nat, n: nat)
    ensures Number(Octal(v, n), 0) == Some(Kept(v, n))
  {
    FieldReads(v, n, [0]);
  }

  lemma ModeFits(mode: nat)
    ensures Kept(mode % 512, 7) == mode % 512
  {
    hide DigitCount, Kept;
    KeptExactly(mode % 512, 7);
  }

  /** What a reader makes of any header the writer produces. */
  lemma HeaderReads(path: Bytes, size: nat, mode: nat, now: nat)
    requires Path(path)
    ensures ReadHeader(HeaderOf(path, size, mode, now))
         == Some(Header(Clip(Strip(path), NAME_MAX), mode % 512, Kept(now, LONG), Kept(size, LONG)))
    ensures HeaderOf(path, size, mode, now) != Zeros(BLOCK)
  {
    hide Head, Tail, Sealed, Text, Number, Kept, Trusted, Clip, Strip, Octal, Magic;
    var head, tail := Head(path, size, mode, now), Tail();
    HeadSlices(path, size, mode, now);
    TailSlices();
    SealedSlices(head, tail);
    SealedTrusted(head, tail);
    OctalReads(mode % 512, 7);
    ModeFits(mode);
    OctalReads(size, LONG);
    OctalReads(now, LONG);
    var c := Clip(Strip(path), NAME_MAX);
    CStringOf(c, 100 - |c|);
    CStringOf([], 155);
    assert [] + Zeros(155) == Zeros(155);
  }

  /** Reading past one member. */
  lemma ImageReads(path: Bytes, now: nat, mode: nat, data: Bytes, rest: Bytes)
    requires Path(path) && |data| < Pow8(LONG)
    ensures ReadArchive(Image(path, now, mode, data) + rest) ==
      match ReadArchive(rest)
      case None => None
      case Some(ms) =>
        Some([Member(Clip(Strip(path), NAME_MAX), mode % 512, Kept(now, LONG), data)] + ms)
  {
    hide HeaderOf, ReadHeader, Kept, Pow8, Clip, Strip, Padding, Zeros;
    HeaderReads(path, |data|, mode, now);
    KeptExactly(|data|, LONG);
    var s := Image(path, now, mode, data) + rest;
    var end := BLOCK + |data| + Padding(|data|);
    assert s[..BLOCK] == HeaderOf(path, |data|, mode, now);
    assert s[end..] == rest;
    assert s[BLOCK..BLOCK + |data|] == data;
  }

  /** A file too long for its size field is never read back whole. */
  lemma LongImage(path: Bytes, now: nat, mode: nat, data: Bytes, rest: Bytes)
    requires Path(path) && |data| >= Pow8(LONG)
    ensures ReadArchive(Image(path, now, mode, data) + rest).Some? ==>
      var ms := ReadArchive(Image(path, now, mode, data) + rest).value;
      ms != [] && |ms[0].data| != |data|
  {
    hide HeaderOf, ReadHeader, Kept, Pow8, Clip, Strip, Padding, Zeros;
    HeaderReads(path, |data|, mode, now);
    KeptExactly(|data|, LONG);
    var s := Image(path, now, mode, data) + rest;
    assert s[..BLOCK] == HeaderOf(path, |data|, mode, now);
  }

  /** The archive reads back as the list of files exactly when every file is representable. */
  lemma {:induction false} ReadBackExactly(es: seq<Entry>)
    requires forall i :: 0 <= i < |es| ==> Path(es[i].path) && !es[i].node.Unreadable?
    ensures ReadArchive(Emit(es).0) == Some(Members(es)) <==> forall e :: e in es ==> Representable(e)
  {
    hide Representable, Image, ReadArchive, Strip;
    if es == [] {
      EndReads();
    } else {
      ReadBackExactly(es[1..]);
      assert es == [es[0]] + es[1..];
      ReadBackStep(es[0], Emit(es[1..]).0, Members(es[1..]));
    }
  }

  lemma EndReads()
    ensures ReadArchive(Zeros(2 * BLOCK)) == Some([])
  {
    var z := Zeros(2 * BLOCK);
    assert z[..BLOCK] == Zeros(BLOCK) && z[BLOCK..2 * BLOCK] == Zeros(BLOCK);
  }

  lemma SameList(a: Member, s: seq<Member>, b: Member, t: seq<Member>)
    ensures [a] + s == [b] + t <==> a == b && s == t
  {
    assert ([a] + s)[0] == a && ([a] + s)[1..] == s;
    assert ([b] + t)[0] == b && ([b] + t)[1..] == t;
  }

  lemma ReadBackStep(e: Entry, rest: Bytes, ms: seq<Member>)
    requires Path(e.path)
    ensures !e.node.Regular? ==> Representable(e)
    ensures e.node.Regular? ==>
      var m := Member(Strip(e.path), e.node.mode % 512, e.now, e.node.data);
      (ReadArchive(Image(e.path, e.now, e.node.mode, e.node.data) + rest) == Some([m] + ms)
       <==> Representable(e) && ReadArchive(rest) == Some(ms))
  {
    hide ReadArchive, Image, Kept, Pow8, Strip;
    if e.node.Regular? {
      var data := e.node.data;
      if |data| >= Pow8(LONG) {
        LongImage(e.path, e.now, e.node.mode, data, rest);
      } else {
        ImageReads(e.path, e.now, e.node.mode, data, rest);
        KeptExactly(e.now, LONG);
        var m := Member(Strip(e.path), e.node.mode % 512, e.now, data);
        var n := Member(Clip(Strip(e.path), NAME_MAX), e.node.mode % 512, Kept(e.now, LONG), data);
        if ReadArchive(rest).Some? { SameList(n, ReadArchive(rest).value, m, ms); }
      }
    }
  }

  /** An archive cut short at an unreadable file, the first of the list, is rejected when the files before
      it fit their size fields. */
  lemma {:induction false} TruncatedRejected(es: seq<Entry>, bad: nat)
    requires bad < |es| && es[bad].node.Unreadable?
    requires forall i :: 0 <= i <= bad ==> Path(es[i].path)
    requires forall i :: 0 <= i < bad ==> !es[i].node.Unreadable?
    requires forall i :: 0 <= i < bad && es[i].node.Regular? ==> |es[i].node.data| < Pow8(LONG)
    ensures ReadArchive(Emit(es).0).None?
  {
    hide Image, ReadArchive, HeaderOf, Pow8, Path;
    var e, rest := es[0], es[1..];
    if bad == 0 {
      HeaderAlone(e);
    } else {
      TruncatedRejected(rest, bad - 1);
      if e.node.Regular? { ImageReads(e.path, e.now, e.node.mode, e.node.data, Emit(rest).0); }
    }
  }

  lemma HeaderAlone(e: Entry)
    requires Path(e.path) && e.node.Unreadable?
    ensures ReadArchive(HeaderOf(e.path, e.node.size, e.node.mode, e.now)).None?
  {
    hide HeaderOf, ReadHeader, Kept, Clip, Strip, Zeros;
    var h := HeaderOf(e.path, e.node.size, e.node.mode, e.now);
    HeaderReads(e.path, e.node.size, e.node.mode, e.now);
    assert h[..BLOCK] == h;
  }

  /** Every archive is a whole number of blocks, and ends early exactly when some file cannot be read. */
  lemma {:induction false} ArchiveShape(es: seq<Entry>)
    ensures |Emit(es).0| % BLOCK == 0
    ensures Emit(es).1 <==> forall i :: 0 <= i < |es| ==> !es[i].node.Unreadable?
  {
    hide HeaderOf, Image;
    if es != [] {
      ArchiveShape(es[1..]);
      assert es == [es[0]] + es[1..];
      if es[0].node.Regular? {
        var n := |es[0].node.data|;
        WholeBlocks(n + Padding(n), |Emit(es[1..]).0|);
      }
    }
  }

  lemma WholeBlocks(a: nat, b: nat)
    requires a % BLOCK == 0 && b % BLOCK == 0
    ensures (BLOCK + a + b) % BLOCK == 0
  {
  }
}
