/** The kernel's streaming SHA-256 and the bootloader's one-shot copy. */
module Sha256Code {
  import opened Common
  import opened Bits
  import opened Chaining
  import opened Sha256Spec

  /** 32-bit addition wraps at every `+`. */
  function Add(x: Word, y: Word): Word { (x + y) % M32 }

  lemma Add4(a: Word, b: Word, c: Word, d: Word)
    ensures Add(Add(Add(a, b), c), d) == (a + b + c + d) % M32
  {
  }

  lemma Add5(a: Word, b: Word, c: Word, d: Word, e: Word)
    ensures Add(Add(Add(Add(a, b), c), d), e) == (a + b + c + d + e) % M32
  {
    Add4(a, b, c, d);
  }

  /** The four bytes are shifted and OR-ed together. */
  function LoadWord(block: seq<Byte>, i: nat): Word
    requires |block| == 64 && i < 16
  {
    var b0: nat, b1: nat, b2: nat, b3: nat := block[i * 4], block[i * 4 + 1], block[i * 4 + 2], block[i * 4 + 3];
    Or(Or(Or(b0 * 0x100_0000, b1 * 0x1_0000), b2 * 0x100), b3)
  }

  lemma OrBytes(b0: nat, b1: nat, b2: nat, b3: nat)
    requires b1 < 256 && b2 < 256 && b3 < 256
    ensures Or(Or(Or(b0 * 0x100_0000, b1 * 0x1_0000), b2 * 0x100), b3)
        == b0 * 0x100_0000 + b1 * 0x1_0000 + b2 * 0x100 + b3
  {
    hide Or, Pow2;
    OrAt(b0, b1 * 0x1_0000, 24, 0x100_0000);
    OrAt(b0 * 0x100 + b1, b2 * 0x100, 16, 0x1_0000);
    OrAt(b0 * 0x1_0000 + b1 * 0x100 + b2, b3, 8, 0x100);
  }

  lemma OrAt(q: nat, low: nat, k: nat, p: nat)
    requires (k == 8 && p == 0x100) || (k == 16 && p == 0x1_0000) || (k == 24 && p == 0x100_0000)
    requires low < p
    ensures Or(q * p, low) == q * p + low
  {
    PowBytes();
    DivUnique(q * p, p, q, 0);
    OrDisjoint(q * p, low, k);
  }

  /** They do not overlap, so the result is the big-endian word. */
  lemma LoadWordIsBlockWord(block: seq<Byte>, i: nat)
    requires |block| == 64 && i < 16
    ensures LoadWord(block, i) == BlockWord(block, i)
  {
    OrBytes(block[i * 4], block[i * 4 + 1], block[i * 4 + 2], block[i * 4 + 3]);
  }

  lemma PowBytes()
    ensures Pow2(8) == 0x100 && Pow2(16) == 0x1_0000 && Pow2(24) == 0x100_0000
  {
    assert Pow2(8) == 0x100;
    Pow2Add(8, 8);
    Pow2Add(16, 8);
  }

  lemma FirstWord(block: seq<Byte>, i: nat)
    requires |block| == 64 && i < 16
    ensures LoadWord(block, i) == W(block, i)
  {
    hide LoadWord, BlockWord;
    LoadWordIsBlockWord(block, i);
  }

  lemma NextWord(block: seq<Byte>, i: nat)
    requires |block| == 64 && 16 <= i < 64
    ensures Add(Add(Add(Sigma1(W(block, i - 2)), W(block, i - 7)), Sigma0(W(block, i - 15))), W(block, i - 16))
        == W(block, i)
  {
    hide Sigma0, Sigma1, Add;
    Add4(Sigma1(W(block, i - 2)), W(block, i - 7), Sigma0(W(block, i - 15)), W(block, i - 16));
  }

  class Context {
    const state: array<Word>
    var count: nat            // uint64_t: bytes absorbed, modulo 2^64
    const buffer: array<Byte>
    ghost var fed: seq<Byte>  // everything absorbed so far

    constructor ()
      ensures fresh(state) && fresh(buffer) && state.Length == 8 && buffer.Length == 64
    {
      state := new Word[8];
      buffer := new Byte[64];
      count := 0;
      fed := [];
    }

    method Schedule(block: seq<Byte>) returns (w: array<Word>)
      requires |block| == 64
      ensures fresh(w) && w.Length == 64 && forall t :: 0 <= t < 64 ==> w[t] == W(block, t)
    {
      hide Sigma0, Sigma1, LoadWord, W, Add;
      w := new Word[64];
      var i := 0;
      while i < 16
        invariant 0 <= i <= 16
        invariant forall t :: 0 <= t < i ==> w[t] == W(block, t)
      {
        FirstWord(block, i);
        w[i] := LoadWord(block, i);
        i := i + 1;
      }
      while i < 64
        invariant 16 <= i <= 64
        invariant forall t :: 0 <= t < i ==> w[t] == W(block, t)
      {
        NextWord(block, i);
        w[i] := Add(Add(Add(Sigma1(w[i - 2]), w[i - 7]), Sigma0(w[i - 15])), w[i - 16]);
        i := i + 1;
      }
    }

    method RunRounds(block: seq<Byte>, w: array<Word>) returns (v: Vars)
      requires state.Length == 8 && |block| == 64
      requires w.Length == 64 && forall t :: 0 <= t < 64 ==> w[t] == W(block, t)
      ensures v == Rounds(state[..], block, ROUNDS)
    {
      hide Ch, Maj, BigSigma0, BigSigma1, Sigma0, Sigma1, K, W;
      var a, b, c, d := state[0], state[1], state[2], state[3];
      var e, f, g, h := state[4], state[5], state[6], state[7];
      var i := 0;
      while i < 64
        invariant 0 <= i <= 64
        invariant Vars(a, b, c, d, e, f, g, h) == Rounds(state[..], block, i)
      {
        Add5(h, BigSigma1(e), Ch(e, f, g), K()[i], w[i]);
        var t1 := Add(Add(Add(Add(h, BigSigma1(e)), Ch(e, f, g)), K()[i]), w[i]);
        var t2 := Add(BigSigma0(a), Maj(a, b, c));
        h := g;
        g := f;
        f := e;
        e := Add(d, t1);
        d := c;
        c := b;
        b := a;
        a := Add(t1, t2);
        i := i + 1;
      }
      v := Vars(a, b, c, d, e, f, g, h);
    }

    /** One 512-bit block. */
    method Transform(block: seq<Byte>)
      requires state.Length == 8 && |block| == 64
      modifies state
      ensures state[..] == Step(old(state[..]), block)
    {
      hide Rounds;
      var w := Schedule(block);
      var v := RunRounds(block, w);
      state[0] := Add(state[0], v.a);
      state[1] := Add(state[1], v.b);
      state[2] := Add(state[2], v.c);
      state[3] := Add(state[3], v.d);
      state[4] := Add(state[4], v.e);
      state[5] := Add(state[5], v.f);
      state[6] := Add(state[6], v.g);
      state[7] := Add(state[7], v.h);
    }

    /** Whole blocks are hashed, the rest waits in the buffer. */
    ghost predicate Valid()
      reads this, state, buffer
    {
      && state.Length == 8 && buffer.Length == 64
      && count == |fed| % M64
      && state[..] == Chain(Step, IV(), fed[..Full(fed)])
      && buffer[..|fed| % 64] == fed[Full(fed)..]
    }

    method Init()
      requires state.Length == 8 && buffer.Length == 64
      modifies this, state
      ensures Valid() && fed == []
    {
      hide Step;
      state[0], state[1], state[2], state[3] := 0x6a09e667, 0xbb67ae85, 0x3c6ef372, 0xa54ff53a;
      state[4], state[5], state[6], state[7] := 0x510e527f, 0x9b05688c, 0x1f83d9ab, 0x5be0cd19;
      count := 0;
      fed := [];
      assert state[..] == IV();
    }

    method CopyIn(index: nat, data: seq<Byte>)
      requires index + |data| <= buffer.Length
      modifies buffer
      ensures buffer[..index + |data|] == old(buffer[..index]) + data
    {
      var i := 0;
      while i < |data|
        invariant 0 <= i <= |data|
        invariant buffer[..index + i] == old(buffer[..index]) + data[..i]
      {
        buffer[index + i] := data[i];
        i := i + 1;
      }
      assert data[..i] == data;
    }

    method AbsorbBlocks(data: seq<Byte>)
      requires state.Length == 8
      modifies state
      ensures state[..] == Chain(Step, old(state[..]), data[..Full(data)])
    {
      hide Step;
      var pos := 0;
      while |data| - pos >= 64
        invariant 0 <= pos <= |data| && pos % 64 == 0
        invariant state[..] == Chain(Step, old(state[..]), data[..pos])
      {
        ChainBlock(Step, old(state[..]), data[..pos], data[pos..pos + 64]);
        assert data[..pos + 64] == data[..pos] + data[pos..pos + 64];
        Transform(data[pos..pos + 64]);
        pos := pos + 64;
      }
      assert pos == Full(data);
    }

    /** Fill the open block with the first k bytes and hash it. */
    method CloseOpen(data: seq<Byte>, k: nat)
      requires state.Length == 8 && buffer.Length == 64
      requires state[..] == Chain(Step, IV(), fed[..Full(fed)]) && buffer[..|fed| % 64] == fed[Full(fed)..]
      requires k <= |data| && |fed| % 64 + k == 64
      modifies state, buffer
      ensures (|fed| + k) % 64 == 0 && state[..] == Chain(Step, IV(), fed + data[..k])
    {
      hide Step, IV;
      CopyIn(64 - k, data[..k]);
      CloseBlock(Step, IV(), fed, data, k);
      assert buffer[..] == buffer[..64];
      Transform(buffer[..]);
    }

    /** Hash the whole blocks that follow and keep the remainder. */
    method TakeRest(data: seq<Byte>, k: nat)
      requires state.Length == 8 && buffer.Length == 64
      requires k <= |data| && (|fed| + k) % 64 == 0 && |fed| % 64 + k <= 64
      requires state[..] == Chain(Step, IV(), fed + data[..k])
      modifies state, buffer
      ensures state[..] == Chain(Step, IV(), (fed + data)[..Full(fed + data)])
      ensures buffer[..|fed + data| % 64] == (fed + data)[Full(fed + data)..]
    {
      hide Step, IV;
      var rest := data[k..];
      LongAppend(Step, IV(), fed, data, k);
      AbsorbBlocks(rest);
      CopyIn(0, rest[Full(rest)..]);
    }

    method Update(data: seq<Byte>)
      requires Valid()
      modifies this, state, buffer
      ensures Valid() && fed == old(fed) + data
    {
      hide Step, IV, Chain, Full;
      CountMore(|fed|, |data|);
      var index := count % 64;
      count := (count + |data|) % M64;
      if index != 0 {
        var available := 64 - index;
        if |data| < available {
          CopyIn(index, data);
          ShortAppend(fed, data);
          fed := fed + data;
          return;
        }
        CloseOpen(data, available);
        TakeRest(data, available);
      } else {
        NothingOpen(fed, data);
        TakeRest(data, 0);
      }
      fed := fed + data;
    }

    method UpdateAll(chunks: seq<seq<Byte>>)
      requires Valid() && fed == []
      modifies this, state, buffer
      ensures Valid() && fed == Concat(chunks)
    {
      hide *;
      ConcatNone(chunks);
      var i := 0;
      while i < |chunks|
        invariant 0 <= i <= |chunks| && Valid() && fed == Concat(chunks[..i])
      {
        ConcatSnoc(chunks, i);
        Update(chunks[i]);
        i := i + 1;
      }
      assert chunks[..i] == chunks;
    }

    method ZeroFill(from: nat, to: nat)
      requires from <= to <= buffer.Length
      modifies buffer
      ensures buffer[..to] == old(buffer[..from]) + Zeros(to - from)
    {
      var index := from;
      while index < to
        invariant from <= index <= to
        invariant buffer[..index] == old(buffer[..from]) + Zeros(index - from)
      {
        buffer[index] := 0;
        index := index + 1;
        assert Zeros(index - from) == Zeros(index - 1 - from) + [0];
      }
    }

    /** Marker byte; when it leaves no room for the length, flush a first closing block. */
    method CloseMessage(ghost m: seq<Byte>, start: nat) returns (index: nat, ghost done: seq<Byte>)
      requires state.Length == 8 && buffer.Length == 64 && start == |m| % 64
      requires state[..] == Chain(Step, IV(), m[..Full(m)]) && buffer[..start] == m[Full(m)..]
      modifies state, buffer
      ensures |done| % 64 == 0 && state[..] == Chain(Step, IV(), done)
      ensures start <= 55 ==> done == m[..Full(m)] && index == start + 1 && buffer[..index] == m[Full(m)..] + [0x80]
      ensures start > 55 ==> done == m[..Full(m)] + (m[Full(m)..] + [0x80] + Zeros(63 - start)) && index == 0
    {
      hide Step, IV;
      index := start;
      buffer[index] := 0x80;
      index := index + 1;
      done := m[..Full(m)];
      assert buffer[..index] == m[Full(m)..] + [0x80];
      if index > 56 {
        ZeroFill(index, 64);
        ghost var b1 := m[Full(m)..] + [0x80] + Zeros(63 - start);
        assert buffer[..] == buffer[..64] == b1;
        ChainBlock(Step, IV(), done, b1);
        Transform(buffer[..]);
        done := done + b1;
        index := 0;
      }
    }

    /** The padding tail shared by both copies: marker byte, zeros, big-endian bit length. */
    method FinishBlocks(ghost m: seq<Byte>, start: nat, bitCount: nat)
      requires state.Length == 8 && buffer.Length == 64
      requires start == |m| % 64 && bitCount == 8 * |m| % M64
      requires state[..] == Chain(Step, IV(), m[..Full(m)]) && buffer[..start] == m[Full(m)..]
      modifies state, buffer
      ensures state[..] == Chain(Step, IV(), Pad(m))
    {
      hide Step, IV, BigEndian, Pad;
      ghost var done;
      var index;
      index, done := CloseMessage(m, start);
      ghost var open := buffer[..index];
      ZeroFill(index, 56);
      StoreLength(bitCount);
      ghost var b2 := open + Zeros(56 - index) + BigEndian(bitCount, 8);
      assert buffer[..] == b2;
      ChainBlock(Step, IV(), done, b2);
      Transform(buffer[..]);
      if start <= 55 {
        PadOne(m);
      } else {
        assert b2 == Zeros(56) + BigEndian(bitCount, 8);
        PadTwo(m);
      }
    }

    method StoreLength(bitCount: nat)
      requires buffer.Length == 64 && bitCount < M64
      modifies buffer
      ensures buffer[..] == old(buffer[..56]) + BigEndian(bitCount, 8)
    {
      BigEndian8(bitCount);
      buffer[56] := bitCount / 0x100_0000_0000_0000 % 256;
      buffer[57] := bitCount / 0x1_0000_0000_0000 % 256;
      buffer[58] := bitCount / 0x100_0000_0000 % 256;
      buffer[59] := bitCount / 0x1_0000_0000 % 256;
      buffer[60] := bitCount / 0x100_0000 % 256;
      buffer[61] := bitCount / 0x1_0000 % 256;
      buffer[62] := bitCount / 0x100 % 256;
      buffer[63] := bitCount % 256;
    }

    method Output() returns (digest: seq<Byte>)
      requires state.Length == 8
      ensures digest == DigestBytes(state[..])
    {
      hide BigEndian;
      digest := [];
      var i := 0;
      while i < 8
        invariant 0 <= i <= 8
        invariant digest == DigestBytes(state[..i])
      {
        BigEndian4(state[i]);
        DigestSnoc(state[..i], state[i]);
        assert state[..i + 1] == state[..i] + [state[i]];
        digest := digest + [state[i] / 0x100_0000 % 256, state[i] / 0x1_0000 % 256, state[i] / 0x100 % 256,
            state[i] % 256];
        i := i + 1;
      }
      assert state[..8] == state[..];
    }

    /** The digest of everything absorbed. */
    method Final() returns (digest: seq<Byte>)
      requires Valid()
      modifies this, state, buffer
      ensures digest == Sha256(old(fed))
    {
      hide Step, IV, Pad;
      var index := count % 64;
      var bitCount := count * 8 % M64;
      assert index == |fed| % 64 && bitCount == 8 * |fed| % M64 by { WrapTimes8(|fed|); }
      FinishBlocks(fed, index, bitCount);
      digest := Output();
    }
  }

  /** The wrapped byte count keeps its block offset and grows with the data. */
  lemma CountMore(n: nat, k: nat)
    ensures n % M64 % 64 == n % 64 && (n % M64 + k) % M64 == (n + k) % M64
  {
    var q, r := n / M64, n % M64;
    assert n == M64 * q + r;
    ModShift(64, M64 / 64 * q, r);
    ModShift(M64, q, r + k);
  }

  lemma NothingOpen(m: seq<Byte>, d: seq<Byte>)
    requires |m| % 64 == 0
    ensures m[..Full(m)] == m == m + d[..0]
  {
  }

  lemma WrapTimes8(n: nat)
    ensures n % M64 * 8 % M64 == 8 * n % M64
    ensures n % M64 % 64 == n % 64
  {
    var q, r := n / M64, n % M64;
    ModShift(M64, 8 * q, 8 * r);
    ModShift(64, 0x400_0000_0000_0000 * q, r);
  }

  lemma BigEndian4(x: nat)
    ensures BigEndian(x, 4) == [x / 0x100_0000 % 256, x / 0x1_0000 % 256, x / 0x100 % 256, x % 256]
  {
    DivDiv(x, 256, 256);
    DivDiv(x, 0x1_0000, 256);
    assert BigEndian(x / 256 / 256 / 256, 1) == [x / 256 / 256 / 256 % 256];
    assert BigEndian(x / 256 / 256, 2) == [x / 256 / 256 / 256 % 256, x / 256 / 256 % 256];
  }

  lemma BigEndian8(x: nat)
    ensures BigEndian(x, 8) ==
            [x / 0x100_0000_0000_0000 % 256, x / 0x1_0000_0000_0000 % 256, x / 0x100_0000_0000 % 256,
                x / 0x1_0000_0000 % 256,
             x / 0x100_0000 % 256, x / 0x1_0000 % 256, x / 0x100 % 256, x % 256]
  {
    var y := x / 0x1_0000_0000;
    BigEndian4(x);
    BigEndian4(y);
    DivDiv(x, 0x1_0000_0000, 0x100);
    DivDiv(x, 0x1_0000_0000, 0x1_0000);
    DivDiv(x, 0x1_0000_0000, 0x100_0000);
    BigEndianSplit(x, 4, 4);
    DivDiv(x, 256, 256);
    DivDiv(x, 0x1_0000, 256);
    DivDiv(x, 0x100_0000, 256);
    DropFour(x);
  }

  /** Drop the low n bytes. */
  function DropBytes(x: nat, n: nat): nat {
    if n == 0 then x else DropBytes(x / 256, n - 1)
  }

  lemma {:induction false} DropFour(x: nat)
    ensures DropBytes(x, 4) == x / 256 / 256 / 256 / 256
  {
    var a := x / 256;
    var b := a / 256;
    var c := b / 256;
    var d := c / 256;
    assert DropBytes(d, 0) == d;
    assert DropBytes(c, 1) == d;
    assert DropBytes(b, 2) == d;
    assert DropBytes(a, 3) == d;
  }

  lemma {:induction false} BigEndianSplit(x: nat, k: nat, n: nat)
    ensures BigEndian(x, k + n) == BigEndian(DropBytes(x, n), k) + BigEndian(x, n)
  {
    if n > 0 {
      BigEndianSplit(x / 256, k, n - 1);
    }
  }

  lemma {:induction false} DigestSnoc(hs: seq<Word>, x: Word)
    ensures DigestBytes(hs + [x]) == DigestBytes(hs) + BigEndian(x, 4)
  {
    hide BigEndian;
    if hs == [] {
      assert hs + [x] == [x];
    } else {
      DigestSnoc(hs[1..], x);
      assert (hs + [x])[1..] == hs[1..] + [x];
    }
  }

  lemma Regroup<T>(a: seq<T>, b: seq<T>, x: seq<T>, y: seq<T>, l: seq<T>)
    ensures a + b + x + y + l == a + (b + x + y + l)
  {
  }

  lemma Regroup2<T>(a: seq<T>, b: seq<T>, x: seq<T>, y: seq<T>, z: seq<T>, l: seq<T>)
    ensures a + b + x + (y + z) + l == a + (b + x + y) + (z + l)
  {
  }

  lemma SplitOne(m: seq<Byte>, len: seq<Byte>)
    requires |m| % 64 <= 55
    ensures m + [0x80] + Zeros(ZeroPad(|m|)) + len == m[..Full(m)]
        + (m[Full(m)..] + [0x80] + Zeros(55 - |m| % 64) + len)
  {
    Regroup(m[..Full(m)], m[Full(m)..], [0x80], Zeros(55 - |m| % 64), len);
    assert m == m[..Full(m)] + m[Full(m)..];
    assert ZeroPad(|m|) == 55 - |m| % 64;
  }

  lemma SplitTwo(m: seq<Byte>, len: seq<Byte>)
    requires |m| % 64 > 55
    ensures m + [0x80] + Zeros(ZeroPad(|m|)) + len ==
            m[..Full(m)] + (m[Full(m)..] + [0x80] + Zeros(63 - |m| % 64)) + (Zeros(56) + len)
  {
    Regroup2(m[..Full(m)], m[Full(m)..], [0x80], Zeros(63 - |m| % 64), Zeros(56), len);
    assert m == m[..Full(m)] + m[Full(m)..];
    assert Zeros(ZeroPad(|m|)) == Zeros(63 - |m| % 64) + Zeros(56);
  }

  /** The padded message is the whole blocks plus one closing block ... */
  lemma PadOne(m: seq<Byte>)
    requires |m| % 64 <= 55
    ensures Pad(m) == m[..Full(m)] + (m[Full(m)..] + [0x80] + Zeros(55 - |m| % 64) + BigEndian(8 * |m| % M64, 8))
  {
    hide BigEndian, Full, ZeroPad, Zeros;
    SplitOne(m, BigEndian(8 * |m| % M64, 8));
  }

  /** ... or two, when the marker leaves no room for the length. */
  lemma PadTwo(m: seq<Byte>)
    requires |m| % 64 > 55
    ensures Pad(m) == m[..Full(m)] + (m[Full(m)..] + [0x80] + Zeros(63 - |m| % 64))
        + (Zeros(56) + BigEndian(8 * |m| % M64, 8))
  {
    hide BigEndian, Full, ZeroPad, Zeros;
    SplitTwo(m, BigEndian(8 * |m| % M64, 8));
  }

  /** One-shot hash of the kernel. */
  method Hash(data: seq<Byte>) returns (digest: seq<Byte>)
    ensures digest == Sha256(data)
  {
    hide Step, IV, Sha256;
    var ctx := new Context();
    ctx.Init();
    ctx.Update(data);
    assert ctx.fed == data;
    digest := ctx.Final();
  }

  /** One-shot hash of the bootloader. */
  method BootHash(data: seq<Byte>) returns (digest: seq<Byte>)
    ensures digest == Sha256(data)
  {
    hide Step, IV, Pad;
    var ctx := new Context();
    ctx.Init();
    assert ctx.state[..] == IV() by { assert ctx.fed[..Full(ctx.fed)] == []; }
    ctx.AbsorbBlocks(data);
    ctx.CopyIn(0, data[Full(data)..]);
    ctx.count := |data| % M64;
    WrapTimes8(|data|);
    ctx.FinishBlocks(data, |data| % 64, ctx.count * 8 % M64);
    digest := ctx.Output();
  }

  function Concat(chunks: seq<seq<Byte>>): seq<Byte> {
    if chunks == [] then [] else Concat(chunks[..|chunks| - 1]) + chunks[|chunks| - 1]
  }

  lemma ConcatNone(chunks: seq<seq<Byte>>)
    ensures Concat(chunks[..0]) == []
  {
  }

  lemma ConcatSnoc(chunks: seq<seq<Byte>>, i: nat)
    requires i < |chunks|
    ensures Concat(chunks[..i + 1]) == Concat(chunks[..i]) + chunks[i]
  {
    assert chunks[..i + 1][..i] == chunks[..i];
  }

  /** However a message is cut into updates, empty ones included, the digest is that of the whole. */
  method HashChunks(chunks: seq<seq<Byte>>) returns (digest: seq<Byte>)
    ensures digest == Sha256(Concat(chunks))
  {
    hide *;
    var ctx := new Context();
    ctx.Init();
    ctx.UpdateAll(chunks);
    digest := ctx.Final();
  }
}
