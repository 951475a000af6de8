/** Programming a variable-range MTRR for the framebuffer: kernel/drivers/framebuffer.c. */
module WriteCombining {
  import opened Common
  import opened Bits
  import opened BitMasks

  const M63: nat := 0x8000_0000_0000_0000
  /** Ranges are described to the 4 KiB page. */
  const PAGE: nat := 12
  /** PHYSMASK.V and DEF_TYPE.E are both bit 11. */
  const VALID: nat := 11
  const ENABLE: nat := 11
  const CD: nat := 30
  const NW: nat := 29
  const TYPE_WC: nat := 1
  const ADDR_MASK: nat := 0xFFFF_FFFF_FFFF_F000

  /** The least k with v <= 2^k. */
  function CeilLog(v: nat): (k: nat)
    ensures v <= Pow2(k)
    ensures k > 0 ==> Pow2(k - 1) < v
  {
    if v <= 1 then 0 else 1 + CeilLog((v + 1) / 2)
  }

  /** Every smaller power falls short, so the loop stops there. */
  lemma {:induction false} ShortOf(v: nat, i: nat)
    ensures i < CeilLog(v) <==> Pow2(i) < v
  {
    var k := CeilLog(v);
    if i < k { Pow2Mono(i, k - 1); } else { Pow2Mono(k, i); }
  }

  /** The doubling loop. A word that has wrapped to zero stays zero, so the loop would not end: None. */
  method Po2Up(v: nat) returns (r: Option<nat>)
    requires v < M64
    ensures r.None? <==> v > M63
    ensures r.Some? ==> r.value == Pow2(CeilLog(v)) <= M63
  {
    hide Pow2, CeilLog;
    ghost var i: nat := 0;
    One(v);
    if v == 0 { return Some(1); }
    var p := 1;
    while p < v
      invariant p == Pow2(i) && i <= CeilLog(v) && p <= M63
      decreases CeilLog(v) - i
    {
      ShortOf(v, i);
      Double(i);
      i := i + 1;
      Doubled(i);
      p := p * 2 % M64;
      if p == 0 { return None; }
    }
    ShortOf(v, i);
    return Some(p);
  }

  lemma Doubled(i: nat)
    requires i > 0 && Pow2(i) <= M64
    ensures Pow2(i) <= M63 || Pow2(i) == M64
  {
    hide Pow2;
    var n: nat :| n == 63;
    TopPow(n);
    if i <= n { Pow2Mono(i, n); } else { Pow2Mono(n + 1, i); }
  }

  /** Some iterate of the loop's variable reaches v exactly when v is at most 2^63. */
  lemma DoublingEnds(v: nat)
    requires v < M64
    ensures (exists i: nat :: Wrapped(i) >= v) <==> v <= M63
  {
    hide Pow2, CeilLog, Wrapped;
    var n: nat :| n == 63;
    WrappedTop(n);
    forall i: nat ensures Wrapped(i) <= M63 { WrappedBound(i); }
  }

  lemma WrappedTop(n: nat)
    requires n == 63
    ensures Wrapped(n) == M63
  {
    hide Pow2;
    TopPow(n);
  }

  lemma WrappedBound(i: nat)
    ensures Wrapped(i) <= M63
  {
    hide Pow2;
    var n: nat :| n == 63;
    TopPow(n);
    if i <= n {
      Pow2Mono(i, n);
    } else {
      Pow2Add(n + 1, i - n - 1);
      DivUnique(Pow2(i), M64, Pow2(i - n - 1), 0);
    }
  }

  lemma One(v: nat)
    ensures Pow2(0) == 1 && (v == 0 ==> CeilLog(v) == 0)
  {
  }

  lemma Double(i: nat)
    ensures Pow2(i) * 2 == Pow2(i + 1)
  {
  }

  lemma TopPow(n: nat)
    requires n == 63
    ensures Pow2(n) == M63 && Pow2(n + 1) == M64
  {
    var h: nat :| h == 8;
    EighthPow(h);
    Pow2Add(h, h);
    Pow2Add(2 * h, 2 * h);
    Pow2Add(4 * h, 4 * h);
    Double(n);
  }

  lemma EighthPow(h: nat)
    requires h == 8
    ensures Pow2(h) == 256
  {
  }

  /** The physical address width: CPUID leaf 0x80000008 when it is there and sane, else 36. */
  function PhysWidth(maxLeaf: nat, eax: nat): (w: nat)
    ensures 32 <= w <= 52
  {
    if maxLeaf >= 0x8000_0008 && 32 <= eax % 256 <= 52 then eax % 256 else 36
  }

  function MaskBits(w: nat): nat { And(Pow2(w) - 1, ADDR_MASK) }

  function BaseWord(base: nat): nat { Or(And(base, ADDR_MASK), TYPE_WC) }

  function MaskWord(po2: nat, w: nat): nat
    requires 0 < po2 <= M64
  {
    Or(And(M64 - 1 - (po2 - 1), MaskBits(w)), 0x800)
  }

  /** How a processor with w physical address bits reads one register pair
      (section 11.11.2.3 of Intel SDM volume 3A). */
  predicate Matches(w: nat, physBase: nat, physMask: nat, addr: nat) {
    && Bit(physMask, VALID)
    && And(addr, Field(physMask, PAGE, w)) == And(physBase, Field(physMask, PAGE, w))
  }

  /** The exponent of the block the pair selects: never less than a page. */
  function BlockLog(size: nat): nat { if CeilLog(size) < PAGE then PAGE else CeilLog(size) }

  lemma PagePow(k: nat)
    requires k == 12
    ensures Pow2(k) == 4096
  {
  }

  lemma MaskBitsAre(w: nat, k: nat)
    requires 12 <= w <= 64 && k == 12
    ensures Pow2(k) == 4096 <= Pow2(w) && MaskBits(w) == Pow2(w) - 4096
  {
    hide Pow2, And;
    var n: nat :| n == 63;
    TopPow(n);
    PagePow(k);
    AndField(Pow2(w) - 1, k, n + 1);
    Pow2Mono(w, n + 1);
    Pow2Mono(k, w);
    Pow2Add(k, w - k);
    var p := Pow2(w - k);
    assert Pow2(w) - 1 == 4096 * (p - 1) + 4095;
    DivUnique(Pow2(w) - 1, 4096, p - 1, 4095);
  }

  lemma Cut(p: nat, q: nat, a: nat)
    requires 0 < a <= p && q > 0
    ensures p * q >= a && (p * q - a) % p == p - a && (p * q - a) / p * p == p * q - p
  {
    assert p * q == p * (q - 1) + p;
    DivUnique(p * q - a, p, q - 1, p - a);
  }

  /** ~(2^k - 1) cut to w bits. */
  lemma HighPart(k: nat, w: nat, n: nat)
    requires k < w <= n
    ensures Pow2(k) <= Pow2(w) <= Pow2(n)
    ensures (Pow2(n) - Pow2(k)) % Pow2(w) == Pow2(w) - Pow2(k)
  {
    hide Pow2;
    Pow2Mono(k, w);
    Pow2Mono(w, n);
    Pow2Add(w, n - w);
    var m := Pow2(w) * Pow2(n - w);
    Cut(Pow2(w), Pow2(n - w), Pow2(k));
    assert m == Pow2(n);
  }

  /** Rounding 2^w - 2^k down to a page. */
  lemma RoundDown(k: nat, w: nat, j: nat)
    requires k < w && j <= w
    ensures Pow2(k) <= Pow2(w) && Pow2(if k < j then j else k) <= Pow2(w)
    ensures (Pow2(w) - Pow2(k)) / Pow2(j) * Pow2(j) == Pow2(w) - Pow2(if k < j then j else k)
  {
    hide Pow2;
    Pow2Mono(k, w);
    Pow2Mono(j, w);
    Pow2Add(j, w - j);
    var p, q := Pow2(j), Pow2(w - j);
    if k < j {
      Pow2Mono(k, j);
      Cut(p, q, Pow2(k));
    } else {
      Pow2Add(j, k - j);
      Pow2Mono(k - j, w - j);
      var r := Pow2(k - j);
      assert p * q - p * r == p * (q - r) + 0;
      DivUnique(Pow2(w) - Pow2(k), p, q - r, 0);
    }
  }

  /** PHYSMASK for a 2^k range: the address bits above the block, and the valid bit. */
  lemma MaskWordIs(k: nat, w: nat, j: nat, t: nat)
    requires k < w <= 52 && j == PAGE < w && t == if k < j then j else k
    ensures Pow2(k) <= M64 && Pow2(t) <= Pow2(w)
    ensures MaskWord(Pow2(k), w) == Pow2(w) - Pow2(t) + 0x800
    ensures (Pow2(w) - Pow2(t)) % Pow2(j) == 0
  {
    hide Pow2, And, Or;
    var n: nat :| n == 63;
    TopPow(n);
    MaskBitsAre(w, j);
    HighPart(k, w, n + 1);
    AndField(Pow2(n + 1) - Pow2(k), j, w);
    RoundDown(k, w, j);
    var high := Pow2(w) - Pow2(t);
    Pow2Multiple(t, w, j);
    OrDisjoint(high, 0x800, j);
  }

  lemma Pow2Multiple(t: nat, w: nat, j: nat)
    requires j <= t <= w
    ensures Pow2(t) <= Pow2(w) && (Pow2(w) - Pow2(t)) % Pow2(j) == 0
  {
    hide Pow2;
    Pow2Add(j, w - j);
    Pow2Add(j, t - j);
    Pow2Mono(t - j, w - j);
    Pow2Mono(t, w);
    MultipleGap(Pow2(j), Pow2(w - j), Pow2(t - j));
  }

  lemma MultipleGap(p: nat, q: nat, r: nat)
    requires r <= q && p > 0
    ensures p * r <= p * q && (p * q - p * r) % p == 0
  {
    assert p * q - p * r == p * (q - r) + 0;
    DivUnique(p * q - p * r, p, q - r, 0);
  }

  /** The processor's view of that mask: valid, and bits t..w-1. */
  lemma MaskRead(k: nat, w: nat, j: nat, t: nat)
    requires k < w <= 52 && j == PAGE < w && t == if k < j then j else k
    ensures Pow2(k) <= M64 && Pow2(t) <= Pow2(w)
    ensures Bit(MaskWord(Pow2(k), w), VALID)
    ensures Field(MaskWord(Pow2(k), w), j, w) == Pow2(w) - Pow2(t)
  {
    hide Pow2, And, Or, Shr, Bit;
    MaskWordIs(k, w, j, t);
    PagePow(j);
    Pow2Mono(j, t);
    var high := Pow2(w) - Pow2(t);
    ValidSet(And(M64 - 1 - (Pow2(k) - 1), MaskBits(w)));
    Below(high + 0x800, Pow2(w));
    assert high == 4096 * (high / 4096);
    DivUnique(high + 0x800, 4096, high / 4096, 0x800);
  }

  lemma Below(x: nat, m: nat)
    requires x < m
    ensures x % m == x
  {
  }

  lemma ValidSet(x: nat)
    ensures Bit(Or(x, 0x800), VALID)
  {
    hide Or, Shr;
    var v: nat :| v == VALID;
    BitPow2(v, v);
    PagePow(v + 1);
    Double(v);
    BitOr(x, 0x800, v);
  }

  /** PHYSBASE: the page of the base address, and the type in the low byte. */
  lemma BaseWordIs(base: nat)
    requires base < M64
    ensures BaseWord(base) == base / 4096 * 4096 + 1
  {
    hide Pow2, And, Or;
    var n, j: nat :| n == 63 && j == PAGE;
    TopPow(n);
    PagePow(j);
    AndField(base, j, n + 1);
    Below(base, M64);
    var q := base / 4096;
    DivUnique(q * 4096, 4096, q, 0);
    OrDisjoint(q * 4096, 1, j);
  }

  /** Adding type bits below the page keeps the block number. */
  lemma SameBlock(base: nat, j: nat, t: nat)
    requires j == PAGE <= t
    ensures (base / 4096 * 4096 + 1) / Pow2(t) == base / Pow2(t)
  {
    hide Pow2;
    PagePow(j);
    Pow2Add(j, t - j);
    var q := base / 4096;
    DivUnique(q * 4096 + 1, 4096, q, 1);
    DivDiv(q * 4096 + 1, 4096, Pow2(t - j));
    DivDiv(base, 4096, Pow2(t - j));
  }

  /** For an address the processor can form, masking keeps the block number. */
  lemma MaskedAddress(addr: nat, t: nat, w: nat)
    requires t <= w && addr < Pow2(w)
    ensures Pow2(t) <= Pow2(w) && And(addr, Pow2(w) - Pow2(t)) == addr / Pow2(t) * Pow2(t)
  {
    hide And, Pow2;
    AndField(addr, t, w);
    Below(addr, Pow2(w));
  }

  lemma SameProduct(a: nat, b: nat, m: nat)
    requires m > 0
    ensures a * m == b * m <==> a == b
  {
  }

  /** A non-zero base on the range's own boundary leaves room for the range below the width. */
  lemma AlignedFits(base: nat, k: nat, w: nat)
    requires 0 < base < Pow2(w) && base % Pow2(k) == 0
    ensures k < w
  {
    if w <= k {
      Pow2Mono(w, k);
      Below(base, Pow2(k));
    }
  }

  /** The pair selects exactly one aligned block, the one that holds the base. */
  lemma RangeExactly(w: nat, base: nat, size: nat, addr: nat)
    requires 32 <= w <= 52 && base < Pow2(w) && addr < Pow2(w) && CeilLog(size) < w
    ensures Pow2(CeilLog(size)) <= M64
    ensures Matches(w, BaseWord(base), MaskWord(Pow2(CeilLog(size)), w), addr)
       <==> addr / Pow2(BlockLog(size)) == base / Pow2(BlockLog(size))
  {
    hide Pow2, And, Or, Shr, Bit, CeilLog, MaskWord, BaseWord;
    var k, j, t := CeilLog(size), PAGE, BlockLog(size);
    MaskRead(k, w, j, t);
    MaskedAddress(addr, t, w);
    WidthFits(base, w);
    BaseWordIs(base);
    MaskedAddress(BaseWord(base), t, w);
    SameBlock(base, j, t);
    SameProduct(addr / Pow2(t), base / Pow2(t), Pow2(t));
  }

  /** An address below 2^w fits a word, and so does its page with the type bits. */
  lemma WidthFits(base: nat, w: nat)
    requires 32 <= w <= 52 && base < Pow2(w)
    ensures base < M64 && base / 4096 * 4096 + 1 < Pow2(w)
  {
    hide Pow2;
    var n, j: nat :| n == 63 && j == PAGE;
    TopPow(n);
    PagePow(j);
    Pow2Mono(w, n);
    Pow2Add(j, w - j);
    var q := base / 4096;
    MulGap(4096, q, Pow2(w - j));
  }

  /** The framebuffer lies in that block; from a page up the block is [base, base + 2^k), less than
      twice the framebuffer. */
  lemma BlockCovers(base: nat, size: nat, addr: nat)
    requires size > 0 && base % Pow2(CeilLog(size)) == 0
    ensures base <= addr < base + size ==> addr / Pow2(BlockLog(size)) == base / Pow2(BlockLog(size))
    ensures CeilLog(size) >= PAGE ==>
      (addr / Pow2(BlockLog(size)) == base / Pow2(BlockLog(size)) <==> base <= addr < base + Pow2(CeilLog(size)))
    ensures Pow2(CeilLog(size)) < 2 * size
  {
    hide Pow2, CeilLog;
    var k, t := CeilLog(size), BlockLog(size);
    HalfShort(size);
    InBlock(base, Pow2(k), addr);
    if t > k {
      Pow2Add(k, t - k);
      DivDiv(addr, Pow2(k), Pow2(t - k));
      DivDiv(base, Pow2(k), Pow2(t - k));
    }
  }

  lemma HalfShort(size: nat)
    requires size > 0
    ensures size <= Pow2(CeilLog(size)) < 2 * size
  {
  }

  lemma InBlock(base: nat, m: nat, addr: nat)
    requires m > 0 && base % m == 0
    ensures addr / m == base / m <==> base <= addr < base + m
  {
    var q := base / m;
    assert base == m * q && addr == m * (addr / m) + addr % m;
    if base <= addr < base + m {
      DivUnique(addr, m, q, addr - base);
    }
  }

  /** Doubling never brings a misaligned base into line, not even when the word wraps to zero. */
  lemma NeverAligned(base: nat, k: nat, i: nat)
    requires base < M64 && base % Pow2(k) != 0
    ensures base % Pow2(k + i) != 0
  {
    if base % Pow2(k + i) == 0 { Divides(base, k, k + i); }
  }

  /** The low bits a C test against g - 1 looks at, for g a power of two or wrapped to zero. */
  function LowBits(base: nat, g: nat): nat { And(base, (g + M64 - 1) % M64) }

  function Wrapped(k: nat): nat { Pow2(k) % M64 }

  lemma LowBitsAre(base: nat, k: nat)
    requires base < M64
    ensures k < 64 ==> Pow2(k) < M64 && LowBits(base, Wrapped(k)) == base % Pow2(k)
    ensures k >= 64 ==> LowBits(base, Wrapped(k)) == base
  {
    hide Pow2, And;
    var n: nat :| n == 63;
    TopPow(n);
    if k < 64 {
      Pow2Mono(k, n);
      LowMask(base, k, Pow2(k));
    } else {
      Pow2Mono(n + 1, k);
      Pow2Add(n + 1, k - n - 1);
      DivUnique(Pow2(k), M64, Pow2(k - n - 1), 0);
      LowMask(base, n + 1, M64);
      Below(base, M64);
    }
  }

  lemma LowMask(base: nat, k: nat, m: nat)
    requires m == Pow2(k) <= M64
    ensures m < M64 ==> (m + M64 - 1) % M64 == m - 1
    ensures And(base, m - 1) == base % m
  {
    hide And;
    AndField(base, 0, k);
    if m < M64 { DivUnique(m + M64 - 1, M64, 1, m - 1); }
  }

  lemma WrappedDouble(k: nat)
    ensures Wrapped(k) * 2 % M64 == Wrapped(k + 1)
  {
    hide Pow2;
    Double(k);
    var q, r := Pow2(k) / M64, Pow2(k) % M64;
    assert Pow2(k) == M64 * q + r;
    assert Pow2(k + 1) == M64 * (2 * q) + r * 2;
    ModShift(M64, 2 * q, r * 2);
  }

  datatype Range = Endless | Misaligned | Covering(po2: nat)

  /** The range the kernel settles on. The growing loop cannot help: the range is found exactly when
      the base is aligned to the rounded size. */
  method CoveringRange(base: nat, size: nat) returns (r: Range)
    requires 0 < base < M64 && 0 < size < M64
    ensures r.Endless? <==> size > M63
    ensures r.Covering? <==> size <= M63 && base % Pow2(CeilLog(size)) == 0
    ensures r.Covering? ==> r.po2 == Pow2(CeilLog(size))
  {
    hide Pow2, CeilLog, And, LowBits, Wrapped;
    var up := Po2Up(size);
    if up.None? { return Endless; }
    var po2: nat := up.value;
    ghost var k := CeilLog(size);
    SmallPow(size);
    LowBitsAre(base, k);
    if LowBits(base, po2) != 0 {
      var grown: nat := po2;
      var bailed := true;
      var i := 0;
      while i < 8
        invariant 0 <= i <= 8 && grown == Wrapped(k + i) && bailed
      {
        NeverAligned(base, k, i);
        LowBitsAre(base, k + i);
        if LowBits(base, grown) == 0 {
          bailed := false;
          break;
        }
        WrappedDouble(k + i);
        grown := grown * 2 % M64;
        i := i + 1;
      }
      if bailed { return Misaligned; }
      po2 := grown;
    }
    return Covering(po2);
  }

  lemma SmallPow(size: nat)
    requires size <= M63
    ensures CeilLog(size) < 64 && Wrapped(CeilLog(size)) == Pow2(CeilLog(size)) <= M64
  {
    hide Pow2, CeilLog;
    var n: nat :| n == 63;
    TopPow(n);
    ShortOf(size, n);
    Pow2Mono(CeilLog(size), n);
    Below(Pow2(CeilLog(size)), M64);
  }

  /** The processor state the kernel touches. A pair may only be written in the window the Intel
      protocol opens: interrupts off, caches in no-fill mode, MTRRs disabled. */
  class Processor {
    const maxLeaf: nat
    const leafEax: nat
    const physBase: array<nat>
    const physMask: array<nat>
    var defType: nat
    var cr0: nat
    var interrupts: bool

    ghost predicate Valid()
      reads this, physBase, physMask
    {
      && physBase != physMask && physBase.Length == physMask.Length < 256
      && defType < M64 && cr0 < M64
    }

    constructor (count: nat, maxLeaf: nat, leafEax: nat)
      requires count < 256
      ensures Valid() && physMask.Length == count && fresh(physBase) && fresh(physMask)
      ensures this.maxLeaf == maxLeaf && this.leafEax == leafEax
    {
      this.maxLeaf, this.leafEax := maxLeaf, leafEax;
      physBase, physMask := new nat[count], new nat[count];
      defType, cr0, interrupts := 0, 0, true;
    }

    ghost predicate WindowOpen()
      reads this
    {
      !interrupts && Bit(cr0, CD) && !Bit(cr0, NW) && !Bit(defType, ENABLE)
    }

    method WritePair(slot: nat, base: nat, mask: nat)
      requires Valid() && slot < physMask.Length && WindowOpen()
      modifies physBase, physMask
      ensures physBase[..] == old(physBase[..])[slot := base]
      ensures physMask[..] == old(physMask[..])[slot := mask]
    {
      physBase[slot] := base;
      physMask[slot] := mask;
    }

    /** The lowest pair whose valid bit is clear, or -1. */
    method FindFree() returns (slot: int)
      requires Valid()
      ensures slot == -1 || 0 <= slot < physMask.Length
      ensures slot >= 0 ==> !Bit(physMask[slot], VALID)
      ensures forall i :: 0 <= i < physMask.Length && (slot == -1 || i < slot) ==> Bit(physMask[i], VALID)
    {
      hide Bit, And;
      slot := -1;
      var i := 0;
      while i < physMask.Length
        invariant 0 <= i <= physMask.Length && slot == -1
        invariant forall j :: 0 <= j < i ==> Bit(physMask[j], VALID)
      {
        ValidTest(physMask[i]);
        if And(physMask[i], 0x800) == 0 {
          slot := i;
          break;
        }
        i := i + 1;
      }
    }

    method EnableWriteCombining(base: nat, size: nat) returns (r: Outcome)
      requires Valid() && base < M64 && size < M64
      modifies this, physBase, physMask
      ensures Valid() && cr0 == old(cr0)
      ensures r.Stuck? <==> base != 0 && size > M63 && physMask.Length != 0
      ensures r.Programmed? <==>
        && base != 0 && 0 < size <= M63 && base % Pow2(CeilLog(size)) == 0
        && exists i :: 0 <= i < physMask.Length && !Bit(old(physMask[i]), VALID)
      ensures !r.Programmed? ==> physBase[..] == old(physBase[..]) && physMask[..] == old(physMask[..])
      ensures !r.Programmed? ==> defType == old(defType) && interrupts == old(interrupts)
      ensures r.Programmed? ==> r.slot < physMask.Length && !Bit(old(physMask[r.slot]), VALID)
      ensures r.Programmed? ==> forall i :: 0 <= i < r.slot ==> Bit(old(physMask[i]), VALID)
      ensures r.Programmed? ==> forall i :: 0 <= i < physMask.Length && i != r.slot ==>
        physBase[i] == old(physBase[i]) && physMask[i] == old(physMask[i])
      ensures r.Programmed? ==> interrupts && defType == Or(old(defType), 0x800)
      ensures r.Programmed? && base < Pow2(PhysWidth(maxLeaf, leafEax)) ==>
        Selects(PhysWidth(maxLeaf, leafEax), physBase[r.slot], physMask[r.slot], base, BlockLog(size))
    {
      hide Pow2, CeilLog, And, Or, Shr, Bit, PhysWidth, BaseWord, MaskWord, Selects, BlockLog;
      if base == 0 || size == 0 || physMask.Length == 0 { return Skipped; }
      var range := CoveringRange(base, size);
      if range.Endless? { return Stuck; }
      if range.Misaligned? { return Skipped; }
      var po2 := range.po2;
      var slot := FindFree();
      if slot < 0 { return Skipped; }
      var w := PhysWidth(maxLeaf, leafEax);
      interrupts := false;
      var savedCr0 := cr0;
      NoFill(savedCr0);
      cr0 := And(Or(savedCr0, 0x4000_0000), M64 - 1 - 0x2000_0000);
      var savedType := defType;
      Disabled(savedType);
      defType := And(savedType, M64 - 1 - 0x800);
      SmallPow(size);
      WritePair(slot, BaseWord(base), MaskWord(po2, w));
      defType := Or(savedType, 0x800);
      cr0 := savedCr0;
      interrupts := true;
      if base < Pow2(w) { PairSelects(w, base, size); }
      return Programmed(slot);
    }
  }

  /** What a call comes to: caught in the rounding loop, nothing to do, or a pair written. */
  datatype Outcome = Stuck | Skipped | Programmed(slot: nat)

  /** The pair selects exactly the addresses in the 2^t block of the base. */
  ghost predicate Selects(w: nat, physBase: nat, physMask: nat, base: nat, t: nat) {
    forall addr: nat :: addr < Pow2(w) ==>
      (Matches(w, physBase, physMask, addr) <==> addr / Pow2(t) == base / Pow2(t))
  }

  lemma ValidTest(mask: nat)
    ensures And(mask, 0x800) == 0 <==> !Bit(mask, VALID)
  {
    hide And, Shr;
    var v: nat :| v == VALID;
    PagePow(v + 1);
    Double(v);
    AndPow2(mask, v);
  }

  lemma PairSelects(w: nat, base: nat, size: nat)
    requires 32 <= w <= 52 && 0 < base < Pow2(w) && base % Pow2(CeilLog(size)) == 0
    ensures Pow2(CeilLog(size)) <= M64
    ensures Selects(w, BaseWord(base), MaskWord(Pow2(CeilLog(size)), w), base, BlockLog(size))
  {
    hide Pow2, CeilLog, BaseWord, MaskWord, Matches, BlockLog;
    AlignedFits(base, CeilLog(size), w);
    RangeExactly(w, base, size, 0);
    forall addr: nat | addr < Pow2(w)
      ensures Matches(w, BaseWord(base), MaskWord(Pow2(CeilLog(size)), w), addr)
         <==> addr / Pow2(BlockLog(size)) == base / Pow2(BlockLog(size))
    {
      RangeExactly(w, base, size, addr);
    }
  }

  /** Clearing bit k of a word. */
  lemma Cleared(x: nat, k: nat, j: nat)
    requires k < 64 && j < 64
    ensures Pow2(k) < M64 && (Bit(And(x, M64 - 1 - Pow2(k)), j) <==> j != k && Bit(x, j))
  {
    hide Pow2, And, Shr, Bit;
    var n: nat :| n == 63;
    TopPow(n);
    Pow2Mono(k, n);
    BitNot(Pow2(k), j, n + 1);
    BitPow2(k, j);
    BitAnd(x, M64 - 1 - Pow2(k), j);
  }

  lemma ThirtyPow(k: nat)
    requires k == NW
    ensures Pow2(k) == 0x2000_0000 && Pow2(k + 1) == 0x4000_0000
  {
    hide Pow2;
    var h: nat :| h == 8;
    EighthPow(h);
    Pow2Add(h, h);
    Pow2Add(2 * h, 2 * h);
    Double(k); Double(k + 1); Double(k + 2);
  }

  lemma NoFill(cr0: nat)
    ensures Bit(And(Or(cr0, 0x4000_0000), M64 - 1 - 0x2000_0000), CD)
    ensures !Bit(And(Or(cr0, 0x4000_0000), M64 - 1 - 0x2000_0000), NW)
    ensures And(Or(cr0, 0x4000_0000), M64 - 1 - 0x2000_0000) < M64
  {
    hide Pow2, And, Or, Shr, Bit;
    var k: nat :| k == NW;
    ThirtyPow(k);
    Cleared(Or(cr0, 0x4000_0000), k, k);
    Cleared(Or(cr0, 0x4000_0000), k, k + 1);
    BitOr(cr0, 0x4000_0000, k + 1);
    BitPow2(k + 1, k + 1);
    AndLe(Or(cr0, 0x4000_0000), M64 - 1 - 0x2000_0000);
  }

  lemma Disabled(x: nat)
    requires x < M64
    ensures !Bit(And(x, M64 - 1 - 0x800), ENABLE)
    ensures And(x, M64 - 1 - 0x800) < M64 && Or(x, 0x800) < M64
  {
    hide Pow2, And, Or, Shr, Bit;
    var v, n: nat :| v == ENABLE && n == 63;
    PagePow(v + 1);
    Double(v);
    Cleared(x, v, v);
    TopPow(n);
    OrBound(x, 0x800, n + 1);
    AndLe(x, M64 - 1 - 0x800);
  }
}
