/** The bootloader's page-table builder, over the walk of module PageWalk. */
module PageBuilder {
  import opened Common
  import opened Bits
  import opened PageWalk

  const MB2: nat := 0x20_0000
  const KERNEL_VMA: nat := 0xFFFF_FFFF_8000_0000
  const KERNEL_LINEAR: nat := 0xFFFF_8000_0000   // KERNEL_VMA as a 48-bit linear address
  const GB4: nat := 0x1_0000_0000

  /** What the firmware's AllocatePages answers. */
  datatype Answer = Denied | Granted(addr: nat)

  // ---------------------------------------------------------------- frames and entries

  /** Only linked tables matter to the tree and to translation. */
  ghost predicate Agree(m: Mem, m': Mem, sh: Shape) {
    forall t :: t in sh.lvl && t in m ==> t in m' && m'[t] == m[t]
  }

  lemma TreeFrame(m: Mem, m': Mem, sh: Shape, root: nat)
    requires Tree(m, sh, root) && Agree(m, m', sh)
    ensures Tree(m', sh, root)
  {
    forall t, i | t in sh.lvl && 0 <= i < 512 ensures EntryOk(m', sh, t, i) {
      assert EntryOk(m, sh, t, i);
      assert Entry(m', t, i) == Entry(m, t, i);
    }
  }

  lemma {:induction false} WalkFrame(m: Mem, m': Mem, sh: Shape, root: nat, t: nat, level: nat, v: nat, w: bool)
    requires Tree(m, sh, root) && Agree(m, m', sh)
    requires 1 <= level <= 4 && t in sh.lvl && sh.lvl[t] == level
    ensures WalkFrom(m', t, level, v, w) == WalkFrom(m, t, level, v, w)
    decreases level
  {
    var e := Entry(m, t, Index(v, level));
    assert EntryOk(m, sh, t, Index(v, level));
    assert Entry(m', t, Index(v, level)) == e;
    if Present(e) && !IsLeaf(e, level) && !Large(e) {
      WalkFrame(m, m', sh, root, Frame(e), level - 1, v, w && Writable(e));
    }
  }

  lemma {:induction false} PathFrame(m: Mem, m': Mem, sh: Shape, root: nat, v: nat, level: nat)
    requires Tree(m, sh, root) && Agree(m, m', sh) && 1 <= level <= 4
    ensures TableAt(m', root, v, level) == TableAt(m, root, v, level)
    decreases 4 - level
  {
    if level < 4 {
      PathFrame(m, m', sh, root, v, level + 1);
      TableAtLevel(m, sh, root, v, level + 1);
    }
  }

  /** A present 2 MB page covers virt. */
  ghost predicate LargeCovers(mem: Mem, root: nat, virt: nat) {
    var at := TableAt(mem, root, virt, 2);
    at.Table? && Present(Entry(mem, at.t, Index(virt, 2))) && Large(Entry(mem, at.t, Index(virt, 2)))
  }

  lemma SameView(m: Mem, m': Mem, sh: Shape, root: nat, virt: nat, level: nat)
    requires Tree(m, sh, root) && Agree(m, m', sh) && 1 <= level <= 4
    ensures forall v :: Walk(m', root, v) == Walk(m, root, v)
    ensures TableAt(m', root, virt, level) == TableAt(m, root, virt, level)
    ensures LargeCovers(m', root, virt) == LargeCovers(m, root, virt)
  {
    forall v ensures Walk(m', root, v) == Walk(m, root, v) {
      WalkFrame(m, m', sh, root, root, 4, v, true);
    }
    PathFrame(m, m', sh, root, virt, level);
    PathFrame(m, m', sh, root, virt, 2);
    TableAtLevel(m, sh, root, virt, 2);
  }

  /** Linking a fresh table under virt's absent entry extends virt's path and nothing else. */
  lemma LinkStep(m: Mem, sh: Shape, root: nat, virt: nat, level: nat, t: nat, a: nat)
    requires Tree(m, sh, root) && 2 <= level <= 4 && TableAt(m, root, virt, level) == Table(t)
    requires t in sh.lvl && sh.lvl[t] == level && !Present(Entry(m, t, Index(virt, level)))
    requires FrameAddress(a) && a !in sh.lvl && a in m && m[a] == EmptyTable()
    ensures var m' := Store(m, t, Index(virt, level), Link(a));
            && Tree(m', Shape(sh.lvl[a := level - 1], sh.own[a := (t, Index(virt, level))]), root)
            && (forall v :: Walk(m', root, v) == Walk(m, root, v))
            && TableAt(m', root, virt, level - 1) == Table(a)
            && !LargeCovers(m', root, virt)
  {
    var i := Index(virt, level);
    var m' := Store(m, t, i, Link(a));
    LinkTree(m, sh, root, t, i, a);
    LinkBits(a);
    forall v ensures Walk(m', root, v) == Walk(m, root, v) {
      LinkInvisible(m, sh, root, t, i, a, root, 4, v, true);
    }
    PathKept(m, sh, root, t, i, Link(a), virt, level);
    LinkUncovered(m', root, virt, level, t, a);
  }

  lemma LinkUncovered(m': Mem, root: nat, virt: nat, level: nat, t: nat, a: nat)
    requires 2 <= level <= 4 && TableAt(m', root, virt, level) == Table(t)
    requires FrameAddress(a) && Entry(m', t, Index(virt, level)) == Link(a)
    requires level >= 3 ==> forall j :: 0 <= j < 512 ==> Entry(m', a, j) == 0
    ensures TableAt(m', root, virt, level - 1) == Table(a)
    ensures !LargeCovers(m', root, virt)
  {
    LinkBits(a);
    assert TableAt(m', root, virt, level - 1) == Table(a);
    if level == 4 {
      assert TableAt(m', root, virt, 2).Nowhere?;
    }
  }

  /** What an address translates to when the last entry on its path is e. */
  function Mapped(e: nat, level: nat, v: nat): Translation {
    if Present(e) then Leaf(e, level, v, true) else Fault
  }

  /** The large-page entry map_page_2mb writes. */
  function LargeEntry(phys: nat, flags: nat): nat { Or(Or(phys, flags), 128) }

  lemma LargeEntryIsLarge(phys: nat, flags: nat)
    ensures Large(LargeEntry(phys, flags))
  {
    Pow2Twelve();
    OrSets(Or(phys, flags), 7);
  }

  /** For a page-aligned frame: present, writable, and the frame shows through. */
  lemma LargeEntryBits(phys: nat)
    requires FrameAddress(phys)
    ensures LargeEntry(phys, 3) == phys + 0x83
  {
    Pow2Twelve();
    OrDisjoint(phys, 3, 12);
    AlignedPlus(phys, 3);
    ShrIsDiv(phys + 3, 7);
    OrClearBit(phys + 3, 7);
  }

  /** The 2 MB frame an address lies in. */
  function LargeFrame(a: nat): nat { a / MB2 * MB2 }

  /** A 2 MB entry built from a page-aligned frame maps the enclosing 2 MB frame, unless one of
      the reserved bits 20:13 is set, in which case every access faults. */
  lemma LargePageExactly(phys: nat, v: nat)
    requires FrameAddress(phys)
    ensures var e := LargeEntry(phys, 3);
            && Present(e) && Large(e)
            && Leaf(e, 2, v, true) == if phys % MB2 >= 0x2000 then Fault else Page(LargeFrame(phys) + v % MB2, true)
  {
    hide LargeEntry;
    LargeEntryBits(phys);
    AlignedPlus(phys, 0x83);
    PageInLarge(phys);
    DivUnique(phys + 0x83, MB2, phys / MB2, phys % MB2 + 0x83);
  }

  lemma PageInLarge(phys: nat)
    requires phys % 0x1000 == 0
    ensures phys % MB2 % 0x1000 == 0
  {
    var r := phys % MB2;
    DivUnique(phys, 0x1000, phys / MB2 * 512 + r / 0x1000, r % 0x1000);
  }

  /** The identity map of the first n bytes. */
  function Identity(n: nat, v: nat): Translation {
    if v < n then Page(v, true) else Fault
  }

  /** Bootloader tables: the low 4 GB onto itself, the kernel's pages at KERNEL_VMA. */
  function BootMap(kernelPhys: nat, pages: nat, v: nat): Translation {
    if KERNEL_LINEAR <= v < KERNEL_LINEAR + pages * MB2 then Page(kernelPhys + (v - KERNEL_LINEAR), true)
    else Identity(GB4, v)
  }

  /** The loop counts whole 2 MB pages in 64-bit arithmetic. */
  function PagesFor(size: nat): nat { (size + MB2 - 1) % M64 / MB2 }

  /** It rounds up: page k counts exactly when the size reaches into it.  Within 2 MB of 2^64 the sum wraps
      and no page is left. */
  lemma PagesRoundUp(size: nat, k: nat)
    requires size < M64
    ensures size <= M64 - MB2 ==> size <= PagesFor(size) * MB2 && (size > 0 ==> (PagesFor(size) - 1) * MB2 < size)
    ensures size <= M64 - MB2 ==> (k < PagesFor(size) <==> k * MB2 < size)
    ensures size > M64 - MB2 ==> PagesFor(size) == 0
  {
    var n := size + MB2 - 1;
    if size <= M64 - MB2 {
      SmallWord(n);
    } else {
      DivUnique(n, M64, 1, n - M64);
    }
  }

  /** An entry for a 2 MB-aligned frame maps exactly that frame. */
  lemma AlignedFrame(phys: nat, v: nat)
    requires phys % MB2 == 0 && phys < 0x10_0000_0000_0000
    ensures Mapped(LargeEntry(phys, 3), 2, v) == Page(phys + v % MB2, true)
  {
    DivUnique(phys, 0x1000, phys / MB2 * 512, 0);
    LargePageExactly(phys, v);
  }

  lemma SmallWord(x: nat)
    requires x < M64
    ensures x % M64 == x
  {
  }

  lemma KernelFrame(kernelPhys: nat, i: nat, v: nat)
    requires i < 1024 && kernelPhys % MB2 == 0 && kernelPhys + 0x8000_0000 <= 0x10_0000_0000_0000
    ensures Mapped(LargeEntry((kernelPhys + i * MB2) % M64, 3), 2, v) == Page(kernelPhys + i * MB2 + v % MB2, true)
  {
    var phys := kernelPhys + i * MB2;
    DivUnique(phys, MB2, kernelPhys / MB2 + i, 0);
    AlignedFrame(phys, v);
    SmallWord(phys);
  }

  /** Identity-mapping i framebuffer pages over an earlier translation: exact for a frame whose
      bits 20:13 are clear, a fault on every touched page otherwise. */
  function FramebufferMap(fb: nat, i: nat, v: nat, before: Translation): Translation {
    if fb / MB2 <= v / MB2 < fb / MB2 + i then (if fb % MB2 < 0x2000 then Page(v, true) else Fault) else before
  }

  /** The loop counts pages by size alone, so a base inside its first 2 MB page can push the end of the
      framebuffer past the last page mapped: here by all but one page. */
  lemma FramebufferTailLost()
    ensures var fb, size, v := 0xC000_1000, MB2, 0xC020_0000;
      && fb <= v < fb + size && fb % 0x1000 == 0 && fb % MB2 < 0x2000
      && FramebufferMap(fb, PagesFor(size), v, Fault) == Fault
  {
  }

  /** Over addresses that were unmapped, every byte of the framebuffer translates to itself exactly when
      bits 20:13 of the base are clear and the base's offset fits into what the last page has to spare. */
  lemma FramebufferCovered(fb: nat, size: nat)
    ensures (forall v: nat :: fb <= v < fb + size ==> FramebufferMap(fb, PagesFor(size), v, Fault) == Page(v, true))
       <==> size == 0 || (fb % MB2 < 0x2000 && fb % MB2 + size <= PagesFor(size) * MB2)
    ensures size < M64 ==>
      ((forall v: nat :: fb <= v < fb + size ==> FramebufferMap(fb, PagesFor(size), v, Fault) == Page(v, true))
       <==> size == 0 || (size <= M64 - MB2 && fb % MB2 < 0x2000 && fb % MB2 <= (MB2 - size % MB2) % MB2))
  {
    FramebufferCounted(fb, size);
    if 0 < size < M64 { Spare(fb, size); }
  }

  lemma Spare(fb: nat, size: nat)
    requires 0 < size < M64
    ensures fb % MB2 + size <= PagesFor(size) * MB2 <==> size <= M64 - MB2 && fb % MB2 <= (MB2 - size % MB2) % MB2
  {
    PagesRoundUp(size, 0);
    hide PagesFor;
    var q, r := size / MB2, size % MB2;
    assert size == q * MB2 + r;
    if size <= M64 - MB2 {
      assert PagesFor(size) == if r == 0 then q else q + 1;
    }
  }

  lemma FramebufferCounted(fb: nat, size: nat)
    ensures (forall v: nat :: fb <= v < fb + size ==> FramebufferMap(fb, PagesFor(size), v, Fault) == Page(v, true))
       <==> size == 0 || (fb % MB2 < 0x2000 && fb % MB2 + size <= PagesFor(size) * MB2)
  {
    var pages := PagesFor(size);
    hide PagesFor;
    forall v: nat | fb <= v < fb + size
      ensures FramebufferMap(fb, pages, v, Fault) == Page(v, true)
         <==> fb % MB2 < 0x2000 && fb % MB2 + (v - fb) < pages * MB2
    {
      FramebufferByte(fb, pages, v);
    }
    if size > 0 {
      var last: nat := fb + size - 1;
      assert FramebufferMap(fb, pages, last, Fault) == Page(last, true)
        <==> fb % MB2 < 0x2000 && fb % MB2 + (last - fb) < pages * MB2;
    }
  }

  lemma FramebufferByte(fb: nat, pages: nat, v: nat)
    requires fb <= v
    ensures FramebufferMap(fb, pages, v, Fault) == Page(v, true)
       <==> fb % MB2 < 0x2000 && fb % MB2 + (v - fb) < pages * MB2
  {
    var q, r := fb / MB2, fb % MB2;
    assert fb == q * MB2 + r;
    assert v / MB2 < q + pages <==> v < (q + pages) * MB2;
  }

  lemma FramebufferFrame(fb: nat, i: nat)
    requires fb % 0x1000 == 0 && fb + i * MB2 < LINEAR
    ensures var phys := fb + i * MB2;
            phys % M64 == phys && FrameAddress(phys) && phys / MB2 == fb / MB2 + i && phys % MB2 == fb % MB2
  {
    var phys := fb + i * MB2;
    SmallWord(phys);
    DivUnique(phys, MB2, fb / MB2 + i, fb % MB2);
    DivUnique(phys, 0x1000, fb / 0x1000 + i * 512, 0);
  }

  lemma IdentityLeaf(phys: nat, v: nat)
    requires FrameAddress(phys) && v / MB2 == phys / MB2
    ensures Mapped(LargeEntry(phys, 3), 2, v) == if phys % MB2 < 0x2000 then Page(v, true) else Fault
  {
    LargePageExactly(phys, v);
  }

  // ---------------------------------------------------------------- what a page costs

  /** A page the builder can use. */
  predicate Good(a: Answer) { a.Granted? && a.addr != 0 }

  /** The next n answers are all good. */
  predicate GoodPrefix(s: seq<Answer>, n: nat) {
    n <= |s| && forall k :: 0 <= k < n ==> Good(s[k])
  }

  function Tail(s: seq<Answer>): seq<Answer> { if s == [] then [] else s[1..] }

  /** What is left after the first answer that is not good. */
  function AfterBad(s: seq<Answer>): seq<Answer> {
    if s == [] then [] else if Good(s[0]) then AfterBad(s[1..]) else s[1..]
  }

  ghost predicate Reaches(mem: Mem, root: nat, v: nat, level: nat)
    requires 1 <= level <= 4
  {
    TableAt(mem, root, v, level).Table?
  }

  /** How many tables v's path lacks above the one that holds its 2 MB entry. */
  ghost function Missing(mem: Mem, root: nat, v: nat): nat {
    (if Reaches(mem, root, v, 3) then 0 else 1) + (if Reaches(mem, root, v, 2) then 0 else 1)
  }

  /** The number of the gigabyte v lies in. */
  function Gb(v: nat): nat { Index(v, 4) * 512 + Index(v, 3) }

  /** v and w share the entries on their paths down to this level. */
  predicate SharesPath(v: nat, w: nat, level: nat)
    requires 2 <= level <= 4
  {
    Index(v, 4) == Index(w, 4) && (level <= 3 ==> Index(v, 3) == Index(w, 3))
        && (level <= 2 ==> Index(v, 2) == Index(w, 2))
  }

  /** Tables gigabyte g lacks once gigabyte page has all of its own. */
  function Touched(lacks: nat, g: nat, page: nat): nat {
    if g == page then 0 else if g / 512 == page / 512 && lacks > 1 then 1 else lacks
  }

  function PageAt(base: nat, k: nat): nat { base + k * MB2 }

  /** Tables gigabyte g lacks once i pages from base on are mapped. */
  function AfterRun(lacks: nat, g: nat, base: nat, i: nat): nat {
    if i == 0 then lacks else Touched(AfterRun(lacks, g, base, i - 1), g, Gb(PageAt(base, i - 1)))
  }

  /** Tables that mapping i pages from base on allocates. */
  ghost function RunCost(mem: Mem, root: nat, base: nat, i: nat): nat {
    if i == 0 then 0
    else
      var v := PageAt(base, i - 1);
      RunCost(mem, root, base, i - 1) + AfterRun(Missing(mem, root, v), Gb(v), base, i - 1)
  }

  lemma PathShared(mem: Mem, sh: Shape, root: nat, v: nat, w: nat, level: nat)
    requires Tree(mem, sh, root) && 2 <= level <= 4 && TableAt(mem, root, v, level).Table?
    ensures TableAt(mem, root, w, level) == TableAt(mem, root, v, level) && Index(w, level) == Index(v, level)
       <==> SharesPath(v, w, level)
  {
    if TableAt(mem, root, w, level) == TableAt(mem, root, v, level) && Index(w, level) == Index(v, level) {
      PathUnique(mem, sh, root, v, w, level);
      assert level < 4 ==> Index(v, 4) == Index(w, 4);
      assert level < 3 ==> Index(v, 3) == Index(w, 3);
    }
    if SharesPath(v, w, level) {
      SamePath(mem, root, w, v, level);
    }
  }

  lemma GbShares(v: nat, w: nat)
    ensures Gb(v) == Gb(w) <==> SharesPath(v, w, 3)
    ensures Gb(v) / 512 == Gb(w) / 512 <==> SharesPath(v, w, 4)
  {
    DigitEq(Index(v, 4), Index(v, 3), Index(w, 4), Index(w, 3));
    DivUnique(Gb(v), 512, Index(v, 4), Index(v, 3));
    DivUnique(Gb(w), 512, Index(w, 4), Index(w, 3));
  }

  lemma GoodTail(s: seq<Answer>, n: nat)
    requires n > 0 && GoodPrefix(s, n)
    ensures Good(s[0]) && GoodPrefix(Tail(s), n - 1) && Tail(s)[n - 1..] == s[n..]
  {
  }

  /** Good answers after good answers. */
  lemma GoodSplit(s: seq<Answer>, m: nat, n: nat)
    requires GoodPrefix(s, m)
    ensures GoodPrefix(s[m..], n) <==> GoodPrefix(s, m + n)
    ensures GoodPrefix(s, m + n) ==> s[m..][n..] == s[m + n..]
  {
    if GoodPrefix(s[m..], n) {
      forall k | 0 <= k < m + n ensures Good(s[k]) {
        if k >= m { assert s[k] == s[m..][k - m]; }
      }
    }
  }

  lemma GoodLess(s: seq<Answer>, m: nat, n: nat)
    requires GoodPrefix(s, n) && m <= n
    ensures GoodPrefix(s, m)
  {
  }

  lemma FewGood(s: seq<Answer>, m: nat, n: nat)
    requires !GoodPrefix(s, m) && m <= n
    ensures !GoodPrefix(s, n)
  {
  }

  lemma {:induction false} CostGrows(mem: Mem, root: nat, base: nat, i: nat, n: nat)
    requires i <= n
    ensures RunCost(mem, root, base, i) <= RunCost(mem, root, base, n)
  {
    if i < n { CostGrows(mem, root, base, i, n - 1); }
  }

  /** A run of pages inside one 512 GB region, whose tables are all new, takes one table for the region
      and one for each gigabyte. */
  function FreshRun(i: nat): nat { if i == 0 then 0 else 1 + (i + 511) / 512 }

  /** base is the start of gigabyte g0. */
  predicate RunsFrom(base: nat, g0: nat, n: nat) {
    forall k: nat :: k < n ==> Gb(PageAt(base, k)) == g0 + k / 512
  }

  lemma {:induction false} AfterFreshRun(lacks: nat, g: nat, base: nat, g0: nat, i: nat)
    requires RunsFrom(base, g0, i) && g0 % 512 + (i + 511) / 512 <= 512
    ensures AfterRun(lacks, g, base, i) ==
      if i > 0 && g0 <= g <= g0 + (i - 1) / 512 then 0
      else if i > 0 && g / 512 == g0 / 512 && lacks > 1 then 1 else lacks
  {
    if i > 0 {
      AfterFreshRun(lacks, g, base, g0, i - 1);
      assert Gb(PageAt(base, i - 1)) == g0 + (i - 1) / 512;
      assert (g0 + (i - 1) / 512) / 512 == g0 / 512;
    }
  }

  lemma {:induction false} FreshRunCost(mem: Mem, root: nat, base: nat, g0: nat, i: nat)
    requires RunsFrom(base, g0, i) && g0 % 512 + (i + 511) / 512 <= 512
    requires forall k: nat :: k < i ==> Missing(mem, root, PageAt(base, k)) == 2
    ensures RunCost(mem, root, base, i) == FreshRun(i)
  {
    hide Missing, Gb, FreshRun, PageAt, AfterRun;
    if i == 0 {
      FreshRunNone();
    } else {
      FreshRunCost(mem, root, base, g0, i - 1);
      var v := PageAt(base, i - 1);
      assert Gb(v) == g0 + (i - 1) / 512 && Missing(mem, root, v) == 2;
      AfterFreshRun(2, Gb(v), base, g0, i - 1);
      FreshRunStep(i);
    }
  }

  lemma FreshRunNone()
    ensures FreshRun(0) == 0
  {
  }

  lemma FreshRunStep(i: nat)
    requires i > 0
    ensures FreshRun(i) == FreshRun(i - 1) + if i == 1 then 2 else if (i - 1) / 512 <= (i - 2) / 512 then 0 else 1
  {
  }

  /** i pages are mapped, every table they needed was granted, and nothing else was taken. */
  ghost predicate Ran(m0: Mem, s0: seq<Answer>, m: Mem, s: seq<Answer>, root: nat, base: nat, i: nat) {
    && GoodPrefix(s0, RunCost(m0, root, base, i)) && s == s0[RunCost(m0, root, base, i)..]
    && forall w: nat :: Missing(m, root, w) == AfterRun(Missing(m0, root, w), Gb(w), base, i)
  }

  lemma IndexLinear(v: nat, level: nat)
    requires 1 <= level <= 4
    ensures Index(v % LINEAR, level) == Index(v, level)
  {
    hide Index;
    assert v % LINEAR % LINEAR == v % LINEAR;
    SameDigits1(v, v % LINEAR);
  }

  lemma LinearMissing(m: Mem, root: nat, v: nat)
    ensures Missing(m, root, v) == Missing(m, root, v % LINEAR) && Gb(v) == Gb(v % LINEAR)
  {
    forall l: nat | 1 <= l <= 4 ensures Index(v % LINEAR, l) == Index(v, l) { IndexLinear(v, l); }
    SamePath(m, root, v % LINEAR, v, 3);
    SamePath(m, root, v % LINEAR, v, 2);
  }

  /** The next page takes exactly the tables its path lacks. */
  lemma RanNext(m0: Mem, s0: seq<Answer>, m: Mem, s: seq<Answer>, root: nat, base: nat, i: nat, virt: nat)
    requires Ran(m0, s0, m, s, root, base, i) && virt % LINEAR == PageAt(base, i)
    ensures GoodPrefix(s, Missing(m, root, virt)) <==> GoodPrefix(s0, RunCost(m0, root, base, i + 1))
  {
    LinearMissing(m, root, virt);
    GoodSplit(s0, RunCost(m0, root, base, i), Missing(m, root, virt));
  }

  lemma RanStep(m0: Mem, s0: seq<Answer>, m: Mem, s: seq<Answer>, m': Mem, s': seq<Answer>,
                root: nat, base: nat, i: nat, virt: nat)
    requires Ran(m0, s0, m, s, root, base, i) && virt % LINEAR == PageAt(base, i)
    requires GoodPrefix(s, Missing(m, root, virt)) && s' == s[Missing(m, root, virt)..]
    requires forall w: nat :: Missing(m', root, w) == Touched(Missing(m, root, w), Gb(w), Gb(virt))
    ensures Ran(m0, s0, m', s', root, base, i + 1)
  {
    LinearMissing(m, root, virt);
    GoodSplit(s0, RunCost(m0, root, base, i), Missing(m, root, virt));
    hide Missing, Gb, PageAt, Touched;
  }

  /** What v translates to once i pages from linear address base on are mapped to phys on. */
  function RunMap(base: nat, phys: nat, i: nat, v: nat, before: Translation): Translation {
    if base / MB2 <= v / MB2 < base / MB2 + i
    then Mapped(LargeEntry((phys + (v / MB2 - base / MB2) * MB2) % M64, 3), 2, v)
    else before
  }

  lemma PageOf(base: nat, i: nat, virt: nat, v: nat)
    requires v < LINEAR && virt % LINEAR == PageAt(base, i) < LINEAR
    ensures SamePage(v, virt, 2) <==> v / MB2 == base / MB2 + i
  {
    DivUnique(PageAt(base, i), MB2, base / MB2 + i, base % MB2);
    assert v % LINEAR == v;
  }

  lemma RunMapStep(base: nat, phys: nat, i: nat, virt: nat, v: nat, before: Translation)
    requires v < LINEAR && virt % LINEAR == PageAt(base, i) < LINEAR
    ensures RunMap(base, phys, i + 1, v, before) ==
      if SamePage(v, virt, 2) then Mapped(LargeEntry((phys + i * MB2) % M64, 3), 2, v)
      else RunMap(base, phys, i, v, before)
  {
    hide Mapped, LargeEntry;
    PageOf(base, i, virt, v);
  }

  /** The loop's virtual address, without its wrap-around. */
  lemma RunAddress(virt: nat, i: nat, pages: nat)
    requires i < pages && virt % LINEAR + pages * MB2 <= LINEAR
    ensures PageAt(virt % LINEAR, i) < LINEAR && (virt + i * MB2) % M64 % LINEAR == PageAt(virt % LINEAR, i)
  {
    assert i * MB2 + MB2 <= pages * MB2;
    var q := virt / LINEAR;
    var x := virt + i * MB2;
    assert x == LINEAR * q + PageAt(virt % LINEAR, i);
    DivUnique(x, LINEAR, q, PageAt(virt % LINEAR, i));
    WordLinear(x);
  }

  lemma WordLinear(x: nat)
    ensures x % M64 % LINEAR == x % LINEAR
  {
    var q, r := x / M64, x % M64;
    assert x == LINEAR * (0x1_0000 * q) + r;
    ModShift(LINEAR, 0x1_0000 * q, r);
  }

  /** Either all of the first i pages are mapped, or the table for one of them was refused and some
      address of theirs, the hole, is as it was; nothing else has changed. */
  ghost predicate Progress(m0: Mem, s0: seq<Answer>, m: Mem, s: seq<Answer>, root: nat, base: nat, phys: nat,
                           i: nat, hole: nat) {
    if GoodPrefix(s0, RunCost(m0, root, base, i)) then
      && Ran(m0, s0, m, s, root, base, i)
      && forall v: nat :: v < LINEAR ==> Walk(m, root, v) == RunMap(base, phys, i, v, Walk(m0, root, v))
    else
      && hole < LINEAR && base / MB2 <= hole / MB2 < base / MB2 + i && Walk(m, root, hole) == Walk(m0, root, hole)
      && forall v: nat :: v < LINEAR ==>
           Walk(m, root, v) == RunMap(base, phys, i, v, Walk(m0, root, v)) || Walk(m, root, v) == Walk(m0, root, v)
  }

  /** The effect of mapping one page. */
  ghost predicate OnePage(m: Mem, m': Mem, root: nat, virt: nat, e: nat, level: nat)
    requires 1 <= level <= 2
  {
    forall v :: Walk(m', root, v) == if SamePage(v, virt, level) then Mapped(e, level, v) else Walk(m, root, v)
  }

  ghost predicate SameWalks(m: Mem, m': Mem, root: nat) {
    forall v :: Walk(m', root, v) == Walk(m, root, v)
  }

  lemma ProgressGood(m0: Mem, s0: seq<Answer>, m: Mem, s: seq<Answer>, m': Mem, s': seq<Answer>,
                     root: nat, base: nat, phys: nat, i: nat, hole: nat, virt: nat)
    requires Progress(m0, s0, m, s, root, base, phys, i, hole) && GoodPrefix(s0, RunCost(m0, root, base, i))
    requires virt % LINEAR == PageAt(base, i) < LINEAR
    requires GoodPrefix(s, Missing(m, root, virt)) && s' == s[Missing(m, root, virt)..]
    requires forall w: nat :: Missing(m', root, w) == Touched(Missing(m, root, w), Gb(w), Gb(virt))
    requires OnePage(m, m', root, virt, LargeEntry((phys + i * MB2) % M64, 3), 2)
    ensures Progress(m0, s0, m', s', root, base, phys, i + 1, hole)
  {
    RanNext(m0, s0, m, s, root, base, i, virt);
    RanStep(m0, s0, m, s, m', s', root, base, i, virt);
    hide Ran, RunMap, RunCost, PageAt, Missing, Touched, GoodPrefix, Mapped, LargeEntry, SamePage, Walk;
    forall v: nat | v < LINEAR ensures Walk(m', root, v) == RunMap(base, phys, i + 1, v, Walk(m0, root, v)) {
      RunMapStep(base, phys, i, virt, v, Walk(m0, root, v));
    }
  }

  lemma ProgressBad(m0: Mem, s0: seq<Answer>, m: Mem, s: seq<Answer>, m': Mem, s': seq<Answer>,
                    root: nat, base: nat, phys: nat, i: nat, hole: nat, virt: nat)
    requires Progress(m0, s0, m, s, root, base, phys, i, hole) && GoodPrefix(s0, RunCost(m0, root, base, i))
    requires virt % LINEAR == PageAt(base, i) < LINEAR
    requires !GoodPrefix(s, Missing(m, root, virt)) && SameWalks(m, m', root)
    ensures Progress(m0, s0, m', s', root, base, phys, i + 1, PageAt(base, i))
  {
    RanNext(m0, s0, m, s, root, base, i, virt);
    hide Ran, RunCost, Missing, GoodPrefix, Mapped, LargeEntry, SamePage, Walk;
    PageOf(base, i, virt, PageAt(base, i));
    DivUnique(PageAt(base, i), MB2, base / MB2 + i, base % MB2);
    forall v: nat | v < LINEAR
      ensures Walk(m', root, v) == RunMap(base, phys, i + 1, v, Walk(m0, root, v))
          || Walk(m', root, v) == Walk(m0, root, v)
    {
      RunMapStep(base, phys, i, virt, v, Walk(m0, root, v));
      PageOf(base, i, virt, v);
    }
  }

  lemma ProgressHole(m0: Mem, s0: seq<Answer>, m: Mem, s: seq<Answer>, m': Mem, s': seq<Answer>,
                     root: nat, base: nat, phys: nat, i: nat, hole: nat, virt: nat)
    requires Progress(m0, s0, m, s, root, base, phys, i, hole) && !GoodPrefix(s0, RunCost(m0, root, base, i))
    requires virt % LINEAR == PageAt(base, i) < LINEAR
    requires OnePage(m, m', root, virt, LargeEntry((phys + i * MB2) % M64, 3), 2) || SameWalks(m, m', root)
    ensures Progress(m0, s0, m', s', root, base, phys, i + 1, hole)
  {
    StillBad(m0, s0, root, base, i);
    hide Ran, RunMap, RunCost, PageAt, GoodPrefix, Mapped, LargeEntry, SamePage, Walk;
    PageOf(base, i, virt, hole);
    forall v: nat | v < LINEAR
      ensures Walk(m', root, v) == RunMap(base, phys, i + 1, v, Walk(m0, root, v))
          || Walk(m', root, v) == Walk(m0, root, v)
    {
      RunMapStep(base, phys, i, virt, v, Walk(m0, root, v));
      PageOf(base, i, virt, v);
      if SamePage(v, virt, 2) { Outside(base, phys, i, v, Walk(m0, root, v)); }
    }
  }

  lemma StillBad(m0: Mem, s0: seq<Answer>, root: nat, base: nat, i: nat)
    requires !GoodPrefix(s0, RunCost(m0, root, base, i))
    ensures !GoodPrefix(s0, RunCost(m0, root, base, i + 1))
  {
    hide RunCost, GoodPrefix;
    CostGrows(m0, root, base, i, i + 1);
    if GoodPrefix(s0, RunCost(m0, root, base, i + 1)) {
      GoodLess(s0, RunCost(m0, root, base, i), RunCost(m0, root, base, i + 1));
    }
  }

  lemma Outside(base: nat, phys: nat, i: nat, v: nat, before: Translation)
    requires v / MB2 == base / MB2 + i
    ensures RunMap(base, phys, i, v, before) == before
  {
  }

  /** The k-th address of a loop, in 64-bit arithmetic. */
  function WordPage(x: nat, k: nat): nat { (x + k * MB2) % M64 }

  function Linear(v: nat): nat { v % LINEAR }

  /** n pages from virt on stay below the end of the address space. */
  predicate InSpace(virt: nat, n: nat) { Linear(virt) + n * MB2 <= LINEAR }

  lemma ProgressStep(m0: Mem, s0: seq<Answer>, m: Mem, s: seq<Answer>, m': Mem, s': seq<Answer>,
                     root: nat, virt: nat, phys: nat, i: nat, n: nat, hole: nat) returns (hole': nat)
    requires i < n && InSpace(virt, n)
    requires Progress(m0, s0, m, s, root, Linear(virt), phys, i, hole)
    requires GoodPrefix(s, Missing(m, root, WordPage(virt, i))) ==>
      && s' == s[Missing(m, root, WordPage(virt, i))..]
      && OnePage(m, m', root, WordPage(virt, i), LargeEntry(WordPage(phys, i), 3), 2)
      && forall w: nat :: Missing(m', root, w) == Touched(Missing(m, root, w), Gb(w), Gb(WordPage(virt, i)))
    requires !GoodPrefix(s, Missing(m, root, WordPage(virt, i))) ==> SameWalks(m, m', root)
    ensures Progress(m0, s0, m', s', root, Linear(virt), phys, i + 1, hole')
  {
    hole' := hole;
    RunAddress(virt, i, n);
    hide Progress, PageAt, Missing, GoodPrefix, LargeEntry, Touched, OnePage, SameWalks, RunCost;
    var base, page := Linear(virt), WordPage(virt, i);
    if !GoodPrefix(s0, RunCost(m0, root, base, i)) {
      ProgressHole(m0, s0, m, s, m', s', root, base, phys, i, hole, page);
    } else if GoodPrefix(s, Missing(m, root, page)) {
      ProgressGood(m0, s0, m, s, m', s', root, base, phys, i, hole, page);
    } else {
      ProgressBad(m0, s0, m, s, m', s', root, base, phys, i, hole, page);
      hole' := PageAt(base, i);
    }
  }

  lemma RunStart(m0: Mem, s0: seq<Answer>, root: nat, base: nat, phys: nat)
    ensures Progress(m0, s0, m0, s0, root, base, phys, 0, 0)
  {
  }

  /** What a finished loop has done. */
  ghost predicate RunDone(m0: Mem, s0: seq<Answer>, m: Mem, s: seq<Answer>, root: nat, base: nat, phys: nat, n: nat) {
    && (forall v: nat :: v < LINEAR ==>
          Walk(m, root, v) == RunMap(base, phys, n, v, Walk(m0, root, v)) || Walk(m, root, v) == Walk(m0, root, v))
    && (GoodPrefix(s0, RunCost(m0, root, base, n)) ==>
          && Ran(m0, s0, m, s, root, base, n)
          && forall v: nat :: v < LINEAR ==> Walk(m, root, v) == RunMap(base, phys, n, v, Walk(m0, root, v)))
    && (!GoodPrefix(s0, RunCost(m0, root, base, n)) ==>
          exists v: nat :: v < LINEAR && base / MB2 <= v / MB2 < base / MB2 + n
              && Walk(m, root, v) == Walk(m0, root, v))
  }

  lemma RunEnd(m0: Mem, s0: seq<Answer>, m: Mem, s: seq<Answer>, root: nat, base: nat, phys: nat, n: nat, hole: nat)
    requires Progress(m0, s0, m, s, root, base, phys, n, hole)
    ensures RunDone(m0, s0, m, s, root, base, phys, n)
  {
    hide Ran, RunMap, RunCost, GoodPrefix, Walk;
  }

  // ---------------------------------------------------------------- the builder

  class Pager {
    var mem: Mem
    var supply: seq<Answer>   // the firmware's remaining answers; none left means no allocator
    var pml4: nat             // the root table, 0 for NULL
    ghost var sh: Shape

    ghost predicate SupplyOk()
      reads this
    {
      && (forall k :: 0 <= k < |supply| && supply[k].Granted? ==> FreshPage(supply[k].addr))
      && (forall j, k :: 0 <= j < k < |supply| && supply[j].Granted? && supply[k].Granted? && supply[j].addr != 0
            ==> supply[j].addr != supply[k].addr)
    }

    ghost predicate FreshPage(a: nat)
      reads this
    {
      FrameAddress(a) && (a != 0 ==> a !in sh.lvl)
    }

    ghost predicate Valid()
      reads this
    {
      SupplyOk() && 0 !in sh.lvl && if pml4 == 0 then sh.lvl == map[] else Tree(mem, sh, pml4)
    }

    ghost function Lacks(v: nat): nat
      reads this
    {
      Missing(mem, pml4, v)
    }

    /** ... down to the table of its 4 KB entry. */
    ghost function LacksSmall(v: nat): nat
      reads this
    {
      Lacks(v) + if Reaches(mem, pml4, v, 1) then 0 else 1
    }

    /** The firmware's promise: page-aligned frames, each handed out once. */
    constructor (answers: seq<Answer>)
      requires forall k :: 0 <= k < |answers| && answers[k].Granted? ==> FrameAddress(answers[k].addr)
      requires forall j, k :: 0 <= j < k < |answers| && Good(answers[j]) && answers[k].Granted?
                 ==> answers[j].addr != answers[k].addr
      ensures Valid() && pml4 == 0 && supply == answers
    {
      mem, supply, pml4 := map[], answers, 0;
      sh := Shape(map[], map[]);
    }

    /** A zeroed page, or 0 exactly when the firmware refuses or hands out address 0. */
    method AllocTable() returns (t: nat)
      requires Valid()
      modifies this`mem, this`supply
      ensures Valid() && Agree(old(mem), mem, sh) && supply == Tail(old(supply))
      ensures t == if GoodPrefix(old(supply), 1) then old(supply)[0].addr else 0
      ensures t != 0 ==> FreshPage(t) && t in mem && mem[t] == EmptyTable()
      ensures t != 0 ==> forall k :: 0 <= k < |supply| && supply[k].Granted? ==> supply[k].addr != t
    {
      if |supply| == 0 || supply[0].Denied? {
        supply := Tail(supply);
        return 0;
      }
      var addr := supply[0].addr;
      assert FreshPage(addr);
      ghost var granted := supply;
      supply := supply[1..];
      assert forall k :: 0 <= k < |supply| ==> supply[k] == granted[k + 1];
      assert |EmptyTable()| == 512;
      var page: seq<nat> :| |page| == 512;   // whatever the page held before
      var i := 0;
      while i < 512
        invariant 0 <= i <= 512 && |page| == 512
        invariant forall k :: 0 <= k < i ==> page[k] == 0
      {
        page := page[i := 0];
        i := i + 1;
      }
      assert page == EmptyTable();
      if addr == 0 { return 0; }
      mem := mem[addr := page];
      if pml4 != 0 { TreeFrame(old(mem), mem, sh, pml4); }
      return addr;
    }

    /** Follow virt's entry in table t at this level, hanging a new table there if it is absent. */
    method GetOrCreate(virt: nat, level: nat, t: nat) returns (child: nat)
      requires Valid() && pml4 != 0 && 2 <= level <= 4
      requires TableAt(mem, pml4, virt, level) == Table(t) && t in sh.lvl && sh.lvl[t] == level
      requires level == 2 ==> !LargeCovers(mem, pml4, virt)
      modifies this`mem, this`supply, this`sh
      ensures Valid()
      ensures SameWalks(old(mem), mem, pml4)
      ensures !old(LargeCovers(mem, pml4, virt)) ==> !LargeCovers(mem, pml4, virt)
      ensures supply == if old(Reaches(mem, pml4, virt, level - 1)) then old(supply) else Tail(old(supply))
      ensures child == 0 <==> !old(Reaches(mem, pml4, virt, level - 1)) && !GoodPrefix(old(supply), 1)
      ensures child != 0 ==> child in sh.lvl && sh.lvl[child] == level - 1
                             && TableAt(mem, pml4, virt, level - 1) == Table(child)
      ensures forall w: nat, l: nat :: 1 <= l <= 3 ==>
        (Reaches(mem, pml4, w, l) <==>
          old(Reaches(mem, pml4, w, l)) || (child != 0 && l == level - 1 && SharesPath(virt, w, level)))
    {
      var i := Index(virt, level);
      assert EntryOk(mem, sh, t, i);
      if Present(mem[t][i]) {
        child := mem[t][i] - mem[t][i] % 0x1000;
        SharedReach(mem, sh, pml4, virt, level);
        return;
      }
      child := AllocTable();
      SameView(old(mem), mem, sh, pml4, virt, level);
      SameReach(old(mem), mem, sh, pml4);
      if child == 0 { return; }
      LinkStep(mem, sh, pml4, virt, level, t, child);
      LinkReach(mem, sh, pml4, virt, level, t, child);
      mem := Store(mem, t, i, Link(child));
      sh := Shape(sh.lvl[child := level - 1], sh.own[child := (t, i)]);
    }

    /** The first two steps of both mappings: virt's page directory, with the tables above it. */
    method Directory(virt: nat) returns (pd: nat)
      requires Valid() && pml4 != 0
      modifies this`mem, this`supply, this`sh
      ensures Valid()
      ensures SameWalks(old(mem), mem, pml4)
      ensures !old(LargeCovers(mem, pml4, virt)) ==> !LargeCovers(mem, pml4, virt)
      ensures pd != 0 <==> GoodPrefix(old(supply), old(Lacks(virt)))
      ensures supply == if pd != 0 then old(supply)[old(Lacks(virt))..] else AfterBad(old(supply))
      ensures pd != 0 ==> pd in sh.lvl && sh.lvl[pd] == 2 && TableAt(mem, pml4, virt, 2) == Table(pd)
      ensures pd != 0 ==> forall w: nat :: Lacks(w) == old(Touched(Lacks(w), Gb(w), Gb(virt)))
      ensures forall w: nat :: Reaches(mem, pml4, w, 1) <==> old(Reaches(mem, pml4, w, 1))
    {
      ghost var m0, s0 := mem, supply;
      PathAbove(m0, pml4);
      Consumed(s0, Lacks(virt));
      var pdpt := GetOrCreate(virt, 4, pml4);
      if pdpt == 0 { return 0; }
      pd := GetOrCreate(virt, 3, pdpt);
      if pd == 0 { return; }
      TouchedReach(m0, mem, pml4, virt);
    }

    /** Map one 2 MB page. It needs the tables its path lacks: with good answers for all of them exactly
        that page is remapped; otherwise, even half way, every translation stays as it was. */
    method MapPage2MB(root: nat, virt: nat, phys: nat, flags: nat)
      requires Valid() && (root == 0 || root == pml4)
      modifies this`mem, this`supply, this`sh
      ensures Valid()
      ensures root == 0 ==> mem == old(mem) && supply == old(supply)
      ensures root != 0 && GoodPrefix(old(supply), old(Lacks(virt))) ==>
        && supply == old(supply)[old(Lacks(virt))..]
        && OnePage(old(mem), mem, pml4, virt, LargeEntry(phys, flags), 2)
        && (forall w: nat :: Lacks(w) == old(Touched(Lacks(w), Gb(w), Gb(virt))))
      ensures root != 0 && !GoodPrefix(old(supply), old(Lacks(virt))) ==>
        supply == AfterBad(old(supply)) && SameWalks(old(mem), mem, pml4)
    {
      if root == 0 { return; }
      ghost var m0 := mem;
      var pd := Directory(virt);
      if pd == 0 { return; }
      var e := LargeEntry(phys, flags);
      LargeEntryIsLarge(phys, flags);
      LeafTree(mem, sh, pml4, pd, Index(virt, 2), e);
      LeafPage(m0, mem, sh, pml4, virt, pd, e, 2);
      LeafReach(mem, sh, pml4, pd, Index(virt, 2), e);
      mem := Store(mem, pd, Index(virt, 2), e);
    }

    /** The loop of setup_page_tables (twice) and of paging_map_framebuffer: consecutive 2 MB pages. With
        good answers for every table they lack all of them are remapped; otherwise some page is left
        as it was. No other address changes either way. */
    method MapRun(virt: nat, phys: nat, pages: nat)
      requires Valid() && pml4 != 0
      modifies this`mem, this`supply, this`sh
      ensures Valid()
      ensures InSpace(virt, pages) ==> RunDone(old(mem), old(supply), mem, supply, pml4, Linear(virt), phys, pages)
    {
      ghost var base, sane := Linear(virt), InSpace(virt, pages);
      ghost var m0, s0, hole := mem, supply, 0;
      RunStart(m0, s0, pml4, base, phys);
      var i := 0;
      hide Progress, Missing, GoodPrefix, AfterBad, LargeEntry, Touched, RunDone, OnePage, SameWalks, Tree, WordPage,
          Linear, InSpace;
      while i < pages
        invariant Valid() && pml4 == old(pml4) && 0 <= i <= pages
        invariant sane ==> Progress(m0, s0, mem, supply, pml4, base, phys, i, hole)
      {
        ghost var m, s := mem, supply;
        MapPage2MB(pml4, WordPage(virt, i), WordPage(phys, i), 3);
        if sane { hole := ProgressStep(m0, s0, m, s, mem, supply, pml4, virt, phys, i, pages, hole); }
        i := i + 1;
      }
      if sane { RunEnd(m0, s0, mem, supply, pml4, base, phys, pages, hole); }
    }

    /** Map one 4 KB page where no 2 MB page covers it. */
    method MapPage4KB(root: nat, virt: nat, phys: nat, flags: nat)
      requires Valid() && (root == 0 || root == pml4)
      requires root != 0 ==> !LargeCovers(mem, pml4, virt)
      modifies this`mem, this`supply, this`sh
      ensures Valid()
      ensures root == 0 ==> mem == old(mem) && supply == old(supply)
      ensures root != 0 && GoodPrefix(old(supply), old(LacksSmall(virt))) ==>
        && supply == old(supply)[old(LacksSmall(virt))..]
        && OnePage(old(mem), mem, pml4, virt, Or(phys, flags), 1)
      ensures root != 0 && !GoodPrefix(old(supply), old(LacksSmall(virt))) ==>
        supply == AfterBad(old(supply)) && SameWalks(old(mem), mem, pml4)
    {
      if root == 0 { return; }
      ghost var m0, s0, need, last := mem, supply, Lacks(virt), if Reaches(mem, pml4, virt, 1) then 0 else 1;
      PathAbove(mem, pml4);
      OneMore(s0, need, last);
      var pd := Directory(virt);
      if pd == 0 { return; }
      var pt := GetOrCreate(virt, 2, pd);
      if pt == 0 { return; }
      var e := Or(phys, flags);
      LeafTree(mem, sh, pml4, pt, Index(virt, 1), e);
      LeafPage(m0, mem, sh, pml4, virt, pt, e, 1);
      mem := Store(mem, pt, Index(virt, 1), e);
    }

    /** The boot loader's whole set-up: BootMap, exactly when the firmware grants all the tables it takes.
        Otherwise some address is left unmapped; no address is ever mapped anywhere else. */
    method SetupPageTables(kernelPhys: nat, kernelSize: nat) returns (root: nat)
      requires Valid() && pml4 == 0
      modifies this
      ensures Valid() && root == pml4
      ensures root == 0 <==> !GoodPrefix(old(supply), 1)
      ensures root != 0 && Bootable(kernelPhys, kernelSize) ==>
        SetupResult(old(supply), mem, supply, pml4, kernelPhys, PagesFor(kernelSize))
      ensures root != 0 && Bootable(kernelPhys, kernelSize) && AllGranted(old(supply), kernelSize) ==>
        KernelMapped(mem, pml4, kernelPhys, kernelSize)
    {
      root := AllocTable();
      if root == 0 { return; }
      pml4 := root;
      sh := Shape(map[root := 4], map[]);
      assert Tree(mem, sh, pml4);
      ghost var m0, s0 := mem, supply;
      RootAlone(m0, root);
      LowSpace(0, 2048);
      KernelSpace(kernelSize);
      hide Tree, RunDone, SetupResult, PagesFor, GoodPrefix, InSpace, Linear, KernelMapped, AllGranted;
      MapRun(0, 0, 2048);
      ghost var m1, s1 := mem, supply;
      MapRun(KERNEL_VMA, kernelPhys, PagesFor(kernelSize));
      if Bootable(kernelPhys, kernelSize) {
        SetupDone(old(supply), m0, m1, s1, mem, supply, root, kernelPhys, PagesFor(kernelSize));
        KernelOffsets(old(supply), mem, supply, root, kernelPhys, kernelSize);
      }
    }

    /** The framebuffer's loop, for a framebuffer below 2^48. */
    method MapFramebuffer(root: nat, fb: nat, size: nat)
      requires Valid() && (root == 0 || root == pml4)
      modifies this`mem, this`supply, this`sh
      ensures Valid()
      ensures root == 0 ==> mem == old(mem) && supply == old(supply)
      ensures root != 0 && fb % 0x1000 == 0 && fb < LINEAR && fb + PagesFor(size) * MB2 <= LINEAR ==>
        FramebufferResult(old(mem), old(supply), mem, supply, pml4, fb, PagesFor(size))
      ensures root != 0 && fb % 0x1000 == 0 && fb + size + MB2 <= LINEAR
              && GoodPrefix(old(supply), RunCost(old(mem), pml4, fb, PagesFor(size))) ==>
        FramebufferMapped(old(mem), mem, pml4, fb, size)
    {
      if root == 0 { return; }
      ghost var sane := fb % 0x1000 == 0 && fb < LINEAR && fb + PagesFor(size) * MB2 <= LINEAR;
      if sane { LowSpace(fb, PagesFor(size)); }
      ghost var fits := fb % 0x1000 == 0 && fb + size + MB2 <= LINEAR;
      if fits { PagesRoundUp(size, 0); }
      hide RunDone, PagesFor, FramebufferResult, InSpace, Linear, FramebufferMapped;
      MapRun(fb, fb, PagesFor(size));
      if sane { FramebufferDone(old(mem), old(supply), mem, supply, pml4, fb, PagesFor(size)); }
      if fits { FramebufferBytes(old(mem), old(supply), mem, supply, pml4, fb, size); }
    }
  }

  /** The kernels whose mapping the loader can express. */
  predicate Bootable(kernelPhys: nat, kernelSize: nat) {
    kernelPhys % MB2 == 0 && kernelSize <= 0x8000_0000 && kernelPhys + 0x8000_0000 <= 0x10_0000_0000_0000
  }

  /** PML4, one PDPT and four directories for the low 4 GB, and the kernel's own: nine for 2 GB. */
  function SetupTables(pages: nat): nat { 6 + FreshRun(pages) }

  lemma RootAlone(m: Mem, root: nat)
    requires root in m && m[root] == EmptyTable()
    ensures forall v: nat :: Walk(m, root, v) == Fault && Missing(m, root, v) == 2
  {
  }

  /** With a good answer for every table, BootMap; with one refused, some address differs, unmapped. */
  ghost predicate SetupResult(s: seq<Answer>, m: Mem, s': seq<Answer>, root: nat, kernelPhys: nat, pages: nat) {
    && (forall v: nat :: v < LINEAR ==> Walk(m, root, v) == BootMap(kernelPhys, pages, v) || Walk(m, root, v) == Fault)
    && (GoodPrefix(s, SetupTables(pages)) ==>
          && s' == s[SetupTables(pages)..]
          && forall v: nat :: v < LINEAR ==> Walk(m, root, v) == BootMap(kernelPhys, pages, v))
    && (!GoodPrefix(s, SetupTables(pages)) ==>
          exists v: nat :: v < LINEAR && Walk(m, root, v) != BootMap(kernelPhys, pages, v))
  }

  /** With a good answer for every table, FramebufferMap; with one refused, an address of the pages is
      as it was. */
  ghost predicate FramebufferResult(m0: Mem, s: seq<Answer>, m: Mem, s': seq<Answer>, root: nat, fb: nat, pages: nat) {
    var cost := RunCost(m0, root, fb, pages);
    && (forall v: nat :: v < LINEAR ==>
          Walk(m, root, v) == FramebufferMap(fb, pages, v, Walk(m0, root, v)) || Walk(m, root, v) == Walk(m0, root, v))
    && (GoodPrefix(s, cost) ==>
          && s' == s[cost..]
          && forall v: nat :: v < LINEAR ==> Walk(m, root, v) == FramebufferMap(fb, pages, v, Walk(m0, root, v)))
    && (!GoodPrefix(s, cost) ==>
          exists v: nat :: v < LINEAR && fb / MB2 <= v / MB2 < fb / MB2 + pages
              && Walk(m, root, v) == Walk(m0, root, v))
  }

  /** Every table the set-up takes is granted. */
  predicate AllGranted(s: seq<Answer>, kernelSize: nat) { GoodPrefix(s, SetupTables(PagesFor(kernelSize))) }

  /** From KERNEL_VMA on, every 2 MB page the kernel reaches into translates to the kernel; the rest faults. */
  ghost predicate KernelMapped(m: Mem, root: nat, kernelPhys: nat, kernelSize: nat) {
    forall v: nat :: KERNEL_LINEAR <= v < LINEAR ==>
      Walk(m, root, v) == var o := v - KERNEL_LINEAR;
        if o / MB2 * MB2 < kernelSize then Page(kernelPhys + o, true) else Fault
  }

  lemma KernelOffsets(s: seq<Answer>, m: Mem, s': seq<Answer>, root: nat, kernelPhys: nat, kernelSize: nat)
    requires SetupResult(s, m, s', root, kernelPhys, PagesFor(kernelSize)) && Bootable(kernelPhys, kernelSize)
    ensures AllGranted(s, kernelSize) ==> KernelMapped(m, root, kernelPhys, kernelSize)
  {
    hide Walk, PagesFor, SetupTables;
    if AllGranted(s, kernelSize) {
      forall v: nat | KERNEL_LINEAR <= v < LINEAR
        ensures Walk(m, root, v) == var o := v - KERNEL_LINEAR;
          if o / MB2 * MB2 < kernelSize then Page(kernelPhys + o, true) else Fault
      {
        PagesRoundUp(kernelSize, (v - KERNEL_LINEAR) / MB2);
      }
    }
  }

  /** Every 2 MB page from the base's on that the size reaches into translates to itself (or faults, by bits
      20:13 of the base); the rest is as it was. */
  ghost predicate FramebufferMapped(m0: Mem, m: Mem, root: nat, fb: nat, size: nat) {
    forall v: nat :: v < LINEAR ==>
      Walk(m, root, v) ==
        if fb / MB2 <= v / MB2 && (v / MB2 - fb / MB2) * MB2 < size
        then (if fb % MB2 < 0x2000 then Page(v, true) else Fault)
        else Walk(m0, root, v)
  }

  lemma FramebufferBytes(m0: Mem, s: seq<Answer>, m: Mem, s': seq<Answer>, root: nat, fb: nat, size: nat)
    requires FramebufferResult(m0, s, m, s', root, fb, PagesFor(size)) && size <= M64 - MB2
    ensures GoodPrefix(s, RunCost(m0, root, fb, PagesFor(size))) ==> FramebufferMapped(m0, m, root, fb, size)
  {
    hide Walk, PagesFor, RunCost;
    forall v: nat | v < LINEAR && fb / MB2 <= v / MB2
      ensures v / MB2 < fb / MB2 + PagesFor(size) <==> (v / MB2 - fb / MB2) * MB2 < size
    {
      PagesRoundUp(size, v / MB2 - fb / MB2);
    }
  }

  lemma LowSpace(fb: nat, pages: nat)
    requires fb + pages * MB2 <= LINEAR && fb < LINEAR
    ensures InSpace(fb, pages) && Linear(fb) == fb
  {
  }

  lemma KernelSpace(size: nat)
    ensures Linear(KERNEL_VMA) == KERNEL_LINEAR
    ensures size <= 0x8000_0000 ==> PagesFor(size) <= 1024 && InSpace(KERNEL_VMA, PagesFor(size))
  {
    DivUnique(KERNEL_VMA, LINEAR, 0xFFFF, KERNEL_LINEAR);
  }

  lemma LowRun(v: nat)
    requires v < LINEAR
    ensures RunMap(0, 0, 2048, v, Fault) == Identity(GB4, v)
  {
    hide Mapped, LargeEntry;
    if v < GB4 {
      var frame := v / MB2 * MB2;
      DivUnique(frame, MB2, v / MB2, 0);
      SmallWord(frame);
      AlignedFrame(frame, v);
    }
  }

  lemma KernelRun(kernelPhys: nat, pages: nat, v: nat)
    requires v < LINEAR && pages <= 1024 && Bootable(kernelPhys, 0)
    ensures RunMap(KERNEL_LINEAR, kernelPhys, pages, v, Identity(GB4, v)) == BootMap(kernelPhys, pages, v)
  {
    hide Mapped, LargeEntry;
    DivUnique(KERNEL_LINEAR, MB2, 0x7FFFC00, 0);
    if KERNEL_LINEAR <= v < KERNEL_LINEAR + pages * MB2 {
      var i := v / MB2 - 0x7FFFC00;
      KernelFrame(kernelPhys, i, v);
    }
  }

  lemma GbLinear(v: nat)
    requires v < LINEAR
    ensures Gb(v) == v / 0x4000_0000
  {
    DivDiv(v, 0x4000_0000, 512);
  }

  lemma GbRun(base: nat, n: nat)
    requires base % 0x4000_0000 == 0 && base + n * MB2 <= LINEAR
    ensures RunsFrom(base, base / 0x4000_0000, n)
  {
    forall k: nat | k < n ensures Gb(PageAt(base, k)) == base / 0x4000_0000 + k / 512 {
      GbLinear(PageAt(base, k));
      DivUnique(PageAt(base, k), 0x4000_0000, base / 0x4000_0000 + k / 512, k % 512 * MB2);
    }
  }

  lemma LowCost(m0: Mem, root: nat)
    requires forall v: nat :: Missing(m0, root, v) == 2
    ensures RunCost(m0, root, 0, 2048) == 5
  {
    hide Missing, RunCost;
    GbRun(0, 2048);
    FreshRunCost(m0, root, 0, 0, 2048);
  }

  /** After the low 4 GB the kernel's region still lacks everything. */
  lemma KernelCost(m0: Mem, s0: seq<Answer>, m1: Mem, s1: seq<Answer>, root: nat, pages: nat)
    requires pages <= 1024 && Ran(m0, s0, m1, s1, root, 0, 2048) && forall v: nat :: Missing(m0, root, v) == 2
    ensures RunCost(m1, root, KERNEL_LINEAR, pages) == FreshRun(pages)
  {
    hide Missing, RunCost, FreshRun, Gb;
    GbRun(0, 2048);
    GbRun(KERNEL_LINEAR, pages);
    forall k: nat | k < pages ensures Missing(m1, root, PageAt(KERNEL_LINEAR, k)) == 2 {
      var v := PageAt(KERNEL_LINEAR, k);
      assert Gb(v) == 0x3FFFE + k / 512;
      AfterFreshRun(2, Gb(v), 0, 0, 2048);
    }
    FreshRunCost(m1, root, KERNEL_LINEAR, 0x3FFFE, pages);
  }

  lemma SetupDone(s: seq<Answer>, m0: Mem, m1: Mem, s1: seq<Answer>, m2: Mem, s2: seq<Answer>,
                  root: nat, kernelPhys: nat, pages: nat)
    requires GoodPrefix(s, 1) && pages <= 1024 && Bootable(kernelPhys, 0)
    requires forall v: nat :: Walk(m0, root, v) == Fault && Missing(m0, root, v) == 2
    requires RunDone(m0, Tail(s), m1, s1, root, 0, 0, 2048)
    requires RunDone(m1, s1, m2, s2, root, KERNEL_LINEAR, kernelPhys, pages)
    ensures SetupResult(s, m2, s2, root, kernelPhys, pages)
  {
    assert Tail(s) == s[1..];
    LowCost(m0, root);
    GoodSplit(s, 1, 5);
    if GoodPrefix(Tail(s), 5) {
      KernelCost(m0, Tail(s), m1, s1, root, pages);
      GoodSplit(s, 6, FreshRun(pages));
      SetupAfterLow(s, m0, m1, s1, m2, s2, root, kernelPhys, pages);
    } else {
      FewGood(s, 6, SetupTables(pages));
      SetupLowHole(s, m0, m1, s1, m2, s2, root, kernelPhys, pages);
    }
  }

  lemma SetupAfterLow(s: seq<Answer>, m0: Mem, m1: Mem, s1: seq<Answer>, m2: Mem, s2: seq<Answer>,
                      root: nat, kernelPhys: nat, pages: nat)
    requires pages <= 1024 && Bootable(kernelPhys, 0)
    requires forall v: nat :: Walk(m0, root, v) == Fault
    requires forall v: nat :: v < LINEAR ==> Walk(m1, root, v) == RunMap(0, 0, 2048, v, Walk(m0, root, v))
    requires GoodPrefix(s, 6) && s1 == s[6..]
    requires RunCost(m1, root, KERNEL_LINEAR, pages) == FreshRun(pages)
    requires RunDone(m1, s1, m2, s2, root, KERNEL_LINEAR, kernelPhys, pages)
    ensures SetupResult(s, m2, s2, root, kernelPhys, pages)
  {
    GoodSplit(s, 6, FreshRun(pages));
    hide RunMap, RunCost, GoodPrefix, Walk, Identity, FreshRun, Ran, BootMap;
    forall v: nat | v < LINEAR
      ensures Walk(m1, root, v) == Identity(GB4, v)
      ensures Walk(m2, root, v) == BootMap(kernelPhys, pages, v) || Walk(m2, root, v) == Fault
      ensures GoodPrefix(s1, FreshRun(pages)) ==> Walk(m2, root, v) == BootMap(kernelPhys, pages, v)
    {
      OverLow(kernelPhys, pages, v, Walk(m1, root, v), Walk(m2, root, v));
    }
    if !GoodPrefix(s1, FreshRun(pages)) {
      var v: nat :| v < LINEAR && KERNEL_LINEAR / MB2 <= v / MB2 < KERNEL_LINEAR / MB2 + pages
          && Walk(m2, root, v) == Walk(m1, root, v);
      LowOrKernel(kernelPhys, pages, v);
    }
  }

  /** The kernel's loop over the finished low part, at one address. */
  lemma OverLow(kernelPhys: nat, pages: nat, v: nat, low: Translation, t: Translation)
    requires v < LINEAR && pages <= 1024 && Bootable(kernelPhys, 0) && low == RunMap(0, 0, 2048, v, Fault)
    ensures low == Identity(GB4, v)
    ensures t == RunMap(KERNEL_LINEAR, kernelPhys, pages, v, low) ==> t == BootMap(kernelPhys, pages, v)
    ensures t == low ==> t == BootMap(kernelPhys, pages, v) || t == Fault
  {
    hide RunMap, Identity, BootMap;
    LowRun(v);
    KernelRun(kernelPhys, pages, v);
    LowOrKernel(kernelPhys, pages, v);
  }

  /** No address belongs to both parts of the boot map. */
  lemma LowOrKernel(kernelPhys: nat, pages: nat, v: nat)
    ensures Identity(GB4, v) == BootMap(kernelPhys, pages, v) || Identity(GB4, v) == Fault
    ensures KERNEL_LINEAR / MB2 <= v / MB2 < KERNEL_LINEAR / MB2 + pages ==>
      Identity(GB4, v) == Fault && BootMap(kernelPhys, pages, v).Page?
    ensures v / MB2 < 2048 ==> BootMap(kernelPhys, pages, v).Page? && v / MB2 < KERNEL_LINEAR / MB2
  {
    DivUnique(KERNEL_LINEAR, MB2, 0x7FFFC00, 0);
  }

  lemma SetupLowHole(s: seq<Answer>, m0: Mem, m1: Mem, s1: seq<Answer>, m2: Mem, s2: seq<Answer>,
                     root: nat, kernelPhys: nat, pages: nat)
    requires pages <= 1024 && Bootable(kernelPhys, 0) && !GoodPrefix(s, SetupTables(pages))
    requires forall v: nat :: Walk(m0, root, v) == Fault
    requires RunDone(m0, Tail(s), m1, s1, root, 0, 0, 2048)
    requires RunDone(m1, s1, m2, s2, root, KERNEL_LINEAR, kernelPhys, pages)
    requires exists v: nat :: v < LINEAR && v / MB2 < 2048 && Walk(m1, root, v) == Walk(m0, root, v)
    ensures SetupResult(s, m2, s2, root, kernelPhys, pages)
  {
    hide RunMap, RunCost, GoodPrefix, Walk, Identity, FreshRun, Ran;
    var hole: nat :| hole < LINEAR && hole / MB2 < 2048 && Walk(m1, root, hole) == Walk(m0, root, hole);
    LowOrKernel(kernelPhys, pages, hole);
    Outsider(KERNEL_LINEAR, kernelPhys, pages, hole, Fault);
    forall v: nat | v < LINEAR
      ensures Walk(m2, root, v) == BootMap(kernelPhys, pages, v) || Walk(m2, root, v) == Fault
    {
      LowRun(v);
      KernelRun(kernelPhys, pages, v);
      LowOrKernel(kernelPhys, pages, v);
      KernelOver(kernelPhys, pages, v);
    }
  }

  lemma Outsider(base: nat, phys: nat, i: nat, v: nat, before: Translation)
    requires v / MB2 < base / MB2
    ensures RunMap(base, phys, i, v, before) == before
  {
  }

  /** Over an unmapped low part the kernel's loop still maps nothing wrong. */
  lemma KernelOver(kernelPhys: nat, pages: nat, v: nat)
    requires v < LINEAR && pages <= 1024 && Bootable(kernelPhys, 0)
    ensures RunMap(KERNEL_LINEAR, kernelPhys, pages, v, Fault) == BootMap(kernelPhys, pages, v)
         || RunMap(KERNEL_LINEAR, kernelPhys, pages, v, Fault) == Fault
  {
    KernelRun(kernelPhys, pages, v);
    hide Mapped, LargeEntry;
  }

  lemma FramebufferDone(m0: Mem, s0: seq<Answer>, m: Mem, s: seq<Answer>, root: nat, fb: nat, pages: nat)
    requires fb % 0x1000 == 0 && fb + pages * MB2 <= LINEAR
    requires RunDone(m0, s0, m, s, root, fb, fb, pages)
    ensures FramebufferResult(m0, s0, m, s, root, fb, pages)
  {
    hide RunMap, FramebufferMap, RunCost, GoodPrefix, Walk;
    forall v: nat | v < LINEAR
      ensures RunMap(fb, fb, pages, v, Walk(m0, root, v)) == FramebufferMap(fb, pages, v, Walk(m0, root, v))
    {
      FramebufferRun(fb, pages, v, Walk(m0, root, v));
    }
  }

  lemma FramebufferRun(fb: nat, pages: nat, v: nat, before: Translation)
    requires fb % 0x1000 == 0 && fb + pages * MB2 <= LINEAR
    ensures RunMap(fb, fb, pages, v, before) == FramebufferMap(fb, pages, v, before)
  {
    hide Mapped, LargeEntry;
    if fb / MB2 <= v / MB2 < fb / MB2 + pages {
      var i := v / MB2 - fb / MB2;
      assert i * MB2 + MB2 <= pages * MB2;
      FramebufferFrame(fb, i);
      IdentityLeaf(fb + i * MB2, v);
    }
  }

  lemma PathAbove(m: Mem, root: nat)
    ensures forall w: nat :: Reaches(m, root, w, 1) ==> Reaches(m, root, w, 2)
    ensures forall w: nat :: Reaches(m, root, w, 2) ==> Reaches(m, root, w, 3)
  {
  }

  /** What is left after taking up to two answers, stopping at the first that is not good. */
  lemma Consumed(s: seq<Answer>, n: nat)
    requires n <= 2
    ensures n == 0 ==> GoodPrefix(s, n) && s[n..] == s
    ensures n == 1 ==> (GoodPrefix(s, n) ==> s[n..] == Tail(s)) && (!GoodPrefix(s, n) ==> AfterBad(s) == Tail(s))
    ensures n == 2 ==> (GoodPrefix(s, n) <==> GoodPrefix(s, 1) && GoodPrefix(Tail(s), 1))
    ensures n == 2 && GoodPrefix(s, n) ==> s[n..] == Tail(Tail(s))
    ensures n == 2 && !GoodPrefix(s, n) ==> AfterBad(s) == if GoodPrefix(s, 1) then Tail(Tail(s)) else Tail(s)
  {
  }

  /** ... and after one more. */
  lemma OneMore(s: seq<Answer>, n: nat, last: nat)
    requires last <= 1
    ensures GoodPrefix(s, n + last) <==> GoodPrefix(s, n) && (last == 1 ==> GoodPrefix(s[n..], 1))
    ensures GoodPrefix(s, n + last) ==> s[n + last..] == if last == 1 then Tail(s[n..]) else s[n..]
    ensures GoodPrefix(s, n) && !GoodPrefix(s, n + last) ==> AfterBad(s) == Tail(s[n..])
  {
    if GoodPrefix(s, n) {
      GoodSplit(s, n, last);
      if !GoodPrefix(s, n + last) { BadAfter(s, n); }
    } else if GoodPrefix(s, n + last) {
      GoodLess(s, n, n + last);
    }
  }

  lemma {:induction false} BadAfter(s: seq<Answer>, n: nat)
    requires GoodPrefix(s, n) && !GoodPrefix(s[n..], 1)
    ensures AfterBad(s) == Tail(s[n..])
  {
    if n > 0 {
      GoodTail(s, n);
      assert Tail(s)[n - 1..] == s[n..];
      BadAfter(Tail(s), n - 1);
    } else {
      assert s[0..] == s;
    }
  }

  /** A leaf stored in the table on virt's path, after tables were added that change no translation. */
  lemma LeafPage(m0: Mem, m: Mem, sh: Shape, root: nat, virt: nat, d: nat, e: nat, level: nat)
    requires SameWalks(m0, m, root)
    requires Tree(m, sh, root) && 1 <= level <= 2 && TableAt(m, root, virt, level) == Table(d)
    requires d in sh.lvl && sh.lvl[d] == level && (level == 2 ==> Large(e))
    ensures OnePage(m0, Store(m, d, Index(virt, level), e), root, virt, e, level)
  {
    var m' := Store(m, d, Index(virt, level), e);
    hide Walk, SamePage;
    forall v ensures Walk(m', root, v) == if SamePage(v, virt, level) then Mapped(e, level, v) else Walk(m0, root, v) {
      LeafExact(m, sh, root, virt, d, e, level, v);
    }
  }

  lemma LeafReach(m: Mem, sh: Shape, root: nat, d: nat, k: nat, e: nat)
    requires Tree(m, sh, root) && d in sh.lvl && sh.lvl[d] == 2 && k < 512
    ensures forall w: nat, l: nat :: 2 <= l <= 3 ==> Reaches(Store(m, d, k, e), root, w, l) == Reaches(m, root, w, l)
  {
    forall w: nat, l: nat | 2 <= l <= 3 ensures Reaches(Store(m, d, k, e), root, w, l) == Reaches(m, root, w, l) {
      PathKept(m, sh, root, d, k, e, w, l);
    }
  }

  lemma TouchedReach(m: Mem, m': Mem, root: nat, virt: nat)
    requires forall w: nat :: Reaches(m, root, w, 2) ==> Reaches(m, root, w, 3)
    requires forall w: nat :: Reaches(m', root, w, 3) <==> Reaches(m, root, w, 3) || SharesPath(virt, w, 4)
    requires forall w: nat :: Reaches(m', root, w, 2) <==> Reaches(m, root, w, 2) || SharesPath(virt, w, 3)
    ensures forall w: nat :: Missing(m', root, w) == Touched(Missing(m, root, w), Gb(w), Gb(virt))
  {
    hide Reaches, Gb, SharesPath;
    forall w: nat ensures Missing(m', root, w) == Touched(Missing(m, root, w), Gb(w), Gb(virt)) {
      GbShares(virt, w);
      SharesUp(virt, w);
    }
  }

  lemma SharesUp(v: nat, w: nat)
    ensures SharesPath(v, w, 3) ==> SharesPath(v, w, 4)
  {
  }

  lemma SharedReach(m: Mem, sh: Shape, root: nat, virt: nat, level: nat)
    requires Tree(m, sh, root) && 2 <= level <= 4 && Reaches(m, root, virt, level - 1)
    ensures forall w: nat :: SharesPath(virt, w, level) ==> Reaches(m, root, w, level - 1)
  {
    forall w: nat | SharesPath(virt, w, level) ensures Reaches(m, root, w, level - 1) {
      PathShared(m, sh, root, virt, w, level);
    }
  }

  lemma SameReach(m: Mem, m': Mem, sh: Shape, root: nat)
    requires Tree(m, sh, root) && Agree(m, m', sh)
    ensures forall w: nat, l: nat :: 1 <= l <= 4 ==> TableAt(m', root, w, l) == TableAt(m, root, w, l)
  {
    forall w: nat, l: nat | 1 <= l <= 4 ensures TableAt(m', root, w, l) == TableAt(m, root, w, l) {
      PathFrame(m, m', sh, root, w, l);
    }
  }

  lemma LinkReach(m: Mem, sh: Shape, root: nat, virt: nat, level: nat, t: nat, a: nat)
    requires Tree(m, sh, root) && 2 <= level <= 4 && TableAt(m, root, virt, level) == Table(t)
    requires t in sh.lvl && sh.lvl[t] == level && !Present(Entry(m, t, Index(virt, level)))
    requires FrameAddress(a) && a !in sh.lvl && a in m && m[a] == EmptyTable()
    ensures var m' := Store(m, t, Index(virt, level), Link(a));
      forall w: nat, l: nat :: 1 <= l <= 3 ==>
        (Reaches(m', root, w, l) <==> Reaches(m, root, w, l) || (l == level - 1 && SharesPath(virt, w, level)))
  {
    var m' := Store(m, t, Index(virt, level), Link(a));
    forall w: nat, l: nat | 1 <= l <= 3
      ensures Reaches(m', root, w, l) <==> Reaches(m, root, w, l) || (l == level - 1 && SharesPath(virt, w, level))
    {
      LinkPath(m, sh, root, t, Index(virt, level), a, w, l);
      PathShared(m, sh, root, virt, w, level);
    }
  }
}
