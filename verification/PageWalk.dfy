/** Four-level page tables and the address translation the processor performs on them
    (Intel SDM Vol 3A, section 4.5): linear-address bits 47:39, 38:30, 29:21 and 20:12
    select the entries, a set PS bit at level 3 or 2 ends the walk with a 1 GB or 2 MB
    page, and a misused reserved bit faults like a missing page.

    Addresses and entries are 64-bit words, written as natural numbers; a shift is a
    division and a mask a remainder. */
module PageWalk {
  import opened Common
  import opened Bits

  const LINEAR: nat := 0x1_0000_0000_0000      // 2^48: the translated addresses

  /** Page-table memory: the physical address of each table and its 512 entries. */
  type Mem = map<nat, seq<nat>>

  /** Where an access goes, and whether a supervisor write is allowed. */
  datatype Translation = Fault | Page(addr: nat, writable: bool)

  function Index(v: nat, level: nat): (i: nat)
    requires 1 <= level <= 4
    ensures i < 512
  {
    if level == 4 then v / 0x80_0000_0000 % 512
    else if level == 3 then v / 0x4000_0000 % 512
    else if level == 2 then v / 0x20_0000 % 512
    else v / 0x1000 % 512
  }

  predicate Present(e: nat) { e % 2 == 1 }
  predicate Writable(e: nat) { e / 2 % 2 == 1 }
  predicate Large(e: nat) { e / 128 % 2 == 1 }

  /** Bits 51:12 of an entry. */
  function Frame(e: nat): nat { e / 0x1000 % 0x100_0000_0000 * 0x1000 }

  /** The entry the walk reads; memory that holds no table reads as zero. */
  function Entry(mem: Mem, t: nat, i: nat): (e: nat)
    requires i < 512
  {
    if t in mem && |mem[t]| == 512 then mem[t][i] else 0
  }

  /** Bytes covered by a page mapped at this level. */
  function Size(level: nat): (n: nat)
    ensures n > 0
  {
    if level == 3 then 0x4000_0000 else if level == 2 then 0x20_0000 else 0x1000
  }

  /** The page a present leaf entry maps; address bits between the PAT bit and the page size
      are reserved and must be zero. */
  function Leaf(e: nat, level: nat, v: nat, w: bool): Translation {
    if level > 1 && e % Size(level) >= 0x2000 then Fault
    else Page(Frame(e) - Frame(e) % Size(level) + v % Size(level), w && Writable(e))
  }

  /** The entry ends the walk at this level: 4 KB pages always, larger ones by the PS bit. */
  predicate IsLeaf(e: nat, level: nat) {
    level == 1 || (Large(e) && level <= 3)
  }

  function WalkFrom(mem: Mem, t: nat, level: nat, v: nat, w: bool): Translation
    requires 1 <= level <= 4
    decreases level
  {
    var e := Entry(mem, t, Index(v, level));
    if !Present(e) then Fault
    else if IsLeaf(e, level) then Leaf(e, level, v, w)
    else if Large(e) then Fault
    else WalkFrom(mem, Frame(e), level - 1, v, w && Writable(e))
  }

  /** Translation of linear address v under the root table cr3. */
  function Walk(mem: Mem, cr3: nat, v: nat): Translation {
    WalkFrom(mem, cr3, 4, v, true)
  }

  // ---------------------------------------------------------------- well-formed trees

  /** Ghost bookkeeping: the level of every linked table and the entry that points to it. */
  datatype Shape = Shape(lvl: map<nat, nat>, own: map<nat, (nat, nat)>)

  /** At this level the entry points to another table. */
  predicate Points(e: nat, l: nat) {
    Present(e) && l != 1 && !(l == 2 && Large(e))
  }

  ghost predicate EntryOk(mem: Mem, sh: Shape, t: nat, i: nat)
    requires t in sh.lvl && i < 512
  {
    var e := Entry(mem, t, i);
    Points(e, sh.lvl[t]) ==>
      && !Large(e) && Writable(e)
      && Frame(e) in sh.lvl && sh.lvl[Frame(e)] + 1 == sh.lvl[t]
      && Frame(e) in sh.own && sh.own[Frame(e)] == (t, i)
      && e - e % 0x1000 == Frame(e)
  }

  /** Tables form a tree of writable links; pages hang at level 2 and 1 only. */
  ghost predicate Tree(mem: Mem, sh: Shape, root: nat) {
    && root in sh.lvl && sh.lvl[root] == 4
    && (forall t :: t in sh.lvl ==> t in mem && |mem[t]| == 512 && 1 <= sh.lvl[t] <= 4)
    && (forall t :: t in sh.lvl && sh.lvl[t] == 4 ==> t == root)
    && (forall t, i :: t in sh.lvl && 0 <= i < 512 ==> EntryOk(mem, sh, t, i))
  }

  datatype Spot = Nowhere | Table(t: nat)

  /** The table at `level` on the path of v, if the path gets there. */
  ghost function TableAt(mem: Mem, root: nat, v: nat, level: nat): (s: Spot)
    requires 1 <= level <= 4
    decreases 4 - level
  {
    if level == 4 then Table(root)
    else match TableAt(mem, root, v, level + 1)
      case Nowhere => Nowhere
      case Table(up) =>
        var e := Entry(mem, up, Index(v, level + 1));
        if Points(e, level + 1) && !Large(e) then Table(Frame(e)) else Nowhere
  }

  lemma {:induction false} TableAtLevel(mem: Mem, sh: Shape, root: nat, v: nat, level: nat)
    requires Tree(mem, sh, root) && 1 <= level <= 4
    ensures TableAt(mem, root, v, level).Table? ==>
              TableAt(mem, root, v, level).t in sh.lvl && sh.lvl[TableAt(mem, root, v, level).t] == level
    decreases 4 - level
  {
    if level < 4 {
      TableAtLevel(mem, sh, root, v, level + 1);
      var up := TableAt(mem, root, v, level + 1);
      if up.Table? { assert EntryOk(mem, sh, up.t, Index(v, level + 1)); }
    }
  }

  /** Two addresses whose paths meet in a table agree on every index above it. */
  lemma {:induction false} PathUnique(mem: Mem, sh: Shape, root: nat, v: nat, w: nat, level: nat)
    requires Tree(mem, sh, root) && 1 <= level <= 4
    requires TableAt(mem, root, v, level).Table? && TableAt(mem, root, w, level) == TableAt(mem, root, v, level)
    ensures forall m: nat :: level < m <= 4 ==> Index(v, m) == Index(w, m)
    decreases 4 - level
  {
    if level < 4 {
      var up := TableAt(mem, root, v, level + 1);
      var up' := TableAt(mem, root, w, level + 1);
      TableAtLevel(mem, sh, root, v, level + 1);
      TableAtLevel(mem, sh, root, w, level + 1);
      assert EntryOk(mem, sh, up.t, Index(v, level + 1));
      assert EntryOk(mem, sh, up'.t, Index(w, level + 1));
      PathUnique(mem, sh, root, v, w, level + 1);
    }
  }

  /** The walk passes through the table on its path, with write permission intact. */
  lemma {:induction false} WalkThrough(mem: Mem, sh: Shape, root: nat, v: nat, level: nat)
    requires Tree(mem, sh, root) && 1 <= level <= 4 && TableAt(mem, root, v, level).Table?
    ensures Walk(mem, root, v) == WalkFrom(mem, TableAt(mem, root, v, level).t, level, v, true)
    decreases 4 - level
  {
    if level < 4 {
      WalkThrough(mem, sh, root, v, level + 1);
      TableAtLevel(mem, sh, root, v, level + 1);
      var up := TableAt(mem, root, v, level + 1);
      assert EntryOk(mem, sh, up.t, Index(v, level + 1));
    }
  }

  // ---------------------------------------------------------------- two edits

  function EmptyTable(): (t: seq<nat>)
    ensures |t| == 512 && forall i :: 0 <= i < 512 ==> t[i] == 0
  {
    seq(512, _ => 0)
  }

  function Store(mem: Mem, t: nat, i: nat, e: nat): (m: Mem)
    requires t in mem && |mem[t]| == 512 && i < 512
    ensures m.Keys == mem.Keys && |m[t]| == 512
    ensures forall s, j :: 0 <= j < 512 ==> Entry(m, s, j) == if s == t && j == i then e else Entry(mem, s, j)
  {
    var row: seq<nat> := mem[t][i := e];
    mem[t := row]
  }

  /** The pointer entry the builders write: present and writable. */
  function Link(a: nat): nat { Or(a, 3) }

  predicate FrameAddress(a: nat) { a % 0x1000 == 0 && a < 0x10_0000_0000_0000 }

  lemma LinkBits(a: nat)
    requires FrameAddress(a)
    ensures Link(a) == a + 3 && Present(Link(a)) && Writable(Link(a)) && !Large(Link(a)) && Frame(Link(a)) == a
    ensures Link(a) - Link(a) % 0x1000 == a
  {
    LinkSum(a);
    AlignedPlus(a, 3);
  }

  lemma LinkSum(a: nat)
    requires FrameAddress(a)
    ensures Link(a) == a + 3
  {
    Pow2Twelve();
    OrDisjoint(a, 3, 12);
  }

  lemma Pow2Twelve()
    ensures Pow2(12) == 0x1000 && Pow2(7) == 128
  {
    assert Pow2(6) == 64;
    assert Pow2(9) == 512;
  }

  /** Flag bits added to a frame address stay apart from it. */
  lemma AlignedPlus(a: nat, f: nat)
    requires FrameAddress(a) && f < 0x1000
    ensures Frame(a + f) == a && (a + f) % 0x1000 == f
    ensures Present(a + f) == Present(f) && Writable(a + f) == Writable(f) && Large(a + f) == Large(f)
  {
    var q := a / 0x1000;
    assert a == 0x1000 * q;
    PageOffset(q, f, a + f);
    LowBits(q, f, a + f);
  }

  lemma PageOffset(q: nat, f: nat, x: nat)
    requires x == 0x1000 * q + f && f < 0x1000
    ensures x % 0x1000 == f && x / 0x1000 == q
  {
    DivUnique(x, 0x1000, q, f);
  }

  lemma LowBits(q: nat, f: nat, x: nat)
    requires x == 0x1000 * q + f && f < 0x1000
    ensures x % 2 == f % 2 && x / 2 % 2 == f / 2 % 2 && x / 128 % 2 == f / 128 % 2
  {
    LowBit(x, f, 2, 1024 * q);
    LowBit(x, f, 128, 16 * q);
  }

  lemma LowBit(x: nat, f: nat, m: nat, k: nat)
    requires m > 0 && x == m * (2 * k) + f
    ensures x % m == f % m && x / m % 2 == f / m % 2
  {
    var d, r := f / m, f % m;
    assert f == m * d + r;
    assert m * (2 * k) + m * d == m * (2 * k + d);
    DivUnique(x, m, 2 * k + d, r);
    ModShift(2, k, d);
  }

  /** Hanging an empty table under an absent entry keeps the tree. */
  lemma LinkTree(mem: Mem, sh: Shape, root: nat, t: nat, i: nat, a: nat)
    requires Tree(mem, sh, root) && t in sh.lvl && 2 <= sh.lvl[t] && i < 512
    requires FrameAddress(a) && a !in sh.lvl && a in mem && mem[a] == EmptyTable()
    requires !Present(Entry(mem, t, i))
    ensures Tree(Store(mem, t, i, Link(a)), Shape(sh.lvl[a := sh.lvl[t] - 1], sh.own[a := (t, i)]), root)
  {
    var m := Store(mem, t, i, Link(a));
    var sh' := Shape(sh.lvl[a := sh.lvl[t] - 1], sh.own[a := (t, i)]);
    LinkBits(a);
    forall s, j | s in sh'.lvl && 0 <= j < 512 ensures EntryOk(m, sh', s, j) {
      if s == a {
        assert Entry(m, a, j) == Entry(mem, a, j) == 0;
      } else {
        assert EntryOk(mem, sh, s, j);
      }
    }
  }

  /** ... and changes no translation at all. */
  lemma {:induction false} LinkInvisible(mem: Mem, sh: Shape, root: nat, t: nat, i: nat, a: nat, s: nat, level: nat,
      v: nat, w: bool)
    requires Tree(mem, sh, root) && t in sh.lvl && 2 <= sh.lvl[t] && i < 512
    requires FrameAddress(a) && a !in sh.lvl && a in mem && mem[a] == EmptyTable()
    requires !Present(Entry(mem, t, i))
    requires 1 <= level <= 4 && s in sh.lvl && sh.lvl[s] == level
    ensures WalkFrom(Store(mem, t, i, Link(a)), s, level, v, w) == WalkFrom(mem, s, level, v, w)
    decreases level
  {
    var m := Store(mem, t, i, Link(a));
    var j := Index(v, level);
    var e := Entry(mem, s, j);
    LinkBits(a);
    if s == t && j == i {
      assert Entry(m, a, Index(v, level - 1)) == Entry(mem, a, Index(v, level - 1)) == 0;
    } else {
      assert EntryOk(mem, sh, s, j);
      if Present(e) && !IsLeaf(e, level) && !Large(e) {
        LinkInvisible(mem, sh, root, t, i, a, Frame(e), level - 1, v, w && Writable(e));
      }
    }
  }

  /** The addresses that share virt's page at this level. */
  predicate SamePage(v: nat, virt: nat, level: nat)
    requires 1 <= level <= 2
  {
    v % LINEAR / Size(level) == virt % LINEAR / Size(level)
  }

  /** Writing a leaf keeps the tree. */
  lemma LeafTree(mem: Mem, sh: Shape, root: nat, d: nat, k: nat, e: nat)
    requires Tree(mem, sh, root) && d in sh.lvl && k < 512
    requires sh.lvl[d] == 1 || (sh.lvl[d] == 2 && Large(e))
    ensures Tree(Store(mem, d, k, e), sh, root)
  {
    var m := Store(mem, d, k, e);
    forall s, j | s in sh.lvl && 0 <= j < 512 ensures EntryOk(m, sh, s, j) {
      assert EntryOk(mem, sh, s, j);
    }
  }

  /** A store below `level` leaves the paths down to `level` alone. */
  lemma {:induction false} PathKept(mem: Mem, sh: Shape, root: nat, d: nat, k: nat, e: nat, v: nat, level: nat)
    requires Tree(mem, sh, root) && d in sh.lvl && k < 512 && sh.lvl[d] <= level <= 4
    ensures TableAt(Store(mem, d, k, e), root, v, level) == TableAt(mem, root, v, level)
    decreases 4 - level
  {
    if level < 4 {
      PathKept(mem, sh, root, d, k, e, v, level + 1);
      TableAtLevel(mem, sh, root, v, level + 1);
    }
  }

  /** Linking a zeroed table under an absent entry extends the paths through that entry by one table,
      and no other path. */
  lemma {:induction false} LinkPath(mem: Mem, sh: Shape, root: nat, t: nat, i: nat, a: nat, w: nat, level: nat)
    requires Tree(mem, sh, root) && t in sh.lvl && 2 <= sh.lvl[t] && i < 512
    requires FrameAddress(a) && a !in sh.lvl && a in mem && mem[a] == EmptyTable()
    requires !Present(Entry(mem, t, i)) && 1 <= level <= 4
    ensures TableAt(Store(mem, t, i, Link(a)), root, w, level) ==
      if level == sh.lvl[t] - 1 && TableAt(mem, root, w, sh.lvl[t]) == Table(t)
          && Index(w, sh.lvl[t]) == i then Table(a)
      else TableAt(mem, root, w, level)
    decreases 4 - level
  {
    var m := Store(mem, t, i, Link(a));
    if level >= sh.lvl[t] {
      PathKept(mem, sh, root, t, i, Link(a), w, level);
    } else {
      LinkPath(mem, sh, root, t, i, a, w, level + 1);
      TableAtLevel(mem, sh, root, w, level + 1);
      LinkBits(a);
      assert Entry(m, a, Index(w, level + 1)) == 0;
    }
  }

  /** Below a level-1 table nothing is read; below level 2 only level-1 tables are. */
  lemma WalkBelow(mem: Mem, sh: Shape, root: nat, d: nat, k: nat, e: nat, t: nat, v: nat)
    requires Tree(mem, sh, root) && d in sh.lvl && k < 512 && sh.lvl[d] <= 2
    requires t in sh.lvl && sh.lvl[t] == sh.lvl[d] && (t != d || Index(v, sh.lvl[d]) != k)
    ensures WalkFrom(Store(mem, d, k, e), t, sh.lvl[d], v, true) == WalkFrom(mem, t, sh.lvl[d], v, true)
  {
    assert EntryOk(mem, sh, t, Index(v, sh.lvl[d]));
  }

  /** A path that breaks off breaks off in the same place after a store further down. */
  lemma {:induction false} BreakKept(mem: Mem, sh: Shape, root: nat, d: nat, k: nat, e: nat, v: nat, level: nat)
    requires Tree(mem, sh, root) && d in sh.lvl && k < 512 && sh.lvl[d] <= level < 4
    requires Tree(Store(mem, d, k, e), sh, root)
    requires TableAt(mem, root, v, level).Nowhere?
    ensures Walk(Store(mem, d, k, e), root, v) == Walk(mem, root, v)
    decreases 4 - level
  {
    var m := Store(mem, d, k, e);
    var up := TableAt(mem, root, v, level + 1);
    PathKept(mem, sh, root, d, k, e, v, level + 1);
    if up.Nowhere? {
      BreakKept(mem, sh, root, d, k, e, v, level + 1);
    } else {
      WalkThrough(mem, sh, root, v, level + 1);
      WalkThrough(m, sh, root, v, level + 1);
      TableAtLevel(mem, sh, root, v, level + 1);
      assert EntryOk(mem, sh, up.t, Index(v, level + 1));
    }
  }

  /** Storing a leaf in the table on virt's path remaps exactly virt's page. */
  lemma LeafExact(mem: Mem, sh: Shape, root: nat, virt: nat, d: nat, e: nat, level: nat, v: nat)
    requires Tree(mem, sh, root) && 1 <= level <= 2 && TableAt(mem, root, virt, level) == Table(d)
    requires d in sh.lvl && sh.lvl[d] == level
    requires level == 2 ==> Large(e)
    ensures Walk(Store(mem, d, Index(virt, level), e), root, v) ==
            if SamePage(v, virt, level) then (if Present(e) then Leaf(e, level, v, true) else Fault)
            else Walk(mem, root, v)
  {
    var k := Index(virt, level);
    var m := Store(mem, d, k, e);
    LeafTree(mem, sh, root, d, k, e);
    PathKept(mem, sh, root, d, k, e, v, level);
    SamePageIndices(v, virt, level);
    var at := TableAt(mem, root, v, level);
    if at.Nowhere? {
      if SamePage(v, virt, level) {
        SamePath(mem, root, v, virt, level);
      }
      BreakKept(mem, sh, root, d, k, e, v, level);
    } else {
      WalkThrough(mem, sh, root, v, level);
      WalkThrough(m, sh, root, v, level);
      TableAtLevel(mem, sh, root, v, level);
      if at.t == d && Index(v, level) == k {
        PathUnique(mem, sh, root, v, virt, level);
      } else {
        if SamePage(v, virt, level) {
          SamePath(mem, root, v, virt, level);
        }
        WalkBelow(mem, sh, root, d, k, e, at.t, v);
      }
    }
  }

  lemma {:induction false} SamePath(mem: Mem, root: nat, v: nat, w: nat, level: nat)
    requires 1 <= level <= 4 && forall m: nat :: level <= m <= 4 ==> Index(v, m) == Index(w, m)
    ensures TableAt(mem, root, v, level) == TableAt(mem, root, w, level)
    decreases 4 - level
  {
    if level < 4 {
      SamePath(mem, root, v, w, level + 1);
    }
  }

  lemma SamePageIndices(v: nat, virt: nat, level: nat)
    requires 1 <= level <= 2
    ensures SamePage(v, virt, level) <==> forall m: nat :: level <= m <= 4 ==> Index(v, m) == Index(virt, m)
  {
    if level == 2 {
      SameDigits2(v, virt);
    } else {
      SameDigits1(v, virt);
    }
    if forall m: nat :: level <= m <= 4 ==> Index(v, m) == Index(virt, m) {
      assert Index(v, 2) == Index(virt, 2) && Index(v, 3) == Index(virt, 3) && Index(v, 4) == Index(virt, 4);
      if level == 1 { assert Index(v, 1) == Index(virt, 1); }
    }
  }

  lemma DigitEq(a: nat, x: nat, b: nat, y: nat)
    requires x < 512 && y < 512
    ensures a * 512 + x == b * 512 + y <==> a == b && x == y
  {
  }

  lemma SameDigits2(v: nat, w: nat)
    ensures v % LINEAR / 0x20_0000 == w % LINEAR / 0x20_0000 <==>
            Index(v, 4) == Index(w, 4) && Index(v, 3) == Index(w, 3) && Index(v, 2) == Index(w, 2)
  {
    Digits(v);
    Digits(w);
    DigitEq(Index(v, 4) * 512 + Index(v, 3), Index(v, 2), Index(w, 4) * 512 + Index(w, 3), Index(w, 2));
    DigitEq(Index(v, 4), Index(v, 3), Index(w, 4), Index(w, 3));
  }

  lemma SameDigits1(v: nat, w: nat)
    ensures v % LINEAR / 0x1000 == w % LINEAR / 0x1000 <==>
            Index(v, 4) == Index(w, 4) && Index(v, 3) == Index(w, 3) && Index(v, 2) == Index(w, 2)
                && Index(v, 1) == Index(w, 1)
  {
    Digits(v);
    Digits(w);
    DigitEq(v % LINEAR / 0x20_0000, Index(v, 1), w % LINEAR / 0x20_0000, Index(w, 1));
    SameDigits2(v, w);
  }

  /** The four indices are the base-512 digits of the page number. */
  lemma Digits(v: nat)
    ensures v % LINEAR / 0x20_0000 == Index(v, 4) * 0x4_0000 + Index(v, 3) * 0x200 + Index(v, 2)
    ensures v % LINEAR / 0x1000 == Index(v, 4) * 0x800_0000 + Index(v, 3) * 0x4_0000 + Index(v, 2) * 0x200 + Index(v, 1)
  {
    var p := v / 0x1000;
    DivDiv(v, 0x1000, 0x200);
    DivDiv(v, 0x1000, 0x4_0000);
    DivDiv(v, 0x1000, 0x800_0000);
    DivDiv(p, 0x200, 0x200);
    DivDiv(p, 0x4_0000, 0x200);
    var top := p / 0x800_0000 / 0x200;
    assert p == top * 0x10_0000_0000 + Index(v, 4) * 0x800_0000 + Index(v, 3) * 0x4_0000 + Index(v, 2) * 0x200
        + Index(v, 1);
    var low := Index(v, 4) * 0x800_0000 + Index(v, 3) * 0x4_0000 + Index(v, 2) * 0x200 + Index(v, 1);
    assert v == LINEAR * top + (0x1000 * low + v % 0x1000);
    DivUnique(v, LINEAR, top, 0x1000 * low + v % 0x1000);
    DivUnique(v % LINEAR, 0x1000, low, v % 0x1000);
    DivUnique(v % LINEAR, 0x20_0000, Index(v, 4) * 0x4_0000 + Index(v, 3) * 0x200 + Index(v, 2), Index(v, 1) * 0x1000
        + v % 0x1000);
  }
}
