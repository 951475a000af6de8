/** The static page tables the loader fills after it has left the firmware: four arrays, 2 MB
    pages for the first gigabyte and 1 GB pages for the next three. */
module LoaderTables {
  import opened Common
  import opened Bits
  import opened PageWalk
  import opened PageBuilder

  const GB: nat := 0x4000_0000

  function PdRow(): (r: seq<nat>) { seq(512, i => i * MB2 + 0x83) }

  function LowRow(pd: nat): (r: seq<nat>) {
    seq(512, i => if i == 0 then pd + 3 else if i < 4 then i * GB + 0x83 else 0)
  }

  function HighRow(pd: nat): (r: seq<nat>) { seq(512, i => if i == 510 then pd + 3 else 0) }

  function RootRow(low: nat, high: nat): (r: seq<nat>) {
    seq(512, i => if i == 0 then low + 3 else if i == 511 then high + 3 else 0)
  }

  lemma FlagOr(a: nat, f: nat)
    requires a % 0x1000 == 0 && f < 0x1000
    ensures Or(a, f) == a + f
  {
    Pow2Twelve();
    OrDisjoint(a, f, 12);
  }

  /** A 2 MB entry of the shared directory, reached with write permission. */
  lemma PdWalk(mem: Mem, pd: nat, v: nat)
    requires pd in mem && mem[pd] == PdRow()
    ensures WalkFrom(mem, pd, 2, v, true) == Page(v % GB, true)
  {
    var i := Index(v, 2);
    var e := Entry(mem, pd, i);
    assert e == i * MB2 + 0x83;
    assert FrameAddress(i * MB2) by { DivUnique(i * MB2, 0x1000, i * 512, 0); }
    AlignedPlus(i * MB2, 0x83);
    DivUnique(e, MB2, i, 0x83);
    DivUnique(i * MB2, MB2, i, 0);
    DivDiv(v, MB2, 512);
    DivUnique(v, GB, v / GB, i * MB2 + v % MB2);
  }

  /** A 1 GB entry. */
  lemma GigaLeaf(k: nat, v: nat)
    requires k < 4
    ensures var e := k * GB + 0x83; Present(e) && Large(e) && Leaf(e, 3, v, true) == Page(k * GB + v % GB, true)
  {
    assert FrameAddress(k * GB) by { DivUnique(k * GB, 0x1000, k * 0x4_0000, 0); }
    AlignedPlus(k * GB, 0x83);
    DivUnique(k * GB + 0x83, GB, k, 0x83);
    DivUnique(k * GB, GB, k, 0);
  }

  ghost predicate StaticTables(mem: Mem, root: nat, low: nat, high: nat, pd: nat) {
    && FrameAddress(low) && FrameAddress(high) && FrameAddress(pd)
    && root in mem && mem[root] == RootRow(low, high)
    && low in mem && mem[low] == LowRow(pd)
    && high in mem && mem[high] == HighRow(pd)
    && pd in mem && mem[pd] == PdRow()
  }

  lemma LowWalk(mem: Mem, root: nat, low: nat, high: nat, pd: nat, v: nat)
    requires StaticTables(mem, root, low, high, pd)
    ensures WalkFrom(mem, low, 3, v, true) ==
            if Index(v, 3) < 4 then Page(Index(v, 3) * GB + v % GB, true) else Fault
  {
    var i := Index(v, 3);
    var e := Entry(mem, low, i);
    if i == 0 {
      AlignedPlus(pd, 3);
      PdWalk(mem, pd, v);
    } else if i < 4 {
      GigaLeaf(i, v);
    }
  }

  lemma HighWalk(mem: Mem, root: nat, low: nat, high: nat, pd: nat, v: nat)
    requires StaticTables(mem, root, low, high, pd)
    ensures WalkFrom(mem, high, 3, v, true) == if Index(v, 3) == 510 then Page(v % GB, true) else Fault
  {
    AlignedPlus(pd, 3);
    PdWalk(mem, pd, v);
  }

  /** Which gigabyte an address lies in. */
  lemma Gigabytes(v: nat)
    requires v < LINEAR
    ensures v == Index(v, 4) * 0x80_0000_0000 + Index(v, 3) * GB + v % GB
  {
    DivDiv(v, GB, 512);
  }

  lemma BootMapByIndex(v: nat)
    requires v < LINEAR
    ensures BootMap(0, 512, v) ==
            if Index(v, 4) == 0 && Index(v, 3) < 4 then Page(Index(v, 3) * GB + v % GB, true)
            else if Index(v, 4) == 511 && Index(v, 3) == 510 then Page(v % GB, true)
            else Fault
  {
    Gigabytes(v);
  }

  /** The static tables translate every 48-bit address as the builder's tables would for a kernel
      of 512 large pages at physical address 0. */
  lemma StaticWalk(mem: Mem, root: nat, low: nat, high: nat, pd: nat, v: nat)
    requires StaticTables(mem, root, low, high, pd) && v < LINEAR
    ensures Walk(mem, root, v) == BootMap(0, 512, v)
  {
    BootMapByIndex(v);
    var i := Index(v, 4);
    if i == 0 {
      AlignedPlus(low, 3);
      assert Walk(mem, root, v) == WalkFrom(mem, low, 3, v, true);
      LowWalk(mem, root, low, high, pd, v);
    } else if i == 511 {
      AlignedPlus(high, 3);
      assert Walk(mem, root, v) == WalkFrom(mem, high, 3, v, true);
      HighWalk(mem, root, low, high, pd, v);
    } else {
      assert Walk(mem, root, v) == Fault;
    }
  }

  lemma PdEntry(i: nat)
    ensures Or(i * MB2, 0x83) == i * MB2 + 0x83
  {
    DivUnique(i * MB2, 0x1000, i * 512, 0);
    FlagOr(i * MB2, 0x83);
  }

  lemma GigaEntries()
    ensures Or(1 * GB, 0x83) == 1 * GB + 0x83 && Or(2 * GB, 0x83) == 2 * GB + 0x83 && Or(3 * GB, 0x83) == 3 * GB + 0x83
  {
    hide Or;
    FlagOr(GB, 0x83);
    FlagOr(2 * GB, 0x83);
    FlagOr(3 * GB, 0x83);
  }

  method Zero(t: array<nat>)
    requires t.Length == 512
    modifies t
    ensures t[..] == EmptyTable()
  {
    for i := 0 to 512
      invariant forall k :: 0 <= k < i ==> t[k] == 0
    {
      t[i] := 0;
    }
  }

  method FillDirectory(t: array<nat>)
    requires t.Length == 512
    modifies t
    ensures t[..] == PdRow()
  {
    for i := 0 to 512
      invariant forall k :: 0 <= k < i ==> t[k] == k * MB2 + 0x83
    {
      PdEntry(i);
      t[i] := Or(i * MB2, 0x83);
    }
  }

  lemma LowRowIs(r: seq<nat>, pd: nat)
    requires |r| == 512 && r[0] == pd + 3 && r[1] == GB + 0x83 && r[2] == 2 * GB + 0x83 && r[3] == 3 * GB + 0x83
    requires forall k :: 4 <= k < 512 ==> r[k] == 0
    ensures r == LowRow(pd)
  {
  }

  method FillLow(t: array<nat>, pd: nat)
    requires t.Length == 512 && t[..] == EmptyTable() && FrameAddress(pd)
    modifies t
    ensures t[..] == LowRow(pd)
  {
    FlagOr(pd, 3);
    GigaEntries();
    hide Or, LowRow;
    forall k | 0 <= k < 512 ensures t[k] == 0 { assert t[k] == t[..][k]; }
    t[0] := Or(pd, 0x03);
    t[1] := Or(1 * GB, 0x83);
    t[2] := Or(2 * GB, 0x83);
    t[3] := Or(3 * GB, 0x83);
    LowRowIs(t[..], pd);
  }

  method FillHigh(t: array<nat>, pd: nat)
    requires t.Length == 512 && t[..] == EmptyTable() && FrameAddress(pd)
    modifies t
    ensures t[..] == HighRow(pd)
  {
    FlagOr(pd, 3);
    hide Or;
    t[510] := Or(pd, 0x03);
    assert t[..] == EmptyTable()[510 := pd + 3] == HighRow(pd);
  }

  method FillRoot(t: array<nat>, low: nat, high: nat)
    requires t.Length == 512 && t[..] == EmptyTable() && FrameAddress(low) && FrameAddress(high)
    modifies t
    ensures t[..] == RootRow(low, high)
  {
    FlagOr(low, 3);
    FlagOr(high, 3);
    hide Or;
    t[0] := Or(low, 0x03);
    t[511] := Or(high, 0x03);
    assert t[..] == EmptyTable()[0 := low + 3][511 := high + 3] == RootRow(low, high);
  }

  /** The loader's block: zero the four arrays, fill the directory, link the levels. */
  method BuildStaticTables(root: nat, low: nat, high: nat, pd: nat) returns (mem: Mem)
    requires FrameAddress(low) && FrameAddress(high) && FrameAddress(pd)
    requires root != low && root != high && root != pd && low != high && low != pd && high != pd
    ensures forall v: nat :: v < LINEAR ==> Walk(mem, root, v) == BootMap(0, 512, v)
  {
    var pml4Table, pdptLow, pdptHigh, pdTable := new nat[512], new nat[512], new nat[512], new nat[512];
    Zero(pml4Table);
    Zero(pdptLow);
    Zero(pdptHigh);
    Zero(pdTable);
    FillDirectory(pdTable);
    FillLow(pdptLow, pd);
    FillHigh(pdptHigh, pd);
    FillRoot(pml4Table, low, high);
    mem := map[root := pml4Table[..], low := pdptLow[..], high := pdptHigh[..], pd := pdTable[..]];
    forall v: nat | v < LINEAR ensures Walk(mem, root, v) == BootMap(0, 512, v) {
      StaticWalk(mem, root, low, high, pd, v);
    }
  }
}
