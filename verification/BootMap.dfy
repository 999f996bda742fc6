/** The kernel's own translation tables, built once at boot. */
module BootMaps {
  import opened Wrappers
  import opened Words
  import opened Addresses
  import opened Descriptors
  import opened PageTables
  import opened Hardware

  /** Entry `i` of a level-1 table: gigabyte `i` as a block for the kernel. */
  function BlockEntry(i: nat, attr: Word): nat {
    i * 0x4000_0000 + PT_BLOCK + PT_AF + PT_RW_EL1 + PT_ISH + attr
  }

  function ShiftedEntry(i: nat, attr: Word): nat {
    Or(Or(Or(Or(Or(Shl(i, 30), PT_BLOCK), PT_AF), PT_RW_EL1), PT_ISH), attr)
  }

  lemma MoreFlags(x: Word, a: Word, b: Word)
    requires x % PAGE_SIZE == 0 && a < PAGE_SIZE && b < PAGE_SIZE && Or(a, b) < PAGE_SIZE
    ensures Or(x + a, b) == x + Or(a, b)
  {
    OrFlags(x, a);
    OrAssociates(x, a, b);
    OrFlags(x, Or(a, b));
  }

  lemma AccessedFlag()
    ensures Or(PT_BLOCK, PT_AF) == 0x401
  {
    var one, k := 1, 10;
    assert Pow2(k) == 0x400;
    ShlIs(one, k);
    OrFields(one, one, k);
    OrCommutes(one, Shl(one, k));
  }

  lemma SharedFlags()
    ensures Or(0x401, PT_ISH) == 0x701
  {
    var four, three, seven, k := 4, 3, 7, 7;
    assert Pow2(k) == 0x80;
    ShlIs(four, k);
    ShlIs(three, k);
    ShlIs(seven, k);
    OrDoubles(four, three, k);
    assert Or(four, three) == seven;
    OrOdd(0x200, 0x180);
  }

  lemma DeviceFlag()
    ensures Or(0x701, PT_DEV) == 0x705
  {
    var x, y, k := 0xE0, 0x4, 3;
    assert Pow2(k) == 8;
    ShlIs(x, k);
    OrFields(x, y, k);
    OrFields(x, 1, k);
    OrAssociates(0x700, 1, 4);
    assert Or(1, y) == 5;
    OrFields(x, 5, k);
  }

  /** The fields of a block descriptor do not overlap. */
  lemma BlockEntryIs(i: nat, attr: Word)
    requires i < 512 && (attr == PT_MEM || attr == PT_DEV)
    ensures ShiftedEntry(i, attr) == BlockEntry(i, attr) < 0x1_0000_0000_0000_0000
  {
    var x := i * 0x4000_0000;
    Gigabytes(i);
    OrFlags(x, PT_BLOCK);
    AccessedFlag();
    MoreFlags(x, PT_BLOCK, PT_AF);
    SharedFlags();
    MoreFlags(x, 0x401, PT_ISH);
    DeviceFlag();
    MoreFlags(x, 0x701, attr);
  }

  lemma Gigabytes(i: nat)
    ensures Shl(i, 30) == i * 0x4000_0000
  {
    var k := 30;
    assert Pow2(8) == 0x100;
    assert Pow2(16) == 0x1_0000;
    assert Pow2(24) == 0x100_0000;
    assert Pow2(k) == 0x4000_0000;
    ShlIs(i, k);
  }

  method MakeL0(table: array<Word>, memTable: nat, devTable: nat)
    requires table.Length == 512
    requires memTable % PAGE_SIZE == 0 && devTable % PAGE_SIZE == 0 && memTable < REACH && devTable < REACH
    modifies table
    ensures table[..] == old(table[..])[0 := memTable + PT_PAGE][510 := memTable + PT_PAGE][511 := devTable + PT_PAGE]
  {
    OrFlags(memTable, PT_PAGE);
    OrFlags(devTable, PT_PAGE);
    table[0] := Or(memTable, PT_PAGE);
    table[510] := Or(memTable, PT_PAGE);
    table[511] := Or(devTable, PT_PAGE);
  }

  method MakeL1(table: array<Word>, attr: Word)
    requires table.Length == 512 && (attr == PT_MEM || attr == PT_DEV)
    modifies table
    ensures IsBlocks(table[..], attr)
  {
    var i := 0;
    while i < 512
      invariant 0 <= i <= 512 && forall j: nat | j < i :: table[j] == BlockEntry(j, attr)
    {
      BlockEntryIs(i, attr);
      table[i] := ShiftedEntry(i, attr);
      i := i + 1;
    }
  }

  ghost predicate IsBlocks(t: seq<Word>, attr: Word) {
    |t| == 512 && forall j: nat | j < 512 :: t[j] == BlockEntry(j, attr)
  }

  /** The three tables in memory. All other entries of the top one are zero. */
  ghost predicate Booted(mem: map<nat, Table>, root: nat, memTable: nat, devTable: nat) {
    && root in mem && memTable in mem && devTable in mem
    && memTable % PAGE_SIZE == 0 && devTable % PAGE_SIZE == 0 && memTable < REACH && devTable < REACH
    && mem[root] == ZeroTable()[0 := memTable + PT_PAGE][510 := memTable + PT_PAGE][511 := devTable + PT_PAGE]
    && IsBlocks(mem[memTable], PT_MEM) && IsBlocks(mem[devTable], PT_DEV)
  }

  /** Builds the tables, from zeroed memory. */
  method InitTables(l0: array<Word>, l1Mem: array<Word>, l1Dev: array<Word>, root: nat, memTable: nat, devTable: nat)
    returns (mem: map<nat, Table>)
    requires l0.Length == l1Mem.Length == l1Dev.Length == 512 && l0 != l1Mem && l0 != l1Dev && l1Mem != l1Dev
    requires l0[..] == ZeroTable()
    requires root != memTable && root != devTable && memTable != devTable
    requires memTable % PAGE_SIZE == 0 && devTable % PAGE_SIZE == 0 && memTable < REACH && devTable < REACH
    modifies l0, l1Mem, l1Dev
    ensures Booted(mem, root, memTable, devTable)
  {
    MakeL0(l0, memTable, devTable);
    MakeL1(l1Mem, PT_MEM);
    MakeL1(l1Dev, PT_DEV);
    mem := map[root := l0[..], memTable := l1Mem[..], devTable := l1Dev[..]];
  }

  /** Kernel memory of a kind: read and written by the kernel only, inner shareable, marked as accessed. */
  function KernelMemory(phys: nat, memoryKind: nat): Found {
    Found(phys, memoryKind, 0, 3, true)
  }

  lemma BlockLeads(i: nat, attr: Word, va: nat)
    requires i < 512 && (attr == PT_MEM || attr == PT_DEV)
    ensures (var e := BlockEntry(i, attr);
             && e < 0x1_0000_0000_0000_0000 && e % 4 == PT_BLOCK && e % 2 == 1
             && Leads(e, 1, va) == KernelMemory(i * 0x4000_0000 + va % 0x4000_0000, attr / 4))
  {
    KindField(i, attr / 4);
    AccessFields(i, attr / 4);
    AddressField(i, attr / 4);
  }

  lemma DivMod(m: nat, y: nat, r: nat)
    requires r < m
    ensures (m * y + r) / m == y && (m * y + r) % m == r
  {
    RemainderIs(m * y + r, m, y, r);
  }

  /** The fields of a block descriptor, `k` being the index of its memory kind. */
  lemma KindField(i: nat, k: nat)
    requires k < 2
    ensures (var e := i * 0x4000_0000 + 0x701 + 4 * k; e % 4 == 1 && e % 2 == 1 && e / 4 % 8 == k)
  {
    DivMod(2, i * 0x2000_0000 + 0x380 + 2 * k, 1);
    DivMod(4, i * 0x1000_0000 + 0x1C0 + k, 1);
    DivMod(8, i * 0x200_0000 + 0x38, k);
  }

  lemma AccessFields(i: nat, k: nat)
    requires k < 2
    ensures (var e := i * 0x4000_0000 + 0x701 + 4 * k; e / 0x40 % 4 == 0 && e / 0x100 % 4 == 3 && e / 0x400 % 2 == 1)
  {
    DivMod(0x40, i * 0x100_0000 + 0x1C, 1 + 4 * k);
    DivMod(4, i * 0x40_0000 + 7, 0);
    DivMod(0x100, i * 0x40_0000 + 7, 1 + 4 * k);
    DivMod(4, i * 0x10_0000 + 1, 3);
    DivMod(0x400, i * 0x10_0000 + 1, 0x301 + 4 * k);
    DivMod(2, i * 0x8_0000, 1);
  }

  lemma AddressField(i: nat, k: nat)
    requires i < 512 && k < 2
    ensures (var e := i * 0x4000_0000 + 0x701 + 4 * k; OutputAddress(e) == i * 0x4000_0000)
  {
    DivMod(0x1000, i * 0x4_0000, 0x701 + 4 * k);
  }

  lemma TableLeads(a: nat)
    requires a % PAGE_SIZE == 0 && a < REACH
    ensures (a + PT_PAGE) % 4 == PT_PAGE && (a + PT_PAGE) % 2 == 1 && OutputAddress(a + PT_PAGE) == a
  {
    DivMod(PAGE_SIZE, a / PAGE_SIZE, PT_PAGE);
    DivMod(4, a / 4, PT_PAGE);
    DivMod(2, a / 2 + 1, 1);
  }

  /** The gigabytes of one table, whatever the address is. */
  lemma Gigabyte(mem: map<nat, Table>, table: nat, attr: Word, va: nat)
    requires table in mem && IsBlocks(mem[table], attr) && (attr == PT_MEM || attr == PT_DEV)
    ensures Resolve(mem, table, 1, va) == Some(KernelMemory(va % REACH, attr / 4))
  {
    var i := va / 0x4000_0000 % 512;
    BlockLeads(i, attr, va);
    GigabyteParts(va);
    assert mem[table][i] == BlockEntry(i, attr);
  }

  lemma GigabyteParts(va: nat)
    ensures va / 0x4000_0000 % 512 * 0x4000_0000 + va % 0x4000_0000 == va % REACH
  {}

  /** The walk at the top level: three entries lead somewhere. */
  lemma TopEntries(mem: map<nat, Table>, root: nat, memTable: nat, devTable: nat, va: nat)
    requires Booted(mem, root, memTable, devTable)
    ensures (var i := va / REACH % 512;
             Resolve(mem, root, 0, va) ==
             if i == 0 || i == 510 then Some(KernelMemory(va % REACH, 0))
             else if i == 511 then Some(KernelMemory(va % REACH, 1))
             else None)
  {
    TableLeads(memTable);
    TableLeads(devTable);
    Gigabyte(mem, memTable, PT_MEM, va);
    Gigabyte(mem, devTable, PT_DEV, va);
  }

  function WindowIndex(window: nat): nat {
    if window == 0 then 0 else if window == MEM_WINDOW then 510 else 511
  }

  lemma WindowSplit(window: nat, p: nat)
    requires p < REACH && (window == 0 || window == MEM_WINDOW || window == DEV_WINDOW)
    ensures (var va := window + p;
             && va < 0x1_0000_0000_0000_0000 && va % REACH == p && va / REACH % 512 == WindowIndex(window)
             && (va / 0x1_0000_0000_0000 == 0 || va / 0x1_0000_0000_0000 == 0xFFFF))
  {}

  /** The kernel reaches every physical address below 2^39 as normal memory through `virt`, as device
      memory through `virt_dev` and by its own address; and comes back by `from_virt`. */
  lemma BootWindows(mem: map<nat, Table>, root: nat, memTable: nat, devTable: nat, p: nat)
    requires Booted(mem, root, memTable, devTable) && p < REACH
    ensures Virt(p) < 0x1_0000_0000_0000_0000 && VirtDev(p) < 0x1_0000_0000_0000_0000
    ensures HardwareWalk(mem, root, Virt(p)) == Some(KernelMemory(p, 0))
    ensures HardwareWalk(mem, root, VirtDev(p)) == Some(KernelMemory(p, 1))
    ensures HardwareWalk(mem, root, p) == Some(KernelMemory(p, 0))
    ensures FromVirt(Virt(p)) == p
  {
    WindowAddresses(p);
    InWindow(mem, root, memTable, devTable, p, 0);
    InWindow(mem, root, memTable, devTable, p, MEM_WINDOW);
    InWindow(mem, root, memTable, devTable, p, DEV_WINDOW);
  }

  lemma WindowAddresses(p: nat)
    requires p < REACH
    ensures Virt(p) == MEM_WINDOW + p && VirtDev(p) == DEV_WINDOW + p && FromVirt(Virt(p)) == p
  {
    VirtIs(p);
    VirtRoundTrip(p, MEM_WINDOW);
  }

  lemma InWindow(mem: map<nat, Table>, root: nat, memTable: nat, devTable: nat, p: nat, window: nat)
    requires Booted(mem, root, memTable, devTable) && p < REACH
             && (window == 0 || window == MEM_WINDOW || window == DEV_WINDOW)
    ensures window + p < 0x1_0000_0000_0000_0000
    ensures HardwareWalk(mem, root, window + p) == Some(KernelMemory(p, if window == DEV_WINDOW then 1 else 0))
  {
    var va := window + p;
    WindowSplit(window, p);
    TopEntries(mem, root, memTable, devTable, va);
  }

  /** Besides the three windows, the walk finds only what the registers alias: the high half's copy of
      the low window and the low half's copies of the high ones. */
  lemma BootExact(mem: map<nat, Table>, root: nat, memTable: nat, devTable: nat, va: Word)
    requires Booted(mem, root, memTable, devTable)
    ensures HardwareWalk(mem, root, va).Some? <==>
            (va / 0x1_0000_0000_0000 == 0 || va / 0x1_0000_0000_0000 == 0xFFFF) && va / REACH % 512 in {0, 510, 511}
  {
    TopEntries(mem, root, memTable, devTable, va);
  }
}
