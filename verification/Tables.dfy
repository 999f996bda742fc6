/** Translation table descriptors: VMSAv8-64 with a 4 KB granule (section D8.3 of the Arm
    Architecture Reference Manual for A-profile, DDI 0487). */
module Descriptors {
  import opened Words
  import opened Addresses

  const PT_PAGE: Word := 0x3
  const PT_BLOCK: Word := 0x1
  const PT_AF: Word := 0x400
  const PT_RW_EL1: Word := 0x0
  const PT_RW_EL0: Word := 0x40
  const PT_RO_EL0: Word := 0xC0
  const PT_ISH: Word := 0x300
  const PT_MEM: Word := 0x0
  const PT_DEV: Word := 0x4

  /** PT_PAGE | PT_AF | PT_ISH | PT_MEM */
  const TABLE_FLAGS: Word := 0x703
  /** PT_PAGE | PT_AF */
  const COMMON_FLAGS: Word := 0x403

  /** The address field the kernel decodes: bits 38 to 12. */
  const ADDR_MASK: Word := 0x7F_FFFF_F000

  datatype EntryKind = Free | Block | Table

  /** What the two low bits say: `raw & 0b11` (see `KindIsMask`). */
  function KindOf(raw: Word): EntryKind {
    if raw == 0 then Free else if raw % 4 == PT_BLOCK then Block else Table
  }

  /** The table a descriptor points to: bits 38 to 12, `raw & 0x7FFFFFF000` (see `PtrIsMask`). */
  function Ptr(raw: Word): nat {
    raw / 0x1000 % 0x800_0000 * 0x1000
  }

  /** A table descriptor as the kernel writes it. */
  predicate IsTableEntry(raw: Word) {
    raw == Ptr(raw) + TABLE_FLAGS
  }

  /** The page or block address the hardware takes from a descriptor: bits 47 to 12. */
  function OutputAddress(raw: Word): nat {
    raw / 0x1000 % 0x10_0000_0000 * 0x1000
  }

  /** The descriptor stored for an inner table at physical address `phys`. */
  function TableEntry(phys: nat): Word
    requires phys < 0x1_0000_0000_0000_0000
  {
    Pow2At64();
    OrBound(phys, TABLE_FLAGS, 64);
    Or(phys, TABLE_FLAGS)
  }

  /** The descriptor stored for a page. */
  function Leaf(phys: nat, attrs: Word): (r: Word)
    requires phys < 0x1_0000_0000_0000_0000
    ensures r != 0
  {
    Pow2At64();
    OrBound(phys, COMMON_FLAGS, 64);
    OrBound(Or(phys, COMMON_FLAGS), attrs, 64);
    Or(Or(phys, COMMON_FLAGS), attrs)
  }

  lemma Pow2At12()
    ensures Pow2(12) == 0x1000 && Pow2(27) == 0x800_0000 && Pow2(36) == 0x10_0000_0000
  {
    assert Pow2(8) == 0x100;
    assert Pow2(16) == 0x1_0000;
    assert Pow2(24) == 0x100_0000;
    assert Pow2(32) == 0x1_0000_0000;
  }

  /** Page-aligned flags sit below the address. */
  lemma OrFlags(phys: nat, flags: nat)
    requires phys % PAGE_SIZE == 0 && flags < PAGE_SIZE
    ensures Or(phys, flags) == phys + flags
  {
    Pow2At12();
    var k := 12;
    ShlIs(phys / PAGE_SIZE, k);
    OrFields(phys / PAGE_SIZE, flags, k);
  }

  /** Masking with a run of `bits` ones from bit 12 up takes out the page number. */
  lemma MaskField(x: nat, bits: nat, p: nat)
    requires p == Pow2(bits)
    ensures And(x, 0x1000 * (p - 1)) == 0x1000 * (x / 0x1000 % p)
  {
    var y := x / 0x1000;
    MaskShift(x, p - 1);
    AndLowMask(y, bits);
    Fields(y, bits, p);
    RemainderIs(y, p, Shr(y, bits), Low(y, bits));
  }

  lemma MaskShift(x: nat, y: nat)
    ensures And(x, 0x1000 * y) == 0x1000 * And(x / 0x1000, y)
  {
    Pow2At12();
    var k, z := 12, x / 0x1000;
    ShlIs(y, k);
    ShrIs(x, k, 0x1000);
    AndShift(x, y, k);
    ShlIs(And(z, y), k);
  }

  lemma ShrIs(x: nat, k: nat, p: nat)
    requires p == Pow2(k)
    ensures Shr(x, k) == x / p
  {
    Fields(x, k, p);
    RemainderIs(x, p, Shr(x, k), Low(x, k));
  }

  lemma RemainderIs(y: int, p: int, q: int, r: int)
    requires 0 <= r < p && y == p * q + r
    ensures y % p == r && y / p == q
  {
    assert (y - r) == p * q;
    var q', r' := y / p, y % p;
    assert p * (q' - q) == r - r';
    if q' > q { MulGe(p, q' - q); }
    if q' < q { MulGe(p, q - q'); }
  }

  lemma MulGe(p: int, k: int)
    requires p > 0 && k >= 1
    ensures p * k >= p
  {}

  /** The flags of table and page descriptors are those the source or-s together. */
  lemma FlagsAreOr()
    ensures COMMON_FLAGS == Or(PT_PAGE, PT_AF)
    ensures TABLE_FLAGS == Or(Or(Or(PT_PAGE, PT_AF), PT_ISH), PT_MEM)
  {
    PageFlags();
    SharedPage();
  }

  lemma PageFlags()
    ensures Or(PT_PAGE, PT_AF) == 0x403
  {
    var one, three, k := 1, 3, 10;
    assert Pow2(k) == 0x400;
    ShlIs(one, k);
    OrFields(one, three, k);
    OrCommutes(three, Shl(one, k));
  }

  lemma SharedPage()
    ensures Or(0x403, PT_ISH) == 0x703
  {
    var four, three, seven, k := 4, 3, 7, 6;
    assert Pow2(k) == 0x40;
    ShlIs(four, k);
    ShlIs(three, k);
    ShlIs(seven, k);
    OrDoubles(four, three, k);
    assert Or(four, three) == seven;
    OrOdd(0x100, 0xC0);
    OrOdd(0x201, 0x180);
  }

  lemma KindIsMask(raw: Word)
    ensures KindOf(raw) == if raw == 0 then Free else if And(raw, 0x3) == PT_BLOCK then Block else Table
  {
    assert Pow2(2) == 4;
    var k := 2;
    AndLowMask(raw, k);
    Fields(raw, k, 4);
  }

  lemma PtrIsMask(raw: Word)
    ensures Ptr(raw) == And(raw, ADDR_MASK)
  {
    Pow2At12();
    var k := 27;
    MaskField(raw, k, 0x800_0000);
  }

  /** Encoding a table address and masking it out again gives the address back. */
  lemma TableEntryDecodes(phys: nat)
    requires phys % PAGE_SIZE == 0 && phys < REACH
    ensures KindOf(TableEntry(phys)) == Table && Ptr(TableEntry(phys)) == phys
  {
    OrFlags(phys, TABLE_FLAGS);
    TableFields(phys, TableEntry(phys));
  }

  lemma TableFields(phys: nat, raw: Word)
    requires phys % PAGE_SIZE == 0 && phys < REACH && raw == phys + TABLE_FLAGS
    ensures KindOf(raw) == Table && Ptr(raw) == phys
  {}

  /** A page descriptor holds the page address in bits 47 to 12 and the flags and attributes below. */
  lemma LeafDecodes(phys: nat, attrs: Word)
    requires phys % PAGE_SIZE == 0 && phys < 0x1_0000_0000_0000 && attrs < PAGE_SIZE
    ensures OutputAddress(Leaf(phys, attrs)) == phys == And(Leaf(phys, attrs), 0xFFFF_FFFF_F000)
    ensures Leaf(phys, attrs) % PAGE_SIZE == Or(COMMON_FLAGS, attrs)
  {
    OutputAddressIsMask(Leaf(phys, attrs));
    LeafFields(phys, attrs);
    PageParts(phys, Or(COMMON_FLAGS, attrs));
  }

  lemma OutputAddressIsMask(raw: Word)
    ensures OutputAddress(raw) == And(raw, 0xFFFF_FFFF_F000)
  {
    Pow2At12();
    var k := 36;
    MaskField(raw, k, 0x10_0000_0000);
  }

  /** Whatever the address and the attributes, what is stored for a page is a page descriptor. */
  lemma LeafIsPage(phys: nat, attrs: Word)
    requires phys < 0x1_0000_0000_0000_0000
    ensures Leaf(phys, attrs) % 4 == PT_PAGE
  {
    var x := Or(phys, COMMON_FLAGS);
    OrLow(phys, COMMON_FLAGS);
    OrLow(attrs, x);
    OrCommutes(attrs, x);
  }

  lemma OrLow(x: nat, y: nat)
    requires y % 4 == 3
    ensures Or(x, y) % 4 == 3
  {
    BitOr(x, y, 0);
    BitOr(x, y, 1);
    LowBits(y);
    LowBits(Or(x, y));
  }

  lemma LowBits(y: nat)
    ensures y % 4 == 3 <==> Bit(y, 0) && Bit(y, 1)
  {
    assert Bit(y, 1) == Bit(y / 2, 0);
  }

  lemma LeafFields(phys: nat, attrs: Word)
    requires phys % PAGE_SIZE == 0 && phys < 0x1_0000_0000_0000 && attrs < PAGE_SIZE
    ensures Or(COMMON_FLAGS, attrs) < PAGE_SIZE
    ensures Leaf(phys, attrs) == phys + Or(COMMON_FLAGS, attrs)
  {
    Pow2At12();
    var k := 12;
    OrBound(COMMON_FLAGS, attrs, k);
    OrAssociates(phys, COMMON_FLAGS, attrs);
    OrFlags(phys, Or(COMMON_FLAGS, attrs));
  }

  lemma PageParts(phys: nat, flags: nat)
    requires phys % PAGE_SIZE == 0 && phys < 0x1_0000_0000_0000 && flags < PAGE_SIZE
    ensures (phys + flags) / 0x1000 % 0x10_0000_0000 * 0x1000 == phys && (phys + flags) % PAGE_SIZE == flags
  {}
}

/** Translation tables in physical memory, as a four-level tree. */
module PageTables {
  import opened Wrappers
  import opened Words
  import opened Descriptors

  type Table = t: seq<Word> | |t| == 512 witness seq(512, _ => 0)

  /** Bytes an entry of the level stands for: `1 << addr_shift`. */
  function Span(level: nat): nat
    requires level <= 3
  {
    if level == 0 then 0x80_0000_0000 else if level == 1 then 0x4000_0000 else if level == 2 then 0x20_0000 else 0x1000
  }

  function ZeroTable(): (z: Table)
    ensures forall i | 0 <= i < 512 :: z[i] == 0
  {
    seq(512, _ => 0)
  }

  /** A place in the tree: level 0 to 3, and the table indices that lead there, most significant first. */
  datatype Pos = Pos(level: nat, prefix: nat)

  /** The tables, keyed by physical address, and which of them stands at each place of the tree. */
  datatype Tables = Tables(mem: map<nat, Table>, root: nat, at: map<Pos, nat>)

  /** Entry number `q` of a level, counted through all tables of that level: entry `q % 512` of the
      table at prefix `q / 512`, and 0 where there is no such table. */
  function Entry(t: Tables, level: nat, q: nat): Word {
    var p := Pos(level, q / 512);
    if p in t.at && t.at[p] in t.mem then t.mem[t.at[p]][q % 512] else 0
  }

  /** An entry points to the table at the child's place if there is one, and is free or a block otherwise. */
  ghost predicate EntryOk(t: Tables, level: nat, q: nat) {
    var e, c := Entry(t, level, q), Pos(level + 1, q);
    if c in t.at then KindOf(e) == EntryKind.Table && Ptr(e) == t.at[c] else KindOf(e) != EntryKind.Table
  }

  /** Two places do not hold the same table. */
  ghost predicate Apart(t: Tables, p: Pos, p': Pos)
    requires p in t.at && p' in t.at
  {
    t.at[p] == t.at[p'] ==> p == p'
  }

  /** A tree: no table stands at two places, every pointer leads to the table of its own place, and
      every table but the root is pointed to. */
  ghost predicate WellFormed(t: Tables) {
    && Pos(0, 0) in t.at && t.at[Pos(0, 0)] == t.root
    && (forall p | p in t.at :: p.level <= 3 && (p.level == 0 ==> p.prefix == 0) && t.at[p] in t.mem)
    && (forall p, p' {:trigger Apart(t, p, p')} | p in t.at && p' in t.at :: Apart(t, p, p'))
    && (forall level: nat, q: nat | level < 3 :: EntryOk(t, level, q))
  }

  /** The table that holds entry `q` of the level is there. */
  predicate Here(t: Tables, level: nat, q: nat) {
    Pos(level, q / 512) in t.at && t.at[Pos(level, q / 512)] in t.mem
  }

  /** `t.mem` with entry `q` of the level set to `e`. */
  function Stored(t: Tables, level: nat, q: nat, e: Word): map<nat, Table>
    requires Here(t, level, q)
  {
    var a := t.at[Pos(level, q / 512)];
    t.mem[a := t.mem[a][q % 512 := e]]
  }

  /** What `get_mut_or_alloc` does with a zero entry: link a zeroed table at `phys` by descriptor `e`. */
  function Linked(t: Tables, level: nat, q: nat, phys: nat, e: Word): Tables
    requires Here(t, level, q)
  {
    Tables(Stored(t, level, q, e)[phys := ZeroTable()], t.root, t.at[Pos(level + 1, q) := phys])
  }

  lemma StoredEntry(t: Tables, level: nat, q: nat, e: Word, l: nat, q': nat)
    requires WellFormed(t) && Here(t, level, q)
    ensures Entry(t.(mem := Stored(t, level, q, e)), l, q') == if l == level && q' == q then e else Entry(t, l, q')
  {
    if Here(t, l, q') {
      assert Apart(t, Pos(level, q / 512), Pos(l, q' / 512));
    }
  }

  /** Linking a fresh table keeps the tree and changes this one entry. */
  lemma LinkedKeeps(t: Tables, level: nat, q: nat, phys: nat, e: Word)
    requires WellFormed(t) && level < 3 && Here(t, level, q) && Entry(t, level, q) == 0
    requires phys !in t.mem && KindOf(e) == EntryKind.Table && Ptr(e) == phys
    ensures WellFormed(Linked(t, level, q, phys, e))
  {
    var t' := Linked(t, level, q, phys, e);
    forall p, p' | p in t'.at && p' in t'.at ensures Apart(t', p, p') {
      assert p in t.at && p' in t.at ==> Apart(t, p, p');
    }
    forall l: nat, q': nat | l < 3 ensures EntryOk(t', l, q') {
      LinkedEntry(t, level, q, phys, e, l, q');
      assert EntryOk(t, l, q');
    }
  }

  lemma LinkedEntry(t: Tables, level: nat, q: nat, phys: nat, e: Word, l: nat, q': nat)
    requires WellFormed(t) && level < 3 && Here(t, level, q) && Entry(t, level, q) == 0 && phys !in t.mem
    ensures Entry(Linked(t, level, q, phys, e), l, q') == if l == level && q' == q then e else Entry(t, l, q')
  {
    assert EntryOk(t, level, q);
    StoredEntry(t, level, q, e, l, q');
  }

  function WithLeaf(t: Tables, q: nat, e: Word): Tables
    requires Here(t, 3, q)
  {
    t.(mem := Stored(t, 3, q, e))
  }

  /** Writing a last-level entry keeps the tree and changes that entry only. */
  lemma WithLeafKeeps(t: Tables, q: nat, e: Word)
    requires WellFormed(t) && Here(t, 3, q)
    ensures WellFormed(WithLeaf(t, q, e))
    ensures forall l: nat, q': nat :: Entry(WithLeaf(t, q, e), l, q') ==
              if l == 3 && q' == q then e else Entry(t, l, q')
  {
    var t' := WithLeaf(t, q, e);
    forall p, p' | p in t'.at && p' in t'.at ensures Apart(t', p, p') {
      assert Apart(t, p, p');
    }
    forall l: nat, q': nat
      ensures Entry(t', l, q') == if l == 3 && q' == q then e else Entry(t, l, q')
      ensures l < 3 ==> EntryOk(t', l, q')
    {
      StoredEntry(t, 3, q, e, l, q');
      assert l < 3 ==> EntryOk(t, l, q');
    }
  }

  /** The entry number that virtual page `vpn` uses at each level. */
  function Up(vpn: nat, level: nat): nat
    requires level <= 3
    decreases 3 - level
  {
    if level == 3 then vpn else Up(vpn, level + 1) / 512
  }

  /** The walk as the kernel reads descriptors: from the table at `addr` down to a block or a page. */
  function Walk(mem: map<nat, Table>, addr: nat, level: nat, vpn: nat): Option<Word>
    requires level <= 3
    decreases 3 - level
  {
    if addr !in mem then None else
    var e := mem[addr][Up(vpn, level) % 512];
    if e == 0 then None
    else if level == 3 || KindOf(e) == Block then Some(e)
    else Walk(mem, Ptr(e), level + 1, vpn)
  }

  function Translate(t: Tables, vpn: nat): Option<Word> {
    Walk(t.mem, t.root, 0, vpn)
  }

  /** The walk in terms of entries: the first block on the way, or else the page entry. */
  function View(t: Tables, vpn: nat): Option<Word> {
    var e0, e1, e2, e3 := Entry(t, 0, Up(vpn, 0)), Entry(t, 1, Up(vpn, 1)), Entry(t, 2, Up(vpn, 2)), Entry(t, 3, vpn);
    if KindOf(e0) == Block then Some(e0)
    else if KindOf(e1) == Block then Some(e1)
    else if KindOf(e2) == Block then Some(e2)
    else if e3 != 0 then Some(e3)
    else None
  }

  /** Where there is no table descriptor there is no table below. */
  lemma BelowFree(t: Tables, level: nat, q: nat)
    requires WellFormed(t) && level < 3
    ensures Pos(level + 1, q) in t.at <==> KindOf(Entry(t, level, q)) == EntryKind.Table
    ensures Pos(level + 1, q) in t.at ==> Ptr(Entry(t, level, q)) == t.at[Pos(level + 1, q)]
  {
    assert EntryOk(t, level, q);
  }

  lemma TranslateIsView(t: Tables, vpn: nat)
    requires WellFormed(t) && vpn < 0x10_0000_0000
    ensures Translate(t, vpn) == View(t, vpn)
  {
    var q2, q1, q0 := vpn / 512, vpn / 512 / 512, vpn / 512 / 512 / 512;
    assert Up(vpn, 2) == q2 && Up(vpn, 1) == q1 && Up(vpn, 0) == q0;
    BelowFree(t, 0, q0);
    BelowFree(t, 1, q1);
    BelowFree(t, 2, q2);
  }
}
