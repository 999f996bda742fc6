/** A tree in which all of user memory from 1 GB on is used, but for the very last 2 MB. */
module FullTables {
  import opened Words
  import opened Descriptors
  import opened PageTables

  /** The descriptor of the table on page `i`. */
  function Descriptor(i: nat): (e: Word)
    requires i < 1000
    ensures KindOf(e) == EntryKind.Table && Ptr(e) == i * 0x1000
  {
    var e := i * 0x1000 + PT_PAGE;
    assert e / 0x1000 == i;
    e
  }

  /** The level-2 table of gigabyte `w`: a block in every slot, but for the last of all. */
  function SlotsTable(w: nat): (t: Table)
    ensures forall i: nat {:trigger t[i]} | i < 512 :: t[i] == if w == 511 && i == 511 then 0 else PT_BLOCK
  {
    seq(512, i requires 0 <= i < 512 => if w == 511 && i == 511 then 0 else PT_BLOCK)
  }

  /** The level-1 table: a table for every gigabyte but the first. */
  function WindowsTable(): (t: Table)
    ensures forall w: nat {:trigger t[w]} | w < 512 :: t[w] == if w == 0 then 0 else Descriptor(w + 2)
  {
    seq(512, w requires 0 <= w < 512 => if w == 0 then 0 else Descriptor(w + 2))
  }

  function OnPage(i: nat): Table {
    if i <= 1 then ZeroTable()[0 := Descriptor(2)] else if i == 2 then WindowsTable() else SlotsTable(i - 2)
  }

  function FullTree(): Tables {
    Tables(map a: nat | 0x1000 <= a <= 513 * 0x1000 && a % 0x1000 == 0 :: OnPage(a / 0x1000), 0x1000,
           map[Pos(0, 0) := 0x1000, Pos(1, 0) := 0x2000] + (map w: nat | 1 <= w < 512 :: Pos(2, w) := (w + 2) * 0x1000))
  }

  /** What is in it, entry by entry. */
  function FullEntry(level: nat, q: nat): Word {
    if level == 0 then (if q == 0 then Descriptor(2) else 0)
    else if level == 1 then (if 1 <= q < 512 then Descriptor(q + 2) else 0)
    else if level == 2 then (if 512 <= q < 512 * 512 - 1 then PT_BLOCK else 0)
    else 0
  }

  lemma Pages(i: nat)
    requires 1 <= i <= 513
    ensures i * 0x1000 in FullTree().mem && FullTree().mem[i * 0x1000] == OnPage(i)
  {
    assert i * 0x1000 / 0x1000 == i && i * 0x1000 % 0x1000 == 0;
  }

  /** The page of the table at a place. */
  function PageOf(p: Pos): nat {
    if p.level == 0 then 1 else if p.level == 1 then 2 else p.prefix + 2
  }

  predicate IsPlace(p: Pos) {
    (p.level <= 1 && p.prefix == 0) || (p.level == 2 && 1 <= p.prefix < 512)
  }

  lemma Places(p: Pos)
    ensures p in FullTree().at <==> IsPlace(p)
    ensures IsPlace(p) ==> FullTree().at[p] == PageOf(p) * 0x1000
  {}

  lemma SlotEntry(q: nat)
    requires 512 <= q < 512 * 512
    ensures OnPage(q / 512 + 2)[q % 512] == FullEntry(2, q)
  {
    assert q / 512 == 511 && q % 512 == 511 <==> q == 512 * 512 - 1;
  }

  lemma FullEntries(level: nat, q: nat)
    ensures Entry(FullTree(), level, q) == FullEntry(level, q)
  {
    var p := Pos(level, q / 512);
    Places(p);
    if IsPlace(p) {
      Pages(PageOf(p));
      if level == 2 { SlotEntry(q); }
    }
  }

  lemma PlaceOk(p: Pos)
    requires p in FullTree().at
    ensures p.level <= 3 && (p.level == 0 ==> p.prefix == 0) && FullTree().at[p] in FullTree().mem
  {
    Places(p);
    Pages(PageOf(p));
  }

  lemma PlacesApart(p: Pos, p': Pos)
    requires p in FullTree().at && p' in FullTree().at
    ensures Apart(FullTree(), p, p')
  {
    Places(p);
    Places(p');
  }

  lemma FullEntryOk(level: nat, q: nat)
    requires level < 3
    ensures EntryOk(FullTree(), level, q)
  {
    FullEntries(level, q);
    Places(Pos(level + 1, q));
  }

  lemma FullTreeIs()
    ensures WellFormed(FullTree())
  {
    Places(Pos(0, 0));
    TreeIs(FullTree());
  }

  lemma TreeIs(t: Tables)
    requires t == FullTree() && Pos(0, 0) in t.at && t.at[Pos(0, 0)] == t.root
    ensures WellFormed(t)
  {
    forall p | p in t.at ensures p.level <= 3 && (p.level == 0 ==> p.prefix == 0) && t.at[p] in t.mem { PlaceOk(p); }
    forall p, p' | p in t.at && p' in t.at ensures Apart(t, p, p') { PlacesApart(p, p'); }
    forall level: nat, q: nat | level < 3 ensures EntryOk(t, level, q) { FullEntryOk(level, q); }
  }
}
