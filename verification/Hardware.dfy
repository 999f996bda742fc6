/** Translation as the architecture does it, and what it makes of the tables the kernel writes. */
module Hardware {
  import opened Wrappers
  import opened Words
  import opened Addresses
  import opened Descriptors
  import opened PageTables

  /** What a hardware walk ends in: a physical address and the attribute fields of the descriptor. */
  datatype Found = Found(phys: nat, memoryKind: nat, access: nat, shared: nat, accessed: bool)

  /** Where a block or page descriptor takes an address. */
  function Leads(e: Word, level: nat, va: nat): Found
    requires level <= 3
  {
    Found(OutputAddress(e) / Span(level) * Span(level) + va % Span(level),
          e / 4 % 8, e / 0x40 % 4, e / 0x100 % 4, e / 0x400 % 2 == 1)
  }

  /** The walk of section D8.2 of the Arm Architecture Reference Manual, from the table at `addr` on. */
  function Resolve(mem: map<nat, Table>, addr: nat, level: nat, va: nat): Option<Found>
    requires level <= 3
    decreases 3 - level
  {
    if addr !in mem then None else
    var e := mem[addr][va / Span(level) % 512];
    if e % 2 == 0 then None
    else if level == 3 then (if e % 4 == PT_PAGE then Some(Leads(e, 3, va)) else None)
    else if e % 4 == PT_PAGE then Resolve(mem, OutputAddress(e), level + 1, va)
    else if level == 0 then None
    else Some(Leads(e, level, va))
  }

  /** 48-bit addresses: the low half of them, and the high half with all upper bits set. Both base
      registers hold the same table. */
  function HardwareWalk(mem: map<nat, Table>, root: nat, va: Word): Option<Found> {
    if va / 0x1_0000_0000_0000 == 0 || va / 0x1_0000_0000_0000 == 0xFFFF then Resolve(mem, root, 0, va) else None
  }

  /** Tables with nothing in them but what the kernel writes: its own table descriptors, and pages. */
  ghost predicate Genuine(t: Tables) {
    && (forall level: nat, q: nat | level < 3 :: Entry(t, level, q) == 0 || IsTableEntry(Entry(t, level, q)))
    && (forall q: nat :: Entry(t, 3, q) == 0 || Entry(t, 3, q) % 4 == PT_PAGE)
  }

  lemma TableEntryReads(e: Word)
    requires IsTableEntry(e)
    ensures e % 4 == PT_PAGE && e % 2 == 1 && OutputAddress(e) == Ptr(e) && KindOf(e) == EntryKind.Table
  {}

  lemma IndexIs(va: nat, level: nat)
    requires level <= 3
    ensures va / Span(level) % 512 == Up(va / PAGE_SIZE, level) % 512
  {
    var q := va / PAGE_SIZE;
    assert Up(q, 3) == q && Up(q, 2) == q / 512 && Up(q, 1) == q / 512 / 512 && Up(q, 0) == q / 512 / 512 / 512;
  }

  /** What the architecture makes of the descriptor a walk has found. */
  function Seen(e: Option<Word>, va: nat): Option<Found> {
    match e
    case None => None
    case Some(e) => Some(Leads(e, 3, va))
  }

  /** On such tables the architecture's walk and the kernel's are the same, from every table on. */
  lemma {:induction false} ResolveFrom(t: Tables, level: nat, va: nat)
    requires WellFormed(t) && Genuine(t) && level <= 3 && Here(t, level, Up(va / PAGE_SIZE, level))
    ensures (var q := va / PAGE_SIZE;
             var a := t.at[Pos(level, Up(q, level) / 512)];
             Resolve(t.mem, a, level, va) == Seen(Walk(t.mem, a, level, q), va))
    decreases 3 - level
  {
    var q := va / PAGE_SIZE;
    var e := Entry(t, level, Up(q, level));
    IndexIs(va, level);
    if level < 3 && e != 0 {
      TableEntryReads(e);
      BelowFree(t, level, Up(q, level));
      ResolveFrom(t, level + 1, va);
    }
  }

  lemma ResolveIsTranslate(t: Tables, va: nat)
    requires WellFormed(t) && Genuine(t) && va < 0x1_0000_0000_0000
    ensures Resolve(t.mem, t.root, 0, va) == Seen(Translate(t, va / PAGE_SIZE), va)
  {
    var q := va / PAGE_SIZE;
    assert Up(q, 3) == q && Up(q, 0) == q / 512 / 512 / 512;
    ResolveFrom(t, 0, va);
  }
}
