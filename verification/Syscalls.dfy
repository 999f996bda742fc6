/** The memory system calls of a user thread. */
module Syscalls {
  import opened Wrappers
  import opened Words
  import opened Addresses
  import opened Heaps
  import opened Ledgers
  import opened Nodes
  import opened Descriptors
  import opened PageTables
  import opened Holes
  import opened HoleSafety
  import opened HoleRuns
  import opened Mappings
  import opened AddressSpaces

  datatype Call =
    | PhyMap(paddr: Word, len: Word, flags: Word)
    | MemMap(len: Word, flags: Word)
    | MemUnmap(vaddr: Word, len: Word)
    | DownloadMoreRam(paddr: Word, len: Word)

  const REGISTERS: nat := 31

  /** The answer of a trap that has nothing to do with memory: `Exit`, `Log`, which leaves register 0 alone,
      `LoadKernelDevice`, `SleepSec`, or no call at all. */
  function Elsewhere(gpr: seq<Word>, outside: Result<Word>): Result<Word>
    requires |gpr| == REGISTERS
  {
    match gpr[8] % 0x1_0000_0000
    case 0 => Panic(NotImplemented)
    case 1 => Ok(gpr[0])
    case 6 => outside
    case 7 => outside
    case _ => Ok(ALL_ONES)
  }

  /** The call a trap asks for: number in register 8, arguments from register 0 on. */
  function CallOf(gpr: seq<Word>): Option<Call>
    requires |gpr| == REGISTERS
  {
    match gpr[8] % 0x1_0000_0000
    case 2 => Some(PhyMap(gpr[0], gpr[1], gpr[2]))
    case 3 => Some(MemMap(gpr[0], gpr[1]))
    case 4 => Some(MemUnmap(gpr[0], gpr[1]))
    case 5 => Some(DownloadMoreRam(gpr[0], gpr[1]))
    case _ => None
  }

  /** The user library's side of a call: its number and its arguments. */
  function Number(c: Call): nat {
    match c
    case PhyMap(_, _, _) => 2
    case MemMap(_, _) => 3
    case MemUnmap(_, _) => 4
    case DownloadMoreRam(_, _) => 5
  }

  function Arguments(c: Call): seq<Word> {
    match c
    case PhyMap(paddr, len, flags) => [paddr, len, flags]
    case MemMap(len, flags) => [len, flags]
    case MemUnmap(vaddr, len) => [vaddr, len]
    case DownloadMoreRam(paddr, len) => [paddr, len]
  }

  /** The kernel decodes what the library encodes, and nothing else. */
  lemma CallRoundTrip(gpr: seq<Word>, c: Call)
    requires |gpr| == REGISTERS
    ensures CallOf(gpr) == Some(c) <==> gpr[8] % 0x1_0000_0000 == Number(c) && Arguments(c) <= gpr
  {
    assert Arguments(c) <= gpr <==> forall i | 0 <= i < |Arguments(c)| :: Arguments(c)[i] == gpr[i];
  }

  function AccessBits(flags: Word): Word {
    if Bit(flags, 0) then PT_RW_EL0 else PT_RO_EL0
  }

  function KindBits(flags: Word): Word {
    if Bit(flags, 1) then PT_DEV else PT_MEM
  }

  function PhyMapAttrs(flags: Word): Word {
    PT_ISH + AccessBits(flags) + KindBits(flags)
  }

  function MemMapAttrs(flags: Word): Word {
    PT_ISH + PT_MEM + AccessBits(flags)
  }

  /** The attribute fields do not overlap, so that adding them is what `|` does. */
  lemma AttrsAreOr(flags: Word)
    ensures PhyMapAttrs(flags) == Or(Or(PT_ISH, AccessBits(flags)), KindBits(flags))
    ensures MemMapAttrs(flags) == Or(Or(PT_ISH, PT_MEM), AccessBits(flags))
  {
    var k, shared := 8, 3;
    assert Pow2(k) == 0x100;
    OrFields(shared, AccessBits(flags), k);
    if Bit(flags, 1) { DeviceOr(PT_ISH + AccessBits(flags)); }
  }

  lemma DeviceOr(bits: Word)
    requires bits == 0x340 || bits == 0x3C0
    ensures Or(bits, PT_DEV) == bits + PT_DEV
  {
    var k := 4;
    assert Pow2(k) == 0x10;
    OrFields(bits / 0x10, PT_DEV, k);
  }

  /** The tables of the thread and the ownership of pages. */
  datatype State = State(tree: Tables, ledger: Ledger)

  /** `len` bytes from `paddr` on are mapped at `ret`, starting from ledger `b`. */
  ghost predicate Maps(t: Tables, b: Ledger, s': State, ret: nat, paddr: nat, len: nat, attrs: Word) {
    && len % PAGE_SIZE == 0 && FindHole(ShapeOf(t), VMAP_START, len) == Some(ret)
    && NoFault(t, b, paddr, ret / PAGE_SIZE, len / PAGE_SIZE)
    && MappedAll(t, b, s'.tree, s'.ledger, ret / PAGE_SIZE, len / PAGE_SIZE, Leaves(paddr, attrs))
  }

  /** The pages a `MemMap` call gets. */
  ghost function Buffer(b: Ledger, len: nat): Option<PageSlice> {
    b.heap.Grab(PagesFor(len))
  }

  /** What a call that returns does, `ret` being the new value of register 0. */
  ghost predicate CallStep(l: Layout, s: State, c: Call, ret: Word, s': State)
    requires l.Valid()
  {
    match c
    case PhyMap(paddr, len, flags) => Maps(s.tree, s.ledger, s', ret, paddr, len, PhyMapAttrs(flags))
    case MemMap(len, flags) =>
      (match Buffer(s.ledger, len)
       case None => false
       case Some(buf) =>
         && s.ledger.heap.base <= buf.addr
         && Maps(s.tree, Allocated(s.ledger, buf), s', ret, FromVirt(buf.addr), len, MemMapAttrs(flags)))
    case MemUnmap(vaddr, len) =>
      && ret == 0 && UserRange(vaddr, PagesFor(len))
      && RemovedAll(s.tree, s'.tree, vaddr / PAGE_SIZE, PagesFor(len)) && s'.ledger == s.ledger
    case DownloadMoreRam(paddr, len) =>
      && ret == paddr && s'.tree == s.tree
      && Added(l, s.ledger.heap, Virt(paddr), len).Some?
      && s'.ledger == Grown(l, s.ledger, Virt(paddr), len)
  }

  /** The library takes a negative answer for an error code. No call answers so, but a
      `DownloadMoreRam` for an address in the upper half, which leaves the address in the register. */
  lemma AnswerIsNoError(l: Layout, s: State, c: Call, ret: Word, s': State)
    requires l.Valid() && CallStep(l, s, c, ret, s')
    ensures ret < 0x8000_0000_0000_0000 <==> !(c.DownloadMoreRam? && c.paddr >= 0x8000_0000_0000_0000)
  {
    if c.PhyMap? || c.MemMap? { FindHoleAnswer(ShapeOf(s.tree), VMAP_START, c.len); }
  }

  /** And any node can be given in that way: by its kernel address. */
  lemma WindowAnswer(l: Layout, s: State, paddr: Word, len: Word, s': State)
    requires l.Valid() && CallStep(l, s, DownloadMoreRam(paddr, len), paddr, s')
    ensures 0x8000_0000_0000_0000 <= Virt(paddr) <= ALL_ONES
    ensures CallStep(l, s, DownloadMoreRam(Virt(paddr), len), Virt(paddr), s')
  {
    VirtTwice(paddr);
  }

  /** Such as the first node of 256 megabytes. */
  lemma WindowNode(t: Tables)
    ensures Added(SmallLayout(), EarlyLedger(SmallLayout()).heap, MEM_WINDOW, NODE).Some?
    ensures CallStep(SmallLayout(), State(t, EarlyLedger(SmallLayout())), DownloadMoreRam(MEM_WINDOW, NODE), MEM_WINDOW,
                     State(t, OneNode()))
  {
    OneNodeIs(0);
    OrSelf(MEM_WINDOW);
  }

  /** Why a call brings the kernel down, told from the state before it. */
  ghost predicate Faulted(l: Layout, s: State, c: Call, f: Fault)
    requires l.Valid()
  {
    match c
    case PhyMap(paddr, len, _) => VmapFails(s.tree, s.ledger, paddr, len, f)
    case MemMap(len, _) =>
      (match Buffer(s.ledger, len)
       case None => f == OutOfMemory
       case Some(buf) =>
         s.ledger.heap.base <= buf.addr && VmapFails(s.tree, Allocated(s.ledger, buf), FromVirt(buf.addr), len, f))
    case MemUnmap(vaddr, len) =>
      || (f == BadAddress && !UserRange(vaddr, PagesFor(len)))
      || (f == BlockInTheWay && Blocked(s.tree, vaddr / PAGE_SIZE, PagesFor(len)))
    case DownloadMoreRam(paddr, len) => f == BadNode && !NodeFits(l, s.ledger.heap, Virt(paddr), len)
  }

  /** Nothing is lost by the call, should it add a memory node. */
  ghost predicate Keeps(l: Layout, s: State, c: Call)
    requires l.Valid()
  {
    c.DownloadMoreRam? ==> NodeKeeps(l, s.ledger, Virt(c.paddr), c.len)
  }

  ghost predicate Outcome(l: Layout, s: State, c: Call, r: Result<Word>, s': State)
    requires l.Valid()
  {
    match r
    case Ok(ret) => CallStep(l, s, c, ret, s')
    case Panic(f) => Faulted(l, s, c, f)
  }

  class Kernel {
    const space: AddressSpace
    const layout: Layout
    /** The registers of the trapped thread. */
    const gpr: array<Word>

    ghost predicate Valid()
      reads this, space, space.pages, space.pages.bitmap, space.pages.bitmap.cells
    {
      && space.Valid() && space.layout == layout
      && gpr.Length == REGISTERS && gpr != space.pages.bitmap.cells
    }

    ghost function Now(): State
      reads space
    {
      State(space.tree, space.ledger)
    }

    constructor (space: AddressSpace, layout: Layout, gpr: array<Word>)
      requires space.Valid() && space.layout == layout
      requires gpr.Length == REGISTERS && gpr != space.pages.bitmap.cells
      ensures Valid() && this.space == space && this.layout == layout && this.gpr == gpr
    {
      this.space, this.layout, this.gpr := space, layout, gpr;
    }

    method PhyMapCall(paddr: Word, len: Word, flags: Word) returns (r: Result<Word>)
      requires Valid()
      modifies space, space.pages, space.pages.bitmap, space.pages.bitmap.cells
      ensures Valid() && Outcome(layout, old(Now()), PhyMap(paddr, len, flags), r, Now())
    {
      r := space.Vmap(paddr, len, PhyMapAttrs(flags));
    }

    method MemMapCall(len: Word, flags: Word) returns (r: Result<Word>)
      requires Valid()
      modifies space, space.pages, space.pages.bitmap, space.pages.bitmap.cells
      ensures Valid() && Outcome(layout, old(Now()), MemMap(len, flags), r, Now())
    {
      var buf := space.NewBuffer(PagesFor(len));
      if buf.None? {
        return Panic(OutOfMemory);
      }
      r := space.Vmap(FromVirt(buf.value.addr), len, MemMapAttrs(flags));
    }

    method MemUnmapCall(vaddr: Word, len: Word) returns (r: Result<Word>)
      requires Valid()
      modifies space
      ensures Valid() && Outcome(layout, old(Now()), MemUnmap(vaddr, len), r, Now())
    {
      var done := space.Vunmap(vaddr, len);
      r := if done.Ok? then Ok(0) else Panic(done.fault);
    }

    method DownloadMoreRamCall(paddr: Word, len: Word) returns (r: Result<Word>)
      requires Valid()
      modifies space, space.pages, space.pages.bitmap, space.pages.bitmap.cells
      ensures Outcome(layout, old(Now()), DownloadMoreRam(paddr, len), r, Now())
      ensures r.Ok? && Keeps(layout, old(Now()), DownloadMoreRam(paddr, len)) ==> Valid()
    {
      var ok := space.AddMemory(layout, paddr, len);
      r := if ok then Ok(paddr) else Panic(BadNode);
    }

    method Perform(c: Call) returns (r: Result<Word>)
      requires Valid()
      modifies space, space.pages, space.pages.bitmap, space.pages.bitmap.cells
      ensures Outcome(layout, old(Now()), c, r, Now())
      ensures r.Ok? && Keeps(layout, old(Now()), c) ==> Valid()
    {
      match c
      case PhyMap(paddr, len, flags) => r := PhyMapCall(paddr, len, flags);
      case MemMap(len, flags) => r := MemMapCall(len, flags);
      case MemUnmap(vaddr, len) => r := MemUnmapCall(vaddr, len);
      case DownloadMoreRam(paddr, len) => r := DownloadMoreRamCall(paddr, len);
    }

    /** A trap: decodes the registers, makes the call and puts its answer into register 0. What devices and the timer
        make of a call of theirs is given as `outside`. */
    method HandleSyscall(outside: Result<Word>) returns (r: Result<Word>)
      requires Valid()
      modifies gpr, space, space.pages, space.pages.bitmap, space.pages.bitmap.cells
      ensures r.Ok? ==> gpr[..] == old(gpr[..])[0 := r.value]
      ensures match CallOf(old(gpr[..]))
              case None => r == Elsewhere(old(gpr[..]), outside) && Valid() && Now() == old(Now())
              case Some(c) =>
                && Outcome(layout, old(Now()), c, r, Now())
                && (r.Ok? && Keeps(layout, old(Now()), c) ==> Valid())
    {
      var call := CallOf(gpr[..]);
      if call.Some? {
        r := Perform(call.value);
      } else {
        r := Elsewhere(gpr[..], outside);
      }
      if r.Ok? {
        gpr[0] := r.value;
      }
    }
  }
}
