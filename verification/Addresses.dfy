/** Physical addresses and the two kernel windows onto physical memory. */
module Addresses {
  import opened Words

  const PAGE_SIZE: nat := 4096

  /** Start of the window through which the kernel sees normal memory. */
  const MEM_WINDOW: Word := 0xffff_ff00_0000_0000
  /** Start of the window through which the kernel sees devices. */
  const DEV_WINDOW: Word := 0xffff_ff80_0000_0000
  /** Physical addresses the kernel can reach through one window. */
  const REACH: nat := 0x80_0000_0000

  /** `addr & 0x0000_00ff_ffff_ffff` (see `FromVirtIsMask`) */
  function FromVirt(addr: nat): nat {
    addr % 0x100_0000_0000
  }

  function Virt(phys: nat): nat {
    Or(phys, MEM_WINDOW)
  }

  function VirtDev(phys: nat): nat {
    Or(phys, DEV_WINDOW)
  }

  lemma Pow2At40()
    ensures Pow2(40) == 0x100_0000_0000 && Pow2(39) == REACH
  {
    assert Pow2(8) == 0x100;
    assert Pow2(16) == 0x1_0000;
    assert Pow2(24) == 0x100_0000;
    assert Pow2(32) == 0x1_0000_0000;
  }

  lemma FromVirtIsMask(addr: nat)
    ensures FromVirt(addr) == And(addr, 0x0000_00ff_ffff_ffff)
  {
    Pow2At40();
    var k := 40;
    AndLowMask(addr, k);
    Fields(addr, k, 0x100_0000_0000);
  }

  /** For physical memory below 2^39 the window is an offset. */
  lemma VirtIs(phys: nat)
    requires phys < REACH
    ensures Virt(phys) == MEM_WINDOW + phys && VirtDev(phys) == DEV_WINDOW + phys
  {
    Pow2At40();
    var k, mem, dev := 39, 0x1FFFFFE, 0x1FFFFFF;
    ShlIs(mem, k);
    ShlIs(dev, k);
    OrFields(mem, phys, k);
    OrFields(dev, phys, k);
    OrCommutes(phys, MEM_WINDOW);
    OrCommutes(phys, DEV_WINDOW);
  }

  /** Going to the kernel window and back is the identity below 2^39, and so is the way there from
      any address of the window. */
  lemma VirtRoundTrip(phys: nat, addr: nat)
    requires phys < REACH && MEM_WINDOW <= addr < MEM_WINDOW + REACH
    ensures FromVirt(Virt(phys)) == phys
    ensures FromVirt(addr) < REACH && Virt(FromVirt(addr)) == addr
  {
    VirtIs(phys);
    WindowParts(phys, addr);
    VirtIs(FromVirt(addr));
  }

  /** A kernel address is as good as the physical one. */
  lemma VirtTwice(addr: Word)
    ensures Virt(addr) <= ALL_ONES && Virt(Virt(addr)) == Virt(addr)
  {
    var k := 64;
    Pow2At64();
    OrBound(addr, MEM_WINDOW, k);
    OrAssociates(addr, MEM_WINDOW, MEM_WINDOW);
    OrSelf(MEM_WINDOW);
  }

  lemma WindowParts(phys: nat, addr: nat)
    requires phys < REACH && MEM_WINDOW <= addr < MEM_WINDOW + REACH
    ensures FromVirt(MEM_WINDOW + phys) == phys && FromVirt(addr) == addr - MEM_WINDOW
  {}
}
