/** Linear-address and page-table-entry arithmetic of the 32-bit x86 MMU (inc/mmu.h, inc/memlayout.h).
    Shifts, masks and ORs of disjoint fields are written as the division, remainder and sum they compute. */
module Mmu {

  type Word = x: int | 0 <= x < 0x1_0000_0000

  const PGSIZE: nat := 4096
  const NENTRIES: nat := 1024

  const PTE_P: nat := 1
  const PTE_W: nat := 2
  const PTE_U: nat := 4

  const KERNBASE: nat := 0xF000_0000
  const KSTACKTOP: nat := 0xF000_0000
  const KSTKSIZE: nat := 0x8000
  const ULIM: nat := 0xEF80_0000
  const UVPT: nat := 0xEF40_0000
  const UPAGES: nat := 0xEF00_0000
  const UENVS: nat := 0xEEC0_0000
  const UTOP: nat := 0xEEC0_0000
  const USTACKTOP: nat := 0xEEBF_E000
  const IOPHYSMEM: nat := 0xA_0000
  const EXTPHYSMEM: nat := 0x10_0000

  /** How the regions lie above one another, in steps of one page table (4 MB). */
  lemma MemoryLayout()
    ensures var table := NENTRIES * PGSIZE;
      && KSTACKTOP == KERNBASE == 0xF000_0000 && ULIM == KSTACKTOP - 2 * table
      && UVPT == ULIM - table && UPAGES == UVPT - table && UENVS == UPAGES - table && UTOP == UENVS
      && USTACKTOP == UTOP - 2 * PGSIZE && KSTKSIZE == 8 * PGSIZE
    ensures IOPHYSMEM == 160 * PGSIZE && EXTPHYSMEM == 256 * PGSIZE
    ensures PDX(UTOP) == UTOPX && PDX(UVPT) == UVPTX
  {
  }

  /** Directory index of UTOP: entries below it are the user half of an address space. */
  const UTOPX: nat := 955
  /** Directory index of UVPT, the slot of the recursive self map. */
  const UVPTX: nat := 957

  function PDX(la: int): int { la / 0x40_0000 % 1024 }

  function PTX(la: int): int { la / 4096 % 1024 }

  function PGOFF(la: int): int { la % 4096 }

  function PGNUM(la: int): int { la / 4096 }

  function PGADDR(d: int, t: int, o: int): int { d * 0x40_0000 + t * 4096 + o }

  /** The address of page number v. */
  lemma PageNumber(v: nat)
    requires v < 0x10_0000
    ensures 0 <= v * PGSIZE < 0x1_0000_0000 && PDX(v * PGSIZE) == v / 1024 && PTX(v * PGSIZE) == v % 1024
  {
  }

  predicate Present(w: Word) { w % 2 == 1 }

  function FrameOf(w: Word): nat { w / 4096 }

  function FlagsOf(w: Word): nat { w % 4096 }

  predicate Writeable(w: Word) { FlagsOf(w) / 2 % 2 == 1 }

  predicate User(w: Word) { FlagsOf(w) / 4 % 2 == 1 }

  /** The word `page2pa(f) | perm | PTE_P`. */
  function Entry(f: nat, perm: nat): (w: Word)
    requires f < 0x10_0000 && perm < 4096
    ensures Present(w) && FrameOf(w) == f && FlagsOf(w) == perm + 1 - perm % 2
  {
    f * 4096 + perm + 1 - perm % 2
  }
}
