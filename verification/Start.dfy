/** From the first instruction of mem_init to any number of operations: the world that boot leaves behind satisfies
    the invariant of runs. */
module Start {
  import opened Wrappers
  import opened Mmu
  import opened Phys
  import opened PhysInv
  import opened PageOps
  import opened FlatMap
  import FreeList
  import opened PhysMem
  import opened Partition
  import opened Regions
  import opened AddrSpace
  import opened Boot
  import opened BootSupply
  import opened EnvIds
  import opened Envs
  import opened EnvTable
  import Loader

  // ----- mem_init and env_init -----

  ghost function InUseFrames(n: nat, heapEnd: nat): set<nat> { set f: nat | f < n && InUse(f, heapEnd) }

  /** What mem_init and env_init leave: from memory s, in which the frames of the boot are reserved and no environment
      has a directory, mapped as l says; every slot free in index order, no environment loaded. The free list may be
      in any order: the checks of mem_init move frames about in it before the first mapping. */
  ghost predicate Started(w: World, s: State, heapEnd: nat, l: Layout) {
    && BootState(s) && s.reserved == InUseFrames(|s.mem|, heapEnd) && LayoutOk(l)
    && (forall r :: r in BootRegions(l) ==> RegionOk(r))
    && MapAll(s, BootRegions(l)) == Some(w.phys)
    && |w.envs| == NENV && (forall e: nat :: e < NENV ==> w.envs[e] == Env(0, 0, ENV_FREE, 0, None, 0, 0))
    && |w.free| == NENV && (forall k: nat :: k < NENV ==> w.free[k] == k)
    && w.cur == None && w.cr3 == w.phys.kern
  }

  lemma StartedOk(w: World, s: State, heapEnd: nat, l: Layout)
    requires Started(w, s, heapEnd, l)
    ensures WorldOk(w) && w.phys.reserved == s.reserved && |w.phys.mem| == |s.mem|
  {
    KernIsDir(s, multiset{});
    MapAllDone(s, BootRegions(l), 0);
    forall e: nat | e < |w.envs| ensures EnvOk(w, e) {
    }
    forall e: nat | e < |w.envs| ensures e in w.free {
      assert w.free[e] == e;
    }
  }

  /** The arguments of a call of boot_map_region. */
  datatype Call = Call(va: Word, size: Word, pa: Word, perm: nat)

  /** The six calls as mem_init writes them. */
  function Calls(l: Layout): (cs: seq<Call>)
    requires LayoutOk(l)
    ensures |cs| == 6
  {
    LastSizePages();
    var n := PagesPages(l.npages) * PGSIZE;
    [Call(UPAGES, n, l.pages * PGSIZE, PTE_U),
     Call(KERNBASE + l.pages * PGSIZE, n, l.pages * PGSIZE, PTE_W),
     Call(UENVS, ENVS_PAGES * PGSIZE, l.envs * PGSIZE, PTE_U),
     Call(KERNBASE + l.envs * PGSIZE, ENVS_PAGES * PGSIZE, l.envs * PGSIZE, PTE_W),
     Call(KSTACKTOP - KSTKSIZE, KSTKSIZE, l.stack * PGSIZE, PTE_W),
     Call(KERNBASE, LastSize(), 0, PTE_W)]
  }

  /** Aligned addresses, and the region in pages. */
  predicate Fits(c: Call, r: Region) {
    c.va % PGSIZE == 0 && c.pa % PGSIZE == 0 && r == Region(c.va / PGSIZE, c.size / PGSIZE, c.pa / PGSIZE, c.perm)
  }

  lemma CallsFit(l: Layout)
    requires LayoutOk(l)
    ensures |BootRegions(l)| == 6
    ensures forall k {:trigger Calls(l)[k]} :: 0 <= k < 6 ==> Fits(Calls(l)[k], BootRegions(l)[k])
  {
    LastSizePages();
  }

  method MapCall(pm: Pages, ghost rs: seq<Region>, ghost k: nat, c: Call) returns (ok: bool)
    requires pm.Valid() && k < |rs| && (forall r :: r in rs ==> RegionOk(r)) && Fits(c, rs[k])
    modifies pm`head, pm`free, pm`held, pm`role, pm.link, pm.mem, pm.refs
    ensures pm.Valid()
    ensures MapAll(old(pm.Abs()), rs[k..]) == if ok then MapAll(pm.Abs(), rs[k + 1..]) else None
  {
    MapAllStep(pm.Abs(), rs, k);
    hide MapAll, BootMap, RegionOk;
    ok := BootMapRegion(pm, c.va, c.size, c.pa, c.perm);
  }

  lemma MapAllStep(s: State, rs: seq<Region>, k: nat)
    requires k < |rs| && forall r :: r in rs ==> RegionOk(r)
    ensures rs[k].v + rs[k].n <= 0x10_0000 && rs[k].f + rs[k].n <= 0x10_0000 && rs[k].perm < 4096
    ensures MapAll(s, rs[k..]) ==
      match BootMap(s, rs[k].v, rs[k].n, rs[k].f, rs[k].perm)
      case None => None
      case Some(s') => MapAll(s', rs[k + 1..])
  {
    assert rs[k] in rs && rs[k..][1..] == rs[k + 1..];
  }

  /** The six calls of boot_map_region; false where one of them panics. */
  method MapKernel(pm: Pages, l: Layout) returns (ok: bool)
    requires pm.Valid() && LayoutOk(l) && forall r :: r in BootRegions(l) ==> RegionOk(r)
    modifies pm`head, pm`free, pm`held, pm`role, pm.link, pm.mem, pm.refs
    ensures pm.Valid()
    ensures var r := MapAll(old(pm.Abs()), BootRegions(l)); ok == r.Some? && (ok ==> pm.Abs() == r.value)
  {
    hide *;
    CallsFit(l);
    ghost var rs := BootRegions(l);
    var cs := Calls(l);
    assert rs[0..] == rs;
    ok := MapCall(pm, rs, 0, cs[0]);
    if !ok { return; }
    ok := MapCall(pm, rs, 1, cs[1]);
    if !ok { return; }
    ok := MapCall(pm, rs, 2, cs[2]);
    if !ok { return; }
    ok := MapCall(pm, rs, 3, cs[3]);
    if !ok { return; }
    ok := MapCall(pm, rs, 4, cs[4]);
    if !ok { return; }
    ok := MapCall(pm, rs, 5, cs[5]);
    if !ok { return; }
    MapAllNone(pm.Abs(), rs);
  }

  lemma MapAllNone(s: State, rs: seq<Region>)
    requires |rs| == 6
    ensures MapAll(s, rs[6..]) == Some(s)
  {
  }

  /** mem_init from page_init on; it panics exactly when fewer than 67 frames are free. check_page_alloc and check_page,
      which give back what they take, are left out. */
  method MemInit(pm: Pages, heapEnd: nat, l: Layout) returns (ok: bool, ghost s: State)
    requires pm.Valid() && pm.free == [] && InUse(pm.kern, heapEnd) && LayoutOk(l)
    requires forall f :: 0 <= f < pm.mem.Length ==> pm.role[f] == if f == pm.kern then KernDir else Plain
    requires pm.mem[pm.kern] == Zeros()[UVPTX := pm.kern * 4096 + 5]
    modifies pm`head, pm`free, pm`held, pm`role, pm`reserved, pm.link, pm.mem, pm.refs
    ensures pm.Valid()
    ensures EmptyBoot(s, heapEnd) && s.kern == pm.kern && |s.mem| == pm.mem.Length
    ensures forall r :: r in BootRegions(l) ==> RegionOk(r)
    ensures ok <==> 67 <= |s.free|
    ensures ok <==> MapAll(s, BootRegions(l)).Some?
    ensures ok ==> MapAll(s, BootRegions(l)) == Some(pm.Abs())
  {
    hide Booted, RegionOk, MapAll, BootRegions, LowFirst, LayoutOk, EmptyBoot, FreeList.ListRep;
    PageInit(pm, heapEnd);
    ghost var s0 := pm.Abs();
    LowFramesFirst(pm);
    s := pm.Abs();
    LowFirstBoots(s0, heapEnd);
    BootRegionsOk(l);
    EmptyNeeds(s, heapEnd, l);
    ok := MapKernel(pm, l);
  }

  /** The first mapping of mem_init starts from here: the frames of the boot reserved, nothing mapped. */
  ghost predicate EmptyBoot(s: State, heapEnd: nat) {
    BootState(s) && s.reserved == InUseFrames(|s.mem|, heapEnd) && NoTables(s)
  }

  /** mem_init and env_init, on a machine whose boot_alloc puts things where kern, l and heapEnd say. */
  method Startup(npages: nat, kern: nat, heapEnd: nat, l: Layout) returns (ok: bool, t: Table, ghost s: State)
    requires kern < npages <= 0x10_0000 && InUse(kern, heapEnd) && LayoutOk(l) && l.npages == npages
    ensures ok <==> 67 <= |s.free|
    ensures ok ==> t.Valid() && Started(t.Abs(), s, heapEnd, l)
    ensures ok ==> s.kern == kern < |s.mem| == |t.Abs().phys.mem|
    ensures ok ==> forall u: nat {:trigger Page(t.Abs().phys, s.kern, u)} ::
      IsPageNo(s, s.kern, u) ==> Page(t.Abs().phys, s.kern, u) == KernelMap(l, u)
  {
    var pm := new Pages(npages, kern);
    t := new Table(pm);
    hide Consistent, RegionOk, MapAll, BootRegions, LayoutOk, KernelMap, FreeList.ListRep, FreeList.Chain, NoTables;
    hide BootState, InUseFrames, Page, IsPageNo, InUse;
    ok, s := MemInit(pm, heapEnd, l);
    if !ok { return; }
    t.EnvInit();
    StartedOk(t.Abs(), s, heapEnd, l);
    StartedMap(t.Abs(), s, heapEnd, l);
  }

  /** From a directory without tables, the kernel's map is exactly the intended one. */
  lemma StartedMap(w: World, s: State, heapEnd: nat, l: Layout)
    requires Started(w, s, heapEnd, l) && NoTables(s) && s.kern < |w.phys.mem|
    ensures forall u: nat {:trigger Page(w.phys, s.kern, u)} ::
      IsPageNo(s, s.kern, u) ==> Page(w.phys, s.kern, u) == KernelMap(l, u)
  {
    forall u: nat {:trigger Page(w.phys, s.kern, u)} | IsPageNo(s, s.kern, u)
      ensures Page(w.phys, s.kern, u) == KernelMap(l, u)
    {
      assert Page(s, s.kern, u) == None;
      MemInitMap(s, l, u);
    }
  }

  /** Reordering the free list of page_init leaves the frames of the boot reserved and the kernel's map empty. */
  lemma LowFirstBoots(s: State, heapEnd: nat)
    requires Booted(s, heapEnd)
    ensures EmptyBoot(s.(free := LowFirst(s.free)), heapEnd)
  {
    BootedConsistent(s, heapEnd);
    LowFirstKeeps(s, multiset{});
    hide Consistent, LowFirst;
  }

  lemma EmptyNeeds(s: State, heapEnd: nat, l: Layout)
    requires EmptyBoot(s, heapEnd) && LayoutOk(l) && forall r :: r in BootRegions(l) ==> RegionOk(r)
    ensures MapAll(s, BootRegions(l)).Some? <==> 67 <= |s.free|
  {
    MemInitNeeds(s, l);
  }

  // ----- runs from boot -----

  lemma StepReserved(w: World, st: Step, w': World)
    requires WorldOk(w) && StepTo(w, st, w')
    ensures SameLayout(w, w')
  {
    match st {
      case PageInsertStep(d, f, va, perm) =>
        if CanWalk(w.phys, d, PDX(va)) { InsertFrame(w.phys, multiset{}, d, f, PDX(va), PTX(va), perm); }
        hide WorldOk, Insert;
      case PageRemoveStep(d, va) =>
        RemoveKeeps(w.phys, multiset{}, d, PDX(va), PTX(va));
        hide WorldOk, Remove;
      case EnvFreeStep(e) =>
        assert EnvOk(w, e);
        DropSpaceSites(w.phys, multiset{}, w.envs[e].pgdir.value);
        hide WorldOk, DropSpace;
      case LoadIcodeStep(e, b) =>
        assert EnvOk(w, e);
        Loader.LoadIcodeOwner(w.phys, multiset{}, w.envs[e].pgdir.value, b);
        hide WorldOk, Loader.LoadIcode;
      case _ =>
        hide WorldOk;
    }
  }

  ghost predicate SameLayout(w: World, w': World) {
    w'.phys.reserved == w.phys.reserved && |w'.phys.mem| == |w.phys.mem|
  }

  lemma ReservedInRun(ws: seq<World>, sts: seq<Step>, i: nat)
    requires IsRun(ws, sts) && WorldOk(ws[0]) && i < |sts|
    ensures SameLayout(ws[i], ws[i + 1])
  {
    RunKeeps(ws, sts, i);
    assert StepAt(ws, sts, i);
    hide WorldOk, StepTo;
    StepReserved(ws[i], sts[i], ws[i + 1]);
  }

  lemma SameLayoutTrans(v: World, w: World, w': World)
    requires SameLayout(v, w) && SameLayout(w, w')
    ensures SameLayout(v, w')
  {
  }

  lemma {:induction false} RunReserved(ws: seq<World>, sts: seq<Step>, n: nat)
    requires IsRun(ws, sts) && WorldOk(ws[0]) && n < |ws|
    ensures SameLayout(ws[0], ws[n])
  {
    if n == 0 {
    } else {
      hide *;
      RunReserved(ws, sts, n - 1);
      assert n - 1 < |sts| by { RunLength(ws, sts); }
      ReservedInRun(ws, sts, n - 1);
      SameLayoutTrans(ws[0], ws[n - 1], ws[n]);
    }
  }

  lemma RunLength(ws: seq<World>, sts: seq<Step>)
    requires IsRun(ws, sts)
    ensures |ws| == |sts| + 1
  {
  }

  /** From boot on, over any run of page and environment operations: the invariant holds, and no frame that boot
      took for the kernel, its tables' directory, pages[], envs[] or the I/O hole is ever free or held. */
  lemma BootRunSafe(ws: seq<World>, sts: seq<Step>, n: nat, s: State, heapEnd: nat, l: Layout, f: nat)
    requires IsRun(ws, sts) && n < |ws| && Started(ws[0], s, heapEnd, l)
    requires f < |s.mem| && InUse(f, heapEnd)
    ensures WorldOk(ws[n])
    ensures f < |ws[n].phys.ref| && f !in ws[n].phys.free && f !in ws[n].phys.held && ws[n].phys.ref[f] > 0
  {
    StartedOk(ws[0], s, heapEnd, l);
    RunKeeps(ws, sts, n);
    RunReserved(ws, sts, n);
    hide IsRun;
    UsedHasSite(ws[n].phys, multiset{}, f);
    assert CountOk(ws[n].phys, multiset{}, f);
  }

  /** boot_alloc and the linker have put pages[], envs[] and the boot stack between EXTPHYSMEM and the end of the boot
      heap. */
  predicate LayoutInside(l: Layout, heapEnd: nat) {
    && 256 <= l.pages && (l.pages + PagesPages(l.npages)) * 4096 <= heapEnd
    && 256 <= l.envs && (l.envs + 24) * 4096 <= heapEnd
    && 256 <= l.stack && (l.stack + 8) * 4096 <= heapEnd
  }

  /** Frame 0, the frames from 0xA0000 up to and with 0x100000, and those of pages[], envs[] and the boot stack. */
  predicate KernelFrame(l: Layout, f: nat) {
    || f == 0 || 160 <= f <= 256
    || l.pages <= f < l.pages + PagesPages(l.npages) || l.envs <= f < l.envs + 24 || l.stack <= f < l.stack + 8
  }

  /** None of them is ever free or handed out. */
  lemma KernelFramesSafe(ws: seq<World>, sts: seq<Step>, n: nat, s: State, heapEnd: nat, l: Layout, f: nat)
    requires IsRun(ws, sts) && n < |ws| && Started(ws[0], s, heapEnd, l)
    requires f < |s.mem| && LayoutInside(l, heapEnd) && KernelFrame(l, f)
    ensures f < |ws[n].phys.ref| && f !in ws[n].phys.free && f !in ws[n].phys.held && ws[n].phys.ref[f] > 0
  {
    assert InUse(f, heapEnd) by { KernelFrameInUse(l, heapEnd, f); }
    hide Started, IsRun, KernelFrame, LayoutInside;
    BootRunSafe(ws, sts, n, s, heapEnd, l, f);
  }

  lemma KernelFrameInUse(l: Layout, heapEnd: nat, f: nat)
    requires LayoutInside(l, heapEnd) && KernelFrame(l, f)
    ensures InUse(f, heapEnd)
  {
  }
}
