/** mem_init: page_init builds the free list, boot_map_region builds the kernel's map. */
module Boot {
  import opened Wrappers
  import opened Mmu
  import opened Phys
  import opened PhysInv
  import opened PageOps
  import opened FlatMap
  import opened FreeList
  import opened PhysMem
  import opened Regions

  // ----- page_init -----

  /** Frames that page_init keeps off the free list: frame 0, the I/O hole with EXTPHYSMEM itself, and what
      boot_alloc handed out, up to physical address heapEnd. */
  predicate InUse(f: nat, heapEnd: nat) {
    || f == 0
    || IOPHYSMEM <= f * PGSIZE <= EXTPHYSMEM
    || EXTPHYSMEM < f * PGSIZE < heapEnd
  }

  /** The free list after the loop has passed n frames: the last one freed comes first. */
  function FreeFrames(n: nat, heapEnd: nat): (q: seq<nat>)
    ensures forall f :: f in q <==> 0 <= f < n && !InUse(f, heapEnd)
  {
    if n == 0 then []
    else if InUse(n - 1, heapEnd) then FreeFrames(n - 1, heapEnd)
    else [n - 1] + FreeFrames(n - 1, heapEnd)
  }

  /** Memory as page_init leaves it. */
  ghost predicate Booted(s: State, heapEnd: nat) {
    && Shape(s) && InUse(s.kern, heapEnd)
    && s.mem[s.kern] == Zeros()[UVPTX := s.kern * 4096 + 5]
    && (forall f: nat :: f < |s.mem| ==> s.role[f] == if f == s.kern then KernDir else Plain)
    && (forall f: nat :: f < |s.mem| ==> s.ref[f] == if InUse(f, heapEnd) then 1 else 0)
    && s.free == FreeFrames(|s.mem|, heapEnd)
    && s.reserved == (set f: nat | f < |s.mem| && InUse(f, heapEnd))
    && s.held == {}
  }

  method PageInit(pm: Pages, heapEnd: nat)
    requires pm.Valid() && pm.free == [] && InUse(pm.kern, heapEnd)
    requires forall f :: 0 <= f < pm.mem.Length ==> pm.role[f] == if f == pm.kern then KernDir else Plain
    requires pm.mem[pm.kern] == Zeros()[UVPTX := pm.kern * 4096 + 5]
    modifies pm`head, pm`free, pm`reserved, pm`held, pm.refs, pm.link
    ensures pm.Valid() && Booted(pm.Abs(), heapEnd)
  {
    hide ListRep, InUse;
    pm.reserved, pm.held := {}, {};
    var n := pm.mem.Length;
    var i := 0;
    while i < n
      invariant 0 <= i <= n && pm.Valid() && pm.held == {}
      invariant pm.free == FreeFrames(i, heapEnd)
      invariant pm.reserved == set f: nat | f < i && InUse(f, heapEnd)
      invariant forall f :: 0 <= f < i ==> pm.refs[f] == if InUse(f, heapEnd) then 1 else 0
    {
      InitFrame(pm, i, heapEnd);
      i := i + 1;
    }
  }

  /** One round of page_init. */
  method InitFrame(pm: Pages, i: nat, heapEnd: nat)
    requires pm.Valid() && i < pm.mem.Length && i !in pm.free
    modifies pm`head, pm`free, pm`reserved, pm.refs, pm.link
    ensures pm.Valid()
    ensures pm.refs[..] == old(pm.refs[..])[i := if InUse(i, heapEnd) then 1 else 0]
    ensures pm.free == (if InUse(i, heapEnd) then [] else [i]) + old(pm.free)
    ensures pm.reserved == if InUse(i, heapEnd) then old(pm.reserved) + {i} else old(pm.reserved)
  {
    ghost var links := pm.link[..];
    ListPush(pm.head, links, pm.free, i);
    NullLink(pm.head, links, pm.free, i);
    hide ListRep, InUse;
    ghost var counts := pm.refs[..];
    pm.refs[i] := 0;
    assert pm.refs[..] == counts[i := 0];
    if InUse(i, heapEnd) {
      pm.refs[i] := 1;
      assert pm.refs[..] == counts[i := 1];
      pm.link[i] := -1;
      assert pm.link[..] == links;
      pm.reserved := pm.reserved + {i};
    } else {
      pm.link[i] := pm.head;
      assert pm.link[..] == links[i := pm.head];
      pm.head := i;
      pm.free := [i] + pm.free;
    }
  }

  lemma NullLink(head: int, links: seq<int>, free: seq<nat>, i: nat)
    requires ListRep(head, links, free) && i < |links| && i !in free
    ensures links[i] == -1
  {
  }

  lemma {:induction false} FreeFramesNoDup(n: nat, heapEnd: nat)
    ensures NoDup(FreeFrames(n, heapEnd))
  {
    if n > 0 { FreeFramesNoDup(n - 1, heapEnd); }
  }

  /** In frame numbers: base memory but for frame 0 is free, and what lies above EXTPHYSMEM and the boot heap. */
  lemma FreeAtBoot(n: nat, heapEnd: nat, f: nat)
    ensures f in FreeFrames(n, heapEnd) <==> f < n && (1 <= f < 160 || (256 < f && heapEnd <= f * 4096))
  {
  }

  /** page_init establishes the global invariant. */
  lemma BootedConsistent(s: State, heapEnd: nat)
    requires Booted(s, heapEnd)
    ensures Consistent(s, multiset{}) && NoEnvDirs(s)
  {
    forall k: nat, i: nat | k < |s.mem| && i < NENTRIES ensures WordOk(s, k, i) {
    }
    forall k: nat | k < |s.mem| ensures RoleOk(s, k) && CountOk(s, multiset{}, k) {
      assert Sites(s, k) == if InUse(k, heapEnd) then {Mark(k)} else {};
    }
    FreeFramesNoDup(|s.mem|, heapEnd);
  }

  // ----- boot_map_region -----

  /** A page of the kernel half that boot_map_region may map. */
  predicate KernPage(v: nat) {
    v < 0x10_0000 && UTOPX <= v / 1024 && v / 1024 != UVPTX
  }

  /** One round of boot_map_region; None stands for its panic. */
  function MapStatic(s: State, v: nat, f: nat, perm: nat): Option<State>
    requires Shape(s) && v < 0x10_0000 && f < 0x10_0000 && perm < 4096
    requires s.free != [] ==> s.free[0] < |s.mem|
  {
    if !CanWalk(s, s.kern, v / 1024) then None
    else
      var s1 := Walk(s, s.kern, v / 1024);
      if TableOf(s1, s.kern, v / 1024) < |s1.mem|
      then Some(SetWord(s1, TableOf(s1, s.kern, v / 1024), v % 1024, Entry(f, perm)))
      else None
  }

  ghost predicate BootState(s: State) {
    Consistent(s, multiset{}) && NoEnvDirs(s)
  }

  /** No static mapping is writeable by user code. */
  predicate StaticPerm(perm: nat) {
    perm < 4096 && !(perm / 4 % 2 == 1 && perm / 2 % 2 == 1)
  }

  lemma KernStoreKeeps(s: State, x: multiset<nat>, t: nat, q: nat, w: Word)
    requires Consistent(s, x) && t < |s.mem| && q < NENTRIES && s.role[t].KernTable? && !(User(w) && Writeable(w))
    ensures Consistent(SetWord(s, t, q, w), x)
  {
    var s' := SetWord(s, t, q, w);
    KernIsDir(s, x);
    forall k: nat, i: nat | k < |s.mem| && i < NENTRIES ensures WordOk(s', k, i) {
      assert WordOk(s, k, i);
    }
    forall k: nat | k < |s.mem| ensures RoleOk(s', k) && CountOk(s', x, k) {
      assert RoleOk(s, k) && CountOk(s, x, k);
      SitesAgree(s, s', k);
    }
  }

  /** One round maps one page of the kernel's directory and touches no count but a new table's. */
  lemma MapStaticKeeps(s: State, v: nat, f: nat, perm: nat)
    requires BootState(s) && KernPage(v) && f < 0x10_0000 && StaticPerm(perm)
    ensures s.free != [] ==> s.free[0] < |s.mem|
    ensures MapStatic(s, v, f, perm).Some? <==> CanWalk(s, s.kern, v / 1024)
    ensures MapStatic(s, v, f, perm).Some? ==>
      var s' := MapStatic(s, v, f, perm).value;
      && BootState(s') && |s'.mem| == |s.mem| && s'.kern == s.kern
      && (forall g: nat :: g < |s.mem| && g !in s.free ==> s'.ref[g] == s.ref[g] && g !in s'.free)
  {
    KernIsDir(s, multiset{});
    if s.free != [] { assert s.free[0] in s.free; }
    if CanWalk(s, s.kern, v / 1024) {
      WalkKeeps(s, multiset{}, s.kern, v / 1024);
      if !HasTable(s, s.kern, v / 1024) {
        MakeTableKeeps(s, multiset{}, s.kern, v / 1024);
        InTail(s.free);
      }
      var s1 := Walk(s, s.kern, v / 1024);
      EntryFlags(f, perm);
      KernStoreKeeps(s1, multiset{}, TableOf(s1, s.kern, v / 1024), v % 1024, Entry(f, perm));
    }
  }

  lemma EntryFlags(f: nat, perm: nat)
    requires f < 0x10_0000 && StaticPerm(perm)
    ensures !(User(Entry(f, perm)) && Writeable(Entry(f, perm)))
  {
    var e := perm + 1 - perm % 2;
    assert FlagsOf(Entry(f, perm)) == e;
    assert e / 2 == perm / 2 && e / 4 == perm / 4;
  }

  /** Walking to page v leaves page u as it was. */
  lemma WalkSees(s: State, v: nat, u: nat)
    requires BootState(s) && KernPage(v) && IsPageNo(s, s.kern, u) && CanWalk(s, s.kern, v / 1024)
    ensures s.free != [] ==> s.free[0] < |s.mem|
    ensures BootState(Walk(s, s.kern, v / 1024)) && IsPageNo(Walk(s, s.kern, v / 1024), s.kern, u)
    ensures Pte(Walk(s, s.kern, v / 1024), s.kern, u / 1024, u % 1024) == Pte(s, s.kern, u / 1024, u % 1024)
  {
    KernIsDir(s, multiset{});
    WalkKeeps(s, multiset{}, s.kern, v / 1024);
    if !HasTable(s, s.kern, v / 1024) {
      MakeTableKeeps(s, multiset{}, s.kern, v / 1024);
      MakeTableMap(s, multiset{}, s.kern, v / 1024, s.kern, u / 1024, u % 1024);
    }
    hide Consistent;
  }

  lemma MapStaticMap(s: State, v: nat, f: nat, perm: nat, u: nat)
    requires BootState(s) && KernPage(v) && f < 0x10_0000 && StaticPerm(perm)
    requires IsPageNo(s, s.kern, u)
    requires s.free != [] ==> s.free[0] < |s.mem|
    requires MapStatic(s, v, f, perm).Some?
    ensures IsPageNo(MapStatic(s, v, f, perm).value, s.kern, u)
    ensures Page(MapStatic(s, v, f, perm).value, s.kern, u) ==
      if u == v then Some(Mapping(f, perm + 1 - perm % 2)) else Page(s, s.kern, u)
  {
    hide Consistent, Walk, Entry, Present, FrameOf, FlagsOf;
    KernIsDir(s, multiset{});
    MapStaticKeeps(s, v, f, perm);
    WalkKeeps(s, multiset{}, s.kern, v / 1024);
    WalkSees(s, v, u);
    var s1 := Walk(s, s.kern, v / 1024);
    StoreSees(s1, v, Entry(f, perm), u);
  }

  /** Storing in the kernel table of page v shows at that page only. */
  lemma StoreSees(s: State, v: nat, w: Word, u: nat)
    requires BootState(s) && KernPage(v) && IsPageNo(s, s.kern, u) && HasTable(s, s.kern, v / 1024)
    requires TableOf(s, s.kern, v / 1024) < |s.mem|
    ensures Pte(SetWord(s, TableOf(s, s.kern, v / 1024), v % 1024, w), s.kern, u / 1024, u % 1024)
         == if u == v then w else Pte(s, s.kern, u / 1024, u % 1024)
  {
    KernIsDir(s, multiset{});
    TableKind(s, multiset{}, s.kern, v / 1024, v % 1024);
    if HasTable(s, s.kern, u / 1024) { TableKind(s, multiset{}, s.kern, u / 1024, u % 1024); }
  }

  /** boot_map_region over n pages from page v and frame f on. */
  function BootMap(s: State, v: nat, n: nat, f: nat, perm: nat): Option<State>
    requires v + n <= 0x10_0000 && f + n <= 0x10_0000 && perm < 4096
    decreases n
  {
    if n == 0 then Some(s)
    else if !(Shape(s) && (s.free != [] ==> s.free[0] < |s.mem|)) then None
    else match MapStatic(s, v, f, perm)
      case None => None
      case Some(s') => BootMap(s', v + 1, n - 1, f + 1, perm)
  }

  /** All pages of the region lie in the kernel half, off the self map. */
  predicate KernRegion(v: nat, n: nat) {
    UTOPX * 1024 <= v && v + n <= 0x10_0000 && (v + n <= UVPTX * 1024 || (UVPTX + 1) * 1024 <= v)
  }

  ghost predicate MappedTo(s: State, s': State, v: nat, n: nat, f: nat, perm: nat)
    requires s.kern < |s.mem| && s.kern < |s'.mem|
  {
    forall u: nat {:trigger Page(s', s.kern, u)} :: IsPageNo(s, s.kern, u) ==>
      Page(s', s.kern, u) ==
        if v <= u < v + n then Some(Mapping(f + (u - v), perm + 1 - perm % 2)) else Page(s, s.kern, u)
  }

  /** Counts of frames in use stay: mappings above UTOP are not counted. */
  ghost predicate CountsKept(s: State, s': State) {
    && |s.mem| == |s'.mem| && |s.ref| == |s.mem| && |s'.ref| == |s.mem| && s'.reserved == s.reserved
    && forall g: nat {:trigger s'.ref[g]} :: g < |s.mem| && g !in s.free ==> s'.ref[g] == s.ref[g] && g !in s'.free
  }

  /** boot_map_region, when it does not panic, maps exactly its range and changes no count of a frame in use. */
  lemma {:induction false} BootMapDone(s: State, v: nat, n: nat, f: nat, perm: nat)
    requires BootState(s) && KernRegion(v, n) && f + n <= 0x10_0000 && StaticPerm(perm)
    requires BootMap(s, v, n, f, perm).Some?
    ensures var s' := BootMap(s, v, n, f, perm).value;
      && BootState(s') && s'.kern == s.kern && CountsKept(s, s')
      && MappedTo(s, s', v, n, f, perm)
    decreases n
  {
    hide *;
    RegionFits(v, n, perm);
    if n == 0 {
      BootMapNone(s, v, f, perm);
      NothingMapped(s, v, f, perm);
    } else {
      BootMapRound(s, v, n, f, perm);
      var s1 := MapStatic(s, v, f, perm).value;
      BootMapDone(s1, v + 1, n - 1, f + 1, perm);
      MappedTrans(s, s1, BootMap(s, v, n, f, perm).value, v, n, f, perm);
    }
  }

  lemma RegionFits(v: nat, n: nat, perm: nat)
    requires KernRegion(v, n) && StaticPerm(perm)
    ensures v + n <= 0x10_0000 && perm < 4096
  {
  }

  lemma NothingMapped(s: State, v: nat, f: nat, perm: nat)
    requires BootState(s)
    ensures s.kern < |s.mem|
    ensures MappedTo(s, s, v, 0, f, perm) && CountsKept(s, s)
  {
  }

  lemma MapStaticMapped(s: State, v: nat, f: nat, perm: nat)
    requires BootState(s) && KernPage(v) && f < 0x10_0000 && StaticPerm(perm)
    requires s.free != [] ==> s.free[0] < |s.mem|
    requires MapStatic(s, v, f, perm).Some?
    ensures var s' := MapStatic(s, v, f, perm).value;
      && BootState(s') && s'.kern == s.kern && CountsKept(s, s')
      && MappedTo(s, s', v, 1, f, perm)
  {
    MapStaticKeeps(s, v, f, perm);
    var s' := MapStatic(s, v, f, perm).value;
    forall u: nat {:trigger Page(s', s.kern, u)} | IsPageNo(s, s.kern, u)
      ensures Page(s', s.kern, u) == if u == v then Some(Mapping(f, perm + 1 - perm % 2)) else Page(s, s.kern, u)
    {
      MapStaticMap(s, v, f, perm, u);
    }
  }

  lemma MappedTrans(s: State, s1: State, s2: State, v: nat, n: nat, f: nat, perm: nat)
    requires n > 0 && BootState(s) && BootState(s1) && BootState(s2) && s1.kern == s.kern && s2.kern == s.kern
    requires CountsKept(s, s1) && MappedTo(s, s1, v, 1, f, perm)
    requires CountsKept(s1, s2) && MappedTo(s1, s2, v + 1, n - 1, f + 1, perm)
    ensures CountsKept(s, s2) && MappedTo(s, s2, v, n, f, perm)
  {
    KernIsDir(s1, multiset{});
    forall u: nat {:trigger Page(s2, s.kern, u)} | IsPageNo(s, s.kern, u)
      ensures Page(s2, s.kern, u) ==
        if v <= u < v + n then Some(Mapping(f + (u - v), perm + 1 - perm % 2)) else Page(s, s.kern, u)
    {
      assert IsPageNo(s1, s.kern, u);
      assert Page(s1, s.kern, u) ==
        if v <= u < v + 1 then Some(Mapping(f + (u - v), perm + 1 - perm % 2)) else Page(s, s.kern, u);
    }
    forall g: nat {:trigger s2.ref[g]} | g < |s.mem| && g !in s.free ensures s2.ref[g] == s.ref[g] && g !in s2.free {
      assert s1.ref[g] == s.ref[g];
    }
  }

  /** boot_map_region on the kernel's directory; false where the source panics, for want of a frame or in KADDR. */
  method BootMapRegion(pm: Pages, va: Word, size: Word, pa: Word, perm: nat) returns (ok: bool)
    requires pm.Valid() && perm < 4096
    requires va % PGSIZE == 0 && pa % PGSIZE == 0
    requires va / PGSIZE + size / PGSIZE <= 0x10_0000 && pa / PGSIZE + size / PGSIZE <= 0x10_0000
    modifies pm`head, pm`free, pm`held, pm`role, pm.link, pm.mem, pm.refs
    ensures pm.Valid()
    ensures var r := BootMap(old(pm.Abs()), va / PGSIZE, size / PGSIZE, pa / PGSIZE, perm);
      ok == r.Some? && (ok ==> pm.Abs() == r.value)
  {
    hide BootMap, MapStatic, ListRep;
    ghost var s := pm.Abs();
    var v, f, required := va / PGSIZE, pa / PGSIZE, size / PGSIZE;
    var offset := 0;
    while offset < required
      invariant 0 <= offset <= required && pm.Valid()
      invariant BootMap(pm.Abs(), v + offset, required - offset, f + offset, perm) == BootMap(s, v, required, f, perm)
    {
      HeadInside(pm);
      MapRound(pm.Abs(), v + offset, required - offset, f + offset, perm);
      ok := MapStaticPage(pm, v + offset, f + offset, perm);
      if !ok { return false; }
      offset := offset + 1;
    }
    BootMapNone(pm.Abs(), v + offset, f + offset, perm);
    return true;
  }

  /** One round of boot_map_region. */
  method MapStaticPage(pm: Pages, v: nat, f: nat, perm: nat) returns (ok: bool)
    requires pm.Valid() && v < 0x10_0000 && f < 0x10_0000 && perm < 4096
    modifies pm`head, pm`free, pm`held, pm`role, pm.link, pm.mem, pm.refs
    ensures pm.Valid()
    ensures old(pm.Abs()).free != [] ==> old(pm.Abs()).free[0] < |old(pm.Abs()).mem|
    ensures ok <==> MapStatic(old(pm.Abs()), v, f, perm).Some?
    ensures ok ==> pm.Abs() == MapStatic(old(pm.Abs()), v, f, perm).value
  {
    HeadInside(pm);
    PageNumber(v);
    hide ListRep, MakeTable, PDX, PTX;
    var r: Option<PtePtr>;
    ok, r := pm.PgdirWalk(pm.kern, v * PGSIZE, true);
    if !ok || r == None { return false; }
    var pte := r.value;
    pm.mem[pte.table] := pm.mem[pte.table][pte.index := Entry(f, perm)];
    return true;
  }

  lemma HeadInside(pm: Pages)
    requires pm.Valid()
    ensures Shape(pm.Abs()) && (pm.free != [] ==> pm.free[0] < |pm.Abs().mem|)
  {
    if pm.free != [] { assert pm.free[0] in pm.free; }
  }

  lemma MapRound(s: State, v: nat, n: nat, f: nat, perm: nat)
    requires Shape(s) && (s.free != [] ==> s.free[0] < |s.mem|)
    requires n > 0 && v + n <= 0x10_0000 && f + n <= 0x10_0000 && perm < 4096
    ensures match MapStatic(s, v, f, perm)
            case None => BootMap(s, v, n, f, perm) == None
            case Some(s') => BootMap(s, v, n, f, perm) == BootMap(s', v + 1, n - 1, f + 1, perm)
  {
  }

  /** One round of boot_map_region that does not panic, and what it leaves to do. */
  lemma BootMapRound(s: State, v: nat, n: nat, f: nat, perm: nat)
    requires n > 0 && BootState(s) && KernRegion(v, n) && f + n <= 0x10_0000 && StaticPerm(perm)
    requires v + n <= 0x10_0000 && perm < 4096 && BootMap(s, v, n, f, perm).Some?
    ensures s.kern < |s.mem| && Shape(s) && v < 0x10_0000 && (s.free != [] ==> s.free[0] < |s.mem|)
    ensures MapStatic(s, v, f, perm).Some?
    ensures var s1 := MapStatic(s, v, f, perm).value;
      && BootState(s1) && s1.kern == s.kern && s.kern < |s1.mem| && KernRegion(v + 1, n - 1)
      && CountsKept(s, s1) && MappedTo(s, s1, v, 1, f, perm)
      && BootMap(s, v, n, f, perm) == BootMap(s1, v + 1, n - 1, f + 1, perm)
  {
    MapStaticKeeps(s, v, f, perm);
    hide BootState, MapStatic, CountsKept, MappedTo;
    MapStaticMapped(s, v, f, perm);
  }

  lemma BootMapNone(s: State, v: nat, f: nat, perm: nat)
    requires v <= 0x10_0000 && f <= 0x10_0000 && perm < 4096
    ensures BootMap(s, v, 0, f, perm) == Some(s)
  {
  }

  // ----- the mappings of mem_init -----

  const SIZEOF_PAGEINFO: nat := 8
  const ENVS_PAGES: nat := 24  // 1024 slots of 96 bytes

  /** Pages that the pages[] array takes. */
  function PagesPages(npages: nat): nat { (npages * SIZEOF_PAGEINFO + PGSIZE - 1) / PGSIZE }

  /** The size that mem_init passes for the last region: in C, `^` is exclusive or, so `(2^32) - KERNBASE` is
      34 - KERNBASE in 32-bit unsigned arithmetic. */
  function LastSize(): int {
    ((((2 as bv8) ^ (32 as bv8)) as int) - KERNBASE) % 0x1_0000_0000
  }

  /** It still comes to exactly the 65536 pages from KERNBASE to 2^32, because boot_map_region truncates. */
  lemma LastSizePages()
    ensures LastSize() == 0x1000_0022 && LastSize() / PGSIZE == 0x1_0000
    ensures LastSize() / PGSIZE == (0x1_0000_0000 - KERNBASE) / PGSIZE
  {
    assert (2 as bv8) ^ (32 as bv8) == 34 as bv8;
  }

  /** Where boot_alloc and the linker put things: frame numbers of pages[], envs[] and the boot stack. */
  datatype Layout = Layout(npages: nat, pages: nat, envs: nat, stack: nat)

  predicate LayoutOk(l: Layout) {
    && 0 < l.npages <= 0x1_0000
    && l.pages + PagesPages(l.npages) <= 0x1_0000
    && l.envs + ENVS_PAGES <= 0x1_0000
    && l.stack + 8 <= 0x1_0000
  }

  const KERN_PAGE: nat := KERNBASE / PGSIZE
  const UPAGES_PAGE: nat := UPAGES / PGSIZE
  const UENVS_PAGE: nat := UENVS / PGSIZE
  const STACK_PAGE: nat := (KSTACKTOP - KSTKSIZE) / PGSIZE

  datatype Region = Region(v: nat, n: nat, f: nat, perm: nat)

  /** The six calls of boot_map_region, in order. */
  function BootRegions(l: Layout): seq<Region> {
    [Region(UPAGES_PAGE, PagesPages(l.npages), l.pages, PTE_U),
     Region(KERN_PAGE + l.pages, PagesPages(l.npages), l.pages, PTE_W),
     Region(UENVS_PAGE, ENVS_PAGES, l.envs, PTE_U),
     Region(KERN_PAGE + l.envs, ENVS_PAGES, l.envs, PTE_W),
     Region(STACK_PAGE, 8, l.stack, PTE_W),
     Region(KERN_PAGE, LastSize() / PGSIZE, 0, PTE_W)]
  }

  predicate RegionOk(r: Region) {
    KernRegion(r.v, r.n) && r.f + r.n <= 0x10_0000 && StaticPerm(r.perm)
  }

  /** boot_map_region on each region in turn. */
  function MapAll(s: State, rs: seq<Region>): Option<State>
    requires forall r :: r in rs ==> RegionOk(r)
    decreases rs
  {
    if rs == [] then Some(s)
    else
      assert RegionOk(rs[0]);
      match BootMap(s, rs[0].v, rs[0].n, rs[0].f, rs[0].perm)
      case None => None
      case Some(s') => MapAll(s', rs[1..])
  }

  /** The last region that contains a page decides its mapping. */
  function Overlay(rs: seq<Region>, u: nat, base: Option<Mapping>): Option<Mapping> {
    if rs == [] then base
    else Overlay(rs[1..], u, Cover(rs[0], u, base))
  }

  function Cover(r: Region, u: nat, base: Option<Mapping>): Option<Mapping> {
    if Contains(r, u) then Some(Mapping(r.f + (u - r.v), r.perm + 1 - r.perm % 2)) else base
  }

  predicate Contains(r: Region, u: nat) { r.v <= u < r.v + r.n }

  lemma {:induction false} MapAllDone(s: State, rs: seq<Region>, u: nat)
    requires BootState(s) && (forall r :: r in rs ==> RegionOk(r)) && MapAll(s, rs).Some?
    requires IsPageNo(s, s.kern, u)
    ensures var s' := MapAll(s, rs).value;
      && BootState(s') && s'.kern == s.kern && CountsKept(s, s')
      && Page(s', s.kern, u) == Overlay(rs, u, Page(s, s.kern, u))
    decreases rs
  {
    hide BootState, BootMap, CountsKept, RegionOk, Page, IsPageNo, Cover;
    if rs == [] {
      CountsStay(s);
    } else {
      assert RegionOk(rs[0]);
      RegionBounds(rs[0]);
      MapFirstDone(s, rs[0], u);
      var s1 := BootMap(s, rs[0].v, rs[0].n, rs[0].f, rs[0].perm).value;
      MapAllDone(s1, rs[1..], u);
      CountsTrans(s, s1, MapAll(s, rs).value);
    }
  }

  lemma MapFirstDone(s: State, r: Region, u: nat)
    requires BootState(s) && RegionOk(r) && IsPageNo(s, s.kern, u)
    requires BootMap(s, r.v, r.n, r.f, r.perm).Some?
    ensures var s' := BootMap(s, r.v, r.n, r.f, r.perm).value;
      && BootState(s') && s'.kern == s.kern && CountsKept(s, s') && IsPageNo(s', s.kern, u)
      && Page(s', s.kern, u) == Cover(r, u, Page(s, s.kern, u))
  {
    hide BootMap;
    BootMapDone(s, r.v, r.n, r.f, r.perm);
    KernIsDir(BootMap(s, r.v, r.n, r.f, r.perm).value, multiset{});
  }

  lemma RegionBounds(r: Region)
    requires RegionOk(r)
    ensures r.v + r.n <= 0x10_0000 && r.f + r.n <= 0x10_0000 && r.perm < 4096
  {
  }

  lemma CountsStay(s: State)
    requires BootState(s)
    ensures CountsKept(s, s)
  {
  }

  lemma CountsTrans(s: State, s1: State, s2: State)
    requires CountsKept(s, s1) && CountsKept(s1, s2)
    ensures CountsKept(s, s2)
  {
    forall g: nat {:trigger s2.ref[g]} | g < |s.mem| && g !in s.free ensures s2.ref[g] == s.ref[g] && g !in s2.free {
      assert s1.ref[g] == s.ref[g] && g !in s1.free;
      assert s2.ref[g] == s1.ref[g];
    }
    assert |s.mem| == |s2.mem| && |s.ref| == |s.mem| && |s2.ref| == |s.mem| && s2.reserved == s.reserved;
  }

  /** The intended kernel half: pages[] and envs[] read-only for users, the stack and all of physical memory for
      the kernel alone, nothing else. */
  function KernelMap(l: Layout, u: nat): Option<Mapping> {
    if KERN_PAGE <= u < 0x10_0000 then Some(Mapping(u - KERN_PAGE, PTE_W + PTE_P))
    else if UPAGES_PAGE <= u < UPAGES_PAGE + PagesPages(l.npages) then
      Some(Mapping(l.pages + (u - UPAGES_PAGE), PTE_U + PTE_P))
    else if UENVS_PAGE <= u < UENVS_PAGE + ENVS_PAGES then Some(Mapping(l.envs + (u - UENVS_PAGE), PTE_U + PTE_P))
    else if STACK_PAGE <= u < STACK_PAGE + 8 then Some(Mapping(l.stack + (u - STACK_PAGE), PTE_W + PTE_P))
    else None
  }

  lemma BootRegionsOk(l: Layout)
    requires LayoutOk(l)
    ensures forall r :: r in BootRegions(l) ==> RegionOk(r)
    ensures PagesPages(l.npages) <= 128
  {
    LastSizePages();
  }

  /** Wherever two of the six regions overlap they map the page alike: the same frame with the same permissions. */
  lemma OverlapsAgree(l: Layout, j: nat, k: nat, u: nat)
    requires LayoutOk(l) && j < |BootRegions(l)| && k < |BootRegions(l)|
    requires Contains(BootRegions(l)[j], u) && Contains(BootRegions(l)[k], u)
    ensures Cover(BootRegions(l)[j], u, None) == Cover(BootRegions(l)[k], u, None)
  {
    LastSizePages();
    BootRegionsOk(l);
  }

  /** Where the regions that contain a page agree on m, the overlay is m. */
  lemma {:induction false} OverlayAgrees(rs: seq<Region>, u: nat, base: Option<Mapping>, m: Option<Mapping>)
    requires forall r :: r in rs && Contains(r, u) ==> Cover(r, u, None) == m
    ensures Overlay(rs, u, base) == if exists r :: r in rs && Contains(r, u) then m else base
    decreases rs
  {
    if rs != [] {
      OverlayAgrees(rs[1..], u, Cover(rs[0], u, base), m);
      assert forall r :: r in rs <==> r == rs[0] || r in rs[1..];
    }
  }

  lemma InBootRegions(l: Layout, r: Region, q: Region, u: nat)
    requires LayoutOk(l) && r in BootRegions(l) && Contains(r, u) && q in BootRegions(l) && Contains(q, u)
    ensures Cover(r, u, None) == Cover(q, u, None)
  {
    var rs := BootRegions(l);
    var j: nat :| j < |rs| && rs[j] == r;
    var k: nat :| k < |rs| && rs[k] == q;
    hide *;
    OverlapsAgree(l, j, k, u);
  }

  /** So the six calls may come in any order, and any of them more than once: the map is the same. */
  lemma OverlayAnyOrder(l: Layout, rs: seq<Region>, u: nat)
    requires LayoutOk(l) && u < 0x10_0000 && (forall r :: r in rs <==> r in BootRegions(l))
    ensures Overlay(rs, u, None) == KernelMap(l, u)
  {
    OverlayIsKernelMap(l, u);
    hide *;
    var bs := BootRegions(l);
    var m := None;
    if exists r :: r in bs && Contains(r, u) {
      var q :| q in bs && Contains(q, u);
      m := Cover(q, u, None);
      forall r | r in bs && Contains(r, u) ensures Cover(r, u, None) == m {
        InBootRegions(l, r, q, u);
      }
    }
    OverlayAgrees(bs, u, None, m);
    OverlayAgrees(rs, u, None, m);
  }

  /** The six calls overlay to the intended map. */
  lemma OverlayIsKernelMap(l: Layout, u: nat)
    requires LayoutOk(l) && u < 0x10_0000
    ensures Overlay(BootRegions(l), u, None) == KernelMap(l, u)
  {
    LastSizePages();
    BootRegionsOk(l);
    Overlay6(BootRegions(l), u);
  }

  lemma Overlay6(rs: seq<Region>, u: nat)
    requires |rs| == 6
    ensures Overlay(rs, u, None) ==
      Cover(rs[5], u, Cover(rs[4], u, Cover(rs[3], u, Cover(rs[2], u, Cover(rs[1], u, Cover(rs[0], u, None))))))
  {
    var b0 := Cover(rs[0], u, None);
    var b1 := Cover(rs[1], u, b0);
    var b2 := Cover(rs[2], u, b1);
    var b3 := Cover(rs[3], u, b2);
    var b4 := Cover(rs[4], u, b3);
    assert rs[1..][1..] == rs[2..] && rs[2..][1..] == rs[3..] && rs[3..][1..] == rs[4..] && rs[4..][1..] == rs[5..];
    assert rs[5..][1..] == [];
    assert Overlay(rs, u, None) == Overlay(rs[1..], u, b0);
    assert Overlay(rs[1..], u, b0) == Overlay(rs[2..], u, b1);
    assert Overlay(rs[2..], u, b1) == Overlay(rs[3..], u, b2);
    assert Overlay(rs[3..], u, b2) == Overlay(rs[4..], u, b3);
    assert Overlay(rs[4..], u, b3) == Overlay(rs[5..], u, b4);
    assert Overlay(rs[5..], u, b4) == Overlay([], u, Cover(rs[5], u, b4));
  }

  /** After the six boot_map_region calls the kernel's directory maps exactly the intended kernel half, and no
      count of a frame in use has changed. */
  lemma MemInitMap(s: State, l: Layout, u: nat)
    requires BootState(s) && LayoutOk(l) && IsPageNo(s, s.kern, u) && Page(s, s.kern, u) == None
    requires forall r :: r in BootRegions(l) ==> RegionOk(r)
    requires MapAll(s, BootRegions(l)).Some?
    ensures var s' := MapAll(s, BootRegions(l)).value;
      && BootState(s') && s'.kern == s.kern && CountsKept(s, s')
      && Page(s', s.kern, u) == KernelMap(l, u)
  {
    MapAllDone(s, BootRegions(l), u);
    OverlayIsKernelMap(l, u);
  }

  /** page_init leaves the kernel's directory empty outside its self map, so mem_init starts from nothing. */
  lemma BootedEmpty(s: State, heapEnd: nat, u: nat)
    requires Booted(s, heapEnd) && IsPageNo(s, s.kern, u)
    ensures Page(s, s.kern, u) == None
  {
  }
}
