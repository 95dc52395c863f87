/** region_alloc and the copying loops of load_icode as they run, over the physical memory of `PhysMem.Pages`. */
module EnvLoad {
  import opened Wrappers
  import opened Mmu
  import opened Phys
  import opened PhysInv
  import opened PageOps
  import opened FlatMap
  import opened FreeList
  import opened PhysMem
  import opened AddrSpace
  import opened Regions
  import opened Loader

  /** Why the calls in one round of region_alloc are in order, and what the round amounts to. */
  lemma FreshRound(s: State, x: multiset<nat>, d: nat, v: nat)
    requires UserSpace(s, x, d) && v < UTOPX * 1024 && s.free != []
    ensures s.free[0] < |s.mem|
    ensures var s1 := Alloc(s, false);
      && Consistent(s1, x) && MayInsert(s1, d, s.free[0], v / 1024, v % 1024, PTE_U + PTE_W)
      && s1.ref[s.free[0]] < 0xFFFF
      && (CanWalk(s1, d, v / 1024) ==>
        && InsertArgs(s1, d, s.free[0], v / 1024, v % 1024, PTE_U + PTE_W)
        && InsertRuns(s1, d, s.free[0], v / 1024, v % 1024, PTE_U + PTE_W)
        && MapFresh(s, d, v) == Some(Insert(s1, d, s.free[0], v / 1024, v % 1024, PTE_U + PTE_W)))
      && (!CanWalk(s1, d, v / 1024) ==> MapFresh(s, d, v) == None)
  {
    AllocKeeps(s, x, false);
    var s1 := Alloc(s, false);
    if CanWalk(s1, d, v / 1024) {
      InsertKeeps(s1, x, d, s.free[0], v / 1024, v % 1024, PTE_U + PTE_W);
    }
  }

  /** One round of region_alloc; false where the source panics. */
  method MapFreshPage(pm: Pages, d: nat, v: nat) returns (ok: bool)
    requires pm.Valid() && UserSpace(pm.Abs(), multiset{}, d) && v < UTOPX * 1024
    modifies pm`head, pm`free, pm`held, pm`role, pm.link, pm.mem, pm.refs
    ensures pm.Valid()
    ensures ok <==> MapFresh(old(pm.Abs()), d, v).Some?
    ensures ok ==> pm.Abs() == MapFresh(old(pm.Abs()), d, v).value
  {
    ghost var s := pm.Abs();
    if pm.free != [] { FreshRound(s, multiset{}, d, v); }
    PageNumber(v);
    hide Consistent, MapFresh, Insert, Alloc;
    var pp := pm.PageAlloc(false);
    if pp == -1 {
      NoFreeNoMap(s, d, v);
      return false;
    }
    var r := pm.PageInsert(d, pp, v * PGSIZE, PTE_U + PTE_W, multiset{});
    return r == 0;
  }

  lemma NoFreeNoMap(s: State, d: nat, v: nat)
    requires s.free == []
    ensures MapFresh(s, d, v) == None
  {
  }

  /** region_alloc; false where the source panics. */
  method RegionAlloc(pm: Pages, d: nat, va: Word, len: Word) returns (ok: bool)
    requires pm.Valid() && UserSpace(pm.Abs(), multiset{}, d) && va + len <= UTOP
    modifies pm`head, pm`free, pm`held, pm`role, pm.link, pm.mem, pm.refs
    ensures pm.Valid()
    ensures var r := MapRegion(old(pm.Abs()), d, RegionPage(va), RegionCount(va, len));
      ok == r.Some? && (ok ==> pm.Abs() == r.value)
  {
    RegionBelow(va, len);
    var first, count := RegionPage(va), RoundUp(len) / PGSIZE;
    ok := RegionLoop(pm, d, first, count);
  }

  /** The loop of region_alloc, over page numbers. */
  method RegionLoop(pm: Pages, d: nat, first: nat, count: nat) returns (ok: bool)
    requires pm.Valid() && UserSpace(pm.Abs(), multiset{}, d) && first + count <= UTOPX * 1024
    modifies pm`head, pm`free, pm`held, pm`role, pm.link, pm.mem, pm.refs
    ensures pm.Valid()
    ensures var r := MapRegion(old(pm.Abs()), d, first, count);
      ok == r.Some? && (ok ==> pm.Abs() == r.value)
  {
    hide *;
    ghost var s := pm.Abs();
    var v, end := first, first + count;
    while v < end
      invariant first <= v <= end && pm.Valid() && UserSpace(pm.Abs(), multiset{}, d)
      invariant MapRegion(pm.Abs(), d, v, end - v) == MapRegion(s, d, first, count)
    {
      RegionRound(pm.Abs(), d, v, end - v);
      ok := MapFreshPage(pm, d, v);
      if !ok { return false; }
      v := v + 1;
    }
    MapNothing(pm.Abs(), d, end);
    return true;
  }

  lemma MapNothing(s: State, d: nat, v: nat)
    ensures MapRegion(s, d, v, 0) == Some(s)
  {
  }

  lemma RegionRound(s: State, d: nat, v: nat, n: nat)
    requires UserSpace(s, multiset{}, d) && v < UTOPX * 1024 && n > 0
    ensures MapFresh(s, d, v) == None ==> MapRegion(s, d, v, n) == None
    ensures MapFresh(s, d, v).Some? ==>
      && UserSpace(MapFresh(s, d, v).value, multiset{}, d)
      && MapRegion(s, d, v, n) == MapRegion(MapFresh(s, d, v).value, d, v + 1, n - 1)
  {
    if MapFresh(s, d, v).Some? { MapFreshMaps(s, multiset{}, d, v); }
  }

  lemma RegionBelow(va: Word, len: Word)
    requires va + len <= UTOP
    ensures RoundUp(len) / PGSIZE == RegionCount(va, len)
    ensures RegionPage(va) + RegionCount(va, len) <= UTOPX * 1024
  {
    RegionShape(va, len);
  }

  // ----- load_icode -----

  /** One byte stored by the processor through the page tables of d. */
  method WriteByte(pm: Pages, d: nat, a: nat, b: Byte)
    requires pm.Valid() && StoreOne(pm.Abs(), d, a, b).Some?
    modifies pm.mem
    ensures pm.Valid() && pm.Abs() == StoreOne(old(pm.Abs()), d, a, b).value
  {
    hide ListRep, SetByte;
    ghost var s := pm.Abs();
    var v, i := a / PGSIZE, a % PGSIZE / 4;
    var pte := pm.mem[FrameOf(pm.mem[d][v / 1024])][v % 1024];
    var f := FrameOf(pte);
    pm.mem[f] := pm.mem[f][i := SetByte(pm.mem[f][i], a % 4, b)];
    assert pm.Abs() == SetWord(s, f, i, SetByte(s.mem[f][i], a % 4, b));
  }

  lemma StoreNext(s: State, d: nat, a: nat, bs: seq<Byte>, i: nat)
    requires i < |bs|
    ensures StoreAll(s, d, a + i, bs[i..]) ==
      match StoreOne(s, d, a + i, bs[i]) case None => None case Some(s1) => StoreAll(s1, d, a + i + 1, bs[i + 1..])
  {
    hide StoreOne;
    assert bs[i..][1..] == bs[i + 1..];
  }

  /** memcpy or memset through the page tables, byte by byte. */
  method StoreBytes(pm: Pages, d: nat, a: nat, bs: seq<Byte>)
    requires pm.Valid() && StoreAll(pm.Abs(), d, a, bs).Some?
    modifies pm.mem
    ensures pm.Valid() && pm.Abs() == StoreAll(old(pm.Abs()), d, a, bs).value
  {
    hide StoreAll, StoreOne, ListRep;
    ghost var s := pm.Abs();
    assert bs[0..] == bs;
    var i := 0;
    while i < |bs|
      invariant 0 <= i <= |bs| && pm.Valid()
      invariant StoreAll(pm.Abs(), d, a + i, bs[i..]) == StoreAll(s, d, a, bs)
    {
      StoreNext(pm.Abs(), d, a, bs, i);
      WriteByte(pm, d, a + i, bs[i]);
      i := i + 1;
    }
    assert bs[i..] == [];
    StoreNone(pm.Abs(), d, a + i);
  }

  lemma StoreNone(s: State, d: nat, a: nat)
    ensures StoreAll(s, d, a, []) == Some(s)
  {
  }

  /** One loadable segment; false where region_alloc panics. */
  method LoadSegmentInto(pm: Pages, d: nat, b: seq<Byte>, ph: Proghdr) returns (ok: bool)
    requires pm.Valid() && UserSpace(pm.Abs(), multiset{}, d) && ph.kind == ELF_PROG_LOAD && HeaderOk(b, ph)
    modifies pm`head, pm`free, pm`held, pm`role, pm.link, pm.mem, pm.refs
    ensures pm.Valid()
    ensures ok <==> LoadSegment(old(pm.Abs()), d, b, ph).Some?
    ensures ok ==> pm.Abs() == LoadSegment(old(pm.Abs()), d, b, ph).value
  {
    hide *;
    SegmentFits(b, ph);
    LoadOrPanic(pm.Abs(), d, b, ph);
    ghost var s := pm.Abs();
    ok := RegionAlloc(pm, d, ph.va, ph.memsz);
    if !ok { return false; }
    CopyRuns(s, d, b, ph);
    StoreBytes(pm, d, ph.va, b[ph.offset..ph.offset + ph.filesz]);
    StoreBytes(pm, d, ph.va + ph.filesz, Zeroes(ph.memsz - ph.filesz));
    return true;
  }

  lemma SegmentFits(b: seq<Byte>, ph: Proghdr)
    requires ph.kind == ELF_PROG_LOAD && HeaderOk(b, ph)
    ensures ph.filesz <= ph.memsz && ph.offset + ph.filesz <= |b| && ph.va + ph.memsz <= UTOP
    ensures ph.va + ph.filesz < 0x1_0000_0000
  {
  }

  lemma LoadOrPanic(s: State, d: nat, b: seq<Byte>, ph: Proghdr)
    requires ph.kind == ELF_PROG_LOAD && HeaderOk(b, ph)
    ensures MapRegion(s, d, RegionPage(ph.va), RegionCount(ph.va, ph.memsz)) == None ==>
      LoadSegment(s, d, b, ph) == None
  {
  }

  /** Once the pages of a segment are mapped, copying it does not fault. */
  lemma CopyRuns(s: State, d: nat, b: seq<Byte>, ph: Proghdr)
    requires UserSpace(s, multiset{}, d) && ph.kind == ELF_PROG_LOAD && HeaderOk(b, ph)
    requires MapRegion(s, d, RegionPage(ph.va), RegionCount(ph.va, ph.memsz)).Some?
    ensures var s1 := MapRegion(s, d, RegionPage(ph.va), RegionCount(ph.va, ph.memsz)).value;
      var s2 := StoreAll(s1, d, ph.va, b[ph.offset..ph.offset + ph.filesz]);
      && s2.Some? && StoreAll(s2.value, d, ph.va + ph.filesz, Zeroes(ph.memsz - ph.filesz)).Some?
      && LoadSegment(s, d, b, ph) == StoreAll(s2.value, d, ph.va + ph.filesz, Zeroes(ph.memsz - ph.filesz))
  {
    hide StoreAll, MapRegion, UserSpace;
    LoadSegmentOk(s, multiset{}, d, b, ph);
  }

  /** The segment loop of load_icode; false where it panics. */
  method LoadAll(pm: Pages, d: nat, b: seq<Byte>) returns (ok: bool)
    requires pm.Valid() && UserSpace(pm.Abs(), multiset{}, d) && ImageOk(b)
    modifies pm`head, pm`free, pm`held, pm`role, pm.link, pm.mem, pm.refs
    ensures pm.Valid()
    ensures ok <==> LoadSegments(old(pm.Abs()), d, b, 0).Some?
    ensures ok ==> pm.Abs() == LoadSegments(old(pm.Abs()), d, b, 0).value && UserSpace(pm.Abs(), multiset{}, d)
  {
    hide UserSpace, LoadSegment, LoadSegments, ListRep, HeaderOk;
    ghost var s := pm.Abs();
    var k := 0;
    while k < HeaderCount(b)
      invariant 0 <= k <= HeaderCount(b) && pm.Valid() && UserSpace(pm.Abs(), multiset{}, d)
      invariant LoadSegments(pm.Abs(), d, b, k) == LoadSegments(s, d, b, 0)
    {
      LoadNext(pm.Abs(), d, b, k);
      if Header(b, k).kind == ELF_PROG_LOAD {
        ok := LoadSegmentInto(pm, d, b, Header(b, k));
        if !ok { return false; }
      }
      k := k + 1;
    }
    LoadNone(pm.Abs(), d, b);
    return true;
  }

  lemma LoadNone(s: State, d: nat, b: seq<Byte>)
    requires ImageOk(b)
    ensures LoadSegments(s, d, b, HeaderCount(b)) == Some(s)
  {
  }

  lemma LoadNext(s: State, d: nat, b: seq<Byte>, k: nat)
    requires UserSpace(s, multiset{}, d) && ImageOk(b) && k < HeaderCount(b)
    ensures Header(b, k).kind != ELF_PROG_LOAD ==> LoadSegments(s, d, b, k) == LoadSegments(s, d, b, k + 1)
    ensures Header(b, k).kind == ELF_PROG_LOAD ==>
      && HeaderOk(b, Header(b, k))
      && Header(b, k).filesz <= Header(b, k).memsz && Header(b, k).offset + Header(b, k).filesz <= |b|
      && match LoadSegment(s, d, b, Header(b, k))
         case None => LoadSegments(s, d, b, k) == None
         case Some(s1) => LoadSegments(s, d, b, k) == LoadSegments(s1, d, b, k + 1) && UserSpace(s1, multiset{}, d)
  {
    HeaderFine(b, k);
    hide UserSpace, LoadSegment, HeaderOk;
    if Header(b, k).kind == ELF_PROG_LOAD && LoadSegment(s, d, b, Header(b, k)).Some? {
      SegmentOwner(s, d, b, Header(b, k));
    }
  }

  lemma SegmentOwner(s: State, d: nat, b: seq<Byte>, ph: Proghdr)
    requires UserSpace(s, multiset{}, d) && ph.kind == ELF_PROG_LOAD && HeaderOk(b, ph)
    requires LoadSegment(s, d, b, ph).Some?
    ensures UserSpace(LoadSegment(s, d, b, ph).value, multiset{}, d)
  {
    LoadSegmentOk(s, multiset{}, d, b, ph);
  }
}
