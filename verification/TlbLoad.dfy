/** TLB coherence of load_icode, which edits the directory it has loaded: every store of region_alloc, and every byte
    copied through the tables. */
module TlbLoad {
  import opened Wrappers
  import opened Mmu
  import opened Phys
  import opened PhysInv
  import opened PageOps
  import opened FlatMap
  import opened AddrSpace
  import opened Regions
  import opened Loader
  import opened Supply
  import opened LoadSupply
  import opened Tlb

  // ----- the events, in the order of the source -----

  /** One round of region_alloc. */
  ghost function FreshEvents(s: State, d: nat, v: nat): seq<Event>
    requires Shape(s) && MapFresh(s, d, v).Some?
  {
    var s1 := Alloc(s, false);
    [Store(s1)] + InsertEvents(s1, d, s.free[0], v / 1024, v % 1024, PTE_U + PTE_W)
  }

  ghost function RegionEvents(s: State, d: nat, v: nat, n: nat): seq<Event>
    decreases n
  {
    if n == 0 || !Shape(s) || MapFresh(s, d, v) == None then []
    else FreshEvents(s, d, v) + RegionEvents(MapFresh(s, d, v).value, d, v + 1, n - 1)
  }

  /** memcpy or memset, byte by byte. */
  ghost function ByteEvents(s: State, d: nat, a: nat, bs: seq<Byte>): seq<Event>
    decreases |bs|
  {
    if bs == [] || StoreOne(s, d, a, bs[0]) == None then []
    else
      var s' := StoreOne(s, d, a, bs[0]).value;
      [Store(s')] + ByteEvents(s', d, a + 1, bs[1..])
  }

  /** region_alloc, then the file's bytes and the zeros behind them. */
  ghost function SegmentEvents(s: State, d: nat, b: seq<Byte>, ph: Proghdr): seq<Event>
    requires ph.offset + ph.filesz <= |b| && ph.filesz <= ph.memsz
  {
    match MapRegion(s, d, RegionPage(ph.va), RegionCount(ph.va, ph.memsz))
    case None => []
    case Some(s1) =>
      RegionEvents(s, d, RegionPage(ph.va), RegionCount(ph.va, ph.memsz)) + ByteEvents(s1, d, ph.va, Image(b, ph))
  }

  ghost function SegmentsEvents(s: State, d: nat, b: seq<Byte>, k: nat): seq<Event>
    requires ImageOk(b) && k <= HeaderCount(b)
    decreases HeaderCount(b) - k
  {
    if k == HeaderCount(b) then []
    else if Header(b, k).kind != ELF_PROG_LOAD then SegmentsEvents(s, d, b, k + 1)
    else match LoadSegment(s, d, b, Header(b, k))
      case None => []
      case Some(s') => SegmentEvents(s, d, b, Header(b, k)) + SegmentsEvents(s', d, b, k + 1)
  }

  /** load_icode loads the environment's directory, then the kernel's, and maps the stack page last. */
  ghost function LoadEvents(s: State, d: nat, b: seq<Byte>): seq<Event>
    requires ImageOk(b)
  {
    match LoadSegments(s, d, b, 0)
    case None => []
    case Some(s1) =>
      [LoadCr3(d)] + SegmentsEvents(s, d, b, 0) + [LoadCr3(s.kern)] + RegionEvents(s1, d, STACK_PAGE, 1)
  }

  // ----- they keep coherence -----

  /** The processor runs on the tables of d or of the kernel. */
  ghost predicate Ready(c: Cpu, x: multiset<nat>, d: nat) {
    UserSpace(c.s, x, d) && Coherent(c) && (c.cr3 == d || c.cr3 == c.s.kern)
  }

  lemma ReadyAfter(c: Cpu, x: multiset<nat>, d: nat, es: seq<Event>, s: State)
    requires Ready(c, x, d) && Reaches(c, es, s) && SameOwner(c.s, s, x, d)
    ensures Ready(Exec(c, es), x, d)
  {
    ReachesState(c, es, s);
  }

  lemma LoadedIsDir(c: Cpu, x: multiset<nat>, d: nat)
    requires Ready(c, x, d)
    ensures c.cr3 < |c.s.mem| && IsDir(c.s.role[c.cr3]) && d < |c.s.mem|
  {
    KernIsDir(c.s, x);
  }

  /** One round of region_alloc: coherent at every moment, unless it remaps a page of the loaded directory. */
  lemma FreshReaches(c: Cpu, x: multiset<nat>, d: nat, v: nat)
    requires Ready(c, x, d) && v / 1024 < UTOPX && MapFresh(c.s, d, v).Some?
    ensures Reaches(c, FreshEvents(c.s, d, v), MapFresh(c.s, d, v).value)
    ensures Ready(Exec(c, FreshEvents(c.s, d, v)), x, d)
    ensures AlwaysCoherent(c, FreshEvents(c.s, d, v)) <==> c.cr3 != d || Page(c.s, d, v) == None
  {
    var s, f, s' := c.s, c.s.free[0], MapFresh(c.s, d, v).value;
    var s1 := Alloc(s, false);
    LoadedIsDir(c, x, d);
    AllocKeeps(s, x, false);
    SameMemKeeps(s, s1, c.cr3);
    SameWords(s, s1, d, v / 1024, v % 1024);
    ReachesOne(c, s1);
    var c1 := Exec(c, [Store(s1)]);
    var es := InsertEvents(s1, d, f, v / 1024, v % 1024, PTE_U + PTE_W);
    ReachesState(c, [Store(s1)], s1);
    InsertCoherent(c1, x, d, f, v / 1024, v % 1024, PTE_U + PTE_W);
    ReachesAppend(c, [Store(s1)], s1, es, s');
    AlwaysAppend(c, [Store(s1)], es);
    MapFreshDone(s, x, d, v);
    hide Consistent, Coherent, Exec, MapFresh, InsertEvents, Reaches, AlwaysCoherent, Pte;
    ReadyAfter(c, x, d, FreshEvents(s, d, v), s');
  }

  lemma {:induction false} RegionReaches(c: Cpu, x: multiset<nat>, d: nat, v: nat, n: nat)
    requires Ready(c, x, d) && v + n <= UTOPX * 1024 && MapRegion(c.s, d, v, n).Some?
    ensures d < |c.s.mem|
    ensures Reaches(c, RegionEvents(c.s, d, v, n), MapRegion(c.s, d, v, n).value)
    ensures Ready(Exec(c, RegionEvents(c.s, d, v, n)), x, d)
    ensures AlwaysCoherent(c, RegionEvents(c.s, d, v, n)) <==> c.cr3 != d || Unmapped(c.s, d, v, n)
    decreases n
  {
    hide *;
    LoadedIsDir(c, x, d);
    if n == 0 {
      RegionStops(c, x, d, v);
    } else {
      RegionNext(c, x, d, v, n);
      var s1, es := MapFresh(c.s, d, v).value, FreshEvents(c.s, d, v);
      var c1, fs := Exec(c, es), RegionEvents(s1, d, v + 1, n - 1);
      RegionReaches(c1, x, d, v + 1, n - 1);
      ReachesAppend(c, es, s1, fs, MapRegion(s1, d, v + 1, n - 1).value);
      ExecAppend(c, es, fs);
      AlwaysAppend(c, es, fs);
    }
  }

  lemma RegionStops(c: Cpu, x: multiset<nat>, d: nat, v: nat)
    requires Ready(c, x, d) && v <= UTOPX * 1024
    ensures MapRegion(c.s, d, v, 0) == Some(c.s) && RegionEvents(c.s, d, v, 0) == []
    ensures Reaches(c, [], c.s) && Exec(c, []) == c && AlwaysCoherent(c, []) && Unmapped(c.s, d, v, 0)
  {
    ReachesNothing(c);
    AlwaysNothing(c);
  }

  /** One round of region_alloc, and what it leaves to do. */
  lemma RegionNext(c: Cpu, x: multiset<nat>, d: nat, v: nat, n: nat)
    requires n > 0 && Ready(c, x, d) && v + n <= UTOPX * 1024 && MapRegion(c.s, d, v, n).Some?
    ensures Shape(c.s) && MapFresh(c.s, d, v).Some? && d < |c.s.mem|
    ensures var s1, es := MapFresh(c.s, d, v).value, FreshEvents(c.s, d, v);
      && Reaches(c, es, s1) && Ready(Exec(c, es), x, d) && Exec(c, es).s == s1 && Exec(c, es).cr3 == c.cr3
      && MapRegion(s1, d, v + 1, n - 1).Some? && MapRegion(c.s, d, v, n) == MapRegion(s1, d, v + 1, n - 1)
      && RegionEvents(c.s, d, v, n) == es + RegionEvents(s1, d, v + 1, n - 1)
      && (AlwaysCoherent(c, es) <==> c.cr3 != d || Page(c.s, d, v) == None)
      && d < |s1.mem| && (Unmapped(c.s, d, v, n) <==> Page(c.s, d, v) == None && Unmapped(s1, d, v + 1, n - 1))
  {
    LoadedIsDir(c, x, d);
    assert Shape(c.s);
    FreshReaches(c, x, d, v);
    ReachesState(c, FreshEvents(c.s, d, v), MapFresh(c.s, d, v).value);
    UnmappedRest(c.s, x, d, v, n);
  }

  lemma UnmappedRest(s: State, x: multiset<nat>, d: nat, v: nat, n: nat)
    requires n > 0 && UserSpace(s, x, d) && v + n <= UTOPX * 1024 && MapFresh(s, d, v).Some?
    ensures var s1 := MapFresh(s, d, v).value;
      d < |s1.mem| && (Unmapped(s, d, v, n) <==> Page(s, d, v) == None && Unmapped(s1, d, v + 1, n - 1))
  {
    MapFreshMaps(s, x, d, v);
    var s1 := MapFresh(s, d, v).value;
    forall u: nat | v < u < v + n ensures Page(s1, d, u) == Page(s, d, u) {
      assert IsPageNo(s, d, u);
    }
    hide MapFresh, Extends, Page;
    assert Unmapped(s1, d, v + 1, n - 1) ==> forall u: nat {:trigger Page(s, d, u)} :: v < u < v + n ==>
      Page(s1, d, u) == Page(s, d, u) == None;
    assert Unmapped(s, d, v, n) ==> Page(s, d, v) == None;
  }

  /** A byte stored to an exclusive page shows through no directory. */
  lemma ByteKeeps(s: State, x: multiset<nat>, d: nat, a: Word, b: Byte, r: nat)
    requires UserSpace(s, x, d) && Exclusive(s, d, a / PGSIZE) && r < |s.mem| && IsDir(s.role[r])
    ensures StoreByte(s, d, a, b).Some? && KeepsPresent(s, StoreByte(s, d, a, b).value, r)
  {
    StoreByteOk(s, x, d, a, b);
    PlainStoreKeeps(s, x, StoreByte(s, d, a, b).value, Page(s, d, a / PGSIZE).value.frame, r);
  }

  lemma ByteStore(s: State, d: nat, a: Word, b: Byte)
    requires d < |s.mem| && StoreByte(s, d, a, b).Some?
    ensures OneStore(s, StoreByte(s, d, a, b).value)
  {
    var f := StoreFrame(s, d, a / PGSIZE).value;
    WordStore(s, StoreByte(s, d, a, b).value, f, a % PGSIZE / 4, SetByte(s.mem[f][a % PGSIZE / 4], a % 4, b));
  }

  lemma {:induction false} ByteReaches(c: Cpu, x: multiset<nat>, d: nat, a: nat, bs: seq<Byte>)
    requires Ready(c, x, d) && a + |bs| <= UTOP && CoveredBy(c.s, d, a, |bs|)
    ensures StoreAll(c.s, d, a, bs).Some?
    ensures Reaches(c, ByteEvents(c.s, d, a, bs), StoreAll(c.s, d, a, bs).value)
    ensures Ready(Exec(c, ByteEvents(c.s, d, a, bs)), x, d)
    ensures AlwaysCoherent(c, ByteEvents(c.s, d, a, bs))
    decreases |bs|
  {
    hide *;
    if bs == [] {
      BytesStop(c, d, a);
      assert Coherent(c) by { ReadyCoherent(c, x, d); }
      ReachesNothing(c);
      AlwaysNothing(c);
    } else {
      ByteNext(c, x, d, a, bs);
      var s1 := StoreByte(c.s, d, a, bs[0]).value;
      var es := [Store(s1)];
      var c1, fs := Exec(c, es), ByteEvents(s1, d, a + 1, bs[1..]);
      ByteReaches(c1, x, d, a + 1, bs[1..]);
      ReachesAppend(c, es, s1, fs, StoreAll(s1, d, a + 1, bs[1..]).value);
      ExecAppend(c, es, fs);
      AlwaysAppend(c, es, fs);
    }
  }

  lemma ReadyCoherent(c: Cpu, x: multiset<nat>, d: nat)
    requires Ready(c, x, d)
    ensures Coherent(c)
  {
  }

  lemma BytesStop(c: Cpu, d: nat, a: nat)
    ensures StoreAll(c.s, d, a, []) == Some(c.s) && ByteEvents(c.s, d, a, []) == [] && Exec(c, []) == c
  {
  }

  /** One byte, and what it leaves to copy. */
  lemma ByteNext(c: Cpu, x: multiset<nat>, d: nat, a: nat, bs: seq<Byte>)
    requires bs != [] && Ready(c, x, d) && a + |bs| <= UTOP && CoveredBy(c.s, d, a, |bs|)
    ensures d < |c.s.mem| && a < 0x1_0000_0000 && StoreByte(c.s, d, a, bs[0]).Some?
    ensures var s1 := StoreByte(c.s, d, a, bs[0]).value;
      var c1 := Exec(c, [Store(s1)]);
      && Reaches(c, [Store(s1)], s1) && AlwaysCoherent(c, [Store(s1)])
      && c1.s == s1 && Ready(c1, x, d) && a + 1 + |bs[1..]| <= UTOP && CoveredBy(s1, d, a + 1, |bs[1..]|)
      && StoreAll(c.s, d, a, bs) == StoreAll(s1, d, a + 1, bs[1..])
      && ByteEvents(c.s, d, a, bs) == [Store(s1)] + ByteEvents(s1, d, a + 1, bs[1..])
  {
    assert Exclusive(c.s, d, a / PGSIZE);
    LoadedIsDir(c, x, d);
    ByteKeeps(c.s, x, d, a, bs[0], c.cr3);
    StoreByteOk(c.s, x, d, a, bs[0]);
    var s1 := StoreByte(c.s, d, a, bs[0]).value;
    ByteStore(c.s, d, a, bs[0]);
    ReachesOne(c, s1);
    ReadyAfter(c, x, d, [Store(s1)], s1);
    CoveredNext(c.s, s1, x, d, a, |bs|);
    ReachesState(c, [Store(s1)], s1);
    hide Ready, Reaches, AlwaysCoherent, Exec, StoreByte, CoveredBy, Exclusive, UserSpace, OneStore, FineGrained;
  }

  lemma SegmentReaches(c: Cpu, x: multiset<nat>, d: nat, b: seq<Byte>, ph: Proghdr)
    requires Ready(c, x, d) && ph.kind == ELF_PROG_LOAD && HeaderOk(b, ph) && LoadSegment(c.s, d, b, ph).Some?
    ensures d < |c.s.mem|
    ensures Reaches(c, SegmentEvents(c.s, d, b, ph), LoadSegment(c.s, d, b, ph).value)
    ensures Ready(Exec(c, SegmentEvents(c.s, d, b, ph)), x, d)
    ensures AlwaysCoherent(c, SegmentEvents(c.s, d, b, ph)) <==> c.cr3 != d || ClearOf(c.s, d, ph)
  {
    var v, n := RegionPage(ph.va), RegionCount(ph.va, ph.memsz);
    RegionShape(ph.va, ph.memsz);
    assert v + n <= UTOPX * 1024;
    var s1 := MapSegment(c.s, x, d, b, ph);
    var image := Image(b, ph);
    CopyInIsImage(s1, x, d, b, ph);
    RegionReaches(c, x, d, v, n);
    assert ClearOf(c.s, d, ph) <==> Unmapped(c.s, d, v, n);
    hide Ready, Reaches, AlwaysCoherent, Exec, MapRegion, RegionEvents, ByteEvents, CoveredBy, HeaderOk, SameOwner,
         Image, StoreAll, ClearOf, Unmapped;
    var es := RegionEvents(c.s, d, v, n);
    var c1 := Exec(c, es);
    ReachesState(c, es, s1);
    ByteReaches(c1, x, d, ph.va, image);
    var fs := ByteEvents(s1, d, ph.va, image);
    ReachesAppend(c, es, s1, fs, StoreAll(s1, d, ph.va, image).value);
    ExecAppend(c, es, fs);
    AlwaysAppend(c, es, fs);
  }

  /** The segment loop is coherent at every moment exactly when another directory is loaded or no page of a segment is
      mapped yet. */
  lemma {:induction false} SegmentsReach(c: Cpu, x: multiset<nat>, d: nat, b: seq<Byte>, k: nat)
    requires Ready(c, x, d) && ImageOk(b) && k <= HeaderCount(b) && LoadSegments(c.s, d, b, k).Some?
    ensures Reaches(c, SegmentsEvents(c.s, d, b, k), LoadSegments(c.s, d, b, k).value)
    ensures Ready(Exec(c, SegmentsEvents(c.s, d, b, k)), x, d)
    ensures AlwaysCoherent(c, SegmentsEvents(c.s, d, b, k)) <==> c.cr3 != d || Clear(c.s, d, b, k)
    decreases HeaderCount(b) - k
  {
    hide *;
    HeadersInside(b);
    if k == HeaderCount(b) {
      SegmentsStop(c, x, d, b);
    } else if Header(b, k).kind != ELF_PROG_LOAD {
      SegmentSkipped(c.s, d, b, k);
      SegmentsReach(c, x, d, b, k + 1);
    } else {
      SegmentNext(c, x, d, b, k);
      var s1, es := LoadSegment(c.s, d, b, Header(b, k)).value, SegmentEvents(c.s, d, b, Header(b, k));
      var c1, fs := Exec(c, es), SegmentsEvents(s1, d, b, k + 1);
      SegmentsReach(c1, x, d, b, k + 1);
      ReachesAppend(c, es, s1, fs, LoadSegments(s1, d, b, k + 1).value);
      ExecAppend(c, es, fs);
      AlwaysAppend(c, es, fs);
    }
  }

  lemma HeadersInside(b: seq<Byte>)
    requires ImageOk(b)
    ensures HeadersOk(b)
  {
  }

  lemma SegmentsStop(c: Cpu, x: multiset<nat>, d: nat, b: seq<Byte>)
    requires Ready(c, x, d) && ImageOk(b)
    ensures LoadSegments(c.s, d, b, HeaderCount(b)) == Some(c.s) && SegmentsEvents(c.s, d, b, HeaderCount(b)) == []
    ensures Reaches(c, [], c.s) && Exec(c, []) == c && AlwaysCoherent(c, []) && Clear(c.s, d, b, HeaderCount(b))
  {
    ReachesNothing(c);
    AlwaysNothing(c);
  }

  lemma SegmentSkipped(s: State, d: nat, b: seq<Byte>, k: nat)
    requires ImageOk(b) && k < HeaderCount(b) && Header(b, k).kind != ELF_PROG_LOAD
    ensures LoadSegments(s, d, b, k) == LoadSegments(s, d, b, k + 1)
    ensures SegmentsEvents(s, d, b, k) == SegmentsEvents(s, d, b, k + 1)
    ensures Clear(s, d, b, k) <==> Clear(s, d, b, k + 1)
  {
    ClearSkip(s, d, b, k);
  }

  /** One header of the segment loop, and what it leaves to do. */
  lemma SegmentNext(c: Cpu, x: multiset<nat>, d: nat, b: seq<Byte>, k: nat)
    requires Ready(c, x, d) && ImageOk(b) && k < HeaderCount(b) && Header(b, k).kind == ELF_PROG_LOAD
    requires LoadSegments(c.s, d, b, k).Some?
    ensures Header(b, k).filesz <= Header(b, k).memsz && Header(b, k).offset + Header(b, k).filesz <= |b|
    ensures LoadSegment(c.s, d, b, Header(b, k)).Some? && d < |c.s.mem|
    ensures var s1, es := LoadSegment(c.s, d, b, Header(b, k)).value, SegmentEvents(c.s, d, b, Header(b, k));
      && Reaches(c, es, s1) && Ready(Exec(c, es), x, d) && Exec(c, es).s == s1 && Exec(c, es).cr3 == c.cr3
      && LoadSegments(s1, d, b, k + 1).Some? && LoadSegments(c.s, d, b, k) == LoadSegments(s1, d, b, k + 1)
      && SegmentsEvents(c.s, d, b, k) == es + SegmentsEvents(s1, d, b, k + 1)
      && (AlwaysCoherent(c, es) <==> c.cr3 != d || ClearOf(c.s, d, Header(b, k)))
      && (Clear(c.s, d, b, k) <==> ClearOf(c.s, d, Header(b, k)) && Clear(s1, d, b, k + 1))
  {
    HeaderFine(b, k);
    var s1 := LoadSegment(c.s, d, b, Header(b, k)).value;
    SegmentOthers(c.s, x, d, b, Header(b, k));
    ClearLater(c.s, s1, d, b, k);
    hide Ready, Exec, HeaderOk, SegmentEvents, LoadSegment, Reaches, AlwaysCoherent, Clear, ClearOf;
    SegmentReaches(c, x, d, b, Header(b, k));
    ReachesState(c, SegmentEvents(c.s, d, b, Header(b, k)), s1);
  }

  /** lcr3: what was cached is forgotten. */
  lemma LoadReady(c: Cpu, x: multiset<nat>, d: nat, r: nat)
    requires UserSpace(c.s, x, d) && (r == d || r == c.s.kern)
    ensures Ready(Exec(c, [LoadCr3(r)]), x, d)
    ensures Exec(c, [LoadCr3(r)]).s == c.s && Exec(c, [LoadCr3(r)]).cr3 == r
    ensures AlwaysCoherent(c, [LoadCr3(r)]) <==> Coherent(c)
    ensures Coherent(c) ==> Guarded(c, [LoadCr3(r)])
  {
    ExecOne(c, LoadCr3(r));
    AlwaysOne(c, LoadCr3(r));
    if Coherent(c) { AlwaysGuarded(c, [LoadCr3(r)]); }
  }

  /** What load_icode does while the environment's directory is loaded: the TLB ends coherent with that directory, is
      stale on the way at most for the page about to be invalidated, and never exactly when no page of a segment was
      mapped before. */
  lemma LoadLoop(c: Cpu, x: multiset<nat>, d: nat, b: seq<Byte>)
    requires UserSpace(c.s, x, d) && ImageOk(b) && LoadSegments(c.s, d, b, 0).Some?
    ensures var c0 := Exec(c, [LoadCr3(d)]);
      && c0.s == c.s && c0.cr3 == d && Coherent(c0)
      && Reaches(c0, SegmentsEvents(c.s, d, b, 0), LoadSegments(c.s, d, b, 0).value)
      && Coherent(Exec(c0, SegmentsEvents(c.s, d, b, 0)))
      && (AlwaysCoherent(c0, SegmentsEvents(c.s, d, b, 0)) <==> Clear(c.s, d, b, 0))
  {
    LoadReady(c, x, d, d);
    var c0 := Exec(c, [LoadCr3(d)]);
    SegmentsReach(c0, x, d, b, 0);
    ReachesState(c0, SegmentsEvents(c.s, d, b, 0), LoadSegments(c.s, d, b, 0).value);
  }

  /** Then the kernel's directory is loaded and the stack page mapped, which never leaves a stale translation. */
  lemma LoadStack(c: Cpu, x: multiset<nat>, d: nat)
    requires UserSpace(c.s, x, d) && MapRegion(c.s, d, STACK_PAGE, 1).Some?
    ensures var c0 := Exec(c, [LoadCr3(c.s.kern)]);
      && c0.s == c.s && c0.cr3 == c.s.kern && Coherent(c0)
      && Reaches(c0, RegionEvents(c.s, d, STACK_PAGE, 1), MapRegion(c.s, d, STACK_PAGE, 1).value)
      && AlwaysCoherent(c0, RegionEvents(c.s, d, STACK_PAGE, 1))
  {
    KernIsDir(c.s, x);
    LoadReady(c, x, d, c.s.kern);
    RegionReaches(Exec(c, [LoadCr3(c.s.kern)]), x, d, STACK_PAGE, 1);
  }

  /** load_icode edits the directory it has loaded. At every moment the TLB is coherent, but for a page that
      page_remove has just unmapped and invalidates next; there is no such moment exactly when no page of a segment
      was mapped before. In the end the kernel's directory is loaded. */
  lemma LoadCoherent(c: Cpu, x: multiset<nat>, d: nat, b: seq<Byte>)
    requires UserSpace(c.s, x, d) && ImageOk(b) && LoadIcode(c.s, d, b).Some?
    ensures var c' := Exec(c, LoadEvents(c.s, d, b));
      Coherent(c') && c'.s == LoadIcode(c.s, d, b).value && c'.cr3 == c.s.kern
    ensures Coherent(c) ==> Guarded(c, LoadEvents(c.s, d, b))
    ensures Coherent(c) ==> (AlwaysCoherent(c, LoadEvents(c.s, d, b)) <==> Clear(c.s, d, b, 0))
    ensures FineGrained(c.s, LoadEvents(c.s, d, b))
  {
    LoadIcodeOwner(c.s, x, d, b);
    var s, s1, s' := c.s, LoadSegments(c.s, d, b, 0).value, LoadIcode(c.s, d, b).value;
    var es0, es1, es2, es3 :=
      [LoadCr3(d)], SegmentsEvents(s, d, b, 0), [LoadCr3(s.kern)], RegionEvents(s1, d, STACK_PAGE, 1);
    LoadSegmentsOk(s, x, d, b, 0);
    assert s1.kern == s.kern && UserSpace(s1, x, d);
    hide Ready, Reaches, Exec, LoadSegments, MapRegion, RegionEvents, SegmentsEvents, UserSpace, SameOwner, LoadedUpTo,
         Guarded, AlwaysCoherent, Clear, Coherent, FineGrained, LastState;
    LoadLoop(c, x, d, b);
    LoadReady(c, x, d, d);
    var c0 := Exec(c, es0);
    ReachesState(c0, es1, s1);
    var c1 := Exec(c0, es1);
    LoadStack(c1, x, d);
    LoadReady(c1, x, d, s.kern);
    var c2 := Exec(c1, es2);
    ReachesState(c2, es3, s');
    ExecAppend(c, es0, es1);
    ExecAppend(c, es0 + es1, es2);
    ExecAppend(c, es0 + es1 + es2, es3);
    Always4(c, es0, es1, es2, es3);
    ReachesGuarded(c0, es1, s1);
    ReachesGuarded(c2, es3, s');
    LoadFine(s, d, es1, s1, es3);
    if Coherent(c) {
      GuardedAppend(c, es0, es1);
      GuardedAppend(c, es0 + es1, es2);
      GuardedAppend(c, es0 + es1 + es2, es3);
    }
  }

  lemma ReachesGuarded(c: Cpu, es: seq<Event>, s: State)
    requires Reaches(c, es, s)
    ensures Guarded(c, es) && FineGrained(c.s, es) && LastState(c.s, es) == s
  {
    ExecState(c, es);
  }

  /** A directory load stores nothing. */
  lemma LoadFine(s: State, d: nat, es: seq<Event>, s1: State, fs: seq<Event>)
    requires FineGrained(s, es) && LastState(s, es) == s1 && FineGrained(s1, fs)
    ensures FineGrained(s, [LoadCr3(d)] + es + [LoadCr3(s.kern)] + fs)
  {
    var e0, e2 := [LoadCr3(d)], [LoadCr3(s.kern)];
    assert e0[1..] == [] && e2[1..] == [];
    FineAppend(s, e0, es);
    LastAppend(s, e0, es);
    FineAppend(s, e0 + es, e2);
    LastAppend(s, e0 + es, e2);
    FineAppend(s, e0 + es + e2, fs);
  }
}
