/** region_alloc: fresh frames mapped page by page into an address space, and what env_free makes of them. */
module Regions {
  import opened Wrappers
  import opened Mmu
  import opened Phys
  import opened PhysInv
  import opened PageOps
  import opened FlatMap
  import opened FreeList
  import opened AddrSpace

  // ----- which pages -----

  function RoundDown(a: int): int { a - a % PGSIZE }

  /** ROUNDUP on 32-bit unsigned operands. */
  function RoundUp(a: Word): Word {
    RoundDown((a + PGSIZE - 1) % 0x1_0000_0000)
  }

  /** The first page number and the number of pages that the loop of region_alloc visits. */
  function RegionPage(va: Word): nat { va / PGSIZE }

  function RegionEnd(va: Word, len: Word): Word {
    (RoundDown(va) + RoundUp(len)) % 0x1_0000_0000
  }

  function RegionCount(va: Word, len: Word): nat {
    if RegionEnd(va, len) <= RoundDown(va) then 0 else (RegionEnd(va, len) - RoundDown(va)) / PGSIZE
  }

  predicate InRegion(va: Word, len: Word, v: nat) {
    RegionPage(va) <= v < RegionPage(va) + RegionCount(va, len)
  }

  /** region_alloc rounds len, not va + len: it covers the bytes [va, va + len) exactly when the offset of va
      in its page plus len does not spill past the rounded length. */
  lemma RegionCoversIff(va: Word, len: Word)
    requires 0 < len && va + len <= UTOP
    ensures (forall a: nat :: va <= a < va + len ==> InRegion(va, len, a / PGSIZE))
       <==> va % PGSIZE + len <= RoundUp(len)
  {
    var first, n := RegionPage(va), RegionCount(va, len);
    RegionShape(va, len);
    var last := va + len - 1;
    if va % PGSIZE + len <= RoundUp(len) {
      forall a: nat | va <= a < va + len ensures InRegion(va, len, a / PGSIZE) {
        assert first * PGSIZE <= a < (first + n) * PGSIZE;
      }
    } else {
      assert last >= (first + n) * PGSIZE;
      assert !InRegion(va, len, last / PGSIZE);
    }
  }

  /** A region below UTOP does not wrap. */
  lemma RegionShape(va: Word, len: Word)
    requires va + len <= UTOP
    ensures RoundUp(len) % PGSIZE == 0 && len <= RoundUp(len) < len + PGSIZE
    ensures RegionCount(va, len) * PGSIZE == RoundUp(len)
    ensures RegionPage(va) * PGSIZE == RoundDown(va) && RoundDown(va) == va - va % PGSIZE
  {
  }

  // ----- mapping fresh frames -----

  /** One round of the loop of region_alloc: page_alloc(0) and page_insert. None stands for its panics. */
  function MapFresh(s: State, d: nat, v: nat): Option<State> {
    if s.free == [] || s.free[0] >= |s.mem| || v >= 0x10_0000 then None
    else
      var s1 := Alloc(s, false);
      if InsertArgs(s1, d, s.free[0], v / 1024, v % 1024, PTE_U + PTE_W)
         && InsertRuns(s1, d, s.free[0], v / 1024, v % 1024, PTE_U + PTE_W)
      then Some(Insert(s1, d, s.free[0], v / 1024, v % 1024, PTE_U + PTE_W))
      else None
  }

  /** region_alloc on n pages from page v on. */
  function MapRegion(s: State, d: nat, v: nat, n: nat): Option<State>
    decreases n
  {
    if n == 0 then Some(s)
    else match MapFresh(s, d, v)
      case None => None
      case Some(s') => MapRegion(s', d, v + 1, n - 1)
  }

  function Page(s: State, d: nat, v: nat): Option<Mapping>
    requires d < |s.mem| && v < 0x10_0000
  {
    Mapped(s, d, v / 1024, v % 1024)
  }

  /** Page number v of directory d, outside the self map. */
  ghost predicate IsPageNo(s: State, d: nat, v: nat) {
    v < 0x10_0000 && IsPage(s, d, v / 1024, v % 1024)
  }

  /** An address space that region_alloc may extend. */
  ghost predicate UserSpace(s: State, x: multiset<nat>, d: nat) {
    Consistent(s, x) && d < |s.mem| && s.role[d] == EnvDir
  }

  /** Inserting in its own space changes no reference that belongs to anyone else. */
  lemma InsertForeign(s: State, x: multiset<nat>, d: nat, f: nat, p: nat, q: nat, perm: nat, g: nat)
    requires UserSpace(s, x, d) && MayInsert(s, d, f, p, q, perm) && CanWalk(s, d, p) && s.ref[f] < 0xFFFF
    ensures InsertArgs(s, d, f, p, q, perm) && InsertRuns(s, d, f, p, q, perm)
    ensures UserSpace(Insert(s, d, f, p, q, perm), x, d)
    ensures Foreign(Insert(s, d, f, p, q, perm), d, g) == Foreign(s, d, g)
  {
    InsertKeeps(s, x, d, f, p, q, perm);
    WalkForInsert(s, x, d, f, p, q, perm);
    var s1 := Walk(s, d, p);
    if !HasTable(s, d, p) { MakeTableForeign(s, x, d, p, g); }
    IncrefKeeps(s1, x, f);
    var s2 := Incref(s1, f);
    SitesAgree(s1, s2, g);
    assert Foreign(s2, d, g) == Foreign(s1, d, g);
    var t := TableOf(s1, d, p);
    assert OwnTable(s2, d, t);
    ReplaceForeign(s2, x, d, f, p, q, Entry(f, perm), g);
  }

  lemma MakeTableForeign(s: State, x: multiset<nat>, d: nat, p: nat, g: nat)
    requires UserSpace(s, x, d) && p < UTOPX && !HasTable(s, d, p) && s.free != []
    ensures s.free[0] < |s.mem| && UserSpace(MakeTable(s, d, p), x, d)
    ensures Foreign(MakeTable(s, d, p), d, g) == Foreign(s, d, g)
  {
    MakeTableKeeps(s, x, d, p);
    var s', t := MakeTable(s, d, p), s.free[0];
    forall y | y in Sites(s, g) ensures Owns(s', d, y) == Owns(s, d, y) {
    }
    if g == t {
      assert Owns(s', d, At(d, p));
    } else {
      assert Sites(s', g) == Sites(s, g);
    }
  }

  lemma ReplaceForeign(s: State, x: multiset<nat>, d: nat, f: nat, p: nat, q: nat, w: Word, g: nat)
    requires Consistent(s, x + multiset{f}) && d < |s.mem| && s.role[d] == EnvDir && p < UTOPX && q < NENTRIES
    requires HasTable(s, d, p) && TableOf(s, d, p) < |s.mem| && OwnTable(s, d, TableOf(s, d, p))
    requires f < |s.mem| && s.role[f] == Plain && Present(w) && FrameOf(w) == f
    ensures RemoveRuns(s, d, p, q)
    ensures Shape(SetWord(Remove(s, d, p, q), TableOf(s, d, p), q, w))
    ensures Foreign(SetWord(Remove(s, d, p, q), TableOf(s, d, p), q, w), d, g) == Foreign(s, d, g)
  {
    var t := TableOf(s, d, p);
    RemoveKeeps(s, x + multiset{f}, d, p, q);
    var s3 := Remove(s, d, p, q);
    StorePteKeeps(s3, x, t, q, f, w);
    assert Owns(s, d, At(t, q));
  }

  /** What one round leaves alone: other pages, data frames in use, held frames, other spaces' references. */
  ghost predicate Extends(s: State, s': State, x: multiset<nat>, d: nat) {
    && UserSpace(s, x, d) && UserSpace(s', x, d)
    && |s'.mem| == |s.mem| && s'.kern == s.kern && s'.held == s.held && s'.reserved == s.reserved
    && (forall g: nat {:trigger Foreign(s', d, g)} :: Foreign(s', d, g) == Foreign(s, d, g))
    && (forall k: nat {:trigger s'.mem[k]} :: k < |s.mem| && s.role[k] == Plain && k !in s.free ==>
        s'.mem[k] == s.mem[k] && s'.role[k] == Plain)
  }

  lemma MapFreshMaps(s: State, x: multiset<nat>, d: nat, v: nat)
    requires UserSpace(s, x, d) && v / 1024 < UTOPX && MapFresh(s, d, v).Some?
    ensures var s' := MapFresh(s, d, v).value;
      && Extends(s, s', x, d)
      && s.free != [] && s.free[0] < |s.mem| && s'.role[s.free[0]] == Plain && s'.ref[s.free[0]] == 1
      && Page(s', d, v) == Some(Mapping(s.free[0], 7))
      && (forall u: nat {:trigger Page(s', d, u)} :: u != v && IsPageNo(s, d, u) ==> Page(s', d, u) == Page(s, d, u))
  {
    MapFreshFrame(s, x, d, v);
    hide WordsOk, RolesOk, CountsOk, FreeOk, Sites, MakeTable, Remove;
    var f, s1 := s.free[0], Alloc(s, false);
    var p, q := v / 1024, v % 1024;
    AllocKeeps(s, x, false);
    InsertKeeps(s1, x, d, f, p, q, PTE_U + PTE_W);
    var s' := MapFresh(s, d, v).value;
    forall u: nat {:trigger Page(s', d, u)} | IsPageNo(s, d, u)
      ensures Page(s', d, u) == if u == v then Some(Mapping(f, 7)) else Page(s, d, u)
    {
      InsertMap(s1, x, d, f, p, q, PTE_U + PTE_W, d, u / 1024, u % 1024);
      SameWords(s, s1, d, u / 1024, u % 1024);
    }
    assert IsPageNo(s, d, v);
    hide Consistent, MapFresh, Page, Insert;
    forall g: nat {:trigger Foreign(s', d, g)} ensures Foreign(s', d, g) == Foreign(s, d, g) {
      InsertForeign(s1, x, d, f, p, q, PTE_U + PTE_W, g);
      SitesAgree(s, s1, g);
      assert Foreign(s1, d, g) == Foreign(s, d, g);
    }
    InsertForeign(s1, x, d, f, p, q, PTE_U + PTE_W, 0);
  }

  lemma MapFreshFrame(s: State, x: multiset<nat>, d: nat, v: nat)
    requires UserSpace(s, x, d) && v / 1024 < UTOPX && MapFresh(s, d, v).Some?
    ensures var s' := MapFresh(s, d, v).value;
      && |s'.mem| == |s.mem| && s'.kern == s.kern && s'.held == s.held && s'.reserved == s.reserved
      && |s'.role| == |s.mem| && |s'.ref| == |s.mem|
      && s.free[0] < |s.mem| && s'.role[s.free[0]] == Plain && s'.ref[s.free[0]] == 1
      && (forall k: nat {:trigger s'.mem[k]} :: k < |s.mem| && s.role[k] == Plain && k !in s.free ==>
          s'.mem[k] == s.mem[k] && s'.role[k] == Plain)
  {
    var f, s1 := s.free[0], Alloc(s, false);
    var p, q := v / 1024, v % 1024;
    assert f in s.free;
    AllocKeeps(s, x, false);
    InsertFrame(s1, x, d, f, p, q, PTE_U + PTE_W);
    InsertCounts(s1, x, d, f, p, q, PTE_U + PTE_W, f);
    NotMapped(s1, x, d, p, q, f);
    if !HasTable(s1, d, p) { assert s1.free[0] in s1.free; }
    forall k: nat | k < |s.mem| && s.role[k] == Plain && k !in s.free ensures k !in s1.free && s1.mem[k] == s.mem[k] {
      InTail(s.free);
    }
  }

  lemma NotMapped(s: State, x: multiset<nat>, d: nat, p: nat, q: nat, f: nat)
    requires Consistent(s, x) && IsPage(s, d, p, q) && p < UTOPX && Sites(s, f) == {}
    ensures FlatMap.Lookup(s, d, p, q) != Some(f)
  {
    if HasTable(s, d, p) {
      TableKind(s, x, d, p, q);
      assert At(TableOf(s, d, p), q) !in Sites(s, f);
    }
  }

  // ----- exclusive pages -----

  /** Page v of d maps, writable by the user, a data frame that nothing else refers to. */
  ghost predicate Exclusive(s: State, d: nat, v: nat) {
    && IsPageNo(s, d, v) && v / 1024 < UTOPX
    && Page(s, d, v).Some? && Page(s, d, v).value.flags == 7
    && Page(s, d, v).value.frame < |s.mem|
    && s.role[Page(s, d, v).value.frame] == Plain && s.ref[Page(s, d, v).value.frame] == 1
  }

  lemma PageSite(s: State, x: multiset<nat>, d: nat, v: nat)
    requires Consistent(s, x) && IsPageNo(s, d, v) && v / 1024 < UTOPX && Page(s, d, v).Some?
    ensures var t := TableOf(s, d, v / 1024);
      && t < |s.mem| && s.role[t] == UserTable(d, v / 1024)
      && At(t, v % 1024) in Sites(s, Page(s, d, v).value.frame)
      && Page(s, d, v).value.frame < |s.mem| && s.ref[Page(s, d, v).value.frame] > 0
      && s.role[Page(s, d, v).value.frame] == Plain
  {
    TableKind(s, x, d, v / 1024, v % 1024);
    var t := TableOf(s, d, v / 1024);
    assert WordOk(s, t, v % 1024);
    assert At(t, v % 1024) in Sites(s, Page(s, d, v).value.frame);
    assert CountOk(s, x, Page(s, d, v).value.frame);
  }

  lemma OneSite(s: State, x: multiset<nat>, f: nat, y: Site, z: Site)
    requires Consistent(s, x) && f < |s.mem| && s.ref[f] == 1 && y in Sites(s, f) && z in Sites(s, f)
    ensures y == z
  {
    assert CountOk(s, x, f);
    assert |Sites(s, f) - {y}| == 0;
  }

  /** An exclusive frame is mapped at no other user page of any directory. */
  lemma ExclusiveAlone(s: State, x: multiset<nat>, d: nat, v: nat, d': nat, u: nat)
    requires Consistent(s, x) && Exclusive(s, d, v)
    requires IsPageNo(s, d', u) && u / 1024 < UTOPX && (d', u) != (d, v) && Page(s, d', u).Some?
    ensures Page(s, d', u).value.frame != Page(s, d, v).value.frame
  {
    PageSite(s, x, d, v);
    PageSite(s, x, d', u);
    if Page(s, d', u).value.frame == Page(s, d, v).value.frame {
      OneSite(s, x, Page(s, d, v).value.frame,
              At(TableOf(s, d, v / 1024), v % 1024), At(TableOf(s, d', u / 1024), u % 1024));
      assert false;
    }
  }

  lemma MapFreshExclusive(s: State, x: multiset<nat>, d: nat, v: nat, u: nat)
    requires UserSpace(s, x, d) && v / 1024 < UTOPX && MapFresh(s, d, v).Some?
    requires u == v || Exclusive(s, d, u)
    ensures Exclusive(MapFresh(s, d, v).value, d, u)
  {
    MapFreshMaps(s, x, d, v);
    if u != v {
      var f, s1, s' := s.free[0], Alloc(s, false), MapFresh(s, d, v).value;
      var p, q := v / 1024, v % 1024;
      AllocKeeps(s, x, false);
      assert Page(s', d, u) == Page(s, d, u);
      var g := Page(s, d, u).value.frame;
      assert g !in s.free;
      InsertCounts(s1, x, d, f, p, q, PTE_U + PTE_W, g);
      SameWords(s, s1, d, p, q);
      if Page(s, d, v).Some? {
        assert IsPageNo(s, d, v);
        ExclusiveAlone(s, x, d, u, d, v);
      }
      if !HasTable(s1, d, p) { assert s1.free[0] in s1.free; }
      assert s'.mem[g] == s.mem[g] && s'.role[g] == Plain;
    }
  }

  // ----- region_alloc as a whole -----

  ghost predicate AllExclusive(s: State, d: nat, v: nat, n: nat) {
    forall u: nat {:trigger Exclusive(s, d, u)} :: v <= u < v + n ==> Exclusive(s, d, u)
  }

  ghost predicate PagesKept(s: State, s': State, d: nat, v: nat, n: nat)
    requires d < |s.mem| && d < |s'.mem|
  {
    forall u: nat {:trigger Page(s', d, u)} :: !(v <= u < v + n) && IsPageNo(s, d, u) ==>
      Page(s', d, u) == Page(s, d, u)
  }

  /** Page u stays exclusive, on the same frame with the same contents. */
  ghost predicate StaysExclusive(s: State, s': State, d: nat, u: nat) {
    && Exclusive(s, d, u) && Exclusive(s', d, u)
    && Page(s', d, u) == Page(s, d, u)
    && s'.mem[Page(s, d, u).value.frame] == s.mem[Page(s, d, u).value.frame]
  }

  ghost predicate ExclusivesKept(s: State, s': State, d: nat, v: nat, n: nat) {
    forall u: nat {:trigger StaysExclusive(s, s', d, u)} :: !(v <= u < v + n) && Exclusive(s, d, u) ==>
      StaysExclusive(s, s', d, u)
  }

  /** What region_alloc does to pages [v, v + n): each is exclusive, every page elsewhere is as it was, and
      exclusive pages elsewhere stay exclusive with their contents. */
  ghost predicate RegionDone(s: State, s': State, d: nat, v: nat, n: nat) {
    && Shape(s) && Shape(s') && |s'.mem| == |s.mem| && d < |s.mem|
    && AllExclusive(s', d, v, n)
    && PagesKept(s, s', d, v, n)
    && ExclusivesKept(s, s', d, v, n)
  }

  /** The bookkeeping that survives region_alloc. */
  ghost predicate SameOwner(s: State, s': State, x: multiset<nat>, d: nat) {
    && UserSpace(s, x, d) && UserSpace(s', x, d)
    && |s'.mem| == |s.mem| && s'.kern == s.kern && s'.held == s.held && s'.reserved == s.reserved
    && (forall g: nat {:trigger Foreign(s', d, g)} :: Foreign(s', d, g) == Foreign(s, d, g))
  }

  lemma MapFreshDone(s: State, x: multiset<nat>, d: nat, v: nat)
    requires UserSpace(s, x, d) && v / 1024 < UTOPX && MapFresh(s, d, v).Some?
    ensures var s' := MapFresh(s, d, v).value;
      SameOwner(s, s', x, d) && RegionDone(s, s', d, v, 1)
  {
    MapFreshMaps(s, x, d, v);
    var s' := MapFresh(s, d, v).value;
    MapFreshExclusive(s, x, d, v, v);
    forall u: nat {:trigger StaysExclusive(s, s', d, u)} | !(v <= u < v + 1) && Exclusive(s, d, u)
      ensures StaysExclusive(s, s', d, u)
    {
      MapFreshStays(s, x, d, v, u);
    }
  }

  lemma MapFreshStays(s: State, x: multiset<nat>, d: nat, v: nat, u: nat)
    requires UserSpace(s, x, d) && v / 1024 < UTOPX && MapFresh(s, d, v).Some?
    requires u != v && Exclusive(s, d, u)
    ensures StaysExclusive(s, MapFresh(s, d, v).value, d, u)
  {
    MapFreshMaps(s, x, d, v);
    MapFreshExclusive(s, x, d, v, u);
    var s', g := MapFresh(s, d, v).value, Page(s, d, u).value.frame;
    assert Page(s', d, u) == Page(s, d, u);
    assert g !in s.free;
    assert s'.mem[g] == s.mem[g];
  }

  /** region_alloc, when it does not panic, keeps the invariant and maps exactly its pages, each to a frame of
      its own. */
  lemma {:induction false} MapRegionDone(s: State, x: multiset<nat>, d: nat, v: nat, n: nat)
    requires UserSpace(s, x, d) && v + n <= UTOPX * 1024 && MapRegion(s, d, v, n).Some?
    ensures var s' := MapRegion(s, d, v, n).value;
      SameOwner(s, s', x, d) && RegionDone(s, s', d, v, n)
    decreases n
  {
    hide RegionDone, SameOwner, MapFresh, UserSpace;
    if n == 0 {
      MapNothingDone(s, x, d, v);
    } else {
      MapFreshDone(s, x, d, v);
      var s1 := MapFresh(s, d, v).value;
      SpaceOf(s, s1, x, d);
      MapRegionDone(s1, x, d, v + 1, n - 1);
      var s' := MapRegion(s, d, v, n).value;
      RegionJoin(s, s1, s', x, d, v, n);
      SameOwnerTrans(s, s1, s', x, d);
    }
  }

  lemma MapNothingDone(s: State, x: multiset<nat>, d: nat, v: nat)
    requires UserSpace(s, x, d)
    ensures SameOwner(s, s, x, d) && RegionDone(s, s, d, v, 0)
  {
  }

  lemma SpaceOf(s: State, s': State, x: multiset<nat>, d: nat)
    requires SameOwner(s, s', x, d)
    ensures UserSpace(s', x, d)
  {
  }

  lemma SameOwnerTrans(s: State, s1: State, s2: State, x: multiset<nat>, d: nat)
    requires SameOwner(s, s1, x, d) && SameOwner(s1, s2, x, d)
    ensures SameOwner(s, s2, x, d)
  {
    forall g: nat {:trigger Foreign(s2, d, g)} ensures Foreign(s2, d, g) == Foreign(s, d, g) {
      assert Foreign(s1, d, g) == Foreign(s, d, g);
    }
  }

  lemma RegionJoin(s: State, s1: State, s': State, x: multiset<nat>, d: nat, v: nat, n: nat)
    requires n > 0 && v + n <= UTOPX * 1024 && RegionDone(s, s1, d, v, 1) && RegionDone(s1, s', d, v + 1, n - 1)
    requires SameOwner(s, s1, x, d)
    ensures RegionDone(s, s', d, v, n)
  {
    forall u: nat {:trigger Exclusive(s', d, u)} | v <= u < v + n ensures Exclusive(s', d, u) {
      if u == v {
        assert Exclusive(s1, d, v);
        assert StaysExclusive(s1, s', d, v);
      }
    }
    forall u: nat {:trigger Page(s', d, u)} | !(v <= u < v + n) && IsPageNo(s, d, u)
      ensures Page(s', d, u) == Page(s, d, u)
    {
      assert IsPageNo(s1, d, u);
      assert Page(s1, d, u) == Page(s, d, u);
    }
    forall u: nat {:trigger StaysExclusive(s, s', d, u)} | !(v <= u < v + n) && Exclusive(s, d, u)
      ensures StaysExclusive(s, s', d, u)
    {
      assert StaysExclusive(s, s1, d, u);
      assert StaysExclusive(s1, s', d, u);
    }
  }

  /** Several region_alloc calls in a row. */
  function MapRegions(s: State, d: nat, rs: seq<(nat, nat)>): Option<State>
    decreases rs
  {
    if rs == [] then Some(s)
    else match MapRegion(s, d, rs[0].0, rs[0].1)
      case None => None
      case Some(s') => MapRegions(s', d, rs[1..])
  }

  lemma {:induction false} MapRegionsOwner(s: State, x: multiset<nat>, d: nat, rs: seq<(nat, nat)>)
    requires UserSpace(s, x, d) && MapRegions(s, d, rs).Some?
    requires forall r :: r in rs ==> r.0 + r.1 <= UTOPX * 1024
    ensures SameOwner(s, MapRegions(s, d, rs).value, x, d)
    decreases rs
  {
    if rs != [] {
      assert rs[0] in rs;
      MapRegionDone(s, x, d, rs[0].0, rs[0].1);
      var s1 := MapRegion(s, d, rs[0].0, rs[0].1).value;
      MapRegionsOwner(s1, x, d, rs[1..]);
      SameOwnerTrans(s, s1, MapRegions(s, d, rs).value, x, d);
    }
  }

  /** Whatever is done inside a new address space, as long as it keeps everyone else's references, freeing the
      space again restores every count and exactly the free frames. */
  lemma SpaceRestored(s: State, x: multiset<nat>, s2: State, f: nat)
    requires Consistent(s, x) && s.free != [] && f < |s.mem|
    requires s.free[0] < |s.mem| ==> SameOwner(SetupVm(s), s2, x, s.free[0])
    ensures s.free[0] < |s2.mem|
    ensures var s' := DropSpace(s2, s.free[0]);
      && Consistent(s', x) && |s'.mem| == |s.mem|
      && s'.ref[f] == s.ref[f] && (f in s'.free <==> f in s.free)
  {
    SetupVmKeeps(s, x);
    var d, s1 := s.free[0], SetupVm(s);
    DropSpaceSites(s2, x, d);
    var s' := DropSpace(s2, d);
    assert Sites(s', f) == Foreign(s2, d, f) == Foreign(s1, d, f);
    SetupForeign(s, x, f);
    assert CountOk(s, x, f) && CountOk(s', x, f);
  }

  /** Building an address space, extending it by any region_alloc calls and freeing it again restores every
      count and exactly the free frames. */
  lemma BuildAndFree(s: State, x: multiset<nat>, rs: seq<(nat, nat)>, f: nat)
    requires Consistent(s, x) && s.free != [] && f < |s.mem|
    requires s.free[0] < |s.mem| ==> MapRegions(SetupVm(s), s.free[0], rs).Some?
    requires forall r :: r in rs ==> r.0 + r.1 <= UTOPX * 1024
    ensures s.free[0] < |s.mem| && s.free[0] < |MapRegions(SetupVm(s), s.free[0], rs).value.mem|
    ensures var s' := DropSpace(MapRegions(SetupVm(s), s.free[0], rs).value, s.free[0]);
      && Consistent(s', x) && |s'.mem| == |s.mem|
      && s'.ref[f] == s.ref[f] && (f in s'.free <==> f in s.free)
  {
    SetupVmKeeps(s, x);
    MapRegionsOwner(SetupVm(s), x, s.free[0], rs);
    SpaceRestored(s, x, MapRegions(SetupVm(s), s.free[0], rs).value, f);
  }

  /** A new address space holds no reference but the pin of its directory. */
  lemma SetupForeign(s: State, x: multiset<nat>, f: nat)
    requires Consistent(s, x) && s.free != []
    ensures s.free[0] < |s.mem| && Shape(SetupVm(s))
    ensures Foreign(SetupVm(s), s.free[0], f) == Sites(s, f)
  {
    SetupVmKeeps(s, x);
    var d, s1 := s.free[0], SetupVm(s);
    forall y | y in Sites(s, f) ensures !Owns(s1, d, y) {
      match y
      case Mark(_) =>
      case Root(r) => assert s.role[r] == EnvDir;
      case At(t, i) => OwnedBefore(s, x, d, t);
    }
  }

  lemma OwnedBefore(s: State, x: multiset<nat>, d: nat, t: nat)
    requires Consistent(s, x) && t < |s.mem| && d < |s.mem| && s.role[d] == Plain
    ensures !OwnTable(s, d, t)
  {
    assert RoleOk(s, t);
  }
}
