/** When an operation that maps pages runs out of frames: exactly when the free list is shorter than the pages and the
    page tables it takes. */
module Supply {
  import opened Wrappers
  import opened Mmu
  import opened Phys
  import opened PhysInv
  import opened PageOps
  import opened FlatMap
  import opened FreeList
  import opened AddrSpace
  import opened Regions
  import opened EnvLoad

  /** Table p holds one of the pages [v, v + n). */
  predicate Touches(v: nat, n: nat, p: nat) { n > 0 && v / 1024 <= p && p * 1024 < v + n }

  /** The tables that mapping the pages [v, v + n) has to make. */
  ghost function Missing(s: State, d: nat, v: nat, n: nat): set<nat>
    requires d < |s.mem|
  {
    set p: nat | p < NENTRIES && Touches(v, n, p) && !HasTable(s, d, p)
  }

  /** s' has the tables of directory d that s has, and those in ps. */
  ghost predicate TablesMade(s: State, s': State, d: nat, ps: set<nat>) {
    && d < |s.mem| && d < |s'.mem|
    && forall p: nat {:trigger HasTable(s', d, p)} :: p < NENTRIES ==>
      (HasTable(s', d, p) <==> HasTable(s, d, p) || p in ps)
  }

  ghost function Made(s: State, d: nat, p: nat): set<nat>
    requires d < |s.mem| && p < NENTRIES
  {
    if HasTable(s, d, p) then {} else {p}
  }

  /** What is missing behind the first page, once that page has its table. */
  lemma MissingNext(s: State, s1: State, d: nat, v: nat, n: nat)
    requires n > 0 && v + n <= 0x10_0000 && d < |s.mem| && TablesMade(s, s1, d, Made(s, d, v / 1024))
    ensures Missing(s, d, v, n) == Missing(s1, d, v + 1, n - 1) + Made(s, d, v / 1024)
    ensures |Missing(s, d, v, n)| == |Missing(s1, d, v + 1, n - 1)| + |Made(s, d, v / 1024)|
  {
    var p0 := v / 1024;
    forall p: nat | p < NENTRIES
      ensures p in Missing(s, d, v, n) <==> p in Missing(s1, d, v + 1, n - 1) || p in Made(s, d, p0)
    {
      TouchesNext(v, n, p);
      assert HasTable(s1, d, p) <==> HasTable(s, d, p) || p in Made(s, d, p0);
    }
    assert HasTable(s1, d, p0);
    assert Missing(s, d, v, n) == Missing(s1, d, v + 1, n - 1) + Made(s, d, p0);
    Count(Missing(s1, d, v + 1, n - 1), Made(s, d, p0));
  }

  lemma TouchesNext(v: nat, n: nat, p: nat)
    requires n > 0
    ensures Touches(v, n, p) <==> p == v / 1024 || Touches(v + 1, n - 1, p)
  {
  }

  lemma Count(a: set<nat>, b: set<nat>)
    requires a !! b
    ensures |a + b| == |a| + |b|
  {
  }

  lemma TablesMadeTrans(s: State, s1: State, s2: State, d: nat, a: set<nat>, b: set<nat>)
    requires TablesMade(s, s1, d, a) && TablesMade(s1, s2, d, b)
    ensures TablesMade(s, s2, d, b + a)
  {
    forall p: nat {:trigger HasTable(s2, d, p)} | p < NENTRIES
      ensures HasTable(s2, d, p) <==> HasTable(s, d, p) || p in b + a
    {
      assert HasTable(s1, d, p) <==> HasTable(s, d, p) || p in a;
    }
  }

  /** The numbers from a to b - 1. */
  ghost function Span(a: nat, b: nat): (r: set<nat>)
    requires a <= b
    ensures |r| == b - a && forall p: nat :: p in r <==> a <= p < b
    decreases b - a
  {
    if a == b then {} else Span(a, b - 1) + {b - 1}
  }

  lemma {:induction false} Within(a: set<nat>, b: set<nat>)
    requires a <= b
    ensures |a| <= |b|
    decreases a
  {
    if a != {} {
      var y :| y in a;
      Within(a - {y}, b - {y});
    }
  }

  lemma SameDirTables(s: State, s1: State, s': State, d: nat, ps: set<nat>)
    requires TablesMade(s, s1, d, ps) && d < |s'.mem| && s'.mem[d] == s1.mem[d]
    ensures TablesMade(s, s', d, ps)
  {
    forall p: nat {:trigger HasTable(s', d, p)} | p < NENTRIES
      ensures HasTable(s', d, p) <==> HasTable(s, d, p) || p in ps
    {
      assert HasTable(s1, d, p) <==> HasTable(s, d, p) || p in ps;
    }
  }

  // ----- one page -----

  /** pgdir_walk takes a frame exactly when it makes a table. */
  lemma WalkTakes(s: State, x: multiset<nat>, d: nat, p: nat)
    requires Consistent(s, x) && CanHang(s, d, p) && CanWalk(s, d, p)
    ensures s.free != [] ==> s.free[0] < |s.mem|
    ensures |Walk(s, d, p).free| == |s.free| - |Made(s, d, p)|
    ensures TablesMade(s, Walk(s, d, p), d, Made(s, d, p))
  {
    if s.free != [] { assert s.free[0] in s.free; }
    if !HasTable(s, d, p) { MakeTableKeeps(s, x, d, p); }
  }

  /** page_insert at a page that is not mapped. */
  lemma InsertTakes(s: State, x: multiset<nat>, d: nat, f: nat, p: nat, q: nat, perm: nat)
    requires Consistent(s, x) && MayInsert(s, d, f, p, q, perm) && CanWalk(s, d, p) && s.ref[f] < 0xFFFF
    requires FlatMap.Lookup(s, d, p, q) == None
    ensures InsertArgs(s, d, f, p, q, perm) && InsertRuns(s, d, f, p, q, perm)
    ensures var s' := Insert(s, d, f, p, q, perm);
      && |s'.free| == |s.free| - |Made(s, d, p)| && TablesMade(s, s', d, Made(s, d, p))
      && f < |s'.ref| && s'.ref[f] == s.ref[f] + 1 && f !in s'.free
      && |s'.mem| == |s.mem| == |s'.role| && s'.role[f] == Plain && IsDir(s'.role[d])
  {
    InsertKeeps(s, x, d, f, p, q, perm);
    WalkForInsert(s, x, d, f, p, q, perm);
    WalkCounts(s, x, d, p, q);
    WalkTakes(s, x, d, p);
    var s1 := Walk(s, d, p);
    var s2 := Incref(s1, f);
    SameWords(s1, s2, d, p, q);
    var s' := Insert(s, d, f, p, q, perm);
    InsertIs(s, d, f, p, q, perm);
    assert Remove(s2, d, p, q) == s2;
    hide Consistent, MayInsert, Walk, Pte, Remove, Insert, HasTable, Made, TablesMade;
    assert s' == SetWord(s2, TableOf(s1, d, p), q, Entry(f, perm));
    assert s'.mem[d] == s1.mem[d];
    SameDirTables(s, s1, s', d, Made(s, d, p));
  }

  // ----- region_alloc -----

  /** No page of [v, v + n) is mapped. */
  ghost predicate Unmapped(s: State, d: nat, v: nat, n: nat)
    requires d < |s.mem| && v + n <= 0x10_0000
  {
    forall u: nat {:trigger Page(s, d, u)} :: v <= u < v + n ==> Page(s, d, u) == None
  }

  /** One round takes a frame for the page and one for the table, if that is missing. */
  lemma MapFreshTakes(s: State, x: multiset<nat>, d: nat, v: nat)
    requires UserSpace(s, x, d) && v < UTOPX * 1024 && Page(s, d, v) == None
    ensures MapFresh(s, d, v).Some? <==> 1 + |Made(s, d, v / 1024)| <= |s.free|
    ensures MapFresh(s, d, v).Some? ==>
      var s' := MapFresh(s, d, v).value;
      |s'.free| == |s.free| - 1 - |Made(s, d, v / 1024)| && TablesMade(s, s', d, Made(s, d, v / 1024))
  {
    var p, q := v / 1024, v % 1024;
    if s.free == [] {
      NoFreeNoMap(s, d, v);
    } else {
      FreshRound(s, x, d, v);
      var s1 := Alloc(s, false);
      SameWords(s, s1, d, p, q);
      assert HasTable(s1, d, p) == HasTable(s, d, p) && Made(s1, d, p) == Made(s, d, p);
      hide UserSpace, Consistent, MapFresh, Insert, Pte;
      if CanWalk(s1, d, p) {
        InsertTakes(s1, x, d, s.free[0], p, q, PTE_U + PTE_W);
        var s' := MapFresh(s, d, v).value;
        forall r: nat {:trigger HasTable(s', d, r)} | r < NENTRIES
          ensures HasTable(s', d, r) <==> HasTable(s, d, r) || r in Made(s, d, p)
        {
          assert HasTable(s1, d, r) == HasTable(s, d, r);
        }
      }
    }
  }

  /** region_alloc on pages that are not mapped panics exactly when there are fewer free frames than pages and missing
      tables together, and otherwise takes exactly these. */
  lemma {:induction false} MapRegionIff(s: State, x: multiset<nat>, d: nat, v: nat, n: nat)
    requires UserSpace(s, x, d) && v + n <= UTOPX * 1024 && Unmapped(s, d, v, n)
    ensures MapRegion(s, d, v, n).Some? <==> n + |Missing(s, d, v, n)| <= |s.free|
    ensures MapRegion(s, d, v, n).Some? ==>
      var s' := MapRegion(s, d, v, n).value;
      && |s'.free| == |s.free| - n - |Missing(s, d, v, n)|
      && TablesMade(s, s', d, Missing(s, d, v, n))
    decreases n
  {
    hide *;
    if n == 0 {
      MapRegionNone(s, x, d, v);
    } else {
      RegionStep(s, x, d, v, n);
      if MapFresh(s, d, v).Some? {
        var s1 := MapFresh(s, d, v).value;
        MapRegionIff(s1, x, d, v + 1, n - 1);
        if MapRegion(s, d, v, n).Some? {
          TablesMadeTrans(s, s1, MapRegion(s, d, v, n).value, d, Made(s, d, v / 1024), Missing(s1, d, v + 1, n - 1));
        }
      }
    }
  }

  lemma MapRegionNone(s: State, x: multiset<nat>, d: nat, v: nat)
    requires UserSpace(s, x, d)
    ensures MapRegion(s, d, v, 0) == Some(s) && d < |s.mem|
    ensures Missing(s, d, v, 0) == {} && TablesMade(s, s, d, {})
  {
  }

  /** One round of region_alloc, and what it leaves to do. */
  lemma RegionStep(s: State, x: multiset<nat>, d: nat, v: nat, n: nat)
    requires n > 0 && UserSpace(s, x, d) && v + n <= UTOPX * 1024 && Unmapped(s, d, v, n)
    ensures MapFresh(s, d, v) == None ==> MapRegion(s, d, v, n) == None && n + |Missing(s, d, v, n)| > |s.free|
    ensures d < |s.mem| && v / 1024 < NENTRIES
    ensures MapFresh(s, d, v).Some? ==>
      var s1 := MapFresh(s, d, v).value;
      && UserSpace(s1, x, d) && d < |s1.mem| && Unmapped(s1, d, v + 1, n - 1) && v + n <= 0x10_0000
      && MapRegion(s, d, v, n) == MapRegion(s1, d, v + 1, n - 1)
      && |s1.free| == |s.free| - 1 - |Made(s, d, v / 1024)| && TablesMade(s, s1, d, Made(s, d, v / 1024))
      && |Missing(s, d, v, n)| == |Missing(s1, d, v + 1, n - 1)| + |Made(s, d, v / 1024)|
      && Missing(s, d, v, n) == Missing(s1, d, v + 1, n - 1) + Made(s, d, v / 1024)
  {
    assert Page(s, d, v) == None;
    MapFreshTakes(s, x, d, v);
    MissingHas(s, d, v, n);
    if MapFresh(s, d, v).Some? {
      MapFreshMaps(s, x, d, v);
      var s1 := MapFresh(s, d, v).value;
      UnmappedNext(s, s1, d, v, n);
      MissingNext(s, s1, d, v, n);
    }
  }

  lemma MissingHas(s: State, d: nat, v: nat, n: nat)
    requires n > 0 && v + n <= 0x10_0000 && d < |s.mem|
    ensures |Made(s, d, v / 1024)| <= |Missing(s, d, v, n)|
  {
    if !HasTable(s, d, v / 1024) {
      assert v / 1024 in Missing(s, d, v, n);
    }
  }

  lemma UnmappedNext(s: State, s1: State, d: nat, v: nat, n: nat)
    requires n > 0 && v + n <= UTOPX * 1024 && d < |s.mem| && d < |s1.mem| && Unmapped(s, d, v, n)
    requires Shape(s) && IsDir(s.role[d])
    requires forall u: nat {:trigger Page(s1, d, u)} :: u != v && IsPageNo(s, d, u) ==> Page(s1, d, u) == Page(s, d, u)
    ensures Unmapped(s1, d, v + 1, n - 1)
  {
    forall u: nat {:trigger Page(s1, d, u)} | v + 1 <= u < v + n ensures Page(s1, d, u) == None {
      assert Page(s, d, u) == None;
      assert IsPageNo(s, d, u);
    }
  }

  // ----- one frame at many pages -----

  /** page_insert of one frame, with permissions PTE_U | PTE_W, at n pages in a row. */
  function MapSame(s: State, d: nat, f: nat, v: nat, n: nat): Option<State>
    decreases n
  {
    if n == 0 then Some(s)
    else if v < 0x10_0000 && InsertArgs(s, d, f, v / 1024, v % 1024, PTE_U + PTE_W)
         && InsertRuns(s, d, f, v / 1024, v % 1024, PTE_U + PTE_W)
    then MapSame(Insert(s, d, f, v / 1024, v % 1024, PTE_U + PTE_W), d, f, v + 1, n - 1)
    else None
  }

  ghost predicate Sharing(s: State, d: nat, f: nat) {
    && Consistent(s, multiset{}) && d < |s.mem| && IsDir(s.role[d])
    && f < |s.mem| && s.role[f] == Plain && f !in s.free
  }

  /** Each insertion adds one to the count. */
  lemma {:induction false} MapSameCounts(s: State, d: nat, f: nat, v: nat, n: nat)
    requires Sharing(s, d, f) && v + n <= UTOPX * 1024 && Unmapped(s, d, v, n)
    requires s.ref[f] + n <= 0xFFFF && |Missing(s, d, v, n)| <= |s.free|
    ensures MapSame(s, d, f, v, n).Some?
    ensures var s' := MapSame(s, d, f, v, n).value;
      && Sharing(s', d, f) && s'.ref[f] == s.ref[f] + n && |s'.mem| == |s.mem|
      && TablesMade(s, s', d, Missing(s, d, v, n))
    decreases n
  {
    hide *;
    if n == 0 {
      MapSameNone(s, d, f, v);
    } else {
      SameStep(s, d, f, v, n);
      var s1 := Insert(s, d, f, v / 1024, v % 1024, PTE_U + PTE_W);
      MapSameCounts(s1, d, f, v + 1, n - 1);
      TablesMadeTrans(s, s1, MapSame(s, d, f, v, n).value, d, Made(s, d, v / 1024), Missing(s1, d, v + 1, n - 1));
    }
  }

  lemma MapSameNone(s: State, d: nat, f: nat, v: nat)
    requires Sharing(s, d, f)
    ensures MapSame(s, d, f, v, 0) == Some(s) && d < |s.mem| && f < |s.ref|
    ensures Missing(s, d, v, 0) == {} && TablesMade(s, s, d, {})
  {
  }

  lemma SameStep(s: State, d: nat, f: nat, v: nat, n: nat)
    requires n > 0 && Sharing(s, d, f) && v + n <= UTOPX * 1024 && Unmapped(s, d, v, n)
    requires s.ref[f] + n <= 0xFFFF && |Missing(s, d, v, n)| <= |s.free|
    ensures v < 0x10_0000 && d < |s.mem| && f < |s.ref| && v / 1024 < NENTRIES && v % 1024 < NENTRIES
    ensures PTE_U + PTE_W < 4096
    ensures InsertArgs(s, d, f, v / 1024, v % 1024, PTE_U + PTE_W)
    ensures InsertRuns(s, d, f, v / 1024, v % 1024, PTE_U + PTE_W)
    ensures var s1 := Insert(s, d, f, v / 1024, v % 1024, PTE_U + PTE_W);
      && Sharing(s1, d, f) && d < |s1.mem| && f < |s1.ref| && s1.ref[f] == s.ref[f] + 1 && |s1.mem| == |s.mem|
      && v + n <= 0x10_0000 && Unmapped(s1, d, v + 1, n - 1) && |Missing(s1, d, v + 1, n - 1)| <= |s1.free|
      && MapSame(s, d, f, v, n) == MapSame(s1, d, f, v + 1, n - 1)
      && TablesMade(s, s1, d, Made(s, d, v / 1024))
      && Missing(s, d, v, n) == Missing(s1, d, v + 1, n - 1) + Made(s, d, v / 1024)
  {
    var p, q, x, perm := v / 1024, v % 1024, multiset{}, PTE_U + PTE_W;
    assert Page(s, d, v) == None;
    MissingHas(s, d, v, n);
    InsertKeeps(s, x, d, f, p, q, perm);
    InsertTakes(s, x, d, f, p, q, perm);
    var s1 := Insert(s, d, f, p, q, perm);
    MissingNext(s, s1, d, v, n);
    forall u: nat {:trigger Page(s1, d, u)} | v + 1 <= u < v + n ensures Page(s1, d, u) == None {
      assert Page(s, d, u) == None;
      InsertMap(s, x, d, f, p, q, perm, d, u / 1024, u % 1024);
    }
  }
}
