/** When the mappings of mem_init run out of frames. */
module BootSupply {
  import opened Wrappers
  import opened Mmu
  import opened Phys
  import opened PhysInv
  import opened PageOps
  import opened Regions
  import opened Boot
  import opened Supply

  /** One round of boot_map_region takes a frame exactly when it makes a table. */
  lemma MapStaticTakes(s: State, v: nat, f: nat, perm: nat)
    requires BootState(s) && KernPage(v) && f < 0x10_0000 && StaticPerm(perm)
    ensures s.free != [] ==> s.free[0] < |s.mem|
    ensures MapStatic(s, v, f, perm).Some? <==> |Made(s, s.kern, v / 1024)| <= |s.free|
    ensures MapStatic(s, v, f, perm).Some? ==>
      var s' := MapStatic(s, v, f, perm).value;
      && |s'.free| == |s.free| - |Made(s, s.kern, v / 1024)| && BootState(s') && s'.kern == s.kern
      && TablesMade(s, s', s.kern, Made(s, s.kern, v / 1024))
  {
    var p, x := v / 1024, multiset{};
    MapStaticKeeps(s, v, f, perm);
    KernIsDir(s, x);
    if CanWalk(s, s.kern, p) {
      WalkTakes(s, x, s.kern, p);
      WalkKeeps(s, x, s.kern, p);
      var s1, s' := Walk(s, s.kern, p), MapStatic(s, v, f, perm).value;
      KernIsDir(s1, x);
      hide Consistent, Walk;
      assert s'.mem[s.kern] == s1.mem[s.kern];
      forall r: nat {:trigger HasTable(s', s.kern, r)} | r < NENTRIES
        ensures HasTable(s', s.kern, r) <==> HasTable(s, s.kern, r) || r in Made(s, s.kern, p)
      {
        assert HasTable(s1, s.kern, r) <==> HasTable(s, s.kern, r) || r in Made(s, s.kern, p);
      }
    }
  }

  /** boot_map_region panics exactly when there are fewer free frames than tables it has to make. */
  lemma {:induction false} BootMapIff(s: State, v: nat, n: nat, f: nat, perm: nat)
    requires BootState(s) && KernRegion(v, n) && f + n <= 0x10_0000 && StaticPerm(perm)
    ensures BootMap(s, v, n, f, perm).Some? <==> |Missing(s, s.kern, v, n)| <= |s.free|
    ensures BootMap(s, v, n, f, perm).Some? ==>
      var s' := BootMap(s, v, n, f, perm).value;
      && |s'.free| == |s.free| - |Missing(s, s.kern, v, n)| && BootState(s') && s'.kern == s.kern
      && TablesMade(s, s', s.kern, Missing(s, s.kern, v, n))
    decreases n
  {
    hide *;
    if n == 0 {
      BootMapStops(s, v, f, perm);
    } else {
      BootMapNext(s, v, n, f, perm);
      if MapStatic(s, v, f, perm).Some? {
        var s1 := MapStatic(s, v, f, perm).value;
        BootMapIff(s1, v + 1, n - 1, f + 1, perm);
        if BootMap(s, v, n, f, perm).Some? {
          TablesMadeTrans(s, s1, BootMap(s, v, n, f, perm).value, s.kern,
                          Made(s, s.kern, v / 1024), Missing(s1, s.kern, v + 1, n - 1));
        }
      }
    }
  }

  lemma BootMapStops(s: State, v: nat, f: nat, perm: nat)
    requires BootState(s) && KernRegion(v, 0) && f <= 0x10_0000 && StaticPerm(perm)
    ensures v <= 0x10_0000 && perm < 4096 && BootMap(s, v, 0, f, perm) == Some(s) && s.kern < |s.mem|
    ensures Missing(s, s.kern, v, 0) == {} && TablesMade(s, s, s.kern, {})
  {
  }

  lemma BootMapNext(s: State, v: nat, n: nat, f: nat, perm: nat)
    requires n > 0 && BootState(s) && KernRegion(v, n) && f + n <= 0x10_0000 && StaticPerm(perm)
    ensures s.kern < |s.mem| && v < 0x10_0000 && v + n <= 0x10_0000 && perm < 4096 && v / 1024 < NENTRIES && Shape(s)
    ensures s.free != [] ==> s.free[0] < |s.mem|
    ensures MapStatic(s, v, f, perm) == None ==>
      BootMap(s, v, n, f, perm) == None && |Missing(s, s.kern, v, n)| > |s.free|
    ensures MapStatic(s, v, f, perm).Some? ==>
      var s1 := MapStatic(s, v, f, perm).value;
      && BootState(s1) && s1.kern == s.kern && s.kern < |s1.mem| && KernRegion(v + 1, n - 1)
      && BootMap(s, v, n, f, perm) == BootMap(s1, v + 1, n - 1, f + 1, perm)
      && |s1.free| == |s.free| - |Made(s, s.kern, v / 1024)| && TablesMade(s, s1, s.kern, Made(s, s.kern, v / 1024))
      && |Missing(s, s.kern, v, n)| == |Missing(s1, s.kern, v + 1, n - 1)| + |Made(s, s.kern, v / 1024)|
      && Missing(s, s.kern, v, n) == Missing(s1, s.kern, v + 1, n - 1) + Made(s, s.kern, v / 1024)
  {
    MapStaticTakes(s, v, f, perm);
    MissingHas(s, s.kern, v, n);
    if MapStatic(s, v, f, perm).Some? {
      MissingNext(s, MapStatic(s, v, f, perm).value, s.kern, v, n);
    }
  }

  // ----- several regions -----

  ghost predicate TouchedBy(rs: seq<Region>, p: nat) {
    exists i {:trigger rs[i]} :: 0 <= i < |rs| && Touches(rs[i].v, rs[i].n, p)
  }

  /** The tables that mapping all the regions has to make. */
  ghost function MissingAll(s: State, rs: seq<Region>): set<nat>
    requires s.kern < |s.mem|
  {
    set p: nat | p < NENTRIES && TouchedBy(rs, p) && !HasTable(s, s.kern, p)
  }

  lemma MissingRest(s: State, s1: State, rs: seq<Region>)
    requires rs != [] && s.kern < |s.mem| && s1.kern == s.kern
    requires TablesMade(s, s1, s.kern, Missing(s, s.kern, rs[0].v, rs[0].n))
    ensures |MissingAll(s, rs)| == |MissingAll(s1, rs[1..])| + |Missing(s, s.kern, rs[0].v, rs[0].n)|
    ensures MissingAll(s, rs) >= Missing(s, s.kern, rs[0].v, rs[0].n)
  {
    var a, b := MissingAll(s1, rs[1..]), Missing(s, s.kern, rs[0].v, rs[0].n);
    forall p: nat | p < NENTRIES ensures p in MissingAll(s, rs) <==> p in a || p in b {
      TouchedFirst(rs, p);
      assert HasTable(s1, s.kern, p) <==> HasTable(s, s.kern, p) || p in b;
    }
    forall p | p in a ensures p !in b {
      assert !HasTable(s1, s.kern, p);
    }
    assert MissingAll(s, rs) == a + b;
    Count(a, b);
  }

  lemma TouchedFirst(rs: seq<Region>, p: nat)
    requires rs != []
    ensures TouchedBy(rs, p) <==> Touches(rs[0].v, rs[0].n, p) || TouchedBy(rs[1..], p)
  {
    if TouchedBy(rs, p) && !Touches(rs[0].v, rs[0].n, p) {
      var i :| 0 <= i < |rs| && Touches(rs[i].v, rs[i].n, p);
      assert rs[1..][i - 1] == rs[i];
    }
  }

  /** A sequence of static mappings panics exactly when there are fewer free frames than tables missing for all. */
  lemma {:induction false} MapAllIff(s: State, rs: seq<Region>)
    requires BootState(s) && forall r :: r in rs ==> RegionOk(r)
    ensures s.kern < |s.mem|
    ensures MapAll(s, rs).Some? <==> |MissingAll(s, rs)| <= |s.free|
    decreases rs
  {
    if rs == [] {
      assert MissingAll(s, rs) == {};
    } else {
      var r := rs[0];
      assert RegionOk(r);
      BootMapIff(s, r.v, r.n, r.f, r.perm);
      hide BootState, Missing, TablesMade, MissingAll, BootMap, RegionOk;
      MissingFirst(s, rs);
      if BootMap(s, r.v, r.n, r.f, r.perm).Some? {
        var s1 := BootMap(s, r.v, r.n, r.f, r.perm).value;
        MissingRest(s, s1, rs);
        MapAllIff(s1, rs[1..]);
      }
    }
  }

  lemma MissingFirst(s: State, rs: seq<Region>)
    requires rs != [] && BootState(s)
    ensures s.kern < |s.mem|
    ensures |Missing(s, s.kern, rs[0].v, rs[0].n)| <= |MissingAll(s, rs)|
  {
    forall p | p in Missing(s, s.kern, rs[0].v, rs[0].n) ensures p in MissingAll(s, rs) {
      TouchedFirst(rs, p);
    }
    Within(Missing(s, s.kern, rs[0].v, rs[0].n), MissingAll(s, rs));
  }

  // ----- mem_init -----

  /** The tables of the kernel's map: one for envs[], one for pages[], one for the stack, 64 for physical memory. */
  predicate IsKernelTable(p: nat) { p == 955 || p == 956 || 959 <= p < NENTRIES }

  lemma TouchSpan(v: nat, n: nat, p: nat)
    requires n > 0
    ensures Touches(v, n, p) <==> v / 1024 <= p <= (v + n - 1) / 1024
  {
  }

  lemma KernelTouches(l: Layout, p: nat)
    requires LayoutOk(l) && p < NENTRIES
    ensures TouchedBy(BootRegions(l), p) <==> IsKernelTable(p)
  {
    var rs, n := BootRegions(l), PagesPages(l.npages);
    LastSizePages();
    assert 0 < n <= 128;
    TouchSpan(UPAGES_PAGE, n, p);
    TouchSpan(KERN_PAGE + l.pages, n, p);
    TouchSpan(UENVS_PAGE, ENVS_PAGES, p);
    TouchSpan(KERN_PAGE + l.envs, ENVS_PAGES, p);
    TouchSpan(STACK_PAGE, 8, p);
    TouchSpan(KERN_PAGE, 0x1_0000, p);
    hide Touches, PagesPages, LastSize;
    assert Touches(rs[0].v, rs[0].n, p) <==> p == 956;
    assert Touches(rs[2].v, rs[2].n, p) <==> p == 955;
    assert Touches(rs[4].v, rs[4].n, p) <==> p == 959;
    assert Touches(rs[5].v, rs[5].n, p) <==> 960 <= p;
    assert Touches(rs[1].v, rs[1].n, p) ==> 960 <= p;
    assert Touches(rs[3].v, rs[3].n, p) ==> 960 <= p;
  }

  lemma TwoSpans(r: set<nat>, a: nat, b: nat, c: nat, d: nat)
    requires a <= b <= c <= d && forall p: nat :: p in r <==> a <= p < b || c <= p < d
    ensures |r| == (b - a) + (d - c)
  {
    Count(Span(a, b), Span(c, d));
    assert r == Span(a, b) + Span(c, d);
  }

  /** Starting from a directory without tables, the six calls of mem_init succeed exactly when 67 frames are free. */
  lemma MemInitNeeds(s: State, l: Layout)
    requires BootState(s) && LayoutOk(l) && (forall r :: r in BootRegions(l) ==> RegionOk(r)) && NoTables(s)
    ensures MapAll(s, BootRegions(l)).Some? <==> 67 <= |s.free|
  {
    MapAllIff(s, BootRegions(l));
    hide BootState, MapAll, BootRegions, LayoutOk, RegionOk;
    forall p: nat ensures p in MissingAll(s, BootRegions(l)) <==> 955 <= p < 957 || 959 <= p < 1024 {
      if p < NENTRIES {
        KernelTouches(l, p);
        assert IsKernelTable(p) ==> !HasTable(s, s.kern, p);
      }
    }
    TwoSpans(MissingAll(s, BootRegions(l)), 955, 957, 959, 1024);
  }

  /** No page table hangs off the kernel's directory yet. */
  ghost predicate NoTables(s: State) {
    && s.kern < |s.mem|
    && forall p: nat {:trigger HasTable(s, s.kern, p)} :: p < NENTRIES && p != UVPTX ==> !HasTable(s, s.kern, p)
  }
}
