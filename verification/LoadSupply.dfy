/** When load_icode runs out of frames. */
module LoadSupply {
  import opened Wrappers
  import opened Mmu
  import opened Phys
  import opened PhysInv
  import opened PageOps
  import opened FlatMap
  import opened AddrSpace
  import opened Regions
  import opened Loader
  import opened Supply

  /** The pages of the loadable segments from header k on. */
  ghost function SegmentPages(b: seq<Byte>, k: nat): nat
    requires ImageOk(b) && k <= HeaderCount(b)
    decreases HeaderCount(b) - k
  {
    if k == HeaderCount(b) then 0 else PagesOf(Header(b, k)) + SegmentPages(b, k + 1)
  }

  function PagesOf(ph: Proghdr): nat {
    if ph.kind == ELF_PROG_LOAD then RegionCount(ph.va, ph.memsz) else 0
  }

  /** A loadable segment from header k on lies partly in table p. */
  ghost predicate TouchedFrom(b: seq<Byte>, k: nat, p: nat)
    requires ImageOk(b)
  {
    exists j: nat {:trigger Header(b, j)} :: k <= j < HeaderCount(b) && TouchesTable(Header(b, j), p)
  }

  predicate TouchesTable(ph: Proghdr, p: nat) { Touches(RegionPage(ph.va), PagesOf(ph), p) }

  ghost function MissingFrom(s: State, d: nat, b: seq<Byte>, k: nat): set<nat>
    requires d < |s.mem| && ImageOk(b)
  {
    set p: nat | p < NENTRIES && TouchedFrom(b, k, p) && !HasTable(s, d, p)
  }

  /** No page of a segment from header k on is mapped. */
  ghost predicate Clear(s: State, d: nat, b: seq<Byte>, k: nat)
    requires ImageOk(b)
  {
    && d < |s.mem|
    && forall j: nat {:trigger Header(b, j)} :: k <= j < HeaderCount(b) ==> ClearOf(s, d, Header(b, j))
  }

  ghost predicate ClearOf(s: State, d: nat, ph: Proghdr)
    requires d < |s.mem|
  {
    RegionPage(ph.va) + PagesOf(ph) <= 0x10_0000 && Unmapped(s, d, RegionPage(ph.va), PagesOf(ph))
  }

  // ----- copying takes nothing -----

  lemma StoreByteDir(s: State, x: multiset<nat>, d: nat, a: Word, b: Byte)
    requires UserSpace(s, x, d) && Exclusive(s, d, a / PGSIZE)
    ensures StoreByte(s, d, a, b).Some?
    ensures d < |StoreByte(s, d, a, b).value.mem| && StoreByte(s, d, a, b).value.mem[d] == s.mem[d]
  {
    StoreByteOk(s, x, d, a, b);
  }

  lemma {:induction false} StoreAllDir(s: State, x: multiset<nat>, d: nat, a: nat, bs: seq<Byte>)
    requires UserSpace(s, x, d) && a + |bs| <= UTOP && CoveredBy(s, d, a, |bs|)
    ensures StoreAll(s, d, a, bs).Some?
    ensures var s' := StoreAll(s, d, a, bs).value;
      d < |s.mem| && d < |s'.mem| && s'.mem[d] == s.mem[d] && s'.free == s.free
    decreases |bs|
  {
    StoreAllOk(s, x, d, a, bs);
    if bs != [] {
      assert Exclusive(s, d, a / PGSIZE);
      StoreByteOk(s, x, d, a, bs[0]);
      StoreByteDir(s, x, d, a, bs[0]);
      var s1 := StoreByte(s, d, a, bs[0]).value;
      CoveredNext(s, s1, x, d, a, |bs|);
      hide SameTables, SameOwner, CoveredBy, Exclusive, StoreByte;
      StoreAllDir(s1, x, d, a + 1, bs[1..]);
    }
  }

  // ----- one segment -----

  /** User pages outside [v, v + n) are mapped as before. */
  ghost predicate OthersKept(s: State, s': State, d: nat, v: nat, n: nat) {
    && d < |s.mem| && d < |s'.mem|
    && forall u: nat {:trigger Page(s', d, u)} :: u < UTOPX * 1024 && !(v <= u < v + n) ==>
      Page(s', d, u) == Page(s, d, u)
  }

  /** Loading a segment maps no page but its own. */
  lemma SegmentOthers(s: State, x: multiset<nat>, d: nat, b: seq<Byte>, ph: Proghdr)
    requires UserSpace(s, x, d) && ph.kind == ELF_PROG_LOAD && HeaderOk(b, ph) && LoadSegment(s, d, b, ph).Some?
    ensures UserSpace(LoadSegment(s, d, b, ph).value, x, d)
    ensures OthersKept(s, LoadSegment(s, d, b, ph).value, d, RegionPage(ph.va), PagesOf(ph))
  {
    var v, n := RegionPage(ph.va), RegionCount(ph.va, ph.memsz);
    RegionShape(ph.va, ph.memsz);
    assert v + n <= UTOPX * 1024;
    LoadSegmentOk(s, x, d, b, ph);
    MapRegionDone(s, x, d, v, n);
    var s1 := MapSegment(s, x, d, b, ph);
    var image := Image(b, ph);
    CopyInIsImage(s1, x, d, b, ph);
    StoreAllOk(s1, x, d, ph.va, image);
    PagesAfter(s, s1, LoadSegment(s, d, b, ph).value, x, d, v, n);
  }

  /** Loading a segment panics exactly when region_alloc does, takes the same frames, and maps no other page. */
  lemma SegmentTakes(s: State, x: multiset<nat>, d: nat, b: seq<Byte>, ph: Proghdr)
    requires UserSpace(s, x, d) && ph.kind == ELF_PROG_LOAD && HeaderOk(b, ph) && ClearOf(s, d, ph)
    ensures var v, n := RegionPage(ph.va), PagesOf(ph);
      && (LoadSegment(s, d, b, ph).Some? <==> n + |Missing(s, d, v, n)| <= |s.free|)
      && (LoadSegment(s, d, b, ph).Some? ==>
        var s' := LoadSegment(s, d, b, ph).value;
        && UserSpace(s', x, d) && |s'.free| == |s.free| - n - |Missing(s, d, v, n)|
        && TablesMade(s, s', d, Missing(s, d, v, n))
        && OthersKept(s, s', d, v, n))
  {
    var v, n := RegionPage(ph.va), RegionCount(ph.va, ph.memsz);
    RegionShape(ph.va, ph.memsz);
    assert v + n <= UTOPX * 1024;
    MapRegionIff(s, x, d, v, n);
    if MapRegion(s, d, v, n).Some? {
      LoadSegmentOk(s, x, d, b, ph);
      SegmentOthers(s, x, d, b, ph);
      var s1 := MapSegment(s, x, d, b, ph);
      var image := Image(b, ph);
      CopyInIsImage(s1, x, d, b, ph);
      StoreAllDir(s1, x, d, ph.va, image);
      var s' := LoadSegment(s, d, b, ph).value;
      assert s' == StoreAll(s1, d, ph.va, image).value;
      SameDirTables(s, s1, s', d, Missing(s, d, v, n));
    }
  }

  lemma PagesAfter(s: State, s1: State, s': State, x: multiset<nat>, d: nat, v: nat, n: nat)
    requires UserSpace(s, x, d) && RegionDone(s, s1, d, v, n) && SameTables(s1, s', x, d)
    ensures OthersKept(s, s', d, v, n)
  {
    forall u: nat {:trigger Page(s', d, u)} | u < UTOPX * 1024 && !(v <= u < v + n)
      ensures Page(s', d, u) == Page(s, d, u)
    {
      assert IsPageNo(s, d, u);
      assert Page(s1, d, u) == Page(s, d, u);
    }
  }

  // ----- all segments -----

  /** Page u belongs to a loadable segment from header k on. */
  ghost predicate LoadsPage(b: seq<Byte>, k: nat, u: nat)
    requires ImageOk(b)
  {
    exists j: nat {:trigger Header(b, j)} :: k <= j < HeaderCount(b) && Header(b, j).kind == ELF_PROG_LOAD
      && InRegion(Header(b, j).va, Header(b, j).memsz, u)
  }

  lemma {:induction false} SegmentsOthers(s: State, x: multiset<nat>, d: nat, b: seq<Byte>, k: nat, u: nat)
    requires UserSpace(s, x, d) && ImageOk(b) && k <= HeaderCount(b) && LoadSegments(s, d, b, k).Some?
    requires u < UTOPX * 1024 && !LoadsPage(b, k, u)
    ensures d < |s.mem| && UserSpace(LoadSegments(s, d, b, k).value, x, d)
    ensures d < |LoadSegments(s, d, b, k).value.mem| && Page(LoadSegments(s, d, b, k).value, d, u) == Page(s, d, u)
    decreases HeaderCount(b) - k
  {
    hide *;
    HeadersThere(b);
    if k == HeaderCount(b) {
      NoMoreSegments(s, x, d, b);
    } else {
      OthersStep(s, x, d, b, k, u);
      if Header(b, k).kind == ELF_PROG_LOAD {
        SegmentsOthers(LoadSegment(s, d, b, Header(b, k)).value, x, d, b, k + 1, u);
      } else {
        SegmentsOthers(s, x, d, b, k + 1, u);
      }
    }
  }

  lemma HeadersThere(b: seq<Byte>)
    requires ImageOk(b)
    ensures HeadersOk(b)
  {
  }

  lemma NoMoreSegments(s: State, x: multiset<nat>, d: nat, b: seq<Byte>)
    requires UserSpace(s, x, d) && ImageOk(b)
    ensures d < |s.mem| && LoadSegments(s, d, b, HeaderCount(b)) == Some(s)
  {
  }

  /** One header, and what it leaves to load. */
  lemma OthersStep(s: State, x: multiset<nat>, d: nat, b: seq<Byte>, k: nat, u: nat)
    requires UserSpace(s, x, d) && ImageOk(b) && k < HeaderCount(b) && LoadSegments(s, d, b, k).Some?
    requires u < UTOPX * 1024 && !LoadsPage(b, k, u)
    ensures d < |s.mem| && !LoadsPage(b, k + 1, u) && u < 0x10_0000
    ensures Header(b, k).kind != ELF_PROG_LOAD ==> LoadSegments(s, d, b, k) == LoadSegments(s, d, b, k + 1)
    ensures Header(b, k).kind == ELF_PROG_LOAD ==>
      && Header(b, k).filesz <= Header(b, k).memsz && Header(b, k).offset + Header(b, k).filesz <= |b|
      && LoadSegment(s, d, b, Header(b, k)).Some?
      && var s1 := LoadSegment(s, d, b, Header(b, k)).value;
        && LoadSegments(s, d, b, k) == LoadSegments(s1, d, b, k + 1) && UserSpace(s1, x, d)
        && d < |s1.mem| && Page(s1, d, u) == Page(s, d, u)
  {
    HeaderFine(b, k);
    LoadsNext(b, k, u);
    if Header(b, k).kind == ELF_PROG_LOAD {
      SegmentOthers(s, x, d, b, Header(b, k));
    }
    hide LoadsPage, HeaderOk, LoadSegment, UserSpace;
  }

  lemma LoadsNext(b: seq<Byte>, k: nat, u: nat)
    requires ImageOk(b) && k < HeaderCount(b) && !LoadsPage(b, k, u)
    ensures !LoadsPage(b, k + 1, u)
    ensures Header(b, k).kind == ELF_PROG_LOAD ==> !InRegion(Header(b, k).va, Header(b, k).memsz, u)
  {
  }

  /** load_icode maps no other user page: what is neither the stack's nor a loadable segment's is as it was. */
  lemma LoadIcodeOthers(s: State, x: multiset<nat>, d: nat, b: seq<Byte>, u: nat)
    requires UserSpace(s, x, d) && ImageOk(b) && LoadIcode(s, d, b).Some?
    requires u < UTOPX * 1024 && u != STACK_PAGE && !LoadsPage(b, 0, u)
    ensures d < |s.mem| && d < |LoadIcode(s, d, b).value.mem|
    ensures Page(LoadIcode(s, d, b).value, d, u) == Page(s, d, u)
  {
    LoadIcodeOwner(s, x, d, b);
    SegmentsOthers(s, x, d, b, 0, u);
    var s1 := LoadSegments(s, d, b, 0).value;
    MapRegionDone(s1, x, d, STACK_PAGE, 1);
    assert IsPageNo(s1, d, u);
    hide LoadSegments, MapRegion, LoadsPage;
  }

  lemma TouchedNext(b: seq<Byte>, k: nat, p: nat)
    requires ImageOk(b) && k < HeaderCount(b)
    ensures TouchedFrom(b, k, p) <==> TouchesTable(Header(b, k), p) || TouchedFrom(b, k + 1, p)
  {
  }

  /** What is missing for the later segments, once segment k has its tables. */
  lemma MissingLater(s: State, s1: State, d: nat, b: seq<Byte>, k: nat)
    requires ImageOk(b) && k < HeaderCount(b) && d < |s.mem|
    requires TablesMade(s, s1, d, Missing(s, d, RegionPage(Header(b, k).va), PagesOf(Header(b, k))))
    ensures var m := Missing(s, d, RegionPage(Header(b, k).va), PagesOf(Header(b, k)));
      && MissingFrom(s, d, b, k) == MissingFrom(s1, d, b, k + 1) + m
      && |MissingFrom(s, d, b, k)| == |MissingFrom(s1, d, b, k + 1)| + |m|
  {
    var a, m := MissingFrom(s1, d, b, k + 1), Missing(s, d, RegionPage(Header(b, k).va), PagesOf(Header(b, k)));
    forall p: nat | p < NENTRIES ensures p in MissingFrom(s, d, b, k) <==> p in a || p in m {
      TouchedNext(b, k, p);
      assert HasTable(s1, d, p) <==> HasTable(s, d, p) || p in m;
    }
    forall p | p in a ensures p !in m {
      assert !HasTable(s1, d, p);
    }
    assert MissingFrom(s, d, b, k) == a + m;
    Count(a, m);
  }

  lemma MissingSome(s: State, d: nat, b: seq<Byte>, k: nat)
    requires ImageOk(b) && k < HeaderCount(b) && d < |s.mem|
    ensures |Missing(s, d, RegionPage(Header(b, k).va), PagesOf(Header(b, k)))| <= |MissingFrom(s, d, b, k)|
  {
    var m := Missing(s, d, RegionPage(Header(b, k).va), PagesOf(Header(b, k)));
    forall p | p in m ensures p in MissingFrom(s, d, b, k) {
      TouchedNext(b, k, p);
    }
    Within(m, MissingFrom(s, d, b, k));
  }

  /** The pages of a later segment are mapped as before, because no two segments share a page. */
  lemma ClearSame(s: State, s1: State, d: nat, b: seq<Byte>, k: nat, j: nat)
    requires ImageOk(b) && k < j < HeaderCount(b) && Header(b, k).kind == ELF_PROG_LOAD
    requires OthersKept(s, s1, d, RegionPage(Header(b, k).va), PagesOf(Header(b, k)))
    ensures ClearOf(s1, d, Header(b, j)) <==> ClearOf(s, d, Header(b, j))
  {
    var qh := Header(b, j);
    if qh.kind == ELF_PROG_LOAD {
      assert HeaderOk(b, qh) && DisjointPages(Header(b, k), qh);
      RegionShape(qh.va, qh.memsz);
      forall u: nat | RegionPage(qh.va) <= u < RegionPage(qh.va) + PagesOf(qh)
        ensures u < 0x10_0000 && Page(s1, d, u) == Page(s, d, u)
      {
      }
    }
  }

  lemma ClearLater(s: State, s1: State, d: nat, b: seq<Byte>, k: nat)
    requires ImageOk(b) && k < HeaderCount(b) && Header(b, k).kind == ELF_PROG_LOAD
    requires OthersKept(s, s1, d, RegionPage(Header(b, k).va), PagesOf(Header(b, k)))
    ensures Clear(s, d, b, k) <==> ClearOf(s, d, Header(b, k)) && Clear(s1, d, b, k + 1)
  {
    assert d < |s.mem| && d < |s1.mem| && HeadersOk(b);
    hide ClearOf, OthersKept, ImageOk, HeadersOk, Header, HeaderCount, PagesOf, RegionPage;
    forall j: nat {:trigger Header(b, j)} | k < j < HeaderCount(b)
      ensures ClearOf(s1, d, Header(b, j)) <==> ClearOf(s, d, Header(b, j))
    {
      ClearSame(s, s1, d, b, k, j);
    }
  }

  lemma ClearSkip(s: State, d: nat, b: seq<Byte>, k: nat)
    requires ImageOk(b) && k < HeaderCount(b) && Header(b, k).kind != ELF_PROG_LOAD
    ensures Clear(s, d, b, k) <==> Clear(s, d, b, k + 1)
  {
  }

  ghost predicate StackKept(s: State, s': State, d: nat) {
    d < |s.mem| && d < |s'.mem| && Page(s', d, STACK_PAGE) == Page(s, d, STACK_PAGE)
  }

  lemma StackStays(s: State, d: nat)
    requires d < |s.mem|
    ensures StackKept(s, s, d)
  {
  }

  lemma StackTrans(s: State, s1: State, s2: State, d: nat)
    requires StackKept(s, s1, d) && StackKept(s1, s2, d)
    ensures StackKept(s, s2, d)
  {
  }

  /** One header of the segment loop, and what it leaves to do. */
  lemma SegmentStep(s: State, x: multiset<nat>, d: nat, b: seq<Byte>, k: nat)
    requires UserSpace(s, x, d) && ImageOk(b) && k < HeaderCount(b) && Clear(s, d, b, k)
    requires Header(b, k).kind == ELF_PROG_LOAD
    ensures d < |s.mem| && HeaderOk(b, Header(b, k))
    ensures Header(b, k).filesz <= Header(b, k).memsz && Header(b, k).offset + Header(b, k).filesz <= |b|
    ensures LoadSegment(s, d, b, Header(b, k)) == None ==>
      LoadSegments(s, d, b, k) == None && SegmentPages(b, k) + |MissingFrom(s, d, b, k)| > |s.free|
    ensures LoadSegment(s, d, b, Header(b, k)).Some? ==>
      var s1 := LoadSegment(s, d, b, Header(b, k)).value;
      var m := Missing(s, d, RegionPage(Header(b, k).va), PagesOf(Header(b, k)));
      && UserSpace(s1, x, d) && Clear(s1, d, b, k + 1) && d < |s1.mem| && StackKept(s, s1, d)
      && LoadSegments(s, d, b, k) == LoadSegments(s1, d, b, k + 1)
      && |s1.free| == |s.free| - PagesOf(Header(b, k)) - |m| && TablesMade(s, s1, d, m)
      && SegmentPages(b, k) == PagesOf(Header(b, k)) + SegmentPages(b, k + 1)
      && MissingFrom(s, d, b, k) == MissingFrom(s1, d, b, k + 1) + m
      && |MissingFrom(s, d, b, k)| == |MissingFrom(s1, d, b, k + 1)| + |m|
  {
    var ph := Header(b, k);
    HeaderFine(b, k);
    assert ClearOf(s, d, ph);
    SegmentTakes(s, x, d, b, ph);
    MissingSome(s, d, b, k);
    assert !(RegionPage(ph.va) <= STACK_PAGE < RegionPage(ph.va) + PagesOf(ph));
    assert LoadSegment(s, d, b, ph).Some? ==> StackKept(s, LoadSegment(s, d, b, ph).value, d);
    hide UserSpace, ClearOf, HeaderOk, LoadSegment, Missing, MissingFrom, TablesMade;
    if LoadSegment(s, d, b, ph).Some? {
      MissingLater(s, LoadSegment(s, d, b, ph).value, d, b, k);
      ClearLater(s, LoadSegment(s, d, b, ph).value, d, b, k);
    }
  }

  lemma SkipStep(s: State, d: nat, b: seq<Byte>, k: nat)
    requires d < |s.mem| && ImageOk(b) && k < HeaderCount(b) && Clear(s, d, b, k) && Header(b, k).kind != ELF_PROG_LOAD
    ensures Clear(s, d, b, k + 1) && LoadSegments(s, d, b, k) == LoadSegments(s, d, b, k + 1)
    ensures SegmentPages(b, k) == SegmentPages(b, k + 1) && MissingFrom(s, d, b, k) == MissingFrom(s, d, b, k + 1)
  {
    forall p: nat ensures TouchedFrom(b, k, p) <==> TouchedFrom(b, k + 1, p) {
      TouchedNext(b, k, p);
    }
  }

  lemma SegmentsNone(s: State, d: nat, b: seq<Byte>)
    requires d < |s.mem| && ImageOk(b)
    ensures LoadSegments(s, d, b, HeaderCount(b)) == Some(s) && SegmentPages(b, HeaderCount(b)) == 0
    ensures MissingFrom(s, d, b, HeaderCount(b)) == {} && TablesMade(s, s, d, {})
  {
  }

  lemma {:induction false} LoadSegmentsIff(s: State, x: multiset<nat>, d: nat, b: seq<Byte>, k: nat)
    requires UserSpace(s, x, d) && ImageOk(b) && k <= HeaderCount(b) && Clear(s, d, b, k)
    ensures d < |s.mem|
    ensures LoadSegments(s, d, b, k).Some? <==> SegmentPages(b, k) + |MissingFrom(s, d, b, k)| <= |s.free|
    ensures LoadSegments(s, d, b, k).Some? ==>
      var s' := LoadSegments(s, d, b, k).value;
      && |s'.free| == |s.free| - SegmentPages(b, k) - |MissingFrom(s, d, b, k)|
      && TablesMade(s, s', d, MissingFrom(s, d, b, k))
      && UserSpace(s', x, d) && StackKept(s, s', d)
    decreases HeaderCount(b) - k
  {
    hide *;
    ClearInside(s, d, b, k);
    if k == HeaderCount(b) {
      SegmentsNone(s, d, b);
      StackStays(s, d);
    } else if Header(b, k).kind != ELF_PROG_LOAD {
      SkipStep(s, d, b, k);
      LoadSegmentsIff(s, x, d, b, k + 1);
    } else {
      SegmentStep(s, x, d, b, k);
      if LoadSegment(s, d, b, Header(b, k)).Some? {
        var s1 := LoadSegment(s, d, b, Header(b, k)).value;
        LoadSegmentsIff(s1, x, d, b, k + 1);
        if LoadSegments(s, d, b, k).Some? {
          StackTrans(s, s1, LoadSegments(s, d, b, k).value, d);
          TablesMadeTrans(s, s1, LoadSegments(s, d, b, k).value, d,
            Missing(s, d, RegionPage(Header(b, k).va), PagesOf(Header(b, k))), MissingFrom(s1, d, b, k + 1));
        }
      }
    }
  }

  lemma ClearInside(s: State, d: nat, b: seq<Byte>, k: nat)
    requires ImageOk(b) && Clear(s, d, b, k)
    ensures d < |s.mem| && HeadersOk(b)
  {
  }

  // ----- load_icode -----

  /** The tables that load_icode has to make: for its segments, and for the stack page. */
  ghost function IcodeTables(s: State, d: nat, b: seq<Byte>): set<nat>
    requires d < |s.mem| && ImageOk(b)
  {
    MissingFrom(s, d, b, 0) + Made(s, d, STACK_PAGE / 1024)
  }

  /** Some tables, and then the one for page v if it is still missing. */
  lemma TablesTotal(s: State, s1: State, d: nat, m: set<nat>, v: nat)
    requires d < |s.mem| && v < 0x10_0000 && TablesMade(s, s1, d, m)
    ensures |m + Made(s, d, v / 1024)| == |m| + |Missing(s1, d, v, 1)|
  {
    var p0 := v / 1024;
    assert HasTable(s1, d, p0) <==> HasTable(s, d, p0) || p0 in m;
    forall p: nat | p < NENTRIES ensures p in Missing(s1, d, v, 1) <==> p == p0 && !HasTable(s1, d, p0) {
      TouchesNext(v, 1, p);
    }
    hide HasTable, Touches;
    assert Missing(s1, d, v, 1) == Made(s1, d, p0);
    assert m + Made(s, d, p0) == m + Made(s1, d, p0);
    Count(m, Made(s1, d, p0));
  }

  lemma TablesAtLeast(s: State, d: nat, b: seq<Byte>)
    requires d < |s.mem| && ImageOk(b)
    ensures |MissingFrom(s, d, b, 0)| <= |IcodeTables(s, d, b)|
  {
    Within(MissingFrom(s, d, b, 0), IcodeTables(s, d, b));
  }

  lemma StackUnmapped(s: State, d: nat)
    requires d < |s.mem|
    ensures STACK_PAGE + 1 <= UTOPX * 1024
    ensures Page(s, d, STACK_PAGE) == None ==> Unmapped(s, d, STACK_PAGE, 1)
  {
  }

  /** In a space where neither the segments nor the stack page are mapped yet, load_icode panics exactly when the image
      has no ELF magic or there are fewer free frames than segment pages, stack page and missing tables together. */
  lemma LoadIcodeIff(s: State, x: multiset<nat>, d: nat, b: seq<Byte>)
    requires UserSpace(s, x, d) && ImageOk(b) && Clear(s, d, b, 0) && Page(s, d, STACK_PAGE) == None
    ensures LoadIcode(s, d, b).Some? <==>
      && |b| >= 4 && b[0] == 0x7F && b[1] == 'E' as int && b[2] == 'L' as int && b[3] == 'F' as int
      && SegmentPages(b, 0) + 1 + |IcodeTables(s, d, b)| <= |s.free|
  {
    MagicIs(b);
    ClearInside(s, d, b, 0);
    hide UserSpace, Clear, SegmentPages, MissingFrom, Missing, LoadSegments, MapRegion;
    LoadSegmentsIff(s, x, d, b, 0);
    TablesAtLeast(s, d, b);
    if LoadSegments(s, d, b, 0).Some? {
      var s1 := LoadSegments(s, d, b, 0).value;
      TablesTotal(s, s1, d, MissingFrom(s, d, b, 0), STACK_PAGE);
      StackUnmapped(s1, d);
      MapRegionIff(s1, x, d, STACK_PAGE, 1);
    }
  }
}
