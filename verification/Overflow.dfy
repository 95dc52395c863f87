/** A reference count that is full: 65535 mappings of one frame, reached from boot with nothing in transit. */
module Overflow {
  import opened Wrappers
  import opened Mmu
  import opened Phys
  import opened PhysInv
  import opened PageOps
  import opened FlatMap
  import opened FreeList
  import opened Regions
  import opened Boot
  import opened Supply

  // ----- a small machine -----

  const SMALL_HEAP_END: nat := 0x10_2000
  const SMALL_KERN: nat := 257
  const SMALL_PAGES: nat := 258

  function SmallDir(): Frame { Zeros()[UVPTX := SMALL_KERN * 4096 + 5] }

  function FrameAt(f: nat): Frame { if f == SMALL_KERN then SmallDir() else Zeros() }

  function RefAt(f: nat): Ref16 { if InUse(f, SMALL_HEAP_END) then 1 else 0 }

  function Frames(n: nat): (m: seq<Frame>)
    ensures |m| == n && forall f :: 0 <= f < n ==> m[f] == FrameAt(f)
  {
    if n == 0 then [] else Frames(n - 1) + [FrameAt(n - 1)]
  }

  function Refs(n: nat): (r: seq<Ref16>)
    ensures |r| == n && forall f :: 0 <= f < n ==> r[f] == RefAt(f)
  {
    if n == 0 then [] else Refs(n - 1) + [RefAt(n - 1)]
  }

  /** A machine of 258 frames after page_init, its kernel directory right behind the I/O hole. */
  function SmallBoot(): State {
    State(Frames(SMALL_PAGES), Refs(SMALL_PAGES), FreeFrames(SMALL_PAGES, SMALL_HEAP_END), SMALL_KERN,
          seq(SMALL_PAGES, f => if f == SMALL_KERN then KernDir else Plain),
          set f: nat | f < SMALL_PAGES && InUse(f, SMALL_HEAP_END), {})
  }

  lemma SmallBooted()
    ensures Booted(SmallBoot(), SMALL_HEAP_END) && |SmallBoot().free| == 159
  {
    FreeCount(SMALL_PAGES);
  }

  /** Below the I/O hole all frames but the first are free; from there to the end of the small machine, none. */
  lemma {:induction false} FreeCount(n: nat)
    requires n <= SMALL_PAGES
    ensures |FreeFrames(n, SMALL_HEAP_END)| == if n == 0 then 0 else if n <= 160 then n - 1 else 159
  {
    if n > 0 { FreeCount(n - 1); }
  }

  // ----- filling a count -----

  /** What page_alloc and 65535 calls of page_insert make of the small machine: the frame allocated is mapped at the
      first 65535 pages of the kernel's directory. */
  ghost predicate FullState(s: State, d: nat, f: nat) {
    && Booted(SmallBoot(), SMALL_HEAP_END) && SmallBoot().free != []
    && d == SMALL_KERN && f == SmallBoot().free[0] < SMALL_PAGES
    && MapSame(Alloc(SmallBoot(), false), d, f, 0, 65535) == Some(s)
  }

  lemma FullCount() returns (s: State, d: nat, f: nat)
    ensures Sharing(s, d, f) && s.ref[f] == 0xFFFF
    ensures MayInsert(s, d, f, 63, 1023, PTE_U + PTE_W) && CanWalk(s, d, 63)
    ensures FullState(s, d, f)
  {
    var s0 := SmallBoot();
    SmallBooted();
    BootedConsistent(s0, SMALL_HEAP_END);
    KernIsDir(s0, multiset{});
    AllocKeeps(s0, multiset{}, false);
    var s1 := Alloc(s0, false);
    d, f := SMALL_KERN, s0.free[0];
    NothingMapped(s0, s1);
    FewTables(s1, d);
    hide Booted, Consistent, SmallBoot, FreeFrames;
    MapSameCounts(s1, d, f, 0, 65535);
    s := MapSame(s1, d, f, 0, 65535).value;
    assert HasTable(s, d, 63) <==> HasTable(s1, d, 63) || 63 in Missing(s1, d, 0, 65535);
    assert Touches(0, 65535, 63);
  }

  lemma NothingMapped(s0: State, s1: State)
    requires Booted(s0, SMALL_HEAP_END) && s1.mem == s0.mem && s0.role[s0.kern] == KernDir
    ensures s0.kern < |s1.mem| && Unmapped(s1, s0.kern, 0, 65535)
  {
    hide *;
    EmptyPage(s0, 0);
    forall u: nat {:trigger Page(s1, s0.kern, u)} | u < 65535 ensures Page(s1, s0.kern, u) == None {
      EmptyPage(s0, u);
      SamePage(s0, s1, s0.kern, u);
    }
    AreUnmapped(s1, s0.kern, 65535);
  }

  lemma EmptyPage(s: State, u: nat)
    requires Booted(s, SMALL_HEAP_END) && s.role[s.kern] == KernDir && u < 65535
    ensures s.kern < |s.mem| && Page(s, s.kern, u) == None
  {
    assert IsPageNo(s, s.kern, u);
    BootedEmpty(s, SMALL_HEAP_END, u);
  }

  lemma AreUnmapped(s: State, d: nat, n: nat)
    requires d < |s.mem| && n <= 0x10_0000
    requires forall u: nat {:trigger Page(s, d, u)} :: u < n ==> Page(s, d, u) == None
    ensures Unmapped(s, d, 0, n)
  {
  }

  lemma SamePage(s0: State, s1: State, d: nat, u: nat)
    requires s1.mem == s0.mem && d < |s0.mem| && u < 0x10_0000
    ensures Page(s1, d, u) == Page(s0, d, u)
  {
    SameWords(s0, s1, d, u / 1024, u % 1024);
  }

  lemma FewTables(s: State, d: nat)
    requires d < |s.mem|
    ensures |Missing(s, d, 0, 65535)| <= 64
  {
    AtMost(Missing(s, d, 0, 65535), 64);
  }

  lemma AtMost(r: set<nat>, n: nat)
    requires forall p :: p in r ==> p < n
    ensures |r| <= n
  {
    Within(r, Span(0, n));
  }

  /** So page_insert does break the invariant, on a state that real operations reach: its bound on the count is
      needed. */
  lemma OverflowHappens() returns (s: State, d: nat, f: nat)
    ensures Sharing(s, d, f) && MayInsert(s, d, f, 63, 1023, PTE_U + PTE_W) && CanWalk(s, d, 63)
    ensures InsertArgs(s, d, f, 63, 1023, PTE_U + PTE_W)
    ensures !(InsertRuns(s, d, f, 63, 1023, PTE_U + PTE_W)
              && Consistent(Insert(s, d, f, 63, 1023, PTE_U + PTE_W), multiset{}))
    ensures FullState(s, d, f)
  {
    s, d, f := FullCount();
    hide InsertRuns, InsertArgs, FullState, Booted;
    InsertKeepsIff(s, multiset{}, d, f, 63, 1023, PTE_U + PTE_W);
  }
}
