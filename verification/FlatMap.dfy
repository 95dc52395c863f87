/** The two-level tables refine one flat map per directory: from virtual page (p, q) to frame and permissions
    (section 4.3 of the Intel SDM, Volume 3A, 32-bit paging). */
module FlatMap {
  import opened Wrappers
  import opened Mmu
  import opened Phys
  import opened PhysInv
  import opened PageOps

  datatype Mapping = Mapping(frame: nat, flags: nat)

  /** The flat map: what the page walk finds. */
  function Mapped(s: State, d: nat, p: nat, q: nat): Option<Mapping>
    requires d < |s.mem| && p < NENTRIES && q < NENTRIES
  {
    var w := Pte(s, d, p, q);
    if Present(w) then Some(Mapping(FrameOf(w), FlagsOf(w))) else None
  }

  /** page_lookup: the frame mapped at the page, if any. */
  function Lookup(s: State, d: nat, p: nat, q: nat): Option<nat>
    requires d < |s.mem| && p < NENTRIES && q < NENTRIES
  {
    var w := Pte(s, d, p, q);
    if Present(w) then Some(FrameOf(w)) else None
  }

  /** page_lookup panics where pgdir_walk does, and in pa2page for a frame that is not in pages[]: a page of the
      kernel half can map one. */
  predicate LookupPanics(s: State, d: nat, p: nat, q: nat)
    requires d < |s.mem| && p < NENTRIES && q < NENTRIES
  {
    var w := Pte(s, d, p, q);
    WalkPanics(s, d, p) || (Present(w) && FrameOf(w) >= |s.mem|)
  }

  /** A page of directory d outside its own self map. */
  ghost predicate IsPage(s: State, d: nat, p: nat, q: nat) {
    && Shape(s) && d < |s.mem| && IsDir(s.role[d]) && p < NENTRIES && p != UVPTX && q < NENTRIES
  }

  lemma TableKind(s: State, x: multiset<nat>, d: nat, p: nat, q: nat)
    requires Consistent(s, x) && IsPage(s, d, p, q) && HasTable(s, d, p)
    ensures TableOf(s, d, p) < |s.mem| && s.role[TableOf(s, d, p)] == TableRole(d, p)
  {
    KernIsDir(s, x);
    assert WordOk(s, d, p) && WordOk(s, s.kern, p) && RoleOk(s, d);
  }

  /** In a consistent state pgdir_walk never panics: every directory entry that is present names a frame of memory. */
  lemma WalkRuns(s: State, x: multiset<nat>, d: nat, p: nat)
    requires Consistent(s, x) && d < |s.mem| && IsDir(s.role[d]) && p < NENTRIES
    ensures !WalkPanics(s, d, p)
  {
    if HasTable(s, d, p) {
      if p == UVPTX {
        assert WordOk(s, d, p);
      } else {
        TableKind(s, x, d, p, 0);
      }
    }
  }

  /** No page below UTOP of any directory is mapped to a frame outside physical memory. */
  lemma UserLookupRuns(s: State, x: multiset<nat>, d: nat, p: nat, q: nat)
    requires Consistent(s, x) && IsPage(s, d, p, q) && p < UTOPX
    ensures !LookupPanics(s, d, p, q)
  {
    if HasTable(s, d, p) {
      TableKind(s, x, d, p, q);
      assert WordOk(s, TableOf(s, d, p), q);
    }
  }

  /** Creating a page table leaves every translation of every directory as it was. */
  lemma MakeTableMap(s: State, x: multiset<nat>, d: nat, p: nat, d': nat, p': nat, q': nat)
    requires Consistent(s, x) && CanHang(s, d, p) && !HasTable(s, d, p) && s.free != []
    requires IsPage(s, d', p', q')
    ensures s.free[0] < |s.mem|
    ensures IsPage(MakeTable(s, d, p), d', p', q')
    ensures Pte(MakeTable(s, d, p), d', p', q') == Pte(s, d', p', q')
  {
    MakeTableKeeps(s, x, d, p);
    if HasTable(s, d', p') { TableKind(s, x, d', p', q'); }
    KernIsDir(s, x);
  }

  /** Writing one entry of the user table of (d, p) writes one key of one flat map. */
  lemma SetPteMap(s: State, x: multiset<nat>, d: nat, p: nat, q: nat, w: Word, d': nat, p': nat, q': nat)
    requires Consistent(s, x) && IsPage(s, d, p, q) && p < UTOPX && HasTable(s, d, p)
    requires IsPage(s, d', p', q')
    ensures TableOf(s, d, p) < |s.mem|
    ensures Pte(SetWord(s, TableOf(s, d, p), q, w), d', p', q')
         == if (d', p', q') == (d, p, q) then w else Pte(s, d', p', q')
  {
    TableKind(s, x, d, p, q);
    if HasTable(s, d', p') { TableKind(s, x, d', p', q'); }
  }

  /** page_remove deletes one key and leaves every other key of every directory alone. */
  lemma RemoveMap(s: State, x: multiset<nat>, d: nat, p: nat, q: nat, d': nat, p': nat, q': nat)
    requires Consistent(s, x) && IsPage(s, d, p, q) && p < UTOPX && IsPage(s, d', p', q')
    ensures RemoveRuns(s, d, p, q) && IsPage(Remove(s, d, p, q), d', p', q')
    ensures Mapped(Remove(s, d, p, q), d', p', q')
         == if (d', p', q') == (d, p, q) then None else Mapped(s, d', p', q')
  {
    RemoveKeeps(s, x, d, p, q);
    if Present(Pte(s, d, p, q)) {
      SetPteMap(s, x, d, p, q, 0, d', p', q');
      SameWords(Remove(s, d, p, q), SetWord(s, TableOf(s, d, p), q, 0), d', p', q');
    }
  }

  lemma SameWords(s: State, s': State, d: nat, p: nat, q: nat)
    requires s.mem == s'.mem && d < |s.mem| && p < NENTRIES && q < NENTRIES
    ensures Pte(s, d, p, q) == Pte(s', d, p, q)
  {
  }

  /** The second half of page_insert, once the table exists: unmap, then store. */
  lemma ReplaceMap(s: State, x: multiset<nat>, d: nat, p: nat, q: nat, w: Word, d': nat, p': nat, q': nat)
    requires Consistent(s, x) && IsPage(s, d, p, q) && p < UTOPX && HasTable(s, d, p) && IsPage(s, d', p', q')
    ensures RemoveRuns(s, d, p, q) && TableOf(s, d, p) < |s.mem|
    ensures Pte(SetWord(Remove(s, d, p, q), TableOf(s, d, p), q, w), d', p', q')
         == if (d', p', q') == (d, p, q) then w else Pte(s, d', p', q')
  {
    RemoveKeeps(s, x, d, p, q);
    TableKind(s, x, d, p, q);
    SetPteMap(s, x, d, p, q, w, d', p', q');
    var t := TableOf(s, d, p);
    assert s.mem[t][q := 0][q := w] == s.mem[t][q := w];
    assert s.mem[t := s.mem[t][q := 0]][t := s.mem[t][q := w]] == s.mem[t := s.mem[t][q := w]];
    SameWords(SetWord(Remove(s, d, p, q), t, q, w), SetWord(s, t, q, w), d', p', q');
  }

  lemma WalkMap(s: State, x: multiset<nat>, d: nat, p: nat, d': nat, p': nat, q': nat)
    requires Consistent(s, x) && CanHang(s, d, p) && CanWalk(s, d, p) && IsPage(s, d', p', q')
    ensures s.free != [] ==> s.free[0] < |s.mem|
    ensures IsPage(Walk(s, d, p), d', p', q') && Pte(Walk(s, d, p), d', p', q') == Pte(s, d', p', q')
  {
    if s.free != [] { assert s.free[0] in s.free; }
    if !HasTable(s, d, p) { MakeTableMap(s, x, d, p, d', p', q'); }
  }

  /** page_insert sets one key to (f, perm | PTE_P) and leaves every other key of every directory alone. */
  lemma InsertMap(s: State, x: multiset<nat>, d: nat, f: nat, p: nat, q: nat, perm: nat, d': nat, p': nat, q': nat)
    requires Consistent(s, x) && MayInsert(s, d, f, p, q, perm) && CanWalk(s, d, p) && s.ref[f] < 0xFFFF
    requires IsPage(s, d', p', q')
    ensures InsertArgs(s, d, f, p, q, perm) && InsertRuns(s, d, f, p, q, perm)
    ensures IsPage(Insert(s, d, f, p, q, perm), d', p', q')
    ensures Mapped(Insert(s, d, f, p, q, perm), d', p', q')
         == if (d', p', q') == (d, p, q) then Some(Mapping(f, perm + 1 - perm % 2)) else Mapped(s, d', p', q')
  {
    InsertKeeps(s, x, d, f, p, q, perm);
    WalkForInsert(s, x, d, f, p, q, perm);
    WalkMap(s, x, d, p, d', p', q');
    hide MakeTable, WordsOk, RolesOk, CountsOk, FreeOk;
    var s2 := Incref(Walk(s, d, p), f);
    IncrefKeeps(Walk(s, d, p), x, f);
    SameWords(Walk(s, d, p), s2, d', p', q');
    RemoveMap(s2, x + multiset{f}, d, p, q, d', p', q');
    ReplaceMap(s2, x + multiset{f}, d, p, q, Entry(f, perm), d', p', q');
    InsertIs(s, d, f, p, q, perm);
    hide Insert, Walk, Remove, Consistent, Pte;
  }

  lemma InsertIs(s: State, d: nat, f: nat, p: nat, q: nat, perm: nat)
    requires InsertArgs(s, d, f, p, q, perm) && InsertRuns(s, d, f, p, q, perm)
    ensures var s2 := Incref(Walk(s, d, p), f);
      && d < |s2.mem| && RemoveRuns(s2, d, p, q) && TableOf(s2, d, p) < |Remove(s2, d, p, q).mem|
      && Insert(s, d, f, p, q, perm) == SetWord(Remove(s2, d, p, q), TableOf(s2, d, p), q, Entry(f, perm))
  {
  }

  // ----- what the counts do -----

  /** page_remove takes one reference from the frame that was mapped, frees it exactly when that was the last
      one, and touches no other count. */
  lemma RemoveCounts(s: State, x: multiset<nat>, d: nat, p: nat, q: nat)
    requires Consistent(s, x) && IsPage(s, d, p, q) && p < UTOPX
    ensures RemoveRuns(s, d, p, q)
    ensures match Lookup(s, d, p, q)
            case None => Remove(s, d, p, q) == s
            case Some(f) =>
              && f < |s.ref| && s.ref[f] > 0
              && Remove(s, d, p, q).ref == s.ref[f := s.ref[f] - 1]
              && Remove(s, d, p, q).free == if s.ref[f] == 1 then [f] + s.free else s.free
  {
    RemoveKeeps(s, x, d, p, q);
  }

  /** Re-inserting the frame already mapped at the page only replaces the permissions: its count stays and it is
      never freed. */
  lemma ReinsertKeepsCounts(s: State, x: multiset<nat>, d: nat, f: nat, p: nat, q: nat, perm: nat)
    requires Consistent(s, x) && MayInsert(s, d, f, p, q, perm) && s.ref[f] < 0xFFFF
    requires Lookup(s, d, p, q) == Some(f)
    ensures InsertArgs(s, d, f, p, q, perm) && InsertRuns(s, d, f, p, q, perm)
    ensures TableOf(s, d, p) < |s.mem|
    ensures Insert(s, d, f, p, q, perm) == SetWord(s, TableOf(s, d, p), q, Entry(f, perm))
  {
    if s.free != [] { assert s.free[0] in s.free; }
    TableKind(s, x, d, p, q);
    RemoveKeeps(s, x, d, p, q);
    var t, w, s2 := TableOf(s, d, p), Entry(f, perm), Incref(s, f);
    SameWords(s, s2, d, p, q);
    assert s2.ref[f := s.ref[f]] == s.ref && s.held - {f} == s.held;
    assert Decref(s2, f) == s;
    assert s.mem[t][q := 0][q := w] == s.mem[t][q := w];
    assert SetWord(SetWord(s, t, q, 0), t, q, w).mem == SetWord(s, t, q, w).mem;
  }

  lemma WalkCounts(s: State, x: multiset<nat>, d: nat, p: nat, q: nat)
    requires Consistent(s, x) && CanHang(s, d, p) && CanWalk(s, d, p) && p != UVPTX && q < NENTRIES
    ensures s.free != [] ==> s.free[0] < |s.mem|
    ensures !HasTable(s, d, p) ==> s.ref[s.free[0]] == 0
    ensures Walk(s, d, p).ref == if HasTable(s, d, p) then s.ref else s.ref[s.free[0] := 1]
    ensures IsPage(Walk(s, d, p), d, p, q) && Lookup(Walk(s, d, p), d, p, q) == Lookup(s, d, p, q)
  {
    if s.free != [] { assert s.free[0] in s.free; }
    if !HasTable(s, d, p) {
      MakeTableKeeps(s, x, d, p);
      MakeTableMap(s, x, d, p, d, p, q);
    }
  }

  /** Mapping a frame where another one (or none) was mapped: f gains a reference, the frame mapped before loses
      one and is freed if it was the last, a new page table gets one, and no other count changes. */
  lemma InsertCounts(s: State, x: multiset<nat>, d: nat, f: nat, p: nat, q: nat, perm: nat, g: nat)
    requires Consistent(s, x) && MayInsert(s, d, f, p, q, perm) && CanWalk(s, d, p) && s.ref[f] < 0xFFFF
    requires g < |s.ref|
    ensures InsertArgs(s, d, f, p, q, perm) && InsertRuns(s, d, f, p, q, perm)
    ensures var s' := Insert(s, d, f, p, q, perm);
            s'.ref[g] == s.ref[g]
              + (if g == f then 1 else 0)
              - (if Lookup(s, d, p, q) == Some(g) then 1 else 0)
              + (if !HasTable(s, d, p) && g == s.free[0] then 1 else 0)
  {
    InsertKeeps(s, x, d, f, p, q, perm);
    WalkForInsert(s, x, d, f, p, q, perm);
    WalkCounts(s, x, d, p, q);
    var s1 := Walk(s, d, p);
    var s2 := Incref(s1, f);
    IncrefKeeps(s1, x, f);
    SameWords(s1, s2, d, p, q);
    RemoveCounts(s2, x + multiset{f}, d, p, q);
    InsertIs(s, d, f, p, q, perm);
    hide Consistent, Insert, Walk, Remove, Pte, HasTable;
  }

  /** page_insert writes only the directory and its page table: data frames in use keep their contents. */
  lemma InsertFrame(s: State, x: multiset<nat>, d: nat, f: nat, p: nat, q: nat, perm: nat)
    requires Consistent(s, x) && MayInsert(s, d, f, p, q, perm) && CanWalk(s, d, p) && s.ref[f] < 0xFFFF
    ensures InsertArgs(s, d, f, p, q, perm) && InsertRuns(s, d, f, p, q, perm)
    ensures var s' := Insert(s, d, f, p, q, perm);
      && |s'.mem| == |s.mem| == |s'.role| == |s'.ref|
      && s'.kern == s.kern && s'.reserved == s.reserved && s'.held == s.held - {f}
      && (forall k: nat {:trigger s'.mem[k]} :: k < |s.mem| && s.role[k] == Plain && k !in s.free ==>
          s'.mem[k] == s.mem[k] && s'.role[k] == Plain)
  {
    InsertKeeps(s, x, d, f, p, q, perm);
    WalkForInsert(s, x, d, f, p, q, perm);
    if !HasTable(s, d, p) {
      MakeTableKeeps(s, x, d, p);
      assert s.free[0] in s.free;
    }
    IncrefKeeps(Walk(s, d, p), x, f);
    RemoveKeeps(Incref(Walk(s, d, p), f), x + multiset{f}, d, p, q);
  }

  /** Without the bound on the count the invariant is lost: page_insert keeps it exactly when pp_ref does not
      wrap (or, on the very entry that already maps the frame, panics). */
  lemma InsertKeepsIff(s: State, x: multiset<nat>, d: nat, f: nat, p: nat, q: nat, perm: nat)
    requires Consistent(s, x) && MayInsert(s, d, f, p, q, perm) && CanWalk(s, d, p)
    ensures InsertArgs(s, d, f, p, q, perm)
    ensures s.ref[f] < 0xFFFF
       <==> InsertRuns(s, d, f, p, q, perm) && Consistent(Insert(s, d, f, p, q, perm), x)
  {
    WalkForInsert(s, x, d, f, p, q, perm);
    if s.ref[f] < 0xFFFF {
      InsertKeeps(s, x, d, f, p, q, perm);
    } else if InsertRuns(s, d, f, p, q, perm) {
      var s' := Insert(s, d, f, p, q, perm);
      var t := TableOf(Walk(s, d, p), d, p);
      assert s'.ref[f] == 0;
      assert s'.mem[t][q] == Entry(f, perm) && s'.role[t] == UserTable(d, p);
      ReferredIsCounted(s', x, t, q);
    }
  }

  lemma ReferredIsCounted(s: State, x: multiset<nat>, t: nat, q: nat)
    requires Shape(s) && t < |s.mem| && q < NENTRIES && s.role[t].UserTable? && Present(s.mem[t][q])
    requires FrameOf(s.mem[t][q]) < |s.mem| && s.ref[FrameOf(s.mem[t][q])] == 0
    ensures !Consistent(s, x)
  {
    assert At(t, q) in Sites(s, FrameOf(s.mem[t][q]));
    assert !CountOk(s, x, FrameOf(s.mem[t][q]));
  }
}
