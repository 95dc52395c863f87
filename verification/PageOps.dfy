/** pgdir_walk, page_remove and page_insert keep the global invariant. */
module PageOps {
  import opened Mmu
  import opened Phys
  import opened PhysInv

  // ----- pgdir_walk -----

  /** Creating a table adds one reference, to the new table, and touches two frames. */
  lemma MakeTableKeeps(s: State, x: multiset<nat>, d: nat, p: nat)
    requires Consistent(s, x) && CanHang(s, d, p) && !HasTable(s, d, p) && s.free != []
    ensures s.free[0] < |s.mem|
    ensures var s', t := MakeTable(s, d, p), s.free[0];
      && Consistent(s', x)
      && s'.role == s.role[t := TableRole(d, p)] && s.role[t] == Plain && t != d
      && s'.mem == s.mem[t := Zeros()][d := s.mem[d][p := t * 4096 + 7]]
      && s'.ref == s.ref[t := 1] && s.ref[t] == 0
      && s'.free == s.free[1..] && s'.held == s.held
      && Sites(s, t) == {} && Sites(s', t) == {At(d, p)}
      && (forall g: nat :: g != t ==> Sites(s', g) == Sites(s, g))
  {
    var t := s.free[0];
    assert t in s.free;
    ZeroIsUnused(s, x, t);
    AllocKeeps(s, x, true);
    var s1 := Alloc(s, true);
    ZeroIsUnused(s1, x, t);
    IncrefKeeps(s1, x, t);
    var s2 := Incref(s1, t);
    AllocSites(s, x);
    LinkTableKeeps(s2, x, d, p, t, MakeTable(s, d, p));
  }

  /** Allocating (and zeroing) a frame and counting it once changes no stored reference. */
  lemma AllocSites(s: State, x: multiset<nat>)
    requires Consistent(s, x) && s.free != []
    ensures s.free[0] < |s.mem| && Shape(Incref(Alloc(s, true), s.free[0]))
    ensures forall g: nat :: Sites(Incref(Alloc(s, true), s.free[0]), g) == Sites(s, g)
  {
    assert s.free[0] in s.free;
    ZeroIsUnused(s, x, s.free[0]);
    forall g: nat ensures Sites(Incref(Alloc(s, true), s.free[0]), g) == Sites(s, g) {
      SitesAgree(s, Incref(Alloc(s, true), s.free[0]), g);
    }
  }

  lemma WalkKeeps(s: State, x: multiset<nat>, d: nat, p: nat)
    requires Consistent(s, x) && CanHang(s, d, p) && CanWalk(s, d, p)
    ensures s.free != [] ==> s.free[0] < |s.mem|
    ensures var s' := Walk(s, d, p);
      && Consistent(s', x) && CanHang(s', d, p)
      && HasTable(s', d, p) && TableOf(s', d, p) < |s.mem|
      && s'.role[TableOf(s', d, p)] == TableRole(d, p)
      && s'.mem[d][p] == TableOf(s', d, p) * 4096 + 7
      && s'.held == s.held && s'.reserved == s.reserved && s'.kern == s.kern
  {
    if s.free != [] { assert s.free[0] in s.free; }
    if HasTable(s, d, p) {
      KernIsDir(s, x);
      assert WordOk(s, d, p);
      assert RoleOk(s, TableOf(s, d, p));
    } else {
      MakeTableKeeps(s, x, d, p);
    }
  }

  // ----- page_remove -----

  /** The order of page_remove (drop the count, then clear the entry) does not matter for the state. */
  lemma RemoveIsClearThenDrop(s: State, d: nat, p: nat, q: nat)
    requires d < |s.mem| && p < NENTRIES && q < NENTRIES && |s.ref| == |s.mem|
    requires RemoveRuns(s, d, p, q) && Present(Pte(s, d, p, q))
    ensures Remove(s, d, p, q) == Decref(SetWord(s, TableOf(s, d, p), q, 0), FrameOf(Pte(s, d, p, q)))
  {
  }

  /** A user page of directory d: its table, if there is one, is a user table hung off that very entry. */
  lemma UserTableOf(s: State, x: multiset<nat>, d: nat, p: nat)
    requires Consistent(s, x) && d < |s.mem| && IsDir(s.role[d]) && p < UTOPX && HasTable(s, d, p)
    ensures TableOf(s, d, p) < |s.mem| && s.role[TableOf(s, d, p)] == UserTable(d, p)
  {
    assert WordOk(s, d, p);
  }

  lemma RemoveKeeps(s: State, x: multiset<nat>, d: nat, p: nat, q: nat)
    requires Consistent(s, x) && d < |s.mem| && IsDir(s.role[d]) && p < UTOPX && q < NENTRIES
    ensures RemoveRuns(s, d, p, q)
    ensures var s', w := Remove(s, d, p, q), Pte(s, d, p, q);
      && Consistent(s', x)
      && s'.role == s.role && s'.kern == s.kern && s'.reserved == s.reserved && s'.held == s.held
      && (Present(w) ==>
        && s'.mem == SetWord(s, TableOf(s, d, p), q, 0).mem
        && FrameOf(w) < |s.ref| && s'.ref == s.ref[FrameOf(w) := s.ref[FrameOf(w)] - 1]
        && s'.free == (if s.ref[FrameOf(w)] == 1 then [FrameOf(w)] else []) + s.free
        && At(TableOf(s, d, p), q) in Sites(s, FrameOf(w))
        && Sites(s', FrameOf(w)) == Sites(s, FrameOf(w)) - {At(TableOf(s, d, p), q)}
        && (forall g: nat :: g != FrameOf(w) ==> Sites(s', g) == Sites(s, g)))
  {
    var w := Pte(s, d, p, q);
    if Present(w) {
      UserTableOf(s, x, d, p);
      var t := TableOf(s, d, p);
      ClearPteKeeps(s, x, t, q);
      DecrefKeeps(SetWord(s, t, q, 0), x, FrameOf(w));
      RemoveIsClearThenDrop(s, d, p, q);
      forall g: nat ensures Sites(Remove(s, d, p, q), g) == Sites(SetWord(s, t, q, 0), g) {
        SitesAgree(SetWord(s, t, q, 0), Remove(s, d, p, q), g);
      }
    }
  }

  // ----- page_insert -----

  /** What page_insert asks of its caller: a user page of a directory, and a data frame that is not free. */
  ghost predicate MayInsert(s: State, d: nat, f: nat, p: nat, q: nat, perm: nat) {
    && Shape(s)
    && d < |s.mem| && IsDir(s.role[d]) && p < UTOPX && q < NENTRIES && perm < 4096
    && f < |s.mem| && s.role[f] == Plain && f !in s.free
  }

  lemma WalkForInsert(s: State, x: multiset<nat>, d: nat, f: nat, p: nat, q: nat, perm: nat)
    requires Consistent(s, x) && MayInsert(s, d, f, p, q, perm) && CanWalk(s, d, p)
    ensures InsertArgs(s, d, f, p, q, perm)
    ensures var s1 := Walk(s, d, p);
      && Consistent(s1, x) && s1.role[f] == Plain && f !in s1.free && s1.ref[f] == s.ref[f]
      && IsDir(s1.role[d]) && HasTable(s1, d, p)
      && TableOf(s1, d, p) < |s.mem| && s1.role[TableOf(s1, d, p)] == UserTable(d, p)
  {
    WalkKeeps(s, x, d, p);
    if !HasTable(s, d, p) {
      MakeTableKeeps(s, x, d, p);
      assert s.free[0] in s.free;
    }
  }

  /** page_insert keeps the invariant as long as the 16-bit count does not wrap. */
  lemma InsertKeeps(s: State, x: multiset<nat>, d: nat, f: nat, p: nat, q: nat, perm: nat)
    requires Consistent(s, x) && MayInsert(s, d, f, p, q, perm) && CanWalk(s, d, p) && s.ref[f] < 0xFFFF
    ensures InsertArgs(s, d, f, p, q, perm) && InsertRuns(s, d, f, p, q, perm)
    ensures Consistent(Insert(s, d, f, p, q, perm), x)
  {
    hide WordsOk, RolesOk, CountsOk, FreeOk, Sites;
    WalkForInsert(s, x, d, f, p, q, perm);
    var s1 := Walk(s, d, p);
    IncrefKeeps(s1, x, f);
    var s2 := Incref(s1, f);
    RemoveKeeps(s2, x + multiset{f}, d, p, q);
    StorePteKeeps(Remove(s2, d, p, q), x, TableOf(s1, d, p), q, f, Entry(f, perm));
  }
}
