/** Environment address spaces as kern/env.c builds and tears them down: env_setup_vm and the loops of env_free. */
module AddrSpace {
  import opened Wrappers
  import opened Mmu
  import opened Phys
  import opened PhysInv
  import opened PageOps
  import opened FlatMap

  // ----- env_setup_vm -----

  /** A fresh environment directory in frame f: nothing below UTOP, the kernel's entries above, itself at UVPT. */
  function DirWords(s: State, f: nat): Frame
    requires s.kern < |s.mem| && f < 0x10_0000
  {
    seq(NENTRIES, i requires 0 <= i < NENTRIES =>
      if i < UTOPX then 0 else if i == UVPTX then f * 4096 + 5 else s.mem[s.kern][i])
  }

  function SetupVm(s: State): State
    requires Shape(s) && s.free != [] && s.free[0] < |s.mem|
  {
    var f := s.free[0];
    var s' := Incref(Alloc(s, true), f);
    s'.(mem := s'.mem[f := DirWords(s', f)], role := s'.role[f := EnvDir])
  }

  ghost function WithDir(s: State, f: nat): State
    requires Shape(s) && f < |s.mem|
  {
    s.(mem := s.mem[f := DirWords(s, f)], role := s.role[f := EnvDir])
  }

  lemma WithDirKeeps(s: State, x: multiset<nat>, f: nat)
    requires Consistent(s, x + multiset{f}) && f < |s.mem|
    requires s.role[f] == Plain && f !in s.reserved && Sites(s, f) == {}
    ensures Consistent(WithDir(s, f), x)
    ensures Sites(WithDir(s, f), f) == {Root(f)}
    ensures forall g: nat :: g != f ==> Sites(WithDir(s, f), g) == Sites(s, g)
  {
    var s' := WithDir(s, f);
    var y := x + multiset{f};
    KernIsDir(s, y);
    assert RoleOk(s, f);
    forall k: nat, i: nat | k < |s.mem| && i < NENTRIES ensures WordOk(s', k, i) {
      assert WordOk(s, k, i);
      assert At(k, i) !in Sites(s, f);
    }
    SitesGain(s, s', f, Root(f));
    forall g: nat | g != f ensures Sites(s', g) == Sites(s, g) {
      SitesAgree(s, s', g);
    }
    forall k: nat | k < |s.mem| ensures RoleOk(s', k) && CountOk(s', x, k) {
      assert RoleOk(s, k) && CountOk(s, y, k);
    }
  }

  /** env_setup_vm keeps the invariant; its only new reference is the one that pins the directory. */
  lemma SetupVmKeeps(s: State, x: multiset<nat>)
    requires Consistent(s, x) && s.free != []
    ensures s.free[0] < |s.mem|
    ensures var f, s' := s.free[0], SetupVm(s);
      && Consistent(s', x)
      && s.role[f] == Plain && s'.role == s.role[f := EnvDir] && f != s.kern
      && s'.mem == s.mem[f := DirWords(s, f)]
      && s'.free == s.free[1..] && s'.held == s.held && s'.ref == s.ref[f := 1]
      && Sites(s, f) == {} && Sites(s', f) == {Root(f)}
      && (forall g: nat :: g != f ==> Sites(s', g) == Sites(s, g))
  {
    var f := s.free[0];
    assert f in s.free;
    ZeroIsUnused(s, x, f);
    AllocKeeps(s, x, true);
    IncrefKeeps(Alloc(s, true), x, f);
    AllocSites(s, x);
    var s2 := Incref(Alloc(s, true), f);
    WithDirKeeps(s2, x, f);
    assert DirWords(s2, f) == DirWords(s, f);
    assert WithDir(s2, f) == SetupVm(s);
  }

  /** The new address space is empty below UTOP and the kernel's everywhere above, except for its self map. */
  lemma SetupVmMap(s: State, x: multiset<nat>, p: nat, q: nat)
    requires Consistent(s, x) && s.free != [] && p < NENTRIES && p != UVPTX && q < NENTRIES
    ensures s.free[0] < |s.mem|
    ensures Mapped(SetupVm(s), s.free[0], p, q) == if p < UTOPX then None else Mapped(s, s.kern, p, q)
  {
    SetupVmKeeps(s, x);
    KernIsDir(s, x);
    if HasTable(s, s.kern, p) { TableKind(s, x, s.kern, p, q); }
  }

  // ----- env_free -----

  /** page_remove as one step of a loop over pages. */
  function DropPage(s: State, d: nat, p: nat, q: nat): (r: State)
    requires d < |s.mem| && p < NENTRIES && q < NENTRIES
    ensures |r.mem| == |s.mem|
  {
    if RemoveRuns(s, d, p, q) && |s.ref| == |s.mem| then Remove(s, d, p, q) else s
  }

  /** The inner loop of env_free, from entry q on. */
  function DropPages(s: State, d: nat, p: nat, q: nat): (r: State)
    requires d < |s.mem| && p < NENTRIES && q <= NENTRIES
    ensures |r.mem| == |s.mem|
    decreases NENTRIES - q
  {
    if q == NENTRIES then s else DropPages(DropPage(s, d, p, q), d, p, q + 1)
  }

  /** `env_pgdir[p] = 0` and the page_decref of the table. */
  function DropTable(s: State, d: nat, p: nat): (r: State)
    requires d < |s.mem| && p < NENTRIES
    ensures |r.mem| == |s.mem|
  {
    var t := TableOf(s, d, p);
    if t < |s.ref| == |s.role| && s.ref[t] > 0 then
      var s' := SetWord(s, d, p, 0);
      Decref(s'.(role := s.role[t := Plain]), t)
    else s
  }

  /** One round of the outer loop of env_free: unmap the pages of one table, then free the table. */
  function DropRound(s: State, d: nat, p: nat): (r: State)
    requires d < |s.mem| && p < NENTRIES
    ensures |r.mem| == |s.mem|
  {
    if HasTable(s, d, p) then DropTable(DropPages(s, d, p, 0), d, p) else s
  }

  /** The outer loop of env_free, from directory entry p on. */
  function DropTables(s: State, d: nat, p: nat): (r: State)
    requires d < |s.mem| && p <= UTOPX
    ensures |r.mem| == |s.mem|
    decreases UTOPX - p
  {
    if p == UTOPX then s else DropTables(DropRound(s, d, p), d, p + 1)
  }

  /** The last page_decref, of the directory itself. */
  function DropDir(s: State, d: nat): State
    requires d < |s.mem|
  {
    if |s.ref| == |s.role| == |s.mem| && s.ref[d] > 0 then Decref(s.(role := s.role[d := Plain]), d) else s
  }

  /** Everything env_free does to memory. */
  function DropSpace(s: State, d: nat): State
    requires d < |s.mem|
  {
    DropDir(DropTables(s, d, 0), d)
  }

  /** Does the address space of directory d hold the reference at this site? */
  predicate Owns(s: State, d: nat, y: Site) {
    match y
    case Mark(_) => false
    case Root(r) => r == d
    case At(t, i) => t == d || OwnTable(s, d, t)
  }

  predicate OwnTable(s: State, d: nat, t: nat) {
    t < |s.role| && s.role[t].UserTable? && s.role[t].dir == d
  }

  /** The references to f that do not belong to the address space of d. */
  ghost function Foreign(s: State, d: nat, f: nat): set<Site>
    requires Shape(s)
  {
    set y | y in Sites(s, f) && !Owns(s, d, y)
  }

  /** s is s0 with part of the address space of d taken away. */
  ghost predicate Shrunk(s0: State, s: State, x: multiset<nat>, d: nat) {
    && Consistent(s0, x) && Consistent(s, x)
    && |s.mem| == |s0.mem| && s.kern == s0.kern && s.reserved == s0.reserved && s.held == s0.held
    && d < |s.mem| && s0.role[d] == EnvDir && s.role[d] == EnvDir
    && (forall k: nat {:trigger OwnTable(s0, d, k)} :: k < |s.mem| && k != d && !OwnTable(s0, d, k) ==>
      s.mem[k] == s0.mem[k] && s.role[k] == s0.role[k])
    && (forall k: nat {:trigger OwnTable(s0, d, k)} :: k < |s.mem| && OwnTable(s0, d, k) ==>
      s.role[k] == s0.role[k] || s.role[k] == Plain)
    && (forall g: nat {:trigger Foreign(s, d, g)} :: Foreign(s, d, g) == Foreign(s0, d, g))
  }

  lemma DropPageShrinks(s0: State, s: State, x: multiset<nat>, d: nat, p: nat, q: nat)
    requires Shrunk(s0, s, x, d) && p < UTOPX && q < NENTRIES && HasTable(s, d, p)
    ensures var s' := DropPage(s, d, p, q);
      && Shrunk(s0, s', x, d)
      && TableOf(s, d, p) < |s.mem| && TableOf(s, d, p) != d
      && s'.mem[d] == s.mem[d] && s'.role == s.role
      && s'.mem[TableOf(s, d, p)] == s.mem[TableOf(s, d, p)][q := s'.mem[TableOf(s, d, p)][q]]
      && !Present(s'.mem[TableOf(s, d, p)][q])
  {
    RemoveKeeps(s, x, d, p, q);
    UserTableOf(s, x, d, p);
    var s' := Remove(s, d, p, q);
    assert OwnTable(s, d, TableOf(s, d, p));
    assert OwnTable(s0, d, TableOf(s, d, p));
    forall g: nat ensures Foreign(s', d, g) == Foreign(s0, d, g) {
      assert Foreign(s, d, g) == Foreign(s0, d, g);
      assert Foreign(s', d, g) == Foreign(s, d, g);
    }
  }

  lemma {:induction false} DropPagesShrinks(s0: State, s: State, x: multiset<nat>, d: nat, p: nat, q: nat)
    requires Shrunk(s0, s, x, d) && p < UTOPX && q <= NENTRIES && HasTable(s, d, p)
    ensures var s', t := DropPages(s, d, p, q), TableOf(s, d, p);
      && Shrunk(s0, s', x, d)
      && t < |s.mem| && s'.mem[d] == s.mem[d] && s'.role == s.role
      && (forall j: nat :: j < q ==> s'.mem[t][j] == s.mem[t][j])
      && (forall j: nat :: q <= j < NENTRIES ==> !Present(s'.mem[t][j]))
    decreases NENTRIES - q
  {
    UserTableOf(s, x, d, p);
    if q < NENTRIES {
      DropPageShrinks(s0, s, x, d, p, q);
      DropPagesShrinks(s0, DropPage(s, d, p, q), x, d, p, q + 1);
    }
  }

  lemma DropTableShrinks(s0: State, s: State, x: multiset<nat>, d: nat, p: nat)
    requires Shrunk(s0, s, x, d) && p < UTOPX && HasTable(s, d, p)
    requires TableOf(s, d, p) < |s.mem|
    requires forall q: nat :: q < NENTRIES ==> !Present(s.mem[TableOf(s, d, p)][q])
    ensures var s' := DropTable(s, d, p);
      && Shrunk(s0, s', x, d)
      && s'.mem[d] == s.mem[d][p := 0]
  {
    UserTableOf(s, x, d, p);
    var t := TableOf(s, d, p);
    var s1 := Relink(s, d, p, 0, t, Plain);
    UnlinkTableKeeps(s, x, d, p, s1);
    DecrefKeeps(s1, x, t);
    assert DropTable(s, d, p) == Decref(s1, t);
    assert OwnTable(s, d, t) && OwnTable(s0, d, t);
    var s' := Decref(s1, t);
    forall g: nat ensures Foreign(s', d, g) == Foreign(s0, d, g) {
      SitesAgree(s1, s', g);
      assert Foreign(s, d, g) == Foreign(s0, d, g);
      DropTableForeign(s, x, d, p, s1, g);
    }
  }

  /** Unhooking an empty table of d takes nothing from what other address spaces refer to. */
  lemma DropTableForeign(s: State, x: multiset<nat>, d: nat, p: nat, s1: State, g: nat)
    requires Consistent(s, x) && d < |s.mem| && p < UTOPX && s.role[d] == EnvDir && HasTable(s, d, p)
    requires TableOf(s, d, p) < |s.mem| && OwnTable(s, d, TableOf(s, d, p))
    requires s1 == Relink(s, d, p, 0, TableOf(s, d, p), Plain)
    requires Shape(s1)
    requires TableOf(s, d, p) != g ==> Sites(s1, g) == Sites(s, g)
    requires Sites(s, TableOf(s, d, p)) == Sites(s1, TableOf(s, d, p)) + {At(d, p)}
    requires forall q: nat :: q < NENTRIES ==> !Present(s.mem[TableOf(s, d, p)][q])
    ensures Foreign(s1, d, g) == Foreign(s, d, g)
  {
    forall y | y in Sites(s, g) ensures Owns(s1, d, y) == Owns(s, d, y) {
    }
    forall y | y in Sites(s1, g) ensures y in Sites(s, g) {
    }
  }

  lemma DropRoundShrinks(s0: State, s: State, x: multiset<nat>, d: nat, p: nat)
    requires Shrunk(s0, s, x, d) && p < UTOPX
    ensures var s' := DropRound(s, d, p);
      && Shrunk(s0, s', x, d) && !Present(s'.mem[d][p])
      && s'.mem[d] == s.mem[d][p := s'.mem[d][p]]
  {
    if HasTable(s, d, p) {
      DropPagesShrinks(s0, s, x, d, p, 0);
      DropTableShrinks(s0, DropPages(s, d, p, 0), x, d, p);
    }
  }

  /** The directory entries from p up to UTOP are not present, and those below p are those of `was`. */
  ghost predicate ClearedFrom(dir: Frame, was: Frame, p: nat) {
    && (forall j: nat {:trigger dir[j]} :: j < p && j < NENTRIES ==> dir[j] == was[j])
    && (forall j: nat {:trigger dir[j]} :: p <= j < UTOPX ==> !Present(dir[j]))
  }

  lemma {:induction false} DropTablesShrinks(s0: State, s: State, x: multiset<nat>, d: nat, p: nat)
    requires Shrunk(s0, s, x, d) && p <= UTOPX
    ensures Shrunk(s0, DropTables(s, d, p), x, d)
    ensures ClearedFrom(DropTables(s, d, p).mem[d], s.mem[d], p)
    decreases UTOPX - p
  {
    if p < UTOPX {
      DropRoundShrinks(s0, s, x, d, p);
      DropTablesShrinks(s0, DropRound(s, d, p), x, d, p + 1);
    }
  }

  /** Ceasing to treat an emptied directory as one: only the reference that pins it goes. */
  lemma UnrootSites(s: State, d: nat, s1: State)
    requires Shape(s) && d < |s.mem| && s.role[d] == EnvDir && s1 == s.(role := s.role[d := Plain])
    requires forall j: nat {:trigger HasTable(s, d, j)} :: j < UTOPX ==> !HasTable(s, d, j)
    ensures Sites(s, d) == Sites(s1, d) + {Root(d)} && |Sites(s, d)| == |Sites(s1, d)| + 1
    ensures forall g: nat :: g != d ==> Sites(s1, g) == Sites(s, g)
  {
    forall j: nat | j < UTOPX ensures !Present(s.mem[d][j]) {
      assert !HasTable(s, d, j);
    }
    SitesGain(s1, s, d, Root(d));
    forall g: nat | g != d ensures Sites(s1, g) == Sites(s, g) {
      SitesAgree(s, s1, g);
    }
  }

  lemma UnrootKeeps(s: State, x: multiset<nat>, d: nat, s1: State)
    requires Consistent(s, x) && d < |s.mem| && s.role[d] == EnvDir && s1 == s.(role := s.role[d := Plain])
    requires forall j: nat {:trigger HasTable(s, d, j)} :: j < UTOPX ==> !HasTable(s, d, j)
    ensures Consistent(s1, x + multiset{d})
  {
    KernIsDir(s, x);
    assert RoleOk(s, d);
    forall k: nat, i: nat | k < |s.mem| && i < NENTRIES ensures WordOk(s1, k, i) {
      assert WordOk(s, k, i);
    }
    UnrootSites(s, d, s1);
    NoOwnTables(s, x, d);
    forall k: nat | k < |s.mem| ensures RoleOk(s1, k) && CountOk(s1, x + multiset{d}, k) {
      assert RoleOk(s, k) && CountOk(s, x, k);
      assert !OwnTable(s, d, k);
    }
  }

  /** Once its tables are gone, dropping the pinned directory itself leaves no reference of the space. */
  lemma DropDirKeeps(s: State, x: multiset<nat>, d: nat)
    requires Consistent(s, x) && d < |s.mem| && s.role[d] == EnvDir
    requires forall j: nat {:trigger HasTable(s, d, j)} :: j < UTOPX ==> !HasTable(s, d, j)
    ensures var s' := DropDir(s, d);
      && Consistent(s', x)
      && s'.mem == s.mem && s'.role == s.role[d := Plain] && s'.held == s.held
      && s'.kern == s.kern && s'.reserved == s.reserved
      && (forall g: nat :: Sites(s', g) == Foreign(s, d, g))
  {
    var s1 := s.(role := s.role[d := Plain]);
    UnrootKeeps(s, x, d, s1);
    DecrefKeeps(s1, x, d);
    UnrootSites(s, d, s1);
    NoOwnTables(s, x, d);
    assert d !in s.held by {
      assert Root(d) in Sites(s, d);
      assert CountOk(s, x, d);
    }
    forall g: nat ensures Sites(DropDir(s, d), g) == Foreign(s, d, g) {
      SitesAgree(s1, DropDir(s, d), g);
      ForeignIsRest(s, d, s1, g);
    }
  }

  lemma ForeignIsRest(s: State, d: nat, s1: State, g: nat)
    requires Shape(s) && d < |s.mem| && s.role[d] == EnvDir && s1 == s.(role := s.role[d := Plain])
    requires forall k: nat {:trigger OwnTable(s, d, k)} :: k < |s.mem| ==> !OwnTable(s, d, k)
    requires forall j: nat {:trigger HasTable(s, d, j)} :: j < UTOPX ==> !HasTable(s, d, j)
    ensures Sites(s1, g) == Foreign(s, d, g)
  {
    forall j: nat | j < UTOPX ensures !Present(s.mem[d][j]) {
      assert !HasTable(s, d, j);
    }
  }

  lemma NoOwnTables(s: State, x: multiset<nat>, d: nat)
    requires Consistent(s, x) && d < |s.mem|
    requires forall j: nat {:trigger HasTable(s, d, j)} :: j < UTOPX ==> !HasTable(s, d, j)
    ensures forall k: nat {:trigger OwnTable(s, d, k)} :: k < |s.mem| ==> !OwnTable(s, d, k)
  {
    forall k: nat {:trigger OwnTable(s, d, k)} | k < |s.mem| ensures !OwnTable(s, d, k) {
      if OwnTable(s, d, k) {
        OwnHasTable(s, x, d, k);
        assert false;
      }
    }
  }

  lemma OwnHasTable(s: State, x: multiset<nat>, d: nat, k: nat)
    requires Consistent(s, x) && d < |s.mem| && k < |s.mem| && OwnTable(s, d, k)
    ensures s.role[k].idx < UTOPX && HasTable(s, d, s.role[k].idx)
  {
    assert RoleOk(s, k);
  }

  /** env_free takes exactly the references of the address space away: every other reference, every frame
      outside the space and every held frame stays. */
  lemma DropSpaceSites(s: State, x: multiset<nat>, d: nat)
    requires Consistent(s, x) && d < |s.mem| && s.role[d] == EnvDir
    ensures var s' := DropSpace(s, d);
      && Consistent(s', x) && |s'.mem| == |s.mem|
      && s'.held == s.held && s'.kern == s.kern && s'.reserved == s.reserved
      && (forall g: nat {:trigger Sites(s', g)} :: Sites(s', g) == Foreign(s, d, g))
      && (forall k: nat {:trigger OwnTable(s, d, k)} :: k < |s.mem| && k != d && !OwnTable(s, d, k) ==>
          s'.mem[k] == s.mem[k] && s'.role[k] == s.role[k])
      && (forall k: nat {:trigger OwnTable(s, d, k)} :: k < |s.mem| && (k == d || OwnTable(s, d, k)) ==>
          s'.role[k] == Plain)
  {
    assert Shrunk(s, s, x, d);
    DropTablesShrinks(s, s, x, d, 0);
    var s1 := DropTables(s, d, 0);
    assert forall j: nat {:trigger HasTable(s1, d, j)} :: j < UTOPX ==> !HasTable(s1, d, j);
    DropDirKeeps(s1, x, d);
    NoOwnTables(s1, x, d);
    forall g: nat {:trigger Sites(DropSpace(s, d), g)} ensures Sites(DropSpace(s, d), g) == Foreign(s, d, g) {
      assert Foreign(s1, d, g) == Foreign(s, d, g);
    }
    forall k: nat {:trigger OwnTable(s, d, k)} | k < |s.mem| && OwnTable(s, d, k)
      ensures s1.role[k] == Plain
    {
      assert !OwnTable(s1, d, k);
    }
  }

  /** env_free reclaims exactly: each frame's count drops by the references the address space held, and the free
      list gains exactly the frames whose only references came from it. */
  lemma EnvFreeReclaims(s: State, x: multiset<nat>, d: nat, f: nat)
    requires Consistent(s, x) && d < |s.mem| && s.role[d] == EnvDir && f < |s.mem|
    ensures Consistent(DropSpace(s, d), x) && |DropSpace(s, d).mem| == |s.mem|
    ensures DropSpace(s, d).ref[f] == s.ref[f] - |Sites(s, f) - Foreign(s, d, f)|
    ensures f in DropSpace(s, d).free <==>
            f in s.free || (Sites(s, f) != {} && Foreign(s, d, f) == {} && x[f] == 0)
  {
    DropSpaceSites(s, x, d);
    var s' := DropSpace(s, d);
    assert CountOk(s, x, f) && CountOk(s', x, f);
    assert Sites(s', f) == Foreign(s, d, f);
    assert Foreign(s, d, f) <= Sites(s, f);
    assert Sites(s, f) == Foreign(s, d, f) + (Sites(s, f) - Foreign(s, d, f));
  }

  /** env_free leaves every translation of every other address space, and of the kernel, as it was. */
  lemma EnvFreeMap(s: State, x: multiset<nat>, d: nat, d': nat, p: nat, q: nat)
    requires Consistent(s, x) && d < |s.mem| && s.role[d] == EnvDir
    requires IsPage(s, d', p, q) && d' != d
    ensures IsPage(DropSpace(s, d), d', p, q)
    ensures Mapped(DropSpace(s, d), d', p, q) == Mapped(s, d', p, q)
  {
    DropSpaceSites(s, x, d);
    assert !OwnTable(s, d, d');
    if HasTable(s, d', p) {
      TableKind(s, x, d', p, q);
      assert !OwnTable(s, d, TableOf(s, d', p));
    }
  }
}
