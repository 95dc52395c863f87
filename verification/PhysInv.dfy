/** Every primitive change that kern/pmap.c makes keeps the global invariant `Phys.Consistent`.
    A reference in transit (counted but not stored yet, or no longer stored but still counted) sits in the
    multiset argument of the invariant. */
module PhysInv {
  import opened Mmu
  import opened Phys

  // ----- counting -----

  lemma SitesAgree(s: State, s': State, f: nat)
    requires Shape(s) && Shape(s') && |s.mem| == |s'.mem|
    requires forall y {:trigger Refers(s', y, f)} :: InRange(y, |s.mem|) ==> Refers(s, y, f) == Refers(s', y, f)
    ensures Sites(s, f) == Sites(s', f)
  {
  }

  lemma SitesGain(s: State, s': State, f: nat, z: Site)
    requires Shape(s) && Shape(s') && |s.mem| == |s'.mem| && InRange(z, |s.mem|)
    requires !Refers(s, z, f) && Refers(s', z, f)
    requires forall y {:trigger Refers(s', y, f)} :: InRange(y, |s.mem|) && y != z ==>
      Refers(s, y, f) == Refers(s', y, f)
    ensures Sites(s', f) == Sites(s, f) + {z}
    ensures |Sites(s', f)| == |Sites(s, f)| + 1
  {
    assert Sites(s', f) == Sites(s, f) + {z};
  }

  /** The directory entry that a table hangs off refers to it. */
  lemma TableHasSite(s: State, x: multiset<nat>, f: nat)
    requires Consistent(s, x) && f < |s.mem| && (s.role[f].UserTable? || s.role[f].KernTable?)
    ensures Sites(s, f) != {}
  {
    assert RoleOk(s, f) && RoleOk(s, s.kern);
    var y := if s.role[f].UserTable? then At(s.role[f].dir, s.role[f].idx) else At(s.kern, s.role[f].idx);
    assert s.mem[y.t][y.i] == f * 4096 + 7;
    assert y in Sites(s, f);
  }

  /** Every frame in use has a site. */
  lemma UsedHasSite(s: State, x: multiset<nat>, f: nat)
    requires Consistent(s, x) && f < |s.mem|
    ensures f in s.reserved || s.role[f] != Plain ==> Sites(s, f) != {}
  {
    assert RoleOk(s, f);
    if f in s.reserved {
      assert Mark(f) in Sites(s, f);
    } else if s.role[f] == EnvDir {
      assert Root(f) in Sites(s, f);
    } else if s.role[f].UserTable? || s.role[f].KernTable? {
      TableHasSite(s, x, f);
    }
  }

  /** A frame of count zero is used for nothing. */
  lemma ZeroIsUnused(s: State, x: multiset<nat>, f: nat)
    requires Consistent(s, x) && f < |s.mem| && s.ref[f] == 0
    ensures Sites(s, f) == {} && x[f] == 0
    ensures s.role[f] == Plain && f !in s.reserved && f != s.kern
  {
    assert CountOk(s, x, f);
    KernIsDir(s, x);
    UsedHasSite(s, x, f);
  }

  lemma KernIsDir(s: State, x: multiset<nat>)
    requires Consistent(s, x)
    ensures s.role[s.kern] == KernDir && s.kern in s.reserved
  {
    assert RoleOk(s, s.kern);
  }

  // ----- primitive changes -----

  /** Writing a frame that is not a table changes nothing the invariant sees. */
  lemma WritePlainKeeps(s: State, x: multiset<nat>, t: nat, c: Frame, s': State)
    requires Consistent(s, x) && t < |s.mem| && s.role[t] == Plain
    requires s' == s.(mem := s.mem[t := c])
    ensures Consistent(s', x)
  {
    KernIsDir(s, x);
    forall k: nat, i: nat | k < |s.mem| && i < NENTRIES ensures WordOk(s', k, i) {
      assert WordOk(s, k, i);
    }
    forall k: nat | k < |s.mem| ensures RoleOk(s', k) && CountOk(s', x, k) {
      assert RoleOk(s, k) && CountOk(s, x, k);
      SitesAgree(s, s', k);
    }
  }

  lemma AllocKeeps(s: State, x: multiset<nat>, zero: bool)
    requires Consistent(s, x) && s.free != []
    ensures s.free[0] < |s.mem|
    ensures var f, s' := s.free[0], Alloc(s, zero);
      && Consistent(s', x) && f in s'.held && f !in s'.free && s'.role[f] == Plain
      && s'.ref[f] == 0 && Sites(s', f) == {}
      && (zero ==> s'.mem[f] == Zeros())
  {
    var f := s.free[0];
    assert f in s.free;
    ZeroIsUnused(s, x, f);
    var s1 := s.(free := s.free[1..], held := s.held + {f});
    forall k: nat, i: nat | k < |s.mem| && i < NENTRIES ensures WordOk(s1, k, i) {
      assert WordOk(s, k, i);
    }
    forall k: nat | k < |s.mem| ensures RoleOk(s1, k) && CountOk(s1, x, k) {
      assert RoleOk(s, k) && CountOk(s, x, k);
      SitesAgree(s, s1, k);
    }
    assert FreeOk(s1) by {
      forall g | g in s.free[1..] ensures g in s.free && g != f {
        var j :| 0 <= j < |s.free[1..]| && s.free[1..][j] == g;
        assert s.free[j + 1] == g;
      }
      forall g | 0 <= g < |s.mem| && s.ref[g] == 0 ensures g in s1.free || g in s1.held {
        if g in s.free && g != f {
          var j :| 0 <= j < |s.free| && s.free[j] == g;
          assert s1.free[j - 1] == g;
        }
      }
    }
    SitesAgree(s, s1, f);
    if zero {
      WritePlainKeeps(s1, x, f, Zeros(), Alloc(s, zero));
      ZeroIsUnused(Alloc(s, zero), x, f);
    }
  }

  /** page_free on a frame that its caller holds. */
  lemma FreeKeeps(s: State, x: multiset<nat>, f: nat)
    requires Consistent(s, x) && f in s.held
    ensures Consistent(Free(s, f), x)
  {
    var s' := Free(s, f);
    forall k: nat, i: nat | k < |s.mem| && i < NENTRIES ensures WordOk(s', k, i) {
      assert WordOk(s, k, i);
    }
    forall k: nat | k < |s.mem| ensures RoleOk(s', k) && CountOk(s', x, k) {
      assert RoleOk(s, k) && CountOk(s, x, k);
      SitesAgree(s, s', k);
    }
  }

  lemma IncrefKeeps(s: State, x: multiset<nat>, f: nat)
    requires Consistent(s, x) && f < |s.mem| && f !in s.free && s.ref[f] < 0xFFFF
    ensures Consistent(Incref(s, f), x + multiset{f})
  {
    var s' := Incref(s, f);
    forall k: nat, i: nat | k < |s.mem| && i < NENTRIES ensures WordOk(s', k, i) {
      assert WordOk(s, k, i);
    }
    forall k: nat | k < |s.mem| ensures RoleOk(s', k) && CountOk(s', x + multiset{f}, k) {
      assert RoleOk(s, k) && CountOk(s, x, k);
      SitesAgree(s, s', k);
    }
  }

  lemma DecrefKeeps(s: State, x: multiset<nat>, f: nat)
    requires Consistent(s, x + multiset{f}) && f < |s.mem|
    ensures s.ref[f] > 0 && Consistent(Decref(s, f), x)
  {
    assert CountOk(s, x + multiset{f}, f);
    var s' := Decref(s, f);
    forall k: nat, i: nat | k < |s.mem| && i < NENTRIES ensures WordOk(s', k, i) {
      assert WordOk(s, k, i);
    }
    forall k: nat | k < |s.mem| ensures RoleOk(s', k) && CountOk(s', x, k) {
      assert RoleOk(s, k) && CountOk(s, x + multiset{f}, k);
      SitesAgree(s, s', k);
    }
  }

  /** Storing a counted reference to f in an empty entry of a user table. */
  lemma StorePteKeeps(s: State, x: multiset<nat>, t: nat, q: nat, f: nat, w: Word)
    requires Consistent(s, x + multiset{f}) && f < |s.mem| && s.role[f] == Plain
    requires t < |s.mem| && q < NENTRIES && s.role[t].UserTable? && !Present(s.mem[t][q])
    requires Present(w) && FrameOf(w) == f
    ensures Consistent(SetWord(s, t, q, w), x)
    ensures Sites(SetWord(s, t, q, w), f) == Sites(s, f) + {At(t, q)}
    ensures forall g: nat :: g != f ==> Sites(SetWord(s, t, q, w), g) == Sites(s, g)
  {
    var s' := SetWord(s, t, q, w);
    var y := x + multiset{f};
    KernIsDir(s, y);
    forall k: nat, i: nat | k < |s.mem| && i < NENTRIES ensures WordOk(s', k, i) {
      assert WordOk(s, k, i);
    }
    SitesGain(s, s', f, At(t, q));
    forall g: nat | g != f ensures Sites(s', g) == Sites(s, g) {
      SitesAgree(s, s', g);
    }
    forall k: nat | k < |s.mem| ensures RoleOk(s', k) && CountOk(s', x, k) {
      assert RoleOk(s, k) && CountOk(s, y, k);
    }
  }

  lemma ClearPteWords(s: State, x: multiset<nat>, t: nat, q: nat)
    requires Consistent(s, x)
    requires t < |s.mem| && q < NENTRIES && s.role[t].UserTable? && Present(s.mem[t][q])
    ensures WordsOk(SetWord(s, t, q, 0)) && RolesOk(SetWord(s, t, q, 0))
  {
    var s' := SetWord(s, t, q, 0);
    KernIsDir(s, x);
    forall k: nat, i: nat | k < |s.mem| && i < NENTRIES ensures WordOk(s', k, i) {
      assert WordOk(s, k, i);
    }
    forall k: nat | k < |s.mem| ensures RoleOk(s', k) {
      assert RoleOk(s, k);
    }
  }

  lemma ClearPteSites(s: State, x: multiset<nat>, t: nat, q: nat)
    requires Consistent(s, x)
    requires t < |s.mem| && q < NENTRIES && s.role[t].UserTable? && Present(s.mem[t][q])
    ensures var f, s' := FrameOf(s.mem[t][q]), SetWord(s, t, q, 0);
      && f < |s.mem| && s.role[f] == Plain && Shape(s')
      && Sites(s', f) == Sites(s, f) - {At(t, q)} && At(t, q) in Sites(s, f)
      && |Sites(s, f)| == |Sites(s', f)| + 1
      && (forall g: nat :: g != f ==> Sites(s', g) == Sites(s, g))
  {
    assert WordOk(s, t, q);
    var f, s' := FrameOf(s.mem[t][q]), SetWord(s, t, q, 0);
    SitesGain(s', s, f, At(t, q));
    hide WordsOk, RolesOk, CountsOk, FreeOk;
    forall g: nat | g != f ensures Sites(s', g) == Sites(s, g) {
      SitesAgree(s, s', g);
    }
  }

  /** Clearing a present entry of a user table: the reference is still counted. */
  lemma ClearPteKeeps(s: State, x: multiset<nat>, t: nat, q: nat)
    requires Consistent(s, x)
    requires t < |s.mem| && q < NENTRIES && s.role[t].UserTable? && Present(s.mem[t][q])
    ensures var f, s' := FrameOf(s.mem[t][q]), SetWord(s, t, q, 0);
      && f < |s.mem| && s.role[f] == Plain && s.ref[f] > 0
      && Consistent(s', x + multiset{f})
      && Sites(s', f) == Sites(s, f) - {At(t, q)} && At(t, q) in Sites(s, f)
      && (forall g: nat :: g != f ==> Sites(s', g) == Sites(s, g))
  {
    var f, s' := FrameOf(s.mem[t][q]), SetWord(s, t, q, 0);
    hide Sites, WordsOk, RolesOk;
    ClearPteWords(s, x, t, q);
    ClearPteSites(s, x, t, q);
    assert CountOk(s, x, f);
    forall k: nat | k < |s.mem| ensures CountOk(s', x + multiset{f}, k) {
      assert CountOk(s, x, k);
    }
  }

  /** What `LinkTable` and `UnlinkTable` make of a state: entry p of directory d set to w, frame t given role r. */
  ghost function Relink(s: State, d: nat, p: nat, w: Word, t: nat, r: Role): State
    requires d < |s.mem| && p < NENTRIES && t < |s.role|
  {
    s.(mem := s.mem[d := s.mem[d][p := w]], role := s.role[t := r])
  }

  ghost predicate NoEnvDirs(s: State) {
    forall t :: 0 <= t < |s.role| ==> !s.role[t].EnvDir?
  }

  function TableRole(d: nat, p: nat): Role {
    if p < UTOPX then UserTable(d, p) else KernTable(p)
  }

  /** A directory entry that a table may be hung off: a user entry of any directory, or, before there are
      environments, a kernel entry of the kernel's directory. */
  ghost predicate CanHang(s: State, d: nat, p: nat) {
    && d < |s.mem| == |s.role| && p < NENTRIES && IsDir(s.role[d])
    && (p < UTOPX || (d == s.kern && p != UVPTX && NoEnvDirs(s)))
  }

  lemma LinkWords(s: State, x: multiset<nat>, d: nat, p: nat, t: nat, s': State)
    requires Consistent(s, x) && CanHang(s, d, p) && !HasTable(s, d, p)
    requires t < |s.mem| && s.role[t] == Plain && Sites(s, t) == {} && s.mem[t] == Zeros()
    requires s' == Relink(s, d, p, t * 4096 + 7, t, TableRole(d, p))
    ensures Shape(s') && WordsOk(s')
  {
    KernIsDir(s, x);
    forall k: nat, i: nat | k < |s.mem| && i < NENTRIES ensures WordOk(s', k, i) {
      assert WordOk(s, k, i);
      assert At(k, i) !in Sites(s, t);
    }
  }

  lemma LinkRoles(s: State, x: multiset<nat>, d: nat, p: nat, t: nat, s': State)
    requires Consistent(s, x) && CanHang(s, d, p) && !HasTable(s, d, p)
    requires t < |s.mem| && s.role[t] == Plain && t !in s.reserved
    requires s' == Relink(s, d, p, t * 4096 + 7, t, TableRole(d, p))
    ensures Shape(s') && RolesOk(s')
  {
    KernIsDir(s, x);
    assert RoleOk(s, t);
    forall k: nat | k < |s.mem| ensures RoleOk(s', k) {
      assert RoleOk(s, k);
    }
  }

  lemma LinkSites(s: State, d: nat, p: nat, t: nat, s': State)
    requires Shape(s) && CanHang(s, d, p) && !HasTable(s, d, p)
    requires t < |s.mem| && s.role[t] == Plain && Sites(s, t) == {} && s.mem[t] == Zeros()
    requires s' == Relink(s, d, p, t * 4096 + 7, t, TableRole(d, p))
    ensures Sites(s', t) == {At(d, p)} && |Sites(s', t)| == 1
    ensures forall g: nat :: g != t ==> Sites(s', g) == Sites(s, g)
  {
    SitesGain(s, s', t, At(d, p));
    forall g: nat | g != t ensures Sites(s', g) == Sites(s, g) {
      SitesAgree(s, s', g);
    }
  }

  /** Hanging a zeroed, unreferenced frame t off an empty directory entry as a page table. */
  lemma LinkTableKeeps(s: State, x: multiset<nat>, d: nat, p: nat, t: nat, s': State)
    requires Consistent(s, x + multiset{t}) && CanHang(s, d, p) && !HasTable(s, d, p)
    requires t < |s.mem| && s.role[t] == Plain && t !in s.reserved && Sites(s, t) == {} && s.mem[t] == Zeros()
    requires s' == Relink(s, d, p, t * 4096 + 7, t, TableRole(d, p))
    ensures Consistent(s', x)
    ensures Sites(s', t) == {At(d, p)}
    ensures forall g: nat :: g != t ==> Sites(s', g) == Sites(s, g)
  {
    LinkWords(s, x + multiset{t}, d, p, t, s');
    LinkRoles(s, x + multiset{t}, d, p, t, s');
    LinkSites(s, d, p, t, s');
    hide Sites, Shape, WordsOk, RolesOk, CanHang, HasTable, TableRole;
    forall k: nat | k < |s.mem| ensures CountOk(s', x, k) {
      assert CountOk(s, x + multiset{t}, k);
    }
  }

  lemma UnlinkWords(s: State, x: multiset<nat>, d: nat, p: nat, s': State)
    requires Consistent(s, x)
    requires d < |s.mem| && p < UTOPX && IsDir(s.role[d]) && HasTable(s, d, p) && TableOf(s, d, p) < |s.mem|
    requires s' == Relink(s, d, p, 0, TableOf(s, d, p), Plain)
    ensures Shape(s') && WordsOk(s') && RolesOk(s') && s.role[TableOf(s, d, p)] == UserTable(d, p)
  {
    KernIsDir(s, x);
    assert WordOk(s, d, p) && RoleOk(s, TableOf(s, d, p));
    forall k: nat, i: nat | k < |s.mem| && i < NENTRIES ensures WordOk(s', k, i) {
      assert WordOk(s, k, i);
    }
    forall k: nat | k < |s.mem| ensures RoleOk(s', k) {
      assert RoleOk(s, k);
    }
  }

  lemma UnlinkSites(s: State, d: nat, p: nat, t: nat, s': State)
    requires Shape(s) && d < |s.mem| && t < |s.mem| && d != t && p < UTOPX && IsDir(s.role[d])
    requires Present(s.mem[d][p]) && FrameOf(s.mem[d][p]) == t && s.role[t].UserTable?
    requires forall q: nat :: q < NENTRIES ==> !Present(s.mem[t][q])
    requires s' == Relink(s, d, p, 0, t, Plain)
    ensures Sites(s, t) == Sites(s', t) + {At(d, p)} && |Sites(s, t)| == |Sites(s', t)| + 1
    ensures At(d, p) !in Sites(s', t)
    ensures forall g: nat :: g != t ==> Sites(s', g) == Sites(s, g)
  {
    SitesGain(s', s, t, At(d, p));
    forall g: nat | g != t ensures Sites(s', g) == Sites(s, g) {
      SitesAgree(s, s', g);
    }
  }

  /** Unhooking an empty user table from its directory: the frame is still counted once. */
  lemma UnlinkTableKeeps(s: State, x: multiset<nat>, d: nat, p: nat, s': State)
    requires Consistent(s, x)
    requires d < |s.mem| && p < UTOPX && IsDir(s.role[d]) && HasTable(s, d, p) && TableOf(s, d, p) < |s.mem|
    requires forall q: nat :: q < NENTRIES ==> !Present(s.mem[TableOf(s, d, p)][q])
    requires s' == Relink(s, d, p, 0, TableOf(s, d, p), Plain)
    ensures Consistent(s', x + multiset{TableOf(s, d, p)})
    ensures Sites(s, TableOf(s, d, p)) == Sites(s', TableOf(s, d, p)) + {At(d, p)}
    ensures At(d, p) !in Sites(s', TableOf(s, d, p))
    ensures forall g: nat :: g != TableOf(s, d, p) ==> Sites(s', g) == Sites(s, g)
  {
    var t := TableOf(s, d, p);
    UnlinkWords(s, x, d, p, s');
    UnlinkSites(s, d, p, t, s');
    forall k: nat | k < |s.mem| ensures CountOk(s', x + multiset{t}, k) {
      assert CountOk(s, x, k);
    }
  }
}
