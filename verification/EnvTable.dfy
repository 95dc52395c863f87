/** kern/env.c as it runs: envs[], env_free_list, curenv and the loaded directory, updated in place over the
    physical memory of `PhysMem.Pages`. */
module EnvTable {
  import opened Wrappers
  import opened Arith
  import opened Mmu
  import opened Phys
  import opened PhysInv
  import opened PageOps
  import opened FlatMap
  import opened FreeList
  import opened PhysMem
  import opened AddrSpace
  import opened EnvIds
  import opened Envs
  import opened Regions
  import opened Loader
  import opened EnvLoad

  lemma PageAddress(p: nat, q: nat)
    requires p < NENTRIES && q < NENTRIES
    ensures 0 <= PGADDR(p, q, 0) < 0x1_0000_0000
    ensures PDX(PGADDR(p, q, 0)) == p && PTX(PGADDR(p, q, 0)) == q && PGOFF(PGADDR(p, q, 0)) == 0
  {
  }

  /** The loop of env_setup_vm: the kernel's directory entries from UTOP up. */
  method CopyKernelHalf(pm: Pages, d: nat)
    requires pm.Valid() && d < pm.mem.Length && d != pm.kern && pm.mem[d] == Zeros()
    modifies pm.mem
    ensures pm.Valid()
    ensures pm.Abs() == old(pm.Abs()).(mem := old(pm.mem[..])[d := pm.mem[d]])
    ensures forall k :: 0 <= k < NENTRIES ==> pm.mem[d][k] == if UTOPX <= k then pm.mem[pm.kern][k] else 0
  {
    ghost var mem0 := pm.mem[..];
    var i := UTOPX;
    while i < NENTRIES
      invariant UTOPX <= i <= NENTRIES
      invariant pm.Valid() && pm.mem[..] == mem0[d := pm.mem[d]]
      invariant forall k :: 0 <= k < NENTRIES ==> pm.mem[d][k] == if UTOPX <= k < i then mem0[pm.kern][k] else 0
    {
      pm.mem[d] := pm.mem[d][i := pm.mem[pm.kern][i]];
      i := i + 1;
    }
  }

  /** The zeroed frame d becomes an environment's directory. */
  method FillDirectory(pm: Pages, d: nat)
    requires pm.Valid() && d < pm.mem.Length && d != pm.kern && pm.mem[d] == Zeros()
    modifies pm`role, pm.mem
    ensures pm.Valid()
    ensures pm.Abs() == WithDir(old(pm.Abs()), d)
  {
    ghost var s := pm.Abs();
    hide ListRep;
    CopyKernelHalf(pm, d);
    pm.mem[d] := pm.mem[d][UVPTX := d * 4096 + 5];
    pm.role := pm.role[d := EnvDir];
    assert pm.mem[d] == DirWords(s, d);
  }

  /** env_setup_vm: -4 is -E_NO_MEM. The caller stores env_pgdir. */
  method EnvSetupVm(pm: Pages) returns (r: int, d: nat)
    requires pm.Valid() && Consistent(pm.Abs(), multiset{})
    modifies pm`head, pm`free, pm`held, pm`role, pm.link, pm.mem, pm.refs
    ensures pm.Valid()
    ensures old(pm.Abs()).free == [] ==> r == -4 && pm.Abs() == old(pm.Abs())
    ensures old(pm.Abs()).free != [] ==>
      && r == 0 && d == old(pm.Abs()).free[0] && d < |old(pm.Abs()).mem|
      && pm.Abs() == SetupVm(old(pm.Abs()))
  {
    ghost var s := pm.Abs();
    if pm.free != [] { SetupVmKeeps(s, multiset{}); }
    hide Consistent, ListRep, DirWords, Sites;
    var p := pm.PageAlloc(true);
    if p == -1 { return -4, 0; }
    pm.refs[p] := Inc16(pm.refs[p]);
    pm.held := pm.held - {p};
    d := p;
    assert pm.Abs() == Incref(Alloc(s, true), d);
    FillDirectory(pm, d);
    return 0, d;
  }

  /** The count of a table that env_free drops is positive, so the table is not on the free list. */
  lemma DropTableReady(s: State, d: nat, p: nat)
    requires Consistent(s, multiset{}) && d < |s.mem| && IsDir(s.role[d]) && p < UTOPX && HasTable(s, d, p)
    ensures TableOf(s, d, p) < |s.mem| && s.ref[TableOf(s, d, p)] > 0 && TableOf(s, d, p) !in s.free
    ensures TableOf(s, d, p) != d
  {
    UserTableOf(s, multiset{}, d, p);
    UsedHasSite(s, multiset{}, TableOf(s, d, p));
    assert CountOk(s, multiset{}, TableOf(s, d, p));
  }

  lemma DropDirReady(s: State, d: nat)
    requires Consistent(s, multiset{}) && d < |s.mem| && s.role[d] == EnvDir
    ensures s.ref[d] > 0 && d !in s.free
  {
    UsedHasSite(s, multiset{}, d);
    assert CountOk(s, multiset{}, d);
  }

  /** One round of the inner loop of env_free: the entry, if present, is unmapped with page_remove. */
  method UnmapEntry(pm: Pages, d: nat, p: nat, q: nat, ghost s0: State)
    requires pm.Valid() && p < UTOPX && q < NENTRIES && Shrunk(s0, pm.Abs(), multiset{}, d)
    requires d < |pm.Abs().mem| && p < NENTRIES && HasTable(pm.Abs(), d, p)
    modifies pm`head, pm`free, pm`held, pm.link, pm.mem, pm.refs
    ensures pm.Valid() && Shrunk(s0, pm.Abs(), multiset{}, d) && d < |pm.Abs().mem| && HasTable(pm.Abs(), d, p)
    ensures DropPages(pm.Abs(), d, p, q + 1) == DropPages(old(pm.Abs()), d, p, q)
  {
    ghost var s := pm.Abs();
    DropPagesRound(s0, s, d, p, q);
    hide Shrunk, DropPages, Consistent, ListRep, Remove;
    var pt := FrameOf(pm.mem[d][p]);
    if Present(pm.mem[pt][q]) {
      PageAddress(p, q);
      pm.PageRemove(d, PGADDR(p, q, 0), multiset{});
    }
    assert pm.Abs() == Remove(s, d, p, q);
  }

  /** The inner loop of env_free: unmap every page of one table. */
  method DropPagesOf(pm: Pages, d: nat, p: nat, ghost s0: State)
    requires pm.Valid() && p < UTOPX && Shrunk(s0, pm.Abs(), multiset{}, d) && HasTable(pm.Abs(), d, p)
    modifies pm`head, pm`free, pm`held, pm.link, pm.mem, pm.refs
    ensures pm.Valid() && pm.Abs() == DropPages(old(pm.Abs()), d, p, 0)
  {
    hide *;
    ghost var s := pm.Abs();
    ShrunkTable(s0, s, d, p);
    var q := 0;
    while q < NENTRIES
      invariant 0 <= q <= NENTRIES
      invariant pm.Valid() && Shrunk(s0, pm.Abs(), multiset{}, d) && d < |pm.Abs().mem| && HasTable(pm.Abs(), d, p)
      invariant DropPages(pm.Abs(), d, p, q) == DropPages(s, d, p, 0)
    {
      UnmapEntry(pm, d, p, q, s0);
      q := q + 1;
    }
    DropNoPages(pm.Abs(), d, p);
  }

  lemma ShrunkTable(s0: State, s: State, d: nat, p: nat)
    requires Shrunk(s0, s, multiset{}, d) && p < UTOPX && HasTable(s, d, p)
    ensures d < |s.mem| && p < NENTRIES && TableOf(s, d, p) < |s.mem|
  {
    UserTableOf(s, multiset{}, d, p);
  }

  lemma DropNoPages(s: State, d: nat, p: nat)
    requires d < |s.mem| && p < NENTRIES
    ensures DropPages(s, d, p, NENTRIES) == s
  {
  }

  /** Why the page_remove in one round of the inner loop is in order, and what the round amounts to. */
  lemma DropPagesRound(s0: State, s: State, d: nat, p: nat, q: nat)
    requires Shrunk(s0, s, multiset{}, d) && p < UTOPX && q < NENTRIES && d < |s.mem| && HasTable(s, d, p)
    ensures Consistent(s, multiset{}) && IsPage(s, d, p, q) && RemoveRuns(s, d, p, q) && TableOf(s, d, p) < |s.mem|
    ensures DropPages(s, d, p, q) == DropPages(Remove(s, d, p, q), d, p, q + 1)
    ensures !Present(s.mem[TableOf(s, d, p)][q]) ==> Remove(s, d, p, q) == s
    ensures Shrunk(s0, Remove(s, d, p, q), multiset{}, d)
    ensures d < |Remove(s, d, p, q).mem| && Remove(s, d, p, q).mem[d] == s.mem[d]
  {
    DropPageShrinks(s0, s, multiset{}, d, p, q);
    RemoveKeeps(s, multiset{}, d, p, q);
  }

  /** One round of the outer loop of env_free. */
  method FreeTable(pm: Pages, d: nat, p: nat, ghost s0: State)
    requires pm.Valid() && p < UTOPX && Shrunk(s0, pm.Abs(), multiset{}, d) && HasTable(pm.Abs(), d, p)
    modifies pm`head, pm`free, pm`held, pm`role, pm.link, pm.mem, pm.refs
    ensures pm.Valid() && pm.Abs() == DropRound(old(pm.Abs()), d, p)
  {
    ghost var s := pm.Abs();
    FreeTableReady(s0, s, d, p);
    hide Shrunk, DropPages, DropTable, DropRound, Decref, Consistent, ListRep, HasTable;
    var pa := FrameOf(pm.mem[d][p]);
    DropPagesOf(pm, d, p, s0);
    ghost var s1 := pm.Abs();
    pm.mem[d] := pm.mem[d][p := 0];
    pm.role := pm.role[pa := Plain];
    assert pm.Abs() == SetWord(s1, d, p, 0).(role := s1.role[pa := Plain]);
    pm.PageDecref(pa);
  }

  /** Why the page_decref of a table is in order, and what its round amounts to. */
  lemma FreeTableReady(s0: State, s: State, d: nat, p: nat)
    requires Shrunk(s0, s, multiset{}, d) && p < UTOPX && HasTable(s, d, p)
    ensures d < |s.mem| && p < NENTRIES && TableOf(s, d, p) < |s.mem|
    ensures var s1, t := DropPages(s, d, p, 0), TableOf(s, d, p);
      && |s1.mem| == |s.mem| == |s1.ref| == |s1.role| && s1.ref[t] > 0 && t !in s1.free
      && FrameOf(s.mem[d][p]) == t
      && DropRound(s, d, p) == Decref(SetWord(s1, d, p, 0).(role := s1.role[t := Plain]), t)
  {
    UserTableOf(s, multiset{}, d, p);
    DropPagesShrinks(s0, s, multiset{}, d, p, 0);
    var s1 := DropPages(s, d, p, 0);
    hide DropPages;
    DropTableReady(s1, d, p);
  }

  /** One round of the outer loop of env_free: the table of directory entry p, if there is one, goes. */
  method FreeRound(pm: Pages, d: nat, p: nat, ghost s0: State)
    requires pm.Valid() && p < UTOPX && Shrunk(s0, pm.Abs(), multiset{}, d)
    modifies pm`head, pm`free, pm`held, pm`role, pm.link, pm.mem, pm.refs
    ensures pm.Valid() && Shrunk(s0, pm.Abs(), multiset{}, d) && d < |pm.Abs().mem|
    ensures DropTables(pm.Abs(), d, p + 1) == DropTables(old(pm.Abs()), d, p)
  {
    ghost var s := pm.Abs();
    DropTablesRound(s0, s, d, p);
    hide *;
    if Present(pm.mem[d][p]) {
      FreeTable(pm, d, p, s0);
    }
    assert pm.Abs() == DropRound(s, d, p);
  }

  /** What one round of the outer loop amounts to. */
  lemma DropTablesRound(s0: State, s: State, d: nat, p: nat)
    requires Shrunk(s0, s, multiset{}, d) && p < UTOPX
    ensures d < |s.mem| && p < NENTRIES && HasTable(s, d, p) == Present(s.mem[d][p])
    ensures !HasTable(s, d, p) ==> DropRound(s, d, p) == s
    ensures Shrunk(s0, DropRound(s, d, p), multiset{}, d) && d < |DropRound(s, d, p).mem|
    ensures DropTables(s, d, p) == DropTables(DropRound(s, d, p), d, p + 1)
  {
    DropRoundShrinks(s0, s, multiset{}, d, p);
  }

  lemma DropNoTables(s: State, d: nat)
    requires d < |s.mem|
    ensures DropTables(s, d, UTOPX) == s
  {
  }

  lemma ShrunkDirectory(s0: State, s: State, d: nat)
    requires Shrunk(s0, s, multiset{}, d)
    ensures d < |s.mem| && 0 < UTOPX
  {
  }

  /** The outer loop of env_free. */
  method DropTablesOf(pm: Pages, d: nat, ghost s0: State)
    requires pm.Valid() && Shrunk(s0, pm.Abs(), multiset{}, d)
    modifies pm`head, pm`free, pm`held, pm`role, pm.link, pm.mem, pm.refs
    ensures pm.Valid() && pm.Abs() == DropTables(old(pm.Abs()), d, 0)
  {
    hide *;
    ghost var s := pm.Abs();
    ShrunkDirectory(s0, s, d);
    var p := 0;
    while p < UTOPX
      invariant 0 <= p <= UTOPX
      invariant pm.Valid() && Shrunk(s0, pm.Abs(), multiset{}, d) && d < |pm.Abs().mem|
      invariant DropTables(pm.Abs(), d, p) == DropTables(s, d, 0)
    {
      FreeRound(pm, d, p, s0);
      p := p + 1;
    }
    DropNoTables(pm.Abs(), d);
  }

  /** The part of env_free that works on memory: the user half table by table, then the directory. */
  method DropSpaceOf(pm: Pages, d: nat)
    requires pm.Valid() && Consistent(pm.Abs(), multiset{}) && d < pm.mem.Length && pm.role[d] == EnvDir
    modifies pm`head, pm`free, pm`held, pm`role, pm.link, pm.mem, pm.refs
    ensures pm.Valid() && pm.Abs() == DropSpace(old(pm.Abs()), d)
  {
    ghost var s := pm.Abs();
    assert Shrunk(s, s, multiset{}, d);
    DropTablesOf(pm, d, s);
    DropTablesShrinks(s, s, multiset{}, d, 0);
    DropDirReady(pm.Abs(), d);
    pm.role := pm.role[d := Plain];
    pm.PageDecref(d);
  }

  /** Every slot but e is as it was. */
  ghost predicate OthersSame(was: seq<Env>, now: seq<Env>, e: nat) {
    |was| == |now| && forall i :: 0 <= i < |was| && i != e ==> now[i] == was[i]
  }

  /** What env_alloc makes of slot e: runnable, never run, with the frame at the head of the free list for a directory
      and the next generation in its id; after the last one the generations start over at 1. */
  ghost predicate NewEnv(was: Env, now: Env, e: nat, parent: int, frames: seq<nat>) {
    && now.parent == parent && now.status == ENV_RUNNABLE && now.runs == 0
    && frames != [] && now.pgdir == Some(frames[0])
    && now.esp == USTACKTOP && now.eip == 0
    && now.id % 4096 == e && now.id / 4096 == if was.id / 4096 == 0x7_FFFF then 1 else was.id / 4096 + 1
  }

  /** The slot of a loaded image: its stack pointer at the top of the user stack, its instruction pointer the number at
      e_entry. */
  ghost predicate Entered(was: Env, now: Env, b: seq<Byte>) {
    && Number32At(b, 24, now.eip)
    && now == was.(esp := USTACKTOP, eip := now.eip) && now.pgdir.Some?
  }

  class Table {
    const pm: Pages
    const envs: array<Env>
    const link: array<int>        // env_link, -1 for NULL
    var head: int                 // env_free_list
    var cur: Option<nat>          // curenv
    var cr3: nat
    ghost var free: seq<nat>

    ghost predicate Valid()
      reads this, envs, link, pm, pm.refs, pm.link, pm.mem
    {
      && pm.Valid()
      && Apart()
      && Chain(head, link[..], free)
    }

    /** envs[] and its links share no memory with pages[] and the frames. */
    ghost predicate Apart() {
      && envs.Length == NENV && link.Length == NENV
      && link != pm.link && link as object != pm.refs && link as object != pm.mem && envs as object != link
      && envs as object != pm.mem && envs as object != pm.refs && envs as object != pm.link
    }

    ghost function Abs(): World
      reads this, envs, pm, pm.refs, pm.mem
    {
      World(pm.Abs(), envs[..], free, cur, cr3)
    }

    /** The envs array as mem_init leaves it: zeroed. Nothing is loaded but the kernel's directory. */
    constructor (pm: Pages)
      requires pm.Valid()
      ensures this.pm == pm && fresh(envs) && fresh(link) && Apart()
      ensures forall i :: 0 <= i < NENV ==> envs[i] == Env(0, 0, ENV_FREE, 0, None, 0, 0)
      ensures cur == None && cr3 == pm.kern
    {
      this.pm := pm;
      envs := new Env[NENV](_ => Env(0, 0, ENV_FREE, 0, None, 0, 0));
      link := new int[NENV](_ => -1);
      head, free, cur, cr3 := -1, [], None, pm.kern;
    }

    /** env_init: every slot free, in index order. The slots were zeroed by mem_init. */
    method EnvInit()
      requires pm.Valid() && Apart()
      requires forall i :: 0 <= i < NENV ==> envs[i].status == ENV_FREE && envs[i].pgdir == None
      modifies this`head, this`free, envs, link
      ensures Valid()
      ensures |free| == NENV && forall k :: 0 <= k < NENV ==> free[k] == k
      ensures forall i :: 0 <= i < NENV ==> envs[i] == old(envs[i]).(id := 0)
    {
      hide Chain;
      ghost var was := envs[..];
      head := -1;
      free := [];
      ChainEmpty(link[..]);
      var i := NENV - 1;
      while i >= 0
        invariant -1 <= i < NENV
        invariant |free| == NENV - 1 - i && forall k :: 0 <= k < |free| ==> free[k] == i + 1 + k
        invariant Chain(head, link[..], free)
        invariant forall k :: 0 <= k <= i ==> envs[k] == was[k]
        invariant forall k :: i < k < NENV ==> envs[k] == was[k].(id := 0)
      {
        ghost var links := link[..][i := head];
        ChainPush(head, link[..], free, i);
        envs[i] := envs[i].(id := 0);
        link[i] := head;
        head := i;
        assert link[..] == links;
        free := [i] + free;
        i := i - 1;
      }
    }

    /** env_alloc: -5 is -E_NO_FREE_ENV, -4 is -E_NO_MEM. */
    method EnvAlloc(parent: int) returns (r: int, e: nat)
      requires Valid() && WorldOk(Abs())
      modifies this`head, this`free, envs, pm`head, pm`free, pm`held, pm`role, pm.link, pm.mem, pm.refs
      ensures Valid() && WorldOk(Abs())
      ensures r == EnvAllocCode(old(Abs()))
      ensures r == if old(free) == [] then -5 else if old(pm.free) == [] then -4 else 0
      ensures r != 0 ==> Abs() == old(Abs())
      ensures r == 0 ==> e == old(free)[0] && Abs() == Envs.EnvAlloc(old(Abs()), parent)
      ensures r == 0 ==> free == old(free)[1..] && e < NENV && OthersSame(old(envs[..]), envs[..], e)
      ensures r == 0 ==> NewEnv(old(envs[e]), envs[e], e, parent, old(pm.free))
    {
      ghost var w := Abs();
      EnvAllocOk(w, parent);
      if w.free != [] && w.phys.free != [] { NewEnvOf(w, parent); }
      hide NewEnv, OthersSame, WorldOk;
      if head == -1 { return E_NO_FREE_ENV, 0; }
      e := head;
      ChainPop(head, link[..], free);
      var r1, d := EnvSetupVm(pm);
      if r1 < 0 { return r1, 0; }
      envs[e] := Env(NextId(envs[e].id, e), parent, ENV_RUNNABLE, 0, Some(d), 0, USTACKTOP);
      head := link[e];
      free := free[1..];
      assert Abs() == Envs.EnvAlloc(w, parent);
      return 0, e;
    }

    /** env_run, up to env_pop_tf. */
    method EnvRun(e: nat)
      requires Valid() && WorldOk(Abs()) && Live(Abs(), e)
      modifies this`cur, this`cr3, envs
      ensures Valid() && WorldOk(Abs())
      ensures old(Abs()).envs[e].pgdir.Some? && Abs() == Envs.EnvRun(old(Abs()), e)
      ensures Switched(old(Abs()), e, Abs())
    {
      ghost var w := Abs();
      EnvRunOk(w, e);
      EnvRunSwitches(w, e);
      hide WorldOk, Switched, ListRep, Chain;
      if cur.Some? && envs[cur.value].status == ENV_RUNNING {
        envs[cur.value] := envs[cur.value].(status := ENV_RUNNABLE);
      }
      cur := Some(e);
      envs[e] := envs[e].(status := ENV_RUNNING, runs := Inc32(envs[e].runs));
      cr3 := envs[e].pgdir.value;
      assert Abs() == Envs.EnvRun(w, e);
    }

    /** envid2env; None where it reads through a NULL curenv. */
    method Envid2env(envid: int, checkperm: bool) returns (r: Option<int>, e: Option<nat>)
      requires Valid() && (cur.Some? ==> cur.value < NENV)
      ensures match Envid2Env(Abs(), envid, checkperm)
              case Found(env) => r == Some(0) && e == env
              case BadEnv => r == Some(-2) && e == None
              case NullRead => r == None && e == None
      ensures envid == 0 ==> r == Some(0) && e == cur
    {
      if envid == 0 { return Some(0), cur; }
      var i := ENVX(envid);
      if envs[i].status == ENV_FREE || envs[i].id != envid { return Some(E_BAD_ENV), None; }
      if checkperm && Some(i) != cur {
        if cur == None { return None, None; }
        if envs[i].parent != envs[cur.value].id { return Some(E_BAD_ENV), None; }
      }
      return Some(0), Some(i);
    }

    /** env_free: unmap the user half table by table, free the directory, return the slot. */
    method EnvFree(e: nat)
      requires Valid() && WorldOk(Abs()) && Live(Abs(), e)
      modifies this`head, this`free, this`cr3, envs, link
      modifies pm`head, pm`free, pm`held, pm`role, pm.link, pm.mem, pm.refs
      ensures Valid() && WorldOk(Abs())
      ensures old(Abs()).envs[e].pgdir.Some? && old(Abs()).envs[e].pgdir.value < |old(Abs()).phys.mem|
      ensures Abs() == Envs.EnvFree(old(Abs()), e)
      ensures free == [e] + old(free) && OthersSame(old(envs[..]), envs[..], e)
      ensures envs[e] == old(envs[e]).(status := ENV_FREE, pgdir := None)
      ensures cr3 == if old(cur) == Some(e) then pm.kern else old(cr3)
    {
      ghost var w := Abs();
      EnvFreeOk(w, e);
      assert EnvOk(w, e);
      var d := envs[e].pgdir.value;
      if cur == Some(e) { cr3 := pm.kern; }
      DropSpaceOf(pm, d);
      envs[e] := envs[e].(status := ENV_FREE, pgdir := None);
      assert e !in free;
      ghost var links := link[..][e := head];
      ChainPush(head, link[..], free, e);
      link[e] := head;
      head := e;
      free := [e] + free;
      assert link[..] == links;
      assert Abs() == Envs.EnvFree(w, e);
    }

    /** What load_icode does to memory, on the environment's directory and then on the kernel's. */
    method LoadMemory(d: nat, b: seq<Byte>) returns (ok: bool)
      requires Valid() && UserSpace(pm.Abs(), multiset{}, d) && ImageOk(b)
      modifies this`cr3, pm`head, pm`free, pm`held, pm`role, pm.link, pm.mem, pm.refs
      ensures ok <==> Loader.LoadIcode(old(pm.Abs()), d, b).Some?
      ensures ok ==> Valid()
      ensures ok ==> Abs() == old(Abs()).(phys := Loader.LoadIcode(old(pm.Abs()), d, b).value, cr3 := pm.kern)
    {
      ImageLong(b);
      hide LoadSegments, MapRegion, ListRep, Chain, UserSpace, ImageOk;
      cr3 := d;
      if Le32(b, 0) != ELF_MAGIC { return false; }
      ok := LoadAll(pm, d, b);
      if !ok { return false; }
      cr3 := pm.kern;
      ok := RegionLoop(pm, d, STACK_PAGE, 1);
    }

    /** load_icode, with the stack pointer and entry point it stores in the trap frame; false where it panics. */
    method LoadIcode(e: nat, b: seq<Byte>) returns (ok: bool)
      requires Valid() && WorldOk(Abs()) && Live(Abs(), e) && ImageOk(b)
      modifies this`cr3, envs, pm`head, pm`free, pm`held, pm`role, pm.link, pm.mem, pm.refs
      ensures old(Abs()).envs[e].pgdir.Some?
      ensures ok <==> Loader.LoadIcode(old(Abs()).phys, old(Abs()).envs[e].pgdir.value, b).Some?
      ensures ok ==> Valid() && WorldOk(Abs()) && Abs() == Envs.LoadIcode(old(Abs()), e, b)
      ensures ok ==> cr3 == pm.kern && OthersSame(old(envs[..]), envs[..], e)
      ensures ok ==> Entered(old(envs[e]), envs[e], b)
      ensures ok ==> Exclusive(pm.Abs(), envs[e].pgdir.value, (envs[e].esp - 1) / PGSIZE)
    {
      ghost var w := Abs();
      LiveSpace(w, e);
      ImageLong(b);
      if Loader.LoadIcode(w.phys, w.envs[e].pgdir.value, b).Some? { LoadedEnv(w, e, b); }
      hide Loader.LoadIcode, ListRep, Chain, WorldOk, EnvOk, UserSpace, ImageOk, Entered, OthersSame, Exclusive;
      ok := LoadMemory(envs[e].pgdir.value, b);
      if !ok { return false; }
      LoadIcodeOk(w, e, b);
      envs[e] := envs[e].(esp := USTACKTOP, eip := Le32(b, 24));
      assert Abs() == Envs.LoadIcode(w, e, b);
    }
  }

  lemma NewEnvOf(w: World, parent: int)
    requires WorldOk(w) && w.free != [] && w.phys.free != []
    ensures w.free[0] < |w.envs| && w.phys.free[0] < |w.phys.mem|
    ensures var e, w' := w.free[0], Envs.EnvAlloc(w, parent);
      && e < NENV && OthersSame(w.envs, w'.envs, e) && w'.free == w.free[1..]
      && NewEnv(w.envs[e], w'.envs[e], e, parent, w.phys.free)
  {
    EnvAllocOk(w, parent);
    var e := w.free[0];
    assert e in w.free;
    assert w.phys.free[0] in w.phys.free;
    assert EnvOk(w, e);
    NextGeneration(w.envs[e].id, e);
    hide Consistent, NextId;
  }

  lemma NextGeneration(id: int, slot: nat)
    requires slot < NENV && SlotId(id, slot)
    ensures var next := NextId(id, slot);
      next % 4096 == slot && next / 4096 == if id / 4096 == 0x7_FFFF then 1 else id / 4096 + 1
  {
    var g := if id == 0 then 0 else id / 4096;
    NextIdStep(g, slot);
    MulMod(if g == GENERATIONS then 1 else g + 1, slot, 4096);
  }

  lemma LoadedEnv(w: World, e: nat, b: seq<Byte>)
    requires WorldOk(w) && Live(w, e) && ImageOk(b)
    requires w.envs[e].pgdir.Some? && Loader.LoadIcode(w.phys, w.envs[e].pgdir.value, b).Some?
    ensures |b| >= 52
    ensures var w' := Envs.LoadIcode(w, e, b);
      && OthersSame(w.envs, w'.envs, e) && Entered(w.envs[e], w'.envs[e], b) && w'.envs[e].pgdir.Some?
      && Exclusive(w'.phys, w'.envs[e].pgdir.value, (w'.envs[e].esp - 1) / PGSIZE)
  {
    LiveSpace(w, e);
    ImageLong(b);
    Le32Is(b, 24);
    LoadIcodeOwner(w.phys, multiset{}, w.envs[e].pgdir.value, b);
    hide *;
    StackTop();
    LoadedSlot(w, e, b);
  }

  lemma StackTop()
    ensures (USTACKTOP - 1) / PGSIZE == STACK_PAGE
  {
  }

  lemma LoadedSlot(w: World, e: nat, b: seq<Byte>)
    requires e < |w.envs| && w.envs[e].pgdir.Some? && ImageOk(b) && |b| >= 52
    requires Loader.LoadIcode(w.phys, w.envs[e].pgdir.value, b).Some?
    requires Number32At(b, 24, Le32(b, 24))
    ensures var w' := Envs.LoadIcode(w, e, b);
      && OthersSame(w.envs, w'.envs, e) && Entered(w.envs[e], w'.envs[e], b)
      && e < |w'.envs| && w'.envs[e].esp == USTACKTOP && w'.envs[e].pgdir == w.envs[e].pgdir
      && w'.phys == Loader.LoadIcode(w.phys, w.envs[e].pgdir.value, b).value
  {
    hide Loader.LoadIcode, ImageOk, Le32, Number32At;
  }

  lemma ImageLong(b: seq<Byte>)
    requires ImageOk(b)
    ensures |b| >= 52
  {
  }

  lemma LiveSpace(w: World, e: nat)
    requires WorldOk(w) && Live(w, e)
    ensures w.envs[e].pgdir.Some? && UserSpace(w.phys, multiset{}, w.envs[e].pgdir.value)
  {
    assert EnvOk(w, e);
  }
}
