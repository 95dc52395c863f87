/** The environment table of kern/env.c as a value, its invariant, and runs of page and environment operations. */
module Envs {
  import opened Wrappers
  import opened Arith
  import opened Mmu
  import opened Phys
  import opened PhysInv
  import opened PageOps
  import opened FlatMap
  import opened AddrSpace
  import opened EnvIds
  import Loader
  import Regions

  datatype Status = ENV_FREE | ENV_DYING | ENV_RUNNABLE | ENV_RUNNING | ENV_NOT_RUNNABLE

  /** struct Env without its type, and of its trap frame the two registers that are ever set. `pgdir` is None where
      env_pgdir is NULL. */
  datatype Env = Env(id: int, parent: int, status: Status, runs: Word, pgdir: Option<nat>, eip: Word, esp: Word)

  datatype World = World(
    phys: State,
    envs: seq<Env>,
    free: seq<nat>,        // env_free_list, head first
    cur: Option<nat>,      // curenv
    cr3: nat)              // the frame of the loaded page directory

  const E_BAD_ENV: int := -2
  const E_NO_MEM: int := -4
  const E_NO_FREE_ENV: int := -5

  predicate Live(w: World, e: nat) {
    e < |w.envs| && w.envs[e].status != ENV_FREE
  }

  ghost predicate EnvOk(w: World, e: nat)
    requires Shape(w.phys) && e < |w.envs|
  {
    var env := w.envs[e];
    && SlotId(env.id, e)
    && (env.status == ENV_FREE ==> env.pgdir == None)
    && (env.status != ENV_FREE ==>
      env.id != 0 && env.pgdir.Some? && env.pgdir.value < |w.phys.mem| && w.phys.role[env.pgdir.value] == EnvDir)
    && (env.status == ENV_RUNNING ==> w.cur == Some(e))
  }

  ghost predicate EnvsOk(w: World)
    requires Shape(w.phys)
  {
    forall e: nat {:trigger EnvOk(w, e)} :: e < |w.envs| ==> EnvOk(w, e)
  }

  /** env_free_list holds exactly the free slots, once each. */
  ghost predicate FreeSlotsOk(w: World) {
    && NoDup(w.free)
    && (forall e :: e in w.free ==> e < |w.envs|)
    && (forall e: nat :: e < |w.envs| ==> (e in w.free <==> w.envs[e].status == ENV_FREE))
  }

  /** Directories and live environments correspond one to one. */
  ghost predicate DirsOk(w: World)
    requires Shape(w.phys)
  {
    && (forall e: nat, f: nat :: Live(w, e) && Live(w, f) && w.envs[e].pgdir == w.envs[f].pgdir ==> e == f)
    && (forall d: nat {:trigger DirOwned(w, d)} :: d < |w.phys.mem| && w.phys.role[d] == EnvDir ==> DirOwned(w, d))
  }

  ghost predicate DirOwned(w: World, d: nat) {
    exists e: nat :: Live(w, e) && w.envs[e].pgdir == Some(d)
  }

  /** The loaded directory is the kernel's or that of the live current environment. */
  ghost predicate Cr3Ok(w: World) {
    && (w.cur.Some? ==> w.cur.value < |w.envs|)
    && (w.cr3 == w.phys.kern || (w.cur.Some? && Live(w, w.cur.value) && w.envs[w.cur.value].pgdir == Some(w.cr3)))
  }

  ghost predicate WorldOk(w: World) {
    && Consistent(w.phys, multiset{})
    && |w.envs| == NENV
    && EnvsOk(w) && FreeSlotsOk(w) && DirsOk(w) && Cr3Ok(w)
  }

  // ----- the operations of kern/env.c -----

  /** env_alloc: the result code and the new world. The environment is the head of the free list. */
  function EnvAllocCode(w: World): int {
    if w.free == [] then E_NO_FREE_ENV else if w.phys.free == [] then E_NO_MEM else 0
  }

  function EnvAlloc(w: World, parent: int): World
    requires w.free != [] ==> w.free[0] < |w.envs|
    requires Shape(w.phys) && (w.phys.free != [] ==> w.phys.free[0] < |w.phys.mem|)
  {
    if EnvAllocCode(w) != 0 then w
    else
      var e := w.free[0];
      w.(phys := SetupVm(w.phys),
         envs := w.envs[e := Env(NextId(w.envs[e].id, e), parent, ENV_RUNNABLE, 0, Some(w.phys.free[0]),
                              0, USTACKTOP)],
         free := w.free[1..])
  }

  function Inc32(x: int): Word { (x + 1) % 0x1_0000_0000 }

  /** env_run, up to the point where it drops into user mode. */
  function EnvRun(w: World, e: nat): World
    requires e < |w.envs| && w.envs[e].pgdir.Some?
    requires w.cur.Some? ==> w.cur.value < |w.envs|
  {
    var envs := if w.cur.Some? && w.envs[w.cur.value].status == ENV_RUNNING
                then w.envs[w.cur.value := w.envs[w.cur.value].(status := ENV_RUNNABLE)] else w.envs;
    w.(envs := envs[e := envs[e].(status := ENV_RUNNING, runs := Inc32(envs[e].runs))],
       cur := Some(e), cr3 := w.envs[e].pgdir.value)
  }

  /** env_free. */
  function EnvFree(w: World, e: nat): World
    requires e < |w.envs| && w.envs[e].pgdir.Some? && w.envs[e].pgdir.value < |w.phys.mem|
  {
    w.(phys := DropSpace(w.phys, w.envs[e].pgdir.value),
       envs := w.envs[e := w.envs[e].(status := ENV_FREE, pgdir := None)],
       free := [e] + w.free,
       cr3 := if w.cur == Some(e) then w.phys.kern else w.cr3)
  }

  /** load_icode, where it does not panic. */
  ghost function LoadIcode(w: World, e: nat, b: seq<Loader.Byte>): World
    requires e < |w.envs| && w.envs[e].pgdir.Some? && Loader.ImageOk(b)
    requires Loader.LoadIcode(w.phys, w.envs[e].pgdir.value, b).Some?
  {
    w.(phys := Loader.LoadIcode(w.phys, w.envs[e].pgdir.value, b).value,
       envs := w.envs[e := w.envs[e].(esp := USTACKTOP, eip := Loader.Le32(b, 24))],
       cr3 := w.phys.kern)
  }

  /** envid2env: the environment (None for the NULL that curenv may be), -E_BAD_ENV, or a read through a NULL
      curenv. */
  datatype Lookup = Found(env: Option<nat>) | BadEnv | NullRead

  function Envid2Env(w: World, envid: int, checkperm: bool): Lookup
    requires |w.envs| == NENV && (w.cur.Some? ==> w.cur.value < |w.envs|)
  {
    if envid == 0 then Found(w.cur)
    else
      var e := ENVX(envid);
      if w.envs[e].status == ENV_FREE || w.envs[e].id != envid then BadEnv
      else if checkperm && w.cur == None then NullRead
      else if checkperm && w.cur != Some(e) && w.envs[e].parent != w.envs[w.cur.value].id then BadEnv
      else Found(Some(e))
  }

  // ----- every operation keeps the invariant -----

  /** Operations that only change memory, and neither make nor retire directories. */
  lemma PhysStepOk(w: World, s: State)
    requires WorldOk(w) && Consistent(s, multiset{}) && |s.mem| == |w.phys.mem| && s.kern == w.phys.kern
    requires forall d: nat :: d < |s.mem| ==> (s.role[d] == EnvDir <==> w.phys.role[d] == EnvDir)
    ensures WorldOk(w.(phys := s))
  {
    var w' := w.(phys := s);
    forall e: nat | e < |w.envs| ensures EnvOk(w', e) {
      assert EnvOk(w, e);
    }
    forall d: nat {:trigger DirOwned(w', d)} | d < |s.mem| && s.role[d] == EnvDir ensures DirOwned(w', d) {
      assert DirOwned(w, d);
      var e: nat :| Live(w, e) && w.envs[e].pgdir == Some(d);
      assert Live(w', e);
    }
  }

  lemma EnvAllocOk(w: World, parent: int)
    requires WorldOk(w)
    ensures w.free != [] ==> w.free[0] < |w.envs|
    ensures w.phys.free != [] ==> w.phys.free[0] < |w.phys.mem|
    ensures WorldOk(EnvAlloc(w, parent))
    ensures EnvAllocCode(w) != 0 ==> EnvAlloc(w, parent) == w
  {
    if w.free != [] { assert w.free[0] in w.free; }
    if w.phys.free != [] { assert w.phys.free[0] in w.phys.free; }
    if EnvAllocCode(w) == 0 {
      var e, d, w' := w.free[0], w.phys.free[0], EnvAlloc(w, parent);
      SetupVmKeeps(w.phys, multiset{});
      assert EnvOk(w, e);
      NextIdOk(w.envs[e].id, e);
      forall k: nat | k < |w.envs| ensures EnvOk(w', k) {
        assert EnvOk(w, k);
      }
      EnvAllocFree(w, parent);
      EnvAllocDirs(w, parent);
    }
  }

  lemma EnvAllocFree(w: World, parent: int)
    requires WorldOk(w) && w.free != [] && w.phys.free != []
    requires w.free[0] < |w.envs| && w.phys.free[0] < |w.phys.mem|
    ensures FreeSlotsOk(EnvAlloc(w, parent))
  {
    var w' := EnvAlloc(w, parent);
    forall k | k in w'.free ensures k in w.free && k != w.free[0] {
      var j :| 0 <= j < |w'.free| && w'.free[j] == k;
      assert w.free[j + 1] == k;
    }
    forall k: nat | k < |w.envs| && k in w.free && k != w.free[0] ensures k in w'.free {
      var j :| 0 <= j < |w.free| && w.free[j] == k;
      assert w'.free[j - 1] == k;
    }
  }

  lemma EnvAllocDirs(w: World, parent: int)
    requires WorldOk(w) && w.free != [] && w.phys.free != []
    requires w.free[0] < |w.envs| && w.phys.free[0] < |w.phys.mem|
    ensures Shape(EnvAlloc(w, parent).phys) && DirsOk(EnvAlloc(w, parent)) && Cr3Ok(EnvAlloc(w, parent))
  {
    var e, d, w' := w.free[0], w.phys.free[0], EnvAlloc(w, parent);
    SetupVmKeeps(w.phys, multiset{});
    assert e in w.free;
    assert !Live(w, e);
    forall k: nat, j: nat | Live(w', k) && Live(w', j) && w'.envs[k].pgdir == w'.envs[j].pgdir ensures k == j {
      assert EnvOk(w, k) && EnvOk(w, j);
    }
    forall g: nat {:trigger DirOwned(w', g)} | g < |w.phys.mem| && w'.phys.role[g] == EnvDir ensures DirOwned(w', g) {
      if g == d {
        assert Live(w', e);
      } else {
        assert DirOwned(w, g);
        var k: nat :| Live(w, k) && w.envs[k].pgdir == Some(g);
        assert Live(w', k);
      }
    }
  }

  lemma EnvRunOk(w: World, e: nat)
    requires WorldOk(w) && Live(w, e)
    ensures w.envs[e].pgdir.Some?
    ensures WorldOk(EnvRun(w, e))
  {
    assert EnvOk(w, e);
    var w' := EnvRun(w, e);
    forall k: nat | k < |w.envs|
      ensures EnvOk(w', k) && Live(w', k) == Live(w, k) && w'.envs[k].pgdir == w.envs[k].pgdir
    {
      assert EnvOk(w, k);
    }
    forall d: nat {:trigger DirOwned(w', d)} | d < |w.phys.mem| && w.phys.role[d] == EnvDir ensures DirOwned(w', d) {
      assert DirOwned(w, d);
      var k: nat :| Live(w, k) && w.envs[k].pgdir == Some(d);
      assert Live(w', k);
    }
  }

  lemma EnvFreeSlots(w: World, e: nat)
    requires WorldOk(w) && Live(w, e) && w.envs[e].pgdir.Some? && w.envs[e].pgdir.value < |w.phys.mem|
    ensures FreeSlotsOk(EnvFree(w, e))
  {
    var w' := EnvFree(w, e);
    assert e !in w.free;
    forall k: nat | k < |w.envs| ensures k in w'.free <==> w'.envs[k].status == ENV_FREE {
      if k == e { assert w'.free[0] == e; }
    }
  }

  lemma EnvFreeOk(w: World, e: nat)
    requires WorldOk(w) && Live(w, e)
    ensures w.envs[e].pgdir.Some? && w.envs[e].pgdir.value < |w.phys.mem|
    ensures WorldOk(EnvFree(w, e))
  {
    assert EnvOk(w, e);
    var d, w' := w.envs[e].pgdir.value, EnvFree(w, e);
    DropSpaceRoles(w.phys, multiset{}, d);
    EnvFreeSlots(w, e);
    forall k: nat | k < |w.envs| ensures EnvOk(w', k) {
      assert EnvOk(w, k);
      if k != e && Live(w, k) { assert w.envs[k].pgdir != w.envs[e].pgdir; }
    }
    forall g: nat {:trigger DirOwned(w', g)} | g < |w'.phys.mem| && w'.phys.role[g] == EnvDir ensures DirOwned(w', g) {
      assert DirOwned(w, g);
      var k: nat :| Live(w, k) && w.envs[k].pgdir == Some(g);
      assert Live(w', k);
    }
  }

  /** env_free retires its own directory and no other. */
  lemma DropSpaceRoles(s: State, x: multiset<nat>, d: nat)
    requires Consistent(s, x) && d < |s.mem| && s.role[d] == EnvDir
    ensures Consistent(DropSpace(s, d), x) && |DropSpace(s, d).mem| == |s.mem| && DropSpace(s, d).kern == s.kern
    ensures forall g: nat :: g < |s.mem| ==> (DropSpace(s, d).role[g] == EnvDir <==> g != d && s.role[g] == EnvDir)
  {
    DropSpaceSites(s, x, d);
    forall g: nat | g < |s.mem| ensures DropSpace(s, d).role[g] == EnvDir <==> g != d && s.role[g] == EnvDir {
      if OwnTable(s, d, g) { assert s.role[g] != EnvDir; }
    }
  }

  /** load_icode makes and retires no directory, and leaves the kernel's loaded. */
  lemma LoadIcodeOk(w: World, e: nat, b: seq<Loader.Byte>)
    requires WorldOk(w) && Live(w, e) && Loader.ImageOk(b)
    ensures w.envs[e].pgdir.Some?
    ensures Loader.LoadIcode(w.phys, w.envs[e].pgdir.value, b).Some? ==> WorldOk(LoadIcode(w, e, b))
  {
    assert EnvOk(w, e);
    var d := w.envs[e].pgdir.value;
    hide Loader.LoadIcode, Loader.ImageOk;
    if Loader.LoadIcode(w.phys, d, b).Some? {
      var s' := Loader.LoadIcode(w.phys, d, b).value;
      Loader.LoadIcodeOwner(w.phys, multiset{}, d, b);
      OwnerRoles(w.phys, s', d);
      PhysStepOk(w, s');
      KernelLoaded(w.(phys := s'));
      FrameKeeps(w.(phys := s', cr3 := w.phys.kern), e, Loader.Le32(b, 24), USTACKTOP);
    }
  }

  lemma KernelLoaded(w: World)
    requires WorldOk(w)
    ensures WorldOk(w.(cr3 := w.phys.kern))
  {
    var w' := w.(cr3 := w.phys.kern);
    forall e: nat | e < |w.envs| ensures EnvOk(w', e) {
      assert EnvOk(w, e);
    }
    forall d: nat {:trigger DirOwned(w', d)} | d < |w.phys.mem| && w.phys.role[d] == EnvDir ensures DirOwned(w', d) {
      assert DirOwned(w, d);
      var e: nat :| Live(w, e) && w.envs[e].pgdir == Some(d);
      assert Live(w', e);
    }
  }

  lemma FrameKeeps(w: World, e: nat, eip: Word, esp: Word)
    requires WorldOk(w) && e < |w.envs|
    ensures WorldOk(w.(envs := w.envs[e := w.envs[e].(esp := esp, eip := eip)]))
  {
    var w' := w.(envs := w.envs[e := w.envs[e].(esp := esp, eip := eip)]);
    forall k: nat | k < |w.envs|
      ensures EnvOk(w', k) && Live(w', k) == Live(w, k) && w'.envs[k].pgdir == w.envs[k].pgdir
    {
      assert EnvOk(w, k);
    }
    forall d: nat {:trigger DirOwned(w', d)} | d < |w.phys.mem| && w.phys.role[d] == EnvDir ensures DirOwned(w', d) {
      assert DirOwned(w, d);
      var k: nat :| Live(w, k) && w.envs[k].pgdir == Some(d);
      assert Live(w', k);
    }
  }

  /** Directories are visible as references that belong to someone else. */
  lemma OwnerRoles(s: State, s': State, d: nat)
    requires Regions.SameOwner(s, s', multiset{}, d)
    ensures forall g: nat :: g < |s.mem| ==> (s'.role[g] == EnvDir <==> s.role[g] == EnvDir)
  {
    forall g: nat | g < |s.mem| ensures s'.role[g] == EnvDir <==> s.role[g] == EnvDir {
      if g != d {
        assert Foreign(s', d, g) == Foreign(s, d, g);
        assert Root(g) in Foreign(s, d, g) <==> s.role[g] == EnvDir;
        assert Root(g) in Foreign(s', d, g) <==> s'.role[g] == EnvDir;
      }
    }
  }

  // ----- runs -----

  datatype Step =
    | PageAllocStep(zero: bool)
    | PageFreeStep(f: nat)
    | PageInsertStep(d: nat, f: nat, va: Word, perm: nat)
    | PageRemoveStep(d: nat, va: Word)
    | WriteStep(f: nat, c: Frame)          // a store to a page that is not a table, by the kernel or a user
    | EnvAllocStep(parent: int)
    | EnvRunStep(e: nat)
    | EnvFreeStep(e: nat)
    | LoadIcodeStep(e: nat, b: seq<Loader.Byte>)

  /** One operation, called as its source asks, takes w to w'. */
  ghost predicate StepTo(w: World, st: Step, w': World) {
    var s := w.phys;
    && Shape(s) && |w.envs| == NENV && (w.cur.Some? ==> w.cur.value < NENV)
    && match st
    case PageAllocStep(zero) => w' == if s.free != [] && s.free[0] < |s.mem| then w.(phys := Alloc(s, zero)) else w
    case PageFreeStep(f) => f in s.held && w' == w.(phys := Free(s, f))
    case PageInsertStep(d, f, va, perm) =>
      && MayInsert(s, d, f, PDX(va), PTX(va), perm) && s.ref[f] < 0xFFFF
      && (if CanWalk(s, d, PDX(va)) then
            && InsertArgs(s, d, f, PDX(va), PTX(va), perm) && InsertRuns(s, d, f, PDX(va), PTX(va), perm)
            && w' == w.(phys := Insert(s, d, f, PDX(va), PTX(va), perm))
          else w' == w)
    case PageRemoveStep(d, va) =>
      && IsPage(s, d, PDX(va), PTX(va)) && PDX(va) < UTOPX && RemoveRuns(s, d, PDX(va), PTX(va))
      && w' == w.(phys := Remove(s, d, PDX(va), PTX(va)))
    case WriteStep(f, c) =>
      f < |s.mem| && s.role[f] == Plain && f !in s.free && w' == w.(phys := s.(mem := s.mem[f := c]))
    case EnvAllocStep(parent) =>
      && (w.free != [] ==> w.free[0] < |w.envs|) && (s.free != [] ==> s.free[0] < |s.mem|)
      && w' == EnvAlloc(w, parent)
    case EnvRunStep(e) => Live(w, e) && w.envs[e].pgdir.Some? && w' == EnvRun(w, e)
    case EnvFreeStep(e) =>
      && Live(w, e) && w.envs[e].pgdir.Some? && w.envs[e].pgdir.value < |s.mem|
      && w' == EnvFree(w, e)
    case LoadIcodeStep(e, b) =>
      && Live(w, e) && w.envs[e].pgdir.Some? && Loader.ImageOk(b)
      && Loader.LoadIcode(s, w.envs[e].pgdir.value, b).Some?
      && w' == LoadIcode(w, e, b)
  }

  lemma PhysStepKeeps(w: World, st: Step, w': World)
    requires WorldOk(w) && StepTo(w, st, w')
    requires !st.EnvAllocStep? && !st.EnvRunStep? && !st.EnvFreeStep? && !st.LoadIcodeStep?
    ensures WorldOk(w')
  {
    var s, x := w.phys, multiset{};
    match st {
      case PageAllocStep(zero) => if s.free != [] { AllocKeeps(s, x, zero); }
      case PageFreeStep(f) => FreeKeeps(s, x, f);
      case PageInsertStep(d, f, va, perm) =>
        if CanWalk(s, d, PDX(va)) {
          InsertKeeps(s, x, d, f, PDX(va), PTX(va), perm);
          InsertRoles(s, x, d, f, PDX(va), PTX(va), perm);
        }
      case PageRemoveStep(d, va) => RemoveKeeps(s, x, d, PDX(va), PTX(va));
      case WriteStep(f, c) => WritePlainKeeps(s, x, f, c, w'.phys);
    }
    if w' != w { PhysStepOk(w, w'.phys); }
  }

  lemma InsertRoles(s: State, x: multiset<nat>, d: nat, f: nat, p: nat, q: nat, perm: nat)
    requires Consistent(s, x) && MayInsert(s, d, f, p, q, perm) && CanWalk(s, d, p) && s.ref[f] < 0xFFFF
    ensures InsertArgs(s, d, f, p, q, perm) && InsertRuns(s, d, f, p, q, perm)
    ensures Insert(s, d, f, p, q, perm).kern == s.kern && |Insert(s, d, f, p, q, perm).mem| == |s.mem|
    ensures |Insert(s, d, f, p, q, perm).role| == |s.mem|
    ensures forall g: nat :: g < |s.mem| ==> (Insert(s, d, f, p, q, perm).role[g] == EnvDir <==> s.role[g] == EnvDir)
  {
    InsertKeeps(s, x, d, f, p, q, perm);
    if !HasTable(s, d, p) { MakeTableKeeps(s, x, d, p); }
  }

  /** No step of any operation breaks the invariant. */
  lemma StepKeeps(w: World, st: Step, w': World)
    requires WorldOk(w) && StepTo(w, st, w')
    ensures WorldOk(w')
  {
    match st
    case EnvAllocStep(parent) => EnvAllocOk(w, parent);
    case EnvRunStep(e) => EnvRunOk(w, e);
    case EnvFreeStep(e) => EnvFreeOk(w, e);
    case LoadIcodeStep(e, b) => LoadIcodeOk(w, e, b);
    case _ => PhysStepKeeps(w, st, w');
  }

  /** ws is the sequence of worlds that the steps go through. */
  ghost predicate IsRun(ws: seq<World>, sts: seq<Step>) {
    && |ws| == |sts| + 1
    && forall i {:trigger StepAt(ws, sts, i)} :: 0 <= i < |sts| ==> StepAt(ws, sts, i)
  }

  ghost predicate StepAt(ws: seq<World>, sts: seq<Step>, i: nat)
    requires i < |sts| && |ws| == |sts| + 1
  {
    StepTo(ws[i], sts[i], ws[i + 1])
  }

  lemma StepInRun(ws: seq<World>, sts: seq<Step>, i: nat)
    requires IsRun(ws, sts) && i < |sts| && WorldOk(ws[i])
    ensures WorldOk(ws[i + 1])
  {
    assert StepAt(ws, sts, i);
    StepKeeps(ws[i], sts[i], ws[i + 1]);
  }

  /** Every world of every run satisfies the invariant: counts match references, nothing leaks, the free lists
      are exact, and only curenv runs. */
  lemma {:induction false} RunKeeps(ws: seq<World>, sts: seq<Step>, n: nat)
    requires IsRun(ws, sts) && WorldOk(ws[0]) && n < |ws|
    ensures WorldOk(ws[n])
  {
    if n > 0 {
      RunKeeps(ws, sts, n - 1);
      StepInRun(ws, sts, n - 1);
    }
  }

  /** At most one environment is ever running. */
  lemma OneRuns(ws: seq<World>, sts: seq<Step>, n: nat, e: nat, f: nat)
    requires IsRun(ws, sts) && WorldOk(ws[0]) && n < |ws|
    requires e < |ws[n].envs| && f < |ws[n].envs|
    requires ws[n].envs[e].status == ENV_RUNNING && ws[n].envs[f].status == ENV_RUNNING
    ensures e == f
  {
    RunKeeps(ws, sts, n);
    assert EnvOk(ws[n], e) && EnvOk(ws[n], f);
  }

  // ----- environment ids over runs -----

  /** Does step i of the run give slot e to a new environment? */
  predicate Allocates(w: World, st: Step, e: nat) {
    st.EnvAllocStep? && EnvAllocCode(w) == 0 && w.free[0] == e
  }

  /** How often the first n steps allocate slot e. */
  function Allocs(ws: seq<World>, sts: seq<Step>, e: nat, n: nat): nat
    requires n <= |sts| <= |ws|
  {
    if n == 0 then 0
    else Allocs(ws, sts, e, n - 1) + if Allocates(ws[n - 1], sts[n - 1], e) then 1 else 0
  }

  /** One step changes a slot's id only by allocating the slot. */
  lemma StepId(w: World, st: Step, w': World, e: nat)
    requires WorldOk(w) && StepTo(w, st, w') && e < NENV
    ensures w'.envs[e].id == if Allocates(w, st, e) then NextId(w.envs[e].id, e) else w.envs[e].id
    ensures !Live(w, e) && !Allocates(w, st, e) ==> !Live(w', e)
  {
    if w.free != [] { assert w.free[0] in w.free; }
  }

  lemma IdStepInRun(ws: seq<World>, sts: seq<Step>, i: nat, e: nat)
    requires IsRun(ws, sts) && i < |sts| && WorldOk(ws[i]) && e < NENV && |ws[i + 1].envs| == NENV
    ensures ws[i + 1].envs[e].id ==
      if Allocates(ws[i], sts[i], e) then NextId(ws[i].envs[e].id, e) else ws[i].envs[e].id
    ensures !Live(ws[i], e) && !Allocates(ws[i], sts[i], e) ==> !Live(ws[i + 1], e)
  {
    assert StepAt(ws, sts, i);
    StepId(ws[i], sts[i], ws[i + 1], e);
  }

  lemma {:induction false} IdAlongRun(ws: seq<World>, sts: seq<Step>, n: nat, e: nat)
    requires IsRun(ws, sts) && WorldOk(ws[0]) && n < |ws| && e < NENV
    ensures WorldOk(ws[n])
    ensures ws[n].envs[e].id == IdAfter(ws[0].envs[e].id, e, Allocs(ws, sts, e, n))
    ensures !Live(ws[0], e) && Allocs(ws, sts, e, n) == 0 ==> !Live(ws[n], e)
  {
    RunKeeps(ws, sts, n);
    if n > 0 {
      IdAlongRun(ws, sts, n - 1, e);
      IdStepInRun(ws, sts, n - 1, e);
    }
  }

  /** A context switch from w to w': e runs on its own directory, the one that was running is runnable, and nothing
      else changes. */
  ghost predicate Switched(w: World, e: nat, w': World) {
    && e < |w.envs| == |w'.envs| && w'.cur == Some(e) && Some(w'.cr3) == w.envs[e].pgdir
    && w'.envs[e] == w.envs[e].(status := ENV_RUNNING, runs := (w.envs[e].runs + 1) % 0x1_0000_0000)
    && (forall i: nat {:trigger w'.envs[i]} :: i < |w.envs| && i != e ==>
        w'.envs[i] == if w.cur == Some(i) && w.envs[i].status == ENV_RUNNING
                      then w.envs[i].(status := ENV_RUNNABLE) else w.envs[i])
    && w'.phys == w.phys && w'.free == w.free
  }

  lemma EnvRunSwitches(w: World, e: nat)
    requires WorldOk(w) && Live(w, e)
    ensures w.envs[e].pgdir.Some? && (w.cur.Some? ==> w.cur.value < |w.envs|)
    ensures Switched(w, e, EnvRun(w, e))
  {
    assert EnvOk(w, e);
    hide Consistent;
  }

  lemma RunSwitches(ws: seq<World>, sts: seq<Step>, n: nat)
    requires IsRun(ws, sts) && WorldOk(ws[0]) && n < |sts| && sts[n].EnvRunStep?
    ensures Switched(ws[n], sts[n].e, ws[n + 1])
  {
    RunKeeps(ws, sts, n);
    assert StepAt(ws, sts, n);
    EnvRunSwitches(ws[n], sts[n].e);
    hide WorldOk, IsRun, Switched;
  }

  /** After a slot is freed, its old id is good again exactly when the slot is in use and has been reallocated a
      multiple of 2^19 - 1 times. */
  lemma StaleIdRecurs(ws: seq<World>, sts: seq<Step>, n: nat, e: nat)
    requires IsRun(ws, sts) && WorldOk(ws[0]) && n < |ws| && e < NENV
    requires !Live(ws[0], e) && ws[0].envs[e].id != 0
    ensures WorldOk(ws[n])
    ensures Envid2Env(ws[n], ws[0].envs[e].id, false) ==
      if Live(ws[n], e) && Allocs(ws, sts, e, n) % GENERATIONS == 0 then Found(Some(e)) else BadEnv
  {
    IdAlongRun(ws, sts, n, e);
    assert EnvOk(ws[0], e);
    IdRecurs(ws[0].envs[e].id, e, Allocs(ws, sts, e, n));
    SlotIdX(ws[0].envs[e].id, e);
  }

  /** So envid2env rejects a freed id until the slot has been reallocated 2^19 - 1 times. */
  lemma StaleIdRejected(ws: seq<World>, sts: seq<Step>, n: nat, e: nat)
    requires IsRun(ws, sts) && WorldOk(ws[0]) && n < |ws| && e < NENV
    requires !Live(ws[0], e) && ws[0].envs[e].id != 0
    requires Allocs(ws, sts, e, n) < GENERATIONS
    ensures WorldOk(ws[n])
    ensures Envid2Env(ws[n], ws[0].envs[e].id, false) == BadEnv
  {
    StaleIdRecurs(ws, sts, n, e);
    IdAlongRun(ws, sts, n, e);
    MulMod(0, Allocs(ws, sts, e, n), GENERATIONS);
  }

  /** With checkperm set, a non-zero id finds an environment exactly when it is live, has that id, and is the
      current environment or a child of it; without a current environment, the id of a live one reads through NULL. */
  lemma Envid2EnvPermitted(w: World, envid: int, e: nat)
    requires WorldOk(w) && envid != 0
    ensures Envid2Env(w, envid, true) == Found(Some(e)) <==>
      && Live(w, e) && w.envs[e].id == envid && w.cur.Some?
      && (w.cur == Some(e) || w.envs[e].parent == w.envs[w.cur.value].id)
    ensures Envid2Env(w, envid, true) == NullRead <==>
      w.cur == None && Live(w, ENVX(envid)) && w.envs[ENVX(envid)].id == envid
  {
    Envid2EnvFinds(w, envid, e);
  }

  /** A live environment is found by its id, and by no other id but 0. */
  lemma Envid2EnvFinds(w: World, envid: int, e: nat)
    requires WorldOk(w) && envid != 0
    ensures Envid2Env(w, envid, false) == Found(Some(e)) <==> Live(w, e) && w.envs[e].id == envid
  {
    assert EnvOk(w, ENVX(envid));
    if Live(w, e) && w.envs[e].id == envid {
      assert EnvOk(w, e);
      SlotIdX(envid, e);
    }
  }
}
