/** TLB coherence over whole runs of page and environment operations. */
module TlbRuns {
  import opened Wrappers
  import opened Mmu
  import opened Phys
  import opened PhysInv
  import opened PageOps
  import opened FlatMap
  import opened AddrSpace
  import opened Envs
  import opened Tlb
  import Loader
  import TlbLoad

  /** env_setup_vm: the stores to the new directory's frame count as one, no directory reaches it yet. */
  ghost function SetupEvents(s: State): seq<Event>
    requires Shape(s) && s.free != [] && s.free[0] < |s.mem|
  {
    [Store(Alloc(s, true)), Store(Incref(Alloc(s, true), s.free[0])), Store(SetupVm(s))]
  }

  /** The stores, invalidations and directory loads of one step, in order. */
  ghost function StepEvents(w: World, st: Step, w': World): seq<Event>
    requires StepTo(w, st, w')
  {
    match st
    case PageInsertStep(d, f, va, perm) =>
      if CanWalk(w.phys, d, PDX(va)) then InsertEvents(w.phys, d, f, PDX(va), PTX(va), perm) else []
    case PageRemoveStep(d, va) => RemoveEvents(w.phys, d, PDX(va), PTX(va))
    case EnvAllocStep(_) => if EnvAllocCode(w) == 0 then SetupEvents(w.phys) else []
    case EnvRunStep(_) => [LoadCr3(w'.cr3)]
    case EnvFreeStep(e) =>
      (if w.cur == Some(e) then [LoadCr3(w.phys.kern)] else []) + DropSpaceEvents(w.phys, w.envs[e].pgdir.value)
    case LoadIcodeStep(e, b) => TlbLoad.LoadEvents(w.phys, w.envs[e].pgdir.value, b)
    case _ => [Store(w'.phys)]
  }

  /** The processor runs on the memory and the directory of the world, and its TLB is coherent. */
  ghost predicate Tracks(c: Cpu, w: World) {
    Coherent(c) && c.s == w.phys && c.cr3 == w.cr3
  }

  /** The events, one store at a time, take the processor to world w, and at every moment on the way the TLB is coherent
      but for a page that is invalidated next. */
  ghost predicate Guides(c: Cpu, es: seq<Event>, w: World) {
    Guarded(c, es) && FineGrained(c.s, es) && Tracks(Exec(c, es), w)
  }

  lemma ReachesGuides(c: Cpu, es: seq<Event>, w: World)
    requires Reaches(c, es, w.phys) && c.cr3 == w.cr3
    ensures Guides(c, es, w)
  {
    ReachesState(c, es, w.phys);
  }

  lemma Cr3IsDir(w: World)
    requires WorldOk(w)
    ensures w.cr3 < |w.phys.mem| && IsDir(w.phys.role[w.cr3])
  {
    KernIsDir(w.phys, multiset{});
    if w.cr3 != w.phys.kern { assert EnvOk(w, w.cur.value); }
  }

  lemma SetupCoherent(c: Cpu, x: multiset<nat>)
    requires Consistent(c.s, x) && c.s.free != [] && Coherent(c)
    requires c.cr3 < |c.s.mem| && IsDir(c.s.role[c.cr3])
    ensures c.s.free[0] < |c.s.mem|
    ensures Reaches(c, SetupEvents(c.s), SetupVm(c.s))
  {
    var s, f := c.s, c.s.free[0];
    SetupVmKeeps(s, x);
    var s1, s2, s3 := Alloc(s, true), Incref(Alloc(s, true), f), SetupVm(s);
    PlainStoreKeeps(s, x, s1, f, c.cr3);
    var c1 := Exec1(c, Store(s1));
    SameMemKeeps(s1, s2, c.cr3);
    var c2 := Exec1(c1, Store(s2));
    PlainStoreKeeps(s, x, s3, f, c.cr3);
    forall y: Cached {:trigger IsCurrent(s3, c.cr3, y)} | IsCurrent(s2, c.cr3, y) ensures IsCurrent(s3, c.cr3, y) {
      AllocSees(s, x, c.cr3, y);
    }
    Exec3(c, Store(s1), Store(s2), Store(s3));
    Always3(c, Store(s1), Store(s2), Store(s3));
    AlwaysGuarded(c, SetupEvents(s));
    ZeroIsUnused(s, x, f);
    FrameStore(s, s1, f);
    SameMem(s1, s2);
    FrameStore(s2, s3, f);
    Fine3(s, Store(s1), Store(s2), Store(s3));
  }

  /** Steps that store at most one frame of data, or only counts and lists. */
  lemma QuietStepCoherent(w: World, st: Step, w': World, c: Cpu)
    requires WorldOk(w) && StepTo(w, st, w') && Tracks(c, w)
    requires st.PageAllocStep? || st.PageFreeStep? || st.WriteStep?
    ensures Guides(c, StepEvents(w, st, w'), w')
  {
    var s, x := w.phys, multiset{};
    Cr3IsDir(w);
    match st {
      case PageAllocStep(zero) =>
        if s.free != [] {
          assert s.free[0] in s.free;
          ZeroIsUnused(s, x, s.free[0]);
          PlainStoreKeeps(s, x, w'.phys, s.free[0], c.cr3);
          FrameStore(s, w'.phys, s.free[0]);
        } else {
          SameMemKeeps(s, w'.phys, c.cr3);
        }
      case PageFreeStep(f) => SameMemKeeps(s, w'.phys, c.cr3);
      case WriteStep(f, data) =>
        PlainStoreKeeps(s, x, w'.phys, f, c.cr3);
        FrameStore(s, w'.phys, f);
    }
    ReachesOne(c, w'.phys);
    ReachesGuides(c, [Store(w'.phys)], w');
  }

  lemma SwitchCoherent(c: Cpu, d: nat)
    requires Coherent(c)
    ensures Coherent(Exec1(c, LoadCr3(d))) && Exec(c, [LoadCr3(d)]) == Exec1(c, LoadCr3(d))
    ensures Exec(c, [LoadCr3(d)]).s == c.s && Exec(c, [LoadCr3(d)]).cr3 == d
    ensures Guarded(c, [LoadCr3(d)]) && FineGrained(c.s, [LoadCr3(d)])
  {
    assert [LoadCr3(d)][1..] == [];
    ExecOne(c, LoadCr3(d));
    AlwaysOne(c, LoadCr3(d));
    AlwaysGuarded(c, [LoadCr3(d)]);
  }

  /** What an env_free step does to memory and the loaded directory. */
  lemma FreeStep(w: World, e: nat, w': World, c: Cpu)
    requires WorldOk(w) && StepTo(w, EnvFreeStep(e), w') && Tracks(c, w)
    ensures e < |w.envs| && w.envs[e].pgdir.Some?
    ensures Coherent(c) && c.s == w.phys && c.cr3 == w.cr3
    ensures var s, d := w.phys, w.envs[e].pgdir.value;
      && Consistent(s, multiset{}) && d < |s.mem| && s.role[d] == EnvDir
      && s.kern < |s.mem| && IsDir(s.role[s.kern]) && s.kern != d
      && w.cr3 < |s.mem| && IsDir(s.role[w.cr3]) && (w.cur != Some(e) ==> w.cr3 != d)
      && w'.phys == DropSpace(s, d) && w'.cr3 == (if w.cur == Some(e) then s.kern else w.cr3)
      && StepEvents(w, EnvFreeStep(e), w') ==
         (if w.cur == Some(e) then [LoadCr3(s.kern)] else []) + DropSpaceEvents(s, d)
  {
    assert EnvOk(w, e);
    KernIsDir(w.phys, multiset{});
    Cr3IsDir(w);
    hide Consistent, DropSpace, DropSpaceEvents;
  }

  lemma GuidesAppend(c: Cpu, es: seq<Event>, fs: seq<Event>, w: World)
    requires Guarded(c, es) && FineGrained(c.s, es) && Guides(Exec(c, es), fs, w)
    ensures Guides(c, es + fs, w)
  {
    ExecState(c, es);
    FineAppend(c.s, es, fs);
    GuardedAppend(c, es, fs);
    ExecAppend(c, es, fs);
  }

  lemma FreeStepCoherent(w: World, e: nat, w': World, c: Cpu)
    requires WorldOk(w) && StepTo(w, EnvFreeStep(e), w') && Tracks(c, w)
    ensures Guides(c, StepEvents(w, EnvFreeStep(e), w'), w')
  {
    hide *;
    FreeStep(w, e, w', c);
    var s, d := w.phys, w.envs[e].pgdir.value;
    var es := DropSpaceEvents(s, d);
    if w.cur == Some(e) {
      SwitchCoherent(c, s.kern);
      var c1 := Exec(c, [LoadCr3(s.kern)]);
      DropSpaceCoherent(c1, multiset{}, d);
      ReachesGuides(c1, es, w');
      GuidesAppend(c, [LoadCr3(s.kern)], es, w');
    } else {
      DropSpaceCoherent(c, multiset{}, d);
      ReachesGuides(c, es, w');
      assert [] + es == es;
    }
  }

  lemma LoadStepCoherent(w: World, e: nat, b: seq<Loader.Byte>, w': World, c: Cpu)
    requires WorldOk(w) && StepTo(w, LoadIcodeStep(e, b), w') && Tracks(c, w)
    ensures Guides(c, StepEvents(w, LoadIcodeStep(e, b), w'), w')
  {
    assert EnvOk(w, e);
    TlbLoad.LoadCoherent(c, multiset{}, w.envs[e].pgdir.value, b);
  }

  /** Each operation leaves the TLB coherent and is guarded on the way, and its events leave exactly the memory and
      directory of the step. */
  lemma StepCoherent(w: World, st: Step, w': World, c: Cpu)
    requires WorldOk(w) && StepTo(w, st, w') && Tracks(c, w)
    ensures Guides(c, StepEvents(w, st, w'), w')
  {
    Cr3IsDir(w);
    hide Guarded, FineGrained;
    match st {
      case PageInsertStep(d, f, va, perm) =>
        if CanWalk(w.phys, d, PDX(va)) {
          InsertCoherent(c, multiset{}, d, f, PDX(va), PTX(va), perm);
        } else {
          ReachesNothing(c);
        }
        ReachesGuides(c, StepEvents(w, st, w'), w');
      case PageRemoveStep(d, va) =>
        RemoveCoherent(c, multiset{}, d, PDX(va), PTX(va));
        ReachesGuides(c, StepEvents(w, st, w'), w');
      case EnvAllocStep(_) =>
        if EnvAllocCode(w) == 0 {
          SetupCoherent(c, multiset{});
        } else {
          ReachesNothing(c);
        }
        ReachesGuides(c, StepEvents(w, st, w'), w');
      case EnvRunStep(_) => SwitchCoherent(c, w'.cr3);
      case EnvFreeStep(e) => FreeStepCoherent(w, e, w', c);
      case LoadIcodeStep(e, b) => LoadStepCoherent(w, e, b, w', c);
      case _ => QuietStepCoherent(w, st, w', c);
    }
  }

  /** The events of step n of a run. */
  ghost function EventsAt(ws: seq<World>, sts: seq<Step>, n: nat): seq<Event>
    requires IsRun(ws, sts) && n < |sts|
  {
    assert StepAt(ws, sts, n);
    StepEvents(ws[n], sts[n], ws[n + 1])
  }

  /** The processor after n steps of a run. */
  ghost function CpuAfter(ws: seq<World>, sts: seq<Step>, c: Cpu, n: nat): Cpu
    requires IsRun(ws, sts) && n <= |sts|
  {
    if n == 0 then c else Exec(CpuAfter(ws, sts, c, n - 1), EventsAt(ws, sts, n - 1))
  }

  lemma CpuStep(ws: seq<World>, sts: seq<Step>, c: Cpu, n: nat)
    requires IsRun(ws, sts) && WorldOk(ws[0]) && n < |sts|
    requires Tracks(CpuAfter(ws, sts, c, n), ws[n])
    ensures Tracks(CpuAfter(ws, sts, c, n + 1), ws[n + 1])
    ensures Guarded(CpuAfter(ws, sts, c, n), EventsAt(ws, sts, n))
    ensures FineGrained(ws[n].phys, EventsAt(ws, sts, n))
  {
    RunKeeps(ws, sts, n);
    assert StepAt(ws, sts, n);
    hide WorldOk, StepTo, StepEvents, Exec, Guarded, Coherent, FineGrained;
    StepCoherent(ws[n], sts[n], ws[n + 1], CpuAfter(ws, sts, c, n));
  }

  lemma CpuStart(ws: seq<World>, sts: seq<Step>, c: Cpu)
    requires IsRun(ws, sts)
    ensures CpuAfter(ws, sts, c, 0) == c
  {
  }

  /** After every step of every run, each translation that may be cached for the loaded directory equals its
      current table entry; and within the next step that holds after each single store, invalidation and directory
      load, but for a page that is invalidated by the very next event. */
  lemma {:induction false} RunCoherent(ws: seq<World>, sts: seq<Step>, c: Cpu, n: nat)
    requires IsRun(ws, sts) && WorldOk(ws[0]) && n <= |sts|
    requires Tracks(c, ws[0])
    ensures Tracks(CpuAfter(ws, sts, c, n), ws[n])
    ensures n < |sts| ==> Guarded(CpuAfter(ws, sts, c, n), EventsAt(ws, sts, n))
    ensures n < |sts| ==> FineGrained(ws[n].phys, EventsAt(ws, sts, n))
  {
    hide *;
    if n == 0 {
      CpuStart(ws, sts, c);
    } else {
      RunCoherent(ws, sts, c, n - 1);
      CpuStep(ws, sts, c, n - 1);
    }
    if n < |sts| {
      CpuStep(ws, sts, c, n);
    }
  }
}
