/** Which translations the processor may have cached while the page tables are edited (section 4.10 of the Intel
    SDM, Volume 3A). The TLB may cache any present entry at any moment and drop entries at will, so what is tracked
    is the set of translations that may be cached; every actual TLB is a subset of it. */
module Tlb {
  import opened Wrappers
  import opened Mmu
  import opened Phys
  import opened PhysInv
  import opened PageOps
  import opened FlatMap
  import opened AddrSpace
  import opened Envs

  /** A cached translation: page (p, q) translated by entry w. */
  datatype Cached = Cached(p: nat, q: nat, w: Word)

  /** The processor: memory, the loaded directory, and the translations that may be cached. */
  datatype Cpu = Cpu(s: State, cr3: nat, tlb: set<Cached>)

  datatype Event =
    | Store(s: State)              // a store, after which memory is s
    | Invlpg(p: nat, q: nat)
    | LoadCr3(d: nat)              // lcr3: no page is global, so everything is flushed

  ghost predicate IsCurrent(s: State, d: nat, c: Cached) {
    && d < |s.mem| && c.p < NENTRIES && c.q < NENTRIES
    && Present(c.w) && c.w == Pte(s, d, c.p, c.q)
  }

  /** Every translation that a walk of the tables can produce now. */
  ghost function Current(s: State, d: nat): (r: set<Cached>)
    ensures forall c :: c in r <==> IsCurrent(s, d, c)
  {
    if d >= |s.mem| then {}
    else set p: nat, q: nat | p < NENTRIES && q < NENTRIES && Present(Pte(s, d, p, q)) :: Cached(p, q, Pte(s, d, p, q))
  }

  ghost function Fill(c: Cpu): Cpu {
    c.(tlb := c.tlb + Current(c.s, c.cr3))
  }

  /** One event, after which the TLB may fill. */
  ghost function Exec1(c: Cpu, e: Event): Cpu {
    match e
    case Store(s) => Fill(c.(s := s))
    case Invlpg(p, q) => Fill(c.(tlb := set x | x in c.tlb && (x.p, x.q) != (p, q)))
    case LoadCr3(d) => Fill(Cpu(c.s, d, {}))
  }

  ghost function Exec(c: Cpu, es: seq<Event>): Cpu
    decreases |es|
  {
    if es == [] then c else Exec(Exec1(c, es[0]), es[1..])
  }

  /** Every cached translation of the loaded directory equals its current table entry. */
  ghost predicate Coherent(c: Cpu) {
    forall x {:trigger IsCurrent(c.s, c.cr3, x)} :: x in c.tlb ==> IsCurrent(c.s, c.cr3, x)
  }

  // ----- the events of the operations, in the order of the source -----

  ghost function WalkEvents(s: State, d: nat, p: nat): seq<Event>
    requires Shape(s) && d < |s.mem| && p < NENTRIES && CanWalk(s, d, p) && (s.free != [] ==> s.free[0] < |s.mem|)
  {
    if HasTable(s, d, p) then []
    else [Store(Alloc(s, true)), Store(Incref(Alloc(s, true), s.free[0])), Store(MakeTable(s, d, p))]
  }

  /** page_remove: page_decref, `*pte = 0`, tlb_invalidate. */
  ghost function RemoveEvents(s: State, d: nat, p: nat, q: nat): seq<Event>
    requires d < |s.mem| && p < NENTRIES && q < NENTRIES && RemoveRuns(s, d, p, q)
  {
    var w := Pte(s, d, p, q);
    if !Present(w) then []
    else [Store(Decref(s, FrameOf(w))), Store(Remove(s, d, p, q)), Invlpg(p, q)]
  }

  /** page_insert: pgdir_walk, count, page_remove, and the store of the new entry, after which nothing is
      invalidated. */
  ghost function InsertEvents(s: State, d: nat, f: nat, p: nat, q: nat, perm: nat): seq<Event>
    requires Shape(s) && InsertArgs(s, d, f, p, q, perm) && InsertRuns(s, d, f, p, q, perm)
  {
    var s2 := Incref(Walk(s, d, p), f);
    WalkEvents(s, d, p) + [Store(s2)] + RemoveEvents(s2, d, p, q) + [Store(Insert(s, d, f, p, q, perm))]
  }

  // ----- every moment of a list of events -----

  /** Every cached translation is current, except perhaps those of page (p, q). */
  ghost predicate CoherentBut(c: Cpu, p: nat, q: nat) {
    forall x {:trigger IsCurrent(c.s, c.cr3, x)} :: x in c.tlb && (x.p, x.q) != (p, q) ==> IsCurrent(c.s, c.cr3, x)
  }

  /** After n of the events the TLB is coherent, unless the very next event is an invalidation: then it is coherent
      but for the page about to be invalidated. */
  ghost predicate MomentOk(c: Cpu, es: seq<Event>, n: nat)
    requires n <= |es|
  {
    var c' := Exec(c, es[..n]);
    Coherent(c') || (n < |es| && es[n].Invlpg? && CoherentBut(c', es[n].p, es[n].q))
  }

  ghost predicate Guarded(c: Cpu, es: seq<Event>) {
    forall n: nat {:trigger MomentOk(c, es, n)} :: n <= |es| ==> MomentOk(c, es, n)
  }

  ghost predicate CoherentAt(c: Cpu, es: seq<Event>, n: nat)
    requires n <= |es|
  {
    Coherent(Exec(c, es[..n]))
  }

  /** The TLB is coherent after every single event. */
  ghost predicate AlwaysCoherent(c: Cpu, es: seq<Event>) {
    forall n: nat {:trigger CoherentAt(c, es, n)} :: n <= |es| ==> CoherentAt(c, es, n)
  }

  /** One store: at most one word changes, or the contents of one frame that is neither table nor directory. */
  ghost predicate OneStore(s: State, s': State) {
    || s'.mem == s.mem
    || (exists t: nat, i: nat :: OneWord(s, s', t, i))
    || (exists t: nat :: OneFrame(s, s', t))
  }

  ghost predicate OneWord(s: State, s': State, t: nat, i: nat) {
    t < |s.mem| == |s'.mem| && i < NENTRIES && s'.mem == s.mem[t := s.mem[t][i := s'.mem[t][i]]]
  }

  ghost predicate OneFrame(s: State, s': State, t: nat) {
    t < |s.mem| == |s'.mem| && t < |s.role| && s.role[t] == Plain && s'.mem == s.mem[t := s'.mem[t]]
  }

  /** The memory that a list of events leaves behind: that of its last store. */
  ghost function LastState(s: State, es: seq<Event>): State
    decreases |es|
  {
    if es == [] then s else LastState(if es[0].Store? then es[0].s else s, es[1..])
  }

  /** Every store event is one store. */
  ghost predicate FineGrained(s: State, es: seq<Event>)
    decreases |es|
  {
    es == [] ||
    ((es[0].Store? ==> OneStore(s, es[0].s)) && FineGrained(if es[0].Store? then es[0].s else s, es[1..]))
  }

  lemma {:induction false} FineAppend(s: State, es: seq<Event>, fs: seq<Event>)
    requires FineGrained(s, es) && FineGrained(LastState(s, es), fs)
    ensures FineGrained(s, es + fs)
    decreases |es|
  {
    if es == [] {
      assert es + fs == fs;
    } else {
      assert (es + fs)[1..] == es[1..] + fs;
      FineAppend(if es[0].Store? then es[0].s else s, es[1..], fs);
    }
  }

  lemma Fine2(s: State, e1: Event, e2: Event)
    requires e1.Store? && e2.Store? && OneStore(s, e1.s) && OneStore(e1.s, e2.s)
    ensures FineGrained(s, [e1, e2])
  {
    assert [e1, e2][1..] == [e2] && [e2][1..] == [];
    hide OneStore;
    assert FineGrained(e1.s, [e2]);
  }

  lemma Fine3(s: State, e1: Event, e2: Event, e3: Event)
    requires e1.Store? && OneStore(s, e1.s) && e2.Store? && OneStore(e1.s, e2.s)
    requires e3.Store? ==> OneStore(e2.s, e3.s)
    ensures FineGrained(s, [e1, e2, e3])
  {
    assert [e1, e2, e3][1..] == [e2, e3] && [e2, e3][1..] == [e3] && [e3][1..] == [];
    hide OneStore;
    assert FineGrained(e2.s, [e3]);
    assert FineGrained(e1.s, [e2, e3]);
  }

  lemma WordStore(s: State, s': State, t: nat, i: nat, w: Word)
    requires t < |s.mem| && i < NENTRIES && s'.mem == s.mem[t := s.mem[t][i := w]]
    ensures OneStore(s, s')
  {
    assert OneWord(s, s', t, i);
  }

  lemma FrameStore(s: State, s': State, t: nat)
    requires t < |s.mem| == |s'.mem| && t < |s.role| && s.role[t] == Plain && s'.mem == s.mem[t := s'.mem[t]]
    ensures OneStore(s, s')
  {
    assert OneFrame(s, s', t);
  }

  /** page_remove's stores: a count, and the entry. */
  lemma RemoveFine(s: State, d: nat, p: nat, q: nat)
    requires d < |s.mem| && p < NENTRIES && q < NENTRIES && RemoveRuns(s, d, p, q) && |s.ref| == |s.mem|
    ensures FineGrained(s, RemoveEvents(s, d, p, q))
  {
    var w := Pte(s, d, p, q);
    if Present(w) {
      var s1, s2 := Decref(s, FrameOf(w)), Remove(s, d, p, q);
      WordStore(s1, s2, TableOf(s, d, p), q, 0);
      hide OneStore;
      assert OneStore(s, s1) by { SameMem(s, s1); }
      Fine3(s, Store(s1), Store(s2), Invlpg(p, q));
    }
  }

  lemma SameMem(s: State, s': State)
    requires s'.mem == s.mem
    ensures OneStore(s, s')
  {
  }

  /** pgdir_walk's stores: the new table's frame is zeroed, its count goes up, and it is entered. */
  lemma WalkFine(s: State, x: multiset<nat>, d: nat, p: nat)
    requires Consistent(s, x) && CanHang(s, d, p) && CanWalk(s, d, p)
    ensures s.free != [] ==> s.free[0] < |s.mem|
    ensures FineGrained(s, WalkEvents(s, d, p))
  {
    if s.free != [] { assert s.free[0] in s.free; }
    if !HasTable(s, d, p) {
      var t := s.free[0];
      ZeroIsUnused(s, x, t);
      MakeTableKeeps(s, x, d, p);
      var s1, s2, s3 := Alloc(s, true), Incref(Alloc(s, true), t), MakeTable(s, d, p);
      FrameStore(s, s1, t);
      SameMem(s1, s2);
      WordStore(s2, s3, d, p, s3.mem[d][p]);
      hide OneStore;
      Fine3(s, Store(s1), Store(s2), Store(s3));
    }
  }

  /** The events are guarded and fine-grained, keep the loaded directory, and end with memory s. */
  ghost predicate Reaches(c: Cpu, es: seq<Event>, s: State) {
    Guarded(c, es) && FineGrained(c.s, es) && Exec(c, es).s == s && Exec(c, es).cr3 == c.cr3
  }

  lemma {:induction false} ExecAppend(c: Cpu, es: seq<Event>, fs: seq<Event>)
    ensures Exec(c, es + fs) == Exec(Exec(c, es), fs)
    decreases |es|
  {
    if es == [] {
      assert es + fs == fs;
    } else {
      assert (es + fs)[1..] == es[1..] + fs;
      ExecAppend(Exec1(c, es[0]), es[1..], fs);
    }
  }

  lemma ExecOne(c: Cpu, e: Event)
    ensures Exec(c, [e]) == Exec1(c, e)
  {
    assert [e][1..] == [];
    assert Exec(c, [e]) == Exec(Exec1(c, e), []);
  }

  /** A prefix of a concatenation. */
  lemma PrefixAppend(c: Cpu, es: seq<Event>, fs: seq<Event>, n: nat)
    requires n <= |es + fs|
    ensures n <= |es| ==> Exec(c, (es + fs)[..n]) == Exec(c, es[..n])
    ensures n >= |es| ==> Exec(c, (es + fs)[..n]) == Exec(Exec(c, es), fs[..n - |es|])
  {
    if n <= |es| {
      assert (es + fs)[..n] == es[..n];
    }
    if n >= |es| {
      assert (es + fs)[..n] == es + fs[..n - |es|];
      ExecAppend(c, es, fs[..n - |es|]);
    }
  }

  lemma GuardedAppend(c: Cpu, es: seq<Event>, fs: seq<Event>)
    requires Guarded(c, es) && Guarded(Exec(c, es), fs)
    ensures Guarded(c, es + fs)
  {
    hide Coherent, CoherentBut, Exec;
    forall n: nat {:trigger MomentOk(c, es + fs, n)} | n <= |es + fs| ensures MomentOk(c, es + fs, n) {
      PrefixAppend(c, es, fs, n);
      if n < |es| {
        assert MomentOk(c, es, n);
      } else {
        assert MomentOk(Exec(c, es), fs, n - |es|);
      }
    }
  }

  lemma AlwaysAppend(c: Cpu, es: seq<Event>, fs: seq<Event>)
    ensures AlwaysCoherent(c, es + fs) <==> AlwaysCoherent(c, es) && AlwaysCoherent(Exec(c, es), fs)
  {
    hide Coherent, Exec;
    var c1 := Exec(c, es);
    forall n: nat | n <= |es| ensures CoherentAt(c, es + fs, n) == CoherentAt(c, es, n) {
      PrefixAppend(c, es, fs, n);
    }
    forall n: nat | n <= |fs| ensures CoherentAt(c, es + fs, |es| + n) == CoherentAt(c1, fs, n) {
      PrefixAppend(c, es, fs, |es| + n);
    }
    if AlwaysCoherent(c, es + fs) {
      forall n: nat {:trigger CoherentAt(c1, fs, n)} | n <= |fs| ensures CoherentAt(c1, fs, n) {
        assert CoherentAt(c, es + fs, |es| + n);
      }
      forall n: nat {:trigger CoherentAt(c, es, n)} | n <= |es| ensures CoherentAt(c, es, n) {
        assert CoherentAt(c, es + fs, n);
      }
    }
    if AlwaysCoherent(c, es) && AlwaysCoherent(c1, fs) {
      forall n: nat {:trigger CoherentAt(c, es + fs, n)} | n <= |es + fs| ensures CoherentAt(c, es + fs, n) {
        if n <= |es| {
          assert CoherentAt(c, es, n);
        } else {
          assert CoherentAt(c1, fs, n - |es|);
        }
      }
    }
  }

  lemma AlwaysGuarded(c: Cpu, es: seq<Event>)
    requires AlwaysCoherent(c, es)
    ensures Guarded(c, es)
  {
    forall n: nat {:trigger MomentOk(c, es, n)} | n <= |es| ensures MomentOk(c, es, n) {
      assert CoherentAt(c, es, n);
    }
  }

  lemma AlwaysNothing(c: Cpu)
    ensures AlwaysCoherent(c, []) <==> Coherent(c)
  {
    assert CoherentAt(c, [], 0) <==> Coherent(c);
  }

  lemma AlwaysOne(c: Cpu, e: Event)
    ensures AlwaysCoherent(c, [e]) <==> Coherent(c) && Coherent(Exec1(c, e))
  {
    ExecOne(c, e);
    assert [e][..1] == [e];
    assert CoherentAt(c, [e], 0) <==> Coherent(c);
    assert CoherentAt(c, [e], 1) <==> Coherent(Exec1(c, e));
  }

  lemma Exec3(c: Cpu, e1: Event, e2: Event, e3: Event)
    ensures Exec(c, [e1, e2, e3]) == Exec1(Exec1(Exec1(c, e1), e2), e3)
  {
    hide *;
    ExecAppend(c, [e1], [e2]);
    ExecAppend(c, [e1] + [e2], [e3]);
    ExecOne(c, e1);
    ExecOne(Exec1(c, e1), e2);
    ExecOne(Exec1(Exec1(c, e1), e2), e3);
    assert [e1] + [e2] + [e3] == [e1, e2, e3];
  }

  lemma Always3(c: Cpu, e1: Event, e2: Event, e3: Event)
    ensures var c1 := Exec1(c, e1);
      var c2 := Exec1(c1, e2);
      AlwaysCoherent(c, [e1, e2, e3])
      <==> Coherent(c) && Coherent(c1) && Coherent(c2) && Coherent(Exec1(c2, e3))
  {
    hide *;
    var c1 := Exec1(c, e1);
    var c2 := Exec1(c1, e2);
    ExecAppend(c, [e1], [e2]);
    ExecOne(c, e1);
    ExecOne(c1, e2);
    AlwaysAppend(c, [e1], [e2]);
    AlwaysAppend(c, [e1] + [e2], [e3]);
    AlwaysOne(c, e1);
    AlwaysOne(c1, e2);
    AlwaysOne(c2, e3);
    assert [e1] + [e2] + [e3] == [e1, e2, e3];
  }

  /** Three events of which the last is an invalidation. */
  lemma Guarded3(c: Cpu, e1: Event, e2: Event, e3: Event)
    requires Coherent(c) && Coherent(Exec1(c, e1)) && e3.Invlpg?
    requires CoherentBut(Exec1(Exec1(c, e1), e2), e3.p, e3.q)
    ensures Guarded(c, [e1, e2, e3])
  {
    var es := [e1, e2, e3];
    var c1 := Exec1(c, e1);
    var c2 := Exec1(c1, e2);
    InvlpgCoherent(c2, e3.p, e3.q);
    Exec3(c, e1, e2, e3);
    ExecAppend(c, [e1], [e2]);
    ExecOne(c, e1);
    ExecOne(c1, e2);
    hide Exec, Exec1, Coherent, CoherentBut;
    assert es[..0] == [] && es[..1] == [e1] && es[..2] == [e1] + [e2] && es[..3] == es;
    assert Exec(c, []) == c by { ExecNothing(c); }
    assert MomentOk(c, es, 0) && MomentOk(c, es, 1) && MomentOk(c, es, 2) && MomentOk(c, es, 3);
  }

  lemma ExecNothing(c: Cpu)
    ensures Exec(c, []) == c
  {
  }

  lemma ReachesState(c: Cpu, es: seq<Event>, s: State)
    requires Reaches(c, es, s)
    ensures Exec(c, es).s == s && Exec(c, es).cr3 == c.cr3 && Coherent(Exec(c, es))
  {
    assert es[..|es|] == es;
    assert MomentOk(c, es, |es|);
  }

  lemma ReachesNothing(c: Cpu)
    requires Coherent(c)
    ensures Reaches(c, [], c.s)
  {
    AlwaysNothing(c);
    AlwaysGuarded(c, []);
  }

  lemma ReachesOne(c: Cpu, s: State)
    requires Coherent(c) && KeepsPresent(c.s, s, c.cr3) && OneStore(c.s, s)
    ensures AlwaysCoherent(c, [Store(s)]) && Reaches(c, [Store(s)], s)
  {
    assert [Store(s)][1..] == [];
    StoreCoherent(c, s);
    AlwaysOne(c, Store(s));
    AlwaysGuarded(c, [Store(s)]);
    ExecOne(c, Store(s));
  }

  lemma ReachesAppend(c: Cpu, es: seq<Event>, s: State, fs: seq<Event>, s': State)
    requires Reaches(c, es, s) && Reaches(Exec(c, es), fs, s')
    ensures Reaches(c, es + fs, s')
  {
    ExecAppend(c, es, fs);
    GuardedAppend(c, es, fs);
    ExecState(c, es);
    FineAppend(c.s, es, fs);
  }

  // ----- events that keep coherence -----

  /** A store is harmless when it changes no present entry of the loaded directory. */
  ghost predicate KeepsPresent(s: State, s': State, d: nat) {
    forall c: Cached {:trigger IsCurrent(s', d, c)} :: IsCurrent(s, d, c) ==> IsCurrent(s', d, c)
  }

  lemma StoreCoherent(c: Cpu, s': State)
    requires Coherent(c) && KeepsPresent(c.s, s', c.cr3)
    ensures Coherent(Exec1(c, Store(s')))
  {
  }

  lemma SameMemKeeps(s: State, s': State, d: nat)
    requires s'.mem == s.mem
    ensures KeepsPresent(s, s', d)
  {
    forall c: Cached {:trigger IsCurrent(s', d, c)} | IsCurrent(s, d, c) ensures IsCurrent(s', d, c) {
      SameWords(s, s', d, c.p, c.q);
    }
  }

  /** Any directory entry's table: a table frame, or the directory itself for the self map. */
  lemma TableAny(s: State, x: multiset<nat>, d: nat, p: nat)
    requires Consistent(s, x) && d < |s.mem| && IsDir(s.role[d]) && p < NENTRIES && HasTable(s, d, p)
    ensures TableOf(s, d, p) < |s.mem|
    ensures if p == UVPTX then TableOf(s, d, p) == d else s.role[TableOf(s, d, p)] == TableRole(d, p)
  {
    if p == UVPTX {
      assert WordOk(s, d, p);
    } else {
      TableKind(s, x, d, p, 0);
    }
  }

  /** Writing frames that are not tables or directories changes no translation. */
  lemma PlainStoreKeeps(s: State, x: multiset<nat>, s': State, f: nat, d: nat)
    requires Consistent(s, x) && d < |s.mem| && IsDir(s.role[d])
    requires f < |s.mem| && s.role[f] == Plain && |s'.mem| == |s.mem| && s'.mem == s.mem[f := s'.mem[f]]
    ensures KeepsPresent(s, s', d)
  {
    forall c: Cached {:trigger IsCurrent(s', d, c)} | IsCurrent(s, d, c) ensures IsCurrent(s', d, c) {
      TableAny(s, x, d, c.p);
    }
  }

  /** Hanging a new zeroed table off an empty entry changes no present translation of any directory. */
  lemma MakeTablePresent(s: State, x: multiset<nat>, d: nat, p: nat, r: nat)
    requires Consistent(s, x) && CanHang(s, d, p) && !HasTable(s, d, p) && s.free != []
    requires r < |s.mem| && IsDir(s.role[r])
    ensures s.free[0] < |s.mem| && KeepsPresent(s, MakeTable(s, d, p), r)
  {
    MakeTableKeeps(s, x, d, p);
    var s' := MakeTable(s, d, p);
    forall c: Cached {:trigger IsCurrent(s', r, c)} | IsCurrent(s, r, c) ensures IsCurrent(s', r, c) {
      TableAny(s, x, r, c.p);
    }
  }

  lemma WalkCoherent(c: Cpu, x: multiset<nat>, d: nat, p: nat)
    requires Consistent(c.s, x) && CanHang(c.s, d, p) && CanWalk(c.s, d, p) && Coherent(c)
    requires c.cr3 < |c.s.mem| && IsDir(c.s.role[c.cr3])
    ensures c.s.free != [] ==> c.s.free[0] < |c.s.mem|
    ensures AlwaysCoherent(c, WalkEvents(c.s, d, p)) && Reaches(c, WalkEvents(c.s, d, p), Walk(c.s, d, p))
  {
    WalkKeeps(c.s, x, d, p);
    WalkFine(c.s, x, d, p);
    AlwaysNothing(c);
    if !HasTable(c.s, d, p) {
      var s, t := c.s, c.s.free[0];
      assert t in s.free;
      ZeroIsUnused(s, x, t);
      var s1, s2, s3 := Alloc(s, true), Incref(Alloc(s, true), t), MakeTable(s, d, p);
      PlainStoreKeeps(s, x, s1, t, c.cr3);
      var c1 := Exec1(c, Store(s1));
      SameMemKeeps(s1, s2, c.cr3);
      var c2 := Exec1(c1, Store(s2));
      MakeTablePresent(s, x, d, p, c.cr3);
      assert KeepsPresent(s2, s3, c.cr3) by {
        forall y: Cached {:trigger IsCurrent(s3, c.cr3, y)} | IsCurrent(s2, c.cr3, y) ensures IsCurrent(s3, c.cr3, y) {
          AllocSees(s, x, c.cr3, y);
        }
      }
      Always3(c, Store(s1), Store(s2), Store(s3));
      Exec3(c, Store(s1), Store(s2), Store(s3));
    }
    AlwaysGuarded(c, WalkEvents(c.s, d, p));
  }

  /** Zeroing a free frame shows through no directory. */
  lemma AllocSees(s: State, x: multiset<nat>, d: nat, y: Cached)
    requires Consistent(s, x) && s.free != [] && d < |s.mem| && IsDir(s.role[d])
    ensures s.free[0] < |s.mem|
    ensures IsCurrent(Incref(Alloc(s, true), s.free[0]), d, y) ==> IsCurrent(s, d, y)
  {
    var t := s.free[0];
    assert t in s.free;
    ZeroIsUnused(s, x, t);
    if y.p < NENTRIES && HasTable(s, d, y.p) { TableAny(s, x, d, y.p); }
  }

  /** Writing the entry of user page (p, q) of d shows at that page of d and nowhere else. */
  lemma SetPteSees(s: State, x: multiset<nat>, d: nat, p: nat, q: nat, w: Word, r: nat, y: Cached)
    requires Consistent(s, x) && IsPage(s, d, p, q) && p < UTOPX && HasTable(s, d, p) && TableOf(s, d, p) < |s.mem|
    requires r < |s.mem| && IsDir(s.role[r])
    requires IsCurrent(s, r, y) && (r != d || (y.p, y.q) != (p, q))
    ensures IsCurrent(SetWord(s, TableOf(s, d, p), q, w), r, y)
  {
    TableAny(s, x, r, y.p);
    TableAny(s, x, d, p);
  }

  lemma RemoveSees(s: State, x: multiset<nat>, d: nat, p: nat, q: nat, r: nat, y: Cached)
    requires Consistent(s, x) && IsPage(s, d, p, q) && p < UTOPX && Present(Pte(s, d, p, q))
    requires r < |s.mem| && IsDir(s.role[r])
    requires IsCurrent(s, r, y) && (r != d || (y.p, y.q) != (p, q))
    ensures RemoveRuns(s, d, p, q) && IsCurrent(Remove(s, d, p, q), r, y)
  {
    RemoveKeeps(s, x, d, p, q);
    TableAny(s, x, d, p);
    SetPteSees(s, x, d, p, q, 0, r, y);
    SameWords(SetWord(s, TableOf(s, d, p), q, 0), Remove(s, d, p, q), r, y.p, y.q);
  }

  /** page_remove keeps the TLB coherent whether or not it edits the loaded directory. Between its store and its
      invalidation one page may be stale, which happens exactly when it unmaps a page of the loaded directory. */
  lemma RemoveCoherent(c: Cpu, x: multiset<nat>, d: nat, p: nat, q: nat)
    requires Consistent(c.s, x) && IsPage(c.s, d, p, q) && p < UTOPX && Coherent(c)
    requires c.cr3 < |c.s.mem| && IsDir(c.s.role[c.cr3])
    ensures RemoveRuns(c.s, d, p, q)
    ensures Reaches(c, RemoveEvents(c.s, d, p, q), Remove(c.s, d, p, q))
    ensures AlwaysCoherent(c, RemoveEvents(c.s, d, p, q)) <==> c.cr3 != d || !Present(Pte(c.s, d, p, q))
  {
    RemoveKeeps(c.s, x, d, p, q);
    var s := c.s;
    var w := Pte(s, d, p, q);
    if Present(w) {
      var s1, s2 := Decref(s, FrameOf(w)), Remove(s, d, p, q);
      SameMemKeeps(s, s1, c.cr3);
      StoreCoherent(c, s1);
      RemoveStore(c, x, d, p, q);
      RemoveFine(s, d, p, q);
      hide FineGrained, Consistent, Coherent, CoherentBut, Exec, Exec1, Remove, Decref, Guarded, AlwaysCoherent;
      var c1 := Exec1(c, Store(s1));
      var c2 := Exec1(c1, Store(s2));
      InvlpgCoherent(c2, p, q);
      Exec3(c, Store(s1), Store(s2), Invlpg(p, q));
      Guarded3(c, Store(s1), Store(s2), Invlpg(p, q));
      Always3(c, Store(s1), Store(s2), Invlpg(p, q));
      ExecKeeps(c, Store(s1), Store(s2), Invlpg(p, q));
    } else {
      ReachesNothing(c);
      AlwaysNothing(c);
    }
  }

  lemma ExecKeeps(c: Cpu, e1: Event, e2: Event, e3: Event)
    requires e1.Store? && e2.Store? && e3.Invlpg?
    ensures var c3 := Exec1(Exec1(Exec1(c, e1), e2), e3);
      c3.s == e2.s && c3.cr3 == c.cr3
  {
  }

  /** After the store of page_remove every translation but that of the unmapped page is current, and that one too
      exactly when another directory is loaded. */
  lemma RemoveStore(c: Cpu, x: multiset<nat>, d: nat, p: nat, q: nat)
    requires Consistent(c.s, x) && IsPage(c.s, d, p, q) && p < UTOPX && Coherent(c) && Present(Pte(c.s, d, p, q))
    requires c.cr3 < |c.s.mem| && IsDir(c.s.role[c.cr3])
    ensures RemoveRuns(c.s, d, p, q)
    ensures var c2 := Exec1(Exec1(c, Store(Decref(c.s, FrameOf(Pte(c.s, d, p, q))))), Store(Remove(c.s, d, p, q)));
      CoherentBut(c2, p, q) && (Coherent(c2) <==> c.cr3 != d)
  {
    RemoveKeeps(c.s, x, d, p, q);
    var s := c.s;
    var s1, s2 := Decref(s, FrameOf(Pte(s, d, p, q))), Remove(s, d, p, q);
    var c1 := Exec1(c, Store(s1));
    var c2 := Exec1(c1, Store(s2));
    SameMemKeeps(s, s1, c.cr3);
    SameMemKeeps(s1, s, c.cr3);
    forall y {:trigger IsCurrent(c2.s, c2.cr3, y)} | y in c2.tlb && (c.cr3 != d || (y.p, y.q) != (p, q))
      ensures IsCurrent(s2, c.cr3, y)
    {
      if !IsCurrent(s2, c.cr3, y) {
        assert IsCurrent(s1, c.cr3, y);
        RemoveSees(s, x, d, p, q, c.cr3, y);
        assert false;
      }
    }
    if c.cr3 == d {
      var y := Cached(p, q, Pte(s, d, p, q));
      assert IsCurrent(s, d, y);
      assert y in c2.tlb;
      RemoveMap(s, x, d, p, q, d, p, q);
      assert !IsCurrent(s2, d, y);
    }
  }

  lemma InvlpgCoherent(c: Cpu, p: nat, q: nat)
    requires CoherentBut(c, p, q)
    ensures Coherent(Exec1(c, Invlpg(p, q)))
  {
  }

  /** The store that ends page_insert needs no invalidation: the entry it overwrites is not present. */
  lemma EntryStored(c: Cpu, x: multiset<nat>, d: nat, p: nat, q: nat, w: Word)
    requires Consistent(c.s, x) && IsPage(c.s, d, p, q) && p < UTOPX && Coherent(c)
    requires HasTable(c.s, d, p) && TableOf(c.s, d, p) < |c.s.mem| && !Present(Pte(c.s, d, p, q))
    requires c.cr3 < |c.s.mem| && IsDir(c.s.role[c.cr3])
    ensures var s' := SetWord(c.s, TableOf(c.s, d, p), q, w);
      AlwaysCoherent(c, [Store(s')]) && Reaches(c, [Store(s')], s')
  {
    var s' := SetWord(c.s, TableOf(c.s, d, p), q, w);
    forall y: Cached {:trigger IsCurrent(s', c.cr3, y)} | IsCurrent(c.s, c.cr3, y) ensures IsCurrent(s', c.cr3, y) {
      SetPteSees(c.s, x, d, p, q, w, c.cr3, y);
    }
    WordStore(c.s, s', TableOf(c.s, d, p), q, w);
    ReachesOne(c, s');
  }

  /** The walk changes no entry of a page of its directory. */
  lemma WalkPte(s: State, x: multiset<nat>, d: nat, p: nat, q: nat)
    requires Consistent(s, x) && IsPage(s, d, p, q) && p < UTOPX && CanWalk(s, d, p)
    ensures s.free != [] ==> s.free[0] < |s.mem|
    ensures Present(Pte(Walk(s, d, p), d, p, q)) == Present(Pte(s, d, p, q))
  {
    if s.free != [] { assert s.free[0] in s.free; }
    if !HasTable(s, d, p) { MakeTableMap(s, x, d, p, d, p, q); }
  }

  /** What the last two parts of page_insert start from. */
  lemma InsertMiddle(s: State, x: multiset<nat>, d: nat, f: nat, p: nat, q: nat, perm: nat)
    requires Consistent(s, x) && MayInsert(s, d, f, p, q, perm) && CanWalk(s, d, p) && s.ref[f] < 0xFFFF
    ensures InsertArgs(s, d, f, p, q, perm) && InsertRuns(s, d, f, p, q, perm)
    ensures var s1, s2 := Walk(s, d, p), Incref(Walk(s, d, p), f);
      && Consistent(s2, x + multiset{f}) && IsPage(s2, d, p, q) && s1.mem == s2.mem && s1.role == s2.role
      && (forall r: nat :: r < |s.mem| && IsDir(s.role[r]) ==> IsDir(s2.role[r]))
      && Consistent(Remove(s2, d, p, q), x + multiset{f}) && IsPage(Remove(s2, d, p, q), d, p, q)
      && Remove(s2, d, p, q).role == s2.role
      && HasTable(Remove(s2, d, p, q), d, p) && TableOf(Remove(s2, d, p, q), d, p) == TableOf(s1, d, p) < |s.mem|
      && !Present(Pte(Remove(s2, d, p, q), d, p, q))
  {
    InsertKeeps(s, x, d, f, p, q, perm);
    WalkForInsert(s, x, d, f, p, q, perm);
    if !HasTable(s, d, p) { MakeTableKeeps(s, x, d, p); }
    IncrefKeeps(Walk(s, d, p), x, f);
    RemoveKeeps(Incref(Walk(s, d, p), f), x + multiset{f}, d, p, q);
    RemoveMap(Incref(Walk(s, d, p), f), x + multiset{f}, d, p, q, d, p, q);
  }

  /** page_insert keeps the TLB coherent although it invalidates nothing after its last store: only a page that it
      remaps in the loaded directory is stale for a moment, before page_remove invalidates it. */
  lemma InsertCoherent(c: Cpu, x: multiset<nat>, d: nat, f: nat, p: nat, q: nat, perm: nat)
    requires Consistent(c.s, x) && MayInsert(c.s, d, f, p, q, perm) && CanWalk(c.s, d, p) && c.s.ref[f] < 0xFFFF
    requires Coherent(c) && c.cr3 < |c.s.mem| && IsDir(c.s.role[c.cr3])
    ensures InsertArgs(c.s, d, f, p, q, perm) && InsertRuns(c.s, d, f, p, q, perm)
    ensures Reaches(c, InsertEvents(c.s, d, f, p, q, perm), Insert(c.s, d, f, p, q, perm))
    ensures AlwaysCoherent(c, InsertEvents(c.s, d, f, p, q, perm)) <==> c.cr3 != d || !Present(Pte(c.s, d, p, q))
  {
    InsertMiddle(c.s, x, d, f, p, q, perm);
    WalkCoherent(c, x, d, p);
    WalkPte(c.s, x, d, p, q);
    hide Consistent, MayInsert, Pte;
    var s, s1, s2 := c.s, Walk(c.s, d, p), Incref(Walk(c.s, d, p), f);
    var s3, s4 := Remove(s2, d, p, q), Insert(s, d, f, p, q, perm);
    var es1, es2, es3, es4 := WalkEvents(s, d, p), [Store(s2)], RemoveEvents(s2, d, p, q), [Store(s4)];
    SameMemKeeps(s1, s2, c.cr3);
    SameWords(s1, s2, d, p, q);
    hide Reaches, Exec, Coherent, AlwaysCoherent, KeepsPresent, WalkEvents, RemoveEvents, Walk, Remove, Incref;
    var c1 := Exec(c, es1);
    ReachesState(c, es1, s1);
    ReachesOne(c1, s2);
    var c2 := Exec(c1, es2);
    ReachesState(c1, es2, s2);
    RemoveCoherent(c2, x + multiset{f}, d, p, q);
    var c3 := Exec(c2, es3);
    ReachesState(c2, es3, s3);
    EntryStored(c3, x + multiset{f}, d, p, q, Entry(f, perm));
    Reaches4(c, es1, s1, es2, s2, es3, s3, es4, s4);
    Always4(c, es1, es2, es3, es4);
  }

  lemma Reaches4(c: Cpu, es1: seq<Event>, s1: State, es2: seq<Event>, s2: State, es3: seq<Event>, s3: State,
                 es4: seq<Event>, s4: State)
    requires Reaches(c, es1, s1) && Reaches(Exec(c, es1), es2, s2)
    requires Reaches(Exec(Exec(c, es1), es2), es3, s3) && Reaches(Exec(Exec(Exec(c, es1), es2), es3), es4, s4)
    ensures Reaches(c, es1 + es2 + es3 + es4, s4)
  {
    hide *;
    ExecAppend(c, es1, es2);
    ExecAppend(c, es1 + es2, es3);
    ReachesAppend(c, es1, s1, es2, s2);
    ReachesAppend(c, es1 + es2, s2, es3, s3);
    ReachesAppend(c, es1 + es2 + es3, s3, es4, s4);
  }

  lemma Always4(c: Cpu, es1: seq<Event>, es2: seq<Event>, es3: seq<Event>, es4: seq<Event>)
    ensures var c1 := Exec(c, es1);
      var c2 := Exec(c1, es2);
      var c3 := Exec(c2, es3);
      AlwaysCoherent(c, es1 + es2 + es3 + es4)
      <==> AlwaysCoherent(c, es1) && AlwaysCoherent(c1, es2) && AlwaysCoherent(c2, es3) && AlwaysCoherent(c3, es4)
  {
    hide *;
    ExecAppend(c, es1, es2);
    ExecAppend(c, es1 + es2, es3);
    AlwaysAppend(c, es1, es2);
    AlwaysAppend(c, es1 + es2, es3);
    AlwaysAppend(c, es1 + es2 + es3, es4);
  }

  /** The invalidation in page_remove is needed exactly when it unmaps a page of the loaded directory. */
  lemma InvlpgNeeded(c: Cpu, x: multiset<nat>, d: nat, p: nat, q: nat)
    requires Consistent(c.s, x) && IsPage(c.s, d, p, q) && p < UTOPX && Present(Pte(c.s, d, p, q)) && Coherent(c)
    requires c.cr3 < |c.s.mem| && IsDir(c.s.role[c.cr3])
    ensures RemoveRuns(c.s, d, p, q)
    ensures Coherent(Exec1(Fill(c), Store(Remove(c.s, d, p, q)))) <==> c.cr3 != d
  {
    RemoveKeeps(c.s, x, d, p, q);
    var s' := Remove(c.s, d, p, q);
    var c' := Exec1(Fill(c), Store(s'));
    if c.cr3 == d {
      var y := Cached(p, q, Pte(c.s, d, p, q));
      assert IsCurrent(c.s, d, y) && y in c'.tlb;
      RemoveMap(c.s, x, d, p, q, d, p, q);
      assert !IsCurrent(s', d, y);
    } else {
      forall y: Cached {:trigger IsCurrent(s', c.cr3, y)} | IsCurrent(c.s, c.cr3, y) ensures IsCurrent(s', c.cr3, y) {
        RemoveSees(c.s, x, d, p, q, c.cr3, y);
      }
    }
  }

  /** And it has to be an invalidation of that very page. */
  lemma InvlpgExact(c: Cpu, x: multiset<nat>, d: nat, p: nat, q: nat, p': nat, q': nat)
    requires Consistent(c.s, x) && IsPage(c.s, d, p, q) && p < UTOPX && Present(Pte(c.s, d, p, q)) && Coherent(c)
    requires c.cr3 < |c.s.mem| && IsDir(c.s.role[c.cr3])
    ensures RemoveRuns(c.s, d, p, q)
    ensures Coherent(Exec1(Exec1(Fill(c), Store(Remove(c.s, d, p, q))), Invlpg(p', q')))
      <==> c.cr3 != d || (p', q') == (p, q)
  {
    RemoveKeeps(c.s, x, d, p, q);
    var s' := Remove(c.s, d, p, q);
    var c1 := Exec1(Fill(c), Store(s'));
    InvlpgNeeded(c, x, d, p, q);
    if c.cr3 == d {
      var y := Cached(p, q, Pte(c.s, d, p, q));
      assert IsCurrent(c.s, d, y) && y in c1.tlb;
      RemoveMap(c.s, x, d, p, q, d, p, q);
      assert !IsCurrent(s', d, y);
      if (p', q') == (p, q) {
        forall z {:trigger IsCurrent(c1.s, c1.cr3, z)} | z in c1.tlb && (z.p, z.q) != (p, q)
          ensures IsCurrent(s', d, z)
        {
          if !IsCurrent(s', d, z) {
            RemoveSees(c.s, x, d, p, q, d, z);
            assert false;
          }
        }
        InvlpgCoherent(c1, p, q);
      } else {
        assert y in Exec1(c1, Invlpg(p', q')).tlb;
      }
    }
  }

  // ----- env_free -----

  ghost function DropPagesEvents(s: State, d: nat, p: nat, q: nat): seq<Event>
    requires d < |s.mem| && p < NENTRIES && q <= NENTRIES
    decreases NENTRIES - q
  {
    if q == NENTRIES then []
    else
      (if RemoveRuns(s, d, p, q) && |s.ref| == |s.mem| then RemoveEvents(s, d, p, q) else [])
      + DropPagesEvents(DropPage(s, d, p, q), d, p, q + 1)
  }

  /** One round of the outer loop of env_free: the pages of a table, its directory entry, its frame. */
  ghost function DropRoundEvents(s: State, d: nat, p: nat): seq<Event>
    requires d < |s.mem| && p < NENTRIES
  {
    if !HasTable(s, d, p) then []
    else
      var s1 := DropPages(s, d, p, 0);
      DropPagesEvents(s, d, p, 0) + [Store(SetWord(s1, d, p, 0)), Store(DropTable(s1, d, p))]
  }

  ghost function DropTablesEvents(s: State, d: nat, p: nat): seq<Event>
    requires d < |s.mem| && p <= UTOPX
    decreases UTOPX - p
  {
    if p == UTOPX then [] else DropRoundEvents(s, d, p) + DropTablesEvents(DropRound(s, d, p), d, p + 1)
  }

  /** env_free, after its lcr3 if it frees the current environment. */
  ghost function DropSpaceEvents(s: State, d: nat): seq<Event>
    requires d < |s.mem|
  {
    DropTablesEvents(s, d, 0) + [Store(DropSpace(s, d))]
  }

  /** Memory outside the address space of d is that of s0. */
  ghost predicate SameOutside(s0: State, s: State, d: nat) {
    && |s.mem| == |s0.mem|
    && forall k: nat {:trigger OwnTable(s0, d, k)} :: k < |s.mem| && k != d && !OwnTable(s0, d, k) ==>
      s.mem[k] == s0.mem[k]
  }

  /** Every store happens inside the address space of d, and the directory register is left alone. */
  ghost predicate AllInside(s0: State, d: nat, es: seq<Event>) {
    forall e :: e in es ==> !e.LoadCr3? && (e.Store? ==> SameOutside(s0, e.s, d))
  }

  /** What happens inside one address space shows through no other directory. */
  lemma OutsideSees(s0: State, x: multiset<nat>, d: nat, s: State, s': State, r: nat)
    requires Consistent(s0, x) && d < |s0.mem| && s0.role[d] == EnvDir
    requires SameOutside(s0, s, d) && SameOutside(s0, s', d)
    requires r < |s0.mem| && IsDir(s0.role[r]) && r != d
    ensures KeepsPresent(s, s', r)
  {
    assert !OwnTable(s0, d, r);
    forall y: Cached {:trigger IsCurrent(s', r, y)} | IsCurrent(s, r, y) ensures IsCurrent(s', r, y) {
      TableAny(s0, x, r, y.p);
      assert !OwnTable(s0, d, TableOf(s0, r, y.p));
    }
  }

  lemma {:induction false} InsideCoherent(s0: State, x: multiset<nat>, d: nat, c: Cpu, es: seq<Event>)
    requires Consistent(s0, x) && d < |s0.mem| && s0.role[d] == EnvDir
    requires SameOutside(s0, c.s, d) && AllInside(s0, d, es) && Coherent(c)
    requires c.cr3 < |s0.mem| && IsDir(s0.role[c.cr3]) && c.cr3 != d
    ensures AlwaysCoherent(c, es) && Exec(c, es).cr3 == c.cr3
    decreases |es|
  {
    if es == [] {
      AlwaysNothing(c);
    } else {
      assert es[0] in es;
      if es[0].Store? { OutsideSees(s0, x, d, c.s, es[0].s, c.cr3); }
      var c1 := Exec1(c, es[0]);
      assert forall e :: e in es[1..] ==> e in es;
      InsideCoherent(s0, x, d, c1, es[1..]);
      AlwaysOne(c, es[0]);
      ExecOne(c, es[0]);
      AlwaysAppend(c, [es[0]], es[1..]);
      assert es == [es[0]] + es[1..];
    }
  }

  lemma {:induction false} ExecState(c: Cpu, es: seq<Event>)
    ensures Exec(c, es).s == LastState(c.s, es)
    decreases |es|
  {
    if es != [] { ExecState(Exec1(c, es[0]), es[1..]); }
  }

  lemma {:induction false} LastAppend(s: State, es: seq<Event>, fs: seq<Event>)
    ensures LastState(s, es + fs) == LastState(LastState(s, es), fs)
    decreases |es|
  {
    if es == [] {
      assert es + fs == fs;
    } else {
      assert (es + fs)[1..] == es[1..] + fs;
      LastAppend(if es[0].Store? then es[0].s else s, es[1..], fs);
    }
  }

  lemma AllInsideAppend(s0: State, d: nat, es: seq<Event>, fs: seq<Event>)
    requires AllInside(s0, d, es) && AllInside(s0, d, fs)
    ensures AllInside(s0, d, es + fs)
  {
  }

  lemma ShrunkOutside(s0: State, s: State, x: multiset<nat>, d: nat)
    requires Shrunk(s0, s, x, d)
    ensures SameOutside(s0, s, d)
  {
  }

  lemma RemoveInside(s0: State, s: State, x: multiset<nat>, d: nat, p: nat, q: nat)
    requires Shrunk(s0, s, x, d) && p < UTOPX && q < NENTRIES && HasTable(s, d, p)
    ensures RemoveRuns(s, d, p, q) && AllInside(s0, d, RemoveEvents(s, d, p, q))
    ensures LastState(s, RemoveEvents(s, d, p, q)) == DropPage(s, d, p, q) && FineGrained(s, RemoveEvents(s, d, p, q))
  {
    RemoveKeeps(s, x, d, p, q);
    RemoveFine(s, d, p, q);
    hide FineGrained, OneStore;
    DropPageShrinks(s0, s, x, d, p, q);
    ShrunkOutside(s0, s, x, d);
    ShrunkOutside(s0, DropPage(s, d, p, q), x, d);
    var w := Pte(s, d, p, q);
    if Present(w) {
      var e1, e2, e3 := Store(Decref(s, FrameOf(w))), Store(Remove(s, d, p, q)), Invlpg(p, q);
      assert SameOutside(s0, Decref(s, FrameOf(w)), d);
      Last3(s, e1, e2, e3);
    }
  }

  lemma Last3(s: State, e1: Event, e2: Event, e3: Event)
    requires e1.Store? && e2.Store? && e3.Invlpg?
    ensures LastState(s, [e1, e2, e3]) == e2.s
  {
    assert [e1, e2, e3][1..] == [e2, e3];
    assert LastState(s, [e1, e2, e3]) == LastState(e1.s, [e2, e3]);
    assert [e2, e3][1..] == [e3];
    assert LastState(e1.s, [e2, e3]) == LastState(e2.s, [e3]);
    assert LastState(e2.s, [e3]) == e2.s;
  }

  lemma {:induction false} DropPagesInside(s0: State, s: State, x: multiset<nat>, d: nat, p: nat, q: nat)
    requires Shrunk(s0, s, x, d) && p < UTOPX && q <= NENTRIES && HasTable(s, d, p)
    ensures AllInside(s0, d, DropPagesEvents(s, d, p, q))
    ensures LastState(s, DropPagesEvents(s, d, p, q)) == DropPages(s, d, p, q)
    ensures FineGrained(s, DropPagesEvents(s, d, p, q))
    decreases NENTRIES - q
  {
    if q < NENTRIES {
      RemoveInside(s0, s, x, d, p, q);
      DropPageShrinks(s0, s, x, d, p, q);
      var s1 := DropPage(s, d, p, q);
      DropPagesInside(s0, s1, x, d, p, q + 1);
      AllInsideAppend(s0, d, RemoveEvents(s, d, p, q), DropPagesEvents(s1, d, p, q + 1));
      LastAppend(s, RemoveEvents(s, d, p, q), DropPagesEvents(s1, d, p, q + 1));
      FineAppend(s, RemoveEvents(s, d, p, q), DropPagesEvents(s1, d, p, q + 1));
    }
  }

  lemma Last2(s: State, e1: Event, e2: Event)
    requires e1.Store? && e2.Store?
    ensures LastState(s, [e1, e2]) == e2.s
  {
    assert [e1, e2][1..] == [e2];
    assert LastState(s, [e1, e2]) == LastState(e1.s, [e2]);
    assert LastState(e1.s, [e2]) == e2.s;
  }

  /** The two stores that free a table happen inside the space. */
  lemma DropTableInside(s0: State, s: State, x: multiset<nat>, d: nat, p: nat)
    requires Shrunk(s0, s, x, d) && p < UTOPX && HasTable(s, d, p) && TableOf(s, d, p) < |s.mem|
    requires forall q: nat :: q < NENTRIES ==> !Present(s.mem[TableOf(s, d, p)][q])
    ensures AllInside(s0, d, [Store(SetWord(s, d, p, 0)), Store(DropTable(s, d, p))])
    ensures LastState(s, [Store(SetWord(s, d, p, 0)), Store(DropTable(s, d, p))]) == DropTable(s, d, p)
    ensures FineGrained(s, [Store(SetWord(s, d, p, 0)), Store(DropTable(s, d, p))])
  {
    hide FineGrained, OneStore, DropTable, DropRoundEvents;
    WordStore(s, SetWord(s, d, p, 0), d, p, 0);
    DropTableStore(s, x, d, p);
    Fine2(s, Store(SetWord(s, d, p, 0)), Store(DropTable(s, d, p)));
    DropTableShrinks(s0, s, x, d, p);
    ShrunkOutside(s0, s, x, d);
    ShrunkOutside(s0, DropTable(s, d, p), x, d);
    hide Shrunk;
    assert SameOutside(s0, SetWord(s, d, p, 0), d);
    Last2(s, Store(SetWord(s, d, p, 0)), Store(DropTable(s, d, p)));
  }

  lemma DropTableStore(s: State, x: multiset<nat>, d: nat, p: nat)
    requires Consistent(s, x) && d < |s.mem| && IsDir(s.role[d]) && p < UTOPX && HasTable(s, d, p)
    requires TableOf(s, d, p) < |s.mem|
    ensures OneStore(SetWord(s, d, p, 0), DropTable(s, d, p))
  {
    UsedTable(s, x, d, p);
    SameMem(SetWord(s, d, p, 0), DropTable(s, d, p));
  }

  /** The count of a table is positive. */
  lemma UsedTable(s: State, x: multiset<nat>, d: nat, p: nat)
    requires Consistent(s, x) && d < |s.mem| && IsDir(s.role[d]) && p < UTOPX && HasTable(s, d, p)
    ensures TableOf(s, d, p) < |s.mem| && s.ref[TableOf(s, d, p)] > 0
  {
    UserTableOf(s, x, d, p);
    UsedHasSite(s, x, TableOf(s, d, p));
    assert CountOk(s, x, TableOf(s, d, p));
  }

  lemma DropRoundInside(s0: State, s: State, x: multiset<nat>, d: nat, p: nat)
    requires Shrunk(s0, s, x, d) && p < UTOPX
    ensures AllInside(s0, d, DropRoundEvents(s, d, p))
    ensures LastState(s, DropRoundEvents(s, d, p)) == DropRound(s, d, p) && FineGrained(s, DropRoundEvents(s, d, p))
  {
    if HasTable(s, d, p) {
      DropPagesInside(s0, s, x, d, p, 0);
      DropPagesShrinks(s0, s, x, d, p, 0);
      var s1 := DropPages(s, d, p, 0);
      assert d < |s.mem| && d < |s1.mem|;
      hide Shrunk, DropTable, DropPages, DropPagesEvents, AllInside, LastState, FineGrained;
      DropTableInside(s0, s1, x, d, p);
      var es := [Store(SetWord(s1, d, p, 0)), Store(DropTable(s1, d, p))];
      AllInsideAppend(s0, d, DropPagesEvents(s, d, p, 0), es);
      LastAppend(s, DropPagesEvents(s, d, p, 0), es);
      FineAppend(s, DropPagesEvents(s, d, p, 0), es);
    }
  }

  lemma {:induction false} DropTablesInside(s0: State, s: State, x: multiset<nat>, d: nat, p: nat)
    requires Shrunk(s0, s, x, d) && p <= UTOPX
    ensures AllInside(s0, d, DropTablesEvents(s, d, p))
    ensures LastState(s, DropTablesEvents(s, d, p)) == DropTables(s, d, p)
    ensures FineGrained(s, DropTablesEvents(s, d, p))
    decreases UTOPX - p
  {
    if p < UTOPX {
      DropRoundInside(s0, s, x, d, p);
      DropRoundShrinks(s0, s, x, d, p);
      var s1 := DropRound(s, d, p);
      DropTablesInside(s0, s1, x, d, p + 1);
      AllInsideAppend(s0, d, DropRoundEvents(s, d, p), DropTablesEvents(s1, d, p + 1));
      LastAppend(s, DropRoundEvents(s, d, p), DropTablesEvents(s1, d, p + 1));
      FineAppend(s, DropRoundEvents(s, d, p), DropTablesEvents(s1, d, p + 1));
    }
  }

  /** Tearing down an address space that is not loaded keeps the TLB coherent after every single store. */
  lemma DropSpaceCoherent(c: Cpu, x: multiset<nat>, d: nat)
    requires Consistent(c.s, x) && d < |c.s.mem| && c.s.role[d] == EnvDir && Coherent(c)
    requires c.cr3 < |c.s.mem| && IsDir(c.s.role[c.cr3]) && c.cr3 != d
    ensures AlwaysCoherent(c, DropSpaceEvents(c.s, d)) && Reaches(c, DropSpaceEvents(c.s, d), DropSpace(c.s, d))
  {
    var s := c.s;
    assert Shrunk(s, s, x, d);
    DropTablesInside(s, s, x, d, 0);
    DropSpaceSites(s, x, d);
    var es, last := DropTablesEvents(s, d, 0), [Store(DropSpace(s, d))];
    assert SameOutside(s, DropSpace(s, d), d);
    AllInsideAppend(s, d, es, last);
    InsideCoherent(s, x, d, c, es + last);
    AlwaysGuarded(c, es + last);
    ExecState(c, es + last);
    LastAppend(s, es, last);
    assert last[1..] == [];
    SameMem(DropTables(s, d, 0), DropSpace(s, d));
    FineAppend(s, es, last);
  }
}
