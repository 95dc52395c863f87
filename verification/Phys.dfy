/** The state that kern/pmap.c mutates, as a value: physical frames, reference counts and the free list,
    together with the bookkeeping that says what each frame is used for. */
module Phys {
  import opened Mmu

  type Frame = c: seq<Word> | |c| == NENTRIES witness seq(NENTRIES, _ => 0)

  /** pp_ref is a uint16_t. */
  type Ref16 = r: int | 0 <= r < 0x1_0000

  /** What a frame is used for. A user table hangs off entry `idx` of directory `dir`, a kernel table off entry
      `idx` of the kernel's directory. Data pages, free frames and held frames are all `Plain`. */
  datatype Role = Plain | KernDir | EnvDir | UserTable(dir: nat, idx: nat) | KernTable(idx: nat)

  datatype State = State(
    mem: seq<Frame>,        // physical memory, one frame of 1024 words each
    ref: seq<Ref16>,        // pp_ref
    free: seq<nat>,         // page_free_list, head first
    kern: nat,              // the frame of kern_pgdir
    role: seq<Role>,
    reserved: set<nat>,     // frames that page_init marks as in use
    held: set<nat>)         // frames taken by page_alloc that nothing references yet

  /** A place that a reference count counts. */
  datatype Site = Mark(f: nat) | Root(d: nat) | At(t: nat, i: nat)

  predicate Shape(s: State) {
    && 0 < |s.mem| <= 0x10_0000
    && |s.ref| == |s.mem|
    && |s.role| == |s.mem|
    && s.kern < |s.mem|
  }

  predicate IsDir(r: Role) { r.KernDir? || r.EnvDir? }

  /** Is word i of a frame with role r a counted reference? Directory entries above UTOP are shared copies in
      an environment's directory, and mappings made by kernel tables are not counted. */
  predicate Counted(r: Role, i: nat) {
    match r
    case Plain => false
    case KernDir => i != UVPTX
    case EnvDir => i < UTOPX
    case UserTable(_, _) => true
    case KernTable(_) => false
  }

  predicate InRange(x: Site, n: nat) {
    match x
    case Mark(f) => f < n
    case Root(d) => d < n
    case At(t, i) => t < n && i < NENTRIES
  }

  ghost function AllSites(n: nat): (r: set<Site>)
    ensures forall x: Site :: x in r <==> InRange(x, n)
  {
    (set f: nat | f < n :: Mark(f))
    + (set d: nat | d < n :: Root(d))
    + (set t: nat, i: nat | t < n && i < NENTRIES :: At(t, i))
  }

  ghost predicate Refers(s: State, x: Site, f: nat)
    requires Shape(s) && InRange(x, |s.mem|)
  {
    match x
    case Mark(g) => g == f && g in s.reserved
    case Root(d) => d == f && s.role[d].EnvDir?
    case At(t, i) => Counted(s.role[t], i) && Present(s.mem[t][i]) && FrameOf(s.mem[t][i]) == f
  }

  /** Every place that refers to frame f and is counted in its pp_ref. */
  ghost function Sites(s: State, f: nat): set<Site>
    requires Shape(s)
  {
    set x | x in AllSites(|s.mem|) && Refers(s, x, f)
  }

  /** `x` holds references that a caller owns but has not stored in memory (yet, or any more). */
  ghost predicate CountOk(s: State, x: multiset<nat>, f: nat)
    requires Shape(s) && f < |s.mem|
  {
    s.ref[f] == |Sites(s, f)| + x[f]
  }

  ghost predicate WordOk(s: State, t: nat, i: nat)
    requires Shape(s) && t < |s.mem| && i < NENTRIES
  {
    var w := s.mem[t][i];
    match s.role[t]
    case Plain => true
    case KernDir =>
      if i == UVPTX then w == t * 4096 + 5
      else Present(w) ==>
        && FrameOf(w) < |s.mem|
        && s.role[FrameOf(w)] == if i < UTOPX then UserTable(t, i) else KernTable(i)
    case EnvDir =>
      if i == UVPTX then w == t * 4096 + 5
      else if i < UTOPX then Present(w) ==> FrameOf(w) < |s.mem| && s.role[FrameOf(w)] == UserTable(t, i)
      else w == s.mem[s.kern][i]
    case UserTable(_, _) => Present(w) ==> FrameOf(w) < |s.mem| && s.role[FrameOf(w)] == Plain
    case KernTable(_) => Present(w) ==> !(User(w) && Writeable(w))
  }

  ghost predicate RoleOk(s: State, t: nat)
    requires Shape(s) && t < |s.mem|
  {
    match s.role[t]
    case Plain => t != s.kern
    case KernDir => t == s.kern && t in s.reserved
    case EnvDir => t != s.kern && t !in s.reserved
    case UserTable(d, p) =>
      && t != s.kern && t !in s.reserved
      && d < |s.mem| && IsDir(s.role[d]) && p < UTOPX
      && s.mem[d][p] == t * 4096 + 7
    case KernTable(p) =>
      && t != s.kern && t !in s.reserved
      && UTOPX <= p < NENTRIES && p != UVPTX
      && s.mem[s.kern][p] == t * 4096 + 7
  }

  ghost predicate NoDup(q: seq<nat>) {
    forall i, j :: 0 <= i < j < |q| ==> q[i] != q[j]
  }

  /** The free list has no duplicates, and with the held frames it is exactly the frames of count zero. */
  ghost predicate FreeOk(s: State)
    requires Shape(s)
  {
    && NoDup(s.free)
    && (forall f :: f in s.free ==> f < |s.mem| && s.ref[f] == 0 && f !in s.held)
    && (forall f :: f in s.held ==> f < |s.mem| && s.ref[f] == 0)
    && (forall f :: 0 <= f < |s.mem| && s.ref[f] == 0 ==> f in s.free || f in s.held)
  }

  ghost predicate WordsOk(s: State)
    requires Shape(s)
  {
    forall t: nat, i: nat {:trigger WordOk(s, t, i)} :: t < |s.mem| && i < NENTRIES ==> WordOk(s, t, i)
  }

  ghost predicate RolesOk(s: State)
    requires Shape(s)
  {
    forall t: nat {:trigger RoleOk(s, t)} :: t < |s.mem| ==> RoleOk(s, t)
  }

  ghost predicate CountsOk(s: State, x: multiset<nat>)
    requires Shape(s)
  {
    forall f: nat {:trigger CountOk(s, x, f)} :: f < |s.mem| ==> CountOk(s, x, f)
  }

  /** The global invariant that ties counts, free list, table entries and directories together. */
  ghost predicate Consistent(s: State, x: multiset<nat>) {
    && Shape(s)
    && WordsOk(s)
    && RolesOk(s)
    && CountsOk(s, x)
    && FreeOk(s)
  }

  // ----- the operations of kern/pmap.c -----

  function Zeros(): (c: Frame)
    ensures forall i :: 0 <= i < NENTRIES ==> c[i] == 0
  {
    seq(NENTRIES, _ => 0)
  }

  function SetWord(s: State, t: nat, i: nat, w: Word): State
    requires t < |s.mem| && i < NENTRIES
  {
    s.(mem := s.mem[t := s.mem[t][i := w]])
  }

  /** page_alloc: the frame is held by the caller until something references it. */
  function Alloc(s: State, zero: bool): State
    requires s.free != [] && s.free[0] < |s.mem|
  {
    var f := s.free[0];
    s.(mem := if zero then s.mem[f := Zeros()] else s.mem,
       free := s.free[1..],
       held := s.held + {f})
  }

  /** page_free: push the frame on the free list. */
  function Free(s: State, f: nat): State {
    s.(free := [f] + s.free, held := s.held - {f})
  }

  function Inc16(r: int): Ref16 { (r + 1) % 0x1_0000 }

  /** `pp_ref += 1` on a 16-bit count; a referenced frame is no longer merely held. */
  function Incref(s: State, f: nat): State
    requires f < |s.ref|
  {
    s.(ref := s.ref[f := Inc16(s.ref[f])], held := s.held - {f})
  }

  /** page_decref. */
  function Decref(s: State, f: nat): State
    requires f < |s.ref| && s.ref[f] > 0
  {
    var s' := s.(ref := s.ref[f := s.ref[f] - 1]);
    if s'.ref[f] == 0 then Free(s', f) else s'
  }

  /** The frame of the page table that entry p of directory d names, if the entry is present. */
  predicate HasTable(s: State, d: nat, p: nat)
    requires d < |s.mem| && p < NENTRIES
  {
    Present(s.mem[d][p])
  }

  function TableOf(s: State, d: nat, p: nat): nat
    requires d < |s.mem| && p < NENTRIES
  {
    FrameOf(s.mem[d][p])
  }

  /** pgdir_walk with create set, when the table is missing and a frame is free. */
  function MakeTable(s: State, d: nat, p: nat): State
    requires s.free != [] && s.free[0] < |s.mem| <= 0x10_0000 && |s.ref| == |s.mem| == |s.role|
    requires d < |s.mem| && p < NENTRIES
  {
    var t := s.free[0];
    var s' := SetWord(Incref(Alloc(s, true), t), d, p, Entry(t, PTE_U + PTE_W));
    s'.(role := s'.role[t := if p < UTOPX then UserTable(d, p) else KernTable(p)])
  }

  /** pgdir_walk with create set fails when it needs a frame and none is free. */
  predicate CanWalk(s: State, d: nat, p: nat)
    requires d < |s.mem| && p < NENTRIES
  {
    HasTable(s, d, p) || s.free != []
  }

  /** KADDR panics in pgdir_walk: the directory entry is present and names a frame outside pages[]. */
  predicate WalkPanics(s: State, d: nat, p: nat)
    requires d < |s.mem| && p < NENTRIES
  {
    HasTable(s, d, p) && TableOf(s, d, p) >= |s.mem|
  }

  /** pgdir_walk with create set. */
  function Walk(s: State, d: nat, p: nat): State
    requires |s.mem| <= 0x10_0000 && |s.ref| == |s.mem| == |s.role|
    requires s.free != [] ==> s.free[0] < |s.mem|
    requires d < |s.mem| && p < NENTRIES && CanWalk(s, d, p)
  {
    if HasTable(s, d, p) then s else MakeTable(s, d, p)
  }

  /** The page-table entry for page (p, q) of directory d: what pgdir_walk finds without creating, or 0. */
  function Pte(s: State, d: nat, p: nat, q: nat): Word
    requires d < |s.mem| && p < NENTRIES && q < NENTRIES
  {
    if HasTable(s, d, p) && TableOf(s, d, p) < |s.mem| then s.mem[TableOf(s, d, p)][q] else 0
  }

  /** page_remove. */
  function Remove(s: State, d: nat, p: nat, q: nat): State
    requires d < |s.mem| && p < NENTRIES && q < NENTRIES
    requires RemoveRuns(s, d, p, q)
  {
    var w := Pte(s, d, p, q);
    if !Present(w) then s
    else SetWord(Decref(s, FrameOf(w)), TableOf(s, d, p), q, 0)
  }

  /** page_remove panics when it finds a mapped frame with count 0. */
  predicate RemoveRuns(s: State, d: nat, p: nat, q: nat)
    requires d < |s.mem| && p < NENTRIES && q < NENTRIES
  {
    var w := Pte(s, d, p, q);
    Present(w) ==> FrameOf(w) < |s.ref| && s.ref[FrameOf(w)] > 0
  }

  predicate InsertArgs(s: State, d: nat, f: nat, p: nat, q: nat, perm: nat) {
    && |s.mem| <= 0x10_0000 && |s.ref| == |s.mem| == |s.role|
    && (s.free != [] ==> s.free[0] < |s.mem|)
    && d < |s.mem| && f < |s.mem| && p < NENTRIES && q < NENTRIES && perm < 4096
    && CanWalk(s, d, p)
  }

  /** page_insert counts the frame before it unmaps, and page_remove must not panic. */
  predicate InsertRuns(s: State, d: nat, f: nat, p: nat, q: nat, perm: nat)
    requires InsertArgs(s, d, f, p, q, perm)
  {
    && RemoveRuns(Incref(Walk(s, d, p), f), d, p, q)
    && TableOf(Walk(s, d, p), d, p) < |s.mem|
  }

  /** page_insert, when pgdir_walk succeeds. */
  function Insert(s: State, d: nat, f: nat, p: nat, q: nat, perm: nat): State
    requires InsertArgs(s, d, f, p, q, perm) && InsertRuns(s, d, f, p, q, perm)
  {
    var s1 := Walk(s, d, p);
    var s3 := Remove(Incref(s1, f), d, p, q);
    SetWord(s3, TableOf(s1, d, p), q, Entry(f, perm))
  }
}
