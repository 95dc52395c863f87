/** kern/pmap.c as it runs: the pages[] array with its links and 16-bit counts, and physical memory, updated in
    place. `Abs` is the value that the specification functions of `Phys` work on. */
module PhysMem {
  import opened Wrappers
  import opened Mmu
  import opened Phys
  import opened PhysInv
  import opened PageOps
  import opened FlatMap
  import opened FreeList

  /** A pte_t *: an entry of a page-table frame. */
  datatype PtePtr = PtePtr(table: nat, index: nat)

  lemma InsertSteps(s: State, x: multiset<nat>, d: nat, f: nat, p: nat, q: nat, perm: nat)
    requires Consistent(s, x) && MayInsert(s, d, f, p, q, perm) && CanWalk(s, d, p) && s.ref[f] < 0xFFFF
    ensures InsertArgs(s, d, f, p, q, perm) && InsertRuns(s, d, f, p, q, perm)
    ensures Consistent(Insert(s, d, f, p, q, perm), x)
    ensures var s2 := Incref(Walk(s, d, p), f);
      Consistent(s2, x + multiset{f}) && IsPage(s2, d, p, q) && TableOf(s2, d, p) < |s.mem|
  {
    InsertKeeps(s, x, d, f, p, q, perm);
    WalkForInsert(s, x, d, f, p, q, perm);
    IncrefKeeps(Walk(s, d, p), x, f);
  }

  class Pages {
    const refs: array<Ref16>      // pp_ref
    const link: array<int>        // pp_link, -1 for NULL
    const mem: array<Frame>       // the frames themselves
    const kern: nat               // kern_pgdir
    var head: int                 // page_free_list
    ghost var free: seq<nat>
    ghost var role: seq<Role>
    ghost var reserved: set<nat>
    ghost var held: set<nat>

    ghost predicate Valid()
      reads this, refs, link, mem
    {
      && 0 < mem.Length <= 0x10_0000
      && refs.Length == mem.Length && link.Length == mem.Length && |role| == mem.Length
      && kern < mem.Length
      && refs as object != link
      && ListRep(head, link[..], free)
    }

    ghost function Abs(): State
      reads this, refs, mem
    {
      State(mem[..], refs[..], free, kern, role, reserved, held)
    }

    /** What mem_init sets up before page_init: zeroed pages[], and a kern_pgdir that holds only its self map. */
    constructor (npages: nat, kern: nat)
      requires kern < npages <= 0x10_0000
      ensures Valid() && this.kern == kern && mem.Length == npages
      ensures fresh(refs) && fresh(link) && fresh(mem)
      ensures free == [] && mem[kern] == Zeros()[UVPTX := kern * 4096 + 5]
      ensures forall f :: 0 <= f < npages ==> refs[f] == 0 && role[f] == if f == kern then KernDir else Plain
    {
      this.kern := kern;
      refs := new Ref16[npages](_ => 0);
      link := new int[npages](_ => -1);
      mem := new Frame[npages];
      head, free, role, reserved, held := -1, [], seq(npages, f => if f == kern then KernDir else Plain), {}, {};
      new;
      mem[kern] := Zeros();
      mem[kern] := mem[kern][UVPTX := kern * 4096 + 5];
    }

    method PageAlloc(zero: bool) returns (pp: int)
      requires Valid()
      modifies this`head, this`free, this`held, link, mem
      ensures Valid()
      ensures old(free) == [] ==> pp == -1 && Abs() == old(Abs())
      ensures old(free) != [] ==> pp == old(free)[0] < mem.Length && Abs() == Alloc(old(Abs()), zero)
      ensures old(free) != [] ==> free == old(free)[1..] && link[pp] == -1
      ensures forall f :: 0 <= f < mem.Length && (f != pp || !zero) ==> mem[f] == old(mem[f])
      ensures old(free) != [] && zero ==> forall i :: 0 <= i < NENTRIES ==> mem[pp][i] == 0
    {
      HeadIs(head, link[..], free);
      hide ListRep;
      if head == -1 { return -1; }
      if zero { mem[head] := Zeros(); }
      pp := Unlink();
    }

    /** The end of page_alloc: the head of the list is taken off it. */
    method Unlink() returns (pp: int)
      requires Valid() && head != -1
      modifies this`head, this`free, this`held, link
      ensures Valid()
      ensures old(free) != [] && pp == old(free)[0] < mem.Length
      ensures Abs() == old(Abs()).(free := old(free)[1..], held := old(held) + {old(free)[0]})
    {
      HeadIs(head, link[..], free);
      ghost var links := link[..];
      ListPop(head, link[..], free);
      hide ListRep, Chain, NullElsewhere;
      pp := head;
      head := link[pp];
      link[pp] := -1;
      free, held := free[1..], held + {pp};
      assert link[..] == links[pp := -1];
    }

    method PageFree(pp: nat)
      requires Valid() && pp < mem.Length && refs[pp] == 0 && pp !in free
      modifies this`head, this`free, this`held, link
      ensures Valid() && Abs() == Free(old(Abs()), pp)
      ensures free == [pp] + old(free)
    {
      assert link[pp] == -1;  // so neither panic of page_free can happen
      ghost var links := link[..];
      ListPush(head, link[..], free, pp);
      link[pp] := head;
      head := pp;
      free, held := [pp] + free, held - {pp};
      assert link[..] == links[pp := old(head)];
    }

    method PageDecref(pp: nat)
      requires Valid() && pp < mem.Length && refs[pp] > 0 && pp !in free
      modifies this`head, this`free, this`held, link, refs
      ensures Valid() && Abs() == Decref(old(Abs()), pp)
      ensures refs[..] == old(refs[..])[pp := old(refs[pp]) - 1]
      ensures free == (if old(refs[pp]) == 1 then [pp] else []) + old(free)
    {
      hide ListRep;
      ghost var counts := refs[..];
      refs[pp] := refs[pp] - 1;
      assert refs[..] == counts[pp := counts[pp] - 1];
      if refs[pp] == 0 { PageFree(pp); }
    }

    /** pgdir_walk: a pointer to the entry for va, or None where the source returns NULL; false where it panics. */
    method PgdirWalk(d: nat, va: Word, create: bool) returns (ok: bool, r: Option<PtePtr>)
      requires Valid() && d < mem.Length
      modifies this`head, this`free, this`held, this`role, link, mem, refs
      ensures Valid()
      ensures old(Abs()).free != [] ==> old(Abs()).free[0] < mem.Length
      ensures ok <==> !WalkPanics(old(Abs()), d, PDX(va))
      ensures var s, p := old(Abs()), PDX(va);
        if ok && (HasTable(s, d, p) || (create && CanWalk(s, d, p))) then
          && Abs() == Walk(s, d, p)
          && r == Some(PtePtr(TableOf(Abs(), d, p), PTX(va))) && r.value.table < mem.Length
        else r == None && Abs() == s
    {
      var p := PDX(va);
      if Present(mem[d][p]) {
        if FrameOf(mem[d][p]) >= mem.Length { return false, None; }
        return true, Some(PtePtr(FrameOf(mem[d][p]), PTX(va)));
      }
      if !create { return true, None; }
      if free != [] { assert free[0] in free; }
      var t := PageAlloc(true);
      if t == -1 { return true, None; }
      refs[t] := Inc16(refs[t]);
      mem[d] := mem[d][p := Entry(t, PTE_U + PTE_W)];
      role, held := role[t := TableRole(d, p)], held - {t};
      return true, Some(PtePtr(t, PTX(va)));
    }

    /** page_lookup; false where it panics. */
    method PageLookup(d: nat, va: Word) returns (ok: bool, pp: int, pte: Option<PtePtr>)
      requires Valid() && d < mem.Length
      ensures ok <==> !LookupPanics(Abs(), d, PDX(va), PTX(va))
      ensures ok ==> pp == match Lookup(Abs(), d, PDX(va), PTX(va)) case None => -1 case Some(f) => f
      ensures ok ==>
        pte == if HasTable(Abs(), d, PDX(va)) then Some(PtePtr(TableOf(Abs(), d, PDX(va)), PTX(va))) else None
    {
      var p := PDX(va);
      if !Present(mem[d][p]) { return true, -1, None; }
      if FrameOf(mem[d][p]) >= mem.Length { return false, -1, None; }
      pte := Some(PtePtr(FrameOf(mem[d][p]), PTX(va)));
      var w := mem[pte.value.table][pte.value.index];
      if !Present(w) { return true, -1, pte; }
      if FrameOf(w) >= mem.Length { return false, -1, pte; }
      return true, FrameOf(w), pte;
    }

    /** check_va2pa: the physical address of the page that va lies in, as the flat map has it, or ~0;
        false where KADDR panics. */
    method CheckVa2pa(d: nat, va: Word) returns (ok: bool, pa: int)
      requires Valid() && d < mem.Length
      ensures ok <==> !WalkPanics(Abs(), d, PDX(va))
      ensures ok ==>
        pa == match Mapped(Abs(), d, PDX(va), PTX(va)) case None => 0xFFFF_FFFF case Some(m) => m.frame * PGSIZE
    {
      var p, q := PDX(va), PTX(va);
      assert 0 <= p < NENTRIES && 0 <= q < NENTRIES;
      hide ListRep, PDX, PTX;
      var pde := mem[d][p];
      if !Present(pde) { return true, 0xFFFF_FFFF; }
      if FrameOf(pde) >= mem.Length { return false, 0; }
      var pte := mem[FrameOf(pde)][q];
      if !Present(pte) { return true, 0xFFFF_FFFF; }
      return true, pte - FlagsOf(pte);
    }

    /** page_remove. */
    method PageRemove(d: nat, va: Word, ghost x: multiset<nat>)
      requires Valid() && Consistent(Abs(), x) && IsPage(Abs(), d, PDX(va), PTX(va)) && PDX(va) < UTOPX
      modifies this`head, this`free, this`held, link, mem, refs
      ensures Valid() && Consistent(Abs(), x)
      ensures RemoveRuns(old(Abs()), d, PDX(va), PTX(va))
      ensures Abs() == Remove(old(Abs()), d, PDX(va), PTX(va))
    {
      ghost var s := Abs();
      RemoveKeeps(s, x, d, PDX(va), PTX(va));
      UserLookupRuns(s, x, d, PDX(va), PTX(va));
      hide Consistent, ListRep, PDX, PTX, Sites;
      var ok, pp, pte := PageLookup(d, va);
      if pp == -1 { return; }
      assert pp !in free;
      PageDecref(pp);
      mem[pte.value.table] := mem[pte.value.table][pte.value.index := 0];
    }

    /** page_insert: -4 is -E_NO_MEM. */
    method PageInsert(d: nat, pp: nat, va: Word, perm: nat, ghost x: multiset<nat>) returns (r: int)
      requires Valid() && Consistent(Abs(), x)
      requires MayInsert(Abs(), d, pp, PDX(va), PTX(va), perm) && refs[pp] < 0xFFFF
      modifies this`head, this`free, this`held, this`role, link, mem, refs
      ensures Valid() && Consistent(Abs(), x)
      ensures r == if CanWalk(old(Abs()), d, PDX(va)) then 0 else -4
      ensures r != 0 ==> Abs() == old(Abs())
      ensures r == 0 ==>
        && InsertArgs(old(Abs()), d, pp, PDX(va), PTX(va), perm)
        && InsertRuns(old(Abs()), d, pp, PDX(va), PTX(va), perm)
        && Abs() == Insert(old(Abs()), d, pp, PDX(va), PTX(va), perm)
    {
      hide Consistent, ListRep;
      ghost var s := Abs();
      WalkRuns(s, x, d, PDX(va));
      var ok, pte := PgdirWalk(d, va, true);
      if pte == None { return -4; }
      InsertSteps(s, x, d, pp, PDX(va), PTX(va), perm);
      ghost var s2 := Incref(Abs(), pp);
      refs[pp] := Inc16(refs[pp]);
      held := held - {pp};
      assert Abs() == s2;
      PageRemove(d, va, x + multiset{pp});
      ghost var s3 := Abs();
      mem[pte.value.table] := mem[pte.value.table][pte.value.index := Entry(pp, perm)];
      assert Abs() == SetWord(s3, pte.value.table, pte.value.index, Entry(pp, perm));
      return 0;
    }
  }
}
