/** check_page_free_list(1): moving low frames to the front of the free list by relinking it in place, through two
    tail pointers, while the walk is still reading the links. */
module Partition {
  import opened Mmu
  import opened Phys
  import opened PhysInv
  import opened FreeList
  import opened PhysMem

  /** `PDX(page2pa(pp)) >= pdx_limit`, with pdx_limit == 1: the frame lies above the first 4 MB. */
  predicate IsHigh(f: nat) { PDX(f * PGSIZE) >= 1 }

  /** The elements of q of one kind, in order. */
  function Keep(q: seq<nat>, high: bool): seq<nat> {
    if q == [] then []
    else if IsHigh(q[|q| - 1]) == high then Keep(q[..|q| - 1], high) + [q[|q| - 1]]
    else Keep(q[..|q| - 1], high)
  }

  /** Low frames in their order, then high frames in theirs. */
  function LowFirst(q: seq<nat>): seq<nat> { Keep(q, false) + Keep(q, true) }

  lemma {:induction false} KeepIn(q: seq<nat>, high: bool)
    ensures forall f :: f in Keep(q, high) <==> f in q && IsHigh(f) == high
  {
    if q != [] {
      KeepIn(q[..|q| - 1], high);
      assert q == q[..|q| - 1] + [q[|q| - 1]];
    }
  }

  lemma {:induction false} KeepNoDup(q: seq<nat>, high: bool)
    requires NoDup(q)
    ensures NoDup(Keep(q, high))
  {
    if q != [] {
      KeepNoDup(q[..|q| - 1], high);
      KeepIn(q[..|q| - 1], high);
    }
  }

  /** Nothing is lost or repeated. */
  lemma {:induction false} LowFirstMultiset(q: seq<nat>)
    ensures multiset(LowFirst(q)) == multiset(q)
  {
    if q != [] {
      var r, f := q[..|q| - 1], q[|q| - 1];
      LowFirstMultiset(r);
      assert q == r + [f];
    }
  }

  ghost predicate Disjoint(a: seq<nat>, b: seq<nat>) {
    forall f :: f in a ==> f !in b
  }

  lemma NoDupConcat(a: seq<nat>, b: seq<nat>)
    requires NoDup(a) && NoDup(b) && Disjoint(a, b)
    ensures NoDup(a + b)
  {
    var q := a + b;
    forall i, j | 0 <= i < j < |q| ensures q[i] != q[j] {
      if i < |a| <= j {
        assert q[i] == a[i] && q[j] == b[j - |a|];
        assert a[i] in a && b[j - |a|] in b;
      }
    }
  }

  lemma LowFirstNoDup(q: seq<nat>)
    requires NoDup(q)
    ensures NoDup(LowFirst(q)) && NoDup(Keep(q, false)) && NoDup(Keep(q, true))
    ensures Disjoint(Keep(q, false), Keep(q, true))
    ensures forall f :: f in LowFirst(q) <==> f in q
  {
    KeepNoDup(q, false);
    KeepNoDup(q, true);
    KeepIn(q, false);
    KeepIn(q, true);
    NoDupConcat(Keep(q, false), Keep(q, true));
  }

  /** The partition is stable: two frames of one kind stay in their order. */
  lemma {:induction false} KeepOrder(q: seq<nat>, high: bool, i: nat, j: nat)
    requires i < j < |q| && IsHigh(q[i]) == high && IsHigh(q[j]) == high
    ensures exists a, b :: 0 <= a < b < |Keep(q, high)| && Keep(q, high)[a] == q[i] && Keep(q, high)[b] == q[j]
  {
    var r := q[..|q| - 1];
    if j == |q| - 1 {
      KeepIn(r, high);
      assert r[i] in r;
      var a :| 0 <= a < |Keep(r, high)| && Keep(r, high)[a] == q[i];
      assert Keep(q, high)[a] == q[i] && Keep(q, high)[|Keep(r, high)|] == q[j];
    } else {
      KeepOrder(r, high, i, j);
      var a, b :| 0 <= a < b < |Keep(r, high)| && Keep(r, high)[a] == r[i] && Keep(r, high)[b] == r[j];
      assert Keep(q, high)[a] == q[i] && Keep(q, high)[b] == q[j];
    }
  }

  lemma HighIs(f: nat)
    requires f < 0x10_0000
    ensures IsHigh(f) <==> f >= 1024
  {
  }

  /** The list q sorted by the 4 MB boundary, in frame numbers: frames below 1024 first, and two frames on the same side
      of it in their old order. */
  ghost predicate SplitAt4MB(q: seq<nat>, r: seq<nat>) {
    && multiset(r) == multiset(q)
    && (forall i, j {:trigger r[i], r[j]} :: 0 <= i < j < |r| && r[i] >= 1024 ==> r[j] >= 1024)
    && (forall i, j {:trigger q[i], q[j]} :: 0 <= i < j < |q| && (q[i] < 1024 <==> q[j] < 1024) ==>
        InOrder(r, q[i], q[j]))
  }

  ghost predicate InOrder(r: seq<nat>, f: nat, g: nat) {
    exists a, b :: 0 <= a < b < |r| && r[a] == f && r[b] == g
  }

  lemma LowFirstSplits(q: seq<nat>)
    requires forall f :: f in q ==> f < 0x10_0000
    ensures SplitAt4MB(q, LowFirst(q))
  {
    LowFirstMultiset(q);
    forall f | f in q ensures IsHigh(f) <==> f >= 1024 {
      HighIs(f);
    }
    hide IsHigh;
    LowThenHigh(q);
    forall i, j {:trigger q[i], q[j]} | 0 <= i < j < |q| && (q[i] < 1024 <==> q[j] < 1024)
      ensures InOrder(LowFirst(q), q[i], q[j])
    {
      assert q[i] in q && q[j] in q;
      KeptInOrder(q, IsHigh(q[i]), i, j);
    }
  }

  lemma LowThenHigh(q: seq<nat>)
    requires forall f :: f in q ==> (IsHigh(f) <==> f >= 1024)
    ensures forall i, j {:trigger LowFirst(q)[i], LowFirst(q)[j]} ::
      0 <= i < j < |LowFirst(q)| && LowFirst(q)[i] >= 1024 ==> LowFirst(q)[j] >= 1024
  {
    KeepIn(q, false);
    KeepIn(q, true);
    var r, n := LowFirst(q), |Keep(q, false)|;
    hide Keep, IsHigh;
    forall i | 0 <= i < |r| ensures r[i] >= 1024 <==> i >= n {
      assert if i < n then r[i] in Keep(q, false) else r[i] in Keep(q, true);
    }
  }

  lemma KeptInOrder(q: seq<nat>, high: bool, i: nat, j: nat)
    requires i < j < |q| && IsHigh(q[i]) == high && IsHigh(q[j]) == high
    ensures InOrder(LowFirst(q), q[i], q[j])
  {
    KeepOrder(q, high, i, j);
    hide Keep, IsHigh;
    var k, r := Keep(q, high), LowFirst(q);
    var a, b :| 0 <= a < b < |k| && k[a] == q[i] && k[b] == q[j];
    var m := if high then |Keep(q, false)| else 0;
    assert r[m + a] == k[a] && r[m + b] == k[b];
  }

  /** Reordering the free list keeps the global invariant. */
  lemma LowFirstKeeps(s: State, x: multiset<nat>)
    requires Consistent(s, x)
    ensures Consistent(s.(free := LowFirst(s.free)), x)
  {
    var s' := s.(free := LowFirst(s.free));
    LowFirstNoDup(s.free);
    forall k: nat, i: nat | k < |s.mem| && i < NENTRIES ensures WordOk(s', k, i) {
      assert WordOk(s, k, i);
    }
    forall k: nat | k < |s.mem| ensures RoleOk(s', k) && CountOk(s', x, k) {
      assert RoleOk(s, k) && CountOk(s, x, k);
      SitesAgree(s, s', k);
    }
  }

  // ----- the relinking -----

  /** What a tail pointer points at: a local variable (pp1 or pp2), or the link of a frame. */
  datatype Cell = Local | LinkOf(f: nat)

  /** The list `done` threaded from the variable `head` through the links, its end not stored yet. */
  ghost predicate Threaded(head: int, links: seq<int>, done: seq<nat>, tail: Cell) {
    && (forall i {:trigger done[i]} :: 0 <= i < |done| ==> done[i] < |links|)
    && NoDup(done)
    && (done == [] ==> tail == Local)
    && (done != [] ==> tail == LinkOf(done[|done| - 1]) && head == done[0])
    && (forall i {:trigger done[i]} :: 0 <= i < |done| - 1 ==> links[done[i]] == done[i + 1])
  }

  lemma ThreadStep(head: int, links: seq<int>, done: seq<nat>, tail: Cell, f: nat)
    requires Threaded(head, links, done, tail) && f < |links| && f !in done
    ensures tail.LinkOf? ==> tail.f < |links| && tail.f in done
    ensures Threaded(if tail.Local? then f else head,
                     if tail.Local? then links else links[tail.f := f], done + [f], LinkOf(f))
  {
    var l, d := if tail.Local? then links else links[tail.f := f], done + [f];
    forall i {:trigger d[i]} | 0 <= i < |d| - 1 ensures l[d[i]] == d[i + 1] {
      assert d[i] == done[i];
      if i < |done| - 1 { assert done[i] != done[|done| - 1]; }
    }
  }

  /** A thread does not see writes to links of frames that are not on it. */
  lemma ThreadFrame(head: int, links: seq<int>, done: seq<nat>, tail: Cell, f: nat, v: int)
    requires Threaded(head, links, done, tail) && f < |links| && f !in done
    ensures Threaded(head, links[f := v], done, tail)
  {
    forall i {:trigger done[i]} | 0 <= i < |done| - 1 ensures links[f := v][done[i]] == done[i + 1] {
      assert done[i] in done;
    }
  }

  /** The part of the list that the walk has not reached yet is still linked as before. */
  ghost predicate RestLinked(links: seq<int>, free: seq<nat>, k: nat) {
    forall i {:trigger free[i]} :: k <= i < |free| ==> free[i] < |links| && links[free[i]] == After(free, i)
  }

  function StoredLinks(links: seq<int>, tail: Cell, v: int): seq<int>
    requires tail.LinkOf? ==> tail.f < |links|
  {
    if tail.Local? then links else links[tail.f := v]
  }

  function StoredHead(head: int, tail: Cell, v: int): int { if tail.Local? then v else head }

  lemma KeepNext(free: seq<nat>, k: nat, high: bool)
    requires k < |free|
    ensures Keep(free[..k + 1], high) == Keep(free[..k], high) + if IsHigh(free[k]) == high then [free[k]] else []
  {
    assert free[..k + 1][..k] == free[..k];
  }

  lemma NotYet(free: seq<nat>, k: nat, high: bool)
    requires NoDup(free) && k < |free|
    ensures free[k] !in Keep(free[..k], high)
    ensures forall f :: f in Keep(free[..k], high) ==> f in free[..k]
  {
    KeepIn(free[..k], high);
  }

  lemma OwnThread(head: int, links: seq<int>, free: seq<nat>, k: nat, tail: Cell)
    requires NoDup(free) && k < |free| && free[k] < |links|
    requires Threaded(head, links, Keep(free[..k], IsHigh(free[k])), tail)
    ensures tail.LinkOf? ==> tail.f < |links| && tail.f in free[..k]
    ensures tail.LinkOf? ==> tail.f in Keep(free[..k], IsHigh(free[k]))
    ensures Threaded(StoredHead(head, tail, free[k]), StoredLinks(links, tail, free[k]),
                     Keep(free[..k + 1], IsHigh(free[k])), LinkOf(free[k]))
  {
    NotYet(free, k, IsHigh(free[k]));
    KeepNext(free, k, IsHigh(free[k]));
    hide NoDup, Keep, IsHigh, Threaded;
    ThreadStep(head, links, Keep(free[..k], IsHigh(free[k])), tail, free[k]);
  }

  lemma OtherThread(other: int, links: seq<int>, free: seq<nat>, k: nat, tail: Cell, otherTail: Cell)
    requires k < |free|
    requires tail.LinkOf? ==> tail.f < |links| && tail.f in Keep(free[..k], IsHigh(free[k]))
    requires Threaded(other, links, Keep(free[..k], !IsHigh(free[k])), otherTail)
    ensures Threaded(other, StoredLinks(links, tail, free[k]), Keep(free[..k + 1], !IsHigh(free[k])), otherTail)
  {
    KeepNext(free, k, !IsHigh(free[k]));
    KeepIn(free[..k], IsHigh(free[k]));
    KeepIn(free[..k], !IsHigh(free[k]));
    hide Keep, IsHigh, Threaded;
    assert Keep(free[..k + 1], !IsHigh(free[k])) == Keep(free[..k], !IsHigh(free[k]));
    if tail.LinkOf? {
      ThreadFrame(other, links, Keep(free[..k], !IsHigh(free[k])), otherTail, tail.f, free[k]);
    }
  }

  /** One round of the walk: the thread of the frame's own kind grows by it, the other thread and the links that
      are still to be followed are not disturbed. */
  lemma WalkStep(head: int, other: int, links: seq<int>, free: seq<nat>, k: nat, tail: Cell, otherTail: Cell)
    requires NoDup(free) && k < |free| && RestLinked(links, free, k) && NullElsewhere(links, free)
    requires Threaded(head, links, Keep(free[..k], IsHigh(free[k])), tail)
    requires Threaded(other, links, Keep(free[..k], !IsHigh(free[k])), otherTail)
    ensures tail.LinkOf? ==> tail.f < |links|
    ensures var l := StoredLinks(links, tail, free[k]);
      && Threaded(StoredHead(head, tail, free[k]), l, Keep(free[..k + 1], IsHigh(free[k])), LinkOf(free[k]))
      && Threaded(other, l, Keep(free[..k + 1], !IsHigh(free[k])), otherTail)
      && RestLinked(l, free, k) && NullElsewhere(l, free)
  {
    RestNext(links, free, k);
    hide NoDup, Keep, IsHigh, Threaded, RestLinked, NullElsewhere;
    OwnThread(head, links, free, k, tail);
    OtherThread(other, links, free, k, tail, otherTail);
    if tail.LinkOf? { RestFrame(links, free, k, tail.f, free[k]); }
  }

  lemma RestFrame(links: seq<int>, free: seq<nat>, k: nat, f: nat, v: int)
    requires NoDup(free) && k < |free| && RestLinked(links, free, k) && NullElsewhere(links, free)
    requires f in free[..k] && f < |links|
    ensures RestLinked(links[f := v], free, k) && NullElsewhere(links[f := v], free)
  {
    var j :| 0 <= j < k && free[..k][j] == f;
    assert free[j] == f;
    forall i {:trigger free[i]} | k <= i < |free|
      ensures free[i] < |links| && links[f := v][free[i]] == After(free, i)
    {
      assert free[j] != free[i];
    }
  }

  /** The links spell out `done`, with v after its last frame. */
  ghost predicate Closed(links: seq<int>, done: seq<nat>, v: int) {
    forall i {:trigger done[i]} :: 0 <= i < |done| ==>
      done[i] < |links| && links[done[i]] == if i + 1 < |done| then done[i + 1] else v
  }

  /** Storing v through the tail of a thread closes it. */
  lemma Close(head: int, links: seq<int>, done: seq<nat>, tail: Cell, v: int)
    requires Threaded(head, links, done, tail)
    ensures tail.LinkOf? ==> tail.f < |links| && tail.f in done
    ensures StoredHead(head, tail, v) == if done == [] then v else done[0]
    ensures Closed(StoredLinks(links, tail, v), done, v)
  {
    LastDiffers(done);
    hide NoDup;
  }

  lemma LastDiffers(done: seq<nat>)
    requires NoDup(done)
    ensures forall i {:trigger done[i]} :: 0 <= i < |done| - 1 ==> done[i] != done[|done| - 1]
  {
  }

  lemma ClosedFrame(links: seq<int>, done: seq<nat>, v: int, tail: Cell, w: int)
    requires Closed(links, done, v) && (tail.LinkOf? ==> tail.f < |links| && tail.f !in done)
    ensures Closed(StoredLinks(links, tail, w), done, v)
  {
    forall i {:trigger done[i]} | 0 <= i < |done| ensures StoredLinks(links, tail, w)[done[i]] == links[done[i]] {
      assert done[i] in done;
    }
  }

  lemma ClosedJoin(links: seq<int>, a: seq<nat>, b: seq<nat>)
    requires Closed(links, a, First(b)) && Closed(links, b, -1) && NoDup(a + b)
    ensures Chain(First(a + b), links, a + b)
  {
    hide NoDup;
    var q := a + b;
    forall i {:trigger q[i]} | 0 <= i < |q| ensures q[i] < |links| && links[q[i]] == After(q, i) {
      if i < |a| {
        assert q[i] == a[i];
      } else {
        assert q[i] == b[i - |a|];
      }
    }
  }

  /** The two threads, closed and joined, are one null-terminated list. */
  lemma Join(head0: int, head1: int, links: seq<int>, a: seq<nat>, b: seq<nat>, tail0: Cell, tail1: Cell)
    requires Threaded(head0, links, a, tail0) && Threaded(head1, links, b, tail1)
    requires Disjoint(a, b) && NoDup(a + b)
    ensures tail0.LinkOf? ==> tail0.f < |links|
    ensures tail1.LinkOf? ==> tail1.f < |links|
    ensures var h := StoredHead(head1, tail1, -1);
      Chain(StoredHead(head0, tail0, h), StoredLinks(StoredLinks(links, tail1, -1), tail0, h), a + b)
  {
    Close(head1, links, b, tail1, -1);
    var h, l1 := StoredHead(head1, tail1, -1), StoredLinks(links, tail1, -1);
    if tail1.LinkOf? { ThreadFrame(head0, links, a, tail0, tail1.f, -1); }
    Close(head0, l1, a, tail0, h);
    hide Threaded, NoDup, StoredLinks, StoredHead, Closed, Chain;
    ClosedFrame(l1, b, -1, tail0, h);
    ClosedJoin(StoredLinks(l1, tail0, h), a, b);
    assert h == First(b);
    assert StoredHead(head0, tail0, h) == First(a + b);
  }

  /** Assignment through a tail pointer: the local variable it points at, or a link, changes. */
  method StoreThrough(pm: Pages, tail: Cell, local: int, v: int) returns (local': int)
    requires tail.LinkOf? ==> tail.f < pm.link.Length
    modifies pm.link
    ensures local' == StoredHead(local, tail, v)
    ensures tail.LinkOf? ==> tail.f < |old(pm.link[..])|
    ensures pm.link[..] == StoredLinks(old(pm.link[..]), tail, v)
  {
    if tail.Local? { return v; }
    pm.link[tail.f] := v;
    return local;
  }

  /** After k frames: the two threads hold those frames, and the rest is linked as it was. */
  ghost predicate Walked(links: seq<int>, free: seq<nat>, k: nat, pp1: int, tp0: Cell, pp2: int, tp1: Cell) {
    && k <= |free| && NoDup(free)
    && Threaded(pp1, links, Keep(free[..k], false), tp0)
    && Threaded(pp2, links, Keep(free[..k], true), tp1)
    && RestLinked(links, free, k) && NullElsewhere(links, free)
  }

  function Nth(free: seq<nat>, k: nat): int { if k < |free| then free[k] else -1 }

  lemma WalkedLow(links: seq<int>, free: seq<nat>, k: nat, pp1: int, tp0: Cell, pp2: int, tp1: Cell)
    requires Walked(links, free, k, pp1, tp0, pp2, tp1) && k < |free| && !IsHigh(free[k])
    ensures tp0.LinkOf? ==> tp0.f < |links|
    ensures var l := StoredLinks(links, tp0, free[k]);
      && Walked(l, free, k + 1, StoredHead(pp1, tp0, free[k]), LinkOf(free[k]), pp2, tp1)
      && free[k] < |l| && l[free[k]] == Nth(free, k + 1)
  {
    hide Threaded, NoDup, RestLinked, NullElsewhere, Keep;
    WalkStep(pp1, pp2, links, free, k, tp0, tp1);
    RestNext(StoredLinks(links, tp0, free[k]), free, k);
  }

  lemma WalkedHigh(links: seq<int>, free: seq<nat>, k: nat, pp1: int, tp0: Cell, pp2: int, tp1: Cell)
    requires Walked(links, free, k, pp1, tp0, pp2, tp1) && k < |free| && IsHigh(free[k])
    ensures tp1.LinkOf? ==> tp1.f < |links|
    ensures var l := StoredLinks(links, tp1, free[k]);
      && Walked(l, free, k + 1, pp1, tp0, StoredHead(pp2, tp1, free[k]), LinkOf(free[k]))
      && free[k] < |l| && l[free[k]] == Nth(free, k + 1)
  {
    hide Threaded, NoDup, RestLinked, NullElsewhere, Keep;
    WalkStep(pp2, pp1, links, free, k, tp1, tp0);
    RestNext(StoredLinks(links, tp1, free[k]), free, k);
  }

  /** The walk: one pass, links overwritten behind it through the two tail pointers. */
  method Walk(pm: Pages) returns (pp1: int, tp0: Cell, pp2: int, tp1: Cell)
    requires pm.Valid()
    modifies pm.link
    ensures Walked(pm.link[..], pm.free, |pm.free|, pp1, tp0, pp2, tp1)
  {
    WalkStart(pm.head, pm.link[..], pm.free);
    hide Walked, ListRep, IsHigh;
    pp1, pp2, tp0, tp1 := -1, -1, Local, Local;
    var pp := pm.head;
    ghost var k := 0;
    while pp != -1
      invariant 0 <= k <= |pm.free| && pp == Nth(pm.free, k)
      invariant Walked(pm.link[..], pm.free, k, pp1, tp0, pp2, tp1)
      decreases |pm.free| - k
    {
      if IsHigh(pp) {
        WalkedHigh(pm.link[..], pm.free, k, pp1, tp0, pp2, tp1);
        pp2 := StoreThrough(pm, tp1, pp2, pp);
        tp1 := LinkOf(pp);
      } else {
        WalkedLow(pm.link[..], pm.free, k, pp1, tp0, pp2, tp1);
        pp1 := StoreThrough(pm, tp0, pp1, pp);
        tp0 := LinkOf(pp);
      }
      pp := pm.link[pp];
      k := k + 1;
    }
  }

  lemma WalkedAll(links: seq<int>, free: seq<nat>, pp1: int, tp0: Cell, pp2: int, tp1: Cell)
    requires Walked(links, free, |free|, pp1, tp0, pp2, tp1)
    ensures tp0.LinkOf? ==> tp0.f < |links|
    ensures tp1.LinkOf? ==> tp1.f < |links|
    ensures var h := StoredHead(pp2, tp1, -1);
      ListRep(StoredHead(pp1, tp0, h), StoredLinks(StoredLinks(links, tp1, -1), tp0, h), LowFirst(free))
  {
    assert free[..|free|] == free;
    hide Threaded, NoDup, NullElsewhere, Keep, Chain;
    LowFirstNoDup(free);
    Join(pp1, pp2, links, Keep(free, false), Keep(free, true), tp0, tp1);
    WalkEnd(pp1, pp2, links, free, tp0, tp1);
  }

  /** The relinking leaves a null-terminated list with the low frames first and everything else as it was. */
  method LowFramesFirst(pm: Pages)
    requires pm.Valid()
    modifies pm`head, pm`free, pm.link
    ensures pm.Valid()
    ensures pm.Abs() == old(pm.Abs()).(free := LowFirst(old(pm.free)))
    ensures SplitAt4MB(old(pm.free), pm.free)
  {
    hide Walked, LowFirst, ListRep, SplitAt4MB;
    ListSplits(pm.head, pm.link[..], pm.free);
    var pp1, tp0, pp2, tp1 := Walk(pm);
    WalkedAll(pm.link[..], pm.free, pp1, tp0, pp2, tp1);
    pp2 := StoreThrough(pm, tp1, pp2, -1);
    pp1 := StoreThrough(pm, tp0, pp1, pp2);
    pm.head := pp1;
    pm.free := LowFirst(pm.free);
  }

  lemma ListSplits(head: int, links: seq<int>, free: seq<nat>)
    requires ListRep(head, links, free) && |links| <= 0x10_0000
    ensures SplitAt4MB(free, LowFirst(free))
  {
    LowFirstSplits(free);
  }

  lemma WalkStart(head: int, links: seq<int>, free: seq<nat>)
    requires ListRep(head, links, free)
    ensures head == Nth(free, 0) && Walked(links, free, 0, -1, Local, -1, Local)
  {
  }

  lemma RestNext(links: seq<int>, free: seq<nat>, k: nat)
    requires RestLinked(links, free, k) && k < |free|
    ensures RestLinked(links, free, k + 1) && free[k] < |links| && links[free[k]] == After(free, k)
  {
  }

  lemma WalkEnd(pp1: int, pp2: int, links: seq<int>, free: seq<nat>, tp0: Cell, tp1: Cell)
    requires NoDup(free) && NullElsewhere(links, free)
    requires Threaded(pp1, links, Keep(free, false), tp0) && Threaded(pp2, links, Keep(free, true), tp1)
    ensures tp0.LinkOf? ==> tp0.f < |links|
    ensures tp1.LinkOf? ==> tp1.f < |links|
    ensures NullElsewhere(StoredLinks(StoredLinks(links, tp1, -1), tp0, StoredHead(pp2, tp1, -1)), LowFirst(free))
  {
    LowFirstNoDup(free);
    KeepIn(free, false);
    KeepIn(free, true);
    TailIn(pp1, links, Keep(free, false), tp0);
    TailIn(pp2, links, Keep(free, true), tp1);
    hide Threaded, Keep, NoDup, LowFirst, IsHigh;
    var h, l1 := StoredHead(pp2, tp1, -1), StoredLinks(links, tp1, -1);
    StoredLength(links, tp1, -1);
    var l := StoredLinks(l1, tp0, h);
    hide StoredLinks, StoredHead;
    forall f {:trigger l[f]} | 0 <= f < |l| && f !in LowFirst(free) ensures l[f] == -1 {
      StoredLength(l1, tp0, h);
      StoredElsewhere(l1, tp0, h, f);
      StoredElsewhere(links, tp1, -1, f);
      assert links[f] == -1;
    }
  }

  lemma StoredLength(links: seq<int>, tail: Cell, v: int)
    requires tail.LinkOf? ==> tail.f < |links|
    ensures |StoredLinks(links, tail, v)| == |links|
  {
  }

  lemma StoredElsewhere(links: seq<int>, tail: Cell, v: int, f: nat)
    requires tail.LinkOf? ==> tail.f < |links| && tail.f != f
    requires f < |links|
    ensures f < |StoredLinks(links, tail, v)| && StoredLinks(links, tail, v)[f] == links[f]
  {
  }

  lemma TailIn(head: int, links: seq<int>, done: seq<nat>, tail: Cell)
    requires Threaded(head, links, done, tail)
    ensures tail.LinkOf? ==> tail.f in done && tail.f < |links|
  {
    if done != [] { assert done[|done| - 1] in done; }
  }
}
