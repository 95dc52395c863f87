/** The intrusive singly linked free list: a head and one link per frame, -1 standing for NULL. */
module FreeList {
  import opened Phys

  function First(free: seq<nat>): int { if free == [] then -1 else free[0] }

  function After(free: seq<nat>, i: nat): int
    requires i < |free|
  {
    if i + 1 < |free| then free[i + 1] else -1
  }

  /** The links spell out the list, which has no duplicates and so no cycle. */
  ghost predicate Chain(head: int, links: seq<int>, free: seq<nat>) {
    && (forall i {:trigger free[i]} :: 0 <= i < |free| ==> free[i] < |links|)
    && NoDup(free)
    && head == First(free)
    && (forall i {:trigger free[i]} :: 0 <= i < |free| ==> links[free[i]] == After(free, i))
  }

  /** Frames that are not on the list have a null link. */
  ghost predicate NullElsewhere(links: seq<int>, free: seq<nat>) {
    forall f {:trigger links[f]} :: 0 <= f < |links| && f !in free ==> links[f] == -1
  }

  ghost predicate ListRep(head: int, links: seq<int>, free: seq<nat>) {
    Chain(head, links, free) && NullElsewhere(links, free)
  }

  lemma ChainEmpty(links: seq<int>)
    ensures Chain(-1, links, [])
  {
  }

  lemma ChainPush(head: int, links: seq<int>, free: seq<nat>, f: nat)
    requires Chain(head, links, free) && f < |links| && f !in free
    ensures Chain(f, links[f := head], [f] + free)
  {
    var l, q := links[f := head], [f] + free;
    forall i {:trigger q[i]} | 0 <= i < |q| ensures q[i] < |l| && l[q[i]] == After(q, i) {
      if i > 0 { assert q[i] == free[i - 1]; }
    }
  }

  lemma ChainPop(head: int, links: seq<int>, free: seq<nat>)
    requires Chain(head, links, free) && free != []
    ensures 0 <= head < |links| && head == free[0]
    ensures Chain(links[head], links, free[1..]) && head !in free[1..]
  {
    var q := free[1..];
    assert links[free[0]] == After(free, 0);
    forall i {:trigger q[i]} | 0 <= i < |q| ensures q[i] < |links| && links[q[i]] == After(q, i) {
      assert q[i] == free[i + 1];
    }
  }

  /** The elements of a list are its head and those of its tail. */
  lemma InTail(q: seq<nat>)
    requires q != []
    ensures forall g :: g in q <==> g == q[0] || g in q[1..]
  {
    assert q == [q[0]] + q[1..];
  }

  lemma HeadIs(head: int, links: seq<int>, free: seq<nat>)
    requires ListRep(head, links, free)
    ensures if free == [] then head == -1 else head == free[0] < |links|
  {
  }

  lemma ListPush(head: int, links: seq<int>, free: seq<nat>, f: nat)
    requires ListRep(head, links, free) && f < |links| && f !in free
    ensures ListRep(f, links[f := head], [f] + free)
  {
    ChainPush(head, links, free, f);
    var l, q := links[f := head], [f] + free;
    forall g {:trigger l[g]} | 0 <= g < |l| && g !in q ensures l[g] == -1 {
      assert q[0] == f;
      assert q == [f] + free;
    }
  }

  lemma ListPop(head: int, links: seq<int>, free: seq<nat>)
    requires ListRep(head, links, free) && free != []
    ensures 0 <= head < |links| && head == free[0]
    ensures ListRep(links[head], links[head := -1], free[1..])
  {
    ChainPop(head, links, free);
    var l, q := links[head := -1], free[1..];
    forall i {:trigger q[i]} | 0 <= i < |q| ensures q[i] < |l| && l[q[i]] == After(q, i) {
      assert q[i] in q;
    }
    InTail(free);
    forall g {:trigger l[g]} | 0 <= g < |l| && g !in q ensures l[g] == -1 {
    }
  }

  // ----- freeing twice -----

  /** The null-link test of page_free: it tells every free frame from the others but the tail of the list. */
  lemma TailLooksTaken(head: int, links: seq<int>, free: seq<nat>, f: nat)
    requires ListRep(head, links, free) && f < |links|
    ensures links[f] != -1 <==> f in free && f != free[|free| - 1]
  {
    if f in free {
      var i :| 0 <= i < |free| && free[i] == f;
      assert links[free[i]] == After(free, i);
    }
  }

  /** Freeing the tail again makes a cycle: the links then spell out no list at all. */
  lemma DoubleFreeCycle(head: int, links: seq<int>, free: seq<nat>, q: seq<nat>)
    requires ListRep(head, links, free) && free != []
    ensures !Chain(free[|free| - 1], links[free[|free| - 1] := head], q)
  {
    var f := free[|free| - 1];
    if Chain(f, links[f := head], q) {
      Around(head, links, free, q, |free| - 1);
      assert false;
    }
  }

  lemma {:induction false} Around(head: int, links: seq<int>, free: seq<nat>, q: seq<nat>, k: nat)
    requires ListRep(head, links, free) && k < |free|
    requires Chain(free[|free| - 1], links[free[|free| - 1] := head], q)
    ensures k + 1 < |q| && q[0] == free[|free| - 1] && q[k + 1] == free[k]
  {
    var l := links[free[|free| - 1] := head];
    if k == 0 {
      assert l[q[0]] == After(q, 0);
    } else {
      Around(head, links, free, q, k - 1);
      assert free[k - 1] != free[|free| - 1];
      assert links[free[k - 1]] == After(free, k - 1);
      assert l[q[k]] == After(q, k);
    }
  }
}
