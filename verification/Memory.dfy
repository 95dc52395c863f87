/** memmove (lib/string.c): overlapping copies in place, unit by unit or, on aligned operands, a word at a time. */
module Memory {

  /** Where the element that ends up at index i comes from. */
  function Source(dst: nat, src: nat, n: nat, i: nat): nat {
    if dst <= i < dst + n then src + (i - dst) else i
  }

  /** The array after n elements have been copied from src to dst as if all at once. */
  function Moved<T>(a: seq<T>, dst: nat, src: nat, n: nat): (r: seq<T>)
    requires dst + n <= |a| && src + n <= |a|
    ensures |r| == |a| && forall i {:trigger r[i]} :: 0 <= i < |a| ==> r[i] == a[Source(dst, src, n, i)]
  {
    seq(|a|, i requires 0 <= i < |a| => a[Source(dst, src, n, i)])
  }

  /** The n elements from dst on are those that stood at src, and nothing else has changed. */
  ghost predicate Copied<T>(was: seq<T>, now: seq<T>, dst: nat, src: nat, n: nat) {
    && |now| == |was| && dst + n <= |was| && src + n <= |was|
    && (forall i {:trigger now[dst + i]} :: 0 <= i < n ==> now[dst + i] == was[src + i])
    && (forall i {:trigger now[i]} :: 0 <= i < |was| && !(dst <= i < dst + n) ==> now[i] == was[i])
  }

  /** The direction test of memmove, then `rep movsb`: backwards when the source lies below and overlaps. */
  method MoveUnits<T>(a: array<T>, dst: nat, src: nat, n: nat)
    requires dst + n <= a.Length && src + n <= a.Length
    modifies a
    ensures a[..] == Moved(old(a[..]), dst, src, n)
    ensures Copied(old(a[..]), a[..], dst, src, n)
  {
    ghost var was := a[..];
    if src < dst < src + n {
      var k := n;
      while k > 0
        invariant 0 <= k <= n
        invariant forall i {:trigger a[i]} :: 0 <= i < a.Length ==>
          a[i] == if i < dst + k then was[i] else was[Source(dst, src, n, i)]
      {
        k := k - 1;
        a[dst + k] := a[src + k];
      }
    } else {
      var k := 0;
      while k < n
        invariant 0 <= k <= n
        invariant forall i {:trigger a[i]} :: 0 <= i < a.Length ==>
          a[i] == if i < dst + k then was[Source(dst, src, n, i)] else was[i]
      {
        a[dst + k] := a[src + k];
        k := k + 1;
      }
    }
    assert a[..] == Moved(was, dst, src, n);
  }

  /** One `movsl`: four units are read before any is written. */
  method MoveWord<T>(a: array<T>, dst: nat, src: nat)
    requires dst + 4 <= a.Length && src + 4 <= a.Length
    modifies a
    ensures a[..] == Moved(old(a[..]), dst, src, 4)
  {
    var b0, b1, b2, b3 := a[src], a[src + 1], a[src + 2], a[src + 3];
    a[dst], a[dst + 1], a[dst + 2], a[dst + 3] := b0, b1, b2, b3;
    assert a[..] == Moved(old(a[..]), dst, src, 4);
  }

  predicate Aligned(x: nat) { x % 4 == 0 }

  function WordCount(n: nat): nat { n / 4 }

  lemma Words(n: nat)
    requires Aligned(n)
    ensures 4 * WordCount(n) == n
    ensures forall w: nat {:trigger Aligned(4 * w)} :: Aligned(4 * w)
  {
  }

  /** The same copy with `rep movsl`, which memmove uses when both pointers and the length are multiples of four. */
  method MoveWords<T>(a: array<T>, dst: nat, src: nat, n: nat)
    requires dst + n <= a.Length && src + n <= a.Length
    requires Aligned(dst) && Aligned(src) && Aligned(n)
    modifies a
    ensures a[..] == Moved(old(a[..]), dst, src, n)
    ensures Copied(old(a[..]), a[..], dst, src, n)
  {
    if src < dst < src + n {
      MoveWordsDown(a, dst, src, n);
    } else {
      MoveWordsUp(a, dst, src, n);
    }
  }

  /** `std; rep movsl` */
  method MoveWordsDown<T>(a: array<T>, dst: nat, src: nat, n: nat)
    requires dst + n <= a.Length && src + n <= a.Length && src < dst && Aligned(n)
    modifies a
    ensures a[..] == Moved(old(a[..]), dst, src, n)
  {
    hide *;
    ghost var was := a[..];
    var w := WordCount(n);
    Words(n);
    Ends(was, dst, src, n);
    while w > 0
      invariant 0 <= w <= WordCount(n)
      invariant a[..] == DownTo(was, dst, src, n, 4 * w)
    {
      w := w - 1;
      MoveWord(a, dst + 4 * w, src + 4 * w);
      WordDown(was, dst, src, n, 4 * w);
    }
  }

  /** `cld; rep movsl` */
  method MoveWordsUp<T>(a: array<T>, dst: nat, src: nat, n: nat)
    requires dst + n <= a.Length && src + n <= a.Length && !(src < dst < src + n)
    requires Aligned(dst) && Aligned(src) && Aligned(n)
    modifies a
    ensures a[..] == Moved(old(a[..]), dst, src, n)
  {
    hide *;
    ghost var was := a[..];
    var w := 0;
    Words(n);
    Ends(was, dst, src, n);
    while w < WordCount(n)
      invariant 0 <= w <= WordCount(n)
      invariant a[..] == UpTo(was, dst, src, n, 4 * w)
    {
      MoveWord(a, dst + 4 * w, src + 4 * w);
      assert Aligned(4 * w);
      WordUp(was, dst, src, n, 4 * w);
      w := w + 1;
    }
  }

  /** The array when elements k..n have been copied, and when elements 0..k have. */
  function DownTo<T>(a: seq<T>, dst: nat, src: nat, n: nat, k: nat): (r: seq<T>)
    requires dst + n <= |a| && src + n <= |a| && k <= n
    ensures |r| == |a| && forall i {:trigger r[i]} :: 0 <= i < |a| ==>
      r[i] == if i < dst + k then a[i] else a[Source(dst, src, n, i)]
  {
    seq(|a|, i requires 0 <= i < |a| => if i < dst + k then a[i] else a[Source(dst, src, n, i)])
  }

  function UpTo<T>(a: seq<T>, dst: nat, src: nat, n: nat, k: nat): (r: seq<T>)
    requires dst + n <= |a| && src + n <= |a| && k <= n
    ensures |r| == |a| && forall i {:trigger r[i]} :: 0 <= i < |a| ==>
      r[i] == if i < dst + k then a[Source(dst, src, n, i)] else a[i]
  {
    seq(|a|, i requires 0 <= i < |a| => if i < dst + k then a[Source(dst, src, n, i)] else a[i])
  }

  lemma Ends<T>(a: seq<T>, dst: nat, src: nat, n: nat)
    requires dst + n <= |a| && src + n <= |a|
    ensures DownTo(a, dst, src, n, n) == a && DownTo(a, dst, src, n, 0) == Moved(a, dst, src, n)
    ensures UpTo(a, dst, src, n, 0) == a && UpTo(a, dst, src, n, n) == Moved(a, dst, src, n)
  {
  }

  /** A word that is moved has not been overwritten yet, in either direction, because the operands are aligned. */
  lemma WordDown<T>(a: seq<T>, dst: nat, src: nat, n: nat, k: nat)
    requires dst + n <= |a| && src + n <= |a| && k + 4 <= n && src < dst
    ensures Moved(DownTo(a, dst, src, n, k + 4), dst + k, src + k, 4) == DownTo(a, dst, src, n, k)
  {
  }

  lemma WordUp<T>(a: seq<T>, dst: nat, src: nat, n: nat, k: nat)
    requires dst + n <= |a| && src + n <= |a| && k + 4 <= n && !(src < dst < src + n)
    requires Aligned(dst) && Aligned(src) && Aligned(k)
    ensures Moved(UpTo(a, dst, src, n, k), dst + k, src + k, 4) == UpTo(a, dst, src, n, k + 4)
  {
  }
}
