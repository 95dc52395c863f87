/** stab_binsearch (kern/kdebug.c): a binary search for one type of entry in a table that mixes many types. */
module Stabs {
  import opened Wrappers

  datatype Stab = Stab(kind: int, value: nat)

  /** Entry i lies in the region [left, right] and has the wanted type. */
  ghost predicate Hit(stabs: seq<Stab>, left: int, right: int, kind: int, i: int) {
    0 <= left <= i <= right < |stabs| && stabs[i].kind == kind
  }

  /** The entries of the type are in nondecreasing address order. */
  ghost predicate Ordered(stabs: seq<Stab>, left: int, right: int, kind: int) {
    forall i, j :: Hit(stabs, left, right, kind, i) && Hit(stabs, left, right, kind, j) && i < j ==>
      stabs[i].value <= stabs[j].value
  }

  ghost predicate HasAt(stabs: seq<Stab>, left: int, right: int, kind: int, addr: nat) {
    exists i :: Hit(stabs, left, right, kind, i) && stabs[i].value == addr
  }

  ghost predicate AnyUpTo(stabs: seq<Stab>, left: int, right: int, kind: int, addr: nat) {
    exists i :: Hit(stabs, left, right, kind, i) && stabs[i].value <= addr
  }

  ghost predicate NoneIn(stabs: seq<Stab>, left: int, right: int, kind: int, from: int, to: int) {
    forall i :: Hit(stabs, left, right, kind, i) ==> !(from <= i < to)
  }

  /** What the search is for: entries in order, and not both addr and addr + 1 among them. */
  ghost predicate Searchable(stabs: seq<Stab>, left: int, right: int, kind: int, addr: nat) {
    && Ordered(stabs, left, right, kind)
    && !(HasAt(stabs, left, right, kind, addr) && HasAt(stabs, left, right, kind, addr + 1))
  }

  /** l is the last entry at or below addr, and r ends just before the first entry above it. */
  ghost predicate Brackets(stabs: seq<Stab>, left: int, right: int, kind: int, addr: nat, l: int, r: int) {
    && Hit(stabs, left, right, kind, l) && stabs[l].value <= addr
    && (forall i :: Hit(stabs, left, right, kind, i) && i > l ==> stabs[i].value > addr)
    && l <= r <= right
    && NoneIn(stabs, left, right, kind, l + 1, r + 1)
    && (r < right ==> Hit(stabs, left, right, kind, r + 1))
  }

  /** A bracket is unique: the contract of the search leaves no choice. */
  lemma BracketUnique(stabs: seq<Stab>, left: int, right: int, kind: int, addr: nat, l: int, r: int, l': int, r': int)
    requires Brackets(stabs, left, right, kind, addr, l, r) && Brackets(stabs, left, right, kind, addr, l', r')
    ensures l == l' && r == r'
  {
    assert Hit(stabs, left, right, kind, l) && Hit(stabs, left, right, kind, l');
    assert r < right ==> Hit(stabs, left, right, kind, r + 1);
    assert r' < right ==> Hit(stabs, left, right, kind, r' + 1);
  }

  /** No entry of the type is at or below addr: r ends just before the first entry of the type, and l is the
      left end of the region, or r when the very first entry is of the type. */
  ghost predicate AllAbove(stabs: seq<Stab>, left: int, right: int, kind: int, addr: nat, l: int, r: int) {
    && (forall i :: Hit(stabs, left, right, kind, i) ==> stabs[i].value > addr)
    && Hit(stabs, left, right, kind, r + 1)
    && NoneIn(stabs, left, right, kind, left, r + 1)
    && l == if r < left then r else left
  }

  /** What the search finds in any case: two neighbouring entries of the type (or the end of the region), the upper
      one above addr; the lower one is above addr too only if every address from addr up to it has an entry. */
  ghost predicate Drifts(stabs: seq<Stab>, left: int, right: int, kind: int, addr: nat, l: int, r: int) {
    && Hit(stabs, left, right, kind, l) && l <= r <= right
    && NoneIn(stabs, left, right, kind, l + 1, r + 1)
    && (r < right ==> Hit(stabs, left, right, kind, r + 1) && stabs[r + 1].value > addr)
    && (forall v :: addr <= v <= stabs[l].value ==> HasAt(stabs, left, right, kind, v))
  }

  // ----- when the search drifts -----

  /** The last entry of the type in [l, m], or l - 1. */
  function LastIn(stabs: seq<Stab>, l: int, m: int, kind: int): (k: int)
    requires 0 <= l <= m + 1 && m < |stabs|
    ensures l - 1 <= k <= m && (k >= l ==> stabs[k].kind == kind)
    ensures forall i :: k < i <= m ==> stabs[i].kind != kind
    decreases m - l + 1
  {
    if m < l || stabs[m].kind == kind then m else LastIn(stabs, l, m - 1, kind)
  }

  /** A plain binary search on [l, r]: the first exact match it meets, with the right bound of that moment. */
  function FirstMatch(stabs: seq<Stab>, l: int, r: int, kind: int, addr: nat): (f: Option<(int, int)>)
    requires 0 <= l && r < |stabs|
    ensures f.Some? ==> l <= f.value.0 <= f.value.1 <= r
    ensures f.Some? ==> stabs[f.value.0].kind == kind && stabs[f.value.0].value == addr
    decreases r - l + 1
  {
    if l > r then None
    else
      var trueM := (l + r) / 2;
      var m := LastIn(stabs, l, trueM, kind);
      if m < l || stabs[m].value < addr then FirstMatch(stabs, trueM + 1, r, kind, addr)
      else if stabs[m].value > addr then FirstMatch(stabs, l, m - 1, kind, addr)
      else Some((m, r))
  }

  /** At its first exact match the search still has an entry at addr + 1 on its right. */
  ghost predicate Drifting(stabs: seq<Stab>, left: int, right: int, kind: int, addr: nat)
    requires 0 <= left && right < |stabs|
  {
    match FirstMatch(stabs, left, right, kind, addr)
    case None => false
    case Some((m, r)) => HasIn(stabs, left, right, kind, addr + 1, m + 1, r)
  }

  /** The exact matches in a row: the first one for addr, then, right of it, the first one for addr + 1, and so on. The
      last of them, its right bound, and the address it was a match for. */
  function LastMatch(stabs: seq<Stab>, l: int, r: int, kind: int, addr: nat): Option<(int, int, nat)>
    requires 0 <= l && r < |stabs|
    decreases r - l + 1, if l <= r && stabs[l].kind == kind && stabs[l].value >= addr then 1 else 0
  {
    match FirstMatch(stabs, l, r, kind, addr)
    case None => None
    case Some((m, r')) =>
      var later := LastMatch(stabs, m, r', kind, addr + 1);
      if later.Some? then later else Some((m, r', addr))
  }

  /** Where the search ends in an ordered table with an entry at or below addr: at the bracket, but of the address that
      its last exact match was for, and among the entries still before it at that match. */
  ghost predicate EndsAt(stabs: seq<Stab>, left: int, right: int, kind: int, addr: nat, l: int, r: int)
    requires 0 <= left && right < |stabs|
  {
    match LastMatch(stabs, left, right, kind, addr)
    case None => Brackets(stabs, left, right, kind, addr, l, r)
    case Some((_, to, at)) => Brackets(stabs, left, to, kind, at, l, r)
  }

  ghost predicate HasIn(stabs: seq<Stab>, left: int, right: int, kind: int, value: nat, from: int, to: int) {
    exists i :: Hit(stabs, left, right, kind, i) && from <= i <= to && stabs[i].value == value
  }

  /** What holds of the bounds from the first exact match on. If the search drifts, it has taken an entry above addr
      or still has addr + 1 before it; otherwise it meets no second match. */
  ghost predicate Ahead(stabs: seq<Stab>, left: int, right: int, kind: int, addr: nat,
                        l: int, r: int, best: int, target: nat)
    requires 0 <= left && right < |stabs|
  {
    && Hit(stabs, left, right, kind, best)
    && if Drifting(stabs, left, right, kind, addr)
       then stabs[best].value > addr || (target == addr + 1 && HasIn(stabs, left, right, kind, addr + 1, l, r))
       else stabs[best].value <= addr && target == addr + 1 && !HasIn(stabs, left, right, kind, addr + 1, l, r)
  }

  lemma AheadStarts(stabs: seq<Stab>, left: int, right: int, kind: int, addr: nat, m: int, r: int)
    requires 0 <= left && right < |stabs|
    requires FirstMatch(stabs, left, right, kind, addr) == Some((m, r))
    ensures Ahead(stabs, left, right, kind, addr, m, r, m, addr + 1)
  {
    hide FirstMatch;
    assert Hit(stabs, left, right, kind, m);
  }

  /** One round of the search behind the first match. */
  lemma AheadStays(stabs: seq<Stab>, left: int, right: int, kind: int, addr: nat,
                   l: int, r: int, best: int, target: nat, trueM: int, m: int)
    requires 0 <= left <= l <= trueM <= r <= right < |stabs| && Ordered(stabs, left, right, kind)
    requires Ahead(stabs, left, right, kind, addr, l, r, best, target) && best <= l && addr < target
    requires m == LastIn(stabs, l, trueM, kind)
    ensures m < l ==> Ahead(stabs, left, right, kind, addr, trueM + 1, r, best, target)
    ensures m >= l && stabs[m].value < target ==> Ahead(stabs, left, right, kind, addr, trueM + 1, r, m, target)
    ensures m >= l && stabs[m].value > target ==> Ahead(stabs, left, right, kind, addr, l, m - 1, best, target)
    ensures m >= l && stabs[m].value == target ==> Ahead(stabs, left, right, kind, addr, m, r, m, target + 1)
  {
    hide Drifting;
    if m >= l { assert Hit(stabs, left, right, kind, m); }
  }

  /** Searches stabs[left..right]. `addr` never wraps, because no entry of the type sits at 2^32 - 1. */
  method StabBinsearch(stabs: seq<Stab>, left: int, right: int, kind: int, addr: nat)
    returns (regionLeft: int, regionRight: int)
    requires 0 <= left && right < |stabs| && addr < 0x1_0000_0000
    requires forall i :: Hit(stabs, left, right, kind, i) ==> stabs[i].value < 0xFFFF_FFFF
    ensures left - 1 <= regionLeft && left - 1 <= regionRight
    ensures left <= right ==> regionLeft <= right && regionRight <= right
    ensures regionLeft > regionRight <==> forall i :: !Hit(stabs, left, right, kind, i)
    ensures regionLeft > regionRight ==> regionLeft == left && regionRight == left - 1
    ensures Searchable(stabs, left, right, kind, addr) && regionLeft <= regionRight ==>
      || Brackets(stabs, left, right, kind, addr, regionLeft, regionRight)
      || AllAbove(stabs, left, right, kind, addr, regionLeft, regionRight)
    ensures (exists i :: Hit(stabs, left, right, kind, i) && i <= regionRight) ==>
      Drifts(stabs, left, right, kind, addr, regionLeft, regionRight)
    ensures Ordered(stabs, left, right, kind) && AnyUpTo(stabs, left, right, kind, addr) ==>
      && (Brackets(stabs, left, right, kind, addr, regionLeft, regionRight)
          <==> !Drifting(stabs, left, right, kind, addr))
      && Drifts(stabs, left, right, kind, addr, regionLeft, regionRight)
      && EndsAt(stabs, left, right, kind, addr, regionLeft, regionRight)
  {
    regionLeft, regionRight := left, right;
    var l, r, anyMatches, target := left, right, false, addr;
    ghost var found := false;  // regionLeft has been set
    hide FirstMatch, LastMatch, EndsAt, Drifting, Ahead, Brackets, AllAbove, Drifts, Searchable, Ordered, Searching;
    if left <= right { SearchStarts(stabs, left, right, kind, addr); }
    while l <= r
      invariant left <= l && r <= right && regionRight == r
      invariant anyMatches <==> found || r < right
      invariant if left <= right
        then left - 1 <= r && Searching(stabs, left, right, kind, addr, l, r, regionLeft, target, found)
        else regionLeft == l == left && r == right && !found
      decreases 2 * (r - l) + if l <= r && stabs[l].kind == kind && stabs[l].value >= target then 1 else 0
    {
      var trueM := (l + r) / 2;
      var m := LastHit(stabs, l, trueM, kind);
      SearchStays(stabs, left, right, kind, addr, l, r, regionLeft, target, found, trueM, m);
      if m < l {
        l := trueM + 1;
        continue;
      }
      anyMatches := true;
      if stabs[m].value < target {
        regionLeft, found := m, true;
        l := trueM + 1;
      } else if stabs[m].value > target {
        regionRight := m - 1;
        r := m - 1;
      } else {
        regionLeft, found := m, true;
        l := m;
        target := target + 1;
      }
    }
    if left <= right { SearchEnds(stabs, left, right, kind, addr, l, r, regionLeft, target, found); }
    if !anyMatches {
      regionRight := regionLeft - 1;
    } else {
      l := regionRight;
      while l > regionLeft && stabs[l].kind != kind
        invariant l <= regionRight && (l >= regionLeft || l == regionRight)
      {
        l := l - 1;
      }
      assert l > regionLeft ==> Hit(stabs, left, right, kind, l);
      regionLeft := l;
    }
  }

  /** Nothing of the type lies between the bounds found and the interval still searched. */
  ghost predicate Bounds(stabs: seq<Stab>, left: int, right: int, kind: int, addr: nat,
                         l: int, r: int, best: int, target: nat, found: bool)
    requires 0 <= left && right < |stabs|
  {
    && left <= l && left - 1 <= r <= right && addr <= target && l <= r + 1
    && (!found ==> best == left && target == addr && NoneIn(stabs, left, right, kind, left, l))
    && (found ==> Hit(stabs, left, right, kind, best) && best <= l && best <= r && stabs[best].value < target)
    && (found ==> NoneIn(stabs, left, right, kind, best + 1, l))
    && (r < right ==> Hit(stabs, left, right, kind, r + 1) && stabs[r + 1].value > addr)
    && (forall v :: addr <= v < target ==> HasAt(stabs, left, right, kind, v))
  }

  /** How far the search has come: it has met no match yet, or goes on from the first one. */
  ghost predicate Trail(stabs: seq<Stab>, left: int, right: int, kind: int, addr: nat,
                        l: int, r: int, best: int, target: nat)
    requires 0 <= left <= l && r <= right < |stabs|
  {
    if target == addr then FirstMatch(stabs, l, r, kind, addr) == FirstMatch(stabs, left, right, kind, addr)
    else Ordered(stabs, left, right, kind) ==> Ahead(stabs, left, right, kind, addr, l, r, best, target)
  }

  /** What holds at the head of the main loop. */
  ghost predicate Searching(stabs: seq<Stab>, left: int, right: int, kind: int, addr: nat,
                            l: int, r: int, best: int, target: nat, found: bool)
    requires 0 <= left && right < |stabs|
  {
    Bounds(stabs, left, right, kind, addr, l, r, best, target, found)
    && Trail(stabs, left, right, kind, addr, l, r, best, target)
    && Pursues(stabs, left, right, kind, addr, l, r, target)
  }

  /** The last exact match is still to come, or it was one for target - 1 and only entries behind the target have been
      cut off since. */
  ghost predicate Pursues(stabs: seq<Stab>, left: int, right: int, kind: int, addr: nat, l: int, r: int, target: nat)
    requires 0 <= left <= l && r <= right < |stabs|
  {
    var all, rest := LastMatch(stabs, left, right, kind, addr), LastMatch(stabs, l, r, kind, target);
    if target == addr || rest.Some? then rest == all
    else
      && all.Some? && all.value.2 == target - 1 && r <= all.value.1 <= right
      && (r < all.value.1 ==> Hit(stabs, left, right, kind, r + 1) && stabs[r + 1].value >= target)
  }

  lemma LastMatchStep(stabs: seq<Stab>, l: int, r: int, kind: int, addr: nat)
    requires 0 <= l && r < |stabs|
    ensures l > r ==> LastMatch(stabs, l, r, kind, addr) == None
    ensures l <= r ==>
      var trueM := (l + r) / 2;
      var m := LastIn(stabs, l, trueM, kind);
      LastMatch(stabs, l, r, kind, addr) ==
        if m < l || stabs[m].value < addr then LastMatch(stabs, trueM + 1, r, kind, addr)
        else if stabs[m].value > addr then LastMatch(stabs, l, m - 1, kind, addr)
        else
          var later := LastMatch(stabs, m, r, kind, addr + 1);
          if later.Some? then later else Some((m, r, addr))
  {
    MatchStep(stabs, l, r, kind, addr);
    hide FirstMatch;
  }

  lemma PursuesStays(stabs: seq<Stab>, left: int, right: int, kind: int, addr: nat,
                     l: int, r: int, target: nat, trueM: int, m: int)
    requires 0 <= left <= l <= trueM <= r <= right < |stabs| && addr <= target
    requires trueM == (l + r) / 2 && m == LastIn(stabs, l, trueM, kind)
    requires Pursues(stabs, left, right, kind, addr, l, r, target)
    ensures if m < l || stabs[m].value < target then Pursues(stabs, left, right, kind, addr, trueM + 1, r, target)
      else if stabs[m].value > target then Pursues(stabs, left, right, kind, addr, l, m - 1, target)
      else Pursues(stabs, left, right, kind, addr, m, r, target + 1)
  {
    hide LastMatch, LastIn, Hit;
    LastMatchStep(stabs, l, r, kind, target);
    assert m >= l ==> Hit(stabs, left, right, kind, m) by { TypedIsHit(stabs, left, right, kind, m); }
  }

  lemma TypedIsHit(stabs: seq<Stab>, left: int, right: int, kind: int, i: int)
    requires right < |stabs|
    ensures 0 <= left <= i <= right && stabs[i].kind == kind ==> Hit(stabs, left, right, kind, i)
  {
  }

  /** What the main loop ends with, when the last exact match lies behind it. */
  lemma FinishPursuit(stabs: seq<Stab>, left: int, right: int, kind: int, addr: nat,
                      l: int, r: int, best: int, target: nat)
    requires 0 <= left <= l && left - 1 <= r <= right < |stabs| && l > r && addr <= target
    requires Ordered(stabs, left, right, kind) && Pursues(stabs, left, right, kind, addr, l, r, target)
    requires Hit(stabs, left, right, kind, best) && best <= r && stabs[best].value < target
    requires NoneIn(stabs, left, right, kind, best + 1, r + 1)
    requires r < right ==> Hit(stabs, left, right, kind, r + 1)
    requires target == addr ==> Brackets(stabs, left, right, kind, addr, best, r)
    ensures EndsAt(stabs, left, right, kind, addr, best, r)
  {
    LastMatchStep(stabs, l, r, kind, target);
    hide LastMatch;
    if target > addr {
      var to := LastMatch(stabs, left, right, kind, addr).value.1;
      forall i | Hit(stabs, left, to, kind, i) && i > best ensures stabs[i].value >= target {
        assert Hit(stabs, left, right, kind, i);
        assert i > r;
      }
      assert Hit(stabs, left, to, kind, best);
      assert r < to ==> Hit(stabs, left, to, kind, r + 1);
      assert forall i :: Hit(stabs, left, to, kind, i) ==> Hit(stabs, left, right, kind, i);
    }
  }

  lemma SearchStarts(stabs: seq<Stab>, left: int, right: int, kind: int, addr: nat)
    requires 0 <= left <= right < |stabs|
    ensures Searching(stabs, left, right, kind, addr, left, right, left, addr, false)
  {
    hide FirstMatch, LastMatch;
  }

  lemma BoundsStay(stabs: seq<Stab>, left: int, right: int, kind: int, addr: nat,
                   l: int, r: int, best: int, target: nat, found: bool, trueM: int, m: int)
    requires 0 <= left <= l <= trueM <= r <= right < |stabs| && m == LastIn(stabs, l, trueM, kind)
    requires Bounds(stabs, left, right, kind, addr, l, r, best, target, found)
    ensures if m < l then Bounds(stabs, left, right, kind, addr, trueM + 1, r, best, target, found)
      else if stabs[m].value < target then Bounds(stabs, left, right, kind, addr, trueM + 1, r, m, target, true)
      else if stabs[m].value > target then Bounds(stabs, left, right, kind, addr, l, m - 1, best, target, found)
      else Bounds(stabs, left, right, kind, addr, m, r, m, target + 1, true)
  {
    if m >= l { assert Hit(stabs, left, right, kind, m); }
  }

  lemma TrailStays(stabs: seq<Stab>, left: int, right: int, kind: int, addr: nat,
                   l: int, r: int, best: int, target: nat, trueM: int, m: int)
    requires 0 <= left <= l <= trueM <= r <= right < |stabs|
    requires trueM == (l + r) / 2 && m == LastIn(stabs, l, trueM, kind)
    requires addr <= target && (addr < target ==> best <= l)
    requires Trail(stabs, left, right, kind, addr, l, r, best, target)
    ensures if m < l then Trail(stabs, left, right, kind, addr, trueM + 1, r, best, target)
      else if stabs[m].value < target then Trail(stabs, left, right, kind, addr, trueM + 1, r, m, target)
      else if stabs[m].value > target then Trail(stabs, left, right, kind, addr, l, m - 1, best, target)
      else Trail(stabs, left, right, kind, addr, m, r, m, target + 1)
  {
    hide FirstMatch, Ahead, Ordered, LastIn;
    if target == addr {
      MatchStep(stabs, l, r, kind, addr);
      if m >= l && stabs[m].value == addr { AheadStarts(stabs, left, right, kind, addr, m, r); }
    } else if Ordered(stabs, left, right, kind) {
      AheadStays(stabs, left, right, kind, addr, l, r, best, target, trueM, m);
    }
  }

  /** One round of the main loop. */
  lemma SearchStays(stabs: seq<Stab>, left: int, right: int, kind: int, addr: nat,
                    l: int, r: int, best: int, target: nat, found: bool, trueM: int, m: int)
    requires 0 <= left <= l <= trueM <= r <= right < |stabs|
    requires trueM == (l + r) / 2 && m == LastIn(stabs, l, trueM, kind)
    requires Searching(stabs, left, right, kind, addr, l, r, best, target, found)
    ensures if m < l then Searching(stabs, left, right, kind, addr, trueM + 1, r, best, target, found)
      else if stabs[m].value < target then Searching(stabs, left, right, kind, addr, trueM + 1, r, m, target, true)
      else if stabs[m].value > target then Searching(stabs, left, right, kind, addr, l, m - 1, best, target, found)
      else Searching(stabs, left, right, kind, addr, m, r, m, target + 1, true)
  {
    assert addr <= target && (addr < target ==> best <= l);
    hide Bounds, Trail, Pursues, LastIn;
    PursuesStays(stabs, left, right, kind, addr, l, r, target, trueM, m);
    BoundsStay(stabs, left, right, kind, addr, l, r, best, target, found, trueM, m);
    TrailStays(stabs, left, right, kind, addr, l, r, best, target, trueM, m);
  }

  lemma SearchEnds(stabs: seq<Stab>, left: int, right: int, kind: int, addr: nat,
                   l: int, r: int, best: int, target: nat, found: bool)
    requires 0 <= left <= right < |stabs| && l > r
    requires Searching(stabs, left, right, kind, addr, l, r, best, target, found)
    ensures left <= best && left - 1 <= r <= right && (!found ==> best == left)
    ensures found ==> best <= r && Hit(stabs, left, right, kind, best)
    ensures r < right ==> Hit(stabs, left, right, kind, r + 1)
    ensures forall i :: best < i <= r ==> stabs[i].kind != kind
    ensures !found ==> forall i :: Hit(stabs, left, right, kind, i) ==> i > r
    ensures Ordered(stabs, left, right, kind) && AnyUpTo(stabs, left, right, kind, addr) ==>
      && found && EndsAt(stabs, left, right, kind, addr, best, r)
      && (Brackets(stabs, left, right, kind, addr, best, r) <==> !Drifting(stabs, left, right, kind, addr))
    ensures (found || r < right) && Searchable(stabs, left, right, kind, addr) ==>
      if found then Brackets(stabs, left, right, kind, addr, best, r)
      else AllAbove(stabs, left, right, kind, addr, if r < left then r else left, r)
    ensures found ==> Drifts(stabs, left, right, kind, addr, best, r)
  {
    hide FirstMatch, Ahead, LastMatch, EndsAt;
    if target == addr { MatchStep(stabs, l, r, kind, addr); }
    if found || r < right { Finish(stabs, left, right, kind, addr, best, r, target, found); }
    if Ordered(stabs, left, right, kind) {
      FinishOrdered(stabs, left, right, kind, addr, l, best, r, target, found);
      hide Pursues, Drifting;
      if AnyUpTo(stabs, left, right, kind, addr) {
        FinishPursuit(stabs, left, right, kind, addr, l, r, best, target);
      }
    }
    forall i | best < i <= r ensures stabs[i].kind != kind {
      assert !Hit(stabs, left, right, kind, i);
    }
  }

  /** What the main loop ends with is the answer, and the scan that follows it stays where it is. */
  lemma Finish(stabs: seq<Stab>, left: int, right: int, kind: int, addr: nat, l: int, r: int, target: nat, found: bool)
    requires 0 <= left && right < |stabs| && left <= right && left - 1 <= r <= right && addr <= target
    requires found || r < right
    requires !found ==> l == left && NoneIn(stabs, left, right, kind, left, r + 1)
    requires found ==> Hit(stabs, left, right, kind, l) && l <= r && stabs[l].value < target
    requires found ==> NoneIn(stabs, left, right, kind, l + 1, r + 1)
    requires r < right ==> Hit(stabs, left, right, kind, r + 1) && stabs[r + 1].value > addr
    requires forall v :: addr <= v < target ==> HasAt(stabs, left, right, kind, v)
    ensures Searchable(stabs, left, right, kind, addr) ==>
      if found then Brackets(stabs, left, right, kind, addr, l, r)
      else AllAbove(stabs, left, right, kind, addr, if r < left then r else left, r)
    ensures found ==> Drifts(stabs, left, right, kind, addr, l, r)
  {
    assert target > addr ==> HasAt(stabs, left, right, kind, addr);
    assert target > addr + 1 ==> HasAt(stabs, left, right, kind, addr + 1);
    if Searchable(stabs, left, right, kind, addr) {
      forall i | Hit(stabs, left, right, kind, i) && i > r ensures stabs[i].value > addr {
        assert r < right ==> Hit(stabs, left, right, kind, r + 1);
      }
    }
  }

  lemma MatchStep(stabs: seq<Stab>, l: int, r: int, kind: int, addr: nat)
    requires 0 <= l && r < |stabs|
    ensures l > r ==> FirstMatch(stabs, l, r, kind, addr) == None
    ensures l <= r ==>
      var trueM := (l + r) / 2;
      var m := LastIn(stabs, l, trueM, kind);
      FirstMatch(stabs, l, r, kind, addr) ==
        if m < l || stabs[m].value < addr then FirstMatch(stabs, trueM + 1, r, kind, addr)
        else if stabs[m].value > addr then FirstMatch(stabs, l, m - 1, kind, addr)
        else Some((m, r))
  {
  }

  /** In an ordered table the search ends at the bracket exactly when it did not drift. */
  lemma FinishOrdered(stabs: seq<Stab>, left: int, right: int, kind: int, addr: nat,
                      l: int, best: int, r: int, target: nat, found: bool)
    requires 0 <= left && right < |stabs| && left - 1 <= r <= right && l > r && Ordered(stabs, left, right, kind)
    requires !found ==> NoneIn(stabs, left, right, kind, left, r + 1)
    requires found ==> Hit(stabs, left, right, kind, best) && best <= r && stabs[best].value < target
    requires found ==> NoneIn(stabs, left, right, kind, best + 1, r + 1)
    requires r < right ==> Hit(stabs, left, right, kind, r + 1) && stabs[r + 1].value > addr
    requires target == addr ==> FirstMatch(stabs, left, right, kind, addr) == None
    requires target > addr ==> found && Ahead(stabs, left, right, kind, addr, l, r, best, target)
    requires target >= addr
    ensures !found ==> forall i :: Hit(stabs, left, right, kind, i) ==> stabs[i].value > addr
    ensures found ==>
      (Brackets(stabs, left, right, kind, addr, best, r) <==> !Drifting(stabs, left, right, kind, addr))
  {
    hide FirstMatch;
    if r < right {
      assert Hit(stabs, left, right, kind, r + 1);
      assert forall i :: Hit(stabs, left, right, kind, i) && i > r ==> stabs[i].value > addr;
    }
  }

  // ----- the smallest tables -----

  /** Two neighbours at addr and addr + 1: the search ends at the second, although the bracket is the first. */
  lemma SmallestDrift(kind: int, addr: nat)
    ensures var t := [Stab(kind, addr), Stab(kind, addr + 1)];
      && Ordered(t, 0, 1, kind) && AnyUpTo(t, 0, 1, kind, addr) && Drifting(t, 0, 1, kind, addr)
      && Brackets(t, 0, 1, kind, addr, 0, 0)
      && forall l, r :: EndsAt(t, 0, 1, kind, addr, l, r) <==> l == 1 && r == 1
  {
    var t := [Stab(kind, addr), Stab(kind, addr + 1)];
    TwoMatches(t, kind, addr);
    hide LastMatch, FirstMatch, LastIn;
    assert Hit(t, 0, 1, kind, 0) && Hit(t, 0, 1, kind, 1);
  }

  lemma TwoMatches(t: seq<Stab>, kind: int, addr: nat)
    requires t == [Stab(kind, addr), Stab(kind, addr + 1)]
    ensures FirstMatch(t, 0, 1, kind, addr) == Some((0, 1))
    ensures LastMatch(t, 0, 1, kind, addr) == Some((1, 1, addr + 1))
  {
    assert LastIn(t, 0, 0, kind) == 0 && LastIn(t, 1, 1, kind) == 1;
    hide *;
    MatchStep(t, 0, 1, kind, addr);
    LastMatchStep(t, 0, 1, kind, addr);
    LastMatchStep(t, 0, 1, kind, addr + 1);
    LastMatchStep(t, 1, 1, kind, addr + 1);
    LastMatchStep(t, 1, 1, kind, addr + 2);
    LastMatchStep(t, 2, 1, kind, addr + 2);
  }

  /** A third neighbour at addr + 2, and the same search ends at the bracket after all. */
  lemma NoDriftOfThree(kind: int, addr: nat)
    ensures var t := [Stab(kind, addr), Stab(kind, addr + 1), Stab(kind, addr + 2)];
      && Ordered(t, 0, 2, kind) && !Searchable(t, 0, 2, kind, addr) && !Drifting(t, 0, 2, kind, addr)
  {
    var t := [Stab(kind, addr), Stab(kind, addr + 1), Stab(kind, addr + 2)];
    assert LastIn(t, 0, 1, kind) == 1 && LastIn(t, 0, 0, kind) == 0;
    MatchStep(t, 0, 2, kind, addr);
    MatchStep(t, 0, 0, kind, addr);
    assert FirstMatch(t, 0, 2, kind, addr) == Some((0, 0));
    assert Hit(t, 0, 2, kind, 0) && Hit(t, 0, 2, kind, 1);
  }

  /** The inner scan: the last entry of the type in [l, m], or l - 1. */
  method LastHit(stabs: seq<Stab>, l: int, m: int, kind: int) returns (k: int)
    requires 0 <= l <= m < |stabs|
    ensures k == LastIn(stabs, l, m, kind)
    ensures l - 1 <= k <= m
    ensures k >= l ==> stabs[k].kind == kind
    ensures forall i :: k < i <= m ==> stabs[i].kind != kind
  {
    k := m;
    while k >= l && stabs[k].kind != kind
      invariant l - 1 <= k <= m && LastIn(stabs, l, k, kind) == LastIn(stabs, l, m, kind)
      invariant forall i :: k < i <= m ==> stabs[i].kind != kind
    {
      k := k - 1;
    }
  }
}
