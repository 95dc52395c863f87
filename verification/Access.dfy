/** What a program can reach through its own page tables: the self map at UVPT, hardware permission checks, and
    user_mem_check. */
module Access {
  import opened Wrappers
  import opened Arith
  import opened Mmu
  import opened Phys
  import opened PhysInv
  import opened PageOps
  import opened FlatMap
  import opened PhysMem

  // ----- the self map -----

  /** The physical address that linear address a translates to. */
  function Translate(s: State, d: nat, a: Word): Option<nat>
    requires d < |s.mem|
  {
    var w := Pte(s, d, PDX(a), PTX(a));
    if Present(w) then Some(FrameOf(w) * PGSIZE + PGOFF(a)) else None
  }

  lemma UvptAddress(a: Word)
    ensures 0 <= UVPT + 4 * PGNUM(a) < 0x1_0000_0000
    ensures PDX(UVPT + 4 * PGNUM(a)) == UVPTX
    ensures PTX(UVPT + 4 * PGNUM(a)) == PDX(a)
    ensures PGOFF(UVPT + 4 * PGNUM(a)) == 4 * PTX(a)
  {
    var n := PGNUM(a);
    assert n == PDX(a) * 1024 + PTX(a);
    assert UVPT + 4 * n == (UVPTX * 1024 + PDX(a)) * 4096 + 4 * PTX(a);
  }

  /** uvpt[PGNUM(a)] is the entry of page a's own table, for every directory and every address with a table. */
  lemma SelfMapPte(s: State, x: multiset<nat>, d: nat, a: Word)
    requires Consistent(s, x) && d < |s.mem| && IsDir(s.role[d])
    ensures 0 <= UVPT + 4 * PGNUM(a) < 0x1_0000_0000
    ensures Translate(s, d, UVPT + 4 * PGNUM(a)) ==
      if HasTable(s, d, PDX(a)) then Some(TableOf(s, d, PDX(a)) * PGSIZE + 4 * PTX(a)) else None
  {
    UvptAddress(a);
    SelfWord(s, x, d);
  }

  /** uvpd[i], at UVPT + 4 * PGNUM(UVPT) + 4 * i, is directory entry i itself. */
  lemma SelfMapPde(s: State, x: multiset<nat>, d: nat, i: nat)
    requires Consistent(s, x) && d < |s.mem| && IsDir(s.role[d]) && i < NENTRIES
    ensures Translate(s, d, UVPT + 4 * PGNUM(UVPT) + 4 * i) == Some(d * PGSIZE + 4 * i)
  {
    hide PDX, PTX, PGOFF, PGNUM, Translate, Consistent, IsDir;
    UvpdAddress(i);
    TranslateSelf(s, x, d, UVPT + 4 * PGNUM(UVPT) + 4 * i);
  }

  lemma TranslateSelf(s: State, x: multiset<nat>, d: nat, a: Word)
    requires Consistent(s, x) && d < |s.mem| && IsDir(s.role[d]) && PDX(a) == UVPTX && PTX(a) == UVPTX
    ensures Translate(s, d, a) == Some(d * PGSIZE + PGOFF(a))
  {
    hide PDX, PTX, PGOFF, Pte, Consistent, IsDir, Present, FrameOf;
    SelfEntry(s, x, d);
    SelfBits(d);
  }

  lemma SelfBits(d: nat)
    requires d < 0x10_0000
    ensures Present(d * 4096 + 5) && FrameOf(d * 4096 + 5) == d
  {
  }

  /** The self map's own entry. */
  lemma SelfEntry(s: State, x: multiset<nat>, d: nat)
    requires Consistent(s, x) && d < |s.mem| && IsDir(s.role[d])
    ensures d < 0x10_0000 && Pte(s, d, UVPTX, UVPTX) == d * 4096 + 5
  {
    SelfWord(s, x, d);
    hide IsDir, Present, FrameOf;
  }

  lemma SelfWord(s: State, x: multiset<nat>, d: nat)
    requires Consistent(s, x) && d < |s.mem| && IsDir(s.role[d])
    ensures s.mem[d][UVPTX] == d * 4096 + 5
    ensures HasTable(s, d, UVPTX) && TableOf(s, d, UVPTX) == d
  {
    assert WordOk(s, d, UVPTX);
  }

  lemma UvpdAddress(i: nat)
    requires i < NENTRIES
    ensures var a := UVPT + 4 * PGNUM(UVPT) + 4 * i;
      0 <= a < 0x1_0000_0000 && PDX(a) == UVPTX && PTX(a) == UVPTX && PGOFF(a) == 4 * i
  {
    assert UVPT + 4 * PGNUM(UVPT) == UVPTX * 0x40_0000 + UVPTX * 4096;
  }

  // ----- hardware permissions -----

  /** A user-mode store is allowed when both levels are present, user and writeable. */
  predicate UserWrites(s: State, d: nat, a: Word)
    requires d < |s.mem|
  {
    var pde, pte := s.mem[d][PDX(a)], Pte(s, d, PDX(a), PTX(a));
    Present(pde) && User(pde) && Writeable(pde) && Present(pte) && User(pte) && Writeable(pte)
  }

  /** User code can only ever write data frames that are mapped below UTOP: never a page table, a directory, the
      kernel's read-only windows or a free frame. */
  lemma UserWritesData(s: State, x: multiset<nat>, d: nat, a: Word)
    requires Consistent(s, x) && d < |s.mem| && s.role[d] == EnvDir && UserWrites(s, d, a)
    ensures PDX(a) < UTOPX
    ensures var f := FrameOf(Pte(s, d, PDX(a), PTX(a)));
      f < |s.mem| && s.role[f] == Plain && s.ref[f] > 0 && f !in s.free && f !in s.held
  {
    var p, q := PDX(a), PTX(a);
    assert WordOk(s, d, p);
    if p != UVPTX {
      TableKind(s, x, d, p, q);
      var t := TableOf(s, d, p);
      assert WordOk(s, t, q);
      if p < UTOPX {
        assert At(t, q) in Sites(s, FrameOf(s.mem[t][q]));
        assert CountOk(s, x, FrameOf(s.mem[t][q]));
      }
    }
  }

  // ----- user_mem_check -----

  /** (w & perm) != 0, on the binary digits. */
  predicate AnyBit(w: nat, perm: nat) {
    w != 0 && perm != 0 && ((w % 2 == 1 && perm % 2 == 1) || AnyBit(w / 2, perm / 2))
  }

  /** (w & perm) == perm. */
  predicate AllBits(w: nat, perm: nat) {
    perm == 0 || ((perm % 2 == 1 ==> w % 2 == 1) && AllBits(w / 2, perm / 2))
  }

  function Power2(k: nat): nat { if k == 0 then 1 else 2 * Power2(k - 1) }

  /** Bit k of w. */
  predicate BitSet(w: nat, k: nat) {
    Power2(k) > 0 && w / Power2(k) % 2 == 1
  }

  /** The two tests, bit by bit. */
  lemma {:induction false} BitsIff(w: nat, perm: nat)
    ensures AnyBit(w, perm) <==> exists k: nat {:trigger BitSet(w, k)} :: BitSet(w, k) && BitSet(perm, k)
    ensures AllBits(w, perm) <==> forall k: nat {:trigger BitSet(w, k)} :: BitSet(perm, k) ==> BitSet(w, k)
    decreases w + perm
  {
    if w == 0 && perm == 0 {
      forall k: nat ensures !BitSet(0, k) {
        ZeroBit(k);
      }
    } else {
      BitsIff(w / 2, perm / 2);
      LowestBit(w);
      LowestBit(perm);
      BitsSplit(w, perm);
      hide BitSet;
    }
  }

  lemma ZeroBit(k: nat)
    ensures !BitSet(0, k)
  {
  }

  lemma LowestBit(w: nat)
    ensures BitSet(w, 0) <==> w % 2 == 1
  {
    assert Power2(0) == 1;
  }

  lemma HigherBit(w: nat, k: nat)
    ensures BitSet(w, k + 1) <==> BitSet(w / 2, k)
  {
    var m := Power2(k);
    assert Power2(k + 1) == 2 * m;
    if m > 0 { HalfFirst(w, m); }
  }

  lemma HalfFirst(w: nat, m: nat)
    requires m > 0
    ensures w / (2 * m) == w / 2 / m
  {
    DivDiv(w, 2, m);
  }

  /** Some bit, or every bit: the lowest one, and those of the halves. */
  lemma BitsSplit(w: nat, perm: nat)
    ensures (exists k: nat {:trigger BitSet(w, k)} :: BitSet(w, k) && BitSet(perm, k)) <==>
      (BitSet(w, 0) && BitSet(perm, 0))
      || (exists k: nat {:trigger BitSet(w / 2, k)} :: BitSet(w / 2, k) && BitSet(perm / 2, k))
    ensures (forall k: nat {:trigger BitSet(w, k)} :: BitSet(perm, k) ==> BitSet(w, k)) <==>
      (BitSet(perm, 0) ==> BitSet(w, 0))
      && (forall k: nat {:trigger BitSet(w / 2, k)} :: BitSet(perm / 2, k) ==> BitSet(w / 2, k))
  {
    hide BitSet;
    forall k: nat ensures (BitSet(w, k + 1) <==> BitSet(w / 2, k)) && (BitSet(perm, k + 1) <==> BitSet(perm / 2, k)) {
      HigherBit(w, k);
      HigherBit(perm, k);
    }
    forall k: nat | k > 0
      ensures (BitSet(w, k) <==> BitSet(w / 2, k - 1)) && (BitSet(perm, k) <==> BitSet(perm / 2, k - 1))
    {
      assert BitSet(w, (k - 1) + 1) <==> BitSet(w / 2, k - 1);
    }
  }

  predicate OneBit(perm: nat) {
    perm != 0 && if perm % 2 == 1 then perm / 2 == 0 else OneBit(perm / 2)
  }

  /** user_mem_check asks for some bit of perm; its documentation asks for all of them. For one bit the two agree. */
  lemma {:induction false} OneBitAgrees(w: nat, perm: nat)
    requires OneBit(perm)
    ensures AnyBit(w, perm) <==> AllBits(w, perm)
  {
    if perm % 2 == 0 {
      OneBitAgrees(w / 2, perm / 2);
      if w == 0 { NoBits(perm / 2); }
    }
  }

  lemma {:induction false} NoBits(perm: nat)
    requires perm != 0
    ensures !AllBits(0, perm)
  {
    if perm % 2 == 0 { NoBits(perm / 2); }
  }

  /** A single bit on which the two tests differ when perm is not a single bit. */
  function LowBit(perm: nat): (b: nat)
    ensures perm > 0 ==> b > 0
    ensures b <= perm
  {
    if perm == 0 then 0 else if perm % 2 == 1 then 1 else 2 * LowBit(perm / 2)
  }

  lemma {:induction false} LowBitDiffers(perm: nat)
    requires !OneBit(perm)
    ensures AnyBit(LowBit(perm), perm) != AllBits(LowBit(perm), perm)
  {
    if perm % 2 == 1 {
      NoBits(perm / 2);
      assert LowBit(perm) == 1;
    } else if perm > 0 {
      LowBitDiffers(perm / 2);
      assert LowBit(perm) / 2 == LowBit(perm / 2);
    }
  }

  /** And for one bit only: for any other perm there is a present entry that user_mem_check judges unlike its
      documentation. */
  lemma OneBitIff(perm: Word)
    ensures (forall w: Word :: Present(w) ==> (AnyBit(w, perm) <==> AllBits(w, perm))) <==> OneBit(perm)
  {
    if OneBit(perm) {
      forall w: Word ensures AnyBit(w, perm) <==> AllBits(w, perm) {
        OneBitAgrees(w, perm);
      }
    } else {
      PresentDiffers(perm);
    }
  }

  /** A present entry on which the two tests differ. */
  function Judged(perm: Word): (w: Word)
    ensures Present(w)
  {
    if perm == 0 || perm % 2 == 1 then 1 else 2 * LowBit(perm / 2) + 1
  }

  lemma PresentDiffers(perm: Word)
    requires !OneBit(perm)
    ensures AnyBit(Judged(perm), perm) != AllBits(Judged(perm), perm)
  {
    var w := Judged(perm);
    if perm % 2 == 1 {
      NoBits(perm / 2);
      assert w == 1 && w / 2 == 0;
    } else if perm > 0 {
      LowBitDiffers(perm / 2);
      assert w / 2 == LowBit(perm / 2);
    }
  }

  /** What one step of the scan tests, for the page that address a lies in. */
  predicate PageGrants(s: State, d: nat, v: nat, perm: nat)
    requires d < |s.mem| && v < 0x10_0000
  {
    var w := Pte(s, d, v / 1024, v % 1024);
    Present(w) && FrameOf(w) < |s.mem| && AnyBit(w, perm)
  }

  /** va + len in 32 bits. */
  function RangeEnd(va: Word, len: Word): Word { (va + len) % 0x1_0000_0000 }

  predicate AddressGrants(s: State, d: nat, a: nat, perm: nat)
    requires d < |s.mem| && a < 0x1_0000_0000
  {
    PageGrants(s, d, a / PGSIZE, perm)
  }

  /** page_lookup panics at this address. */
  predicate AddressPanics(s: State, d: nat, a: nat)
    requires d < |s.mem| && a < 0x1_0000_0000
  {
    LookupPanics(s, d, a / PGSIZE / 1024, a / PGSIZE % 1024)
  }

  predicate ScanOk(s: State, d: nat, va: nat, end: nat, perm: nat)
    requires d < |s.mem| && end <= 0x1_0000_0000
  {
    forall a: nat {:trigger AddressGrants(s, d, a, perm)} :: va <= a < end ==> AddressGrants(s, d, a, perm)
  }

  /** A user-mode load is allowed when both levels are present and user. */
  predicate UserReads(s: State, d: nat, a: Word)
    requires d < |s.mem|
  {
    var pde, pte := s.mem[d][PDX(a)], Pte(s, d, PDX(a), PTX(a));
    Present(pde) && User(pde) && Present(pte) && User(pte)
  }

  lemma UserBit(w: Word)
    ensures AnyBit(w, PTE_U) <==> User(w)
  {
    assert AnyBit(w, 4) <==> AnyBit(w / 2, 2);
    assert AnyBit(w / 2, 2) <==> AnyBit(w / 2 / 2, 1);
    assert AnyBit(w / 2 / 2, 1) <==> w / 2 / 2 % 2 == 1;
    ThirdBit(w);
  }

  /** PTE_U as a bit of the word and of its low twelve bits. */
  lemma ThirdBit(w: Word)
    ensures w / 2 / 2 % 2 == FlagsOf(w) / 4 % 2
  {
    TwoHalves(w);
    SplitQuarter(w / 4096, w % 4096);
    AddEven(512 * (w / 4096), w % 4096 / 4);
  }

  lemma TwoHalves(w: nat)
    ensures w / 2 / 2 == w / 4
  {
  }

  lemma SplitQuarter(f: nat, r: nat)
    ensures (4096 * f + r) / 4 == 2 * (512 * f) + r / 4
  {
  }

  lemma AddEven(k: nat, b: nat)
    ensures (2 * k + b) % 2 == b % 2
  {
  }

  /** user_mem_assert adds PTE_U to what it asks for, and then every user page passes, whatever else was asked. */
  lemma UserBitSuffices(w: Word, perm: nat)
    requires perm / 4 % 2 == 1 && User(w)
    ensures AnyBit(w, perm)
  {
    ThirdBit(w);
    assert AnyBit(w / 4, perm / 4);
    assert w / 4 == w / 2 / 2 && perm / 4 == perm / 2 / 2;
    assert AnyBit(w / 2, perm / 2);
  }

  /** Directory entries never restrict user code: what is present there is also user. */
  lemma DirEntryUser(s: State, x: multiset<nat>, d: nat, p: nat)
    requires Consistent(s, x) && d < |s.mem| && IsDir(s.role[d]) && p < NENTRIES && HasTable(s, d, p)
    ensures User(s.mem[d][p])
  {
    if p == UVPTX {
      SelfWord(s, x, d);
      EntryUser(d);
    } else {
      EntryWord(s, x, d, p);
      EntryUser(TableOf(s, d, p));
    }
    hide Consistent, User;
  }

  /** A present directory entry, but for the self map, allows everything, and leaves it to the table to forbid. */
  lemma EntryWord(s: State, x: multiset<nat>, d: nat, p: nat)
    requires Consistent(s, x) && d < |s.mem| && IsDir(s.role[d]) && p < NENTRIES && p != UVPTX && HasTable(s, d, p)
    ensures TableOf(s, d, p) < |s.mem| && s.mem[d][p] == TableOf(s, d, p) * 4096 + 7
  {
    KernIsDir(s, x);
    TableKind(s, x, d, p, 0);
    assert RoleOk(s, d) && WordOk(s, d, p);
    assert RoleOk(s, TableOf(s, d, p));
  }

  lemma EntryUser(f: nat)
    requires f < 0x10_0000
    ensures User(f * 4096 + 7) && User(f * 4096 + 5)
  {
    LowFlags(f, 7);
    LowFlags(f, 5);
  }

  lemma LowFlags(f: nat, m: nat)
    requires f < 0x10_0000 && m < 4096
    ensures FlagsOf(f * 4096 + m) == m
  {
  }

  /** With perm PTE_U, the software test of user_mem_check and the processor's test of a user-mode load agree, at
      every address of every directory, unless page_lookup panics there. */
  lemma GrantsIsUserReads(s: State, x: multiset<nat>, d: nat, a: Word)
    requires Consistent(s, x) && d < |s.mem| && IsDir(s.role[d])
    ensures AddressGrants(s, d, a, PTE_U) <==> UserReads(s, d, a) && !AddressPanics(s, d, a)
  {
    SamePage(a);
    UserBit(Pte(s, d, PDX(a), PTX(a)));
    WalkRuns(s, x, d, PDX(a));
    if HasTable(s, d, PDX(a)) { DirEntryUser(s, x, d, PDX(a)); }
    hide Consistent, AnyBit, PDX, PTX;
  }

  datatype Verdict = Granted | Refused | Panicked

  /** One round of the scan of user_mem_check. */
  method CheckByte(pm: Pages, d: nat, a: Word, perm: nat) returns (v: Verdict)
    requires pm.Valid() && d < |pm.Abs().mem|
    ensures v == Granted <==> AddressGrants(pm.Abs(), d, a, perm)
    ensures v == Panicked <==> AddressPanics(pm.Abs(), d, a)
  {
    SamePage(a);
    hide AnyBit, PDX, PTX;
    var ok, pp, pte := pm.PageLookup(d, a);
    if !ok { return Panicked; }
    if pp == -1 || !AnyBit(pm.mem[pte.value.table][pte.value.index], perm) { return Refused; }
    return Granted;
  }

  /** user_mem_check: -6 is -E_FAULT, None a panic of page_lookup, and `bad` is user_mem_check_addr, or where it
      panicked. */
  method UserMemCheck(pm: Pages, d: nat, va: Word, len: Word, perm: nat) returns (r: Option<int>, bad: Word)
    requires pm.Valid() && d < |pm.Abs().mem|
    ensures r.Some? ==> r.value == 0 || r.value == -6
    ensures r == Some(0) <==> RangeEnd(va, len) <= ULIM && ScanOk(pm.Abs(), d, va, RangeEnd(va, len), perm)
    ensures RangeEnd(va, len) > ULIM ==> r == Some(-6) && bad == va
    ensures r != Some(0) && RangeEnd(va, len) <= ULIM ==>
      && va <= bad < RangeEnd(va, len) && !AddressGrants(pm.Abs(), d, bad, perm)
      && ScanOk(pm.Abs(), d, va, bad, perm)
      && (r == None <==> AddressPanics(pm.Abs(), d, bad))
  {
    hide *;
    var end := RangeEnd(va, len);
    ScanNothing(pm.Abs(), d, va, perm);
    bad := va;
    if end > ULIM { return Some(-6), va; }
    var scanner := va;
    while scanner < end
      invariant va <= scanner && (scanner <= end || scanner == va)
      invariant ScanOk(pm.Abs(), d, va, scanner, perm)
    {
      var v := CheckByte(pm, d, scanner, perm);
      if v != Granted {
        ScanFails(pm.Abs(), d, va, scanner, end, perm);
        return if v == Panicked then None else Some(-6), scanner;
      }
      ScanNext(pm.Abs(), d, va, scanner, perm);
      scanner := scanner + 1;
    }
    if end < va { ScanEmpty(pm.Abs(), d, va, end, perm); }
    return Some(0), va;
  }

  lemma ScanNothing(s: State, d: nat, va: Word, perm: nat)
    requires d < |s.mem|
    ensures ScanOk(s, d, va, va, perm)
  {
  }

  lemma ScanNext(s: State, d: nat, va: nat, a: nat, perm: nat)
    requires d < |s.mem| && va <= a < 0x1_0000_0000 && ScanOk(s, d, va, a, perm) && AddressGrants(s, d, a, perm)
    ensures ScanOk(s, d, va, a + 1, perm)
  {
  }

  /** One address that is not granted spoils every scan over it. */
  lemma ScanFails(s: State, d: nat, va: nat, a: nat, end: nat, perm: nat)
    requires d < |s.mem| && va <= a < end <= 0x1_0000_0000 && !AddressGrants(s, d, a, perm)
    ensures !ScanOk(s, d, va, end, perm)
  {
  }

  /** When the range is empty there is nothing to grant. */
  lemma ScanEmpty(s: State, d: nat, va: nat, end: nat, perm: nat)
    requires d < |s.mem| && end <= va && end <= 0x1_0000_0000
    ensures ScanOk(s, d, va, end, perm)
  {
  }

  lemma SamePage(a: Word)
    ensures PDX(a) == a / PGSIZE / 1024 && PTX(a) == a / PGSIZE % 1024
  {
  }

  /** The byte-by-byte scan agrees with a check of every page that meets the range. */
  lemma ScanIsPerPage(s: State, d: nat, va: nat, end: nat, perm: nat)
    requires d < |s.mem| && end <= 0x1_0000_0000
    ensures ScanOk(s, d, va, end, perm) <==>
      forall v: nat {:trigger PageGrants(s, d, v, perm)} ::
        v < 0x10_0000 && v * PGSIZE < end && va < (v + 1) * PGSIZE && va < end ==> PageGrants(s, d, v, perm)
  {
    if ScanOk(s, d, va, end, perm) {
      forall v: nat {:trigger PageGrants(s, d, v, perm)} |
          v < 0x10_0000 && v * PGSIZE < end && va < (v + 1) * PGSIZE && va < end
        ensures PageGrants(s, d, v, perm)
      {
        var a := if va <= v * PGSIZE then v * PGSIZE else va;
        assert a / PGSIZE == v;
        assert AddressGrants(s, d, a, perm);
      }
    } else {
      var a: nat :| va <= a < end && !AddressGrants(s, d, a, perm);
      assert !PageGrants(s, d, a / PGSIZE, perm);
    }
  }

  /** When the scan fails, the address reported is the start of the range or of a page. */
  lemma BadIsBoundary(s: State, d: nat, va: nat, end: nat, perm: nat, bad: nat)
    requires d < |s.mem| && va <= bad < end <= 0x1_0000_0000
    requires !AddressGrants(s, d, bad, perm) && ScanOk(s, d, va, bad, perm)
    ensures bad == va || bad % PGSIZE == 0
  {
    if bad != va && bad % PGSIZE != 0 {
      ScanAt(s, d, va, bad, perm, bad - 1);
      PreviousByte(bad);
      assert false;
    }
  }

  lemma ScanAt(s: State, d: nat, va: nat, end: nat, perm: nat, a: nat)
    requires d < |s.mem| && end <= 0x1_0000_0000 && ScanOk(s, d, va, end, perm) && va <= a < end
    ensures PageGrants(s, d, a / PGSIZE, perm)
  {
    assert AddressGrants(s, d, a, perm);
  }

  lemma PreviousByte(a: nat)
    requires a % PGSIZE != 0
    ensures (a - 1) / PGSIZE == a / PGSIZE
  {
  }

  predicate AddressAllowed(s: State, d: nat, a: nat, perm: nat)
    requires d < |s.mem| && a < 0x1_0000_0000
  {
    var w := Pte(s, d, a / PGSIZE / 1024, a / PGSIZE % 1024);
    Present(w) && FrameOf(w) < |s.mem| && AllBits(w, perm)
  }

  /** What the documentation promises: the whole range below ULIM, every page that meets it mapped, to a frame there
      is, with all of perm. */
  predicate MayAccess(s: State, d: nat, va: Word, len: Word, perm: nat)
    requires d < |s.mem|
  {
    && va + len <= ULIM
    && forall a: nat {:trigger AddressAllowed(s, d, a, perm)} :: va <= a < va + len ==> AddressAllowed(s, d, a, perm)
  }

  /** For a single permission bit user_mem_check is right exactly when va + len does not wrap to an address at or
      below ULIM; when it does wrap so, the check succeeds although the range is not accessible. */
  lemma UserMemCheckIff(s: State, d: nat, va: Word, len: Word, perm: nat)
    requires d < |s.mem| && OneBit(perm)
    ensures var accepts := RangeEnd(va, len) <= ULIM && ScanOk(s, d, va, RangeEnd(va, len), perm);
      (accepts <==> MayAccess(s, d, va, len, perm)) <==> !(0x1_0000_0000 <= va + len <= ULIM + 0x1_0000_0000)
  {
    if va + len < 0x1_0000_0000 {
      assert RangeEnd(va, len) == va + len;
      if va + len <= ULIM {
        forall a: nat | va <= a < va + len ensures AddressGrants(s, d, a, perm) <==> AddressAllowed(s, d, a, perm) {
          OneBitAgrees(Pte(s, d, a / PGSIZE / 1024, a / PGSIZE % 1024), perm);
        }
      }
    } else {
      assert RangeEnd(va, len) == va + len - 0x1_0000_0000;
    }
  }
}
