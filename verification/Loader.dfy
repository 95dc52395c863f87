/** load_icode: reading an ELF image and copying its segments through the environment's own page tables. */
module Loader {
  import opened Wrappers
  import opened Arith
  import opened Mmu
  import opened Phys
  import opened PhysInv
  import opened FlatMap
  import opened AddrSpace
  import opened Regions

  type Byte = b: int | 0 <= b < 256

  // ----- bytes in little-endian words -----

  function GetByte(w: Word, k: nat): Byte
    requires k < 4
  {
    if k == 0 then w % 256 else if k == 1 then w / 256 % 256
    else if k == 2 then w / 256 / 256 % 256 else w / 256 / 256 / 256 % 256
  }

  function FromBytes(b0: Byte, b1: Byte, b2: Byte, b3: Byte): Word {
    b0 + 256 * (b1 + 256 * (b2 + 256 * b3))
  }

  /** A store of one byte into a little-endian word. */
  function SetByte(w: Word, k: nat, b: Byte): Word
    requires k < 4
  {
    FromBytes(if k == 0 then b else GetByte(w, 0), if k == 1 then b else GetByte(w, 1),
              if k == 2 then b else GetByte(w, 2), if k == 3 then b else GetByte(w, 3))
  }

  lemma SplitLow(q: nat, b: Byte)
    ensures (b + 256 * q) % 256 == b && (b + 256 * q) / 256 == q
  {
  }

  /** Storing a byte in a word changes that byte and no other. */
  lemma GetSetByte(w: Word, k: nat, b: Byte, j: nat)
    requires k < 4 && j < 4
    ensures GetByte(SetByte(w, k, b), j) == if j == k then b else GetByte(w, j)
  {
    GetFromBytes(if k == 0 then b else GetByte(w, 0), if k == 1 then b else GetByte(w, 1),
                 if k == 2 then b else GetByte(w, 2), if k == 3 then b else GetByte(w, 3));
  }

  lemma GetFromBytes(b0: Byte, b1: Byte, b2: Byte, b3: Byte)
    ensures var w := FromBytes(b0, b1, b2, b3);
      GetByte(w, 0) == b0 && GetByte(w, 1) == b1 && GetByte(w, 2) == b2 && GetByte(w, 3) == b3
  {
    SplitLow(b1 + 256 * (b2 + 256 * b3), b0);
    SplitLow(b2 + 256 * b3, b1);
    SplitLow(b3, b2);
  }

  // ----- reading and writing through the page tables -----

  /** The frame that a kernel store to page v reaches: the page must be mapped writable (CR0_WP is set). */
  function StoreFrame(s: State, d: nat, v: nat): Option<nat>
    requires d < |s.mem| && v < 0x10_0000
  {
    match Page(s, d, v)
    case Some(m) => if m.frame < |s.mem| && m.flags / 2 % 2 == 1 then Some(m.frame) else None
    case None => None
  }

  /** A one-byte load at address a; None is a page fault. */
  function LoadByte(s: State, d: nat, a: Word): Option<Byte>
    requires d < |s.mem|
  {
    match Page(s, d, a / PGSIZE)
    case Some(m) => if m.frame < |s.mem| then Some(GetByte(s.mem[m.frame][a % PGSIZE / 4], a % 4)) else None
    case None => None
  }

  /** A one-byte store at address a; None is a page fault. */
  function StoreByte(s: State, d: nat, a: Word, b: Byte): Option<State>
    requires d < |s.mem|
  {
    match StoreFrame(s, d, a / PGSIZE)
    case Some(f) => Some(SetWord(s, f, a % PGSIZE / 4, SetByte(s.mem[f][a % PGSIZE / 4], a % 4, b)))
    case None => None
  }

  function StoreOne(s: State, d: nat, a: nat, b: Byte): Option<State> {
    if d < |s.mem| && a < 0x1_0000_0000 then StoreByte(s, d, a, b) else None
  }

  /** memcpy or memset of the bytes bs to address a on. */
  function StoreAll(s: State, d: nat, a: nat, bs: seq<Byte>): Option<State>
    decreases |bs|
  {
    if bs == [] then Some(s)
    else match StoreOne(s, d, a, bs[0])
      case None => None
      case Some(s') => StoreAll(s', d, a + 1, bs[1..])
  }

  /** A store to an exclusive page: only data changes, and only that byte. */
  lemma StoreByteOk(s: State, x: multiset<nat>, d: nat, a: Word, b: Byte)
    requires UserSpace(s, x, d) && Exclusive(s, d, a / PGSIZE)
    ensures StoreByte(s, d, a, b).Some?
    ensures var s' := StoreByte(s, d, a, b).value;
      && SameOwner(s, s', x, d)
      && (forall u: nat {:trigger Page(s', d, u)} :: u < UTOPX * 1024 ==> Page(s', d, u) == Page(s, d, u))
      && s'.role == s.role && s'.ref == s.ref && s'.free == s.free
  {
    var f := Page(s, d, a / PGSIZE).value.frame;
    var s' := StoreByte(s, d, a, b).value;
    WritePlainKeeps(s, x, f, s'.mem[f], s');
    forall u: nat {:trigger Page(s', d, u)} | u < UTOPX * 1024 ensures Page(s', d, u) == Page(s, d, u) {
      if HasTable(s, d, u / 1024) { TableKind(s, x, d, u / 1024, u % 1024); }
    }
    forall g: nat {:trigger Foreign(s', d, g)} ensures Foreign(s', d, g) == Foreign(s, d, g) {
      SitesAgree(s, s', g);
    }
  }

  lemma StoreByteLoads(s: State, x: multiset<nat>, d: nat, a: Word, b: Byte, c: Word)
    requires UserSpace(s, x, d) && Exclusive(s, d, a / PGSIZE) && c < UTOP
    ensures StoreByte(s, d, a, b).Some?
    ensures d < |StoreByte(s, d, a, b).value.mem|
    ensures LoadByte(StoreByte(s, d, a, b).value, d, c) == if c == a then Some(b) else LoadByte(s, d, c)
  {
    StoreByteOk(s, x, d, a, b);
    var s' := StoreByte(s, d, a, b).value;
    var v, u := a / PGSIZE, c / PGSIZE;
    assert Page(s', d, u) == Page(s, d, u);
    assert IsPageNo(s, d, u);
    if u != v {
      if Page(s, d, u).Some? { ExclusiveAlone(s, x, d, v, d, u); }
    } else {
      var f, i := Page(s, d, v).value.frame, a % PGSIZE / 4;
      GetSetByte(s.mem[f][i], a % 4, b, c % 4);
      SameByte(a, c);
    }
  }

  lemma SameByte(a: Word, c: Word)
    requires a / PGSIZE == c / PGSIZE
    ensures a == c <==> a % PGSIZE / 4 == c % PGSIZE / 4 && a % 4 == c % 4
  {
    LowBits(a);
    LowBits(c);
    var i, j := a % PGSIZE, c % PGSIZE;
    assert i == i / 4 * 4 + i % 4 && j == j / 4 * 4 + j % 4;
    assert a == PGSIZE * (a / PGSIZE) + i && c == PGSIZE * (c / PGSIZE) + j;
  }

  lemma LowBits(a: Word)
    ensures a % PGSIZE % 4 == a % 4
  {
    var q, i := a / PGSIZE, a % PGSIZE;
    assert a == 4 * (1024 * q + i / 4) + i % 4;
    MulMod(1024 * q + i / 4, i % 4, 4);
  }

  /** All pages that the n bytes from a on lie in are exclusive. */
  ghost predicate CoveredBy(s: State, d: nat, a: nat, n: nat) {
    0 < n ==>
      forall u: nat {:trigger Exclusive(s, d, u)} :: a / PGSIZE <= u && u * PGSIZE < a + n ==> Exclusive(s, d, u)
  }

  /** Only the contents of data pages differ. */
  ghost predicate SameTables(s: State, s': State, x: multiset<nat>, d: nat) {
    && SameOwner(s, s', x, d)
    && s'.role == s.role && s'.ref == s.ref && s'.free == s.free
    && (forall u: nat {:trigger Page(s', d, u)} :: u < UTOPX * 1024 ==> Page(s', d, u) == Page(s, d, u))
  }

  lemma SameTablesExclusive(s: State, s': State, x: multiset<nat>, d: nat, u: nat)
    requires SameTables(s, s', x, d)
    ensures Exclusive(s', d, u) == Exclusive(s, d, u)
  {
    if u < UTOPX * 1024 { assert Page(s', d, u) == Page(s, d, u); }
  }

  lemma CoveredNext(s: State, s1: State, x: multiset<nat>, d: nat, a: nat, n: nat)
    requires SameTables(s, s1, x, d) && CoveredBy(s, d, a, n) && n > 0
    ensures CoveredBy(s1, d, a + 1, n - 1)
  {
    forall u: nat {:trigger Exclusive(s1, d, u)} | (a + 1) / PGSIZE <= u && u * PGSIZE < a + n
      ensures Exclusive(s1, d, u)
    {
      SameTablesExclusive(s, s1, x, d, u);
      assert Exclusive(s, d, u);
    }
  }

  /** s' reads as s does, but for the bytes bs from a on. */
  ghost predicate LoadsAs(s: State, s': State, d: nat, a: nat, bs: seq<Byte>) {
    && d < |s.mem| && d < |s'.mem|
    && forall c: nat {:trigger LoadByte(s', d, c)} :: c < UTOP ==>
      LoadByte(s', d, c) == if a <= c < a + |bs| then Some(bs[c - a]) else LoadByte(s, d, c)
  }

  /** memcpy into exclusive pages: afterwards those bytes read back, and every other byte is as it was. */
  lemma StoreAllOk(s: State, x: multiset<nat>, d: nat, a: nat, bs: seq<Byte>)
    requires UserSpace(s, x, d) && a + |bs| <= UTOP && CoveredBy(s, d, a, |bs|)
    ensures StoreAll(s, d, a, bs).Some?
    ensures var s' := StoreAll(s, d, a, bs).value;
      && SameTables(s, s', x, d)
      && (forall c: nat {:trigger LoadByte(s', d, c)} :: c < UTOP ==>
          LoadByte(s', d, c) == if a <= c < a + |bs| then Some(bs[c - a]) else LoadByte(s, d, c))
  {
    hide SameTables, LoadByte, StoreAll, CoveredBy;
    StoreAllLoads(s, x, d, a, bs);
  }

  lemma {:induction false} StoreAllLoads(s: State, x: multiset<nat>, d: nat, a: nat, bs: seq<Byte>)
    requires UserSpace(s, x, d) && a + |bs| <= UTOP && CoveredBy(s, d, a, |bs|)
    ensures StoreAll(s, d, a, bs).Some?
    ensures SameTables(s, StoreAll(s, d, a, bs).value, x, d) && LoadsAs(s, StoreAll(s, d, a, bs).value, d, a, bs)
    decreases |bs|
  {
    hide *;
    if bs == [] {
      StoreStops(s, x, d, a);
    } else {
      StoreFirst(s, x, d, a, bs);
      var s1 := StoreOne(s, d, a, bs[0]).value;
      StoreAllLoads(s1, x, d, a + 1, bs[1..]);
      var s' := StoreAll(s, d, a, bs).value;
      SameTablesTrans(s, s1, s', x, d);
      LoadsTrans(s, s1, s', d, a, bs);
    }
  }

  lemma StoreStops(s: State, x: multiset<nat>, d: nat, a: nat)
    requires UserSpace(s, x, d)
    ensures StoreAll(s, d, a, []) == Some(s) && SameTables(s, s, x, d) && LoadsAs(s, s, d, a, [])
  {
  }

  /** The first byte of a copy, and what it leaves to do. */
  lemma StoreFirst(s: State, x: multiset<nat>, d: nat, a: nat, bs: seq<Byte>)
    requires bs != [] && UserSpace(s, x, d) && a + |bs| <= UTOP && CoveredBy(s, d, a, |bs|)
    ensures StoreOne(s, d, a, bs[0]).Some?
    ensures var s1 := StoreOne(s, d, a, bs[0]).value;
      && UserSpace(s1, x, d) && SameTables(s, s1, x, d) && CoveredBy(s1, d, a + 1, |bs[1..]|)
      && LoadsAs(s, s1, d, a, [bs[0]])
      && StoreAll(s, d, a, bs) == StoreAll(s1, d, a + 1, bs[1..])
  {
    assert Exclusive(s, d, a / PGSIZE);
    StoreByteOk(s, x, d, a, bs[0]);
    var s1 := StoreByte(s, d, a, bs[0]).value;
    CoveredNext(s, s1, x, d, a, |bs|);
    hide Exclusive, CoveredBy, SameOwner, UserSpace, StoreByte, LoadByte;
    forall c: nat {:trigger LoadByte(s1, d, c)} | c < UTOP
      ensures LoadByte(s1, d, c) == if a <= c < a + 1 then Some([bs[0]][c - a]) else LoadByte(s, d, c)
    {
      StoreByteLoads(s, x, d, a, bs[0], c);
    }
  }

  lemma LoadsTrans(s: State, s1: State, s2: State, d: nat, a: nat, bs: seq<Byte>)
    requires bs != [] && LoadsAs(s, s1, d, a, [bs[0]]) && LoadsAs(s1, s2, d, a + 1, bs[1..])
    ensures LoadsAs(s, s2, d, a, bs)
  {
    hide LoadByte;
    forall c: nat {:trigger LoadByte(s2, d, c)} | c < UTOP
      ensures LoadByte(s2, d, c) == if a <= c < a + |bs| then Some(bs[c - a]) else LoadByte(s, d, c)
    {
      assert LoadByte(s1, d, c) == if c == a then Some(bs[0]) else LoadByte(s, d, c);
    }
  }

  lemma SameTablesTrans(s: State, s1: State, s2: State, x: multiset<nat>, d: nat)
    requires SameTables(s, s1, x, d) && SameTables(s1, s2, x, d)
    ensures SameTables(s, s2, x, d)
  {
    forall u: nat {:trigger Page(s2, d, u)} | u < UTOPX * 1024 ensures Page(s2, d, u) == Page(s, d, u) {
      assert Page(s1, d, u) == Page(s, d, u);
    }
    forall g: nat {:trigger Foreign(s2, d, g)} ensures Foreign(s2, d, g) == Foreign(s, d, g) {
      assert Foreign(s1, d, g) == Foreign(s, d, g);
    }
  }

  // ----- the ELF image -----

  const ELF_MAGIC: int := 0x464C_457F
  const ELF_PROG_LOAD: int := 1

  function Le16(b: seq<Byte>, o: nat): nat
    requires o + 2 <= |b|
  {
    (b[o] as int) + 256 * (b[o + 1] as int)
  }

  function Le32(b: seq<Byte>, o: nat): Word
    requires o + 4 <= |b|
  {
    FromBytes(b[o], b[o + 1], b[o + 2], b[o + 3])
  }

  /** w is the little-endian 32-bit number at offset o. */
  predicate Number32At(b: seq<Byte>, o: nat, w: int) {
    o + 4 <= |b|
    && w == (b[o] as int) + 0x100 * (b[o + 1] as int) + 0x1_0000 * (b[o + 2] as int) + 0x100_0000 * (b[o + 3] as int)
  }

  lemma Le32Is(b: seq<Byte>, o: nat)
    requires o + 4 <= |b|
    ensures Number32At(b, o, Le32(b, o))
    ensures forall k: nat :: k < 4 ==> GetByte(Le32(b, o), k) == b[o + k]
  {
    GetFromBytes(b[o], b[o + 1], b[o + 2], b[o + 3]);
  }

  /** A word of memory is its four bytes, the lowest address first. */
  lemma WordIsBytes(w: Word)
    ensures w == GetByte(w, 0) as int + 0x100 * (GetByte(w, 1) as int) + 0x1_0000 * (GetByte(w, 2) as int)
      + 0x100_0000 * (GetByte(w, 3) as int)
  {
    var q := w / 256;
    assert w == 256 * q + w % 256 && q == 256 * (q / 256) + q % 256;
    assert q / 256 == 256 * (q / 256 / 256) + q / 256 % 256 && q / 256 / 256 < 256;
  }

  /** load_icode wants the bytes 7F 45 4C 46, DEL and "ELF", at the beginning. */
  lemma MagicIs(b: seq<Byte>)
    requires |b| >= 4
    ensures Le32(b, 0) == ELF_MAGIC <==>
      b[0] == 0x7F && b[1] == 'E' as int && b[2] == 'L' as int && b[3] == 'F' as int
  {
    Le32Is(b, 0);
    if Le32(b, 0) == ELF_MAGIC {
      assert GetByte(ELF_MAGIC, 0) == 0x7F && GetByte(ELF_MAGIC, 1) == 0x45;
      assert GetByte(ELF_MAGIC, 2) == 0x4C && GetByte(ELF_MAGIC, 3) == 0x46;
    }
  }

  /** struct Proghdr, the fields that load_icode reads. */
  datatype Proghdr = Proghdr(kind: Word, offset: Word, va: Word, filesz: Word, memsz: Word)

  /** The program headers lie inside the image. */
  predicate HeadersOk(b: seq<Byte>) {
    52 <= |b| && Le32(b, 28) + 32 * Le16(b, 44) <= |b|
  }

  function HeaderCount(b: seq<Byte>): nat
    requires HeadersOk(b)
  {
    Le16(b, 44)
  }

  function Header(b: seq<Byte>, k: nat): Proghdr
    requires HeadersOk(b) && k < HeaderCount(b)
  {
    var o := Le32(b, 28) + 32 * k;
    Proghdr(Le32(b, o), Le32(b, o + 4), Le32(b, o + 8), Le32(b, o + 16), Le32(b, o + 20))
  }

  /** Where the k-th program header stands, from e_phoff, and how many there are, from e_phnum. */
  ghost predicate HeaderAt(b: seq<Byte>, k: nat, n: nat, o: nat) {
    && |b| >= 52
    && n == (b[44] as int) + 0x100 * (b[45] as int)
    && exists off: nat {:trigger Number32At(b, 28, off)} :: Number32At(b, 28, off) && o == off + 32 * k
  }

  /** The fields of the k-th program header are the numbers at 0, 4, 8, 16 and 20 of its 32 bytes; type 1 is the one
      that is loaded. */
  lemma HeaderIs(b: seq<Byte>, k: nat, n: nat, o: nat)
    requires HeadersOk(b) && k < HeaderCount(b) && HeaderAt(b, k, n, o)
    ensures n == HeaderCount(b) && o + 32 <= |b|
    ensures var ph := Header(b, k);
      && Number32At(b, o, ph.kind) && Number32At(b, o + 4, ph.offset) && Number32At(b, o + 8, ph.va)
      && Number32At(b, o + 16, ph.filesz) && Number32At(b, o + 20, ph.memsz)
      && (ph.kind == ELF_PROG_LOAD <==> b[o] == 1 && b[o + 1] == 0 && b[o + 2] == 0 && b[o + 3] == 0)
  {
    var off: nat :| Number32At(b, 28, off) && o == off + 32 * k;
    Le32Is(b, 28);
    HeaderInside(b, k);
    Le32Is(b, o);
    Le32Is(b, o + 4);
    Le32Is(b, o + 8);
    Le32Is(b, o + 16);
    Le32Is(b, o + 20);
    hide Le32;
  }

  lemma HeaderInside(b: seq<Byte>, k: nat)
    requires HeadersOk(b) && k < HeaderCount(b)
    ensures Le32(b, 28) + 32 * k + 32 <= |b|
  {
  }

  function Zeroes(n: nat): (z: seq<Byte>)
    ensures |z| == n && forall i :: 0 <= i < n ==> z[i] == 0
  {
    seq(n, _ => 0)
  }

  /** memcpy of the file's bytes of a segment, then memset of the rest. */
  function CopyIn(s: State, d: nat, b: seq<Byte>, ph: Proghdr): Option<State>
    requires ph.offset + ph.filesz <= |b| && ph.filesz <= ph.memsz
  {
    match StoreAll(s, d, ph.va, b[ph.offset..ph.offset + ph.filesz])
    case None => None
    case Some(s2) => StoreAll(s2, d, ph.va + ph.filesz, Zeroes(ph.memsz - ph.filesz))
  }

  /** One loadable segment: region_alloc, memcpy, memset. */
  function LoadSegment(s: State, d: nat, b: seq<Byte>, ph: Proghdr): Option<State>
    requires ph.offset + ph.filesz <= |b| && ph.filesz <= ph.memsz
  {
    match MapRegion(s, d, RegionPage(ph.va), RegionCount(ph.va, ph.memsz))
    case None => None
    case Some(s1) => CopyIn(s1, d, b, ph)
  }

  /** What load_icode expects of one header: sizes in order, the file bytes inside the image, below UTOP, off the
      stack page, and not spilling past what region_alloc maps. */
  predicate HeaderOk(b: seq<Byte>, ph: Proghdr) {
    ph.kind == ELF_PROG_LOAD ==>
      && ph.filesz <= ph.memsz && ph.offset + ph.filesz <= |b|
      && ph.va + ph.memsz <= UTOP && !InRegion(ph.va, ph.memsz, STACK_PAGE)
      && (ph.memsz == 0 || ph.va % PGSIZE + ph.memsz <= RoundUp(ph.memsz))
  }

  predicate DisjointPages(p: Proghdr, q: Proghdr) {
    || RegionPage(p.va) + RegionCount(p.va, p.memsz) <= RegionPage(q.va)
    || RegionPage(q.va) + RegionCount(q.va, q.memsz) <= RegionPage(p.va)
  }

  /** An image that load_icode is meant for: no two segments touch the same page. */
  ghost predicate ImageOk(b: seq<Byte>) {
    && HeadersOk(b)
    && (forall k: nat {:trigger Header(b, k)} :: k < HeaderCount(b) ==> HeaderOk(b, Header(b, k)))
    && (forall j: nat, k: nat {:trigger Header(b, j), Header(b, k)} ::
        j < k < HeaderCount(b) && Header(b, j).kind == ELF_PROG_LOAD && Header(b, k).kind == ELF_PROG_LOAD ==>
        DisjointPages(Header(b, j), Header(b, k)))
  }

  /** The segment loop, from header k on. */
  ghost function LoadSegments(s: State, d: nat, b: seq<Byte>, k: nat): Option<State>
    requires ImageOk(b) && k <= HeaderCount(b)
    decreases HeaderCount(b) - k
  {
    if k == HeaderCount(b) then Some(s)
    else if Header(b, k).kind != ELF_PROG_LOAD then LoadSegments(s, d, b, k + 1)
    else match LoadSegment(s, d, b, Header(b, k))
      case None => None
      case Some(s') => LoadSegments(s', d, b, k + 1)
  }

  const STACK_PAGE: nat := (USTACKTOP - PGSIZE) / PGSIZE

  /** load_icode: the segments, then one page for the stack. None stands for its panics. */
  ghost function LoadIcode(s: State, d: nat, b: seq<Byte>): Option<State>
    requires ImageOk(b)
  {
    if Le32(b, 0) != ELF_MAGIC then None
    else match LoadSegments(s, d, b, 0)
    case None => None
    case Some(s') => MapRegion(s', d, STACK_PAGE, 1)
  }

  /** The bytes of a segment as the program must see them: the file's, then zeros. */
  function Image(b: seq<Byte>, ph: Proghdr): (image: seq<Byte>)
    requires ph.filesz <= ph.memsz && ph.offset + ph.filesz <= |b|
    ensures |image| == ph.memsz
    ensures forall i :: 0 <= i < ph.memsz ==> image[i] == if i < ph.filesz then b[ph.offset + i] else 0
  {
    b[ph.offset..ph.offset + ph.filesz] + Zeroes(ph.memsz - ph.filesz)
  }

  /** The bytes `image` read back from address a on, all from exclusive pages. */
  ghost predicate Holds(s: State, d: nat, a: nat, image: seq<Byte>) {
    && d < |s.mem| && a + |image| <= UTOP
    && CoveredBy(s, d, a, |image|)
    && (forall c: nat {:trigger LoadByte(s, d, c)} :: a <= c < a + |image| ==> LoadByte(s, d, c) == Some(image[c - a]))
  }

  /** Exclusive pages outside [v, v + n) stay exclusive and keep every byte. */
  ghost predicate KeepsOutside(s: State, s': State, d: nat, v: nat, n: nat) {
    && d < |s.mem| == |s'.mem|
    && (forall u: nat {:trigger Exclusive(s', d, u)} :: !(v <= u < v + n) && Exclusive(s, d, u) ==> Exclusive(s', d, u))
    && (forall c: Word {:trigger LoadByte(s', d, c)} ::
        !(v <= c / PGSIZE < v + n) && Exclusive(s, d, c / PGSIZE) ==> LoadByte(s', d, c) == LoadByte(s, d, c))
  }

  lemma RegionKeepsOutside(s: State, s': State, d: nat, v: nat, n: nat)
    requires RegionDone(s, s', d, v, n)
    ensures KeepsOutside(s, s', d, v, n)
  {
    forall c: Word {:trigger LoadByte(s', d, c)} | !(v <= c / PGSIZE < v + n) && Exclusive(s, d, c / PGSIZE)
      ensures LoadByte(s', d, c) == LoadByte(s, d, c)
    {
      assert StaysExclusive(s, s', d, c / PGSIZE);
    }
    forall u: nat {:trigger Exclusive(s', d, u)} | !(v <= u < v + n) && Exclusive(s, d, u) ensures Exclusive(s', d, u) {
      assert StaysExclusive(s, s', d, u);
    }
  }

  /** region_alloc covers the segment when its length does not spill. */
  lemma RegionCovers(s: State, s': State, d: nat, ph: Proghdr, b: seq<Byte>)
    requires ph.kind == ELF_PROG_LOAD && HeaderOk(b, ph)
    requires RegionDone(s, s', d, RegionPage(ph.va), RegionCount(ph.va, ph.memsz))
    ensures CoveredBy(s', d, ph.va, ph.memsz)
  {
    RegionShape(ph.va, ph.memsz);
    forall u: nat {:trigger Exclusive(s', d, u)} | 0 < ph.memsz && ph.va / PGSIZE <= u && u * PGSIZE < ph.va + ph.memsz
      ensures Exclusive(s', d, u)
    {
      assert u < RegionPage(ph.va) + RegionCount(ph.va, ph.memsz);
    }
  }

  lemma SameTablesCovered(s: State, s': State, x: multiset<nat>, d: nat, a: nat, n: nat)
    requires SameTables(s, s', x, d) && CoveredBy(s, d, a, n)
    ensures CoveredBy(s', d, a, n)
  {
    forall u: nat {:trigger Exclusive(s', d, u)} | 0 < n && a / PGSIZE <= u && u * PGSIZE < a + n
      ensures Exclusive(s', d, u)
    {
      SameTablesExclusive(s, s', x, d, u);
    }
  }

  /** Two copies in a row amount to one copy of the concatenation. */
  lemma {:induction false} StoreAllAppend(s: State, d: nat, a: nat, bs: seq<Byte>, cs: seq<Byte>)
    requires StoreAll(s, d, a, bs).Some?
    ensures StoreAll(s, d, a, bs + cs) == StoreAll(StoreAll(s, d, a, bs).value, d, a + |bs|, cs)
    decreases |bs|
  {
    hide StoreOne;
    if bs == [] {
      assert bs + cs == cs;
    } else {
      var all, s1 := bs + cs, StoreOne(s, d, a, bs[0]).value;
      assert all[0] == bs[0] && all[1..] == bs[1..] + cs;
      StoreAllAppend(s1, d, a + 1, bs[1..], cs);
      assert StoreAll(s, d, a, all) == StoreAll(s1, d, a + 1, all[1..]);
    }
  }

  lemma StoreAllRuns(s: State, x: multiset<nat>, d: nat, a: nat, bs: seq<Byte>, n: nat)
    requires UserSpace(s, x, d) && |bs| <= n && a + n <= UTOP && CoveredBy(s, d, a, n)
    ensures StoreAll(s, d, a, bs).Some?
  {
    assert CoveredBy(s, d, a, |bs|);
    StoreAllOk(s, x, d, a, bs);
  }

  /** The copying half of a segment stores its whole image. */
  lemma CopyInIsImage(s: State, x: multiset<nat>, d: nat, b: seq<Byte>, ph: Proghdr)
    requires UserSpace(s, x, d) && ph.kind == ELF_PROG_LOAD && HeaderOk(b, ph) && CoveredBy(s, d, ph.va, ph.memsz)
    ensures CopyIn(s, d, b, ph) == StoreAll(s, d, ph.va, Image(b, ph))
  {
    hide StoreAll, UserSpace, CoveredBy;
    var file := b[ph.offset..ph.offset + ph.filesz];
    StoreAllRuns(s, x, d, ph.va, file, ph.memsz);
    StoreAllAppend(s, d, ph.va, file, Zeroes(ph.memsz - ph.filesz));
  }

  /** Copying an image into covered pages: it reads back, and other exclusive pages keep their bytes. */
  lemma StoreImage(s: State, x: multiset<nat>, d: nat, a: nat, image: seq<Byte>, v: nat, n: nat)
    requires UserSpace(s, x, d) && a + |image| <= UTOP && CoveredBy(s, d, a, |image|)
    requires image == [] || (v * PGSIZE <= a && a + |image| <= (v + n) * PGSIZE)
    ensures StoreAll(s, d, a, image).Some?
    ensures SameOwner(s, StoreAll(s, d, a, image).value, x, d)
    ensures Holds(StoreAll(s, d, a, image).value, d, a, image)
    ensures KeepsOutside(s, StoreAll(s, d, a, image).value, d, v, n)
  {
    StoreAllOk(s, x, d, a, image);
    var s' := StoreAll(s, d, a, image).value;
    SameTablesCovered(s, s', x, d, a, |image|);
    forall u: nat {:trigger Exclusive(s', d, u)} | Exclusive(s, d, u) ensures Exclusive(s', d, u) {
      SameTablesExclusive(s, s', x, d, u);
    }
  }

  lemma KeepsOutsideTrans(s: State, s1: State, s2: State, d: nat, v: nat, n: nat)
    requires KeepsOutside(s, s1, d, v, n) && KeepsOutside(s1, s2, d, v, n)
    ensures KeepsOutside(s, s2, d, v, n)
  {
    forall u: nat {:trigger Exclusive(s2, d, u)} | !(v <= u < v + n) && Exclusive(s, d, u) ensures Exclusive(s2, d, u) {
      assert Exclusive(s1, d, u);
    }
    forall c: Word {:trigger LoadByte(s2, d, c)} | !(v <= c / PGSIZE < v + n) && Exclusive(s, d, c / PGSIZE)
      ensures LoadByte(s2, d, c) == LoadByte(s, d, c)
    {
      assert Exclusive(s1, d, c / PGSIZE);
      assert LoadByte(s1, d, c) == LoadByte(s, d, c);
    }
  }

  /** Loading a segment puts its bytes in place, never faults once its pages are mapped, and disturbs no byte of
      any other exclusive page. */
  lemma LoadSegmentOk(s: State, x: multiset<nat>, d: nat, b: seq<Byte>, ph: Proghdr)
    requires UserSpace(s, x, d) && ph.kind == ELF_PROG_LOAD && HeaderOk(b, ph)
    requires MapRegion(s, d, RegionPage(ph.va), RegionCount(ph.va, ph.memsz)).Some?
    ensures LoadSegment(s, d, b, ph).Some?
    ensures SameOwner(s, LoadSegment(s, d, b, ph).value, x, d)
    ensures Holds(LoadSegment(s, d, b, ph).value, d, ph.va, Image(b, ph))
    ensures KeepsOutside(s, LoadSegment(s, d, b, ph).value, d, RegionPage(ph.va), RegionCount(ph.va, ph.memsz))
  {
    var v, n := RegionPage(ph.va), RegionCount(ph.va, ph.memsz);
    var s1 := MapSegment(s, x, d, b, ph);
    CopyInIsImage(s1, x, d, b, ph);
    StoreImage(s1, x, d, ph.va, Image(b, ph), v, n);
    var s' := StoreAll(s1, d, ph.va, Image(b, ph)).value;
    SameOwnerTrans(s, s1, s', x, d);
    KeepsOutsideTrans(s, s1, s', d, v, n);
  }

  lemma MapSegment(s: State, x: multiset<nat>, d: nat, b: seq<Byte>, ph: Proghdr) returns (s1: State)
    requires UserSpace(s, x, d) && ph.kind == ELF_PROG_LOAD && HeaderOk(b, ph)
    requires MapRegion(s, d, RegionPage(ph.va), RegionCount(ph.va, ph.memsz)).Some?
    ensures MapRegion(s, d, RegionPage(ph.va), RegionCount(ph.va, ph.memsz)) == Some(s1)
    ensures SameOwner(s, s1, x, d) && CoveredBy(s1, d, ph.va, ph.memsz)
    ensures KeepsOutside(s, s1, d, RegionPage(ph.va), RegionCount(ph.va, ph.memsz))
    ensures ph.memsz == 0 ||
      (RegionPage(ph.va) * PGSIZE <= ph.va
       && ph.va + ph.memsz <= (RegionPage(ph.va) + RegionCount(ph.va, ph.memsz)) * PGSIZE)
  {
    var v, n := RegionPage(ph.va), RegionCount(ph.va, ph.memsz);
    RegionShape(ph.va, ph.memsz);
    MapRegionDone(s, x, d, v, n);
    s1 := MapRegion(s, d, v, n).value;
    RegionKeepsOutside(s, s1, d, v, n);
    RegionCovers(s, s1, d, ph, b);
  }

  lemma HoldsStays(s: State, s': State, d: nat, a: nat, image: seq<Byte>, v: nat, n: nat)
    requires Holds(s, d, a, image) && KeepsOutside(s, s', d, v, n)
    requires a + |image| <= v * PGSIZE || (v + n) * PGSIZE <= a || image == []
    ensures Holds(s', d, a, image)
  {
    forall u: nat {:trigger Exclusive(s', d, u)} | 0 < |image| && a / PGSIZE <= u && u * PGSIZE < a + |image|
      ensures Exclusive(s', d, u)
    {
      assert Exclusive(s, d, u);
    }
    forall c: nat {:trigger LoadByte(s', d, c)} | a <= c < a + |image|
      ensures LoadByte(s', d, c) == Some(image[c - a])
    {
      assert Exclusive(s, d, c / PGSIZE);
    }
  }

  /** Headers 0..k are loaded. */
  ghost predicate LoadedUpTo(s: State, d: nat, b: seq<Byte>, k: nat)
    requires ImageOk(b) && k <= HeaderCount(b)
  {
    forall j: nat {:trigger Header(b, j)} :: j < k && Header(b, j).kind == ELF_PROG_LOAD ==>
      Holds(s, d, Header(b, j).va, Image(b, Header(b, j)))
  }

  lemma LoadedStays(s: State, s': State, d: nat, b: seq<Byte>, k: nat, ph: Proghdr)
    requires ImageOk(b) && k < HeaderCount(b) && LoadedUpTo(s, d, b, k)
    requires ph == Header(b, k) && ph.kind == ELF_PROG_LOAD
    requires KeepsOutside(s, s', d, RegionPage(ph.va), RegionCount(ph.va, ph.memsz))
    requires Holds(s', d, ph.va, Image(b, ph))
    ensures LoadedUpTo(s', d, b, k + 1)
  {
    forall j: nat {:trigger Header(b, j)} | j < k && Header(b, j).kind == ELF_PROG_LOAD
      ensures Holds(s', d, Header(b, j).va, Image(b, Header(b, j)))
    {
      var qh := Header(b, j);
      assert HeaderOk(b, qh) && HeaderOk(b, ph) && DisjointPages(qh, ph);
      RegionShape(ph.va, ph.memsz);
      RegionShape(qh.va, qh.memsz);
      HoldsStays(s, s', d, qh.va, Image(b, qh), RegionPage(ph.va), RegionCount(ph.va, ph.memsz));
    }
  }

  lemma HeaderFine(b: seq<Byte>, k: nat)
    requires ImageOk(b) && k < HeaderCount(b)
    ensures HeaderOk(b, Header(b, k))
    ensures Header(b, k).kind == ELF_PROG_LOAD ==>
      Header(b, k).filesz <= Header(b, k).memsz && Header(b, k).offset + Header(b, k).filesz <= |b|
  {
  }

  lemma SameOwnerRefl(s: State, x: multiset<nat>, d: nat)
    requires UserSpace(s, x, d)
    ensures SameOwner(s, s, x, d)
  {
  }

  /** One round of the segment loop. */
  lemma LoadRound(s: State, x: multiset<nat>, d: nat, b: seq<Byte>, k: nat)
    requires UserSpace(s, x, d) && ImageOk(b) && k < HeaderCount(b) && LoadedUpTo(s, d, b, k)
    requires Header(b, k).kind == ELF_PROG_LOAD ==>
      HeaderOk(b, Header(b, k)) && LoadSegment(s, d, b, Header(b, k)).Some?
    ensures Header(b, k).kind != ELF_PROG_LOAD ==> LoadedUpTo(s, d, b, k + 1)
    ensures Header(b, k).kind == ELF_PROG_LOAD ==>
      && UserSpace(LoadSegment(s, d, b, Header(b, k)).value, x, d)
      && SameOwner(s, LoadSegment(s, d, b, Header(b, k)).value, x, d)
      && LoadedUpTo(LoadSegment(s, d, b, Header(b, k)).value, d, b, k + 1)
  {
    var ph := Header(b, k);
    if ph.kind == ELF_PROG_LOAD {
      LoadSegmentOk(s, x, d, b, ph);
      LoadedStays(s, LoadSegment(s, d, b, ph).value, d, b, k, ph);
    }
  }

  lemma {:induction false} LoadSegmentsOk(s: State, x: multiset<nat>, d: nat, b: seq<Byte>, k: nat)
    requires UserSpace(s, x, d) && ImageOk(b) && k <= HeaderCount(b) && LoadedUpTo(s, d, b, k)
    requires LoadSegments(s, d, b, k).Some?
    ensures SameOwner(s, LoadSegments(s, d, b, k).value, x, d)
    ensures LoadedUpTo(LoadSegments(s, d, b, k).value, d, b, HeaderCount(b))
    decreases HeaderCount(b) - k
  {
    hide LoadedUpTo, SameOwner, LoadSegment, HeaderOk;
    SameOwnerRefl(s, x, d);
    if k < HeaderCount(b) {
      HeaderFine(b, k);
      LoadRound(s, x, d, b, k);
      if Header(b, k).kind != ELF_PROG_LOAD {
        LoadSegmentsOk(s, x, d, b, k + 1);
      } else {
        var s1 := LoadSegment(s, d, b, Header(b, k)).value;
        LoadSegmentsOk(s1, x, d, b, k + 1);
        SameOwnerTrans(s, s1, LoadSegments(s, d, b, k).value, x, d);
      }
    }
  }

  lemma LoadIcodeOwner(s: State, x: multiset<nat>, d: nat, b: seq<Byte>)
    requires UserSpace(s, x, d) && ImageOk(b) && LoadIcode(s, d, b).Some?
    ensures LoadSegments(s, d, b, 0).Some?
    ensures SameOwner(s, LoadIcode(s, d, b).value, x, d)
    ensures LoadedUpTo(LoadSegments(s, d, b, 0).value, d, b, HeaderCount(b))
    ensures KeepsOutside(LoadSegments(s, d, b, 0).value, LoadIcode(s, d, b).value, d, STACK_PAGE, 1)
    ensures Exclusive(LoadIcode(s, d, b).value, d, STACK_PAGE)
  {
    LoadSegmentsOk(s, x, d, b, 0);
    var s1, s' := LoadSegments(s, d, b, 0).value, LoadIcode(s, d, b).value;
    MapRegionDone(s1, x, d, STACK_PAGE, 1);
    RegionKeepsOutside(s1, s', d, STACK_PAGE, 1);
    SameOwnerTrans(s, s1, s', x, d);
    assert Exclusive(s', d, STACK_PAGE);
  }

  /** The stack page belongs to no segment. */
  lemma StackKeeps(s: State, s': State, d: nat, b: seq<Byte>, ph: Proghdr)
    requires ph.kind == ELF_PROG_LOAD && HeaderOk(b, ph) && Holds(s, d, ph.va, Image(b, ph))
    requires KeepsOutside(s, s', d, STACK_PAGE, 1)
    ensures Holds(s', d, ph.va, Image(b, ph))
  {
    RegionShape(ph.va, ph.memsz);
    HoldsStays(s, s', d, ph.va, Image(b, ph), STACK_PAGE, 1);
  }

  lemma LoadedOne(s: State, d: nat, b: seq<Byte>, k: nat)
    requires ImageOk(b) && k < HeaderCount(b) && Header(b, k).kind == ELF_PROG_LOAD
    requires LoadedUpTo(s, d, b, HeaderCount(b))
    ensures HeaderOk(b, Header(b, k)) && Holds(s, d, Header(b, k).va, Image(b, Header(b, k)))
  {
  }

  lemma LoadIcodeHolds(s: State, x: multiset<nat>, d: nat, b: seq<Byte>, k: nat)
    requires UserSpace(s, x, d) && ImageOk(b) && LoadIcode(s, d, b).Some?
    requires k < HeaderCount(b) && Header(b, k).kind == ELF_PROG_LOAD
    ensures HeaderOk(b, Header(b, k))
    ensures Holds(LoadIcode(s, d, b).value, d, Header(b, k).va, Image(b, Header(b, k)))
  {
    LoadIcodeOwner(s, x, d, b);
    HeaderFine(b, k);
    hide Holds, KeepsOutside, LoadedUpTo, LoadSegments, LoadIcode, SameOwner, Exclusive, HeaderOk, Image, Header;
    LoadedOne(LoadSegments(s, d, b, 0).value, d, b, k);
    StackKeeps(LoadSegments(s, d, b, 0).value, LoadIcode(s, d, b).value, d, b, Header(b, k));
  }

  /** After load_icode every loadable segment reads back, byte by byte, through the environment's own tables: the
      file's bytes for p_filesz, then zeros up to p_memsz. The stack page is mapped to a frame of its own, and no
      reference of any other address space has changed. */
  lemma LoadIcodeImage(s: State, x: multiset<nat>, d: nat, b: seq<Byte>, k: nat)
    requires UserSpace(s, x, d) && ImageOk(b) && LoadIcode(s, d, b).Some?
    requires k < HeaderCount(b) && Header(b, k).kind == ELF_PROG_LOAD
    ensures HeaderOk(b, Header(b, k))
    ensures Holds(LoadIcode(s, d, b).value, d, Header(b, k).va, Image(b, Header(b, k)))
    ensures Exclusive(LoadIcode(s, d, b).value, d, STACK_PAGE)
    ensures SameOwner(s, LoadIcode(s, d, b).value, x, d)
  {
    hide Holds, Exclusive, SameOwner, KeepsOutside, LoadedUpTo, LoadSegments, LoadIcode, Image;
    LoadIcodeOwner(s, x, d, b);
    LoadIcodeHolds(s, x, d, b, k);
  }

  /** So loading a program into a new address space and freeing it again restores every count and exactly the
      free frames. */
  lemma LoadAndFree(s: State, x: multiset<nat>, b: seq<Byte>, f: nat)
    requires Consistent(s, x) && s.free != [] && f < |s.mem| && ImageOk(b)
    requires s.free[0] < |s.mem| ==> LoadIcode(SetupVm(s), s.free[0], b).Some?
    ensures s.free[0] < |s.mem| && s.free[0] < |LoadIcode(SetupVm(s), s.free[0], b).value.mem|
    ensures var s' := DropSpace(LoadIcode(SetupVm(s), s.free[0], b).value, s.free[0]);
      && Consistent(s', x) && |s'.mem| == |s.mem|
      && s'.ref[f] == s.ref[f] && (f in s'.free <==> f in s.free)
  {
    SetupVmKeeps(s, x);
    LoadIcodeOwner(SetupVm(s), x, s.free[0], b);
    SpaceRestored(s, x, LoadIcode(SetupVm(s), s.free[0], b).value, f);
  }
}
