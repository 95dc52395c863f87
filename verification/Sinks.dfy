/** The bounded sink of vsnprintf (lib/printfmt.c) and the chunking sink of the user-side vcprintf (lib/printf.c). */
module Sinks {
  import opened Wrappers
  import opened Format
  import opened Printf

  type Octet = b: int | 0 <= b < 256

  /** The byte a character is stored as. */
  function Low8(ch: int): Octet { ch % 256 }

  function Bytes(xs: seq<int>): (r: seq<Octet>)
    ensures |r| == |xs| && forall i :: 0 <= i < |xs| ==> r[i] == xs[i] % 256
  {
    seq(|xs|, i requires 0 <= i < |xs| => Low8(xs[i]))
  }

  lemma BytesPut(xs: seq<int>, c: int)
    ensures Bytes(xs + [c]) == Bytes(xs) + [Low8(c)]
  {
  }

  // ----- vsnprintf -----

  /** struct sprintbuf: the memory behind buf, where the next character goes, where it must stop, and the count. */
  datatype SprintBuf = SprintBuf(mem: seq<Octet>, buf: nat, ebuf: int, cnt: nat)

  function SprintPut(b: SprintBuf, ch: int): SprintBuf {
    if b.buf < b.ebuf && b.buf < |b.mem|
    then b.(cnt := b.cnt + 1, mem := b.mem[b.buf := Low8(ch)], buf := b.buf + 1)
    else b.(cnt := b.cnt + 1)
  }

  /** After any text the buffer holds as much of it as fits, the rest of it is untouched, and everything is counted. */
  lemma {:induction false} SprintRun(mem: seq<Octet>, n: nat, xs: seq<int>)
    requires 1 <= n <= |mem|
    ensures var k := Min(|xs|, n - 1);
      Fold(SprintPut, SprintBuf(mem, 0, n - 1, 0), xs) == SprintBuf(Bytes(xs)[..k] + mem[k..], k, n - 1, |xs|)
    decreases |xs|
  {
    if xs == [] {
      assert Bytes(xs)[..0] + mem[0..] == mem;
    } else {
      var ys, c := xs[..|xs| - 1], xs[|xs| - 1];
      SprintRun(mem, n, ys);
      assert xs == ys + [c];
      BytesPut(ys, c);
      var j, k := Min(|ys|, n - 1), Min(|xs|, n - 1);
      if j < n - 1 {
        assert (Bytes(ys)[..j] + mem[j..])[j := Low8(c)] == Bytes(xs)[..k] + mem[k..];
      } else {
        assert Bytes(ys)[..j] == Bytes(xs)[..k];
      }
    }
  }

  /** sprintputch on the struct itself. */
  class Sprint {
    const mem: array<Octet>
    var buf: nat
    const ebuf: int
    var cnt: nat

    ghost function Value(): SprintBuf
      reads this, mem
    {
      SprintBuf(mem[..], buf, ebuf, cnt)
    }

    constructor (mem: array<Octet>, n: int)
      ensures this.mem == mem && Value() == SprintBuf(mem[..], 0, n - 1, 0)
    {
      this.mem, buf, ebuf, cnt := mem, 0, n - 1, 0;
    }

    method Putch(ch: int)
      requires ebuf <= mem.Length
      modifies this, mem
      ensures Value() == SprintPut(old(Value()), ch)
    {
      cnt := cnt + 1;
      if buf < ebuf {
        mem[buf] := Low8(ch);
        buf := buf + 1;
      }
    }
  }

  /** vsnprintf: at most n bytes are written: the first min(length, n - 1) characters and a NUL. The result is the
      length of the whole text. Without a buffer, or with n < 1, it is -E_INVAL and nothing is written. */
  method Vsnprintf(buf: Option<seq<Octet>>, n: int, fmt: seq<Byte>, a: Args, ap: nat)
    returns (rc: int, after: Option<seq<Octet>>)
    requires buf.Some? ==> n <= |buf.value|
    ensures buf.None? || n < 1 ==> rc == -3 && after == buf
    ensures buf.Some? && n >= 1 ==>
      var xs := Formatted(fmt, a, ap);
      var k := if |xs| < n then |xs| else n - 1;
      rc == |xs| && after == Some(Bytes(xs)[..k] + [0] + buf.value[k + 1..])
  {
    if buf.None? || n < 1 { return -3, buf; }
    var b := VPrintFmt(SprintPut, SprintBuf(buf.value, 0, n - 1, 0), fmt, a, ap);
    ghost var xs := Formatted(fmt, a, ap);
    ghost var k := Min(|xs|, n - 1);
    SprintRun(buf.value, n, xs);
    hide SprintPut, Formatted, Fold, Bytes;
    assert b.mem[b.buf := 0] == Bytes(xs)[..k] + [0] + buf.value[k + 1..];
    return b.cnt, Some(b.mem[b.buf := 0]);
  }

  // ----- vcprintf -----

  const CHUNK := 255

  /** struct printbuf, with the system calls made so far. */
  datatype PrintBuf = PrintBuf(idx: nat, cnt: nat, buf: seq<Octet>, calls: seq<seq<Octet>>)

  function PrintPut(b: PrintBuf, ch: int): PrintBuf {
    if b.idx < CHUNK < |b.buf| then
      var buf := b.buf[b.idx := Low8(ch)];
      if b.idx + 1 == CHUNK then PrintBuf(0, b.cnt + 1, buf, b.calls + [buf[..CHUNK]])
      else PrintBuf(b.idx + 1, b.cnt + 1, buf, b.calls)
    else b
  }

  function Concat(cs: seq<seq<Octet>>): seq<Octet> {
    if cs == [] then [] else Concat(cs[..|cs| - 1]) + cs[|cs| - 1]
  }

  lemma ConcatPut(cs: seq<seq<Octet>>, c: seq<Octet>)
    ensures Concat(cs + [c]) == Concat(cs) + c
  {
    assert (cs + [c])[..|cs|] == cs;
  }

  predicate AllFull(cs: seq<seq<Octet>>) { forall i :: 0 <= i < |cs| ==> |cs[i]| == CHUNK }

  /** What has been sent and what is buffered make up the text so far; only full chunks have been sent. */
  predicate Holds(b: PrintBuf, xs: seq<int>) {
    && b.idx < CHUNK < |b.buf|
    && AllFull(b.calls)
    && Concat(b.calls) + b.buf[..b.idx] == Bytes(xs)
    && b.cnt == |xs|
    && CHUNK * |b.calls| + b.idx == |xs|
  }

  lemma PutHolds(b: PrintBuf, xs: seq<int>, c: int)
    requires Holds(b, xs)
    ensures Holds(PrintPut(b, c), xs + [c])
  {
    var buf := b.buf[b.idx := Low8(c)];
    BytesPut(xs, c);
    assert buf[..b.idx + 1] == b.buf[..b.idx] + [Low8(c)];
    if b.idx + 1 == CHUNK {
      ConcatPut(b.calls, buf[..CHUNK]);
      assert Concat(b.calls + [buf[..CHUNK]]) + buf[..0] == Bytes(xs + [c]);
    }
  }

  lemma {:induction false} PrintRun(b: PrintBuf, xs: seq<int>)
    requires Holds(b, [])
    ensures Holds(Fold(PrintPut, b, xs), xs)
    decreases |xs|
  {
    if xs != [] {
      var ys, c := xs[..|xs| - 1], xs[|xs| - 1];
      PrintRun(b, ys);
      PutHolds(Fold(PrintPut, b, ys), ys, c);
      assert ys + [c] == xs;
    }
  }

  /** Where the bytes of chunk i stand. */
  lemma {:induction false} ConcatAt(cs: seq<seq<Octet>>, i: nat, j: nat)
    requires i < |cs| && j < |cs[i]| && forall k :: 0 <= k < |cs| - 1 ==> |cs[k]| == 255
    ensures |Concat(cs)| == 255 * (|cs| - 1) + |cs[|cs| - 1]|
    ensures 255 * i + j < |Concat(cs)| && Concat(cs)[255 * i + j] == cs[i][j]
    decreases |cs|
  {
    var r := cs[..|cs| - 1];
    if r == [] {
      assert Concat(r) == [];
    } else {
      ConcatAt(r, if i < |r| then i else 0, if i < |r| then j else 0);
    }
  }

  lemma ChunksOf(b: PrintBuf, xs: seq<int>)
    requires Holds(b, xs)
    ensures var cs := b.calls + [b.buf[..b.idx]];
      forall i: nat, j: nat {:trigger cs[i][j]} :: i < |cs| && j < |cs[i]| ==>
        255 * i + j < |xs| && cs[i][j] == xs[255 * i + j] % 256
  {
    var cs := b.calls + [b.buf[..b.idx]];
    ConcatPut(b.calls, b.buf[..b.idx]);
    forall i: nat, j: nat {:trigger cs[i][j]} | i < |cs| && j < |cs[i]|
      ensures 255 * i + j < |xs| && cs[i][j] == xs[255 * i + j] % 256
    {
      ConcatAt(cs, i, j);
    }
  }

  /** vcprintf: the system calls carry exactly the text, in chunks of 255 bytes and a shorter last one (possibly
      empty), and the result counts the characters. The buffer's old contents do not matter. */
  method Vcprintf(stack: seq<Octet>, fmt: seq<Byte>, a: Args, ap: nat) returns (cnt: nat, calls: seq<seq<Octet>>)
    requires |stack| == 256
    ensures Concat(calls) == Bytes(Formatted(fmt, a, ap))
    ensures cnt == |Formatted(fmt, a, ap)| && |calls| == cnt / 255 + 1
    ensures forall i :: 0 <= i < |calls| ==> |calls[i]| == if i < |calls| - 1 then 255 else cnt % 255
    ensures forall i: nat, j: nat {:trigger calls[i][j]} :: i < |calls| && j < |calls[i]| ==>
      255 * i + j < cnt && calls[i][j] == Formatted(fmt, a, ap)[255 * i + j] % 256
  {
    ghost var xs := Formatted(fmt, a, ap);
    var b := VPrintFmt(PrintPut, PrintBuf(0, 0, stack, []), fmt, a, ap);
    assert Holds(PrintBuf(0, 0, stack, []), []);
    PrintRun(PrintBuf(0, 0, stack, []), xs);
    hide Fold, PrintPut, Formatted, Bytes;
    ConcatPut(b.calls, b.buf[..b.idx]);
    ChunksOf(b, xs);
    return b.cnt, b.calls + [b.buf[..b.idx]];
  }

  /** The user-side putch on the struct itself; sys_cputs appends to `calls`. */
  class Print {
    var idx: nat
    var cnt: nat
    const buf: array<Octet>
    var calls: seq<seq<Octet>>

    ghost function Value(): PrintBuf
      reads this, buf
    {
      PrintBuf(idx, cnt, buf[..], calls)
    }

    constructor ()
      ensures fresh(buf) && buf.Length == 256 && Value() == PrintBuf(0, 0, buf[..], [])
    {
      buf, idx, cnt, calls := new Octet[256], 0, 0, [];
    }

    method Putch(ch: int)
      requires idx < CHUNK < buf.Length
      modifies this, buf
      ensures Value() == PrintPut(old(Value()), ch) && idx < CHUNK
    {
      buf[idx] := Low8(ch);
      idx := idx + 1;
      if idx == CHUNK {
        calls := calls + [buf[..idx]];
        idx := 0;
      }
      cnt := cnt + 1;
    }
  }
}
