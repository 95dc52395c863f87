/** cga_putc (kern/console.c): the text screen as a scrolling buffer, against a terminal that never moves text. */
module Console {
  import opened Memory

  const CRT_COLS: nat := 80
  const CRT_SIZE: nat := 2000

  const BLANK: int := 0x0720  // black on white, a space

  /** A terminal of unbounded length: everything ever written stays where it was written. The screen shows 25 rows
      from row `base` on; `pos` is the absolute cursor. */
  datatype Term = Term(text: seq<int>, base: nat, pos: nat)

  /** Where a row starts. */
  function Row(r: nat): nat { r * 80 }

  ghost predicate TermOk(t: Term) {
    && |t.text| == Row(t.base) + CRT_SIZE
    && Row(t.base) <= t.pos < Row(t.base) + CRT_SIZE
  }

  function Blanks(): (b: seq<int>)
    ensures |b| == CRT_COLS && forall i :: 0 <= i < CRT_COLS ==> b[i] == BLANK
  {
    seq(CRT_COLS, _ => BLANK)
  }

  /** When the cursor runs off the screen, the screen moves down one row over fresh blanks. */
  function Scroll(t: Term): Term {
    if t.pos >= Row(t.base) + CRT_SIZE then Term(t.text + Blanks(), t.base + 1, t.pos) else t
  }

  /** The default attribute for a bare character. */
  function WithColor(c: nat): nat { if c < 256 then c + 0x0700 else c }

  /** The terminal's reaction to any character but a tab. c carries its attribute. */
  function Strike(t: Term, c: nat): Term
    requires TermOk(t)
  {
    if c % 256 == 8 then
      if t.pos > Row(t.base)
      then t.(pos := t.pos - 1, text := t.text[t.pos - 1 := (c - c % 256 + 32) % 0x1_0000])
      else t
    else if c % 256 == 10 then Scroll(t.(pos := t.pos + CRT_COLS - t.pos % CRT_COLS))
    else if c % 256 == 13 then t.(pos := t.pos - t.pos % CRT_COLS)
    else Scroll(t.(text := t.text[t.pos := c % 0x1_0000], pos := t.pos + 1))
  }

  lemma StrikeOk(t: Term, c: nat)
    requires TermOk(t)
    ensures TermOk(Strike(t, c))
  {
    RowStart(t.base, t.pos);
  }

  /** Rows start at multiples of the row length, so going to the start of a row stays on the screen. */
  lemma RowStart(base: nat, pos: nat)
    requires Row(base) <= pos
    ensures Row(base) <= pos - pos % CRT_COLS
  {
    assert pos / CRT_COLS >= base;
  }

  lemma RowMod(base: nat, pos: nat)
    ensures (Row(base) + pos) % CRT_COLS == pos % CRT_COLS == (pos + CRT_COLS) % CRT_COLS
  {
  }

  /** A tab is five spaces of the default colour. */
  function TermPut(t: Term, c: nat): Term
    requires TermOk(t)
  {
    if c % 256 == 9 then Spaces(t, 5) else Strike(t, WithColor(c))
  }

  function Spaces(t: Term, n: nat): (r: Term)
    requires TermOk(t)
    ensures TermOk(r)
    decreases n
  {
    if n == 0 then t
    else
      StrikeOk(t, 0x0720);
      Spaces(Strike(t, 0x0720), n - 1)
  }

  lemma TermPutOk(t: Term, c: nat)
    requires TermOk(t)
    ensures TermOk(TermPut(t, c))
  {
    if c % 256 != 9 { StrikeOk(t, WithColor(c)); }
  }

  /** The 25 rows on the screen. */
  function Window(t: Term): seq<int>
    requires TermOk(t)
  {
    t.text[Row(t.base)..]
  }

  // ----- what a character does to the screen -----

  /** Moved up one row over blanks. */
  ghost predicate MovedUp(was: seq<int>, now: seq<int>) {
    |now| == |was| == CRT_SIZE
    && forall k {:trigger now[k]} :: 0 <= k < CRT_SIZE ==> now[k] == if k < 1920 then was[k + 80] else 0x0720
  }

  /** Cell p is set to v, nothing else changes. */
  ghost predicate OneCell(was: seq<int>, now: seq<int>, p: int, v: int) {
    |now| == |was| == CRT_SIZE
    && forall k {:trigger now[k]} :: 0 <= k < CRT_SIZE ==> now[k] == if k == p then v else was[k]
  }

  /** n blanks from cell p on; if they reach the end of the screen it moves up, once. */
  ghost predicate BlanksAt(was: seq<int>, p: int, n: nat, now: seq<int>, q: int) {
    && |now| == |was| == CRT_SIZE
    && q == (if p + n < CRT_SIZE then p + n else p + n - 80)
    && forall k {:trigger now[k]} :: 0 <= k < CRT_SIZE ==>
      now[k] ==
      if p + n < CRT_SIZE then if p <= k < p + n then 0x0720 else was[k]
      else if k < 1920 && k + 80 < p then was[k + 80] else 0x0720
  }

  /** Typing c on the screen `was` with the cursor at p leaves `now` with the cursor at q. Rows are 80 cells, the last
      one begins at 1920. A character without attribute is black on white. */
  ghost predicate Typed(c: nat, was: seq<int>, p: int, now: seq<int>, q: int) {
    var attr, ch := if c < 256 then 7 else c / 256 % 256, c % 256;
    if ch == '\n' as int then
      if p < 1920 then q == p / 80 * 80 + 80 && now == was else q == 1920 && MovedUp(was, now)
    else if ch == '\r' as int then q == p / 80 * 80 && now == was
    else if ch == 8 then
      if p > 0 then q == p - 1 && OneCell(was, now, p - 1, attr * 256 + ' ' as int) else q == 0 && now == was
    else if ch == '\t' as int then BlanksAt(was, p, 5, now, q)
    else if p < CRT_SIZE - 1 then q == p + 1 && OneCell(was, now, p, attr * 256 + ch)
    else
      && q == 1920
      && exists mid :: OneCell(was, mid, p, attr * 256 + ch) && MovedUp(mid, now)
  }

  /** The cursor on the screen. */
  function Cursor(t: Term): int { t.pos - Row(t.base) }

  lemma ScrollWindow(t: Term)
    requires |t.text| == Row(t.base) + CRT_SIZE && Row(t.base) <= t.pos < Row(t.base) + CRT_SIZE + CRT_COLS
    ensures TermOk(Scroll(t))
    ensures Cursor(t) < CRT_SIZE ==> Cursor(Scroll(t)) == Cursor(t) && Window(Scroll(t)) == t.text[Row(t.base)..]
    ensures Cursor(t) >= CRT_SIZE ==>
      Cursor(Scroll(t)) == Cursor(t) - 80 && MovedUp(t.text[Row(t.base)..], Window(Scroll(t)))
  {
  }

  lemma AttrOf(c: nat)
    ensures WithColor(c) % 256 == c % 256
    ensures var attr := if c < 256 then 7 else c / 256 % 256;
      && WithColor(c) % 0x1_0000 == attr * 256 + c % 256
      && (WithColor(c) - WithColor(c) % 256 + 32) % 0x1_0000 == attr * 256 + 32
  {
    var w := WithColor(c);
    var h := w / 256;
    assert w == 256 * h + w % 256 && h == 256 * (h / 256) + h % 256;
    LowTwo(h / 256, h % 256, w % 256);
    LowTwo(h / 256, h % 256, 32);
  }

  lemma LowTwo(a: nat, b: nat, c: nat)
    requires b < 256 && c < 256
    ensures (256 * (256 * a + b) + c) % 0x1_0000 == b * 256 + c
  {
  }

  lemma RowColumn(base: nat, pos: nat)
    requires Row(base) <= pos
    ensures pos - pos % 80 - Row(base) == (pos - Row(base)) / 80 * 80
  {
    RowMod(base, pos - Row(base));
  }

  lemma StrikeTyped(t: Term, c: nat)
    requires TermOk(t) && c % 256 != 9
    ensures TermOk(Strike(t, WithColor(c)))
    ensures Typed(c, Window(t), Cursor(t), Window(Strike(t, WithColor(c))), Cursor(Strike(t, WithColor(c))))
  {
    var w := WithColor(c);
    StrikeOk(t, w);
    AttrOf(c);
    RowColumn(t.base, t.pos);
    hide WithColor, Row;
    if c % 256 == 10 {
      ScrollWindow(t.(pos := t.pos + CRT_COLS - t.pos % CRT_COLS));
    } else if c % 256 != 8 && c % 256 != 13 {
      var t1 := t.(text := t.text[t.pos := w % 0x1_0000], pos := t.pos + 1);
      ScrollWindow(t1);
      assert OneCell(Window(t), t1.text[Row(t.base)..], Cursor(t), w % 0x1_0000);
    }
  }

  lemma {:induction false} SpacesTyped(t: Term, n: nat, t0: Term, m: nat)
    requires TermOk(t) && TermOk(t0) && n + m <= 5 && BlanksAt(Window(t0), Cursor(t0), m, Window(t), Cursor(t))
    ensures BlanksAt(Window(t0), Cursor(t0), m + n, Window(Spaces(t, n)), Cursor(Spaces(t, n)))
    decreases n
  {
    if n > 0 {
      StrikeOk(t, 0x0720);
      StrikeTyped(t, 32);
      hide Strike, TermOk, Window, Cursor;
      SpacesTyped(Strike(t, 0x0720), n - 1, t0, m + 1);
    }
  }

  /** Every character does to the screen what it should. */
  lemma PutTyped(t: Term, c: nat)
    requires TermOk(t)
    ensures TermOk(TermPut(t, c))
    ensures Typed(c, Window(t), Cursor(t), Window(TermPut(t, c)), Cursor(TermPut(t, c)))
  {
    TermPutOk(t, c);
    if c % 256 == 9 { SpacesTyped(t, 5, t, 0); } else { StrikeTyped(t, c); }
  }

  class Cga {
    const buf: array<int>   // crt_buf
    var pos: int            // crt_pos
    ghost var term: Term

    /** The buffer is the window of the terminal, and the cursor is on the screen. */
    ghost predicate Valid()
      reads this, buf
    {
      && buf.Length == CRT_SIZE && TermOk(term)
      && buf[..] == Window(term)
      && pos == term.pos - Row(term.base)
    }

    /** cga_init: whatever is on the screen, with the cursor somewhere on it. */
    constructor (screen: array<int>, pos: nat)
      requires screen.Length == CRT_SIZE && pos < CRT_SIZE
      ensures Valid() && buf == screen && term == Term(screen[..], 0, pos)
    {
      buf := screen;
      this.pos := pos;
      term := Term(screen[..], 0, pos);
    }

    /** The tail of cga_putc: when the cursor has run off the screen, move everything up one row in place. */
    method ScrollUp(ghost t: Term)
      requires buf.Length == CRT_SIZE && |t.text| == Row(t.base) + CRT_SIZE
      requires buf[..] == t.text[Row(t.base)..] && pos == t.pos - Row(t.base)
      requires 0 <= pos < CRT_SIZE + CRT_COLS
      modifies this, buf
      ensures Valid() && term == Scroll(t)
    {
      if pos >= CRT_SIZE {
        MoveUnits(buf, 0, CRT_COLS, CRT_SIZE - CRT_COLS);
        ghost var moved := buf[..];
        var i := CRT_SIZE - CRT_COLS;
        while i < CRT_SIZE
          invariant CRT_SIZE - CRT_COLS <= i <= CRT_SIZE && pos == old(pos)
          invariant forall k :: 0 <= k < CRT_SIZE ==>
            buf[k] == if CRT_SIZE - CRT_COLS <= k < i then BLANK else moved[k]
        {
          buf[i] := BLANK;
          i := i + 1;
        }
        pos := pos - CRT_COLS;
        assert buf[..] == moved[..CRT_SIZE - CRT_COLS] + Blanks();
        assert t.text[Row(t.base + 1)..] == t.text[Row(t.base)..][CRT_COLS..];
      }
      term := Scroll(t);
    }

    /** The cases of cga_putc that do not recurse. */
    method Key(ch: nat)
      requires Valid() && ch % 256 != 9
      modifies this, buf
      ensures Valid() && term == Strike(old(term), ch)
    {
      StrikeOk(term, ch);
      RowStart(term.base, term.pos);
      RowMod(term.base, pos);
      hide Row;
      ghost var t := term;
      if ch % 256 == 8 {
        if pos > 0 {
          pos := pos - 1;
          buf[pos] := (ch - ch % 256 + 32) % 0x1_0000;
          t := Strike(t, ch);
        }
      } else if ch % 256 == 10 {
        pos := pos + CRT_COLS;
        pos := pos - pos % CRT_COLS;
        t := t.(pos := t.pos + CRT_COLS - t.pos % CRT_COLS);
      } else if ch % 256 == 13 {
        pos := pos - pos % CRT_COLS;
        t := Strike(t, ch);
      } else {
        buf[pos] := ch % 0x1_0000;
        pos := pos + 1;
        t := t.(text := t.text[t.pos := ch % 0x1_0000], pos := t.pos + 1);
      }
      ScrollUp(t);
    }

    /** cga_putc. The recursion through cons_putc for a tab writes its five spaces to the other devices too. */
    method Putc(c: nat)
      requires Valid()
      modifies this, buf
      ensures Valid() && term == TermPut(old(term), c)
      ensures Typed(c, old(buf[..]), old(pos), buf[..], pos)
      decreases if c % 256 == 9 then 1 else 0
    {
      PutTyped(term, c);
      hide Typed;
      if c % 256 == 9 {
        hide Strike, TermOk, Window;
        ghost var t := term;
        SpacesUnroll(t);
        Putc(32);
        Putc(32);
        Putc(32);
        Putc(32);
        Putc(32);
        ScrollUp(term);
      } else {
        Key(WithColor(c));
      }
    }
  }

  lemma SpacesUnroll(t: Term)
    requires TermOk(t)
    ensures TermOk(TermPut(t, 32)) && TermOk(TermPut(TermPut(t, 32), 32))
    ensures TermOk(TermPut(TermPut(TermPut(t, 32), 32), 32))
    ensures TermOk(TermPut(TermPut(TermPut(TermPut(t, 32), 32), 32), 32))
    ensures Spaces(t, 5) == TermPut(TermPut(TermPut(TermPut(TermPut(t, 32), 32), 32), 32), 32)
    ensures Scroll(Spaces(t, 5)) == Spaces(t, 5)
  {
    var t1 := TermPut(t, 32);
    StrikeOk(t, 0x0720);
    assert Spaces(t, 5) == Spaces(t1, 4);
    var t2 := TermPut(t1, 32);
    StrikeOk(t1, 0x0720);
    assert Spaces(t1, 4) == Spaces(t2, 3);
    var t3 := TermPut(t2, 32);
    StrikeOk(t2, 0x0720);
    assert Spaces(t2, 3) == Spaces(t3, 2);
    var t4 := TermPut(t3, 32);
    StrikeOk(t3, 0x0720);
    assert Spaces(t3, 2) == Spaces(t4, 1);
    StrikeOk(t4, 0x0720);
  }

  /** cputchar on every character of a text. */
  function TermWrite(t: Term, cs: seq<nat>): (r: Term)
    requires TermOk(t)
    ensures TermOk(r)
    decreases |cs|
  {
    if cs == [] then t
    else
      TermPutOk(t, cs[0]);
      TermWrite(TermPut(t, cs[0]), cs[1..])
  }

  lemma {:induction false} WriteLast(t: Term, cs: seq<nat>, c: nat)
    requires TermOk(t)
    ensures TermWrite(t, cs + [c]) == TermPut(TermWrite(t, cs), c)
    decreases |cs|
  {
    hide TermPut, TermOk;
    if cs == [] {
      assert cs + [c] == [c] && [c][1..] == [];
      TermPutOk(t, c);
      assert TermWrite(t, [c]) == TermWrite(TermPut(t, c), []);
    } else {
      TermPutOk(t, cs[0]);
      assert (cs + [c])[1..] == cs[1..] + [c];
      WriteLast(TermPut(t, cs[0]), cs[1..], c);
    }
  }

  /** So a text is typed character by character: each does to the screen it finds what it should. */
  lemma WriteTyped(t: Term, cs: seq<nat>, c: nat)
    requires TermOk(t)
    ensures TermWrite(t, []) == t
    ensures var r, r' := TermWrite(t, cs), TermWrite(t, cs + [c]);
      Typed(c, Window(r), Cursor(r), Window(r'), Cursor(r'))
  {
    WriteLast(t, cs, c);
    hide Typed, TermWrite, TermPut, Window, Cursor;
    PutTyped(TermWrite(t, cs), c);
  }

  /** After any text the screen is the window, at the current scroll base, of the terminal that got the text. */
  method Write(cga: Cga, cs: seq<nat>)
    requires cga.Valid()
    modifies cga, cga.buf
    ensures cga.Valid() && cga.term == TermWrite(old(cga.term), cs)
    ensures 0 <= cga.pos < CRT_SIZE && cga.buf[..] == Window(cga.term)
  {
    ghost var t := cga.term;
    assert cs[0..] == cs;
    var i := 0;
    while i < |cs|
      invariant 0 <= i <= |cs| && cga.Valid()
      invariant TermWrite(cga.term, cs[i..]) == TermWrite(t, cs)
    {
      assert cs[i..][0] == cs[i] && cs[i..][1..] == cs[i + 1..];
      cga.Putc(cs[i]);
      i := i + 1;
    }
    assert cs[i..] == [];
  }

  /** A character that just appears: neither a control character that moves the cursor nor one with colour bits. */
  predicate Visible(c: nat) { c < 256 && c != 8 && c != 9 && c != 10 && c != 13 }

  lemma StrikeVisible(t: Term, c: nat)
    requires TermOk(t) && Visible(c)
    ensures TermOk(TermPut(t, c)) && TermPut(t, c).pos == t.pos + 1 && |t.text| <= |TermPut(t, c).text|
    ensures TermPut(t, c).text[t.pos] == c + 0x0700
    ensures forall i :: 0 <= i < t.pos ==> TermPut(t, c).text[i] == t.text[i]
  {
    TermPutOk(t, c);
    ColorLow(c);
    hide WithColor, Row;
    assert TermPut(t, c) == Strike(t, WithColor(c));
    assert Strike(t, WithColor(c)) == Scroll(t.(text := t.text[t.pos := c + 0x0700], pos := t.pos + 1));
  }

  lemma ColorLow(c: nat)
    requires c < 256
    ensures WithColor(c) == c + 0x0700 && WithColor(c) % 256 == c && WithColor(c) % 0x1_0000 == c + 0x0700
  {
  }

  /** Visible text ends up, in order and black on white, right where the cursor was, and nothing before it is
      touched; scrolling on the way does not matter. */
  lemma {:induction false} VisibleText(t: Term, cs: seq<nat>)
    requires TermOk(t) && forall i :: 0 <= i < |cs| ==> Visible(cs[i])
    ensures var r := TermWrite(t, cs);
      && r.pos == t.pos + |cs| && |t.text| <= |r.text|
      && (forall i {:trigger r.text[i]} :: 0 <= i < t.pos ==> r.text[i] == t.text[i])
      && (forall i {:trigger r.text[i]} :: t.pos <= i < t.pos + |cs| ==> r.text[i] == cs[i - t.pos] + 0x0700)
    decreases |cs|
  {
    hide TermPut, TermOk;
    if cs != [] {
      StrikeVisible(t, cs[0]);
      VisibleText(TermPut(t, cs[0]), cs[1..]);
    }
  }

  /** Rows that have scrolled off the screen are never touched again, whatever text is written. */
  lemma {:induction false} HistoryStays(t: Term, cs: seq<nat>)
    requires TermOk(t)
    ensures var r := TermWrite(t, cs);
      && t.base <= r.base && |t.text| <= |r.text|
      && r.text[..Row(t.base)] == t.text[..Row(t.base)]
    decreases |cs|
  {
    if cs != [] {
      PutHistory(t, cs[0]);
      var t1 := TermPut(t, cs[0]);
      HistoryStays(t1, cs[1..]);
      hide TermPut, TermWrite;
      var r := TermWrite(t1, cs[1..]);
      assert r.text[..Row(t.base)] == r.text[..Row(t1.base)][..Row(t.base)];
    }
  }

  lemma PutHistory(t: Term, c: nat)
    requires TermOk(t)
    ensures TermOk(TermPut(t, c)) && t.base <= TermPut(t, c).base && |t.text| <= |TermPut(t, c).text|
    ensures TermPut(t, c).text[..Row(t.base)] == t.text[..Row(t.base)]
  {
    TermPutOk(t, c);
    if c % 256 == 9 { SpacesHistory(t, 5); } else { StrikeHistory(t, WithColor(c)); }
  }

  lemma StrikeHistory(t: Term, c: nat)
    requires TermOk(t)
    ensures TermOk(Strike(t, c)) && t.base <= Strike(t, c).base && |t.text| <= |Strike(t, c).text|
    ensures Strike(t, c).text[..Row(t.base)] == t.text[..Row(t.base)]
  {
    StrikeOk(t, c);
  }

  lemma {:induction false} SpacesHistory(t: Term, n: nat)
    requires TermOk(t)
    ensures t.base <= Spaces(t, n).base && |t.text| <= |Spaces(t, n).text|
    ensures Spaces(t, n).text[..Row(t.base)] == t.text[..Row(t.base)]
    decreases n
  {
    if n > 0 {
      StrikeOk(t, 0x0720);
      StrikeHistory(t, 0x0720);
      var t1 := Strike(t, 0x0720);
      SpacesHistory(t1, n - 1);
      assert Spaces(t, n).text[..Row(t.base)] == Spaces(t, n).text[..Row(t1.base)][..Row(t.base)];
    }
  }
}
