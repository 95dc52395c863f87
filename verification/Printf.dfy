/** vprintfmt (lib/printfmt.c) as the loop it is, over any sink: a state and a function that puts one character. */
module Printf {
  import opened Wrappers
  import opened Mmu
  import opened Format

  /** The sink after the characters xs. */
  function Fold<S>(put: (S, int) -> S, s: S, xs: seq<int>): S {
    if xs == [] then s else put(Fold(put, s, xs[..|xs| - 1]), xs[|xs| - 1])
  }

  lemma FoldPut<S>(put: (S, int) -> S, s: S, xs: seq<int>, c: int)
    ensures Fold(put, s, xs + [c]) == put(Fold(put, s, xs), c)
  {
    assert (xs + [c])[..|xs|] == xs;
  }

  lemma {:induction false} FoldAppend<S>(put: (S, int) -> S, s: S, xs: seq<int>, ys: seq<int>)
    ensures Fold(put, s, xs + ys) == Fold(put, Fold(put, s, xs), ys)
    decreases |ys|
  {
    if ys == [] {
      assert xs + ys == xs;
    } else {
      var zs := ys[..|ys| - 1];
      FoldAppend(put, s, xs, zs);
      FoldPut(put, s, xs + zs, ys[|ys| - 1]);
      assert xs + zs + [ys[|ys| - 1]] == xs + ys;
    }
  }

  /** The literal text of a format, character by character. */
  method PutRun<S>(put: (S, int) -> S, putdat: S, xs: seq<int>) returns (s: S)
    ensures s == Fold(put, putdat, xs)
  {
    s := putdat;
    for i := 0 to |xs|
      invariant s == Fold(put, putdat, xs[..i])
    {
      FoldPut(put, putdat, xs[..i], xs[i]);
      assert xs[..i] + [xs[i]] == xs[..i + 1];
      s := put(s, xs[i]);
    }
    assert xs[..|xs|] == xs;
  }

  /** A loop that puts the same character while its counter is positive. */
  method PutPad<S>(put: (S, int) -> S, putdat: S, c: int, n: int) returns (s: S)
    ensures s == Fold(put, putdat, Pad(c, n))
  {
    s := putdat;
    var width := n;
    ghost var k := 0;
    while width > 0
      invariant 0 <= k && width == n - k && (k > 0 ==> width >= 0)
      invariant s == Fold(put, putdat, Pad(c, k))
    {
      FoldPut(put, putdat, Pad(c, k), c);
      assert Pad(c, k) + [c] == Pad(c, k + 1);
      s := put(s, c);
      width, k := width - 1, k + 1;
    }
    assert Pad(c, k) == Pad(c, n);
  }

  method PutNum<S>(put: (S, int) -> S, putdat: S, num: nat, base: nat, width: int, padc: int) returns (s: S)
    requires 2 <= base <= 16
    ensures s == Fold(put, putdat, PrintNum(num, base, width, padc))
    decreases num
  {
    ghost var before := if num >= base then PrintNum(Quot(num, base), base, width - 1, padc) else Pad(padc, width - 1);
    if num >= base {
      s := PutNum(put, putdat, Quot(num, base), base, width - 1, padc);
    } else {
      s := PutPad(put, putdat, padc, width - 1);
    }
    FoldPut(put, putdat, before, Digit(Rem(num, base)));
    s := put(s, Digit(Rem(num, base)));
  }

  method Strnlen(str: seq<Byte>, size0: nat) returns (n: nat)
    ensures n == Min(|str|, size0)
  {
    n := 0;
    var size := size0;
    while size > 0 && n < |str|
      invariant n <= |str| && size == size0 - n
    {
      n, size := n + 1, size - 1;
    }
  }

  function ShownPrefix(p: seq<Byte>, k: nat, alt: bool): seq<int>
    requires k <= |p|
  {
    seq(k, i requires 0 <= i < k => Shown(p[i], alt))
  }

  /** The characters of the string, while there are any and the precision allows. */
  method PutShown<S>(put: (S, int) -> S, putdat: S, p: seq<Byte>, fl: Flags) returns (s: S, j: nat)
    ensures j == Printed(p, fl.precision) && s == Fold(put, putdat, ShownPrefix(p, j, fl.alt))
  {
    var precision := fl.precision;
    s, j := putdat, 0;
    while j < |p| && (precision < 0 || precision > 0)
      invariant j <= Printed(p, fl.precision)
      invariant precision == if fl.precision < 0 then fl.precision else fl.precision - j
      invariant s == Fold(put, putdat, ShownPrefix(p, j, fl.alt))
    {
      if precision >= 0 { precision := precision - 1; }
      FoldPut(put, putdat, ShownPrefix(p, j, fl.alt), Shown(p[j], fl.alt));
      assert ShownPrefix(p, j, fl.alt) + [Shown(p[j], fl.alt)] == ShownPrefix(p, j + 1, fl.alt);
      s := put(s, Shown(p[j], fl.alt));
      j := j + 1;
    }
  }

  method PutString<S>(put: (S, int) -> S, putdat: S, p: seq<Byte>, fl: Flags) returns (s: S)
    ensures s == Fold(put, putdat, PrintString(p, fl))
  {
    var width, j := fl.width, 0;
    ghost var left: seq<int> := [];
    s := putdat;
    assert s == Fold(put, putdat, left);
    hide Fold, Shown;
    if width > 0 && fl.padc != 45 {
      var n := Strnlen(p, fl.precision % 0x1_0000_0000);
      left := Pad(fl.padc, width - n);
      s := PutPad(put, putdat, fl.padc, width - n);
      width := if width > n then 0 else width - n;
    }
    ghost var mid := ShownPrefix(p, Printed(p, fl.precision), fl.alt);
    FoldAppend(put, putdat, left, mid);
    s, j := PutShown(put, s, p, fl);
    FoldAppend(put, putdat, left + mid, Pad(32, width - j));
    s := PutPad(put, s, 32, width - j);
    assert left + mid + Pad(32, width - j) == PrintString(p, fl);
  }

  /** The part behind '%' up to the conversion character: `goto reswitch` as a loop. */
  method ReadFlags(fmt: seq<Byte>, start: nat, a: Args, ap0: nat) returns (i: nat, ap: nat, fl: Flags)
    requires start <= |fmt|
    ensures start <= i <= |fmt| && (i < |fmt| ==> !IsFlag(fmt[i]))
    ensures forall k :: start <= k < i ==> fmt[k] != 37
    ensures Escape(fmt, start, start, a, ap0, START) == Escape(fmt, start, i, a, ap, fl)
  {
    i, ap, fl := start, ap0, START;
    while i < |fmt| && IsFlag(fmt[i])
      invariant start <= i <= |fmt|
      invariant forall k :: start <= k < i ==> fmt[k] != 37
      invariant Escape(fmt, start, start, a, ap0, START) == Escape(fmt, start, i, a, ap, fl)
    {
      var c := fmt[i];
      i := i + 1;
      if c == 45 {
        fl := fl.(padc := 45);
      } else if c == 48 {
        fl := fl.(padc := 48);
      } else if 49 <= c <= 57 {
        var n: int := c - 48;
        ghost var from := i;
        while i < |fmt| && IsDigit(fmt[i])
          invariant from <= i <= |fmt| && Digits(fmt, i, n) == Digits(fmt, from, c - 48)
          invariant forall k :: start <= k < i ==> fmt[k] != 37
        {
          n := n * 10 + fmt[i] - 48;
          i := i + 1;
        }
        fl := TakeNumber(fl, n);
      } else if c == 42 {
        fl := TakeNumber(fl, Int32(a.word(ap)));
        ap := ap + 1;
      } else if c == 46 {
        if fl.width < 0 { fl := fl.(width := 0); }
      } else if c == 35 {
        fl := fl.(alt := true);
      } else {
        fl := fl.(lflag := fl.lflag + 1);
      }
    }
  }

  method PutDecimal<S>(put: (S, int) -> S, putdat: S, n: int, width: int, padc: int) returns (s: S)
    ensures s == Fold(put, putdat, Decimal(n, width, padc))
  {
    s := putdat;
    if n < 0 {
      s := put(s, 45);
      FoldPut(put, putdat, [], 45);
    }
    FoldAppend(put, putdat, if n < 0 then [45] else [], PrintNum(Abs(n), 10, width, padc));
    s := PutNum(put, s, if n < 0 then -n else n, 10, width, padc);
  }

  method PutError<S>(put: (S, int) -> S, putdat: S, err: int) returns (s: S)
    ensures s == Fold(put, putdat, PrintError(err))
  {
    var e := if err < 0 then -err else err;
    match ErrorText(e)
    case Some(text) =>
      s := PutString(put, putdat, text, START);
    case None =>
      s := PutRun(put, putdat, ERROR_PREFIX);
      FoldAppend(put, putdat, ERROR_PREFIX, Decimal(e, -1, 32));
      s := PutDecimal(put, s, e, -1, 32);
  }

  /** The conversions: what they print and how many argument words they take. */
  method PutConversion<S>(put: (S, int) -> S, putdat: S, c: Byte, a: Args, ap: nat, fl: Flags)
    returns (known: bool, s: S, used: nat)
    ensures known == Convert(c, a, ap, fl).Some?
    ensures known ==> s == Fold(put, putdat, Convert(c, a, ap, fl).value.0) && used == Convert(c, a, ap, fl).value.1
    ensures !known ==> s == putdat
  {
    known, s, used := true, putdat, 1;
    hide Fold, PrintNum, PrintString, PrintError, Decimal;
    if c == 99 {
      s := PutRun(put, s, [Int32(a.word(ap))]);
    } else if c == 101 {
      s := PutError(put, s, Int32(a.word(ap)));
    } else if c == 115 {
      s := PutString(put, s, TextAt(a, a.word(ap)), fl);
    } else if c == 100 {
      var (n, k) := GetInt(a, ap, fl.lflag);
      s := PutDecimal(put, s, n, fl.width, fl.padc);
      used := k;
    } else if c == 117 || c == 111 || c == 120 {
      var (n, k) := GetUint(a, ap, fl.lflag);
      s := PutNum(put, s, n, if c == 117 then 10 else if c == 111 then 8 else 16, fl.width, fl.padc);
      used := k;
    } else if c == 112 {
      s := PutRun(put, s, [48, 120]);
      FoldAppend(put, putdat, [48, 120], PrintNum(a.word(ap), 16, fl.width, fl.padc));
      s := PutNum(put, s, a.word(ap), 16, fl.width, fl.padc);
    } else if c == 37 {
      s := PutRun(put, s, [37]);
      used := 0;
    } else {
      known := false;
    }
  }

  /** An unknown escape: put '%', then go back to the character behind it. */
  method PutUnknown<S>(put: (S, int) -> S, putdat: S, fmt: seq<Byte>, start: nat, i0: nat) returns (s: S, i: nat)
    requires 0 < start <= i0 <= |fmt| && fmt[start - 1] == 37 && forall k :: start <= k < i0 ==> fmt[k] != 37
    ensures s == Fold(put, putdat, [37]) && i == start
  {
    s := put(putdat, 37);
    FoldPut(put, putdat, [], 37);
    assert [] + [37] == [37];
    i := i0;
    while fmt[i - 1] != 37
      invariant start <= i <= i0
      decreases i
    {
      i := i - 1;
    }
  }

  lemma Assoc(out: seq<int>, xs: seq<int>, rest: seq<int>)
    ensures out + (xs + rest) == out + xs + rest
  {
  }

  /** vprintfmt terminates, although it goes back over an escape it does not know, and puts Formatted(...) into
      whatever sink it is given: the text does not depend on the sink. */
  method VPrintFmt<S>(put: (S, int) -> S, putdat: S, fmt: seq<Byte>, a: Args, ap0: nat) returns (s: S)
    ensures s == Fold(put, putdat, Formatted(fmt, a, ap0))
  {
    var i, ap := 0, ap0;
    s := putdat;
    ghost var out: seq<int> := [];
    hide Convert;
    while true
      invariant i <= |fmt| && s == Fold(put, putdat, out)
      invariant out + Literal(fmt, i, a, ap) == Formatted(fmt, a, ap0)
      decreases |fmt| - i
    {
      while i < |fmt| && fmt[i] != 37
        invariant i <= |fmt| && s == Fold(put, putdat, out)
        invariant out + Literal(fmt, i, a, ap) == Formatted(fmt, a, ap0)
      {
        FoldPut(put, putdat, out, fmt[i]);
        Assoc(out, [fmt[i]], Literal(fmt, i + 1, a, ap));
        s := put(s, fmt[i]);
        out, i := out + [fmt[i]], i + 1;
      }
      if i == |fmt| {
        assert out + [] == out;
        return;
      }
      var start := i + 1;
      var j, ap', fl := ReadFlags(fmt, start, a, ap);
      var known, used := false, 0;
      if j < |fmt| {
        known, s, used := PutConversion(put, s, fmt[j], a, ap', fl);
      }
      if known {
        ap := ap' + used;
        ghost var xs := Convert(fmt[j], a, ap', fl).value.0;
        FoldAppend(put, putdat, out, xs);
        Assoc(out, xs, Literal(fmt, j + 1, a, ap));
        out, i := out + xs, j + 1;
      } else {
        ap := ap';
        FoldAppend(put, putdat, out, [37]);
        Assoc(out, [37], Literal(fmt, start, a, ap));
        s, i := PutUnknown(put, s, fmt, start, j);
        out := out + [37];
      }
    }
  }
}
