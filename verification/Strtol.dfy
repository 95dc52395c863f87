/** strtol (lib/string.c), and that it reads back what printnum prints. */
module Strtol {
  import opened Wrappers
  import opened Mmu
  import opened EnvIds
  import opened Format

  /** The character at i, or the terminating NUL. */
  function CharAt(s: seq<int>, i: nat): int { if i < |s| then s[i] else 0 }

  function SkipBlanks(s: seq<int>, i: nat): (j: nat)
    requires i <= |s|
    ensures i <= j <= |s|
    decreases |s| - i
  {
    if i < |s| && (s[i] == 32 || s[i] == 9) then SkipBlanks(s, i + 1) else i
  }

  /** The digit value of a character in the largest base. */
  function DigitOf(c: int): Option<nat> {
    if 48 <= c <= 57 then Some(c - 48)
    else if 97 <= c <= 122 then Some(c - 87)
    else if 65 <= c <= 90 then Some(c - 55)
    else None
  }

  predicate IsDigitIn(c: int, base: int) {
    DigitOf(c).Some? && DigitOf(c).value < base
  }

  /** The digit loop: the value accumulates in a 32-bit long, overflow unnoticed. */
  function ParseDigits(s: seq<int>, i: nat, base: int, val: int): (int, nat)
    requires i <= |s|
    decreases |s| - i
  {
    if i < |s| && IsDigitIn(s[i], base)
    then ParseDigits(s, i + 1, base, ToInt32(val * base + DigitOf(s[i]).value))
    else (val, i)
  }

  /** After blanks and sign: the position of the first digit and the base in force. */
  function Prefix(s: seq<int>, i: nat, base: int): (r: (nat, int))
    requires i <= |s|
    ensures i <= r.0 <= |s|
  {
    if (base == 0 || base == 16) && CharAt(s, i) == 48 && CharAt(s, i + 1) == 120 then (i + 2, 16)
    else if base == 0 && CharAt(s, i) == 48 then (i + 1, 8)
    else if base == 0 then (i, 10)
    else (i, base)
  }

  /** strtol: the value and the end position. */
  function StrtolSpec(s: seq<int>, base: int): (int, nat) {
    var i := SkipBlanks(s, 0);
    var neg := CharAt(s, i) == 45;
    var j := if CharAt(s, i) == 43 || neg then i + 1 else i;
    var (k, b) := Prefix(s, j, base);
    var (val, end) := ParseDigits(s, k, b, 0);
    (if neg then ToInt32(-val) else val, end)
  }

  method TakeDigits(s: seq<int>, i0: nat, base: int) returns (val: int, i: nat)
    requires i0 <= |s|
    ensures (val, i) == ParseDigits(s, i0, base, 0)
  {
    hide ToInt32, DigitOf;
    i, val := i0, 0;
    while i < |s| && IsDigitIn(s[i], base)
      invariant i0 <= i <= |s| && ParseDigits(s, i, base, val) == ParseDigits(s, i0, base, 0)
    {
      val := ToInt32(val * base + DigitOf(s[i]).value);
      i := i + 1;
    }
  }

  method Strtol(s: seq<int>, base0: int) returns (val: int, end: nat)
    ensures (val, end) == StrtolSpec(s, base0)
  {
    hide ToInt32, DigitOf, ParseDigits;
    var i, neg, base := 0, false, base0;
    while i < |s| && (s[i] == 32 || s[i] == 9)
      invariant 0 <= i <= |s| && SkipBlanks(s, i) == SkipBlanks(s, 0)
    {
      i := i + 1;
    }
    if CharAt(s, i) == 43 {
      i := i + 1;
    } else if CharAt(s, i) == 45 {
      i, neg := i + 1, true;
    }
    ghost var j := i;
    if (base == 0 || base == 16) && CharAt(s, i) == 48 && CharAt(s, i + 1) == 120 {
      i, base := i + 2, 16;
    } else if base == 0 && CharAt(s, i) == 48 {
      i, base := i + 1, 8;
    } else if base == 0 {
      base := 10;
    }
    assert Prefix(s, j, base0) == (i, base);
    val, end := TakeDigits(s, i, base);
    if neg { val := ToInt32(-val); }
  }

  // ----- what printnum prints -----

  /** The digits of a number, most significant first. */
  function DigitsIn(num: nat, base: nat): seq<int>
    requires 2 <= base <= 16
    decreases num
  {
    (if num >= base then DigitsIn(Quot(num, base), base) else []) + [Digit(Rem(num, base))]
  }

  /** printnum prints the digits, padded on the left to the width: max(width, digits) characters in all. */
  lemma {:induction false} PrintNumIs(num: nat, base: nat, width: int, padc: int)
    requires 2 <= base <= 16
    ensures PrintNum(num, base, width, padc) == Pad(padc, width - |DigitsIn(num, base)|) + DigitsIn(num, base)
    ensures |PrintNum(num, base, width, padc)| == if width > |DigitsIn(num, base)| then width else |DigitsIn(num, base)|
    decreases num
  {
    if num >= base {
      PrintNumIs(Quot(num, base), base, width - 1, padc);
    }
  }

  predicate AllDigits(ds: seq<int>, base: int) {
    forall i :: 0 <= i < |ds| ==> IsDigitIn(ds[i], base)
  }

  lemma {:induction false} DigitsAreDigits(num: nat, base: nat)
    requires 2 <= base <= 16
    ensures AllDigits(DigitsIn(num, base), base) && |DigitsIn(num, base)| > 0
    decreases num
  {
    if num >= base {
      DigitsAreDigits(Quot(num, base), base);
    }
  }

  /** The value that the digit loop makes of a run of digits. */
  function Horner(ds: seq<int>, base: int, val: int): int
    requires AllDigits(ds, base)
    decreases |ds|
  {
    if ds == [] then val else ToInt32(Horner(ds[..|ds| - 1], base, val) * base + DigitOf(ds[|ds| - 1]).value)
  }

  lemma {:induction false} HornerFirst(ds: seq<int>, base: int, val: int)
    requires AllDigits(ds, base) && ds != []
    ensures Horner(ds, base, val) == Horner(ds[1..], base, ToInt32(val * base + DigitOf(ds[0]).value))
    decreases |ds|
  {
    var r := ds[..|ds| - 1];
    if r == [] {
      assert ds[1..] == [];
    } else {
      HornerFirst(r, base, val);
      assert ds[1..][..|ds| - 2] == r[1..];
    }
  }

  /** Digits at the end of a string are all consumed. */
  lemma {:induction false} ParseRun(pre: seq<int>, ds: seq<int>, base: int, val: int)
    requires AllDigits(ds, base)
    ensures ParseDigits(pre + ds, |pre|, base, val) == (Horner(ds, base, val), |pre + ds|)
    decreases |ds|
  {
    if ds != [] {
      var v := ToInt32(val * base + DigitOf(ds[0]).value);
      ParseRun(pre + [ds[0]], ds[1..], base, v);
      assert pre + [ds[0]] + ds[1..] == pre + ds;
      HornerFirst(ds, base, val);
    }
  }

  lemma Unwrapped(n: int)
    requires -0x8000_0000 <= n < 0x8000_0000
    ensures ToInt32(n) == n
  {
  }

  /** Wrapping early or late makes no difference. */
  lemma WrapStep(a: int, base: int, d: int)
    ensures ToInt32(ToInt32(a) * base + d) == ToInt32(a * base + d)
  {
    var k := (a + 0x8000_0000) / 0x1_0000_0000;
    assert ToInt32(a) == a - k * 0x1_0000_0000;
    assert (a - k * 0x1_0000_0000) * base == a * base - k * base * 0x1_0000_0000;
    WrapMultiple(a * base + d, -(k * base));
  }

  lemma WrapMultiple(x: int, m: int)
    ensures ToInt32(x + m * 0x1_0000_0000) == ToInt32(x)
  {
    var y := x + 0x8000_0000;
    assert (y + m * 0x1_0000_0000) % 0x1_0000_0000 == y % 0x1_0000_0000;
  }

  lemma DigitBack(d: nat)
    requires d < 16
    ensures DigitOf(Digit(d)) == Some(d)
  {
  }

  lemma DivMod(num: nat, base: nat)
    requires base >= 2
    ensures Quot(num, base) * base + Rem(num, base) == num
    ensures num < base ==> Rem(num, base) == num
  {
  }

  /** The digits of num are worth num, as a 32-bit number. */
  lemma {:induction false} HornerDigits(num: nat, base: nat)
    requires 2 <= base <= 16
    ensures AllDigits(DigitsIn(num, base), base)
    ensures Horner(DigitsIn(num, base), base, 0) == ToInt32(num)
    decreases num
  {
    DigitsAreDigits(num, base);
    var ds := DigitsIn(num, base);
    DivMod(num, base);
    DigitBack(Rem(num, base));
    hide ToInt32, DigitOf, Digit, AllDigits, Quot, Rem;
    if num >= base {
      HornerDigits(Quot(num, base), base);
      assert ds[..|ds| - 1] == DigitsIn(Quot(num, base), base);
      WrapStep(Quot(num, base), base, Rem(num, base));
    } else {
      assert ds[..|ds| - 1] == [];
    }
  }

  lemma {:induction false} HornerZeros(zs: seq<int>, base: int)
    requires base >= 1 && forall i :: 0 <= i < |zs| ==> zs[i] == 48
    ensures AllDigits(zs, base) && Horner(zs, base, 0) == 0
    decreases |zs|
  {
    if zs != [] { HornerZeros(zs[..|zs| - 1], base); }
  }

  lemma {:induction false} HornerAppend(xs: seq<int>, ds: seq<int>, base: int, val: int)
    requires AllDigits(xs, base) && AllDigits(ds, base)
    ensures AllDigits(xs + ds, base) && Horner(xs + ds, base, val) == Horner(ds, base, Horner(xs, base, val))
    decreases |ds|
  {
    if ds == [] {
      assert xs + ds == xs;
    } else {
      HornerAppend(xs, ds[..|ds| - 1], base, val);
      assert (xs + ds)[..|xs + ds| - 1] == xs + ds[..|ds| - 1];
    }
  }

  /** Zero-padded digits are worth the same. */
  lemma PaddedValue(num: nat, base: nat, n: int)
    requires 2 <= base <= 16
    ensures AllDigits(Pad(48, n) + DigitsIn(num, base), base)
    ensures Horner(Pad(48, n) + DigitsIn(num, base), base, 0) == ToInt32(num)
  {
    HornerZeros(Pad(48, n), base);
    HornerDigits(num, base);
    HornerAppend(Pad(48, n), DigitsIn(num, base), base, 0);
  }

  // ----- round trips -----

  lemma {:induction false} SkipRun(s: seq<int>, i: nat, j: nat)
    requires i <= j <= |s| && (forall k :: i <= k < j ==> s[k] == 32) && (j < |s| ==> s[j] != 32 && s[j] != 9)
    ensures SkipBlanks(s, i) == j
    decreases j - i
  {
    if i < j { SkipRun(s, i + 1, j); }
  }

  /** strtol on a run of digits behind blanks and perhaps a minus sign. */
  lemma StrtolRun(blanks: nat, neg: bool, ds: seq<int>, base: nat)
    requires 2 <= base <= 16 && AllDigits(ds, base) && ds != []
    ensures var s := seq(blanks, _ => 32) + (if neg then [45] else []) + ds;
      StrtolSpec(s, base) == (if neg then ToInt32(-Horner(ds, base, 0)) else Horner(ds, base, 0), |s|)
  {
    var pre := seq(blanks, _ => 32) + if neg then [45] else [];
    var s := pre + ds;
    SkipRun(s, 0, blanks);
    assert s[|pre|] == ds[0];
    assert IsDigitIn(ds[0], base) && IsDigitIn(ds[|ds| - 1], base);
    assert CharAt(s, |pre| + 1) != 120 by {
      if |ds| > 1 { assert s[|pre| + 1] == ds[1] && IsDigitIn(ds[1], base); }
    }
    ParseRun(pre, ds, base, 0);
  }

  /** Every number that printnum prints, padded with spaces or zeros, is read back to its end; the value is the
      number modulo 2^32, so the number itself below 2^31. */
  lemma PrintParse(num: nat, base: nat, width: int, padc: int)
    requires 2 <= base <= 16 && (padc == 32 || padc == 48)
    ensures var s := PrintNum(num, base, width, padc); StrtolSpec(s, base) == (ToInt32(num), |s|)
    ensures num < 0x8000_0000 ==> ToInt32(num) == num
  {
    hide ToInt32, PrintNum, DigitsIn, StrtolSpec, Horner, AllDigits;
    PrintNumIs(num, base, width, padc);
    DigitsAreDigits(num, base);
    HornerDigits(num, base);
    var ds, n := DigitsIn(num, base), width - |DigitsIn(num, base)|;
    if num < 0x8000_0000 { Unwrapped(num); }
    if padc == 32 {
      var k := if n > 0 then n else 0;
      StrtolRun(k, false, ds, base);
      assert Pad(32, n) == seq(k, _ => 32);
      assert seq(k, _ => 32) + [] + ds == Pad(32, n) + ds;
    } else {
      PaddedValue(num, base, n);
      StrtolRun(0, false, Pad(48, n) + ds, base);
      assert seq(0, _ => 32) + [] + (Pad(48, n) + ds) == Pad(48, n) + ds;
    }
  }

  lemma NegateWrapped(m: int)
    requires 0 <= m <= 0x8000_0000
    ensures ToInt32(-ToInt32(m)) == -m
  {
  }

  /** strtol stops at once where no digit follows a prefix. */
  lemma StrtolStops(s: seq<int>, base: nat)
    requires 2 <= base <= 16 && |s| >= 2 && s[0] == 45 && !IsDigitIn(s[1], base) && (base == 16 ==> s[1] != 48)
    ensures StrtolSpec(s, base) == (0, 1)
  {
  }

  /** A minus sign, zeros and digits. */
  lemma MinusParse(num: nat, zeros: int)
    requires num <= 0x8000_0000
    ensures var s := [45] + (Pad(48, zeros) + DigitsIn(num, 10)); StrtolSpec(s, 10) == (-(num as int), |s|)
  {
    hide ToInt32, StrtolSpec, Horner, AllDigits, DigitsIn, Pad;
    var ds := Pad(48, zeros) + DigitsIn(num, 10);
    PaddedValue(num, 10, zeros);
    DigitsAreDigits(num, 10);
    NegateWrapped(num);
    StrtolRun(0, true, ds, 10);
    assert seq(0, _ => 32) + [45] + ds == [45] + ds;
  }

  /** What %d prints for a 32-bit integer (-2^31 included) reads back, except a negative number behind which
      blanks were padded: there the minus sign stands alone and strtol returns 0. */
  lemma DecimalParse(n: int, width: int, padc: int)
    requires -0x8000_0000 <= n < 0x8000_0000 && (padc == 32 || padc == 48)
    ensures var s := Decimal(n, width, padc);
      StrtolSpec(s, 10) == (n, |s|) <==> n >= 0 || padc == 48 || width <= |DigitsIn(Abs(n), 10)|
  {
    hide ToInt32, Horner, AllDigits, DigitsIn, PrintNum, StrtolSpec;
    var num := Abs(n);
    var k, s := width - |DigitsIn(num, 10)|, Decimal(n, width, padc);
    PrintNumIs(num, 10, width, padc);
    DigitsAreDigits(num, 10);
    Unwrapped(n);
    if n >= 0 {
      PrintParse(num, 10, width, padc);
      assert s == PrintNum(num, 10, width, padc);
    } else if padc == 48 || k <= 0 {
      var p := if padc == 48 then k else 0;
      MinusParse(num, p);
      assert Pad(padc, k) == Pad(48, p);
      assert s == [45] + (Pad(48, p) + DigitsIn(num, 10));
    } else {
      assert s[0] == 45 && s[1] == 32 && |s| > 2;
      StrtolStops(s, 10);
    }
  }

  /** %p reads back in base 16, as a 32-bit number, unless blanks were padded between the 0x and the digits. */
  lemma PointerParse(p: nat, width: int, padc: int)
    requires padc == 32 || padc == 48
    ensures var s := [48, 120] + PrintNum(p, 16, width, padc);
      StrtolSpec(s, 16) == (ToInt32(p), |s|) <==> padc == 48 || width <= |DigitsIn(p, 16)|
  {
    PrintNumIs(p, 16, width, padc);
    DigitsAreDigits(p, 16);
    var ds0 := DigitsIn(p, 16);
    var k := width - |ds0|;
    var s := [48, 120] + PrintNum(p, 16, width, padc);
    HexPrefix(s);
    if padc == 48 || k <= 0 {
      var n := if padc == 48 then k else 0;
      PaddedValue(p, 16, n);
      assert Pad(padc, k) == Pad(48, n);
      ParseRun([48, 120], Pad(48, n) + ds0, 16, 0);
    } else {
      assert s[2] == 32;
      NoDigit(s, 2, 16);
    }
  }

  lemma HexPrefix(s: seq<int>)
    requires |s| >= 2 && s[0] == 48 && s[1] == 120
    ensures StrtolSpec(s, 16) == ParseDigits(s, 2, 16, 0)
  {
  }

  lemma NoDigit(s: seq<int>, i: nat, base: int)
    requires i < |s| && s[i] == 32
    ensures ParseDigits(s, i, base, 0) == (0, i)
  {
  }

  /** A width with the '-' flag pads numbers with minus signs on the left. Such output still reads back exactly
      when there is no padding, or when one minus sign stands before 0. */
  lemma DashPadding(num: nat, base: nat, width: int)
    requires 2 <= base <= 16 && num < 0x8000_0000
    ensures var s := PrintNum(num, base, width, 45);
      StrtolSpec(s, base) == (num as int, |s|) <==>
        width <= |DigitsIn(num, base)| || (num == 0 && width == |DigitsIn(num, base)| + 1)
  {
    hide ToInt32, Horner, AllDigits, DigitsIn, PrintNum, StrtolSpec;
    PrintNumIs(num, base, width, 45);
    DigitsAreDigits(num, base);
    HornerDigits(num, base);
    Unwrapped(num);
    Unwrapped(-(num as int));
    var ds, n, s := DigitsIn(num, base), width - |DigitsIn(num, base)|, PrintNum(num, base, width, 45);
    if n <= 0 {
      StrtolRun(0, false, ds, base);
      assert seq(0, _ => 32) + [] + ds == s;
    } else if n == 1 {
      StrtolRun(0, true, ds, base);
      assert seq(0, _ => 32) + [45] + ds == s;
    } else {
      assert s[0] == 45 && s[1] == 45 && |s| > 2;
      StrtolStops(s, base);
    }
  }

  lemma WordWrap(w: Word)
    ensures ToInt32(w) == Int32(w) && -0x8000_0000 <= Int32(w) < 0x8000_0000
  {
  }

  /** The base that each numeric conversion prints in. */
  function BaseOf(c: Byte): nat { if c == 100 || c == 117 then 10 else if c == 111 then 8 else 16 }

  /** %d, %u, %o, %x and %p all print an argument word so that strtol in the conversion's base returns the word, as
      a signed number, and consumes all of it; with zero padding to any width, or without a width. */
  lemma ConvertParse(c: Byte, a: Args, ap: nat, fl: Flags)
    requires c in {100, 117, 111, 120, 112} && fl.lflag < 2
    requires fl.padc == 48 || (fl.padc == 32 && fl.width <= 1)
    ensures Convert(c, a, ap, fl).Some? && Convert(c, a, ap, fl).value.1 == 1
    ensures var s := Convert(c, a, ap, fl).value.0; StrtolSpec(s, BaseOf(c)) == (Int32(a.word(ap)), |s|)
  {
    var w := a.word(ap);
    WordWrap(w);
    DigitsAreDigits(w, 16);
    DigitsAreDigits(Abs(Int32(w)), 10);
    hide ToInt32, Int32, StrtolSpec, PrintNum, Decimal, AllDigits, DigitsIn;
    if c == 100 {
      DecimalParse(Int32(w), fl.width, fl.padc);
    } else if c == 112 {
      PointerParse(w, fl.width, fl.padc);
    } else {
      PrintParse(w, BaseOf(c), fl.width, fl.padc);
    }
  }

  /** The same through vprintfmt: the format "%d" (or u, o, x, p) and strtol. */
  lemma FormatParse(c: Byte, a: Args, ap: nat)
    requires c in {100, 117, 111, 120, 112}
    ensures var s := Formatted([37, c], a, ap); StrtolSpec(s, BaseOf(c)) == (Int32(a.word(ap)), |s|)
  {
    ConvertParse(c, a, ap, START);
    var fmt: seq<Byte> := [37, c];
    hide StrtolSpec, Int32, Convert;
    assert Literal(fmt, 2, a, ap + 1) == [];
    assert Escape(fmt, 1, 1, a, ap, START) == Convert(c, a, ap, START).value.0;
    assert Formatted(fmt, a, ap) == Escape(fmt, 1, 1, a, ap, START);
  }
}
