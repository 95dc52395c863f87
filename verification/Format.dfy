/** The output of vprintfmt (lib/printfmt.c), as a function of the format and the arguments. Characters are what
    putch receives: integers. */
module Format {
  import opened Wrappers
  import opened Mmu
  import opened EnvIds

  /** A character of a C string, read unsigned: never the terminating NUL. */
  type Byte = b: int | 1 <= b < 256 witness 1

  /** The memory that a va_list walks: 32-bit stack words, and the NUL-terminated string at an address. */
  datatype Args = Args(word: nat -> Word, text: Word -> seq<Byte>)

  /** Two's complement readings of 32-bit and 64-bit words. */
  function Int32(w: Word): (r: int)
    ensures -0x8000_0000 <= r < 0x8000_0000 && (r == w || r == w as int - 0x1_0000_0000)
  {
    if w < 0x8000_0000 then w else w - 0x1_0000_0000
  }

  function Long64(lo: Word, hi: Word): nat { lo + 0x1_0000_0000 * hi }

  /** A plain char is signed. */
  function Signed(b: Byte): int { if b < 128 then b else b - 256 }

  // ----- printnum -----

  function Pad(c: int, n: int): (p: seq<int>)
    ensures |p| == (if n > 0 then n else 0) && forall i :: 0 <= i < |p| ==> p[i] == c
  {
    if n > 0 then seq(n, _ => c) else []
  }

  /** "0123456789abcdef"[d] */
  function Digit(d: nat): int
    requires d < 16
  {
    if d < 10 then 48 + d else 87 + d
  }

  /** num / base and num % base. */
  function Quot(num: nat, base: nat): (q: nat)
    requires base >= 2
    ensures num > 0 ==> q < num
  {
    if num > 0 then DivShrinks(num, base); num / base else 0
  }

  function Rem(num: nat, base: nat): (r: nat)
    requires base > 0
    ensures r < base
  {
    num % base
  }

  lemma DivShrinks(num: nat, base: nat)
    requires base >= 2 && num > 0
    ensures num / base < num
  {
    var q := num / base;
    if q >= num { MulAtLeast(base, q); }
  }

  lemma MulAtLeast(a: nat, b: nat)
    requires a >= 2
    ensures a * b >= 2 * b
  {
  }

  function PrintNum(num: nat, base: nat, width: int, padc: int): seq<int>
    requires 2 <= base <= 16
    decreases num
  {
    (if num >= base then PrintNum(Quot(num, base), base, width - 1, padc) else Pad(padc, width - 1))
    + [Digit(Rem(num, base))]
  }

  // ----- the state of an escape -----

  datatype Flags = Flags(padc: int, width: int, precision: int, lflag: nat, alt: bool)

  const START: Flags := Flags(32, -1, -1, 0, false)

  /** process_precision: the first number read is the width. */
  function TakeNumber(fl: Flags, n: int): Flags {
    if fl.width < 0 then fl.(width := n, precision := -1) else fl.(precision := n)
  }

  predicate IsDigit(c: Byte) { 48 <= c <= 57 }

  /** The digit loop of the width field: the number, and where it stops. */
  function Digits(fmt: seq<Byte>, i: nat, acc: int): (r: (int, nat))
    requires i <= |fmt|
    ensures i <= r.1 <= |fmt|
    decreases |fmt| - i
  {
    if i < |fmt| && IsDigit(fmt[i]) then Digits(fmt, i + 1, acc * 10 + fmt[i] - 48) else (acc, i)
  }

  /** getuint: the value and how many argument words it takes. */
  function GetUint(a: Args, ap: nat, lflag: nat): (nat, nat) {
    if lflag >= 2 then (Long64(a.word(ap), a.word(ap + 1)), 2) else (a.word(ap), 1)
  }

  function GetInt(a: Args, ap: nat, lflag: nat): (int, nat) {
    if lflag >= 2 then
      var u := Long64(a.word(ap), a.word(ap + 1));
      (if u < 0x8000_0000_0000_0000 then u else u - 0x1_0000_0000_0000_0000, 2)
    else (Int32(a.word(ap)), 1)
  }

  function Abs(n: int): (m: nat)
    ensures m == n || m == -n
  {
    if n < 0 then -n else n
  }

  function Decimal(n: int, width: int, padc: int): seq<int> {
    (if n < 0 then [45] else []) + PrintNum(Abs(n), 10, width, padc)
  }

  // ----- %s -----

  function Min(a: nat, b: nat): (m: nat)
    ensures m <= a && m <= b && (m == a || m == b)
  {
    if a <= b then a else b
  }

  /** How many characters of a string are printed. */
  function Printed(s: seq<Byte>, precision: int): nat {
    if precision < 0 then |s| else Min(|s|, precision)
  }

  function Shown(c: Byte, alt: bool): int {
    if alt && (Signed(c) < 32 || Signed(c) > 126) then 63 else Signed(c)
  }

  /** strnlen, whose size argument is the precision converted to unsigned. */
  function Measured(s: seq<Byte>, precision: int): nat { Min(|s|, precision % 0x1_0000_0000) }

  /** The string padded to the width: on the left with padc, or, when padc is '-', on the right with spaces. */
  function PrintString(s: seq<Byte>, fl: Flags): seq<int> {
    var k := Printed(s, fl.precision);
    (if fl.width > 0 && fl.padc != 45 then Pad(fl.padc, fl.width - Measured(s, fl.precision)) else [])
    + seq(k, i requires 0 <= i < k => Shown(s[i], fl.alt))
    + (if fl.width > 0 && fl.padc != 45 then [] else Pad(32, fl.width - k))
  }

  /** %s prints the first precision characters, padded to the width: max(width, printed) characters in all. */
  lemma StringWidth(s: seq<Byte>, fl: Flags)
    requires -0x8000_0000 <= fl.precision < 0x8000_0000 && |s| < 0x8000_0000
    ensures Measured(s, fl.precision) == Printed(s, fl.precision)
    ensures |PrintString(s, fl)| == if fl.width > Printed(s, fl.precision) then fl.width else Printed(s, fl.precision)
  {
    var m := fl.precision % 0x1_0000_0000;
    assert m == if fl.precision < 0 then fl.precision + 0x1_0000_0000 else fl.precision;
  }

  const NULL_TEXT: seq<Byte> := [40, 110, 117, 108, 108, 41]  // "(null)"

  function TextAt(a: Args, p: Word): seq<Byte> { if p == 0 then NULL_TEXT else a.text(p) }

  // ----- %e -----

  const UNSPECIFIED: seq<Byte> := [117, 110, 115, 112, 101, 99, 105, 102, 105, 101, 100, 32, 101, 114, 114, 111, 114]
  const BAD_ENV: seq<Byte> := [98, 97, 100, 32, 101, 110, 118, 105, 114, 111, 110, 109, 101, 110, 116]
  const INVAL: seq<Byte> := [105, 110, 118, 97, 108, 105, 100, 32, 112, 97, 114, 97, 109, 101, 116, 101, 114]
  const NO_MEM: seq<Byte> := [111, 117, 116, 32, 111, 102, 32, 109, 101, 109, 111, 114, 121]
  const NO_FREE_ENV: seq<Byte> := 
    [111, 117, 116, 32, 111, 102, 32, 101, 110, 118, 105, 114, 111, 110, 109, 101, 110, 116, 115]
  const FAULT: seq<Byte> := [115, 101, 103, 109, 101, 110, 116, 97, 116, 105, 111, 110, 32, 102, 97, 117, 108, 116]
  const ERROR_PREFIX: seq<int> := [101, 114, 114, 111, 114, 32]  // "error "

  /** error_string: codes 1 to 6 have a text; 0 and 7 (E_NO_SYS) do not. */
  function ErrorText(err: nat): Option<seq<Byte>> {
    if err == 1 then Some(UNSPECIFIED) else if err == 2 then Some(BAD_ENV) else if err == 3 then Some(INVAL)
    else if err == 4 then Some(NO_MEM) else if err == 5 then Some(NO_FREE_ENV) else if err == 6 then Some(FAULT)
    else None
  }

  function PrintError(err: int): seq<int> {
    match ErrorText(Abs(err))
    case Some(text) => PrintString(text, START)
    case None => ERROR_PREFIX + Decimal(Abs(err), -1, 32)
  }

  // ----- vprintfmt -----

  /** Literal mode at position i of the format, with ap arguments consumed. */
  function Literal(fmt: seq<Byte>, i: nat, a: Args, ap: nat): seq<int>
    requires i <= |fmt|
    decreases |fmt| - i, 0
  {
    if i == |fmt| then []
    else if fmt[i] != 37 then [fmt[i]] + Literal(fmt, i + 1, a, ap)
    else Escape(fmt, i + 1, i + 1, a, ap, START)
  }

  /** Inside an escape whose text starts at `start`, just behind the '%'. An unknown character (or the end of the
      format) prints the '%' and goes back to `start` in literal mode. */
  function Escape(fmt: seq<Byte>, start: nat, i: nat, a: Args, ap: nat, fl: Flags): seq<int>
    requires start <= i <= |fmt|
    decreases |fmt| - start, |fmt| - i + 1
  {
    if i == |fmt| then [37] + Literal(fmt, start, a, ap)
    else
      var c := fmt[i];
      if c == 45 then Escape(fmt, start, i + 1, a, ap, fl.(padc := 45))
      else if c == 48 then Escape(fmt, start, i + 1, a, ap, fl.(padc := 48))
      else if 49 <= c <= 57 then
        var (n, j) := Digits(fmt, i + 1, c - 48);
        Escape(fmt, start, j, a, ap, TakeNumber(fl, n))
      else if c == 42 then Escape(fmt, start, i + 1, a, ap + 1, TakeNumber(fl, Int32(a.word(ap))))
      else if c == 46 then Escape(fmt, start, i + 1, a, ap, if fl.width < 0 then fl.(width := 0) else fl)
      else if c == 35 then Escape(fmt, start, i + 1, a, ap, fl.(alt := true))
      else if c == 108 then Escape(fmt, start, i + 1, a, ap, fl.(lflag := fl.lflag + 1))
      else match Convert(c, a, ap, fl)
        case Some(r) => r.0 + Literal(fmt, i + 1, a, ap + r.1)
        case None => [37] + Literal(fmt, start, a, ap)
  }

  /** The conversions proper: what is printed and how many argument words it takes; None for anything else. */
  function Convert(c: Byte, a: Args, ap: nat, fl: Flags): Option<(seq<int>, nat)> {
    if c == 99 then Some(([Int32(a.word(ap))], 1))                          // %c
    else if c == 101 then Some((PrintError(Int32(a.word(ap))), 1))          // %e
    else if c == 115 then Some((PrintString(TextAt(a, a.word(ap)), fl), 1)) // %s
    else if c == 100 then                                                   // %d
      var (n, k) := GetInt(a, ap, fl.lflag);
      Some((Decimal(n, fl.width, fl.padc), k))
    else if c == 117 || c == 111 || c == 120 then                           // %u, %o, %x
      var (n, k) := GetUint(a, ap, fl.lflag);
      Some((PrintNum(n, if c == 117 then 10 else if c == 111 then 8 else 16, fl.width, fl.padc), k))
    else if c == 112 then Some(([48, 120] + PrintNum(a.word(ap), 16, fl.width, fl.padc), 1))  // %p
    else if c == 37 then Some(([37], 0))
    else None
  }

  function Formatted(fmt: seq<Byte>, a: Args, ap: nat): seq<int> { Literal(fmt, 0, a, ap) }

  // ----- what the format says about the output -----

  /** Text without '%' is copied. */
  lemma {:induction false} LiteralRun(fmt: seq<Byte>, i: nat, j: nat, a: Args, ap: nat)
    requires i <= j <= |fmt| && forall k :: i <= k < j ==> fmt[k] != 37
    ensures Literal(fmt, i, a, ap) ==
      seq(j - i, k requires 0 <= k < j - i => fmt[i + k] as int) + Literal(fmt, j, a, ap)
    decreases j - i
  {
    if i < j {
      LiteralRun(fmt, i + 1, j, a, ap);
      assert seq(j - i, k requires 0 <= k < j - i => fmt[i + k] as int)
          == [fmt[i]] + seq(j - i - 1, k requires 0 <= k < j - i - 1 => fmt[i + 1 + k] as int);
    }
  }

  predicate IsFlag(c: Byte) {
    c == 45 || 48 <= c <= 57 || c == 42 || c == 46 || c == 35 || c == 108
  }

  predicate IsConversion(c: Byte) {
    c == 99 || c == 101 || c == 115 || c == 100 || c == 117 || c == 111 || c == 120 || c == 112 || c == 37
  }

  function Stars(fmt: seq<Byte>, i: nat, j: nat): nat
    requires i <= j <= |fmt|
    decreases j - i
  {
    if i == j then 0 else (if fmt[i] == 42 then 1 else 0) + Stars(fmt, i + 1, j)
  }

  lemma {:induction false} DigitsStop(fmt: seq<Byte>, i: nat, j: nat, acc: int)
    requires i <= j <= |fmt| && (forall k :: i <= k < j ==> IsFlag(fmt[k])) && (j < |fmt| ==> !IsFlag(fmt[j]))
    ensures Digits(fmt, i, acc).1 <= j
    ensures Stars(fmt, i, j) == Stars(fmt, Digits(fmt, i, acc).1, j)
    decreases j - i
  {
    if i < j && IsDigit(fmt[i]) { DigitsStop(fmt, i + 1, j, acc * 10 + fmt[i] - 48); }
  }

  lemma NoConversion(c: Byte, a: Args, ap: nat, fl: Flags)
    requires !IsConversion(c)
    ensures Convert(c, a, ap, fl) == None
  {
  }

  /** An escape that ends in a character that is no conversion, or in the end of the format, is printed literally,
      '%' included, although its flags have been read and its stars have taken arguments. */
  lemma {:induction false} UnknownEscape(fmt: seq<Byte>, start: nat, i: nat, j: nat, a: Args, ap: nat, fl: Flags)
    requires start <= i <= j <= |fmt| && (forall k :: i <= k < j ==> IsFlag(fmt[k]))
    requires j < |fmt| ==> !IsFlag(fmt[j]) && !IsConversion(fmt[j])
    ensures Escape(fmt, start, i, a, ap, fl) == [37] + Literal(fmt, start, a, ap + Stars(fmt, i, j))
    decreases j - i
  {
    hide Convert, IsConversion, TakeNumber, Literal, Digits;
    if i == j {
      if j < |fmt| { NoConversion(fmt[j], a, ap, fl); }
    } else {
      var c := fmt[i];
      if 49 <= c <= 57 {
        DigitsStop(fmt, i + 1, j, c - 48);
        var (n, k) := Digits(fmt, i + 1, c - 48);
        UnknownEscape(fmt, start, k, j, a, ap, TakeNumber(fl, n));
      } else {
        var ap' := if c == 42 then ap + 1 else ap;
        var fl' := if c == 45 then fl.(padc := 45) else if c == 48 then fl.(padc := 48)
                   else if c == 42 then TakeNumber(fl, Int32(a.word(ap)))
                   else if c == 46 then (if fl.width < 0 then fl.(width := 0) else fl)
                   else if c == 35 then fl.(alt := true) else fl.(lflag := fl.lflag + 1);
        UnknownEscape(fmt, start, i + 1, j, a, ap', fl');
      }
    }
  }
}
