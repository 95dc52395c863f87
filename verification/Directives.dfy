/** What a format string means, piece by piece: plain text, and directives written as the comments of lib/printfmt.c
    describe them. Which characters stand where in the output is said by position. */
module Directives {
  import opened Wrappers
  import opened Arith
  import opened Mmu
  import opened Format
  import opened Strtol

  // ----- directives and their spelling -----

  /** `#`, `0` and `-` */
  datatype Mark = Hash | Nought | Minus

  datatype PadFlag = Blank | Zero | Dash

  /** A width or a precision: none, a number in the format, or '*'. */
  datatype Field = Absent | Fixed(n: nat) | Star

  /** `%`, then any of `#`, `0` and `-`, a width, `.` and a precision, any number of `l`, and the conversion. */
  datatype Directive = Directive(marks: seq<Mark>, width: Field, precision: Field, longs: nat, conv: Byte)

  function AltOf(marks: seq<Mark>): bool { Hash in marks }

  /** The last of the padding marks counts; p if there is none. */
  function PadFrom(marks: seq<Mark>, p: PadFlag): PadFlag {
    if marks == [] then p
    else PadFrom(marks[1..], match marks[0] case Hash => p case Nought => Zero case Minus => Dash)
  }

  function PadOf(marks: seq<Mark>): PadFlag { PadFrom(marks, Blank) }

  /** A piece of a format. */
  datatype Piece = Text(text: seq<Byte>) | Conv(d: Directive)

  /** A number in a format does not begin with 0, which would be the flag. */
  predicate Spellable(d: Directive) {
    && (d.width.Fixed? ==> d.width.n > 0) && (d.precision.Fixed? ==> d.precision.n > 0)
    && IsConversion(d.conv)
  }

  function Dec(n: nat): (r: seq<Byte>)
    ensures |r| > 0 && (forall k :: 0 <= k < |r| ==> IsDigit(r[k])) && (n > 0 ==> r[0] > 48)
    decreases n
  {
    if n < 10 then ['0' as int + n] else Dec(n / 10) + ['0' as int + n % 10]
  }

  function FieldText(x: Field): seq<Byte> {
    match x
    case Absent => []
    case Fixed(n) => Dec(n)
    case Star => ['*' as int]
  }

  function MarkText(m: Mark): Byte {
    match m
    case Hash => '#' as int
    case Nought => '0' as int
    case Minus => '-' as int
  }

  function MarksText(marks: seq<Mark>): seq<Byte> { seq(|marks|, k requires 0 <= k < |marks| => MarkText(marks[k])) }

  function Longs(n: nat): seq<Byte> { seq(n, _ => 'l' as int) }

  /** The part in front of the conversion character. */
  function Spelling(d: Directive): seq<Byte> {
    ['%' as int] + MarksText(d.marks) + FieldText(d.width)
    + (if d.precision.Absent? then [] else ['.' as int]) + FieldText(d.precision) + Longs(d.longs) + [d.conv]
  }

  function SpellAll(ps: seq<Piece>): seq<Byte> {
    if ps == [] then []
    else (match ps[0] case Text(t) => t case Conv(d) => Spelling(d)) + SpellAll(ps[1..])
  }

  // ----- what a directive takes and prints -----

  function FieldWords(x: Field): nat { if x.Star? then 1 else 0 }

  function FieldValue(x: Field, a: Args, ap: nat): int {
    match x
    case Absent => -1
    case Fixed(n) => n
    case Star => Int32(a.word(ap))
  }

  function PadChar(p: PadFlag): int {
    match p
    case Blank => ' ' as int
    case Zero => '0' as int
    case Dash => '-' as int
  }

  /** The flags with which the conversion is reached. A precision makes an absent width 0. */
  function FlagsOf(d: Directive, a: Args, ap: nat): Flags {
    var w := FieldValue(d.width, a, ap);
    Flags(PadChar(PadOf(d.marks)), if !d.precision.Absent? && w < 0 then 0 else w,
          FieldValue(d.precision, a, ap + FieldWords(d.width)), d.longs, AltOf(d.marks))
  }

  function StarWords(d: Directive): nat { FieldWords(d.width) + FieldWords(d.precision) }

  function Printing(d: Directive, a: Args, ap: nat): seq<int>
    requires IsConversion(d.conv)
  {
    Convert(d.conv, a, ap + StarWords(d), FlagsOf(d, a, ap)).value.0
  }

  /** How many argument words it takes: two for a long long number, none for %%, one otherwise, and one for each
      star. */
  function Words(d: Directive): nat {
    StarWords(d) + if d.conv == '%' as int then 0
                   else if d.longs >= 2 && d.conv in {'d' as int, 'u' as int, 'o' as int, 'x' as int} then 2 else 1
  }

  function PrintAll(ps: seq<Piece>, a: Args, ap: nat): seq<int>
    requires PiecesOk(ps)
    decreases |ps|
  {
    if ps == [] then []
    else
      PiecesRest(ps);
      match ps[0]
      case Text(t) => seq(|t|, k requires 0 <= k < |t| => t[k] as int) + PrintAll(ps[1..], a, ap)
      case Conv(d) => Printing(d, a, ap) + PrintAll(ps[1..], a, ap + Words(d))
  }

  // ----- reading a directive -----

  predicate At(fmt: seq<Byte>, i: nat, t: seq<Byte>) { i + |t| <= |fmt| && fmt[i..i + |t|] == t }

  lemma AtAppend(fmt: seq<Byte>, i: nat, t: seq<Byte>, u: seq<Byte>)
    ensures At(fmt, i, t + u) <==> At(fmt, i, t) && At(fmt, i + |t|, u)
  {
    if i + |t| + |u| <= |fmt| {
      assert fmt[i..i + |t + u|] == fmt[i..i + |t|] + fmt[i + |t|..i + |t| + |u|];
      if At(fmt, i, t + u) {
        assert (t + u)[..|t|] == t && (t + u)[|t|..] == u;
        assert fmt[i..i + |t + u|][..|t|] == fmt[i..i + |t|];
        assert fmt[i..i + |t + u|][|t|..] == fmt[i + |t|..i + |t| + |u|];
      }
    }
  }

  /** The digit loop on the digits of a number. */
  lemma {:induction false} DigitsOfNumber(fmt: seq<Byte>, i: nat, n: nat)
    requires At(fmt, i, Dec(n))
    ensures Digits(fmt, i + 1, fmt[i] as int - 48) == Digits(fmt, i + |Dec(n)|, n)
    decreases n
  {
    if n >= 10 {
      var t := Dec(n / 10);
      AtAppend(fmt, i, t, [48 + n % 10]);
      DigitsOfNumber(fmt, i, n / 10);
      assert fmt[i + |t|] == 48 + n % 10;
    }
  }

  /** The flags after one mark. */
  function Marked(fl: Flags, m: Mark): Flags {
    match m
    case Hash => fl.(alt := true)
    case Nought => fl.(padc := '0' as int)
    case Minus => fl.(padc := '-' as int)
  }

  function MarkedBy(fl: Flags, marks: seq<Mark>): Flags
    decreases |marks|
  {
    if marks == [] then fl else MarkedBy(Marked(fl, marks[0]), marks[1..])
  }

  lemma {:induction false} MarksMean(fl: Flags, marks: seq<Mark>, p: PadFlag)
    requires fl.padc == PadChar(p)
    ensures MarkedBy(fl, marks) == fl.(alt := fl.alt || AltOf(marks), padc := PadChar(PadFrom(marks, p)))
    decreases |marks|
  {
    if marks != [] {
      MarksMean(Marked(fl, marks[0]), marks[1..], match marks[0] case Hash => p case Nought => Zero case Minus => Dash);
    }
  }

  lemma {:induction false} ReadMarks(fmt: seq<Byte>, start: nat, i: nat, a: Args, ap: nat, fl: Flags, marks: seq<Mark>)
    requires start <= i <= |fmt| && At(fmt, i, MarksText(marks))
    ensures Escape(fmt, start, i, a, ap, fl) == Escape(fmt, start, i + |marks|, a, ap, MarkedBy(fl, marks))
    decreases |marks|
  {
    hide Escape, Marked;
    if marks != [] {
      assert MarksText(marks) == [MarkText(marks[0])] + MarksText(marks[1..]);
      AtAppend(fmt, i, [MarkText(marks[0])], MarksText(marks[1..]));
      MarkStep(fmt, start, i, a, ap, fl, marks[0]);
      ReadMarks(fmt, start, i + 1, a, ap, Marked(fl, marks[0]), marks[1..]);
    }
  }

  lemma MarkStep(fmt: seq<Byte>, start: nat, i: nat, a: Args, ap: nat, fl: Flags, m: Mark)
    requires start <= i && At(fmt, i, [MarkText(m)])
    ensures Escape(fmt, start, i, a, ap, fl) == Escape(fmt, start, i + 1, a, ap, Marked(fl, m))
  {
    assert fmt[i] == MarkText(m);
    hide Digits, Convert, TakeNumber;
  }

  lemma ReadField(fmt: seq<Byte>, start: nat, i: nat, a: Args, ap: nat, fl: Flags, x: Field)
    requires start <= i && At(fmt, i, FieldText(x)) && (x.Fixed? ==> x.n > 0)
    requires i + |FieldText(x)| < |fmt| && !IsDigit(fmt[i + |FieldText(x)|])
    ensures Escape(fmt, start, i, a, ap, fl) ==
      Escape(fmt, start, i + |FieldText(x)|, a, ap + FieldWords(x),
             if x.Absent? then fl else TakeNumber(fl, FieldValue(x, a, ap)))
  {
    hide *;
    FieldParts(x, a, ap);
    match x {
      case Absent =>
      case Fixed(n) => ReadNumber(fmt, start, i, a, ap, fl, n);
      case Star => StarStep(fmt, start, i, a, ap, fl);
    }
  }

  lemma FieldParts(x: Field, a: Args, ap: nat)
    ensures FieldText(x) == match x case Absent => [] case Fixed(n) => Dec(n) case Star => ['*' as int]
    ensures FieldValue(x, a, ap) == match x case Absent => -1 case Fixed(n) => n as int case Star => Int32(a.word(ap))
    ensures FieldWords(x) == if x.Star? then 1 else 0
  {
  }

  lemma StarStep(fmt: seq<Byte>, start: nat, i: nat, a: Args, ap: nat, fl: Flags)
    requires start <= i && At(fmt, i, ['*' as int])
    ensures Escape(fmt, start, i, a, ap, fl) ==
      Escape(fmt, start, i + 1, a, ap + 1, TakeNumber(fl, Int32(a.word(ap))))
  {
    assert fmt[i] == 42;
    hide Digits, Convert, TakeNumber;
  }

  lemma ReadNumber(fmt: seq<Byte>, start: nat, i: nat, a: Args, ap: nat, fl: Flags, n: nat)
    requires start <= i && At(fmt, i, Dec(n)) && n > 0
    requires i + |Dec(n)| < |fmt| && !IsDigit(fmt[i + |Dec(n)|])
    ensures Escape(fmt, start, i, a, ap, fl) == Escape(fmt, start, i + |Dec(n)|, a, ap, TakeNumber(fl, n))
  {
    hide *;
    DigitsOfNumber(fmt, i, n);
    NumberStep(fmt, start, i, a, ap, fl, n);
    DigitsEnd(fmt, i + |Dec(n)|, n);
  }

  lemma NumberStep(fmt: seq<Byte>, start: nat, i: nat, a: Args, ap: nat, fl: Flags, n: nat)
    requires start <= i && At(fmt, i, Dec(n)) && n > 0
    ensures i + 1 <= |fmt|
    ensures var (m, j) := Digits(fmt, i + 1, fmt[i] as int - 48);
      Escape(fmt, start, i, a, ap, fl) == Escape(fmt, start, j, a, ap, TakeNumber(fl, m))
  {
    assert fmt[i] == Dec(n)[0];
    hide Digits, Convert, Dec;
  }

  lemma DigitsEnd(fmt: seq<Byte>, j: nat, n: nat)
    requires j < |fmt| && !IsDigit(fmt[j])
    ensures Digits(fmt, j, n) == (n, j)
  {
  }

  lemma ReadPoint(fmt: seq<Byte>, start: nat, i: nat, a: Args, ap: nat, fl: Flags)
    requires start <= i && At(fmt, i, [46])
    ensures Escape(fmt, start, i, a, ap, fl) ==
      Escape(fmt, start, i + 1, a, ap, if fl.width < 0 then fl.(width := 0) else fl)
  {
    assert fmt[i] == 46;
  }

  lemma {:induction false} ReadLongs(fmt: seq<Byte>, start: nat, i: nat, a: Args, ap: nat, fl: Flags, n: nat)
    requires start <= i <= |fmt| && At(fmt, i, Longs(n))
    ensures Escape(fmt, start, i, a, ap, fl) == Escape(fmt, start, i + n, a, ap, fl.(lflag := fl.lflag + n))
    decreases n
  {
    hide Escape;
    if n == 0 {
      assert fl.(lflag := fl.lflag + n) == fl;
    } else {
      assert Longs(n) == [108] + Longs(n - 1);
      AtAppend(fmt, i, [108], Longs(n - 1));
      LongStep(fmt, start, i, a, ap, fl);
      ReadLongs(fmt, start, i + 1, a, ap, fl.(lflag := fl.lflag + 1), n - 1);
    }
  }

  lemma LongStep(fmt: seq<Byte>, start: nat, i: nat, a: Args, ap: nat, fl: Flags)
    requires start <= i && At(fmt, i, [108])
    ensures Escape(fmt, start, i, a, ap, fl) == Escape(fmt, start, i + 1, a, ap, fl.(lflag := fl.lflag + 1))
  {
    assert fmt[i] == 108;
    hide Convert;
  }

  lemma ReadConversion(fmt: seq<Byte>, start: nat, i: nat, a: Args, ap: nat, fl: Flags, c: Byte)
    requires start <= i && At(fmt, i, [c]) && IsConversion(c)
    ensures Convert(c, a, ap, fl).Some? && i < |fmt|
    ensures Escape(fmt, start, i, a, ap, fl) ==
      Convert(c, a, ap, fl).value.0 + Literal(fmt, i + 1, a, ap + Convert(c, a, ap, fl).value.1)
  {
    assert fmt[i] == c;
  }

  /** Where the parts of a directive stand. */
  lemma Parts(fmt: seq<Byte>, i: nat, d: Directive)
    requires At(fmt, i, Spelling(d))
    ensures At(fmt, i, [37]) && At(fmt, i + 1, MarksText(d.marks))
    ensures var j1 := i + 1 + |d.marks|;
      var j2 := j1 + |FieldText(d.width)|;
      var j3 := j2 + if d.precision.Absent? then 0 else 1;
      var j4 := j3 + |FieldText(d.precision)|;
      && At(fmt, j1, FieldText(d.width))
      && At(fmt, j2, if d.precision.Absent? then [] else [46]) && At(fmt, j3, FieldText(d.precision))
      && At(fmt, j4, Longs(d.longs)) && At(fmt, j4 + d.longs, [d.conv])
      && i + |Spelling(d)| == j4 + d.longs + 1
  {
    hide *;
    var t0, t1, t3 := [37], MarksText(d.marks), FieldText(d.width);
    var t4, t5, t6, t7 := if d.precision.Absent? then [] else [46], FieldText(d.precision), Longs(d.longs), [d.conv];
    SpellingIs(d);
    AtAppend(fmt, i, t0 + t1 + t3 + t4 + t5 + t6, t7);
    AtAppend(fmt, i, t0 + t1 + t3 + t4 + t5, t6);
    AtAppend(fmt, i, t0 + t1 + t3 + t4, t5);
    AtAppend(fmt, i, t0 + t1 + t3, t4);
    AtAppend(fmt, i, t0 + t1, t3);
    AtAppend(fmt, i, t0, t1);
  }

  lemma SpellingIs(d: Directive)
    ensures |Longs(d.longs)| == d.longs && |MarksText(d.marks)| == |d.marks|
    ensures Spelling(d) == [37] + MarksText(d.marks) + FieldText(d.width)
      + (if d.precision.Absent? then [] else [46]) + FieldText(d.precision) + Longs(d.longs) + [d.conv]
  {
  }

  lemma FirstChar(fmt: seq<Byte>, i: nat, d: Directive)
    requires At(fmt, i, Spelling(d))
    ensures i < i + |Spelling(d)| <= |fmt| && fmt[i] == 37
  {
    assert Spelling(d)[0] == 37;
  }

  /** What stands behind the width, and behind the precision, is no digit. */
  lemma BehindNumbers(fmt: seq<Byte>, d: Directive, j2: nat, j3: nat, j4: nat)
    requires Spellable(d) && j4 == j3 + |FieldText(d.precision)|
    requires j3 == j2 + if d.precision.Absent? then 0 else 1
    requires At(fmt, j2, if d.precision.Absent? then [] else [46])
    requires At(fmt, j4, Longs(d.longs)) && At(fmt, j4 + d.longs, [d.conv])
    ensures j2 < |fmt| && !IsDigit(fmt[j2]) && j4 < |fmt| && !IsDigit(fmt[j4])
  {
    assert fmt[j4 + d.longs] == d.conv;
    if d.longs > 0 { assert fmt[j4] == Longs(d.longs)[0]; }
    if !d.precision.Absent? { assert fmt[j2] == 46; }
  }

  /** A directive, wherever it stands in a format, prints what its conversion prints with its flags and fields, and
      takes that many arguments; then the text behind it is next. */
  lemma ReadDirective(fmt: seq<Byte>, i: nat, d: Directive, a: Args, ap: nat)
    requires Spellable(d) && At(fmt, i, Spelling(d))
    ensures Literal(fmt, i, a, ap) == Printing(d, a, ap) + Literal(fmt, i + |Spelling(d)|, a, ap + Words(d))
  {
    hide *;
    Parts(fmt, i, d);
    FirstChar(fmt, i, d);
    var j1 := i + 1 + |d.marks|;
    var j2 := j1 + |FieldText(d.width)|;
    var j3 := j2 + if d.precision.Absent? then 0 else 1;
    var j4 := j3 + |FieldText(d.precision)|;
    var s := i + 1;
    BehindNumbers(fmt, d, j2, j3, j4);
    ConvertWords(d, a, ap);
    FlagSteps(d, a, ap);
    LiteralStep(fmt, i, a, ap);
    var fl2 := MarkedBy(START, d.marks);
    var fl3 := if d.width.Absent? then fl2 else TakeNumber(fl2, FieldValue(d.width, a, ap));
    var fl4 := if d.precision.Absent? then fl3 else if fl3.width < 0 then fl3.(width := 0) else fl3;
    var ap1 := ap + FieldWords(d.width);
    var fl5 := if d.precision.Absent? then fl4 else TakeNumber(fl4, FieldValue(d.precision, a, ap1));
    ReadMarks(fmt, s, s, a, ap, START, d.marks);
    ReadField(fmt, s, j1, a, ap, fl2, d.width);
    if !d.precision.Absent? { ReadPoint(fmt, s, j2, a, ap1, fl3); }
    ReadField(fmt, s, j3, a, ap1, fl4, d.precision);
    ReadLongs(fmt, s, j4, a, ap + StarWords(d), fl5, d.longs);
    ReadConversion(fmt, s, j4 + d.longs, a, ap + StarWords(d), FlagsOf(d, a, ap), d.conv);
  }

  lemma LiteralStep(fmt: seq<Byte>, i: nat, a: Args, ap: nat)
    requires i < |fmt| && fmt[i] == 37
    ensures Literal(fmt, i, a, ap) == Escape(fmt, i + 1, i + 1, a, ap, START)
  {
  }

  /** The flags after each part of a directive. */
  lemma FlagSteps(d: Directive, a: Args, ap: nat)
    requires Spellable(d)
    ensures IsConversion(d.conv)
    ensures (d.width.Fixed? ==> d.width.n > 0) && (d.precision.Fixed? ==> d.precision.n > 0)
    ensures StarWords(d) == FieldWords(d.width) + FieldWords(d.precision)
    ensures var fl2 := MarkedBy(START, d.marks);
      var fl3 := if d.width.Absent? then fl2 else TakeNumber(fl2, FieldValue(d.width, a, ap));
      var fl4 := if d.precision.Absent? then fl3 else if fl3.width < 0 then fl3.(width := 0) else fl3;
      var fl5 := if d.precision.Absent? then fl4
        else TakeNumber(fl4, FieldValue(d.precision, a, ap + FieldWords(d.width)));
      FlagsOf(d, a, ap) == fl5.(lflag := fl5.lflag + d.longs)
  {
    MarksMean(START, d.marks, Blank);
    hide MarkedBy, PadOf, AltOf;
  }

  lemma ConvertWords(d: Directive, a: Args, ap: nat)
    requires Spellable(d)
    ensures var r := Convert(d.conv, a, ap + StarWords(d), FlagsOf(d, a, ap));
      r.Some? && StarWords(d) + r.value.1 == Words(d) && Printing(d, a, ap) == r.value.0
  {
    hide PrintNum, PrintString, PrintError, Decimal;
  }

  /** Directives that can be spelled, and text without '%'. */
  predicate PiecesOk(ps: seq<Piece>) {
    forall p :: p in ps ==> if p.Conv? then Spellable(p.d) else forall k :: 0 <= k < |p.text| ==> p.text[k] != 37
  }

  lemma {:induction false} ReadPieces(fmt: seq<Byte>, i: nat, ps: seq<Piece>, a: Args, ap: nat)
    requires PiecesOk(ps) && At(fmt, i, SpellAll(ps)) && i + |SpellAll(ps)| == |fmt|
    ensures Literal(fmt, i, a, ap) == PrintAll(ps, a, ap)
    decreases |ps|
  {
    hide *;
    PiecesStep(ps, fmt, i, a, ap);
    if ps != [] {
      match ps[0] {
        case Text(t) =>
          AtAppend(fmt, i, t, SpellAll(ps[1..]));
          ReadPieces(fmt, i + |t|, ps[1..], a, ap);
          ReadText(fmt, i, t, a, ap);
        case Conv(d) =>
          AtAppend(fmt, i, Spelling(d), SpellAll(ps[1..]));
          ReadPieces(fmt, i + |Spelling(d)|, ps[1..], a, ap + Words(d));
          ReadDirective(fmt, i, d, a, ap);
      }
    }
  }

  lemma PiecesStep(ps: seq<Piece>, fmt: seq<Byte>, i: nat, a: Args, ap: nat)
    requires PiecesOk(ps) && i + |SpellAll(ps)| == |fmt|
    ensures ps == [] ==> Literal(fmt, i, a, ap) == PrintAll(ps, a, ap)
    ensures ps != [] ==> PiecesOk(ps[1..])
    ensures ps != [] && ps[0].Conv? ==>
      && Spellable(ps[0].d) && IsConversion(ps[0].d.conv)
      && SpellAll(ps) == Spelling(ps[0].d) + SpellAll(ps[1..])
      && PrintAll(ps, a, ap) == Printing(ps[0].d, a, ap) + PrintAll(ps[1..], a, ap + Words(ps[0].d))
    ensures ps != [] && ps[0].Text? ==>
      && (forall k :: 0 <= k < |ps[0].text| ==> ps[0].text[k] != 37)
      && SpellAll(ps) == ps[0].text + SpellAll(ps[1..])
      && PrintAll(ps, a, ap) ==
         seq(|ps[0].text|, k requires 0 <= k < |ps[0].text| => ps[0].text[k] as int) + PrintAll(ps[1..], a, ap)
  {
    if ps != [] { PiecesRest(ps); }
  }

  lemma PiecesRest(ps: seq<Piece>)
    requires PiecesOk(ps) && ps != []
    ensures PiecesOk(ps[1..])
    ensures ps[0].Conv? ==> Spellable(ps[0].d)
    ensures ps[0].Text? ==> forall k :: 0 <= k < |ps[0].text| ==> ps[0].text[k] != 37
  {
    assert ps[0] in ps && forall p :: p in ps[1..] ==> p in ps;
  }

  lemma ReadText(fmt: seq<Byte>, i: nat, t: seq<Byte>, a: Args, ap: nat)
    requires At(fmt, i, t) && forall k :: 0 <= k < |t| ==> t[k] != 37
    ensures Literal(fmt, i, a, ap) == seq(|t|, k requires 0 <= k < |t| => t[k] as int) + Literal(fmt, i + |t|, a, ap)
  {
    forall k | i <= k < i + |t| ensures fmt[k] == t[k - i] {
    }
    LiteralRun(fmt, i, i + |t|, a, ap);
    assert seq(|t|, k requires 0 <= k < |t| => fmt[i + k] as int) == seq(|t|, k requires 0 <= k < |t| => t[k] as int);
  }

  /** vprintfmt on a whole format: the text as it stands, and each directive with the next arguments. */
  lemma FormatPieces(ps: seq<Piece>, a: Args, ap: nat)
    requires PiecesOk(ps)
    ensures Formatted(SpellAll(ps), a, ap) == PrintAll(ps, a, ap)
  {
    ReadPieces(SpellAll(ps), 0, ps, a, ap);
  }

  lemma FormatOne(d: Directive, a: Args, ap: nat)
    requires Spellable(d)
    ensures Formatted(Spelling(d), a, ap) == Printing(d, a, ap)
  {
    ReadDirective(Spelling(d), 0, d, a, ap);
  }

  // ----- what stands where -----

  /** The characters of a C string literal. */
  function Chars(s: string): (r: seq<int>)
    ensures |r| == |s| && forall i :: 0 <= i < |s| ==> r[i] == s[i] as int
  {
    seq(|s|, i requires 0 <= i < |s| => s[i] as int)
  }

  /** The bytes of the string argument at word ap. */
  function StringAt(a: Args, ap: nat): seq<int> {
    if a.word(ap) == 0 then Chars("(null)")
    else seq(|a.text(a.word(ap))|, i requires 0 <= i < |a.text(a.word(ap))| => a.text(a.word(ap))[i] as int)
  }

  lemma TextIsString(a: Args, ap: nat)
    ensures var t := TextAt(a, a.word(ap));
      |t| == |StringAt(a, ap)| && forall i :: 0 <= i < |t| ==> t[i] == StringAt(a, ap)[i]
  {
    assert Chars("(null)") == [40, 110, 117, 108, 108, 41];
  }

  /** How %s lays out the string t for width w and precision m (negative for none): at most m bytes of it, each as a
      signed char or, under '#', as '?' if it is not in ' '..'~'; blanks or zeros on the left up to the width, or, with
      '-', blanks on the right. */
  ghost predicate StringOut(out: seq<int>, t: seq<int>, w: int, m: int, p: PadFlag, alt: bool) {
    var n := if 0 <= m < |t| then m else |t|;
    var pad := if w > n then w - n else 0;
    var left := if p == Dash then 0 else pad;
    && |out| == n + pad
    && (forall i :: 0 <= i < left ==> out[i] == if p == Zero then '0' as int else ' ' as int)
    && (forall i :: left + n <= i < |out| ==> out[i] == ' ' as int)
    && (forall i :: 0 <= i < n ==>
        out[left + i] == if alt && !(32 <= t[i] <= 126) then '?' as int else if t[i] < 128 then t[i] else t[i] - 256)
  }

  /** %s with any flags, width and precision. */
  lemma FormatString(d: Directive, a: Args, ap: nat)
    requires Spellable(d) && d.conv == 's' as int && |StringAt(a, ap + StarWords(d))| < 0x8000_0000
    requires d.precision.Fixed? ==> d.precision.n < 0x8000_0000
    ensures StringOut(Formatted(Spelling(d), a, ap), StringAt(a, ap + StarWords(d)), FieldValue(d.width, a, ap),
                      FieldValue(d.precision, a, ap + FieldWords(d.width)), PadOf(d.marks), AltOf(d.marks))
  {
    hide *;
    FormatOne(d, a, ap);
    StringPrinting(d, a, ap);
    TextIsString(a, ap + StarWords(d));
    var t, fl := TextAt(a, a.word(ap + StarWords(d))), FlagsOf(d, a, ap);
    StringAs(t, StringAt(a, ap + StarWords(d)), fl, FieldValue(d.width, a, ap), PadOf(d.marks));
  }

  lemma StringPrinting(d: Directive, a: Args, ap: nat)
    requires Spellable(d) && d.conv == 's' as int && (d.precision.Fixed? ==> d.precision.n < 0x8000_0000)
    ensures IsConversion(d.conv)
    ensures var fl := FlagsOf(d, a, ap);
      && Printing(d, a, ap) == PrintString(TextAt(a, a.word(ap + StarWords(d))), fl)
      && SameWidth(fl.width, FieldValue(d.width, a, ap))
      && fl.padc == PadChar(PadOf(d.marks)) && fl.alt == AltOf(d.marks)
      && fl.precision == FieldValue(d.precision, a, ap + FieldWords(d.width))
      && -0x8000_0000 <= fl.precision < 0x8000_0000
  {
    hide PrintString;
  }

  predicate SameWidth(v: int, w: int) { v == w || (v <= 0 && w <= 0) }

  /** The three parts of %s. */
  lemma StringAs(t: seq<Byte>, u: seq<int>, fl: Flags, w: int, p: PadFlag)
    requires |u| == |t| < 0x8000_0000 && forall i :: 0 <= i < |t| ==> u[i] == t[i]
    requires -0x8000_0000 <= fl.precision < 0x8000_0000 && SameWidth(fl.width, w) && fl.padc == PadChar(p)
    ensures StringOut(PrintString(t, fl), u, w, fl.precision, p, fl.alt)
  {
    hide *;
    var n := Printed(t, fl.precision);
    StringParts(t, fl);
    var mid := seq(n, i requires 0 <= i < n => Shown(t[i], fl.alt));
    forall i | 0 <= i < n
      ensures mid[i] == if fl.alt && !(32 <= u[i] <= 126) then 63 else if u[i] < 128 then u[i] else u[i] - 256
    {
      ShownIs(t[i], fl.alt);
    }
    LaidOut(mid, u, fl.width, w, fl.precision, p, fl.alt);
  }

  lemma StringParts(t: seq<Byte>, fl: Flags)
    requires |t| < 0x8000_0000 && -0x8000_0000 <= fl.precision < 0x8000_0000
    ensures var n := Printed(t, fl.precision);
      && n == (if 0 <= fl.precision < |t| then fl.precision else |t|)
      && PrintString(t, fl) ==
         (if fl.padc == 45 then [] else Pad(fl.padc, fl.width - n))
         + seq(n, i requires 0 <= i < n => Shown(t[i], fl.alt))
         + (if fl.padc == 45 then Pad(32, fl.width - n) else [])
  {
    hide Shown;
    StringWidth(t, fl);
  }

  lemma LaidOut(mid: seq<int>, u: seq<int>, v: int, w: int, m: int, p: PadFlag, alt: bool)
    requires |mid| == (if 0 <= m < |u| then m else |u|) && SameWidth(v, w)
    requires forall i :: 0 <= i < |mid| ==>
      mid[i] == if alt && !(32 <= u[i] <= 126) then 63 else if u[i] < 128 then u[i] else u[i] - 256
    ensures var c, n := PadChar(p), v - |mid|;
      StringOut((if c == 45 then [] else Pad(c, n)) + mid + (if c == 45 then Pad(32, n) else []), u, w, m, p, alt)
  {
  }

  lemma ShownIs(c: Byte, alt: bool)
    ensures Shown(c, alt) == if alt && !(32 <= c <= 126) then 63 else if c < 128 then c else c as int - 256
  {
  }

  /** %c prints its argument, %% a percent sign, whatever the flags. */
  lemma FormatChar(d: Directive, a: Args, ap: nat)
    requires Spellable(d)
    ensures d.conv == 'c' as int ==> Formatted(Spelling(d), a, ap) == [Int32(a.word(ap + StarWords(d)))]
    ensures d.conv == '%' as int ==> Formatted(Spelling(d), a, ap) == ['%' as int]
  {
    FormatOne(d, a, ap);
    hide Spelling;
  }

  // ----- numbers -----

  function Pow(b: nat, k: nat): nat { if k == 0 then 1 else b * Pow(b, k - 1) }

  lemma DigitIs(k: nat)
    requires k < 16
    ensures Digit(k) == "0123456789abcdef"[k] as int
  {
  }

  lemma {:induction false} DivPow(num: nat, base: nat, j: nat)
    requires base >= 1
    ensures Pow(base, j) > 0 && num / base / Pow(base, j) == num / Pow(base, j + 1)
  {
    PowPositive(base, j);
    DivDiv(num, base, Pow(base, j));
  }

  lemma {:induction false} PowPositive(base: nat, j: nat)
    requires base >= 1
    ensures Pow(base, j) > 0
  {
    if j > 0 {
      PowPositive(base, j - 1);
      Order(Pow(base, j - 1), 1, base);
    }
  }

  /** The digit of weight base^j. */
  lemma {:induction false} DigitAt(num: nat, base: nat, j: nat)
    requires 2 <= base <= 16 && j < |DigitsIn(num, base)|
    ensures Pow(base, j) > 0 && num / Pow(base, j) % base < 16
    ensures DigitsIn(num, base)[|DigitsIn(num, base)| - 1 - j] == "0123456789abcdef"[num / Pow(base, j) % base] as int
    decreases num
  {
    PowPositive(base, j);
    var ds := DigitsIn(num, base);
    if j == 0 {
      DigitIs(num % base);
      assert num / Pow(base, 0) == num;
    } else {
      DigitAt(num / base, base, j - 1);
      DivPow(num, base, j - 1);
    }
  }

  /** There are no more digits than the number needs, but one at least. */
  lemma {:induction false} DigitCount(num: nat, base: nat)
    requires 2 <= base <= 16
    ensures var k := |DigitsIn(num, base)|;
      k >= 1 && num < Pow(base, k) && (k == 1 || Pow(base, k - 1) <= num)
    decreases num
  {
    hide *;
    PowSteps(base);
    DigitsStep(num, base);
    if num >= base {
      var q := num / base;
      DigitCount(q, base);
      var k := |DigitsIn(q, base)|;
      PowStep(base, k);
      PowStep(base, k - 1);
      Order(base, q + 1, Pow(base, k));
      if k > 1 { Order(base, Pow(base, k - 1), q); }
    }
  }

  lemma DigitsStep(num: nat, base: nat)
    requires 2 <= base <= 16
    ensures num < base ==> |DigitsIn(num, base)| == 1
    ensures num >= base ==>
      && num / base < num && |DigitsIn(num, base)| == |DigitsIn(num / base, base)| + 1
      && base * (num / base) <= num < base * (num / base + 1)
  {
    if num > 0 { DivShrinks(num, base); }
    Euclid(num, base);
  }

  lemma Euclid(n: nat, m: nat)
    requires m > 0
    ensures m * (n / m) <= n < m * (n / m + 1)
  {
    assert n == m * (n / m) + n % m;
  }

  lemma PowSteps(base: nat)
    ensures Pow(base, 1) == base
  {
    assert Pow(base, 1) == base * Pow(base, 0);
  }

  lemma PowStep(base: nat, k: nat)
    ensures Pow(base, k + 1) == base * Pow(base, k)
  {
  }

  function BaseFor(c: Byte): nat { if c == 'o' as int then 8 else if c in {'x' as int, 'p' as int} then 16 else 10 }

  /** The number a directive prints: a 32-bit word, or two words, low word first, under `ll`; signed for %d. */
  function NumberArg(d: Directive, a: Args, ap: nat): int {
    var lo, hi := a.word(ap), a.word(ap + 1);
    if d.longs >= 2 && d.conv != 'p' as int then
      var u := lo + 0x1_0000_0000 * hi;
      if d.conv == 'd' as int && u >= 0x8000_0000_0000_0000 then u - 0x1_0000_0000_0000_0000 else u
    else if d.conv == 'd' as int && lo >= 0x8000_0000 then lo - 0x1_0000_0000 else lo
  }

  /** What stands in front of padding and digits. */
  function Sign(d: Directive, n: int): string {
    if d.conv == 'p' as int then "0x" else if n < 0 then "-" else ""
  }

  /** %d, %u, %o, %x and %p with any flags and width: sign or 0x, then padding up to the width, then the k digits of
      the number, no more than it needs. */
  lemma FormatNumber(d: Directive, a: Args, ap: nat) returns (k: nat)
    requires Spellable(d) && d.conv in {'d' as int, 'u' as int, 'o' as int, 'x' as int, 'p' as int}
    ensures var n, b := NumberArg(d, a, ap + StarWords(d)), BaseFor(d.conv);
      k >= 1 && Abs(n) < Pow(b, k) && (k == 1 || Pow(b, k - 1) <= Abs(n))
    ensures var n, b := NumberArg(d, a, ap + StarWords(d)), BaseFor(d.conv);
      var out, w, front := Formatted(Spelling(d), a, ap), FieldValue(d.width, a, ap), Sign(d, n);
      && |out| == |front| + (if w > k then w else k)
      && (forall i :: 0 <= i < |front| ==> out[i] == front[i] as int)
      && (forall i :: |front| <= i < |out| - k ==> out[i] == PadChar(PadOf(d.marks)))
      && (forall j: nat {:trigger Pow(b, j)} :: j < k ==>
          Pow(b, j) > 0 && Abs(n) / Pow(b, j) % b < 16
          && out[|out| - 1 - j] == "0123456789abcdef"[Abs(n) / Pow(b, j) % b] as int)
  {
    hide *;
    var n, b, fl := NumberArg(d, a, ap + StarWords(d)), BaseFor(d.conv), FlagsOf(d, a, ap);
    BaseRange(d.conv);
    k := |DigitsIn(Abs(n), b)|;
    FormatOne(d, a, ap);
    DigitCount(Abs(n), b);
    PrintNumIs(Abs(n), b, fl.width, fl.padc);
    NumberPrinting(d, a, ap);
    WidthMatters(d, a, ap, k);
    var front, pad := Chars(Sign(d, n)), Pad(fl.padc, fl.width - k);
    assert Formatted(Spelling(d), a, ap) == front + pad + DigitsIn(Abs(n), b);
    forall j: nat {:trigger Pow(b, j)} | j < k
      ensures Pow(b, j) > 0 && Abs(n) / Pow(b, j) % b < 16
      ensures DigitsIn(Abs(n), b)[k - 1 - j] == "0123456789abcdef"[Abs(n) / Pow(b, j) % b] as int
    {
      DigitAt(Abs(n), b, j);
    }
  }

  lemma BaseRange(c: Byte)
    ensures 2 <= BaseFor(c) <= 16
  {
  }

  /** A width that a precision has made 0 was none before. */
  lemma WidthMatters(d: Directive, a: Args, ap: nat, k: nat)
    ensures var w, f := FieldValue(d.width, a, ap), FlagsOf(d, a, ap);
      (w > k <==> f.width > k) && (w > k ==> f.width == w) && f.padc == PadChar(PadOf(d.marks))
  {
  }

  lemma NumberPrinting(d: Directive, a: Args, ap: nat)
    requires Spellable(d) && d.conv in {'d' as int, 'u' as int, 'o' as int, 'x' as int, 'p' as int}
    ensures var n, fl := NumberArg(d, a, ap + StarWords(d)), FlagsOf(d, a, ap);
      Printing(d, a, ap) == Chars(Sign(d, n)) + PrintNum(Abs(n), BaseFor(d.conv), fl.width, fl.padc)
  {
    hide PrintNum;
    assert Chars("0x") == [48, 120] && Chars("-") == [45] && Chars("") == [];
  }

  // ----- error codes -----

  /** The texts of the error codes of inc/error.h; 0 and E_NO_SYS have none. */
  function ErrorName(err: nat): string {
    if err == 1 then "unspecified error" else if err == 2 then "bad environment"
    else if err == 3 then "invalid parameter" else if err == 4 then "out of memory"
    else if err == 5 then "out of environments" else if err == 6 then "segmentation fault" else ""
  }

  predicate Spells(t: seq<Byte>, n: string) {
    |t| == |n| && forall i :: 0 <= i < |t| ==> t[i] == n[i] as int && 32 <= t[i] <= 126
  }

  lemma ErrorTextIs(err: nat)
    ensures ErrorText(err).Some? <==> ErrorName(err) != ""
    ensures ErrorText(err).Some? ==> Spells(ErrorText(err).value, ErrorName(err))
  {
    Texts123();
    Texts456();
    hide Spells, UNSPECIFIED, BAD_ENV, INVAL, NO_MEM, NO_FREE_ENV, FAULT;
  }

  lemma Texts123()
    ensures Spells(UNSPECIFIED, "unspecified error") && Spells(BAD_ENV, "bad environment")
    ensures Spells(INVAL, "invalid parameter")
  {
  }

  lemma Texts456()
    ensures Spells(NO_MEM, "out of memory") && Spells(NO_FREE_ENV, "out of environments")
    ensures Spells(FAULT, "segmentation fault")
  {
  }

  /** %e prints the text of an error code of either sign, or `error` and the number. */
  lemma FormatError(d: Directive, a: Args, ap: nat)
    requires Spellable(d) && d.conv == 'e' as int
    ensures var e := Abs(Int32(a.word(ap + StarWords(d))));
      Formatted(Spelling(d), a, ap) ==
      if ErrorName(e) != "" then Chars(ErrorName(e)) else Chars("error ") + DigitsIn(e, 10)
  {
    hide *;
    var e := Abs(Int32(a.word(ap + StarWords(d))));
    FormatOne(d, a, ap);
    ErrorPrinting(d, a, ap);
    ErrorTextIs(e);
    match ErrorText(e) {
      case Some(t) => PlainText(t, ErrorName(e));
      case None =>
        PrintNumIs(e, 10, -1, 32);
        PlainDecimal(e);
    }
  }

  lemma PlainText(t: seq<Byte>, name: string)
    requires Spells(t, name)
    ensures PrintString(t, START) == Chars(name)
  {
    assert Measured(t, -1) <= |t|;
  }

  lemma PlainDecimal(e: nat)
    requires PrintNum(e, 10, -1, 32) == Pad(32, -1 - |DigitsIn(e, 10)|) + DigitsIn(e, 10)
    ensures Decimal(e, -1, 32) == DigitsIn(e, 10) && ERROR_PREFIX == Chars("error ")
  {
    hide PrintNum, DigitsIn;
  }

  lemma ErrorPrinting(d: Directive, a: Args, ap: nat)
    requires Spellable(d) && d.conv == 'e' as int
    ensures IsConversion(d.conv)
    ensures var e := Abs(Int32(a.word(ap + StarWords(d))));
      Printing(d, a, ap) == match ErrorText(e)
        case Some(t) => PrintString(t, START)
        case None => ERROR_PREFIX + Decimal(e, -1, 32)
  {
    hide PrintString, Decimal, ErrorText;
  }
}
