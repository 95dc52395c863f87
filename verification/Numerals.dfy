/** Which texts strtol (lib/string.c) reads, and as what: blanks, a sign, a prefix, digits, and anything else. */
module Numerals {
  import opened Wrappers
  import opened Arith
  import opened EnvIds
  import opened Strtol
  import opened Directives

  /** c stands for the digit v, in either case. */
  predicate StandsFor(c: int, v: nat) {
    && v < 36
    && (c == Lower(v) as int || c == Upper(v) as int)
  }

  function Lower(v: nat): char
    requires v < 36
  {
    "0123456789abcdefghijklmnopqrstuvwxyz"[v]
  }

  function Upper(v: nat): char
    requires v < 36
  {
    "0123456789ABCDEFGHIJKLMNOPQRSTUVWXYZ"[v]
  }

  lemma LowerAt(v: nat)
    requires v < 36
    ensures Lower(v) as int == if v < 10 then 48 + v else 87 + v
  {
  }

  lemma UpperAt(v: nat)
    requires v < 36
    ensures Upper(v) as int == if v < 10 then 48 + v else 55 + v
  {
  }

  lemma StandsForIs(c: int, v: nat)
    ensures StandsFor(c, v) <==>
      v < 36 && (c == (if v < 10 then 48 + v else 87 + v) || c == (if v < 10 then 48 + v else 55 + v))
  {
    if v < 36 {
      LowerAt(v);
      UpperAt(v);
    }
  }

  lemma DigitOfIs(c: int, v: nat)
    ensures DigitOf(c) == Some(v) <==> StandsFor(c, v)
  {
    StandsForIs(c, v);
    hide StandsFor;
  }

  /** c is no digit in this base. */
  ghost predicate Digitless(c: int, base: nat) {
    forall v: nat {:trigger StandsFor(c, v)} :: v < base ==> !StandsFor(c, v)
  }

  /** The number with digits vs behind the number n. */
  function Worth(vs: seq<nat>, base: nat, n: nat): nat
    decreases |vs|
  {
    if vs == [] then n else Worth(vs[1..], base, n * base + vs[0])
  }

  predicate IsBlank(c: int) { c == ' ' as int || c == '\t' as int }

  predicate IsSign(c: int) { c == '+' as int || c == '-' as int }

  /** Blanks, a sign, a prefix, digits and what stands behind them. */
  datatype Numeral = Numeral(blanks: seq<int>, sign: string, prefix: string, digits: seq<int>, rest: seq<int>)

  function Body(t: Numeral): seq<int> { t.digits + t.rest }

  function TextOf(t: Numeral): seq<int> { t.blanks + Chars(t.sign) + Chars(t.prefix) + Body(t) }

  function EndOf(t: Numeral): nat { |t.blanks| + |t.sign| + |t.prefix| + |t.digits| }

  /** Which prefix goes with which base argument, and the base that is then in force. */
  predicate Prefixed(t: Numeral, base: int, force: nat) {
    || (t.prefix == "0x" && (base == 0 || base == 16) && force == 16)
    || (t.prefix == "0" && base == 0 && force == 8 && CharAt(Body(t), 0) != 'x' as int)
    || (t.prefix == "" && base == 0 && force == 10 && CharAt(Body(t), 0) != '0' as int)
    || (t.prefix == "" && base != 0 && force == base
        && (base == 16 ==> !(CharAt(Body(t), 0) == '0' as int && CharAt(Body(t), 1) == 'x' as int)))
  }

  /** The parts are what they are called, and each goes as far as it can. */
  ghost predicate WellFormed(t: Numeral, vs: seq<nat>, base: int, force: nat) {
    && (forall i :: 0 <= i < |t.blanks| ==> IsBlank(t.blanks[i]))
    && (t.sign == "" || t.sign == "+" || t.sign == "-")
    && (t.sign == "" && t.prefix == "" ==> !IsBlank(CharAt(Body(t), 0)) && !IsSign(CharAt(Body(t), 0)))
    && Prefixed(t, base, force) && 2 <= force <= 36
    && |vs| == |t.digits|
    && (forall i :: 0 <= i < |vs| ==> vs[i] < force && StandsFor(t.digits[i], vs[i]))
    && Digitless(CharAt(t.rest, 0), force)
  }

  /** Equal as 32-bit numbers. */
  predicate Same32(x: int, y: int) { (x - y) % 0x1_0000_0000 == 0 }

  lemma WrapIs(x: int)
    ensures -0x8000_0000 <= ToInt32(x) < 0x8000_0000 && Same32(ToInt32(x), x)
  {
  }

  lemma {:induction false} BlanksRun(s: seq<int>, i: nat, j: nat)
    requires i <= j <= |s| && (forall k :: i <= k < j ==> IsBlank(s[k])) && !IsBlank(CharAt(s, j))
    ensures SkipBlanks(s, i) == j
    decreases j - i
  {
    if i < j { BlanksRun(s, i + 1, j); }
  }

  lemma {:induction false} DigitsRun(s: seq<int>, i: nat, vs: seq<nat>, base: nat, n: nat)
    requires DigitsAt(s, i, vs, base)
    requires Digitless(CharAt(s, i + |vs|), base)
    ensures ParseDigits(s, i, base, ToInt32(n)) == (ToInt32(Worth(vs, base, n)), i + |vs|)
    decreases |vs|
  {
    hide *;
    if vs == [] {
      assert i <= |s| by { DigitsInside(s, i, vs, base); }
      NoDigit(s, i, base);
      RunEnds(s, i, base, n);
    } else {
      RunRest(s, i, vs, base, n);
      RunFirst(s, i, vs[0], base, n);
      DigitsRun(s, i + 1, vs[1..], base, n * base + vs[0]);
    }
  }

  lemma DigitsInside(s: seq<int>, i: nat, vs: seq<nat>, base: nat)
    requires DigitsAt(s, i, vs, base)
    ensures i + |vs| <= |s|
  {
  }

  lemma RunEnds(s: seq<int>, i: nat, base: nat, n: nat)
    requires i <= |s| && (i < |s| ==> !IsDigitIn(s[i], base))
    ensures ParseDigits(s, i, base, ToInt32(n)) == (ToInt32(Worth([], base, n)), i)
  {
    hide ToInt32;
  }

  /** The characters from i on stand for the digits vs. */
  ghost predicate DigitsAt(s: seq<int>, i: nat, vs: seq<nat>, base: nat) {
    i + |vs| <= |s| && forall k :: 0 <= k < |vs| ==> vs[k] < base && StandsFor(s[i + k], vs[k])
  }

  /** The first digit, and what it leaves to read. */
  lemma RunFirst(s: seq<int>, i: nat, v: nat, base: nat, n: nat)
    requires i < |s| && v < base && StandsFor(s[i], v)
    ensures ParseDigits(s, i, base, ToInt32(n)) == ParseDigits(s, i + 1, base, ToInt32(n * base + v))
  {
    DigitOfIs(s[i], v);
    WrapStep(n, base, v);
    hide ToInt32, StandsFor, DigitOf;
  }

  lemma RunRest(s: seq<int>, i: nat, vs: seq<nat>, base: nat, n: nat)
    requires vs != [] && DigitsAt(s, i, vs, base)
    ensures i < i + |vs| <= |s| && vs[0] < base && StandsFor(s[i], vs[0])
    ensures DigitsAt(s, i + 1, vs[1..], base)
    ensures Worth(vs, base, n) == Worth(vs[1..], base, n * base + vs[0])
  {
    hide StandsFor;
    assert StandsFor(s[i + 0], vs[0]);
    forall k | 0 <= k < |vs[1..]| ensures vs[1..][k] < base && StandsFor(s[i + 1 + k], vs[1..][k]) {
      assert StandsFor(s[i + (k + 1)], vs[k + 1]);
    }
  }

  lemma NoDigit(s: seq<int>, i: nat, base: nat)
    requires i <= |s| && Digitless(CharAt(s, i), base)
    ensures i < |s| ==> !IsDigitIn(s[i], base)
  {
    if i < |s| {
      var c := s[i];
      forall v: nat | v < base ensures DigitOf(c) != Some(v) {
        DigitOfIs(c, v);
        assert !StandsFor(c, v);
      }
    }
  }

  /** strtol returns the number that the numeral spells, negated under '-', as a 32-bit number, and stops right behind
      its digits. */
  lemma ReadNumeral(t: Numeral, vs: seq<nat>, base: int, force: nat)
    requires WellFormed(t, vs, base, force)
    ensures var (val, end) := StrtolSpec(TextOf(t), base);
      && -0x8000_0000 <= val < 0x8000_0000 && Same32(val, Signed32(t.sign, Worth(vs, force, 0)))
      && end == EndOf(t)
  {
    hide *;
    var s, n := TextOf(t), Worth(vs, force, 0);
    var i := |t.blanks|;
    var j := i + |t.sign|;
    var k := j + |t.prefix|;
    TextAtEach(t);
    BlanksFirst(t, vs, base, force);
    BlanksRun(s, 0, i);
    PrefixIs(t, vs, base, force);
    DigitsNext(t, vs, base, force);
    DigitsRun(s, k, vs, force, 0);
    Wrapped(n);
    SpecIs(s, base, i, j, k, force, t.sign == "-", ToInt32(n), EndOf(t));
    SignedIs(t.sign, n);
  }

  function Signed32(sign: string, n: int): int { if sign == "-" then -n else n }

  lemma SignedIs(sign: string, n: nat)
    ensures Signed32(sign, n) == if sign == "-" then -(n as int) else n
  {
  }

  lemma SpecIs(s: seq<int>, base: int, i: nat, j: nat, k: nat, force: int, neg: bool, val: int, end: nat)
    requires i <= j <= |s| && k <= |s| && SkipBlanks(s, 0) == i && (neg <==> CharAt(s, i) == 45)
    requires j == (if CharAt(s, i) == 43 || neg then i + 1 else i)
    requires Prefix(s, j, base) == (k, force) && ParseDigits(s, k, force, 0) == (val, end)
    ensures StrtolSpec(s, base) == (if neg then ToInt32(-val) else val, end)
  {
    hide SkipBlanks, Prefix, ParseDigits, ToInt32;
  }

  lemma BlanksFirst(t: Numeral, vs: seq<nat>, base: int, force: nat)
    requires WellFormed(t, vs, base, force)
    ensures var s, i := TextOf(t), |t.blanks|;
      && i + |t.sign| <= |s| && (forall k :: 0 <= k < i ==> IsBlank(s[k])) && !IsBlank(CharAt(s, i))
      && (t.sign == "-" <==> CharAt(s, i) == 45)
      && |t.sign| == if CharAt(s, i) == 43 || t.sign == "-" then 1 else 0
  {
    TextAtEach(t);
    hide StandsFor, TextOf, Body, Digitless;
    var s, i := TextOf(t), |t.blanks|;
    if t.sign != "" {
      assert s[i + 0] == t.sign[0] as int;
    } else if t.prefix != "" {
      assert s[i + 0] == t.prefix[0] as int;
    }
  }

  lemma PrefixIs(t: Numeral, vs: seq<nat>, base: int, force: nat)
    requires WellFormed(t, vs, base, force)
    ensures var s, j := TextOf(t), |t.blanks| + |t.sign|;
      j <= |s| && Prefix(s, j, base) == (j + |t.prefix|, force)
  {
    TextAtEach(t);
    hide StandsFor, TextOf, Body, Digitless;
    var s, j := TextOf(t), |t.blanks| + |t.sign|;
    if t.prefix != "" { assert s[j + 0] == t.prefix[0] as int; }
    if t.prefix == "0x" { assert s[j + 1] == t.prefix[1] as int; }
  }

  lemma DigitsNext(t: Numeral, vs: seq<nat>, base: int, force: nat)
    requires WellFormed(t, vs, base, force)
    ensures var s, k := TextOf(t), |t.blanks| + |t.sign| + |t.prefix|;
      && 2 <= force && EndOf(t) == k + |vs| <= |s|
      && DigitsAt(s, k, vs, force)
      && Digitless(CharAt(s, k + |vs|), force)
  {
    TextAtEach(t);
    hide StandsFor, TextOf, Body, Digitless;
    var s, k := TextOf(t), |t.blanks| + |t.sign| + |t.prefix|;
    forall m | 0 <= m < |vs| ensures vs[m] < force && StandsFor(s[k + m], vs[m]) {
      assert StandsFor(t.digits[m], vs[m]);
    }
  }

  lemma Wrapped(n: nat)
    ensures ToInt32(0) == 0
    ensures -0x8000_0000 <= ToInt32(n) < 0x8000_0000 && Same32(ToInt32(n), n)
    ensures -0x8000_0000 <= ToInt32(-ToInt32(n)) < 0x8000_0000 && Same32(ToInt32(-ToInt32(n)), 0 - n)
  {
    hide *;
    Unwrapped(0);
    WrapIs(n);
    WrapIs(-ToInt32(n));
    SameTwice(ToInt32(-ToInt32(n)), ToInt32(n), n);
  }

  lemma SameTwice(b: int, a: int, n: int)
    requires Same32(b, -a) && Same32(a, n)
    ensures Same32(b, 0 - n)
  {
    MultiplesApart(b + a, a - n, 0x1_0000_0000);
    assert b - (0 - n) == (b + a) - (a - n);
  }

  lemma TextAtEach(t: Numeral)
    ensures var s, i := TextOf(t), |t.blanks|;
      var j := i + |t.sign|;
      var k := j + |t.prefix|;
      && (forall m :: 0 <= m < i ==> s[m] == t.blanks[m])
      && (forall m :: 0 <= m < |t.sign| ==> s[i + m] == t.sign[m] as int)
      && (forall m :: 0 <= m < |t.prefix| ==> s[j + m] == t.prefix[m] as int)
      && (forall m :: 0 <= m < |Body(t)| ==> s[k + m] == Body(t)[m])
      && |s| == k + |Body(t)| && |t.digits| <= |Body(t)|
      && (forall m :: 0 <= m < |t.digits| ==> s[k + m] == t.digits[m])
      && CharAt(s, k) == CharAt(Body(t), 0) && CharAt(s, k + 1) == CharAt(Body(t), 1)
      && CharAt(s, k + |t.digits|) == CharAt(t.rest, 0)
  {
  }
}
