/** snprintf_get_directive: the parser for "%" directives, and the grammar it accepts. */
module Directive {
  import opened Buffers
  import opened Bytes
  import opened Splitting

  // --------------------------------------------------------------- results

  datatype Size = Plain | Short | Long | LongLong | LongDouble

  /** The flags, width, precision (-1 if absent), size and conversion character. */
  datatype Directive = Directive(
    minus: bool, plus: bool, space: bool, hash: bool, zero: bool,
    width: int, precision: int, size: Size, conv: char)

  /** A printf argument: a number, or a string pointer that may be null. */
  datatype Arg = Num(v: int) | Text(s: string) | Null

  /** Undefined: "*" without an int argument left. */
  datatype Parse = Bad | Undefined | Parsed(d: Directive, next: nat, used: nat)

  // --------------------------------------------------------- specification

  predicate IsFlag(c: char) {
    c == '-' || c == '+' || c == ' ' || c == '#' || c == '0'
  }

  predicate IsDigit(c: char) {
    '0' <= c <= '9'
  }

  predicate IsConversion(c: char) {
    || c == 'i' || c == 'd' || c == 'o' || c == 'u' || c == 'x' || c == 'X' || c == 'f' || c == 'e'
    || c == 'E' || c == 'g' || c == 'G' || c == 'c' || c == 's' || c == 'p' || c == 'n'
  }

  predicate AllFlags(s: string) {
    forall k :: 0 <= k < |s| ==> IsFlag(s[k])
  }

  predicate AllDigits(s: string) {
    forall k :: 0 <= k < |s| ==> IsDigit(s[k])
  }

  function DigitValue(c: char): nat
    requires IsDigit(c)
  {
    c as int - '0' as int
  }

  function Decimal(digits: string): nat
    requires AllDigits(digits)
  {
    if digits == "" then 0 else 10 * Decimal(Front(digits)) + DigitValue(Last(digits))
  }

  /** A number in a directive: absent, written out, or taken from the arguments. */
  datatype Amount = Absent | Literal(digits: string) | Star

  /** The concrete syntax of a directive; `precision` is what follows the dot, if there is one. */
  datatype Form = Form(flags: string, width: Amount, dot: bool, precision: Amount, size: Size, i64: bool, conv: char)

  predicate WellFormed(f: Form) {
    && AllFlags(f.flags)
    && (f.width.Literal? ==> f.width.digits != "" && AllDigits(f.width.digits) && f.width.digits[0] != '0')
    && (f.precision.Literal? ==> f.precision.digits != "" && AllDigits(f.precision.digits))
    && (!f.dot ==> f.precision.Absent?)
    && (f.i64 ==> f.size == LongLong)
    && IsConversion(f.conv)
  }

  function PrintAmount(a: Amount): string {
    match a
    case Absent => ""
    case Literal(digits) => digits
    case Star => "*"
  }

  function PrintSize(size: Size, i64: bool): string {
    match size
    case Plain => ""
    case Short => "h"
    case Long => "l"
    case LongLong => if i64 then "I64" else "ll"
    case LongDouble => "L"
  }

  function Print(f: Form): string {
    "%" + f.flags + PrintAmount(f.width) + (if f.dot then "." else "") + PrintAmount(f.precision)
    + PrintSize(f.size, f.i64) + [f.conv]
  }

  function StarCount(a: Amount): nat {
    if a.Star? then 1 else 0
  }

  predicate HasStar(a: Amount, args: seq<Arg>, from: nat) {
    a.Star? ==> from < |args| && args[from].Num?
  }

  function AmountValue(a: Amount, absent: int, args: seq<Arg>, from: nat): int
    requires a.Literal? ==> AllDigits(a.digits)
    requires HasStar(a, args, from)
  {
    match a
    case Absent => absent
    case Literal(digits) => Decimal(digits)
    case Star => Signed32(args[from].v)
  }

  predicate HasStars(f: Form, args: seq<Arg>, from: nat) {
    HasStar(f.width, args, from) && HasStar(f.precision, args, from + StarCount(f.width))
  }

  function Stars(f: Form): nat {
    StarCount(f.width) + StarCount(f.precision)
  }

  /** What a form means: minus cancels zero, "." alone is precision 0. */
  function Meaning(f: Form, args: seq<Arg>, from: nat): Directive
    requires WellFormed(f) && HasStars(f, args, from)
  {
    Directive('-' in f.flags, '+' in f.flags, ' ' in f.flags, '#' in f.flags, '0' in f.flags && '-' !in f.flags,
              AmountValue(f.width, 0, args, from),
              AmountValue(f.precision, if f.dot then 0 else -1, args, from + StarCount(f.width)),
              f.size, f.conv)
  }

  /** Where the flags, or the digits, that start at i end. */
  function FlagsEnd(s: string, i: nat): (e: nat)
    requires i <= |s|
    ensures i <= e <= |s| && !IsFlag(At(s, e))
    ensures AllFlags(s[i..e])
    decreases |s| - i
  {
    if i < |s| && IsFlag(s[i]) then FlagsEnd(s, i + 1) else i
  }

  function DigitsEnd(s: string, i: nat): (e: nat)
    requires i <= |s|
    ensures i <= e <= |s| && !IsDigit(At(s, e))
    ensures AllDigits(s[i..e])
    decreases |s| - i
  {
    if i < |s| && IsDigit(s[i]) then DigitsEnd(s, i + 1) else i
  }

  function AmountAt(s: string, i: nat): (a: Amount)
    requires i <= |s|
    ensures i + |PrintAmount(a)| <= |s|
    ensures a.Literal? ==> AllDigits(a.digits)
  {
    if IsDigit(At(s, i)) then Literal(s[i..DigitsEnd(s, i)])
    else if At(s, i) == '*' then Star
    else Absent
  }

  /** The size modifier and whether it is spelled "I64". */
  function SizeAt(s: string, i: nat): (r: (Size, bool))
    requires i <= |s|
    ensures i + |PrintSize(r.0, r.1)| <= |s|
  {
    if At(s, i) == 'h' then (Short, false)
    else if At(s, i) == 'l' then (if At(s, i + 1) == 'l' then (LongLong, false) else (Long, false))
    else if At(s, i) == 'I' && At(s, i + 1) == '6' && At(s, i + 2) == '4' then (LongLong, true)
    else if At(s, i) == 'L' then (LongDouble, false)
    else (Plain, false)
  }

  /** Where the parts of the directive at the start of `s` begin. */
  datatype Layout = Layout(width: nat, dot: nat, precision: nat, size: nat, conv: nat)

  function LayoutOf(s: string): (l: Layout)
    requires s != ""
    ensures 1 <= l.width <= l.dot <= l.precision <= l.size <= l.conv <= |s|
  {
    var width := FlagsEnd(s, 1);
    var dot := width + |PrintAmount(AmountAt(s, width))|;
    var precision := if At(s, dot) == '.' then dot + 1 else dot;
    var size := if At(s, dot) == '.' then precision + |PrintAmount(AmountAt(s, precision))| else precision;
    var (z, i64) := SizeAt(s, size);
    Layout(width, dot, precision, size, size + |PrintSize(z, i64)|)
  }

  function FormOf(s: string): Form
    requires s != ""
  {
    var l := LayoutOf(s);
    var dot := At(s, l.dot) == '.';
    Form(s[1..l.width], AmountAt(s, l.width), dot, if dot then AmountAt(s, l.precision) else Absent,
         SizeAt(s, l.size).0, SizeAt(s, l.size).1, At(s, l.conv))
  }

  lemma FormWellFormed(s: string)
    requires s != ""
    ensures IsConversion(FormOf(s).conv) ==> WellFormed(FormOf(s))
  {
    var l := LayoutOf(s);
    AmountText(s, l.width);
    AmountText(s, l.precision);
  }

  lemma AmountText(s: string, i: nat)
    requires i <= |s|
    ensures var a := AmountAt(s, i);
            && s[i..i + |PrintAmount(a)|] == PrintAmount(a)
            && (a.Literal? ==> a.digits != "" && a.digits[0] == s[i] && IsDigit(s[i]))
  {
  }

  lemma SizeText(s: string, i: nat)
    requires i <= |s|
    ensures var (z, i64) := SizeAt(s, i);
            s[i..i + |PrintSize(z, i64)|] == PrintSize(z, i64)
  {
  }

  /** What the parser returns, said in terms of the form at the start of the text. */
  function ParseOf(s: string, args: seq<Arg>, from: nat): (p: Parse)
    ensures p.Parsed? ==> 0 < p.next <= |s|
  {
    if At(s, 0) != '%' then Bad
    else
      var f := FormOf(s);
      if !HasStars(f, args, from) then Undefined
      else if !IsConversion(f.conv) then Bad
      else
        FormWellFormed(s);
        Parsed(Meaning(f, args, from), LayoutOf(s).conv + 1, from + Stars(f))
  }

  // ------------------------------------------------------ the C function

  method ReadFlags(s: string) returns (minus: bool, plus: bool, space: bool, hash: bool, zero: bool, i: nat)
    requires s != ""
    ensures i == FlagsEnd(s, 1)
    ensures var flags := s[1..i];
            && minus == ('-' in flags) && plus == ('+' in flags) && space == (' ' in flags)
            && hash == ('#' in flags) && zero == ('0' in flags && '-' !in flags)
  {
    minus, plus, space, hash, zero := false, false, false, false, false;
    i := 1;
    while i < |s| && IsFlag(s[i])
      invariant 1 <= i <= |s| && FlagsEnd(s, 1) == FlagsEnd(s, i)
      invariant minus == ('-' in s[1..i]) && plus == ('+' in s[1..i]) && space == (' ' in s[1..i])
      invariant hash == ('#' in s[1..i]) && zero == ('0' in s[1..i])
    {
      assert s[1..i + 1] == s[1..i] + [s[i]];
      match s[i] {
        case '-' => minus := true;
        case '+' => plus := true;
        case ' ' => space := true;
        case '#' => hash := true;
        case _ => zero := true;
      }
      i := i + 1;
    }
    if minus && zero {
      zero := false;
    }
  }

  /** The digit loop shared by width and precision. */
  method ReadNumber(s: string, from: nat) returns (value: nat, i: nat)
    requires from <= |s|
    ensures i == DigitsEnd(s, from) && value == Decimal(s[from..i])
  {
    value, i := 0, from;
    hide *;
    NoDigits();
    assert s[from..from] == "";
    while i < |s| && IsDigit(s[i])
      invariant from <= i <= |s| && DigitsEnd(s, from) == DigitsEnd(s, i)
      invariant AllDigits(s[from..i]) && value == Decimal(s[from..i])
    {
      DigitsEndStep(s, i);
      SliceSnoc(s, from, i);
      DecimalSnoc(s[from..i], s[i]);
      value := 10 * value + (s[i] as int - '0' as int);
      i := i + 1;
    }
    DigitsEndStep(s, i);
  }

  lemma NoDigits()
    ensures AllDigits("") && Decimal("") == 0
  {
  }

  lemma DecimalSnoc(digits: string, c: char)
    requires AllDigits(digits) && IsDigit(c)
    ensures AllDigits(digits + [c]) && c as int >= '0' as int
    ensures Decimal(digits + [c]) == 10 * Decimal(digits) + (c as int - '0' as int)
  {
    assert Front(digits + [c]) == digits;
  }

  lemma SliceSnoc(s: string, from: nat, i: nat)
    requires from <= i < |s|
    ensures s[from..i + 1] == s[from..i] + [s[i]]
  {
  }

  lemma DigitsEndStep(s: string, i: nat)
    requires i <= |s|
    ensures DigitsEnd(s, i) == if i < |s| && IsDigit(s[i]) then DigitsEnd(s, i + 1) else i
  {
  }

  /** A width or precision: digits, or a star taken from the arguments, or nothing. */
  method ReadAmount(s: string, from: nat, absent: int, args: seq<Arg>, arg: nat)
    returns (ok: bool, value: int, i: nat, used: nat)
    requires from <= |s|
    ensures ok <==> HasStar(AmountAt(s, from), args, arg)
    ensures ok ==>
      && value == AmountValue(AmountAt(s, from), absent, args, arg)
      && i == from + |PrintAmount(AmountAt(s, from))| <= |s|
      && used == arg + StarCount(AmountAt(s, from))
  {
    ok, value, i, used := true, absent, from, arg;
    if IsDigit(At(s, i)) {
      value, i := ReadNumber(s, i);
    } else if At(s, i) == '*' {
      if used >= |args| || !args[used].Num? {
        ok := false;
        return;
      }
      value, used, i := Signed32(args[used].v), used + 1, i + 1;
    }
  }

  method ReadSize(s: string, from: nat) returns (size: Size, i: nat)
    requires from <= |s|
    ensures size == SizeAt(s, from).0
    ensures i == from + |PrintSize(SizeAt(s, from).0, SizeAt(s, from).1)| <= |s|
  {
    size, i := Plain, from;
    if At(s, i) == 'h' {
      size, i := Short, i + 1;
    } else if At(s, i) == 'l' {
      if At(s, i + 1) == 'l' {
        size, i := LongLong, i + 1;
      } else {
        size := Long;
      }
      i := i + 1;
    } else if At(s, i) == 'I' && At(s, i + 1) == '6' && At(s, i + 2) == '4' {
      size, i := LongLong, i + 3;
    } else if At(s, i) == 'L' {
      size, i := LongDouble, i + 1;
    }
  }

  /** Parses the directive at the start of `s`; stars take arguments from `from` on. */
  method GetDirective(s: string, args: seq<Arg>, from: nat) returns (p: Parse)
    ensures p == ParseOf(s, args, from)
  {
    hide *;
    if At(s, 0) != '%' {
      NotDirective(s, args, from);
      return Bad;
    }
    ParseStages(s, args, from);
    var minus, plus, space, hash, zero, i := ReadFlags(s);
    var used, ok, width := from, true, 0;
    ok, width, i, used := ReadAmount(s, i, 0, args, used);
    if !ok {
      return Undefined;
    }
    var precision := -1;
    if At(s, i) == '.' {
      ok, precision, i, used := ReadAmount(s, i + 1, 0, args, used);
      if !ok {
        return Undefined;
      }
    }
    var size;
    size, i := ReadSize(s, i);
    var conv := At(s, i);
    if IsConversion(conv) {
      p := Parsed(Directive(minus, plus, space, hash, zero, width, precision, size, conv), i + 1, used);
    } else {
      p := Bad;
    }
  }

  lemma NotDirective(s: string, args: seq<Arg>, from: nat)
    requires At(s, 0) != '%'
    ensures ParseOf(s, args, from) == Bad
  {
  }

  /** ParseOf, one part after the other. */
  lemma ParseStages(s: string, args: seq<Arg>, from: nat)
    requires At(s, 0) == '%'
    ensures s != "" && FlagsEnd(s, 1) <= |s|
    ensures var i1 := FlagsEnd(s, 1);
            var a1 := AmountAt(s, i1);
            var i2, u2 := i1 + |PrintAmount(a1)|, from + StarCount(a1);
            var dot := At(s, i2) == '.';
            && i2 <= |s| && (dot ==> i2 < |s|)
            && (if !HasStar(a1, args, from) || (dot && !HasStar(AmountAt(s, i2 + 1), args, u2)) then
                  ParseOf(s, args, from) == Undefined
                else
                  var a2 := if dot then AmountAt(s, i2 + 1) else Absent;
                  var i3 := if dot then i2 + 1 + |PrintAmount(a2)| else i2;
                  var i4 := i3 + |PrintSize(SizeAt(s, i3).0, SizeAt(s, i3).1)|;
                  ParseOf(s, args, from) ==
                    if !IsConversion(At(s, i4)) then Bad
                    else Parsed(Directive('-' in s[1..i1], '+' in s[1..i1], ' ' in s[1..i1], '#' in s[1..i1],
                                          '0' in s[1..i1] && '-' !in s[1..i1],
                                          AmountValue(a1, 0, args, from),
                                          if dot then AmountValue(a2, 0, args, u2) else -1,
                                          SizeAt(s, i3).0, At(s, i4)),
                                i4 + 1, u2 + if dot then StarCount(a2) else 0))
  {
    hide FlagsEnd, AmountAt, SizeAt, PrintAmount, PrintSize, Decimal, Signed32, WellFormed, IsConversion, IsFlag;
    FormWellFormed(s);
  }

  // ------------------------------------------------------------------ laws

  lemma {:induction false} FlagsEndIs(s: string, i: nat, e: nat)
    requires i <= e <= |s| && AllFlags(s[i..e]) && !IsFlag(At(s, e))
    ensures FlagsEnd(s, i) == e
    decreases |s| - i
  {
    if i < e {
      assert IsFlag(s[i..e][0]);
      assert s[i + 1..e] == s[i..e][1..];
      FlagsEndIs(s, i + 1, e);
    }
  }

  lemma {:induction false} DigitsEndIs(s: string, i: nat, e: nat)
    requires i <= e <= |s| && AllDigits(s[i..e]) && !IsDigit(At(s, e))
    ensures DigitsEnd(s, i) == e
    decreases |s| - i
  {
    if i < e {
      assert IsDigit(s[i..e][0]);
      assert s[i + 1..e] == s[i..e][1..];
      DigitsEndIs(s, i + 1, e);
    }
  }

  /** An amount is read back when no digit or star follows it. */
  lemma AmountBack(s: string, i: nat, a: Amount)
    requires i + |PrintAmount(a)| <= |s| && s[i..i + |PrintAmount(a)|] == PrintAmount(a)
    requires a.Literal? ==> a.digits != "" && AllDigits(a.digits)
    requires !IsDigit(At(s, i + |PrintAmount(a)|)) && At(s, i + |PrintAmount(a)|) != '*'
    ensures AmountAt(s, i) == a
  {
    var e := i + |PrintAmount(a)|;
    match a
    case Absent =>
    case Literal(digits) =>
      assert s[i] == digits[0];
      DigitsEndIs(s, i, e);
    case Star =>
      assert s[i] == s[i..e][0];
  }

  /** The parts of a printed form, cut out of the text. */
  predicate PartsAt(s: string, f: Form, l: Layout) {
    && 1 <= l.width <= l.dot <= l.precision <= l.size <= l.conv < |s|
    && s[0] == '%'
    && s[1..l.width] == f.flags
    && s[l.width..l.dot] == PrintAmount(f.width)
    && s[l.dot..l.precision] == (if f.dot then "." else "")
    && s[l.precision..l.size] == PrintAmount(f.precision)
    && s[l.size..l.conv] == PrintSize(f.size, f.i64)
    && s[l.conv] == f.conv
  }

  function PlannedLayout(f: Form): (l: Layout) {
    var width := 1 + |f.flags|;
    var dot := width + |PrintAmount(f.width)|;
    var precision := dot + if f.dot then 1 else 0;
    var size := precision + |PrintAmount(f.precision)|;
    Layout(width, dot, precision, size, size + |PrintSize(f.size, f.i64)|)
  }

  lemma PrintParts(f: Form, rest: string)
    ensures PartsAt(Print(f) + rest, f, PlannedLayout(f)) && |Print(f)| == PlannedLayout(f).conv + 1
  {
    var width, dot, precision, size := PrintAmount(f.width), if f.dot then "." else "", PrintAmount(f.precision), PrintSize(f.size, f.i64);
    var s1 := "%" + f.flags;
    var s2 := s1 + width;
    var s3 := s2 + dot;
    var s4 := s3 + precision;
    var s5 := s4 + size;
    var s6 := s5 + [f.conv];
    assert s6 == Print(f);
    PlannedFacts(f);
    hide *;
    var s := s6 + rest;
    Slice(s, s5, [f.conv]);
    Slice(s, s4, size);
    Slice(s, s3, precision);
    Slice(s, s2, dot);
    Slice(s, s1, width);
    Slice(s, "%", f.flags);
    SliceHead(s, |s5|, |s6|, [f.conv]);
    SliceHead(s, 0, 1, "%");
    PartsIntro(s, f, PlannedLayout(f));
  }

  lemma PlannedFacts(f: Form)
    ensures var l := PlannedLayout(f);
            && l.width == 1 + |f.flags|
            && l.dot == l.width + |PrintAmount(f.width)|
            && l.precision == l.dot + (if f.dot then 1 else 0)
            && l.size == l.precision + |PrintAmount(f.precision)|
            && l.conv == l.size + |PrintSize(f.size, f.i64)|
  {
  }

  lemma PartsIntro(s: string, f: Form, l: Layout)
    requires 1 <= l.width <= l.dot <= l.precision <= l.size <= l.conv < |s| && s[0] == '%'
    requires s[1..l.width] == f.flags && s[l.width..l.dot] == PrintAmount(f.width)
    requires s[l.dot..l.precision] == (if f.dot then "." else "") && s[l.precision..l.size] == PrintAmount(f.precision)
    requires s[l.size..l.conv] == PrintSize(f.size, f.i64) && s[l.conv] == f.conv
    ensures PartsAt(s, f, l)
  {
    hide PrintAmount, PrintSize;
  }

  lemma PartsElim(s: string, f: Form, l: Layout)
    requires PartsAt(s, f, l)
    ensures 1 <= l.width <= l.dot <= l.precision <= l.size <= l.conv < |s| && s[0] == '%'
    ensures s[1..l.width] == f.flags && s[l.width..l.dot] == PrintAmount(f.width)
    ensures s[l.dot..l.precision] == (if f.dot then "." else "") && s[l.precision..l.size] == PrintAmount(f.precision)
    ensures s[l.size..l.conv] == PrintSize(f.size, f.i64) && s[l.conv] == f.conv
  {
    hide PrintAmount, PrintSize;
  }

  lemma Slice(s: string, a: string, b: string)
    requires a + b <= s
    ensures a <= s && s[..|a|] == a && |a| + |b| <= |s| && s[|a|..|a| + |b|] == b
  {
    assert s[..|a + b|] == a + b;
  }

  lemma Extend(s: string, i: nat, j: nat, pre: string, part: string)
    requires i <= j <= |s| && s[..i] == pre && s[i..j] == part
    ensures s[..j] == pre + part
  {
  }

  lemma JoinParts(s: string, f: Form, l: Layout)
    requires PartsAt(s, f, l)
    ensures s[..l.conv + 1] == Print(f)
  {
    var a, b, c := s[1..l.width], s[l.width..l.dot], s[l.dot..l.precision];
    var d, e := s[l.precision..l.size], s[l.size..l.conv];
    assert Print(f) == "%" + a + b + c + d + e + [s[l.conv]];
    assert s[..1] == "%" && s[l.conv..l.conv + 1] == [s[l.conv]];
    assert 1 <= l.width <= l.dot <= l.precision <= l.size <= l.conv < |s|;
    hide *;
    Extend(s, 1, l.width, "%", a);
    Extend(s, l.width, l.dot, "%" + a, b);
    Extend(s, l.dot, l.precision, "%" + a + b, c);
    Extend(s, l.precision, l.size, "%" + a + b + c, d);
    Extend(s, l.size, l.conv, "%" + a + b + c + d, e);
    Extend(s, l.conv, l.conv + 1, "%" + a + b + c + d + e, [s[l.conv]]);
  }

  /** The size modifier is read back in front of a conversion character. */
  lemma SizeBack(s: string, i: nat, f: Form)
    requires WellFormed(f) && i + |PrintSize(f.size, f.i64)| < |s|
    requires s[i..i + |PrintSize(f.size, f.i64)|] == PrintSize(f.size, f.i64)
    requires s[i + |PrintSize(f.size, f.i64)|] == f.conv
    ensures SizeAt(s, i) == (f.size, f.i64)
    ensures !IsDigit(s[i]) && !IsFlag(s[i]) && s[i] != '*' && s[i] != '.'
  {
    var e := i + |PrintSize(f.size, f.i64)|;
    var z := s[i..e];
    assert At(s, e) == f.conv;
    match f.size
    case Plain =>
    case Short => assert s[i] == z[0];
    case Long => assert s[i] == z[0];
    case LongLong => assert s[i] == z[0] && s[i + 1] == z[1] && (f.i64 ==> s[i + 2] == z[2]);
    case LongDouble => assert s[i] == z[0];
  }

  /** Reading the parts recovers the form. */
  lemma ReadParts(s: string, f: Form, l: Layout)
    requires WellFormed(f) && l == PlannedLayout(f) && PartsAt(s, f, l)
    ensures LayoutOf(s) == l && FormOf(s) == f
  {
    hide *;
    PlannedFacts(f);
    PartsElim(s, f, l);
    FormFacts(f);
    SizeBack(s, l.size, f);
    DelimiterFacts(s, f, l);
    FlagsEndIs(s, 1, l.width);
    AmountBack(s, l.width, f.width);
    if f.dot {
      AmountBack(s, l.precision, f.precision);
    }
    LayoutIs(s, f, l);
  }

  lemma FormFacts(f: Form)
    requires WellFormed(f)
    ensures AllFlags(f.flags)
    ensures f.width.Literal? ==> f.width.digits != "" && AllDigits(f.width.digits)
    ensures f.precision.Literal? ==> f.precision.digits != "" && AllDigits(f.precision.digits)
    ensures !f.dot ==> f.precision == Absent && PrintAmount(f.precision) == ""
  {
  }

  /** Neither a flag, a digit nor a star follows where none should. */
  lemma DelimiterFacts(s: string, f: Form, l: Layout)
    requires WellFormed(f) && l == PlannedLayout(f) && PartsAt(s, f, l)
    requires !IsDigit(s[l.size]) && !IsFlag(s[l.size]) && s[l.size] != '*' && s[l.size] != '.'
    ensures l.conv < |s| && At(s, l.conv) == f.conv && At(s, l.size) == s[l.size]
    ensures At(s, l.dot) == if f.dot then '.' else s[l.size]
    ensures !IsFlag(At(s, l.width)) && !IsDigit(At(s, l.dot)) && At(s, l.dot) != '*'
  {
    PlannedFacts(f);
    PartsElim(s, f, l);
    FormFacts(f);
    var next := s[l.size];
    var dotChar := if f.dot then '.' else next;
    assert s[l.dot] == dotChar by {
      hide *;
      if f.dot { SliceHead(s, l.dot, l.precision, "."); }
    }
    assert !IsFlag(dotChar) && !IsDigit(dotChar) && dotChar != '*';
    hide WellFormed, PartsAt, PlannedLayout, AllFlags, AllDigits, IsFlag, IsDigit, PrintSize, PrintAmount;
    if f.width == Absent {
      NothingPrinted();
    } else {
      SliceHead(s, l.width, l.dot, PrintAmount(f.width));
      AmountHead(f);
    }
  }

  lemma NothingPrinted()
    ensures PrintAmount(Absent) == ""
  {
  }

  lemma AmountHead(f: Form)
    requires WellFormed(f) && f.width != Absent
    ensures PrintAmount(f.width) != "" && !IsFlag(PrintAmount(f.width)[0])
  {
  }

  lemma SliceHead(s: string, i: nat, j: nat, t: string)
    requires i <= j <= |s| && s[i..j] == t
    ensures t != "" ==> i < j && s[i] == t[0]
  {
  }

  lemma LayoutIs(s: string, f: Form, l: Layout)
    requires s != "" && l.width <= |s| && l.precision <= |s| && l.size <= |s| && l.dot <= |s| && l.conv <= |s|
    requires l.width == FlagsEnd(s, 1) && f.flags == s[1..l.width]
    requires f.width == AmountAt(s, l.width) && l.dot == l.width + |PrintAmount(f.width)|
    requires f.dot == (At(s, l.dot) == '.') && l.precision == (if f.dot then l.dot + 1 else l.dot)
    requires if f.dot then f.precision == AmountAt(s, l.precision) && l.size == l.precision + |PrintAmount(f.precision)|
             else f.precision == Absent && l.size == l.precision
    requires SizeAt(s, l.size) == (f.size, f.i64) && l.conv == l.size + |PrintSize(f.size, f.i64)| && f.conv == At(s, l.conv)
    ensures LayoutOf(s) == l && FormOf(s) == f
  {
    hide *;
    LayoutSame(s, l, f.width, f.dot, f.precision, f.size, f.i64);
    FormSame(s, l);
    assert f == Form(s[1..l.width], f.width, f.dot, f.precision, f.size, f.i64, f.conv);
  }

  lemma LayoutSame(s: string, l: Layout, width: Amount, dot: bool, precision: Amount, size: Size, i64: bool)
    requires s != "" && l.width == FlagsEnd(s, 1)
    requires width == AmountAt(s, l.width) && l.dot == l.width + |PrintAmount(width)|
    requires dot == (At(s, l.dot) == '.') && l.precision == if dot then l.dot + 1 else l.dot
    requires l.precision <= |s| && l.size <= |s|
    requires if dot then precision == AmountAt(s, l.precision) && l.size == l.precision + |PrintAmount(precision)|
             else l.size == l.precision
    requires SizeAt(s, l.size) == (size, i64) && l.conv == l.size + |PrintSize(size, i64)|
    ensures LayoutOf(s) == l
  {
    hide FlagsEnd, AmountAt, SizeAt, PrintAmount, PrintSize, At;
  }

  lemma FormSame(s: string, l: Layout)
    requires s != "" && LayoutOf(s) == l
    ensures FormOf(s) == Form(s[1..l.width], AmountAt(s, l.width), At(s, l.dot) == '.',
                              if At(s, l.dot) == '.' then AmountAt(s, l.precision) else Absent,
                              SizeAt(s, l.size).0, SizeAt(s, l.size).1, At(s, l.conv))
  {
    hide LayoutOf, FlagsEnd, AmountAt, SizeAt, PrintAmount, PrintSize, At;
  }

  /** Every well-formed directive, followed by anything, is read back as itself: its
      meaning, all of its text, and the arguments its stars name. */
  lemma ParsePrint(f: Form, rest: string, args: seq<Arg>, from: nat)
    requires WellFormed(f) && HasStars(f, args, from)
    ensures ParseOf(Print(f) + rest, args, from) == Parsed(Meaning(f, args, from), |Print(f)|, from + Stars(f))
  {
    PrintParts(f, rest);
    ReadParts(Print(f) + rest, f, PlannedLayout(f));
    hide Print, HasStars;
    assert At(Print(f) + rest, 0) == '%';
  }

  /** Whatever the parser accepts is the text of a well-formed directive. */
  lemma ParseOnlyPrinted(s: string, args: seq<Arg>, from: nat)
    requires ParseOf(s, args, from).Parsed?
    ensures var f := FormOf(s);
            && WellFormed(f) && HasStars(f, args, from)
            && ParseOf(s, args, from).next == |Print(f)| <= |s| && s[..|Print(f)|] == Print(f)
  {
    FormWellFormed(s);
    FormParts(s);
    JoinParts(s, FormOf(s), LayoutOf(s));
  }

  lemma FormParts(s: string)
    requires At(s, 0) == '%' && IsConversion(FormOf(s).conv)
    ensures PartsAt(s, FormOf(s), LayoutOf(s))
  {
    hide *;
    FormEnds(s);
    var f, l := FormOf(s), LayoutOf(s);
    LayoutFacts(s);
    NothingPrinted();
    AmountText(s, l.width);
    AmountText(s, l.precision);
    SizeText(s, l.size);
    DotText(s);
    PartsIntro(s, f, l);
  }

  lemma FormEnds(s: string)
    requires At(s, 0) == '%' && IsConversion(FormOf(s).conv)
    ensures s != "" && s[0] == '%'
    ensures LayoutOf(s).conv < |s| && s[LayoutOf(s).conv] == FormOf(s).conv
  {
    LayoutFacts(s);
    hide FormOf, LayoutOf, FlagsEnd, AmountAt, SizeAt, PrintAmount, PrintSize;
  }

  lemma DotText(s: string)
    requires s != "" && LayoutOf(s).conv < |s|
    ensures s[LayoutOf(s).dot..LayoutOf(s).precision] == if FormOf(s).dot then "." else ""
  {
    LayoutFacts(s);
    hide FormOf, LayoutOf, FlagsEnd, AmountAt, SizeAt, PrintAmount, PrintSize;
  }

  /** Where LayoutOf cuts, and what FormOf finds there. */
  lemma LayoutFacts(s: string)
    requires s != ""
    ensures var f, l := FormOf(s), LayoutOf(s);
            && l.width == FlagsEnd(s, 1) && f.flags == s[1..l.width]
            && f.width == AmountAt(s, l.width) && l.dot == l.width + |PrintAmount(f.width)|
            && f.dot == (At(s, l.dot) == '.') && l.precision == (if f.dot then l.dot + 1 else l.dot)
            && (if f.dot then f.precision == AmountAt(s, l.precision) && l.size == l.precision + |PrintAmount(f.precision)|
                else f.precision == Absent && l.size == l.precision)
            && SizeAt(s, l.size) == (f.size, f.i64) && l.conv == l.size + |PrintSize(f.size, f.i64)| && f.conv == At(s, l.conv)
  {
    hide FlagsEnd, AmountAt, SizeAt, PrintAmount, PrintSize, IsFlag, IsDigit;
  }

  // ------------------------------------------------------- as plain text

  /** The text of a directive, letter by letter. */
  lemma PrintIs(f: Form)
    ensures Print(f) ==
      "%" + f.flags
      + (match f.width case Absent => "" case Literal(digits) => digits case Star => "*")
      + (if f.dot then "." else "")
      + (match f.precision case Absent => "" case Literal(digits) => digits case Star => "*")
      + (match f.size
         case Plain => ""
         case Short => "h"
         case Long => "l"
         case LongLong => if f.i64 then "I64" else "ll"
         case LongDouble => "L")
      + [f.conv]
  {
  }

  /** Which forms are directives. */
  lemma WellFormedIs(f: Form)
    ensures WellFormed(f) <==>
      && (forall k :: 0 <= k < |f.flags| ==> f.flags[k] in "-+ #0")
      && (f.width.Literal? ==>
            f.width.digits != "" && f.width.digits[0] != '0'
            && forall k :: 0 <= k < |f.width.digits| ==> '0' <= f.width.digits[k] <= '9')
      && (f.precision.Literal? ==>
            f.precision.digits != "" && forall k :: 0 <= k < |f.precision.digits| ==> '0' <= f.precision.digits[k] <= '9')
      && (f.precision != Absent ==> f.dot) && (f.i64 ==> f.size == LongLong)
      && f.conv in "diouxXfeEgGcspn"
  {
    FlagText(f.flags);
    hide AllFlags, IsFlag;
  }

  lemma FlagText(s: string)
    ensures AllFlags(s) <==> forall k :: 0 <= k < |s| ==> s[k] in "-+ #0"
  {
    forall c: char ensures IsFlag(c) <==> c in "-+ #0" {
    }
  }

  /** What a directive means, flag by flag and number by number. */
  lemma MeaningIs(f: Form, args: seq<Arg>, from: nat)
    requires WellFormed(f) && HasStars(f, args, from)
    ensures var d := Meaning(f, args, from);
      && d.minus == ('-' in f.flags) && d.plus == ('+' in f.flags) && d.space == (' ' in f.flags)
      && d.hash == ('#' in f.flags) && d.zero == ('0' in f.flags && '-' !in f.flags)
      && d.size == f.size && d.conv == f.conv
      && (match f.width
          case Absent => d.width == 0
          case Literal(digits) => d.width == Decimal(digits)
          case Star => from < |args| && args[from].Num? && d.width == Signed32(args[from].v))
      && (match f.precision
          case Absent => d.precision == if f.dot then 0 else -1
          case Literal(digits) => d.precision == Decimal(digits)
          case Star =>
            var next := if f.width == Star then from + 1 else from;
            next < |args| && args[next].Num? && d.precision == Signed32(args[next].v))
  {
    hide Decimal, Signed32, WellFormed;
  }
}
