/** snprintf_convert_ulong: digits, prefixes and padding of the integer conversions. */
module Conversion {
  import opened Buffers
  import opened Splitting
  import opened Directive

  const SCRATCH := 100

  // --------------------------------------------------------- specification

  function DigitChar(d: nat, upper: bool): char
    requires d < 16
  {
    if d < 10 then '0' + d as char else (if upper then 'A' else 'a') + (d - 10) as char
  }

  /** Division and remainder by the base. */
  function Quot(v: nat, base: nat): (q: nat)
    requires base >= 2
    ensures q == 0 <==> v < base
    ensures v > 0 ==> q < v
  {
    v / base
  }

  function Rem(v: nat, base: nat): (r: nat)
    requires base >= 2
    ensures r < base && (v < base ==> r == v)
  {
    v % base
  }

  lemma Division(v: nat, base: nat)
    requires base >= 2
    ensures v == base * Quot(v, base) + Rem(v, base)
    ensures Quot(v, base) == v / base && Rem(v, base) == v % base
  {
  }

  /** The digit loop: least significant digit last, at least `precision` digits, at most `room`. */
  function Digits(v: nat, base: nat, upper: bool, precision: int, room: nat): (s: string)
    requires 2 <= base <= 16 && room > 0
    ensures 0 < |s| <= room
    decreases room
  {
    var rest := if (Quot(v, base) != 0 || precision - 1 > 0) && room > 1
                then Digits(Quot(v, base), base, upper, precision - 1, room - 1) else "";
    rest + [DigitChar(Rem(v, base), upper)]
  }

  /** The sign or base prefix as it appears in front of the digits. */
  function Prefix(base: nat, d: Directive, negative: bool): (p: string)
    ensures |p| <= 2
  {
    if negative then "-"
    else if base == 16 && d.hash then "0x"
    else if base == 10 && d.conv != 'o' && d.plus then "+"
    else if base == 10 && d.conv != 'o' && d.space then " "
    else if base == 8 && d.hash then "0"
    else ""
  }

  /** Prefix and digits; what does not fit the scratch buffer is cut off in front. */
  function Core(base: nat, d: Directive, negative: bool, v: nat, width: nat, precision: int): (s: string)
    requires 2 <= base <= 16
    ensures s != ""
  {
    var digits := Digits(v, base, d.conv == 'X', precision, SCRATCH + width);
    var prefix := Prefix(base, d, negative);
    var room := SCRATCH + width - |digits|;
    (if |prefix| <= room then prefix else prefix[|prefix| - room..]) + digits
  }

  function Pad(core: string, width: nat, leftJust: bool, pad: char): (s: string)
    ensures |s| == if |core| < width then width else |core|
  {
    if |core| >= width then core
    else if leftJust then core + Repeat(pad, width - |core|)
    else Repeat(pad, width - |core|) + core
  }

  /** What a field puts into a buffer with `left` places. */
  function Emitted(core: string, width: nat, leftJust: bool, pad: char, left: nat): (s: string)
    ensures |s| <= left
  {
    Pad(core[..Min(|core|, left)], Min(width, left), leftJust, pad)
  }

  /** The text and the padding a field consists of. */
  lemma EmittedParts(core: string, width: nat, leftJust: bool, pad: char, left: nat, n: nat)
    requires n == if Min(width, left) > Min(|core|, left) then Min(width, left) - Min(|core|, left) else 0
    ensures var text := core[..Min(|core|, left)];
            Emitted(core, width, leftJust, pad, left) == if leftJust then text + Repeat(pad, n) else Repeat(pad, n) + text
  {
    var text := core[..Min(|core|, left)];
    if n == 0 {
      assert text + Repeat(pad, 0) == text == Repeat(pad, 0) + text;
    }
  }

  function PadChar(d: Directive): char {
    if d.zero then '0' else ' '
  }

  /** The width a core is padded to: no more than the scratch space in front of it. */
  function FieldWidth(core: string, width: nat): (w: nat)
    ensures w <= width && (|core| <= 100 || width <= |core| ==> w == width)
    ensures 100 < |core| < width ==> w == 100 + width - |core|
  {
    if SCRATCH < |core| < width then width - (|core| - SCRATCH) else width
  }

  /** Padding to a width below the length of the core, or past the space left. */
  predicate PaddingFails(core: string, width: nat, left: nat) {
    |core| < width && |core| <= left && !(|core| <= FieldWidth(core, width) <= left)
  }

  // ------------------------------------------------------ the C function

  /** Writes the conversion at `at` and returns its length. The width is not clipped to
      the `left` places, so padding past them would leave the buffer. */
  method ConvertUlong(buffer: array<char>, at: nat, left: nat, base: nat, d: Directive, negative: bool,
                      value: nat, width: nat, precision: int)
    returns (len: nat)
    requires 2 <= base <= 16 && at + left <= buffer.Length
    requires !PaddingFails(Core(base, d, negative, value, width, precision), width, left)
    modifies buffer
    ensures var core := Core(base, d, negative, value, width, precision);
            var field := Emitted(core, FieldWidth(core, width), d.minus, PadChar(d), left);
            len == |field| && buffer[..at + len] == old(buffer[..at]) + field
  {
    var tmp := new char[SCRATCH + width];
    var ptr := WriteDigits(tmp, base, d.conv == 'X', value, precision);
    ptr := WritePrefix(tmp, ptr, base, d, negative);
    assert tmp[ptr..] == Core(base, d, negative, value, width, precision);
    hide *;
    len := PutField(buffer, at, left, tmp[ptr..], width, ptr, d.minus, PadChar(d));
  }

  /** The main conversion loop, backwards from the end of the scratch buffer. */
  method WriteDigits(tmp: array<char>, base: nat, upper: bool, value: nat, precision: int) returns (ptr: nat)
    requires 2 <= base <= 16 && tmp.Length > 0
    modifies tmp
    ensures ptr <= tmp.Length && tmp[ptr..] == Digits(value, base, upper, precision, tmp.Length)
  {
    var v: nat, p := value, precision;
    hide *;
    ptr := tmp.Length;
    var more := true;
    ghost var digits := Digits(value, base, upper, precision, tmp.Length);
    while more
      invariant 0 <= ptr <= tmp.Length
      invariant more ==> ptr > 0 && digits == Digits(v, base, upper, p, ptr) + tmp[ptr..]
      invariant !more ==> digits == tmp[ptr..]
      decreases ptr, more
    {
      ghost var done := tmp[ptr..];
      DigitsStep(v, base, upper, p, ptr);
      Division(v, base);
      ptr := ptr - 1;
      tmp[ptr] := DigitChar(v % base, upper);
      assert tmp[ptr..] == [tmp[ptr]] + done;
      v := v / base;
      p := p - 1;
      more := (v != 0 || p > 0) && ptr > 0;
      if more {
        Associate(Digits(v, base, upper, p, ptr), [tmp[ptr]], done);
      }
    }
  }

  lemma DigitsStep(v: nat, base: nat, upper: bool, precision: int, room: nat)
    requires 2 <= base <= 16 && room > 0
    ensures Digits(v, base, upper, precision, room) ==
            (if (Quot(v, base) != 0 || precision - 1 > 0) && room > 1
             then Digits(Quot(v, base), base, upper, precision - 1, room - 1) else "") + [DigitChar(Rem(v, base), upper)]
  {
  }

  /** The sign or base prefix, in front of what is there. */
  method WritePrefix(tmp: array<char>, start: nat, base: nat, d: Directive, negative: bool) returns (ptr: nat)
    requires start <= tmp.Length
    modifies tmp
    ensures ptr <= start
    ensures var prefix := Prefix(base, d, negative);
            tmp[ptr..] == (if |prefix| <= start then prefix else prefix[|prefix| - start..]) + old(tmp[start..])
  {
    var p0, p1 := PrefixChars(base, d, negative);
    hide *;
    ptr := start;
    ghost var after := tmp[start..];
    if p0 != '\0' && ptr > 0 {
      ptr := ptr - 1;
      tmp[ptr] := p0;
      assert tmp[ptr..] == [p0] + after;
      if p1 != '\0' && ptr > 0 {
        ptr := ptr - 1;
        tmp[ptr] := p1;
        assert tmp[ptr..] == [p1, p0] + after;
      }
    }
  }

  /** prefix[0] and prefix[1], NUL where unused; the one nearer the digits comes first. */
  method PrefixChars(base: nat, d: Directive, negative: bool) returns (p0: char, p1: char)
    ensures Prefix(base, d, negative) == if p0 == '\0' then "" else if p1 == '\0' then [p0] else [p1, p0]
  {
    p0, p1 := '\0', '\0';
    if !negative {
      if base == 16 && d.hash {
        p0, p1 := 'x', '0';
      }
      if base == 8 && d.hash {
        p0 := '0';
      }
      if base == 10 && d.conv != 'o' && d.plus {
        p0 := '+';
      } else if base == 10 && d.conv != 'o' && d.space {
        p0 := ' ';
      }
    } else {
      p0 := '-';
    }
  }

  /** Copies text into a field, cut to the space left, padded to the width; `front` is
      the scratch space in front of the text. */
  method PutField(buffer: array<char>, at: nat, left: nat, text: string, width: nat, front: nat, leftJust: bool, pad: char)
    returns (len: nat)
    requires at + left <= buffer.Length && front + |text| == SCRATCH + width
    requires !PaddingFails(text, width, left)
    modifies buffer
    ensures var field := Emitted(text, FieldWidth(text, width), leftJust, pad, left);
            len == |field| && buffer[..at + len] == old(buffer[..at]) + field
  {
    len := |text|;
    if len <= left {
      assert text[..len] == text;
      if len < width {
        var w := if width > front then front else width;
        assert w == FieldWidth(text, width);
        if leftJust {
          TextThenPad(buffer, at, text, pad, w - len);
        } else {
          PadThenText(buffer, at, text, pad, w - len);
        }
        len := w;
      } else {
        CopyInto(buffer, at, text);
      }
    } else {
      CopyInto(buffer, at, text[..left]);
      len := left;
    }
  }

  // ------------------------------------------------------------------ laws

  function CharValue(c: char): nat {
    if '0' <= c <= '9' then c as int - '0' as int
    else if 'a' <= c <= 'f' then c as int - 'a' as int + 10
    else if 'A' <= c <= 'F' then c as int - 'A' as int + 10
    else 0
  }

  function Eval(s: string, base: nat): nat {
    if s == "" then 0 else base * Eval(Front(s), base) + CharValue(Last(s))
  }

  /** How many digits a number needs. */
  function NumDigits(v: nat, base: nat): (n: nat)
    requires base >= 2
    ensures n > 0
  {
    if Quot(v, base) == 0 then 1 else 1 + NumDigits(Quot(v, base), base)
  }

  function Max(a: int, b: int): int {
    if a > b then a else b
  }

  /** With room for its digits, a number is written exactly. */
  lemma {:induction false} DigitsEval(v: nat, base: nat, upper: bool, precision: int, room: nat)
    requires 2 <= base <= 16 && NumDigits(v, base) <= room
    ensures Eval(Digits(v, base, upper, precision, room), base) == v
    decreases room
  {
    hide *;
    DigitsStep(v, base, upper, precision, room);
    NumStep(v, base);
    Division(v, base);
    OneDigit(Rem(v, base), upper);
    var last := DigitChar(Rem(v, base), upper);
    if (Quot(v, base) != 0 || precision - 1 > 0) && room > 1 {
      DigitsEval(Quot(v, base), base, upper, precision - 1, room - 1);
      EvalSnoc(Digits(Quot(v, base), base, upper, precision - 1, room - 1), last, base);
    } else {
      assert Quot(v, base) == 0;
      EvalSnoc("", last, base);
    }
  }

  /** It takes as many digits as it needs or as the precision asks for. */
  lemma {:induction false} DigitsLength(v: nat, base: nat, upper: bool, precision: int, room: nat)
    requires 2 <= base <= 16 && NumDigits(v, base) <= room
    ensures |Digits(v, base, upper, precision, room)| == Max(NumDigits(v, base), if precision < room then precision else room)
    decreases room
  {
    DigitsStep(v, base, upper, precision, room);
    NumStep(v, base);
    hide Digits, NumDigits, Quot, Rem, DigitChar;
    if (Quot(v, base) != 0 || precision - 1 > 0) && room > 1 {
      DigitsLength(Quot(v, base), base, upper, precision - 1, room - 1);
    }
  }

  lemma OneDigit(d: nat, upper: bool)
    requires d < 16
    ensures CharValue(DigitChar(d, upper)) == d && AllHex([DigitChar(d, upper)])
  {
  }

  lemma NumStep(v: nat, base: nat)
    requires 2 <= base
    ensures NumDigits(v, base) == if Quot(v, base) == 0 then 1 else 1 + NumDigits(Quot(v, base), base)
    ensures NumDigits(0, base) == 1
  {
    assert Quot(0, base) == 0;
  }

  lemma EvalSnoc(s: string, c: char, base: nat)
    ensures Eval(s + [c], base) == base * Eval(s, base) + CharValue(c) && Eval("", base) == 0
  {
    assert Front(s + [c]) == s;
  }

  /** A number written without extra digits starts with a non-zero one. */
  lemma {:induction false} TopDigit(v: nat, base: nat, upper: bool, precision: int, room: nat)
    requires 2 <= base <= 16 && v != 0 && room > 0
    requires |Digits(v, base, upper, precision, room)| == NumDigits(v, base)
    ensures Digits(v, base, upper, precision, room)[0] != '0'
    decreases room
  {
    DigitsStep(v, base, upper, precision, room);
    NumStep(v, base);
    OneDigit(Rem(v, base), upper);
    hide *;
    if Quot(v, base) != 0 && room > 1 {
      TopDigit(Quot(v, base), base, upper, precision - 1, room - 1);
    }
  }

  /** A leading zero in front of other digits is there because the precision asked for it. */
  lemma LeadingZero(v: nat, base: nat, upper: bool, precision: int, room: nat)
    requires 2 <= base <= 16 && NumDigits(v, base) <= room
    requires |Digits(v, base, upper, precision, room)| > 1 && Digits(v, base, upper, precision, room)[0] == '0'
    ensures |Digits(v, base, upper, precision, room)| <= precision
  {
    DigitsLength(v, base, upper, precision, room);
    if precision < |Digits(v, base, upper, precision, room)| {
      TopDigit(v, base, upper, precision, room);
    }
  }

  /** A digit of the base, with letters in the case asked for. */
  predicate IsDigitOf(c: char, base: nat, upper: bool) {
    && ('0' <= c <= '9' || (if upper then 'A' <= c <= 'F' else 'a' <= c <= 'f'))
    && CharValue(c) < base
  }

  lemma {:induction false} DigitsOf(v: nat, base: nat, upper: bool, precision: int, room: nat)
    requires 2 <= base <= 16 && room > 0
    ensures forall c :: c in Digits(v, base, upper, precision, room) ==> IsDigitOf(c, base, upper)
    decreases room
  {
    DigitsStep(v, base, upper, precision, room);
    OneDigitOf(Rem(v, base), base, upper);
    hide *;
    if (Quot(v, base) != 0 || precision - 1 > 0) && room > 1 {
      DigitsOf(Quot(v, base), base, upper, precision - 1, room - 1);
    }
  }

  lemma OneDigitOf(d: nat, base: nat, upper: bool)
    requires d < base <= 16
    ensures IsDigitOf(DigitChar(d, upper), base, upper)
  {
  }

  function Pow8(k: nat): nat {
    if k == 0 then 1 else 8 * Pow8(k - 1)
  }

  lemma {:induction false} FewDigits(v: nat, base: nat, k: nat)
    requires base >= 8 && k > 0 && v < Pow8(k)
    ensures NumDigits(v, base) <= k
  {
    if v >= base {
      DivideMore(v, base);
      assert k > 1;
      FewDigits(Quot(v, base), base, k - 1);
    }
  }

  lemma DivideMore(v: nat, base: nat)
    requires base >= 8
    ensures Quot(v, base) <= v / 8
  {
    Division(v, base);
    var q := Quot(v, base);
    hide Quot, Rem;
    Scale(q, base);
  }

  lemma Scale(q: nat, base: nat)
    requires base >= 8
    ensures base * q >= 8 * q
  {
  }

  /** Any 64-bit value has at most 22 digits, in octal. */
  lemma Word64(v: nat, base: nat)
    requires base >= 8 && v < 0x1_0000_0000_0000_0000
    ensures NumDigits(v, base) <= 22
  {
    assert Pow8(6) == 0x4_0000;
    assert Pow8(12) == 0x10_0000_0000;
    assert Pow8(18) == 0x40_0000_0000_0000;
    assert Pow8(22) == 0x4_0000_0000_0000_0000;
    FewDigits(v, base, 22);
  }

  function SkipBlanks(s: string): string {
    if s != "" && s[0] == ' ' then SkipBlanks(s[1..]) else s
  }

  function DropBlanks(s: string): string {
    if s != "" && Last(s) == ' ' then DropBlanks(Front(s)) else s
  }

  /** Reads a number the way a reader of the output would: blanks off, then sign or base prefix, then digits. */
  function ReadInt(s: string, base: nat): int {
    ReadTrimmed(DropBlanks(SkipBlanks(s)), base)
  }

  function ReadTrimmed(t: string, base: nat): int {
    if t != "" && t[0] == '-' then -(Eval(t[1..], base) as int)
    else if t != "" && t[0] == '+' then Eval(t[1..], base)
    else if base == 16 && "0x" <= t then Eval(t[2..], base)
    else Eval(t, base)
  }

  predicate AllHex(s: string) {
    forall k :: 0 <= k < |s| ==> '0' <= s[k] <= '9' || 'a' <= s[k] <= 'f' || 'A' <= s[k] <= 'F'
  }

  lemma {:induction false} DigitsHex(v: nat, base: nat, upper: bool, precision: int, room: nat)
    requires 2 <= base <= 16 && room > 0
    ensures AllHex(Digits(v, base, upper, precision, room))
    decreases room
  {
    DigitsStep(v, base, upper, precision, room);
    OneDigit(Rem(v, base), upper);
    hide *;
    if (Quot(v, base) != 0 || precision - 1 > 0) && room > 1 {
      DigitsHex(Quot(v, base), base, upper, precision - 1, room - 1);
      HexAppend(Digits(Quot(v, base), base, upper, precision - 1, room - 1), [DigitChar(Rem(v, base), upper)]);
    } else {
      assert "" + [DigitChar(Rem(v, base), upper)] == [DigitChar(Rem(v, base), upper)];
    }
  }

  lemma HexAppend(a: string, b: string)
    requires AllHex(a) && AllHex(b)
    ensures AllHex(a + b)
  {
  }

  lemma {:induction false} SkipRepeat(n: nat, s: string)
    ensures SkipBlanks(Repeat(' ', n) + s) == SkipBlanks(s)
  {
    var t := Repeat(' ', n) + s;
    if n == 0 {
      assert t == s;
    } else {
      assert t[1..] == Repeat(' ', n - 1) + s;
      SkipRepeat(n - 1, s);
    }
  }

  lemma {:induction false} DropRepeat(n: nat, s: string)
    ensures DropBlanks(s + Repeat(' ', n)) == DropBlanks(s)
  {
    var t := s + Repeat(' ', n);
    if n == 0 {
      assert t == s;
    } else {
      assert Front(t) == s + Repeat(' ', n - 1);
      DropRepeat(n - 1, s);
    }
  }

  lemma SkipPad(core: string, width: nat, leftJust: bool)
    requires core != "" && Last(core) != ' '
    ensures DropBlanks(SkipBlanks(Pad(core, width, leftJust, ' '))) == SkipBlanks(core)
  {
    SkipKeepsEnd(core);
    if |core| < width {
      var n := width - |core|;
      if leftJust {
        SkipAppend(core, Repeat(' ', n));
        DropRepeat(n, SkipBlanks(core));
      } else {
        SkipRepeat(n, core);
      }
    }
  }

  lemma {:induction false} SkipKeepsEnd(s: string)
    requires s != "" && Last(s) != ' '
    ensures SkipBlanks(s) != "" && Last(SkipBlanks(s)) == Last(s)
  {
    if s[0] == ' ' {
      SkipKeepsEnd(s[1..]);
    }
  }

  lemma {:induction false} SkipAppend(s: string, t: string)
    requires s != "" && Last(s) != ' '
    ensures SkipBlanks(s + t) == SkipBlanks(s) + t
  {
    if s[0] == ' ' {
      assert (s + t)[1..] == s[1..] + t;
      SkipAppend(s[1..], t);
    }
  }

  /** Space-padded output is read back as the value converted, over the whole 64-bit range. */
  lemma ReadBack(base: nat, d: Directive, negative: bool, v: nat, width: nat, precision: int)
    requires base == 8 || base == 10 || base == 16
    requires v < 0x1_0000_0000_0000_0000 && precision <= SCRATCH - 2
    ensures ReadInt(Pad(Core(base, d, negative, v, width, precision), width, d.minus, ' '), base) == if negative then -(v as int) else v
  {
    hide *;
    var core := Core(base, d, negative, v, width, precision);
    var prefix, digits := CoreParts(base, d, negative, v, width, precision);
    LastOfCore(prefix, digits);
    SkipPad(core, width, d.minus);
    PrefixCases(base, d, negative);
    ReadCore(prefix, digits, base, Pad(core, width, d.minus, ' '));
  }

  lemma LastOfCore(prefix: string, digits: string)
    requires digits != "" && AllHex(digits)
    ensures prefix + digits != "" && Last(prefix + digits) != ' '
  {
    assert Last(prefix + digits) == digits[|digits| - 1];
  }

  lemma PrefixCases(base: nat, d: Directive, negative: bool)
    ensures Prefix(base, d, negative) in {"", "-", "+", " ", "0", "0x"}
    ensures Prefix(base, d, negative) == "-" <==> negative
    ensures Prefix(base, d, negative) == "0x" ==> base == 16
  {
  }

  /** Reading a field that, blanks off, is one of the prefixes and digits. */
  lemma ReadCore(prefix: string, digits: string, base: nat, field: string)
    requires prefix in {"", "-", "+", " ", "0", "0x"} && digits != "" && AllHex(digits)
    requires prefix == "0x" ==> base == 16
    requires DropBlanks(SkipBlanks(field)) == SkipBlanks(prefix + digits)
    ensures ReadInt(field, base) == if prefix == "-" then -(Eval(digits, base) as int) else Eval(digits, base)
  {
    assert ReadInt(field, base) == ReadTrimmed(SkipBlanks(prefix + digits), base);
    hide *;
    SkipFirst(prefix, digits);
    if prefix == " " || prefix == "" {
      ReadDigits(digits, base);
    } else {
      ReadPrefixed(prefix, digits, base);
    }
  }

  lemma ReadDigits(digits: string, base: nat)
    requires digits != "" && AllHex(digits)
    ensures ReadTrimmed(digits, base) == Eval(digits, base)
  {
    assert digits[0] != '-' && digits[0] != '+' && (|digits| > 1 ==> digits[1] != 'x');
  }

  lemma ReadPrefixed(prefix: string, digits: string, base: nat)
    requires prefix in {"-", "+", "0", "0x"} && digits != "" && AllHex(digits)
    requires prefix == "0x" ==> base == 16
    ensures ReadTrimmed(prefix + digits, base) == if prefix == "-" then -(Eval(digits, base) as int) else Eval(digits, base)
  {
    var core := prefix + digits;
    assert core[|prefix|..] == digits && core[0] == prefix[0];
    assert digits[0] != 'x';
    if prefix == "0" {
      assert core[1] == digits[0];
      EvalZero(digits, base);
    }
  }

  /** Only the blank prefix is skipped. */
  lemma SkipFirst(prefix: string, digits: string)
    requires prefix in {"", "-", "+", " ", "0", "0x"} && digits != "" && AllHex(digits)
    ensures SkipBlanks(prefix + digits) == if prefix == " " then digits else prefix + digits
    ensures "" + digits == digits
  {
    assert digits[0] != ' ';
    assert prefix == " " ==> (prefix + digits)[1..] == digits;
    assert prefix != "" ==> (prefix + digits)[0] == prefix[0];
  }

  /** With precision at most 98 nothing is cut off: the core is the prefix and the digits. */
  lemma CoreParts(base: nat, d: Directive, negative: bool, v: nat, width: nat, precision: int)
    returns (prefix: string, digits: string)
    requires base == 8 || base == 10 || base == 16
    requires v < 0x1_0000_0000_0000_0000 && precision <= SCRATCH - 2
    ensures prefix == Prefix(base, d, negative)
    ensures digits != "" && AllHex(digits) && Eval(digits, base) == v
    ensures |digits| == Max(NumDigits(v, base), precision)
    ensures Core(base, d, negative, v, width, precision) == prefix + digits
    ensures digits == Digits(v, base, d.conv == 'X', precision, SCRATCH + width) && NumDigits(v, base) <= 22
  {
    var room: nat := SCRATCH + width;
    assert room >= 100;
    hide *;
    prefix, digits := Prefix(base, d, negative), Digits(v, base, d.conv == 'X', precision, room);
    Word64(v, base);
    DigitsEval(v, base, d.conv == 'X', precision, room);
    DigitsLength(v, base, d.conv == 'X', precision, room);
    DigitsHex(v, base, d.conv == 'X', precision, room);
    MaxBounds(NumDigits(v, base), if precision < room then precision else room, precision, room);
    CoreWhole(base, d, negative, v, width, precision);
  }

  lemma MaxBounds(n: nat, clipped: int, precision: int, room: nat)
    requires n <= 22 && room >= SCRATCH && precision <= SCRATCH - 2
    requires clipped == if precision < room then precision else room
    ensures Max(n, clipped) == Max(n, precision) <= room - 2
  {
  }

  lemma CoreWhole(base: nat, d: Directive, negative: bool, v: nat, width: nat, precision: int)
    requires 2 <= base <= 16
    requires |Digits(v, base, d.conv == 'X', precision, SCRATCH + width)| <= SCRATCH + width - 2
    ensures Core(base, d, negative, v, width, precision) ==
            Prefix(base, d, negative) + Digits(v, base, d.conv == 'X', precision, SCRATCH + width)
  {
    hide Digits, Prefix;
  }

  lemma {:induction false} EvalZero(s: string, base: nat)
    ensures Eval("0" + s, base) == Eval(s, base)
  {
    if s != "" {
      assert Front("0" + s) == "0" + Front(s);
      EvalZero(Front(s), base);
    } else {
      assert "0" + s == "0" && Front("0") == "";
    }
  }

  /** Padding with zeros puts them in front of a sign or base prefix: the prefix leads
      the field exactly when no zero is added. */
  lemma ZerosBeforePrefix(base: nat, d: Directive, negative: bool, v: nat, width: nat, precision: int)
    requires base == 10 || base == 16
    requires v < 0x1_0000_0000_0000_0000 && precision <= SCRATCH - 2 && !d.minus
    requires Prefix(base, d, negative) != ""
    ensures var prefix, core := Prefix(base, d, negative), Core(base, d, negative, v, width, precision);
            prefix <= Pad(core, width, false, '0') <==> width <= |core|
  {
    var prefix, digits := CoreParts(base, d, negative, v, width, precision);
    var core := prefix + digits;
    PrefixCases(base, d, negative);
    hide Core, Prefix, Digits, NumDigits, Eval;
    if |core| < width {
      var field := Pad(core, width, false, '0');
      assert field[0] == '0';
      if prefix == "0x" {
        assert field[1] != 'x' by {
          if width - |core| == 1 { assert field[1] == core[0]; }
        }
      }
    }
  }
}
