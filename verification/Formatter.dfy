/** myvsnprintf: the bounded formatter, and the unbounded renderer it refines. */
module Formatter {
  import opened Buffers
  import opened Bytes
  import opened Splitting
  import opened Directive
  import opened Conversion

  // ---------------------------------------------------------------- fields

  /** A formatted argument before it is cut or padded. Only integers have a width that is not clipped to the space left. */
  datatype Field = Field(core: string, width: nat, leftJust: bool, pad: char, integer: bool)

  datatype Item = Unsupported | Item(field: Field, used: nat)

  function Unsigned(v: int, bits: int): nat
    requires bits == 32 || bits == 64
  {
    if bits == 32 then v % 0x1_0000_0000 else v % 0x1_0000_0000_0000_0000
  }

  function Signed(v: int, bits: int): int
    requires bits == 32 || bits == 64
  {
    if bits == 32 then Signed32(v) else Signed64(v)
  }

  /** va_arg takes 64 bits with l, ll and I64, and 32 without; h and L change nothing. */
  function Bits(size: Size): int {
    if size == Long || size == LongLong then 64 else 32
  }

  function Base(conv: char): nat {
    if conv == 'x' || conv == 'X' then 16 else if conv == 'o' then 8 else 10
  }

  predicate IsSigned(conv: char) {
    conv == 'd' || conv == 'i'
  }

  predicate IsInteger(conv: char) {
    IsSigned(conv) || conv == 'x' || conv == 'X' || conv == 'o' || conv == 'u'
  }

  /** Magnitude and sign of the number an integer conversion prints. */
  function Magnitude(d: Directive, v: int): (r: (nat, bool)) {
    if IsSigned(d.conv) then
      var n := Signed(v, Bits(d.size));
      if n < 0 then (-n, true) else (n, false)
    else (Unsigned(v, Bits(d.size)), false)
  }

  /** The precision as the conversions use it: 0 when none was given. */
  function Precision(d: Directive): nat {
    if d.precision < 0 then 0 else d.precision
  }

  function TextCore(d: Directive, s: string): string {
    if d.precision < 0 || d.precision > |s| then s else s[..d.precision]
  }

  /** What a directive prints. A negative star width, floating point, "%n" and an argument
      of the wrong kind are outside the model. */
  function ItemOf(d: Directive, args: seq<Arg>, a: nat): Item {
    if d.width < 0 then Unsupported
    else if d.conv == 'p' then Item(Field("", 0, false, ' ', false), a)
    else if a >= |args| then Unsupported
    else if IsInteger(d.conv) && args[a].Num? then
      var (v, negative) := Magnitude(d, args[a].v);
      Item(Field(Core(Base(d.conv), d, negative, v, d.width, Precision(d)), d.width, d.minus, PadChar(d), true), a + 1)
    else if d.conv == 'c' && args[a].Num? then
      Item(Field([(args[a].v % 256) as char], d.width, d.minus, PadChar(d), false), a + 1)
    else if d.conv == 's' && !args[a].Num? then
      Item(Field(TextCore(d, if args[a].Null? then "(null)" else args[a].s), d.width, d.minus, PadChar(d), false), a + 1)
    else Unsupported
  }

  /** The width a field is padded to. */
  function Width(f: Field): nat {
    if f.integer then FieldWidth(f.core, f.width) else f.width
  }

  function Whole(f: Field): string {
    Pad(f.core, Width(f), f.leftJust, f.pad)
  }

  function Cut(f: Field, left: nat): (s: string)
    ensures |s| <= left
  {
    Emitted(f.core, Width(f), f.leftJust, f.pad, left)
  }

  /** An integer field wider than the space left is padded past the end of the buffer. */
  predicate Overruns(f: Field, left: nat) {
    f.integer && PaddingFails(f.core, f.width, left)
  }

  /** An integer of more than SCRATCH characters whose padding has a negative length. */
  predicate Broken(f: Field) {
    f.integer && Width(f) < |f.core| < f.width
  }

  // ------------------------------------------------------------- renderers

  /** The whole text; the text up to a malformed directive; or nothing that the model describes. */
  datatype Rendering = Done(text: string) | Malformed(text: string) | Lost

  function Before(p: string, r: Rendering): Rendering {
    match r
    case Done(t) => Done(p + t)
    case Malformed(t) => Malformed(p + t)
    case Lost => Lost
  }

  /** The output without any bound. */
  function Render(fmt: string, k: nat, args: seq<Arg>, a: nat): Rendering
    requires k <= |fmt|
    decreases |fmt| - k
  {
    if k == |fmt| then Done("")
    else if fmt[k] == '%' then
      if At(fmt, k + 1) == '%' then Before("%", Render(fmt, k + 2, args, a))
      else
        match ParseOf(fmt[k..], args, a)
        case Bad => Malformed("")
        case Undefined => Lost
        case Parsed(d, next, used) =>
          match ItemOf(d, args, used)
          case Unsupported => Lost
          case Item(f, used') =>
            if Broken(f) then Lost else Before(Whole(f), Render(fmt, k + next, args, used'))
    else Before([fmt[k]], Render(fmt, k + 1, args, a))
  }

  datatype Code = Complete | Truncated | Faulty

  datatype Outcome = Outcome(text: string, code: Code) | Overrun

  function After(p: string, o: Outcome): Outcome {
    match o
    case Outcome(t, c) => Outcome(p + t, c)
    case Overrun => Overrun
  }

  /** What reaches a buffer with `left` places, and how the call ends. */
  function Bounded(fmt: string, k: nat, args: seq<Arg>, a: nat, left: nat): Outcome
    requires k <= |fmt|
    decreases |fmt| - k
  {
    if k == |fmt| then Outcome("", if left == 0 then Truncated else Complete)
    else if left == 0 then Outcome("", Truncated)
    else if fmt[k] == '%' then
      if At(fmt, k + 1) == '%' then After("%", Bounded(fmt, k + 2, args, a, left - 1))
      else
        match ParseOf(fmt[k..], args, a)
        case Bad => Outcome("", Faulty)
        case Undefined => Overrun
        case Parsed(d, next, used) =>
          match ItemOf(d, args, used)
          case Unsupported => Overrun
          case Item(f, used') =>
            if Overruns(f, left) then Overrun
            else After(Cut(f, left), Bounded(fmt, k + next, args, used', left - |Cut(f, left)|))
    else After([fmt[k]], Bounded(fmt, k + 1, args, a, left - 1))
  }

  // ------------------------------------------------------ the C function

  /** The "%s" case: precision and width clipped to the space left. */
  method PutString(buffer: array<char>, at: nat, left: nat, text: string, width: nat, leftJust: bool, pad: char)
    returns (len: nat)
    requires at + left <= buffer.Length
    modifies buffer
    ensures var field := Emitted(text, width, leftJust, pad, left);
            len == |field| && buffer[..at + len] == old(buffer[..at]) + field
  {
    var precision: nat := |text|;
    if precision > left {
      precision := left;
    }
    len := width;
    if len > left {
      len := left;
    }
    if len < precision {
      len := precision;
    }
    var i: nat := len - precision;
    assert precision == Min(|text|, left);
    EmittedParts(text, width, leftJust, pad, left, i);
    hide *;
    if leftJust {
      TextThenPad(buffer, at, text[..precision], pad, i);
    } else {
      PadThenText(buffer, at, text[..precision], pad, i);
    }
  }

  /** The "%c" case. */
  method PutChar(buffer: array<char>, at: nat, left: nat, c: char, width: nat, leftJust: bool, pad: char)
    returns (len: nat)
    requires at + left <= buffer.Length && left > 0
    modifies buffer
    ensures var field := Emitted([c], width, leftJust, pad, left);
            len == |field| && buffer[..at + len] == old(buffer[..at]) + field
  {
    if width == 0 {
      CopyInto(buffer, at, [c]);
      len := 1;
    } else {
      len := if width > left then left else width;
      var i: nat := len - 1;
      if leftJust {
        TextThenPad(buffer, at, [c], pad, i);
      } else {
        PadThenText(buffer, at, [c], pad, i);
      }
    }
  }

  /** The switch over the conversion character. */
  method PutItem(buffer: array<char>, at: nat, left: nat, d: Directive, args: seq<Arg>, a: nat)
    returns (len: nat, used: nat)
    requires at + left <= buffer.Length && left > 0
    requires ItemOf(d, args, a).Item? && !Overruns(ItemOf(d, args, a).field, left)
    modifies buffer
    ensures var item := ItemOf(d, args, a);
            used == item.used && len == |Cut(item.field, left)| && buffer[..at + len] == old(buffer[..at]) + Cut(item.field, left)
  {
    hide Core, Emitted, Signed, Unsigned, Bits;
    if d.conv == 'p' {
      NothingCut(left);
      assert Cut(ItemOf(d, args, a).field, left) == "";
      return 0, a;
    }
    used := a + 1;
    if d.conv == 'c' {
      len := PutChar(buffer, at, left, (args[a].v % 256) as char, d.width, d.minus, PadChar(d));
    } else if d.conv == 's' {
      var text := if args[a].Null? then "(null)" else args[a].s;
      if d.precision >= 0 && d.precision <= |text| {
        text := text[..d.precision];
      }
      len := PutString(buffer, at, left, text, d.width, d.minus, PadChar(d));
    } else {
      var (v, negative) := Magnitude(d, args[a].v);
      len := ConvertUlong(buffer, at, left, Base(d.conv), d, negative, v, d.width, Precision(d));
    }
  }

  lemma NothingCut(left: nat)
    ensures Emitted("", 0, false, ' ', left) == ""
  {
  }

  /** myvsnprintf. Defined whenever no integer field is padded past the buffer. */
  method Vsnprintf(buffer: array<char>, size: nat, fmt: string, args: seq<Arg>) returns (code: int)
    requires size <= buffer.Length
    requires size > 0 ==> Bounded(fmt, 0, args, 0, size - 1).Outcome?
    modifies buffer
    ensures size == 0 ==> code == -1 && buffer[..] == old(buffer[..])
    ensures size > 0 ==>
      var o := Bounded(fmt, 0, args, 0, size - 1);
      && |o.text| < size && buffer[..|o.text|] == o.text && buffer[|o.text|] == '\0'
      && code == match o.code case Complete => |o.text| as int case Truncated => -1 case Faulty => -2
  {
    hide *;
    if size == 0 {
      return -1;
    }
    ghost var whole := Bounded(fmt, 0, args, 0, size - 1);
    var left: nat, at: nat, k: nat, a: nat := size - 1, 0, 0, 0;
    AfterNothing(whole);
    while k < |fmt|
      invariant k <= |fmt| && at + left == size - 1
      invariant whole == After(buffer[..at], Bounded(fmt, k, args, a, left))
      decreases |fmt| - k
    {
      ghost var text := buffer[..at];
      BoundedStep(fmt, k, args, a, left);
      if fmt[k] == '%' && At(fmt, k + 1) == '%' && left > 0 {
        buffer[at] := '%';
        at, left, k := at + 1, left - 1, k + 2;
        assert buffer[..at] == text + "%";
        AfterAfter(text, "%", Bounded(fmt, k, args, a, left));
      } else if left == 0 {
        buffer[at] := '\0';
        AfterOutcome(text, "", Truncated);
        return -1;
      } else if fmt[k] == '%' {
        var p := GetDirective(fmt[k..], args, a);
        AfterOutcome(text, "", Faulty);
        AfterOverrun(text);
        if p == Bad {
          buffer[at] := '\0';
          return -2;
        }
        ghost var cut := Cut(ItemOf(p.d, args, p.used).field, left);
        var len;
        len, a := PutItem(buffer, at, left, p.d, args, p.used);
        at, left, k := at + len, left - len, k + p.next;
        AfterAfter(text, cut, Bounded(fmt, k, args, a, left));
      } else {
        buffer[at] := fmt[k];
        at, left, k := at + 1, left - 1, k + 1;
        assert buffer[..at] == text + [fmt[k - 1]];
        AfterAfter(text, [fmt[k - 1]], Bounded(fmt, k, args, a, left));
      }
    }
    BoundedEnd(fmt, args, a, left);
    AfterOutcome(buffer[..at], "", if left == 0 then Truncated else Complete);
    buffer[at] := '\0';
    if left == 0 {
      return -1;
    }
    return size - left - 1;
  }

  lemma AfterNothing(o: Outcome)
    ensures After("", o) == o
  {
    if o.Outcome? { assert "" + o.text == o.text; }
  }

  lemma AfterAfter(p: string, q: string, o: Outcome)
    ensures After(p, After(q, o)) == After(p + q, o)
  {
    if o.Outcome? { assert p + (q + o.text) == p + q + o.text; }
  }

  lemma AfterOutcome(p: string, t: string, c: Code)
    ensures After(p, Outcome(t, c)) == Outcome(p + t, c) && p + "" == p
  {
  }

  lemma AfterOverrun(p: string)
    ensures After(p, Overrun) == Overrun
  {
  }

  lemma BoundedEnd(fmt: string, args: seq<Arg>, a: nat, left: nat)
    ensures Bounded(fmt, |fmt|, args, a, left) == Outcome("", if left == 0 then Truncated else Complete)
  {
  }

  /** Bounded, unfolded once. */
  lemma BoundedStep(fmt: string, k: nat, args: seq<Arg>, a: nat, left: nat)
    requires k < |fmt|
    ensures left == 0 ==> Bounded(fmt, k, args, a, left) == Outcome("", Truncated)
    ensures left > 0 && fmt[k] == '%' && At(fmt, k + 1) == '%' ==>
      k + 2 <= |fmt| && Bounded(fmt, k, args, a, left) == After("%", Bounded(fmt, k + 2, args, a, left - 1))
    ensures left > 0 && fmt[k] == '%' && At(fmt, k + 1) != '%' ==>
      match ParseOf(fmt[k..], args, a)
      case Bad => Bounded(fmt, k, args, a, left) == Outcome("", Faulty)
      case Undefined => Bounded(fmt, k, args, a, left) == Overrun
      case Parsed(d, next, used) =>
        match ItemOf(d, args, used)
        case Unsupported => Bounded(fmt, k, args, a, left) == Overrun
        case Item(f, used') =>
          if Overruns(f, left) then Bounded(fmt, k, args, a, left) == Overrun
          else
            k + next <= |fmt|
            && Bounded(fmt, k, args, a, left) == After(Cut(f, left), Bounded(fmt, k + next, args, used', left - |Cut(f, left)|))
    ensures left > 0 && fmt[k] != '%' ==>
      Bounded(fmt, k, args, a, left) == After([fmt[k]], Bounded(fmt, k + 1, args, a, left - 1))
  {
  }

  // ------------------------------------------------------------------ laws

  /** What a bound of `left` places makes of a rendering: its beginning, reported as
      complete only if a place is left over. */
  function Clipped(r: Rendering, left: nat): Outcome {
    match r
    case Done(t) => if |t| < left then Outcome(t, Complete) else Outcome(t[..left], Truncated)
    case Malformed(t) => if |t| < left then Outcome(t, Faulty) else Outcome(t[..left], Truncated)
    case Lost => Overrun
  }

  /** A field that a cut leaves in place: no padding stands in front of the text. */
  predicate Steady(f: Field) {
    Width(f) <= |f.core| || (f.leftJust && !f.integer)
  }

  /** All the fields of a format are steady. */
  predicate AllSteady(fmt: string, k: nat, args: seq<Arg>, a: nat)
    requires k <= |fmt|
    decreases |fmt| - k
  {
    if k == |fmt| then true
    else if fmt[k] == '%' then
      if At(fmt, k + 1) == '%' then AllSteady(fmt, k + 2, args, a)
      else
        match ParseOf(fmt[k..], args, a)
        case Parsed(d, next, used) =>
          (match ItemOf(d, args, used)
           case Unsupported => true
           case Item(f, used') => Steady(f) && AllSteady(fmt, k + next, args, used'))
        case _ => true
    else AllSteady(fmt, k + 1, args, a)
  }

  function Length(r: Rendering): nat {
    if r.Lost? then 0 else |r.text|
  }

  /** The bounded formatter writes the beginning of the unbounded rendering, and reports
      whether it was the whole. */
  lemma {:induction false} BoundedRefines(fmt: string, k: nat, args: seq<Arg>, a: nat, left: nat)
    requires k <= |fmt| && !Render(fmt, k, args, a).Lost?
    requires Length(Render(fmt, k, args, a)) <= left || AllSteady(fmt, k, args, a)
    ensures Bounded(fmt, k, args, a, left) == Clipped(Render(fmt, k, args, a), left)
    decreases |fmt| - k
  {
    hide *;
    RenderStep(fmt, k, args, a);
    ClippedEdges(left);
    if k == |fmt| {
      BoundedEnd(fmt, args, a, left);
    } else if left == 0 {
      BoundedFull(fmt, k, args, a);
      ClippedNothing(Render(fmt, k, args, a));
    } else {
      BoundedStep(fmt, k, args, a, left);
      if fmt[k] != '%' {
        var rest := Render(fmt, k + 1, args, a);
        BeforeLength([fmt[k]], rest);
        BoundedRefines(fmt, k + 1, args, a, left - 1);
        ClippedBefore([fmt[k]], rest, left);
      } else if At(fmt, k + 1) == '%' {
        var rest := Render(fmt, k + 2, args, a);
        BeforeLength("%", rest);
        BoundedRefines(fmt, k + 2, args, a, left - 1);
        ClippedBefore("%", rest, left);
      } else {
        match ParseOf(fmt[k..], args, a)
        case Bad =>
        case Undefined =>
        case Parsed(d, next, used) =>
          var item := ItemOf(d, args, used);
          var f, rest := item.field, Render(fmt, k + next, args, item.used);
          BeforeLength(Whole(f), rest);
          CutWhole(f, left);
          if |Whole(f)| <= left {
            BoundedRefines(fmt, k + next, args, item.used, left - |Whole(f)|);
            ClippedBefore(Whole(f), rest, left);
          } else {
            BoundedFull(fmt, k + next, args, item.used);
            ClippedFull(Whole(f), rest, left);
          }
      }
    }
  }

  lemma BeforeLength(p: string, r: Rendering)
    ensures Before(p, r).Lost? <==> r.Lost?
    ensures !r.Lost? ==> Length(Before(p, r)) == |p| + Length(r)
  {
  }

  lemma ClippedEdges(left: nat)
    ensures Clipped(Done(""), left) == Outcome("", if left == 0 then Truncated else Complete)
    ensures left > 0 ==> Clipped(Malformed(""), left) == Outcome("", Faulty)
  {
  }

  lemma ClippedNothing(r: Rendering)
    requires !r.Lost?
    ensures Clipped(r, 0) == Outcome("", Truncated)
  {
  }

  lemma ClippedBefore(p: string, r: Rendering, left: nat)
    requires |p| <= left
    ensures Clipped(Before(p, r), left) == After(p, Clipped(r, left - |p|))
  {
    if !r.Lost? && |r.text| >= left - |p| {
      assert (p + r.text)[..left] == p + r.text[..left - |p|];
    }
  }

  lemma ClippedFull(p: string, r: Rendering, left: nat)
    requires |p| > left && !r.Lost?
    ensures Clipped(Before(p, r), left) == After(p[..left], Outcome("", Truncated))
  {
    assert (p + r.text)[..left] == p[..left] == p[..left] + "";
  }

  lemma BoundedFull(fmt: string, k: nat, args: seq<Arg>, a: nat)
    requires k <= |fmt|
    ensures Bounded(fmt, k, args, a, 0) == Outcome("", Truncated)
  {
  }

  /** A field that fits is written whole; a steady one that does not is cut short. */
  lemma CutWhole(f: Field, left: nat)
    requires !Broken(f)
    ensures |Whole(f)| <= left ==> Cut(f, left) == Whole(f) && !Overruns(f, left)
    ensures |Whole(f)| > left && Steady(f) ==> Cut(f, left) == Whole(f)[..left] && |Cut(f, left)| == left && !Overruns(f, left)
  {
    if |f.core| <= left {
      assert f.core[..|f.core|] == f.core;
    }
  }

  predicate AllPadding(s: string, pad: char) {
    forall k :: 0 <= k < |s| ==> s[k] == pad
  }

  /** A field that looks the same cut to `left` places as it begins when whole: it fits,
      has no padding in front, or shows nothing but padding characters anyway. */
  predicate CutsCleanly(f: Field, left: nat) {
    || |Whole(f)| <= left
    || f.leftJust
    || Width(f) <= |f.core|
    || AllPadding(f.core[..Min(|f.core|, left)], f.pad)
  }

  lemma CutExact(f: Field, left: nat)
    ensures Cut(f, left) == Whole(f)[..Min(left, |Whole(f)|)] <==> CutsCleanly(f, left)
  {
    if |f.core| <= left {
      assert f.core[..|f.core|] == f.core;
    }
    if |Whole(f)| > left && !f.leftJust && Width(f) > |f.core| {
      CutShifts(f, left);
    }
  }

  /** A right-justified field that does not fit: the cut one has less padding in front. */
  lemma CutShifts(f: Field, left: nat)
    requires !f.leftJust && Width(f) > |f.core| && |Whole(f)| > left
    ensures Cut(f, left) == Whole(f)[..left] <==> AllPadding(f.core[..Min(|f.core|, left)], f.pad)
  {
    var m, front := Min(|f.core|, left), Width(f) - |f.core|;
    var cut, whole := Cut(f, left), Whole(f)[..left];
    assert forall j :: 0 <= j < left ==> cut[j] == if j < left - m then f.pad else f.core[j - (left - m)];
    assert forall j :: 0 <= j < left ==> whole[j] == if j < front then f.pad else f.core[j - front];
    if cut == whole {
      forall k | 0 <= k < m ensures f.core[k] == f.pad {
        ShiftedPadding(f.core, f.pad, cut, left, m, front, k);
      }
    } else if AllPadding(f.core[..m], f.pad) {
      forall j | 0 <= j < left ensures cut[j] == whole[j] {
        if j >= left - m { assert f.core[j - (left - m)] == f.core[..m][j - (left - m)]; }
        if j >= front { assert f.core[j - front] == f.core[..m][j - front]; }
      }
    }
  }

  /** A text that equals itself moved back by some places behind padding is all padding. */
  lemma {:induction false} ShiftedPadding(core: string, pad: char, shown: string, left: nat, m: nat, front: nat, k: nat)
    requires k < m <= |core| && m <= left == |shown| && left - m < front && left <= front + |core|
    requires forall j :: 0 <= j < left ==> shown[j] == if j < left - m then pad else core[j - (left - m)]
    requires forall j :: 0 <= j < left ==> shown[j] == if j < front then pad else core[j - front]
    ensures core[k] == pad
  {
    var j := k + (left - m);
    assert shown[j] == core[k];
    if j >= front {
      ShiftedPadding(core, pad, shown, left, m, front, j - front);
    }
  }

  // ---------------------------------------------------------- whole calls

  /** A field of a format and the offset at which the unbounded rendering puts it. */
  datatype Place = Place(offset: nat, field: Field)

  /** The directives of a format, the first being preceded by `offset` characters. */
  function Places(fmt: string, k: nat, args: seq<Arg>, a: nat, offset: nat): (ps: seq<Place>)
    requires k <= |fmt|
    ensures forall i :: 0 <= i < |ps| ==> ps[i].offset >= offset
    decreases |fmt| - k
  {
    if k == |fmt| then []
    else if fmt[k] == '%' then
      if At(fmt, k + 1) == '%' then Places(fmt, k + 2, args, a, offset + 1)
      else
        match ParseOf(fmt[k..], args, a)
        case Parsed(d, next, used) =>
          (match ItemOf(d, args, used)
           case Unsupported => []
           case Item(f, used') => [Place(offset, f)] + Places(fmt, k + next, args, used', offset + |Whole(f)|))
        case _ => []
    else Places(fmt, k + 1, args, a, offset + 1)
  }

  /** An integer that still fits the places behind it, but is padded past them. */
  predicate Spills(p: Place, size: nat) {
    p.offset < size && p.field.integer && |p.field.core| <= size - p.offset < Width(p.field)
  }

  predicate AnySpills(ps: seq<Place>, size: nat) {
    exists i :: 0 <= i < |ps| && Spills(ps[i], size)
  }

  predicate AllCutCleanly(ps: seq<Place>, size: nat) {
    forall i :: 0 <= i < |ps| && ps[i].offset < size ==> CutsCleanly(ps[i].field, size - ps[i].offset)
  }

  /** A call that the model describes leaves its buffer exactly when an integer field that
      starts inside is padded past the end; otherwise the buffer holds the beginning of the
      unbounded rendering exactly when every field that starts inside is cut cleanly. */
  lemma {:induction false} BoundedExact(fmt: string, k: nat, args: seq<Arg>, a: nat, offset: nat, size: nat)
    requires k <= |fmt| && offset <= size && !Render(fmt, k, args, a).Lost?
    ensures var o, r, ps := Bounded(fmt, k, args, a, size - offset), Render(fmt, k, args, a), Places(fmt, k, args, a, offset);
            && (o == Overrun <==> AnySpills(ps, size))
            && (o == Clipped(r, size - offset) <==> !AnySpills(ps, size) && AllCutCleanly(ps, size))
    decreases |fmt| - k
  {
    hide *;
    var left := size - offset;
    RenderStep(fmt, k, args, a);
    PlacesStep(fmt, k, args, a, offset);
    ClippedEdges(left);
    ClippedDefined(Render(fmt, k, args, a), left);
    PlacesBeyond([], size);
    if k == |fmt| {
      BoundedEnd(fmt, args, a, left);
    } else if left == 0 {
      BoundedFull(fmt, k, args, a);
      ClippedNothing(Render(fmt, k, args, a));
      PlacesBeyond(Places(fmt, k, args, a, offset), size);
    } else {
      BoundedStep(fmt, k, args, a, left);
      if fmt[k] != '%' {
        BeforeLength([fmt[k]], Render(fmt, k + 1, args, a));
        BoundedExact(fmt, k + 1, args, a, offset + 1, size);
        PrefixExact([fmt[k]], Bounded(fmt, k + 1, args, a, left - 1), Render(fmt, k + 1, args, a), left);
      } else if At(fmt, k + 1) == '%' {
        BeforeLength("%", Render(fmt, k + 2, args, a));
        BoundedExact(fmt, k + 2, args, a, offset + 1, size);
        PrefixExact("%", Bounded(fmt, k + 2, args, a, left - 1), Render(fmt, k + 2, args, a), left);
      } else {
        match ParseOf(fmt[k..], args, a)
        case Bad =>
        case Undefined =>
        case Parsed(d, next, used) =>
          var item := ItemOf(d, args, used);
          var f, rest, ps := item.field, Render(fmt, k + next, args, item.used), Places(fmt, k + next, args, item.used, offset + |Whole(item.field)|);
          BeforeLength(Whole(f), rest);
          PlacesCons(Place(offset, f), ps, size);
          SpillsHere(f, offset, left);
          CutWhole(f, left);
          if |Whole(f)| <= left {
            CleanlyWhole(f, left);
            BoundedExact(fmt, k + next, args, item.used, offset + |Whole(f)|, size);
            PrefixExact(Whole(f), Bounded(fmt, k + next, args, item.used, left - |Whole(f)|), rest, left);
          } else if !Overruns(f, left) {
            CutFull(f, left);
            BoundedFull(fmt, k + next, args, item.used);
            PlacesBeyond(ps, size);
            ClippedFull(Whole(f), rest, left);
            AfterOutcome(Cut(f, left), "", Truncated);
            AfterOutcome(Whole(f)[..left], "", Truncated);
          }
      }
    }
  }

  lemma PrefixExact(p: string, o: Outcome, r: Rendering, left: nat)
    requires |p| <= left && !r.Lost?
    ensures After(p, o) == Overrun <==> o == Overrun
    ensures After(p, o) == Clipped(Before(p, r), left) <==> o == Clipped(r, left - |p|)
  {
    ClippedBefore(p, r, left);
    ClippedDefined(r, left - |p|);
    var c := Clipped(r, left - |p|);
    hide Clipped;
    if o.Outcome? {
      assert (p + o.text)[|p|..] == o.text && (p + c.text)[|p|..] == c.text;
    }
  }

  lemma ClippedDefined(r: Rendering, left: nat)
    requires !r.Lost?
    ensures Clipped(r, left).Outcome?
  {
  }

  lemma PlacesBeyond(ps: seq<Place>, size: nat)
    requires forall i :: 0 <= i < |ps| ==> ps[i].offset >= size
    ensures !AnySpills(ps, size) && AllCutCleanly(ps, size)
  {
  }

  lemma PlacesCons(p: Place, ps: seq<Place>, size: nat)
    requires p.offset < size
    ensures AnySpills([p] + ps, size) <==> Spills(p, size) || AnySpills(ps, size)
    ensures AllCutCleanly([p] + ps, size) <==> CutsCleanly(p.field, size - p.offset) && AllCutCleanly(ps, size)
  {
    SpillsCons(p, ps, size);
    CleanlyCons(p, ps, size);
    hide *;
  }

  lemma SpillsCons(p: Place, ps: seq<Place>, size: nat)
    ensures AnySpills([p] + ps, size) <==> Spills(p, size) || AnySpills(ps, size)
  {
    var all := [p] + ps;
    hide Spills;
    assert all[0] == p;
    if AnySpills(all, size) {
      var i :| 0 <= i < |all| && Spills(all[i], size);
      assert i > 0 ==> all[i] == ps[i - 1];
    }
    if AnySpills(ps, size) {
      var i :| 0 <= i < |ps| && Spills(ps[i], size);
      assert all[i + 1] == ps[i];
    }
  }

  lemma CleanlyCons(p: Place, ps: seq<Place>, size: nat)
    requires p.offset < size
    ensures AllCutCleanly([p] + ps, size) <==> CutsCleanly(p.field, size - p.offset) && AllCutCleanly(ps, size)
  {
    var all := [p] + ps;
    hide CutsCleanly;
    assert all[0] == p;
    if AllCutCleanly(all, size) {
      forall i | 0 <= i < |ps| && ps[i].offset < size ensures CutsCleanly(ps[i].field, size - ps[i].offset) {
        assert ps[i] == all[i + 1];
      }
    }
    if CutsCleanly(p.field, size - p.offset) && AllCutCleanly(ps, size) {
      forall i | 0 <= i < |all| && all[i].offset < size ensures CutsCleanly(all[i].field, size - all[i].offset) {
        assert i > 0 ==> all[i] == ps[i - 1];
      }
    }
  }

  lemma SpillsHere(f: Field, offset: nat, left: nat)
    requires !Broken(f) && left > 0
    ensures Spills(Place(offset, f), offset + left) <==> Overruns(f, left)
  {
  }

  lemma CleanlyWhole(f: Field, left: nat)
    requires |Whole(f)| <= left
    ensures CutsCleanly(f, left)
  {
  }

  lemma CutFull(f: Field, left: nat)
    requires |Whole(f)| > left
    ensures |Cut(f, left)| == left
    ensures Cut(f, left) == Whole(f)[..left] <==> CutsCleanly(f, left)
  {
    CutExact(f, left);
  }

  /** Places, unfolded once. */
  lemma PlacesStep(fmt: string, k: nat, args: seq<Arg>, a: nat, offset: nat)
    requires k <= |fmt|
    ensures k == |fmt| ==> Places(fmt, k, args, a, offset) == []
    ensures k < |fmt| && fmt[k] != '%' ==> Places(fmt, k, args, a, offset) == Places(fmt, k + 1, args, a, offset + 1)
    ensures k < |fmt| && fmt[k] == '%' && At(fmt, k + 1) == '%' ==>
      k + 2 <= |fmt| && Places(fmt, k, args, a, offset) == Places(fmt, k + 2, args, a, offset + 1)
    ensures k < |fmt| && fmt[k] == '%' && At(fmt, k + 1) != '%' ==>
      match ParseOf(fmt[k..], args, a)
      case Parsed(d, next, used) =>
        (match ItemOf(d, args, used)
         case Unsupported => Places(fmt, k, args, a, offset) == []
         case Item(f, used') =>
           k + next <= |fmt|
           && Places(fmt, k, args, a, offset) == [Place(offset, f)] + Places(fmt, k + next, args, used', offset + |Whole(f)|))
      case _ => Places(fmt, k, args, a, offset) == []
  {
  }

  /** "%9d" into a buffer of five bytes: the padding alone is longer. */
  lemma OverrunOccurs()
    ensures Bounded("%9d", 0, [Num(1)], 0, 4) == Overrun
    ensures !Render("%9d", 0, [Num(1)], 0).Lost?
  {
    assert At("%9d", 1) == '9';
    hide *;
    ParseNine();
    FieldNine();
    assert "%9d"[0..] == "%9d";
    BoundedStep("%9d", 0, [Num(1)], 0, 4);
    RenderStep("%9d", 0, [Num(1)], 0);
    RenderStep("%9d", 3, [Num(1)], 1);
    BeforeLength(Whole(ItemOf(Nine(), [Num(1)], 0).field), Done(""));
  }

  function Nine(): Directive {
    Directive(false, false, false, false, false, 9, -1, Plain, 'd')
  }

  lemma ParseNine()
    ensures ParseOf("%9d", [Num(1)], 0) == Parsed(Nine(), 3, 0)
  {
    NineForm();
    assert "%9d" + "" == "%9d";
    hide *;
    ParsePrint(FormNine(), "", [Num(1)], 0);
  }

  function FormNine(): Form {
    Form("", Literal("9"), false, Absent, Plain, false, 'd')
  }

  lemma NineForm()
    ensures WellFormed(FormNine()) && HasStars(FormNine(), [Num(1)], 0) && Stars(FormNine()) == 0
    ensures Print(FormNine()) == "%9d" && |"%9d"| == 3
    ensures Meaning(FormNine(), [Num(1)], 0) == Nine()
  {
    assert Front("9") == "" && Decimal("9") == 9;
  }

  lemma FieldNine()
    ensures var item := ItemOf(Nine(), [Num(1)], 0);
            item.Item? && item.used == 1 && Overruns(item.field, 4) && !Broken(item.field)
  {
    var prefix, digits := CoreParts(10, Nine(), false, 1, 9, 0);
    NumStep(1, 10);
    assert |digits| == 1 && prefix == "";
  }

  /** Whatever the bound, no more than `left` places are used. */
  lemma {:induction false} BoundedFits(fmt: string, k: nat, args: seq<Arg>, a: nat, left: nat)
    requires k <= |fmt| && Bounded(fmt, k, args, a, left).Outcome?
    ensures |Bounded(fmt, k, args, a, left).text| <= left
    decreases |fmt| - k
  {
    hide *;
    if k == |fmt| {
      BoundedEnd(fmt, args, a, left);
    } else {
      BoundedStep(fmt, k, args, a, left);
      if left > 0 {
        if fmt[k] != '%' {
          AfterLength([fmt[k]], Bounded(fmt, k + 1, args, a, left - 1));
          BoundedFits(fmt, k + 1, args, a, left - 1);
        } else if At(fmt, k + 1) == '%' {
          AfterLength("%", Bounded(fmt, k + 2, args, a, left - 1));
          BoundedFits(fmt, k + 2, args, a, left - 1);
        } else if ParseOf(fmt[k..], args, a).Parsed? {
          var p := ParseOf(fmt[k..], args, a);
          var item := ItemOf(p.d, args, p.used);
          if item.Item? && !Overruns(item.field, left) {
            var cut := Cut(item.field, left);
            AfterLength(cut, Bounded(fmt, k + p.next, args, item.used, left - |cut|));
            BoundedFits(fmt, k + p.next, args, item.used, left - |cut|);
          }
        }
      }
    }
  }

  lemma AfterLength(p: string, o: Outcome)
    ensures After(p, o).Outcome? <==> o.Outcome?
    ensures o.Outcome? ==> |After(p, o).text| == |p| + |o.text|
  {
  }

  /** A call that writes everything reports truncation exactly when the text fills the
      buffer up to its terminator. */
  lemma ExactFit(fmt: string, args: seq<Arg>, size: nat)
    requires size > 0 && Render(fmt, 0, args, 0).Done?
    ensures var text := Render(fmt, 0, args, 0).text;
            && (Bounded(fmt, 0, args, 0, size - 1) == Outcome(text, Truncated) <==> |text| == size - 1)
            && (Bounded(fmt, 0, args, 0, size - 1) == Outcome(text, Complete) <==> |text| < size - 1)
  {
    hide *;
    var r := Render(fmt, 0, args, 0);
    if |r.text| <= size - 1 {
      ClippedWhole(r, size - 1);
      LengthIs(r);
      BoundedRefines(fmt, 0, args, 0, size - 1);
    } else if Bounded(fmt, 0, args, 0, size - 1).Outcome? {
      BoundedFits(fmt, 0, args, 0, size - 1);
    }
  }

  lemma LengthIs(r: Rendering)
    requires !r.Lost?
    ensures Length(r) == |r.text|
  {
  }

  lemma ClippedWhole(r: Rendering, left: nat)
    requires r.Done? && |r.text| <= left
    ensures Clipped(r, left) == Outcome(r.text, if |r.text| == left then Truncated else Complete)
  {
    assert |r.text| == left ==> r.text[..left] == r.text;
  }

  /** Render and AllSteady, unfolded once. */
  lemma RenderStep(fmt: string, k: nat, args: seq<Arg>, a: nat)
    requires k <= |fmt|
    ensures k == |fmt| ==> Render(fmt, k, args, a) == Done("")
    ensures k < |fmt| && fmt[k] != '%' ==>
      && Render(fmt, k, args, a) == Before([fmt[k]], Render(fmt, k + 1, args, a))
      && AllSteady(fmt, k, args, a) == AllSteady(fmt, k + 1, args, a)
    ensures k < |fmt| && fmt[k] == '%' && At(fmt, k + 1) == '%' ==>
      k + 2 <= |fmt|
      && Render(fmt, k, args, a) == Before("%", Render(fmt, k + 2, args, a))
      && AllSteady(fmt, k, args, a) == AllSteady(fmt, k + 2, args, a)
    ensures k < |fmt| && fmt[k] == '%' && At(fmt, k + 1) != '%' ==>
      match ParseOf(fmt[k..], args, a)
      case Bad => Render(fmt, k, args, a) == Malformed("")
      case Undefined => Render(fmt, k, args, a) == Lost
      case Parsed(d, next, used) =>
        match ItemOf(d, args, used)
        case Unsupported => Render(fmt, k, args, a) == Lost
        case Item(f, used') =>
          k + next <= |fmt|
          && Render(fmt, k, args, a) == (if Broken(f) then Lost else Before(Whole(f), Render(fmt, k + next, args, used')))
          && AllSteady(fmt, k, args, a) == (Steady(f) && AllSteady(fmt, k + next, args, used'))
  {
  }

  // ------------------------------------------------------- as plain text

  predicate Numeric(c: char) {
    c == 'd' || c == 'i' || c == 'u' || c == 'o' || c == 'x' || c == 'X'
  }

  /** The number an integer conversion prints: the low 64 bits of the argument with l, ll and
      I64 and the low 32 without, signed for d and i. */
  function Number(conv: char, size: Size, v: int): int {
    var whole := if size == Long || size == LongLong then 0x1_0000_0000_0000_0000 else 0x1_0000_0000;
    var u := v % whole;
    if (conv == 'd' || conv == 'i') && u >= whole / 2 then u - whole else u
  }

  /** The sign or base prefix it is printed with. */
  function Sign(d: Directive, n: int): string {
    if n < 0 then "-"
    else if d.conv == 'x' || d.conv == 'X' then (if d.hash then "0x" else "")
    else if d.conv == 'o' then (if d.hash then "0" else "")
    else if d.plus then "+"
    else if d.space then " "
    else ""
  }

  /** Digits of a number: in this base and case, no fewer than the precision, and no more
      than needed but for the precision. */
  ghost predicate Spells(digits: string, n: nat, base: nat, upper: bool, precision: int) {
    && digits != "" && (forall c :: c in digits ==> IsDigitOf(c, base, upper))
    && Eval(digits, base) == n
    && |digits| >= precision
    && (|digits| > 1 && |digits| > precision ==> digits[0] != '0')
  }

  /** An integer field, character by character: d, i and u in base 10, o in base 8, x and X
      in base 16 with letters of their own case; padding in front or, with minus, behind. */
  lemma IntegerText(d: Directive, args: seq<Arg>, a: nat) returns (digits: string)
    requires Numeric(d.conv) && d.width >= 0 && d.precision <= 98
    requires a < |args| && args[a].Num?
    ensures ItemOf(d, args, a).Item? && ItemOf(d, args, a).used == a + 1 && !Broken(ItemOf(d, args, a).field)
    ensures var n := Number(d.conv, d.size, args[a].v);
            && Spells(digits, if n < 0 then -n else n,
                      if d.conv == 'x' || d.conv == 'X' then 16 else if d.conv == 'o' then 8 else 10, d.conv == 'X', d.precision)
            && var core := Sign(d, n) + digits;
               Whole(ItemOf(d, args, a).field) == Padded(core, d.width, d.minus, if d.zero then '0' else ' ')
    ensures |Whole(ItemOf(d, args, a).field)| <= d.width + 100
  {
    hide *;
    var (v, negative) := Magnitude(d, args[a].v);
    var base, width, precision := Base(d.conv), d.width as nat, Precision(d);
    IntegerItem(d, args, a);
    var prefix;
    prefix, digits := CoreParts(base, d, negative, v, width, precision);
    DigitsSpell(v, base, d.conv == 'X', precision, SCRATCH + width, d.precision);
    ShortWhole(Core(base, d, negative, v, width, precision), width, d.minus, PadChar(d), prefix, digits, NumDigits(v, base), precision);
  }

  /** Padding in front of a text or, for a left-justified one, behind it. */
  function Padded(core: string, width: int, leftJust: bool, pad: char): string {
    var padding := if |core| < width then Repeat(pad, width - |core|) else "";
    if leftJust then core + padding else padding + core
  }

  lemma IntegerItem(d: Directive, args: seq<Arg>, a: nat)
    requires Numeric(d.conv) && d.width >= 0 && a < |args| && args[a].Num?
    ensures var (v, negative) := Magnitude(d, args[a].v);
            var n := Number(d.conv, d.size, args[a].v);
            && v < 0x1_0000_0000_0000_0000 && v == (if n < 0 then -n else n) && (negative <==> n < 0)
            && Base(d.conv) == (if d.conv == 'x' || d.conv == 'X' then 16 else if d.conv == 'o' then 8 else 10)
            && Prefix(Base(d.conv), d, negative) == Sign(d, n)
            && ItemOf(d, args, a) ==
                 Item(Field(Core(Base(d.conv), d, negative, v, d.width, Precision(d)), d.width, d.minus, PadChar(d), true), a + 1)
    ensures PadChar(d) == if d.zero then '0' else ' '
    ensures Precision(d) == (if d.precision < 0 then 0 else d.precision) && SCRATCH == 100
  {
    hide Core;
  }

  lemma DigitsSpell(v: nat, base: nat, upper: bool, precision: nat, room: nat, asked: int)
    requires base == 8 || base == 10 || base == 16
    requires NumDigits(v, base) <= room && precision <= room && precision == if asked < 0 then 0 else asked
    ensures Spells(Digits(v, base, upper, precision, room), v, base, upper, asked)
  {
    var digits := Digits(v, base, upper, precision, room);
    DigitsOf(v, base, upper, precision, room);
    DigitsEval(v, base, upper, precision, room);
    DigitsLength(v, base, upper, precision, room);
    if |digits| > 1 && digits[0] == '0' {
      LeadingZero(v, base, upper, precision, room);
    }
    hide Digits, Eval, NumDigits, IsDigitOf;
  }

  lemma ShortWhole(core: string, width: nat, leftJust: bool, pad: char, prefix: string, digits: string, n: nat, precision: nat)
    requires core == prefix + digits && |prefix| <= 2 && n <= 22 && precision <= SCRATCH - 2 && |digits| == Max(n, precision)
    ensures var f := Field(core, width, leftJust, pad, true);
            !Broken(f) && Whole(f) == Pad(core, width, leftJust, pad) == Padded(core, width, leftJust, pad)
    ensures |Pad(core, width, leftJust, pad)| <= width + 100
  {
    assert "" + core == core == core + "";
  }

  /** Reading back what an integer directive prints gives the number it was handed. */
  lemma IntegerReadBack(d: Directive, args: seq<Arg>, a: nat)
    requires Numeric(d.conv) && !d.zero && d.width >= 0 && d.precision <= 98
    requires a < |args| && args[a].Num?
    ensures ItemOf(d, args, a).Item? && !Broken(ItemOf(d, args, a).field)
    ensures ReadInt(Whole(ItemOf(d, args, a).field), if d.conv == 'x' || d.conv == 'X' then 16 else if d.conv == 'o' then 8 else 10)
            == Number(d.conv, d.size, args[a].v)
  {
    hide *;
    var (v, negative) := Magnitude(d, args[a].v);
    var base, width, precision := Base(d.conv), d.width as nat, Precision(d);
    IntegerItem(d, args, a);
    var prefix, digits := CoreParts(base, d, negative, v, width, precision);
    ShortWhole(Core(base, d, negative, v, width, precision), width, d.minus, ' ', prefix, digits, NumDigits(v, base), precision);
    ReadBack(base, d, negative, v, width, precision);
  }

  /** A string field: the text or "(null)", up to the precision. */
  lemma StringText(d: Directive, args: seq<Arg>, a: nat)
    requires d.conv == 's' && d.width >= 0 && a < |args| && !args[a].Num?
    ensures var item, s := ItemOf(d, args, a), if args[a].Null? then "(null)" else args[a].s;
      && item.Item? && item.used == a + 1 && !Broken(item.field)
      && Whole(item.field) ==
           Padded(if 0 <= d.precision < |s| then s[..d.precision] else s, d.width, d.minus, if d.zero then '0' else ' ')
  {
    var s := if args[a].Null? then "(null)" else args[a].s;
    var t := if 0 <= d.precision < |s| then s[..d.precision] else s;
    assert s[..|s|] == s;
    assert ItemOf(d, args, a) == Item(Field(t, d.width, d.minus, if d.zero then '0' else ' ', false), a + 1);
    hide *;
    PlainWhole(t, d.width, d.minus, if d.zero then '0' else ' ');
  }

  lemma PlainWhole(t: string, width: nat, leftJust: bool, pad: char)
    ensures var f := Field(t, width, leftJust, pad, false);
            !Broken(f) && Whole(f) == Padded(t, width, leftJust, pad)
  {
    assert t + "" == t == "" + t;
  }

  /** A character field. */
  lemma CharText(d: Directive, args: seq<Arg>, a: nat)
    requires d.conv == 'c' && d.width >= 0 && a < |args| && args[a].Num?
    ensures var item := ItemOf(d, args, a);
      && item.Item? && item.used == a + 1 && !Broken(item.field)
      && Whole(item.field) == Padded([(args[a].v % 256) as char], d.width, d.minus, if d.zero then '0' else ' ')
  {
    var t := [(args[a].v % 256) as char];
    assert ItemOf(d, args, a) == Item(Field(t, d.width, d.minus, if d.zero then '0' else ' ', false), a + 1);
    hide *;
    PlainWhole(t, d.width, d.minus, if d.zero then '0' else ' ');
  }

  /** What precedes a format does not matter to it. */
  lemma {:induction false} RenderShift(p: string, fmt: string, k: nat, args: seq<Arg>, a: nat)
    requires k <= |fmt|
    ensures Render(p + fmt, |p| + k, args, a) == Render(fmt, k, args, a)
    decreases |fmt| - k
  {
    hide *;
    var s, i := p + fmt, |p| + k;
    RenderStep(fmt, k, args, a);
    RenderStep(s, i, args, a);
    if k < |fmt| {
      ShiftText(p, fmt, k);
      if fmt[k] != '%' {
        RenderShift(p, fmt, k + 1, args, a);
      } else if At(fmt, k + 1) == '%' {
        RenderShift(p, fmt, k + 2, args, a);
      } else if ParseOf(fmt[k..], args, a).Parsed? {
        var parse := ParseOf(fmt[k..], args, a);
        var item := ItemOf(parse.d, args, parse.used);
        if item.Item? {
          RenderShift(p, fmt, k + parse.next, args, item.used);
        }
      }
    }
  }

  lemma ShiftText(p: string, fmt: string, k: nat)
    requires k < |fmt|
    ensures (p + fmt)[|p| + k] == fmt[k] && At(p + fmt, |p| + k + 1) == At(fmt, k + 1) && (p + fmt)[|p| + k..] == fmt[k..]
  {
  }

  /** Text without a percent sign is rendered as it stands. */
  lemma {:induction false} RenderText(p: string, fmt: string, args: seq<Arg>, a: nat)
    requires '%' !in p
    ensures Render(p + fmt, 0, args, a) == Before(p, Render(fmt, 0, args, a))
    decreases |p|
  {
    if p == "" {
      assert p + fmt == fmt;
      BeforeNothing(Render(fmt, 0, args, a));
    } else {
      var rest := p[1..] + fmt;
      assert p + fmt == [p[0]] + rest && p == [p[0]] + p[1..] && p[0] in p;
      hide *;
      RenderText(p[1..], fmt, args, a);
      RenderStep(p + fmt, 0, args, a);
      RenderShift([p[0]], rest, 0, args, a);
      BeforeBefore([p[0]], p[1..], Render(fmt, 0, args, a));
    }
  }

  lemma BeforeNothing(r: Rendering)
    ensures Before("", r) == r
  {
    if !r.Lost? { assert "" + r.text == r.text; }
  }

  lemma BeforeBefore(p: string, q: string, r: Rendering)
    ensures Before(p, Before(q, r)) == Before(p + q, r)
  {
    if !r.Lost? { assert p + (q + r.text) == p + q + r.text; }
  }

  /** A doubled percent sign is rendered as one. */
  lemma RenderPercent(fmt: string, args: seq<Arg>, a: nat)
    ensures Render("%%" + fmt, 0, args, a) == Before("%", Render(fmt, 0, args, a))
  {
    assert At("%%" + fmt, 1) == '%';
    hide *;
    RenderStep("%%" + fmt, 0, args, a);
    RenderShift("%%", fmt, 0, args, a);
  }

  /** A directive is rendered as its field. */
  lemma RenderDirective(f: Form, rest: string, args: seq<Arg>, a: nat)
    requires WellFormed(f) && HasStars(f, args, a)
    ensures match ItemOf(Meaning(f, args, a), args, a + Stars(f))
      case Unsupported => Render(Print(f) + rest, 0, args, a) == Lost
      case Item(field, used) =>
        Render(Print(f) + rest, 0, args, a) == if Broken(field) then Lost else Before(Whole(field), Render(rest, 0, args, used))
  {
    hide *;
    var s := Print(f) + rest;
    ParsePrint(f, rest, args, a);
    NotDoubled(s, args, a);
    assert s[0..] == s;
    RenderStep(s, 0, args, a);
    match ItemOf(Meaning(f, args, a), args, a + Stars(f))
    case Unsupported =>
    case Item(field, used) => RenderShift(Print(f), rest, 0, args, used);
  }

  lemma NotDoubled(s: string, args: seq<Arg>, a: nat)
    requires ParseOf(s, args, a).Parsed?
    ensures s != "" && s[0] == '%' && At(s, 1) != '%'
  {
    hide WellFormed, Meaning, HasStars;
  }

  /** The text that one integer directive puts into a buffer. */
  ghost predicate NumberIn(text: string, d: Directive, v: int, digits: string) {
    var n := Number(d.conv, d.size, v);
    && Spells(digits, if n < 0 then -n else n,
              if d.conv == 'x' || d.conv == 'X' then 16 else if d.conv == 'o' then 8 else 10, d.conv == 'X', d.precision)
    && text == Padded(Sign(d, n) + digits, d.width, d.minus, if d.zero then '0' else ' ')
  }

  lemma NumberPrinted(f: Form, v: int, left: nat) returns (text: string, digits: string)
    requires WellFormed(f) && HasStars(f, [Num(v)], 0) && Stars(f) == 0 && Numeric(f.conv)
    requires Meaning(f, [Num(v)], 0).precision <= 98 && Meaning(f, [Num(v)], 0).width + 100 < left
    ensures NumberIn(text, Meaning(f, [Num(v)], 0), v, digits)
    ensures Bounded(Print(f), 0, [Num(v)], 0, left) == Outcome(text, Complete) && |text| < left
  {
    hide *;
    var args, d := [Num(v)], Meaning(f, [Num(v)], 0);
    NumberMeaning(f, v);
    digits := IntegerText(d, args, 0);
    text := Whole(ItemOf(d, args, 0).field);
    NumberInIntro(text, d, v, digits);
    RenderDirective(f, "", args, 0);
    assert Print(f) + "" == Print(f);
    NothingRendered(args, 1, text);
    BoundedRefines(Print(f), 0, args, 0, left);
    ClippedWhole(Done(text), left);
  }

  lemma NumberInIntro(text: string, d: Directive, v: int, digits: string)
    requires var n := Number(d.conv, d.size, v);
      && Spells(digits, if n < 0 then -n else n,
                if d.conv == 'x' || d.conv == 'X' then 16 else if d.conv == 'o' then 8 else 10, d.conv == 'X', d.precision)
      && text == Padded(Sign(d, n) + digits, d.width, d.minus, if d.zero then '0' else ' ')
    ensures NumberIn(text, d, v, digits)
  {
    hide Number, Spells, Padded, Sign;
  }

  /** myvsnprintf with a format that is one integer directive, and room for it. */
  method PrintNumber(buffer: array<char>, size: nat, f: Form, v: int) returns (code: int, ghost digits: string)
    requires WellFormed(f) && HasStars(f, [Num(v)], 0) && Stars(f) == 0 && Numeric(f.conv)
    requires Meaning(f, [Num(v)], 0).precision <= 98
    requires Meaning(f, [Num(v)], 0).width + 101 < size <= buffer.Length
    modifies buffer
    ensures 0 <= code < size && buffer[code] == '\0'
    ensures NumberIn(buffer[..code], Meaning(f, [Num(v)], 0), v, digits)
  {
    hide *;
    NumberMeaning(f, v);
    ghost var text;
    text, digits := NumberPrinted(f, v, size - 1);
    code := Vsnprintf(buffer, size, Print(f), [Num(v)]);
    assert code == |text|;
  }

  lemma NothingRendered(args: seq<Arg>, a: nat, text: string)
    ensures Before(text, Render("", 0, args, a)) == Done(text) && Length(Done(text)) == |text|
  {
    assert text + "" == text;
  }

  lemma NumberMeaning(f: Form, v: int)
    requires WellFormed(f) && HasStars(f, [Num(v)], 0) && Stars(f) == 0
    ensures var d := Meaning(f, [Num(v)], 0);
            d.conv == f.conv && d.size == f.size && d.width >= 0
  {
  }
}
