/** The packet format of Packet.cpp: typed fields, their encoding, and the readers as
    functions of the payload and the pointer. */
module Wire {
  import opened Bytes
  import opened Splitting
  import opened Wrappers

  // ---------------------------------------------------------------- fields

  /** One written value. Strings are the bytes before the terminator. */
  datatype Field =
    | Tiny(v: int) | Short(v: int) | Int(v: int) | Big(v: int)
    | Chars(bytes: seq<byte>) | ShortStr(bytes: seq<byte>) | Str(bytes: seq<byte>)

  /** One read: the type, and the size or maximum size where the caller gives one. */
  datatype Kind = KTiny | KShort | KInt | KBig | KChars(size: int) | KShortStr(most: int) | KStr(most: int)

  function Encode(f: Field): seq<byte> {
    match f
    case Tiny(v) => [v % 256]
    case Short(v) => Word16(v % 0x10000)
    case Int(v) => Word32(v % 0x1_0000_0000)
    case Big(v) => Word32(v % 0x1_0000_0000_0000_0000 / 0x1_0000_0000) + Word32(v % 0x1_0000_0000)
    case Chars(b) => b
    case ShortStr(b) => Word16(|b| % 0x10000) + b
    case Str(b) => Word32(|b| % 0x1_0000_0000) + b
  }

  function EncodeAll(fs: seq<Field>): seq<byte> {
    if fs == [] then [] else EncodeAll(Front(fs)) + Encode(Last(fs))
  }

  /** The value a reader makes of a field, and the read that asks for it. */
  function Canon(f: Field): Field {
    match f
    case Tiny(v) => Tiny(Signed8(v))
    case Short(v) => Short(v % 0x10000)
    case Int(v) => Int(Signed32(v))
    case Big(v) => Big(Signed64(v))
    case _ => f
  }

  function KindOf(f: Field): Kind {
    match f
    case Tiny(_) => KTiny
    case Short(_) => KShort
    case Int(_) => KInt
    case Big(_) => KBig
    case Chars(b) => KChars(|b|)
    case ShortStr(b) => KShortStr(|b|)
    case Str(b) => KStr(|b|)
  }

  /** Lengths that their prefix can carry. */
  predicate Sized(f: Field) {
    (f.ShortStr? ==> |f.bytes| < 0x10000) && (f.Str? ==> |f.bytes| < 0x8000_0000)
  }

  // --------------------------------------------------------------- readers

  /** Success with a value, or failure; either way the pointer afterwards. */
  datatype Reading = Got(value: Field, ptr: nat) | Failed(ptr: nat)

  predicate Exists(payload: seq<byte>, ptr: nat, size: int) {
    |payload| - ptr >= size
  }

  function ReadField(payload: seq<byte>, ptr: nat, kind: Kind): (r: Reading)
    requires ptr <= |payload|
    ensures r.ptr <= |payload|
  {
    match kind
    case KTiny =>
      if Exists(payload, ptr, 1) then Got(Tiny(Signed8(payload[ptr])), ptr + 1) else Failed(ptr)
    case KShort =>
      if Exists(payload, ptr, 2) then Got(Short(From16(payload[ptr..ptr + 2])), ptr + 2) else Failed(ptr)
    case KInt =>
      if Exists(payload, ptr, 4) then Got(Int(Signed32(From32(payload[ptr..ptr + 4]))), ptr + 4) else Failed(ptr)
    case KBig =>
      if !Exists(payload, ptr, 4) then Failed(ptr)
      else if !Exists(payload, ptr + 4, 4) then Failed(ptr + 4)
      else Got(Big(Signed64(0x1_0000_0000 * From32(payload[ptr..ptr + 4]) + From32(payload[ptr + 4..ptr + 8]))), ptr + 8)
    case KChars(size) =>
      if !Exists(payload, ptr, size) || size < 0 then Failed(ptr)
      else Got(Chars(payload[ptr..ptr + size]), ptr + size)
    case KShortStr(most) =>
      if !Exists(payload, ptr, 2) then Failed(ptr)
      else
        var size := From16(payload[ptr..ptr + 2]);
        if !Exists(payload, ptr + 2, size) || size > most then Failed(ptr + 2)
        else Got(ShortStr(payload[ptr + 2..ptr + 2 + size]), ptr + 2 + size)
    case KStr(most) =>
      if !Exists(payload, ptr, 4) then Failed(ptr)
      else
        var size := Signed32(From32(payload[ptr..ptr + 4]));
        if !Exists(payload, ptr + 4, size) || size < 0 || size > most then Failed(ptr + 4)
        else Got(Str(payload[ptr + 4..ptr + 4 + size]), ptr + 4 + size)
  }

  /** The reads of a schema, one after the other until one fails. */
  datatype Readings = Readings(values: seq<Field>, ok: bool, ptr: nat)

  function ReadAll(payload: seq<byte>, kinds: seq<Kind>): (r: Readings)
    ensures r.ptr <= |payload|
  {
    if kinds == [] then Readings([], true, 0)
    else
      var before := ReadAll(payload, Front(kinds));
      if !before.ok then before
      else
        match ReadField(payload, before.ptr, Last(kinds))
        case Got(value, ptr) => Readings(before.values + [value], true, ptr)
        case Failed(ptr) => Readings(before.values, false, ptr)
  }

  /** The pointer after any sequence of reads, whether they succeed or not. */
  function PointerAfter(payload: seq<byte>, kinds: seq<Kind>): (ptr: nat)
    ensures ptr <= |payload|
  {
    if kinds == [] then 0 else ReadField(payload, PointerAfter(payload, Front(kinds)), Last(kinds)).ptr
  }

  // ------------------------------------------------------ byte by byte

  /** Every field as the bytes on the wire, the high byte of a number first. */
  lemma EncodeBytes(f: Field)
    ensures match f
      case Tiny(v) => Encode(f) == [v % 256]
      case Short(v) => Encode(f) == [v % 0x1_0000 / 256, v % 256]
      case Int(v) =>
        var u := v % 0x1_0000_0000;
        Encode(f) == [u / 0x100_0000, u / 0x1_0000 % 256, u / 256 % 256, u % 256]
      case Big(v) =>
        var u := v % 0x1_0000_0000_0000_0000;
        Encode(f) == [u / 0x100_0000_0000_0000, u / 0x1_0000_0000_0000 % 256, u / 0x100_0000_0000 % 256,
                      u / 0x1_0000_0000 % 256, u / 0x100_0000 % 256, u / 0x1_0000 % 256, u / 256 % 256, u % 256]
      case Chars(b) => Encode(f) == b
      case ShortStr(b) => Encode(f) == [|b| % 0x1_0000 / 256, |b| % 256] + b
      case Str(b) =>
        var u := |b| % 0x1_0000_0000;
        Encode(f) == [u / 0x100_0000, u / 0x1_0000 % 256, u / 256 % 256, u % 256] + b
  {
    hide Word16, Word32;
    match f
    case Tiny(v) =>
    case Short(v) => ShortBytes(v);
    case Int(v) => Word32Bytes(v % 0x1_0000_0000);
    case Big(v) => BigBytes(v);
    case Chars(b) =>
    case ShortStr(b) => ShortBytes(|b|);
    case Str(b) => Word32Bytes(|b| % 0x1_0000_0000);
  }

  lemma ShortBytes(v: int)
    ensures Word16(v % 0x1_0000) == [v % 0x1_0000 / 256, v % 256]
  {
    var q, u := v / 0x1_0000, v % 0x1_0000;
    assert v == 0x1_0000 * q + u && u == 256 * (u / 256) + u % 256;
    Word16Bytes(u);
    hide *;
    Over8(0x100 * q + u / 256, u % 256);
  }

  lemma BigBytes(v: int)
    ensures var u := v % 0x1_0000_0000_0000_0000;
            Encode(Big(v)) == [u / 0x100_0000_0000_0000, u / 0x1_0000_0000_0000 % 256, u / 0x100_0000_0000 % 256,
                               u / 0x1_0000_0000 % 256, u / 0x100_0000 % 256, u / 0x1_0000 % 256, u / 256 % 256, u % 256]
  {
    var u := v % 0x1_0000_0000_0000_0000;
    var high, low := BigSplit(v);
    assert Encode(Big(v)) == Word32(high) + Word32(low);
    hide *;
    Word32Bytes(high);
    Word32Bytes(low);
    HighBytes(u, high);
    LowBytes(v, u, low);
  }

  lemma HighBytes(u: nat, high: nat)
    requires high == u / 0x1_0000_0000
    ensures high / 0x100_0000 == u / 0x100_0000_0000_0000 && high / 0x1_0000 % 256 == u / 0x1_0000_0000_0000 % 256
    ensures high / 256 % 256 == u / 0x100_0000_0000 % 256 && high % 256 == u / 0x1_0000_0000 % 256
  {
    Twice24(u);
    Twice16(u);
    Twice8(u);
  }

  lemma Twice24(u: nat)
    ensures u / 0x1_0000_0000 / 0x100_0000 == u / 0x100_0000_0000_0000
  {
  }

  lemma Twice16(u: nat)
    ensures u / 0x1_0000_0000 / 0x1_0000 == u / 0x1_0000_0000_0000
  {
  }

  lemma Twice8(u: nat)
    ensures u / 0x1_0000_0000 / 256 == u / 0x100_0000_0000
  {
  }

  lemma LowBytes(v: int, u: nat, low: nat)
    requires u == v % 0x1_0000_0000_0000_0000 && low == v % 0x1_0000_0000
    ensures low / 0x100_0000 == u / 0x100_0000 % 256 && low / 0x1_0000 % 256 == u / 0x1_0000 % 256
    ensures low / 256 % 256 == u / 256 % 256 && low % 256 == u % 256
  {
    var q := v / 0x1_0000_0000_0000_0000;
    assert v == u + 0x1_0000_0000 * (0x1_0000_0000 * q);
    assert low == u % 0x1_0000_0000;
    var h := u / 0x1_0000_0000;
    assert u == 0x1_0000_0000 * h + low;
    hide *;
    Byte3(h, low);
    Byte2(h, low);
    Byte1(h, low);
    Byte0(h, low);
  }

  lemma Byte3(h: nat, low: nat)
    requires low < 0x1_0000_0000
    ensures (0x1_0000_0000 * h + low) / 0x100_0000 % 256 == low / 0x100_0000
  {
    assert (0x1_0000_0000 * h + low) / 0x100_0000 == 256 * h + low / 0x100_0000;
    Over8(h, low / 0x100_0000);
  }

  lemma Byte2(h: nat, low: nat)
    ensures (0x1_0000_0000 * h + low) / 0x1_0000 % 256 == low / 0x1_0000 % 256
  {
    var x := low / 0x1_0000;
    assert (0x1_0000_0000 * h + low) / 0x1_0000 == 0x1_0000 * h + x;
    Over8(256 * h + x / 256, x % 256);
  }

  lemma Byte1(h: nat, low: nat)
    ensures (0x1_0000_0000 * h + low) / 256 % 256 == low / 256 % 256
  {
    var x := low / 256;
    assert (0x1_0000_0000 * h + low) / 256 == 0x100_0000 * h + x;
    Over8(0x1_0000 * h + x / 256, x % 256);
  }

  lemma Byte0(h: nat, low: nat)
    ensures (0x1_0000_0000 * h + low) % 256 == low % 256
  {
    Over8(0x100_0000 * h + low / 256, low % 256);
  }

  /** What every reader makes of the bytes at the pointer. */
  lemma ReadBytes(p: seq<byte>, i: nat, kind: Kind)
    requires i <= |p|
    ensures var r := ReadField(p, i, kind);
      match kind
      case KTiny =>
        if i + 1 > |p| then r == Failed(i)
        else r == Got(Tiny(if p[i] >= 128 then p[i] as int - 256 else p[i] as int), i + 1)
      case KShort =>
        if i + 2 > |p| then r == Failed(i) else r == Got(Short(256 * (p[i] as int) + p[i + 1] as int), i + 2)
      case KInt =>
        if i + 4 > |p| then r == Failed(i)
        else
          var u := 0x100_0000 * (p[i] as int) + 0x1_0000 * (p[i + 1] as int) + 256 * (p[i + 2] as int) + p[i + 3] as int;
          r == Got(Int(if p[i] >= 128 then u - 0x1_0000_0000 else u), i + 4)
      case KBig =>
        if i + 4 > |p| then r == Failed(i)
        else if i + 8 > |p| then r == Failed(i + 4)
        else
          var u := 0x100_0000_0000_0000 * (p[i] as int) + 0x1_0000_0000_0000 * (p[i + 1] as int) + 0x100_0000_0000 * (p[i + 2] as int)
                   + 0x1_0000_0000 * (p[i + 3] as int) + 0x100_0000 * (p[i + 4] as int) + 0x1_0000 * (p[i + 5] as int) + 256 * (p[i + 6] as int) + p[i + 7] as int;
          r == Got(Big(if p[i] >= 128 then u - 0x1_0000_0000_0000_0000 else u), i + 8)
      case KChars(size) =>
        if 0 <= size && i + size <= |p| then r == Got(Chars(p[i..i + size]), i + size) else r == Failed(i)
      case KShortStr(most) =>
        if i + 2 > |p| then r == Failed(i)
        else
          var size := 256 * (p[i] as int) + p[i + 1] as int;
          if size <= most && i + 2 + size <= |p| then r == Got(ShortStr(p[i + 2..i + 2 + size]), i + 2 + size)
          else r == Failed(i + 2)
      case KStr(most) =>
        if i + 4 > |p| then r == Failed(i)
        else
          var size := 0x100_0000 * (p[i] as int) + 0x1_0000 * (p[i + 1] as int) + 256 * (p[i + 2] as int) + p[i + 3] as int;
          if p[i] < 128 && size <= most && i + 4 + size <= |p| then r == Got(Str(p[i + 4..i + 4 + size]), i + 4 + size)
          else r == Failed(i + 4)
  {
    hide From16, From32, Signed32, Signed64;
    match kind
    case KTiny =>
    case KShort => if i + 2 <= |p| { From16Bytes(p[i..i + 2]); }
    case KInt => if i + 4 <= |p| { IntHere(p, i); }
    case KBig => if i + 8 <= |p| { BigHere(p, i); }
    case KChars(size) =>
    case KShortStr(most) => if i + 2 <= |p| { From16Bytes(p[i..i + 2]); }
    case KStr(most) => if i + 4 <= |p| { IntHere(p, i); }
  }

  lemma IntHere(p: seq<byte>, i: nat)
    requires i + 4 <= |p|
    ensures var u := 0x100_0000 * (p[i] as int) + 0x1_0000 * (p[i + 1] as int) + 256 * (p[i + 2] as int) + p[i + 3] as int;
            From32(p[i..i + 4]) == u && Signed32(From32(p[i..i + 4])) == if p[i] >= 128 then u - 0x1_0000_0000 else u
  {
    From32Bytes(p[i..i + 4]);
    hide From32;
    SignedBytes(From32(p[i..i + 4]), p[i], p[i + 1], p[i + 2], p[i + 3]);
  }

  lemma BigHere(p: seq<byte>, i: nat)
    requires i + 8 <= |p|
    ensures var u := 0x100_0000_0000_0000 * (p[i] as int) + 0x1_0000_0000_0000 * (p[i + 1] as int) + 0x100_0000_0000 * (p[i + 2] as int)
                     + 0x1_0000_0000 * (p[i + 3] as int) + 0x100_0000 * (p[i + 4] as int) + 0x1_0000 * (p[i + 5] as int)
                     + 256 * (p[i + 6] as int) + p[i + 7] as int;
            Signed64(0x1_0000_0000 * From32(p[i..i + 4]) + From32(p[i + 4..i + 8]))
              == if p[i] >= 128 then u - 0x1_0000_0000_0000_0000 else u
  {
    hide *;
    From32Bytes(p[i..i + 4]);
    From32Bytes(p[i + 4..i + 8]);
    SignedBytes(From32(p[i..i + 4]), p[i], p[i + 1], p[i + 2], p[i + 3]);
    SignedPair(From32(p[i..i + 4]), From32(p[i + 4..i + 8]));
  }

  lemma SignedBytes(u: nat, a: byte, b: byte, c: byte, d: byte)
    requires u == 0x100_0000 * (a as int) + 0x1_0000 * (b as int) + 256 * (c as int) + d as int
    ensures Signed32(u) == if a >= 128 then u - 0x1_0000_0000 else u
    ensures u >= 0x8000_0000 <==> a >= 128
  {
  }

  lemma SignedPair(high: nat, low: nat)
    requires high < 0x1_0000_0000 && low < 0x1_0000_0000
    ensures var u := 0x1_0000_0000 * high + low;
            Signed64(u) == if high >= 0x8000_0000 then u - 0x1_0000_0000_0000_0000 else u
  {
  }

  // ------------------------------------------------------------------ laws

  /** A successful read returns exactly the bytes it passes over. */
  lemma ReadExact(payload: seq<byte>, ptr: nat, kind: Kind)
    requires ptr <= |payload|
    ensures var r := ReadField(payload, ptr, kind);
            Exact(payload, ptr, r)
  {
    hide *;
    match kind
    case KTiny => TinyExact(payload, ptr);
    case KShort => ShortExact(payload, ptr);
    case KInt => IntExact(payload, ptr);
    case KBig => BigExact(payload, ptr);
    case KChars(size) => CharsExact(payload, ptr, size);
    case KShortStr(most) => ShortStrExact(payload, ptr, most);
    case KStr(most) => StrExact(payload, ptr, most);
  }

  /** A reading that took exactly its bytes. */
  predicate Exact(payload: seq<byte>, ptr: nat, r: Reading)
    requires r.ptr <= |payload|
  {
    r.Got? ==> ptr <= r.ptr && Encode(r.value) == payload[ptr..r.ptr]
  }

  lemma TinyExact(payload: seq<byte>, ptr: nat)
    requires ptr <= |payload|
    ensures Exact(payload, ptr, ReadField(payload, ptr, KTiny))
  {
  }

  lemma ShortExact(payload: seq<byte>, ptr: nat)
    requires ptr <= |payload|
    ensures Exact(payload, ptr, ReadField(payload, ptr, KShort))
  {
    if ptr + 2 <= |payload| {
      var u := From16(payload[ptr..ptr + 2]);
      From16Back(payload[ptr..ptr + 2]);
      assert ReadField(payload, ptr, KShort) == Got(Short(u), ptr + 2);
      assert Encode(Short(u)) == Word16(u);
      hide ReadField, Encode, From16, Word16;
    }
  }

  lemma IntExact(payload: seq<byte>, ptr: nat)
    requires ptr <= |payload|
    ensures Exact(payload, ptr, ReadField(payload, ptr, KInt))
  {
    if ptr + 4 <= |payload| {
      From32Back(payload[ptr..ptr + 4]);
      var u := From32(payload[ptr..ptr + 4]);
      assert Signed32(u) % 0x1_0000_0000 == u;
    }
    hide From32, Word32, Signed32;
  }

  lemma CharsExact(payload: seq<byte>, ptr: nat, size: int)
    requires ptr <= |payload|
    ensures Exact(payload, ptr, ReadField(payload, ptr, KChars(size)))
  {
  }

  lemma BigExact(payload: seq<byte>, ptr: nat)
    requires ptr <= |payload|
    ensures Exact(payload, ptr, ReadField(payload, ptr, KBig))
  {
    if ptr + 8 <= |payload| {
      var high, low := From32(payload[ptr..ptr + 4]), From32(payload[ptr + 4..ptr + 8]);
      From32Back(payload[ptr..ptr + 4]);
      From32Back(payload[ptr + 4..ptr + 8]);
      BigParts(high, low);
      assert ReadField(payload, ptr, KBig) == Got(Big(Signed64(0x1_0000_0000 * high + low)), ptr + 8);
      hide From32, Word32, Signed64, ReadField;
      assert payload[ptr..ptr + 8] == payload[ptr..ptr + 4] + payload[ptr + 4..ptr + 8];
    }
  }

  lemma ShortStrExact(payload: seq<byte>, ptr: nat, most: int)
    requires ptr <= |payload|
    ensures Exact(payload, ptr, ReadField(payload, ptr, KShortStr(most)))
  {
    var r := ReadField(payload, ptr, KShortStr(most));
    if r.Got? {
      From16Back(payload[ptr..ptr + 2]);
      var size := From16(payload[ptr..ptr + 2]);
      var text := payload[ptr + 2..ptr + 2 + size];
      assert r == Got(ShortStr(text), ptr + 2 + size) && |text| % 0x10000 == size;
      hide From16, Word16, ReadField;
      assert payload[ptr..ptr + 2 + size] == payload[ptr..ptr + 2] + text;
    }
  }

  lemma StrExact(payload: seq<byte>, ptr: nat, most: int)
    requires ptr <= |payload|
    ensures Exact(payload, ptr, ReadField(payload, ptr, KStr(most)))
  {
    var r := ReadField(payload, ptr, KStr(most));
    if r.Got? {
      From32Back(payload[ptr..ptr + 4]);
      var size := From32(payload[ptr..ptr + 4]);
      assert Signed32(size) == size;
      var text := payload[ptr + 4..ptr + 4 + size];
      assert r == Got(Str(text), ptr + 4 + size) && |text| % 0x1_0000_0000 == size;
      hide From32, Word32, Signed32, ReadField;
      assert payload[ptr..ptr + 4 + size] == payload[ptr..ptr + 4] + text;
    }
  }

  lemma BigParts(high: nat, low: nat)
    requires high < 0x1_0000_0000 && low < 0x1_0000_0000
    ensures var v := Signed64(0x1_0000_0000 * high + low);
            v % 0x1_0000_0000_0000_0000 / 0x1_0000_0000 == high && v % 0x1_0000_0000 == low
  {
    var u := 0x1_0000_0000 * high + low;
    var v := Signed64(u);
    Rest64(0, u);
    assert v == u || v == u - 0x1_0000_0000_0000_0000;
    hide *;
    if v == u {
      Rest32(high, low);
    } else {
      Rest64(-1, u);
      Rest32(high - 0x1_0000_0000, low);
    }
    Rest32(high, low);
  }

  lemma Rest64(q: int, r: int)
    requires 0 <= r < 0x1_0000_0000_0000_0000
    ensures (0x1_0000_0000_0000_0000 * q + r) % 0x1_0000_0000_0000_0000 == r
  {
  }

  lemma Rest32(q: int, r: int)
    requires 0 <= r < 0x1_0000_0000
    ensures (0x1_0000_0000 * q + r) % 0x1_0000_0000 == r && (0x1_0000_0000 * q + r) / 0x1_0000_0000 == q
  {
  }

  /** A failed read moves past its length prefix or first half at most. */
  lemma ReadFailed(payload: seq<byte>, ptr: nat, kind: Kind)
    requires ptr <= |payload| && ReadField(payload, ptr, kind).Failed?
    ensures ReadField(payload, ptr, kind).ptr - ptr in {0, 2, 4}
  {
  }

  /** Over any reads of any payload the pointer stays inside and never moves back. */
  lemma {:induction false} PointerMonotone(payload: seq<byte>, few: seq<Kind>, many: seq<Kind>)
    requires few <= many
    ensures PointerAfter(payload, few) <= PointerAfter(payload, many) <= |payload|
    decreases |many|
  {
    if few != many {
      PointerMonotone(payload, few, Front(many));
      var p := PointerAfter(payload, Front(many));
      if ReadField(payload, p, Last(many)).Got? {
        ReadExact(payload, p, Last(many));
      } else {
        ReadFailed(payload, p, Last(many));
      }
    }
  }

  /** A written field is read back, whatever surrounds it. */
  lemma ReadBack(pre: seq<byte>, f: Field, post: seq<byte>)
    requires Sized(f)
    ensures ReadField(pre + Encode(f) + post, |pre|, KindOf(f)) == Got(Canon(f), |pre| + |Encode(f)|)
  {
    var payload, n := pre + Encode(f) + post, |pre|;
    assert payload[n..n + |Encode(f)|] == Encode(f);
    ReadHere(payload, n, f);
  }

  lemma ReadHere(payload: seq<byte>, n: nat, f: Field)
    requires Sized(f) && n + |Encode(f)| <= |payload| && payload[n..n + |Encode(f)|] == Encode(f)
    ensures ReadField(payload, n, KindOf(f)) == Got(Canon(f), n + |Encode(f)|)
  {
    hide ReadField, Encode, Word16, Word32, From16, From32, Signed8, Signed32, Signed64;
    match f
    case Tiny(v) => ReadTiny(payload, n, v);
    case Short(v) => ReadShort(payload, n, v);
    case Int(v) => ReadInt(payload, n, v);
    case Big(v) => ReadBig(payload, n, v);
    case Chars(b) => ReadChars(payload, n, b);
    case ShortStr(b) => ReadShortStr(payload, n, b);
    case Str(b) => ReadStr(payload, n, b);
  }

  lemma ReadTiny(payload: seq<byte>, n: nat, v: int)
    requires n + |Encode(Tiny(v))| <= |payload| && payload[n..n + |Encode(Tiny(v))|] == Encode(Tiny(v))
    ensures ReadField(payload, n, KTiny) == Got(Tiny(Signed8(v)), n + |Encode(Tiny(v))|)
  {
    assert payload[n] == payload[n..n + 1][0];
  }

  lemma ReadShort(payload: seq<byte>, n: nat, v: int)
    requires n + |Encode(Short(v))| <= |payload| && payload[n..n + |Encode(Short(v))|] == Encode(Short(v))
    ensures ReadField(payload, n, KShort) == Got(Short(v % 0x10000), n + |Encode(Short(v))|)
  {
    assert From16(Word16(v % 0x10000)) == v % 0x10000;
  }

  lemma ReadInt(payload: seq<byte>, n: nat, v: int)
    requires n + |Encode(Int(v))| <= |payload| && payload[n..n + |Encode(Int(v))|] == Encode(Int(v))
    ensures ReadField(payload, n, KInt) == Got(Int(Signed32(v)), n + |Encode(Int(v))|)
  {
    Word32Back(v % 0x1_0000_0000);
    assert Signed32(v % 0x1_0000_0000) == Signed32(v);
    hide Word32, From32, Signed32;
  }

  lemma ReadChars(payload: seq<byte>, n: nat, b: seq<byte>)
    requires n + |Encode(Chars(b))| <= |payload| && payload[n..n + |Encode(Chars(b))|] == Encode(Chars(b))
    ensures ReadField(payload, n, KChars(|b|)) == Got(Chars(b), n + |Encode(Chars(b))|)
  {
  }

  lemma ReadShortStr(payload: seq<byte>, n: nat, b: seq<byte>)
    requires |b| < 0x10000
    requires n + |Encode(ShortStr(b))| <= |payload| && payload[n..n + |Encode(ShortStr(b))|] == Encode(ShortStr(b))
    ensures ReadField(payload, n, KShortStr(|b|)) == Got(ShortStr(b), n + |Encode(ShortStr(b))|)
  {
    assert From16(Word16(|b|)) == |b|;
    hide Word16, From16;
    ReadPrefix(payload, n, Word16(|b|), b);
  }

  lemma ReadStr(payload: seq<byte>, n: nat, b: seq<byte>)
    requires |b| < 0x8000_0000
    requires n + |Encode(Str(b))| <= |payload| && payload[n..n + |Encode(Str(b))|] == Encode(Str(b))
    ensures ReadField(payload, n, KStr(|b|)) == Got(Str(b), n + |Encode(Str(b))|)
  {
    Word32Back(|b|);
    assert Signed32(|b|) == |b|;
    hide Word32, From32, Signed32;
    ReadPrefix(payload, n, Word32(|b|), b);
  }

  lemma ReadPrefix(payload: seq<byte>, n: nat, a: seq<byte>, b: seq<byte>)
    requires n + |a| + |b| <= |payload| && payload[n..n + |a| + |b|] == a + b
    ensures payload[n..n + |a|] == a && payload[n + |a|..n + |a| + |b|] == b
  {
    var e := payload[n..n + |a| + |b|];
    assert payload[n..n + |a|] == e[..|a|] && payload[n + |a|..n + |a| + |b|] == e[|a|..];
  }

  lemma ReadBig(payload: seq<byte>, n: nat, v: int)
    requires n + |Encode(Big(v))| <= |payload| && payload[n..n + |Encode(Big(v))|] == Encode(Big(v))
    ensures ReadField(payload, n, KBig) == Got(Big(Signed64(v)), n + |Encode(Big(v))|)
  {
    var high, low := BigSplit(v);
    assert Encode(Big(v)) == Word32(high) + Word32(low);
    hide Word32, From32, Signed64, Encode;
    Word32Back(high);
    Word32Back(low);
    ReadPrefix(payload, n, Word32(high), Word32(low));
  }

  lemma BigSplit(v: int) returns (high: nat, low: nat)
    ensures high == v % 0x1_0000_0000_0000_0000 / 0x1_0000_0000 && low == v % 0x1_0000_0000
    ensures high < 0x1_0000_0000 && low < 0x1_0000_0000
    ensures Signed64(0x1_0000_0000 * high + low) == Signed64(v)
  {
    var u := v % 0x1_0000_0000_0000_0000;
    high, low := u / 0x1_0000_0000, v % 0x1_0000_0000;
    var q := v / 0x1_0000_0000_0000_0000;
    assert v == u + 0x1_0000_0000 * (0x1_0000_0000 * q);
    assert low == u % 0x1_0000_0000;
    assert 0x1_0000_0000 * high + low == u;
  }

  /** A short string survives exactly when its length fits the two-byte prefix. */
  lemma ShortStringExact(b: seq<byte>, most: int)
    requires most >= |b|
    ensures ReadField(Encode(ShortStr(b)), 0, KShortStr(most)) == Got(ShortStr(b), |Encode(ShortStr(b))|) <==> |b| < 0x10000
  {
    var e := Encode(ShortStr(b));
    assert e[0..2] == Word16(|b| % 0x10000);
    assert From16(e[0..2]) == |b| % 0x10000;
    if |b| < 0x10000 {
      assert e[2..2 + |b|] == b;
    }
  }

  /** The values each reader can return. */
  predicate InRange(f: Field) {
    match f
    case Tiny(v) => -128 <= v < 128
    case Short(v) => 0 <= v < 0x10000
    case Int(v) => -0x8000_0000 <= v < 0x8000_0000
    case Big(v) => -0x8000_0000_0000_0000 <= v < 0x8000_0000_0000_0000
    case _ => true
  }

  /** A value comes back as itself exactly when its reader can return it. */
  lemma CanonExact(f: Field)
    ensures Canon(f) == f <==> InRange(f)
  {
  }

  function Canons(fs: seq<Field>): (cs: seq<Field>)
    ensures |cs| == |fs|
  {
    if fs == [] then [] else Canons(Front(fs)) + [Canon(Last(fs))]
  }

  function Kinds(fs: seq<Field>): (ks: seq<Kind>)
    ensures |ks| == |fs|
  {
    if fs == [] then [] else Kinds(Front(fs)) + [KindOf(Last(fs))]
  }

  predicate AllSized(fs: seq<Field>) {
    forall k :: 0 <= k < |fs| ==> Sized(fs[k])
  }

  /** Reading with the schema it was written with gives back every field. */
  lemma {:induction false} ReadAllBack(fs: seq<Field>, post: seq<byte>)
    requires AllSized(fs)
    ensures ReadAll(EncodeAll(fs) + post, Kinds(fs)) == Readings(Canons(fs), true, |EncodeAll(fs)|)
  {
    if fs != [] {
      var pre, last := EncodeAll(Front(fs)), Encode(Last(fs));
      assert EncodeAll(fs) + post == pre + (last + post);
      ReadAllBack(Front(fs), last + post);
      ReadBack(pre, Last(fs), post);
      assert pre + last + post == EncodeAll(fs) + post;
      assert Front(Kinds(fs)) == Kinds(Front(fs));
    }
  }

  /** The end of data is reached exactly when nothing but empty character blocks remains. */
  lemma {:induction false} EndOfData(fs: seq<Field>, k: nat)
    requires k <= |fs|
    ensures |EncodeAll(fs[..k])| <= |EncodeAll(fs)|
    ensures |EncodeAll(fs[..k])| == |EncodeAll(fs)| <==> forall j :: k <= j < |fs| ==> fs[j] == Chars([])
  {
    if k == |fs| {
      assert fs[..k] == fs;
    } else {
      assert Front(fs)[..k] == fs[..k];
      EndOfData(Front(fs), k);
      assert Encode(Last(fs)) == [] <==> Last(fs) == Chars([]);
      assert forall j :: k <= j < |fs| - 1 ==> fs[j] == Front(fs)[j];
      assert Last(fs) == fs[|fs| - 1];
    }
  }
}
