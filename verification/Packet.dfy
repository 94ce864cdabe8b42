/** The class CPacket over a socket: the growing buffer, the typed writers and readers,
    and the send and receive loops. */
module Packet {
  import opened Buffers
  import opened Bytes
  import opened Splitting
  import opened Wrappers
  import opened Wire
  import T = Transport

  /** A connected socket. The schedules say how many bytes each read and write moves. */
  class Socket {
    var incoming: seq<byte>
    var outgoing: seq<byte>
    var readCounts: seq<int>
    var writeCounts: seq<int>

    constructor (incoming: seq<byte>, readCounts: seq<int>, writeCounts: seq<int>)
      ensures this.incoming == incoming && outgoing == []
      ensures this.readCounts == readCounts && this.writeCounts == writeCounts
    {
      this.incoming, this.outgoing := incoming, [];
      this.readCounts, this.writeCounts := readCounts, writeCounts;
    }

    /** read(fd, buf + at, n) */
    method Read(buf: array<byte>, at: nat, n: nat) returns (k: int)
      requires at + n <= buf.Length
      modifies this`incoming, this`readCounts, buf
      ensures k == T.Count(old(readCounts), n, |old(incoming)|)
      ensures readCounts == T.Rest(old(readCounts))
      ensures var m := if k < 0 then 0 else k;
              && incoming == old(incoming)[m..]
              && buf[..at + m] == old(buf[..at]) + old(incoming)[..m]
    {
      k := T.Count(readCounts, n, |incoming|);
      readCounts := T.Rest(readCounts);
      if k > 0 {
        CopyInto(buf, at, incoming[..k]);
        incoming := incoming[k..];
      }
    }

    /** write(fd, bytes, n) */
    method Write(bytes: seq<byte>) returns (k: int)
      modifies this`outgoing, this`writeCounts
      ensures k == T.Count(old(writeCounts), |bytes|, |bytes|)
      ensures writeCounts == T.Rest(old(writeCounts))
      ensures outgoing == old(outgoing) + bytes[..if k < 0 then 0 else k]
    {
      k := T.Count(writeCounts, |bytes|, |bytes|);
      writeCounts := T.Rest(writeCounts);
      if k > 0 {
        outgoing := outgoing + bytes[..k];
      }
    }
  }

  /** What is left of a stream after some of its beginning was taken. */
  ghost predicate Suffix(rest: seq<byte>, stream: seq<byte>) {
    |rest| <= |stream| && rest == stream[|stream| - |rest|..]
  }

  lemma SuffixCut(stream: seq<byte>, n: nat, rest: seq<byte>)
    requires n <= |stream| && Suffix(rest, stream[n..])
    ensures Suffix(rest, stream) && Suffix(stream[n..], stream)
  {
  }

  lemma SuffixTaken(stream: seq<byte>, n: nat)
    requires n <= |stream|
    ensures Suffix(stream[n..], stream)
  {
  }

  /** One write of the payload loop with n bytes to go. */
  lemma SendStep(n: nat, schedule: seq<int>)
    ensures T.PACKET_SIZE > 0 && T.Delivers(0, schedule, T.PACKET_SIZE)
    ensures n > 0 ==>
      var chunk := if n > T.PACKET_SIZE then T.PACKET_SIZE else n;
      var k := T.Count(schedule, chunk, chunk);
      if k < 1 then !T.Delivers(n, schedule, T.PACKET_SIZE)
      else T.Delivers(n, schedule, T.PACKET_SIZE) == T.Delivers(n - k, T.Rest(schedule), T.PACKET_SIZE)
  {
  }

  /** Sending k bytes of a piece after the first p. */
  lemma PieceSent(payload: seq<byte>, p: nat, chunk: nat, k: nat)
    requires k <= chunk && p + chunk <= |payload|
    ensures payload[..p] + payload[p..p + chunk][..k] == payload[..p + k]
  {
  }

  /** Taking k more bytes after the first p. */
  lemma Taken(stream: seq<byte>, p: nat, k: nat)
    requires p + k <= |stream|
    ensures stream[p..][k..] == stream[p + k..] && stream[..p] + stream[p..][..k] == stream[..p + k]
    ensures Suffix(stream[p + k..], stream)
  {
  }

  lemma DeliversNothing(schedule: seq<int>, most: nat)
    ensures T.Delivers(0, schedule, most) && T.Leftover(0, schedule, most) == schedule
  {
  }

  /** One read of a payload loop, and what it says about the rest of the schedule. */
  lemma DeliversStep(n: nat, schedule: seq<int>, most: nat, available: nat)
    requires 0 < n <= most
    ensures var k := T.Count(schedule, n, available);
            && (k < 1 && available > 0 ==> !T.Delivers(n, schedule, most))
            && (n <= available && k >= 1 ==>
                  && T.Delivers(n, schedule, most) == T.Delivers(n - k, T.Rest(schedule), most)
                  && (T.Delivers(n, schedule, most) ==>
                        T.Leftover(n, schedule, most) == T.Leftover(n - k, T.Rest(schedule), most)))
  {
  }

  const BUFFER_BASE_SIZE := 2048

  /** 0 or 2048 doubled some number of times. */
  predicate IsCapacity(c: nat) {
    c == 0 || c == BUFFER_BASE_SIZE || (c > BUFFER_BASE_SIZE && c % 2 == 0 && IsCapacity(c / 2))
  }

  lemma DoubleCapacity(c: int)
    ensures IsCapacity(BUFFER_BASE_SIZE)
    ensures c > 0 && IsCapacity(c) ==> IsCapacity(c * 2)
  {
    if c > 0 && IsCapacity(c) {
      assert c >= BUFFER_BASE_SIZE && c * 2 / 2 == c && c * 2 % 2 == 0;
    }
  }

  class CPacket {
    var category: int
    var command: int
    var length: int
    var pointer: nat
    var data: array?<byte>
    ghost var copied: nat

    ghost predicate Valid()
      reads this
    {
      && pointer <= length
      && (if data == null then length == 0 else data.Length == length)
    }

    /** The buffer, as an argument of modifies clauses. */
    ghost function Store(): set<object>
      reads this
    {
      if data == null then {} else {data}
    }

    /** What has been written, or the part of a payload already read. */
    ghost function Written(): seq<byte>
      reads this, data
      requires Valid()
    {
      if data == null then [] else data[..pointer]
    }

    /** The whole buffer: for a received packet, its payload. */
    ghost function Payload(): seq<byte>
      reads this, data
      requires Valid()
    {
      if data == null then [] else data[..]
    }

    /** For a packet that is only written: the capacity is a doubled 2048, and all copying
        so far is paid for by it. */
    ghost predicate Sound()
      reads this
    {
      && length >= 0 && IsCapacity(length)
      && (if length == 0 then copied == 0 else copied + BUFFER_BASE_SIZE <= length)
    }

    constructor ()
      ensures Valid() && Written() == [] && length == 0 && Sound() && category == 0 && command == 0 && data == null
    {
      category, command, length, pointer, data, copied := 0, 0, 0, 0, null, 0;
    }

    method InitPacket(category: int, command: int)
      modifies this`category, this`command
      ensures this.category == category && this.command == command
    {
      this.category, this.command := category, command;
    }

    // ------------------------------------------------------------- growth

    /** Doubles the buffer until `size` more bytes fit. */
    method CheckDataBuffer(size: int)
      requires Valid()
      modifies this`length, this`data, this`copied
      ensures Valid() && Written() == old(Written()) && length - pointer >= size
      ensures data == old(data) || (data != null && fresh(data))
      ensures old(length) - pointer >= size ==> length == old(length) && data == old(data)
      ensures old(length) - pointer < size ==> data != null && (length == 2048 || length < 2 * (pointer + size))
      ensures pointer + size <= 0x4000_0000 && old(length) < 0x8000_0000 ==> length < 0x8000_0000
      ensures old(Sound()) ==> Sound()
    {
      ghost var before := length;
      hide IsCapacity;
      while length - pointer < size
        invariant Valid() && Written() == old(Written())
        invariant data == old(data) || (data != null && fresh(data))
        invariant (length == before && data == old(data)) || (before - pointer < size && data != null &&
                    (length == BUFFER_BASE_SIZE || length < 2 * (pointer + size)))
        invariant old(Sound()) ==> Sound()
        decreases pointer + size - length
      {
        Grow();
      }
    }

    /** Doubles the buffer once. */
    method Grow()
      requires Valid()
      modifies this`length, this`data, this`copied
      ensures Valid() && Written() == old(Written()) && data != null && fresh(data)
      ensures length == if old(length) == 0 then BUFFER_BASE_SIZE else 2 * old(length)
      ensures old(Sound()) ==> Sound()
    {
      var oldData := data;
      hide IsCapacity;
      DoubleCapacity(length);
      length := if length == 0 then BUFFER_BASE_SIZE else length * 2;
      data := new byte[length];
      if oldData != null {
        CopyInto(data, 0, oldData[..pointer]);
        copied := copied + pointer;
      }
    }

    /** memcpy into the buffer at the pointer, after making room. */
    method Append(bytes: seq<byte>)
      requires Valid()
      modifies this`length, this`data, this`copied, this`pointer, Store()
      ensures Valid() && Written() == old(Written()) + bytes
      ensures data == old(data) || fresh(Store())
      ensures old(Sound()) ==> Sound()
    {
      CheckDataBuffer(|bytes|);
      if |bytes| > 0 {
        CopyInto(data, pointer, bytes);
        pointer := pointer + |bytes|;
      }
    }
  
    // ------------------------------------------------------------ writers

    method WriteTinyInt(v: int) returns (ok: bool)
      requires Valid()
      modifies this`length, this`data, this`copied, this`pointer, Store()
      ensures Valid() && ok && Written() == old(Written()) + Encode(Tiny(v))
      ensures (data == old(data) || fresh(Store())) && (old(Sound()) ==> Sound())
      ensures Written()[|old(Written())|..] == [v % 256]
    {
      Append([v % 256]);
      ok := true;
      assert Written() == old(Written()) + Encode(Tiny(v));
      hide *;
      EncodeBytes(Tiny(v));
      NewTail(old(Written()), Encode(Tiny(v)));
    }

    method WriteShortInt(v: int) returns (ok: bool)
      requires Valid()
      modifies this`length, this`data, this`copied, this`pointer, Store()
      ensures Valid() && ok && Written() == old(Written()) + Encode(Short(v))
      ensures (data == old(data) || fresh(Store())) && (old(Sound()) ==> Sound())
      ensures Written()[|old(Written())|..] == [v % 0x1_0000 / 256, v % 256]
    {
      Append(Word16(v % 0x10000));
      ok := true;
      assert Written() == old(Written()) + Encode(Short(v));
      hide *;
      EncodeBytes(Short(v));
      NewTail(old(Written()), Encode(Short(v)));
    }

    method WriteInt(v: int) returns (ok: bool)
      requires Valid()
      modifies this`length, this`data, this`copied, this`pointer, Store()
      ensures Valid() && ok && Written() == old(Written()) + Encode(Int(v))
      ensures (data == old(data) || fresh(Store())) && (old(Sound()) ==> Sound())
      ensures var u := v % 0x1_0000_0000;
              Written()[|old(Written())|..] == [u / 0x100_0000, u / 0x1_0000 % 256, u / 256 % 256, u % 256]
    {
      Append(Word32(v % 0x1_0000_0000));
      ok := true;
      assert Written() == old(Written()) + Encode(Int(v));
      hide *;
      EncodeBytes(Int(v));
      NewTail(old(Written()), Encode(Int(v)));
    }

    /** The high half goes first. */
    method WriteBigInt(v: int) returns (ok: bool)
      requires Valid()
      modifies this`length, this`data, this`copied, this`pointer, Store()
      ensures Valid() && ok && Written() == old(Written()) + Encode(Big(v))
      ensures (data == old(data) || fresh(Store())) && (old(Sound()) ==> Sound())
      ensures var u := v % 0x1_0000_0000_0000_0000;
              Written()[|old(Written())|..] ==
                [u / 0x100_0000_0000_0000, u / 0x1_0000_0000_0000 % 256, u / 0x100_0000_0000 % 256, u / 0x1_0000_0000 % 256,
                 u / 0x100_0000 % 256, u / 0x1_0000 % 256, u / 256 % 256, u % 256]
    {
      var low, high := v % 0x1_0000_0000, v % 0x1_0000_0000_0000_0000 / 0x1_0000_0000;
      Append(Word32(high) + Word32(low));
      ok := true;
      assert Written() == old(Written()) + Encode(Big(v));
      hide *;
      EncodeBytes(Big(v));
      NewTail(old(Written()), Encode(Big(v)));
    }

    method WriteChar(bytes: seq<byte>) returns (ok: bool)
      requires Valid()
      modifies this`length, this`data, this`copied, this`pointer, Store()
      ensures Valid() && ok && Written() == old(Written()) + Encode(Chars(bytes))
      ensures (data == old(data) || fresh(Store())) && (old(Sound()) ==> Sound())
      ensures Written()[|old(Written())|..] == bytes
    {
      Append(bytes);
      ok := true;
      assert Written() == old(Written()) + Encode(Chars(bytes));
      hide *;
      EncodeBytes(Chars(bytes));
      NewTail(old(Written()), Encode(Chars(bytes)));
    }

    method WriteString(bytes: seq<byte>) returns (ok: bool)
      requires Valid()
      modifies this`length, this`data, this`copied, this`pointer, Store()
      ensures Valid() && ok && Written() == old(Written()) + Encode(Str(bytes))
      ensures (data == old(data) || fresh(Store())) && (old(Sound()) ==> Sound())
      ensures var u := |bytes| % 0x1_0000_0000;
              Written()[|old(Written())|..] == [u / 0x100_0000, u / 0x1_0000 % 256, u / 256 % 256, u % 256] + bytes
    {
      ghost var before := Written();
      assert Encode(Str(bytes)) == Encode(Int(|bytes|)) + bytes;
      hide *;
      ok := WriteInt(|bytes|);
      Append(bytes);
      Associate(before, Encode(Int(|bytes|)), bytes);
      assert Written() == old(Written()) + Encode(Str(bytes));
      hide *;
      EncodeBytes(Str(bytes));
      NewTail(old(Written()), Encode(Str(bytes)));
    }

    method WriteShortString(bytes: seq<byte>) returns (ok: bool)
      requires Valid()
      modifies this`length, this`data, this`copied, this`pointer, Store()
      ensures Valid() && ok && Written() == old(Written()) + Encode(ShortStr(bytes))
      ensures (data == old(data) || fresh(Store())) && (old(Sound()) ==> Sound())
      ensures Written()[|old(Written())|..] == [|bytes| % 0x1_0000 / 256, |bytes| % 256] + bytes
    {
      ghost var before := Written();
      assert Encode(ShortStr(bytes)) == Encode(Short(|bytes|)) + bytes;
      hide *;
      ok := WriteShortInt(|bytes|);
      Append(bytes);
      Associate(before, Encode(Short(|bytes|)), bytes);
      assert Written() == old(Written()) + Encode(ShortStr(bytes));
      hide *;
      EncodeBytes(ShortStr(bytes));
      NewTail(old(Written()), Encode(ShortStr(bytes)));
    }

    /** Any list of fields, written one after the other. */
    method WriteFields(fs: seq<Field>)
      requires Valid()
      modifies this`length, this`data, this`copied, this`pointer, Store()
      ensures Valid() && Written() == old(Written()) + EncodeAll(fs)
      ensures (data == old(data) || fresh(Store())) && (old(Sound()) ==> Sound())
    {
      ghost var before := Written();
      for i := 0 to |fs|
        invariant Valid() && Written() == before + EncodeAll(fs[..i])
        invariant (data == old(data) || fresh(Store())) && (old(Sound()) ==> Sound())
      {
        var ok;
        match fs[i] {
          case Tiny(v) => ok := WriteTinyInt(v);
          case Short(v) => ok := WriteShortInt(v);
          case Int(v) => ok := WriteInt(v);
          case Big(v) => ok := WriteBigInt(v);
          case Chars(b) => ok := WriteChar(b);
          case ShortStr(b) => ok := WriteShortString(b);
          case Str(b) => ok := WriteString(b);
        }
        EncodeSnoc(before, fs, i);
      }
      assert fs[..|fs|] == fs;
    }

    // ------------------------------------------------------------ readers

    method CheckDataExists(size: int) returns (exists_: bool)
      requires Valid()
      ensures exists_ == Exists(Payload(), pointer, size)
    {
      exists_ := length - pointer >= size;
    }

    method IsEOD() returns (end: bool)
      requires Valid()
      ensures end <==> pointer == |Payload()|
    {
      end := length == pointer;
    }

    method ReadTinyInt() returns (ok: bool, v: int)
      requires Valid()
      modifies this`pointer
      ensures Valid()
      ensures ReadField(Payload(), old(pointer), KTiny) == if ok then Got(Tiny(v), pointer) else Failed(pointer)
      ensures var p, i := Payload(), old(pointer);
              (ok <==> i + 1 <= |p|) && (ok ==> v == if p[i] >= 128 then p[i] as int - 256 else p[i] as int)
    {
      v := 0;
      ok := CheckDataExists(1);
      if ok {
        v := Signed8(data[pointer]);
        pointer := pointer + 1;
      }
      ReadBytes(Payload(), old(pointer), KTiny);
      hide ReadField;
    }

    method ReadShortInt() returns (ok: bool, v: int)
      requires Valid()
      modifies this`pointer
      ensures Valid()
      ensures ReadField(Payload(), old(pointer), KShort) == if ok then Got(Short(v), pointer) else Failed(pointer)
      ensures var p, i := Payload(), old(pointer);
              (ok <==> i + 2 <= |p|) && (ok ==> v == 256 * (p[i] as int) + p[i + 1] as int)
    {
      v := 0;
      ok := CheckDataExists(2);
      if ok {
        v := From16(data[pointer..pointer + 2]);
        pointer := pointer + 2;
      }
      ReadBytes(Payload(), old(pointer), KShort);
      hide ReadField;
    }

    method ReadInt() returns (ok: bool, v: int)
      requires Valid()
      modifies this`pointer
      ensures Valid()
      ensures ReadField(Payload(), old(pointer), KInt) == if ok then Got(Int(v), pointer) else Failed(pointer)
      ensures var p, i := Payload(), old(pointer);
              && (ok <==> i + 4 <= |p|)
              && (ok ==> var u := 0x100_0000 * (p[i] as int) + 0x1_0000 * (p[i + 1] as int) + 256 * (p[i + 2] as int) + p[i + 3] as int;
                         v == if p[i] >= 128 then u - 0x1_0000_0000 else u)
    {
      v := 0;
      ok := CheckDataExists(4);
      if ok {
        v := Signed32(From32(data[pointer..pointer + 4]));
        pointer := pointer + 4;
      }
      ReadBytes(Payload(), old(pointer), KInt);
      hide ReadField;
    }

    lemma PointerInside()
      requires Valid()
      ensures pointer <= |Payload()|
    {
    }

    /** The first int read becomes the upper half, whatever the source calls it. */
    method ReadBigInt() returns (ok: bool, v: int)
      requires Valid()
      modifies this`pointer
      ensures Valid()
      ensures ReadField(Payload(), old(pointer), KBig) == if ok then Got(Big(v), pointer) else Failed(pointer)
      ensures var p, i := Payload(), old(pointer);
              && (ok <==> i + 8 <= |p|)
              && (ok ==> var u := 0x100_0000_0000_0000 * (p[i] as int) + 0x1_0000_0000_0000 * (p[i + 1] as int)
                                  + 0x100_0000_0000 * (p[i + 2] as int) + 0x1_0000_0000 * (p[i + 3] as int)
                                  + 0x100_0000 * (p[i + 4] as int) + 0x1_0000 * (p[i + 5] as int) + 256 * (p[i + 6] as int) + p[i + 7] as int;
                         v == if p[i] >= 128 then u - 0x1_0000_0000_0000_0000 else u)
    {
      PointerInside();
      hide *;
      ReadBytes(Payload(), pointer, KBig);
      ok, v := ReadPair();
    }

    /** The two halves, one after the other. */
    method ReadPair() returns (ok: bool, v: int)
      requires Valid()
      modifies this`pointer
      ensures Valid()
      ensures ReadField(Payload(), old(pointer), KBig) == if ok then Got(Big(v), pointer) else Failed(pointer)
    {
      PointerInside();
      hide *;
      v := 0;
      var lowpart, highpart;
      PairReading(Payload(), pointer);
      ok, lowpart := ReadInt();
      if ok {
        ok, highpart := ReadInt();
        if ok {
          v := Signed64(0x1_0000_0000 * (lowpart % 0x1_0000_0000) + highpart % 0x1_0000_0000);
        }
      }
    }

    method ReadChar(size: int) returns (ok: bool, bytes: seq<byte>)
      requires Valid()
      modifies this`pointer
      ensures Valid()
      ensures ReadField(Payload(), old(pointer), KChars(size)) == if ok then Got(Chars(bytes), pointer) else Failed(pointer)
      ensures var p, i := Payload(), old(pointer);
              (ok <==> 0 <= size && i + size <= |p|) && (ok ==> bytes == p[i..i + size])
    {
      bytes := [];
      ok := CheckDataExists(size);
      ok := ok && size >= 0;
      assert Payload()[pointer..pointer] == [];
      if ok && size > 0 {
        bytes := data[pointer..pointer + size];
        pointer := pointer + size;
      }
      ReadBytes(Payload(), old(pointer), KChars(size));
      hide ReadField;
    }

    /** The end of both string readers: the checks on the length, and the text. */
    method ReadText(size: int, most: int) returns (ok: bool, bytes: seq<byte>)
      requires Valid()
      modifies this`pointer
      ensures Valid()
      ensures ok <==> Exists(Payload(), old(pointer), size) && 0 <= size <= most
      ensures pointer == old(pointer) + if ok then size else 0
      ensures ok ==> bytes == Payload()[old(pointer)..pointer]
    {
      bytes := [];
      ok := CheckDataExists(size);
      if !ok { return; }
      if size < 0 || size > most {
        ok := false;
        return;
      }
      bytes := if data == null then [] else data[pointer..pointer + size];
      pointer := pointer + size;
    }

    method ReadShortString(most: int) returns (ok: bool, bytes: seq<byte>)
      requires Valid()
      modifies this`pointer
      ensures Valid()
      ensures ReadField(Payload(), old(pointer), KShortStr(most)) == if ok then Got(ShortStr(bytes), pointer) else Failed(pointer)
      ensures var p, i := Payload(), old(pointer);
              && (ok ==> i + 2 <= |p|)
              && (i + 2 <= |p| ==>
                    var size := 256 * (p[i] as int) + p[i + 1] as int;
                    (ok <==> size <= most && i + 2 + size <= |p|) && (ok ==> bytes == p[i + 2..i + 2 + size]))
    {
      bytes := [];
      var size;
      ok, size := ReadShortInt();
      if ok {
        ok, bytes := ReadText(size, most);
      }
      assert ReadField(Payload(), old(pointer), KShortStr(most)) == if ok then Got(ShortStr(bytes), pointer) else Failed(pointer);
      hide *;
      ReadBytes(Payload(), old(pointer), KShortStr(most));
    }

    method ReadString(most: int) returns (ok: bool, bytes: seq<byte>)
      requires Valid()
      modifies this`pointer
      ensures Valid()
      ensures ReadField(Payload(), old(pointer), KStr(most)) == if ok then Got(Str(bytes), pointer) else Failed(pointer)
      ensures var p, i := Payload(), old(pointer);
              && (ok ==> i + 4 <= |p|)
              && (i + 4 <= |p| ==>
                    var size := 0x100_0000 * (p[i] as int) + 0x1_0000 * (p[i + 1] as int) + 256 * (p[i + 2] as int) + p[i + 3] as int;
                    (ok <==> p[i] < 128 && size <= most && i + 4 + size <= |p|) && (ok ==> bytes == p[i + 4..i + 4 + size]))
    {
      bytes := [];
      var size;
      ok, size := ReadInt();
      if ok {
        ok, bytes := ReadText(size, most);
      }
      assert ReadField(Payload(), old(pointer), KStr(most)) == if ok then Got(Str(bytes), pointer) else Failed(pointer);
      hide *;
      ReadBytes(Payload(), old(pointer), KStr(most));
    }

    /** The reads of a schema, until one fails. */
    method ReadFields(kinds: seq<Kind>) returns (ok: bool, values: seq<Field>)
      requires Valid() && pointer == 0
      modifies this`pointer
      ensures Valid()
      ensures ReadAll(Payload(), kinds) == Readings(values, ok, pointer)
    {
      ok, values := true, [];
      for i := 0 to |kinds|
        invariant Valid() && ok
        invariant ReadAll(Payload(), kinds[..i]) == Readings(values, true, pointer)
      {
        ReadAllStep(Payload(), kinds, i);
        var value;
        ok, value := ReadAny(kinds[i]);
        if !ok {
          ReadAllFails(Payload(), kinds, i + 1);
          return;
        }
        values := values + [value];
      }
      assert kinds[..|kinds|] == kinds;
    }

    method ReadAny(kind: Kind) returns (ok: bool, value: Field)
      requires Valid()
      modifies this`pointer
      ensures Valid()
      ensures ReadField(Payload(), old(pointer), kind) == if ok then Got(value, pointer) else Failed(pointer)
    {
      hide *;
      match kind
      case KTiny => var v; ok, v := ReadTinyInt(); value := Tiny(v);
      case KShort => var v; ok, v := ReadShortInt(); value := Short(v);
      case KInt => var v; ok, v := ReadInt(); value := Int(v);
      case KBig => var v; ok, v := ReadBigInt(); value := Big(v);
      case KChars(size) => var b; ok, b := ReadChar(size); value := Chars(b);
      case KShortStr(most) => var b; ok, b := ReadShortString(most); value := ShortStr(b);
      case KStr(most) => var b; ok, b := ReadString(most); value := Str(b);
    }

    // ---------------------------------------------------------- transport

    /** The message this packet is about to send. */
    ghost function Outgoing(): T.Message
      reads this, data
      requires Valid()
    {
      T.Message(category, command, Written())
    }

    /** Sends the frame. What has gone out is always a beginning of it, and all of it
        exactly when the call succeeds. */
    method SendPacket(sock: Socket) returns (ok: bool)
      requires Valid()
      modifies sock`outgoing, sock`writeCounts
      ensures category == 0 || command == 0 ==> !ok && sock.outgoing == old(sock.outgoing)
      ensures old(sock.outgoing) <= sock.outgoing <= old(sock.outgoing) + T.Frame(Outgoing())
      ensures ok <==> sock.outgoing == old(sock.outgoing) + T.Frame(Outgoing())
      ensures category != 0 && command != 0 ==>
        var counts := old(sock.writeCounts);
        ok <==> counts != [] && counts[0] >= 10 && T.Delivers(|Written()|, counts[1..], 4096)
      ensures ok ==>
        var n := (|Written()| + 10) % 0x1_0000_0000;
        sock.outgoing == old(sock.outgoing) +
          ([0xFF, 0xFF, 1, n / 0x100_0000, n / 0x1_0000 % 256, n / 256 % 256, n % 256, category % 256, command % 256, 0] + Written())
    {
      assert sock.writeCounts != [] ==> T.Rest(sock.writeCounts) == sock.writeCounts[1..];
      ok := SendFrame(sock);
      hide *;
      T.Sizes();
      T.FrameBytes(Outgoing());
      OutgoingParts();
    }

    lemma OutgoingParts()
      requires Valid()
      ensures Outgoing().category == category && Outgoing().command == command && Outgoing().payload == Written()
    {
    }

    /** The header, then the payload. */
    method SendFrame(sock: Socket) returns (ok: bool)
      requires Valid()
      modifies sock`outgoing, sock`writeCounts
      ensures category == 0 || command == 0 ==> !ok && sock.outgoing == old(sock.outgoing)
      ensures old(sock.outgoing) <= sock.outgoing <= old(sock.outgoing) + T.Frame(Outgoing())
      ensures ok <==> sock.outgoing == old(sock.outgoing) + T.Frame(Outgoing())
      ensures category != 0 && command != 0 ==>
        var counts := old(sock.writeCounts);
        ok <==> counts != [] && counts[0] >= T.HEADER && T.Delivers(|Written()|, T.Rest(counts), T.PACKET_SIZE)
    {
      if category == 0 || command == 0 {
        return false;
      }
      var payload := if data == null then [] else data[..pointer];
      var header := T.Header(T.Message(category, command, payload));
      hide *;
      var nsend := sock.Write(header);
      FrameStart(Outgoing(), header, nsend);
      if nsend != T.HEADER {
        return false;
      }
      ghost var sent := sock.outgoing;
      ok := SendPayload(sock, payload);
      assert sent + payload == old(sock.outgoing) + T.Frame(Outgoing());
    }

    /** The payload loop of SendPacket, in chunks of at most PACKET_SIZE. */
    method SendPayload(sock: Socket, payload: seq<byte>) returns (ok: bool)
      modifies sock`outgoing, sock`writeCounts
      ensures old(sock.outgoing) <= sock.outgoing <= old(sock.outgoing) + payload
      ensures ok <==> sock.outgoing == old(sock.outgoing) + payload
      ensures ok <==> T.Delivers(|payload|, old(sock.writeCounts), T.PACKET_SIZE)
    {
      var total := 0;
      hide *;
      SendStep(0, sock.writeCounts);
      assert sock.outgoing + payload[..0] == sock.outgoing;
      while total < |payload|
        invariant 0 <= total <= |payload|
        invariant sock.outgoing == old(sock.outgoing) + payload[..total]
        invariant T.Delivers(|payload|, old(sock.writeCounts), T.PACKET_SIZE) ==
                  T.Delivers(|payload| - total, sock.writeCounts, T.PACKET_SIZE)
        decreases |payload| - total
      {
        SendStep(|payload| - total, sock.writeCounts);
        var chunk := if |payload| - total > T.PACKET_SIZE then T.PACKET_SIZE else |payload| - total;
        var piece := payload[total..total + chunk];
        var nsend := sock.Write(piece);
        if nsend < 1 {
          return false;
        }
        PieceSent(payload, total, chunk, nsend);
        total := total + nsend;
      }
      SendStep(0, sock.writeCounts);
      assert payload[..total] == payload;
      return true;
    }

    /** The body of both receive methods; Select is the one that does not stop at bad magic. */
    method ReceiveBody(sock: Socket, magic: bool) returns (ok: bool)
      modifies this, sock`incoming, sock`readCounts
      ensures Suffix(sock.incoming, old(sock.incoming))
      ensures var r := T.Receive(old(sock.incoming), old(sock.readCounts), magic);
              && ok == r.Some?
              && (ok ==>
                    var (m, rest, left) := r.value;
                    && Valid() && fresh(Store()) && pointer == 0
                    && category == m.category && command == m.command && Payload() == m.payload
                    && sock.incoming == rest && sock.readCounts == left)
    {
      hide *;
      ghost var stream, counts := sock.incoming, sock.readCounts;
      ReceiveUnfold(stream, counts, magic);
      var got, check := ReadHeader(sock, magic);
      if !got || !check.Accepted? {
        return false;
      }
      category, command, length := check.category, check.command, check.length;
      data := new byte[length];
      ok := ReceivePayload(sock);
      SuffixCut(stream, 10, sock.incoming);
      if ok {
        assert stream[10..][..check.length] == stream[10..10 + check.length];
        assert stream[10..][check.length..] == stream[10 + check.length..];
        pointer := 0;
        IsValid();
      }
    }

    /** The header in one read, and the checks on it. */
    method ReadHeader(sock: Socket, magic: bool) returns (got: bool, check: T.HeaderCheck)
      modifies sock`incoming, sock`readCounts
      ensures Suffix(sock.incoming, old(sock.incoming))
      ensures got <==> T.Count(old(sock.readCounts), 10, |old(sock.incoming)|) == 10
      ensures got ==>
        && check == T.CheckHeader(old(sock.incoming)[..10], magic)
        && sock.incoming == old(sock.incoming)[10..] && sock.readCounts == T.Rest(old(sock.readCounts))
    {
      var header := new byte[10];
      var nread := sock.Read(header, 0, 10);
      SuffixTaken(old(sock.incoming), if nread < 0 then 0 else nread);
      got, check := nread == 10, T.BadMagic;
      if got {
        assert header[..] == header[..10] == old(sock.incoming)[..10];
        check := T.CheckHeader(header[..], magic);
      }
    }

    lemma IsValid()
      requires pointer <= length && data != null && data.Length == length
      ensures Valid() && Payload() == data[..] && Store() == {data}
    {
    }

    /** The payload loop of the receive methods: fills the buffer. */
    method ReceivePayload(sock: Socket) returns (ok: bool)
      requires data != null && data.Length == length
      modifies this`pointer, data, sock`incoming, sock`readCounts
      ensures Suffix(sock.incoming, old(sock.incoming))
      ensures var n := data.Length;
              && ok == (|old(sock.incoming)| >= n && T.Delivers(n, old(sock.readCounts), n))
              && (ok ==>
                    && data[..] == old(sock.incoming)[..n] && sock.incoming == old(sock.incoming)[n..]
                    && sock.readCounts == T.Leftover(n, old(sock.readCounts), n)
                    && pointer <= length)
    {
      ghost var stream, counts := sock.incoming, sock.readCounts;
      var n: nat := data.Length;
      pointer := 0;
      hide *;
      NothingFilled(sock);
      DeliversNothing(counts, n);
      while pointer < length
        invariant pointer <= length == n == data.Length
        invariant Filled(sock, stream)
        invariant |stream| >= n ==> T.Delivers(n, counts, n) == T.Delivers(n - pointer, sock.readCounts, n)
        invariant |stream| >= n && T.Delivers(n, counts, n) ==>
                    T.Leftover(n, counts, n) == T.Leftover(n - pointer, sock.readCounts, n)
        decreases length - pointer
      {
        ok := ReadMore(sock, stream);
        if !ok {
          FilledIs(sock, stream);
          return;
        }
      }
      DeliversNothing(sock.readCounts, n);
      FilledIs(sock, stream);
      return true;
    }

    /** The buffer holds the beginning of a stream, and the socket the rest. */
    ghost predicate Filled(sock: Socket, stream: seq<byte>)
      reads this, data, sock
    {
      && data != null && pointer <= data.Length && pointer <= |stream|
      && data[..pointer] == stream[..pointer] && sock.incoming == stream[pointer..]
      && Suffix(sock.incoming, stream)
    }

    lemma NothingFilled(sock: Socket)
      requires data != null && pointer == 0
      ensures Filled(sock, sock.incoming)
    {
    }

    lemma FilledIs(sock: Socket, stream: seq<byte>)
      requires Filled(sock, stream)
      ensures Suffix(sock.incoming, stream) && pointer <= |stream| && sock.incoming == stream[pointer..]
      ensures data != null && (pointer == data.Length ==> data[..] == stream[..pointer])
    {
      hide Suffix;
      assert data[..data.Length] == data[..];
    }

    /** One read of the payload loop. */
    method ReadMore(sock: Socket, ghost stream: seq<byte>) returns (ok: bool)
      requires Filled(sock, stream) && pointer < length == data.Length
      modifies this`pointer, data, sock`incoming, sock`readCounts
      ensures Filled(sock, stream) && old(pointer) <= pointer <= length && (ok ==> pointer > old(pointer))
      ensures var n, m, counts := length, length - old(pointer), old(sock.readCounts);
              |stream| >= n ==>
                && ok == (T.Count(counts, m, |stream| - old(pointer)) >= 1)
                && (!ok ==> !T.Delivers(m, counts, n))
                && (ok ==>
                      && T.Delivers(m, counts, n) == T.Delivers(n - pointer, sock.readCounts, n)
                      && (T.Delivers(m, counts, n) ==> T.Leftover(m, counts, n) == T.Leftover(n - pointer, sock.readCounts, n)))
    {
      FilledIs(sock, stream);
      hide *;
      DeliversStep(length - pointer, sock.readCounts, length, |stream| - pointer);
      var nread := Fetch(sock, stream);
      ok := nread >= 1;
    }

    /** read() into the rest of the buffer. */
    method Fetch(sock: Socket, ghost stream: seq<byte>) returns (nread: int)
      requires Filled(sock, stream) && pointer < length == data.Length
      modifies this`pointer, data, sock`incoming, sock`readCounts
      ensures Filled(sock, stream) && pointer == old(pointer) + if nread < 1 then 0 else nread
      ensures nread == T.Count(old(sock.readCounts), length - old(pointer), |stream| - old(pointer)) <= length - old(pointer)
      ensures sock.readCounts == T.Rest(old(sock.readCounts))
    {
      ghost var p := pointer;
      assert |sock.incoming| == |stream| - p;
      hide T.Count, T.Rest, Suffix;
      nread := sock.Read(data, pointer, length - pointer);
      Taken(stream, p, if nread < 1 then 0 else nread);
      if nread >= 1 {
        pointer := pointer + nread;
      }
    }

    method ReceivePacket(sock: Socket) returns (ok: bool)
      modifies this, sock`incoming, sock`readCounts
      ensures Suffix(sock.incoming, old(sock.incoming))
      ensures var r := T.Receive(old(sock.incoming), old(sock.readCounts), true);
              && ok == r.Some?
              && (ok ==>
                    var (m, rest, left) := r.value;
                    && Valid() && fresh(Store()) && pointer == 0
                    && category == m.category && command == m.command && Payload() == m.payload
                    && sock.incoming == rest && sock.readCounts == left)
      ensures ok ==> T.Arrived(old(sock.incoming), true, category, command, Payload(), sock.incoming)
    {
      T.ReceiveBytes(sock.incoming, sock.readCounts, true);
      hide *;
      ok := ReceiveBody(sock, true);
    }

    /** `ready` is the result of select: 0 for a timeout, -1 for an error. */
    method ReceivePacketSelect(sock: Socket, ready: int) returns (ok: bool)
      modifies this, sock`incoming, sock`readCounts
      ensures Suffix(sock.incoming, old(sock.incoming))
      ensures var r := T.Receive(old(sock.incoming), old(sock.readCounts), false);
              && ok == (ready != 0 && ready != -1 && r.Some?)
              && (ok ==>
                    var (m, rest, left) := r.value;
                    && Valid() && fresh(Store()) && pointer == 0
                    && category == m.category && command == m.command && Payload() == m.payload
                    && sock.incoming == rest && sock.readCounts == left)
      ensures ok ==> T.Arrived(old(sock.incoming), false, category, command, Payload(), sock.incoming)
    {
      if ready == 0 || ready == -1 {
        return false;
      }
      T.ReceiveBytes(sock.incoming, sock.readCounts, false);
      hide *;
      ok := ReceiveBody(sock, false);
    }
  }

  lemma NewTail(before: seq<byte>, added: seq<byte>)
    ensures (before + added)[|before|..] == added
  {
  }

  lemma EncodeSnoc(before: seq<byte>, fs: seq<Field>, i: nat)
    requires i < |fs|
    ensures before + EncodeAll(fs[..i]) + Encode(fs[i]) == before + EncodeAll(fs[..i + 1])
  {
    assert Front(fs[..i + 1]) == fs[..i];
  }

  /** Reading eight bytes is reading four and four. */
  lemma PairReading(p: seq<byte>, i: nat)
    requires i <= |p|
    ensures ReadField(p, i, KBig) ==
      match ReadField(p, i, KInt)
      case Failed(j) => Failed(j)
      case Got(Int(x), j) =>
        (match ReadField(p, j, KInt)
         case Failed(k) => Failed(k)
         case Got(Int(y), k) => Got(Big(Signed64(0x1_0000_0000 * (x % 0x1_0000_0000) + y % 0x1_0000_0000)), k)
         case Got(_, k) => Failed(k))
      case Got(_, j) => Failed(j)
  {
    if i + 4 <= |p| { SignedLow(From32(p[i..i + 4])); }
    if i + 8 <= |p| { SignedLow(From32(p[i + 4..i + 8])); }
    hide From32, Signed32, Signed64;
  }

  lemma SignedLow(u: nat)
    requires u < 0x1_0000_0000
    ensures Signed32(u) % 0x1_0000_0000 == u
  {
  }

  /** The header starts the frame, however much of it was written. */
  lemma FrameStart(m: T.Message, header: seq<byte>, n: int)
    requires header == T.Header(m) && n <= T.HEADER
    ensures T.Frame(m) == header + m.payload && |header| == T.HEADER && header[..T.HEADER] == header
    ensures n < T.HEADER ==> var k := if n < 0 then 0 else n; header[..k] <= T.Frame(m) && header[..k] != T.Frame(m)
  {
  }

  /** Receive, with its header check spelled out. */
  lemma ReceiveUnfold(incoming: seq<byte>, schedule: seq<int>, magic: bool)
    ensures T.Receive(incoming, schedule, magic) ==
      if T.Count(schedule, 10, |incoming|) != 10 then None
      else
        match T.CheckHeader(incoming[..10], magic)
        case Accepted(category, command, length) =>
          if |incoming[10..]| >= length && T.Delivers(length, T.Rest(schedule), length) then
            Some((T.Message(category, command, incoming[10..10 + length]),
                  incoming[10 + length..], T.Leftover(length, T.Rest(schedule), length)))
          else None
        case _ => None
  {
  }

  lemma ReadAllStep(payload: seq<byte>, kinds: seq<Kind>, i: nat)
    requires i < |kinds| && ReadAll(payload, kinds[..i]).ok
    ensures var before := ReadAll(payload, kinds[..i]);
            ReadAll(payload, kinds[..i + 1]) ==
              match ReadField(payload, before.ptr, kinds[i])
              case Got(value, ptr) => Readings(before.values + [value], true, ptr)
              case Failed(ptr) => Readings(before.values, false, ptr)
  {
    assert Front(kinds[..i + 1]) == kinds[..i];
  }

  lemma {:induction false} ReadAllFails(payload: seq<byte>, kinds: seq<Kind>, i: nat)
    requires i <= |kinds| && !ReadAll(payload, kinds[..i]).ok
    ensures ReadAll(payload, kinds) == ReadAll(payload, kinds[..i])
    decreases |kinds| - i
  {
    if i == |kinds| {
      assert kinds[..i] == kinds;
    } else {
      assert Front(kinds[..i + 1]) == kinds[..i];
      ReadAllFails(payload, kinds, i + 1);
    }
  }

  /** Writes fields to a fresh packet and sends it; `sent` is what went out. */
  method SendFields(fs: seq<Field>, category: int, command: int, writeCounts: seq<int>) returns (ok: bool, sent: seq<byte>)
    ensures var m := T.Message(category, command, EncodeAll(fs));
            && sent <= T.Frame(m) && (ok <==> sent == T.Frame(m))
            && (category != 0 && command != 0 ==>
                  (ok <==> writeCounts != [] && writeCounts[0] >= T.HEADER
                           && T.Delivers(|m.payload|, T.Rest(writeCounts), T.PACKET_SIZE)))
  {
    hide T.Delivers, T.Frame, T.Header, EncodeAll, IsCapacity;
    var packet := new CPacket();
    packet.InitPacket(category, command);
    packet.WriteFields(fs);
    assert packet.Written() == EncodeAll(fs);
    var out := new Socket([], [], writeCounts);
    OutgoingIs(packet);
    ok := packet.SendPacket(out);
    sent := out.outgoing;
    assert [] + T.Frame(T.Message(category, command, EncodeAll(fs))) == T.Frame(T.Message(category, command, EncodeAll(fs)));
  }

  lemma OutgoingIs(packet: CPacket)
    requires packet.Valid()
    ensures packet.Outgoing() == T.Message(packet.category, packet.command, packet.Written())
  {
  }

  /** Receives one packet from a stream and reads it by a schema, to the end of its data. */
  method ReceiveFields(stream: seq<byte>, readCounts: seq<int>, kinds: seq<Kind>)
    returns (ok: bool, values: seq<Field>, category: int, command: int)
    ensures var r := T.Receive(stream, readCounts, true);
            if r.None? then !ok
            else
              var readings := ReadAll(r.value.0.payload, kinds);
              && ok == (readings.ok && readings.ptr == |r.value.0.payload|)
              && values == readings.values
              && category == r.value.0.category && command == r.value.0.command
  {
    hide T.Receive, ReadAll, Suffix;
    values, category, command := [], 0, 0;
    var packet := new CPacket();
    var into := new Socket(stream, readCounts, []);
    ok := packet.ReceivePacket(into);
    if !ok { return; }
    category, command := packet.category, packet.command;
    ok, values := packet.ReadFields(kinds);
    var end := packet.IsEOD();
    ok := ok && end;
  }

  /** The whole way: fields written to one packet, sent in pieces, received in pieces by
      another and read with the same schema. It succeeds exactly when both transports
      deliver, and then nothing has changed and no data is left. */
  method RoundTrip(fs: seq<Field>, category: int, command: int, writeCounts: seq<int>, readCounts: seq<int>)
    returns (ok: bool, values: seq<Field>, category': int, command': int)
    requires AllSized(fs) && T.Sendable(T.Message(category, command, EncodeAll(fs)))
    ensures var n := |EncodeAll(fs)|;
            ok <==>
              && writeCounts != [] && writeCounts[0] >= T.HEADER && T.Delivers(n, T.Rest(writeCounts), T.PACKET_SIZE)
              && readCounts != [] && readCounts[0] >= T.HEADER && T.Delivers(n, T.Rest(readCounts), n)
    ensures ok ==> values == Canons(fs) && category' == category && command' == command
  {
    ghost var m := T.Message(category, command, EncodeAll(fs));
    assert category != 0 && command != 0;
    hide *;
    T.ReceiveFrame(m, [], readCounts, true);
    ReadAllBack(fs, []);
    assert T.Frame(m) + [] == T.Frame(m) && EncodeAll(fs) + [] == EncodeAll(fs);
    values, category', command' := [], 0, 0;
    var sent;
    ok, sent := SendFields(fs, category, command, writeCounts);
    if ok {
      ok, values, category', command' := ReceiveFields(sent, readCounts, Kinds(fs));
    }
  }
}
