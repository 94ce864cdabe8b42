/** Frames on a stream: what SendPacket puts out and what ReceivePacket takes in, over a
    transport that moves as many bytes at a time as it likes. */
module Transport {
  import opened Buffers
  import opened Bytes
  import opened Splitting
  import opened Wrappers

  const PROTOCOL_VER := 1
  const PACKET_SIZE := 4096
  const HEADER := 10

  datatype Message = Message(category: int, command: int, payload: seq<byte>)

  /** The header: two 0xFF, the version, the length of the whole frame, category, command, 0. */
  function Header(m: Message): (h: seq<byte>)
    ensures |h| == HEADER
  {
    [0xFF, 0xFF, PROTOCOL_VER] + Word32((|m.payload| + HEADER) % 0x1_0000_0000) + [m.category % 256, m.command % 256, 0]
  }

  function Frame(m: Message): seq<byte> {
    Header(m) + m.payload
  }

  /** The result of one read or write of `n` bytes with `available` to move: the next
      count on the schedule, clipped to what is legal; -1 for an error or at its end. */
  function Count(schedule: seq<int>, n: nat, available: nat): (k: int)
    ensures -1 <= k <= n && k <= available
  {
    if schedule == [] || schedule[0] < 0 then -1 else Min(schedule[0], Min(n, available))
  }

  function Rest(schedule: seq<int>): seq<int> {
    if schedule == [] then [] else schedule[1..]
  }

  /** A schedule that moves `n` bytes in pieces of at most `most`, never stalling. */
  predicate Delivers(n: nat, schedule: seq<int>, most: nat)
    decreases |schedule|
  {
    n == 0 || (schedule != [] && schedule[0] >= 1 && most >= 1 &&
               Delivers(n - Min(schedule[0], Min(n, most)), schedule[1..], most))
  }

  /** The schedule left over after that. */
  function Leftover(n: nat, schedule: seq<int>, most: nat): seq<int>
    requires Delivers(n, schedule, most)
    decreases |schedule|
  {
    if n == 0 then schedule else Leftover(n - Min(schedule[0], Min(n, most)), schedule[1..], most)
  }

  // --------------------------------------------------------------- headers

  datatype HeaderCheck = BadMagic | BadVersion | BadLength | Accepted(category: int, command: int, length: nat)

  /** The checks ReceivePacket makes on a complete header, in order. */
  function CheckHeader(h: seq<byte>, magic: bool): HeaderCheck
    requires |h| == HEADER
  {
    if magic && (h[0] != 0xFF || h[1] != 0xFF) then BadMagic
    else if h[2] != PROTOCOL_VER then BadVersion
    else
      var length := Signed32(From32(h[3..7])) - HEADER;
      if length < 0 then BadLength else Accepted(Signed8(h[7]), Signed8(h[8]), length)
  }

  /** One ReceivePacket: the message, the stream and the schedule afterwards; None if it
      returns FALSE. ReceivePacket_Select on a ready socket is the same with `magic` off. */
  function Receive(incoming: seq<byte>, schedule: seq<int>, magic: bool): Option<(Message, seq<byte>, seq<int>)> {
    if Count(schedule, HEADER, |incoming|) != HEADER then None
    else
      match CheckHeader(incoming[..HEADER], magic)
      case Accepted(category, command, length) =>
        if |incoming| >= HEADER + length && Delivers(length, Rest(schedule), length) then
          Some((Message(category, command, incoming[HEADER..HEADER + length]),
                incoming[HEADER + length..], Leftover(length, Rest(schedule), length)))
        else None
      case _ => None
  }

  // ------------------------------------------------------ byte by byte

  /** What SendPacket puts out, byte by byte: the length of the whole frame has its high byte first. */
  lemma FrameBytes(m: Message)
    ensures var n := (|m.payload| + 10) % 0x1_0000_0000;
            Frame(m) == [0xFF, 0xFF, 1, n / 0x100_0000, n / 0x1_0000 % 256, n / 256 % 256, n % 256,
                         m.category % 256, m.command % 256, 0] + m.payload
  {
    var n := (|m.payload| + 10) % 0x1_0000_0000;
    Word32Bytes(n);
    assert Header(m) == [0xFF, 0xFF, 1] + Word32(n) + [m.category % 256, m.command % 256, 0];
    hide Word32, Header;
  }

  lemma Sizes()
    ensures HEADER == 10 && PACKET_SIZE == 4096 && PROTOCOL_VER == 1
  {
  }

  /** The number in bytes 3 to 6 of a header. */
  function LengthWord(h: seq<byte>): int
    requires |h| >= 10
  {
    0x100_0000 * (h[3] as int) + 0x1_0000 * (h[4] as int) + 256 * (h[5] as int) + h[6] as int
  }

  /** A message as it stands at the front of a stream, byte by byte; two 0xFF in front with `magic`. */
  predicate Arrived(stream: seq<byte>, magic: bool, category: int, command: int, payload: seq<byte>, rest: seq<byte>) {
    && |stream| >= 10 && (magic ==> stream[0] == 0xFF && stream[1] == 0xFF) && stream[2] == 1
    && var n := LengthWord(stream);
       && 10 <= n < 0x8000_0000 && n <= |stream|
       && category == (if stream[7] >= 128 then stream[7] as int - 256 else stream[7] as int)
       && command == (if stream[8] >= 128 then stream[8] as int - 256 else stream[8] as int)
       && payload == stream[10..n] && rest == stream[n..]
  }

  /** When ReceivePacket succeeds and what it receives, byte by byte. */
  lemma ReceiveBytes(incoming: seq<byte>, schedule: seq<int>, magic: bool)
    ensures var r := Receive(incoming, schedule, magic);
      && (r.Some? <==>
            && schedule != [] && schedule[0] >= 10 && |incoming| >= 10
            && (magic ==> incoming[0] == 0xFF && incoming[1] == 0xFF) && incoming[2] == 1
            && var n := LengthWord(incoming);
               10 <= n < 0x8000_0000 && n <= |incoming| && Delivers(n - 10, schedule[1..], n - 10))
      && (r.Some? ==> Arrived(incoming, magic, r.value.0.category, r.value.0.command, r.value.0.payload, r.value.1))
  {
    if |incoming| >= 10 {
      var h := incoming[..10];
      assert h[0] == incoming[0] && h[1] == incoming[1] && h[2] == incoming[2] && LengthWord(h) == LengthWord(incoming);
      CheckBytes(h, magic);
      hide CheckHeader, LengthWord, Delivers, Leftover;
    }
  }

  /** The checks on a header, byte by byte. */
  lemma CheckBytes(h: seq<byte>, magic: bool)
    requires |h| == 10
    ensures var c, n := CheckHeader(h, magic), LengthWord(h);
      && (c.Accepted? <==> (magic ==> h[0] == 0xFF && h[1] == 0xFF) && h[2] == 1 && 10 <= n < 0x8000_0000)
      && (c.Accepted? ==>
            && c.length == n - 10
            && c.category == (if h[7] >= 128 then h[7] as int - 256 else h[7] as int)
            && c.command == (if h[8] >= 128 then h[8] as int - 256 else h[8] as int))
  {
    From32Bytes(h[3..7]);
    assert From32(h[3..7]) == LengthWord(h);
    SignedLength(LengthWord(h));
    hide From32, Signed32, LengthWord;
  }

  lemma SignedLength(u: int)
    requires 0 <= u < 0x1_0000_0000
    ensures Signed32(u) == if u < 0x8000_0000 then u else u - 0x1_0000_0000
  {
  }

  // ------------------------------------------------------------------ laws

  /** The number of bytes a schedule moves in pieces of at most `most`. */
  function Moved(schedule: seq<int>, most: nat): int {
    if schedule == [] then 0
    else (if schedule[0] < most then schedule[0] else most) + Moved(schedule[1..], most)
  }

  /** The first j counts never stall and move n bytes. */
  predicate MovesBy(n: nat, schedule: seq<int>, most: nat, j: nat) {
    j <= |schedule| && (forall i :: 0 <= i < j ==> schedule[i] >= 1) && Moved(schedule[..j], most) >= n
  }

  /** A schedule delivers n bytes exactly if some beginning of it never stalls and moves as many. */
  lemma {:induction false} DeliversExact(n: nat, schedule: seq<int>, most: nat)
    requires most > 0
    ensures Delivers(n, schedule, most) <==> exists j: nat :: MovesBy(n, schedule, most, j)
    decreases |schedule|
  {
    if n == 0 {
      assert MovesBy(0, schedule, most, 0);
    } else if schedule != [] && schedule[0] >= 1 {
      var rest := n - Min(schedule[0], Min(n, most));
      DeliversExact(rest, schedule[1..], most);
      if Delivers(n, schedule, most) {
        var j: nat :| MovesBy(rest, schedule[1..], most, j);
        MoreMoved(n, schedule, most, j);
      }
      if j: nat :| MovesBy(n, schedule, most, j) {
        LessMoved(n, schedule, most, rest, j);
      }
    }
  }

  lemma MoreMoved(n: nat, schedule: seq<int>, most: nat, j: nat)
    requires most > 0 && n > 0 && schedule != [] && schedule[0] >= 1
    requires MovesBy(n - Min(schedule[0], Min(n, most)), schedule[1..], most, j)
    ensures MovesBy(n, schedule, most, j + 1)
  {
    assert schedule[..j + 1][1..] == schedule[1..][..j];
    forall i | 0 <= i < j + 1 ensures schedule[i] >= 1 {
      if i > 0 { assert schedule[1..][i - 1] >= 1; }
    }
  }

  lemma LessMoved(n: nat, schedule: seq<int>, most: nat, rest: nat, j: nat)
    requires most > 0 && n > 0 && schedule != [] && schedule[0] >= 1 && rest == n - Min(schedule[0], Min(n, most))
    requires MovesBy(n, schedule, most, j)
    ensures exists i: nat :: MovesBy(rest, schedule[1..], most, i)
  {
    assert j > 0;
    if rest == 0 {
      assert MovesBy(rest, schedule[1..], most, 0);
    } else {
      assert schedule[..j][1..] == schedule[1..][..j - 1];
      forall i | 0 <= i < j - 1 ensures schedule[1..][i] >= 1 {
        assert schedule[i + 1] >= 1;
      }
      assert MovesBy(rest, schedule[1..], most, j - 1);
    }
  }

  /** Values that one header byte carries unchanged, and SendPacket does not refuse. */
  predicate Sendable(m: Message) {
    && m.category != 0 && m.command != 0
    && -128 <= m.category < 128 && -128 <= m.command < 128
    && |m.payload| + HEADER < 0x8000_0000
  }

  lemma HeaderBack(m: Message, magic: bool)
    requires Sendable(m)
    ensures CheckHeader(Header(m), magic) == Accepted(m.category, m.command, |m.payload|)
  {
    var h, n := Header(m), |m.payload| + HEADER;
    HeaderParts(m);
    Word32Back(n);
    assert Signed32(n) == n && Signed8(m.category % 256) == m.category && Signed8(m.command % 256) == m.command;
    hide Header, Word32, From32, Signed8, Signed32;
  }

  lemma HeaderParts(m: Message)
    requires |m.payload| + HEADER < 0x1_0000_0000
    ensures var h := Header(m);
            && h[0] == h[1] == 0xFF && h[2] == PROTOCOL_VER
            && h[3..7] == Word32(|m.payload| + HEADER)
            && h[7] == m.category % 256 && h[8] == m.command % 256
  {
    hide Word32;
  }

  /** A frame is received exactly when its header arrives in one read and no payload read
      comes back empty-handed; it is then received unchanged, and nothing beyond it is touched. */
  lemma ReceiveFrame(m: Message, tail: seq<byte>, schedule: seq<int>, magic: bool)
    requires Sendable(m)
    ensures var n := |m.payload|;
            var arrives := schedule != [] && schedule[0] >= HEADER && Delivers(n, Rest(schedule), n);
            Receive(Frame(m) + tail, schedule, magic) ==
              if arrives then Some((m, tail, Leftover(n, Rest(schedule), n))) else None
  {
    var stream, n := Frame(m) + tail, |m.payload|;
    assert stream[..HEADER] == Header(m);
    assert stream[HEADER..HEADER + n] == m.payload && stream[HEADER + n..] == tail;
    HeaderBack(m, magic);
    hide Header, CheckHeader, Frame;
  }

  function Stream(ms: seq<Message>): seq<byte> {
    if ms == [] then [] else Frame(ms[0]) + Stream(ms[1..])
  }

  /** Repeated ReceivePacket. */
  function ReceiveAll(incoming: seq<byte>, schedule: seq<int>, n: nat): Option<(seq<Message>, seq<byte>)> {
    if n == 0 then Some(([], incoming))
    else
      match Receive(incoming, schedule, true)
      case None => None
      case Some((m, rest, left)) =>
        match ReceiveAll(rest, left, n - 1)
        case None => None
        case Some((ms, end)) => Some(([m] + ms, end))
  }

  /** A schedule that brings in one frame after the other. */
  predicate DeliversAll(ms: seq<Message>, schedule: seq<int>)
    decreases |ms|
  {
    ms == [] ||
    (var n := |ms[0].payload|;
     && schedule != [] && schedule[0] >= HEADER
     && Delivers(n, Rest(schedule), n)
     && DeliversAll(ms[1..], Leftover(n, Rest(schedule), n)))
  }

  /** Back-to-back frames are recovered in order, each receive taking exactly its own frame,
      if and only if the schedule brings each of them in. */
  lemma {:induction false} ReceiveStream(ms: seq<Message>, tail: seq<byte>, schedule: seq<int>)
    requires forall k :: 0 <= k < |ms| ==> Sendable(ms[k])
    ensures ReceiveAll(Stream(ms) + tail, schedule, |ms|) == if DeliversAll(ms, schedule) then Some((ms, tail)) else None
    decreases |ms|
  {
    hide *;
    StreamSteps(ms, tail, schedule);
    if ms != [] {
      var n := |ms[0].payload|;
      ReceiveFrame(ms[0], Stream(ms[1..]) + tail, schedule, true);
      if schedule != [] && schedule[0] >= HEADER && Delivers(n, Rest(schedule), n) {
        ReceiveStream(ms[1..], tail, Leftover(n, Rest(schedule), n));
        assert [ms[0]] + ms[1..] == ms;
      }
    }
  }

  /** Stream, ReceiveAll and DeliversAll, unfolded once. */
  lemma StreamSteps(ms: seq<Message>, tail: seq<byte>, schedule: seq<int>)
    ensures ms == [] ==>
      Stream(ms) + tail == tail && ReceiveAll(tail, schedule, 0) == Some(([], tail)) && DeliversAll(ms, schedule)
    ensures ms != [] ==>
      && Stream(ms) + tail == Frame(ms[0]) + (Stream(ms[1..]) + tail)
      && ReceiveAll(Stream(ms) + tail, schedule, |ms|) ==
           (match Receive(Stream(ms) + tail, schedule, true)
            case None => None
            case Some((m, rest, left)) =>
              match ReceiveAll(rest, left, |ms| - 1)
              case None => None
              case Some((more, end)) => Some(([m] + more, end)))
      && var n := |ms[0].payload|;
         DeliversAll(ms, schedule) ==
           (schedule != [] && schedule[0] >= HEADER && Delivers(n, Rest(schedule), n)
            && DeliversAll(ms[1..], Leftover(n, Rest(schedule), n)))
  {
    hide Receive, Frame, Delivers, Leftover;
    if ms == [] {
      assert Stream(ms) + tail == tail;
    } else {
      Associate(Frame(ms[0]), Stream(ms[1..]), tail);
    }
  }

  /** Without the magic check a stream is taken differently exactly when its header lacks
      the magic and would otherwise be accepted and arrive. */
  lemma SelectDiffers(incoming: seq<byte>, schedule: seq<int>)
    ensures Receive(incoming, schedule, false) != Receive(incoming, schedule, true) <==>
            && Receive(incoming, schedule, false) != None
            && (incoming[0] != 0xFF || incoming[1] != 0xFF)
  {
  }
}
