/** The command_* sessions of main_alive.cpp: connecting, one request and reply, closing. */
module Session {
  import opened Bytes
  import opened Splitting
  import opened Wrappers
  import opened Wire
  import T = Transport
  import P = Packet

  const CAT_REQUEST := 1
  const REQ_REGISTRY_HEARTBEAT := 3
  const REQ_ALIVE_STATUS := 4
  const REQ_REFRESH_INFO := 5
  const REQ_METADATA_REPORT := 6
  const ERR_FAILED := 1
  const TRIES := 100

  // ---------------------------------------------------------- environment

  /** The peer behind a connection: what it sends, and how reads and writes are split up. */
  datatype Peer = Peer(incoming: seq<byte>, readCounts: seq<int>, writeCounts: seq<int>)

  /** How one call of ConnectToServer goes: socket() fails, connect() fails, or a connection. */
  datatype Attempt = NoSocket | Refused(fd: nat) | Connected(fd: nat, peer: Peer)

  /** Descriptors opened by socket() and passed to close(). */
  datatype Op = Open(fd: nat) | Close(fd: nat)

  // --------------------------------------------------------- specification

  function Effect(a: Attempt): seq<Op> {
    match a
    case NoSocket => []
    case Refused(fd) => [Open(fd), Close(fd)]
    case Connected(fd, _) => [Open(fd)]
  }

  /** The attempt at index i; once the list is over, socket() fails. */
  function AttemptAt(attempts: seq<Attempt>, i: nat): Attempt {
    if i < |attempts| then attempts[i] else NoSocket
  }

  /** What `sock` holds after an attempt. */
  function SockAfter(a: Attempt): nat {
    if a.Connected? then a.fd else 0
  }

  /** The connect loop from index i: `entered` if it leaves by break, the index of the
      connection used, and the descriptor operations. */
  datatype Dialled = Dialled(entered: bool, index: nat, ops: seq<Op>)

  function Dial(attempts: seq<Attempt>, i: nat): (d: Dialled)
    requires i < TRIES
    ensures i <= d.index < TRIES
    ensures d.entered ==> d.index < TRIES - 1 && AttemptAt(attempts, d.index).Connected? && AttemptAt(attempts, d.index).fd != 0
    decreases TRIES - i
  {
    var a := AttemptAt(attempts, i);
    if i == TRIES - 1 then Dialled(false, i, Effect(a) + [Close(SockAfter(a))])
    else if SockAfter(a) != 0 then Dialled(true, i, Effect(a))
    else
      var d := Dial(attempts, i + 1);
      d.(ops := Effect(a) + d.ops)
  }

  function Prepend(done: seq<Op>, d: Dialled): Dialled {
    d.(ops := done + d.ops)
  }

  lemma PrependPrepend(a: seq<Op>, b: seq<Op>, d: Dialled)
    ensures Prepend(a, Prepend(b, d)) == Prepend(a + b, d)
  {
    assert a + (b + d.ops) == a + b + d.ops;
  }

  lemma PrependNothing(d: Dialled)
    ensures Prepend([], d) == d
  {
    assert [] + d.ops == d.ops;
  }

  lemma PrependDone(done: seq<Op>, entered: bool, i: nat, ops: seq<Op>)
    ensures Prepend(done, Dialled(entered, i, ops)) == Dialled(entered, i, done + ops)
  {
  }

  /** Dial, unfolded once. */
  lemma DialStep(attempts: seq<Attempt>, i: nat)
    requires i < TRIES
    ensures var a := AttemptAt(attempts, i);
            Dial(attempts, i) ==
              if i == TRIES - 1 then Dialled(false, i, Effect(a) + [Close(SockAfter(a))])
              else if SockAfter(a) != 0 then Dialled(true, i, Effect(a))
              else Prepend(Effect(a), Dial(attempts, i + 1))
  {
  }

  /** The reply a reporting command accepts: any packet whose payload is one int other than ERR_FAILED. */
  predicate GoodReply(peer: Peer) {
    var r := T.Receive(peer.incoming, peer.readCounts, true);
    && r.Some?
    && |r.value.0.payload| == 4
    && Signed32(From32(r.value.0.payload)) != ERR_FAILED
  }

  /** The request gets out whole. */
  predicate Delivered(peer: Peer, request: T.Message) {
    && peer.writeCounts != [] && peer.writeCounts[0] >= T.HEADER
    && T.Delivers(|request.payload|, T.Rest(peer.writeCounts), T.PACKET_SIZE)
  }

  function Request(command: int, fields: seq<Field>): T.Message {
    T.Message(CAT_REQUEST, command, EncodeAll(fields))
  }

  /** When a reporting command returns TRUE. */
  predicate Succeeds(attempts: seq<Attempt>, request: T.Message) {
    var d := Dial(attempts, 0);
    && d.entered
    && Delivered(AttemptAt(attempts, d.index).peer, request)
    && GoodReply(AttemptAt(attempts, d.index).peer)
  }

  /** All the descriptor operations of a command: after the exchange, one close. */
  function Ledger(attempts: seq<Attempt>): seq<Op> {
    var d := Dial(attempts, 0);
    if d.entered then d.ops + [Close(AttemptAt(attempts, d.index).fd)] else d.ops
  }

  // ------------------------------------------------------ the C functions

  /** The process's sockets: attempts still to come, and the operations so far. */
  class Net {
    var attempts: seq<Attempt>
    var used: nat
    var ops: seq<Op>

    constructor (attempts: seq<Attempt>)
      ensures this.attempts == attempts && used == 0 && ops == []
    {
      this.attempts, used, ops := attempts, 0, [];
    }

    /** ConnectToServer: `sock` is -1 if socket() failed; a refused descriptor is closed at once. */
    method ConnectToServer() returns (ok: bool, sock: int)
      modifies this`used, this`ops
      ensures used == old(used) + 1
      ensures var a := AttemptAt(attempts, old(used));
              && ok == a.Connected? && (ok ==> sock == a.fd)
              && ops == old(ops) + Effect(a)
              && Effect(a) == match a
                 case NoSocket => []
                 case Refused(fd) => [Open(fd), Close(fd)]
                 case Connected(fd, _) => [Open(fd)]
    {
      var a := AttemptAt(attempts, used);
      used := used + 1;
      match a
      case NoSocket =>
        ok, sock := false, -1;
      case Refused(fd) =>
        ops := ops + [Open(fd)];
        ops := ops + [Close(fd)];
        ok, sock := false, fd;
      case Connected(fd, _) =>
        ops := ops + [Open(fd)];
        ok, sock := true, fd;
    }

    method CloseToServer(sock: nat)
      modifies this`ops
      ensures ops == old(ops) + [Close(sock)]
    {
      ops := ops + [Close(sock)];
    }

    /** One turn of the connect loop: connects, and gives up after the last attempt. */
    method ConnectTurn(i: nat) returns (sock: nat, gaveUp: bool)
      requires used == i < TRIES
      modifies this`used, this`ops
      ensures used == i + 1
      ensures var a := AttemptAt(attempts, i);
              && sock == SockAfter(a) && gaveUp == (i == TRIES - 1)
              && ops == old(ops) + (if gaveUp then Effect(a) + [Close(sock)] else Effect(a))
    {
      var ok, s := ConnectToServer();
      sock := if ok then s else 0;
      gaveUp := i == TRIES - 1;
      if gaveUp {
        CloseToServer(sock);
      }
    }

    /** The loop at the head of every command. */
    method ConnectLoop() returns (entered: bool, sock: nat)
      requires used == 0
      modifies this`used, this`ops
      ensures var d := Dial(attempts, 0);
              && entered == d.entered && ops == old(ops) + d.ops && used == d.index + 1
              && (entered ==> sock == AttemptAt(attempts, d.index).fd)
    {
      hide Effect, Dial, Prepend;
      ghost var d, done := Dial(attempts, 0), [];
      PrependNothing(d);
      sock := 0;
      var i: nat := 0;
      while i < TRIES && sock == 0
        invariant i <= TRIES && used == i && ops == old(ops) + done
        invariant sock == 0 ==> i < TRIES && d == Prepend(done, Dial(attempts, i))
        invariant sock != 0 ==> 0 < i < TRIES && d == Dialled(true, i - 1, done) && sock == AttemptAt(attempts, i - 1).fd
        decreases TRIES - i
      {
        DialStep(attempts, i);
        var gaveUp;
        ghost var before := ops;
        sock, gaveUp := ConnectTurn(i);
        ghost var step := ops[|before|..];
        assert ops == before + step;
        if gaveUp || sock != 0 {
          PrependDone(done, !gaveUp, i, step);
        } else {
          PrependPrepend(done, step, Dial(attempts, i + 1));
        }
        done := done + step;
        i := i + 1;
        if gaveUp {
          return false, sock;
        }
      }
      entered := true;
    }

    /** One request and one reply over the connection just made. */
    method Exchange(command: int, fields: seq<Field>) returns (ok: bool, sent: seq<byte>)
      requires 0 < used && AttemptAt(attempts, used - 1).Connected? && command != 0
      ensures var peer, request := AttemptAt(attempts, used - 1).peer, Request(command, fields);
              && sent <= T.Frame(request)
              && (ok ==> sent == T.Frame(request))
              && (ok <==> Delivered(peer, request) && GoodReply(peer))
    {
      var peer := AttemptAt(attempts, used - 1).peer;
      ok, sent := P.SendFields(fields, CAT_REQUEST, command, peer.writeCounts);
      if !ok { return; }
      var values, category, code;
      ok, values, category, code := P.ReceiveFields(peer.incoming, peer.readCounts, [KInt]);
      if T.Receive(peer.incoming, peer.readCounts, true).Some? {
        ReplyIsInt(peer);
      }
      if !ok { return; }
      if values[0].v == ERR_FAILED {
        ok := false;
      }
    }

    /** A reporting command: connect, exchange, close on every way out. */
    method Report(command: int, fields: seq<Field>) returns (ok: bool, sent: seq<byte>)
      requires used == 0 && command != 0
      modifies this`used, this`ops
      ensures ok <==> Succeeds(attempts, Request(command, fields))
      ensures ok ==> sent == T.Frame(Request(command, fields))
      ensures !Dial(attempts, 0).entered ==> sent == []
      ensures ops == old(ops) + Ledger(attempts)
      ensures used <= 100
    {
      var entered, sock := ConnectLoop();
      sent := [];
      if !entered {
        return false, [];
      }
      ok, sent := Exchange(command, fields);
      CloseToServer(sock);
    }

    /** command_refresh_info sends nothing. */
    method RefreshInfo() returns (ok: bool)
      requires used == 0
      modifies this`used, this`ops
      ensures ok <==> Dial(attempts, 0).entered
      ensures ops == old(ops) + Ledger(attempts)
    {
      var entered, sock := ConnectLoop();
      if !entered {
        return false;
      }
      CloseToServer(sock);
      return true;
    }
  }

  /** Reading one int and finding the end is having exactly four bytes. */
  lemma ReplyIsInt(peer: Peer)
    requires T.Receive(peer.incoming, peer.readCounts, true).Some?
    ensures var payload := T.Receive(peer.incoming, peer.readCounts, true).value.0.payload;
            var r := ReadAll(payload, [KInt]);
            && (r.ok && r.ptr == |payload| <==> |payload| == 4)
            && (|payload| == 4 ==> r.values == [Int(Signed32(From32(payload)))])
  {
    var payload := T.Receive(peer.incoming, peer.readCounts, true).value.0.payload;
    assert Front([KInt]) == [];
    assert ReadAll(payload, []) == Readings([], true, 0);
    if |payload| == 4 { assert payload[0..4] == payload; }
  }

  // --------------------------------------------------------- the commands

  datatype ConnInfo = ConnInfo(
    metaname: seq<byte>, host: seq<byte>, serverType: int, uuid: seq<byte>, zone: seq<byte>, externalIp: seq<byte>)

  /** A length in four bytes, the high one first, and the text. */
  function Lengthed(text: seq<byte>): seq<byte> {
    FourBytes(|text|) + text
  }

  function FourBytes(v: int): seq<byte> {
    var u := v % 0x1_0000_0000;
    [u / 0x100_0000, u / 0x1_0000 % 256, u / 256 % 256, u % 256]
  }

  /** A request on the wire: magic, version 1, the whole length, category 1, the command. */
  function Framed(command: byte, payload: seq<byte>): seq<byte> {
    [0xFF, 0xFF, 1] + FourBytes(|payload| + 10) + [1, command, 0] + payload
  }

  lemma FramedIs(command: byte, fields: seq<Field>)
    ensures T.Frame(Request(command, fields)) == Framed(command, EncodeAll(fields))
  {
    T.FrameBytes(Request(command, fields));
    hide T.Frame;
  }

  lemma TextIs(text: seq<byte>)
    ensures Encode(Str(text)) == Lengthed(text)
  {
    EncodeBytes(Str(text));
    hide Encode;
  }

  lemma IntIs(v: int)
    ensures Encode(Int(v)) == FourBytes(v)
  {
    EncodeBytes(Int(v));
    hide Encode;
  }

  lemma FieldsMore(fs: seq<Field>, f: Field)
    ensures EncodeAll(fs + [f]) == EncodeAll(fs) + Encode(f) && EncodeAll([]) == []
  {
    assert Front(fs + [f]) == fs;
  }

  lemma FieldsTwo(f: Field, g: Field)
    ensures EncodeAll([f, g]) == Encode(f) + Encode(g)
  {
    hide *;
    FieldsMore([], f);
    FieldsMore([f], g);
    assert [] + [f] == [f] && [f] + [g] == [f, g];
  }

  lemma FieldsThree(f: Field, g: Field, h: Field)
    ensures EncodeAll([f, g, h]) == Encode(f) + Encode(g) + Encode(h)
  {
    hide *;
    FieldsTwo(f, g);
    FieldsMore([f, g], h);
    assert [f, g] + [h] == [f, g, h];
  }

  /** Sends the name and the identifier, as command 4. */
  method AliveReport(net: Net, c: ConnInfo) returns (ok: bool, sent: seq<byte>)
    requires net.used == 0
    modifies net`used, net`ops
    ensures ok <==> Succeeds(net.attempts, Request(4, [Str(c.metaname), Str(c.uuid)]))
    ensures ok ==> sent == Framed(4, Lengthed(c.metaname) + Lengthed(c.uuid))
    ensures net.ops == old(net.ops) + Ledger(net.attempts)
  {
    ok, sent := net.Report(REQ_ALIVE_STATUS, [Str(c.metaname), Str(c.uuid)]);
    assert REQ_ALIVE_STATUS == 4;
    hide *;
    FramedIs(4, [Str(c.metaname), Str(c.uuid)]);
    FieldsTwo(Str(c.metaname), Str(c.uuid));
    TextIs(c.metaname);
    TextIs(c.uuid);
  }

  function HeartbeatFields(c: ConnInfo, clientIps: seq<byte>): seq<Field> {
    [Str(c.metaname), Str(c.host), Int(c.serverType), Str(c.uuid), Str(clientIps), Str(c.zone), Str(c.externalIp)]
  }

  /** The seven fields in their order on the wire. */
  lemma HeartbeatBytes(c: ConnInfo, clientIps: seq<byte>)
    ensures EncodeAll(HeartbeatFields(c, clientIps)) ==
      Lengthed(c.metaname) + Lengthed(c.host) + FourBytes(c.serverType) + Lengthed(c.uuid)
      + Lengthed(clientIps) + Lengthed(c.zone) + Lengthed(c.externalIp)
  {
    var f3 := [Str(c.metaname), Str(c.host), Int(c.serverType)];
    var f4 := f3 + [Str(c.uuid)];
    var f5 := f4 + [Str(clientIps)];
    var f6 := f5 + [Str(c.zone)];
    assert HeartbeatFields(c, clientIps) == f6 + [Str(c.externalIp)];
    hide *;
    FieldsThree(Str(c.metaname), Str(c.host), Int(c.serverType));
    FieldsMore(f3, Str(c.uuid));
    FieldsMore(f4, Str(clientIps));
    FieldsMore(f5, Str(c.zone));
    FieldsMore(f6, Str(c.externalIp));
    TextIs(c.metaname);
    TextIs(c.host);
    IntIs(c.serverType);
    TextIs(c.uuid);
    TextIs(clientIps);
    TextIs(c.zone);
    TextIs(c.externalIp);
  }

  /** `clientIps` is what getifaddrs yields; command 3. */
  method HeartbeatReport(net: Net, c: ConnInfo, clientIps: seq<byte>) returns (ok: bool, sent: seq<byte>)
    requires net.used == 0
    modifies net`used, net`ops
    ensures ok <==> Succeeds(net.attempts, Request(3, HeartbeatFields(c, clientIps)))
    ensures ok ==>
      sent == Framed(3, Lengthed(c.metaname) + Lengthed(c.host) + FourBytes(c.serverType) + Lengthed(c.uuid)
                        + Lengthed(clientIps) + Lengthed(c.zone) + Lengthed(c.externalIp))
    ensures net.ops == old(net.ops) + Ledger(net.attempts)
  {
    ok, sent := net.Report(REQ_REGISTRY_HEARTBEAT, HeartbeatFields(c, clientIps));
    assert REQ_REGISTRY_HEARTBEAT == 3;
    hide *;
    FramedIs(3, HeartbeatFields(c, clientIps));
    HeartbeatBytes(c, clientIps);
  }

  /** `health` and `address` are what the two HTTP requests yield; command 6. */
  method MetadataReport(net: Net, c: ConnInfo, address: seq<byte>, health: bool) returns (ok: bool, sent: seq<byte>)
    requires net.used == 0
    modifies net`used, net`ops
    ensures ok <==> Succeeds(net.attempts, Request(6, [Str(c.uuid), Str(address), Int(if health then 1 else 0)]))
    ensures ok ==> sent == Framed(6, Lengthed(c.uuid) + Lengthed(address) + [0, 0, 0, if health then 1 else 0])
    ensures net.ops == old(net.ops) + Ledger(net.attempts)
  {
    var h := if health then 1 else 0;
    assert REQ_METADATA_REPORT == 6;
    hide *;
    MetadataBytes(c, address, h);
    ok, sent := net.Report(REQ_METADATA_REPORT, [Str(c.uuid), Str(address), Int(h)]);
  }

  lemma MetadataBytes(c: ConnInfo, address: seq<byte>, h: byte)
    ensures T.Frame(Request(6, [Str(c.uuid), Str(address), Int(h)])) ==
            Framed(6, Lengthed(c.uuid) + Lengthed(address) + [0, 0, 0, h])
  {
    assert FourBytes(h) == [0, 0, 0, h];
    hide *;
    FramedIs(6, [Str(c.uuid), Str(address), Int(h)]);
    FieldsThree(Str(c.uuid), Str(address), Int(h));
    TextIs(c.uuid);
    TextIs(address);
    IntIs(h);
  }

  // ------------------------------------------------------------------ laws

  /** The first connection among the first 99 attempts whose descriptor is not 0. */
  predicate FirstConnection(attempts: seq<Attempt>, i: nat) {
    && i < 99 && i < |attempts| && attempts[i].Connected? && attempts[i].fd != 0
    && forall k :: 0 <= k < i ==> !attempts[k].Connected? || attempts[k].fd == 0
  }

  /** A peer that takes a frame with n bytes of payload and answers with a frame that holds
      one number other than 1. */
  predicate AnswersWell(peer: Peer, n: nat) {
    && peer.writeCounts != [] && peer.writeCounts[0] >= 10 && T.Delivers(n, peer.writeCounts[1..], 4096)
    && peer.readCounts != [] && peer.readCounts[0] >= 10 && |peer.incoming| >= 14
    && peer.incoming[..7] == [0xFF, 0xFF, 1, 0, 0, 0, 14]
    && T.Delivers(4, peer.readCounts[1..], 4)
    && peer.incoming[10..14] != [0, 0, 0, 1]
  }

  /** When a reporting command returns TRUE, descriptor by descriptor and byte by byte. */
  lemma SucceedsIs(attempts: seq<Attempt>, request: T.Message)
    ensures Succeeds(attempts, request) <==>
            exists i: nat :: FirstConnection(attempts, i) && AnswersWell(attempts[i].peer, |request.payload|)
  {
    DialFirst(attempts, 0);
    var d := Dial(attempts, 0);
    if d.entered {
      var i := d.index;
      assert FirstConnection(attempts, i);
      assert forall j: nat :: FirstConnection(attempts, j) ==> j == i;
      AnswersIs(attempts[i].peer, request);
    } else {
      assert forall j: nat :: !FirstConnection(attempts, j);
    }
    hide Dial, AnswersWell, GoodReply, Delivered;
  }

  lemma {:induction false} DialFirst(attempts: seq<Attempt>, i: nat)
    requires i < TRIES
    ensures var d := Dial(attempts, i);
            && (forall k :: i <= k < d.index && k < |attempts| ==> !attempts[k].Connected? || attempts[k].fd == 0)
            && (d.entered ==> d.index < |attempts| && d.index < 99 && attempts[d.index].Connected? && attempts[d.index].fd != 0)
            && (!d.entered ==> d.index == 99)
    decreases TRIES - i
  {
    if i < TRIES - 1 && SockAfter(AttemptAt(attempts, i)) == 0 {
      DialFirst(attempts, i + 1);
    }
  }

  lemma AnswersIs(peer: Peer, request: T.Message)
    ensures Delivered(peer, request) && GoodReply(peer) <==> AnswersWell(peer, |request.payload|)
  {
    T.Sizes();
    DeliveredIs(peer, request);
    ReplyIs(peer);
    hide Delivered, GoodReply, T.Delivers;
  }

  lemma DeliveredIs(peer: Peer, request: T.Message)
    ensures Delivered(peer, request) <==>
            peer.writeCounts != [] && peer.writeCounts[0] >= 10 && T.Delivers(|request.payload|, peer.writeCounts[1..], 4096)
  {
    hide T.Delivers;
  }

  /** Which replies are good, byte by byte. */
  lemma ReplyIs(peer: Peer)
    ensures GoodReply(peer) <==>
      && peer.readCounts != [] && peer.readCounts[0] >= 10 && |peer.incoming| >= 14
      && peer.incoming[..7] == [0xFF, 0xFF, 1, 0, 0, 0, 14]
      && T.Delivers(4, peer.readCounts[1..], 4)
      && peer.incoming[10..14] != [0, 0, 0, 1]
  {
    var incoming := peer.incoming;
    T.ReceiveBytes(incoming, peer.readCounts, true);
    if |incoming| >= 14 {
      FourIs(incoming[10..14]);
      FourteenIs(incoming);
    }
    hide T.Receive, T.Delivers, From32, Signed32, T.LengthWord;
  }

  lemma FourIs(w: seq<byte>)
    requires |w| == 4
    ensures Signed32(From32(w)) == 1 <==> w == [0, 0, 0, 1]
  {
    From32Bytes(w);
    SignedBytes(From32(w), w[0], w[1], w[2], w[3]);
    hide From32, Signed32;
  }

  lemma FourteenIs(h: seq<byte>)
    requires |h| >= 14
    ensures T.LengthWord(h) == 14 && h[0] == 0xFF && h[1] == 0xFF && h[2] == 1 <==> h[..7] == [0xFF, 0xFF, 1, 0, 0, 0, 14]
  {
  }

  function Opens(ops: seq<Op>, fd: nat): nat {
    if ops == [] then 0 else Opens(Front(ops), fd) + if Last(ops) == Open(fd) then 1 else 0
  }

  function Closes(ops: seq<Op>, fd: nat): nat {
    if ops == [] then 0 else Closes(Front(ops), fd) + if Last(ops) == Close(fd) then 1 else 0
  }

  lemma {:induction false} CountConcat(a: seq<Op>, b: seq<Op>, fd: nat)
    ensures Opens(a + b, fd) == Opens(a, fd) + Opens(b, fd)
    ensures Closes(a + b, fd) == Closes(a, fd) + Closes(b, fd)
  {
    if b == [] {
      assert a + b == a;
    } else {
      FrontLast(a, b);
      CountConcat(a, Front(b), fd);
    }
  }

  lemma CountEffect(a: Attempt, fd: nat)
    ensures Opens(Effect(a), fd) == if !a.NoSocket? && a.fd == fd then 1 else 0
    ensures Closes(Effect(a), fd) == if a.Refused? && a.fd == fd then 1 else 0
    ensures Opens([Close(fd)], fd) == 0 && Closes([Close(fd)], fd) == 1
    ensures forall other: nat :: other != fd ==> Opens([Close(other)], fd) == 0 && Closes([Close(other)], fd) == 0
  {
    forall other: nat | other != fd ensures Opens([Close(other)], fd) == 0 && Closes([Close(other)], fd) == 0 {
      assert Front([Close(other)]) == [];
    }
    assert Front([Close(fd)]) == [];
    match a
    case NoSocket =>
    case Refused(x) =>
      CountOpen(x, fd);
      CountConcat([Open(x)], [Close(x)], fd);
      assert Effect(a) == [Open(x)] + [Close(x)];
    case Connected(x, _) =>
      CountOpen(x, fd);
  }

  lemma CountOpen(x: nat, fd: nat)
    ensures Opens([Open(x)], fd) == (if x == fd then 1 else 0) && Closes([Open(x)], fd) == 0
  {
    assert Front([Open(x)]) == [];
  }

  /** Connections made on descriptor 0 from index i up to and including `last`. */
  function ZeroConnections(attempts: seq<Attempt>, i: nat, last: nat): nat
    requires i <= last + 1
    decreases last + 1 - i
  {
    if i == last + 1 then 0
    else
      var a := AttemptAt(attempts, i);
      (if a.Connected? && a.fd == 0 then 1 else 0) + ZeroConnections(attempts, i + 1, last)
  }

  /** The give-up exit with no connection in hand closes descriptor 0. */
  predicate ClosesZero(attempts: seq<Attempt>) {
    var d := Dial(attempts, 0);
    !d.entered && SockAfter(AttemptAt(attempts, d.index)) == 0
  }

  /** Every descriptor but 0 is closed exactly as often as it was opened; descriptor 0 is
      closed once more for the give-up exit, and once less for each connection made on it. */
  lemma LedgerBalance(attempts: seq<Attempt>, fd: nat)
    ensures var d, ops := Dial(attempts, 0), Ledger(attempts);
            if fd != 0 then Opens(ops, fd) == Closes(ops, fd)
            else
              Opens(ops, 0) + (if ClosesZero(attempts) then 1 else 0)
                == Closes(ops, 0) + ZeroConnections(attempts, 0, d.index)
  {
    DialBalance(attempts, 0, fd);
    var d := Dial(attempts, 0);
    if d.entered {
      var used := AttemptAt(attempts, d.index).fd;
      CountConcat(d.ops, [Close(used)], fd);
      CountEffect(NoSocket, fd);
    }
  }

  lemma {:induction false} DialBalance(attempts: seq<Attempt>, i: nat, fd: nat)
    requires i < TRIES
    ensures var d := Dial(attempts, i);
            var last := AttemptAt(attempts, d.index);
            && (fd != 0 ==> Opens(d.ops, fd) == Closes(d.ops, fd) + if d.entered && last.fd == fd then 1 else 0)
            && (fd == 0 ==> Opens(d.ops, 0) + (if !d.entered && SockAfter(last) == 0 then 1 else 0)
                              == Closes(d.ops, 0) + ZeroConnections(attempts, i, d.index))
    decreases TRIES - i
  {
    var a := AttemptAt(attempts, i);
    CountEffect(a, fd);
    if i == TRIES - 1 {
      CountConcat(Effect(a), [Close(SockAfter(a))], fd);
    } else if SockAfter(a) == 0 {
      DialBalance(attempts, i + 1, fd);
      CountConcat(Effect(a), Dial(attempts, i + 1).ops, fd);
    }
  }

  /** As long as socket() never returns 0: the exchange is entered exactly when one of the
      first 99 attempts connects, and then with the first that does. */
  lemma {:induction false} DialEntered(attempts: seq<Attempt>, i: nat)
    requires i < TRIES
    requires forall k :: 0 <= k < |attempts| && !attempts[k].NoSocket? ==> attempts[k].fd != 0
    ensures var d := Dial(attempts, i);
            && (d.entered <==> exists k :: i <= k < 99 && AttemptAt(attempts, k).Connected?)
            && (forall k :: i <= k < d.index ==> !AttemptAt(attempts, k).Connected?)
            && ZeroConnections(attempts, i, d.index) == 0
    decreases TRIES - i
  {
    if i < TRIES - 1 && !AttemptAt(attempts, i).Connected? {
      DialEntered(attempts, i + 1);
    }
  }

  /** Under the same assumption the ledger is square but for one case: a hundred failures
      close descriptor 0, which the command never opened. */
  lemma LedgerSquare(attempts: seq<Attempt>)
    requires forall k :: 0 <= k < |attempts| && !attempts[k].NoSocket? ==> attempts[k].fd != 0
    ensures (forall fd: nat :: Opens(Ledger(attempts), fd) == Closes(Ledger(attempts), fd)) <==>
            exists k :: 0 <= k < 100 && AttemptAt(attempts, k).Connected?
  {
    DialEntered(attempts, 0);
    LastConnected(attempts, 0);
    var square := exists k :: 0 <= k < 100 && AttemptAt(attempts, k).Connected?;
    assert square <==> !ClosesZero(attempts);
    hide *;
    LedgerBalance(attempts, 0);
    forall fd: nat ensures fd != 0 ==> Opens(Ledger(attempts), fd) == Closes(Ledger(attempts), fd) {
      LedgerBalance(attempts, fd);
    }
  }

  lemma {:induction false} LastConnected(attempts: seq<Attempt>, i: nat)
    requires i < TRIES
    ensures !Dial(attempts, i).entered ==> Dial(attempts, i).index == TRIES - 1
    decreases TRIES - i
  {
    if i < TRIES - 1 && SockAfter(AttemptAt(attempts, i)) == 0 {
      LastConnected(attempts, i + 1);
    }
  }

  /** A connection on descriptor 0 is taken for no connection and stays open. */
  lemma ZeroLeaks(peer: Peer)
    ensures var attempts := [Connected(0, peer), Connected(3, peer)];
            Opens(Ledger(attempts), 0) == 1 && Closes(Ledger(attempts), 0) == 0
  {
    var attempts := [Connected(0, peer), Connected(3, peer)];
    assert Dial(attempts, 1) == Dialled(true, 1, [Open(3)]);
    assert Dial(attempts, 0) == Dialled(true, 1, [Open(0)] + [Open(3)]);
    CountConcat([Open(0)], [Open(3)], 0);
    CountConcat([Open(0)] + [Open(3)], [Close(3)], 0);
    assert Front([Open(0)]) == [] && Front([Open(3)]) == [] && Front([Close(3)]) == [];
  }
}
