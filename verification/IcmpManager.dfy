/** The class CIcmpMgr4: the tables behind Ping and Find, updated in place. */
module IcmpManager {
  import opened Wrappers
  import opened Buffers
  import opened Splitting
  import P = Probing
  import R = RangeScan

  const MAX_NUMIP := 256

  class IcmpMgr {
    var reqNum: nat
    var respNum: nat
    var ident: nat
    var reqIp: array<nat>
    var seqs: array<nat>
    var tries: array<nat>
    var sentAt: array<int>
    var respOk: array<bool>
    var respIp: array<nat>
    var outgoing: seq<P.Datagram>

    ghost predicate Valid()
      reads this
    {
      && reqNum <= MAX_NUMIP
      && reqIp.Length == seqs.Length == tries.Length == sentAt.Length == respOk.Length == respIp.Length == MAX_NUMIP
      && reqIp != seqs && reqIp != tries && reqIp != respIp && seqs != tries && seqs != respIp && tries != respIp
    }

    /** The targets added so far. */
    function Targets(): seq<nat>
      reads this, reqIp
      requires Valid()
    {
      reqIp[..reqNum]
    }

    /** The tables as the Ping state machine sees them. */
    function PingView(seqno: nat, next: nat): P.Table
      reads this, reqIp, seqs, tries, sentAt, respOk
      requires Valid()
    {
      P.Table(reqIp[..reqNum], seqs[..reqNum], tries[..reqNum], sentAt[..reqNum], respOk[..reqNum], respNum, seqno, next)
    }

    /** The tables as the Find state machine sees them. */
    function FindView(seqno: nat, next: nat): R.Scan
      reads this, tries, sentAt, respOk, respIp
      requires Valid()
    {
      R.Scan(tries[..], sentAt[..], respOk[..], respIp[..], respNum, seqno, next)
    }

    constructor ()
      ensures Valid() && Targets() == []
      ensures fresh(reqIp) && fresh(seqs) && fresh(tries) && fresh(sentAt) && fresh(respOk) && fresh(respIp)
      ensures seqs[..] == P.Zeros(256) && outgoing == [] && ident == 0x6238
    {
      reqNum, respNum, ident := 0, 0, 0x6238;
      reqIp := new nat[MAX_NUMIP](_ => 0);
      seqs := new nat[MAX_NUMIP](_ => 0);
      tries := new nat[MAX_NUMIP](_ => 0);
      sentAt := new int[MAX_NUMIP](_ => 0);
      respOk := new bool[MAX_NUMIP](_ => false);
      respIp := new nat[MAX_NUMIP](_ => 0);
      outgoing := [];
    }

    method Add(ip: nat) returns (added: bool)
      requires Valid()
      modifies this`reqNum, reqIp
      ensures Valid()
      ensures added <==> old(reqNum) < 256
      ensures Targets() == old(Targets()) + if added then [ip] else []
    {
      added := reqNum < MAX_NUMIP;
      if added {
        reqIp[reqNum] := ip;
        reqNum := reqNum + 1;
      }
    }

    method Clear()
      requires Valid()
      modifies this`reqNum
      ensures Valid() && Targets() == []
    {
      reqNum := 0;
    }

    method Hash(addr: nat, seqno: nat) returns (index: int)
      requires Valid()
      ensures index == match P.Hash(reqIp[..reqNum], seqs[..reqNum], addr, seqno, 0) case Some(i) => i case None => -1
    {
      for i := 0 to reqNum
        invariant P.Hash(reqIp[..reqNum], seqs[..reqNum], addr, seqno, 0) == P.Hash(reqIp[..reqNum], seqs[..reqNum], addr, seqno, i)
      {
        if reqIp[i] == addr && seqs[i] == seqno {
          return i;
        }
      }
      return -1;
    }

    /** The loop that opens Ping and Find. */
    method Reset(n: nat)
      requires Valid() && n <= MAX_NUMIP
      modifies tries, sentAt, respOk
      ensures forall i :: 0 <= i < n ==> tries[i] == 0 && sentAt[i] == 0 && !respOk[i]
      ensures forall i :: n <= i < MAX_NUMIP ==>
                tries[i] == old(tries[i]) && sentAt[i] == old(sentAt[i]) && respOk[i] == old(respOk[i])
    {
      for i := 0 to n
        invariant forall j :: 0 <= j < i ==> tries[j] == 0 && sentAt[j] == 0 && !respOk[j]
        invariant forall j :: i <= j < MAX_NUMIP ==>
                    tries[j] == old(tries[j]) && sentAt[j] == old(sentAt[j]) && respOk[j] == old(respOk[j])
      {
        sentAt[i] := 0;
        tries[i] := 0;
        respOk[i] := false;
      }
    }

    /** The half of Ping's loop body that takes a datagram. */
    method TakeReply(r: P.Reply, ghost retry: int, ghost seqno: nat, ghost next: nat)
      requires Valid() && next < reqNum
      modifies this`respNum, respOk, respIp
      ensures Valid()
      ensures PingView(seqno, next) == P.Step(old(PingView(seqno, next)), P.Readable(Some(r)), retry, ident)
      ensures P.EmitSends(Targets(), P.Emit(old(PingView(seqno, next)), P.Readable(Some(r)), retry, ident)) == []
    {
      if P.Decodes(r, ident) {
        var index := Hash(r.addr, r.seqno);
        hide P.Hash, P.Decodes;
        if index >= 0 && !respOk[index] {
          Credit(index, r.addr, seqno, next);
        }
      }
    }

    /** Marks a target as answered. */
    method Credit(i: nat, addr: nat, ghost seqno: nat, ghost next: nat)
      requires Valid() && next < reqNum && i < reqNum
      modifies this`respNum, respOk, respIp
      ensures Valid() && PingView(seqno, next) == P.Credited(old(PingView(seqno, next)), i)
    {
      ghost var before := PingView(seqno, next);
      respOk[i] := true;
      respIp[i] := addr;
      respNum := respNum + 1;
      assert respOk[..reqNum] == before.ok[i := true];
    }

    /** The half that sends a probe and advances the cursor. */
    method SendProbe(now: int, retry: int, seqno: nat, next: nat) returns (seqno': nat, next': nat)
      requires Valid() && next < reqNum
      modifies this`outgoing, seqs, tries, sentAt
      ensures Valid() && next' < reqNum
      ensures PingView(seqno', next') == P.Step(old(PingView(seqno, next)), P.Writable(now), retry, ident)
      ensures outgoing == old(outgoing) + P.EmitSends(Targets(), P.Emit(old(PingView(seqno, next)), P.Writable(now), retry, ident))
    {
      seqno' := seqno;
      if !respOk[next] && tries[next] < retry && now - sentAt[next] >= 1 {
        seqno' := (seqno' + 1) % 0x10000;
        Probe(next, seqno', now, seqno);
      }
      next' := (next + 1) % reqNum;
    }

    /** Sends a probe and books it. */
    method Probe(i: nat, s: nat, now: int, ghost seqno: nat)
      requires Valid() && i < reqNum
      modifies this`outgoing, seqs, tries, sentAt
      ensures Valid() && PingView(s, i) == P.Probed(old(PingView(seqno, i)), i, s, now)
      ensures outgoing == old(outgoing) + [P.Datagram(reqIp[i], s)] && reqIp[i] == old(reqIp[i])
    {
      ghost var before := PingView(seqno, i);
      tries[i] := tries[i] + 1;
      outgoing := outgoing + [P.Datagram(reqIp[i], s)];
      seqs[i] := s;
      sentAt[i] := now;
      assert tries[..reqNum] == before.tries[i := tries[i]] && seqs[..reqNum] == before.seqs[i := s];
      assert sentAt[..reqNum] == before.sentAt[i := now];
    }

    /** The loop body of Ping. */
    method PingTurn(e: P.Event, retry: int, seqno: nat, next: nat) returns (seqno': nat, next': nat)
      requires Valid() && next < reqNum
      modifies this`respNum, this`outgoing, seqs, tries, sentAt, respOk, respIp
      ensures Valid() && next' < reqNum && Targets() == old(Targets())
      ensures PingView(seqno', next') == P.Step(old(PingView(seqno, next)), e, retry, ident)
      ensures outgoing == old(outgoing) + P.EmitSends(Targets(), P.Emit(old(PingView(seqno, next)), e, retry, ident))
    {
      seqno', next' := seqno, next;
      match e
      case Readable(Some(r)) =>
        TakeReply(r, retry, seqno, next);
      case Writable(now) =>
        seqno', next' := SendProbe(now, retry, seqno, next);
      case _ =>
    }

    /** Ping over the events of a run; the run ends early when every target has answered. */
    method Ping(events: seq<P.Event>, retry: int) returns (answered: nat, used: nat, ghost seqno: nat, ghost next: nat)
      requires Valid()
      modifies this`respNum, this`outgoing, seqs, tries, sentAt, respOk, respIp
      ensures Valid() && used <= |events|
      ensures reqNum == 0 ==> answered == 0 && outgoing == old(outgoing)
      ensures reqNum > 0 ==>
        && PingView(seqno, next) == P.Run(P.Start(Targets(), old(seqs[..reqNum])), events[..used], retry, ident)
        && outgoing == old(outgoing) +
             P.Sends(Targets(), P.History(P.Start(Targets(), old(seqs[..reqNum])), events[..used], retry, ident))
        && answered == respNum
        && (used < |events| ==> respNum >= reqNum)
        && (used > 0 ==> P.Run(P.Start(Targets(), old(seqs[..reqNum])), events[..used - 1], retry, ident).respNum < reqNum)
    {
      used, seqno, next := 0, 0, 0;
      if reqNum == 0 {
        return 0, 0, 0, 0;
      }
      ghost var start := P.Start(Targets(), seqs[..reqNum]);
      respNum := 0;
      Reset(reqNum);
      assert sentAt[..reqNum] == start.sentAt && tries[..reqNum] == start.tries && respOk[..reqNum] == start.ok;
      assert PingView(0, 0) == start;
      hide *;
      used, seqno, next := PingLoop(events, retry, start);
      answered := respNum;
    }

    /** The loop of Ping. */
    method PingLoop(events: seq<P.Event>, retry: int, ghost start: P.Table)
      returns (used: nat, ghost seqno: nat, ghost next: nat)
      requires Valid() && reqNum > 0 && start.Shaped() && PingView(0, 0) == start
      modifies this`respNum, this`outgoing, seqs, tries, sentAt, respOk, respIp
      ensures Valid() && used <= |events| && (used < |events| ==> respNum >= reqNum)
      ensures used > 0 ==> P.Run(start, events[..used - 1], retry, ident).respNum < reqNum
      ensures PingView(seqno, next) == P.Run(start, events[..used], retry, ident)
      ensures outgoing == old(outgoing) + P.Sends(Targets(), P.History(start, events[..used], retry, ident))
    {
      var s: nat, n: nat := 0, 0;
      used := 0;
      ghost var ips, sent, me, previous := Targets(), outgoing, ident, events[..0];
      NothingSent(events, retry, start);
      hide *;
      while respNum < reqNum && used < |events|
        invariant Valid() && used <= |events| && n < reqNum && Targets() == ips && ident == me
        invariant PingView(s, n) == P.Run(start, events[..used], retry, me)
        invariant outgoing == sent + P.Sends(ips, P.History(start, events[..used], retry, me))
        invariant used > 0 ==> previous == events[..used - 1] && P.Run(start, previous, retry, me).respNum < reqNum
        decreases |events| - used
      {
        previous := events[..used];
        PingNext(events, used, retry, start, s, n, sent, ips);
        s, n := PingTurn(events[used], retry, s, n);
        used := used + 1;
      }
      seqno, next := s, n;
    }

    /** What one more turn adds to a run. */
    lemma PingNext(events: seq<P.Event>, k: nat, retry: int, start: P.Table, s: nat, n: nat, sent: seq<P.Datagram>, ips: seq<nat>)
      requires Valid() && k < |events| && start.Shaped() && ips == start.ips && n < reqNum
      requires PingView(s, n) == P.Run(start, events[..k], retry, ident)
      requires outgoing == sent + P.Sends(ips, P.History(start, events[..k], retry, ident))
      ensures P.Run(start, events[..k], retry, ident).respNum == respNum
      ensures P.Run(start, events[..k + 1], retry, ident) == P.Step(PingView(s, n), events[k], retry, ident)
      ensures sent + P.Sends(ips, P.History(start, events[..k + 1], retry, ident)) ==
              outgoing + P.EmitSends(ips, P.Emit(PingView(s, n), events[k], retry, ident))
    {
      hide *;
      ViewCount(s, n);
      assert events[..k + 1] == events[..k] + [events[k]];
      P.OneMore(start, events[..k], events[k], retry, ident);
      P.SendsMore(start, events[..k], events[k], retry, ident);
      Associate(sent, P.Sends(ips, P.History(start, events[..k], retry, ident)),
                P.EmitSends(ips, P.Emit(PingView(s, n), events[k], retry, ident)));
    }

    lemma ViewCount(seqno: nat, next: nat)
      requires Valid()
      ensures PingView(seqno, next).respNum == respNum
    {
    }

    lemma NothingSent(events: seq<P.Event>, retry: int, start: P.Table)
      requires Valid() && reqNum > 0 && start.Shaped() && PingView(0, 0) == start
      ensures start.ips == Targets() && P.Run(start, events[..0], retry, ident) == start
      ensures outgoing + P.Sends(Targets(), P.History(start, events[..0], retry, ident)) == outgoing
    {
      assert events[..0] == [];
    }

    /** The half of Find's loop body that takes a datagram. */
    method TakeAnswer(r: R.Range, a: P.Reply, ghost retry: int, ghost seqno: nat, ghost next: nat)
      requires Valid() && R.WithinBlock(r) && R.Inside(r, next)
      modifies this`respNum, respOk, respIp
      ensures Valid()
      ensures FindView(seqno, next) == R.Step(r, old(FindView(seqno, next)), P.Readable(Some(a)), retry, ident)
    {
      if P.Decodes(a, ident) && r.lo <= a.addr <= r.hi {
        var slot := a.addr % MAX_NUMIP;
        if !respOk[slot] {
          respOk[slot] := true;
          respIp[slot] := a.addr;
          respNum := respNum + 1;
        }
      }
    }

    /** The half that probes the next address. */
    method ProbeNext(r: R.Range, now: int, retry: int, seqno: nat, next: nat) returns (seqno': nat, next': nat)
      requires Valid() && R.WithinBlock(r) && R.Inside(r, next)
      modifies this`outgoing, tries, sentAt
      ensures Valid() && R.Inside(r, next')
      ensures FindView(seqno', next') == R.Step(r, old(FindView(seqno, next)), P.Writable(now), retry, ident)
      ensures outgoing == old(outgoing) + R.Probe(r, old(FindView(seqno, next)), P.Writable(now), retry)
    {
      seqno', next' := seqno, next;
      var slot := next % MAX_NUMIP;
      if !respOk[slot] && tries[slot] < retry && now - sentAt[slot] >= 1 {
        tries[slot] := tries[slot] + 1;
        seqno' := (seqno' + 1) % 0x10000;
        outgoing := outgoing + [P.Datagram(next, seqno')];
        sentAt[slot] := now;
      }
      next' := next' + 1;
      if next' > r.hi {
        next' := r.lo;
      }
    }

    /** The loop body of Find. */
    method FindTurn(r: R.Range, e: P.Event, retry: int, seqno: nat, next: nat) returns (seqno': nat, next': nat)
      requires Valid() && R.WithinBlock(r) && R.Inside(r, next)
      modifies this`respNum, this`outgoing, tries, sentAt, respOk, respIp
      ensures Valid() && R.Inside(r, next')
      ensures FindView(seqno', next') == R.Step(r, old(FindView(seqno, next)), e, retry, ident)
      ensures outgoing == old(outgoing) + R.Probe(r, old(FindView(seqno, next)), e, retry)
    {
      seqno', next' := seqno, next;
      match e
      case Readable(Some(a)) =>
        TakeAnswer(r, a, retry, seqno, next);
      case Writable(now) =>
        seqno', next' := ProbeNext(r, now, retry, seqno, next);
      case _ =>
    }

    /** The loop of Find. */
    method FindLoop(r: R.Range, events: seq<P.Event>, retry: int) returns (ghost seqno: nat, ghost next: nat)
      requires Valid() && R.WithinBlock(r) && reqNum == r.wanted && FindView(0, r.lo) == R.Start(r, respIp[..])
      modifies this`respNum, this`outgoing, tries, sentAt, respOk, respIp
      ensures Valid() && R.Inside(r, next)
      ensures FindView(seqno, next) == R.Run(r, R.Start(r, old(respIp[..])), events, retry, ident)
      ensures outgoing == old(outgoing) + R.Sends(r, R.Start(r, old(respIp[..])), events, retry, ident)
    {
      var s: nat, n: nat := 0, r.lo;
      var k := 0;
      ghost var start, sent, me := R.Start(r, respIp[..]), outgoing, ident;
      assert events[..0] == [] && sent + R.Sends(r, start, [], retry, me) == sent;
      hide *;
      while respNum < reqNum && k < |events|
        invariant Valid() && k <= |events| && R.Inside(r, n) && ident == me
        invariant FindView(s, n) == R.Run(r, start, events[..k], retry, me)
        invariant outgoing == sent + R.Sends(r, start, events[..k], retry, me)
        decreases |events| - k
      {
        FindNext(r, events, k, retry, start, s, n, sent);
        s, n := FindTurn(r, events[k], retry, s, n);
        k := k + 1;
      }
      assert k == |events| ==> events[..k] == events;
      if respNum >= reqNum {
        R.RunStopped(r, start, events, k, retry, me);
        R.SendsStopped(r, start, events, k, retry, me);
      }
      seqno, next := s, n;
    }

    /** What one more turn adds to a run that goes on. */
    lemma FindNext(r: R.Range, events: seq<P.Event>, k: nat, retry: int, start: R.Scan, s: nat, n: nat, sent: seq<P.Datagram>)
      requires Valid() && k < |events| && R.WithinBlock(r) && start.Shaped(r) && R.Inside(r, n) && respNum < r.wanted
      requires FindView(s, n) == R.Run(r, start, events[..k], retry, ident)
      requires outgoing == sent + R.Sends(r, start, events[..k], retry, ident)
      ensures R.Run(r, start, events[..k + 1], retry, ident) == R.Step(r, FindView(s, n), events[k], retry, ident)
      ensures sent + R.Sends(r, start, events[..k + 1], retry, ident) == outgoing + R.Probe(r, FindView(s, n), events[k], retry)
    {
      assert FindView(s, n).respNum == respNum;
      hide *;
      assert events[..k + 1] == events[..k] + [events[k]];
      R.OneMore(r, start, events[..k], events[k], retry, ident);
      Associate(sent, R.Sends(r, start, events[..k], retry, ident), R.Probe(r, FindView(s, n), events[k], retry));
    }

    /** Find over the events of a run. */
    method Find(lo: nat, hi: nat, events: seq<P.Event>, retry: int) returns (answered: nat, ghost seqno: nat, ghost next: nat)
      requires Valid() && lo <= R.INADDR_NONE && hi <= R.INADDR_NONE
      modifies this, tries, sentAt, respOk, respIp
      ensures Valid() && ident == old(ident)
      ensures answered == match R.Normalise(lo, hi)
        case None => 0
        case Some(r) => R.Run(r, R.Start(r, old(respIp[..])), events, retry, ident).respNum
      ensures R.Normalise(lo, hi).Some? ==>
        var r := R.Normalise(lo, hi).value;
        FindView(seqno, next) == R.Run(r, R.Start(r, old(respIp[..])), events, retry, ident) && reqNum == r.wanted
      ensures outgoing == old(outgoing) + match R.Normalise(lo, hi)
        case None => []
        case Some(r) => R.Sends(r, R.Start(r, old(respIp[..])), events, retry, ident)
    {
      respNum, seqno, next := 0, 0, 0;
      Reset(MAX_NUMIP);
      var range := R.Normalise(lo, hi);
      if range == None {
        reqNum := 0;
        return 0, 0, 0;
      }
      var r := range.value;
      reqNum := r.wanted;
      assert FindView(0, r.lo) == R.Start(r, respIp[..]);
      hide R.Normalise, R.Start, R.Run, R.WithinBlock;
      seqno, next := FindLoop(r, events, retry);
      answered := respNum;
    }
  }
}
