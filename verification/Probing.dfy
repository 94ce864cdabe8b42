/** CIcmpMgr4::Ping as a state machine over socket events, and what its runs keep. */
module Probing {
  import opened Wrappers
  import opened Splitting

  const MIN_ICMP := 8

  /** A received datagram: the sender, its size, the IP header length, and the echo fields. */
  datatype Reply = Reply(addr: nat, bytes: nat, headerLen: nat, ident: nat, seqno: nat)

  /** What select reports in one turn of the loop; a failed recvfrom is Readable(None). */
  datatype Event = Readable(reply: Option<Reply>) | Writable(now: int) | Idle

  /** DecodeResp for a ping: long enough, and ours or without an identifier. */
  predicate Decodes(r: Reply, ident: nat) {
    r.bytes >= r.headerLen + MIN_ICMP && (r.ident == 0 || r.ident == ident)
  }

  /** The part of the manager that the loop changes, for the targets in use. */
  datatype Table = Table(
    ips: seq<nat>, seqs: seq<nat>, tries: seq<nat>, sentAt: seq<int>, ok: seq<bool>,
    respNum: nat, seqno: nat, next: nat)
  {
    predicate Shaped() {
      && |ips| == |seqs| == |tries| == |sentAt| == |ok|
      && next < |ips|
    }
  }

  /** The first target with this address and this latest sequence number. */
  function Hash(ips: seq<nat>, seqs: seq<nat>, addr: nat, seqno: nat, from: nat): (i: Option<nat>)
    requires |ips| == |seqs| && from <= |ips|
    ensures i.Some? ==> from <= i.value < |ips| && ips[i.value] == addr && seqs[i.value] == seqno
    ensures i.Some? ==> forall j :: from <= j < i.value ==> !(ips[j] == addr && seqs[j] == seqno)
    ensures i.None? ==> forall j :: from <= j < |ips| ==> !(ips[j] == addr && seqs[j] == seqno)
    decreases |ips| - from
  {
    if from == |ips| then None
    else if ips[from] == addr && seqs[from] == seqno then Some(from)
    else Hash(ips, seqs, addr, seqno, from + 1)
  }

  /** A probe sent, or a target credited with an answer. */
  datatype Action = Probe(target: nat, seqno: nat) | Credit(target: nat, seqno: nat)

  /** What one turn does to the outside. */
  function Emit(t: Table, e: Event, retry: int, ident: nat): Option<Action>
    requires t.Shaped()
  {
    match e
    case Readable(Some(r)) =>
      if Decodes(r, ident) then
        var i := Hash(t.ips, t.seqs, r.addr, r.seqno, 0);
        if i.Some? && !t.ok[i.value] then Some(Credit(i.value, r.seqno)) else None
      else None
    case Writable(now) =>
      if !t.ok[t.next] && t.tries[t.next] < retry && now - t.sentAt[t.next] >= 1 then
        Some(Probe(t.next, (t.seqno + 1) % 0x10000))
      else None
    case _ => None
  }

  function Credited(t: Table, i: nat): (t': Table)
    requires t.Shaped() && i < |t.ips|
    ensures t'.Shaped()
  {
    t.(ok := t.ok[i := true], respNum := t.respNum + 1)
  }

  function Probed(t: Table, i: nat, s: nat, now: int): (t': Table)
    requires t.Shaped() && i < |t.ips|
    ensures t'.Shaped()
  {
    t.(tries := t.tries[i := t.tries[i] + 1], seqno := s, seqs := t.seqs[i := s], sentAt := t.sentAt[i := now])
  }

  /** One turn of the loop. */
  function Step(t: Table, e: Event, retry: int, ident: nat): (t': Table)
    requires t.Shaped()
    ensures t'.Shaped() && t'.ips == t.ips
  {
    var t1 := match Emit(t, e, retry, ident)
      case None => t
      case Some(Credit(i, s)) => Credited(t, i)
      case Some(Probe(i, s)) => Probed(t, i, s, e.now);
    if e.Writable? then t1.(next := (t.next + 1) % |t.ips|) else t1
  }

  /** The table when Ping starts; the sequence numbers are those of earlier calls. */
  function Start(ips: seq<nat>, seqs: seq<nat>): (t: Table)
    requires 0 < |ips| == |seqs|
    ensures t.Shaped()
  {
    Table(ips, seqs, Zeros(|ips|), Zeros(|ips|), seq(|ips|, _ => false), 0, 0, 0)
  }

  function Zeros(n: nat): (z: seq<nat>)
    ensures |z| == n && forall k :: 0 <= k < n ==> z[k] == 0
  {
    seq(n, _ => 0)
  }

  function Run(t: Table, events: seq<Event>, retry: int, ident: nat): (t': Table)
    requires t.Shaped()
    ensures t'.Shaped() && t'.ips == t.ips
  {
    if events == [] then t else Step(Run(t, Front(events), retry, ident), Last(events), retry, ident)
  }

  function History(t: Table, events: seq<Event>, retry: int, ident: nat): seq<Action>
    requires t.Shaped()
  {
    if events == [] then []
    else
      var before := Run(t, Front(events), retry, ident);
      History(t, Front(events), retry, ident) +
      match Emit(before, Last(events), retry, ident)
      case None => []
      case Some(a) => [a]
  }

  /** A datagram handed to SendTo: its destination and sequence number. */
  datatype Datagram = Datagram(addr: nat, seqno: nat)

  /** The datagrams of a history. */
  function Sends(ips: seq<nat>, log: seq<Action>): seq<Datagram> {
    if log == [] then [] else Sends(ips, Front(log)) + SendOf(ips, Last(log))
  }

  function SendOf(ips: seq<nat>, a: Action): seq<Datagram> {
    match a
    case Probe(i, s) => if i < |ips| then [Datagram(ips[i], s)] else []
    case Credit(_, _) => []
  }

  function EmitSends(ips: seq<nat>, a: Option<Action>): seq<Datagram> {
    match a
    case None => []
    case Some(x) => SendOf(ips, x)
  }

  lemma SendsMore(t0: Table, events: seq<Event>, e: Event, retry: int, ident: nat)
    requires t0.Shaped()
    ensures Sends(t0.ips, History(t0, events + [e], retry, ident)) ==
            Sends(t0.ips, History(t0, events, retry, ident)) + EmitSends(t0.ips, Emit(Run(t0, events, retry, ident), e, retry, ident))
  {
    var log := History(t0, events, retry, ident);
    OneMore(t0, events, e, retry, ident);
    hide History, Run;
    match Emit(Run(t0, events, retry, ident), e, retry, ident)
    case None => assert log + [] == log;
    case Some(x) => assert Front(log + [x]) == log;
  }

  // ------------------------------------------------------- turn by turn

  function Writables(events: seq<Event>): nat {
    if events == [] then 0 else Writables(Front(events)) + if Last(events).Writable? then 1 else 0
  }

  /** The cursor goes round the targets, one further with every writable turn. */
  lemma {:induction false} CursorIs(ips: seq<nat>, seqs: seq<nat>, events: seq<Event>, retry: int, ident: nat)
    requires 0 < |ips| == |seqs|
    ensures Run(Start(ips, seqs), events, retry, ident).next == Writables(events) % |ips|
  {
    if events != [] {
      CursorIs(ips, seqs, Front(events), retry, ident);
      NextRound(Writables(Front(events)), |ips|);
      hide Emit;
    }
  }

  lemma NextRound(w: nat, n: nat)
    requires n > 0
    ensures (w % n + 1) % n == (w + 1) % n
  {
    var q, r := w / n, w % n;
    assert w == n * q + r;
    if r + 1 == n {
      Distribute(n, q);
      Multiple(n, q + 1, 0);
      Multiple(n, 1, 0);
    } else {
      Multiple(n, q, r + 1);
      SmallMod(r + 1, n);
    }
  }

  lemma Distribute(n: int, q: int)
    ensures n * (q + 1) == n * q + n
  {
  }

  lemma Multiple(n: nat, q: int, r: nat)
    requires r < n
    ensures (n * q + r) % n == r
  {
    var x := n * q + r;
    var d := x / n - q;
    assert n * d == r - x % n;
    if d >= 1 { Larger(n, d, 1); }
    if d <= -1 { Larger(n, -1, d); }
  }

  lemma Larger(n: nat, a: int, b: int)
    requires a >= b
    ensures n * a >= n * b
  {
  }

  /** The target has not answered, has tries left and was last sent to a second ago or more. */
  predicate Due(t: Table, i: nat, now: int, retry: int)
    requires t.Shaped() && i < |t.ips|
  {
    !t.ok[i] && t.tries[i] < retry && now - t.sentAt[i] >= 1
  }

  /** The tables after a probe of target i, but for the cursor. */
  predicate ProbedAt(t: Table, t': Table, i: nat, now: int)
    requires t.Shaped() && i < |t.ips|
  {
    && t'.tries == t.tries[i := t.tries[i] + 1] && t'.sentAt == t.sentAt[i := now]
    && t'.seqno == (t.seqno + 1) % 0x10000 && t'.seqs == t.seqs[i := (t.seqno + 1) % 0x10000]
    && t'.ok == t.ok && t'.respNum == t.respNum
  }

  /** The same tables, but for the cursor. */
  predicate Resting(t: Table, t': Table) {
    && t'.tries == t.tries && t'.sentAt == t.sentAt && t'.seqno == t.seqno && t'.seqs == t.seqs
    && t'.ok == t.ok && t'.respNum == t.respNum
  }

  /** What a writable turn does in any run: it probes the target at the cursor exactly if
      that has not answered, has tries left and was last sent to a second ago or more. */
  lemma WritableTurn(ips: seq<nat>, seqs: seq<nat>, events: seq<Event>, now: int, retry: int, ident: nat)
    requires 0 < |ips| == |seqs|
    ensures var t0 := Start(ips, seqs);
            var t, more, i := Run(t0, events, retry, ident), events + [Writable(now)], Writables(events) % |ips|;
            var due := Due(t, i, now, retry);
            && History(t0, more, retry, ident) ==
                 History(t0, events, retry, ident) + (if due then [Probe(i, (t.seqno + 1) % 0x10000)] else [])
            && var t' := Run(t0, more, retry, ident);
               if due then ProbedAt(t, t', i, now) else Resting(t, t')
  {
    hide *;
    CursorIs(ips, seqs, events, retry, ident);
    TurnAt(ips, seqs, events, now, retry, ident, Writables(events) % |ips|);
  }

  /** The same with the cursor given. */
  lemma TurnAt(ips: seq<nat>, seqs: seq<nat>, events: seq<Event>, now: int, retry: int, ident: nat, i: nat)
    requires 0 < |ips| == |seqs| && i < |ips| && Run(Start(ips, seqs), events, retry, ident).next == i
    ensures var t0 := Start(ips, seqs);
            var t, more := Run(t0, events, retry, ident), events + [Writable(now)];
            var due := Due(t, i, now, retry);
            && History(t0, more, retry, ident) ==
                 History(t0, events, retry, ident) + (if due then [Probe(i, (t.seqno + 1) % 0x10000)] else [])
            && var t' := Run(t0, more, retry, ident);
               if due then ProbedAt(t, t', i, now) else Resting(t, t')
  {
    hide *;
    var t0 := Start(ips, seqs);
    OneMore(t0, events, Writable(now), retry, ident);
    WritableStep(Run(t0, events, retry, ident), now, retry, ident);
    assert History(t0, events, retry, ident) + [] == History(t0, events, retry, ident);
  }

  lemma StartIs(ips: seq<nat>, seqs: seq<nat>)
    requires 0 < |ips| == |seqs|
    ensures Start(ips, seqs).ips == ips
  {
  }

  lemma CursorSmall(ips: seq<nat>, seqs: seq<nat>, events: seq<Event>, retry: int, ident: nat)
    requires 0 < |ips| == |seqs| && Writables(events) < |ips|
    ensures Run(Start(ips, seqs), events, retry, ident).next == Writables(events)
  {
    hide *;
    CursorIs(ips, seqs, events, retry, ident);
    SmallMod(Writables(events), |ips|);
  }

  lemma WritableStep(t: Table, now: int, retry: int, ident: nat)
    requires t.Shaped()
    ensures var t', i := Step(t, Writable(now), retry, ident), t.next;
            if Due(t, i, now, retry) then
              Emit(t, Writable(now), retry, ident) == Some(Probe(i, (t.seqno + 1) % 0x10000)) && ProbedAt(t, t', i, now)
            else Emit(t, Writable(now), retry, ident) == None && Resting(t, t')
  {
  }

  lemma ReplyStep(t: Table, r: Reply, retry: int, ident: nat, i: nat)
    requires t.Shaped() && i < |t.ips| && t.ips[i] == r.addr && t.seqs[i] == r.seqno
    requires forall j :: 0 <= j < i ==> t.ips[j] != r.addr || t.seqs[j] != r.seqno
    ensures var e := Readable(Some(r));
            if r.bytes >= r.headerLen + 8 && (r.ident == 0 || r.ident == ident) && !t.ok[i] then
              && Emit(t, e, retry, ident) == Some(Credit(i, r.seqno))
              && Step(t, e, retry, ident).ok == t.ok[i := true] && Step(t, e, retry, ident).respNum == t.respNum + 1
            else Emit(t, e, retry, ident) == None && Step(t, e, retry, ident) == t
  {
    assert Hash(t.ips, t.seqs, r.addr, r.seqno, 0) == Some(i);
    hide Hash;
  }

  lemma StrayStep(t: Table, r: Reply, retry: int, ident: nat)
    requires t.Shaped()
    requires forall j :: 0 <= j < |t.ips| ==> t.ips[j] != r.addr || t.seqs[j] != r.seqno
    ensures Emit(t, Readable(Some(r)), retry, ident) == None && Step(t, Readable(Some(r)), retry, ident) == t
  {
    assert Hash(t.ips, t.seqs, r.addr, r.seqno, 0) == None;
    hide Hash;
  }

  lemma OneMore(t0: Table, events: seq<Event>, e: Event, retry: int, ident: nat)
    requires t0.Shaped()
    ensures var t, more := Run(t0, events, retry, ident), events + [e];
            && Run(t0, more, retry, ident) == Step(t, e, retry, ident)
            && History(t0, more, retry, ident) ==
                 History(t0, events, retry, ident) + match Emit(t, e, retry, ident) case None => [] case Some(a) => [a]
  {
    assert Front(events + [e]) == events && Last(events + [e]) == e;
    RunStep(t0, events + [e], retry, ident);
    hide Run, History, Step, Emit;
  }

  /** Run and History, unfolded once. */
  lemma RunStep(t0: Table, events: seq<Event>, retry: int, ident: nat)
    requires t0.Shaped() && events != []
    ensures var t := Run(t0, Front(events), retry, ident);
            && Run(t0, events, retry, ident) == Step(t, Last(events), retry, ident)
            && History(t0, events, retry, ident) ==
                 History(t0, Front(events), retry, ident) +
                 match Emit(t, Last(events), retry, ident) case None => [] case Some(a) => [a]
  {
    hide Step, Emit;
  }

  /** What a datagram does in any run: it credits the first target with its address and
      number exactly if it is long enough, ours, and that target has not answered. */
  lemma ReplyTurn(ips: seq<nat>, seqs: seq<nat>, events: seq<Event>, r: Reply, retry: int, ident: nat, i: nat)
    requires 0 < |ips| == |seqs| && i < |ips|
    requires var t := Run(Start(ips, seqs), events, retry, ident);
             && ips[i] == r.addr && t.seqs[i] == r.seqno
             && forall j :: 0 <= j < i ==> ips[j] != r.addr || t.seqs[j] != r.seqno
    ensures var t0 := Start(ips, seqs);
            var t, more := Run(t0, events, retry, ident), events + [Readable(Some(r))];
            var t', valid := Run(t0, more, retry, ident), r.bytes >= r.headerLen + 8 && (r.ident == 0 || r.ident == ident);
            if valid && !t.ok[i] then
              && History(t0, more, retry, ident) == History(t0, events, retry, ident) + [Credit(i, r.seqno)]
              && t'.ok == t.ok[i := true] && t'.respNum == t.respNum + 1
            else History(t0, more, retry, ident) == History(t0, events, retry, ident) && t' == t
  {
    var t0 := Start(ips, seqs);
    OneMore(t0, events, Readable(Some(r)), retry, ident);
    assert Run(t0, events, retry, ident).ips == ips;
    ReplyStep(Run(t0, events, retry, ident), r, retry, ident, i);
    hide *;
    assert History(t0, events, retry, ident) + [] == History(t0, events, retry, ident);
  }

  /** A datagram that no target's address and number match does nothing. */
  lemma StrayTurn(ips: seq<nat>, seqs: seq<nat>, events: seq<Event>, r: Reply, retry: int, ident: nat)
    requires 0 < |ips| == |seqs|
    requires var t := Run(Start(ips, seqs), events, retry, ident);
             forall j :: 0 <= j < |ips| ==> ips[j] != r.addr || t.seqs[j] != r.seqno
    ensures var t0, more := Start(ips, seqs), events + [Readable(Some(r))];
            && History(t0, more, retry, ident) == History(t0, events, retry, ident)
            && Run(t0, more, retry, ident) == Run(t0, events, retry, ident)
  {
    var t0 := Start(ips, seqs);
    OneMore(t0, events, Readable(Some(r)), retry, ident);
    assert Run(t0, events, retry, ident).ips == ips;
    StrayStep(Run(t0, events, retry, ident), r, retry, ident);
    hide *;
    assert History(t0, events, retry, ident) + [] == History(t0, events, retry, ident);
  }

  /** Writable turns at the given times. */
  function Turns(times: seq<int>): (events: seq<Event>)
    ensures |events| == |times|
  {
    if times == [] then [] else Turns(Front(times)) + [Writable(Last(times))]
  }

  /** The first probes, in the order of the targets. */
  function FirstProbes(n: nat): (log: seq<Action>)
    ensures |log| == n
  {
    if n == 0 then [] else FirstProbes(n - 1) + [Probe(n - 1, n % 0x10000)]
  }

  /** The first n targets have been probed once, in order, and the others not yet. */
  ghost predicate Swept(t: Table, log: seq<Action>, n: nat)
    requires t.Shaped()
  {
    log == FirstProbes(n) && t.seqno == n % 0x10000 && Untouched(t, n)
  }

  /** As long as nothing is heard, the turns probe one target after the other, each once
      in a round. */
  lemma {:induction false} Sweep(ips: seq<nat>, seqs: seq<nat>, times: seq<int>, retry: int, ident: nat)
    requires 0 < |ips| == |seqs| && |times| <= |ips| && retry >= 1
    requires forall k :: 0 <= k < |times| ==> times[k] >= 1
    ensures var t0 := Start(ips, seqs);
            Swept(Run(t0, Turns(times), retry, ident), History(t0, Turns(times), retry, ident), |times|)
    ensures Writables(Turns(times)) == |times|
  {
    if times != [] {
      var n, last := |times| - 1, times[|times| - 1];
      assert last >= 1 && |Front(times)| == n && forall k :: 0 <= k < n ==> Front(times)[k] >= 1;
      Sweep(ips, seqs, Front(times), retry, ident);
      hide *;
      TurnsStep(times);
      SweepStep(ips, seqs, Turns(Front(times)), last, retry, ident, n);
    }
  }

  lemma SweepStep(ips: seq<nat>, seqs: seq<nat>, events: seq<Event>, now: int, retry: int, ident: nat, n: nat)
    requires n < |ips| == |seqs| && Writables(events) == n && now >= 1 && retry >= 1
    requires Swept(Run(Start(ips, seqs), events, retry, ident), History(Start(ips, seqs), events, retry, ident), n)
    ensures var t0, more := Start(ips, seqs), events + [Writable(now)];
            Swept(Run(t0, more, retry, ident), History(t0, more, retry, ident), n + 1)
  {
    hide *;
    StartIs(ips, seqs);
    CursorSmall(ips, seqs, events, retry, ident);
    TurnAt(ips, seqs, events, now, retry, ident, n);
    var t0, more := Start(ips, seqs), events + [Writable(now)];
    SweptMore(Run(t0, events, retry, ident), Run(t0, more, retry, ident),
              History(t0, events, retry, ident), History(t0, more, retry, ident), n, now, retry);
  }

  lemma SweptMore(t: Table, t': Table, log: seq<Action>, log': seq<Action>, n: nat, now: int, retry: int)
    requires t.Shaped() && t'.Shaped() && |t'.ips| == |t.ips| && n < |t.ips| && now >= 1 && retry >= 1
    requires Swept(t, log, n)
    requires Due(t, n, now, retry) ==> log' == log + [Probe(n, (t.seqno + 1) % 0x10000)] && ProbedAt(t, t', n, now)
    ensures Swept(t', log', n + 1)
  {
    UntouchedStep(t, t', n, now);
    NextNumber(n);
    FirstProbesStep(n + 1);
    hide FirstProbes, Untouched;
  }

  lemma FirstProbesStep(n: nat)
    requires n > 0
    ensures FirstProbes(n) == FirstProbes(n - 1) + [Probe(n - 1, n % 0x10000)]
  {
  }

  /** The targets from the k-th on have not been probed or heard. */
  ghost predicate Untouched(t: Table, k: nat)
    requires t.Shaped()
  {
    forall i :: k <= i < |t.ips| ==> t.tries[i] == 0 && t.sentAt[i] == 0 && !t.ok[i]
  }

  lemma UntouchedStep(t: Table, t': Table, n: nat, now: int)
    requires t.Shaped() && t'.Shaped() && |t'.ips| == |t.ips| && n < |t.ips| && Untouched(t, n)
    ensures t.tries[n] == 0 && t.sentAt[n] == 0 && !t.ok[n]
    ensures t'.tries == t.tries[n := t.tries[n] + 1] && t'.sentAt == t.sentAt[n := now] && t'.ok == t.ok ==> Untouched(t', n + 1)
  {
  }

  lemma TurnsStep(times: seq<int>)
    requires times != []
    ensures Turns(times) == Turns(Front(times)) + [Writable(times[|times| - 1])]
    ensures Writables(Turns(times)) == Writables(Turns(Front(times))) + 1
  {
    assert Front(Turns(times)) == Turns(Front(times));
  }

  lemma SmallMod(n: nat, m: nat)
    requires n < m
    ensures n % m == n
  {
  }

  // ------------------------------------------------------------ accounting

  function Answered(ok: seq<bool>): nat {
    if ok == [] then 0 else Answered(Front(ok)) + if Last(ok) then 1 else 0
  }

  function Total(tries: seq<nat>): nat {
    if tries == [] then 0 else Total(Front(tries)) + Last(tries)
  }

  function ProbesOf(log: seq<Action>, i: nat): nat {
    if log == [] then 0 else ProbesOf(Front(log), i) + if Last(log).Probe? && Last(log).target == i then 1 else 0
  }

  function CreditsOf(log: seq<Action>, i: nat): nat {
    if log == [] then 0 else CreditsOf(Front(log), i) + if Last(log).Credit? && Last(log).target == i then 1 else 0
  }

  lemma {:induction false} AnsweredSet(ok: seq<bool>, i: nat)
    requires i < |ok| && !ok[i]
    ensures Answered(ok[i := true]) == Answered(ok) + 1
  {
    if i == |ok| - 1 {
      assert Front(ok[i := true]) == Front(ok);
    } else {
      assert Front(ok[i := true]) == Front(ok)[i := true];
      AnsweredSet(Front(ok), i);
    }
  }

  lemma {:induction false} TotalBump(tries: seq<nat>, i: nat)
    requires i < |tries|
    ensures Total(tries[i := tries[i] + 1]) == Total(tries) + 1
  {
    if i == |tries| - 1 {
      assert Front(tries[i := tries[i] + 1]) == Front(tries);
    } else {
      assert Front(tries[i := tries[i] + 1]) == Front(tries)[i := tries[i] + 1];
      TotalBump(Front(tries), i);
    }
  }

  lemma {:induction false} TotalBound(tries: seq<nat>, most: nat)
    requires forall k :: 0 <= k < |tries| ==> tries[k] <= most
    ensures Total(tries) <= |tries| * most
  {
    if tries != [] {
      TotalBound(Front(tries), most);
    }
  }

  lemma {:induction false} NothingYet(n: nat)
    ensures Answered(seq(n, _ => false)) == 0 && Total(Zeros(n)) == 0
  {
    if n > 0 {
      NothingYet(n - 1);
      assert Front(seq(n, _ => false)) == seq(n - 1, _ => false);
      assert Front(Zeros(n)) == Zeros(n - 1);
    }
  }

  // ------------------------------------------------------------ invariants

  /** What every reachable state keeps, given everything done so far. */
  ghost predicate Consistent(t: Table, log: seq<Action>, retry: int)
    requires t.Shaped()
  {
    && t.respNum == Answered(t.ok)
    && t.seqno == Total(t.tries) % 0x10000
    && (forall i :: 0 <= i < |t.ips| ==> Booked(t, log, retry, i))
    && Ordered(t, log)
  }

  /** A target's tries are the probes it was sent, and it was credited once if it answered. */
  ghost predicate Booked(t: Table, log: seq<Action>, retry: int, i: nat)
    requires t.Shaped() && i < |t.ips|
  {
    && t.tries[i] == ProbesOf(log, i) && (t.tries[i] == 0 || t.tries[i] <= retry)
    && CreditsOf(log, i) == if t.ok[i] then 1 else 0
  }

  /** No target is probed after it was credited. */
  ghost predicate Ordered(t: Table, log: seq<Action>)
    requires t.Shaped()
  {
    && (forall a, b :: 0 <= a < b < |log| && log[a].Credit? && log[b].Probe? ==> log[a].target != log[b].target)
    && (forall a :: 0 <= a < |log| ==> log[a].target < |t.ips| && (log[a].Credit? ==> t.ok[log[a].target]))
  }

  /** Every run of Ping, from any earlier sequence numbers. */
  lemma {:induction false} RunConsistent(ips: seq<nat>, seqs: seq<nat>, events: seq<Event>, retry: int, ident: nat)
    requires 0 < |ips| == |seqs|
    ensures Consistent(Run(Start(ips, seqs), events, retry, ident), History(Start(ips, seqs), events, retry, ident), retry)
  {
    var t0 := Start(ips, seqs);
    if events == [] {
      NothingYet(|ips|);
    } else {
      RunConsistent(ips, seqs, Front(events), retry, ident);
      StepConsistent(Run(t0, Front(events), retry, ident), History(t0, Front(events), retry, ident), Last(events), retry, ident);
    }
  }

  lemma StepConsistent(t: Table, log: seq<Action>, e: Event, retry: int, ident: nat)
    requires t.Shaped() && Consistent(t, log, retry)
    ensures Consistent(Step(t, e, retry, ident),
                       log + match Emit(t, e, retry, ident) case None => [] case Some(a) => [a], retry)
  {
    hide Consistent;
    match Emit(t, e, retry, ident)
    case None =>
      assert log + [] == log;
      CursorIrrelevant(t, log, retry);
    case Some(Credit(i, s)) =>
      CreditConsistent(t, log, i, s, retry);
      CursorIrrelevant(Credited(t, i), log + [Credit(i, s)], retry);
    case Some(Probe(i, s)) =>
      ProbeConsistent(t, log, i, s, e.now, retry);
      CursorIrrelevant(Probed(t, i, s, e.now), log + [Probe(i, s)], retry);
  }

  lemma CursorIrrelevant(t: Table, log: seq<Action>, retry: int)
    requires t.Shaped() && Consistent(t, log, retry)
    ensures Consistent(t.(next := (t.next + 1) % |t.ips|), log, retry)
  {
    var t' := t.(next := (t.next + 1) % |t.ips|);
    forall i | 0 <= i < |t.ips| ensures Booked(t', log, retry, i) {
      assert Booked(t, log, retry, i);
    }
  }

  lemma CreditConsistent(t: Table, log: seq<Action>, i: nat, s: nat, retry: int)
    requires t.Shaped() && Consistent(t, log, retry) && i < |t.ips| && !t.ok[i]
    ensures Consistent(Credited(t, i), log + [Credit(i, s)], retry)
  {
    assert Front(log + [Credit(i, s)]) == log;
    AnsweredSet(t.ok, i);
    forall j | 0 <= j < |t.ips| ensures Booked(Credited(t, i), log + [Credit(i, s)], retry, j) {
      assert Booked(t, log, retry, j);
    }
  }

  lemma ProbeConsistent(t: Table, log: seq<Action>, i: nat, s: nat, now: int, retry: int)
    requires t.Shaped() && Consistent(t, log, retry) && i < |t.ips|
    requires !t.ok[i] && t.tries[i] < retry && s == (t.seqno + 1) % 0x10000
    ensures Consistent(Probed(t, i, s, now), log + [Probe(i, s)], retry)
  {
    TotalBump(t.tries, i);
    NextNumber(Total(t.tries));
    ProbeOrdered(t, log, i, s, now);
    hide Ordered, Total, Answered, Booked;
    forall j | 0 <= j < |t.ips| ensures Booked(Probed(t, i, s, now), log + [Probe(i, s)], retry, j) {
      ProbeBooked(t, log, i, s, now, retry, j);
    }
  }

  lemma NextNumber(total: nat)
    ensures (total % 0x10000 + 1) % 0x10000 == (total + 1) % 0x10000
  {
  }

  lemma ProbeBooked(t: Table, log: seq<Action>, i: nat, s: nat, now: int, retry: int, j: nat)
    requires t.Shaped() && i < |t.ips| && j < |t.ips| && Booked(t, log, retry, j)
    requires !t.ok[i] && t.tries[i] < retry
    ensures Booked(Probed(t, i, s, now), log + [Probe(i, s)], retry, j)
  {
    assert Front(log + [Probe(i, s)]) == log;
  }

  lemma ProbeOrdered(t: Table, log: seq<Action>, i: nat, s: nat, now: int)
    requires t.Shaped() && Ordered(t, log) && i < |t.ips| && !t.ok[i]
    ensures Ordered(Probed(t, i, s, now), log + [Probe(i, s)])
  {
  }

  /** On a manager that has sent nothing before, the sequence numbers in the table are
      zero or pairwise different, and none is ahead of the last one used. */
  ghost predicate Distinct(t: Table)
    requires t.Shaped()
  {
    && t.seqno == Total(t.tries)
    && (forall i :: 0 <= i < |t.ips| ==> t.seqs[i] <= t.seqno)
    && (forall i, j :: 0 <= i < j < |t.ips| && t.seqs[i] == t.seqs[j] ==> t.seqs[i] == 0)
  }

  /** With at most 255 tries for each of at most 256 targets, a non-zero sequence number
      belongs to one target at most, even when addresses repeat. */
  lemma {:induction false} RunDistinct(ips: seq<nat>, events: seq<Event>, retry: int, ident: nat)
    requires 0 < |ips| <= 256 && retry <= 255
    ensures Distinct(Run(Start(ips, Zeros(|ips|)), events, retry, ident))
  {
    var t0 := Start(ips, Zeros(|ips|));
    if events == [] {
      NothingYet(|ips|);
    } else {
      RunDistinct(ips, Front(events), retry, ident);
      RunConsistent(ips, Zeros(|ips|), Front(events), retry, ident);
      var t := Run(t0, Front(events), retry, ident);
      TriesBounded(t, History(t0, Front(events), retry, ident), retry);
      hide Consistent;
      StepDistinct(t, Last(events), retry, ident);
    }
  }

  lemma StepDistinct(t: Table, e: Event, retry: int, ident: nat)
    requires t.Shaped() && Distinct(t) && |t.ips| <= 256 && retry <= 255
    requires forall i :: 0 <= i < |t.ips| ==> t.tries[i] == 0 || t.tries[i] <= retry
    ensures Distinct(Step(t, e, retry, ident))
  {
    var a := Emit(t, e, retry, ident);
    if a.Some? && a.value.Probe? {
      TriesBelow(t, retry);
      TotalBump(t.tries, t.next);
      assert a.value == Probe(t.next, t.seqno + 1);
      assert Distinct(Probed(t, t.next, t.seqno + 1, e.now));
    }
  }

  /** While some target has tries left, the sequence number has not wrapped. */
  lemma TriesBelow(t: Table, retry: int)
    requires t.Shaped() && |t.ips| <= 256 && retry <= 255
    requires forall i :: 0 <= i < |t.ips| ==> t.tries[i] == 0 || t.tries[i] <= retry
    ensures Total(t.tries) < 0xFFFF
  {
    TotalBound(t.tries, 255);
  }

  lemma HashUnique(t: Table, addr: nat, s: nat, i: nat)
    requires t.Shaped() && Distinct(t) && s != 0 && i < |t.ips|
    requires t.ips[i] == addr && t.seqs[i] == s
    ensures Hash(t.ips, t.seqs, addr, s, 0) == Some(i)
  {
  }

  /** The table holds, for each target, its latest probe, or the number it started with
      if it was not probed. */
  ghost predicate Latest(t: Table, seqs: seq<nat>, log: seq<Action>)
    requires t.Shaped() && |seqs| == |t.ips|
  {
    forall i :: 0 <= i < |t.ips| ==> if ProbesOf(log, i) > 0 then Probe(i, t.seqs[i]) in log else t.seqs[i] == seqs[i]
  }

  /** A credit is paid for by a probe with its number, or redeems the number that the
      table held for the target from an earlier call. */
  ghost predicate Paid(c: Action, seqs: seq<nat>, log: seq<Action>) {
    c.Credit? && c.target < |seqs| ==>
      if ProbesOf(log, c.target) > 0 then Probe(c.target, c.seqno) in log else c.seqno == seqs[c.target]
  }

  ghost predicate AllPaid(seqs: seq<nat>, log: seq<Action>) {
    forall a :: 0 <= a < |log| ==> Paid(log[a], seqs, log[..a])
  }

  /** In every run, from any earlier sequence numbers, a target that was probed is credited
      only for a number it was probed with, and one that was not only for its stale number. */
  lemma {:induction false} CreditPaid(ips: seq<nat>, seqs: seq<nat>, events: seq<Event>, retry: int, ident: nat)
    requires 0 < |ips| == |seqs|
    ensures var t0 := Start(ips, seqs);
            var log := History(t0, events, retry, ident);
            Latest(Run(t0, events, retry, ident), seqs, log) && AllPaid(seqs, log)
  {
    var t0 := Start(ips, seqs);
    if events != [] {
      CreditPaid(ips, seqs, Front(events), retry, ident);
      var t, past := Run(t0, Front(events), retry, ident), History(t0, Front(events), retry, ident);
      assert History(t0, events, retry, ident) ==
        past + match Emit(t, Last(events), retry, ident) case None => [] case Some(a) => [a];
      hide Run, History, Latest, AllPaid;
      StepPaid(t, seqs, past, Last(events), retry, ident);
    }
  }

  lemma StepPaid(t: Table, seqs: seq<nat>, past: seq<Action>, e: Event, retry: int, ident: nat)
    requires t.Shaped() && |seqs| == |t.ips| && Latest(t, seqs, past) && AllPaid(seqs, past)
    ensures var log := past + match Emit(t, e, retry, ident) case None => [] case Some(a) => [a];
            Latest(Step(t, e, retry, ident), seqs, log) && AllPaid(seqs, log)
  {
    match Emit(t, e, retry, ident)
    case None =>
      assert past + [] == past;
    case Some(Credit(i, s)) =>
      LatestCredit(t, seqs, past, i, s);
      PaidSnoc(seqs, past, Credit(i, s));
    case Some(Probe(i, s)) =>
      LatestProbe(t, seqs, past, i, s, e.now);
      PaidSnoc(seqs, past, Probe(i, s));
  }

  lemma LatestCredit(t: Table, seqs: seq<nat>, past: seq<Action>, i: nat, s: nat)
    requires t.Shaped() && |seqs| == |t.ips| && Latest(t, seqs, past) && i < |t.ips|
    ensures Latest(Credited(t, i), seqs, past + [Credit(i, s)])
  {
    assert Front(past + [Credit(i, s)]) == past;
  }

  lemma LatestProbe(t: Table, seqs: seq<nat>, past: seq<Action>, i: nat, s: nat, now: int)
    requires t.Shaped() && |seqs| == |t.ips| && Latest(t, seqs, past) && i < |t.ips|
    ensures Latest(Probed(t, i, s, now), seqs, past + [Probe(i, s)])
  {
    assert Front(past + [Probe(i, s)]) == past;
  }

  lemma PaidSnoc(seqs: seq<nat>, past: seq<Action>, c: Action)
    requires AllPaid(seqs, past) && Paid(c, seqs, past)
    ensures AllPaid(seqs, past + [c])
  {
    var log := past + [c];
    hide Paid;
    forall a | 0 <= a < |log| ensures Paid(log[a], seqs, log[..a]) {
      if a < |past| {
        assert log[..a] == past[..a] && log[a] == past[a];
      } else {
        assert log[..a] == past;
      }
    }
  }

  /** All numbers sent are non-zero. */
  ghost predicate Numbered(log: seq<Action>) {
    forall a :: 0 <= a < |log| && log[a].Probe? ==> log[a].seqno != 0
  }

  lemma {:induction false} RunNumbered(ips: seq<nat>, events: seq<Event>, retry: int, ident: nat)
    requires 0 < |ips| <= 256 && retry <= 255
    ensures Numbered(History(Start(ips, Zeros(|ips|)), events, retry, ident))
  {
    var t0 := Start(ips, Zeros(|ips|));
    if events != [] {
      RunNumbered(ips, Front(events), retry, ident);
      RunDistinct(ips, Front(events), retry, ident);
      RunConsistent(ips, Zeros(|ips|), Front(events), retry, ident);
      var t, past := Run(t0, Front(events), retry, ident), History(t0, Front(events), retry, ident);
      TriesBounded(t, past, retry);
      assert History(t0, events, retry, ident) ==
        past + match Emit(t, Last(events), retry, ident) case None => [] case Some(a) => [a];
      hide *;
      TriesBelow(t, retry);
      StepNumbered(t, past, Last(events), retry, ident);
    }
  }

  lemma StepNumbered(t: Table, past: seq<Action>, e: Event, retry: int, ident: nat)
    requires t.Shaped() && Numbered(past) && Distinct(t) && Total(t.tries) < 0xFFFF
    ensures Numbered(past + match Emit(t, e, retry, ident) case None => [] case Some(a) => [a])
  {
  }

  lemma TriesBounded(t: Table, log: seq<Action>, retry: int)
    requires t.Shaped() && Consistent(t, log, retry)
    ensures forall i :: 0 <= i < |t.ips| ==> t.tries[i] == 0 || t.tries[i] <= retry
  {
    forall i | 0 <= i < |t.ips| ensures t.tries[i] == 0 || t.tries[i] <= retry {
      assert Booked(t, log, retry, i);
    }
  }

  /** A credit was preceded by a probe of its target with its number exactly if the
      number is not zero. */
  ghost predicate Earned(c: Action, log: seq<Action>) {
    c.Credit? ==> (Probe(c.target, c.seqno) in log <==> c.seqno != 0)
  }

  /** On a fresh manager with at most 256 targets and 255 tries, every credit with a
      non-zero number, and no other, is paid for by a probe. */
  lemma CreditEarned(ips: seq<nat>, events: seq<Event>, retry: int, ident: nat)
    requires 0 < |ips| <= 256 && retry <= 255
    ensures var log := History(Start(ips, Zeros(|ips|)), events, retry, ident);
            forall a :: 0 <= a < |log| ==> Earned(log[a], log[..a])
  {
    hide *;
    var log := History(Start(ips, Zeros(|ips|)), events, retry, ident);
    CreditPaid(ips, Zeros(|ips|), events, retry, ident);
    RunNumbered(ips, events, retry, ident);
    RunConsistent(ips, Zeros(|ips|), events, retry, ident);
    forall a | 0 <= a < |log| ensures Earned(log[a], log[..a]) {
      StartIs(ips, Zeros(|ips|));
      TargetInside(Run(Start(ips, Zeros(|ips|)), events, retry, ident), log, retry, a);
      EarnedAt(log, |ips|, a);
    }
  }

  lemma TargetInside(t: Table, log: seq<Action>, retry: int, a: nat)
    requires t.Shaped() && Consistent(t, log, retry) && a < |log|
    ensures log[a].target < |t.ips|
  {
  }

  lemma EarnedAt(log: seq<Action>, n: nat, a: nat)
    requires AllPaid(Zeros(n), log) && Numbered(log) && a < |log| && log[a].target < n
    ensures Earned(log[a], log[..a])
  {
    assert Paid(log[a], Zeros(n), log[..a]);
  }

  /** On any manager, a reply from a target with the number its table entry holds is
      credited before any probe was sent. */
  lemma StaleCredited(ips: seq<nat>, seqs: seq<nat>, i: nat, retry: int, ident: nat)
    requires 0 < |ips| == |seqs| && i < |ips|
    ensures var t0 := Start(ips, seqs);
            var events := [Readable(Some(Reply(ips[i], 28, 20, 0, seqs[i])))];
            exists j: nat :: j < |ips| && ips[j] == ips[i] && seqs[j] == seqs[i]
              && History(t0, events, retry, ident) == [Credit(j, seqs[i])] && Run(t0, events, retry, ident).respNum == 1
  {
    var t0 := Start(ips, seqs);
    var events := [Readable(Some(Reply(ips[i], 28, 20, 0, seqs[i])))];
    assert Front(events) == [] && Last(events) == events[0];
    assert Run(t0, [], retry, ident) == t0 && History(t0, [], retry, ident) == [];
    var j := Hash(ips, seqs, ips[i], seqs[i], 0);
    assert j.Some?;
    assert History(t0, events, retry, ident) == [Credit(j.value, seqs[i])];
  }

  /** So a zero number is credited on a fresh manager, and any other on one used before. */
  lemma ZeroCredited(addr: nat, ident: nat, retry: int)
    ensures var t0 := Start([addr], [0]);
            var events := [Readable(Some(Reply(addr, 28, 20, 0, 0)))];
            History(t0, events, retry, ident) == [Credit(0, 0)] && Run(t0, events, retry, ident).respNum == 1
  {
    StaleCredited([addr], [0], 0, retry, ident);
  }
}
