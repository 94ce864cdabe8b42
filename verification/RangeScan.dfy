/** CIcmpMgr4::Find as a state machine: probing a range of addresses within one /24. */
module RangeScan {
  import opened Wrappers
  import opened Splitting
  import opened Probing

  const SLOTS := 256
  const INADDR_NONE := 0xFFFF_FFFF

  datatype Range = Range(lo: nat, hi: nat, wanted: nat)

  /** The range actually probed and the number of answers waited for; None for an invalid address. */
  function Normalise(lo: nat, hi: nat): (r: Option<Range>)
    requires lo <= INADDR_NONE && hi <= INADDR_NONE
    ensures r.Some? ==> WithinBlock(r.value)
  {
    var hi1 := if hi == 0 && lo > 0 then lo else hi;
    if lo == INADDR_NONE || hi1 == INADDR_NONE then None
    else if lo / 256 != hi1 / 256 || lo > hi1 then Some(Range(lo, lo, 1))
    else Some(Range(lo, hi1, if hi1 - lo + 1 > 255 then 255 else hi1 - lo + 1))
  }

  predicate WithinBlock(r: Range) {
    r.lo <= r.hi < INADDR_NONE && r.lo / 256 == r.hi / 256 && 0 < r.wanted <= r.hi - r.lo + 1
  }

  predicate Inside(r: Range, addr: nat) {
    r.lo <= addr <= r.hi
  }

  /** Two ends in order within one block of 256 give all the addresses between them, and as
      many answers to wait for, at most 255; any other two give the first end alone. Only an
      invalid end gives nothing. */
  lemma NormaliseIs(lo: nat, hi: nat)
    requires lo <= 0xFFFF_FFFF && hi <= 0xFFFF_FFFF
    ensures Normalise(lo, hi) == None <==> lo == 0xFFFF_FFFF || hi == 0xFFFF_FFFF
    ensures Normalise(lo, hi).Some? ==>
      var r := Normalise(lo, hi).value;
      if lo <= hi && lo / 256 == hi / 256 then
        (forall a: nat :: Inside(r, a) <==> lo <= a <= hi) && r.wanted == if hi - lo + 1 < 255 then hi - lo + 1 else 255
      else (forall a: nat :: Inside(r, a) <==> a == lo) && r.wanted == 1
  {
  }

  /** Within the range no two addresses share a slot. */
  lemma SlotsDiffer(r: Range, a: nat, b: nat)
    requires WithinBlock(r) && Inside(r, a) && Inside(r, b) && a % SLOTS == b % SLOTS
    ensures a == b
  {
    assert r.lo / 256 <= a / 256 <= r.hi / 256 && r.lo / 256 <= b / 256 <= r.hi / 256;
  }

  datatype Scan = Scan(
    tries: seq<nat>, sentAt: seq<int>, ok: seq<bool>, from: seq<nat>,
    respNum: nat, seqno: nat, next: nat)
  {
    predicate Shaped(r: Range) {
      |tries| == |sentAt| == |ok| == |from| == SLOTS && Inside(r, next)
    }
  }

  function Start(r: Range, from: seq<nat>): (t: Scan)
    requires WithinBlock(r) && |from| == SLOTS
    ensures t.Shaped(r)
  {
    Scan(Zeros(SLOTS), Zeros(SLOTS), seq(SLOTS, _ => false), from, 0, 0, r.lo)
  }

  /** One turn of the loop. */
  function Step(r: Range, t: Scan, e: Event, retry: int, ident: nat): (t': Scan)
    requires WithinBlock(r) && t.Shaped(r)
    ensures t'.Shaped(r)
  {
    match e
    case Readable(Some(a)) =>
      var slot := a.addr % SLOTS;
      if Decodes(a, ident) && Inside(r, a.addr) && !t.ok[slot] then
        t.(ok := t.ok[slot := true], from := t.from[slot := a.addr], respNum := t.respNum + 1)
      else t
    case Writable(now) =>
      var slot := t.next % SLOTS;
      var next' := if t.next + 1 > r.hi then r.lo else t.next + 1;
      if !t.ok[slot] && t.tries[slot] < retry && now - t.sentAt[slot] >= 1 then
        t.(tries := t.tries[slot := t.tries[slot] + 1], sentAt := t.sentAt[slot := now],
           seqno := (t.seqno + 1) % 0x10000, next := next')
      else t.(next := next')
    case _ => t
  }

  /** The loop over a sequence of events; it stops once enough have answered. */
  function Run(r: Range, t: Scan, events: seq<Event>, retry: int, ident: nat): (t': Scan)
    requires WithinBlock(r) && t.Shaped(r)
    ensures t'.Shaped(r)
  {
    if events == [] then t
    else
      var before := Run(r, t, Front(events), retry, ident);
      if before.respNum < r.wanted then Step(r, before, Last(events), retry, ident) else before
  }

  /** The address probed by a turn, and the number it is probed with. */
  function Probe(r: Range, t: Scan, e: Event, retry: int): seq<Datagram>
    requires t.Shaped(r)
  {
    match e
    case Writable(now) =>
      var slot := t.next % SLOTS;
      if !t.ok[slot] && t.tries[slot] < retry && now - t.sentAt[slot] >= 1 then
        [Datagram(t.next, (t.seqno + 1) % 0x10000)]
      else []
    case _ => []
  }

  /** The datagrams a run sends. */
  function Sends(r: Range, t: Scan, events: seq<Event>, retry: int, ident: nat): seq<Datagram>
    requires WithinBlock(r) && t.Shaped(r)
  {
    if events == [] then []
    else
      var before := Run(r, t, Front(events), retry, ident);
      Sends(r, t, Front(events), retry, ident) +
      if before.respNum < r.wanted then Probe(r, before, Last(events), retry) else []
  }

  // ------------------------------------------------------- turn by turn

  /** A run with one more turn, while too few have answered. */
  lemma OneMore(r: Range, t0: Scan, events: seq<Event>, e: Event, retry: int, ident: nat)
    requires WithinBlock(r) && t0.Shaped(r) && Run(r, t0, events, retry, ident).respNum < r.wanted
    ensures var t := Run(r, t0, events, retry, ident);
            && Run(r, t0, events + [e], retry, ident) == Step(r, t, e, retry, ident)
            && Sends(r, t0, events + [e], retry, ident) == Sends(r, t0, events, retry, ident) + Probe(r, t, e, retry)
  {
    assert Front(events + [e]) == events && Last(events + [e]) == e;
    hide Step, Probe;
  }

  /** The address at the cursor has not answered, has tries left and was last sent to a
      second ago or more. */
  predicate Due(r: Range, t: Scan, now: int, retry: int)
    requires t.Shaped(r)
  {
    !t.ok[t.next % 256] && t.tries[t.next % 256] < retry && now - t.sentAt[t.next % 256] >= 1
  }

  /** The tables after a probe of the address at the cursor. */
  predicate ProbedAt(r: Range, t: Scan, t': Scan, now: int)
    requires t.Shaped(r)
  {
    && t'.tries == t.tries[t.next % 256 := t.tries[t.next % 256] + 1] && t'.sentAt == t.sentAt[t.next % 256 := now]
    && t'.seqno == (t.seqno + 1) % 0x10000 && t'.ok == t.ok && t'.from == t.from && t'.respNum == t.respNum
  }

  /** What a writable turn does: it probes the address at the cursor exactly if that is due,
      and moves on to the next address, round the range. */
  lemma WritableTurn(r: Range, t0: Scan, events: seq<Event>, now: int, retry: int, ident: nat)
    requires WithinBlock(r) && t0.Shaped(r) && Run(r, t0, events, retry, ident).respNum < r.wanted
    ensures var t, more := Run(r, t0, events, retry, ident), events + [Writable(now)];
            var t' := Run(r, t0, more, retry, ident);
            && t'.next == (if t.next == r.hi then r.lo else t.next + 1)
            && Sends(r, t0, more, retry, ident) ==
                 Sends(r, t0, events, retry, ident) +
                 (if Due(r, t, now, retry) then [Datagram(t.next, (t.seqno + 1) % 0x10000)] else [])
            && if Due(r, t, now, retry) then ProbedAt(r, t, t', now) else t' == t.(next := t'.next)
  {
    OneMore(r, t0, events, Writable(now), retry, ident);
    hide Run, Sends;
  }

  /** What a datagram does: an address of the range is counted exactly if the datagram is
      long enough, ours, and the address has not answered yet. */
  lemma ReplyTurn(r: Range, t0: Scan, events: seq<Event>, a: Reply, retry: int, ident: nat)
    requires WithinBlock(r) && t0.Shaped(r) && Run(r, t0, events, retry, ident).respNum < r.wanted
    ensures var t, more := Run(r, t0, events, retry, ident), events + [Readable(Some(a))];
            var t' := Run(r, t0, more, retry, ident);
            var valid := a.bytes >= a.headerLen + 8 && (a.ident == 0 || a.ident == ident);
            if valid && r.lo <= a.addr <= r.hi && !t.ok[a.addr % 256] then
              t'.ok == t.ok[a.addr % 256 := true] && t'.from == t.from[a.addr % 256 := a.addr] && t'.respNum == t.respNum + 1
            else t' == t
  {
    OneMore(r, t0, events, Readable(Some(a)), retry, ident);
    hide Run, Sends;
  }

  /** Probes of the first n addresses, in order. */
  function FirstProbes(lo: nat, n: nat): (sent: seq<Datagram>)
    ensures |sent| == n
  {
    if n == 0 then [] else FirstProbes(lo, n - 1) + [Datagram(lo + n - 1, n % 0x10000)]
  }

  /** The first n addresses have been probed once, in order, and the others not yet. */
  ghost predicate Swept(r: Range, t: Scan, sent: seq<Datagram>, n: nat)
    requires t.Shaped(r)
  {
    && sent == FirstProbes(r.lo, n) && t.seqno == n % 0x10000 && t.respNum == 0
    && t.next == (if n == r.hi - r.lo + 1 then r.lo else r.lo + n)
    && (forall a :: r.lo + n <= a <= r.hi ==> Silent(t, a))
  }

  predicate Silent(t: Scan, a: nat) {
    && |t.tries| == |t.sentAt| == |t.ok| == 256
    && t.tries[a % 256] == 0 && t.sentAt[a % 256] == 0 && !t.ok[a % 256]
  }

  /** As long as nothing is heard, the turns probe one address after the other, each once in
      a round. */
  lemma {:induction false} Sweep(r: Range, from: seq<nat>, times: seq<int>, retry: int, ident: nat)
    requires WithinBlock(r) && |from| == 256 && |times| <= r.hi - r.lo + 1 && retry >= 1
    requires forall k :: 0 <= k < |times| ==> times[k] >= 1
    ensures var t0 := Start(r, from);
            Swept(r, Run(r, t0, Turns(times), retry, ident), Sends(r, t0, Turns(times), retry, ident), |times|)
  {
    if times == [] {
      assert forall a :: r.lo <= a <= r.hi ==> Silent(Start(r, from), a);
    } else {
      var n, last := |times| - 1, times[|times| - 1];
      assert last >= 1 && |Front(times)| == n && forall k :: 0 <= k < n ==> Front(times)[k] >= 1;
      Sweep(r, from, Front(times), retry, ident);
      hide *;
      TurnsStep(times);
      SweepStep(r, Start(r, from), Turns(Front(times)), last, retry, ident, n);
    }
  }

  lemma SweepStep(r: Range, t0: Scan, events: seq<Event>, now: int, retry: int, ident: nat, n: nat)
    requires WithinBlock(r) && t0.Shaped(r) && n < r.hi - r.lo + 1 && now >= 1 && retry >= 1
    requires Swept(r, Run(r, t0, events, retry, ident), Sends(r, t0, events, retry, ident), n)
    ensures var more := events + [Writable(now)];
            Swept(r, Run(r, t0, more, retry, ident), Sends(r, t0, more, retry, ident), n + 1)
  {
    var t := Run(r, t0, events, retry, ident);
    SweptFacts(r, t, Sends(r, t0, events, retry, ident), n, now, retry);
    hide *;
    WritableTurn(r, t0, events, now, retry, ident);
    SweptMore(r, t, Run(r, t0, events + [Writable(now)], retry, ident), Sends(r, t0, events, retry, ident), n, now);
  }

  lemma SweptFacts(r: Range, t: Scan, sent: seq<Datagram>, n: nat, now: int, retry: int)
    requires WithinBlock(r) && t.Shaped(r) && n < r.hi - r.lo + 1 && now >= 1 && retry >= 1 && Swept(r, t, sent, n)
    ensures t.respNum < r.wanted && Due(r, t, now, retry)
  {
    assert Silent(t, r.lo + n);
  }

  lemma SweptMore(r: Range, t: Scan, t': Scan, sent: seq<Datagram>, n: nat, now: int)
    requires WithinBlock(r) && t.Shaped(r) && t'.Shaped(r) && n < r.hi - r.lo + 1 && Swept(r, t, sent, n)
    requires ProbedAt(r, t, t', now) && t'.next == if t.next == r.hi then r.lo else t.next + 1
    ensures Swept(r, t', sent + [Datagram(t.next, (t.seqno + 1) % 0x10000)], n + 1)
  {
    NextNumber(n);
    forall a | r.lo + n + 1 <= a <= r.hi ensures Silent(t', a) {
      assert Silent(t, a);
      if a % 256 == t.next % 256 { SlotsDiffer(r, a, t.next); }
    }
    hide Silent;
  }

  lemma {:induction false} RunStopped(r: Range, t: Scan, events: seq<Event>, k: nat, retry: int, ident: nat)
    requires WithinBlock(r) && t.Shaped(r) && k <= |events|
    requires Run(r, t, events[..k], retry, ident).respNum >= r.wanted
    ensures Run(r, t, events, retry, ident) == Run(r, t, events[..k], retry, ident)
  {
    if k == |events| {
      assert events[..k] == events;
    } else {
      assert Front(events)[..k] == events[..k];
      RunStopped(r, t, Front(events), k, retry, ident);
    }
  }

  lemma {:induction false} SendsStopped(r: Range, t: Scan, events: seq<Event>, k: nat, retry: int, ident: nat)
    requires WithinBlock(r) && t.Shaped(r) && k <= |events|
    requires Run(r, t, events[..k], retry, ident).respNum >= r.wanted
    ensures Sends(r, t, events, retry, ident) == Sends(r, t, events[..k], retry, ident)
  {
    if k == |events| {
      assert events[..k] == events;
    } else {
      assert Front(events)[..k] == events[..k];
      SendsStopped(r, t, Front(events), k, retry, ident);
      RunStopped(r, t, Front(events), k, retry, ident);
    }
  }

  /** The addresses inside the range from which a usable reply was read before the loop stopped. */
  function Answered(r: Range, t: Scan, events: seq<Event>, retry: int, ident: nat): set<nat>
    requires WithinBlock(r) && t.Shaped(r)
  {
    if events == [] then {}
    else
      var before := Answered(r, t, Front(events), retry, ident);
      match Last(events)
      case Readable(Some(a)) =>
        if Run(r, t, Front(events), retry, ident).respNum < r.wanted && Decodes(a, ident) && Inside(r, a.addr)
        then before + {a.addr} else before
      case _ => before
  }

  /** Slots and answered addresses agree, and the count is the number of addresses. */
  ghost predicate Counted(r: Range, t: Scan, answered: set<nat>, retry: int)
    requires WithinBlock(r) && t.Shaped(r)
  {
    && t.respNum == |answered| <= r.wanted
    && (forall a :: a in answered ==> Inside(r, a) && t.ok[a % SLOTS] && t.from[a % SLOTS] == a)
    && (forall s :: 0 <= s < SLOTS && t.ok[s] ==> t.from[s] in answered && t.from[s] % SLOTS == s)
    && (forall s :: 0 <= s < SLOTS ==> t.tries[s] == 0 || t.tries[s] <= retry)
  }

  /** Every run of Find. */
  lemma {:induction false} RunCounted(r: Range, from: seq<nat>, events: seq<Event>, retry: int, ident: nat)
    requires WithinBlock(r) && |from| == SLOTS
    ensures var t0 := Start(r, from);
            Counted(r, Run(r, t0, events, retry, ident), Answered(r, t0, events, retry, ident), retry)
  {
    var t0 := Start(r, from);
    if events != [] {
      RunCounted(r, from, Front(events), retry, ident);
      var t, answered := Run(r, t0, Front(events), retry, ident), Answered(r, t0, Front(events), retry, ident);
      if t.respNum < r.wanted {
        StepCounted(r, t, answered, Last(events), retry, ident);
      }
    }
  }

  lemma StepCounted(r: Range, t: Scan, answered: set<nat>, e: Event, retry: int, ident: nat)
    requires WithinBlock(r) && t.Shaped(r) && Counted(r, t, answered, retry) && t.respNum < r.wanted
    ensures var now := match e
              case Readable(Some(a)) => if Decodes(a, ident) && Inside(r, a.addr) then answered + {a.addr} else answered
              case _ => answered;
            Counted(r, Step(r, t, e, retry, ident), now, retry)
  {
    if e.Readable? && e.reply.Some? && Decodes(e.reply.value, ident) && Inside(r, e.reply.value.addr) {
      var a := e.reply.value.addr;
      var slot := a % SLOTS;
      if t.ok[slot] {
        SlotsDiffer(r, a, t.from[slot]);
        assert answered + {a} == answered;
      } else {
        assert a !in answered;
        assert |answered + {a}| == |answered| + 1;
      }
    }
  }

  // ------------------------------------------------------- when it stops

  /** The addresses from lo up to but not including `end`. */
  function Addresses(lo: nat, end: nat): set<nat> {
    if end <= lo then {} else Addresses(lo, end - 1) + {end - 1}
  }

  lemma {:induction false} AddressCount(lo: nat, end: nat)
    requires lo <= end
    ensures |Addresses(lo, end)| == end - lo
    ensures forall a: nat :: a in Addresses(lo, end) <==> lo <= a < end
    decreases end - lo
  {
    if lo < end {
      AddressCount(lo, end - 1);
    }
  }

  lemma SameSize(a: set<nat>, b: set<nat>)
    requires a <= b
    ensures |a| == |b| <==> a == b
  {
    assert b == a + (b - a);
    assert |b| == |a| + |b - a|;
  }

  /** The loop has run until enough have answered. */
  predicate Stopped(r: Range, from: seq<nat>, events: seq<Event>, retry: int, ident: nat)
    requires WithinBlock(r) && |from| == SLOTS
  {
    Run(r, Start(r, from), events, retry, ident).respNum >= r.wanted
  }

  /** When the loop of Find has stopped, every address of the range has been heard except
      for a full block, whose 256 addresses are one more than it waits for. */
  lemma FullBlock(lo: nat, hi: nat, from: seq<nat>, events: seq<Event>, retry: int, ident: nat)
    requires lo <= INADDR_NONE && hi <= INADDR_NONE && Normalise(lo, hi).Some? && |from| == SLOTS
    requires Stopped(Normalise(lo, hi).value, from, events, retry, ident)
    ensures var r := Normalise(lo, hi).value;
            var heard := Answered(r, Start(r, from), events, retry, ident);
            (forall a: nat :: Inside(r, a) ==> a in heard) <==> !(hi - lo == 255 && lo / 256 == hi / 256)
  {
    var r := Normalise(lo, hi).value;
    var heard := Answered(r, Start(r, from), events, retry, ident);
    RunCounted(r, from, events, retry, ident);
    assert |heard| == r.wanted && forall a :: a in heard ==> Inside(r, a);
    assert r.wanted == r.hi - r.lo + 1 <==> !(hi - lo == 255 && lo / 256 == hi / 256);
    hide *;
    HeardAll(r, heard);
  }

  lemma HeardAll(r: Range, heard: set<nat>)
    requires WithinBlock(r) && |heard| == r.wanted && forall a :: a in heard ==> Inside(r, a)
    ensures (forall a: nat :: Inside(r, a) ==> a in heard) <==> r.wanted == r.hi - r.lo + 1
  {
    var all := Addresses(r.lo, r.hi + 1);
    AddressCount(r.lo, r.hi + 1);
    assert forall a: nat :: a in all <==> Inside(r, a);
    SameSize(heard, all);
  }

  /** The first n addresses of the range answering in order. */
  function Replies(r: Range, n: nat): seq<Event> {
    seq(n, k requires 0 <= k => Readable(Some(Reply(r.lo + k, 28, 20, 0, 0))))
  }

  /** It does stop: when as many addresses have answered as it waits for. */
  lemma {:induction false} RepliesStop(r: Range, from: seq<nat>, n: nat, retry: int, ident: nat)
    requires WithinBlock(r) && |from| == SLOTS && n <= r.wanted
    ensures Answered(r, Start(r, from), Replies(r, n), retry, ident) == Addresses(r.lo, r.lo + n)
    ensures Stopped(r, from, Replies(r, n), retry, ident) <==> n == r.wanted
  {
    hide *;
    AddressNumber(r.lo, n);
    RepliesStep(r, Start(r, from), n, retry, ident);
    if n > 0 {
      RepliesStop(r, from, n - 1, retry, ident);
      StoppedStep(r, from, Replies(r, n), retry, ident);
    }
    CountedStops(r, from, Replies(r, n), retry, ident);
  }

  lemma AddressNumber(lo: nat, n: nat)
    ensures |Addresses(lo, lo + n)| == n
    ensures Addresses(lo, lo + n) == if n == 0 then {} else Addresses(lo, lo + n - 1) + {lo + n - 1}
  {
    AddressCount(lo, lo + n);
  }

  lemma RepliesStep(r: Range, t: Scan, n: nat, retry: int, ident: nat)
    requires WithinBlock(r) && t.Shaped(r) && n <= r.wanted
    ensures n == 0 ==> Answered(r, t, Replies(r, n), retry, ident) == {}
    ensures n > 0 ==> Replies(r, n) != [] && Front(Replies(r, n)) == Replies(r, n - 1)
    ensures n > 0 && Run(r, t, Replies(r, n - 1), retry, ident).respNum < r.wanted ==>
              Answered(r, t, Replies(r, n), retry, ident) == Answered(r, t, Replies(r, n - 1), retry, ident) + {r.lo + n - 1}
  {
    if n > 0 {
      assert Front(Replies(r, n)) == Replies(r, n - 1);
      assert Last(Replies(r, n)) == Readable(Some(Reply(r.lo + n - 1, 28, 20, 0, 0)));
      hide Run, Replies;
    }
  }

  lemma StoppedStep(r: Range, from: seq<nat>, events: seq<Event>, retry: int, ident: nat)
    requires WithinBlock(r) && |from| == SLOTS && events != []
    ensures !Stopped(r, from, Front(events), retry, ident) ==> Run(r, Start(r, from), Front(events), retry, ident).respNum < r.wanted
  {
  }

  lemma CountedStops(r: Range, from: seq<nat>, events: seq<Event>, retry: int, ident: nat)
    requires WithinBlock(r) && |from| == SLOTS
    ensures Stopped(r, from, events, retry, ident) <==> |Answered(r, Start(r, from), events, retry, ident)| == r.wanted
  {
    RunCounted(r, from, events, retry, ident);
    hide Run, Answered;
  }

  /** When all addresses of a range of at most 255 answer in order, all of them are counted. */
  lemma FindAll(lo: nat, hi: nat, from: seq<nat>, retry: int, ident: nat)
    requires lo <= hi < 0xFFFF_FFFF && lo / 256 == hi / 256 && hi - lo + 1 <= 255 && |from| == 256
    ensures Normalise(lo, hi).Some?
    ensures var r := Normalise(lo, hi).value;
            Run(r, Start(r, from), AnswersOf(lo, hi - lo + 1), retry, ident).respNum == hi - lo + 1
  {
    NormaliseIs(lo, hi);
    var r := Normalise(lo, hi).value;
    assert Inside(r, lo) && Inside(r, hi) && Inside(r, r.lo);
    var n := hi - lo + 1;
    assert AnswersOf(lo, n) == Replies(r, n);
    hide *;
    RepliesStop(r, from, n, retry, ident);
    RunCounted(r, from, AnswersOf(lo, n), retry, ident);
    AddressNumber(r.lo, n);
    CountedIs(r, Run(r, Start(r, from), AnswersOf(lo, n), retry, ident), Answered(r, Start(r, from), AnswersOf(lo, n), retry, ident), retry);
  }

  lemma CountedIs(r: Range, t: Scan, answered: set<nat>, retry: int)
    requires WithinBlock(r) && t.Shaped(r) && Counted(r, t, answered, retry)
    ensures t.respNum == |answered|
  {
  }

  /** One usable reply from each of n addresses, in order. */
  function AnswersOf(lo: nat, n: nat): seq<Event> {
    seq(n, k requires 0 <= k => Readable(Some(Reply(lo + k, 28, 20, 0, 0))))
  }
}
