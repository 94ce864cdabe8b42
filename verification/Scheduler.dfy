/** The tick loop of alive_process_thread: which command is called when. */
module Scheduler {
  import opened Splitting

  const REFRESH_INTERVAL := 60 * 60
  const METADATA_INTERVAL := 60

  datatype Call = Heartbeat | Alive | Metadata

  /** `ret` is the result the loop remembers; `log` the calls made so far. */
  datatype State = State(ret: bool, refresh: nat, metareport: nat, log: seq<Call>)

  /** The results of the commands: that of a call depends on what was called before it. */
  type Results = seq<Call> -> bool

  // --------------------------------------------------------- specification

  /** The calls of tick t, counting from 1, that starts with `ret`. */
  function CallsOf(t: nat, ret: bool): seq<Call> {
    (if ret then [] else [Heartbeat]) + [Alive]
    + (if t % (REFRESH_INTERVAL + 1) == 0 then [Heartbeat] else [])
    + (if t % (METADATA_INTERVAL + 1) == 0 then [Metadata] else [])
  }

  /** What the loop remembers after its calls: the result of the last one that is not an alive report. */
  function Remembered(ret: bool, before: seq<Call>, calls: seq<Call>, results: Results): bool {
    if calls == [] then ret
    else if Last(calls) == Alive then Remembered(ret, before, Front(calls), results)
    else results(before + Front(calls))
  }

  function RetAfter(n: nat, results: Results): bool
    decreases n, 0
  {
    if n == 0 then false
    else Remembered(RetAfter(n - 1, results), LogAfter(n - 1, results), CallsOf(n, RetAfter(n - 1, results)), results)
  }

  function LogAfter(n: nat, results: Results): seq<Call>
    decreases n, 1
  {
    if n == 0 then [] else LogAfter(n - 1, results) + CallsOf(n, RetAfter(n - 1, results))
  }

  // ------------------------------------------------------ the C function

  /** n turns of the endless loop. */
  method Run(n: nat, results: Results) returns (s: State)
    ensures s == State(RetAfter(n, results), n % 3601, n % 61, LogAfter(n, results))
  {
    s := State(false, 0, 0, []);
    for t := 0 to n
      invariant s == State(RetAfter(t, results), t % 3601, t % 61, LogAfter(t, results))
    {
      s := Turn(s, t, results);
    }
  }

  /** One turn. */
  method Turn(s: State, ghost t: nat, results: Results) returns (s': State)
    requires s.refresh == t % 3601 && s.metareport == t % 61
    ensures var calls := CallsOf(t + 1, s.ret);
            s' == State(Remembered(s.ret, s.log, calls, results), (t + 1) % 3601, (t + 1) % 61, s.log + calls)
  {
    var ret, refresh: nat, metareport: nat, log := s.ret, s.refresh, s.metareport, s.log;
    Wraps(t);
    if ret == false {
      ret := results(log);
      log := log + [Heartbeat];
    }
    log := log + [Alive];
    ghost var first := if s.ret then [Alive] else [Heartbeat, Alive];
    assert log == s.log + first;
    ghost var refreshed, reported := [], [];
    if refresh < REFRESH_INTERVAL {
      refresh := refresh + 1;
    } else {
      ret := results(log);
      log := log + [Heartbeat];
      refresh, refreshed := 0, [Heartbeat];
    }
    if metareport < METADATA_INTERVAL {
      metareport := metareport + 1;
    } else {
      metareport := 0;
      assert log == s.log + first + refreshed;
      ret := results(log);
      log := log + [Metadata];
      reported := [Metadata];
    }
    assert CallsOf(t + 1, s.ret) == first + refreshed + reported;
    assert log == s.log + (first + refreshed + reported);
    hide Remembered, CallsOf;
    TurnRemembers(s.ret, s.log, refreshed, reported, results);
    s' := State(ret, refresh, metareport, log);
  }

  lemma Wraps(t: nat)
    ensures (t + 1) % 3601 == if t % 3601 == 3600 then 0 else t % 3601 + 1
    ensures (t + 1) % 61 == if t % 61 == 60 then 0 else t % 61 + 1
  {
    var q, r := t / 3601, t % 3601;
    if r == 3600 { Remainder3601(q + 1, 0); } else { Remainder3601(q, r + 1); }
    var q', r' := t / 61, t % 61;
    if r' == 60 { Remainder61(q' + 1, 0); } else { Remainder61(q', r' + 1); }
  }

  lemma Remainder3601(q: nat, r: nat)
    requires r < 3601
    ensures (3601 * q + r) % 3601 == r
  {
  }

  lemma Remainder61(q: nat, r: nat)
    requires r < 61
    ensures (61 * q + r) % 61 == r
  {
  }

  /** The value left in ret by the calls of one tick. */
  lemma TurnRemembers(ret: bool, before: seq<Call>, refreshed: seq<Call>, reported: seq<Call>, results: Results)
    requires refreshed == [] || refreshed == [Heartbeat]
    requires reported == [] || reported == [Metadata]
    ensures var first := if ret then [Alive] else [Heartbeat, Alive];
            Remembered(ret, before, first + refreshed + reported, results) ==
              if reported != [] then results(before + first + refreshed)
              else if refreshed != [] then results(before + first)
              else if !ret then results(before)
              else ret
  {
    var first := if ret then [Alive] else [Heartbeat, Alive];
    var all := first + refreshed + reported;
    if reported != [] {
      assert Front(all) == first + refreshed && before + (first + refreshed) == before + first + refreshed;
    } else if refreshed != [] {
      assert Front(all) == first;
    } else {
      assert all == first && Front(first) == if ret then [] else [Heartbeat];
      assert Front([Heartbeat]) == [] && before + [] == before;
    }
  }

  // ------------------------------------------------------------------ laws

  /** Tick by tick: before the first nothing has been called and the result is FALSE. Then a
      heartbeat if the result is FALSE, an alive report, a heartbeat every 3601st tick and a
      metadata report every 61st; the last of them but the alive report leaves its result. */
  lemma TickLaw(n: nat, results: Results)
    ensures LogAfter(0, results) == [] && !RetAfter(0, results)
    ensures n > 0 ==>
      var before, ret := LogAfter(n - 1, results), RetAfter(n - 1, results);
      var first := if ret then [Alive] else [Heartbeat, Alive];
      var refreshed := if n % 3601 == 0 then [Heartbeat] else [];
      var reported := if n % 61 == 0 then [Metadata] else [];
      && LogAfter(n, results) == before + first + refreshed + reported
      && RetAfter(n, results) ==
           if n % 61 == 0 then results(before + first + refreshed)
           else if n % 3601 == 0 then results(before + first)
           else if !ret then results(before)
           else true
  {
    if n > 0 {
      var before, ret := LogAfter(n - 1, results), RetAfter(n - 1, results);
      var first := if ret then [Alive] else [Heartbeat, Alive];
      var refreshed := if n % 3601 == 0 then [Heartbeat] else [];
      var reported := if n % 61 == 0 then [Metadata] else [];
      assert CallsOf(n, ret) == first + refreshed + reported;
      assert before + (first + refreshed + reported) == before + first + refreshed + reported;
      hide Remembered, CallsOf;
      TurnRemembers(ret, before, refreshed, reported, results);
    }
  }

  function Number(log: seq<Call>, c: Call): nat {
    if log == [] then 0 else Number(Front(log), c) + if Last(log) == c then 1 else 0
  }

  lemma {:induction false} NumberConcat(a: seq<Call>, b: seq<Call>, c: Call)
    ensures Number(a + b, c) == Number(a, c) + Number(b, c)
  {
    if b == [] {
      assert a + b == a;
    } else {
      FrontLast(a, b);
      NumberConcat(a, Front(b), c);
    }
  }

  /** Of the first n ticks, those that start with ret FALSE. */
  function FalseStarts(n: nat, results: Results): nat {
    if n == 0 then 0 else FalseStarts(n - 1, results) + if RetAfter(n - 1, results) then 0 else 1
  }

  /** How many of each report n ticks have issued. */
  lemma {:induction false} AliveIssued(n: nat, results: Results)
    ensures Number(LogAfter(n, results), Alive) == n
  {
    if n > 0 {
      hide *;
      AliveIssued(n - 1, results);
      TickStep(n, results, Alive);
      CallsCounted(n, RetAfter(n - 1, results));
    }
  }

  lemma {:induction false} MetadataIssued(n: nat, results: Results)
    ensures Number(LogAfter(n, results), Metadata) == n / 61
  {
    if n > 0 {
      hide *;
      MetadataIssued(n - 1, results);
      TickStep(n, results, Metadata);
      CallsCounted(n, RetAfter(n - 1, results));
      Periods(n);
    }
  }

  lemma {:induction false} HeartbeatsIssued(n: nat, results: Results)
    ensures Number(LogAfter(n, results), Heartbeat) == n / 3601 + FalseStarts(n, results)
  {
    if n > 0 {
      hide *;
      HeartbeatsIssued(n - 1, results);
      TickStep(n, results, Heartbeat);
      CallsCounted(n, RetAfter(n - 1, results));
      Periods(n);
    }
  }

  lemma TickStep(n: nat, results: Results, c: Call)
    requires n > 0
    ensures Number(LogAfter(n, results), c)
         == Number(LogAfter(n - 1, results), c) + Number(CallsOf(n, RetAfter(n - 1, results)), c)
    ensures FalseStarts(n, results) == FalseStarts(n - 1, results) + if RetAfter(n - 1, results) then 0 else 1
  {
    NumberConcat(LogAfter(n - 1, results), CallsOf(n, RetAfter(n - 1, results)), c);
  }

  lemma Periods(n: nat)
    requires n > 0
    ensures n / 61 == (n - 1) / 61 + if n % 61 == 0 then 1 else 0
    ensures n / 3601 == (n - 1) / 3601 + if n % 3601 == 0 then 1 else 0
  {
    assert n == 61 * (n / 61) + n % 61;
    assert n == 3601 * (n / 3601) + n % 3601;
  }

  lemma CallsCounted(t: nat, ret: bool)
    ensures Number(CallsOf(t, ret), Alive) == 1
    ensures Number(CallsOf(t, ret), Metadata) == if t % 61 == 0 then 1 else 0
    ensures Number(CallsOf(t, ret), Heartbeat) == (if ret then 0 else 1) + if t % 3601 == 0 then 1 else 0
  {
    var a: seq<Call>, c: seq<Call>, d: seq<Call> :=
      if ret then [] else [Heartbeat], if t % 3601 == 0 then [Heartbeat] else [], if t % 61 == 0 then [Metadata] else [];
    forall x ensures Number(a + [Alive] + c + d, x) == Number(a, x) + Number([Alive], x) + Number(c, x) + Number(d, x) {
      NumberConcat(a, [Alive], x);
      NumberConcat(a + [Alive], c, x);
      NumberConcat(a + [Alive] + c, d, x);
    }
    forall x: Call, y: Call ensures Number([y], x) == if x == y then 1 else 0 {
      assert Front([y]) == [];
    }
  }

  /** The refresh and the metadata report fall on the same tick exactly at multiples of 219661. */
  lemma Coincide(t: nat)
    ensures t % 3601 == 0 && t % 61 == 0 <==> t % 219661 == 0
  {
    if t % 3601 == 0 && t % 61 == 0 {
      var a, b := t / 3601, t / 61;
      assert 2 * a == 61 * (b - 59 * a);
      assert a % 61 == 0 by {
        var q, r := a / 61, a % 61;
        assert 2 * r == 61 * (b - 59 * a - 2 * q);
      }
      assert t == 219661 * (a / 61);
    }
    if t % 219661 == 0 {
      var q := t / 219661;
      assert t == 3601 * (61 * q) && t == 61 * (3601 * q);
    }
  }
}
