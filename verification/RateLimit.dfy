/** The per-socket rate limiter: one message at a time, each with the clock
    readings it takes. Times are in microseconds. */
module RateLimit {
  import opened Seqs

  const UINT: nat := 0x1_0000_0000
  const BUFSIZE: nat := 512

  /** The configured rates of a link. */
  datatype Config = Config(normrate: nat, peakrate: nat, roundtime: nat)

  /** What a link remembers: bytes since the last reset, when that was, and
      whether the round before it was a peak. */
  datatype Link = Link(lastsize: nat, lastwaspeak: bool, lastreset: int)

  /** One received message: its size, the clock after sending it, and the clock
      that a reset reads (after sleeping, where the code sleeps). */
  datatype Event = Event(numbytes: nat, sent: int, reset: int)

  /** The bounds the configuration code enforces. */
  predicate ValidConfig(c: Config) {
    10 <= c.normrate <= 1_000_000 && 100 <= c.peakrate <= 10_000_000 && 0 < c.roundtime <= 60_000_000
  }

  function Size(s: Link, e: Event): nat {
    (s.lastsize + e.numbytes) % UINT
  }

  /** The limiter sleeps to the end of the round before it resets. */
  predicate Sleeps(c: Config, s: Link, e: Event) {
    var size, elapsed := Size(s, e), e.sent - s.lastreset;
    size > c.peakrate || (size > c.normrate && elapsed <= c.roundtime && s.lastwaspeak)
  }

  predicate Resets(c: Config, s: Link, e: Event) {
    Sleeps(c, s, e) || e.sent - s.lastreset > c.roundtime
  }

  /** The state after one message. */
  function Step(c: Config, s: Link, e: Event): Link {
    if Resets(c, s, e) then Link(0, Size(s, e) > c.peakrate || Size(s, e) > c.normrate, e.reset)
    else s.(lastsize := Size(s, e))
  }

  /** A monotone clock and full-length sleeps. */
  predicate Timely(c: Config, s: Link, e: Event) {
    && 1 <= e.numbytes <= BUFSIZE
    && s.lastreset <= e.sent <= e.reset
    && (Sleeps(c, s, e) ==> e.reset - e.sent >= c.roundtime - (e.sent - s.lastreset))
  }

  // ----- the limiter as it runs -----

  class SocketLink {
    const normrate: nat
    const peakrate: nat
    const roundtime: nat
    var lastsize: nat
    var lastwaspeak: bool
    var lasttime: int
    var lastreset: int

    /** new_socketlink leaves lastsize and lastwaspeak as they were in memory. */
    constructor (c: Config, now: int, garbageSize: nat, garbagePeak: bool)
      requires garbageSize < UINT
      ensures Configuration() == c && State() == Link(garbageSize, garbagePeak, now)
    {
      normrate, peakrate, roundtime := c.normrate, c.peakrate, c.roundtime;
      lastsize, lastwaspeak, lasttime, lastreset := garbageSize, garbagePeak, now, now;
    }

    function Configuration(): Config {
      Config(normrate, peakrate, roundtime)
    }

    ghost function State(): Link
      reads this
    {
      Link(lastsize, lastwaspeak, lastreset)
    }

    /** The body of the loop for one message; slept is the argument of sleepround,
        and 0 when it is not called. */
    method Handle(e: Event) returns (slept: int)
      modifies this
      ensures State() == Step(Configuration(), old(State()), e)
      ensures lasttime == e.sent
      ensures slept == if Sleeps(Configuration(), old(State()), e) then roundtime - (e.sent - old(lastreset)) else 0
      ensures var size := (old(lastsize) + e.numbytes) % UINT;
              slept != 0 ==> size > peakrate || (size > normrate && old(lastwaspeak))
    {
      slept := 0;
      lasttime := e.sent;
      lastsize := (lastsize + e.numbytes) % UINT;
      if lastsize > peakrate {
        slept := roundtime - (lasttime - lastreset);
        lastsize := 0;
        lastreset := e.reset;
        lastwaspeak := true;
      } else if lastsize > normrate {
        if lasttime - lastreset > roundtime {
          lastsize := 0;
          lastreset := e.reset;
          lastwaspeak := true;
        } else if lastwaspeak {
          slept := roundtime - (lasttime - lastreset);
          lastsize := 0;
          lastreset := e.reset;
          lastwaspeak := true;
        }
      } else if lasttime - lastreset > roundtime {
        lastsize := 0;
        lastreset := e.reset;
        lastwaspeak := false;
      }
    }

    /** The receive loop over a run of messages. */
    method Serve(events: seq<Event>)
      modifies this
      ensures State() == Run(Configuration(), old(State()), events)
    {
      var i := 0;
      while i < |events|
        invariant i <= |events|
        invariant Run(Configuration(), State(), events[i..]) == Run(Configuration(), old(State()), events)
      {
        assert events[i..][1..] == events[i + 1..];
        var slept := Handle(events[i]);
        i := i + 1;
      }
    }
  }

  function Run(c: Config, s: Link, es: seq<Event>): Link
    decreases es
  {
    if es == [] then s else Run(c, Step(c, s, es[0]), es[1..])
  }

  predicate TimelyRun(c: Config, s: Link, es: seq<Event>)
    decreases es
  {
    es != [] ==> Timely(c, s, es[0]) && TimelyRun(c, Step(c, s, es[0]), es[1..])
  }

  /** What holds between messages. */
  predicate Settled(c: Config, s: Link) {
    s.lastsize <= c.peakrate && (s.lastwaspeak ==> s.lastsize <= c.normrate)
  }

  /** Self-stabilisation: whatever memory held, one message settles the link, and
      no message after that unsettles it or wraps the 32-bit counter. */
  lemma OneMessageSettles(c: Config, s: Link, e: Event)
    requires ValidConfig(c) && Timely(c, s, e)
    ensures Settled(c, Step(c, s, e))
    ensures Settled(c, s) ==> Size(s, e) == s.lastsize + e.numbytes
  {
  }

  // ----- rounds -----

  /** A round: the stretch from one reset to the next; `sent` is when its last message was sent. */
  datatype Round = Round(bytes: nat, afterPeak: bool, start: int, sent: int, end: int)

  /** The completed rounds of a run and the unfinished last one (its end is the
      time of the last message). */
  datatype Trace = Trace(rounds: seq<Round>, open: Round)

  function TraceStep(c: Config, s: Link, t: Trace, e: Event): Trace {
    var grown := t.open.(bytes := t.open.bytes + e.numbytes, sent := e.sent, end := e.sent);
    if Resets(c, s, e) then
      Trace(t.rounds + [grown.(end := e.reset)], Round(0, Step(c, s, e).lastwaspeak, e.reset, e.reset, e.reset))
    else Trace(t.rounds, grown)
  }

  function Rounds(c: Config, s: Link, t: Trace, es: seq<Event>): Trace
    decreases es
  {
    if es == [] then t else Rounds(c, Step(c, s, es[0]), TraceStep(c, s, t, es[0]), es[1..])
  }

  /** The trace of a run before its first message. */
  function Blank(s: Link): Trace {
    Trace([], Round(0, s.lastwaspeak, s.lastreset, s.lastreset, s.lastreset))
  }

  /** The trace of a run that starts now. */
  function TraceOf(c: Config, s: Link, es: seq<Event>): Trace {
    Rounds(c, s, Blank(s), es)
  }

  /** The bytes a round may carry, by how it was entered. */
  function Allowance(c: Config, r: Round): nat {
    if r.afterPeak then c.normrate + BUFSIZE else c.peakrate + BUFSIZE
  }

  function Lower(a: nat, b: nat): nat { if a < b then a else b }

  /** Round k of a trace: long enough, within both limits, followed by a marked
      round if it was busy, and ending where the next one starts. */
  predicate GoodRound(c: Config, rs: seq<Round>, next: bool, k: nat)
    requires k < |rs|
  {
    var r := rs[k];
    && r.end - r.start >= c.roundtime
    && r.bytes <= Lower(Allowance(c, r), c.peakrate + BUFSIZE)
    && (!(if k + 1 < |rs| then rs[k + 1].afterPeak else next) ==> r.bytes <= c.normrate)
    && (k + 1 < |rs| ==> r.end == rs[k + 1].start)
  }

  /** A trace that agrees with the state the run is in. */
  ghost predicate GoodTrace(c: Config, s: Link, t: Trace) {
    && (forall k :: 0 <= k < |t.rounds| ==> GoodRound(c, t.rounds, t.open.afterPeak, k))
    && (t.rounds != [] ==> t.rounds[|t.rounds| - 1].end == t.open.start)
    && t.open.afterPeak == s.lastwaspeak && t.open.start == s.lastreset <= t.open.end
    && t.open.bytes <= s.lastsize
  }

  lemma NewRound(c: Config, s: Link, t: Trace, e: Event)
    requires ValidConfig(c) && Timely(c, s, e) && Settled(c, s) && GoodTrace(c, s, t) && Resets(c, s, e)
    ensures var t' := TraceStep(c, s, t, e); GoodRound(c, t'.rounds, t'.open.afterPeak, |t.rounds|)
  {
    OneMessageSettles(c, s, e);
  }

  lemma {:induction false} TraceStepGood(c: Config, s: Link, t: Trace, e: Event)
    requires ValidConfig(c) && Timely(c, s, e) && Settled(c, s) && GoodTrace(c, s, t)
    ensures GoodTrace(c, Step(c, s, e), TraceStep(c, s, t, e))
  {
    var t' := TraceStep(c, s, t, e);
    forall k | 0 <= k < |t'.rounds|
      ensures GoodRound(c, t'.rounds, t'.open.afterPeak, k)
    {
      if k < |t.rounds| {
        assert t'.rounds[k] == t.rounds[k];
        assert k + 1 < |t.rounds| ==> t'.rounds[k + 1] == t.rounds[k + 1];
        assert GoodRound(c, t.rounds, t.open.afterPeak, k);
      } else {
        NewRound(c, s, t, e);
      }
    }
  }

  lemma {:induction false} RunGood(c: Config, s: Link, t: Trace, es: seq<Event>)
    requires ValidConfig(c) && TimelyRun(c, s, es) && Settled(c, s) && GoodTrace(c, s, t)
    ensures Settled(c, Run(c, s, es)) && GoodTrace(c, Run(c, s, es), Rounds(c, s, t, es))
    decreases es
  {
    if es != [] {
      OneMessageSettles(c, s, es[0]);
      TraceStepGood(c, s, t, es[0]);
      RunGood(c, Step(c, s, es[0]), TraceStep(c, s, t, es[0]), es[1..]);
    }
  }

  function Bytes(rs: seq<Round>): nat {
    if rs == [] then 0 else rs[0].bytes + Bytes(rs[1..])
  }

  /** What two consecutive rounds may carry together. */
  function Pair(c: Config): nat {
    c.normrate + c.peakrate + 2 * BUFSIZE
  }

  predicate GoodRounds(c: Config, rs: seq<Round>, next: bool) {
    forall k :: 0 <= k < |rs| ==> GoodRound(c, rs, next, k)
  }

  lemma GoodTail(c: Config, rs: seq<Round>, next: bool)
    requires rs != [] && GoodRounds(c, rs, next)
    ensures GoodRounds(c, rs[1..], next)
  {
    forall k | 0 <= k < |rs| - 1 ensures GoodRound(c, rs[1..], next, k) {
      assert GoodRound(c, rs, next, k + 1);
    }
  }

  lemma {:induction false} RoundsLast(c: Config, rs: seq<Round>, next: bool)
    requires GoodRounds(c, rs, next) && rs != []
    ensures rs[|rs| - 1].end - rs[0].start >= |rs| * c.roundtime
    decreases rs
  {
    assert GoodRound(c, rs, next, 0);
    if |rs| > 1 {
      GoodTail(c, rs, next);
      RoundsLast(c, rs[1..], next);
      assert |rs| * c.roundtime == (|rs| - 1) * c.roundtime + c.roundtime;
    }
  }

  lemma OneMore(n: nat, p: nat)
    requires n > 0
    ensures n * p == (n - 1) * p + p && (n - 1) * p >= 0
  {
  }

  /** Pairing the rounds off: at most 2n of them carry at most n pairs. */
  lemma {:induction false} RoundsCarry(c: Config, rs: seq<Round>, next: bool, n: nat)
    requires GoodRounds(c, rs, next) && |rs| <= 2 * n
    ensures Bytes(rs) <= n * Pair(c)
    decreases n
  {
    if n > 0 {
      OneMore(n, Pair(c));
      if rs != [] {
        assert GoodRound(c, rs, next, 0);
        GoodTail(c, rs, next);
        if |rs| > 1 {
          assert GoodRound(c, rs, next, 1);
          GoodTail(c, rs[1..], next);
          assert rs[1..][1..] == rs[2..];
          RoundsCarry(c, rs[2..], next, n - 1);
        }
      }
    }
  }

  /** The trace with more bytes in its first round. */
  function Credit(t: Trace, x: nat): Trace {
    if t.rounds == [] then t.(open := t.open.(bytes := t.open.bytes + x))
    else t.(rounds := [t.rounds[0].(bytes := t.rounds[0].bytes + x)] + t.rounds[1..])
  }

  lemma CreditStep(c: Config, s: Link, t: Trace, x: nat, e: Event)
    ensures TraceStep(c, s, Credit(t, x), e) == Credit(TraceStep(c, s, t, e), x)
  {
    if t.rounds == [] {
      if Resets(c, s, e) {
        var t', u' := TraceStep(c, s, t, e), TraceStep(c, s, Credit(t, x), e);
        assert t'.rounds[1..] == [] && u'.rounds == [u'.rounds[0]];
      }
    } else if Resets(c, s, e) {
      var last := TraceStep(c, s, t, e).rounds[|t.rounds|];
      CutBehind(t.rounds, [last], 1);
      Associative([Credit(t, x).rounds[0]], t.rounds[1..], [last]);
    }
  }

  lemma {:induction false} CreditRun(c: Config, s: Link, t: Trace, x: nat, es: seq<Event>)
    ensures Rounds(c, s, Credit(t, x), es) == Credit(Rounds(c, s, t, es), x)
    decreases es
  {
    if es != [] {
      CreditStep(c, s, t, x, es[0]);
      CreditRun(c, Step(c, s, es[0]), TraceStep(c, s, t, es[0]), x, es[1..]);
    }
  }

  /** After the first message, whatever memory held: a good trace, but for that message's bytes. */
  lemma FirstMessage(c: Config, s: Link, e: Event) returns (t: Trace)
    requires ValidConfig(c) && Timely(c, s, e)
    ensures GoodTrace(c, Step(c, s, e), t) && TraceStep(c, s, Blank(s), e) == Credit(t, e.numbytes)
  {
    OneMessageSettles(c, s, e);
    t := TraceStep(c, s, Blank(s), e.(numbytes := 0));
    if Resets(c, s, e) {
      t := Trace([Round(0, s.lastwaspeak, s.lastreset, e.sent, e.reset)],
                 Round(0, Step(c, s, e).lastwaspeak, e.reset, e.reset, e.reset));
      var t' := TraceStep(c, s, Blank(s), e);
      assert t'.rounds == [t'.rounds[0]] && t.rounds[1..] == [];
    } else {
      t := Trace([], Round(0, s.lastwaspeak, s.lastreset, e.sent, e.sent));
    }
  }

  /** Every run, from any memory contents: all its rounds are good, but for the bytes of one
      message in the first of them, and without exception if the link is settled. */
  lemma {:induction false} AnyRunGood(c: Config, s: Link, es: seq<Event>) returns (t: Trace, x: nat)
    requires ValidConfig(c) && TimelyRun(c, s, es)
    ensures TraceOf(c, s, es) == Credit(t, x) && GoodTrace(c, Run(c, s, es), t)
    ensures x <= if Settled(c, s) then 0 else BUFSIZE
  {
    if Settled(c, s) || es == [] {
      t, x := TraceOf(c, s, es), 0;
      if es != [] { RunGood(c, s, Blank(s), es); }
      if t.rounds != [] { TakeDrop(t.rounds, 1); }
    } else {
      x := es[0].numbytes;
      t := FirstMessage(c, s, es[0]);
      CreditRun(c, Step(c, s, es[0]), t, x, es[1..]);
      OneMessageSettles(c, s, es[0]);
      RunGood(c, Step(c, s, es[0]), t, es[1..]);
      t := Rounds(c, Step(c, s, es[0]), t, es[1..]);
    }
  }

  /** Any 2N consecutive completed rounds of any run take at least 2N round times and carry
      at most N pairs, even when normrate exceeds peakrate; the first rounds of a link whose
      memory was not settled may carry one message more. */
  lemma {:induction false} ConsecutiveRounds(c: Config, s: Link, es: seq<Event>, i: nat, n: nat)
    requires ValidConfig(c) && TimelyRun(c, s, es) && n > 0
    requires i + 2 * n <= |TraceOf(c, s, es).rounds|
    ensures var rs := TraceOf(c, s, es).rounds[i..i + 2 * n];
            && Bytes(rs) <= n * Pair(c) + (if i == 0 && !Settled(c, s) then BUFSIZE else 0)
            && rs[2 * n - 1].end - rs[0].start >= 2 * n * c.roundtime
  {
    var t, x := AnyRunGood(c, s, es);
    var rs := t.rounds[i..i + 2 * n];
    var next := GoodSlice(c, t.rounds, t.open.afterPeak, i, i + 2 * n);
    RoundsCarry(c, rs, next, n);
    RoundsLast(c, rs, next);
    CreditSlice(t, x, i, i + 2 * n);
  }

  lemma CreditSlice(t: Trace, x: nat, i: nat, j: nat)
    requires i < j <= |t.rounds|
    ensures |Credit(t, x).rounds| == |t.rounds|
    ensures var rs, qs := t.rounds[i..j], Credit(t, x).rounds[i..j];
            Bytes(qs) == Bytes(rs) + (if i == 0 then x else 0)
            && qs[0].start == rs[0].start && qs[j - i - 1].end == rs[j - i - 1].end
  {
    var rs, qs := t.rounds[i..j], Credit(t, x).rounds[i..j];
    assert qs[1..] == rs[1..];
    if i > 0 { assert qs == rs; }
  }

  /** An unsettled link that does: its first round carries more than the peak rate and one
      message, and two rounds carry more than a pair. */
  lemma UnsettledRun()
    ensures var c, s := Config(10, 100, 1000), Link(UINT - 512, false, 0);
            var es := [Event(512, 1, 1), Event(512, 2, 1000), Event(512, 1001, 2000)];
            var rs := TraceOf(c, s, es).rounds;
            ValidConfig(c) && TimelyRun(c, s, es) && !Settled(c, s) && |rs| == 2
            && rs[0].bytes > c.peakrate + BUFSIZE && Bytes(rs) > Pair(c)
  {
    var c, s := Config(10, 100, 1000), Link(UINT - 512, false, 0);
    var es := [Event(512, 1, 1), Event(512, 2, 1000), Event(512, 1001, 2000)];
    ThreeMessages(c, s, es);
    var rs := TraceOf(c, s, es).rounds;
    assert rs == [Round(1024, false, 0, 2, 1000), Round(512, true, 1000, 1001, 2000)];
    assert Bytes(rs) == 1024 + Bytes(rs[1..]) && rs[1..] == [rs[1]] && Bytes([rs[1]]) == 512 + Bytes([]);
  }

  /** A busy round does not keep the next one below the normal rate. */
  lemma BusyRounds()
    ensures var c, s := Config(10, 100, 1000), Link(0, false, 0);
            var es := [Event(50, 2000, 2000), Event(20, 2100, 3100)];
            var rs := TraceOf(c, s, es).rounds;
            ValidConfig(c) && TimelyRun(c, s, es) && Settled(c, s) && |rs| == 2
            && rs[0].bytes > c.normrate && rs[1].bytes > c.normrate
  {
    var c, s := Config(10, 100, 1000), Link(0, false, 0);
    var es := [Event(50, 2000, 2000), Event(20, 2100, 3100)];
    assert es[1..] == [es[1]] && es[1..][1..] == [];
    var s1 := Step(c, s, es[0]);
    assert s1 == Link(0, true, 2000);
    var s2 := Step(c, s1, es[1]);
    assert TimelyRun(c, s2, []) && TimelyRun(c, s1, es[1..]);
    var t1 := TraceStep(c, s, Blank(s), es[0]);
    var t2 := TraceStep(c, s1, t1, es[1]);
    assert Rounds(c, s2, t2, []) == t2 && Rounds(c, s1, t1, es[1..]) == t2;
  }

  lemma ThreeMessages(c: Config, s: Link, es: seq<Event>)
    requires |es| == 3
    ensures var s1 := Step(c, s, es[0]);
            var s2 := Step(c, s1, es[1]);
            var t1 := TraceStep(c, s, Blank(s), es[0]);
            TraceOf(c, s, es) == TraceStep(c, s2, TraceStep(c, s1, t1, es[1]), es[2])
            && (TimelyRun(c, s, es) <==> Timely(c, s, es[0]) && Timely(c, s1, es[1]) && Timely(c, s2, es[2]))
  {
    var r1, r2 := es[1..], es[1..][1..];
    assert r1[0] == es[1] && r2[0] == es[2] && r2[1..] == [];
    var s1 := Step(c, s, es[0]);
    var s2 := Step(c, s1, es[1]);
    var t1 := TraceStep(c, s, Blank(s), es[0]);
    var t2 := TraceStep(c, s1, t1, es[1]);
    assert Rounds(c, s2, t2, r2) == TraceStep(c, s2, t2, es[2]);
    assert Rounds(c, s1, t1, r1) == Rounds(c, s2, t2, r2);
    assert TimelyRun(c, s2, r2) <==> Timely(c, s2, es[2]);
    assert TimelyRun(c, s1, r1) <==> Timely(c, s1, es[1]) && TimelyRun(c, s2, r2);
  }

  // ----- what is let through -----

  /** A round closed early had carried too much: more than the peak rate, or, right after a peak,
      more than the normal rate. It is marked exactly if it was busy. */
  predicate ExactRound(c: Config, r: Round, marked: bool) {
    && (r.sent - r.start <= c.roundtime ==> r.bytes > c.peakrate || (r.afterPeak && r.bytes > c.normrate))
    && (marked <==> r.bytes > c.normrate || r.bytes > c.peakrate)
  }

  /** A round goes on only while it is within its limit and its time. */
  predicate ExactOpen(c: Config, s: Link, r: Round) {
    && r.bytes == s.lastsize <= c.peakrate && (r.afterPeak ==> r.bytes <= c.normrate)
    && r.afterPeak == s.lastwaspeak && r.start == s.lastreset
  }

  function Marked(t: Trace, k: nat): bool
    requires k < |t.rounds|
  {
    if k + 1 < |t.rounds| then t.rounds[k + 1].afterPeak else t.open.afterPeak
  }

  predicate ExactFrom(c: Config, t: Trace, from: nat) {
    && (forall k :: from <= k < |t.rounds| ==> ExactRound(c, t.rounds[k], Marked(t, k)))
    && t.open.end - t.open.start <= c.roundtime
  }

  lemma ExactStep(c: Config, s: Link, t: Trace, e: Event, from: nat)
    requires ValidConfig(c) && Timely(c, s, e) && Settled(c, s) && ExactOpen(c, s, t.open) && ExactFrom(c, t, from)
    ensures var t' := TraceStep(c, s, t, e);
            ExactOpen(c, Step(c, s, e), t'.open) && ExactFrom(c, t', from)
  {
    var t' := TraceStep(c, s, t, e);
    OneMessageSettles(c, s, e);
    forall k | from <= k < |t'.rounds| ensures ExactRound(c, t'.rounds[k], Marked(t', k)) {
      if k < |t.rounds| {
        assert t'.rounds[k] == t.rounds[k] && Marked(t', k) == Marked(t, k);
      }
    }
  }

  lemma {:induction false} ExactRun(c: Config, s: Link, t: Trace, es: seq<Event>, from: nat)
    requires ValidConfig(c) && TimelyRun(c, s, es) && Settled(c, s)
    requires ExactOpen(c, s, t.open) && ExactFrom(c, t, from)
    ensures ExactOpen(c, Run(c, s, es), Rounds(c, s, t, es).open) && ExactFrom(c, Rounds(c, s, t, es), from)
    decreases es
  {
    if es != [] {
      OneMessageSettles(c, s, es[0]);
      ExactStep(c, s, t, es[0], from);
      ExactRun(c, Step(c, s, es[0]), TraceStep(c, s, t, es[0]), es[1..], from);
    }
  }

  /**
   * What a settled link lets through, its first round counted with what it had carried before: a
   * round is closed early, and so its sender delayed, only if it carried more than the peak rate,
   * or more than the normal rate after a peak; it is marked as a peak exactly if it carried more
   * than one of the two rates; and no round goes on beyond its limit or its time.
   */
  lemma {:induction false} PeaksAllowed(c: Config, s: Link, es: seq<Event>)
    requires ValidConfig(c) && TimelyRun(c, s, es) && Settled(c, s)
    ensures var t := Credit(TraceOf(c, s, es), s.lastsize);
            ExactFrom(c, t, 0) && ExactOpen(c, Run(c, s, es), t.open)
  {
    CreditRun(c, s, Blank(s), s.lastsize, es);
    ExactRun(c, s, Credit(Blank(s), s.lastsize), es, 0);
  }

  /** From any memory contents all this holds of every round but the first. */
  lemma {:induction false} AnyPeaksAllowed(c: Config, s: Link, es: seq<Event>)
    requires ValidConfig(c) && TimelyRun(c, s, es)
    ensures var t := TraceOf(c, s, es);
            ExactFrom(c, t, 1) && (t.rounds != [] ==> ExactOpen(c, Run(c, s, es), t.open))
  {
    if es != [] {
      var e := es[0];
      var s1, t1 := Step(c, s, e), TraceStep(c, s, Blank(s), e);
      OneMessageSettles(c, s, e);
      if Resets(c, s, e) {
        ExactRun(c, s1, t1, es[1..], 1);
      } else {
        var z := Trace([], t1.open.(bytes := 0));
        CreditRun(c, s1, z, e.numbytes, es[1..]);
        CreditRun(c, s1, z, s1.lastsize, es[1..]);
        ExactRun(c, s1, Credit(z, s1.lastsize), es[1..], 0);
        SameBehind(c, Rounds(c, s1, z, es[1..]), s1.lastsize, e.numbytes);
      }
    }
  }

  lemma SameBehind(c: Config, t: Trace, x: nat, y: nat)
    requires ExactFrom(c, Credit(t, x), 0)
    ensures ExactFrom(c, Credit(t, y), 1)
    ensures t.rounds != [] ==> Credit(t, y).open == Credit(t, x).open
  {
    var a, b := Credit(t, x), Credit(t, y);
    forall k | 1 <= k < |b.rounds| ensures ExactRound(c, b.rounds[k], Marked(b, k)) {
      assert a.rounds[k] == b.rounds[k] == t.rounds[k] && Marked(a, k) == Marked(b, k);
    }
  }

  lemma GoodSlice(c: Config, rs: seq<Round>, after: bool, i: nat, j: nat) returns (next: bool)
    requires GoodRounds(c, rs, after) && i <= j <= |rs|
    ensures GoodRounds(c, rs[i..j], next)
  {
    next := if j < |rs| then rs[j].afterPeak else after;
    forall k | 0 <= k < j - i ensures GoodRound(c, rs[i..j], next, k) {
      assert GoodRound(c, rs, after, i + k);
    }
  }

  // ----- bytes over time -----

  function Total(es: seq<Event>): nat {
    if es == [] then 0 else es[0].numbytes + Total(es[1..])
  }

  lemma BytesAppend(a: seq<Round>, r: Round)
    ensures Bytes(a + [r]) == Bytes(a) + r.bytes
  {
    if a != [] {
      assert (a + [r])[1..] == a[1..] + [r];
      BytesAppend(a[1..], r);
    }
  }

  /** No byte is lost between the rounds of a trace. */
  lemma {:induction false} TraceCounts(c: Config, s: Link, t: Trace, es: seq<Event>)
    ensures var t' := Rounds(c, s, t, es);
            Bytes(t'.rounds) + t'.open.bytes == Bytes(t.rounds) + t.open.bytes + Total(es)
    decreases es
  {
    if es != [] {
      var t' := TraceStep(c, s, t, es[0]);
      if Resets(c, s, es[0]) {
        BytesAppend(t.rounds, t'.rounds[|t.rounds|]);
      }
      TraceCounts(c, Step(c, s, es[0]), t', es[1..]);
    }
  }

  predicate Within(es: seq<Event>, lo: int, hi: int) {
    forall i :: 0 <= i < |es| ==> lo <= es[i].sent <= hi
  }

  /** The first reset comes no earlier, and the last round with bytes in it starts
      no later, than the messages were sent. */
  predicate Spans(t: Trace, lo: int, hi: int) {
    && (t.rounds != [] ==> lo <= t.rounds[0].end && t.rounds[|t.rounds| - 1].start <= hi)
    && (t.open.bytes > 0 ==> t.open.start <= hi)
  }

  lemma {:induction false} RunSpans(c: Config, s: Link, t: Trace, es: seq<Event>, lo: int, hi: int)
    requires ValidConfig(c) && TimelyRun(c, s, es) && Settled(c, s) && GoodTrace(c, s, t)
    requires Within(es, lo, hi) && Spans(t, lo, hi)
    ensures Spans(Rounds(c, s, t, es), lo, hi)
    decreases es
  {
    if es != [] {
      OneMessageSettles(c, s, es[0]);
      TraceStepGood(c, s, t, es[0]);
      RunSpans(c, Step(c, s, es[0]), TraceStep(c, s, t, es[0]), es[1..], lo, hi);
    }
  }

  /** The bytes a link may pass within a stretch of time of the given length. */
  function Limit(c: Config, span: nat): nat
    requires c.roundtime > 0
  {
    ((span / c.roundtime + 3) / 2) * Pair(c)
  }

  lemma Monotone(a: nat, b: nat, m: nat)
    requires a <= b
    ensures a * m <= b * m
  {
  }

  lemma Quotients(n: nat, d: nat, span: nat)
    requires d > 0 && n * d <= span
    ensures n <= span / d
  {
    var q := span / d;
    assert span < q * d + d == (q + 1) * d;
    Cancel(n, q + 1, d);
  }

  lemma Cancel(a: nat, b: nat, d: nat)
    requires a * d < b * d
    ensures a < b
  {
    if b <= a { Monotone(b, a, d); }
  }

  lemma {:induction false} SettledLimit(c: Config, s: Link, es: seq<Event>, lo: int, hi: int)
    requires ValidConfig(c) && TimelyRun(c, s, es) && Settled(c, s)
    requires lo <= hi && Within(es, lo, hi)
    ensures Total(es) <= Limit(c, hi - lo)
  {
    var t0 := Blank(s);
    RunGood(c, s, t0, es);
    RunSpans(c, s, t0, es, lo, hi);
    TraceCounts(c, s, t0, es);
    TraceLimit(c, Run(c, s, es), Rounds(c, s, t0, es), lo, hi);
  }

  /** The unfinished round, closed as early as a round can end, is one more good round. */
  lemma ClosedTrace(c: Config, s: Link, t: Trace, rs: seq<Round>)
    requires GoodTrace(c, s, t) && Settled(c, s)
    requires rs == t.rounds + [t.open.(end := t.open.start + c.roundtime)]
    ensures GoodRounds(c, rs, true)
  {
    forall k | 0 <= k < |rs| ensures GoodRound(c, rs, true, k) {
      if k < |t.rounds| {
        assert GoodRound(c, t.rounds, t.open.afterPeak, k);
      }
    }
  }

  lemma TraceLimit(c: Config, s: Link, t: Trace, lo: int, hi: int)
    requires ValidConfig(c) && GoodTrace(c, s, t) && Settled(c, s) && Spans(t, lo, hi) && lo <= hi
    ensures Bytes(t.rounds) + t.open.bytes <= Limit(c, hi - lo)
  {
    var last := t.open.(end := t.open.start + c.roundtime);
    var rs := t.rounds + [last];
    ClosedTrace(c, s, t, rs);
    RoundsWithin(c, s, t, rs, lo, hi);
    var n := ((hi - lo) / c.roundtime + 3) / 2;
    if t.open.bytes > 0 {
      BytesAppend(t.rounds, last);
      RoundsCarry(c, rs, true, n);
    } else {
      RoundsCarry(c, t.rounds, t.open.afterPeak, n);
    }
  }

  /** All rounds but two are shorter than the span. */
  lemma RoundsWithin(c: Config, s: Link, t: Trace, rs: seq<Round>, lo: int, hi: int)
    requires ValidConfig(c) && GoodTrace(c, s, t) && Spans(t, lo, hi) && lo <= hi
    requires GoodRounds(c, rs, true) && rs == t.rounds + [t.open.(end := t.open.start + c.roundtime)]
    ensures |t.rounds| + (if t.open.bytes > 0 then 1 else 0) <= (hi - lo) / c.roundtime + 2
  {
    var n := if t.open.bytes > 0 then |t.rounds| + 1 else |t.rounds|;
    if n > 2 {
      InnerRounds(c, rs, n - 2, lo, hi);
      Quotients(n - 2, c.roundtime, hi - lo);
    } else {
      Quotients(0, c.roundtime, hi - lo);
    }
  }

  /** Rounds strictly between the first and the last lie within the span. */
  lemma {:induction false} InnerRounds(c: Config, rs: seq<Round>, n: nat, lo: int, hi: int)
    requires GoodRounds(c, rs, true) && 1 <= n && n + 1 < |rs|
    requires lo <= rs[0].end && rs[n + 1].start <= hi
    ensures n * c.roundtime <= hi - lo
  {
    var mid, next := rs[1..n + 1], rs[n + 1].afterPeak;
    assert GoodRound(c, rs, true, 0) && GoodRound(c, rs, true, n);
    forall k | 0 <= k < |mid| ensures GoodRound(c, mid, next, k) {
      assert GoodRound(c, rs, true, k + 1);
    }
    RoundsLast(c, mid, next);
  }

  /** The rate bound for any run from any memory contents: whatever is sent within
      a span of time is within the limit, plus the one message that settles the link. */
  lemma {:induction false} AnyRunLimit(c: Config, s: Link, es: seq<Event>, lo: int, hi: int)
    requires ValidConfig(c) && TimelyRun(c, s, es)
    requires lo <= hi && Within(es, lo, hi)
    ensures Total(es) <= Limit(c, hi - lo) + BUFSIZE
  {
    if es != [] {
      OneMessageSettles(c, s, es[0]);
      SettledLimit(c, Step(c, s, es[0]), es[1..], lo, hi);
    }
  }

  lemma {:induction false} RunSplit(c: Config, s: Link, a: seq<Event>, b: seq<Event>)
    requires TimelyRun(c, s, a + b)
    ensures TimelyRun(c, s, a) && TimelyRun(c, Run(c, s, a), b)
    ensures Run(c, s, a + b) == Run(c, Run(c, s, a), b)
    decreases a
  {
    if a == [] {
      assert a + b == b;
    } else {
      assert (a + b)[0] == a[0] && (a + b)[1..] == a[1..] + b;
      RunSplit(c, Step(c, s, a[0]), a[1..], b);
    }
  }

  /** Any window of a run: messages i to j obey the limit for the time they span. */
  lemma {:induction false} AnyWindow(c: Config, s: Link, es: seq<Event>, i: nat, j: nat, lo: int, hi: int)
    requires ValidConfig(c) && TimelyRun(c, s, es) && i <= j <= |es|
    requires lo <= hi && Within(es[i..j], lo, hi)
    ensures Total(es[i..j]) <= Limit(c, hi - lo) + (if i == 0 then BUFSIZE else 0)
  {
    var rest := es[i..j] + es[j..];
    assert es == es[..i] + rest;
    RunSplit(c, s, es[..i], rest);
    RunSplit(c, Run(c, s, es[..i]), es[i..j], es[j..]);
    if i == 0 {
      assert es[..0] == [];
      AnyRunLimit(c, s, es[i..j], lo, hi);
    } else {
      SettledAfter(c, s, es[..i]);
      SettledLimit(c, Run(c, s, es[..i]), es[i..j], lo, hi);
    }
  }

  lemma {:induction false} SettledAfter(c: Config, s: Link, es: seq<Event>)
    requires ValidConfig(c) && TimelyRun(c, s, es) && es != []
    ensures Settled(c, Run(c, s, es))
    decreases es
  {
    OneMessageSettles(c, s, es[0]);
    if |es| == 1 {
      assert es[1..] == [];
    } else {
      SettledAfter(c, Step(c, s, es[0]), es[1..]);
    }
  }

  // ----- many links, one out-socket -----

  const MAX_SOCKETS: nat := 128

  /** A message handled by one of the links, in the order of the shared out-socket. */
  datatype Shared = Shared(link: nat, e: Event)

  function SharedTotal(run: seq<Shared>): nat {
    if run == [] then 0 else run[0].e.numbytes + SharedTotal(run[1..])
  }

  /** The messages of one link. */
  function Project(run: seq<Shared>, i: nat): seq<Event> {
    if run == [] then []
    else (if run[0].link == i then [run[0].e] else []) + Project(run[1..], i)
  }

  /** The threads share nothing but the out-socket: a message changes its own link only. */
  function Interleaved(cs: seq<Config>, links: seq<Link>, run: seq<Shared>): seq<Link>
    requires |cs| == |links| && forall k :: 0 <= k < |run| ==> run[k].link < |links|
    decreases run
  {
    if run == [] then links
    else
      var i := run[0].link;
      Interleaved(cs, links[i := Step(cs[i], links[i], run[0].e)], run[1..])
  }

  predicate TimelyShared(cs: seq<Config>, links: seq<Link>, run: seq<Shared>)
    requires |cs| == |links|
    decreases run
  {
    run != [] ==>
      var i := run[0].link;
      i < |links| && Timely(cs[i], links[i], run[0].e)
      && TimelyShared(cs, links[i := Step(cs[i], links[i], run[0].e)], run[1..])
  }

  /** Seen from one link, any interleaving is a run of its own. */
  lemma {:induction false} ProjectionRuns(cs: seq<Config>, links: seq<Link>, run: seq<Shared>, i: nat)
    requires |cs| == |links| && i < |links| && TimelyShared(cs, links, run)
    ensures forall k :: 0 <= k < |run| ==> run[k].link < |links|
    ensures TimelyRun(cs[i], links[i], Project(run, i))
    ensures |Interleaved(cs, links, run)| == |links|
    ensures Interleaved(cs, links, run)[i] == Run(cs[i], links[i], Project(run, i))
    decreases run
  {
    if run != [] {
      var j := run[0].link;
      var next := links[j := Step(cs[j], links[j], run[0].e)];
      ProjectionRuns(cs, next, run[1..], i);
      assert forall k :: 0 < k < |run| ==> run[k] == run[1..][k - 1];
      if j == i {
        assert Project(run, i)[0] == run[0].e && Project(run, i)[1..] == Project(run[1..], i);
      } else {
        assert Project(run, i) == Project(run[1..], i);
      }
    }
  }

  function SumOver(n: nat, f: nat -> nat): nat {
    if n == 0 then 0 else SumOver(n - 1, f) + f(n - 1)
  }

  lemma {:induction false} SumZero(n: nat, f: nat -> nat)
    requires forall i :: 0 <= i < n ==> f(i) == 0
    ensures SumOver(n, f) == 0
  {
    if n > 0 { SumZero(n - 1, f); }
  }

  lemma {:induction false} SumOneMore(n: nat, f: nat -> nat, g: nat -> nat, j: nat, x: nat)
    requires forall i :: 0 <= i < n ==> g(i) == f(i) + (if i == j then x else 0)
    ensures SumOver(n, g) == SumOver(n, f) + (if j < n then x else 0)
  {
    if n > 0 { SumOneMore(n - 1, f, g, j, x); }
  }

  lemma {:induction false} SumBelow(n: nat, f: nat -> nat, g: nat -> nat)
    requires forall i :: 0 <= i < n ==> f(i) <= g(i)
    ensures SumOver(n, f) <= SumOver(n, g)
  {
    if n > 0 { SumBelow(n - 1, f, g); }
  }

  /** The out-socket carries exactly what the links handled. */
  lemma {:induction false} SharedIsSum(run: seq<Shared>, n: nat)
    requires forall k :: 0 <= k < |run| ==> run[k].link < n
    ensures SharedTotal(run) == SumOver(n, i => Total(Project(run, i)))
    decreases run
  {
    var f := (i: nat) => Total(Project(run, i));
    if run == [] {
      SumZero(n, f);
    } else {
      var g := (i: nat) => Total(Project(run[1..], i));
      SharedIsSum(run[1..], n);
      forall i: nat | i < n ensures f(i) == g(i) + (if i == run[0].link then run[0].e.numbytes else 0) {
        if run[0].link == i {
          assert Project(run, i)[1..] == Project(run[1..], i);
        } else {
          assert Project(run, i) == Project(run[1..], i);
        }
      }
      SumOneMore(n, g, f, run[0].link, run[0].e.numbytes);
    }
  }

  lemma {:induction false} ProjectWithin(run: seq<Shared>, i: nat, lo: int, hi: int)
    requires forall k :: 0 <= k < |run| ==> lo <= run[k].e.sent <= hi
    ensures Within(Project(run, i), lo, hi)
    decreases run
  {
    if run != [] { ProjectWithin(run[1..], i, lo, hi); }
  }

  /** What link i may add to the out-socket within a span of time. */
  function LinkLimit(cs: seq<Config>, i: nat, span: nat): nat {
    if i < |cs| && cs[i].roundtime > 0 then Limit(cs[i], span) + BUFSIZE else 0
  }

  /** Under any interleaving, from any memory contents, the shared out-socket carries
      at most the sum of the limits of the links in any span of time. */
  lemma {:induction false} SharedLimit(cs: seq<Config>, links: seq<Link>, run: seq<Shared>, lo: int, hi: int)
    requires |cs| == |links| <= MAX_SOCKETS
    requires forall i :: 0 <= i < |cs| ==> ValidConfig(cs[i])
    requires TimelyShared(cs, links, run)
    requires lo <= hi && forall k :: 0 <= k < |run| ==> lo <= run[k].e.sent <= hi
    ensures SharedTotal(run) <= SumOver(|cs|, i => LinkLimit(cs, i, hi - lo))
  {
    var f := (i: nat) => Total(Project(run, i));
    var g := (i: nat) => LinkLimit(cs, i, hi - lo);
    forall i: nat | i < |cs| ensures f(i) <= g(i) {
      ProjectionRuns(cs, links, run, i);
      ProjectWithin(run, i, lo, hi);
      AnyRunLimit(cs[i], links[i], Project(run, i), lo, hi);
    }
    if |cs| > 0 {
      ProjectionRuns(cs, links, run, 0);
    }
    SharedIsSum(run, |cs|);
    SumBelow(|cs|, f, g);
  }
}
