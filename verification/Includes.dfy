/** Recursive inclusion of configuration sections while a jail is set up. */
module Includes {
  import opened CStrings
  import opened Seqs

  /** What each section includes; the rank witnesses that no section includes itself,
      however indirectly. */
  datatype Config = Config(includes: string -> seq<string>, rank: string -> nat)

  ghost predicate Acyclic(g: Config) {
    forall s, i :: 0 <= i < |g.includes(s)| ==> g.rank(g.includes(s)[i]) < g.rank(s)
  }

  /** The sections included so far, and every section processed, in order. */
  datatype State = State(did: seq<string>, log: seq<string>)

  // ----- the recursion as a function -----

  ghost function Handle(g: Config, st: State, section: string): State
    requires Acyclic(g)
    decreases g.rank(section)
  {
    var inner := HandleAll(g, st, g.includes(section), g.rank(section));
    inner.(log := inner.log + [section])
  }

  ghost function HandleAll(g: Config, st: State, sections: seq<string>, bound: nat): State
    requires Acyclic(g) && forall i :: 0 <= i < |sections| ==> g.rank(sections[i]) < bound
    decreases bound, |sections|
  {
    if sections == [] then st
    else
      var tmp := sections[0];
      var next := if tmp in st.did then st
                  else var inner := Handle(g, st, tmp); inner.(did := inner.did + [tmp]);
      HandleAll(g, next, sections[1..], bound)
  }

  /** All sections named on the command line, with one jk_init object. */
  ghost function HandleArgs(g: Config, st: State, args: seq<string>): State
    requires Acyclic(g)
    decreases args
  {
    if args == [] then st else HandleArgs(g, Handle(g, st, args[0]), args[1..])
  }

  function Existing(args: seq<string>, known: string -> bool): (r: seq<string>)
    ensures forall s :: s in r <==> s in args && known(s)
  {
    if args == [] then []
    else
      var rest := Existing(args[1..], known);
      if known(args[0]) then [args[0]] + rest else rest
  }

  // ----- inclusions without a cycle in reach -----

  /** No chain of inclusions from the section has more than n sections. */
  predicate Shallow(includes: string -> seq<string>, section: string, n: nat)
    decreases n
  {
    n > 0 && forall i :: 0 <= i < |includes(section)| ==> Shallow(includes, includes(section)[i], n - 1)
  }

  ghost predicate Grounded(includes: string -> seq<string>, section: string) {
    exists n: nat :: Shallow(includes, section, n)
  }

  lemma {:induction false} ShallowMore(includes: string -> seq<string>, section: string, n: nat, m: nat)
    requires Shallow(includes, section, n) && n <= m
    ensures Shallow(includes, section, m)
    decreases n
  {
    forall i | 0 <= i < |includes(section)| ensures Shallow(includes, includes(section)[i], m - 1) {
      ShallowMore(includes, includes(section)[i], n - 1, m - 1);
    }
  }

  lemma ShallowBelow(includes: string -> seq<string>, section: string, i: nat)
    requires Grounded(includes, section) && i < |includes(section)|
    ensures Grounded(includes, includes(section)[i])
    ensures Height(includes, includes(section)[i]) < Height(includes, section)
  {
    var h := Height(includes, section);
    assert Shallow(includes, includes(section)[i], h - 1);
  }

  /** The number of sections in the longest chain. */
  ghost function Height(includes: string -> seq<string>, section: string): (h: nat)
    requires Grounded(includes, section)
    ensures Shallow(includes, section, h) && forall n: nat :: Shallow(includes, section, n) ==> h <= n
  {
    var n: nat :| Shallow(includes, section, n);
    Least(includes, section, n)
  }

  ghost function Least(includes: string -> seq<string>, section: string, n: nat): (h: nat)
    requires Shallow(includes, section, n)
    ensures Shallow(includes, section, h) && forall m: nat :: Shallow(includes, section, m) ==> h <= m
    decreases n
  {
    if Shallow(includes, section, n - 1) then Least(includes, section, n - 1)
    else
      NoLess(includes, section, n);
      n
  }

  lemma NoLess(includes: string -> seq<string>, section: string, n: nat)
    requires Shallow(includes, section, n) && !Shallow(includes, section, n - 1)
    ensures forall m: nat :: Shallow(includes, section, m) ==> n <= m
  {
    forall m: nat | Shallow(includes, section, m) ensures n <= m {
      if m < n { ShallowMore(includes, section, m, n - 1); }
    }
  }

  /** The inclusions of the grounded sections, ranked by their longest chains. */
  ghost function Tame(includes: string -> seq<string>): Config {
    Config(s => if Grounded(includes, s) then includes(s) else [],
           s => if Grounded(includes, s) then Height(includes, s) else 0)
  }

  lemma TameIsAcyclic(includes: string -> seq<string>)
    ensures Acyclic(Tame(includes))
  {
    var g := Tame(includes);
    forall s, i | 0 <= i < |g.includes(s)| ensures g.rank(g.includes(s)[i]) < g.rank(s) {
      if Grounded(includes, s) { ShallowBelow(includes, s, i); }
    }
  }

  lemma TameBelow(includes: string -> seq<string>, section: string)
    requires Grounded(includes, section)
    ensures var g := Tame(includes);
            g.includes(section) == includes(section) && g.rank(section) == Height(includes, section)
            && forall i :: 0 <= i < |includes(section)| ==>
                 Grounded(includes, includes(section)[i]) && g.rank(includes(section)[i]) < g.rank(section)
  {
    forall i | 0 <= i < |includes(section)|
      ensures Grounded(includes, includes(section)[i])
      ensures Height(includes, includes(section)[i]) < Height(includes, section)
    {
      ShallowBelow(includes, section, i);
    }
  }

  lemma ExistingStep(g: Config, st: State, args: seq<string>, i: nat, known: string -> bool)
    requires Acyclic(g) && i < |args|
    ensures HandleArgs(g, st, Existing(args[i..], known))
            == HandleArgs(g, if known(args[i]) then Handle(g, st, args[i]) else st, Existing(args[i + 1..], known))
  {
    var more := Existing(args[i + 1..], known);
    assert args[i..][0] == args[i] && args[i..][1..] == args[i + 1..];
    assert ([args[i]] + more)[1..] == more;
  }

  class JkInit {
    const includes: string -> seq<string>
    var didsections: seq<string>
    var processed: seq<string>

    constructor (includes: string -> seq<string>)
      ensures this.includes == includes && didsections == [] && processed == []
    {
      this.includes, didsections, processed := includes, [], [];
    }

    ghost function Now(): State
      reads this
    {
      State(didsections, processed)
    }

    /** Needs every chain of inclusions from the section to end. */
    method HandleCfgSection(section: string)
      requires Grounded(includes, section)
      modifies this
      ensures Acyclic(Tame(includes)) && Now() == Handle(Tame(includes), old(Now()), section)
      decreases Height(includes, section)
    {
      TameIsAcyclic(includes);
      ghost var g := Tame(includes);
      TameBelow(includes, section);
      var sections := includes(section);
      var i := 0;
      assert sections[0..] == sections;
      while i < |sections|
        invariant i <= |sections|
        invariant HandleAll(g, Now(), sections[i..], g.rank(section))
                  == HandleAll(g, old(Now()), sections, g.rank(section))
      {
        var tmp := sections[i];
        assert sections[i..][0] == tmp && sections[i..][1..] == sections[i + 1..];
        if tmp !in didsections {
          ShallowBelow(includes, section, i);
          HandleCfgSection(tmp);
          didsections := didsections + [tmp];
        }
        i := i + 1;
      }
      processed := processed + [section];
    }

    /** The loop over the command line: a name the configuration does not have is only reported. */
    method ActivateConfig(args: seq<string>, known: string -> bool)
      requires forall s :: s in args && known(s) ==> Grounded(includes, s)
      modifies this
      ensures Acyclic(Tame(includes)) && Now() == HandleArgs(Tame(includes), old(Now()), Existing(args, known))
    {
      TameIsAcyclic(includes);
      ghost var g := Tame(includes);
      var i := 0;
      assert args[0..] == args;
      while i < |args|
        invariant i <= |args|
        invariant HandleArgs(g, Now(), Existing(args[i..], known)) == HandleArgs(g, old(Now()), Existing(args, known))
      {
        ExistingStep(g, Now(), args, i, known);
        if known(args[i]) {
          HandleCfgSection(args[i]);
        }
        i := i + 1;
      }
    }
  }

  // ----- what every call keeps and adds -----

  /** t is reached from s by one inclusion or more. */
  ghost predicate Reach(g: Config, s: string, t: string)
    requires Acyclic(g)
    decreases g.rank(s)
  {
    exists i :: 0 <= i < |g.includes(s)| && (g.includes(s)[i] == t || Reach(g, g.includes(s)[i], t))
  }

  lemma {:induction false} ReachIsLower(g: Config, s: string, t: string)
    requires Acyclic(g) && Reach(g, s, t)
    ensures g.rank(t) < g.rank(s)
    decreases g.rank(s)
  {
    var i :| 0 <= i < |g.includes(s)| && (g.includes(s)[i] == t || Reach(g, g.includes(s)[i], t));
    if g.includes(s)[i] != t { ReachIsLower(g, g.includes(s)[i], t); }
  }

  ghost predicate ReachAny(g: Config, ss: seq<string>, t: string)
    requires Acyclic(g)
  {
    exists i :: 0 <= i < |ss| && (ss[i] == t || Reach(g, ss[i], t))
  }

  /** Every section stands behind all the sections it includes. */
  ghost predicate Ordered(g: Config, log: seq<string>) {
    forall p, i :: 0 <= p < |log| && 0 <= i < |g.includes(log[p])| ==> g.includes(log[p])[i] in log[..p]
  }

  ghost predicate Good(g: Config, st: State) {
    && (forall x :: x in st.did ==> x in st.log)
    && (forall x, i :: x in st.did && 0 <= i < |g.includes(x)| ==> g.includes(x)[i] in st.did)
    && Ordered(g, st.log)
  }

  function Count(xs: seq<string>, x: string): nat {
    multiset(xs)[x]
  }

  function One(b: bool): nat { if b then 1 else 0 }

  /** From st to st', each newly included section was processed once for that, and
      besides x was processed as often as it occurs in `own`. */
  ghost predicate Adds(st: State, st': State, x: string, own: seq<string>) {
    Count(st'.log, x) + One(x in st.did) == Count(st.log, x) + One(x in st'.did) + Count(own, x)
  }

  lemma AddsThen(a: State, b: State, c: State, own: seq<string>, more: seq<string>)
    requires forall x :: Adds(a, b, x, own)
    requires forall x :: Adds(b, c, x, more)
    ensures forall x :: Adds(a, c, x, own + more)
  {
    forall x ensures Adds(a, c, x, own + more) {
      assert Adds(a, b, x, own) && Adds(b, c, x, more);
    }
  }

  lemma AddsTwice(a: State, b: State, c: State)
    requires forall x :: Adds(a, b, x, [])
    requires forall x :: Adds(b, c, x, [])
    ensures forall x :: Adds(a, c, x, [])
  {
    AddsThen(a, b, c, [], []);
    var none: seq<string> := [];
    assert none + none == none;
  }

  lemma AddsLog(st: State, y: string)
    ensures forall x :: Adds(st, st.(log := st.log + [y]), x, [y])
  {
  }

  /** What is included, with everything it includes in turn, stays closed. */
  lemma {:induction false} ClosedUnderReach(g: Config, st: State, s: string, t: string)
    requires Acyclic(g) && Good(g, st) && Reach(g, s, t)
    requires forall i :: 0 <= i < |g.includes(s)| ==> g.includes(s)[i] in st.did
    ensures t in st.did
    decreases g.rank(s)
  {
    var i :| 0 <= i < |g.includes(s)| && (g.includes(s)[i] == t || Reach(g, g.includes(s)[i], t));
    var u := g.includes(s)[i];
    assert u in st.did;
    if u != t { ClosedUnderReach(g, st, u, t); }
  }

  lemma {:induction false} HandleGood(g: Config, st: State, section: string)
    requires Acyclic(g) && Good(g, st)
    ensures var st' := Handle(g, st, section);
            && Good(g, st') && st.log <= st'.log
            && (forall x :: x in st'.did <==> x in st.did || Reach(g, section, x))
            && (forall x :: Adds(st, st', x, [section]))
    decreases g.rank(section) + 1, 0, 0
  {
    var ss, bound := g.includes(section), g.rank(section);
    var inner := HandleAll(g, st, ss, bound);
    HandleAllGood(g, st, ss, bound);
    forall x ensures ReachAny(g, ss, x) <==> Reach(g, section, x) {
    }
    forall i | 0 <= i < |ss| ensures ss[i] in inner.log {
      assert ReachAny(g, ss, ss[i]);
    }
    OrderedSnoc(g, inner.log, section);
    AddsLog(inner, section);
    AddsThen(st, inner, Handle(g, st, section), [], [section]);
    assert [] + [section] == [section];
  }

  lemma OrderedSnoc(g: Config, log: seq<string>, s: string)
    requires Ordered(g, log) && forall i :: 0 <= i < |g.includes(s)| ==> g.includes(s)[i] in log
    ensures Ordered(g, log + [s])
  {
    var more := log + [s];
    forall p, i | 0 <= p < |more| && 0 <= i < |g.includes(more[p])| ensures g.includes(more[p])[i] in more[..p] {
      if p < |log| {
        assert more[p] == log[p] && more[..p] == log[..p];
      } else {
        assert more[..p] == log;
      }
    }
  }

  lemma {:induction false} HandleAllGood(g: Config, st: State, ss: seq<string>, bound: nat)
    requires Acyclic(g) && Good(g, st) && forall i :: 0 <= i < |ss| ==> g.rank(ss[i]) < bound
    ensures var st' := HandleAll(g, st, ss, bound);
            && Good(g, st') && st.log <= st'.log
            && (forall x :: x in st'.did <==> x in st.did || ReachAny(g, ss, x))
            && (forall x :: Adds(st, st', x, []))
    decreases bound, 2, |ss|
  {
    if ss != [] {
      var tmp := ss[0];
      var next := IncludeOne(g, st, tmp);
      HandleAllGood(g, next, ss[1..], bound);
      var st' := HandleAll(g, next, ss[1..], bound);
      assert st' == HandleAll(g, st, ss, bound);
      forall x ensures x in st'.did <==> x in st.did || ReachAny(g, ss, x) {
        ReachAnyStep(g, ss, x);
      }
      AddsTwice(st, next, st');
    }
  }

  lemma ReachAnyStep(g: Config, ss: seq<string>, x: string)
    requires Acyclic(g) && ss != []
    ensures ReachAny(g, ss, x) <==> x == ss[0] || Reach(g, ss[0], x) || ReachAny(g, ss[1..], x)
  {
    if ReachAny(g, ss, x) {
      var i :| 0 <= i < |ss| && (ss[i] == x || Reach(g, ss[i], x));
      assert i > 0 ==> ss[1..][i - 1] == ss[i];
    }
    if ReachAny(g, ss[1..], x) {
      var i :| 0 <= i < |ss[1..]| && (ss[1..][i] == x || Reach(g, ss[1..][i], x));
      assert ss[i + 1] == ss[1..][i];
    }
  }

  /** One turn of the inclusion loop. */
  lemma {:induction false} IncludeOne(g: Config, st: State, tmp: string) returns (next: State)
    requires Acyclic(g) && Good(g, st)
    ensures next == if tmp in st.did then st else var inner := Handle(g, st, tmp); inner.(did := inner.did + [tmp])
    ensures Good(g, next) && st.log <= next.log
    ensures forall x :: x in next.did <==> x in st.did || x == tmp || Reach(g, tmp, x)
    ensures forall x :: Adds(st, next, x, [])
    decreases g.rank(tmp) + 1, 1, 0
  {
    if tmp in st.did {
      next := st;
      forall x | Reach(g, tmp, x) ensures x in st.did {
        ClosedUnderReach(g, st, tmp, x);
      }
    } else {
      HandleGood(g, st, tmp);
      var inner := Handle(g, st, tmp);
      next := inner.(did := inner.did + [tmp]);
      if Reach(g, tmp, tmp) { ReachIsLower(g, tmp, tmp); }
      GoodIncluded(g, inner, tmp);
      AddsIncluded(st, inner, tmp);
    }
  }

  /** A section is noted as included once all it includes is. */
  lemma GoodIncluded(g: Config, inner: State, tmp: string)
    requires Acyclic(g) && Good(g, inner) && tmp in inner.log
    requires forall x :: Reach(g, tmp, x) ==> x in inner.did
    ensures Good(g, inner.(did := inner.did + [tmp]))
  {
    assert forall i :: 0 <= i < |g.includes(tmp)| ==> Reach(g, tmp, g.includes(tmp)[i]);
  }

  lemma AddsIncluded(st: State, inner: State, tmp: string)
    requires tmp !in inner.did && tmp !in st.did && forall x :: Adds(st, inner, x, [tmp])
    ensures forall x :: Adds(st, inner.(did := inner.did + [tmp]), x, [])
  {
    var next := inner.(did := inner.did + [tmp]);
    forall x ensures Adds(st, next, x, []) {
      assert Adds(st, inner, x, [tmp]);
      assert x in next.did <==> x in inner.did || x == tmp;
    }
  }

  // ----- the main results -----

  lemma {:induction false} ArgsGood(g: Config, st: State, args: seq<string>)
    requires Acyclic(g) && Good(g, st)
    ensures var st' := HandleArgs(g, st, args);
            && Good(g, st')
            && (forall x :: x in st'.did <==> x in st.did || exists i :: 0 <= i < |args| && Reach(g, args[i], x))
            && (forall x :: Adds(st, st', x, args))
    decreases args
  {
    if args == [] {
    } else {
      var next, rest := Handle(g, st, args[0]), args[1..];
      HandleGood(g, st, args[0]);
      ArgsGood(g, next, rest);
      AddsThen(st, next, HandleArgs(g, st, args), [args[0]], rest);
      assert [args[0]] + rest == args;
      forall x ensures (exists i :: 0 <= i < |args| && Reach(g, args[i], x))
                       <==> Reach(g, args[0], x) || exists i :: 0 <= i < |rest| && Reach(g, rest[i], x) {
        if i :| 0 <= i < |rest| && Reach(g, rest[i], x) {
          assert args[i + 1] == rest[i];
        }
        if i :| 0 <= i < |args| && Reach(g, args[i], x) {
          assert i > 0 ==> rest[i - 1] == args[i];
        }
      }
    }
  }

  /** Order: wherever a section was processed, everything it includes, directly or
      not, had been processed before. */
  lemma {:induction false} IncludedFirst(g: Config, log: seq<string>, p: nat, t: string)
    requires Acyclic(g) && Ordered(g, log) && p < |log| && Reach(g, log[p], t)
    ensures t in log[..p]
    decreases p
  {
    var s := log[p];
    var i :| 0 <= i < |g.includes(s)| && (g.includes(s)[i] == t || Reach(g, g.includes(s)[i], t));
    var u := g.includes(s)[i];
    assert u in log[..p];
    var k :| 0 <= k < p && log[..p][k] == u;
    if u != t {
      IncludedFirst(g, log, k, t);
      assert log[..k] <= log[..p];
    }
  }

  /** For every run from the start: inclusions come first; and a section is processed
      once for each time it is named, and once more if some named section includes it,
      so exactly once when it is reached by inclusion only. */
  lemma {:induction false} WholeRun(g: Config, args: seq<string>)
    requires Acyclic(g)
    ensures var log := HandleArgs(g, State([], []), args).log;
            && (forall p, t :: 0 <= p < |log| && Reach(g, log[p], t) ==> t in log[..p])
            && (forall x :: Count(log, x) ==
                  Count(args, x) + One(exists i :: 0 <= i < |args| && Reach(g, args[i], x)))
  {
    var st := State([], []);
    ArgsGood(g, st, args);
    var st' := HandleArgs(g, st, args);
    forall p, t | 0 <= p < |st'.log| && Reach(g, st'.log[p], t) ensures t in st'.log[..p] {
      IncludedFirst(g, st'.log, p, t);
    }
    forall x ensures Count(st'.log, x) == Count(args, x) + One(exists i :: 0 <= i < |args| && Reach(g, args[i], x)) {
      assert Adds(st, st', x, args);
    }
  }

  // ----- in which order -----

  function Flat(parts: seq<seq<string>>): seq<string> {
    if parts == [] then [] else parts[0] + Flat(parts[1..])
  }

  /** What one call adds to the log: sections reached from this one, and it comes last. */
  ghost predicate PartOf(g: Config, section: string, part: seq<string>)
    requires Acyclic(g)
  {
    && part != [] && part[|part| - 1] == section
    && forall k :: 0 <= k < |part| - 1 ==> Reach(g, section, part[k])
  }

  lemma HandlePart(g: Config, st: State, section: string) returns (part: seq<string>)
    requires Acyclic(g) && Good(g, st)
    ensures Handle(g, st, section).log == st.log + part && PartOf(g, section, part)
  {
    HandleGood(g, st, section);
    HandleAllGood(g, st, g.includes(section), g.rank(section));
    var st' := Handle(g, st, section);
    var inner := HandleAll(g, st, g.includes(section), g.rank(section)).log;
    var before := inner[|st.log|..];
    part := before + [section];
    InnerFirst(st.log, inner, section);
    forall k | 0 <= k < |before| ensures Reach(g, section, part[k]) {
      assert Adds(st, st', before[k], [section]);
      Additional(st, st', section, before, before[k]);
    }
  }

  lemma InnerFirst(front: seq<string>, inner: seq<string>, section: string)
    requires front <= inner
    ensures inner + [section] == front + (inner[|front|..] + [section])
  {
  }

  /** What is logged besides the section itself is newly included. */
  lemma Additional(st: State, st': State, section: string, before: seq<string>, x: string)
    requires st'.log == st.log + (before + [section]) && x in before && Adds(st, st', x, [section])
    ensures x in st'.did && x !in st.did
  {
    assert Count(before, x) > 0;
    assert Count(st'.log, x) == Count(st.log, x) + (Count(before, x) + Count([section], x));
  }

  /** Part i is empty if section i was included before, or with an earlier one of the list. */
  ghost predicate PartsOf(g: Config, did: seq<string>, ss: seq<string>, parts: seq<seq<string>>)
    requires Acyclic(g)
  {
    && |parts| == |ss|
    && forall i :: 0 <= i < |ss| ==>
         if ss[i] in did || ReachAny(g, ss[..i], ss[i]) then parts[i] == [] else PartOf(g, ss[i], parts[i])
  }

  /** The sections that one section includes are processed in the order listed, each behind what it
      includes in turn; one that is there already, or came with an earlier one, is passed. */
  lemma {:induction false} SiblingsInOrder(g: Config, st: State, ss: seq<string>, bound: nat)
      returns (parts: seq<seq<string>>)
    requires Acyclic(g) && Good(g, st) && forall i :: 0 <= i < |ss| ==> g.rank(ss[i]) < bound
    ensures HandleAll(g, st, ss, bound).log == st.log + Flat(parts) && PartsOf(g, st.did, ss, parts)
    decreases ss
  {
    if ss == [] {
      parts := [];
      assert st.log + [] == st.log;
    } else {
      var tmp := ss[0];
      var next := IncludeOne(g, st, tmp);
      var part: seq<string> := [];
      if tmp !in st.did {
        part := HandlePart(g, st, tmp);
      } else {
        assert st.log + [] == st.log;
      }
      var rest := SiblingsInOrder(g, next, ss[1..], bound);
      parts := [part] + rest;
      assert parts[1..] == rest;
      Associative(st.log, part, Flat(rest));
      PartsStep(g, st.did, next.did, ss, part, rest);
    }
  }

  lemma PartsStep(g: Config, did: seq<string>, next: seq<string>, ss: seq<string>,
                  part: seq<string>, rest: seq<seq<string>>)
    requires Acyclic(g) && ss != [] && PartsOf(g, next, ss[1..], rest)
    requires forall x :: x in next <==> x in did || x == ss[0] || Reach(g, ss[0], x)
    requires if ss[0] in did then part == [] else PartOf(g, ss[0], part)
    ensures PartsOf(g, did, ss, [part] + rest)
  {
    var parts := [part] + rest;
    forall i | 0 <= i < |ss|
      ensures if ss[i] in did || ReachAny(g, ss[..i], ss[i]) then parts[i] == [] else PartOf(g, ss[i], parts[i])
    {
      if i == 0 {
        assert ss[..0] == [];
      } else {
        assert ss[1..][i - 1] == ss[i] && ss[..i][1..] == ss[1..][..i - 1] && ss[..i][0] == ss[0];
        ReachAnyStep(g, ss[..i], ss[i]);
        assert rest[i - 1] == parts[i];
      }
    }
  }

  /** A whole run: the named sections in the order named, each behind what it includes. */
  lemma {:induction false} ArgsInOrder(g: Config, st: State, args: seq<string>) returns (parts: seq<seq<string>>)
    requires Acyclic(g) && Good(g, st)
    ensures HandleArgs(g, st, args).log == st.log + Flat(parts) && |parts| == |args|
    ensures forall i :: 0 <= i < |args| ==> PartOf(g, args[i], parts[i])
    decreases args
  {
    if args == [] {
      parts := [];
      assert st.log + [] == st.log;
    } else {
      HandleGood(g, st, args[0]);
      var part := HandlePart(g, st, args[0]);
      var rest := ArgsInOrder(g, Handle(g, st, args[0]), args[1..]);
      parts := [part] + rest;
      assert parts[1..] == rest;
      Associative(st.log, part, Flat(rest));
      assert forall i :: 0 < i < |args| ==> args[i] == args[1..][i - 1] && parts[i] == rest[i - 1];
    }
  }

  // ----- when the recursion ends -----

  /** The recursion on any inclusions, given up beyond a depth. */
  function Run(includes: string -> seq<string>, st: State, section: string, depth: nat): Option<State>
    decreases depth, 0
  {
    if depth == 0 then None
    else
      match RunAll(includes, st, includes(section), depth - 1)
      case None => None
      case Some(inner) => Some(inner.(log := inner.log + [section]))
  }

  function RunOne(includes: string -> seq<string>, st: State, section: string, depth: nat): Option<State>
    decreases depth, 1
  {
    if section in st.did then Some(st)
    else
      match Run(includes, st, section, depth)
      case None => None
      case Some(inner) => Some(inner.(did := inner.did + [section]))
  }

  function RunAll(includes: string -> seq<string>, st: State, sections: seq<string>, depth: nat): Option<State>
    decreases depth, 2 + |sections|
  {
    if sections == [] then Some(st)
    else
      match RunOne(includes, st, sections[0], depth)
      case None => None
      case Some(next) => RunAll(includes, next, sections[1..], depth)
  }

  lemma {:induction false} ShallowRuns(includes: string -> seq<string>, st: State, section: string, n: nat)
    requires Shallow(includes, section, n)
    ensures Run(includes, st, section, n).Some?
    decreases n, 0
  {
    ShallowRunsAll(includes, st, includes(section), n - 1);
  }

  lemma {:induction false} ShallowRunsAll(includes: string -> seq<string>, st: State, sections: seq<string>, n: nat)
    requires forall i :: 0 <= i < |sections| ==> Shallow(includes, sections[i], n)
    ensures RunAll(includes, st, sections, n).Some?
    decreases n, 1 + |sections|
  {
    if sections != [] {
      if sections[0] !in st.did { ShallowRuns(includes, st, sections[0], n); }
      var next := RunOne(includes, st, sections[0], n).value;
      ShallowRunsAll(includes, next, sections[1..], n);
    }
  }

  ghost predicate AllGrounded(includes: string -> seq<string>, sections: seq<string>) {
    forall i :: 0 <= i < |sections| ==> Grounded(includes, sections[i])
  }

  /** One bound for all of them. */
  lemma {:induction false} CommonBound(includes: string -> seq<string>, sections: seq<string>) returns (n: nat)
    requires AllGrounded(includes, sections)
    ensures forall i :: 0 <= i < |sections| ==> Shallow(includes, sections[i], n)
    decreases sections
  {
    if sections == [] {
      n := 0;
    } else {
      var m := CommonBound(includes, sections[1..]);
      var k: nat :| Shallow(includes, sections[0], k);
      n := if m < k then k else m;
      forall i | 0 <= i < |sections| ensures Shallow(includes, sections[i], n) {
        if i == 0 {
          ShallowMore(includes, sections[0], k, n);
        } else {
          ShallowMore(includes, sections[1..][i - 1], m, n);
        }
      }
    }
  }

  lemma {:induction false} RunsIfGrounded(includes: string -> seq<string>, st: State, section: string, depth: nat)
    requires Run(includes, st, section, depth).Some? && AllGrounded(includes, st.did)
    ensures Grounded(includes, section)
    ensures AllGrounded(includes, Run(includes, st, section, depth).value.did)
    decreases depth, 0
  {
    AllRunIfGrounded(includes, st, includes(section), depth - 1);
    var n := CommonBound(includes, includes(section));
    assert Shallow(includes, section, n + 1);
  }

  lemma {:induction false} AllRunIfGrounded(includes: string -> seq<string>, st: State, sections: seq<string>,
      depth: nat)
    requires RunAll(includes, st, sections, depth).Some? && AllGrounded(includes, st.did)
    ensures AllGrounded(includes, sections)
    ensures AllGrounded(includes, RunAll(includes, st, sections, depth).value.did)
    decreases depth, 1 + |sections|
  {
    if sections != [] {
      var next := RunOne(includes, st, sections[0], depth).value;
      if sections[0] !in st.did { RunsIfGrounded(includes, st, sections[0], depth); }
      assert Grounded(includes, sections[0]);
      AllRunIfGrounded(includes, next, sections[1..], depth);
      assert sections == [sections[0]] + sections[1..];
    }
  }

  /** Started with nothing done, the recursion ends exactly if the chains of inclusions from the
      section are bounded. */
  lemma {:induction false} EndsIfGrounded(includes: string -> seq<string>, section: string)
    ensures (exists depth: nat :: Run(includes, State([], []), section, depth).Some?) <==> Grounded(includes, section)
  {
    if n: nat :| Shallow(includes, section, n) {
      ShallowRuns(includes, State([], []), section, n);
    }
    if depth: nat :| Run(includes, State([], []), section, depth).Some? {
      RunsIfGrounded(includes, State([], []), section, depth);
    }
  }

  /** Each section includes the next one. */
  predicate Chain(includes: string -> seq<string>, ss: seq<string>) {
    forall i :: 0 <= i < |ss| - 1 ==> ss[i + 1] in includes(ss[i])
  }

  lemma {:induction false} ChainShallow(includes: string -> seq<string>, ss: seq<string>, n: nat)
    requires ss != [] && Chain(includes, ss) && Shallow(includes, ss[0], n)
    ensures n >= |ss| && Shallow(includes, ss[|ss| - 1], n - (|ss| - 1))
    decreases ss
  {
    if |ss| > 1 {
      var i :| 0 <= i < |includes(ss[0])| && includes(ss[0])[i] == ss[1];
      forall j | 0 <= j < |ss[1..]| - 1 ensures ss[1..][j + 1] in includes(ss[1..][j]) {
        assert ss[j + 2] in includes(ss[j + 1]);
      }
      ChainShallow(includes, ss[1..], n - 1);
    }
  }

  lemma {:induction false} LoopIsDeep(includes: string -> seq<string>, ss: seq<string>, n: nat)
    requires |ss| > 1 && Chain(includes, ss) && ss[0] == ss[|ss| - 1]
    ensures !Shallow(includes, ss[0], n)
    decreases n
  {
    if Shallow(includes, ss[0], n) {
      ChainShallow(includes, ss, n);
      LoopIsDeep(includes, ss, n - (|ss| - 1));
    }
  }

  /** So a section from which a cycle is reached is recursed on without end. */
  lemma {:induction false} CycleNeverEnds(includes: string -> seq<string>, lead: seq<string>, ss: seq<string>,
      depth: nat)
    requires lead != [] && Chain(includes, lead) && ss != [] && lead[|lead| - 1] == ss[0]
    requires |ss| > 1 && Chain(includes, ss) && ss[0] == ss[|ss| - 1]
    ensures Run(includes, State([], []), lead[0], depth) == None
  {
    if Run(includes, State([], []), lead[0], depth).Some? {
      RunsIfGrounded(includes, State([], []), lead[0], depth);
      var n: nat :| Shallow(includes, lead[0], n);
      ChainShallow(includes, lead, n);
      LoopIsDeep(includes, ss, n - (|lead| - 1));
    }
  }

  /** Where it ends, the answer is the one computed above, which is given for sections without a
      cycle in reach. */
  lemma {:induction false} RunIsHandle(includes: string -> seq<string>, st: State, section: string, depth: nat)
    requires Grounded(includes, section) && depth >= Height(includes, section)
    ensures Acyclic(Tame(includes)) && Run(includes, st, section, depth) == Some(Handle(Tame(includes), st, section))
    decreases depth, 0
  {
    TameIsAcyclic(includes);
    TameBelow(includes, section);
    RunAllIsHandleAll(includes, st, includes(section), Height(includes, section), depth - 1);
  }

  lemma {:induction false} RunAllIsHandleAll(includes: string -> seq<string>, st: State, sections: seq<string>,
      bound: nat, depth: nat)
    requires AllGrounded(includes, sections) && Acyclic(Tame(includes))
    requires forall i :: 0 <= i < |sections| ==> Height(includes, sections[i]) < bound
    requires depth >= bound - 1
    ensures RunAll(includes, st, sections, depth) == Some(HandleAll(Tame(includes), st, sections, bound))
    decreases depth, 1 + |sections|
  {
    if sections != [] {
      assert Grounded(includes, sections[0]);
      if sections[0] !in st.did { RunIsHandle(includes, st, sections[0], depth); }
      var next := RunOne(includes, st, sections[0], depth).value;
      RunAllIsHandleAll(includes, next, sections[1..], bound, depth);
    }
  }

  /** On an acyclic configuration every section is grounded. */
  lemma {:induction false} AcyclicIsGrounded(g: Config, section: string)
    requires Acyclic(g)
    ensures Shallow(g.includes, section, g.rank(section) + 1)
    decreases g.rank(section)
  {
    forall i | 0 <= i < |g.includes(section)|
      ensures Shallow(g.includes, g.includes(section)[i], g.rank(section))
    {
      AcyclicIsGrounded(g, g.includes(section)[i]);
      ShallowMore(g.includes, g.includes(section)[i], g.rank(g.includes(section)[i]) + 1, g.rank(section));
    }
  }
}
