/** The configuration loop of the socket daemon: one pass over the sections, moving
    the file position back and forth to read each section's keys. */
module SocketScan {
  import opened CStrings
  import opened IniScan
  import opened IniDoc
  import opened IniLookup
  import opened IniNames
  import RateLimit

  const DATA: nat := 25

  datatype Socket = Socket(path: string, base: nat, peak: nat, roundtime: nat)

  /** What the model takes from outside: how the text of a number reads (strip_string
      and sscanf), how an interval reads in seconds, and whether the socket for the
      section with a given number can be created. */
  datatype System = System(number: string -> nat, interval: Lookup -> real, creates: nat -> bool)

  function Unsigned(l: Lookup, number: string -> nat): nat {
    match l
    case NotFound => RateLimit.UINT - 1
    case Found(text) => number(text) % RateLimit.UINT
  }

  function BaseOr511(base: nat): nat {
    if 10 > base || base > 1_000_000 then 511 else base
  }

  /** Five seconds unless the interval is from a hundredth of a second to a minute. */
  function RoundTime(interval: real): (r: nat)
    ensures 10_000 <= r <= 60_000_000
  {
    ((if 0.01 > interval || interval > 60.0 then 5.0 else interval) * 1000000.0).Floor
  }

  predicate BadPeak(peak: nat, base: nat) {
    100 > peak || peak > 10_000_000 || peak < base
  }

  // ----- what should be opened, read off the document -----

  function Keys(s: Section, key: string, last: bool): Lookup {
    match FirstEntry(s.lines, key)
    case Some(value) => Found(Fit(value, DATA))
    case None => if last then Found("") else NotFound
  }

  function SocketFor(s: Section, last: bool, o: System): Socket {
    var base := BaseOr511(Unsigned(Keys(s, "base", last), o.number));
    var peak := Unsigned(Keys(s, "peak", last), o.number);
    var peek := Unsigned(Keys(s, "peek", last), o.number);
    Socket(s.name, base,
           if !BadPeak(peak, base) then peak else if !BadPeak(peek, base) then peek else 2048,
           RoundTime(o.interval(Keys(s, "interval", last))))
  }

  predicate Has(sl: seq<Socket>, path: string) {
    exists i :: 0 <= i < |sl| && sl[i].path == path
  }

  /** Sections from number i on, with the sockets in sl already open. */
  function OpenFrom(ss: seq<Section>, i: nat, sl: seq<Socket>, o: System): seq<Socket>
    requires i <= |ss|
    decreases |ss| - i
  {
    if i == |ss| then sl
    else if Has(sl, ss[i].name) then OpenFrom(ss, i + 1, sl, o)
    else if |sl| == RateLimit.MAX_SOCKETS then sl
    else OpenFrom(ss, i + 1, if o.creates(i) then sl + [SocketFor(ss[i], i + 1 == |ss|, o)] else sl, o)
  }

  // ----- the loop as it runs -----

  method HaveSocket(path: string, sl: seq<Socket>) returns (has: bool)
    ensures has == Has(sl, path)
  {
    for i := 0 to |sl|
      invariant forall k :: 0 <= k < i ==> sl[k].path != path
    {
      if sl[i].path == path {
        return true;
      }
    }
    return false;
  }

  /** A lookup that starts at a file position, or at the start if that is negative. */
  function LookAt(content: string, position: int, section: string, key: string): Lookup {
    var from := if position < 0 then 0 else position;
    Look(Query(section, key, DATA), if from <= |content| then content[from..] else "")
  }

  /** iniparser_get_int_at_position into an unsigned variable. */
  method GetUnsigned(ip: IniFile, section: string, key: string, position: int, number: string -> nat) returns (n: nat)
    modifies ip
    ensures n == Unsigned(LookAt(ip.content, position, section, key), number)
  {
    var code, data, outside := ip.GetStringAtPosition(Query(section, key, DATA), position);
    if code == -1 {
      return RateLimit.UINT - 1;
    }
    n := number(data) % RateLimit.UINT;
  }

  method GetInterval(ip: IniFile, section: string, position: int, interval: Lookup -> real) returns (n: real)
    modifies ip
    ensures n == interval(LookAt(ip.content, position, section, "interval"))
  {
    var code, text, outside := ip.GetStringAtPosition(Query(section, "interval", DATA), position);
    n := interval(if code == -1 then NotFound else Found(text));
  }

  /** Lookups from this position see the section's own keys. */
  ghost predicate OwnKeys(content: string, position: int, s: Section, last: bool) {
    forall key :: KeyText(key) ==> LookAt(content, position, s.name, key) == Keys(s, key, last)
  }

  /** Reading the keys of a section from a position a little before its heading. */
  method ReadSocket(ip: IniFile, secpos: int, o: System, path: string, ghost s: Section, ghost last: bool)
    returns (r: Socket)
    requires OwnKeys(ip.content, secpos, s, last) && path == s.name
    modifies ip
    ensures r == SocketFor(s, last, o)
  {
    assert KeyText("base") && KeyText("peak") && KeyText("peek") && KeyText("interval");
    var base := GetUnsigned(ip, path, "base", secpos, o.number);
    var peak := GetUnsigned(ip, path, "peak", secpos, o.number);
    var interval := GetInterval(ip, path, secpos, o.interval);
    var failed := ip.Seek(secpos);
    if 10 > base || base > 1_000_000 {
      base := 511;
    }
    if BadPeak(peak, base) {
      peak := GetUnsigned(ip, path, "peek", secpos, o.number);
      if BadPeak(peak, base) {
        peak := 2048;
      }
    }
    if 0.01 > interval || interval > 60.0 {
      interval := 5.0;
    }
    r := Socket(path, base, peak, (interval * 1000000.0).Floor);
  }

  /** secpos is two bytes before the "[", or before the file when it starts the file. */
  lemma KeysAt(d: Doc, i: nat)
    requires ValidDoc(d) && i < |d.sections|
    ensures OwnKeys(DocText(d), |Before(d, i)| - 2, d.sections[i], i + 1 == |d.sections|)
  {
    var s := d.sections[i];
    assert ValidName(s.name);
    forall key | KeyText(key)
      ensures LookAt(DocText(d), |Before(d, i)| - 2, s.name, key) == Keys(s, key, i + 1 == |d.sections|)
    {
      var q := Query(s.name, key, DATA);
      OwnKeysOnly(d, i, q);
      LookAtSection(d, i, 2, q);
    }
  }

  /** The file stands where sections from number i on are still ahead. */
  ghost predicate Stands(ip: IniFile, d: Doc, i: nat)
    reads ip
  {
    i <= |d.sections| && !ip.eof && ip.Unread() == Ahead(d, i) && ip.pos + |Ahead(d, i)| == |DocText(d)|
  }

  method NextOf(ip: IniFile, ghost d: Doc, ghost i: nat) returns (name: Option<string>)
    requires ip.content == DocText(d) && ValidDoc(d) && Harmless(d) && Stands(ip, d, i)
    modifies ip
    ensures if i == |d.sections| then name == None else name == Some(d.sections[i].name) && Stands(ip, d, i + 1)
  {
    if i < |d.sections| {
      assert NoBrackets(Part(d, i));
      NextIsNext(d, i);
    } else {
      NothingLast(d);
    }
    name := ip.NextSection();
  }

  /** Reads section i's keys and puts the position back. */
  method ReadAndReturn(ip: IniFile, path: string, o: System, ghost d: Doc, ghost i: nat) returns (s: Socket)
    requires ip.content == DocText(d) && ValidDoc(d) && i < |d.sections| && path == d.sections[i].name
    requires Stands(ip, d, i + 1)
    modifies ip
    ensures s == SocketFor(d.sections[i], i + 1 == |d.sections|, o)
    ensures Stands(ip, d, i + 1)
  {
    var prevpos := ip.pos;
    assert ip.content[prevpos..] == Ahead(d, i + 1);
    Located(d, i);
    KeysAt(d, i);
    s := ReadSocket(ip, prevpos - |path| - 4, o, path, d.sections[i], i + 1 == |d.sections|);
    var failed := ip.Seek(prevpos);
  }

  /** One turn of the loop; `more` unless the file or the room for sockets ends. */
  method ScanTurn(ip: IniFile, o: System, sl0: seq<Socket>, seen: nat, ghost d: Doc)
    returns (more: bool, sl: seq<Socket>)
    requires ip.content == DocText(d) && ValidDoc(d) && Harmless(d) && Stands(ip, d, seen)
    modifies ip
    ensures more ==> seen < |d.sections| && Stands(ip, d, seen + 1)
    ensures OpenFrom(d.sections, seen, sl0, o) == if more then OpenFrom(d.sections, seen + 1, sl, o) else sl
  {
    sl := sl0;
    var tmp := NextOf(ip, d, seen);
    if tmp == None {
      return false, sl;
    }
    var known := HaveSocket(tmp.value, sl);
    if !known {
      if |sl| == RateLimit.MAX_SOCKETS {
        return false, sl;
      }
      var s := ReadAndReturn(ip, tmp.value, o, d, seen);
      if o.creates(seen) {
        sl := sl + [s];
      }
    }
    more := true;
  }

  /** The whole scan: it opens exactly the sockets the document asks for. */
  method ScanConfig(ip: IniFile, o: System, ghost d: Doc) returns (sl: seq<Socket>)
    requires ip.content == DocText(d) && ip.pos == 0 && !ip.eof && ValidDoc(d) && Harmless(d)
    modifies ip
    ensures sl == OpenFrom(d.sections, 0, [], o)
    ensures forall k :: 0 <= k < |sl| ==> ServedAsConfigured(d.sections, o, sl[k])
  {
    AllServed(d.sections, o);
    sl := [];
    var seen, more := 0, true;
    assert Stands(ip, d, 0) by { assert DocText(d)[0..] == DocText(d); }
    ghost var goal := OpenFrom(d.sections, 0, sl, o);
    while more
      invariant more ==> seen <= |d.sections| && Stands(ip, d, seen) && OpenFrom(d.sections, seen, sl, o) == goal
      invariant !more ==> sl == goal
      decreases more, |d.sections| - seen
    {
      more, sl := ScanTurn(ip, o, sl, seen, d);
      seen := seen + 1;
    }
  }

  // ----- what the result is like -----

  predicate Distinct(sl: seq<Socket>) {
    forall i, j :: 0 <= i < j < |sl| ==> sl[i].path != sl[j].path
  }

  /** Distinct paths, at most 128 sockets, those already open kept in front, and
      bounds that suit the limiter, though the peak may be below the base. */
  lemma {:induction false} OpenedIsSound(ss: seq<Section>, i: nat, sl: seq<Socket>, o: System)
    requires i <= |ss| && Distinct(sl) && |sl| <= RateLimit.MAX_SOCKETS
    requires forall k :: 0 <= k < |sl| ==> Bounded(sl[k])
    ensures var r := OpenFrom(ss, i, sl, o);
            && sl <= r && Distinct(r) && |r| <= RateLimit.MAX_SOCKETS
            && (forall k :: 0 <= k < |r| ==> Bounded(r[k]))
            && (forall k :: |sl| <= k < |r| ==> exists j :: i <= j < |ss| && r[k] == SocketFor(ss[j], j + 1 == |ss|, o))
    decreases |ss| - i
  {
    if i < |ss| && !Has(sl, ss[i].name) && |sl| < RateLimit.MAX_SOCKETS && o.creates(i) {
      OpenedIsSound(ss, i + 1, sl + [SocketFor(ss[i], i + 1 == |ss|, o)], o);
    } else if i < |ss| && (Has(sl, ss[i].name) || |sl| < RateLimit.MAX_SOCKETS) {
      OpenedIsSound(ss, i + 1, sl, o);
    }
  }

  function LimiterOf(s: Socket): RateLimit.Config {
    RateLimit.Config(s.base, s.peak, s.roundtime)
  }

  predicate Bounded(s: Socket) {
    RateLimit.ValidConfig(LimiterOf(s)) && (s.base <= s.peak || s.peak == 2048)
  }

  /** So the bounds of the limiter hold for what the scan opens: under any interleaving the
      opened sockets together send at most the sum of their limits in any span of time. */
  lemma {:induction false} OpenedAreLimited(ss: seq<Section>, o: System, links: seq<RateLimit.Link>,
      run: seq<RateLimit.Shared>, lo: int, hi: int)
    requires |links| == |Limiters(OpenFrom(ss, 0, [], o))|
    requires RateLimit.TimelyShared(Limiters(OpenFrom(ss, 0, [], o)), links, run)
    requires lo <= hi && forall k :: 0 <= k < |run| ==> lo <= run[k].e.sent <= hi
    ensures var cs := Limiters(OpenFrom(ss, 0, [], o));
            (forall i :: 0 <= i < |cs| ==> RateLimit.ValidConfig(cs[i]))
            && RateLimit.SharedTotal(run) <= RateLimit.SumOver(|cs|, i => RateLimit.LinkLimit(cs, i, hi - lo))
  {
    var r := OpenFrom(ss, 0, [], o);
    OpenedIsSound(ss, 0, [], o);
    var cs := Limiters(r);
    forall i | 0 <= i < |cs| ensures RateLimit.ValidConfig(cs[i]) {
      assert Bounded(r[i]) && cs[i] == LimiterOf(r[i]);
    }
    RateLimit.SharedLimit(cs, links, run, lo, hi);
  }

  function Limiters(sl: seq<Socket>): (cs: seq<RateLimit.Config>)
    ensures |cs| == |sl| && forall i :: 0 <= i < |cs| ==> cs[i] == LimiterOf(sl[i])
  {
    seq(|sl|, i requires 0 <= i < |sl| => LimiterOf(sl[i]))
  }

  /** Nothing is missed: unless 128 sockets are open, every section whose socket could
      be created is served. */
  lemma {:induction false} OpenedIsComplete(ss: seq<Section>, i: nat, sl: seq<Socket>, o: System, j: nat)
    requires i <= j < |ss| && o.creates(j) && |sl| <= RateLimit.MAX_SOCKETS
    ensures var r := OpenFrom(ss, i, sl, o); |r| == RateLimit.MAX_SOCKETS || Has(r, ss[j].name)
    decreases |ss| - i
  {
    if Has(sl, ss[i].name) {
      if i == j {
        OpenKeeps(ss, i + 1, sl, o);
        var k :| 0 <= k < |sl| && sl[k].path == ss[i].name;
        assert OpenFrom(ss, i, sl, o)[k].path == ss[j].name;
      } else {
        OpenedIsComplete(ss, i + 1, sl, o, j);
      }
    } else if |sl| < RateLimit.MAX_SOCKETS {
      var next := if o.creates(i) then sl + [SocketFor(ss[i], i + 1 == |ss|, o)] else sl;
      if i == j {
        OpenKeeps(ss, i + 1, next, o);
        assert OpenFrom(ss, i, sl, o)[|sl|].path == ss[j].name;
      } else {
        OpenedIsComplete(ss, i + 1, next, o, j);
      }
    }
  }

  lemma {:induction false} OpenKeeps(ss: seq<Section>, i: nat, sl: seq<Socket>, o: System)
    requires i <= |ss|
    ensures sl <= OpenFrom(ss, i, sl, o)
    decreases |ss| - i
  {
    if i < |ss| && (Has(sl, ss[i].name) || |sl| != RateLimit.MAX_SOCKETS) {
      OpenKeeps(ss, i + 1, sl, o);
      OpenKeeps(ss, i + 1, sl + [SocketFor(ss[i], i + 1 == |ss|, o)], o);
    }
  }

  // ----- what is configured is what is opened -----

  /** The number a key of the section stands for: its value as far as the buffer goes, wrapped to 32
      bits; without one the largest number, or what an empty text reads as in the last section. */
  function Configured(s: Section, key: string, last: bool, o: System): nat {
    match FirstEntry(s.lines, key)
    case Some(value) => o.number(Fit(value, DATA)) % 0x1_0000_0000
    case None => if last then o.number("") % 0x1_0000_0000 else 0xffff_ffff
  }

  function ConfiguredInterval(s: Section, last: bool, o: System): real {
    match FirstEntry(s.lines, "interval")
    case Some(value) => o.interval(Found(Fit(value, DATA)))
    case None => o.interval(if last then Found("") else NotFound)
  }

  predicate GoodPeak(peak: nat, base: nat) {
    100 <= peak <= 10_000_000 && base <= peak
  }

  /** The socket has the rates and the round time its section asks for. */
  predicate AsConfigured(s: Section, last: bool, o: System, r: Socket) {
    var base, peak := Configured(s, "base", last, o), Configured(s, "peak", last, o);
    var peek := Configured(s, "peek", last, o);
    var interval := ConfiguredInterval(s, last, o);
    && r.path == s.name
    && (10 <= base <= 1_000_000 ==> r.base == base)
    && (!(10 <= base <= 1_000_000) ==> r.base == 511)
    && (GoodPeak(peak, r.base) ==> r.peak == peak)
    && (!GoodPeak(peak, r.base) && GoodPeak(peek, r.base) ==> r.peak == peek)
    && (!GoodPeak(peak, r.base) && !GoodPeak(peek, r.base) ==> r.peak == 2048)
    && (0.01 <= interval <= 60.0 ==> r.roundtime == (interval * 1000000.0).Floor)
    && (!(0.01 <= interval <= 60.0) ==> r.roundtime == 5_000_000)
  }

  lemma SocketIsConfigured(s: Section, last: bool, o: System)
    ensures AsConfigured(s, last, o, SocketFor(s, last, o))
  {
    assert RateLimit.UINT == 0x1_0000_0000;
    assert (5.0 * 1000000.0).Floor == 5_000_000;
  }

  /** Section j is the one that serves its path: no earlier one of that name could be opened. */
  predicate Serves(ss: seq<Section>, j: nat, o: System) {
    j < |ss| && o.creates(j) && forall k :: 0 <= k < j && ss[k].name == ss[j].name ==> !o.creates(k)
  }

  predicate Increasing(js: seq<nat>) {
    forall k, l :: 0 <= k < l < |js| ==> js[k] < js[l]
  }

  /** The sockets opened so far, each with its section: in the order of the file. */
  ghost predicate Opened(ss: seq<Section>, i: nat, o: System, sl: seq<Socket>, js: seq<nat>) {
    && |js| == |sl| && Increasing(js)
    && (forall k :: 0 <= k < |js| ==>
          js[k] < i && Serves(ss, js[k], o) && AsConfigured(ss[js[k]], js[k] + 1 == |ss|, o, sl[k]))
    && (forall j :: 0 <= j < i && j < |ss| && o.creates(j) ==> Has(sl, ss[j].name))
  }

  /** Every socket the scan opens has the rates of the first section of its path that could be
      opened, and they come in the order of these sections. */
  lemma {:induction false} OpensAsConfigured(ss: seq<Section>, i: nat, sl: seq<Socket>, o: System, js0: seq<nat>)
      returns (js: seq<nat>)
    requires i <= |ss| && Opened(ss, i, o, sl, js0)
    ensures var r := OpenFrom(ss, i, sl, o);
            |js| == |r| && Increasing(js)
            && forall k :: 0 <= k < |js| ==>
                 Serves(ss, js[k], o) && AsConfigured(ss[js[k]], js[k] + 1 == |ss|, o, r[k])
    decreases |ss| - i
  {
    if i == |ss| || (!Has(sl, ss[i].name) && |sl| == RateLimit.MAX_SOCKETS) {
      js := js0;
    } else if Has(sl, ss[i].name) || !o.creates(i) {
      OpenedPassed(ss, i, o, sl, js0);
      js := OpensAsConfigured(ss, i + 1, sl, o, js0);
    } else {
      var s := SocketFor(ss[i], i + 1 == |ss|, o);
      SocketIsConfigured(ss[i], i + 1 == |ss|, o);
      OpenedOneMore(ss, i, o, sl, js0, s);
      js := OpensAsConfigured(ss, i + 1, sl + [s], o, js0 + [i]);
    }
  }

  lemma OpenedPassed(ss: seq<Section>, i: nat, o: System, sl: seq<Socket>, js: seq<nat>)
    requires i < |ss| && Opened(ss, i, o, sl, js) && (Has(sl, ss[i].name) || !o.creates(i))
    ensures Opened(ss, i + 1, o, sl, js)
  {
  }

  lemma OpenedOneMore(ss: seq<Section>, i: nat, o: System, sl: seq<Socket>, js: seq<nat>, s: Socket)
    requires i < |ss| && Opened(ss, i, o, sl, js) && !Has(sl, ss[i].name) && o.creates(i)
    requires AsConfigured(ss[i], i + 1 == |ss|, o, s)
    ensures Opened(ss, i + 1, o, sl + [s], js + [i])
  {
    var sl', js' := sl + [s], js + [i];
    forall j | 0 <= j < i + 1 && o.creates(j) ensures Has(sl', ss[j].name) {
      if j == i {
        assert sl'[|sl|].path == ss[i].name;
      } else {
        var k :| 0 <= k < |sl| && sl[k].path == ss[j].name;
        assert sl'[k].path == ss[j].name;
      }
    }
    forall k | 0 <= k < |js'|
      ensures js'[k] < i + 1 && Serves(ss, js'[k], o) && AsConfigured(ss[js'[k]], js'[k] + 1 == |ss|, o, sl'[k])
    {
    }
  }

  /** Some section serves its path, and the socket has what that section asks for. */
  ghost predicate ServedAsConfigured(ss: seq<Section>, o: System, r: Socket) {
    exists j: nat :: Serves(ss, j, o) && AsConfigured(ss[j], j + 1 == |ss|, o, r)
  }

  lemma AllServed(ss: seq<Section>, o: System)
    ensures var r := OpenFrom(ss, 0, [], o); forall k :: 0 <= k < |r| ==> ServedAsConfigured(ss, o, r[k])
  {
    var js := ScanOpensAsConfigured(ss, o);
    var r := OpenFrom(ss, 0, [], o);
    forall k | 0 <= k < |r| ensures ServedAsConfigured(ss, o, r[k]) {
      assert Serves(ss, js[k], o);
    }
  }

  /** So it is with all that the scan of a file opens. */
  lemma {:induction false} ScanOpensAsConfigured(ss: seq<Section>, o: System) returns (js: seq<nat>)
    ensures var r := OpenFrom(ss, 0, [], o);
            |js| == |r| && Increasing(js)
            && forall k :: 0 <= k < |js| ==>
                 Serves(ss, js[k], o) && AsConfigured(ss[js[k]], js[k] + 1 == |ss|, o, r[k])
  {
    js := OpensAsConfigured(ss, 0, [], o, []);
  }

  /** A section without rates gets base 511 and peak 2048, whether or not another
      section follows; an empty text reads as 0. */
  lemma MissingRates(s: Section, last: bool, o: System)
    requires o.number("") == 0
    requires FirstEntry(s.lines, "base") == None
    requires FirstEntry(s.lines, "peak") == None && FirstEntry(s.lines, "peek") == None
    ensures SocketFor(s, last, o).base == 511 && SocketFor(s, last, o).peak == 2048
  {
  }
}
