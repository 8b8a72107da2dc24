/** What a key lookup answers on every printed configuration document. */
module IniLookup {
  import opened CStrings
  import opened Seqs
  import opened IniScan
  import opened IniDoc

  /** Questions the programs ask: a section name and a key as they may be written. */
  predicate ValidQuery(q: Query) {
    && OneLine(q.section) && KeyText(q.key)
    && forall i :: 0 <= i < |q.section| ==> q.section[i] != '[' && q.section[i] != ']'
  }

  // ----- the answer, read off the document -----

  predicate Prefix(a: string, b: string) {
    |a| <= |b| && b[..|a|] == a
  }

  /** The value of the first key that is a nonempty prefix of the one asked for. */
  function FirstEntry(ls: seq<Line>, key: string): Option<string> {
    if ls == [] then None
    else if ls[0].Entry? && ls[0].key != "" && Prefix(ls[0].key, key) then Some(ls[0].value)
    else FirstEntry(ls[1..], key)
  }

  /** What the caller's buffer has room for. */
  function Fit(value: string, bufferlen: nat): string {
    if |value| <= bufferlen then value else value[..bufferlen]
  }

  /** In the first section whose name is a prefix of the one asked for: that value, or
      else -1 if a section follows and the empty string if it is the last. */
  function AnswerOf(ss: seq<Section>, q: Query): Lookup {
    if ss == [] then Found("")
    else if Prefix(ss[0].name, q.section) then
      match FirstEntry(ss[0].lines, q.key)
      case Some(value) => Found(Fit(value, q.bufferlen))
      case None => if |ss| == 1 then Found("") else NotFound
    else AnswerOf(ss[1..], q)
  }

  // ----- passing over text -----

  lemma {:induction false} WrongText(q: Query, prev: char, s: string, t: string)
    requires OneLine(s) && (s != "" && LineStart(prev) ==> s[0] != '#')
    ensures LookFrom(q, WrongKey, false, prev, s + t) == LookFrom(q, WrongKey, false, Last(prev, s), t)
    decreases s
  {
    if s == "" {
      assert s + t == t;
    } else {
      Uncons(s, t);
      assert s[1..] != "" ==> s[1..][0] == s[1] && Last(s[0], s[1..]) == s[|s| - 1];
      WrongText(q, s[0], s[1..], t);
    }
  }

  lemma {:induction false} CommentText(q: Query, ph: Phase, prev: char, text: string, t: string)
    requires OneLine(text)
    ensures LookFrom(q, ph, true, prev, text + ("\n" + t)) == LookFrom(q, ph, false, '\n', t)
    decreases text
  {
    var end := "\n" + t;
    if text == "" {
      assert text + end == end && end[1..] == t;
    } else {
      Uncons(text, end);
      CommentText(q, ph, text[0], text[1..], t);
    }
  }

  lemma {:induction false} CommentLine(q: Query, ph: Phase, prev: char, text: string, t: string)
    requires OneLine(text) && LineStart(prev)
    ensures LookFrom(q, ph, false, prev, "#" + text + "\n" + t) == LookFrom(q, ph, false, '\n', t)
  {
    CommentSplit(text, t);
    CommentText(q, ph, '#', text, t);
  }

  /**
   * The rest of a line behind the first "[p]" the comparison of section names takes for a
   * heading: p is a nonempty prefix of the name asked for. m: the characters compared so far,
   * once a bracket is open.
   */
  function Mimicked(section: string, m: Option<nat>, s: string): Option<string>
    decreases s
  {
    if s == "" then None
    else
      match m
      case None => Mimicked(section, if s[0] == '[' then Some(0) else None, s[1..])
      case Some(n) =>
        if n < |section| && s[0] == section[n] then Mimicked(section, Some(n + 1), s[1..])
        else if n != 0 && s[0] == ']' then Some(s[1..])
        else Mimicked(section, None, s[1..])
  }

  /** No value in these lines looks like the heading asked for. */
  predicate NoMimic(ls: seq<Line>, section: string) {
    forall i :: 0 <= i < |ls| && ls[i].Entry? ==> Mimicked(section, None, ls[i].value) == None
  }

  lemma {:induction false} MimickedBehind(section: string, s: string, t: string)
    requires NoBracket(s)
    ensures Mimicked(section, None, s + t) == Mimicked(section, None, t)
    decreases s
  {
    if s == "" {
      assert s + t == t;
    } else {
      Uncons(s, t);
      MimickedBehind(section, s[1..], t);
    }
  }

  /** A mimicked heading, written out: a value without one of these forms is passed over. */
  lemma {:induction false} MimicShape(section: string, m: Option<nat>, s: string) returns (a: string, k: nat)
    requires Mimicked(section, m, s).Some? && (m.Some? ==> m.value <= |section|)
    ensures 0 < k <= |section|
    ensures var b := Mimicked(section, m, s).value;
            || s == a + ("[" + (section[..k] + ("]" + b)))
            || (m.Some? && m.value <= k && s == section[m.value..k] + ("]" + b))
    decreases s
  {
    var b := Mimicked(section, m, s).value;
    assert s == [s[0]] + s[1..];
    if m.Some? && m.value < |section| && s[0] == section[m.value] {
      var n := m.value;
      a, k := MimicShape(section, Some(n + 1), s[1..]);
      if n + 1 <= k && s[1..] == section[n + 1..k] + ("]" + b) {
        assert section[n..k] == [s[0]] + section[n + 1..k];
      } else {
        a := [s[0]] + a;
      }
    } else if m.Some? && m.value != 0 && s[0] == ']' {
      a, k := "", m.value;
      assert section[k..k] == "";
    } else if m == None && s[0] == '[' {
      a, k := MimicShape(section, Some(0), s[1..]);
      if s[1..] == section[0..k] + ("]" + b) {
        assert section[0..k] == section[..k];
        a := "";
      } else {
        a := [s[0]] + a;
      }
    } else {
      a, k := MimicShape(section, None, s[1..]);
      a := [s[0]] + a;
    }
  }

  /** Outside the section, a line is passed over exactly up to the first mimicked heading. */
  lemma {:induction false} TextOutside(q: Query, m: Option<nat>, prev: char, s: string, t: string)
    requires ValidQuery(q) && OneLine(s) && (m.Some? ==> m.value <= |q.section| && !LineStart(prev))
    requires s != "" && LineStart(prev) ==> s[0] != '#'
    ensures LookFrom(q, if m.Some? then Name(m.value) else Outside, false, prev, s + ("\n" + t)) ==
            match Mimicked(q.section, m, s)
            case None => LookFrom(q, Outside, false, '\n', t)
            case Some(b) => LookFrom(q, Key(0), false, ']', b + ("\n" + t))
    decreases s
  {
    var end := "\n" + t;
    assert end[0] == '\n' && end[1..] == t;
    if s == "" {
      assert s + end == end;
    } else {
      Uncons(s, end);
      assert s[1..] != "" ==> s[1..][0] == s[1];
      match m
      case None => TextOutside(q, if s[0] == '[' then Some(0) else None, s[0], s[1..], t);
      case Some(n) =>
        if n < |q.section| && s[0] == q.section[n] {
          TextOutside(q, Some(n + 1), s[0], s[1..], t);
        } else if !(n != 0 && s[0] == ']') {
          TextOutside(q, None, s[0], s[1..], t);
        }
    }
  }

  lemma {:induction false} LineOutside(q: Query, l: Line, prev: char, t: string)
    requires ValidQuery(q) && ValidLine(l) && LineStart(prev)
    requires l.Entry? ==> Mimicked(q.section, None, l.value) == None
    ensures LookFrom(q, Outside, false, prev, LineText(l) + t) == LookFrom(q, Outside, false, '\n', t)
  {
    if l.Comment? {
      CommentLine(q, Outside, prev, l.text, t);
    } else {
      var s := Unterminated(l);
      PlainLine(l);
      Regroup(s, t);
      TextOutside(q, None, prev, s, t);
      if l.Entry? {
        MimickedBehind(q.section, l.lead + l.key + l.pad + "=", l.value);
      } else {
        MimickedBehind(q.section, s, "");
        assert s + "" == s;
      }
    }
  }

  lemma {:induction false} LinesOutside(q: Query, ls: seq<Line>, prev: char, t: string)
    requires ValidQuery(q) && ValidLines(ls) && NoMimic(ls, q.section) && LineStart(prev)
    ensures LookFrom(q, Outside, false, prev, LinesText(ls) + t)
            == LookFrom(q, Outside, false, if ls == [] then prev else '\n', t)
    decreases ls
  {
    if ls == [] {
      assert "" + t == t;
    } else {
      Associative(LineText(ls[0]), LinesText(ls[1..]), t);
      LineOutside(q, ls[0], prev, LinesText(ls[1..]) + t);
      LinesOutside(q, ls[1..], '\n', t);
    }
  }

  // ----- comparing a heading -----

  lemma {:induction false} NameCompared(q: Query, name: string, n: nat, prev: char, t: string)
    requires ValidQuery(q) && !LineStart(prev) && n <= |q.section| && (n != 0 || name != "")
    requires OneLine(name) && forall i :: 0 <= i < |name| ==> name[i] != '[' && name[i] != ']'
    ensures LookFrom(q, Name(n), false, prev, name + ("]" + t)) ==
            LookFrom(q, if Prefix(name, q.section[n..]) then Key(0) else Outside, false, ']', t)
    decreases name
  {
    var end := "]" + t;
    assert end[1..] == t;
    if name == "" {
      assert name + end == end;
    } else {
      Uncons(name, end);
      if n < |q.section| && name[0] == q.section[n] {
        NameCompared(q, name[1..], n + 1, name[0], t);
        PrefixStep(name, q.section, n);
      } else {
        OtherName(q, name[0], name[1..], t);
      }
    }
  }

  /** The rest of a heading that is not the one asked for. */
  lemma {:induction false} OtherName(q: Query, prev: char, name: string, t: string)
    requires !LineStart(prev) && OneLine(name) && NoBracket(name)
    ensures LookFrom(q, Outside, false, prev, name + ("]" + t)) == LookFrom(q, Outside, false, ']', t)
    decreases name
  {
    var end := "]" + t;
    if name == "" {
      assert name + end == end && end[1..] == t;
    } else {
      Uncons(name, end);
      OtherName(q, name[0], name[1..], t);
    }
  }

  lemma PrefixStep(a: string, b: string, n: nat)
    requires a != "" && n < |b| && a[0] == b[n]
    ensures Prefix(a, b[n..]) == Prefix(a[1..], b[n + 1..])
  {
    assert b[n..][1..] == b[n + 1..];
    assert a == [a[0]] + a[1..];
    if |a| <= |b| - n {
      assert b[n..][..|a|] == [b[n]] + b[n + 1..][..|a| - 1];
    }
  }

  lemma {:induction false} HeadingCompared(q: Query, name: string, prev: char, t: string)
    requires ValidQuery(q) && ValidName(name) && LineStart(prev)
    ensures LookFrom(q, Outside, false, prev, HeadingText(name) + t) ==
            LookFrom(q, if Prefix(name, q.section) then Key(0) else Outside, false, ']', t)
  {
    assert HeadingText(name) + t == "[" + (name + ("]" + t));
    assert ("[" + (name + ("]" + t)))[1..] == name + ("]" + t);
    assert q.section[0..] == q.section;
    NameCompared(q, name, 0, '[', t);
  }

  // ----- comparing keys -----

  lemma {:induction false} SpacesSkipped(q: Query, k: nat, prev: char, ws: string, t: string)
    requires ValidQuery(q) && Spaces(ws)
    ensures LookFrom(q, Key(k), false, prev, ws + t) == LookFrom(q, Key(k), false, Last(prev, ws), t)
    decreases ws
  {
    if ws == "" {
      assert ws + t == t;
    } else {
      Uncons(ws, t);
      assert ws[1..] != "" ==> Last(ws[0], ws[1..]) == ws[|ws| - 1];
      SpacesSkipped(q, k, ws[0], ws[1..], t);
    }
  }

  /** Keys: compared character by character; one that differs is passed to the line's end. */
  lemma {:induction false} KeyCompared(q: Query, key: string, k: nat, prev: char, rest: string, t: string)
    requires ValidQuery(q) && KeyText(key) && k <= |q.key|
    requires LineStart(prev) && key != "" ==> key[0] != '#'
    requires OneLine(rest)
    ensures LookFrom(q, Key(k), false, prev, key + (rest + ("\n" + t))) ==
            if Prefix(key, q.key[k..]) then LookFrom(q, Key(k + |key|), false, Last(prev, key), rest + ("\n" + t))
            else LookFrom(q, Key(0), false, '\n', t)
    decreases key
  {
    var end := rest + ("\n" + t);
    if key == "" {
      assert key + end == end;
    } else {
      Uncons(key, end);
      if k < |q.key| && key[0] == q.key[k] {
        KeyCompared(q, key[1..], k + 1, key[0], rest, t);
        PrefixStep(key, q.key, k);
        assert key[1..] != "" ==> Last(key[0], key[1..]) == key[|key| - 1];
      } else {
        WrongToEnd(q, key[0], key[1..] + rest, t);
        Associative(key[1..], rest, "\n" + t);
      }
    }
  }

  lemma {:induction false} WrongToEnd(q: Query, prev: char, s: string, t: string)
    requires OneLine(s) && !LineStart(prev)
    ensures LookFrom(q, WrongKey, false, prev, s + ("\n" + t)) == LookFrom(q, Key(0), false, '\n', t)
  {
    WrongText(q, prev, s, "\n" + t);
    assert ("\n" + t)[1..] == t;
  }

  lemma {:induction false} ValueCopied(q: Query, copied: string, prev: char, value: string, t: string)
    requires OneLine(value) && |copied| <= q.bufferlen && !LineStart(prev)
    ensures LookFrom(q, Value(copied), false, prev, value + ("\n" + t)) == Found(Fit(copied + value, q.bufferlen))
    decreases value
  {
    var end := "\n" + t;
    if value == "" {
      assert value + end == end && copied + value == copied;
    } else {
      Uncons(value, end);
      if |copied| < q.bufferlen {
        assert copied + [value[0]] + value[1..] == copied + value;
        ValueCopied(q, copied + [value[0]], value[0], value[1..], t);
      } else {
        assert (copied + value)[..q.bufferlen] == copied;
      }
    }
  }

  /** An entry either gives its value or is passed like any other line. */
  lemma {:induction false} EntryCompared(q: Query, l: Line, prev: char, t: string)
    requires ValidQuery(q) && l.Entry? && ValidLine(l) && LineStart(prev)
    ensures LookFrom(q, Key(0), false, prev, LineText(l) + t) ==
            if l.key != "" && Prefix(l.key, q.key) then Found(Fit(l.value, q.bufferlen))
            else LookFrom(q, Key(0), false, '\n', t)
  {
    var rest := l.pad + "=" + l.value;
    var end := rest + ("\n" + t);
    assert LineText(l) + t == l.lead + (l.key + end);
    SpacesSkipped(q, 0, prev, l.lead, l.key + end);
    assert q.key[0..] == q.key;
    KeyCompared(q, l.key, 0, Last(prev, l.lead), rest, t);
    if Prefix(l.key, q.key) {
      EqualsReached(q, |l.key|, Last(Last(prev, l.lead), l.key), l.pad, l.value, t);
    }
  }

  lemma PaddedEquals(pad: string, value: string, t: string)
    ensures pad + "=" + value + t == pad + ("=" + (value + t))
  {
  }

  lemma EqualsTaken(q: Query, k: nat, prev: char, end: string)
    requires ValidQuery(q) && k <= |q.key|
    ensures LookFrom(q, Key(k), false, prev, "=" + end)
            == LookFrom(q, if k != 0 then Value("") else WrongKey, false, '=', end)
  {
    assert ("=" + end)[0] == '=' && ("=" + end)[1..] == end;
  }

  /** After a prefix of the key: white space, the "=", and the value. */
  lemma {:induction false} EqualsReached(q: Query, k: nat, prev: char, pad: string, value: string, t: string)
    requires ValidQuery(q) && k <= |q.key| && Spaces(pad)
    requires OneLine(value)
    ensures LookFrom(q, Key(k), false, prev, pad + "=" + value + ("\n" + t)) ==
            if k != 0 then Found(Fit(value, q.bufferlen)) else LookFrom(q, Key(0), false, '\n', t)
  {
    var end := value + ("\n" + t);
    PaddedEquals(pad, value, "\n" + t);
    SpacesSkipped(q, k, prev, pad, "=" + end);
    EqualsTaken(q, k, Last(prev, pad), end);
    if k != 0 {
      ValueCopied(q, "", '=', value, t);
      assert "" + value == value;
    } else {
      WrongToEnd(q, '=', value, t);
    }
  }

  lemma {:induction false} BlankCompared(q: Query, ws: string, prev: char, t: string)
    requires ValidQuery(q) && Spaces(ws)
    ensures LookFrom(q, Key(0), false, prev, ws + "\n" + t) == LookFrom(q, Key(0), false, '\n', t)
  {
    Regroup(ws, t);
    SpacesSkipped(q, 0, prev, ws, "\n" + t);
  }

  lemma {:induction false} LinesCompared(q: Query, ls: seq<Line>, prev: char, t: string)
    requires ValidQuery(q) && ValidLines(ls) && LineStart(prev)
    ensures LookFrom(q, Key(0), false, prev, LinesText(ls) + t) ==
            match FirstEntry(ls, q.key)
            case Some(value) => Found(Fit(value, q.bufferlen))
            case None => LookFrom(q, Key(0), false, if ls == [] then prev else '\n', t)
    decreases ls
  {
    if ls == [] {
      assert "" + t == t;
    } else {
      var rest := LinesText(ls[1..]) + t;
      Associative(LineText(ls[0]), LinesText(ls[1..]), t);
      match ls[0] {
        case Blank(ws) => BlankCompared(q, ws, prev, rest);
        case Comment(text) => CommentLine(q, Key(0), prev, text, rest);
        case Entry(_, _, _, _) => EntryCompared(q, ls[0], prev, rest);
      }
      LinesCompared(q, ls[1..], '\n', t);
    }
  }

  // ----- the main results -----

  lemma {:induction false} BodyCompared(q: Query, s: Section, t: string)
    requires ValidQuery(q) && ValidLines(s.lines)
    ensures LookFrom(q, Key(0), false, ']', BodyText(s) + t) ==
            match FirstEntry(s.lines, q.key)
            case Some(value) => Found(Fit(value, q.bufferlen))
            case None => LookFrom(q, Key(0), false, '\n', t)
  {
    Associative("\n", LinesText(s.lines), t);
    assert ("\n" + (LinesText(s.lines) + t))[1..] == LinesText(s.lines) + t;
    LinesCompared(q, s.lines, '\n', t);
  }

  lemma {:induction false} BodyOutside(q: Query, s: Section, t: string)
    requires ValidQuery(q) && ValidLines(s.lines) && NoMimic(s.lines, q.section)
    ensures LookFrom(q, Outside, false, ']', BodyText(s) + t) == LookFrom(q, Outside, false, '\n', t)
  {
    Associative("\n", LinesText(s.lines), t);
    assert ("\n" + (LinesText(s.lines) + t))[1..] == LinesText(s.lines) + t;
    LinesOutside(q, s.lines, '\n', t);
  }

  /** No value on the way to the first section whose name is a prefix of the one asked
      for looks like that section's heading. */
  predicate Passable(ss: seq<Section>, section: string) {
    ss != [] && !Prefix(ss[0].name, section) ==> NoMimic(ss[0].lines, section) && Passable(ss[1..], section)
  }

  /** From the start of a section (or the end of the file), outside any comment, the
      lookup gives exactly the answer read off the document. */
  lemma {:induction false} SectionsAnswer(q: Query, ss: seq<Section>, prev: char)
    requires ValidQuery(q) && ValidSections(ss) && Passable(ss, q.section) && LineStart(prev)
    ensures LookFrom(q, Outside, false, prev, SectionsText(ss)) == AnswerOf(ss, q)
    decreases ss
  {
    if ss != [] {
      var t := SectionsText(ss[1..]);
      SectionGrouped(ss);
      HeadingCompared(q, ss[0].name, prev, BodyText(ss[0]) + t);
      if Prefix(ss[0].name, q.section) {
        BodyCompared(q, ss[0], t);
        NextSectionEnds(q, ss[1..]);
      } else {
        BodyOutside(q, ss[0], t);
        SectionsAnswer(q, ss[1..], '\n');
      }
    }
  }

  lemma NextSectionEnds(q: Query, ss: seq<Section>)
    requires ValidQuery(q)
    ensures LookFrom(q, Key(0), false, '\n', SectionsText(ss)) == if ss == [] then Found("") else NotFound
  {
    if ss != [] {
      SectionGrouped(ss);
      assert SectionsText(ss)[0] == '[';
    }
  }

  /** Lookup round trip from the start of the file, as iniparser_get_string asks. */
  lemma {:induction false} LookFromStart(d: Doc, q: Query)
    requires ValidQuery(q) && ValidDoc(d)
    requires NoMimic(d.preamble, q.section) && Passable(d.sections, q.section)
    ensures Look(q, DocText(d)) == AnswerOf(d.sections, q)
  {
    LinesOutside(q, d.preamble, NUL, SectionsText(d.sections));
    SectionsAnswer(q, d.sections, if d.preamble == [] then NUL else '\n');
  }

  lemma NewlineTaken(q: Query, ph: Phase, inComment: bool, prev: char, t: string)
    requires ValidQuery(q) && (ph == Outside || (ph == Name(0) && !inComment))
    ensures LookFrom(q, ph, inComment, prev, "\n" + t) == LookFrom(q, Outside, false, '\n', t)
  {
    assert ("\n" + t)[1..] == t;
  }

  /** At most two bytes before a heading, the last of them its line's start, are
      harmless whatever they are: even a bracket or a comment sign. */
  lemma JunkPassed(q: Query, junk: string, t: string) returns (prev: char)
    requires ValidQuery(q) && |junk| <= 2 && (junk != "" ==> junk[|junk| - 1] == '\n')
    ensures LineStart(prev) && Look(q, junk + t) == LookFrom(q, Outside, false, prev, t)
  {
    if junk == "" {
      assert junk + t == t;
      prev := NUL;
    } else {
      prev := '\n';
      if |junk| == 1 {
        assert junk + t == "\n" + t;
        NewlineTaken(q, Outside, false, NUL, t);
      } else {
        Uncons(junk, t);
        assert junk[1..] == "\n";
        var c := junk[0];
        NewlineTaken(q, if c == '[' then Name(0) else Outside, c == '#', c, t);
      }
    }
  }

  lemma {:induction false} LinesEnd(ls: seq<Line>)
    ensures LinesText(ls) != "" ==> LinesText(ls)[|LinesText(ls)| - 1] == '\n'
    decreases ls
  {
    if ls != [] {
      assert LineText(ls[0])[|LineText(ls[0])| - 1] == '\n';
      LinesEnd(ls[1..]);
    }
  }

  lemma {:induction false} SectionsEnd(ss: seq<Section>)
    ensures SectionsText(ss) != "" ==> SectionsText(ss)[|SectionsText(ss)| - 1] == '\n'
    decreases ss
  {
    if ss != [] {
      LinesEnd(ss[0].lines);
      var body := BodyText(ss[0]);
      assert body[|body| - 1] == '\n';
      SectionsEnd(ss[1..]);
    }
  }

  lemma BeforeEnds(d: Doc, i: nat)
    requires i <= |d.sections|
    ensures Before(d, i) != "" ==> Before(d, i)[|Before(d, i)| - 1] == '\n'
  {
    LinesEnd(d.preamble);
    SectionsEnd(d.sections[..i]);
  }

  /** Where a lookup starts when asked to start `back` bytes before the "[" of section
      i: there, or at the start of the file when the seek to a negative offset fails. */
  function StartAt(d: Doc, i: nat, back: nat): nat
    requires i < |d.sections|
  {
    if |Before(d, i)| < back then 0 else |Before(d, i)| - back
  }

  lemma JunkBefore(d: Doc, i: nat, back: nat)
    requires i < |d.sections| && back <= 2
    ensures var from := StartAt(d, i, back);
            from <= |Before(d, i)| && |Before(d, i)[from..]| <= 2
            && (Before(d, i)[from..] != "" ==> Before(d, i)[from..][|Before(d, i)| - from - 1] == '\n')
  {
    BeforeEnds(d, i);
  }

  /** Lookup round trip at a section: started up to two bytes before its "[", the
      lookup answers for the sections from there on. */
  lemma {:induction false} LookAtSection(d: Doc, i: nat, back: nat, q: Query)
    requires ValidQuery(q) && ValidDoc(d) && i < |d.sections| && back <= 2
    requires Passable(d.sections[i..], q.section)
    ensures StartAt(d, i, back) <= |DocText(d)|
    ensures Look(q, DocText(d)[StartAt(d, i, back)..]) == AnswerOf(d.sections[i..], q)
  {
    var before, from := Before(d, i), StartAt(d, i, back);
    var t := SectionsText(d.sections[i..]);
    Located(d, i);
    SectionsHead(d, i);
    var junk := before[from..];
    JunkBefore(d, i, back);
    CutBehind(before, t, from);
    var prev := JunkPassed(q, junk, t);
    SectionsAnswer(q, d.sections[i..], prev);
  }

  /** Asked by its own name, a section answers with its own keys only. */
  lemma OwnKeysOnly(d: Doc, i: nat, q: Query)
    requires i < |d.sections| && q.section == d.sections[i].name
    ensures Passable(d.sections[i..], q.section)
    ensures AnswerOf(d.sections[i..], q) ==
            match FirstEntry(d.sections[i].lines, q.key)
            case Some(value) => Found(Fit(value, q.bufferlen))
            case None => if i + 1 == |d.sections| then Found("") else NotFound
  {
    assert d.sections[i..][0] == d.sections[i];
  }

  /** So a lookup at a section writes its terminator outside the caller's buffer if and
      only if the value it finds fills the buffer. */
  lemma WritesOutside(d: Doc, i: nat, back: nat, q: Query)
    requires ValidQuery(q) && ValidDoc(d) && i < |d.sections| && back <= 2
    requires q.section == d.sections[i].name && q.bufferlen > 0
    ensures StartAt(d, i, back) <= |DocText(d)|
    ensures Terminator(Look(q, DocText(d)[StartAt(d, i, back)..])) >= q.bufferlen
            <==> FirstEntry(d.sections[i].lines, q.key).Some?
                 && |FirstEntry(d.sections[i].lines, q.key).value| >= q.bufferlen
  {
    OwnKeysOnly(d, i, q);
    LookAtSection(d, i, back, q);
  }

  // ----- texts that are no such documents -----

  /** A value on a last line without its newline ends with the end of the file, whose mark is taken
      for one more character if there is room. */
  lemma {:induction false} ValueAtEnd(q: Query, copied: string, prev: char, value: string)
    requires '\n' !in value && |copied| <= q.bufferlen && !LineStart(prev) && NulFree(value)
    ensures LookFrom(q, Value(copied), false, prev, value)
            == Found(if |copied| + |value| < q.bufferlen then copied + value + [255 as char]
                     else (copied + value)[..q.bufferlen])
    decreases value
  {
    if value == "" {
      assert copied + value == copied;
    } else if |copied| < q.bufferlen {
      assert copied + [value[0]] + value[1..] == copied + value;
      ValueAtEnd(q, copied + [value[0]], value[0], value[1..]);
    } else {
      assert (copied + value)[..q.bufferlen] == copied;
    }
  }

  predicate White(ws: string) {
    forall i :: 0 <= i < |ws| ==> IsSpace(ws[i])
  }

  lemma {:induction false} WhiteSkipped(q: Query, k: nat, prev: char, ws: string, t: string)
    requires ValidQuery(q) && White(ws)
    ensures LookFrom(q, Key(k), false, prev, ws + t) == LookFrom(q, Key(k), false, Last(prev, ws), t)
    decreases ws
  {
    if ws == "" {
      assert ws + t == t;
    } else {
      Uncons(ws, t);
      assert ws[1..] != "" ==> Last(ws[0], ws[1..]) == ws[|ws| - 1];
      WhiteSkipped(q, k, ws[0], ws[1..], t);
    }
  }

  lemma {:induction false} KeyMatched(q: Query, key: string, k: nat, prev: char, t: string)
    requires ValidQuery(q) && KeyText(key) && k + |key| <= |q.key| && key == q.key[k..k + |key|]
    requires LineStart(prev) && key != "" ==> key[0] != '#'
    ensures LookFrom(q, Key(k), false, prev, key + t) == LookFrom(q, Key(k + |key|), false, Last(prev, key), t)
    decreases key
  {
    if key == "" {
      assert key + t == t;
    } else {
      Uncons(key, t);
      assert key[1..] != "" ==> Last(key[0], key[1..]) == key[|key| - 1];
      assert key[1..] == q.key[k + 1..k + 1 + |key[1..]|];
      KeyMatched(q, key[1..], k + 1, key[0], t);
    }
  }

  /** A line without an equals sign does not end a key: white space is skipped, newlines too, and the
      letters behind it go on being compared, so that the entry of the next line may answer. */
  lemma {:induction false} KeyOverLines(q: Query, a: string, ws: string, b: string, prev: char, value: string,
      t: string)
    requires ValidQuery(q) && q.key == a + b && KeyText(a) && KeyText(b) && a != "" && b != ""
    requires a[0] != '#' && b[0] != '#' && White(ws) && OneLine(value)
    ensures LookFrom(q, Key(0), false, prev, a + (ws + (b + ("=" + (value + ("\n" + t))))))
            == Found(Fit(value, q.bufferlen))
  {
    var end := value + ("\n" + t);
    KeyMatched(q, a, 0, prev, ws + (b + ("=" + end)));
    WhiteSkipped(q, |a|, Last(prev, a), ws, b + ("=" + end));
    KeyMatched(q, b, |a|, Last(Last(prev, a), ws), "=" + end);
    EqualsTaken(q, |q.key|, b[|b| - 1], end);
    ValueCopied(q, "", '=', value, t);
    assert "" + value == value;
  }
}
