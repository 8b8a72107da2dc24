/** When the names next_section yields are exactly the names of the document's sections. */
module IniNames {
  import opened CStrings
  import opened Seqs
  import opened IniScan
  import opened IniDoc

  function NamesFrom(st: Scan, t: string): seq<string> {
    match NextFrom(st, t)
    case None => []
    case Some(h) => [h.name] + Names(h.rest)
  }

  /** A name that runs over the end of a line is no section's name. */
  predicate Broken(names: seq<string>) {
    exists i :: 0 <= i < |names| && '\n' in names[i]
  }

  /** A name in progress has taken in every newline since its bracket. */
  predicate Running(st: Scan) {
    && (!st.sectionStart ==> st.name == "")
    && (st.sectionStart && (st.inComment || LineStart(st.prev)) ==> '\n' in st.name)
  }

  lemma RunningStep(st: Scan, ch: char)
    requires Running(st) && ch != NUL
    ensures Running(ScanStep(st, ch))
    ensures st.sectionStart ==> ScanStep(st, ch).sectionStart
    ensures ch == '\n' ==> !ScanStep(st, ch).inComment
  {
  }

  predicate WholeLines(x: string) {
    NulFree(x) && (x != "" ==> x[|x| - 1] == '\n')
  }

  lemma {:induction false} LinesAreWhole(ls: seq<Line>)
    requires ValidLines(ls)
    ensures WholeLines(LinesText(ls))
    decreases ls
  {
    if ls != [] {
      assert ValidLine(ls[0]);
      LinesAreWhole(ls[1..]);
    }
  }

  lemma BodyIsWhole(s: Section)
    requires ValidLines(s.lines)
    ensures WholeLines(BodyText(s)) && BodyText(s) != ""
  {
    LinesAreWhole(s.lines);
  }

  /** A heading met inside a name that holds a newline only lengthens it. */
  lemma HeadingSwallowed(st: Scan, name: string, t: string)
    requires st.sectionStart && !st.inComment && st.name != "" && ValidName(name)
    ensures NextFrom(st, HeadingText(name) + t) == Some(Heading(st.name + "[" + name, t))
  {
    var all := HeadingText(name) + t;
    assert all[0] == '[' && all[1..] == name + ("]" + t);
    TakeName(name, st.name + "[", '[', t);
  }

  lemma HeadingNext(st: Scan, ss: seq<Section>)
    requires Running(st) && LineStart(st.prev) && !st.inComment && ss != [] && ValidSections(ss)
    ensures var names := NamesFrom(st, SectionsText(ss));
            if st.sectionStart then Broken(names)
            else names == [ss[0].name] + Names(BodyText(ss[0]) + SectionsText(ss[1..]))
  {
    SectionGrouped(ss);
    var rest := BodyText(ss[0]) + SectionsText(ss[1..]);
    if st.sectionStart {
      HeadingSwallowed(st, ss[0].name, rest);
      assert '\n' in NamesFrom(st, SectionsText(ss))[0];
    } else {
      TakeHeading(ss[0].name, st.prev, rest);
    }
  }

  /**
   * Over whole lines and then sections, from any state: there is a broken name, or at least one
   * name for every section and one more for a name in progress.
   */
  lemma {:induction false} Counted(st: Scan, x: string, ss: seq<Section>)
    requires Running(st) && WholeLines(x) && ss != [] && ValidSections(ss)
    requires x == "" ==> LineStart(st.prev) && !st.inComment
    ensures var names := NamesFrom(st, x + SectionsText(ss));
            Broken(names) || |names| >= |ss| + (if st.sectionStart then 1 else 0)
    decreases |ss|, |x|
  {
    var all := x + SectionsText(ss);
    if x == "" {
      assert all == SectionsText(ss);
      HeadingNext(st, ss);
      if !st.sectionStart && |ss| > 1 {
        BodyIsWhole(ss[0]);
        Counted(START, BodyText(ss[0]), ss[1..]);
        BrokenTail(ss[0].name, Names(BodyText(ss[0]) + SectionsText(ss[1..])));
      }
    } else {
      Uncons(x, SectionsText(ss));
      RunningStep(st, x[0]);
      if Completes(st, x[0]) {
        Counted(START, x[1..], ss);
        BrokenTail(st.name, NamesFrom(START, all[1..]));
      } else {
        Counted(ScanStep(st, x[0]), x[1..], ss);
      }
    }
  }

  lemma BrokenTail(name: string, names: seq<string>)
    ensures Broken(names) ==> Broken([name] + names)
  {
    if i :| 0 <= i < |names| && '\n' in names[i] {
      assert ([name] + names)[i + 1] == names[i];
    }
  }

  /** A value cut at its first bracket. */
  lemma BracketCut(l: Line) returns (a: string, b: string)
    requires ValidLine(l) && Bracketed(l)
    ensures b == l.value[Cspn(l.value, "[") + 1..] && LineText(l) == a + ("[" + (b + "\n"))
    ensures OneLine(a) && NoBracket(a) && a != "" && a[0] != '#' && OneLine(b)
  {
    var v := BeforeBracket(l.value);
    b := l.value[|v| + 1..];
    a := l.lead + l.key + l.pad + "=" + v;
    LineCut(l, v, b);
  }

  lemma BeforeBracket(s: string) returns (v: string)
    requires !NoBracket(s)
    ensures v == s[..Cspn(s, "[")] && NoBracket(v) && |v| < |s| && s == v + ("[" + s[|v| + 1..])
  {
    v := s[..Cspn(s, "[")];
    assert forall i :: 0 <= i < |v| ==> v[i] !in "[";
    assert s[..|s|] == s;
  }

  lemma LineCut(l: Line, v: string, b: string)
    requires ValidLine(l) && l.Entry? && l.value == v + ("[" + b) && NoBracket(v)
    ensures var a := l.lead + l.key + l.pad + "=" + v;
            LineText(l) == a + ("[" + (b + "\n")) && OneLine(a) && NoBracket(a) && a != "" && a[0] != '#'
    ensures OneLine(b)
  {
    assert forall i :: 0 <= i < |b| ==> b[i] == l.value[|v| + 1 + i];
    assert forall i :: 0 <= i < |v| ==> v[i] == l.value[i];
  }

  lemma AtBracket(l: Line, a: string, b: string, prev: char, t: string)
    requires LineText(l) == a + ("[" + (b + "\n")) && LineStart(prev)
    requires OneLine(a) && NoBracket(a) && a != "" && a[0] != '#'
    ensures NextFrom(Idle(prev), LineText(l) + t) == NextFrom(Scan(false, true, "", '['), b + ("\n" + t))
  {
    var rest := b + ("\n" + t);
    assert LineText(l) + t == a + ("[" + rest);
    PassText(a, prev, "[" + rest);
    assert ("[" + rest)[0] == '[' && ("[" + rest)[1..] == rest;
  }

  lemma RestIsWhole(b: string, lines: string, t: string)
    requires OneLine(b) && WholeLines(lines)
    ensures var x := b + ("\n" + lines);
            WholeLines(x) && x != "" && b + ("\n" + (lines + t)) == x + t
  {
  }

  lemma BracketHere(l: Line, more: string, prev: char, ss: seq<Section>)
    requires ValidLine(l) && Bracketed(l) && WholeLines(more) && LineStart(prev) && ss != [] && ValidSections(ss)
    ensures var names := NamesFrom(Idle(prev), LineText(l) + (more + SectionsText(ss)));
            Broken(names) || |names| > |ss|
  {
    var a, b := BracketCut(l);
    AtBracket(l, a, b, prev, more + SectionsText(ss));
    RestIsWhole(b, more, SectionsText(ss));
    Counted(Scan(false, true, "", '['), b + ("\n" + more), ss);
  }

  /** A bracket in a value before a heading breaks a name or adds one. */
  lemma {:induction false} BracketCosts(ls: seq<Line>, prev: char, ss: seq<Section>)
    requires ValidLines(ls) && !NoBrackets(ls) && LineStart(prev) && ss != [] && ValidSections(ss)
    ensures var names := NamesFrom(Idle(prev), LinesText(ls) + SectionsText(ss));
            Broken(names) || |names| > |ss|
    decreases ls
  {
    Associative(LineText(ls[0]), LinesText(ls[1..]), SectionsText(ss));
    if Bracketed(ls[0]) {
      LinesAreWhole(ls[1..]);
      BracketHere(ls[0], LinesText(ls[1..]), prev, ss);
    } else {
      PassLine(ls[0], prev, LinesText(ls[1..]) + SectionsText(ss));
      BracketCosts(ls[1..], '\n', ss);
    }
  }

  // ----- behind the last heading -----

  lemma {:induction false} NamedText(st: Scan, s: string, t: string)
    requires st.sectionStart && !st.inComment && st.name != "" && OneLine(s)
    requires s != "" && LineStart(st.prev) ==> s[0] != '#'
    ensures if ']' in s then NextFrom(st, s + t).Some?
            else NextFrom(st, s + t) == NextFrom(st.(name := st.name + s, prev := Last(st.prev, s)), t)
    decreases s
  {
    if s == "" {
      assert s + t == t && st.name + s == st.name;
    } else {
      Uncons(s, t);
      if s[0] != ']' {
        NamedText(ScanStep(st, s[0]), s[1..], t);
        assert st.name + [s[0]] + s[1..] == st.name + s;
        assert s[1..] != "" ==> Last(s[0], s[1..]) == s[|s| - 1];
        assert ']' in s <==> ']' in s[1..];
      }
    }
  }

  /** A name in progress over whole lines is completed by the first "]" outside comments. */
  lemma {:induction false} NamedLines(name: string, ls: seq<Line>)
    requires name != "" && ValidLines(ls)
    ensures NextFrom(Scan(false, true, name, '\n'), LinesText(ls)).Some? <==> HasClose(ls)
    decreases ls
  {
    if ls != [] {
      var st, t := Scan(false, true, name, '\n'), LinesText(ls[1..]);
      assert ValidLine(ls[0]);
      CloseStep(ls);
      if ls[0].Comment? {
        CommentSplit(ls[0].text, t);
        PassComment(ls[0].text, st.(inComment := true, prev := '#'), t);
        NamedLines(name, ls[1..]);
      } else {
        var s := Unterminated(ls[0]);
        PlainLine(ls[0]);
        Regroup(s, t);
        NamedText(st, s, "\n" + t);
        UnterminatedClose(ls[0]);
        if ']' !in s {
          NamedLines(name + s + "\n", ls[1..]);
        }
      }
    }
  }

  lemma CloseStep(ls: seq<Line>)
    requires ls != []
    ensures HasClose(ls) <==> (ls[0].Entry? && (']' in ls[0].key || ']' in ls[0].value)) || HasClose(ls[1..])
  {
    if i :| 0 <= i < |ls[1..]| && ls[1..][i].Entry? && (']' in ls[1..][i].key || ']' in ls[1..][i].value) {
      assert ls[i + 1] == ls[1..][i];
    }
    if i :| 0 <= i < |ls| && ls[i].Entry? && (']' in ls[i].key || ']' in ls[i].value) {
      assert i > 0 ==> ls[1..][i - 1] == ls[i];
    }
  }

  lemma UnterminatedClose(l: Line)
    requires ValidLine(l) && !l.Comment?
    ensures ']' in Unterminated(l) <==> l.Entry? && (']' in l.key || ']' in l.value)
  {
  }

  /** An opened bracket, up to the end of its line and over the lines below. */
  lemma {:induction false} OpenedText(b: string, prev: char, ls: seq<Line>)
    requires OneLine(b) && ValidLines(ls) && !LineStart(prev)
    ensures NextFrom(Scan(false, true, "", prev), b + ("\n" + LinesText(ls))).Some? <==> ClosedIn(b) || HasClose(ls)
    decreases b
  {
    var t := "\n" + LinesText(ls);
    assert t[0] == '\n' && t[1..] == LinesText(ls);
    if b == "" {
      assert b + t == t && "" + "\n" == "\n";
      NamedLines("\n", ls);
    } else {
      Uncons(b, t);
      if b[0] == ']' {
        OpenedText(b[1..], b[0], ls);
      } else {
        assert "" + [b[0]] == [b[0]];
        var st := Scan(false, true, [b[0]], b[0]);
        assert ScanStep(Scan(false, true, "", prev), b[0]) == st;
        NamedText(st, b[1..], t);
        assert ']' in b <==> ']' in b[1..];
        if ']' !in b[1..] {
          NamedLines([b[0]] + b[1..] + "\n", ls);
        }
      }
    }
  }

  lemma {:induction false} LinesCaught(ls: seq<Line>, prev: char)
    requires ValidLines(ls) && LineStart(prev)
    ensures NextFrom(Idle(prev), LinesText(ls)).Some? <==> Caught(ls)
    decreases ls
  {
    if ls != [] {
      if Bracketed(ls[0]) {
        var a, b := BracketCut(ls[0]);
        AtBracket(ls[0], a, b, prev, LinesText(ls[1..]));
        OpenedText(b, '[', ls[1..]);
      } else {
        PassLine(ls[0], prev, LinesText(ls[1..]));
        LinesCaught(ls[1..], '\n');
      }
    }
  }

  /** Behind the last heading a call yields nothing exactly if no bracket is caught. */
  lemma NothingLast(d: Doc)
    requires ValidDoc(d)
    ensures Names(Ahead(d, |d.sections|)) == [] <==> !Caught(Part(d, |d.sections|))
  {
    var n := |d.sections|;
    var ls := Part(d, n);
    assert SectionsText(d.sections[n..]) == "" && LinesText(ls) + "" == LinesText(ls);
    if n == 0 {
      LinesCaught(ls, NUL);
    } else {
      LinesCaught(ls, '\n');
      NewlineFirst(LinesText(ls));
      assert "\n" + LinesText(ls) + "" == "\n" + LinesText(ls);
    }
  }

  /** Up to the first heading behind a bracket the names are right; from there they are not. */
  lemma PartCosts(d: Doc, i: nat)
    requires ValidDoc(d) && i < |d.sections| && !NoBrackets(Part(d, i))
    ensures var names := Names(Ahead(d, i)); Broken(names) || |names| > |d.sections| - i
  {
    var ss := d.sections[i..];
    if i == 0 {
      assert d.sections[0..] == d.sections;
      BracketCosts(d.preamble, NUL, ss);
    } else {
      var ls := d.sections[i - 1].lines;
      BracketCosts(ls, '\n', ss);
      Associative("\n", LinesText(ls), SectionsText(ss));
      NewlineFirst(LinesText(ls) + SectionsText(ss));
    }
  }

  /**
   * Round trip for the names: repeated calls yield exactly the document's section names, in
   * order, if and only if no value before the last heading holds a "[" and none behind it opens
   * one that is closed.
   */
  lemma {:induction false} NamesRoundTrip(d: Doc)
    requires ValidDoc(d)
    ensures Names(DocText(d)) == SectionNames(d) <==> Harmless(d)
  {
    var n, names := |d.sections|, SectionNames(d);
    if ClearTo(d, n) {
      NamesTo(d, 0, n);
      NothingLast(d);
      assert names[0..n] == names;
      if Names(Ahead(d, n)) == [] { assert names + [] == names; }
    } else {
      var i := FirstBracket(d, n);
      NamesTo(d, 0, i);
      PartCosts(d, i);
      NamesAreWhole(d);
      BrokenAppend(names[0..i], Names(Ahead(d, i)));
    }
  }

  lemma NamesAreWhole(d: Doc)
    requires ValidDoc(d)
    ensures !Broken(SectionNames(d))
  {
    forall i | 0 <= i < |d.sections| ensures '\n' !in SectionNames(d)[i] {
      assert ValidName(d.sections[i].name);
    }
  }

  lemma BrokenAppend(a: seq<string>, b: seq<string>)
    ensures Broken(b) ==> Broken(a + b)
  {
    if i :| 0 <= i < |b| && '\n' in b[i] {
      assert (a + b)[|a| + i] == b[i];
    }
  }

  lemma {:induction false} FirstBracket(d: Doc, n: nat) returns (i: nat)
    requires n <= |d.sections| && !ClearTo(d, n)
    ensures i < n && ClearTo(d, i) && !NoBrackets(Part(d, i))
    decreases n
  {
    i := n - 1;
    if !ClearTo(d, i) { i := FirstBracket(d, i); }
  }

  /** An ordinary value loses a section: the heading below it becomes part of a name. */
  lemma BracketLosesSection()
    ensures var d := Doc([], [Section("a", [Entry("", "k", "", "x[")]), Section("b", [])]);
            ValidDoc(d) && SectionNames(d) == ["a", "b"] && Names(DocText(d)) != SectionNames(d)
  {
    var e := Entry("", "k", "", "x[");
    var d := Doc([], [Section("a", [e]), Section("b", [])]);
    assert e.value[1] == '[' && Bracketed([e][0]);
    assert !NoBrackets(Part(d, 1));
    NamesRoundTrip(d);
  }
}
