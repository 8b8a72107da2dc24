/** Configuration documents as trees, and what the scanners find in every printed one. */
module IniDoc {
  import opened CStrings
  import opened Seqs
  import opened IniScan

  datatype Line =
    | Blank(ws: string)
    | Comment(text: string)
    | Entry(lead: string, key: string, pad: string, value: string)

  datatype Section = Section(name: string, lines: seq<Line>)

  datatype Doc = Doc(preamble: seq<Line>, sections: seq<Section>)

  // ----- well-formed documents -----

  predicate Spaces(s: string) {
    forall i :: 0 <= i < |s| ==> IsSpace(s[i]) && s[i] != '\n'
  }

  predicate OneLine(s: string) {
    forall i :: 0 <= i < |s| ==> s[i] != '\n' && s[i] != NUL
  }

  predicate NoBracket(s: string) {
    forall i :: 0 <= i < |s| ==> s[i] != '['
  }

  /** Keys hold no white space, no "=", no "[". */
  predicate KeyText(s: string) {
    forall i :: 0 <= i < |s| ==> !IsSpace(s[i]) && s[i] != '=' && s[i] != '[' && s[i] != NUL
  }

  /** Every line that is not blank or a comment has a "=". */
  predicate ValidLine(l: Line) {
    match l
    case Blank(ws) => Spaces(ws)
    case Comment(text) => OneLine(text)
    case Entry(lead, key, pad, value) =>
      Spaces(lead) && KeyText(key) && Spaces(pad) && OneLine(value) && (lead == "" && key != "" ==> key[0] != '#')
  }

  predicate ValidLines(ls: seq<Line>) {
    forall i :: 0 <= i < |ls| ==> ValidLine(ls[i])
  }

  predicate ValidName(name: string) {
    name != "" && OneLine(name) && forall i :: 0 <= i < |name| ==> name[i] != '[' && name[i] != ']'
  }

  predicate ValidSections(ss: seq<Section>) {
    forall i :: 0 <= i < |ss| ==> ValidName(ss[i].name) && ValidLines(ss[i].lines)
  }

  predicate ValidDoc(d: Doc) {
    ValidLines(d.preamble) && ValidSections(d.sections)
  }

  // ----- brackets in values -----

  predicate Bracketed(l: Line) {
    l.Entry? && !NoBracket(l.value)
  }

  predicate NoBrackets(ls: seq<Line>) {
    forall i :: 0 <= i < |ls| ==> !Bracketed(ls[i])
  }

  /** Brackets close outside comments. */
  predicate HasClose(ls: seq<Line>) {
    exists i :: 0 <= i < |ls| && ls[i].Entry? && (']' in ls[i].key || ']' in ls[i].value)
  }

  /** The text behind an opening bracket closes it: "]" stands behind something else. */
  predicate ClosedIn(b: string) {
    b != "" && (if b[0] == ']' then ClosedIn(b[1..]) else ']' in b)
  }

  /** The first bracket opened in a value of these lines is closed in them. */
  predicate Caught(ls: seq<Line>) {
    ls != [] && (if Bracketed(ls[0]) then ClosedIn(ls[0].value[Cspn(ls[0].value, "[") + 1..]) || HasClose(ls[1..])
                 else Caught(ls[1..]))
  }

  /** The lines between the headings: those in front, then each section's own. */
  function Part(d: Doc, i: nat): seq<Line>
    requires i <= |d.sections|
  {
    if i == 0 then d.preamble else d.sections[i - 1].lines
  }

  /** No bracket in a value before heading number n. */
  predicate ClearTo(d: Doc, n: nat)
    requires n <= |d.sections|
  {
    forall i :: 0 <= i < n ==> NoBrackets(Part(d, i))
  }

  /** A caller can check this on the document: no bracket before the last heading, and
      none opened and closed behind it. */
  predicate Harmless(d: Doc) {
    ClearTo(d, |d.sections|) && !Caught(Part(d, |d.sections|))
  }

  // ----- the printed form -----

  function LineText(l: Line): string {
    match l
    case Blank(ws) => ws + "\n"
    case Comment(text) => "#" + text + "\n"
    case Entry(lead, key, pad, value) => lead + key + pad + "=" + value + "\n"
  }

  function LinesText(ls: seq<Line>): string {
    if ls == [] then "" else LineText(ls[0]) + LinesText(ls[1..])
  }

  function HeadingText(name: string): string {
    "[" + name + "]"
  }

  /** What follows the closing bracket of a section's heading. */
  function BodyText(s: Section): string {
    "\n" + LinesText(s.lines)
  }

  function SectionsText(ss: seq<Section>): string {
    if ss == [] then "" else HeadingText(ss[0].name) + BodyText(ss[0]) + SectionsText(ss[1..])
  }

  function DocText(d: Doc): string {
    LinesText(d.preamble) + SectionsText(d.sections)
  }

  lemma SectionGrouped(ss: seq<Section>)
    requires ss != []
    ensures SectionsText(ss) == HeadingText(ss[0].name) + (BodyText(ss[0]) + SectionsText(ss[1..]))
  {
    Associative(HeadingText(ss[0].name), BodyText(ss[0]), SectionsText(ss[1..]));
  }

  // ----- section names -----

  /** Between lines, outside any heading. */
  function Idle(prev: char): Scan {
    Scan(false, false, "", prev)
  }

  function Last(prev: char, s: string): char {
    if s == "" then prev else s[|s| - 1]
  }

  /** Text of one line without a bracket is passed over. */
  lemma {:induction false} PassText(s: string, prev: char, t: string)
    requires OneLine(s) && NoBracket(s)
    requires s != "" && LineStart(prev) ==> s[0] != '#'
    ensures NextFrom(Idle(prev), s + t) == NextFrom(Idle(Last(prev, s)), t)
    decreases s
  {
    if s == "" {
      assert s + t == t;
    } else {
      assert (s + t)[0] == s[0] && (s + t)[1..] == s[1..] + t;
      assert s[1..] != "" ==> s[1..][0] == s[1] && Last(s[0], s[1..]) == s[|s| - 1];
      PassText(s[1..], s[0], t);
    }
  }

  /** A comment is passed over in any state, even inside a name. */
  lemma {:induction false} PassComment(text: string, st: Scan, t: string)
    requires OneLine(text) && st.inComment
    ensures NextFrom(st, text + ("\n" + t)) == NextFrom(st.(inComment := false, prev := '\n'), t)
    decreases text
  {
    var all := text + ("\n" + t);
    if text == "" {
      assert all == "\n" + t && all[1..] == t;
    } else {
      assert all[0] == text[0] && all[1..] == text[1..] + ("\n" + t);
      PassComment(text[1..], st.(prev := text[0]), t);
    }
  }

  lemma {:induction false} PassLine(l: Line, prev: char, t: string)
    requires ValidLine(l) && !Bracketed(l) && LineStart(prev)
    ensures NextFrom(Idle(prev), LineText(l) + t) == NextFrom(Idle('\n'), t)
  {
    if l.Comment? {
      CommentSplit(l.text, t);
      PassComment(l.text, Scan(true, false, "", '#'), t);
    } else {
      var s := Unterminated(l);
      PlainLine(l);
      Regroup(s, t);
      PassText(s, prev, "\n" + t);
    }
  }

  lemma CommentSplit(text: string, t: string)
    ensures var all := "#" + text + "\n" + t; all[0] == '#' && all[1..] == text + ("\n" + t)
  {
  }

  lemma Regroup(s: string, t: string)
    ensures s + "\n" + t == s + ("\n" + t) && ("\n" + t)[1..] == t
  {
  }

  function Unterminated(l: Line): string {
    match l
    case Blank(ws) => ws
    case Comment(text) => "#" + text
    case Entry(lead, key, pad, value) => lead + key + pad + "=" + value
  }

  lemma PlainLine(l: Line)
    requires ValidLine(l) && !l.Comment?
    ensures var s := Unterminated(l); OneLine(s) && (!Bracketed(l) ==> NoBracket(s)) && (s != "" ==> s[0] != '#')
    ensures LineText(l) == Unterminated(l) + "\n"
  {
  }

  lemma {:induction false} PassLines(ls: seq<Line>, prev: char, t: string)
    requires ValidLines(ls) && NoBrackets(ls) && LineStart(prev)
    ensures NextFrom(Idle(prev), LinesText(ls) + t) == NextFrom(Idle(if ls == [] then prev else '\n'), t)
    decreases ls
  {
    if ls == [] {
      assert "" + t == t;
    } else {
      Associative(LineText(ls[0]), LinesText(ls[1..]), t);
      PassLine(ls[0], prev, LinesText(ls[1..]) + t);
      PassLines(ls[1..], '\n', t);
    }
  }

  lemma {:induction false} TakeName(name: string, taken: string, prev: char, t: string)
    requires OneLine(name) && (forall i :: 0 <= i < |name| ==> name[i] != ']') && taken + name != ""
    requires !LineStart(prev)
    ensures NextFrom(Scan(false, true, taken, prev), name + ("]" + t)) == Some(Heading(taken + name, t))
    decreases name
  {
    var all := name + ("]" + t);
    if name == "" {
      assert all == "]" + t && all[1..] == t && taken + name == taken;
    } else {
      assert all[0] == name[0] && all[1..] == name[1..] + ("]" + t);
      assert taken + [name[0]] + name[1..] == taken + name;
      TakeName(name[1..], taken + [name[0]], name[0], t);
    }
  }

  /** Brackets with nothing between them are no heading: the closing one is passed, and the name goes
      on to the next. */
  lemma {:induction false} EmptyHeading(name: string, prev: char, t: string)
    requires ValidName(name)
    ensures NextFrom(Idle(prev), "[]" + (name + ("]" + t))) == Some(Heading(name, t))
  {
    var all := "[]" + (name + ("]" + t));
    var st := Scan(false, true, "", '[');
    assert all[0] == '[' && all[1..][0] == ']' && all[1..][1..] == name + ("]" + t);
    assert ScanStep(Idle(prev), '[') == st && ScanStep(st, ']') == st.(prev := ']');
    assert "" + name == name;
    TakeName(name, "", ']', t);
  }

  lemma {:induction false} TakeHeading(name: string, prev: char, t: string)
    requires ValidName(name)
    ensures NextFrom(Idle(prev), HeadingText(name) + t) == Some(Heading(name, t))
  {
    var all := HeadingText(name) + t;
    assert all[0] == '[' && all[1..] == name + ("]" + t);
    assert "" + name == name;
    TakeName(name, "", '[', t);
  }

  /** The unread text when sections from i on are still ahead: the document itself at
      first, then what follows the heading of section i - 1. */
  function Ahead(d: Doc, i: nat): string
    requires i <= |d.sections|
  {
    if i == 0 then DocText(d) else BodyText(d.sections[i - 1]) + SectionsText(d.sections[i..])
  }

  lemma NewlineFirst(t: string)
    ensures NextFrom(START, "\n" + t) == NextFrom(Idle('\n'), t)
  {
    assert ("\n" + t)[1..] == t;
  }

  /** The lines passed on the way to section i; each call starts afresh. */
  lemma PassPart(d: Doc, i: nat) returns (prev: char)
    requires ValidDoc(d) && i <= |d.sections| && NoBrackets(Part(d, i))
    ensures LineStart(prev) && NextFrom(START, Ahead(d, i)) == NextFrom(Idle(prev), SectionsText(d.sections[i..]))
  {
    var t := SectionsText(d.sections[i..]);
    if i == 0 {
      assert d.sections[0..] == d.sections;
      PassLines(d.preamble, NUL, t);
      prev := if d.preamble == [] then NUL else '\n';
    } else {
      var ls := d.sections[i - 1].lines;
      Associative("\n", LinesText(ls), t);
      NewlineFirst(LinesText(ls) + t);
      PassLines(ls, '\n', t);
      prev := '\n';
    }
  }

  /** With no bracket on the way, a call of next_section yields the next name and stops just after its "]". */
  lemma NextIsNext(d: Doc, i: nat)
    requires ValidDoc(d) && i < |d.sections| && NoBrackets(Part(d, i))
    ensures NextFrom(START, Ahead(d, i)) == Some(Heading(d.sections[i].name, Ahead(d, i + 1)))
  {
    var prev := PassPart(d, i);
    SectionsHead(d, i);
    TakeHeading(d.sections[i].name, prev, Ahead(d, i + 1));
  }

  /** All names, by repeated calls. */
  function Names(t: string): seq<string>
    decreases |t|
  {
    NextIsShorter(START, t);
    match NextFrom(START, t)
    case None => []
    case Some(h) => [h.name] + Names(h.rest)
  }

  function SectionNames(d: Doc): (r: seq<string>)
    ensures |r| == |d.sections| && forall i :: 0 <= i < |r| ==> r[i] == d.sections[i].name
  {
    seq(|d.sections|, i requires 0 <= i < |d.sections| => d.sections[i].name)
  }

  /** Up to heading number j the calls yield the document's names. */
  lemma {:induction false} NamesTo(d: Doc, i: nat, j: nat)
    requires ValidDoc(d) && i <= j <= |d.sections| && ClearTo(d, j)
    ensures Names(Ahead(d, i)) == SectionNames(d)[i..j] + Names(Ahead(d, j))
    decreases j - i
  {
    if i == j {
      assert SectionNames(d)[i..j] + Names(Ahead(d, j)) == Names(Ahead(d, j));
    } else {
      NextIsNext(d, i);
      NamesTo(d, i + 1, j);
      SliceStep(SectionNames(d), i, j, Names(Ahead(d, j)));
    }
  }

  lemma SliceStep(names: seq<string>, i: nat, j: nat, rest: seq<string>)
    requires i < j <= |names|
    ensures names[i..j] + rest == [names[i]] + (names[i + 1..j] + rest)
  {
  }

  /** has_section finds a name if and only if the calls yield it, in any file. */
  lemma {:induction false} FoundIfNamed(t: string, section: string)
    ensures FindFrom(t, section).Some? <==> section in Names(t)
    decreases |t|
  {
    NextIsShorter(START, t);
    match NextFrom(START, t)
    case None =>
    case Some(h) => FoundIfNamed(h.rest, section);
  }

  /** With no bracket before its heading, the first section so named is found, and the
      file left just after the heading. */
  lemma {:induction false} FindsFirst(d: Doc, i: nat, j: nat)
    requires ValidDoc(d) && i <= j < |d.sections| && ClearTo(d, j + 1)
    requires d.sections[j].name !in SectionNames(d)[i..j]
    ensures FindFrom(Ahead(d, i), d.sections[j].name) == Some(Ahead(d, j + 1))
    decreases j - i
  {
    NextIsNext(d, i);
    if i < j {
      assert SectionNames(d)[i..j][0] == d.sections[i].name;
      assert SectionNames(d)[i..j][1..] == SectionNames(d)[i + 1..j];
      FindsFirst(d, i + 1, j);
    }
  }

  /** The file up to the "[" of section i. */
  function Before(d: Doc, i: nat): string
    requires i <= |d.sections|
  {
    LinesText(d.preamble) + SectionsText(d.sections[..i])
  }

  lemma SectionsHead(d: Doc, i: nat)
    requires i < |d.sections|
    ensures SectionsText(d.sections[i..]) == HeadingText(d.sections[i].name) + Ahead(d, i + 1)
  {
    var ss := d.sections[i..];
    assert ss[0] == d.sections[i] && ss[1..] == d.sections[i + 1..];
  }

  lemma {:induction false} SectionsCut(ss: seq<Section>, i: nat)
    requires i <= |ss|
    ensures SectionsText(ss) == SectionsText(ss[..i]) + SectionsText(ss[i..])
    decreases i
  {
    if i == 0 {
      assert ss[0..] == ss;
    } else {
      var rest := ss[1..];
      SectionsCut(rest, i - 1);
      assert ss[..i][0] == ss[0] && ss[..i][1..] == rest[..i - 1] && ss[i..] == rest[i - 1..];
      var first := HeadingText(ss[0].name) + BodyText(ss[0]);
      Associative(first, SectionsText(rest[..i - 1]), SectionsText(rest[i - 1..]));
    }
  }

  /** Where things are: the file before section i's "[", its heading, the rest; so a
      position just after the "]", less the name and two brackets, is that of the "[". */
  lemma {:induction false} Located(d: Doc, i: nat)
    requires i < |d.sections|
    ensures DocText(d) == Before(d, i) + (HeadingText(d.sections[i].name) + Ahead(d, i + 1))
    ensures (|DocText(d)| - |Ahead(d, i + 1)|) - |d.sections[i].name| - 2 == |Before(d, i)|
  {
    SectionsHead(d, i);
    SectionsCut(d.sections, i);
    Associative(LinesText(d.preamble), SectionsText(d.sections[..i]), SectionsText(d.sections[i..]));
  }
}
