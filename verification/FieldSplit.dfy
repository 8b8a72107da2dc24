/** The two field splitters of the word expander: the streaming one that reads
    command output block by block, and the whole-string one for parameter values. */
module FieldSplit {
  import opened CStrings
  import opened Seqs

  /** What the streaming splitter is doing (its `copying` variable: 0, 1, 2). */
  datatype Copying = Searching | InField | AfterWhite

  datatype State = State(copying: Copying, word: Option<string>, words: seq<string>)

  /** Ends the word in progress; a NULL word becomes an empty one. */
  function Delimit(st: State, copying: Copying): State {
    State(copying, None, st.words + [Text(st.word)])
  }

  function Step(st: State, c: char, ifs: string, white: string): State {
    if c in ifs then
      if c !in white then
        if st.copying == AfterWhite then st.(copying := Searching) else Delimit(st, Searching)
      else if st.copying != InField then st
      else Delimit(st, AfterWhite)
    else State(InField, Some(Text(st.word) + [c]), st.words)
  }

  /** The state after a whole text, one character at a time. */
  function Stream(st: State, s: string, ifs: string, white: string): State
    decreases s
  {
    if s == [] then st else Stream(Step(st, s[0], ifs, white), s[1..], ifs, white)
  }

  /** The words once the word in progress, unless it is NULL, is added too. */
  function Flush(word: Option<string>, words: seq<string>): seq<string> {
    match word
    case None => words
    case Some(s) => words + [s]
  }

  predicate Separators(ifs: string, white: string) {
    AllIn(white, ifs)
  }

  // ----- how the streaming machine treats a field, a white run, a delimiter -----

  lemma {:induction false} StreamAppend(st: State, a: string, b: string, ifs: string, white: string)
    ensures Stream(st, a + b, ifs, white) == Stream(Stream(st, a, ifs, white), b, ifs, white)
    decreases a
  {
    if a == [] {
      assert a + b == b;
    } else {
      assert (a + b)[0] == a[0] && (a + b)[1..] == a[1..] + b;
      StreamAppend(Step(st, a[0], ifs, white), a[1..], b, ifs, white);
    }
  }

  lemma {:induction false} StreamWhite(st: State, s: string, ifs: string, white: string)
    requires Separators(ifs, white) && AllIn(s, white) && st.copying != InField
    ensures Stream(st, s, ifs, white) == st
    decreases s
  {
    if s != [] {
      assert s[0] in white;
      StreamWhite(st, s[1..], ifs, white);
    }
  }

  lemma {:induction false} StreamText(st: State, s: string, ifs: string, white: string)
    requires NoneIn(s, ifs) && s != []
    ensures Stream(st, s, ifs, white) == State(InField, Some(Text(st.word) + s), st.words)
    decreases s
  {
    var next := Step(st, s[0], ifs, white);
    if |s| == 1 {
      assert s[1..] == [] && s == [s[0]];
    } else {
      StreamText(next, s[1..], ifs, white);
      assert Text(st.word) + [s[0]] + s[1..] == Text(st.word) + s;
    }
  }

  /** White space after a field ends it. */
  lemma {:induction false} StreamSoft(st: State, s: string, ifs: string, white: string)
    requires Separators(ifs, white) && AllIn(s, white) && s != [] && st.copying == InField
    ensures Stream(st, s, ifs, white) == Delimit(st, AfterWhite)
  {
    assert s[0] in white;
    StreamWhite(Delimit(st, AfterWhite), s[1..], ifs, white);
  }

  /** One non-white separator, with the white space around it, ends one field. */
  lemma {:induction false} StreamHard(st: State, before: string, c: char, after: string, ifs: string, white: string)
    requires Separators(ifs, white) && AllIn(before, white) && AllIn(after, white)
    requires c in ifs && c !in white && st.copying != AfterWhite
    ensures Stream(st, before + [c] + after, ifs, white) == Delimit(st, Searching)
  {
    var mid := Stream(st, before, ifs, white);
    if before == [] {
    } else if st.copying == InField {
      StreamSoft(st, before, ifs, white);
    } else {
      StreamWhite(st, before, ifs, white);
    }
    assert before + [c] + after == before + ([c] + after);
    StreamAppend(st, before, [c] + after, ifs, white);
    assert ([c] + after)[1..] == after;
    StreamWhite(Step(mid, c, ifs, white), after, ifs, white);
  }

  // ----- the two splitters -----

  class Splitter {
    const ifs: string
    const white: string
    var word: Option<string>
    var words: seq<string>

    constructor (ifs: string, white: string, word: Option<string>, words: seq<string>)
      ensures this.ifs == ifs && this.white == white && this.word == word && this.words == words
    {
      this.ifs, this.white, this.word, this.words := ifs, white, word, words;
    }

    method AddWord()
      modifies this
      ensures words == old(words) + [Text(old(word))] && word == None
    {
      words := words + [Text(word)];
      word := None;
    }

    method AddStr(s: string)
      modifies this`word
      ensures word == if s == "" then old(word) else Some(Text(old(word)) + s)
    {
      if s != "" {
        word := Some(Text(word) + s);
      }
    }

    /** Splits command output as it arrives, in blocks of any size. */
    method SplitStream(chunks: seq<string>)
      modifies this
      ensures var end := Stream(State(Searching, old(word), old(words)), Concat(chunks), ifs, white);
              word == end.word && words == end.words
    {
      ghost var start := State(Searching, word, words);
      var copying := Searching;
      var k := 0;
      while k < |chunks|
        invariant k <= |chunks|
        invariant Stream(start, Concat(chunks[..k]), ifs, white) == State(copying, word, words)
      {
        var buffer := chunks[k];
        ghost var before := State(copying, word, words);
        var i := 0;
        while i < |buffer|
          invariant i <= |buffer|
          invariant Stream(State(copying, word, words), buffer[i..], ifs, white) == Stream(before, buffer, ifs, white)
        {
          var c := buffer[i];
          assert buffer[i..][1..] == buffer[i + 1..];
          i := i + 1;
          if c in ifs {
            if c !in white {
              if copying == AfterWhite {
                copying := Searching;
                continue;
              }
              copying := Searching;
            } else {
              if copying != InField {
                continue;
              }
              copying := AfterWhite;
            }
            AddWord();
          } else {
            copying := InField;
            AddStr([c]);
          }
        }
        ConcatSnoc(chunks, k);
        StreamAppend(start, Concat(chunks[..k]), buffer, ifs, white);
        k := k + 1;
      }
      assert chunks[..k] == chunks;
    }

    /** Splits a parameter value held in memory; the last field stays in progress. */
    method SplitValue(value: string)
      requires Separators(ifs, white)
      modifies this
      ensures var end := Stream(State(Searching, old(word), old(words)), value, ifs, white);
              Flush(word, words) == Flush(end.word, end.words)
    {
      ghost var start := State(Searching, word, words);
      var fieldBegin, seenNonWhite := 0, false;
      var more := true;
      while more
        invariant fieldBegin <= |value|
        invariant fieldBegin == 0 ==> !seenNonWhite && State(Searching, word, words) == start && more
        invariant fieldBegin > 0 && more ==>
                    Before(start, value, fieldBegin) == Delimit(State(Searching, word, words), After(seenNonWhite))
        invariant fieldBegin > 0 && more && !seenNonWhite ==> fieldBegin < |value| && value[fieldBegin] !in ifs
        invariant !more ==> fieldBegin == |value|
        invariant !more ==> var end := Before(start, value, |value|); Flush(word, words) == Flush(end.word, end.words)
        decreases more, |value| - fieldBegin
      {
        ghost var from := fieldBegin;
        if fieldBegin != 0 {
          AddWord();
        }
        ghost var st := State(if from == 0 then Searching else After(seenNonWhite), word, words);
        assert from == 0 ==> value[..0] == [];
        fieldBegin := SpnEnd(value, fieldBegin, white);
        SkipWhite(start, value, from, fieldBegin, st);
        if !seenNonWhite && fieldBegin == |value| {
          break;
        }
        var fieldEnd := CspnEnd(value, fieldBegin, ifs);
        TakeField(start, value, fieldBegin, fieldEnd, st);
        ghost var mid := Copied(st, value[fieldBegin..fieldEnd]);
        var nextField := SpnEnd(value, fieldEnd, white);
        TakeGap(start, value, fieldEnd, nextField, mid);
        seenNonWhite := false;
        if nextField < |value| && value[nextField] in ifs {
          seenNonWhite := true;
          nextField := nextField + 1;
        }
        AddStr(value[fieldBegin..fieldEnd]);
        fieldBegin := nextField;
        more := seenNonWhite || fieldBegin < |value|;
      }
      assert value[..|value|] == value;
    }

    // The streaming machine over the part of the value before index i.
    ghost function Before(start: State, value: string, i: nat): State
      requires i <= |value|
    {
      Stream(start, value[..i], ifs, white)
    }

    ghost function After(seenNonWhite: bool): Copying {
      if seenNonWhite then Searching else AfterWhite
    }

    ghost function Copied(st: State, field: string): State {
      if field == "" then st else State(InField, Some(Text(st.word) + field), st.words)
    }

    lemma BeforeTo(start: State, value: string, i: nat, j: nat)
      requires i <= j <= |value|
      ensures Before(start, value, j) == Stream(Before(start, value, i), value[i..j], ifs, white)
    {
      assert value[..j] == value[..i] + value[i..j];
      StreamAppend(start, value[..i], value[i..j], ifs, white);
    }

    lemma SkipWhite(start: State, value: string, i: nat, j: nat, st: State)
      requires i <= j <= |value| && Separators(ifs, white) && AllIn(value[i..j], white)
      requires Before(start, value, i) == st && st.copying != InField
      ensures Before(start, value, j) == st
    {
      BeforeTo(start, value, i, j);
      StreamWhite(st, value[i..j], ifs, white);
    }

    lemma TakeField(start: State, value: string, i: nat, j: nat, st: State)
      requires i <= j <= |value| && NoneIn(value[i..j], ifs)
      requires Before(start, value, i) == st
      ensures Before(start, value, j) == Copied(st, value[i..j])
    {
      BeforeTo(start, value, i, j);
      if i < j { StreamText(st, value[i..j], ifs, white); }
    }

    lemma TakeGap(start: State, value: string, i: nat, j: nat, mid: State)
      requires i <= j <= |value| && Separators(ifs, white) && AllIn(value[i..j], white)
      requires Before(start, value, i) == mid
      requires j < |value| ==> value[j] !in white
      requires mid.copying != InField ==> i == j && mid.copying == Searching
      ensures j < |value| && value[j] in ifs ==> Before(start, value, j + 1) == Delimit(mid, Searching)
      ensures j > i ==> Before(start, value, j) == Delimit(mid, AfterWhite)
      ensures j == i ==> Before(start, value, j) == mid
    {
      BeforeTo(start, value, i, j);
      if j > i { StreamSoft(mid, value[i..j], ifs, white); }
      if j < |value| && value[j] in ifs {
        BeforeTo(start, value, i, j + 1);
        StreamHard(mid, value[i..j], value[j], "", ifs, white);
        assert value[i..j + 1] == value[i..j] + [value[j]] + "";
      }
    }
  }

  /** The white-space part of IFS, collected without repeats into a 4-byte buffer. */
  method CollectWhite(ifs: string) returns (white: string)
    ensures forall c :: c in white <==> c in ifs && c in " \t\n"
    ensures forall i, j :: 0 <= i < j < |white| ==> white[i] != white[j]
    ensures |white| + 1 <= 4
    ensures Separators(ifs, white)
  {
    white := "";
    for i := 0 to |ifs|
      invariant forall c :: c in white <==> c in ifs[..i] && c in " \t\n"
      invariant forall k, j :: 0 <= k < j < |white| ==> white[k] != white[j]
      invariant |white| <= 3
    {
      var ch := ifs[i];
      assert ifs[..i + 1] == ifs[..i] + [ch];
      if ch == ' ' || ch == '\t' || ch == '\n' {
        var run := 0;
        while run < |white| && white[run] != ch
          invariant run <= |white|
          invariant ch !in white[..run]
        {
          run := run + 1;
        }
        if run == |white| {
          AtMostThree(white, ch);
          white := white + [ch];
        }
      }
    }
    assert ifs[..|ifs|] == ifs;
  }

  lemma AtMostThree(white: string, ch: char)
    requires forall i, j :: 0 <= i < j < |white| ==> white[i] != white[j]
    requires forall c :: c in white ==> c in " \t\n"
    requires ch in " \t\n" && ch !in white && |white| <= 3
    ensures |white| <= 2
  {
    if |white| == 3 {
      Pigeonhole(white[0], white[1], white[2], ch);
    }
  }

  lemma Pigeonhole(a: char, b: char, c: char, d: char)
    requires a in " \t\n" && b in " \t\n" && c in " \t\n" && d in " \t\n"
    ensures a == b || a == c || a == d || b == c || b == d || c == d
  {
  }

  // ----- the declarative splitter of POSIX.1-2017 XCU, section 2.6.5 -----

  /** A delimiter: white space only, or one other separator with white space around it. */
  datatype Gap = Soft(ws: string) | Hard(before: string, sep: char, after: string)

  datatype Piece = Piece(field: string, gap: Gap)

  function GapText(g: Gap): string {
    match g
    case Soft(ws) => ws
    case Hard(before, sep, after) => before + [sep] + after
  }

  function Render(ps: seq<Piece>): string {
    if ps == [] then "" else ps[0].field + GapText(ps[0].gap) + Render(ps[1..])
  }

  ghost predicate ValidGap(g: Gap, ifs: string, white: string) {
    match g
    case Soft(ws) => AllIn(ws, white)
    case Hard(before, sep, after) => AllIn(before, white) && AllIn(after, white) && sep in ifs && sep !in white
  }

  /** Fields hold no separator; white space alone delimits only between two
      nonempty fields (or ends the text), and only the last delimiter may be missing. */
  ghost predicate ValidPieces(ps: seq<Piece>, ifs: string, white: string) {
    ps != [] ==>
      && NoneIn(ps[0].field, ifs)
      && ValidGap(ps[0].gap, ifs, white)
      && (ps[0].gap.Soft? ==> ps[0].field != "")
      && (ps[0].gap.Soft? && |ps| > 1 ==> ps[0].gap.ws != "" && ps[1].field != "")
      && ValidPieces(ps[1..], ifs, white)
  }

  function Fields(ps: seq<Piece>): seq<string> {
    if ps == [] then [] else [ps[0].field] + Fields(ps[1..])
  }

  /** The words a value adds: its fields, the first glued to the word in progress. */
  function Expected(word: Option<string>, ps: seq<Piece>): seq<string> {
    if ps == [] then Flush(word, [])
    else [Text(word) + ps[0].field] + Fields(ps[1..])
  }

  lemma {:induction false} PieceSplit(st: State, p: Piece, ifs: string, white: string)
    requires Separators(ifs, white) && NoneIn(p.field, ifs) && ValidGap(p.gap, ifs, white)
    requires st.copying != InField
    requires p.gap.Soft? || st.copying == AfterWhite ==> p.field != ""
    ensures var end := Stream(st, p.field + GapText(p.gap), ifs, white);
            if p.gap == Soft("") then end == State(InField, Some(Text(st.word) + p.field), st.words)
            else end == State(if p.gap.Soft? then AfterWhite else Searching, None, st.words + [Text(st.word) + p.field])
  {
    var mid := if p.field == "" then st else State(InField, Some(Text(st.word) + p.field), st.words);
    if p.field != "" { StreamText(st, p.field, ifs, white); }
    assert Text(mid.word) == Text(st.word) + p.field;
    StreamAppend(st, p.field, GapText(p.gap), ifs, white);
    match p.gap {
      case Hard(before, sep, after) => StreamHard(mid, before, sep, after, ifs, white);
      case Soft(ws) => if ws != "" { StreamSoft(mid, ws, ifs, white); }
    }
  }

  lemma {:induction false} PiecesSplit(st: State, ps: seq<Piece>, ifs: string, white: string)
    requires Separators(ifs, white) && ValidPieces(ps, ifs, white)
    requires st.copying != InField
    requires st.copying == AfterWhite ==> ps == [] || ps[0].field != ""
    ensures var end := Stream(st, Render(ps), ifs, white);
            Flush(end.word, end.words) == st.words + Expected(st.word, ps)
    decreases ps
  {
    if ps != [] {
      var first := ps[0].field + GapText(ps[0].gap);
      PieceSplit(st, ps[0], ifs, white);
      StreamAppend(st, first, Render(ps[1..]), ifs, white);
      if |ps| == 1 {
        assert ps[1..] == [];
      } else {
        var next := Stream(st, first, ifs, white);
        PiecesSplit(next, ps[1..], ifs, white);
        ExpectedUncons(st.word, ps, st.words);
      }
    }
  }

  lemma ExpectedUncons(word: Option<string>, ps: seq<Piece>, words: seq<string>)
    requires |ps| > 1
    ensures words + [Text(word) + ps[0].field] + Expected(None, ps[1..]) == words + Expected(word, ps)
  {
    var first := Text(word) + ps[0].field;
    assert Text(None) + ps[1].field == ps[1].field;
    assert Expected(None, ps[1..]) == Fields(ps[1..]);
    assert words + [first] + Fields(ps[1..]) == words + ([first] + Fields(ps[1..]));
  }

  /** Streaming any text that is white space followed by pieces yields the pieces' fields. */
  lemma {:induction false} SplitsAsPosix(word: Option<string>, words: seq<string>, lead: string, ps: seq<Piece>,
      ifs: string, white: string)
    requires Separators(ifs, white) && AllIn(lead, white) && ValidPieces(ps, ifs, white)
    ensures var end := Stream(State(Searching, word, words), lead + Render(ps), ifs, white);
            Flush(end.word, end.words) == words + Expected(word, ps)
  {
    var st := State(Searching, word, words);
    StreamAppend(st, lead, Render(ps), ifs, white);
    StreamWhite(st, lead, ifs, white);
    PiecesSplit(st, ps, ifs, white);
  }

  /** Every text has such a reading, so the previous lemma says what every text splits into. */
  lemma {:induction false} EveryTextHasPieces(value: string, ifs: string, white: string)
      returns (lead: string, ps: seq<Piece>)
    requires Separators(ifs, white)
    ensures value == lead + Render(ps) && AllIn(lead, white) && ValidPieces(ps, ifs, white)
  {
    var n := Spn(value, white);
    lead := value[..n];
    ps := PiecesOf(value[n..], ifs, white);
    TakeDrop(value, n);
  }

  lemma {:induction false} PiecesOf(s: string, ifs: string, white: string) returns (ps: seq<Piece>)
    requires Separators(ifs, white) && (s != [] ==> s[0] !in white)
    ensures s == Render(ps) && ValidPieces(ps, ifs, white)
    ensures s == [] <==> ps == []
    ensures s != [] && s[0] !in ifs ==> ps[0].field != ""
    decreases |s|
  {
    if s == [] {
      return [];
    }
    var p, tail := FirstPiece(s, ifs, white);
    var rest := PiecesOf(tail, ifs, white);
    ps := [p] + rest;
    assert ps[1..] == rest;
  }

  lemma FirstPiece(s: string, ifs: string, white: string) returns (p: Piece, tail: string)
    requires Separators(ifs, white) && s != [] && s[0] !in white
    ensures s == p.field + GapText(p.gap) + tail && |tail| < |s|
    ensures NoneIn(p.field, ifs) && ValidGap(p.gap, ifs, white)
    ensures s[0] !in ifs || p.gap.Soft? ==> p.field != ""
    ensures p.gap.Soft? && tail != "" ==> p.gap.ws != "" && tail[0] !in ifs
    ensures tail != "" ==> tail[0] !in white
  {
    var f := CspnEnd(s, 0, ifs);
    var g := SpnEnd(s, f, white);
    var field := s[0..f];
    if g < |s| && s[g] in ifs {
      var a := SpnEnd(s, g + 1, white);
      HardText(s, f, g, a);
      p, tail := Piece(field, Hard(s[f..g], s[g], s[g + 1..a])), s[a..];
    } else {
      assert s == field + s[f..g] + s[g..];
      p, tail := Piece(field, Soft(s[f..g])), s[g..];
    }
  }

  lemma HardText(s: string, f: nat, g: nat, a: nat)
    requires f <= g < a <= |s|
    ensures s == s[0..f] + (s[f..g] + [s[g]] + s[g + 1..a]) + s[a..]
  {
  }
}
