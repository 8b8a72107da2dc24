/** The scanners of the configuration file: three character machines over one
    file position. */
module IniScan {
  import opened CStrings

  /** What fgetc's EOF becomes in a char variable. */
  const EOF_CHAR: char := 255 as char

  predicate LineStart(prev: char) {
    prev == '\n' || prev == NUL
  }

  // ----- the next section name -----

  datatype Scan = Scan(inComment: bool, sectionStart: bool, name: string, prev: char)

  const START: Scan := Scan(false, false, "", NUL)

  /** One character, unless it completes a name. */
  function ScanStep(st: Scan, ch: char): Scan {
    (if ch == '#' && LineStart(st.prev) then st.(inComment := true)
     else if ch == '\n' && st.inComment then st.(inComment := false)
     else if st.inComment then st
     else if !st.sectionStart && ch == '[' then st.(sectionStart := true)
     else if st.sectionStart && ch != ']' then st.(name := st.name + [ch])
     else st).(prev := ch)
  }

  predicate Completes(st: Scan, ch: char) {
    !(ch == '#' && LineStart(st.prev)) && !st.inComment && st.sectionStart && st.name != "" && ch == ']'
  }

  /** A section name and the text after its closing bracket. */
  datatype Heading = Heading(name: string, rest: string)

  function NextFrom(st: Scan, t: string): Option<Heading>
    decreases t
  {
    if t == "" then None
    else if Completes(st, t[0]) then Some(Heading(st.name, t[1..]))
    else NextFrom(ScanStep(st, t[0]), t[1..])
  }

  lemma {:induction false} NextIsShorter(st: Scan, t: string)
    ensures NextFrom(st, t).Some? ==>
              var rest := NextFrom(st, t).value.rest; |rest| < |t| && rest == t[|t| - |rest|..]
    decreases t
  {
    if t != "" && !Completes(st, t[0]) {
      NextIsShorter(ScanStep(st, t[0]), t[1..]);
    }
  }

  /** The text after the heading of the first section with exactly this name. */
  function FindFrom(t: string, section: string): Option<string>
    decreases |t|
  {
    NextIsShorter(START, t);
    match NextFrom(START, t)
    case None => None
    case Some(h) => if h.name == section then Some(h.rest) else FindFrom(h.rest, section)
  }

  // ----- the value of a key -----

  datatype Phase =
    | Outside                  // looking for a "["
    | Name(matched: nat)       // comparing a section name
    | Key(matched: nat)        // in the section, comparing a key
    | WrongKey                 // passing to the end of the line
    | Value(value: string)     // copying the value

  /** The answer -1, or the characters copied. */
  datatype Lookup = NotFound | Found(value: string)

  datatype Query = Query(section: string, key: string, bufferlen: nat)

  /** A comment starts or goes on. */
  predicate Commented(inComment: bool, prev: char, ch: char) {
    inComment || (ch == '#' && LineStart(prev))
  }

  /** The phase after one character outside comments, while no answer is known. */
  function LookStep(q: Query, ph: Phase, ch: char): Phase {
    match ph
    case Outside => if ch == '[' then Name(0) else Outside
    case Name(n) => if ch == At(q.section, n) then Name(n + 1) else if n != 0 && ch == ']' then Key(0) else Outside
    case WrongKey => if ch == '\n' then Key(0) else WrongKey
    case Key(k) =>
      if ch == At(q.key, k) then Key(k + 1) else if IsSpace(ch) then Key(k)
      else if k != 0 && ch == '=' then Value("") else WrongKey
    case Value(v) => Value(v + [ch])
  }

  /** The answer one character gives: a new section ends the search for the key, a
      newline ends the value, and a full buffer ends it too. */
  function Answer(q: Query, ph: Phase, ch: char): Option<Lookup> {
    match ph
    case Key(k) => if ch == '[' && LookStep(q, ph, ch) == WrongKey then Some(NotFound) else None
    case Value(v) => if ch == '\n' || |v| >= q.bufferlen then Some(Found(v)) else None
    case _ => None
  }

  /** What the end of the file leaves in the buffer: its EOF is taken for a character. */
  function AtEnd(q: Query, ph: Phase, inComment: bool): Lookup {
    match ph
    case Value(v) => if inComment || |v| >= q.bufferlen then Found(v) else Found(v + [EOF_CHAR])
    case _ => Found("")
  }

  function LookFrom(q: Query, ph: Phase, inComment: bool, prev: char, t: string): Lookup
    decreases t
  {
    if t == "" then AtEnd(q, ph, inComment)
    else if Commented(inComment, prev, t[0]) then LookFrom(q, ph, !(inComment && t[0] == '\n'), t[0], t[1..])
    else
      match Answer(q, ph, t[0])
      case Some(answer) => answer
      case None => LookFrom(q, LookStep(q, ph, t[0]), false, t[0], t[1..])
  }

  function Look(q: Query, t: string): Lookup {
    LookFrom(q, Outside, false, NUL, t)
  }

  /** Where in the caller's buffer the terminator is written. */
  function Terminator(l: Lookup): nat {
    match l
    case NotFound => 0
    case Found(value) => |value|
  }

  // ----- the file and its scanners -----

  class IniFile {
    const content: string
    var pos: nat
    var eof: bool

    constructor (content: string)
      ensures this.content == content && pos == 0 && !eof
    {
      this.content, pos, eof := content, 0, false;
    }

    function Unread(): string
      reads this
    {
      if pos <= |content| then content[pos..] else ""
    }

    method Fgetc() returns (ch: char)
      modifies this
      ensures old(Unread()) == "" ==> ch == EOF_CHAR && eof && pos == old(pos)
      ensures old(Unread()) != "" ==>
                ch == old(Unread())[0] && Unread() == old(Unread())[1..] && eof == old(eof) && pos == old(pos) + 1
    {
      if pos < |content| {
        ch := content[pos];
        pos := pos + 1;
      } else {
        ch := EOF_CHAR;
        eof := true;
      }
    }

    /** fseek to an absolute position: a negative one fails and changes nothing. */
    method Seek(position: int) returns (failed: bool)
      modifies this
      ensures failed == (position < 0)
      ensures if failed then pos == old(pos) && eof == old(eof) else pos == position && !eof
    {
      failed := position < 0;
      if !failed {
        pos, eof := position, false;
      }
    }

    method NextSection() returns (name: Option<string>)
      modifies this
      ensures if old(eof) then name == None && eof && pos == old(pos) else
                match NextFrom(START, old(Unread()))
                case None => name == None && eof
                case Some(h) => name == Some(h.name) && Unread() == h.rest && !eof
                                && pos == old(pos) + (|old(Unread())| - |h.rest|)
    {
      var inComment, sectionStart, buf: string, prevch := false, false, "", NUL;
      ghost var goal := NextFrom(START, Unread());
      ghost var length := |Unread()|;
      while !eof
        invariant old(eof) ==> eof && pos == old(pos)
        invariant !old(eof) && eof ==> goal == None
        invariant !old(eof) && !eof ==> goal == NextFrom(Scan(inComment, sectionStart, buf, prevch), Unread())
                                        && pos == old(pos) + (length - |Unread()|)
        decreases !eof, |Unread()|
      {
        var ch := Fgetc();
        if ch == '#' && (prevch == '\n' || prevch == NUL) {
          inComment := true;
        } else if ch == '\n' && inComment {
          inComment := false;
        } else if inComment {
        } else if !sectionStart && ch == '[' {
          sectionStart := true;
        } else if sectionStart && ch != ']' {
          buf := buf + [ch];
        } else if sectionStart && buf != "" && ch == ']' {
          return Some(buf);
        }
        prevch := ch;
      }
      return None;
    }

    /** Leaves the file just after the name it found. */
    method HasSection(section: string) returns (has: bool)
      modifies this
      ensures match FindFrom(content, section)
              case None => !has
              case Some(rest) => has && Unread() == rest && !eof && pos == |content| - |rest|
    {
      var failed := Seek(0);
      assert Unread() == content;
      while true
        invariant !eof && pos == |content| - |Unread()|
        invariant FindFrom(Unread(), section) == FindFrom(content, section)
        decreases |Unread()|
      {
        NextIsShorter(START, Unread());
        var found := NextSection();
        if found == None {
          return false;
        }
        if found.value == section {
          return true;
        }
      }
    }

    /** The flags of the lookup as a phase. */
    ghost function PhaseOf(inSection: bool, sectionStart: bool, sectionNameChar: nat, inWrongKey: bool,
                           foundKey: bool, keyNameChar: nat, buffer: string): Phase
    {
      if !inSection then (if sectionStart then Name(sectionNameChar) else Outside)
      else if inWrongKey then WrongKey
      else if !foundKey then Key(keyNameChar)
      else Value(buffer)
    }

    /** The part of the lookup that compares section names. */
    method MatchHeader(q: Query, sectionStart0: bool, matched0: nat, ch: char)
      returns (sectionStart: bool, matched: nat, inSection: bool)
      requires !sectionStart0 ==> matched0 == 0
      ensures !sectionStart ==> matched == 0
      ensures PhaseOf(inSection, sectionStart, matched, false, false, 0, "")
              == LookStep(q, PhaseOf(false, sectionStart0, matched0, false, false, 0, ""), ch)
      ensures inSection ==> !sectionStart
    {
      sectionStart, matched, inSection := sectionStart0, matched0, false;
      if !sectionStart && ch == '[' {
        sectionStart := true;
      } else if sectionStart && ch == At(q.section, matched) {
        matched := matched + 1;
      } else if sectionStart && matched != 0 && ch == ']' {
        sectionStart := false;
        inSection := true;
        matched := 0;
      } else if sectionStart {
        sectionStart := false;
        matched := 0;
      }
    }

    /** The part of the lookup that compares keys; `aborted` at a new section. */
    method MatchKey(q: Query, keyNameChar0: nat, ch: char)
      returns (aborted: bool, keyNameChar: nat, foundKey: bool, inWrongKey: bool)
      ensures aborted <==> Answer(q, Key(keyNameChar0), ch) == Some(NotFound)
      ensures !aborted ==> Answer(q, Key(keyNameChar0), ch) == None && !(foundKey && inWrongKey)
                           && PhaseOf(true, false, 0, inWrongKey, foundKey, keyNameChar, "")
                              == LookStep(q, Key(keyNameChar0), ch)
    {
      aborted, keyNameChar, foundKey, inWrongKey := false, keyNameChar0, false, false;
      if ch == At(q.key, keyNameChar) {
        keyNameChar := keyNameChar + 1;
      } else if IsSpace(ch) {
      } else if keyNameChar != 0 && ch == '=' {
        foundKey := true;
      } else if ch == '[' {   // the test for a newline in between never succeeds: it is white space
        aborted := true;
      } else {
        inWrongKey := true;
      }
    }

    /** The return code is -1, or the length of what the buffer holds; `outside` if a
        byte was written behind the buffer's bufferlen bytes. */
    method GetStringAtPosition(q: Query, position: int) returns (code: int, buffer: string, outside: bool)
      modifies this
      ensures var from := if position < 0 then 0 else position;
              var answer := Look(q, if from <= |content| then content[from..] else "");
              outside == (Terminator(answer) >= q.bufferlen)
              && match answer
                 case NotFound => code == -1 && buffer == ""
                 case Found(value) => code == |value| && buffer == value
    {
      var ch, prevch := NUL, NUL;
      var sectionNameChar, keyNameChar := 0, 0;
      var inSection, sectionStart, foundKey, inComment, inWrongKey := false, false, false, false, false;
      var failed := Seek(position);
      if failed {
        failed := Seek(0);
      }
      buffer := "";
      ghost var goal := Look(q, Unread());
      while !eof
        invariant sectionNameChar >= 0 && keyNameChar >= 0
        invariant !sectionStart ==> sectionNameChar == 0
        invariant !inSection ==> keyNameChar == 0 && !inWrongKey
        invariant foundKey ==> inSection && !inWrongKey
        invariant !foundKey ==> buffer == ""
        invariant var ph := PhaseOf(inSection, sectionStart, sectionNameChar, inWrongKey, foundKey, keyNameChar,
                                    buffer);
                  if eof then goal == Found(buffer) else goal == LookFrom(q, ph, inComment, ch, Unread())
        decreases !eof, |Unread()|
      {
        prevch := ch;
        ch := Fgetc();
        if inComment {
          if ch == '\n' {
            inComment := false;
          }
          continue;
        } else if ch == '#' && (prevch == '\n' || prevch == NUL) {
          inComment := true;
          continue;
        }
        if !inSection {
          sectionStart, sectionNameChar, inSection := MatchHeader(q, sectionStart, sectionNameChar, ch);
        } else if inWrongKey {
          if ch == '\n' {
            inWrongKey := false;
            foundKey := false;
            keyNameChar := 0;
          }
        } else if !foundKey {
          var aborted;
          aborted, keyNameChar, foundKey, inWrongKey := MatchKey(q, keyNameChar, ch);
          if aborted {
            return -1, "", 0 >= q.bufferlen;
          }
        } else {
          if |buffer| < q.bufferlen {
            if ch != '\n' {
              buffer := buffer + [ch];
            } else {
              return |buffer|, buffer, |buffer| >= q.bufferlen;
            }
          } else {
            break;
          }
        }
      }
      return |buffer|, buffer, |buffer| >= q.bufferlen;
    }
  }
}
