/** The shell word expander: quoting, arithmetic expansion and word assembly.
    `Parsed` answers carry the word built so far and the text not yet consumed. */
module WordExp {
  import opened CStrings
  import opened Seqs
  import Arith

  /** The error returns, plus two ways out of the model: an arithmetic expansion C
      leaves undefined, and a construct handed to code outside this model. */
  datatype Error = SyntaxError | BadChar | UndefinedArith | OtherExpansion

  datatype Parse = Parsed(word: Option<string>, rest: string) | Failed(error: Error)

  datatype Outcome = Words(wordv: seq<string>) | Error(error: Error)

  predicate Clean(word: Option<string>) {
    word.Some? ==> NulFree(word.value)
  }

  function AddChar(word: Option<string>, c: char): (r: Option<string>)
    ensures Clean(word) && c != NUL ==> Clean(r)
  {
    Some(Text(word) + [c])
  }

  function AddStr(word: Option<string>, s: string): (r: Option<string>)
    ensures Clean(word) && NulFree(s) ==> Clean(r)
  {
    if s == "" then word else Some(Text(word) + s)
  }

  predicate Shrinks(r: Parse, t: string) {
    r.Parsed? ==> |r.rest| < |t|
  }

  // ----- the parsers as functions on the unread text -----

  /** At a backslash outside quotes. */
  function Backslash(word: Option<string>, t: string): (r: Parse)
    requires t != ""
    ensures Shrinks(r, t)
  {
    if |t| == 1 then Failed(SyntaxError)
    else if t[1] == '\n' then Parsed(word, t[2..])
    else Parsed(AddChar(word, t[1]), t[2..])
  }

  predicate Escapable(c: char) {
    c == '$' || c == '`' || c == '"' || c == '\\'
  }

  /** At a backslash inside double quotes or an arithmetic expansion. */
  function QtdBackslash(word: Option<string>, t: string): (r: Parse)
    requires t != ""
    ensures Shrinks(r, t)
  {
    if |t| == 1 then Failed(SyntaxError)
    else if t[1] == '\n' then Parsed(word, t[2..])
    else if Escapable(t[1]) then Parsed(AddChar(word, t[1]), t[2..])
    else Parsed(AddChar(AddChar(word, t[0]), t[1]), t[2..])
  }

  /** Just after a single quote. */
  function Squote(word: Option<string>, t: string): (r: Parse)
    ensures Shrinks(r, t)
    decreases t
  {
    if t == "" then Failed(SyntaxError)
    else if t[0] == '\'' then Parsed(word, t[1..])
    else Squote(AddChar(word, t[0]), t[1..])
  }

  /** The lookahead that tells $((1+3)) from $((echo);(ls)): does the first
      parenthesis that closes the outermost level come doubled? */
  function Closes(t: string, depth: nat): bool
    decreases t
  {
    if t == "" then false
    else if depth == 0 && t[0] == ')' then At(t, 1) == ')'
    else Closes(t[1..], if t[0] == '(' then depth + 1 else if t[0] == ')' then depth - 1 else depth)
  }

  /** snprintf("%lld") into 20 bytes: at most 19 characters and the terminator. */
  function MyItoa(v: int): (r: string)
    ensures |r| < 20 && NulFree(r)
  {
    var text := IntText(v);
    if |text| < 20 then text else text[..19]
  }

  /** Evaluates a collected expression and appends the printed result. */
  function Finish(word: Option<string>, expr: Option<string>, bracket: bool, rest: string): Parse {
    if expr == None then Failed(UndefinedArith) else
    match if expr == Some("") then Arith.Value(0, "") else Arith.EvalExpr(expr.value)
    case Syntax => Failed(SyntaxError)
    case Undefined => Failed(UndefinedArith)
    case Value(v, _) =>
      if bracket || v >= 0 then Parsed(AddStr(word, MyItoa(v)), rest)
      else if !Arith.IsLong(-v) then Failed(UndefinedArith)
      else Parsed(AddStr(AddChar(word, '-'), MyItoa(-v)), rest)
  }

  /** At the ")" that should end "$((", or at any "]". */
  function CloseArith(word: Option<string>, expr: Option<string>, depth: nat, t: string, bracket: bool): (r: Parse)
    requires t != "" && ((t[0] == ')' && depth == 1) || t[0] == ']')
    ensures Shrinks(r, t)
  {
    if t[0] == ')' then
      if bracket || At(t, 1) != ')' then Failed(SyntaxError) else Finish(word, expr, false, t[2..])
    else if bracket && depth == 1 then Finish(word, expr, true, t[1..])
    else Failed(SyntaxError)
  }

  /** Just after "$((" or "$[", collecting the expression; depth is paren_depth. */
  function ArithBody(word: Option<string>, expr: Option<string>, depth: nat, t: string, bracket: bool): (r: Parse)
    requires depth > 0
    ensures Shrinks(r, t)
    decreases |t|, 2
  {
    if t == "" then Failed(SyntaxError)
    else
      var c := t[0];
      if c == '$' || c == '\\' then
        match Inside(expr, t)
        case Failed(e) => Failed(e)
        case Parsed(expr', rest) => ArithBody(word, expr', depth, rest, bracket)
      else if c == '`' then Failed(OtherExpansion)
      else if (c == ')' && depth == 1) || c == ']' then CloseArith(word, expr, depth, t, bracket)
      else if c == '\n' || c == ';' || c == '{' || c == '}' then Failed(BadChar)
      else
        ArithBody(word, AddChar(expr, c), if c == ')' then depth - 1 else if c == '(' then depth + 1 else depth,
                  t[1..], bracket)
  }

  /** At a dollar sign or backslash inside double quotes or an expression. */
  function Inside(word: Option<string>, t: string): (r: Parse)
    requires t != "" && (t[0] == '$' || t[0] == '\\')
    ensures Shrinks(r, t)
    decreases |t|, 1
  {
    if t[0] == '$' then Dollars(word, t) else QtdBackslash(word, t)
  }

  /** At a dollar sign. */
  function Dollars(word: Option<string>, t: string): (r: Parse)
    requires t != "" && t[0] == '$'
    ensures Shrinks(r, t)
    decreases |t|, 0
  {
    var c := At(t, 1);
    if c == '"' || c == '\'' || c == NUL then Parsed(AddChar(word, '$'), t[1..])
    else if c == '(' && At(t, 2) == '(' && Closes(t[3..], 0) then ArithBody(word, None, 1, t[3..], false)
    else if c == '[' then ArithBody(word, None, 1, t[2..], true)
    else Failed(OtherExpansion)
  }

  /** Just after a double quote. */
  function Dquote(word: Option<string>, t: string): (r: Parse)
    ensures Shrinks(r, t)
    decreases |t|
  {
    if t == "" then Failed(SyntaxError)
    else if t[0] == '"' then Parsed(word, t[1..])
    else if t[0] == '$' || t[0] == '\\' then
      match Inside(word, t)
      case Failed(e) => Failed(e)
      case Parsed(word', rest) => Dquote(word', rest)
    else if t[0] == '`' then Failed(OtherExpansion)
    else Dquote(AddChar(word, t[0]), t[1..])
  }

  function AddWord(wordv: seq<string>, word: Option<string>): seq<string> {
    if word == None then wordv else wordv + [word.value]
  }

  /** Characters that may not appear unquoted. */
  predicate Operator(c: char) {
    || c == '\n' || c == '|' || c == '&' || c == ';' || c == '<' || c == '>'
    || c == '(' || c == ')' || c == '{' || c == '}'
  }

  /** Characters that start an expansion outside this model. */
  predicate Expands(c: char) {
    c == '`' || c == '~' || c == '*' || c == '[' || c == '?'
  }

  /** Characters that start a quotation or an expansion within this model. */
  predicate Quotes(c: char) {
    c == '\\' || c == '$' || c == '"' || c == '\''
  }

  /** The parser selected by the first character of an expansion or quotation. */
  function Special(word: Option<string>, t: string): (r: Parse)
    requires t != "" && Quotes(t[0])
    ensures Shrinks(r, t)
  {
    if t[0] == '\\' then Backslash(word, t)
    else if t[0] == '$' then Dollars(word, t)
    else if t[0] == '"' then Dquote(word, t[1..])
    else Squote(word, t[1..])
  }

  /** The main loop: from a word in progress and the words so far to the outcome. */
  function Expand(word: Option<string>, wordv: seq<string>, t: string): Outcome
    decreases |t|
  {
    if t == "" then Words(AddWord(wordv, word))
    else if Quotes(t[0]) then
      match Special(word, t)
      case Failed(e) => Error(e)
      case Parsed(word', rest) => Expand(word', wordv, rest)
    else if Expands(t[0]) then Error(OtherExpansion)
    else if t[0] == ' ' || t[0] == '\t' then Expand(None, AddWord(wordv, word), t[1..])
    else if Operator(t[0]) then Error(BadChar)
    else Expand(AddChar(word, t[0]), wordv, t[1..])
  }

  // ----- the expander as it runs: a shared cursor over the input -----

  class Expander {
    const words: string
    var offset: nat

    constructor (words: string)
      ensures this.words == words && offset == 0
    {
      this.words := words;
      offset := 0;
    }

    /** Success leaves the cursor on the last character consumed. */
    ghost predicate Left(r: Parse, error: Option<Error>, word: Option<string>)
      reads this
    {
      match r
      case Failed(e) => error == Some(e)
      case Parsed(w, rest) => error == None && word == w && offset < |words| && words[offset + 1..] == rest
    }

    method ParseBackslash(word: Option<string>) returns (error: Option<Error>, w: Option<string>)
      requires offset < |words| && NulFree(words)
      modifies this
      ensures Left(Backslash(word, old(words[offset..])), error, w)
    {
      error, w := None, word;
      ghost var t := words[offset..];
      assert |t| > 1 ==> t[1] == words[offset + 1] && t[2..] == words[offset + 2..];
      var next := At(words, offset + 1);
      if next == NUL {
        error := Some(SyntaxError);
      } else if next == '\n' {
        offset := offset + 1;
      } else {
        w := AddChar(word, next);
        offset := offset + 1;
      }
    }

    method ParseQtdBackslash(word: Option<string>) returns (error: Option<Error>, w: Option<string>)
      requires offset < |words| && NulFree(words)
      modifies this
      ensures Left(QtdBackslash(word, old(words[offset..])), error, w)
      ensures error == None ==> old(offset) < offset && (Clean(word) ==> Clean(w))
    {
      error, w := None, word;
      ghost var t := words[offset..];
      assert t[0] == words[offset];
      assert |t| > 1 ==> t[1] == words[offset + 1] && t[2..] == words[offset + 2..];
      var next := At(words, offset + 1);
      if next == NUL {
        error := Some(SyntaxError);
      } else if next == '\n' {
        offset := offset + 1;
      } else if Escapable(next) {
        w := AddChar(word, next);
        offset := offset + 1;
      } else {
        w := AddChar(word, words[offset]);
        w := AddChar(w, next);
        offset := offset + 1;
      }
    }

    method ParseSquote(word: Option<string>) returns (error: Option<Error>, w: Option<string>)
      requires offset <= |words|
      modifies this
      ensures Left(Squote(word, old(words[offset..])), error, w)
    {
      ghost var goal := Squote(word, words[offset..]);
      w := word;
      while offset < |words|
        invariant offset <= |words|
        invariant Squote(w, words[offset..]) == goal
      {
        if words[offset] != '\'' {
          w := AddChar(w, words[offset]);
        } else {
          return None, w;
        }
        assert words[offset..][1..] == words[offset + 1..];
        offset := offset + 1;
      }
      error := Some(SyntaxError);
    }

    /** The lookahead of parse_dollars, from just after "$((". */
    method ArithmeticAhead(start: nat) returns (closes: bool)
      requires start <= |words| && NulFree(words)
      ensures closes == Closes(words[start..], 0)
    {
      var i, depth := start, 0;
      while i < |words| && !(depth == 0 && words[i] == ')')
        invariant i <= |words| && depth >= 0
        invariant Closes(words[i..], depth) == Closes(words[start..], 0)
      {
        assert words[i..][1..] == words[i + 1..];
        if words[i] == '(' {
          depth := depth + 1;
        } else if words[i] == ')' {
          depth := depth - 1;
        }
        i := i + 1;
      }
      closes := At(words, i) == ')' && At(words, i + 1) == ')';
    }

    method EvalCollected(word: Option<string>, expr: Option<string>, bracket: bool)
      returns (error: Option<Error>, w: Option<string>)
      requires Clean(expr)
      ensures forall rest :: match Finish(word, expr, bracket, rest)
                             case Failed(e) => error == Some(e)
                             case Parsed(w', rest') => error == None && w == w' && rest' == rest
      ensures Clean(word) ==> Clean(w)
    {
      w := word;
      if expr == None {
        return Some(UndefinedArith), w;
      }
      var numresult := 0;
      if expr.value != "" {
        var code;
        code, numresult := Evaluate(expr.value);
        if code == Arith.WrdeSyntax {
          return Some(SyntaxError), w;
        } else if code == Arith.Undef {
          return Some(UndefinedArith), w;
        }
      }
      var convertme := numresult;
      if !bracket && numresult < 0 {
        if !Arith.IsLong(-numresult) {
          return Some(UndefinedArith), w;
        }
        convertme := -numresult;
        w := AddChar(w, '-');
      }
      w := AddStr(w, MyItoa(convertme));
      error := None;
    }

    /** Runs the evaluator on its own NUL-terminated copy of the expression. */
    method Evaluate(expr: string) returns (code: Arith.Code, result: int)
      requires NulFree(expr)
      ensures match Arith.EvalExpr(expr)
              case Value(v, _) => code == Arith.Fine && result == v
              case Syntax => code == Arith.WrdeSyntax
              case Undefined => code == Arith.Undef
    {
      var buf := new char[|expr| + 1](i => At(expr, i));
      ghost var unread;
      assert buf[0..|expr|] == expr;
      code, unread, result := Arith.EvalExpression(buf, 0, |expr|);
    }

    method ParseCloseArith(word: Option<string>, expr: Option<string>, parenDepth: nat, bracket: bool)
      returns (error: Option<Error>, w: Option<string>)
      requires offset < |words| && NulFree(words) && Clean(expr)
      requires (words[offset] == ')' && parenDepth == 1) || words[offset] == ']'
      modifies this
      ensures Left(CloseArith(word, expr, parenDepth, old(words[offset..]), bracket), error, w)
      ensures error == None ==> old(offset) <= offset && (Clean(word) ==> Clean(w))
    {
      ghost var t := words[offset..];
      assert t[0] == words[offset] && t[1..] == words[offset + 1..] && At(t, 1) == At(words, offset + 1);
      if words[offset] == ')' {
        if bracket || At(words, offset + 1) != ')' {
          return Some(SyntaxError), word;
        }
        offset := offset + 1;
        assert t[2..] == words[offset + 1..];
        error, w := EvalCollected(word, expr, false);
      } else {
        if !(bracket && parenDepth == 1) {
          return Some(SyntaxError), word;
        }
        error, w := EvalCollected(word, expr, true);
      }
    }

    method ParseArith(word: Option<string>, bracket: bool) returns (error: Option<Error>, w: Option<string>)
      requires offset <= |words| && NulFree(words)
      modifies this
      ensures Left(ArithBody(word, None, 1, old(words[offset..]), bracket), error, w)
      ensures error == None ==> old(offset) <= offset && (Clean(word) ==> Clean(w))
      decreases |words| - offset, 3
    {
      ghost var goal := ArithBody(word, None, 1, words[offset..], bracket);
      w := word;
      var expr: Option<string> := None;
      var parenDepth := 1;
      while offset < |words|
        invariant old(offset) <= offset <= |words| && parenDepth > 0
        invariant Clean(expr)
        invariant w == word && ArithBody(word, expr, parenDepth, words[offset..], bracket) == goal
      {
        var more;
        more, error, w, expr, parenDepth := ArithTurn(word, expr, parenDepth, bracket);
        if !more { return; }
      }
      error := Some(SyntaxError);
    }

    /** One turn of that loop; `more` unless the expansion ended or failed. */
    method ArithTurn(word: Option<string>, expr0: Option<string>, depth0: nat, bracket: bool)
      returns (more: bool, error: Option<Error>, w: Option<string>, expr: Option<string>, depth: nat)
      requires offset < |words| && NulFree(words) && Clean(expr0) && depth0 > 0
      modifies this
      ensures more ==> w == word && Clean(expr) && depth > 0 && old(offset) < offset <= |words|
      ensures var r := ArithBody(word, expr0, depth0, old(words[offset..]), bracket);
              if more then r == ArithBody(word, expr, depth, words[offset..], bracket) else Left(r, error, w)
      ensures !more && error == None ==> old(offset) <= offset && (Clean(word) ==> Clean(w))
      decreases |words| - offset, 2
    {
      more, error, w, expr, depth := false, None, word, expr0, depth0;
      var c := words[offset];
      Tail(words, offset);
      if c == '$' || c == '\\' {
        error, expr := ParseInside(expr);
        if error.Some? { return; }
      } else if c == '`' {
        error := Some(OtherExpansion);
        return;
      } else if (c == ')' && depth == 1) || c == ']' {
        error, w := ParseCloseArith(word, expr, depth, bracket);
        return;
      } else if c == '\n' || c == ';' || c == '{' || c == '}' {
        error := Some(BadChar);
        return;
      } else {
        if c == ')' {
          depth := depth - 1;
        } else if c == '(' {
          depth := depth + 1;
        }
        expr := AddChar(expr, c);
      }
      offset := offset + 1;
      more := true;
    }

    method ParseInside(word: Option<string>) returns (error: Option<Error>, w: Option<string>)
      requires offset < |words| && (words[offset] == '$' || words[offset] == '\\') && NulFree(words)
      modifies this
      ensures Left(Inside(word, old(words[offset..])), error, w)
      ensures error == None ==> old(offset) <= offset && (Clean(word) ==> Clean(w))
      decreases |words| - offset, 1
    {
      if words[offset] == '$' {
        error, w := ParseDollars(word);
      } else {
        error, w := ParseQtdBackslash(word);
      }
    }

    method ParseDollars(word: Option<string>) returns (error: Option<Error>, w: Option<string>)
      requires offset < |words| && words[offset] == '$' && NulFree(words)
      modifies this
      ensures Left(Dollars(word, old(words[offset..])), error, w)
      ensures error == None ==> old(offset) <= offset && (Clean(word) ==> Clean(w))
      decreases |words| - offset, 0
    {
      ghost var t := words[offset..];
      assert forall i: nat :: At(t, i) == At(words, offset + i);
      var c := At(words, offset + 1);
      if c == '"' || c == '\'' || c == NUL {
        return None, AddChar(word, '$');
      }
      if c == '(' && At(words, offset + 2) == '(' {
        assert t[3..] == words[offset + 3..];
        var closes := ArithmeticAhead(offset + 3);
        if closes {
          offset := offset + 3;
          error, w := ParseArith(word, false);
          return;
        }
      } else if c == '[' {
        offset := offset + 2;
        assert t[2..] == words[offset..];
        error, w := ParseArith(word, true);
        return;
      }
      return Some(OtherExpansion), word;
    }

    method ParseDquote(word: Option<string>) returns (error: Option<Error>, w: Option<string>)
      requires offset <= |words| && NulFree(words)
      modifies this
      ensures Left(Dquote(word, old(words[offset..])), error, w)
    {
      ghost var goal := Dquote(word, words[offset..]);
      w := word;
      while offset < |words|
        invariant offset <= |words|
        invariant Dquote(w, words[offset..]) == goal
      {
        var more;
        more, error, w := DquoteTurn(w);
        if !more { return; }
      }
      error := Some(SyntaxError);
    }

    /** One turn of that loop; `more` unless the quotation ended or failed. */
    method DquoteTurn(word: Option<string>) returns (more: bool, error: Option<Error>, w: Option<string>)
      requires offset < |words| && NulFree(words)
      modifies this
      ensures more ==> old(offset) < offset <= |words|
      ensures var r := Dquote(word, old(words[offset..]));
              if more then r == Dquote(w, words[offset..]) else Left(r, error, w)
    {
      more, error, w := false, None, word;
      Tail(words, offset);
      if words[offset] == '"' {
        return;
      } else if words[offset] == '$' || words[offset] == '\\' {
        error, w := ParseInside(word);
        if error.Some? { return; }
      } else if words[offset] == '`' {
        error := Some(OtherExpansion);
        return;
      } else {
        w := AddChar(word, words[offset]);
      }
      offset := offset + 1;
      more := true;
    }

    method ParseSpecial(word: Option<string>) returns (error: Option<Error>, w: Option<string>)
      requires offset < |words| && Quotes(words[offset]) && NulFree(words)
      modifies this
      ensures Left(Special(word, old(words[offset..])), error, w)
    {
      ghost var t := words[offset..];
      var c := words[offset];
      assert t[0] == c && t[1..] == words[offset + 1..];
      if c == '\\' {
        error, w := ParseBackslash(word);
      } else if c == '$' {
        error, w := ParseDollars(word);
      } else if c == '"' {
        offset := offset + 1;
        error, w := ParseDquote(word);
      } else {
        offset := offset + 1;
        error, w := ParseSquote(word);
      }
    }

    /** wordexp with no flags set. */
    method Wordexp() returns (outcome: Outcome)
      requires offset == 0 && NulFree(words)
      modifies this
      ensures outcome == Expand(None, [], words)
    {
      var word: Option<string> := None;
      var wordv: seq<string> := [];
      assert words[0..] == words;
      while offset < |words|
        invariant offset <= |words|
        invariant Expand(word, wordv, words[offset..]) == Expand(None, [], words)
      {
        var error: Option<Error> := None;
        ghost var t := words[offset..];
        var c := words[offset];
        assert t[0] == c && t[1..] == words[offset + 1..];
        if Quotes(c) {
          error, word := ParseSpecial(word);
        } else if Expands(c) {
          return Error(OtherExpansion);
        } else if c != ' ' && c != '\t' {
          if Operator(c) {
            return Error(BadChar);
          }
          word := AddChar(word, c);
        } else {
          wordv := AddWord(wordv, word);
          word := None;
        }
        if error.Some? {
          return Error(error.value);
        }
        offset := offset + 1;
      }
      outcome := Words(AddWord(wordv, word));
    }
  }
}
