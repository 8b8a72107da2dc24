/** How the word expander reads ANY text: as words made of the pieces of quoting and expansion it
    knows, up to the end of the text or to the first thing it refuses. */
module WordReading {
  import opened CStrings
  import opened Seqs
  import opened WordExp
  import Arith
  import ArithExpr
  import WordQuote

  // ----- what may stand inside double quotes and inside an arithmetic expansion -----

  datatype Token =
    | Raw(c: char)                                // a character that stands for itself
    | Escaped(c: char)                            // a backslash that protects the next character
    | Kept(c: char)                               // a backslash that stands for itself
    | Folded                                      // a backslash-newline, which disappears
    | Dollar                                      // a dollar sign that stands for itself
    | Reckoned(bracket: bool, body: seq<Token>)   // an arithmetic expansion, in either form

  function Opening(bracket: bool): string {
    if bracket then "$[" else "$(("
  }

  function Closing(bracket: bool): string {
    if bracket then "]" else "))"
  }

  function TokenText(k: Token): (r: string)
    ensures r != "" && (k.Raw? || r[0] == '$' || r[0] == '\\')
    decreases k
  {
    match k
    case Raw(c) => [c]
    case Escaped(c) => ['\\', c]
    case Kept(c) => ['\\', c]
    case Folded => ['\\', '\n']
    case Dollar => ['$']
    case Reckoned(bracket, body) => Opening(bracket) + (TokensText(body) + Closing(bracket))
  }

  function TokensText(ks: seq<Token>): string
    decreases ks
  {
    if ks == [] then "" else TokenText(ks[0]) + TokensText(ks[1..])
  }

  /** The expression collected is nonempty and has a value that can be printed in this form. */
  predicate Evaluates(bracket: bool, expr: string) {
    expr != ""
    && match Arith.EvalExpr(expr)
       case Value(v, _) => bracket || v >= 0 || Arith.IsLong(0 - v)
       case _ => false
  }

  function ResultText(bracket: bool, expr: string): string {
    match Arith.EvalExpr(expr)
    case Value(v, _) => if bracket || v >= 0 then MyItoa(v) else "-" + MyItoa(0 - v)
    case _ => ""
  }

  /** The error of an expression without one. */
  function ReckonError(expr: string): Error {
    if expr != "" && Arith.EvalExpr(expr).Syntax? then SyntaxError else UndefinedArith
  }

  function TokenMeaning(k: Token): string
    decreases k
  {
    match k
    case Raw(c) => [c]
    case Escaped(c) => [c]
    case Kept(c) => ['\\', c]
    case Folded => ""
    case Dollar => "$"
    case Reckoned(bracket, body) => ResultText(bracket, TokensMeaning(body))
  }

  function TokensMeaning(ks: seq<Token>): string
    decreases ks
  {
    if ks == [] then "" else TokenMeaning(ks[0]) + TokensMeaning(ks[1..])
  }

  /** Parentheses of the expression itself never close more than it opened. */
  predicate Nests(ks: seq<Token>, depth: nat)
    decreases ks
  {
    ks != [] ==> (ks[0] == Raw(')') ==> depth > 1) && Nests(ks[1..], DepthBehind(ks[0], depth))
  }

  function DepthBehind(k: Token, depth: nat): nat {
    if k == Raw('(') then depth + 1 else if k == Raw(')') && depth > 0 then depth - 1 else depth
  }

  function Depth(ks: seq<Token>, depth: nat): nat
    decreases ks
  {
    if ks == [] then depth else Depth(ks[1..], DepthBehind(ks[0], depth))
  }

  predicate QuoteChar(c: char) {
    c != '"' && c != '$' && c != '\\' && c != '`'
  }

  predicate BodyChar(c: char) {
    && c != '$' && c != '\\' && c != '`' && c != ']'
    && c != '\n' && c != ';' && c != '{' && c != '}'
  }

  /** Characters a backslash protects there. */
  predicate Protected(c: char) {
    c == '$' || c == '`' || c == '"' || c == '\\'
  }

  /** Behind a dollar sign that stands for itself. */
  predicate Literal(c: char) {
    c == '"' || c == '\'' || c == NUL
  }

  /** What a token needs of the text behind it; a raw character depends on where it stands. */
  predicate ValidToken(k: Token, inBody: bool, tail: string)
    decreases k
  {
    match k
    case Raw(c) => if inBody then BodyChar(c) else QuoteChar(c)
    case Escaped(c) => Protected(c)
    case Kept(c) => !Protected(c) && c != '\n'
    case Folded => true
    case Dollar => Literal(At(tail, 0))
    case Reckoned(bracket, body) =>
      && ValidTokens(body, true, Closing(bracket) + tail) && Nests(body, 1) && Depth(body, 1) == 1
      && Evaluates(bracket, TokensMeaning(body))
      && (!bracket ==> Closes(TokensText(body) + (Closing(false) + tail), 0))
  }

  predicate ValidTokens(ks: seq<Token>, inBody: bool, tail: string)
    decreases ks
  {
    ks != [] ==> ValidToken(ks[0], inBody, TokensText(ks[1..]) + tail) && ValidTokens(ks[1..], inBody, tail)
  }

  // ----- such text reads as its meaning -----

  lemma FinishIs(word: Option<string>, expr: string, bracket: bool, rest: string)
    ensures Finish(word, AddStr(None, expr), bracket, rest)
            == if Evaluates(bracket, expr) then Parsed(AddStr(word, ResultText(bracket, expr)), rest)
               else Failed(ReckonError(expr))
  {
    assert "" + expr == expr;
    if expr != "" {
      match Arith.EvalExpr(expr)
      case Value(v, _) =>
        if !bracket && v < 0 && Arith.IsLong(0 - v) {
          WordQuote.AddTwice(word, "-", MyItoa(0 - v));
          assert AddChar(word, '-') == AddStr(word, "-");
        }
      case _ =>
    }
  }

  lemma ClosesBody(word: Option<string>, expr: Option<string>, bracket: bool, tail: string)
    ensures ArithBody(word, expr, 1, Closing(bracket) + tail, bracket) == Finish(word, expr, bracket, tail)
  {
    var t := Closing(bracket) + tail;
    if bracket {
      assert t[0] == ']' && t[1..] == tail;
    } else {
      assert t[0] == ')' && At(t, 1) == ')' && t[2..] == tail;
    }
  }

  lemma OpensBody(word: Option<string>, bracket: bool, x: string)
    requires !bracket ==> Closes(x, 0)
    ensures (Opening(bracket) + x)[0] == '$'
    ensures Dollars(word, Opening(bracket) + x) == ArithBody(word, None, 1, x, bracket)
  {
    var t := Opening(bracket) + x;
    if bracket {
      assert t[1] == '[' && t[2..] == x;
    } else {
      assert t[1] == '(' && t[2] == '(' && t[3..] == x;
    }
  }

  lemma {:induction false} ReckonedReads(word: Option<string>, bracket: bool, body: seq<Token>, tail: string)
    requires ValidTokens(body, true, Closing(bracket) + tail) && Nests(body, 1) && Depth(body, 1) == 1
    requires !bracket ==> Closes(TokensText(body) + (Closing(false) + tail), 0)
    ensures var t := Opening(bracket) + (TokensText(body) + (Closing(bracket) + tail));
            t[0] == '$'
            && Dollars(word, t) == if Evaluates(bracket, TokensMeaning(body))
                                   then Parsed(AddStr(word, ResultText(bracket, TokensMeaning(body))), tail)
                                   else Failed(ReckonError(TokensMeaning(body)))
    decreases body, 1
  {
    OpensBody(word, bracket, TokensText(body) + (Closing(bracket) + tail));
    BodyReads(word, None, 1, body, Closing(bracket) + tail, bracket);
    ClosesBody(word, AddStr(None, TokensMeaning(body)), bracket, tail);
    FinishIs(word, TokensMeaning(body), bracket, tail);
  }

  lemma Regrouped(a: string, b: string, c: string, d: string)
    ensures a + (b + c) + d == a + (b + (c + d))
  {
  }

  lemma {:induction false} TokenReads(word: Option<string>, k: Token, inBody: bool, tail: string)
    requires ValidToken(k, inBody, tail) && !k.Raw?
    ensures (TokenText(k) + tail)[0] == TokenText(k)[0]
    ensures Inside(word, TokenText(k) + tail) == Parsed(AddStr(word, TokenMeaning(k)), tail)
    decreases k
  {
    var t := TokenText(k) + tail;
    match k {
      case Reckoned(bracket, body) =>
        Regrouped(Opening(bracket), TokensText(body), Closing(bracket), tail);
        ReckonedReads(word, bracket, body, tail);
      case Dollar => assert t[1..] == tail && At(t, 1) == At(tail, 0);
      case Kept(c) =>
        assert t[0] == '\\' && t[1] == c && t[2..] == tail;
        assert Text(word) + ['\\'] + [c] == Text(word) + ['\\', c];
      case Escaped(c) => assert t[0] == '\\' && t[1] == c && t[2..] == tail;
      case Folded => assert t[0] == '\\' && t[1] == '\n' && t[2..] == tail;
    }
  }

  lemma {:induction false} BodyReads(word: Option<string>, expr: Option<string>, depth: nat, ks: seq<Token>,
      tail: string, bracket: bool)
    requires ValidTokens(ks, true, tail) && Nests(ks, depth) && depth > 0
    ensures Depth(ks, depth) > 0
    ensures ArithBody(word, expr, depth, TokensText(ks) + tail, bracket)
            == ArithBody(word, AddStr(expr, TokensMeaning(ks)), Depth(ks, depth), tail, bracket)
    decreases ks, 0
  {
    if ks == [] {
      assert "" + tail == tail;
    } else {
      var k, rest := ks[0], TokensText(ks[1..]) + tail;
      Associative(TokenText(k), TokensText(ks[1..]), tail);
      if k.Raw? {
        assert (TokenText(k) + rest)[0] == k.c && (TokenText(k) + rest)[1..] == rest;
      } else {
        TokenReads(expr, k, true, rest);
      }
      BodyReads(word, AddStr(expr, TokenMeaning(k)), DepthBehind(k, depth), ks[1..], tail, bracket);
      WordQuote.AddTwice(expr, TokenMeaning(k), TokensMeaning(ks[1..]));
    }
  }

  lemma {:induction false} QuotedReads(word: Option<string>, ks: seq<Token>, tail: string)
    requires ValidTokens(ks, false, tail)
    ensures Dquote(word, TokensText(ks) + tail) == Dquote(AddStr(word, TokensMeaning(ks)), tail)
    decreases ks
  {
    if ks == [] {
      assert "" + tail == tail;
    } else {
      var k, rest := ks[0], TokensText(ks[1..]) + tail;
      Associative(TokenText(k), TokensText(ks[1..]), tail);
      if k.Raw? {
        assert (TokenText(k) + rest)[0] == k.c && (TokenText(k) + rest)[1..] == rest;
      } else {
        TokenReads(word, k, false, rest);
      }
      QuotedReads(AddStr(word, TokenMeaning(k)), ks[1..], tail);
      WordQuote.AddTwice(word, TokenMeaning(k), TokensMeaning(ks[1..]));
    }
  }

  // ----- what is refused there -----

  /** The first thing refused inside double quotes or an expression. */
  datatype Fault =
    | Ended                                            // the text ends
    | Lone                                             // a backslash is the last character
    | Backquote
    | Bad(c: char)                                     // a character not allowed in an expression
    | Unmatched                                        // a closing bracket or parenthesis out of place
    | Unknown                                          // a dollar sign that starts another expansion
    | Unreckoned(bracket: bool, body: seq<Token>)      // an expression without a value
    | Within(bracket: bool, body: seq<Token>, fault: Fault)

  /** The text is the beginning of an arithmetic expansion, as far as the given tokens. */
  predicate Begins(t: string, bracket: bool, body: seq<Token>, u: string) {
    && t == Opening(bracket) + (TokensText(body) + u)
    && ValidTokens(body, true, u) && Nests(body, 1)
    && (!bracket ==> Closes(TokensText(body) + u, 0))
  }

  /** Characters that may follow a dollar sign in this model. */
  predicate Known(t: string) {
    || Literal(At(t, 1)) || At(t, 1) == '['
    || (At(t, 1) == '(' && At(t, 2) == '(' && Closes(t[3..], 0))
  }

  /** At a dollar sign or a backslash. */
  ghost predicate FaultAt(f: Fault, t: string, e: Error)
    decreases f, 0
  {
    match f
    case Lone => t == "\\" && e == SyntaxError
    case Unknown => t != "" && t[0] == '$' && !Known(t) && e == OtherExpansion
    case Unreckoned(bracket, body) =>
      (exists tail :: Begins(t, bracket, body, Closing(bracket) + tail))
      && Depth(body, 1) == 1 && !Evaluates(bracket, TokensMeaning(body)) && e == ReckonError(TokensMeaning(body))
    case Within(bracket, body, fault) =>
      exists u :: Begins(t, bracket, body, u) && FaultInBody(fault, Depth(body, 1), bracket, u, e)
    case _ => false
  }

  /** At any place in an expression. */
  ghost predicate FaultInBody(f: Fault, depth: nat, bracket: bool, t: string, e: Error)
    decreases f, 1
  {
    match f
    case Ended => t == "" && e == SyntaxError
    case Backquote => t != "" && t[0] == '`' && e == OtherExpansion
    case Bad(c) => t != "" && t[0] == c && (c == '\n' || c == ';' || c == '{' || c == '}') && e == BadChar
    case Unmatched => t != "" && OutOfPlace(depth, bracket, t) && e == SyntaxError
    case _ => FaultAt(f, t, e)
  }

  predicate OutOfPlace(depth: nat, bracket: bool, t: string)
    requires t != ""
  {
    || (t[0] == ']' && !(bracket && depth == 1))
    || (t[0] == ')' && depth == 1 && (bracket || At(t, 1) != ')'))
  }

  /** At any place inside double quotes. */
  ghost predicate FaultInQuotes(f: Fault, t: string, e: Error) {
    match f
    case Ended => t == "" && e == SyntaxError
    case Backquote => t != "" && t[0] == '`' && e == OtherExpansion
    case _ => FaultAt(f, t, e)
  }

  lemma {:induction false} FaultFails(word: Option<string>, f: Fault, t: string, e: Error)
    requires FaultAt(f, t, e)
    ensures t != "" && (t[0] == '$' || t[0] == '\\') && Inside(word, t) == Failed(e)
    decreases f, 0
  {
    match f {
      case Unreckoned(bracket, body) =>
        var tail :| Begins(t, bracket, body, Closing(bracket) + tail);
        ReckonedReads(word, bracket, body, tail);
      case Within(bracket, body, fault) =>
        var u :| Begins(t, bracket, body, u) && FaultInBody(fault, Depth(body, 1), bracket, u, e);
        OpensBody(word, bracket, TokensText(body) + u);
        BodyReads(word, None, 1, body, u, bracket);
        BodyFails(word, AddStr(None, TokensMeaning(body)), fault, Depth(body, 1), bracket, u, e);
      case _ =>
    }
  }

  lemma {:induction false} BodyFails(word: Option<string>, expr: Option<string>, f: Fault, depth: nat,
      bracket: bool, t: string, e: Error)
    requires FaultInBody(f, depth, bracket, t, e) && depth > 0
    ensures ArithBody(word, expr, depth, t, bracket) == Failed(e)
    decreases f, 1
  {
    match f {
      case Ended =>
      case Backquote =>
      case Bad(c) =>
      case Unmatched =>
      case _ => FaultFails(expr, f, t, e);
    }
  }

  lemma QuotesFail(word: Option<string>, f: Fault, t: string, e: Error)
    requires FaultInQuotes(f, t, e)
    ensures Dquote(word, t) == Failed(e)
  {
    match f {
      case Ended =>
      case Backquote =>
      case _ => FaultFails(word, f, t, e);
    }
  }

  // ----- reading such text -----

  datatype Reading = Got(k: Token, rest: string) | Refused(fault: Fault, error: Error)

  /** The reading of a text that starts with a dollar sign or a backslash. */
  ghost predicate ReadsInside(t: string, r: Reading) {
    match r
    case Got(k, rest) =>
      !k.Raw? && t == TokenText(k) + rest && ValidToken(k, true, rest) && ValidToken(k, false, rest) && |rest| < |t|
    case Refused(f, e) => FaultAt(f, t, e)
  }

  lemma ReadBackslash(t: string) returns (r: Reading)
    requires t != "" && t[0] == '\\'
    ensures ReadsInside(t, r)
  {
    if |t| == 1 {
      assert t == "\\";
      r := Refused(Lone, SyntaxError);
    } else {
      assert t == ['\\', t[1]] + t[2..];
      r := Got(if t[1] == '\n' then Folded else if Protected(t[1]) then Escaped(t[1]) else Kept(t[1]), t[2..]);
    }
  }

  lemma {:induction false} ReadInside(t: string) returns (r: Reading)
    requires t != "" && (t[0] == '$' || t[0] == '\\')
    ensures ReadsInside(t, r)
    decreases |t|, 1
  {
    if t[0] == '\\' {
      r := ReadBackslash(t);
    } else if Literal(At(t, 1)) {
      assert t == ['$'] + t[1..] && At(t[1..], 0) == At(t, 1);
      r := Got(Dollar, t[1..]);
    } else if !Known(t) {
      r := Refused(Unknown, OtherExpansion);
    } else {
      var bracket := At(t, 1) == '[';
      var x := if bracket then t[2..] else t[3..];
      assert t == Opening(bracket) + x;
      var body, u, f, e := ReadBody(x, 1, bracket);
      r := ReadReckoned(t, bracket, body, u, f, e);
    }
  }

  /** The body is followed by what closes it, or by what is refused. */
  ghost predicate EndOfBody(u: string, depth: nat, bracket: bool, f: Fault, e: Error) {
    Closed(u, depth, bracket) || FaultInBody(f, depth, bracket, u, e)
  }

  predicate Closed(u: string, depth: nat, bracket: bool) {
    depth == 1 && Closing(bracket) <= u
  }

  lemma ReadReckoned(t: string, bracket: bool, body: seq<Token>, u: string, f: Fault, e: Error) returns (r: Reading)
    requires Begins(t, bracket, body, u) && EndOfBody(u, Depth(body, 1), bracket, f, e)
    ensures ReadsInside(t, r)
  {
    if Closed(u, Depth(body, 1), bracket) {
      var tail := u[|Closing(bracket)|..];
      assert u == Closing(bracket) + tail;
      if Evaluates(bracket, TokensMeaning(body)) {
        r := Got(Reckoned(bracket, body), tail);
        Regrouped(Opening(bracket), TokensText(body), Closing(bracket), tail);
      } else {
        r := Refused(Unreckoned(bracket, body), ReckonError(TokensMeaning(body)));
      }
    } else {
      r := Refused(Within(bracket, body, f), e);
    }
  }

  lemma {:induction false} ReadBody(t: string, depth: nat, bracket: bool)
      returns (ks: seq<Token>, u: string, f: Fault, e: Error)
    requires depth > 0
    ensures t == TokensText(ks) + u && ValidTokens(ks, true, u) && Nests(ks, depth)
    ensures EndOfBody(u, Depth(ks, depth), bracket, f, e)
    decreases |t|, 2
  {
    ks, u, f, e := [], t, Ended, SyntaxError;
    assert "" + t == t;
    if t == "" || Closed(t, depth, bracket) { return; }
    var c := t[0];
    var r := Got(Raw(c), t[1..]);
    if c == '$' || c == '\\' {
      r := ReadInside(t);
      if r.Refused? { f, e := r.fault, r.error; return; }
    } else if c == '`' {
      f, e := Backquote, OtherExpansion;
      return;
    } else if c == ']' || (c == ')' && depth == 1) {
      NotClosed(t, depth, bracket);
      f := Unmatched;
      return;
    } else if !BodyChar(c) {
      f, e := Bad(c), BadChar;
      return;
    } else {
      assert t == [c] + t[1..];
    }
    ks, u, f, e := ReadBody(r.rest, DepthBehind(r.k, depth), bracket);
    OneMoreToken(t, r.k, r.rest, ks, u);
    ks := [r.k] + ks;
  }

  lemma NotClosed(t: string, depth: nat, bracket: bool)
    requires t != "" && (t[0] == ']' || (t[0] == ')' && depth == 1)) && !Closed(t, depth, bracket)
    ensures OutOfPlace(depth, bracket, t)
  {
  }

  lemma OneMoreToken(t: string, k: Token, rest: string, ks: seq<Token>, u: string)
    requires t == TokenText(k) + rest && rest == TokensText(ks) + u
    ensures var all := [k] + ks;
            t == TokensText(all) + u && all[0] == k && all[1..] == ks && TokensText(all[1..]) + u == rest
  {
    var all := [k] + ks;
    assert all[1..] == ks;
    Associative(TokenText(k), TokensText(ks), u);
  }

  lemma {:induction false} ReadQuoted(t: string) returns (ks: seq<Token>, u: string, f: Fault, e: Error)
    ensures t == TokensText(ks) + u && ValidTokens(ks, false, u)
    ensures (u != "" && u[0] == '"') || FaultInQuotes(f, u, e)
    decreases |t|
  {
    ks, u, f, e := [], t, Ended, SyntaxError;
    assert "" + t == t;
    if t == "" || t[0] == '"' { return; }
    var c := t[0];
    var r := Got(Raw(c), t[1..]);
    if c == '$' || c == '\\' {
      r := ReadInside(t);
      if r.Refused? { f, e := r.fault, r.error; return; }
    } else if c == '`' {
      f, e := Backquote, OtherExpansion;
      return;
    } else {
      assert t == [c] + t[1..];
    }
    ks, u, f, e := ReadQuoted(r.rest);
    OneMoreToken(t, r.k, r.rest, ks, u);
    ks := [r.k] + ks;
  }

  // ----- the line -----

  /** One way of writing part of a word. */
  datatype Bit =
    | Plain(c: char)
    | Backslashed(c: char)
    | Continued
    | Single(s: string)
    | Double(body: seq<Token>)
    | Inner(k: Token)             // an expansion, or a dollar sign that stands for itself

  predicate PlainChar(c: char) {
    && c != ' ' && c != '\t' && c != '\\' && c != '$' && c != '"' && c != '\''
    && c != '`' && c != '~' && c != '*' && c != '[' && c != '?'
    && c != '\n' && c != '|' && c != '&' && c != ';' && c != '<' && c != '>'
    && c != '(' && c != ')' && c != '{' && c != '}'
  }

  predicate ValidBit(b: Bit, tail: string) {
    match b
    case Plain(c) => PlainChar(c)
    case Backslashed(c) => c != '\n'
    case Continued => true
    case Single(s) => '\'' !in s
    case Double(body) => ValidTokens(body, false, "\"" + tail)
    case Inner(k) => (k.Dollar? || k.Reckoned?) && ValidToken(k, false, tail)
  }

  function BitText(b: Bit): (r: string)
    ensures r != ""
  {
    match b
    case Plain(c) => [c]
    case Backslashed(c) => ['\\', c]
    case Continued => ['\\', '\n']
    case Single(s) => "'" + (s + "'")
    case Double(body) => "\"" + (TokensText(body) + "\"")
    case Inner(k) => TokenText(k)
  }

  function BitMeaning(b: Bit): string {
    match b
    case Plain(c) => [c]
    case Backslashed(c) => [c]
    case Continued => ""
    case Single(s) => s
    case Double(body) => TokensMeaning(body)
    case Inner(k) => TokenMeaning(k)
  }

  function BitsText(bs: seq<Bit>): string {
    if bs == [] then "" else BitText(bs[0]) + BitsText(bs[1..])
  }

  function BitsMeaning(bs: seq<Bit>): string {
    if bs == [] then "" else BitMeaning(bs[0]) + BitsMeaning(bs[1..])
  }

  predicate ValidBits(bs: seq<Bit>, tail: string)
    decreases bs
  {
    bs != [] ==> ValidBit(bs[0], BitsText(bs[1..]) + tail) && ValidBits(bs[1..], tail)
  }

  /** A word as written, and the blanks after it. */
  datatype Chunk = Chunk(bits: seq<Bit>, blanks: string)

  function LineText(cs: seq<Chunk>): string {
    if cs == [] then "" else BitsText(cs[0].bits) + (cs[0].blanks + LineText(cs[1..]))
  }

  /** Words are separated by blanks; only the last may lack them. */
  predicate ValidLine(cs: seq<Chunk>, tail: string)
    decreases cs
  {
    cs != [] ==>
      && ArithExpr.Blank(cs[0].blanks) && (|cs| > 1 ==> cs[0].blanks != "")
      && ValidBits(cs[0].bits, cs[0].blanks + (LineText(cs[1..]) + tail))
      && ValidLine(cs[1..], tail)
  }

  /** The words meant; one that means nothing yields no word. */
  function Meant(cs: seq<Chunk>): seq<string> {
    if cs == [] then []
    else (if BitsMeaning(cs[0].bits) == "" then [] else [BitsMeaning(cs[0].bits)]) + Meant(cs[1..])
  }

  /** The first thing refused outside quotes. */
  datatype Offence =
    | Operators(c: char)
    | Unmodelled(c: char)                          // a character that starts another expansion
    | LastBackslash
    | OpenSingle(s: string)
    | InDouble(body: seq<Token>, fault: Fault)
    | AtDollar(fault: Fault)

  ghost predicate Offends(o: Offence, t: string, e: Error) {
    match o
    case Operators(c) =>
      t != "" && t[0] == c && e == BadChar
      && (c == '\n' || c == '|' || c == '&' || c == ';' || c == '<' || c == '>'
          || c == '(' || c == ')' || c == '{' || c == '}')
    case Unmodelled(c) =>
      t != "" && t[0] == c && e == OtherExpansion && (c == '`' || c == '~' || c == '*' || c == '[' || c == '?')
    case LastBackslash => t == "\\" && e == SyntaxError
    case OpenSingle(s) => t == "'" + s && '\'' !in s && e == SyntaxError
    case InDouble(body, f) =>
      exists u :: t == "\"" + (TokensText(body) + u) && ValidTokens(body, false, u) && FaultInQuotes(f, u, e)
    case AtDollar(f) => t != "" && t[0] == '$' && FaultAt(f, t, e)
  }

  lemma {:induction false} SquoteOpen(word: Option<string>, s: string)
    requires '\'' !in s
    ensures Squote(word, s) == Failed(SyntaxError)
    decreases s
  {
    if s != "" { SquoteOpen(AddChar(word, s[0]), s[1..]); }
  }

  lemma {:induction false} OffenceFails(word: Option<string>, wordv: seq<string>, o: Offence, t: string, e: Error)
    requires Offends(o, t, e)
    ensures Expand(word, wordv, t) == Error(e)
  {
    match o {
      case InDouble(body, f) =>
        var u :| t == "\"" + (TokensText(body) + u) && ValidTokens(body, false, u) && FaultInQuotes(f, u, e);
        assert t[0] == '"' && t[1..] == TokensText(body) + u;
        QuotedReads(word, body, u);
        QuotesFail(AddStr(word, TokensMeaning(body)), f, u, e);
      case AtDollar(f) => FaultFails(word, f, t, e);
      case OpenSingle(s) =>
        assert t[0] == '\'' && t[1..] == s;
        SquoteOpen(word, s);
      case _ =>
    }
  }

  lemma Enclosed(quote: string, s: string, tail: string)
    requires |quote| == 1
    ensures (quote + (s + quote) + tail)[0] == quote[0] && (quote + (s + quote) + tail)[1..] == s + (quote + tail)
  {
  }

  lemma {:induction false} BitReads(word: Option<string>, wordv: seq<string>, b: Bit, tail: string)
    requires ValidBit(b, tail)
    ensures Expand(word, wordv, BitText(b) + tail) == Expand(AddStr(word, BitMeaning(b)), wordv, tail)
  {
    var t := BitText(b) + tail;
    match b {
      case Plain(c) => assert t[0] == c && t[1..] == tail;
      case Backslashed(c) => assert t[0] == '\\' && t[1] == c && t[2..] == tail;
      case Continued => assert t[0] == '\\' && t[1] == '\n' && t[2..] == tail;
      case Single(s) =>
        Enclosed("'", s, tail);
        WordQuote.SquoteReads(word, s, tail);
      case Double(body) =>
        Enclosed("\"", TokensText(body), tail);
        QuotedReads(word, body, "\"" + tail);
        assert ("\"" + tail)[0] == '"' && ("\"" + tail)[1..] == tail;
      case Inner(k) =>
        TokenReads(word, k, false, tail);
        assert TokenText(k)[0] == '$';
    }
  }

  lemma {:induction false} BitsRead(word: Option<string>, wordv: seq<string>, bs: seq<Bit>, tail: string)
    requires ValidBits(bs, tail)
    ensures Expand(word, wordv, BitsText(bs) + tail) == Expand(AddStr(word, BitsMeaning(bs)), wordv, tail)
    decreases bs
  {
    if bs == [] {
      assert "" + tail == tail;
    } else {
      Associative(BitText(bs[0]), BitsText(bs[1..]), tail);
      BitReads(word, wordv, bs[0], BitsText(bs[1..]) + tail);
      BitsRead(AddStr(word, BitMeaning(bs[0])), wordv, bs[1..], tail);
      WordQuote.AddTwice(word, BitMeaning(bs[0]), BitsMeaning(bs[1..]));
    }
  }

  // ----- reading a line -----

  /** Where the bits of a word end: the text ends, a blank follows, or something is refused. */
  ghost predicate EndOfWord(u: string, o: Offence, e: Error) {
    u == "" || u[0] == ' ' || u[0] == '\t' || Offends(o, u, e)
  }

  lemma ReadSingle(t: string) returns (found: bool, s: string, rest: string)
    requires t != "" && t[0] == '\''
    ensures '\'' !in s && t == if found then "'" + (s + "'") + rest else "'" + s
  {
    var n := Cspn(t[1..], ['\'']);
    s := t[1..][..n];
    assert forall i :: 0 <= i < n ==> s[i] != '\'';
    found := n < |t[1..]|;
    rest := "";
    if found {
      rest := t[n + 2..];
      assert t[n + 1] == '\'' && t == "'" + (s + "'") + rest;
    } else {
      assert t == "'" + s;
    }
  }

  datatype BitReading = Bit(b: Bit, rest: string) | Offence(o: Offence, error: Error)

  ghost predicate ReadsBit(t: string, r: BitReading) {
    match r
    case Bit(b, rest) => t == BitText(b) + rest && ValidBit(b, rest) && |rest| < |t|
    case Offence(o, e) => Offends(o, t, e)
  }

  lemma ReadQuote(t: string) returns (r: BitReading)
    requires t != "" && Quotes(t[0])
    ensures ReadsBit(t, r)
  {
    if t[0] == '\\' {
      if |t| == 1 {
        r := Offence(LastBackslash, SyntaxError);
      } else {
        assert t == ['\\', t[1]] + t[2..];
        r := Bit(if t[1] == '\n' then Continued else Backslashed(t[1]), t[2..]);
      }
    } else if t[0] == '$' {
      var inner := ReadInside(t);
      r := if inner.Got? then Bit(Inner(inner.k), inner.rest) else Offence(AtDollar(inner.fault), inner.error);
    } else if t[0] == '\'' {
      var found, s, rest := ReadSingle(t);
      r := if found then Bit(Single(s), rest) else Offence(OpenSingle(s), SyntaxError);
    } else {
      r := ReadDouble(t);
    }
  }

  lemma ReadDouble(t: string) returns (r: BitReading)
    requires t != "" && t[0] == '"'
    ensures ReadsBit(t, r)
  {
    var ks, u, f, e := ReadQuoted(t[1..]);
    assert t == "\"" + (TokensText(ks) + u);
    if u != "" && u[0] == '"' {
      assert u == "\"" + u[1..];
      Regrouped("\"", TokensText(ks), "\"", u[1..]);
      r := Bit(Double(ks), u[1..]);
    } else {
      r := Offence(InDouble(ks, f), e);
    }
  }

  lemma {:induction false} ReadBits(t: string) returns (bs: seq<Bit>, u: string, o: Offence, e: Error)
    ensures t == BitsText(bs) + u && ValidBits(bs, u) && EndOfWord(u, o, e)
    decreases |t|
  {
    bs, u, o, e := [], t, LastBackslash, SyntaxError;
    assert "" + t == t;
    if t == "" || t[0] == ' ' || t[0] == '\t' { return; }
    var c := t[0];
    var r := Bit(Plain(c), t[1..]);
    assert t == [c] + t[1..];
    if Quotes(c) {
      r := ReadQuote(t);
      if r.Offence? { o, e := r.o, r.error; return; }
    } else if Expands(c) {
      o, e := Unmodelled(c), OtherExpansion;
      return;
    } else if Operator(c) {
      o, e := Operators(c), BadChar;
      return;
    }
    bs, u, o, e := ReadBits(r.rest);
    OneMoreBit(t, r.b, r.rest, bs, u);
    bs := [r.b] + bs;
  }

  lemma OneMoreBit(t: string, b: Bit, rest: string, bs: seq<Bit>, u: string)
    requires t == BitText(b) + rest && rest == BitsText(bs) + u
    ensures var all := [b] + bs;
            t == BitsText(all) + u && all[0] == b && all[1..] == bs && BitsText(all[1..]) + u == rest
  {
    var all := [b] + bs;
    assert all[1..] == bs;
    Associative(BitText(b), BitsText(bs), u);
  }

  lemma {:induction false} ReadBlanks(t: string) returns (blanks: string, rest: string)
    ensures t == blanks + rest && ArithExpr.Blank(blanks) && (rest != "" ==> rest[0] != ' ' && rest[0] != '\t')
    decreases t
  {
    if t != "" && (t[0] == ' ' || t[0] == '\t') {
      blanks, rest := ReadBlanks(t[1..]);
      blanks := [t[0]] + blanks;
      assert t == [t[0]] + t[1..];
    } else {
      blanks, rest := "", t;
      assert "" + t == t;
    }
  }

  /** Where a line ends: with the text, or at something refused. */
  ghost predicate EndOfLine(u: string, o: Offence, e: Error) {
    u == "" || Offends(o, u, e)
  }

  lemma {:induction false} ReadLine(t: string) returns (cs: seq<Chunk>, u: string, o: Offence, e: Error)
    requires t != "" ==> t[0] != ' ' && t[0] != '\t'
    ensures t == LineText(cs) + u && ValidLine(cs, u) && EndOfLine(u, o, e)
    decreases |t|
  {
    var bits, x;
    bits, x, o, e := ReadBits(t);
    var blanks, rest := ReadBlanks(x);
    if blanks == "" {
      assert x == rest;
      u, cs := x, [Chunk(bits, "")];
      OneMoreChunk(t, cs[0], u, [], u);
    } else if |rest| < |t| {
      var more;
      more, u, o, e := ReadLine(rest);
      cs := [Chunk(bits, blanks)] + more;
      OneMoreChunk(t, cs[0], rest, more, u);
    }
  }

  lemma OneMoreChunk(t: string, c: Chunk, rest: string, cs: seq<Chunk>, u: string)
    requires t == BitsText(c.bits) + (c.blanks + rest) && rest == LineText(cs) + u
    ensures var all := [c] + cs;
            t == LineText(all) + u && all[0] == c && all[1..] == cs && LineText(all[1..]) + u == rest
  {
    var all := [c] + cs;
    assert all[1..] == cs;
    Associative(c.blanks, LineText(cs), u);
    Associative(BitsText(c.bits), c.blanks + LineText(cs), u);
  }

  // ----- every text -----

  /** The words meant so far, then the end of the text or the error. */
  function Ending(wordv: seq<string>, cs: seq<Chunk>, u: string, e: Error): Outcome {
    if u == "" then Words(wordv + Meant(cs)) else Error(e)
  }

  lemma StopsHere(word: Option<string>, wordv: seq<string>, u: string, o: Offence, e: Error)
    requires EndOfLine(u, o, e)
    ensures Expand(word, wordv, u) == if u == "" then Words(AddWord(wordv, word)) else Error(e)
    ensures u != "" ==> Expand(None, wordv, u) == Error(e)
  {
    if u != "" {
      OffenceFails(word, wordv, o, u, e);
      OffenceFails(None, wordv, o, u, e);
    }
  }

  lemma {:induction false} LineReads(wordv: seq<string>, cs: seq<Chunk>, u: string, o: Offence, e: Error)
    requires ValidLine(cs, u) && EndOfLine(u, o, e)
    ensures Expand(None, wordv, LineText(cs) + u) == Ending(wordv, cs, u, e)
    decreases cs
  {
    if cs == [] {
      assert "" + u == u && wordv + [] == wordv;
      StopsHere(None, wordv, u, o, e);
    } else {
      ChunkReads(wordv, cs, u);
      FirstWord(wordv, cs);
      var word := AddStr(None, BitsMeaning(cs[0].bits));
      if cs[0].blanks == "" {
        LastChunk(cs, u);
        StopsHere(word, wordv, u, o, e);
      } else {
        LineReads(AddWord(wordv, word), cs[1..], u, o, e);
      }
    }
  }

  lemma LastChunk(cs: seq<Chunk>, u: string)
    requires |cs| == 1
    ensures LineText(cs[1..]) + u == u && forall v: seq<string> :: v + Meant(cs[1..]) == v
  {
    assert cs[1..] == [] && "" + u == u;
  }

  lemma ChunkReads(wordv: seq<string>, cs: seq<Chunk>, u: string)
    requires cs != [] && ValidLine(cs, u)
    ensures var word, rest := AddStr(None, BitsMeaning(cs[0].bits)), LineText(cs[1..]) + u;
            Expand(None, wordv, LineText(cs) + u)
            == if cs[0].blanks == "" then Expand(word, wordv, rest) else Expand(None, AddWord(wordv, word), rest)
  {
    var c, rest := cs[0], LineText(cs[1..]) + u;
    var word := AddStr(None, BitsMeaning(c.bits));
    Associative(c.blanks, LineText(cs[1..]), u);
    Associative(BitsText(c.bits), c.blanks + LineText(cs[1..]), u);
    BitsRead(None, wordv, c.bits, c.blanks + rest);
    WordQuote.BlanksRead(word, wordv, c.blanks, rest);
  }

  lemma FirstWord(wordv: seq<string>, cs: seq<Chunk>)
    requires cs != []
    ensures wordv + Meant(cs) == AddWord(wordv, AddStr(None, BitsMeaning(cs[0].bits))) + Meant(cs[1..])
  {
    var m := BitsMeaning(cs[0].bits);
    assert "" + m == m;
    if m == "" {
      assert [] + Meant(cs[1..]) == Meant(cs[1..]);
    } else {
      Associative(wordv, [m], Meant(cs[1..]));
    }
  }

  /**
   * Every text is, behind blanks, a line of words written in pieces of quoting and expansion, up to
   * its end or to the first thing refused; and the outcome is the words meant, or its error.
   */
  lemma {:induction false} EveryTextReads(wordv: seq<string>, t: string)
      returns (lead: string, cs: seq<Chunk>, u: string, o: Offence, e: Error)
    ensures t == lead + (LineText(cs) + u) && ArithExpr.Blank(lead) && ValidLine(cs, u) && EndOfLine(u, o, e)
    ensures Expand(None, wordv, t) == Ending(wordv, cs, u, e)
  {
    var x;
    lead, x := ReadBlanks(t);
    cs, u, o, e := ReadLine(x);
    WordQuote.BlanksRead(None, wordv, lead, x);
    LineReads(wordv, cs, u, o, e);
  }

  /** The text is a written line. */
  predicate Writes(t: string, lead: string, cs: seq<Chunk>) {
    t == lead + LineText(cs) && ArithExpr.Blank(lead) && ValidLine(cs, "")
  }

  /** Exactly when expansion yields words: the text is a written line, and they are the words meant. */
  lemma {:induction false} WordsIfWritten(wordv: seq<string>, t: string, v: seq<string>)
    ensures Expand(None, wordv, t) == Words(v)
            <==> exists lead, cs :: Writes(t, lead, cs) && v == wordv + Meant(cs)
  {
    var lead, cs, u, o, e := EveryTextReads(wordv, t);
    if u == "" {
      assert LineText(cs) + u == LineText(cs);
      assert Writes(t, lead, cs);
    }
    forall lead', cs' | Writes(t, lead', cs') ensures Expand(None, wordv, t) == Words(wordv + Meant(cs')) {
      assert LineText(cs') + "" == LineText(cs');
      WordQuote.BlanksRead(None, wordv, lead', LineText(cs'));
      LineReads(wordv, cs', "", LastBackslash, SyntaxError);
    }
  }

  /** Exactly when it yields an error, and which: behind a written line stands something refused. */
  lemma {:induction false} ErrorIfRefused(wordv: seq<string>, t: string, e: Error)
    ensures Expand(None, wordv, t) == Error(e)
            <==> exists lead, cs, u, o :: Refuses(t, lead, cs, u, o, e)
  {
    var lead, cs, u, o, e' := EveryTextReads(wordv, t);
    if u != "" && e' == e { assert Refuses(t, lead, cs, u, o, e); }
    forall lead', cs', u', o' | Refuses(t, lead', cs', u', o', e) ensures Expand(None, wordv, t) == Error(e) {
      WordQuote.BlanksRead(None, wordv, lead', LineText(cs') + u');
      LineReads(wordv, cs', u', o', e);
    }
  }

  ghost predicate Refuses(t: string, lead: string, cs: seq<Chunk>, u: string, o: Offence, e: Error) {
    && t == lead + (LineText(cs) + u) && ArithExpr.Blank(lead) && ValidLine(cs, u)
    && u != "" && Offends(o, u, e)
  }
}
