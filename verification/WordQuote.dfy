/** What the word expander returns for quoted text and arithmetic expansions:
    every way of writing a list of words expands to exactly that list. */
module WordQuote {
  import opened CStrings
  import opened Seqs
  import opened WordExp
  import opened ArithExpr
  import Arith

  // ----- an arithmetic expansion, from "$((" to "))" -----

  /** Characters the collector of an expression treats in a way of their own. */
  predicate Reserved(c: char) {
    c == '$' || c == '`' || c == '\\' || c == ']' || c == '\n' || c == ';' || c == '{' || c == '}'
  }

  /** The parenthesis depth after a text, starting at depth d; None if the text
      closes more than it opens or holds a character with a meaning of its own. */
  function Balance(b: string, d: nat): Option<nat>
    decreases b
  {
    if b == "" then Some(d)
    else if b[0] == '(' then Balance(b[1..], d + 1)
    else if b[0] == ')' then (if d == 0 then None else Balance(b[1..], d - 1))
    else if Reserved(b[0]) then None
    else Balance(b[1..], d)
  }

  lemma {:induction false} BalanceAppend(a: string, b: string, d: nat)
    requires Balance(a, d).Some?
    ensures Balance(a + b, d) == Balance(b, Balance(a, d).value)
    decreases a
  {
    if a == "" {
      assert a + b == b;
    } else {
      assert (a + b)[0] == a[0] && (a + b)[1..] == a[1..] + b;
      BalanceAppend(a[1..], b, if a[0] == '(' then d + 1 else if a[0] == ')' then d - 1 else d);
    }
  }

  lemma {:induction false} FlatText(a: string, d: nat)
    requires forall i :: 0 <= i < |a| ==> !Reserved(a[i]) && a[i] != '(' && a[i] != ')'
    ensures Balance(a, d) == Some(d)
    decreases a
  {
    if a != "" { FlatText(a[1..], d); }
  }

  lemma {:induction false} FactorBalanced(f: Factor, d: nat)
    requires ValidFactor(f)
    ensures Balance(FactorText(f), d) == Some(d)
    decreases f
  {
    match f {
      case Lit(ws, sign, digits) =>
        FlatText(ws, d);
        FlatText(sign, d);
        FlatText(digits, d);
        BalanceAppend(ws, sign, d);
        BalanceAppend(ws + sign, digits, d);
      case Paren(ws, body, close) =>
        SumBalanced(body, d + 1);
        ParenBalanced(ws, SumText(body), close, d);
    }
  }

  lemma ParenBalanced(ws: string, body: string, close: string, d: nat)
    requires Blank(ws) && Blank(close) && Balance(body, d + 1) == Some(d + 1)
    ensures Balance(ws + "(" + body + close + ")", d) == Some(d)
  {
    var inside := body + (close + ")");
    FlatText(ws, d);
    FlatText(close, d + 1);
    BalanceAppend(close, ")", d + 1);
    assert Balance(")", d + 1) == Some(d) by { assert ")"[1..] == ""; }
    BalanceAppend(body, close + ")", d + 1);
    assert ("(" + inside)[1..] == inside;
    BalanceAppend(ws, "(" + inside, d);
    assert ws + "(" + body + close + ")" == ws + ("(" + inside);
  }

  lemma OperationBalanced(ws: string, op: char, operand: string, more: string, d: nat)
    requires Blank(ws) && op in "+-*/"
    requires Balance(operand, d) == Some(d) && Balance(more, d) == Some(d)
    ensures Balance(ws + [op] + operand + more, d) == Some(d)
  {
    FlatText(ws + [op], d);
    assert ws + [op] + operand + more == (ws + [op]) + (operand + more);
    BalanceAppend(ws + [op], operand + more, d);
    BalanceAppend(operand, more, d);
  }

  lemma {:induction false} MulsBalanced(m: Muls, d: nat)
    requires ValidMuls(m)
    ensures Balance(MulsText(m), d) == Some(d)
    decreases m
  {
    if m.Mul? {
      FactorBalanced(m.f, d);
      MulsBalanced(m.more, d);
      OperationBalanced(m.ws, m.op, FactorText(m.f), MulsText(m.more), d);
    }
  }

  lemma {:induction false} TermBalanced(t: Term, d: nat)
    requires ValidTerm(t)
    ensures Balance(TermText(t), d) == Some(d)
    decreases t
  {
    FactorBalanced(t.f, d);
    MulsBalanced(t.muls, d);
    BalanceAppend(FactorText(t.f), MulsText(t.muls), d);
  }

  lemma {:induction false} AddsBalanced(a: Adds, d: nat)
    requires ValidAdds(a)
    ensures Balance(AddsText(a), d) == Some(d)
    decreases a
  {
    if a.Add? {
      TermBalanced(a.t, d);
      AddsBalanced(a.more, d);
      OperationBalanced(a.ws, a.op, TermText(a.t), AddsText(a.more), d);
    }
  }

  lemma {:induction false} SumBalanced(e: Sum, d: nat)
    requires ValidSum(e)
    ensures Balance(SumText(e), d) == Some(d)
    decreases e
  {
    TermBalanced(e.t, d);
    AddsBalanced(e.adds, d);
    BalanceAppend(TermText(e.t), AddsText(e.adds), d);
  }

  /** The lookahead walks over a balanced text, */
  lemma {:induction false} ClosesAfter(b: string, d: nat, t: string)
    requires Balance(b, d).Some?
    ensures Closes(b + t, d) == Closes(t, Balance(b, d).value)
    decreases b
  {
    if b == "" {
      assert b + t == t;
    } else {
      assert (b + t)[0] == b[0] && (b + t)[1..] == b[1..] + t;
      ClosesAfter(b[1..], if b[0] == '(' then d + 1 else if b[0] == ')' then d - 1 else d, t);
    }
  }

  lemma AddOneThenRest(expr: Option<string>, b: string)
    requires b != ""
    ensures AddStr(AddChar(expr, b[0]), b[1..]) == AddStr(expr, b)
  {
    assert b == [b[0]] + b[1..];
    Associative(Text(expr), [b[0]], b[1..]);
    if b[1..] == "" { assert b == [b[0]]; }
  }

  /** and so does the collector, one level deeper in its own counting. */
  lemma {:induction false} Collected(word: Option<string>, expr: Option<string>, d: nat, b: string, t: string,
      bracket: bool)
    requires Balance(b, d).Some?
    ensures ArithBody(word, expr, d + 1, b + t, bracket)
            == ArithBody(word, AddStr(expr, b), Balance(b, d).value + 1, t, bracket)
    decreases b
  {
    if b == "" {
      assert b + t == t;
    } else {
      Uncons(b, t);
      Collected(word, AddChar(expr, b[0]), if b[0] == '(' then d + 1 else if b[0] == ')' then d - 1 else d, b[1..], t,
                bracket);
      AddOneThenRest(expr, b);
    }
  }

  function ExpansionText(e: Sum, close: string): string {
    "$((" + SumText(e) + close + "))"
  }

  lemma {:induction false} ExpansionParsed(word: Option<string>, e: Sum, close: string, tail: string)
    requires ValidSum(e) && Blank(close)
    ensures Dollars(word, ExpansionText(e, close) + tail) == Finish(word, Some(SumText(e) + close), false, tail)
  {
    var expr := SumText(e) + close;
    SumBalanced(e, 0);
    FlatText(close, 0);
    BalanceAppend(SumText(e), close, 0);
    var t := ExpansionText(e, close) + tail;
    var end := "))" + tail;
    assert t[0] == '$' && t[1] == '(' && t[2] == '(' && t[3..] == expr + end;
    assert "" + expr == expr;
    ClosesAfter(expr, 0, end);
    Collected(word, None, 0, expr, end, false);
    assert end[2..] == tail && end[0] == ')' && end[1] == ')';
    assert Closes(t[3..], 0);
    assert ArithBody(word, AddStr(None, expr), 1, end, false) == CloseArith(word, AddStr(None, expr), 1, end, false);
    NotEmpty(e);
    assert AddStr(None, expr) == Some(expr);
  }

  lemma NotEmpty(e: Sum)
    requires ValidSum(e)
    ensures SumText(e) != ""
  {
    var f := e.t.f;
    assert ValidTerm(e.t) && ValidFactor(f);
    match f {
      case Lit(ws, sign, digits) => assert |FactorText(f)| == |ws| + |sign| + |digits|;
      case Paren(ws, body, close) => assert |FactorText(f)| == |ws| + 1 + |SumText(body)| + |close| + 1;
    }
    assert |FactorText(f)| > 0;
    assert TermText(e.t) == FactorText(f) + MulsText(e.t.muls);
    assert SumText(e) == TermText(e.t) + AddsText(e.adds);
  }

  /** The values whose printed form the expansion can append: "$((" negates first. */
  predicate Printable(v: Option<int>) {
    v.Some? && -Arith.LONG_MAX <= v.value <= Arith.LONG_MAX
  }

  lemma DecimalFits(v: nat)
    ensures |Decimal(v)| <= 18 <==> v < 1_000_000_000_000_000_000
    ensures v <= 0 - Arith.LONG_MIN ==> |Decimal(v)| <= 19
  {
    assert Pow10(9) == 1_000_000_000;
    assert Pow10(18) == 1_000_000_000_000_000_000;
    assert Pow10(19) == 10_000_000_000_000_000_000;
    DecimalLength(v, 18);
    DecimalLength(v, 19);
  }

  /** The whole pipeline: lookahead, collector, evaluator and printer together
      append the decimal value of a well-formed expansion and consume its "))". */
  lemma {:induction false} ExpansionValue(word: Option<string>, e: Sum, close: string, tail: string)
    requires ValidSum(e) && Blank(close) && SumDepth(e) <= 1
    ensures Dollars(word, ExpansionText(e, close) + tail)
            == if Printable(SumValue(e)) then Parsed(AddStr(word, IntText(SumValue(e).value)), tail)
               else Failed(UndefinedArith)
  {
    ExpansionParsed(word, e, close, tail);
    EvaluatesToMeaning(e, close);
    NotEmpty(e);
    SumInRange(e);
    if Printable(SumValue(e)) {
      Appended(word, SumValue(e).value);
    }
  }

  /** A sign and then the number without it, as the expansion appends them. */
  lemma Appended(word: Option<string>, v: int)
    requires -Arith.LONG_MAX <= v <= Arith.LONG_MAX
    ensures v >= 0 ==> MyItoa(v) == IntText(v)
    ensures v < 0 ==> MyItoa(0 - v) == Decimal(0 - v)
    ensures v < 0 ==> AddStr(AddChar(word, '-'), MyItoa(0 - v)) == AddStr(word, IntText(v))
  {
    DecimalFits(if v < 0 then 0 - v else v);
    if v < 0 {
      assert Text(word) + ['-'] + Decimal(0 - v) == Text(word) + IntText(v);
    }
  }

  lemma SumInRange(e: Sum)
    requires ValidSum(e)
    ensures SumValue(e).Some? ==> Arith.IsLong(SumValue(e).value)
  {
    FactorInRange(e.t.f);
    if FactorValue(e.t.f).Some? {
      MulsInRange(FactorValue(e.t.f).value, e.t.muls);
    }
    if TermValue(e.t).Some? {
      AddsInRange(TermValue(e.t).value, e.adds);
    }
  }

  lemma FactorInRange(f: Factor)
    requires ValidFactor(f)
    ensures FactorValue(f).Some? ==> Arith.IsLong(FactorValue(f).value)
    decreases f
  {
    if f.Paren? { SumInRange(f.body); }
  }

  lemma {:induction false} MulsInRange(acc: int, m: Muls)
    requires Arith.IsLong(acc)
    ensures MulsValue(acc, m).Some? ==> Arith.IsLong(MulsValue(acc, m).value)
    decreases m
  {
    if m.Mul? && FactorValue(m.f).Some? {
      var v := Arith.Apply(m.op, acc, FactorValue(m.f).value);
      if v.Some? { MulsInRange(v.value, m.more); }
    }
  }

  lemma {:induction false} AddsInRange(acc: int, a: Adds)
    requires Arith.IsLong(acc)
    ensures AddsValue(acc, a).Some? ==> Arith.IsLong(AddsValue(acc, a).value)
    decreases a
  {
    if a.Add? && TermValue(a.t).Some? {
      var v := Arith.Apply(a.op, acc, TermValue(a.t).value);
      if v.Some? { AddsInRange(v.value, a.more); }
    }
  }

  /** Parentheses nested two deep are refused, never given a wrong value. */
  lemma {:induction false} NestedExpansion(word: Option<string>, e: Sum, close: string, tail: string)
    requires ValidSum(e) && Blank(close) && SumDepth(e) > 1
    ensures Dollars(word, ExpansionText(e, close) + tail).Failed?
    ensures SumValue(e).Some? ==> Dollars(word, ExpansionText(e, close) + tail) == Failed(SyntaxError)
  {
    ExpansionParsed(word, e, close, tail);
    NestedIsRejected(e, close);
    NotEmpty(e);
  }

  /** The appended text reads back, through the evaluator, as the value printed. */
  lemma {:induction false} PrintedReadsBack(v: int)
    requires Printable(Some(v))
    ensures Arith.EvalVal(IntText(v)) == Arith.Value(v, "") && Arith.EvalExpr(IntText(v)) == Arith.Value(v, "")
  {
    var f := AsLiteral(v);
    assert FactorText(f) + "" == IntText(v);
    LitAnswers(f, "");
    var e := Sum(Term(f, NoMul), NoAdd);
    LoneLiteral(e, f);
    assert SumText(e) + "" == IntText(v);
    EvaluatesToMeaning(e, "");
  }

  lemma AsLiteral(v: int) returns (f: Factor)
    requires Printable(Some(v))
    ensures f.Lit? && ValidFactor(f) && FactorText(f) == IntText(v) && FactorValue(f) == Some(v)
  {
    var n: nat := if v < 0 then -v else v;
    HornerDecimal(n);
    f := Lit("", if v < 0 then "-" else "", Decimal(n));
  }

  lemma LoneLiteral(e: Sum, f: Factor)
    requires e == Sum(Term(f, NoMul), NoAdd) && f.Lit? && ValidFactor(f)
    ensures ValidSum(e) && SumDepth(e) == 0 && SumText(e) == FactorText(f) && SumValue(e) == FactorValue(f)
  {
    assert TermText(e.t) == FactorText(f) && TermDepth(e.t) == 0 && TermValue(e.t) == FactorValue(f);
  }

  // ----- the bracket form, from "$[" to "]" -----

  function BracketText(e: Sum, close: string): string {
    "$[" + SumText(e) + close + "]"
  }

  lemma {:induction false} BracketParsed(word: Option<string>, e: Sum, close: string, tail: string)
    requires ValidSum(e) && Blank(close)
    ensures Dollars(word, BracketText(e, close) + tail) == Finish(word, Some(SumText(e) + close), true, tail)
  {
    var expr, end := SumText(e) + close, "]" + tail;
    SumBalanced(e, 0);
    FlatText(close, 0);
    BalanceAppend(SumText(e), close, 0);
    NotEmpty(e);
    var t := BracketText(e, close) + tail;
    BracketBehind(SumText(e), close, tail);
    assert Dollars(word, t) == ArithBody(word, None, 1, t[2..], true);
    Collected(word, None, 0, expr, end, true);
    Unwrapped(word, expr, tail);
  }

  lemma BracketBehind(sum: string, close: string, tail: string)
    ensures var t := "$[" + sum + close + "]" + tail;
            t[0] == '$' && t[1] == '[' && t[2..] == sum + close + ("]" + tail)
  {
  }

  /** At the closing bracket of a collected expression. */
  lemma Unwrapped(word: Option<string>, expr: string, tail: string)
    requires expr != ""
    ensures ArithBody(word, AddStr(None, expr), 1, "]" + tail, true) == Finish(word, Some(expr), true, tail)
  {
    assert ("]" + tail)[0] == ']' && ("]" + tail)[1..] == tail && "" + expr == expr;
  }

  /** What 20 bytes show of a printed value: from -10^18 down the last digit is cut off. */
  function Shown(v: int): string {
    if v > -1_000_000_000_000_000_000 then IntText(v) else IntText(0 - (0 - v) / 10)
  }

  /** The bracket form prints without negating first, into 20 bytes: it appends what they
      show, which is the decimal value exactly if that is above -10^18. */
  lemma {:induction false} BracketValue(word: Option<string>, e: Sum, close: string, tail: string)
    requires ValidSum(e) && Blank(close) && SumDepth(e) <= 1
    ensures var r, v := Dollars(word, BracketText(e, close) + tail), SumValue(e);
            if v == None then r == Failed(UndefinedArith)
            else r == Parsed(AddStr(word, Shown(v.value)), tail)
                 && (r == Parsed(AddStr(word, IntText(v.value)), tail) <==> v.value > -1_000_000_000_000_000_000)
  {
    BracketParsed(word, e, close, tail);
    EvaluatesToMeaning(e, close);
    NotEmpty(e);
    SumInRange(e);
    if SumValue(e).Some? {
      BracketAppends(word, SumValue(e).value);
    }
  }

  lemma BracketAppends(word: Option<string>, v: int)
    requires Arith.IsLong(v)
    ensures MyItoa(v) == Shown(v)
    ensures AddStr(word, Shown(v)) == AddStr(word, IntText(v)) <==> v > -1_000_000_000_000_000_000
  {
    BracketPrints(v);
    if v <= -1_000_000_000_000_000_000 {
      AddDiffers(word, Shown(v), IntText(v));
    }
  }

  lemma AddDiffers(word: Option<string>, a: string, b: string)
    requires a != b
    ensures AddStr(word, a) != AddStr(word, b)
  {
    assert (Text(word) + a)[|Text(word)|..] == a && (Text(word) + b)[|Text(word)|..] == b;
  }

  lemma {:induction false} NestedBracket(word: Option<string>, e: Sum, close: string, tail: string)
    requires ValidSum(e) && Blank(close) && SumDepth(e) > 1
    ensures Dollars(word, BracketText(e, close) + tail).Failed?
    ensures SumValue(e).Some? ==> Dollars(word, BracketText(e, close) + tail) == Failed(SyntaxError)
  {
    BracketParsed(word, e, close, tail);
    NestedIsRejected(e, close);
    NotEmpty(e);
  }

  lemma BracketPrints(v: int)
    requires Arith.IsLong(v)
    ensures MyItoa(v) == Shown(v)
    ensures MyItoa(v) == IntText(v) <==> v > -1_000_000_000_000_000_000
  {
    var n: nat := if v < 0 then 0 - v else v;
    DecimalFits(n);
    assert Pow10(9) == 1_000_000_000 && Pow10(19) == 10_000_000_000_000_000_000;
    DecimalLength(n, 19);
    if v <= -1_000_000_000_000_000_000 {
      assert IntText(v) == "-" + Decimal(n / 10) + [DigitChar(n % 10)];
      assert |IntText(v)| == 20 && IntText(v)[..19] == "-" + Decimal(n / 10);
    }
  }

  /** So every literal from -10^18 down, as "$[-1000000000000000000]", expands to a tenth of itself. */
  lemma BracketCuts(word: Option<string>, v: int, tail: string)
    requires -Arith.LONG_MAX <= v <= -1_000_000_000_000_000_000
    ensures Dollars(word, "$[" + IntText(v) + "]" + tail) == Parsed(AddStr(word, IntText(0 - (0 - v) / 10)), tail)
  {
    var f := AsLiteral(v);
    var e := Sum(Term(f, NoMul), NoAdd);
    LoneLiteral(e, f);
    BracketBehind(IntText(v), "", tail);
    assert "$[" + SumText(e) + "" == "$[" + IntText(v);
    BracketValue(word, e, "", tail);
  }

  // ----- quoting -----

  /** What may stand inside double quotes. */
  datatype Item =
    | Raw(c: char)                       // any character without a meaning of its own
    | Escaped(c: char)                   // a backslash that protects the next character
    | Kept(c: char)                      // a backslash that stands for itself
    | Folded                             // a backslash-newline, which disappears
    | Computed(e: Sum, close: string)    // an arithmetic expansion

  /** One way of writing part of a word. */
  datatype Piece =
    | Plain(c: char)
    | Backslashed(c: char)
    | Continued
    | Single(s: string)
    | Double(items: seq<Item>)
    | Arithmetic(e: Sum, close: string)

  predicate ValidExpansion(e: Sum, close: string) {
    ValidSum(e) && Blank(close) && SumDepth(e) <= 1 && Printable(SumValue(e))
  }

  predicate ValidItem(i: Item) {
    match i
    case Raw(c) => !Escapable(c) && c != NUL
    case Escaped(c) => Escapable(c)
    case Kept(c) => !Escapable(c) && c != '\n' && c != NUL
    case Folded => true
    case Computed(e, close) => ValidExpansion(e, close)
  }

  predicate ValidPiece(p: Piece) {
    match p
    case Plain(c) => !Quotes(c) && c != ' ' && c != '\t' && !Expands(c) && !Operator(c) && c != NUL
    case Backslashed(c) => c != '\n' && c != NUL
    case Continued => true
    case Single(s) => '\'' !in s && NulFree(s)
    case Double(items) => forall i :: 0 <= i < |items| ==> ValidItem(items[i])
    case Arithmetic(e, close) => ValidExpansion(e, close)
  }

  function ExpansionResult(e: Sum): string {
    if SumValue(e) == None then "" else IntText(SumValue(e).value)
  }

  function ItemText(i: Item): string {
    match i
    case Raw(c) => [c]
    case Escaped(c) => ['\\', c]
    case Kept(c) => ['\\', c]
    case Folded => "\\\n"
    case Computed(e, close) => ExpansionText(e, close)
  }

  function ItemMeaning(i: Item): string {
    match i
    case Raw(c) => [c]
    case Escaped(c) => [c]
    case Kept(c) => ['\\', c]
    case Folded => ""
    case Computed(e, close) => ExpansionResult(e)
  }

  function ItemsText(items: seq<Item>): string {
    if items == [] then "" else ItemText(items[0]) + ItemsText(items[1..])
  }

  function ItemsMeaning(items: seq<Item>): string {
    if items == [] then "" else ItemMeaning(items[0]) + ItemsMeaning(items[1..])
  }

  function PieceText(p: Piece): string {
    match p
    case Plain(c) => [c]
    case Backslashed(c) => ['\\', c]
    case Continued => "\\\n"
    case Single(s) => "'" + s + "'"
    case Double(items) => "\"" + ItemsText(items) + "\""
    case Arithmetic(e, close) => ExpansionText(e, close)
  }

  function PieceMeaning(p: Piece): string {
    match p
    case Plain(c) => [c]
    case Backslashed(c) => [c]
    case Continued => ""
    case Single(s) => s
    case Double(items) => ItemsMeaning(items)
    case Arithmetic(e, close) => ExpansionResult(e)
  }

  function PiecesText(ps: seq<Piece>): string {
    if ps == [] then "" else PieceText(ps[0]) + PiecesText(ps[1..])
  }

  function PiecesMeaning(ps: seq<Piece>): string {
    if ps == [] then "" else PieceMeaning(ps[0]) + PiecesMeaning(ps[1..])
  }

  /** A word as written, and the blanks after it. */
  datatype Written = Written(pieces: seq<Piece>, blanks: string)

  function LineText(ws: seq<Written>): string {
    if ws == [] then "" else PiecesText(ws[0].pieces) + ws[0].blanks + LineText(ws[1..])
  }

  /** Words are separated by blanks; only the last may lack them. */
  predicate ValidLine(ws: seq<Written>) {
    ws != [] ==>
      && ValidPieces(ws[0].pieces)
      && Blank(ws[0].blanks)
      && (|ws| > 1 ==> ws[0].blanks != "")
      && ValidLine(ws[1..])
  }

  predicate ValidPieces(ps: seq<Piece>) {
    forall j :: 0 <= j < |ps| ==> ValidPiece(ps[j])
  }

  function NonEmpty(word: string): seq<string> {
    if word == "" then [] else [word]
  }

  /** The words meant; one that means nothing, such as '', yields no word. */
  function Meant(ws: seq<Written>): seq<string> {
    if ws == [] then [] else NonEmpty(PiecesMeaning(ws[0].pieces)) + Meant(ws[1..])
  }

  lemma AddTwice(word: Option<string>, a: string, b: string)
    ensures AddStr(AddStr(word, a), b) == AddStr(word, a + b)
  {
    assert Text(word) + a + b == Text(word) + (a + b);
    assert "" + b == b && a + "" == a;
  }

  lemma {:induction false} SquoteReads(word: Option<string>, s: string, tail: string)
    requires '\'' !in s
    ensures Squote(word, s + ("'" + tail)) == Parsed(AddStr(word, s), tail)
    decreases s
  {
    var t := s + ("'" + tail);
    if s == "" {
      assert t == "'" + tail;
    } else {
      assert t[0] == s[0] && t[1..] == s[1..] + ("'" + tail);
      SquoteReads(AddChar(word, s[0]), s[1..], tail);
      AddTwice(word, [s[0]], s[1..]);
      assert [s[0]] + s[1..] == s;
    }
  }

  lemma {:induction false} ItemReads(word: Option<string>, i: Item, tail: string)
    requires ValidItem(i)
    ensures Dquote(word, ItemText(i) + tail) == Dquote(AddStr(word, ItemMeaning(i)), tail)
  {
    var t := ItemText(i) + tail;
    match i {
      case Raw(c) => assert t[1..] == tail;
      case Computed(e, close) =>
        ExpansionValue(word, e, close, tail);
        assert t[0] == '$';
      case Kept(c) =>
        assert t[2..] == tail;
        assert Text(word) + ['\\'] + [c] == Text(word) + ['\\', c];
      case _ => assert t[2..] == tail;
    }
  }

  lemma {:induction false} DquoteReads(word: Option<string>, items: seq<Item>, tail: string)
    requires forall i :: 0 <= i < |items| ==> ValidItem(items[i])
    ensures Dquote(word, ItemsText(items) + ("\"" + tail)) == Parsed(AddStr(word, ItemsMeaning(items)), tail)
    decreases items
  {
    var end := "\"" + tail;
    if items == [] {
      assert "" + end == end && end[1..] == tail;
    } else {
      var rest := ItemsText(items[1..]) + end;
      assert ItemsText(items) + end == ItemText(items[0]) + rest;
      ItemReads(word, items[0], rest);
      DquoteReads(AddStr(word, ItemMeaning(items[0])), items[1..], tail);
      AddTwice(word, ItemMeaning(items[0]), ItemsMeaning(items[1..]));
    }
  }

  lemma Enclosed(quote: string, s: string, tail: string)
    requires |quote| == 1
    ensures (quote + s + quote + tail)[0] == quote[0] && (quote + s + quote + tail)[1..] == s + (quote + tail)
  {
  }

  lemma {:induction false} QuotedReads(word: Option<string>, p: Piece, tail: string)
    requires ValidPiece(p) && (p.Single? || p.Double?)
    ensures var t := PieceText(p) + tail;
            Quotes(t[0]) && Special(word, t) == Parsed(AddStr(word, PieceMeaning(p)), tail)
  {
    var t := PieceText(p) + tail;
    if p.Single? {
      Enclosed("'", p.s, tail);
      SquoteReads(word, p.s, tail);
    } else {
      Enclosed("\"", ItemsText(p.items), tail);
      DquoteReads(word, p.items, tail);
    }
  }

  lemma {:induction false} SpecialReads(word: Option<string>, p: Piece, tail: string)
    requires ValidPiece(p) && !p.Plain?
    ensures var t := PieceText(p) + tail;
            Quotes(t[0]) && Special(word, t) == Parsed(AddStr(word, PieceMeaning(p)), tail)
  {
    if p.Single? || p.Double? {
      QuotedReads(word, p, tail);
    } else if p.Arithmetic? {
      ExpansionValue(word, p.e, p.close, tail);
    } else {
      assert (PieceText(p) + tail)[2..] == tail;
    }
  }

  lemma {:induction false} PieceReads(word: Option<string>, wordv: seq<string>, p: Piece, tail: string)
    requires ValidPiece(p)
    ensures Expand(word, wordv, PieceText(p) + tail) == Expand(AddStr(word, PieceMeaning(p)), wordv, tail)
  {
    if p.Plain? {
      assert (PieceText(p) + tail)[1..] == tail;
    } else {
      SpecialReads(word, p, tail);
    }
  }

  lemma {:induction false} PiecesRead(word: Option<string>, wordv: seq<string>, ps: seq<Piece>, tail: string)
    requires ValidPieces(ps)
    ensures Expand(word, wordv, PiecesText(ps) + tail) == Expand(AddStr(word, PiecesMeaning(ps)), wordv, tail)
    decreases ps
  {
    if ps == [] {
      assert "" + tail == tail;
    } else {
      assert PiecesText(ps) + tail == PieceText(ps[0]) + (PiecesText(ps[1..]) + tail);
      PieceReads(word, wordv, ps[0], PiecesText(ps[1..]) + tail);
      PiecesRead(AddStr(word, PieceMeaning(ps[0])), wordv, ps[1..], tail);
      AddTwice(word, PieceMeaning(ps[0]), PiecesMeaning(ps[1..]));
    }
  }

  lemma {:induction false} BlanksRead(word: Option<string>, wordv: seq<string>, blanks: string, tail: string)
    requires Blank(blanks)
    ensures Expand(word, wordv, blanks + tail)
            == if blanks == "" then Expand(word, wordv, tail) else Expand(None, AddWord(wordv, word), tail)
    decreases blanks
  {
    var t := blanks + tail;
    if blanks == "" {
      assert t == tail;
    } else {
      assert t[0] == blanks[0] && t[1..] == blanks[1..] + tail;
      BlanksRead(None, AddWord(wordv, word), blanks[1..], tail);
    }
  }

  lemma {:induction false} WrittenReads(wordv: seq<string>, w: Written, rest: string)
    requires ValidPieces(w.pieces) && Blank(w.blanks) && (rest != "" ==> w.blanks != "")
    ensures Expand(None, wordv, PiecesText(w.pieces) + w.blanks + rest)
            == Expand(None, wordv + NonEmpty(PiecesMeaning(w.pieces)), rest)
  {
    var meaning := PiecesMeaning(w.pieces);
    var word := AddStr(None, meaning);
    Associative(PiecesText(w.pieces), w.blanks, rest);
    PiecesRead(None, wordv, w.pieces, w.blanks + rest);
    BlanksRead(word, wordv, w.blanks, rest);
    assert "" + meaning == meaning;
    assert wordv + NonEmpty(meaning) == AddWord(wordv, word);
  }

  lemma {:induction false} LineReads(wordv: seq<string>, ws: seq<Written>)
    requires ValidLine(ws)
    ensures Expand(None, wordv, LineText(ws)) == Words(wordv + Meant(ws))
    decreases ws
  {
    if ws == [] {
      assert wordv + [] == wordv;
    } else {
      LineStep(wordv, ws);
      var first := NonEmpty(PiecesMeaning(ws[0].pieces));
      LineReads(wordv + first, ws[1..]);
      Associative(wordv, first, Meant(ws[1..]));
    }
  }

  lemma LineStep(wordv: seq<string>, ws: seq<Written>)
    requires ValidLine(ws) && ws != []
    ensures Expand(None, wordv, LineText(ws))
            == Expand(None, wordv + NonEmpty(PiecesMeaning(ws[0].pieces)), LineText(ws[1..]))
  {
    assert |ws| == 1 ==> ws[1..] == [];
    WrittenReads(wordv, ws[0], LineText(ws[1..]));
  }

  /** Quoting round trip: however the words are written, with any blanks before,
      between and after them, expansion returns exactly the words meant. */
  lemma {:induction false} QuotingRoundTrip(wordv: seq<string>, lead: string, ws: seq<Written>)
    requires Blank(lead) && ValidLine(ws)
    ensures Expand(None, wordv, lead + LineText(ws)) == Words(wordv + Meant(ws))
  {
    BlanksRead(None, wordv, lead, LineText(ws));
    LineReads(wordv, ws);
  }

  /** One of the ten characters that may not stand unquoted, behind any words, is refused. */
  lemma {:induction false} OperatorRefused(wordv: seq<string>, lead: string, ws: seq<Written>, c: char, tail: string)
    requires Blank(lead) && ValidLine(ws)
    requires c == '\n' || c == '|' || c == '&' || c == ';' || c == '<' || c == '>'
             || c == '(' || c == ')' || c == '{' || c == '}'
    ensures Expand(None, wordv, lead + (LineText(ws) + ([c] + tail))) == Error(BadChar)
  {
    BlanksRead(None, wordv, lead, LineText(ws) + ([c] + tail));
    RefusedBehind(wordv, ws, c, tail);
  }

  lemma RefusedHere(word: Option<string>, wordv: seq<string>, c: char, tail: string)
    requires Operator(c)
    ensures Expand(word, wordv, [c] + tail) == Error(BadChar)
  {
    assert ([c] + tail)[0] == c;
  }

  lemma {:induction false} RefusedBehind(wordv: seq<string>, ws: seq<Written>, c: char, tail: string)
    requires ValidLine(ws) && Operator(c)
    ensures Expand(None, wordv, LineText(ws) + ([c] + tail)) == Error(BadChar)
    decreases ws
  {
    var end := [c] + tail;
    if ws == [] {
      RefusedHere(None, wordv, c, tail);
      assert "" + end == end;
    } else {
      var w, rest := ws[0], LineText(ws[1..]) + end;
      var word := AddStr(None, PiecesMeaning(w.pieces));
      Associative(PiecesText(w.pieces) + w.blanks, LineText(ws[1..]), end);
      Associative(PiecesText(w.pieces), w.blanks, rest);
      PiecesRead(None, wordv, w.pieces, w.blanks + rest);
      BlanksRead(word, wordv, w.blanks, rest);
      if w.blanks == "" {
        assert ws[1..] == [] && rest == end;
        RefusedHere(word, wordv, c, tail);
      } else {
        RefusedBehind(AddWord(wordv, word), ws[1..], c, tail);
      }
    }
  }

  /** Arithmetic end to end, for wordexp itself: one expansion standing alone gives
      its decimal value, and a nested one gives the syntax error. */
  lemma {:induction false} ExpansionAlone(e: Sum, close: string)
    requires ValidSum(e) && Blank(close) && Printable(SumValue(e))
    ensures Expand(None, [], ExpansionText(e, close))
            == if SumDepth(e) <= 1 then Words([IntText(SumValue(e).value)]) else Error(SyntaxError)
  {
    var t := ExpansionText(e, close);
    assert t + "" == t && t[0] == '$';
    if SumDepth(e) <= 1 {
      ExpansionValue(None, e, close, "");
      assert "" + IntText(SumValue(e).value) == IntText(SumValue(e).value);
    } else {
      NestedExpansion(None, e, close, "");
    }
  }
}
