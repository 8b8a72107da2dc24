/** Arithmetic expressions as trees, their exact meaning, and the proof that the
    evaluator computes it on every printed form. */
module ArithExpr {
  import opened CStrings
  import opened Seqs
  import opened Arith

  datatype Factor =
    | Lit(ws: string, sign: string, digits: string)
    | Paren(ws: string, body: Sum, close: string)
  datatype Muls = NoMul | Mul(ws: string, op: char, f: Factor, more: Muls)
  datatype Term = Term(f: Factor, muls: Muls)
  datatype Adds = NoAdd | Add(ws: string, op: char, t: Term, more: Adds)
  datatype Sum = Sum(t: Term, adds: Adds)

  predicate Blank(ws: string) {
    forall i :: 0 <= i < |ws| ==> ws[i] == ' ' || ws[i] == '\t'
  }

  // ----- well-formed trees -----

  predicate ValidFactor(f: Factor) {
    match f
    case Lit(ws, sign, digits) =>
      Blank(ws) && (sign == "" || sign == "+" || sign == "-") && digits != "" && AllDigits(digits)
    case Paren(ws, body, close) => Blank(ws) && Blank(close) && ValidSum(body)
  }

  predicate ValidMuls(m: Muls) {
    m.Mul? ==> Blank(m.ws) && (m.op == '*' || m.op == '/') && ValidFactor(m.f) && ValidMuls(m.more)
  }

  predicate ValidTerm(t: Term) {
    ValidFactor(t.f) && ValidMuls(t.muls)
  }

  predicate ValidAdds(a: Adds) {
    a.Add? ==> Blank(a.ws) && (a.op == '+' || a.op == '-') && ValidTerm(a.t) && ValidAdds(a.more)
  }

  predicate ValidSum(e: Sum) {
    ValidTerm(e.t) && ValidAdds(e.adds)
  }

  // ----- the printed form -----

  function FactorText(f: Factor): string {
    match f
    case Lit(ws, sign, digits) => ws + sign + digits
    case Paren(ws, body, close) => ws + "(" + SumText(body) + close + ")"
  }

  function MulsText(m: Muls): string {
    match m
    case NoMul => ""
    case Mul(ws, op, f, more) => ws + [op] + FactorText(f) + MulsText(more)
  }

  function TermText(t: Term): string {
    FactorText(t.f) + MulsText(t.muls)
  }

  function AddsText(a: Adds): string {
    match a
    case NoAdd => ""
    case Add(ws, op, t, more) => ws + [op] + TermText(t) + AddsText(more)
  }

  function SumText(e: Sum): string {
    TermText(e.t) + AddsText(e.adds)
  }

  // ----- the meaning: left-associative, truncating, None outside the range of a long -----

  function FactorValue(f: Factor): Option<int> {
    match f
    case Lit(_, sign, digits) =>
      if !AllDigits(digits) || Horner(0, digits) > LONG_MAX then None
      else Some(if sign == "-" then 0 - Horner(0, digits) else Horner(0, digits))
    case Paren(_, body, _) => SumValue(body)
  }

  function MulsValue(acc: int, m: Muls): Option<int>
    decreases m
  {
    match m
    case NoMul => Some(acc)
    case Mul(_, op, f, more) =>
      match FactorValue(f)
      case None => None
      case Some(b) =>
        match Apply(op, acc, b)
        case None => None
        case Some(v) => MulsValue(v, more)
  }

  function TermValue(t: Term): Option<int> {
    match FactorValue(t.f)
    case None => None
    case Some(v) => MulsValue(v, t.muls)
  }

  function AddsValue(acc: int, a: Adds): Option<int>
    decreases a
  {
    match a
    case NoAdd => Some(acc)
    case Add(_, op, t, more) =>
      match TermValue(t)
      case None => None
      case Some(b) =>
        match Apply(op, acc, b)
        case None => None
        case Some(v) => AddsValue(v, more)
  }

  function SumValue(e: Sum): Option<int> {
    match TermValue(e.t)
    case None => None
    case Some(v) => AddsValue(v, e.adds)
  }

  // ----- nesting of parentheses -----

  function Max(a: nat, b: nat): nat { if a < b then b else a }

  function FactorDepth(f: Factor): nat {
    match f
    case Lit(_, _, _) => 0
    case Paren(_, body, _) => 1 + SumDepth(body)
  }

  function MulsDepth(m: Muls): nat {
    match m
    case NoMul => 0
    case Mul(_, _, f, more) => Max(FactorDepth(f), MulsDepth(more))
  }

  function TermDepth(t: Term): nat {
    Max(FactorDepth(t.f), MulsDepth(t.muls))
  }

  function AddsDepth(a: Adds): nat {
    match a
    case NoAdd => 0
    case Add(_, _, t, more) => Max(TermDepth(t), AddsDepth(more))
  }

  function SumDepth(e: Sum): nat {
    Max(TermDepth(e.t), AddsDepth(e.adds))
  }

  // ----- evaluating a printed form -----

  /** The unread text: all of it at nesting limit 1; inside a parenthesis (limit 0)
      the evaluator only sees the text before the first closing one. */
  function Seen(t: string, limit: nat): string {
    if limit == 0 then Upto(t) else t
  }

  /** What the evaluator must answer for a part of depth `depth` and meaning `v`:
      its exact value with `rest` unread, undefined if it has none; beyond the
      nesting limit never a value, and a syntax error if the meaning exists. */
  predicate Answers(r: Eval, v: Option<int>, depth: nat, limit: nat, rest: string) {
    if depth <= limit then
      r == (match v case Some(n) => Value(n, rest) case None => Undefined)
    else r == Syntax || (r == Undefined && v == None)
  }

  lemma {:induction false} UptoAppend(a: string, b: string)
    requires ')' !in a
    ensures Upto(a + b) == a + Upto(b)
    decreases a
  {
    if a == [] {
      assert a + b == b;
    } else {
      assert (a + b)[0] == a[0] && (a + b)[1..] == a[1..] + b;
      UptoAppend(a[1..], b);
    }
  }

  lemma {:induction false} SeenAppend(a: string, b: string, limit: nat)
    requires limit == 0 ==> ')' !in a
    ensures Seen(a + b, limit) == a + Seen(b, limit)
  {
    if limit == 0 { UptoAppend(a, b); }
  }

  lemma {:induction false} SkipBlank(ws: string, t: string)
    requires Blank(ws)
    ensures SkipSpace(ws + t) == SkipSpace(t)
    decreases ws
  {
    if ws == [] {
      assert ws + t == t;
    } else {
      assert (ws + t)[0] == ws[0] && (ws + t)[1..] == ws[1..] + t;
      SkipBlank(ws[1..], t);
    }
  }

  lemma {:induction false} DigitsRead(acc: nat, ds: string, t: string)
    requires AllDigits(ds) && (t != "" ==> !IsDigit(t[0])) && acc <= LONG_MAX
    ensures Digits(acc, ds + t) == if Horner(acc, ds) <= LONG_MAX then Value(Horner(acc, ds), t) else Undefined
    decreases ds
  {
    if ds == [] {
      assert ds + t == t;
    } else {
      assert (ds + t)[0] == ds[0] && (ds + t)[1..] == ds[1..] + t;
      var next := acc * 10 + DigitOf(ds[0]);
      if next > LONG_MAX {
        HornerGrows(next, ds[1..]);
      } else {
        DigitsRead(next, ds[1..], t);
      }
    }
  }

  /** After white space the text does not go on with one of the given characters. */
  predicate Stops(t: string, chars: string) {
    var d := SkipSpace(t);
    d != "" ==> d[0] !in chars
  }

  predicate NoDigit(t: string) {
    t != "" ==> !IsDigit(t[0])
  }

  lemma SignedNumber(t: string, sign: string, number: string)
    requires sign == "" || sign == "+" || sign == "-"
    requires number != "" && IsDigit(number[0]) && SkipSpace(t) == sign + number
    ensures EvalVal(t) == match Digits(0, number)
                          case Value(v, rest) => Value(if sign == "-" then 0 - v else v, rest)
                          case other => other
  {
    if sign == "" {
      assert sign + number == number;
    } else {
      assert (sign + number)[1..] == number;
    }
  }

  lemma {:induction false} LitAnswers(f: Factor, tail: string)
    requires f.Lit? && ValidFactor(f) && NoDigit(tail)
    ensures Answers(EvalVal(FactorText(f) + tail), FactorValue(f), 0, 0, tail)
  {
    var number := f.digits + tail;
    var d := f.sign + number;
    assert FactorText(f) + tail == f.ws + d;
    assert IsDigit(number[0]);
    SkipBlank(f.ws, d);
    assert SkipSpace(d) == d;
    SignedNumber(f.ws + d, f.sign, number);
    DigitsRead(0, f.digits, tail);
  }

  lemma {:induction false} LitHasNoParen(f: Factor)
    requires f.Lit? && ValidFactor(f)
    ensures ')' !in FactorText(f)
  {
  }

  lemma OpenParen(ws: string, body: string)
    requires Blank(ws)
    ensures EvalVal(ws + ("(" + body)) ==
            if |Upto(body)| == |body| then Syntax else
            match EvalExpr(Upto(body))
            case Value(v, _) => Value(v, body[|Upto(body)| + 1..])
            case other => other
  {
    SkipBlank(ws, "(" + body);
    var d := "(" + body;
    assert d[1..] == body;
    assert |Upto(body)| < |body| ==> d[|Upto(body)| + 2..] == body[|Upto(body)| + 1..];
  }

  lemma {:induction false} ParenAnswers(f: Factor, tail: string, limit: nat)
    requires f.Paren? && ValidFactor(f) && limit <= 1
    ensures Answers(EvalVal(Seen(FactorText(f) + tail, limit)), FactorValue(f), FactorDepth(f), limit,
                    Seen(tail, limit))
    decreases f, 0
  {
    var inside := SumText(f.body) + (f.close + (")" + tail));
    assert FactorText(f) + tail == f.ws + ("(" + inside);
    OpenParen(f.ws, Seen(inside, limit));
    if limit == 0 {
      SeenAppend(f.ws, "(" + inside, limit);
      SeenAppend("(", inside, limit);
      UptoTwice(inside);
    } else {
      InnerAnswers(f.body, f.close, tail);
    }
  }

  lemma {:induction false} InnerAnswers(e: Sum, close: string, tail: string)
    requires ValidSum(e) && Blank(close)
    ensures var inside := SumText(e) + (close + (")" + tail));
            && |Upto(inside)| < |inside|
            && Answers(EvalExpr(Upto(inside)), SumValue(e), SumDepth(e), 0, "")
            && (SumDepth(e) == 0 ==> inside[|Upto(inside)| + 1..] == tail)
    decreases e, 2
  {
    ClosingPart(close, tail);
    SumAnswers(e, close + (")" + tail), 0);
    if SumDepth(e) == 0 { SumHasNoParen(e); }
    CloseFound(SumText(e), close, tail);
  }

  /** The blank before a closing parenthesis, and what the evaluator sees of it. */
  lemma ClosingPart(close: string, tail: string)
    requires Blank(close)
    ensures var ending := close + (")" + tail);
            Upto(ending) == close && NoDigit(ending) && Stops(ending, "+-*/") && SkipSpace(Seen(ending, 0)) == ""
  {
    UptoAppend(close, ")" + tail);
    assert close + "" == close;
    SkipBlank(close, ")" + tail);
    SkipBlank(close, "");
  }

  lemma CloseFound(body: string, close: string, tail: string)
    requires Blank(close)
    ensures var inside := body + (close + (")" + tail));
            |Upto(inside)| < |inside| && (')' !in body ==> inside[|Upto(inside)| + 1..] == tail)
  {
    var inside := body + (close + (")" + tail));
    assert inside[|body| + |close|] == ')';
    UptoFacts(inside);
    if ')' !in body {
      ClosingPart(close, tail);
      UptoAppend(body, close + (")" + tail));
    }
  }

  lemma UptoTwice(t: string)
    ensures Upto(Upto(t)) == Upto(t)
  {
    UptoFacts(t);
    UptoAppend(Upto(t), "");
    assert Upto(t) + "" == Upto(t);
  }

  lemma {:induction false} FactorAnswers(f: Factor, tail: string, limit: nat)
    requires ValidFactor(f) && limit <= 1 && NoDigit(tail)
    ensures Answers(EvalVal(Seen(FactorText(f) + tail, limit)), FactorValue(f), FactorDepth(f), limit,
                    Seen(tail, limit))
    decreases f, 1
  {
    match f {
      case Lit(_, _, _) =>
        LitHasNoParen(f);
        SeenAppend(FactorText(f), tail, limit);
        LitAnswers(f, Seen(tail, limit));
      case Paren(_, _, _) =>
        ParenAnswers(f, tail, limit);
    }
  }

  /** The text of one more operation, its operator split off. */
  lemma Regroup(ws: string, op: char, operand: string, more: string, tail: string, limit: nat)
    requires Blank(ws) && op != ')'
    ensures Seen(ws + [op] + operand + more + tail, limit) == ws + ([op] + Seen(operand + (more + tail), limit))
  {
    var rest := operand + (more + tail);
    assert ws + [op] + operand + more + tail == ws + ([op] + rest);
    SeenAppend(ws, [op] + rest, limit);
    SeenAppend([op], rest, limit);
  }

  lemma MulStep(acc: int, ws: string, op: char, t: string)
    requires Blank(ws) && (op == '*' || op == '/')
    ensures MulLoop(acc, ws + ([op] + t)) ==
            var r := Operate(op, acc, EvalVal(t)); if r.Value? then MulLoop(r.v, r.rest) else r
  {
    SkipBlank(ws, [op] + t);
    assert ([op] + t)[1..] == t;
  }

  lemma AddStep(acc: int, ws: string, op: char, t: string)
    requires Blank(ws) && (op == '+' || op == '-')
    ensures AddLoop(acc, ws + ([op] + t)) ==
            var r := Operate(op, acc, EvalMultdiv(t)); if r.Value? then AddLoop(r.v, r.rest) else r
  {
    SkipBlank(ws, [op] + t);
    assert ([op] + t)[1..] == t;
  }

  /** An operation and what follows it, if the operand and the rest answer as they must. */
  lemma Chained(op: char, acc: int, operand: Eval, v: Option<int>, depth: nat, rest: string,
                cont: Eval, w: Option<int>, more: nat, limit: nat, end: string)
    requires Answers(operand, v, depth, limit, rest)
    requires v.Some? && Apply(op, acc, v.value).Some? ==> Answers(cont, w, more, limit, end)
    requires v == None || Apply(op, acc, v.value) == None ==> w == None
    ensures var r := Operate(op, acc, operand);
            Answers(if r.Value? then cont else r, w, Max(depth, more), limit, end)
  {
  }

  lemma MulOnce(acc: int, m: Muls, tail: string, limit: nat)
    requires m.Mul? && ValidMuls(m)
    ensures MulLoop(acc, Seen(MulsText(m) + tail, limit)) ==
            var r := Operate(m.op, acc, EvalVal(Seen(FactorText(m.f) + (MulsText(m.more) + tail), limit)));
            if r.Value? then MulLoop(r.v, r.rest) else r
  {
    Regroup(m.ws, m.op, FactorText(m.f), MulsText(m.more), tail, limit);
    MulStep(acc, m.ws, m.op, Seen(FactorText(m.f) + (MulsText(m.more) + tail), limit));
  }

  lemma {:induction false} MulsAnswers(acc: int, m: Muls, tail: string, limit: nat)
    requires ValidMuls(m) && limit <= 1 && NoDigit(tail) && Stops(tail, "*/")
    ensures Answers(MulLoop(acc, Seen(MulsText(m) + tail, limit)), MulsValue(acc, m), MulsDepth(m), limit,
                    SkipSpace(Seen(tail, limit)))
    decreases m
  {
    match m {
      case NoMul =>
        assert "" + tail == tail;
        StopsSeen(tail, "*/", limit);
      case Mul(_, op, f, more) =>
        var after := MulsText(more) + tail;
        MulsStart(more, tail);
        MulOnce(acc, m, tail, limit);
        FactorAnswers(f, after, limit);
        var v := FactorValue(f);
        var next := if v.Some? then Apply(op, acc, v.value) else None;
        var w := if next.Some? then MulsValue(next.value, more) else None;
        var cont := if next.Some? then MulLoop(next.value, Seen(after, limit)) else Syntax;
        if next.Some? {
          MulsAnswers(next.value, more, tail, limit);
        }
        Chained(op, acc, EvalVal(Seen(FactorText(f) + after, limit)), v, FactorDepth(f), Seen(after, limit),
                cont, w, MulsDepth(more), limit, SkipSpace(Seen(tail, limit)));
    }
  }

  lemma {:induction false} TermAnswers(t: Term, tail: string, limit: nat)
    requires ValidTerm(t) && limit <= 1 && NoDigit(tail) && Stops(tail, "*/")
    ensures Answers(EvalMultdiv(Seen(TermText(t) + tail, limit)), TermValue(t), TermDepth(t), limit,
                    SkipSpace(Seen(tail, limit)))
    decreases t
  {
    var after := MulsText(t.muls) + tail;
    MulsStart(t.muls, tail);
    assert TermText(t) + tail == FactorText(t.f) + after;
    FactorAnswers(t.f, after, limit);
    if FactorDepth(t.f) <= limit && FactorValue(t.f).Some? {
      MulsAnswers(FactorValue(t.f).value, t.muls, tail, limit);
    }
  }

  lemma AddOnce(acc: int, a: Adds, tail: string, limit: nat)
    requires a.Add? && ValidAdds(a)
    ensures AddLoop(acc, Seen(AddsText(a) + tail, limit)) ==
            var r := Operate(a.op, acc, EvalMultdiv(Seen(TermText(a.t) + (AddsText(a.more) + tail), limit)));
            if r.Value? then AddLoop(r.v, r.rest) else r
  {
    Regroup(a.ws, a.op, TermText(a.t), AddsText(a.more), tail, limit);
    AddStep(acc, a.ws, a.op, Seen(TermText(a.t) + (AddsText(a.more) + tail), limit));
  }

  lemma {:induction false} AddsAnswers(acc: int, a: Adds, tail: string, limit: nat)
    requires ValidAdds(a) && limit <= 1 && NoDigit(tail) && Stops(tail, "+-*/")
    ensures Answers(AddLoop(acc, Seen(AddsText(a) + tail, limit)), AddsValue(acc, a), AddsDepth(a), limit,
                    SkipSpace(Seen(tail, limit)))
    decreases a
  {
    match a {
      case NoAdd =>
        assert "" + tail == tail;
        StopsSeen(tail, "+-*/", limit);
      case Add(_, op, t, more) =>
        var after := AddsText(more) + tail;
        AddsStart(more, tail);
        AddOnce(acc, a, tail, limit);
        TermAnswers(t, after, limit);
        var v := TermValue(t);
        var next := if v.Some? then Apply(op, acc, v.value) else None;
        var w := if next.Some? then AddsValue(next.value, more) else None;
        var cont := if next.Some? then AddLoop(next.value, SkipSpace(Seen(after, limit))) else Syntax;
        if next.Some? {
          AddLoopSkips(next.value, Seen(after, limit));
          AddsAnswers(next.value, more, tail, limit);
        }
        Chained(op, acc, EvalMultdiv(Seen(TermText(t) + after, limit)), v, TermDepth(t),
                SkipSpace(Seen(after, limit)), cont, w, AddsDepth(more), limit, SkipSpace(Seen(tail, limit)));
    }
  }

  lemma {:induction false} SumAnswers(e: Sum, tail: string, limit: nat)
    requires ValidSum(e) && limit <= 1 && NoDigit(tail) && Stops(tail, "+-*/")
    ensures Answers(EvalExpr(Seen(SumText(e) + tail, limit)), SumValue(e), SumDepth(e), limit,
                    SkipSpace(Seen(tail, limit)))
    decreases e, 1
  {
    var after := AddsText(e.adds) + tail;
    AddsStart(e.adds, tail);
    assert SumText(e) + tail == TermText(e.t) + after;
    TermAnswers(e.t, after, limit);
    if TermDepth(e.t) <= limit && TermValue(e.t).Some? {
      AddLoopSkips(TermValue(e.t).value, Seen(after, limit));
      AddsAnswers(TermValue(e.t).value, e.adds, tail, limit);
    }
  }

  // ----- how the tails of printed forms begin -----

  lemma {:induction false} SkipSeen(t: string, limit: nat)
    ensures SkipSpace(Seen(t, limit)) == Seen(SkipSpace(t), limit)
    decreases t
  {
    if limit == 0 && t != [] && IsSpace(t[0]) {
      assert ([t[0]] + Upto(t[1..]))[1..] == Upto(t[1..]);
      SkipSeen(t[1..], limit);
    }
  }

  lemma StopsSeen(t: string, chars: string, limit: nat)
    requires Stops(t, chars)
    ensures Stops(Seen(t, limit), chars)
  {
    SkipSeen(t, limit);
  }

  lemma AddLoopSkips(acc: int, t: string)
    ensures AddLoop(acc, SkipSpace(t)) == AddLoop(acc, t)
  {
  }

  lemma MulsStart(m: Muls, tail: string)
    requires ValidMuls(m) && NoDigit(tail)
    ensures NoDigit(MulsText(m) + tail)
  {
    if m.Mul? {
      Regroup(m.ws, m.op, FactorText(m.f), MulsText(m.more), tail, 1);
    } else {
      assert "" + tail == tail;
    }
  }

  lemma AddsStart(a: Adds, tail: string)
    requires ValidAdds(a) && NoDigit(tail) && Stops(tail, "+-*/")
    ensures NoDigit(AddsText(a) + tail) && Stops(AddsText(a) + tail, "*/")
  {
    if a.Add? {
      var rest := TermText(a.t) + (AddsText(a.more) + tail);
      Regroup(a.ws, a.op, TermText(a.t), AddsText(a.more), tail, 1);
      SkipBlank(a.ws, [a.op] + rest);
    } else {
      assert "" + tail == tail;
    }
  }

  // ----- depth 0 means no parenthesis in the text -----

  lemma {:induction false} MulsHaveNoParen(m: Muls)
    requires ValidMuls(m) && MulsDepth(m) == 0
    ensures ')' !in MulsText(m)
  {
    if m.Mul? {
      LitHasNoParen(m.f);
      MulsHaveNoParen(m.more);
    }
  }

  lemma {:induction false} TermHasNoParen(t: Term)
    requires ValidTerm(t) && TermDepth(t) == 0
    ensures ')' !in TermText(t)
  {
    LitHasNoParen(t.f);
    MulsHaveNoParen(t.muls);
  }

  lemma {:induction false} AddsHaveNoParen(a: Adds)
    requires ValidAdds(a) && AddsDepth(a) == 0
    ensures ')' !in AddsText(a)
  {
    if a.Add? {
      TermHasNoParen(a.t);
      AddsHaveNoParen(a.more);
    }
  }

  lemma {:induction false} SumHasNoParen(e: Sum)
    requires ValidSum(e) && SumDepth(e) == 0
    ensures ')' !in SumText(e)
  {
    TermHasNoParen(e.t);
    AddsHaveNoParen(e.adds);
  }

  // ----- the main results -----

  /** With parentheses at most one deep, a printed expression evaluates to its exact
      meaning, and is undefined exactly when it has none. */
  lemma {:induction false} EvaluatesToMeaning(e: Sum, close: string)
    requires ValidSum(e) && SumDepth(e) <= 1 && Blank(close)
    ensures EvalExpr(SumText(e) + close) ==
            match SumValue(e) case Some(v) => Value(v, "") case None => Undefined
  {
    assert close + "" == close;
    SkipBlank(close, "");
    SumAnswers(e, close, 1);
  }

  /** Deeper nesting is never given a value; it is a syntax error whenever the
      expression has a meaning. */
  lemma {:induction false} NestedIsRejected(e: Sum, close: string)
    requires ValidSum(e) && SumDepth(e) > 1 && Blank(close)
    ensures !EvalExpr(SumText(e) + close).Value?
    ensures SumValue(e).Some? ==> EvalExpr(SumText(e) + close) == Syntax
  {
    assert close + "" == close;
    SkipBlank(close, "");
    SumAnswers(e, close, 1);
  }
}
