/** The arithmetic evaluator: signed 64-bit sums and products read left to right
    from a NUL-terminated buffer, in which a closing parenthesis is overwritten. */
module Arith {
  import opened CStrings
  import opened Seqs

  const LONG_MAX: int := 0x7fff_ffff_ffff_ffff
  const LONG_MIN: int := -0x8000_0000_0000_0000

  predicate IsLong(v: int) {
    LONG_MIN <= v <= LONG_MAX
  }

  /** C division, which truncates toward zero. */
  function Quotient(a: int, b: int): int
    requires b != 0
  {
    if a >= 0 then a / b else -((-a) / b)
  }

  /** A value and the unread text, WRDE_SYNTAX, or behaviour C leaves undefined
      (overflow of a long, division by zero). */
  datatype Eval = Value(v: int, rest: string) | Syntax | Undefined

  predicate Shorter(r: Eval, t: string) {
    r.Value? ==> |r.rest| < |t|
  }

  predicate NotLonger(r: Eval, t: string) {
    r.Value? ==> |r.rest| <= |t|
  }

  function SkipSpace(t: string): (r: string)
    ensures |r| <= |t| && (r != "" ==> !IsSpace(r[0]))
  {
    if t != [] && IsSpace(t[0]) then SkipSpace(t[1..]) else t
  }

  function Digits(acc: nat, t: string): (r: Eval)
    ensures NotLonger(r, t)
    ensures t != "" && IsDigit(t[0]) ==> Shorter(r, t)
    decreases t
  {
    if t == [] || !IsDigit(t[0]) then Value(acc, t)
    else if acc * 10 + DigitOf(t[0]) > LONG_MAX then Undefined
    else Digits(acc * 10 + DigitOf(t[0]), t[1..])
  }

  /** The text before the first closing parenthesis. */
  function Upto(t: string): (r: string)
    ensures |r| <= |t|
  {
    if t == [] || t[0] == ')' then [] else [t[0]] + Upto(t[1..])
  }

  /** The value of an operation, unless it overflows or divides by zero. */
  function Apply(op: char, a: int, b: int): (r: Option<int>)
    ensures r.Some? ==> IsLong(r.value)
  {
    if op == '/' && b == 0 then None
    else
      var v := if op == '*' then a * b else if op == '/' then Quotient(a, b)
               else if op == '+' then a + b else a - b;
      if IsLong(v) then Some(v) else None
  }

  /** An operation whose second operand was just read. */
  function Operate(op: char, a: int, operand: Eval): (r: Eval)
    ensures r.Value? ==> operand.Value? && r.rest == operand.rest
  {
    match operand
    case Value(b, rest) => (match Apply(op, a, b) case Some(v) => Value(v, rest) case None => Undefined)
    case other => other
  }

  // ----- the evaluator as functions on the unread text -----

  /** A parenthesis: its text, up to the first closing one, is a string of its own. */
  function ParenVal(d: string): (r: Eval)
    requires d != ""
    ensures Shorter(r, d)
    decreases |d|, 0
  {
    var inner := Upto(d[1..]);
    if 1 + |inner| == |d| then Syntax else
    match EvalExpr(inner)
    case Value(v, _) => Value(v, d[|inner| + 2..])
    case other => other
  }

  /** A number with an optional sign; the sign alone counts as zero. */
  function NumberVal(d: string): (r: Eval)
    ensures Shorter(r, d)
  {
    if d == "" then Syntax
    else if d[0] == '+' then Digits(0, d[1..])
    else if d[0] == '-' then
      match Digits(0, d[1..])
      case Value(v, rest) => Value(-v, rest)
      case other => other
    else if IsDigit(d[0]) then Digits(0, d)
    else Syntax
  }

  function EvalVal(t: string): (r: Eval)
    ensures Shorter(r, t)
    decreases |t|, 1
  {
    var d := SkipSpace(t);
    if d != "" && d[0] == '(' then ParenVal(d) else NumberVal(d)
  }

  function MulLoop(acc: int, t: string): (r: Eval)
    ensures NotLonger(r, t)
    decreases |t|, 2
  {
    if t == "" then Value(acc, t) else
    var d := SkipSpace(t);
    if d != "" && (d[0] == '*' || d[0] == '/') then
      match Operate(d[0], acc, EvalVal(d[1..]))
      case Value(v, rest) => MulLoop(v, rest)
      case other => other
    else Value(acc, d)
  }

  function EvalMultdiv(t: string): (r: Eval)
    ensures Shorter(r, t)
    decreases |t|, 3
  {
    match EvalVal(t)
    case Value(v, rest) => MulLoop(v, rest)
    case other => other
  }

  function AddLoop(acc: int, t: string): (r: Eval)
    ensures NotLonger(r, t)
    decreases |t|, 4
  {
    if t == "" then Value(acc, t) else
    var d := SkipSpace(t);
    if d != "" && (d[0] == '+' || d[0] == '-') then
      match Operate(d[0], acc, EvalMultdiv(d[1..]))
      case Value(v, rest) => AddLoop(v, rest)
      case other => other
    else Value(acc, d)
  }

  function EvalExpr(t: string): (r: Eval)
    ensures NotLonger(r, t)
    decreases |t|, 5
  {
    match EvalMultdiv(t)
    case Value(v, rest) => AddLoop(v, rest)
    case other => other
  }

  // ----- facts about the readers -----

  /** Upto returns the part before the first ')', or everything if there is none. */
  lemma {:induction false} UptoFacts(t: string)
    ensures var n := |Upto(t)|;
            Upto(t) == t[..n] && ')' !in t[..n] && (n < |t| ==> t[n] == ')') && (')' in t ==> n < |t|)
    decreases t
  {
    if t != [] && t[0] != ')' {
      UptoFacts(t[1..]);
    }
  }

  // ----- the evaluator as it runs: a cursor over a NUL-terminated buffer -----

  datatype Code = Fine | WrdeSyntax | Undef

  /** The buffer holds a C string from start, its terminator at end. */
  ghost predicate Spelled(buf: array<char>, start: nat, end: nat)
    reads buf
  {
    start <= end < buf.Length && buf[end] == NUL && forall i :: start <= i < end ==> buf[i] != NUL
  }

  /** The cursor, the result and the return code are those of an evaluation. */
  ghost predicate Matches(r: Eval, code: Code, result: int, unread: string) {
    match r
    case Value(v, rest) => code == Fine && result == v && unread == rest
    case Syntax => code == WrdeSyntax
    case Undefined => code == Undef
  }

  method SkipWhite(buf: array<char>, start: nat, ghost end: nat) returns (p: nat)
    requires Spelled(buf, start, end)
    ensures start <= p <= end && buf[p..end] == SkipSpace(buf[start..end])
    ensures !IsSpace(buf[p])
  {
    p := start;
    while buf[p] != NUL && IsSpace(buf[p])
      invariant start <= p <= end
      invariant SkipSpace(buf[p..end]) == SkipSpace(buf[start..end])
      decreases end - p
    {
      assert p < end;
      assert buf[p..end][1..] == buf[p + 1..end];
      p := p + 1;
    }
    assert p < end ==> buf[p..end][0] == buf[p] && buf[p] == buf[start..end][p - start];
  }

  method ReadDigits(buf: array<char>, start: nat, ghost end: nat) returns (code: Code, p: nat, result: nat)
    requires Spelled(buf, start, end)
    ensures start <= p <= end && code != WrdeSyntax
    ensures Matches(Digits(0, buf[start..end]), code, result, buf[p..end])
  {
    result, p := 0, start;
    while buf[p] != NUL && IsDigit(buf[p])
      invariant start <= p <= end
      invariant Digits(result, buf[p..end]) == Digits(0, buf[start..end])
      decreases end - p
    {
      assert p < end;
      assert buf[p..end][1..] == buf[p + 1..end];
      if result * 10 + DigitOf(buf[p]) > LONG_MAX {
        return Undef, p, result;
      }
      result := result * 10 + DigitOf(buf[p]);
      p := p + 1;
    }
    code := Fine;
    assert p < end ==> buf[p..end][0] == buf[p] && buf[p] == buf[start..end][p - start];
  }

  lemma UptoStep(a: seq<char>, start: nat, p: nat, end: nat)
    requires start <= p < end <= |a| && a[p] != ')'
    ensures a[start..p] + Upto(a[p..end]) == a[start..p + 1] + Upto(a[p + 1..end])
  {
    assert a[p..end][1..] == a[p + 1..end];
    Associative(a[start..p], [a[p]], Upto(a[p + 1..end]));
    assert a[start..p] + [a[p]] == a[start..p + 1];
  }

  /** The scan for the closing parenthesis; it may run into the terminator. */
  method FindClose(buf: array<char>, start: nat, ghost end: nat) returns (p: nat)
    requires Spelled(buf, start, end)
    ensures start <= p <= end && (buf[p] == ')' || p == end)
    ensures Upto(buf[start..end]) == buf[start..p]
  {
    p := start;
    while buf[p] != NUL && buf[p] != ')'
      invariant start <= p <= end
      invariant Upto(buf[start..end]) == buf[start..p] + Upto(buf[p..end])
      decreases end - p
    {
      UptoStep(buf[..], start, p, end);
      p := p + 1;
    }
    assert p < end ==> buf[p..end][0] == buf[p];
  }

  /** At an opening parenthesis: the closing one is overwritten with a NUL. */
  method EvalParen(buf: array<char>, digit: nat, ghost end: nat) returns (code: Code, pos: nat, result: int)
    requires Spelled(buf, digit, end) && buf[digit] == '('
    modifies buf
    ensures digit < pos <= end
    ensures Matches(ParenVal(old(buf[digit..end])), code, result, buf[pos..end])
    ensures forall i :: 0 <= i < digit || end <= i < buf.Length ==> buf[i] == old(buf[i])
    ensures code == Fine ==> forall i :: pos <= i < buf.Length ==> buf[i] == old(buf[i])
    decreases end - digit, 0
  {
    result := 0;
    ghost var d := buf[digit..end];
    assert d[1..] == buf[digit + 1..end];
    pos := FindClose(buf, digit + 1, end);
    if buf[pos] == NUL {
      return WrdeSyntax, pos, 0;
    }
    ghost var rest := buf[pos + 1..end];
    assert rest == d[pos - digit + 1..];
    ghost var inner := buf[digit + 1..pos];
    buf[pos] := NUL;
    assert buf[digit + 1..pos] == inner;
    ghost var unread;
    code, unread, result := EvalExpression(buf, digit + 1, pos);
    pos := pos + 1;
    assert buf[pos..end] == rest;
  }

  method EvalNumber(buf: array<char>, digit: nat, ghost end: nat) returns (code: Code, pos: nat, result: int)
    requires Spelled(buf, digit, end)
    ensures digit <= pos <= end && (code == Fine ==> digit < pos)
    ensures Matches(NumberVal(buf[digit..end]), code, result, buf[pos..end])
  {
    ghost var d := buf[digit..end];
    assert digit < end ==> d[0] == buf[digit] && d[1..] == buf[digit + 1..end];
    var sgn, start := 1, digit;
    if buf[digit] == '+' {
      start := digit + 1;
    } else if buf[digit] == '-' {
      start := digit + 1;
      sgn := -1;
    } else if !IsDigit(buf[digit]) {
      return WrdeSyntax, digit, 0;
    }
    code, pos, result := ReadDigits(buf, start, end);
    result := result * sgn;
  }

  /** eval_expr_val. */
  method EvalExprVal(buf: array<char>, start: nat, ghost end: nat) returns (code: Code, pos: nat, result: int)
    requires Spelled(buf, start, end)
    modifies buf
    ensures start <= pos <= end
    ensures Matches(EvalVal(old(buf[start..end])), code, result, buf[pos..end])
    ensures forall i :: 0 <= i < start || end <= i < buf.Length ==> buf[i] == old(buf[i])
    ensures code == Fine ==> start < pos && forall i :: pos <= i < buf.Length ==> buf[i] == old(buf[i])
    decreases end - start, 1
  {
    var digit := SkipWhite(buf, start, end);
    assert digit < end ==> buf[digit..end][0] == buf[digit];
    if buf[digit] == '(' {
      code, pos, result := EvalParen(buf, digit, end);
    } else {
      code, pos, result := EvalNumber(buf, digit, end);
    }
  }

  /** One turn of the loop of eval_expr_multdiv; `more` unless it breaks out. */
  method MulTurn(buf: array<char>, start: nat, acc: int, ghost end: nat)
    returns (code: Code, more: bool, pos: nat, result: int)
    requires Spelled(buf, start, end) && start < end
    modifies buf
    ensures start <= pos <= end && (more ==> code == Fine && start < pos)
    ensures var r := MulLoop(acc, old(buf[start..end]));
            if more then r == MulLoop(result, buf[pos..end]) else Matches(r, code, result, buf[pos..end])
    ensures forall i :: 0 <= i < start || end <= i < buf.Length ==> buf[i] == old(buf[i])
    ensures code == Fine ==> forall i :: pos <= i < buf.Length ==> buf[i] == old(buf[i])
    decreases end - start, 1
  {
    pos := SkipWhite(buf, start, end);
    ghost var d := buf[pos..end];
    assert pos < end ==> d[0] == buf[pos] && d[1..] == buf[pos + 1..end];
    var op := buf[pos];
    if op != '*' && op != '/' {
      return Fine, false, pos, acc;
    }
    var arg;
    code, pos, arg := EvalExprVal(buf, pos + 1, end);
    if code != Fine {
      return code, false, pos, acc;
    }
    var v := Apply(op, acc, arg);
    if v == None {
      return Undef, false, pos, acc;
    }
    return Fine, true, pos, v.value;
  }

  method EvalExprMultdiv(buf: array<char>, start: nat, ghost end: nat) returns (code: Code, pos: nat, result: int)
    requires Spelled(buf, start, end)
    modifies buf
    ensures start <= pos <= end
    ensures Matches(EvalMultdiv(old(buf[start..end])), code, result, buf[pos..end])
    ensures forall i :: 0 <= i < start || end <= i < buf.Length ==> buf[i] == old(buf[i])
    ensures code == Fine ==> start < pos && forall i :: pos <= i < buf.Length ==> buf[i] == old(buf[i])
    decreases end - start, 2
  {
    ghost var goal := EvalMultdiv(buf[start..end]);
    code, pos, result := EvalExprVal(buf, start, end);
    var more := code == Fine;
    while more && buf[pos] != NUL
      invariant start <= pos <= end && (more ==> code == Fine && Spelled(buf, pos, end))
      invariant code == Fine ==> start < pos && forall i :: pos <= i < buf.Length ==> buf[i] == old(buf[i])
      invariant if more then goal == MulLoop(result, buf[pos..end]) else Matches(goal, code, result, buf[pos..end])
      invariant forall i :: 0 <= i < start || end <= i < buf.Length ==> buf[i] == old(buf[i])
      decreases more, end - pos
    {
      code, more, pos, result := MulTurn(buf, pos, result, end);
    }
  }

  /** One turn of the loop of eval_expr. */
  method AddTurn(buf: array<char>, start: nat, acc: int, ghost end: nat)
    returns (code: Code, more: bool, pos: nat, result: int)
    requires Spelled(buf, start, end) && start < end
    modifies buf
    ensures start <= pos <= end && (more ==> code == Fine && start < pos)
    ensures var r := AddLoop(acc, old(buf[start..end]));
            if more then r == AddLoop(result, buf[pos..end]) else Matches(r, code, result, buf[pos..end])
    ensures forall i :: 0 <= i < start || end <= i < buf.Length ==> buf[i] == old(buf[i])
    ensures code == Fine ==> forall i :: pos <= i < buf.Length ==> buf[i] == old(buf[i])
    decreases end - start, 3
  {
    pos := SkipWhite(buf, start, end);
    ghost var d := buf[pos..end];
    assert pos < end ==> d[0] == buf[pos] && d[1..] == buf[pos + 1..end];
    var op := buf[pos];
    if op != '+' && op != '-' {
      return Fine, false, pos, acc;
    }
    var arg;
    code, pos, arg := EvalExprMultdiv(buf, pos + 1, end);
    if code != Fine {
      return code, false, pos, acc;
    }
    var v := Apply(op, acc, arg);
    if v == None {
      return Undef, false, pos, acc;
    }
    return Fine, true, pos, v.value;
  }

  /** eval_expr. */
  method EvalExpression(buf: array<char>, start: nat, ghost end: nat) returns (code: Code, ghost pos: nat, result: int)
    requires Spelled(buf, start, end)
    modifies buf
    ensures start <= pos <= end
    ensures Matches(EvalExpr(old(buf[start..end])), code, result, buf[pos..end])
    ensures forall i :: 0 <= i < start || end <= i < buf.Length ==> buf[i] == old(buf[i])
    decreases end - start, 4
  {
    ghost var goal := EvalExpr(buf[start..end]);
    var expr;
    code, expr, result := EvalExprMultdiv(buf, start, end);
    var more := code == Fine;
    while more && buf[expr] != NUL
      invariant start <= expr <= end && (more ==> code == Fine && Spelled(buf, expr, end))
      invariant if more then goal == AddLoop(result, buf[expr..end]) else Matches(goal, code, result, buf[expr..end])
      invariant forall i :: 0 <= i < start || end <= i < buf.Length ==> buf[i] == old(buf[i])
      decreases more, end - expr
    {
      code, more, expr, result := AddTurn(buf, expr, result, end);
    }
    pos := expr;
  }
}
