/** What a text means that the evaluator gives a value: the converse of ArithExpr. */
module ArithReading {
  import opened CStrings
  import opened Seqs
  import opened Arith

  /** A number may lack its digits behind a sign; a group may hold text behind its sum. */
  datatype Operand =
    | Number(ws: string, sign: string, digits: string)
    | Group(ws: string, inner: Reading, ignored: string)
  datatype Product = One(x: Operand) | Times(left: Product, ws: string, op: char, x: Operand)
  datatype Reading = Alone(p: Product) | Plus(left: Reading, ws: string, op: char, p: Product)

  predicate AllSpace(ws: string) {
    forall i :: 0 <= i < |ws| ==> IsSpace(ws[i])
  }

  predicate ValidOperand(x: Operand) {
    match x
    case Number(ws, sign, digits) =>
      && AllSpace(ws) && AllDigits(digits)
      && (if digits == "" then sign == "+" || sign == "-" else sign == "" || sign == "+" || sign == "-")
    case Group(ws, inner, ignored) =>
      AllSpace(ws) && ValidReading(inner) && ')' !in ReadingText(inner) + ignored
  }

  predicate ValidProduct(p: Product) {
    match p
    case One(x) => ValidOperand(x)
    case Times(left, ws, op, x) => ValidProduct(left) && AllSpace(ws) && (op == '*' || op == '/') && ValidOperand(x)
  }

  predicate ValidReading(e: Reading) {
    match e
    case Alone(p) => ValidProduct(p)
    case Plus(left, ws, op, p) => ValidReading(left) && AllSpace(ws) && (op == '+' || op == '-') && ValidProduct(p)
  }

  function OperandText(x: Operand): string {
    match x
    case Number(ws, sign, digits) => ws + sign + digits
    case Group(ws, inner, ignored) => ws + "(" + ReadingText(inner) + ignored + ")"
  }

  function ProductText(p: Product): string {
    match p
    case One(x) => OperandText(x)
    case Times(left, ws, op, x) => ProductText(left) + ws + [op] + OperandText(x)
  }

  function ReadingText(e: Reading): string {
    match e
    case Alone(p) => ProductText(p)
    case Plus(left, ws, op, p) => ReadingText(left) + ws + [op] + ProductText(p)
  }

  function OperandValue(x: Operand): Option<int> {
    match x
    case Number(_, sign, digits) =>
      if !AllDigits(digits) then None
      else Some(if sign == "-" then 0 - Horner(0, digits) else Horner(0, digits))
    case Group(_, inner, _) => ReadingValue(inner)
  }

  function Combined(op: char, a: Option<int>, b: Option<int>): Option<int> {
    if a.Some? && b.Some? then Apply(op, a.value, b.value) else None
  }

  function ProductValue(p: Product): Option<int> {
    match p
    case One(x) => OperandValue(x)
    case Times(left, _, op, x) => Combined(op, ProductValue(left), OperandValue(x))
  }

  function ReadingValue(e: Reading): Option<int> {
    match e
    case Alone(p) => ProductValue(p)
    case Plus(left, _, op, p) => Combined(op, ReadingValue(left), ProductValue(p))
  }

  // ----- reading the text back from the evaluator's answer -----

  lemma {:induction false} SpaceSplit(t: string) returns (ws: string)
    ensures AllSpace(ws) && t == ws + SkipSpace(t)
    decreases t
  {
    ws := "";
    if t != "" && IsSpace(t[0]) {
      ws := SpaceSplit(t[1..]);
      ws := [t[0]] + ws;
      assert t == [t[0]] + t[1..];
    } else {
      assert "" + t == t;
    }
  }

  lemma {:induction false} DigitsSplit(acc: nat, t: string) returns (ds: string)
    requires Digits(acc, t).Value?
    ensures AllDigits(ds) && t == ds + Digits(acc, t).rest && Horner(acc, ds) == Digits(acc, t).v
    ensures t != "" && IsDigit(t[0]) ==> ds != ""
    decreases t
  {
    if t != "" && IsDigit(t[0]) {
      var more := DigitsSplit(acc * 10 + DigitOf(t[0]), t[1..]);
      ds := [t[0]] + more;
      OneDigit(acc, t[0], more, Digits(acc, t).rest);
      assert t == [t[0]] + t[1..];
    } else {
      ds := "";
      assert "" + t == t;
    }
  }

  lemma OneDigit(acc: nat, c: char, more: string, rest: string)
    requires IsDigit(c) && AllDigits(more)
    ensures AllDigits([c] + more) && Horner(acc, [c] + more) == Horner(acc * 10 + DigitOf(c), more)
    ensures [c] + (more + rest) == [c] + more + rest
  {
    assert ([c] + more)[1..] == more;
  }

  lemma SignedReading(d: string) returns (digits: string)
    requires NumberVal(d).Value? && (d[0] == '+' || d[0] == '-')
    ensures AllDigits(digits) && d == [d[0]] + digits + NumberVal(d).rest
    ensures NumberVal(d).v == if d[0] == '-' then 0 - Horner(0, digits) else Horner(0, digits)
  {
    digits := DigitsSplit(0, d[1..]);
    assert d == [d[0]] + d[1..];
    Associative([d[0]], digits, NumberVal(d).rest);
  }

  lemma NumberReading(d: string) returns (sign: string, digits: string)
    requires NumberVal(d).Value?
    ensures ValidOperand(Number("", sign, digits)) && d == sign + digits + NumberVal(d).rest
    ensures OperandValue(Number("", sign, digits)) == Some(NumberVal(d).v)
  {
    if d[0] == '+' || d[0] == '-' {
      sign := [d[0]];
      digits := SignedReading(d);
    } else {
      sign := "";
      digits := DigitsSplit(0, d);
      assert sign + digits == digits;
    }
  }

  lemma GroupText(ws: string, inner: string, sum: string, ignored: string, rest: string)
    requires inner == sum + ignored
    ensures ws + ("(" + inner + ")" + rest) == ws + "(" + sum + ignored + ")" + rest
  {
  }

  lemma UptoSplit(d: string)
    requires d != "" && d[0] == '(' && 1 + |Upto(d[1..])| < |d|
    ensures var inner := Upto(d[1..]);
            d == "(" + inner + ")" + d[|inner| + 2..] && ')' !in inner
  {
    UptoFacts(d[1..]);
    var inner := Upto(d[1..]);
    assert d[1..][|inner|] == d[|inner| + 1];
    assert d[1..|inner| + 1] == d[1..][..|inner|];
  }

  lemma {:induction false} ReadOperand(t: string) returns (x: Operand)
    requires EvalVal(t).Value?
    ensures ValidOperand(x) && t == OperandText(x) + EvalVal(t).rest && OperandValue(x) == Some(EvalVal(t).v)
    decreases |t|, 0
  {
    var ws := SpaceSplit(t);
    var d := SkipSpace(t);
    if d != "" && d[0] == '(' {
      var inner := Upto(d[1..]);
      UptoSplit(d);
      var e, gap := ReadSum(inner);
      var ignored := gap + EvalExpr(inner).rest;
      Associative(ReadingText(e), gap, EvalExpr(inner).rest);
      x := Group(ws, e, ignored);
      GroupText(ws, inner, ReadingText(e), ignored, d[|inner| + 2..]);
    } else {
      var sign, digits := NumberReading(d);
      x := Number(ws, sign, digits);
      ThreeParts(ws, sign, digits, NumberVal(d).rest);
    }
  }

  lemma ThreeParts(a: string, b: string, c: string, d: string)
    ensures a + (b + c + d) == a + b + c + d
  {
  }

  lemma Operation(left: string, ws: string, op: char, x: string, rest: string)
    ensures left + (ws + ([op] + (x + rest))) == left + ws + [op] + x + rest
  {
  }

  predicate NextIsNot(t: string, a: char, b: char) {
    t != "" ==> !IsSpace(t[0]) && t[0] != a && t[0] != b
  }

  /** The product loop, once the operands in p are read. */
  lemma {:induction false} ReadMuls(p: Product, acc: int, t: string) returns (q: Product, ws: string)
    requires ValidProduct(p) && ProductValue(p) == Some(acc) && MulLoop(acc, t).Value?
    ensures var r := MulLoop(acc, t);
            ValidProduct(q) && AllSpace(ws) && ProductValue(q) == Some(r.v) && NextIsNot(r.rest, '*', '/')
            && ProductText(p) + t == ProductText(q) + ws + r.rest
    decreases |t|, 1
  {
    var d := SkipSpace(t);
    ws := SpaceSplit(t);
    if t != "" && d != "" && (d[0] == '*' || d[0] == '/') {
      assert d == [d[0]] + d[1..];
      var x := ReadOperand(d[1..]);
      var rest := EvalVal(d[1..]).rest;
      var next := Times(p, ws, d[0], x);
      Operation(ProductText(p), ws, d[0], OperandText(x), rest);
      q, ws := ReadMuls(next, ProductValue(next).value, rest);
    } else {
      q := p;
      Associative(ProductText(p), ws, d);
    }
  }

  lemma {:induction false} ReadProduct(t: string) returns (q: Product, ws: string)
    requires EvalMultdiv(t).Value?
    ensures var r := EvalMultdiv(t);
            ValidProduct(q) && AllSpace(ws) && ProductValue(q) == Some(r.v) && NextIsNot(r.rest, '*', '/')
            && t == ProductText(q) + ws + r.rest
    decreases |t|, 2
  {
    var x := ReadOperand(t);
    var rest := EvalVal(t).rest;
    q, ws := ReadMuls(One(x), EvalVal(t).v, rest);
  }

  /** The sum loop, once the products in e are read. */
  lemma {:induction false} ReadAdds(e: Reading, acc: int, ws0: string, t: string) returns (s: Reading, ws: string)
    requires ValidReading(e) && ReadingValue(e) == Some(acc) && AllSpace(ws0)
    requires AddLoop(acc, t).Value? && NextIsNot(t, '*', '/')
    ensures var r := AddLoop(acc, t);
            ValidReading(s) && AllSpace(ws) && ReadingValue(s) == Some(r.v)
            && NextIsNot(r.rest, '+', '-') && NextIsNot(r.rest, '*', '/')
            && ReadingText(e) + ws0 + t == ReadingText(s) + ws + r.rest
    decreases |t|, 3
  {
    if t != "" && (t[0] == '+' || t[0] == '-') {
      assert t == [t[0]] + t[1..];
      var p, gap := ReadProduct(t[1..]);
      var rest := EvalMultdiv(t[1..]).rest;
      var next := Plus(e, ws0, t[0], p);
      Associative(ProductText(p), gap, rest);
      Operation(ReadingText(e), ws0, t[0], ProductText(p), gap + rest);
      Associative(ReadingText(e), ws0, t);
      Associative(ReadingText(next), gap, rest);
      s, ws := ReadAdds(next, ReadingValue(next).value, gap, rest);
    } else {
      s, ws := e, ws0;
    }
  }

  /**
   * Whatever text is given a value is read as a sum of products, left to right, truncating: a
   * sign without digits counts as zero, and behind the sum (in each parenthesis, and at the end)
   * comes text that cannot continue it and is ignored.
   */
  lemma {:induction false} ReadSum(t: string) returns (e: Reading, ws: string)
    requires EvalExpr(t).Value?
    ensures var r := EvalExpr(t);
            ValidReading(e) && AllSpace(ws) && ReadingValue(e) == Some(r.v)
            && NextIsNot(r.rest, '+', '-') && NextIsNot(r.rest, '*', '/')
            && t == ReadingText(e) + ws + r.rest
    decreases |t|, 4
  {
    var p, gap := ReadProduct(t);
    e, ws := ReadAdds(Alone(p), EvalMultdiv(t).v, gap, EvalMultdiv(t).rest);
  }

  /** So a sign before a parenthesis is read as zero, and the parenthesis ignored. */
  lemma SignedGroup(sign: char, x: string)
    requires sign == '+' || sign == '-'
    ensures EvalExpr([sign] + ("(" + x)) == Value(0, "(" + x)
  {
    var t, rest := [sign] + ("(" + x), "(" + x;
    assert t[0] == sign && t[1..] == rest && rest[0] == '(';
    assert SkipSpace(t) == t && SkipSpace(rest) == rest;
    assert Digits(0, rest) == Value(0, rest);
    assert EvalVal(t) == Value(0, rest);
    assert MulLoop(0, rest) == Value(0, rest) && AddLoop(0, rest) == Value(0, rest);
  }

  function Absolute(x: int): nat {
    if x < 0 then 0 - x else x
  }

  lemma Euclid(a: int, b: int)
    requires b != 0
    ensures var r := a - (a / b) * b; 0 <= r < Absolute(b)
  {
    assert a == (a / b) * b + a % b;
  }

  lemma Opposite(q: int, b: int)
    ensures (0 - q) * b == 0 - q * b
  {
  }

  lemma QuotientTruncates(a: int, b: int)
    requires b != 0
    ensures var r := a - Quotient(a, b) * b;
            Absolute(r) < Absolute(b) && (r > 0 ==> a > 0) && (r < 0 ==> a < 0)
  {
    if a > 0 {
      Euclid(a, b);
    } else if a < 0 {
      Euclid(0 - a, b);
      Opposite((0 - a) / b, b);
      assert Quotient(a, b) == 0 - (0 - a) / b;
    } else {
      assert 0 / b == 0;
    }
  }

  /** Division truncates toward zero: what is left over is smaller than the divisor and has the sign
      of the dividend. There is no result for a zero divisor or beyond a long. */
  lemma DivisionTruncates(a: int, b: int) returns (q: int, r: int)
    ensures b == 0 ==> Apply('/', a, b) == None
    ensures b != 0 ==> a == q * b + r && Absolute(r) < Absolute(b) && (r > 0 ==> a > 0) && (r < 0 ==> a < 0)
    ensures b != 0 ==> Apply('/', a, b) == if LONG_MIN <= q <= LONG_MAX then Some(q) else None
  {
    q, r := 0, 0;
    if b != 0 {
      QuotientTruncates(a, b);
      q := Quotient(a, b);
      r := a - q * b;
    }
  }

  /** The other operations are exact, or have no result beyond a long. */
  lemma OperationsAreExact(a: int, b: int)
    ensures Apply('+', a, b) == if -0x8000_0000_0000_0000 <= a + b < 0x8000_0000_0000_0000 then Some(a + b) else None
    ensures Apply('-', a, b) == if -0x8000_0000_0000_0000 <= a - b < 0x8000_0000_0000_0000 then Some(a - b) else None
    ensures Apply('*', a, b) == if -0x8000_0000_0000_0000 <= a * b < 0x8000_0000_0000_0000 then Some(a * b) else None
  {
  }

  // ----- texts that are given no value -----

  /** Every number fits a long and every operation has a result. */
  predicate OperandComputes(x: Operand) {
    match x
    case Number(_, _, digits) => AllDigits(digits) && Horner(0, digits) <= LONG_MAX
    case Group(_, inner, _) => Computes(inner)
  }

  predicate ProductComputes(p: Product) {
    match p
    case One(x) => OperandComputes(x)
    case Times(left, _, _, x) => ProductComputes(left) && OperandComputes(x) && ProductValue(p).Some?
  }

  predicate Computes(e: Reading) {
    match e
    case Alone(p) => ProductComputes(p)
    case Plus(left, _, _, p) => Computes(left) && ProductComputes(p) && ReadingValue(e).Some?
  }

  predicate IsGroup(x: string, inner: string, rest: string) {
    x == "(" + inner + ")" + rest && ')' !in inner
  }

  /** Behind white space no operand starts here: the text ends, starts with another character, or
      with a parenthesis that is not closed or holds a broken text. */
  ghost predicate NoOperand(x: string)
    decreases |x|, 0
  {
    || x == ""
    || (!IsSpace(x[0]) && !IsDigit(x[0]) && x[0] != '+' && x[0] != '-' && x[0] != '(')
    || (x[0] == '(' && ')' !in x)
    || exists inner, rest :: IsGroup(x, inner, rest) && Broken(inner)
  }

  ghost predicate BadOperand(t: string)
    decreases |t|, 1
  {
    exists ws, x :: t == ws + x && AllSpace(ws) && NoOperand(x)
  }

  /** Whatever an operand is read for has a value so far. */
  predicate Ready(e: Reading, op: char) {
    match e
    case Alone(p) => ProductValue(p).Some? && (op == '*' || op == '/' || op == '+' || op == '-')
    case Plus(left, _, _, p) =>
      && ReadingValue(left).Some? && ProductValue(p).Some?
      && (op == '*' || op == '/' || ((op == '+' || op == '-') && ReadingValue(e).Some?))
  }

  predicate Behind(t: string, e: Reading, ws: string, op: char, d: string) {
    ValidReading(e) && AllSpace(ws) && t == ReadingText(e) + ws + [op] + d && Ready(e, op)
  }

  /** An operand is missing at the start, or behind an operator that follows a sum with a value. */
  ghost predicate Broken(t: string)
    decreases |t|, 2
  {
    BadOperand(t) || exists e, ws, op, d :: Behind(t, e, ws, op, d) && BadOperand(d)
  }

  /** The text starts with a sum that cannot be computed. */
  predicate Starts(t: string, e: Reading, rest: string) {
    ValidReading(e) && t == ReadingText(e) + rest && !Computes(e)
  }

  lemma {:induction false} DigitsFail(acc: nat, t: string) returns (ds: string, rest: string)
    requires Digits(acc, t).Undefined?
    ensures ds != "" && AllDigits(ds) && t == ds + rest && Horner(acc, ds) > LONG_MAX
    decreases t
  {
    var next := acc * 10 + DigitOf(t[0]);
    assert t == [t[0]] + t[1..];
    if next > LONG_MAX {
      ds, rest := [t[0]], t[1..];
      assert [t[0]][1..] == [];
    } else {
      var more;
      more, rest := DigitsFail(next, t[1..]);
      ds := [t[0]] + more;
      OneDigit(acc, t[0], more, rest);
    }
  }

  lemma {:induction false} DigitsAreRead(acc: nat, t: string)
    ensures !Digits(acc, t).Syntax?
    decreases t
  {
    if t != "" && IsDigit(t[0]) { DigitsAreRead(acc * 10 + DigitOf(t[0]), t[1..]); }
  }

  lemma NumberFails(ws: string, d: string) returns (x: Operand, rest: string)
    requires AllSpace(ws) && !NumberVal(d).Value? && (d != "" ==> !IsSpace(d[0]) && d[0] != '(')
    ensures NumberVal(d).Syntax? ==> NoOperand(d)
    ensures NumberVal(d).Undefined? ==> ValidOperand(x) && ws + d == OperandText(x) + rest && !OperandComputes(x)
  {
    x, rest := Number(ws, "+", ""), "";
    if d != "" {
      DigitsAreRead(0, d);
      DigitsAreRead(0, d[1..]);
    }
    if NumberVal(d).Undefined? {
      var sign := if d[0] == '+' || d[0] == '-' then [d[0]] else "";
      var digits;
      digits, rest := DigitsFail(0, d[|sign|..]);
      x := Number(ws, sign, digits);
      assert d == sign + digits + rest;
      ThreeParts(ws, sign, digits, rest);
    }
  }

  lemma {:induction false} OperandFails(t: string) returns (x: Operand, rest: string)
    requires !EvalVal(t).Value?
    ensures EvalVal(t).Syntax? ==> BadOperand(t)
    ensures EvalVal(t).Undefined? ==> ValidOperand(x) && t == OperandText(x) + rest && !OperandComputes(x)
    decreases |t|, 1
  {
    var ws := SpaceSplit(t);
    var d := SkipSpace(t);
    if d != "" && d[0] == '(' {
      x, rest := GroupFails(ws, d);
    } else {
      x, rest := NumberFails(ws, d);
    }
  }

  lemma {:induction false} GroupFails(ws: string, d: string) returns (x: Operand, rest: string)
    requires AllSpace(ws) && d != "" && d[0] == '(' && !ParenVal(d).Value?
    ensures ParenVal(d).Syntax? ==> NoOperand(d)
    ensures ParenVal(d).Undefined? ==> ValidOperand(x) && ws + d == OperandText(x) + rest && !OperandComputes(x)
    decreases |d|, 0
  {
    var inner := Upto(d[1..]);
    x, rest := Number(ws, "+", ""), "";
    if 1 + |inner| == |d| {
      UptoFacts(d[1..]);
      assert d == [d[0]] + d[1..] && inner == d[1..];
    } else {
      UptoSplit(d);
      rest := d[|inner| + 2..];
      var e, ignored := SumFails(inner);
      if EvalExpr(inner).Syntax? {
        assert IsGroup(d, inner, rest);
      } else {
        x := Group(ws, e, ignored);
        GroupText(ws, inner, ReadingText(e), ignored, rest);
      }
    }
  }

  /** The product loop fails: an operand is missing, or the product so far cannot be computed. */
  lemma {:induction false} MulsFail(p: Product, acc: int, t: string)
      returns (q: Product, ws: string, op: char, d: string)
    requires ValidProduct(p) && ProductValue(p) == Some(acc) && !MulLoop(acc, t).Value?
    ensures ValidProduct(q)
    ensures MulLoop(acc, t).Syntax? ==>
              ProductValue(q).Some? && AllSpace(ws) && (op == '*' || op == '/') && BadOperand(d)
              && ProductText(p) + t == ProductText(q) + ws + [op] + d
    ensures MulLoop(acc, t).Undefined? ==> !ProductComputes(q) && ProductText(p) + t == ProductText(q) + d
    decreases |t|, 2
  {
    ws := SpaceSplit(t);
    var x := SkipSpace(t);
    op, d, q := x[0], x[1..], p;
    assert x == [op] + d;
    if EvalVal(d).Value? {
      var y := ReadOperand(d);
      var rest := EvalVal(d).rest;
      var next := Times(p, ws, op, y);
      Operation(ProductText(p), ws, op, OperandText(y), rest);
      if ProductValue(next).Some? {
        q, ws, op, d := MulsFail(next, ProductValue(next).value, rest);
      } else {
        q, d := next, rest;
      }
    } else {
      var y, rest := OperandFails(d);
      Grouped(ProductText(p), ws, op, d);
      if EvalVal(d).Undefined? {
        Operation(ProductText(p), ws, op, OperandText(y), rest);
        q, d := Times(p, ws, op, y), rest;
      }
    }
  }

  lemma Grouped(left: string, ws: string, op: char, d: string)
    ensures left + (ws + ([op] + d)) == left + ws + [op] + d
  {
  }

  lemma {:induction false} ProductFails(t: string)
      returns (first: bool, q: Product, ws: string, op: char, d: string)
    requires !EvalMultdiv(t).Value?
    ensures ValidProduct(q)
    ensures EvalMultdiv(t).Syntax? ==>
              if first then BadOperand(t)
              else ProductValue(q).Some? && AllSpace(ws) && (op == '*' || op == '/') && BadOperand(d)
                   && t == ProductText(q) + ws + [op] + d
    ensures EvalMultdiv(t).Undefined? ==> !ProductComputes(q) && t == ProductText(q) + d
    decreases |t|, 3
  {
    first, q, ws, op, d := false, One(Number("", "+", "")), "", '*', "";
    if EvalVal(t).Value? {
      var x := ReadOperand(t);
      q, ws, op, d := MulsFail(One(x), EvalVal(t).v, EvalVal(t).rest);
    } else {
      var x, rest := OperandFails(t);
      if EvalVal(t).Syntax? {
        first := true;
      } else {
        q, d := One(x), rest;
      }
    }
  }

  /** The sum loop fails likewise. */
  lemma {:induction false} AddsFail(e: Reading, acc: int, ws0: string, t: string)
      returns (s: Reading, ws: string, op: char, d: string)
    requires ValidReading(e) && ReadingValue(e) == Some(acc) && AllSpace(ws0) && Ready(e, '+')
    requires !AddLoop(acc, t).Value? && NextIsNot(t, '*', '/')
    ensures AddLoop(acc, t).Syntax? ==> BadOperand(d) && Behind(ReadingText(e) + ws0 + t, s, ws, op, d)
    ensures AddLoop(acc, t).Undefined? ==> Starts(ReadingText(e) + ws0 + t, s, d)
    decreases |t|, 4
  {
    var x := t[1..];
    s, ws, op, d := e, ws0, t[0], x;
    assert t == [op] + x;
    Grouped(ReadingText(e), ws0, op, x);
    Associative(ReadingText(e), ws0, t);
    if EvalMultdiv(x).Value? {
      var p, gap := ReadProduct(x);
      var rest := EvalMultdiv(x).rest;
      var next := Plus(e, ws0, op, p);
      Associative(ProductText(p), gap, rest);
      Operation(ReadingText(e), ws0, op, ProductText(p), gap + rest);
      Associative(ReadingText(next), gap, rest);
      if ReadingValue(next).Some? {
        s, ws, op, d := AddsFail(next, ReadingValue(next).value, gap, rest);
      } else {
        s, d := next, gap + rest;
      }
    } else {
      var first, q, gap, times, y := ProductFails(x);
      if EvalMultdiv(x).Undefined? {
        Operation(ReadingText(e), ws0, op, ProductText(q), y);
        s, d := Plus(e, ws0, op, q), y;
      } else if !first {
        var next := Plus(e, ws0, op, q);
        Grouped(ProductText(q), gap, times, y);
        Operation(ReadingText(e), ws0, op, ProductText(q), gap + ([times] + y));
        Grouped(ReadingText(next), gap, times, y);
        s, ws, op, d := next, gap, times, y;
      }
    }
  }

  /** A text without a value: it is refused if an operand is missing where one is read, and undefined
      if the sum it starts with cannot be computed. */
  lemma {:induction false} SumFails(t: string) returns (e: Reading, rest: string)
    requires !EvalExpr(t).Value?
    ensures EvalExpr(t).Syntax? ==> Broken(t)
    ensures EvalExpr(t).Undefined? ==> Starts(t, e, rest)
    decreases |t|, 5
  {
    var ws, op := "", '+';
    if EvalMultdiv(t).Value? {
      var p, gap := ReadProduct(t);
      e, ws, op, rest := AddsFail(Alone(p), EvalMultdiv(t).v, gap, EvalMultdiv(t).rest);
    } else {
      var first, q, gap, times, y := ProductFails(t);
      e, rest := Alone(q), y;
      if EvalMultdiv(t).Syntax? && !first { assert Behind(t, e, gap, times, y); }
    }
  }
}
