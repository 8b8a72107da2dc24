/** C strings as Dafny strings: the bytes before the terminating NUL. */
module CStrings {

  datatype Option<+T> = None | Some(value: T)

  const NUL: char := '\0'

  /** Byte i of a C string: its terminator once the text is used up. */
  function At(s: string, i: nat): char {
    if i < |s| then s[i] else NUL
  }

  predicate NulFree(s: string) {
    forall i :: 0 <= i < |s| ==> s[i] != NUL
  }

  predicate AllIn(s: string, chars: string) {
    forall i :: 0 <= i < |s| ==> s[i] in chars
  }

  predicate NoneIn(s: string, chars: string) {
    forall i :: 0 <= i < |s| ==> s[i] !in chars
  }

  /** The text of a word in progress; a NULL word acts like an empty one. */
  function Text(word: Option<string>): string {
    match word
    case None => ""
    case Some(s) => s
  }

  /** strspn: length of the longest prefix made of accepted characters only. */
  function Spn(s: string, accept: string): (n: nat)
    ensures n <= |s| && AllIn(s[..n], accept)
    ensures n < |s| ==> s[n] !in accept
  {
    if s == [] || s[0] !in accept then 0 else
    var n := 1 + Spn(s[1..], accept);
    assert forall i :: 0 < i < n ==> s[i] == s[1..][..n - 1][i - 1];
    n
  }

  /** strcspn: length of the longest prefix without rejected characters. */
  function Cspn(s: string, reject: string): (n: nat)
    ensures n <= |s| && NoneIn(s[..n], reject)
    ensures n < |s| ==> s[n] in reject
  {
    if s == [] || s[0] in reject then 0 else
    var n := 1 + Cspn(s[1..], reject);
    assert forall i :: 0 < i < n ==> s[i] == s[1..][..n - 1][i - 1];
    n
  }

  lemma {:induction false} CspnIs(s: string, reject: string, n: nat)
    requires n <= |s| && (forall i :: 0 <= i < n ==> s[i] !in reject) && (n == |s| || s[n] in reject)
    ensures Cspn(s, reject) == n
    decreases n
  {
    if n > 0 { CspnIs(s[1..], reject, n - 1); }
  }

  /** Where strspn stops when it starts at index i. */
  function SpnEnd(s: string, i: nat, accept: string): (e: nat)
    requires i <= |s|
    ensures i <= e <= |s| && AllIn(s[i..e], accept)
    ensures e < |s| ==> s[e] !in accept
  {
    var n := Spn(s[i..], accept);
    assert s[i..i + n] == s[i..][..n];
    i + n
  }

  /** Where strcspn stops when it starts at index i. */
  function CspnEnd(s: string, i: nat, reject: string): (e: nat)
    requires i <= |s|
    ensures i <= e <= |s| && NoneIn(s[i..e], reject)
    ensures e < |s| ==> s[e] in reject
  {
    var n := Cspn(s[i..], reject);
    assert s[i..i + n] == s[i..][..n];
    i + n
  }

  /** isspace in the C locale. */
  predicate IsSpace(c: char) {
    c == ' ' || '\t' <= c <= '\r'
  }

  predicate IsDigit(c: char) {
    '0' <= c <= '9'
  }

  predicate AllDigits(s: string) {
    forall i :: 0 <= i < |s| ==> IsDigit(s[i])
  }

  function DigitOf(c: char): nat
    requires IsDigit(c)
  {
    c as nat - '0' as nat
  }

  function DigitChar(d: nat): (c: char)
    requires d < 10
    ensures IsDigit(c) && DigitOf(c) == d
  {
    ('0' as nat + d) as char
  }

  /** The number read by appending the digits ds to those already read. */
  function Horner(acc: nat, ds: string): nat
    requires AllDigits(ds)
    decreases ds
  {
    if ds == [] then acc else Horner(acc * 10 + DigitOf(ds[0]), ds[1..])
  }

  function Decimal(n: nat): (ds: string)
    ensures |ds| > 0 && AllDigits(ds)
  {
    if n < 10 then [DigitChar(n)] else Decimal(n / 10) + [DigitChar(n % 10)]
  }

  /** A number as "%d" prints it. */
  function IntText(v: int): (r: string)
    ensures NulFree(r) && r != ""
  {
    if v < 0 then "-" + Decimal(-v) else Decimal(v)
  }

  function Pow10(k: nat): nat {
    if k == 0 then 1 else 10 * Pow10(k - 1)
  }

  lemma {:induction false} HornerAppend(acc: nat, a: string, b: string)
    requires AllDigits(a) && AllDigits(b)
    ensures AllDigits(a + b) && Horner(acc, a + b) == Horner(Horner(acc, a), b)
    decreases a
  {
    if a == [] {
      assert a + b == b;
    } else {
      assert (a + b)[1..] == a[1..] + b;
      HornerAppend(acc * 10 + DigitOf(a[0]), a[1..], b);
    }
  }

  /** Reading a printed number gives the number back. */
  lemma {:induction false} HornerDecimal(n: nat)
    ensures Horner(0, Decimal(n)) == n
  {
    if n >= 10 {
      HornerDecimal(n / 10);
      HornerAppend(0, Decimal(n / 10), [DigitChar(n % 10)]);
    }
  }

  /** A number has at most k digits exactly when it is below 10 to the k. */
  lemma {:induction false} DecimalLength(n: nat, k: nat)
    requires k > 0
    ensures |Decimal(n)| <= k <==> n < Pow10(k)
    decreases k
  {
    if n < 10 {
      PowPositive(k - 1);
    } else if k == 1 {
    } else {
      DecimalLength(n / 10, k - 1);
    }
  }

  lemma {:induction false} PowPositive(k: nat)
    ensures Pow10(k) >= 1
  {
    if k > 0 { PowPositive(k - 1); }
  }

  lemma {:induction false} HornerGrows(acc: nat, ds: string)
    requires AllDigits(ds)
    ensures Horner(acc, ds) >= acc
    decreases ds
  {
    if ds != [] { HornerGrows(acc * 10 + DigitOf(ds[0]), ds[1..]); }
  }

  /** The pieces between the delimiters; a text without one is a single piece. */
  function Split(s: string, c: char): (r: seq<string>)
    ensures |r| > 0
    decreases s
  {
    var n := Cspn(s, [c]);
    if n == |s| then [s] else [s[..n]] + Split(s[n + 1..], c)
  }

  /** A text without the delimiter is the first piece, or the only one. */
  lemma {:induction false} SplitFirst(w: string, c: char, t: string)
    requires c !in w
    ensures Split(w + ([c] + t), c) == [w] + Split(t, c)
    ensures Split(w, c) == [w]
  {
    var s := w + ([c] + t);
    assert forall i :: 0 <= i < |w| ==> s[i] == w[i];
    CspnIs(s, [c], |w|);
    CspnIs(w, [c], |w|);
    assert s[..|w|] == w && s[|w| + 1..] == t;
  }

  function Concat(chunks: seq<string>): string {
    if chunks == [] then "" else chunks[0] + Concat(chunks[1..])
  }

  lemma {:induction false} ConcatSnoc(chunks: seq<string>, k: nat)
    requires k < |chunks|
    ensures Concat(chunks[..k + 1]) == Concat(chunks[..k]) + chunks[k]
    decreases k
  {
    if k == 0 {
      assert chunks[..1] == [chunks[0]];
    } else {
      ConcatSnoc(chunks[1..], k - 1);
      assert chunks[1..][..k] == chunks[..k + 1][1..];
      assert chunks[1..][..k - 1] == chunks[..k][1..];
    }
  }

  function Join(pieces: seq<string>, delimiter: string): string {
    if pieces == [] then ""
    else if |pieces| == 1 then pieces[0]
    else pieces[0] + delimiter + Join(pieces[1..], delimiter)
  }

  lemma {:induction false} JoinSnoc(words: seq<string>, w: string, delimiter: string)
    ensures Join(words + [w], delimiter) == if words == [] then w else Join(words, delimiter) + delimiter + w
    decreases words
  {
    if |words| >= 2 {
      assert (words + [w])[1..] == words[1..] + [w];
      JoinSnoc(words[1..], w, delimiter);
      RegroupJoin(words[0] + delimiter, Join(words[1..], delimiter), delimiter, w);
    } else if |words| == 1 {
      assert (words + [w])[1..] == [w];
    }
  }

  lemma RegroupJoin(a: string, b: string, c: string, d: string)
    ensures a + (b + c + d) == a + b + c + d
  {
  }

  /** Splitting loses nothing and leaves no delimiter in any piece. */
  lemma {:induction false} SplitJoin(s: string, c: char)
    ensures Join(Split(s, c), [c]) == s
    ensures forall i :: 0 <= i < |Split(s, c)| ==> c !in Split(s, c)[i]
    decreases s
  {
    var n := Cspn(s, [c]);
    assert forall i :: 0 <= i < n ==> s[..n][i] != c;
    if n < |s| {
      SplitJoin(s[n + 1..], c);
      assert Split(s, c)[1..] == Split(s[n + 1..], c);
      assert s == s[..n] + [c] + s[n + 1..];
    } else {
      assert s[..n] == s;
    }
  }

  lemma JoinUncons(pieces: seq<string>, c: char)
    requires |pieces| > 1
    ensures Join(pieces, [c]) == pieces[0] + ([c] + Join(pieces[1..], [c]))
  {
    assert pieces[0] + [c] + Join(pieces[1..], [c]) == pieces[0] + ([c] + Join(pieces[1..], [c]));
  }

  lemma HeadAndTail(pieces: seq<string>)
    requires pieces != []
    ensures [pieces[0]] + pieces[1..] == pieces
  {
  }

  /** Pieces without the delimiter come back when the text they were joined to is split. */
  lemma {:induction false} SplitOfJoin(pieces: seq<string>, c: char)
    requires pieces != [] && forall i :: 0 <= i < |pieces| ==> c !in pieces[i]
    ensures Split(Join(pieces, [c]), c) == pieces
    decreases pieces
  {
    if |pieces| == 1 {
      SplitFirst(pieces[0], c, "");
    } else {
      JoinUncons(pieces, c);
      SplitFirst(pieces[0], c, Join(pieces[1..], [c]));
      SplitOfJoin(pieces[1..], c);
      HeadAndTail(pieces);
    }
  }
}
