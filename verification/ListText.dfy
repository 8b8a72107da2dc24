/** Lists of words joined into one text and split again. */
module ListText {
  import opened CStrings
  import opened Seqs

  // ----- stripping white space in place -----

  /** How far the start moves: over white space, but never past the last character. */
  function ContentStart(s: string, from: nat): (n: nat)
    requires from < |s|
    ensures from <= n < |s| && (forall i :: from <= i < n ==> IsSpace(s[i]))
    ensures n < |s| - 1 ==> !IsSpace(s[n])
    decreases |s| - from
  {
    if from < |s| - 1 && IsSpace(s[from]) then ContentStart(s, from + 1) else from
  }

  /** How far back the end moves: over white space, but never before the start. */
  function ContentEnd(s: string, from: nat, end: nat): (e: nat)
    requires from <= end < |s|
    ensures from <= e <= end && (forall i :: e < i <= end ==> IsSpace(s[i])) && (e > from ==> !IsSpace(s[e]))
    decreases end
  {
    if end > from && IsSpace(s[end]) then ContentEnd(s, from, end - 1) else end
  }

  function Strip(s: string): string {
    if s == "" then "" else
    var from := ContentStart(s, 0);
    s[from..ContentEnd(s, from, |s| - 1) + 1]
  }

  ghost predicate Holds(a: array<char>, s: string)
    reads a
  {
    |s| < a.Length && a[|s|] == NUL && forall i :: 0 <= i < |s| ==> a[i] == s[i] && s[i] != NUL
  }

  method Strlen(a: array<char>, ghost s: string) returns (n: int)
    requires Holds(a, s)
    ensures n == |s|
  {
    n := 0;
    while a[n] != NUL
      invariant 0 <= n <= |s|
      decreases |s| - n
    {
      n := n + 1;
    }
  }

  /** An empty text has no last character: its end of content is -1, and the byte before
      the text is read, but whatever it is changes nothing. */
  method StripString(a: array<char>, before: char, ghost s: string) returns (outside: bool)
    requires Holds(a, s)
    modifies a
    ensures Holds(a, Strip(s))
    ensures outside <==> s == ""
  {
    var length := Strlen(a, s);
    var numstartspaces, endofcontent := 0, length - 1;
    while IsSpace(a[numstartspaces]) && numstartspaces < endofcontent
      invariant 0 <= numstartspaces
      invariant s == "" ==> numstartspaces == 0
      invariant s != "" ==> numstartspaces < |s| && ContentStart(s, numstartspaces) == ContentStart(s, 0)
      decreases |s| - numstartspaces
    {
      numstartspaces := numstartspaces + 1;
    }
    outside := endofcontent < 0;
    while IsSpace(if endofcontent < 0 then before else a[endofcontent]) && endofcontent > numstartspaces
      invariant s == "" ==> endofcontent == -1
      invariant s != "" ==> numstartspaces <= endofcontent < |s|
                            && ContentEnd(s, numstartspaces, endofcontent) == ContentEnd(s, numstartspaces, |s| - 1)
      decreases endofcontent - numstartspaces
    {
      endofcontent := endofcontent - 1;
    }
    if numstartspaces != 0 {
      forall i | 0 <= i < endofcontent - numstartspaces + 1 {
        a[i] := a[numstartspaces + i];
      }
    }
    a[endofcontent - numstartspaces + 1] := NUL;
  }

  /** Strip read as a statement: the text between its outer white space; of white
      space alone, however, the last character stays. */
  lemma {:induction false} StripMeans(s: string) returns (a: nat, e: nat)
    requires s != ""
    ensures a < e <= |s| && Strip(s) == s[a..e]
    ensures (forall i :: 0 <= i < a ==> IsSpace(s[i])) && (forall i :: e <= i < |s| ==> IsSpace(s[i]))
    ensures if forall i :: 0 <= i < |s| ==> IsSpace(s[i]) then a == |s| - 1
            else !IsSpace(s[a]) && !IsSpace(s[e - 1])
  {
    a := ContentStart(s, 0);
    e := ContentEnd(s, a, |s| - 1) + 1;
  }

  // ----- joining -----

  function RequiredSize(words: seq<string>, delimiter: string): nat {
    if words == [] then 1 else |delimiter| + |words[0]| + RequiredSize(words[1..], delimiter)
  }

  lemma {:induction false} JoinedFits(words: seq<string>, delimiter: string)
    ensures |Join(words, delimiter)| + 1 <= RequiredSize(words, delimiter)
    decreases words
  {
    if |words| > 1 { JoinedFits(words[1..], delimiter); }
  }

  lemma JoinNext(arr: seq<string>, i: nat, delimiter: string)
    requires i < |arr|
    ensures Join(arr[..i + 1], delimiter)
            == (if i != 0 then Join(arr[..i], delimiter) + delimiter else Join(arr[..i], delimiter)) + arr[i]
  {
    JoinSnoc(arr[..i], arr[i], delimiter);
    assert arr[..i + 1] == arr[..i] + [arr[i]];
    if i == 0 { assert "" + arr[i] == arr[i]; }
  }

  /** With arrlen -1: all words. The buffer it allocates holds the text and its NUL. */
  method ImplodeArray(arr: seq<string>, delimiter: string) returns (retval: string, reqsize: nat)
    ensures retval == Join(arr, delimiter)
    ensures |retval| + 1 <= reqsize
  {
    var tmp := 0;
    reqsize := 1;
    assert arr[0..] == arr;
    while tmp < |arr|
      invariant tmp <= |arr| && reqsize + RequiredSize(arr[tmp..], delimiter) == RequiredSize(arr, delimiter) + 1
    {
      assert arr[tmp..][1..] == arr[tmp + 1..];
      reqsize := reqsize + |delimiter| + |arr[tmp]|;
      tmp := tmp + 1;
    }
    JoinedFits(arr, delimiter);
    retval := "";
    for i := 0 to |arr|
      invariant retval == Join(arr[..i], delimiter)
    {
      JoinNext(arr, i, delimiter);
      if i != 0 {
        retval := retval + delimiter;
      }
      retval := retval + arr[i];
    }
    assert arr[..|arr|] == arr;
  }

  // ----- splitting -----

  function Occurrences(s: string, c: char): nat {
    if s == "" then 0 else (if s[0] == c then 1 else 0) + Occurrences(s[1..], c)
  }

  method CountChar(s: string, lookfor: char) returns (count: nat)
    ensures count == Occurrences(s, lookfor)
  {
    count := 0;
    var i := 0;
    assert s[0..] == s;
    while i < |s|
      invariant i <= |s| && count + Occurrences(s[i..], lookfor) == Occurrences(s, lookfor)
    {
      assert s[i..][1..] == s[i + 1..];
      if s[i] == lookfor {
        count := count + 1;
      }
      i := i + 1;
    }
  }

  function Kept(pieces: seq<string>): seq<string> {
    if pieces == [] then []
    else (if Strip(pieces[0]) == "" then [] else [Strip(pieces[0])]) + Kept(pieces[1..])
  }

  function Exploded(s: string, delimiter: char): seq<string> {
    Kept(Split(s, delimiter))
  }

  lemma {:induction false} OccurrencesSkip(s: string, c: char, n: nat)
    requires n <= |s| && forall i :: 0 <= i < n ==> s[i] != c
    ensures Occurrences(s, c) == Occurrences(s[n..], c)
    decreases n
  {
    if n == 0 {
      assert s[0..] == s;
    } else {
      OccurrencesSkip(s[1..], c, n - 1);
      assert s[1..][n - 1..] == s[n..];
    }
  }

  /** There is one piece more than there are delimiters. */
  lemma {:induction false} PiecesCount(s: string, c: char)
    ensures |Split(s, c)| == Occurrences(s, c) + 1
    decreases s
  {
    var n := Cspn(s, [c]);
    assert forall i :: 0 <= i < n ==> s[i] == s[..n][i];
    OccurrencesSkip(s, c, n);
    if n < |s| {
      PiecesCount(s[n + 1..], c);
      assert s[n..][1..] == s[n + 1..];
    } else {
      assert s[n..] == "";
    }
  }

  method StripCopy(piece: string, before: char) returns (r: string, outside: bool)
    requires NulFree(piece)
    ensures r == Strip(piece) && (outside <==> piece == "")
  {
    var a := new char[|piece| + 1](i => At(piece, i));
    outside := StripString(a, before, piece);
    ghost var s := Strip(piece);
    var n := Strlen(a, s);
    r := a[..n];
  }

  /** A byte before some piece's copy is read exactly when there is an empty piece. */
  method ExplodeString(s: string, delimiter: char, before: char)
    returns (arr: array<Option<string>>, cur: nat, outside: bool)
    requires NulFree(s)
    ensures outside <==> "" in Split(s, delimiter)
    ensures fresh(arr) && cur < arr.Length && arr[cur] == None
    ensures cur == |Exploded(s, delimiter)|
    ensures forall i :: 0 <= i < cur ==> arr[i] == Some(Exploded(s, delimiter)[i])
  {
    var count := CountChar(s, delimiter);
    arr := new Option<string>[count + 2](_ => None);
    cur := 0;
    PiecesCount(s, delimiter);
    ghost var all, left := Exploded(s, delimiter), Split(s, delimiter);
    var tmp: Option<nat> := Some(0);
    outside := false;
    assert s[0..] == s;
    while tmp.Some?
      invariant outside || "" in left <==> "" in Split(s, delimiter)
      invariant fresh(arr) && arr.Length == count + 2
      invariant cur + |left| <= count + 1 && Pending(s, delimiter, tmp, left)
      invariant cur <= |all| && all[cur..] == Kept(left)
      invariant forall i :: 0 <= i < cur ==> arr[i] == Some(all[i])
      decreases |left|
    {
      var piece, read;
      assert left == [left[0]] + left[1..];
      piece, tmp, read := NextPiece(s, delimiter, before, tmp.value, left);
      outside := outside || read;
      cur, left := Store(arr, cur, piece, all, left);
    }
    arr[cur] := None;
  }

  /** An empty piece is freed again: its slot is the next one to be filled. */
  method Store(arr: array<Option<string>>, cur0: nat, piece: string, ghost all: seq<string>, ghost left: seq<string>)
    returns (cur: nat, ghost rest: seq<string>)
    requires cur0 < arr.Length && cur0 <= |all| && left != [] && all[cur0..] == Kept(left) && piece == Strip(left[0])
    requires forall i :: 0 <= i < cur0 ==> arr[i] == Some(all[i])
    modifies arr
    ensures rest == left[1..] && cur0 <= cur <= cur0 + 1
    ensures cur <= |all| && all[cur..] == Kept(rest)
    ensures forall i :: 0 <= i < cur ==> arr[i] == Some(all[i])
  {
    NextKept(all, cur0, left);
    cur, rest := cur0, left[1..];
    arr[cur] := Some(piece);
    if |piece| != 0 {
      cur := cur + 1;
    }
  }

  /** The pieces from tmp on; none are left once tmp is NULL. */
  ghost predicate Pending(s: string, delimiter: char, tmp: Option<nat>, left: seq<string>) {
    match tmp
    case None => left == []
    case Some(i) => i <= |s| && left == Split(s[i..], delimiter)
  }

  method NextPiece(s: string, delimiter: char, before: char, tmp0: nat, ghost left: seq<string>)
    returns (piece: string, tmp: Option<nat>, outside: bool)
    requires NulFree(s) && Pending(s, delimiter, Some(tmp0), left)
    ensures left != [] && (outside <==> left[0] == "")
    ensures piece == Strip(left[0]) && Pending(s, delimiter, tmp, left[1..])
  {
    var end := CspnEnd(s, tmp0, [delimiter]);
    PendingNext(s, delimiter, tmp0, end, left);
    piece, outside := StripCopy(s[tmp0..end], before);
    if end < |s| {
      tmp := Some(end + 1);
    } else {
      tmp := None;
    }
  }

  lemma PendingNext(s: string, delimiter: char, i: nat, end: nat, left: seq<string>)
    requires Pending(s, delimiter, Some(i), left) && end == CspnEnd(s, i, [delimiter])
    ensures left != [] && left[0] == s[i..end]
    ensures Pending(s, delimiter, if end < |s| then Some(end + 1) else None, left[1..])
  {
    PieceAt(s, delimiter, i, end);
  }

  lemma NextKept(all: seq<string>, cur: nat, left: seq<string>)
    requires cur <= |all| && left != [] && all[cur..] == Kept(left)
    ensures if Strip(left[0]) == "" then all[cur..] == Kept(left[1..])
            else cur < |all| && all[cur] == Strip(left[0]) && all[cur + 1..] == Kept(left[1..])
  {
    if Strip(left[0]) != "" {
      assert all[cur..][0] == Strip(left[0]) && all[cur..][1..] == Kept(left[1..]);
    } else {
      assert [] + Kept(left[1..]) == Kept(left[1..]);
    }
  }

  lemma PieceAt(s: string, c: char, i: nat, end: nat)
    requires i <= end <= |s| && end == CspnEnd(s, i, [c])
    ensures var left := Split(s[i..], c);
            left[0] == s[i..end] && left[1..] == (if end < |s| then Split(s[end + 1..], c) else [])
  {
    Cut(s, i, end);
    SplitFirst(s[i..end], c, if end < |s| then s[end + 1..] else "");
  }

  // ----- the round trip -----

  predicate Word(w: string, delimiter: char) {
    w != "" && delimiter !in w && Strip(w) == w
  }

  predicate Words(ws: seq<string>, delimiter: char) {
    forall i :: 0 <= i < |ws| ==> Word(ws[i], delimiter)
  }

  lemma {:induction false} JoinThenSplit(ws: seq<string>, c: char)
    requires ws != [] && forall i :: 0 <= i < |ws| ==> c !in ws[i]
    ensures Split(Join(ws, [c]), c) == ws
    decreases ws
  {
    if |ws| == 1 {
      SplitFirst(ws[0], c, "");
    } else {
      var t, rest := Join(ws[1..], [c]), ws[1..];
      Associative(ws[0], [c], t);
      SplitFirst(ws[0], c, t);
      JoinThenSplit(rest, c);
      TakeDrop(ws, 1);
      assert ws[..1] == [ws[0]];
    }
  }

  lemma {:induction false} KeptWords(ws: seq<string>, c: char)
    requires Words(ws, c)
    ensures Kept(ws) == ws
    decreases ws
  {
    if ws != [] {
      assert Word(ws[0], c);
      KeptWords(ws[1..], c);
    }
  }

  /** Whatever is split off is a word: not empty, free of delimiters, stripped. */
  lemma {:induction false} KeptAreWords(pieces: seq<string>, c: char)
    requires forall i :: 0 <= i < |pieces| ==> c !in pieces[i]
    ensures Words(Kept(pieces), c)
    decreases pieces
  {
    if pieces != [] {
      KeptAreWords(pieces[1..], c);
      if pieces[0] != "" {
        StripTwice(pieces[0]);
        var a, e := StripMeans(pieces[0]);
        assert forall k :: k in pieces[0][a..e] ==> k in pieces[0];
      }
    }
  }

  lemma {:induction false} StripTwice(s: string)
    requires s != ""
    ensures Strip(s) != "" && Strip(Strip(s)) == Strip(s)
  {
    var a, e := StripMeans(s);
    var r := Strip(s);
    var b, f := StripMeans(r);
    if |r| > 1 {
      assert r[0] == s[a] && r[|r| - 1] == s[e - 1];
    }
  }

  /** Round trip: joining and splitting gives a list back if and only if it consists of
      words: nonempty, without the delimiter, and as stripping leaves them. */
  lemma {:induction false} RoundTrip(ws: seq<string>, c: char)
    ensures Exploded(Join(ws, [c]), c) == ws <==> Words(ws, c)
  {
    SplitJoin(Join(ws, [c]), c);
    KeptAreWords(Split(Join(ws, [c]), c), c);
    if Words(ws, c) {
      if ws == [] {
        SplitFirst("", c, "");
        assert Strip("") == "" && [""][1..] == [];
      } else {
        forall i | 0 <= i < |ws| ensures c !in ws[i] {
          assert Word(ws[i], c);
        }
        JoinThenSplit(ws, c);
        KeptWords(ws, c);
      }
    }
  }

  /** What becomes of one piece: nothing if it is empty, else the text between its outer white space. */
  lemma {:induction false} OnePiece(piece: string) returns (a: nat, e: nat)
    ensures piece == "" ==> Kept([piece]) == []
    ensures piece != "" ==> a < e <= |piece| && Kept([piece]) == [piece[a..e]]
    ensures piece != "" ==> (forall i :: 0 <= i < a ==> IsSpace(piece[i]))
                            && (forall i :: e <= i < |piece| ==> IsSpace(piece[i]))
    ensures piece != "" ==> if forall i :: 0 <= i < |piece| ==> IsSpace(piece[i]) then a == |piece| - 1
                            else !IsSpace(piece[a]) && !IsSpace(piece[e - 1])
  {
    a, e := 0, 0;
    assert [piece][1..] == [];
    if piece != "" {
      StripTwice(piece);
      a, e := StripMeans(piece);
      assert [piece[a..e]] + [] == [piece[a..e]];
    }
  }

  /** And the pieces are treated one by one, in their order. */
  lemma {:induction false} KeptInOrder(a: seq<string>, b: seq<string>)
    ensures Kept(a + b) == Kept(a) + Kept(b)
    decreases a
  {
    if a == [] {
      assert a + b == b;
    } else {
      Uncons(a, b);
      KeptInOrder(a[1..], b);
    }
  }
}
