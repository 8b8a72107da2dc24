/** Removing a matching prefix or suffix from a parameter value. The pattern is an
    arbitrary predicate on texts (what fnmatch answers for it). */
module PatternRemoval {
  import opened CStrings

  datatype Action = ShortLeft | LongLeft | ShortRight | LongRight

  /** The C string in the buffer from index p: up to the first NUL. */
  function CString(a: seq<char>): string {
    if a == [] || a[0] == NUL then [] else [a[0]] + CString(a[1..])
  }

  lemma {:induction false} CStringOf(s: string, rest: seq<char>)
    requires NulFree(s)
    ensures CString(s + [NUL] + rest) == s
    decreases s
  {
    var a := s + [NUL] + rest;
    if s != [] {
      assert a[0] == s[0] && a[1..] == s[1..] + [NUL] + rest;
      CStringOf(s[1..], rest);
    }
  }

  /** A value in its buffer, with the terminator right after it. */
  ghost predicate ValueIn(buf: array<char>, value: string)
    reads buf
  {
    buf.Length == |value| + 1 && buf[..] == value + [NUL] && NulFree(value)
  }

  // ----- the declarative meaning, section 2.6.2 of POSIX.1-2017 XCU -----

  /** k characters can be removed on the chosen side. */
  predicate Removable(action: Action, value: string, pattern: string -> bool, k: nat)
    requires k <= |value|
  {
    if action.ShortLeft? || action.LongLeft? then pattern(value[..k]) else pattern(value[|value| - k..])
  }

  /** k is the smallest (short forms) or the largest (long forms) removable count. */
  ghost predicate Chosen(action: Action, value: string, pattern: string -> bool, k: nat) {
    && k <= |value|
    && Removable(action, value, pattern, k)
    && forall j {:trigger Removable(action, value, pattern, j)} ::
         0 <= j <= |value| && Removable(action, value, pattern, j) ==>
         if action.ShortLeft? || action.ShortRight? then k <= j else j <= k
  }

  function Without(action: Action, value: string, k: nat): string
    requires k <= |value|
  {
    if action.ShortLeft? || action.LongLeft? then value[k..] else value[..|value| - k]
  }

  /** The removal is exact: the chosen part goes, or nothing if no part matches. */
  ghost predicate Removes(action: Action, value: string, pattern: string -> bool, result: string) {
    || (exists k :: Chosen(action, value, pattern, k) && result == Without(action, value, k))
    || (result == value && forall k :: 0 <= k <= |value| ==> !Removable(action, value, pattern, k))
  }

  // ----- the four loops -----

  /** fnmatch on the text before p, by way of a temporary terminator at p. */
  method MatchPrefix(buf: array<char>, ghost value: string, pattern: string -> bool, p: nat) returns (matches: bool)
    requires ValueIn(buf, value) && p <= |value|
    modifies buf
    ensures buf[..] == old(buf[..])
    ensures matches == pattern(value[..p])
  {
    var c := buf[p];
    buf[p] := NUL;
    assert value[..p] + [NUL] + (value + [NUL])[p + 1..] == buf[..];
    CStringOf(value[..p], (value + [NUL])[p + 1..]);
    matches := pattern(CString(buf[..]));
    buf[p] := c;
  }

  method MatchSuffix(buf: array<char>, ghost value: string, pattern: string -> bool, p: nat) returns (matches: bool)
    requires ValueIn(buf, value) && p <= |value|
    ensures matches == pattern(value[p..])
  {
    assert buf[p..] == value[p..] + [NUL] + [];
    CStringOf(value[p..], []);
    matches := pattern(CString(buf[p..]));
  }

  /** A copy of the text from index p on (strdup), or of the text before it. */
  method Copy(buf: array<char>, ghost value: string, from: nat, to: nat) returns (s: string)
    requires ValueIn(buf, value) && from <= to <= |value|
    ensures s == value[from..to]
  {
    s := buf[from..to];
  }

  method Remove(action: Action, buf: array<char>, ghost value: string, pattern: string -> bool) returns (result: string)
    requires ValueIn(buf, value)
    modifies buf
    ensures buf[..] == old(buf[..])
    ensures Removes(action, value, pattern, result)
  {
    var end := buf.Length - 1;
    match action {
      case ShortLeft =>
        var p := 0;
        while p <= end
          invariant p <= end + 1 && ValueIn(buf, value)
          invariant forall k :: 0 <= k < p ==> !Removable(action, value, pattern, k)
        {
          var matches := MatchPrefix(buf, value, pattern, p);
          if matches {
            result := Copy(buf, value, p, end);
            assert Chosen(action, value, pattern, p);
            return;
          }
          p := p + 1;
        }
      case LongLeft =>
        var p := end;
        while p >= 0
          invariant -1 <= p <= end && ValueIn(buf, value)
          invariant forall k :: p < k <= end ==> !Removable(action, value, pattern, k)
        {
          var matches := MatchPrefix(buf, value, pattern, p);
          if matches {
            result := Copy(buf, value, p, end);
            assert Chosen(action, value, pattern, p);
            return;
          }
          p := p - 1;
        }
      case ShortRight =>
        var p := end;
        while p >= 0
          invariant -1 <= p <= end && ValueIn(buf, value)
          invariant forall k :: 0 <= k < end - p ==> !Removable(action, value, pattern, k)
        {
          var matches := MatchSuffix(buf, value, pattern, p);
          if matches {
            result := Copy(buf, value, 0, p);
            assert Chosen(action, value, pattern, end - p);
            return;
          }
          p := p - 1;
        }
      case LongRight =>
        var p := 0;
        while p <= end
          invariant p <= end + 1 && ValueIn(buf, value)
          invariant forall k :: end - p < k <= end ==> !Removable(action, value, pattern, k)
        {
          var matches := MatchSuffix(buf, value, pattern, p);
          if matches {
            result := Copy(buf, value, 0, p);
            assert Chosen(action, value, pattern, end - p);
            return;
          }
          p := p + 1;
        }
    }
    result := Copy(buf, value, 0, end);
  }

  /** The declarative meaning admits one result only. */
  lemma OneResult(action: Action, value: string, pattern: string -> bool, a: string, b: string)
    requires Removes(action, value, pattern, a) && Removes(action, value, pattern, b)
    ensures a == b
  {
    if k :| Chosen(action, value, pattern, k) && a == Without(action, value, k) {
      assert Removable(action, value, pattern, k);
    }
  }

  /** What the short form leaves always contains, at the other end, what the long
      form leaves; the two agree unless at least two parts match. */
  lemma ShortKeepsMore(value: string, pattern: string -> bool, left: bool, short: string, long: string)
    requires Removes(if left then ShortLeft else ShortRight, value, pattern, short)
    requires Removes(if left then LongLeft else LongRight, value, pattern, long)
    ensures |long| <= |short|
    ensures if left then long == short[|short| - |long|..] else long == short[..|long|]
  {
    var s, l := if left then ShortLeft else ShortRight, if left then LongLeft else LongRight;
    if i :| Chosen(s, value, pattern, i) && short == Without(s, value, i) {
      SameSide(value, pattern, left, i);
      var j :| Chosen(l, value, pattern, j) && long == Without(l, value, j);
      SameSide(value, pattern, left, j);
      MoreRemoved(value, left, i, j);
    } else if j :| Chosen(l, value, pattern, j) && long == Without(l, value, j) {
      SameSide(value, pattern, left, j);
    }
  }

  lemma SameSide(value: string, pattern: string -> bool, left: bool, k: nat)
    requires k <= |value|
    ensures Removable(if left then ShortLeft else ShortRight, value, pattern, k)
            == Removable(if left then LongLeft else LongRight, value, pattern, k)
  {
  }

  lemma MoreRemoved(value: string, left: bool, i: nat, j: nat)
    requires i <= j <= |value|
    ensures if left then value[j..] == value[i..][j - i..]
            else value[..|value| - j] == value[..|value| - i][..|value| - j]
  {
  }
}
