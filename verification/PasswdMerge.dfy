/** Copying requested users and groups from the system's passwd and group files into
    those of a jail. */
module PasswdMerge {
  import opened CStrings
  import opened Seqs

  // ----- files as lines, the way readline returns them -----

  predicate Terminated(t: string) {
    t == "" || t[|t| - 1] == '\n'
  }

  /** The lines of a file, each with its newline; the last one may lack it. */
  function Lines(t: string): seq<string>
    decreases t
  {
    if t == "" then []
    else
      var n := Cspn(t, ['\n']);
      if n == |t| then [t] else [t[..n + 1]] + Lines(t[n + 1..])
  }

  /** One line: some text without a newline, then the newline. */
  predicate IsLine(l: string) {
    l != "" && l[|l| - 1] == '\n' && forall i :: 0 <= i < |l| - 1 ==> l[i] != '\n'
  }

  /** A line without its newline. */
  predicate IsOpen(l: string) {
    l != "" && '\n' !in l
  }

  predicate AllLines(ls: seq<string>) {
    forall i :: 0 <= i < |ls| ==> IsLine(ls[i])
  }

  /** Lines of which the last may lack its newline. */
  predicate Rows(ls: seq<string>) {
    ls != [] ==> AllLines(ls[..|ls| - 1]) && (IsLine(ls[|ls| - 1]) || IsOpen(ls[|ls| - 1]))
  }

  lemma FirstLine(t: string)
    requires t != ""
    ensures var n := Cspn(t, ['\n']);
            if n < |t| then IsLine(t[..n + 1]) && (Terminated(t) <==> Terminated(t[n + 1..]))
            else IsOpen(t) && !IsLine(t) && !Terminated(t)
  {
    var n := Cspn(t, ['\n']);
    CutAt(t, n, '\n');
    if n < |t| { LineOf(t, n); }
  }

  lemma LineOf(t: string, n: nat)
    requires n < |t| && t[n] == '\n' && '\n' !in t[..n]
    ensures IsLine(t[..n + 1]) && (Terminated(t) <==> Terminated(t[n + 1..]))
  {
    assert forall i :: 0 <= i < n ==> t[..n + 1][i] == t[..n][i];
  }

  /** A file is made of lines; all have their newline exactly if the file ends in one. */
  lemma {:induction false} LinesAreRows(t: string)
    ensures Rows(Lines(t)) && (AllLines(Lines(t)) <==> Terminated(t))
    decreases t
  {
    if t != "" {
      var n := Cspn(t, ['\n']);
      FirstLine(t);
      if n < |t| {
        LinesAreRows(t[n + 1..]);
        RowsStep(t[..n + 1], Lines(t[n + 1..]));
      }
    }
  }

  lemma RowsStep(l: string, ls: seq<string>)
    requires IsLine(l)
    ensures Rows([l] + ls) <==> Rows(ls)
    ensures AllLines([l] + ls) <==> AllLines(ls)
  {
    var all := [l] + ls;
    assert all[1..] == ls;
    assert forall i :: 0 <= i < |ls| ==> ls[i] == all[i + 1];
    if ls != [] { assert all[..|all| - 1] == [l] + ls[..|ls| - 1]; }
  }

  lemma {:induction false} LineFirst(l: string, t: string)
    requires IsLine(l)
    ensures Lines(l + t) == [l] + Lines(t)
  {
    CspnIs(l + t, ['\n'], |l| - 1);
    assert (l + t)[..|l|] == l && (l + t)[|l|..] == t;
  }

  lemma {:induction false} LinesConcat(ls: seq<string>, t: string)
    requires AllLines(ls)
    ensures Lines(Concat(ls) + t) == ls + Lines(t)
    decreases ls
  {
    if ls == [] {
      assert "" + t == t;
    } else {
      Associative(ls[0], Concat(ls[1..]), t);
      LineFirst(ls[0], Concat(ls[1..]) + t);
      LinesConcat(ls[1..], t);
      Associative([ls[0]], ls[1..], Lines(t));
      TakeDrop(ls, 1);
      assert ls[..1] == [ls[0]];
    }
  }

  lemma {:induction false} ConcatLines(t: string)
    ensures Concat(Lines(t)) == t
    decreases t
  {
    if t != "" {
      var n := Cspn(t, "\n");
      if n < |t| {
        ConcatLines(t[n + 1..]);
        assert t == t[..n + 1] + t[n + 1..];
        assert Lines(t)[1..] == Lines(t[n + 1..]);
      } else {
        assert Lines(t)[1..] == [];
      }
    }
  }

  lemma OneRow(l: string)
    requires IsLine(l) || IsOpen(l)
    ensures Lines(l) == [l]
  {
    if IsLine(l) {
      LineFirst(l, "");
      assert l + "" == l;
    } else {
      CspnIs(l, ['\n'], |l|);
    }
  }

  lemma LinesOfConcat(ls: seq<string>)
    requires Rows(ls)
    ensures Lines(Concat(ls)) == ls
  {
    if ls != [] {
      var front, last := ls[..|ls| - 1], ls[|ls| - 1];
      ConcatSnoc(ls, |ls| - 1);
      Unsnoc(ls);
      LinesConcat(front, last);
      OneRow(last);
    }
  }

  /** Appending lines to a terminated file appends them to its lines. */
  lemma {:induction false} AppendLines(t: string, ls: seq<string>)
    requires Terminated(t) && Rows(ls)
    ensures Lines(t + Concat(ls)) == Lines(t) + ls
    ensures Terminated(t + Concat(ls)) <==> AllLines(ls)
  {
    LinesAreRows(t);
    ConcatLines(t);
    LinesConcat(Lines(t), Concat(ls));
    LinesOfConcat(ls);
    LinesAreRows(t + Concat(ls));
    LinesOfBoth(Lines(t), ls);
  }

  lemma LinesOfBoth(a: seq<string>, b: seq<string>)
    ensures AllLines(a + b) <==> AllLines(a) && AllLines(b)
  {
    if AllLines(a + b) {
      forall i | 0 <= i < |a| ensures IsLine(a[i]) { assert a[i] == (a + b)[i]; }
      forall i | 0 <= i < |b| ensures IsLine(b[i]) { assert b[i] == (a + b)[|a| + i]; }
    }
  }

  /** Two lists written on, the last of the first and the first of the second run together. */
  function Glued(were: seq<string>, more: seq<string>): seq<string>
    requires were != [] && more != []
  {
    were[..|were| - 1] + ([were[|were| - 1] + more[0]] + more[1..])
  }

  /** The last line of a file without a final newline. */
  lemma OpenLine(t: string)
    requires !Terminated(t)
    ensures var were := Lines(t); were != [] && IsOpen(were[|were| - 1])
  {
    LinesAreRows(t);
    var were := Lines(t);
    if IsLine(were[|were| - 1]) {
      forall i | 0 <= i < |were| ensures IsLine(were[i]) {
        if i < |were| - 1 { assert were[i] == were[..|were| - 1][i]; }
      }
      assert AllLines(were);
    }
  }

  lemma GluedRows(last: string, ls: seq<string>)
    requires IsOpen(last) && Rows(ls) && ls != []
    ensures Rows([last + ls[0]] + ls[1..])
  {
    var x, y := last + ls[0], ls[1..];
    assert ls == [ls[0]] + y;
    if y == [] {
      assert [x] + y == [x];
    } else {
      assert ls[..|ls| - 1][0] == ls[0];
      RowsStep(ls[0], y);
      RowsStep(x, y);
    }
  }

  /** Appended to any other file, the first of them is glued to the file's last line. */
  lemma {:induction false} GluedLines(t: string, ls: seq<string>)
    requires !Terminated(t) && Rows(ls) && ls != []
    ensures Lines(t) != [] && Lines(t + Concat(ls)) == Glued(Lines(t), ls)
  {
    var were := Lines(t);
    OpenLine(t);
    LinesAreRows(t);
    ConcatLines(t);
    var front, last := were[..|were| - 1], were[|were| - 1];
    var rest := [last + ls[0]] + ls[1..];
    GluedText(were, ls);
    GluedRows(last, ls);
    LinesConcat(front, Concat(rest));
    LinesOfConcat(rest);
  }

  lemma GluedText(were: seq<string>, ls: seq<string>)
    requires were != [] && ls != []
    ensures Concat(were) + Concat(ls) == Concat(were[..|were| - 1]) + Concat([were[|were| - 1] + ls[0]] + ls[1..])
  {
    var front, last := were[..|were| - 1], were[|were| - 1];
    ConcatSnoc(were, |were| - 1);
    Unsnoc(were);
    assert ([last + ls[0]] + ls[1..])[1..] == ls[1..];
    Associative(Concat(front), last, Concat(ls));
    Associative(last, ls[0], Concat(ls[1..]));
  }

  // ----- entries -----

  function Fields(line: string): seq<string> {
    Split(line, ':')
  }

  /** An entry goes by its name and by its number. */
  predicate HasId(line: string, x: string) {
    |Fields(line)| >= 3 && (Fields(line)[0] == x || Fields(line)[2] == x)
  }

  /** Some line of the file is the entry for x. */
  predicate Listed(ls: seq<string>, x: string) {
    exists i :: 0 <= i < |ls| && HasId(ls[i], x)
  }

  predicate Wanted(line: string, xs: seq<string>) {
    exists i :: 0 <= i < |xs| && HasId(line, xs[i])
  }

  /** list.remove: the first occurrence goes, if there is one. */
  function Remove(xs: seq<string>, x: string): seq<string> {
    if xs == [] then [] else if xs[0] == x then xs[1..] else [xs[0]] + Remove(xs[1..], x)
  }

  function PruneOne(xs: seq<string>, line: string): seq<string> {
    var f := Fields(line);
    if |f| >= 3 then Remove(Remove(xs, f[0]), f[2]) else xs
  }

  /** The requests left after dropping those that have an entry already. */
  function Prune(xs: seq<string>, ls: seq<string>): seq<string>
    decreases ls
  {
    if ls == [] then xs else Prune(PruneOne(xs, ls[0]), ls[1..])
  }

  /** The same until a line of exactly two fields raises IndexError, where two are enough
      to look at a line: its name is dropped, its missing third field is read. */
  function DropUntil(xs: seq<string>, ls: seq<string>, least: nat): (seq<string>, bool)
    decreases ls
  {
    if ls == [] then (xs, false)
    else if least == 2 && |Fields(ls[0])| == 2 then (Remove(xs, Fields(ls[0])[0]), true)
    else DropUntil(PruneOne(xs, ls[0]), ls[1..], least)
  }

  function PickOne(xs: seq<string>, line: string): seq<string> {
    if Wanted(line, xs) then [line] else []
  }

  /** The entries to copy, in the order of the system's file. */
  function Pick(xs: seq<string>, ls: seq<string>): seq<string> {
    if ls == [] then [] else PickOne(xs, ls[0]) + Pick(xs, ls[1..])
  }

  function Cons(line: string, more: (seq<string>, bool)): (seq<string>, bool) {
    ([line] + more.0, more.1)
  }

  /** The lines written to the jail's passwd file: a wanted line of exactly three fields is
      written too, and then its missing fourth field raises IndexError. */
  function UsersUntil(xs: seq<string>, ls: seq<string>): (seq<string>, bool) {
    if ls == [] then ([], false)
    else if !Wanted(ls[0], xs) then UsersUntil(xs, ls[1..])
    else if |Fields(ls[0])| == 3 then ([ls[0]], true)
    else Cons(ls[0], UsersUntil(xs, ls[1..]))
  }

  /** The lines written to the jail's group file: of a line of exactly two fields the name is
      looked at first, and the missing third field only if the name is not requested. */
  function GroupsUntil(xs: seq<string>, ls: seq<string>): (seq<string>, bool) {
    if ls == [] then ([], false)
    else if |Fields(ls[0])| == 2 then
      if Fields(ls[0])[0] in xs then Cons(ls[0], GroupsUntil(xs, ls[1..])) else ([], true)
    else if Wanted(ls[0], xs) then Cons(ls[0], GroupsUntil(xs, ls[1..]))
    else GroupsUntil(xs, ls[1..])
  }

  function WithGroup(groups: seq<string>, line: string): seq<string> {
    var f := Fields(line);
    if |f| > 3 && f[3] !in groups then groups + [f[3]] else groups
  }

  /** The primary groups of the copied users join the requested groups. */
  function WithGroups(groups: seq<string>, picked: seq<string>): seq<string>
    decreases picked
  {
    if picked == [] then groups else WithGroups(WithGroup(groups, picked[0]), picked[1..])
  }

  /** Both files after the merge, and whether it left by IndexError. */
  datatype Outcome = Outcome(passwd: string, group: Option<string>, raised: bool)

  function Merge(passwdJail: string, passwdSystem: string, users: seq<string>,
                 groupJail: Option<string>, groupSystem: string, groups: seq<string>): Outcome
  {
    var written := UsersUntil(Prune(users, Lines(passwdJail)), Lines(passwdSystem));
    var passwd := passwdJail + Concat(written.0);
    var left := DropUntil(WithGroups(groups, written.0), Lines(Text(groupJail)), 2);
    if written.1 || left.1 then Outcome(passwd, groupJail, true)
    else
      var copied := if left.0 == [] then ([], false) else GroupsUntil(left.0, Lines(groupSystem));
      Outcome(passwd, Some(Text(groupJail) + Concat(copied.0)), copied.1)
  }

  predicate Unique(xs: seq<string>) {
    forall i, j :: 0 <= i < j < |xs| ==> xs[i] != xs[j]
  }

  // ----- the merge as it runs -----

  /** A file open for reading by lines. */
  class Reader {
    const content: string
    var pos: nat
    ghost var rest: seq<string>

    ghost predicate Valid()
      reads this
    {
      pos <= |content| && rest == Lines(content[pos..])
    }

    constructor (content: string)
      ensures Valid() && this.content == content && rest == Lines(content)
    {
      this.content, pos, rest := content, 0, Lines(content);
      new;
      assert content[0..] == content;
    }

    /** readline: the next line, or nothing at the end of the file. */
    method Readline() returns (line: string)
      requires Valid()
      modifies this
      ensures Valid()
      ensures if old(rest) == [] then line == "" && rest == []
              else line != "" && line == old(rest)[0] && rest == old(rest)[1..]
    {
      var end := CspnEnd(content, pos, ['\n']);
      if end < |content| {
        FullLine(content, pos, end);
        end := end + 1;
      } else if pos < end {
        LastLine(content, pos);
      }
      line := content[pos..end];
      rest := if pos == end then [] else rest[1..];
      pos := end;
    }
  }

  lemma FullLine(content: string, pos: nat, end: nat)
    requires pos <= end < |content| && content[end] == '\n' && NoneIn(content[pos..end], ['\n'])
    ensures var ls := Lines(content[pos..]);
            ls != [] && ls[0] == content[pos..end + 1] != "" && ls[1..] == Lines(content[end + 1..])
  {
    assert content[pos..end + 1] == content[pos..end] + ['\n'];
    assert content[pos..] == content[pos..end + 1] + content[end + 1..];
    LineFirst(content[pos..end + 1], content[end + 1..]);
  }

  lemma LastLine(content: string, pos: nat)
    requires pos < |content| && NoneIn(content[pos..|content|], ['\n'])
    ensures var ls := Lines(content[pos..]);
            ls != [] && ls[0] == content[pos..|content|] != "" && ls[1..] == [] == Lines(content[|content|..])
  {
    assert content[pos..|content|] == content[pos..];
    CspnIs(content[pos..], ['\n'], |content| - pos);
  }

  lemma {:induction false} RemoveAbsent(xs: seq<string>, x: string)
    requires x !in xs
    ensures Remove(xs, x) == xs
    decreases xs
  {
    if xs != [] { RemoveAbsent(xs[1..], x); }
  }

  lemma WantedByEither(line: string, xs: seq<string>)
    ensures Wanted(line, xs) <==> |Fields(line)| >= 3 && (Fields(line)[0] in xs || Fields(line)[2] in xs)
  {
  }

  class Jail {
    const realPasswd: string
    const realGroup: string
    var passwd: Option<string>
    var group: Option<string>
    var users: seq<string>
    var groups: seq<string>

    constructor (realPasswd: string, realGroup: string, passwd: Option<string>, group: Option<string>,
                 users: seq<string>, groups: seq<string>)
      ensures this.realPasswd == realPasswd && this.realGroup == realGroup
      ensures this.passwd == passwd && this.group == group && this.users == users && this.groups == groups
    {
      this.realPasswd, this.realGroup := realPasswd, realGroup;
      this.passwd, this.group, this.users, this.groups := passwd, group, users, groups;
    }

    /** Drops from a request list what the jail's file lists. A line counts when it
        has at least `least` fields. */
    method DropListed(xs0: seq<string>, content: string, least: nat) returns (xs: seq<string>, raised: bool)
      requires least == 2 || least == 3
      ensures (xs, raised) == DropUntil(xs0, Lines(content), least)
    {
      xs := xs0;
      var fd := new Reader(content);
      ghost var ls := fd.rest;
      var line := fd.Readline();
      while |line| > 0
        invariant fd.Valid() && fresh(fd)
        invariant if line == "" then ls == [] else ls != [] && line == ls[0] && ls[1..] == fd.rest
        invariant DropUntil(xs, ls, least) == DropUntil(xs0, Lines(content), least)
        decreases |ls|
      {
        var f := Fields(line);
        if |f| >= least {
          if |f| == 2 {
            return Remove(xs, f[0]), true;
          }
          if f[0] in xs || f[2] in xs {
            xs := Remove(xs, f[0]);
            xs := Remove(xs, f[2]);
          } else {
            RemoveAbsent(xs, f[0]);
            RemoveAbsent(xs, f[2]);
          }
        }
        ls := ls[1..];
        line := fd.Readline();
      }
      return xs, false;
    }

    /** Appends the wanted lines of the system's passwd file; their groups are requested. */
    method CopyUsers(fd2: string) returns (out: string, raised: bool)
      modifies this`groups
      ensures var written := UsersUntil(users, Lines(realPasswd));
              out == fd2 + Concat(written.0) && raised == written.1 && groups == WithGroups(old(groups), written.0)
    {
      out := fd2;
      var fd := new Reader(realPasswd);
      ghost var ls := fd.rest;
      ghost var goal := UsersUntil(users, ls);
      ghost var text, joined := fd2 + Concat(goal.0), WithGroups(groups, goal.0);
      var line := fd.Readline();
      while |line| > 0
        invariant fd.Valid() && fresh(fd)
        invariant if line == "" then ls == [] else ls != [] && line == ls[0] && ls[1..] == fd.rest
        invariant out + Concat(UsersUntil(users, ls).0) == text && UsersUntil(users, ls).1 == goal.1
        invariant WithGroups(groups, UsersUntil(users, ls).0) == joined
        decreases |ls|
      {
        WantedByEither(line, users);
        UsersStep(users, ls, out, groups);
        var pwstruct := Fields(line);
        if |pwstruct| >= 3 && (pwstruct[0] in users || pwstruct[2] in users) {
          out := out + line;
          if |pwstruct| == 3 { return out, true; }
          if pwstruct[3] !in groups {
            groups := groups + [pwstruct[3]];
          }
        }
        ls := ls[1..];
        line := fd.Readline();
      }
      assert out + "" == out;
      return out, false;
    }

    method CopyGroups(fd2: string) returns (out: string, raised: bool)
      ensures var written := GroupsUntil(groups, Lines(realGroup));
              out == fd2 + Concat(written.0) && raised == written.1
    {
      out := fd2;
      var fd := new Reader(realGroup);
      ghost var ls := fd.rest;
      ghost var goal := GroupsUntil(groups, ls);
      var line := fd.Readline();
      while |line| > 0
        invariant fd.Valid() && fresh(fd)
        invariant if line == "" then ls == [] else ls != [] && line == ls[0] && ls[1..] == fd.rest
        invariant out + Concat(GroupsUntil(groups, ls).0) == fd2 + Concat(goal.0) && GroupsUntil(groups, ls).1 == goal.1
        decreases |ls|
      {
        var f := Fields(line);
        WantedByEither(line, groups);
        GroupsLine(groups, ls, out);
        if |f| >= 2 {
          if f[0] in groups {
            out := out + line;
          } else if |f| == 2 {
            assert out + "" == out;
            return out, true;
          } else if f[2] in groups {
            out := out + line;
          }
        }
        ls := ls[1..];
        line := fd.Readline();
      }
      assert out + "" == out;
      return out, false;
    }

    /** raised: the IndexError with which the function leaves, the file it was writing closed. */
    method InitPasswdAndGroup() returns (raised: bool)
      modifies this
      ensures var r := Merge(Text(old(passwd)), realPasswd, old(users), old(group), realGroup, old(groups));
              passwd == Some(r.passwd) && group == r.group && raised == r.raised
    {
      var fd2 := "";
      if passwd.Some? {
        fd2 := passwd.value;
        users, raised := DropListed(users, fd2, 3);
        NeverShort(old(users), Lines(fd2));
      }
      NobodyWanted(users, Lines(realPasswd));
      assert fd2 + Concat([]) == fd2;
      raised := false;
      if |users| > 0 {
        fd2, raised := CopyUsers(fd2);
      }
      passwd := Some(fd2);
      if raised { return; }
      fd2 := "";
      if group.Some? {
        fd2 := group.value;
        groups, raised := DropListed(groups, fd2, 2);
        if raised { return; }
      }
      assert fd2 + Concat([]) == fd2;
      if |groups| > 0 {
        fd2, raised := CopyGroups(fd2);
      }
      group := Some(fd2);
    }
  }

  lemma ConsStep(line: string, more: seq<string>, out: string, groups: seq<string>)
    ensures out + Concat([line] + more) == out + line + Concat(more)
    ensures WithGroups(groups, [line] + more) == WithGroups(WithGroup(groups, line), more)
  {
    assert ([line] + more)[1..] == more;
    Associative(out, line, Concat(more));
  }

  lemma UsersStep(xs: seq<string>, ls: seq<string>, out: string, groups: seq<string>)
    requires ls != []
    ensures var all, more := UsersUntil(xs, ls), UsersUntil(xs, ls[1..]);
            if !Wanted(ls[0], xs) then all == more
            else if |Fields(ls[0])| == 3 then
              all.1 && out + Concat(all.0) == out + ls[0] && WithGroups(groups, all.0) == groups
            else
              all.1 == more.1 && out + Concat(all.0) == out + ls[0] + Concat(more.0)
              && WithGroups(groups, all.0) == WithGroups(WithGroup(groups, ls[0]), more.0)
  {
    ConsStep(ls[0], UsersUntil(xs, ls[1..]).0, out, groups);
    ConsStep(ls[0], [], out, groups);
    assert [ls[0]] + [] == [ls[0]] && out + ls[0] + "" == out + ls[0];
  }

  lemma GroupsLine(xs: seq<string>, ls: seq<string>, out: string)
    requires ls != []
    ensures var all, more := GroupsUntil(xs, ls), GroupsUntil(xs, ls[1..]);
            var f := Fields(ls[0]);
            if |f| == 2 && f[0] !in xs then all == ([], true)
            else if |f| >= 2 && (f[0] in xs || f[2] in xs) then
              all.1 == more.1 && out + Concat(all.0) == out + ls[0] + Concat(more.0)
            else all == more
  {
    WantedByEither(ls[0], xs);
    ConsStep(ls[0], GroupsUntil(xs, ls[1..]).0, out, []);
  }

  // ----- when the merge raises -----

  predicate HasLineOf(ls: seq<string>, n: nat) {
    exists i :: 0 <= i < |ls| && |Fields(ls[i])| == n
  }

  lemma {:induction false} NeverShort(xs: seq<string>, ls: seq<string>)
    ensures DropUntil(xs, ls, 3) == (Prune(xs, ls), false)
    decreases ls
  {
    if ls != [] { NeverShort(PruneOne(xs, ls[0]), ls[1..]); }
  }

  lemma {:induction false} DropsOrRaises(xs: seq<string>, ls: seq<string>)
    ensures DropUntil(xs, ls, 2).1 <==> HasLineOf(ls, 2)
    ensures !HasLineOf(ls, 2) ==> DropUntil(xs, ls, 2).0 == Prune(xs, ls)
    decreases ls
  {
    if ls != [] {
      DropsOrRaises(PruneOne(xs, ls[0]), ls[1..]);
      LineOfStep(ls, 2);
    }
  }

  lemma LineOfStep(ls: seq<string>, n: nat)
    requires ls != []
    ensures HasLineOf(ls, n) <==> |Fields(ls[0])| == n || HasLineOf(ls[1..], n)
  {
    if i :| 0 <= i < |ls| && |Fields(ls[i])| == n {
      assert i > 0 ==> ls[1..][i - 1] == ls[i];
    }
    if i :| 0 <= i < |ls[1..]| && |Fields(ls[1..][i])| == n {
      assert ls[i + 1] == ls[1..][i];
    }
  }

  lemma {:induction false} UsersOrRaises(xs: seq<string>, ls: seq<string>)
    ensures UsersUntil(xs, ls).1 <==> HasLineOf(Pick(xs, ls), 3)
    ensures !UsersUntil(xs, ls).1 ==> UsersUntil(xs, ls).0 == Pick(xs, ls)
    decreases ls
  {
    if ls != [] {
      UsersOrRaises(xs, ls[1..]);
      var more := Pick(xs, ls[1..]);
      assert [] + more == more && ([ls[0]] + more)[1..] == more;
      if Wanted(ls[0], xs) { LineOfStep([ls[0]] + more, 3); }
    }
  }

  /** The name of a line of exactly two fields is not requested. */
  predicate Unnamed(line: string, xs: seq<string>) {
    |Fields(line)| == 2 && Fields(line)[0] !in xs
  }

  lemma {:induction false} GroupsOrRaises(xs: seq<string>, ls: seq<string>)
    ensures GroupsUntil(xs, ls).1 <==> exists line :: line in ls && Unnamed(line, xs)
    ensures !HasLineOf(ls, 2) ==> GroupsUntil(xs, ls).0 == Pick(xs, ls)
    decreases ls
  {
    if ls != [] {
      GroupsOrRaises(xs, ls[1..]);
      UnnamedStep(xs, ls);
      LineOfStep(ls, 2);
      assert [] + Pick(xs, ls[1..]) == Pick(xs, ls[1..]);
    }
  }

  lemma UnnamedStep(xs: seq<string>, ls: seq<string>)
    requires ls != []
    ensures (exists line :: line in ls && Unnamed(line, xs))
            <==> Unnamed(ls[0], xs) || exists line :: line in ls[1..] && Unnamed(line, xs)
  {
    assert ls[0] in ls && forall line :: line in ls <==> line == ls[0] || line in ls[1..];
  }

  /**
   * Exactly when the merge leaves by IndexError: a user's line to be copied has three fields, or
   * a line of the jail's group file has two, or, while a group is still wanted, a line of the
   * system's group file has two and another name.
   */
  lemma RaisesExactly(passwdJail: string, passwdSystem: string, users: seq<string>,
                      groupJail: Option<string>, groupSystem: string, groups: seq<string>)
    ensures var r := Merge(passwdJail, passwdSystem, users, groupJail, groupSystem, groups);
            var left := Prune(Requested(passwdJail, passwdSystem, users, groups), Lines(Text(groupJail)));
            r.raised <==>
            || HasLineOf(Copied(passwdJail, passwdSystem, users), 3)
            || HasLineOf(Lines(Text(groupJail)), 2)
            || (left != [] && exists line :: line in Lines(groupSystem) && Unnamed(line, left))
  {
    var wanted := Prune(users, Lines(passwdJail));
    UsersOrRaises(wanted, Lines(passwdSystem));
    var asked := WithGroups(groups, UsersUntil(wanted, Lines(passwdSystem)).0);
    DropsOrRaises(asked, Lines(Text(groupJail)));
    GroupsOrRaises(Prune(asked, Lines(Text(groupJail))), Lines(groupSystem));
  }

  /** The first user's line to be copied that has exactly three fields stands at i. */
  ghost predicate ShortUserAt(xs: seq<string>, ls: seq<string>, i: nat) {
    && i < |ls| && Wanted(ls[i], xs) && |Fields(ls[i])| == 3
    && !HasLineOf(Pick(xs, ls[..i]), 3)
  }

  lemma {:induction false} UsersLeft(xs: seq<string>, ls: seq<string>) returns (i: nat)
    requires UsersUntil(xs, ls).1
    ensures ShortUserAt(xs, ls, i) && UsersUntil(xs, ls).0 == Pick(xs, ls[..i + 1])
    decreases ls
  {
    if Wanted(ls[0], xs) && |Fields(ls[0])| == 3 {
      i := 0;
      PickOnly(xs, ls[0]);
      assert ls[..0] == [] && ls[..1] == [ls[0]] && [ls[0]][1..] == [];
      assert PickOne(xs, ls[0]) + [] == [ls[0]];
    } else {
      var k := UsersLeft(xs, ls[1..]);
      i := k + 1;
      PickFront(xs, ls, k);
      PickFront(xs, ls, k + 1);
      if Wanted(ls[0], xs) { LineOfStep([ls[0]] + Pick(xs, ls[1..][..k]), 3); }
    }
  }

  lemma PickFront(xs: seq<string>, ls: seq<string>, k: nat)
    requires k < |ls|
    ensures Pick(xs, ls[..k + 1]) == PickOne(xs, ls[0]) + Pick(xs, ls[1..][..k])
    ensures Wanted(ls[0], xs) ==> (Pick(xs, ls[..k + 1])[1..] == Pick(xs, ls[1..][..k]))
    ensures !Wanted(ls[0], xs) ==> Pick(xs, ls[..k + 1]) == Pick(xs, ls[1..][..k])
  {
    assert ls[..k + 1][0] == ls[0] && ls[..k + 1][1..] == ls[1..][..k];
  }

  /** A line of a group file that is copied: one of two fields goes by its name alone. */
  predicate WantedGroup(line: string, xs: seq<string>) {
    Wanted(line, xs) || (|Fields(line)| == 2 && Fields(line)[0] in xs)
  }

  /** The first line with exactly two fields and a name not asked for stands at i. */
  ghost predicate UnnamedAt(xs: seq<string>, ls: seq<string>, i: nat) {
    i < |ls| && Unnamed(ls[i], xs) && forall k :: 0 <= k < i ==> !Unnamed(ls[k], xs)
  }

  /** What is written before that line: exactly the lines wanted, each as often as it stands there. */
  lemma {:induction false} GroupsLeft(xs: seq<string>, ls: seq<string>) returns (i: nat)
    ensures if GroupsUntil(xs, ls).1 then i < |ls| && UnnamedAt(xs, ls, i) else i == |ls|
    ensures forall line :: multiset(GroupsUntil(xs, ls).0)[line]
                           == if WantedGroup(line, xs) then multiset(ls[..i])[line] else 0
    decreases ls
  {
    if ls == [] || Unnamed(ls[0], xs) {
      i := 0;
    } else {
      var k := GroupsLeft(xs, ls[1..]);
      i := k + 1;
      assert ls[..i] == [ls[0]] + ls[1..][..k];
      assert forall j :: 0 < j <= k && j < |ls| ==> ls[j] == ls[1..][j - 1];
      WantedByEither(ls[0], xs);
    }
  }

  /** The lines copied from the part before line i, where the copying ends. */
  ghost predicate WrittenBefore(xs: seq<string>, ls: seq<string>, i: nat, added: seq<string>) {
    && (UnnamedAt(xs, ls, i) || i == |ls|)
    && forall line :: multiset(added)[line] == if WantedGroup(line, xs) then multiset(ls[..i])[line] else 0
  }

  /** A user's line of three fields that is to be copied is the last one written; group stays as it was. */
  lemma RaisedByUser(passwdJail: string, passwdSystem: string, users: seq<string>,
                     groupJail: Option<string>, groupSystem: string, groups: seq<string>) returns (i: nat)
    requires HasLineOf(Copied(passwdJail, passwdSystem, users), 3)
    ensures var wanted := Prune(users, Lines(passwdJail));
            ShortUserAt(wanted, Lines(passwdSystem), i)
            && Merge(passwdJail, passwdSystem, users, groupJail, groupSystem, groups)
               == Outcome(passwdJail + Concat(Pick(wanted, Lines(passwdSystem)[..i + 1])), groupJail, true)
  {
    var wanted := Prune(users, Lines(passwdJail));
    UsersOrRaises(wanted, Lines(passwdSystem));
    i := UsersLeft(wanted, Lines(passwdSystem));
  }

  /**
   * Without such a line passwd is merged; and of group: if the jail's file has a line of two fields,
   * it is as it was; else it has the wanted lines of the system's file added, up to the first of two
   * fields with a name not asked for, which raises, while a group is still wanted.
   */
  lemma GroupOutcome(passwdJail: string, passwdSystem: string, users: seq<string>,
                     groupJail: Option<string>, groupSystem: string, groups: seq<string>)
      returns (i: nat, added: seq<string>)
    requires !HasLineOf(Copied(passwdJail, passwdSystem, users), 3)
    ensures var r := Merge(passwdJail, passwdSystem, users, groupJail, groupSystem, groups);
            && r.passwd == MergedPasswd(passwdJail, passwdSystem, users)
            && if HasLineOf(Lines(Text(groupJail)), 2) then r.raised && r.group == groupJail
               else r.group == Some(Text(groupJail) + Concat(added)) && (r.raised <==> i < |Lines(groupSystem)|)
    ensures var left := Prune(Requested(passwdJail, passwdSystem, users, groups), Lines(Text(groupJail)));
            !HasLineOf(Lines(Text(groupJail)), 2) ==>
              WrittenBefore(left, Lines(groupSystem), i, added) && (left == [] ==> i == |Lines(groupSystem)|)
  {
    var wanted := Prune(users, Lines(passwdJail));
    UsersOrRaises(wanted, Lines(passwdSystem));
    var asked := WithGroups(groups, UsersUntil(wanted, Lines(passwdSystem)).0);
    DropsOrRaises(asked, Lines(Text(groupJail)));
    var left := Prune(asked, Lines(Text(groupJail)));
    if left == [] {
      i, added := |Lines(groupSystem)|, [];
    } else {
      i := GroupsLeft(left, Lines(groupSystem));
      added := GroupsUntil(left, Lines(groupSystem)).0;
    }
  }

  /** Without such lines both files become their merged forms. */
  lemma MergesBoth(passwdJail: string, passwdSystem: string, users: seq<string>,
                   groupJail: Option<string>, groupSystem: string, groups: seq<string>)
    requires !HasLineOf(Copied(passwdJail, passwdSystem, users), 3)
    requires !HasLineOf(Lines(Text(groupJail)), 2) && !HasLineOf(Lines(groupSystem), 2)
    ensures Merge(passwdJail, passwdSystem, users, groupJail, groupSystem, groups) ==
            Outcome(MergedPasswd(passwdJail, passwdSystem, users),
                    Some(MergedGroup(Text(groupJail), groupSystem, Requested(passwdJail, passwdSystem, users, groups))),
                    false)
  {
    var wanted := Prune(users, Lines(passwdJail));
    UsersOrRaises(wanted, Lines(passwdSystem));
    var asked := WithGroups(groups, UsersUntil(wanted, Lines(passwdSystem)).0);
    DropsOrRaises(asked, Lines(Text(groupJail)));
    GroupsOrRaises(Prune(asked, Lines(Text(groupJail))), Lines(groupSystem));
    forall line | line in Lines(groupSystem) ensures |Fields(line)| != 2 {
      var i :| 0 <= i < |Lines(groupSystem)| && Lines(groupSystem)[i] == line;
    }
    NothingWanted(Prune(asked, Lines(Text(groupJail))), Lines(groupSystem));
  }

  lemma {:induction false} NobodyWanted(xs: seq<string>, ls: seq<string>)
    ensures xs == [] ==> UsersUntil(xs, ls) == ([], false)
    decreases ls
  {
    if ls != [] { NobodyWanted(xs, ls[1..]); }
  }

  lemma {:induction false} NothingWanted(xs: seq<string>, ls: seq<string>)
    ensures xs == [] ==> Pick(xs, ls) == []
    decreases ls
  {
    if ls != [] { NothingWanted(xs, ls[1..]); }
  }

  // ----- the merge as a whole -----

  /** The entries copied into a jail file. */
  function Copied(jail: string, system: string, xs: seq<string>): seq<string> {
    Pick(Prune(xs, Lines(jail)), Lines(system))
  }

  function MergedPasswd(jail: string, system: string, users: seq<string>): string {
    jail + Concat(Copied(jail, system, users))
  }

  /** The groups requested once the users are copied. */
  function Requested(jail: string, system: string, users: seq<string>, groups: seq<string>): seq<string> {
    WithGroups(groups, Copied(jail, system, users))
  }

  function MergedGroup(jail: string, system: string, groups: seq<string>): string {
    jail + Concat(Copied(jail, system, groups))
  }

  lemma ListedStep(ls: seq<string>, x: string)
    requires ls != []
    ensures Listed(ls, x) <==> HasId(ls[0], x) || Listed(ls[1..], x)
  {
    if Listed(ls, x) {
      var i :| 0 <= i < |ls| && HasId(ls[i], x);
      assert i > 0 ==> ls[1..][i - 1] == ls[i];
    }
    if Listed(ls[1..], x) {
      var i :| 0 <= i < |ls[1..]| && HasId(ls[1..][i], x);
      assert ls[i + 1] == ls[1..][i];
    }
  }

  /** How often the lines list x; an entry whose name and number are both x counts twice. */
  function Mentions(ls: seq<string>, x: string): nat {
    if ls == [] then 0 else MentionsIn(ls[0], x) + Mentions(ls[1..], x)
  }

  function MentionsIn(line: string, x: string): nat {
    var f := Fields(line);
    if |f| < 3 then 0 else (if f[0] == x then 1 else 0) + (if f[2] == x then 1 else 0)
  }

  function Excess(requested: nat, listed: nat): nat {
    if requested > listed then requested - listed else 0
  }

  lemma MultisetUncons(xs: seq<string>)
    requires xs != []
    ensures multiset(xs) == multiset{xs[0]} + multiset(xs[1..])
  {
    assert xs == [xs[0]] + xs[1..];
  }

  lemma {:induction false} RemoveCount(xs: seq<string>, x: string, y: string)
    ensures multiset(Remove(xs, x))[y] == Excess(multiset(xs)[y], if x == y then 1 else 0)
    decreases xs
  {
    if xs != [] {
      MultisetUncons(xs);
      if xs[0] != x {
        RemoveCount(xs[1..], x, y);
        MultisetUncons([xs[0]] + Remove(xs[1..], x));
        assert ([xs[0]] + Remove(xs[1..], x))[1..] == Remove(xs[1..], x);
      }
      if xs[0] != x && x == y { assert multiset(xs)[y] == multiset(xs[1..])[y]; }
    }
  }

  lemma PruneOneCount(xs: seq<string>, line: string, x: string)
    ensures multiset(PruneOne(xs, line))[x] == Excess(multiset(xs)[x], MentionsIn(line, x))
  {
    var f := Fields(line);
    if |f| >= 3 {
      RemoveCount(xs, f[0], x);
      RemoveCount(Remove(xs, f[0]), f[2], x);
    }
  }

  /** Each mention takes away one request: what is left of x is the excess of requests over mentions. */
  lemma {:induction false} PruneCount(xs: seq<string>, ls: seq<string>, x: string)
    ensures multiset(Prune(xs, ls))[x] == Excess(multiset(xs)[x], Mentions(ls, x))
    ensures x in Prune(xs, ls) <==> multiset(xs)[x] > Mentions(ls, x)
    decreases ls
  {
    if ls != [] {
      PruneOneCount(xs, ls[0], x);
      PruneCount(PruneOne(xs, ls[0]), ls[1..], x);
    }
    assert x in Prune(xs, ls) <==> multiset(Prune(xs, ls))[x] > 0;
  }

  lemma {:induction false} MentionedIfListed(ls: seq<string>, x: string)
    ensures Mentions(ls, x) > 0 <==> Listed(ls, x)
    decreases ls
  {
    if ls != [] {
      MentionedIfListed(ls[1..], x);
      ListedStep(ls, x);
    }
  }

  lemma {:induction false} MentionsAppend(a: seq<string>, b: seq<string>, x: string)
    ensures Mentions(a + b, x) == Mentions(a, x) + Mentions(b, x)
    decreases a
  {
    if a == [] {
      assert a + b == b;
    } else {
      Uncons(a, b);
      MentionsAppend(a[1..], b, x);
    }
  }

  lemma {:induction false} CountOfUnique(xs: seq<string>, x: string)
    requires Unique(xs)
    ensures multiset(xs)[x] <= 1
    decreases xs
  {
    if xs != [] {
      assert xs == [xs[0]] + xs[1..];
      CountOfUnique(xs[1..], x);
      assert xs[0] !in xs[1..];
    }
  }

  lemma {:induction false} UniqueIfCounted(xs: seq<string>)
    requires forall x :: multiset(xs)[x] <= 1
    ensures Unique(xs)
    decreases xs
  {
    if xs != [] {
      assert xs == [xs[0]] + xs[1..];
      forall x ensures multiset(xs[1..])[x] <= 1 { assert multiset(xs)[x] <= 1; }
      assert multiset(xs)[xs[0]] <= 1 && xs[0] !in xs[1..];
      UniqueIfCounted(xs[1..]);
    }
  }

  /** Without repeats, a request is left exactly when no line lists it. */
  lemma PruneExact(xs: seq<string>, ls: seq<string>)
    requires Unique(xs)
    ensures Unique(Prune(xs, ls)) && forall x :: x in Prune(xs, ls) <==> x in xs && !Listed(ls, x)
  {
    forall x ensures multiset(Prune(xs, ls))[x] <= 1 && (x in Prune(xs, ls) <==> x in xs && !Listed(ls, x)) {
      PruneCount(xs, ls, x);
      CountOfUnique(xs, x);
      MentionedIfListed(ls, x);
    }
    UniqueIfCounted(Prune(xs, ls));
  }

  /** Exactly the wanted lines are picked. */
  lemma {:induction false} PickExact(xs: seq<string>, ls: seq<string>)
    ensures forall line :: line in Pick(xs, ls) <==> line in ls && Wanted(line, xs)
    decreases ls
  {
    if ls != [] {
      PickExact(xs, ls[1..]);
      assert forall line :: line in ls <==> line == ls[0] || line in ls[1..];
    }
  }

  /** In their order, and each as often as it stands in the file. */
  lemma {:induction false} PickInOrder(xs: seq<string>, a: seq<string>, b: seq<string>)
    ensures Pick(xs, a + b) == Pick(xs, a) + Pick(xs, b)
    decreases a
  {
    if a == [] {
      assert a + b == b;
    } else {
      Uncons(a, b);
      PickInOrder(xs, a[1..], b);
      Associative(PickOne(xs, a[0]), Pick(xs, a[1..]), Pick(xs, b));
    }
  }

  /** The system lists x, and x is requested more often than the jail lists it. */
  ghost predicate Lacking(jail: string, system: string, xs: seq<string>, x: string) {
    x in xs && Listed(Lines(system), x) && multiset(xs)[x] > Mentions(Lines(jail), x)
  }

  /** Exactly when nothing is copied: no request is lacking. */
  lemma CopiesNothing(jail: string, system: string, xs: seq<string>)
    ensures Copied(jail, system, xs) == [] <==> forall x :: !Lacking(jail, system, xs, x)
  {
    var left := Prune(xs, Lines(jail));
    PickExact(left, Lines(system));
    if Copied(jail, system, xs) != [] {
      var line := Copied(jail, system, xs)[0];
      assert line in Copied(jail, system, xs);
      var i :| 0 <= i < |left| && HasId(line, left[i]);
      PruneCount(xs, Lines(jail), left[i]);
      ListedIn(Lines(system), left[i]);
      assert Lacking(jail, system, xs, left[i]);
    }
    if x :| Lacking(jail, system, xs, x) {
      PruneCount(xs, Lines(jail), x);
      ListedIn(Lines(system), x);
      var line :| line in Lines(system) && HasId(line, x);
      assert line in Copied(jail, system, xs);
    }
  }

  lemma ListedIn(ls: seq<string>, x: string)
    ensures Listed(ls, x) <==> exists line :: line in ls && HasId(line, x)
  {
  }

  lemma {:induction false} PickRows(xs: seq<string>, ls: seq<string>)
    requires Rows(ls)
    ensures Rows(Pick(xs, ls))
    decreases ls
  {
    if ls != [] {
      var rest := ls[1..];
      assert ls == [ls[0]] + rest;
      if rest == [] {
        PickOnly(xs, ls[0]);
        assert ls == [ls[0]] && Rows([ls[0]]);
      } else {
        assert ls[..|ls| - 1][0] == ls[0];
        RowsStep(ls[0], rest);
        PickRows(xs, rest);
        RowsStep(ls[0], Pick(xs, rest));
        assert [] + Pick(xs, rest) == Pick(xs, rest);
      }
    }
  }

  /** What is appended starts on a line of its own, or nothing is appended. */
  predicate Safe(jail: string, system: string, xs: seq<string>) {
    Terminated(jail) || Copied(jail, system, xs) == []
  }

  lemma CopiedAreRows(jail: string, system: string, xs: seq<string>)
    ensures Rows(Copied(jail, system, xs)) && (Terminated(jail) || Lines(jail) != [])
  {
    LinesAreRows(system);
    PickRows(Prune(xs, Lines(jail)), Lines(system));
  }

  /** The lines of the merged file, for any two files. */
  lemma MergedLines(jail: string, system: string, xs: seq<string>)
    ensures Terminated(jail) || Lines(jail) != []
    ensures var copied := Copied(jail, system, xs);
            Lines(jail + Concat(copied))
            == if Safe(jail, system, xs) then Lines(jail) + copied else Glued(Lines(jail), copied)
  {
    var copied := Copied(jail, system, xs);
    CopiedAreRows(jail, system, xs);
    if Terminated(jail) {
      AppendLines(jail, copied);
    } else if copied != [] {
      GluedLines(jail, copied);
    } else {
      assert jail + "" == jail && Lines(jail) + [] == Lines(jail);
    }
  }

  /** Files that end in a newline are merged into one that does, so that the next merge is safe too. */
  lemma MergedEnds(jail: string, system: string, xs: seq<string>)
    requires Terminated(jail) && Terminated(system)
    ensures Terminated(jail + Concat(Copied(jail, system, xs)))
  {
    var copied := Copied(jail, system, xs);
    CopiedAreRows(jail, system, xs);
    LinesAreRows(system);
    PickExact(Prune(xs, Lines(jail)), Lines(system));
    forall i | 0 <= i < |copied| ensures IsLine(copied[i]) {
      assert copied[i] in Lines(system);
    }
    AppendLines(jail, copied);
  }

  lemma GluedDiffers(were: seq<string>, copied: seq<string>)
    requires were != [] && copied != [] && copied[0] != ""
    ensures !(were <= Glued(were, copied))
  {
    var last := |were| - 1;
    var glued := were[last] + copied[0];
    assert |glued| > |were[last]|;
    assert Glued(were, copied)[last] == glued;
  }

  lemma KeptIfSafe(were: seq<string>, copied: seq<string>, merged: seq<string>, safe: bool)
    requires !safe ==> were != [] && copied != [] && copied[0] != ""
    requires merged == if safe then were + copied else Glued(were, copied)
    ensures were <= merged <==> safe
  {
    if safe {
      Extends(were, copied);
    } else {
      GluedDiffers(were, copied);
    }
  }

  lemma RowsNotEmpty(ls: seq<string>)
    requires Rows(ls) && ls != []
    ensures ls[0] != ""
  {
    if |ls| > 1 { assert ls[..|ls| - 1][0] == ls[0]; }
  }

  lemma FirstCopied(jail: string, system: string, xs: seq<string>)
    requires Copied(jail, system, xs) != []
    ensures Copied(jail, system, xs)[0] != ""
  {
    CopiedAreRows(jail, system, xs);
    RowsNotEmpty(Copied(jail, system, xs));
  }

  /** Exactly when the merge keeps every line the jail had. */
  lemma KeepsLines(jail: string, system: string, xs: seq<string>)
    ensures Lines(jail) <= Lines(jail + Concat(Copied(jail, system, xs))) <==> Safe(jail, system, xs)
  {
    var copied := Copied(jail, system, xs);
    var merged := Lines(jail + Concat(copied));
    MergedLines(jail, system, xs);
    if Safe(jail, system, xs) {
      KeptIfSafe(Lines(jail), copied, merged, true);
    } else {
      FirstCopied(jail, system, xs);
      KeptIfSafe(Lines(jail), copied, merged, false);
    }
  }

  lemma GluedOne(entry: string, line: string)
    ensures Glued([entry], [line]) == [entry + line]
  {
    assert [entry][..0] == [] && [line][1..] == [];
    assert [entry + line] + [] == [entry + line];
  }

  /** Joining two texts joins the last field of the first to the first field of the second. */
  lemma {:induction false} FieldsGlued(a: string, b: string)
    ensures Fields(a + b) == Glued(Fields(a), Fields(b))
    decreases a
  {
    var n := Cspn(a, [':']);
    ColonCut(a);
    if n == |a| {
      LastFieldGlued(a, b);
    } else {
      var w, r := a[..n], a[n + 1..];
      FieldsGlued(r, b);
      CutGlued(w, r, b);
      SplitFirst(w, ':', r);
      SplitFirst(w, ':', r + b);
      GluedBehind(w, Fields(r), Fields(b));
    }
  }

  lemma CutGlued(w: string, r: string, b: string)
    ensures w + ([':'] + r) + b == w + ([':'] + (r + b))
  {
  }

  lemma LastFieldGlued(a: string, b: string)
    requires ':' !in a
    ensures Fields(a + b) == Glued(Fields(a), Fields(b))
  {
    var m := Cspn(b, [':']);
    ColonCut(b);
    FieldsWithout(a);
    if m == |b| {
      FieldsWithout(a + b);
      FieldsWithout(b);
      GluedOne(a, b);
    } else {
      FirstFieldGlued(a, b[..m], b[m + 1..]);
    }
  }

  lemma ColonCut(s: string)
    ensures var m := Cspn(s, [':']);
            if m == |s| then ':' !in s else ':' !in s[..m] && s == s[..m] + ([':'] + s[m + 1..])
  {
    CutAt(s, Cspn(s, [':']), ':');
  }

  lemma CutAt(s: string, m: nat, c: char)
    requires m <= |s| && NoneIn(s[..m], [c]) && (m < |s| ==> s[m] in [c])
    ensures c !in s[..m] && (m == |s| ==> c !in s)
    ensures m < |s| ==> s[m] == c && s == s[..m] + ([c] + s[m + 1..])
  {
    if m == |s| { assert s[..m] == s; }
  }

  lemma FieldsWithout(s: string)
    requires ':' !in s
    ensures Fields(s) == [s]
  {
    SplitFirst(s, ':', "");
  }

  lemma FirstFieldGlued(a: string, w: string, r: string)
    requires ':' !in a && ':' !in w
    ensures Fields(a + (w + ([':'] + r))) == Glued([a], Fields(w + ([':'] + r)))
  {
    Associative(a, w, [':'] + r);
    SplitFirst(w, ':', r);
    SplitFirst(a + w, ':', r);
    GluedFirst(a, w, Fields(r));
  }

  lemma GluedFirst(a: string, w: string, fs: seq<string>)
    ensures Glued([a], [w] + fs) == [a + w] + fs
  {
    assert ([w] + fs)[1..] == fs && [a][..0] == [];
  }

  lemma GluedBehind(w: string, f: seq<string>, g: seq<string>)
    requires f != [] && g != []
    ensures [w] + Glued(f, g) == Glued([w] + f, g)
  {
    var all := [w] + f;
    assert all[..|all| - 1] == [w] + f[..|f| - 1] && all[|all| - 1] == f[|f| - 1];
    Associative([w], f[..|f| - 1], [f[|f| - 1] + g[0]] + g[1..]);
  }

  lemma OneCopied(entry: string, line: string, x: string)
    requires IsOpen(entry) && !HasId(entry, x)
    requires (IsLine(line) || IsOpen(line)) && HasId(line, x)
    ensures Copied(entry, line, [x]) == [line]
  {
    OneRow(entry);
    OneRow(line);
    if |Fields(entry)| >= 3 {
      RemoveAbsent([x], Fields(entry)[0]);
      RemoveAbsent([x], Fields(entry)[2]);
    }
    assert [entry][1..] == [] && Prune([x], [entry]) == PruneOne([x], entry) == [x];
    assert HasId(line, [x][0]) && [line][1..] == [] && Pick([x], []) == [];
    assert PickOne([x], line) + [] == [line];
  }

  lemma GluedId(entry: string, line: string, x: string)
    requires |Fields(entry)| > 3
    ensures HasId(entry + line, x) <==> HasId(entry, x)
  {
    FieldsGlued(entry, line);
    var f, g := Fields(entry), Fields(line);
    assert Glued(f, g)[0] == f[0] && Glued(f, g)[2] == f[2];
  }

  lemma ListedAlone(line: string, x: string)
    ensures Listed([line], x) <==> HasId(line, x)
  {
    if HasId(line, x) { assert HasId([line][0], x); }
  }

  /** Then neither entry is what it was, and a name asked for that the system lists need not end up listed. */
  lemma {:induction false} GluedEntryIsLost(entry: string, line: string, x: string)
    requires IsOpen(entry) && |Fields(entry)| > 3 && !HasId(entry, x)
    requires (IsLine(line) || IsOpen(line)) && HasId(line, x)
    ensures Lines(entry + Concat(Copied(entry, line, [x]))) == [entry + line] && !Listed([entry + line], x)
  {
    OneRow(entry);
    OneCopied(entry, line, x);
    MergedLines(entry, line, [x]);
    GluedOne(entry, line);
    GluedId(entry, line, x);
    ListedAlone(entry + line, x);
  }

  function Entry(name: string, password: string, id: string, more: string): string {
    name + ([':'] + (password + ([':'] + (id + ([':'] + more)))))
  }

  lemma FieldFirst(w: string, r: string, fs: seq<string>)
    requires ':' !in w && Fields(r) == fs
    ensures Fields(w + ([':'] + r)) == [w] + fs
  {
    SplitFirst(w, ':', r);
  }

  lemma Four<T>(a: T, b: T, c: T, d: T)
    ensures [a] + ([b] + ([c] + [d])) == [a, b, c, d]
  {
  }

  lemma EntryFields(name: string, password: string, id: string, more: string)
    requires ':' !in name && ':' !in password && ':' !in id && ':' !in more
    ensures Fields(Entry(name, password, id, more)) == [name, password, id, more]
  {
    var r := id + ([':'] + more);
    FieldsWithout(more);
    FieldFirst(id, more, [more]);
    FieldFirst(password, r, [id] + [more]);
    FieldFirst(name, password + ([':'] + r), [password] + ([id] + [more]));
    Four(name, password, id, more);
  }

  lemma EntryId(name: string, password: string, id: string, more: string, x: string)
    requires ':' !in name && ':' !in password && ':' !in id && ':' !in more
    ensures |Fields(Entry(name, password, id, more))| == 4
    ensures HasId(Entry(name, password, id, more), x) <==> name == x || id == x
    ensures '\n' !in name && '\n' !in password && '\n' !in id && '\n' !in more ==>
              IsOpen(Entry(name, password, id, more))
  {
    EntryFields(name, password, id, more);
  }

  /** Such an input: a's line without its newline, b requested and in the system. */
  lemma {:induction false} GluedInput()
    ensures var a, b := Entry("a", "x", "1", "1"), Entry("b", "x", "2", "2");
            && Listed(Lines(b), "b")
            && Lines(a + Concat(Copied(a, b, ["b"]))) == [a + b] && !Listed([a + b], "b")
  {
    var a, b := Entry("a", "x", "1", "1"), Entry("b", "x", "2", "2");
    EntryId("a", "x", "1", "1", "b");
    EntryId("b", "x", "2", "2", "b");
    OneRow(b);
    ListedAlone(b, "b");
    GluedEntryIsLost(a, b, "b");
  }

  /** Conservative and complete, whatever is requested and however often: old lines stay
      in front; what is added is a line of the system's file for a request the jail lists
      less often than it is made; and every request that the system's file lists ends up
      listed. */
  lemma {:induction false} MergeIsComplete(jail: string, system: string, xs: seq<string>)
    requires Safe(jail, system, xs)
    ensures var after := Lines(jail + Concat(Copied(jail, system, xs)));
            && Lines(jail) <= after
            && (forall line :: line in after[|Lines(jail)|..] <==>
                  line in Lines(system) && exists x :: HasId(line, x) && multiset(xs)[x] > Mentions(Lines(jail), x))
            && (forall x :: x in xs && Listed(Lines(system), x) ==> Listed(after, x))
  {
    var copied, left := Copied(jail, system, xs), Prune(xs, Lines(jail));
    var after := Lines(jail + Concat(copied));
    MergedLines(jail, system, xs);
    assert after[|Lines(jail)|..] == copied;
    PickExact(left, Lines(system));
    forall line ensures Wanted(line, left)
                        <==> exists x :: HasId(line, x) && multiset(xs)[x] > Mentions(Lines(jail), x) {
      WantedIfLeft(line, jail, xs);
    }
    forall x | x in xs && Listed(Lines(system), x) ensures Listed(after, x) {
      ListedIn(after, x);
      PruneCount(xs, Lines(jail), x);
      MentionedIfListed(Lines(jail), x);
      if Listed(Lines(jail), x) {
        ListedIn(Lines(jail), x);
        var line :| line in Lines(jail) && HasId(line, x);
        assert line in after;
      } else {
        ListedIn(Lines(system), x);
        var line :| line in Lines(system) && HasId(line, x);
        assert line in copied;
        assert line in after;
      }
    }
  }

  lemma WantedIfLeft(line: string, jail: string, xs: seq<string>)
    ensures Wanted(line, Prune(xs, Lines(jail)))
            <==> exists x :: HasId(line, x) && multiset(xs)[x] > Mentions(Lines(jail), x)
  {
    var left := Prune(xs, Lines(jail));
    if i :| 0 <= i < |left| && HasId(line, left[i]) {
      PruneCount(xs, Lines(jail), left[i]);
      assert left[i] in left;
    }
    if x :| HasId(line, x) && multiset(xs)[x] > Mentions(Lines(jail), x) {
      PruneCount(xs, Lines(jail), x);
      var i :| 0 <= i < |left| && left[i] == x;
    }
  }

  /** Without repeated requests, that is a request the jail does not list. */
  lemma LacksIfUnlisted(jail: string, xs: seq<string>, x: string)
    requires Unique(xs)
    ensures multiset(xs)[x] > Mentions(Lines(jail), x) <==> x in xs && !Listed(Lines(jail), x)
  {
    CountOfUnique(xs, x);
    MentionedIfListed(Lines(jail), x);
  }

  /** g stands in the fourth field of one of the copied lines. */
  ghost predicate PrimaryIn(picked: seq<string>, g: string) {
    exists line :: line in picked && |Fields(line)| > 3 && Fields(line)[3] == g
  }

  lemma PrimaryStep(picked: seq<string>, g: string)
    requires picked != []
    ensures PrimaryIn(picked, g)
            <==> (|Fields(picked[0])| > 3 && Fields(picked[0])[3] == g) || PrimaryIn(picked[1..], g)
  {
    assert forall line :: line in picked <==> line == picked[0] || line in picked[1..];
    assert picked[0] in picked;
  }

  /** How often a group is asked for, by name on the command line or as a copied user's primary group. */
  ghost function Asked(groups: seq<string>, picked: seq<string>, g: string): nat {
    if g in groups then multiset(groups)[g] else if PrimaryIn(picked, g) then 1 else 0
  }

  /** How often a group is requested once the users are copied: as often as it was asked for, or
      once if it was not and is some copied user's primary group, and not at all otherwise. */
  lemma {:induction false} GroupCount(groups: seq<string>, picked: seq<string>, g: string)
    ensures multiset(WithGroups(groups, picked))[g] == Asked(groups, picked, g)
    decreases picked
  {
    if picked != [] {
      GroupCount(WithGroup(groups, picked[0]), picked[1..], g);
      PrimaryStep(picked, g);
      OneGroup(groups, picked[0], g);
    }
  }

  lemma OneGroup(groups: seq<string>, line: string, g: string)
    ensures multiset(WithGroup(groups, line))[g] == Asked(groups, [line], g)
    ensures g in WithGroup(groups, line) <==> g in groups || (|Fields(line)| > 3 && Fields(line)[3] == g)
  {
    PrimaryStep([line], g);
    assert !PrimaryIn([line][1..], g);
  }

  /** The requests grow by exactly the primary groups of the copied users, none twice. */
  lemma {:induction false} GroupsJoin(groups: seq<string>, picked: seq<string>)
    ensures var after := WithGroups(groups, picked);
            && (Unique(groups) ==> Unique(after)) && groups <= after
            && (forall g :: g in after <==> g in groups || PrimaryIn(picked, g))
    decreases picked
  {
    if picked != [] {
      var next := WithGroup(groups, picked[0]);
      GroupsJoin(next, picked[1..]);
      forall g ensures g in WithGroups(groups, picked) <==> g in groups || PrimaryIn(picked, g) {
        PrimaryStep(picked, g);
        OneGroup(groups, picked[0], g);
      }
    }
  }

  /** Every copied user's primary group ends up in the jail's group file, if the
      system's group file has it. */
  lemma {:induction false} PrimaryGroupsFollow(passwdJail: string, passwdSystem: string,
      groupJail: string, groupSystem: string, users: seq<string>, groups: seq<string>)
    requires Safe(groupJail, groupSystem, Requested(passwdJail, passwdSystem, users, groups))
    ensures var requested := Requested(passwdJail, passwdSystem, users, groups);
            var after := Lines(MergedGroup(groupJail, groupSystem, requested));
            forall line | line in Copied(passwdJail, passwdSystem, users) && |Fields(line)| > 3 ::
              Listed(Lines(groupSystem), Fields(line)[3]) ==> Listed(after, Fields(line)[3])
  {
    GroupsJoin(groups, Copied(passwdJail, passwdSystem, users));
    MergeIsComplete(groupJail, groupSystem, Requested(passwdJail, passwdSystem, users, groups));
  }

  /** Exactly which lines join the jail's group file: those of the system whose name or number is
      asked for, in one of these two ways, more often than the jail mentions it. */
  lemma {:induction false} GroupLinesAdded(passwdJail: string, passwdSystem: string,
      groupJail: string, groupSystem: string, users: seq<string>, groups: seq<string>)
    requires Safe(groupJail, groupSystem, Requested(passwdJail, passwdSystem, users, groups))
    ensures var picked := Copied(passwdJail, passwdSystem, users);
            var after := Lines(MergedGroup(groupJail, groupSystem, Requested(passwdJail, passwdSystem, users, groups)));
            && Lines(groupJail) <= after
            && forall line :: line in after[|Lines(groupJail)|..] <==>
                 line in Lines(groupSystem)
                 && exists g :: HasId(line, g) && Asked(groups, picked, g) > Mentions(Lines(groupJail), g)
  {
    var picked := Copied(passwdJail, passwdSystem, users);
    forall g ensures multiset(Requested(passwdJail, passwdSystem, users, groups))[g] == Asked(groups, picked, g) {
      GroupCount(groups, picked, g);
    }
    MergeIsComplete(groupJail, groupSystem, Requested(passwdJail, passwdSystem, users, groups));
  }

  /** A file that was merged already needs nothing for any part of those requests. */
  lemma {:induction false} NothingLeft(jail: string, system: string, xs: seq<string>, ys: seq<string>)
    requires Safe(jail, system, xs) && Unique(ys)
    requires forall y :: y in ys ==> y in xs
    ensures Copied(jail + Concat(Copied(jail, system, xs)), system, ys) == []
  {
    var merged := jail + Concat(Copied(jail, system, xs));
    MergeIsComplete(jail, system, xs);
    forall y ensures !Lacking(merged, system, ys, y) {
      LacksIfUnlisted(merged, ys, y);
    }
    CopiesNothing(merged, system, ys);
  }

  /** Exactly when a second merge leaves a file alone: no request that the system lists is
      made more often than the jail's old lines and the copied ones together list it. */
  lemma {:induction false} SecondMergeExact(jail: string, system: string, xs: seq<string>)
    requires Safe(jail, system, xs)
    ensures var copied := Copied(jail, system, xs);
            var merged := MergedPasswd(jail, system, xs);
            MergedPasswd(merged, system, xs) == merged
            <==> forall x :: x in xs && Listed(Lines(system), x) ==>
                   multiset(xs)[x] <= Mentions(Lines(jail), x) + Mentions(copied, x)
  {
    var copied, merged := Copied(jail, system, xs), MergedPasswd(jail, system, xs);
    MergedLines(jail, system, xs);
    CopiesNothing(merged, system, xs);
    CopyGrows(merged, system, xs);
    forall x ensures Lacking(merged, system, xs, x) <==>
                     x in xs && Listed(Lines(system), x)
                     && multiset(xs)[x] > Mentions(Lines(jail), x) + Mentions(copied, x) {
      MentionsAppend(Lines(jail), copied, x);
    }
  }

  lemma CopyGrows(jail: string, system: string, xs: seq<string>)
    ensures MergedPasswd(jail, system, xs) == jail <==> Copied(jail, system, xs) == []
  {
    var copied := Copied(jail, system, xs);
    if copied == [] {
      assert jail + "" == jail;
    } else {
      FirstCopied(jail, system, xs);
    }
  }

  /** Idempotence: merging again, with the same requests, changes neither file. */
  lemma {:induction false} SecondMergeChangesNothing(passwdJail: string, passwdSystem: string,
      groupJail: string, groupSystem: string, users: seq<string>, groups: seq<string>)
    requires Safe(passwdJail, passwdSystem, users)
    requires Safe(groupJail, groupSystem, Requested(passwdJail, passwdSystem, users, groups))
    requires Unique(users) && Unique(groups)
    ensures var passwd := MergedPasswd(passwdJail, passwdSystem, users);
            var group := MergedGroup(groupJail, groupSystem, Requested(passwdJail, passwdSystem, users, groups));
            && MergedPasswd(passwd, passwdSystem, users) == passwd
            && MergedGroup(group, groupSystem, Requested(passwd, passwdSystem, users, groups)) == group
  {
    var passwd := MergedPasswd(passwdJail, passwdSystem, users);
    var requested := Requested(passwdJail, passwdSystem, users, groups);
    var group := MergedGroup(groupJail, groupSystem, requested);
    NothingLeft(passwdJail, passwdSystem, users, users);
    NothingToAdd(passwd, passwdSystem, users);
    GroupsJoin(groups, Copied(passwdJail, passwdSystem, users));
    NothingLeft(groupJail, groupSystem, requested, groups);
    NothingToAdd(group, groupSystem, groups);
    assert Requested(passwd, passwdSystem, users, groups) == groups;
  }

  lemma NothingToAdd(jail: string, system: string, xs: seq<string>)
    requires Copied(jail, system, xs) == []
    ensures MergedPasswd(jail, system, xs) == jail && MergedGroup(jail, system, xs) == jail
  {
    assert jail + "" == jail;
  }

  /** A name requested twice is not protected: once its line is in the jail, another
      merge drops one request and copies the line again for the other. */
  lemma {:induction false} RepeatedRequestCopiesAgain(line: string, x: string)
    requires IsLine(line) && HasId(line, x) && Fields(line)[0] != Fields(line)[2]
    ensures Copied("", line, [x, x]) == [line] && Copied(line, line, [x, x]) == [line]
  {
    LineFirst(line, "");
    assert line + "" == line && Lines(line) == [line] && [line][1..] == [];
    var f := Fields(line);
    assert multiset([x, x])[x] == 2 && Mentions([line], x) == 1;
    assert HasId([line][0], x) && Lines("") == [];
    assert Lacking("", line, [x, x], x) && Lacking(line, line, [x, x], x);
    CopiesNothing("", line, [x, x]);
    CopiesNothing(line, line, [x, x]);
    PickOnly(Prune([x, x], Lines("")), line);
    PickOnly(Prune([x, x], [line]), line);
  }

  lemma PickOnly(xs: seq<string>, line: string)
    ensures Pick(xs, [line]) == [] || Pick(xs, [line]) == [line]
  {
    assert [line][1..] == [] && PickOne(xs, line) + [] == PickOne(xs, line);
  }
}
