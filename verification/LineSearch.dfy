/** Searching a passwd file block by block, and the passwd entry lookup on top. */
module LineSearch {
  import opened CStrings
  import opened Seqs

  const BLOCKSIZE: nat := 1024

  // ----- what is searched for -----

  /** The lines of a text; the last one need not be terminated. */
  function Lines(t: string): seq<string>
    decreases t
  {
    if t == "" then []
    else
      var n := Cspn(t, "\n");
      if n == |t| then [t] else [t[..n]] + Lines(t[n + 1..])
  }

  function FieldOf(line: string, k: int): Option<string> {
    var fields := Split(line, ':');
    if 0 <= k < |fields| then Some(fields[k]) else None
  }

  /** The first line whose k-th field is x. */
  function FirstMatch(ls: seq<string>, x: string, k: int): Option<string> {
    if ls == [] then None
    else if FieldOf(ls[0], k) == Some(x) then Some(ls[0])
    else FirstMatch(ls[1..], x, k)
  }

  /** The lines the search gets to test: a line that fills the block is cut there, and the
      last one tested. */
  function Seen(t: string): seq<string>
    decreases t
  {
    if t == "" then []
    else
      var n := Cspn(t, "\n");
      if n >= BLOCKSIZE then [t[..BLOCKSIZE]]
      else if n == |t| then [t]
      else [t[..n]] + Seen(t[n + 1..])
  }

  /** Every line is shorter than the block; the last one may be as long. */
  predicate Fitting(ls: seq<string>) {
    ls != [] ==> if |ls| == 1 then |ls[0]| <= BLOCKSIZE else |ls[0]| < BLOCKSIZE && Fitting(ls[1..])
  }

  /** Exactly the files whose lines fit are searched line by line. */
  lemma {:induction false} SeenIsLines(t: string)
    ensures Seen(t) == Lines(t) <==> Fitting(Lines(t))
    decreases t
  {
    if t != "" {
      var n := Cspn(t, "\n");
      if n == |t| {
        OnlyLine(t);
      } else if n < BLOCKSIZE {
        SeenIsLines(t[n + 1..]);
        ShortFirst(t[..n], Lines(t[n + 1..]), Seen(t[n + 1..]));
      } else {
        LongFirst(t[..n], Lines(t[n + 1..]));
        assert t[..BLOCKSIZE] == t[..n][..BLOCKSIZE];
      }
    }
  }

  lemma ShortFirst(line: string, ls: seq<string>, seen: seq<string>)
    requires |line| < BLOCKSIZE
    ensures [line] + seen == [line] + ls <==> seen == ls
    ensures Fitting([line] + ls) <==> Fitting(ls)
  {
    assert ([line] + seen)[1..] == seen && ([line] + ls)[1..] == ls;
    if ls == [] { assert [line] + ls == [line]; }
  }

  lemma LongFirst(line: string, ls: seq<string>)
    requires |line| >= BLOCKSIZE
    ensures [line[..BLOCKSIZE]] == [line] + ls <==> Fitting([line] + ls)
  {
    assert |line| == BLOCKSIZE ==> line[..BLOCKSIZE] == line;
    assert ([line] + ls)[0] == line;
    if ls == [] { assert [line] + ls == [line]; }
  }

  lemma OnlyLine(t: string)
    ensures (if |t| >= BLOCKSIZE then [t[..BLOCKSIZE]] else [t]) == [t] <==> Fitting([t])
  {
    if |t| >= BLOCKSIZE { assert |t| == BLOCKSIZE ==> t[..BLOCKSIZE] == t; }
  }

  /** Of any other file, what is searched: the lines before the first that fills the block, and the
      first 1024 bytes of that one. */
  lemma {:induction false} SeenOfLong(t: string) returns (i: nat)
    ensures i <= |Lines(t)| && forall j :: 0 <= j < i ==> |Lines(t)[j]| < BLOCKSIZE
    ensures Seen(t) == if i < |Lines(t)| then Lines(t)[..i] + [CutLine(Lines(t)[i])] else Lines(t)
    ensures i < |Lines(t)| ==> |Lines(t)[i]| >= BLOCKSIZE
    decreases t
  {
    i := 0;
    if t != "" {
      var n := Cspn(t, "\n");
      if n >= BLOCKSIZE {
        assert t[..BLOCKSIZE] == t[..n][..BLOCKSIZE] && t[..|t|] == t;
        assert Lines(t)[..0] == [];
      } else if n < |t| {
        var k := SeenOfLong(t[n + 1..]);
        i := k + 1;
        LineInFront(t[..n], Lines(t[n + 1..]), k);
      } else {
        i := 1;
      }
    }
  }

  lemma LineInFront(line: string, ls: seq<string>, k: nat)
    requires k <= |ls|
    ensures ([line] + ls)[..k + 1] == [line] + ls[..k]
    ensures forall j :: 0 < j <= |ls| ==> ([line] + ls)[j] == ls[j - 1]
    ensures forall last: string :: [line] + ls[..k] + [last] == [line] + (ls[..k] + [last])
  {
  }

  function CutLine(line: string): string {
    if |line| > BLOCKSIZE then line[..BLOCKSIZE] else line
  }

  /** FirstMatch, read as a statement: the line found has the field and none before it has. */
  lemma {:induction false} FirstMatchIsFirst(ls: seq<string>, x: string, k: int)
    ensures match FirstMatch(ls, x, k)
            case None => forall i :: 0 <= i < |ls| ==> FieldOf(ls[i], k) != Some(x)
            case Some(line) => exists i :: 0 <= i < |ls| && ls[i] == line && FieldOf(ls[i], k) == Some(x)
                                 && forall j :: 0 <= j < i ==> FieldOf(ls[j], k) != Some(x)
    decreases ls
  {
    if ls != [] && FieldOf(ls[0], k) != Some(x) {
      FirstMatchIsFirst(ls[1..], x, k);
      assert forall i :: 0 < i < |ls| ==> ls[i] == ls[1..][i - 1];
      if line :| FirstMatch(ls, x, k) == Some(line) {
        var i :| 0 <= i < |ls[1..]| && ls[1..][i] == line && FieldOf(ls[1..][i], k) == Some(x)
                 && forall j :: 0 <= j < i ==> FieldOf(ls[1..][j], k) != Some(x);
        assert ls[i + 1] == line;
      }
    }
  }

  /** The text without the newline that ends it, if there is one. */
  function Chop(t: string): string {
    if t != "" && t[|t| - 1] == '\n' then t[..|t| - 1] else t
  }

  lemma ChopAppend(a: string, b: string)
    requires b != ""
    ensures Chop(a + b) == a + Chop(b)
  {
  }

  /** The lines together are the text, up to the newline that ends it. */
  lemma {:induction false} LinesJoin(t: string)
    ensures t != "" ==> Lines(t) != []
    ensures Join(Lines(t), "\n") == Chop(t)
    decreases t
  {
    if t != "" {
      var n := Cspn(t, "\n");
      if n == |t| {
        assert t[..n][n - 1] !in "\n";
      } else {
        var rest := t[n + 1..];
        assert t == t[..n + 1] + rest && t[..n + 1] == t[..n] + ['\n'];
        LinesJoin(rest);
        if rest == "" {
          assert Lines(t) == [t[..n]];
        } else {
          assert Lines(t)[1..] == Lines(rest);
          ChopAppend(t[..n + 1], rest);
        }
      }
    }
  }

  // ----- one field of one line -----

  /** The scan stands at pos inside field fcount, which starts at fstart. */
  ghost predicate InField(line: string, fcount: nat, fstart: nat, pos: nat) {
    && fstart <= pos <= |line|
    && (forall i :: fstart <= i < pos ==> line[i] != ':')
    && fcount < |Split(line, ':')| && Split(line, ':')[fcount..] == Split(line[fstart..], ':')
  }

  method FieldFromLine(line: string, field: int) returns (r: Option<string>)
    requires NulFree(line)
    ensures r == FieldOf(line, field)
  {
    var pos, fcount, fstart := 0, 0, 0;
    assert line[0..] == line;
    while true
      invariant InField(line, fcount, fstart, pos) && !(0 <= field < fcount)
      decreases |line| - pos
    {
      var c := At(line, pos);
      if c == ':' {
        FieldStep(line, fcount, fstart, pos);
        if field == fcount {
          return Some(line[fstart..pos]);
        } else {
          fcount := fcount + 1;
          fstart := pos + 1;
        }
      } else if c == NUL {
        FieldStep(line, fcount, fstart, pos);
        if fcount == field {
          return Some(line[fstart..pos]);
        }
        return None;
      }
      pos := pos + 1;
    }
  }

  lemma NextField(fields: seq<string>, k: nat, head: string, tail: seq<string>)
    requires k < |fields| && (fields[k..] == [head] + tail || (tail == [] && fields[k..] == [head]))
    ensures fields[k] == head && fields[k + 1..] == tail && |fields| == k + 1 + |tail|
  {
    assert fields[k..][0] == head && fields[k..][1..] == tail;
  }

  /** The field that starts at fstart ends at the first colon or at the end. */
  lemma FieldEnds(line: string, fstart: nat, pos: nat)
    requires fstart <= pos <= |line| && (forall i :: fstart <= i < pos ==> line[i] != ':')
    requires pos == |line| || line[pos] == ':'
    ensures Split(line[fstart..], ':') ==
            if pos == |line| then [line[fstart..pos]] else [line[fstart..pos]] + Split(line[pos + 1..], ':')
  {
    Cut(line, fstart, pos);
    SplitFirst(line[fstart..pos], ':', if pos < |line| then line[pos + 1..] else "");
  }

  /** At the end of field fcount of the line. */
  lemma FieldStep(line: string, fcount: nat, fstart: nat, pos: nat)
    requires InField(line, fcount, fstart, pos) && (pos == |line| || line[pos] == ':')
    ensures Split(line, ':')[fcount] == line[fstart..pos]
    ensures if pos == |line| then |Split(line, ':')| == fcount + 1 else InField(line, fcount + 1, pos + 1, pos + 1)
  {
    FieldEnds(line, fstart, pos);
    if pos == |line| {
      NextField(Split(line, ':'), fcount, line[fstart..pos], []);
    } else {
      NextField(Split(line, ':'), fcount, line[fstart..pos], Split(line[pos + 1..], ':'));
    }
  }

  // ----- the blockwise search -----

  class File {
    const content: string
    var pos: nat

    constructor (content: string)
      ensures this.content == content && pos == 0
    {
      this.content, pos := content, 0;
    }

    ghost function Unread(): string
      requires pos <= |content|
      reads this
    {
      content[pos..]
    }

    /** fread delivers any positive number of the bytes asked for, or 0 at the end
        of the file (and when asked for none). */
    method Fread(buf: array<char>, at: nat, n: nat) returns (num: nat)
      requires pos <= |content| && at + n <= buf.Length
      modifies this`pos, buf
      ensures num <= n && pos == old(pos) + num <= |content|
      ensures num == 0 <==> n == 0 || old(pos) == |content|
      ensures buf[at..at + num] == content[old(pos)..pos]
      ensures forall i :: 0 <= i < at || at + num <= i < buf.Length ==> buf[i] == old(buf[i])
    {
      var left := |content| - pos;
      var most := if n < left then n else left;
      num := 0;
      if most > 0 {
        var k :| 1 <= k <= most;
        num := k;
      }
      var start := pos;
      forall i | 0 <= i < num {
        buf[at + i] := content[start + i];
      }
      pos := pos + num;
    }
  }

  predicate NoNewline(s: string) {
    forall i :: 0 <= i < |s| ==> s[i] != '\n'
  }

  /** strchr(p, '\n'): the first newline before the terminator at fill, or None. */
  method FindNewline(buf: array<char>, prev: nat, ghost fill: nat) returns (next: Option<nat>)
    requires prev <= fill < buf.Length && buf[fill] == NUL && forall i :: prev <= i < fill ==> buf[i] != NUL
    ensures match next
            case None => NoNewline(buf[prev..fill])
            case Some(k) => prev <= k < fill && buf[k] == '\n' && NoNewline(buf[prev..k])
  {
    var k := prev;
    while buf[k] != NUL && buf[k] != '\n'
      invariant prev <= k <= fill
      invariant forall i :: prev <= i < k ==> buf[i] != '\n'
      decreases fill - k
    {
      k := k + 1;
    }
    return if buf[k] == NUL then None else Some(k);
  }

  /** The line that starts at prev and ends at the terminator. */
  method LineAt(buf: array<char>, prev: nat, ghost end: nat) returns (line: string)
    requires prev <= end < buf.Length && buf[end] == NUL && forall i :: prev <= i < end ==> buf[i] != NUL
    ensures line == buf[prev..end]
  {
    var k := prev;
    while buf[k] != NUL
      invariant prev <= k <= end
      decreases end - k
    {
      k := k + 1;
    }
    line := buf[prev..k];
  }

  // ----- how the text still to be searched shrinks -----

  /** Searching t gives the answer. */
  predicate Leads(t: string, fcont: string, fnum: int, goal: Option<string>) {
    FirstMatch(Seen(t), fcont, fnum) == goal
  }

  lemma SeenStep(line: string, rest: string)
    requires NoNewline(line) && |line| < BLOCKSIZE
    ensures Seen(line + ['\n'] + rest) == [line] + Seen(rest)
  {
    var t := line + ['\n'] + rest;
    CspnIs(t, "\n", |line|);
    assert t[..|line|] == line && t[|line| + 1..] == rest;
  }

  /** The last line, or a line that fills the block. */
  lemma SeenLast(line: string, rest: string)
    requires line != "" && NoNewline(line) && |line| <= BLOCKSIZE && (rest == "" || |line| == BLOCKSIZE)
    ensures Seen(line + rest) == [line]
  {
    var t := line + rest;
    if rest == "" {
      assert t == line;
      CspnIs(t, "\n", |t|);
      assert t[..|t|] == t;
    } else {
      var n := Cspn(t, "\n");
      assert forall i :: 0 <= i < |line| ==> t[i] == line[i];
      assert t[..BLOCKSIZE] == line;
    }
  }

  lemma LeadsOn(line: string, rest: string, fcont: string, fnum: int, goal: Option<string>)
    requires NoNewline(line) && |line| < BLOCKSIZE && Leads(line + ['\n'] + rest, fcont, fnum, goal)
    ensures if FieldOf(line, fnum) == Some(fcont) then goal == Some(line) else Leads(rest, fcont, fnum, goal)
  {
    SeenStep(line, rest);
    var ls := [line] + Seen(rest);
    assert ls[1..] == Seen(rest);
  }

  lemma LeadsLast(line: string, rest: string, fcont: string, fnum: int, goal: Option<string>)
    requires line != "" && NoNewline(line) && |line| <= BLOCKSIZE && (rest == "" || |line| == BLOCKSIZE)
    requires Leads(line + rest, fcont, fnum, goal)
    ensures goal == if FieldOf(line, fnum) == Some(fcont) then Some(line) else None
  {
    SeenLast(line, rest);
    var ls := [line];
    assert ls[1..] == [] && FirstMatch(ls[1..], fcont, fnum) == None;
  }

  /** Unread bytes from prev to the terminator at fill. */
  ghost predicate Buffered(buf: array<char>, prev: nat, fill: nat)
    reads buf
  {
    prev <= fill <= BLOCKSIZE < buf.Length && buf[fill] == NUL && forall i :: prev <= i < fill ==> buf[i] != NUL
  }

  /** The line from prev to the newline at next, which is a terminator meanwhile. */
  method LineBefore(buf: array<char>, prev: nat, next: nat, ghost fill: nat) returns (line: string)
    requires Buffered(buf, prev, fill) && prev <= next < fill && buf[next] == '\n'
    modifies buf
    ensures buf[..] == old(buf[..]) && line == buf[prev..next]
  {
    buf[next] := NUL;
    line := LineAt(buf, prev, next);
    buf[next] := '\n';
  }

  lemma Glue(part: string, content: string, from: nat, to: nat)
    requires from <= to <= |content| && NulFree(part) && NulFree(content)
    ensures part + content[from..] == (part + content[from..to]) + content[to..]
    ensures NulFree(part + content[from..to])
  {
  }

  /** memmove. */
  method MoveToFront(buf: array<char>, prev: nat, fill: nat)
    requires prev <= fill <= buf.Length
    modifies buf
    ensures buf[0..fill - prev] == old(buf[prev..fill])
  {
    forall i | 0 <= i < fill - prev {
      buf[i] := buf[prev + i];
    }
  }

  /** Moves the unfinished line to the front of the buffer and reads on behind it. */
  method Refill(fp: File, buf: array<char>, prev: nat, fill: nat) returns (num: nat, restlen: nat)
    requires fp.pos <= |fp.content| && NulFree(fp.content)
    requires Buffered(buf, prev, fill)
    modifies fp`pos, buf
    ensures old(fp.pos) <= fp.pos <= |fp.content| && restlen == fill - prev + num
    ensures Buffered(buf, 0, restlen)
    ensures buf[0..restlen] + fp.Unread() == old(buf[prev..fill] + fp.Unread())
    ensures if num == 0 then buf[0..restlen] == old(buf[prev..fill]) && (fp.pos == |fp.content| || restlen == BLOCKSIZE)
            else old(fp.pos) < fp.pos
  {
    ghost var part, from := buf[prev..fill], fp.pos;
    restlen := fill - prev;
    MoveToFront(buf, prev, fill);
    num := fp.Fread(buf, restlen, BLOCKSIZE - restlen);
    ghost var whole := part + fp.content[from..fp.pos];
    assert buf[0..restlen + num] == whole;
    restlen := restlen + num;
    buf[restlen] := NUL;
    assert buf[0..restlen] == whole;
    Glue(part, fp.content, from, fp.pos);
    assert forall i :: 0 <= i < restlen ==> buf[i] == whole[i];
  }

  /** The state of the search: num bytes came with the last read, and the lines not
      tested yet (in the buffer from prev to restlen, then in the file) give the answer. */
  ghost predicate Searching(fp: File, buf: array<char>, num: nat, restlen: nat, prev: nat,
                            fcont: string, fnum: int, goal: Option<string>)
    reads fp, buf
  {
    && fp.pos <= |fp.content|
    && (if num == 0 && restlen == 0 then goal == None else
          && Buffered(buf, prev, restlen)
          && Leads(buf[prev..restlen] + fp.Unread(), fcont, fnum, goal)
          && (num == 0 ==> prev < restlen && NoNewline(buf[prev..restlen])
                           && (fp.pos == |fp.content| || restlen - prev == BLOCKSIZE)))
  }

  /** The first block, read into a buffer of zeros. */
  method FirstRead(fp: File, buf: array<char>, ghost fcont: string, ghost fnum: int) returns (num: nat)
    requires fp.pos == 0 && NulFree(fp.content)
    requires buf.Length == BLOCKSIZE + 1 && forall i :: 0 <= i < buf.Length ==> buf[i] == NUL
    modifies fp`pos, buf
    ensures Searching(fp, buf, num, num, 0, fcont, fnum, FirstMatch(Seen(fp.content), fcont, fnum))
  {
    num := fp.Fread(buf, 0, BLOCKSIZE);
    assert buf[0..num] + fp.Unread() == fp.content;
    assert forall i :: 0 <= i < num ==> buf[i] == buf[0..num][i] == fp.content[i];
  }

  lemma AtNewline(a: seq<char>, prev: nat, next: nat, end: nat, more: string)
    requires prev <= next < end <= |a| && a[next] == '\n'
    ensures a[prev..end] + more == a[prev..next] + ['\n'] + (a[next + 1..end] + more)
  {
  }

  /** Tests one terminated line; the search goes on behind its newline. */
  method TryLine(fp: File, buf: array<char>, ghost num: nat, ghost restlen: nat, prev: nat, next: nat,
                 fcont: string, fnum: int, ghost goal: Option<string>) returns (found: Option<string>)
    requires num != 0 && Searching(fp, buf, num, restlen, prev, fcont, fnum, goal)
    requires prev <= next < restlen && buf[next] == '\n' && NoNewline(buf[prev..next])
    modifies buf
    ensures if found.Some? then found == goal else Searching(fp, buf, num, restlen, next + 1, fcont, fnum, goal)
  {
    var line := LineBefore(buf, prev, next, restlen);
    ghost var rest := buf[next + 1..restlen] + fp.Unread();
    AtNewline(buf[..], prev, next, restlen, fp.Unread());
    LeadsOn(line, rest, fcont, fnum, goal);
    assert NulFree(line);
    var field := FieldFromLine(line, fnum);
    found := if field == Some(fcont) then Some(line) else None;
  }

  /** Tests the line left in the buffer when the last read gave nothing: the unterminated
      last line, or a line that fills the buffer. */
  method TryLast(fp: File, buf: array<char>, ghost restlen: nat, prev: nat,
                 fcont: string, fnum: int, ghost goal: Option<string>) returns (found: Option<string>)
    requires restlen != 0 && Searching(fp, buf, 0, restlen, prev, fcont, fnum, goal)
    ensures found == goal
  {
    var line := LineAt(buf, prev, restlen);
    LeadsLast(line, fp.Unread(), fcont, fnum, goal);
    assert NulFree(line);
    var field := FieldFromLine(line, fnum);
    found := if field == Some(fcont) then Some(line) else None;
  }

  /** No complete line is left in the buffer: reads on. */
  method ReadOn(fp: File, buf: array<char>, ghost num0: nat, fill: nat, prev: nat,
                ghost fcont: string, ghost fnum: int, ghost goal: Option<string>) returns (num: nat, restlen: nat)
    requires num0 != 0 && Searching(fp, buf, num0, fill, prev, fcont, fnum, goal) && NulFree(fp.content)
    requires NoNewline(buf[prev..fill])
    modifies fp`pos, buf
    ensures Searching(fp, buf, num, restlen, 0, fcont, fnum, goal)
    ensures old(fp.pos) <= fp.pos && (num != 0 ==> old(fp.pos) < fp.pos)
  {
    ghost var part := buf[prev..fill];
    num, restlen := Refill(fp, buf, prev, fill);
    if num == 0 {
      assert buf[0..restlen] == part;
      if restlen == 0 {
        assert part + "" == "";
      }
    }
  }

  /** A newline in the buffer shows that the last read was not the empty one. */
  lemma MoreToRead(fp: File, buf: array<char>, num: nat, restlen: nat, prev: nat, next: nat,
                   fcont: string, fnum: int, goal: Option<string>)
    requires Searching(fp, buf, num, restlen, prev, fcont, fnum, goal) && (num != 0 || restlen != 0)
    requires prev <= next < restlen && buf[next] == '\n'
    ensures num != 0
  {
    assert buf[prev..restlen][next - prev] == '\n';
  }

  /** One turn of the search loop: test a line, or the last one, or read on. */
  method Turn(fp: File, buf: array<char>, num0: nat, restlen0: nat, prev0: nat,
              fcont: string, fnum: int, ghost goal: Option<string>)
    returns (found: Option<string>, num: nat, restlen: nat, prev: nat)
    requires Searching(fp, buf, num0, restlen0, prev0, fcont, fnum, goal) && NulFree(fp.content)
    requires num0 != 0 || restlen0 != 0
    modifies fp`pos, buf
    ensures if found.Some? then found == goal else Searching(fp, buf, num, restlen, prev, fcont, fnum, goal)
    ensures found.Some? || fp.pos > old(fp.pos)
            || (fp.pos == old(fp.pos) && num0 != 0 == num)
            || (fp.pos == old(fp.pos) && num == num0 && restlen0 != 0 == restlen)
            || (fp.pos == old(fp.pos) && num == num0 && restlen == restlen0 && prev0 < prev)
  {
    var next := FindNewline(buf, prev0, restlen0);
    if next.Some? {
      MoreToRead(fp, buf, num0, restlen0, prev0, next.value, fcont, fnum, goal);
      found := TryLine(fp, buf, num0, restlen0, prev0, next.value, fcont, fnum, goal);
      return found, num0, restlen0, next.value + 1;
    } else if num0 == 0 {
      found := TryLast(fp, buf, restlen0, prev0, fcont, fnum, goal);
      return found, 0, 0, prev0;
    } else {
      num, restlen := ReadOn(fp, buf, num0, restlen0, prev0, fcont, fnum, goal);
      return None, num, restlen, 0;
    }
  }

  method FindLine(fp: File, fcont: string, fnum: int) returns (retline: Option<string>)
    requires fp.pos == 0 && NulFree(fp.content)
    modifies fp
    ensures retline == FirstMatch(Seen(fp.content), fcont, fnum)
  {
    ghost var goal := FirstMatch(Seen(fp.content), fcont, fnum);
    var buf := new char[BLOCKSIZE + 1](_ => NUL);
    var num := FirstRead(fp, buf, fcont, fnum);
    var restlen: nat, prev: nat := num, 0;
    while num != 0 || restlen != 0
      invariant fresh(buf) && Searching(fp, buf, num, restlen, prev, fcont, fnum, goal)
      decreases |fp.content| - fp.pos, num != 0, restlen != 0, restlen - prev
    {
      retline, num, restlen, prev := Turn(fp, buf, num, restlen, prev, fcont, fnum, goal);
      if retline.Some? {
        return;
      }
    }
    return None;
  }

  // ----- looking up a user -----

  datatype Passwd = Passwd(name: string, uid: nat, gid: int, dir: string, shell: string)

  const UID_LIMIT: nat := 0x1_0000_0000

  /** The conversion (int)uid. */
  function AsInt(uid: nat): int {
    if uid < 0x8000_0000 then uid else uid - UID_LIMIT
  }

  /** snprintf("%d") into 10 bytes: at most 9 characters and the terminator. */
  function Key(uid: nat): string {
    var text := IntText(AsInt(uid));
    if |text| < 10 then text else text[..9]
  }

  /** atoi: white space, a sign, digits; anything else reads as 0. */
  function Atoi(s: string): int {
    if s == "" then 0
    else if IsSpace(s[0]) then Atoi(s[1..])
    else if s[0] == '-' then 0 - LeadingNumber(0, s[1..])
    else if s[0] == '+' then LeadingNumber(0, s[1..])
    else LeadingNumber(0, s)
  }

  function LeadingNumber(acc: nat, s: string): nat
    decreases s
  {
    if s == "" || !IsDigit(s[0]) then acc else LeadingNumber(acc * 10 + DigitOf(s[0]), s[1..])
  }

  function IntFieldOf(line: string, k: int): int {
    match FieldOf(line, k)
    case None => -1
    case Some(s) => Atoi(s)
  }

  predicate Given(field: Option<string>) {
    field.Some? && field.value != ""
  }

  /** The entry a line describes; name, directory and shell must be given and the
      group must be a number other than -1. */
  function EntryOf(line: string, uid: nat): Option<Passwd> {
    var name, gid, dir, shell := FieldOf(line, 0), IntFieldOf(line, 3), FieldOf(line, 5), FieldOf(line, 6);
    if Given(name) && gid != -1 && Given(dir) && Given(shell) then
      Some(Passwd(name.value, uid, gid, dir.value, shell.value))
    else None
  }

  /** What the search for a uid comes to. */
  function Lookup(content: string, uid: nat): Option<Passwd> {
    match FirstMatch(Seen(content), Key(uid), 2)
    case None => None
    case Some(line) => EntryOf(line, uid)
  }

  method IntFieldFromLine(line: string, field: int) returns (r: int)
    requires NulFree(line)
    ensures r == IntFieldOf(line, field)
  {
    var tmp := FieldFromLine(line, field);
    if tmp.Some? {
      return Atoi(tmp.value);
    }
    return -1;
  }

  lemma {:induction false} SeenNulFree(t: string)
    requires NulFree(t)
    ensures forall i :: 0 <= i < |Seen(t)| ==> NulFree(Seen(t)[i])
    decreases t
  {
    if t != "" {
      var n := Cspn(t, "\n");
      if n < |t| {
        SeenNulFree(t[n + 1..]);
      }
    }
  }

  method InternalGetpwuid(fp: File, uid: nat) returns (r: Option<Passwd>)
    requires fp.pos == 0 && NulFree(fp.content) && uid < UID_LIMIT
    modifies fp
    ensures r == Lookup(fp.content, uid)
  {
    var line := FindLine(fp, Key(uid), 2);
    if line == None {
      return None;
    }
    SeenNulFree(fp.content);
    FirstMatchIsFirst(Seen(fp.content), Key(uid), 2);
    var name := FieldFromLine(line.value, 0);
    var gid := IntFieldFromLine(line.value, 3);
    var dir := FieldFromLine(line.value, 5);
    var shell := FieldFromLine(line.value, 6);
    if name == None || gid == -1 || shell == None || dir == None
       || |name.value| < 1 || |dir.value| < 1 || |shell.value| < 1 {
      return None;
    }
    return Some(Passwd(name.value, uid, gid, dir.value, shell.value));
  }

  /** The 10-byte buffer holds exactly the uids below 10^9: a larger one is looked
      up by its first nine digits, or as a negative number, and so never as itself. */
  lemma {:induction false} KeyIsExact(uid: nat)
    requires uid < UID_LIMIT
    ensures Key(uid) == Decimal(uid) <==> uid < 1_000_000_000
  {
    assert Pow10(9) == 1_000_000_000;
    DecimalLength(uid, 9);
    assert uid >= 0x8000_0000 ==> Key(uid)[0] == '-' && Decimal(uid)[0] != '-';
  }

  lemma DropDigit(n: nat)
    requires n >= 10
    ensures |Decimal(n)| == |Decimal(n / 10)| + 1 && Decimal(n)[..|Decimal(n)| - 1] == Decimal(n / 10)
  {
  }

  /** The key in every case: the uid in full, its first nine digits, or, of a uid that is negative
      as an int, the sign and at most eight digits. */
  lemma KeyOfAnyUid(uid: nat)
    requires uid < UID_LIMIT
    ensures var n := UID_LIMIT - uid;
            Key(uid) == if uid < 1_000_000_000 then Decimal(uid)
                        else if uid < 0x8000_0000 then Decimal(uid / 10)
                        else if n < 100_000_000 then "-" + Decimal(n)
                        else if n < 1_000_000_000 then "-" + Decimal(n / 10)
                        else "-" + Decimal(n / 100)
  {
    var n := UID_LIMIT - uid;
    var v := if uid < 0x8000_0000 then uid else n;
    assert Pow10(8) == 100_000_000 && Pow10(9) == 1_000_000_000 && Pow10(10) == 10_000_000_000;
    DecimalLength(v, 8);
    DecimalLength(v, 9);
    DecimalLength(v, 10);
    if uid < 0x8000_0000 {
      if uid >= 1_000_000_000 { DropDigit(uid); }
    } else if n >= 100_000_000 {
      assert ("-" + Decimal(n))[..9] == "-" + Decimal(n)[..8];
      DropDigit(n);
      DropDigit(n / 10);
      assert n / 10 / 10 == n / 100;
      assert Decimal(n)[..8] == Decimal(n / 10)[..8];
    }
  }

  // ----- entries as they are written -----

  predicate AllSpace(s: string) {
    forall i :: 0 <= i < |s| ==> IsSpace(s[i])
  }

  lemma {:induction false} LeadingDigits(acc: nat, ds: string, rest: string)
    requires AllDigits(ds) && (rest != "" ==> !IsDigit(rest[0]))
    ensures LeadingNumber(acc, ds + rest) == Horner(acc, ds)
    decreases ds
  {
    if ds == "" {
      assert ds + rest == rest;
    } else {
      assert (ds + rest)[1..] == ds[1..] + rest;
      LeadingDigits(acc * 10 + DigitOf(ds[0]), ds[1..], rest);
    }
  }

  /** atoi, on white space, an optional sign, digits and anything that is none: the number. */
  lemma {:induction false} AtoiReads(ws: string, sign: string, ds: string, rest: string)
    requires AllSpace(ws) && sign in ["", "+", "-"] && AllDigits(ds) && (rest != "" ==> !IsDigit(rest[0]))
    requires sign == "" && ds == "" && rest != "" ==> !IsSpace(rest[0]) && rest[0] != '+' && rest[0] != '-'
    ensures Atoi(ws + sign + ds + rest) == if sign == "-" then 0 - Horner(0, ds) else Horner(0, ds)
    decreases ws
  {
    if ws == "" {
      LeadingDigits(0, ds, rest);
      assert ws + sign + ds + rest == sign + (ds + rest);
      if sign == "" {
        assert sign + (ds + rest) == ds + rest;
      } else {
        assert (sign + (ds + rest))[0] == sign[0] && (sign + (ds + rest))[1..] == ds + rest;
      }
    } else {
      var s := ws + sign + ds + rest;
      assert s[0] == ws[0] && s[1..] == ws[1..] + sign + ds + rest;
      AtoiReads(ws[1..], sign, ds, rest);
    }
  }

  lemma AtoiPrinted(g: int)
    ensures Atoi(IntText(g)) == g
  {
    var n: nat := if g < 0 then 0 - g else g;
    var sign := if g < 0 then "-" else "";
    HornerDecimal(n);
    AtoiReads("", sign, Decimal(n), "");
    assert "" + sign + Decimal(n) + "" == IntText(g);
  }

  /** The entry of a line written as fields: the first, the fourth as a number, the sixth and the
      seventh of them; none if one of these is missing, empty, or the number -1. */
  lemma EntryWritten(fs: seq<string>, uid: nat)
    requires fs != [] && forall i :: 0 <= i < |fs| ==> ':' !in fs[i]
    ensures EntryOf(Join(fs, ":"), uid)
            == if |fs| >= 7 && fs[0] != "" && Atoi(fs[3]) != -1 && fs[5] != "" && fs[6] != ""
               then Some(Passwd(fs[0], uid, Atoi(fs[3]), fs[5], fs[6]))
               else None
  {
    SplitOfJoin(fs, ':');
  }

  lemma {:induction false} FirstMatchAt(ls: seq<string>, x: string, k: int, i: nat)
    requires i < |ls| && FieldOf(ls[i], k) == Some(x) && forall j :: 0 <= j < i ==> FieldOf(ls[j], k) != Some(x)
    ensures FirstMatch(ls, x, k) == Some(ls[i])
    decreases i
  {
    if i > 0 {
      forall j | 0 <= j < i - 1 ensures FieldOf(ls[1..][j], k) != Some(x) { assert ls[1..][j] == ls[j + 1]; }
      FirstMatchAt(ls[1..], x, k, i - 1);
    }
  }

  /** No line before i has the text as its third field. */
  predicate NoneBefore(ls: seq<string>, i: nat, text: string)
    requires i <= |ls|
  {
    forall j :: 0 <= j < i ==> |Split(ls[j], ':')| > 2 ==> Split(ls[j], ':')[2] != text
  }

  /**
   * The lookup end to end, for a file whose lines fit: if the first line with the uid as its third
   * field is made of these seven fields, the answer is exactly the entry they describe.
   */
  lemma {:induction false} EntryFound(content: string, i: nat, fs: seq<string>, uid: nat, g: int)
    requires uid < 1_000_000_000 && Fitting(Lines(content)) && i < |Lines(content)|
    requires |fs| == 7 && (forall k :: 0 <= k < 7 ==> ':' !in fs[k]) && Lines(content)[i] == Join(fs, ":")
    requires fs[2] == Decimal(uid) && fs[3] == IntText(g) && g != -1
    requires fs[0] != "" && fs[5] != "" && fs[6] != ""
    requires NoneBefore(Lines(content), i, Decimal(uid))
    ensures Lookup(content, uid) == Some(Passwd(fs[0], uid, g, fs[5], fs[6]))
  {
    SeenIsLines(content);
    KeyIsExact(uid);
    SplitOfJoin(fs, ':');
    FirstMatchAt(Lines(content), Key(uid), 2, i);
    AtoiPrinted(g);
    EntryWritten(fs, uid);
  }

  /** And without such a line there is no answer. */
  lemma {:induction false} EntryMissing(content: string, uid: nat)
    requires uid < 1_000_000_000 && Fitting(Lines(content))
    requires NoneBefore(Lines(content), |Lines(content)|, Decimal(uid))
    ensures Lookup(content, uid) == None
  {
    SeenIsLines(content);
    KeyIsExact(uid);
    FirstMatchIsFirst(Lines(content), Key(uid), 2);
  }
}
