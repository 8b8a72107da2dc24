/** Path normal forms, and resolving symbolic links inside a jail. */
module Paths {
  import opened CStrings
  import opened Seqs

  // ----- paths as components -----

  /** One component on top of those before it: "..", at the root, stays there. */
  function Push(done: seq<string>, c: string): seq<string> {
    if c == "" || c == "." then done
    else if c == ".." then (if done == [] then [] else done[..|done| - 1])
    else done + [c]
  }

  function Reduce(done: seq<string>, cs: seq<string>): seq<string>
    decreases cs
  {
    if cs == [] then done else Reduce(Push(done, cs[0]), cs[1..])
  }

  /** The components of an absolute path, resolved lexically. */
  function Comps(p: string): seq<string> {
    Reduce([], Split(p, '/'))
  }

  predicate Plain(c: string) {
    c != "" && c != "." && c != ".." && '/' !in c
  }

  predicate Normal(cs: seq<string>) {
    forall i :: 0 <= i < |cs| ==> Plain(cs[i])
  }

  function PathText(cs: seq<string>): string {
    "/" + Join(cs, "/")
  }

  // ----- the library functions the scripts call -----

  predicate Absolute(p: string) {
    p != "" && p[0] == '/'
  }

  /** os.path.normpath keeps exactly two slashes at the start. */
  function Normpath(p: string): string
    requires Absolute(p)
  {
    (if |p| >= 2 && p[1] == '/' && (|p| == 2 || p[2] != '/') then "/" else "") + PathText(Comps(p))
  }

  /** What follows the last slash. */
  function Basename(p: string): (r: string)
    ensures |r| <= |p| && ('/' in p ==> |r| < |p|)
  {
    if '/' !in p then p else Basename(p[1..])
  }

  /** The part up to and with the last slash. */
  function Before(p: string): string {
    p[..|p| - |Basename(p)|]
  }

  function DropSlashes(s: string): (r: string)
    ensures r <= s && (r != "" ==> r[|r| - 1] != '/')
  {
    if s != "" && s[|s| - 1] == '/' then DropSlashes(s[..|s| - 1]) else s
  }

  function Dirname(p: string): (r: string)
    ensures Absolute(p) ==> Absolute(r)
  {
    var head := Before(p);
    if DropSlashes(head) == "" then head else DropSlashes(head)
  }

  function JoinPaths(a: string, b: string): (r: string)
    ensures Absolute(a) ==> Absolute(r)
  {
    if Absolute(b) then b
    else if a == "" || a[|a| - 1] == '/' then a + b
    else a + "/" + b
  }

  function Fix(s: string, slash: bool): string
    decreases s
  {
    if s == "" then ""
    else (if !slash || s[0] != '/' then [s[0]] else "") + Fix(s[1..], s[0] == '/')
  }

  method FixDoubleSlashes(instring: string) returns (outstring: string)
    ensures outstring == Fix(instring, false)
  {
    outstring := "";
    var slash, i := false, 0;
    assert instring[0..] == instring;
    while i < |instring|
      invariant i <= |instring| && outstring + Fix(instring[i..], slash) == Fix(instring, false)
    {
      var c := instring[i];
      assert instring[i..][1..] == instring[i + 1..];
      FixStep(outstring, instring[i..], slash);
      if !slash || c != '/' {
        outstring := outstring + [c];
      }
      slash := c == '/';
      i := i + 1;
    }
    assert outstring + "" == outstring;
  }

  lemma FixStep(out: string, s: string, slash: bool)
    requires s != ""
    ensures out + Fix(s, slash) == (if !slash || s[0] != '/' then out + [s[0]] else out) + Fix(s[1..], s[0] == '/')
  {
    if slash && s[0] == '/' {
      assert "" + Fix(s[1..], true) == Fix(s[1..], true);
    }
  }

  // ----- facts about the normal form -----

  lemma {:induction false} ReduceNormal(done: seq<string>, cs: seq<string>)
    requires Normal(done) && forall i :: 0 <= i < |cs| ==> '/' !in cs[i]
    ensures Normal(Reduce(done, cs))
    decreases cs
  {
    if cs != [] { ReduceNormal(Push(done, cs[0]), cs[1..]); }
  }

  lemma CompsNormal(p: string)
    ensures Normal(Comps(p))
  {
    SplitJoin(p, '/');
    ReduceNormal([], Split(p, '/'));
  }

  lemma {:induction false} ReduceAppend(done: seq<string>, a: seq<string>, b: seq<string>)
    ensures Reduce(done, a + b) == Reduce(Reduce(done, a), b)
    decreases a
  {
    if a == [] {
      assert a + b == b;
    } else {
      assert (a + b)[0] == a[0] && (a + b)[1..] == a[1..] + b;
      ReduceAppend(Push(done, a[0]), a[1..], b);
    }
  }

  lemma {:induction false} ReducePlain(done: seq<string>, cs: seq<string>)
    requires Normal(cs)
    ensures Reduce(done, cs) == done + cs
    decreases cs
  {
    if cs != [] {
      assert Plain(cs[0]);
      ReducePlain(done + [cs[0]], cs[1..]);
      assert done + [cs[0]] + cs[1..] == done + cs;
    }
  }

  lemma {:induction false} SplitAt(a: string, b: string)
    ensures Split(a + ("/" + b), '/') == Split(a, '/') + Split(b, '/')
    decreases a
  {
    var n := Cspn(a, ['/']);
    if n == |a| {
      assert a[..n] == a;
      SplitFirst(a, '/', b);
    } else {
      var p, r := a[..n], a[n + 1..];
      assert a == p + (['/'] + r);
      Nested(p, r, b);
      SplitFirst(p, '/', r);
      SplitFirst(p, '/', r + ("/" + b));
      SplitAt(r, b);
      Associative([p], Split(r, '/'), Split(b, '/'));
    }
  }

  lemma Nested(p: string, r: string, b: string)
    ensures p + (['/'] + r) + ("/" + b) == p + (['/'] + (r + ("/" + b)))
  {
  }

  /** A printed path has an empty first piece and then its components. */
  lemma SplitPathText(cs: seq<string>)
    requires Normal(cs)
    ensures Split(PathText(cs), '/') == [""] + (if cs == [] then [""] else cs)
    ensures Comps(PathText(cs)) == cs
  {
    SplitAt("", Join(cs, "/"));
    assert "" + PathText(cs) == PathText(cs);
    if cs != [] {
      forall i | 0 <= i < |cs| ensures '/' !in cs[i] { assert Plain(cs[i]); }
      SplitOfJoin(cs, '/');
    }
    ReducePlain([], cs);
    var rest := if cs == [] then [""] else cs;
    assert ([""] + rest)[1..] == rest && [] + cs == cs;
    assert Reduce([], [""] + rest) == Reduce([], rest);
    if cs == [] { assert Reduce([], [""]) == Reduce([], [""][1..]); }
  }

  // ----- splitting and joining -----

  lemma {:induction false} FixText(c: string, r: string, slash: bool)
    requires '/' !in c && c != ""
    ensures Fix(c + r, slash) == c + Fix(r, false)
    decreases c
  {
    assert (c + r)[0] == c[0] && (c + r)[1..] == c[1..] + r;
    if |c| == 1 {
      assert c[1..] + r == r;
    } else {
      FixText(c[1..], r, false);
    }
  }

  lemma {:induction false} FixJoin(cs: seq<string>, slash: bool)
    requires Normal(cs)
    ensures Fix(Join(cs, "/"), slash) == Join(cs, "/")
    decreases cs
  {
    if cs != [] {
      assert Plain(cs[0]);
      if |cs| == 1 {
        FixText(cs[0], "", slash);
        assert cs[0] + "" == cs[0];
      } else {
        var rest := Join(cs[1..], "/");
        assert cs[0] + "/" + rest == cs[0] + ("/" + rest);
        FixText(cs[0], "/" + rest, slash);
        assert ("/" + rest)[1..] == rest;
        FixJoin(cs[1..], true);
      }
    }
  }

  lemma FixNormpath(p: string)
    requires Absolute(p)
    ensures Fix(Normpath(p), false) == PathText(Comps(p))
  {
    CompsNormal(p);
    var rest := Join(Comps(p), "/");
    FixJoin(Comps(p), true);
    var text := PathText(Comps(p));
    assert text[1..] == rest;
    assert ("/" + text)[1..] == text && "" + text == text;
    assert Fix(text, true) == "" + Fix(rest, true);
    assert "" + rest == rest;
  }

  /** A directory as a prefix for the names in it. */
  function Stem(cs: seq<string>): string {
    if cs == [] then "" else PathText(cs)
  }

  lemma TextSnoc(cs: seq<string>, c: string)
    ensures PathText(cs + [c]) == Stem(cs) + "/" + c
  {
    if cs == [] {
      assert cs + [c] == [c];
      assert "" + "/" + c == "/" + c;
    } else {
      JoinSnoc(cs, c, "/");
      var j := Join(cs, "/");
      assert "/" + (j + "/" + c) == "/" + j + "/" + c;
    }
  }

  /** No printed directory ends in a slash, except the root. */
  lemma StemEnd(cs: seq<string>)
    requires Normal(cs)
    ensures DropSlashes(Stem(cs)) == Stem(cs)
    ensures cs != [] ==> PathText(cs) != "/" && PathText(cs)[|PathText(cs)| - 1] != '/'
  {
    if cs != [] {
      var c := cs[|cs| - 1];
      assert Plain(c) && cs == cs[..|cs| - 1] + [c];
      TextSnoc(cs[..|cs| - 1], c);
      assert c[|c| - 1] in c;
    }
  }

  lemma {:induction false} BasenameOf(a: string, c: string)
    requires '/' !in c
    ensures Basename(a + "/" + c) == c
    decreases a
  {
    var p := a + "/" + c;
    assert p[|a|] == '/';
    if a == "" {
      assert p[1..] == c;
    } else {
      assert p[1..] == a[1..] + "/" + c;
      BasenameOf(a[1..], c);
    }
  }

  lemma LastComponent(cs: seq<string>, c: string)
    requires Normal(cs) && Plain(c)
    ensures Basename(PathText(cs + [c])) == c
    ensures Dirname(PathText(cs + [c])) == PathText(cs)
  {
    TextSnoc(cs, c);
    BasenameOf(Stem(cs), c);
    StemEnd(cs);
    var p := PathText(cs + [c]);
    assert Before(p) == Stem(cs) + "/";
    assert (Stem(cs) + "/")[..|Stem(cs)|] == Stem(cs);
  }

  /** Splitting an absolute path gives its components; on a relative one the original never stops. */
  method SplitPath(path: string) returns (ret: seq<string>)
    requires Absolute(path)
    ensures ret == Comps(path)
  {
    ret := [];
    var next := FixDoubleSlashes(Normpath(path));
    ghost var cs := Comps(path);
    FixNormpath(path);
    CompsNormal(path);
    assert cs + ret == cs;
    while next != "/"
      invariant Normal(cs) && next == PathText(cs) && cs + ret == Comps(path)
      decreases |cs|
    {
      if cs == [] { assert false; }
      ghost var front, c := cs[..|cs| - 1], cs[|cs| - 1];
      assert Plain(c) && cs == front + [c];
      LastComponent(front, c);
      assert front + ([c] + ret) == cs + ret;
      ret := [Basename(next)] + ret;
      next := Dirname(next);
      cs := front;
    }
    StemEnd(cs);
    assert [] + ret == ret;
  }

  // ----- when the loop of split_path ends -----

  /** `next` after n turns. */
  function Upward(next: string, n: nat): string
    decreases n
  {
    if n == 0 then next else Upward(Dirname(next), n - 1)
  }

  predicate SingleSlashes(p: string) {
    forall i :: 0 < i < |p| ==> p[i - 1] != '/' || p[i] != '/'
  }

  lemma {:induction false} FixSingles(s: string, slash: bool)
    ensures SingleSlashes(Fix(s, slash)) && (slash ==> !Absolute(Fix(s, slash)))
    ensures !slash ==> (Absolute(Fix(s, slash)) <==> Absolute(s))
    decreases s
  {
    if s != "" { FixSingles(s[1..], s[0] == '/'); }
  }

  lemma PrefixSingles(p: string, q: string)
    requires SingleSlashes(p) && q <= p
    ensures SingleSlashes(q)
  {
    forall i | 0 < i < |q| ensures q[i - 1] != '/' || q[i] != '/' {
      assert q[i] == p[i] && q[i - 1] == p[i - 1];
    }
  }

  lemma DirnamePrefix(p: string)
    ensures Dirname(p) <= p
  {
    var head := Before(p);
    assert head <= p;
  }

  lemma DirnameShorter(p: string)
    requires Absolute(p) && SingleSlashes(p) && p != "/"
    ensures |Dirname(p)| < |p|
  {
    var head := Before(p);
    if head == p {
      var short := p[..|p| - 1];
      NameBehind(p);
      assert short[|short| - 1] == p[|p| - 2] != '/';
      assert DropSlashes(p) == DropSlashes(short) == short;
    }
  }

  /** No name behind the last slash: the path ends in it. */
  lemma {:induction false} NameBehind(p: string)
    requires p != "" && Basename(p) == ""
    ensures p[|p| - 1] == '/'
    decreases p
  {
    if |p| > 1 { NameBehind(p[1..]); }
  }

  lemma {:induction false} ReachesRoot(next: string) returns (n: nat)
    requires Absolute(next) && SingleSlashes(next)
    ensures Upward(next, n) == "/"
    decreases |next|
  {
    if next == "/" {
      n := 0;
    } else {
      DirnamePrefix(next);
      DirnameShorter(next);
      PrefixSingles(next, Dirname(next));
      var k := ReachesRoot(Dirname(next));
      n := k + 1;
    }
  }

  lemma {:induction false} NeverRoot(next: string, n: nat)
    requires !Absolute(next)
    ensures Upward(next, n) != "/"
    decreases n
  {
    if n > 0 {
      DirnamePrefix(next);
      NeverRoot(Dirname(next), n - 1);
    }
  }

  /** Whatever text normpath returns, the loop ends exactly if it is an absolute path. */
  lemma {:induction false} SplitEnds(text: string)
    ensures (exists n :: Upward(Fix(text, false), n) == "/") <==> Absolute(text)
  {
    var next := Fix(text, false);
    FixSingles(text, false);
    if Absolute(text) {
      var n := ReachesRoot(next);
    } else {
      forall n ensures Upward(next, n) != "/" { NeverRoot(next, n); }
    }
  }

  method JoinPath(spath: seq<string>) returns (ret: string)
    ensures ret == PathText(spath)
  {
    if |spath| == 0 {
      return "/";
    }
    ret := "";
    var i := 0;
    while i < |spath|
      invariant i <= |spath| && ret == Stem(spath[..i])
    {
      TextSnoc(spath[..i], spath[i]);
      assert spath[..i + 1] == spath[..i] + [spath[i]];
      assert ret + ("/" + spath[i]) == ret + "/" + spath[i];
      ret := ret + ("/" + spath[i]);
      i := i + 1;
    }
    assert spath[..i] == spath;
  }

  /** Only paths made of plain components are their own normal form. */
  lemma NormalText(p: string)
    requires Absolute(p)
    ensures PathText(Comps(p)) == p <==> p == "/" || Normal(Split(p, '/')[1..])
  {
    SplitJoin(p, '/');
    var ps := Split(p, '/');
    SplitFirst("", '/', p[1..]);
    assert p == "" + (['/'] + p[1..]);
    assert Reduce([], ps) == Reduce([], ps[1..]);
    if p == "/" {
      assert "/"[1..] == "" && Split("/", '/') == ["", ""];
      assert Comps("/") == [];
    } else if Normal(ps[1..]) {
      ReducePlain([], ps[1..]);
      assert [] + ps[1..] == ps[1..];
      assert |ps| > 1;
      assert "" + "/" + Join(ps[1..], "/") == "/" + Join(ps[1..], "/");
    } else {
      CompsNormal(p);
      SplitPathText(Comps(p));
    }
  }

  /**
   * What join_path(split_path(p)) is: a path made of plain components only, unchanged when it is
   * split and joined again, equal to os.path.normpath up to one of two leading slashes; and p
   * itself exactly when p is already made of plain components.
   */
  lemma NormalForm(p: string)
    requires Absolute(p)
    ensures Normal(Comps(p)) && Comps(PathText(Comps(p))) == Comps(p)
    ensures Normpath(p) == PathText(Comps(p)) || Normpath(p) == "/" + PathText(Comps(p))
    ensures Normpath(PathText(Comps(p))) == PathText(Comps(p))
    ensures PathText(Comps(p)) == p <==> p == "/" || Normal(Split(p, '/')[1..])
  {
    CompsNormal(p);
    SplitPathText(Comps(p));
    NormalText(p);
    var text := PathText(Comps(p));
    assert "" + text == text;
    if Comps(p) != [] {
      var c := Comps(p)[0];
      assert Plain(c) && c[0] in c;
      assert text[1] == c[0];
    }
  }
}
