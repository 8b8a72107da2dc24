/** Which links leave the jail: exactly what the containment test lets through, and exactly when
    the lexical reduction of a link's text agrees with walking it below the jail. */
module JailEscape {
  import opened CStrings
  import opened Paths
  import opened RealPath

  // ----- what the prefix comparison lets through -----

  lemma {:induction false} SlashPrefix(f: string, a: string, g: string, b: string)
    requires '/' !in f && '/' !in g
    ensures f + ("/" + a) <= g + ("/" + b) <==> f == g && a <= b
    decreases f
  {
    var s, t := f + ("/" + a), g + ("/" + b);
    if f == "" && g == "" {
      assert s == "/" + a && t == "/" + b;
      assert s[1..] == a && t[1..] == b;
      assert s <= t <==> s[1..] <= t[1..];
    } else if f == "" || g == "" {
      assert s[0] != t[0];
    } else {
      assert s == [f[0]] + (f[1..] + ("/" + a)) && t == [g[0]] + (g[1..] + ("/" + b));
      SlashPrefix(f[1..], a, g[1..], b);
      UnconsPrefix(f[0], f[1..] + ("/" + a), g[0], g[1..] + ("/" + b));
      assert f == [f[0]] + f[1..] && g == [g[0]] + g[1..];
    }
  }

  lemma UnconsPrefix(x: char, s: string, y: char, t: string)
    ensures [x] + s <= [y] + t <==> x == y && s <= t
  {
    var p, q := [x] + s, [y] + t;
    assert p[1..] == s && q[1..] == t;
    if p <= q {
      assert p == q[..|p|] && p[0] == x && q[..|p|][0] == y;
      assert p[1..] == q[1..][..|s|];
    }
  }

  lemma NamePrefix(c: string, g: string, b: string)
    requires '/' !in c
    ensures c <= g + ("/" + b) <==> c <= g
  {
    var t := g + ("/" + b);
    if c <= t {
      assert t[|g|] == '/';
      assert forall i :: 0 <= i < |c| ==> t[i] == c[i] && c[i] in c;
      assert |c| <= |g|;
      assert c == t[..|c|] == g[..|c|];
    }
  }

  lemma {:induction false} JoinTest(front: seq<string>, c: string, place: seq<string>)
    requires Normal(front) && Plain(c) && Normal(place)
    ensures Join(front + [c], "/") <= Join(place, "/")
            <==> |place| > |front| && place[..|front|] == front && c <= place[|front|]
    decreases front
  {
    if place != [] { assert Plain(place[0]); }
    if |place| > 1 { JoinUncons(place, '/'); }
    if front == [] {
      assert front + [c] == [c];
      if |place| > 1 { NamePrefix(c, place[0], Join(place[1..], "/")); }
    } else {
      var f, rest := front[0], front[1..] + [c];
      assert Plain(f);
      assert (front + [c])[1..] == rest;
      JoinUncons(front + [c], '/');
      if |place| > 1 {
        SlashPrefix(f, Join(rest, "/"), place[0], Join(place[1..], "/"));
        JoinTest(front[1..], c, place[1..]);
        FrontAgrees(front, place);
      } else {
        NoSlash(f, Join(rest, "/"), Join(place, "/"));
      }
    }
  }

  lemma NoSlash(f: string, rest: string, g: string)
    requires '/' !in g
    ensures !(f + ("/" + rest) <= g)
  {
    var s := f + ("/" + rest);
    assert s[|f|] == '/';
    assert forall i :: 0 <= i < |g| ==> g[i] in g;
  }

  lemma FrontAgrees(front: seq<string>, place: seq<string>)
    requires front != [] && place != []
    ensures |place| > |front| && place[..|front|] == front
            <==> place[0] == front[0] && |place[1..]| > |front[1..]| && place[1..][..|front[1..]|] == front[1..]
  {
    if |place| > |front| {
      assert place[..|front|] == [place[0]] + place[1..][..|front| - 1];
      assert front == [front[0]] + front[1..];
    }
  }

  /**
   * The test for a relative link compares texts, not components: it accepts a place exactly when
   * that place agrees with the jail up to the jail's last name and there has a name merely
   * BEGINNING with it. So "/jail2" passes for the jail "/jail".
   */
  lemma PrefixTest(front: seq<string>, c: string, place: seq<string>)
    requires Normal(front) && Plain(c) && Normal(place)
    ensures PathText(front + [c]) <= PathText(place)
            <==> |place| > |front| && place[..|front|] == front && c <= place[|front|]
  {
    JoinTest(front, c, place);
    UnconsPrefix('/', Join(front + [c], "/"), '/', Join(place, "/"));
  }

  /** What the test asks of a place; without a jail it is not made. */
  predicate LooksInside(jail: seq<string>, place: seq<string>) {
    jail != [] ==>
      var last := |jail| - 1;
      |place| > last && place[..last] == jail[..last] && jail[last] <= place[last]
  }

  lemma InsideLooksInside(jail: seq<string>, place: seq<string>)
    requires jail <= place
    ensures LooksInside(jail, place)
  {
    if jail != [] {
      var last := |jail| - 1;
      assert jail == place[..|jail|];
      assert place[..last] == jail[..last] && jail[last] == place[last];
    }
  }

  lemma TestOfPlace(jail: seq<string>, place: seq<string>)
    requires Normal(jail) && Normal(place) && jail != []
    ensures PathText(jail) <= PathText(place) <==> LooksInside(jail, place)
  {
    var last := |jail| - 1;
    assert jail == jail[..last] + [jail[last]];
    assert Plain(jail[last]);
    PrefixTest(jail[..last], jail[last], place);
  }

  lemma RelativeLands(jail: seq<string>, done: seq<string>, name: string, t: string)
    requires Normal(jail) && Normal(done) && Plain(name) && t != "" && !Absolute(t)
    ensures Absolute(PathText(done + [name]))
    ensures var place := Reduce(done, Split(t, '/'));
            Target(Stem(jail), PathText(done + [name]), t)
            == if LooksInside(jail, place) then Path(PathText(place)) else Raised
  {
    LastComponent(done, name);
    JoinEntry(done, t);
    NormpathBelow(done, t);
    ReduceOfSplit(done, t);
    if jail != [] { TestOfPlace(jail, Reduce(done, Split(t, '/'))); }
  }

  /** What os.path.normpath puts in front of the place: without a jail, exactly two leading slashes stay. */
  function Lead(jail: seq<string>, t: string): string {
    if OneRoot(jail, t) then "" else "/"
  }

  lemma RootedLands(jail: seq<string>, here: string, t: string)
    requires Normal(jail) && Absolute(here) && Absolute(t)
    ensures Target(Stem(jail), here, t) == Path(Lead(jail, t) + PathText(Reduce(jail, Split(t, '/'))))
  {
    var text := PathText(Reduce(jail, Split(t, '/')));
    if OneRoot(jail, t) {
      RootedTarget(jail, here, t);
      assert "" + text == text;
    } else {
      assert "" + t == t;
    }
  }

  /**
   * Where any link sends the loop: an absolute text is never tested, a relative one by the letters
   * of its place only.
   */
  lemma LinkLands(jail: seq<string>, done: seq<string>, name: string, t: string)
    requires Normal(jail) && Normal(done) && Plain(name)
    ensures Absolute(PathText(done + [name]))
    ensures var place := Reduce(Start(jail, done, t), Split(t, '/'));
            Target(Stem(jail), PathText(done + [name]), t)
            == if t != "" && (Absolute(t) || LooksInside(jail, place)) then Path(Lead(jail, t) + PathText(place))
               else Raised
  {
    if t == "" {
    } else if Absolute(t) {
      RootedLands(jail, PathText(done + [name]), t);
    } else {
      RelativeLands(jail, done, name, t);
      var text := PathText(Reduce(done, Split(t, '/')));
      assert "" + text == text;
    }
  }

  /** A path whose names are fair up to a link: the function goes on from where that link lands, or
      raises if it is refused. */
  lemma {:induction false} LinkOnTheWay(lstat: string -> Node, fs: seq<string> -> Node, jail: seq<string>,
      inner: seq<string>, c: string, t: string, rest: seq<string>)
    requires Answers(lstat, fs) && Normal(jail) && Normal(inner) && Plain(c)
    requires LinkFree(fs, jail) && Fair(fs, jail, jail, inner)
    requires fs(Walk(fs, jail, jail, inner) + [c]) == Link(t)
    ensures var dir := Walk(fs, jail, jail, inner);
            var place := Reduce(Start(jail, dir, t), Split(t, '/'));
            Follow(lstat, Stem(jail), "/", jail + (inner + ([c] + rest)))
            == if t != "" && (Absolute(t) || LooksInside(jail, place))
               then Follow(lstat, Stem(jail), Lead(jail, t) + PathText(place), rest)
               else Raised
  {
    var dir := Walk(fs, jail, jail, inner);
    FollowInside(lstat, fs, jail, inner, [c] + rest);
    EntryAnswer(lstat, fs, dir, c);
    LinkLands(jail, dir, c, t);
    assert ([c] + rest)[1..] == rest;
  }

  // ----- when the lexical reduction is right -----

  /** One component as a process confined to the jail takes it. */
  function StepInside(jail: seq<string>, done: seq<string>, c: string): seq<string> {
    if c == "" || c == "." then done else if c == ".." then Up(jail, done) else done + [c]
  }

  /** Where such a process ends up, as long as it meets no link. */
  function Inside(jail: seq<string>, done: seq<string>, ts: seq<string>): seq<string>
    decreases ts
  {
    if ts == [] then done else Inside(jail, StepInside(jail, done, ts[0]), ts[1..])
  }

  /** The text never asks to go above the jail; above the true root there is nothing to leave. */
  predicate Stays(jail: seq<string>, done: seq<string>, ts: seq<string>)
    decreases ts
  {
    ts != [] ==>
      && (ts[0] == ".." && |done| <= |jail| ==> jail == [])
      && Stays(jail, StepInside(jail, done, ts[0]), ts[1..])
  }

  /** Every name met below the jail exists and is not a link. */
  predicate Passes(fs: seq<string> -> Node, jail: seq<string>, done: seq<string>, ts: seq<string>)
    decreases ts
  {
    ts != [] ==>
      && (ts[0] != "" && ts[0] != "." && ts[0] != ".." ==> fs(done + [ts[0]]) == Other)
      && Passes(fs, jail, StepInside(jail, done, ts[0]), ts[1..])
  }

  /** Over such names the reference does just that. */
  lemma {:induction false} PassesRuns(fs: seq<string> -> Node, jail: seq<string>, done: seq<string>,
      ts: seq<string>, rest: seq<string>, fuel: nat)
    requires Passes(fs, jail, done, ts) && fuel >= |ts|
    ensures Full(fs, jail, done, ts + rest, fuel) == Full(fs, jail, Inside(jail, done, ts), rest, fuel - |ts|)
    decreases ts
  {
    if ts == [] {
      assert ts + rest == rest;
    } else {
      assert (ts + rest)[0] == ts[0] && (ts + rest)[1..] == ts[1..] + rest;
      PassesRuns(fs, jail, StepInside(jail, done, ts[0]), ts[1..], rest, fuel - 1);
    }
  }

  /** The two conditions together are what `RealPath` calls clear. */
  lemma {:induction false} ClearIs(fs: seq<string> -> Node, jail: seq<string>, done: seq<string>, ts: seq<string>)
    ensures Clear(fs, jail, done, ts) <==> Stays(jail, done, ts) && Passes(fs, jail, done, ts)
    decreases ts
  {
    if ts != [] { ClearIs(fs, jail, StepInside(jail, done, ts[0]), ts[1..]); }
  }

  /** Once the reduction has left the jail it stays behind for good. */
  lemma {:induction false} StaysBehind(jail: seq<string>, m: nat, s: seq<string>, ts: seq<string>)
    requires m <= |jail|
    ensures |Inside(jail, jail + s, ts)| >= |Reduce(jail[..m] + s, ts)| + |jail| - m
    decreases ts
  {
    if ts != [] {
      var c := ts[0];
      if c == "" || c == "." {
        StaysBehind(jail, m, s, ts[1..]);
      } else if c != ".." {
        PushBoth(jail, m, s, c);
        StaysBehind(jail, m, s + [c], ts[1..]);
      } else if s != [] {
        PopBoth(jail, m, s);
        StaysBehind(jail, m, s[..|s| - 1], ts[1..]);
      } else {
        PopJail(jail, m);
        assert jail + s == jail && jail[..m] + s == jail[..m];
        StaysBehind(jail, if m == 0 then 0 else m - 1, [], ts[1..]);
      }
    }
  }

  lemma PushBoth(jail: seq<string>, m: nat, s: seq<string>, c: string)
    requires m <= |jail|
    ensures jail + s + [c] == jail + (s + [c]) && jail[..m] + s + [c] == jail[..m] + (s + [c])
  {
  }

  lemma PopBoth(jail: seq<string>, m: nat, s: seq<string>)
    requires m <= |jail| && s != []
    ensures Up(jail, jail + s) == jail + s[..|s| - 1]
    ensures Push(jail[..m] + s, "..") == jail[..m] + s[..|s| - 1]
  {
  }

  lemma PopJail(jail: seq<string>, m: nat)
    requires m <= |jail|
    ensures Up(jail, jail) == jail == jail + []
    ensures Push(jail[..m], "..") == jail[..if m == 0 then 0 else m - 1] + []
  {
  }

  /** Exactly when the reduction gives the place a confined process reaches. */
  lemma {:induction false} ReduceIsInside(jail: seq<string>, done: seq<string>, ts: seq<string>)
    requires jail <= done
    ensures Inside(jail, done, ts) == Reduce(done, ts) <==> Stays(jail, done, ts)
    ensures jail <= Inside(jail, done, ts)
    decreases ts
  {
    if ts != [] {
      var next := StepInside(jail, done, ts[0]);
      UpInside(jail, done);
      ReduceIsInside(jail, next, ts[1..]);
      if ts[0] == ".." && |done| <= |jail| && jail != [] {
        assert done == jail;
        PopJail(jail, |jail|);
        assert jail[..|jail|] == jail;
        StaysBehind(jail, |jail| - 1, [], ts[1..]);
      }
    }
  }

  lemma UpInside(jail: seq<string>, done: seq<string>)
    requires jail <= done
    ensures jail <= Up(jail, done)
    ensures |done| > |jail| || jail == [] ==> Up(jail, done) == Push(done, "..")
  {
  }

  lemma {:induction false} InsideNormal(jail: seq<string>, done: seq<string>, ts: seq<string>)
    requires Normal(done) && forall i :: 0 <= i < |ts| ==> '/' !in ts[i]
    ensures Normal(Inside(jail, done, ts))
    decreases ts
  {
    if ts != [] { InsideNormal(jail, StepInside(jail, done, ts[0]), ts[1..]); }
  }

  /** A link is followed to the place a confined process reaches exactly if its text is not empty
      and, read name by name, never asks to go above the jail. */
  lemma LinkAgrees(jail: seq<string>, done: seq<string>, name: string, t: string)
    requires Normal(done) && jail <= done && Plain(name)
    ensures Absolute(PathText(done + [name]))
    ensures var start, ts := Start(jail, done, t), Split(t, '/');
            Target(Stem(jail), PathText(done + [name]), t) == Path(PathText(Inside(jail, start, ts)))
            <==> t != "" && OneRoot(jail, t) && Stays(jail, start, ts)
  {
    if t != "" {
      var start, ts := Start(jail, done, t), Split(t, '/');
      var inside, place := Inside(jail, start, ts), Reduce(start, ts);
      JailNormal(jail, done);
      LinkLands(jail, done, name, t);
      ReduceIsInside(jail, start, ts);
      SplitJoin(t, '/');
      InsideNormal(jail, start, ts);
      ReduceOfSplit(start, t);
      if inside == place { InsideLooksInside(jail, place); }
      SamePlace(inside, place, Lead(jail, t));
    }
  }

  lemma SamePlace(a: seq<string>, b: seq<string>, lead: string)
    requires Normal(a) && Normal(b) && (lead == "" || lead == "/")
    ensures PathText(a) == lead + PathText(b) <==> lead == "" && a == b
  {
    SplitPathText(a);
    SplitPathText(b);
    assert "" + PathText(b) == PathText(b);
    if lead != "" && a != [] {
      assert Plain(a[0]) && a[0][0] in a[0];
      assert PathText(a)[1] == a[0][0];
    }
  }

  lemma JailNormal(jail: seq<string>, done: seq<string>)
    requires Normal(done) && jail <= done
    ensures Normal(jail)
  {
    forall i | 0 <= i < |jail| ensures Plain(jail[i]) { assert jail[i] == done[i]; }
  }

  // ----- two links that get out -----

  lemma UpAndDown(jail: string, name: string)
    requires '/' !in name
    ensures Split(".." + ("/" + name), '/') == ["..", name]
    ensures Reduce([jail], ["..", name]) == Reduce([], [name])
    ensures Inside([jail], [jail], ["..", name]) == Inside([jail], [jail], [name])
  {
    SplitFirst("..", '/', name);
    SplitFirst(name, '/', "");
    assert ["..", name][1..] == [name] && [jail][..0] == [];
    assert Push([jail], "..") == [] && StepInside([jail], [jail], "..") == [jail];
  }

  lemma OneName(done: seq<string>, jail: seq<string>, name: string)
    requires Plain(name)
    ensures Reduce(done, [name]) == Inside(jail, done, [name]) == done + [name]
  {
    assert [name][1..] == [];
  }

  lemma BelowJail(jail: string, name: string)
    ensures PathText([jail]) == "/" + jail && PathText([jail] + [name]) == "/" + jail + "/" + name
  {
    TextSnoc([jail], name);
  }

  /** A relative link to a sibling whose name begins with the jail's is followed there,
      as "../jail2" is from the jail "/jail". */
  lemma {:induction false} SiblingEscapes(jail: string, more: string, name: string)
    requires Plain(jail) && Plain(jail + more) && Plain(name)
    ensures Target("/" + jail, "/" + jail + "/" + name, ".." + ("/" + (jail + more))) == Path("/" + (jail + more))
  {
    var t, place := ".." + ("/" + (jail + more)), [jail + more];
    assert t[0] == '.';
    BelowJail(jail, name);
    BelowJail(jail + more, "");
    UpAndDown(jail, jail + more);
    OneName([], [], jail + more);
    assert [] + place == place && [jail] <= [jail] && [jail][..0] == place[..0];
    assert LooksInside([jail], place);
    LinkLands([jail], [jail], name, t);
  }

  lemma ClimbPlace(jail: string, other: string)
    requires Plain(other)
    ensures var ts := Split("/" + (".." + ("/" + other)), '/');
            Reduce([jail], ts) == [other] && Inside([jail], [jail], ts) == [jail, other]
  {
    var u := ".." + ("/" + other);
    UpAndDown(jail, other);
    OneName([], [jail], other);
    OneName([jail], [jail], other);
    SplitAt("", u);
    SplitFirst("", '/', "");
    assert "" + ("/" + u) == "/" + u;
    FirstEmpty([jail], Split(u, '/'));
    assert [jail] + [other] == [jail, other] && [] + [other] == [other];
  }

  /** An absolute link that climbs is followed to a true directory, where a confined process would
      come to one of the jail: "/../etc" leads to "/etc". */
  lemma {:induction false} ClimbEscapes(jail: string, other: string, name: string)
    requires Plain(jail) && Plain(other) && Plain(name)
    ensures var t := "/" + (".." + ("/" + other));
            && Target("/" + jail, "/" + jail + "/" + name, t) == Path("/" + other)
            && Inside([jail], [jail], Split(t, '/')) == [jail, other]
  {
    var t := "/" + (".." + ("/" + other));
    BelowJail(jail, name);
    BelowJail(other, "");
    ClimbPlace(jail, other);
    RootedTarget([jail], "/" + jail + "/" + name, t);
  }

  lemma FirstEmpty(jail: seq<string>, ts: seq<string>)
    ensures Reduce(jail, [""] + ts) == Reduce(jail, ts) && Inside(jail, jail, [""] + ts) == Inside(jail, jail, ts)
  {
    assert ([""] + ts)[1..] == ts;
  }
}
