/** Resolving symbolic links inside a jail: the script's loop against a component-by-component walk. */
module RealPath {
  import opened CStrings
  import opened Paths

  /** What lstat and readlink report for a path. */
  datatype Node = Missing | Other | Link(target: string)

  /** Raised stands for any Python exception the function leaves with. */
  datatype Resolved = Path(text: string) | Raised

  // ----- the function as written, over path texts -----

  predicate Rootable(chroot: string) {
    chroot == "" || Absolute(chroot)
  }

  /** Where a link met at `here` sends the loop. */
  function Target(chroot: string, here: string, t: string): (r: Resolved)
    requires Rootable(chroot) && Absolute(here)
    ensures r.Path? ==> Absolute(r.text)
  {
    if t == "" then Raised
    else if t[0] == '/' then Path(Normpath(chroot + t))
    else
      var tmp := Normpath(JoinPaths(Dirname(here), t));
      if |chroot| > 0 && !(chroot <= tmp) then Raised else Path(tmp)
  }

  function Follow(lstat: string -> Node, chroot: string, ret: string, entries: seq<string>): (r: Resolved)
    requires Rootable(chroot) && Absolute(ret)
    ensures r.Path? ==> Absolute(r.text)
    decreases entries
  {
    if entries == [] then Path(ret)
    else
      var here := JoinPaths(ret, entries[0]);
      match lstat(here)
      case Missing => Raised
      case Other => Follow(lstat, chroot, here, entries[1..])
      case Link(t) =>
        var next := Target(chroot, here, t);
        if next == Raised then Raised else Follow(lstat, chroot, next.text, entries[1..])
  }

  function Finish(r: Resolved, basename: string): Resolved {
    if r == Raised then Raised else Path(JoinPaths(r.text, basename))
  }

  method ReadLink(chroot: string, here: string, target: string) returns (r: Resolved)
    requires Rootable(chroot) && Absolute(here)
    ensures r == Target(chroot, here, target)
  {
    if target == "" {
      return Raised;
    }
    if target[0] == '/' {
      r := Path(Normpath(chroot + target));
    } else {
      var tmp := Normpath(JoinPaths(Dirname(here), target));
      if |chroot| > 0 && !(chroot <= tmp) {
        return Raised;
      }
      r := Path(tmp);
    }
  }

  method FollowAll(lstat: string -> Node, chroot: string, spath: seq<string>) returns (r: Resolved)
    requires Rootable(chroot)
    ensures r == Follow(lstat, chroot, "/", spath)
  {
    var ret, rest := "/", spath;
    while rest != []
      invariant Absolute(ret) && Follow(lstat, chroot, ret, rest) == Follow(lstat, chroot, "/", spath)
      decreases |rest|
    {
      ret := JoinPaths(ret, rest[0]);
      var sb := lstat(ret);
      if sb == Missing {
        return Raised;
      }
      if sb.Link? {
        var next := ReadLink(chroot, ret, sb.target);
        if next == Raised {
          return Raised;
        }
        ret := next.text;
      }
      rest := rest[1..];
    }
    r := Path(ret);
  }

  method ResolveRealpath(lstat: string -> Node, path: string, chroot: string, includeFile: bool)
      returns (r: Resolved)
    requires Absolute(path) && Rootable(chroot)
    ensures path == "/" ==> r == Path("/")
    ensures path != "/" && includeFile ==> r == Finish(Follow(lstat, chroot, "/", Comps(path)), "")
    ensures path != "/" && !includeFile && Comps(path) == [] ==> r == Raised
    ensures path != "/" && !includeFile && Comps(path) != [] ==>
              r == Finish(Follow(lstat, chroot, "/", Comps(path)[..|Comps(path)| - 1]), Comps(path)[|Comps(path)| - 1])
  {
    if path == "/" {
      return Path("/");
    }
    var spath := SplitPath(path);
    var basename := "";
    if !includeFile {
      if spath == [] {
        return Raised;
      }
      basename := spath[|spath| - 1];
      spath := spath[..|spath| - 1];
    }
    var ret := FollowAll(lstat, chroot, spath);
    if ret == Raised {
      return Raised;
    }
    r := Path(JoinPaths(ret.text, basename));
  }

  // ----- the reference: one component at a time, rooted at the jail -----

  /**
   * Resolution by a process whose root is the jail: "" and "." stay, ".." goes up but not above
   * the jail, and a link's text takes the place of its name, starting again at the jail when it is
   * absolute. Nothing is normalised beforehand. None: a name is missing, or the fuel ran out.
   */
  function Full(fs: seq<string> -> Node, jail: seq<string>, done: seq<string>, todo: seq<string>, fuel: nat)
      : Option<seq<string>>
    decreases fuel
  {
    if todo == [] then Some(done)
    else if fuel == 0 then None
    else
      var c, rest := todo[0], todo[1..];
      if c == "" || c == "." then Full(fs, jail, done, rest, fuel - 1)
      else if c == ".." then Full(fs, jail, Up(jail, done), rest, fuel - 1)
      else
        match fs(done + [c])
        case Missing => None
        case Other => Full(fs, jail, done + [c], rest, fuel - 1)
        case Link(t) => Full(fs, jail, Start(jail, done, t), Split(t, '/') + rest, fuel - 1)
  }

  function Up(jail: seq<string>, done: seq<string>): seq<string> {
    if |done| > |jail| then done[..|done| - 1] else done
  }

  /** Where the text of a link found in directory `done` is read from. */
  function Start(jail: seq<string>, done: seq<string>, t: string): seq<string> {
    if Absolute(t) then jail else done
  }

  ghost predicate LinkFree(fs: seq<string> -> Node, cs: seq<string>) {
    forall i :: 0 < i <= |cs| ==> fs(cs[..i]) == Other
  }

  /** A link text read from `done` meets existing names that are not links, and never leaves
      the jail; ".." at the true root stays there. */
  predicate Clear(fs: seq<string> -> Node, jail: seq<string>, done: seq<string>, ts: seq<string>)
    decreases ts
  {
    if ts == [] then true
    else
      var c := ts[0];
      if c == "" || c == "." then Clear(fs, jail, done, ts[1..])
      else if c == ".." then
        if |done| > |jail| then Clear(fs, jail, done[..|done| - 1], ts[1..])
        else jail == [] && Clear(fs, jail, done, ts[1..])
      else fs(done + [c]) == Other && Clear(fs, jail, done + [c], ts[1..])
  }

  /** Without a jail, os.path.normpath would keep exactly two leading slashes. */
  predicate OneRoot(jail: seq<string>, t: string) {
    jail != [] || !(|t| >= 2 && t[0] == '/' && t[1] == '/' && (|t| == 2 || t[2] != '/'))
  }

  /** The name c, looked up in directory `done`, exists, and if it is a link its text is clear. */
  predicate Sound(fs: seq<string> -> Node, jail: seq<string>, done: seq<string>, c: string) {
    match fs(done + [c])
    case Missing => false
    case Other => true
    case Link(t) => t != "" && OneRoot(jail, t) && Clear(fs, jail, Start(jail, done, t), Split(t, '/'))
  }

  /** Where the loop goes on behind the name c: a link's text is reduced lexically. */
  function Next(fs: seq<string> -> Node, jail: seq<string>, done: seq<string>, c: string): seq<string> {
    match fs(done + [c])
    case Link(t) => Reduce(Start(jail, done, t), Split(t, '/'))
    case _ => done + [c]
  }

  /** How many components the reference looks at meanwhile. */
  function Cost(fs: seq<string> -> Node, done: seq<string>, c: string): nat {
    match fs(done + [c])
    case Link(t) => 1 + |Split(t, '/')|
    case _ => 1
  }

  /** Every name looked up exists, and every link met has a nonempty clear text. */
  predicate Fair(fs: seq<string> -> Node, jail: seq<string>, done: seq<string>, todo: seq<string>)
    decreases todo
  {
    todo != [] ==> Sound(fs, jail, done, todo[0]) && Fair(fs, jail, Next(fs, jail, done, todo[0]), todo[1..])
  }

  /** The function's loop over components. */
  function Walk(fs: seq<string> -> Node, jail: seq<string>, done: seq<string>, todo: seq<string>): seq<string>
    decreases todo
  {
    if todo == [] then done else Walk(fs, jail, Next(fs, jail, done, todo[0]), todo[1..])
  }

  function Steps(fs: seq<string> -> Node, jail: seq<string>, done: seq<string>, todo: seq<string>): nat
    decreases todo
  {
    if todo == [] then 0
    else Cost(fs, done, todo[0]) + Steps(fs, jail, Next(fs, jail, done, todo[0]), todo[1..])
  }

  lemma LinkFreeMore(fs: seq<string> -> Node, cs: seq<string>, c: string)
    requires LinkFree(fs, cs) && fs(cs + [c]) == Other
    ensures LinkFree(fs, cs + [c])
  {
    forall i | 0 < i <= |cs| + 1 ensures fs((cs + [c])[..i]) == Other {
      if i <= |cs| {
        assert (cs + [c])[..i] == cs[..i];
      } else {
        assert (cs + [c])[..i] == cs + [c];
      }
    }
  }

  lemma LinkFreeLess(fs: seq<string> -> Node, cs: seq<string>)
    requires LinkFree(fs, cs) && cs != []
    ensures LinkFree(fs, cs[..|cs| - 1])
  {
    var front := cs[..|cs| - 1];
    forall i | 0 < i <= |front| ensures fs(front[..i]) == Other {
      assert front[..i] == cs[..i];
    }
  }

  /** A clear link text leads the reference where the lexical reduction says. */
  lemma {:induction false} ClearRuns(fs: seq<string> -> Node, jail: seq<string>, done: seq<string>,
      ts: seq<string>, rest: seq<string>, fuel: nat)
    requires Clear(fs, jail, done, ts) && jail <= done && LinkFree(fs, done) && fuel >= |ts|
    ensures Full(fs, jail, done, ts + rest, fuel) == Full(fs, jail, Reduce(done, ts), rest, fuel - |ts|)
    ensures jail <= Reduce(done, ts) && LinkFree(fs, Reduce(done, ts))
    decreases ts
  {
    if ts == [] {
      assert ts + rest == rest;
    } else {
      assert (ts + rest)[0] == ts[0] && (ts + rest)[1..] == ts[1..] + rest;
      var c := ts[0];
      if c == ".." {
        if done != [] { LinkFreeLess(fs, done); }
      } else if c != "" && c != "." {
        LinkFreeMore(fs, done, c);
      }
      ClearRuns(fs, jail, Push(done, c), ts[1..], rest, fuel - 1);
    }
  }

  lemma ReduceOfSplit(done: seq<string>, t: string)
    requires Normal(done)
    ensures Normal(Reduce(done, Split(t, '/')))
  {
    SplitJoin(t, '/');
    ReduceNormal(done, Split(t, '/'));
  }

  /** One turn of the loop takes the reference to the same place, free of links. */
  lemma NextIsFull(fs: seq<string> -> Node, jail: seq<string>, done: seq<string>, todo: seq<string>, fuel: nat)
    requires jail <= done && LinkFree(fs, done) && Normal(done)
    requires todo != [] && Plain(todo[0]) && Sound(fs, jail, done, todo[0]) && fuel >= Cost(fs, done, todo[0])
    ensures var next := Next(fs, jail, done, todo[0]);
            jail <= next && LinkFree(fs, next) && Normal(next)
            && Full(fs, jail, done, todo, fuel)
               == Full(fs, jail, next, todo[1..], fuel - Cost(fs, done, todo[0]))
  {
    match fs(done + [todo[0]])
    case Link(t) =>
      var start, ts := Start(jail, done, t), Split(t, '/');
      StartGood(fs, jail, done, t);
      ClearRuns(fs, jail, start, ts, todo[1..], fuel - 1);
      ReduceOfSplit(start, t);
    case Other =>
      LinkFreeMore(fs, done, todo[0]);
  }

  /** On fair names the loop agrees with the reference, for any fuel that suffices, and ends free of links. */
  lemma {:induction false} WalkIsFull(fs: seq<string> -> Node, jail: seq<string>, done: seq<string>,
      todo: seq<string>, fuel: nat)
    requires Fair(fs, jail, done, todo) && Normal(todo) && jail <= done && LinkFree(fs, done)
    requires Normal(done) && fuel >= Steps(fs, jail, done, todo)
    ensures Full(fs, jail, done, todo, fuel) == Some(Walk(fs, jail, done, todo))
    ensures LinkFree(fs, Walk(fs, jail, done, todo)) && jail <= Walk(fs, jail, done, todo)
    ensures Normal(Walk(fs, jail, done, todo))
    decreases todo
  {
    if todo != [] {
      assert Plain(todo[0]);
      NextIsFull(fs, jail, done, todo, fuel);
      WalkIsFull(fs, jail, Next(fs, jail, done, todo[0]), todo[1..], fuel - Cost(fs, done, todo[0]));
    }
  }

  lemma StartGood(fs: seq<string> -> Node, jail: seq<string>, done: seq<string>, t: string)
    requires jail <= done && LinkFree(fs, done) && Normal(done)
    ensures jail <= Start(jail, done, t) && Normal(jail)
    ensures LinkFree(fs, Start(jail, done, t)) && Normal(Start(jail, done, t))
  {
    JailPrefix(fs, done, jail);
  }

  // ----- the texts stand for the components -----

  /** lstat answers for the place a text names, when the directories on the way are not links. */
  ghost predicate Answers(lstat: string -> Node, fs: seq<string> -> Node) {
    forall cs {:trigger lstat(PathText(cs))} ::
      Normal(cs) && cs != [] && LinkFree(fs, cs[..|cs| - 1]) ==> lstat(PathText(cs)) == fs(cs)
  }

  lemma JoinEntry(done: seq<string>, c: string)
    requires Normal(done) && !Absolute(c)
    ensures JoinPaths(PathText(done), c) == Stem(done) + "/" + c
  {
    StemEnd(done);
    if done == [] { assert PathText(done) == "/" && "" + "/" + c == "/" + c; }
  }

  lemma StemReduces(jail: seq<string>, t: string)
    requires Normal(jail)
    ensures Comps(Stem(jail) + "/" + t) == Reduce(jail, Split(t, '/'))
  {
    var s := Stem(jail);
    SplitAt(s, t);
    assert s + ("/" + t) == s + "/" + t;
    ReduceAppend([], Split(s, '/'), Split(t, '/'));
    if jail == [] {
      assert Split("", '/') == [""];
      assert Reduce([], [""]) == Reduce([], [""][1..]);
    } else {
      SplitPathText(jail);
    }
  }

  /** A path below a printed directory is normalised to its reduced components. */
  lemma NormpathBelow(dir: seq<string>, t: string)
    requires Normal(dir) && OneRoot(dir, "/" + t)
    ensures Absolute(Stem(dir) + "/" + t)
    ensures Normpath(Stem(dir) + "/" + t) == PathText(Reduce(dir, Split(t, '/')))
  {
    var p := Stem(dir) + "/" + t;
    StemReduces(dir, t);
    if dir != [] {
      assert Plain(dir[0]) && dir[0][0] in dir[0];
      assert p[1] == dir[0][0];
    } else {
      assert "" + "/" + t == "/" + t;
    }
    assert "" + PathText(Comps(p)) == PathText(Comps(p));
  }

  lemma {:induction false} TextPrefix(dir: seq<string>, cs: seq<string>)
    requires dir <= cs && dir != []
    ensures PathText(dir) <= PathText(cs)
    decreases cs
  {
    if |cs| > |dir| {
      var front := cs[..|cs| - 1];
      assert cs == front + [cs[|cs| - 1]];
      TextPrefix(dir, front);
      TextSnoc(front, cs[|cs| - 1]);
    } else {
      assert dir == cs;
    }
  }

  lemma StemText(jail: seq<string>, t: string)
    requires Absolute(t)
    ensures Stem(jail) + t == Stem(jail) + "/" + t[1..]
    ensures t == "/" + t[1..] == "" + ("/" + t[1..])
  {
  }

  lemma RootedTarget(jail: seq<string>, here: string, t: string)
    requires Normal(jail) && Absolute(here) && Absolute(t) && OneRoot(jail, t)
    ensures Target(Stem(jail), here, t) == Path(PathText(Reduce(jail, Split(t, '/'))))
  {
    var u := t[1..];
    StemText(jail, t);
    SplitAt("", u);
    LeadingEmpty(jail, Split(u, '/'));
    NormpathBelow(jail, u);
  }

  lemma LeadingEmpty(done: seq<string>, cs: seq<string>)
    ensures Split("", '/') == [""] && Reduce(done, Split("", '/') + cs) == Reduce(done, cs)
  {
    assert ([""] + cs)[1..] == cs;
  }

  lemma RelativeTarget(jail: seq<string>, done: seq<string>, c: string, t: string)
    requires Normal(done) && Plain(c) && t != "" && !Absolute(t)
    requires jail <= Reduce(done, Split(t, '/'))
    ensures Absolute(PathText(done + [c]))
    ensures Target(Stem(jail), PathText(done + [c]), t) == Path(PathText(Reduce(done, Split(t, '/'))))
  {
    if jail != [] { TextPrefix(jail, Reduce(done, Split(t, '/'))); }
    LastComponent(done, c);
    JoinEntry(done, t);
    NormpathBelow(done, t);
  }

  /** Where a link leads: an absolute text below the jail, a relative one from the link's own
      directory, both reduced to plain components. */
  lemma TargetText(jail: seq<string>, done: seq<string>, c: string, t: string)
    requires Normal(jail) && Normal(done) && Plain(c) && t != "" && OneRoot(jail, t)
    requires jail <= Reduce(Start(jail, done, t), Split(t, '/'))
    ensures Absolute(PathText(done + [c]))
    ensures Target(Stem(jail), PathText(done + [c]), t) == Path(PathText(Reduce(Start(jail, done, t), Split(t, '/'))))
  {
    if Absolute(t) {
      RootedTarget(jail, PathText(done + [c]), t);
    } else {
      RelativeTarget(jail, done, c, t);
    }
  }

  lemma EntryAnswer(lstat: string -> Node, fs: seq<string> -> Node, done: seq<string>, c: string)
    requires Answers(lstat, fs) && Normal(done) && LinkFree(fs, done) && Plain(c)
    ensures JoinPaths(PathText(done), c) == PathText(done + [c])
    ensures lstat(PathText(done + [c])) == fs(done + [c])
  {
    assert c[0] in c;
    JoinEntry(done, c);
    TextSnoc(done, c);
    assert (done + [c])[..|done + [c]| - 1] == done;
  }

  /** One turn of the loop over texts. */
  lemma FollowNext(lstat: string -> Node, fs: seq<string> -> Node, jail: seq<string>, done: seq<string>,
      todo: seq<string>)
    requires Answers(lstat, fs) && Normal(done) && LinkFree(fs, done) && jail <= done
    requires todo != [] && Plain(todo[0]) && Sound(fs, jail, done, todo[0])
    ensures var next := Next(fs, jail, done, todo[0]);
            jail <= next && LinkFree(fs, next) && Normal(next)
            && Follow(lstat, Stem(jail), PathText(done), todo)
               == Follow(lstat, Stem(jail), PathText(next), todo[1..])
  {
    NextIsFull(fs, jail, done, todo, Cost(fs, done, todo[0]));
    EntryAnswer(lstat, fs, done, todo[0]);
    match fs(done + [todo[0]])
    case Link(t) =>
      StartGood(fs, jail, done, t);
      TargetText(jail, done, todo[0], t);
    case Other =>
  }

  /** The loop over texts does what the walk over components does. */
  lemma {:induction false} FollowIsWalk(lstat: string -> Node, fs: seq<string> -> Node, jail: seq<string>,
      done: seq<string>, todo: seq<string>)
    requires Answers(lstat, fs) && jail <= done
    requires Normal(done) && LinkFree(fs, done) && Normal(todo) && Fair(fs, jail, done, todo)
    ensures Follow(lstat, Stem(jail), PathText(done), todo) == Path(PathText(Walk(fs, jail, done, todo)))
    decreases todo
  {
    if todo != [] {
      assert Plain(todo[0]);
      FollowNext(lstat, fs, jail, done, todo);
      FollowIsWalk(lstat, fs, jail, Next(fs, jail, done, todo[0]), todo[1..]);
    }
  }

  /** Fair names in front are followed to where the walk leads, whatever comes behind them. */
  lemma {:induction false} FollowFront(lstat: string -> Node, fs: seq<string> -> Node, jail: seq<string>,
      done: seq<string>, todo: seq<string>, more: seq<string>)
    requires Answers(lstat, fs) && jail <= done
    requires Normal(done) && LinkFree(fs, done) && Normal(todo) && Fair(fs, jail, done, todo)
    ensures var place := Walk(fs, jail, done, todo);
            && jail <= place && LinkFree(fs, place) && Normal(place)
            && Follow(lstat, Stem(jail), PathText(done), todo + more)
               == Follow(lstat, Stem(jail), PathText(place), more)
    decreases todo
  {
    if todo == [] {
      assert todo + more == more;
    } else {
      assert Plain(todo[0]);
      assert (todo + more)[0] == todo[0] && (todo + more)[1..] == todo[1..] + more;
      FairFirst(fs, jail, done, todo, more);
      FollowNext(lstat, fs, jail, done, todo + more);
      FollowFront(lstat, fs, jail, Next(fs, jail, done, todo[0]), todo[1..], more);
    }
  }

  lemma FairFirst(fs: seq<string> -> Node, jail: seq<string>, done: seq<string>, todo: seq<string>, more: seq<string>)
    requires todo != [] && Fair(fs, jail, done, todo)
    ensures Sound(fs, jail, done, (todo + more)[0])
  {
  }

  /** The jail's own components are passed without a link. */
  lemma {:induction false} ThroughJail(lstat: string -> Node, fs: seq<string> -> Node, jail: seq<string>,
      done: seq<string>, todo: seq<string>, inner: seq<string>)
    requires Answers(lstat, fs) && Normal(jail) && LinkFree(fs, jail) && jail == done + todo
    ensures Follow(lstat, Stem(jail), PathText(done), todo + inner)
            == Follow(lstat, Stem(jail), PathText(jail), inner)
    decreases todo
  {
    if todo == [] {
      assert done == jail && todo + inner == inner;
    } else {
      ShiftOne(done, todo, inner);
      var c := todo[0];
      JailPrefix(fs, jail, done);
      JailPrefix(fs, jail, done + [c]);
      EntryAnswer(lstat, fs, done, c);
      ThroughJail(lstat, fs, jail, done + [c], todo[1..], inner);
    }
  }

  lemma ShiftOne(done: seq<string>, todo: seq<string>, inner: seq<string>)
    requires todo != []
    ensures done + [todo[0]] + todo[1..] == done + todo && done + [todo[0]] <= done + todo && done <= done + todo
    ensures (todo + inner)[0] == todo[0] && (todo + inner)[1..] == todo[1..] + inner
  {
  }

  lemma JailPrefix(fs: seq<string> -> Node, jail: seq<string>, done: seq<string>)
    requires done <= jail && LinkFree(fs, jail) && Normal(jail)
    ensures LinkFree(fs, done) && Normal(done)
    ensures done != [] ==> fs(done) == Other && Plain(done[|done| - 1])
  {
    assert done == jail[..|done|];
    forall i | 0 < i <= |done| ensures fs(done[..i]) == Other { assert done[..i] == jail[..i]; }
    forall i | 0 <= i < |done| ensures Plain(done[i]) { assert done[i] == jail[i]; }
  }

  /**
   * Resolving names below a link-free jail, or below the true root when no jail is given. If every
   * name met exists and every link met has a nonempty text that passes through existing, link-free
   * names inside the jail, the loop reaches the place a process confined to the jail would reach,
   * below the jail, and no prefix of the result is a link.
   */
  lemma ResolvesInJail(lstat: string -> Node, fs: seq<string> -> Node, jail: seq<string>, inner: seq<string>,
      fuel: nat)
    requires Answers(lstat, fs) && Normal(jail) && Normal(inner)
    requires LinkFree(fs, jail) && Fair(fs, jail, jail, inner) && fuel >= Steps(fs, jail, jail, inner)
    ensures var place := Full(fs, jail, jail, inner, fuel);
            place.Some? && Follow(lstat, Stem(jail), "/", jail + inner) == Path(PathText(place.value))
            && jail <= place.value && LinkFree(fs, place.value) && Normal(place.value)
  {
    assert [] + jail == jail && PathText([]) == "/";
    ThroughJail(lstat, fs, jail, [], jail, inner);
    WalkIsFull(fs, jail, jail, inner, fuel);
    FollowIsWalk(lstat, fs, jail, jail, inner);
  }

  /** Up to a name that is missing everything is as above; there the function raises. */
  lemma {:induction false} MissingRaises(lstat: string -> Node, fs: seq<string> -> Node, jail: seq<string>,
      inner: seq<string>, c: string, rest: seq<string>)
    requires Answers(lstat, fs) && Normal(jail) && Normal(inner) && Plain(c)
    requires LinkFree(fs, jail) && Fair(fs, jail, jail, inner)
    requires fs(Walk(fs, jail, jail, inner) + [c]) == Missing
    ensures Follow(lstat, Stem(jail), "/", jail + (inner + ([c] + rest))) == Raised
  {
    FollowInside(lstat, fs, jail, inner, [c] + rest);
    EntryAnswer(lstat, fs, Walk(fs, jail, jail, inner), c);
  }

  lemma FollowInside(lstat: string -> Node, fs: seq<string> -> Node, jail: seq<string>, inner: seq<string>,
      more: seq<string>)
    requires Answers(lstat, fs) && Normal(jail) && Normal(inner)
    requires LinkFree(fs, jail) && Fair(fs, jail, jail, inner)
    ensures var place := Walk(fs, jail, jail, inner);
            && jail <= place && LinkFree(fs, place) && Normal(place)
            && Follow(lstat, Stem(jail), "/", jail + (inner + more))
               == Follow(lstat, Stem(jail), PathText(place), more)
  {
    assert [] + jail == jail && PathText([]) == "/";
    ThroughJail(lstat, fs, jail, [], jail, inner + more);
    FollowFront(lstat, fs, jail, jail, inner, more);
  }

  /** What the function returns for a path into the jail, with its last name followed or kept. */
  lemma FinalPath(lstat: string -> Node, fs: seq<string> -> Node, jail: seq<string>, inner: seq<string>,
      path: string, name: string, fuel: nat)
    requires Answers(lstat, fs) && Normal(jail) && Normal(inner)
    requires LinkFree(fs, jail) && Fair(fs, jail, jail, inner) && fuel >= Steps(fs, jail, jail, inner)
    requires Absolute(path) && (name == "" || Plain(name))
    requires Comps(path) == if name == "" then jail + inner else jail + inner + [name]
    ensures Full(fs, jail, jail, inner, fuel).Some?
    ensures var cs := Comps(path);
            Finish(Follow(lstat, Stem(jail), "/", if name == "" then cs else cs[..|cs| - 1]), name)
            == Path(Stem(Full(fs, jail, jail, inner, fuel).value) + "/" + name)
  {
    ResolvesInJail(lstat, fs, jail, inner, fuel);
    var cs := Comps(path);
    if name != "" {
      assert cs[..|cs| - 1] == jail + inner;
      assert name[0] in name;
    }
    JoinEntry(Full(fs, jail, jail, inner, fuel).value, name);
  }

  /** The shortcut for "/" agrees with that: it stands for no names at all. */
  lemma RootPath()
    ensures Comps("/") == [] && Stem([]) + "/" + "" == "/"
  {
    SplitPathText([]);
    assert PathText([]) == "/";
  }
}
