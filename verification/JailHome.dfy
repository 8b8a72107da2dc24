/** The home directory of a jailed user, as three programs compute it: one writes it
    to the passwd file, one stores a copy inside the jail, one splits it at login. */
module JailHome {
  import opened CStrings

  // ----- the scripts that set a user up -----

  function StripTrailingSlash(dir: string): string
    requires dir != ""
  {
    if dir[|dir| - 1] == '/' then dir[..|dir| - 1] else dir
  }

  function WithSlash(dir: string): string
    requires dir != ""
  {
    if dir[|dir| - 1] != '/' then dir + "/" else dir
  }

  /** s[:n], which may be longer than s. */
  function Head(s: string, n: nat): string {
    if n <= |s| then s[..n] else s
  }

  function Behind(s: string, n: nat): string {
    if n <= |s| then s[n..] else ""
  }

  predicate DirInJail(testdir: string, jail: string)
    requires testdir != ""
  {
    jail == Head(WithSlash(testdir), |jail|)
  }

  /** addusertojail: the home stored in the jail's own passwd file. */
  function StoredHome(jail0: string, home: string): string
    requires jail0 != "" && home != ""
  {
    var jail := StripTrailingSlash(jail0);
    if DirInJail(home, jail) then
      if Head(home, |jail| + 3) == jail + "/./" then Behind(home, |jail| + 2) else Behind(home, |jail|)
    else home
  }

  /** jailuser: the home written to the system's passwd file. */
  function WrittenHome(jail0: string, home: string): string
    requires jail0 != "" && home != ""
  {
    var jail := WithSlash(jail0);
    StripTrailingSlash(
      if DirInJail(home, jail) then
        if Head(home, |jail| + 2) == jail + "./" then home else jail + "." + Behind(home, |jail| - 1)
      else jail + "." + home)
  }

  // ----- the login shell -----

  /** The last byte of "/./" stands at i. */
  predicate SeparatorAt(s: string, i: nat) {
    2 <= i < |s| && s[i] == '/' && s[i - 1] == '.' && s[i - 2] == '/'
  }

  datatype Parts = Parts(jaildir: string, newhome: string)

  /** The last "/./" ends at an index above 4, and nothing follows it. */
  ghost predicate SplitsAt(s: string, i: nat) {
    i > 4 && SeparatorAt(s, i) && forall k :: i < k < |s| ==> !SeparatorAt(s, k)
  }

  method GetJailDir(oldhomedir: string) returns (r: Option<Parts>)
    ensures match r
            case None => forall i :: i > 4 ==> !SeparatorAt(oldhomedir, i)
            case Some(p) => && oldhomedir == p.jaildir + "/." + p.newhome
                            && SplitsAt(oldhomedir, |p.jaildir| + 2)
    ensures r == JailSplit(oldhomedir, |oldhomedir|)
  {
    var i: nat := |oldhomedir|;
    while i > 4
      invariant i <= |oldhomedir|
      invariant forall k :: i < k < |oldhomedir| ==> !SeparatorAt(oldhomedir, k)
      invariant JailSplit(oldhomedir, i) == JailSplit(oldhomedir, |oldhomedir|)
    {
      if At(oldhomedir, i) == '/' && oldhomedir[i - 1] == '.' && oldhomedir[i - 2] == '/' {
        assert oldhomedir == oldhomedir[..i - 2] + "/." + oldhomedir[i..];
        return Some(Parts(oldhomedir[..i - 2], oldhomedir[i..]));
      }
      i := i - 1;
    }
    return None;
  }

  function JailSplit(s: string, i: nat): Option<Parts>
    requires i <= |s|
  {
    if i <= 4 then None
    else if SeparatorAt(s, i) then Some(Parts(s[..i - 2], s[i..]))
    else JailSplit(s, i - 1)
  }

  lemma {:induction false} JailSplitIs(s: string, i: nat, n: nat)
    requires i <= n <= |s| && SplitsAt(s, i)
    ensures JailSplit(s, n) == Some(Parts(s[..i - 2], s[i..]))
    decreases n
  {
    if n > i { JailSplitIs(s, i, n - 1); }
  }

  lemma {:induction false} JailSplitSound(s: string, n: nat)
    requires n <= |s|
    ensures match JailSplit(s, n)
            case None => true
            case Some(p) => |p.jaildir| >= 3 && p.newhome != "" && s == p.jaildir + "/." + p.newhome
    decreases n
  {
    if n > 4 {
      if SeparatorAt(s, n) {
        assert s == s[..n - 2] + "/." + s[n..];
      } else {
        JailSplitSound(s, n - 1);
      }
    }
  }

  /** dir[strlen(dir)-1]: of an empty text that is the byte before it. */
  function LastByte(dir: string, before: char): char {
    if dir == "" then before else dir[|dir| - 1]
  }

  /** dirs_equal: equal but for one slash at the end. */
  predicate DirsEqual(dir1: string, dir2: string, before1: char, before2: char) {
    var n1, n2 := |dir1|, |dir2|;
    if n1 == n2 then dir1 == dir2
    else if n1 == n2 - 1 && LastByte(dir1, before1) != '/' && LastByte(dir2, before2) == '/' then dir1 == dir2[..n1]
    else if n1 - 1 == n2 && LastByte(dir1, before1) == '/' && LastByte(dir2, before2) != '/' then dir1[..n2] == dir2
    else false
  }

  /** Read as a statement: the same, or one has exactly one more slash at its end. */
  lemma DirsEqualMeans(dir1: string, dir2: string, before1: char, before2: char)
    ensures DirsEqual(dir1, dir2, before1, before2) <==>
            || dir1 == dir2
            || (dir2 == dir1 + "/" && LastByte(dir1, before1) != '/')
            || (dir1 == dir2 + "/" && LastByte(dir2, before2) != '/')
  {
  }

  /** The answer is the same whatever bytes stand before the texts. */
  ghost predicate Decided(dir1: string, dir2: string) {
    forall a: char, b: char :: DirsEqual(dir1, dir2, a, b) == DirsEqual(dir1, dir2, 'a', 'a')
  }

  /** Those bytes decide the answer exactly when one text is empty and the other a slash. */
  lemma StrayByteDecides(dir1: string, dir2: string)
    ensures !Decided(dir1, dir2) <==> (dir1 == "" && dir2 == "/") || (dir1 == "/" && dir2 == "")
  {
    if (dir1 == "" && dir2 == "/") || (dir1 == "/" && dir2 == "") {
      assert DirsEqual(dir1, dir2, 'a', 'a') != DirsEqual(dir1, dir2, '/', '/');
    } else {
      forall a: char, b: char ensures DirsEqual(dir1, dir2, a, b) == DirsEqual(dir1, dir2, 'a', 'a') {
        DirsEqualMeans(dir1, dir2, a, b);
        DirsEqualMeans(dir1, dir2, 'a', 'a');
      }
    }
  }

  /** Equal whatever bytes stand before the texts. */
  ghost predicate SurelyEqual(dir1: string, dir2: string) {
    forall a: char, b: char :: DirsEqual(dir1, dir2, a, b)
  }

  lemma SurelyEqualMeans(dir1: string, dir2: string)
    ensures SurelyEqual(dir1, dir2) <==>
            || dir1 == dir2
            || (dir2 == dir1 + "/" && dir1 != "" && dir1[|dir1| - 1] != '/')
            || (dir1 == dir2 + "/" && dir2 != "" && dir2[|dir2| - 1] != '/')
  {
    assert SurelyEqual(dir1, dir2) ==> DirsEqual(dir1, dir2, '/', '/');
  }

  // ----- agreement -----

  /** The login shell gets back the jail and a home equal to the one stored in it, whatever
      bytes stand before the two homes. */
  ghost predicate Agree(jail0: string, home: string)
    requires jail0 != "" && home != ""
  {
    match JailSplit(WrittenHome(jail0, home), |WrittenHome(jail0, home)|)
    case None => false
    case Some(p) => p.jaildir == StripTrailingSlash(jail0) && SurelyEqual(p.newhome, StoredHome(jail0, home))
  }

  predicate EndsWith(s: string, t: string) {
    |t| <= |s| && s[|s| - |t|..] == t
  }

  predicate StartsWith(s: string, t: string) {
    |t| <= |s| && s[..|t|] == t
  }

  predicate NoSeparator(s: string) {
    forall i :: 0 <= i < |s| ==> !SeparatorAt(s, i)
  }

  /** A caller can check this before the call: the home is a place of its own, inside
      the jail or outside it, and not a path that merely begins with the same letters. */
  predicate Separable(jail: string, home: string) {
    && home != "/" && home != jail && home != jail + "/"
    && !EndsWith(home, "//")
    && !(StartsWith(home, jail) && |home| > |jail| && home[|jail|] != '/')
  }

  /** For every jail path of three bytes or more and every absolute home without "/./",
      the programs agree if and only if the home is separable. */
  lemma {:induction false} HomesAgree(jail: string, home: string, slash: bool)
    requires |jail| >= 3 && jail[|jail| - 1] != '/'
    requires home != "" && home[0] == '/' && NoSeparator(home)
    ensures Agree(if slash then jail + "/" else jail, home) <==> Separable(jail, home)
  {
    var jail0 := if slash then jail + "/" else jail;
    assert StripTrailingSlash(jail0) == jail && WithSlash(jail0) == jail + "/";
    if StartsWith(home, jail) && (home == jail || home[|jail|] == '/') {
      Inside(jail, jail0, home);
    } else {
      Outside(jail, jail0, home);
    }
  }

  predicate Within(home: string, jail: string) {
    StartsWith(home, jail) && (home == jail || home[|jail|] == '/')
  }

  /** What follows the jail in the written home: the part inside it, or all of the home. */
  function Rest(jail: string, home: string): string {
    if Within(home, jail) then home[|jail|..] else home
  }

  lemma RestIs(jail: string, home: string)
    requires jail != "" && home != "" && home[0] == '/' && NoSeparator(home)
    ensures var rest := Rest(jail, home); (rest != "" ==> rest[0] == '/') && NoSeparator(rest)
  {
    var rest := Rest(jail, home);
    forall i | 0 <= i < |rest| ensures !SeparatorAt(rest, i) {
      if Within(home, jail) {
        assert !SeparatorAt(home, i + |jail|);
      }
    }
  }

  lemma InJailIsWithin(jail: string, home: string)
    requires jail != "" && jail[|jail| - 1] != '/' && home != ""
    ensures DirInJail(home, jail + "/") <==> Within(home, jail)
    ensures DirInJail(home, jail) <==> StartsWith(home, jail)
  {
    var t := WithSlash(home);
    if DirInJail(home, jail) {
      assert t[..|jail|] == jail;
      assert t[|t| - 1] == '/' && t != jail;
      assert t[..|t|] == t;
      assert home[..|jail|] == t[..|jail|];
    }
    if StartsWith(home, jail) {
      assert t[..|jail|] == home[..|jail|];
    }
    if DirInJail(home, jail + "/") {
      assert t[..|jail| + 1] == jail + "/" && t[..|jail| + 1][..|jail|] == jail;
      assert t[|jail|] == (jail + "/")[|jail|];
      assert Head(t, |jail|) == jail;
    }
    if Within(home, jail) {
      assert t[..|jail| + 1] == jail + "/";
    }
  }

  lemma NoDotWithin(jail: string, home: string)
    requires NoSeparator(home)
    ensures Head(home, |jail| + 3) != jail + "/./"
  {
    if |home| >= |jail| + 3 {
      assert !SeparatorAt(home, |jail| + 2);
      var dots := jail + "/./";
      assert dots[|jail|] == '/' && dots[|jail| + 1] == '.' && dots[|jail| + 2] == '/';
      var h := home[..|jail| + 3];
      assert h[|jail|] == home[|jail|] && h[|jail| + 1] == home[|jail| + 1] && h[|jail| + 2] == home[|jail| + 2];
    }
  }

  lemma Dotted(jail: string, rest: string)
    ensures (jail + "/") + "." + rest == jail + "/." + rest
    ensures jail + "/" + "./" == jail + "/./"
  {
  }

  lemma WrittenForm(jail: string, jail0: string, home: string)
    requires jail != "" && jail[|jail| - 1] != '/' && jail0 != "" && WithSlash(jail0) == jail + "/"
    requires home != "" && NoSeparator(home)
    ensures WrittenHome(jail0, home) == StripTrailingSlash(jail + "/." + Rest(jail, home))
  {
    InJailIsWithin(jail, home);
    NoDotWithin(jail, home);
    Dotted(jail, Rest(jail, home));
  }

  lemma StoredForm(jail: string, jail0: string, home: string)
    requires jail != "" && jail[|jail| - 1] != '/' && jail0 != "" && StripTrailingSlash(jail0) == jail
    requires home != "" && NoSeparator(home)
    ensures StoredHome(jail0, home) == if StartsWith(home, jail) then home[|jail|..] else home
  {
    InJailIsWithin(jail, home);
    NoDotWithin(jail, home);
  }

  /** A home that has the separator right behind the jail is kept as written, less one final
      slash, and stored without the jail and its dot. */
  lemma SeparatedForm(jail: string, jail0: string, rest: string)
    requires jail != "" && jail[|jail| - 1] != '/' && jail0 != ""
    requires StripTrailingSlash(jail0) == jail && WithSlash(jail0) == jail + "/"
    ensures WrittenHome(jail0, jail + "/./" + rest) == StripTrailingSlash(jail + "/./" + rest)
    ensures StoredHome(jail0, jail + "/./" + rest) == "/" + rest
  {
    var home := jail + "/./" + rest;
    InJailIsWithin(jail, home);
    assert home[..|jail|] == jail && home[|jail|] == '/';
    assert home[..|jail| + 3] == jail + "/./" == jail + "/" + "./";
    assert home[|jail| + 2..] == "/" + rest;
  }

  /** The home stored in the jail is an absolute path exactly if the old home is not the jail and
      does not merely begin with the jail's letters: of "/abc" and the jail "/ab/" it is "c". */
  lemma StoredIsAbsolute(jail: string, jail0: string, home: string)
    requires jail != "" && jail[|jail| - 1] != '/' && jail0 != "" && StripTrailingSlash(jail0) == jail
    requires home != "" && home[0] == '/' && NoSeparator(home)
    ensures StoredHome(jail0, home) != "" && StoredHome(jail0, home)[0] == '/'
            <==> !(StartsWith(home, jail) && (|home| == |jail| || home[|jail|] != '/'))
  {
    StoredForm(jail, jail0, home);
  }

  lemma {:induction false} PrefixSharedHome()
    ensures StoredHome("/ab/", "/abc") == "c"
  {
    assert StripTrailingSlash("/ab/") == "/ab" && NoSeparator("/abc");
    StoredForm("/ab", "/ab/", "/abc");
    assert StartsWith("/abc", "/ab") && "/abc"[3..] == "c";
  }

  /** Splitting what was written: nothing to be found behind the jail, or exactly the rest. */
  lemma SplitWritten(jail: string, rest: string)
    requires |jail| >= 3 && (rest != "" ==> rest[0] == '/') && NoSeparator(rest)
    ensures var s := StripTrailingSlash(jail + "/." + rest);
            if |rest| <= 1 then JailSplit(s, |s|) == None || JailSplit(s, |s|).value.jaildir != jail
            else JailSplit(s, |s|) == Some(Parts(jail, StripTrailingSlash(rest)))
  {
    var s := StripTrailingSlash(jail + "/." + rest);
    if |rest| <= 1 {
      assert s == jail + "/.";
      JailSplitSound(s, |s|);
    } else {
      var kept := StripTrailingSlash(rest);
      var i := |jail| + 2;
      assert s == jail + "/." + kept;
      assert s[|jail|] == '/' && s[|jail| + 1] == '.' && s[i] == kept[0] == rest[0];
      forall k | i < k < |s| ensures !SeparatorAt(s, k) {
        assert s[k] == rest[k - i] && s[k - 1] == rest[k - 1 - i];
        if k - 2 >= i {
          assert s[k - 2] == rest[k - 2 - i];
          assert !SeparatorAt(rest, k - i);
        }
      }
      JailSplitIs(s, i, |s|);
      assert s[..i - 2] == jail && s[i..] == kept;
    }
  }

  lemma StrippedEqual(rest: string)
    requires |rest| >= 2
    ensures SurelyEqual(StripTrailingSlash(rest), rest) <==> !EndsWith(rest, "//")
  {
    var n := |rest|;
    assert rest[n - 2..] == [rest[n - 2], rest[n - 1]];
    SurelyEqualMeans(StripTrailingSlash(rest), rest);
    if rest[n - 1] == '/' { assert rest == rest[..n - 1] + "/"; }
  }

  /** Agreement in terms of what follows the jail. */
  lemma AgreeByRest(jail: string, jail0: string, home: string)
    requires |jail| >= 3 && jail[|jail| - 1] != '/' && (jail0 == jail || jail0 == jail + "/")
    requires home != "" && home[0] == '/' && NoSeparator(home)
    ensures var rest := Rest(jail, home);
            Agree(jail0, home) <==>
            |rest| >= 2
            && SurelyEqual(StripTrailingSlash(rest), if StartsWith(home, jail) then home[|jail|..] else home)
  {
    RestIs(jail, home);
    assert StripTrailingSlash(jail0) == jail && WithSlash(jail0) == jail + "/";
    WrittenForm(jail, jail0, home);
    StoredForm(jail, jail0, home);
    SplitWritten(jail, Rest(jail, home));
  }

  /** The same for a home that has the separator right behind the jail already: they agree if and
      only if a place of its own follows. */
  lemma {:induction false} SeparatedAgree(jail: string, rest: string, slash: bool)
    requires |jail| >= 3 && jail[|jail| - 1] != '/' && NoSeparator("/" + rest)
    ensures Agree(if slash then jail + "/" else jail, jail + "/./" + rest)
            <==> rest != "" && !EndsWith("/" + rest, "//")
  {
    var jail0, behind := if slash then jail + "/" else jail, "/" + rest;
    assert StripTrailingSlash(jail0) == jail && WithSlash(jail0) == jail + "/";
    SeparatedForm(jail, jail0, rest);
    DotBehind(jail, rest);
    AgreeOnRest(jail, jail0, jail + "/./" + rest, behind);
  }

  lemma DotBehind(jail: string, rest: string)
    ensures jail + "/./" + rest == jail + "/." + ("/" + rest)
  {
  }

  lemma AgreeOnRest(jail: string, jail0: string, home: string, behind: string)
    requires |jail| >= 3 && jail0 != "" && home != "" && StripTrailingSlash(jail0) == jail
    requires behind != "" && behind[0] == '/' && NoSeparator(behind)
    requires WrittenHome(jail0, home) == StripTrailingSlash(jail + "/." + behind) && StoredHome(jail0, home) == behind
    ensures Agree(jail0, home) <==> |behind| >= 2 && !EndsWith(behind, "//")
  {
    SplitWritten(jail, behind);
    if |behind| >= 2 { StrippedEqual(behind); }
  }

  lemma Inside(jail: string, jail0: string, home: string)
    requires |jail| >= 3 && jail[|jail| - 1] != '/' && (jail0 == jail || jail0 == jail + "/")
    requires home != "" && home[0] == '/' && NoSeparator(home) && Within(home, jail)
    ensures Agree(jail0, home) <==> Separable(jail, home)
  {
    var rest := home[|jail|..];
    AgreeByRest(jail, jail0, home);
    RestIs(jail, home);
    assert home == jail + rest;
    SeparableInside(jail, rest);
    if |rest| >= 2 { StrippedEqual(rest); }
  }

  lemma SeparableInside(jail: string, rest: string)
    requires |jail| >= 3 && (rest != "" ==> rest[0] == '/')
    ensures Separable(jail, jail + rest) <==> |rest| >= 2 && !EndsWith(rest, "//")
  {
    var home := jail + rest;
    if |rest| >= 2 {
      assert home[|home| - 2..] == rest[|rest| - 2..];
      assert home[|jail|] == '/';
    } else if rest == "" {
      assert home == jail;
    } else {
      assert rest == "/";
    }
  }

  lemma Outside(jail: string, jail0: string, home: string)
    requires |jail| >= 3 && jail[|jail| - 1] != '/' && (jail0 == jail || jail0 == jail + "/")
    requires home != "" && home[0] == '/' && NoSeparator(home) && !Within(home, jail)
    ensures Agree(jail0, home) <==> Separable(jail, home)
  {
    AgreeByRest(jail, jail0, home);
    if |home| >= 2 {
      StrippedEqual(home);
    } else {
      assert home == "/";
    }
    if StartsWith(home, jail) { SurelyEqualMeans(StripTrailingSlash(home), home[|jail|..]); }
    assert home == jail + "/" ==> home[..|jail|] == jail;
    assert home[..|home|] == home;
  }
}
