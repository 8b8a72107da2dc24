/** Clearing the environment of everything but a list of variables. */
module EnvFilter {
  import opened CStrings

  function KeyLength(entry: string): nat {
    Cspn(entry, "=")
  }

  function KeyOf(entry: string): string {
    entry[..KeyLength(entry)]
  }

  predicate HasKey(entry: string) {
    KeyLength(entry) < |entry|
  }

  /** Of an entry as it is written, key and value joined by the sign, the key is exactly the key. */
  lemma {:induction false} KeyOfEntry(key: string, value: string)
    requires '=' !in key
    ensures HasKey(key + ("=" + value)) && KeyOf(key + ("=" + value)) == key
  {
    var entry := key + ("=" + value);
    CspnIs(entry, "=", |key|);
    assert entry[..|key|] == key;
  }

  /** And a text without the sign has no key. */
  lemma {:induction false} NoKey(text: string)
    ensures HasKey(text) <==> '=' in text
  {
    var n := KeyLength(text);
    if n < |text| {
      assert text[n] == '=';
    } else {
      assert text[..n] == text;
    }
  }

  /** The entries whose key is in the list, in their order. */
  function Kept(env: seq<string>, except: seq<string>): seq<string> {
    if env == [] then []
    else (if KeyOf(env[0]) in except then [env[0]] else []) + Kept(env[1..], except)
  }

  /** What unsetenv(key) leaves: every "key=..." entry goes. */
  function Unset(env: seq<string>, key: string): seq<string> {
    if env == [] then []
    else (if HasKey(env[0]) && KeyOf(env[0]) == key then [] else [env[0]]) + Unset(env[1..], key)
  }

  predicate AllHaveKeys(env: seq<string>) {
    forall i :: 0 <= i < |env| ==> HasKey(env[i])
  }

  /** Going from the front, an entry that starts with "=" comes before any entry without one. */
  predicate EmptyKeyFirst(env: seq<string>) {
    env != [] && HasKey(env[0]) && (KeyOf(env[0]) == "" || EmptyKeyFirst(env[1..]))
  }

  /** unsetenv refuses the empty name, so the walk would come back to such an entry for ever. */
  predicate Stuck(env: seq<string>, except: seq<string>) {
    except != [] && "" !in except && EmptyKeyFirst(env)
  }

  /** The outcome: nothing, if no list is given or any entry is malformed. */
  function Filtered(env: seq<string>, except: seq<string>): seq<string> {
    if except == [] || !AllHaveKeys(env) then [] else Kept(env, except)
  }

  class Process {
    var environ: seq<string>

    constructor (environ: seq<string>)
      ensures this.environ == environ
    {
      this.environ := environ;
    }

    method Clearenv()
      modifies this
      ensures environ == []
    {
      environ := [];
    }

    /** unsetenv refuses the empty name. */
    method Unsetenv(key: string)
      modifies this
      ensures environ == if key == "" then old(environ) else Unset(old(environ), key)
    {
      if key != "" {
        environ := Unset(environ, key);
      }
    }

    method UnsetEnvironExcept(except: seq<string>)
      requires !Stuck(environ, except)
      modifies this
      ensures environ == Filtered(old(environ), except)
      ensures except == [] || (exists e :: e in old(environ) && '=' !in e) ==> environ == []
      ensures except != [] && (forall e :: e in old(environ) ==> '=' in e) ==>
                forall e :: multiset(environ)[e] == if KeyOf(e) in except then multiset(old(environ))[e] else 0
    {
      FilteredExact(environ, except);
      if environ == [] || except == [] {
        Clearenv();
        return;
      }
      ghost var goal := Filtered(environ, except);
      var tmp := 0;
      while tmp < |environ|
        invariant tmp <= |environ| && !Stuck(environ, except)
        invariant forall i :: 0 <= i < tmp ==> HasKey(environ[i]) && KeyOf(environ[i]) in except
        invariant Filtered(environ, except) == goal
        decreases |environ|, |environ| - tmp
      {
        var entry := environ[tmp];
        var pos := KeyLength(entry);
        if pos == |entry| {
          Clearenv();
          return;
        }
        var known := InArray(except, entry, pos);
        if !known {
          NotStuckHere(environ, except, tmp);
          UnsetOne(environ, except, tmp);
          Unsetenv(entry[..pos]);
          tmp := 0;
          continue;
        }
        tmp := tmp + 1;
      }
      AllKept(environ, except);
    }
  }

  method InArray(haystack: seq<string>, needle: string, needlelen: nat) returns (found: bool)
    requires needlelen <= |needle|
    ensures found == (needle[..needlelen] in haystack)
  {
    for tmp := 0 to |haystack|
      invariant needle[..needlelen] !in haystack[..tmp]
    {
      var h := haystack[tmp];
      assert haystack[..tmp + 1] == haystack[..tmp] + [h];
      if |h| == needlelen && h == needle[..needlelen] {
        return true;
      }
    }
    assert haystack[..|haystack|] == haystack;
    return false;
  }

  // ----- removing one variable keeps the answer -----

  lemma {:induction false} UnsetKeeps(env: seq<string>, key: string, except: seq<string>)
    ensures forall e :: e in Unset(env, key) ==> e in env
    ensures forall e :: e in env && !(HasKey(e) && KeyOf(e) == key) ==> e in Unset(env, key)
    ensures |Unset(env, key)| <= |env|
    ensures key !in except ==> Kept(Unset(env, key), except) == Kept(env, except)
    decreases env
  {
    if env != [] {
      UnsetKeeps(env[1..], key, except);
      assert forall e :: e in env <==> e == env[0] || e in env[1..];
      var rest := Unset(env[1..], key);
      if HasKey(env[0]) && KeyOf(env[0]) == key {
        assert [] + rest == rest;
        assert key !in except ==> [] + Kept(env[1..], except) == Kept(env[1..], except);
      } else {
        assert ([env[0]] + rest)[1..] == rest;
      }
    }
  }

  lemma {:induction false} UnsetShrinks(env: seq<string>, key: string, i: nat)
    requires i < |env| && HasKey(env[i]) && KeyOf(env[i]) == key
    ensures |Unset(env, key)| < |env|
    decreases env
  {
    UnsetKeeps(env[1..], key, []);
    if i > 0 { UnsetShrinks(env[1..], key, i - 1); }
  }

  lemma UnsetOne(env: seq<string>, except: seq<string>, i: nat)
    requires i < |env| && HasKey(env[i]) && KeyOf(env[i]) !in except && KeyOf(env[i]) != ""
    ensures var after := Unset(env, KeyOf(env[i]));
            && |after| < |env| && Filtered(after, except) == Filtered(env, except)
            && (Stuck(after, except) <==> Stuck(env, except))
  {
    var key := KeyOf(env[i]);
    UnsetKeeps(env, key, except);
    UnsetShrinks(env, key, i);
    UnsetOrder(env, key);
    var after := Unset(env, key);
    forall j | 0 <= j < |after| ensures after[j] in env {
      assert after[j] in after;
    }
    if !AllHaveKeys(env) {
      var j :| 0 <= j < |env| && !HasKey(env[j]);
      assert env[j] in after;
    }
  }

  lemma {:induction false} UnsetOrder(env: seq<string>, key: string)
    requires key != ""
    ensures EmptyKeyFirst(Unset(env, key)) <==> EmptyKeyFirst(env)
    decreases env
  {
    if env != [] {
      UnsetOrder(env[1..], key);
      var rest := Unset(env[1..], key);
      assert [] + rest == rest;
      assert ([env[0]] + rest)[1..] == rest;
    }
  }

  /** Behind entries that have keys, the first empty one decides. */
  lemma {:induction false} ReachesEmptyKey(env: seq<string>, i: nat)
    requires i < |env| && forall j :: 0 <= j < i ==> HasKey(env[j])
    requires HasKey(env[i]) && KeyOf(env[i]) == ""
    ensures EmptyKeyFirst(env)
    decreases i
  {
    if i > 0 { ReachesEmptyKey(env[1..], i - 1); }
  }

  lemma NotStuckHere(env: seq<string>, except: seq<string>, i: nat)
    requires i < |env| && (forall j :: 0 <= j < i ==> HasKey(env[j])) && HasKey(env[i])
    requires !Stuck(env, except) && except != [] && KeyOf(env[i]) !in except
    ensures KeyOf(env[i]) != ""
  {
    if KeyOf(env[i]) == "" { ReachesEmptyKey(env, i); }
  }

  lemma {:induction false} AllKept(env: seq<string>, except: seq<string>)
    requires forall i :: 0 <= i < |env| ==> HasKey(env[i]) && KeyOf(env[i]) in except
    ensures Kept(env, except) == env && AllHaveKeys(env)
    decreases env
  {
    if env != [] { AllKept(env[1..], except); }
  }

  /** What remains is exactly the entries with a listed key, each as often as before. */
  lemma {:induction false} KeptExact(env: seq<string>, except: seq<string>)
    ensures forall e :: e in Kept(env, except) <==> e in env && KeyOf(e) in except
    ensures forall e :: multiset(Kept(env, except))[e] == if KeyOf(e) in except then multiset(env)[e] else 0
    decreases env
  {
    if env != [] {
      KeptExact(env[1..], except);
      assert env == [env[0]] + env[1..];
    }
  }

  lemma FilteredExact(env: seq<string>, except: seq<string>)
    ensures except == [] || (exists e :: e in env && '=' !in e) ==> Filtered(env, except) == []
    ensures except != [] && (forall e :: e in env ==> '=' in e) ==>
              forall e :: multiset(Filtered(env, except))[e] == if KeyOf(e) in except then multiset(env)[e] else 0
  {
    KeptExact(env, except);
    forall e ensures HasKey(e) <==> '=' in e { NoKey(e); }
    if AllHaveKeys(env) {
      forall e | e in env ensures '=' in e {
        var i :| 0 <= i < |env| && env[i] == e;
        assert HasKey(env[i]);
      }
    } else {
      var i :| 0 <= i < |env| && !HasKey(env[i]);
      assert env[i] in env;
    }
  }

  /** In their order: what remains of a stretch stays in front of what remains behind it. */
  lemma {:induction false} KeptInOrder(a: seq<string>, b: seq<string>, except: seq<string>)
    ensures Kept(a + b, except) == Kept(a, except) + Kept(b, except)
    decreases a
  {
    if a == [] {
      assert a + b == b;
    } else {
      assert (a + b)[0] == a[0] && (a + b)[1..] == a[1..] + b;
      KeptInOrder(a[1..], b, except);
    }
  }

  // ----- exactly when the walk ends -----

  datatype Walk = Running(environ: seq<string>, tmp: nat) | Done(environ: seq<string>)

  /** One turn of the loop. */
  function Turn(w: Walk, except: seq<string>): Walk {
    match w
    case Done(_) => w
    case Running(env, tmp) =>
      if tmp >= |env| then Done(env)
      else if !HasKey(env[tmp]) then Done([])
      else
        var key := KeyOf(env[tmp]);
        if key in except then Running(env, tmp + 1)
        else Running(if key == "" then env else Unset(env, key), 0)
  }

  function Turns(w: Walk, except: seq<string>, n: nat): Walk
    decreases n
  {
    if n == 0 then w else Turns(Turn(w, except), except, n - 1)
  }

  predicate Lost(w: Walk, except: seq<string>) {
    w.Running? && Stuck(w.environ, except) && w.tmp < |w.environ|
    && EmptyKeyFirst(w.environ[w.tmp..])
  }

  lemma LostTurn(w: Walk, except: seq<string>)
    requires Lost(w, except)
    ensures Lost(Turn(w, except), except)
  {
    var env, tmp := w.environ, w.tmp;
    var key := KeyOf(env[tmp]);
    assert env[tmp..][0] == env[tmp] && env[tmp..][1..] == env[tmp + 1..];
    if key !in except {
      if key != "" { UnsetOrder(env, key); }
      var next := Turn(w, except);
      assert next.environ[0..] == next.environ;
    } else {
      assert key != "";
      assert EmptyKeyFirst(env[tmp..][1..]);
    }
  }

  lemma {:induction false} LostForEver(w: Walk, except: seq<string>, n: nat)
    requires Lost(w, except)
    ensures Lost(Turns(w, except, n), except)
    decreases n
  {
    if n > 0 {
      LostTurn(w, except);
      LostForEver(Turn(w, except), except, n - 1);
    }
  }

  /** Unless it is stuck, the walk ends, with the outcome the method leaves. */
  lemma {:induction false} WalkEnds(env: seq<string>, tmp: nat, except: seq<string>) returns (n: nat)
    requires tmp <= |env| && except != [] && !Stuck(env, except)
    requires forall i :: 0 <= i < tmp ==> HasKey(env[i]) && KeyOf(env[i]) in except
    ensures Turns(Running(env, tmp), except, n) == Done(Filtered(env, except))
    decreases |env|, |env| - tmp
  {
    var w := Running(env, tmp);
    var m := 0;
    if tmp == |env| {
      AllKept(env, except);
    } else if HasKey(env[tmp]) {
      if KeyOf(env[tmp]) in except {
        m := WalkEnds(env, tmp + 1, except);
      } else {
        NotStuckHere(env, except, tmp);
        UnsetOne(env, except, tmp);
        m := WalkEnds(Unset(env, KeyOf(env[tmp])), 0, except);
      }
    } else {
      assert !AllHaveKeys(env);
    }
    n := m + 1;
    assert Turns(w, except, n) == Turns(Turn(w, except), except, m);
  }

  /** The walk over a nonempty environment with a nonempty list ends if and only if it is not stuck. */
  lemma {:induction false} EndsUnlessStuck(env: seq<string>, except: seq<string>)
    requires env != [] && except != []
    ensures (exists n :: Turns(Running(env, 0), except, n).Done?) <==> !Stuck(env, except)
  {
    if Stuck(env, except) {
      assert env[0..] == env;
      forall n ensures !Turns(Running(env, 0), except, n).Done? {
        LostForEver(Running(env, 0), except, n);
      }
    } else {
      var n := WalkEnds(env, 0, except);
    }
  }
}
