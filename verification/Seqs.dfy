/** Facts about sequences that the proofs name instead of leaving them to be found. */
module Seqs {

  lemma Associative<T>(a: seq<T>, b: seq<T>, c: seq<T>)
    ensures a + b + c == a + (b + c)
  {
  }

  lemma Uncons<T>(s: seq<T>, t: seq<T>)
    requires s != []
    ensures (s + t) != [] && (s + t)[0] == s[0] && (s + t)[1..] == s[1..] + t
  {
  }

  lemma Tail<T>(s: seq<T>, i: nat)
    requires i < |s|
    ensures s[i..] != [] && s[i..][0] == s[i] && s[i..][1..] == s[i + 1..]
  {
  }

  lemma Unsnoc<T>(s: seq<T>)
    requires s != []
    ensures s[..|s|] == s && s == s[..|s| - 1] + [s[|s| - 1]]
  {
  }

  lemma Extends<T>(s: seq<T>, t: seq<T>)
    ensures s <= s + t
  {
  }

  lemma CutBehind<T>(a: seq<T>, b: seq<T>, n: nat)
    requires n <= |a|
    ensures (a + b)[n..] == a[n..] + b && (a + b)[..n] == a[..n]
  {
  }

  lemma TakeDrop<T>(s: seq<T>, n: nat)
    requires n <= |s|
    ensures s == s[..n] + s[n..]
  {
  }

  /** What is left behind index i, cut at index j. */
  lemma Cut<T>(s: seq<T>, i: nat, j: nat)
    requires i <= j <= |s|
    ensures s[i..] == if j < |s| then s[i..j] + ([s[j]] + s[j + 1..]) else s[i..j]
  {
  }
}
