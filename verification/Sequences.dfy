/**
 Facts about concatenation that proofs elsewhere call by name.
 */
module Sequences {

  lemma Assoc<T>(a: seq<T>, b: seq<T>, c: seq<T>)
    ensures a + b + c == a + (b + c)
  {
  }

  lemma Regroup<T>(a: seq<T>, b: seq<T>, c: seq<T>, d: seq<T>)
    ensures a + (b + (c + d)) == a + b + c + d
  {
  }

  lemma Cancel<T>(a: seq<T>, b: seq<T>, c: seq<T>)
    requires a + b == a + c
    ensures b == c
  {
    assert (a + b)[|a|..] == b && (a + c)[|a|..] == c;
  }

  lemma DropStep<T>(s: seq<T>, i: nat)
    requires i < |s|
    ensures s[i..] == [s[i]] + s[i + 1..] && s[i..][1..] == s[i + 1..]
  {
  }

  lemma TakeStep<T>(s: seq<T>, i: nat)
    requires i < |s|
    ensures s[..i + 1] == s[..i] + [s[i]]
  {
  }

  lemma SplitDrop<T>(s: seq<T>, i: nat, j: nat)
    requires i <= j <= |s|
    ensures s[i..] == s[i..j] + s[j..]
  {
  }

  lemma SliceOfDrop<T>(s: seq<T>, a: nat, i: nat, j: nat)
    requires i <= j && a + j <= |s|
    ensures s[a..][i..j] == s[a + i..a + j]
  {
  }

  /** Where a slice is a concatenation, its parts are slices. */
  lemma SplitSlice<T>(s: seq<T>, i: nat, p: seq<T>, q: seq<T>)
    requires i + |p| + |q| <= |s| && s[i..i + |p| + |q|] == p + q
    ensures s[i..i + |p|] == p && s[i + |p|..i + |p| + |q|] == q
  {
    var t := s[i..i + |p| + |q|];
    assert s[i..i + |p|] == t[..|p|] && s[i + |p|..i + |p| + |q|] == t[|p|..];
  }
}
