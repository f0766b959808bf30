/** Small facts about sequences shared by the other modules. */
module Sequences {

  predicate Distinct<T(==)>(s: seq<T>)
  {
    forall i, j :: 0 <= i < j < |s| ==> s[i] != s[j]
  }

  /** Index of the first occurrence of `x` in `s`. */
  function FirstIndex<T(==)>(s: seq<T>, x: T): (i: nat)
    requires x in s
    ensures i < |s| && s[i] == x && x !in s[..i]
  {
    if s[0] == x then 0 else 1 + FirstIndex(s[1..], x)
  }

  lemma {:induction false} FirstIndexAfter<T>(s: seq<T>, x: T, rest: seq<T>)
    requires x !in s
    ensures FirstIndex(s + [x] + rest, x) == |s|
  {
    if s != [] {
      assert (s + [x] + rest)[1..] == s[1..] + [x] + rest;
      FirstIndexAfter(s[1..], x, rest);
    }
  }

  lemma {:induction false} FirstIndexInPrefix<T>(s: seq<T>, x: T, rest: seq<T>)
    requires x in s
    ensures FirstIndex(s + rest, x) == FirstIndex(s, x)
  {
    if s[0] != x {
      assert (s + rest)[1..] == s[1..] + rest;
      FirstIndexInPrefix(s[1..], x, rest);
    }
  }

  /** An index at which `x` occurs in `s`: its only one when `s` is distinct. */
  ghost function Position<T>(s: seq<T>, x: T): (i: nat)
    requires x in s
    ensures i < |s| && s[i] == x
  {
    var i :| 0 <= i < |s| && s[i] == x; i
  }

  lemma PositionDistinct<T>(s: seq<T>, k: nat)
    requires Distinct(s) && k < |s|
    ensures Position(s, s[k]) == k
  {
  }

  lemma PrefixAppend<T>(a: seq<T>, b: seq<T>, c: seq<T>)
    requires b <= c
    ensures a + b <= a + c
  {
    assert (a + c)[..|a + b|] == a + b;
  }

  function Init<T>(s: seq<T>): seq<T>
    requires s != []
  {
    s[..|s| - 1]
  }

  function Last<T>(s: seq<T>): T
    requires s != []
  {
    s[|s| - 1]
  }
}
