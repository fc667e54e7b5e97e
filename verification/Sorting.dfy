/** Stable sorting by a number that each member carries. */
module Sorting {

  ghost predicate Distinct<T, K>(s: seq<T>, key: T -> K) {
    forall i, j :: 0 <= i < j < |s| ==> key(s[i]) != key(s[j])
  }

  function Place<T>(x: T, s: seq<T>, key: T -> int): (r: seq<T>)
    ensures |r| == |s| + 1 && multiset(r) == multiset{x} + multiset(s)
  {
    if |s| == 0 then [x]
    else
      assert s == s[..|s| - 1] + [s[|s| - 1]];
      if key(s[|s| - 1]) <= key(x) then s + [x] else Place(x, s[..|s| - 1], key) + [s[|s| - 1]]
  }

  function Sort<T>(s: seq<T>, key: T -> int): (r: seq<T>)
    ensures |r| == |s| && multiset(r) == multiset(s)
  {
    if |s| == 0 then []
    else
      assert s == s[..|s| - 1] + [s[|s| - 1]];
      Place(s[|s| - 1], Sort(s[..|s| - 1], key), key)
  }

  ghost predicate Ascends<T>(s: seq<T>, key: T -> int) {
    forall i, j :: 0 <= i < j < |s| ==> key(s[i]) < key(s[j])
  }

  lemma {:induction false} PlaceAscends<T>(x: T, s: seq<T>, key: T -> int)
    requires Ascends(s, key) && forall y :: y in s ==> key(y) != key(x)
    ensures Ascends(Place(x, s, key), key)
    decreases |s|
  {
    if |s| > 0 && key(s[|s| - 1]) > key(x) {
      var front, last := s[..|s| - 1], s[|s| - 1];
      PlaceAscends(x, front, key);
      var r := Place(x, front, key);
      forall i | 0 <= i < |r| ensures key(r[i]) < key(last) {
        assert r[i] in multiset(r);
        if r[i] != x { assert r[i] in front; }
      }
    } else {
      forall i | 0 <= i < |s| ensures key(s[i]) < key(x) {
        assert s[i] in s;
      }
    }
  }

  /** Sorting members with distinct numbers gives them in strictly ascending order. */
  lemma {:induction false} SortAscends<T>(s: seq<T>, key: T -> int)
    requires Distinct(s, key)
    ensures Ascends(Sort(s, key), key)
    ensures forall x :: x in Sort(s, key) <==> x in s
    decreases |s|
  {
    forall x ensures x in Sort(s, key) <==> x in s {
      assert x in multiset(Sort(s, key)) <==> x in multiset(s);
    }
    if |s| > 0 {
      var front, last := s[..|s| - 1], s[|s| - 1];
      SortAscends(front, key);
      forall y | y in Sort(front, key) ensures key(y) != key(last) {
        assert y in multiset(Sort(front, key));
        assert y in front;
      }
      PlaceAscends(last, Sort(front, key), key);
    }
  }

  lemma FirstIsMember<T>(s: seq<T>)
    ensures |s| == 0 || s[0] in s
  {
  }

  /** Two strictly ascending sequences with the same members are equal. */
  lemma {:induction false} AscendingIsUnique<T>(s: seq<T>, t: seq<T>, key: T -> int)
    requires Ascends(s, key) && Ascends(t, key) && forall x :: x in s <==> x in t
    ensures s == t
    decreases |s|
  {
    FirstIsMember(s);
    FirstIsMember(t);
    if |s| > 0 {
      Split(s, key);
      Split(t, key);
      hide Ascends;
      var last := s[|s| - 1];
      assert last == t[|t| - 1] by { assert last in t && t[|t| - 1] in s; }
      var front, rest := s[..|s| - 1], t[..|t| - 1];
      forall x ensures x in front <==> x in rest {
        assert x in s <==> x in t;
      }
      AscendingIsUnique(front, rest, key);
    }
  }

  lemma Split<T>(s: seq<T>, key: T -> int)
    requires Ascends(s, key) && |s| > 0
    ensures s == s[..|s| - 1] + [s[|s| - 1]] && Ascends(s[..|s| - 1], key)
    ensures forall x :: x in s ==> key(x) <= key(s[|s| - 1])
    ensures forall x :: x in s[..|s| - 1] <==> x in s && x != s[|s| - 1]
    ensures forall x :: x in s && key(x) == key(s[|s| - 1]) ==> x == s[|s| - 1]
  {
    var front, last := s[..|s| - 1], s[|s| - 1];
    forall x | x in s && x != last ensures x in front && key(x) < key(last) {
      var i :| 0 <= i < |s| && s[i] == x;
      assert front[i] == x;
    }
  }
}
