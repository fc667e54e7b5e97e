/** Sequences whose members carry distinct packet IDs, seen as maps from ID to member. */
module ById {
  import opened Bytes
  import Sorting

  ghost predicate Ascends<T>(s: seq<T>, key: T -> Uint32) {
    Sorting.Ascends(s, Wide(key))
  }

  function Wide<T>(key: T -> Uint32): T -> int {
    x => key(x)
  }

  lemma AscendsByKey<T>(s: seq<T>, key: T -> Uint32)
    requires forall i, j :: 0 <= i < j < |s| ==> key(s[i]) < key(s[j])
    ensures Ascends(s, key)
  {
  }

  function Sort<T>(s: seq<T>, key: T -> Uint32): (r: seq<T>)
    ensures |r| == |s|
  {
    Sorting.Sort(s, Wide(key))
  }

  ghost function Index<T>(s: seq<T>, key: T -> Uint32): map<Uint32, T> {
    if |s| == 0 then map[] else Index(s[..|s| - 1], key)[key(s[|s| - 1]) := s[|s| - 1]]
  }

  /** With distinct IDs the map holds exactly the members. */
  lemma {:induction false} Indexed<T>(s: seq<T>, key: T -> Uint32)
    requires Sorting.Distinct(s, key)
    ensures |Index(s, key)| == |s|
    ensures forall i :: 0 <= i < |s| ==> key(s[i]) in Index(s, key) && Index(s, key)[key(s[i])] == s[i]
    ensures forall id :: id in Index(s, key) ==> Index(s, key)[id] in s && key(Index(s, key)[id]) == id
    decreases |s|
  {
    if |s| > 0 {
      var front, last := s[..|s| - 1], s[|s| - 1];
      Indexed(front, key);
      var m := Index(front, key);
      assert forall x :: x in front ==> key(x) != key(last);
      assert key(last) !in m;
      assert Index(s, key) == m[key(last) := last];
      forall i | 0 <= i < |s| ensures key(s[i]) in Index(s, key) && Index(s, key)[key(s[i])] == s[i] {
        if i < |s| - 1 { assert front[i] == s[i]; }
      }
    }
  }

  /** A sequence with distinct IDs is determined, as a map, by its members. */
  lemma SameIndex<T>(s: seq<T>, t: seq<T>, key: T -> Uint32)
    requires Sorting.Distinct(s, key) && Sorting.Distinct(t, key)
    requires forall x :: x in s <==> x in t
    ensures Index(s, key) == Index(t, key)
  {
    Indexed(s, key);
    Indexed(t, key);
    var m, n := Index(s, key), Index(t, key);
    forall id | id in m ensures id in n && n[id] == m[id] { assert m[id] in t; }
    forall id | id in n ensures id in m { assert n[id] in s; }
  }

  lemma SortAscends<T>(s: seq<T>, key: T -> Uint32)
    requires Sorting.Distinct(s, key)
    ensures Ascends(Sort(s, key), key) && Sorting.Distinct(Sort(s, key), key)
    ensures forall x :: x in Sort(s, key) <==> x in s
  {
    Sorting.SortAscends(s, Wide(key));
  }

  lemma SortKeepsIndex<T>(s: seq<T>, key: T -> Uint32)
    requires Sorting.Distinct(s, key)
    ensures Ascends(Sort(s, key), key) && Sorting.Distinct(Sort(s, key), key)
    ensures Index(Sort(s, key), key) == Index(s, key)
  {
    SortAscends(s, key);
    SameIndex(Sort(s, key), s, key);
  }

  lemma AscendingIsUnique<T>(s: seq<T>, t: seq<T>, key: T -> Uint32)
    requires Ascends(s, key) && Ascends(t, key) && forall x :: x in s <==> x in t
    ensures s == t
  {
    Sorting.AscendingIsUnique(s, t, Wide(key));
  }

  // ---- Changing one member -----------------------------------------------

  lemma AppendIndex<T>(s: seq<T>, x: T, key: T -> Uint32)
    requires Sorting.Distinct(s, key) && key(x) !in Index(s, key)
    ensures Sorting.Distinct(s + [x], key)
    ensures Index(s + [x], key) == Index(s, key)[key(x) := x]
  {
    Indexed(s, key);
    assert (s + [x])[..|s|] == s;
    hide Index;
    forall i | 0 <= i < |s| ensures key(s[i]) != key(x) {}
  }

  lemma UpdateMembers<T>(s: seq<T>, i: nat, x: T, key: T -> Uint32)
    requires Sorting.Distinct(s, key) && i < |s| && key(x) == key(s[i])
    ensures Sorting.Distinct(s[i := x], key)
    ensures forall y :: y in s[i := x] <==> y == x || (y in s && key(y) != key(x))
  {
    var t := s[i := x];
    assert t[i] == x;
    forall y | y in s && key(y) != key(x) ensures y in t {
      var j :| 0 <= j < |s| && s[j] == y;
      assert t[j] == y;
    }
  }

  lemma UpdateIndex<T>(s: seq<T>, i: nat, x: T, key: T -> Uint32)
    requires Sorting.Distinct(s, key) && i < |s| && key(x) == key(s[i])
    ensures Sorting.Distinct(s[i := x], key)
    ensures Index(s[i := x], key) == Index(s, key)[key(x) := x]
  {
    hide Index;
    UpdateMembers(s, i, x, key);
    var t := s[i := x];
    Indexed(s, key);
    Indexed(t, key);
    hide Sorting.Distinct;
    var m, n := Index(s, key), Index(t, key);
    forall id | id in m && id != key(x) ensures id in n && n[id] == m[id] { assert m[id] in t; }
    assert key(x) in n && n[key(x)] == x by { assert t[i] == x; }
    forall id | id in n ensures id in m[key(x) := x] { assert n[id] in t; }
  }

  lemma WithoutIndex<T>(s: seq<T>, t: seq<T>, gone: Uint32, key: T -> Uint32)
    requires Sorting.Distinct(s, key) && Sorting.Distinct(t, key) && forall x :: x in t <==> x in s && key(x) != gone
    ensures Index(t, key) == Index(s, key) - {gone}
  {
    hide Index;
    Indexed(s, key);
    Indexed(t, key);
    var m, n := Index(s, key), Index(t, key);
    forall id | id in m && id != gone ensures id in n && n[id] == m[id] { assert m[id] in t; }
    forall id | id in n ensures id in m && id != gone { assert n[id] in s; }
  }

  /** Moves the last member into place `i` and drops the end. */
  function SwapRemove<T>(s: seq<T>, i: nat): seq<T>
    requires i < |s|
  {
    s[i := s[|s| - 1]][..|s| - 1]
  }

  lemma SwapRemoveMembers<T>(s: seq<T>, i: nat, key: T -> Uint32)
    requires Sorting.Distinct(s, key) && i < |s|
    ensures Sorting.Distinct(SwapRemove(s, i), key)
    ensures forall x :: x in SwapRemove(s, i) <==> x in s && key(x) != key(s[i])
  {
    var t, last := SwapRemove(s, i), |s| - 1;
    assert forall j :: 0 <= j < |t| ==> t[j] == if j == i then s[last] else s[j];
    forall x | x in s && key(x) != key(s[i]) ensures x in t {
      var j :| 0 <= j < |s| && s[j] == x;
      assert t[if j == last then i else j] == x;
    }
  }

  lemma RemoveIndex<T>(s: seq<T>, i: nat, key: T -> Uint32)
    requires Sorting.Distinct(s, key) && i < |s|
    ensures Sorting.Distinct(SwapRemove(s, i), key)
    ensures Index(SwapRemove(s, i), key) == Index(s, key) - {key(s[i])}
  {
    SwapRemoveMembers(s, i, key);
    WithoutIndex(s, SwapRemove(s, i), key(s[i]), key);
  }

  lemma TailMembers<T>(s: seq<T>, key: T -> Uint32)
    requires Ascends(s, key) && |s| > 0
    ensures Sorting.Distinct(s, key) && Sorting.Distinct(s[1..], key)
    ensures forall x :: x in s[1..] <==> x in s && key(x) != key(s[0])
  {
    forall x | x in s && key(x) != key(s[0]) ensures x in s[1..] {
      var i :| 0 <= i < |s| && s[i] == x;
      assert s[1..][i - 1] == x;
    }
  }

  lemma DropFirst<T>(s: seq<T>, key: T -> Uint32)
    requires Ascends(s, key) && |s| > 0
    ensures Sorting.Distinct(s, key) && Sorting.Distinct(s[1..], key)
    ensures Index(s[1..], key) == Index(s, key) - {key(s[0])}
  {
    TailMembers(s, key);
    WithoutIndex(s, s[1..], key(s[0]), key);
  }
}
