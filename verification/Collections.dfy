/** Sizes of finite sets, and sequences of sequences. */
module Collections {

  lemma Fewer<T>(some: set<T>, all: set<T>)
    requires some <= all
    ensures |some| <= |all|
  {
    assert all == some + (all - some);
  }

  /** A sequence has no more members than places. */
  lemma {:induction false} MembersOf<T>(list: seq<T>)
    ensures |set x | x in list| <= |list|
    decreases |list|
  {
    if |list| > 0 {
      var front, last := list[..|list| - 1], list[|list| - 1];
      MembersOf(front);
      assert (set x | x in list) == (set x | x in front) + {last};
    }
  }

  function Flat<T>(groups: seq<seq<T>>): seq<T> {
    if |groups| == 0 then [] else Flat(groups[..|groups| - 1]) + groups[|groups| - 1]
  }

  lemma FlatNothing<T>(groups: seq<seq<T>>)
    requires |groups| == 0
    ensures Flat(groups) == []
  {
  }

  lemma FlatGrows<T>(groups: seq<seq<T>>, group: seq<T>)
    ensures Flat(groups + [group]) == Flat(groups) + group
  {
    assert (groups + [group])[..|groups|] == groups;
  }
}
