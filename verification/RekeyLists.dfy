/** The list of receive keys under filtering, insertion and trimming. */
module RekeyLists {
  import opened Bytes
  import opened Sorting
  import opened RekeySpec

  /** In order of sequence, one entry for a key ID, and each key ID the one its sequence was issued for. */
  ghost predicate Tidy(list: seq<ReceiveCodec>, issued: map<nat, nat>) {
    && Ascends(list, SequenceOf)
    && (forall x, y :: x in list && y in list && x.keyID == y.keyID ==> x == y)
    && (forall x :: x in list ==> x.sequence in issued && issued[x.sequence] == x.keyID)
  }

  lemma {:induction false} DiscardedKeeps(list: seq<ReceiveCodec>, gone: set<(nat, nat)>)
    requires Ascends(list, SequenceOf)
    ensures var r := Discarded(list, gone);
            && |r| <= |list| && Ascends(r, SequenceOf)
            && forall x :: x in r <==> x in list && (x.keyID, x.sequence) !in gone
    decreases |list|
  {
    if |list| > 0 {
      Split(list, SequenceOf);
      DiscardedKeeps(list[..|list| - 1], gone);
    }
  }

  lemma {:induction false} UnexpiredKeeps(list: seq<ReceiveCodec>, now: nat)
    requires Ascends(list, SequenceOf)
    ensures var r := Unexpired(list, now);
            && |r| <= |list| && Ascends(r, SequenceOf)
            && forall x :: x in r <==> x in list && !Expired(x, now)
    decreases |list|
  {
    if |list| > 0 {
      Split(list, SequenceOf);
      UnexpiredKeeps(list[..|list| - 1], now);
    }
  }

  lemma {:induction false} RetainedKeeps(list: seq<ReceiveCodec>, keyID: nat, now: nat)
    requires Ascends(list, SequenceOf)
    ensures var r := Retained(list, keyID, now);
            && |r| <= |list| && Ascends(r, SequenceOf)
            && forall x :: x in r <==> x in list && x.keyID != keyID && !Expired(x, now)
    decreases |list|
  {
    if |list| > 0 {
      Split(list, SequenceOf);
      RetainedKeeps(list[..|list| - 1], keyID, now);
    }
  }

  lemma MarkingKeeps(list: seq<ReceiveCodec>, issued: map<nat, nat>, promote: bool, sendKeyID: nat, now: nat)
    requires Tidy(list, issued)
    ensures Tidy(AllMarked(list, promote, sendKeyID, now), issued)
    ensures forall x :: x in AllMarked(list, promote, sendKeyID, now) && x.keyID != sendKeyID ==> x in list
    ensures forall x :: x in list ==> Marked(x, promote, sendKeyID, now) in AllMarked(list, promote, sendKeyID, now)
  {
    var r := AllMarked(list, promote, sendKeyID, now);
    assert forall i :: 0 <= i < |r| ==>
        r[i].sequence == list[i].sequence && r[i].keyID == list[i].keyID && list[i] in list;
    forall x | x in list ensures Marked(x, promote, sendKeyID, now) in r {
      var i :| 0 <= i < |list| && list[i] == x;
      assert r[i] in r;
    }
  }

  function Later(list: seq<ReceiveCodec>, x: ReceiveCodec): set<ReceiveCodec> {
    set y | y in list && y.sequence > x.sequence
  }

  lemma {:induction false} LaterCount(list: seq<ReceiveCodec>, i: nat)
    requires Ascends(list, SequenceOf) && i < |list|
    ensures |Later(list, list[i])| == |list| - 1 - i
    decreases |list|
  {
    Split(list, SequenceOf);
    var front, last := list[..|list| - 1], list[|list| - 1];
    if i == |list| - 1 {
      assert Later(list, last) == {};
    } else {
      LaterCount(front, i);
      assert front[i] == list[i];
      assert list[i].sequence < last.sequence by { assert SequenceOf(list[i]) < SequenceOf(last); }
      assert Later(list, list[i]) == Later(front, list[i]) + {last};
    }
  }

  /** Trimming keeps exactly the entries with fewer than three newer ones. */
  lemma NewestExactly(list: seq<ReceiveCodec>)
    requires Ascends(list, SequenceOf)
    ensures var r := Newest(list);
            && |r| <= KEY_SCAN_SIZE && Ascends(r, SequenceOf)
            && forall x :: x in r <==> x in list && |Later(list, x)| < KEY_SCAN_SIZE
  {
    var r := Newest(list);
    var n := if |list| > KEY_SCAN_SIZE then |list| - KEY_SCAN_SIZE else 0;
    assert r == list[n..];
    forall x ensures x in r <==> x in list && |Later(list, x)| < KEY_SCAN_SIZE {
      if x in list {
        var i :| 0 <= i < |list| && list[i] == x;
        LaterCount(list, i);
        if i >= n { assert r[i - n] == x; }
        if x in r {
          var j :| 0 <= j < |r| && r[j] == x;
          assert list[n + j] == x;
          LaterCount(list, n + j);
        }
      }
    }
  }

  /** A new key enters an otherwise tidy list, in order, and nothing newer than it is lost before it. */
  lemma InsertKeeps(list: seq<ReceiveCodec>, issued: map<nat, nat>, entry: ReceiveCodec, now: nat)
    requires Tidy(list, issued) && entry.sequence in issued && issued[entry.sequence] == entry.keyID
    ensures var all := Sort(Retained(list, entry.keyID, now) + [entry], SequenceOf);
            && Tidy(all, issued) && |all| > 0
            && forall x :: x in all <==> x == entry || (x in list && x.keyID != entry.keyID && !Expired(x, now))
  {
    hide Ascends, Retained, Sort, Distinct;
    var kept := Retained(list, entry.keyID, now);
    RetainedKeeps(list, entry.keyID, now);
    forall x | x in kept ensures x.sequence != entry.sequence {}
    AppendDistinct(kept, entry);
    SortAscends(kept + [entry], SequenceOf);
    var all := Sort(kept + [entry], SequenceOf);
    forall x ensures x in all <==> x == entry || x in kept {
      assert x in kept + [entry] <==> x == entry || x in kept;
    }
    InsertedIsTidy(list, all, issued, entry);
  }

  lemma InsertedIsTidy(list: seq<ReceiveCodec>, all: seq<ReceiveCodec>, issued: map<nat, nat>, entry: ReceiveCodec)
    requires Tidy(list, issued) && entry.sequence in issued && issued[entry.sequence] == entry.keyID
    requires Ascends(all, SequenceOf) && forall x :: x in all ==> x == entry || (x in list && x.keyID != entry.keyID)
    ensures Tidy(all, issued)
  {
    hide Ascends;
  }

  lemma AppendDistinct(list: seq<ReceiveCodec>, entry: ReceiveCodec)
    requires Ascends(list, SequenceOf) && forall x :: x in list ==> x.sequence != entry.sequence
    ensures Distinct(list + [entry], SequenceOf)
  {
    assert forall i :: 0 <= i < |list| ==> list[i] in list;
  }

  /** The new list: what stays and the new key, without the oldest beyond three. */
  ghost predicate Arranged(r: seq<ReceiveCodec>, list: seq<ReceiveCodec>, entry: ReceiveCodec, now: nat) {
    forall x :: x in r <==> Kept(x, list, entry, now) && |Ahead(x, list, entry, now)| < KEY_SCAN_SIZE
  }

  predicate Kept(x: ReceiveCodec, list: seq<ReceiveCodec>, entry: ReceiveCodec, now: nat) {
    x == entry || (x in list && x.keyID != entry.keyID && !Expired(x, now))
  }

  function Ahead(x: ReceiveCodec, list: seq<ReceiveCodec>, entry: ReceiveCodec, now: nat): set<ReceiveCodec> {
    set y | y in list + [entry] && Kept(y, list, entry, now) && y.sequence > x.sequence
  }

  lemma InstalledExactly(list: seq<ReceiveCodec>, issued: map<nat, nat>, keyID: nat, sequence: nat, promote: bool,
        sendKeyID: nat, now: nat)
    requires Tidy(list, issued) && sequence in issued && issued[sequence] == keyID
    ensures var r := Installed(list, keyID, sequence, promote, sendKeyID, now);
            && |r| <= KEY_SCAN_SIZE && Tidy(r, issued)
            && Arranged(r, AllMarked(list, promote, sendKeyID, now),
                        ReceiveCodec(keyID, sequence, if promote then None else Some(now + TRANSITION_WINDOW)), now)
  {
    hide Ascends, Sort, Retained, AllMarked, Newest, Tidy;
    var entry := ReceiveCodec(keyID, sequence, if promote then None else Some(now + TRANSITION_WINDOW));
    var marked := AllMarked(list, promote, sendKeyID, now);
    MarkingKeeps(list, issued, promote, sendKeyID, now);
    InsertKeeps(marked, issued, entry, now);
    var all := Sort(Retained(marked, keyID, now) + [entry], SequenceOf);
    TrimKeeps(marked, all, issued, entry, now);
  }

  lemma TrimKeeps(list: seq<ReceiveCodec>, all: seq<ReceiveCodec>, issued: map<nat, nat>, entry: ReceiveCodec, now: nat)
    requires Tidy(all, issued) && forall x :: x in all <==> Kept(x, list, entry, now)
    ensures var r := Newest(all); |r| <= KEY_SCAN_SIZE && Tidy(r, issued) && Arranged(r, list, entry, now)
  {
    hide Newest, Ascends, Kept;
    NewestExactly(all);
    forall x ensures Later(all, x) == Ahead(x, list, entry, now) {
      forall y ensures y in Later(all, x) <==> y in Ahead(x, list, entry, now) {
        KeptIsThere(y, list, entry, now);
      }
    }
  }

  lemma KeptIsThere(x: ReceiveCodec, list: seq<ReceiveCodec>, entry: ReceiveCodec, now: nat)
    ensures Kept(x, list, entry, now) ==> x in list + [entry]
  {
  }

  lemma WithoutFields(k: Keys, ids: set<nat>)
    ensures var next := Without(k, ids);
            && next.states == k.states - ids && next.closed == k.closed && next.lastSequence == k.lastSequence
            && next.promoted == k.promoted && next.stream == k.stream && next.pending == k.pending &&
                  next.issued == k.issued
            && next.server == k.server && next.sendKeyID == k.sendKeyID && next.sendCodec == k.sendCodec &&
                  next.sendManager == k.sendManager
  {
  }
}
