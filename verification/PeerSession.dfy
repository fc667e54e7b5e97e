/** The session's key states as they are kept: maps, a list of receive keys and the primary control stream. */
module PeerSession {
  import opened Bytes
  import opened PacketCodec
  import opened Sorting
  import opened RekeySpec
  import opened RekeyLists
  import opened RekeySafety

  class PrimaryControlStream {
    var installed: bool
    var sequence: nat
    var handover: nat

    ghost function View(): Stream
      reads this
    {
      RekeySpec.Stream(installed, sequence, handover)
    }

    constructor ()
      ensures View() == RekeySpec.Stream(false, 0, 0)
    {
      installed, sequence, handover := false, 0, 0;
    }

    method Install(sequence: nat)
      modifies this
      ensures View() == RekeySpec.Install(old(View()), sequence)
    {
      if installed && sequence < this.sequence {
        return;
      }
      this.sequence := sequence;
      installed := true;
      if handover <= sequence {
        handover := 0;
      }
    }

    method BeginHandover(sequence: nat)
      modifies this
      ensures View() == RekeySpec.BeginHandover(old(View()), sequence)
    {
      if sequence <= this.sequence || sequence <= handover {
        return;
      }
      handover := sequence;
    }

    method AbortHandover(sequence: nat)
      modifies this
      ensures View() == RekeySpec.AbortHandover(old(View()), sequence)
    {
      if handover != sequence {
        return;
      }
      handover := 0;
    }

    /** The stream to read from, or nothing while it is being handed over. */
    method Snapshot() returns (current: Option<nat>)
      ensures current == if installed && handover == 0 then Some(sequence) else None
    {
      if handover != 0 || !installed {
        return None;
      }
      return Some(sequence);
    }
  }

  lemma {:induction false} DiscardTwice(list: seq<ReceiveCodec>, some: set<(nat, nat)>, more: set<(nat, nat)>)
    ensures Discarded(Discarded(list, some), more) == Discarded(list, some + more)
    decreases |list|
  {
    if |list| > 0 {
      DiscardTwice(list[..|list| - 1], some, more);
      var front, e := Discarded(list[..|list| - 1], some), list[|list| - 1];
      if (e.keyID, e.sequence) !in some {
        assert (front + [e])[..|front|] == front;
      }
    }
  }

  lemma {:induction false} DiscardNothing(list: seq<ReceiveCodec>)
    ensures Discarded(list, {}) == list
    decreases |list|
  {
    if |list| > 0 {
      DiscardNothing(list[..|list| - 1]);
      assert list == list[..|list| - 1] + [list[|list| - 1]];
    }
  }

  lemma WithoutTwice(k: Keys, some: set<nat>, more: set<nat>)
    requires some !! more
    ensures Without(Without(k, some), more) == Without(k, some + more)
  {
    DiscardTwice(k.receive, Pairs(k.states, some), Pairs(k.states - some, more));
    hide Discarded;
    assert Pairs(k.states, some) + Pairs(k.states - some, more) == Pairs(k.states, some + more);
    assert (k.states - some) - more == k.states - (some + more);
    var left, right := Without(Without(k, some), more), Without(k, some + more);
    assert left.channels == right.channels;
  }

  lemma WithoutNothing(k: Keys)
    ensures Without(k, {}) == k
  {
    DiscardNothing(k.receive);
    assert Pairs(k.states, {}) == {};
    assert k.states - {} == k.states;
    assert Without(k, {}).channels == k.channels;
  }

  // ---- Sorting the completed key states ----------------------------------

  function StateSequence(s: KeyState): int { s.sequence }

  /** `list` holds the completed key states among `ids`. */
  ghost predicate Gathered(list: seq<KeyState>, states: States, ids: set<nat>, now: nat) {
    && Distinct(list, StateSequence)
    && forall s :: s in list <==> s.keyID in ids && s.keyID in states && states[s.keyID] == s && Completed(s, now)
  }

  ghost predicate Keyed(states: States) {
    && (forall id :: id in states ==> states[id].keyID == id)
    && (forall a, b :: a in states && b in states && states[a].sequence == states[b].sequence ==> a == b)
  }

  lemma NothingGathered(states: States, now: nat)
    ensures Gathered([], states, {}, now)
  {
  }

  lemma GatherOne(list: seq<KeyState>, states: States, ids: set<nat>, now: nat, id: nat)
    requires Keyed(states) && Gathered(list, states, ids, now) && id in states && id !in ids
    ensures Gathered(if Completed(states[id], now) then list + [states[id]] else list, states, ids + {id}, now)
  {
    forall i | 0 <= i < |list| ensures list[i].sequence != states[id].sequence { assert list[i] in list; }
  }

  function KeyIDs(list: seq<KeyState>): set<nat> {
    set s | s in list :: s.keyID
  }

  lemma NoKeyIDs(states: seq<KeyState>)
    requires |states| == 0
    ensures KeyIDs(states) == {}
  {
  }

  lemma {:induction false} KeyIDCount(list: seq<KeyState>, states: States)
    requires Distinct(list, StateSequence) && forall s :: s in list ==> s.keyID in states && states[s.keyID] == s
    ensures |KeyIDs(list)| == |list|
    decreases |list|
  {
    if |list| == 0 {
      assert KeyIDs(list) == {};
    } else {
      var front, last := list[..|list| - 1], list[|list| - 1];
      KeyIDCount(front, states);
      assert list == front + [last];
      assert KeyIDs(list) == KeyIDs(front) + {last.keyID};
      forall s | s in front ensures s.keyID != last.keyID {
        var i :| 0 <= i < |front| && front[i] == s;
        assert StateSequence(list[i]) != StateSequence(last);
      }
    }
  }

  /** In sorted order, the newer ones of a completed key state are the ones after it. */
  lemma NewerCount(list: seq<KeyState>, states: States, now: nat, i: nat)
    requires Keyed(states) && Gathered(list, states, states.Keys, now) && Ascends(list, StateSequence) && i < |list|
    ensures list[i].keyID in states && |Newer(states, list[i].keyID, now)| == |list| - 1 - i
  {
    var s, rest := list[i], list[i + 1..];
    assert s in list;
    forall t | t in rest ensures t in list && t.sequence > s.sequence {
      var j :| 0 <= j < |rest| && rest[j] == t;
      assert list[i + 1 + j] == t;
      assert StateSequence(list[i]) < StateSequence(list[i + 1 + j]);
    }
    forall t | t in list && t.sequence > s.sequence ensures t in rest {
      var j :| 0 <= j < |list| && list[j] == t;
      InOrder(list, j, i);
      assert rest[j - i - 1] == t;
    }
    KeyIDCount(rest, states);
    NewerIDs(list, rest, states, now, s);
  }

  lemma InOrder(list: seq<KeyState>, j: nat, i: nat)
    requires Ascends(list, StateSequence) && i < |list| && j < |list|
    ensures list[j].sequence > list[i].sequence ==> j > i
  {
  }

  lemma NewerIDs(list: seq<KeyState>, rest: seq<KeyState>, states: States, now: nat, s: KeyState)
    requires Keyed(states) && Gathered(list, states, states.Keys, now) && s in list
    requires forall t :: t in rest <==> t in list && t.sequence > s.sequence
    ensures Newer(states, s.keyID, now) == KeyIDs(rest)
  {
    forall id ensures id in Newer(states, s.keyID, now) <==> id in KeyIDs(rest) {
      if id in states { assert states[id].keyID == id; }
      if id in Newer(states, s.keyID, now) { assert states[id] in list; }
    }
  }

  lemma SortGathered(list: seq<KeyState>, states: States, ids: set<nat>, now: nat)
    requires Gathered(list, states, ids, now)
    ensures Gathered(Sort(list, StateSequence), states, ids, now) && Ascends(Sort(list, StateSequence), StateSequence)
  {
    SortAscends(list, StateSequence);
  }

  /** The next completed key state to drop has not been removed yet. */
  lemma DropsNext(all: seq<KeyState>, states: States, now: nat, gone: set<nat>, n: nat)
    requires Keyed(states) && Gathered(all, states, states.Keys, now) && n < |all|
    requires gone == set id | id in states && Over(states[id], now)
    ensures KeyIDs(all[..n + 1]) == KeyIDs(all[..n]) + {all[n].keyID}
    ensures all[n].keyID in states && states[all[n].keyID] == all[n] && all[n].keyID !in gone + KeyIDs(all[..n])
  {
    assert all[..n + 1] == all[..n] + [all[n]];
    assert all[n] in all;
    forall i | 0 <= i < n ensures all[i].keyID != all[n].keyID {
      assert StateSequence(all[i]) != StateSequence(all[n]);
      assert all[i] in all;
    }
  }

  lemma DroppedIsPruned(all: seq<KeyState>, states: States, now: nat, gone: set<nat>, n: nat)
    requires Keyed(states) && Gathered(all, states, states.Keys, now) && Ascends(all, StateSequence)
    requires gone == set id | id in states && Over(states[id], now)
    requires n <= |all| && |all| - n <= KEY_SCAN_SIZE && (n == 0 || |all| - n == KEY_SCAN_SIZE)
    ensures gone + KeyIDs(all[..n]) == Pruned(states, now)
  {
    forall id ensures id in KeyIDs(all[..n]) <==>
        id in states && Completed(states[id], now) && |Newer(states, id, now)| >= KEY_SCAN_SIZE {
      if id in KeyIDs(all[..n]) {
        var i :| 0 <= i < n && all[i].keyID == id;
        assert all[i] in all;
        NewerCount(all, states, now, i);
      }
      if id in states && Completed(states[id], now) {
        assert states[id] in all;
        var i :| 0 <= i < |all| && all[i] == states[id];
        NewerCount(all, states, now, i);
        if i < n { assert all[..n][i].keyID == id; }
      }
    }
    hide Newer, Keyed, Gathered, Ascends, Completed;
  }

  class TlsPeerSession {
    const server: bool
    const stream: PrimaryControlStream
    var renegotiations: States
    var channels: map<nat, nat>
    var renegotiationSequence: nat
    var promotedKeyStateSequence: nat
    var closed: bool
    var receiveCodecs: seq<ReceiveCodec>
    var sendCodec: nat
    var sendKeyID: nat
    var sendManager: nat
    var pending: set<nat>
    ghost var issued: map<nat, nat>

    ghost function View(): Keys
      reads this, stream
    {
      Keys(server, renegotiations, channels, renegotiationSequence, promotedKeyStateSequence, closed, receiveCodecs,
           sendCodec, sendKeyID, sendManager, stream.View(), pending, issued)
    }

    /** The initial control channel and data codec are in place. */
    constructor (server: bool)
      ensures View() == Initial(server) && fresh(stream)
    {
      this.server := server;
      stream := new PrimaryControlStream();
      renegotiations, channels, issued, pending := map[], map[], map[0 := 0], {};
      renegotiationSequence, promotedKeyStateSequence, closed := 0, 0, false;
      receiveCodecs, sendCodec, sendKeyID, sendManager := [ReceiveCodec(0, 0, None)], 0, 0, 0;
      new;
      stream.Install(0);
    }

    method Retain(keyID: nat, promote: bool, now: nat) returns (retained: seq<ReceiveCodec>)
      ensures retained == Retained(AllMarked(receiveCodecs, promote, sendKeyID, now), keyID, now)
    {
      retained := [];
      ghost var marked := AllMarked(receiveCodecs, promote, sendKeyID, now);
      for n := 0 to |receiveCodecs|
        invariant retained == Retained(marked[..n], keyID, now)
      {
        assert marked[..n + 1][..n] == marked[..n];
        var entry := receiveCodecs[n];
        if entry.keyID == keyID {
          continue;
        }
        if promote && entry.keyID == sendKeyID {
          entry := entry.(expiry := Some(now + TRANSITION_WINDOW));
        }
        if entry.expiry.Some? && entry.expiry.value <= now {
          continue;
        }
        retained := retained + [entry];
      }
      assert marked[..|marked|] == marked;
    }

    method InstallDataKeyState(keyID: nat, sequence: nat, promote: bool, now: nat)
      modifies this`receiveCodecs, this`sendCodec, this`sendKeyID, this`sendManager
      ensures View() == InstallData(old(View()), keyID, sequence, promote, now)
    {
      hide Retained, AllMarked, Sort;
      var retained := Retain(keyID, promote, now);
      retained := retained + [ReceiveCodec(keyID, sequence, if promote then None else Some(now + TRANSITION_WINDOW))];
      retained := Sort(retained, SequenceOf);
      if |retained| > KEY_SCAN_SIZE {
        retained := retained[|retained| - KEY_SCAN_SIZE..];
      }
      receiveCodecs := retained;
      if promote {
        sendCodec, sendKeyID, sendManager := sequence, keyID, sequence;
      }
    }

    method DiscardDataKeyState(keyID: nat, sequence: nat)
      modifies this`receiveCodecs
      ensures receiveCodecs == Discarded(old(receiveCodecs), {(keyID, sequence)})
    {
      var retained: seq<ReceiveCodec> := [];
      for n := 0 to |receiveCodecs|
        invariant retained == Discarded(receiveCodecs[..n], {(keyID, sequence)})
      {
        assert receiveCodecs[..n + 1][..n] == receiveCodecs[..n];
        var entry := receiveCodecs[n];
        if entry.keyID == keyID && entry.sequence == sequence {
          continue;
        }
        retained := retained + [entry];
      }
      assert receiveCodecs[..|receiveCodecs|] == receiveCodecs;
      receiveCodecs := retained;
    }

    /** The codec for a key ID, if it has one that has not expired. */
    method SelectReceiveCodec(keyID: nat, now: nat) returns (selected: Option<nat>)
      modifies this`receiveCodecs
      ensures View() == Select(old(View()), now)
      ensures selected.Some? ==> exists e :: e in receiveCodecs && e.keyID == keyID && e.sequence == selected.value
      ensures selected.None? ==> forall e :: e in receiveCodecs ==> e.keyID != keyID
    {
      selected := None;
      var retained: seq<ReceiveCodec> := [];
      for n := 0 to |receiveCodecs|
        invariant retained == Unexpired(receiveCodecs[..n], now)
        invariant selected.Some? ==> exists e :: e in retained && e.keyID == keyID && e.sequence == selected.value
        invariant selected.None? ==> forall e :: e in retained ==> e.keyID != keyID
      {
        assert receiveCodecs[..n + 1][..n] == receiveCodecs[..n];
        var entry := receiveCodecs[n];
        if entry.expiry.Some? && entry.expiry.value <= now {
          continue;
        }
        ghost var before := retained;
        retained := retained + [entry];
        assert forall e :: e in before ==> e in retained;
        if entry.keyID == keyID {
          assert entry in retained;
          selected := Some(entry.sequence);
        }
      }
      assert receiveCodecs[..|receiveCodecs|] == receiveCodecs;
      receiveCodecs := retained;
    }

    method RemoveRenegotiation(keyID: nat, sequence: nat)
      modifies this`renegotiations, this`channels, this`receiveCodecs
      ensures View() == if Holds(old(View()), keyID, sequence) then Without(old(View()), {keyID}) else old(View())
    {
      if keyID !in renegotiations || renegotiations[keyID].sequence != sequence {
        return;
      }
      assert Pairs(renegotiations, {keyID}) == {(keyID, sequence)};
      renegotiations := renegotiations - {keyID};
      if keyID in channels && channels[keyID] == sequence {
        channels := channels - {keyID};
      }
      assert channels == Without(old(View()), {keyID}).channels;
      DiscardDataKeyState(keyID, sequence);
    }

    method BeginSoftReset(keyID: nat) returns (created: bool)
      requires Inv(View())
      modifies this, stream
      ensures View() == Begin(old(View()), keyID)
      ensures created <==> 1 <= keyID <= KEY_ID_MAX && !old(closed) && !Joins(old(View()), keyID)
      ensures created ==> keyID in renegotiations && renegotiations[keyID].sequence == old(renegotiationSequence) + 1
    {
      if 1 <= keyID <= KEY_ID_MAX && !closed && !Joins(View(), keyID) { BeginRegisters(View(), keyID); }
      hide Inv;
      hide Without, Discarded, Opened;
      if keyID == 0 || keyID > KEY_ID_MAX || closed {
        return false;
      }
      if keyID in renegotiations {
        var existing := renegotiations[keyID];
        if existing.status == Negotiating || existing.status == AwaitingData || sendKeyID == keyID {
          return false;
        }
        RemoveRenegotiation(keyID, existing.sequence);
        WithoutFields(old(View()), {keyID});
      }
      created := Open(keyID);
    }

    method Open(keyID: nat) returns (created: bool)
      modifies this, stream
      ensures View() == Opened(old(View()), keyID)
      ensures created == (keyID !in old(channels))
      ensures created ==> keyID in renegotiations && renegotiations[keyID].sequence == old(renegotiationSequence) + 1
    {
      hide RekeySpec.BeginHandover;
      renegotiationSequence := renegotiationSequence + 1;
      created := keyID !in channels;
      if created {
        Register(KeyState(keyID, renegotiationSequence, Negotiating, 0));
      }
    }

    method Register(state: KeyState)
      modifies this`channels, this`renegotiations, this`pending, this`issued, stream
      ensures View() == old(View()).(states := old(renegotiations)[state.keyID := state],
            channels := old(channels)[state.keyID := state.sequence],
                          stream := RekeySpec.BeginHandover(old(stream.View()), state.sequence),
                          pending := old(pending) + {state.sequence},
                              issued := old(issued)[state.sequence := state.keyID])
    {
      hide RekeySpec.BeginHandover;
      channels, renegotiations := channels[state.keyID := state.sequence], renegotiations[state.keyID := state];
      pending, issued := pending + {state.sequence}, issued[state.sequence := state.keyID];
      stream.BeginHandover(state.sequence);
    }

    /** The new key sends at once; the one before it stays as a lame duck. */
    method PromoteKeyState(keyID: nat, now: nat) returns (promoted: bool)
      requires keyID in renegotiations
      modifies this, stream
      ensures View() == Promote(old(View()), keyID, now)
      ensures promoted == (old(renegotiations)[keyID].sequence > old(promotedKeyStateSequence))
    {
      hide Installed;
      var state := renegotiations[keyID];
      if state.sequence <= promotedKeyStateSequence {
        renegotiations := renegotiations[keyID := state.(status := LameDuck, expiresAt := now + TRANSITION_WINDOW)];
        InstallDataKeyState(keyID, state.sequence, false, now);
        stream.AbortHandover(state.sequence);
        return false;
      }
      Demote(keyID, now);
      promotedKeyStateSequence := state.sequence;
      renegotiations := renegotiations[keyID := renegotiations[keyID].(status := Active)];
      InstallDataKeyState(keyID, state.sequence, true, now);
      stream.Install(state.sequence);
      return true;
    }

    method Demote(keyID: nat, now: nat)
      modifies this`renegotiations
      ensures renegotiations == Demoted(old(renegotiations), keyID, now)
    {
      var rest := renegotiations.Keys;
      while rest != {}
        invariant rest <= renegotiations.Keys == old(renegotiations).Keys
        invariant forall id :: id in rest ==> renegotiations[id] == old(renegotiations)[id]
        invariant forall id :: id in renegotiations && id !in rest ==>
              renegotiations[id] == Demoted(old(renegotiations), keyID, now)[id]
        decreases rest
      {
        var id :| id in rest;
        rest := rest - {id};
        var state := renegotiations[id];
        if id != keyID && state.status == Active {
          renegotiations := renegotiations[id := state.(status := LameDuck, expiresAt := now + TRANSITION_WINDOW)];
        }
      }
    }

    /** Walks the key states in any order, removing those past their time and gathering the completed ones. */
    method RemoveOverdue(now: nat) returns (completed: seq<KeyState>, ghost gone: set<nat>)
      requires Keyed(renegotiations)
      modifies this`renegotiations, this`channels, this`receiveCodecs
      ensures View() == Without(old(View()), gone)
      ensures Gathered(completed, old(renegotiations), old(renegotiations).Keys, now)
      ensures gone == set id | id in old(renegotiations) && Over(old(renegotiations)[id], now)
    {
      hide Without, Gathered;
      completed, gone := [], {};
      WithoutNothing(View());
      assert Gathered([], renegotiations, {}, now) by { NothingGathered(renegotiations, now); }
      var rest := renegotiations.Keys;
      ghost var states := renegotiations;
      assert states.Keys - rest == {};
      while rest != {}
        invariant rest <= states.Keys && View() == Without(old(View()), gone) && renegotiations == states - gone
        invariant Gathered(completed, states, states.Keys - rest, now)
        invariant gone == set id | id in states && id !in rest && Over(states[id], now)
        decreases rest
      {
        var id :| id in rest;
        GatherOne(completed, states, states.Keys - rest, now, id);
        assert states.Keys - (rest - {id}) == states.Keys - rest + {id};
        rest := rest - {id};
        var state := renegotiations[id];
        if Retiring(state) && state.expiresAt <= now {
          WithoutTwice(old(View()), gone, {id});
          WithoutFields(old(View()), gone + {id});
          RemoveRenegotiation(id, state.sequence);
          gone := gone + {id};
        } else if state.status == Active || Retiring(state) {
          completed := completed + [state];
        }
      }
      assert states.Keys - {} == states.Keys;
    }

    /** Keeps the active key state, the newest lame ducks, and whatever is still being negotiated. */
    method PruneRenegotiations(now: nat)
      requires Keyed(renegotiations)
      modifies this`renegotiations, this`channels, this`receiveCodecs
      ensures View() == Prune(old(View()), now)
    {
      hide Without, Gathered, Pruned, Keyed, Ascends, Distinct, Sort, KeyIDs;
      ghost var states := renegotiations;
      var completed;
      ghost var gone;
      completed, gone := RemoveOverdue(now);
      SortGathered(completed, states, states.Keys, now);
      completed := Sort(completed, StateSequence);
      ghost var all, n, out := completed, 0, gone;
      NoKeyIDs(all[..0]);
      WithoutFields(old(View()), out);
      while |completed| > KEY_SCAN_SIZE
        invariant 0 <= n <= |all| && completed == all[n..] && (n == 0 || |completed| >= KEY_SCAN_SIZE)
        invariant out == gone + KeyIDs(all[..n]) && View() == Without(old(View()), out)
        invariant renegotiations == states - out
        decreases |completed|
      {
        var state := completed[0];
        DropsNext(all, states, now, gone, n);
        WithoutTwice(old(View()), out, {state.keyID});
        completed := completed[1..];
        RemoveRenegotiation(state.keyID, state.sequence);
        n, out := n + 1, out + {state.keyID};
        WithoutFields(old(View()), out);
      }
      DroppedIsPruned(all, states, now, gone, n);
    }

    /** Called with the key state of a negotiation and its outcome; only the first call does anything. */
    method FinishSoftReset(keyID: nat, sequence: nat, success: bool, now: nat, later: nat)
      requires Inv(View()) && sequence in issued && issued[sequence] == keyID
      modifies this, stream
      ensures View() == Finish(old(View()), sequence, success, now, later)
    {
      hide Inv, Promote, Fail, Prune, Keyed;
      if sequence !in pending {
        return;
      }
      pending := pending - {sequence};
      if success && keyID in renegotiations && renegotiations[keyID].sequence == sequence {
        PromotedIsKeyed(old(View()), keyID, sequence, now);
        var promoted := PromoteKeyState(keyID, now);
        PruneRenegotiations(later);
      } else {
        FailSoftReset(keyID, sequence);
      }
    }

    method FailSoftReset(keyID: nat, sequence: nat)
      modifies this, stream
      ensures View() == Fail(old(View()), keyID, sequence)
    {
      hide Discarded, Without, RekeySpec.AbortHandover;
      DiscardDataKeyState(keyID, sequence);
      stream.AbortHandover(sequence);
      RemoveRenegotiation(keyID, sequence);
    }

    method ExpireKeyState(keyID: nat, sequence: nat, now: nat)
      modifies this
      ensures View() == Expire(old(View()), keyID, sequence, now)
    {
      hide Without;
      if keyID !in renegotiations || renegotiations[keyID].sequence != sequence {
        return;
      }
      var state := renegotiations[keyID];
      if !Retiring(state) || now < state.expiresAt {
        return;
      }
      RemoveRenegotiation(keyID, sequence);
    }

    method StageNegotiatedReceiveKey(keyID: nat, now: nat) returns (staged: bool)
      modifies this
      ensures View() == Stage(old(View()), keyID, now)
      ensures staged == (keyID in renegotiations && renegotiations[keyID].status == Negotiating)
    {
      hide Installed;
      if keyID !in renegotiations || renegotiations[keyID].status != Negotiating {
        return false;
      }
      InstallDataKeyState(keyID, renegotiations[keyID].sequence, false, now);
      return true;
    }

    method FailAllRenegotiations()
      modifies this, stream
      ensures View() == Close(old(View()))
    {
      hide Without;
      closed := true;
      ghost var k, out := old(View()), {};
      WithoutNothing(k);
      var rest := renegotiations.Keys;
      while rest != {}
        invariant rest <= k.states.Keys && out == k.states.Keys - rest
        invariant View() == Without(k, out).(closed := true, stream := Awaits(k, out))
        invariant renegotiations == k.states - out
        decreases rest
      {
        var id :| id in rest;
        var state := renegotiations[id];
        WithoutTwice(k, out, {id});
        ClosingIgnores(Without(k, out), Awaits(k, out), {id});
        RemoveRenegotiation(id, state.sequence);
        stream.AbortHandover(state.sequence);
        rest, out := rest - {id}, out + {id};
        WithoutFields(k, out);
      }
      assert out == k.states.Keys;
    }
  }

  /** The stream once the key states of `ids` have let go of it. */
  ghost function Awaits(k: Keys, ids: set<nat>): Stream {
    if exists id :: id in k.states && id in ids && k.states[id].sequence == k.stream.handover
    then k.stream.(handover := 0)
    else k.stream
  }

  lemma ClosingIgnores(k: Keys, stream: Stream, ids: set<nat>)
    ensures Without(k.(closed := true, stream := stream), ids) == Without(k, ids).(closed := true, stream := stream)
  {
  }

  lemma PromotedIsKeyed(k: Keys, keyID: nat, sequence: nat, now: nat)
    requires Inv(k) && sequence in k.pending && sequence in k.issued && k.issued[sequence] == keyID
    requires Holds(k, keyID, sequence)
    ensures Keyed(Promote(k.(pending := k.pending - {sequence}), keyID, now).states)
  {
    hide Promote, Table, Promotion, Waiting, Streaming, Receiving, Sending, Keyed;
    FinishReady(k, sequence);
    var next := k.(pending := k.pending - {sequence});
    ListsIgnore(k, next);
    PromoteKeeps(next, keyID, now);
    TableIsKeyed(Promote(next, keyID, now));
  }

  lemma TableIsKeyed(k: Keys)
    requires Table(k)
    ensures Keyed(k.states)
  {
  }
}
