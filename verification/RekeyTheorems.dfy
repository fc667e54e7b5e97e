/** What a session can rely on in every state it can reach, however negotiations overlap. */
module RekeyTheorems {
  import opened Bytes
  import opened PacketCodec
  import opened Sorting
  import opened RekeySpec
  import opened RekeyLists
  import opened RekeySafety
  import opened Collections

  lemma ReachableInv(server: bool, actions: seq<Action>)
    ensures Inv(Run(Initial(server), actions))
  {
    hide Inv, Run;
    InitialInv(server);
    RunKeeps(Initial(server), actions);
  }

  /** At most one key state is active; it is the one used for sending and the last one promoted. */
  lemma OneActiveKey(server: bool, actions: seq<Action>)
    ensures var k := Run(Initial(server), actions);
            && (forall id :: id in k.states && k.states[id].status == Active ==>
                  id == k.sendKeyID && k.states[id].sequence == k.promoted && k.sendCodec == k.promoted &&
                      k.sendManager == k.promoted)
            && (!k.closed && k.promoted > 0 ==> k.sendKeyID in k.states && k.states[k.sendKeyID].status == Active)
  {
    ReachableInv(server, actions);
    hide Run, Waiting, Streaming, Receiving, Sending;
  }

  lemma PromoteForward(k: Keys, keyID: nat, now: nat)
    requires keyID in k.states
    ensures var next := Promote(k, keyID, now);
            next.server == k.server && next.promoted >= k.promoted && next.lastSequence == k.lastSequence &&
                next.closed == k.closed
  {
    hide Installed, Demoted;
  }

  lemma FinishForward(k: Keys, sequence: nat, success: bool, now: nat, later: nat)
    ensures var next := Finish(k, sequence, success, now, later);
            next.server == k.server && next.promoted >= k.promoted && next.lastSequence == k.lastSequence &&
                next.closed == k.closed
  {
    hide Promote, Without, Pruned, Discarded;
    if sequence in k.pending && sequence in k.issued {
      var keyID, next := k.issued[sequence], k.(pending := k.pending - {sequence});
      if success && Holds(k, keyID, sequence) {
        PromoteForward(next, keyID, now);
        var promoted := Promote(next, keyID, now);
        WithoutFields(promoted, Pruned(promoted.states, later));
      } else {
        WithoutFields(next.(receive := Discarded(next.receive, {(keyID, sequence)}),
            stream := AbortHandover(next.stream, sequence)), {keyID});
      }
    }
  }

  lemma FieldsForward(k: Keys, a: Action)
    ensures var next := Step(k, a);
            next.server == k.server && next.promoted >= k.promoted && next.lastSequence >= k.lastSequence &&
                (k.closed ==> next.closed)
  {
    hide Finish, Without, Installed, Unexpired;
    match a
    case BeginReset(keyID) => WithoutFields(k, {keyID});
    case FinishReset(sequence, success, now, later) => FinishForward(k, sequence, success, now, later);
    case ExpireState(keyID, _, _) => WithoutFields(k, {keyID});
    case StageKey(keyID, now) =>
    case SelectCodec(now) =>
    case CloseAll => WithoutFields(k, k.states.Keys);
  }

  /** Neither the promoted sequence nor the control stream ever goes back. */
  lemma StepForward(k: Keys, a: Action)
    requires Inv(k)
    ensures var next := Step(k, a);
            next.promoted >= k.promoted && next.stream.sequence >= k.stream.sequence &&
                next.lastSequence >= k.lastSequence
  {
    StepKeeps(k, a);
    FieldsForward(k, a);
    hide Step, Table, Promotion, Waiting, Receiving, Sending;
  }

  lemma {:induction false} RunForward(server: bool, actions: seq<Action>, more: seq<Action>)
    ensures var k, next := Run(Initial(server), actions), Run(Initial(server), actions + more);
            next.promoted >= k.promoted && next.stream.sequence >= k.stream.sequence
    decreases |more|
  {
    hide Step, Inv;
    if |more| == 0 {
      assert actions + more == actions;
    } else {
      var front := more[..|more| - 1];
      RunForward(server, actions, front);
      var all := actions + more;
      assert all[..|all| - 1] == actions + front;
      ReachableInv(server, actions + front);
      StepForward(Run(Initial(server), actions + front), all[|all| - 1]);
    }
  }

  /** The stream only waits for a negotiation that is still to finish, so that it is free once all have. */
  lemma StreamNeverStuck(server: bool, actions: seq<Action>)
    ensures var k := Run(Initial(server), actions);
            && k.stream.sequence == k.promoted
            && (k.stream.handover != 0 ==>
                  Negotiates(k, k.stream.handover) && k.stream.handover in k.pending && !k.closed)
            && (k.pending == {} || k.closed ==> k.stream.handover == 0)
  {
    ReachableInv(server, actions);
    hide Run, Receiving, Sending;
  }

  /** Whichever way the awaited negotiation ends, the stream stops waiting for it. */
  lemma FinishReleasesStream(k: Keys, success: bool, now: nat, later: nat)
    requires Inv(k) && k.stream.handover != 0
    ensures Finish(k, k.stream.handover, success, now, later).stream.handover == 0
  {
    hide Discarded, Installed, Pruned, Pairs, Demoted, Receiving, Sending;
  }

  /** At most three receive keys, in order of sequence, for different key IDs. */
  lemma ReceiveKeys(server: bool, actions: seq<Action>)
    ensures var list := Run(Initial(server), actions).receive;
            && |list| <= KEY_SCAN_SIZE
            && forall i, j :: 0 <= i < j < |list| ==>
                  list[i].sequence < list[j].sequence && list[i].keyID != list[j].keyID
  {
    ReachableInv(server, actions);
    hide Run, Table, Promotion, Waiting, Streaming, Sending;
    var list := Run(Initial(server), actions).receive;
    forall i, j | 0 <= i < j < |list| ensures list[i].sequence < list[j].sequence && list[i].keyID != list[j].keyID {
      assert SequenceOf(list[i]) < SequenceOf(list[j]);
      assert list[i] in list && list[j] in list;
    }
  }

  /** A client can always receive on its sending key, which has no expiry. */
  lemma ClientReceivesOnSendingKey(actions: seq<Action>)
    ensures var k := Run(Initial(false), actions);
            !k.closed ==> ReceiveCodec(k.sendKeyID, k.sendCodec, None) in k.receive
  {
    ReachableInv(false, actions);
    RunKeepsRole(Initial(false), actions);
    hide Run, Table, Waiting, Streaming, Receiving;
  }

  lemma {:induction false} RunKeepsRole(k: Keys, actions: seq<Action>)
    ensures Run(k, actions).server == k.server
    decreases |actions|
  {
    if |actions| > 0 {
      hide Step;
      RunKeepsRole(k, actions[..|actions| - 1]);
      FieldsForward(Run(k, actions[..|actions| - 1]), actions[|actions| - 1]);
    }
  }

  // ---- When a server receives on its sending key --------------------------

  ghost predicate ReceivesOwn(k: Keys) {
    ReceiveCodec(k.sendKeyID, k.sendCodec, None) in k.receive
  }

  /** On a server, staging a key keeps the sending key exactly while fewer than three usable keys are newer. */
  lemma StagedExactly(k: Keys, keyID: nat, now: nat)
    requires Inv(k) && Negotiates(k, if keyID in k.states then k.states[keyID].sequence else 0)
    requires ReceivesOwn(k)
    ensures var send := ReceiveCodec(k.sendKeyID, k.sendCodec, None);
            var staged := ReceiveCodec(keyID, k.states[keyID].sequence, Some(now + TRANSITION_WINDOW));
            ReceivesOwn(Stage(k, keyID, now)) <==> |Ahead(send, k.receive, staged, now)| < KEY_SCAN_SIZE
  {
    hide Installed, Ahead, Tidy, Streaming, Sending;
    InstalledExactly(k.receive, k.issued, keyID, k.states[keyID].sequence, false, k.sendKeyID, now);
    UnmarkedIsSame(k.receive, k.sendKeyID, now);
    hide AllMarked;
  }

  /** Three usable keys are newer than the given one, so that there is no place for it. */
  ghost predicate Crowded(list: seq<ReceiveCodec>, entry: ReceiveCodec, now: nat) {
    |Ahead(entry, list, entry, now)| >= KEY_SCAN_SIZE
  }

  lemma PromotedList(k: Keys, keyID: nat, now: nat)
    requires Receiving(k) && Table(k) && keyID in k.states && k.states[keyID].sequence > k.promoted
    ensures var entry := ReceiveCodec(keyID, k.states[keyID].sequence, None);
            && ReceivesOwn(Promote(k, keyID, now)) == !Crowded(AllMarked(k.receive, true, k.sendKeyID, now), entry, now)
            && forall x :: x in Promote(k, keyID, now).receive && x.keyID == keyID ==> x == entry
  {
    hide Installed, Ahead, Tidy, AllMarked;
    InstalledExactly(k.receive, k.issued, keyID, k.states[keyID].sequence, true, k.sendKeyID, now);
  }

  /** Taking out lame ducks leaves the sending key where it is. */
  lemma RetiredLeaveOwn(k: Keys, ids: set<nat>)
    requires Table(k) && Promotion(k) && Receiving(k) && forall id :: id in ids && id in k.states ==>
          k.states[id].status == LameDuck
    ensures ReceivesOwn(Without(k, ids)) <==> ReceivesOwn(k)
    ensures forall x :: x in Without(k, ids).receive ==> x in k.receive
  {
    hide Discarded, Ascends;
    DiscardedKeeps(k.receive, Pairs(k.states, ids));
    assert (k.sendKeyID, k.sendCodec) !in Pairs(k.states, ids);
  }

  /** The negotiation that is finished becomes the new sending key. */
  predicate Leads(k: Keys, sequence: nat) {
    sequence in k.pending && sequence in k.issued && Holds(k, k.issued[sequence], sequence) && sequence > k.promoted
  }

  /** After a promotion, a session receives on its new sending key unless three usable keys are newer than it. */
  lemma PromotedExactly(k: Keys, sequence: nat, now: nat, later: nat)
    requires Inv(k) && Leads(k, sequence)
    ensures var next, keyID := Finish(k, sequence, true, now, later), k.issued[sequence];
            && next.sendKeyID == keyID && next.sendCodec == sequence && !next.closed
            && ReceivesOwn(next) ==
                  !Crowded(AllMarked(k.receive, true, k.sendKeyID, now), ReceiveCodec(keyID, sequence, None), now)
            && forall x :: x in next.receive && x.keyID == keyID ==> x == ReceiveCodec(keyID, sequence, None)
  {
    hide Crowded, Pruned, Without, Table, Promotion, Waiting, Streaming, Receiving, Sending, ReceivesOwn, AllMarked,
        Installed, Demoted;
    FinishReady(k, sequence);
    var keyID, open := k.issued[sequence], k.(pending := k.pending - {sequence});
    ListsIgnore(k, open);
    PromotedList(open, keyID, now);
    PromoteKeeps(open, keyID, now);
    var next := Promote(open, keyID, now);
    PrunedAreRetired(next, later);
    RetiredLeaveOwn(next, Pruned(next.states, later));
    WithoutFields(next, Pruned(next.states, later));
  }

  /** The sending key itself fills a place, so that at most two keys can be newer than the next one. */
  lemma OwnIsNotAhead(k: Keys, entry: ReceiveCodec, now: nat)
    requires Receiving(k) && Promotion(k) && ReceivesOwn(k) && entry.sequence > k.promoted
    ensures !Crowded(AllMarked(k.receive, true, k.sendKeyID, now), entry, now)
  {
    hide Tidy, Kept;
    var list := AllMarked(k.receive, true, k.sendKeyID, now);
    var i :| 0 <= i < |k.receive| && k.receive[i] == ReceiveCodec(k.sendKeyID, k.sendCodec, None);
    FewAhead(list, i, entry, entry, now);
  }

  lemma FewAhead(list: seq<ReceiveCodec>, i: nat, x: ReceiveCodec, entry: ReceiveCodec, now: nat)
    requires i < |list| <= KEY_SCAN_SIZE && list[i].sequence <= x.sequence && entry.sequence <= x.sequence
    ensures |Ahead(x, list, entry, now)| < KEY_SCAN_SIZE
  {
    var others := list[..i] + list[i + 1..];
    forall y | y in Ahead(x, list, entry, now) ensures y in others {
      var j :| 0 <= j < |list| && list[j] == y;
      assert others[if j < i then j else j - 1] == y;
    }
    MembersOf(others);
    Fewer(Ahead(x, list, entry, now), set y | y in others);
  }

  /** A key that comes late is older than the sending key and takes no place from it. */
  lemma LateLeavesOwn(k: Keys, keyID: nat, now: nat)
    requires Table(k) && Promotion(k) && Receiving(k) && ReceivesOwn(k)
    requires keyID in k.states && k.states[keyID].sequence < k.promoted
    ensures ReceivesOwn(Promote(k, keyID, now))
  {
    hide Installed, Tidy;
    var send := ReceiveCodec(k.sendKeyID, k.sendCodec, None);
    var entry := ReceiveCodec(keyID, k.states[keyID].sequence, Some(now + TRANSITION_WINDOW));
    InstalledExactly(k.receive, k.issued, keyID, entry.sequence, false, k.sendKeyID, now);
    UnmarkedIsSame(k.receive, k.sendKeyID, now);
    hide AllMarked;
    assert k.issued[entry.sequence] == keyID;
    assert send.keyID != keyID by { assert Tidy(k.receive, k.issued); }
    assert Kept(send, k.receive, entry, now);
    var i :| 0 <= i < |k.receive| && k.receive[i] == send;
    FewAhead(k.receive, i, send, entry, now);
  }

  lemma FailLeavesOwn(k: Keys, sequence: nat)
    requires Inv(k) && ReceivesOwn(k) && sequence in k.pending && sequence in k.issued
    ensures ReceivesOwn(Fail(k.(pending := k.pending - {sequence}), k.issued[sequence], sequence))
  {
    hide Discarded, Ascends, Table, Streaming, Sending;
    var keyID := k.issued[sequence];
    var once := Discarded(k.receive, {(keyID, sequence)});
    DiscardedKeeps(k.receive, {(keyID, sequence)});
    DiscardedKeeps(once, Pairs(k.states, {keyID}));
  }

  lemma FinishLeavesOwn(k: Keys, sequence: nat, success: bool, now: nat, later: nat)
    requires Inv(k) && ReceivesOwn(k)
    ensures ReceivesOwn(Finish(k, sequence, success, now, later))
  {
    hide Crowded, Promote, Without, Fail, Pruned, Table, Promotion, Waiting, Streaming, Receiving, Sending, AllMarked;
    if sequence in k.pending {
      FinishReady(k, sequence);
      var keyID, open := k.issued[sequence], k.(pending := k.pending - {sequence});
      if !(success && Holds(k, keyID, sequence)) {
        FailLeavesOwn(k, sequence);
      } else if sequence > k.promoted {
        OwnIsNotAhead(k, ReceiveCodec(keyID, sequence, None), now);
        PromotedExactly(k, sequence, now, later);
      } else {
        assert sequence < k.promoted by { assert Promotion(k); }
        ListsIgnore(k, open);
        LateLeavesOwn(open, keyID, now);
        PromoteKeeps(open, keyID, now);
        var next := Promote(open, keyID, now);
        PrunedAreRetired(next, later);
        RetiredLeaveOwn(next, Pruned(next.states, later));
      }
    }
  }

  lemma BeginLeavesOwn(k: Keys, keyID: nat)
    requires Inv(k) && ReceivesOwn(k)
    ensures ReceivesOwn(Begin(k, keyID))
  {
    hide Without, Table, Promotion, Waiting, Streaming, Receiving, Sending;
    if keyID in k.states && !Joins(k, keyID) {
      NotJoinedIsRetired(k, keyID);
      RetiredLeaveOwn(k, {keyID});
    }
  }

  lemma ExpireLeavesOwn(k: Keys, keyID: nat, sequence: nat, now: nat)
    requires Inv(k) && ReceivesOwn(k)
    ensures ReceivesOwn(Expire(k, keyID, sequence, now))
  {
    if Holds(k, keyID, sequence) && Over(k.states[keyID], now) {
      assert k.states[keyID].status == LameDuck by { assert Table(k); }
      hide Without, Table, Promotion, Waiting, Streaming, Receiving, Sending;
      RetiredLeaveOwn(k, {keyID});
    }
  }

  /** A server stages a key when three usable keys are newer than the one it sends with, the staged one included. */
  ghost predicate PushesOut(k: Keys, a: Action) {
    && a.StageKey? && k.server && a.keyID in k.states && k.states[a.keyID].status == Negotiating
    && |Ahead(ReceiveCodec(k.sendKeyID, k.sendCodec, None), k.receive,
              ReceiveCodec(a.keyID, k.states[a.keyID].sequence, Some(a.now + TRANSITION_WINDOW)),
                  a.now)| >= KEY_SCAN_SIZE
  }

  /** Of all steps of an open session, only such a staging takes the sending key out of the receive keys. */
  lemma StepLeavesOwn(k: Keys, a: Action)
    requires Inv(k) && ReceivesOwn(k) && a != CloseAll
    ensures ReceivesOwn(Step(k, a)) <==> !PushesOut(k, a)
  {
    hide Begin, Finish, Expire, Stage, Ahead, ReceivesOwn;
    match a
    case BeginReset(keyID) => BeginLeavesOwn(k, keyID);
    case FinishReset(sequence, success, now, later) => FinishLeavesOwn(k, sequence, success, now, later);
    case ExpireState(keyID, sequence, now) => ExpireLeavesOwn(k, keyID, sequence, now);
    case StageKey(keyID, now) => StageLeavesOwn(k, keyID, now);
    case SelectCodec(now) => SelectLeavesOwn(k, now);
  }

  lemma StageLeavesOwn(k: Keys, keyID: nat, now: nat)
    requires Inv(k) && ReceivesOwn(k)
    ensures ReceivesOwn(Step(k, StageKey(keyID, now))) <==> !PushesOut(k, StageKey(keyID, now))
  {
    hide InstallData, Ahead, ReceivesOwn, Waiting, Promotion, Streaming, Receiving, Sending;
    if k.server && keyID in k.states && k.states[keyID].status == Negotiating {
      StagedExactly(k, keyID, now);
    }
  }

  lemma SelectLeavesOwn(k: Keys, now: nat)
    requires Inv(k) && ReceivesOwn(k)
    ensures ReceivesOwn(Select(k, now))
  {
    hide Unexpired, Table, Promotion, Waiting, Streaming, Sending, Ascends;
    UnexpiredKeeps(k.receive, now);
  }

  ghost predicate OwnAfter(server: bool, actions: seq<Action>) {
    var k := Run(Initial(server), actions); k.closed || ReceivesOwn(k)
  }

  ghost predicate OwnThroughout(server: bool, actions: seq<Action>) {
    forall n :: 0 <= n <= |actions| ==> OwnAfter(server, actions[..n])
  }

  ghost predicate NeverPushedOut(server: bool, actions: seq<Action>) {
    forall n :: 0 <= n < |actions| ==> !PushesOut(Run(Initial(server), actions[..n]), actions[n])
  }

  /**
   While a session is open, it receives on its sending key in every state of a run,
   exactly when no staging of the run pushes that key out.
   */
  lemma {:induction false} ReceivesOwnThroughout(server: bool, actions: seq<Action>)
    ensures OwnThroughout(server, actions) <==> NeverPushedOut(server, actions)
    decreases |actions|
  {
    hide OwnAfter, OwnThroughout, NeverPushedOut, PushesOut;
    if |actions| == 0 {
      NothingDone(server, actions);
    } else {
      var front, last := actions[..|actions| - 1], actions[|actions| - 1];
      ReceivesOwnThroughout(server, front);
      ThroughoutGrows(server, actions);
      NeverGrows(server, actions);
      LastStep(server, front, last);
      assert front + [last] == actions;
    }
  }

  lemma NothingDone(server: bool, actions: seq<Action>)
    requires |actions| == 0
    ensures OwnThroughout(server, actions) && NeverPushedOut(server, actions)
  {
    InitialOwn(server);
  }

  lemma ThroughoutGrows(server: bool, actions: seq<Action>)
    requires |actions| > 0
    ensures OwnThroughout(server, actions) <==>
          OwnThroughout(server, actions[..|actions| - 1]) && OwnAfter(server, actions)
    ensures OwnThroughout(server, actions[..|actions| - 1]) ==> OwnAfter(server, actions[..|actions| - 1])
  {
    hide OwnAfter;
    var front := actions[..|actions| - 1];
    assert forall n :: 0 <= n <= |front| ==> front[..n] == actions[..n];
    assert actions[..|actions|] == actions && front[..|front|] == front;
  }

  lemma NeverGrows(server: bool, actions: seq<Action>)
    requires |actions| > 0
    ensures var front := actions[..|actions| - 1];
            NeverPushedOut(server, actions) <==>
              NeverPushedOut(server, front) && !PushesOut(Run(Initial(server), front), actions[|actions| - 1])
  {
    hide PushesOut, Run;
    var front := actions[..|actions| - 1];
    assert forall n :: 0 <= n <= |front| ==> front[..n] == actions[..n];
  }

  lemma InitialOwn(server: bool)
    ensures ReceivesOwn(Initial(server))
  {
  }

  lemma LastStep(server: bool, front: seq<Action>, last: Action)
    ensures var k := Run(Initial(server), front);
            OwnAfter(server, front) ==> (OwnAfter(server, front + [last]) <==> !PushesOut(k, last))
  {
    hide Run, Step, Inv, PushesOut, ReceivesOwn;
    RunsOn(Initial(server), front, last);
    ReachableInv(server, front);
    var k := Run(Initial(server), front);
    FieldsForward(k, last);
    if k.closed {
      ClosedPushesNothing(k, last);
    } else if last == CloseAll {
      ClosesQuietly(k);
    } else if ReceivesOwn(k) {
      StepLeavesOwn(k, last);
      StaysOpen(k, last);
    }
  }

  lemma ClosedPushesNothing(k: Keys, a: Action)
    requires Inv(k) && k.closed
    ensures !PushesOut(k, a)
  {
    hide Table, Waiting, Streaming, Receiving, Sending, Ahead;
  }

  lemma ClosesQuietly(k: Keys)
    ensures Step(k, CloseAll).closed && !PushesOut(k, CloseAll)
  {
    hide Without;
  }

  lemma StaysOpen(k: Keys, a: Action)
    requires a != CloseAll
    ensures Step(k, a).closed == k.closed
  {
    hide Finish, Without, Installed, Unexpired;
    match a
    case BeginReset(keyID) => WithoutFields(k, {keyID});
    case FinishReset(sequence, success, now, later) => FinishForward(k, sequence, success, now, later);
    case ExpireState(keyID, _, _) => WithoutFields(k, {keyID});
    case StageKey(keyID, now) =>
    case SelectCodec(now) =>
  }

  // ---- A server's sending key can be pushed out --------------------------

  function Staged(id: nat): ReceiveCodec {
    ReceiveCodec(id, id, Some(TRANSITION_WINDOW))
  }

  /** The first `n` key IDs are being negotiated and nothing has been promoted. */
  ghost predicate Begun(k: Keys, n: nat, list: seq<ReceiveCodec>) {
    && k.server && !k.closed && k.lastSequence == n && k.promoted == 0 && k.sendKeyID == 0 && k.receive == list
    && k.channels.Keys == k.states.Keys
    && (forall id :: id in k.states <==> 1 <= id <= n)
    && (forall id :: id in k.states ==>
          k.states[id].status == Negotiating && k.states[id].sequence == id && id in k.pending && id in k.issued &&
              k.issued[id] == id)
  }

  lemma BeginsOne(k: Keys, n: nat, list: seq<ReceiveCodec>)
    requires Begun(k, n, list) && n < KEY_ID_MAX
    ensures Begun(Step(k, BeginReset(n + 1)), n + 1, list)
  {
  }

  lemma {:induction false} RetainsAll(list: seq<ReceiveCodec>, keyID: nat, now: nat)
    requires forall e :: e in list ==> e.keyID != keyID && !Expired(e, now)
    ensures Retained(list, keyID, now) == list
    decreases |list|
  {
    if |list| > 0 {
      assert list == list[..|list| - 1] + [list[|list| - 1]];
      RetainsAll(list[..|list| - 1], keyID, now);
    }
  }

  lemma AppendsSorted(list: seq<ReceiveCodec>, id: nat)
    requires Ascends(list + [Staged(id)], SequenceOf) && forall e :: e in list ==> e.keyID != id && !Expired(e, 0)
    ensures Installed(list, id, id, false, 0, 0) == Newest(list + [Staged(id)])
  {
    UnmarkedIsSame(list, 0, 0);
    RetainsAll(list, id, 0);
    var all := list + [Staged(id)];
    assert Distinct(all, SequenceOf);
    SortAscends(all, SequenceOf);
    hide Ascends, Retained, AllMarked, Newest, Sort;
    AscendingIsUnique(Sort(all, SequenceOf), all, SequenceOf);
  }

  lemma StagesOne(k: Keys, n: nat, list: seq<ReceiveCodec>, id: nat)
    requires Begun(k, n, list) && 1 <= id <= n && forall e :: e in list ==> e.keyID != id && !Expired(e, 0)
    requires Ascends(list + [Staged(id)], SequenceOf)
    ensures Begun(Step(k, StageKey(id, 0)), n, Newest(list + [Staged(id)]))
  {
    hide Installed, Ascends, Newest;
    AppendsSorted(list, id);
  }

  lemma RunsOn(k: Keys, actions: seq<Action>, a: Action)
    ensures Run(k, actions + [a]) == Step(Run(k, actions), a)
  {
    hide Step;
    assert (actions + [a])[..|actions|] == actions;
  }

  lemma RunBegins(n: nat) returns (actions: seq<Action>)
    requires n <= KEY_ID_MAX
    ensures Begun(Run(Initial(true), actions), n, [ReceiveCodec(0, 0, None)])
  {
    hide Step;
    var list := [ReceiveCodec(0, 0, None)];
    actions := [];
    for m := 0 to n
      invariant Begun(Run(Initial(true), actions), m, list)
    {
      hide Begun, Run;
      BeginsOne(Run(Initial(true), actions), m, list);
      RunsOn(Initial(true), actions, BeginReset(m + 1));
      actions := actions + [BeginReset(m + 1)];
    }
  }

  lemma RunStages(actions: seq<Action>, n: nat, list: seq<ReceiveCodec>, id: nat)
    requires Begun(Run(Initial(true), actions), n, list) && 1 <= id <= n && Ascends(list + [Staged(id)], SequenceOf)
    requires forall e :: e in list ==> e.keyID != id && !Expired(e, 0)
    ensures Begun(Run(Initial(true), actions + [StageKey(id, 0)]), n, Newest(list + [Staged(id)]))
  {
    hide Step, Run, Begun, Newest;
    StagesOne(Run(Initial(true), actions), n, list, id);
    RunsOn(Initial(true), actions, StageKey(id, 0));
  }

  function Crowding(first: nat, m: nat): seq<ReceiveCodec>
    requires m <= 3
  {
    if m < 3 then [ReceiveCodec(0, 0, None), Staged(first), Staged(first + 1)][..m + 1]
    else [Staged(first), Staged(first + 1), Staged(first + 2)]
  }

  lemma CrowdsOneMore(first: nat, m: nat)
    requires 1 <= first && m < 3
    ensures var list, entry := Crowding(first, m), Staged(first + m);
            && Ascends(list + [entry], SequenceOf) && (forall e :: e in list ==> e.keyID != first + m && !Expired(e, 0))
            && Newest(list + [entry]) == Crowding(first, m + 1)
  {
    var sending, list := ReceiveCodec(0, 0, None), Crowding(first, m);
    match m
    case 0 =>
      assert list == [sending] && list + [Staged(first)] == [sending, Staged(first)];
    case 1 =>
      assert list == [sending, Staged(first)];
      assert list + [Staged(first + 1)] == [sending, Staged(first), Staged(first + 1)];
    case 2 =>
      assert list == [sending, Staged(first), Staged(first + 1)];
      var all := [sending, Staged(first), Staged(first + 1), Staged(first + 2)];
      assert list + [Staged(first + 2)] == all;
      assert all[1..] == [Staged(first), Staged(first + 1), Staged(first + 2)];
  }

  /** Three keys from `first` on are staged, and take the places of all others. */
  lemma RunCrowds(first: nat) returns (actions: seq<Action>)
    requires 1 <= first && first + 2 <= KEY_ID_MAX
    ensures Begun(Run(Initial(true), actions), first + 2, [Staged(first), Staged(first + 1), Staged(first + 2)])
  {
    hide Run, Begun, Ascends, Newest;
    actions := RunBegins(first + 2);
    assert Crowding(first, 0) == [ReceiveCodec(0, 0, None)];
    for m := 0 to 3
      invariant Begun(Run(Initial(true), actions), first + 2, Crowding(first, m))
    {
      hide Crowding, Staged;
      CrowdsOneMore(first, m);
      RunStages(actions, first + 2, Crowding(first, m), first + m);
      actions := actions + [StageKey(first + m, 0)];
    }
  }

  /** With three keys staged past it, a server no longer receives on the key it sends with. */
  lemma StagedKeysPushOut() returns (actions: seq<Action>)
    ensures var k := Run(Initial(true), actions);
            !k.closed && k.sendKeyID == 0 && forall e :: e in k.receive ==> e.keyID != k.sendKeyID
  {
    hide Run;
    actions := RunCrowds(1);
  }

  /** With three newer keys staged, a server switches to sending with a key it does not receive on. */
  lemma PromotedKeyLeftOut() returns (actions: seq<Action>)
    ensures var k := Run(Initial(true), actions);
            !k.closed && k.sendKeyID == 1 && forall e :: e in k.receive ==> e.keyID != k.sendKeyID
  {
    hide Run, Inv, Finish, Crowded;
    actions := RunCrowds(2);
    var k := Run(Initial(true), actions);
    ReachableInv(true, actions);
    CrowdedLeads(k);
    hide Begun;
    PromotedExactly(k, 1, 0, 0);
    RunsOn(Initial(true), actions, FinishReset(1, true, 0, 0));
    actions := actions + [FinishReset(1, true, 0, 0)];
  }

  lemma CrowdedLeads(k: Keys)
    requires Begun(k, 4, [Staged(2), Staged(3), Staged(4)])
    ensures Leads(k, 1) && k.issued[1] == 1
    ensures Crowded(AllMarked(k.receive, true, k.sendKeyID, 0), ReceiveCodec(1, 1, None), 0)
  {
    hide Crowded;
    assert 1 in k.states;
    ThreeAhead();
    assert AllMarked(k.receive, true, 0, 0) == k.receive;
  }

  lemma ThreeAhead()
    ensures Crowded([Staged(2), Staged(3), Staged(4)], ReceiveCodec(1, 1, None), 0)
  {
    var list := [Staged(2), Staged(3), Staged(4)];
    assert Ahead(ReceiveCodec(1, 1, None), list, ReceiveCodec(1, 1, None), 0) == {Staged(2), Staged(3), Staged(4)};
  }
}
