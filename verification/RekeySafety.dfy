/** What every step of rekeying keeps. */
module RekeySafety {
  import opened Bytes
  import opened PacketCodec
  import opened Sorting
  import opened RekeySpec
  import opened RekeyLists

  /** Every key state sits under its key ID, with its channel registered, and sequences are never shared. */
  ghost predicate Table(k: Keys) {
    && k.channels.Keys == k.states.Keys
    && (forall id :: id in k.states ==>
          && 1 <= id <= KEY_ID_MAX && k.states[id].keyID == id && k.channels[id] == k.states[id].sequence
          && k.states[id].status in {Negotiating, Active, LameDuck}
          && 0 < k.states[id].sequence && k.states[id].sequence in k.issued && k.issued[k.states[id].sequence] == id)
    && (forall n :: n in k.issued ==>
          n <= k.lastSequence && k.issued[n] <= KEY_ID_MAX && (k.issued[n] == 0 <==> n == 0))
  }

  /** The active key state is the one that sends, and the last one promoted. */
  ghost predicate Promotion(k: Keys) {
    && k.promoted in k.issued && k.issued[k.promoted] == k.sendKeyID
    && k.sendCodec == k.promoted && k.sendManager == k.promoted
    && (forall id :: id in k.states ==>
          match k.states[id].status
          case Active => k.states[id].sequence == k.promoted
          case LameDuck => k.states[id].sequence < k.promoted
          case _ => k.states[id].sequence != k.promoted)
    && (k.closed ==> k.states == map[])
    && (!k.closed && k.promoted > 0 ==> Holds(k, k.sendKeyID, k.promoted) && k.states[k.sendKeyID].status == Active)
  }

  predicate Negotiates(k: Keys, sequence: nat) {
    sequence in k.issued && Holds(k, k.issued[sequence], sequence) && k.states[k.issued[sequence]].status == Negotiating
  }

  /** Outside `except`, negotiating and not being finished are the same thing until the session closes. */
  ghost predicate Waiting(k: Keys, except: set<nat>) {
    && (forall id :: id in k.states && id !in except && k.states[id].status == Negotiating ==>
          k.states[id].sequence in k.pending)
    && (forall n :: n in k.pending ==>
          n in k.issued && n > 0 && n != k.promoted && (!k.closed ==> Negotiates(k, n) && k.issued[n] !in except))
  }

  /** The stream follows the promoted key state and only waits for a negotiation that is still going on. */
  ghost predicate Streaming(k: Keys) {
    && k.stream.installed && k.stream.sequence == k.promoted
    && (k.stream.handover != 0 ==> Negotiates(k, k.stream.handover))
  }

  ghost predicate Receiving(k: Keys) {
    |k.receive| <= KEY_SCAN_SIZE && Tidy(k.receive, k.issued)
  }

  /** A client can always receive on the key it sends with. */
  ghost predicate Sending(k: Keys) {
    !k.server && !k.closed ==>
      && ReceiveCodec(k.sendKeyID, k.promoted, None) in k.receive
      && forall e :: e in k.receive ==> e.sequence <= k.promoted
  }

  ghost predicate Inv(k: Keys) {
    Table(k) && Promotion(k) && Waiting(k, {}) && Streaming(k) && Receiving(k) && Sending(k)
  }

  lemma InitialInv(server: bool)
    ensures Inv(Initial(server))
  {
  }

  // ---- Removing key states -----------------------------------------------

  /** None of these is the sending key, being negotiated, or awaited by the stream. */
  ghost predicate Removable(k: Keys, ids: set<nat>) {
    forall id :: id in ids && id in k.states ==>
      && k.states[id].sequence != k.promoted && k.states[id].sequence !in k.pending &&
            k.states[id].sequence != k.stream.handover
  }

  lemma WithoutTable(k: Keys, ids: set<nat>)
    requires Table(k) && Promotion(k) && Waiting(k, ids) && Streaming(k) && Removable(k, ids)
    ensures var next := Without(k, ids); Table(next) && Promotion(next) && Waiting(next, {}) && Streaming(next)
  {
    WithoutStates(k, ids);
    WithoutWaiting(k, ids);
    hide Without, Table, Promotion, Waiting, Streaming, Removable;
  }

  lemma WithoutStates(k: Keys, ids: set<nat>)
    requires Table(k) && Promotion(k) && Removable(k, ids)
    ensures var next := Without(k, ids); Table(next) && Promotion(next)
  {
    hide Discarded, Pairs;
  }

  lemma WithoutWaiting(k: Keys, ids: set<nat>)
    requires Table(k) && Waiting(k, ids) && Streaming(k) && Removable(k, ids)
    ensures var next := Without(k, ids); Waiting(next, {}) && Streaming(next)
  {
    hide Discarded, Pairs;
  }

  lemma WithoutLists(k: Keys, ids: set<nat>)
    requires Promotion(k) && Receiving(k) && Sending(k) && Removable(k, ids)
    ensures var next := Without(k, ids); Receiving(next) && Sending(next)
  {
    hide Discarded, Ascends;
    DiscardedKeeps(k.receive, Pairs(k.states, ids));
  }

  lemma WithoutKeeps(k: Keys, ids: set<nat>)
    requires Table(k) && Promotion(k) && Waiting(k, ids) && Streaming(k) && Receiving(k) && Sending(k)
    requires Removable(k, ids)
    ensures Inv(Without(k, ids))
  {
    hide Without, Table, Promotion, Waiting, Streaming, Receiving, Sending, Removable;
    WithoutTable(k, ids);
    WithoutLists(k, ids);
  }

  lemma RetiredIsRemovable(k: Keys, ids: set<nat>)
    requires Table(k) && Promotion(k) && Waiting(k, {}) && Streaming(k)
    requires forall id :: id in ids && id in k.states ==> k.states[id].status == LameDuck
    ensures Removable(k, ids) && Waiting(k, ids)
  {
  }

  lemma RemoveRetired(k: Keys, ids: set<nat>)
    requires Inv(k) && forall id :: id in ids && id in k.states ==> k.states[id].status == LameDuck
    ensures Inv(Without(k, ids))
  {
    hide Without, Table, Promotion, Waiting, Streaming, Receiving, Sending, Removable;
    RetiredIsRemovable(k, ids);
    WithoutKeeps(k, ids);
  }

  // ---- Beginning ---------------------------------------------------------

  lemma NotJoinedIsRetired(k: Keys, keyID: nat)
    requires Table(k) && Promotion(k) && keyID in k.states && !Joins(k, keyID)
    ensures k.states[keyID].status == LameDuck
  {
  }

  lemma OpenedTable(k: Keys, keyID: nat)
    requires Table(k) && 1 <= keyID <= KEY_ID_MAX && keyID !in k.states
    ensures Table(Opened(k, keyID))
  {
  }

  lemma OpenedPromotion(k: Keys, keyID: nat)
    requires Table(k) && Promotion(k) && 1 <= keyID <= KEY_ID_MAX && keyID !in k.states && !k.closed
    ensures Promotion(Opened(k, keyID))
  {
    assert k.promoted <= k.lastSequence;
  }

  lemma OpenedNegotiates(k: Keys, keyID: nat)
    requires Table(k) && keyID !in k.states
    ensures var next := Opened(k, keyID); Negotiates(next, k.lastSequence + 1) && forall n :: Negotiates(k, n) ==>
          Negotiates(next, n)
  {
  }

  lemma OpenedWaiting(k: Keys, keyID: nat)
    requires Table(k) && Promotion(k) && Waiting(k, {}) && keyID !in k.states && !k.closed
    ensures Waiting(Opened(k, keyID), {})
  {
    OpenedNegotiates(k, keyID);
    assert k.promoted <= k.lastSequence;
    hide Negotiates, Table, Promotion, BeginHandover;
  }

  lemma OpenedStreaming(k: Keys, keyID: nat)
    requires Table(k) && Promotion(k) && Streaming(k) && keyID !in k.states && !k.closed
    ensures Streaming(Opened(k, keyID))
  {
    OpenedNegotiates(k, keyID);
    hide Negotiates;
  }

  lemma OpenedLists(k: Keys, keyID: nat)
    requires Table(k) && Receiving(k) && Sending(k)
    ensures var next := Opened(k, keyID); Receiving(next) && Sending(next)
  {
    hide Ascends;
  }

  /** Registering the channel of a new negotiation never fails. */
  lemma BeginRegisters(k: Keys, keyID: nat)
    requires Inv(k) && 1 <= keyID <= KEY_ID_MAX && !k.closed && !Joins(k, keyID)
    ensures var next := Begin(k, keyID);
            && Holds(next, keyID, k.lastSequence + 1) && next.states[keyID].status == Negotiating
            && next.channels[keyID] == k.lastSequence + 1 && next.lastSequence == k.lastSequence + 1
  {
    hide Discarded, Waiting, Streaming, Receiving, Sending;
  }

  lemma BeginKeeps(k: Keys, keyID: nat)
    requires Inv(k)
    ensures Inv(Begin(k, keyID))
  {
    hide Without, Opened, Table, Promotion, Waiting, Streaming, Receiving, Sending;
    if !(keyID == 0 || keyID > KEY_ID_MAX || k.closed || Joins(k, keyID)) {
      var r := if keyID in k.states then Without(k, {keyID}) else k;
      if keyID in k.states {
        NotJoinedIsRetired(k, keyID);
        RemoveRetired(k, {keyID});
        WithoutFields(k, {keyID});
      }
      OpenedTable(r, keyID);
      OpenedPromotion(r, keyID);
      OpenedWaiting(r, keyID);
      OpenedStreaming(r, keyID);
      OpenedLists(r, keyID);
    }
  }

  // ---- Finishing ---------------------------------------------------------

  lemma LateTable(k: Keys, keyID: nat, now: nat)
    requires Table(k) && Promotion(k) && Waiting(k, {keyID}) && Streaming(k)
    requires keyID in k.states && k.states[keyID].status == Negotiating && k.states[keyID].sequence <= k.promoted
    ensures var next := Promote(k, keyID, now); Table(next) && Promotion(next) && Waiting(next, {}) && Streaming(next)
  {
    hide Promote, Table, Promotion, Waiting, Streaming;
    LateStates(k, keyID, now);
    LateWaiting(k, keyID, now);
  }

  lemma LateStates(k: Keys, keyID: nat, now: nat)
    requires Table(k) && Promotion(k)
    requires keyID in k.states && k.states[keyID].status == Negotiating && k.states[keyID].sequence <= k.promoted
    ensures var next := Promote(k, keyID, now); Table(next) && Promotion(next)
  {
    hide Installed;
  }

  lemma LateWaiting(k: Keys, keyID: nat, now: nat)
    requires Table(k) && Waiting(k, {keyID}) && Streaming(k)
    requires keyID in k.states && k.states[keyID].status == Negotiating && k.states[keyID].sequence <= k.promoted
    ensures var next := Promote(k, keyID, now); Waiting(next, {}) && Streaming(next)
  {
    hide Installed;
    var next := Promote(k, keyID, now);
    forall n | Negotiates(k, n) && n != k.states[keyID].sequence ensures Negotiates(next, n) {}
  }

  lemma LeadTable(k: Keys, keyID: nat, now: nat)
    requires Table(k) && keyID in k.states && k.states[keyID].sequence > k.promoted
    ensures Table(Promote(k, keyID, now))
  {
    hide Installed;
  }

  lemma LeadPromotion(k: Keys, keyID: nat, now: nat)
    requires Table(k) && Promotion(k) && !k.closed && keyID in k.states && k.states[keyID].sequence > k.promoted
    ensures Promotion(Promote(k, keyID, now))
  {
    hide Installed;
  }

  lemma LeadWaiting(k: Keys, keyID: nat, now: nat)
    requires Table(k) && Promotion(k) && Waiting(k, {keyID}) && Streaming(k) && !k.closed
    requires keyID in k.states && k.states[keyID].sequence > k.promoted
    ensures Waiting(Promote(k, keyID, now), {}) && Streaming(Promote(k, keyID, now))
  {
    hide Installed;
    var next := Promote(k, keyID, now);
    forall n | Negotiates(k, n) && n != k.states[keyID].sequence ensures Negotiates(next, n) {}
  }

  /** A key that comes in late, or is only staged, leaves the sending key alone. */
  lemma QuietInstall(k: Keys, keyID: nat, sequence: nat, now: nat)
    requires Table(k) && Promotion(k) && Receiving(k) && Sending(k) && Holds(k, keyID, sequence)
    requires sequence != k.promoted && (k.server || sequence < k.promoted) && !k.closed
    ensures var next := InstallData(k, keyID, sequence, false, now); Receiving(next) && Sending(next)
  {
    hide Installed, Tidy;
    InstalledExactly(k.receive, k.issued, keyID, sequence, false, k.sendKeyID, now);
    UnmarkedIsSame(k.receive, k.sendKeyID, now);
    if !k.server {
      var send := ReceiveCodec(k.sendKeyID, k.promoted, None);
      var entry := ReceiveCodec(keyID, sequence, Some(now + TRANSITION_WINDOW));
      assert Kept(send, k.receive, entry, now);
      assert Ahead(send, k.receive, entry, now) == {};
    }
  }

  lemma UnmarkedIsSame(list: seq<ReceiveCodec>, sendKeyID: nat, now: nat)
    ensures AllMarked(list, false, sendKeyID, now) == list
  {
  }

  lemma LeadInstall(k: Keys, keyID: nat, sequence: nat, now: nat)
    requires Table(k) && Receiving(k) && Sending(k) && Holds(k, keyID, sequence) && sequence > k.promoted && !k.closed
    ensures var list := Installed(k.receive, keyID, sequence, true, k.sendKeyID, now);
            && |list| <= KEY_SCAN_SIZE && Tidy(list, k.issued)
            && (!k.server ==> ReceiveCodec(keyID, sequence, None) in list && forall e :: e in list ==>
                  e.sequence <= sequence)
  {
    hide Installed, Tidy;
    InstalledExactly(k.receive, k.issued, keyID, sequence, true, k.sendKeyID, now);
    if !k.server {
      var marked := AllMarked(k.receive, true, k.sendKeyID, now);
      var entry := ReceiveCodec(keyID, sequence, None);
      forall e | e in marked ensures e.sequence <= k.promoted {
        var i :| 0 <= i < |marked| && marked[i] == e;
        assert k.receive[i] in k.receive;
      }
      hide AllMarked;
      assert Kept(entry, marked, entry, now);
      assert Ahead(entry, marked, entry, now) == {};
    }
  }

  lemma PromoteLists(k: Keys, keyID: nat, now: nat)
    requires Table(k) && Promotion(k) && Receiving(k) && Sending(k) && !k.closed
    requires keyID in k.states && k.states[keyID].status == Negotiating
    ensures var next := Promote(k, keyID, now); Receiving(next) && Sending(next)
  {
    hide Installed, Tidy;
    var s := k.states[keyID];
    if s.sequence <= k.promoted {
      QuietInstall(k, keyID, s.sequence, now);
    } else {
      LeadInstall(k, keyID, s.sequence, now);
    }
  }

  lemma PromoteKeeps(k: Keys, keyID: nat, now: nat)
    requires Table(k) && Promotion(k) && Waiting(k, {keyID}) && Streaming(k) && Receiving(k) && Sending(k) && !k.closed
    requires keyID in k.states && k.states[keyID].status == Negotiating
    ensures Inv(Promote(k, keyID, now))
  {
    hide Promote, Table, Promotion, Waiting, Streaming, Receiving, Sending;
    PromoteLists(k, keyID, now);
    if k.states[keyID].sequence <= k.promoted { LateTable(k, keyID, now); } else {
      LeadTable(k, keyID, now);
      LeadPromotion(k, keyID, now);
      LeadWaiting(k, keyID, now);
    }
  }

  /** Pruning only ever removes lame ducks: nothing completed is newer than the active state. */
  lemma PrunedAreRetired(k: Keys, now: nat)
    requires Table(k) && Promotion(k)
    ensures forall id :: id in Pruned(k.states, now) ==> id in k.states && k.states[id].status == LameDuck
  {
    forall id | id in Pruned(k.states, now) ensures k.states[id].status == LameDuck {
      if k.states[id].status == Active {
        assert Newer(k.states, id, now) == {};
      }
    }
  }

  lemma FailReady(k: Keys, sequence: nat)
    requires Table(k) && Promotion(k) && Waiting(k, {}) && Streaming(k) && sequence in k.pending
    ensures var keyID, next := k.issued[sequence],
          k.(pending := k.pending - {sequence}, stream := AbortHandover(k.stream, sequence));
            && Table(next) && Promotion(next) && Streaming(next) && Removable(next, {keyID})
            && Waiting(next, if Holds(k, keyID, sequence) then {keyID} else {})
  {
    assert k.closed || Negotiates(k, sequence);
  }

  lemma DropPair(k: Keys, keyID: nat, sequence: nat)
    requires Receiving(k) && Sending(k) && sequence != k.promoted
    ensures var next := k.(receive := Discarded(k.receive, {(keyID, sequence)})); Receiving(next) && Sending(next)
  {
    hide Discarded, Ascends;
    DiscardedKeeps(k.receive, {(keyID, sequence)});
  }

  lemma FailKeeps(k: Keys, sequence: nat)
    requires Inv(k) && sequence in k.pending
    ensures sequence in k.issued && Inv(Fail(k.(pending := k.pending - {sequence}), k.issued[sequence], sequence))
  {
    assert sequence in k.issued && sequence != k.promoted by { assert Waiting(k, {}); }
    hide Discarded, Tidy, Without, Table, Promotion, Waiting, Streaming, Receiving, Sending, Removable;
    FailReady(k, sequence);
    DropPair(k, k.issued[sequence], sequence);
    FailAssembled(k, k.issued[sequence], sequence);
  }

  lemma FailAssembled(k: Keys, keyID: nat, sequence: nat)
    requires var next := k.(pending := k.pending - {sequence}, stream := AbortHandover(k.stream, sequence));
             && Table(next) && Promotion(next) && Streaming(next) && Removable(next, {keyID})
             && Waiting(next, if Holds(k, keyID, sequence) then {keyID} else {})
    requires var next := k.(receive := Discarded(k.receive, {(keyID, sequence)})); Receiving(next) && Sending(next)
    ensures Inv(Fail(k.(pending := k.pending - {sequence}), keyID, sequence))
  {
    hide Discarded, Without, Table, Promotion, Waiting, Streaming, Receiving, Sending, Removable;
    var list := Discarded(k.receive, {(keyID, sequence)});
    var moved := k.(pending := k.pending - {sequence}, stream := AbortHandover(k.stream, sequence));
    var next := moved.(receive := list);
    ReceiveIgnored(moved, list, if Holds(k, keyID, sequence) then {keyID} else {});
    ListsIgnore(k.(receive := list), next);
    if Holds(k, keyID, sequence) {
      RemovableIgnores(moved, list, {keyID});
      WithoutKeeps(next, {keyID});
    }
  }

  lemma RemovableIgnores(k: Keys, list: seq<ReceiveCodec>, ids: set<nat>)
    requires Removable(k, ids)
    ensures Removable(k.(receive := list), ids)
  {
  }

  lemma FinishReady(k: Keys, sequence: nat)
    requires Table(k) && Promotion(k) && Waiting(k, {}) && Streaming(k) && sequence in k.pending
    ensures sequence in k.issued
    ensures var keyID, next := k.issued[sequence], k.(pending := k.pending - {sequence});
            Holds(k, keyID, sequence) ==>
              && !k.closed && k.states[keyID].status == Negotiating
              && Table(next) && Promotion(next) && Streaming(next) && Waiting(next, {keyID})
  {
  }

  lemma FinishKeeps(k: Keys, sequence: nat, success: bool, now: nat, later: nat)
    requires Inv(k)
    ensures Inv(Finish(k, sequence, success, now, later))
  {
    hide Promote, Without, Fail, Pruned, Table, Promotion, Waiting, Streaming, Receiving, Sending;
    if sequence in k.pending {
      FinishReady(k, sequence);
      var keyID, next := k.issued[sequence], k.(pending := k.pending - {sequence});
      if success && Holds(k, keyID, sequence) {
        ListsIgnore(k, next);
        PromoteKeeps(next, keyID, now);
        var promoted := Promote(next, keyID, now);
        PrunedAreRetired(promoted, later);
        RemoveRetired(promoted, Pruned(promoted.states, later));
      } else {
        FailKeeps(k, sequence);
      }
    }
  }

  lemma ListsIgnore(k: Keys, next: Keys)
    requires Receiving(k) && Sending(k) && next == k.(pending := next.pending, stream := next.stream)
    ensures Receiving(next) && Sending(next)
  {
  }

  // ---- Everything else ---------------------------------------------------

  lemma ExpireKeeps(k: Keys, keyID: nat, sequence: nat, now: nat)
    requires Inv(k)
    ensures Inv(Expire(k, keyID, sequence, now))
  {
    if Holds(k, keyID, sequence) && Over(k.states[keyID], now) {
      assert k.states[keyID].status == LameDuck by { assert Table(k); }
      hide Without, Table, Promotion, Waiting, Streaming, Receiving, Sending;
      RemoveRetired(k, {keyID});
    }
  }

  lemma StageKeeps(k: Keys, keyID: nat, now: nat)
    requires Inv(k) && k.server
    ensures Inv(Stage(k, keyID, now))
  {
    if keyID in k.states && k.states[keyID].status == Negotiating {
      var sequence := k.states[keyID].sequence;
      assert sequence != k.promoted && !k.closed by { assert Promotion(k); }
      QuietInstall(k, keyID, sequence, now);
      ReceiveIgnored(k, Installed(k.receive, keyID, sequence, false, k.sendKeyID, now), {});
      hide Installed, Table, Promotion, Waiting, Streaming, Receiving, Sending;
    }
  }

  lemma ReceiveIgnored(k: Keys, list: seq<ReceiveCodec>, except: set<nat>)
    requires Table(k) && Promotion(k) && Waiting(k, except) && Streaming(k)
    ensures var next := k.(receive := list); Table(next) && Promotion(next) && Waiting(next, except) && Streaming(next)
  {
  }

  lemma SelectKeeps(k: Keys, now: nat)
    requires Inv(k)
    ensures Inv(Select(k, now))
  {
    var next := Select(k, now);
    assert Receiving(next) && Sending(next) by {
      hide Unexpired, Ascends;
      UnexpiredKeeps(k.receive, now);
    }
    ReceiveIgnored(k, Unexpired(k.receive, now), {});
    hide Unexpired, Table, Promotion, Waiting, Streaming, Receiving, Sending;
  }

  lemma CloseKeeps(k: Keys)
    requires Inv(k)
    ensures Inv(Close(k))
  {
    hide Discarded, Ascends;
    DiscardedKeeps(k.receive, Pairs(k.states, k.states.Keys));
    hide Pairs;
    assert k.states - k.states.Keys == map[];
  }

  lemma StepKeeps(k: Keys, a: Action)
    requires Inv(k)
    ensures Inv(Step(k, a))
  {
    hide Inv, Begin, Finish, Expire, Stage, Select, Close;
    match a
    case BeginReset(keyID) => BeginKeeps(k, keyID);
    case FinishReset(sequence, success, now, later) => FinishKeeps(k, sequence, success, now, later);
    case ExpireState(keyID, sequence, now) => ExpireKeeps(k, keyID, sequence, now);
    case StageKey(keyID, now) => if k.server { StageKeeps(k, keyID, now); }
    case SelectCodec(now) => SelectKeeps(k, now);
    case CloseAll => CloseKeeps(k);
  }

  lemma {:induction false} RunKeeps(k: Keys, actions: seq<Action>)
    requires Inv(k)
    ensures Inv(Run(k, actions))
    decreases |actions|
  {
    hide Inv, Step;
    if |actions| > 0 {
      RunKeeps(k, actions[..|actions| - 1]);
      StepKeeps(Run(k, actions[..|actions| - 1]), actions[|actions| - 1]);
    }
  }
}
