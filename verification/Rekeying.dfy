/**
 Overlapping key negotiations of one session: which key sends, which keys
 receive, and which control stream carries messages. A negotiation, the data
 codec it produces, its session manager and its control channel all carry the
 sequence number of the key state; the initial ones carry 0.
 */
module RekeySpec {
  import opened Bytes
  import opened PacketCodec
  import opened Sorting

  const TRANSITION_WINDOW := 3600
  const KEY_SCAN_SIZE := 3

  datatype Status = Negotiating | AwaitingData | Active | LameDuck | Failed

  datatype KeyState = KeyState(keyID: nat, sequence: nat, status: Status, expiresAt: nat)

  datatype ReceiveCodec = ReceiveCodec(keyID: nat, sequence: nat, expiry: Option<nat>)

  datatype Stream = Stream(installed: bool, sequence: nat, handover: nat)

  type States = map<nat, KeyState>

  /** `pending` are the negotiations not yet finished, `issued` the key ID each sequence was given. */
  datatype Keys = Keys(
    server: bool,
    states: States,
    channels: map<nat, nat>,
    lastSequence: nat,
    promoted: nat,
    closed: bool,
    receive: seq<ReceiveCodec>,
    sendCodec: nat,
    sendKeyID: nat,
    sendManager: nat,
    stream: Stream,
    pending: set<nat>,
    issued: map<nat, nat>)

  function Initial(server: bool): Keys {
    Keys(server, map[], map[], 0, 0, false, [ReceiveCodec(0, 0, None)], 0, 0, 0, Stream(true, 0, 0), {}, map[0 := 0])
  }

  // ---- The control stream ------------------------------------------------

  function Install(s: Stream, sequence: nat): Stream {
    if s.installed && sequence < s.sequence then s
    else Stream(true, sequence, if s.handover <= sequence then 0 else s.handover)
  }

  function BeginHandover(s: Stream, sequence: nat): Stream {
    if sequence <= s.sequence || sequence <= s.handover then s else s.(handover := sequence)
  }

  function AbortHandover(s: Stream, sequence: nat): Stream {
    if s.handover != sequence then s else s.(handover := 0)
  }

  // ---- Receive keys ------------------------------------------------------

  function SequenceOf(e: ReceiveCodec): int { e.sequence }

  predicate Expired(e: ReceiveCodec, now: nat) {
    e.expiry.Some? && e.expiry.value <= now
  }

  /** The sending key gets an expiry when it is being replaced. */
  function Marked(e: ReceiveCodec, promote: bool, sendKeyID: nat, now: nat): ReceiveCodec {
    if promote && e.keyID == sendKeyID then e.(expiry := Some(now + TRANSITION_WINDOW)) else e
  }

  function AllMarked(list: seq<ReceiveCodec>, promote: bool, sendKeyID: nat, now: nat): seq<ReceiveCodec> {
    seq(|list|, i requires 0 <= i < |list| => Marked(list[i], promote, sendKeyID, now))
  }

  /** What stays when a key for `keyID` comes in. */
  function Retained(list: seq<ReceiveCodec>, keyID: nat, now: nat): seq<ReceiveCodec> {
    if |list| == 0 then []
    else
      var front, e := Retained(list[..|list| - 1], keyID, now), list[|list| - 1];
      if e.keyID == keyID || Expired(e, now) then front else front + [e]
  }

  function Newest(list: seq<ReceiveCodec>): seq<ReceiveCodec> {
    if |list| > KEY_SCAN_SIZE then list[|list| - KEY_SCAN_SIZE..] else list
  }

  function Installed(list: seq<ReceiveCodec>, keyID: nat, sequence: nat, promote: bool, sendKeyID: nat,
      now: nat): seq<ReceiveCodec> {
    var entry := ReceiveCodec(keyID, sequence, if promote then None else Some(now + TRANSITION_WINDOW));
    Newest(Sort(Retained(AllMarked(list, promote, sendKeyID, now), keyID, now) + [entry], SequenceOf))
  }

  function InstallData(k: Keys, keyID: nat, sequence: nat, promote: bool, now: nat): Keys {
    var next := k.(receive := Installed(k.receive, keyID, sequence, promote, k.sendKeyID, now));
    if promote then next.(sendCodec := sequence, sendKeyID := keyID, sendManager := sequence) else next
  }

  /** Drops the receive keys of the given key states. */
  function Discarded(list: seq<ReceiveCodec>, gone: set<(nat, nat)>): seq<ReceiveCodec> {
    if |list| == 0 then []
    else
      var front, e := Discarded(list[..|list| - 1], gone), list[|list| - 1];
      if (e.keyID, e.sequence) in gone then front else front + [e]
  }

  function Unexpired(list: seq<ReceiveCodec>, now: nat): seq<ReceiveCodec> {
    if |list| == 0 then []
    else
      var front, e := Unexpired(list[..|list| - 1], now), list[|list| - 1];
      if Expired(e, now) then front else front + [e]
  }

  // ---- Key states --------------------------------------------------------

  predicate Retiring(s: KeyState) {
    s.status == LameDuck || s.status == AwaitingData
  }

  predicate Over(s: KeyState, now: nat) {
    Retiring(s) && s.expiresAt <= now
  }

  predicate Completed(s: KeyState, now: nat) {
    !Over(s, now) && (s.status == Active || Retiring(s))
  }

  function Pairs(states: States, ids: set<nat>): set<(nat, nat)> {
    set id | id in states && id in ids :: (id, states[id].sequence)
  }

  /** Removing key states takes their channels and receive keys along. */
  function Without(k: Keys, ids: set<nat>): Keys {
    k.(states := k.states - ids,
       channels := map id | id in k.channels &&
           !(id in ids && id in k.states && k.channels[id] == k.states[id].sequence) :: k.channels[id],
       receive := Discarded(k.receive, Pairs(k.states, ids)))
  }

  predicate Holds(k: Keys, keyID: nat, sequence: nat) {
    keyID in k.states && k.states[keyID].sequence == sequence
  }

  predicate Joins(k: Keys, keyID: nat) {
    keyID in k.states &&
        (k.states[keyID].status == Negotiating || k.states[keyID].status == AwaitingData || k.sendKeyID == keyID)
  }

  function Opened(k: Keys, keyID: nat): Keys {
    var sequence := k.lastSequence + 1;
    if keyID in k.channels then k.(lastSequence := sequence)
    else
      k.(lastSequence := sequence,
         states := k.states[keyID := KeyState(keyID, sequence, Negotiating, 0)],
         channels := k.channels[keyID := sequence],
         stream := BeginHandover(k.stream, sequence),
         pending := k.pending + {sequence},
         issued := k.issued[sequence := keyID])
  }

  function Begin(k: Keys, keyID: nat): Keys {
    if keyID == 0 || keyID > KEY_ID_MAX || k.closed || Joins(k, keyID) then k
    else Opened(if keyID in k.states then Without(k, {keyID}) else k, keyID)
  }

  function Demoted(states: States, keyID: nat, now: nat): States {
    map id | id in states ::
      if id != keyID && states[id].status == Active
      then states[id].(status := LameDuck, expiresAt := now + TRANSITION_WINDOW)
      else states[id]
  }

  function Promote(k: Keys, keyID: nat, now: nat): Keys
    requires keyID in k.states
  {
    var s := k.states[keyID];
    if s.sequence <= k.promoted then
      InstallData(k.(states := k.states[keyID := s.(status := LameDuck, expiresAt := now + TRANSITION_WINDOW)],
                     stream := AbortHandover(k.stream, s.sequence)), keyID, s.sequence, false, now)
    else
      InstallData(k.(states := Demoted(k.states, keyID, now)[keyID := s.(status := Active)], promoted := s.sequence,
                     stream := Install(k.stream, s.sequence)), keyID, s.sequence, true, now)
  }

  function Newer(states: States, keyID: nat, now: nat): set<nat>
    requires keyID in states
  {
    set id | id in states && Completed(states[id], now) && states[id].sequence > states[keyID].sequence
  }

  /** The retiring states past their time, and all completed ones but the newest three. */
  function Pruned(states: States, now: nat): set<nat> {
    set id | id in states &&
        (Over(states[id], now) || (Completed(states[id], now) && |Newer(states, id, now)| >= KEY_SCAN_SIZE))
  }

  function Prune(k: Keys, now: nat): Keys {
    Without(k, Pruned(k.states, now))
  }

  function Fail(k: Keys, keyID: nat, sequence: nat): Keys {
    var next := k.(receive := Discarded(k.receive, {(keyID, sequence)}), stream := AbortHandover(k.stream, sequence));
    if Holds(k, keyID, sequence) then Without(next, {keyID}) else next
  }

  /** A negotiation finishes once, with a codec or without. */
  function Finish(k: Keys, sequence: nat, success: bool, now: nat, later: nat): Keys {
    if sequence !in k.pending || sequence !in k.issued then k
    else
      var keyID, next := k.issued[sequence], k.(pending := k.pending - {sequence});
      if success && Holds(k, keyID, sequence)
      then Prune(Promote(next, keyID, now), later)
      else Fail(next, keyID, sequence)
  }

  function Expire(k: Keys, keyID: nat, sequence: nat, now: nat): Keys {
    if Holds(k, keyID, sequence) && Over(k.states[keyID], now) then Without(k, {keyID}) else k
  }

  function Stage(k: Keys, keyID: nat, now: nat): Keys {
    if keyID in k.states && k.states[keyID].status == Negotiating
    then InstallData(k, keyID, k.states[keyID].sequence, false, now)
    else k
  }

  function Close(k: Keys): Keys {
    Without(k, k.states.Keys).(closed := true,
      stream := if exists id :: id in k.states && k.states[id].sequence == k.stream.handover
                then k.stream.(handover := 0) else k.stream)
  }

  function Select(k: Keys, now: nat): Keys {
    k.(receive := Unexpired(k.receive, now))
  }

  // ---- Runs --------------------------------------------------------------

  datatype Action =
    | BeginReset(keyID: nat)
    | FinishReset(sequence: nat, success: bool, now: nat, later: nat)
    | ExpireState(keyID: nat, sequence: nat, now: nat)
    | StageKey(keyID: nat, now: nat)
    | SelectCodec(now: nat)
    | CloseAll

  /** Only a server stages the key it has derived before the client confirms. */
  function Step(k: Keys, a: Action): Keys {
    match a
    case BeginReset(keyID) => Begin(k, keyID)
    case FinishReset(sequence, success, now, later) => Finish(k, sequence, success, now, later)
    case ExpireState(keyID, sequence, now) => Expire(k, keyID, sequence, now)
    case StageKey(keyID, now) => if k.server then Stage(k, keyID, now) else k
    case SelectCodec(now) => Select(k, now)
    case CloseAll => Close(k)
  }

  function Run(k: Keys, actions: seq<Action>): Keys {
    if |actions| == 0 then k else Step(Run(k, actions[..|actions| - 1]), actions[|actions| - 1])
  }
}
