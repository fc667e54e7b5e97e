/** Packet IDs of the data channel across batches, encode failures and rekeys. */
module DataPacketIDs {
  import opened Bytes
  import opened Collections
  import opened PacketCodec
  import opened ReliableState
  import opened RekeySpec
  import opened RekeySafety

  /** The data codec and the session manager of a key state. */
  datatype Codec = Codec(sequence: nat)

  datatype Manager = Manager(sequence: nat)

  /** A codec with the session manager that numbers its packets, as one writer found them. */
  datatype SendKey = SendKey(codec: Codec, manager: Manager)

  datatype Use = Use(codec: Codec, id: Uint32)

  /** What becomes of one prepared packet: encoded, refused by the codec, or not put into bytes. */
  datatype Coding = Encoded | CodecFails | BytesFail

  /** `next` is the next ID of each session manager that has issued any, `uses` every ID a codec was called with. */
  datatype Sender = Sender(keys: Keys, next: map<Manager, Uint32>, captured: Option<SendKey>, uses: seq<Use>)

  datatype Event = Rekey(action: Action) | Capture | Write(prepared: seq<seq<Coding>>)

  function NextID(s: Sender, manager: Manager): Uint32 {
    if manager in s.next then s.next[manager] else 1
  }

  /** The first `n` uses of a block of IDs. */
  function Uses(codec: Codec, first: Uint32, n: nat): (r: seq<Use>)
    requires first + n <= MAX_UINT32
    ensures |r| == n && forall i :: 0 <= i < n ==> r[i] == Use(codec, first + i)
  {
    seq(n, i requires 0 <= i < n => Use(codec, first + i))
  }

  // ---- One batch ---------------------------------------------------------

  /** Encoding stops behind the first failure. */
  function Attempts(packets: seq<Coding>): (n: nat)
    ensures n <= |packets|
  {
    if |packets| == 0 then 0 else if packets[0].Encoded? then 1 + Attempts(packets[1..]) else 1
  }

  lemma {:induction false} AttemptsExactly(packets: seq<Coding>, n: nat)
    requires n <= |packets| && (forall i :: 0 <= i < n - 1 ==> packets[i].Encoded?)
    requires if n < |packets| then n > 0 && !packets[n - 1].Encoded? else true
    ensures Attempts(packets) == n
    decreases |packets|
  {
    if n > 1 {
      AttemptsExactly(packets[1..], n - 1);
    } else if n == 1 && packets[0].Encoded? {
      assert packets[1..] == [];
    }
  }

  lemma {:induction false} FlatAt(prepared: seq<seq<Coding>>, i: nat, j: nat)
    requires i < |prepared| && j <= |prepared[i]|
    ensures |Flat(prepared[..i])| + j <= |Flat(prepared)|
    ensures j < |prepared[i]| ==>
          |Flat(prepared[..i])| + j < |Flat(prepared)| && Flat(prepared)[|Flat(prepared[..i])| + j] == prepared[i][j]
    ensures |Flat(prepared[..i + 1])| == |Flat(prepared[..i])| + |prepared[i]|
    decreases |prepared|
  {
    var front := prepared[..|prepared| - 1];
    assert prepared[..i + 1][..i] == prepared[..i];
    if i < |front| {
      FlatAt(front, i, j);
      assert front[..i] == prepared[..i] && front[..i + 1] == prepared[..i + 1];
    } else {
      assert prepared[..i + 1] == prepared;
    }
  }

  method Count(prepared: seq<seq<Coding>>) returns (count: nat)
    ensures count == |Flat(prepared)|
  {
    count := 0;
    for i := 0 to |prepared|
      invariant count == |Flat(prepared[..i])|
    {
      FlatAt(prepared, i, 0);
      count := count + |prepared[i]|;
    }
    assert prepared[..|prepared|] == prepared;
  }

  /** Takes the IDs of a whole batch and uses them one by one until encoding fails. */
  method WriteBatch(codec: Codec, manager: SessionManager, peerIDs: bool, prepared: seq<seq<Coding>>)
    returns (uses: seq<Use>, encoded: seq<Uint32>, failed: bool)
    requires manager.Valid()
    modifies manager
    ensures manager.Valid() && manager.localControlPacketID == old(manager.localControlPacketID)
    ensures var first, packets := old(manager.localDataPacketID), Flat(prepared);
            if |packets| == 0 || |packets| > MAX_UINT32 - first then
              uses == [] && encoded == [] && manager.localDataPacketID == first && (failed <==> |packets| > 0)
            else
              && manager.localDataPacketID == first + |packets| && uses == Uses(codec, first, Attempts(packets))
              && (failed <==> exists i :: 0 <= i < |packets| && !packets[i].Encoded?)
              && |encoded| == |uses| - (if failed then 1 else 0)
              && forall i :: 0 <= i < |encoded| ==> encoded[i] == uses[i].id
  {
    uses, encoded, failed := [], [], false;
    var count := Count(prepared);
    if count == 0 {
      return;
    }
    var first := manager.localDataPacketID;
    var ids := manager.NewDataPacketIDs(if peerIDs then DATA_V2 else DATA_V1, count);
    if !ids.Got? {
      failed := true;
      return;
    }
    uses, encoded, failed := EncodeAll(codec, first, ids.value, prepared);
  }

  /** The two nested loops over the payloads and the packets of each. */
  method EncodeAll(codec: Codec, ghost first: Uint32, ids: seq<Uint32>, prepared: seq<seq<Coding>>)
    returns (uses: seq<Use>, encoded: seq<Uint32>, failed: bool)
    requires |ids| == |Flat(prepared)| <= MAX_UINT32 - first && forall i :: 0 <= i < |ids| ==> ids[i] == first + i
    ensures uses == Uses(codec, first, Attempts(Flat(prepared)))
    ensures failed <==> exists i :: 0 <= i < |Flat(prepared)| && !Flat(prepared)[i].Encoded?
    ensures |encoded| == |uses| - (if failed then 1 else 0)
    ensures forall i :: 0 <= i < |encoded| ==> encoded[i] == uses[i].id
  {
    hide Flat, Attempts;
    uses, encoded, failed := [], [], false;
    ghost var packets := Flat(prepared);
    var index := 0;
    assert Flat(prepared[..0]) == [] by { FlatNothing(prepared[..0]); }
    for i := 0 to |prepared|
      invariant index == |Flat(prepared[..i])| <= |packets| && uses == Uses(codec, first, index) && !failed
      invariant forall k :: 0 <= k < index ==> packets[k].Encoded?
      invariant |encoded| == index && forall k :: 0 <= k < index ==> encoded[k] == first + k
    {
      FlatAt(prepared, i, 0);
      for j := 0 to |prepared[i]|
        invariant index == |Flat(prepared[..i])| + j <= |packets| && uses == Uses(codec, first, index) && !failed
        invariant forall k :: 0 <= k < index ==> packets[k].Encoded?
        invariant |encoded| == index && forall k :: 0 <= k < index ==> encoded[k] == first + k
      {
        FlatAt(prepared, i, j);
        var id := ids[index];
        index := index + 1;
        uses := uses + [Use(codec, id)];
        if prepared[i][j] != Encoded {
          failed := true;
          AttemptsExactly(packets, index);
          return;
        }
        encoded := encoded + [id];
      }
    }
    assert prepared[..|prepared|] == prepared;
    AttemptsExactly(packets, index);
  }

  /** What a batch does to the sender: all its IDs are taken, and used up to the first failure. */
  function Written(s: Sender, key: SendKey, prepared: seq<seq<Coding>>): Sender {
    var first, packets := NextID(s, key.manager), Flat(prepared);
    if |packets| == 0 || |packets| > MAX_UINT32 - first then s
    else s.(next := s.next[key.manager := first + |packets|],
        uses := s.uses + Uses(key.codec, first, Attempts(packets)))
  }

  // ---- Batches and rekeys ------------------------------------------------

  /** A rekey may come between a writer's look at the sending key and its use. */
  function Happen(s: Sender, e: Event): Sender {
    match e
    case Rekey(action) => s.(keys := Step(s.keys, action))
    case Capture => s.(captured := Some(SendKey(Codec(s.keys.sendCodec), Manager(s.keys.sendManager))))
    case Write(prepared) => if s.captured.None? then s else Written(s, s.captured.value, prepared)
  }

  function History(s: Sender, events: seq<Event>): Sender {
    if |events| == 0 then s else Happen(History(s, events[..|events| - 1]), events[|events| - 1])
  }

  function Fresh(server: bool): Sender {
    Sender(Initial(server), map[], None, [])
  }

  /** The codec and the manager of one key state belong together. */
  predicate Paired(key: SendKey) {
    key.codec.sequence == key.manager.sequence
  }

  function Numbers(codec: Codec): Manager {
    Manager(codec.sequence)
  }

  /** Each codec has been used only below the next ID of its own manager, and never twice with one ID. */
  ghost predicate Unique(s: Sender) {
    && Inv(s.keys)
    && (s.captured.Some? ==> Paired(s.captured.value))
    && (forall m :: m in s.next ==> 1 <= s.next[m])
    && (forall i :: 0 <= i < |s.uses| ==> 1 <= s.uses[i].id < NextID(s, Numbers(s.uses[i].codec)))
    && (forall i, j :: 0 <= i < j < |s.uses| ==> s.uses[i] != s.uses[j])
  }

  lemma WrittenKeeps(s: Sender, key: SendKey, prepared: seq<seq<Coding>>)
    requires Unique(s) && Paired(key)
    ensures Unique(Written(s, key, prepared))
  {
    hide Inv, Flat, Attempts;
    var t := Written(s, key, prepared);
    assert forall i :: 0 <= i < |s.uses| ==> t.uses[i] == s.uses[i];
    assert forall i :: |s.uses| <= i < |t.uses| ==>
        t.uses[i] == Use(key.codec, NextID(s, key.manager) + (i - |s.uses|));
  }

  lemma HappenKeeps(s: Sender, e: Event)
    requires Unique(s)
    ensures Unique(Happen(s, e))
  {
    match e
    case Rekey(action) =>
      hide Inv, Step;
      StepKeeps(s.keys, action);
    case Capture =>
      assert s.keys.sendCodec == s.keys.sendManager by { assert Promotion(s.keys); }
      hide Inv;
    case Write(prepared) =>
      hide Inv, Written;
      if s.captured.Some? { WrittenKeeps(s, s.captured.value, prepared); }
  }

  lemma {:induction false} HistoryKeeps(s: Sender, events: seq<Event>)
    requires Unique(s)
    ensures Unique(History(s, events))
    decreases |events|
  {
    hide Unique, Happen;
    if |events| > 0 {
      HistoryKeeps(s, events[..|events| - 1]);
      HappenKeeps(History(s, events[..|events| - 1]), events[|events| - 1]);
    }
  }

  lemma FreshIsUnique(server: bool)
    ensures Unique(Fresh(server))
  {
    InitialInv(server);
    hide Inv;
  }

  /** Whatever happens, new uses come behind the old ones, with the IDs of one codec from its manager's next one on. */
  lemma UsesGrow(s: Sender, e: Event)
    requires Unique(s)
    ensures var uses, more := s.uses, Happen(s, e).uses;
            && uses <= more
            && (forall i, j :: |uses| <= i < j < |more| ==> more[i].id < more[j].id)
            && (forall j :: |uses| <= j < |more| ==> more[j].id >= NextID(s, Numbers(more[j].codec)))
  {
    hide Inv, Step, Flat, Attempts;
    if e.Write? && s.captured.Some? {
      var key := s.captured.value;
      var uses, more := s.uses, Happen(s, e).uses;
      assert forall j :: |uses| <= j < |more| ==> more[j] == Use(key.codec, NextID(s, key.manager) + (j - |uses|));
    }
  }

  /** No data codec is ever called twice with one packet ID, and IDs never reach zero or wrap. */
  lemma NoPacketIDTwice(server: bool, events: seq<Event>)
    ensures var uses := History(Fresh(server), events).uses;
            && (forall i, j :: 0 <= i < j < |uses| ==> uses[i] != uses[j])
            && (forall i :: 0 <= i < |uses| ==> 0 < uses[i].id < MAX_UINT32)
  {
    FreshIsUnique(server);
    hide History, Inv;
    HistoryKeeps(Fresh(server), events);
  }

  /** Within one codec, IDs are used in ascending order. */
  lemma {:induction false} IDsAscend(server: bool, events: seq<Event>)
    ensures var uses := History(Fresh(server), events).uses;
            forall i, j :: 0 <= i < j < |uses| && uses[i].codec == uses[j].codec ==> uses[i].id < uses[j].id
    decreases |events|
  {
    if |events| > 0 {
      var front, e := events[..|events| - 1], events[|events| - 1];
      IDsAscend(server, front);
      var s := History(Fresh(server), front);
      FreshIsUnique(server);
      HistoryKeeps(Fresh(server), front);
      hide History, Inv;
      var uses, more := s.uses, Happen(s, e).uses;
      UsesGrow(s, e);
      hide Happen;
      forall i, j | 0 <= i < j < |more| && more[i].codec == more[j].codec ensures more[i].id < more[j].id {
        if i < |uses| { assert more[i] == uses[i]; }
        if j < |uses| { assert more[j] == uses[j]; }
      }
    }
  }
}
