/** Pushers and one reader around the queue, in every interleaving of their steps. */
module QueueWakeup {
  import opened DataQueue

  /** The reader pops, signals again if it left items behind, or waits for a token. */
  datatype Reader = Away | Ready | Waiting | Signalling

  /**
   `signals` counts the pushers that found the queue empty, filled it and are
   about to signal. `pushed`, `popped` and `dropped` remember every item.
   */
  datatype Shared<T> = Shared(
    capacity: nat,
    queue: seq<T>,
    token: bool,
    signals: nat,
    reader: Reader,
    pushed: seq<T>,
    popped: seq<T>,
    dropped: seq<T>)

  datatype Move<T> =
    | Push(batch: seq<T>)
    | PushDropNew(batch: seq<T>)
    | Signal
    | Enter
    | Pop(count: nat)
    | SignalRest
    | Wake
    | Leave

  function Pushed<T>(s: Shared<T>, batch: seq<T>, queue: seq<T>, dropped: seq<T>): Shared<T> {
    s.(queue := queue, pushed := s.pushed + batch, dropped := s.dropped + dropped,
       signals := s.signals + if s.queue == [] && queue != [] then 1 else 0)
  }

  function Step<T>(s: Shared<T>, m: Move<T>): Shared<T> {
    match m
    case Push(batch) =>
      var all := s.queue + batch;
      Pushed(s, batch, Newest(all, s.capacity), all[..|all| - |Newest(all, s.capacity)|])
    case PushDropNew(batch) =>
      var all := s.queue + batch;
      var n := if |all| < s.capacity then |all| else s.capacity;
      Pushed(s, batch, all[..n], all[n..])
    case Signal => if s.signals > 0 then s.(signals := s.signals - 1, token := true) else s
    case Enter => if s.reader == Away then s.(reader := Ready) else s
    case Pop(count) =>
      if s.reader != Ready then s
      else if s.queue == [] then s.(reader := Waiting)
      else
        var n := if 0 < count < |s.queue| then count else |s.queue|;
        s.(queue := s.queue[n..], popped := s.popped + s.queue[..n],
           reader := if n < |s.queue| then Signalling else Away)
    case SignalRest => if s.reader == Signalling then s.(token := true, reader := Away) else s
    case Wake => if s.reader == Waiting && s.token then s.(token := false, reader := Ready) else s
    case Leave => if s.reader == Ready || s.reader == Waiting then s.(reader := Away) else s
  }

  function Run<T>(s: Shared<T>, moves: seq<Move<T>>): Shared<T> {
    if |moves| == 0 then s else Step(Run(s, moves[..|moves| - 1]), moves[|moves| - 1])
  }

  function Fresh<T>(capacity: nat): Shared<T> {
    Shared(capacity, [], false, 0, Away, [], [], [])
  }

  // ---- Subsequences ------------------------------------------------------

  /** `a` is `b` with some items left out. */
  ghost predicate Within<T(!new)>(a: seq<T>, b: seq<T>) {
    |a| == 0 || (|b| > 0 &&
        (Within(a, b[..|b| - 1]) || (a[|a| - 1] == b[|b| - 1] && Within(a[..|a| - 1], b[..|b| - 1]))))
  }

  lemma {:induction false} WithinAppend<T(!new)>(a: seq<T>, b: seq<T>, c: seq<T>)
    requires Within(a, b)
    ensures Within(a + c, b + c)
    decreases |c|
  {
    if |c| == 0 {
      assert a + c == a && b + c == b;
    } else {
      var front := c[..|c| - 1];
      WithinAppend(a, b, front);
      assert (a + c)[..|a + c| - 1] == a + front && (b + c)[..|b + c| - 1] == b + front;
    }
  }

  lemma {:induction false} WithinShrinks<T(!new)>(a: seq<T>, b: seq<T>, i: nat, j: nat)
    requires Within(a, b) && i <= j <= |a|
    ensures Within(a[..i] + a[j..], b)
    decreases |b|
  {
    var short := a[..i] + a[j..];
    if |short| > 0 && i < j {
      var front := b[..|b| - 1];
      if Within(a, front) {
        WithinShrinks(a, front, i, j);
      } else if j < |a| {
        var less := a[..|a| - 1];
        WithinShrinks(less, front, i, j);
        assert short[..|short| - 1] == less[..i] + less[j..];
      } else {
        var less := a[..|a| - 1];
        WithinShrinks(less, front, i, |less|);
        assert short == less[..i] + less[|less|..];
      }
    } else {
      assert i == j ==> short == a;
    }
  }

  // ---- What every run keeps ----------------------------------------------

  /** Whoever waits while there are items will be woken: the token is there, or a pusher is about to put it there. */
  ghost predicate Woken<T(!new)>(s: Shared<T>) {
    s.reader == Waiting && s.queue != [] ==> s.token || s.signals > 0
  }

  ghost predicate Conserved<T(!new)>(s: Shared<T>) {
    && |s.queue| <= s.capacity
    && multiset(s.pushed) == multiset(s.popped) + multiset(s.dropped) + multiset(s.queue)
    && Within(s.popped + s.queue, s.pushed)
  }

  lemma StepWakes<T(!new)>(s: Shared<T>, m: Move<T>)
    requires Woken(s) && s.capacity > 0
    ensures Woken(Step(s, m))
  {
    if m.Push? || m.PushDropNew? {
      assert s.queue == [] ==> s.queue + m.batch == m.batch;
    }
  }

  /** Leaving out items `i` to `j` of the longer queue keeps the order of pushing. */
  lemma KeepsOrder<T(!new)>(popped: seq<T>, queue: seq<T>, pushed: seq<T>, batch: seq<T>, i: nat, j: nat)
    requires Within(popped + queue, pushed) && i <= j <= |queue + batch|
    ensures Within(popped + ((queue + batch)[..i] + (queue + batch)[j..]), pushed + batch)
  {
    hide Within;
    var all, n := queue + batch, |popped|;
    var before := popped + all;
    WithinAppend(popped + queue, pushed, batch);
    assert popped + queue + batch == before;
    WithinShrinks(before, pushed + batch, n + i, n + j);
    assert before[..n + i] + before[n + j..] == popped + (all[..i] + all[j..]);
  }

  lemma KeepsCount<T(!new)>(s: Shared<T>, batch: seq<T>, kept: seq<T>, gone: seq<T>)
    requires Conserved(s) && multiset(s.queue + batch) == multiset(kept) + multiset(gone)
    ensures multiset(s.pushed + batch) == multiset(s.popped) + multiset(s.dropped + gone) + multiset(kept)
  {
    hide Within;
    assert multiset(s.queue + batch) == multiset(s.queue) + multiset(batch);
    assert multiset(s.pushed + batch) == multiset(s.pushed) + multiset(batch);
    assert multiset(s.dropped + gone) == multiset(s.dropped) + multiset(gone);
    Balances(multiset(s.popped), multiset(s.dropped), multiset(s.queue), multiset(batch), multiset(kept),
        multiset(gone));
  }

  lemma Balances<T(!new)>(popped: multiset<T>, dropped: multiset<T>, queue: multiset<T>, batch: multiset<T>,
        kept: multiset<T>, gone: multiset<T>)
    requires queue + batch == kept + gone
    ensures popped + dropped + queue + batch == popped + (dropped + gone) + kept
  {
    forall x ensures queue[x] + batch[x] == kept[x] + gone[x] {
      assert (queue + batch)[x] == (kept + gone)[x];
    }
  }

  lemma PushConserves<T(!new)>(s: Shared<T>, batch: seq<T>)
    requires Conserved(s)
    ensures Conserved(Step(s, Push(batch)))
  {
    hide Within;
    var all := s.queue + batch;
    var kept := Newest(all, s.capacity);
    var n := |all| - |kept|;
    assert all == all[..n] + kept;
    assert all[..0] + all[n..] == kept;
    KeepsOrder(s.popped, s.queue, s.pushed, batch, 0, n);
    KeepsCount(s, batch, kept, all[..n]);
  }

  lemma PushDropNewConserves<T(!new)>(s: Shared<T>, batch: seq<T>)
    requires Conserved(s)
    ensures Conserved(Step(s, PushDropNew(batch)))
  {
    hide Within;
    var all := s.queue + batch;
    var n := if |all| < s.capacity then |all| else s.capacity;
    assert all == all[..n] + all[n..];
    assert all[..n] + all[|all|..] == all[..n];
    KeepsOrder(s.popped, s.queue, s.pushed, batch, n, |all|);
    KeepsCount(s, batch, all[..n], all[n..]);
  }

  lemma StepConserves<T(!new)>(s: Shared<T>, m: Move<T>)
    requires Conserved(s)
    ensures Conserved(Step(s, m))
  {
    hide Within, Newest;
    match m
    case Push(batch) => PushConserves(s, batch);
    case PushDropNew(batch) => PushDropNewConserves(s, batch);
    case Pop(count) =>
      if s.reader == Ready && s.queue != [] {
        var n := if 0 < count < |s.queue| then count else |s.queue|;
        assert s.queue == s.queue[..n] + s.queue[n..];
        assert s.popped + s.queue == (s.popped + s.queue[..n]) + s.queue[n..];
      }
    case _ =>
  }

  /**
   In every interleaving, a waiting reader is not forgotten, and every item
   pushed is popped, dropped or queued, in the order of pushing.
   */
  lemma {:induction false} EveryRun<T(!new)>(capacity: nat, moves: seq<Move<T>>)
    requires capacity > 0
    ensures var s := Run(Fresh(capacity), moves); s.capacity == capacity && Woken(s) && Conserved(s)
    decreases |moves|
  {
    hide Step, Woken, Conserved;
    if |moves| == 0 {
      NothingYet<T>(capacity);
    } else {
      var front, m := moves[..|moves| - 1], moves[|moves| - 1];
      EveryRun(capacity, front);
      var s := Run(Fresh(capacity), front);
      StepWakes(s, m);
      StepConserves(s, m);
      SameCapacity(s, m);
    }
  }

  lemma NothingYet<T(!new)>(capacity: nat)
    ensures Woken<T>(Fresh(capacity)) && Conserved<T>(Fresh(capacity))
  {
    var s: Shared<T> := Fresh(capacity);
    assert s.popped + s.queue == [];
  }

  lemma SameCapacity<T(!new)>(s: Shared<T>, m: Move<T>)
    ensures Step(s, m).capacity == s.capacity
  {
  }

  // ---- A waiting reader catches up ---------------------------------------

  /**
   How far a reader that waited in `s` has got in `t`: it waits, it waits with the
   token there, it is awake, or it has popped.
   */
  ghost predicate Waits<T(!new)>(s: Shared<T>, t: Shared<T>) {
    t.reader == Waiting && t.queue != [] && t.popped == s.popped
  }

  ghost predicate Awake<T(!new)>(s: Shared<T>, t: Shared<T>) {
    t.reader == Ready && t.queue != [] && t.popped == s.popped
  }

  ghost predicate Popped<T(!new)>(s: Shared<T>, t: Shared<T>) {
    s.popped < t.popped
  }

  ghost predicate Reached<T(!new)>(s: Shared<T>, t: Shared<T>, stage: nat) {
    || (stage == 0 && Waits(s, t))
    || (stage <= 1 && Waits(s, t) && t.token)
    || (stage <= 2 && Awake(s, t))
    || Popped(s, t)
  }

  /** Which stage a move takes the reader to. */
  function NextStage<T>(m: Move<T>, stage: nat): nat {
    match m
    case Signal => if stage == 0 then 1 else stage
    case Wake => if stage == 1 then 2 else stage
    case Pop(_) => if stage == 2 then 3 else stage
    case _ => stage
  }

  lemma QueueStays<T(!new)>(t: Shared<T>, m: Move<T>)
    requires t.capacity > 0 && t.queue != [] && !m.Pop?
    ensures Step(t, m).queue != []
  {
  }

  lemma StageKept<T(!new)>(s: Shared<T>, t: Shared<T>, m: Move<T>, stage: nat)
    requires Reached(s, t, stage) && Woken(t) && t.capacity > 0 && m != Leave && stage <= 3
    ensures Reached(s, Step(t, m), NextStage(m, stage))
  {
    if t.queue != [] && !m.Pop? { QueueStays(t, m); }
    hide Newest;
  }

  /** The stage after the moves: a signal, then a wake, then a pop, with anything in between. */
  function Stage<T>(moves: seq<Move<T>>): (stage: nat)
    ensures stage <= 3
  {
    if |moves| == 0 then 0 else NextStage(moves[|moves| - 1], Stage(moves[..|moves| - 1]))
  }

  lemma {:induction false} StageReached<T(!new)>(s: Shared<T>, moves: seq<Move<T>>)
    requires Woken(s) && s.capacity > 0 && s.reader == Waiting && s.queue != [] && Leave !in moves
    ensures var t := Run(s, moves); Reached(s, t, Stage(moves)) && Woken(t) && t.capacity == s.capacity
    decreases |moves|
  {
    hide Step, Woken, Reached, NextStage;
    if |moves| == 0 {
      assert Reached(s, s, 0) by { Begins(s); }
    } else {
      var front, m := moves[..|moves| - 1], moves[|moves| - 1];
      StageReached(s, front);
      var t := Run(s, front);
      StepWakes(t, m);
      SameCapacity(t, m);
      StageKept(s, t, m, Stage(front));
    }
  }

  lemma Begins<T(!new)>(s: Shared<T>)
    requires s.reader == Waiting && s.queue != []
    ensures Reached(s, s, 0)
  {
  }

  lemma {:induction false} StageGrows<T(!new)>(moves: seq<Move<T>>, n: nat)
    requires n <= |moves|
    ensures Stage(moves[..n]) <= Stage(moves)
    decreases |moves|
  {
    if n < |moves| {
      StageGrows(moves[..|moves| - 1], n);
      assert moves[..|moves| - 1][..n] == moves[..n];
    } else {
      assert moves[..n] == moves;
    }
  }

  lemma StageAt<T(!new)>(moves: seq<Move<T>>, n: nat)
    requires n < |moves|
    ensures Stage(moves[..n + 1]) == NextStage(moves[n], Stage(moves[..n])) <= Stage(moves)
  {
    hide NextStage;
    assert moves[..n + 1][..n] == moves[..n];
    StageGrows(moves, n + 1);
  }

  /**
   In every run from a state in which the reader waits for queued items, whatever
   the pushers do: once a signal, a wake and a pop have come in this order, and the
   reader has not given up, it has popped something.
   */
  lemma ReaderCatchesUp<T(!new)>(s: Shared<T>, moves: seq<Move<T>>, i: nat, j: nat, k: nat)
    requires Woken(s) && s.capacity > 0 && s.reader == Waiting && s.queue != [] && Leave !in moves
    requires i < j < k < |moves| && moves[i].Signal? && moves[j].Wake? && moves[k].Pop?
    ensures s.popped < Run(s, moves).popped
  {
    hide Run, Stage, Woken;
    StageReached(s, moves);
    StageAt(moves, i);
    StageAt(moves, j);
    StageAt(moves, k);
    StageGrows(moves[..j], i + 1);
    StageGrows(moves[..k], j + 1);
    assert moves[..j][..i + 1] == moves[..i + 1] && moves[..k][..j + 1] == moves[..j + 1];
  }

  // ---- And gets what was queued ------------------------------------------

  /** The first `d` items that were queued in `s` have been dropped; the others come next, or have been popped. */
  ghost predicate Owed<T(!new)>(s: Shared<T>, t: Shared<T>, d: nat) {
    && d <= |s.queue| && multiset(s.dropped) + multiset(s.queue[..d]) <= multiset(t.dropped)
    && (if t.popped == s.popped then s.queue[d..] <= t.queue else s.popped + s.queue[d..] <= t.popped)
  }

  /** The reader takes all there is. */
  predicate Whole<T>(m: Move<T>) {
    m.Pop? ==> m.count == 0
  }

  lemma DropsFirst<T(!new)>(queue: seq<T>, all: seq<T>, d: nat, n: nat)
    requires d <= |queue| && queue[d..] <= all && n <= |all|
    ensures var e := if d + n <= |queue| then d + n else |queue|;
            queue[e..] <= all[n..] && multiset(queue[..e]) <= multiset(queue[..d]) + multiset(all[..n])
  {
    var rest, e := queue[d..], if d + n <= |queue| then d + n else |queue|;
    var c := e - d;
    assert all[..c] == rest[..c] == queue[d..e];
    assert queue[..e] == queue[..d] + queue[d..e];
    assert all[..n] == all[..c] + all[c..n];
    assert queue[e..] == rest[c..];
  }

  ghost predicate OwedWithin<T(!new)>(s: Shared<T>, t: Shared<T>, d: nat) {
    Owed(s, t, d) && |t.queue| <= t.capacity
  }

  lemma OwedAfterPush<T(!new)>(s: Shared<T>, t: Shared<T>, batch: seq<T>, d: nat) returns (e: nat)
    requires OwedWithin(s, t, d)
    ensures OwedWithin(s, Step(t, Push(batch)), e)
  {
    var all := t.queue + batch;
    var n := |all| - |Newest(all, t.capacity)|;
    assert Newest(all, t.capacity) == all[n..] && |all[n..]| <= t.capacity;
    hide Newest;
    if t.popped == s.popped {
      e := if d + n <= |s.queue| then d + n else |s.queue|;
      assert s.queue[d..] <= all;
      DropsFirst(s.queue, all, d, n);
    } else {
      e := d;
    }
    MoreDropped(s.dropped, s.queue[..d], s.queue[..e], t.dropped, all[..n]);
    var next := Step(t, Push(batch));
    assert next.queue == all[n..] && next.dropped == t.dropped + all[..n] && next.popped == t.popped &&
        next.capacity == t.capacity;
    hide Step;
  }

  lemma MoreDropped<T(!new)>(before: seq<T>, first: seq<T>, next: seq<T>, dropped: seq<T>, gone: seq<T>)
    requires multiset(before) + multiset(first) <= multiset(dropped)
    requires multiset(next) <= multiset(first) + multiset(gone)
    ensures multiset(before) + multiset(next) <= multiset(dropped + gone)
  {
    assert multiset(dropped + gone) == multiset(dropped) + multiset(gone);
  }

  lemma OwedAfterDropNew<T(!new)>(s: Shared<T>, t: Shared<T>, batch: seq<T>, d: nat)
    requires OwedWithin(s, t, d)
    ensures OwedWithin(s, Step(t, PushDropNew(batch)), d)
  {
    var all := t.queue + batch;
    var n := if |all| < t.capacity then |all| else t.capacity;
    assert t.queue <= all[..n];
    assert multiset(t.dropped + all[n..]) == multiset(t.dropped) + multiset(all[n..]);
  }

  lemma OwedAfterPop<T(!new)>(s: Shared<T>, t: Shared<T>, d: nat)
    requires OwedWithin(s, t, d) && s.popped <= t.popped
    ensures OwedWithin(s, Step(t, Pop(0)), d)
  {
    if t.reader == Ready && t.queue != [] {
      assert t.queue[..|t.queue|] == t.queue;
      assert |t.popped + t.queue| > |s.popped|;
    }
  }

  lemma OwedKept<T(!new)>(s: Shared<T>, t: Shared<T>, m: Move<T>, d: nat) returns (e: nat)
    requires OwedWithin(s, t, d) && s.popped <= t.popped && Whole(m)
    ensures OwedWithin(s, Step(t, m), e) && s.popped <= Step(t, m).popped
  {
    hide Newest, OwedWithin;
    e := d;
    match m
    case Push(batch) => e := OwedAfterPush(s, t, batch, d);
    case PushDropNew(batch) => OwedAfterDropNew(s, t, batch, d);
    case Pop(count) => OwedAfterPop(s, t, d);
    case _ => OwedIgnores(s, t, Step(t, m), d);
  }

  lemma OwedIgnores<T(!new)>(s: Shared<T>, t: Shared<T>, next: Shared<T>, d: nat)
    requires OwedWithin(s, t, d)
    requires next == t.(token := next.token, signals := next.signals, reader := next.reader)
    ensures OwedWithin(s, next, d)
  {
  }

  lemma {:induction false} OwedThroughout<T(!new)>(s: Shared<T>, moves: seq<Move<T>>) returns (d: nat)
    requires |s.queue| <= s.capacity && forall n :: 0 <= n < |moves| ==> Whole(moves[n])
    ensures OwedWithin(s, Run(s, moves), d) && s.popped <= Run(s, moves).popped
    decreases |moves|
  {
    hide Step, OwedWithin;
    d := 0;
    if |moves| == 0 {
      OwedAtFirst(s);
    } else {
      var front, m := moves[..|moves| - 1], moves[|moves| - 1];
      d := OwedThroughout(s, front);
      d := OwedKept(s, Run(s, front), m, d);
    }
  }

  lemma OwedAtFirst<T(!new)>(s: Shared<T>)
    requires |s.queue| <= s.capacity
    ensures OwedWithin(s, s, 0)
  {
  }

  /**
   If the reader takes all there is, what was queued is popped next, in order, but
   for a front part that pushers have dropped to make room.
   */
  lemma ReaderGetsWhatWasQueued<T(!new)>(s: Shared<T>, moves: seq<Move<T>>, i: nat, j: nat, k: nat) returns (d: nat)
    requires Woken(s) && 0 < |s.queue| <= s.capacity && s.reader == Waiting && Leave !in moves
    requires i < j < k < |moves| && moves[i].Signal? && moves[j].Wake? && moves[k].Pop?
    requires forall n :: 0 <= n < |moves| ==> Whole(moves[n])
    ensures d <= |s.queue| && s.popped + s.queue[d..] <= Run(s, moves).popped
    ensures multiset(s.dropped) + multiset(s.queue[..d]) <= multiset(Run(s, moves).dropped)
  {
    hide Run, Woken;
    ReaderCatchesUp(s, moves, i, j, k);
    d := OwedThroughout(s, moves);
  }
}
