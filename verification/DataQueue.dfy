/** The ring of waiting data packets and the token that wakes its reader. */
module DataQueue {
  import opened Arithmetic

  // ---- What the queue does to its contents -------------------------------

  /** The newest `capacity` items. */
  function Newest<T>(s: seq<T>, capacity: nat): seq<T> {
    if |s| > capacity then s[|s| - capacity..] else s
  }

  /** How many items leave together: at most `max` if that is positive, and only as long as they go with the first. */
  function RunLength<T>(s: seq<T>, max: int, sameRun: (T, T) -> bool): (n: nat)
    ensures n <= |s| && (max > 0 ==> n <= max) && (|s| > 0 ==> n > 0)
    ensures forall i :: 1 <= i < n ==> sameRun(s[0], s[i])
    ensures n < |s| && (max <= 0 || n < max) ==> !sameRun(s[0], s[n])
  {
    var limit := if 0 < max < |s| then max else |s|;
    if limit == 0 then 0 else RunFrom(s, 1, limit, sameRun)
  }

  function RunFrom<T>(s: seq<T>, i: nat, limit: nat, sameRun: (T, T) -> bool): (n: nat)
    requires 1 <= i <= limit <= |s| && forall k :: 1 <= k < i ==> sameRun(s[0], s[k])
    ensures i <= n <= limit && (forall k :: 1 <= k < n ==> sameRun(s[0], s[k])) && (n < limit ==> !sameRun(s[0], s[n]))
    decreases limit - i
  {
    if i == limit || !sameRun(s[0], s[i]) then i else RunFrom(s, i + 1, limit, sameRun)
  }

  // ---- The ring ----------------------------------------------------------

  class DataPacketQueue<T(0)> {
    const items: array<T>
    const zero: T
    var head: nat
    var length: nat
    var wake: bool

    ghost predicate Valid()
      reads this, items
    {
      items.Length > 0 && head < items.Length && length <= items.Length
    }

    ghost function Contents(): (s: seq<T>)
      reads this, items
      requires Valid()
    {
      Ring(items[..], head, length)
    }

    constructor (capacity: nat, zero: T)
      requires capacity > 0
      ensures Valid() && items.Length == capacity && Contents() == [] && !wake && fresh(items)
    {
      items := new T[capacity](_ => zero);
      this.zero := zero;
      head, length, wake := 0, 0, false;
    }

    method Enqueue(item: T)
      requires Valid() && length < items.Length
      modifies this`length, items
      ensures Valid() && Contents() == old(Contents()) + [item]
    {
      Wraps(head, length, items.Length);
      var tail := (head + length) % items.Length;
      items[tail] := item;
      length := length + 1;
    }

    method DropOldest() returns (item: T)
      requires Valid() && length > 0
      modifies this`head, this`length, items
      ensures Valid() && [item] + Contents() == old(Contents())
    {
      Wraps(head, 1, items.Length);
      item := items[head];
      items[head] := zero;
      head := (head + 1) % items.Length;
      length := length - 1;
      assert old(Contents())[0] == item;
    }

    method Signal()
      modifies this`wake
      ensures wake
    {
      wake := true;
    }

    /** Makes room by dropping the oldest items. */
    method PushBatch(batch: seq<T>) returns (released: seq<T>)
      requires Valid()
      modifies this, items
      ensures Valid() && Contents() == Newest(old(Contents()) + batch, items.Length)
      ensures released + Contents() == old(Contents()) + batch
      ensures wake == (old(wake) || (old(length) == 0 && |batch| > 0))
    {
      released := [];
      if |batch| == 0 {
        return;
      }
      var wasEmpty := length == 0;
      ghost var before := Contents();
      for n := 0 to |batch|
        invariant Valid() && wake == old(wake) && released + Contents() == before + batch[..n]
        invariant released == [] || length == items.Length
      {
        ghost var now, gone := Contents(), released;
        var dropped := PushOne(batch[n]);
        released := released + dropped;
        Regroups(gone, dropped, Contents(), now, [batch[n]]);
        assert before + batch[..n + 1] == before + batch[..n] + [batch[n]];
      }
      assert batch[..|batch|] == batch;
      if wasEmpty {
        Signal();
      }
    }

    method PushOne(item: T) returns (dropped: seq<T>)
      requires Valid()
      modifies this`head, this`length, items
      ensures Valid() && dropped + Contents() == old(Contents()) + [item] && (dropped == [] || length == items.Length)
      ensures length >= old(length)
    {
      dropped := [];
      if length == items.Length {
        var oldest := DropOldest();
        dropped := [oldest];
      }
      ghost var rest := Contents();
      Enqueue(item);
      Regroups([], dropped, Contents(), rest, [item]);
    }

    /** Takes what there is room for and drops the rest. */
    method PushBatchDropNew(batch: seq<T>) returns (released: seq<T>)
      requires Valid()
      modifies this, items
      ensures Valid() && |Contents()| ==
            (if |old(Contents())| + |batch| < items.Length then |old(Contents())| + |batch| else items.Length)
      ensures Contents() + released == old(Contents()) + batch
      ensures wake == (old(wake) || (old(length) == 0 && |batch| > 0))
    {
      released := [];
      if |batch| == 0 {
        return;
      }
      var wasEmpty := length == 0;
      var room := items.Length - length;
      var accepted := if |batch| < room then |batch| else room;
      ghost var before := Contents();
      for n := 0 to accepted
        invariant Valid() && wake == old(wake) && Contents() == before + batch[..n]
      {
        Enqueue(batch[n]);
        assert batch[..n + 1] == batch[..n] + [batch[n]];
      }
      released := batch[accepted..];
      assert batch == batch[..accepted] + released;
      if wasEmpty && accepted > 0 {
        Signal();
      }
    }

    /** Takes items from the front, as many as go together. */
    method Pop(max: int, sameRun: (T, T) -> bool) returns (taken: seq<T>)
      requires Valid()
      modifies this, items
      ensures Valid() && taken + Contents() == old(Contents()) && |taken| == RunLength(old(Contents()), max, sameRun)
      ensures wake == (old(wake) || (|Contents()| > 0 && |taken| > 0))
    {
      var count := length;
      if max > 0 && max < count {
        count := max;
      }
      if count == 0 {
        return [];
      }
      count := Run(count, sameRun);
      taken := Take(count);
      if length > 0 {
        Signal();
      }
    }

    method Run(limit: nat, sameRun: (T, T) -> bool) returns (count: nat)
      requires Valid() && 1 <= limit <= length
      ensures count == RunFrom(Contents(), 1, limit, sameRun)
    {
      ghost var s := Contents();
      count := 1;
      while count < limit
        invariant 1 <= count <= limit && forall k :: 1 <= k < count ==> sameRun(s[0], s[k])
        invariant RunFrom(s, 1, limit, sameRun) == RunFrom(s, count, limit, sameRun)
      {
        Wraps(head, count, items.Length);
        var index := (head + count) % items.Length;
        if !sameRun(items[head], items[index]) {
          return;
        }
        count := count + 1;
      }
    }

    method Take(count: nat) returns (taken: seq<T>)
      requires Valid() && count <= length
      modifies this`head, this`length, items
      ensures Valid() && taken + Contents() == old(Contents()) && |taken| == count
    {
      ghost var s := Contents();
      taken := [];
      for i := 0 to count
        modifies items
        invariant |taken| == i && (forall k :: 0 <= k < i ==> taken[k] == s[k])
        invariant forall k :: i <= k < length ==> items[Slot(head, k, items.Length)] == s[k]
      {
        Wraps(head, i, items.Length);
        var index := (head + i) % items.Length;
        taken := taken + [items[index]];
        items[index] := zero;
      }
      Wraps(head, count, items.Length);
      head := (head + count) % items.Length;
      length := length - count;
    }
  }

  /** Where item `i` of a queue sits. */
  function Slot(head: nat, i: nat, capacity: nat): (k: nat)
    requires head < capacity && i <= capacity
    ensures k < capacity
  {
    if head + i < capacity then head + i else head + i - capacity
  }

  ghost function Ring<T>(slots: seq<T>, head: nat, length: nat): (s: seq<T>)
    requires head < |slots| && length <= |slots|
    ensures |s| == length && forall i :: 0 <= i < length ==> s[i] == slots[Slot(head, i, |slots|)]
  {
    seq(length, i requires 0 <= i < length => slots[Slot(head, i, |slots|)])
  }

  lemma Wraps(head: nat, i: nat, capacity: nat)
    requires head < capacity && i <= capacity
    ensures (head + i) % capacity == Slot(head, i, capacity)
  {
    var n := head + i;
    if n >= capacity {
      var q, r := n / capacity, n % capacity;
      assert n == q * capacity + r;
      assert (q - 1) * capacity == (n - capacity) - r;
      OnlyZero(q - 1, capacity);
    }
  }

  lemma Regroups<T>(a: seq<T>, b: seq<T>, c: seq<T>, d: seq<T>, e: seq<T>)
    ensures b + c == d + e ==> (a + b) + c == (a + d) + e
    ensures c == d + e ==> b + c == (b + d) + e
  {
    if b + c == d + e {
      assert (a + b) + c == a + (b + c);
      assert (a + d) + e == a + (d + e);
    }
    if c == d + e {
      assert b + (d + e) == (b + d) + e;
    }
  }
}
