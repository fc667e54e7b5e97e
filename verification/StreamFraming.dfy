/** Packets on a byte stream, each behind its length. */
module StreamFraming {
  import opened Bytes

  const LENGTH_SIZE := 2
  const MAX_PACKET := 65535

  ghost predicate Sendable(packets: seq<seq<Byte>>) {
    forall k :: 0 <= k < |packets| ==> |packets[k]| <= MAX_PACKET
  }

  ghost predicate NoneEmpty(packets: seq<seq<Byte>>) {
    forall k :: 0 <= k < |packets| ==> 0 < |packets[k]| <= MAX_PACKET
  }

  /** An empty packet takes no place on the wire. */
  function Frame(packet: seq<Byte>): (r: seq<Byte>)
    requires |packet| <= MAX_PACKET
    ensures |r| == if |packet| == 0 then 0 else LENGTH_SIZE + |packet|
  {
    if |packet| == 0 then [] else Uint16Bytes(|packet|) + packet
  }

  ghost function Framed(packets: seq<seq<Byte>>): seq<Byte>
    requires Sendable(packets)
  {
    if |packets| == 0 then [] else Framed(packets[..|packets| - 1]) + Frame(packets[|packets| - 1])
  }

  lemma FramedSnoc(packets: seq<seq<Byte>>, packet: seq<Byte>)
    requires Sendable(packets) && |packet| <= MAX_PACKET
    ensures Sendable(packets + [packet]) && Framed(packets + [packet]) == Framed(packets) + Frame(packet)
  {
    assert (packets + [packet])[..|packets|] == packets;
  }

  lemma {:induction false} FramedFront(packets: seq<seq<Byte>>)
    requires Sendable(packets) && |packets| > 0
    ensures Framed(packets) == Frame(packets[0]) + Framed(packets[1..])
    decreases |packets|
  {
    var n := |packets| - 1;
    var front, last := packets[..n], packets[n];
    if n > 0 {
      FramedFront(front);
      assert front[1..] == packets[1..][..n - 1];
      assert Framed(packets) == Frame(packets[0]) + Framed(front[1..]) + Frame(last);
    }
  }

  lemma Associates(a: seq<Byte>, b: seq<Byte>, c: seq<Byte>)
    ensures (a + b) + c == a + (b + c)
  {
  }

  lemma FramedCons(first: seq<Byte>, rest: seq<seq<Byte>>)
    requires |first| <= MAX_PACKET && Sendable(rest)
    ensures Sendable([first] + rest) && Framed([first] + rest) == Frame(first) + Framed(rest)
  {
    var all := [first] + rest;
    FramedFront(all);
    assert all[1..] == rest;
  }

  lemma SendableParts(left: seq<seq<Byte>>, right: seq<seq<Byte>>)
    requires Sendable(left) && Sendable(right)
    ensures Sendable(left + right) && (|left| > 0 ==> |left[0]| <= MAX_PACKET && Sendable(left[1..]))
    ensures |left| == 0 ==> Framed(left) == []
  {
  }

  lemma {:induction false} FramedAppend(left: seq<seq<Byte>>, right: seq<seq<Byte>>)
    requires Sendable(left) && Sendable(right)
    ensures Sendable(left + right) && Framed(left + right) == Framed(left) + Framed(right)
    decreases |left|
  {
    hide Framed, Frame, Sendable;
    SendableParts(left, right);
    if |left| == 0 {
      assert left + right == right;
    } else {
      var first, rest := left[0], left[1..];
      FramedAppend(rest, right);
      AppendStep(first, rest, right);
      assert left == [first] + rest && left + right == [first] + (rest + right);
    }
  }

  lemma AppendStep(first: seq<Byte>, rest: seq<seq<Byte>>, right: seq<seq<Byte>>)
    requires |first| <= MAX_PACKET && Sendable(rest) && Sendable(right) && Sendable(rest + right)
    requires Framed(rest + right) == Framed(rest) + Framed(right)
    ensures Sendable([first] + rest) && Sendable([first] + (rest + right))
    ensures Framed([first] + (rest + right)) == Framed([first] + rest) + Framed(right)
  {
    hide Framed, Frame, Sendable;
    FramedCons(first, rest);
    FramedCons(first, rest + right);
    Associates(Frame(first), Framed(rest), Framed(right));
  }

  lemma SameFirst(p: seq<Byte>, q: seq<Byte>, r: seq<Byte>, t: seq<Byte>)
    requires 0 < |p| <= MAX_PACKET && 0 < |q| <= MAX_PACKET && Frame(p) + r == Frame(q) + t
    ensures p == q && r == t
  {
    var s := Frame(p) + r;
    assert Uint16At(s, 0) == Uint16At(Uint16Bytes(|p|), 0) == |p|;
    assert Uint16At(Frame(q) + t, 0) == Uint16At(Uint16Bytes(|q|), 0) == |q|;
    assert s[2..2 + |p|] == p && (Frame(q) + t)[2..2 + |q|] == q;
    assert s[2 + |p|..] == r && (Frame(q) + t)[2 + |q|..] == t;
  }

  /** However a byte stream is cut into packets, it is the same packets. */
  lemma {:induction false} FramesAreUnique(ps: seq<seq<Byte>>, qs: seq<seq<Byte>>, r: seq<Byte>, t: seq<Byte>)
    requires NoneEmpty(ps) && NoneEmpty(qs) && |ps| <= |qs| && Framed(ps) + r == Framed(qs) + t
    ensures ps == qs[..|ps|]
    decreases |ps|
  {
    hide Framed, Frame;
    if |ps| > 0 {
      FramedFront(ps);
      FramedFront(qs);
      var more, rest := Framed(ps[1..]) + r, Framed(qs[1..]) + t;
      Associates(Frame(ps[0]), Framed(ps[1..]), r);
      Associates(Frame(qs[0]), Framed(qs[1..]), t);
      SameFirst(ps[0], qs[0], more, rest);
      FramesAreUnique(ps[1..], qs[1..], r, t);
      assert qs[..|ps|] == [qs[0]] + qs[1..][..|ps| - 1];
    }
  }

  function NonEmpty(packets: seq<seq<Byte>>): seq<seq<Byte>> {
    if |packets| == 0 then []
    else
      var front, last := NonEmpty(packets[..|packets| - 1]), packets[|packets| - 1];
      if |last| == 0 then front else front + [last]
  }

  lemma {:induction false} NonEmptyFrames(packets: seq<seq<Byte>>)
    requires Sendable(packets)
    ensures NoneEmpty(NonEmpty(packets)) && Framed(NonEmpty(packets)) == Framed(packets)
    decreases |packets|
  {
    if |packets| > 0 {
      var front, last := packets[..|packets| - 1], packets[|packets| - 1];
      NonEmptyFrames(front);
      if |last| > 0 { FramedSnoc(NonEmpty(front), last); }
    }
  }

  lemma {:induction false} FramedLength(packets: seq<seq<Byte>>)
    requires NoneEmpty(packets)
    ensures |Framed(packets)| >= 3 * |packets|
    decreases |packets|
  {
    if |packets| > 0 {
      FramedLength(packets[..|packets| - 1]);
    }
  }

  /**
   Whatever prefix of the sent bytes has been read, the packets taken out of it
   are a prefix of the non-empty packets sent.
   */
  lemma ReadsWhatWasWritten(sent: seq<seq<Byte>>, returned: seq<seq<Byte>>, pending: seq<Byte>, received: seq<Byte>)
    requires Sendable(sent) && NoneEmpty(returned) && Framed(returned) + pending == received && received <= Framed(sent)
    ensures returned <= NonEmpty(sent)
  {
    hide Framed, NonEmpty;
    NonEmptyFrames(sent);
    var all := NonEmpty(sent);
    var rest := Framed(sent)[|received|..];
    Associates(Framed(returned), pending, rest);
    assert Framed(all) + [] == Framed(all) == received + rest;
    NoMoreThanSent(all, returned, pending + rest);
    FramesAreUnique(returned, all, pending + rest, []);
  }

  lemma MoreIsLonger(some: seq<seq<Byte>>, more: seq<seq<Byte>>)
    requires NoneEmpty(more) && |some| < |more| && some == more[..|some|]
    ensures |Framed(more)| > |Framed(some)|
  {
    hide Framed;
    var tail := more[|some|..];
    assert more == some + tail;
    FramedAppend(some, tail);
    FramedLength(tail);
  }

  lemma NoMoreThanSent(all: seq<seq<Byte>>, returned: seq<seq<Byte>>, rest: seq<Byte>)
    requires NoneEmpty(all) && NoneEmpty(returned) && Framed(all) == Framed(returned) + rest
    ensures |returned| <= |all|
  {
    hide Framed;
    if |all| < |returned| {
      assert Framed(all) + [] == Framed(all);
      FramesAreUnique(all, returned, [], rest);
      MoreIsLonger(all, returned);
    }
  }
}
