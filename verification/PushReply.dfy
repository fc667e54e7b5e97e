/** Splitting the pushed options over several payloads, and gathering them again. */
module PushReply {
  import opened Bytes
  import opened Collections
  import opened OptionLine

  const PREFIX := "PUSH_REPLY"
  const UPDATE := "PUSH_UPDATE"
  const CAPACITY := 940
  const CONTINUES := "push-continuation 2"
  const ENDS := "push-continuation 1"

  // ---- Text --------------------------------------------------------------

  predicate NoComma(s: string) {
    forall i :: 0 <= i < |s| ==> s[i] != ','
  }

  /** The first line and the others behind it, with commas between. */
  function Text(first: string, lines: seq<string>): string {
    if |lines| == 0 then first else Text(first, lines[..|lines| - 1]) + "," + lines[|lines| - 1]
  }

  /** Cutting at every comma. */
  function Split(s: string): (r: seq<string>)
    ensures |r| > 0
  {
    if |s| == 0 then [""]
    else
      var front, c := Split(s[..|s| - 1]), s[|s| - 1];
      if c == ',' then front + [""] else front[..|front| - 1] + [front[|front| - 1] + [c]]
  }

  lemma {:induction false} SplitExtends(s: string, t: string)
    requires NoComma(t)
    ensures Split(s + t) == Split(s)[..|Split(s)| - 1] + [Split(s)[|Split(s)| - 1] + t]
    decreases |t|
  {
    hide Split;
    if |t| == 0 {
      assert s + t == s;
      assert Split(s)[|Split(s)| - 1] + t == Split(s)[|Split(s)| - 1];
    } else {
      var u, c := t[..|t| - 1], t[|t| - 1];
      SplitExtends(s, u);
      assert s + t == (s + u) + [c];
      SplitOne(s + u, c);
      Lengthened(Split(s), u, c);
      assert u + [c] == t;
    }
  }

  /** One more character that is no comma goes to the last part. */
  lemma SplitOne(s: string, c: char)
    requires c != ','
    ensures Split(s + [c]) == Split(s)[..|Split(s)| - 1] + [Split(s)[|Split(s)| - 1] + [c]]
  {
    assert (s + [c])[..|s|] == s;
  }

  lemma Lengthened(parts: seq<string>, u: string, c: char)
    requires |parts| > 0
    ensures var n := |parts| - 1;
            var more := parts[..n] + [parts[n] + u];
            more[..n] + [more[n] + [c]] == parts[..n] + [parts[n] + (u + [c])]
  {
    assert (parts[|parts| - 1] + u) + [c] == parts[|parts| - 1] + (u + [c]);
  }

  lemma {:induction false} SplitText(first: string, lines: seq<string>)
    requires NoComma(first) && forall i :: 0 <= i < |lines| ==> NoComma(lines[i])
    ensures Split(Text(first, lines)) == [first] + lines
    decreases |lines|
  {
    if |lines| == 0 {
      SplitExtends("", first);
      assert "" + first == first;
    } else {
      var front, last := lines[..|lines| - 1], lines[|lines| - 1];
      SplitText(first, front);
      var text := Text(first, front) + ",";
      assert text[..|text| - 1] == Text(first, front);
      SplitExtends(text, last);
      assert "" + last == last;
      assert [first] + lines == [first] + front + [last];
    }
  }

  function TrimLeft(s: string, drop: char -> bool): string {
    if |s| > 0 && drop(s[0]) then TrimLeft(s[1..], drop) else s
  }

  function TrimRight(s: string, drop: char -> bool): string {
    if |s| > 0 && drop(s[|s| - 1]) then TrimRight(s[..|s| - 1], drop) else s
  }

  function Trim(s: string, drop: char -> bool): string {
    TrimRight(TrimLeft(s, drop), drop)
  }

  predicate IsNul(c: char) { c == NUL }

  predicate IsBlank(c: char) { c != NUL && IsSpace(c) }

  function Normalized(s: string): string {
    Trim(Trim(s, IsNul), IsBlank)
  }

  predicate SharpEdges(s: string) {
    |s| > 0 ==> !IsSpace(s[0]) && !IsSpace(s[|s| - 1])
  }

  lemma NothingToTrim(s: string)
    requires SharpEdges(s)
    ensures Normalized(s) == s && Trim(s, IsBlank) == s
  {
  }

  function Lower(c: char): char {
    if 'A' <= c <= 'Z' then (c as int + 32) as char else c
  }

  predicate EqualFold(a: string, b: string) {
    |a| == |b| && forall i :: 0 <= i < |a| ==> Lower(a[i]) == Lower(b[i])
  }

  // ---- The server --------------------------------------------------------

  /** The payloads that are full, and the fields of the one being filled. */
  datatype Filling = Filling(full: seq<seq<string>>, current: seq<string>)

  function Place(f: Filling, field: string): Option<Filling> {
    if |Text(PREFIX, f.current)| + 1 + |field| < CAPACITY then Some(f.(current := f.current + [field]))
    else if Text(PREFIX, f.current) == PREFIX || |PREFIX| + 1 + |field| >= CAPACITY then None
    else Some(Filling(f.full + [f.current], [field]))
  }

  function PlaceAll(fields: seq<string>): Option<Filling> {
    if |fields| == 0 then Some(Filling([], []))
    else
      var f := PlaceAll(fields[..|fields| - 1]);
      if f.None? then None else Place(f.value, fields[|fields| - 1])
  }

  function Fulls(groups: seq<seq<string>>): seq<string> {
    if |groups| == 0 then [] else Fulls(groups[..|groups| - 1]) + [Text(PREFIX, groups[|groups| - 1]) + "," + CONTINUES]
  }

  function Payloads(f: Filling): seq<string> {
    Fulls(f.full) + [Text(PREFIX, f.current) + if |f.full| > 0 then "," + ENDS else ""]
  }

  lemma TextGrows(lines: seq<string>, line: string)
    ensures Text(PREFIX, []) == PREFIX
    ensures Text(PREFIX, lines + [line]) == Text(PREFIX, lines) + "," + line
    ensures |Text(PREFIX, lines + [line])| == |Text(PREFIX, lines)| + 1 + |line|
  {
    assert (lines + [line])[..|lines|] == lines;
  }

  lemma FullsGrow(groups: seq<seq<string>>, group: seq<string>)
    ensures Fulls(groups + [group]) == Fulls(groups) + [Text(PREFIX, group) + "," + CONTINUES]
  {
    assert (groups + [group])[..|groups|] == groups;
  }

  lemma PlacesNext(fields: seq<string>, n: nat)
    requires n < |fields| && PlaceAll(fields[..n]).Some?
    ensures PlaceAll(fields[..n + 1]) == Place(PlaceAll(fields[..n]).value, fields[n])
  {
    assert fields[..n + 1][..n] == fields[..n];
  }

  lemma {:induction false} RefusalStays(fields: seq<string>, n: nat)
    requires n <= |fields| && PlaceAll(fields[..n]).None?
    ensures PlaceAll(fields).None?
    decreases |fields|
  {
    hide Place;
    if n == |fields| {
      assert fields[..n] == fields;
    } else {
      assert fields[..|fields| - 1][..n] == fields[..n];
      RefusalStays(fields[..|fields| - 1], n);
    }
  }

  /** One turn of the loop: `full` is what the payload so far is sent as, if it has no room for the field. */
  method Add(ghost f: Filling, current: string, field: string) returns (r: Option<string>, full: Option<string>)
    requires current == Text(PREFIX, f.current)
    ensures r.Some? <==> Place(f, field).Some?
    ensures r.Some? ==>
              var next := Place(f, field).value;
              && r.value == Text(PREFIX, next.current)
              && next.full == (if full.Some? then f.full + [f.current] else f.full)
              && (full.Some? ==> full.value == current + "," + CONTINUES)
  {
    hide Text;
    TextGrows(f.current, field);
    TextGrows([], field);
    assert [] + [field] == [field];
    full := None;
    var addition, text := "," + field, current;
    if |text| + |addition| >= CAPACITY {
      if text == PREFIX {
        return None, None;
      }
      full := Some(text + "," + CONTINUES);
      text := PREFIX;
    }
    if |text| + |addition| >= CAPACITY {
      return None, full;
    }
    assert text + addition == text + "," + field;
    r := Some(text + addition);
  }

  method SplitFields(fields: seq<string>) returns (payloads: Option<seq<string>>)
    ensures payloads.Some? <==> |fields| > 0 && fields[0] == PREFIX && PlaceAll(fields[1..]).Some?
    ensures payloads.Some? ==> payloads.value == Payloads(PlaceAll(fields[1..]).value)
  {
    hide Text, Place;
    if |fields| == 0 || fields[0] != PREFIX {
      return None;
    }
    ghost var rest, f := fields[1..], Filling([], []);
    TextGrows([], "");
    var current, done := PREFIX, [];
    for n := 0 to |fields| - 1
      invariant PlaceAll(rest[..n]) == Some(f) && current == Text(PREFIX, f.current) && done == Fulls(f.full)
      invariant |done| == |f.full|
    {
      var field := fields[n + 1];
      assert field == rest[n];
      PlacesNext(rest, n);
      var next, full := Add(f, current, field);
      if next.None? {
        RefusalStays(rest, n + 1);
        return None;
      }
      if full.Some? {
        FullsGrow(f.full, f.current);
        done := done + [full.value];
      }
      current := next.value;
      f := Place(f, field).value;
    }
    assert rest[..|rest|] == rest;
    if |done| > 0 {
      assert current + ("," + ENDS) == current + "," + ENDS;
      current := current + "," + ENDS;
    } else {
      assert current + "" == current;
    }
    payloads := Some(done + [current]);
  }

  // ---- What splitting keeps ----------------------------------------------

  /** Every payload has its fields within the capacity, and all but perhaps the last have some. */
  ghost predicate Fits(f: Filling) {
    && |Text(PREFIX, f.current)| < CAPACITY
    && forall k :: 0 <= k < |f.full| ==> |f.full[k]| > 0 && |Text(PREFIX, f.full[k])| < CAPACITY
  }

  lemma {:induction false} TextIsLonger(lines: seq<string>)
    ensures |Text(PREFIX, lines)| >= |PREFIX| + |lines|
    decreases |lines|
  {
    if |lines| > 0 {
      TextIsLonger(lines[..|lines| - 1]);
    }
  }

  /** Splitting succeeds exactly when no field is longer than 928 bytes, and keeps every field in order. */
  lemma {:induction false} SplitsExactly(fields: seq<string>)
    ensures PlaceAll(fields).Some? <==> forall k :: 0 <= k < |fields| ==> |fields[k]| <= 928
    ensures PlaceAll(fields).Some? ==>
          Fits(PlaceAll(fields).value) && Flat(PlaceAll(fields).value.full) + PlaceAll(fields).value.current == fields
    decreases |fields|
  {
    hide Text;
    TextGrows([], "");
    if |fields| > 0 {
      var front, last := fields[..|fields| - 1], fields[|fields| - 1];
      SplitsExactly(front);
      assert fields == front + [last];
      if PlaceAll(front).Some? {
        PlaceKeeps(PlaceAll(front).value, front, last);
      }
    }
  }

  lemma PlaceKeeps(f: Filling, front: seq<string>, last: string)
    requires Fits(f) && Flat(f.full) + f.current == front
    ensures Place(f, last).Some? <==> |last| <= 928
    ensures Place(f, last).Some? ==>
          Fits(Place(f, last).value) && Flat(Place(f, last).value.full) + Place(f, last).value.current == front + [last]
  {
    hide Text, Flat;
    TextGrows(f.current, last);
    TextGrows([], last);
    assert [] + [last] == [last];
    TextIsLonger(f.current);
    FlatGrows(f.full, f.current);
    assert Text(PREFIX, f.current) == PREFIX ==> f.current == [];
    assert Flat(f.full) + (f.current + [last]) == front + [last];
  }

  // ---- The client --------------------------------------------------------

  predicate Digits(s: string) {
    |s| > 0 && forall i :: 0 <= i < |s| ==> '0' <= s[i] <= '9'
  }

  function Decimal(s: string): nat
    requires |s| > 0 ==> Digits(s)
  {
    if |s| == 0 then 0 else Decimal(s[..|s| - 1]) * 10 + (s[|s| - 1] as int - '0' as int)
  }

  /** A number with an optional sign. */
  function Number(s: string): Option<int> {
    if Digits(s) then Some(Decimal(s))
    else if |s| > 1 && s[0] == '+' && Digits(s[1..]) then Some(Decimal(s[1..]))
    else if |s| > 1 && s[0] == '-' && Digits(s[1..]) then Some(0 - (Decimal(s[1..]) as int))
    else None
  }

  const MARKER := "push-continuation"

  predicate IsContinuation(line: string) {
    var p := Parse(line);
    p.Some? && |p.value| >= 2 && EqualFold(p.value[0], MARKER)
  }

  /** What the last valid continuation line says, 0 without one. */
  function Continuation(lines: seq<string>): nat {
    if |lines| == 0 then 0
    else
      Continued(Continuation(lines[..|lines| - 1]), lines[|lines| - 1])
  }

  datatype Segment = NotDecoded | Segment(lines: seq<string>, continuation: nat)

  function Gather(lines: seq<string>, payload: string): Segment {
    var text := Normalized(payload);
    if text == "" then NotDecoded
    else
      var parts := Split(text);
      var command := Trim(parts[0], IsBlank);
      if !EqualFold(command, PREFIX) && !EqualFold(command, UPDATE) then NotDecoded
      else Segment((if |lines| == 0 then [command] else lines) + parts[1..], Continuation(parts[1..]))
  }

  method AppendSegment(accumulated: seq<string>, payload: string) returns (r: Segment)
    ensures r == Gather(accumulated, payload)
  {
    hide Normalized, Trim, EqualFold, Parse, Split, Continuation, Number;
    assert Continuation([]) == 0 by { NoContinuation(); }
    var text := Normalized(payload);
    if text == "" {
      return NotDecoded;
    }
    var parts := Split(text);
    var command := Trim(parts[0], IsBlank);
    if !EqualFold(command, PREFIX) && !EqualFold(command, UPDATE) {
      return NotDecoded;
    }
    var lines := if |accumulated| == 0 then [command] else accumulated;
    ghost var start, rest := lines, parts[1..];
    var continuation := 0;
    for n := 1 to |parts|
      invariant lines == start + rest[..n - 1] && continuation == Continuation(rest[..n - 1])
    {
      var line := parts[n];
      assert line == rest[n - 1] && rest[..n] == rest[..n - 1] + [line];
      ContinuationNext(rest[..n - 1], line);
      var parameters := ParseLine(line);
      if parameters.Some? && |parameters.value| >= 2 && EqualFold(parameters.value[0], MARKER) {
        var value := Number(parameters.value[1]);
        if value.Some? && 0 <= value.value <= 2 {
          continuation := value.value;
        }
      }
      lines := lines + [line];
      assert start + rest[..n - 1] + [line] == start + rest[..n];
    }
    assert rest[..|rest|] == rest;
    r := Segment(lines, continuation);
  }

  function Continued(before: nat, line: string): nat {
    if !IsContinuation(line) then before
    else
      var n := Number(Parse(line).value[1]);
      if n.Some? && 0 <= n.value <= 2 then n.value else before
  }

  lemma NoContinuation()
    ensures Continuation([]) == 0
  {
  }

  lemma ContinuationNext(lines: seq<string>, line: string)
    ensures Continuation(lines + [line]) == Continued(Continuation(lines), line)
  {
    assert (lines + [line])[..|lines|] == lines;
  }

  // ---- There and back ----------------------------------------------------

  /** A field that survives the trip: no comma, no NUL or space at its ends, and no continuation line itself. */
  predicate Clean(field: string) {
    NoComma(field) && SharpEdges(field) && !IsContinuation(field)
  }

  lemma MarkersContinue()
    ensures IsContinuation(CONTINUES) && Number(Parse(CONTINUES).value[1]) == Some(2)
    ensures IsContinuation(ENDS) && Number(Parse(ENDS).value[1]) == Some(1)
  {
    hide Parse;
    assert PlainWord(MARKER) && PlainWord("2") && PlainWord("1");
    PlainWords([MARKER, "2"]);
    PlainWords([MARKER, "1"]);
    assert [MARKER, "2"][1..] == ["2"] && [MARKER, "1"][1..] == ["1"];
    assert Spaced([MARKER, "2"]) == CONTINUES && Spaced([MARKER, "1"]) == ENDS;
    assert Decimal("2") == 2 && Decimal("1") == 1 by { assert "2"[..0] == "" == "1"[..0]; }
  }

  lemma {:induction false} TextEdges(lines: seq<string>)
    requires forall k :: 0 <= k < |lines| ==> SharpEdges(lines[k])
    ensures SharpEdges(Text(PREFIX, lines))
    decreases |lines|
  {
    TextIsLonger(lines);
    if |lines| > 0 {
      var front, last := lines[..|lines| - 1], lines[|lines| - 1];
      TextEdges(front);
      TextIsLonger(front);
      assert SharpEdges(last);
      assert !IsSpace(',');
    }
  }

  lemma GatherText(accumulated: seq<string>, lines: seq<string>)
    requires forall k :: 0 <= k < |lines| ==> NoComma(lines[k]) && SharpEdges(lines[k])
    ensures Gather(accumulated, Text(PREFIX, lines)) ==
          Segment((if |accumulated| == 0 then [PREFIX] else accumulated) + lines, Continuation(lines))
  {
    hide Text, Split, Continuation, Normalized, Trim, EqualFold, NoComma, SharpEdges;
    var text := Text(PREFIX, lines);
    TextEdges(lines);
    TextIsLonger(lines);
    PrefixIsClean();
    NothingToTrim(text);
    NothingToTrim(PREFIX);
    SplitText(PREFIX, lines);
    GatherParts(accumulated, text, lines);
  }

  lemma GatherParts(accumulated: seq<string>, text: string, lines: seq<string>)
    requires Normalized(text) == text && |text| > 0 && Trim(PREFIX, IsBlank) == PREFIX && EqualFold(PREFIX, PREFIX)
    requires Split(text) == [PREFIX] + lines
    ensures Gather(accumulated, text) ==
          Segment((if |accumulated| == 0 then [PREFIX] else accumulated) + lines, Continuation(lines))
  {
    hide Split, Continuation, Normalized, Trim, EqualFold;
    assert ([PREFIX] + lines)[1..] == lines;
  }

  lemma PrefixIsClean()
    ensures NoComma(PREFIX) && SharpEdges(PREFIX) && EqualFold(PREFIX, PREFIX) && |PREFIX| > 0
  {
  }

  ghost predicate AllClean(lines: seq<string>) {
    forall k :: 0 <= k < |lines| ==> Clean(lines[k])
  }

  /** The option lines of payload `k`. */
  function Items(f: Filling, k: nat): seq<string>
    requires k <= |f.full|
  {
    if k < |f.full| then f.full[k] + [CONTINUES] else if k > 0 then f.current + [ENDS] else f.current
  }

  function ItemsBefore(f: Filling, n: nat): seq<string>
    requires n <= |f.full| + 1
  {
    if n == 0 then [] else ItemsBefore(f, n - 1) + Items(f, n - 1)
  }

  lemma {:induction false} FullsAre(groups: seq<seq<string>>, k: nat)
    requires k < |groups|
    ensures |Fulls(groups)| == |groups| && Fulls(groups)[k] == Text(PREFIX, groups[k] + [CONTINUES])
    decreases |groups|
  {
    hide Text;
    var n := |groups| - 1;
    TextGrows(groups[n], CONTINUES);
    if n > 0 {
      FullsAre(groups[..n], if k < n then k else 0);
    }
  }

  lemma PayloadsAre(f: Filling, k: nat)
    requires k <= |f.full|
    ensures |Payloads(f)| == |f.full| + 1 && Payloads(f)[k] == Text(PREFIX, Items(f, k))
  {
    hide Text, Fulls;
    if |f.full| > 0 {
      FullsAre(f.full, if k < |f.full| then k else 0);
      TextGrows(f.current, ENDS);
      assert Text(PREFIX, f.current) + ("," + ENDS) == Text(PREFIX, f.current) + "," + ENDS;
    } else {
      assert Fulls(f.full) == [] by { NoFulls(); }
      assert Text(PREFIX, f.current) + "" == Text(PREFIX, f.current);
    }
  }

  lemma NoFulls()
    ensures Fulls([]) == []
  {
  }

  /** No payload is longer than 959 bytes. */
  lemma PayloadsFit(f: Filling, k: nat)
    requires Fits(f) && k <= |f.full|
    ensures |Payloads(f)| == |f.full| + 1 && |Payloads(f)[k]| <= 959
  {
    hide Text;
    PayloadsAre(f, k);
    if k < |f.full| { TextGrows(f.full[k], CONTINUES); } else { TextGrows(f.current, ENDS); }
  }

  function WithoutMarkers(lines: seq<string>): seq<string> {
    if |lines| == 0 then []
    else
      var front, last := WithoutMarkers(lines[..|lines| - 1]), lines[|lines| - 1];
      if IsContinuation(last) then front else front + [last]
  }

  lemma {:induction false} WithoutAppend(left: seq<string>, right: seq<string>)
    ensures WithoutMarkers(left + right) == WithoutMarkers(left) + WithoutMarkers(right)
    decreases |right|
  {
    hide IsContinuation;
    if |right| == 0 {
      assert left + right == left;
    } else {
      var front, last := right[..|right| - 1], right[|right| - 1];
      assert (left + right)[..|left + right| - 1] == left + front;
      WithoutAppend(left, front);
    }
  }

  lemma {:induction false} CleanHasNoMarkers(lines: seq<string>)
    requires AllClean(lines)
    ensures WithoutMarkers(lines) == lines && Continuation(lines) == 0
    decreases |lines|
  {
    hide IsContinuation, NoComma, SharpEdges;
    if |lines| > 0 {
      var front := lines[..|lines| - 1];
      CleanHasNoMarkers(front);
      assert Clean(lines[|lines| - 1]);
      assert lines == front + [lines[|lines| - 1]];
    }
  }

  lemma MarkedLines(lines: seq<string>, marker: string, n: nat)
    requires AllClean(lines) && IsContinuation(marker) && Number(Parse(marker).value[1]) == Some(n) && n <= 2
    ensures WithoutMarkers(lines + [marker]) == lines && Continuation(lines + [marker]) == n
  {
    hide Parse, Number, Continuation;
    CleanHasNoMarkers(lines);
    ContinuationNext(lines, marker);
    assert (lines + [marker])[..|lines|] == lines;
  }

  /** The fields of every payload, all of them clean. */
  ghost predicate CleanFilling(f: Filling) {
    AllClean(f.current) && forall k :: 0 <= k < |f.full| ==> AllClean(f.full[k])
  }

  function Fields(f: Filling, k: nat): seq<string>
    requires k <= |f.full|
  {
    if k < |f.full| then f.full[k] else f.current
  }

  lemma ItemsAre(f: Filling, k: nat)
    requires CleanFilling(f) && k <= |f.full|
    ensures WithoutMarkers(Items(f, k)) == Fields(f, k)
    ensures Continuation(Items(f, k)) == if k < |f.full| then 2 else if k > 0 then 1 else 0
    ensures forall j :: 0 <= j < |Items(f, k)| ==> NoComma(Items(f, k)[j]) && SharpEdges(Items(f, k)[j])
  {
    hide IsContinuation, Continuation, WithoutMarkers, Parse, Number;
    MarkersContinue();
    assert AllClean(Fields(f, k));
    if k < |f.full| {
      MarkedLines(f.full[k], CONTINUES, 2);
    } else if k > 0 {
      MarkedLines(f.current, ENDS, 1);
    } else {
      CleanHasNoMarkers(f.current);
    }
    MarkersAreClean();
  }

  lemma MarkersAreClean()
    ensures NoComma(CONTINUES) && SharpEdges(CONTINUES) && NoComma(ENDS) && SharpEdges(ENDS)
  {
  }

  function GatherAll(payloads: seq<string>): Segment {
    if |payloads| == 0 then Segment([], 0)
    else
      var before := GatherAll(payloads[..|payloads| - 1]);
      if before.NotDecoded? then before else Gather(before.lines, payloads[|payloads| - 1])
  }

  lemma GatherNothing()
    ensures GatherAll([]) == Segment([], 0)
  {
  }

  lemma GatherNext(payloads: seq<string>, n: nat)
    requires n < |payloads| && GatherAll(payloads[..n]).Segment?
    ensures GatherAll(payloads[..n + 1]) == Gather(GatherAll(payloads[..n]).lines, payloads[n])
  {
    hide Gather;
    assert payloads[..n + 1][..n] == payloads[..n];
  }

  lemma OneMorePayload(payloads: seq<string>, n: nat, lines: seq<string>, items: seq<string>)
    requires n < |payloads| && payloads[n] == Text(PREFIX, items)
    requires GatherAll(payloads[..n]).Segment? && GatherAll(payloads[..n]).lines == lines
    requires forall k :: 0 <= k < |items| ==> NoComma(items[k]) && SharpEdges(items[k])
    ensures GatherAll(payloads[..n + 1]) ==
            Segment((if |lines| == 0 then [PREFIX] else lines) + items, Continuation(items))
  {
    hide Gather, Continuation, NoComma, SharpEdges, Text, GatherAll;
    GatherNext(payloads, n);
    GatherText(lines, items);
  }

  /** The first `n` payloads give their items in order, and the last of them says whether more will come. */
  ghost predicate Gathered(f: Filling, n: nat)
    requires n <= |f.full| + 1
  {
    && |Payloads(f)| == |f.full| + 1
    && GatherAll(Payloads(f)[..n]) ==
         if n == 0 then Segment([], 0) else Segment([PREFIX] + ItemsBefore(f, n), Continuation(Items(f, n - 1)))
  }

  lemma GatheredNothing(f: Filling)
    ensures Gathered(f, 0)
  {
    hide Payloads, GatherAll;
    PayloadsAre(f, 0);
    assert Payloads(f)[..0] == [];
    GatherNothing();
  }

  lemma GatheredNext(f: Filling, n: nat)
    requires CleanFilling(f) && 0 < n <= |f.full| + 1 && Gathered(f, n - 1)
    ensures Gathered(f, n)
  {
    hide Gather, Continuation, Payloads, Items, ItemsBefore, CleanFilling, NoComma, SharpEdges, Text,
        WithoutMarkers, GatherAll;
    var before, items := ItemsBefore(f, n - 1), Items(f, n - 1);
    PayloadsAre(f, n - 1);
    ItemsAre(f, n - 1);
    ItemsNext(f, n);
    Associated(PREFIX, before, items);
    OneMorePayload(Payloads(f), n - 1, if n == 1 then [] else [PREFIX] + before, items);
  }

  lemma {:induction false} GathersInOrder(f: Filling, n: nat)
    requires CleanFilling(f) && n <= |f.full| + 1
    ensures Gathered(f, n)
    decreases n
  {
    hide Gathered, CleanFilling;
    if n == 0 {
      GatheredNothing(f);
    } else {
      GathersInOrder(f, n - 1);
      GatheredNext(f, n);
    }
  }

  lemma ItemsNext(f: Filling, n: nat)
    requires 0 < n <= |f.full| + 1
    ensures ItemsBefore(f, n) == ItemsBefore(f, n - 1) + Items(f, n - 1) && (n == 1 ==> ItemsBefore(f, n - 1) == [])
  {
    hide Items;
  }

  lemma Associated(first: string, a: seq<string>, b: seq<string>)
    ensures ([first] + a) + b == [first] + (a + b) && [] + b == b
  {
  }

  lemma TakesOneMore(groups: seq<seq<string>>, n: nat)
    requires 0 < n <= |groups|
    ensures groups[..n] == groups[..n - 1] + [groups[n - 1]]
  {
  }

  lemma OneMoreGroup(before: seq<string>, items: seq<string>, groups: seq<seq<string>>, n: nat)
    requires 0 < n <= |groups| && WithoutMarkers(before) == Flat(groups[..n - 1])
    requires WithoutMarkers(items) == groups[n - 1]
    ensures WithoutMarkers(before + items) == Flat(groups[..n])
  {
    hide WithoutMarkers, Flat;
    WithoutAppend(before, items);
    TakesOneMore(groups, n);
    FlatGrows(groups[..n - 1], groups[n - 1]);
  }

  lemma FullItems(f: Filling, k: nat)
    requires CleanFilling(f) && k < |f.full|
    ensures WithoutMarkers(Items(f, k)) == f.full[k]
  {
    hide Items, CleanFilling, Continuation, NoComma, SharpEdges, WithoutMarkers;
    ItemsAre(f, k);
  }

  ghost predicate ItemsMatch(f: Filling, n: nat)
    requires n <= |f.full|
  {
    WithoutMarkers(ItemsBefore(f, n)) == Flat(f.full[..n])
  }

  lemma ItemsMatchNext(f: Filling, n: nat)
    requires CleanFilling(f) && 0 < n <= |f.full| && ItemsMatch(f, n - 1)
    ensures ItemsMatch(f, n)
  {
    hide Items, ItemsBefore, CleanFilling, WithoutMarkers, Flat;
    FullItems(f, n - 1);
    ItemsNext(f, n);
    OneMoreGroup(ItemsBefore(f, n - 1), Items(f, n - 1), f.full, n);
  }

  lemma {:induction false} ItemsFlat(f: Filling, n: nat)
    requires CleanFilling(f) && n <= |f.full|
    ensures ItemsMatch(f, n)
    decreases n
  {
    if n == 0 {
      FlatNothing(f.full[..0]);
    } else {
      hide ItemsMatch, CleanFilling;
      ItemsFlat(f, n - 1);
      ItemsMatchNext(f, n);
    }
  }

  lemma GathersFields(f: Filling)
    requires CleanFilling(f)
    ensures WithoutMarkers(ItemsBefore(f, |f.full| + 1)) == Flat(f.full) + f.current
  {
    hide Items;
    var n := |f.full|;
    ItemsFlat(f, n);
    ItemsAre(f, n);
    WithoutAppend(ItemsBefore(f, n), Items(f, n));
    assert f.full[..n] == f.full;
  }

  /**
   What the server splits, the client gathers: every payload within 959 bytes
   and marked as continued except the last, and together the original fields.
   */
  lemma PushRoundTrip(fields: seq<string>)
    requires AllClean(fields) && forall k :: 0 <= k < |fields| ==> |fields[k]| <= 928
    ensures PlaceAll(fields).Some?
    ensures var payloads := Payloads(PlaceAll(fields).value);
            && (forall k :: 0 <= k < |payloads| ==> |payloads[k]| <= 959)
            && (forall n :: 0 < n < |payloads| ==>
                  GatherAll(payloads[..n]).Segment? && GatherAll(payloads[..n]).continuation == 2)
            && GatherAll(payloads).Segment? && GatherAll(payloads).continuation == (if |payloads| > 1 then 1 else 0)
            && |GatherAll(payloads).lines| > 0 && GatherAll(payloads).lines[0] == PREFIX &&
                  WithoutMarkers(GatherAll(payloads).lines[1..]) == fields
  {
    hide Items, GatherAll, PlaceAll, Payloads, CleanFilling, WithoutMarkers, Continuation, NoComma, SharpEdges,
        Clean, Fits;
    SplitsExactly(fields);
    var f := PlaceAll(fields).value;
    CleanParts(f, fields);
    var payloads, n := Payloads(f), |f.full| + 1;
    forall k | 0 <= k < |payloads| ensures |payloads[k]| <= 959 {
      PayloadsAre(f, 0);
      PayloadsFit(f, k);
    }
    GathersInOrder(f, n);
    forall m | 0 < m < |payloads| ensures GatherAll(payloads[..m]).Segment? &&
        GatherAll(payloads[..m]).continuation == 2 {
      GathersInOrder(f, m);
      ItemsAre(f, m - 1);
    }
    ItemsAre(f, n - 1);
    GathersFields(f);
    assert payloads[..n] == payloads;
    assert ([PREFIX] + ItemsBefore(f, n))[1..] == ItemsBefore(f, n);
  }

  lemma {:induction false} FlatMembers(groups: seq<seq<string>>, k: nat)
    requires k < |groups| && AllClean(Flat(groups))
    ensures AllClean(groups[k])
    decreases |groups|
  {
    hide Clean;
    var n := |groups| - 1;
    var front, last := Flat(groups[..n]), groups[n];
    assert AllClean(front) by { assert forall i :: 0 <= i < |front| ==> Flat(groups)[i] == front[i]; }
    if k < n {
      FlatMembers(groups[..n], k);
    } else {
      assert forall i :: 0 <= i < |last| ==> Flat(groups)[|front| + i] == last[i];
    }
  }

  lemma CleanParts(f: Filling, fields: seq<string>)
    requires AllClean(fields) && Flat(f.full) + f.current == fields
    ensures CleanFilling(f)
  {
    hide Clean, Flat;
    var flat := Flat(f.full);
    assert forall i :: 0 <= i < |flat| ==> fields[i] == flat[i];
    assert forall i :: 0 <= i < |f.current| ==> fields[|flat| + i] == f.current[i];
    forall k | 0 <= k < |f.full| ensures AllClean(f.full[k]) { FlatMembers(f.full, k); }
  }
}
