/** The tokenizer for one pushed option line: quotes, backslashes and comments. Text is ASCII. */
module OptionLine {
  import opened Bytes

  const MAX_PARAMETERS := 16

  const NUL := 0 as char

  predicate IsSpace(c: char) {
    c == NUL || c == ' ' || 9 <= c as int <= 13
  }

  datatype Mode = Initial | Quoted | Unquoted | SingleQuoted

  /** The parameters finished so far, the one being read, and whether a backslash came just before. */
  datatype Scan = Scan(parameters: seq<string>, word: string, mode: Mode, backslash: bool)

  datatype Fed = More(scan: Scan) | Halt(scan: Scan) | Bad

  const START := Scan([], "", Initial, false)

  function Finished(s: Scan): Fed {
    var next := Scan(s.parameters + [s.word], "", Initial, false);
    if |next.parameters| >= MAX_PARAMETERS then Halt(next) else More(next)
  }

  function Stored(s: Scan, c: char, mode: Mode): Fed {
    More(Scan(s.parameters, if c == NUL then s.word else s.word + [c], mode, false))
  }

  /** One character; the end of the line counts as a NUL. */
  function Feed(s: Scan, c: char): Fed {
    if !s.backslash && c == '\\' && s.mode != SingleQuoted then More(s.(backslash := true))
    else if s.backslash && c != '\\' && c != '"' && !IsSpace(c) then Bad
    else
      match s.mode
      case Initial =>
        if IsSpace(c) then More(s.(backslash := false))
        else if c == ';' || c == '#' then Halt(s)
        else if !s.backslash && c == '"' then More(s.(mode := Quoted))
        else if !s.backslash && c == '\'' then More(s.(mode := SingleQuoted))
        else Stored(s, c, Unquoted)
      case Unquoted => if !s.backslash && IsSpace(c) then Finished(s) else Stored(s, c, Unquoted)
      case Quoted => if !s.backslash && c == '"' then Finished(s) else Stored(s, c, Quoted)
      case SingleQuoted => if c == '\'' then Finished(s) else Stored(s, c, SingleQuoted)
  }

  function FeedAll(f: Fed, text: string): Fed
    decreases |text|
  {
    if |text| == 0 || !f.More? then f else FeedAll(Feed(f.scan, text[0]), text[1..])
  }

  function Result(f: Fed): Option<seq<string>> {
    if f.Bad? || f.scan.mode != Initial || |f.scan.parameters| == 0 then None else Some(f.scan.parameters)
  }

  function Parse(line: string): Option<seq<string>> {
    Result(FeedAll(More(START), line + [NUL]))
  }

  method ParseLine(line: string) returns (r: Option<seq<string>>)
    ensures r == Parse(line)
  {
    hide Feed;
    var fed := More(START);
    ghost var all := line + [NUL];
    var index := 0;
    while index <= |line|
      invariant 0 <= index <= |line| + 1 && fed.More?
      invariant FeedAll(fed, all[index..]) == FeedAll(More(START), all)
    {
      var c := if index < |line| then line[index] else NUL;
      assert all[index..][0] == c && all[index..][1..] == all[index + 1..];
      fed := Feed(fed.scan, c);
      index := index + 1;
      if !fed.More? {
        break;
      }
    }
    r := Result(fed);
  }

  // ---- Plain words -------------------------------------------------------

  predicate PlainChar(c: char) {
    !IsSpace(c) && c != '\\' && c != '"' && c != '\'' && c != ';' && c != '#'
  }

  predicate PlainWord(w: string) {
    |w| > 0 && forall i :: 0 <= i < |w| ==> PlainChar(w[i])
  }

  function Spaced(words: seq<string>): string {
    if |words| == 0 then "" else if |words| == 1 then words[0] else words[0] + " " + Spaced(words[1..])
  }

  lemma {:induction false} FeedTwice(f: Fed, left: string, right: string)
    ensures FeedAll(f, left + right) == FeedAll(FeedAll(f, left), right)
    decreases |left|
  {
    hide Feed;
    if |left| == 0 {
      assert left + right == right;
    } else if f.More? {
      assert (left + right)[0] == left[0] && (left + right)[1..] == left[1..] + right;
      FeedTwice(Feed(f.scan, left[0]), left[1..], right);
    }
  }

  lemma {:induction false} WordIsRead(parameters: seq<string>, start: string, w: string)
    requires |start| > 0 && forall i :: 0 <= i < |w| ==> PlainChar(w[i])
    ensures FeedAll(More(Scan(parameters, start, Unquoted, false)), w) ==
          More(Scan(parameters, start + w, Unquoted, false))
    decreases |w|
  {
    if |w| == 0 {
      assert start + w == start;
    } else {
      WordIsRead(parameters, start + [w[0]], w[1..]);
      assert start + [w[0]] + w[1..] == start + w;
      assert PlainChar(w[0]);
    }
  }

  lemma OneWord(parameters: seq<string>, w: string)
    requires PlainWord(w)
    ensures FeedAll(More(Scan(parameters, "", Initial, false)), w) == More(Scan(parameters, w, Unquoted, false))
  {
    assert PlainChar(w[0]);
    assert "" + [w[0]] == [w[0]];
    WordIsRead(parameters, [w[0]], w[1..]);
    assert [w[0]] + w[1..] == w;
  }

  lemma {:induction false} WordsAreRead(parameters: seq<string>, words: seq<string>)
    requires |words| > 0 && |parameters| + |words| <= MAX_PARAMETERS
    requires forall i :: 0 <= i < |words| ==> PlainWord(words[i])
    ensures Result(FeedAll(More(Scan(parameters, "", Initial, false)), Spaced(words) + [NUL])) ==
          Some(parameters + words)
    decreases |words|
  {
    hide FeedAll;
    var w, begin := words[0], More(Scan(parameters, "", Initial, false));
    OneWord(parameters, w);
    var after := Scan(parameters + [w], "", Initial, false);
    if |words| == 1 {
      FeedTwice(begin, w, [NUL]);
      FeedOne(Scan(parameters, w, Unquoted, false), NUL);
      assert parameters + words == parameters + [w];
    } else {
      var rest := words[1..];
      var text := Spaced(rest) + [NUL];
      assert Spaced(words) + [NUL] == w + (" " + text);
      FeedTwice(begin, w, " " + text);
      FeedTwice(More(Scan(parameters, w, Unquoted, false)), " ", text);
      FeedOne(Scan(parameters, w, Unquoted, false), ' ');
      WordsAreRead(parameters + [w], rest);
      assert parameters + [w] + rest == parameters + words;
    }
  }

  lemma FeedOne(s: Scan, c: char)
    ensures FeedAll(More(s), [c]) == Feed(s, c)
  {
    assert FeedAll(Feed(s, c), [c][1..]) == Feed(s, c);
  }

  /** Plain words with single spaces between them are exactly the parameters. */
  lemma PlainWords(words: seq<string>)
    requires 0 < |words| <= MAX_PARAMETERS && forall i :: 0 <= i < |words| ==> PlainWord(words[i])
    ensures Parse(Spaced(words)) == Some(words)
  {
    WordsAreRead([], words);
    assert [] + words == words;
  }

  // ---- Any parameters ----------------------------------------------------

  function Escaped(w: string): string {
    if |w| == 0 then "" else (if w[0] == '\\' || w[0] == '"' then ['\\', w[0]] else [w[0]]) + Escaped(w[1..])
  }

  function InQuotes(w: string): string {
    ['"'] + Escaped(w) + ['"']
  }

  function AllQuoted(words: seq<string>): string {
    if |words| == 0 then "" else InQuotes(words[0]) + AllQuoted(words[1..])
  }

  predicate NoNul(w: string) {
    forall i :: 0 <= i < |w| ==> w[i] != NUL
  }

  lemma {:induction false} EscapedIsRead(parameters: seq<string>, start: string, w: string)
    requires NoNul(w)
    ensures FeedAll(More(Scan(parameters, start, Quoted, false)), Escaped(w)) ==
          More(Scan(parameters, start + w, Quoted, false))
    decreases |w|
  {
    hide FeedAll, Feed;
    var s := Scan(parameters, start, Quoted, false);
    if |w| == 0 {
      FeedNothing(More(s));
      assert start + w == start;
    } else {
      var c, rest := w[0], Escaped(w[1..]);
      var head := if c == '\\' || c == '"' then ['\\', c] else [c];
      var next := Scan(parameters, start + [c], Quoted, false);
      OneEscaped(s, c);
      FeedTwice(More(s), head, rest);
      EscapedIsRead(parameters, start + [c], w[1..]);
      assert start + [c] + w[1..] == start + w;
    }
  }

  lemma OneEscaped(s: Scan, c: char)
    requires s.mode == Quoted && !s.backslash && c != NUL
    ensures FeedAll(More(s), if c == '\\' || c == '"' then ['\\', c] else [c]) ==
            More(Scan(s.parameters, s.word + [c], Quoted, false))
  {
    if c == '\\' || c == '"' {
      FeedTwice(More(s), ['\\'], [c]);
      FeedOne(s, '\\');
      FeedOne(s.(backslash := true), c);
      hide FeedAll;
      assert ['\\'] + [c] == ['\\', c];
    } else {
      FeedOne(s, c);
    }
  }

  lemma QuotesAreRead(parameters: seq<string>, w: string)
    requires NoNul(w) && |parameters| < MAX_PARAMETERS
    ensures FeedAll(More(Scan(parameters, "", Initial, false)), InQuotes(w)) ==
          Finished(Scan(parameters, w, Quoted, false))
  {
    hide FeedAll;
    var begin, inside := Scan(parameters, "", Initial, false), Scan(parameters, "", Quoted, false);
    FeedTwice(More(begin), ['"'], Escaped(w) + ['"']);
    FeedOne(begin, '"');
    FeedTwice(More(inside), Escaped(w), ['"']);
    EscapedIsRead(parameters, "", w);
    FeedOne(Scan(parameters, w, Quoted, false), '"');
    assert "" + w == w;
    assert InQuotes(w) == ['"'] + (Escaped(w) + ['"']);
  }

  lemma {:induction false} AllQuotesAreRead(parameters: seq<string>, words: seq<string>)
    requires |parameters| + |words| <= MAX_PARAMETERS && (|words| > 0 || 0 < |parameters| < MAX_PARAMETERS) &&
          forall i :: 0 <= i < |words| ==> NoNul(words[i])
    ensures Result(FeedAll(More(Scan(parameters, "", Initial, false)), AllQuoted(words) + [NUL])) ==
          Some(parameters + words)
    decreases |words|
  {
    hide FeedAll, InQuotes;
    var begin := Scan(parameters, "", Initial, false);
    if |words| == 0 {
      assert AllQuoted(words) + [NUL] == [NUL];
      FeedOne(begin, NUL);
      assert parameters + words == parameters;
    } else {
      var w, rest := words[0], words[1..];
      var text := AllQuoted(rest) + [NUL];
      QuotesAreRead(parameters, w);
      FeedTwice(More(begin), InQuotes(w), text);
      assert AllQuoted(words) + [NUL] == InQuotes(w) + text;
      assert parameters + [w] + rest == parameters + words;
      var done := Scan(parameters + [w], "", Initial, false);
      if |done.parameters| < MAX_PARAMETERS {
        AllQuotesAreRead(parameters + [w], rest);
      } else {
        HaltStays(done, text);
        assert parameters + words == parameters + [w];
      }
    }
  }

  lemma FeedNothing(f: Fed)
    ensures FeedAll(f, "") == f
  {
  }

  lemma HaltStays(s: Scan, text: string)
    ensures FeedAll(Halt(s), text) == Halt(s)
  {
  }

  /** Every list of up to sixteen parameters can be written as a line that reads back as it. */
  lemma AnyParameters(words: seq<string>)
    requires 0 < |words| <= MAX_PARAMETERS && forall i :: 0 <= i < |words| ==> NoNul(words[i])
    ensures Parse(AllQuoted(words)) == Some(words)
  {
    hide FeedAll;
    AllQuotesAreRead([], words);
    assert [] + words == words;
  }
}
