/**
 The LZO1X block compressor: a hash dictionary of earlier positions proposes
 matches, and literals are folded into the bytes of the copy before them.
 */
module LzoCompress {
  import opened Bytes
  import opened LzoStream
  import opened LzoTokens

  const DICT_SIZE := 0x4000

  /** The four bytes at the input position, mixed into one key. */
  function Key(b0: Byte, b1: Byte, b2: Byte, b3: Byte): bv32 {
    (((((((b3 as bv32) << 6) ^ (b2 as bv32)) << 5) ^ (b1 as bv32)) << 5) ^ (b0 as bv32))
  }

  function KeySlot(key: bv32): bv14 {
    (((0x21 * key) >> 5) & 0x3fff) as bv14
  }

  function DictionaryIndex(b0: Byte, b1: Byte, b2: Byte, b3: Byte): (index: nat)
    ensures index < DICT_SIZE
  {
    KeySlot(Key(b0, b1, b2, b3)) as nat
  }

  /** The second slot tried when the first one holds no match. */
  function SecondIndex(index: nat): (second: nat)
    requires index < DICT_SIZE
    ensures second < DICT_SIZE
  {
    (((index as bv14) & 0x7ff) ^ (0x2000 | 0x1f)) as nat
  }

  /** `b |= count` for a count of at most three. */
  function OrCount(b: Byte, count: nat): (r: Byte)
    requires count <= 3
  {
    var high := if (b / 2) % 2 == 1 || count / 2 == 1 then 2 else 0;
    var low := if b % 2 == 1 || count % 2 == 1 then 1 else 0;
    b - b % 4 + high + low
  }

  /** The last token is a copy whose literal count is still zero. */
  predicate Open(tokens: seq<Token>) {
    |tokens| == 0 || (tokens[|tokens| - 1].Copy? && tokens[|tokens| - 1].trailing == [])
  }

  method AppendMultiple(output: seq<Byte>, value: nat) returns (result: seq<Byte>)
    requires value >= 1
    ensures result == output + Multiple(value)
  {
    result := output;
    var remaining := value;
    while remaining > 255
      invariant 1 <= remaining
      invariant result + Multiple(remaining) == output + Multiple(value)
    {
      assert result + Multiple(remaining) == result + [0] + Multiple(remaining - 255);
      result := result + [0];
      remaining := remaining - 255;
    }
    result := result + [remaining];
  }

  /** The low bits of a copy's first operand byte are free for the literal count. */
  lemma PatchedTail(distance: nat, length: nat, count: nat)
    requires CopyFits(distance, length) && count <= 3
    ensures var tail := CopyTail(distance, length, 0);
            CopyTail(distance, length, count) == [OrCount(tail[0], count), tail[1]]
  {
  }

  lemma PatchedBytes(front: seq<Byte>, tail: seq<Byte>, count: nat)
    requires |tail| == 2 && count <= 3
    ensures var output := front + tail;
            output[|output| - 2 := OrCount(output[|output| - 2], count)] == front + [OrCount(tail[0], count), tail[1]]
  {
    hide OrCount;
  }

  /** Setting the literal count of the last copy turns it into the copy with those literals. */
  lemma PatchedCopy(tokens: seq<Token>, literal: seq<Byte>)
    requires WellFormed(tokens) && |tokens| > 0 && Open(tokens) && 1 <= |literal| <= 3
    ensures var output := Serialize(tokens);
            var last := tokens[|tokens| - 1].(trailing := literal);
            var patched := tokens[..|tokens| - 1] + [last];
            && |output| >= 2
            && WellFormed(patched)
            && Serialize(patched) == output[|output| - 2 := OrCount(output[|output| - 2], |literal|)] + literal
            && Expand(patched) == Expand(tokens) + literal
  {
    LastCopy(tokens, literal);
    hide Expand, CopyBack, CopyCode, OrCount, Serialize, WellFormed, Follows, State, Open, LiteralHeader, CopyFits;
    var before, copy := tokens[..|tokens| - 1], tokens[|tokens| - 1];
    var last, first := copy.(trailing := literal), |before| == 0;
    assert Code(first, copy) == CopyCode(copy.distance, copy.length, 0) + [];
    assert Code(first, last) == CopyCode(copy.distance, copy.length, |literal|) + literal;
    hide Code;
    Append(before, copy);
    Append(before, last);
    PatchedCode(Serialize(before), copy.distance, copy.length, literal);
    var copied := CopyBack(Expand(before), copy.distance, copy.length);
    assert copied + [] == copied;
  }

  /** The last copy of an open sequence, and what can stand in its place. */
  lemma LastCopy(tokens: seq<Token>, literal: seq<Byte>)
    requires WellFormed(tokens) && |tokens| > 0 && Open(tokens) && 1 <= |literal| <= 3
    ensures var before, copy := tokens[..|tokens| - 1], tokens[|tokens| - 1];
            && before + [copy] == tokens && WellFormed(before)
            && copy.Copy? && copy.trailing == [] && CopyFits(copy.distance, copy.length)
            && Follows(before, copy) && Follows(before, copy.(trailing := literal))
  {
    hide Expand;
  }

  /** The bytes of a copy with literals behind it are those without, patched. */
  lemma PatchedCode(front: seq<Byte>, distance: nat, length: nat, literal: seq<Byte>)
    requires CopyFits(distance, length) && 1 <= |literal| <= 3
    ensures var output := front + (CopyCode(distance, length, 0) + []);
            && |output| >= 2
            && front + (CopyCode(distance, length, |literal|) + literal) ==
               output[|output| - 2 := OrCount(output[|output| - 2], |literal|)] + literal
  {
    hide CopyTail, LongCopyHead, OrCount;
    var head := if ShortCopy(distance, length) then [] else LongCopyHead(distance, length);
    var tail := CopyTail(distance, length, 0);
    PatchedTail(distance, length, |literal|);
    PatchedBytes(front + head, tail, |literal|);
    assert front + (CopyCode(distance, length, 0) + []) == (front + head) + tail;
    var patched: seq<Byte> := [OrCount(tail[0], |literal|), tail[1]];
    assert front + ((head + patched) + literal) == ((front + head) + patched) + literal;
  }

  lemma AppendRun(tokens: seq<Token>, literal: seq<Byte>)
    requires WellFormed(tokens) && Open(tokens)
    requires |literal| >= 1 && (|tokens| > 0 ==> |literal| >= 4)
    ensures WellFormed(tokens + [Literals(literal)])
    ensures Serialize(tokens + [Literals(literal)]) ==
          Serialize(tokens) + LiteralHeader(|tokens| == 0, |literal|) + literal
    ensures Expand(tokens + [Literals(literal)]) == Expand(tokens) + literal
  {
    hide LiteralHeader, Serialize, WellFormed, Expand;
    Append(tokens, Literals(literal));
  }

  /** Up to three literals go into the copy before them; others form a run. */
  function Extended(tokens: seq<Token>, literal: seq<Byte>): seq<Token> {
    if |literal| == 0 then tokens
    else if |literal| <= 3 && |tokens| > 0 && tokens[|tokens| - 1].Copy? then
      tokens[..|tokens| - 1] + [tokens[|tokens| - 1].(trailing := literal)]
    else tokens + [Literals(literal)]
  }

  method AppendLiteral(output: seq<Byte>, literal: seq<Byte>, ghost tokens: seq<Token>)
    returns (result: seq<Byte>, ghost next: seq<Token>)
    requires WellFormed(tokens) && Open(tokens) && output == Serialize(tokens)
    ensures WellFormed(next) && result == Serialize(next)
    ensures Expand(next) == Expand(tokens) + literal
    ensures next == Extended(tokens, literal)
  {
    hide Expand, Multiple, OrCount, Serialize, WellFormed;
    var count := |literal|;
    if count == 0 {
      return output, tokens;
    }
    SerializeNonEmpty(tokens);
    if |output| == 0 && count <= 238 {
      result := output + [17 + count];
    } else if count <= 3 {
      hide Open;
      PatchedCopy(tokens, literal);
      result := output[|output| - 2 := OrCount(output[|output| - 2], count)];
      next := tokens[..|tokens| - 1] + [tokens[|tokens| - 1].(trailing := literal)];
      return result + literal, next;
    } else if count <= 18 {
      result := output + [count - 3];
    } else {
      result := output + [0];
      result := AppendMultiple(result, count - 18);
    }
    assert result == output + LiteralHeader(|tokens| == 0, count);
    hide LiteralHeader;
    AppendRun(tokens, literal);
    next := tokens + [Literals(literal)];
    result := result + literal;
  }

  lemma SerializeNonEmpty(tokens: seq<Token>)
    requires WellFormed(tokens)
    ensures |tokens| == 0 <==> |Serialize(tokens)| == 0
  {
  }

  /** The position a dictionary entry names is near enough, and agrees in its fourth byte when it is far away. */
  predicate Proposes(input: seq<Byte>, inputPosition: nat, entry: int)
    requires inputPosition + 3 < |input|
  {
    && 1 <= entry <= inputPosition && inputPosition - (entry - 1) <= MAX_OFFSET_M4
    && (inputPosition - (entry - 1) <= MAX_OFFSET_M2 || input[entry + 2] == input[inputPosition + 3])
  }

  /** The earlier position the slot proposes, or -1 when it is unusable. */
  method FindCandidate(dictionary: array<int>, input: seq<Byte>, inputPosition: nat, index: nat)
    returns (matchPosition: int, matchOffset: nat)
    requires index < dictionary.Length && inputPosition + 3 < |input|
    requires forall i :: 0 <= i < dictionary.Length ==> 0 <= dictionary[i] <= inputPosition
    ensures matchPosition == if Proposes(input, inputPosition, dictionary[index]) then dictionary[index] - 1 else -1
    ensures matchPosition >= 0 ==> matchOffset == inputPosition - matchPosition
  {
    matchPosition := dictionary[index] - 1;
    if matchPosition < 0 || inputPosition == matchPosition || inputPosition - matchPosition > MAX_OFFSET_M4 {
      return -1, 0;
    }
    matchOffset := inputPosition - matchPosition;
    if matchOffset <= MAX_OFFSET_M2 || input[matchPosition + 3] == input[inputPosition + 3] {
      return matchPosition, matchOffset;
    }
    return -1, 0;
  }

  /** The bytes from `position` repeat those from `source` for `length` bytes. */
  predicate Repeats(input: seq<Byte>, source: nat, position: nat, length: nat) {
    source < position && position + length <= |input| &&
    forall k :: position <= k < position + length ==> input[k] == input[k - (position - source)]
  }

  /** Follows a match of three bytes as far as it goes. */
  method MeasureMatch(input: seq<Byte>, matchPosition: nat, start: nat) returns (end: nat)
    requires start + 9 <= |input| && Repeats(input, matchPosition, start, 3)
    ensures start + 3 <= end && Repeats(input, matchPosition, start, end - start)
    ensures end < |input| ==> input[matchPosition + (end - start)] != input[end]
  {
    end := start + 3;
    var matchLength := 3;
    while matchLength < 9
      invariant 3 <= matchLength <= 9 && end == start + matchLength
      invariant Repeats(input, matchPosition, start, matchLength)
    {
      end := end + 1;
      if input[matchPosition + matchLength] != input[end - 1] {
        break;
      }
      matchLength := matchLength + 1;
    }
    if matchLength < 9 {
      end := end - 1;
    } else {
      var source := matchPosition + 9;
      while end < |input| && input[source] == input[end]
        invariant start + 9 <= end <= |input| && source - matchPosition == end - start
        invariant Repeats(input, matchPosition, start, end - start)
      {
        source := source + 1;
        end := end + 1;
      }
    }
  }

  /** The bytes of a copy of at most eight bytes that carries no literals yet. */
  method AppendShortMatch(output: seq<Byte>, offset: nat, length: nat) returns (result: seq<Byte>)
    requires CopyFits(offset, length) && length < 9
    ensures result == output + CopyCode(offset, length, 0)
  {
    var matchOffset: nat;
    if offset <= MAX_OFFSET_M2 {
      matchOffset := offset - 1;
      result := output + [(length - 1) * 32 + (matchOffset % 8) * 4, matchOffset / 8];
    } else if offset <= MAX_OFFSET_M3 {
      matchOffset := offset - 1;
      result := output + [MARKER_M3 + (length - 2), (matchOffset % 64) * 4, matchOffset / 64];
    } else {
      matchOffset := offset - 0x4000;
      result := output + [MARKER_M4 + (matchOffset / 0x4000) * 8 + (length - 2), (matchOffset % 64) * 4,
          (matchOffset / 64) % 256];
    }
  }

  /** The bytes of a copy of nine bytes or more that carries no literals yet. */
  method AppendLongMatch(output: seq<Byte>, offset: nat, length: nat) returns (result: seq<Byte>)
    requires CopyFits(offset, length) && length >= 9
    ensures result == output + CopyCode(offset, length, 0)
  {
    hide LongCopyHead, CopyTail;
    var matchOffset: nat;
    result, matchOffset := AppendLongHead(output, offset, length);
    var operand: seq<Byte> := [(matchOffset % 64) * 4, (matchOffset / 64) % 256];
    LongTail(offset, length);
    result := result + operand;
  }

  /** The first byte and the length behind it, if it is longer than the byte holds. */
  method AppendHead(output: seq<Byte>, marker: Byte, length: nat, limit: nat) returns (result: seq<Byte>)
    requires 9 <= length && 9 <= limit && marker + limit - 2 < 256
    ensures result == output + if length <= limit then [marker + (length - 2)] else [marker] + Multiple(length - limit)
  {
    hide Multiple;
    if length <= limit {
      result := output + [marker + (length - 2)];
    } else {
      result := output + [marker];
      result := AppendMultiple(result, length - limit);
    }
  }

  method AppendLongHead(output: seq<Byte>, offset: nat, length: nat) returns (result: seq<Byte>, matchOffset: nat)
    requires CopyFits(offset, length) && length >= 9
    ensures result == output + LongCopyHead(offset, length)
    ensures matchOffset == if offset <= MAX_OFFSET_M3 then offset - 1 else offset - 0x4000
  {
    hide Multiple;
    if offset <= MAX_OFFSET_M3 {
      matchOffset := offset - 1;
      result := AppendHead(output, MARKER_M3, length, 33);
    } else {
      matchOffset := offset - 0x4000;
      result := AppendHead(output, MARKER_M4 + (matchOffset / 0x4000) * 8, length, MAX_LENGTH_M4);
    }
  }

  lemma LongTail(offset: nat, length: nat)
    requires CopyFits(offset, length) && length >= 9
    ensures var operand := if offset <= MAX_OFFSET_M3 then offset - 1 else offset - 0x4000;
            CopyTail(offset, length, 0) == [(operand % 64) * 4, (operand / 64) % 256]
  {
  }

  lemma {:induction false} CopyReproduces(input: seq<Byte>, start: nat, distance: nat, length: nat)
    requires 1 <= distance <= start && Repeats(input, start - distance, start, length)
    ensures CopyBack(input[..start], distance, length) == input[..start + length]
    decreases length
  {
    if length > 0 {
      assert input[start] == input[start - distance];
      assert input[..start] + [input[start]] == input[..start + 1];
      CopyReproduces(input, start + 1, distance, length - 1);
    }
  }

  /** The entry names a position from which the next three bytes are repeated. */
  predicate Matches(input: seq<Byte>, inputPosition: nat, entry: int)
    requires inputPosition + 3 < |input|
  {
    Proposes(input, inputPosition, entry) && Repeats(input, entry - 1, inputPosition, 3)
  }

  function Slot(input: seq<Byte>, position: nat): (index: nat)
    requires position + 3 < |input|
    ensures index < DICT_SIZE
  {
    DictionaryIndex(input[position], input[position + 1], input[position + 2], input[position + 3])
  }

  /** Tries the first slot, then the second; -1 when neither holds a match. */
  method FindMatch(dictionary: array<int>, input: seq<Byte>, inputPosition: nat)
    returns (index: nat, matchPosition: int, matchOffset: nat)
    requires dictionary.Length == DICT_SIZE && inputPosition + 9 <= |input|
    requires forall i :: 0 <= i < dictionary.Length ==> 0 <= dictionary[i] <= inputPosition
    ensures var first := Slot(input, inputPosition);
            index == if Matches(input, inputPosition, dictionary[first]) then first else SecondIndex(first)
    ensures matchPosition == if Matches(input, inputPosition, dictionary[index]) then dictionary[index] - 1 else -1
    ensures matchPosition >= 0 ==> matchOffset == inputPosition - matchPosition
  {
    hide DictionaryIndex, SecondIndex, Proposes;
    index := DictionaryIndex(input[inputPosition], input[inputPosition + 1], input[inputPosition + 2],
        input[inputPosition + 3]);
    matchPosition, matchOffset := -1, 0;
    ghost var first := index;
    for attempt := 0 to 2
      invariant index == if attempt == 0 then first else SecondIndex(first)
      invariant attempt > 0 ==> !Matches(input, inputPosition, dictionary[first])
      invariant attempt == 2 ==> !Matches(input, inputPosition, dictionary[index])
    {
      matchPosition, matchOffset := FindCandidate(dictionary, input, inputPosition, index);
      ThreeBytes(input, inputPosition, dictionary[index]);
      var tryMatch := matchPosition >= 0 &&
        (matchOffset <= MAX_OFFSET_M2 || input[matchPosition + 3] == input[inputPosition + 3]);
      if tryMatch &&
         input[matchPosition] == input[inputPosition] &&
         input[matchPosition + 1] == input[inputPosition + 1] &&
         input[matchPosition + 2] == input[inputPosition + 2]
      {
        return;
      }
      if attempt == 0 {
        index := SecondIndex(index);
      }
    }
    matchPosition := -1;
  }

  lemma ThreeBytes(input: seq<Byte>, inputPosition: nat, entry: int)
    requires inputPosition + 3 < |input|
    ensures Proposes(input, inputPosition, entry) ==>
              && 1 <= entry <= inputPosition
              && (inputPosition - (entry - 1) <= MAX_OFFSET_M2 || input[entry + 2] == input[inputPosition + 3])
              && (Repeats(input, entry - 1, inputPosition, 3) <==>
                  && input[entry - 1] == input[inputPosition]
                  && input[entry] == input[inputPosition + 1]
                  && input[entry + 1] == input[inputPosition + 2])
  {
    if Proposes(input, inputPosition, entry) {
      var d := inputPosition - (entry - 1);
      assert input[inputPosition + 1 - d] == input[entry] && input[inputPosition + 2 - d] == input[entry + 1];
    }
  }

  /** Writes the pending literals and the match found behind them. */
  method AppendMatch(input: seq<Byte>, output: seq<Byte>, literalStart: nat, inputPosition: nat,
                     matchPosition: nat, matchOffset: nat, ghost tokens: seq<Token>)
    returns (result: seq<Byte>, end: nat, ghost next: seq<Token>)
    requires literalStart <= inputPosition && inputPosition + 9 <= |input| && 1 <= inputPosition
    requires matchOffset == inputPosition - matchPosition && 1 <= matchOffset <= MAX_OFFSET_M4
    requires Repeats(input, matchPosition, inputPosition, 3)
    requires WellFormed(tokens) && Open(tokens) && output == Serialize(tokens)
    requires Expand(tokens) == input[..literalStart]
    ensures inputPosition + 3 <= end <= |input|
    ensures WellFormed(next) && Open(next) && result == Serialize(next) && Expand(next) == input[..end]
    ensures next == Extended(tokens, input[literalStart..inputPosition]) + [Copy(matchOffset, end - inputPosition, [])]
    ensures end < |input| ==> input[end - matchOffset] != input[end]
  {
    hide Expand, Serialize, WellFormed, CopyCode, Extended;
    result, next := output, tokens;
    assert Extended(tokens, []) == tokens by { NothingExtends(tokens); }
    if inputPosition != literalStart {
      result, next := AppendLiteral(output, input[literalStart..inputPosition], tokens);
      assert input[..literalStart] + input[literalStart..inputPosition] == input[..inputPosition];
    } else {
      assert input[literalStart..inputPosition] == [];
    }
    assert |next| > 0 by { ExpandEmpty(next); }
    end := MeasureMatch(input, matchPosition, inputPosition);
    if end - inputPosition < 9 {
      result := AppendShortMatch(result, matchOffset, end - inputPosition);
    } else {
      result := AppendLongMatch(result, matchOffset, end - inputPosition);
    }
    CopyExtends(input, next, inputPosition, matchOffset, end - inputPosition);
    next := next + [Copy(matchOffset, end - inputPosition, [])];
  }

  /** A copy of a repetition extends the expansion to where the repetition ends. */
  lemma CopyExtends(input: seq<Byte>, tokens: seq<Token>, start: nat, distance: nat, length: nat)
    requires WellFormed(tokens) && |tokens| > 0 && CopyFits(distance, length) && distance <= start <= |input|
    requires Expand(tokens) == input[..start] && Repeats(input, start - distance, start, length)
    ensures var all := tokens + [Copy(distance, length, [])];
            && WellFormed(all) && Open(all) && Serialize(all) == Serialize(tokens) + CopyCode(distance, length, 0)
            && Expand(all) == input[..start + length]
  {
    hide Expand, Serialize, WellFormed, CopyBack, CopyCode;
    var copy := Copy(distance, length, []);
    assert Follows(tokens, copy);
    Append(tokens, copy);
    CopyReproduces(input, start, distance, length);
    assert CopyCode(distance, length, 0) + [] == CopyCode(distance, length, 0);
    assert input[..start + length] + [] == input[..start + length];
  }

  lemma NothingExtends(tokens: seq<Token>)
    ensures Extended(tokens, []) == tokens
  {
  }

  lemma ExpandEmpty(tokens: seq<Token>)
    requires |Expand(tokens)| > 0
    ensures |tokens| > 0
  {
  }

  // ---- A run of equal bytes ------------------------------------------------

  predicate Uniform(input: seq<Byte>) {
    forall k :: 0 <= k < |input| ==> input[k] == input[0]
  }

  /** The second position already finds the first one, and the copy from there goes to the end. */
  function RunTokens(input: seq<Byte>): seq<Token>
    requires |input| >= 5
  {
    [Literals(input[..5]), Copy(1, |input| - 5, [])]
  }

  /** How far the scan of a run of equal bytes can be before it finds its match. */
  ghost predicate Opening(input: seq<Byte>, dictionary: seq<int>, literalStart: nat, inputPosition: nat,
      tokens: seq<Token>)
    requires |dictionary| == DICT_SIZE && |input| >= 19
  {
    && literalStart == 0 && tokens == []
    && (|| (inputPosition == 4 && forall i :: 0 <= i < DICT_SIZE ==> dictionary[i] == 0)
        || (&& inputPosition == 5 && dictionary[SecondIndex(Slot(input, 4))] == 5
            && forall i :: 0 <= i < DICT_SIZE ==> dictionary[i] in {0, 5}))
  }

  /** At the first position nothing is found; at the second, the byte before. */
  lemma OpeningFinds(input: seq<Byte>, dictionary: seq<int>, literalStart: nat, inputPosition: nat, tokens: seq<Token>)
    requires |dictionary| == DICT_SIZE && |input| >= 19 && Uniform(input)
    requires Opening(input, dictionary, literalStart, inputPosition, tokens)
    ensures var first := Slot(input, inputPosition);
            var index := if Matches(input, inputPosition, dictionary[first]) then first else SecondIndex(first);
            if inputPosition == 4 then index == SecondIndex(first) && !Matches(input, inputPosition, dictionary[index])
            else dictionary[index] == 5 && Matches(input, inputPosition, dictionary[index])
  {
    hide DictionaryIndex, SecondIndex;
    assert Slot(input, 5) == Slot(input, 4);
    assert inputPosition == 5 ==> Matches(input, 5, 5);
    assert !Matches(input, inputPosition, 0);
  }

  /** The number of bytes a run of equal bytes is compressed to. */
  function RunSize(n: nat): nat
    requires n >= 19
  {
    12 + if n <= 38 then 0 else |Multiple(n - 38)|
  }

  lemma {:induction false} MultipleIsShort(value: nat)
    requires value >= 1
    ensures |Multiple(value)| * 255 <= value + 254
  {
    if value > 255 {
      MultipleIsShort(value - 255);
    }
  }

  /** A run of equal bytes shrinks to about a 255th. */
  lemma RunShrinks(n: nat)
    requires n >= 19
    ensures RunSize(n) < n && RunSize(n) * 255 <= n + 12 * 255 + 254
  {
    hide Multiple;
    if n > 38 { MultipleIsShort(n - 38); }
  }

  lemma RunBytes(input: seq<Byte>)
    requires |input| >= 19 && WellFormed(RunTokens(input))
    ensures |Serialize(RunTokens(input))| + |END_MARKER| == RunSize(|input|)
  {
    hide CopyTail, Expand, Multiple;
    var tokens := RunTokens(input);
    var one := tokens[..1];
    assert WellFormed(one) && one[..0] == [];
    assert Serialize(one) == Serialize([]) + Code(true, tokens[0]);
    assert Serialize(tokens) == Serialize(one) + Code(false, tokens[1]);
    assert |CopyCode(1, |input| - 5, 0)| == |LongCopyHead(1, |input| - 5)| + 2;
  }

  method CompressBlockCore(input: seq<Byte>) returns (output: seq<Byte>, literalTailSize: nat, ghost tokens: seq<Token>)
    requires |input| > MAX_LENGTH_M2 + 5
    ensures literalTailSize <= |input|
    ensures WellFormed(tokens) && Open(tokens) && output == Serialize(tokens)
    ensures Expand(tokens) == input[..|input| - literalTailSize]
    ensures Uniform(input) && |input| >= 19 ==> literalTailSize == 0 && tokens == RunTokens(input)
  {
    hide Expand, Serialize, WellFormed, Slot, SecondIndex;
    var inputLimit := |input| - MAX_LENGTH_M2 - 5;
    var dictionary := new int[DICT_SIZE](_ => 0);
    var literalStart, inputPosition := 0, 4;
    output, tokens := [], [];
    EmptyTokens();
    while true
      invariant literalStart <= inputPosition && 4 <= inputPosition && inputPosition + 9 <= |input|
      invariant forall i :: 0 <= i < dictionary.Length ==> 0 <= dictionary[i] <= inputPosition
      invariant WellFormed(tokens) && Open(tokens) && output == Serialize(tokens)
      invariant Expand(tokens) == input[..literalStart]
      invariant Uniform(input) && |input| >= 19 ==> Opening(input, dictionary[..], literalStart, inputPosition, tokens)
      decreases |input| - inputPosition
    {
      if Uniform(input) && |input| >= 19 { OpeningFinds(input, dictionary[..], literalStart, inputPosition, tokens); }
      var index, matchPosition, matchOffset := FindMatch(dictionary, input, inputPosition);
      dictionary[index] := inputPosition + 1;
      if matchPosition >= 0 {
        output, inputPosition, tokens :=
          AppendMatch(input, output, literalStart, inputPosition, matchPosition, matchOffset, tokens);
        literalStart := inputPosition;
      } else {
        inputPosition := inputPosition + 1 + (inputPosition - literalStart) / 32;
      }
      if inputPosition >= inputLimit {
        break;
      }
    }
    literalTailSize := |input| - literalStart;
  }

  lemma EmptyTokens()
    ensures WellFormed([]) && Serialize([]) == [] && Expand([]) == []
  {
  }

  /** A block decodes to its input and ends where the stream does; a run of equal bytes has a short one. */
  predicate BlockOf(input: seq<Byte>, block: seq<Byte>) {
    && Decompress(block) == Done(input, |block|)
    && (Uniform(input) && |input| >= 19 ==> |block| == RunSize(|input|))
  }

  method CompressBlock(input: seq<Byte>) returns (output: seq<Byte>)
    ensures BlockOf(input, output)
  {
    hide Expand, Serialize, WellFormed, Decompress;
    var literalTailSize := |input|;
    output := [];
    ghost var tokens: seq<Token> := [];
    EmptyTokens();
    if |input| > MAX_LENGTH_M2 + 5 {
      output, literalTailSize, tokens := CompressBlockCore(input);
    }
    var literalStart := |input| - literalTailSize;
    assert Expand(tokens) == input[..literalStart];
    if literalTailSize > 0 {
      output, tokens := AppendLiteral(output, input[literalStart..], tokens);
    }
    assert input[..literalStart] + input[literalStart..] == input;
    StreamRoundTrip(tokens);
    if Uniform(input) && |input| >= 19 { RunBytes(input); }
    output := output + END_MARKER;
  }
}
