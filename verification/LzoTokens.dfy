/**
 Instructions as the compressor chooses them, their bytes, and the proof that
 the stream rules read those bytes back.
 */
module LzoTokens {
  import opened Bytes
  import opened LzoStream

  const MAX_OFFSET_M2 := 0x0800
  const MAX_OFFSET_M3 := 0x4000
  const MAX_OFFSET_M4 := 0xbfff
  const MAX_LENGTH_M2 := 8
  const MAX_LENGTH_M4 := 9
  const MARKER_M3 := 32
  const MARKER_M4 := 16

  /** A run of literals, or a dictionary copy with up to three literals behind it. */
  datatype Token =
    | Literals(run: seq<Byte>)
    | Copy(distance: nat, length: nat, trailing: seq<Byte>)

  /** A length beyond what the opcode holds: 255 per zero byte, then the rest. */
  function Multiple(value: nat): (s: seq<Byte>)
    requires value >= 1
  {
    if value > 255 then [0] + Multiple(value - 255) else [value]
  }

  function LiteralHeader(first: bool, count: nat): seq<Byte>
    requires count >= 1 && (first || count >= 4)
  {
    if first && count <= 238 then [17 + count]
    else if count <= 18 then [if count >= 4 then count - 3 else 0]
    else [0] + Multiple(count - 18)
  }

  predicate CopyFits(distance: nat, length: nat) {
    1 <= distance <= MAX_OFFSET_M4 && 3 <= length
  }

  /** The bytes in front of the two operand bytes of the long copies. */
  function LongCopyHead(distance: nat, length: nat): seq<Byte>
    requires CopyFits(distance, length)
  {
    if distance <= MAX_OFFSET_M3 then
      if length <= 33 then [MARKER_M3 + (length - 2)] else [MARKER_M3] + Multiple(length - 33)
    else
      var marker := MARKER_M4 + ((distance - 0x4000) / 0x4000) * 8;
      if length <= MAX_LENGTH_M4 then [marker + (length - 2)] else [marker] + Multiple(length - MAX_LENGTH_M4)
  }

  predicate ShortCopy(distance: nat, length: nat) {
    distance <= MAX_OFFSET_M2 && length <= MAX_LENGTH_M2
  }

  /** The last two bytes of a copy; the low bits of the first count literals. */
  function CopyTail(distance: nat, length: nat, literals: nat): (s: seq<Byte>)
    requires CopyFits(distance, length) && literals <= 3
    ensures |s| == 2 && s[0] % 4 == literals
  {
    if ShortCopy(distance, length) then
      [(length - 1) * 32 + ((distance - 1) % 8) * 4 + literals, (distance - 1) / 8]
    else
      var operand := if distance <= MAX_OFFSET_M3 then distance - 1 else distance - 0x4000;
      [(operand % 64) * 4 + literals, (operand / 64) % 256]
  }

  function CopyCode(distance: nat, length: nat, literals: nat): seq<Byte>
    requires CopyFits(distance, length) && literals <= 3
  {
    (if ShortCopy(distance, length) then [] else LongCopyHead(distance, length)) + CopyTail(distance, length, literals)
  }

  /** What the decoder remembers after the tokens. */
  function State(tokens: seq<Token>): nat
  {
    if |tokens| == 0 then 0
    else match tokens[|tokens| - 1]
      case Literals(run) => if |tokens| == 1 && |run| < 4 then |run| else 4
      case Copy(_, _, trailing) => |trailing|
  }

  function Expand(tokens: seq<Token>): (output: seq<Byte>)
  {
    if |tokens| == 0 then []
    else
      var before := Expand(tokens[..|tokens| - 1]);
      match tokens[|tokens| - 1]
      case Literals(run) => before + run
      case Copy(distance, length, trailing) =>
        if 1 <= distance <= |before| then CopyBack(before, distance, length) + trailing else before
  }

  predicate Follows(before: seq<Token>, token: Token)
  {
    match token
    case Literals(run) => |run| >= 1 && (|before| > 0 ==> |run| >= 4 && State(before) == 0)
    case Copy(distance, length, trailing) =>
      |before| > 0 && CopyFits(distance, length) && distance <= |Expand(before)| && |trailing| <= 3
  }

  /** Every token may stand where it stands. */
  predicate WellFormed(tokens: seq<Token>)
  {
    |tokens| == 0 ||
    (WellFormed(tokens[..|tokens| - 1]) && Follows(tokens[..|tokens| - 1], tokens[|tokens| - 1]))
  }

  function Code(first: bool, token: Token): seq<Byte>
    requires token.Literals? ==> |token.run| >= 1 && (first || |token.run| >= 4)
    requires token.Copy? ==> CopyFits(token.distance, token.length) && |token.trailing| <= 3
  {
    match token
    case Literals(run) => LiteralHeader(first, |run|) + run
    case Copy(distance, length, trailing) => CopyCode(distance, length, |trailing|) + trailing
  }

  function Serialize(tokens: seq<Token>): seq<Byte>
    requires WellFormed(tokens)
  {
    if |tokens| == 0 then []
    else
      var before := tokens[..|tokens| - 1];
      Serialize(before) + Code(|before| == 0, tokens[|tokens| - 1])
  }

  /** The marker M4 with distance 0x4000. */
  const END_MARKER: seq<Byte> := [MARKER_M4 + 1, 0, 0]

  // ---- Appending a token -------------------------------------------------

  lemma Append(tokens: seq<Token>, token: Token)
    requires WellFormed(tokens) && Follows(tokens, token)
    ensures WellFormed(tokens + [token])
    ensures Serialize(tokens + [token]) == Serialize(tokens) + Code(|tokens| == 0, token)
    ensures Expand(tokens + [token]) ==
            if token.Literals? then Expand(tokens) + token.run
            else CopyBack(Expand(tokens), token.distance, token.length) + token.trailing
    ensures State(tokens + [token]) ==
            if token.Literals? then (if |tokens| == 0 && |token.run| < 4 then |token.run| else 4) else |token.trailing|
  {
    hide CopyBack, LiteralHeader, CopyCode;
    var all := tokens + [token];
    assert all[..|all| - 1] == tokens && all[|all| - 1] == token;
    assert WellFormed(all);
    hide WellFormed;
    AppendSerializes(tokens, token);
    AppendExpands(tokens, token);
    hide Serialize, Expand, Code, Follows;
  }

  lemma AppendSerializes(tokens: seq<Token>, token: Token)
    requires WellFormed(tokens) && Follows(tokens, token) && WellFormed(tokens + [token])
    ensures Serialize(tokens + [token]) == Serialize(tokens) + Code(|tokens| == 0, token)
  {
    hide Code, WellFormed, Expand;
    assert (tokens + [token])[..|tokens|] == tokens;
  }

  lemma AppendExpands(tokens: seq<Token>, token: Token)
    requires Follows(tokens, token)
    ensures Expand(tokens + [token]) ==
            if token.Literals? then Expand(tokens) + token.run
            else CopyBack(Expand(tokens), token.distance, token.length) + token.trailing
  {
    hide CopyBack;
    assert (tokens + [token])[..|tokens|] == tokens;
  }

  // ---- Reading back what was written -------------------------------------

  /** The stream carries `code` at `pos`. */
  predicate Holds(src: seq<Byte>, pos: nat, code: seq<Byte>) {
    pos + |code| <= |src| && src[pos..pos + |code|] == code
  }

  lemma HoldsParts(src: seq<Byte>, pos: nat, left: seq<Byte>, right: seq<Byte>)
    requires Holds(src, pos, left + right)
    ensures Holds(src, pos, left) && Holds(src, pos + |left|, right)
  {
    var code := left + right;
    assert src[pos..pos + |left|] == src[pos..pos + |code|][..|left|] == left;
    assert src[pos + |left|..pos + |code|] == src[pos..pos + |code|][|left|..] == right;
  }

  lemma HoldsAt(src: seq<Byte>, pos: nat, code: seq<Byte>, k: nat)
    requires Holds(src, pos, code) && k < |code|
    ensures src[pos + k] == code[k]
  {
    assert src[pos + k] == src[pos..pos + |code|][k];
  }

  lemma {:induction false} ExtensionReadsMultiple(src: seq<Byte>, pos: nat, value: nat, sum: nat)
    requires value >= 1 && Holds(src, pos, Multiple(value))
    ensures Extension(src, pos, sum) == Length(sum + value, pos + |Multiple(value)|)
    decreases value
  {
    HoldsAt(src, pos, Multiple(value), 0);
    if value > 255 {
      HoldsParts(src, pos, [0], Multiple(value - 255));
      ExtensionReadsMultiple(src, pos + 1, value - 255, sum + 255);
    }
  }

  lemma ShortOperands(lengthField: nat, low: nat, literals: nat)
    requires 2 <= lengthField <= 7 && low <= 7 && literals <= 3
    ensures var op := lengthField * 32 + low * 4 + literals;
            64 <= op < 256 && op / 32 == lengthField && (op / 4) % 8 == low && op % 4 == literals
  {
    var op := lengthField * 32 + low * 4 + literals;
    assert op / 4 == lengthField * 8 + low;
  }

  lemma ShortCopyIsRead(src: seq<Byte>, pos: nat, output: seq<Byte>, state: nat, distance: nat, length: nat,
        literals: nat)
    requires CopyFits(distance, length) && ShortCopy(distance, length) && literals <= 3
    requires Holds(src, pos, CopyTail(distance, length, literals))
    ensures Instruction(src, pos, output, state) == FinishCopy(src, pos + 2, output, distance, length, literals)
  {
    hide FinishCopy, ReadLength, Holds;
    var code := CopyTail(distance, length, literals);
    HoldsAt(src, pos, code, 0);
    HoldsAt(src, pos, code, 1);
    ShortOperands(length - 1, (distance - 1) % 8, literals);
    assert pos + 2 <= |src| by { HoldsFits(src, pos, code); }
  }

  lemma HoldsFits(src: seq<Byte>, pos: nat, code: seq<Byte>)
    requires Holds(src, pos, code)
    ensures pos + |code| <= |src|
  {
  }

  lemma LongHeadIsRead(src: seq<Byte>, pos: nat, distance: nat, length: nat)
    requires CopyFits(distance, length) && !ShortCopy(distance, length)
    requires Holds(src, pos, LongCopyHead(distance, length))
    ensures var end := pos + |LongCopyHead(distance, length)|;
            var op: int := src[pos];
            if distance <= MAX_OFFSET_M3 then
              32 <= op < 64 && ReadLength(src, pos + 1, op % 32, 31) == Length(length - 2, end)
            else
              16 <= op < 32 && (op / 8) % 2 == (distance - 0x4000) / 0x4000 &&
              ReadLength(src, pos + 1, op % 8, 7) == Length(length - 2, end)
  {
    hide Holds, ReadLength, LongCopyHead;
    if distance <= MAX_OFFSET_M3 {
      NearHeadIsRead(src, pos, distance, length);
    } else {
      FarHeadIsRead(src, pos, distance, length);
    }
  }

  lemma NearHeadIsRead(src: seq<Byte>, pos: nat, distance: nat, length: nat)
    requires CopyFits(distance, length) && distance <= MAX_OFFSET_M3 && Holds(src, pos, LongCopyHead(distance, length))
    ensures var end := pos + |LongCopyHead(distance, length)|;
            && pos < |src| && 32 <= src[pos] < 64
            && ReadLength(src, pos + 1, src[pos] as int % 32, 31) == Length(length - 2, end)
  {
    hide Multiple;
    var head := LongCopyHead(distance, length);
    HoldsAt(src, pos, head, 0);
    if length > 33 {
      HoldsParts(src, pos, [MARKER_M3], Multiple(length - 33));
      hide Holds;
      ExtensionReadsMultiple(src, pos + 1, length - 33, 31);
      hide Extension;
    }
  }

  lemma FarHeadIsRead(src: seq<Byte>, pos: nat, distance: nat, length: nat)
    requires CopyFits(distance, length) && distance > MAX_OFFSET_M3 && Holds(src, pos, LongCopyHead(distance, length))
    ensures var end := pos + |LongCopyHead(distance, length)|;
            var op: int := src[pos];
            && 16 <= op < 32 && (op / 8) % 2 == (distance - 0x4000) / 0x4000
            && ReadLength(src, pos + 1, op % 8, 7) == Length(length - 2, end)
  {
    hide Multiple;
    var head, high := LongCopyHead(distance, length), (distance - 0x4000) / 0x4000;
    assert 0 <= high <= 1;
    var marker: Byte := MARKER_M4 + high * 8;
    HoldsAt(src, pos, head, 0);
    assert head ==
           if length <= MAX_LENGTH_M4 then [marker + (length - 2)] else [marker] + Multiple(length - MAX_LENGTH_M4);
    hide LongCopyHead;
    if length > MAX_LENGTH_M4 {
      HoldsParts(src, pos, [marker], Multiple(length - MAX_LENGTH_M4));
      hide Holds;
      ExtensionReadsMultiple(src, pos + 1, length - MAX_LENGTH_M4, 7);
      hide Extension;
    }
  }

  /** The rule for the two copies with a 16-bit operand, once the head is read. */
  lemma LongInstruction(src: seq<Byte>, pos: nat, output: seq<Byte>, state: nat, length: nat, next: nat)
    requires pos < |src| && 16 <= src[pos] < 64 && next + 2 <= |src|
    requires (if src[pos] >= 32 then ReadLength(src, pos + 1, src[pos] % 32, 31)
          else ReadLength(src, pos + 1, src[pos] % 8, 7))
             == Length(length, next)
    ensures var operand := src[next] / 4 + (src[next + 1] as int) * 64;
            var distance := if src[pos] >= 32 then operand + 1
                else 0x4000 + ((src[pos] as int / 8) % 2) * 0x4000 + operand;
            (src[pos] >= 32 || distance != 0x4000) ==>
              Instruction(src, pos, output, state) ==
                  FinishCopy(src, next + 2, output, distance, 2 + length, src[next] % 4)
  {
    hide ReadLength, FinishCopy;
  }

  lemma TailOperand(distance: nat, length: nat, literals: nat)
    requires CopyFits(distance, length) && !ShortCopy(distance, length) && literals <= 3
    ensures var tail := CopyTail(distance, length, literals);
            tail[0] / 4 + (tail[1] as int) * 64 ==
            if distance <= MAX_OFFSET_M3 then distance - 1 else (distance - 0x4000) % 0x4000
  {
  }

  lemma LongCopyIsRead(src: seq<Byte>, pos: nat, output: seq<Byte>, state: nat, distance: nat, length: nat,
        literals: nat)
    requires CopyFits(distance, length) && !ShortCopy(distance, length) && literals <= 3
    requires Holds(src, pos, LongCopyHead(distance, length) + CopyTail(distance, length, literals))
    ensures Instruction(src, pos, output, state) ==
            FinishCopy(src, pos + |LongCopyHead(distance, length)| + 2, output, distance, length, literals)
  {
    hide ReadLength, FinishCopy, Instruction, LongCopyHead, CopyTail;
    var head, tail := LongCopyHead(distance, length), CopyTail(distance, length, literals);
    HoldsParts(src, pos, head, tail);
    LongHeadIsRead(src, pos, distance, length);
    HoldsAt(src, pos + |head|, tail, 0);
    HoldsAt(src, pos + |head|, tail, 1);
    TailOperand(distance, length, literals);
    LongInstruction(src, pos, output, state, length - 2, pos + |head|);
  }

  lemma CopyIsRead(src: seq<Byte>, pos: nat, output: seq<Byte>, state: nat, distance: nat, length: nat,
        trailing: seq<Byte>)
    requires CopyFits(distance, length) && |trailing| <= 3 && distance <= |output|
    requires Holds(src, pos, CopyCode(distance, length, |trailing|) + trailing)
    ensures Instruction(src, pos, output, state) ==
            Next(pos + |CopyCode(distance, length, |trailing|)| + |trailing|,
                 CopyBack(output, distance, length) + trailing, |trailing|)
  {
    hide Instruction, CopyTail, LongCopyHead, CopyBack;
    var code := CopyCode(distance, length, |trailing|);
    HoldsParts(src, pos, code, trailing);
    if ShortCopy(distance, length) {
      assert code == CopyTail(distance, length, |trailing|);
      ShortCopyIsRead(src, pos, output, state, distance, length, |trailing|);
    } else {
      LongCopyIsRead(src, pos, output, state, distance, length, |trailing|);
    }
  }

  /** A long literal run is read in state 0. */
  lemma LiteralsAreRead(src: seq<Byte>, pos: nat, output: seq<Byte>, first: bool, run: seq<Byte>)
    requires |run| >= 4 && (first ==> |run| > 238)
    requires Holds(src, pos, LiteralHeader(first, |run|) + run)
    ensures Instruction(src, pos, output, 0) ==
            Next(pos + |LiteralHeader(first, |run|)| + |run|, output + run, 4)
  {
    hide Instruction, LiteralHeader, ReadLength;
    var head := LiteralHeader(first, |run|);
    HoldsParts(src, pos, head, run);
    RunHeadIsRead(src, pos, first, |run|);
    RunInstruction(src, pos, output, |run| - 3, pos + |head|);
  }

  /** The header of a run tells its length. */
  lemma RunHeadIsRead(src: seq<Byte>, pos: nat, first: bool, count: nat)
    requires count >= 4 && (first ==> count > 238) && Holds(src, pos, LiteralHeader(first, count))
    ensures pos < |src| && src[pos] < 16
    ensures ReadLength(src, pos + 1, src[pos], 15) == Length(count - 3, pos + |LiteralHeader(first, count)|)
  {
    hide Multiple;
    HoldsAt(src, pos, LiteralHeader(first, count), 0);
    assert LiteralHeader(first, count) == if count <= 18 then [count - 3] else [0] + Multiple(count - 18);
    hide LiteralHeader;
    if count > 18 {
      HoldsParts(src, pos, [0], Multiple(count - 18));
      hide Holds;
      ExtensionReadsMultiple(src, pos + 1, count - 18, 15);
      hide Extension;
    }
  }

  /** The rule for a run of literals, once the head is read. */
  lemma RunInstruction(src: seq<Byte>, pos: nat, output: seq<Byte>, length: nat, next: nat)
    requires pos < |src| && src[pos] < 16 && ReadLength(src, pos + 1, src[pos], 15) == Length(length, next)
    requires next + 3 + length <= |src|
    ensures Instruction(src, pos, output, 0) == Next(next + 3 + length, output + src[next..next + 3 + length], 4)
  {
    hide ReadLength, FinishCopy;
  }

  lemma RunStep(src: seq<Byte>, pos: nat, output: seq<Byte>, state: nat, step: Progress)
    requires pos <= |src| && Instruction(src, pos, output, state) == step && step.Next?
    ensures Run(src, pos, output, state) == Run(src, step.pos, step.output, step.state)
  {
    hide Instruction;
  }

  lemma FirstRunIsRead(run: seq<Byte>, rest: seq<Byte>)
    requires |run| >= 1
    ensures var code := LiteralHeader(true, |run|) + run;
            Decompress(code + rest) == Run(code + rest, |code|, run, if |run| < 4 then |run| else 4)
  {
    hide Instruction, Run, Multiple;
    var code := LiteralHeader(true, |run|) + run;
    var src := code + rest;
    if |run| <= 238 {
      assert src[1..1 + |run|] == run;
    } else {
      assert src[0] == 0;
      LongFirstRunIsRead(src, run, rest);
    }
  }

  lemma LongFirstRunIsRead(src: seq<Byte>, run: seq<Byte>, rest: seq<Byte>)
    requires |run| > 238 && src == LiteralHeader(true, |run|) + run + rest
    ensures Run(src, 0, [], 0) == Run(src, |LiteralHeader(true, |run|)| + |run|, run, 4)
  {
    hide Instruction, Run, LiteralHeader;
    var code := LiteralHeader(true, |run|) + run;
    assert src[0..|code|] == code;
    LiteralsAreRead(src, 0, [], true, run);
    assert [] + run == run;
    RunStep(src, 0, [], 0, Next(|code|, run, 4));
  }

  /** Reading one token takes the decoder over exactly its bytes. */
  lemma TokenIsRead(before: seq<Token>, token: Token, src: seq<Byte>, pos: nat)
    requires |before| > 0 && WellFormed(before) && Follows(before, token)
    requires Holds(src, pos, Code(false, token))
    ensures Instruction(src, pos, Expand(before), State(before)) ==
            Next(pos + |Code(false, token)|, Expand(before + [token]), State(before + [token]))
  {
    hide Instruction, WellFormed, CopyCode, LiteralHeader, Expand, State, Serialize, CopyBack;
    Append(before, token);
    match token
    case Literals(run) => LiteralsAreRead(src, pos, Expand(before), false, run);
    case Copy(distance, length, trailing) =>
      CopyIsRead(src, pos, Expand(before), State(before), distance, length, trailing);
  }

  /** The decoder consumes exactly the serialized tokens and holds their expansion. */
  lemma {:induction false} TokensAreRead(tokens: seq<Token>, rest: seq<Byte>)
    requires WellFormed(tokens) && |tokens| > 0
    ensures Decompress(Serialize(tokens) + rest) ==
            Run(Serialize(tokens) + rest, |Serialize(tokens)|, Expand(tokens), State(tokens))
    decreases |tokens|
  {
    hide Instruction, Decompress, Run, Code, Expand, State;
    var before, token := tokens[..|tokens| - 1], tokens[|tokens| - 1];
    assert before + [token] == tokens;
    var code := Code(|before| == 0, token);
    var src := Serialize(tokens) + rest;
    if |before| == 0 {
      FirstTokenIsRead(token.run, rest);
      assert tokens == [token];
    } else {
      assert src == Serialize(before) + (code + rest);
      TokensAreRead(before, code + rest);
      assert Holds(src, |Serialize(before)|, code);
      TokenIsRead(before, token, src, |Serialize(before)|);
      RunStep(src, |Serialize(before)|, Expand(before), State(before),
              Next(|Serialize(tokens)|, Expand(tokens), State(tokens)));
    }
  }

  lemma FirstTokenIsRead(run: seq<Byte>, rest: seq<Byte>)
    requires |run| >= 1
    ensures WellFormed([Literals(run)])
    ensures Decompress(Serialize([Literals(run)]) + rest) ==
            Run(Serialize([Literals(run)]) + rest, |Serialize([Literals(run)])|, Expand([Literals(run)]),
                State([Literals(run)]))
  {
    hide Instruction, Decompress, Run, LiteralHeader;
    Append([], Literals(run));
    assert [] + [Literals(run)] == [Literals(run)];
    assert Serialize([Literals(run)]) == LiteralHeader(true, |run|) + run;
    assert Expand([Literals(run)]) == run;
    FirstRunIsRead(run, rest);
  }

  lemma EndMarkerIsRead(src: seq<Byte>, pos: nat, output: seq<Byte>, state: nat)
    requires pos + 3 == |src| && src[pos..] == END_MARKER
    ensures Run(src, pos, output, state) == Done(output, |src|)
  {
    assert src[pos..][0] == 17 && src[pos..][1] == 0 && src[pos..][2] == 0;
    assert src[pos] == 17 && src[pos + 1] == 0 && src[pos + 2] == 0;
  }

  /** Decoding ends at the end marker, with the whole expansion and nothing left over. */
  lemma StreamRoundTrip(tokens: seq<Token>)
    requires WellFormed(tokens)
    ensures Decompress(Serialize(tokens) + END_MARKER) == Done(Expand(tokens), |Serialize(tokens)| + 3)
  {
    var src := Serialize(tokens) + END_MARKER;
    EndMarkerIsRead(src, |Serialize(tokens)|, Expand(tokens), State(tokens));
    if |tokens| > 0 {
      TokensAreRead(tokens, END_MARKER);
    }
  }
}
