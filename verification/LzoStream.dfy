/**
 The LZO1X stream rules, as a decoder over byte sequences.

 The rules are those of the Linux kernel's "LZO stream format as understood by
 Linux's LZO decompressor". `state` is the number of literals the previous
 instruction copied, with 4 standing for four or more.
 */
module LzoStream {
  import opened Bytes

  /** A finished stream: what it expanded to and how many bytes it took. */
  datatype Outcome = Done(output: seq<Byte>, consumed: nat) | Corrupt

  /** What one instruction does to the decoder. */
  datatype Progress =
    | Next(pos: nat, output: seq<Byte>, state: nat)
    | End(pos: nat, output: seq<Byte>)
    | Bad

  /** A length read from the stream, and where the next operand starts. */
  datatype Length = Length(value: nat, next: nat) | Truncated

  /** Zero bytes add 255 each; the first non-zero byte ends the length. */
  function Extension(src: seq<Byte>, pos: nat, sum: nat): (r: Length)
    ensures r.Length? ==> pos < r.next <= |src|
    decreases |src| - pos
  {
    if pos >= |src| then Truncated
    else if src[pos] == 0 then Extension(src, pos + 1, sum + 255)
    else Length(sum + src[pos], pos + 1)
  }

  /** `field` is the length operand; zero means `full` plus an extension. */
  function ReadLength(src: seq<Byte>, pos: nat, field: nat, full: nat): (r: Length)
    requires pos <= |src|
    ensures r.Length? ==> pos <= r.next <= |src|
  {
    if field != 0 then Length(field, pos) else Extension(src, pos, full)
  }

  /** Copies byte by byte, so a distance shorter than the length repeats. */
  function CopyBack(output: seq<Byte>, distance: nat, length: nat): (r: seq<Byte>)
    requires 1 <= distance <= |output|
    ensures |r| == |output| + length
    decreases length
  {
    if length == 0 then output
    else CopyBack(output + [output[|output| - distance]], distance, length - 1)
  }

  /** A dictionary copy followed by `literals` immediate literals. */
  function FinishCopy(src: seq<Byte>, pos: nat, output: seq<Byte>, distance: nat, length: nat,
      literals: nat): (r: Progress)
    requires pos <= |src|
    ensures r.Next? ==> pos <= r.pos <= |src|
    ensures !r.End?
  {
    if distance == 0 || distance > |output| || pos + literals > |src| then Bad
    else Next(pos + literals, CopyBack(output, distance, length) + src[pos..pos + literals], literals)
  }

  /** A run of `length` literals, after which no short copy may follow. */
  function FinishLiterals(src: seq<Byte>, pos: nat, output: seq<Byte>, length: nat): (r: Progress)
    requires pos <= |src|
    ensures r.Next? ==> pos <= r.pos <= |src|
    ensures !r.End?
  {
    if pos + length > |src| then Bad
    else Next(pos + length, output + src[pos..pos + length], 4)
  }

  function Instruction(src: seq<Byte>, pos: nat, output: seq<Byte>, state: nat): (r: Progress)
    requires pos <= |src|
    ensures r.Next? ==> pos < r.pos <= |src|
  {
    if pos == |src| then Bad
    else
      var op: int := src[pos];
      if op >= 64 then
        if pos + 1 == |src| then Bad
        else
          var length := if op >= 128 then 5 + (op / 32) % 4 else 3 + (op / 32) % 2;
          FinishCopy(src, pos + 2, output, (src[pos + 1] as int) * 8 + (op / 4) % 8 + 1, length, op % 4)
      else if op >= 32 then
        match ReadLength(src, pos + 1, op % 32, 31)
        case Truncated => Bad
        case Length(length, next) =>
          if next + 2 > |src| then Bad
          else FinishCopy(src, next + 2, output, src[next] / 4 + (src[next + 1] as int) * 64 + 1, 2 + length,
              src[next] % 4)
      else if op >= 16 then
        match ReadLength(src, pos + 1, op % 8, 7)
        case Truncated => Bad
        case Length(length, next) =>
          if next + 2 > |src| then Bad
          else
            var distance := 0x4000 + ((op / 8) % 2) * 0x4000 + src[next] / 4 + (src[next + 1] as int) * 64;
            if distance == 0x4000 then End(next + 2, output)
            else FinishCopy(src, next + 2, output, distance, 2 + length, src[next] % 4)
      else if state == 0 then
        match ReadLength(src, pos + 1, op, 15)
        case Truncated => Bad
        case Length(length, next) => FinishLiterals(src, next, output, 3 + length)
      else if pos + 1 == |src| then Bad
      else if state < 4 then
        FinishCopy(src, pos + 2, output, (src[pos + 1] as int) * 4 + op / 4 + 1, 2, op % 4)
      else
        FinishCopy(src, pos + 2, output, (src[pos + 1] as int) * 4 + op / 4 + 2049, 3, op % 4)
  }

  function Run(src: seq<Byte>, pos: nat, output: seq<Byte>, state: nat): (r: Outcome)
    requires pos <= |src|
    decreases |src| - pos
  {
    match Instruction(src, pos, output, state)
    case Bad => Corrupt
    case End(next, out) => Done(out, next)
    case Next(next, out, s) => Run(src, next, out, s)
  }

  /**
   The first byte has its own rule: above 17 it counts literals. A leading 17
   in a stream of five bytes or more announces a versioned stream, which the
   rules here do not cover.
   */
  function Decompress(src: seq<Byte>): (r: Outcome)
  {
    if |src| == 0 then Corrupt
    else if src[0] > 17 then
      var count := src[0] - 17;
      if 1 + count > |src| then Corrupt
      else Run(src, 1 + count, src[1..1 + count], if count < 4 then count else 4)
    else if src[0] == 17 && |src| >= 5 then Corrupt
    else Run(src, 0, [], 0)
  }
}
