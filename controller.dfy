/** The parts of `Controller.java` that compute rather than display: the
    line loop of `load`, which assembles a program from the lines of a file,
    the unsigned rendering `string_value`, the memory-address label, and
    the rule that picks the highlighted instruction from the program
    counter. */
module Controller {
  import opened Wrappers
  import opened JavaNumbers
  import opened Instructions
  import opened InstructionProperties

  // ---------------------------------------------------------------------
  // Loading a program

  /** The message `load` prints for a line the assembler rejects: the line
      as read and its 1-based number in the file. */
  datatype Diagnostic = Diagnostic(text: string, lineNumber: nat)

  /** The program assembled from `lines` by the assembler `parse`: every
      non-empty line that parses, in file order. The rule does not depend on
      how a line is decoded, so it is stated for any assembler; `load`
      uses `Parse`. */
  function Program(parse: string -> Result<Instruction>, lines: seq<string>): seq<Instruction>
    decreases |lines|
  {
    if lines == [] then []
    else
      var before, line := Program(parse, lines[..|lines| - 1]), lines[|lines| - 1];
      if line == [] then before
      else
        match parse(line)
        case Ok(instruction) => before + [instruction]
        case Err => before
  }

  /** The diagnostics printed while loading `lines`: one per non-empty line
      that does not parse, numbered by its position among all lines. */
  function Diagnostics(parse: string -> Result<Instruction>, lines: seq<string>): seq<Diagnostic>
    decreases |lines|
  {
    if lines == [] then []
    else
      var before, line := Diagnostics(parse, lines[..|lines| - 1]), lines[|lines| - 1];
      if line == [] || parse(line).Ok? then before
      else before + [Diagnostic(line, |lines|)]
  }

  /** The line loop of `load`, over lines already read: the counter is
      bumped before the empty-line test, so it numbers every line read;
      an accepted line is appended, a rejected one is reported and
      skipped. */
  method Load(lines: seq<string>) returns (instructions: seq<Instruction>, diagnostics: seq<Diagnostic>)
    ensures instructions == Program(Parse, lines)
    ensures diagnostics == Diagnostics(Parse, lines)
  {
    instructions := [];
    diagnostics := [];
    var i := 0;
    while i < |lines|
      invariant 0 <= i <= |lines|
      invariant instructions == Program(Parse, lines[..i])
      invariant diagnostics == Diagnostics(Parse, lines[..i])
    {
      var line := lines[i];
      i := i + 1;
      assert lines[..i][..i - 1] == lines[..i - 1];
      if |line| == 0 {
        continue;
      }
      match Parse(line)
      case Ok(instruction) =>
        instructions := instructions + [instruction];
      case Err =>
        diagnostics := diagnostics + [Diagnostic(line, i)];
    }
    assert lines[..i] == lines;
  }

  /** A line `load` hands to the assembler and keeps. */
  predicate Accepted(parse: string -> Result<Instruction>, line: string) {
    line != [] && parse(line).Ok?
  }

  /** A line `load` hands to the assembler and reports. */
  predicate Rejected(parse: string -> Result<Instruction>, line: string) {
    line != [] && parse(line).Err?
  }

  /** The positions of the accepted lines, in increasing order. */
  function AcceptedIndices(parse: string -> Result<Instruction>, lines: seq<string>): (idx: seq<nat>)
    ensures forall k :: 0 <= k < |idx| ==> idx[k] < |lines| && Accepted(parse, lines[idx[k]])
    decreases |lines|
  {
    if lines == [] then []
    else
      var before := AcceptedIndices(parse, lines[..|lines| - 1]);
      if Accepted(parse, lines[|lines| - 1]) then before + [|lines| - 1] else before
  }

  /** The accepted positions are strictly increasing and are exactly the
      positions of the accepted lines. */
  lemma {:induction false} AcceptedIndicesExact(parse: string -> Result<Instruction>, lines: seq<string>)
    ensures forall j, k :: 0 <= j < k < |AcceptedIndices(parse, lines)| ==>
      AcceptedIndices(parse, lines)[j] < AcceptedIndices(parse, lines)[k]
    ensures forall i :: 0 <= i < |lines| ==>
      (Accepted(parse, lines[i]) <==> i in AcceptedIndices(parse, lines))
    decreases |lines|
  {
    if lines != [] {
      var prefix := lines[..|lines| - 1];
      AcceptedIndicesExact(parse, prefix);
      forall i | 0 <= i < |prefix| ensures lines[i] == prefix[i] { }
      var before := AcceptedIndices(parse, prefix);
      if Accepted(parse, lines[|prefix|]) {
        var idx := before + [|prefix|];
        assert AcceptedIndices(parse, lines) == idx;
        forall j, k | 0 <= j < k < |idx| ensures idx[j] < idx[k] {
          assert idx[j] == before[j] < |prefix|;
          if k < |before| {
            assert idx[k] == before[k];
          }
        }
      }
    }
  }

  /** The program is the order-preserving subsequence of the accepted
      lines: its `k`-th instruction is the decoding of the `k`-th accepted
      line. */
  lemma {:induction false} ProgramIsAcceptedLines(parse: string -> Result<Instruction>, lines: seq<string>)
    ensures |Program(parse, lines)| == |AcceptedIndices(parse, lines)|
    ensures forall k :: 0 <= k < |AcceptedIndices(parse, lines)| ==>
      Program(parse, lines)[k] == parse(lines[AcceptedIndices(parse, lines)[k]]).value
    decreases |lines|
  {
    if lines != [] {
      var prefix := lines[..|lines| - 1];
      ProgramIsAcceptedLines(parse, prefix);
      var idx := AcceptedIndices(parse, prefix);
      forall k | 0 <= k < |idx| ensures lines[idx[k]] == prefix[idx[k]] { }
    }
  }

  /** Diagnostic `d` reports line `d.lineNumber` (counting from 1) of
      `lines`, which is non-empty and rejected. */
  predicate ReportsLine(parse: string -> Result<Instruction>, lines: seq<string>, d: Diagnostic) {
    1 <= d.lineNumber <= |lines| && lines[d.lineNumber - 1] == d.text && Rejected(parse, d.text)
  }

  /** Every diagnostic names a rejected line by its 1-based number and
      its text. */
  lemma {:induction false} DiagnosticsAreRejectedLines(parse: string -> Result<Instruction>, lines: seq<string>)
    ensures forall k :: 0 <= k < |Diagnostics(parse, lines)| ==>
      ReportsLine(parse, lines, Diagnostics(parse, lines)[k])
    decreases |lines|
  {
    if lines != [] {
      var prefix := lines[..|lines| - 1];
      DiagnosticsAreRejectedLines(parse, prefix);
      forall i | 0 <= i < |prefix| ensures lines[i] == prefix[i] { }
      var before := Diagnostics(parse, prefix);
      var line := lines[|prefix|];
      if line != [] && parse(line).Err? {
        var ds := before + [Diagnostic(line, |lines|)];
        assert Diagnostics(parse, lines) == ds;
        forall k | 0 <= k < |ds| ensures ReportsLine(parse, lines, ds[k]) {
          if k < |before| {
            assert ds[k] == before[k] && ReportsLine(parse, prefix, before[k]);
          }
        }
      } else {
        forall k | 0 <= k < |before| ensures ReportsLine(parse, lines, before[k]) {
          assert ReportsLine(parse, prefix, before[k]);
        }
      }
    }
  }

  /** Diagnostics come in the order of the lines: their numbers increase. */
  lemma {:induction false} DiagnosticsInLineOrder(parse: string -> Result<Instruction>, lines: seq<string>)
    ensures forall j, k :: 0 <= j < k < |Diagnostics(parse, lines)| ==>
      Diagnostics(parse, lines)[j].lineNumber < Diagnostics(parse, lines)[k].lineNumber
    decreases |lines|
  {
    if lines != [] {
      var prefix := lines[..|lines| - 1];
      DiagnosticsInLineOrder(parse, prefix);
      var before := Diagnostics(parse, prefix);
      var line := lines[|prefix|];
      if line != [] && parse(line).Err? {
        DiagnosticsAreRejectedLines(parse, prefix);
        var ds := before + [Diagnostic(line, |lines|)];
        assert Diagnostics(parse, lines) == ds;
        forall j, k | 0 <= j < k < |ds| ensures ds[j].lineNumber < ds[k].lineNumber {
          assert ds[j] == before[j] && ReportsLine(parse, prefix, before[j]);
          if k < |before| {
            assert ds[k] == before[k];
          }
        }
      }
    }
  }

  /** Every rejected non-empty line is reported, with its text and its
      1-based number. */
  lemma {:induction false} RejectedLinesReported(parse: string -> Result<Instruction>, lines: seq<string>)
    ensures forall i :: 0 <= i < |lines| && Rejected(parse, lines[i]) ==>
      Diagnostic(lines[i], i + 1) in Diagnostics(parse, lines)
    decreases |lines|
  {
    if lines != [] {
      var prefix := lines[..|lines| - 1];
      RejectedLinesReported(parse, prefix);
      forall i | 0 <= i < |prefix| ensures lines[i] == prefix[i] { }
    }
  }

  /** The number of non-empty lines: none exactly when every line is
      empty, all of them exactly when no line is. */
  function NonEmptyCount(lines: seq<string>): (n: nat)
    ensures n <= |lines|
    ensures n == 0 <==> forall i :: 0 <= i < |lines| ==> lines[i] == []
    ensures n == |lines| <==> forall i :: 0 <= i < |lines| ==> lines[i] != []
    decreases |lines|
  {
    if lines == [] then 0
    else NonEmptyCount(lines[..|lines| - 1]) + (if lines[|lines| - 1] == [] then 0 else 1)
  }

  /** Every non-empty line ends up either in the program or in a
      diagnostic, never both. */
  lemma {:induction false} EveryLineAccountedFor(parse: string -> Result<Instruction>, lines: seq<string>)
    ensures |Program(parse, lines)| + |Diagnostics(parse, lines)| == NonEmptyCount(lines)
    decreases |lines|
  {
    if lines != [] {
      EveryLineAccountedFor(parse, lines[..|lines| - 1]);
    }
  }

  /** A line of nothing but spaces and commas is not skipped as empty: it
      reaches the assembler, fails, and is reported. */
  lemma BlankLineReported(lines: seq<string>, i: nat)
    requires i < |lines| && lines[i] != []
    requires forall j :: 0 <= j < |lines[i]| ==> lines[i][j] == ' ' || lines[i][j] == ','
    ensures Diagnostic(lines[i], i + 1) in Diagnostics(Parse, lines)
  {
    BlankLineFails(lines[i]);
    RejectedLinesReported(Parse, lines);
  }

  // ---------------------------------------------------------------------
  // Display helpers

  const TwoTo32 := 0x1_0000_0000

  /** `string_value`: the decimal digits of `b` read as an unsigned 32-bit
      number (`b & 0xffffffffL` printed with `%d`). */
  function StringValue(b: Int32): (s: string)
    ensures s != []
    ensures forall i :: 0 <= i < |s| ==> '0' <= s[i] <= '9'
    ensures s[0] == '0' <==> b == 0
  {
    NatToDigits(b % TwoTo32, 10)
  }

  /** The digits of `string_value(b)` read back give `b` modulo 2^32: `b`
      itself when it is not negative, `b + 2^32` when it is. */
  lemma StringValueIsUnsigned(b: Int32)
    ensures ParseDigits(StringValue(b), 10) == Some(if b >= 0 then b else b + TwoTo32)
    ensures ParseDigits(StringValue(b), 10).value < TwoTo32
  {
    ParseDigitsOfNatToDigits(b % TwoTo32, 10);
  }

  /** The label of memory word `index`: the index cut to a `short`, then
      rendered by `string_value`. */
  function MemoryAddressLabel(index: Int32): (s: string) {
    StringValue(ToShort(index))
  }

  /** Word indices below 2^15 are shown as they are; indices in
      2^15..2^16-1 wrap to negative `short`s and are shown as the unsigned
      reading of that negative value. */
  lemma MemoryAddressLabelValue(index: Int32)
    ensures 0 <= index < 0x8000 ==> ParseDigits(MemoryAddressLabel(index), 10) == Some(index)
    ensures 0x8000 <= index < 0x1_0000 ==>
      ParseDigits(MemoryAddressLabel(index), 10) == Some(index + TwoTo32 - 0x1_0000)
  {
    StringValueIsUnsigned(ToShort(index));
  }

  /** The instruction `refresh` highlights for program counter `pc` in a
      program of `size` instructions: `pc / 4` with Java's truncating
      division, or no selection when that index is not below `size`. */
  function HighlightIndex(pc: Int32, size: nat): (r: Option<int>)
    ensures r.Some? ==> r.value < size
    ensures pc >= 0 ==> (r.Some? <==> pc < 4 * size)
    ensures pc >= 0 && r.Some? ==> 0 <= 4 * r.value <= pc < 4 * r.value + 4
  {
    var index := JavaDiv(pc, 4);
    if index >= size then None else Some(index)
  }

  /** A word-aligned program counter highlights the instruction it
      addresses. */
  lemma HighlightAligned(k: nat, size: nat)
    requires 4 * k < 0x8000_0000
    ensures HighlightIndex(4 * k, size) == if k < size then Some(k) else None
  {
  }

  /** A negative program counter is not cleared: division truncates toward
      zero, so -3..-1 select instruction 0 and anything lower gives a
      negative index. */
  lemma HighlightNegative(pc: Int32, size: nat)
    requires pc < 0 && size > 0
    ensures -4 < pc ==> HighlightIndex(pc, size) == Some(0)
    ensures pc <= -4 ==> HighlightIndex(pc, size).Some? && HighlightIndex(pc, size).value < 0
  {
  }
}
