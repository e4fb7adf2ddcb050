# MIPS simulator assembler, in Dafny

This project models the assembler of a small MIPS simulator written in Java,
and proves properties of the model.

- `Instruction.java` turns one line of assembly text into an instruction record. It:
  - strips commas;
  - splits the line on spaces;
  - decodes the mnemonic with a case-insensitive ladder of eighteen names;
  - reads up to three operands with `parseReg2`, `parseAddr`, `parseOffset` and `parseReg1`.
- `Controller.java`: the computing parts only.
  - The line loop of `load`. It assembles a program from the lines of a file and reports each rejected line with its 1-based number.
  - `string_value`. It shows a 32-bit word as an unsigned decimal.
  - The memory-address label.
  - The rule that picks the instruction to highlight from the program counter.

The modules follow the program:

- `Wrappers`: `Option` and `Result`. A Java exception becomes `Err`.
- `JavaNumbers`: the Java integer behaviour the assembler relies on.
  - `short` and `int` ranges.
  - The wrap-around of `(short)` casts and of `short +=`.
  - `Integer.parseInt` and `Short.parseShort`.
  - Truncating `int` division.
  - Decimal and hexadecimal renderings, which serve as the inverses of parsing.
- `JavaText`: the string operations the assembler uses.
  - `replaceAll(",", "")`.
  - `StringTokenizer` with the single delimiter space.
  - `indexOf`.
  - `equalsIgnoreCase` against an ASCII key.
- `Instructions`: `Instruction.java` as pure functions.
  - The record is a flat datatype. Its fields are the getters.
  - The mnemonic ladder is the table `Mnemonics`, searched first match first.
  - The named registers of `parseReg2` are the table `NamedRegisters`.
  - `Parse(line)` is the constructor.
- `InstructionProperties`: what a whole line decodes to.
  - One lemma per category of mnemonic.
  - The behaviour of commas, blank lines and extra tokens.
  - Worked examples.
- `Controller`: the line loop as a `method` with a `while` loop, proved against the functions `Program` and `Diagnostics`; the display rules as functions.

Some of the assembler's behaviour is easy to miss. The model keeps it as the code has it:

- A mnemonic that is not in the table is not a parse failure. The line decodes to a record whose flags are all false and whose numbers are all 0, and `load` keeps it in the program.
- A missing operand token is the empty string, not an absent one.
  - A missing register therefore makes the line fail, because `charAt(0)` throws.
  - For `nop` and `exit`, a missing operand is ignored.
- Lines are split on the space character only. A tab is part of a token.
- Register numbers are not range-checked. `$r100` is slot 116, and `$s32767` wraps to a negative `short`.
- The immediate of an I-type instruction is read by `parseReg2`, so a register name is accepted there.
- An operand without `$` is read as a number wherever a register is expected.
- A register inside `offset(...)` that does not parse is not an error. `rs` becomes 0.
- A line of nothing but spaces and commas is not skipped as blank. The assembler rejects it and `load` reports it.

## Model

| member | source | states |
|---|---|---|
| JavaNumbers.ToShort | src/Instruction.java:164-176 | `short +=` and `(short)` keep the value modulo 2^16 in the `short` range; values already in range are unchanged, and values one range above or below wrap by 2^16 |
| JavaNumbers.JavaDiv | src/Controller.java:44 | Java `int` division truncates toward zero: bounds of the quotient for non-negative and negative dividends |
| JavaNumbers.DigitValue | src/Instruction.java:138-141 | `Character.digit`: `0`-`9` are 0-9, `a`-`z` and `A`-`Z` are both 10-35, each only when below the radix; every other character, and a digit too large for the radix, is -1 |
| JavaNumbers.DigitChar | src/Instruction.java:138-141 | the digit character for `d` reads back as `d` in every radix above `d`, and is no separator, sign, `$`, parenthesis or (below 16) `x` |
| JavaNumbers.ParseDigits | src/Instruction.java:138-141 | reads a string of digits most significant first; its contract is carried by `ParseDigitsFailsOnNonDigit`, `ParseDigitsOfNatToDigits`, `ParseDigitsLeadingZeros` and `ParseDigitsByValue` |
| JavaNumbers.ParseDigitsFailsOnNonDigit | src/Instruction.java:138-141 | reading digits fails exactly when some character is not a digit of the radix |
| JavaNumbers.ParseInt | src/Instruction.java:138-141 | `Integer.parseInt`; its contract is carried by `ParseRejectsNonNumeral`, `ParseIntOfSpelling` and `ParseIntOfDecimal` |
| JavaNumbers.ParseRejectsNonNumeral | src/Instruction.java:138-141 | `Integer.parseInt` and `Short.parseShort` throw on every string that is not an optional sign followed by at least one digit of the radix; on a numeral, the digits always read, so only the range can fail |
| JavaNumbers.ParseShort | src/Instruction.java:138-141 | `Short.parseShort`; its contract is carried by `ParseRejectsNonNumeral`, `ParseShortOfSpelling`, `ParseShortOfDecimal` and `ParseShortOfHex` |
| JavaNumbers.NatToDigits | src/Controller.java:72-74 | the rendering of a number is non-empty, all digits of the radix, free of separators and signs, and starts with `0` only for zero |
| JavaNumbers.ParseDigitsOfNatToDigits | src/Instruction.java:138-141 | reading back the digits of `n` gives `n` |
| JavaNumbers.IntToDecimal | src/Instruction.java:141 | Java's decimal rendering is non-empty, starts with `-` or a digit, and has no space, comma, `x`, `$` or parenthesis |
| JavaNumbers.ParseIntOfDecimal | src/Instruction.java:141 | `Integer.parseInt` reads back every decimal rendering in the `int` range and rejects every one outside it |
| JavaNumbers.ParseShortOfDecimal | src/Instruction.java:141 | `Short.parseShort` reads back exactly the decimal renderings of the `short` range |
| JavaNumbers.ParseShortOfHex | src/Instruction.java:138-139 | base-16 parsing reads back the lower-case hex rendering of every `n` without leading zeros when `n` is below 2^15, and rejects it for larger `n` |
| JavaNumbers.ParseDigitsLeadingZero | src/Instruction.java:138-141 | a leading `0` does not change the value of a digit string |
| JavaNumbers.ParseDigitsLeadingZeros | src/Instruction.java:138-141 | any number of leading zeros does not change the value of a digit string |
| JavaNumbers.ParseDigitsByValue | src/Instruction.java:138-141 | two digit strings with the same digit value at every position read alike, so upper- and lower-case digits are interchangeable |
| JavaNumbers.PaddedDigitsValue | src/Instruction.java:138-141 | leading zeros followed by any-case digits of `n` read as `n` and start with a digit |
| JavaNumbers.ParseIntSigned | src/Instruction.java:138-141 | after no sign or `+` the digits' value is the result, after `-` its negation, each only inside the `int` range |
| JavaNumbers.ParseIntOfSpelling | src/Instruction.java:138-141 | every spelling of `n` (optional `+` or `-`, leading zeros, digits in either case) reads as its signed value inside the `int` range and fails outside it |
| JavaNumbers.ParseShortOfSpelling | src/Instruction.java:138-141 | the same for `Short.parseShort` and the `short` range |
| JavaText.RemoveCommas | src/Instruction.java:20 | the result has no comma, and a comma-free line is unchanged |
| JavaText.RemoveCommasKeepsOthers | src/Instruction.java:20 | every character other than a comma occurs as often after the removal as before |
| JavaText.RemoveCommasAppend | src/Instruction.java:20 | comma removal distributes over concatenation |
| JavaText.IndexOf | src/Instruction.java:97 | `indexOf` is -1 exactly when the character is absent, and otherwise the position of its first occurrence |
| JavaText.IndexOfAfter | src/Instruction.java:124 | the first occurrence of `c` right after a prefix free of `c` is at the prefix's length |
| JavaText.Tokens | src/Instruction.java:21-29 | every token is non-empty and space-free, and there are no tokens exactly when the line is all spaces |
| JavaText.TokensOfJoin | src/Instruction.java:21-29 | tokenising words joined by single spaces gives back exactly those words |
| JavaText.JoinCommaFree | src/Instruction.java:20-21 | comma-free words joined by spaces form a comma-free line |
| JavaText.TokensSkipSpace | src/Instruction.java:21 | leading spaces do not change the tokens |
| JavaText.TokensSplitAtSpace | src/Instruction.java:21-29 | a space splits a line into two parts tokenised separately, whatever spaces either part holds; with `TokensOfWord` this fixes the tokens of every line |
| JavaText.TokensOfWord | src/Instruction.java:21-29 | a non-empty space-free word is a single token |
| JavaText.TokensOfSpacedWords | src/Instruction.java:21-29 | two spaces between words and a trailing space add no tokens |
| JavaText.TokensExample | src/Instruction.java:21-29 | `j  4 ` gives exactly the tokens `j` and `4` |
| JavaText.Fold | src/Instruction.java:31-33 | ASCII capitals fold to lower case, and other ASCII characters are unchanged |
| JavaText.FoldAll | src/Instruction.java:31-91 | folding keeps the length and folds each character |
| JavaText.EqualsIgnoreCase | src/Instruction.java:31-91 | `equalsIgnoreCase` against an ASCII key; its contract is carried by `EqualsIgnoreCaseIsFoldedEquality` and `EqualsLowerCaseKey` |
| JavaText.EqualsIgnoreCaseIsFoldedEquality | src/Instruction.java:31-91 | `equalsIgnoreCase` holds exactly when the folded strings are equal |
| JavaText.EqualsLowerCaseKey | src/Instruction.java:146-157 | against a lower-case ASCII key, `equalsIgnoreCase` holds exactly when the folded token equals the key |
| Instructions.CategoriesExclusive | src/Instruction.java:95-118 | for a header the ladder can set, the flag or opcode test of exactly one category holds, and it is the category whose operand branch is taken |
| Instructions.LookupIgnoreCase | src/Instruction.java:31-91 | the `equalsIgnoreCase` ladder as a first-match table search; its contract is carried by `LookupFindsEntry`, `LookupListed`, `LookupUnlisted` and `LookupIgnoresCase` |
| Instructions.LookupFindsEntry | src/Instruction.java:31-91 | a case-insensitive table lookup returns a listed value or the default |
| Instructions.LookupListed | src/Instruction.java:31-91 | in a table of distinct lower-case keys, a token whose folded form is the `k`-th key finds the `k`-th value |
| Instructions.LookupUnlisted | src/Instruction.java:31-91 | a token whose folded form is no key falls through to the default |
| Instructions.LookupIgnoresCase | src/Instruction.java:31-91 | tokens with the same folded form find the same value |
| Instructions.MnemonicHeadersWellFormed | src/Instruction.java:31-91 | every mnemonic sets the flags of exactly one category, with the code its category uses |
| Instructions.MnemonicsWellFormed | src/Instruction.java:31-91 | the eighteen mnemonics are lower case and pairwise different, so the order of the ladder does not matter |
| Instructions.MnemonicKeysLowerCase | src/Instruction.java:31-91 | every mnemonic is written in lower-case ASCII |
| Instructions.Decode | src/Instruction.java:31-91 | the mnemonic ladder; its contract is carried by `DecodeWellFormed`, `DecodeListedMnemonic`, `DecodeUnlistedMnemonic` and `DecodeIgnoresCase` |
| Instructions.DecodeWellFormed | src/Instruction.java:31-91 | every decoded header sets at most one category's flags, and codes only from that category's table |
| Instructions.DecodeListedMnemonic | src/Instruction.java:31-91 | a token matching a mnemonic in any case decodes to that mnemonic's flags and code |
| Instructions.DecodeUnlistedMnemonic | src/Instruction.java:31-91 | a token matching no mnemonic decodes to the all-zero header |
| Instructions.DecodeIgnoresCase | src/Instruction.java:31-91 | decoding depends only on the folded token |
| Instructions.DecodeExamples | src/Instruction.java:58-74 | `lw` is opcode 35 and `addi` is I-type opcode 32 |
| Instructions.DecodeCaseExamples | src/Instruction.java:31-91 | `ADD` is R-type 32, `Exit` is the exit flag, and `move` is the all-zero header |
| Instructions.RegisterSlot | src/Instruction.java:160-181 | the letter after `$`: `v`, `a` and `s` add 2, 4 and 16 with `short` wrap-around; `r` adds 8, then 8 more once the sum reaches 16; any other letter fails |
| Instructions.ParseAddr | src/Instruction.java:136-142 | `parseAddr`; its contract is carried by `ParseAddrAfterX`, `ParseAddrWithoutX`, `ParseAddrHexSpelling`, `ParseAddrDecimal`, `ParseAddrHex`, `UpperCaseHexRejected` and `ParseAddrEmptyExamples` |
| Instructions.ParseOffset | src/Instruction.java:123-125 | `parseOffset`; its contract is carried by `OffsetBeforeOpen`, `MemoryOffset` and `LoadStoreOffsetOperands` |
| Instructions.ParseReg1 | src/Instruction.java:128-134 | `parseReg1`; its contract is carried by `BaseBetweenParentheses`, `MemoryBase`, `UnclosedMemoryOperand` and `ReversedParentheses` |
| Instructions.ParseReg2 | src/Instruction.java:144-187 | `parseReg2`; its contract is carried by `NamedRegisterSlot`, `LetterRegister`, `TooShortRegisters`, `UnknownRegisterLetter`, `BadRegisterNumber` and `NumericRegister` |
| Instructions.NamedRegister | src/Instruction.java:146-158 | the named-register ladder; its contract is carried by `NamedRegisterSlot` and `NotNamedRegister` |
| Instructions.ParseAddrDecimal | src/Instruction.java:136-141 | a decimal literal reads back exactly when it is in the `short` range |
| Instructions.ParseAddrHex | src/Instruction.java:137-139 | any prefix without `x`, then `x` and the lower-case hex rendering of `n` without leading zeros, reads as `n` when `n` is at most 2^15-1, and fails above |
| Instructions.ParseAddrHexExamples | src/Instruction.java:137-139 | `0xF` is 15, and in `-0x5` the sign goes with the prefix, giving 5 |
| Instructions.UpperCaseHexRejected | src/Instruction.java:137-141 | `0XF` is not hexadecimal and fails as a decimal |
| Instructions.ParseAddrEmptyExamples | src/Instruction.java:136-141 | the empty literal and a lone `x` fail |
| Instructions.ParseAddrAfterX | src/Instruction.java:137-139 | a literal with an `x` is `Short.parseShort` in base 16 of the text after its first `x`, whatever precedes it |
| Instructions.ParseAddrWithoutX | src/Instruction.java:141 | a literal without `x` is `Short.parseShort` in base 10 |
| Instructions.ParseAddrHexSpelling | src/Instruction.java:137-139 | after an `x`, any sign, leading zeros and any-case hex digits of `n` read as the signed value inside the `short` range and fail outside it |
| Instructions.ParseAddrUpperHexExample | src/Instruction.java:137-139 | `0xFF` is 255 |
| Instructions.ParseAddrPaddedHexExample | src/Instruction.java:137-139 | `0x00ff` is 255 |
| Instructions.ParseAddrSignedHexExample | src/Instruction.java:137-139 | `0x-5` is -5 |
| Instructions.ParseAddrDecimalSpellingExamples | src/Instruction.java:141 | `+5` is 5 and `007` is 7 |
| Instructions.NamedRegistersWellFormed | src/Instruction.java:146-157 | the six register names are lower case and pairwise different |
| Instructions.NamedRegisterSlot | src/Instruction.java:145-158 | a token matching a register name in any case gives that name's slot |
| Instructions.NotNamedRegister | src/Instruction.java:146-158 | a token matching no register name is looked up as no name |
| Instructions.LetterRegister | src/Instruction.java:159-183 | `$`, any character and any text that `Short.parseShort` reads as `n` (a sign, leading zeros) give exactly that character's slot rule applied to `n` |
| Instructions.LetterRegisterDecimal | src/Instruction.java:159-183 | in particular for `n` written in decimal |
| Instructions.PaddedRegisterExamples | src/Instruction.java:161-174 | `$r08` and `$r+8` are slot 24, like `$r8` |
| Instructions.TooShortRegisters | src/Instruction.java:145-161 | the empty token and a lone `$` fail |
| Instructions.UnknownRegisterLetter | src/Instruction.java:179-180 | after `$`, a letter other than `v`, `a`, `r`, `s` fails unless the token is a register name |
| Instructions.BadRegisterNumber | src/Instruction.java:160-161 | after `$` and any letter, a suffix that `Short.parseShort` rejects makes the token fail, unless the token is a register name |
| Instructions.BadRegisterNumberExamples | src/Instruction.java:160-161 | `$r` and `$rx` fail |
| Instructions.OutOfRangeRegisterExample | src/Instruction.java:160-161 | `$r32768` fails: the number does not fit in a `short` |
| Instructions.NumericRegister | src/Instruction.java:186 | a token not starting with `$` is read as an address literal |
| Instructions.RegisterExamples | src/Instruction.java:169-174 | `$r0` is slot 8 and `$r1` is slot 9 |
| Instructions.HighRegisterExample | src/Instruction.java:169-174 | `$r8` is slot 24 |
| Instructions.NamedRegisterExamples | src/Instruction.java:146-158 | `$zero` is 0, and `$RA` is 31 because the case is ignored |
| Instructions.UnknownNameRejected | src/Instruction.java:160-180 | `$bogus` fails |
| Instructions.UpperCaseLetterRejected | src/Instruction.java:162-180 | the register letter is case-sensitive: `$V0` fails |
| Instructions.MemoryOperand | src/Instruction.java:123-134 | in `offset(reg)rest`, `parseOffset` reads `offset` and `parseReg1` reads `reg`, or 0 when `reg` fails |
| Instructions.MemoryOffset | src/Instruction.java:123-125 | `parseOffset` of `offset(reg)rest` is `parseAddr(offset)` |
| Instructions.MemoryBase | src/Instruction.java:128-134 | `parseReg1` of `offset(reg)rest` is the slot of `reg`, or 0 when it fails |
| Instructions.BaseBetweenParentheses | src/Instruction.java:128-134 | `parseReg1` reads the text between the first `(` and the first `)`, and swallows its failure as 0 |
| Instructions.MemoryOperandParts | src/Instruction.java:124 | where the parentheses of `offset(reg)rest` are, and which text lies before and between them |
| Instructions.CloseAfterRegister | src/Instruction.java:130 | the first `)` of `offset(reg)rest` is the one after `reg` |
| Instructions.UnclosedMemoryOperand | src/Instruction.java:128-134 | an operand with `(` but no `)` gives slot 0, not an error |
| Instructions.ReversedParentheses | src/Instruction.java:128-134 | a `)` before the first `(` makes `substring` throw inside the `try`, giving slot 0 |
| Instructions.OffsetBeforeOpen | src/Instruction.java:123-125 | `parseOffset` reads the text before the first `(`, whether or not a `)` follows |
| Instructions.ParseOperands | src/Instruction.java:94-118 | operand fields the category does not write stay 0, and `nop`, `exit` and unknown mnemonics read no operand at all |
| Instructions.LoadStoreWithOffset | src/Instruction.java:95-99 | `lw`/`sw` with `(`: `rt` from `t1`, `rs` from `parseReg1`, `imm` from `parseOffset`; only `t1` and the offset can fail |
| Instructions.LoadStoreWithoutOffset | src/Instruction.java:100-103 | `lw`/`sw` without `(`: `rt` from `t1`, `rs` from `t2`, `imm` = 0 |
| Instructions.ParseWellFormed | src/Instruction.java:17-118 | a decoded record keeps the line as written, has one category's flags at most, and has 0 in every field its category does not write |
| Instructions.Parse | src/Instruction.java:17-118 | `new Instruction(line)`; its contract is carried by `ParseWellFormed` and the whole-line lemmas of `InstructionProperties` |
| InstructionProperties.ParseOfWords | src/Instruction.java:20-29 | a line of comma-free words joined by single spaces tokenises to exactly those words |
| InstructionProperties.RTypeOperands | src/Instruction.java:104-107 | an R-type line gives `rd`, `rs`, `rt` from the three operands, and fails when any of them fails |
| InstructionProperties.ITypeOperands | src/Instruction.java:108-111 | an I-type line gives `rs`, `rt` and `imm` from the three operands, all read by `parseReg2`; `rd` = 0 |
| InstructionProperties.JumpOperands | src/Instruction.java:112-113 | `j` gives `imm` = `parseAddr(t1)`; the other fields stay 0 |
| InstructionProperties.BranchOperands | src/Instruction.java:114-117 | `beq` gives `rs`, `rt` from registers and `imm` from `parseAddr(t3)` |
| InstructionProperties.LoadStoreOffsetOperands | src/Instruction.java:95-99 | `lw`/`sw` with `offset(reg)`: `imm` is the offset and must parse; `rs` is the register, or 0 |
| InstructionProperties.LoadStoreBareOperands | src/Instruction.java:100-103 | `lw`/`sw` with a bare register: `rt`, `rs` from the two operands, `imm` = 0 |
| InstructionProperties.NopAndExitIgnoreOperands | src/Instruction.java:85-91 | `nop` and `exit` decode to their flag alone, whatever follows |
| InstructionProperties.UnknownMnemonic | src/Instruction.java:31-91 | an unlisted mnemonic gives the all-zero record, not a failure |
| InstructionProperties.BlankLineFails | src/Instruction.java:20-24 | a line of only spaces and commas throws at the first `nextToken` |
| InstructionProperties.CommasIgnored | src/Instruction.java:20 | a line decodes like the same line without commas, keeping its own text |
| InstructionProperties.ExtraTokensIgnored | src/Instruction.java:22-29 | only the first four tokens are read: lines that agree on them decode alike |
| InstructionProperties.CommaSeparatedWords | src/Instruction.java:20-21 | words separated by `, ` tokenise to exactly those words |
| InstructionProperties.CommaJoinRemovesCommas | src/Instruction.java:20 | removing commas from words joined by `, ` leaves them joined by spaces |
| InstructionProperties.RemoveSeparatorComma | src/Instruction.java:20 | the `, ` separator loses its comma and keeps its space |
| InstructionProperties.AddImmediateLine | src/Instruction.java:108-111 | `addi $r0 $zero 0xF` is I-type 32 with `rs` = 8, `rt` = 0, `imm` = 15 |
| InstructionProperties.AddImmediateWords | src/Instruction.java:58-60 | the mnemonic and operand words of that line decode to I-type 32, 8, 0 and 15 |
| InstructionProperties.AddImmediateWithCommas | src/Instruction.java:17-29 | the literal line `addi, $r0, $zero, 0xF` decodes to the same record, keeping its text |
| InstructionProperties.AddImmediateCommaTokens | src/Instruction.java:20-21 | that line tokenises to its four words |
| InstructionProperties.RegisterAsImmediate | src/Instruction.java:108-111 | a register name in the immediate position is accepted: `$r1` gives `imm` = 9 |
| InstructionProperties.UpperCaseMnemonic | src/Instruction.java:104-107 | `ADD $r8 $r1 $RA` is R-type 32 with `rd` = 24, `rs` = 9, `rt` = 31 |
| InstructionProperties.UpperCaseWords | src/Instruction.java:31-33 | the words of that line decode to R-type 32, 24, 9 and 31 |
| InstructionProperties.UnknownBaseRegister | src/Instruction.java:128-134 | `lw $r1 4($bogus)` is accepted with `rs` = 0 |
| InstructionProperties.UnknownBaseWords | src/Instruction.java:160-180 | the words of that line: `lw` is 35, `$r1` is 9, `4` is 4, and `$bogus` fails |
| InstructionProperties.MissingOffset | src/Instruction.java:123-124 | `lw $r1 ($r2)` fails: the empty offset is not a number |
| InstructionProperties.MissingOffsetWords | src/Instruction.java:136-141 | `lw` is 35 and the empty literal fails |
| Controller.Program | src/Controller.java:143-155 | the instructions `load` keeps; its contract is carried by `ProgramIsAcceptedLines`, `AcceptedIndicesExact` and `EveryLineAccountedFor` |
| Controller.Diagnostics | src/Controller.java:143-155 | the lines `load` reports; its contract is carried by `DiagnosticsAreRejectedLines`, `DiagnosticsInLineOrder`, `RejectedLinesReported` and `EveryLineAccountedFor` |
| Controller.Load | src/Controller.java:143-155 | the loop assembles exactly `Program(Parse, lines)` and reports exactly `Diagnostics(Parse, lines)` |
| Controller.AcceptedIndices | src/Controller.java:149-151 | each listed position is a line of the file that parses |
| Controller.AcceptedIndicesExact | src/Controller.java:144-151 | the positions increase strictly, and a line is listed exactly when it is non-empty and parses |
| Controller.ProgramIsAcceptedLines | src/Controller.java:149-151 | the `k`-th instruction of the program is the decoded `k`-th accepted line: none is dropped, reordered or invented |
| Controller.DiagnosticsAreRejectedLines | src/Controller.java:152-153 | every diagnostic carries a non-empty rejected line and its 1-based number |
| Controller.DiagnosticsInLineOrder | src/Controller.java:143-145 | diagnostics come in line order, with strictly increasing numbers |
| Controller.RejectedLinesReported | src/Controller.java:144-153 | every non-empty line that fails is reported, with its text and number |
| Controller.NonEmptyCount | src/Controller.java:146-148 | counts the lines `load` hands to the assembler: 0 exactly when every line is empty, and all of them exactly when none is; `EveryLineAccountedFor` ties it to the program and the diagnostics |
| Controller.EveryLineAccountedFor | src/Controller.java:144-155 | instructions plus diagnostics are as many as the non-empty lines; line by line, `AcceptedIndicesExact` and `RejectedLinesReported` say which line goes where |
| Controller.BlankLineReported | src/Controller.java:146-153 | a non-empty line of only spaces and commas is reported, not skipped |
| Controller.StringValue | src/Controller.java:72-74 | `string_value` is a non-empty string of decimal digits, starting with `0` only for zero |
| Controller.StringValueIsUnsigned | src/Controller.java:72-74 | the digits give `b` for non-negative `b` and `b + 2^32` for negative `b`, always below 2^32 |
| Controller.MemoryAddressLabel | src/Controller.java:67 | the label of a memory word; its contract is carried by `MemoryAddressLabelValue` |
| Controller.MemoryAddressLabelValue | src/Controller.java:67 | word indices below 2^15 are shown as they are; indices in 2^15..2^16-1 are shown as `index + 2^32 - 2^16` |
| Controller.HighlightIndex | src/Controller.java:44-49 | the selected index is below the program size; for `pc >= 0` there is a selection exactly when `pc < 4 * size`, and it is the word `pc` falls in |
| Controller.HighlightAligned | src/Controller.java:44-49 | `pc = 4k` selects instruction `k` when it exists, and clears the selection otherwise |
| Controller.HighlightNegative | src/Controller.java:44-49 | a negative `pc` is not cleared: -3..-1 select instruction 0, and lower values give a negative index |

## Left out

- `Processor`, `Register` and `GUI` are not part of this model. The `assert` against `Register.name` at line 182 of `Instruction.java` is therefore not modelled. Java runs with assertions disabled by default, so it does not change decoding.
- Reading the file in `load` is not modelled. The model starts from the lines already read. Opening the file, the null reader left after a failed open, and an `IOException` part-way through the file are left out.
- After the loop, `load` hands the program to the processor, renders it and refreshes the view. These steps are GUI and processor work and are not modelled.
- Diagnostics are returned as a sequence, not printed. The format string of the message is not modelled.
- Threads (`run`, `stop`, `step`, `reset`) and the GUI listener are not modelled, because they only schedule processor work.
- In `refresh`, the register list (line 59) needs `Register.name` and is left out. Only the highlight rule and the memory-address label are modelled.
- `toString` and `representation` only format text for display, so they are not modelled.
- The exception types thrown are not modelled. Every exception is the single error `Err`.
- JavaText.Fold: `equalsIgnoreCase` is exact only when the other side is ASCII. Every key the assembler compares against is ASCII. The fold covers the four non-ASCII characters whose Java case mapping is an ASCII letter. Other Unicode case pairs are not modelled.
- JavaNumbers.DigitValue: `Character.digit` also accepts non-ASCII Unicode digits, such as full-width digits. The model accepts ASCII digits and letters only.
- Strings are sequences of Unicode scalar values, not UTF-16 code units. Surrogate pairs are not modelled.
- Controller.MemoryAddressLabelValue: states the label only for indices in 0..2^16-1. Negative and larger indices go through the same `ToShort` and `StringValue`, whose contracts cover them.
- Controller.StringValue: `String.format("%d", ...)` formats in the default locale, and Java writes the digits in that locale's digit characters. The model assumes a locale whose digits are the ASCII `0`-`9`, as in English; locales with other digits, such as Arabic or Thai, are not modelled.
