/** What `new Instruction(line)` does with a whole line: where each operand
    token lands for each category, what commas, extra tokens, blank lines
    and unknown mnemonics do, and worked examples. */
module InstructionProperties {
  import opened Wrappers
  import opened JavaNumbers
  import opened JavaText
  import opened Instructions

  /** A token as a line spells it: no space and no comma. */
  predicate IsOperandWord(t: string) {
    IsWord(t) && CommaFree(t)
  }

  predicate AllOperandWords(ts: seq<string>) {
    forall k :: 0 <= k < |ts| ==> IsOperandWord(ts[k])
  }

  /** A line made of words joined by single spaces is tokenised back into
      exactly those words. */
  lemma ParseOfWords(ts: seq<string>)
    requires AllOperandWords(ts)
    ensures LineTokens(Join(ts)) == ts
  {
    JoinCommaFree(ts);
    TokensOfJoin(ts);
  }

  /** The mnemonic of a line: its first token. */
  function MnemonicOf(line: string): string
    requires LineTokens(line) != []
  {
    LineTokens(line)[0]
  }

  /** R-type: `t1` is `rd`, `t2` is `rs`, `t3` is `rt`, each read by
      `parseReg2`; `opcode` and `imm` stay 0; any operand that fails, or is
      missing, makes the line fail. */
  lemma RTypeOperands(line: string)
    requires LineTokens(line) != [] && CategoryOf(Decode(MnemonicOf(line))) == RType
    ensures
      var ts := LineTokens(line);
      var a, b, c := ParseReg2(Operand(ts, 1)), ParseReg2(Operand(ts, 2)), ParseReg2(Operand(ts, 3));
      Parse(line) ==
        if a.Ok? && b.Ok? && c.Ok? then
          Ok(Instruction(line, 0, Decode(ts[0]).rTypeOpcode, true, false, false, false,
                         a.value, b.value, c.value, 0))
        else Err
  {
    DecodeWellFormed(MnemonicOf(line));
  }

  /** I-type: `t1` is `rs`, `t2` is `rt` (not the MIPS order), and `t3` is
      the immediate, read by `parseReg2`, so a register name is accepted
      there; `rd` stays 0. */
  lemma ITypeOperands(line: string)
    requires LineTokens(line) != [] && CategoryOf(Decode(MnemonicOf(line))) == IType
    ensures
      var ts := LineTokens(line);
      var a, b, c := ParseReg2(Operand(ts, 1)), ParseReg2(Operand(ts, 2)), ParseReg2(Operand(ts, 3));
      Parse(line) ==
        if a.Ok? && b.Ok? && c.Ok? then
          Ok(Instruction(line, Decode(ts[0]).opcode, 0, false, true, false, false,
                         0, a.value, b.value, c.value))
        else Err
  {
    DecodeWellFormed(MnemonicOf(line));
  }

  /** `j`: `t1` is the target, read by `parseAddr`; every register field
      stays 0 and later tokens are ignored. */
  lemma JumpOperands(line: string)
    requires LineTokens(line) != [] && CategoryOf(Decode(MnemonicOf(line))) == Jump
    ensures
      var a := ParseAddr(Operand(LineTokens(line), 1));
      Parse(line) ==
        if a.Ok? then Ok(Instruction(line, 2, 0, false, false, false, false, 0, 0, 0, a.value))
        else Err
  {
    DecodeWellFormed(MnemonicOf(line));
  }

  /** `beq`: `t1` is `rs`, `t2` is `rt`, both registers, and `t3` is the
      target, read by `parseAddr`. */
  lemma BranchOperands(line: string)
    requires LineTokens(line) != [] && CategoryOf(Decode(MnemonicOf(line))) == Branch
    ensures
      var ts := LineTokens(line);
      var a, b, c := ParseReg2(Operand(ts, 1)), ParseReg2(Operand(ts, 2)), ParseAddr(Operand(ts, 3));
      Parse(line) ==
        if a.Ok? && b.Ok? && c.Ok? then
          Ok(Instruction(line, 4, 0, false, false, false, false, 0, a.value, b.value, c.value))
        else Err
  {
    DecodeWellFormed(MnemonicOf(line));
  }

  /** `lw`/`sw` with an `offset(reg)` operand: `t1` is `rt`, the offset
      before `(` is `imm` and must parse, and the register up to `)` is
      `rs`, or 0 when it does not parse. */
  lemma LoadStoreOffsetOperands(line: string, offset: string, reg: string, rest: string)
    requires |LineTokens(line)| >= 3 && CategoryOf(Decode(MnemonicOf(line))) == LoadStore
    requires LineTokens(line)[2] == offset + "(" + reg + ")" + rest
    requires forall i :: 0 <= i < |offset| ==> offset[i] != '(' && offset[i] != ')'
    requires forall i :: 0 <= i < |reg| ==> reg[i] != ')'
    ensures
      var ts := LineTokens(line);
      var a, off := ParseReg2(ts[1]), ParseAddr(offset);
      var rs := if ParseReg2(reg).Ok? then ParseReg2(reg).value else 0;
      Parse(line) ==
        if a.Ok? && off.Ok? then
          Ok(Instruction(line, Decode(ts[0]).opcode, 0, false, false, false, false,
                         0, rs, a.value, off.value))
        else Err
  {
    var ts := LineTokens(line);
    var h := Decode(ts[0]);
    DecodeWellFormed(ts[0]);
    assert h == OpcodeHeader(h.opcode);
    MemoryOperand(offset, reg, rest);
    assert ts[2][|offset|] == '(';
    LoadStoreWithOffset(h, ts[1], ts[2], Operand(ts, 3));
  }

  /** `lw`/`sw` with a bare register: `t1` is `rt`, `t2` is `rs`, and `imm`
      is 0. */
  lemma LoadStoreBareOperands(line: string)
    requires LineTokens(line) != [] && CategoryOf(Decode(MnemonicOf(line))) == LoadStore
    requires IndexOf(Operand(LineTokens(line), 2), '(') == -1
    ensures
      var ts := LineTokens(line);
      var a, b := ParseReg2(Operand(ts, 1)), ParseReg2(Operand(ts, 2));
      Parse(line) ==
        if a.Ok? && b.Ok? then
          Ok(Instruction(line, Decode(ts[0]).opcode, 0, false, false, false, false,
                         0, b.value, a.value, 0))
        else Err
  {
    var ts := LineTokens(line);
    var h := Decode(ts[0]);
    DecodeWellFormed(ts[0]);
    assert h == OpcodeHeader(h.opcode);
    LoadStoreWithoutOffset(h, Operand(ts, 1), Operand(ts, 2), Operand(ts, 3));
  }

  /** `nop` and `exit` read no operands: whatever follows the mnemonic, the
      line decodes to its flag alone. */
  lemma NopAndExitIgnoreOperands(line: string)
    requires LineTokens(line) != []
    ensures CategoryOf(Decode(MnemonicOf(line))) == Nop ==>
      Parse(line) == Ok(Instruction(line, 0, 0, false, false, false, true, 0, 0, 0, 0))
    ensures CategoryOf(Decode(MnemonicOf(line))) == Exit ==>
      Parse(line) == Ok(Instruction(line, 0, 0, false, false, true, false, 0, 0, 0, 0))
  {
    DecodeWellFormed(MnemonicOf(line));
  }

  /** An unknown mnemonic is not an error: any line whose first token is not
      in the table decodes to a record with every flag false and every
      number 0. */
  lemma UnknownMnemonic(line: string)
    requires LineTokens(line) != []
    requires forall k :: 0 <= k < |Mnemonics| ==> FoldAll(MnemonicOf(line)) != Mnemonics[k].0
    ensures Parse(line) == Ok(Instruction(line, 0, 0, false, false, false, false, 0, 0, 0, 0))
  {
    DecodeUnlistedMnemonic(MnemonicOf(line));
  }

  /** A line of nothing but spaces and commas has no mnemonic and fails. */
  lemma BlankLineFails(line: string)
    requires forall i :: 0 <= i < |line| ==> line[i] == ' ' || line[i] == ','
    ensures Parse(line) == Err
  {
    var r := RemoveCommas(line);
    RemoveCommasKeepsOthers(line);
    forall i | 0 <= i < |r| ensures r[i] == ' ' {
      assert r[i] in multiset(r);
      assert r[i] in multiset(line);
    }
  }

  /** Commas are removed before anything else: a line decodes exactly as the
      same line without its commas, except that the record keeps the text as
      written. */
  lemma CommasIgnored(line: string)
    ensures Parse(line).Ok? == Parse(RemoveCommas(line)).Ok?
    ensures Parse(line).Ok? ==> Parse(line).value == Parse(RemoveCommas(line)).value.(text := line)
  {
  }

  /** Only the first four tokens are read: two lines that agree on them
      (a missing token reads as "") decode alike, and tokens after the fourth
      are ignored. */
  lemma ExtraTokensIgnored(line: string, line': string)
    requires forall k :: 0 <= k < 4 ==> Operand(LineTokens(line), k) == Operand(LineTokens(line'), k)
    ensures Parse(line).Ok? == Parse(line').Ok?
    ensures Parse(line).Ok? ==> Parse(line).value == Parse(line').value.(text := line)
  {
    var ts, ts' := LineTokens(line), LineTokens(line');
    assert Operand(ts, 0) == Operand(ts', 0);
    assert ts == [] <==> ts' == [] by {
      if ts != [] { assert IsWord(ts[0]); }
      if ts' != [] { assert IsWord(ts'[0]); }
    }
    assert Operand(ts, 1) == Operand(ts', 1);
    assert Operand(ts, 2) == Operand(ts', 2);
    assert Operand(ts, 3) == Operand(ts', 3);
  }

  // ---------------------------------------------------------------------
  // Lines as programs write them

  /** Words separated by a comma and a space, as assembly is usually
      written. */
  function CommaJoin(ts: seq<string>): string {
    if ts == [] then []
    else if |ts| == 1 then ts[0]
    else ts[0] + ", " + CommaJoin(ts[1..])
  }

  /** Operands separated by `, ` read exactly as operands separated by a
      single space. */
  lemma {:induction false} CommaSeparatedWords(ts: seq<string>)
    requires AllOperandWords(ts)
    ensures LineTokens(CommaJoin(ts)) == ts
  {
    assert forall k :: 0 <= k < |ts| ==> IsOperandWord(ts[k]);
    CommaJoinRemovesCommas(ts);
    ParseOfWords(ts);
  }

  /** Removing the commas of comma-free words joined by `, ` leaves them
      joined by single spaces. */
  lemma {:induction false} CommaJoinRemovesCommas(ts: seq<string>)
    requires forall k :: 0 <= k < |ts| ==> CommaFree(ts[k])
    ensures RemoveCommas(CommaJoin(ts)) == Join(ts)
  {
    if |ts| > 1 {
      var t, tail := ts[0], ts[1..];
      forall k | 0 <= k < |tail| ensures CommaFree(tail[k]) {
        assert tail[k] == ts[k + 1];
      }
      CommaJoinRemovesCommas(tail);
      var rest := CommaJoin(tail);
      assert CommaJoin(ts) == t + (", " + rest);
      RemoveCommasAppend(t, ", " + rest);
      RemoveSeparatorComma(rest);
      assert RemoveCommas(t) == t;
      assert Join(ts) == t + " " + Join(tail);
    }
  }

  lemma RemoveSeparatorComma(rest: string)
    ensures RemoveCommas(", " + rest) == " " + RemoveCommas(rest)
  {
    assert (", " + rest)[1..] == " " + rest;
    assert (" " + rest)[1..] == rest;
  }

  /** `addi $r0 $zero 0xF`: `$r0` is slot 8, `$zero` slot 0, and the
      hexadecimal immediate 15. */
  lemma AddImmediateLine(line: string)
    requires LineTokens(line) == ["addi", "$r0", "$zero", "0xF"]
    ensures Parse(line) == Ok(Instruction(line, 32, 0, false, true, false, false, 0, 8, 0, 15))
  {
    AddImmediateWords();
    ITypeOperands(line);
  }

  /** The mnemonic and operand words of `addi $r0 $zero 0xF`. */
  lemma AddImmediateWords()
    ensures Decode("addi") == ITypeHeader(32)
    ensures ParseReg2("$r0") == Ok(8) && ParseReg2("$zero") == Ok(0) && ParseReg2("0xF") == Ok(15)
  {
    DecodeExamples();
    RegisterExamples();
    NamedRegisterExamples();
    ParseAddrHexExamples();
  }

  /** The same instruction written with commas, as a program file holds it. */
  lemma AddImmediateWithCommas()
    ensures Parse("addi, $r0, $zero, 0xF") ==
      Ok(Instruction("addi, $r0, $zero, 0xF", 32, 0, false, true, false, false, 0, 8, 0, 15))
  {
    AddImmediateCommaTokens();
    AddImmediateLine("addi, $r0, $zero, 0xF");
  }

  /** The tokens of `addi, $r0, $zero, 0xF`: the commas go. */
  lemma AddImmediateCommaTokens()
    ensures LineTokens("addi, $r0, $zero, 0xF") == ["addi", "$r0", "$zero", "0xF"]
  {
    var ws := ["addi", "$r0", "$zero", "0xF"];
    AddImmediateCommaJoin();
    assert IsOperandWord(ws[0]) && IsOperandWord(ws[1]) && IsOperandWord(ws[2]) && IsOperandWord(ws[3]);
    CommaSeparatedWords(ws);
  }

  lemma AddImmediateCommaJoin()
    ensures CommaJoin(["addi", "$r0", "$zero", "0xF"]) == "addi, $r0, $zero, 0xF"
  {
  }

  /** The immediate of an I-type line is read as a register: `$r1` there
      gives the value 9. */
  lemma RegisterAsImmediate(line: string)
    requires LineTokens(line) == ["addi", "$r0", "$zero", "$r1"]
    ensures Parse(line) == Ok(Instruction(line, 32, 0, false, true, false, false, 0, 8, 0, 9))
  {
    AddImmediateWords();
    RegisterExamples();
    ITypeOperands(line);
  }

  /** Mnemonics and register names are matched ignoring case. */
  lemma UpperCaseMnemonic(line: string)
    requires LineTokens(line) == ["ADD", "$r8", "$r1", "$RA"]
    ensures Parse(line) == Ok(Instruction(line, 0, 32, true, false, false, false, 24, 9, 31, 0))
  {
    UpperCaseWords();
    RTypeOperands(line);
  }

  /** The mnemonic and operand words of `ADD $r8 $r1 $RA`. */
  lemma UpperCaseWords()
    ensures Decode("ADD") == RTypeHeader(32)
    ensures ParseReg2("$r8") == Ok(24) && ParseReg2("$r1") == Ok(9) && ParseReg2("$RA") == Ok(31)
  {
    DecodeCaseExamples();
    RegisterExamples();
    HighRegisterExample();
    NamedRegisterExamples();
  }

  /** A register inside the parentheses that does not parse is not an
      error: the base register becomes slot 0. */
  lemma UnknownBaseRegister(line: string)
    requires LineTokens(line) == ["lw", "$r1", "4($bogus)"]
    ensures Parse(line) == Ok(Instruction(line, 35, 0, false, false, false, false, 0, 0, 9, 4))
  {
    UnknownBaseWords();
    UnknownBaseSplit();
    LoadStoreOffsetOperands(line, "4", "$bogus", "");
  }

  /** The mnemonic and operand words of `lw $r1 4($bogus)`. */
  lemma UnknownBaseWords()
    ensures Decode("lw") == OpcodeHeader(35)
    ensures ParseReg2("$r1") == Ok(9) && ParseAddr("4") == Ok(4) && ParseReg2("$bogus") == Err
  {
    DecodeExamples();
    RegisterExamples();
    UnknownNameRejected();
    assert IntToDecimal(4) == "4";
    ParseAddrDecimal(4);
  }

  /** An `offset(reg)` operand with nothing before `(` fails: the empty
      offset is not a number. */
  lemma MissingOffset(line: string)
    requires LineTokens(line) == ["lw", "$r1", "($r2)"]
    ensures Parse(line) == Err
  {
    MissingOffsetWords();
    MissingOffsetSplit();
    LoadStoreOffsetOperands(line, "", "$r2", "");
  }

  /** The mnemonic and the empty offset of `lw $r1 ($r2)`. */
  lemma MissingOffsetWords()
    ensures Decode("lw") == OpcodeHeader(35) && ParseAddr("") == Err
  {
    DecodeExamples();
    ParseAddrEmptyExamples();
  }

  /** `4($bogus)` is the offset `4` and the register `$bogus` in parentheses. */
  lemma UnknownBaseSplit()
    ensures "4($bogus)" == "4" + "(" + "$bogus" + ")" + ""
    ensures forall i :: 0 <= i < |"$bogus"| ==> "$bogus"[i] != ')'
  {
  }

  /** `($r2)` is the empty offset and the register `$r2` in parentheses. */
  lemma MissingOffsetSplit()
    ensures "($r2)" == "" + "(" + "$r2" + ")" + ""
    ensures forall i :: 0 <= i < |"$r2"| ==> "$r2"[i] != ')'
  {
  }
}
