/** The line assembler of `Instruction.java`: one line of assembly text
    becomes one flat, write-once decoded record, or the constructor throws.

    The record keeps the source's flat layout: a category is encoded by the
    `rType`/`iType`/`isNop`/`isExit` flags and the opcode, and every field
    the line does not set stays 0. The getters of the Java class are the
    destructors of `Instruction` (`text` is `getInstruct`, `rTypeOpcode` is
    `getrOp`). */
module Instructions {
  import opened Wrappers
  import opened JavaNumbers
  import opened JavaText

  datatype Instruction = Instruction(
    text: string,         // the line exactly as given, commas included
    opcode: Int16,
    rTypeOpcode: Int16,
    rType: bool,
    iType: bool,
    isExit: bool,
    isNop: bool,
    rd: Int16,
    rs: Int16,
    rt: Int16,
    imm: Int16)

  // ---------------------------------------------------------------------
  // The mnemonic

  /** The fields the mnemonic alone decides. */
  datatype Header = Header(
    opcode: Int16,
    rTypeOpcode: Int16,
    rType: bool,
    iType: bool,
    isExit: bool,
    isNop: bool)

  const NoHeader := Header(0, 0, false, false, false, false)
  const NopHeader := Header(0, 0, false, false, false, true)
  const ExitHeader := Header(0, 0, false, false, true, false)

  function RTypeHeader(funct: Int16): Header {
    Header(0, funct, true, false, false, false)
  }

  function ITypeHeader(op: Int16): Header {
    Header(op, 0, false, true, false, false)
  }

  function OpcodeHeader(op: Int16): Header {
    Header(op, 0, false, false, false, false)
  }

  /** The operand layouts the constructor distinguishes. */
  datatype Category = RType | IType | LoadStore | Jump | Branch | Nop | Exit | Unrecognised

  /** Which operand branch the constructor takes for a header, tested in the
      constructor's own order (load/store first, then R-type, I-type, `j`,
      `beq`); `nop`, `exit` and unknown mnemonics read no operands. */
  function CategoryOf(h: Header): Category {
    if h.opcode == 35 || h.opcode == 43 then LoadStore
    else if h.rType then RType
    else if h.iType then IType
    else if h.opcode == 2 then Jump
    else if h.opcode == 4 then Branch
    else if h.isNop then Nop
    else if h.isExit then Exit
    else Unrecognised
  }

  /** The function codes of the R-type mnemonics and the opcodes of the
      I-type ones. */
  const RTypeCodes: set<int> := {32, 24, 26, 34, 36, 37, 39, 42}
  const ITypeCodes: set<int> := {32, 36, 34, 38}

  /** A header the mnemonic table can produce: exactly the flag of its
      category is set, with a code from that category, and nothing else. */
  predicate WellFormedHeader(h: Header) {
    match CategoryOf(h)
    case RType => h == RTypeHeader(h.rTypeOpcode) && h.rTypeOpcode in RTypeCodes
    case IType => h == ITypeHeader(h.opcode) && h.opcode in ITypeCodes
    case LoadStore => h == OpcodeHeader(h.opcode)
    case Jump => h == OpcodeHeader(2)
    case Branch => h == OpcodeHeader(4)
    case Nop => h == NopHeader
    case Exit => h == ExitHeader
    case Unrecognised => h == NoHeader
  }

  /** The test the source (and any consumer of the record) applies to decide
      that a record belongs to category `c`. */
  predicate Holds(h: Header, c: Category) {
    match c
    case RType => h.rType
    case IType => h.iType
    case LoadStore => h.opcode == 35 || h.opcode == 43
    case Jump => h.opcode == 2
    case Branch => h.opcode == 4
    case Nop => h.isNop
    case Exit => h.isExit
    case Unrecognised => h == NoHeader
  }

  /** In a well-formed header the test of exactly one category succeeds: at
      most one flag is set, and the all-zero header is the unrecognised one. */
  lemma CategoriesExclusive(h: Header, c: Category)
    requires WellFormedHeader(h)
    ensures Holds(h, c) <==> c == CategoryOf(h)
  {
  }

  /** An `equalsIgnoreCase` ladder written as a table: the value of the
      first key that `s` equals ignoring case, or `otherwise` when there is
      none. */
  function LookupIgnoreCase<V>(s: string, table: seq<(string, V)>, otherwise: V): V
    decreases |table|
  {
    if table == [] then otherwise
    else if EqualsIgnoreCase(s, table[0].0) then table[0].1
    else LookupIgnoreCase(s, table[1..], otherwise)
  }

  /** The lookup yields `otherwise` or the value of some entry. */
  lemma {:induction false} LookupFindsEntry<V>(s: string, table: seq<(string, V)>, otherwise: V)
    ensures var r := LookupIgnoreCase(s, table, otherwise);
      r == otherwise || exists k :: 0 <= k < |table| && table[k].1 == r
    decreases |table|
  {
    if table != [] && !EqualsIgnoreCase(s, table[0].0) {
      var r := LookupIgnoreCase(s, table[1..], otherwise);
      LookupFindsEntry(s, table[1..], otherwise);
      if r != otherwise {
        var k :| 0 <= k < |table[1..]| && table[1..][k].1 == r;
        assert table[k + 1].1 == r;
      }
    }
  }

  /** A table whose keys are in lower case. */
  predicate LowerCaseKeys<V>(table: seq<(string, V)>) {
    forall k :: 0 <= k < |table| ==> LowerAscii(table[k].0)
  }

  /** A table whose keys are in lower case and pairwise different. */
  predicate WellFormedTable<V>(table: seq<(string, V)>) {
    LowerCaseKeys(table) && forall j, k :: 0 <= j < k < |table| ==> table[j].0 != table[k].0
  }

  /** A token whose folded form is a key of the table finds that key's
      value: no earlier key can match it. */
  lemma {:induction false} LookupListed<V>(s: string, table: seq<(string, V)>, otherwise: V, k: nat)
    requires WellFormedTable(table) && k < |table| && FoldAll(s) == table[k].0
    ensures LookupIgnoreCase(s, table, otherwise) == table[k].1
    decreases |table|
  {
    EqualsLowerCaseKey(s, table[0].0);
    if k > 0 {
      var rest := table[1..];
      assert WellFormedTable(rest) by {
        forall j | 0 <= j < |rest| ensures rest[j] == table[j + 1] { }
      }
      assert rest[k - 1] == table[k];
      LookupListed(s, rest, otherwise, k - 1);
    }
  }

  /** A token whose folded form is no key of the table finds nothing. */
  lemma {:induction false} LookupUnlisted<V>(s: string, table: seq<(string, V)>, otherwise: V)
    requires LowerCaseKeys(table)
    requires forall k :: 0 <= k < |table| ==> FoldAll(s) != table[k].0
    ensures LookupIgnoreCase(s, table, otherwise) == otherwise
    decreases |table|
  {
    if table != [] {
      EqualsLowerCaseKey(s, table[0].0);
      var rest := table[1..];
      assert forall k :: 0 <= k < |rest| ==> rest[k] == table[k + 1];
      LookupUnlisted(s, rest, otherwise);
    }
  }

  /** Two tokens that fold alike find the same value. */
  lemma {:induction false} LookupIgnoresCase<V>(s: string, s': string, table: seq<(string, V)>, otherwise: V)
    requires FoldAll(s) == FoldAll(s')
    ensures LookupIgnoreCase(s, table, otherwise) == LookupIgnoreCase(s', table, otherwise)
    decreases |table|
  {
    if table != [] {
      EqualsIgnoreCaseIsFoldedEquality(s, table[0].0);
      EqualsIgnoreCaseIsFoldedEquality(s', table[0].0);
      LookupIgnoresCase(s, s', table[1..], otherwise);
    }
  }

  /** The mnemonic ladder of the constructor, in its order. */
  const Mnemonics: seq<(string, Header)> := [
    ("add", RTypeHeader(32)), ("mult", RTypeHeader(24)),
    ("div", RTypeHeader(26)), ("sub", RTypeHeader(34)),
    ("and", RTypeHeader(36)), ("or", RTypeHeader(37)),
    ("nor", RTypeHeader(39)), ("slt", RTypeHeader(42)),
    ("addi", ITypeHeader(32)), ("andi", ITypeHeader(36)),
    ("subi", ITypeHeader(34)), ("xori", ITypeHeader(38)),
    ("lw", OpcodeHeader(35)), ("sw", OpcodeHeader(43)),
    ("j", OpcodeHeader(2)), ("beq", OpcodeHeader(4)),
    ("nop", NopHeader), ("exit", ExitHeader)
  ]

  /** The mnemonic: the first entry of the ladder the token equals,
      ignoring case, sets its flag and code. A token that matches none
      raises no error and leaves every field 0. */
  function Decode(op: string): Header {
    LookupIgnoreCase(op, Mnemonics, NoHeader)
  }

  /** Every entry of the table is a well-formed header. */
  lemma MnemonicHeadersWellFormed()
    ensures forall k :: 0 <= k < |Mnemonics| ==> WellFormedHeader(Mnemonics[k].1)
  {
  }

  /** Every token decodes to a well-formed header: one of the table's, or
      the all-zero one. */
  lemma DecodeWellFormed(op: string)
    ensures WellFormedHeader(Decode(op))
  {
    LookupFindsEntry(op, Mnemonics, NoHeader);
    MnemonicHeadersWellFormed();
    var h := Decode(op);
    if h != NoHeader {
      var k :| 0 <= k < |Mnemonics| && Mnemonics[k].1 == h;
      assert WellFormedHeader(Mnemonics[k].1);
    }
  }

  /** The mnemonics are distinct lower-case words. */
  lemma MnemonicsWellFormed()
    ensures WellFormedTable(Mnemonics)
  {
    MnemonicKeysLowerCase();
  }

  lemma MnemonicKeysLowerCase()
    ensures LowerCaseKeys(Mnemonics)
  {
  }

  /** A token whose case-folded form is a listed mnemonic decodes to that
      mnemonic's entry. */
  lemma DecodeListedMnemonic(op: string, k: nat)
    requires k < |Mnemonics| && FoldAll(op) == Mnemonics[k].0
    ensures Decode(op) == Mnemonics[k].1
  {
    MnemonicsWellFormed();
    LookupListed(op, Mnemonics, NoHeader, k);
  }

  /** A token whose case-folded form is not in the table decodes to the
      all-zero header: an unknown mnemonic is not an error. */
  lemma DecodeUnlistedMnemonic(op: string)
    requires forall k :: 0 <= k < |Mnemonics| ==> FoldAll(op) != Mnemonics[k].0
    ensures Decode(op) == NoHeader
  {
    MnemonicsWellFormed();
    assert LowerCaseKeys(Mnemonics);
    LookupUnlisted(op, Mnemonics, NoHeader);
  }

  /** Mnemonics match case-insensitively: two tokens that fold to the same
      string decode alike. */
  lemma DecodeIgnoresCase(op: string, op': string)
    requires FoldAll(op) == FoldAll(op')
    ensures Decode(op) == Decode(op')
  {
    LookupIgnoresCase(op, op', Mnemonics, NoHeader);
  }

  /** Mnemonics as programs write them. */
  lemma DecodeExamples()
    ensures Decode("lw") == OpcodeHeader(35)
    ensures Decode("addi") == ITypeHeader(32)
  {
    DecodeListedMnemonic("lw", 12);
    DecodeListedMnemonic("addi", 8);
  }

  /** Mnemonics are matched ignoring case, and a word that is no mnemonic
      decodes to the all-zero header rather than failing. */
  lemma DecodeCaseExamples()
    ensures Decode("ADD") == RTypeHeader(32)
    ensures Decode("Exit") == ExitHeader
    ensures Decode("move") == NoHeader
  {
    assert FoldAll("ADD") == "add";
    DecodeListedMnemonic("ADD", 0);
    assert FoldAll("Exit") == "exit";
    DecodeListedMnemonic("Exit", 17);
    assert FoldAll("move") == "move";
    DecodeUnlistedMnemonic("move");
  }

  // ---------------------------------------------------------------------
  // Operands

  /** `parseAddr`: when the token contains a lower-case `x` anywhere, the
      text after the first `x` in base 16; otherwise the token in base 10;
      either way a `short`. */
  function ParseAddr(address: string): (r: Result<Int16>) {
    var x := IndexOf(address, 'x');
    if x >= 0 then ParseShort(address[x + 1..], 16) else ParseShort(address, 10)
  }

  /** `parseOffset`: `parseAddr` of the text before the first `(`. */
  function ParseOffset(token: string): (r: Result<Int16>) {
    var open := IndexOf(token, '(');
    if open < 0 then Err else ParseAddr(token[..open])
  }

  /** The `switch` on the letter after `$`: the number that follows is
      shifted by a per-letter offset, with `short` wrap-around, and `$r`
      gains a further 8 once the sum reaches 16. Other letters throw. */
  function RegisterSlot(prefix: char, n: Int16): (r: Result<Int16>)
    ensures r.Ok? <==> prefix in "vars"
    ensures prefix == 'v' ==> r == Ok(if n < 0x8000 - 2 then n + 2 else n + 2 - 0x1_0000)
    ensures prefix == 'a' ==> r == Ok(if n < 0x8000 - 4 then n + 4 else n + 4 - 0x1_0000)
    ensures prefix == 's' ==> r == Ok(if n < 0x8000 - 16 then n + 16 else n + 16 - 0x1_0000)
    ensures prefix == 'r' ==> r == Ok(
      if n < 8 then n + 8
      else if n < 0x8000 - 16 then n + 16
      else if n < 0x8000 - 8 then n + 16 - 0x1_0000
      else n + 8 - 0x1_0000)
  {
    match prefix
    case 'v' => Ok(ToShort(n + 2))
    case 'a' => Ok(ToShort(n + 4))
    case 'r' =>
      var m := ToShort(n + 8);
      Ok(if m >= 16 then ToShort(m + 8) else m)
    case 's' => Ok(ToShort(n + 16))
    case _ => Err
  }

  /** The named registers of `parseReg2`, in the order it tries them. */
  const NamedRegisters: seq<(string, Option<Int16>)> := [
    ("$zero", Some(0)), ("$one", Some(1)), ("$gp", Some(28)),
    ("$sp", Some(29)), ("$fp", Some(30)), ("$ra", Some(31))
  ]

  /** The slot of a named register, compared ignoring case. */
  function NamedRegister(register: string): (r: Option<Int16>) {
    LookupIgnoreCase(register, NamedRegisters, None)
  }

  /** `parseReg2`: a token starting with `$` is one of the named registers
      (ignoring case), or `$`, a letter and a `short`; any other non-empty
      token is read by `parseAddr`, so a bare number names a register slot
      and no slot is checked against 0..31. */
  function ParseReg2(register: string): (r: Result<Int16>) {
    if register == [] then Err
    else if register[0] == '$' then
      match NamedRegister(register)
      case Some(slot) => Ok(slot)
      case None =>
        if |register| < 2 then Err
        else
          match ParseShort(register[2..], 10)
          case Err => Err
          case Ok(n) => RegisterSlot(register[1], n)
    else ParseAddr(register)
  }

  /** `parseReg1`: the register between the first `(` and the first `)`;
      when that text is missing, malformed or not a register the error is
      swallowed and the slot is 0. */
  function ParseReg1(token: string): (r: Int16) {
    var begin := IndexOf(token, '(') + 1;
    var end := IndexOf(token, ')');
    if begin <= end then
      match ParseReg2(token[begin..end])
      case Ok(v) => v
      case Err => 0
    else 0
  }

  /** Decimal literals: every `short` written in decimal reads back, and
      every value outside the `short` range is rejected. */
  lemma ParseAddrDecimal(n: int)
    ensures ParseAddr(IntToDecimal(n)) == if -0x8000 <= n < 0x8000 then Ok(n) else Err
  {
    ParseShortOfDecimal(n);
  }

  /** Hexadecimal literals: whatever precedes the first `x` is ignored and
      the digits after it are read in base 16, so `0x7fff` is accepted and
      `0x8000` is not. */
  lemma ParseAddrHex(prefix: string, n: nat)
    requires forall i :: 0 <= i < |prefix| ==> prefix[i] != 'x'
    ensures ParseAddr(prefix + "x" + NatToDigits(n, 16)) == if n < 0x8000 then Ok(n) else Err
  {
    var s := prefix + "x" + NatToDigits(n, 16);
    assert s[|prefix|] == 'x';
    assert IndexOf(s, 'x') == |prefix|;
    assert s[|prefix| + 1..] == NatToDigits(n, 16);
    ParseShortOfHex(n);
  }

  /** A literal with an `x` is read in base 16 from the text after its
      first `x`, whatever precedes it. */
  lemma ParseAddrAfterX(p: string, q: string)
    requires forall i :: 0 <= i < |p| ==> p[i] != 'x'
    ensures ParseAddr(p + "x" + q) == ParseShort(q, 16)
  {
    var s := p + "x" + q;
    IndexOfAfter(p, 'x', q);
    assert s == p + ['x'] + q;
    assert s[|p| + 1..] == q;
  }

  /** A literal without `x` is read in base 10. */
  lemma ParseAddrWithoutX(q: string)
    requires forall i :: 0 <= i < |q| ==> q[i] != 'x'
    ensures ParseAddr(q) == ParseShort(q, 10)
  {
  }

  /** Hexadecimal literals in any spelling: upper- or lower-case digits,
      leading zeros and a sign after the `x` (`0xFF`, `0x00ff`, `0x-5`). */
  lemma ParseAddrHexSpelling(p: string, sign: string, zeros: nat, d: string, n: nat)
    requires forall i :: 0 <= i < |p| ==> p[i] != 'x'
    requires sign == "" || sign == "+" || sign == "-"
    requires SpellsDigits(d, n, 16)
    ensures ParseAddr(p + "x" + (sign + (Zeros(zeros) + d))) ==
      if -0x8000 <= Signed(sign, n) < 0x8000 then Ok(Signed(sign, n)) else Err
  {
    ParseAddrAfterX(p, sign + (Zeros(zeros) + d));
    ParseShortOfSpelling(sign, zeros, d, n, 16);
  }

  /** Base 16 follows an `x`, whatever comes before it: a sign in front
      of the `x` is dropped with the rest of the prefix. */
  lemma ParseAddrHexExamples()
    ensures ParseAddr("0xF") == Ok(15)
    ensures ParseAddr("-0x5") == Ok(5)
  {
    assert "0xF"[2..] == "F";
    assert "-0x5"[3..] == "5";
  }

  /** `ff` renders 255, and `FF` spells it too. */
  lemma SpellingsOf255()
    ensures SpellsDigits("ff", 255, 16) && SpellsDigits("FF", 255, 16)
  {
    assert NatToDigits(15, 16) == "f";
    assert NatToDigits(255, 16) == NatToDigits(15, 16) + [DigitChar(15)];
  }

  /** `0xFF` is 255. */
  lemma ParseAddrUpperHexExample()
    ensures ParseAddr("0xFF") == Ok(255)
  {
    SpellingsOf255();
    ParseAddrHexSpelling("0", "", 0, "FF", 255);
    assert "0" + "x" + ("" + (Zeros(0) + "FF")) == "0xFF";
  }

  /** `0x00ff` is 255: leading zeros after the `x` are allowed. */
  lemma ParseAddrPaddedHexExample()
    ensures ParseAddr("0x00ff") == Ok(255)
  {
    SpellingsOf255();
    ParseAddrHexSpelling("0", "", 2, "ff", 255);
    assert Zeros(2) == "00";
    assert "0" + "x" + ("" + (Zeros(2) + "ff")) == "0x00ff";
  }

  /** A sign after the `x` is read by `Short.parseShort`: `0x-5` is -5. */
  lemma ParseAddrSignedHexExample()
    ensures ParseAddr("0x-5") == Ok(-5)
  {
    assert NatToDigits(5, 16) == "5";
    ParseAddrHexSpelling("0", "-", 0, "5", 5);
    assert "0" + "x" + ("-" + (Zeros(0) + "5")) == "0x-5";
  }

  /** Decimal literals with a `+` sign or leading zeros: `+5` is 5 and
      `007` is 7. */
  lemma ParseAddrDecimalSpellingExamples()
    ensures ParseAddr("+5") == Ok(5)
    ensures ParseAddr("007") == Ok(7)
  {
    assert NatToDigits(5, 10) == "5" && NatToDigits(7, 10) == "7";
    ParseShortOfSpelling("+", 0, "5", 5, 10);
    assert "+" + (Zeros(0) + "5") == "+5";
    ParseShortOfSpelling("", 2, "7", 7, 10);
    assert Zeros(2) == "00";
    assert "" + (Zeros(2) + "7") == "007";
  }

  /** Only a lower-case `x` selects base 16: `0XF` is read in decimal and
      fails. */
  lemma UpperCaseHexRejected()
    ensures ParseAddr("0XF") == Err
  {
  }

  /** An empty literal fails, and so does an `x` with no digits after it. */
  lemma ParseAddrEmptyExamples()
    ensures ParseAddr("") == Err
    ensures ParseAddr("x") == Err
  {
    assert "x"[1..] == "";
  }

  /** The register names are distinct lower-case words. */
  lemma NamedRegistersWellFormed()
    ensures WellFormedTable(NamedRegisters)
  {
  }

  /** The named registers, matched ignoring case: `$zero` is 0, `$one` 1,
      `$gp` 28, `$sp` 29, `$fp` 30 and `$ra` 31. */
  lemma NamedRegisterSlot(s: string, k: nat)
    requires k < |NamedRegisters| && FoldAll(s) == NamedRegisters[k].0
    ensures ParseReg2(s) == Ok(NamedRegisters[k].1.value)
  {
    NamedRegistersWellFormed();
    assert s != [] && Fold(s[0]) == '$';
    LookupListed(s, NamedRegisters, None, k);
  }

  /** A token whose folded form is not a register name is not matched by
      the named-register ladder. */
  lemma NotNamedRegister(s: string)
    requires forall k :: 0 <= k < |NamedRegisters| ==> FoldAll(s) != NamedRegisters[k].0
    ensures NamedRegister(s) == None
  {
    NamedRegistersWellFormed();
    LookupUnlisted(s, NamedRegisters, None);
  }

  /** A `$`, any character and any text `Short.parseShort` reads as `n`
      (a sign, leading zeros): never one of the named registers, so the
      letter's offset applies, and any letter other than `v`, `a`, `r`,
      `s`, in either case, is rejected. */
  lemma LetterRegister(p: char, d: string, n: Int16)
    requires ParseShort(d, 10) == Ok(n)
    ensures ParseReg2("$" + [p] + d) == RegisterSlot(p, n)
  {
    ParseRejectsNonNumeral(d, 10);
    assert d[0] == '-' || d[0] == '+' || '0' <= d[0] <= '9' by {
      if d[0] != '-' && d[0] != '+' {
        assert Unsigned(d)[0] == d[0];
      }
    }
    var s := "$" + [p] + d;
    assert s[2] == d[0] && s[2..] == d;
    assert FoldAll(s)[2] == Fold(s[2]) == s[2];
    assert forall k :: 0 <= k < |NamedRegisters| ==> FoldAll(s) != NamedRegisters[k].0 by {
      forall k | 0 <= k < |NamedRegisters| ensures FoldAll(s) != NamedRegisters[k].0 {
        var key := NamedRegisters[k].0;
        assert |key| > 2 ==> 'a' <= key[2] <= 'z';
      }
    }
    NotNamedRegister(s);
  }

  /** In particular for the number written in decimal: `$r8` is slot 24. */
  lemma LetterRegisterDecimal(p: char, n: Int16)
    ensures ParseReg2("$" + [p] + IntToDecimal(n)) == RegisterSlot(p, n)
  {
    ParseShortOfDecimal(n);
    LetterRegister(p, IntToDecimal(n), n);
  }

  /** An empty token and a lone `$` throw. */
  lemma TooShortRegisters()
    ensures ParseReg2("") == Err
    ensures ParseReg2("$") == Err
  {
    NotNamedRegister("$");
  }

  /** After `$`, a letter other than `v`, `a`, `r`, `s` throws unless the
      whole token is a named register; the letter is compared case-sensitively. */
  lemma UnknownRegisterLetter(s: string)
    requires |s| >= 2 && s[0] == '$' && s[1] !in "vars"
    requires forall k :: 0 <= k < |NamedRegisters| ==> FoldAll(s) != NamedRegisters[k].0
    ensures ParseReg2(s) == Err
  {
    NotNamedRegister(s);
    var p := ParseShort(s[2..], 10);
    if p.Ok? {
      assert RegisterSlot(s[1], p.value) == Err;
    }
  }

  /** After `$` and a letter, a suffix that `Short.parseShort` rejects
      throws, whatever the letter, unless the whole token is a register
      name: `$r`, `$rx` and `$r32768` all fail. */
  lemma BadRegisterNumber(s: string)
    requires |s| >= 2 && s[0] == '$'
    requires forall k :: 0 <= k < |NamedRegisters| ==> FoldAll(s) != NamedRegisters[k].0
    requires ParseShort(s[2..], 10).Err?
    ensures ParseReg2(s) == Err
  {
    NotNamedRegister(s);
  }

  /** A missing number, a non-digit and a number beyond the `short` range
      after `$r`. */
  lemma BadRegisterNumberExamples()
    ensures ParseReg2("$r") == Err
    ensures ParseReg2("$rx") == Err
  {
    assert FoldAll("$r") == "$r";
    assert "$r"[2..] == "";
    BadRegisterNumber("$r");
    assert FoldAll("$rx") == "$rx";
    assert "$rx"[2..] == "x";
    ParseRejectsNonNumeral("x", 10);
    BadRegisterNumber("$rx");
  }

  /** `$r32768`: the number does not fit in a `short`. */
  lemma OutOfRangeRegisterExample()
    ensures ParseReg2("$r32768") == Err
  {
    assert FoldAll("$r32768")[2] == '3';
    assert "$r32768"[2..] == "32768";
    ParseShortOfDecimal(32768);
    assert IntToDecimal(32768) == "32768";
    BadRegisterNumber("$r32768");
  }

  /** A token without `$` is read as a numeric literal and names that slot. */
  lemma NumericRegister(s: string)
    requires s != [] && s[0] != '$'
    ensures ParseReg2(s) == ParseAddr(s)
  {
  }

  /** Register tokens as programs write them: `$r0` is slot 8 and `$r1`
      slot 9. */
  lemma RegisterExamples()
    ensures ParseReg2("$r0") == Ok(8)
    ensures ParseReg2("$r1") == Ok(9)
  {
    assert IntToDecimal(0) == "0" && IntToDecimal(1) == "1";
    LetterRegisterDecimal('r', 0);
    LetterRegisterDecimal('r', 1);
    assert "$" + ['r'] + "0" == "$r0";
    assert "$" + ['r'] + "1" == "$r1";
  }

  /** From `$r8` on, the `$r` registers skip the sixteen slots of `$v`, `$a`
      and their neighbours: `$r8` is slot 24. */
  lemma HighRegisterExample()
    ensures ParseReg2("$r8") == Ok(24)
  {
    assert IntToDecimal(8) == "8";
    LetterRegisterDecimal('r', 8);
    assert "$" + ['r'] + "8" == "$r8";
  }

  /** The number after the register letter may carry leading zeros or a
      `+`: `$r08` and `$r+8` are slot 24, like `$r8`. */
  lemma PaddedRegisterExamples()
    ensures ParseReg2("$r08") == Ok(24)
    ensures ParseReg2("$r+8") == Ok(24)
  {
    assert NatToDigits(8, 10) == "8";
    ParseShortOfSpelling("", 1, "8", 8, 10);
    assert "" + (Zeros(1) + "8") == "08";
    LetterRegister('r', "08", 8);
    assert "$" + ['r'] + "08" == "$r08";
    ParseShortOfSpelling("+", 0, "8", 8, 10);
    assert "+" + (Zeros(0) + "8") == "+8";
    LetterRegister('r', "+8", 8);
    assert "$" + ['r'] + "+8" == "$r+8";
  }

  /** Register names match in any case. */
  lemma NamedRegisterExamples()
    ensures ParseReg2("$zero") == Ok(0)
    ensures ParseReg2("$RA") == Ok(31)
  {
    assert FoldAll("$zero") == "$zero";
    NamedRegisterSlot("$zero", 0);
    assert FoldAll("$RA") == "$ra";
    NamedRegisterSlot("$RA", 5);
  }

  /** A word after `$` that is no register name and whose second
      character is not a register letter is rejected. */
  lemma UnknownNameRejected()
    ensures ParseReg2("$bogus") == Err
  {
    assert FoldAll("$bogus") == "$bogus";
    UnknownRegisterLetter("$bogus");
  }

  /** The letter after `$` is compared case-sensitively. */
  lemma UpperCaseLetterRejected()
    ensures ParseReg2("$V0") == Err
  {
    assert FoldAll("$V0") == "$v0";
    UnknownRegisterLetter("$V0");
  }

  /** `parseOffset` and `parseReg1` on an `offset(reg)` operand: the offset
      is the literal before the first `(`, the register is the text up to the
      first `)`, anything after it is ignored, and a register that does not
      parse gives slot 0. */
  lemma MemoryOperand(offset: string, reg: string, rest: string)
    requires forall i :: 0 <= i < |offset| ==> offset[i] != '(' && offset[i] != ')'
    requires forall i :: 0 <= i < |reg| ==> reg[i] != ')'
    ensures var t := offset + "(" + reg + ")" + rest;
      ParseOffset(t) == ParseAddr(offset) &&
      ParseReg1(t) == (if ParseReg2(reg).Ok? then ParseReg2(reg).value else 0)
  {
    MemoryOffset(offset, reg, rest);
    MemoryBase(offset, reg, rest);
  }

  lemma MemoryOffset(offset: string, reg: string, rest: string)
    requires forall i :: 0 <= i < |offset| ==> offset[i] != '(' && offset[i] != ')'
    requires forall i :: 0 <= i < |reg| ==> reg[i] != ')'
    ensures ParseOffset(offset + "(" + reg + ")" + rest) == ParseAddr(offset)
  {
    MemoryOperandParts(offset, reg, rest);
  }

  lemma MemoryBase(offset: string, reg: string, rest: string)
    requires forall i :: 0 <= i < |offset| ==> offset[i] != '(' && offset[i] != ')'
    requires forall i :: 0 <= i < |reg| ==> reg[i] != ')'
    ensures ParseReg1(offset + "(" + reg + ")" + rest) == if ParseReg2(reg).Ok? then ParseReg2(reg).value else 0
  {
    var t := offset + "(" + reg + ")" + rest;
    MemoryOperandParts(offset, reg, rest);
    BaseBetweenParentheses(t, reg);
  }

  /** `parseReg1` reads the text between the first `(` and the first `)`. */
  lemma BaseBetweenParentheses(t: string, reg: string)
    requires 0 <= IndexOf(t, '(') < IndexOf(t, ')')
    requires t[IndexOf(t, '(') + 1..IndexOf(t, ')')] == reg
    ensures ParseReg1(t) == if ParseReg2(reg).Ok? then ParseReg2(reg).value else 0
  {
  }

  /** Where the parentheses of `offset(reg)rest` are, and what lies before
      and between them. */
  lemma MemoryOperandParts(offset: string, reg: string, rest: string)
    requires forall i :: 0 <= i < |offset| ==> offset[i] != '(' && offset[i] != ')'
    requires forall i :: 0 <= i < |reg| ==> reg[i] != ')'
    ensures var t := offset + "(" + reg + ")" + rest;
      IndexOf(t, '(') == |offset| && IndexOf(t, ')') == |offset| + 1 + |reg| &&
      t[..|offset|] == offset && t[|offset| + 1..|offset| + 1 + |reg|] == reg
  {
    var t := offset + "(" + reg + ")" + rest;
    assert t == offset + ['('] + (reg + ")" + rest);
    IndexOfAfter(offset, '(', reg + ")" + rest);
    CloseAfterRegister(offset, reg, rest);
    assert t[..|offset|] == offset;
    assert t[|offset| + 1..|offset| + 1 + |reg|] == reg;
  }

  lemma CloseAfterRegister(offset: string, reg: string, rest: string)
    requires forall i :: 0 <= i < |offset| ==> offset[i] != ')'
    requires forall i :: 0 <= i < |reg| ==> reg[i] != ')'
    ensures IndexOf(offset + "(" + reg + ")" + rest, ')') == |offset| + 1 + |reg|
  {
    var head := offset + "(" + reg;
    forall i | 0 <= i < |head| ensures head[i] != ')' {
      if i > |offset| {
        assert head[i] == reg[i - |offset| - 1];
      }
    }
    IndexOfAfter(head, ')', rest);
  }

  /** A `)` before the first `(`: `substring` is given an end before its
      start and throws inside the `try`, so the slot is 0. */
  lemma ReversedParentheses(t: string)
    requires 0 <= IndexOf(t, ')') < IndexOf(t, '(')
    ensures ParseReg1(t) == 0
  {
  }

  /** `parseOffset` reads only up to the first `(`, whatever follows it,
      closed or not. */
  lemma OffsetBeforeOpen(a: string, b: string)
    requires forall i :: 0 <= i < |a| ==> a[i] != '('
    ensures ParseOffset(a + "(" + b) == ParseAddr(a)
  {
    var t := a + "(" + b;
    IndexOfAfter(a, '(', b);
    assert t == a + ['('] + b;
    assert t[..|a|] == a;
  }

  /** An operand with a `(` but no `)` after it still reads slot 0. */
  lemma UnclosedMemoryOperand(t: string)
    requires IndexOf(t, '(') >= 0 && IndexOf(t, ')') == -1
    ensures ParseReg1(t) == 0
  {
  }

  /** The operand fields a line sets. */
  datatype Operands = Operands(rd: Int16, rs: Int16, rt: Int16, imm: Int16)

  /** The fields a category never writes, which therefore stay 0. */
  predicate UnusedZero(c: Category, ops: Operands) {
    match c
    case RType => ops.imm == 0
    case IType => ops.rd == 0
    case LoadStore => ops.rd == 0
    case Jump => ops.rd == 0 && ops.rs == 0 && ops.rt == 0
    case Branch => ops.rd == 0
    case Nop | Exit | Unrecognised => ops == Operands(0, 0, 0, 0)
  }

  /** The operand branch of the constructor for tokens `t1`..`t3`. */
  function ParseOperands(h: Header, t1: string, t2: string, t3: string): (r: Result<Operands>)
    ensures r.Ok? ==> UnusedZero(CategoryOf(h), r.value)
    ensures CategoryOf(h) in {Nop, Exit, Unrecognised} ==> r == Ok(Operands(0, 0, 0, 0))
  {
    if h.opcode == 35 || h.opcode == 43 then
      var rt :- ParseReg2(t1);
      if IndexOf(t2, '(') != -1 then
        var rs := ParseReg1(t2);
        var imm :- ParseOffset(t2);
        Ok(Operands(0, rs, rt, imm))
      else
        var rs :- ParseReg2(t2);
        Ok(Operands(0, rs, rt, 0))
    else if h.rType then
      var rd :- ParseReg2(t1);
      var rs :- ParseReg2(t2);
      var rt :- ParseReg2(t3);
      Ok(Operands(rd, rs, rt, 0))
    else if h.iType then
      var rs :- ParseReg2(t1);
      var rt :- ParseReg2(t2);
      var imm :- ParseReg2(t3);
      Ok(Operands(0, rs, rt, imm))
    else if h.opcode == 2 then
      var imm :- ParseAddr(t1);
      Ok(Operands(0, 0, 0, imm))
    else if h.opcode == 4 then
      var rs :- ParseReg2(t1);
      var rt :- ParseReg2(t2);
      var imm :- ParseAddr(t3);
      Ok(Operands(0, rs, rt, imm))
    else
      Ok(Operands(0, 0, 0, 0))
  }

  /** The load/store branch when the second operand contains `(`. */
  lemma LoadStoreWithOffset(h: Header, t1: string, t2: string, t3: string)
    requires h.opcode == 35 || h.opcode == 43
    requires IndexOf(t2, '(') != -1
    ensures ParseOperands(h, t1, t2, t3) ==
      if ParseReg2(t1).Ok? && ParseOffset(t2).Ok? then
        Ok(Operands(0, ParseReg1(t2), ParseReg2(t1).value, ParseOffset(t2).value))
      else Err
  {
  }

  /** The load/store branch when the second operand has no `(`. */
  lemma LoadStoreWithoutOffset(h: Header, t1: string, t2: string, t3: string)
    requires h.opcode == 35 || h.opcode == 43
    requires IndexOf(t2, '(') == -1
    ensures ParseOperands(h, t1, t2, t3) ==
      if ParseReg2(t1).Ok? && ParseReg2(t2).Ok? then
        Ok(Operands(0, ParseReg2(t2).value, ParseReg2(t1).value, 0))
      else Err
  {
  }

  // ---------------------------------------------------------------------
  // The constructor

  /** The `k`-th token, or "" when the line has fewer tokens. */
  function Operand(tokens: seq<string>, k: nat): string {
    if k < |tokens| then tokens[k] else ""
  }

  function HeaderOf(i: Instruction): Header {
    Header(i.opcode, i.rTypeOpcode, i.rType, i.iType, i.isExit, i.isNop)
  }

  function OperandsOf(i: Instruction): Operands {
    Operands(i.rd, i.rs, i.rt, i.imm)
  }

  /** A record the constructor can produce: a well-formed header, and 0 in
      every operand field its category does not write. */
  predicate WellFormed(i: Instruction) {
    WellFormedHeader(HeaderOf(i)) && UnusedZero(CategoryOf(HeaderOf(i)), OperandsOf(i))
  }

  function Build(line: string, h: Header, ops: Operands): Instruction {
    Instruction(line, h.opcode, h.rTypeOpcode, h.rType, h.iType, h.isExit, h.isNop,
                ops.rd, ops.rs, ops.rt, ops.imm)
  }

  /** The tokens the constructor reads: the line without its commas, split
      on spaces. */
  function LineTokens(line: string): seq<string> {
    Tokens(RemoveCommas(line))
  }

  /** `new Instruction(line)`: strip the commas, split on spaces, decode the
      first token and read up to three operands; any exception becomes
      `Err`. A line with no token at all throws at the first `nextToken`. */
  function Parse(line: string): Result<Instruction> {
    var tokens := LineTokens(line);
    if tokens == [] then Err
    else
      var h := Decode(tokens[0]);
      var ops :- ParseOperands(h, Operand(tokens, 1), Operand(tokens, 2), Operand(tokens, 3));
      Ok(Build(line, h, ops))
  }

  /** A decoded record keeps the line as written and is well formed: the
      flags of one category at most, and 0 in every field that category
      does not write. */
  lemma ParseWellFormed(line: string)
    ensures Parse(line).Ok? ==> Parse(line).value.text == line && WellFormed(Parse(line).value)
  {
    var tokens := LineTokens(line);
    if tokens != [] {
      DecodeWellFormed(tokens[0]);
    }
  }
}
