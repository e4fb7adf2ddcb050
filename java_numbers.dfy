/** The parts of Java's integer types and integer parsing that the assembler
    relies on: `short` and `int` ranges, the wrap-around of a `short`
    compound assignment, `Integer.parseInt`/`Short.parseShort`, and `int`
    division, together with decimal and hexadecimal renderings that serve as
    their inverses. */
module JavaNumbers {
  import opened Wrappers

  /** Java `short`: a two's-complement 16-bit integer. */
  type Int16 = x: int | -0x8000 <= x < 0x8000

  /** Java `int`: a two's-complement 32-bit integer. */
  type Int32 = x: int | -0x8000_0000 <= x < 0x8000_0000

  /** A narrowing `(short)` cast; also what `number += k` does to a `short`
      variable. Keeps the low 16 bits as a signed value. */
  function ToShort(x: int): (r: Int16)
    ensures (r - x) % 0x1_0000 == 0
    ensures -0x8000 <= x < 0x8000 ==> r == x
    ensures 0x8000 <= x < 0x1_0000 ==> r == x - 0x1_0000
    ensures -0x1_0000 <= x < -0x8000 ==> r == x + 0x1_0000
  {
    var m := (x + 0x8000) % 0x1_0000;
    assert (x + 0x8000) == ((x + 0x8000) / 0x1_0000) * 0x1_0000 + m;
    m - 0x8000
  }

  /** Java `a / b` on `int`: the quotient truncated toward zero (Dafny's own
      `/` is Euclidean). */
  function JavaDiv(a: int, b: int): (q: int)
    requires b > 0
    ensures a >= 0 ==> b * q <= a < b * q + b
    ensures a < 0 ==> b * q - b < a <= b * q
  {
    if a >= 0 then a / b else -((-a) / b)
  }

  // ---------------------------------------------------------------------
  // Digits

  /** `Character.digit(c, radix)` for ASCII characters: the value of `c` as a
      digit in `radix`, or -1 when it is not one. */
  function DigitValue(c: char, radix: nat): (d: int)
    requires 2 <= radix <= 36
    ensures -1 <= d < radix
    ensures '0' <= c <= '9' ==> d == if c as int - '0' as int < radix then c as int - '0' as int else -1
    ensures 'a' <= c <= 'z' ==> d == if c as int - 'a' as int + 10 < radix then c as int - 'a' as int + 10 else -1
    ensures 'A' <= c <= 'Z' ==> d == if c as int - 'A' as int + 10 < radix then c as int - 'A' as int + 10 else -1
    ensures !('0' <= c <= '9' || 'a' <= c <= 'z' || 'A' <= c <= 'Z') ==> d == -1
  {
    var v :=
      if '0' <= c <= '9' then c as int - '0' as int
      else if 'a' <= c <= 'z' then c as int - 'a' as int + 10
      else if 'A' <= c <= 'Z' then c as int - 'A' as int + 10
      else 36;
    if v < radix then v else -1
  }

  /** The lower-case digit character for `d`, as Java prints it. */
  function DigitChar(d: nat): (c: char)
    requires d < 36
    ensures forall radix :: 2 <= radix <= 36 && d < radix ==> DigitValue(c, radix) == d
    ensures c != ' ' && c != ',' && c != '-' && c != '+' && c != '$' && c != '(' && c != ')'
    ensures d < 16 ==> c != 'x'
  {
    if d < 10 then ('0' as int + d) as char else ('a' as int + d - 10) as char
  }

  /** The value of a non-empty string of digits read most significant first,
      or None when some character is not a digit of `radix`. */
  function ParseDigits(s: string, radix: nat): (r: Option<nat>)
    requires 2 <= radix <= 36
    decreases |s|
  {
    if s == [] then Some(0)
    else
      match ParseDigits(s[..|s| - 1], radix)
      case None => None
      case Some(v) =>
        var d := DigitValue(s[|s| - 1], radix);
        if d < 0 then None else Some(v * radix + d)
  }

  /** Digits are read exactly when every one of them is a digit of
      `radix`: a single stray character makes the whole string fail. */
  lemma {:induction false} ParseDigitsFailsOnNonDigit(s: string, radix: nat)
    requires 2 <= radix <= 36
    ensures ParseDigits(s, radix).None? <==> exists i :: 0 <= i < |s| && DigitValue(s[i], radix) < 0
    decreases |s|
  {
    if s != [] {
      var init := s[..|s| - 1];
      ParseDigitsFailsOnNonDigit(init, radix);
      assert forall i :: 0 <= i < |init| ==> init[i] == s[i];
      if ParseDigits(init, radix).None? {
        var i :| 0 <= i < |init| && DigitValue(init[i], radix) < 0;
        assert DigitValue(s[i], radix) < 0;
      }
    }
  }

  /** The text `Integer.parseInt` reads as digits: the string without its
      leading sign, if it has one. */
  function Unsigned(s: string): string {
    if s != [] && (s[0] == '-' || s[0] == '+') then s[1..] else s
  }

  /** A string of the shape `Integer.parseInt` accepts: an optional sign,
      then at least one digit of `radix` and nothing else. */
  predicate Numeral(s: string, radix: nat)
    requires 2 <= radix <= 36
  {
    Unsigned(s) != [] && forall i :: 0 <= i < |Unsigned(s)| ==> DigitValue(Unsigned(s)[i], radix) >= 0
  }

  /** `Integer.parseInt` and `Short.parseShort` throw on every string that
      is not an optional sign followed by digits of the radix: the empty
      string, a lone sign, a second sign and any stray character. A
      numeral they reject is one whose value is out of range. */
  lemma ParseRejectsNonNumeral(s: string, radix: nat)
    requires 2 <= radix <= 36
    ensures !Numeral(s, radix) ==> ParseInt(s, radix) == Err && ParseShort(s, radix) == Err
    ensures Numeral(s, radix) ==> ParseDigits(Unsigned(s), radix).Some?
  {
    ParseDigitsFailsOnNonDigit(Unsigned(s), radix);
  }

  /** `Integer.parseInt(s, radix)`: an optional sign followed by at least one
      digit; fails on the empty string, on a lone sign, on a non-digit and on
      a value outside the `int` range. */
  function ParseInt(s: string, radix: nat): (r: Result<Int32>)
    requires 2 <= radix <= 36
  {
    if s == [] then Err
    else
      var negative := s[0] == '-';
      var digits := if s[0] == '-' || s[0] == '+' then s[1..] else s;
      if digits == [] then Err
      else
        match ParseDigits(digits, radix)
        case None => Err
        case Some(v) =>
          var n := if negative then -(v as int) else v as int;
          if -0x8000_0000 <= n < 0x8000_0000 then Ok(n) else Err
  }

  /** `Short.parseShort(s, radix)`: `Integer.parseInt` followed by a check
      that the value fits in a `short`. */
  function ParseShort(s: string, radix: nat): (r: Result<Int16>)
    requires 2 <= radix <= 36
  {
    match ParseInt(s, radix)
    case Err => Err
    case Ok(n) => if -0x8000 <= n < 0x8000 then Ok(n) else Err
  }

  // ---------------------------------------------------------------------
  // Renderings

  /** The digits of `n` in `radix`, most significant first, without leading
      zeros (Java's `Integer.toString(n, radix)` for `n >= 0`). */
  function NatToDigits(n: nat, radix: nat): (s: string)
    requires 2 <= radix <= 36
    ensures s != []
    ensures forall i :: 0 <= i < |s| ==> DigitValue(s[i], radix) >= 0
    ensures forall i :: 0 <= i < |s| ==> s[i] != ' ' && s[i] != ',' && s[i] != '-' && s[i] != '+'
    ensures forall i :: 0 <= i < |s| ==> s[i] != '$' && s[i] != '(' && s[i] != ')'
    ensures radix <= 16 ==> forall i :: 0 <= i < |s| ==> s[i] != 'x'
    ensures s[0] == '0' <==> n == 0
    decreases n
  {
    if n < radix then [DigitChar(n)]
    else
      DivMod(n, radix);
      NatToDigits(n / radix, radix) + [DigitChar(n % radix)]
  }

  /** Euclidean division facts for a positive divisor. */
  lemma DivMod(n: nat, radix: nat)
    requires 2 <= radix <= n
    ensures n / radix < n && n % radix < radix
    ensures n == (n / radix) * radix + n % radix
  {
  }

  /** Reading back the digits of `n` gives `n`. */
  lemma {:induction false} ParseDigitsOfNatToDigits(n: nat, radix: nat)
    requires 2 <= radix <= 36
    ensures ParseDigits(NatToDigits(n, radix), radix) == Some(n)
    decreases n
  {
    var s := NatToDigits(n, radix);
    if n < radix {
      assert s[..0] == [];
    } else {
      DivMod(n, radix);
      ParseDigitsOfNatToDigits(n / radix, radix);
      assert s[..|s| - 1] == NatToDigits(n / radix, radix);
    }
  }

  /** Java's decimal rendering of an integer: a minus sign for negative
      values, then the digits of the magnitude. */
  function IntToDecimal(n: int): (s: string)
    ensures s != []
    ensures forall i :: 0 <= i < |s| ==> s[i] != ' ' && s[i] != ',' && s[i] != 'x'
    ensures forall i :: 0 <= i < |s| ==> s[i] != '$' && s[i] != '(' && s[i] != ')'
    ensures s[0] == '-' || DigitValue(s[0], 10) >= 0
  {
    if n < 0 then "-" + NatToDigits(-n, 10) else NatToDigits(n, 10)
  }

  /** `Integer.parseInt` reads back every decimal rendering inside the `int`
      range and rejects every one outside it. */
  lemma ParseIntOfDecimal(n: int)
    ensures ParseInt(IntToDecimal(n), 10) ==
      if -0x8000_0000 <= n < 0x8000_0000 then Ok(n) else Err
  {
    var s := IntToDecimal(n);
    if n < 0 {
      var t := NatToDigits(-n, 10);
      assert s == "-" + t && s[0] == '-' && s[1..] == t;
      ParseDigitsOfNatToDigits(-n, 10);
    } else {
      var t := NatToDigits(n, 10);
      assert s == t && DigitValue(t[0], 10) >= 0;
      ParseDigitsOfNatToDigits(n, 10);
    }
  }

  /** `Short.parseShort` reads back exactly the decimal renderings of the
      `short` range: 32767 is accepted, 32768 is not. */
  lemma ParseShortOfDecimal(n: int)
    ensures ParseShort(IntToDecimal(n), 10) ==
      if -0x8000 <= n < 0x8000 then Ok(n) else Err
  {
    ParseIntOfDecimal(n);
  }

  /** `Short.parseShort(_, 16)` reads back the hexadecimal digits of every
      non-negative `short`, and rejects those of larger values. */
  lemma ParseShortOfHex(n: nat)
    ensures ParseShort(NatToDigits(n, 16), 16) == if n < 0x8000 then Ok(n) else Err
  {
    var s := NatToDigits(n, 16);
    ParseDigitsOfNatToDigits(n, 16);
    assert DigitValue(s[0], 16) >= 0;
  }

  // ---------------------------------------------------------------------
  // Other spellings

  /** `k` zeros. */
  function Zeros(k: nat): (z: string)
    ensures |z| == k && forall i :: 0 <= i < k ==> z[i] == '0'
  {
    if k == 0 then [] else "0" + Zeros(k - 1)
  }

  /** A leading zero does not change the value of a string of digits. */
  lemma {:induction false} ParseDigitsLeadingZero(s: string, radix: nat)
    requires 2 <= radix <= 36
    ensures ParseDigits("0" + s, radix) == ParseDigits(s, radix)
    decreases |s|
  {
    var t := "0" + s;
    if s == [] {
      assert t[..0] == [];
    } else {
      assert t[..|t| - 1] == "0" + s[..|s| - 1];
      assert t[|t| - 1] == s[|s| - 1];
      ParseDigitsLeadingZero(s[..|s| - 1], radix);
    }
  }

  /** Any number of leading zeros does not change the value. */
  lemma {:induction false} ParseDigitsLeadingZeros(k: nat, s: string, radix: nat)
    requires 2 <= radix <= 36
    ensures ParseDigits(Zeros(k) + s, radix) == ParseDigits(s, radix)
    decreases k
  {
    if k > 0 {
      var z := Zeros(k - 1) + s;
      ZerosCons(k, s);
      ParseDigitsLeadingZero(z, radix);
      ParseDigitsLeadingZeros(k - 1, s, radix);
    } else {
      assert Zeros(k) + s == s;
    }
  }

  lemma ZerosCons(k: nat, s: string)
    requires k > 0
    ensures Zeros(k) + s == "0" + (Zeros(k - 1) + s)
  {
    assert Zeros(k) == "0" + Zeros(k - 1);
  }

  /** Only the value of each digit matters, so `FF`, `fF` and `ff` read
      alike. */
  lemma {:induction false} ParseDigitsByValue(s: string, t: string, radix: nat)
    requires 2 <= radix <= 36
    requires |s| == |t| && forall i :: 0 <= i < |s| ==> DigitValue(s[i], radix) == DigitValue(t[i], radix)
    ensures ParseDigits(s, radix) == ParseDigits(t, radix)
    decreases |s|
  {
    if s != [] {
      var s', t' := s[..|s| - 1], t[..|t| - 1];
      assert forall i :: 0 <= i < |s'| ==> s'[i] == s[i] && t'[i] == t[i];
      ParseDigitsByValue(s', t', radix);
    }
  }

  /** A spelling of the digits of `n`: the same length as its rendering,
      with the same digit value at each position, in either case. */
  predicate SpellsDigits(d: string, n: nat, radix: nat)
    requires 2 <= radix <= 36
  {
    var canonical := NatToDigits(n, radix);
    |d| == |canonical| && forall i :: 0 <= i < |d| ==> DigitValue(d[i], radix) == DigitValue(canonical[i], radix)
  }

  /** The value of a sign followed by a magnitude. */
  function Signed(sign: string, n: nat): int {
    if sign == "-" then -(n as int) else n
  }

  /** Leading zeros and a spelling of the digits of `n` read as `n`. */
  lemma PaddedDigitsValue(zeros: nat, d: string, n: nat, radix: nat)
    requires 2 <= radix <= 36
    requires SpellsDigits(d, n, radix)
    ensures ParseDigits(Zeros(zeros) + d, radix) == Some(n)
    ensures Zeros(zeros) + d != [] && DigitValue((Zeros(zeros) + d)[0], radix) >= 0
  {
    var canonical := NatToDigits(n, radix);
    assert DigitValue(d[0], radix) == DigitValue(canonical[0], radix) >= 0;
    assert zeros > 0 ==> (Zeros(zeros) + d)[0] == '0';
    assert zeros == 0 ==> (Zeros(zeros) + d)[0] == d[0];
    ParseDigitsLeadingZeros(zeros, d, radix);
    ParseDigitsByValue(d, canonical, radix);
    ParseDigitsOfNatToDigits(n, radix);
  }

  /** `Integer.parseInt` of a sign and a string starting with a digit: the
      digits' value, negated after `-`, when it fits in an `int`. */
  lemma ParseIntSigned(sign: string, digits: string, radix: nat, n: nat)
    requires 2 <= radix <= 36
    requires sign == "" || sign == "+" || sign == "-"
    requires digits != [] && DigitValue(digits[0], radix) >= 0
    requires ParseDigits(digits, radix) == Some(n)
    ensures ParseInt(sign + digits, radix) ==
      if -0x8000_0000 <= Signed(sign, n) < 0x8000_0000 then Ok(Signed(sign, n)) else Err
  {
    var s := sign + digits;
    if sign == "" {
      assert s == digits;
    } else {
      assert s[0] == sign[0] && s[1..] == digits;
    }
  }

  /** Every spelling `Integer.parseInt` accepts reads as its value: an
      optional `+` or `-`, any number of leading zeros, and the digits of
      `n` in either case; outside the `int` range it fails. */
  lemma ParseIntOfSpelling(sign: string, zeros: nat, d: string, n: nat, radix: nat)
    requires 2 <= radix <= 36
    requires sign == "" || sign == "+" || sign == "-"
    requires SpellsDigits(d, n, radix)
    ensures ParseInt(sign + (Zeros(zeros) + d), radix) ==
      if -0x8000_0000 <= Signed(sign, n) < 0x8000_0000 then Ok(Signed(sign, n)) else Err
  {
    PaddedDigitsValue(zeros, d, n, radix);
    ParseIntSigned(sign, Zeros(zeros) + d, radix, n);
  }

  /** The same for `Short.parseShort`, within the `short` range. */
  lemma ParseShortOfSpelling(sign: string, zeros: nat, d: string, n: nat, radix: nat)
    requires 2 <= radix <= 36
    requires sign == "" || sign == "+" || sign == "-"
    requires SpellsDigits(d, n, radix)
    ensures ParseShort(sign + (Zeros(zeros) + d), radix) ==
      if -0x8000 <= Signed(sign, n) < 0x8000 then Ok(Signed(sign, n)) else Err
  {
    ParseIntOfSpelling(sign, zeros, d, n, radix);
  }
}
