/** The Java string operations the assembler uses: `replaceAll(",", "")`,
    `StringTokenizer` with the single delimiter space, `indexOf` on a
    character, and `equalsIgnoreCase` against a fixed ASCII key. */
module JavaText {

  // ---------------------------------------------------------------------
  // replaceAll(",", "")

  /** The line with every comma removed and every other character kept in
      order. */
  function RemoveCommas(s: string): (r: string)
    ensures CommaFree(r)
    ensures CommaFree(s) ==> r == s
  {
    if s == [] then []
    else (if s[0] == ',' then [] else [s[0]]) + RemoveCommas(s[1..])
  }

  /** Removing commas keeps every other character, as often as it occurs. */
  lemma {:induction false} RemoveCommasKeepsOthers(s: string)
    ensures forall c :: c != ',' ==> multiset(RemoveCommas(s))[c] == multiset(s)[c]
  {
    if s != [] {
      RemoveCommasKeepsOthers(s[1..]);
      assert s == [s[0]] + s[1..];
    }
  }

  predicate CommaFree(s: string) {
    forall i :: 0 <= i < |s| ==> s[i] != ','
  }

  /** Removing commas distributes over concatenation, so a comma anywhere in
      a line is as good as no comma at all. */
  lemma {:induction false} RemoveCommasAppend(a: string, b: string)
    ensures RemoveCommas(a + b) == RemoveCommas(a) + RemoveCommas(b)
    decreases |a|
  {
    if a == [] {
      assert a + b == b;
    } else {
      assert (a + b)[1..] == a[1..] + b;
      RemoveCommasAppend(a[1..], b);
    }
  }

  // ---------------------------------------------------------------------
  // indexOf

  /** `s.indexOf(c)`: the position of the first `c`, or -1. */
  function IndexOf(s: string, c: char): (k: int)
    ensures -1 <= k < |s|
    ensures k == -1 <==> forall i :: 0 <= i < |s| ==> s[i] != c
    ensures 0 <= k ==> s[k] == c && forall i :: 0 <= i < k ==> s[i] != c
  {
    if s == [] then -1
    else if s[0] == c then 0
    else
      var k := IndexOf(s[1..], c);
      if k < 0 then -1 else k + 1
  }

  /** The first `c` of a string is the one right after a prefix without
      `c`. */
  lemma IndexOfAfter(a: string, c: char, b: string)
    requires forall i :: 0 <= i < |a| ==> a[i] != c
    ensures IndexOf(a + [c] + b, c) == |a|
  {
    var t := a + [c] + b;
    assert t[|a|] == c;
    assert forall i :: 0 <= i < |a| ==> t[i] == a[i];
  }

  // ---------------------------------------------------------------------
  // StringTokenizer(s, " ")

  /** A token as `StringTokenizer` with delimiter space returns it: non-empty
      and free of spaces. */
  predicate IsWord(t: string) {
    t != [] && forall i :: 0 <= i < |t| ==> t[i] != ' '
  }

  /** The tokens `StringTokenizer(s, " ")` hands out, in order: the maximal
      runs of non-space characters. Only the space character separates;
      tabs and other white space are part of a token. */
  function Tokens(s: string): (ts: seq<string>)
    ensures forall k :: 0 <= k < |ts| ==> IsWord(ts[k])
    ensures (forall i :: 0 <= i < |s| ==> s[i] == ' ') <==> ts == []
    decreases |s|
  {
    if s == [] then []
    else if s[0] == ' ' then
      var ts := Tokens(s[1..]);
      assert (forall i :: 0 <= i < |s| ==> s[i] == ' ') <==> (forall i :: 0 <= i < |s[1..]| ==> s[1..][i] == ' ');
      ts
    else
      var n := IndexOf(s, ' ');
      if n < 0 then [s] else [s[..n]] + Tokens(s[n..])
  }

  /** The inverse of tokenising: words joined by single spaces. */
  function Join(ts: seq<string>): string {
    if ts == [] then []
    else if |ts| == 1 then ts[0]
    else ts[0] + " " + Join(ts[1..])
  }

  /** Tokenising words joined by single spaces gives the words back. */
  lemma {:induction false} TokensOfJoin(ts: seq<string>)
    requires forall k :: 0 <= k < |ts| ==> IsWord(ts[k])
    ensures Tokens(Join(ts)) == ts
  {
    if |ts| == 1 {
      assert IndexOf(ts[0], ' ') == -1;
    } else if |ts| > 1 {
      var t, rest := ts[0], Join(ts[1..]);
      var s := t + " " + rest;
      assert s == Join(ts);
      assert s[0] == t[0] != ' ';
      assert IndexOf(s, ' ') == |t| by {
        assert s[|t|] == ' ';
        assert forall i :: 0 <= i < |t| ==> s[i] == t[i];
      }
      assert s[..|t|] == t;
      assert s[|t|..] == " " + rest;
      assert (" " + rest)[1..] == rest;
      TokensOfJoin(ts[1..]);
    }
  }

  /** Joining comma-free words gives a comma-free line. */
  lemma {:induction false} JoinCommaFree(ts: seq<string>)
    requires forall k :: 0 <= k < |ts| ==> CommaFree(ts[k])
    ensures CommaFree(Join(ts))
  {
    if |ts| > 1 {
      JoinCommaFree(ts[1..]);
      var s := ts[0] + " " + Join(ts[1..]);
      forall i | 0 <= i < |s| ensures s[i] != ',' {
        if i < |ts[0]| {
          assert s[i] == ts[0][i];
        } else if i > |ts[0]| {
          assert s[i] == Join(ts[1..])[i - |ts[0]| - 1];
        }
      }
    }
  }

  /** Leading spaces are skipped. */
  lemma TokensSkipSpace(s: string)
    ensures Tokens(" " + s) == Tokens(s)
  {
    assert (" " + s)[1..] == s;
  }

  /** The first `c` of `a` is still the first `c` once text is appended. */
  lemma IndexOfPrefix(a: string, c: char, b: string)
    requires IndexOf(a, c) >= 0
    ensures IndexOf(a + b, c) == IndexOf(a, c)
  {
    var n, t := IndexOf(a, c), a + b;
    assert t[n] == c;
    assert forall i :: 0 <= i < |a| ==> t[i] == a[i];
  }

  /** A space splits a line into two that are tokenised separately, however
      many spaces either side already has: with `TokensOfJoin` on a single
      word this fixes the tokens of every line. */
  lemma {:induction false} TokensSplitAtSpace(a: string, b: string)
    ensures Tokens(a + " " + b) == Tokens(a) + Tokens(b)
    decreases |a|
  {
    if a == [] {
      TokensSplitEmpty(b);
    } else if a[0] == ' ' {
      TokensSplitAtSpace(a[1..], b);
      TokensSplitLeadingSpace(a, b);
    } else if IndexOf(a, ' ') < 0 {
      TokensSplitWord(a, b);
    } else {
      TokensSplitAtSpace(a[IndexOf(a, ' ')..], b);
      TokensSplitFirstWord(a, b);
    }
  }

  lemma TokensSplitEmpty(b: string)
    ensures Tokens([] + " " + b) == Tokens([]) + Tokens(b)
  {
    assert [] + " " + b == " " + b;
    TokensSkipSpace(b);
  }

  lemma TokensSplitLeadingSpace(a: string, b: string)
    requires a != [] && a[0] == ' '
    requires Tokens(a[1..] + " " + b) == Tokens(a[1..]) + Tokens(b)
    ensures Tokens(a + " " + b) == Tokens(a) + Tokens(b)
  {
    assert (a + " " + b)[1..] == a[1..] + " " + b;
  }

  /** A space-free word followed by a space is a token of its own. */
  lemma TokensSplitWord(a: string, b: string)
    requires a != [] && a[0] != ' ' && IndexOf(a, ' ') < 0
    ensures Tokens(a + " " + b) == Tokens(a) + Tokens(b)
  {
    var s := a + " " + b;
    IndexOfAfter(a, ' ', b);
    assert s[0] == a[0];
    assert s[..|a|] == a;
    assert s[|a|..] == " " + b;
    TokensSkipSpace(b);
  }

  /** The first token of `a` is the first token of `a`, a space and `b`,
      and the rest follows from the text after it. */
  lemma TokensSplitFirstWord(a: string, b: string)
    requires a != [] && a[0] != ' ' && IndexOf(a, ' ') >= 0
    requires Tokens(a[IndexOf(a, ' ')..] + " " + b) == Tokens(a[IndexOf(a, ' ')..]) + Tokens(b)
    ensures Tokens(a + " " + b) == Tokens(a) + Tokens(b)
  {
    var s, n := a + " " + b, IndexOf(a, ' ');
    IndexOfPrefix(a, ' ', " " + b);
    assert s == a + (" " + b);
    assert s[0] == a[0];
    assert s[..n] == a[..n];
    assert s[n..] == a[n..] + " " + b;
  }

  /** A single word is a single token. */
  lemma TokensOfWord(w: string)
    requires IsWord(w)
    ensures Tokens(w) == [w]
  {
    TokensOfJoin([w]);
  }

  /** Runs of spaces and trailing spaces separate nothing: a word, two
      spaces, a word and a space give the two words. */
  lemma TokensOfSpacedWords(v: string, w: string)
    requires IsWord(v) && IsWord(w)
    ensures Tokens(v + "  " + w + " ") == [v, w]
  {
    TokensSplitAtSpace(w, "");
    TokensSkipSpace(w + " " + "");
    TokensSplitAtSpace(v, " " + (w + " " + ""));
    assert v + " " + (" " + (w + " " + "")) == v + "  " + w + " ";
    TokensOfWord(v);
    TokensOfWord(w);
  }

  /** `j  4 ` gives the tokens `j` and `4`. */
  lemma TokensExample()
    ensures Tokens("j  4 ") == ["j", "4"]
  {
    TokensOfSpacedWords("j", "4");
    assert "j" + "  " + "4" + " " == "j  4 ";
  }

  // ---------------------------------------------------------------------
  // equalsIgnoreCase

  /** The character `equalsIgnoreCase` treats as equal to `c` when the other
      side is an ASCII letter or symbol: ASCII upper case folds to lower
      case, and the four non-ASCII characters whose Java upper or lower case
      is an ASCII letter fold to that letter (U+0130 and U+0131 to `i`,
      U+017F to `s`, the Kelvin sign U+212A to `k`). */
  function Fold(c: char): (f: char)
    ensures 'A' <= c <= 'Z' ==> f as int == c as int + 32
    ensures c as int < 128 && !('A' <= c <= 'Z') ==> f == c
  {
    if 'A' <= c <= 'Z' then (c as int + 32) as char
    else if c == '\U{0130}' || c == '\U{0131}' then 'i'
    else if c == '\U{017F}' then 's'
    else if c == '\U{212A}' then 'k'
    else c
  }

  /** Every character folded. */
  function FoldAll(s: string): (r: string)
    ensures |r| == |s|
    ensures forall i :: 0 <= i < |s| ==> r[i] == Fold(s[i])
  {
    if s == [] then [] else [Fold(s[0])] + FoldAll(s[1..])
  }

  /** `s.equalsIgnoreCase(key)` for a key of ASCII characters: same length,
      and character by character equal after folding. */
  predicate EqualsIgnoreCase(s: string, key: string) {
    |s| == |key| && (s == [] || (Fold(s[0]) == Fold(key[0]) && EqualsIgnoreCase(s[1..], key[1..])))
  }

  /** Comparing ignoring case is comparing the folded strings. */
  lemma {:induction false} EqualsIgnoreCaseIsFoldedEquality(s: string, key: string)
    ensures EqualsIgnoreCase(s, key) <==> FoldAll(s) == FoldAll(key)
    decreases |s|
  {
    if |s| == |key| && s != [] {
      EqualsIgnoreCaseIsFoldedEquality(s[1..], key[1..]);
      assert FoldAll(s) == [Fold(s[0])] + FoldAll(s[1..]);
      assert FoldAll(key) == [Fold(key[0])] + FoldAll(key[1..]);
    }
  }

  /** A key of ASCII characters with no upper-case letter: its own folded
      form. */
  predicate LowerAscii(key: string) {
    forall i :: 0 <= i < |key| ==> key[i] as int < 128 && !('A' <= key[i] <= 'Z')
  }

  /** For a key already in lower case, comparing ignoring case is comparing
      the folded token with the key itself. */
  lemma EqualsLowerCaseKey(s: string, key: string)
    requires LowerAscii(key)
    ensures EqualsIgnoreCase(s, key) <==> FoldAll(s) == key
  {
    EqualsIgnoreCaseIsFoldedEquality(s, key);
    assert FoldAll(key) == key;
  }
}
