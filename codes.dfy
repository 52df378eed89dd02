/**
 * Short codes: the generated "word + number" codes and the cleaning applied to a
 * custom code as it is typed.
 */
module Codes {
  import opened Wrappers
  import opened Text

  /** The vocabulary generated codes start with. */
  const Words: seq<string> := ["cat", "dog", "sun", "moon", "tree"]

  predicate IsLetter(c: char) { 'a' <= c <= 'z' }

  predicate IsDigit(c: char) { '0' <= c <= '9' }

  /** The characters the custom-code field keeps: /[a-z0-9]/. */
  predicate IsCodeChar(c: char) { IsLetter(c) || IsDigit(c) }

  predicate IsCodeText(s: string) {
    forall i :: 0 <= i < |s| ==> IsCodeChar(s[i])
  }

  predicate AllDigits(s: string) {
    forall i :: 0 <= i < |s| ==> IsDigit(s[i])
  }

  predicate AllLetters(s: string) {
    forall i :: 0 <= i < |s| ==> IsLetter(s[i])
  }

  function DigitChar(d: nat): (c: char)
    requires d < 10
    ensures IsDigit(c) && (c == '0' <==> d == 0)
  {
    ('0' as int + d) as char
  }

  function DigitValue(c: char): (d: nat)
    requires IsDigit(c)
    ensures d < 10 && DigitChar(d) == c
  {
    c as int - '0' as int
  }

  /** `${n}`: the decimal form of a non-negative integer, with no leading zero. */
  function Decimal(n: nat): (r: string)
    ensures |r| > 0 && AllDigits(r)
    ensures r[0] == '0' <==> n == 0
    ensures n < 10 ==> |r| == 1
    ensures 10 <= n < 100 ==> |r| == 2
  {
    if n < 10 then [DigitChar(n)] else Decimal(n / 10) + [DigitChar(n % 10)]
  }

  /** The number a string of decimal digits denotes. */
  function DigitsValue(s: string): nat
    requires AllDigits(s)
  {
    if s == [] then 0 else DigitsValue(s[..|s| - 1]) * 10 + DigitValue(s[|s| - 1])
  }

  /** Reading back the decimal form of `n` gives `n`. */
  lemma {:induction false} DecimalRoundTrip(n: nat)
    ensures DigitsValue(Decimal(n)) == n
  {
    if n >= 10 {
      var s := Decimal(n);
      assert s[..|s| - 1] == Decimal(n / 10);
      DecimalRoundTrip(n / 10);
    }
  }

  /**
   * generateCode, with Math.random's two draws passed in: the word index (0 to 4)
   * and the number (1 to 99).
   */
  function GenerateCode(word: nat, num: nat): (code: string)
    requires word < |Words| && 1 <= num <= 99
    ensures IsCodeText(code)
    ensures 4 <= |code| <= 6
  {
    WordFacts(word);
    Words[word] + Decimal(num)
  }

  lemma WordFacts(w: nat)
    requires w < |Words|
    ensures AllLetters(Words[w]) && 3 <= |Words[w]| <= 4
    ensures forall v :: 0 <= v < |Words| && Words[v] == Words[w] ==> v == w
  {
    forall v | 0 <= v < |Words| && Words[v] == Words[w]
      ensures v == w
    {
      assert Words[v][0] == Words[w][0];
    }
  }

  /** The length of the run of lower-case letters `s` starts with. */
  function LetterRun(s: string): (k: nat)
    ensures k <= |s| && forall i :: 0 <= i < k ==> IsLetter(s[i])
    ensures k == |s| || !IsLetter(s[k])
  {
    if |s| > 0 && IsLetter(s[0]) then 1 + LetterRun(s[1..]) else 0
  }

  lemma {:induction false} LetterRunAppend(a: string, b: string)
    requires AllLetters(a)
    requires b == [] || !IsLetter(b[0])
    ensures LetterRun(a + b) == |a|
  {
    if a != [] {
      assert (a + b)[1..] == a[1..] + b;
      LetterRunAppend(a[1..], b);
    }
  }

  /** The first position of `w` in `ws`, if any. */
  function IndexOf(ws: seq<string>, w: string): (r: Option<nat>)
    ensures r.None? <==> w !in ws
    ensures r.Some? ==> r.value < |ws| && ws[r.value] == w
  {
    if ws == [] then None
    else if ws[0] == w then Some(0)
    else match IndexOf(ws[1..], w)
      case None => None
      case Some(k) => Some(k + 1)
  }

  /**
   * The inverse of generateCode: splits a code into its word index and its number,
   * and gives None for anything generateCode cannot produce.
   */
  function ParseGenerated(code: string): Option<(nat, nat)> {
    var k := LetterRun(code);
    var digits := code[k..];
    match IndexOf(Words, code[..k])
    case None => None
    case Some(w) =>
      if digits != [] && AllDigits(digits) && digits[0] != '0' && 1 <= DigitsValue(digits) <= 99
      then Some((w, DigitsValue(digits)))
      else None
  }

  /** Every generated code can be split back into the draws that made it. */
  lemma GenerateParseRoundTrip(word: nat, num: nat)
    requires word < |Words| && 1 <= num <= 99
    ensures ParseGenerated(GenerateCode(word, num)) == Some((word, num))
  {
    var code := GenerateCode(word, num);
    WordFacts(word);
    LetterRunAppend(Words[word], Decimal(num));
    assert code[..|Words[word]|] == Words[word];
    assert code[|Words[word]|..] == Decimal(num);
    DecimalRoundTrip(num);
  }

  /** Different draws give different codes: there are 5 * 99 distinct generated codes. */
  lemma GenerateCodeInjective(w1: nat, n1: nat, w2: nat, n2: nat)
    requires w1 < |Words| && 1 <= n1 <= 99
    requires w2 < |Words| && 1 <= n2 <= 99
    requires GenerateCode(w1, n1) == GenerateCode(w2, n2)
    ensures w1 == w2 && n1 == n2
  {
    GenerateParseRoundTrip(w1, n1);
    GenerateParseRoundTrip(w2, n2);
  }

  /**
   * What `toLowerCase()` followed by `replace(/[^a-z0-9]/g, '')` leaves of one code
   * point. Besides A-Z, two code points lower-case to an ASCII letter: KELVIN SIGN
   * becomes "k", and U+0130 becomes "i" followed by U+0307, which the regex removes.
   */
  function CleanChar(c: char): (r: string)
    ensures IsCodeText(r) && |r| <= 1
    ensures IsCodeChar(c) ==> r == [c]
    ensures 'A' <= c <= 'Z' ==> r == [(c as int - 'A' as int + 'a' as int) as char]
    ensures c == '\U{212A}' ==> r == "k"
    ensures c == '\U{0130}' ==> r == "i"
    ensures r == [] <==> !IsCodeChar(c) && !('A' <= c <= 'Z') && c != '\U{212A}' && c != '\U{0130}'
  {
    if IsCodeChar(c) then [c]
    else if 'A' <= c <= 'Z' then [(c as int - 'A' as int + 'a' as int) as char]
    else if c == '\U{212A}' then "k"
    else if c == '\U{0130}' then "i"
    else []
  }

  /** The custom-code field's cleaning: lower-case, then keep only a-z and 0-9. */
  function CleanCode(s: string): (r: string)
    ensures IsCodeText(r) && |r| <= |s|
  {
    if s == [] then [] else CleanChar(s[0]) + CleanCode(s[1..])
  }

  /** ASCII lower case: A-Z map to a-z, every other code point is itself. */
  function AsciiLower(c: char): char {
    if 'A' <= c <= 'Z' then (c as int - 'A' as int + 'a' as int) as char else c
  }

  /**
   * Typed ASCII letters and digits all survive the cleaning, lower-cased and in
   * place: "ABC" cleans to "abc".
   */
  lemma {:induction false} CleanCodeLowerCases(s: string)
    requires forall i :: 0 <= i < |s| ==> IsCodeChar(s[i]) || 'A' <= s[i] <= 'Z'
    ensures |CleanCode(s)| == |s|
    ensures forall i :: 0 <= i < |s| ==> CleanCode(s)[i] == AsciiLower(s[i])
  {
    if s != [] {
      CleanCodeLowerCases(s[1..]);
      assert CleanCode(s) == [AsciiLower(s[0])] + CleanCode(s[1..]);
    }
  }

  /** A text none of whose code points survives cleans to the empty code. */
  lemma {:induction false} CleanCodeDropsAll(s: string)
    requires forall i :: 0 <= i < |s| ==> CleanChar(s[i]) == []
    ensures CleanCode(s) == []
  {
    if s != [] {
      CleanCodeDropsAll(s[1..]);
    }
  }

  /** Cleaning leaves a string that is already made of a-z and 0-9 as it is. */
  lemma {:induction false} CleanCodeFixesCodeText(s: string)
    requires IsCodeText(s)
    ensures CleanCode(s) == s
  {
    if s != [] {
      CleanCodeFixesCodeText(s[1..]);
    }
  }

  /** Cleaning twice is cleaning once. */
  lemma CleanCodeIdempotent(s: string)
    ensures CleanCode(CleanCode(s)) == CleanCode(s)
  {
    CleanCodeFixesCodeText(CleanCode(s));
  }

  /** Cleaning works character by character, so it keeps the order of what it keeps. */
  lemma {:induction false} CleanCodeConcat(a: string, b: string)
    ensures CleanCode(a + b) == CleanCode(a) + CleanCode(b)
  {
    if a == [] {
      assert a + b == b;
    } else {
      assert (a + b)[1..] == a[1..] + b;
      CleanCodeConcat(a[1..], b);
    }
  }

  /** A cleaned code contains no whitespace, so trim() leaves it as it is. */
  lemma TrimCodeText(s: string)
    requires IsCodeText(s)
    ensures Trim(s) == s
  {
    TrimUntouched(s);
  }

  /**
   * `customCode.trim() || generateCode()`: the code that reaches the collision check.
   * A clean custom code is used as it is; an empty one is replaced by a generated code.
   */
  function ChosenCode(custom: string, word: nat, num: nat): (code: string)
    requires word < |Words| && 1 <= num <= 99
    ensures IsCodeText(custom) ==> IsCodeText(code) && code != []
    ensures IsCodeText(custom) && custom != [] ==> code == custom
    ensures AllWhitespace(custom) ==> ParseGenerated(code) == Some((word, num))
  {
    assert IsCodeText(custom) ==> Trim(custom) == custom by {
      if IsCodeText(custom) { TrimCodeText(custom); }
    }
    GenerateParseRoundTrip(word, num);
    var t := Trim(custom);
    if t != [] then t else GenerateCode(word, num)
  }
}
