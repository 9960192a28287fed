/** String primitives shared by the Python back end and the TypeScript front end:
    whitespace trimming, lower-casing, substring search and decimal numerals.
    Strings are sequences of Unicode scalar values, so `|s|` is the code-point
    length that Python's `len` and pydantic's length bounds count. */
module Text {

  // ---------------------------------------------------------------- whitespace

  /** The two languages whose notion of whitespace the code relies on. */
  datatype Lang = Python | JavaScript

  /** Whitespace as `str.strip()`/`\s` see it in Python and as `trim()`/`\s`
      see it in JavaScript. Both count TAB..CR, SPACE, NO-BREAK SPACE, the
      Unicode space separators and the line and paragraph separators. Python's
      `str.isspace` adds the information separators U+001C..U+001F and NEXT
      LINE U+0085; JavaScript's WhiteSpace adds the byte order mark U+FEFF. */
  predicate IsSpace(l: Lang, c: char) {
    || ('\t' <= c <= '\r')
    || c == ' '
    || c == '\U{00A0}'
    || c == '\U{1680}'
    || ('\U{2000}' <= c <= '\U{200A}')
    || c == '\U{2028}' || c == '\U{2029}'
    || c == '\U{202F}' || c == '\U{205F}' || c == '\U{3000}'
    || (l == Python && (('\U{001C}' <= c <= '\U{001F}') || c == '\U{0085}'))
    || (l == JavaScript && c == '\U{FEFF}')
  }

  /** The number of whitespace characters `s` starts with. */
  function LeadingSpace(l: Lang, s: string): (n: nat)
    ensures n <= |s|
    ensures forall i :: 0 <= i < n ==> IsSpace(l, s[i])
    ensures n == |s| || !IsSpace(l, s[n])
  {
    if s == [] || !IsSpace(l, s[0]) then 0 else 1 + LeadingSpace(l, s[1..])
  }

  /** The number of whitespace characters `s` ends with. */
  function TrailingSpace(l: Lang, s: string): (n: nat)
    ensures n <= |s|
    ensures forall i :: |s| - n <= i < |s| ==> IsSpace(l, s[i])
    ensures n == |s| || !IsSpace(l, s[|s| - n - 1])
  {
    if s == [] || !IsSpace(l, s[|s| - 1]) then 0 else 1 + TrailingSpace(l, s[..|s| - 1])
  }

  /** Python's `str.strip()` (`l` is Python) and JavaScript's `trim()` (`l` is
      JavaScript): `s` is its maximal run of leading whitespace, then the
      result, then whitespace, and the result neither starts nor ends with
      whitespace. */
  function Trim(l: Lang, s: string): (r: string)
    ensures r == [] || (!IsSpace(l, r[0]) && !IsSpace(l, r[|r| - 1]))
    ensures LeadingSpace(l, s) + |r| <= |s| && r == s[LeadingSpace(l, s)..LeadingSpace(l, s) + |r|]
    ensures forall i :: LeadingSpace(l, s) + |r| <= i < |s| ==> IsSpace(l, s[i])
  {
    var a := LeadingSpace(l, s);
    if a == |s| then []
    else
      var b := TrailingSpace(l, s);
      assert a < |s| - b;
      s[a..|s| - b]
  }

  /** A text that neither starts nor ends with whitespace is its own trim. */
  lemma TrimOfTrimmed(l: Lang, s: string)
    requires s == [] || (!IsSpace(l, s[0]) && !IsSpace(l, s[|s| - 1]))
    ensures Trim(l, s) == s
  {
    TrimPadded(l, [], s, []);
    assert [] + s + [] == s;
  }

  /** Trimming twice is trimming once. */
  lemma TrimIdempotent(l: Lang, s: string)
    ensures Trim(l, Trim(l, s)) == Trim(l, s)
  {
    var t := Trim(l, s);
    assert t == [] || (!IsSpace(l, t[0]) && !IsSpace(l, t[|t| - 1]));
    TrimOfTrimmed(l, t);
  }

  /** Trimming keeps only characters of the text, so any property every
      character has carries over. */
  lemma TrimKeeps(l: Lang, s: string, P: char -> bool)
    requires forall i :: 0 <= i < |s| ==> P(s[i])
    ensures forall i :: 0 <= i < |Trim(l, s)| ==> P(Trim(l, s)[i])
  {
    var n, t := LeadingSpace(l, s), Trim(l, s);
    assert forall i :: 0 <= i < |t| ==> t[i] == s[n + i];
  }

  /** Trimming a text padded with whitespace on both sides gives the text,
      when the text itself neither starts nor ends with whitespace. */
  lemma TrimPadded(l: Lang, before: string, s: string, after: string)
    requires forall i :: 0 <= i < |before| ==> IsSpace(l, before[i])
    requires forall i :: 0 <= i < |after| ==> IsSpace(l, after[i])
    requires s == [] || (!IsSpace(l, s[0]) && !IsSpace(l, s[|s| - 1]))
    ensures Trim(l, before + s + after) == s
  {
    var x := before + s + after;
    var n, r := LeadingSpace(l, x), Trim(l, x);
    assert forall i :: 0 <= i < |before| ==> x[i] == before[i];
    assert forall i :: 0 <= i < |s| ==> x[|before| + i] == s[i];
    assert forall i :: 0 <= i < |after| ==> x[|before| + |s| + i] == after[i];
    if s == [] {
      assert forall i :: 0 <= i < |x| ==> IsSpace(l, x[i]);
      assert n == |x|;
    } else {
      assert x[|before|] == s[0] && x[|before| + |s| - 1] == s[|s| - 1];
      assert n == |before|;
      assert |r| == |s|;
      assert r == x[|before|..|before| + |s|];
    }
  }

  // ---------------------------------------------------------------- case

  /** Upper-case letters of the Latin and Cyrillic alphabets: A..Z, Ѐ..Я, Ґ. */
  predicate IsUpper(c: char) {
    ('A' <= c <= 'Z') || ('\U{0400}' <= c <= '\U{042F}') || c == '\U{0490}'
  }

  /** Python's `str.lower()` and JavaScript's `toLowerCase()` on one character,
      for the Latin and Cyrillic alphabets; every other character is unchanged. */
  function LowerChar(c: char): (d: char)
    ensures IsUpper(c) <==> d != c
    ensures !IsUpper(d)
  {
    if 'A' <= c <= 'Z' then (c as int + 32) as char
    else if '\U{0400}' <= c <= '\U{040F}' then (c as int + 80) as char
    else if '\U{0410}' <= c <= '\U{042F}' then (c as int + 32) as char
    else if c == '\U{0490}' then '\U{0491}'
    else c
  }

  /** The capital letters lower-casing knows, written out alphabet by
      alphabet, each with its small letters in the same positions. */
  const LatinCapitals: string := "ABCDEFGHIJKLMNOPQRSTUVWXYZ"
  const LatinSmalls: string := "abcdefghijklmnopqrstuvwxyz"
  const CyrillicExtraCapitals: string := "ЀЁЂЃЄЅІЇЈЉЊЋЌЍЎЏ"
  const CyrillicExtraSmalls: string := "ѐёђѓєѕіїјљњћќѝўџ"
  const CyrillicCapitals: string := "АБВГДЕЖЗИЙКЛМНОП"
  const CyrillicSmalls: string := "абвгдежзийклмноп"
  const CyrillicLateCapitals: string := "РСТУФХЦЧШЩЪЫЬЭЮЯҐ"
  const CyrillicLateSmalls: string := "рстуфхцчшщъыьэюяґ"

  /** The whole table: every capital lower-casing knows, and its small letter
      at the same position. */
  const Capitals: string := LatinCapitals + CyrillicExtraCapitals + CyrillicCapitals + CyrillicLateCapitals
  const Smalls: string := LatinSmalls + CyrillicExtraSmalls + CyrillicSmalls + CyrillicLateSmalls

  /** `small` is `caps` lower-cased letter by letter. */
  predicate LowersTo(caps: string, small: string) {
    && |caps| == |small|
    && (forall k :: 0 <= k < |caps| ==> LowerChar(caps[k]) == small[k])
  }

  lemma LatinTable()
    ensures |LatinCapitals| == |LatinSmalls|
    ensures forall k :: 0 <= k < |LatinCapitals| ==> LowerChar(LatinCapitals[k]) == LatinSmalls[k]
  {
  }

  lemma CyrillicExtraTable()
    ensures |CyrillicExtraCapitals| == |CyrillicExtraSmalls|
    ensures forall k :: 0 <= k < |CyrillicExtraCapitals| ==> LowerChar(CyrillicExtraCapitals[k]) == CyrillicExtraSmalls[k]
  {
  }

  lemma CyrillicTable()
    ensures |CyrillicCapitals| == |CyrillicSmalls|
    ensures forall k :: 0 <= k < |CyrillicCapitals| ==> LowerChar(CyrillicCapitals[k]) == CyrillicSmalls[k]
  {
  }

  lemma CyrillicLateTable()
    ensures |CyrillicLateCapitals| == |CyrillicLateSmalls|
    ensures forall k :: 0 <= k < |CyrillicLateCapitals| ==> LowerChar(CyrillicLateCapitals[k]) == CyrillicLateSmalls[k]
  {
  }

  /** Two tables side by side are a table. */
  lemma LowersToAppend(c1: string, s1: string, c2: string, s2: string)
    requires LowersTo(c1, s1) && LowersTo(c2, s2)
    ensures LowersTo(c1 + c2, s1 + s2)
  {
    forall k | 0 <= k < |c1 + c2|
      ensures LowerChar((c1 + c2)[k]) == (s1 + s2)[k]
    {
      if k >= |c1| {
        assert (c1 + c2)[k] == c2[k - |c1|] && (s1 + s2)[k] == s2[k - |c1|];
      }
    }
  }

  /** Lower-casing agrees with the alphabet table: each of the 75 capitals
      becomes the small letter written under it. */
  lemma LowerCharTable()
    ensures |Capitals| == 75
    ensures LowersTo(Capitals, Smalls)
  {
    LatinTable();
    CyrillicExtraTable();
    CyrillicTable();
    CyrillicLateTable();
    var c1, s1 := LatinCapitals + CyrillicExtraCapitals, LatinSmalls + CyrillicExtraSmalls;
    LowersToAppend(LatinCapitals, LatinSmalls, CyrillicExtraCapitals, CyrillicExtraSmalls);
    LowersToAppend(c1, s1, CyrillicCapitals, CyrillicSmalls);
    LowersToAppend(c1 + CyrillicCapitals, s1 + CyrillicSmalls, CyrillicLateCapitals, CyrillicLateSmalls);
  }

  /** The whole text lower-cased, character by character. */
  function Lower(s: string): (r: string)
    ensures |r| == |s|
    ensures forall i :: 0 <= i < |s| ==> r[i] == LowerChar(s[i])
  {
    seq(|s|, i requires 0 <= i < |s| => LowerChar(s[i]))
  }

  /** Text that lower-casing leaves as it is. */
  predicate IsLowerCase(s: string) {
    forall i :: 0 <= i < |s| ==> !IsUpper(s[i])
  }

  /** Lower-casing a text that has no upper-case letter changes nothing. */
  lemma LowerOfLowerCase(s: string)
    requires IsLowerCase(s)
    ensures Lower(s) == s
  {
  }

  // ---------------------------------------------------------------- substrings

  /** `sub` occurs in `s` starting at index `i`. */
  predicate OccursAt(s: string, sub: string, i: int) {
    0 <= i <= |s| - |sub| && s[i..i + |sub|] == sub
  }

  /** `sub` occurs in `s` as a contiguous run: Python's `sub in s`. */
  predicate Contains(s: string, sub: string) {
    exists i :: 0 <= i <= |s| && OccursAt(s, sub, i)
  }

  /** `s` with every occurrence of the character `a` replaced by `b`. */
  function ReplaceChar(s: string, a: char, b: char): (r: string)
    ensures |r| == |s|
    ensures forall i :: 0 <= i < |s| ==> r[i] == (if s[i] == a then b else s[i])
  {
    seq(|s|, i requires 0 <= i < |s| => if s[i] == a then b else s[i])
  }

  // ---------------------------------------------------------------- order

  /** Lexicographic order by code point: Python's `<` on `str`. */
  predicate StrLess(a: string, b: string) {
    if a == [] then b != []
    else if b == [] then false
    else if a[0] != b[0] then a[0] < b[0]
    else StrLess(a[1..], b[1..])
  }

  /** No text precedes itself, and two texts are never each before the other. */
  lemma {:induction false} StrLessAsymmetric(a: string, b: string)
    ensures !(StrLess(a, b) && StrLess(b, a))
  {
    if a != [] && b != [] && a[0] == b[0] {
      StrLessAsymmetric(a[1..], b[1..]);
    }
  }

  lemma {:induction false} StrLessTransitive(a: string, b: string, c: string)
    requires StrLess(a, b) && StrLess(b, c)
    ensures StrLess(a, c)
  {
    if a != [] && b != [] && c != [] && a[0] == b[0] && b[0] == c[0] {
      StrLessTransitive(a[1..], b[1..], c[1..]);
    }
  }

  /** Of two different texts, one comes first. */
  lemma {:induction false} StrLessTotal(a: string, b: string)
    requires a != b
    ensures StrLess(a, b) || StrLess(b, a)
  {
    if a != [] && b != [] && a[0] == b[0] {
      assert a == [a[0]] + a[1..] && b == [b[0]] + b[1..];
      StrLessTotal(a[1..], b[1..]);
    }
  }

  // ---------------------------------------------------------------- numerals

  predicate IsDigit(c: char) {
    '0' <= c <= '9'
  }

  predicate AllDigits(s: string) {
    forall i :: 0 <= i < |s| ==> IsDigit(s[i])
  }

  function DigitChar(d: nat): (c: char)
    requires d < 10
    ensures IsDigit(c)
  {
    ('0' as int + d) as char
  }

  function DigitValue(c: char): (d: nat)
    requires IsDigit(c)
    ensures d < 10 && DigitChar(d) == c
  {
    c as int - '0' as int
  }

  /** The decimal numeral of `n`, without leading zeros: Python's `str(n)`,
      JavaScript's `String(n)` for a non-negative integer. */
  function NatToString(n: nat): (r: string)
    ensures |r| >= 1 && AllDigits(r)
    ensures r[0] == '0' ==> n == 0
  {
    if n < 10 then [DigitChar(n)] else NatToString(n / 10) + [DigitChar(n % 10)]
  }

  /** The numeral of a possibly negative integer, with a leading `-`. */
  function IntToString(n: int): string {
    if n < 0 then "-" + NatToString(-n) else NatToString(n)
  }

  /** The value of a run of decimal digits (empty run: 0). */
  function DigitsValue(s: string): nat
    requires AllDigits(s)
  {
    if s == [] then 0 else DigitsValue(s[..|s| - 1]) * 10 + DigitValue(s[|s| - 1])
  }

  /** Reading back a printed numeral gives the number printed. */
  lemma {:induction false} DigitsValueOfNatToString(n: nat)
    ensures DigitsValue(NatToString(n)) == n
  {
    if n >= 10 {
      var r := NatToString(n);
      assert r[..|r| - 1] == NatToString(n / 10);
      DigitsValueOfNatToString(n / 10);
    }
  }

  /** Distinct numbers print as distinct numerals. */
  lemma NatToStringInjective(m: nat, n: nat)
    requires NatToString(m) == NatToString(n)
    ensures m == n
  {
    DigitsValueOfNatToString(m);
    DigitsValueOfNatToString(n);
  }

  /** Distinct integers print as distinct numerals. */
  lemma IntToStringInjective(m: int, n: int)
    requires IntToString(m) == IntToString(n)
    ensures m == n
  {
    var a, b := IntToString(m), IntToString(n);
    if m < 0 && n < 0 {
      assert a[1..] == NatToString(-m) && b[1..] == NatToString(-n);
      NatToStringInjective(-m, -n);
    } else if m >= 0 && n >= 0 {
      NatToStringInjective(m, n);
    }
  }
}
