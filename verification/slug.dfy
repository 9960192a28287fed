/** The three `slugify` functions of the repository:
    - backend/app/utils.py: strip, lower-case, every run of characters outside
      a–z, 0–9, а–я, і, ї, є, ґ becomes one `-`, runs of `-` collapse, `-` is
      stripped from both ends, and "product" stands in for an empty result;
    - backend/app/seed.py and frontend/app/admin/page.tsx: lower-case, drop
      everything that is not a word character, whitespace or `-`, every run of
      whitespace, `_` and `-` becomes one `-`, `-` is stripped from both ends,
      and "product" stands in for an empty result. They differ only in what a
      word character is: any Unicode letter, digit or `_` for Python's `\w`
      (a parameter here), only A–Z, a–z, 0–9 and `_` for JavaScript's `\w`
      without the `u` flag. */
module Slug {
  import opened Text

  /** No two `-` in a row. */
  ghost predicate NoDoubleDash(s: string) {
    forall i, j :: 0 <= i && j == i + 1 && j < |s| ==> !(s[i] == '-' && s[j] == '-')
  }

  /** What every slugify returns: non-empty, not starting or ending with `-`,
      and without `--`. */
  ghost predicate SlugShape(s: string) {
    s != [] && s[0] != '-' && s[|s| - 1] != '-' && NoDoubleDash(s)
  }

  /** `re.sub(r"<sep>+", "-", s)` and `s.replace(/<sep>+/g, "-")`: each maximal
      run of characters satisfying `sep` becomes a single `-`. */
  function Squash(s: string, sep: char -> bool): (r: string)
    ensures r == [] <==> s == []
    ensures s != [] && sep(s[|s| - 1]) ==> r[|r| - 1] == '-'
    ensures s != [] && !sep(s[|s| - 1]) ==> r[|r| - 1] == s[|s| - 1]
    ensures forall i :: 0 <= i < |r| ==> r[i] == '-' || !sep(r[i])
    ensures sep('-') ==> NoDoubleDash(r)
  {
    if s == [] then []
    else
      var r := Squash(s[..|s| - 1], sep);
      var c := s[|s| - 1];
      if !sep(c) then r + [c]
      else if |s| >= 2 && sep(s[|s| - 2]) then r
      else r + "-"
  }

  /** Every character satisfies `P`, or is `-`. */
  ghost predicate DashOr(s: string, P: char -> bool) {
    forall i :: 0 <= i < |s| ==> s[i] == '-' || P(s[i])
  }

  /** Squashing keeps any property the characters had, besides adding `-`. */
  lemma {:induction false} SquashKeeps(s: string, sep: char -> bool, P: char -> bool)
    requires DashOr(s, P)
    ensures DashOr(Squash(s, sep), P)
    decreases |s|
  {
    if s != [] {
      SquashKeeps(s[..|s| - 1], sep, P);
    }
  }

  /** A text whose only separator characters are lone `-` is left as it is. */
  lemma {:induction false} SquashIdentity(s: string, sep: char -> bool)
    requires forall i :: 0 <= i < |s| && sep(s[i]) ==> s[i] == '-'
    requires forall i, j :: 0 <= i && j == i + 1 && j < |s| ==> !(sep(s[i]) && sep(s[j]))
    ensures Squash(s, sep) == s
    decreases |s|
  {
    if s != [] {
      var p := s[..|s| - 1];
      SquashIdentity(p, sep);
      assert s == p + [s[|s| - 1]];
    }
  }

  /** A run of separators after a non-separator adds one dash. */
  lemma {:induction false} SquashRunEnd(a: string, m: string, sep: char -> bool)
    requires a == [] || !sep(a[|a| - 1])
    requires m != [] && forall i :: 0 <= i < |m| ==> sep(m[i])
    ensures Squash(a + m, sep) == Squash(a, sep) + "-"
    decreases |m|
  {
    var s := a + m;
    if |m| == 1 {
      assert s[..|s| - 1] == a;
    } else {
      var m' := m[..|m| - 1];
      assert s[..|s| - 1] == a + m';
      SquashRunEnd(a, m', sep);
    }
  }

  /** Text that starts with a non-separator is squashed on its own. */
  lemma {:induction false} SquashSplit(p: string, b: string, sep: char -> bool)
    requires b == [] || !sep(b[0])
    ensures Squash(p + b, sep) == Squash(p, sep) + Squash(b, sep)
    decreases |b|
  {
    if b == [] {
      assert p + b == p;
    } else {
      var s := p + b;
      var b' := b[..|b| - 1];
      var c := b[|b| - 1];
      assert s[..|s| - 1] == p + b' && s[|s| - 1] == c;
      SquashSplit(p, b', sep);
      var x, y := Squash(p, sep), Squash(b', sep);
      if !sep(c) {
        assert Squash(b, sep) == y + [c];
        assert Squash(s, sep) == (x + y) + [c];
      } else {
        assert |b| >= 2 && s[|s| - 2] == b[|b| - 2];
        if sep(b[|b| - 2]) {
          assert Squash(b, sep) == y;
        } else {
          assert Squash(b, sep) == y + "-";
          assert Squash(s, sep) == (x + y) + "-";
        }
      }
    }
  }

  /** `re.sub(r"<sep>+", "-", ...)` on its defining case: a maximal run of
      separators between two other characters becomes exactly one dash, and
      the text on either side is treated as if the other were not there. */
  lemma SquashRun(a: string, m: string, b: string, sep: char -> bool)
    requires a == [] || !sep(a[|a| - 1])
    requires m != [] && forall i :: 0 <= i < |m| ==> sep(m[i])
    requires b == [] || !sep(b[0])
    ensures Squash(a + m + b, sep) == Squash(a, sep) + "-" + Squash(b, sep)
  {
    SquashSplit(a + m, b, sep);
    SquashRunEnd(a, m, sep);
  }

  /** The number of `-` that `s` starts with. */
  function LeadingDashes(s: string): (n: nat)
    ensures n <= |s|
    ensures forall i :: 0 <= i < n ==> s[i] == '-'
    ensures n == |s| || s[n] != '-'
  {
    if s == [] || s[0] != '-' then 0 else 1 + LeadingDashes(s[1..])
  }

  /** The number of `-` that `s` ends with. */
  function TrailingDashes(s: string): (n: nat)
    ensures n <= |s|
    ensures forall i :: |s| - n <= i < |s| ==> s[i] == '-'
    ensures n == |s| || s[|s| - n - 1] != '-'
  {
    if s == [] || s[|s| - 1] != '-' then 0 else 1 + TrailingDashes(s[..|s| - 1])
  }

  /** Python's `s.strip("-")` and `re.sub(r"^-+|-+$", "", s)`: `s` is its
      maximal run of leading dashes, then the result, then dashes, and the
      result neither starts nor ends with `-`; it is empty only when `s` is
      all dashes. */
  function StripDashes(s: string): (r: string)
    ensures r == [] || (r[0] != '-' && r[|r| - 1] != '-')
    ensures LeadingDashes(s) + |r| <= |s| && forall i :: 0 <= i < |r| ==> r[i] == s[LeadingDashes(s) + i]
    ensures forall i :: LeadingDashes(s) + |r| <= i < |s| ==> s[i] == '-'
    ensures NoDoubleDash(s) ==> NoDoubleDash(r)
    ensures r == [] <==> forall i :: 0 <= i < |s| ==> s[i] == '-'
    ensures s == [] || (s[0] != '-' && s[|s| - 1] != '-') ==> r == s
  {
    var a := LeadingDashes(s);
    if a == |s| then []
    else
      var b := TrailingDashes(s);
      assert a < |s| - b;
      s[a..|s| - b]
  }

  /** Stripping keeps any property the characters had. */
  lemma StripKeeps(s: string, P: char -> bool)
    requires DashOr(s, P)
    ensures DashOr(StripDashes(s), P)
  {
  }

  // ---------------------------------------------------------------- utils.py

  /** The characters the slug of backend/app/utils.py keeps. */
  predicate IsSlugLetter(c: char) {
    || ('a' <= c <= 'z') || ('0' <= c <= '9')
    || ('а' <= c <= 'я') || c == 'і' || c == 'ї' || c == 'є' || c == 'ґ'
  }

  /** Outside the class `[a-z0-9а-яіїєґ]` matched with IGNORECASE: a character
      is inside when its lower-case form is. */
  predicate UtilsSep(c: char) {
    !IsSlugLetter(LowerChar(c))
  }

  /** `_` and `ё` are outside the class, as are whitespace and `-`. */
  lemma UtilsSeparators()
    ensures UtilsSep('_') && UtilsSep('ё') && UtilsSep('-') && UtilsSep(' ')
  {
  }

  predicate IsDash(c: char) {
    c == '-'
  }

  /** "product", the fallback of every slugify, is itself a slug. */
  lemma ProductIsSlug()
    ensures SlugShape("product")
    ensures forall i :: 0 <= i < |"product"| ==> 'a' <= "product"[i] <= 'z'
  {
    var p := "product";
    assert p[0] == 'p' && p[1] == 'r' && p[2] == 'o' && p[3] == 'd' && p[4] == 'u' && p[5] == 'c' && p[6] == 't';
  }

  /** `slugify` of backend/app/utils.py. */
  function UtilsSlugify(text: string): (r: string)
    ensures SlugShape(r)
    ensures forall i :: 0 <= i < |r| ==> r[i] == '-' || IsSlugLetter(r[i])
    ensures (forall i :: 0 <= i < |text| ==> UtilsSep(text[i])) ==> r == "product"
  {
    var t := Lower(Trim(Python, text));
    var u := Squash(t, UtilsSep);
    var v := Squash(u, IsDash);
    var w := StripDashes(v);
    UtilsSteps(text, t, u, v, w);
    ProductIsSlug();
    if w == [] then "product" else w
  }

  /** What each step of the utils slugify leaves: slug letters and dashes
      throughout, and nothing at all when the text has no slug letter. */
  lemma UtilsSteps(text: string, t: string, u: string, v: string, w: string)
    requires t == Lower(Trim(Python, text)) && u == Squash(t, UtilsSep) && v == Squash(u, IsDash) && w == StripDashes(v)
    ensures forall i :: 0 <= i < |w| ==> IsSlugLetter(w[i]) || w[i] == '-'
    ensures (forall i :: 0 <= i < |text| ==> UtilsSep(text[i])) ==> w == []
  {
    assert DashOr(t, NotUpper);
    SquashKeeps(t, UtilsSep, NotUpper);
    assert DashOr(u, IsSlugLetter);
    SquashKeeps(u, IsDash, IsSlugLetter);
    StripKeeps(v, IsSlugLetter);
    if forall i :: 0 <= i < |text| ==> UtilsSep(text[i]) {
      NoLetterLowered(text, t);
      UtilsAllDashes(t, u, v);
    }
  }

  /** Without slug letters, both squashes leave only dashes. */
  lemma UtilsAllDashes(t: string, u: string, v: string)
    requires forall i :: 0 <= i < |t| ==> UtilsSep(t[i])
    requires u == Squash(t, UtilsSep) && v == Squash(u, IsDash)
    ensures forall i :: 0 <= i < |v| ==> v[i] == '-'
  {
    SquashKeeps(t, UtilsSep, UtilsSep);
    assert DashOr(u, Never);
    SquashKeeps(u, IsDash, Never);
  }

  /** Trimming and lower-casing a text without slug letters leaves none. */
  lemma NoLetterLowered(text: string, t: string)
    requires t == Lower(Trim(Python, text))
    requires forall i :: 0 <= i < |text| ==> UtilsSep(text[i])
    ensures forall i :: 0 <= i < |t| ==> UtilsSep(t[i])
  {
    var m := Trim(Python, text);
    TrimKeeps(Python, text, UtilsSep);
    assert forall i :: 0 <= i < |m| ==> UtilsSep(m[i]);
  }

  predicate NotUpper(c: char) {
    !IsUpper(c)
  }

  predicate Never(c: char) {
    false
  }

  /** The slug of a slug is itself. */
  lemma UtilsSlugifyIdempotent(text: string)
    ensures UtilsSlugify(UtilsSlugify(text)) == UtilsSlugify(text)
  {
    UtilsSlugifyFixes(UtilsSlugify(text));
  }

  /** A text in slug shape made of slug letters and dashes is its own slug:
      it is already trimmed and lower-case, its only separators are lone
      dashes, and it is not empty. */
  lemma UtilsSlugifyFixes(s: string)
    requires SlugShape(s)
    requires forall i :: 0 <= i < |s| ==> s[i] == '-' || IsSlugLetter(s[i])
    ensures UtilsSlugify(s) == s
  {
    assert IsSlugLetter(s[0]) && IsSlugLetter(s[|s| - 1]);
    TrimOfTrimmed(Python, s);
    assert IsLowerCase(s);
    LowerOfLowerCase(s);
    assert forall i :: 0 <= i < |s| && UtilsSep(s[i]) ==> s[i] == '-';
    SquashIdentity(s, UtilsSep);
    SquashIdentity(s, IsDash);
  }

  // ---------------------------------------------------------------- seed.py / admin page

  /** The characters `[^\w\s-]` does not match: word characters, whitespace
      of language `l` and `-`. */
  predicate Kept(c: char, l: Lang, isWord: char -> bool) {
    isWord(c) || IsSpace(l, c) || c == '-'
  }

  /** `re.sub(r"[^\w\s-]", "", s)` and `s.replace(/[^\w\s-]/g, "")`: the
      characters of `s` that are kept, in their order. A single character is
      kept exactly when it is a word character, whitespace or `-`, and the
      filter works on each part of a text separately (`KeepWordCharsAppend`). */
  function KeepWordChars(s: string, l: Lang, isWord: char -> bool): (r: string)
    ensures |r| <= |s|
    ensures forall i :: 0 <= i < |r| ==> Kept(r[i], l, isWord)
    ensures |s| == 1 ==> r == (if Kept(s[0], l, isWord) then s else [])
  {
    if s == [] then []
    else
      var rest := KeepWordChars(s[1..], l, isWord);
      if Kept(s[0], l, isWord) then [s[0]] + rest else rest
  }

  /** The filter of a concatenation is the concatenation of the filters. */
  lemma {:induction false} KeepWordCharsAppend(a: string, b: string, l: Lang, isWord: char -> bool)
    ensures KeepWordChars(a + b, l, isWord) == KeepWordChars(a, l, isWord) + KeepWordChars(b, l, isWord)
    decreases |a|
  {
    if a != [] {
      assert (a + b)[1..] == a[1..] + b;
      KeepWordCharsAppend(a[1..], b, l, isWord);
    } else {
      assert a + b == b;
    }
  }

  /** A text whose characters are all kept passes the filter unchanged. */
  lemma {:induction false} KeepWordCharsAll(s: string, l: Lang, isWord: char -> bool)
    requires forall i :: 0 <= i < |s| ==> Kept(s[i], l, isWord)
    ensures KeepWordChars(s, l, isWord) == s
    decreases |s|
  {
    if s != [] {
      KeepWordCharsAll(s[1..], l, isWord);
    }
  }

  /** Filtering keeps any property the characters had. */
  lemma {:induction false} KeepWordCharsKeeps(s: string, l: Lang, isWord: char -> bool, P: char -> bool)
    requires forall i :: 0 <= i < |s| ==> P(s[i])
    ensures forall i :: 0 <= i < |KeepWordChars(s, l, isWord)| ==> P(KeepWordChars(s, l, isWord)[i])
    decreases |s|
  {
    if s != [] {
      KeepWordCharsKeeps(s[1..], l, isWord, P);
    }
  }

  /** The separator class `[\s_-]` of language `l`. */
  predicate WordSep(l: Lang, c: char) {
    IsSpace(l, c) || c == '_' || c == '-'
  }

  /** `WordSep` of one language, as the predicate `Squash` takes. */
  function WordSeps(l: Lang): char -> bool {
    c => WordSep(l, c)
  }

  /** `slugify` of backend/app/seed.py (`l` is Python) and of the admin page
      (`l` is JavaScript), for a given meaning of `\w`; both meanings include
      a–z. */
  function WordSlugify(text: string, l: Lang, isWord: char -> bool): (r: string)
    requires forall c :: 'a' <= c <= 'z' ==> isWord(c)
    ensures SlugShape(r)
    ensures forall i :: 0 <= i < |r| ==> r[i] == '-' || Surviving(r[i], l, isWord)
  {
    var t := Lower(text);
    var d := KeepWordChars(t, l, isWord);
    var u := Squash(d, WordSeps(l));
    var w := StripDashes(u);
    WordSteps(t, l, isWord, d, u);
    ProductIsSlug();
    if w == [] then "product" else w
  }

  /** The characters that survive filtering and squashing. */
  predicate Surviving(c: char, l: Lang, isWord: char -> bool) {
    isWord(c) && !IsSpace(l, c) && c != '_' && !IsUpper(c)
  }

  lemma WordSteps(t: string, l: Lang, isWord: char -> bool, d: string, u: string)
    requires forall i :: 0 <= i < |t| ==> !IsUpper(t[i])
    requires d == KeepWordChars(t, l, isWord) && u == Squash(d, WordSeps(l))
    ensures forall i :: 0 <= i < |u| ==> u[i] == '-' || Surviving(u[i], l, isWord)
  {
    KeepWordCharsKeeps(t, l, isWord, NotUpper);
    assert DashOr(d, c => (isWord(c) || IsSpace(l, c)) && !IsUpper(c));
    SquashKeeps(d, WordSeps(l), c => (isWord(c) || IsSpace(l, c)) && !IsUpper(c));
  }

  /** A text in slug shape made of surviving characters and dashes is its own
      slug: it is lower-case, the filter keeps all of it, its only separators
      are lone dashes, and it is not empty. */
  lemma WordSlugifyFixes(s: string, l: Lang, isWord: char -> bool)
    requires forall c :: 'a' <= c <= 'z' ==> isWord(c)
    requires SlugShape(s)
    requires forall i :: 0 <= i < |s| ==> s[i] == '-' || Surviving(s[i], l, isWord)
    ensures WordSlugify(s, l, isWord) == s
  {
    assert IsLowerCase(s);
    LowerOfLowerCase(s);
    KeepWordCharsAll(s, l, isWord);
    assert forall i :: 0 <= i < |s| && WordSeps(l)(s[i]) ==> s[i] == '-';
    SquashIdentity(s, WordSeps(l));
  }

  /** The slug of a slug is itself. */
  lemma WordSlugifyIdempotent(text: string, l: Lang, isWord: char -> bool)
    requires forall c :: 'a' <= c <= 'z' ==> isWord(c)
    ensures WordSlugify(WordSlugify(text, l, isWord), l, isWord) == WordSlugify(text, l, isWord)
  {
    WordSlugifyFixes(WordSlugify(text, l, isWord), l, isWord);
  }

  /** Characters that a separator run may hold and that the filter keeps:
      whitespace and `-`, and `_` where `\w` counts it. */
  predicate KeptSep(c: char, l: Lang, isWord: char -> bool) {
    WordSep(l, c) && Kept(c, l, isWord)
  }

  /** A run of whitespace, `_` and `-` between two slugs becomes one dash:
      the slug of "a  b" is "a-b". */
  lemma WordSlugifyJoins(a: string, m: string, b: string, l: Lang, isWord: char -> bool)
    requires forall c :: 'a' <= c <= 'z' ==> isWord(c)
    requires SlugShape(a) && forall i :: 0 <= i < |a| ==> a[i] == '-' || Surviving(a[i], l, isWord)
    requires SlugShape(b) && forall i :: 0 <= i < |b| ==> b[i] == '-' || Surviving(b[i], l, isWord)
    requires m != [] && forall i :: 0 <= i < |m| ==> KeptSep(m[i], l, isWord)
    ensures WordSlugify(a + m + b, l, isWord) == a + "-" + b
  {
    var x := a + m + b;
    assert forall i :: 0 <= i < |x| ==> x[i] == '-' || Surviving(x[i], l, isWord) || KeptSep(x[i], l, isWord);
    assert IsLowerCase(x);
    LowerOfLowerCase(x);
    KeepWordCharsAll(x, l, isWord);
    SquashJoins(a, m, b, WordSeps(l));
    var y := a + "-" + b;
    assert y[0] == a[0] && y[|y| - 1] == b[|b| - 1];
  }

  /** The squash step of `WordSlugifyJoins`: two texts whose only separators
      are lone inner dashes, joined by a run of separators, squash to the two
      texts joined by one dash. */
  lemma SquashJoins(a: string, m: string, b: string, sep: char -> bool)
    requires a != [] && a[|a| - 1] != '-' && NoDoubleDash(a) && forall i :: 0 <= i < |a| && sep(a[i]) ==> a[i] == '-'
    requires b != [] && b[0] != '-' && NoDoubleDash(b) && forall i :: 0 <= i < |b| && sep(b[i]) ==> b[i] == '-'
    requires m != [] && forall i :: 0 <= i < |m| ==> sep(m[i])
    ensures Squash(a + m + b, sep) == a + "-" + b
  {
    SquashRun(a, m, b, sep);
    SquashIdentity(a, sep);
    SquashIdentity(b, sep);
  }

  /** JavaScript's `\w` without the `u` flag. */
  predicate IsAsciiWord(c: char) {
    ('a' <= c <= 'z') || ('A' <= c <= 'Z') || ('0' <= c <= '9') || c == '_'
  }

  /** A lower-case ASCII letter or digit: what the admin page's slugs are made of. */
  predicate IsAsciiSlugChar(c: char) {
    ('a' <= c <= 'z') || ('0' <= c <= '9')
  }

  /** `slugify` of the admin page. */
  function AdminSlugify(text: string): (r: string)
    ensures SlugShape(r)
    ensures forall i :: 0 <= i < |r| ==> r[i] == '-' || IsAsciiSlugChar(r[i])
  {
    WordSlugify(text, JavaScript, IsAsciiWord)
  }

  /** A text in slug shape made of lower-case ASCII letters, digits and dashes
      is its own slug on the admin page. */
  lemma AdminSlugifyFixes(s: string)
    requires SlugShape(s)
    requires forall i :: 0 <= i < |s| ==> s[i] == '-' || IsAsciiSlugChar(s[i])
    ensures AdminSlugify(s) == s
  {
    WordSlugifyFixes(s, JavaScript, IsAsciiWord);
  }

  /** Words of lower-case ASCII letters and digits separated by whitespace
      become those words joined by single dashes. */
  lemma AdminSlugifyJoins(a: string, m: string, b: string)
    requires SlugShape(a) && forall i :: 0 <= i < |a| ==> a[i] == '-' || IsAsciiSlugChar(a[i])
    requires SlugShape(b) && forall i :: 0 <= i < |b| ==> b[i] == '-' || IsAsciiSlugChar(b[i])
    requires m != [] && forall i :: 0 <= i < |m| ==> IsSpace(JavaScript, m[i]) || m[i] == '_' || m[i] == '-'
    ensures AdminSlugify(a + m + b) == a + "-" + b
  {
    WordSlugifyJoins(a, m, b, JavaScript, IsAsciiWord);
  }

  predicate NotAsciiAlnum(c: char) {
    !(('a' <= c <= 'z') || ('A' <= c <= 'Z') || ('0' <= c <= '9'))
  }

  /** A name without any ASCII letter or digit, such as one written wholly in
      Cyrillic, gets the slug "product". */
  lemma AdminSlugifyNonAscii(text: string)
    requires forall i :: 0 <= i < |text| ==> NotAsciiAlnum(text[i])
    ensures AdminSlugify(text) == "product"
  {
    var t := Lower(text);
    var d := KeepWordChars(t, JavaScript, IsAsciiWord);
    var u := Squash(d, WordSeps(JavaScript));
    assert forall i :: 0 <= i < |t| ==> NotAsciiAlnum(t[i]);
    KeepWordCharsKeeps(t, JavaScript, IsAsciiWord, NotAsciiAlnum);
    assert DashOr(d, WordSeps(JavaScript));
    SquashKeeps(d, WordSeps(JavaScript), WordSeps(JavaScript));
    assert forall i :: 0 <= i < |u| ==> u[i] == '-';
  }
}
