/** The catalogue page (frontend/app/products/page.tsx): it reads the initial
    search text and page number from the URL and hands them to the browser.
    The page number goes through JavaScript's `Number(...)`; the model covers
    the texts that are integers no larger than 2^53 in size, which a double
    holds exactly, or that hold no digit at all. */
module ProductsPage {
  import opened Wrappers
  import opened Text

  /** A sign followed by at least one digit, or digits alone. */
  predicate IsIntegerText(t: string) {
    || (|t| >= 1 && AllDigits(t))
    || (|t| >= 2 && (t[0] == '+' || t[0] == '-') && AllDigits(t[1..]))
  }

  /** The value of an integer text, with its sign. */
  function IntegerValue(t: string): int
    requires IsIntegerText(t)
  {
    if AllDigits(t) then DigitsValue(t)
    else if t[0] == '-' then -(DigitsValue(t[1..]) as int)
    else DigitsValue(t[1..])
  }

  /** 2^53: every integer up to this size is a double exactly, so `Number`
      reads its numeral without rounding. */
  const MaxExactInteger: int := 9007199254740992

  predicate HasDigit(t: string) {
    exists i :: 0 <= i < |t| && IsDigit(t[i])
  }

  /** The texts the model gives `Number(...)` a meaning for: after trimming,
      an integer numeral of size at most 2^53, or a text with no digit that
      does not spell positive infinity (every other digit-free text is NaN,
      or minus infinity). */
  predicate InNumberDomain(s: string) {
    var t := Trim(JavaScript, s);
    || (IsIntegerText(t) && -MaxExactInteger <= IntegerValue(t) <= MaxExactInteger)
    || (!HasDigit(t) && t != "Infinity" && t != "+Infinity")
  }

  /** JavaScript's `Number(s)` on the modelled texts: blank is 0, an integer
      numeral is its value, anything else is NaN (`None`); minus infinity is
      read as NaN too, which every use here treats alike (both end up as 1). */
  function NumberOf(s: string): (r: Option<int>)
    requires InNumberDomain(s)
    ensures Trim(JavaScript, s) == "" ==> r == Some(0)
    ensures !HasDigit(Trim(JavaScript, s)) && Trim(JavaScript, s) != "" ==> r.None?
  {
    var t := Trim(JavaScript, s);
    if t == "" then Some(0)
    else if IsIntegerText(t) then Some(IntegerValue(t))
    else None
  }

  /** A search parameter as Next.js hands it to the page: absent, a string
      when the URL gives it once, or an array of all its values when the URL
      repeats it. */
  datatype QueryValue = Absent | Once(text: string) | Repeated(first: string, second: string, rest: seq<string>)

  /** `(searchParams.q || "").trim()`: "" when absent, the text trimmed when
      given once. A repeated `q` is an array, which has no `trim`: the call
      throws and the page does not render (`None`). */
  function InitialQ(q: QueryValue): (r: Option<string>)
    ensures r.None? <==> q.Repeated?
    ensures q.Absent? ==> r == Some("")
    ensures q.Once? ==> r == Some(Trim(JavaScript, q.text))
  {
    match q
    case Absent => Some(Trim(JavaScript, ""))
    case Once(t) => Some(Trim(JavaScript, t))
    case Repeated(_, _, _) => None
  }

  /** `Math.max(1, Number(searchParams.page || "1") || 1)`: a missing or empty
      parameter reads as "1", and a zero or NaN result falls back to 1. A
      repeated `page` is an array, whose string form joins the values with
      commas, which no number has: NaN, so page 1. */
  function InitialPage(page: QueryValue): (r: int)
    requires page.Once? && page.text != "" ==> InNumberDomain(page.text)
    ensures r >= 1
    ensures page.Absent? || page == Once("") || page.Repeated? ==> r == 1
  {
    match page
    // a missing or empty parameter is the text "1", whose number is 1 (OneIsOne)
    case Absent => PageOfNumber(Some(1))
    case Once(t) => PageOfNumber(if t != "" then NumberOf(t) else Some(1))
    case Repeated(_, _, _) => PageOfNumber(None)
  }

  /** `Math.max(1, n || 1)`: zero and NaN are falsy. */
  function PageOfNumber(n: Option<int>): (r: int)
    ensures r >= 1
    ensures n.Some? && n.value >= 1 ==> r == n.value
    ensures n.None? || n.value <= 0 ==> r == 1
  {
    var m := if n.None? || n.value == 0 then 1 else n.value;
    if m < 1 then 1 else m
  }

  /** The fallback text "1" reads as the number 1. */
  lemma OneIsOne()
    ensures InNumberDomain("1") && NumberOf("1") == Some(1)
  {
    assert Trim(JavaScript, "1") == "1";
    assert DigitsValue("1") == DigitsValue("") * 10 + 1;
  }

  /** A page number printed into the URL is read back as itself, whatever
      whitespace surrounds it, as long as a double holds it exactly. */
  lemma InitialPageOfNumeral(n: nat, before: string, after: string)
    requires 1 <= n <= MaxExactInteger
    requires forall i :: 0 <= i < |before| ==> IsSpace(JavaScript, before[i])
    requires forall i :: 0 <= i < |after| ==> IsSpace(JavaScript, after[i])
    ensures var s := before + NatToString(n) + after;
      InNumberDomain(s) && InitialPage(Once(s)) == n
  {
    TrimPadded(JavaScript, before, NatToString(n), after);
    InitialPageOfTrimmed(before + NatToString(n) + after, n);
  }

  lemma InitialPageOfTrimmed(s: string, n: nat)
    requires 1 <= n <= MaxExactInteger && Trim(JavaScript, s) == NatToString(n)
    ensures InNumberDomain(s) && InitialPage(Once(s)) == n
  {
    NumeralReads(n);
    assert s != "";
    assert NumberOf(s) == Some(n);
  }

  /** A printed number is an integer text whose value is the number. */
  lemma NumeralReads(n: nat)
    ensures IsIntegerText(NatToString(n)) && IntegerValue(NatToString(n)) == n
  {
    DigitsValueOfNatToString(n);
  }

  /** Zero, a negative numeral and a digit-free text all give page 1. */
  lemma InitialPageFallsBack(s: string)
    requires InNumberDomain(s)
    requires (IsIntegerText(Trim(JavaScript, s)) && IntegerValue(Trim(JavaScript, s)) <= 0) || !HasDigit(Trim(JavaScript, s))
    ensures InitialPage(Once(s)) == 1
  {
    if s != "" {
      assert NumberOf(s).None? || NumberOf(s).value <= 0;
    }
  }
}
