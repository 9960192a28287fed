/** The catalogue browser component (frontend/components/ProductsBrowser.tsx):
    seven filter fields, the handlers that edit them, the query-parameter list
    sent to `GET /api/products`, the pagination predicates and the way a fetch
    outcome replaces the displayed items. React state is a value; every handler
    is a function from the old state to the new one. */
module ProductsBrowser {
  import opened Wrappers
  import opened Text
  import opened SearchParams

  /** Items per page, sent as `limit`. */
  const PageSize: nat := 24

  /** Message shown when a failed fetch carries no message of its own. */
  const LoadFailedMessage: string := "Помилка завантаження"

  /** The four orderings offered by the sort selector. */
  datatype SortKey = New | PriceAsc | PriceDesc | NameAsc

  /** The value the sort selector puts into the request. */
  function SortName(k: SortKey): string {
    match k
    case New => "new"
    case PriceAsc => "price_asc"
    case PriceDesc => "price_desc"
    case NameAsc => "name_asc"
  }

  /** A product card as returned by the catalogue endpoint. */
  datatype ProductSummary = ProductSummary(
    id: int, name: string, slug: string, price: real,
    supplier: Option<string>, imageUrl: Option<string>)

  /** The filter state: search text, category, supplier, the two raw price
      texts, the sort key and the 1-based page number. */
  datatype Filters = Filters(
    q: string, category: string, supplier: string,
    minPrice: string, maxPrice: string, sort: SortKey, page: int)

  /** The whole component state: filters plus the displayed page of items,
      the error banner and the busy flag. */
  datatype View = View(filters: Filters, items: seq<ProductSummary>, err: Option<string>, busy: bool)

  /** The filters "Reset" restores. */
  const Defaults: Filters := Filters("", "", "", "", "", New, 1)

  /** The state right after mounting with the page's initial query and page. */
  function Init(initialQ: string, initialPage: int): (v: View)
    ensures v.filters == Defaults.(q := initialQ, page := initialPage)
    ensures v.items == [] && v.err.None? && !v.busy
  {
    View(Filters(initialQ, "", "", "", "", New, initialPage), [], None, false)
  }

  // ---------------------------------------------------------------- handlers

  /** A user action on the filter bar or the pagination buttons. */
  datatype Event =
    | QueryInput(text: string)
    | CategoryChange(category: string)
    | SupplierChange(supplier: string)
    | MinPriceInput(minPrice: string)
    | MaxPriceInput(maxPrice: string)
    | SortChange(sort: SortKey)
    | ResetClick
    | PrevClick
    | NextClick

  /** Edits of a filter dimension other than the sort key: these handlers call
      `setPage(1)` together with the field setter. */
  predicate IsFilterEdit(e: Event) {
    e.QueryInput? || e.CategoryChange? || e.SupplierChange? || e.MinPriceInput? || e.MaxPriceInput?
  }

  /** The handler of each event. */
  function Step(f: Filters, e: Event): (r: Filters)
    ensures IsFilterEdit(e) ==> r.page == 1 && r.sort == f.sort
    ensures e.SortChange? ==> r == f.(sort := e.sort)
    ensures e.ResetClick? ==> r == Defaults
    ensures e.PrevClick? ==> r == f.(page := if f.page - 1 < 1 then 1 else f.page - 1)
    ensures e.NextClick? ==> r == f.(page := f.page + 1)
  {
    match e
    case QueryInput(t) => f.(page := 1, q := t)
    case CategoryChange(c) => f.(page := 1, category := c)
    case SupplierChange(s) => f.(page := 1, supplier := s)
    case MinPriceInput(t) => f.(page := 1, minPrice := t)
    case MaxPriceInput(t) => f.(page := 1, maxPrice := t)
    case SortChange(k) => f.(sort := k)
    case ResetClick => Defaults
    case PrevClick => f.(page := Max(1, f.page - 1))
    case NextClick => f.(page := f.page + 1)
  }

  function Max(a: int, b: int): int {
    if a < b then b else a
  }

  /** The field an event edits takes the event's value, and every field other
      than that one and the page keeps its value. */
  lemma EditTouchesOneField(f: Filters, e: Event)
    requires IsFilterEdit(e)
    ensures var r := Step(f, e);
      match e
      case QueryInput(t) => r == f.(q := t, page := 1)
      case CategoryChange(c) => r == f.(category := c, page := 1)
      case SupplierChange(s) => r == f.(supplier := s, page := 1)
      case MinPriceInput(t) => r == f.(minPrice := t, page := 1)
      case MaxPriceInput(t) => r == f.(maxPrice := t, page := 1)
      case _ => false
  {
  }

  /** The events of a session applied in order. */
  function Run(f: Filters, es: seq<Event>): Filters
    decreases |es|
  {
    if es == [] then f else Run(Step(f, es[0]), es[1..])
  }

  /** Page numbers start at 1 and no handler takes them below it. */
  lemma {:induction false} RunKeepsPagePositive(f: Filters, es: seq<Event>)
    requires f.page >= 1
    ensures Run(f, es).page >= 1
    decreases |es|
  {
    if es != [] {
      RunKeepsPagePositive(Step(f, es[0]), es[1..]);
    }
  }

  /** Whatever happened before, a session whose last action edits a filter
      dimension (or resets) ends on page 1. */
  lemma {:induction false} RunEndingInEditIsOnFirstPage(f: Filters, es: seq<Event>)
    requires es != [] && (IsFilterEdit(es[|es| - 1]) || es[|es| - 1].ResetClick?)
    ensures Run(f, es).page == 1
    decreases |es|
  {
    if |es| > 1 {
      assert es[1..][|es[1..]| - 1] == es[|es| - 1];
      RunEndingInEditIsOnFirstPage(Step(f, es[0]), es[1..]);
    }
  }

  // ---------------------------------------------------------------- request

  /** Offset of the first item of `page`. */
  function Skip(page: int): int {
    (page - 1) * PageSize
  }

  /** The offset of a valid page is a non-negative multiple of the page size,
      and the page is recovered from it. */
  lemma SkipOfPage(page: int)
    requires page >= 1
    ensures Skip(page) >= 0 && Skip(page) % PageSize == 0
    ensures Skip(page) / PageSize + 1 == page
  {
  }

  /** A parameter that is sent only when its value is non-empty. */
  function Optional(n: string, v: string): seq<Param> {
    if v == "" then [] else [Param(n, v)]
  }

  /** `if (v) params.set(n, v)`: JavaScript's truthiness test on a string. */
  function SetIfNonEmpty(ps: seq<Param>, n: string, v: string): seq<Param> {
    if v != "" then Set(ps, n, v) else ps
  }

  /** The values the effect puts into the request, already converted to text. */
  datatype RequestValues = RequestValues(
    q: string, category: string, supplier: string, minPrice: string, maxPrice: string,
    sort: string, skip: string, limit: string)

  /** The text of each value: the trimmed query, the raw filters, the sort
      key's name, `String(skip)` and `String(PAGE_SIZE)`. */
  function ValuesOf(f: Filters): RequestValues {
    RequestValues(Trim(JavaScript, f.q), f.category, f.supplier, f.minPrice, f.maxPrice,
                  SortName(f.sort), IntToString(Skip(f.page)), IntToString(PageSize))
  }

  /** The body of the fetch effect: `set` on an empty list for the trimmed
      query, category, supplier, both price bounds and the sort key when
      non-empty, then unconditionally for skip and limit. */
  function BuildParams(v: RequestValues): seq<Param> {
    var p0: seq<Param> := [];
    var p1 := SetIfNonEmpty(p0, "q", v.q);
    var p2 := SetIfNonEmpty(p1, "category", v.category);
    var p3 := SetIfNonEmpty(p2, "supplier", v.supplier);
    var p4 := SetIfNonEmpty(p3, "min_price", v.minPrice);
    var p5 := SetIfNonEmpty(p4, "max_price", v.maxPrice);
    var p6 := SetIfNonEmpty(p5, "sort", v.sort);
    var p7 := Set(p6, "skip", v.skip);
    Set(p7, "limit", v.limit)
  }

  /** The parameter list of the catalogue request for the filter state `f`. */
  function RequestParams(f: Filters): seq<Param> {
    BuildParams(ValuesOf(f))
  }

  /** The eight parameters the effect considers, in the order it sets them. */
  function Entries(v: RequestValues): seq<Param> {
    [Param("q", v.q), Param("category", v.category), Param("supplier", v.supplier),
     Param("min_price", v.minPrice), Param("max_price", v.maxPrice), Param("sort", v.sort),
     Param("skip", v.skip), Param("limit", v.limit)]
  }

  /** `if (v) params.set(n, v)` for every entry in turn. */
  function SetEach(ps: seq<Param>, entries: seq<Param>): seq<Param>
    decreases |entries|
  {
    if entries == [] then ps
    else SetEach(SetIfNonEmpty(ps, entries[0].name, entries[0].value), entries[1..])
  }

  /** The entries with a non-empty value, in order. */
  function NonEmptyEntries(entries: seq<Param>): seq<Param> {
    if entries == [] then [] else Optional(entries[0].name, entries[0].value) + NonEmptyEntries(entries[1..])
  }

  lemma {:induction false} CountConcat(a: seq<Param>, b: seq<Param>, n: string)
    ensures Count(a + b, n) == Count(a, n) + Count(b, n)
  {
    if a == [] {
      assert a + b == b;
    } else {
      assert (a + b)[1..] == a[1..] + b;
      CountConcat(a[1..], b, n);
    }
  }

  /** A single optional parameter holds a name only when it is that name. */
  lemma CountOptional(m: string, v: string, n: string)
    ensures Count(Optional(m, v), n) == (if m == n && v != "" then 1 else 0)
  {
    if v != "" {
      assert [Param(m, v)][1..] == [];
    }
  }

  lemma ConcatAssoc(a: seq<Param>, b: seq<Param>, c: seq<Param>)
    ensures a + (b + c) == (a + b) + c
  {
  }

  lemma SetAbsent(ps: seq<Param>, n: string, v: string)
    requires Count(ps, n) == 0
    ensures SetIfNonEmpty(ps, n, v) == ps + Optional(n, v)
  {
  }

  /** Setting names the list does not hold, all different, appends the
      entries whose value is non-empty, in order. */
  lemma {:induction false} SetEachFresh(ps: seq<Param>, entries: seq<Param>)
    requires UniqueNames(entries)
    requires forall i :: 0 <= i < |entries| ==> Count(ps, entries[i].name) == 0
    ensures SetEach(ps, entries) == ps + NonEmptyEntries(entries)
    decreases |entries|
  {
    if entries != [] {
      var e := entries[0];
      var rest := entries[1..];
      var opt := Optional(e.name, e.value);
      var ps' := ps + opt;
      assert Count(ps, e.name) == 0;
      SetAbsent(ps, e.name, e.value);
      forall i | 0 <= i < |rest|
        ensures Count(ps', rest[i].name) == 0
      {
        assert rest[i] == entries[i + 1];
        CountConcat(ps, opt, rest[i].name);
        CountOptional(e.name, e.value, rest[i].name);
      }
      assert UniqueNames(rest) by {
        forall i, j | 0 <= i < j < |rest| ensures rest[i].name != rest[j].name {
          assert rest[i] == entries[i + 1] && rest[j] == entries[j + 1];
        }
      }
      SetEachFresh(ps', rest);
      assert SetEach(ps, entries) == SetEach(ps', rest);
      assert NonEmptyEntries(entries) == opt + NonEmptyEntries(rest);
      ConcatAssoc(ps, opt, NonEmptyEntries(rest));
    }
  }

  /** Among entries with distinct names, `get` on the non-empty ones reads
      each entry's value back, or nothing when that value is empty. */
  lemma {:induction false} GetNonEmptyEntries(entries: seq<Param>, i: nat)
    requires UniqueNames(entries) && i < |entries|
    ensures Get(NonEmptyEntries(entries), entries[i].name) ==
            (if entries[i].value == "" then None else Some(entries[i].value))
    decreases |entries|
  {
    var e := entries[0];
    var rest := NonEmptyEntries(entries[1..]);
    assert NonEmptyEntries(entries) == Optional(e.name, e.value) + rest;
    if i == 0 {
      assert forall j :: 0 <= j < |entries[1..]| ==> entries[1..][j] == entries[j + 1];
      AbsentFromLaterEntries(entries[1..], e.name);
      if e.value != "" {
        assert NonEmptyEntries(entries) == [e] + rest;
        assert ([e] + rest)[0] == e;
      } else {
        assert NonEmptyEntries(entries) == rest;
      }
    } else {
      assert UniqueNames(entries[1..]);
      assert entries[1..][i - 1] == entries[i];
      GetNonEmptyEntries(entries[1..], i - 1);
      assert e.name != entries[i].name;
      if e.value != "" {
        assert NonEmptyEntries(entries) == [e] + rest;
        assert ([e] + rest)[1..] == rest;
      } else {
        assert NonEmptyEntries(entries) == rest;
      }
    }
  }

  /** A name no entry carries is not in the non-empty entries either. */
  lemma {:induction false} AbsentFromLaterEntries(entries: seq<Param>, n: string)
    requires forall j :: 0 <= j < |entries| ==> entries[j].name != n
    ensures Get(NonEmptyEntries(entries), n).None?
    decreases |entries|
  {
    if entries != [] {
      AbsentFromLaterEntries(entries[1..], n);
      var e := entries[0];
      var rest := NonEmptyEntries(entries[1..]);
      if e.value != "" {
        assert NonEmptyEntries(entries) == [e] + rest;
        assert ([e] + rest)[1..] == rest;
      } else {
        assert NonEmptyEntries(entries) == rest;
      }
    }
  }

  /** The effect's sequence of `set` calls, written as one loop over the
      entries; skip and limit are never empty, so their unconditional `set`
      is the conditional one. */
  lemma BuildIsSetEach(v: RequestValues)
    requires v.skip != "" && v.limit != ""
    ensures BuildParams(v) == SetEach([], Entries(v))
  {
    var es := Entries(v);
    var p1 := SetIfNonEmpty([], "q", v.q);
    var p2 := SetIfNonEmpty(p1, "category", v.category);
    var p3 := SetIfNonEmpty(p2, "supplier", v.supplier);
    var p4 := SetIfNonEmpty(p3, "min_price", v.minPrice);
    var p5 := SetIfNonEmpty(p4, "max_price", v.maxPrice);
    var p6 := SetIfNonEmpty(p5, "sort", v.sort);
    var p7 := SetIfNonEmpty(p6, "skip", v.skip);
    var p8 := SetIfNonEmpty(p7, "limit", v.limit);
    assert BuildParams(v) == p8;
    assert SetEach(p8, es[8..]) == p8;
    assert SetEach(p7, es[7..]) == SetEach(p8, es[8..]);
    assert SetEach(p6, es[6..]) == SetEach(p7, es[7..]);
    assert SetEach(p5, es[5..]) == SetEach(p6, es[6..]);
    assert SetEach(p4, es[4..]) == SetEach(p5, es[5..]);
    assert SetEach(p3, es[3..]) == SetEach(p4, es[4..]);
    assert SetEach(p2, es[2..]) == SetEach(p3, es[3..]);
    assert SetEach(p1, es[1..]) == SetEach(p2, es[2..]);
    assert SetEach([], es) == SetEach(p1, es[1..]);
  }

  /** The built list is the entries with a non-empty value, in order. */
  lemma BuildIsNonEmptyEntries(v: RequestValues)
    requires v.skip != "" && v.limit != ""
    ensures BuildParams(v) == NonEmptyEntries(Entries(v))
  {
    var es := Entries(v);
    BuildIsSetEach(v);
    EntriesUnique(v);
    assert forall i :: 0 <= i < |es| ==> Count([], es[i].name) == 0;
    SetEachFresh([], es);
    assert [] + NonEmptyEntries(es) == NonEmptyEntries(es);
  }

  /** The texts of a filter state: sort, skip and limit are never empty. */
  lemma ValuesNonEmpty(f: Filters)
    ensures ValuesOf(f).sort != "" && ValuesOf(f).skip != "" && ValuesOf(f).limit != ""
  {
  }

  /** The request, in order: q (the trimmed text), category, supplier,
      min_price, max_price and sort, each only when its text is non-empty, then
      skip = (page-1)*24 and limit = 24, which are never empty. */
  lemma RequestLayout(f: Filters)
    ensures RequestParams(f) == NonEmptyEntries(Entries(ValuesOf(f)))
    ensures ValuesOf(f).limit == "24"
  {
    var v := ValuesOf(f);
    ValuesNonEmpty(f);
    BuildIsNonEmptyEntries(v);
    assert RequestParams(f) == BuildParams(v);
    PageSizeNumeral();
  }

  lemma PageSizeNumeral()
    ensures IntToString(PageSize) == "24"
  {
    assert NatToString(24) == NatToString(2) + [DigitChar(4)];
  }

  /** The eight names are distinct. */
  lemma EntriesUnique(v: RequestValues)
    ensures UniqueNames(Entries(v))
  {
    var es := Entries(v);
    forall i, j | 0 <= i < j < |es| ensures es[i].name != es[j].name {
      assert |es[i].name| != |es[j].name| || es[i].name[0] != es[j].name[0]
        || es[i].name[1] != es[j].name[1];
    }
  }

  /** In the built list, `get` reads each value back, or nothing when it is empty. */
  lemma BuildDecodes(v: RequestValues)
    requires v.skip != "" && v.limit != ""
    ensures var r := BuildParams(v);
      && Get(r, "q") == (if v.q == "" then None else Some(v.q))
      && Get(r, "category") == (if v.category == "" then None else Some(v.category))
      && Get(r, "supplier") == (if v.supplier == "" then None else Some(v.supplier))
      && Get(r, "min_price") == (if v.minPrice == "" then None else Some(v.minPrice))
      && Get(r, "max_price") == (if v.maxPrice == "" then None else Some(v.maxPrice))
      && Get(r, "sort") == (if v.sort == "" then None else Some(v.sort))
      && Get(r, "skip") == Some(v.skip)
      && Get(r, "limit") == Some(v.limit)
  {
    BuildIsNonEmptyEntries(v);
    EntriesDecode(v);
  }

  /** `get` on the non-empty entries reads each value back, or nothing when
      it is empty. */
  lemma EntriesDecode(v: RequestValues)
    ensures var r := NonEmptyEntries(Entries(v));
      && Get(r, "q") == (if v.q == "" then None else Some(v.q))
      && Get(r, "category") == (if v.category == "" then None else Some(v.category))
      && Get(r, "supplier") == (if v.supplier == "" then None else Some(v.supplier))
      && Get(r, "min_price") == (if v.minPrice == "" then None else Some(v.minPrice))
      && Get(r, "max_price") == (if v.maxPrice == "" then None else Some(v.maxPrice))
      && Get(r, "sort") == (if v.sort == "" then None else Some(v.sort))
      && Get(r, "skip") == (if v.skip == "" then None else Some(v.skip))
      && Get(r, "limit") == (if v.limit == "" then None else Some(v.limit))
  {
    EntriesUnique(v);
    var es := Entries(v);
    GetNonEmptyEntries(es, 0);
    GetNonEmptyEntries(es, 1);
    GetNonEmptyEntries(es, 2);
    GetNonEmptyEntries(es, 3);
    GetNonEmptyEntries(es, 4);
    GetNonEmptyEntries(es, 5);
    GetNonEmptyEntries(es, 6);
    GetNonEmptyEntries(es, 7);
  }

  /** What the server reads back from the request: each optional dimension is
      present exactly when non-empty (the query after trimming), and sort, skip
      and limit are always there. */
  lemma RequestDecodes(f: Filters)
    ensures var r := RequestParams(f);
      && Get(r, "q") == (if Trim(JavaScript, f.q) == "" then None else Some(Trim(JavaScript, f.q)))
      && Get(r, "category") == (if f.category == "" then None else Some(f.category))
      && Get(r, "supplier") == (if f.supplier == "" then None else Some(f.supplier))
      && Get(r, "min_price") == (if f.minPrice == "" then None else Some(f.minPrice))
      && Get(r, "max_price") == (if f.maxPrice == "" then None else Some(f.maxPrice))
      && Get(r, "sort") == Some(SortName(f.sort))
      && Get(r, "skip") == Some(IntToString(Skip(f.page)))
      && Get(r, "limit") == Some(IntToString(PageSize))
  {
    ValuesNonEmpty(f);
    BuildDecodes(ValuesOf(f));
  }

  /** Two states on valid pages that send the same request agree on every
      field except for whitespace around the search text: the request loses
      nothing else. */
  lemma RequestDeterminesFilters(f: Filters, g: Filters)
    requires f.page >= 1 && g.page >= 1
    requires RequestParams(f) == RequestParams(g)
    ensures Trim(JavaScript, f.q) == Trim(JavaScript, g.q)
    ensures f.(q := g.q) == g
  {
    RequestDecodes(f);
    RequestDecodes(g);
    OptionalValue(Trim(JavaScript, f.q), Trim(JavaScript, g.q));
    OptionalValue(f.category, g.category);
    OptionalValue(f.supplier, g.supplier);
    OptionalValue(f.minPrice, g.minPrice);
    OptionalValue(f.maxPrice, g.maxPrice);
    SortNameInjective(f.sort, g.sort);
    SkipDeterminesPage(f.page, g.page);
  }

  /** A text sent only when non-empty is recovered from what `get` reads. */
  lemma OptionalValue(a: string, b: string)
    requires (if a == "" then None else Some(a)) == (if b == "" then None else Some(b))
    ensures a == b
  {
  }

  /** Distinct sort keys are sent as distinct names. */
  lemma SortNameInjective(a: SortKey, b: SortKey)
    requires SortName(a) == SortName(b)
    ensures a == b
  {
    assert SortName(a)[|SortName(a)| - 1] == SortName(b)[|SortName(b)| - 1];
  }

  /** Distinct valid pages are sent as distinct offsets. */
  lemma SkipDeterminesPage(p: int, q: int)
    requires p >= 1 && q >= 1
    requires IntToString(Skip(p)) == IntToString(Skip(q))
    ensures p == q
  {
    SkipOfPage(p);
    SkipOfPage(q);
    NatToStringInjective(Skip(p), Skip(q));
  }

  // ---------------------------------------------------------------- pagination

  /** "Back" is enabled past the first page. */
  predicate CanPrev(f: Filters) {
    f.page > 1
  }

  /** "Next" is enabled when the last fetch filled a whole page. */
  predicate CanNext(items: seq<ProductSummary>) {
    |items| == PageSize
  }

  /** The pagination buttons around a fetch. After the fetch, "Next" is
      enabled exactly when it delivered a whole page: a failed fetch, or a
      short or empty page, disables it. "Back" is disabled on page 1, where
      it would change nothing; one "Next" enables it, and "Back" then returns
      to the page the fetch was for, with every filter as it was. */
  lemma PaginationBoundaries(v: View, o: FetchOutcome)
    requires v.filters.page >= 1
    ensures CanNext(FetchCycle(v, o).items) <==> o.Loaded? && |o.data| == PageSize
    ensures !CanPrev(v.filters) ==> Step(v.filters, PrevClick) == v.filters
    ensures CanPrev(Step(v.filters, NextClick))
    ensures Step(Step(v.filters, NextClick), PrevClick) == v.filters
  {
  }

  // ---------------------------------------------------------------- fetching

  /** What a fetch delivers: the items, or a failure with its message, if any. */
  datatype FetchOutcome = Loaded(data: seq<ProductSummary>) | LoadFailed(message: Option<string>)

  /** The start of the fetch effect: busy on, error cleared; the filters and
      the items shown so far stay. */
  function BeginFetch(v: View): (r: View)
    ensures r.busy && r.err.None?
    ensures r.filters == v.filters && r.items == v.items
  {
    v.(busy := true, err := None)
  }

  /** The end of the fetch effect: on success the items are replaced; on
      failure they are emptied and the message (or the fallback text when the
      message is missing or empty) is shown; busy goes off either way. */
  function FinishFetch(v: View, o: FetchOutcome): View {
    match o
    case Loaded(data) => v.(items := data, busy := false)
    case LoadFailed(m) =>
      v.(err := Some(if m.Some? && m.value != "" then m.value else LoadFailedMessage), items := [], busy := false)
  }

  /** One whole fetch cycle. The filters are never changed by it; a successful
      cycle shows exactly the delivered items and no error, a failed one shows
      no item and a non-empty error. */
  function FetchCycle(v: View, o: FetchOutcome): (r: View)
    ensures r.filters == v.filters && !r.busy
    ensures o.Loaded? ==> r.items == o.data && r.err.None?
    ensures o.LoadFailed? ==> r.items == [] && r.err.Some? && r.err.value != ""
    ensures o.LoadFailed? && o.message.Some? && o.message.value != "" ==> r.err == o.message
  {
    FinishFetch(BeginFetch(v), o)
  }

  // ---------------------------------------------------------------- scenario

  /** Eight entries of which the first, third, fourth and fifth are empty
      keep the other four, in order. */
  lemma NonEmptyOfEight(es: seq<Param>)
    requires |es| == 8
    requires es[0].value == "" && es[2].value == "" && es[3].value == "" && es[4].value == ""
    requires es[1].value != "" && es[5].value != "" && es[6].value != "" && es[7].value != ""
    ensures NonEmptyEntries(es) == [es[1], es[5], es[6], es[7]]
  {
    assert NonEmptyEntries(es[8..]) == [];
    assert NonEmptyEntries(es[7..]) == [es[7]];
    assert NonEmptyEntries(es[6..]) == [es[6], es[7]];
    assert NonEmptyEntries(es[5..]) == [es[5], es[6], es[7]];
    assert NonEmptyEntries(es[4..]) == NonEmptyEntries(es[5..]) by { assert es[4..][1..] == es[5..]; }
    assert NonEmptyEntries(es[3..]) == NonEmptyEntries(es[4..]) by { assert es[3..][1..] == es[4..]; }
    assert NonEmptyEntries(es[2..]) == NonEmptyEntries(es[3..]) by { assert es[2..][1..] == es[3..]; }
    assert NonEmptyEntries(es[1..]) == [es[1], es[5], es[6], es[7]];
  }

  /** A request with only a category: category, sort, skip and limit. */
  lemma CategoryOnlyLayout(v: RequestValues)
    requires v.q == "" && v.supplier == "" && v.minPrice == "" && v.maxPrice == ""
    requires v.category != "" && v.sort != "" && v.skip != "" && v.limit != ""
    ensures NonEmptyEntries(Entries(v)) ==
      [Param("category", v.category), Param("sort", v.sort), Param("skip", v.skip), Param("limit", v.limit)]
  {
    NonEmptyOfEight(Entries(v));
  }

  lemma NonEmptyCons(e: Param, rest: seq<Param>)
    ensures NonEmptyEntries([e] + rest) == Optional(e.name, e.value) + NonEmptyEntries(rest)
  {
    assert ([e] + rest)[1..] == rest;
  }

  /** The request of a state whose only filter is a category. */
  lemma CategoryRequest(f: Filters)
    requires f.q == "" && f.supplier == "" && f.minPrice == "" && f.maxPrice == "" && f.category != ""
    ensures RequestParams(f) == [Param("category", f.category), Param("sort", SortName(f.sort)),
                                 Param("skip", IntToString(Skip(f.page))), Param("limit", "24")]
  {
    assert Trim(JavaScript, "") == "";
    RequestLayout(f);
    ValuesNonEmpty(f);
    CategoryOnlyLayout(ValuesOf(f));
  }

  lemma SkipNumerals()
    ensures IntToString(Skip(1)) == "0" && IntToString(Skip(2)) == "24"
  {
    assert NatToString(24) == NatToString(2) + [DigitChar(4)];
  }

  /** From the initial state, picking category "seeds" sends category, sort,
      skip 0 and limit 24 and stays on page 1; "Next" then sends skip 24 with
      the same filters. */
  lemma CategoryThenNextScenario()
    ensures var f := Step(Init("", 1).filters, CategoryChange("seeds"));
      && f.page == 1
      && RequestParams(f) == [Param("category", "seeds"), Param("sort", "new"),
                              Param("skip", "0"), Param("limit", "24")]
      && RequestParams(Step(f, NextClick)) == [Param("category", "seeds"), Param("sort", "new"),
                                               Param("skip", "24"), Param("limit", "24")]
  {
    var f := Step(Init("", 1).filters, CategoryChange("seeds"));
    var g := Step(f, NextClick);
    assert f == Filters("", "seeds", "", "", "", New, 1);
    assert g == Filters("", "seeds", "", "", "", New, 2);
    CategoryRequest(f);
    CategoryRequest(g);
    SkipNumerals();
  }
}
