/** The product catalogue of the FastAPI back end (backend/app/main.py): the
    listing endpoint with its filters, ordering and paging, and the facet
    lists of the filter bar. The products table is a sequence in table order;
    prices are the exact decimals of the NUMERIC(10,2) column, as reals. */
module Catalog {
  import opened Wrappers
  import opened Text

  /** A row of the products table (backend/app/models.py:17-26). */
  datatype Product = Product(
    id: int, name: string, slug: string, description: string,
    supplier: Option<string>, category: Option<string>, price: real,
    imagePath: Option<string>)

  /** The id column is the primary key. */
  predicate UniqueIds(db: seq<Product>) {
    forall i, j :: 0 <= i < j < |db| ==> db[i].id != db[j].id
  }

  // ---------------------------------------------------------------- LIKE

  /** The characters with a meaning in a LIKE pattern: the two wildcards and
      PostgreSQL's default escape character. */
  predicate IsPatternChar(c: char) {
    c == '%' || c == '_' || c == '\\'
  }

  predicate NoPatternChars(t: string) {
    forall i :: 0 <= i < |t| ==> !IsPatternChar(t[i])
  }

  /** PostgreSQL's `s LIKE p`: `%` matches any run of characters, `_` any one
      character, and `\` makes the character after it literal. (A pattern
      ending in a lone `\` is an error in PostgreSQL; the patterns built here
      end in `%`, so it cannot arise, and the model reads it literally.)
      A pattern without any of the three matches exactly itself. */
  predicate LikeMatch(s: string, p: string)
    ensures NoPatternChars(p) ==> (LikeMatch(s, p) <==> s == p)
    decreases |s|, |p|
  {
    if p == [] then s == []
    else if p[0] == '%' then LikeMatch(s, p[1..]) || (s != [] && LikeMatch(s[1..], p))
    else if p[0] == '_' then s != [] && LikeMatch(s[1..], p[1..])
    else if p[0] == '\\' && |p| >= 2 then s != [] && s[0] == p[1] && LikeMatch(s[1..], p[2..])
    else s != [] && s[0] == p[0] && LikeMatch(s[1..], p[1..])
  }

  /** `s ILIKE p`: LIKE on the lower-cased text and pattern. */
  predicate ILike(s: string, p: string) {
    LikeMatch(Lower(s), Lower(p))
  }

  /** `%` alone matches every text. */
  lemma {:induction false} LikeAnything(s: string)
    ensures LikeMatch(s, "%")
    decreases |s|
  {
    if s != [] {
      LikeAnything(s[1..]);
    }
  }

  /** A pattern that starts with a wildcard-free text matches exactly the texts
      that start with that text and go on to match the rest of the pattern. */
  lemma {:induction false} LikeLiteralPrefix(u: string, t: string, r: string)
    requires NoPatternChars(t)
    ensures LikeMatch(u, t + r) <==> |t| <= |u| && u[..|t|] == t && LikeMatch(u[|t|..], r)
    decreases |t|
  {
    if t == [] {
      assert t + r == r && u[..0] == t && u[0..] == u;
    } else {
      var p := t + r;
      assert p[0] == t[0] && p[1..] == t[1..] + r;
      assert NoPatternChars(t[1..]);
      if u != [] {
        LikeLiteralPrefix(u[1..], t[1..], r);
        if |t| <= |u| {
          assert u[1..][|t| - 1..] == u[|t|..];
          assert u[..|t|] == [u[0]] + u[1..][..|t| - 1];
          assert t == [t[0]] + t[1..];
        }
      }
    }
  }

  /** A leading `%` lets the rest of the pattern match from any position. */
  lemma {:induction false} LikeLeadingPercent(s: string, r: string)
    ensures LikeMatch(s, "%" + r) <==> exists i :: 0 <= i <= |s| && LikeMatch(s[i..], r)
    decreases |s|
  {
    var p := "%" + r;
    assert p[0] == '%' && p[1..] == r;
    assert s[0..] == s;
    if s != [] {
      LikeLeadingPercent(s[1..], r);
      if exists i :: 0 <= i <= |s[1..]| && LikeMatch(s[1..][i..], r) {
        var i :| 0 <= i <= |s[1..]| && LikeMatch(s[1..][i..], r);
        assert s[1..][i..] == s[i + 1..];
      }
      if exists i :: 0 <= i <= |s| && LikeMatch(s[i..], r) {
        var i :| 0 <= i <= |s| && LikeMatch(s[i..], r);
        if i > 0 {
          assert s[1..][i - 1..] == s[i..];
        }
      }
    }
  }

  /** The pattern `%t%` of a wildcard-free `t` is substring search. */
  lemma SubstringPattern(s: string, t: string)
    requires NoPatternChars(t)
    ensures LikeMatch(s, "%" + t + "%") <==> Contains(s, t)
  {
    assert "%" + t + "%" == "%" + (t + "%");
    LikeLeadingPercent(s, t + "%");
    forall i | 0 <= i <= |s|
      ensures LikeMatch(s[i..], t + "%") <==> OccursAt(s, t, i)
    {
      LikeLiteralPrefix(s[i..], t, "%");
      if |t| <= |s[i..]| {
        LikeAnything(s[i..][|t|..]);
        assert s[i..][..|t|] == s[i..i + |t|];
      }
    }
  }

  /** With no `%`, `_` or `\` in the search text, the `ilike '%q%'` filter is
      case-insensitive substring search. */
  lemma ILikeIsSubstring(s: string, t: string)
    requires NoPatternChars(t)
    ensures ILike(s, "%" + t + "%") <==> Contains(Lower(s), Lower(t))
  {
    assert Lower("%" + t + "%") == "%" + Lower(t) + "%";
    assert NoPatternChars(Lower(t));
    SubstringPattern(Lower(s), Lower(t));
  }

  // ---------------------------------------------------------------- filters

  /** The query string of `GET /api/products` as sent; absent parameters are
      `None`, and the price bounds are still text. `sort`, `skip` and `limit`
      default to "new", 0 and 24. */
  datatype ListRequest = ListRequest(
    q: Option<string>, category: Option<string>, supplier: Option<string>,
    minPrice: Option<string>, maxPrice: Option<string>, sort: string, skip: int, limit: int)

  /** The validated parameters, with the price bounds read as numbers. */
  datatype ListQuery = ListQuery(
    q: Option<string>, category: Option<string>, supplier: Option<string>,
    minPrice: Option<real>, maxPrice: Option<real>, sort: string, skip: int, limit: int)

  /** Python's truthiness of an optional text: present and non-empty. */
  predicate Present(o: Option<string>) {
    o.Some? && o.value != ""
  }

  /** The WHERE clause the handler builds: the search text (stripped, between
      `%`) in the name or the description, ignoring case; the category and the
      supplier by equality (a NULL column never equals); the price bounds. */
  predicate Matches(query: ListQuery, p: Product) {
    && (Present(query.q) ==>
          var like := "%" + Trim(Python, query.q.value) + "%";
          ILike(p.name, like) || ILike(p.description, like))
    && (Present(query.category) ==> p.category == Some(query.category.value))
    && (Present(query.supplier) ==> p.supplier == Some(query.supplier.value))
    && (query.minPrice.Some? ==> p.price >= query.minPrice.value)
    && (query.maxPrice.Some? ==> p.price <= query.maxPrice.value)
  }

  /** For a search text free of `%`, `_` and `\`, a product matches it exactly
      when the stripped text occurs in its name or description, ignoring case;
      missing or empty filters impose nothing. */
  lemma MatchesBySubstring(query: ListQuery, p: Product)
    requires Present(query.q) ==> NoPatternChars(Trim(Python, query.q.value))
    ensures Matches(query, p) <==>
      && (Present(query.q) ==>
            Contains(Lower(p.name), Lower(Trim(Python, query.q.value)))
            || Contains(Lower(p.description), Lower(Trim(Python, query.q.value))))
      && (Present(query.category) ==> p.category == Some(query.category.value))
      && (Present(query.supplier) ==> p.supplier == Some(query.supplier.value))
      && (query.minPrice.Some? ==> p.price >= query.minPrice.value)
      && (query.maxPrice.Some? ==> p.price <= query.maxPrice.value)
  {
    if Present(query.q) {
      ILikeIsSubstring(p.name, Trim(Python, query.q.value));
      ILikeIsSubstring(p.description, Trim(Python, query.q.value));
    }
  }

  /** The rows the WHERE clause keeps, in table order. */
  function Select(query: ListQuery, db: seq<Product>): (r: seq<Product>)
    ensures |r| <= |db|
    ensures forall p :: p in r <==> p in db && Matches(query, p)
  {
    if db == [] then []
    else if Matches(query, db[0]) then [db[0]] + Select(query, db[1..])
    else Select(query, db[1..])
  }

  /** Selecting rows keeps the ids distinct. */
  lemma {:induction false} SelectUnique(query: ListQuery, db: seq<Product>)
    requires UniqueIds(db)
    ensures UniqueIds(Select(query, db))
  {
    if db != [] {
      assert UniqueIds(db[1..]);
      SelectUnique(query, db[1..]);
      var rest := Select(query, db[1..]);
      forall k | 0 <= k < |rest| ensures rest[k].id != db[0].id {
        assert rest[k] in db[1..];
        var j :| 0 <= j < |db[1..]| && db[1..][j] == rest[k];
        assert db[j + 1] == rest[k];
      }
    }
  }

  // ---------------------------------------------------------------- ordering

  /** The ORDER BY clauses the `sort` parameter selects. */
  datatype Ordering = PriceAsc | PriceDesc | NameAsc | Newest

  /** "price_asc", "price_desc" and "name_asc" select their ordering; any other
      text (the default "new" included) orders by id, newest first. */
  function OrderingOf(sort: string): Ordering {
    if sort == "price_asc" then PriceAsc
    else if sort == "price_desc" then PriceDesc
    else if sort == "name_asc" then NameAsc
    else Newest
  }

  /** `a` comes before `b`: the sort column first, then id descending. Names
      compare by code point (the C collation). */
  predicate Precedes(o: Ordering, a: Product, b: Product) {
    match o
    case PriceAsc => a.price < b.price || (a.price == b.price && a.id > b.id)
    case PriceDesc => a.price > b.price || (a.price == b.price && a.id > b.id)
    case NameAsc => StrLess(a.name, b.name) || (a.name == b.name && a.id > b.id)
    case Newest => a.id > b.id
  }

  lemma PrecedesAsymmetric(o: Ordering, a: Product, b: Product)
    ensures !(Precedes(o, a, b) && Precedes(o, b, a))
  {
    StrLessAsymmetric(a.name, b.name);
  }

  lemma PrecedesTransitive(o: Ordering, a: Product, b: Product, c: Product)
    requires Precedes(o, a, b) && Precedes(o, b, c)
    ensures Precedes(o, a, c)
  {
    if o.NameAsc? && StrLess(a.name, b.name) && StrLess(b.name, c.name) {
      StrLessTransitive(a.name, b.name, c.name);
    }
  }

  /** The id tie-break makes the order total on rows with distinct ids. */
  lemma PrecedesTotal(o: Ordering, a: Product, b: Product)
    requires a.id != b.id
    ensures Precedes(o, a, b) || Precedes(o, b, a)
  {
    if a.name != b.name {
      StrLessTotal(a.name, b.name);
    }
  }

  /** Every row comes before every later row. */
  predicate Sorted(o: Ordering, s: seq<Product>) {
    forall i, j :: 0 <= i < j < |s| ==> Precedes(o, s[i], s[j])
  }

  /** `x` placed before the first row it precedes. */
  function Insert(o: Ordering, x: Product, s: seq<Product>): (r: seq<Product>)
    ensures multiset(r) == multiset(s) + multiset{x}
  {
    if s == [] then [x]
    else if Precedes(o, x, s[0]) then [x] + s
    else
      assert s == [s[0]] + s[1..];
      [s[0]] + Insert(o, x, s[1..])
  }

  lemma {:induction false} InsertSorted(o: Ordering, x: Product, s: seq<Product>)
    requires Sorted(o, s)
    requires forall k :: 0 <= k < |s| ==> s[k].id != x.id
    ensures Sorted(o, Insert(o, x, s))
  {
    if s == [] {
    } else if Precedes(o, x, s[0]) {
      var r := [x] + s;
      forall i, j | 0 <= i < j < |r| ensures Precedes(o, r[i], r[j]) {
        if i == 0 && j > 1 {
          PrecedesTransitive(o, x, s[0], s[j - 1]);
        }
      }
    } else {
      PrecedesTotal(o, x, s[0]);
      var t := Insert(o, x, s[1..]);
      InsertSorted(o, x, s[1..]);
      HeadPrecedesInserted(o, x, s);
      var r := [s[0]] + t;
      forall i, j | 0 <= i < j < |r| ensures Precedes(o, r[i], r[j]) {
        if i > 0 {
          assert r[i] == t[i - 1] && r[j] == t[j - 1];
        }
      }
    }
  }

  /** The first row of a sorted sequence precedes every row of the rest with
      `x` inserted, when it precedes `x`. */
  lemma HeadPrecedesInserted(o: Ordering, x: Product, s: seq<Product>)
    requires s != [] && Sorted(o, s) && Precedes(o, s[0], x)
    ensures forall j :: 0 <= j < |Insert(o, x, s[1..])| ==> Precedes(o, s[0], Insert(o, x, s[1..])[j])
  {
    var t := Insert(o, x, s[1..]);
    forall j | 0 <= j < |t| ensures Precedes(o, s[0], t[j]) {
      assert t[j] in multiset(t);
      if t[j] != x {
        assert t[j] in multiset(s[1..]);
        var k :| 0 <= k < |s[1..]| && s[1..][k] == t[j];
        assert s[k + 1] == t[j];
      }
    }
  }

  /** Insertion sort by the chosen ordering. */
  function SortBy(o: Ordering, s: seq<Product>): (r: seq<Product>)
    ensures multiset(r) == multiset(s)
  {
    if s == [] then []
    else
      assert s == [s[0]] + s[1..];
      Insert(o, s[0], SortBy(o, s[1..]))
  }

  /** With distinct ids, the sort puts every row before every later one. */
  lemma {:induction false} SortBySorted(o: Ordering, s: seq<Product>)
    requires UniqueIds(s)
    ensures Sorted(o, SortBy(o, s))
  {
    if s != [] {
      assert UniqueIds(s[1..]);
      SortBySorted(o, s[1..]);
      var t := SortBy(o, s[1..]);
      forall k | 0 <= k < |t| ensures t[k].id != s[0].id {
        assert t[k] in multiset(s[1..]);
        var j :| 0 <= j < |s[1..]| && s[1..][j] == t[k];
        assert s[j + 1] == t[k];
      }
      InsertSorted(o, s[0], t);
    }
  }

  /** There is only one sorted arrangement of a collection of rows: whatever
      algorithm the database uses, it yields this order. */
  lemma {:induction false} SortedUnique(o: Ordering, a: seq<Product>, b: seq<Product>)
    requires Sorted(o, a) && Sorted(o, b) && multiset(a) == multiset(b)
    ensures a == b
    decreases |a|
  {
    if a == [] {
      assert |b| == |multiset(b)| == 0;
    } else {
      assert |b| == |multiset(b)| == |multiset(a)| == |a|;
      SortedSameHead(o, a, b);
      MultisetTail(a, b);
      assert Sorted(o, a[1..]) && Sorted(o, b[1..]);
      SortedUnique(o, a[1..], b[1..]);
      assert a == [a[0]] + a[1..] && b == [b[0]] + b[1..];
    }
  }

  /** Two sorted arrangements of the same rows start with the same row. */
  lemma SortedSameHead(o: Ordering, a: seq<Product>, b: seq<Product>)
    requires Sorted(o, a) && Sorted(o, b) && multiset(a) == multiset(b)
    requires a != [] && b != []
    ensures a[0] == b[0]
  {
    assert a[0] in multiset(b) && b[0] in multiset(a);
    var j :| 0 <= j < |b| && b[j] == a[0];
    var i :| 0 <= i < |a| && a[i] == b[0];
    if a[0] != b[0] {
      PrecedesAsymmetric(o, a[0], b[0]);
      assert false;
    }
  }

  lemma MultisetTail(a: seq<Product>, b: seq<Product>)
    requires a != [] && b != [] && a[0] == b[0] && multiset(a) == multiset(b)
    ensures multiset(a[1..]) == multiset(b[1..])
  {
    assert a == [a[0]] + a[1..] && b == [b[0]] + b[1..];
    assert multiset(a[1..]) == multiset(a) - multiset{a[0]};
    assert multiset(b[1..]) == multiset(b) - multiset{a[0]};
  }

  // ---------------------------------------------------------------- paging

  function Min(a: int, b: int): int {
    if a < b then a else b
  }

  /** OFFSET `skip` LIMIT `limit`. */
  function Window(s: seq<Product>, skip: nat, limit: nat): (r: seq<Product>)
    ensures |r| <= limit && |r| <= |s|
    ensures forall i :: 0 <= i < |r| ==> skip + i < |s| && r[i] == s[skip + i]
    ensures |r| == (if skip >= |s| then 0 else Min(limit, |s| - skip))
  {
    if skip >= |s| then [] else s[skip..Min(skip + limit, |s|)]
  }

  /** A price bound that is present but does not read as a float. */
  predicate BadBound(bound: Option<string>, parseFloat: string -> Option<real>) {
    bound.Some? && parseFloat(bound.value).None?
  }

  /** FastAPI's validation of the parameters: 422 when skip < 0, when limit is
      outside 1..200, or when a price bound is present but not a float
      (`parseFloat` is pydantic's reading of a float); otherwise every
      parameter is passed on, the bounds as the numbers they read as. */
  function Validate(req: ListRequest, parseFloat: string -> Option<real>): (r: Result<ListQuery, ApiError>)
    ensures r.Failure? <==>
      req.skip < 0 || req.limit < 1 || req.limit > 200
      || BadBound(req.minPrice, parseFloat) || BadBound(req.maxPrice, parseFloat)
    ensures r.Failure? ==> r.error.status == Unprocessable
    ensures r.Success? ==>
      && r.value.q == req.q && r.value.category == req.category && r.value.supplier == req.supplier
      && r.value.sort == req.sort && r.value.skip == req.skip && r.value.limit == req.limit
      && (r.value.minPrice.Some? <==> req.minPrice.Some?)
      && (req.minPrice.Some? ==> r.value.minPrice == parseFloat(req.minPrice.value))
      && (r.value.maxPrice.Some? <==> req.maxPrice.Some?)
      && (req.maxPrice.Some? ==> r.value.maxPrice == parseFloat(req.maxPrice.value))
  {
    if req.skip < 0 || req.limit < 1 || req.limit > 200
       || BadBound(req.minPrice, parseFloat) || BadBound(req.maxPrice, parseFloat)
    then
      Failure(ApiError(Unprocessable, "validation error"))
    else
      var lo := if req.minPrice.Some? then parseFloat(req.minPrice.value) else None;
      var hi := if req.maxPrice.Some? then parseFloat(req.maxPrice.value) else None;
      Success(ListQuery(req.q, req.category, req.supplier, lo, hi, req.sort, req.skip, req.limit))
  }

  /** `list_products`: the request is rejected with 422 when validation fails;
      otherwise the matching rows, ordered, then windowed. Every returned row
      is a stored row that satisfies every filter of the validated query, at
      most `limit` of them, in the requested order. */
  function ListProducts(db: seq<Product>, req: ListRequest, parseFloat: string -> Option<real>)
    : (r: Result<seq<Product>, ApiError>)
    ensures r.Failure? <==>
      req.skip < 0 || req.limit < 1 || req.limit > 200
      || BadBound(req.minPrice, parseFloat) || BadBound(req.maxPrice, parseFloat)
    ensures r.Failure? ==> r.error.status == Unprocessable
    ensures r.Success? ==> |r.value| <= req.limit
    ensures r.Success? ==> forall p :: p in r.value ==> p in db && Matches(Validate(req, parseFloat).value, p)
    ensures r.Success? && UniqueIds(db) ==> Sorted(OrderingOf(req.sort), r.value)
  {
    var v := Validate(req, parseFloat);
    if v.Failure? then
      Failure(v.error)
    else
      var query := v.value;
      var o := OrderingOf(query.sort);
      var selected := Select(query, db);
      var ordered := SortBy(o, selected);
      var r := Window(ordered, query.skip, query.limit);
      ListFacts(db, query, o, selected, ordered, r);
      Success(r)
  }

  lemma ListFacts(db: seq<Product>, query: ListQuery, o: Ordering,
                  selected: seq<Product>, ordered: seq<Product>, r: seq<Product>)
    requires query.skip >= 0 && query.limit >= 1
    requires selected == Select(query, db) && ordered == SortBy(o, selected)
    requires r == Window(ordered, query.skip, query.limit)
    ensures forall p :: p in r ==> p in db && Matches(query, p)
    ensures UniqueIds(db) ==> Sorted(o, r)
  {
    WindowMembers(ordered, query.skip, query.limit);
    forall p | p in r ensures p in db && Matches(query, p) {
      assert p in multiset(ordered);
      assert p in selected;
    }
    if UniqueIds(db) {
      SelectUnique(query, db);
      SortBySorted(o, selected);
      WindowSorted(o, ordered, query.skip, query.limit);
    }
  }

  lemma WindowMembers(s: seq<Product>, skip: nat, limit: nat)
    ensures forall p :: p in Window(s, skip, limit) ==> p in s
  {
    var r := Window(s, skip, limit);
    forall p | p in r ensures p in s {
      var i :| 0 <= i < |r| && r[i] == p;
      assert s[skip + i] == p;
    }
  }

  /** A window of a sorted sequence is sorted. */
  lemma WindowSorted(o: Ordering, s: seq<Product>, skip: nat, limit: nat)
    requires Sorted(o, s)
    ensures Sorted(o, Window(s, skip, limit))
  {
    var r := Window(s, skip, limit);
    forall i, j | 0 <= i < j < |r| ensures Precedes(o, r[i], r[j]) {
      assert r[i] == s[skip + i] && r[j] == s[skip + j];
    }
  }

  /** Whatever sorted arrangement of the matching rows the database produces,
      the page returned is rows skip .. skip+limit-1 of it. */
  lemma ListIsWindowOfOrder(db: seq<Product>, req: ListRequest, parseFloat: string -> Option<real>,
                            ordered: seq<Product>)
    requires UniqueIds(db)
    requires Validate(req, parseFloat).Success?
    requires Sorted(OrderingOf(req.sort), ordered)
    requires multiset(ordered) == multiset(Select(Validate(req, parseFloat).value, db))
    ensures ListProducts(db, req, parseFloat) == Success(Window(ordered, req.skip, req.limit))
  {
    var query := Validate(req, parseFloat).value;
    var o := OrderingOf(query.sort);
    SelectUnique(query, db);
    SortBySorted(o, Select(query, db));
    SortedUnique(o, SortBy(o, Select(query, db)), ordered);
  }

  /** The first page holds every matching row when they fit in it. */
  lemma FirstPageComplete(db: seq<Product>, req: ListRequest, parseFloat: string -> Option<real>, p: Product)
    requires req.skip == 0 && Validate(req, parseFloat).Success?
    requires |Select(Validate(req, parseFloat).value, db)| <= req.limit
    requires p in db && Matches(Validate(req, parseFloat).value, p)
    ensures p in ListProducts(db, req, parseFloat).value
  {
    var query := Validate(req, parseFloat).value;
    var o := OrderingOf(query.sort);
    var ordered := SortBy(o, Select(query, db));
    assert p in multiset(ordered);
    assert |ordered| == |multiset(ordered)| == |multiset(Select(query, db))| == |Select(query, db)|;
    assert Window(ordered, 0, query.limit) == ordered;
  }

  // ---------------------------------------------------------------- facets

  /** Sorted by code point and without repeats. */
  predicate StrictlyAscending(s: seq<string>) {
    forall i, j :: 0 <= i < j < |s| ==> StrLess(s[i], s[j])
  }

  /** `x` added to an ascending list at its place, unless already there. */
  function InsertDistinct(x: string, s: seq<string>): (r: seq<string>)
    ensures forall v :: v in r <==> v in s || v == x
  {
    if s == [] then [x]
    else if x == s[0] then s
    else if StrLess(x, s[0]) then [x] + s
    else [s[0]] + InsertDistinct(x, s[1..])
  }

  lemma {:induction false} InsertDistinctAscending(x: string, s: seq<string>)
    requires StrictlyAscending(s)
    ensures StrictlyAscending(InsertDistinct(x, s))
  {
    if s == [] || x == s[0] {
    } else if StrLess(x, s[0]) {
      var r := [x] + s;
      forall i, j | 0 <= i < j < |r| ensures StrLess(r[i], r[j]) {
        if i == 0 && j > 1 {
          StrLessTransitive(x, s[0], s[j - 1]);
        }
      }
    } else {
      StrLessTotal(x, s[0]);
      assert StrictlyAscending(s[1..]);
      InsertDistinctAscending(x, s[1..]);
      var t := InsertDistinct(x, s[1..]);
      forall j | 0 <= j < |t| ensures StrLess(s[0], t[j]) {
        assert t[j] in t;
        if t[j] != x {
          var k :| 0 <= k < |s[1..]| && s[1..][k] == t[j];
          assert s[k + 1] == t[j];
        }
      }
      var r := [s[0]] + t;
      forall i, j | 0 <= i < j < |r| ensures StrLess(r[i], r[j]) {
        if i > 0 {
          assert r[i] == t[i - 1] && r[j] == t[j - 1];
        }
      }
    }
  }

  /** `sorted(c for c in <distinct non-NULL values> if c)`: the distinct
      non-empty values of a nullable column, in ascending order. */
  function Facet(column: seq<Option<string>>): (r: seq<string>)
    ensures StrictlyAscending(r)
    ensures forall v :: v in r <==> v != "" && Some(v) in column
  {
    if column == [] then []
    else
      var rest := Facet(column[1..]);
      if Present(column[0]) then
        InsertDistinctAscending(column[0].value, rest);
        InsertDistinct(column[0].value, rest)
      else rest
  }

  /** An ascending list without repeats is fixed by its set of values: the
      facet lists are the sorted value sets, whatever the query plan. */
  lemma {:induction false} AscendingUnique(a: seq<string>, b: seq<string>)
    requires StrictlyAscending(a) && StrictlyAscending(b)
    requires forall v :: v in a <==> v in b
    ensures a == b
    decreases |a|
  {
    if a != [] {
      assert a[0] in b;
    }
    if b != [] {
      assert b[0] in a;
    }
    if a != [] && b != [] {
      assert a[0] in b && b[0] in a;
      if a[0] != b[0] {
        var i :| 0 <= i < |a| && a[i] == b[0];
        var j :| 0 <= j < |b| && b[j] == a[0];
        StrLessAsymmetric(a[0], b[0]);
        assert false;
      }
      forall v ensures v in a[1..] <==> v in b[1..] {
        TailMember(a, b, v);
        TailMember(b, a, v);
      }
      assert StrictlyAscending(a[1..]) && StrictlyAscending(b[1..]);
      AscendingUnique(a[1..], b[1..]);
      assert a == [a[0]] + a[1..] && b == [b[0]] + b[1..];
    }
  }

  lemma TailMember(a: seq<string>, b: seq<string>, v: string)
    requires StrictlyAscending(a) && a != [] && b != [] && a[0] == b[0]
    requires forall w :: w in a <==> w in b
    ensures v in a[1..] ==> v in b[1..]
  {
    if v in a[1..] {
      var i :| 0 <= i < |a[1..]| && a[1..][i] == v;
      assert StrLess(a[0], a[i + 1]);
      StrLessAsymmetric(v, v);
      assert v in b;
      var j :| 0 <= j < |b| && b[j] == v;
      assert j != 0;
      assert b[1..][j - 1] == v;
    }
  }

  /** The response of `GET /api/products/filters`. */
  datatype FilterLists = FilterLists(categories: seq<string>, suppliers: seq<string>)

  function CategoryColumn(db: seq<Product>): (r: seq<Option<string>>)
    ensures |r| == |db| && forall i :: 0 <= i < |db| ==> r[i] == db[i].category
  {
    seq(|db|, i requires 0 <= i < |db| => db[i].category)
  }

  function SupplierColumn(db: seq<Product>): (r: seq<Option<string>>)
    ensures |r| == |db| && forall i :: 0 <= i < |db| ==> r[i] == db[i].supplier
  {
    seq(|db|, i requires 0 <= i < |db| => db[i].supplier)
  }

  /** `product_filters`: each list ascending without repeats, holding exactly
      the non-empty categories (suppliers) some product carries. */
  function ProductFilters(db: seq<Product>): (r: FilterLists)
    ensures StrictlyAscending(r.categories) && StrictlyAscending(r.suppliers)
    ensures forall c :: c in r.categories <==> c != "" && exists i :: 0 <= i < |db| && db[i].category == Some(c)
    ensures forall v :: v in r.suppliers <==> v != "" && exists i :: 0 <= i < |db| && db[i].supplier == Some(v)
  {
    var cats := CategoryColumn(db);
    var sups := SupplierColumn(db);
    assert forall c :: Some(c) in cats <==> exists i :: 0 <= i < |db| && db[i].category == Some(c);
    assert forall v :: Some(v) in sups <==> exists i :: 0 <= i < |db| && db[i].supplier == Some(v);
    FilterLists(Facet(cats), Facet(sups))
  }
}
