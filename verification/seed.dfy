/** The seeding script of the back end (backend/app/seed.py): the keyword
    rules that guess a category from a product name, and the loop that turns
    the seed file's items into product rows, skipping nameless items and
    suffixing a slug with -2, -3, … until it is free. */
module Seed {
  import opened Wrappers
  import opened Text
  import opened Catalog
  import opened Slug
  import AdminProducts

  // ---------------------------------------------------------------- infer_category

  /** A keyword rule: a category and the keywords that select it. */
  datatype Rule = Rule(keywords: seq<string>, category: string)

  /** The rules of `infer_category`, tried in this order. */
  const Rules: seq<Rule> := [
    Rule(["насіння", "семена"], "Насіння"),
    Rule(["добрив", "добриво", "fert"], "Добрива"),
    Rule(["фунгіцид", "фунгицид", "інсектицид", "гербіцид"], "ЗЗР"),
    Rule(["грунт", "ґрунт", "субстрат"], "Ґрунти/Субстрати"),
    Rule(["горщик", "кашпо", "лоток"], "Інвентар")
  ]

  /** The category when no rule matches. */
  const Other: string := "Інше"

  /** Some keyword of the rule occurs in the text. */
  predicate RuleMatches(rule: Rule, n: string) {
    exists k :: 0 <= k < |rule.keywords| && Contains(n, rule.keywords[k])
  }

  /** Rule `i` matches and no earlier rule does. */
  predicate FirstMatching(rules: seq<Rule>, i: nat, n: string)
    requires i < |rules|
  {
    RuleMatches(rules[i], n) && forall j :: 0 <= j < i ==> !RuleMatches(rules[j], n)
  }

  /** The index of the first rule that matches, or the number of rules. */
  function FirstMatch(rules: seq<Rule>, n: string): (k: nat)
    ensures k <= |rules|
    ensures forall j :: 0 <= j < k ==> !RuleMatches(rules[j], n)
    ensures k < |rules| ==> RuleMatches(rules[k], n)
  {
    if rules == [] then 0
    else if RuleMatches(rules[0], n) then 0
    else 1 + FirstMatch(rules[1..], n)
  }

  /** `infer_category`: the category of the first rule with a keyword in the
      lower-cased name, "Інше" when there is none. */
  function InferCategory(name: string): (r: string)
    ensures forall i :: 0 <= i < |Rules| && FirstMatching(Rules, i, Lower(name)) ==> r == Rules[i].category
    ensures (forall i :: 0 <= i < |Rules| ==> !RuleMatches(Rules[i], Lower(name))) ==> r == Other
  {
    var k := FirstMatch(Rules, Lower(name));
    if k < |Rules| then Rules[k].category else Other
  }

  /** The category is one of six labels, and "Інше" exactly when no keyword
      of any rule occurs in the lower-cased name. */
  lemma InferCategoryRange(name: string)
    ensures InferCategory(name) in {"Насіння", "Добрива", "ЗЗР", "Ґрунти/Субстрати", "Інвентар", "Інше"}
    ensures InferCategory(name) == Other <==> forall i :: 0 <= i < |Rules| ==> !RuleMatches(Rules[i], Lower(name))
  {
    var k := FirstMatch(Rules, Lower(name));
    assert k < |Rules| ==> Rules[k].category != Other;
  }

  /** A name naming both seeds and fertiliser is filed under seeds: the
      seed rule comes first. */
  lemma SeedsBeforeFertiliser(name: string)
    requires Contains(Lower(name), "насіння")
    ensures InferCategory(name) == "Насіння"
  {
    assert RuleMatches(Rules[0], Lower(name)) by {
      assert Rules[0].keywords[0] == "насіння";
    }
  }

  // ---------------------------------------------------------------- slug choice

  /** The k-th slug tried for `base`: `base` itself first, then base-2,
      base-3, … */
  function Candidate(base: string, k: nat): string {
    if k <= 1 then base else base + "-" + NatToString(k)
  }

  /** Different attempts try different slugs. */
  lemma CandidateInjective(base: string, j: nat, k: nat)
    requires 1 <= j && 1 <= k && Candidate(base, j) == Candidate(base, k)
    ensures j == k
  {
    var a, b := Candidate(base, j), Candidate(base, k);
    if j > 1 && k > 1 {
      assert NatToString(j) == a[|base| + 1..];
      assert NatToString(k) == b[|base| + 1..];
      NatToStringInjective(j, k);
    }
  }

  lemma CandidatesDiffer(base: string, j: nat, k: nat)
    requires 1 <= j && 1 <= k && j != k
    ensures Candidate(base, j) != Candidate(base, k)
  {
    if Candidate(base, j) == Candidate(base, k) {
      CandidateInjective(base, j, k);
    }
  }

  /** The first attempt from `k` on whose slug is not taken. */
  function FirstFree(base: string, taken: set<string>, k: nat): (r: nat)
    requires k >= 1
    ensures r >= k && Candidate(base, r) !in taken
    ensures forall j :: k <= j < r ==> Candidate(base, j) in taken
    decreases |taken|
  {
    if Candidate(base, k) !in taken then k
    else
      var r := FirstFree(base, taken - {Candidate(base, k)}, k + 1);
      CandidatesDiffer(base, r, k);
      r
  }

  /** The slugs of the rows. */
  function Slugs(db: seq<Product>): (r: set<string>)
    ensures forall s :: s in r <==> exists i :: 0 <= i < |db| && db[i].slug == s
  {
    set p | p in db :: p.slug
  }

  /** The slug the loop of `run_seed` settles on: the first of base, base-2,
      base-3, … that no row holds yet. */
  function ChooseSlug(db: seq<Product>, base: string): (r: string)
    ensures r !in Slugs(db)
    ensures exists k :: k >= 1 && r == Candidate(base, k) && forall j :: 1 <= j < k ==> Candidate(base, j) in Slugs(db)
    ensures base !in Slugs(db) ==> r == base
  {
    var k := FirstFree(base, Slugs(db), 1);
    Candidate(base, k)
  }

  /** A taken slug with base-2 free becomes base-2. */
  lemma ChooseSlugSecond(db: seq<Product>, base: string)
    requires base in Slugs(db) && base + "-2" !in Slugs(db)
    ensures ChooseSlug(db, base) == base + "-2"
  {
    assert NatToString(2) == "2";
    assert Candidate(base, 2) == base + "-2";
  }

  // ---------------------------------------------------------------- run_seed

  /** An item of the seed file; absent and null fields are `None`. `price`
      is the result of `parse_price`. */
  datatype SeedItem = SeedItem(
    name: Option<string>, description: Option<string>, supplier: Option<string>,
    price: real, image: Option<string>)

  /** The stored supplier: stripped when present and non-empty, else none. */
  function SeedSupplier(supplier: Option<string>): (r: Option<string>)
    ensures r.Some? <==> supplier.Some? && supplier.value != ""
    ensures r.Some? ==> r.value == Trim(Python, supplier.value)
  {
    if supplier.Some? && supplier.value != "" then Some(Trim(Python, supplier.value)) else None
  }

  /** The row `run_seed` inserts for an item, or `None` when the stripped
      name is empty. `isWord` is Python's `\w`. */
  function SeedProduct(db: seq<Product>, item: SeedItem, id: int, isWord: char -> bool): (r: Option<Product>)
    requires forall c :: 'a' <= c <= 'z' ==> isWord(c)
    ensures r.None? <==> !HasName(item)
    ensures r.Some? ==> var p := r.value;
      && p.id == id && p.name == Trim(Python, item.name.value) && p.name != ""
      && p.slug == ChooseSlug(db, WordSlugify(p.name, Python, isWord))
      && p.description == Trim(Python, item.description.GetOr(""))
      && p.supplier == SeedSupplier(item.supplier)
      && p.category == Some(InferCategory(p.name))
      && p.price == item.price && p.imagePath == item.image
  {
    var name := Trim(Python, item.name.GetOr(""));
    if name == "" then None
    else
      Some(Product(id, name, ChooseSlug(db, WordSlugify(name, Python, isWord)), Trim(Python, item.description.GetOr("")),
                   SeedSupplier(item.supplier), Some(InferCategory(name)), item.price, item.image))
  }

  /** The item has a name that is not blank. */
  predicate HasName(item: SeedItem) {
    Trim(Python, item.name.GetOr("")) != ""
  }

  /** The number of items with a non-blank name. */
  function Named(items: seq<SeedItem>): nat {
    if items == [] then 0
    else (if HasName(items[0]) then 1 else 0) + Named(items[1..])
  }

  /** A non-empty name with no whitespace at either end. */
  predicate Stripped(name: string) {
    name != [] && !IsSpace(Python, name[0]) && !IsSpace(Python, name[|name| - 1])
  }

  /** One pass of the loop of `run_seed` for an item with a name: the
      item's row appended with id `id`. */
  function SeedStep(db: seq<Product>, item: SeedItem, id: int, isWord: char -> bool): (r: seq<Product>)
    requires forall c :: 'a' <= c <= 'z' ==> isWord(c)
    requires forall i :: 0 <= i < |db| ==> db[i].id < id
    requires HasName(item)
    ensures |r| == |db| + 1 && r[..|db|] == db
    ensures Stripped(r[|db|].name) && r[|db|].id == id
    ensures forall i :: 0 <= i < |r| ==> r[i].id < id + 1
    ensures AdminProducts.Valid(db) ==> AdminProducts.Valid(r)
  {
    var p := SeedProduct(db, item, id, isWord).value;
    AppendFresh(db, p, id);
    var r := db + [p];
    assert r[..|db|] == db && r[|db|] == p;
    r
  }

  /** `run_seed` over the items in file order: each named item adds one row
      after the existing ones, with the next id; the rows already there stay,
      every added row has a stripped non-empty name, and the ids and slugs of
      the table stay unique. (The transaction effects of the rollback are not
      modelled.) */
  function RunSeed(db: seq<Product>, items: seq<SeedItem>, nextId: int, isWord: char -> bool): (r: seq<Product>)
    requires forall c :: 'a' <= c <= 'z' ==> isWord(c)
    requires forall i :: 0 <= i < |db| ==> db[i].id < nextId
    ensures |r| == |db| + Named(items) && r[..|db|] == db
    ensures forall i :: |db| <= i < |r| ==> Stripped(r[i].name)
    ensures AdminProducts.Valid(db) ==> AdminProducts.Valid(r)
    decreases |items|
  {
    if items == [] then db
    else if !HasName(items[0]) then RunSeed(db, items[1..], nextId, isWord)
    else
      var d := SeedStep(db, items[0], nextId, isWord);
      var r := RunSeed(d, items[1..], nextId + 1, isWord);
      PrefixOfPrefix(r, db, d);
      StrippedTail(r, |db|);
      assert Named(items) == 1 + Named(items[1..]);
      r
  }

  /** The row `run_seed` adds for its first item is the row `SeedProduct`
      builds for it; an item without a name adds nothing. */
  lemma RunSeedFirst(db: seq<Product>, items: seq<SeedItem>, nextId: int, isWord: char -> bool)
    requires forall c :: 'a' <= c <= 'z' ==> isWord(c)
    requires forall i :: 0 <= i < |db| ==> db[i].id < nextId
    requires items != []
    ensures SeedProduct(db, items[0], nextId, isWord).None? ==>
      RunSeed(db, items, nextId, isWord) == RunSeed(db, items[1..], nextId, isWord)
    ensures SeedProduct(db, items[0], nextId, isWord).Some? ==>
      RunSeed(db, items, nextId, isWord)[|db|] == SeedProduct(db, items[0], nextId, isWord).value
  {
    if HasName(items[0]) {
      var d := SeedStep(db, items[0], nextId, isWord);
      assert d[|db|] == SeedProduct(db, items[0], nextId, isWord).value;
      var r := RunSeed(d, items[1..], nextId + 1, isWord);
      assert r[|db|] == r[..|d|][|db|];
    }
  }

  /** Appending a row with the next id and a free slug keeps ids below the
      following id, and keeps the table valid. */
  lemma AppendFresh(db: seq<Product>, p: Product, id: int)
    requires forall i :: 0 <= i < |db| ==> db[i].id < id
    requires p.id == id && p.slug !in Slugs(db)
    ensures forall i :: 0 <= i < |db + [p]| ==> (db + [p])[i].id < id + 1
    ensures AdminProducts.Valid(db) ==> AdminProducts.Valid(db + [p])
  {
  }

  lemma StrippedTail(r: seq<Product>, k: nat)
    requires k < |r| && Stripped(r[k].name)
    requires forall i :: k + 1 <= i < |r| ==> Stripped(r[i].name)
    ensures forall i :: k <= i < |r| ==> Stripped(r[i].name)
  {
  }

  lemma PrefixOfPrefix(r: seq<Product>, db: seq<Product>, d: seq<Product>)
    requires |db| <= |d| <= |r| && r[..|d|] == d && d[..|db|] == db
    ensures r[..|db|] == db
    ensures |db| < |d| ==> r[|db|] == d[|db|]
  {
    assert r[..|db|] == r[..|d|][..|db|];
    if |db| < |d| {
      assert r[|db|] == r[..|d|][|db|];
    }
  }
}
