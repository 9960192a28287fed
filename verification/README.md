# zelena-gryadka in Dafny

A model of the logic of the zelena-gryadka garden shop, with proofs about it.
The shop has three parts:

- a Next.js storefront: the catalogue browser, the search bar, the products
  page and the admin product form;
- a FastAPI back end: the catalogue query, facets, cart, favourites,
  checkout, admin product endpoints, request schemas, the seeding script, the
  slug helpers and the admin-promotion script;
- an older Flask site with static JavaScript: users and products kept in
  JSON files, a basket and a cart kept in `localStorage`.

Every data store becomes an immutable value:

- a database table is a `seq` of rows in table order;
- the cart is a `map` from (user, product) to a quantity;
- favourites are a `set` of pairs;
- the legacy user file is a `map`, and the product file and the basket are `seq`s.

Every handler, UI event or script becomes a pure function. It maps the store
and the request to the new store and the answer. Errors are
`Result.Failure` values carrying the HTTP status and message.

Things the code gets from outside are parameters of the model:

- ids the database hands out;
- password hashes, password checks and tokens;
- pydantic's e-mail check;
- JavaScript's `Number`/`String` on prices;
- Python's Unicode `\w`.

The modules follow the source files:

| file | module | models |
|---|---|---|
| wrappers.dfy | Wrappers | `Option`, `Result`, HTTP error statuses |
| text.dfy | Text | Python's and JavaScript's whitespace and `strip`/`trim`, lower-casing for Latin and Cyrillic, substring, code-point order, decimal numerals |
| search_params.dfy | SearchParams | `URLSearchParams` `get`/`set`/`delete` (section 6.2 of the WHATWG URL Standard) on a list of pairs |
| products_browser.dfy | ProductsBrowser | filter state, handlers, request serialisation, pagination, fetch result |
| products_page.dfy | ProductsPage | initial `q` and `page` of the products page |
| search_bar.dfy | SearchBar | the search bar's URL rewrite and input re-sync |
| catalog.dfy | Catalog | `list_products` (filter, order, window), PostgreSQL `LIKE`/`ILIKE`, `product_filters` |
| schemas.dfy | Schemas | request-body validation and defaults |
| accounts.dfy | Accounts | register, login, the admin upsert of `create_admin.py` |
| admin_products.dfy | AdminProducts | admin create/update with slug checks, image upload |
| cart.dfy | Cart | cart, favourites, checkout |
| slug.dfy | Slug | the three `slugify` functions |
| seed.dfy | Seed | `infer_category`, `run_seed` |
| admin_page.dfy | AdminPage | the admin product form |
| seed_ts.dfy | SeedList | slug lookup in the bundled seed list |
| legacy_basket.dfy | LegacyBasket | `addToBasket`/`removeFromBasket` and the remove button |
| legacy_cart.dfy | LegacyCart | `addToCart` |
| legacy_store.dfy | LegacyStore | the Flask handlers |

## Model

| member | source | states |
|---|---|---|
| Text.Trim | backend/app/utils.py:3 | Python's `strip()` and JavaScript's `trim()`, each with its own whitespace set: the input is its leading whitespace, then the result, then whitespace only, and the result neither starts nor ends with whitespace |
| Text.TrimIdempotent | frontend/components/SearchBar.tsx:17 | in either language, stripping an already stripped text changes nothing |
| Text.TrimPadded | frontend/app/products/page.tsx:13 | any whitespace of the language around a text that neither starts nor ends with whitespace is exactly what stripping removes |
| Text.Lower | backend/app/seed.py:14 | lower-casing keeps the length and maps each character on its own |
| Text.LowerChar | backend/app/seed.py:32 | a character changes under lower-casing exactly when it is an upper-case Latin or Cyrillic letter, and the result is never upper-case |
| Text.LowerCharTable | backend/app/seed.py:32 | each of the 26 Latin and 49 Cyrillic capitals (А..Я, Ѐ..Џ, Ґ) lowers to the small letter Unicode's case table pairs it with |
| Text.StrLessTotal | backend/app/main.py:127 | the name order is total on distinct texts |
| Text.StrLessTransitive | backend/app/main.py:127 | the name order is transitive |
| Text.StrLessAsymmetric | backend/app/main.py:127 | no two names precede each other |
| Text.DigitsValueOfNatToString | frontend/components/ProductsBrowser.tsx:57 | reading back a printed number gives the number |
| Text.IntToStringInjective | zelena/zelena/static/js/basket.js:51 | two integers with the same `String` form are equal |
| SearchParams.Get | frontend/components/SearchBar.tsx:8 | `get` finds nothing exactly when no pair has the name |
| SearchParams.GetFirst | frontend/components/SearchBar.tsx:8 | when pair i is the first with the name, `get` answers with its value |
| SearchParams.Delete | frontend/components/SearchBar.tsx:18-19 | `delete` leaves no pair of the name, drops exactly the pairs of the name, and keeps a single pair of another name |
| SearchParams.DeleteSplits | frontend/components/SearchBar.tsx:18-19 | `delete` on a list cut in two deletes from each part; with the one-pair case this keeps every other pair, in order |
| SearchParams.Set | frontend/components/SearchBar.tsx:17 | with no pair of the name, (n, v) is appended; otherwise the pairs before the first one of the name are kept, that one becomes (n, v) and later pairs of the name are deleted; afterwards exactly one pair has the name and `get` reads v |
| SearchParams.DeleteKeepsOthers | frontend/components/SearchBar.tsx:16-19 | deleting one name changes neither the count nor the value of any other name |
| SearchParams.DeleteTwice | frontend/components/SearchBar.tsx:19 | `delete` is idempotent |
| SearchParams.DeleteCommutes | frontend/components/SearchBar.tsx:18-19 | deleting two names in either order gives the same list |
| SearchParams.GetOfUnique | frontend/components/SearchBar.tsx:8 | on a list with distinct names, `get` returns v exactly when the pair (n, v) is in the list |
| ProductsBrowser.Init | frontend/components/ProductsBrowser.tsx:18-30 | the component starts from the page's q and page, other filters empty, sort "new", no items, no error, not busy |
| ProductsBrowser.Step | frontend/components/ProductsBrowser.tsx:79-134 | a filter edit resets the page to 1 and keeps the sort; a sort change touches only the sort; reset restores all defaults at once; prev never goes below 1; next adds exactly 1 |
| ProductsBrowser.EditTouchesOneField | frontend/components/ProductsBrowser.tsx:79-99 | a filter edit sets the edited field and the page, and nothing else |
| ProductsBrowser.RunKeepsPagePositive | frontend/components/ProductsBrowser.tsx:79-134 | from page 1 or later, no sequence of events brings the page below 1 |
| ProductsBrowser.RunEndingInEditIsOnFirstPage | frontend/components/ProductsBrowser.tsx:79-115 | any session whose last event edits a filter or resets ends on page 1 |
| ProductsBrowser.SkipOfPage | frontend/components/ProductsBrowser.tsx:7-32 | the offset of a page ≥ 1 is a non-negative multiple of 24, and the page is recovered from it |
| ProductsBrowser.RequestLayout | frontend/components/ProductsBrowser.tsx:50-58 | the request is the non-empty parameters, in the order q, category, supplier, min_price, max_price, sort, skip, limit; limit is "24" |
| ProductsBrowser.RequestDecodes | frontend/components/ProductsBrowser.tsx:51-58 | `get` on the request gives the trimmed q when it is non-empty and nothing otherwise, each other filter verbatim when non-empty and nothing otherwise, and always the sort, the offset and 24 |
| ProductsBrowser.RequestDeterminesFilters | frontend/components/ProductsBrowser.tsx:50-58 | two states on valid pages that send the same request differ at most in the whitespace around q |
| ProductsBrowser.PaginationBoundaries | frontend/components/ProductsBrowser.tsx:70-134 | after a fetch, Next is enabled exactly when a whole page of 24 arrived; Back on page 1 changes nothing; Next enables Back, and Back then returns to the filters the fetch was for |
| ProductsBrowser.FetchCycle | frontend/components/ProductsBrowser.tsx:45-68 | a fetch never changes the filters and ends not busy; success shows exactly the delivered items and no error; failure empties the list and shows the server's message, or the fallback text, never an empty one |
| ProductsBrowser.CategoryThenNextScenario | frontend/components/ProductsBrowser.tsx:83-134 | picking category "seeds" and then Next sends category, sort, skip 24 and limit 24, in that order |
| ProductsPage.InitialQ | frontend/app/products/page.tsx:13 | the initial query is the URL's q stripped, or "" when absent; a repeated q arrives as an array, which has no `trim`, so the page fails to render |
| ProductsPage.InitialPage | frontend/app/products/page.tsx:14 | the initial page is at least 1, and 1 when the parameter is absent, empty or repeated (an array's string form holds a comma, so `Number` gives NaN) |
| ProductsPage.InitialPageOfNumeral | frontend/app/products/page.tsx:14 | a positive numeral up to 2^53, with any JavaScript whitespace around it, gives that page |
| ProductsPage.InitialPageFallsBack | frontend/app/products/page.tsx:14 | zero, a negative numeral and a text without digits give page 1 |
| SearchBar.SyncInput | frontend/components/SearchBar.tsx:8-12 | the input shows the URL's first q, or "" when there is none |
| SearchBar.Submit | frontend/components/SearchBar.tsx:14-21 | navigation goes to /products; the parameters have no page; they have exactly one q equal to the stripped input when that is non-empty, and none otherwise; and with q and page removed they are the current URL's with q and page removed |
| SearchBar.SubmitKeepsOthers | frontend/components/SearchBar.tsx:16-19 | every name other than q and page keeps its count and its value |
| SearchBar.SubmitThenSync | frontend/components/SearchBar.tsx:10-20 | after a submit the input re-syncs to the stripped text submitted |
| SearchBar.SubmitIdempotent | frontend/components/SearchBar.tsx:14-21 | submitting again from the resulting URL navigates to the same place |
| Catalog.LikeMatch | backend/app/main.py:107-108 | a pattern without `%`, `_` or `\` matches exactly itself |
| Catalog.SubstringPattern | backend/app/main.py:107 | for a text without `%`, `_` or `\`, `LIKE '%t%'` holds exactly when t occurs in the value |
| Catalog.ILikeIsSubstring | backend/app/main.py:108 | `ILIKE '%t%'` holds exactly when t occurs in the value, ignoring case |
| Catalog.MatchesBySubstring | backend/app/main.py:106-120 | a product passes the filters exactly when the stripped q occurs in its name or description ignoring case, the category and supplier equal the given ones, and the price lies within the bounds; empty or absent filters impose nothing |
| Catalog.Select | backend/app/main.py:104-120 | the rows kept are exactly the rows that pass the filters |
| Catalog.PrecedesTotal | backend/app/main.py:122-129 | every ordering, with its id-descending tie-break, orders any two distinct rows |
| Catalog.SortBy | backend/app/main.py:122-129 | sorting is a permutation of the selected rows |
| Catalog.SortBySorted | backend/app/main.py:122-129 | on distinct ids the sorted rows follow the ordering |
| Catalog.SortedUnique | backend/app/main.py:122-129 | two sorted permutations of the same rows are equal, so the order is fully determined |
| Catalog.Window | backend/app/main.py:131 | OFFSET/LIMIT gives the rows at skip, skip+1, …, at most limit of them |
| Catalog.Validate | backend/app/main.py:93-101 | 422 exactly when skip < 0, limit is outside 1..200, or min_price or max_price is present but does not read as a float; otherwise the parameters pass unchanged, the bounds as the numbers they read as |
| Catalog.ListProducts | backend/app/main.py:92-132 | 422 exactly when validation fails, a non-numeric price bound typed into the filter bar included; otherwise at most limit rows, each from the table and passing every filter, in the order chosen by sort |
| Catalog.ListIsWindowOfOrder | backend/app/main.py:104-131 | the answer is the [skip, skip+limit) window of any sorted arrangement of the matching rows |
| Catalog.FirstPageComplete | backend/app/main.py:131 | when all matches fit in one page, the first page holds every match |
| Catalog.Facet | backend/app/main.py:137-140 | a facet list is strictly ascending, so without repeats, and holds exactly the non-empty values present in the column |
| Catalog.AscendingUnique | backend/app/main.py:139-140 | a strictly ascending list is determined by its elements |
| Catalog.ProductFilters | backend/app/main.py:135-141 | categories and suppliers are each strictly ascending and hold exactly the non-null, non-empty values of their column |
| Schemas.ParseRegister | backend/app/schemas.py:4-7 | a registration body is accepted exactly when all three fields are present, the nickname has 3..40 characters, the e-mail passes and the password has 6..128 characters; otherwise 422 |
| Schemas.MakeTokenOut | backend/app/schemas.py:15-19 | the token type defaults to "bearer" and the other fields are kept |
| Schemas.ParseProductCreate | backend/app/schemas.py:33-39 | name, slug and price are required; description defaults to "" and supplier and category to null |
| Schemas.RegisterRoundTrip | backend/app/schemas.py:4-7 | a body giving a registration's three fields parses to it exactly when they are within the bounds, and an accepted body re-parses to itself |
| Accounts.ParsedRegisterFits | backend/app/models.py:8-9 | an accepted registration always fits the nickname column (40), and fits the e-mail column exactly when the e-mail has at most 120 characters |
| Schemas.ParseCheckout | backend/app/schemas.py:41-48 | accepted exactly when full name 2..120, phone 5..40, city 2..120 and address 2..200 are given; payment defaults to "cod", delivery to "nova_poshta", comment to "" |
| Schemas.CheckoutRoundTrip | backend/app/schemas.py:41-48 | a checkout body giving every field parses to those fields exactly when they are within the bounds, and an accepted body re-parses to itself |
| Schemas.CheckoutDefaults | backend/app/schemas.py:42-48 | a body that omits payment, delivery and comment parses to "cod", "nova_poshta" and "" with the other four fields kept |
| Cart.ParsedCheckoutFits | backend/app/models.py:52-57 | an accepted checkout fits the order columns exactly when payment and delivery have at most 30 characters, and always when both take their defaults |
| Accounts.FindByEmail | backend/app/main.py:79 | the first user with the e-mail, or none exactly when no user has it |
| Accounts.Register | backend/app/main.py:60-74 | fails exactly when the e-mail or nickname is taken or a field is too long for its column: 400 when taken, the unhandled 500 otherwise; on success one non-admin user is appended, the answer carries a bearer token for it, and the uniqueness constraints and column widths still hold |
| Accounts.Login | backend/app/main.py:77-83 | success exactly when the user found by e-mail has a matching password, answering with that user's nickname and admin flag; 401 otherwise |
| Accounts.RegisterThenLogin | backend/app/main.py:60-83 | a user just registered logs in with the same password, as a non-admin |
| Accounts.RegisterTwiceFails | backend/app/main.py:62-63 | registering the same body twice fails the second time |
| Accounts.UpsertAdmin | backend/app/create_admin.py:8-34 | fails exactly when a field is too long (a DataError) or the nickname is held by another e-mail (an IntegrityError); otherwise an existing e-mail's user becomes admin with the new nickname, and a new hash only when a password is given, with no user added, or one admin user is appended; the constraints still hold |
| Accounts.UpsertMakesAdmin | backend/app/create_admin.py:16-31 | in both branches the user with the e-mail is an admin with the given nickname afterwards |
| Accounts.UpsertIdempotent | backend/app/create_admin.py:16-23 | running the script again without a password changes nothing |
| AdminProducts.AdminCreate | backend/app/main.py:158-177 | fails exactly when the slug is taken or a field is too wide for its column: 400 when taken, the unhandled 500 otherwise; on success one row is appended from the body and the table keeps unique ids and slugs |
| AdminProducts.AdminUpdate | backend/app/main.py:180-202 | fails exactly when the id is unknown (404), another row holds the slug (400) or a field is too wide (500); otherwise only that row takes the body's fields and the constraints still hold |
| AdminProducts.UpdateKeepsOwnSlug | backend/app/main.py:191-193 | an update that keeps a row's own slug and fits the columns is accepted |
| AdminProducts.SplitExt | backend/app/main.py:234 | the extension is empty or a final `.`-part of the name with no `.` or `/` inside and a non-dot character before it in the last path component; whenever the name has such a part, the extension is that part |
| AdminProducts.SplitExtExamples | backend/app/main.py:234 | "photo.png" gives ".png", "archive.tar.gz" gives ".gz", while ".png" and "a.b/c" give no extension |
| AdminProducts.AdminUploadImage | backend/app/main.py:224-244 | 404 for an unknown id, 400 unless the lower-cased extension is .jpg, .jpeg, .png or .webp; otherwise only that row's image becomes p{id}{ext} |
| AdminProducts.AcceptedImageName | backend/app/main.py:235-237 | an accepted upload is stored under "p", the id and one of the four extensions |
| Cart.CartAdd | backend/app/main.py:287-299 | fails exactly for an unknown product (404) or a new quantity beyond int4 (500); a quantity below 1 counts as 1; an existing line grows by it, otherwise a line is created; other lines are untouched and quantities stay positive |
| Cart.CartSetQty | backend/app/main.py:302-312 | fails exactly for a missing line (404) or a quantity beyond int4 (500); a quantity ≤ 0 removes the line, any other sets it exactly; other lines are untouched |
| Cart.CartRemove | backend/app/main.py:315-321 | the line is gone and every other line is kept |
| Cart.RemoveAbsent | backend/app/main.py:315-321 | removing a missing line changes nothing |
| Cart.AddTwice | backend/app/main.py:287-299 | after a successful add of a ≥ 1 units, adding b ≥ 1 more gives the same answer as adding a + b at once, success or failure alike |
| Cart.SetThenRemove | backend/app/main.py:302-321 | whatever the quantity and outcome, removing after setting is the same as removing |
| Cart.SetSameQty | backend/app/main.py:302-312 | setting a line to its own quantity changes nothing |
| Cart.AddFavorite | backend/app/main.py:255-263 | 404 for an unknown product; otherwise the pair is present afterwards and at most that pair is new |
| Cart.RemoveFavorite | backend/app/main.py:266-272 | the pair is gone and every other pair is kept |
| Cart.AddFavoriteIdempotent | backend/app/main.py:255-263 | adding a favourite twice is adding it once |
| Cart.AddThenRemoveFavorite | backend/app/main.py:255-272 | removing a favourite just added restores the set |
| Cart.StatusFor | backend/app/main.py:330-333 | the status is "paid" exactly for card payment, "created" otherwise |
| Cart.CreateOrder | backend/app/main.py:325-343 | fails exactly when the user's cart is empty (400) or a checkout field is too long for its column (500); otherwise the order carries the checkout fields, one item per line whose product exists with its name, price and quantity, the user's cart is emptied and other users' lines stay |
| Cart.CheckoutEmptiesCart | backend/app/main.py:325-343 | after a successful checkout a second one fails with 400 |
| Cart.OrderQuantitiesPositive | backend/app/main.py:335-339 | every order item holds at least one unit |
| Slug.Squash | backend/app/utils.py:4 | each maximal run of separators becomes one `-`, so no separator survives and, when `-` is itself a separator, no `--` appears |
| Slug.SquashRun | backend/app/utils.py:4 | a run of separators between other characters becomes exactly one `-` |
| Slug.StripDashes | backend/app/utils.py:5 | the input is its leading dashes, then the result, then dashes only; the result has no `-` at either end and is empty exactly when the input is all dashes |
| Slug.UtilsSlugify | backend/app/utils.py:2-6 | the slug is non-empty, has no `-` at either end and no `--`, uses only a–z, 0–9, а–я, і, ї, є, ґ and `-`, and is "product" when the text has no such letter |
| Slug.UtilsSeparators | backend/app/utils.py:4 | `_`, `ё`, `-` and space are outside the kept class |
| Slug.UtilsSlugifyIdempotent | backend/app/utils.py:2-6 | the slug of a slug is itself |
| Slug.UtilsSlugifyFixes | backend/app/utils.py:2-6 | every slug-shaped text of kept letters is its own slug |
| Slug.KeepWordChars | backend/app/seed.py:15 | only word characters, whitespace and `-` are kept; one character is kept exactly when it is one of these |
| Slug.KeepWordCharsAppend | backend/app/seed.py:15 | the filter of a concatenation is the concatenation of the filters, so with the single-character case it keeps exactly the kept characters in order |
| Slug.WordSlugify | backend/app/seed.py:13-18 | with Python's or JavaScript's whitespace, the slug is non-empty, has no `-` at either end and no `--`, and every other character is a lower-case word character that is neither `_` nor whitespace |
| Slug.WordSlugifyFixes | backend/app/seed.py:13-18 | every slug-shaped text of such characters is its own slug |
| Slug.WordSlugifyIdempotent | backend/app/seed.py:13-18 | the slug of a slug is itself |
| Slug.WordSlugifyJoins | backend/app/seed.py:16 | two slugs joined by any run of whitespace, `-` and `_` (a word character in both languages) become the two slugs joined by one `-` |
| Slug.AdminSlugify | frontend/app/admin/page.tsx:18-24 | the slug is non-empty, has no `-` at either end and no `--`, and uses only a–z, 0–9 and `-` |
| Slug.AdminSlugifyFixes | frontend/app/admin/page.tsx:18-24 | every slug-shaped text of a–z, 0–9 and `-` is its own slug |
| Slug.AdminSlugifyJoins | frontend/app/admin/page.tsx:21-23 | two such slugs joined by whitespace, `_` or `-` become the two joined by one `-` |
| Slug.AdminSlugifyNonAscii | frontend/app/admin/page.tsx:21-23 | a name without ASCII letters or digits, such as one in Cyrillic, gets "product" |
| Seed.FirstMatch | backend/app/seed.py:33-42 | the index of the first rule with a keyword in the name, or the number of rules |
| Seed.InferCategory | backend/app/seed.py:31-43 | when rule i is the first with a keyword in the lower-cased name, the category is rule i's; when no rule matches, it is "Інше" |
| Seed.InferCategoryRange | backend/app/seed.py:31-43 | the category is one of the six labels, and "Інше" exactly when no keyword matches |
| Seed.SeedsBeforeFertiliser | backend/app/seed.py:33-36 | a name mentioning seeds is filed under seeds even when it also mentions fertiliser |
| Seed.CandidatesDiffer | backend/app/seed.py:61-83 | the slugs tried, base, base-2, base-3, …, are all different |
| Seed.FirstFree | backend/app/seed.py:65-83 | the attempt settled on is free and every earlier one is taken |
| Seed.ChooseSlug | backend/app/seed.py:61-83 | the slug chosen is not taken, every candidate before it is taken, and it is the base slug when that is free |
| Seed.ChooseSlugSecond | backend/app/seed.py:80-83 | a taken base slug with base-2 free becomes base-2 |
| Seed.SeedSupplier | backend/app/seed.py:70 | the supplier is stored stripped when present and non-empty, and as null otherwise |
| Seed.SeedProduct | backend/app/seed.py:56-74 | nothing is inserted exactly when the stripped name is empty; otherwise the row has the stripped name and description, a free slug from the name, the supplier rule, the inferred category, the price and the image |
| Seed.RunSeed | backend/app/seed.py:45-89 | the run appends exactly one row per item with a non-blank name, keeps the rows already there, every row added has a stripped non-empty name, and ids and slugs stay unique |
| Seed.RunSeedFirst | backend/app/seed.py:56-79 | the first item adds exactly the row built for it, or nothing when it has no name |
| SeedList.GetSeedProduct | frontend/lib/seed.ts:14-16 | the first entry with the slug, or nothing exactly when no entry has it |
| SeedList.AllSeedSlugs | frontend/lib/seed.ts:18-20 | the slugs, one per entry, in list order |
| SeedList.ListedIffFound | frontend/lib/seed.ts:14-20 | a slug leads to an entry exactly when it is listed |
| SeedList.FindsOwnEntry | frontend/lib/seed.ts:14-20 | with unique slugs, the k-th listed slug leads back to the k-th entry |
| AdminPage.OnNameChange | frontend/app/admin/page.tsx:187 | typing sets the name; the slug follows the name only on a new form; nothing else changes |
| AdminPage.StartEdit | frontend/app/admin/page.tsx:74-84 | the form takes the product's fields, with the price as text and a missing supplier or category as "" |
| AdminPage.Save | frontend/app/admin/page.tsx:86-107 | fails exactly when the stripped name or the saved slug is empty, with the matching message; otherwise a PUT for a form with an id and a POST otherwise, with the stripped name, the slug field or the name's slug stripped, supplier null exactly when empty, and no category |
| AdminPage.EmptySlugFieldSaves | frontend/app/admin/page.tsx:92-99 | a form with a non-blank name and an empty slug field always saves, under the name's slug |
| AdminPage.TypedNameSaves | frontend/app/admin/page.tsx:86-115 | typing a non-blank name into a new form leaves a form that saves as a new product with the name's slug |
| AdminPage.EditClearsCategory | frontend/app/admin/page.tsx:74-102 | opening a product and saving without changes is accepted, but the row comes back with its category cleared |
| AdminPage.SaveKeepingCategory | frontend/app/admin/page.tsx:90-96 | the corrected save fails exactly when the page's save fails, and otherwise sends the same request plus the form's category |
| AdminPage.EditRoundTrip | frontend/app/admin/page.tsx:74-102 | with the corrected save, opening a product and saving without changes leaves the row exactly as it was |
| LegacyBasket.Find | zelena/zelena/static/js/basket.js:8 | the index of the first item with the id, or nothing exactly when none has it |
| LegacyBasket.AddToBasket | zelena/zelena/static/js/basket.js:6-16 | an existing id's item counts one more and every other item and the order stay; a new id is appended with count 1; the id is present afterwards; unique ids and positive counts are kept |
| LegacyBasket.RemoveFromBasket | zelena/zelena/static/js/basket.js:19-24 | no item with the id remains, the basket does not grow, and an absent id changes nothing |
| LegacyBasket.RemoveKeepsOthers | zelena/zelena/static/js/basket.js:21 | every item with another id survives and nothing new appears |
| LegacyBasket.RemoveSplits | zelena/zelena/static/js/basket.js:21 | removal works item by item over a concatenation |
| LegacyBasket.AddThenRemove | zelena/zelena/static/js/basket.js:6-24 | removing an id just added as a new item restores the basket |
| LegacyBasket.RemoveByButton | zelena/zelena/static/js/basket.js:51 | the click reaches `removeFromBasket` exactly when the id's string form has no character the markup disturbs, and then removes by the id only when the id is a string |
| LegacyBasket.NumeralIntact | zelena/zelena/static/js/basket.js:51 | the string form of a number always passes the markup intact |
| LegacyBasket.ButtonMissesNumericId | zelena/zelena/static/js/basket.js:21-51 | on a basket of numeric ids, the remove button of any item is clicked through and removes nothing |
| LegacyBasket.RemoveByText | zelena/zelena/static/js/basket.js:21 | corrected removal: no item whose id has the given string form remains |
| LegacyBasket.ButtonRemovesItem | zelena/zelena/static/js/basket.js:21-51 | with the corrected removal, a click that reaches the call removes the clicked item; on numeric ids every click does, removing exactly what removal by the number does |
| LegacyCart.AddToCart | zelena/zelena/static/js/product.js:1-6 | the id is in the cart afterwards; an id already there changes nothing; a new id is appended; a cart without duplicates stays so |
| LegacyCart.AddTwice | zelena/zelena/static/js/product.js:3 | adding an id twice is adding it once, and two ids added in either order give the same ids |
| LegacyStore.Register | zelena/zelena/app.py:36-47 | a missing username or password field is answered 400 with the store unchanged; a taken name is refused with the store unchanged; otherwise the user is stored as a non-admin, no other entry changes, and the answer redirects to /login |
| LegacyStore.Login | zelena/zelena/app.py:49-60 | a missing field is answered 400 with the session unchanged; success exactly when the user exists with that password; the session then takes the name and the stored admin flag, false when missing; otherwise the session stays and the failure text is answered |
| LegacyStore.Logout | zelena/zelena/app.py:62-65 | the session is cleared and the answer redirects home |
| LegacyStore.RegisterThenLogin | zelena/zelena/app.py:36-60 | a freshly registered user logs in as a non-admin, and registering the name again is refused |
| LegacyStore.ImageFile | zelena/zelena/app.py:78 | the image path is "img/", the name with each space replaced by "_", and ".jpg" |
| LegacyStore.AddProduct | zelena/zelena/app.py:67-96 | without an admin session, a redirect to /login; a missing field or image, 400; a refused image save, 500; none of these changes the list; otherwise one product is appended with id one more than the count and the form's fields, and the answer is home, or 500 when the page file cannot be written |
| LegacyStore.AddProductNumbers | zelena/zelena/app.py:80-88 | on a list numbered 1, 2, …, every outcome keeps the numbering, and an appended product's id is one no product had |
| LegacyStore.ProductPageFor | zelena/zelena/app.py:98-104 | the first product with the id, or the 404 text exactly when none has it |
| LegacyStore.AddedProductFound | zelena/zelena/app.py:73-104 | an appended product is found under its new id, and when nothing is appended that id finds the 404 text |

## Left out

- Network, concurrency and timing. The fetch effect of the catalogue browser
  has no cancellation, so a late response can overwrite a newer one. The
  model covers one fetch cycle at a time. The facet loader, the `api`
  wrapper, alerts and list refreshes are left out.
- Floating point. Prices are `real`. `parse_price`, `Number(form.price)` and
  `String(price)` are parameters, and totals are not computed. The price
  column is NUMERIC(10,2): AdminProducts.Fits admits exactly the prices that
  round to a value below 10^8 in size, and the rounding itself and the binary
  representation of a Python `float` are not modelled.
- `Number(...)` on the products page is modelled only for blank texts,
  decimal integers with an optional sign, and texts without digits.
  Fractions, exponents, hexadecimal and "Infinity" are left out.
- ProductsPage.InitialPage and ProductsPage.InitialPageOfNumeral: numerals
  larger than 2^53 in size are outside the model, because `Number` rounds
  them to a nearby double and the page is then not the numeral's value.
- Unicode. Lower-casing covers ASCII and the basic Cyrillic block plus Ґ;
  every other character is unchanged. Python's `\w` is a parameter. Names
  are ordered by code point, the C collation; other database collations are
  not modelled. The model thus assumes a database created with LC_COLLATE
  "C" (for the ordering) and a UTF-8 LC_CTYPE such as "C.UTF-8" or
  "uk_UA.UTF-8" (for `ILIKE` and `lower()` to fold Cyrillic letters); under
  a plain "C" LC_CTYPE PostgreSQL folds only ASCII.
- Slug.UtilsSlugify: its class is written as a–z, 0–9 and Ukrainian letters,
  but Python matches it with IGNORECASE, under which ſ (U+017F) matches s,
  ı (U+0131) matches i, the Kelvin sign (U+212A) matches k, and the
  Cyrillic variants U+1C80..U+1C88 match their basic letters. The model
  keeps only the listed letters and treats those variants as separators.
- Wildcards in the search text. `LIKE` is modelled with `%`, `_` and `\`.
  The substring reading of the search is proved only for texts without them.
- Catalog.Validate: `parseFloat` stands for pydantic's reading of a float
  and yields exact reals; the infinities and NaN that pydantic also accepts
  are not modelled.
- Catalog.ListProducts: its contract gives the order only for tables with
  distinct ids, which the primary key guarantees. For the window itself see
  Catalog.ListIsWindowOfOrder.
- Authentication and cryptography. JWT tokens, bcrypt hashing and checking,
  `require_admin`, `get_current_user` and pydantic's e-mail check are
  parameters or left out.
- Accounts.Register, Accounts.Login and Schemas.ParseRegister: pydantic's `EmailStr` also
  normalises the address it accepts: surrounding whitespace is stripped, a
  `Name <address>` form is reduced to the address, and the domain is
  lower-cased. Registration and login (Accounts.Login) then compare the
  normalised forms. The model stores and compares the e-mail as it was
  sent, so two spellings of one address count as different e-mails.
- Database plumbing:
  - sessions, migrations and table creation;
  - the id of a new row is a parameter;
  - `run_seed`'s rollback after a failed flush, which also discards the
    rows flushed earlier in the batch; only the slug-choice rule is modelled;
  - the order of rows that `db.scalars` returns without ORDER BY. The order
    items are therefore a map keyed by product.
- Accounts.Register, Accounts.Login and Accounts.UpsertAdmin: as written,
  backend/app/models.py:78 declares a second class `User`, on `user_table`,
  and that later class is the `User` that main.py and create_admin.py
  import. It has no `email` or `nickname`, so the queries at main.py:62,
  main.py:79 and create_admin.py:16 would raise AttributeError, and the
  relationships naming "User" cannot resolve to the users table. The model
  follows the users table of models.py:5-15, which these handlers evidently
  mean.
- LegacyStore.AddProduct: zelena/zelena/app.py:91 puts single quotes inside
  a single-quoted f-string, which Python parses only from version 3.12; on
  older versions the whole Flask app fails to load. The model treats app.py
  as parseable.
- Seed.RunSeed: an item whose name, slug, supplier or category is too long
  for its column, whose image path is longer than 255 characters, or whose
  price does not fit NUMERIC(10,2) (10^8 or more after rounding) makes the
  insert fail with a DataError that `run_seed`
  does not catch, so the script stops. The model inserts such an item as if
  it fitted and does not model that crash.
- LegacyBasket.RemoveByButton and LegacyBasket.ButtonRemovesItem: when an id
  holds a character that the `onclick` markup disturbs, the result is
  `None`; what the browser then does (a syntax error, or a call with some
  other text) is not modelled.
- File and DOM I/O:
  - reading and writing JSON files and `localStorage`;
  - saving uploaded images and deleting image files; in the Flask app
    whether the image and the product page can be written is a parameter;
  - rendering the basket list; the GET pages of the Flask app.
- `admin_delete_product`, `admin_update_order_status`, `get_product`,
  `list_product_slugs`, `me`, and the order and favourite listings. They are
  lookups or unconstrained updates outside the modelled core.
- URL encoding of parameter values by `URLSearchParams.toString()`.
  Parameters are kept as decoded pairs.
- UI-only components: the rich-text editor, cards, navigation, the login,
  register, cart and order pages.

## Findings

| source | as written | input that shows it | evidently intended | confidence | as-written member | corrected member |
|---|---|---|---|---|---|---|
| frontend/app/admin/page.tsx:90-96 | `startEdit` loads the product's category into the form, but the save payload has no `category` field, so the back end's update (backend/app/main.py:198) sets the category to null | open any product whose category is "Насіння" in the admin form and press save without changes | saving an unchanged product leaves it unchanged, category included | medium, not executed | AdminPage.EditClearsCategory | AdminPage.EditRoundTrip |
| zelena/zelena/static/js/basket.js:51 | the remove button calls `removeFromBasket('${item.id}')`, passing the id as a string, and removal compares ids with `!==` | a basket holding an item added with the numeric id 3; its remove button passes "3", which is `!==` 3 | the button removes the item it belongs to | medium, not executed | LegacyBasket.ButtonMissesNumericId | LegacyBasket.ButtonRemovesItem |
