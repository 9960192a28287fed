/** The admin endpoints of the back end that write products
    (backend/app/main.py): create and update with their slug-uniqueness
    checks, and the image upload with its extension whitelist. The database
    keeps slugs unique (backend/app/models.py:21); the handlers check it
    before writing, so every write keeps it. The request body has no length
    limits, but PostgreSQL refuses a value wider than its column
    (backend/app/models.py:20-25) when the handler commits, and the request
    then fails with 500. */
module AdminProducts {
  import opened Wrappers
  import opened Text
  import opened Catalog
  import opened Schemas

  /** No two products share a slug. */
  predicate UniqueSlugs(db: seq<Product>) {
    forall i, j :: 0 <= i < j < |db| ==> db[i].slug != db[j].slug
  }

  /** The invariant of the products table: ids and slugs are unique. */
  predicate Valid(db: seq<Product>) {
    UniqueIds(db) && UniqueSlugs(db)
  }

  predicate SlugTaken(db: seq<Product>, slug: string) {
    exists i :: 0 <= i < |db| && db[i].slug == slug
  }

  predicate HasId(db: seq<Product>, id: int) {
    exists i :: 0 <= i < |db| && db[i].id == id
  }

  /** The body's fields fit their columns: name `String(200)`, slug
      `String(220)`, supplier `String(120)`, category `String(80)`, and a
      price that `Numeric(10,2)` holds once rounded to cents (below 10^8 in
      size). */
  predicate Fits(inp: ProductCreate) {
    && |inp.name| <= 200 && |inp.slug| <= 220
    && (inp.supplier.Some? ==> |inp.supplier.value| <= 120)
    && (inp.category.Some? ==> |inp.category.value| <= 80)
    && -99999999.995 < inp.price < 99999999.995
  }

  /** The fields of a stored row, as a body would carry them. */
  function Fields(p: Product): ProductCreate {
    ProductCreate(p.name, p.slug, p.description, p.supplier, p.category, p.price)
  }

  /** A new row with the body's fields and no image. */
  function NewProduct(id: int, inp: ProductCreate): Product {
    Product(id, inp.name, inp.slug, inp.description, inp.supplier, inp.category, inp.price, None)
  }

  /** `admin_create_product`: 400 when the slug is taken; 500 when a field
      does not fit its column; otherwise the row is appended with the id the
      database hands out (`newId`, not yet in use), and nothing else
      changes. */
  function AdminCreate(db: seq<Product>, inp: ProductCreate, newId: int): (r: Result<seq<Product>, ApiError>)
    requires !HasId(db, newId)
    ensures r.Failure? <==> SlugTaken(db, inp.slug) || !Fits(inp)
    ensures r.Failure? && SlugTaken(db, inp.slug) ==> r.error.status == BadRequest
    ensures r.Failure? && !SlugTaken(db, inp.slug) ==> r.error == InternalServerError
    ensures r.Success? ==> |r.value| == |db| + 1 && r.value[..|db|] == db
    ensures r.Success? ==> r.value[|db|] == NewProduct(newId, inp)
    ensures r.Success? && Valid(db) ==> Valid(r.value)
  {
    if exists i :: 0 <= i < |db| && db[i].slug == inp.slug then
      Failure(ApiError(BadRequest, "Slug вже існує"))
    else if !Fits(inp) then
      Failure(InternalServerError)
    else
      var r := db + [NewProduct(newId, inp)];
      assert r[..|db|] == db;
      Success(r)
  }

  /** A row other than the one with id `id` has the slug. */
  predicate SlugHeldByOther(db: seq<Product>, slug: string, id: int) {
    exists i :: 0 <= i < |db| && db[i].slug == slug && db[i].id != id
  }

  /** `p` with the body's fields; its id and image stay. */
  function Updated(p: Product, inp: ProductCreate): Product {
    p.(name := inp.name, slug := inp.slug, description := inp.description,
       supplier := inp.supplier, category := inp.category, price := inp.price)
  }

  /** `admin_update_product`: 404 when no row has the id; 400 when another
      row holds the slug; 500 when a field does not fit its column; otherwise
      that row takes the body's fields, keeping its id and image, and every
      other row is unchanged. */
  function AdminUpdate(db: seq<Product>, id: int, inp: ProductCreate): (r: Result<seq<Product>, ApiError>)
    ensures r.Failure? <==> !HasId(db, id) || SlugHeldByOther(db, inp.slug, id) || !Fits(inp)
    ensures r.Failure? && !HasId(db, id) ==> r.error.status == NotFound
    ensures r.Failure? && HasId(db, id) && SlugHeldByOther(db, inp.slug, id) ==> r.error.status == BadRequest
    ensures r.Failure? && HasId(db, id) && !SlugHeldByOther(db, inp.slug, id) ==> r.error == InternalServerError
    ensures r.Success? ==> |r.value| == |db|
    ensures r.Success? ==> forall i :: 0 <= i < |db| ==>
      r.value[i] == (if db[i].id == id then Updated(db[i], inp) else db[i])
    ensures r.Success? && Valid(db) ==> Valid(r.value)
  {
    if !(exists i :: 0 <= i < |db| && db[i].id == id) then
      Failure(ApiError(NotFound, "Не знайдено"))
    else if SlugHeldByOther(db, inp.slug, id) then
      Failure(ApiError(BadRequest, "Slug вже існує"))
    else if !Fits(inp) then
      Failure(InternalServerError)
    else
      Success(seq(|db|, i requires 0 <= i < |db| => if db[i].id == id then Updated(db[i], inp) else db[i]))
  }

  /** Saving a product under the slug it already has is accepted, when the
      other fields fit their columns. */
  lemma UpdateKeepsOwnSlug(db: seq<Product>, k: nat, inp: ProductCreate)
    requires Valid(db) && k < |db| && inp.slug == db[k].slug && Fits(inp)
    ensures AdminUpdate(db, db[k].id, inp).Success?
  {
  }

  // ---------------------------------------------------------------- images

  /** Index of the last occurrence of `c`, or -1. */
  function LastIndexOf(s: string, c: char): (r: int)
    ensures -1 <= r < |s|
    ensures r >= 0 ==> s[r] == c
    ensures forall k :: r < k < |s| ==> s[k] != c
  {
    if s == [] then -1
    else if s[|s| - 1] == c then |s| - 1
    else LastIndexOf(s[..|s| - 1], c)
  }

  /** An extension starts at index `d` of `path`: `d` holds a dot, no dot
      or `/` follows it, and its path component has a character other than
      a dot before it. */
  predicate ExtensionAt(path: string, d: int) {
    && 0 <= d < |path| && path[d] == '.'
    && (forall k :: d < k < |path| ==> path[k] != '.' && path[k] != '/')
    && exists k :: 0 <= k < d && path[k] != '.' && path[k] != '/' && forall j :: k < j < d ==> path[j] != '/'
  }

  /** Python's `os.path.splitext(path)[1]`: from the last dot of the last path
      component to the end, unless that dot only has dots before it in the
      component (".png" has no extension); otherwise "". So "photo.png" has
      ".png", and "a.b/c" and ".png" have none. */
  function SplitExt(path: string): (ext: string)
    ensures ext == [] || (ext[0] == '.' && |ext| <= |path| && path[|path| - |ext|..] == ext)
    ensures forall k :: 0 < k < |ext| ==> ext[k] != '.' && ext[k] != '/'
    ensures ext != [] ==> ExtensionAt(path, |path| - |ext|)
    ensures forall d :: ExtensionAt(path, d) ==> ext == path[d..]
  {
    var sep := LastIndexOf(path, '/');
    var dot := LastIndexOf(path, '.');
    if dot > sep && exists k :: sep + 1 <= k < dot && path[k] != '.' then path[dot..] else ""
  }

  /** A name with a stem has its last suffix as extension; a dot file and a
      dot in a directory name give none. */
  lemma SplitExtExamples()
    ensures SplitExt("photo.png") == ".png"
    ensures SplitExt("archive.tar.gz") == ".gz"
    ensures SplitExt(".png") == ""
    ensures SplitExt("a.b/c") == ""
  {
    assert ExtensionAt("photo.png", 5) by { assert "photo.png"[0] == 'p'; }
    assert ExtensionAt("archive.tar.gz", 11) by { assert "archive.tar.gz"[10] == 'r'; }
  }

  /** The extensions the upload accepts, compared after lower-casing. */
  predicate AllowedExtension(ext: string) {
    ext == ".jpg" || ext == ".jpeg" || ext == ".png" || ext == ".webp"
  }

  /** `admin_upload_image`: 404 when no row has the id; 400 unless the file
      name's extension, lower-cased, is one of the four allowed; otherwise the
      row's image becomes "p<id><ext>" and nothing else changes. (Writing the
      file itself is not modelled.) */
  function AdminUploadImage(db: seq<Product>, id: int, filename: Option<string>): (r: Result<seq<Product>, ApiError>)
    ensures r.Failure? <==> !HasId(db, id) || !AllowedExtension(Lower(SplitExt(filename.GetOr(""))))
    ensures r.Failure? && !HasId(db, id) ==> r.error.status == NotFound
    ensures r.Failure? && HasId(db, id) ==> r.error.status == BadRequest
    ensures r.Success? ==> |r.value| == |db| && forall i :: 0 <= i < |db| ==>
      r.value[i] == (if db[i].id == id then db[i].(imagePath := Some(ImageName(id, filename.GetOr("")))) else db[i])
    ensures r.Success? && Valid(db) ==> Valid(r.value)
  {
    if !(exists i :: 0 <= i < |db| && db[i].id == id) then
      Failure(ApiError(NotFound, "Не знайдено"))
    else
      var ext := Lower(SplitExt(filename.GetOr("")));
      if !AllowedExtension(ext) then Failure(ApiError(BadRequest, "Підтримуються лише jpg/png/webp"))
      else Success(WithImage(db, id, "p" + IntToString(id) + ext))
  }

  /** The rows with the image of row `id` set to `name`. */
  function WithImage(db: seq<Product>, id: int, name: string): (r: seq<Product>)
    ensures |r| == |db|
    ensures forall i :: 0 <= i < |db| ==>
      r[i] == (if db[i].id == id then db[i].(imagePath := Some(name)) else db[i])
    ensures Valid(db) ==> Valid(r)
  {
    seq(|db|, i requires 0 <= i < |db| => if db[i].id == id then db[i].(imagePath := Some(name)) else db[i])
  }

  /** The stored image name: "p", the id, the lower-cased extension. */
  function ImageName(id: int, filename: string): string {
    "p" + IntToString(id) + Lower(SplitExt(filename))
  }

  /** An accepted upload is stored under a name that ends in one of the four
      extensions, lower-case, and that extension ends the uploaded name up to
      case. */
  lemma AcceptedImageName(id: int, filename: string)
    requires AllowedExtension(Lower(SplitExt(filename)))
    ensures var ext := Lower(SplitExt(filename));
      var name := ImageName(id, filename);
      && |ext| <= |name| && name[|name| - |ext|..] == ext
      && |ext| <= |filename| && Lower(filename[|filename| - |ext|..]) == ext
  {
    var ext := Lower(SplitExt(filename));
    var name := ImageName(id, filename);
    assert name == ("p" + IntToString(id)) + ext;
    assert name[|name| - |ext|..] == ext;
    var e := SplitExt(filename);
    assert filename[|filename| - |ext|..] == e;
  }
}
