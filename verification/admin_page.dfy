/** The product form of the admin page (frontend/app/admin/page.tsx): the
    state of the form, how typing a name fills in the slug, loading a product
    for editing, and the request that saving sends to the back end. The page's
    own network calls, alerts and list refresh are not modelled; the request
    is the result. */
module AdminPage {
  import opened Wrappers
  import opened Text
  import opened Catalog
  import opened Schemas
  import opened Slug
  import AdminProducts

  /** The form's fields, all held as text; `id` is 0 for a new product. */
  datatype Form = Form(
    id: int, name: string, slug: string, price: string,
    description: string, supplier: string, category: string)

  /** The empty form the page opens with and returns to after saving. The
      reset of `startCreate` leaves the category key out; the form has no
      category input, so "" stands for it. */
  const Blank: Form := Form(0, "", "", "0", "", "", "")

  /** Typing in the name field: the slug follows the name while the form is
      for a new product and is left alone while editing. */
  function OnNameChange(form: Form, text: string): (r: Form)
    ensures r.name == text
    ensures form.id == 0 ==> r.slug == AdminSlugify(text) && SlugShape(r.slug)
    ensures form.id != 0 ==> r.slug == form.slug
    ensures r.(name := form.name, slug := form.slug) == form
  {
    form.(name := text, slug := if form.id != 0 then form.slug else AdminSlugify(text))
  }

  /** `startEdit`: the form takes the product's fields; an absent supplier
      or category becomes "". `show` is JavaScript's `String` of the price. */
  function StartEdit(p: Product, show: real -> string): (r: Form)
    ensures r.id == p.id && r.name == p.name && r.slug == p.slug && r.price == show(p.price)
    ensures r.description == p.description
    ensures r.supplier == p.supplier.GetOr("") && r.category == p.category.GetOr("")
  {
    Form(p.id, p.name, p.slug, show(p.price), p.description, p.supplier.GetOr(""), p.category.GetOr(""))
  }

  /** What saving sends: a new product, or the product `id` replaced. */
  datatype Request = Create(body: ProductBody) | Update(id: int, body: ProductBody)

  /** The slug as saved: the slug field, or the slug of the name when the
      field is empty, stripped. */
  function SavedSlug(form: Form): string {
    Trim(JavaScript, if form.slug != "" then form.slug else AdminSlugify(form.name))
  }

  /** `save`: the name stripped is required, then the slug; the body carries
      the stripped name and slug, the price as `Number` reads it (`number`,
      `None` for NaN, which is sent as null), the description, and the
      supplier or null when it is empty. No category is sent. A form with an
      id updates that product, one without creates a product. */
  function Save(form: Form, number: string -> Option<real>): (r: Result<Request, string>)
    ensures r.Failure? <==> Trim(JavaScript, form.name) == "" || SavedSlug(form) == ""
    ensures r.Failure? && Trim(JavaScript, form.name) == "" ==> r.error == "Назва обов'язкова"
    ensures r.Failure? && Trim(JavaScript, form.name) != "" ==> r.error == "Slug обов'язковий"
    ensures r.Success? ==> (r.value.Update? <==> form.id != 0)
    ensures r.Success? && r.value.Update? ==> r.value.id == form.id
    ensures r.Success? ==> var b := r.value.body;
      && b.name == Some(Trim(JavaScript, form.name)) && b.slug == Some(SavedSlug(form))
      && b.price == number(form.price) && b.description == Some(form.description)
      && (b.supplier.None? <==> form.supplier == "")
      && (b.supplier.Some? ==> b.supplier.value == form.supplier)
      && b.category.None?
  {
    var name := Trim(JavaScript, form.name);
    var slug := SavedSlug(form);
    var body := ProductBody(Some(name), Some(slug), Some(form.description),
                            if form.supplier != "" then Some(form.supplier) else None,
                            None, number(form.price));
    if name == "" then Failure("Назва обов'язкова")
    else if slug == "" then Failure("Slug обов'язковий")
    else if form.id != 0 then Success(Update(form.id, body))
    else Success(Create(body))
  }

  /** A slug is not blank and has no whitespace at its ends. */
  lemma SlugIsTrimmed(s: string)
    requires SlugShape(s)
    requires forall i :: 0 <= i < |s| ==> s[i] == '-' || ('a' <= s[i] <= 'z') || ('0' <= s[i] <= '9')
    ensures s != "" && Trim(JavaScript, s) == s
  {
    assert !IsSpace(JavaScript, s[0]) && !IsSpace(JavaScript, s[|s| - 1]);
    TrimOfTrimmed(JavaScript, s);
  }

  /** A slug of the name is never blank, so a new product whose name is not
      blank and whose slug field was left empty always saves, under the slug
      of its name. */
  lemma EmptySlugFieldSaves(form: Form, number: string -> Option<real>)
    requires form.slug == "" && Trim(JavaScript, form.name) != ""
    ensures Save(form, number).Success?
    ensures Save(form, number).value.body.slug == Some(AdminSlugify(form.name))
  {
    SlugIsTrimmed(AdminSlugify(form.name));
  }

  /** Typing a name that is not blank into a new form always leaves a form
      that saves as a new product with the slug of that name. */
  lemma TypedNameSaves(form: Form, text: string, number: string -> Option<real>)
    requires form.id == 0 && Trim(JavaScript, text) != ""
    ensures var f := OnNameChange(form, text);
      && Save(f, number).Success? && Save(f, number).value.Create?
      && Save(f, number).value.body.slug == Some(AdminSlugify(text))
  {
    SlugIsTrimmed(AdminSlugify(text));
  }

  /** The body the page would send if it carried the form's category too:
      the category, or null when it is empty. */
  function SaveKeepingCategory(form: Form, number: string -> Option<real>): (r: Result<Request, string>)
    ensures r.Failure? <==> Save(form, number).Failure?
    ensures r.Success? ==> r.value == Save(form, number).value.(
      body := Save(form, number).value.body.(category := if form.category != "" then Some(form.category) else None))
  {
    match Save(form, number)
    case Failure(e) => Failure(e)
    case Success(req) =>
      Success(req.(body := req.body.(category := if form.category != "" then Some(form.category) else None)))
  }

  /** A product the edit form can show without loss: name and slug already
      stripped and not empty, no empty supplier or category (they would read
      back as absent), and a price that `number` reads back from `show`. */
  predicate Presentable(p: Product, show: real -> string, number: string -> Option<real>) {
    && p.name != "" && Trim(JavaScript, p.name) == p.name
    && p.slug != "" && Trim(JavaScript, p.slug) == p.slug
    && p.supplier != Some("") && p.category != Some("")
    && number(show(p.price)) == Some(p.price)
  }

  /** The product an edit request leaves in row `k`, if it succeeds. */
  function EditOutcome(db: seq<Product>, k: nat, req: Result<Request, string>): (r: Option<Product>)
    requires k < |db|
    ensures r.Some? ==> r.value.id == db[k].id
  {
    if req.Failure? || !req.value.Update? || req.value.id != db[k].id then None
    else match ParseProductCreate(req.value.body)
      case Failure(_) => None
      case Success(inp) =>
        match AdminProducts.AdminUpdate(db, db[k].id, inp)
        case Failure(_) => None
        case Success(db2) => Some(db2[k])
  }

  /** Opening product `k` (a stored row, whose fields fit their columns) in
      the form and saving without changes, when the
      page carries the category: the update is accepted and the row comes
      back exactly as it was. */
  lemma EditRoundTrip(db: seq<Product>, k: nat, show: real -> string, number: string -> Option<real>)
    requires AdminProducts.Valid(db) && k < |db| && db[k].id != 0
    requires AdminProducts.Fits(AdminProducts.Fields(db[k]))
    requires Presentable(db[k], show, number)
    ensures EditOutcome(db, k, SaveKeepingCategory(StartEdit(db[k], show), number)) == Some(db[k])
  {
    var p := db[k];
    var f := StartEdit(p, show);
    assert SavedSlug(f) == p.slug;
    var req := SaveKeepingCategory(f, number);
    var inp := ParseProductCreate(req.value.body).value;
    assert inp == ProductCreate(p.name, p.slug, p.description, p.supplier, p.category, p.price);
    AdminProducts.UpdateKeepsOwnSlug(db, k, inp);
    assert AdminProducts.Updated(p, inp) == p;
  }

  /** The page as written: opening product `k` (a stored row, whose fields
      fit their columns) and saving without changes is
      accepted, but the row comes back without its category. */
  lemma EditClearsCategory(db: seq<Product>, k: nat, show: real -> string, number: string -> Option<real>)
    requires AdminProducts.Valid(db) && k < |db| && db[k].id != 0
    requires AdminProducts.Fits(AdminProducts.Fields(db[k]))
    requires Presentable(db[k], show, number)
    ensures EditOutcome(db, k, Save(StartEdit(db[k], show), number)) == Some(db[k].(category := None))
  {
    var p := db[k];
    var f := StartEdit(p, show);
    assert SavedSlug(f) == p.slug;
    var req := Save(f, number);
    var inp := ParseProductCreate(req.value.body).value;
    assert inp == ProductCreate(p.name, p.slug, p.description, p.supplier, None, p.price);
    AdminProducts.UpdateKeepsOwnSlug(db, k, inp);
  }
}
