/** The legacy Flask shop (zelena/zelena/app.py): users in a JSON object keyed
    by user name, products in a JSON list, and a session holding the user
    name and admin flag. Loading and saving the JSON files is not modelled;
    whether the file system accepts the uploaded image and the generated
    HTML page is a parameter. Each handler maps the loaded data and session
    to the data saved and the answer. */
module LegacyStore {
  import opened Wrappers
  import opened Text

  /** A stored user; `isAdmin` is `None` when the record has no such key. */
  datatype Account = Account(password: string, isAdmin: Option<bool>)

  type Users = map<string, Account>

  /** The session: the logged-in user name and the admin flag, if set. */
  datatype Session = Session(username: Option<string>, isAdmin: bool)

  const EmptySession: Session := Session(None, false)

  /** What a handler answers: a text body, a redirect, a rendered product
      page, a 404 text, or an error status raised out of the handler (400 for
      a missing form field, 500 for a failed write). */
  datatype Answer =
    | Text(body: string) | Redirect(to: string) | ProductPage(product: Item) | NotFoundText(body: string)
    | ErrorStatus(code: nat)

  /** A stored product; price and category are kept as the form sent them. */
  datatype Item = Item(id: int, name: string, desc: string, price: string, category: string, image: string)

  // ---------------------------------------------------------------- accounts

  /** `register` (POST): a missing `username` or `password` form field is a
      400 and nothing is saved; a taken name is refused and nothing is saved;
      otherwise the user is stored as a non-admin and sent to the login page. */
  function Register(users: Users, username: Option<string>, password: Option<string>): (r: (Users, Answer))
    ensures username.None? || password.None? ==> r == (users, ErrorStatus(400))
    ensures username.Some? && password.Some? && username.value in users ==>
      r == (users, Text("Користувач вже існує"))
    ensures username.Some? && password.Some? && username.value !in users ==>
      && r.1 == Redirect("/login")
      && r.0 == users[username.value := Account(password.value, Some(false))]
    ensures forall u :: u in users ==> u in r.0 && r.0[u] == users[u]
  {
    if username.None? || password.None? then (users, ErrorStatus(400))
    else if username.value in users then (users, Text("Користувач вже існує"))
    else (users[username.value := Account(password.value, Some(false))], Redirect("/login"))
  }

  /** `login` (POST): a missing `username` or `password` form field is a 400
      and the session stays; with a stored user of that name whose password
      is the one given, the session takes the name and the stored admin flag
      (false when the record has none); otherwise the session stays and the
      answer says the login failed. */
  function Login(users: Users, session: Session, username: Option<string>, password: Option<string>)
    : (r: (Session, Answer))
    ensures r.1 == Redirect("/") <==>
      username.Some? && password.Some? && username.value in users && users[username.value].password == password.value
    ensures r.1 == Redirect("/") ==>
      r.0 == Session(username, users[username.value].isAdmin == Some(true))
    ensures username.None? || password.None? ==> r == (session, ErrorStatus(400))
    ensures username.Some? && password.Some? && r.1 != Redirect("/") ==>
      r == (session, Text("Невірний логін або пароль"))
  {
    if username.None? || password.None? then (session, ErrorStatus(400))
    else if username.value in users && users[username.value].password == password.value then
      (Session(username, users[username.value].isAdmin.GetOr(false)), Redirect("/"))
    else (session, Text("Невірний логін або пароль"))
  }

  /** `logout`: the session is cleared. */
  function Logout(session: Session): (r: (Session, Answer))
    ensures r.0.username.None? && !r.0.isAdmin
    ensures r.1 == Redirect("/")
  {
    (EmptySession, Redirect("/"))
  }

  /** A freshly registered user logs in with the same password, as a
      non-admin; a second registration of the name is refused. */
  lemma RegisterThenLogin(users: Users, session: Session, username: string, password: string)
    requires username !in users
    ensures var u := Register(users, Some(username), Some(password)).0;
      && Login(u, session, Some(username), Some(password)) == (Session(Some(username), false), Redirect("/"))
      && Register(u, Some(username), Some(password)).1 == Text("Користувач вже існує")
  {
  }

  // ---------------------------------------------------------------- products

  /** The stored image path: "img/", the name with each space made "_",
      ".jpg". */
  function ImageFile(name: string): (r: string)
    ensures |r| == |name| + 8
    ensures r[..4] == "img/" && r[|r| - 4..] == ".jpg"
    ensures forall i :: 0 <= i < |name| ==> r[4 + i] == (if name[i] == ' ' then '_' else name[i])
  {
    var r := "img/" + ReplaceChar(name, ' ', '_') + ".jpg";
    assert r[..4] == "img/";
    assert r[|r| - 4..] == ".jpg";
    r
  }

  /** The posted form: the four text fields, each `None` when missing, and
      whether an `image` file came with it. */
  datatype AddForm = AddForm(
    name: Option<string>, desc: Option<string>, price: Option<string>, category: Option<string>,
    hasImage: bool)

  /** Every field `add_product` reads is there. */
  predicate Complete(form: AddForm) {
    form.name.Some? && form.desc.Some? && form.price.Some? && form.category.Some? && form.hasImage
  }

  /** The product `add_product` appends to a list of `count` products. */
  function NewItem(count: nat, form: AddForm): Item
    requires Complete(form)
  {
    Item(count + 1, form.name.value, form.desc.value, form.price.value, form.category.value,
         ImageFile(form.name.value))
  }

  /** `add_product` (POST). Without an admin session: a redirect to the login
      page and no change. A missing form field or image file: 400 and no
      change. The image is saved before the product is appended, so when the
      file system refuses it (`imageSaved` false; a name with "/" in it, say,
      points into a folder that may not exist) the answer is 500 and the list
      is unchanged. Otherwise the product is appended with id one more than
      the number of products and the list is saved; the answer goes home, or
      is 500 when the product's HTML page then cannot be written
      (`pageWritten` false), the list being saved already. */
  function AddProduct(session: Session, products: seq<Item>, form: AddForm,
                      imageSaved: bool, pageWritten: bool): (r: (seq<Item>, Answer))
    ensures !session.isAdmin ==> r == (products, Redirect("/login"))
    ensures session.isAdmin && !Complete(form) ==> r == (products, ErrorStatus(400))
    ensures session.isAdmin && Complete(form) && !imageSaved ==> r == (products, ErrorStatus(500))
    ensures r.0 != products <==> session.isAdmin && Complete(form) && imageSaved
    ensures session.isAdmin && Complete(form) && imageSaved ==>
      && |r.0| == |products| + 1 && r.0[..|products|] == products
      && (r.1 == Redirect("/") <==> pageWritten)
      && (r.1 != Redirect("/") ==> r.1 == ErrorStatus(500))
    ensures session.isAdmin && Complete(form) && imageSaved ==> var p := r.0[|products|];
      && p.id == |products| + 1 && p.name == form.name.value && p.desc == form.desc.value
      && p.price == form.price.value && p.category == form.category.value
      && p.image == ImageFile(form.name.value)
  {
    if !session.isAdmin then (products, Redirect("/login"))
    else if !Complete(form) then (products, ErrorStatus(400))
    else if !imageSaved then (products, ErrorStatus(500))
    else
      var r := products + [NewItem(|products|, form)];
      assert |r| != |products|;
      (r, if pageWritten then Redirect("/") else ErrorStatus(500))
  }

  /** Ids run 1, 2, … in list order, as a file only `add_product` wrote has
      them. */
  predicate Numbered(products: seq<Item>) {
    forall i :: 0 <= i < |products| ==> products[i].id == i + 1
  }

  /** `add_product` keeps the numbering, whatever its outcome, and the id of
      an appended product is one no product had. */
  lemma AddProductNumbers(session: Session, products: seq<Item>, form: AddForm,
                          imageSaved: bool, pageWritten: bool)
    requires Numbered(products)
    ensures var r := AddProduct(session, products, form, imageSaved, pageWritten).0;
      && Numbered(r)
      && (|r| > |products| ==> forall i :: 0 <= i < |products| ==> products[i].id != r[|products|].id)
  {
  }

  /** `product_page`: the first product with the id, or 404. */
  function ProductPageFor(products: seq<Item>, id: int): (r: Answer)
    ensures r.NotFoundText? <==> forall i :: 0 <= i < |products| ==> products[i].id != id
    ensures r.NotFoundText? ==> r.body == "Товар не знайдено"
    ensures r.ProductPage? ==> exists i :: (0 <= i < |products| && products[i] == r.product
      && products[i].id == id && forall j :: 0 <= j < i ==> products[j].id != id)
    ensures r.NotFoundText? || r.ProductPage?
  {
    if products == [] then NotFoundText("Товар не знайдено")
    else if products[0].id == id then ProductPage(products[0])
    else
      var r := ProductPageFor(products[1..], id);
      assert r.ProductPage? ==> exists i :: (1 <= i < |products| && products[i] == r.product
        && products[i].id == id && forall j :: 0 <= j < i ==> products[j].id != id);
      r
  }

  /** On a numbered list, product `id` is the one at position id - 1. */
  lemma NumberedLookup(products: seq<Item>, id: int)
    requires Numbered(products) && 1 <= id <= |products|
    ensures ProductPageFor(products, id) == ProductPage(products[id - 1])
  {
  }

  /** A product an admin adds to a numbered list has its page under the new
      id; when nothing is added, no page has that id. */
  lemma AddedProductFound(session: Session, products: seq<Item>, form: AddForm,
                          imageSaved: bool, pageWritten: bool)
    requires Numbered(products)
    ensures var r := AddProduct(session, products, form, imageSaved, pageWritten).0;
      && (session.isAdmin && Complete(form) && imageSaved ==>
            ProductPageFor(r, |products| + 1) == ProductPage(NewItem(|products|, form)))
      && (!(session.isAdmin && Complete(form) && imageSaved) ==>
            ProductPageFor(r, |products| + 1) == NotFoundText("Товар не знайдено"))
  {
    AddProductNumbers(session, products, form, imageSaved, pageWritten);
    var r := AddProduct(session, products, form, imageSaved, pageWritten).0;
    if |r| > |products| {
      NumberedLookup(r, |products| + 1);
    }
  }
}
