/** The shopping cart, favourites and checkout of the back end
    (backend/app/main.py). A cart is a map from (user id, product id) to a
    quantity: the unique constraint on that pair (backend/app/models.py:39)
    makes one line per pair, which the map gives by construction.
    Favourites are a set of pairs for the same reason
    (backend/app/models.py:30). Quantities live in a PostgreSQL `integer`
    column (backend/app/models.py:43), so a quantity above 2147483647 makes
    the commit fail and the request answer 500. */
module Cart {
  import opened Wrappers
  import opened Catalog
  import opened Schemas
  import AdminProducts

  type Cart = map<(int, int), int>
  type Favorites = set<(int, int)>

  /** The largest value of a PostgreSQL `integer`. */
  const MaxInt4: int := 2147483647

  /** Every line holds at least one unit. */
  predicate PositiveQty(cart: Cart) {
    forall k :: k in cart ==> cart[k] >= 1
  }

  /** The products in `user`'s cart. */
  function LinesOf(cart: Cart, user: int): (r: set<int>)
    ensures forall p :: p in r <==> (user, p) in cart
  {
    set k | k in cart && k.0 == user :: k.1
  }

  /** `db.get(Product, id)`: the row with this id, if any. */
  function ProductById(db: seq<Product>, id: int): (r: Option<Product>)
    ensures r.None? <==> !AdminProducts.HasId(db, id)
    ensures r.Some? ==> r.value in db && r.value.id == id
  {
    if db == [] then None
    else if db[0].id == id then Some(db[0])
    else ProductById(db[1..], id)
  }

  // ---------------------------------------------------------------- cart

  /** The cart after a request: the new one when it succeeds; a failed
      request commits nothing. */
  function Apply(cart: Cart, r: Result<Cart, ApiError>): Cart {
    if r.Success? then r.value else cart
  }

  /** The quantity of the line after `cart_add`: the old quantity, if any,
      plus the added one, where a quantity below 1 counts as 1. */
  function Added(cart: Cart, user: int, product: int, qty: int): (n: int)
    ensures n >= 1 + (if (user, product) in cart then cart[(user, product)] else 0)
  {
    (if (user, product) in cart then cart[(user, product)] else 0) + (if qty < 1 then 1 else qty)
  }

  /** `cart_add`: a quantity below 1 counts as 1; 404 for an unknown product;
      500 when the line's new quantity is beyond the column's range; otherwise
      an existing line grows by the quantity, or a line is created. Every
      other line is untouched. */
  function CartAdd(db: seq<Product>, cart: Cart, user: int, product: int, qty: int): (r: Result<Cart, ApiError>)
    ensures r.Failure? <==> !AdminProducts.HasId(db, product) || Added(cart, user, product, qty) > MaxInt4
    ensures r.Failure? && !AdminProducts.HasId(db, product) ==> r.error.status == NotFound
    ensures r.Failure? && AdminProducts.HasId(db, product) ==> r.error == InternalServerError
    ensures r.Success? ==> var q := if qty < 1 then 1 else qty;
      && (user, product) in r.value
      && r.value[(user, product)] == (if (user, product) in cart then cart[(user, product)] + q else q)
    ensures r.Success? ==> r.value.Keys == cart.Keys + {(user, product)}
    ensures r.Success? ==> forall k :: k in cart && k != (user, product) ==> r.value[k] == cart[k]
    ensures r.Success? && PositiveQty(cart) ==> PositiveQty(r.value)
  {
    var q := if qty < 1 then 1 else qty;
    if ProductById(db, product).None? then Failure(ApiError(NotFound, "Товар не знайдено"))
    else if Added(cart, user, product, qty) > MaxInt4 then Failure(InternalServerError)
    else if (user, product) in cart then Success(cart[(user, product) := cart[(user, product)] + q])
    else Success(cart[(user, product) := q])
  }

  /** `cart_set_qty`: 404 when the line is missing; a quantity of 0 or less
      removes the line; 500 for a quantity beyond the column's range; any
      other quantity is set exactly. Every other line is untouched. */
  function CartSetQty(cart: Cart, user: int, product: int, qty: int): (r: Result<Cart, ApiError>)
    ensures r.Failure? <==> (user, product) !in cart || qty > MaxInt4
    ensures r.Failure? && (user, product) !in cart ==> r.error.status == NotFound
    ensures r.Failure? && (user, product) in cart ==> r.error == InternalServerError
    ensures r.Success? && qty <= 0 ==> r.value.Keys == cart.Keys - {(user, product)}
    ensures r.Success? && qty > 0 ==> r.value.Keys == cart.Keys && r.value[(user, product)] == qty
    ensures r.Success? ==> forall k :: k in cart && k != (user, product) ==> r.value[k] == cart[k]
    ensures r.Success? && PositiveQty(cart) ==> PositiveQty(r.value)
  {
    if (user, product) !in cart then Failure(ApiError(NotFound, "Немає в кошику"))
    else if qty <= 0 then Success(cart - {(user, product)})
    else if qty > MaxInt4 then Failure(InternalServerError)
    else Success(cart[(user, product) := qty])
  }

  /** `cart_remove`: the line goes if it is there; nothing else changes. */
  function CartRemove(cart: Cart, user: int, product: int): (r: Cart)
    ensures (user, product) !in r
    ensures r.Keys == cart.Keys - {(user, product)}
    ensures forall k :: k in r ==> r[k] == cart[k]
  {
    cart - {(user, product)}
  }

  /** Removing a line that is not there changes nothing. */
  lemma RemoveAbsent(cart: Cart, user: int, product: int)
    requires (user, product) !in cart
    ensures CartRemove(cart, user, product) == cart
  {
    assert CartRemove(cart, user, product).Keys == cart.Keys;
  }

  /** Two adds of the same product make one line holding both quantities;
      when the sum is beyond the column's range, both ways fail alike. */
  lemma AddTwice(db: seq<Product>, cart: Cart, user: int, product: int, a: int, b: int)
    requires a >= 1 && b >= 1
    requires CartAdd(db, cart, user, product, a).Success?
    ensures CartAdd(db, CartAdd(db, cart, user, product, a).value, user, product, b)
      == CartAdd(db, cart, user, product, a + b)
  {
    var once := CartAdd(db, cart, user, product, a).value;
    assert Added(once, user, product, b) == Added(cart, user, product, a + b);
    if Added(cart, user, product, a + b) <= MaxInt4 {
      var twice := CartAdd(db, once, user, product, b).value;
      var both := CartAdd(db, cart, user, product, a + b).value;
      assert twice.Keys == both.Keys;
      assert forall k :: k in twice ==> twice[k] == both[k];
      assert twice == both;
    }
  }

  /** Setting a quantity and removing the line is the same as removing it. */
  lemma SetThenRemove(cart: Cart, user: int, product: int, qty: int)
    ensures CartRemove(Apply(cart, CartSetQty(cart, user, product, qty)), user, product) == CartRemove(cart, user, product)
  {
  }

  /** Setting a line to the quantity it already holds changes nothing. */
  lemma SetSameQty(cart: Cart, user: int, product: int)
    requires PositiveQty(cart) && (user, product) in cart && cart[(user, product)] <= MaxInt4
    ensures CartSetQty(cart, user, product, cart[(user, product)]) == Success(cart)
  {
    var r := CartSetQty(cart, user, product, cart[(user, product)]).value;
    assert r.Keys == cart.Keys;
    assert forall k :: k in r ==> r[k] == cart[k];
    assert r == cart;
  }

  // ---------------------------------------------------------------- favourites

  /** `add_favorite`: 404 for an unknown product; otherwise the pair is in
      the set afterwards, whether or not it was before, and nothing else is. */
  function AddFavorite(db: seq<Product>, favs: Favorites, user: int, product: int): (r: Result<Favorites, ApiError>)
    ensures r.Failure? <==> !AdminProducts.HasId(db, product)
    ensures r.Failure? ==> r.error.status == NotFound
    ensures r.Success? ==> (user, product) in r.value && favs <= r.value && |r.value - favs| <= 1
    ensures r.Success? && (user, product) in favs ==> r.value == favs
  {
    if ProductById(db, product).None? then Failure(ApiError(NotFound, "Товар не знайдено"))
    else if (user, product) in favs then Success(favs)
    else Success(favs + {(user, product)})
  }

  /** `remove_favorite`: the pair is gone afterwards; nothing else changes. */
  function RemoveFavorite(favs: Favorites, user: int, product: int): (r: Favorites)
    ensures (user, product) !in r
    ensures forall k :: k in favs && k != (user, product) ==> k in r
    ensures r <= favs
  {
    favs - {(user, product)}
  }

  /** Adding a favourite twice is the same as adding it once. */
  lemma AddFavoriteIdempotent(db: seq<Product>, favs: Favorites, user: int, product: int)
    requires AddFavorite(db, favs, user, product).Success?
    ensures AddFavorite(db, AddFavorite(db, favs, user, product).value, user, product)
      == AddFavorite(db, favs, user, product)
  {
  }

  /** Removing a favourite just added restores the set it was added to, when
      it was not there before. */
  lemma AddThenRemoveFavorite(db: seq<Product>, favs: Favorites, user: int, product: int)
    requires (user, product) !in favs
    requires AddFavorite(db, favs, user, product).Success?
    ensures RemoveFavorite(AddFavorite(db, favs, user, product).value, user, product) == favs
  {
  }

  // ---------------------------------------------------------------- checkout

  /** A line of an order: the product's name and price at checkout time and
      the quantity from the cart. */
  datatype OrderItem = OrderItem(productId: int, name: string, price: real, qty: int)

  /** An order, with its items keyed by product: a cart has one line per
      product, and the lines come back from the database in no fixed order. */
  datatype Order = Order(
    id: int, user: int, status: string, paymentMethod: string, deliveryMethod: string,
    fullName: string, phone: string, city: string, address: string, comment: string,
    items: map<int, OrderItem>)

  /** "paid" for card payment, "created" otherwise. */
  function StatusFor(paymentMethod: string): (r: string)
    ensures r == "paid" <==> paymentMethod == "card"
    ensures r == "paid" || r == "created"
  {
    if paymentMethod == "card" then "paid" else "created"
  }

  /** The checkout details fit the columns of the orders table
      (backend/app/models.py:52-57). The request body bounds all but the
      payment and delivery methods. */
  predicate OrderFits(inp: CheckoutIn) {
    && |inp.paymentMethod| <= 30 && |inp.deliveryMethod| <= 30
    && |inp.fullName| <= 120 && |inp.phone| <= 40 && |inp.city| <= 120 && |inp.address| <= 200
  }

  /** A checkout that passed validation fits the order's columns exactly
      when its payment and delivery methods have at most 30 characters, which
      validation does not check; the defaults always fit. */
  lemma ParsedCheckoutFits(b: CheckoutBody)
    requires ParseCheckout(b).Success?
    ensures var c := ParseCheckout(b).value;
      && (OrderFits(c) <==> |c.paymentMethod| <= 30 && |c.deliveryMethod| <= 30)
      && (b.paymentMethod.None? && b.deliveryMethod.None? ==> OrderFits(c))
  {
  }

  /** `create_order`: 400 when the user's cart is empty; 500 when a detail
      does not fit its column, which the flush of the order reports before
      anything is committed. Otherwise a new
      order with the checkout details, status "paid" exactly for card payment,
      and one item per cart line whose product still exists, copying its name
      and price; the user's lines are removed and other users' lines stay.
      `newId` is the order id the database hands out. */
  function CreateOrder(db: seq<Product>, cart: Cart, user: int, inp: CheckoutIn, newId: int)
    : (r: Result<(Order, Cart), ApiError>)
    ensures r.Failure? <==> LinesOf(cart, user) == {} || !OrderFits(inp)
    ensures r.Failure? && LinesOf(cart, user) == {} ==> r.error.status == BadRequest
    ensures r.Failure? && LinesOf(cart, user) != {} ==> r.error == InternalServerError
    ensures r.Success? ==> var o := r.value.0;
      && o.id == newId && o.user == user
      && (o.status == "paid" <==> inp.paymentMethod == "card")
      && (o.status == "paid" || o.status == "created")
      && o.paymentMethod == inp.paymentMethod && o.deliveryMethod == inp.deliveryMethod
      && o.fullName == inp.fullName && o.phone == inp.phone && o.city == inp.city
      && o.address == inp.address && o.comment == inp.comment
    ensures r.Success? ==> forall p :: p in r.value.0.items <==> (user, p) in cart && AdminProducts.HasId(db, p)
    ensures r.Success? ==> forall p :: p in r.value.0.items ==>
      exists i :: 0 <= i < |db| && db[i].id == p && r.value.0.items[p] ==
        OrderItem(p, db[i].name, db[i].price, cart[(user, p)])
    ensures r.Success? ==> LinesOf(r.value.1, user) == {}
    ensures r.Success? ==> forall k :: k in cart && k.0 != user ==> k in r.value.1 && r.value.1[k] == cart[k]
    ensures r.Success? ==> r.value.1.Keys <= cart.Keys
  {
    if LinesOf(cart, user) == {} then Failure(ApiError(BadRequest, "Кошик порожній"))
    else if !OrderFits(inp) then Failure(InternalServerError)
    else
      var items := map p | p in LinesOf(cart, user) && ProductById(db, p).Some? ::
        OrderItem(p, ProductById(db, p).value.name, ProductById(db, p).value.price, cart[(user, p)]);
      var order := Order(newId, user, StatusFor(inp.paymentMethod), inp.paymentMethod, inp.deliveryMethod,
                         inp.fullName, inp.phone, inp.city, inp.address, inp.comment, items);
      Success((order, map k | k in cart && k.0 != user :: cart[k]))
  }

  /** Checking out twice in a row: the second attempt finds the cart empty. */
  lemma CheckoutEmptiesCart(db: seq<Product>, cart: Cart, user: int, inp: CheckoutIn, id1: int, id2: int)
    requires CreateOrder(db, cart, user, inp, id1).Success?
    ensures var second := CreateOrder(db, CreateOrder(db, cart, user, inp, id1).value.1, user, inp, id2);
      second.Failure? && second.error.status == BadRequest
  {
  }

  /** Every item of an order holds at least one unit when the cart did. */
  lemma OrderQuantitiesPositive(db: seq<Product>, cart: Cart, user: int, inp: CheckoutIn, newId: int)
    requires PositiveQty(cart)
    requires CreateOrder(db, cart, user, inp, newId).Success?
    ensures var o := CreateOrder(db, cart, user, inp, newId).value.0;
      forall p :: p in o.items ==> o.items[p].qty >= 1 && o.items[p].productId == p
  {
  }
}
