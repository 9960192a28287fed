/** The "add to cart" button of the legacy product page
    (zelena/zelena/static/js/product.js): the cart in `localStorage` under
    "cart" is a list of product ids, taken from the buttons' `data-product-id`
    and so strings. The alert and the storage round trip are not modelled. */
module LegacyCart {

  /** No id occurs twice. */
  predicate NoDuplicates(cart: seq<string>) {
    forall i, j :: 0 <= i < j < |cart| ==> cart[i] != cart[j]
  }

  /** `addToCart`: the id is appended unless the list already includes it. */
  function AddToCart(cart: seq<string>, id: string): (r: seq<string>)
    ensures id in r
    ensures id in cart ==> r == cart
    ensures id !in cart ==> r == cart + [id]
    ensures NoDuplicates(cart) ==> NoDuplicates(r)
  {
    if id in cart then cart else cart + [id]
  }

  /** Adding is idempotent, and adding two ids in either order gives the
      same set of ids. */
  lemma AddTwice(cart: seq<string>, a: string, b: string)
    ensures AddToCart(AddToCart(cart, a), a) == AddToCart(cart, a)
    ensures forall x :: x in AddToCart(AddToCart(cart, a), b) <==> x in AddToCart(AddToCart(cart, b), a)
  {
  }
}
