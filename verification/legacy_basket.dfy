/** The basket of the legacy static site (zelena/zelena/static/js/basket.js):
    a list of items kept in `localStorage` under "basket", one item per
    product id with a count. Reading and writing `localStorage` and drawing
    the list are not modelled; each operation maps the stored list to the
    list stored back. */
module LegacyBasket {
  import opened Wrappers
  import opened Text

  /** A JavaScript value used as an id: a number or a string. Ids compare
      with `===`, under which a number never equals a string. */
  datatype JsId = Num(n: int) | Str(s: string)

  /** JavaScript's `String(v)`, which a template literal applies. */
  function JsString(v: JsId): string {
    match v
    case Num(n) => IntToString(n)
    case Str(s) => s
  }

  /** An item of the stored list. */
  datatype Item = Item(id: JsId, title: string, price: string, image: string, description: string, count: int)

  /** No id occurs twice. */
  predicate UniqueIds(b: seq<Item>) {
    forall i, j :: 0 <= i < j < |b| ==> b[i].id != b[j].id
  }

  /** Every item counts at least one unit. */
  predicate PositiveCounts(b: seq<Item>) {
    forall i :: 0 <= i < |b| ==> b[i].count >= 1
  }

  predicate HasId(b: seq<Item>, id: JsId) {
    exists i :: 0 <= i < |b| && b[i].id == id
  }

  /** `basket.find(x => x.id === id)`, as an index. */
  function Find(b: seq<Item>, id: JsId): (r: Option<nat>)
    ensures r.None? <==> !HasId(b, id)
    ensures r.Some? ==> r.value < |b| && b[r.value].id == id
    ensures r.Some? ==> forall i :: 0 <= i < r.value ==> b[i].id != id
  {
    if b == [] then None
    else if b[0].id == id then Some(0)
    else match Find(b[1..], id)
      case None => None
      case Some(k) => Some(k + 1)
  }

  /** `addToBasket`: an item with the id counts one more and the list keeps
      its order; otherwise a new item with count 1 goes at the end. */
  function AddToBasket(b: seq<Item>, id: JsId, title: string, price: string, image: string, description: string)
    : (r: seq<Item>)
    ensures HasId(b, id) ==> |r| == |b| && forall i :: 0 <= i < |b| ==>
      r[i] == if i == Find(b, id).value then b[i].(count := b[i].count + 1) else b[i]
    ensures !HasId(b, id) ==> r == b + [Item(id, title, price, image, description, 1)]
    ensures HasId(r, id)
    ensures UniqueIds(b) ==> UniqueIds(r)
    ensures PositiveCounts(b) ==> PositiveCounts(r)
  {
    match Find(b, id)
    case Some(k) => b[k := b[k].(count := b[k].count + 1)]
    case None =>
      var r := b + [Item(id, title, price, image, description, 1)];
      assert r[|b|].id == id;
      r
  }

  /** `removeFromBasket`: every item whose id is `!==` the given one stays,
      in order. */
  function RemoveFromBasket(b: seq<Item>, id: JsId): (r: seq<Item>)
    ensures |r| <= |b|
    ensures !HasId(r, id)
    ensures !HasId(b, id) ==> r == b
  {
    if b == [] then []
    else
      var rest := RemoveFromBasket(b[1..], id);
      assert b == [b[0]] + b[1..];
      if b[0].id != id then [b[0]] + rest else rest
  }

  /** Removal works item by item: it splits over a concatenation. */
  lemma {:induction false} RemoveSplits(a: seq<Item>, b: seq<Item>, id: JsId)
    ensures RemoveFromBasket(a + b, id) == RemoveFromBasket(a, id) + RemoveFromBasket(b, id)
  {
    if a == [] {
      assert a + b == b;
    } else {
      var ab := a + b;
      assert ab[0] == a[0];
      assert ab[1..] == a[1..] + b;
      RemoveSplits(a[1..], b, id);
    }
  }

  /** Every item with another id survives removal, and nothing else is
      made up. */
  lemma {:induction false} RemoveKeepsOthers(b: seq<Item>, id: JsId)
    ensures forall i :: 0 <= i < |b| && b[i].id != id ==> b[i] in RemoveFromBasket(b, id)
    ensures forall x :: x in RemoveFromBasket(b, id) ==> x in b
  {
    if b != [] {
      RemoveKeepsOthers(b[1..], id);
      assert forall i :: 1 <= i < |b| ==> b[i] == b[1..][i - 1];
    }
  }

  /** Removing an id just added as a new item gives back the list it was
      added to. */
  lemma AddThenRemove(b: seq<Item>, id: JsId, title: string, price: string, image: string, description: string)
    requires !HasId(b, id)
    ensures RemoveFromBasket(AddToBasket(b, id, title, price, image, description), id) == b
  {
    var x := Item(id, title, price, image, description, 1);
    RemoveSplits(b, [x], id);
    assert RemoveFromBasket([x], id) == [];
  }

  /** Adding an id already present twice over counts it twice over: the
      basket stays the same length. */
  lemma AddExistingKeepsLength(b: seq<Item>, id: JsId, title: string, price: string, image: string, description: string)
    requires HasId(b, id)
    ensures |AddToBasket(AddToBasket(b, id, title, price, image, description), id, title, price, image, description)| == |b|
  {
  }

  // ---------------------------------------------------------------- the remove button

  /** A character that the `onclick` markup does not pass through as it is:
      `"` ends the attribute, `&` starts a character reference, `'` ends the
      JavaScript string literal, `\` starts an escape, and a line feed or
      carriage return inside the literal is a syntax error. */
  predicate Disturbs(c: char) {
    c == '"' || c == '&' || c == '\'' || c == '\\' || c == '\n' || c == '\r'
  }

  /** The text of the `onclick` attribute `removeFromBasket('<text>')` reaches
      the call as it is written. */
  predicate Intact(text: string) {
    forall i :: 0 <= i < |text| ==> !Disturbs(text[i])
  }

  /** The numeral of a number is always passed intact. */
  lemma NumeralIntact(n: int)
    ensures Intact(IntToString(n))
  {
    var t := NatToString(if n < 0 then -n else n);
    assert forall i :: 0 <= i < |t| ==> IsDigit(t[i]);
    if n < 0 {
      assert IntToString(n) == "-" + t;
      assert forall i :: 1 <= i < |IntToString(n)| ==> IntToString(n)[i] == t[i - 1];
    }
  }

  /** What the remove button of an item does: its `onclick` is written as
      `removeFromBasket('<id>')`, so the call receives the string form of the
      item's id, provided the markup passes that text intact (`None` when it
      does not: the click then fails or removes by some other text). The
      string form is the id itself only for an item with a string id. */
  function RemoveByButton(b: seq<Item>, item: Item): (r: Option<seq<Item>>)
    ensures r.Some? <==> Intact(JsString(item.id))
    ensures r.Some? && item.id.Str? ==> r.value == RemoveFromBasket(b, item.id)
  {
    if Intact(JsString(item.id)) then Some(RemoveFromBasket(b, Str(JsString(item.id)))) else None
  }

  /** As written, the button of an item with a numeric id removes nothing:
      the numeral reaches the call intact, but as a string, which never `===`
      the number. */
  lemma ButtonMissesNumericId(b: seq<Item>, k: nat)
    requires k < |b| && forall i :: 0 <= i < |b| ==> b[i].id.Num?
    ensures RemoveByButton(b, b[k]) == Some(b)
  {
    NumeralIntact(b[k].id.n);
    assert !HasId(b, Str(JsString(b[k].id)));
  }

  /** Removal comparing the string forms of the ids, which is what the
      button needs. */
  function RemoveByText(b: seq<Item>, text: string): (r: seq<Item>)
    ensures |r| <= |b|
    ensures forall i :: 0 <= i < |r| ==> JsString(r[i].id) != text
  {
    if b == [] then []
    else if JsString(b[0].id) != text then [b[0]] + RemoveByText(b[1..], text)
    else RemoveByText(b[1..], text)
  }

  /** The remove button with string-form comparison behind the same markup. */
  function FixedButton(b: seq<Item>, item: Item): (r: Option<seq<Item>>)
    ensures r.Some? <==> Intact(JsString(item.id))
  {
    if Intact(JsString(item.id)) then Some(RemoveByText(b, JsString(item.id))) else None
  }

  /** With string-form comparison the button removes the clicked item
      whenever the markup passes its id intact, and on a basket of numeric
      ids it always works and removes exactly what `removeFromBasket` with
      the number would. */
  lemma {:induction false} ButtonRemovesItem(b: seq<Item>, k: nat)
    requires k < |b|
    ensures FixedButton(b, b[k]).Some? ==> !HasId(FixedButton(b, b[k]).value, b[k].id)
    ensures (forall i :: 0 <= i < |b| ==> b[i].id.Num?) ==>
      FixedButton(b, b[k]) == Some(RemoveFromBasket(b, b[k].id))
  {
    if forall i :: 0 <= i < |b| ==> b[i].id.Num? {
      NumeralIntact(b[k].id.n);
      TextAgreesOnNumbers(b, b[k].id.n);
    }
  }

  lemma {:induction false} TextAgreesOnNumbers(b: seq<Item>, n: int)
    requires forall i :: 0 <= i < |b| ==> b[i].id.Num?
    ensures RemoveByText(b, IntToString(n)) == RemoveFromBasket(b, Num(n))
  {
    if b != [] {
      if JsString(b[0].id) == IntToString(n) {
        IntToStringInjective(b[0].id.n, n);
      }
      TextAgreesOnNumbers(b[1..], n);
    }
  }
}
