/** The request and response bodies of the back end (backend/app/schemas.py)
    with their pydantic validation: length bounds on text fields and the
    defaults of optional fields. A body that fails validation is answered with
    422. Lengths are counted in code points, as Python's `len` does. */
module Schemas {
  import opened Wrappers

  /** The 422 answer to a body that fails validation. */
  const ValidationFailed: ApiError := ApiError(Unprocessable, "validation error")

  /** `Field(min_length = lo, max_length = hi)`. */
  predicate LengthWithin(s: string, lo: nat, hi: nat) {
    lo <= |s| <= hi
  }

  // ---------------------------------------------------------------- register

  /** The registration body as received: fields not sent are `None`. */
  datatype RegisterBody = RegisterBody(nickname: Option<string>, email: Option<string>, password: Option<string>)

  /** The validated registration body. */
  datatype RegisterIn = RegisterIn(nickname: string, email: string, password: string)

  /** Validation of a registration body: all three fields are required, the
      nickname has 3..40 characters, the e-mail passes and the password has
      6..128 characters. `isEmail` stands for pydantic's `EmailStr` check,
      which is not modelled. */
  function ParseRegister(b: RegisterBody, isEmail: string -> bool): (r: Result<RegisterIn, ApiError>)
    ensures r.Success? <==>
      && b.nickname.Some? && LengthWithin(b.nickname.value, 3, 40)
      && b.email.Some? && isEmail(b.email.value)
      && b.password.Some? && LengthWithin(b.password.value, 6, 128)
    ensures r.Success? ==> r.value == RegisterIn(b.nickname.value, b.email.value, b.password.value)
    ensures r.Failure? ==> r.error == ValidationFailed
  {
    if && b.nickname.Some? && LengthWithin(b.nickname.value, 3, 40)
       && b.email.Some? && isEmail(b.email.value)
       && b.password.Some? && LengthWithin(b.password.value, 6, 128)
    then Success(RegisterIn(b.nickname.value, b.email.value, b.password.value))
    else Failure(ValidationFailed)
  }

  /** The bounds an accepted registration keeps. */
  predicate RegisterBounds(inp: RegisterIn, isEmail: string -> bool) {
    LengthWithin(inp.nickname, 3, 40) && isEmail(inp.email) && LengthWithin(inp.password, 6, 128)
  }

  /** The body a client sends for a registration with every field given. */
  function RegisterBodyOf(inp: RegisterIn): RegisterBody {
    RegisterBody(Some(inp.nickname), Some(inp.email), Some(inp.password))
  }

  /** Sending a registration's fields back parses to the same registration
      exactly when it keeps the bounds; every accepted one keeps them, so
      validation is a round trip on what it accepts. */
  lemma RegisterRoundTrip(inp: RegisterIn, b: RegisterBody, isEmail: string -> bool)
    ensures ParseRegister(RegisterBodyOf(inp), isEmail) == Success(inp) <==> RegisterBounds(inp, isEmail)
    ensures var r := ParseRegister(b, isEmail);
      r.Success? ==> RegisterBounds(r.value, isEmail) && ParseRegister(RegisterBodyOf(r.value), isEmail) == r
  {
  }

  // ---------------------------------------------------------------- token

  /** The answer to a successful registration or login. */
  datatype TokenOut = TokenOut(accessToken: string, tokenType: string, nickname: string, isAdmin: bool)

  /** A token answer built without a token type gets "bearer". */
  function MakeTokenOut(accessToken: string, nickname: string, isAdmin: bool): (r: TokenOut)
    ensures r.tokenType == "bearer"
    ensures r.accessToken == accessToken && r.nickname == nickname && r.isAdmin == isAdmin
  {
    TokenOut(accessToken, "bearer", nickname, isAdmin)
  }

  // ---------------------------------------------------------------- product

  /** The admin product body as received: fields not sent are `None`. */
  datatype ProductBody = ProductBody(
    name: Option<string>, slug: Option<string>, description: Option<string>,
    supplier: Option<string>, category: Option<string>, price: Option<real>)

  /** The validated admin product body. */
  datatype ProductCreate = ProductCreate(
    name: string, slug: string, description: string,
    supplier: Option<string>, category: Option<string>, price: real)

  /** Name, slug and price are required; description defaults to "" and
      supplier and category to `None`. */
  function ParseProductCreate(b: ProductBody): (r: Result<ProductCreate, ApiError>)
    ensures r.Success? <==> b.name.Some? && b.slug.Some? && b.price.Some?
    ensures r.Success? ==>
      && r.value.name == b.name.value && r.value.slug == b.slug.value && r.value.price == b.price.value
      && r.value.description == (if b.description.Some? then b.description.value else "")
      && r.value.supplier == b.supplier && r.value.category == b.category
    ensures r.Failure? ==> r.error == ValidationFailed
  {
    if b.name.None? || b.slug.None? || b.price.None? then Failure(ValidationFailed)
    else Success(ProductCreate(b.name.value, b.slug.value, b.description.GetOr(""),
                               b.supplier, b.category, b.price.value))
  }

  // ---------------------------------------------------------------- checkout

  /** The checkout body as received: fields not sent are `None`. */
  datatype CheckoutBody = CheckoutBody(
    paymentMethod: Option<string>, deliveryMethod: Option<string>,
    fullName: Option<string>, phone: Option<string>, city: Option<string>,
    address: Option<string>, comment: Option<string>)

  /** The validated checkout body. */
  datatype CheckoutIn = CheckoutIn(
    paymentMethod: string, deliveryMethod: string, fullName: string, phone: string,
    city: string, address: string, comment: string)

  /** The four contact fields are required: full name 2..120, phone 5..40,
      city 2..120 and address 2..200 characters. Payment defaults to "cod",
      delivery to "nova_poshta" and the comment to "". */
  function ParseCheckout(b: CheckoutBody): (r: Result<CheckoutIn, ApiError>)
    ensures r.Success? <==>
      && b.fullName.Some? && LengthWithin(b.fullName.value, 2, 120)
      && b.phone.Some? && LengthWithin(b.phone.value, 5, 40)
      && b.city.Some? && LengthWithin(b.city.value, 2, 120)
      && b.address.Some? && LengthWithin(b.address.value, 2, 200)
    ensures r.Success? ==>
      && r.value.paymentMethod == (if b.paymentMethod.Some? then b.paymentMethod.value else "cod")
      && r.value.deliveryMethod == (if b.deliveryMethod.Some? then b.deliveryMethod.value else "nova_poshta")
      && r.value.comment == (if b.comment.Some? then b.comment.value else "")
      && r.value.fullName == b.fullName.value && r.value.phone == b.phone.value
      && r.value.city == b.city.value && r.value.address == b.address.value
    ensures r.Failure? ==> r.error == ValidationFailed
  {
    if && b.fullName.Some? && LengthWithin(b.fullName.value, 2, 120)
       && b.phone.Some? && LengthWithin(b.phone.value, 5, 40)
       && b.city.Some? && LengthWithin(b.city.value, 2, 120)
       && b.address.Some? && LengthWithin(b.address.value, 2, 200)
    then Success(CheckoutIn(b.paymentMethod.GetOr("cod"), b.deliveryMethod.GetOr("nova_poshta"),
                            b.fullName.value, b.phone.value, b.city.value, b.address.value,
                            b.comment.GetOr("")))
    else Failure(ValidationFailed)
  }

  /** The bounds an accepted checkout keeps. */
  predicate CheckoutBounds(c: CheckoutIn) {
    && LengthWithin(c.fullName, 2, 120) && LengthWithin(c.phone, 5, 40)
    && LengthWithin(c.city, 2, 120) && LengthWithin(c.address, 2, 200)
  }

  /** The body a client sends for a checkout with every field given. */
  function CheckoutBodyOf(c: CheckoutIn): CheckoutBody {
    CheckoutBody(Some(c.paymentMethod), Some(c.deliveryMethod), Some(c.fullName), Some(c.phone),
                 Some(c.city), Some(c.address), Some(c.comment))
  }

  /** A checkout sent back with every field parses to itself exactly when it
      keeps the bounds; every accepted checkout keeps them and parses back to
      itself. */
  lemma CheckoutRoundTrip(c: CheckoutIn, b: CheckoutBody)
    ensures ParseCheckout(CheckoutBodyOf(c)) == Success(c) <==> CheckoutBounds(c)
    ensures var r := ParseCheckout(b);
      r.Success? ==> CheckoutBounds(r.value) && ParseCheckout(CheckoutBodyOf(r.value)) == r
  {
  }

  /** A body that leaves out payment, delivery and comment gets "cod",
      "nova_poshta" and "". */
  lemma CheckoutDefaults(fullName: string, phone: string, city: string, address: string)
    requires CheckoutBounds(CheckoutIn("cod", "nova_poshta", fullName, phone, city, address, ""))
    ensures ParseCheckout(CheckoutBody(None, None, Some(fullName), Some(phone), Some(city), Some(address), None))
      == Success(CheckoutIn("cod", "nova_poshta", fullName, phone, city, address, ""))
  {
  }
}
