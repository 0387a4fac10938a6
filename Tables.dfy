/** Rows of the shop's four tables, the read-only lookups over a snapshot of
    them (`autenticar_usuario`, `obtener_producto_por_id`), the validation
    `crear_pedido` performs before it writes anything, and the pairing of
    order headers with their line items that a committed store keeps. */
module Tables {
  import opened Wrappers
  import opened Text
  import opened Credentials

  /** A row of `usuarios`; `record` is the `contrasena` column. */
  datatype User = User(id: nat, name: string, email: string, record: string)

  /** A row of `productos`. The `REAL` price, which `CHECK(precio >= 0)`
      keeps non-negative, is modelled as a non-negative integer. */
  datatype Product = Product(id: int, name: string, price: nat)

  /** A row of `pedidos`: owner, ISO-8601 timestamp and total. */
  datatype Order = Order(id: nat, userId: nat, timestamp: string, total: int)

  /** A row of `pedido_items`: the order it belongs to, product, quantity
      and subtotal. */
  datatype OrderLine = OrderLine(id: nat, orderId: nat, productId: int, quantity: int, subtotal: int)

  ghost predicate UniqueEmails(users: seq<User>) {
    forall i, j :: 0 <= i < j < |users| ==> users[i].email != users[j].email
  }

  ghost predicate UniqueProductIds(products: seq<Product>) {
    forall i, j :: 0 <= i < j < |products| ==> products[i].id != products[j].id
  }

  predicate EmailTaken(users: seq<User>, email: string) {
    exists i :: 0 <= i < |users| && users[i].email == email
  }

  /** `SELECT ... FROM usuarios WHERE email = ?` followed by `fetchone()`:
      the first row with exactly that email, or `None` when there is none. */
  function FindUserByEmail(users: seq<User>, email: string): (r: Option<User>)
    ensures r.None? <==> !EmailTaken(users, email)
    ensures r.Some? ==> exists i :: 0 <= i < |users| && users[i] == r.value && users[i].email == email
                                 && forall j :: 0 <= j < i ==> users[j].email != email
  {
    if users == [] then None
    else if users[0].email == email then Some(users[0])
    else
      var r := FindUserByEmail(users[1..], email);
      assert forall i :: 1 <= i < |users| ==> users[i] == users[1..][i - 1];
      r
  }

  /** `autenticar_usuario(email, password)`: the row found by exact email
      when its stored record verifies against the password, `None` when the
      email is absent or verification fails. */
  function Authenticate(kdf: Kdf, users: seq<User>, email: string, password: string): (r: Option<User>)
    ensures !EmailTaken(users, email) ==> r.None?
    ensures r.Some? ==> r.value in users && r.value.email == email && VerifyPassword(kdf, r.value.record, password)
  {
    match FindUserByEmail(users, email)
    case None => None
    case Some(u) => if VerifyPassword(kdf, u.record, password) then Some(u) else None
  }

  /** With emails unique, as the `UNIQUE` constraint keeps them, a user is
      authenticated exactly when the password verifies against that user's
      own record. */
  lemma AuthenticateUnique(kdf: Kdf, users: seq<User>, i: int, password: string)
    requires UniqueEmails(users)
    requires 0 <= i < |users|
    ensures Authenticate(kdf, users, users[i].email, password)
         == if VerifyPassword(kdf, users[i].record, password) then Some(users[i]) else None
  {
    var found := FindUserByEmail(users, users[i].email);
    var j :| 0 <= j < |users| && users[j] == found.value && users[j].email == users[i].email;
    assert i == j;
  }

  /** After a new email's row is appended with the record `hash_password`
      writes, that email and password authenticate as that row. */
  lemma AuthenticateAfterRegister(kdf: Kdf, users: seq<User>, id: nat, name: string, email: string,
                                  password: string, salt: Salt)
    requires UniqueEmails(users) && !EmailTaken(users, email)
    ensures var u := User(id, name, email, HashPassword(kdf, password, salt, DefaultIterations).value);
      Authenticate(kdf, users + [u], email, password) == Some(u)
  {
    var u := User(id, name, email, HashPassword(kdf, password, salt, DefaultIterations).value);
    var after := users + [u];
    assert UniqueEmails(after) by {
      forall i | 0 <= i < |users| ensures after[i].email != u.email {
        assert after[i] == users[i];
      }
    }
    VerifyHashPassword(kdf, password, salt, DefaultIterations);
    AuthenticateUnique(kdf, after, |users|, password);
  }

  /** `obtener_producto_por_id(id)`: the product row with that id, or `None`. */
  function FindProduct(products: seq<Product>, id: int): (r: Option<Product>)
    ensures r.None? <==> forall i :: 0 <= i < |products| ==> products[i].id != id
    ensures r.Some? ==> r.value in products && r.value.id == id
  {
    if products == [] then None
    else if products[0].id == id then Some(products[0])
    else
      var r := FindProduct(products[1..], id);
      assert forall i :: 1 <= i < |products| ==> products[i] == products[1..][i - 1];
      r
  }

  // ---------------------------------------------------------------------
  // Validation before an order is written

  /** Why `crear_pedido` stops before writing. Authentication failure does
      not say whether the email exists. */
  datatype OrderError = NoUsers | BadCredentials | NotANumber | NonPositiveQuantity | ProductNotFound

  /** What a validated attempt will write: the authenticated user, the
      chosen product, the quantity and the subtotal. */
  datatype OrderRequest = OrderRequest(user: User, product: Product, quantity: int, subtotal: int)

  /** The checks of `crear_pedido`, in the order it makes them, over the
      current tables and the four answers the user types. The email answer
      is stripped and lower-cased, the others stripped. */
  function CheckOrder(kdf: Kdf, users: seq<User>, products: seq<Product>,
                      emailIn: string, passwordIn: string, productIn: string, quantityIn: string)
    : (r: Result<OrderRequest, OrderError>)
    ensures r.Success? ==> r.value.quantity > 0 && r.value.subtotal >= 0
  {
    var email, password := AsciiLower(Strip(emailIn)), Strip(passwordIn);
    var productId, quantity := ParseInt(Strip(productIn)), ParseInt(Strip(quantityIn));
    if |users| == 0 then Failure(NoUsers)
    else if Authenticate(kdf, users, email, password).None? then Failure(BadCredentials)
    else if productId.None? || quantity.None? then Failure(NotANumber)
    else if quantity.value <= 0 then Failure(NonPositiveQuantity)
    else if FindProduct(products, productId.value).None? then Failure(ProductNotFound)
    else
      var p := FindProduct(products, productId.value).value;
      Success(OrderRequest(Authenticate(kdf, users, email, password).value, p, quantity.value, Subtotal(p.price, quantity.value)))
  }

  /** `float(precio) * cantidad`, without the rounding: never negative for a
      positive quantity. */
  function Subtotal(price: nat, quantity: int): (r: int)
    requires quantity > 0
    ensures r >= 0
  {
    price * quantity
  }

  /** What an accepted attempt carries: a stored user whose email is the
      normalised answer and whose record verifies the stripped password, a
      catalogue product with the typed id, the typed positive quantity, and
      the subtotal price times quantity. */
  lemma CheckOrderAccepted(kdf: Kdf, users: seq<User>, products: seq<Product>,
                           emailIn: string, passwordIn: string, productIn: string, quantityIn: string)
    requires CheckOrder(kdf, users, products, emailIn, passwordIn, productIn, quantityIn).Success?
    ensures var req := CheckOrder(kdf, users, products, emailIn, passwordIn, productIn, quantityIn).value;
      && req.user in users
      && req.user.email == AsciiLower(Strip(emailIn))
      && VerifyPassword(kdf, req.user.record, Strip(passwordIn))
      && req.product in products
      && ParseInt(Strip(productIn)) == Some(req.product.id)
      && ParseInt(Strip(quantityIn)) == Some(req.quantity)
      && req.quantity > 0
      && req.subtotal == req.product.price * req.quantity
  {
    var r := CheckOrder(kdf, users, products, emailIn, passwordIn, productIn, quantityIn);
    var auth := Authenticate(kdf, users, AsciiLower(Strip(emailIn)), Strip(passwordIn));
    var pid, qty := ParseInt(Strip(productIn)), ParseInt(Strip(quantityIn));
    assert users != [] && auth.Some?;
    assert pid.Some? && qty.Some? && qty.value > 0;
    var found := FindProduct(products, pid.value);
    assert found.Some?;
    assert r.value == OrderRequest(auth.value, found.value, qty.value, Subtotal(found.value.price, qty.value));
  }

  /** Each rejection happens exactly when every earlier check passed and its
      own fails. */
  lemma CheckOrderRejections(kdf: Kdf, users: seq<User>, products: seq<Product>,
                             emailIn: string, passwordIn: string, productIn: string, quantityIn: string)
    ensures var r := CheckOrder(kdf, users, products, emailIn, passwordIn, productIn, quantityIn);
      var auth := Authenticate(kdf, users, AsciiLower(Strip(emailIn)), Strip(passwordIn));
      var pid, qty := ParseInt(Strip(productIn)), ParseInt(Strip(quantityIn));
      && (r == Failure(NoUsers) <==> users == [])
      && (r == Failure(BadCredentials) <==> users != [] && auth.None?)
      && (r == Failure(NotANumber) <==> users != [] && auth.Some? && (pid.None? || qty.None?))
      && (r == Failure(NonPositiveQuantity) <==> users != [] && auth.Some? && pid.Some? && qty.Some? && qty.value <= 0)
      && (r == Failure(ProductNotFound) <==>
            users != [] && auth.Some? && pid.Some? && qty.Some? && qty.value > 0
            && forall i :: 0 <= i < |products| ==> products[i].id != pid.value)
  {
    var r := CheckOrder(kdf, users, products, emailIn, passwordIn, productIn, quantityIn);
    var auth := Authenticate(kdf, users, AsciiLower(Strip(emailIn)), Strip(passwordIn));
    var pid, qty := ParseInt(Strip(productIn)), ParseInt(Strip(quantityIn));
    if users == [] {
      assert r == Failure(NoUsers);
    } else if auth.None? {
      assert r == Failure(BadCredentials);
    } else if pid.None? || qty.None? {
      assert r == Failure(NotANumber);
    } else if qty.value <= 0 {
      assert r == Failure(NonPositiveQuantity);
    } else if FindProduct(products, pid.value).None? {
      assert r == Failure(ProductNotFound);
    } else {
      assert r.Success?;
    }
  }

  /** A quantity typed as `-` followed by digits (a negative number or a
      signed zero) is refused as `NonPositiveQuantity` once the account and
      the product id check out, whatever the catalogue holds. */
  lemma CheckOrderNegativeQuantity(kdf: Kdf, users: seq<User>, products: seq<Product>,
                                   emailIn: string, passwordIn: string, productIn: string, quantityIn: string)
    requires users != [] && Authenticate(kdf, users, AsciiLower(Strip(emailIn)), Strip(passwordIn)).Some?
    requires ParseInt(Strip(productIn)).Some?
    requires |quantityIn| >= 2 && quantityIn[0] == '-'
    requires |quantityIn| - 1 <= MaxStrDigits && AllDigits(quantityIn[1..])
    ensures CheckOrder(kdf, users, products, emailIn, passwordIn, productIn, quantityIn) == Failure(NonPositiveQuantity)
  {
    ParseSigned(quantityIn);
    ParseIntStripped(quantityIn);
  }

  /** An attempt is rejected whenever the email has no account, whatever
      else was typed (and then as `BadCredentials`, not as a missing user). */
  lemma CheckOrderUnknownEmail(kdf: Kdf, users: seq<User>, products: seq<Product>,
                               emailIn: string, passwordIn: string, productIn: string, quantityIn: string)
    requires !EmailTaken(users, AsciiLower(Strip(emailIn)))
    ensures CheckOrder(kdf, users, products, emailIn, passwordIn, productIn, quantityIn).Failure?
    ensures users != [] ==> CheckOrder(kdf, users, products, emailIn, passwordIn, productIn, quantityIn) == Failure(BadCredentials)
  {
  }

  // ---------------------------------------------------------------------
  // Order headers and their line items

  /** The committed-state pairing: line `i` belongs to order `i` and carries
      its total as subtotal. */
  ghost predicate Paired(orders: seq<Order>, lines: seq<OrderLine>) {
    && |orders| == |lines|
    && forall i :: 0 <= i < |orders| ==> lines[i].orderId == orders[i].id && lines[i].subtotal == orders[i].total
  }

  ghost predicate AscendingOrderIds(orders: seq<Order>) {
    forall i, j :: 0 <= i < j < |orders| ==> orders[i].id < orders[j].id
  }

  /** The line items of one order: `pedido_items` joined on `pedido_id`.
      Every stored line of that order is there as often as it is stored,
      and no other line. */
  function LinesOf(lines: seq<OrderLine>, orderId: nat): (r: seq<OrderLine>)
    ensures forall l :: multiset(r)[l] == if l.orderId == orderId then multiset(lines)[l] else 0
  {
    if lines == [] then []
    else
      assert lines == [lines[0]] + lines[1..];
      (if lines[0].orderId == orderId then [lines[0]] else []) + LinesOf(lines[1..], orderId)
  }

  function SumSubtotals(lines: seq<OrderLine>): int {
    if lines == [] then 0 else lines[0].subtotal + SumSubtotals(lines[1..])
  }

  lemma {:induction false} NoLinesOf(orders: seq<Order>, lines: seq<OrderLine>, orderId: nat)
    requires Paired(orders, lines)
    requires forall i :: 0 <= i < |orders| ==> orders[i].id != orderId
    ensures LinesOf(lines, orderId) == []
  {
    if lines != [] {
      NoLinesOf(orders[1..], lines[1..], orderId);
    }
  }

  /** In a committed store every order has exactly one line item, and its
      total is the sum of its items' subtotals: no header without its line,
      no line without its header. */
  lemma {:induction false} PairedOrderHasOneLine(orders: seq<Order>, lines: seq<OrderLine>, i: int)
    requires Paired(orders, lines) && AscendingOrderIds(orders)
    requires 0 <= i < |orders|
    ensures LinesOf(lines, orders[i].id) == [lines[i]]
    ensures SumSubtotals(LinesOf(lines, orders[i].id)) == orders[i].total
  {
    var id := orders[i].id;
    if i == 0 {
      NoLinesOf(orders[1..], lines[1..], id);
    } else {
      PairedOrderHasOneLine(orders[1..], lines[1..], i - 1);
    }
  }

  /** Every line item points at an existing order. */
  lemma PairedLineHasOrder(orders: seq<Order>, lines: seq<OrderLine>, j: int)
    requires Paired(orders, lines)
    requires 0 <= j < |lines|
    ensures exists i :: 0 <= i < |orders| && orders[i].id == lines[j].orderId
  {
    assert orders[j].id == lines[j].orderId;
  }

  /** Appending one header and its line keeps the pairing. */
  lemma PairedAppend(orders: seq<Order>, lines: seq<OrderLine>, o: Order, l: OrderLine)
    requires Paired(orders, lines)
    requires l.orderId == o.id && l.subtotal == o.total
    ensures Paired(orders + [o], lines + [l])
  {
  }
}
