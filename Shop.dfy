/** The shop's database as an object: the `usuarios`, `pedidos` and
    `pedido_items` tables with their `AUTOINCREMENT` counters, and the
    read-only `productos` table. `Register` is `registrar_usuario` and
    `PlaceOrder` is `crear_pedido`, with the answers typed at `input()`
    passed in as arguments. */
module Shop {
  import opened Wrappers
  import opened Text
  import opened Credentials
  import opened Tables

  datatype RegisterOutcome =
    | MissingData             // a field was blank after `strip()`
    | AlreadyRegistered       // the `IntegrityError` of `UNIQUE(email)`
    | Registered(id: nat)

  /** Where the order transaction may break: the header insert, the line
      insert or the commit. Stands for any store error the `except
      Exception` catches. */
  datatype Fault = NoFault | HeaderInsertFails | LineInsertFails | CommitFails

  datatype OrderOutcome =
    | Rejected(error: OrderError)      // stopped before the transaction
    | RolledBack                       // the transaction failed and was undone
    | Committed(orderId: nat, lineId: nat)

  ghost predicate UserTable(users: seq<User>, next: nat) {
    && next >= 1
    && (forall i :: 0 <= i < |users| ==> 1 <= users[i].id < next)
    && (forall i, j :: 0 <= i < j < |users| ==> users[i].id < users[j].id)
    && UniqueEmails(users)
  }

  ghost predicate OrderTable(orders: seq<Order>, next: nat) {
    && next >= 1
    && (forall i :: 0 <= i < |orders| ==> 1 <= orders[i].id < next)
    && AscendingOrderIds(orders)
    && (forall i :: 0 <= i < |orders| ==> orders[i].total >= 0)     // CHECK(total >= 0)
  }

  ghost predicate LineTable(lines: seq<OrderLine>, next: nat) {
    && next >= 1
    && (forall i :: 0 <= i < |lines| ==> 1 <= lines[i].id < next)
    && (forall i, j :: 0 <= i < j < |lines| ==> lines[i].id < lines[j].id)
    && (forall i :: 0 <= i < |lines| ==> lines[i].quantity > 0)     // CHECK(cantidad > 0)
    && (forall i :: 0 <= i < |lines| ==> lines[i].subtotal >= 0)    // CHECK(subtotal >= 0)
  }

  lemma UserTableAppend(users: seq<User>, next: nat, u: User)
    requires UserTable(users, next)
    requires u.id == next && !EmailTaken(users, u.email)
    ensures UserTable(users + [u], next + 1)
  {
  }

  lemma OrderTableAppend(orders: seq<Order>, next: nat, o: Order)
    requires OrderTable(orders, next)
    requires o.id == next && o.total >= 0
    ensures OrderTable(orders + [o], next + 1)
  {
  }

  lemma LineTableAppend(lines: seq<OrderLine>, next: nat, l: OrderLine)
    requires LineTable(lines, next)
    requires l.id == next && l.quantity > 0 && l.subtotal >= 0
    ensures LineTable(lines + [l], next + 1)
  {
  }

  class Store {
    var users: seq<User>
    const products: seq<Product>
    var orders: seq<Order>
    var orderLines: seq<OrderLine>
    /** The next `AUTOINCREMENT` id of each written table. */
    var nextUserId: nat
    var nextOrderId: nat
    var nextLineId: nat

    /** The committed state: the tables' constraints hold, ids are issued
        in increasing order, and every order header is paired with its one
        line item. */
    ghost predicate Valid()
      reads this
    {
      && UserTable(users, nextUserId)
      && OrderTable(orders, nextOrderId)
      && LineTable(orderLines, nextLineId)
      && Paired(orders, orderLines)
      && UniqueProductIds(products)
    }

    /** A freshly created database: empty tables over a given catalogue. */
    constructor (catalog: seq<Product>)
      requires UniqueProductIds(catalog)
      ensures Valid()
      ensures products == catalog && users == [] && orders == [] && orderLines == []
      ensures nextUserId == 1 && nextOrderId == 1 && nextLineId == 1
    {
      users, orders, orderLines := [], [], [];
      products := catalog;
      nextUserId, nextOrderId, nextLineId := 1, 1, 1;
    }

    /** `registrar_usuario`: blank answers write nothing; otherwise the
        email is lower-cased and a row with the hashed password is
        appended, unless that email is already stored. */
    method Register(kdf: Kdf, nameIn: string, emailIn: string, passwordIn: string, salt: Salt)
      returns (outcome: RegisterOutcome)
      requires Valid()
      modifies this
      ensures Valid()
      ensures orders == old(orders) && orderLines == old(orderLines)
      ensures nextOrderId == old(nextOrderId) && nextLineId == old(nextLineId)
      ensures var name, email, password := Strip(nameIn), AsciiLower(Strip(emailIn)), Strip(passwordIn);
        if name == [] || email == [] || password == [] then
          outcome == MissingData && users == old(users) && nextUserId == old(nextUserId)
        else if EmailTaken(old(users), email) then
          outcome == AlreadyRegistered && users == old(users) && nextUserId == old(nextUserId)
        else
          && outcome == Registered(old(nextUserId))
          && users == old(users) + [User(old(nextUserId), name, email, HashPassword(kdf, password, salt, DefaultIterations).value)]
          && nextUserId == old(nextUserId) + 1
    {
      var name := Strip(nameIn);
      var email := AsciiLower(Strip(emailIn));
      var password := Strip(passwordIn);
      if name == [] || email == [] || password == [] {
        return MissingData;
      }
      var record := HashPassword(kdf, password, salt, DefaultIterations).value;
      // The INSERT: the UNIQUE index on email refuses a duplicate.
      if EmailTaken(users, email) {
        return AlreadyRegistered;
      }
      var id := nextUserId;
      UserTableAppend(users, id, User(id, name, email, record));
      users := users + [User(id, name, email, record)];
      nextUserId := nextUserId + 1;
      outcome := Registered(id);
    }

    /** `crear_pedido`: validate (`CheckOrder`) and, when every check
        passes, run the two-insert transaction. */
    method PlaceOrder(kdf: Kdf, emailIn: string, passwordIn: string, productIn: string, quantityIn: string,
                      timestamp: string, fault: Fault)
      returns (outcome: OrderOutcome)
      requires Valid()
      modifies this
      ensures Valid()
      ensures users == old(users) && nextUserId == old(nextUserId)
      // both rows or neither, and the rows already there are never modified
      ensures !outcome.Committed? ==> orders == old(orders) && orderLines == old(orderLines)
      ensures outcome.Committed? ==>
        && |orders| == |old(orders)| + 1 && orders[..|old(orders)|] == old(orders)
        && |orderLines| == |old(orderLines)| + 1 && orderLines[..|old(orderLines)|] == old(orderLines)
        && orderLines[|old(orderLines)|].orderId == orders[|old(orders)|].id
      ensures match CheckOrder(kdf, old(users), products, emailIn, passwordIn, productIn, quantityIn)
        case Failure(e) =>
          && outcome == Rejected(e)
          && orders == old(orders) && orderLines == old(orderLines)
          && nextOrderId == old(nextOrderId) && nextLineId == old(nextLineId)
        case Success(req) =>
          if fault != NoFault then
            && outcome == RolledBack
            && orders == old(orders) && orderLines == old(orderLines)
            && nextOrderId == old(nextOrderId) && nextLineId == old(nextLineId)
          else
            && outcome == Committed(old(nextOrderId), old(nextLineId))
            && orders == old(orders) + [Order(old(nextOrderId), req.user.id, timestamp, req.subtotal)]
            && orderLines == old(orderLines) + [OrderLine(old(nextLineId), old(nextOrderId), req.product.id, req.quantity, req.subtotal)]
            && nextOrderId == old(nextOrderId) + 1 && nextLineId == old(nextLineId) + 1
    {
      var check := CheckOrder(kdf, users, products, emailIn, passwordIn, productIn, quantityIn);
      if check.Failure? {
        return Rejected(check.error);
      }
      outcome := Persist(check.value, timestamp, fault);
      if outcome.Committed? {
        assert orders == old(orders) + [orders[|old(orders)|]];
        assert orderLines == old(orderLines) + [orderLines[|old(orderLines)|]];
      }
    }

    /** The transaction of `crear_pedido`: insert the header, insert the
        line that points at the header's new id (`lastrowid`), commit. On a
        failure at any of those steps, `rollback` restores both tables and
        their counters to the snapshot taken before the header insert. */
    method Persist(req: OrderRequest, timestamp: string, fault: Fault) returns (outcome: OrderOutcome)
      requires Valid()
      requires req.quantity > 0 && req.subtotal >= 0
      modifies this
      ensures Valid()
      ensures users == old(users) && nextUserId == old(nextUserId)
      ensures fault != NoFault ==>
        && outcome == RolledBack
        && orders == old(orders) && orderLines == old(orderLines)
        && nextOrderId == old(nextOrderId) && nextLineId == old(nextLineId)
      ensures fault == NoFault ==>
        && outcome == Committed(old(nextOrderId), old(nextLineId))
        && orders == old(orders) + [Order(old(nextOrderId), req.user.id, timestamp, req.subtotal)]
        && orderLines == old(orderLines) + [OrderLine(old(nextLineId), old(nextOrderId), req.product.id, req.quantity, req.subtotal)]
        && nextOrderId == old(nextOrderId) + 1 && nextLineId == old(nextLineId) + 1
    {
      // BEGIN: snapshot of what the transaction may touch.
      var savedOrders, savedLines := orders, orderLines;
      var savedNextOrder, savedNextLine := nextOrderId, nextLineId;

      var ok := fault != HeaderInsertFails;
      var header := Order(nextOrderId, req.user.id, timestamp, req.subtotal);
      var line := OrderLine(nextLineId, header.id, req.product.id, req.quantity, req.subtotal);
      if ok {
        orders := orders + [header];
        nextOrderId := nextOrderId + 1;
        ok := fault != LineInsertFails;
      }
      if ok {
        // the line points at the header's new id
        orderLines := orderLines + [line];
        nextLineId := nextLineId + 1;
        ok := fault != CommitFails;
      }
      if ok {
        OrderTableAppend(savedOrders, savedNextOrder, header);
        LineTableAppend(savedLines, savedNextLine, line);
        PairedAppend(savedOrders, savedLines, header, line);
        outcome := Committed(header.id, line.id);
      } else {
        // ROLLBACK
        orders, orderLines := savedOrders, savedLines;
        nextOrderId, nextLineId := savedNextOrder, savedNextLine;
        outcome := RolledBack;
      }
    }
  }

  /** The rows `init_db` seeds `productos` with. */
  function SeedCatalog(): (r: seq<Product>)
    ensures UniqueProductIds(r)
  {
    [Product(1, "Camiseta", 20), Product(2, "Pantalón", 35), Product(3, "Zapatillas", 50)]
  }

  // The answers typed in the example session, as the application
  // normalises them; one lemma each keeps every proof small.

  lemma ExampleEmailStripped()
    ensures Strip("a@x.com") == "a@x.com"
  {
    StripUnchanged("a@x.com");
  }

  lemma ExampleEmail()
    ensures AsciiLower(Strip("a@x.com")) == "a@x.com"
  {
    ExampleEmailStripped();
    AsciiLowerFixed("a@x.com");
  }

  lemma ExampleName()
    ensures Strip("Ana") == "Ana"
  {
    StripUnchanged("Ana");
  }

  lemma ExamplePassword()
    ensures Strip("secret123") == "secret123"
  {
    StripUnchanged("secret123");
  }

  lemma ExampleWrongPassword()
    ensures Strip("wrong") == "wrong"
  {
    StripUnchanged("wrong");
  }

  lemma ExampleNumber(n: nat)
    requires n < 10
    ensures ParseInt(Strip([DigitChar(n)])) == Some(n)
  {
    StripUnchanged([DigitChar(n)]);
    ParseNatToString(n);
  }

  /** Ana's row as the example session's registration writes it. */
  ghost predicate AnaAlone(kdf: Kdf, salt: Salt, users: seq<User>) {
    users == [User(1, Strip("Ana"), AsciiLower(Strip("a@x.com")), HashPassword(kdf, Strip("secret123"), salt, DefaultIterations).value)]
  }

  /** Ana's record does not verify the wrong password. */
  lemma ExampleWrongVerify(kdf: Kdf, salt: Salt, users: seq<User>)
    requires kdf("wrong", salt, DefaultIterations) != kdf("secret123", salt, DefaultIterations)
    requires AnaAlone(kdf, salt, users)
    ensures !VerifyPassword(kdf, users[0].record, Strip("wrong"))
  {
    ExamplePassword();
    ExampleWrongPassword();
    VerifyWrongPassword(kdf, Strip("secret123"), Strip("wrong"), salt, DefaultIterations);
  }

  /** Ordering with the wrong password is refused as bad credentials. */
  lemma ExampleRefused(kdf: Kdf, salt: Salt, users: seq<User>)
    requires kdf("wrong", salt, DefaultIterations) != kdf("secret123", salt, DefaultIterations)
    requires AnaAlone(kdf, salt, users)
    ensures CheckOrder(kdf, users, SeedCatalog(), "a@x.com", "wrong", "1", "3") == Failure(BadCredentials)
  {
    ExampleWrongVerify(kdf, salt, users);
    AuthenticateUnique(kdf, users, 0, Strip("wrong"));
  }

  /** Ana, with her own password, is authenticated. */
  lemma ExampleAuthenticated(kdf: Kdf, salt: Salt, users: seq<User>)
    requires AnaAlone(kdf, salt, users)
    ensures Authenticate(kdf, users, AsciiLower(Strip("a@x.com")), Strip("secret123")) == Some(users[0])
  {
    ExampleEmail();
    VerifyHashPassword(kdf, Strip("secret123"), salt, DefaultIterations);
    AuthenticateUnique(kdf, users, 0, Strip("secret123"));
  }

  /** The typed product id and quantity parse, and product 1 exists. */
  lemma ExampleProduct()
    ensures ParseInt(Strip("1")) == Some(1) && ParseInt(Strip("3")) == Some(3)
    ensures FindProduct(SeedCatalog(), 1) == Some(SeedCatalog()[0])
  {
    ExampleNumber(1);
    ExampleNumber(3);
    assert [DigitChar(1)] == "1" && [DigitChar(3)] == "3";
  }

  /** Ordering three of product 1 with the right password is accepted with
      subtotal 60. */
  lemma ExampleAccepted(kdf: Kdf, salt: Salt, users: seq<User>)
    requires AnaAlone(kdf, salt, users)
    ensures CheckOrder(kdf, users, SeedCatalog(), "a@x.com", "secret123", "1", "3")
         == Success(OrderRequest(users[0], SeedCatalog()[0], 3, 60))
  {
    ExampleAuthenticated(kdf, salt, users);
    ExampleProduct();
  }

  /** A session over a freshly seeded database: Ana registers, an order
      with a wrong password is refused without writing, and three of
      product 1 (priced 20) are ordered for a total of 60. */
  method ExampleSession(kdf: Kdf, salt: Salt, timestamp: string)
    returns (registered: RegisterOutcome, refused: OrderOutcome, placed: OrderOutcome, total: int, subtotal: int)
    requires kdf("wrong", salt, DefaultIterations) != kdf("secret123", salt, DefaultIterations)
    ensures registered == Registered(1)
    ensures refused == Rejected(BadCredentials)
    ensures placed == Committed(1, 1)
    ensures total == 60 && subtotal == 60
  {
    var store := new Store(SeedCatalog());
    ExampleName();
    ExampleEmail();
    ExamplePassword();
    registered := store.Register(kdf, "Ana", "a@x.com", "secret123", salt);
    ExampleRefused(kdf, salt, store.users);
    ExampleAccepted(kdf, salt, store.users);
    refused := store.PlaceOrder(kdf, "a@x.com", "wrong", "1", "3", timestamp, NoFault);
    placed := store.PlaceOrder(kdf, "a@x.com", "secret123", "1", "3", timestamp, NoFault);
    total := store.orders[0].total;
    subtotal := store.orderLines[0].subtotal;
  }
}
