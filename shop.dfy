/** The shop's database as one object: the five tables, two id counters that
    stand in for SQLite's choice of a new id in the tables whose rows get
    deleted, and the clock that stamps orders. Each route handler that
    writes is a method; each one is proved to leave the tables in the state
    the specification functions of the other modules describe. */
module Store {
  import opened Rows
  import opened Catalog
  import opened Accounts
  import opened Carts
  import opened Orders

  /** How checkout takes payment. Simulated when the payment library or one
      of its two keys is missing; otherwise the gateway, whose payment-intent
      call, given the amount in paise and the user id, succeeds or fails. */
  datatype Payment = Simulated | Gateway(createIntent: (nat, nat) -> bool)

  class Shop {
    var products: seq<Product>
    var users: seq<User>
    var cart: seq<CartItem>
    var orders: seq<Order>
    var orderItems: seq<OrderItem>
    /** The id the next product row gets. */
    var nextProductId: nat
    /** The id the next cart row gets. */
    var nextCartId: nat
    /** The tick the next order is stamped with. */
    var clock: nat

    ghost predicate Valid()
      reads this
    {
      && CatalogValid(products, nextProductId)
      && UsersValid(users)
      && CartValid(cart, nextCartId)
      && OrdersValid(orders, clock)
      && ItemsValid(orderItems, |orders|)
    }

    /** `db.create_all()` on a fresh database. */
    constructor ()
      ensures Valid()
      ensures products == [] && users == [] && cart == [] && orders == [] && orderItems == []
      ensures nextProductId == 1 && nextCartId == 1 && clock == 0
    {
      products, users, cart, orders, orderItems := [], [], [], [], [];
      nextProductId, nextCartId, clock := 1, 1, 0;
    }

    /** `Product.query.get(pid)`, as a scan of the table. */
    method LocateProduct(pid: nat) returns (r: Option<nat>)
      ensures r == ProductIndex(products, pid)
    {
      var i := 0;
      while i < |products|
        invariant 0 <= i <= |products|
        invariant forall k :: 0 <= k < i ==> products[k].id != pid
      {
        if products[i].id == pid {
          return Some(i);
        }
        i := i + 1;
      }
      return None;
    }

    /** `Product.query.get(pid)`. */
    method GetProduct(pid: nat) returns (r: Option<Product>)
      ensures r == FindProduct(products, pid)
    {
      var i := LocateProduct(pid);
      r := if i.Some? then Some(products[i.value]) else None;
    }

    /** `admin` (POST): name, price and an image are all required, and the
        image's sanitised file name (`image`) must not be empty; the new row
        takes the next product id. */
    method AddProduct(name: string, price: Option<nat>, description: Option<string>, image: Option<string>)
      returns (r: Result<nat>)
      requires Valid()
      modifies this
      ensures Valid()
      ensures name == [] || price.None? || image.None? ==> r == Err(MissingFields)
      ensures name != [] && price.Some? && image == Some([]) ==> r == Err(InvalidFilename)
      ensures r.Err? ==> unchanged(this)
      ensures name != [] && price.Some? && image.Some? && image.value != [] ==>
        && r == Ok(old(nextProductId))
        && products == old(products) + [Product(old(nextProductId), name, description, price.value, ImagePrefix + image.value)]
        && FindProduct(products, r.value) == Some(products[|products| - 1])
        && nextProductId == old(nextProductId) + 1
      ensures users == old(users) && cart == old(cart) && orders == old(orders) && orderItems == old(orderItems)
      ensures nextCartId == old(nextCartId) && clock == old(clock)
    {
      if name == [] || price.None? || image.None? {
        return Err(MissingFields);
      }
      if image.value == [] {
        return Err(InvalidFilename);
      }
      var p := Product(nextProductId, name, description, price.value, ImagePrefix + image.value);
      AppendProductEffect(products, nextProductId, p);
      products := products + [p];
      nextProductId := nextProductId + 1;
      r := Ok(p.id);
    }

    /** `delete_product(pid)`: the row goes when there is one. Cart rows that
        point at it stay, as in the source. */
    method DeleteProduct(pid: nat)
      requires Valid()
      modifies this
      ensures Valid()
      ensures products == WithoutProduct(old(products), pid)
      ensures users == old(users) && cart == old(cart) && orders == old(orders) && orderItems == old(orderItems)
      ensures nextProductId == old(nextProductId) && nextCartId == old(nextCartId) && clock == old(clock)
    {
      var i := LocateProduct(pid);
      DeleteProductEffect(products, nextProductId, pid);
      if i.Some? {
        products := products[..i.value] + products[i.value + 1..];
      }
      assert CatalogValid(products, nextProductId);
    }

    /** `edit_product(pid)` (POST): NotFound without a row; otherwise the row
        is overwritten in place, its image only when a new file came with the
        form (`image` is then its sanitised name). A new file whose sanitised
        name is empty makes saving it fail before the commit, so nothing
        changes. */
    method EditProduct(pid: nat, name: string, price: nat, description: Option<string>, image: Option<string>)
      returns (r: Result<Product>)
      requires Valid()
      modifies this
      ensures Valid()
      ensures ProductIndex(old(products), pid).None? ==> r == Err(NotFound) && unchanged(this)
      ensures ProductIndex(old(products), pid).Some? && image == Some([]) ==>
        r == Err(InvalidFilename) && unchanged(this)
      ensures ProductIndex(old(products), pid).Some? && image != Some([]) ==>
        var i := ProductIndex(old(products), pid).value;
        var e := Edited(old(products)[i], name, price, description, image);
        && r == Ok(e)
        && products == old(products)[i := e]
        && FindProduct(products, pid) == Some(e)
      ensures users == old(users) && cart == old(cart) && orders == old(orders) && orderItems == old(orderItems)
      ensures nextProductId == old(nextProductId) && nextCartId == old(nextCartId) && clock == old(clock)
    {
      var i := LocateProduct(pid);
      if i.None? {
        return Err(NotFound);
      }
      if image == Some([]) {
        return Err(InvalidFilename);
      }
      var e := Edited(products[i.value], name, price, description, image);
      EditProductEffect(products, nextProductId, i.value, name, price, description, image);
      products := products[i.value := e];
      r := Ok(e);
    }

    /** `User.query.filter_by(email=email).first()` finds a row. */
    method EmailInUse(email: string) returns (b: bool)
      ensures b == HasEmail(users, email)
    {
      var i := 0;
      while i < |users|
        invariant 0 <= i <= |users|
        invariant forall k :: 0 <= k < i ==> users[k].email != email
      {
        if users[i].email == email {
          return true;
        }
        i := i + 1;
      }
      return false;
    }

    /** `register` (POST): the two passwords must agree and the email must be
        new; the user is then added under the next id, which the session
        takes. */
    method Register(name: string, email: string, password: string, confirmation: string)
      returns (r: Result<nat>)
      requires Valid()
      modifies this
      ensures Valid()
      ensures password != confirmation ==> r == Err(PasswordMismatch)
      ensures password == confirmation && HasEmail(old(users), email) ==> r == Err(EmailTaken)
      ensures r.Err? ==> unchanged(this)
      ensures password == confirmation && !HasEmail(old(users), email) ==>
        && r == Ok(|old(users)| + 1)
        && users == WithUser(old(users), name, email, password)
        && Authenticate(users, email, password) == r
      ensures products == old(products) && cart == old(cart) && orders == old(orders) && orderItems == old(orderItems)
      ensures nextProductId == old(nextProductId) && nextCartId == old(nextCartId) && clock == old(clock)
    {
      if password != confirmation {
        return Err(PasswordMismatch);
      }
      var taken := EmailInUse(email);
      if taken {
        return Err(EmailTaken);
      }
      RegisterKeepsUsersValid(users, name, email, password);
      AuthenticateAfterFreshEmail(users, User(|users| + 1, name, email, password), password);
      users := WithUser(users, name, email, password);
      r := Ok(|users|);
    }

    /** `login` (POST): the first user with both that email and that password. */
    method Login(email: string, password: string) returns (r: Result<nat>)
      ensures r == Authenticate(users, email, password)
    {
      var i := 0;
      while i < |users|
        invariant 0 <= i <= |users|
        invariant Authenticate(users, email, password) == Authenticate(users[i..], email, password)
      {
        var rest := users[i..];
        assert rest[0] == users[i] && rest[1..] == users[i + 1..];
        if Credentials(users[i], email, password) {
          return Ok(users[i].id);
        }
        i := i + 1;
      }
      return Err(InvalidLogin);
    }

    /** `CartItem.query.filter_by(user_id=uid, product_id=pid).first()`. */
    method LocateRow(uid: nat, pid: nat) returns (r: Option<nat>)
      ensures r == RowIndex(cart, uid, pid)
    {
      var i := 0;
      while i < |cart|
        invariant 0 <= i <= |cart|
        invariant forall k :: 0 <= k < i ==> !IsRow(cart[k], uid, pid)
      {
        if IsRow(cart[i], uid, pid) {
          return Some(i);
        }
        i := i + 1;
      }
      return None;
    }

    /** `add_to_cart(pid)` by user `uid`: one more of the product, in the
        existing row or in a new row under the next cart id. The product is
        not looked up, as in the source. */
    method AddToCart(uid: nat, pid: nat)
      requires Valid()
      modifies this
      ensures Valid()
      ensures cart == CartAfterAdd(old(cart), uid, pid, old(nextCartId))
      ensures nextCartId == if RowIndex(old(cart), uid, pid).Some? then old(nextCartId) else old(nextCartId) + 1
      ensures Quantity(cart, uid, pid) == Quantity(old(cart), uid, pid) + 1
      ensures products == old(products) && users == old(users) && orders == old(orders) && orderItems == old(orderItems)
      ensures nextProductId == old(nextProductId) && clock == old(clock)
    {
      var i := LocateRow(uid, pid);
      AddToCartKeepsValid(cart, nextCartId, uid, pid);
      var after := CartAfterAdd(cart, uid, pid, nextCartId);
      var next := nextCartId;
      if i.Some? {
        var k := i.value;
        assert after == cart[k := cart[k].(quantity := cart[k].quantity + 1)];
      } else {
        assert after == cart + [CartItem(nextCartId, uid, pid, 1)];
        next := nextCartId + 1;
      }
      assert CartValid(after, next);
      cart, nextCartId := after, next;
      assert Valid();
    }

    /** `remove_from_cart(pid)` by user `uid`: the whole row goes, whatever
        its quantity. */
    method RemoveFromCart(uid: nat, pid: nat)
      requires Valid()
      modifies this
      ensures Valid()
      ensures cart == CartAfterRemove(old(cart), uid, pid)
      ensures Quantity(cart, uid, pid) == 0
      ensures products == old(products) && users == old(users) && orders == old(orders) && orderItems == old(orderItems)
      ensures nextProductId == old(nextProductId) && nextCartId == old(nextCartId) && clock == old(clock)
    {
      var i := LocateRow(uid, pid);
      RemoveFromCartEffect(cart, nextCartId, uid, pid);
      var after := cart;
      if i.Some? {
        after := cart[..i.value] + cart[i.value + 1..];
      }
      assert after == CartAfterRemove(cart, uid, pid);
      assert CartValid(after, nextCartId);
      cart := after;
      assert Valid();
    }

    /** `CartItem.query.filter_by(user_id=uid).all()`. */
    method UserRows(uid: nat) returns (items: seq<CartItem>)
      ensures items == Lines(cart, uid)
    {
      items := [];
      var i := 0;
      while i < |cart|
        invariant 0 <= i <= |cart|
        invariant items == Lines(cart[..i], uid)
      {
        assert cart[..i + 1][..i] == cart[..i];
        if cart[i].userId == uid {
          items := items + [cart[i]];
        }
        i := i + 1;
      }
      assert cart[..i] == cart;
    }

    /** The loop of the `cart` page and of `checkout`: each row joined with its
        product, and the running total. */
    method Price(items: seq<CartItem>) returns (r: Result<CartSummary>)
      ensures r == Summary(items, products)
    {
      var lines: seq<CartLine> := [];
      var total: nat := 0;
      var i := 0;
      while i < |items|
        invariant 0 <= i <= |items|
        invariant Summary(items[..i], products) == Ok(CartSummary(lines, total))
      {
        assert items[..i + 1] == items[..i] + [items[i]];
        var found := GetProduct(items[i].productId);
        if found.None? {
          SummarySnocMissing(items[..i], items[i], products);
          SummaryKeepsError(items, products, i + 1);
          return Err(MissingProduct(items[i].productId));
        }
        var p := found.value;
        SummarySnocFound(items[..i], items[i], products, CartSummary(lines, total), p);
        lines := lines + [CartLine(p, items[i].quantity)];
        total := total + p.price * items[i].quantity;
        i := i + 1;
      }
      assert items[..i] == items;
      r := Ok(CartSummary(lines, total));
    }

    /** The `cart` page for user `uid`. */
    method ViewCart(uid: nat) returns (r: Result<CartSummary>)
      ensures r == Summary(Lines(cart, uid), products)
    {
      var items := UserRows(uid);
      r := Price(items);
    }

    /** The order-item table once the items of order `orderId` are added, one
        per row of `lines`, under the next item ids. */
    method ItemsToWrite(lines: seq<CartItem>, orderId: nat) returns (written: seq<OrderItem>)
      ensures written == orderItems + ItemsFor(lines, orderId, |orderItems| + 1)
    {
      written := orderItems;
      var k := 0;
      while k < |lines|
        invariant 0 <= k <= |lines|
        invariant written == orderItems + ItemsFor(lines[..k], orderId, |orderItems| + 1)
      {
        assert lines[..k + 1][..k] == lines[..k] && lines[..k + 1][k] == lines[k];
        written := written + [OrderItem(|written| + 1, orderId, lines[k].productId, lines[k].quantity)];
        k := k + 1;
      }
      assert lines[..k] == lines;
    }

    /** The cart table once every row of user `uid` is deleted. */
    method RowsKept(uid: nat) returns (kept: seq<CartItem>)
      ensures kept == WithoutUser(cart, uid)
    {
      kept := [];
      var j := 0;
      while j < |cart|
        invariant 0 <= j <= |cart|
        invariant kept == WithoutUser(cart[..j], uid)
      {
        assert cart[..j + 1][..j] == cart[..j];
        if cart[j].userId != uid {
          kept := kept + [cart[j]];
        }
        j := j + 1;
      }
      assert cart[..j] == cart;
    }

    /** `db.session.add(order)`: the order goes in under the next order id,
        stamped with the current tick. */
    method RecordOrder(uid: nat, total: nat, address: string, phone: string, status: Status)
      returns (o: Order)
      requires Valid()
      modifies this
      ensures Valid()
      ensures o == Order(|old(orders)| + 1, uid, total, address, phone, status, old(clock))
      ensures orders == old(orders) + [o] && clock == old(clock) + 1
      ensures products == old(products) && users == old(users) && cart == old(cart) && orderItems == old(orderItems)
      ensures nextProductId == old(nextProductId) && nextCartId == old(nextCartId)
    {
      o := Order(|orders| + 1, uid, total, address, phone, status, clock);
      PlaceOrderKeepsValid(orders, clock, orderItems, o, []);
      assert orderItems + ItemsFor([], o.id, |orderItems| + 1) == orderItems;
      orders, clock := orders + [o], clock + 1;
    }

    /** One `OrderItem` per cart row of `lines` for the existing order `orderId`. */
    method RecordItems(lines: seq<CartItem>, orderId: nat)
      requires Valid()
      requires 1 <= orderId <= |orders|
      requires forall c :: c in lines ==> 1 <= c.quantity
      modifies this
      ensures Valid()
      ensures orderItems == old(orderItems) + ItemsFor(lines, orderId, |old(orderItems)| + 1)
      ensures products == old(products) && users == old(users) && cart == old(cart) && orders == old(orders)
      ensures nextProductId == old(nextProductId) && nextCartId == old(nextCartId) && clock == old(clock)
    {
      var written := ItemsToWrite(lines, orderId);
      ItemsForCopiesLines(lines, orderId, |orderItems| + 1);
      forall k | 0 <= k < |written|
        ensures written[k].id == k + 1 && 1 <= written[k].orderId <= |orders| && 1 <= written[k].quantity
      {
        if k >= |orderItems| {
          assert lines[k - |orderItems|] in lines;
        }
      }
      orderItems := written;
    }

    /** `db.session.delete(it)` for every cart row of user `uid`. */
    method ClearCart(uid: nat)
      requires Valid()
      modifies this
      ensures Valid()
      ensures cart == WithoutUser(old(cart), uid)
      ensures products == old(products) && users == old(users) && orders == old(orders) && orderItems == old(orderItems)
      ensures nextProductId == old(nextProductId) && nextCartId == old(nextCartId) && clock == old(clock)
    {
      var kept := RowsKept(uid);
      WithoutUserKeepsValid(cart, nextCartId, uid);
      cart := kept;
    }

    /** What both payment paths of `checkout` write: the order, one order item
        per cart row, and the user's cart emptied. */
    method PlaceOrder(uid: nat, lines: seq<CartItem>, total: nat, address: string, phone: string, status: Status)
      returns (o: Order)
      requires Valid()
      requires lines == Lines(cart, uid)
      modifies this
      ensures Valid()
      ensures o == Order(|old(orders)| + 1, uid, total, address, phone, status, old(clock))
      ensures orders == old(orders) + [o] && clock == old(clock) + 1
      ensures orderItems == old(orderItems) + ItemsFor(lines, o.id, |old(orderItems)| + 1)
      ensures cart == WithoutUser(old(cart), uid)
      ensures products == old(products) && users == old(users)
      ensures nextProductId == old(nextProductId) && nextCartId == old(nextCartId)
    {
      LinesArePositive(cart, nextCartId, uid);
      o := RecordOrder(uid, total, address, phone, status);
      RecordItems(lines, o.id);
      ClearCart(uid);
    }

    /** The part of `checkout` before any write: the user's rows and the
        decision on them. */
    method Quote(uid: nat) returns (lines: seq<CartItem>, r: Result<nat>)
      ensures lines == Lines(cart, uid)
      ensures r == CheckoutQuote(cart, products, uid)
    {
      lines := UserRows(uid);
      if lines == [] {
        return lines, Err(EmptyCart);
      }
      var s := Price(lines);
      if s.Err? {
        return lines, Err(s.error);
      }
      r := Ok(s.value.total);
    }

    /** `checkout` (POST) by user `uid`: an empty cart and a row whose product
        is gone are refused, and so is a failed payment intent, all before
        anything is written; otherwise the order is placed with the cart's
        total, 'placed' when payment is simulated and 'pending' through the
        gateway. */
    method Checkout(uid: nat, address: string, phone: string, payment: Payment) returns (r: Result<Order>)
      requires Valid()
      modifies this
      ensures Valid()
      ensures r.Err? ==> unchanged(this)
      ensures CheckoutQuote(old(cart), old(products), uid).Err? ==>
        r == Err(CheckoutQuote(old(cart), old(products), uid).error)
      ensures CheckoutQuote(old(cart), old(products), uid).Ok? ==>
        var total := CheckoutQuote(old(cart), old(products), uid).value;
        if payment.Gateway? && !payment.createIntent(total, uid) then r == Err(GatewayError)
        else
          && r == Ok(Order(|old(orders)| + 1, uid, total, address, phone,
                           if payment.Simulated? then Placed else Pending, old(clock)))
          && orders == old(orders) + [r.value]
          && orderItems == old(orderItems) + ItemsFor(Lines(old(cart), uid), r.value.id, |old(orderItems)| + 1)
          && cart == WithoutUser(old(cart), uid)
          && clock == old(clock) + 1
          && products == old(products) && users == old(users)
          && nextProductId == old(nextProductId) && nextCartId == old(nextCartId)
    {
      var lines, quote := Quote(uid);
      if quote.Err? {
        return Err(quote.error);
      }
      var total := quote.value;
      var status := Placed;
      if payment.Gateway? {
        if !payment.createIntent(total, uid) {
          assert Valid();
          return Err(GatewayError);
        }
        status := Pending;
      }
      var o := PlaceOrder(uid, lines, total, address, phone, status);
      assert Valid();
      r := Ok(o);
    }

    /** The `orders` page for user `uid`: the user's orders newest first, each
        with its items joined to the catalog. */
    method OrderHistory(uid: nat) returns (h: seq<OrderView>)
      ensures h == History(orders, orderItems, products, uid)
    {
      var mine := NewestFirst(orders, uid);
      ghost var all := History(orders, orderItems, products, uid);
      h := [];
      var k := 0;
      while k < |mine|
        invariant 0 <= k <= |mine| == |all|
        invariant h == all[..k]
      {
        var items := ItemsOfOrder(mine[k].id);
        var joined := JoinItems(items);
        assert all[k] == OrderView(mine[k], joined);
        h := h + [OrderView(mine[k], joined)];
        k := k + 1;
      }
      assert all[..k] == all;
    }

    /** `OrderItem.query.filter_by(order_id=orderId).all()`. */
    method ItemsOfOrder(orderId: nat) returns (items: seq<OrderItem>)
      ensures items == ItemsOf(orderItems, orderId)
    {
      items := [];
      var i := 0;
      while i < |orderItems|
        invariant 0 <= i <= |orderItems|
        invariant items == ItemsOf(orderItems[..i], orderId)
      {
        assert orderItems[..i + 1][..i] == orderItems[..i];
        if orderItems[i].orderId == orderId {
          items := items + [orderItems[i]];
        }
        i := i + 1;
      }
      assert orderItems[..i] == orderItems;
    }

    /** Each item with `Product.query.get(item.product_id)`. */
    method JoinItems(items: seq<OrderItem>) returns (lines: seq<OrderLine>)
      ensures lines == Join(items, products)
    {
      lines := [];
      var i := 0;
      while i < |items|
        invariant 0 <= i <= |items|
        invariant |lines| == i
        invariant forall n :: 0 <= n < i ==> lines[n] == OrderLine(items[n], FindProduct(products, items[n].productId))
      {
        var p := GetProduct(items[i].productId);
        lines := lines + [OrderLine(items[i], p)];
        i := i + 1;
      }
    }
  }

  /** The cart values the worked example's two adds pass through. */
  lemma ExampleCartTables(c: CartItem)
    requires c == CartItem(1, 1, 1, 2)
    ensures RowIndex([], 1, 1) == None
    ensures RowIndex([CartItem(1, 1, 1, 1)], 1, 1) == Some(0)
    ensures CartAfterAdd([], 1, 1, 1) == [CartItem(1, 1, 1, 1)]
    ensures CartAfterAdd([CartItem(1, 1, 1, 1)], 1, 1, 2) == [c]
  {
  }

  /** The table values the worked example's cart page and checkout pass through. */
  lemma ExampleCheckoutTables(p: Product, c: CartItem)
    requires p == Product(1, "Demo", None, 10000, ImagePrefix + "demo.jpg")
    requires c == CartItem(1, 1, 1, 2)
    ensures Lines([c], 1) == [c]
    ensures Summary([c], [p]) == Ok(CartSummary([CartLine(p, 2)], 20000))
    ensures CheckoutQuote([c], [p], 1) == Ok(20000)
    ensures ItemsFor([c], 1, 1) == [OrderItem(1, 1, 1, 2)]
    ensures WithoutUser([c], 1) == []
    ensures CartCount([], 1) == 0
  {
    assert [c][..0] == [];
    assert FindProduct([p], 1) == Some(p);
    assert Summary([], [p]) == Ok(CartSummary([], 0));
    assert [] + [CartLine(p, 2)] == [CartLine(p, 2)];
  }

  /** The first half of the worked example on a fresh database: a user
      registers and adds the same product, priced 100.00, twice. */
  method ExampleSetup() returns (shop: Shop)
    ensures fresh(shop) && shop.Valid()
    ensures shop.products == [Product(1, "Demo", None, 10000, ImagePrefix + "demo.jpg")]
    ensures shop.cart == [CartItem(1, 1, 1, 2)]
    ensures shop.orders == [] && shop.orderItems == [] && shop.clock == 0
  {
    var p := Product(1, "Demo", None, 10000, ImagePrefix + "demo.jpg");
    ExampleCartTables(CartItem(1, 1, 1, 2));
    shop := new Shop();
    var u := shop.Register("A", "a@b.com", "x", "x");
    var id := shop.AddProduct("Demo", Some(10000), None, Some("demo.jpg"));
    assert shop.products == [] + [p];
    shop.AddToCart(1, 1);
    shop.AddToCart(1, 1);
  }

  /** A worked example, its cart page: after the setup above the cart shows
      one row of quantity 2 and a total of 200.00. */
  method ExampleCartPage() returns (row: CartItem, quote: nat)
    ensures row == CartItem(1, 1, 1, 2)
    ensures quote == 20000
  {
    ExampleCheckoutTables(Product(1, "Demo", None, 10000, ImagePrefix + "demo.jpg"), CartItem(1, 1, 1, 2));
    var shop := ExampleSetup();
    row := shop.cart[0];
    var view := shop.ViewCart(1);
    quote := view.value.total;
  }

  /** The same example's checkout: without a gateway it places an order of
      200.00 with one item of quantity 2, and the badge drops to 0. */
  method ExampleCheckout() returns (o: Order, written: seq<OrderItem>, badge: nat)
    ensures o.total == 20000 && o.status == Placed && o.userId == 1
    ensures written == [OrderItem(1, 1, 1, 2)]
    ensures badge == 0
  {
    ExampleCheckoutTables(Product(1, "Demo", None, 10000, ImagePrefix + "demo.jpg"), CartItem(1, 1, 1, 2));
    var shop := ExampleSetup();
    var r := shop.Checkout(1, "Main Street 1", "5550100", Simulated);
    o := r.value;
    written := shop.orderItems;
    badge := CartCount(shop.cart, 1);
  }
}
