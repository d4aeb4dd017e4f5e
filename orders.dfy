/** The order and order-item tables: what checkout writes, and the order
    history page. */
module Orders {
  import opened Rows
  import opened Catalog
  import opened Carts

  /** Orders are never deleted, so an order's id is its position plus one;
      creation ticks strictly increase along the table and stay below the clock. */
  predicate OrdersValid(orders: seq<Order>, clock: nat)
  {
    && (forall k :: 0 <= k < |orders| ==> orders[k].id == k + 1 && orders[k].createdAt < clock)
    && (forall i, j :: 0 <= i < j < |orders| ==> orders[i].createdAt < orders[j].createdAt)
  }

  /** Order items are never deleted either; each one belongs to an existing
      order and has a positive quantity. */
  predicate ItemsValid(items: seq<OrderItem>, orderCount: nat)
  {
    forall k :: 0 <= k < |items| ==>
      items[k].id == k + 1 && 1 <= items[k].orderId <= orderCount && 1 <= items[k].quantity
  }

  /** The order items checkout writes for the cart rows `lines` of order
      `orderId`, one per row, numbered from `firstId`. */
  function ItemsFor(lines: seq<CartItem>, orderId: nat, firstId: nat): (r: seq<OrderItem>)
    ensures |r| == |lines|
    ensures forall k :: 0 <= k < |r| ==> r[k].orderId == orderId && r[k].quantity == lines[k].quantity
  {
    if lines == [] then []
    else
      var n := |lines| - 1;
      ItemsFor(lines[..n], orderId, firstId) + [OrderItem(firstId + n, orderId, lines[n].productId, lines[n].quantity)]
  }

  /** Each cart row becomes the order item at the same position, with the
      same product and quantity and the next item id. */
  lemma {:induction false} ItemsForCopiesLines(lines: seq<CartItem>, orderId: nat, firstId: nat)
    ensures forall k :: 0 <= k < |lines| ==>
      ItemsFor(lines, orderId, firstId)[k] == OrderItem(firstId + k, orderId, lines[k].productId, lines[k].quantity)
  {
    if lines != [] {
      var n := |lines| - 1;
      ItemsForCopiesLines(lines[..n], orderId, firstId);
    }
  }

  /** The sum of the quantities of a list of order items. */
  function ItemQuantities(items: seq<OrderItem>): nat
  {
    if items == [] then 0 else items[0].quantity + ItemQuantities(items[1..])
  }

  lemma {:induction false} ItemQuantitiesAppend(items: seq<OrderItem>, x: OrderItem)
    ensures ItemQuantities(items + [x]) == ItemQuantities(items) + x.quantity
  {
    if items != [] {
      assert (items + [x])[1..] == items[1..] + [x];
      ItemQuantitiesAppend(items[1..], x);
    }
  }

  lemma {:induction false} ItemsForQuantities(lines: seq<CartItem>, orderId: nat, firstId: nat)
    ensures ItemQuantities(ItemsFor(lines, orderId, firstId)) == Quantities(lines)
  {
    if lines != [] {
      var n := |lines| - 1;
      ItemsForQuantities(lines[..n], orderId, firstId);
      ItemQuantitiesAppend(ItemsFor(lines[..n], orderId, firstId),
                           OrderItem(firstId + n, orderId, lines[n].productId, lines[n].quantity));
      assert lines == lines[..n] + [lines[n]];
      QuantitiesAppend(lines[..n], lines[n]);
    }
  }

  /** Checkout conserves the cart: the order items it writes for a user carry,
      in all, as many units as the user's badge count showed. */
  lemma CheckoutConservesUnits(cart: seq<CartItem>, uid: nat, orderId: nat, firstId: nat)
    ensures ItemQuantities(ItemsFor(Lines(cart, uid), orderId, firstId)) == CartCount(cart, uid)
  {
    ItemsForQuantities(Lines(cart, uid), orderId, firstId);
    CartCountIsSumOverLines(cart, uid);
  }

  /** What `checkout` decides before it writes anything: EmptyCart when the
      user has no rows, MissingProduct when a row's product is gone, and
      otherwise the total of the user's cart at current catalog prices. */
  function CheckoutQuote(cart: seq<CartItem>, products: seq<Product>, uid: nat): (r: Result<nat>)
    ensures Lines(cart, uid) == [] <==> r == Err(EmptyCart)
    ensures r.Err? ==> r.error == EmptyCart || r.error.MissingProduct?
    ensures r.Ok? <==> Lines(cart, uid) != [] && Summary(Lines(cart, uid), products).Ok?
    ensures r.Ok? ==> r.value == LinesTotal(Summary(Lines(cart, uid), products).value.lines)
  {
    var lines := Lines(cart, uid);
    if lines == [] then Err(EmptyCart)
    else
      var s := Summary(lines, products);
      if s.Err? then Err(s.error)
      else
        SummaryLines(lines, products);
        Ok(s.value.total)
  }

  /** A new order stamped with the current tick, under the next id, and its
      items, keep both tables valid. */
  lemma PlaceOrderKeepsValid(orders: seq<Order>, clock: nat, items: seq<OrderItem>, o: Order, lines: seq<CartItem>)
    requires OrdersValid(orders, clock) && ItemsValid(items, |orders|)
    requires o.id == |orders| + 1 && o.createdAt == clock
    requires forall c :: c in lines ==> 1 <= c.quantity
    ensures OrdersValid(orders + [o], clock + 1)
    ensures ItemsValid(items + ItemsFor(lines, o.id, |items| + 1), |orders| + 1)
  {
    ItemsForCopiesLines(lines, o.id, |items| + 1);
    var all := items + ItemsFor(lines, o.id, |items| + 1);
    forall k | 0 <= k < |all|
      ensures all[k].id == k + 1 && 1 <= all[k].orderId <= |orders| + 1 && 1 <= all[k].quantity
    {
      if k >= |items| {
        assert lines[k - |items|] in lines;
      }
    }
  }

  /** The user's orders in table order. */
  function OrdersOf(orders: seq<Order>, uid: nat): (r: seq<Order>)
    ensures forall o :: o in r <==> o in orders && o.userId == uid
  {
    if orders == [] then []
    else
      var last := orders[|orders| - 1];
      assert orders == orders[..|orders| - 1] + [last];
      OrdersOf(orders[..|orders| - 1], uid) + (if last.userId == uid then [last] else [])
  }

  predicate Increasing(orders: seq<Order>)
  {
    forall i, j :: 0 <= i < j < |orders| ==> orders[i].createdAt < orders[j].createdAt
  }

  lemma {:induction false} OrdersOfIncreasing(orders: seq<Order>, uid: nat)
    requires Increasing(orders)
    ensures Increasing(OrdersOf(orders, uid))
  {
    if orders != [] {
      var prefix := orders[..|orders| - 1];
      var last := orders[|orders| - 1];
      OrdersOfIncreasing(prefix, uid);
      var kept := OrdersOf(prefix, uid);
      if last.userId == uid {
        var r := kept + [last];
        forall k | 0 <= k < |kept| ensures kept[k].createdAt < last.createdAt {
          assert kept[k] in prefix;
          var j :| 0 <= j < |prefix| && prefix[j] == kept[k];
          assert orders[j] == kept[k];
        }
        forall a, b | 0 <= a < b < |r| ensures r[a].createdAt < r[b].createdAt {
          assert r[a] == kept[a];
          if b < |kept| { assert r[b] == kept[b]; }
        }
      } else {
        assert OrdersOf(orders, uid) == kept + [];
        assert kept + [] == kept;
      }
    }
  }

  function Reverse(s: seq<Order>): (r: seq<Order>)
    ensures |r| == |s|
    ensures forall o :: o in r <==> o in s
  {
    if s == [] then []
    else
      assert s == s[..|s| - 1] + [s[|s| - 1]];
      [s[|s| - 1]] + Reverse(s[..|s| - 1])
  }

  lemma {:induction false} ReverseAt(s: seq<Order>)
    ensures forall k :: 0 <= k < |s| ==> Reverse(s)[k] == s[|s| - 1 - k]
  {
    if s != [] {
      ReverseAt(s[..|s| - 1]);
    }
  }

  /** `Order.query.filter_by(user_id=uid).order_by(Order.created_at.desc())`. */
  function NewestFirst(orders: seq<Order>, uid: nat): (r: seq<Order>)
    ensures |r| == |OrdersOf(orders, uid)|
    ensures forall o :: o in r <==> o in orders && o.userId == uid
  {
    Reverse(OrdersOf(orders, uid))
  }

  /** The history lists exactly the user's orders, newest first. */
  lemma NewestFirstSorted(orders: seq<Order>, clock: nat, uid: nat)
    requires OrdersValid(orders, clock)
    ensures forall o :: o in NewestFirst(orders, uid) <==> o in orders && o.userId == uid
    ensures var r := NewestFirst(orders, uid);
      forall i, j :: 0 <= i < j < |r| ==> r[i].createdAt > r[j].createdAt
  {
    var mine := OrdersOf(orders, uid);
    OrdersOfIncreasing(orders, uid);
    ReverseAt(mine);
    var r := NewestFirst(orders, uid);
    forall o ensures o in r <==> o in mine {
      if o in r {
        var k :| 0 <= k < |r| && r[k] == o;
        assert mine[|mine| - 1 - k] == o;
      }
      if o in mine {
        var k :| 0 <= k < |mine| && mine[k] == o;
        assert r[|mine| - 1 - k] == o;
      }
    }
  }

  /** The items of one order, in table order. */
  function ItemsOf(items: seq<OrderItem>, orderId: nat): (r: seq<OrderItem>)
    ensures forall it :: it in r <==> it in items && it.orderId == orderId
  {
    if items == [] then []
    else
      var last := items[|items| - 1];
      assert items == items[..|items| - 1] + [last];
      ItemsOf(items[..|items| - 1], orderId) + (if last.orderId == orderId then [last] else [])
  }

  lemma {:induction false} ItemsOfNone(items: seq<OrderItem>, orderId: nat)
    requires forall k :: 0 <= k < |items| ==> items[k].orderId != orderId
    ensures ItemsOf(items, orderId) == []
  {
    if items != [] {
      ItemsOfNone(items[..|items| - 1], orderId);
    }
  }

  lemma {:induction false} ItemsOfAppendOwn(items: seq<OrderItem>, more: seq<OrderItem>, orderId: nat)
    requires forall k :: 0 <= k < |items| ==> items[k].orderId != orderId
    requires forall k :: 0 <= k < |more| ==> more[k].orderId == orderId
    ensures ItemsOf(items + more, orderId) == more
  {
    if more == [] {
      assert items + more == items;
      ItemsOfNone(items, orderId);
    } else {
      var n := |more| - 1;
      assert (items + more)[..|items + more| - 1] == items + more[..n];
      ItemsOfAppendOwn(items, more[..n], orderId);
      assert more == more[..n] + [more[n]];
    }
  }

  datatype OrderLine = OrderLine(item: OrderItem, product: Option<Product>)

  datatype OrderView = OrderView(order: Order, lines: seq<OrderLine>)

  /** Each item joined with its product as the catalog has it now; a deleted
      product shows as None. */
  function Join(items: seq<OrderItem>, products: seq<Product>): (r: seq<OrderLine>)
    ensures |r| == |items|
    ensures forall k :: 0 <= k < |r| ==>
      r[k].item == items[k] && (r[k].product.Some? ==> r[k].product.value.id == items[k].productId)
    ensures forall k :: 0 <= k < |r| ==>
      && (r[k].product.None? <==> forall i :: 0 <= i < |products| ==> products[i].id != items[k].productId)
      && (r[k].product.Some? ==> r[k].product.value in products)
  {
    seq(|items|, k requires 0 <= k < |items| => OrderLine(items[k], FindProduct(products, items[k].productId)))
  }

  /** The `orders` page: the user's orders newest first, each with its items. */
  function History(orders: seq<Order>, items: seq<OrderItem>, products: seq<Product>, uid: nat): (r: seq<OrderView>)
    ensures |r| == |OrdersOf(orders, uid)|
    ensures forall k :: 0 <= k < |r| ==> r[k].order in orders && r[k].order.userId == uid
    ensures forall k :: 0 <= k < |r| ==> |r[k].lines| == |ItemsOf(items, r[k].order.id)|
    ensures forall k, m :: 0 <= k < |r| && 0 <= m < |r[k].lines| ==> r[k].lines[m].item == ItemsOf(items, r[k].order.id)[m]
  {
    var mine := NewestFirst(orders, uid);
    seq(|mine|, k requires 0 <= k < |mine| => OrderView(mine[k], Join(ItemsOf(items, mine[k].id), products)))
  }

  /** With orders stamped in increasing order, the `orders` page lists the
      user's orders strictly newest first, every one of them (each once,
      since no two share a stamp), and each with exactly its own items. */
  lemma HistoryNewestFirst(orders: seq<Order>, clock: nat, items: seq<OrderItem>, products: seq<Product>, uid: nat)
    requires OrdersValid(orders, clock)
    ensures var h := History(orders, items, products, uid);
      && (forall i, j :: 0 <= i < j < |h| ==> h[i].order.createdAt > h[j].order.createdAt)
      && (forall o :: o in orders && o.userId == uid ==> exists k :: 0 <= k < |h| && h[k].order == o)
      && (forall k, m :: 0 <= k < |h| && 0 <= m < |h[k].lines| ==> h[k].lines[m].item == ItemsOf(items, h[k].order.id)[m])
      && (forall k :: 0 <= k < |h| ==> |h[k].lines| == |ItemsOf(items, h[k].order.id)|)
  {
    var mine := NewestFirst(orders, uid);
    var h := History(orders, items, products, uid);
    NewestFirstSorted(orders, clock, uid);
    assert forall k :: 0 <= k < |h| ==> h[k].order == mine[k];
    forall o | o in orders && o.userId == uid ensures exists k :: 0 <= k < |h| && h[k].order == o {
      var k :| 0 <= k < |mine| && mine[k] == o;
      assert h[k].order == o;
    }
  }

  /** Right after a checkout, the user's history opens with the new order and
      exactly the items written for it. */
  lemma HistoryAfterCheckout(orders: seq<Order>, clock: nat, items: seq<OrderItem>, products: seq<Product>,
                             o: Order, lines: seq<CartItem>)
    requires OrdersValid(orders, clock) && ItemsValid(items, |orders|)
    requires o.id == |orders| + 1
    ensures var h := History(orders + [o], items + ItemsFor(lines, o.id, |items| + 1), products, o.userId);
      && |h| >= 1
      && h[0] == OrderView(o, Join(ItemsFor(lines, o.id, |items| + 1), products))
  {
    var all := orders + [o];
    assert all[..|all| - 1] == orders;
    assert OrdersOf(all, o.userId) == OrdersOf(orders, o.userId) + [o];
    var more := ItemsFor(lines, o.id, |items| + 1);
    ItemsForCopiesLines(lines, o.id, |items| + 1);
    ItemsOfAppendOwn(items, more, o.id);
  }
}
