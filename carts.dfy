/** The cart table: one row per (user, product) with a positive quantity,
    the header badge count, and the cart page's join with the catalog. */
module Carts {
  import opened Rows
  import opened Catalog

  predicate IsRow(c: CartItem, uid: nat, pid: nat)
  {
    c.userId == uid && c.productId == pid
  }

  /** No two rows are for the same (user, product) pair. */
  predicate UniquePairs(cart: seq<CartItem>)
  {
    forall i, j :: 0 <= i < j < |cart| ==> !IsRow(cart[j], cart[i].userId, cart[i].productId)
  }

  /** Quantities are at least 1, ids strictly increase and stay below the
      next id the table hands out, and pairs are unique. */
  predicate CartValid(cart: seq<CartItem>, nextId: nat)
  {
    && (forall i :: 0 <= i < |cart| ==> 1 <= cart[i].quantity && cart[i].id < nextId)
    && (forall i, j :: 0 <= i < j < |cart| ==> cart[i].id < cart[j].id)
    && UniquePairs(cart)
  }

  /** Position of the first row for (uid, pid). */
  function RowIndex(cart: seq<CartItem>, uid: nat, pid: nat): (r: Option<nat>)
    ensures r.Some? ==> r.value < |cart| && IsRow(cart[r.value], uid, pid)
    ensures r.Some? ==> forall i :: 0 <= i < r.value ==> !IsRow(cart[i], uid, pid)
    ensures r.None? <==> forall i :: 0 <= i < |cart| ==> !IsRow(cart[i], uid, pid)
  {
    if cart == [] then None
    else if IsRow(cart[0], uid, pid) then Some(0)
    else match RowIndex(cart[1..], uid, pid)
      case None => None
      case Some(i) => Some(i + 1)
  }

  /** Appending a row cannot change where an earlier row for the pair is found. */
  lemma {:induction false} RowIndexAppend(cart: seq<CartItem>, x: CartItem, uid: nat, pid: nat)
    ensures RowIndex(cart + [x], uid, pid)
         == if RowIndex(cart, uid, pid).Some? then RowIndex(cart, uid, pid)
            else if IsRow(x, uid, pid) then Some(|cart|) else None
  {
    if cart != [] {
      assert (cart + [x])[1..] == cart[1..] + [x];
      RowIndexAppend(cart[1..], x, uid, pid);
    }
  }

  /** How many of product `pid` user `uid` has in the cart (0 without a row). */
  function Quantity(cart: seq<CartItem>, uid: nat, pid: nat): nat
  {
    match RowIndex(cart, uid, pid)
    case Some(i) => cart[i].quantity
    case None => 0
  }

  /** With unique pairs, a row's quantity is what its pair reports. */
  lemma QuantityByMember(cart: seq<CartItem>, c: CartItem)
    requires UniquePairs(cart)
    requires c in cart
    ensures Quantity(cart, c.userId, c.productId) == c.quantity
  {
    var j :| 0 <= j < |cart| && cart[j] == c;
    var i := RowIndex(cart, c.userId, c.productId).value;
    assert i == j;
  }

  /** Two carts with unique pairs holding the same rows for (uid, pid) report
      the same quantity for it. */
  lemma SameRowsSameQuantity(a: seq<CartItem>, b: seq<CartItem>, uid: nat, pid: nat)
    requires UniquePairs(a) && UniquePairs(b)
    requires forall c :: c in a && IsRow(c, uid, pid) <==> c in b && IsRow(c, uid, pid)
    ensures Quantity(a, uid, pid) == Quantity(b, uid, pid)
  {
    if exists c :: c in a && IsRow(c, uid, pid) {
      var c :| c in a && IsRow(c, uid, pid);
      QuantityByMember(a, c);
      QuantityByMember(b, c);
    } else {
      forall k | 0 <= k < |b| ensures !IsRow(b[k], uid, pid) {
        assert b[k] in b;
      }
      forall k | 0 <= k < |a| ensures !IsRow(a[k], uid, pid) {
        assert a[k] in a;
      }
    }
  }

  /** The table after `add_to_cart(pid)` by user `uid`: the pair's row gets one
      more, or a row with quantity 1 is appended under the id `freshId`. */
  function CartAfterAdd(cart: seq<CartItem>, uid: nat, pid: nat, freshId: nat): (r: seq<CartItem>)
    ensures |r| == if RowIndex(cart, uid, pid).Some? then |cart| else |cart| + 1
    ensures forall k :: 0 <= k < |cart| && !IsRow(cart[k], uid, pid) ==> r[k] == cart[k]
    ensures exists k :: 0 <= k < |r| && IsRow(r[k], uid, pid) && r[k].quantity == Quantity(cart, uid, pid) + 1
  {
    match RowIndex(cart, uid, pid)
    case Some(i) =>
      var r := cart[i := cart[i].(quantity := cart[i].quantity + 1)];
      assert IsRow(r[i], uid, pid);
      r
    case None =>
      var r := cart + [CartItem(freshId, uid, pid, 1)];
      assert IsRow(r[|cart|], uid, pid) && r[|cart|].quantity == 1;
      r
  }

  /** The table after `remove_from_cart(pid)` by user `uid`. */
  function CartAfterRemove(cart: seq<CartItem>, uid: nat, pid: nat): (r: seq<CartItem>)
    ensures |r| == if RowIndex(cart, uid, pid).Some? then |cart| - 1 else |cart|
    ensures RowIndex(cart, uid, pid).None? ==> r == cart
    ensures RowIndex(cart, uid, pid).Some? ==>
      multiset(r) + multiset{cart[RowIndex(cart, uid, pid).value]} == multiset(cart)
  {
    match RowIndex(cart, uid, pid)
    case Some(i) =>
      var r := cart[..i] + cart[i + 1..];
      assert cart == cart[..i] + [cart[i]] + cart[i + 1..];
      r
    case None => cart
  }

  /** Adding keeps the table valid (a new row takes the next id), raises the
      pair's quantity by exactly one, and leaves every other pair as it was. */
  lemma AddToCartEffect(cart: seq<CartItem>, nextId: nat, uid: nat, pid: nat)
    requires CartValid(cart, nextId)
    ensures var after := CartAfterAdd(cart, uid, pid, nextId);
      && CartValid(after, if RowIndex(cart, uid, pid).Some? then nextId else nextId + 1)
      && Quantity(after, uid, pid) == Quantity(cart, uid, pid) + 1
      && forall u: nat, q: nat :: (u, q) != (uid, pid) ==> Quantity(after, u, q) == Quantity(cart, u, q)
  {
    match RowIndex(cart, uid, pid)
    case Some(i) =>
      BumpRowEffect(cart, nextId, i);
    case None =>
      AppendRowEffect(cart, nextId, uid, pid);
  }

  /** The part of `AddToCartEffect` the add handler needs: validity and the
      pair's new quantity. */
  lemma AddToCartKeepsValid(cart: seq<CartItem>, nextId: nat, uid: nat, pid: nat)
    requires CartValid(cart, nextId)
    ensures var after := CartAfterAdd(cart, uid, pid, nextId);
      && CartValid(after, if RowIndex(cart, uid, pid).Some? then nextId else nextId + 1)
      && Quantity(after, uid, pid) == Quantity(cart, uid, pid) + 1
  {
    AddToCartEffect(cart, nextId, uid, pid);
  }

  /** One more in row `i`: the table stays valid, the row's pair goes up by
      one and every other pair is unchanged. */
  lemma BumpRowEffect(cart: seq<CartItem>, nextId: nat, i: nat)
    requires CartValid(cart, nextId)
    requires i < |cart|
    ensures var after := cart[i := cart[i].(quantity := cart[i].quantity + 1)];
      && CartValid(after, nextId)
      && Quantity(after, cart[i].userId, cart[i].productId) == cart[i].quantity + 1
      && Quantity(cart, cart[i].userId, cart[i].productId) == cart[i].quantity
      && forall u: nat, q: nat :: (u, q) != (cart[i].userId, cart[i].productId) ==> Quantity(after, u, q) == Quantity(cart, u, q)
  {
    var after := cart[i := cart[i].(quantity := cart[i].quantity + 1)];
    assert after[i] == cart[i].(quantity := cart[i].quantity + 1);
    assert cart[i] in cart;
    QuantityByMember(cart, cart[i]);
    QuantityByMember(after, after[i]);
    forall u: nat, q: nat | (u, q) != (cart[i].userId, cart[i].productId)
      ensures Quantity(after, u, q) == Quantity(cart, u, q)
    {
      forall c ensures c in after && IsRow(c, u, q) <==> c in cart && IsRow(c, u, q) {
        if c in after && IsRow(c, u, q) {
          var k :| 0 <= k < |after| && after[k] == c;
          assert cart[k] == c;
        }
        if c in cart && IsRow(c, u, q) {
          var k :| 0 <= k < |cart| && cart[k] == c;
          assert after[k] == c;
        }
      }
      SameRowsSameQuantity(after, cart, u, q);
    }
  }

  /** A first row for (uid, pid), under the next id: the table stays valid
      for the id after it, the pair has quantity 1 and every other pair is
      unchanged. */
  lemma AppendRowEffect(cart: seq<CartItem>, nextId: nat, uid: nat, pid: nat)
    requires CartValid(cart, nextId)
    requires RowIndex(cart, uid, pid).None?
    ensures var after := cart + [CartItem(nextId, uid, pid, 1)];
      && CartValid(after, nextId + 1)
      && Quantity(after, uid, pid) == 1
      && forall u: nat, q: nat :: (u, q) != (uid, pid) ==> Quantity(after, u, q) == Quantity(cart, u, q)
  {
    var x := CartItem(nextId, uid, pid, 1);
    var after := cart + [x];
    assert after[|cart|] == x;
    QuantityByMember(after, x);
    forall u: nat, q: nat | (u, q) != (uid, pid) ensures Quantity(after, u, q) == Quantity(cart, u, q) {
      assert forall c :: c in after <==> c in cart || c == x;
      SameRowsSameQuantity(after, cart, u, q);
    }
  }


  /** Cutting row `i` out keeps the table valid and keeps every other row. */
  lemma RemoveAtKeepsRows(cart: seq<CartItem>, nextId: nat, i: nat)
    requires CartValid(cart, nextId)
    requires i < |cart|
    ensures CartValid(cart[..i] + cart[i + 1..], nextId)
    ensures forall c :: c in cart[..i] + cart[i + 1..] <==> c in cart && c != cart[i]
  {
    RemoveAtKeepsValid(cart, nextId, i);
    RemoveAtKeepsOthers(cart, nextId, i);
  }

  lemma RemoveAtKeepsValid(cart: seq<CartItem>, nextId: nat, i: nat)
    requires CartValid(cart, nextId)
    requires i < |cart|
    ensures CartValid(cart[..i] + cart[i + 1..], nextId)
  {
    var after := cart[..i] + cart[i + 1..];
    assert forall k :: 0 <= k < |after| ==> after[k] == if k < i then cart[k] else cart[k + 1];
    forall a, b | 0 <= a < b < |after|
      ensures after[a].id < after[b].id && !IsRow(after[b], after[a].userId, after[a].productId)
    {
      var a', b' := if a < i then a else a + 1, if b < i then b else b + 1;
      assert after[a] == cart[a'] && after[b] == cart[b'] && a' < b';
    }
  }

  lemma RemoveAtKeepsOthers(cart: seq<CartItem>, nextId: nat, i: nat)
    requires CartValid(cart, nextId)
    requires i < |cart|
    ensures forall c :: c in cart[..i] + cart[i + 1..] <==> c in cart && c != cart[i]
  {
    var after := cart[..i] + cart[i + 1..];
    assert forall k :: 0 <= k < |after| ==> after[k] == if k < i then cart[k] else cart[k + 1];
    forall c ensures c in after <==> c in cart && c != cart[i] {
      if c in cart && c != cart[i] {
        var j :| 0 <= j < |cart| && cart[j] == c;
        if j < i { assert after[j] == c; } else { assert after[j - 1] == c; }
      }
      if c in after {
        var k :| 0 <= k < |after| && after[k] == c;
        if k < i {
          assert cart[k].id < cart[i].id;
        } else {
          assert cart[i].id < cart[k + 1].id;
        }
      }
    }
  }


  /** Removing keeps the table valid, leaves no row for the pair, and leaves
      every other pair as it was; without a row it changes nothing. */
  lemma RemoveFromCartEffect(cart: seq<CartItem>, nextId: nat, uid: nat, pid: nat)
    requires CartValid(cart, nextId)
    ensures var after := CartAfterRemove(cart, uid, pid);
      && CartValid(after, nextId)
      && Quantity(after, uid, pid) == 0
      && forall u: nat, q: nat :: (u, q) != (uid, pid) ==> Quantity(after, u, q) == Quantity(cart, u, q)
    ensures RowIndex(cart, uid, pid).None? ==> CartAfterRemove(cart, uid, pid) == cart
  {
    var after := CartAfterRemove(cart, uid, pid);
    match RowIndex(cart, uid, pid)
    case None =>
    case Some(i) =>
      RemoveAtKeepsRows(cart, nextId, i);
      forall k | 0 <= k < |after| ensures !IsRow(after[k], uid, pid) {
        assert after[k] in after;
        QuantityByMember(cart, after[k]);
      }
      forall u: nat, q: nat | (u, q) != (uid, pid) ensures Quantity(after, u, q) == Quantity(cart, u, q) {
        SameRowsSameQuantity(after, cart, u, q);
      }
  }

  /** Removing a product the user had no row for undoes adding it. */
  lemma RemoveUndoesFirstAdd(cart: seq<CartItem>, uid: nat, pid: nat, freshId: nat)
    requires RowIndex(cart, uid, pid).None?
    ensures CartAfterRemove(CartAfterAdd(cart, uid, pid, freshId), uid, pid) == cart
  {
    var after := cart + [CartItem(freshId, uid, pid, 1)];
    RowIndexAppend(cart, CartItem(freshId, uid, pid, 1), uid, pid);
    assert after[..|cart|] == cart;
  }

  /** Adding the same product twice to a cart without it gives one row, of
      quantity 2. */
  lemma AddTwiceGivesOneRow(cart: seq<CartItem>, nextId: nat, uid: nat, pid: nat)
    requires CartValid(cart, nextId)
    requires RowIndex(cart, uid, pid).None?
    ensures var twice := CartAfterAdd(CartAfterAdd(cart, uid, pid, nextId), uid, pid, nextId + 1);
      && |twice| == |cart| + 1
      && twice[|cart|] == CartItem(nextId, uid, pid, 2)
      && twice[..|cart|] == cart
  {
    var once := cart + [CartItem(nextId, uid, pid, 1)];
    RowIndexAppend(cart, CartItem(nextId, uid, pid, 1), uid, pid);
  }

  /** `CartItem.query.filter_by(user_id=uid).all()`: the user's rows in table order. */
  function Lines(cart: seq<CartItem>, uid: nat): (r: seq<CartItem>)
    ensures forall c :: c in r <==> c in cart && c.userId == uid
  {
    if cart == [] then []
    else
      var last := cart[|cart| - 1];
      assert cart == cart[..|cart| - 1] + [last];
      Lines(cart[..|cart| - 1], uid) + (if last.userId == uid then [last] else [])
  }

  /** In a valid table every row of a user has a positive quantity. */
  lemma LinesArePositive(cart: seq<CartItem>, nextId: nat, uid: nat)
    requires CartValid(cart, nextId)
    ensures forall c :: c in Lines(cart, uid) ==> 1 <= c.quantity
  {
    forall c | c in Lines(cart, uid) ensures 1 <= c.quantity {
      var j :| 0 <= j < |cart| && cart[j] == c;
    }
  }

  /** The table once all of `uid`'s rows are deleted: the others in table order. */
  function WithoutUser(cart: seq<CartItem>, uid: nat): (r: seq<CartItem>)
    ensures forall c :: c in r <==> c in cart && c.userId != uid
  {
    if cart == [] then []
    else
      var last := cart[|cart| - 1];
      assert cart == cart[..|cart| - 1] + [last];
      WithoutUser(cart[..|cart| - 1], uid) + (if last.userId != uid then [last] else [])
  }

  /** A row with a larger id and a new pair can go at the end of a valid table. */
  lemma AppendKeepsValid(kept: seq<CartItem>, last: CartItem, nextId: nat)
    requires CartValid(kept, nextId)
    requires 1 <= last.quantity && last.id < nextId
    requires forall k :: 0 <= k < |kept| ==> kept[k].id < last.id && !IsRow(last, kept[k].userId, kept[k].productId)
    ensures CartValid(kept + [last], nextId)
  {
    var r := kept + [last];
    forall a, b | 0 <= a < b < |r|
      ensures r[a].id < r[b].id && !IsRow(r[b], r[a].userId, r[a].productId)
    {
      if b < |kept| {
        assert r[a] == kept[a] && r[b] == kept[b];
      } else {
        assert r[a] == kept[a] && r[b] == last;
      }
    }
  }

  /** Deleting rows keeps a table valid. */
  lemma {:induction false} WithoutUserKeepsValid(cart: seq<CartItem>, nextId: nat, uid: nat)
    requires CartValid(cart, nextId)
    ensures CartValid(WithoutUser(cart, uid), nextId)
  {
    if cart != [] {
      var prefix := cart[..|cart| - 1];
      var last := cart[|cart| - 1];
      assert CartValid(prefix, nextId);
      WithoutUserKeepsValid(prefix, nextId, uid);
      var kept := WithoutUser(prefix, uid);
      if last.userId != uid {
        forall k | 0 <= k < |kept|
          ensures kept[k].id < last.id && !IsRow(last, kept[k].userId, kept[k].productId)
        {
          assert kept[k] in prefix;
          var j :| 0 <= j < |prefix| && prefix[j] == kept[k];
          assert cart[j] == kept[k];
        }
        AppendKeepsValid(kept, last, nextId);
      } else {
        assert WithoutUser(cart, uid) == kept + [];
        assert kept + [] == kept;
      }
    }
  }

  function Share(c: CartItem, uid: nat): nat
  {
    if c.userId == uid then c.quantity else 0
  }

  /** `current_cart_count`: the sum of the quantities of the user's rows. */
  function CartCount(cart: seq<CartItem>, uid: nat): (r: nat)
    ensures (forall k :: 0 <= k < |cart| ==> cart[k].userId != uid) ==> r == 0
  {
    if cart == [] then 0 else CartCount(cart[..|cart| - 1], uid) + Share(cart[|cart| - 1], uid)
  }

  /** The sum of the quantities of a list of rows. */
  function Quantities(items: seq<CartItem>): nat
  {
    if items == [] then 0 else items[0].quantity + Quantities(items[1..])
  }

  lemma {:induction false} QuantitiesAppend(items: seq<CartItem>, x: CartItem)
    ensures Quantities(items + [x]) == Quantities(items) + x.quantity
  {
    if items != [] {
      assert (items + [x])[1..] == items[1..] + [x];
      QuantitiesAppend(items[1..], x);
    }
  }

  /** The badge count is the sum of quantities over the user's rows, the
      comprehension `sum([i.quantity for i in items])`. */
  lemma {:induction false} CartCountIsSumOverLines(cart: seq<CartItem>, uid: nat)
    ensures CartCount(cart, uid) == Quantities(Lines(cart, uid))
  {
    if cart != [] {
      var prefix := cart[..|cart| - 1];
      var last := cart[|cart| - 1];
      CartCountIsSumOverLines(prefix, uid);
      if last.userId == uid {
        QuantitiesAppend(Lines(prefix, uid), last);
      } else {
        assert Lines(cart, uid) == Lines(prefix, uid) + [];
        assert Lines(prefix, uid) + [] == Lines(prefix, uid);
      }
    }
  }

  lemma {:induction false} CartCountRemoveAt(cart: seq<CartItem>, i: nat, v: nat)
    requires i < |cart|
    ensures CartCount(cart[..i] + cart[i + 1..], v) + Share(cart[i], v) == CartCount(cart, v)
  {
    var prefix := cart[..|cart| - 1];
    if i == |cart| - 1 {
      assert cart[..i] + cart[i + 1..] == prefix;
    } else {
      CartCountRemoveAt(prefix, i, v);
      assert cart[..i] + cart[i + 1..] == (prefix[..i] + prefix[i + 1..]) + [cart[|cart| - 1]];
    }
  }

  lemma {:induction false} CartCountUpdateAt(cart: seq<CartItem>, i: nat, c: CartItem, v: nat)
    requires i < |cart|
    ensures CartCount(cart[i := c], v) + Share(cart[i], v) == CartCount(cart, v) + Share(c, v)
  {
    var prefix := cart[..|cart| - 1];
    if i == |cart| - 1 {
      assert cart[i := c][..|cart| - 1] == prefix;
    } else {
      CartCountUpdateAt(prefix, i, c, v);
      assert cart[i := c][..|cart| - 1] == prefix[i := c];
    }
  }

  /** Each add raises the adding user's badge by one and no one else's. */
  lemma AddToCartCount(cart: seq<CartItem>, uid: nat, pid: nat, freshId: nat, v: nat)
    ensures CartCount(CartAfterAdd(cart, uid, pid, freshId), v) == CartCount(cart, v) + (if v == uid then 1 else 0)
  {
    match RowIndex(cart, uid, pid)
    case Some(i) =>
      CartCountUpdateAt(cart, i, cart[i].(quantity := cart[i].quantity + 1), v);
    case None =>
      assert (cart + [CartItem(freshId, uid, pid, 1)])[..|cart|] == cart;
  }

  /** A removal lowers the user's badge by the quantity the row had, and no one else's. */
  lemma RemoveFromCartCount(cart: seq<CartItem>, uid: nat, pid: nat, v: nat)
    ensures CartCount(CartAfterRemove(cart, uid, pid), v) + (if v == uid then Quantity(cart, uid, pid) else 0) == CartCount(cart, v)
  {
    match RowIndex(cart, uid, pid)
    case Some(i) =>
      CartCountRemoveAt(cart, i, v);
    case None =>
  }

  /** With every quantity at least 1, the badge is at least the number of rows. */
  lemma {:induction false} CartCountAtLeastRows(cart: seq<CartItem>, nextId: nat, uid: nat)
    requires CartValid(cart, nextId)
    ensures CartCount(cart, uid) >= |Lines(cart, uid)|
  {
    if cart != [] {
      var prefix := cart[..|cart| - 1];
      assert CartValid(prefix, nextId);
      CartCountAtLeastRows(prefix, nextId, uid);
    }
  }

  /** Deleting a user's rows empties that user's cart and badge and leaves
      every other user's rows as they were. */
  lemma ClearUserEffect(cart: seq<CartItem>, nextId: nat, uid: nat)
    requires CartValid(cart, nextId)
    ensures CartValid(WithoutUser(cart, uid), nextId)
    ensures Lines(WithoutUser(cart, uid), uid) == []
    ensures CartCount(WithoutUser(cart, uid), uid) == 0
    ensures forall v :: v != uid ==> Lines(WithoutUser(cart, uid), v) == Lines(cart, v)
  {
    WithoutUserKeepsValid(cart, nextId, uid);
    CartCountIsSumOverLines(WithoutUser(cart, uid), uid);
    forall v | v != uid ensures Lines(WithoutUser(cart, uid), v) == Lines(cart, v) {
      FilterTwice(cart, uid, v);
    }
  }

  lemma {:induction false} FilterTwice(cart: seq<CartItem>, uid: nat, v: nat)
    requires v != uid
    ensures Lines(WithoutUser(cart, uid), v) == Lines(cart, v)
  {
    if cart != [] {
      var prefix := cart[..|cart| - 1];
      var last := cart[|cart| - 1];
      FilterTwice(prefix, uid, v);
      if last.userId != uid {
        var w := WithoutUser(prefix, uid) + [last];
        assert w[..|w| - 1] == WithoutUser(prefix, uid);
      } else {
        assert WithoutUser(cart, uid) == WithoutUser(prefix, uid) + [];
        assert WithoutUser(prefix, uid) + [] == WithoutUser(prefix, uid);
      }
    }
  }

  datatype CartLine = CartLine(product: Product, quantity: nat)

  datatype CartSummary = CartSummary(lines: seq<CartLine>, total: nat)

  /** The sum of price times quantity over joined lines. */
  function LinesTotal(lines: seq<CartLine>): nat
  {
    if lines == [] then 0 else lines[0].product.price * lines[0].quantity + LinesTotal(lines[1..])
  }

  lemma {:induction false} LinesTotalAppend(lines: seq<CartLine>, x: CartLine)
    ensures LinesTotal(lines + [x]) == LinesTotal(lines) + x.product.price * x.quantity
  {
    if lines != [] {
      assert (lines + [x])[1..] == lines[1..] + [x];
      LinesTotalAppend(lines[1..], x);
    }
  }

  /** The cart page and checkout's total: every row joined with its product
      as the catalog has it now, and the running sum of price times quantity.
      It fails with MissingProduct exactly when some row's product is gone. */
  function Summary(items: seq<CartItem>, products: seq<Product>): (r: Result<CartSummary>)
    ensures r.Ok? <==> forall k :: 0 <= k < |items| ==> FindProduct(products, items[k].productId).Some?
    ensures r.Err? ==> r.error.MissingProduct? && FindProduct(products, r.error.productId).None?
    ensures r.Ok? ==> |r.value.lines| == |items|
  {
    if items == [] then Ok(CartSummary([], 0))
    else
      var prefix := items[..|items| - 1];
      var last := items[|items| - 1];
      assert forall k :: 0 <= k < |prefix| ==> items[k] == prefix[k];
      match Summary(prefix, products)
      case Err(e) =>
        assert exists k :: 0 <= k < |prefix| && FindProduct(products, prefix[k].productId).None?;
        Err(e)
      case Ok(s) =>
        match FindProduct(products, last.productId)
        case None => Err(MissingProduct(last.productId))
        case Some(p) => Ok(CartSummary(s.lines + [CartLine(p, last.quantity)], s.total + p.price * last.quantity))
  }

  /** Pricing one more row whose product is in the catalog adds its line and
      its amount. */
  lemma SummarySnocFound(items: seq<CartItem>, x: CartItem, products: seq<Product>, s: CartSummary, p: Product)
    requires Summary(items, products) == Ok(s)
    requires FindProduct(products, x.productId) == Some(p)
    ensures Summary(items + [x], products) == Ok(CartSummary(s.lines + [CartLine(p, x.quantity)], s.total + p.price * x.quantity))
  {
    assert (items + [x])[..|items|] == items;
  }

  /** Pricing one more row whose product is gone fails on that product. */
  lemma SummarySnocMissing(items: seq<CartItem>, x: CartItem, products: seq<Product>)
    requires Summary(items, products).Ok?
    requires FindProduct(products, x.productId).None?
    ensures Summary(items + [x], products) == Err(MissingProduct(x.productId))
  {
    assert (items + [x])[..|items|] == items;
  }

  /** A successful summary has one line per row, holding the row's product at
      its current catalog entry and the row's quantity, and its total is the
      sum of price times quantity over those lines. */
  lemma {:induction false} SummaryLines(items: seq<CartItem>, products: seq<Product>)
    requires Summary(items, products).Ok?
    ensures var s := Summary(items, products).value;
      && |s.lines| == |items|
      && (forall k :: 0 <= k < |items| ==>
            s.lines[k] == CartLine(FindProduct(products, items[k].productId).value, items[k].quantity))
      && s.total == LinesTotal(s.lines)
  {
    if items != [] {
      var n := |items| - 1;
      var prefix, last := items[..n], items[n];
      assert items == prefix + [last];
      assert forall k :: 0 <= k < n ==> prefix[k] == items[k];
      SummaryLines(prefix, products);
      var s := Summary(prefix, products).value;
      var p := FindProduct(products, last.productId).value;
      var line := CartLine(p, last.quantity);
      SummarySnocFound(prefix, last, products, s, p);
      LinesTotalAppend(s.lines, line);
    }
  }


  /** The cart is priced from the catalog as it is now: after an admin edits
      a product, a cart row of that product shows the edited row and its new
      price, and the cart still prices. */
  lemma CartFollowsEdit(items: seq<CartItem>, products: seq<Product>, nextId: nat, i: nat,
                        name: string, price: nat, description: Option<string>, image: Option<string>, k: nat)
    requires CatalogValid(products, nextId)
    requires i < |products|
    requires Summary(items, products).Ok?
    requires k < |items| && items[k].productId == products[i].id
    ensures var e := Edited(products[i], name, price, description, image);
      && Summary(items, products[i := e]).Ok?
      && Summary(items, products[i := e]).value.lines[k] == CartLine(e, items[k].quantity)
  {
    var e := Edited(products[i], name, price, description, image);
    var after := products[i := e];
    EditProductEffect(products, nextId, i, name, price, description, image);
    forall n | 0 <= n < |items| ensures FindProduct(after, items[n].productId).Some? {
      if items[n].productId != products[i].id {
        assert FindProduct(products, items[n].productId).Some?;
      }
    }
    SummaryLines(items, after);
  }

  /** Once a prefix of the rows fails, the whole list fails the same way: the
      source stops at the first missing product. */
  lemma {:induction false} SummaryKeepsError(items: seq<CartItem>, products: seq<Product>, k: nat)
    requires k <= |items|
    requires Summary(items[..k], products).Err?
    ensures Summary(items, products) == Summary(items[..k], products)
    decreases |items|
  {
    if k < |items| {
      var prefix := items[..|items| - 1];
      assert prefix[..k] == items[..k];
      SummaryKeepsError(prefix, products, k);
    } else {
      assert items[..k] == items;
    }
  }

  /** A row added for a product the catalog does not have (add_to_cart never
      checks) makes the user's cart page and checkout fail. */
  lemma AddUnknownProductSpoilsCart(cart: seq<CartItem>, products: seq<Product>, uid: nat, pid: nat, freshId: nat)
    requires FindProduct(products, pid).None?
    ensures Summary(Lines(CartAfterAdd(cart, uid, pid, freshId), uid), products).Err?
  {
    var after := CartAfterAdd(cart, uid, pid, freshId);
    match RowIndex(cart, uid, pid)
    case Some(i) =>
      assert after[i] in after;
      assert after[i] in Lines(after, uid);
    case None =>
      assert after[|cart|] in Lines(after, uid);
  }
}
