# A verified model of the E-commerce shop's business rules

`E-commerce_website.py` is a small Flask shop. It has five SQL tables:
products, users, cart items, orders and order items. Its route handlers
read and write those tables:

- a catalog with search and an admin page that adds, edits and deletes
  products;
- registration and login;
- a per-user cart with a quantity badge in the page header;
- checkout, either simulated or through a payment gateway;
- an order history listed newest first.

This project models those table-level rules in Dafny and proves what they
guarantee.

The model is split into modules that follow the program:

- `Rows` holds the five row types, the error causes and a `Result` type.
  Prices and order totals are whole numbers of paise. An order's
  `created_at` is a tick of a counter that only grows.
- `Text` covers the string primitives the search uses:
  - Python's `str.strip()`;
  - the ASCII-only case folding SQLite applies to `ilike`;
  - substring containment;
  - SQL `LIKE` patterns.
- `Catalog`, `Accounts`, `Carts` and `Orders` define what each handler does
  to its table as pure functions. They also prove, as lemmas, the
  properties each handler keeps.
- `Store` holds the database as a class `Shop` with one `seq` field per
  table. It also holds two id counters that stand in for SQLite's choice
  of a new id in the two tables whose rows get deleted, and the order
  clock. Each handler that writes is
  a method whose loops mirror the handler's loops. Each method is proved
  to leave exactly the state the specification functions describe. Its
  invariant `Valid()` says four things:
  - ids are unique and below the next id;
  - emails are unique;
  - there is at most one cart row per (user, product), and every quantity
    is positive;
  - orders are stamped in increasing order.

How the model treats state outside the tables:

- **Session user:** the logged-in user's id is a parameter of each cart,
  checkout and order method. The login redirect for a missing session is
  the web layer and is not modelled.
- **Payment gateway:** modelled as a function parameter. Given the amount
  in paise and the user id, it says whether the payment intent was
  created.
- **Image upload:** `secure_filename` is a parameter, as the sanitised
  name of the uploaded file.
- **Row ids:** users, orders and order items are never deleted, so their
  ids are positions plus one. Products and cart rows take the next value
  of their own counters.

The checkout decision comes before any write, in this order:

1. An empty cart is refused.
2. A cart row whose product has been deleted is refused.
3. Through the gateway, a failed intent is refused.

Only then are the order, its items and the emptied cart written. This
follows the code, where the payment intent is created before anything is
added to the session. A failed intent therefore leaves no partly written
order behind.

## Model

| member | source | states |
|---|---|---|
| Text.Strip | E-commerce_website.py:454 | the stripped query is the slice of the query left once its leading and trailing whitespace is cut off: everything before and after the slice is whitespace, the slice neither starts nor ends with whitespace, and it is empty exactly when the query is all whitespace |
| Text.LikeInfix | E-commerce_website.py:457 | for a query with no `%` or `_`, the pattern `%q%` matches exactly the strings that contain `q` |
| Catalog.FindProduct | E-commerce_website.py:493 | `Product.query.get` returns a row of the table with the asked id, and returns None exactly when no row has that id |
| Catalog.WithoutProduct | E-commerce_website.py:493-496 | the table after a delete keeps only rows it had, keeps every row with another id, and is one row shorter exactly when the id was present |
| Catalog.Edited | E-commerce_website.py:505-514 | the edited row keeps its id, takes the new name, price and description, and changes its image locator only when a new file came with the form |
| Catalog.AppendProductEffect | E-commerce_website.py:480-485 | a product added under the next id keeps the catalog valid for the id after, is what its id now finds, and every other id finds what it found before |
| Catalog.DeleteProductEffect | E-commerce_website.py:491-498 | deleting removes exactly the rows with that id (nothing when there is none); the table stays valid and every other lookup is unchanged |
| Catalog.EditProductEffect | E-commerce_website.py:500-516 | overwriting a row in place keeps the table valid, its id finds the edited row, and every other id is unaffected |
| Catalog.Search | E-commerce_website.py:452-457 | a blank query finds nothing; otherwise the results are exactly the catalog products whose name or description contains the stripped query, ignoring ASCII case |
| Catalog.SearchAsWritten | E-commerce_website.py:457 | the `ilike '%q%'` search finds exactly the products whose lower-cased name or description matches the LIKE pattern, and nothing for a blank query |
| Catalog.HitAsWritten | E-commerce_website.py:457 | the LIKE test on the lower-cased name or a present description accepts every product whose name or description contains the query |
| Catalog.SearchAgreesOnLiteralQueries | E-commerce_website.py:457 | when the stripped query holds no `%` or `_`, the source's LIKE search and the substring search return the same list |
| Catalog.UnderscoreQueryMatchesAnyName | E-commerce_website.py:457 | for every catalog product with a non-empty name and no `_` in its name or description, the query `_` lists it as written, while the substring search does not |
| Accounts.Authenticate | E-commerce_website.py:552-555 | login fails with InvalidLogin exactly when no user has both that email and that password; otherwise it returns the id of a user who has both |
| Accounts.WithUser | E-commerce_website.py:539-541 | the users table after a registration is the old table plus one user under the next id, and the emails in it are the old ones plus the new one |
| Accounts.RegisterKeepsUsersValid | E-commerce_website.py:535-541 | a user added under a fresh email keeps ids positional and emails unique, and the new user is the only one with that email |
| Accounts.LoginAfterRegister | E-commerce_website.py:538-555 | a newly registered user logs in with the registration password and gets the new id; any other password is refused |
| Carts.RowIndex | E-commerce_website.py:575 | the first row for the (user, product) pair, or None exactly when the user has no row for that product |
| Carts.CartAfterAdd | E-commerce_website.py:575-580 | the cart after an add keeps its length when the pair had a row and grows by one otherwise, keeps every row of another pair, and holds a row for the pair with one more than its old quantity |
| Carts.CartAfterRemove | E-commerce_website.py:610-613 | the cart after a removal is the cart itself when the pair had no row; otherwise it is one row shorter and has lost exactly that row |
| Carts.AddToCartEffect | E-commerce_website.py:575-581 | adding keeps the cart valid, taking a new id only when there was no row; it raises the pair's quantity by exactly one and leaves every other pair's quantity unchanged |
| Carts.AddTwiceGivesOneRow | E-commerce_website.py:575-580 | adding a product twice to a cart without it gives one new row of quantity 2 at the end, and the other rows are untouched |
| Carts.RemoveFromCartEffect | E-commerce_website.py:610-613 | removing deletes the whole row: the pair's quantity becomes 0, the cart stays valid, other pairs are unchanged, and nothing happens without a row |
| Carts.RemoveUndoesFirstAdd | E-commerce_website.py:610-613 | removing a product the user had no row for, right after adding it, gives back the original cart |
| Carts.Lines | E-commerce_website.py:591 | the user's rows are exactly the cart rows with that user id |
| Carts.CartCount | E-commerce_website.py:435-440 | the badge of a user with no cart rows is 0 |
| Carts.CartCountIsSumOverLines | E-commerce_website.py:439-440 | the badge is the sum of quantities over the user's rows |
| Carts.AddToCartCount | E-commerce_website.py:435-440 | an add raises the adding user's badge by one and leaves every other user's badge unchanged |
| Carts.RemoveFromCartCount | E-commerce_website.py:435-440 | a removal lowers the user's badge by the removed row's quantity and leaves every other badge unchanged |
| Carts.CartCountAtLeastRows | E-commerce_website.py:440 | in a valid cart, the badge is at least the number of the user's rows |
| Carts.WithoutUser | E-commerce_website.py:660-662 | the cart after clearing a user holds exactly the rows of other users |
| Carts.ClearUserEffect | E-commerce_website.py:660-662 | deleting a user's rows keeps the cart valid, empties that user's rows and badge, and leaves every other user's rows as they were |
| Carts.Summary | E-commerce_website.py:596-601 | the cart page succeeds exactly when every row's product is in the catalog; on failure it names a missing product; on success it has one line per row |
| Carts.SummaryLines | E-commerce_website.py:596-601 | each line holds the row's product as the catalog has it now, with the row's quantity; the total is the sum of price times quantity over the lines |
| Carts.SummaryKeepsError | E-commerce_website.py:596-600 | once a prefix of the rows fails on a missing product, the whole cart fails the same way |
| Carts.CartFollowsEdit | E-commerce_website.py:597-600 | after an admin edits a product, a cart row of that product shows the edited row and its new price, and the cart still prices |
| Carts.AddUnknownProductSpoilsCart | E-commerce_website.py:575-600 | a row added for a product the catalog lacks (the add does not check) makes the user's cart page and checkout fail |
| Orders.ItemsFor | E-commerce_website.py:656-658 | one order item per cart row, each for the new order and with its row's quantity |
| Orders.ItemsForCopiesLines | E-commerce_website.py:656-658 | each cart row becomes the order item at the same position, for the new order, with the same product and quantity and consecutive ids |
| Orders.CheckoutConservesUnits | E-commerce_website.py:656-658 | the order items written carry, in all, as many units as the user's badge showed |
| Orders.CheckoutQuote | E-commerce_website.py:624-631 | checkout is refused with EmptyCart exactly when the user has no rows, or with MissingProduct; otherwise the quote is the cart's total at current prices |
| Orders.PlaceOrderKeepsValid | E-commerce_website.py:652-658 | a new order under the next id and current tick, and its items, keep both tables valid |
| Orders.OrdersOf | E-commerce_website.py:692 | the filter keeps exactly the orders of the user |
| Orders.NewestFirst | E-commerce_website.py:692 | the listing holds exactly the user's orders, as many as the user has |
| Orders.NewestFirstSorted | E-commerce_website.py:692 | the listing holds exactly the user's orders, with creation times strictly decreasing |
| Orders.ItemsOf | E-commerce_website.py:696 | the items listed for an order are exactly the order-item rows with that order id |
| Orders.Join | E-commerce_website.py:697-698 | one line per item, holding the item; its product is None exactly when no catalog row has the item's product id, and otherwise a catalog row with that id |
| Orders.History | E-commerce_website.py:686-700 | one entry per order of the user, each an order of the table that belongs to the user, whose lines carry exactly that order's items, position by position |
| Orders.HistoryNewestFirst | E-commerce_website.py:692-698 | with orders stamped in increasing order, the page lists the user's orders strictly newest first, lists every one of them, and gives each exactly its own items |
| Orders.HistoryAfterCheckout | E-commerce_website.py:692-698 | right after a checkout, the user's history opens with the new order and exactly the items written for it |
| Store.Shop.constructor | E-commerce_website.py:418 | a fresh database: all five tables empty, the invariant holds, and ids start at 1 |
| Store.Shop.LocateProduct | E-commerce_website.py:493 | the scan returns the position `Product.query.get` finds, or None |
| Store.Shop.GetProduct | E-commerce_website.py:493 | returns the catalog row with that id, or None |
| Store.Shop.AddProduct | E-commerce_website.py:467-485 | refuses a missing name, price or image (MissingFields) and an empty sanitised filename (InvalidFilename), leaving everything unchanged; otherwise appends the product under the next id with the image locator, which its id then finds |
| Store.Shop.DeleteProduct | E-commerce_website.py:491-498 | the catalog becomes the table without that id, the invariant holds, and no other table changes |
| Store.Shop.EditProduct | E-commerce_website.py:500-516 | NotFound with nothing changed when no row has the id; InvalidFilename with nothing changed when a new file's sanitised name is empty, where saving it fails before the commit; otherwise the row is replaced in place by its edit, which the id then finds |
| Store.Shop.EmailInUse | E-commerce_website.py:536 | true exactly when some user has the email |
| Store.Shop.Register | E-commerce_website.py:526-541 | PasswordMismatch, then EmailTaken, each with nothing changed; otherwise the user is appended under the next id, which is returned, and that email and password then log in to it |
| Store.Shop.Login | E-commerce_website.py:547-555 | the scan returns exactly what the credential check specifies |
| Store.Shop.LocateRow | E-commerce_website.py:575 | the scan returns the position of the pair's row, or None |
| Store.Shop.AddToCart | E-commerce_website.py:568-581 | the cart becomes the specified cart after the add, the next id advances only for a new row, the pair's quantity rises by one, and the other tables are unchanged |
| Store.Shop.RemoveFromCart | E-commerce_website.py:604-613 | the cart becomes the specified cart after the removal, the pair's quantity is 0, and the other tables are unchanged |
| Store.Shop.UserRows | E-commerce_website.py:591 | returns the user's rows in table order |
| Store.Shop.Price | E-commerce_website.py:596-601 | the loop's lines and total are exactly the cart summary, including its MissingProduct failure |
| Store.Shop.ViewCart | E-commerce_website.py:585-602 | the cart page shows the summary of the user's rows at current catalog prices |
| Store.Shop.ItemsToWrite | E-commerce_website.py:656-658 | the order-item table gains one item per cart row, under consecutive ids |
| Store.Shop.RowsKept | E-commerce_website.py:660-661 | the cart keeps exactly the other users' rows, in order |
| Store.Shop.RecordOrder | E-commerce_website.py:652-654 | the order is appended under the next id, stamped with the current tick, and the clock advances |
| Store.Shop.RecordItems | E-commerce_website.py:656-658 | the order items for the rows are appended and the invariant holds |
| Store.Shop.ClearCart | E-commerce_website.py:660-662 | the user's rows are deleted and the invariant holds |
| Store.Shop.PlaceOrder | E-commerce_website.py:652-662 | the order, one item per cart row and the emptied cart, with the catalog and users unchanged |
| Store.Shop.Quote | E-commerce_website.py:624-631 | the user's rows and the checkout decision on them, before any write |
| Store.Shop.Checkout | E-commerce_website.py:618-680 | refusals (EmptyCart, MissingProduct, GatewayError) change nothing; otherwise the order is placed with the quoted total ('placed' when simulated, 'pending' through the gateway), its items are the cart rows, and the user's cart is emptied |
| Store.Shop.OrderHistory | E-commerce_website.py:686-700 | the page is the user's orders newest first, each with its items joined to the current catalog |
| Store.Shop.ItemsOfOrder | E-commerce_website.py:696 | returns exactly the items of that order, in table order |
| Store.Shop.JoinItems | E-commerce_website.py:697-698 | each item is paired with its product as the catalog has it now, or None when the product is gone |
| Store.ExampleSetup | E-commerce_website.py:526-581 | on a fresh database, a registration, one product at 100.00 and two adds of it leave one cart row of quantity 2 and no orders |
| Store.ExampleCartPage | E-commerce_website.py:585-602 | after that setup the cart page shows that row and a total of 200.00 |
| Store.ExampleCheckout | E-commerce_website.py:618-680 | after that setup a simulated checkout places a 200.00 order for the user with one item of quantity 2, and the badge drops to 0 |

## Left out

- The web layer is not modelled: sessions, redirects, flash messages and
  templates. The session's user id is a parameter, and a refusal is an
  `Err` value.
- The index page, the product page, the admin listing (newest id first),
  logout and `/api/products` are not modelled. They are reads with no rule
  beyond the table contents.
- Demo seeding at start-up (lines 417-431) is not modelled.
- Saving the uploaded image to disk is not modelled. `secure_filename` is
  not modelled either: its result is the `image` parameter.
- The payment gateway is a parameter that decides whether the intent
  succeeds. The currency, metadata and the returned client secret are not
  modelled.
- Prices and totals are not floats in this model; they are whole paise.
  Four consequences:
  - The source's `int(total * 100)` conversion, which can lose a paisa to
    floating-point error, is not modelled.
  - Float rounding of the running total is not modelled.
  - A price form field that does not parse, or is missing on edit, makes
    the source raise, which is not modelled.
  - A negative price field is stored by the source as a negative price
    (`float` accepts it). The model cannot represent it, because prices
    are whole paise of type `nat`.
- Store.Shop.EditProduct: takes a name and price that are present. In the
  source, a missing name or price field makes the handler fail.
- Store.Shop.Register: takes the name, email and passwords as present
  strings. The source's handling of absent form fields is not modelled.
- SQLite gives a new row the largest id plus one, so after deleting the
  newest product or cart row an id can be reused. The model uses counters
  that never reuse an id.
- Checkout's writes are modelled as one step:
  - The source commits the order before writing its items and deleting
    the cart rows. A failure between those commits is not modelled.
  - The simulated path interleaves the item writes and the row deletions.
    This gives the same final tables.
  - The cart rows are deleted by one pass over the cart that keeps the
    other users' rows. This gives the same final table as deleting the
    user's rows one by one.
- On the orders page, an item whose product has been deleted is shown in
  the model with no product. The source's page template multiplies that
  missing product's price by the quantity and fails to render; the page
  template is not part of this model.
- The source fails with an exception when a cart row points at a deleted
  product; the model returns `Err(MissingProduct)` and writes nothing. The
  checkout page's GET view shows the same total as the cart page.
- Passwords are stored and compared as plain text, as in the source. Two
  things are outside this model: hashing, and the database's email
  uniqueness constraint as a source of errors (registration checks the
  email first).
- Case folding is ASCII-only, as SQLite's `ilike` does it. Unicode case
  folding is not modelled.
- `created_at` is a counter tick, not wall-clock time. Orders placed in
  the same clock tick cannot occur in the model.

## Findings

| source | as written | input that shows it | evidently intended | confidence | as-written member | corrected member |
|---|---|---|---|---|---|---|
| E-commerce_website.py:457 | the query is pasted into `ilike '%q%'`, so a `%` or `_` in the query acts as a LIKE wildcard | the search query `_` against a product named `a` with no description: the product is listed although `_` occurs nowhere in it (and `%` lists every product) | list the products whose name or description contains the query text, ignoring case | not executed | Catalog.UnderscoreQueryMatchesAnyName | Catalog.Search |

`Catalog.SearchAsWritten` is the search as written. `Catalog.Search` is the
intended substring reading of the pattern `%q%`; only the lemmas of this
finding use it. `Catalog.SearchAgreesOnLiteralQueries` proves the two agree
on every query free of `%` and `_`.
