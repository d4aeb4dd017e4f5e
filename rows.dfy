/** Rows of the shop's five tables, and the result type its operations return.
    Prices and order totals are natural numbers in minor units (paise);
    `createdAt` is a tick of a counter that only grows. */
module Rows {

  datatype Option<+T> = None | Some(value: T)

  /** Why an operation was refused. All but MissingProduct are a flash message
      plus a redirect in the web layer; MissingProduct is where the source
      dereferences a product row that no longer exists and fails. */
  datatype Error =
    | MissingFields                   // admin form without name, price or image
    | InvalidFilename                 // uploaded image whose sanitised name is empty (on edit, the save fails)
    | NotFound                        // get_or_404 on an absent product id
    | PasswordMismatch                // password and confirmation differ
    | EmailTaken                      // a user with this email exists
    | InvalidLogin                    // no user with this email and password
    | EmptyCart                       // checkout with no cart rows
    | MissingProduct(productId: nat)  // a cart line points at a deleted or never-created product
    | GatewayError                    // the payment-intent call failed

  datatype Result<+T> = Ok(value: T) | Err(error: Error)

  datatype Product = Product(id: nat, name: string, description: Option<string>, price: nat, imageUrl: string)

  datatype User = User(id: nat, name: string, email: string, password: string)

  datatype CartItem = CartItem(id: nat, userId: nat, productId: nat, quantity: nat)

  datatype Status = Placed | Pending

  datatype Order = Order(id: nat, userId: nat, total: nat, address: string, phone: string,
                         status: Status, createdAt: nat)

  datatype OrderItem = OrderItem(id: nat, orderId: nat, productId: nat, quantity: nat)

  /** Where uploaded images are served from; a product's image locator is this
      prefix followed by the sanitised file name. */
  const ImagePrefix: string := "/static/img/"
}
