/** The documents the handlers read and write, with the document store
    represented as maps from id to record (and as sequences, in insertion
    order, where a handler's result depends on that order). */
module Store {
  import opened Wrappers

  /** Document ids (the store's object ids, as strings). */
  type Id = string

  datatype Product = Product(
    name: string,
    price: int,
    stock: int,
    status: string,        // "active" or "inactive" in practice; not an enum in the handlers
    category: string,
    skinType: Option<Id>,
    brand: Option<Id>,
    ingredients: seq<string>,
    description: string,
    imageUrl: string)

  /** One cart or order line: a product reference and a quantity. */
  datatype LineItem = LineItem(product: Id, quantity: int)

  /** A user's cart; the store keeps at most one per user (keyed by user id). */
  datatype Cart = Cart(items: seq<LineItem>)

  /** The five order statuses the admin endpoint accepts. */
  datatype OrderStatus = Pending | Processing | Shipped | Completed | Cancelled

  datatype Order = Order(
    user: Id,
    items: seq<LineItem>,
    totalAmount: int,
    status: OrderStatus,
    isPaid: bool)

  datatype PaymentStatus = PaymentPending | PaymentCompleted | PaymentFailed

  /** A gateway payment attempt, referring to its order. */
  datatype Payment = Payment(order: Id, paymentMethod: string, status: PaymentStatus, transactionId: string)

  datatype Review = Review(user: Id, product: Id, rating: int, comment: string)

  datatype User = User(fullName: string, email: string, password: string, role: string, status: string)

  /** One step of a skincare routine, optionally holding a product. */
  datatype RoutineStep = RoutineStep(stepNumber: int, description: string, product: Option<Id>)

  datatype Routine = Routine(name: string, skinType: Option<Id>, steps: seq<RoutineStep>)

  /** The whole document store.  Payments and reviews are kept in insertion
      order because `findOne` and the newest-first listing depend on it. */
  datatype Store = Store(
    products: map<Id, Product>,
    carts: map<Id, Cart>,
    orders: map<Id, Order>,
    payments: seq<Payment>,
    reviews: seq<Review>,
    users: map<Id, User>,
    routines: map<Id, Routine>)

  /** The store after a handler, and what the client was sent. */
  datatype Outcome<R> = Outcome(store: Store, reply: R)

  // ---------------------------------------------------------------------
  // Order status names as they travel in requests and documents
  // ---------------------------------------------------------------------

  function StatusName(s: OrderStatus): string
  {
    match s
    case Pending => "Pending"
    case Processing => "Processing"
    case Shipped => "Shipped"
    case Completed => "Completed"
    case Cancelled => "Cancelled"
  }

  /** Membership in `["Pending", "Processing", "Shipped", "Completed", "Cancelled"]`. */
  function ParseStatus(s: string): (r: Option<OrderStatus>)
    ensures r.Some? ==> StatusName(r.value) == s
    ensures r.None? ==> forall t: OrderStatus :: StatusName(t) != s
  {
    if s == "Pending" then Some(Pending)
    else if s == "Processing" then Some(Processing)
    else if s == "Shipped" then Some(Shipped)
    else if s == "Completed" then Some(Completed)
    else if s == "Cancelled" then Some(Cancelled)
    else None
  }

  /** Every status name parses back to its status, so the names are distinct. */
  lemma ParseStatusName(s: OrderStatus)
    ensures ParseStatus(StatusName(s)) == Some(s)
  {
  }
}
