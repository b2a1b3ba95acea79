/** The cart page's local state: the optimistic line removal and the
    checkout guards (front-end/my-app/src/pages/Cart.jsx). */
module CartPage {
  import opened Wrappers
  import opened Store
  import opened Carts
  import opened Lists
  import Checkout

  /** The page's cart: `null` until loaded (or when the user has none),
      otherwise its lines. */
  type LocalCart = Option<seq<LineItem>>

  /** What the page holds after loading the user's cart from the store. */
  function Loaded(st: Store, user: Id): (c: LocalCart)
    ensures c.None? <==> user !in st.carts
    ensures c.Some? ==> c.value == st.carts[user].items
  {
    if user in st.carts then Some(st.carts[user].items) else None
  }

  function NotProduct(productId: Id): LineItem -> bool
  {
    (item: LineItem) => item.product != productId
  }

  /** `handleRemoveItem`: on a 200 the page keeps the lines of other
      products; on any other status the cart is left as it was. */
  function RemoveLocal(cart: LocalCart, productId: Id, status: int): (r: LocalCart)
    ensures status != 200 || cart.None? ==> r == cart
    ensures status == 200 && cart.Some? ==> r == Some(Filter(cart.value, NotProduct(productId)))
  {
    if status == 200 && cart.Some? then Some(Filter(cart.value, NotProduct(productId))) else cart
  }

  /** The page's filter and the store's `$pull` drop the same lines. */
  lemma {:induction false} FilterIsPull(items: seq<LineItem>, productId: Id)
    ensures Filter(items, NotProduct(productId)) == Pull(items, productId)
    decreases |items|
  {
    if items != [] {
      FilterIsPull(items[1..], productId);
    }
  }

  /** After a removal the page shows what the store keeps: the remaining
      lines, or no lines when the store deleted the cart. */
  lemma RemoveLocalMatchesStore(st: Store, user: Id, productId: Id)
    requires user in st.carts
    ensures var o := RemoveItem(st, user, productId);
      var local := RemoveLocal(Loaded(st, user), productId, o.reply.Code());
      && local.Some?
      && (user in o.store.carts ==> local.value == o.store.carts[user].items)
      && (user !in o.store.carts ==> local.value == [])
  {
    FilterIsPull(st.carts[user].items, productId);
  }

  // ---------------------------------------------------------------------
  // Checkout guards
  // ---------------------------------------------------------------------

  /** `!cart || cart.items.length === 0` refuses both checkouts locally. */
  predicate CheckoutAllowed(cart: LocalCart)
  {
    cart.Some? && |cart.value| > 0
  }

  /** What a COD checkout does on the page. */
  datatype CodStep = RefusedEmpty | GoToOrders | StayWithAlert

  /** `handleCODCheckout`: refused while empty; otherwise it navigates to
      the order list only on a 201. */
  function CodCheckout(cart: LocalCart, status: int): (r: CodStep)
    ensures r == RefusedEmpty <==> !CheckoutAllowed(cart)
    ensures r == GoToOrders <==> CheckoutAllowed(cart) && status == 201
  {
    if !CheckoutAllowed(cart) then RefusedEmpty
    else if status == 201 then GoToOrders
    else StayWithAlert
  }

  /** What a gateway checkout does on the page. */
  datatype GatewayStep = GatewayRefusedEmpty | FollowUrl(url: string)

  /** `handleVNPayCheckout`: refused while empty; otherwise the browser
      goes to whatever URL the request returned. */
  function GatewayCheckout(cart: LocalCart, paymentUrl: string): (r: GatewayStep)
    ensures r == GatewayRefusedEmpty <==> !CheckoutAllowed(cart)
    ensures r.FollowUrl? ==> r.url == paymentUrl
  {
    if !CheckoutAllowed(cart) then GatewayRefusedEmpty else FollowUrl(paymentUrl)
  }

  /** With the page in step with the store, the local guard refuses
      exactly the carts the server would answer "empty cart" for. */
  lemma GuardMatchesServer(st: Store, user: Id, orderId: Id)
    ensures !CheckoutAllowed(Loaded(st, user)) <==>
      Checkout.CreateOrderCod(st, user, orderId).reply == Checkout.EmptyCart
  {
    if CheckoutAllowed(Loaded(st, user)) {
      var items := st.carts[user].items;
      assert |items| > 0;
      CodNotEmpty(st, user, orderId);
    }
  }

  /** A non-empty stored cart never gets the empty-cart reply. */
  lemma CodNotEmpty(st: Store, user: Id, orderId: Id)
    requires user in st.carts && |st.carts[user].items| > 0
    ensures Checkout.CreateOrderCod(st, user, orderId).reply != Checkout.EmptyCart
  {
    assert !Checkout.Convert(st, user, orderId).NoCart?;
  }
}
