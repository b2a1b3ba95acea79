/** The order factory shared by cash-on-delivery and gateway checkout:
    empty-cart guard, total, positive-total guard, stock check, per-line
    stock decrement, a Pending/unpaid order snapshot, then cart deletion.
    Source: back-end/controller/order.controller.js (`createOrderWithoutVNPay`)
    and back-end/controller/payment.controller.js (`createVNPayPayment`).

    The stock check sends a 400 without returning.  Express refuses a second
    response on the same request by throwing, so:
    - with exactly one short line the 400 goes out and the handler carries on
      (stock is decremented, the order saved, the cart deleted); the later
      success response throws;
    - with two or more short lines the second 400 throws inside the loop,
      before anything is written.
    `CreateOrderCod` models this as written; `CreateOrderGuarded` is the
    evidently intended handler, which stops at the first short line. */
module Checkout {
  import opened Wrappers
  import opened Store
  import opened Carts

  // ---------------------------------------------------------------------
  // Reading the cart
  // ---------------------------------------------------------------------

  /** Every line's product still exists (otherwise populating gives `null`
      and the total computation throws). */
  predicate Resolved(products: map<Id, Product>, items: seq<LineItem>)
  {
    forall i :: 0 <= i < |items| ==> items[i].product in products
  }

  /** `cart.items.reduce((sum, item) => sum + item.product.price * item.quantity, 0)`. */
  function CartTotal(products: map<Id, Product>, items: seq<LineItem>): int
    requires Resolved(products, items)
  {
    if |items| == 0 then 0
    else products[items[0].product].price * items[0].quantity + CartTotal(products, items[1..])
  }

  lemma {:induction false} CartTotalAppend(products: map<Id, Product>, a: seq<LineItem>, b: seq<LineItem>)
    requires Resolved(products, a) && Resolved(products, b)
    ensures Resolved(products, a + b)
    ensures CartTotal(products, a + b) == CartTotal(products, a) + CartTotal(products, b)
    decreases |a|
  {
    if |a| == 0 {
      assert a + b == b;
    } else {
      assert (a + b)[1..] == a[1..] + b;
      CartTotalAppend(products, a[1..], b);
    }
  }

  /** Adding `quantity` of `p` raises the total by `price(p) * quantity`. */
  lemma AddLineTotal(products: map<Id, Product>, items: seq<LineItem>, p: Id, quantity: int)
    requires Resolved(products, items) && p in products
    ensures Resolved(products, AddLine(items, p, quantity))
    ensures CartTotal(products, AddLine(items, p, quantity))
         == CartTotal(products, items) + products[p].price * quantity
  {
    var k := FindLine(items, p);
    var r := AddLine(items, p, quantity);
    if k < |items| {
      assert items == items[..k] + [items[k]] + items[k + 1..];
      assert r == items[..k] + [r[k]] + items[k + 1..];
      CartTotalAppend(products, items[..k], [items[k]]);
      CartTotalAppend(products, items[..k] + [items[k]], items[k + 1..]);
      CartTotalAppend(products, items[..k], [r[k]]);
      CartTotalAppend(products, items[..k] + [r[k]], items[k + 1..]);
      assert products[p].price * (items[k].quantity + quantity)
          == products[p].price * items[k].quantity + products[p].price * quantity;
    } else {
      CartTotalAppend(products, items, [LineItem(p, quantity)]);
    }
  }

  /** The total only reads the prices of products that have a line: changing
      any other product leaves it alone. */
  lemma {:induction false} CartTotalIgnoresOtherProducts(
    products: map<Id, Product>, items: seq<LineItem>, p: Id, changed: Product)
    requires Resolved(products, items) && p !in ProductsOf(items)
    ensures Resolved(products[p := changed], items)
    ensures CartTotal(products[p := changed], items) == CartTotal(products, items)
    decreases |items|
  {
    if |items| > 0 {
      ProductsOfCons(items);
      CartTotalIgnoresOtherProducts(products, items[1..], p, changed);
    }
  }

  /** The product ids of the lines whose stock is below the line quantity,
      in cart order (`product.stock < item.quantity`). */
  function ShortLines(products: map<Id, Product>, items: seq<LineItem>): (r: seq<Id>)
    requires Resolved(products, items)
    ensures |r| <= |items|
    ensures |r| == 0 <==> forall i :: 0 <= i < |items| ==>
      products[items[i].product].stock >= items[i].quantity
  {
    if |items| == 0 then []
    else
      var rest := ShortLines(products, items[1..]);
      var head := items[0];
      if products[head.product].stock < head.quantity then [head.product] + rest else rest
  }

  /** Each reported line really is short. */
  lemma {:induction false} ShortLinesAreShort(products: map<Id, Product>, items: seq<LineItem>, k: int)
    requires Resolved(products, items) && 0 <= k < |ShortLines(products, items)|
    ensures exists i :: (0 <= i < |items| && items[i].product == ShortLines(products, items)[k]
                         && products[items[i].product].stock < items[i].quantity)
    decreases |items|
  {
    var head := items[0];
    var rest := ShortLines(products, items[1..]);
    if products[head.product].stock < head.quantity {
      if k == 0 {
        assert items[0].product == ShortLines(products, items)[k];
      } else {
        ShortLinesAreShort(products, items[1..], k - 1);
        var i :| 0 <= i < |items[1..]| && items[1..][i].product == rest[k - 1]
          && products[items[1..][i].product].stock < items[1..][i].quantity;
        assert items[i + 1] == items[1..][i];
      }
    } else {
      ShortLinesAreShort(products, items[1..], k);
      var i :| 0 <= i < |items[1..]| && items[1..][i].product == rest[k]
        && products[items[1..][i].product].stock < items[1..][i].quantity;
      assert items[i + 1] == items[1..][i];
    }
  }

  // ---------------------------------------------------------------------
  // The stock decrement: one `$inc: { stock: -quantity }` per line
  // ---------------------------------------------------------------------

  /** Applies the per-line decrements in cart order. */
  function Decrement(products: map<Id, Product>, items: seq<LineItem>): (r: map<Id, Product>)
    requires Resolved(products, items)
    ensures r.Keys == products.Keys
    ensures forall p :: p in products ==>
      r[p] == products[p].(stock := products[p].stock - QuantityOf(items, p))
    decreases |items|
  {
    if |items| == 0 then products
    else
      var line := items[0];
      var before := products[line.product];
      Decrement(products[line.product := before.(stock := before.stock - line.quantity)], items[1..])
  }

  /** Under the "one line per product" cart invariant, each cart product's
      stock drops by exactly its line quantity. */
  lemma DecrementPerLine(products: map<Id, Product>, items: seq<LineItem>, k: int)
    requires Resolved(products, items) && UniqueLines(items) && 0 <= k < |items|
    ensures Decrement(products, items)[items[k].product].stock
         == products[items[k].product].stock - items[k].quantity
  {
    QuantityOfUniqueLine(items, k);
  }

  /** Products without a line are untouched. */
  lemma DecrementOthersUntouched(products: map<Id, Product>, items: seq<LineItem>, p: Id)
    requires Resolved(products, items) && p in products && p !in ProductsOf(items)
    ensures Decrement(products, items)[p] == products[p]
  {
    QuantityOfAbsent(items, p);
  }

  // ---------------------------------------------------------------------
  // The shared conversion of a cart into an order
  // ---------------------------------------------------------------------

  /** How far the conversion got. */
  datatype Conversion =
    | NoCart                       // missing or empty cart: 400, nothing written
    | Unresolved                   // a line's product is gone: the total throws, 500
    | BadTotal                     // total <= 0: 400, nothing written
    | ManyShort(first: Id)         // >= 2 short lines: 400 sent, then a throw, nothing written
    | Converted(store: Store, order: Order, short: Option<Id>, saved: bool)
      // stock decremented; `saved` iff the order was stored and the cart deleted;
      // `short` is the one short line whose 400 was already sent, if any

  /** The order snapshot of a cart: Pending, unpaid, the cart's lines, and
      the computed total. */
  function Snapshot(user: Id, items: seq<LineItem>, total: int): (o: Order)
    ensures o.user == user && o.items == items && o.totalAmount == total
    ensures o.status == Pending && !o.isPaid
  {
    Order(user, items, total, Pending, false)
  }

  /** Steps 1-7 of both checkout handlers, for the user's cart and the id the
      new order receives.  An id already in use makes saving fail after the
      stock was decremented, which nothing compensates. */
  function Convert(st: Store, user: Id, orderId: Id): Conversion
  {
    if user !in st.carts || |st.carts[user].items| == 0 then NoCart
    else
      var items := st.carts[user].items;
      if !Resolved(st.products, items) then Unresolved
      else
        var total := CartTotal(st.products, items);
        if total <= 0 then BadTotal
        else
          var short := ShortLines(st.products, items);
          if |short| >= 2 then ManyShort(short[0])
          else
            var shortLine := if |short| == 1 then Some(short[0]) else None;
            var decremented := st.(products := Decrement(st.products, items));
            var order := Snapshot(user, items, total);
            if orderId in st.orders then Converted(decremented, order, shortLine, false)
            else
              Converted(decremented.(orders := st.orders[orderId := order], carts := st.carts - {user}),
                        order, shortLine, true)
  }

  /** What a conversion that got past the guards did to the store. */
  lemma ConvertEffects(st: Store, user: Id, orderId: Id)
    requires Convert(st, user, orderId).Converted?
    ensures var c := Convert(st, user, orderId);
      var items := st.carts[user].items;
      && user in st.carts && |items| > 0 && Resolved(st.products, items)
      && c.order == Snapshot(user, items, CartTotal(st.products, items))
      && c.order.totalAmount > 0
      && c.store.products == Decrement(st.products, items)
      && c.store.payments == st.payments && c.store.reviews == st.reviews
      && c.store.users == st.users && c.store.routines == st.routines
      && (c.saved <==> orderId !in st.orders)
      && (c.saved ==> c.store.orders == st.orders[orderId := c.order] && c.store.carts == st.carts - {user})
      && (!c.saved ==> c.store.orders == st.orders && c.store.carts == st.carts)
      && (c.short.None? <==> forall i :: 0 <= i < |items| ==>
            st.products[items[i].product].stock >= items[i].quantity)
  {
  }

  /** Everything that lets a checkout through: a non-empty cart whose
      products all exist, a positive total, every line in stock, and an
      unused order id (so that saving the order succeeds). */
  predicate Succeeds(st: Store, user: Id, orderId: Id)
  {
    && user in st.carts && |st.carts[user].items| > 0
    && Resolved(st.products, st.carts[user].items)
    && CartTotal(st.products, st.carts[user].items) > 0
    && (forall i :: 0 <= i < |st.carts[user].items| ==>
          st.products[st.carts[user].items[i].product].stock >= st.carts[user].items[i].quantity)
    && orderId !in st.orders
  }

  /** The conversion stores an order with no short line exactly when the
      checkout succeeds. */
  lemma ConvertSucceeds(st: Store, user: Id, orderId: Id)
    ensures var c := Convert(st, user, orderId);
      c.Converted? && c.short.None? && c.saved <==> Succeeds(st, user, orderId)
  {
    if user in st.carts && |st.carts[user].items| > 0 && Resolved(st.products, st.carts[user].items) {
      var short := ShortLines(st.products, st.carts[user].items);
      assert |short| >= 2 ==> |short| != 0;
    }
  }

  // ---------------------------------------------------------------------
  // createOrderWithoutVNPay, as written
  // ---------------------------------------------------------------------

  datatype CodReply = EmptyCart | InvalidAmount | InsufficientStock(product: Id) | OrderCreated(order: Order) | ServerError
  {
    function Code(): int
    {
      match this
      case EmptyCart => 400
      case InvalidAmount => 400
      case InsufficientStock(_) => 400
      case OrderCreated(_) => 201
      case ServerError => 500
    }
  }

  /** `createOrderWithoutVNPay` as written: the reply is the first response
      sent; the store is whatever was written before the handler stopped. */
  function CreateOrderCod(st: Store, user: Id, orderId: Id): (o: Outcome<CodReply>)
    ensures (user !in st.carts || |st.carts[user].items| == 0) ==> o == Outcome(st, EmptyCart)
    ensures o.reply == InvalidAmount ==> o.store == st
    ensures o.reply.OrderCreated? <==> Succeeds(st, user, orderId)
    ensures o.reply.OrderCreated? ==>
      && user in st.carts && o.store.carts == st.carts - {user}
      && o.store.payments == st.payments && o.store.reviews == st.reviews
      && o.store.users == st.users && o.store.routines == st.routines
      && o.store.orders == st.orders[orderId := o.reply.order]
      && Resolved(st.products, st.carts[user].items)
      && o.reply.order == Snapshot(user, st.carts[user].items, CartTotal(st.products, st.carts[user].items))
      && o.store.products == Decrement(st.products, st.carts[user].items)
      && forall i :: 0 <= i < |st.carts[user].items| ==>
           st.products[st.carts[user].items[i].product].stock >= st.carts[user].items[i].quantity
  {
    ConvertSucceeds(st, user, orderId);
    match Convert(st, user, orderId)
    case NoCart => Outcome(st, EmptyCart)
    case Unresolved => Outcome(st, ServerError)
    case BadTotal => Outcome(st, InvalidAmount)
    case ManyShort(p) => Outcome(st, InsufficientStock(p))
    case Converted(s, order, short, saved) =>
      if short.Some? then Outcome(s, InsufficientStock(short.value))
      else if saved then Outcome(s, OrderCreated(order))
      else Outcome(s, ServerError)
  }

  /** A non-positive total is refused before any stock decrement or order. */
  lemma CodRejectsNonPositiveTotal(st: Store, user: Id, orderId: Id)
    requires user in st.carts && |st.carts[user].items| > 0
    requires Resolved(st.products, st.carts[user].items)
    requires CartTotal(st.products, st.carts[user].items) <= 0
    ensures CreateOrderCod(st, user, orderId) == Outcome(st, InvalidAmount)
  {
  }

  /** The fall-through, exhibited: one short line (stock 1, quantity 2) gets
      a 400 "not enough in inventory", yet the order is stored, the cart is
      deleted and the stock goes to -1. */
  lemma CodStockCheckDoesNotGate()
    ensures var p := Product("Serum", 100000, 1, "active", "serum", None, None, [], "", "");
      var st := Store(map["p" := p], map["u" := Cart([LineItem("p", 2)])], map[], [], [], map[], map[]);
      var o := CreateOrderCod(st, "u", "o");
      && o.reply == InsufficientStock("p") && o.reply.Code() == 400
      && o.store.products["p"].stock == -1
      && "o" in o.store.orders && "u" !in o.store.carts
  {
    var p := Product("Serum", 100000, 1, "active", "serum", None, None, [], "", "");
    var items := [LineItem("p", 2)];
    var products := map["p" := p];
    var st := Store(products, map["u" := Cart(items)], map[], [], [], map[], map[]);
    assert Resolved(products, items);
    assert CartTotal(products, items) == 200000;
    assert ShortLines(products, items) == ["p"];
    assert QuantityOf(items, "p") == 2;
    var after := Decrement(products, items);
    assert after["p"].stock == -1;
    var order := Snapshot("u", items, 200000);
    assert Convert(st, "u", "o") == Converted(
      st.(products := after, orders := map["o" := order], carts := map[]), order, Some("p"), true);
  }

  /** The same fall-through for every store: with exactly one short line
      and a fresh order id, the 400 names that line while the order is
      saved, the cart deleted and the stock decremented all the same. */
  lemma CodOneShortLineWrites(st: Store, user: Id, orderId: Id)
    requires user in st.carts && |st.carts[user].items| > 0
    requires Resolved(st.products, st.carts[user].items)
    requires CartTotal(st.products, st.carts[user].items) > 0
    requires |ShortLines(st.products, st.carts[user].items)| == 1
    requires orderId !in st.orders
    ensures var o := CreateOrderCod(st, user, orderId);
      && o.reply == InsufficientStock(ShortLines(st.products, st.carts[user].items)[0])
      && o.reply.Code() == 400
      && orderId in o.store.orders && user !in o.store.carts
      && o.store.products == Decrement(st.products, st.carts[user].items)
  {
    ConvertEffects(st, user, orderId);
  }

  /** Two short lines stop the handler before anything is written. */
  lemma CodTwoShortLinesWriteNothing(st: Store, user: Id, orderId: Id)
    requires user in st.carts && |st.carts[user].items| > 0
    requires Resolved(st.products, st.carts[user].items)
    requires CartTotal(st.products, st.carts[user].items) > 0
    requires |ShortLines(st.products, st.carts[user].items)| >= 2
    ensures CreateOrderCod(st, user, orderId).store == st
    ensures CreateOrderCod(st, user, orderId).reply.Code() == 400
  {
  }

  /** Scenario: a cart holding 2 of a product priced 100000 with stock 5
      gives an order of 200000, leaves stock 3 and deletes the cart. */
  lemma CodScenario()
    ensures var p := Product("Toner", 100000, 5, "active", "toner", None, None, [], "", "");
      var st := Store(map["a" := p], map["u" := Cart([LineItem("a", 2)])], map[], [], [], map[], map[]);
      var o := CreateOrderCod(st, "u", "o1");
      && o.reply.OrderCreated?
      && o.reply.order.totalAmount == 200000
      && o.store.products["a"].stock == 3
      && "u" !in o.store.carts
  {
    var p := Product("Toner", 100000, 5, "active", "toner", None, None, [], "", "");
    var items := [LineItem("a", 2)];
    var products := map["a" := p];
    var st := Store(products, map["u" := Cart(items)], map[], [], [], map[], map[]);
    assert Resolved(products, items);
    assert CartTotal(products, items) == 200000;
    assert ShortLines(products, items) == [];
    assert QuantityOf(items, "a") == 2;
    var after := Decrement(products, items);
    assert after["a"].stock == 3;
    var order := Snapshot("u", items, 200000);
    assert Convert(st, "u", "o1") == Converted(
      st.(products := after, orders := map["o1" := order], carts := map[]), order, None, true);
  }

  // ---------------------------------------------------------------------
  // The evidently intended handler: the stock check returns
  // ---------------------------------------------------------------------

  /** `createOrderWithoutVNPay` with `return` added to the stock check: any
      short line refuses the order before anything is written. */
  function CreateOrderGuarded(st: Store, user: Id, orderId: Id): (o: Outcome<CodReply>)
    ensures o.reply.InsufficientStock? ==> o.store == st
    ensures o.reply.EmptyCart? || o.reply.InvalidAmount? ==> o.store == st
  {
    match Convert(st, user, orderId)
    case NoCart => Outcome(st, EmptyCart)
    case Unresolved => Outcome(st, ServerError)
    case BadTotal => Outcome(st, InvalidAmount)
    case ManyShort(p) => Outcome(st, InsufficientStock(p))
    case Converted(s, order, short, saved) =>
      if short.Some? then Outcome(st, InsufficientStock(short.value))
      else if saved then Outcome(s, OrderCreated(order))
      else Outcome(s, ServerError)
  }

  predicate StockNonNegative(products: map<Id, Product>)
  {
    forall p :: p in products ==> products[p].stock >= 0
  }

  /** Decrementing a cart whose every line is covered by stock leaves all
      stock non-negative, given one line per product. */
  lemma DecrementKeepsStockNonNegative(products: map<Id, Product>, items: seq<LineItem>)
    requires StockNonNegative(products) && Resolved(products, items) && UniqueLines(items)
    requires forall i :: 0 <= i < |items| ==> products[items[i].product].stock >= items[i].quantity
    ensures StockNonNegative(Decrement(products, items))
  {
    var after := Decrement(products, items);
    forall p | p in after ensures after[p].stock >= 0 {
      if p in ProductsOf(items) {
        var k :| 0 <= k < |items| && items[k].product == p;
        DecrementPerLine(products, items, k);
      } else {
        DecrementOthersUntouched(products, items, p);
      }
    }
  }

  /** With the stock check gating the write, stock never goes negative
      (given one line per product, which the cart handlers maintain). */
  lemma GuardedKeepsStockNonNegative(st: Store, user: Id, orderId: Id)
    requires StockNonNegative(st.products) && CartsWellFormed(st)
    ensures StockNonNegative(CreateOrderGuarded(st, user, orderId).store.products)
  {
    var c := Convert(st, user, orderId);
    if c.Converted? && c.short.None? {
      ConvertEffects(st, user, orderId);
      DecrementKeepsStockNonNegative(st.products, st.carts[user].items);
    }
  }

  /** The guarded handler agrees with the one as written whenever every line
      is covered by stock. */
  lemma GuardedAgreesWhenStocked(st: Store, user: Id, orderId: Id)
    requires user in st.carts && Resolved(st.products, st.carts[user].items)
    requires |ShortLines(st.products, st.carts[user].items)| == 0
    ensures CreateOrderGuarded(st, user, orderId) == CreateOrderCod(st, user, orderId)
  {
  }
}
