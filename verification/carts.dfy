/** The cart handlers: add a product (merging a repeat add into its line),
    view the cart, and remove every line of a product (deleting the cart
    once it is empty).  Source: back-end/controller/cart.controller.js. */
module Carts {
  import opened Wrappers
  import opened Store

  // ---------------------------------------------------------------------
  // Lines and their reference meaning
  // ---------------------------------------------------------------------

  /** The total quantity of product `p` over all lines: what a cart "holds"
      of `p`, independent of how the lines are arranged. */
  function QuantityOf(items: seq<LineItem>, p: Id): int
  {
    if |items| == 0 then 0
    else (if items[0].product == p then items[0].quantity else 0) + QuantityOf(items[1..], p)
  }

  /** The product ids that have a line. */
  function ProductsOf(items: seq<LineItem>): set<Id>
  {
    set i | 0 <= i < |items| :: items[i].product
  }

  /** At most one line per product. */
  predicate UniqueLines(items: seq<LineItem>)
  {
    forall i, j :: 0 <= i < j < |items| ==> items[i].product != items[j].product
  }

  /** Every stored cart has at most one line per product. */
  predicate CartsWellFormed(st: Store)
  {
    forall u :: u in st.carts ==> UniqueLines(st.carts[u].items)
  }

  /** The products of a non-empty line list: the head's and the tail's. */
  lemma ProductsOfCons(items: seq<LineItem>)
    requires |items| > 0
    ensures ProductsOf(items) == {items[0].product} + ProductsOf(items[1..])
  {
    var tail := items[1..];
    forall x | x in ProductsOf(items) ensures x in {items[0].product} + ProductsOf(tail) {
      var i :| 0 <= i < |items| && items[i].product == x;
      if i > 0 {
        assert tail[i - 1].product == x;
      }
    }
    forall x | x in ProductsOf(tail) ensures x in ProductsOf(items) {
      var i :| 0 <= i < |tail| && tail[i].product == x;
      assert items[i + 1].product == x;
    }
  }

  /** With one line per product, the head's product has no line in the tail. */
  lemma UniqueHead(items: seq<LineItem>)
    requires |items| > 0 && UniqueLines(items)
    ensures items[0].product !in ProductsOf(items[1..])
    ensures UniqueLines(items[1..])
  {
    forall i | 0 <= i < |items[1..]| ensures items[1..][i].product != items[0].product {
      assert items[1..][i] == items[i + 1];
    }
  }

  lemma {:induction false} QuantityOfAppend(a: seq<LineItem>, b: seq<LineItem>, p: Id)
    ensures QuantityOf(a + b, p) == QuantityOf(a, p) + QuantityOf(b, p)
    decreases |a|
  {
    if |a| == 0 {
      assert a + b == b;
    } else {
      assert (a + b)[1..] == a[1..] + b;
      QuantityOfAppend(a[1..], b, p);
    }
  }

  lemma {:induction false} QuantityOfAbsent(items: seq<LineItem>, p: Id)
    requires p !in ProductsOf(items)
    ensures QuantityOf(items, p) == 0
    decreases |items|
  {
    if |items| > 0 {
      ProductsOfCons(items);
      QuantityOfAbsent(items[1..], p);
    }
  }

  /** With one line per product, the quantity of a product is its line's. */
  lemma {:induction false} QuantityOfUniqueLine(items: seq<LineItem>, k: int)
    requires UniqueLines(items) && 0 <= k < |items|
    ensures QuantityOf(items, items[k].product) == items[k].quantity
    decreases |items|
  {
    var p := items[k].product;
    UniqueHead(items);
    if k == 0 {
      QuantityOfAbsent(items[1..], p);
    } else {
      QuantityOfUniqueLine(items[1..], k - 1);
    }
  }

  // ---------------------------------------------------------------------
  // addToCart
  // ---------------------------------------------------------------------

  /** `cart.items.find(item => item.product === productId)`: the position of
      the first line of `p`, or `|items|` when there is none. */
  function FindLine(items: seq<LineItem>, p: Id): (k: nat)
    ensures k <= |items|
    ensures k < |items| ==> items[k].product == p
    ensures forall j :: 0 <= j < k ==> items[j].product != p
  {
    if |items| == 0 then 0
    else if items[0].product == p then 0
    else 1 + FindLine(items[1..], p)
  }

  lemma FindLineAbsent(items: seq<LineItem>, p: Id)
    ensures FindLine(items, p) == |items| <==> p !in ProductsOf(items)
  {
    var k := FindLine(items, p);
    if k < |items| {
      assert items[k].product in ProductsOf(items);
    }
  }

  /** The line update of an add: a repeat add raises the first matching
      line's quantity, otherwise one line is appended. */
  function AddLine(items: seq<LineItem>, p: Id, quantity: int): (r: seq<LineItem>)
    ensures var k := FindLine(items, p);
      if k < |items| then
        && |r| == |items|
        && r[k] == LineItem(p, items[k].quantity + quantity)
        && forall j :: 0 <= j < |items| && j != k ==> r[j] == items[j]
      else
        r == items + [LineItem(p, quantity)]
  {
    var k := FindLine(items, p);
    if k < |items| then items[k := LineItem(p, items[k].quantity + quantity)]
    else items + [LineItem(p, quantity)]
  }

  /** Adding raises the cart's holding of `p` by exactly `quantity` and
      leaves every other product's holding unchanged. */
  lemma AddLineQuantities(items: seq<LineItem>, p: Id, quantity: int, x: Id)
    ensures QuantityOf(AddLine(items, p, quantity), x)
         == QuantityOf(items, x) + (if x == p then quantity else 0)
  {
    var k := FindLine(items, p);
    var r := AddLine(items, p, quantity);
    if k < |items| {
      assert items == items[..k] + [items[k]] + items[k + 1..];
      assert r == items[..k] + [r[k]] + items[k + 1..];
      QuantityOfAppend(items[..k] + [items[k]], items[k + 1..], x);
      QuantityOfAppend(items[..k], [items[k]], x);
      QuantityOfAppend(items[..k] + [r[k]], items[k + 1..], x);
      QuantityOfAppend(items[..k], [r[k]], x);
    } else {
      QuantityOfAppend(items, [LineItem(p, quantity)], x);
    }
  }

  /** Adding keeps "at most one line per product". */
  lemma AddLinePreservesUnique(items: seq<LineItem>, p: Id, quantity: int)
    requires UniqueLines(items)
    ensures UniqueLines(AddLine(items, p, quantity))
  {
    var k := FindLine(items, p);
    var r := AddLine(items, p, quantity);
    if k == |items| {
      forall i, j | 0 <= i < j < |r| ensures r[i].product != r[j].product {
        if j == |items| {
          assert r[i] == items[i];
        }
      }
    }
  }

  datatype AddReply = ProductUnavailable | Added(cart: Cart)
  {
    function Code(): int { if ProductUnavailable? then 404 else 200 }
  }

  /** The cart that `addToCart` works on: the stored one, or a fresh empty one. */
  function CartOrNew(st: Store, user: Id): Cart
  {
    if user in st.carts then st.carts[user] else Cart([])
  }

  /** `addToCart`: an unknown or inactive product is refused; otherwise the
      user's cart (created empty if missing) gets the line update. */
  function AddToCart(st: Store, user: Id, productId: Id, quantity: int): (o: Outcome<AddReply>)
    ensures (productId !in st.products || st.products[productId].status != "active")
      <==> o.reply == ProductUnavailable
    ensures o.reply == ProductUnavailable ==> o.store == st
    ensures o.reply.Added? ==>
      && o.store == st.(carts := st.carts[user := o.reply.cart])
      && o.reply.cart.items == AddLine(CartOrNew(st, user).items, productId, quantity)
  {
    if productId !in st.products || st.products[productId].status != "active" then
      Outcome(st, ProductUnavailable)
    else
      var cart := Cart(AddLine(CartOrNew(st, user).items, productId, quantity));
      Outcome(st.(carts := st.carts[user := cart]), Added(cart))
  }

  /** A user without a cart ends up with a one-line cart. */
  lemma AddToFreshCart(st: Store, user: Id, productId: Id, quantity: int)
    requires user !in st.carts
    requires productId in st.products && st.products[productId].status == "active"
    ensures AddToCart(st, user, productId, quantity).store.carts[user]
         == Cart([LineItem(productId, quantity)])
  {
  }

  /** Adding the same product twice gives one line holding the summed
      quantity, not two lines. */
  lemma AddTwiceMerges(st: Store, user: Id, productId: Id, q1: int, q2: int)
    requires user !in st.carts
    requires productId in st.products && st.products[productId].status == "active"
    ensures var once := AddToCart(st, user, productId, q1).store;
      AddToCart(once, user, productId, q2).store.carts[user]
        == Cart([LineItem(productId, q1 + q2)])
  {
  }

  /** `addToCart` keeps every stored cart at one line per product. */
  lemma AddToCartPreservesWellFormed(st: Store, user: Id, productId: Id, quantity: int)
    requires CartsWellFormed(st)
    ensures CartsWellFormed(AddToCart(st, user, productId, quantity).store)
  {
    AddLinePreservesUnique(CartOrNew(st, user).items, productId, quantity);
  }

  // ---------------------------------------------------------------------
  // viewCart
  // ---------------------------------------------------------------------

  /** A cart line with its product looked up (`null` when the product no
      longer exists). */
  datatype ResolvedLine = ResolvedLine(line: LineItem, product: Option<Product>)

  datatype ViewReply = CartNotFound | CartView(lines: seq<ResolvedLine>)
  {
    function Code(): int { if CartNotFound? then 404 else 200 }
  }

  function Resolve(products: map<Id, Product>, items: seq<LineItem>): (r: seq<ResolvedLine>)
    ensures |r| == |items|
    ensures forall i :: 0 <= i < |items| ==> r[i].line == items[i]
    ensures forall i :: 0 <= i < |items| ==>
      r[i].product == (if items[i].product in products then Some(products[items[i].product]) else None)
  {
    if |items| == 0 then []
    else
      var p := items[0].product;
      [ResolvedLine(items[0], if p in products then Some(products[p]) else None)]
        + Resolve(products, items[1..])
  }

  /** `viewCart`: 404 without a cart, otherwise its lines with products. */
  function ViewCart(st: Store, user: Id): (r: ViewReply)
    ensures r == CartNotFound <==> user !in st.carts
    ensures r.CartView? ==> |r.lines| == |st.carts[user].items|
    ensures r.CartView? ==> forall i :: 0 <= i < |r.lines| ==>
      && r.lines[i].line == st.carts[user].items[i]
      && (st.carts[user].items[i].product in st.products <==> r.lines[i].product.Some?)
      && (r.lines[i].product.Some? ==> r.lines[i].product.value == st.products[st.carts[user].items[i].product])
  {
    if user !in st.carts then CartNotFound
    else CartView(Resolve(st.products, st.carts[user].items))
  }

  // ---------------------------------------------------------------------
  // removeItemFromCart
  // ---------------------------------------------------------------------

  /** `$pull: { items: { product: p } }`: drops every line of `p`. */
  function Pull(items: seq<LineItem>, p: Id): (r: seq<LineItem>)
    ensures |r| <= |items|
    ensures forall i :: 0 <= i < |r| ==> r[i].product != p
  {
    if |items| == 0 then []
    else if items[0].product == p then Pull(items[1..], p)
    else [items[0]] + Pull(items[1..], p)
  }

  /** Pulling distributes over concatenation, so the kept lines stay in
      their original order. */
  lemma {:induction false} PullAppend(a: seq<LineItem>, b: seq<LineItem>, p: Id)
    ensures Pull(a + b, p) == Pull(a, p) + Pull(b, p)
    decreases |a|
  {
    if |a| == 0 {
      assert a + b == b;
    } else {
      assert (a + b)[1..] == a[1..] + b;
      PullAppend(a[1..], b, p);
    }
  }

  /** Pulling removes the whole holding of `p` and nothing of any other product. */
  lemma {:induction false} PullQuantities(items: seq<LineItem>, p: Id, x: Id)
    ensures QuantityOf(Pull(items, p), x) == (if x == p then 0 else QuantityOf(items, x))
    decreases |items|
  {
    if |items| > 0 {
      PullQuantities(items[1..], p, x);
      if items[0].product != p {
        assert Pull(items, p)[1..] == Pull(items[1..], p);
      }
    }
  }

  /** Pulling a product the cart does not hold changes nothing. */
  lemma {:induction false} PullAbsent(items: seq<LineItem>, p: Id)
    requires p !in ProductsOf(items)
    ensures Pull(items, p) == items
    decreases |items|
  {
    if |items| > 0 {
      ProductsOfCons(items);
      PullAbsent(items[1..], p);
      assert items == [items[0]] + items[1..];
    }
  }

  /** Pulled lines are a subsequence of the original lines, so one line per
      product is kept. */
  lemma {:induction false} PullPreservesUnique(items: seq<LineItem>, p: Id)
    requires UniqueLines(items)
    ensures UniqueLines(Pull(items, p))
    ensures ProductsOf(Pull(items, p)) == ProductsOf(items) - {p}
    decreases |items|
  {
    if |items| > 0 {
      var tail := items[1..];
      UniqueHead(items);
      ProductsOfCons(items);
      PullPreservesUnique(tail, p);
      if items[0].product != p {
        var r := Pull(items, p);
        var rt := Pull(tail, p);
        assert r == [items[0]] + rt;
        ProductsOfCons(r);
        assert r[1..] == rt;
        forall i, j | 0 <= i < j < |r| ensures r[i].product != r[j].product {
          if i == 0 {
            assert r[j] == rt[j - 1];
            assert rt[j - 1].product in ProductsOf(rt);
          } else {
            assert r[i] == rt[i - 1] && r[j] == rt[j - 1];
          }
        }
      }
    }
  }

  datatype RemoveReply = Removed(cart: Option<Cart>) | CartDeleted
  {
    function Code(): int { 200 }
  }

  /** `removeItemFromCart`: pulls the product's lines; a cart left with no
      lines is deleted; a user without a cart gets a 200 with no cart. */
  function RemoveItem(st: Store, user: Id, productId: Id): (o: Outcome<RemoveReply>)
    ensures user !in st.carts ==> o == Outcome(st, Removed(None))
    ensures user in st.carts && |Pull(st.carts[user].items, productId)| == 0 ==>
      o == Outcome(st.(carts := st.carts - {user}), CartDeleted)
    ensures user in st.carts && |Pull(st.carts[user].items, productId)| > 0 ==>
      var c := Cart(Pull(st.carts[user].items, productId));
      o == Outcome(st.(carts := st.carts[user := c]), Removed(Some(c)))
  {
    if user !in st.carts then Outcome(st, Removed(None))
    else
      var items := Pull(st.carts[user].items, productId);
      if |items| == 0 then Outcome(st.(carts := st.carts - {user}), CartDeleted)
      else
        var c := Cart(items);
        Outcome(st.(carts := st.carts[user := c]), Removed(Some(c)))
  }

  /** Removing a product the cart does not hold is a successful no-op. */
  lemma RemoveAbsentIsNoOp(st: Store, user: Id, productId: Id)
    requires user in st.carts && |st.carts[user].items| > 0
    requires productId !in ProductsOf(st.carts[user].items)
    ensures RemoveItem(st, user, productId) == Outcome(st, Removed(Some(st.carts[user])))
  {
    PullAbsent(st.carts[user].items, productId);
    assert st.carts[user := st.carts[user]] == st.carts;
  }

  /** Removing the last product deletes the cart, so viewing it afterwards
      answers 404. */
  lemma RemoveLastThenView(st: Store, user: Id, productId: Id, quantity: int)
    requires user in st.carts && st.carts[user].items == [LineItem(productId, quantity)]
    ensures ViewCart(RemoveItem(st, user, productId).store, user) == CartNotFound
  {
  }

  /** Removal keeps every stored cart at one line per product. */
  lemma RemoveItemPreservesWellFormed(st: Store, user: Id, productId: Id)
    requires CartsWellFormed(st)
    ensures CartsWellFormed(RemoveItem(st, user, productId).store)
  {
    if user in st.carts {
      PullPreservesUnique(st.carts[user].items, productId);
    }
  }
}
