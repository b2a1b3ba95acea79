/** The order endpoints after creation: the customer's cancel, the
    administrator's status change and the administrator's paged listing
    (back-end/controller/order.controller.js). */
module Orders {
  import opened Wrappers
  import opened Store
  import opened Paging
  import opened Lists

  // ---------------------------------------------------------------------
  // cancelOrder
  // ---------------------------------------------------------------------

  datatype CancelReply = OrderNotFound | AlreadyPaid | OrderCancelled
  {
    function Code(): int
    {
      match this
      case OrderNotFound => 400
      case AlreadyPaid => 400
      case OrderCancelled => 200
    }
  }

  /** The caller may cancel an order only when it exists, belongs to them
      and is unpaid; the current status is not consulted. */
  predicate Cancellable(st: Store, userId: Id, orderId: Id)
  {
    orderId in st.orders && st.orders[orderId].user == userId && !st.orders[orderId].isPaid
  }

  /** `cancelOrder` for the authenticated `userId`. */
  function CancelOrder(st: Store, userId: Id, orderId: Id): (o: Outcome<CancelReply>)
    ensures o.reply == OrderCancelled <==> Cancellable(st, userId, orderId)
    ensures o.reply == OrderNotFound <==> !(orderId in st.orders && st.orders[orderId].user == userId)
    ensures o.reply != OrderCancelled ==> o.store == st
    ensures o.reply == OrderCancelled ==>
      o.store == st.(orders := st.orders[orderId := st.orders[orderId].(status := Cancelled)])
  {
    if !(orderId in st.orders && st.orders[orderId].user == userId) then Outcome(st, OrderNotFound)
    else if st.orders[orderId].isPaid then Outcome(st, AlreadyPaid)
    else Outcome(st.(orders := st.orders[orderId := st.orders[orderId].(status := Cancelled)]), OrderCancelled)
  }

  /** Any unpaid order of the caller can be cancelled, whatever its status:
      a shipped or completed order too.  Only the status changes. */
  lemma CancelIgnoresStatus(st: Store, userId: Id, orderId: Id)
    requires orderId in st.orders && st.orders[orderId].user == userId && !st.orders[orderId].isPaid
    ensures var o := CancelOrder(st, userId, orderId);
      && o.reply.Code() == 200
      && o.store.orders.Keys == st.orders.Keys
      && o.store.orders[orderId].status == Cancelled
      && o.store.orders[orderId].items == st.orders[orderId].items
      && o.store.orders[orderId].totalAmount == st.orders[orderId].totalAmount
      && o.store.products == st.products
      && forall id :: id in st.orders && id != orderId ==> o.store.orders[id] == st.orders[id]
  {
  }

  /** Cancelling a second time succeeds again and changes nothing more. */
  lemma CancelIdempotent(st: Store, userId: Id, orderId: Id)
    requires Cancellable(st, userId, orderId)
    ensures var once := CancelOrder(st, userId, orderId);
      var twice := CancelOrder(once.store, userId, orderId);
      twice.reply == OrderCancelled && twice.store == once.store
  {
    var once := CancelOrder(st, userId, orderId);
    assert once.store.orders[orderId] == st.orders[orderId].(status := Cancelled);
    assert once.store.orders[orderId := once.store.orders[orderId].(status := Cancelled)] == once.store.orders;
  }

  /** Another user's order is reported as not found, and left alone. */
  lemma CancelOthersOrderRejected(st: Store, userId: Id, orderId: Id)
    requires orderId in st.orders && st.orders[orderId].user != userId
    ensures CancelOrder(st, userId, orderId) == Outcome(st, OrderNotFound)
  {
  }

  /** Cancelling does not restore the stock the order took. */
  lemma CancelKeepsStock(st: Store, userId: Id, orderId: Id)
    ensures CancelOrder(st, userId, orderId).store.products == st.products
  {
  }

  // ---------------------------------------------------------------------
  // changeStatusOrder
  // ---------------------------------------------------------------------

  datatype StatusReply = InvalidStatus | StatusOrderNotFound | StatusUpdated
  {
    function Code(): int
    {
      match this
      case InvalidStatus => 400
      case StatusOrderNotFound => 404
      case StatusUpdated => 200
    }
  }

  /** `changeStatusOrder` with the status string from the request body.
      The name is validated before the order is looked up, and the order
      takes the new status without any check on the transition. */
  function ChangeStatus(st: Store, orderId: Id, status: string): (o: Outcome<StatusReply>)
    ensures o.reply == InvalidStatus <==> forall t: OrderStatus :: StatusName(t) != status
    ensures o.reply == StatusOrderNotFound <==> ParseStatus(status).Some? && orderId !in st.orders
    ensures o.reply != StatusUpdated ==> o.store == st
    ensures o.reply == StatusUpdated ==>
      exists t: OrderStatus :: StatusName(t) == status &&
        o.store == st.(orders := st.orders[orderId := st.orders[orderId].(status := t)])
  {
    match ParseStatus(status)
    case None => Outcome(st, InvalidStatus)
    case Some(t) =>
      if orderId !in st.orders then Outcome(st, StatusOrderNotFound)
      else Outcome(st.(orders := st.orders[orderId := st.orders[orderId].(status := t)]), StatusUpdated)
  }

  /** Every status is reachable from every status: the endpoint imposes no
      order on the lifecycle, and payment is left as it was. */
  lemma ChangeStatusAnyTransition(st: Store, orderId: Id, t: OrderStatus)
    requires orderId in st.orders
    ensures var o := ChangeStatus(st, orderId, StatusName(t));
      && o.reply == StatusUpdated
      && o.store.orders[orderId] == st.orders[orderId].(status := t)
      && forall id :: id in st.orders && id != orderId ==> o.store.orders[id] == st.orders[id]
  {
    ParseStatusName(t);
  }

  /** A completed (or cancelled) order can be put back to Pending. */
  lemma CompletedCanReturnToPending(st: Store, orderId: Id)
    requires orderId in st.orders && st.orders[orderId].status == Completed
    ensures ChangeStatus(st, orderId, "Pending").store.orders[orderId].status == Pending
  {
    ChangeStatusAnyTransition(st, orderId, Pending);
  }

  /** Status names are case-sensitive: "pending" is rejected. */
  lemma LowerCaseStatusRejected(st: Store, orderId: Id)
    ensures ChangeStatus(st, orderId, "pending") == Outcome(st, InvalidStatus)
  {
  }

  // ---------------------------------------------------------------------
  // getAllOrders
  // ---------------------------------------------------------------------

  /** A page of the order listing and its pagination block. */
  datatype OrderList = OrderList(
    rows: seq<(Id, Order)>,
    totalOrders: nat,
    totalPages: JsCount,
    currentPage: int,
    pageSize: int)

  datatype ListReply = Orders(list: OrderList) | ListError
  {
    function Code(): int
    {
      match this
      case Orders(_) => 200
      case ListError => 500
    }
  }

  /** `status ? { status } : {}`: an empty status means no filter, any other
      string keeps the orders whose status is named exactly that. */
  function StatusFilter(status: string): ((Id, Order)) -> bool
  {
    (row: (Id, Order)) => status == "" || StatusName(row.1.status) == status
  }

  /** `getAllOrders`.  `newestFirst` holds the store's orders sorted by
      creation time, newest first (the sort itself belongs to the store);
      `page` and `limit` are the query values after `parseInt`. */
  function ListOrders(newestFirst: seq<(Id, Order)>, status: string, page: int, limit: int): (r: ListReply)
    ensures r.ListError? <==> (page - 1) * limit < 0
    ensures r.Orders? ==> var matching := Filter(newestFirst, StatusFilter(status));
      && r.list.totalOrders == |matching|
      && r.list.totalPages == PageCount(|matching|, limit)
      && r.list.currentPage == page && r.list.pageSize == limit
      && |r.list.rows| <= |matching|
      && (limit > 0 ==> |r.list.rows| <= limit)
      && (forall i :: 0 <= i < |r.list.rows| ==>
            r.list.rows[i] in newestFirst && (status == "" || StatusName(r.list.rows[i].1.status) == status))
  {
    var matching := Filter(newestFirst, StatusFilter(status));
    match StorePage(matching, (page - 1) * limit, limit)
    case None => ListError
    case Some(rows) =>
      assert forall i :: 0 <= i < |rows| ==> rows[i] in matching by {
        var from := if (page - 1) * limit > |matching| then |matching| else (page - 1) * limit;
        forall i | 0 <= i < |rows| ensures rows[i] in matching {
          assert rows[i] == matching[from + i];
        }
      }
      Orders(OrderList(rows, |matching|, PageCount(|matching|, limit), page, limit))
  }

  /** For a positive page and limit, the listing is the page-th window of
      `limit` matching orders, and an empty status lists every order. */
  lemma ListOrdersWindow(newestFirst: seq<(Id, Order)>, status: string, page: int, limit: int)
    requires page >= 1 && limit >= 1
    ensures var r := ListOrders(newestFirst, status, page, limit);
      && r.Orders?
      && r.list.rows == SlicePage(Filter(newestFirst, StatusFilter(status)), page, limit)
    ensures status == "" ==> Filter(newestFirst, StatusFilter(status)) == newestFirst
  {
    MulMonotone(0, page - 1, limit);
    PageWindow(Filter(newestFirst, StatusFilter(status)), page, limit);
    if status == "" {
      FilterKeepsAll(newestFirst, StatusFilter(status));
    }
  }
}
