/** The customer's order list page: which orders offer a cancel button,
    the optimistic update after a cancel, the status badge and the short
    order number (front-end/my-app/src/pages/OrderList.jsx). */
module OrderPage {
  import opened Store
  import opened Paging
  import Orders

  /** An order as the page holds it: the JSON fields it reads. */
  datatype ShownOrder = ShownOrder(id: string, status: string, isPaid: bool, totalAmount: int)

  /** The page's copy of a stored order. */
  function Shown(id: Id, o: Order): (s: ShownOrder)
    ensures s.id == id && s.status == StatusName(o.status) && s.isPaid == o.isPaid
  {
    ShownOrder(id, StatusName(o.status), o.isPaid, o.totalAmount)
  }

  // ---------------------------------------------------------------------
  // Cancelling
  // ---------------------------------------------------------------------

  /** `!order.isPaid && order.status !== "Cancelled"`. */
  predicate CancelOffered(o: ShownOrder)
  {
    !o.isPaid && o.status != "Cancelled"
  }

  /** Every order the page offers to cancel is one the server cancels. */
  lemma OfferedImpliesAccepted(st: Store, userId: Id, orderId: Id)
    requires orderId in st.orders && st.orders[orderId].user == userId
    requires CancelOffered(Shown(orderId, st.orders[orderId]))
    ensures Orders.CancelOrder(st, userId, orderId).reply == Orders.OrderCancelled
  {
  }

  /** The server also accepts cancelling an already cancelled order, which
      the page never offers. */
  lemma ServerAcceptsWhatPageHides(st: Store, userId: Id, orderId: Id)
    requires orderId in st.orders && st.orders[orderId].user == userId
    requires !st.orders[orderId].isPaid && st.orders[orderId].status == Cancelled
    ensures !CancelOffered(Shown(orderId, st.orders[orderId]))
    ensures Orders.CancelOrder(st, userId, orderId).reply == Orders.OrderCancelled
  {
  }

  /** The update after a confirmed cancel: the order with that id becomes
      "Cancelled", every other order and field is kept.  The service
      swallows request errors, so this runs whatever the server replied. */
  function MarkCancelled(orders: seq<ShownOrder>, orderId: string): (r: seq<ShownOrder>)
    ensures |r| == |orders|
    ensures forall i :: 0 <= i < |orders| && orders[i].id == orderId ==> r[i] == orders[i].(status := "Cancelled")
    ensures forall i :: 0 <= i < |orders| && orders[i].id != orderId ==> r[i] == orders[i]
  {
    if orders == [] then []
    else [if orders[0].id == orderId then orders[0].(status := "Cancelled") else orders[0]]
         + MarkCancelled(orders[1..], orderId)
  }

  /** When the server accepts the cancel, the page's copy agrees with the
      stored order afterwards. */
  lemma MarkCancelledAgreesWithServer(st: Store, userId: Id, orderId: Id)
    requires Orders.Cancellable(st, userId, orderId)
    ensures var after := Orders.CancelOrder(st, userId, orderId).store;
      MarkCancelled([Shown(orderId, st.orders[orderId])], orderId) == [Shown(orderId, after.orders[orderId])]
  {
  }

  /** When the server refuses (another user's order), the page still shows
      the order as cancelled while the store keeps it as it was. */
  lemma MarkCancelledDivergesOnRefusal(st: Store, userId: Id, orderId: Id)
    requires orderId in st.orders && st.orders[orderId].user != userId && st.orders[orderId].status != Cancelled
    ensures Orders.CancelOrder(st, userId, orderId).store == st
    ensures MarkCancelled([Shown(orderId, st.orders[orderId])], orderId)[0].status == "Cancelled"
    ensures Shown(orderId, st.orders[orderId]).status != "Cancelled"
  {
  }

  // ---------------------------------------------------------------------
  // Status badge
  // ---------------------------------------------------------------------

  /** `getStatusColor`: a fixed case list with "default" for the rest.  The
      list names "Delivered", which no order has, and not "Completed". */
  function StatusColor(status: string): (r: string)
    ensures r == "default" <==> status !in {"Pending", "Processing", "Shipped", "Delivered", "Cancelled"}
    ensures r == "processing" <==> status == "Pending"
    ensures r == "warning" <==> status == "Processing"
    ensures r == "success" <==> status == "Shipped" || status == "Delivered"
    ensures r == "error" <==> status == "Cancelled"
  {
    match status
    case "Pending" => "processing"
    case "Processing" => "warning"
    case "Shipped" => "success"
    case "Delivered" => "success"
    case "Cancelled" => "error"
    case _ => "default"
  }

  /** `translateStatus` as written: `statusMap[status] || status`, with the
      map keyed by the same five names as the colours. */
  function TranslateStatus(status: string): (r: string)
    ensures status !in {"Pending", "Processing", "Shipped", "Delivered", "Cancelled"} ==> r == status
    ensures status in {"Pending", "Processing", "Shipped", "Delivered", "Cancelled"} ==> r != status
  {
    match status
    case "Pending" => "Chờ xử lý"
    case "Processing" => "Đang xử lý"
    case "Shipped" => "Đang giao hàng"
    case "Delivered" => "Đã giao hàng"
    case "Cancelled" => "Đã hủy"
    case _ => status
  }

  /** A completed order is shown untranslated, with the default colour. */
  lemma CompletedShownRaw()
    ensures TranslateStatus(StatusName(Completed)) == "Completed"
    ensures StatusColor(StatusName(Completed)) == "default"
  {
  }

  /** The translation as evidently intended: the label of "Delivered" is
      the label of the server's "Completed". */
  function TranslateOrderStatus(s: OrderStatus): (r: string)
  {
    match s
    case Pending => TranslateStatus("Pending")
    case Processing => TranslateStatus("Processing")
    case Shipped => TranslateStatus("Shipped")
    case Completed => TranslateStatus("Delivered")
    case Cancelled => TranslateStatus("Cancelled")
  }

  /** Every server status gets its own translated label. */
  lemma TranslateOrderStatusComplete(s: OrderStatus, t: OrderStatus)
    ensures TranslateOrderStatus(s) != StatusName(s)
    ensures s != t ==> TranslateOrderStatus(s) != TranslateOrderStatus(t)
  {
  }

  // ---------------------------------------------------------------------
  // Order number
  // ---------------------------------------------------------------------

  /** `order._id.slice(-8)`: the last eight characters, or the whole id
      when it is shorter. */
  function ShortNumber(id: string): (r: string)
    ensures |r| == if |id| < 8 then |id| else 8
    ensures r == id[|id| - |r|..]
  {
    Slice(id, -8, |id|)
  }
}
