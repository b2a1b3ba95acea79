/** The gateway checkout and its callback
    (back-end/controller/payment.controller.js).

    `createVNPayPayment` converts the cart into an order exactly as the
    cash-on-delivery handler does (including the stock-check fall-through),
    records a Pending "Bank Transfer" payment for the order, and answers with
    the gateway URL: the signed parameters, `qs`-encoded, after the gateway's
    base URL.  `vnpayReturn` checks the callback's signature and, for
    response code "00", marks the order paid and Processing and the order's
    first payment Completed.

    The clock, the two random numbers (transaction reference and payment
    transaction id) and the configuration are parameters. */
module Payments {
  import opened Wrappers
  import opened Strings
  import opened Store
  import opened Carts
  import Checkout
  import opened FormEncoding
  import opened Objects
  import opened Gateway

  /** A setting read from the gateway configuration file: the environment
      supplies a string or nothing, never `null`. */
  type Setting = v: Value | v.Text? || v.Undefined? witness Undefined

  /** The merchant configuration read from the gateway configuration file;
      the terminal code and return URL may be missing there. */
  datatype GatewayConfig = GatewayConfig(tmnCode: Setting, returnUrl: Setting, url: string, secret: string)

  /** The request-specific inputs the handler takes from the clock and the
      random number generator. */
  datatype RequestInputs = RequestInputs(txnRef: string, paymentTxnId: string, createDate: string, expireDate: string)

  /** The parameters sent to the gateway, in the handler's insertion order.
      The amount is in minor units: the total times 100. */
  function RequestParams(config: GatewayConfig, inputs: RequestInputs, orderId: Id, total: int): (ps: Params)
    ensures |ps| == 13
    ensures ps[8] == ("vnp_Amount", Number(total * 100))
    ensures ps[6] == ("vnp_OrderInfo", Text(orderId))
  {
    [ ("vnp_Version", Text("2.1.0")),
      ("vnp_Command", Text("pay")),
      ("vnp_TmnCode", config.tmnCode),
      ("vnp_Locale", Text("vn")),
      ("vnp_CurrCode", Text("VND")),
      ("vnp_TxnRef", Text(inputs.txnRef)),
      ("vnp_OrderInfo", Text(orderId)),
      ("vnp_OrderType", Text("other")),
      ("vnp_Amount", Number(total * 100)),
      ("vnp_ReturnUrl", config.returnUrl),
      ("vnp_IpAddr", Text("127.0.0.1")),
      ("vnp_CreateDate", Text(inputs.createDate)),
      ("vnp_ExpireDate", Text(inputs.expireDate)) ]
  }

  /** The payment URL: `${vnp_Url}?${qs.stringify(params)}`; `qs` leaves out
      undefined values and encodes the rest per RFC 3986. */
  function PaymentUrl(config: GatewayConfig, signed: Params): string
  {
    config.url + "?" + Serialize(Rfc3986, Echo(signed))
  }

  datatype CheckoutReply = EmptyCart | InvalidAmount | InsufficientStock(product: Id) | Redirect(url: string) | ServerError
  {
    function Code(): int
    {
      match this
      case EmptyCart => 400
      case InvalidAmount => 400
      case InsufficientStock(_) => 400
      case Redirect(_) => 200
      case ServerError => 500
    }
  }

  /** `createVNPayPayment`, for the user's cart, the id the new order
      receives, the configuration, the clock/random inputs and the HMAC.
      A short line's 400 is sent without a `return`; when the order save
      then throws, the catch's 500 cannot be sent any more, so the 400
      stands. */
  function CreateGatewayPayment(st: Store, user: Id, orderId: Id, config: GatewayConfig,
                                inputs: RequestInputs, hmac: (string, string) -> string): (o: Outcome<CheckoutReply>)
    ensures (user !in st.carts || |st.carts[user].items| == 0) ==> o == Outcome(st, EmptyCart)
    ensures o.reply == InvalidAmount ==> o.store == st
    ensures o.reply.Redirect? <==> Checkout.Succeeds(st, user, orderId)
    ensures o.reply.Redirect? ==>
      var items := st.carts[user].items;
      var total := Checkout.CartTotal(st.products, items);
      && o.reply.url == PaymentUrl(config, Sign(RequestParams(config, inputs, orderId, total), config.secret, hmac))
      && o.store.orders == st.orders[orderId := Checkout.Snapshot(user, items, total)]
      && o.store.carts == st.carts - {user}
      && o.store.products == Checkout.Decrement(st.products, items)
      && o.store.payments == st.payments + [Payment(orderId, "Bank Transfer", PaymentPending, inputs.paymentTxnId)]
      && o.store.reviews == st.reviews && o.store.users == st.users && o.store.routines == st.routines
  {
    Checkout.ConvertSucceeds(st, user, orderId);
    var c := Checkout.Convert(st, user, orderId);
    if c.Converted? then Checkout.ConvertEffects(st, user, orderId); GatewayConverted(st, user, orderId, config, inputs, hmac, c)
    else
      match c
      case NoCart => Outcome(st, EmptyCart)
      case Unresolved => Outcome(st, ServerError)
      case BadTotal => Outcome(st, InvalidAmount)
      case ManyShort(p) => Outcome(st, InsufficientStock(p))
  }

  /** The part of `createVNPayPayment` after the stock decrement: a 400
      already sent stands whatever follows; otherwise a failed save is a
      500, and a saved order gets its payment and the redirect. */
  function GatewayConverted(st: Store, user: Id, orderId: Id, config: GatewayConfig, inputs: RequestInputs,
                            hmac: (string, string) -> string, c: Checkout.Conversion): (o: Outcome<CheckoutReply>)
    requires c.Converted?
    ensures c.short.Some? ==> o.reply == InsufficientStock(c.short.value)
    ensures c.short.None? && !c.saved ==> o == Outcome(c.store, ServerError)
    ensures o.reply.Redirect? <==> c.short.None? && c.saved
    ensures c.saved ==> o.store == c.store.(payments := c.store.payments +
      [Payment(orderId, "Bank Transfer", PaymentPending, inputs.paymentTxnId)])
    ensures o.reply.Redirect? ==>
      o.reply.url == PaymentUrl(config, Sign(RequestParams(config, inputs, orderId, c.order.totalAmount), config.secret, hmac))
  {
    if !c.saved then
      if c.short.Some? then Outcome(c.store, InsufficientStock(c.short.value)) else Outcome(c.store, ServerError)
    else
      var paid := c.store.(payments := c.store.payments + [Payment(orderId, "Bank Transfer", PaymentPending, inputs.paymentTxnId)]);
      if c.short.Some? then Outcome(paid, InsufficientStock(c.short.value))
      else
        var signed := Sign(RequestParams(config, inputs, orderId, c.order.totalAmount), config.secret, hmac);
        Outcome(paid, Redirect(PaymentUrl(config, signed)))
  }

  /** The payment URL carries the signed parameters: its query parses back
      to them, the order id and the amount in minor units among them, and
      a callback echoing them verifies under the signing canonicaliser. */
  lemma PaymentUrlCarriesSignedRequest(config: GatewayConfig, inputs: RequestInputs, orderId: Id, total: nat,
                                       hmac: (string, string) -> string)
    ensures var ps := RequestParams(config, inputs, orderId, total);
      var signed := Sign(ps, config.secret, hmac);
      var query := Serialize(Rfc3986, Echo(signed));
      && PaymentUrl(config, signed) == config.url + "?" + query
      && Parse(Rfc3986, query) == Some(Echo(signed))
      && Lookup(Echo(signed), "vnp_OrderInfo") == Some(orderId)
      && Lookup(Echo(signed), "vnp_Amount") == Some(NatToString(total * 100))
      && VerifyShared(Echo(signed), config.secret, hmac)
  {
    var ps := RequestParams(config, inputs, orderId, total);
    var signed := Sign(ps, config.secret, hmac);
    ParseSerialize(Rfc3986, Echo(signed));
    RequestKeys(config, inputs, orderId, total);
    SharedRoundTrip(ps, config.secret, hmac);
    assert signed == ps + [(HashKey, Text(hmac(config.secret, SigningText(ps))))];
    RequestFieldsFound(config, inputs, orderId, total, signed);
  }

  /** The request has none of the signature keys. */
  lemma RequestKeys(config: GatewayConfig, inputs: RequestInputs, orderId: Id, total: int)
    ensures var ps := RequestParams(config, inputs, orderId, total);
      HashKey !in Keys(ps) && HashTypeKey !in Keys(ps)
  {
    var ps := RequestParams(config, inputs, orderId, total);
    forall i | 0 <= i < |ps| ensures ps[i].0 != HashKey && ps[i].0 != HashTypeKey {
      assert ps[i].0[..4] == "vnp_";
      assert ps[i].0[4] != 'S';
    }
  }

  /** Looking up a key in an echoed object finds its first entry's text,
      provided that entry is defined. */
  lemma {:induction false} LookupEcho(ps: Params, key: string, i: int)
    requires 0 <= i < |ps| && ps[i].0 == key && ps[i].1.Defined()
    requires forall j :: 0 <= j < i ==> ps[j].0 != key
    ensures Lookup(Echo(ps), key) == Some(ps[i].1.AsText())
    decreases i
  {
    if i > 0 {
      LookupEcho(ps[1..], key, i - 1);
    }
  }

  /** The order id and the amount are found in the echoed request, whatever
      follows it. */
  lemma RequestFieldsFound(config: GatewayConfig, inputs: RequestInputs, orderId: Id, total: nat, signed: Params)
    requires |signed| >= 13 && signed[..13] == RequestParams(config, inputs, orderId, total)
    ensures Lookup(Echo(signed), "vnp_OrderInfo") == Some(orderId)
    ensures Lookup(Echo(signed), "vnp_Amount") == Some(NatToString(total * 100))
  {
    var ps := RequestParams(config, inputs, orderId, total);
    assert forall j :: 0 <= j < 13 ==> signed[j] == ps[j];
    assert forall j :: 0 <= j < 6 ==> |ps[j].0| != 13;
    LookupEcho(signed, "vnp_OrderInfo", 6);
    assert forall j :: 0 <= j < 8 ==> ps[j].0 != "vnp_Amount" by {
      forall j | 0 <= j < 8 ensures ps[j].0 != "vnp_Amount" {
        assert ps[j].0[4] != 'A';
      }
    }
    LookupEcho(signed, "vnp_Amount", 8);
  }

  /** With one short line the payment path, too, answers 400 while the
      order, the decrement, the cart deletion and the payment all happen. */
  lemma GatewayStockCheckDoesNotGate(st: Store, user: Id, orderId: Id, config: GatewayConfig,
                                     inputs: RequestInputs, hmac: (string, string) -> string)
    requires user in st.carts && |st.carts[user].items| > 0
    requires Checkout.Resolved(st.products, st.carts[user].items)
    requires Checkout.CartTotal(st.products, st.carts[user].items) > 0
    requires |Checkout.ShortLines(st.products, st.carts[user].items)| == 1
    requires orderId !in st.orders
    ensures var o := CreateGatewayPayment(st, user, orderId, config, inputs, hmac);
      && o.reply.InsufficientStock? && o.reply.Code() == 400
      && orderId in o.store.orders && user !in o.store.carts
      && |o.store.payments| == |st.payments| + 1
      && o.store.products == Checkout.Decrement(st.products, st.carts[user].items)
  {
  }

  /** When the order save then fails, the 400 already sent for the short
      line is what the client sees; the stock stays decremented, and no
      order, payment or cart deletion follows. */
  lemma GatewayShortLineSurvivesFailedSave(st: Store, user: Id, orderId: Id, config: GatewayConfig,
                                           inputs: RequestInputs, hmac: (string, string) -> string)
    requires user in st.carts && |st.carts[user].items| > 0
    requires Checkout.Resolved(st.products, st.carts[user].items)
    requires Checkout.CartTotal(st.products, st.carts[user].items) > 0
    requires |Checkout.ShortLines(st.products, st.carts[user].items)| == 1
    requires orderId in st.orders
    ensures var o := CreateGatewayPayment(st, user, orderId, config, inputs, hmac);
      && o.reply == InsufficientStock(Checkout.ShortLines(st.products, st.carts[user].items)[0])
      && o.reply.Code() == 400
      && o.store == st.(products := Checkout.Decrement(st.products, st.carts[user].items))
  {
    Checkout.ConvertEffects(st, user, orderId);
  }

  // ---------------------------------------------------------------------
  // vnpayReturn
  // ---------------------------------------------------------------------

  datatype ResultStatus = Success | Failed

  datatype ReturnReply = InvalidSignature | ResultPage(status: ResultStatus, orderId: Option<string>)
  {
    function Code(): int { if InvalidSignature? then 400 else 302 }
  }

  /** `Payment.findOneAndUpdate({order}, {status: "Completed"})`: the first
      payment of the order becomes Completed. */
  function CompleteFirst(payments: seq<Payment>, orderId: Id): (r: seq<Payment>)
    ensures |r| == |payments|
    ensures forall i :: 0 <= i < |r| ==> r[i].order == payments[i].order
  {
    if |payments| == 0 then []
    else if payments[0].order == orderId then [payments[0].(status := PaymentCompleted)] + payments[1..]
    else [payments[0]] + CompleteFirst(payments[1..], orderId)
  }

  /** The first payment of the order: its index, or `|payments|`. */
  function FirstPaymentOf(payments: seq<Payment>, orderId: Id): (k: nat)
    ensures k <= |payments|
    ensures k < |payments| ==> payments[k].order == orderId
    ensures forall i :: 0 <= i < k ==> payments[i].order != orderId
  {
    if |payments| == 0 then 0
    else if payments[0].order == orderId then 0
    else 1 + FirstPaymentOf(payments[1..], orderId)
  }

  /** Exactly the order's first payment changes, to Completed. */
  lemma {:induction false} CompleteFirstChangesOne(payments: seq<Payment>, orderId: Id, i: int)
    requires 0 <= i < |payments|
    ensures CompleteFirst(payments, orderId)[i]
         == if i == FirstPaymentOf(payments, orderId) then payments[i].(status := PaymentCompleted) else payments[i]
    decreases |payments|
  {
    if payments[0].order != orderId && i > 0 {
      CompleteFirstChangesOne(payments[1..], orderId, i - 1);
    }
  }

  /** `findByIdAndUpdate(orderId, {status: "Processing", isPaid: true})`:
      whatever the order's status was. */
  function MarkPaid(orders: map<Id, Order>, orderId: Option<string>): (r: map<Id, Order>)
    ensures r.Keys == orders.Keys
    ensures forall id :: id in orders && Some(id) != orderId ==> r[id] == orders[id]
    ensures orderId.Some? && orderId.value in orders ==>
      r[orderId.value] == orders[orderId.value].(status := Processing, isPaid := true)
  {
    if orderId.Some? && orderId.value in orders then
      orders[orderId.value := orders[orderId.value].(status := Processing, isPaid := true)]
    else orders
  }

  /** `vnpayReturn` for the callback query, with the check as written. */
  function PaymentReturn(st: Store, q: Query, secret: string, hmac: (string, string) -> string): (o: Outcome<ReturnReply>)
    ensures !VerifyAsWritten(q, secret, hmac) <==> o.reply == InvalidSignature
    ensures o.reply != ResultPage(Success, Lookup(q, "vnp_OrderInfo")) ==> o.store == st
    ensures o.reply.ResultPage? ==> o.reply.orderId == Lookup(Unsigned(q), "vnp_OrderInfo")
    ensures o.reply.ResultPage? ==>
      (o.reply.status == Success <==> Lookup(Unsigned(q), "vnp_ResponseCode") == Some("00"))
  {
    if !VerifyAsWritten(q, secret, hmac) then Outcome(st, InvalidSignature)
    else
      var u := Unsigned(q);
      var orderId := Lookup(u, "vnp_OrderInfo");
      LookupUnsigned(q, "vnp_OrderInfo");
      if Lookup(u, "vnp_ResponseCode") == Some("00") then
        var payments := if orderId.Some? then CompleteFirst(st.payments, orderId.value) else st.payments;
        Outcome(st.(orders := MarkPaid(st.orders, orderId), payments := payments), ResultPage(Success, orderId))
      else Outcome(st, ResultPage(Failed, orderId))
  }

  /** Removing the signature fields does not affect other fields. */
  lemma LookupUnsigned(q: Query, key: string)
    requires key != HashKey && key != HashTypeKey
    ensures Lookup(Unsigned(q), key) == Lookup(q, key)
  {
    LookupDelete(q, HashKey, key);
    LookupDelete(Delete(q, HashKey), HashTypeKey, key);
  }

  lemma {:induction false} LookupDelete(q: Query, gone: string, key: string)
    requires key != gone
    ensures Lookup(Delete(q, gone), key) == Lookup(q, key)
    decreases |q|
  {
    if |q| > 0 {
      LookupDelete(q[1..], gone, key);
    }
  }

  /** A successful callback pays the order and completes its first payment;
      nothing else changes. */
  lemma PaymentReturnSuccess(st: Store, q: Query, secret: string, hmac: (string, string) -> string, id: Id)
    requires VerifyAsWritten(q, secret, hmac)
    requires Lookup(q, "vnp_ResponseCode") == Some("00") && Lookup(q, "vnp_OrderInfo") == Some(id)
    ensures var o := PaymentReturn(st, q, secret, hmac);
      && o.reply == ResultPage(Success, Some(id))
      && (id in st.orders ==> o.store.orders[id].status == Processing && o.store.orders[id].isPaid)
      && (forall other :: other in st.orders && other != id ==> o.store.orders[other] == st.orders[other])
      && o.store.products == st.products && o.store.carts == st.carts
      && o.store.payments == CompleteFirst(st.payments, id)
  {
    LookupUnsigned(q, "vnp_ResponseCode");
    LookupUnsigned(q, "vnp_OrderInfo");
  }

  /** Replaying a callback changes nothing further. */
  lemma PaymentReturnIdempotent(st: Store, q: Query, secret: string, hmac: (string, string) -> string)
    ensures var once := PaymentReturn(st, q, secret, hmac);
      PaymentReturn(once.store, q, secret, hmac) == once
  {
    var once := PaymentReturn(st, q, secret, hmac);
    if VerifyAsWritten(q, secret, hmac) {
      var u := Unsigned(q);
      var orderId := Lookup(u, "vnp_OrderInfo");
      if Lookup(u, "vnp_ResponseCode") == Some("00") {
        MarkPaidIdempotent(st.orders, orderId);
        if orderId.Some? {
          CompleteFirstIdempotent(st.payments, orderId.value);
        }
      }
    }
  }

  lemma MarkPaidIdempotent(orders: map<Id, Order>, orderId: Option<string>)
    ensures MarkPaid(MarkPaid(orders, orderId), orderId) == MarkPaid(orders, orderId)
  {
  }

  lemma {:induction false} CompleteFirstIdempotent(payments: seq<Payment>, orderId: Id)
    ensures CompleteFirst(CompleteFirst(payments, orderId), orderId) == CompleteFirst(payments, orderId)
    decreases |payments|
  {
    if |payments| > 0 && payments[0].order != orderId {
      CompleteFirstIdempotent(payments[1..], orderId);
    }
  }

  /** A genuine success callback that arrives after the order was cancelled
      revives it as paid and Processing. */
  lemma LateCallbackRevivesCancelledOrder(st: Store, q: Query, secret: string, hmac: (string, string) -> string, id: Id)
    requires VerifyAsWritten(q, secret, hmac)
    requires Lookup(q, "vnp_ResponseCode") == Some("00") && Lookup(q, "vnp_OrderInfo") == Some(id)
    requires id in st.orders && st.orders[id].status == Cancelled
    ensures PaymentReturn(st, q, secret, hmac).store.orders[id].status == Processing
  {
    PaymentReturnSuccess(st, q, secret, hmac, id);
  }
}
