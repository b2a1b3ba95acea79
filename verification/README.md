# Skincare shop: checkout, order lifecycle and page state, in Dafny

This project models the core of a small skincare e-commerce site. The back end is a set of Express
controllers over a document store. The front end is a set of React pages that keep local copies of
what the server holds.

**Back end.** Every controller is a pure function from a store to an `Outcome(store, reply)`. The
`Store` is a record of maps from id to document: products, carts, orders, users, routines. Payments
and reviews are sequences in insertion order. The handlers modelled are:

- carts: add, view, remove;
- the order factory, on both the cash-on-delivery path and the payment-gateway path: empty-cart
  guard, total, positive-total guard, stock check, per-line decrement, Pending/unpaid order
  snapshot, cart deletion;
- the order state machine: the user's cancel, the admin's status change, the gateway callback;
- the gateway's parameter canonicaliser, signer and verifier, with the form encoding they use;
- review eligibility, listing and search with slice paging;
- product status toggle, listing, creation and update;
- user status and listing;
- assigning a product to a skincare-routine step.

**Front end.** Each page's state handling is a pure function over the fields the page reads:

- the quiz answers and cursor;
- the order list's cancel button, optimistic update and status labels;
- the product page's rating histogram, quantity stepper and review prepend;
- the cart page's optimistic removal and checkout guards;
- the routine admin page's filter and step update;
- the product list's search and pagination controls;
- the admin add and edit product forms.

**Conventions.**

- *Parameters for what the model cannot see.* The HMAC-SHA512 signature is an arbitrary function
  parameter `hmac(secret, text)`, so every fact about signing holds for any keyed hash. Fresh
  document ids, the clock and the random transaction references are parameters too.
- *JavaScript objects.* They are association lists in insertion order (`Objects`), since both the
  signer and the quiz depend on key order.
- *Handlers that send a 400 without `return`.* They are modelled as the code runs. The handler
  goes on, and the later `res.status(...)` throws because the headers were already sent. Where
  this lets a mutation through, a corrected variant is modelled next to it and the intended
  property is proved of the variant.
- *Text.* Lower-casing is ASCII. Strings are compared by code point.

Modules, in dependency order:

- shared: `Wrappers`, `Strings`, `Lists`, `Objects`, `Paging`, `Store`;
- back end: `Carts`, `Checkout`, `FormEncoding`, `Gateway`, `Payments`, `Orders`, `Reviews`,
  `Products`, `Users`, `Routines`;
- pages: `Quiz`, `OrderPage`, `ProductDetail`, `CartPage`, `ProductList`, `RoutineAdmin`,
  `ProductForms`;
- `GatewayExamples`: concrete parameter lists on which the two canonicalisers differ.

## Model

| member | source | states |
|---|---|---|
| Carts.AddToCart | back-end/controller/cart.controller.js:6-36 | a missing or non-active product gives 404 and changes nothing; otherwise only the caller's cart changes, to the old cart (or a fresh empty one) with the line merged or appended, and the reply is 200 with that cart |
| Carts.AddLine | back-end/controller/cart.controller.js:24-29 | a product already in the cart gets its first line's quantity raised by the amount with every other line and the length kept; a new product is appended as one line at the end |
| Carts.AddLineQuantities | back-end/controller/cart.controller.js:24-29 | after an add, the quantity held for the added product grows by exactly the amount and every other product's quantity is unchanged |
| Carts.AddLinePreservesUnique | back-end/controller/cart.controller.js:24-29 | adding keeps "at most one line per product" |
| Carts.AddToCartPreservesWellFormed | back-end/controller/cart.controller.js:17-31 | addToCart keeps every stored cart at one line per product |
| Carts.AddToFreshCart | back-end/controller/cart.controller.js:17-21 | a user without a cart ends with a cart holding just the added line |
| Carts.AddTwiceMerges | back-end/controller/cart.controller.js:24-26 | two adds of one product into a fresh cart leave one line carrying the summed quantity |
| Carts.ViewCart | back-end/controller/cart.controller.js:38-51 | 404 exactly when the user has no cart; otherwise line i is stored line i, with its product when that product exists and null when it does not |
| Carts.Resolve | back-end/controller/cart.controller.js:41 | populating keeps every line and attaches the product document when it exists |
| Carts.Pull | back-end/controller/cart.controller.js:59-63 | the `$pull` keeps no line of the removed product and never grows the list |
| Carts.PullQuantities | back-end/controller/cart.controller.js:59-63 | after a pull the removed product's quantity is 0 and every other product's quantity is unchanged |
| Carts.PullAbsent | back-end/controller/cart.controller.js:59-63 | pulling a product that is not in the cart leaves the lines as they were |
| Carts.PullPreservesUnique | back-end/controller/cart.controller.js:59-63 | pulling keeps one line per product and removes exactly that product from the cart's product set |
| Carts.RemoveItem | back-end/controller/cart.controller.js:53-87 | no cart: 200 and nothing changes; a pull that empties the cart deletes it; otherwise the cart is replaced by the pulled lines; the reply is always 200 |
| Carts.RemoveAbsentIsNoOp | back-end/controller/cart.controller.js:59-79 | removing an absent product is a successful no-op |
| Carts.RemoveLastThenView | back-end/controller/cart.controller.js:66-72 | removing the only line deletes the cart, so a later view answers 404 |
| Carts.RemoveItemPreservesWellFormed | back-end/controller/cart.controller.js:59-73 | removal keeps every stored cart at one line per product |
| Checkout.AddLineTotal | back-end/controller/order.controller.js:40 | the cart total grows by price × quantity when a line is added, so the total is the sum of price × quantity over the lines |
| Checkout.ShortLines | back-end/controller/order.controller.js:45-54 | the list of short lines is empty exactly when every line's product has at least the line's quantity in stock |
| Checkout.ShortLinesAreShort | back-end/controller/order.controller.js:45-54 | every reported short line names a product whose stock is below its line's quantity |
| Checkout.Decrement | back-end/controller/order.controller.js:56-60 | every product's stock drops by its total quantity in the cart, and nothing else in the product changes |
| Checkout.DecrementPerLine | back-end/controller/order.controller.js:56-60 | with one line per product, each cart product's stock drops by exactly its line's quantity |
| Checkout.DecrementOthersUntouched | back-end/controller/order.controller.js:56-60 | products not in the cart are untouched |
| Checkout.Snapshot | back-end/controller/order.controller.js:62-70 | the new order holds the user, the cart lines and the total, and is Pending and unpaid |
| Checkout.ConvertEffects | back-end/controller/order.controller.js:36-73 | a conversion happens only for a non-empty resolved cart with a positive total; it decrements stock, stores the snapshot and deletes the cart |
| Checkout.CreateOrderCod | back-end/controller/order.controller.js:31-89 | a missing or empty cart gives 400 with nothing changed; a non-positive total gives 400 with nothing changed; a 201 comes exactly when the cart is non-empty with every product present, the total positive, every line in stock and the order id unused, and it stores the Pending/unpaid snapshot, decrements the stock and deletes that user's cart alone, leaving payments, reviews, users and routines unchanged |
| Checkout.ConvertSucceeds | back-end/controller/order.controller.js:31-70 | the conversion stores an order with no short line exactly when every guard passes and the save succeeds |
| Checkout.CodRejectsNonPositiveTotal | back-end/controller/order.controller.js:41-43 | a total of 0 or less is refused before any decrement or order creation |
| Checkout.CodStockCheckDoesNotGate | back-end/controller/order.controller.js:45-60 | with one short line the handler answers 400, yet the order is created, the cart is deleted and the stock goes negative |
| Checkout.CodOneShortLineWrites | back-end/controller/order.controller.js:45-73 | for every store with exactly one short line and an unused order id, the reply is 400 for that line while the order is saved, the cart deleted and the stock decremented |
| Checkout.CodTwoShortLinesWriteNothing | back-end/controller/order.controller.js:45-54 | with two or more short lines the second 400 throws inside the loop, so nothing is written |
| Checkout.CodScenario | back-end/controller/order.controller.js:40-80 | a two-unit cart of a 100000 product creates a 200000 order, leaves 3 of 5 in stock and deletes the cart |
| Checkout.CreateOrderGuarded | back-end/controller/order.controller.js:45-54 | the corrected handler returns after a short line, so a stock refusal changes nothing, like the empty-cart and amount refusals |
| Checkout.GuardedKeepsStockNonNegative | back-end/controller/order.controller.js:45-60 | with the guard, no checkout can drive a stock below zero |
| Checkout.GuardedAgreesWhenStocked | back-end/controller/order.controller.js:45-54 | when every line is in stock, the corrected and as-written handlers agree |
| Checkout.DecrementKeepsStockNonNegative | back-end/controller/order.controller.js:56-60 | decrementing only lines that are in stock keeps every stock at zero or above |
| Payments.CreateGatewayPayment | back-end/controller/payment.controller.js:11-114 | the same guards as the cash-on-delivery path; a redirect comes exactly when the cart is non-empty with every product present, the total positive, every line in stock and the order id unused; its URL is the gateway address with the signed request for that order and total, and the store then holds the new order and one Pending payment, has lost the cart and the ordered stock, and is otherwise unchanged |
| Payments.GatewayConverted | back-end/controller/payment.controller.js:32-108 | after the decrement, a 400 already sent for a short line stands whatever follows; without one a failed save is a 500; a saved order gets its Pending payment, and only a saved order without a short line is redirected, to the signed request |
| Payments.GatewayShortLineSurvivesFailedSave | back-end/controller/payment.controller.js:32-58 | with one short line and a failing order save, the client sees the 400, the stock stays decremented, and no order, payment or cart deletion follows |
| Payments.RequestParams | back-end/controller/payment.controller.js:69-85 | thirteen parameters, with the amount at total × 100 and the order info the order id |
| Payments.PaymentUrlCarriesSignedRequest | back-end/controller/payment.controller.js:69-104 | the URL is the gateway address and the signed query; the query parses back to the signed parameters, which carry the order id and the amount × 100 |
| Payments.RequestFieldsFound | back-end/controller/payment.controller.js:77-79 | the echoed request carries the order id and total × 100 under their keys |
| Payments.GatewayStockCheckDoesNotGate | back-end/controller/payment.controller.js:32-58 | on the gateway path a single short line also answers 400 while the order, decrement and cart deletion go ahead |
| Payments.PaymentReturn | back-end/controller/payment.controller.js:117-148 | 400 exactly when the as-written check fails; only a success can write; the result names the echoed order id, and it is a success exactly when the response code is "00" |
| Payments.PaymentReturnSuccess | back-end/controller/payment.controller.js:134-140 | a verified "00" marks the named order Processing and paid and leaves every other order, the products and the carts alone |
| Payments.MarkPaid | back-end/controller/payment.controller.js:138 | only the named order changes, to Processing and paid |
| Payments.CompleteFirst | back-end/controller/payment.controller.js:139 | payments keep their orders and their count |
| Payments.CompleteFirstChangesOne | back-end/controller/payment.controller.js:139 | only the first payment of the order becomes Completed |
| Payments.FirstPaymentOf | back-end/controller/payment.controller.js:139 | the index found is the first payment referencing the order, or the length when there is none |
| Payments.PaymentReturnIdempotent | back-end/controller/payment.controller.js:117-148 | replaying the same callback changes nothing more |
| Payments.LateCallbackRevivesCancelledOrder | back-end/controller/payment.controller.js:137-138 | a verified success for an order the user cancelled sets it back to Processing |
| FormEncoding.Utf8RoundTrip | back-end/controller/payment.controller.js:95 | the UTF-8 bytes that the query encoding percent-escapes decode back to the text, which is the byte step of EncodeRoundTrip |
| FormEncoding.PercentRoundTrip | back-end/controller/payment.controller.js:95 | percent-decoding inverts percent-encoding in both styles |
| FormEncoding.EncodeRoundTrip | back-end/controller/payment.controller.js:95-104 | encoding a string, in either style, and decoding it gives it back |
| FormEncoding.EncodePlain | back-end/controller/payment.controller.js:125 | a string of unreserved characters encodes to itself |
| FormEncoding.ParseSerialize | back-end/controller/payment.controller.js:95-104 | parsing a serialised parameter list gives the list back |
| FormEncoding.SerializeInjective | back-end/controller/payment.controller.js:95 | two lists with the same serialisation are equal |
| Gateway.SortByKey | back-end/controller/payment.controller.js:88-90 | sorting is a permutation of the retained pairs |
| Gateway.SortAscending | back-end/controller/payment.controller.js:88-90 | with distinct keys the sorted pairs have strictly ascending keys |
| Gateway.AscendingUnique | back-end/controller/payment.controller.js:88-90 | two ascending lists with the same pairs are equal, so the canonical form does not depend on the input's key order |
| Gateway.RetainedKeys | back-end/controller/payment.controller.js:89 | the canonical list has no hash key and only keys of the input |
| Gateway.RetainedMembers | back-end/controller/payment.controller.js:89-92 | a pair is retained exactly when its key is not the hash key and its value is defined, and it keeps that value's text |
| Gateway.CanonicalAscending | back-end/controller/payment.controller.js:87-93 | the canonical list's keys ascend strictly |
| Gateway.SigningTextOrderIndependent | back-end/controller/payment.controller.js:87-95 | two parameter objects with the same entries in any order sign the same text |
| Gateway.Sign | back-end/controller/payment.controller.js:100-103 | the signed parameters are the input with the hash of the canonical text appended under `vnp_SecureHash` |
| Gateway.EchoSigned | back-end/controller/payment.controller.js:104-123 | after the redirect, the callback sees the signature under its key, and removing the two hash keys leaves exactly the retained request |
| Gateway.SharedRoundTrip | back-end/controller/payment.controller.js:95-132 | with one canonicaliser on both sides, every signed request verifies |
| Gateway.AsWrittenAgreesOnPlainSorted | back-end/controller/payment.controller.js:125 | the as-written verifier agrees with the shared one when the echoed keys ascend and no value needs encoding |
| Gateway.AsWrittenRejectsWhenTextsDiffer | back-end/controller/payment.controller.js:125-132 | when the two texts hash differently, the shared verifier accepts the genuine callback and the as-written one refuses it |
| GatewayExamples.AsWrittenRejectsGenuineSignatures | back-end/controller/payment.controller.js:95-132 | a value with a space and an unsorted key order each make a genuine signature fail as written, with the identity as hash |
| Orders.CancelOrder | back-end/controller/order.controller.js:91-129 | 200 exactly when the caller owns the unpaid order; 400 for a missing or foreign order and for a paid one, with nothing changed; a success changes only that order's status to Cancelled |
| Orders.CancelIgnoresStatus | back-end/controller/order.controller.js:104-114 | an owned unpaid order is cancelled whatever its status, keeping items, total and payment flag |
| Orders.CancelIdempotent | back-end/controller/order.controller.js:104-114 | cancelling again succeeds and changes nothing more |
| Orders.CancelOthersOrderRejected | back-end/controller/order.controller.js:96-103 | another user's order cannot be cancelled and nothing changes |
| Orders.CancelKeepsStock | back-end/controller/order.controller.js:91-129 | a cancel never restores or touches stock |
| Orders.ChangeStatus | back-end/controller/order.controller.js:167-190 | a value outside the five statuses gives 400; an unknown order gives 404; both change nothing; otherwise exactly that status is set |
| Orders.ChangeStatusAnyTransition | back-end/controller/order.controller.js:169-184 | any status can follow any other, and only that order changes |
| Orders.CompletedCanReturnToPending | back-end/controller/order.controller.js:169-184 | a completed order can be set back to Pending |
| Orders.LowerCaseStatusRejected | back-end/controller/order.controller.js:169-173 | status names are case-sensitive |
| Orders.ListOrders | back-end/controller/order.controller.js:131-164 | a negative offset fails; otherwise the total is the matching count, the page count is ⌈total/limit⌉, and the rows are at most limit matching orders |
| Orders.ListOrdersWindow | back-end/controller/order.controller.js:136-143 | for page ≥ 1 the rows are the page's window of the matching orders, newest first; no status filter matches all |
| Store.ParseStatus | back-end/controller/order.controller.js:169-171 | a name parses exactly when it is one of the five statuses, and it parses to that status |
| Store.ParseStatusName | back-end/controller/order.controller.js:169-171 | every status name parses back to its status |
| Paging.PageCount | back-end/controller/order.controller.js:151 | for a positive limit, ⌈total/limit⌉ pages cover the rows and no page is empty; a zero limit gives NaN or Infinity as JavaScript does |
| Paging.Slice | back-end/controller/review.controller.js:136 | `Array.prototype.slice` with negative and out-of-range indices resolved |
| Paging.StorePage | back-end/controller/user.controller.js:42-45 | skip then limit: fails exactly on a negative skip, returns at most the limit, and returns a prefix of the rows after the skip |
| Paging.PageWindow | back-end/controller/review.controller.js:136 | for page, limit ≥ 1 the slice and the skip/limit window are the same rows |
| Paging.PageOfSlice | back-end/controller/review.controller.js:136 | for page, limit ≥ 1 the slice shows exactly the rows at positions (page − 1)·limit up to page·limit or the end, in order |
| Paging.RowShownOnItsPage | back-end/controller/review.controller.js:136 | on any page shown row by row, row i appears at position i mod limit of page i div limit + 1 |
| Paging.RowOnItsPage | back-end/controller/review.controller.js:135-144 | every row sits at position i mod limit on page i div limit + 1, which is within the page count |
| Paging.PastLastPageEmpty | back-end/controller/review.controller.js:136 | a page past the last is empty |
| Reviews.CreateReview | back-end/controller/review.controller.js:6-73 | 400 for an unknown product, for a product the user never ordered, and for a second review, each with nothing stored; a 201 appends exactly the given review |
| Reviews.CreateReviewPreservesOneEach | back-end/controller/review.controller.js:41-49 | one review per user and product is preserved |
| Reviews.CancelledOrderStillQualifies | back-end/controller/review.controller.js:22-38 | an order in any status, Cancelled included, makes the user eligible |
| Reviews.SecondReviewRejected | back-end/controller/review.controller.js:41-49 | after a review, a second one by the same user for the same product is refused and nothing changes |
| Reviews.ReviewsOf | back-end/controller/review.controller.js:76-106 | 404 exactly for an unknown product; otherwise every listed review is of that product and every review of it is listed |
| Reviews.ReviewsOfNewestFirst | back-end/controller/review.controller.js:89-91 | the listing read backwards is the product's reviews in creation order, each as often as stored |
| Reviews.NewReviewListedFirst | back-end/controller/review.controller.js:89-91 | a new review heads the product's listing, newest first |
| Reviews.AllReviews | back-end/controller/review.controller.js:109-152 | the total is the matching count and the page count is ⌈total/limit⌉; every row matches the search |
| Reviews.AllReviewsWindow | back-end/controller/review.controller.js:121-136 | for page, limit ≥ 1 the k-th row is matching review (page − 1)·limit + k, and every matching review of that window is shown |
| Reviews.EmptySearchKeepsAll | back-end/controller/review.controller.js:126-144 | an empty search pages over every review |
| Reviews.EveryReviewOnItsPage | back-end/controller/review.controller.js:135-144 | every review appears on exactly the page that holds its index |
| Reviews.SearchIgnoresCase | back-end/controller/review.controller.js:128-129 | the match on the review author's name ignores case |
| Products.Toggled | back-end/controller/product.controller.js:169 | "active" goes to "inactive" and everything else to "active" |
| Products.ToggleStatus | back-end/controller/product.controller.js:159-184 | a missing product gives 400 and nothing changes; otherwise only that product's status changes |
| Products.ToggleTwice | back-end/controller/product.controller.js:169 | toggling twice from "active" or "inactive" restores the store |
| Products.ToggleNormalises | back-end/controller/product.controller.js:169 | any other status toggles to "active", then to "inactive" |
| Products.ToggleIsStatusUpdate | back-end/controller/product.controller.js:169-170 | a toggle is the update that sets only the toggled status |
| Products.Ingredients | back-end/controller/product.controller.js:67 | no ingredients for an absent or empty field; otherwise the comma-split pieces, none containing a comma |
| Products.IngredientsRoundTrip | back-end/controller/product.controller.js:67 | joining the split pieces with commas gives the submitted text back |
| Products.IngredientsFromList | back-end/controller/product.controller.js:67 | a comma-free list joined with commas splits back into itself |
| Products.NewProduct | back-end/controller/product.controller.js:62-72 | the document carries the submitted fields, the split ingredients and the file path |
| Products.CreateProduct | back-end/controller/product.controller.js:49-90 | no file gives 400 and changes nothing; a clashing id fails; otherwise exactly one new product is stored |
| Products.Patch | back-end/controller/product.controller.js:140-143 | each of the nine fields sent replaces the stored one, each field not sent keeps its stored value, and the image URL is kept |
| Products.PatchIdempotent | back-end/controller/product.controller.js:140-143 | applying one update twice is applying it once |
| Products.UpdateProduct | back-end/controller/product.controller.js:122-157 | an unknown product gives 400 and nothing changes; otherwise only that product is patched |
| Products.BrandName | back-end/controller/product.controller.js:29 | the listed brand is the brand's name, or null when the product has none |
| Products.AdminProducts | back-end/controller/product.controller.js:3-46 | a negative offset fails; otherwise the total is the matching count, the page count is ⌈total/limit⌉, and the rows are at most limit matching products |
| Products.AdminProductsWindow | back-end/controller/product.controller.js:12-16 | for page, limit ≥ 1 the k-th row is the administrator's row of matching product (page − 1)·limit + k, in store order, and the whole window is shown |
| Products.ActiveProducts | back-end/controller/product.controller.js:186-227 | only active products that match category and skin type are listed; the reply carries the total but no page count |
| Products.ActiveProductsWindow | back-end/controller/product.controller.js:196-203 | for page, limit ≥ 1 the k-th row is the summary of matching active product (page − 1)·limit + k, newest first, and the whole window is shown |
| Products.InactiveNeverListed | back-end/controller/product.controller.js:191 | an inactive product is never listed to customers |
| Products.UnfilteredCounts | back-end/controller/product.controller.js:7-11 | with no category or skin type, the admin total counts every product; the customer listing (lines 191-193) counts the active ones |
| Users.View | back-end/controller/user.controller.js:5 | the returned record keeps every field but the password |
| Users.ViewForgetsPassword | back-end/controller/user.controller.js:5 | the returned record does not depend on the password |
| Users.GetUser | back-end/controller/user.controller.js:3-25 | 404 exactly for an unknown user; otherwise the user without the password |
| Users.ListUsers | back-end/controller/user.controller.js:27-69 | a negative offset fails; otherwise the total is the matching count, the page count is ⌈total/limit⌉, and the rows are at most limit matching users |
| Users.ListUsersWindow | back-end/controller/user.controller.js:41-45 | for page, limit ≥ 1 the k-th row is the password-free view of matching user (page − 1)·limit + k, newest first, and the whole window is shown |
| Users.AdminsNeverListed | back-end/controller/user.controller.js:31 | an account whose role is not "USER" is never listed |
| Users.EmailFilterIgnoresCase | back-end/controller/user.controller.js:33-35 | the email filter matches case-insensitively |
| Users.UpdateUserStatus | back-end/controller/user.controller.js:71-101 | a status other than ACTIVE/INACTIVE gives 400 before any lookup; an unknown user gives 404; otherwise only that user's status changes |
| Users.UpdateUserStatusIdempotent | back-end/controller/user.controller.js:81-89 | setting the same status again changes nothing more |
| Users.LowerCaseUserStatusRejected | back-end/controller/user.controller.js:74-78 | "active" in lower case is refused |
| Routines.FirstStep | back-end/controller/skincare-routine.controller.js:41 | finds the first step with the number, or none when no step has it |
| Routines.AssignProduct | back-end/controller/skincare-routine.controller.js:28-64 | 400 for a missing routine or step, with nothing changed; otherwise only the first matching step's product changes |
| Routines.AssignedStepHoldsProduct | back-end/controller/skincare-routine.controller.js:41-49 | after an assignment, looking the step up again finds the product |
| Routines.DuplicateStepNumberOnlyFirst | back-end/controller/skincare-routine.controller.js:41-50 | with two steps sharing a number, the later one is untouched |
| Routines.AssignIdempotent | back-end/controller/skincare-routine.controller.js:49-50 | assigning the same product twice is assigning it once |
| Quiz.InitAnswers | front-end/my-app/src/pages/QuizPage.jsx:29-33 | after loading, the answer object has exactly the question ids as keys, each once, all null |
| Quiz.SelectAnswer | front-end/my-app/src/pages/QuizPage.jsx:44-49 | the selected question maps to the option and every other entry reads as before |
| Quiz.CursorStaysInRange | front-end/my-app/src/pages/QuizPage.jsx:51-61 | Next and Prev keep the cursor within the questions |
| Quiz.SelectEnablesNext | front-end/my-app/src/pages/QuizPage.jsx:197 | once the current question is answered, Next is enabled |
| Quiz.Unanswered | front-end/my-app/src/pages/QuizPage.jsx:65 | the count is zero exactly when every answer is set |
| Quiz.SelectCounts | front-end/my-app/src/pages/QuizPage.jsx:44-65 | answering an open question lowers the open count by one; re-answering leaves it |
| Quiz.Submit | front-end/my-app/src/pages/QuizPage.jsx:63-75 | blocked, reporting the null count, exactly when some answer is null; otherwise one entry per key, in key order, with the option's scores |
| Quiz.FreshQuizBlocked | front-end/my-app/src/pages/QuizPage.jsx:29-70 | a freshly loaded quiz is blocked, reporting every question as open |
| OrderPage.OfferedImpliesAccepted | front-end/my-app/src/pages/OrderList.jsx:186 | every order offered a cancel button is one the server cancels |
| OrderPage.ServerAcceptsWhatPageHides | front-end/my-app/src/pages/OrderList.jsx:186 | the server also cancels an already cancelled unpaid order, which the page does not offer |
| OrderPage.MarkCancelled | front-end/my-app/src/pages/OrderList.jsx:43-45 | only the orders with the id become Cancelled; the others and all other fields are kept |
| OrderPage.MarkCancelledAgreesWithServer | front-end/my-app/src/pages/OrderList.jsx:41-45 | after an accepted cancel, the page's copy equals the stored order |
| OrderPage.MarkCancelledDivergesOnRefusal | front-end/my-app/src/pages/OrderList.jsx:41-45 | after a refused cancel the page still shows Cancelled while the store is unchanged |
| OrderPage.StatusColor | front-end/my-app/src/pages/OrderList.jsx:67-82 | each colour is given exactly for its statuses: "processing" for Pending, "warning" for Processing, "success" for Shipped or Delivered, "error" for Cancelled, and "default" exactly for every other status |
| OrderPage.TranslateStatus | front-end/my-app/src/pages/OrderList.jsx:85-94 | a status outside the map is shown as it is, and each of the five mapped statuses is shown translated, never as its own name |
| OrderPage.CompletedShownRaw | front-end/my-app/src/pages/OrderList.jsx:67-94 | the server's "Completed" is shown untranslated and with the default colour |
| OrderPage.TranslateOrderStatusComplete | front-end/my-app/src/pages/OrderList.jsx:85-94 | with the intended map every server status gets its own translated label |
| OrderPage.ShortNumber | front-end/my-app/src/pages/OrderList.jsx:138 | the last eight characters of the id, or all of a shorter id |
| ProductDetail.RatingCounts | front-end/my-app/src/pages/ProductDetail.jsx:106-109 | keys 1..5 plus every rating that occurs, each counting the reviews with that rating |
| ProductDetail.BucketsSumToReviews | front-end/my-app/src/pages/ProductDetail.jsx:106-109 | with ratings in 1..5, exactly five buckets, summing to the number of reviews |
| ProductDetail.Increment | front-end/my-app/src/pages/ProductDetail.jsx:90-92 | adds exactly one |
| ProductDetail.Decrement | front-end/my-app/src/pages/ProductDetail.jsx:94-98 | subtracts one above 1 and does nothing at 1 |
| ProductDetail.StepperStaysPositive | front-end/my-app/src/pages/ProductDetail.jsx:90-98 | from 1 the quantity stays at least 1, and a decrement undoes an increment |
| ProductDetail.SubmitReview | front-end/my-app/src/pages/ProductDetail.jsx:49-75 | a failed request changes nothing; a success prepends one review, keeps the others in order, falls back to the local rating and comment and an anonymous author, and resets the form to 5 and "" |
| ProductDetail.EmptyReplyFallsBack | front-end/my-app/src/pages/ProductDetail.jsx:55-63 | an empty reply lists the form's own rating and comment under the anonymous author |
| ProductDetail.SubmittedReviewCounted | front-end/my-app/src/pages/ProductDetail.jsx:106-109 | a submitted review lands in its rating's bucket |
| CartPage.Loaded | front-end/my-app/src/pages/Cart.jsx:9-19 | the page holds the stored lines, or null without a cart |
| CartPage.RemoveLocal | front-end/my-app/src/pages/Cart.jsx:22-37 | on a 200 the lines of other products are kept in order; on any other status the cart is unchanged |
| CartPage.FilterIsPull | front-end/my-app/src/pages/Cart.jsx:29 | the page's filter drops the same lines as the server's `$pull` |
| CartPage.RemoveLocalMatchesStore | front-end/my-app/src/pages/Cart.jsx:25-30 | after a removal the page shows what the store keeps, or no lines when the cart was deleted |
| CartPage.CodCheckout | front-end/my-app/src/pages/Cart.jsx:54-70 | refused exactly for a null or empty cart; navigates to the orders only on a 201 |
| CartPage.GatewayCheckout | front-end/my-app/src/pages/Cart.jsx:40-51 | refused exactly for a null or empty cart; otherwise it follows the returned URL |
| CartPage.GuardMatchesServer | front-end/my-app/src/pages/Cart.jsx:40-59 | the page's guard refuses exactly the carts the server answers "cart is empty" for |
| ProductList.Search | front-end/my-app/src/pages/ProductList.jsx:63-65 | the shown products are those of the page whose name contains the term, ignoring case |
| ProductList.EmptySearchShowsAll | front-end/my-app/src/pages/ProductList.jsx:63-65 | an empty term shows every product |
| ProductList.ShownTotalPages | front-end/my-app/src/pages/ProductList.jsx:53 | a missing, zero or NaN page count reads as 1 |
| ProductList.PageButtons | front-end/my-app/src/pages/ProductList.jsx:353-384 | buttons 1..min(count, 5), plus the last page when there are more than five |
| ProductList.ButtonsInRange | front-end/my-app/src/pages/ProductList.jsx:353-384 | every button names a page within the count, and the first and last pages have one |
| ProductList.PrevNextWalk | front-end/my-app/src/pages/ProductList.jsx:345-392 | Prev is enabled exactly above page 1 and Next exactly below the last page |
| ProductList.Reset | front-end/my-app/src/pages/ProductList.jsx:195-199 | reset clears category, skin type and sort order and keeps the search term and page |
| ProductList.AsWrittenShowsOnlyFirstPage | front-end/my-app/src/pages/ProductList.jsx:53 | with more than eight matching products, the page shows one page, no controls, and fewer rows than match |
| ProductList.IntendedTotalPages | front-end/my-app/src/services/ProductService.js:22-25 | the intended count, ⌈total/8⌉, covers every matching product |
| ProductList.IntendedReachesEveryProduct | front-end/my-app/src/pages/ProductList.jsx:334-397 | with the intended count, matching product i is on a reachable page, page i div 8 + 1, where the listing shows it at position i mod 8; the controls show when that is not the first page |
| RoutineAdmin.Shown | front-end/my-app/src/pages/admin/SkincareRoutineManagement.jsx:9-19 | the page's routine keeps the name and steps, and has a skin-type name exactly when the skin type is populated |
| RoutineAdmin.FilterBySkinType | front-end/my-app/src/pages/admin/SkincareRoutineManagement.jsx:36-38 | an empty selection shows all; otherwise a routine is shown exactly when its lower-cased skin-type name equals the selection |
| RoutineAdmin.UpperCaseSelectionMatchesNothing | front-end/my-app/src/pages/admin/SkincareRoutineManagement.jsx:37 | a selection with an upper-case letter shows nothing |
| RoutineAdmin.FilterBySkinTypeIdempotent | front-end/my-app/src/pages/admin/SkincareRoutineManagement.jsx:36-38 | filtering twice shows the same routines |
| RoutineAdmin.CategoryForStep | front-end/my-app/src/pages/admin/StepProducts.jsx:11-18 | a category exactly for steps 1..5 |
| RoutineAdmin.CategoryForStepInjective | front-end/my-app/src/pages/admin/StepProducts.jsx:11-17 | different steps list different categories |
| RoutineAdmin.ReplaceSteps | front-end/my-app/src/pages/admin/SkincareRoutineManagement.jsx:26 | every step with the updated number is replaced and the others are kept, with count and order preserved |
| RoutineAdmin.UpdateRoutine | front-end/my-app/src/pages/admin/SkincareRoutineManagement.jsx:22-30 | only the routine with the id has its steps replaced |
| RoutineAdmin.FindProduct | front-end/my-app/src/pages/admin/StepProducts.jsx:39 | finds the selected product exactly when it is among those offered |
| RoutineAdmin.AddToStep | front-end/my-app/src/pages/admin/StepProducts.jsx:32-46 | no selection or a failed request changes nothing; otherwise the step is updated with the found product and the selection resets to "" |
| RoutineAdmin.AddToStepMatchesServer | front-end/my-app/src/pages/admin/StepProducts.jsx:35-40 | with distinct step numbers, the page's routine after an add equals the stored routine after the server's assignment |
| RoutineAdmin.AddToStepDivergesOnDuplicateSteps | front-end/my-app/src/pages/admin/SkincareRoutineManagement.jsx:26 | with a repeated step number the page updates both steps while the server updates the first only |
| ProductForms.ValueOf | front-end/my-app/src/pages/admin/ProductForm.jsx:65 | `product[key]`: the stored value, or undefined for a missing key |
| ProductForms.Append | front-end/my-app/src/pages/admin/ProductForm.jsx:65 | one part under the key, a file part exactly for a file |
| ProductForms.AddChange | front-end/my-app/src/pages/admin/ProductForm.jsx:49-52 | only the named field changes, to the typed text |
| ProductForms.AddFile | front-end/my-app/src/pages/admin/ProductForm.jsx:54-56 | only `image` changes |
| ProductForms.Write | front-end/my-app/src/pages/admin/ProductForm.jsx:51 | a spread-and-set writes one key and keeps every other |
| ProductForms.AddPart | front-end/my-app/src/pages/admin/ProductForm.jsx:61-67 | ingredients go through the comma split and throw unless they are text; other fields are appended as they are |
| ProductForms.AddSubmit | front-end/my-app/src/pages/admin/ProductForm.jsx:58-67 | one part per key in key order, or a throw exactly when some key throws |
| ProductForms.AddIngredientsVerbatim | front-end/my-app/src/pages/admin/ProductForm.jsx:63 | the split ingredient text arrives unchanged, and the server splits it into the same pieces |
| ProductForms.InitialAddDisabled | front-end/my-app/src/pages/admin/ProductForm.jsx:143 | the empty form cannot be submitted |
| ProductForms.AddEnabledOnceFilled | front-end/my-app/src/pages/admin/ProductForm.jsx:143 | filling the five required fields enables the button |
| ProductForms.AddChangeKeepsNoFile | front-end/my-app/src/pages/admin/ProductForm.jsx:49-52 | typing never adds a file |
| ProductForms.AddWithoutImageRejected | front-end/my-app/src/pages/admin/ProductForm.jsx:58-67 | a form without a picked file sends no file part, and the server answers 400 for that |
| ProductForms.EditChange | front-end/my-app/src/pages/admin/EditProductForm.jsx:43-47 | view-only does nothing; otherwise only the named field changes |
| ProductForms.EditFile | front-end/my-app/src/pages/admin/EditProductForm.jsx:49-52 | view-only does nothing; otherwise only `image` changes |
| ProductForms.ZeroStockBlocksSave | front-end/my-app/src/pages/admin/EditProductForm.jsx:210 | a loaded stock of 0 disables saving |
| ProductForms.EditParts | front-end/my-app/src/pages/admin/EditProductForm.jsx:59-70 | an ingredient array gives one `ingredients[]` entry per element; a brand object gives its id; a null brand throws; others are appended as they are |
| ProductForms.EditBody | front-end/my-app/src/pages/admin/EditProductForm.jsx:58-70 | the body fails exactly when some key throws |
| ProductForms.EditSubmit | front-end/my-app/src/pages/admin/EditProductForm.jsx:54-80 | view-only sends nothing; otherwise it throws exactly when the body does, or sends the body |
| ProductForms.EditCollectOwned | front-end/my-app/src/pages/admin/EditProductForm.jsx:59-70 | the values under a part key are exactly those its own form key contributed |
| ProductForms.EditIngredientsArrive | front-end/my-app/src/pages/admin/EditProductForm.jsx:60-64 | every loaded ingredient arrives, in order, as one `ingredients[]` value |
| ProductForms.EditBrandSentAsId | front-end/my-app/src/pages/admin/EditProductForm.jsx:65-66 | a populated brand arrives as its id alone |
| ProductForms.NullBrandThrows | front-end/my-app/src/pages/admin/EditProductForm.jsx:65-66 | a null brand makes the submit throw before any request |
| Objects.LookupPut | front-end/my-app/src/pages/QuizPage.jsx:45-48 | writing a key makes it read the new value and leaves every other key's value |
| Objects.PutKeys | front-end/my-app/src/pages/QuizPage.jsx:31 | a write adds its key to the keys, and grows the object only for a new key |
| Objects.PutKeepsUnique | front-end/my-app/src/pages/QuizPage.jsx:31 | writing keeps the keys distinct |
| Objects.Delete | back-end/controller/payment.controller.js:122-123 | the deleted key is gone and every remaining entry was there before |
| Lists.Filter | back-end/controller/review.controller.js:125-131 | keeps, in order, exactly the elements the predicate accepts |
| Lists.FilterIdempotent | back-end/controller/review.controller.js:125-131 | filtering twice is filtering once |
| Strings.Lower | back-end/controller/review.controller.js:128 | lower-cases each ASCII letter and keeps every other character |
| Strings.JoinSplit | back-end/controller/product.controller.js:67 | splitting on a separator and joining with it gives the text back |
| Strings.SplitJoin | back-end/controller/product.controller.js:67 | separator-free pieces joined and split again give the pieces back |
| Strings.ParseNatToString | back-end/controller/payment.controller.js:79 | the decimal text of a number parses back to it |

## Left out

- **Database access.**
  - Mongoose `find`, `populate`, `countDocuments`, `save` and the database's sort are not modelled.
  - Query results are the store's maps and sequences.
  - A "newest first" listing takes the documents already in creation order.
  - ObjectId casts are not modelled: ids are strings and the cast never fails.
- **HTTP plumbing.**
  - Express `res` objects, redirects and the 500 catch blocks are not modelled.
  - Each reply is a datatype with its status code.
  - A response sent after headers were already sent ends the handler without a reply. The earlier
    reply stands.
- **Cryptography.** The HMAC-SHA512 internals are not modelled; the hash is a function parameter.
- **Clocks and randomness.** The `moment` dates, the 15-minute expiry and the `Math.random`
  transaction references are not modelled. They are constant inputs to the request parameters.
- **Concurrency.** Each request is one atomic step; races on stock and carts are not modelled.
- **Floating point.**
  - The average rating and `toFixed`, the rating bar widths and the quiz progress bar are not
    modelled.
  - Totals and prices are integers.
  - `Math.ceil` of an integer ratio is modelled exactly.
- **Schema files.** The Mongoose schemas are not part of this model.
  - A new product's status is taken to default to "active".
  - Required-field validation and numeric casting of multipart fields are not modelled.
- **Other controllers.** `getOrderList`, `getProductDetail` and `getSkincareRoutineList` only read
  and reply. Brands, services, routes and the admin tables are outside the core.
- **Products.UpdateProduct:** stores an uploaded file under `image`, which the schema does not
  hold. The model keeps `imageUrl` unchanged, as the stored document does.
- **ProductList.Search:** the sort order chosen on the page is never sent to the server, so it
  has no effect and is not modelled.
- **ProductDetail.SubmitReview:** the review service's reply shape is not part of this model.
  The fields the page reads are each optional.
- **RoutineAdmin.AddToStep:** the product put on the step is held by its id rather than the whole
  listed product.
- **ProductForms.Value:** form values are limited to text, numbers, text lists, a populated
  reference, a file, null and undefined. Mongoose's casting of the multipart body is not modelled.
- **ProductForms.AddFile:** a picked file is held by its name. Its contents and the upload are
  not modelled.
- **Strings.Lower:** lower-cases ASCII letters only; JavaScript's `toLowerCase` covers all of
  Unicode.
- **Users.ListUsers:** the `$regex` email filter is modelled as a case-insensitive substring. An
  email containing regular-expression metacharacters is matched literally.
- **Gateway.Echo:** the gateway's callback is modelled as the gateway echoing the signed
  request's parameters. A real return carries the gateway's own fields (its response code,
  transaction number and bank code) under its own signature. Gateway.EchoSigned,
  Gateway.SharedRoundTrip and the signature finding below are statements about such an echo.
- **Payments.PaymentReturn:** the callback query is a flat list of key/value pairs, and a
  repeated key is read at its first value. Express's query parser turns a repeated key into an
  array, so a repeated `vnp_SecureHash` fails paymentReturn's `!==` comparison and gets 400. Array
  values, and `qs`'s `k[0]=a` form for them, are not modelled.
- **Paging.PageCount:** one integer limit is used both for the page count and for the window.
  The handler divides by the raw query string (`Math.ceil(total / limit)`) but windows with
  `parseInt(limit)`. A limit such as "10abc" gives NaN pages there, which is not modelled.
- **Gateway.SortByKey:** keys are ordered by code point, whereas JavaScript's `sort` compares
  UTF-16 units. The two agree on the ASCII `vnp_` keys. Integer-like keys, which JavaScript orders
  first in an object, do not occur.

## Findings

| source | as written | input that shows it | evidently intended | confidence | as-written member | corrected member |
|---|---|---|---|---|---|---|
| back-end/controller/order.controller.js:45-54 | a line short of stock sends 400 but does not return, so the decrement, order creation and cart deletion still run | one product with stock 1 and a cart line of 2: the reply is 400, the order is created and the stock becomes -1 | return after the 400, so a checkout never drives stock below zero | not executed | Checkout.CodStockCheckDoesNotGate | Checkout.GuardedKeepsStockNonNegative |
| back-end/controller/payment.controller.js:95,125 | the signer hashes the sorted, form-encoded parameters; the verifier hashes the echoed parameters in arrival order without encoding | a callback echoing the signed request (see Gateway.Echo under Left out) in which a value holds a space, or two parameters are not in key order: its correct signature fails verification; a gateway that returns only sorted, plain-valued keys would not meet this | sign and verify one canonical text | not executed | GatewayExamples.AsWrittenRejectsGenuineSignatures | Gateway.SharedRoundTrip |
| front-end/my-app/src/pages/OrderList.jsx:85-94 | the status maps name "Delivered", which no order has, and lack the server's "Completed" | an order with status "Completed" is shown as "Completed" with the default colour | translate "Completed" like "Delivered" | not executed | OrderPage.CompletedShownRaw | OrderPage.TranslateOrderStatusComplete |
| front-end/my-app/src/pages/ProductList.jsx:53 | the page reads `pagination.totalPages`, which the customer listing never sends, so it always shows one page | nine active products and page size 8: one page, no controls, the ninth never reachable | compute the page count from the reply's `total` and the page size | not executed | ProductList.AsWrittenShowsOnlyFirstPage | ProductList.IntendedReachesEveryProduct |
