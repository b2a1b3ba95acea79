/** Product reviews: who may write one, the per-product listing and the
    administrator's searchable, paged listing
    (back-end/controller/review.controller.js). */
module Reviews {
  import opened Wrappers
  import opened Strings
  import opened Store
  import opened Carts
  import opened Paging
  import opened Lists

  // ---------------------------------------------------------------------
  // createReview
  // ---------------------------------------------------------------------

  datatype CreateReply = ProductNotFound | NotPurchased | AlreadyReviewed | ReviewCreated
  {
    function Code(): int
    {
      match this
      case ProductNotFound => 400
      case NotPurchased => 400
      case AlreadyReviewed => 400
      case ReviewCreated => 201
    }
  }

  /** Some order of the user has a line for the product.  Every one of the
      five statuses counts, a cancelled order included. */
  predicate Purchased(st: Store, userId: Id, productId: Id)
  {
    exists id | id in st.orders :: st.orders[id].user == userId && productId in ProductsOf(st.orders[id].items)
  }

  /** The user has already reviewed the product. */
  predicate Reviewed(reviews: seq<Review>, userId: Id, productId: Id)
  {
    exists i | 0 <= i < |reviews| :: reviews[i].user == userId && reviews[i].product == productId
  }

  /** At most one review per (user, product) pair. */
  predicate OneReviewEach(reviews: seq<Review>)
  {
    forall i, j :: 0 <= i < j < |reviews| ==>
      !(reviews[i].user == reviews[j].user && reviews[i].product == reviews[j].product)
  }

  /** `createReview` for the authenticated `userId`; the checks run in the
      handler's order: product, purchase, earlier review. */
  function CreateReview(st: Store, userId: Id, productId: Id, rating: int, comment: string): (o: Outcome<CreateReply>)
    ensures o.reply == ProductNotFound <==> productId !in st.products
    ensures o.reply == NotPurchased <==> productId in st.products && !Purchased(st, userId, productId)
    ensures o.reply == AlreadyReviewed <==>
      productId in st.products && Purchased(st, userId, productId) && Reviewed(st.reviews, userId, productId)
    ensures o.reply != ReviewCreated ==> o.store == st
    ensures o.reply == ReviewCreated ==>
      o.store == st.(reviews := st.reviews + [Review(userId, productId, rating, comment)])
  {
    if productId !in st.products then Outcome(st, ProductNotFound)
    else if !Purchased(st, userId, productId) then Outcome(st, NotPurchased)
    else if Reviewed(st.reviews, userId, productId) then Outcome(st, AlreadyReviewed)
    else Outcome(st.(reviews := st.reviews + [Review(userId, productId, rating, comment)]), ReviewCreated)
  }

  /** createReview keeps "one review per (user, product)". */
  lemma CreateReviewPreservesOneEach(st: Store, userId: Id, productId: Id, rating: int, comment: string)
    requires OneReviewEach(st.reviews)
    ensures OneReviewEach(CreateReview(st, userId, productId, rating, comment).store.reviews)
  {
    var o := CreateReview(st, userId, productId, rating, comment);
    if o.reply == ReviewCreated {
      var rs := o.store.reviews;
      forall i, j | 0 <= i < j < |rs|
        ensures !(rs[i].user == rs[j].user && rs[i].product == rs[j].product)
      {
        if j == |st.reviews| {
          assert rs[i] == st.reviews[i];
          assert rs[j] == Review(userId, productId, rating, comment);
          assert !Reviewed(st.reviews, userId, productId);
        }
      }
    }
  }

  /** A review can be written for a product whose only order was cancelled. */
  lemma CancelledOrderStillQualifies(st: Store, userId: Id, productId: Id, orderId: Id, k: nat)
    requires productId in st.products && !Reviewed(st.reviews, userId, productId)
    requires orderId in st.orders && st.orders[orderId].user == userId && st.orders[orderId].status == Cancelled
    requires k < |st.orders[orderId].items| && st.orders[orderId].items[k].product == productId
    ensures CreateReview(st, userId, productId, 5, "").reply == ReviewCreated
  {
    assert productId in ProductsOf(st.orders[orderId].items);
  }

  /** Repeating a successful review request is refused and stores nothing. */
  lemma SecondReviewRejected(st: Store, userId: Id, productId: Id, rating: int, comment: string,
                             rating2: int, comment2: string)
    requires CreateReview(st, userId, productId, rating, comment).reply == ReviewCreated
    ensures var st1 := CreateReview(st, userId, productId, rating, comment).store;
      CreateReview(st1, userId, productId, rating2, comment2) == Outcome(st1, AlreadyReviewed)
  {
    var st1 := CreateReview(st, userId, productId, rating, comment).store;
    assert st1.reviews[|st.reviews|] == Review(userId, productId, rating, comment);
    assert Reviewed(st1.reviews, userId, productId);
    assert st1.orders == st.orders;
  }

  // ---------------------------------------------------------------------
  // getReviewsByProductId
  // ---------------------------------------------------------------------

  datatype ProductReviewsReply = UnknownProduct | ProductReviews(rows: seq<Review>)
  {
    function Code(): int
    {
      match this
      case UnknownProduct => 404
      case ProductReviews(_) => 200
    }
  }

  function OfProduct(productId: Id): Review -> bool
  {
    (r: Review) => r.product == productId
  }

  /** `getReviewsByProductId`: the product's reviews, newest first.  The
      store keeps reviews in creation order, so newest first is that order
      reversed. */
  function ReviewsOf(st: Store, productId: Id): (r: ProductReviewsReply)
    ensures r.UnknownProduct? <==> productId !in st.products
    ensures r.ProductReviews? ==>
      && (forall i :: 0 <= i < |r.rows| ==> r.rows[i].product == productId && r.rows[i] in st.reviews)
      && (forall i :: 0 <= i < |st.reviews| && st.reviews[i].product == productId ==> st.reviews[i] in r.rows)
  {
    if productId !in st.products then UnknownProduct
    else
      var mine := Filter(st.reviews, OfProduct(productId));
      var rows := Reverse(mine);
      assert forall i :: 0 <= i < |rows| ==> rows[i] == mine[|mine| - 1 - i];
      assert forall x :: x in mine ==> x in rows by {
        forall x | x in mine ensures x in rows {
          var i :| 0 <= i < |mine| && mine[i] == x;
          assert rows[|mine| - 1 - i] == x;
        }
      }
      ProductReviews(rows)
  }

  /** The listing holds the product's reviews, each as often as it was
      stored, newest first: read backwards it is the product's reviews in
      creation order. */
  lemma ReviewsOfNewestFirst(st: Store, productId: Id)
    requires productId in st.products
    ensures var r := ReviewsOf(st, productId);
      && r.ProductReviews?
      && Reverse(r.rows) == Filter(st.reviews, OfProduct(productId))
      && |r.rows| == |Filter(st.reviews, OfProduct(productId))|
  {
    ReverseReverse(Filter(st.reviews, OfProduct(productId)));
  }

  /** A review just created is the first one listed for its product, ahead
      of the earlier ones in newest-first order. */
  lemma {:induction false} NewReviewListedFirst(st: Store, userId: Id, productId: Id, rating: int, comment: string)
    requires CreateReview(st, userId, productId, rating, comment).reply == ReviewCreated
    ensures var st1 := CreateReview(st, userId, productId, rating, comment).store;
      ReviewsOf(st1, productId) ==
        ProductReviews([Review(userId, productId, rating, comment)] + ReviewsOf(st, productId).rows)
  {
    var added := Review(userId, productId, rating, comment);
    var st1 := CreateReview(st, userId, productId, rating, comment).store;
    assert st1.reviews == st.reviews + [added] && st1.products == st.products;
    var keep := OfProduct(productId);
    FilterAppend(st.reviews, [added], keep);
    assert Filter([added], keep) == [added] by {
      assert keep(added);
      assert [added][1..] == [];
    }
    var before := Filter(st.reviews, keep);
    assert Filter(st1.reviews, keep) == before + [added];
    ReverseAppend(before, [added]);
    assert Reverse(before + [added]) == [added] + Reverse(before);
    assert ReviewsOf(st, productId) == ProductReviews(Reverse(before));
    assert ReviewsOf(st1, productId) == ProductReviews(Reverse(before + [added]));
  }

  // ---------------------------------------------------------------------
  // getAllReviews
  // ---------------------------------------------------------------------

  /** A page of the review listing and its pagination block. */
  datatype ReviewPage = ReviewPage(
    rows: seq<Review>,
    totalReviews: nat,
    totalPages: JsCount,
    currentPage: int,
    pageSize: int)

  /** The populated author's full name, or nothing when the user is gone. */
  function AuthorName(st: Store, r: Review): Option<string>
  {
    if r.user in st.users then Some(st.users[r.user].fullName) else None
  }

  /** The populated product's name, or nothing when the product is gone. */
  function ProductName(st: Store, r: Review): Option<string>
  {
    if r.product in st.products then Some(st.products[r.product].name) else None
  }

  /** The in-memory search: an empty term keeps everything, otherwise the
      author's name or the product's name must contain the term, ignoring
      case; a missing author or product never matches. */
  predicate MatchesSearch(st: Store, search: string, r: Review)
  {
    || search == ""
    || (AuthorName(st, r).Some? && ContainsIgnoreCase(AuthorName(st, r).value, search))
    || (ProductName(st, r).Some? && ContainsIgnoreCase(ProductName(st, r).value, search))
  }

  function SearchFilter(st: Store, search: string): Review -> bool
  {
    (r: Review) => MatchesSearch(st, search, r)
  }

  /** `getAllReviews`: filter the reviews in store order, then cut the page
      out of the filtered list with `slice`. */
  function AllReviews(st: Store, search: string, page: int, limit: int): (r: ReviewPage)
    ensures var matching := Filter(st.reviews, SearchFilter(st, search));
      && r.totalReviews == |matching|
      && r.totalPages == PageCount(|matching|, limit)
      && |r.rows| <= |matching|
    ensures forall i :: 0 <= i < |r.rows| ==> r.rows[i] in st.reviews && MatchesSearch(st, search, r.rows[i])
    ensures r.currentPage == page && r.pageSize == limit
    ensures page >= 1 && limit >= 1 ==> |r.rows| <= limit
  {
    var matching := Filter(st.reviews, SearchFilter(st, search));
    var rows := SlicePage(matching, page, limit);
    SlicePageFrom(matching, page, limit);
    assert page >= 1 && limit >= 1 ==> |rows| <= limit by {
      if page >= 1 && limit >= 1 {
        PageWindow(matching, page, limit);
      }
    }
    ReviewPage(rows, |matching|, PageCount(|matching|, limit), page, limit)
  }

  /** For a positive page and limit, the listing shows exactly the page's
      window of the matching reviews, in store order. */
  lemma AllReviewsWindow(st: Store, search: string, page: int, limit: int)
    requires page >= 1 && limit >= 1
    ensures PageOf(AllReviews(st, search, page, limit).rows, Filter(st.reviews, SearchFilter(st, search)),
                   Itself, page, limit)
  {
    var matching := Filter(st.reviews, SearchFilter(st, search));
    PageOfSlice(AllReviews(st, search, page, limit).rows, matching, Itself, page, limit);
  }

  /** With no search term nothing is filtered out: the listing pages
      through the reviews in store order. */
  lemma EmptySearchKeepsAll(st: Store, page: int, limit: int)
    ensures AllReviews(st, "", page, limit).rows == SlicePage(st.reviews, page, limit)
    ensures AllReviews(st, "", page, limit).totalReviews == |st.reviews|
    ensures AllReviews(st, "", page, limit).totalPages == PageCount(|st.reviews|, limit)
  {
    FilterKeepsAll(st.reviews, SearchFilter(st, ""));
  }

  /** With no search term each review sits on page `i / limit + 1`. */
  lemma EveryReviewOnItsPage(st: Store, limit: int, i: int)
    requires limit >= 1 && 0 <= i < |st.reviews|
    ensures AllReviews(st, "", i / limit + 1, limit).totalPages.Finite?
    ensures i / limit + 1 <= AllReviews(st, "", i / limit + 1, limit).totalPages.n
    ensures i % limit < |AllReviews(st, "", i / limit + 1, limit).rows|
    ensures AllReviews(st, "", i / limit + 1, limit).rows[i % limit] == st.reviews[i]
  {
    EmptySearchKeepsAll(st, i / limit + 1, limit);
    RowOnItsPage(st.reviews, limit, i);
  }

  /** A review whose author's name contains the term is found whatever the
      case of either. */
  lemma SearchIgnoresCase(st: Store, search: string, r: Review)
    requires r.user in st.users && Contains(Lower(st.users[r.user].fullName), Lower(search))
    ensures MatchesSearch(st, search, r) && MatchesSearch(st, Lower(search), r)
  {
    LowerIdempotent(search);
  }
}
