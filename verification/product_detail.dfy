/** The product page's local state: the rating histogram, the quantity
    stepper and the review list after a submit
    (front-end/my-app/src/pages/ProductDetail.jsx). */
module ProductDetail {
  import opened Wrappers

  // ---------------------------------------------------------------------
  // Rating histogram
  // ---------------------------------------------------------------------

  /** How many of the ratings equal `k`. */
  function Count(ratings: seq<int>, k: int): (n: nat)
    ensures n <= |ratings|
  {
    if ratings == [] then 0
    else Count(ratings[..|ratings| - 1], k) + (if ratings[|ratings| - 1] == k then 1 else 0)
  }

  const Buckets: set<int> := {1, 2, 3, 4, 5}

  /** The ratings that occur. */
  function Seen(ratings: seq<int>): set<int>
  {
    set i | 0 <= i < |ratings| :: ratings[i]
  }

  lemma SeenSnoc(ratings: seq<int>)
    requires |ratings| > 0
    ensures Seen(ratings) == Seen(ratings[..|ratings| - 1]) + {ratings[|ratings| - 1]}
  {
    var front := ratings[..|ratings| - 1];
    forall x | x in Seen(ratings) ensures x in Seen(front) + {ratings[|ratings| - 1]} {
      var i :| 0 <= i < |ratings| && ratings[i] == x;
      if i < |front| { assert front[i] == x; }
    }
    forall x | x in Seen(front) ensures x in Seen(ratings) {
      var i :| 0 <= i < |front| && front[i] == x;
      assert ratings[i] == x;
    }
  }

  /** `ratingCounts`: starts at zero for 1..5 and, review by review, adds one
      to the review's rating, creating the key when the rating is outside
      1..5 (`(ratingCounts[r] || 0) + 1`). */
  function RatingCounts(ratings: seq<int>): (m: map<int, nat>)
    ensures m.Keys == Buckets + Seen(ratings)
    ensures forall k :: k in m ==> m[k] == Count(ratings, k)
  {
    if ratings == [] then map[1 := 0, 2 := 0, 3 := 0, 4 := 0, 5 := 0]
    else
      var front := ratings[..|ratings| - 1];
      var last := ratings[|ratings| - 1];
      var m := RatingCounts(front);
      var r := m[last := (if last in m then m[last] else 0) + 1];
      SeenSnoc(ratings);
      assert forall k :: k in r ==> r[k] == Count(ratings, k) by {
        forall k | k in r ensures r[k] == Count(ratings, k) {
          assert ratings[..|ratings| - 1] == front;
          if k != last && k !in m {
            CountAbsent(front, k);
          }
          if k == last && last !in m {
            CountAbsent(front, k);
          }
        }
      }
      r
  }

  lemma {:induction false} CountAbsent(ratings: seq<int>, k: int)
    requires forall i :: 0 <= i < |ratings| ==> ratings[i] != k
    ensures Count(ratings, k) == 0
    decreases |ratings|
  {
    if ratings != [] {
      CountAbsent(ratings[..|ratings| - 1], k);
    }
  }

  /** When every rating is 1..5, the five buckets add up to the number of
      reviews. */
  lemma {:induction false} BucketsSumToReviews(ratings: seq<int>)
    requires forall i :: 0 <= i < |ratings| ==> 1 <= ratings[i] <= 5
    ensures var m := RatingCounts(ratings);
      m.Keys == Buckets && m[1] + m[2] + m[3] + m[4] + m[5] == |ratings|
    decreases |ratings|
  {
    var m := RatingCounts(ratings);
    assert Seen(ratings) <= Buckets;
    if ratings != [] {
      var front := ratings[..|ratings| - 1];
      BucketsSumToReviews(front);
      var mf := RatingCounts(front);
      assert m[1] + m[2] + m[3] + m[4] + m[5] ==
        Count(front, 1) + Count(front, 2) + Count(front, 3) + Count(front, 4) + Count(front, 5) + 1;
    }
  }

  // ---------------------------------------------------------------------
  // Quantity stepper
  // ---------------------------------------------------------------------

  /** `incrementQuantity`. */
  function Increment(quantity: int): (r: int)
    ensures r - quantity == 1
  {
    quantity + 1
  }

  /** `decrementQuantity`: does nothing at 1 (or below). */
  function Decrement(quantity: int): (r: int)
    ensures quantity > 1 ==> r == quantity - 1
    ensures quantity <= 1 ==> r == quantity
  {
    if quantity > 1 then quantity - 1 else quantity
  }

  /** From the initial 1, the stepper never goes below 1, and a decrement
      undoes an increment. */
  lemma StepperStaysPositive(quantity: int)
    requires quantity >= 1
    ensures Increment(quantity) >= 1 && Decrement(quantity) >= 1
    ensures Decrement(Increment(quantity)) == quantity
    ensures Decrement(1) == 1
  {
  }

  // ---------------------------------------------------------------------
  // Submitting a review
  // ---------------------------------------------------------------------

  /** A review as the page lists it. */
  datatype ShownReview = ShownReview(id: string, author: string, rating: int, comment: string)

  /** The fields of the server's reply the page reads; each may be absent. */
  datatype ReviewEcho = ReviewEcho(id: Option<string>, author: Option<string>, rating: Option<int>,
                                   comment: Option<string>)

  const Anonymous := "Ẩn danh"

  /** The review form and the list it feeds. */
  datatype ReviewForm = ReviewForm(rating: int, comment: string, reviews: seq<ShownReview>)

  /** `x || fallback` on a string: the empty string is falsy. */
  function OrText(x: Option<string>, fallback: string): (r: string)
    ensures x.Some? && x.value != "" ==> r == x.value
    ensures x.None? || x.value == "" ==> r == fallback
  {
    if x.Some? && x.value != "" then x.value else fallback
  }

  /** `x || fallback` on a number: zero is falsy. */
  function OrNumber(x: Option<int>, fallback: int): (r: int)
    ensures x.Some? && x.value != 0 ==> r == x.value
    ensures x.None? || x.value == 0 ==> r == fallback
  {
    if x.Some? && x.value != 0 then x.value else fallback
  }

  /** `handleReviewSubmit`.  `reply` is `None` when the request failed,
      and `now` stands for `Date.now().toString()`.  On success the review
      is put in front, falling back to the form's own rating and comment
      and to an anonymous author, and the form resets. */
  function SubmitReview(form: ReviewForm, reply: Option<ReviewEcho>, now: string): (r: ReviewForm)
    ensures reply.None? ==> r == form
    ensures reply.Some? ==>
      && r.rating == 5 && r.comment == ""
      && |r.reviews| == |form.reviews| + 1
      && r.reviews[1..] == form.reviews
      && r.reviews[0].rating == OrNumber(reply.value.rating, form.rating)
      && r.reviews[0].comment == OrText(reply.value.comment, form.comment)
      && r.reviews[0].author == OrText(reply.value.author, Anonymous)
      && r.reviews[0].id == OrText(reply.value.id, now)
  {
    match reply
    case None => form
    case Some(echo) =>
      var added := ShownReview(
        OrText(echo.id, now),
        OrText(echo.author, Anonymous),
        OrNumber(echo.rating, form.rating),
        OrText(echo.comment, form.comment));
      ReviewForm(5, "", [added] + form.reviews)
  }

  /** A reply without a review body lists the form's own rating and
      comment under the anonymous author. */
  lemma EmptyReplyFallsBack(form: ReviewForm, now: string)
    ensures SubmitReview(form, Some(ReviewEcho(None, None, None, None)), now).reviews[0] ==
      ShownReview(now, Anonymous, form.rating, form.comment)
  {
  }

  /** A submitted review lands in the histogram's bucket. */
  lemma SubmittedReviewCounted(form: ReviewForm, echo: ReviewEcho, now: string)
    requires 1 <= form.rating <= 5 && echo.rating.None?
    ensures var after := SubmitReview(form, Some(echo), now).reviews;
      var ratings := seq(|after|, i requires 0 <= i < |after| => after[i].rating);
      Count(ratings, form.rating) >= 1
  {
    var after := SubmitReview(form, Some(echo), now).reviews;
    var ratings := seq(|after|, i requires 0 <= i < |after| => after[i].rating);
    CountPresent(ratings, 0);
  }

  lemma {:induction false} CountPresent(ratings: seq<int>, i: nat)
    requires i < |ratings|
    ensures Count(ratings, ratings[i]) >= 1
    decreases |ratings|
  {
    if i < |ratings| - 1 {
      CountPresent(ratings[..|ratings| - 1], i);
    }
  }
}
