/** Offset pagination as the list endpoints compute it: an offset of
    `(page - 1) * limit`, a window of at most `limit` rows, and a page count
    of `Math.ceil(total / limit)`.  The window is taken either in memory
    with `Array.prototype.slice` or by the document store's skip/limit. */
module Paging {
  import opened Wrappers

  // ---------------------------------------------------------------------
  // Integer division as JavaScript's Math.floor / Math.ceil see it
  // ---------------------------------------------------------------------

  /** `Math.floor(a / b)` for a non-zero divisor of either sign. */
  function FloorDiv(a: int, b: int): (q: int)
    requires b != 0
    ensures b > 0 ==> q * b <= a < (q + 1) * b
    ensures b < 0 ==> (q + 1) * b < a <= q * b
  {
    if b > 0 then a / b else (-a) / (-b)
  }

  /** `Math.ceil(a / b)` for a non-zero divisor of either sign. */
  function CeilDiv(a: int, b: int): (q: int)
    requires b != 0
    ensures b > 0 ==> (q - 1) * b < a <= q * b
    ensures b < 0 ==> q * b <= a < (q - 1) * b
  {
    -FloorDiv(-a, b)
  }

  /** A JavaScript number produced by the page-count division. */
  datatype JsCount = Finite(n: int) | PositiveInfinity | NaN

  /** `Math.ceil(total / limit)`; a zero limit divides by zero. */
  function PageCount(total: nat, limit: int): (r: JsCount)
    ensures limit > 0 ==> r.Finite? && r.n >= 0
    ensures limit > 0 && total > 0 ==> r.Finite? && (r.n - 1) * limit < total <= r.n * limit
    ensures limit > 0 && total == 0 ==> r == Finite(0)
    ensures limit == 0 ==> (r == NaN <==> total == 0)
    ensures limit == 0 ==> (r == PositiveInfinity <==> total > 0)
  {
    if limit == 0 then (if total == 0 then NaN else PositiveInfinity)
    else Finite(CeilDiv(total, limit))
  }

  // ---------------------------------------------------------------------
  // In-memory windows: Array.prototype.slice
  // ---------------------------------------------------------------------

  /** How `slice` resolves a position: negative counts from the end, and
      the result is clamped to `[0, len]`. */
  function ResolveIndex(k: int, len: nat): (r: nat)
    ensures r <= len
    ensures 0 <= k <= len ==> r == k
    ensures k > len ==> r == len
    ensures k < 0 ==> r == (if len + k < 0 then 0 else len + k)
  {
    if k < 0 then (if len + k < 0 then 0 else len + k)
    else if k > len then len
    else k
  }

  /** `s.slice(start, end)`. */
  function Slice<T>(s: seq<T>, start: int, end: int): (r: seq<T>)
    ensures |r| <= |s|
    ensures var lo := ResolveIndex(start, |s|); var hi := ResolveIndex(end, |s|);
      if lo < hi then r == s[lo..hi] else r == []
  {
    var lo := ResolveIndex(start, |s|);
    var hi := ResolveIndex(end, |s|);
    if lo < hi then s[lo..hi] else []
  }

  /** The in-memory page: `rows.slice((page - 1) * limit, page * limit)`. */
  function SlicePage<T>(rows: seq<T>, page: int, limit: int): seq<T>
  {
    Slice(rows, (page - 1) * limit, page * limit)
  }

  /** Every row of a page is one of the rows paged through. */
  lemma SlicePageFrom<T>(rows: seq<T>, page: int, limit: int)
    ensures forall i :: 0 <= i < |SlicePage(rows, page, limit)| ==> SlicePage(rows, page, limit)[i] in rows
  {
    var lo := ResolveIndex((page - 1) * limit, |rows|);
    var hi := ResolveIndex(page * limit, |rows|);
    if lo < hi {
      forall i | 0 <= i < hi - lo ensures rows[lo..hi][i] in rows {
        assert rows[lo..hi][i] == rows[lo + i];
      }
    }
  }

  // ---------------------------------------------------------------------
  // Store-side windows: `.skip(k).limit(l)`
  // ---------------------------------------------------------------------

  /** The document store's window: a negative skip is an error (the handler
      answers 500), a zero limit means "no limit", and a negative limit
      returns at most its absolute value of rows. */
  function StorePage<T>(rows: seq<T>, skip: int, limit: int): (r: Option<seq<T>>)
    ensures skip < 0 <==> r.None?
    ensures r.Some? ==> |r.value| <= |rows|
    ensures r.Some? && limit != 0 ==> |r.value| <= (if limit < 0 then -limit else limit)
    ensures r.Some? ==> r.value <= rows[(if skip > |rows| then |rows| else skip)..]
  {
    if skip < 0 then None
    else
      var from := if skip > |rows| then |rows| else skip;
      var rest := rows[from..];
      var n := if limit < 0 then -limit else limit;
      if limit == 0 || n >= |rest| then Some(rest) else Some(rest[..n])
  }

  // ---------------------------------------------------------------------
  // What a well-formed query gets
  // ---------------------------------------------------------------------

  /** Multiplying both sides of `a <= b` by a non-negative factor. */
  lemma MulMonotone(a: int, b: int, c: int)
    requires a <= b && c >= 0
    ensures a * c <= b * c
  {
    assert b * c - a * c == (b - a) * c;
  }

  /** Cancelling a positive factor from a strict inequality. */
  lemma LessFromMul(a: int, b: int, c: int)
    requires c > 0 && a * c < b * c
    ensures a < b
  {
    if a >= b {
      MulMonotone(b, a, c);
    }
  }

  /** For a positive page and limit, both windowing methods return the same
      rows: those at positions `[(page - 1) * limit, page * limit)`, so a page
      never holds more than `limit` rows. */
  lemma PageWindow<T>(rows: seq<T>, page: int, limit: int)
    requires page >= 1 && limit >= 1
    ensures var lo := if (page - 1) * limit > |rows| then |rows| else (page - 1) * limit;
      var hi := if page * limit > |rows| then |rows| else page * limit;
      && SlicePage(rows, page, limit) == rows[lo..hi]
      && StorePage(rows, (page - 1) * limit, limit) == Some(rows[lo..hi])
    ensures |SlicePage(rows, page, limit)| <= limit
  {
    var skip := (page - 1) * limit;
    MulMonotone(0, page - 1, limit);
    assert page * limit == skip + limit;
    var lo := if skip > |rows| then |rows| else skip;
    var hi := if skip + limit > |rows| then |rows| else skip + limit;
    assert lo <= hi;
    assert SlicePage(rows, page, limit) == Slice(rows, skip, skip + limit);
    var rest := rows[lo..];
    if limit >= |rest| {
      assert hi == |rows|;
      assert rest == rows[lo..hi];
    } else {
      assert hi == lo + limit;
      assert rest[..limit] == rows[lo..hi];
    }
  }

  /** `out` shows page `page` of `rows` through `f`: its k-th entry is `f`
      of the row at position `(page - 1) * limit + k`, and it holds every
      row from that position up to `page * limit` or the end. */
  predicate PageOf<T, R(==)>(out: seq<R>, rows: seq<T>, f: T -> R, page: int, limit: int)
  {
    var lo := if (page - 1) * limit > |rows| then |rows| else (page - 1) * limit;
    var hi := if page * limit > |rows| then |rows| else page * limit;
    && 0 <= lo <= hi && |out| == hi - lo
    && forall k :: 0 <= k < |out| ==> out[k] == f(rows[lo + k])
  }

  /** The mapping of a listing that shows its rows as they are. */
  function Itself<T>(x: T): T { x }

  /** Whatever shows the in-memory page entry by entry shows the page. */
  lemma PageOfSlice<T, R>(out: seq<R>, rows: seq<T>, f: T -> R, page: int, limit: int)
    requires page >= 1 && limit >= 1
    requires |out| == |SlicePage(rows, page, limit)|
    requires forall k :: 0 <= k < |out| ==> out[k] == f(SlicePage(rows, page, limit)[k])
    ensures PageOf(out, rows, f, page, limit)
  {
    PageWindow(rows, page, limit);
    var lo := if (page - 1) * limit > |rows| then |rows| else (page - 1) * limit;
    var hi := if page * limit > |rows| then |rows| else page * limit;
    forall k | 0 <= k < |out| ensures out[k] == f(rows[lo + k]) {
      assert SlicePage(rows, page, limit)[k] == rows[lo..hi][k];
    }
  }

  /** On any page shown through `PageOf`, row `i` is shown, through `f`,
      at position `i % limit` of page `i / limit + 1`. */
  lemma RowShownOnItsPage<T, R>(out: seq<R>, rows: seq<T>, f: T -> R, limit: int, i: int)
    requires limit >= 1 && 0 <= i < |rows|
    requires PageOf(out, rows, f, i / limit + 1, limit)
    ensures i % limit < |out| && out[i % limit] == f(rows[i])
  {
    DivSplit(i, limit);
  }

  /** Division facts for `RowShownOnItsPage`, kept apart from the rows. */
  lemma DivSplit(i: int, limit: int)
    requires limit >= 1 && 0 <= i
    ensures var q := i / limit;
      && i == q * limit + i % limit && 0 <= i % limit < limit
      && (q + 1 - 1) * limit == q * limit
      && (q + 1) * limit == q * limit + limit
  {
    var q := i / limit;
    assert (q + 1) * limit == q * limit + limit;
  }

  /** Row `i` sits at position `i % limit` of page `i / limit + 1`, and
      that page is within the page count. */
  lemma {:induction false} RowOnItsPage<T>(rows: seq<T>, limit: int, i: int)
    requires limit >= 1 && 0 <= i < |rows|
    ensures var p := i / limit + 1;
      && 1 <= p <= PageCount(|rows|, limit).n
      && i % limit < |SlicePage(rows, p, limit)|
      && SlicePage(rows, p, limit)[i % limit] == rows[i]
  {
    var q := i / limit;
    var pages := PageCount(|rows|, limit).n;
    PageOfRow(i, limit, |rows|, pages);
    PageWindow(rows, q + 1, limit);
    var lo := q * limit;
    var hi := if (q + 1) * limit > |rows| then |rows| else (q + 1) * limit;
    assert SlicePage(rows, q + 1, limit) == rows[lo..hi];
    assert rows[lo..hi][i % limit] == rows[lo + i % limit];
  }

  /** The arithmetic behind `RowOnItsPage`, kept apart from the rows. */
  lemma PageOfRow(i: int, limit: int, total: int, pages: int)
    requires limit >= 1 && 0 <= i < total && total <= pages * limit
    ensures var q := i / limit;
      && 0 <= q < pages
      && i == q * limit + i % limit && 0 <= i % limit < limit
      && (q + 1 - 1) * limit == q * limit
      && (q + 1) * limit == q * limit + limit
  {
    var q := i / limit;
    assert i == q * limit + i % limit;
    assert (q + 1) * limit == q * limit + limit;
    assert q * limit < pages * limit;
    LessFromMul(q, pages, limit);
  }

  /** No page other than `i / limit + 1` covers position `i`. */
  lemma {:induction false} OnlyOnePage(limit: int, i: int, page: int)
    requires limit >= 1 && 0 <= i && page >= 1
    ensures var lo := (page - 1) * limit;
      (lo <= i < lo + limit) <==> page == i / limit + 1
  {
    var q := i / limit;
    var r := i % limit;
    assert i == q * limit + r && 0 <= r < limit;
    if page - 1 < q {
      MulMonotone(page, q, limit);
      assert page * limit == (page - 1) * limit + limit;
    } else if page - 1 > q {
      MulMonotone(q + 1, page - 1, limit);
      assert (q + 1) * limit == q * limit + limit;
    }
  }

  /** Pages past the page count are empty. */
  lemma PastLastPageEmpty<T>(rows: seq<T>, page: int, limit: int)
    requires limit >= 1 && page > PageCount(|rows|, limit).n
    ensures SlicePage(rows, page, limit) == []
  {
    var pages := PageCount(|rows|, limit).n;
    MulMonotone(pages, page - 1, limit);
    PageWindow(rows, page, limit);
  }
}
