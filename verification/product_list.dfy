/** The customer's product list page: the in-page name search, the page
    count it reads from the listing reply, and the pagination controls
    (front-end/my-app/src/pages/ProductList.jsx). */
module ProductList {
  import opened Wrappers
  import opened Strings
  import opened Store
  import opened Paging
  import opened Lists
  import opened Products

  // ---------------------------------------------------------------------
  // Search
  // ---------------------------------------------------------------------

  function NameMatches(term: string): ProductSummary -> bool
  {
    (p: ProductSummary) => Contains(Lower(p.name), Lower(term))
  }

  /** `products.filter(p => p.name.toLowerCase().includes(term.toLowerCase()))`. */
  function Search(products: seq<ProductSummary>, term: string): (r: seq<ProductSummary>)
    ensures |r| <= |products|
    ensures forall i :: 0 <= i < |r| ==> r[i] in products && ContainsIgnoreCase(r[i].name, term)
    ensures forall i :: 0 <= i < |products| && ContainsIgnoreCase(products[i].name, term) ==> products[i] in r
  {
    Filter(products, NameMatches(term))
  }

  /** An empty search term shows the whole page of products. */
  lemma EmptySearchShowsAll(products: seq<ProductSummary>)
    ensures Search(products, "") == products
  {
    forall i | 0 <= i < |products| ensures NameMatches("")(products[i]) {
      ContainsEmpty(Lower(products[i].name));
    }
    FilterKeepsAll(products, NameMatches(""));
  }

  // ---------------------------------------------------------------------
  // Page count and pagination controls
  // ---------------------------------------------------------------------

  /** `res.pagination?.totalPages || 1`: a missing block, a missing count,
      zero or NaN all give 1. */
  function ShownTotalPages(reply: Option<JsCount>): (n: int)
    ensures reply.None? ==> n == 1
    ensures reply.Some? && reply.value.Finite? && reply.value.n != 0 ==> n == reply.value.n
    ensures n != 1 ==> reply.Some? && reply.value.Finite?
  {
    match reply
    case Some(Finite(k)) => if k != 0 then k else 1
    case _ => 1
  }

  /** `!isLoading && totalPages > 1`. */
  predicate PaginationShown(isLoading: bool, totalPages: int)
  {
    !isLoading && totalPages > 1
  }

  /** The page buttons: 1..min(totalPages, 5), then the last page when
      there are more than five. */
  function PageButtons(totalPages: int): (r: seq<int>)
    ensures var shown := if totalPages < 0 then 0 else if totalPages < 5 then totalPages else 5;
      && |r| == shown + (if totalPages > 5 then 1 else 0)
      && (forall i :: 0 <= i < shown ==> r[i] == i + 1)
      && (totalPages > 5 ==> r[|r| - 1] == totalPages)
  {
    var shown := if totalPages < 0 then 0 else if totalPages < 5 then totalPages else 5;
    seq(shown, i => i + 1) + (if totalPages > 5 then [totalPages] else [])
  }

  /** Every button names a page between 1 and the page count, and the
      first and last pages always have one. */
  lemma ButtonsInRange(totalPages: int)
    requires totalPages >= 1
    ensures forall i :: 0 <= i < |PageButtons(totalPages)| ==> 1 <= PageButtons(totalPages)[i] <= totalPages
    ensures PageButtons(totalPages)[0] == 1
    ensures PageButtons(totalPages)[|PageButtons(totalPages)| - 1] == totalPages
  {
  }

  predicate PrevDisabled(page: int) { page == 1 }

  predicate NextDisabled(page: int, totalPages: int) { page == totalPages }

  /** Walking with Next from page 1 visits every page up to the count and
      stops there; Prev walks back to 1. */
  lemma PrevNextWalk(page: int, totalPages: int)
    requires 1 <= page <= totalPages
    ensures !NextDisabled(page, totalPages) <==> page < totalPages
    ensures !PrevDisabled(page) <==> page > 1
  {
  }

  /** The filter panel's state. */
  datatype Filters = Filters(category: string, skinType: string, sortBy: string, searchTerm: string, page: int)

  /** The reset button clears category, skin type and sort order; the
      search term and the page are kept. */
  function Reset(f: Filters): (r: Filters)
    ensures r.category == "" && r.skinType == "" && r.sortBy == ""
    ensures r.searchTerm == f.searchTerm && r.page == f.page
  {
    f.(category := "", skinType := "", sortBy := "")
  }

  // ---------------------------------------------------------------------
  // The page against the listing it reads
  // ---------------------------------------------------------------------

  /** Products requested per page by the page's service call. */
  const PageSize := 8

  /** As written the page looks for a pagination block that the customer
      listing does not send, so it always shows one page and no controls:
      with more than eight matching products, the rest are never reachable. */
  lemma AsWrittenShowsOnlyFirstPage(newestFirst: seq<(Id, Product)>, brands: map<Id, string>,
                                     category: string, skinType: string)
    requires |Filter(newestFirst, QueryFilter(true, category, skinType))| > PageSize
    ensures var r := ActiveProducts(newestFirst, brands, category, skinType, 1, PageSize);
      && r.Listed?
      && ShownTotalPages(r.page.totalPages) == 1
      && !PaginationShown(false, ShownTotalPages(r.page.totalPages))
      && |r.page.rows| < r.page.total
  {
  }

  /** The page count as evidently intended: computed from the reply's
      match count and the page size the page asked for. */
  function IntendedTotalPages(total: nat, limit: int): (n: int)
    requires limit >= 1
    ensures n >= 0
    ensures total == 0 ==> n == 0
    ensures total > 0 ==> (n - 1) * limit < total <= n * limit
  {
    PageCount(total, limit).n
  }

  /** With the intended count, every matching product sits on a page the
      controls can reach, it is listed on that page at position
      `i % PageSize`, and the controls show whenever it is not the first
      page. */
  lemma IntendedReachesEveryProduct(newestFirst: seq<(Id, Product)>, brands: map<Id, string>,
                                    category: string, skinType: string, i: int)
    requires 0 <= i < |Filter(newestFirst, QueryFilter(true, category, skinType))|
    ensures var matching := Filter(newestFirst, QueryFilter(true, category, skinType));
      var p := i / PageSize + 1;
      var r := ActiveProducts(newestFirst, brands, category, skinType, p, PageSize);
      && 1 <= p <= IntendedTotalPages(|matching|, PageSize)
      && (p > 1 ==> PaginationShown(false, IntendedTotalPages(|matching|, PageSize)))
      && r.Listed?
      && i % PageSize < |r.page.rows|
      && r.page.rows[i % PageSize] == Summary(brands, matching[i])
  {
    var matching := Filter(newestFirst, QueryFilter(true, category, skinType));
    var p := i / PageSize + 1;
    RowOnItsPage(matching, PageSize, i);
    ActiveProductsWindow(newestFirst, brands, category, skinType, p, PageSize);
    var r := ActiveProducts(newestFirst, brands, category, skinType, p, PageSize);
    RowShownOnItsPage(r.page.rows, matching, SummaryOf(brands), PageSize, i);
  }
}
