/** The product endpoints: the administrator's status toggle, create and
    update, and the two paged listings (back-end/controller/product.controller.js). */
module Products {
  import opened Wrappers
  import opened Strings
  import opened Store
  import opened Paging
  import opened Lists

  // ---------------------------------------------------------------------
  // toggleProductStatus
  // ---------------------------------------------------------------------

  /** `status === "active" ? "inactive" : "active"`. */
  function Toggled(status: string): (r: string)
    ensures r == "active" || r == "inactive"
    ensures (r == "inactive") <==> (status == "active")
  {
    if status == "active" then "inactive" else "active"
  }

  datatype ToggleReply = ToggleNotFound | StatusToggled
  {
    function Code(): int
    {
      match this
      case ToggleNotFound => 400
      case StatusToggled => 200
    }
  }

  /** `toggleProductStatus`: flips "active" and "inactive"; any other
      status becomes "active".  Only that product's status changes. */
  function ToggleStatus(st: Store, id: Id): (o: Outcome<ToggleReply>)
    ensures o.reply == ToggleNotFound <==> id !in st.products
    ensures o.reply == ToggleNotFound ==> o.store == st
    ensures o.reply == StatusToggled ==>
      && o.store == st.(products := o.store.products)
      && o.store.products.Keys == st.products.Keys
      && o.store.products[id] == st.products[id].(status := o.store.products[id].status)
      && (o.store.products[id].status == "inactive" <==> st.products[id].status == "active")
      && (forall p :: p in st.products && p != id ==> o.store.products[p] == st.products[p])
  {
    if id !in st.products then Outcome(st, ToggleNotFound)
    else Outcome(st.(products := st.products[id := st.products[id].(status := Toggled(st.products[id].status))]), StatusToggled)
  }

  /** Toggling twice restores a product whose status was "active" or
      "inactive", and leaves the store as it was. */
  lemma ToggleTwice(st: Store, id: Id)
    requires id in st.products
    requires st.products[id].status == "active" || st.products[id].status == "inactive"
    ensures ToggleStatus(ToggleStatus(st, id).store, id).store == st
  {
    var once := ToggleStatus(st, id).store;
    var twice := ToggleStatus(once, id).store;
    assert twice.products[id] == st.products[id];
    assert twice.products == st.products;
  }

  /** Any other status (a typo, an empty string) is normalised to "active"
      by the first toggle, so two toggles do not restore it. */
  lemma ToggleNormalises(st: Store, id: Id)
    requires id in st.products
    requires st.products[id].status != "active" && st.products[id].status != "inactive"
    ensures ToggleStatus(st, id).store.products[id].status == "active"
    ensures ToggleStatus(ToggleStatus(st, id).store, id).store.products[id].status == "inactive"
  {
  }

  // ---------------------------------------------------------------------
  // createProduct
  // ---------------------------------------------------------------------

  /** `ingredients ? ingredients.split(",") : []`: an absent or empty field
      gives no ingredients, anything else the comma-separated pieces. */
  function Ingredients(field: Option<string>): (r: seq<string>)
    ensures field.None? || field.value == "" <==> r == []
    ensures forall i :: 0 <= i < |r| ==> ',' !in r[i]
  {
    if field.None? || field.value == "" then [] else Split(field.value, ',')
  }

  /** The pieces join back to the submitted text. */
  lemma IngredientsRoundTrip(text: string)
    ensures Join(Ingredients(Some(text)), ',') == text
  {
    if text != "" {
      JoinSplit(text, ',');
    }
  }

  /** Ingredients without commas survive a join-then-split unchanged, as
      the product form sends them. */
  lemma IngredientsFromList(list: seq<string>)
    requires |list| >= 1 && Join(list, ',') != ""
    requires forall i :: 0 <= i < |list| ==> ',' !in list[i]
    ensures Ingredients(Some(Join(list, ','))) == list
  {
    SplitJoin(list, ',');
  }

  /** The multipart fields of a create request, after the store's casts. */
  datatype ProductForm = ProductForm(
    name: string,
    description: string,
    price: int,
    category: string,
    ingredients: Option<string>,
    skinType: Option<Id>,
    stock: int,
    brand: Option<Id>)

  datatype CreateReply = MissingFile | ProductCreated | CreateFailed
  {
    function Code(): int
    {
      match this
      case MissingFile => 400
      case ProductCreated => 201
      case CreateFailed => 500
    }
  }

  /** The schema's default status for a new product (the product schema is
      not part of this model; "active" is assumed). */
  const DefaultStatus := "active"

  /** The document `createProduct` builds from the form and the uploaded
      file's path. */
  function NewProduct(form: ProductForm, imageUrl: string): (p: Product)
    ensures p.name == form.name && p.price == form.price && p.stock == form.stock
    ensures p.category == form.category && p.skinType == form.skinType && p.brand == form.brand
    ensures p.ingredients == Ingredients(form.ingredients)
    ensures p.description == form.description && p.imageUrl == imageUrl && p.status == DefaultStatus
  {
    Product(form.name, form.price, form.stock, DefaultStatus, form.category, form.skinType, form.brand,
            Ingredients(form.ingredients), form.description, imageUrl)
  }

  /** `createProduct` with the id the store assigns.  Without a file the
      400 is sent and the handler falls through to `req.file.path`, which
      throws before anything is saved, so the client sees the 400 and the
      store is unchanged.  An id already in use fails the save. */
  function CreateProduct(st: Store, newId: Id, form: ProductForm, file: Option<string>): (o: Outcome<CreateReply>)
    ensures o.reply == MissingFile <==> file.None?
    ensures o.reply == CreateFailed <==> file.Some? && newId in st.products
    ensures o.reply != ProductCreated ==> o.store == st
    ensures o.reply == ProductCreated ==>
      && o.store == st.(products := o.store.products)
      && o.store.products == st.products[newId := NewProduct(form, file.value)]
  {
    match file
    case None => Outcome(st, MissingFile)
    case Some(path) =>
      if newId in st.products then Outcome(st, CreateFailed)
      else Outcome(st.(products := st.products[newId := NewProduct(form, path)]), ProductCreated)
  }

  // ---------------------------------------------------------------------
  // updateProduct
  // ---------------------------------------------------------------------

  /** The fields present in an update request; absent fields are kept. */
  datatype ProductPatch = ProductPatch(
    name: Option<string>,
    description: Option<string>,
    price: Option<int>,
    category: Option<string>,
    ingredients: Option<seq<string>>,
    skinType: Option<Id>,
    stock: Option<int>,
    brand: Option<Id>,
    status: Option<string>)

  const NoChanges := ProductPatch(None, None, None, None, None, None, None, None, None)

  /** `findByIdAndUpdate(id, body)`: each present field replaces the stored one. */
  function Patch(p: Product, u: ProductPatch): (r: Product)
    ensures u.name.Some? ==> r.name == u.name.value
    ensures u.name.None? ==> r.name == p.name
    ensures u.price.Some? ==> r.price == u.price.value
    ensures u.price.None? ==> r.price == p.price
    ensures u.stock.Some? ==> r.stock == u.stock.value
    ensures u.stock.None? ==> r.stock == p.stock
    ensures u.status.Some? ==> r.status == u.status.value
    ensures u.status.None? ==> r.status == p.status
    ensures u.description.Some? ==> r.description == u.description.value
    ensures u.description.None? ==> r.description == p.description
    ensures u.category.Some? ==> r.category == u.category.value
    ensures u.category.None? ==> r.category == p.category
    ensures u.ingredients.Some? ==> r.ingredients == u.ingredients.value
    ensures u.ingredients.None? ==> r.ingredients == p.ingredients
    ensures u.skinType.Some? ==> r.skinType == u.skinType
    ensures u.skinType.None? ==> r.skinType == p.skinType
    ensures u.brand.Some? ==> r.brand == u.brand
    ensures u.brand.None? ==> r.brand == p.brand
    ensures r.imageUrl == p.imageUrl
  {
    Product(
      u.name.GetOr(p.name),
      u.price.GetOr(p.price),
      u.stock.GetOr(p.stock),
      u.status.GetOr(p.status),
      u.category.GetOr(p.category),
      if u.skinType.Some? then u.skinType else p.skinType,
      if u.brand.Some? then u.brand else p.brand,
      u.ingredients.GetOr(p.ingredients),
      u.description.GetOr(p.description),
      p.imageUrl)
  }

  /** An empty update keeps the product. */
  lemma PatchNothing(p: Product)
    ensures Patch(p, NoChanges) == p
  {
  }

  /** Applying the same update twice is applying it once. */
  lemma PatchIdempotent(p: Product, u: ProductPatch)
    ensures Patch(Patch(p, u), u) == Patch(p, u)
  {
  }

  datatype UpdateReply = UpdateNotFound | ProductUpdated
  {
    function Code(): int
    {
      match this
      case UpdateNotFound => 400
      case ProductUpdated => 201
    }
  }

  /** `updateProduct`.  For a missing product the 400 is sent and the
      handler falls through to an update that matches no document, so the
      store is unchanged.  Otherwise only that product takes the patch. */
  function UpdateProduct(st: Store, id: Id, u: ProductPatch): (o: Outcome<UpdateReply>)
    ensures o.reply == UpdateNotFound <==> id !in st.products
    ensures o.reply == UpdateNotFound ==> o.store == st
    ensures o.reply == ProductUpdated ==>
      o.store == st.(products := st.products[id := Patch(st.products[id], u)])
  {
    if id !in st.products then Outcome(st, UpdateNotFound)
    else Outcome(st.(products := st.products[id := Patch(st.products[id], u)]), ProductUpdated)
  }

  /** Toggling is an update of the status field alone. */
  lemma ToggleIsStatusUpdate(st: Store, id: Id)
    requires id in st.products
    ensures ToggleStatus(st, id).store ==
      UpdateProduct(st, id, NoChanges.(status := Some(Toggled(st.products[id].status)))).store
  {
  }

  // ---------------------------------------------------------------------
  // getProducts and getActiveProductForUser
  // ---------------------------------------------------------------------

  /** One listed product, with the brand populated to its name. */
  datatype ProductSummary = ProductSummary(
    id: Id,
    name: string,
    price: int,
    stock: int,
    category: string,
    imageUrl: string,
    skinType: Option<Id>,
    brand: Option<string>)

  /** `product.brand ? product.brand.name : null`: a product without a
      brand, or whose brand document is gone, lists no brand name. */
  function BrandName(brands: map<Id, string>, p: Product): (r: Option<string>)
    ensures r.Some? <==> p.brand.Some? && p.brand.value in brands
    ensures r.Some? ==> r.value == brands[p.brand.value]
  {
    if p.brand.Some? && p.brand.value in brands then Some(brands[p.brand.value]) else None
  }

  function Summary(brands: map<Id, string>, row: (Id, Product)): ProductSummary
  {
    var p := row.1;
    ProductSummary(row.0, p.name, p.price, p.stock, p.category, p.imageUrl, p.skinType, BrandName(brands, p))
  }

  /** The optional query filters: an empty value applies no constraint. */
  predicate MatchesQuery(category: string, skinType: string, p: Product)
  {
    && (category == "" || p.category == category)
    && (skinType == "" || p.skinType == Some(skinType))
  }

  function QueryFilter(onlyActive: bool, category: string, skinType: string): ((Id, Product)) -> bool
  {
    (row: (Id, Product)) => (!onlyActive || row.1.status == "active") && MatchesQuery(category, skinType, row.1)
  }

  /** The admin listing row: the summary plus the status. */
  datatype AdminRow = AdminRow(summary: ProductSummary, status: string)

  /** A listing reply: the rows, the match count, the page count when the
      reply has a pagination block, and the page echoed back. */
  datatype ProductPage<R> = ProductPage(rows: seq<R>, total: nat, totalPages: Option<JsCount>, currentPage: int)

  datatype ListReply<R> = Listed(page: ProductPage<R>) | ListFailed
  {
    function Code(): int
    {
      match this
      case Listed(_) => 200
      case ListFailed => 500
    }
  }

  /** The window `.skip((page - 1) * limit).limit(limit)` over the matching
      rows, in the order given. */
  function Window(rows: seq<(Id, Product)>, keep: ((Id, Product)) -> bool, page: int, limit: int)
    : (r: Option<seq<(Id, Product)>>)
    ensures r.None? <==> (page - 1) * limit < 0
    ensures r.Some? ==> |r.value| <= |Filter(rows, keep)|
    ensures r.Some? && limit > 0 ==> |r.value| <= limit
    ensures r.Some? ==> forall i :: 0 <= i < |r.value| ==> r.value[i] in rows && keep(r.value[i])
  {
    var matching := Filter(rows, keep);
    var w := StorePage(matching, (page - 1) * limit, limit);
    if w.None? then None
    else
      var from := if (page - 1) * limit > |matching| then |matching| else (page - 1) * limit;
      assert forall i :: 0 <= i < |w.value| ==> w.value[i] == matching[from + i];
      Some(w.value)
  }

  /** The administrator's row for a product. */
  function AdminRowOf(brands: map<Id, string>): ((Id, Product)) -> AdminRow
  {
    (row: (Id, Product)) => AdminRow(Summary(brands, row), row.1.status)
  }

  /** The customer's row for a product. */
  function SummaryOf(brands: map<Id, string>): ((Id, Product)) -> ProductSummary
  {
    (row: (Id, Product)) => Summary(brands, row)
  }

  /** `getProducts` (administrators): every status, the store's natural
      order, and a page count. */
  function AdminProducts(rows: seq<(Id, Product)>, brands: map<Id, string>, category: string, skinType: string,
                         page: int, limit: int): (r: ListReply<AdminRow>)
    ensures r.ListFailed? <==> (page - 1) * limit < 0
    ensures r.Listed? ==>
      && r.page.total == |Filter(rows, QueryFilter(false, category, skinType))|
      && r.page.totalPages == Some(PageCount(r.page.total, limit))
      && r.page.currentPage == page
      && (limit > 0 ==> |r.page.rows| <= limit)
      && forall i :: 0 <= i < |r.page.rows| ==>
           exists j :: 0 <= j < |rows| && MatchesQuery(category, skinType, rows[j].1) &&
             r.page.rows[i] == AdminRow(Summary(brands, rows[j]), rows[j].1.status)
  {
    var keep := QueryFilter(false, category, skinType);
    var total := |Filter(rows, keep)|;
    match Window(rows, keep, page, limit)
    case None => ListFailed
    case Some(w) =>
      var out := Map(w, AdminRowOf(brands));
      assert forall i :: 0 <= i < |out| ==> exists j :: (0 <= j < |rows| && MatchesQuery(category, skinType, rows[j].1) &&
             out[i] == AdminRow(Summary(brands, rows[j]), rows[j].1.status)) by {
        forall i | 0 <= i < |out|
          ensures exists j :: 0 <= j < |rows| && MatchesQuery(category, skinType, rows[j].1) &&
                    out[i] == AdminRow(Summary(brands, rows[j]), rows[j].1.status)
        {
          assert w[i] in rows && keep(w[i]);
          var j :| 0 <= j < |rows| && rows[j] == w[i];
          assert out[i] == AdminRow(Summary(brands, rows[j]), rows[j].1.status);
        }
      }
      Listed(ProductPage(out, total, Some(PageCount(total, limit)), page))
  }

  /** `getActiveProductForUser`: only active products, newest first (the
      rows are given in that order), with the count of matches but no
      page count in the reply. */
  function ActiveProducts(newestFirst: seq<(Id, Product)>, brands: map<Id, string>, category: string, skinType: string,
                          page: int, limit: int): (r: ListReply<ProductSummary>)
    ensures r.ListFailed? <==> (page - 1) * limit < 0
    ensures r.Listed? ==>
      && r.page.total == |Filter(newestFirst, QueryFilter(true, category, skinType))|
      && r.page.totalPages.None?
      && r.page.currentPage == page
      && (limit > 0 ==> |r.page.rows| <= limit)
      && forall i :: 0 <= i < |r.page.rows| ==>
           exists j :: 0 <= j < |newestFirst| && newestFirst[j].1.status == "active" &&
             MatchesQuery(category, skinType, newestFirst[j].1) && r.page.rows[i] == Summary(brands, newestFirst[j])
  {
    var keep := QueryFilter(true, category, skinType);
    var total := |Filter(newestFirst, keep)|;
    match Window(newestFirst, keep, page, limit)
    case None => ListFailed
    case Some(w) =>
      var out := Map(w, SummaryOf(brands));
      assert forall i :: 0 <= i < |out| ==> exists j :: (0 <= j < |newestFirst| && newestFirst[j].1.status == "active" &&
             MatchesQuery(category, skinType, newestFirst[j].1) && out[i] == Summary(brands, newestFirst[j])) by {
        forall i | 0 <= i < |out|
          ensures exists j :: 0 <= j < |newestFirst| && newestFirst[j].1.status == "active" &&
                    MatchesQuery(category, skinType, newestFirst[j].1) && out[i] == Summary(brands, newestFirst[j])
        {
          assert w[i] in newestFirst && keep(w[i]);
          var j :| 0 <= j < |newestFirst| && newestFirst[j] == w[i];
          assert out[i] == Summary(brands, newestFirst[j]);
        }
      }
      Listed(ProductPage(out, total, None, page))
  }

  /** For a positive page and limit, the administrator's listing shows
      exactly the page's window of the matching products, in store order. */
  lemma AdminProductsWindow(rows: seq<(Id, Product)>, brands: map<Id, string>, category: string, skinType: string,
                            page: int, limit: int)
    requires page >= 1 && limit >= 1
    ensures var r := AdminProducts(rows, brands, category, skinType, page, limit);
      r.Listed? && PageOf(r.page.rows, Filter(rows, QueryFilter(false, category, skinType)), AdminRowOf(brands), page, limit)
  {
    var matching := Filter(rows, QueryFilter(false, category, skinType));
    MulMonotone(0, page - 1, limit);
    PageWindow(matching, page, limit);
    PageOfSlice(AdminProducts(rows, brands, category, skinType, page, limit).page.rows, matching,
                AdminRowOf(brands), page, limit);
  }

  /** For a positive page and limit, the customer's listing shows exactly
      the page's window of the matching active products, newest first. */
  lemma ActiveProductsWindow(newestFirst: seq<(Id, Product)>, brands: map<Id, string>, category: string,
                             skinType: string, page: int, limit: int)
    requires page >= 1 && limit >= 1
    ensures var r := ActiveProducts(newestFirst, brands, category, skinType, page, limit);
      r.Listed? && PageOf(r.page.rows, Filter(newestFirst, QueryFilter(true, category, skinType)), SummaryOf(brands),
                          page, limit)
  {
    var matching := Filter(newestFirst, QueryFilter(true, category, skinType));
    MulMonotone(0, page - 1, limit);
    PageWindow(matching, page, limit);
    PageOfSlice(ActiveProducts(newestFirst, brands, category, skinType, page, limit).page.rows, matching,
                SummaryOf(brands), page, limit);
  }

  /** An inactive product never reaches a customer's listing. */
  lemma InactiveNeverListed(newestFirst: seq<(Id, Product)>, brands: map<Id, string>, category: string,
                            skinType: string, page: int, limit: int, id: Id)
    requires forall j :: 0 <= j < |newestFirst| && newestFirst[j].0 == id ==> newestFirst[j].1.status != "active"
    ensures var r := ActiveProducts(newestFirst, brands, category, skinType, page, limit);
      r.Listed? ==> forall i :: 0 <= i < |r.page.rows| ==> r.page.rows[i].id != id
  {
  }

  /** Without filters the administrator's listing counts every product,
      and the customer's listing counts exactly the active ones. */
  lemma UnfilteredCounts(rows: seq<(Id, Product)>, brands: map<Id, string>, page: int, limit: int)
    requires (page - 1) * limit >= 0
    ensures AdminProducts(rows, brands, "", "", page, limit).page.total == |rows|
    ensures ActiveProducts(rows, brands, "", "", page, limit).page.total ==
      |Filter(rows, (row: (Id, Product)) => row.1.status == "active")|
  {
    FilterKeepsAll(rows, QueryFilter(false, "", ""));
    FilterSame(rows, QueryFilter(true, "", ""), (row: (Id, Product)) => row.1.status == "active");
  }

  /** Two predicates that agree everywhere filter alike. */
  lemma {:induction false} FilterSame<T>(s: seq<T>, f: T -> bool, g: T -> bool)
    requires forall x :: f(x) == g(x)
    ensures Filter(s, f) == Filter(s, g)
    decreases |s|
  {
    if s != [] {
      FilterSame(s[1..], f, g);
    }
  }
}
