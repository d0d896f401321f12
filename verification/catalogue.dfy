/**
 * The product listing behind `GET /all-porducts`: a filter built from the
 * optional `title`, `category` and `brand` parameters, a price sort whose
 * direction comes from `sort`, a page window from `page` and `limit`, the
 * count of matching products, and the distinct brands and categories of the
 * whole catalogue. The product collection is a sequence in storage order.
 */
module Catalogue {
  import opened Common
  import Text

  type ProductId = nat

  /** The product fields the listing reads; prices are whole numbers. */
  datatype Product = Product(id: ProductId, title: string, category: string, brand: string, price: int)

  /** The query string; `page` and `limit` are taken as already parsed numbers. */
  datatype ListingQuery = ListingQuery(
    title: Option<string>,
    category: Option<string>,
    brand: Option<string>,
    sort: Option<string>,
    page: nat,
    limit: nat)

  /**
   * The query document: `title` and `category` hold case-insensitive
   * patterns, `brand` a value to compare for equality; `None` is a field the
   * document does not have.
   */
  datatype Filter = Filter(title: Option<string>, category: Option<string>, brand: Option<string>)

  /** The result sent back to the client. */
  datatype Listing = Listing(products: seq<Product>, brands: seq<string>, categories: seq<string>, totalProducts: nat)

  /** JavaScript truthiness of an optional string parameter: present and not empty. */
  predicate Truthy(o: Option<string>) {
    o.Some? && o.value != ""
  }

  /** Whether a product satisfies every field of a query document. */
  predicate Matches(f: Filter, p: Product) {
    (f.title.Some? ==> Text.ContainsIgnoreCase(p.title, f.title.value)) &&
    (f.category.Some? ==> Text.ContainsIgnoreCase(p.category, f.category.value)) &&
    (f.brand.Some? ==> p.brand == f.brand.value)
  }

  /** What the client asked for, read straight from the query string. */
  predicate Requested(q: ListingQuery, p: Product) {
    (Truthy(q.title) ==> Text.ContainsIgnoreCase(p.title, q.title.value)) &&
    (Truthy(q.category) ==> Text.ContainsIgnoreCase(p.category, q.category.value)) &&
    (Truthy(q.brand) ==> p.brand == q.brand.value)
  }

  /** The query document the handler builds from the query string. */
  function FilterOf(q: ListingQuery): (f: Filter)
    ensures forall p :: Matches(f, p) <==> Requested(q, p)
    ensures f.title.Some? <==> Truthy(q.title)
    ensures f.category.Some? <==> Truthy(q.category)
    ensures f.brand.Some? <==> Truthy(q.brand)
  {
    Filter(
      if Truthy(q.title) then q.title else None,
      if Truthy(q.category) then q.category else None,
      if Truthy(q.brand) then q.brand else None)
  }

  /** Without title, category or brand every product matches. */
  lemma NoParametersMatchAll(q: ListingQuery, p: Product)
    requires !Truthy(q.title) && !Truthy(q.category) && !Truthy(q.brand)
    ensures Matches(FilterOf(q), p)
  {
  }

  /** The products of the catalogue matching `f`, in storage order (`find(query)`). */
  function Select(catalogue: seq<Product>, f: Filter): (r: seq<Product>)
    ensures forall p :: p in r <==> p in catalogue && Matches(f, p)
    ensures |r| <= |catalogue|
  {
    if catalogue == [] then []
    else (if Matches(f, catalogue[0]) then [catalogue[0]] else []) + Select(catalogue[1..], f)
  }

  /** Selection keeps storage order: it distributes over concatenation. */
  lemma {:induction false} SelectAppend(a: seq<Product>, b: seq<Product>, f: Filter)
    ensures Select(a + b, f) == Select(a, f) + Select(b, f)
  {
    if a == [] {
      assert a + b == b;
    } else {
      assert (a + b)[0] == a[0];
      assert (a + b)[1..] == a[1..] + b;
      SelectAppend(a[1..], b, f);
    }
  }

  /** When every product matches, the selection is the whole catalogue. */
  lemma {:induction false} SelectAllMatching(catalogue: seq<Product>, f: Filter)
    requires forall p :: p in catalogue ==> Matches(f, p)
    ensures Select(catalogue, f) == catalogue
  {
    if catalogue != [] {
      SelectAllMatching(catalogue[1..], f);
    }
  }

  /** The number of catalogue products matching `f` (`countDocuments(query)`). */
  function CountMatching(catalogue: seq<Product>, f: Filter): (n: nat)
    ensures n <= |catalogue|
  {
    if catalogue == [] then 0
    else (if Matches(f, catalogue[0]) then 1 else 0) + CountMatching(catalogue[1..], f)
  }

  /** The count is the length of the full, unpaged selection. */
  lemma {:induction false} CountIsSelectionSize(catalogue: seq<Product>, f: Filter)
    ensures CountMatching(catalogue, f) == |Select(catalogue, f)|
  {
    if catalogue != [] {
      CountIsSelectionSize(catalogue[1..], f);
    }
  }

  /** The empty query document counts the whole catalogue. */
  lemma {:induction false} CountAllWithoutFilter(catalogue: seq<Product>)
    ensures CountMatching(catalogue, Filter(None, None, None)) == |catalogue|
  {
    if catalogue != [] {
      CountAllWithoutFilter(catalogue[1..]);
    }
  }

  /** Sort direction on price: `{ price: 1 }` or `{ price: -1 }`. */
  datatype Direction = Ascending | Descending

  /** `sort === 'asc' ? 1 : -1` */
  function SortOption(sort: Option<string>): (d: Direction)
    ensures d == Ascending <==> sort == Some("asc")
  {
    if sort == Some("asc") then Ascending else Descending
  }

  /** `a` may come before `b` in direction `d`. */
  predicate InOrder(d: Direction, a: Product, b: Product) {
    if d == Ascending then a.price <= b.price else a.price >= b.price
  }

  /** Every earlier product comes before every later one in direction `d`. */
  predicate Ordered(d: Direction, s: seq<Product>) {
    forall i, j :: 0 <= i < j < |s| ==> InOrder(d, s[i], s[j])
  }

  /** Inserts `x` into an ordered sequence ahead of the first product it may precede. */
  function Insert(d: Direction, x: Product, s: seq<Product>): (r: seq<Product>)
    requires Ordered(d, s)
    ensures Ordered(d, r)
    ensures multiset(r) == multiset(s) + multiset{x}
  {
    if s == [] then [x]
    else if InOrder(d, x, s[0]) then [x] + s
    else
      var t := Insert(d, x, s[1..]);
      assert s == [s[0]] + s[1..];
      BoundsAll(d, s[0], s[1..], x, t);
      [s[0]] + t
  }

  /** A product that may precede `x` and every product of `s` may precede every product of their union `t`. */
  lemma BoundsAll(d: Direction, y: Product, s: seq<Product>, x: Product, t: seq<Product>)
    requires multiset(t) == multiset(s) + multiset{x}
    requires InOrder(d, y, x) && forall k :: 0 <= k < |s| ==> InOrder(d, y, s[k])
    ensures forall k :: 0 <= k < |t| ==> InOrder(d, y, t[k])
  {
    forall k | 0 <= k < |t| ensures InOrder(d, y, t[k]) {
      assert t[k] in multiset(t);
      if t[k] != x {
        assert t[k] in multiset(s);
        var m :| 0 <= m < |s| && s[m] == t[k];
      }
    }
  }

  /** The products ordered by price in direction `d`; equal prices keep storage order. */
  function SortByPrice(d: Direction, s: seq<Product>): (r: seq<Product>)
    ensures Ordered(d, r)
    ensures multiset(r) == multiset(s)
  {
    if s == [] then []
    else
      assert s == [s[0]] + s[1..];
      Insert(d, s[0], SortByPrice(d, s[1..]))
  }

  /**
   * `skip(skip).limit(limit)` on a sequence already in result order; a limit
   * of 0 places no limit on the cursor.
   */
  function Window<T>(s: seq<T>, skip: nat, limit: nat): (r: seq<T>)
    ensures |r| == if skip >= |s| then 0 else if limit == 0 || |s| - skip < limit then |s| - skip else limit
    ensures forall i :: 0 <= i < |r| ==> r[i] == s[skip + i]
  {
    if skip >= |s| then []
    else if limit == 0 || |s| - skip < limit then s[skip..]
    else s[skip..skip + limit]
  }

  /** A window of an ordered sequence is ordered. */
  lemma WindowOrdered(d: Direction, s: seq<Product>, skip: nat, limit: nat)
    requires Ordered(d, s)
    ensures Ordered(d, Window(s, skip, limit))
  {
    var w := Window(s, skip, limit);
    forall i, j | 0 <= i < j < |w| ensures InOrder(d, w[i], w[j]) {
      assert w[i] == s[skip + i] && w[j] == s[skip + j];
    }
  }

  /** A window holds only elements of the sequence it is taken from. */
  lemma WindowMembers<T>(s: seq<T>, skip: nat, limit: nat)
    ensures forall x :: x in Window(s, skip, limit) ==> x in s
  {
    var w := Window(s, skip, limit);
    forall x | x in w ensures x in s {
      var i :| 0 <= i < |w| && w[i] == x;
      assert s[skip + i] == x;
    }
  }

  /**
   * The number of products before page `page` when every page holds `limit`
   * products; equal to `(page - 1) * limit`, as `OffsetIsProduct` shows.
   */
  function Offset(page: nat, limit: nat): nat
    requires page >= 1
  {
    if page == 1 then 0 else Offset(page - 1, limit) + limit
  }

  lemma {:induction false} OffsetIsProduct(page: nat, limit: nat)
    requires page >= 1
    ensures Offset(page, limit) == (page - 1) * limit
  {
    if page > 1 {
      OffsetIsProduct(page - 1, limit);
      assert (page - 1) * limit == (page - 2) * limit + limit;
    }
  }

  /** Consecutive windows of one sequence join into the window that spans both. */
  lemma WindowsJoin<T>(s: seq<T>, skip: nat, skip': nat, m: nat, n: nat)
    requires m >= 1 && n >= 1 && skip' == skip + m
    ensures Window(s, skip, m) + Window(s, skip', n) == Window(s, skip, m + n)
  {
    var a, b, c := Window(s, skip, m), Window(s, skip', n), Window(s, skip, m + n);
    assert |a + b| == |c|;
    forall i | 0 <= i < |c| ensures (a + b)[i] == c[i] {
      if i >= |a| {
        assert (a + b)[i] == b[i - |a|];
      }
    }
  }

  /** `productInfo.map(product => product.brand)`: one brand per product, in storage order. */
  function Brands(catalogue: seq<Product>): seq<string> {
    seq(|catalogue|, i requires 0 <= i < |catalogue| => catalogue[i].brand)
  }

  /** `productInfo.map(product => product.category)`: one category per product, in storage order. */
  function Categories(catalogue: seq<Product>): seq<string> {
    seq(|catalogue|, i requires 0 <= i < |catalogue| => catalogue[i].category)
  }

  /**
   * `[...new Set(xs)]`: each value once, at the position of its first
   * occurrence.
   */
  function Distinct(xs: seq<string>): (r: seq<string>)
    ensures forall x :: x in r <==> x in xs
    ensures NoDuplicates(r)
  {
    if xs == [] then []
    else
      var prefix := xs[..|xs| - 1];
      var x := xs[|xs| - 1];
      var r0 := Distinct(prefix);
      assert xs == prefix + [x];
      if x in r0 then r0 else r0 + [x]
  }

  /** The values of `Distinct(xs)` appear in the order of their first occurrences in `xs`. */
  lemma {:induction false} DistinctFirstOccurrenceOrder(xs: seq<string>)
    ensures forall i, j :: 0 <= i < j < |Distinct(xs)| ==>
      FirstIndex(xs, Distinct(xs)[i]) < FirstIndex(xs, Distinct(xs)[j])
  {
    if xs != [] {
      var prefix := xs[..|xs| - 1];
      var x := xs[|xs| - 1];
      assert xs == prefix + [x];
      DistinctFirstOccurrenceOrder(prefix);
      var r0 := Distinct(prefix);
      var r := Distinct(xs);
      forall k | 0 <= k < |r0| ensures FirstIndex(xs, r0[k]) == FirstIndex(prefix, r0[k]) {
        FirstIndexAppend(prefix, x, r0[k]);
      }
      if x !in r0 {
        assert FirstIndex(xs, x) == |prefix| by {
          assert x !in prefix;
        }
        forall i, j | 0 <= i < j < |r| ensures FirstIndex(xs, r[i]) < FirstIndex(xs, r[j]) {
          if j == |r0| {
            assert r[i] == r0[i];
          } else {
            assert r[i] == r0[i] && r[j] == r0[j];
          }
        }
      }
    }
  }

  /**
   * The specification of the handler: the matching products sorted by price
   * (MongoDB sorts before it skips and limits, whatever order the cursor
   * calls are chained in), then the window of page `page` with `limit`
   * products per page; the unpaged count; the facets of the whole catalogue.
   */
  function ListingOf(catalogue: seq<Product>, q: ListingQuery): Listing
    requires q.page >= 1
  {
    Listing(
      Window(SortedMatches(catalogue, q), Offset(q.page, q.limit), q.limit),
      Distinct(Brands(catalogue)),
      Distinct(Categories(catalogue)),
      CountMatching(catalogue, FilterOf(q)))
  }

  /** Every matching product, in the order the cursor returns them before paging. */
  function SortedMatches(catalogue: seq<Product>, q: ListingQuery): seq<Product> {
    SortByPrice(SortOption(q.sort), Select(catalogue, FilterOf(q)))
  }

  /**
   * `GET /all-porducts`. The query document is built one field at a time,
   * as the handler does, and the rest follows the cursor calls.
   */
  method AllProducts(catalogue: seq<Product>, q: ListingQuery) returns (out: Listing)
    requires q.page >= 1
    ensures out == ListingOf(catalogue, q)
    ensures forall p :: p in out.products ==> p in catalogue && Requested(q, p)
    ensures q.limit >= 1 ==> |out.products| <= q.limit
    ensures q.limit == 0 ==> out.products == SortedMatches(catalogue, q)
    ensures Ordered(SortOption(q.sort), out.products)
    ensures out.totalProducts == |Select(catalogue, FilterOf(q))|
  {
    var query := Filter(None, None, None);
    if Truthy(q.title) {
      query := query.(title := q.title);
    }
    if Truthy(q.category) {
      query := query.(category := q.category);
    }
    if Truthy(q.brand) {
      query := query.(brand := q.brand);
    }
    assert query == FilterOf(q);
    var sortOption := SortOption(q.sort);
    var skip := (q.page - 1) * q.limit;
    OffsetIsProduct(q.page, q.limit);
    var sorted := SortByPrice(sortOption, Select(catalogue, query));
    var products := Window(sorted, skip, q.limit);
    var totalProducts := CountMatching(catalogue, query);
    var brands := Distinct(Brands(catalogue));
    var categories := Distinct(Categories(catalogue));
    out := Listing(products, brands, categories, totalProducts);
    ListingPage(catalogue, q, sorted, skip);
    ListingProductsRequested(catalogue, q);
    ListingPageOrdered(catalogue, q);
    ListingPageWindow(catalogue, q);
    CountIsSelectionSize(catalogue, query);
    if q.limit == 0 {
      NoLimitListsAll(catalogue, q);
    }
  }

  /** Every listed product is a catalogue product the client asked for. */
  lemma ListingProductsRequested(catalogue: seq<Product>, q: ListingQuery)
    requires q.page >= 1
    ensures forall p :: p in ListingOf(catalogue, q).products ==> p in catalogue && Requested(q, p)
  {
    var sel := Select(catalogue, FilterOf(q));
    var sorted := SortByPrice(SortOption(q.sort), sel);
    WindowMembers(sorted, Offset(q.page, q.limit), q.limit);
    forall p | p in sorted ensures p in sel {
      assert p in multiset(sorted);
    }
  }

  /** The page is ordered by price, ascending exactly when `sort` is "asc". */
  lemma ListingPageOrdered(catalogue: seq<Product>, q: ListingQuery)
    requires q.page >= 1
    ensures Ordered(SortOption(q.sort), ListingOf(catalogue, q).products)
    ensures SortOption(q.sort) == Ascending <==> q.sort == Some("asc")
  {
    var sorted := SortedMatches(catalogue, q);
    WindowOrdered(SortOption(q.sort), sorted, Offset(q.page, q.limit), q.limit);
  }

  /**
   * Page `page` is the sorted selection after skipping `(page - 1) * limit`
   * products, and holds at most `limit` of them when `limit` is positive.
   */
  lemma ListingPageWindow(catalogue: seq<Product>, q: ListingQuery)
    requires q.page >= 1
    ensures var sorted := SortedMatches(catalogue, q);
            var page := ListingOf(catalogue, q).products;
            (q.limit >= 1 ==> |page| <= q.limit) &&
            (forall i :: 0 <= i < |page| ==> page[i] == sorted[Offset(q.page, q.limit) + i]) &&
            (q.limit >= 1 && Offset(q.page, q.limit) + q.limit <= |sorted| ==> |page| == q.limit)
    ensures Offset(q.page, q.limit) == (q.page - 1) * q.limit
  {
    var sorted := SortedMatches(catalogue, q);
    var page := ListingOf(catalogue, q).products;
    assert page == Window(sorted, Offset(q.page, q.limit), q.limit);
    OffsetIsProduct(q.page, q.limit);
  }

  /** `limit=0` places no limit: every page lists all the sorted matches. */
  lemma NoLimitListsAll(catalogue: seq<Product>, q: ListingQuery)
    requires q.page >= 1 && q.limit == 0
    ensures ListingOf(catalogue, q).products == SortedMatches(catalogue, q)
  {
    OffsetIsProduct(q.page, q.limit);
    ListingPage(catalogue, q, SortedMatches(catalogue, q), 0);
  }

  /**
   * With a positive limit, pages `k` and `k + 1` follow each other without
   * gap or overlap in the sorted matches.
   */
  lemma ConsecutivePages(catalogue: seq<Product>, q: ListingQuery, next: ListingQuery)
    requires q.page >= 1 && q.limit >= 1
    requires next.title == q.title && next.category == q.category && next.brand == q.brand
    requires next.sort == q.sort && next.limit == q.limit && next.page == q.page + 1
    ensures ListingOf(catalogue, q).products + ListingOf(catalogue, next).products
              == Window(SortedMatches(catalogue, q), Offset(q.page, q.limit), q.limit + q.limit)
  {
    var sorted := SortedMatches(catalogue, q);
    var skip, skip' := Offset(q.page, q.limit), Offset(next.page, next.limit);
    assert skip' == skip + q.limit;
    SortedMatchesIgnorePaging(catalogue, q, next);
    ListingPage(catalogue, q, sorted, skip);
    ListingPage(catalogue, next, sorted, skip');
    WindowsJoin(sorted, skip, skip', q.limit, q.limit);
  }

  /** The sorted matches depend on the filter parameters and `sort` only. */
  lemma SortedMatchesIgnorePaging(catalogue: seq<Product>, q: ListingQuery, q': ListingQuery)
    requires q'.title == q.title && q'.category == q.category && q'.brand == q.brand && q'.sort == q.sort
    ensures SortedMatches(catalogue, q') == SortedMatches(catalogue, q)
  {
    assert FilterOf(q') == FilterOf(q);
  }

  /** The page of a listing, by the definition of `ListingOf`. */
  lemma ListingPage(catalogue: seq<Product>, q: ListingQuery, sorted: seq<Product>, skip: nat)
    requires q.page >= 1
    requires sorted == SortedMatches(catalogue, q) && skip == Offset(q.page, q.limit)
    ensures ListingOf(catalogue, q).products == Window(sorted, skip, q.limit)
  {
  }

  /** `totalProducts` counts every match, whatever `sort`, `page` and `limit` are. */
  lemma TotalIgnoresPaging(catalogue: seq<Product>, q: ListingQuery, q': ListingQuery)
    requires q.page >= 1 && q'.page >= 1
    requires q'.title == q.title && q'.category == q.category && q'.brand == q.brand
    ensures ListingOf(catalogue, q).totalProducts == ListingOf(catalogue, q').totalProducts
    ensures ListingOf(catalogue, q).totalProducts == |Select(catalogue, FilterOf(q))|
  {
    CountIsSelectionSize(catalogue, FilterOf(q));
  }

  /** The brand facet lists every brand of the catalogue, and nothing else, once each. */
  lemma BrandFacet(catalogue: seq<Product>)
    ensures forall p :: p in catalogue ==> p.brand in Distinct(Brands(catalogue))
    ensures forall b :: b in Distinct(Brands(catalogue)) ==> exists p :: p in catalogue && p.brand == b
    ensures NoDuplicates(Distinct(Brands(catalogue)))
  {
    var bs := Brands(catalogue);
    forall p | p in catalogue ensures p.brand in bs {
      var i :| 0 <= i < |catalogue| && catalogue[i] == p;
      assert bs[i] == p.brand;
    }
    forall b | b in bs ensures exists p :: p in catalogue && p.brand == b {
      var i :| 0 <= i < |bs| && bs[i] == b;
      assert catalogue[i] in catalogue;
    }
  }

  /** The category facet lists every category of the catalogue, and nothing else, once each. */
  lemma CategoryFacet(catalogue: seq<Product>)
    ensures forall p :: p in catalogue ==> p.category in Distinct(Categories(catalogue))
    ensures forall c :: c in Distinct(Categories(catalogue)) ==> exists p :: p in catalogue && p.category == c
    ensures NoDuplicates(Distinct(Categories(catalogue)))
  {
    var cs := Categories(catalogue);
    forall p | p in catalogue ensures p.category in cs {
      var i :| 0 <= i < |catalogue| && catalogue[i] == p;
      assert cs[i] == p.category;
    }
    forall c | c in cs ensures exists p :: p in catalogue && p.category == c {
      var i :| 0 <= i < |cs| && cs[i] == c;
      assert catalogue[i] in catalogue;
    }
  }

  /**
   * The facets of a listing are those of the whole catalogue, in order of
   * first appearance, whatever the query.
   */
  lemma FacetsIgnoreQuery(catalogue: seq<Product>, q: ListingQuery)
    requires q.page >= 1
    ensures ListingOf(catalogue, q).brands == Distinct(Brands(catalogue))
    ensures ListingOf(catalogue, q).categories == Distinct(Categories(catalogue))
  {
  }
}
