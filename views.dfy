/**
 * The product views: the name search, the substitute listing of a product,
 * saving a substitute for the logged-in customer, and the list of saved
 * substitutes. Every listing is split into pages of six.
 */
module Views {
  import opened Wrappers
  import opened Text
  import opened Json
  import opened Sequences
  import opened Models
  import opened Store
  import opened Substitutes

  /** `paginate_by` of every list view. */
  const PAGE_SIZE := 6

  // ---------------------------------------------------------------------------
  // Pagination

  /** The number of pages: one even for an empty list. */
  function PageCount(n: nat): nat {
    if n == 0 then 1 else (n + PAGE_SIZE - 1) / PAGE_SIZE
  }

  function Flatten<T>(pages: seq<seq<T>>): seq<T>
    decreases |pages|
  {
    if pages == [] then [] else pages[0] + Flatten(pages[1..])
  }

  /** The pages of a list, in order: each page but the last is full, the
      last is not empty unless the list is, and together they are the list. */
  function Pages<T>(items: seq<T>): (r: seq<seq<T>>)
    ensures |r| == PageCount(|items|)
    ensures Flatten(r) == items
    ensures forall i :: 0 <= i < |r| - 1 ==> |r[i]| == PAGE_SIZE
    ensures 0 < |r[|r| - 1]| <= PAGE_SIZE || items == []
    decreases |items|
  {
    if |items| <= PAGE_SIZE then [items]
    else
      var rest := Pages(items[PAGE_SIZE..]);
      var r := [items[..PAGE_SIZE]] + rest;
      assert r[1..] == rest;
      assert items[..PAGE_SIZE] + items[PAGE_SIZE..] == items;
      r
  }

  /** Page `number` (counting from 1), or `None` (a 404) when there is no such page. */
  function Page<T>(items: seq<T>, number: int): (r: Option<seq<T>>)
    ensures r.Some? <==> 1 <= number <= PageCount(|items|)
    ensures r.Some? ==> |r.value| <= PAGE_SIZE
  {
    var pages := Pages(items);
    if 1 <= number <= |pages| then
      assert |pages[|pages| - 1]| <= PAGE_SIZE;
      Some(pages[number - 1])
    else None
  }

  /** Page `number` holds the items from `(number - 1) * PAGE_SIZE` on, up to
      `PAGE_SIZE` of them: the slice `OFFSET ... LIMIT` picks. */
  lemma {:induction false} PageOffset<T>(items: seq<T>, number: int)
    requires 1 <= number <= PageCount(|items|)
    ensures var start := (number - 1) * PAGE_SIZE;
      var end := if start + PAGE_SIZE <= |items| then start + PAGE_SIZE else |items|;
      start <= |items| && Page(items, number).value == items[start..end]
    decreases |items|
  {
    if number == 1 {
      PageFirst(items);
    } else {
      var rest := items[PAGE_SIZE..];
      PageShift(items, number);
      PageOffset(rest, number - 1);
      var start := (number - 2) * PAGE_SIZE;
      var end := if start + PAGE_SIZE <= |rest| then start + PAGE_SIZE else |rest|;
      SliceShift(items, PAGE_SIZE, start, end);
    }
  }

  lemma PageFirst<T>(items: seq<T>)
    ensures Page(items, 1).value == items[..if PAGE_SIZE <= |items| then PAGE_SIZE else |items|]
  {
    if |items| <= PAGE_SIZE {
      assert items[..|items|] == items;
    }
  }

  /** Past the first page, page `number` is page `number - 1` of what follows it. */
  lemma PageShift<T>(items: seq<T>, number: int)
    requires 2 <= number <= PageCount(|items|)
    ensures PAGE_SIZE < |items|
    ensures 1 <= number - 1 <= PageCount(|items| - PAGE_SIZE)
    ensures Page(items, number).value == Page(items[PAGE_SIZE..], number - 1).value
  {
    assert Pages(items)[number - 1] == Pages(items[PAGE_SIZE..])[number - 2];
  }

  lemma SliceShift<T>(items: seq<T>, k: nat, i: nat, j: nat)
    requires k <= |items| && i <= j <= |items| - k
    ensures items[k..][i..j] == items[k + i..k + j]
  {
  }

  // ---------------------------------------------------------------------------
  // Search

  /** The ordering `order_by("name")`. */
  predicate NameLe(a: Product, b: Product) {
    TextLe(a.name, b.name)
  }

  lemma NameLeTotalPreorder()
    ensures TotalPreorder(NameLe)
  {
    forall a: Product, b: Product ensures NameLe(a, b) || NameLe(b, a) {
      TextLeTotal(a.name, b.name);
    }
    forall a: Product, b: Product, d: Product | NameLe(a, b) && NameLe(b, d) ensures NameLe(a, d) {
      TextLeTransitive(a.name, b.name, d.name);
    }
  }

  /** `name__icontains=query`: the query occurs in the name, ignoring case. */
  function Matches(query: string, p: Product): (r: bool)
    ensures query == [] ==> r
    ensures r ==> |query| <= |p.name|
  {
    Contains(Lower(p.name), Lower(query))
  }

  /** `SearchResultsView.get_queryset`. Without a `q` parameter the lookup
      gets `None`, which the ORM refuses: `None`. Otherwise the products
      whose name contains the query, ignoring case, ordered by name. */
  function Search(c: Catalog, query: Option<string>): (r: Option<seq<Product>>)
    ensures r.Some? <==> query.Some?
    ensures r.Some? ==> forall p :: p in r.value <==> p in c.products && Matches(query.value, p)
    ensures r.Some? ==> forall p :: multiset(r.value)[p] == if Matches(query.value, p) then multiset(c.products)[p] else 0
    ensures r.Some? ==> SortedBy(r.value, NameLe)
  {
    if query.None? then None
    else
      var found := Filter(c.products, (p: Product) => Matches(query.value, p));
      var ordered := Sort(found, NameLe);
      NameLeTotalPreorder();
      SortSorted(found, NameLe);
      assert forall p :: p in ordered <==> p in multiset(found);
      Some(ordered)
  }

  /** A product matches exactly when the lower-cased query occurs at some
      position of its lower-cased name; the empty query matches every product. */
  lemma MatchesIff(query: string, p: Product)
    ensures Matches(query, p) <==> exists i :: OccursAt(Lower(p.name), Lower(query), i)
    ensures query == [] ==> Matches(query, p)
  {
    ContainsIff(Lower(p.name), Lower(query));
    if query == [] {
      assert OccursAt(Lower(p.name), Lower(query), 0);
    }
  }

  /** A pattern longer than the text never occurs in it. */
  lemma {:induction false} TooLongNeverContained(s: string, pat: string)
    requires |s| < |pat|
    ensures !Contains(s, pat)
    decreases |s|
  {
    if s != [] {
      TooLongNeverContained(s[1..], pat);
    }
  }

  function Named(id: ProductId, name: string): Product {
    Product(id, name, "a", 2, "kcal", Nutrients(Null, Null, Null, Null, Null, Null, Null, Null), None, "")
  }

  lemma SampleMatches()
    ensures Matches("Product 2", Named(2, "Product 2"))
    ensures !Matches("Product 2", Named(1, "Product 1"))
  {
    assert Lower("Product 1") == "product 1";
    assert Lower("Product 2") == "product 2";
    assert IsPrefix("product 2", "product 2");
    assert "product 1"[..9][8] != "product 2"[8];
    TooLongNeverContained("product 1"[1..], "product 2");
  }

  lemma SampleMisses()
    ensures forall id :: !Matches("Moutarde", Named(id, "Product 1"))
    ensures forall id :: !Matches("Moutarde", Named(id, "Product 2"))
  {
    assert Lower("Moutarde") == "moutarde";
    OneLongerMiss(Lower("Product 1"), "moutarde");
    OneLongerMiss(Lower("Product 2"), "moutarde");
  }

  /** A text one character longer than the pattern, whose first two
      characters both differ from the pattern's first, does not contain it. */
  lemma OneLongerMiss(s: string, pat: string)
    requires |s| == |pat| + 1 && pat != [] && s[0] != pat[0] && s[1] != pat[0]
    ensures !Contains(s, pat)
  {
    assert s[..|pat|][0] == s[0];
    assert s[1..][..|pat|][0] == s[1];
    TooLongNeverContained(s[1..][1..], pat);
  }

  /** Two products named "Product 1" and "Product 2": the query "Product 2"
      finds only the second, "Moutarde" finds nothing. */
  /** The two products of the search tests, in a fresh database. */
  function SearchCatalog(): Catalog {
    Empty.(products := [Named(1, "Product 1"), Named(2, "Product 2")], nextProductId := 3)
  }

  lemma SearchCatalogValid()
    ensures Valid(SearchCatalog())
  {
    var c := SearchCatalog();
    assert c.products[0].name != c.products[1].name by {
      assert c.products[0].name[8] != c.products[1].name[8];
    }
    assert ProductsValid(c);
    assert CategoriesValid(c) && LinksValid(c) && FavoritesValid(c);
  }

  lemma SearchSample()
    ensures Search(SearchCatalog(), Some("Product 2")) == Some([Named(2, "Product 2")])
    ensures Search(SearchCatalog(), Some("Moutarde")) == Some([])
  {
    var c := SearchCatalog();
    assert c.products == [Named(1, "Product 1"), Named(2, "Product 2")];
    SampleMatches();
    SampleMisses();
    var hits := Search(c, Some("Product 2")).value;
    assert forall p :: p in hits <==> p == Named(2, "Product 2");
    assert multiset(hits)[Named(2, "Product 2")] <= 1;
    var none := Search(c, Some("Moutarde")).value;
    assert forall p :: p !in none;
  }

  // ---------------------------------------------------------------------------
  // Substitutes of a product

  /** `Product.objects.get(pk=id)`. */
  function FindProduct(products: seq<Product>, id: int): (r: Option<Product>)
    ensures r.Some? ==> r.value in products && r.value.id == id
    ensures r.None? ==> forall p :: p in products ==> p.id != id
    decreases |products|
  {
    if products == [] then None
    else if products[0].id == id then Some(products[0])
    else FindProduct(products[1..], id)
  }

  /** `SubstituteResultsView.get_queryset`: the substitutes of the product
      with id `id` with the default number of shared categories, or `None`
      (the lookup raises) when there is no such product. */
  function SubstituteView(c: Catalog, id: int): (r: Option<seq<Product>>)
    ensures r.None? <==> id !in ProductIds(c)
    ensures r.Some? ==> exists p :: p in c.products && p.id == id
                                    && r.value == Substitutes.Substitutes(c, p, DEFAULT_COMMON_CATEGORIES)
  {
    match FindProduct(c.products, id)
    case None => None
    case Some(p) => Some(Substitutes.Substitutes(c, p, DEFAULT_COMMON_CATEGORIES))
  }

  /** A product linked to fewer than four categories has no substitute page entries. */
  lemma FewCategoriesNoSubstitutes(c: Catalog, p: Product)
    requires p in c.products && |CategoriesOf(c, p.id)| < DEFAULT_COMMON_CATEGORIES
    ensures SubstituteView(c, p.id) == Some([])
  {
    TooFewCategories(c, p, DEFAULT_COMMON_CATEGORIES);
    var found := FindProduct(c.products, p.id).value;
    if found != p {
      assert CategoriesOf(c, found.id) == CategoriesOf(c, p.id);
      TooFewCategories(c, found, DEFAULT_COMMON_CATEGORIES);
    }
  }

  // ---------------------------------------------------------------------------
  // Saving a substitute

  /** The parts of the request `save_view` reads: the method, the logged-in
      customer, and the `product_id`, `substitute_id` and `next` fields. */
  datatype SaveRequest = SaveRequest(
    isPost: bool, customer: UserId, productId: string, substituteId: string, next: string)

  datatype Response = RedirectFavorites | RedirectTo(url: string) | ServerError

  /** The form names both ids, in a POST. */
  predicate Requested(req: SaveRequest) {
    req.isPost && req.productId != [] && req.substituteId != []
  }

  /** The two ids as integers, when both parse. */
  function Ids(req: SaveRequest): Option<(int, int)> {
    match (ParseInt(req.productId), ParseInt(req.substituteId))
    case (Some(product), Some(substitute)) => Some((product, substitute))
    case _ => None
  }

  /** The new catalog and the response of `save_view`. A request that is not
      a POST, or has an empty id, saves nothing and goes to the favourites.
      An id that is not an integer raises. Otherwise an already saved triple
      sends the customer back to `next`; a new triple is saved once and goes
      to the favourites, unless it points at a missing product, which raises. */
  function Save(c: Catalog, req: SaveRequest): (r: (Catalog, Response))
    ensures !Requested(req) ==> r == (c, RedirectFavorites)
    ensures Requested(req) && Ids(req).None? ==> r == (c, ServerError)
    ensures Requested(req) && Ids(req).Some? ==>
      var (product, substitute) := Ids(req).value;
      && (r.1.RedirectTo? <==> Saved(c, req.customer, product, substitute))
      && (r.1 == ServerError <==> !Saved(c, req.customer, product, substitute)
                                  && (product !in ProductIds(c) || substitute !in ProductIds(c)))
      && (r.1 == RedirectFavorites ==>
            && Saved(r.0, req.customer, product, substitute)
            && |r.0.favorites| == |c.favorites| + 1 && r.0.favorites[..|c.favorites|] == c.favorites
            && IsTriple(r.0.favorites[|c.favorites|], req.customer, product, substitute))
      && (Valid(c) && r.1 != ServerError ==> CountTriple(r.0.favorites, req.customer, product, substitute) == 1)
    ensures r.1 != RedirectFavorites ==> r.0 == c
    ensures r.1.RedirectTo? ==> r.1.url == req.next
    ensures r.0.categories == c.categories && r.0.products == c.products && r.0.links == c.links
    ensures Valid(c) ==> Valid(r.0)
  {
    if !Requested(req) then (c, RedirectFavorites)
    else match Ids(req)
      case None => (c, ServerError)
      case Some((product, substitute)) =>
        match GetOrCreateFavorite(c, req.customer, product, substitute)
        case None => (c, ServerError)
        case Some((c', created)) =>
          if created then
            assert c'.favorites == c.favorites + [c'.favorites[|c.favorites|]];
            (c', RedirectFavorites)
          else (c, RedirectTo(req.next))
  }

  /** A request that saves a new triple stores it exactly once and goes to
      the favourites; sending the same request again changes nothing and
      goes back to `next`. */
  lemma SaveTwice(c: Catalog, req: SaveRequest)
    requires Valid(c) && Requested(req) && Ids(req).Some?
    requires !Saved(c, req.customer, Ids(req).value.0, Ids(req).value.1)
    requires Ids(req).value.0 in ProductIds(c) && Ids(req).value.1 in ProductIds(c)
    ensures var (d, first) := Save(c, req);
      && first == RedirectFavorites
      && CountTriple(d.favorites, req.customer, Ids(req).value.0, Ids(req).value.1) == 1
      && Save(d, req) == (d, RedirectTo(req.next))
  {
    var (product, substitute) := Ids(req).value;
    var (d, first) := Save(c, req);
    assert first == RedirectFavorites;
    assert Saved(d, req.customer, product, substitute);
    var (e, second) := Save(d, req);
    assert second.RedirectTo? && second.url == req.next;
    assert e == d;
  }

  /** `save_view`. */
  method SaveView(db: Database, req: SaveRequest) returns (response: Response)
    modifies db
    ensures (db.Snapshot(), response) == Save(old(db.Snapshot()), req)
  {
    if !Requested(req) {
      return RedirectFavorites;
    }
    var ids := Ids(req);
    if ids.None? {
      return ServerError;
    }
    var outcome := db.GetOrCreateFavorite(req.customer, ids.value.0, ids.value.1);
    match outcome
    case None => response := ServerError;
    case Some(created) => response := if created then RedirectFavorites else RedirectTo(req.next);
  }

  // ---------------------------------------------------------------------------
  // Saved substitutes

  /** The ordering `order_by("product")`: by the id of the replaced product. */
  predicate ProductIdLe(f: Favorite, g: Favorite) {
    f.product <= g.product
  }

  /** `FavoritesView.get_queryset`: the rows of the customer, ordered by
      product. An anonymous visitor reaches the view too (the login mixin is
      listed after `ListView`), and filtering on its missing id finds nothing. */
  function Favorites(c: Catalog, customer: Option<UserId>): (r: seq<Favorite>)
    ensures customer.None? ==> r == []
    ensures customer.Some? ==>
      forall f :: multiset(r)[f] == (if f.customer == customer.value then multiset(c.favorites)[f] else 0)
    ensures SortedBy(r, ProductIdLe)
  {
    if customer.None? then []
    else
      var mine := Filter(c.favorites, (f: Favorite) => f.customer == customer.value);
      SortSorted(mine, ProductIdLe);
      Sort(mine, ProductIdLe)
  }

  /** After a save that created a row, the customer's list has exactly one
      row more: the new triple. */
  lemma FavoritesGrowByOne(c: Catalog, req: SaveRequest)
    requires Save(c, req).0 != c
    ensures var d := Save(c, req).0;
      && |d.favorites| == |c.favorites| + 1
      && d.favorites[|c.favorites|].customer == req.customer
      && multiset(Favorites(d, Some(req.customer)))
         == multiset(Favorites(c, Some(req.customer))) + multiset{d.favorites[|c.favorites|]}
      && |Favorites(d, Some(req.customer))| == |Favorites(c, Some(req.customer))| + 1
  {
    var d := Save(c, req).0;
    var f := d.favorites[|c.favorites|];
    assert d.favorites == c.favorites[..] + [f];
    FavoritesAppend(c, d, req.customer, f);
  }

  lemma FavoritesAppend(c: Catalog, d: Catalog, customer: UserId, f: Favorite)
    requires d.favorites == c.favorites + [f] && f.customer == customer
    ensures multiset(Favorites(d, Some(customer))) == multiset(Favorites(c, Some(customer))) + multiset{f}
    ensures |Favorites(d, Some(customer))| == |Favorites(c, Some(customer))| + 1
  {
    var before, after := Favorites(c, Some(customer)), Favorites(d, Some(customer));
    assert multiset(d.favorites) == multiset(c.favorites) + multiset{f};
    CountsGrow(multiset(before), multiset(after), multiset(c.favorites), multiset(d.favorites), customer, f);
    assert |multiset(after)| == |multiset(before)| + 1;
  }

  /** Counts taken pointwise from `xs` and `ys = xs + {f}` differ by `f`. */
  lemma CountsGrow(a: multiset<Favorite>, b: multiset<Favorite>, xs: multiset<Favorite>, ys: multiset<Favorite>,
                   customer: UserId, f: Favorite)
    requires ys == xs + multiset{f} && f.customer == customer
    requires forall g :: a[g] == (if g.customer == customer then xs[g] else 0)
    requires forall g :: b[g] == (if g.customer == customer then ys[g] else 0)
    ensures b == a + multiset{f}
  {
    forall g ensures b[g] == (a + multiset{f})[g] {
    }
  }
}
