/**
 * The catalog schema of the product app: categories, products, the
 * product-category association table, and customers' saved substitutes,
 * with the unique constraints the database enforces and the single-row
 * operations the application performs on them.
 */
module Models {
  import opened Wrappers
  import opened Json
  import opened Text
  import opened Sequences

  type CategoryId = nat
  type ProductId = nat
  type UserId = nat

  datatype Category = Category(id: CategoryId, name: string)

  /** The eight float columns, stored as the feed supplied them. */
  datatype Nutrients = Nutrients(
    carbohydrates: Value, sugars: Value, fat: Value, saturatedFat: Value,
    salt: Value, sodium: Value, fiber: Value, proteins: Value)

  datatype Product = Product(
    id: ProductId,
    name: string,
    grade: string,
    energy: int,
    energyUnit: string,
    nutrients: Nutrients,
    url: Option<string>,
    imageUrl: string)

  /** A row of the many-to-many table between products and categories. */
  datatype Link = Link(product: ProductId, category: CategoryId)

  /** A saved substitution: `customer` chose `substitute` in place of `product`. */
  datatype Favorite = Favorite(id: nat, customer: UserId, product: ProductId, substitute: ProductId)

  /** The four tables, in insertion order, and the next value of each id sequence. */
  datatype Catalog = Catalog(
    categories: seq<Category>,
    products: seq<Product>,
    links: seq<Link>,
    favorites: seq<Favorite>,
    nextCategoryId: nat,
    nextProductId: nat,
    nextFavoriteId: nat)

  /** A fresh database: empty tables, every sequence starting at 1. */
  const Empty := Catalog([], [], [], [], 1, 1, 1)

  /** Django's default `max_length` of a `URLField`. */
  const URL_MAX_LENGTH := 200
  /** The range of a PostgreSQL `integer` column. */
  const INT_MIN := -0x8000_0000
  const INT_MAX := 0x7fff_ffff

  function CategoryNames(c: Catalog): set<string> {
    set x | x in c.categories :: x.name
  }

  function CategoryIds(c: Catalog): set<CategoryId> {
    set x | x in c.categories :: x.id
  }

  function ProductNames(c: Catalog): set<string> {
    set p | p in c.products :: p.name
  }

  /** The urls that are not NULL: the unique constraint ignores NULLs. */
  function ProductUrls(c: Catalog): set<string> {
    set p | p in c.products && p.url.Some? :: p.url.value
  }

  function ProductIds(c: Catalog): set<ProductId> {
    set p | p in c.products :: p.id
  }

  /** The categories linked to product `id`. */
  function CategoriesOf(c: Catalog, id: ProductId): set<CategoryId> {
    set l | l in c.links && l.product == id :: l.category
  }

  // ---------------------------------------------------------------------------
  // Constraints

  /** `Category.name` is unique; ids come from an increasing sequence. */
  predicate CategoriesValid(c: Catalog) {
    && (forall i, j :: 0 <= i < j < |c.categories| ==>
          c.categories[i].name != c.categories[j].name && c.categories[i].id < c.categories[j].id)
    && (forall i :: 0 <= i < |c.categories| ==> c.categories[i].id < c.nextCategoryId)
  }

  /** `Product.name` is unique, and so is `Product.url` when it is not NULL. */
  predicate ProductsValid(c: Catalog) {
    && (forall i, j :: 0 <= i < j < |c.products| ==>
          && c.products[i].name != c.products[j].name
          && c.products[i].id < c.products[j].id
          && (c.products[i].url.Some? ==> c.products[i].url != c.products[j].url))
    && (forall i :: 0 <= i < |c.products| ==> c.products[i].id < c.nextProductId)
  }

  /** Association rows point at existing rows and are never repeated. */
  predicate LinksValid(c: Catalog) {
    && (forall l :: l in c.links ==> l.product in ProductIds(c) && l.category in CategoryIds(c))
    && (forall i, j :: 0 <= i < j < |c.links| ==> c.links[i] != c.links[j])
  }

  predicate SameTriple(f: Favorite, g: Favorite) {
    f.customer == g.customer && f.product == g.product && f.substitute == g.substitute
  }

  /** `(customer, product, substitute)` is unique; both products exist. */
  predicate FavoritesValid(c: Catalog) {
    && (forall i, j :: 0 <= i < j < |c.favorites| ==>
          !SameTriple(c.favorites[i], c.favorites[j]) && c.favorites[i].id < c.favorites[j].id)
    && (forall i :: 0 <= i < |c.favorites| ==> c.favorites[i].id < c.nextFavoriteId)
    && (forall f :: f in c.favorites ==> f.product in ProductIds(c) && f.substitute in ProductIds(c))
  }

  /** Every constraint of the schema holds. */
  predicate Valid(c: Catalog) {
    CategoriesValid(c) && ProductsValid(c) && LinksValid(c) && FavoritesValid(c)
  }

  lemma EmptyValid()
    ensures Valid(Empty) && CategoryNames(Empty) == {} && ProductNames(Empty) == {}
  {
  }

  // ---------------------------------------------------------------------------
  // Categories

  /** The category called `name`, if any. */
  function FindCategory(cats: seq<Category>, name: string): (r: Option<Category>)
    ensures r.Some? ==> r.value in cats && r.value.name == name
    ensures r.None? ==> forall x :: x in cats ==> x.name != name
    decreases |cats|
  {
    if cats == [] then None
    else if cats[0].name == name then Some(cats[0])
    else FindCategory(cats[1..], name)
  }

  /** `Category(name=name).save()`: inserted unless the name is taken, in which
      case the unique constraint refuses it and nothing changes. */
  function SaveCategory(c: Catalog, name: string): (r: (Catalog, bool))
    ensures r.1 <==> name !in CategoryNames(c)
    ensures CategoryNames(r.0) == CategoryNames(c) + {name}
    ensures !r.1 ==> r.0 == c
    ensures r.1 ==> r.0.categories == c.categories + [Category(c.nextCategoryId, name)]
    ensures r.0.products == c.products && r.0.links == c.links && r.0.favorites == c.favorites
    ensures r.0.nextProductId == c.nextProductId && r.0.nextFavoriteId == c.nextFavoriteId
    ensures Valid(c) ==> Valid(r.0)
  {
    if FindCategory(c.categories, name).Some? then (c, false)
    else
      var c' := c.(categories := c.categories + [Category(c.nextCategoryId, name)],
                   nextCategoryId := c.nextCategoryId + 1);
      assert CategoryNames(c') == CategoryNames(c) + {name};
      assert Valid(c) ==> Valid(c') by {
        if Valid(c) { AppendCategory(c, name); }
      }
      (c', true)
  }

  /** A category with a new name and the next id keeps the constraints. */
  lemma AppendCategory(c: Catalog, name: string)
    requires Valid(c) && name !in CategoryNames(c)
    ensures Valid(c.(categories := c.categories + [Category(c.nextCategoryId, name)],
                     nextCategoryId := c.nextCategoryId + 1))
  {
    var x := Category(c.nextCategoryId, name);
    var c' := c.(categories := c.categories + [x], nextCategoryId := c.nextCategoryId + 1);
    assert CategoryIds(c') == CategoryIds(c) + {x.id};
    assert ProductIds(c') == ProductIds(c);
    forall i, j | 0 <= i < j < |c'.categories|
      ensures c'.categories[i].name != c'.categories[j].name && c'.categories[i].id < c'.categories[j].id
    {
      if j == |c.categories| {
        assert c.categories[i] in c.categories;
      } else {
        assert c'.categories[i] == c.categories[i] && c'.categories[j] == c.categories[j];
      }
    }
  }

  /** `Category.objects.get_or_create(name=name)`: the id of the category with
      that name, inserting it first when there is none. */
  function GetOrCreateCategory(c: Catalog, name: string): (r: (Catalog, CategoryId))
    ensures Category(r.1, name) in r.0.categories
    ensures CategoryNames(r.0) == CategoryNames(c) + {name}
    ensures name in CategoryNames(c) ==> r.0 == c
    ensures c.categories <= r.0.categories
    ensures r.0.categories == c.categories || r.0.categories == c.categories + [Category(r.1, name)]
    ensures r.0.products == c.products && r.0.links == c.links && r.0.favorites == c.favorites
    ensures r.0.nextProductId == c.nextProductId && r.0.nextFavoriteId == c.nextFavoriteId
    ensures Valid(c) ==> Valid(r.0)
  {
    match FindCategory(c.categories, name)
    case Some(x) => (c, x.id)
    case None => (SaveCategory(c, name).0, c.nextCategoryId)
  }

  /** Category ids are unique: two rows with the same id are the same row. */
  lemma SameCategoryId(c: Catalog, x: Category, y: Category)
    requires CategoriesValid(c) && x in c.categories && y in c.categories && x.id == y.id
    ensures x == y
  {
    var i :| 0 <= i < |c.categories| && c.categories[i] == x;
    var j :| 0 <= j < |c.categories| && c.categories[j] == y;
  }

  /** `product.categories.add(category)`: the association row is inserted
      unless it is already there. */
  function AddLink(c: Catalog, product: ProductId, category: CategoryId): (r: Catalog)
    ensures Link(product, category) in r.links
    ensures forall l :: l in r.links <==> l in c.links || l == Link(product, category)
    ensures c.links <= r.links
    ensures r.categories == c.categories && r.products == c.products && r.favorites == c.favorites
    ensures r.nextCategoryId == c.nextCategoryId && r.nextProductId == c.nextProductId
    ensures r.nextFavoriteId == c.nextFavoriteId
    ensures Valid(c) && product in ProductIds(c) && category in CategoryIds(c) ==> Valid(r)
  {
    if Link(product, category) in c.links then c
    else
      var c' := c.(links := c.links + [Link(product, category)]);
      assert Valid(c) && product in ProductIds(c) && category in CategoryIds(c) ==> Valid(c') by {
        if Valid(c) && product in ProductIds(c) && category in CategoryIds(c) {
          AppendLink(c, Link(product, category));
        }
      }
      c'
  }

  /** A new association row between existing rows keeps the constraints. */
  lemma AppendLink(c: Catalog, l: Link)
    requires Valid(c) && l !in c.links && l.product in ProductIds(c) && l.category in CategoryIds(c)
    ensures Valid(c.(links := c.links + [l]))
  {
    var c' := c.(links := c.links + [l]);
    assert ProductIds(c') == ProductIds(c) && CategoryIds(c') == CategoryIds(c);
    forall i, j | 0 <= i < j < |c'.links| ensures c'.links[i] != c'.links[j] {
      if j == |c.links| {
        assert c.links[i] in c.links;
      } else {
        assert c'.links[i] == c.links[i] && c'.links[j] == c.links[j];
      }
    }
  }

  // ---------------------------------------------------------------------------
  // Products

  /** The columns fit their types: `varchar(1)` grade, `varchar(200)` urls,
      `integer` energy. */
  predicate Fits(p: Product) {
    && |p.grade| <= 1
    && |p.imageUrl| <= URL_MAX_LENGTH
    && (p.url.Some? ==> |p.url.value| <= URL_MAX_LENGTH)
    && INT_MIN <= p.energy <= INT_MAX
  }

  /** The row PostgreSQL stores for `p`, or `None` when a value does not fit its column. */
  function Stored(p: Product): (r: Option<Product>)
    ensures r.Some? ==> Fits(r.value) && r.value.name == p.name && r.value.energy == p.energy
    ensures r.Some? ==> r.value.url.Some? == p.url.Some?
    ensures Fits(p) ==> r == Some(p)
    ensures r.None? <==>
      || Varchar(p.grade, 1).None?
      || Varchar(p.imageUrl, URL_MAX_LENGTH).None?
      || (p.url.Some? && Varchar(p.url.value, URL_MAX_LENGTH).None?)
      || !(INT_MIN <= p.energy <= INT_MAX)
    ensures r.Some? ==>
      && r.value.grade == Varchar(p.grade, 1).value
      && r.value.imageUrl == Varchar(p.imageUrl, URL_MAX_LENGTH).value
      && (p.url.Some? ==> r.value.url.value == Varchar(p.url.value, URL_MAX_LENGTH).value)
    // Only the three varchar columns can be cut; every other column is kept.
    ensures r.Some? ==> r.value.(grade := p.grade, imageUrl := p.imageUrl, url := p.url) == p
  {
    var grade := Varchar(p.grade, 1);
    var image := Varchar(p.imageUrl, URL_MAX_LENGTH);
    var url := if p.url.Some? then Varchar(p.url.value, URL_MAX_LENGTH) else Some("");
    if grade.None? || image.None? || url.None? || !(INT_MIN <= p.energy <= INT_MAX) then None
    else Some(p.(grade := grade.value, imageUrl := image.value,
                 url := if p.url.Some? then Some(url.value) else None))
  }

  /** A row for `p` would break the unique constraint on the name or on the url. */
  predicate Taken(c: Catalog, p: Product) {
    p.name in ProductNames(c) || (p.url.Some? && p.url.value in ProductUrls(c))
  }

  /** `p` can be inserted into `c`. */
  predicate Admissible(c: Catalog, p: Product) {
    Stored(p).Some? && !Taken(c, Stored(p).value)
  }

  /** `Product.objects.create(...)`: the row is inserted with the next id, or
      refused, leaving the catalog as it was. */
  function CreateProduct(c: Catalog, p: Product): (r: (Catalog, Option<ProductId>))
    ensures r.1.Some? <==> Admissible(c, p)
    ensures r.1.None? ==> r.0 == c
    ensures r.1.Some? ==> r.1.value == c.nextProductId
    ensures r.1.Some? ==> r.0.products == c.products + [Stored(p).value.(id := r.1.value)]
    ensures r.1.Some? && Valid(c) ==> r.1.value !in ProductIds(c)
    ensures ProductNames(r.0) == if r.1.Some? then ProductNames(c) + {p.name} else ProductNames(c)
    ensures r.0.categories == c.categories && r.0.links == c.links && r.0.favorites == c.favorites
    ensures r.0.nextCategoryId == c.nextCategoryId && r.0.nextFavoriteId == c.nextFavoriteId
    ensures Valid(c) ==> Valid(r.0)
  {
    if !Admissible(c, p) then (c, None)
    else
      var row := Stored(p).value.(id := c.nextProductId);
      var c' := c.(products := c.products + [row], nextProductId := c.nextProductId + 1);
      assert ProductIds(c') == ProductIds(c) + {row.id};
      assert ProductNames(c') == ProductNames(c) + {row.name};
      assert Valid(c) ==> Valid(c') by {
        if Valid(c) { AppendProduct(c, row); }
      }
      (c', Some(row.id))
  }

  /** A row whose name and url are free, with the next id, keeps the constraints. */
  lemma AppendProduct(c: Catalog, row: Product)
    requires Valid(c) && !Taken(c, row) && row.id == c.nextProductId
    ensures Valid(c.(products := c.products + [row], nextProductId := c.nextProductId + 1))
  {
    var c' := c.(products := c.products + [row], nextProductId := c.nextProductId + 1);
    assert ProductIds(c') == ProductIds(c) + {row.id};
    assert CategoryIds(c') == CategoryIds(c);
    forall i, j | 0 <= i < j < |c'.products|
      ensures && c'.products[i].name != c'.products[j].name
              && c'.products[i].id < c'.products[j].id
              && (c'.products[i].url.Some? ==> c'.products[i].url != c'.products[j].url)
    {
      if j == |c.products| {
        assert c.products[i] in c.products;
      } else {
        assert c'.products[i] == c.products[i] && c'.products[j] == c.products[j];
      }
    }
  }

  /** `Product.objects.all().delete()`: the association rows and the saved
      substitutes that point at products go with them (`on_delete=CASCADE`). */
  function DeleteAllProducts(c: Catalog): (r: Catalog)
    ensures ProductNames(r) == {} && r.links == [] && r.favorites == []
    ensures r.categories == c.categories
    ensures r.nextProductId == c.nextProductId && r.nextCategoryId == c.nextCategoryId
    ensures Valid(c) ==> Valid(r)
  {
    c.(products := [], links := [], favorites := [])
  }

  /** `Category.objects.all().delete()`: the association rows go with them. */
  function DeleteAllCategories(c: Catalog): (r: Catalog)
    ensures CategoryNames(r) == {} && r.links == []
    ensures r.products == c.products && r.favorites == c.favorites
    ensures r.nextProductId == c.nextProductId && r.nextCategoryId == c.nextCategoryId
    ensures Valid(c) ==> Valid(r)
  {
    c.(categories := [], links := [])
  }

  // ---------------------------------------------------------------------------
  // Saved substitutes

  predicate IsTriple(f: Favorite, customer: UserId, product: int, substitute: int) {
    f.customer == customer && f.product == product && f.substitute == substitute
  }

  /** Some saved substitute has the given triple. */
  predicate Saved(c: Catalog, customer: UserId, product: int, substitute: int) {
    exists f :: f in c.favorites && IsTriple(f, customer, product, substitute)
  }

  /** How many rows of `favs` have the given triple. */
  function CountTriple(favs: seq<Favorite>, customer: UserId, product: int, substitute: int): nat
    decreases |favs|
  {
    if favs == [] then 0
    else
      CountTriple(favs[..|favs| - 1], customer, product, substitute)
        + (if IsTriple(favs[|favs| - 1], customer, product, substitute) then 1 else 0)
  }

  lemma {:induction false} CountTripleIff(favs: seq<Favorite>, customer: UserId, product: int, substitute: int)
    ensures CountTriple(favs, customer, product, substitute) > 0
        <==> exists f :: f in favs && IsTriple(f, customer, product, substitute)
    decreases |favs|
  {
    if favs != [] {
      var init := favs[..|favs| - 1];
      CountTripleIff(init, customer, product, substitute);
      assert favs == init + [favs[|favs| - 1]];
    }
  }

  /** Under the unique constraint a triple is saved at most once. */
  lemma {:induction false} TripleAtMostOnce(favs: seq<Favorite>, customer: UserId, product: int, substitute: int)
    requires forall i, j :: 0 <= i < j < |favs| ==> !SameTriple(favs[i], favs[j])
    ensures CountTriple(favs, customer, product, substitute) <= 1
    decreases |favs|
  {
    if favs != [] {
      var n := |favs| - 1;
      var init := favs[..n];
      TripleAtMostOnce(init, customer, product, substitute);
      if IsTriple(favs[n], customer, product, substitute) {
        forall f | f in init ensures !IsTriple(f, customer, product, substitute) {
          var i :| 0 <= i < n && init[i] == f;
          assert !SameTriple(favs[i], favs[n]);
        }
        CountTripleIff(init, customer, product, substitute);
      }
    }
  }

  /** Appending a row whose triple is not yet saved keeps the constraints and
      saves that triple exactly once. */
  lemma AppendFavorite(c: Catalog, f: Favorite)
    requires Valid(c) && !Saved(c, f.customer, f.product, f.substitute)
    requires f.id == c.nextFavoriteId && f.product in ProductIds(c) && f.substitute in ProductIds(c)
    ensures var c' := c.(favorites := c.favorites + [f], nextFavoriteId := c.nextFavoriteId + 1);
      Valid(c') && CountTriple(c'.favorites, f.customer, f.product, f.substitute) == 1
  {
    var c' := c.(favorites := c.favorites + [f], nextFavoriteId := c.nextFavoriteId + 1);
    assert ProductIds(c') == ProductIds(c) && CategoryIds(c') == CategoryIds(c);
    assert CategoriesValid(c') && ProductsValid(c') && LinksValid(c');
    AppendFavoriteKeepsUnique(c, f);
    assert c'.favorites[..|c'.favorites| - 1] == c.favorites;
    CountTripleIff(c.favorites, f.customer, f.product, f.substitute);
  }

  lemma AppendFavoriteKeepsUnique(c: Catalog, f: Favorite)
    requires FavoritesValid(c) && !Saved(c, f.customer, f.product, f.substitute)
    requires f.id == c.nextFavoriteId && f.product in ProductIds(c) && f.substitute in ProductIds(c)
    ensures FavoritesValid(c.(favorites := c.favorites + [f], nextFavoriteId := c.nextFavoriteId + 1))
  {
    var c' := c.(favorites := c.favorites + [f], nextFavoriteId := c.nextFavoriteId + 1);
    var n := |c.favorites|;
    forall i, j | 0 <= i < j < |c'.favorites|
      ensures !SameTriple(c'.favorites[i], c'.favorites[j]) && c'.favorites[i].id < c'.favorites[j].id
    {
      if j == n {
        assert c.favorites[i] in c.favorites;
      } else {
        assert c'.favorites[i] == c.favorites[i] && c'.favorites[j] == c.favorites[j];
      }
    }
    assert ProductIds(c') == ProductIds(c);
  }

  /** A saved triple is saved exactly once. */
  lemma SavedOnce(c: Catalog, customer: UserId, product: int, substitute: int)
    requires Saved(c, customer, product, substitute)
    ensures Valid(c) ==> CountTriple(c.favorites, customer, product, substitute) == 1
  {
    CountTripleIff(c.favorites, customer, product, substitute);
    if Valid(c) {
      TripleAtMostOnce(c.favorites, customer, product, substitute);
    }
  }

  /** `CustomerProduct.objects.get_or_create(customer=..., product_id=...,
      substitute_id=...)`: `Some((c', created))`, or `None` when a new row
      would point at a product that does not exist (the foreign key refuses it). */
  function GetOrCreateFavorite(c: Catalog, customer: UserId, product: int, substitute: int)
    : (r: Option<(Catalog, bool)>)
    ensures (r.Some? && !r.value.1) <==> Saved(c, customer, product, substitute)
    ensures r.None? <==> (!Saved(c, customer, product, substitute)
                          && (product !in ProductIds(c) || substitute !in ProductIds(c)))
    ensures r.Some? && !r.value.1 ==> r.value.0 == c
    ensures r.Some? && r.value.1 ==>
      && r.value.0.favorites == c.favorites + [Favorite(c.nextFavoriteId, customer, product, substitute)]
      && r.value.0.nextFavoriteId == c.nextFavoriteId + 1
      && r.value.0.nextCategoryId == c.nextCategoryId
      && r.value.0.nextProductId == c.nextProductId
    ensures r.Some? ==> Saved(r.value.0, customer, product, substitute)
    ensures r.Some? && Valid(c) ==> CountTriple(r.value.0.favorites, customer, product, substitute) == 1
    ensures r.Some? ==> (r.value.0.categories == c.categories && r.value.0.products == c.products
                         && r.value.0.links == c.links)
    ensures r.Some? && Valid(c) ==> Valid(r.value.0)
  {
    if Saved(c, customer, product, substitute) then
      SavedOnce(c, customer, product, substitute);
      Some((c, false))
    else if product in ProductIds(c) && substitute in ProductIds(c) then
      var f := Favorite(c.nextFavoriteId, customer, product, substitute);
      var c' := c.(favorites := c.favorites + [f], nextFavoriteId := c.nextFavoriteId + 1);
      assert f in c'.favorites;
      assert Valid(c) ==> Valid(c') && CountTriple(c'.favorites, customer, product, substitute) == 1 by {
        if Valid(c) { AppendFavorite(c, f); }
      }
      Some((c', true))
    else None
  }
}
