/**
 * The live database that the import commands and the views write to: the
 * four tables as fields, each write a method whose new state is the
 * corresponding operation of `Models` applied to the old state.
 */
module Store {
  import opened Wrappers
  import opened Models

  class Database {
    var categories: seq<Category>
    var products: seq<Product>
    var links: seq<Link>
    var favorites: seq<Favorite>
    var nextCategoryId: nat
    var nextProductId: nat
    var nextFavoriteId: nat

    /** The tables as a value. */
    function Snapshot(): Catalog
      reads this
    {
      Catalog(categories, products, links, favorites, nextCategoryId, nextProductId, nextFavoriteId)
    }

    constructor ()
      ensures Snapshot() == Empty
    {
      categories, products, links, favorites := [], [], [], [];
      nextCategoryId, nextProductId, nextFavoriteId := 1, 1, 1;
    }

    method SaveCategory(name: string) returns (saved: bool)
      modifies this
      ensures (Snapshot(), saved) == Models.SaveCategory(old(Snapshot()), name)
    {
      saved := FindCategory(categories, name).None?;
      if saved {
        categories := categories + [Category(nextCategoryId, name)];
        nextCategoryId := nextCategoryId + 1;
      }
    }

    method GetOrCreateCategory(name: string) returns (id: CategoryId)
      modifies this
      ensures (Snapshot(), id) == Models.GetOrCreateCategory(old(Snapshot()), name)
    {
      var found := FindCategory(categories, name);
      if found.Some? {
        id := found.value.id;
      } else {
        id := nextCategoryId;
        var _ := SaveCategory(name);
      }
    }

    method AddLink(product: ProductId, category: CategoryId)
      modifies this
      ensures Snapshot() == Models.AddLink(old(Snapshot()), product, category)
    {
      if Link(product, category) !in links {
        links := links + [Link(product, category)];
      }
    }

    method CreateProduct(p: Product) returns (id: Option<ProductId>)
      modifies this
      ensures (Snapshot(), id) == Models.CreateProduct(old(Snapshot()), p)
    {
      var row := Stored(p);
      if row.None? || Taken(Snapshot(), row.value) {
        id := None;
      } else {
        id := Some(nextProductId);
        products := products + [row.value.(id := nextProductId)];
        nextProductId := nextProductId + 1;
      }
    }

    method DeleteAllProducts()
      modifies this
      ensures Snapshot() == Models.DeleteAllProducts(old(Snapshot()))
    {
      products, links, favorites := [], [], [];
    }

    method DeleteAllCategories()
      modifies this
      ensures Snapshot() == Models.DeleteAllCategories(old(Snapshot()))
    {
      categories, links := [], [];
    }

    /** `Some(created)`, or `None` when the foreign key refuses the new row. */
    method GetOrCreateFavorite(customer: UserId, product: int, substitute: int) returns (created: Option<bool>)
      modifies this
      ensures var r := Models.GetOrCreateFavorite(old(Snapshot()), customer, product, substitute);
        if r.Some? then Snapshot() == r.value.0 && created == Some(r.value.1)
        else Snapshot() == old(Snapshot()) && created == None
    {
      if Saved(Snapshot(), customer, product, substitute) {
        created := Some(false);
      } else if product in ProductIds(Snapshot()) && substitute in ProductIds(Snapshot()) {
        favorites := favorites + [Favorite(nextFavoriteId, customer, product, substitute)];
        nextFavoriteId := nextFavoriteId + 1;
        created := Some(true);
      } else {
        created := None;
      }
    }
  }
}
