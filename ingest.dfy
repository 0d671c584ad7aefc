/**
 * The `import_off` management command: category selection by popularity,
 * record validation, and the loop that creates products and links them to
 * their categories. The feed is given as inputs: the categories listing as
 * a sequence of tags and the product search as a function from a category
 * name to its records.
 */
module Ingest {
  import opened Wrappers
  import opened Text
  import opened Json
  import opened Sequences
  import opened Models
  import opened Store

  /** An entry of the categories listing: `{"name": ..., "products": ...}`. */
  datatype Tag = Tag(name: string, products: int)

  /** The popularity threshold of this version of the command. */
  const THRESHOLD := 3000

  /** The list comprehension of `get_populate_categories`. */
  function SelectCategories(tags: seq<Tag>, threshold: int): (r: seq<Tag>)
    ensures forall t :: t in r <==> t in tags && t.products >= threshold
    ensures |r| <= |tags|
  {
    Filter(tags, (t: Tag) => t.products >= threshold)
  }

  /** Selection keeps the input order: it distributes over concatenation, and
      a single tag is kept exactly when it reaches the threshold. */
  lemma SelectionOrder(a: seq<Tag>, b: seq<Tag>, t: Tag, threshold: int)
    ensures SelectCategories(a + b, threshold) == SelectCategories(a, threshold) + SelectCategories(b, threshold)
    ensures SelectCategories([t], threshold) == if t.products >= threshold then [t] else []
  {
    FilterAppend(a, b, (t: Tag) => t.products >= threshold);
    assert [t][1..] == [];
  }

  /** The listing {2000, 40000} keeps only the 40000 entry. */
  lemma SelectionSample()
    ensures SelectCategories([Tag("pate-a-tartiner", 2000), Tag("Fruits", 40000)], THRESHOLD)
         == [Tag("Fruits", 40000)]
  {
    SelectionOrder([Tag("pate-a-tartiner", 2000)], [Tag("Fruits", 40000)], Tag("pate-a-tartiner", 2000), THRESHOLD);
    SelectionOrder([], [], Tag("Fruits", 40000), THRESHOLD);
    assert [Tag("pate-a-tartiner", 2000), Tag("Fruits", 40000)] == [Tag("pate-a-tartiner", 2000)] + [Tag("Fruits", 40000)];
  }

  function TagNames(tags: seq<Tag>): (r: seq<string>)
    ensures |r| == |tags| && forall i :: 0 <= i < |tags| ==> r[i] == tags[i].name
  {
    seq(|tags|, i requires 0 <= i < |tags| => tags[i].name)
  }

  /** The set of names a listing holds. */
  function Names(names: seq<string>): set<string> {
    set n | n in names
  }

  /** One `Category(name=...).save()` per name, a refused duplicate leaving
      everything as it was. */
  function Populate(c: Catalog, names: seq<string>): (r: Catalog)
    ensures CategoryNames(r) == CategoryNames(c) + Names(names)
    ensures c.categories <= r.categories
    ensures r.products == c.products && r.links == c.links && r.favorites == c.favorites
    ensures r.nextProductId == c.nextProductId && r.nextFavoriteId == c.nextFavoriteId
    ensures Valid(c) ==> Valid(r)
    decreases |names|
  {
    if names == [] then c
    else
      var init := names[..|names| - 1];
      assert names == init + [names[|names| - 1]];
      SaveCategory(Populate(c, init), names[|names| - 1]).0
  }

  /** When every name is already a category, saving them changes nothing. */
  lemma {:induction false} PopulateExisting(c: Catalog, names: seq<string>)
    requires forall n :: n in names ==> n in CategoryNames(c)
    ensures Populate(c, names) == c
    decreases |names|
  {
    if names != [] {
      var init := names[..|names| - 1];
      assert forall n :: n in init ==> n in names;
      PopulateExisting(c, init);
      assert names[|names| - 1] in names;
    }
  }

  /** `get_populate_categories`: the selected tags, each saved as a Category. */
  method PopulateCategories(db: Database, tags: seq<Tag>, threshold: int) returns (selected: seq<Tag>)
    modifies db
    ensures selected == SelectCategories(tags, threshold)
    ensures db.Snapshot() == Populate(old(db.Snapshot()), TagNames(selected))
  {
    selected := SelectCategories(tags, threshold);
    var names := TagNames(selected);
    ghost var start := db.Snapshot();
    var i := 0;
    while i < |names|
      invariant 0 <= i <= |names|
      invariant db.Snapshot() == Populate(start, names[..i])
    {
      PopulateStep(start, names, i);
      var _ := db.SaveCategory(names[i]);
      i := i + 1;
    }
    assert names[..i] == names;
  }

  lemma PopulateStep(c: Catalog, names: seq<string>, i: int)
    requires 0 <= i < |names|
    ensures Populate(c, names[..i + 1]) == SaveCategory(Populate(c, names[..i]), names[i]).0
  {
    assert names[..i + 1][..i] == names[..i];
  }

  // ---------------------------------------------------------------------------
  // Records

  /** A product of the search results: its top-level scalar fields and the
      `nutriments` object (`None` when it is absent or not an object). */
  datatype Record = Record(fields: map<string, Value>, nutriments: Option<map<string, Value>>)

  /** `validate_product_dict`: true, false, or raising out of the loop. */
  datatype Check = Accept | Reject | Raise

  /** `product_dict.get("nutrition_grade_fr", "")`. */
  function GradeValue(r: Record): Value {
    if "nutrition_grade_fr" in r.fields then r.fields["nutrition_grade_fr"] else Str("")
  }

  /** `nutriments.get("fiber_100g", 0)`. */
  function FiberValue(n: map<string, Value>): Value {
    if "fiber_100g" in n then n["fiber_100g"] else Number(0.0)
  }

  /** A record is accepted exactly when its grade is text that is not
      whitespace-only, it has nutriments, and its fibre is truthy. It raises
      when the grade is present but not text (`.strip()` fails on it), or
      when the grade passes and the nutriments are missing; a blank grade is
      rejected before the nutriments are looked at. */
  function Validate(r: Record): (v: Check)
    ensures v == Accept <==>
      GradeValue(r).Str? && !Blank(GradeValue(r).s) && r.nutriments.Some? && Truthy(FiberValue(r.nutriments.value))
    ensures v == Raise <==>
      !GradeValue(r).Str? || (!Blank(GradeValue(r).s) && r.nutriments.None?)
  {
    var grade := GradeValue(r);
    if !grade.Str? then Raise
    else
      StripEmptyIffBlank(grade.s);
      if Strip(grade.s) == [] then Reject
      else if r.nutriments.None? then Raise
      else if !Truthy(FiberValue(r.nutriments.value)) then Reject
      else Accept
  }

  /** The `Product(...)` that `Product.objects.create` is called with, or
      `None` when building it raises: the nutriments are missing, or a
      column that is NOT NULL gets no value it can hold. Its id is the
      placeholder 0 until the row is inserted. */
  function BuildProduct(r: Record): (p: Option<Product>)
    ensures p.Some? ==> r.nutriments.Some?
    ensures p.Some? ==> Some(p.value.name) == AsText(Get(r.fields, "product_name"))
    ensures p.Some? ==> Some(p.value.grade) == AsText(Get(r.fields, "nutrition_grade_fr"))
    ensures p.Some? ==> Some(p.value.energy) == AsInteger(Get(r.nutriments.value, "energy_value"))
    ensures p.Some? ==> p.value.nutrients.fiber == Get(r.nutriments.value, "fiber_100g")
    ensures p.Some? ==> (p.value.url.None? <==> Get(r.fields, "url").Null?)
    ensures p.Some? <==>
      && r.nutriments.Some?
      && AsText(Get(r.fields, "product_name")).Some?
      && AsText(Get(r.fields, "nutrition_grade_fr")).Some?
      && AsInteger(Get(r.nutriments.value, "energy_value")).Some?
      && AsText(Get(r.nutriments.value, "energy_unit")).Some?
      && AsText(Get(r.fields, "image_front_url")).Some?
      && (Get(r.fields, "url").Null? || Get(r.fields, "url").Str?)
      && !HasNull(Amounts(r.nutriments.value))
    ensures p.Some? ==> p.value.id == 0
    ensures p.Some? ==> Some(p.value.energyUnit) == AsText(Get(r.nutriments.value, "energy_unit"))
    ensures p.Some? ==> Some(p.value.imageUrl) == AsText(Get(r.fields, "image_front_url"))
    ensures p.Some? && p.value.url.Some? ==> Get(r.fields, "url") == Str(p.value.url.value)
    ensures p.Some? ==> p.value.nutrients == Amounts(r.nutriments.value)
  {
    if r.nutriments.None? then None
    else
      var n := r.nutriments.value;
      var name := AsText(Get(r.fields, "product_name"));
      var grade := AsText(Get(r.fields, "nutrition_grade_fr"));
      var energy := AsInteger(Get(n, "energy_value"));
      var unit := AsText(Get(n, "energy_unit"));
      var image := AsText(Get(r.fields, "image_front_url"));
      var url := Get(r.fields, "url");
      var amounts := Amounts(n);
      if name.None? || grade.None? || energy.None? || unit.None? || image.None?
         || !(url.Null? || url.Str?) || HasNull(amounts)
      then None
      else Some(Product(0, name.value, grade.value, energy.value, unit.value, amounts,
                        if url.Str? then Some(url.s) else None, image.value))
  }

  /** The eight `*_100g` values of the nutriments, `Null` where a key is absent. */
  function Amounts(n: map<string, Value>): Nutrients {
    Nutrients(
      Get(n, "carbohydrates_100g"), Get(n, "sugars_100g"), Get(n, "fat_100g"),
      Get(n, "saturated-fat_100g"), Get(n, "salt_100g"), Get(n, "sodium_100g"),
      Get(n, "fiber_100g"), Get(n, "proteins_100g"))
  }

  predicate HasNull(a: Nutrients) {
    a.carbohydrates.Null? || a.sugars.Null? || a.fat.Null? || a.saturatedFat.Null?
    || a.salt.Null? || a.sodium.Null? || a.fiber.Null? || a.proteins.Null?
  }

  /** `product_dict.get("categories")` when it is text; `.split` raises otherwise. */
  function CategoryText(r: Record): Option<string> {
    AsText(Get(r.fields, "categories"))
  }

  // ---------------------------------------------------------------------------
  // Linking a product to its categories

  /** The names of the categories product `id` is linked to. */
  function LinkedNames(c: Catalog, id: ProductId): set<string> {
    set x | x in c.categories && Link(id, x.id) in c.links :: x.name
  }

  /** For each name: `Category.objects.get_or_create(name=...)`, then
      `product.categories.add(...)`. */
  function LinkAll(c: Catalog, product: ProductId, names: seq<string>): (r: Catalog)
    ensures CategoryNames(r) == CategoryNames(c) + Names(names)
    ensures Names(names) <= LinkedNames(r, product)
    ensures c.categories <= r.categories && c.links <= r.links
    ensures forall l :: l in r.links ==> l in c.links || l.product == product
    ensures r.products == c.products && r.favorites == c.favorites
    ensures r.nextProductId == c.nextProductId && r.nextFavoriteId == c.nextFavoriteId
    ensures Valid(c) && product in ProductIds(c) ==> Valid(r)
    decreases |names|
  {
    if names == [] then c
    else
      var init := names[..|names| - 1];
      var name := names[|names| - 1];
      assert names == init + [name];
      var prev := LinkAll(c, product, init);
      LinkStep(prev, product, name);
      LinkOne(prev, product, name)
  }

  /** One turn of the inner loop: get or create the category, then link it. */
  function LinkOne(c: Catalog, product: ProductId, name: string): Catalog {
    var (c2, id) := GetOrCreateCategory(c, name);
    AddLink(c2, product, id)
  }

  lemma LinkStep(c: Catalog, product: ProductId, name: string)
    ensures var r := LinkOne(c, product, name);
      && CategoryNames(r) == CategoryNames(c) + {name}
      && name in LinkedNames(r, product)
      && LinkedNames(c, product) <= LinkedNames(r, product)
      && c.categories <= r.categories && c.links <= r.links
      && (forall l :: l in r.links ==> l in c.links || l.product == product)
      && r.products == c.products && r.favorites == c.favorites
      && r.nextProductId == c.nextProductId && r.nextFavoriteId == c.nextFavoriteId
      && (Valid(c) && product in ProductIds(c) ==> Valid(r))
  {
    var (c2, id) := GetOrCreateCategory(c, name);
    var r := AddLink(c2, product, id);
    assert Category(id, name) in r.categories;
    forall n | n in LinkedNames(c, product) ensures n in LinkedNames(r, product) {
      var x :| x in c.categories && Link(product, x.id) in c.links && x.name == n;
      assert x in r.categories;
    }
    assert Valid(c) && product in ProductIds(c) ==> Valid(r) by {
      if Valid(c) && product in ProductIds(c) {
        assert id in CategoryIds(c2);
      }
    }
  }

  /** In a valid catalog the product ends up linked to exactly its old
      categories and the named ones: no other link is added. */
  lemma {:induction false} LinkAllExact(c: Catalog, product: ProductId, names: seq<string>)
    requires Valid(c) && product in ProductIds(c)
    ensures LinkedNames(LinkAll(c, product, names), product) == LinkedNames(c, product) + Names(names)
    decreases |names|
  {
    if names != [] {
      var init := names[..|names| - 1];
      var name := names[|names| - 1];
      var prev := LinkAll(c, product, init);
      LinkAllLast(c, product, names);
      LinkExactValid(prev, product, name);
      LinkAllExact(c, product, init);
      NamesOfLast(init, name, names);
      UnionShift(LinkedNames(LinkAll(c, product, names), product), LinkedNames(prev, product),
                 LinkedNames(c, product), Names(init), Names(names), name);
    }
  }

  lemma LinkAllLast(c: Catalog, product: ProductId, names: seq<string>)
    requires names != []
    ensures LinkAll(c, product, names)
         == LinkOne(LinkAll(c, product, names[..|names| - 1]), product, names[|names| - 1])
    ensures Valid(c) && product in ProductIds(c) ==> Valid(LinkAll(c, product, names[..|names| - 1]))
  {
  }

  lemma NamesOfLast(init: seq<string>, name: string, names: seq<string>)
    requires names != [] && init == names[..|names| - 1] && name == names[|names| - 1]
    ensures Names(names) == Names(init) + {name}
  {
    assert names == init + [name];
  }

  lemma UnionShift(last: set<string>, prev: set<string>, first: set<string>,
                   init: set<string>, all: set<string>, name: string)
    requires last == prev + {name} && prev == first + init && all == init + {name}
    ensures last == first + all
  {
  }

  /** In a valid catalog one turn links exactly one more name. */
  lemma LinkExactValid(c: Catalog, product: ProductId, name: string)
    requires Valid(c)
    ensures LinkedNames(LinkOne(c, product, name), product) == LinkedNames(c, product) + {name}
  {
    LinkAdds(c, product, name);
    LinkAddsOnly(c, product, name);
  }

  /** One turn links the name and keeps every old link. */
  lemma LinkAdds(c: Catalog, product: ProductId, name: string)
    ensures LinkedNames(c, product) + {name} <= LinkedNames(LinkOne(c, product, name), product)
  {
    LinkStep(c, product, name);
  }

  /** In a valid catalog one turn links no name besides the given one. */
  lemma LinkAddsOnly(c: Catalog, product: ProductId, name: string)
    requires Valid(c)
    ensures LinkedNames(LinkOne(c, product, name), product) <= LinkedNames(c, product) + {name}
  {
    var (c2, id) := GetOrCreateCategory(c, name);
    var r := AddLink(c2, product, id);
    forall x | x in r.categories && Link(product, x.id) in r.links && x.name != name
      ensures x.name in LinkedNames(c, product)
    {
      LinkedBefore(c, c2, product, id, name, x);
    }
  }

  /** A category other than the named one that the product is linked to
      after the turn was already there and already linked. */
  lemma LinkedBefore(c: Catalog, c2: Catalog, product: ProductId, id: CategoryId, name: string, x: Category)
    requires CategoriesValid(c2) && Category(id, name) in c2.categories
    requires c2.categories == c.categories || c2.categories == c.categories + [Category(id, name)]
    requires x in c2.categories && x.name != name
    requires Link(product, x.id) in c.links || x.id == id
    ensures x in c.categories && Link(product, x.id) in c.links
  {
    if x.id == id {
      SameCategoryId(c2, x, Category(id, name));
    }
  }

  /** `LinkAll` as the inner loop of `create_products`. */
  method LinkCategories(db: Database, product: ProductId, names: seq<string>)
    modifies db
    ensures db.Snapshot() == LinkAll(old(db.Snapshot()), product, names)
  {
    ghost var start := db.Snapshot();
    var j := 0;
    assert LinkAll(start, product, names[..0]) == start;
    while j < |names|
      invariant 0 <= j <= |names|
      invariant db.Snapshot() == LinkAll(start, product, names[..j])
    {
      LinkAllStep(start, product, names, j);
      LinkCategory(db, product, names[j]);
      assert db.Snapshot() == LinkAll(start, product, names[..j + 1]);
      j := j + 1;
    }
    assert names[..j] == names;
  }

  /** One turn of the inner loop: `get_or_create` the category, then link it. */
  method LinkCategory(db: Database, product: ProductId, name: string)
    modifies db
    ensures db.Snapshot() == LinkOne(old(db.Snapshot()), product, name)
  {
    var id := db.GetOrCreateCategory(name);
    db.AddLink(product, id);
  }

  lemma LinkAllStep(c: Catalog, product: ProductId, names: seq<string>, j: int)
    requires 0 <= j < |names|
    ensures LinkAll(c, product, names[..j + 1]) == LinkOne(LinkAll(c, product, names[..j]), product, names[j])
  {
    assert names[..j + 1][..j] == names[..j];
  }

  // ---------------------------------------------------------------------------
  // create_products

  /** The catalog after some records, and whether the loop was left by an exception. */
  datatype Run = Run(catalog: Catalog, raised: bool)

  /** One turn of the loop of `create_products`. A record that fails
      validation is skipped; a failing create is swallowed; the product is
      created before its category text is split, so a record whose
      `categories` is not text keeps its product, with no links. */
  function CreateOne(c: Catalog, r: Record): (run: Run)
    ensures run.raised <==> Validate(r) == Raise
    ensures Validate(r) != Accept ==> run.catalog == c
    ensures c.products <= run.catalog.products && c.categories <= run.catalog.categories
    ensures run.catalog.favorites == c.favorites
    ensures Valid(c) ==> Valid(run.catalog)
  {
    match Validate(r)
    case Raise => Run(c, true)
    case Reject => Run(c, false)
    case Accept =>
      match BuildProduct(r)
      case None => Run(c, false)
      case Some(p) => Run(Insert(c, p, CategoryText(r)), false)
  }

  /** The body of the `try`: create the row, then link it to each name of
      the category text when there is one. */
  function Insert(c: Catalog, p: Product, text: Option<string>): (r: Catalog)
    ensures !Admissible(c, p) ==> r == c
    ensures Admissible(c, p) ==> Stored(p).value.(id := c.nextProductId) in r.products
    ensures Admissible(c, p) ==>
      && r.products == c.products + [Stored(p).value.(id := c.nextProductId)]
      && r.nextProductId == c.nextProductId + 1
    ensures forall l :: l in r.links ==> l in c.links || l.product == c.nextProductId
    ensures c.links <= r.links
    ensures r.favorites == c.favorites && r.nextFavoriteId == c.nextFavoriteId
    ensures Admissible(c, p) && text.Some? ==>
      && Names(Split(text.value, ',')) <= LinkedNames(r, c.nextProductId)
      && CategoryNames(r) == CategoryNames(c) + Names(Split(text.value, ','))
    ensures Admissible(c, p) && text.None? ==> r.links == c.links && r.categories == c.categories
    ensures c.products <= r.products && c.categories <= r.categories
    ensures Valid(c) ==> Valid(r)
  {
    var (c1, id) := CreateProduct(c, p);
    if id.None? then c
    else
      assert c1.products[|c1.products| - 1] in c1.products;
      assert id.value in ProductIds(c1);
      match text
      case None => c1
      case Some(s) => LinkAll(c1, id.value, Split(s, ','))
  }

  /** In a valid catalog the new product is linked to exactly the names in
      its category text, and to nothing when the text is missing. */
  lemma InsertLinksExact(c: Catalog, p: Product, text: Option<string>)
    requires Valid(c) && Admissible(c, p)
    ensures LinkedNames(Insert(c, p, text), c.nextProductId)
         == if text.Some? then Names(Split(text.value, ',')) else {}
  {
    CreatedUnlinked(c, p);
    match text
    case None =>
      assert Insert(c, p, text) == CreateProduct(c, p).0;
    case Some(s) =>
      InsertSomeLinks(c, p, s);
  }

  lemma InsertSomeLinks(c: Catalog, p: Product, s: string)
    requires Valid(c) && Admissible(c, p)
    ensures LinkedNames(Insert(c, p, Some(s)), c.nextProductId) == Names(Split(s, ','))
  {
    var c1 := CreateProduct(c, p).0;
    var linked := LinkAll(c1, c.nextProductId, Split(s, ','));
    CreatedUnlinked(c, p);
    LinkAllExact(c1, c.nextProductId, Split(s, ','));
    NothingBefore(LinkedNames(linked, c.nextProductId), LinkedNames(c1, c.nextProductId), Names(Split(s, ',')));
    InsertUnfolds(c, p, s);
  }

  lemma NothingBefore(after: set<string>, before: set<string>, added: set<string>)
    requires after == before + added && before == {}
    ensures after == added
  {
  }

  lemma InsertUnfolds(c: Catalog, p: Product, s: string)
    requires Admissible(c, p)
    ensures Insert(c, p, Some(s)) == LinkAll(CreateProduct(c, p).0, c.nextProductId, Split(s, ','))
  {
  }

  /** The row just created is valid to link to and has no links yet. */
  lemma CreatedUnlinked(c: Catalog, p: Product)
    requires Valid(c) && Admissible(c, p)
    ensures var c1 := CreateProduct(c, p).0;
      && Valid(c1) && c.nextProductId in ProductIds(c1)
      && LinkedNames(c1, c.nextProductId) == {}
  {
    var c1 := CreateProduct(c, p).0;
    assert c1.products[|c1.products| - 1] in c1.products;
    NoNamesLinkedToNext(c);
    assert c1.categories == c.categories && c1.links == c.links;
  }

  /** `create_products(records)`: the loop stops at the first record whose
      validation raises. */
  function CreateAll(c: Catalog, rs: seq<Record>): (run: Run)
    ensures c.products <= run.catalog.products && c.categories <= run.catalog.categories
    ensures run.catalog.favorites == c.favorites
    ensures Valid(c) ==> Valid(run.catalog)
    decreases |rs|
  {
    if rs == [] then Run(c, false)
    else
      var prev := CreateAll(c, rs[..|rs| - 1]);
      if prev.raised then prev else CreateOne(prev.catalog, rs[|rs| - 1])
  }

  /** Going on with `ys` after `first`, unless `first` raised. */
  function Then(first: Run, ys: seq<Record>): Run {
    if first.raised then first else CreateAll(first.catalog, ys)
  }

  /** Running on `xs + ys` is running on `xs`, then on `ys` unless `xs` raised. */
  lemma {:induction false} CreateAllAppend(c: Catalog, xs: seq<Record>, ys: seq<Record>)
    ensures CreateAll(c, xs + ys) == Then(CreateAll(c, xs), ys)
    decreases |ys|
  {
    if ys == [] {
      assert xs + ys == xs;
    } else {
      var init := ys[..|ys| - 1];
      CreateAllAppend(c, xs, init);
      assert (xs + ys)[..|xs + ys| - 1] == xs + init;
      assert (xs + ys)[|xs + ys| - 1] == ys[|ys| - 1];
      CreateAllLast(c, xs + ys);
      var first := CreateAll(c, xs);
      if !first.raised {
        CreateAllLast(first.catalog, ys);
      }
    }
  }

  lemma CreateAllLast(c: Catalog, rs: seq<Record>)
    requires rs != []
    ensures CreateAll(c, rs)
         == (var prev := CreateAll(c, rs[..|rs| - 1]);
             if prev.raised then prev else CreateOne(prev.catalog, rs[|rs| - 1]))
  {
  }

  /** The create for `r` cannot change catalog `c`: the record is not
      accepted, cannot be built, or its row is refused. */
  predicate Blocked(c: Catalog, r: Record) {
    Validate(r) != Accept || BuildProduct(r).None? || !Admissible(c, BuildProduct(r).value)
  }

  lemma BlockedIsInert(c: Catalog, r: Record)
    requires Blocked(c, r)
    ensures CreateOne(c, r) == Run(c, Validate(r) == Raise)
  {
  }

  /** A name or url that is taken stays taken in a catalog with more products. */
  lemma TakenGrows(c: Catalog, d: Catalog, p: Product)
    requires Taken(c, p) && c.products <= d.products
    ensures Taken(d, p)
  {
    assert forall q :: q in c.products ==> q in d.products;
    assert ProductNames(c) <= ProductNames(d);
    assert ProductUrls(c) <= ProductUrls(d);
  }

  /** A refused row stays refused in a catalog with more products. */
  lemma BlockedGrows(c: Catalog, d: Catalog, r: Record)
    requires Blocked(c, r) && c.products <= d.products
    ensures Blocked(d, r)
  {
    if Validate(r) == Accept && BuildProduct(r).Some? && Stored(BuildProduct(r).value).Some? {
      TakenGrows(c, d, Stored(BuildProduct(r).value).value);
    }
  }

  /** After its own turn a record is blocked: its name is now taken. */
  lemma BlockedAfter(c: Catalog, r: Record)
    ensures Blocked(CreateOne(c, r).catalog, r)
  {
    var d := CreateOne(c, r).catalog;
    if Validate(r) == Accept && BuildProduct(r).Some? {
      var p := BuildProduct(r).value;
      if Admissible(c, p) {
        assert d == Insert(c, p, CategoryText(r));
        var row := Stored(p).value.(id := c.nextProductId);
        assert row in d.products;
        assert Stored(p).value.name in ProductNames(d);
      } else {
        BlockedGrows(c, d, r);
      }
    }
  }

  /** Re-running the same records on a catalog that already holds every
      product of the first run changes nothing and raises at the same record. */
  lemma {:induction false} Rerun(c: Catalog, rs: seq<Record>, d: Catalog)
    requires CreateAll(c, rs).catalog.products <= d.products
    ensures CreateAll(d, rs) == Run(d, CreateAll(c, rs).raised)
    decreases |rs|
  {
    if rs != [] {
      var init := rs[..|rs| - 1];
      var last := rs[|rs| - 1];
      var prev := CreateAll(c, init);
      if !prev.raised {
        PrefixTransitive(prev.catalog.products, CreateAll(c, rs).catalog.products, d.products);
      }
      Rerun(c, init, d);
      if !prev.raised {
        RerunStep(prev.catalog, last, d);
      }
    }
  }

  /** A record run again, on a catalog that holds every product of its own
      turn, changes nothing and raises as it did. */
  lemma RerunStep(c: Catalog, r: Record, d: Catalog)
    requires CreateOne(c, r).catalog.products <= d.products
    ensures CreateOne(d, r) == Run(d, CreateOne(c, r).raised)
  {
    BlockedAfter(c, r);
    BlockedGrows(CreateOne(c, r).catalog, d, r);
    BlockedIsInert(d, r);
  }

  /** Running `create_products` twice on the same list: the second run changes nothing. */
  lemma CreateAllIdempotent(c: Catalog, rs: seq<Record>)
    ensures CreateAll(CreateAll(c, rs).catalog, rs) == CreateAll(c, rs)
  {
    Rerun(c, rs, CreateAll(c, rs).catalog);
  }

  /** A record lacking `nutriments` (with a grade that passes) raises out of
      `create_products`: the records after it are never processed. */
  lemma MissingNutrimentsAborts(c: Catalog, xs: seq<Record>, r: Record, ys: seq<Record>)
    requires !CreateAll(c, xs).raised
    requires GradeValue(r).Str? && !Blank(GradeValue(r).s) && r.nutriments.None?
    ensures CreateAll(c, xs + [r] + ys) == Run(CreateAll(c, xs).catalog, true)
  {
    CreateAllAppend(c, xs + [r], ys);
    CreateAllAppend(c, xs, [r]);
    assert [r][..0] == [];
  }

  /** A valid record whose row is admissible yields that row, under the next
      id, linked to a category for every comma-separated name; missing
      categories are created and the others reused. */
  lemma CreatesAndLinks(c: Catalog, r: Record)
    requires Validate(r) == Accept && BuildProduct(r).Some?
    requires Admissible(c, BuildProduct(r).value) && CategoryText(r).Some?
    ensures var d := CreateOne(c, r).catalog;
      && Stored(BuildProduct(r).value).value.(id := c.nextProductId) in d.products
      && Names(Split(CategoryText(r).value, ',')) <= LinkedNames(d, c.nextProductId)
      && (Valid(c) ==> LinkedNames(d, c.nextProductId) == Names(Split(CategoryText(r).value, ',')))
      && CategoryNames(d) == CategoryNames(c) + Names(Split(CategoryText(r).value, ','))
  {
    assert CreateOne(c, r).catalog == Insert(c, BuildProduct(r).value, CategoryText(r));
    if Valid(c) {
      InsertLinksExact(c, BuildProduct(r).value, CategoryText(r));
    }
  }

  /** A valid record without a `categories` text keeps its product, with no category. */
  lemma CreatesWithoutCategories(c: Catalog, r: Record)
    requires Valid(c)
    requires Validate(r) == Accept && BuildProduct(r).Some?
    requires Admissible(c, BuildProduct(r).value) && CategoryText(r).None?
    ensures var d := CreateOne(c, r).catalog;
      && Stored(BuildProduct(r).value).value.(id := c.nextProductId) in d.products
      && CategoriesOf(d, c.nextProductId) == {}
  {
    var d := Insert(c, BuildProduct(r).value, CategoryText(r));
    assert CreateOne(c, r).catalog == d;
    NothingLinkedToNext(c);
    assert CategoriesOf(d, c.nextProductId) == CategoriesOf(c, c.nextProductId);
  }

  /** In a valid catalog no category is linked to the id the next product will get. */
  lemma NoNamesLinkedToNext(c: Catalog)
    requires Valid(c)
    ensures LinkedNames(c, c.nextProductId) == {}
  {
    forall l | l in c.links ensures l.product != c.nextProductId {
      var p :| p in c.products && p.id == l.product;
      var i :| 0 <= i < |c.products| && c.products[i] == p;
    }
  }

  /** No association row points at the id the next product will get. */
  lemma NothingLinkedToNext(c: Catalog)
    requires Valid(c)
    ensures CategoriesOf(c, c.nextProductId) == {}
  {
    forall l | l in c.links ensures l.product != c.nextProductId {
      var p :| p in c.products && p.id == l.product;
      var i :| 0 <= i < |c.products| && c.products[i] == p;
    }
  }

  /** A record whose name or url is already stored leaves the catalog as it
      was; the loop goes on with the next record. */
  lemma DuplicateSkipped(c: Catalog, r: Record)
    requires Validate(r) == Accept && BuildProduct(r).Some?
    requires Stored(BuildProduct(r).value).Some? && Taken(c, Stored(BuildProduct(r).value).value)
    ensures CreateOne(c, r) == Run(c, false)
  {
    BlockedIsInert(c, r);
  }

  /** The first record to create a name fixes the stored row: later records
      with the same name or url never replace it. */
  lemma FirstOccurrenceWins(c: Catalog, rs: seq<Record>, i: int)
    requires 0 <= i < |rs|
    requires !CreateAll(c, rs[..i]).raised
    requires Validate(rs[i]) == Accept && BuildProduct(rs[i]).Some?
    requires Admissible(CreateAll(c, rs[..i]).catalog, BuildProduct(rs[i]).value)
    ensures Stored(BuildProduct(rs[i]).value).value.(id := CreateAll(c, rs[..i]).catalog.nextProductId)
            in CreateAll(c, rs).catalog.products
  {
    var before := CreateAll(c, rs[..i]).catalog;
    var after := CreateOne(before, rs[i]);
    InsertedRow(before, rs[i]);
    CreateAllStep(c, rs, i);
    CreateAllSplit(c, rs, i + 1);
    assert CreateAll(c, rs) == CreateAll(after.catalog, rs[i + 1..]);
  }

  /** The turn of an admissible record stores its row under the next id. */
  lemma InsertedRow(c: Catalog, r: Record)
    requires Validate(r) == Accept && BuildProduct(r).Some?
    requires Admissible(c, BuildProduct(r).value)
    ensures !CreateOne(c, r).raised
    ensures Stored(BuildProduct(r).value).value.(id := c.nextProductId) in CreateOne(c, r).catalog.products
  {
    assert CreateOne(c, r).catalog == Insert(c, BuildProduct(r).value, CategoryText(r));
  }

  lemma CreateAllStep(c: Catalog, rs: seq<Record>, i: int)
    requires 0 <= i < |rs|
    ensures CreateAll(c, rs[..i + 1])
         == (var prev := CreateAll(c, rs[..i]); if prev.raised then prev else CreateOne(prev.catalog, rs[i]))
  {
    assert rs[..i + 1][..i] == rs[..i];
  }

  lemma CreateAllSplit(c: Catalog, rs: seq<Record>, i: int)
    requires 0 <= i <= |rs|
    ensures CreateAll(c, rs) == Then(CreateAll(c, rs[..i]), rs[i..])
  {
    var xs, ys := rs[..i], rs[i..];
    assert xs + ys == rs;
    CreateAllAppend(c, xs, ys);
  }

  /** The `try` block of `create_products`. */
  method TryInsert(db: Database, p: Product, text: Option<string>)
    modifies db
    ensures db.Snapshot() == Insert(old(db.Snapshot()), p, text)
  {
    var id := db.CreateProduct(p);
    if id.Some? && text.Some? {
      LinkCategories(db, id.value, Split(text.value, ','));
    }
  }

  /** One turn of the loop of `create_products`. */
  method CreateRecord(db: Database, record: Record) returns (raised: bool)
    modifies db
    ensures Run(db.Snapshot(), raised) == CreateOne(old(db.Snapshot()), record)
  {
    raised := false;
    var check := Validate(record);
    if check == Raise {
      raised := true;
    } else if check == Accept {
      var built := BuildProduct(record);
      if built.Some? {
        TryInsert(db, built.value, CategoryText(record));
      }
    }
  }

  /** `create_products` as the loop of the command. */
  method CreateProducts(db: Database, records: seq<Record>) returns (raised: bool)
    modifies db
    ensures Run(db.Snapshot(), raised) == CreateAll(old(db.Snapshot()), records)
  {
    ghost var start := db.Snapshot();
    raised := false;
    var i := 0;
    while i < |records| && !raised
      invariant 0 <= i <= |records|
      invariant Run(db.Snapshot(), raised) == CreateAll(start, records[..i])
    {
      CreateAllStep(start, records, i);
      raised := CreateRecord(db, records[i]);
      i := i + 1;
    }
    CreateAllSplit(start, records, i);
    if !raised {
      assert records[..i] == records;
    }
  }

  // ---------------------------------------------------------------------------
  // handle

  /** The search results of the selected categories, one listing after the other. */
  function Listings(tags: seq<Tag>, fetch: string -> seq<Record>): seq<Record>
    decreases |tags|
  {
    if tags == [] then [] else Listings(tags[..|tags| - 1], fetch) + fetch(tags[|tags| - 1].name)
  }

  lemma {:induction false} ListingsAppend(a: seq<Tag>, b: seq<Tag>, fetch: string -> seq<Record>)
    ensures Listings(a + b, fetch) == Listings(a, fetch) + Listings(b, fetch)
    decreases |b|
  {
    if b == [] {
      assert a + b == a;
    } else {
      var init, last := b[..|b| - 1], b[|b| - 1];
      var ab := a + b;
      assert ab[..|ab| - 1] == a + init && ab[|ab| - 1] == last;
      calc {
        Listings(ab, fetch);
        Listings(a + init, fetch) + fetch(last.name);
        { ListingsAppend(a, init, fetch); }
        (Listings(a, fetch) + Listings(init, fetch)) + fetch(last.name);
        { AppendAssociative(Listings(a, fetch), Listings(init, fetch), fetch(last.name)); }
        Listings(a, fetch) + (Listings(init, fetch) + fetch(last.name));
      }
    }
  }

  /** `handle`: save the selected categories, then create the products of
      each one's listing, stopping if a record raises. */
  function Import(c: Catalog, tags: seq<Tag>, fetch: string -> seq<Record>): (r: Run)
    ensures c.products <= r.catalog.products && c.categories <= r.catalog.categories
    ensures r.catalog.favorites == c.favorites
    ensures Valid(c) ==> Valid(r.catalog)
  {
    var selected := SelectCategories(tags, THRESHOLD);
    CreateAll(Populate(c, TagNames(selected)), Listings(selected, fetch))
  }

  /** A catalog whose category rows extend another's has all of its names. */
  lemma CategoryNamesGrow(a: Catalog, b: Catalog)
    requires a.categories <= b.categories
    ensures CategoryNames(a) <= CategoryNames(b)
  {
    forall n | n in CategoryNames(a) ensures n in CategoryNames(b) {
      var x :| x in a.categories && x.name == n;
      assert x in b.categories;
    }
  }

  /** The names of the selected tags are exactly the names of the tags that
      reach the threshold. */
  lemma SelectedNames(tags: seq<Tag>, threshold: int)
    ensures Names(TagNames(SelectCategories(tags, threshold)))
         == set t | t in tags && t.products >= threshold :: t.name
  {
    var selected := SelectCategories(tags, threshold);
    var names := TagNames(selected);
    forall n | n in names ensures exists t :: t in tags && t.products >= threshold && t.name == n {
      var i :| 0 <= i < |names| && names[i] == n;
      assert selected[i] in selected;
    }
    forall t | t in tags && t.products >= threshold ensures t.name in names {
      var i :| 0 <= i < |selected| && selected[i] == t;
      assert names[i] == t.name;
    }
  }

  /** Every tag that reaches the threshold is a category after the import. */
  lemma ImportHasSelected(c: Catalog, tags: seq<Tag>, fetch: string -> seq<Record>)
    ensures (set t | t in tags && t.products >= THRESHOLD :: t.name) <= CategoryNames(Import(c, tags, fetch).catalog)
  {
    var selected := SelectCategories(tags, THRESHOLD);
    var populated := Populate(c, TagNames(selected));
    var run := CreateAll(populated, Listings(selected, fetch));
    SelectedNames(tags, THRESHOLD);
    CategoryNamesGrow(populated, run.catalog);
  }

  /** Importing the same feed a second time changes nothing. */
  lemma ImportIdempotent(c: Catalog, tags: seq<Tag>, fetch: string -> seq<Record>)
    ensures Import(Import(c, tags, fetch).catalog, tags, fetch) == Import(c, tags, fetch)
  {
    var selected := SelectCategories(tags, THRESHOLD);
    var names := TagNames(selected);
    var listings := Listings(selected, fetch);
    var populated := Populate(c, names);
    var first := CreateAll(populated, listings);
    assert first == Import(c, tags, fetch);
    CategoryNamesGrow(populated, first.catalog);
    PopulateExisting(first.catalog, names);
    Rerun(populated, listings, first.catalog);
  }

  lemma ListingsStep(tags: seq<Tag>, i: int, fetch: string -> seq<Record>)
    requires 0 <= i < |tags|
    ensures Listings(tags[..i + 1], fetch) == Listings(tags[..i], fetch) + fetch(tags[i].name)
  {
    assert tags[..i + 1][..i] == tags[..i];
  }

  lemma ListingsSplit(tags: seq<Tag>, i: int, fetch: string -> seq<Record>)
    requires 0 <= i <= |tags|
    ensures Listings(tags, fetch) == Listings(tags[..i], fetch) + Listings(tags[i..], fetch)
  {
    assert tags[..i] + tags[i..] == tags;
    ListingsAppend(tags[..i], tags[i..], fetch);
  }

  /** Once a record raised, the records after it are never processed. */
  lemma StopsAfterRaise(c: Catalog, xs: seq<Record>, ys: seq<Record>)
    requires CreateAll(c, xs).raised
    ensures CreateAll(c, xs + ys) == CreateAll(c, xs)
  {
    CreateAllAppend(c, xs, ys);
  }

  /** `handle`. */
  method Handle(db: Database, tags: seq<Tag>, fetch: string -> seq<Record>) returns (raised: bool)
    modifies db
    ensures Run(db.Snapshot(), raised) == Import(old(db.Snapshot()), tags, fetch)
  {
    var selected := PopulateCategories(db, tags, THRESHOLD);
    ghost var populated := db.Snapshot();
    raised := false;
    var i := 0;
    while i < |selected| && !raised
      invariant 0 <= i <= |selected|
      invariant Run(db.Snapshot(), raised) == CreateAll(populated, Listings(selected[..i], fetch))
    {
      ghost var before := Listings(selected[..i], fetch);
      var records := fetch(selected[i].name);
      ListingsStep(selected, i, fetch);
      CreateAllAppend(populated, before, records);
      raised := CreateProducts(db, records);
      i := i + 1;
    }
    ListingsDone(populated, selected, i, fetch);
  }

  /** The outer loop may stop early: once a listing raised, the rest of the
      listings change nothing. */
  lemma ListingsDone(c: Catalog, tags: seq<Tag>, i: int, fetch: string -> seq<Record>)
    requires 0 <= i <= |tags|
    requires i == |tags| || CreateAll(c, Listings(tags[..i], fetch)).raised
    ensures CreateAll(c, Listings(tags[..i], fetch)) == CreateAll(c, Listings(tags, fetch))
  {
    if i == |tags| {
      assert tags[..i] == tags;
    } else {
      ListingsSplit(tags, i, fetch);
      StopsAfterRaise(c, Listings(tags[..i], fetch), Listings(tags[i..], fetch));
    }
  }
}
