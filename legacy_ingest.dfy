/**
 * The first version of the `import_off` command: it empties the product
 * and category tables, saves the categories with at least 5000 products,
 * then attempts a create for every record of every listing, without
 * validation and without linking products to categories.
 */
module LegacyIngest {
  import opened Wrappers
  import opened Models
  import opened Store
  import opened Ingest

  /** The popularity threshold of this version of the command. */
  const LEGACY_THRESHOLD := 5000

  /** The listing {5002, 4999} keeps only the 5002 entry. */
  lemma LegacySelectionSample()
    ensures SelectCategories([Tag("pate-a-tartiner", 5002), Tag("Fruits", 4999)], LEGACY_THRESHOLD)
         == [Tag("pate-a-tartiner", 5002)]
  {
    SelectionOrder([Tag("pate-a-tartiner", 5002)], [Tag("Fruits", 4999)], Tag("pate-a-tartiner", 5002), LEGACY_THRESHOLD);
    SelectionOrder([], [], Tag("Fruits", 4999), LEGACY_THRESHOLD);
    assert [Tag("pate-a-tartiner", 5002), Tag("Fruits", 4999)] == [Tag("pate-a-tartiner", 5002)] + [Tag("Fruits", 4999)];
  }

  /** One turn of the inner loop: every failure of the create is swallowed. */
  function LegacyCreateOne(c: Catalog, r: Record): (d: Catalog)
    ensures BuildProduct(r).None? || !Admissible(c, BuildProduct(r).value) ==> d == c
    ensures BuildProduct(r).Some? && Admissible(c, BuildProduct(r).value) ==>
      d.products == c.products + [Stored(BuildProduct(r).value).value.(id := c.nextProductId)]
    ensures d.categories == c.categories && d.links == c.links && d.favorites == c.favorites
    ensures Valid(c) ==> Valid(d)
  {
    match BuildProduct(r)
    case None => c
    case Some(p) => CreateProduct(c, p).0
  }

  /** The names of the rows the records can build. */
  function BuiltNames(rs: seq<Record>): set<string> {
    set r | r in rs && BuildProduct(r).Some? :: BuildProduct(r).value.name
  }

  /** The records of the listings, in order. */
  function LegacyCreateAll(c: Catalog, rs: seq<Record>): (d: Catalog)
    ensures c.products <= d.products
    ensures ProductNames(d) <= ProductNames(c) + BuiltNames(rs)
    ensures d.categories == c.categories && d.links == c.links && d.favorites == c.favorites
    ensures Valid(c) ==> Valid(d)
    decreases |rs|
  {
    if rs == [] then c
    else
      var init := rs[..|rs| - 1];
      var last := rs[|rs| - 1];
      var prev := LegacyCreateAll(c, init);
      assert BuiltNames(init) <= BuiltNames(rs) by {
        assert forall r :: r in init ==> r in rs;
      }
      assert last in rs;
      LegacyCreateOne(prev, last)
  }

  /** Every record whose row fits its columns ends up stored, or was refused
      because its name or url was already stored. */
  lemma {:induction false} EveryRecordTaken(c: Catalog, rs: seq<Record>)
    ensures forall r :: r in rs && BuildProduct(r).Some? && Stored(BuildProduct(r).value).Some? ==>
      Taken(LegacyCreateAll(c, rs), Stored(BuildProduct(r).value).value)
    decreases |rs|
  {
    if rs != [] {
      var init := rs[..|rs| - 1];
      var last := rs[|rs| - 1];
      var prev := LegacyCreateAll(c, init);
      var d := LegacyCreateAll(c, rs);
      assert d == LegacyCreateOne(prev, last);
      EveryRecordTaken(c, init);
      forall r | r in rs && BuildProduct(r).Some? && Stored(BuildProduct(r).value).Some?
        ensures Taken(d, Stored(BuildProduct(r).value).value)
      {
        var row := Stored(BuildProduct(r).value).value;
        if r == last {
          if Admissible(prev, BuildProduct(r).value) {
            assert d.products[|d.products| - 1] in d.products;
          } else {
            TakenGrows(prev, d, row);
          }
        } else {
          assert r in init by {
            var i :| 0 <= i < |rs| && rs[i] == r;
            assert i < |rs| - 1;
            assert init[i] == r;
          }
          TakenGrows(prev, d, row);
        }
      }
    }
  }

  /** The first record to create a name fixes the stored row: later records
      with the same name or url are refused and never replace it. */
  lemma LegacyFirstOccurrenceWins(c: Catalog, rs: seq<Record>, i: int)
    requires 0 <= i < |rs|
    requires BuildProduct(rs[i]).Some?
    requires Admissible(LegacyCreateAll(c, rs[..i]), BuildProduct(rs[i]).value)
    ensures Stored(BuildProduct(rs[i]).value).value.(id := LegacyCreateAll(c, rs[..i]).nextProductId)
            in LegacyCreateAll(c, rs).products
  {
    var before := LegacyCreateAll(c, rs[..i]);
    var row := Stored(BuildProduct(rs[i]).value).value.(id := before.nextProductId);
    var after := LegacyCreateOne(before, rs[i]);
    var k := LegacyInsertedRow(before, rs[i]);
    LegacyCreateAllStep(c, rs, i);
    LegacyCreateAllSplit(c, rs, i + 1);
    LegacyRowKept(after, rs[i + 1..], k);
  }

  lemma LegacyCreateAllSplit(c: Catalog, rs: seq<Record>, i: int)
    requires 0 <= i <= |rs|
    ensures LegacyCreateAll(c, rs) == LegacyCreateAll(LegacyCreateAll(c, rs[..i]), rs[i..])
  {
    var xs, ys := rs[..i], rs[i..];
    assert xs + ys == rs;
    LegacyCreateAllAppend(c, xs, ys);
  }

  /** A stored row keeps its place whatever the later records are. */
  lemma LegacyRowKept(c: Catalog, rs: seq<Record>, k: nat)
    requires k < |c.products|
    ensures k < |LegacyCreateAll(c, rs).products| && LegacyCreateAll(c, rs).products[k] == c.products[k]
  {
  }

  /** The turn of an admissible record stores its row last, under the next id. */
  lemma LegacyInsertedRow(c: Catalog, r: Record) returns (k: nat)
    requires BuildProduct(r).Some? && Admissible(c, BuildProduct(r).value)
    ensures k < |LegacyCreateOne(c, r).products|
    ensures LegacyCreateOne(c, r).products[k] == Stored(BuildProduct(r).value).value.(id := c.nextProductId)
  {
    k := |c.products|;
  }

  lemma LegacyCreateAllLast(c: Catalog, rs: seq<Record>)
    requires rs != []
    ensures LegacyCreateAll(c, rs) == LegacyCreateOne(LegacyCreateAll(c, rs[..|rs| - 1]), rs[|rs| - 1])
  {
  }

  lemma LegacyCreateAllStep(c: Catalog, rs: seq<Record>, j: int)
    requires 0 <= j < |rs|
    ensures LegacyCreateAll(c, rs[..j + 1]) == LegacyCreateOne(LegacyCreateAll(c, rs[..j]), rs[j])
  {
    assert rs[..j + 1][..j] == rs[..j];
    LegacyCreateAllLast(c, rs[..j + 1]);
  }

  /** Running on `xs + ys` is running on `xs`, then on `ys`. */
  lemma {:induction false} LegacyCreateAllAppend(c: Catalog, xs: seq<Record>, ys: seq<Record>)
    ensures LegacyCreateAll(c, xs + ys) == LegacyCreateAll(LegacyCreateAll(c, xs), ys)
    decreases |ys|
  {
    if ys == [] {
      assert xs + ys == xs;
    } else {
      var init, last := ys[..|ys| - 1], ys[|ys| - 1];
      var zs := xs + ys;
      assert zs[..|zs| - 1] == xs + init && zs[|zs| - 1] == last;
      calc {
        LegacyCreateAll(c, zs);
        { LegacyCreateAllLast(c, zs); }
        LegacyCreateOne(LegacyCreateAll(c, xs + init), last);
        { LegacyCreateAllAppend(c, xs, init); }
        LegacyCreateOne(LegacyCreateAll(LegacyCreateAll(c, xs), init), last);
        { LegacyCreateAllLast(LegacyCreateAll(c, xs), ys); }
        LegacyCreateAll(LegacyCreateAll(c, xs), ys);
      }
    }
  }

  /** The `try` block of the inner loop. */
  method TryCreate(db: Database, record: Record)
    modifies db
    ensures db.Snapshot() == LegacyCreateOne(old(db.Snapshot()), record)
  {
    var built := BuildProduct(record);
    if built.Some? {
      var _ := db.CreateProduct(built.value);
    }
  }

  /** `handle`: empty both tables, save the selected categories, then create
      the products of each listing. */
  function LegacyImport(c: Catalog, tags: seq<Tag>, fetch: string -> seq<Record>): (d: Catalog)
    ensures d.links == [] && d.favorites == []
    ensures Valid(c) ==> Valid(d)
  {
    var cleared := DeleteAllCategories(DeleteAllProducts(c));
    var selected := SelectCategories(tags, LEGACY_THRESHOLD);
    LegacyCreateAll(Populate(cleared, TagNames(selected)), Listings(selected, fetch))
  }

  /** After the import the categories are exactly the selected names; no
      product is linked to a category, no substitute is saved; every product
      comes from a record of the listings, and every record whose row fits
      was stored or lost to an earlier one with its name or url. */
  lemma LegacyImportResult(c: Catalog, tags: seq<Tag>, fetch: string -> seq<Record>)
    ensures var d := LegacyImport(c, tags, fetch);
      var listings := Listings(SelectCategories(tags, LEGACY_THRESHOLD), fetch);
      && CategoryNames(d) == (set t | t in tags && t.products >= LEGACY_THRESHOLD :: t.name)
      && d.links == [] && d.favorites == []
      && ProductNames(d) <= BuiltNames(listings)
      && (forall r :: r in listings && BuildProduct(r).Some? && Stored(BuildProduct(r).value).Some? ==>
            Taken(d, Stored(BuildProduct(r).value).value))
      && (Valid(c) ==> Valid(d))
  {
    var selected := SelectCategories(tags, LEGACY_THRESHOLD);
    var cleared := DeleteAllCategories(DeleteAllProducts(c));
    var populated := Populate(cleared, TagNames(selected));
    SelectedNames(tags, LEGACY_THRESHOLD);
    EveryRecordTaken(populated, Listings(selected, fetch));
  }

  method LegacyHandle(db: Database, tags: seq<Tag>, fetch: string -> seq<Record>)
    modifies db
    ensures db.Snapshot() == LegacyImport(old(db.Snapshot()), tags, fetch)
  {
    db.DeleteAllProducts();
    db.DeleteAllCategories();
    var selected := PopulateCategories(db, tags, LEGACY_THRESHOLD);
    CreateListings(db, selected, fetch);
  }

  /** The loop of `handle` over the selected categories and their records. */
  method CreateListings(db: Database, selected: seq<Tag>, fetch: string -> seq<Record>)
    modifies db
    ensures db.Snapshot() == LegacyCreateAll(old(db.Snapshot()), Listings(selected, fetch))
  {
    ghost var start := db.Snapshot();
    var i := 0;
    while i < |selected|
      invariant 0 <= i <= |selected|
      invariant db.Snapshot() == LegacyCreateAll(start, Listings(selected[..i], fetch))
    {
      var records := fetch(selected[i].name);
      CreateListing(db, records);
      LegacyCreateAllAppend(start, Listings(selected[..i], fetch), records);
      ListingsStep(selected, i, fetch);
      i := i + 1;
    }
    assert selected[..i] == selected;
  }

  /** The inner loop of `handle`, over the records of one listing. */
  method CreateListing(db: Database, records: seq<Record>)
    modifies db
    ensures db.Snapshot() == LegacyCreateAll(old(db.Snapshot()), records)
  {
    ghost var start := db.Snapshot();
    var j := 0;
    while j < |records|
      invariant 0 <= j <= |records|
      invariant db.Snapshot() == LegacyCreateAll(start, records[..j])
    {
      LegacyCreateAllStep(start, records, j);
      TryCreate(db, records[j]);
      j := j + 1;
    }
    assert records[..j] == records;
  }
}
