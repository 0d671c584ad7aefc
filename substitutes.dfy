/**
 * `Product.substitutes(nb_common_categories)`: the products that share at
 * least `k` categories with a reference product and have an equal or better
 * nutrition grade, ordered by (grade, energy) with one product per pair.
 */
module Substitutes {
  import opened Wrappers
  import opened Text
  import opened Sequences
  import opened Json
  import opened Models

  /** The default `nb_common_categories`. */
  const DEFAULT_COMMON_CATEGORIES := 4

  /** How many categories `q` shares with `p`: |C(q) ∩ C(p)|, what counting
      the association rows of `q` whose category is one of `p`'s gives. */
  function Shared(c: Catalog, p: Product, q: Product): nat {
    |CategoriesOf(c, q.id) * CategoriesOf(c, p.id)|
  }

  /** `q` survives the query for reference `p`. A product is grouped only
      through its association rows in `p`'s categories, so it must share at
      least one category whatever `k` is. Grades compare as text, so
      a < b < c < d < e. */
  predicate Qualifies(c: Catalog, p: Product, k: int, q: Product) {
    && q.id != p.id
    && TextLe(q.grade, p.grade)
    && Shared(c, p, q) >= k
    && Shared(c, p, q) > 0
  }

  /** The ordering `order_by("nutrition_grade", "energy_100g")`. */
  predicate KeyLe(a: Product, b: Product) {
    TextLt(a.grade, b.grade) || (a.grade == b.grade && a.energy <= b.energy)
  }

  /** The `(nutrition_grade, energy_100g)` pair of a product. */
  function Pair(x: Product): (string, int) {
    (x.grade, x.energy)
  }

  function Pairs(s: seq<Product>): set<(string, int)> {
    set x | x in s :: Pair(x)
  }

  predicate SameKey(a: Product, b: Product) {
    Pair(a) == Pair(b)
  }

  lemma KeyLeTotalPreorder()
    ensures TotalPreorder(KeyLe)
  {
    forall a: Product, b: Product ensures KeyLe(a, b) || KeyLe(b, a) {
      TextLeTotal(a.grade, b.grade);
    }
    forall a: Product, b: Product, d: Product | KeyLe(a, b) && KeyLe(b, d) ensures KeyLe(a, d) {
      if a.grade != b.grade && b.grade != d.grade {
        TextLeTransitive(a.grade, b.grade, d.grade);
        if a.grade == d.grade {
          TextLeAntisymmetric(a.grade, b.grade);
        }
      }
    }
  }

  /** `KeyLe` both ways means the same pair. */
  lemma KeyLeAntisymmetric(a: Product, b: Product)
    requires KeyLe(a, b) && KeyLe(b, a)
    ensures SameKey(a, b)
  {
    if a.grade != b.grade {
      TextLeAntisymmetric(a.grade, b.grade);
    }
  }

  /** No two elements share a pair. */
  predicate DistinctPairs(s: seq<Product>) {
    forall i, j :: 0 <= i < j < |s| ==> !SameKey(s[i], s[j])
  }

  /** `distinct("nutrition_grade", "energy_100g")` on an ordered sequence:
      the first product of each run with the same pair. */
  function FirstOfEachPair(s: seq<Product>): (r: seq<Product>)
    ensures s != [] ==> r != [] && r[0] == s[0]
    ensures forall x :: x in r ==> x in s
    ensures Pairs(r) == Pairs(s)
    decreases |s|
  {
    if |s| <= 1 then s
    else if SameKey(s[0], s[1]) then
      var t := [s[0]] + s[2..];
      assert s == [s[0], s[1]] + s[2..];
      assert Pairs(t) == Pairs(s);
      FirstOfEachPair(t)
    else
      var rest := FirstOfEachPair(s[1..]);
      assert s == [s[0]] + s[1..];
      assert Pairs(s) == {Pair(s[0])} + Pairs(s[1..]);
      assert Pairs([s[0]] + rest) == {Pair(s[0])} + Pairs(rest);
      [s[0]] + rest
  }

  /** On an ordered sequence, `FirstOfEachPair` stays ordered and keeps one product per pair. */
  lemma {:induction false} FirstOfEachPairOrdered(s: seq<Product>)
    requires SortedBy(s, KeyLe)
    ensures SortedBy(FirstOfEachPair(s), KeyLe) && DistinctPairs(FirstOfEachPair(s))
    decreases |s|
  {
    if |s| > 1 {
      if SameKey(s[0], s[1]) {
        var t := [s[0]] + s[2..];
        assert SortedBy(t, KeyLe) by {
          forall i, j | 0 <= i < j < |t| ensures KeyLe(t[i], t[j]) {
            if i == 0 {
              assert t[j] == s[j + 1];
            } else {
              assert t[i] == s[i + 1] && t[j] == s[j + 1];
            }
          }
        }
        FirstOfEachPairOrdered(t);
      } else {
        var rest := FirstOfEachPair(s[1..]);
        FirstOfEachPairOrdered(s[1..]);
        forall y | y in rest ensures KeyLe(s[0], y) && !SameKey(s[0], y) {
          assert y in s[1..];
          var m :| 1 <= m < |s| && s[m] == y;
          if SameKey(s[0], y) {
            assert KeyLe(s[1], s[m]);
            assert KeyLe(s[1], s[0]);
            KeyLeAntisymmetric(s[0], s[1]);
            assert false;
          }
        }
        var r := [s[0]] + rest;
        forall i, j | 0 <= i < j < |r| ensures KeyLe(r[i], r[j]) && !SameKey(r[i], r[j]) {
          if i == 0 {
            assert r[j] in rest;
          } else {
            assert r[i] == rest[i - 1] && r[j] == rest[j - 1];
          }
        }
      }
    }
  }

  /** `p.substitutes(k)`: every product returned qualifies (so it is never `p`
      itself, its grade is at most `p`'s and it shares at least `k`
      categories with `p`); the result is ordered by (grade, energy) with no
      pair repeated; and every qualifying product is represented by a
      returned product with its pair. Which product stands for a pair is
      left open. */
  function Substitutes(c: Catalog, p: Product, k: int): (r: seq<Product>)
    ensures forall x :: x in r ==> x in c.products && Qualifies(c, p, k, x)
    ensures SortedBy(r, KeyLe) && DistinctPairs(r)
    ensures forall q :: q in c.products && Qualifies(c, p, k, q) ==> Pair(q) in Pairs(r)
  {
    var candidates := Filter(c.products, q => Qualifies(c, p, k, q));
    var ordered := Sort(candidates, KeyLe);
    KeyLeTotalPreorder();
    SortSorted(candidates, KeyLe);
    FirstOfEachPairOrdered(ordered);
    assert forall x :: x in ordered <==> x in candidates by {
      assert forall x :: x in ordered <==> x in multiset(ordered);
    }
    assert Pairs(ordered) == Pairs(candidates);
    FirstOfEachPair(ordered)
  }

  /** The shared count is bounded by the reference's own categories. */
  lemma SharedBound(c: Catalog, p: Product, q: Product)
    ensures Shared(c, p, q) <= |CategoriesOf(c, p.id)|
  {
    var a, b := CategoriesOf(c, q.id), CategoriesOf(c, p.id);
    assert a * b <= b;
    SubsetCard(a * b, b);
  }

  lemma {:induction false} SubsetCard<T>(a: set<T>, b: set<T>)
    requires a <= b
    ensures |a| <= |b|
    decreases |b|
  {
    if a != {} {
      var x :| x in a;
      SubsetCard(a - {x}, b - {x});
    }
  }

  /** A reference with no categories, or with fewer than `k`, has no substitutes. */
  lemma {:induction false} TooFewCategories(c: Catalog, p: Product, k: int)
    requires |CategoriesOf(c, p.id)| < k || CategoriesOf(c, p.id) == {}
    ensures Substitutes(c, p, k) == []
  {
    var r := Substitutes(c, p, k);
    if r != [] {
      var x := r[0];
      assert x in r;
      SharedBound(c, p, x);
    }
  }

  // ---------------------------------------------------------------------------
  // The model test's catalog: categories a and b; a d-grade product in both,
  // an a-grade product in both, an e-grade product in a only.

  /** The three products of the model tests, which differ only in id, name,
      grade and urls. */
  function Sample(id: ProductId, name: string, grade: string, site: string): Product {
    Product(id, name, grade, 2, "gr",
            Nutrients(Number(2.0), Number(2.0), Number(2.0), Number(2.0),
                      Number(0.2), Number(0.2), Number(0.2), Number(0.2)),
            Some(site), site + "/product.jpg")
  }

  const P15 := Sample(15, "Product 15", "d", "http://www.test-product15.fr")
  const P16 := Sample(16, "Product 16", "a", "http://www.test-product16.fr")
  const P17 := Sample(17, "Product 17", "e", "http://www.test-product17.fr")

  /** Products 15 and 16 are in both categories; product 17 only in `last`. */
  function SampleCatalog(last: CategoryId): Catalog {
    Catalog([Category(1, "category_a"), Category(2, "category_b")],
            [P15, P16, P17],
            [Link(15, 1), Link(15, 2), Link(16, 1), Link(16, 2), Link(17, last)],
            [], 3, 18, 1)
  }

  /** Both fixtures satisfy the schema's constraints. */
  lemma SampleCatalogValid(last: CategoryId)
    requires last == 1 || last == 2
    ensures Valid(SampleCatalog(last))
  {
    SampleRowsValid(last);
    SampleLinksValid(last);
  }

  lemma SampleRowsValid(last: CategoryId)
    ensures CategoriesValid(SampleCatalog(last)) && ProductsValid(SampleCatalog(last))
  {
    var c := SampleCatalog(last);
    assert c.categories[0].name[9] != c.categories[1].name[9];
    var n15, n16, n17 := P15.name, P16.name, P17.name;
    assert n15[9] != n16[9] && n15[9] != n17[9] && n16[9] != n17[9];
    var u15, u16, u17 := P15.url.value, P16.url.value, P17.url.value;
    assert u15[24] != u16[24] && u15[24] != u17[24] && u16[24] != u17[24];
  }

  lemma SampleIds(last: CategoryId)
    ensures ProductIds(SampleCatalog(last)) == {15, 16, 17}
    ensures CategoryIds(SampleCatalog(last)) == {1, 2}
  {
    var c := SampleCatalog(last);
    assert c.products[0].id == 15 && c.products[1].id == 16 && c.products[2].id == 17;
    assert c.categories[0].id == 1 && c.categories[1].id == 2;
  }

  lemma SampleLinksValid(last: CategoryId)
    requires last == 1 || last == 2
    ensures LinksValid(SampleCatalog(last))
  {
    var c := SampleCatalog(last);
    SampleIds(last);
    var ls := c.links;
    assert forall l :: l in ls ==> l.product in {15, 16, 17} && l.category in {1, 2};
    forall i, j | 0 <= i < j < |ls| ensures ls[i] != ls[j] {
      assert ls[i].product < ls[j].product || ls[i].category < ls[j].category;
    }
  }

  /** With k = 2 the d-grade product's only substitute is the a-grade one;
      product 17 is in category 1 only. */
  lemma SampleSubstitutes()
    ensures Substitutes(SampleCatalog(1), P15, 2) == [P16]
  {
    var c := SampleCatalog(1);
    SampleCategories(1);
    assert Shared(c, P15, P16) == 2 by {
      assert CategoriesOf(c, 16) * CategoriesOf(c, 15) == {1, 2};
    }
    forall x | x in c.products && Qualifies(c, P15, 2, x) ensures x == P16 {
      assert !TextLe("e", "d");
    }
    OnlyCandidate(c, P15, 2, P16);
  }

  /** With the a-grade product as reference there is nothing at least as good;
      product 17 is in category 2 only. */
  lemma SampleNoSubstitutes()
    ensures Substitutes(SampleCatalog(2), P16, 2) == []
  {
    var c := SampleCatalog(2);
    forall x | x in c.products ensures !Qualifies(c, P16, 2, x) {
      assert !TextLe("d", "a") && !TextLe("e", "a");
    }
    NoCandidate(c, P16, 2);
  }

  lemma SampleCategories(last: CategoryId)
    ensures CategoriesOf(SampleCatalog(last), 15) == {1, 2}
    ensures CategoriesOf(SampleCatalog(last), 16) == {1, 2}
  {
    var c := SampleCatalog(last);
    assert Link(15, 1) in c.links && Link(15, 2) in c.links;
    assert Link(16, 1) in c.links && Link(16, 2) in c.links;
  }

  /** A single qualifying product is the whole answer. */
  lemma OnlyCandidate(c: Catalog, p: Product, k: int, q: Product)
    requires q in c.products && Qualifies(c, p, k, q)
    requires forall x :: x in c.products && Qualifies(c, p, k, x) ==> x == q
    ensures Substitutes(c, p, k) == [q]
  {
    var r := Substitutes(c, p, k);
    assert forall x :: x in r ==> x == q;
    assert Pair(q) in Pairs(r);
    OnlyPair(r, q);
  }

  /** A sequence without a repeated pair, holding `q` and nothing else, is `[q]`. */
  lemma OnlyPair(r: seq<Product>, q: Product)
    requires DistinctPairs(r) && Pair(q) in Pairs(r)
    requires forall x :: x in r ==> x == q
    ensures r == [q]
  {
    assert Pairs(r) == {Pair(q)};
    PairsCount(r);
    assert r[0] in r;
    assert r == [r[0]];
  }

  /** Without a repeated pair there are as many pairs as products. */
  lemma {:induction false} PairsCount(r: seq<Product>)
    requires DistinctPairs(r)
    ensures |Pairs(r)| == |r|
    decreases |r|
  {
    if r != [] {
      DistinctTail(r);
      PairsCount(r[1..]);
      FreshPair(r);
      PairsCons(r);
    }
  }

  lemma DistinctTail(r: seq<Product>)
    requires DistinctPairs(r) && r != []
    ensures DistinctPairs(r[1..])
  {
    var t := r[1..];
    forall i, j | 0 <= i < j < |t| ensures !SameKey(t[i], t[j]) {
      assert t[i] == r[i + 1] && t[j] == r[j + 1];
    }
  }

  lemma FreshPair(r: seq<Product>)
    requires DistinctPairs(r) && r != []
    ensures Pair(r[0]) !in Pairs(r[1..])
  {
    var t := r[1..];
    forall x | x in t ensures Pair(x) != Pair(r[0]) {
      var m :| 0 <= m < |t| && t[m] == x;
      assert r[m + 1] == x;
    }
  }

  lemma PairsCons(r: seq<Product>)
    requires r != []
    ensures Pairs(r) == {Pair(r[0])} + Pairs(r[1..])
  {
    assert r == [r[0]] + r[1..];
  }

  /** No qualifying product, no substitutes. */
  lemma NoCandidate(c: Catalog, p: Product, k: int)
    requires forall x :: x in c.products ==> !Qualifies(c, p, k, x)
    ensures Substitutes(c, p, k) == []
  {
  }
}
