# Pur Beurre catalog, modelled in Dafny

Pur Beurre is a Django site that lets a customer look up a food product, find
healthier products in the same categories, and save a product as a substitute
for another one. Its data comes from the Open Food Facts feed through an
`import_off` management command.

This project models four parts of it:

- **The schema** (`models.dfy`). Categories, products, the product–category
  association table and the saved substitutes (`CustomerProduct`) are held as
  tables of a `Catalog` value, with the unique constraints the database
  enforces. It also holds the single-row writes the application performs:
  `save`, `create`, `get_or_create`, `categories.add`, and the cascading
  `delete`.
- **The live database** (`store.dfy`). A `Database` class holds the same
  tables as fields. Each of its methods is proved to leave the state that the
  corresponding `Models` function computes.
- **Substitutes** (`substitutes.dfy`). This is `Product.substitutes`: the
  products that share at least `k` categories with the reference product and
  have the same or a better grade, ordered by (grade, energy), with one
  product per (grade, energy) pair.
- **The two import commands**:
  - `ingest.dfy` covers the current command under `apps/`. It selects the
    categories with at least 3000 products and validates each record. It
    creates each product and links the product to the categories named in
    its comma-separated category text. The loop stops when validation raises.
  - `legacy_ingest.dfy` covers the first version of the command. It empties
    both tables and selects the categories with at least 5000 products. It
    then tries to create every record, without validation and without
    category links.

  Both loops are module-level methods that take the `Database` they write
  to. Each is proved against a fold function over the records. The lemmas
  about those folds say:
  - what a run leaves in the catalog;
  - that, in both commands, the row stored by the first record to use a
    name stays in the final catalog;
  - that a second run of the current command changes nothing.
- **The views** (`views.dfy`): the case-insensitive name search, pages of six,
  the substitute listing of a product, `save_view`, and the list of saved
  substitutes.

Supporting modules:
- `text.dfy`: `strip`, `split`, lower-casing, substring search, code-point
  ordering, `int()` on text, and the `varchar(n)` rule.
- `sequences.dfy`: filtering and stable sorting.
- `json.dfy`: the feed's scalar values with Python truthiness and `int()`.
- `wrappers.dfy`: `Option`.

The feed requests become inputs. The category listing is a sequence of `Tag`
values. The product search is a function from a category name to its
records.

The import has no update path: a record whose name or url is already stored
is refused by the unique constraint, and the loop moves on.

## Model

| member | source | states |
|---|---|---|
| Text.TrimLeft | purbeurre_project/apps/product/management/commands/import_off.py:96 | the result is a suffix of the input; it is empty or starts with a non-space; everything cut off is whitespace |
| Text.TrimRight | purbeurre_project/apps/product/management/commands/import_off.py:96 | the result is a prefix of the input; it is empty or ends with a non-space; everything cut off is whitespace |
| Text.Strip | purbeurre_project/apps/product/management/commands/import_off.py:96 | the result is the input with a whitespace-only head and a whitespace-only tail cut off; it is empty or starts and ends with a non-space |
| Text.StripEmptyIffBlank | purbeurre_project/apps/product/management/commands/import_off.py:96 | `not grade.strip()` holds exactly when the grade is whitespace only |
| Text.Lower | purbeurre_project/product/views.py:34 | case folding keeps the length; no upper-case letter remains; each upper-case letter becomes the same letter in lower case; every other character is kept |
| Text.LowerIdempotent | purbeurre_project/product/views.py:34 | folding an already folded text changes nothing |
| Text.ContainsIff | purbeurre_project/product/views.py:34 | the substring scan succeeds exactly when the query occurs at some position of the name |
| Text.Contains | purbeurre_project/product/views.py:34 | a pattern that starts the text is found; a pattern longer than the text is never found |
| Text.TextLeTotal | purbeurre_project/product/views.py:34 | ordering text by code points compares any two names |
| Text.TextLeAntisymmetric | purbeurre_project/product/models.py:73 | two texts that are each at most the other are equal |
| Text.TextLeTransitive | purbeurre_project/product/models.py:60 | the grade comparison `<=` is transitive |
| Text.Split | purbeurre_project/apps/product/management/commands/import_off.py:135 | splitting on `,` gives at least one piece (empty pieces kept); no piece contains a comma; joining the pieces with commas gives the text back |
| Text.SplitJoin | purbeurre_project/apps/product/management/commands/import_off.py:135 | splitting the comma-join of comma-free names gives exactly those names back |
| Text.DecimalDigits | purbeurre_project/product/views.py:96-97 | the decimal text of a natural number is non-empty, all digits, and has that number as its value |
| Text.ParseDecimal | purbeurre_project/product/views.py:101-103 | the id text the form sends for any integer id parses back to that id |
| Text.Varchar | purbeurre_project/product/models.py:28 | a value that fits is stored unchanged; a longer value is refused exactly when a character past the limit is not a space; otherwise it is cut to the limit, keeping exactly the first `n` characters |
| Text.ParseInt | purbeurre_project/product/views.py:101-102 | the text is accepted exactly when it is an optional sign followed by at least one digit; a negative value needs a leading minus |
| Sequences.Filter | purbeurre_project/product/views.py:34 | the kept elements are exactly those the predicate accepts, with their multiplicities |
| Sequences.FilterAppend | purbeurre_project/apps/product/management/commands/import_off.py:46-48 | filtering distributes over concatenation, so the input order is kept |
| Sequences.Insert | purbeurre_project/product/views.py:34 | inserting adds exactly one copy of the element |
| Sequences.Sort | purbeurre_project/product/views.py:34 | the result is a permutation of the input |
| Sequences.InsertSorted | purbeurre_project/product/views.py:34 | inserting into a sorted sequence under a total preorder keeps it sorted |
| Sequences.SortSorted | purbeurre_project/product/views.py:34 | the sort's result is ordered by any total preorder |
| Json.Truncate | purbeurre_project/apps/product/management/commands/import_off.py:116 | `int()` of a number rounds toward zero: the result lies within one of the value, on the side of zero |
| Json.Truthy | purbeurre_project/apps/product/management/commands/import_off.py:98 | a value is falsy exactly when it is `None`, `False`, zero or the empty text |
| Json.AsInteger | purbeurre_project/apps/product/management/commands/import_off.py:116 | the coercion fails exactly on `None` and on text that is not an integer; a boolean gives 1 or 0; a number is cut toward zero, to within one of its value |
| Json.AsIntegerDecimal | purbeurre_project/apps/product/management/commands/import_off.py:116 | the decimal text of an integer is coerced to that integer |
| Models.EmptyValid | purbeurre_project/product/models.py:7-94 | the empty database satisfies every constraint of the schema |
| Models.FindCategory | purbeurre_project/apps/product/management/commands/import_off.py:136 | it returns a stored category with the name, or None when no category has it |
| Models.SaveCategory | purbeurre_project/product/models.py:14 | the insert succeeds exactly when the name is new; the names become the old names plus this one; a refused save changes nothing; the constraints are kept |
| Models.AppendCategory | purbeurre_project/product/models.py:14 | a category with a new name and the next id keeps every constraint |
| Models.GetOrCreateCategory | purbeurre_project/apps/product/management/commands/import_off.py:136 | the returned id is a category with that name; an existing name changes nothing; the other rows are prefix-extended only; the constraints are kept |
| Models.AddLink | purbeurre_project/apps/product/management/commands/import_off.py:137 | the link is present afterwards and it is the only row added; a link already there is not repeated; the constraints are kept |
| Models.AppendLink | purbeurre_project/product/models.py:41 | a new association row between a stored product and a stored category keeps every constraint |
| Models.Stored | purbeurre_project/product/models.py:28-40 | the row is refused exactly when the grade, the image url or a non-null url breaks its `varchar` limit, or the energy is outside the `integer` range; otherwise those three columns hold their `varchar` values, every other column is kept, and the row fits the column types; a row that fits is stored unchanged |
| Models.CreateProduct | purbeurre_project/product/models.py:27-39 | the insert succeeds exactly when the row fits and neither its name nor its non-null url is taken; the new row gets the next id, which is fresh; a refusal changes nothing; the constraints are kept |
| Models.AppendProduct | purbeurre_project/product/models.py:27-39 | a row with the next id whose name and non-null url are free keeps every constraint |
| Models.DeleteAllProducts | purbeurre_project/product/management/commands/import_off.py:57 | no product remains, and the association rows and saved substitutes go with them; categories stay |
| Models.DeleteAllCategories | purbeurre_project/product/management/commands/import_off.py:58 | no category remains and the association rows go with them; products stay |
| Models.CountTripleIff | purbeurre_project/product/models.py:94 | a triple is counted at least once exactly when some saved row has it |
| Models.TripleAtMostOnce | purbeurre_project/product/models.py:94 | under the unique constraint a triple is saved at most once |
| Models.AppendFavorite | purbeurre_project/product/models.py:85-94 | appending an unsaved triple that points at existing products keeps the constraints and saves the triple exactly once |
| Models.AppendFavoriteKeepsUnique | purbeurre_project/product/models.py:85-94 | a row with the next id, an unsaved triple and existing products keeps the triples unique, the ids increasing and the references valid |
| Models.SavedOnce | purbeurre_project/product/models.py:94 | a saved triple is saved exactly once in a valid database |
| Models.GetOrCreateFavorite | purbeurre_project/product/views.py:101-103 | `created` is false exactly when the triple was saved already, and then nothing changes; it fails exactly when a new row would point at a missing product; a created row is appended with the next id, the favourite sequence advances and the other tables are unchanged; afterwards the triple is saved exactly once; the constraints are kept |
| Store.Database.constructor | purbeurre_project/product/models.py:7-94 | a fresh database is empty, with every sequence at 1 |
| Store.Database.SaveCategory | purbeurre_project/apps/product/management/commands/import_off.py:51-52 | the new state is `Models.SaveCategory` of the old one |
| Store.Database.GetOrCreateCategory | purbeurre_project/apps/product/management/commands/import_off.py:136 | the new state and the id are `Models.GetOrCreateCategory` of the old state |
| Store.Database.AddLink | purbeurre_project/apps/product/management/commands/import_off.py:137 | the new state is `Models.AddLink` of the old one |
| Store.Database.CreateProduct | purbeurre_project/apps/product/management/commands/import_off.py:113-132 | the new state and the id are `Models.CreateProduct` of the old state |
| Store.Database.DeleteAllProducts | purbeurre_project/product/management/commands/import_off.py:57 | the new state is `Models.DeleteAllProducts` of the old one |
| Store.Database.DeleteAllCategories | purbeurre_project/product/management/commands/import_off.py:58 | the new state is `Models.DeleteAllCategories` of the old one |
| Store.Database.GetOrCreateFavorite | purbeurre_project/product/views.py:101-103 | the new state and the outcome are `Models.GetOrCreateFavorite` of the old state |
| Substitutes.KeyLeTotalPreorder | purbeurre_project/product/models.py:73 | ordering by (grade, energy) is a total preorder |
| Substitutes.KeyLeAntisymmetric | purbeurre_project/product/models.py:73-74 | two products that are each at most the other share their (grade, energy) pair |
| Substitutes.FirstOfEachPair | purbeurre_project/product/models.py:74 | keeping the first product of each pair keeps a subsequence that covers the same pairs, starting with the same element |
| Substitutes.FirstOfEachPairOrdered | purbeurre_project/product/models.py:73-74 | applied to an ordered list it gives an ordered list with no pair repeated |
| Substitutes.Substitutes | purbeurre_project/product/models.py:46-75 | every product returned is stored and qualifies: another product, grade at most the reference's, sharing at least `k` and at least one category; the result is ordered by (grade, energy) with no pair repeated; every qualifying product's pair appears |
| Substitutes.SharedBound | purbeurre_project/product/models.py:61-65 | a product shares at most as many categories as the reference has |
| Substitutes.SubsetCard | purbeurre_project/product/models.py:61-65 | a subset is no larger than its superset |
| Substitutes.TooFewCategories | purbeurre_project/product/models.py:65 | a reference with fewer than `k` categories, or with none, has no substitute |
| Substitutes.SampleSubstitutes | purbeurre_project/product/tests/unit/test_models.py:109-169 | in the first model test's catalog (product 17 in the first category only) with k = 2, the only substitute of the d-grade product is the a-grade product |
| Substitutes.SampleNoSubstitutes | purbeurre_project/product/tests/unit/test_models.py:171-234 | in the second test's catalog (product 17 in the second category only), with the a-grade product as reference, nothing qualifies |
| Substitutes.SampleCatalogValid | purbeurre_project/product/tests/unit/test_models.py:109-233 | both test catalogs satisfy every constraint of the schema |
| Substitutes.OnlyCandidate | purbeurre_project/product/models.py:46-75 | when exactly one stored product qualifies, it is the whole answer |
| Substitutes.PairsCount | purbeurre_project/product/models.py:74 | a list with no pair repeated has as many pairs as products |
| Substitutes.OnlyPair | purbeurre_project/product/models.py:74 | a list with no pair repeated that holds one product and nothing else is that product once |
| Ingest.SelectCategories | purbeurre_project/apps/product/management/commands/import_off.py:46-48 | a tag is selected exactly when it is listed and reaches the threshold |
| Ingest.SelectionOrder | purbeurre_project/apps/product/management/commands/import_off.py:46-48 | selection keeps the listing order: it distributes over concatenation and keeps a single tag exactly when it reaches the threshold |
| Ingest.SelectionSample | purbeurre_project/apps/product/management/commands/import_off.py:47 | with the threshold of 3000, a listing of 2000 and 40000 keeps only the 40000 entry |
| Ingest.Populate | purbeurre_project/apps/product/management/commands/import_off.py:49-54 | the category names become the old names plus every selected name; existing rows stay; products, links and saved substitutes are untouched; the constraints are kept |
| Ingest.PopulateExisting | purbeurre_project/apps/product/management/commands/import_off.py:49-54 | saving names that all exist already changes nothing |
| Ingest.PopulateCategories | purbeurre_project/apps/product/management/commands/import_off.py:25-55 | it returns the selected tags and leaves the state `Populate` gives for their names |
| Ingest.Validate | purbeurre_project/apps/product/management/commands/import_off.py:86-100 | a record is accepted exactly when its grade is text that is not whitespace-only, it has nutriments, and its fibre is truthy; it raises exactly when the grade is present but not text, or the grade passes and the nutriments are missing |
| Ingest.BuildProduct | purbeurre_project/apps/product/management/commands/import_off.py:113-132 | a row is built exactly when there are nutriments, the name, grade, energy unit and image url are text, the energy converts to an integer, the url is text or absent, and no nutrient is missing; the built row takes its name, grade, unit and image url from those texts, its energy from `int()` of the energy value, its eight nutrients from the nutriments, and its url from the record (NULL exactly when absent); its id is the placeholder 0 |
| Ingest.LinkAll | purbeurre_project/apps/product/management/commands/import_off.py:134-137 | every name is afterwards a category linked to the product; the category names become the old ones plus these names; only links of this product are added; existing rows stay; the constraints are kept |
| Ingest.LinkStep | purbeurre_project/apps/product/management/commands/import_off.py:136-137 | one get-or-create and add gives a linked category with that name and adds nothing else |
| Ingest.LinkAllExact | purbeurre_project/apps/product/management/commands/import_off.py:134-137 | in a valid catalog the product is afterwards linked to exactly its old category names plus the given names: no other name is linked |
| Ingest.LinkExactValid | purbeurre_project/apps/product/management/commands/import_off.py:136-137 | in a valid catalog one get-or-create and add links exactly one more name to the product |
| Ingest.LinkAdds | purbeurre_project/apps/product/management/commands/import_off.py:136-137 | one turn keeps every linked name and links the given one |
| Ingest.LinkAddsOnly | purbeurre_project/apps/product/management/commands/import_off.py:136-137 | in a valid catalog one turn links no name besides the given one |
| Ingest.LinkedBefore | purbeurre_project/product/models.py:7-14 | since category ids are unique, a category other than the named one that is linked after the turn was already there and already linked |
| Models.SameCategoryId | purbeurre_project/product/models.py:7-14 | two category rows with the same id are the same row |
| Ingest.NoNamesLinkedToNext | purbeurre_project/product/models.py:41 | in a valid catalog no category name is linked to the id the next product will get |
| Ingest.CreatedUnlinked | purbeurre_project/apps/product/management/commands/import_off.py:113-133 | the row just created keeps the catalog valid, exists under the next id and has no category yet |
| Ingest.InsertLinksExact | purbeurre_project/apps/product/management/commands/import_off.py:112-139 | in a valid catalog an admitted row ends up linked to exactly the comma-separated names of its category text, and to none without a text |
| Ingest.InsertSomeLinks | purbeurre_project/apps/product/management/commands/import_off.py:134-137 | in a valid catalog an admitted row with a category text is linked to exactly its comma-separated names |
| Ingest.LinkCategories | purbeurre_project/apps/product/management/commands/import_off.py:135-137 | the loop leaves the state `LinkAll` gives |
| Ingest.LinkCategory | purbeurre_project/apps/product/management/commands/import_off.py:136-137 | one turn of the inner loop leaves the state `LinkOne` gives |
| Ingest.CreateOne | purbeurre_project/apps/product/management/commands/import_off.py:108-139 | a turn raises exactly when validation raises; a record that is not accepted changes nothing; existing rows stay; saved substitutes are untouched; the constraints are kept |
| Ingest.Insert | purbeurre_project/apps/product/management/commands/import_off.py:112-139 | a refused row changes nothing. An admitted row is appended as the only new product, under the next id, and linked to every name of the category text; the category names grow by those names. Every added link belongs to the new product; existing links stay; saved substitutes are untouched. Without a category text no link or category is added |
| Ingest.CreateAll | purbeurre_project/apps/product/management/commands/import_off.py:102-139 | existing product and category rows stay; saved substitutes are untouched; the constraints are kept |
| Ingest.CreateAllAppend | purbeurre_project/apps/product/management/commands/import_off.py:108-111 | running on `xs + ys` is running on `xs`, then on `ys` unless `xs` raised |
| Ingest.BlockedIsInert | purbeurre_project/apps/product/management/commands/import_off.py:109-111 | a record that is rejected, cannot be built, or is refused leaves the catalog as it is |
| Ingest.TakenGrows | purbeurre_project/product/models.py:27-39 | a name or url that is taken stays taken when products are added |
| Ingest.BlockedGrows | purbeurre_project/product/models.py:27-39 | a refused record stays refused when products are added |
| Ingest.BlockedAfter | purbeurre_project/apps/product/management/commands/import_off.py:113-132 | after its own turn a record is refused |
| Ingest.Rerun | purbeurre_project/apps/product/management/commands/import_off.py:102-139 | running the records again on any catalog that holds all the products of the first run changes nothing and raises at the same point |
| Ingest.CreateAllIdempotent | purbeurre_project/apps/product/management/commands/import_off.py:102-139 | running `create_products` twice on the same records: the second run changes nothing |
| Ingest.MissingNutrimentsAborts | purbeurre_project/apps/product/management/commands/import_off.py:98 | a record with a passing grade and no nutriments ends the batch; the records after it are not processed |
| Ingest.CreatesAndLinks | purbeurre_project/apps/product/management/commands/import_off.py:113-137 | an accepted, admissible record is stored under the next id and linked to a category for each comma-separated name, and in a valid catalog to no other; missing categories are created and existing ones reused |
| Ingest.CreatesWithoutCategories | purbeurre_project/apps/product/management/commands/import_off.py:134-139 | when the category field is not text, the product is still stored but has no category |
| Ingest.NothingLinkedToNext | purbeurre_project/product/models.py:41 | no association row points at the id the next product will get |
| Ingest.DuplicateSkipped | purbeurre_project/apps/product/management/commands/import_off.py:138-139 | a record whose name or url is already stored changes nothing and does not stop the loop |
| Ingest.FirstOccurrenceWins | purbeurre_project/apps/product/management/commands/import_off.py:108-139 | the row created by the first record with a name stays in the final catalog |
| Ingest.InsertedRow | purbeurre_project/apps/product/management/commands/import_off.py:113-132 | the turn of an accepted, admissible record does not raise and stores its row under the next id |
| Ingest.CreateAllStep | purbeurre_project/apps/product/management/commands/import_off.py:108 | one more record is one more turn, unless the run already raised |
| Ingest.CreateAllSplit | purbeurre_project/apps/product/management/commands/import_off.py:108 | a run splits at any position |
| Ingest.TryInsert | purbeurre_project/apps/product/management/commands/import_off.py:112-139 | the try block leaves the state `Insert` gives |
| Ingest.CreateRecord | purbeurre_project/apps/product/management/commands/import_off.py:109-139 | one turn of the loop leaves the state and the raise that `CreateOne` gives |
| Ingest.CreateProducts | purbeurre_project/apps/product/management/commands/import_off.py:102-139 | the loop leaves the state and the raise that `CreateAll` gives |
| Ingest.Import | purbeurre_project/apps/product/management/commands/import_off.py:141-147 | existing product and category rows stay; saved substitutes are untouched; the constraints are kept |
| Ingest.ListingsAppend | purbeurre_project/apps/product/management/commands/import_off.py:144-146 | the records of two tag lists are the records of the first, then those of the second |
| Ingest.CategoryNamesGrow | purbeurre_project/product/models.py:14 | extending the category rows keeps every name |
| Ingest.SelectedNames | purbeurre_project/apps/product/management/commands/import_off.py:46-51 | the saved names are exactly the names of the tags that reach the threshold |
| Ingest.ImportHasSelected | purbeurre_project/apps/product/management/commands/import_off.py:141-147 | after `handle`, every tag that reaches the threshold is a category |
| Ingest.ImportIdempotent | purbeurre_project/apps/product/management/commands/import_off.py:141-147 | importing the same feed a second time changes nothing |
| Ingest.ListingsStep | purbeurre_project/apps/product/management/commands/import_off.py:144-146 | one more tag adds its listing at the end |
| Ingest.ListingsSplit | purbeurre_project/apps/product/management/commands/import_off.py:144-146 | the records split with the tag list |
| Ingest.StopsAfterRaise | purbeurre_project/apps/product/management/commands/import_off.py:146 | once a record raised, later records are never processed |
| Ingest.ListingsDone | purbeurre_project/apps/product/management/commands/import_off.py:144-146 | leaving the outer loop after the last tag, or after a raise, gives the result of running every listing |
| Ingest.Handle | purbeurre_project/apps/product/management/commands/import_off.py:141-147 | the command leaves the state and the raise that `Import` gives |
| LegacyIngest.LegacySelectionSample | purbeurre_project/product/management/commands/import_off.py:45-47 | with the threshold of 5000, a listing of 5002 and 4999 keeps only the 5002 entry |
| LegacyIngest.LegacyCreateOne | purbeurre_project/product/management/commands/import_off.py:86-108 | a record is stored under the next id exactly when its row can be built and is admissible; otherwise nothing changes; categories, links and saved substitutes never change |
| LegacyIngest.LegacyCreateAll | purbeurre_project/product/management/commands/import_off.py:85-108 | existing products stay; every new name is the name of a buildable record; categories, links and saved substitutes are untouched; the constraints are kept |
| LegacyIngest.EveryRecordTaken | purbeurre_project/product/management/commands/import_off.py:85-108 | every record whose row fits ends up stored, or lost to an earlier row with its name or url |
| LegacyIngest.LegacyFirstOccurrenceWins | purbeurre_project/product/management/commands/import_off.py:85-108 | the row created by the first record with a name stays in the final catalog under the id it was given |
| LegacyIngest.LegacyInsertedRow | purbeurre_project/product/management/commands/import_off.py:87-106 | a buildable, admissible record is stored as the last row, under the next id |
| LegacyIngest.LegacyCreateAllSplit | purbeurre_project/product/management/commands/import_off.py:85 | a run over a listing splits at any position |
| LegacyIngest.LegacyCreateAllLast | purbeurre_project/product/management/commands/import_off.py:85 | the last record is the last turn |
| LegacyIngest.LegacyCreateAllStep | purbeurre_project/product/management/commands/import_off.py:85 | one more record of a listing is one more turn |
| LegacyIngest.LegacyCreateAllAppend | purbeurre_project/product/management/commands/import_off.py:66-108 | running on `xs + ys` is running on `xs`, then on `ys` |
| LegacyIngest.TryCreate | purbeurre_project/product/management/commands/import_off.py:86-108 | the try block leaves the state `LegacyCreateOne` gives |
| LegacyIngest.LegacyImport | purbeurre_project/product/management/commands/import_off.py:56-109 | after the command no association row and no saved substitute remain; the constraints are kept |
| LegacyIngest.LegacyImportResult | purbeurre_project/product/management/commands/import_off.py:56-109 | after the command the categories are exactly the selected names; no link and no saved substitute remain; every product comes from a listed record; every record whose row fits is stored or lost to an earlier one; the constraints are kept |
| LegacyIngest.LegacyHandle | purbeurre_project/product/management/commands/import_off.py:56-109 | the command leaves the state `LegacyImport` gives |
| LegacyIngest.CreateListings | purbeurre_project/product/management/commands/import_off.py:66-108 | the outer loop leaves the state that `LegacyCreateAll` over all listings gives |
| LegacyIngest.CreateListing | purbeurre_project/product/management/commands/import_off.py:85-108 | the inner loop over one listing leaves the state `LegacyCreateAll` gives for its records |
| Views.Pages | purbeurre_project/product/views.py:25 | the number of pages is `ceil(n / 6)`, and one for an empty list; every page but the last holds six; the last is non-empty unless the list is; the pages concatenated are the list |
| Views.Page | purbeurre_project/product/views.py:25 | a page exists exactly when its number is between 1 and the page count; it holds at most six items |
| Views.PageOffset | purbeurre_project/product/views.py:25 | page `n` holds exactly the items from `6 (n - 1)` up to six of them, the slice an `OFFSET`/`LIMIT` query returns |
| Views.PageFirst | purbeurre_project/product/views.py:25 | the first page is the first six items, or all of them when there are fewer |
| Views.PageShift | purbeurre_project/product/views.py:25 | past the first page, page `n` of a list is page `n - 1` of what follows its first six items |
| Views.NameLeTotalPreorder | purbeurre_project/product/views.py:34 | ordering by name is a total preorder |
| Views.Matches | purbeurre_project/product/views.py:34 | the empty query matches every product; a query longer than the name matches none |
| Views.Search | purbeurre_project/product/views.py:27-35 | without a query the lookup fails; otherwise the result holds exactly the products whose name contains the query ignoring case, each kept exactly as often as it is stored, ordered by name |
| Views.MatchesIff | purbeurre_project/product/views.py:34 | a product matches exactly when the lower-cased query occurs in its lower-cased name; the empty query matches every product |
| Views.TooLongNeverContained | purbeurre_project/product/views.py:34 | a query longer than a name never matches it |
| Views.SampleMatches | purbeurre_project/product/tests/test_views.py:75-78 | the query "Product 2" matches "Product 2" and not "Product 1" |
| Views.SampleMisses | purbeurre_project/product/tests/test_views.py:80-83 | "Moutarde" matches neither product |
| Views.OneLongerMiss | purbeurre_project/product/views.py:34 | a name one character longer than the query, whose first two characters differ from the query's first, does not contain it |
| Views.SearchSample | purbeurre_project/product/tests/test_views.py:75-83 | over products "Product 1" and "Product 2", "Product 2" finds only the second, "Moutarde" finds nothing |
| Views.SearchCatalogValid | purbeurre_project/product/tests/test_views.py:35-56 | a catalog of two of the search tests' products satisfies every constraint of the schema |
| Views.FindProduct | purbeurre_project/product/views.py:61 | it returns the stored product with that id, or None when there is none |
| Views.SubstituteView | purbeurre_project/product/views.py:53-62 | an unknown id fails; otherwise the listing is the product's substitutes with four shared categories |
| Views.FewCategoriesNoSubstitutes | purbeurre_project/product/views.py:62 | a product with fewer than four categories lists no substitute |
| Views.Save | purbeurre_project/product/views.py:84-113 | not a POST or an empty id: nothing changes, redirect to the favourites; an id that is not an integer: server error, nothing changes; otherwise redirect to `next` exactly when the triple was saved already, server error exactly when it is new and a product is missing, and a redirect to the favourites appends exactly one row with the triple, which is then saved exactly once |
| Views.SaveTwice | purbeurre_project/product/views.py:101-112 | saving a new triple redirects to the favourites and stores it once; the same request again changes nothing and redirects to `next` |
| Views.SaveView | purbeurre_project/product/views.py:84-113 | the view leaves the state and the response that `Save` gives |
| Views.Favorites | purbeurre_project/product/views.py:116-131 | without a logged-in customer the list is empty; otherwise it holds exactly the customer's rows, with their multiplicities, ordered by the replaced product's id |
| Views.FavoritesGrowByOne | purbeurre_project/product/views.py:101-131 | a save that stores a row adds exactly that row to the customer's list |
| Views.FavoritesAppend | purbeurre_project/product/views.py:129-131 | appending a row of the customer adds exactly it to the customer's list |
| Views.CountsGrow | purbeurre_project/product/views.py:129-131 | counts filtered by customer from a list that grew by one row of that customer grow by exactly that row |

## Left out

- Network requests, HTTP status checks, the printed progress marks and the
  error messages are left out. The feed is given as inputs: the tag listing,
  and a function from a category name to its records.
- A status code other than 200 is only printed by the source; the model
  always reads the listing it is given.
- A listing whose `tags` or `products` key is missing, and a tag without
  `name` or `products`, are not modelled. `Tag` always has both fields.
- Only ASCII is covered. Whitespace, case folding and the `icontains` lookup
  treat non-ASCII characters as ordinary characters. Text ordering is by code
  point, as under the C collation.
- Django turns a non-text value into text (`str()`) before writing it to a
  text column. The model treats such a value as not writable: the create
  fails.
- Float columns store the feed's value as it is. Coercing text to `float`,
  and the error when that fails, are not modelled.
- Python's `int()` on text accepts surrounding whitespace and underscores.
  `ParseInt` accepts only an optional sign followed by digits.
- A PostgreSQL sequence also advances on an insert that fails. The model
  advances ids only on a successful insert, so later ids can differ from the
  database's; the uniqueness and ordering of ids are the same.
- Deleting a saved substitute, the user views and the templates are not part
  of this model.
- The `page` parameter: the `"last"` keyword and non-numeric values (a 404)
  are not modelled. `Page` takes the page number as an integer.
- `save_view` with a missing form field is not modelled. The lookup raises a
  `KeyError` there, which Django turns into a server error. `SaveRequest`
  always carries the three fields.
- Substitutes.Substitutes: which product represents a (grade, energy) pair
  shared by several products is not specified. `DISTINCT ON` keeps an
  arbitrary one, so the contract promises only that every pair is
  represented.
- Substitutes.Substitutes: the ordering by match count inside the subquery is
  not modelled. It does not affect the result of the outer query.
- Views.SearchSample: the search tests' fixture holds thirteen products. The
  sample catalog holds two of them, "Product 1" and "Product 2", with the
  other columns simplified.
