# IKEA catalogue crawler — a Dafny model

This project models the core of a crawler for the Serbian IKEA shop. The
crawler walks IKEA's category menu and pages through each subcategory's
product listing. For every product it has not seen before, it reads the
product page, the Croatian price and the category tags, and builds a
product record. The crawl can stop at a configured number of products.
The processing pipeline then:

- drops duplicate ids;
- splits the batch into products already in the database and new ones;
- fetches Russian and English descriptions for the new products only;
- flattens list columns to text;
- reports, per column, the percentage of records that have a value.

The database adapter upserts records field by field. A set of utilities
covers:

- the category graph built from the products' category paths;
- a Swedish-to-Russian letter substitution;
- the translation service's fallbacks.

Modules follow the Python files:

| module | file | what it holds |
|---|---|---|
| `Values` | — | Python values as a `Value` datatype, a record as a map from field names to values, `Option`/`Result`, digit strings |
| `Client` | `ikea/client.py` | the category-tag rule, the category tree, pagination, `zfill(8)` |
| `Crawler` | `ikea/crawler.py` | the rules of `_process_single_product`, the listing walk with its cap, `run`, and the class `Crawler` |
| `Storage` | `ikea/storage.py` | the table as a map from id to row, `get_diff`, `upsert`, and the class `Store` |
| `Pipeline` | `ikea/pipeline.py` | the frame, `drop_duplicates`, the montikea descriptions, the report, `process_items`, and the class `Pipeline` |
| `Utilities` | `ikea/utilities.py` | neighbour pairs, the class `CategoryBuilder`, letter substitution, `translate_text`, `translate_single_product` |

The model has two layers:

- **Specification functions.** Each step of the source has a function
  (`Single`, `WalkListings`, `WalkCategories`, `Applied`, `Localised`,
  `ProcessedItems`, `Built`, `TranslatedProduct`, …). Lemmas prove what
  the source promises about these functions.
- **Imperative code.** The code that updates state (`IKEACrawler`,
  `StorageService`, `Pipeline`, `CategoryBuilder`, the product dictionary)
  is a class with methods. Each method's loops are proved to compute
  exactly the specification function of the inputs and the old state.

The network, the database, the montikea.com pages and the translation
service are inputs: functions from a request to what it answers.

## Model

| member | source | states |
|---|---|---|
| Client.CategoryTags | ikea/client.py:37-41 | a status other than 200 or a `null` entry gives no tags; a 200 answer with a list gives that list; a failed request raises `FetchError` and a 200 answer without `rangeIds` raises `KeyError`, and nothing else raises |
| Client.KeptLinks | ikea/client.py:57-67 | the subcategories of a menu block are exactly its links not labelled `'all'`, in order |
| Client.KeptLinksOne | ikea/client.py:57-67 | one link gives its subcategory iff it is not labelled `'all'`, and nothing otherwise |
| Client.KeptLinksAppend | ikea/client.py:57-67 | the subcategories of two runs of links are those of the first followed by those of the second, so each link gives at most one, in document order |
| Client.NavsOf | ikea/client.py:52-55 | each headed block becomes one navigation block named by the text of its `span`, in order |
| Client.TreeOf | ikea/client.py:50-67 | the dict the navigation blocks give; `TreeNamesDistinct`, `TreeLookup` and `TreeHasNoAllLinks` state what it holds |
| Client.TreeNamesDistinct | ikea/client.py:52-56 | the category tree has each heading once |
| Client.TreeLookup | ikea/client.py:53-67 | a heading is in the tree iff some menu block has it, and then it holds the kept links of the last such block |
| Client.TreeHasNoAllLinks | ikea/client.py:59-60 | no subcategory labelled `'all'` reaches the tree |
| Client.GetCategories | ikea/client.py:43-69 | raises iff the request fails or some `nav` block has no `span`; otherwise the imperative pass over the blocks builds exactly the tree of the blocks |
| Client.FirstStop | ikea/client.py:100 | the first window at which the listing is empty or fails; no earlier window stops |
| Client.EmptyFirstPage | ikea/client.py:100-104 | an empty first page gives an empty product list |
| Client.GatheredPages | ikea/client.py:100-101 | every product of a page fetched before the stop is in the result |
| Client.Paginated | ikea/client.py:83-104 | what `get_products_in_cat` returns; `FirstStop`, `EmptyFirstPage` and `GatheredPages` state what it holds |
| Client.GetProductsInCat | ikea/client.py:83-104 | the loop returns the pages' products up to the first empty page, or the error of a failing window; it requests exactly the windows up to the first one that stops |
| Client.WindowSteps | ikea/client.py:97-103 | the windows are (0,1000), then (end+1, end+1000), each ending on a multiple of 1000 |
| Client.ZFill | ikea/client.py:143 | `zfill` pads with zeros to the width after a sign and leaves long strings unchanged |
| Client.MontikeaId | ikea/client.py:139-143 | the montikea id has at least 8 characters; a shorter digit string gets leading zeros |
| Client.MontikeaIdRoundTrip | ikea/client.py:142-143 | an 8-digit id read as a number and padded again gives back the same id |
| Crawler.NormaliseId | ikea/crawler.py:29-30 | raises iff the id has no digit; otherwise the number spelt by its digits |
| Crawler.NormalisedIdDecimal | ikea/crawler.py:29-30 | the decimal form of a normalised id is its digits without leading zeros, or "0" |
| Crawler.NormalisedIdPadsBack | ikea/crawler.py:29-30 | an 8-digit IKEA id survives `int` and `zfill(8)` |
| Crawler.ConvertedPrice | ikea/crawler.py:42 | the EUR price is the ceiling of `numeral * 1.44 / 117` |
| Crawler.HrUrl | ikea/crawler.py:46 | the Croatian URL keeps the length of a long URL and appends the locale to a short one |
| Crawler.HrUrlSwapsLocale | ikea/crawler.py:46 | the 7-character locale after the 20-character host is replaced by `/hr/hr/` |
| Crawler.AvailabilityIsLastBeograd | ikea/crawler.py:66-72 | available iff there is a Beograd entry not out of stock with no Beograd entry after it |
| Crawler.ComputeAvailability | ikea/crawler.py:66-72 | the loop over the stores computes that availability |
| Crawler.CountPackages | ikea/crawler.py:111-147 | the loops over package blocks and measurement lines sum the `Pakovanje` counts |
| Crawler.NumOfPackages | ikea/crawler.py:155 | a total of 0 is reported as absent, any other total as itself |
| Crawler.PackagesAbsentIffNoPackageLine | ikea/crawler.py:146-155 | with positive counts, the package count is absent iff no line is a package line |
| Values.KeysOf | ikea/crawler.py:163 | the breadcrumb is the category path's keys in order, one per step |
| Crawler.ChooseTags | ikea/crawler.py:164-165 | non-empty API tags are used; missing or empty tags fall back to the breadcrumb |
| Crawler.BuildRecord | ikea/crawler.py:168-190 | the product dictionary; its id field holds the normalised id |
| Crawler.BuildRecordFields | ikea/crawler.py:168-190 | a crawled product has exactly the 21 fields of the dictionary |
| Crawler.BuildRecordTags | ikea/crawler.py:189 | the chosen tags are stored under `category_tags` |
| Crawler.EnrichNew | ikea/crawler.py:35-192 | the rest of a call for a new id; a produced record carries that id |
| Crawler.EnrichNewTags | ikea/crawler.py:163-189 | once the page is read, the call raises iff the tag request raises; a produced record has the 21 fields, and its tags are the endpoint's non-empty list, or the breadcrumb after a status other than 200, a `null` entry or an empty list |
| Crawler.Single | ikea/crawler.py:23-192 | one call of `_process_single_product` and the seen ids after it; `SingleRules` states its rules |
| Crawler.SingleRules | ikea/crawler.py:28-33 | an id without digits raises; a seen id gives nothing and changes nothing; a new id is recorded before any fetch; a produced record carries that id; the seen list stays free of repeats |
| Crawler.WalkListings | ikea/crawler.py:231-259 | what `_process_products` returns and leaves behind; the lemmas below state its properties |
| Crawler.WalkFromAppend | ikea/crawler.py:240-257 | the walk over two runs of listings is the walk over the first continued over the second |
| Crawler.WalkStaysReached | ikea/crawler.py:254-257 | once the cap is met, later listings change nothing |
| Crawler.WalkRespectsCap | ikea/crawler.py:254-257 | below an active cap, a listing walk never exceeds it and stops exactly when it is met |
| Crawler.WalkWithoutCap | ikea/crawler.py:255 | without a cap (or with cap 0) the walk never stops early |
| Crawler.WalkFromGrows | ikea/crawler.py:240-257 | a walk only adds records |
| Crawler.WalkCappedPrefix | ikea/crawler.py:254-257 | the capped walk's records are a prefix of the uncapped walk's: all of them when the cap is not met, and exactly the cap's worth when it is, which happens whenever the uncapped walk would reach it |
| Crawler.WalkIds | ikea/crawler.py:28-33 | the records of a walk carry distinct ids, all in the seen list, which only grows |
| Crawler.VisitSub | ikea/crawler.py:273-292 | a visit that changes the state records the subcategory and stops exactly when done |
| Crawler.WalkCategories | ikea/crawler.py:261-294 | what sequential `run` does over a tree; the lemmas below state its properties |
| Crawler.WalkCategoriesGrows | ikea/crawler.py:261-294 | a run only adds products |
| Crawler.RunRespectsCap | ikea/crawler.py:261-294 | a run from below the cap ends with at most the cap, and with `done` iff the cap was met |
| Crawler.RunCappedPrefix | ikea/crawler.py:261-294 | the capped run's products are a prefix of the uncapped run's: all of them, or exactly the cap's worth; and whenever the uncapped run collects at least the cap, the capped run is done with exactly the cap |
| Crawler.RunIds | ikea/crawler.py:261-294 | across the whole run the products carry distinct ids, all seen |
| Crawler.RunVisits | ikea/crawler.py:273-282 | only subcategories of the tree whose listing was fetched are processed, never `Restoran i Bistro` |
| Crawler.Crawler.constructor | ikea/crawler.py:17-21 | an empty crawler with the given cap |
| Crawler.Crawler.ProcessSingleProduct | ikea/crawler.py:23-192 | the method ends as `Single` says, with the seen ids updated in place |
| Crawler.Crawler.ProcessProducts | ikea/crawler.py:231-259 | the loop returns the walk's records, sets `done` when the cap is met, and skips products that raise |
| Crawler.Crawler.ProcessSubcategories | ikea/crawler.py:273-292 | the inner loop of `run` follows `WalkSubs` |
| Crawler.Crawler.Run | ikea/crawler.py:261-294 | an exception of `get_categories` leaves `run` with nothing changed; otherwise `run` follows `WalkCategories` over the tree |
| Storage.Where | ikea/storage.py:67-71 | one half of the split, a subsequence of the batch |
| Storage.WhereOne | ikea/storage.py:67-71 | a single product goes to the stored half iff its id is stored, and to the new half otherwise |
| Storage.WhereAppend | ikea/storage.py:67-71 | the halves of two runs of products are the halves of the first followed by those of the second, so both halves keep the batch's order |
| Storage.WherePartitions | ikea/storage.py:59-74 | the stored and new halves together are a permutation of the batch |
| Storage.WhereMembers | ikea/storage.py:59-74 | a product is in the stored half iff it is in the batch and its id is stored, in the new half iff its id is not |
| Storage.Persisted | ikea/storage.py:91-92 | of a product's fields, exactly the table columns reach the row |
| Storage.UpsertOne | ikea/storage.py:83-100 | a failing lookup skips the product; an existing row gets the product's fields over its own; an absent id is inserted iff every key is a column; other rows are untouched |
| Storage.AppliedAt | ikea/storage.py:76-103 | after a batch, each updated id holds its old row overridden by the batch's products for it, in order |
| Storage.Applied | ikea/storage.py:76-103 | the table after a committed batch; `AppliedAt`, `AppliedOutside` and the idempotence lemmas state what it holds |
| Storage.UpsertIdempotent | ikea/storage.py:76-103 | upserting the same batch twice gives the same table as once |
| Storage.UpsertIdempotentAt | ikea/storage.py:76-103 | row by row: the second upsert of a batch leaves each id's row as the first left it |
| Storage.AppliedOutside | ikea/storage.py:82-100 | ids not in the batch keep their rows |
| Storage.FailuresSkipOnlyTheirProduct | ikea/storage.py:83-88 | a failing lookup skips its own product and no other |
| Storage.Store.constructor | ikea/storage.py:17-18 | a store over a given table |
| Storage.Store.GetDiff | ikea/storage.py:59-74 | answers iff every product has an id and no lookup fails, and then returns the two halves |
| Storage.Store.Upsert | ikea/storage.py:76-103 | raises iff a product has no id; otherwise commits the whole batch in one go |
| Pipeline.ColumnsOf | ikea/pipeline.py:27 | the frame's columns are the union of the records' keys |
| Pipeline.Frame | ikea/pipeline.py:27 | every row has every column, missing ones as NaN |
| Pipeline.FrameIds | ikea/pipeline.py:27 | framing keeps every row's id |
| Pipeline.FirstIndices | ikea/pipeline.py:28 | the positions of first occurrences of each id, increasing |
| Pipeline.DropDuplicates | ikea/pipeline.py:28 | the first row of each id, in order; the lemmas below state its properties |
| Pipeline.DropDuplicatesKeepsFirst | ikea/pipeline.py:28 | deduplication keeps the first row of each id, in order |
| Pipeline.DropDuplicatesUnique | ikea/pipeline.py:28 | the deduplicated batch has each id once |
| Pipeline.DropDuplicatesKeepsIds | ikea/pipeline.py:28 | every id of the input survives deduplication |
| Pipeline.Localised | ikea/pipeline.py:88-110 | both descriptions of the language are set: to the page's texts when both were read, to `''` otherwise; nothing else changes |
| Pipeline.TranslateDescriptionToLang | ikea/pipeline.py:80-110 | an invalid language raises `ValueError`; otherwise the item ends as `Localised` says, even when parsing fails halfway |
| Pipeline.TranslatedKeepsOtherFields | ikea/pipeline.py:72-78 | translation writes the four description fields and nothing else, so the id is kept |
| Pipeline.TranslateDescriptionFields | ikea/pipeline.py:72-78 | Russian, then English |
| Pipeline.TranslateItems | ikea/pipeline.py:42-43 | the loop translates each new item in place |
| Pipeline.TranslatedAllIds | ikea/pipeline.py:42-43 | translating a list keeps its ids |
| Pipeline.Stringified | ikea/pipeline.py:50-55 | list columns become their string form and other columns are untouched |
| Pipeline.FillNa | ikea/pipeline.py:59 | NaN becomes 0 and nothing else changes |
| Pipeline.CountBounds | ikea/pipeline.py:64 | the count of present fields is at most the row count, all iff every row has it, 0 iff none does |
| Pipeline.CoverageReport | ikea/pipeline.py:61-70 | `_generate_report`; `ReportCoverage` states its figures |
| Pipeline.ReportCoverage | ikea/pipeline.py:61-70 | each column's figure is the truncated percentage of rows with a non-null, non-empty value: at most 100, 100 iff all, 0 if none |
| Pipeline.ThreeOfFour | ikea/pipeline.py:61-70 | a field present in 3 of 4 records is reported at 75 |
| Pipeline.UnreachableStoreSkipsTranslation | ikea/pipeline.py:33-39 | when `get_diff` raises, every item counts as existing and nothing is translated |
| Pipeline.CombinedIsBatch | ikea/pipeline.py:31-47 | existing plus new items is the deduplicated batch again: same size, distinct ids, no foreign id |
| Pipeline.OnlyNewItemsTranslated | ikea/pipeline.py:41-47 | stored items come first, untouched; only items with an id not stored are translated |
| Pipeline.ProcessedSize | ikea/pipeline.py:21-59 | with an id column, one output row and one report row per distinct product |
| Pipeline.Pipeline.constructor | ikea/pipeline.py:13-15 | no report yet |
| Pipeline.Pipeline.ProcessItems | ikea/pipeline.py:21-59 | returns the filled rows and records the report as `ProcessedItems` says; raises `KeyError` without an id column, leaving the report alone |
| Utilities.PairsOfNeighbors | ikea/utilities.py:22-30 | one pair fewer than elements; pair i is (element i, element i+1) |
| Utilities.PairsCons | ikea/utilities.py:30 | a list headed by x starts with the pair (x, its second element), followed by the pairs of the rest |
| Utilities.WithEdges | ikea/utilities.py:45 | `add_edges_from` adds every pair as an edge and its ends as nodes |
| Utilities.NamedIsLastName | ikea/utilities.py:46-47 | a key gets the name of its last occurrence; other keys keep theirs |
| Utilities.AddPath | ikea/utilities.py:40-47 | what one product adds to the graph; the lemmas below state its properties |
| Utilities.Built | ikea/utilities.py:32-47 | the graph after a run over the products and whether it ran to the end; the lemmas below state its properties |
| Utilities.BuildGrows | ikea/utilities.py:40-47 | building never removes a node or an edge |
| Utilities.BuildFailsOnlyAtStart | ikea/utilities.py:40-47 | building raises iff the root is not yet a node and the first product's path is empty |
| Utilities.BuildPaths | ikea/utilities.py:40-47 | after a full build every path is in the graph: root to first key, then each key to the next |
| Utilities.BuildNamesAll | ikea/utilities.py:40-47 | after a full build the names are those set along all the paths, in order |
| Utilities.BuildNames | ikea/utilities.py:40-47 | a key is named iff it was named before or occurs on a path, and then by its last occurrence |
| Utilities.CategoryBuilder.constructor | ikea/utilities.py:18-20 | an empty graph |
| Utilities.CategoryBuilder.BuildFromProducts | ikea/utilities.py:32-47 | the loops follow `Built`, and an exception leaves earlier products in the graph |
| Utilities.SwedishToRussianTable | ikea/utilities.py:107-109 | Ä→Э, Ö→У, Å→O; any other character is unchanged |
| Utilities.ReplaceSwedChars | ikea/utilities.py:99-110 | same length, each character mapped through the table, no Ä, Ö or Å left |
| Utilities.TranslateText | ikea/utilities.py:67-96 | raises `ValueError` iff the target is not `ru` or `en`; a failing service gives the target's fixed sentence |
| Utilities.TranslatedProductNames | ikea/utilities.py:140-148 | both name fields copy the product name; it raises iff a source field is missing |
| Utilities.SetDefault | ikea/utilities.py:144 | `d[k] = d.get(k, v)` keeps a value already under `k`, adds `v` when `k` is missing, and changes no other field |
| Utilities.FillTranslations | ikea/utilities.py:144-145 | the Russian and English copies of one source field: existing values kept, missing ones translated from that field |
| Utilities.TranslatedProduct | ikea/utilities.py:140-151 | the product after `translate_single_product`, and whether it raised; `TranslatedProductNames`, `TranslatedProductKeeps` and `TranslatedProductFills` state its properties |
| Utilities.TranslatedProductKeeps | ikea/utilities.py:140-148 | existing translations are kept whatever happens, and no field other than the names and the translations changes |
| Utilities.TranslatedProductFills | ikea/utilities.py:143-148 | when the call completes, each missing translation holds the service's translation of its source field (or the fallback) |
| Utilities.TranslateSingleProduct | ikea/utilities.py:130-151 | the dictionary is updated in place as `TranslatedProduct` says, partially when it raises |

## Left out

- Threads: `_process_products_concurrent` (ikea/crawler.py:194-229) is not modelled. Only the sequential path of `run` is.
- HTML parsing is not modelled. BeautifulSoup lookups become parsed-page datatypes.
  - A product page that cannot be parsed is a `DetailUnparsable` answer, raising `ParseError`.
  - Volume, weight and maximum dimension come from the page as values; their sums and rounding are not modelled.
  - The `strip()` of the montikea description is part of the parsed page.
- HTTP, retries and timeouts are not modelled; every request is a function from its URL to its answer.
- `Client.GetProductsInCat`: it needs a window at which the endpoint stops (`ListingsEnd`). The source keeps requesting while pages are non-empty, and never ends otherwise.
- The database and ORM are modelled as a map from id to row. Whether an id lookup raises is an input (`lookupFails`).
  - A failing `session.commit()` is not modelled.
  - Column types are not checked.
- `get_all`, `to_csv`, `save_items` and `get_report` are not modelled. They only read the whole table, write a file or delegate to the modelled members.
- The graph export (`_graph_to_nested_dict`, `to_json`) is not modelled. The graph is a set of nodes, a set of edges and a name per node, without networkx's other attributes.
- `transliterate_swedish_names_to_russian` is not modelled. `cyrtranslit` is not part of this model; the letter substitution after it is.
- `Pipeline.ReportCoverage`: computes `count * 100 // total` on integers. The source divides in floating point before `int()`, so rounding error can give one less (29 of 100 gives 28.999…, reported as 28).
- `Crawler.ConvertedPrice`: the ceiling is over exact reals, not floating point.
- `Pipeline.Frame`: pandas' change of an integer column to float when a NaN appears is not modelled.
- Timestamps are a fixed input (`Web.now`).
- Progress bars and printed error messages are not modelled.
- `Crawler.NormaliseId`: `str.isdigit` is read as the ASCII digits 0-9, not other Unicode digits.
- `Storage.UpsertIdempotent`: proved only when every product's keys are table columns.
  - Otherwise the insert of a product with an unknown key raises, so that product is skipped.
  - A later product with the same id in a second run then updates the row it finds, so two runs can differ from one.
- `Pipeline.DropDuplicates`: `drop_duplicates` keeps the FIRST row of each id, and that is what is modelled.
- `Pipeline.Pipeline.constructor`: the source starts the report as `{}`; the model uses `None`.
- `Utilities.CategoryBuilder.BuildFromProducts`: it takes each product's category path, so the `KeyError` of a product without `category_path` (ikea/utilities.py:43) is not modelled.
