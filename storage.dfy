/** The store adapter of ikea/storage.py: the products table seen as a map
    from `product_id` to its row, the split of a batch into stored and new
    products, and the field-by-field upsert.

    The database, its sessions and the ORM are not modelled. Whether the
    lookup of an id raises (the database is unreachable, the connection
    dropped) is an input, `lookupFails`. */
module Storage {
  import opened Values

  /** The columns of the products table. */
  const Columns: set<string> := {
    "product_id", "product_name", "price", "price_rs", "price_hr",
    "product_description", "product_long_description",
    "product_description_ru", "product_long_description_ru",
    "product_description_en", "product_long_description_en",
    "main_image_url", "other_image_urls", "product_url_ikea", "availability",
    "num_of_packages", "multi_pack", "product_parts", "sum_volume", "sum_weight",
    "materials", "max_dimension", "breadcrumb_categories", "category_tags", "modified_date"
  }

  /** The table: one row per product id; a column missing from a row is
      NULL. */
  type Table = map<Value, Record>

  /** Every product of the batch has a `product_id` key. */
  predicate HasIds(products: seq<Record>) {
    forall i :: 0 <= i < |products| ==> ProductIdField in products[i]
  }

  /** Every key of every product is a column of the table. */
  predicate AllColumns(products: seq<Record>) {
    forall i :: 0 <= i < |products| ==> products[i].Keys <= Columns
  }

  // ---------------------------------------------------------------------
  // get_diff
  // ---------------------------------------------------------------------

  /** `get_diff` answers only when every product has an id and no lookup
      raises; otherwise the exception leaves the method. */
  predicate Answerable(products: seq<Record>, lookupFails: Value -> bool) {
    forall i :: 0 <= i < |products| ==>
      ProductIdField in products[i] && !lookupFails(products[i][ProductIdField])
  }

  /** The products, in order, whose id is (`stored`) or is not (`!stored`)
      a key of the table. */
  function Where(products: seq<Record>, rows: Table, stored: bool): (r: seq<Record>)
    ensures |r| <= |products|
    decreases |products|
  {
    if products == [] then []
    else
      var p := products[|products| - 1];
      Where(products[..|products| - 1], rows, stored) + (if (IdOf(p) in rows) == stored then [p] else [])
  }

  /** A single product goes to the half its id selects. */
  lemma WhereOne(p: Record, rows: Table, stored: bool)
    ensures Where([p], rows, stored) == if (IdOf(p) in rows) == stored then [p] else []
  {
    assert [p][..0] == [];
  }

  /** The split keeps batch order: the half of a concatenation is the
      half of the first part followed by the half of the second. */
  lemma {:induction false} WhereAppend(a: seq<Record>, b: seq<Record>, rows: Table, stored: bool)
    ensures Where(a + b, rows, stored) == Where(a, rows, stored) + Where(b, rows, stored)
    decreases |b|
  {
    if b == [] {
      assert a + b == a;
    } else {
      var init, p := b[..|b| - 1], b[|b| - 1];
      var tail := if (IdOf(p) in rows) == stored then [p] else [];
      assert (a + b)[..|a + b| - 1] == a + init && (a + b)[|a + b| - 1] == p;
      assert Where(a + b, rows, stored) == Where(a + init, rows, stored) + tail;
      WhereAppend(a, init, rows, stored);
      assert (Where(a, rows, stored) + Where(init, rows, stored)) + tail ==
        Where(a, rows, stored) + (Where(init, rows, stored) + tail);
    }
  }

  /** The split is a partition of the batch: every product lands in exactly
      one half, with its multiplicity. */
  lemma {:induction false} WherePartitions(products: seq<Record>, rows: Table)
    ensures multiset(Where(products, rows, true)) + multiset(Where(products, rows, false)) == multiset(products)
    ensures |Where(products, rows, true)| + |Where(products, rows, false)| == |products|
  {
    var yes, no := Where(products, rows, true), Where(products, rows, false);
    WhereMultisets(products, rows);
    assert |multiset(yes) + multiset(no)| == |multiset(yes)| + |multiset(no)|;
    assert |multiset(yes)| == |yes| && |multiset(no)| == |no| && |multiset(products)| == |products|;
  }

  lemma {:induction false} WhereMultisets(products: seq<Record>, rows: Table)
    ensures multiset(Where(products, rows, true)) + multiset(Where(products, rows, false)) == multiset(products)
    decreases |products|
  {
    if products != [] {
      var init := products[..|products| - 1];
      var p := products[|products| - 1];
      WhereMultisets(init, rows);
      assert products == init + [p];
      assert multiset(products) == multiset(init) + multiset{p};
    }
  }

  /** A product is in a half exactly when it is in the batch and its id
      is stored, or not stored, as that half requires. */
  lemma {:induction false} WhereMembers(products: seq<Record>, rows: Table, stored: bool)
    ensures forall p :: p in Where(products, rows, stored) <==> p in products && (IdOf(p) in rows) == stored
    decreases |products|
  {
    if products != [] {
      var init := products[..|products| - 1];
      var last := products[|products| - 1];
      WhereMembers(init, rows, stored);
      assert products == init + [last];
      forall p ensures p in products <==> p in init || p == last { }
    }
  }

  /** The two halves of a batch. */
  datatype Diff = Diff(existing: seq<Record>, newItems: seq<Record>)

  // ---------------------------------------------------------------------
  // upsert
  // ---------------------------------------------------------------------

  /** The part of a product that `setattr` on a mapped row persists: the
      fields that are columns. */
  function Persisted(p: Record): (q: Record)
    ensures q.Keys == p.Keys * Columns
    ensures forall k :: k in q ==> q[k] == p[k]
  {
    map k | k in p.Keys * Columns :: p[k]
  }

  /** The row stored under an id before a batch, empty when there is none. */
  function Base(rows: Table, id: Value): Record {
    if id in rows then rows[id] else map[]
  }

  /** One iteration of `upsert`: a failing lookup skips the product; a
      stored row gets the product's fields written over it; an absent id
      is inserted when `Product(**product)` accepts every key, and skipped
      when it raises. */
  function UpsertOne(rows: Table, p: Record, lookupFails: Value -> bool): (r: Table)
    requires ProductIdField in p
    ensures lookupFails(p[ProductIdField]) ==> r == rows
    ensures forall x :: x != p[ProductIdField] ==> (x in r <==> x in rows) && (x in rows ==> r[x] == rows[x])
    ensures !lookupFails(p[ProductIdField]) && p[ProductIdField] in rows ==>
      p[ProductIdField] in r &&
      r[p[ProductIdField]].Keys == rows[p[ProductIdField]].Keys + p.Keys * Columns &&
      (forall k :: k in p && k in Columns ==> r[p[ProductIdField]][k] == p[k]) &&
      (forall k :: k in rows[p[ProductIdField]] && !(k in p && k in Columns) ==>
        r[p[ProductIdField]][k] == rows[p[ProductIdField]][k])
    ensures !lookupFails(p[ProductIdField]) && p[ProductIdField] !in rows ==>
      (p[ProductIdField] in r <==> p.Keys <= Columns) &&
      (p[ProductIdField] in r ==> r[p[ProductIdField]] == p)
  {
    var id := p[ProductIdField];
    if lookupFails(id) then rows
    else if id in rows then rows[id := rows[id] + Persisted(p)]
    else if p.Keys <= Columns then rows[id := p]
    else rows
  }

  /** The table after `upsert` committed the whole batch. */
  function Applied(rows: Table, products: seq<Record>, lookupFails: Value -> bool): Table
    requires HasIds(products)
    decreases |products|
  {
    if products == [] then rows
    else UpsertOne(Applied(rows, products[..|products| - 1], lookupFails), products[|products| - 1], lookupFails)
  }

  /** The products of a batch whose upsert reaches the row of `id`. */
  function UpdatesOf(products: seq<Record>, id: Value, lookupFails: Value -> bool): seq<Record>
    requires HasIds(products)
    decreases |products|
  {
    if products == [] then []
    else
      var p := products[|products| - 1];
      UpdatesOf(products[..|products| - 1], id, lookupFails) +
        (if p[ProductIdField] == id && !lookupFails(id) then [p] else [])
  }

  /** The fields of a sequence of products written one after the other. */
  function Merged(ps: seq<Record>): Record
    decreases |ps|
  {
    if ps == [] then map[] else Merged(ps[..|ps| - 1]) + ps[|ps| - 1]
  }

  lemma MapOverrideAssoc(a: Record, b: Record, c: Record)
    ensures (a + b) + c == a + (b + c)
  {
  }

  /** Writing the same fields a second time changes nothing. */
  lemma OverrideTwice(a: Record, m: Record)
    ensures (a + m) + m == a + m
  {
    MapOverrideAssoc(a, m, m);
    assert m + m == m;
  }

  /** One product seen from the row of `id`: the product reaches it, and
      its fields are written over the row (an empty row if there was none),
      or the row is left as it was. */
  lemma UpsertOneAt(s: Table, p: Record, lookupFails: Value -> bool, id: Value)
    requires ProductIdField in p && p.Keys <= Columns
    ensures var t := UpsertOne(s, p, lookupFails);
      if p[ProductIdField] == id && !lookupFails(id) then id in t && t[id] == Base(s, id) + p
      else (id in t <==> id in s) && (id in s ==> t[id] == s[id])
  {
    if p[ProductIdField] == id && !lookupFails(id) {
      assert Persisted(p) == p;
      if id !in s {
        assert Base(s, id) + p == p;
      }
    }
  }

  /** The merged fields of a product list grow by the last product. */
  lemma MergedStep(us0: seq<Record>, p: Record)
    ensures Merged(us0 + [p]) == Merged(us0) + p
  {
    assert (us0 + [p])[..|us0|] == us0;
  }

  /** The row of `id` after one more product reaches it, from what the
      batch so far left there. */
  lemma HitStep(rows: Table, s: Table, us0: seq<Record>, p: Record, id: Value)
    requires id in s <==> id in rows || us0 != []
    requires us0 == [] && id in rows ==> s[id] == rows[id]
    requires us0 != [] ==> s[id] == Base(rows, id) + Merged(us0)
    ensures Base(s, id) + p == Base(rows, id) + Merged(us0 + [p])
  {
    MergedStep(us0, p);
    if us0 == [] {
      assert Merged(us0) == map[];
      assert Base(s, id) == Base(rows, id);
      assert Merged(us0) + p == p;
    } else {
      MapOverrideAssoc(Base(rows, id), Merged(us0), p);
    }
  }

  /** Row by row, the table after a batch of schema-conforming products:
      an id no product reaches keeps its row (or stays absent); any other
      id holds its earlier row, if any, with the fields of its products
      written over it in batch order. */
  lemma {:induction false} AppliedAt(rows: Table, products: seq<Record>, lookupFails: Value -> bool, id: Value)
    requires HasIds(products) && AllColumns(products)
    ensures var t := Applied(rows, products, lookupFails);
      var us := UpdatesOf(products, id, lookupFails);
      (id in t <==> id in rows || us != []) &&
      (us == [] && id in rows ==> t[id] == rows[id]) &&
      (us != [] ==> t[id] == Base(rows, id) + Merged(us))
    decreases |products|
  {
    if products != [] {
      var init := products[..|products| - 1];
      var p := products[|products| - 1];
      assert HasIds(init) && AllColumns(init);
      AppliedAt(rows, init, lookupFails, id);
      var s := Applied(rows, init, lookupFails);
      assert Applied(rows, products, lookupFails) == UpsertOne(s, p, lookupFails);
      UpsertOneAt(s, p, lookupFails, id);
      var us0 := UpdatesOf(init, id, lookupFails);
      if p[ProductIdField] == id && !lookupFails(id) {
        assert UpdatesOf(products, id, lookupFails) == us0 + [p];
        HitStep(rows, s, us0, p, id);
      } else {
        assert UpdatesOf(products, id, lookupFails) == us0;
      }
    }
  }

  /** Upserting the same batch twice leaves the table the first upsert
      left, provided every product key is a column (otherwise an insert
      that raised in the first pass can turn into an update in the
      second). */
  lemma UpsertIdempotent(rows: Table, products: seq<Record>, lookupFails: Value -> bool)
    requires HasIds(products) && AllColumns(products)
    ensures Applied(Applied(rows, products, lookupFails), products, lookupFails) == Applied(rows, products, lookupFails)
  {
    var once := Applied(rows, products, lookupFails);
    var twice := Applied(once, products, lookupFails);
    forall id ensures (id in twice <==> id in once) && (id in once ==> twice[id] == once[id]) {
      UpsertIdempotentAt(rows, products, lookupFails, id);
    }
    assert twice.Keys == once.Keys;
  }

  /** The row of one id after two upserts of the same batch. */
  lemma UpsertIdempotentAt(rows: Table, products: seq<Record>, lookupFails: Value -> bool, id: Value)
    requires HasIds(products) && AllColumns(products)
    ensures var once := Applied(rows, products, lookupFails);
      var twice := Applied(once, products, lookupFails);
      (id in twice <==> id in once) && (id in once ==> twice[id] == once[id])
  {
    var once := Applied(rows, products, lookupFails);
    AppliedAt(rows, products, lookupFails, id);
    AppliedAt(once, products, lookupFails, id);
    var us := UpdatesOf(products, id, lookupFails);
    if us != [] {
      var m := Merged(us);
      assert Base(once, id) == Base(rows, id) + m;
      OverrideTwice(Base(rows, id), m);
    }
  }

  /** An id that no product of the batch carries keeps its row. */
  lemma {:induction false} AppliedOutside(rows: Table, products: seq<Record>, lookupFails: Value -> bool, id: Value)
    requires HasIds(products)
    requires forall i :: 0 <= i < |products| ==> products[i][ProductIdField] != id
    ensures var t := Applied(rows, products, lookupFails);
      (id in t <==> id in rows) && (id in rows ==> t[id] == rows[id])
    decreases |products|
  {
    if products != [] {
      AppliedOutside(rows, products[..|products| - 1], lookupFails, id);
    }
  }

  /** The batch without the products whose lookup raises. */
  function Reachable(products: seq<Record>, lookupFails: Value -> bool): (r: seq<Record>)
    requires HasIds(products)
    ensures HasIds(r) && |r| <= |products|
    decreases |products|
  {
    if products == [] then []
    else
      var p := products[|products| - 1];
      Reachable(products[..|products| - 1], lookupFails) + (if lookupFails(p[ProductIdField]) then [] else [p])
  }

  /** A failing lookup skips its product and nothing else: the batch
      commits as if that product had not been in it. */
  lemma {:induction false} FailuresSkipOnlyTheirProduct(rows: Table, products: seq<Record>, lookupFails: Value -> bool)
    requires HasIds(products)
    ensures Applied(rows, products, lookupFails) == Applied(rows, Reachable(products, lookupFails), lookupFails)
    decreases |products|
  {
    if products != [] {
      var init := products[..|products| - 1];
      var p := products[|products| - 1];
      FailuresSkipOnlyTheirProduct(rows, init, lookupFails);
      var r0 := Reachable(init, lookupFails);
      if lookupFails(p[ProductIdField]) {
        assert Reachable(products, lookupFails) == r0;
      } else {
        var r1 := r0 + [p];
        assert Reachable(products, lookupFails) == r1;
        assert r1[..|r1| - 1] == r0 && r1[|r1| - 1] == p;
        assert Applied(rows, r1, lookupFails) == UpsertOne(Applied(rows, r0, lookupFails), p, lookupFails);
      }
    }
  }

  // ---------------------------------------------------------------------
  // The adapter
  // ---------------------------------------------------------------------

  class Store {
    var rows: Table

    constructor (rows: Table)
      ensures this.rows == rows
    {
      this.rows := rows;
    }

    /** `get_diff`: one lookup per product, in order. The first product
        without an id, or whose lookup raises, makes the call raise. */
    method GetDiff(products: seq<Record>, lookupFails: Value -> bool) returns (r: Result<Diff>)
      ensures r.Ok? <==> Answerable(products, lookupFails)
      ensures r.Ok? ==> r.value == Diff(Where(products, rows, true), Where(products, rows, false))
    {
      var existing: seq<Record> := [];
      var newItems: seq<Record> := [];
      for i := 0 to |products|
        invariant Answerable(products[..i], lookupFails)
        invariant existing == Where(products[..i], rows, true)
        invariant newItems == Where(products[..i], rows, false)
      {
        var product := products[i];
        assert products[..i + 1][..i] == products[..i];
        if ProductIdField !in product {
          return Err(KeyError);
        }
        if lookupFails(product[ProductIdField]) {
          return Err(StoreError);
        }
        if product[ProductIdField] in rows {
          existing := existing + [product];
        } else {
          newItems := newItems + [product];
        }
      }
      assert products[..|products|] == products;
      r := Ok(Diff(existing, newItems));
    }

    /** `upsert`: each product is looked up and updated or inserted in the
        session, which is committed at the end. A product without an id
        raises out of the error handler, so nothing is committed. */
    method Upsert(products: seq<Record>, lookupFails: Value -> bool) returns (r: Result<()>)
      modifies this
      ensures r.Ok? <==> HasIds(products)
      ensures rows == if HasIds(products) then Applied(old(rows), products, lookupFails) else old(rows)
    {
      var session := rows;
      for i := 0 to |products|
        invariant HasIds(products[..i])
        invariant session == Applied(rows, products[..i], lookupFails)
        invariant rows == old(rows)
      {
        var product := products[i];
        assert products[..i + 1][..i] == products[..i];
        if ProductIdField !in product {
          return Err(KeyError);
        }
        var id := product[ProductIdField];
        if lookupFails(id) {
          continue;
        }
        if id in session {
          session := session[id := session[id] + Persisted(product)];
        } else if product.Keys <= Columns {
          session := session[id := product];
        }
      }
      assert products[..|products|] == products;
      rows := session;
      r := Ok(());
    }
  }
}
