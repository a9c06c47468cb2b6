/** The reconciliation pipeline of ikea/pipeline.py: deduplicating a crawled
    batch by `product_id`, splitting it against the store, translating the
    descriptions of the new products only, flattening the batch the way the
    data frame does, and the per-field coverage report.

    A data frame is a sequence of records that all carry the same columns;
    a column a record lacks holds `Null` (pandas' NaN). What the secondary
    market (montikea.com) answers for a product and a locale is an input. */
module Pipeline {
  import opened Values
  import Client
  import Storage

  // ---------------------------------------------------------------------
  // Data frames
  // ---------------------------------------------------------------------

  /** The columns of `pd.DataFrame(records)`: every key of some record. */
  function ColumnsOf(rs: seq<Record>): (cols: set<string>)
    ensures forall k :: k in cols <==> exists i :: 0 <= i < |rs| && k in rs[i]
    decreases |rs|
  {
    if rs == [] then {}
    else
      var init := rs[..|rs| - 1];
      assert forall i :: 0 <= i < |init| ==> init[i] == rs[i];
      ColumnsOf(init) + rs[|rs| - 1].Keys
  }

  /** A record as a row of a frame with columns `cols`: the columns it
      lacks hold `Null`. */
  function Filled(r: Record, cols: set<string>): (row: Record)
    ensures row.Keys == r.Keys + cols
    ensures forall k :: k in r ==> row[k] == r[k]
    ensures forall k :: k in cols && k !in r ==> row[k] == Null
  {
    map k | k in r.Keys + cols :: if k in r then r[k] else Null
  }

  /** `pd.DataFrame(records).to_dict(orient='records')`. */
  function Frame(rs: seq<Record>): (f: seq<Record>)
    ensures |f| == |rs|
    ensures forall i :: 0 <= i < |rs| ==> f[i] == Filled(rs[i], ColumnsOf(rs))
  {
    seq(|rs|, i requires 0 <= i < |rs| => Filled(rs[i], ColumnsOf(rs)))
  }

  /** Framing keeps every record's id; a missing id reads as `Null`. */
  lemma {:induction false} FrameIds(rs: seq<Record>)
    ensures IdsOf(Frame(rs)) == IdsOf(rs)
  {
    var f := Frame(rs);
    forall i | 0 <= i < |rs| ensures IdsOf(f)[i] == IdsOf(rs)[i] {
      assert ProductIdField in rs[i] ==> ProductIdField in ColumnsOf(rs);
    }
  }

  // ---------------------------------------------------------------------
  // drop_duplicates(subset=['product_id'])
  // ---------------------------------------------------------------------

  /** No earlier record has the id of record `i`. */
  predicate FirstOfId(rs: seq<Record>, i: nat)
    requires i < |rs|
  {
    forall j :: 0 <= j < i ==> IdOf(rs[j]) != IdOf(rs[i])
  }

  function KeptUpTo(rs: seq<Record>, n: nat): seq<Record>
    requires n <= |rs|
    decreases n
  {
    if n == 0 then []
    else KeptUpTo(rs, n - 1) + (if FirstOfId(rs, n - 1) then [rs[n - 1]] else [])
  }

  /** pandas' `drop_duplicates` with its default `keep='first'`: the first
      record of each id, in order. */
  function DropDuplicates(rs: seq<Record>): seq<Record> {
    KeptUpTo(rs, |rs|)
  }

  /** The positions, in increasing order, of the records before `n` that
      come first with their id. */
  function FirstIndices(rs: seq<Record>, n: nat): (idx: seq<nat>)
    requires n <= |rs|
    ensures forall k :: 0 <= k < |idx| ==> idx[k] < n && FirstOfId(rs, idx[k])
    ensures forall k, l :: 0 <= k < l < |idx| ==> idx[k] < idx[l]
    ensures forall i :: 0 <= i < n && FirstOfId(rs, i) ==> i in idx
    decreases n
  {
    if n == 0 then []
    else FirstIndices(rs, n - 1) + (if FirstOfId(rs, n - 1) then [n - 1] else [])
  }

  lemma {:induction false} KeptAtFirstIndices(rs: seq<Record>, n: nat)
    requires n <= |rs|
    ensures |KeptUpTo(rs, n)| == |FirstIndices(rs, n)|
    ensures forall k :: 0 <= k < |KeptUpTo(rs, n)| ==> KeptUpTo(rs, n)[k] == rs[FirstIndices(rs, n)[k]]
    decreases n
  {
    if n > 0 {
      KeptAtFirstIndices(rs, n - 1);
    }
  }

  /** Deduplication keeps exactly the first record of every id and keeps
      them in their input order. */
  lemma {:induction false} DropDuplicatesKeepsFirst(rs: seq<Record>)
    ensures var d := DropDuplicates(rs); var idx := FirstIndices(rs, |rs|);
      |d| == |idx| && forall k :: 0 <= k < |d| ==> d[k] == rs[idx[k]]
  {
    KeptAtFirstIndices(rs, |rs|);
  }

  /** After deduplication every id occurs at most once. */
  lemma {:induction false} DropDuplicatesUnique(rs: seq<Record>)
    ensures NoDup(IdsOf(DropDuplicates(rs)))
  {
    DropDuplicatesKeepsFirst(rs);
    var d := DropDuplicates(rs);
    var idx := FirstIndices(rs, |rs|);
    forall k, l | 0 <= k < l < |d| ensures IdsOf(d)[k] != IdsOf(d)[l] {
      assert idx[k] < idx[l] && FirstOfId(rs, idx[l]);
    }
  }

  /** The first record with the id of record `i`. */
  lemma {:induction false} FirstOccurrence(rs: seq<Record>, i: nat) returns (j: nat)
    requires i < |rs|
    ensures j <= i && FirstOfId(rs, j) && IdOf(rs[j]) == IdOf(rs[i])
    decreases i
  {
    if FirstOfId(rs, i) {
      j := i;
    } else {
      var j0 :| 0 <= j0 < i && IdOf(rs[j0]) == IdOf(rs[i]);
      j := FirstOccurrence(rs, j0);
    }
  }

  /** The id of record `i` survives deduplication, with the first record
      that carries it. */
  lemma KeptId(rs: seq<Record>, i: nat)
    requires i < |rs|
    ensures IdOf(rs[i]) in IdsOf(DropDuplicates(rs))
  {
    DropDuplicatesKeepsFirst(rs);
    var d := DropDuplicates(rs);
    var idx := FirstIndices(rs, |rs|);
    var j := FirstOccurrence(rs, i);
    var k :| 0 <= k < |idx| && idx[k] == j;
    assert IdsOf(d)[k] == IdOf(rs[i]);
  }

  /** No id is lost by deduplication. */
  lemma DropDuplicatesKeepsIds(rs: seq<Record>)
    ensures forall i :: 0 <= i < |rs| ==> IdOf(rs[i]) in IdsOf(DropDuplicates(rs))
  {
    forall i | 0 <= i < |rs| ensures IdOf(rs[i]) in IdsOf(DropDuplicates(rs)) {
      KeptId(rs, i);
    }
  }

  // ---------------------------------------------------------------------
  // _translate_description_to_lang
  // ---------------------------------------------------------------------

  /** A montikea.com product page as parsed: the text of the first `p` in
      the `product__info` block and the stripped text of the
      `product__description` block, each `None` when the element is
      missing (the attribute access then raises). */
  datatype MontikeaPage = MontikeaPage(info: Option<string>, description: Option<string>)

  /** The answer to a product request: the request raised, or a page. */
  datatype MontikeaReply = MontikeaFailed | MontikeaAnswered(page: MontikeaPage)

  /** The outside world of the pipeline: montikea.com, keyed by the padded
      id and the locale, and Python's `repr` of values `str()` spells that
      way. */
  datatype Env = Env(montikea: (string, string) -> MontikeaReply, repr: Value -> string)

  predicate ValidLang(lang: string) { lang == "ru" || lang == "en" }

  function ShortKey(lang: string): string { "product_description_" + lang }

  function LongKey(lang: string): string { "product_long_description_" + lang }

  lemma DescriptionKeys(lang: string)
    requires ValidLang(lang)
    ensures ShortKey(lang) != LongKey(lang)
    ensures ShortKey(lang) != ProductIdField && LongKey(lang) != ProductIdField
  {
    assert ShortKey(lang)[8] == 'd' && LongKey(lang)[8] == 'l';
    assert ProductIdField[8] == 'i';
  }

  /** `str(v)`; a missing value (NaN) reads `nan`. */
  function Text(v: Value, repr: Value -> string): string {
    if v.Null? then "nan" else PyStr(v, repr)
  }

  /** What montikea.com answers for an item: a missing `product_id` raises
      inside the request's `try` like a failed request. */
  function ReplyFor(item: Record, lang: string, env: Env): MontikeaReply {
    if ProductIdField in item then env.montikea(Client.MontikeaId(Text(item[ProductIdField], env.repr)), lang)
    else MontikeaFailed
  }

  /** Both descriptions were read off the page. */
  predicate Described(item: Record, lang: string, env: Env) {
    var reply := ReplyFor(item, lang, env);
    reply.MontikeaAnswered? && reply.page.info.Some? && reply.page.description.Some?
  }

  /** The item after `_translate_description_to_lang` with a valid
      language: both descriptions in that language are set, to the page's
      texts when both were read and to `''` otherwise; no other field
      changes. */
  function Localised(item: Record, lang: string, env: Env): (r: Record)
    requires ValidLang(lang)
    ensures r.Keys == item.Keys + {ShortKey(lang), LongKey(lang)}
    ensures forall k :: k in item && k != ShortKey(lang) && k != LongKey(lang) ==> r[k] == item[k]
    ensures !Described(item, lang, env) ==> r[ShortKey(lang)] == Str("") && r[LongKey(lang)] == Str("")
    ensures Described(item, lang, env) ==>
      r[ShortKey(lang)] == Str(ReplyFor(item, lang, env).page.info.value) &&
      r[LongKey(lang)] == Str(ReplyFor(item, lang, env).page.description.value)
  {
    DescriptionKeys(lang);
    if Described(item, lang, env) then
      var page := ReplyFor(item, lang, env).page;
      item[ShortKey(lang) := Str(page.info.value)][LongKey(lang) := Str(page.description.value)]
    else item[ShortKey(lang) := Str("")][LongKey(lang) := Str("")]
  }

  /** `_translate_description_to_lang`: the language check, then the
      request, then the two fields one after the other; a failure after the
      first field was set resets both. */
  method TranslateDescriptionToLang(item: Record, lang: string, env: Env) returns (r: Result<Record>)
    ensures !ValidLang(lang) ==> r == Err(ValueError)
    ensures ValidLang(lang) ==> r == Ok(Localised(item, lang, env))
  {
    if lang != "ru" && lang != "en" {
      return Err(ValueError);
    }
    DescriptionKeys(lang);
    var short, long := ShortKey(lang), LongKey(lang);
    var it := item;
    var reply := ReplyFor(item, lang, env);
    if reply.MontikeaFailed? {
      it := it[short := Str("")];
      it := it[long := Str("")];
    } else {
      var page := reply.page;
      if page.info.None? {
        it := it[short := Str("")];
        it := it[long := Str("")];
      } else {
        ghost var before := it;
        it := it[short := Str(page.info.value)];
        if page.description.None? {
          it := it[short := Str("")];
          it := it[long := Str("")];
          assert it == before[short := Str("")][long := Str("")];
        } else {
          it := it[long := Str(page.description.value)];
        }
      }
    }
    assert it == Localised(item, lang, env);
    r := Ok(it);
  }

  /** `_translate_description_fields`: Russian, then English. */
  function Translated(item: Record, env: Env): Record {
    Localised(Localised(item, "ru", env), "en", env)
  }

  /** Translation writes the four description fields and nothing else; in
      particular the product keeps its id. */
  lemma TranslatedKeepsOtherFields(item: Record, env: Env)
    ensures var t := Translated(item, env);
      t.Keys == item.Keys + {ShortKey("ru"), LongKey("ru"), ShortKey("en"), LongKey("en")} &&
      (forall k :: k in item && k !in {ShortKey("ru"), LongKey("ru"), ShortKey("en"), LongKey("en")} ==> t[k] == item[k]) &&
      IdOf(t) == IdOf(item)
  {
    DescriptionKeys("ru");
    DescriptionKeys("en");
  }

  method TranslateDescriptionFields(item: Record, env: Env) returns (r: Record)
    ensures r == Translated(item, env)
  {
    var ru := TranslateDescriptionToLang(item, "ru", env);
    var en := TranslateDescriptionToLang(ru.value, "en", env);
    r := en.value;
  }

  /** The loop of `process_items` that translates each new item where it
      stands. */
  method TranslateItems(items: seq<Record>, env: Env) returns (translated: seq<Record>)
    ensures translated == TranslatedAll(items, env)
  {
    translated := items;
    for i := 0 to |items|
      invariant |translated| == |items|
      invariant forall k :: 0 <= k < i ==> translated[k] == Translated(items[k], env)
      invariant forall k :: i <= k < |items| ==> translated[k] == items[k]
    {
      var t := TranslateDescriptionFields(translated[i], env);
      translated := translated[i := t];
    }
  }

  function TranslatedAll(items: seq<Record>, env: Env): (ts: seq<Record>)
    ensures |ts| == |items| && forall i :: 0 <= i < |items| ==> ts[i] == Translated(items[i], env)
  {
    seq(|items|, i requires 0 <= i < |items| => Translated(items[i], env))
  }

  lemma {:induction false} TranslatedAllIds(items: seq<Record>, env: Env)
    ensures IdsOf(TranslatedAll(items, env)) == IdsOf(items)
  {
    forall i | 0 <= i < |items| ensures IdOf(TranslatedAll(items, env)[i]) == IdOf(items[i]) {
      TranslatedKeepsOtherFields(items[i], env);
    }
  }

  // ---------------------------------------------------------------------
  // Flattening and the report
  // ---------------------------------------------------------------------

  /** The list-typed columns `process_items` turns into their `str()`. */
  const ListColumns: set<string> := {"other_image_urls", "product_parts", "breadcrumb_categories", "category_tags"}

  /** A frame row with its list columns replaced by their text. */
  function Stringified(row: Record, repr: Value -> string): (s: Record)
    ensures s.Keys == row.Keys
    ensures forall k :: k in row && k in ListColumns ==> s[k] == Str(Text(row[k], repr))
    ensures forall k :: k in row && k !in ListColumns ==> s[k] == row[k]
  {
    map k | k in row :: if k in ListColumns then Str(Text(row[k], repr)) else row[k]
  }

  function StringifiedAll(rows: seq<Record>, repr: Value -> string): (ss: seq<Record>)
    ensures |ss| == |rows| && forall i :: 0 <= i < |rows| ==> ss[i] == Stringified(rows[i], repr)
  {
    seq(|rows|, i requires 0 <= i < |rows| => Stringified(rows[i], repr))
  }

  /** `fillna(0)`: every missing value becomes 0. */
  function FillNa(row: Record): (f: Record)
    ensures f.Keys == row.Keys
    ensures forall k :: k in row ==> f[k] == (if row[k].Null? then Int(0) else row[k])
  {
    map k | k in row :: if row[k].Null? then Int(0) else row[k]
  }

  function FillNaAll(rows: seq<Record>): (fs: seq<Record>)
    ensures |fs| == |rows| && forall i :: 0 <= i < |rows| ==> fs[i] == FillNa(rows[i])
  {
    seq(|rows|, i requires 0 <= i < |rows| => FillNa(rows[i]))
  }

  /** A field counts as present when it is neither missing nor `''`. */
  predicate Present(r: Record, k: string) {
    k in r && !r[k].Null? && r[k] != Str("")
  }

  /** The number of records in which field `k` is present. */
  function Count(rs: seq<Record>, k: string): nat
    decreases |rs|
  {
    if rs == [] then 0 else Count(rs[..|rs| - 1], k) + (if Present(rs[|rs| - 1], k) then 1 else 0)
  }

  lemma {:induction false} CountBounds(rs: seq<Record>, k: string)
    ensures Count(rs, k) <= |rs|
    ensures Count(rs, k) == |rs| <==> forall i :: 0 <= i < |rs| ==> Present(rs[i], k)
    ensures Count(rs, k) == 0 <==> forall i :: 0 <= i < |rs| ==> !Present(rs[i], k)
    decreases |rs|
  {
    if rs != [] {
      var init := rs[..|rs| - 1];
      CountBounds(init, k);
      assert forall i :: 0 <= i < |init| ==> init[i] == rs[i];
    }
  }

  /** `{'total_products': n, field: percentage, ...}`. */
  datatype Report = Report(total: nat, coverage: map<string, nat>)

  /** `_generate_report`: for each column, the whole percentage of records
      in which it is present. */
  function CoverageReport(rs: seq<Record>): Report {
    if rs == [] then Report(0, map[])
    else Report(|rs|, map k | k in ColumnsOf(rs) :: Count(rs, k) * 100 / |rs|)
  }

  lemma MulMono(a: int, b: int, n: int)
    requires n > 0 && a < b
    ensures a * n < b * n
  {
    assert b * n == a * n + (b - a) * n;
  }

  /** Euclidean division brackets its dividend. */
  lemma DivBrackets(a: nat, n: nat)
    requires n > 0
    ensures (a / n) * n <= a < (a / n + 1) * n
  {
    assert a == (a / n) * n + a % n;
  }

  /** `c * 100 / n` is the truncated percentage of `c` out of `n`. */
  lemma PercentBounds(c: nat, n: nat)
    requires 0 < n && c <= n
    ensures var p := c * 100 / n;
      p * n <= c * 100 < (p + 1) * n && p <= 100 &&
      (p == 100 <==> c == n) && (c == 0 ==> p == 0)
  {
    var p := c * 100 / n;
    DivBrackets(c * 100, n);
    if p > 100 {
      PercentAtMostHundred(c, n, p);
    }
    if c < n && p == 100 {
      MulMono(c, n, 100);
      assert false;
    }
    if c == n && p != 100 {
      PercentOfWhole(n, p);
    }
    if c == 0 && p != 0 {
      PercentOfNothing(n, p);
    }
  }

  lemma PercentAtMostHundred(c: nat, n: nat, p: int)
    requires 0 < n && c <= n && p * n <= c * 100
    ensures p <= 100
  {
    if p > 100 {
      MulMono(100, p, n);
      MulMono(c, n + 1, 100);
      assert false;
    }
  }

  lemma PercentOfWhole(n: nat, p: int)
    requires 0 < n && p * n <= n * 100 < (p + 1) * n
    ensures p == 100
  {
    if p < 100 {
      MulMono(p + 1, 101, n);
      assert false;
    }
    if p > 100 {
      MulMono(100, p, n);
      assert false;
    }
  }

  lemma PercentOfNothing(n: nat, p: int)
    requires 0 < n && p * n <= 0 < (p + 1) * n
    ensures p == 0
  {
    if p > 0 {
      MulMono(0, p, n);
      assert false;
    }
    if p < 0 {
      MulMono(p + 1, 1, n);
      assert false;
    }
  }

  /** The report covers every column; each figure is the truncated
      percentage of records with that field present, so it is at most 100,
      it is 100 exactly when every record has the field and 0 when none
      does. */
  lemma {:induction false} ReportCoverage(rs: seq<Record>, k: string)
    requires k in ColumnsOf(rs)
    ensures var rep := CoverageReport(rs);
      rep.total == |rs| > 0 && k in rep.coverage &&
      rep.coverage[k] * |rs| <= Count(rs, k) * 100 < (rep.coverage[k] + 1) * |rs| &&
      rep.coverage[k] <= 100 &&
      (rep.coverage[k] == 100 <==> forall i :: 0 <= i < |rs| ==> Present(rs[i], k)) &&
      ((forall i :: 0 <= i < |rs| ==> !Present(rs[i], k)) ==> rep.coverage[k] == 0)
  {
    CountBounds(rs, k);
    assert rs != [];
    PercentBounds(Count(rs, k), |rs|);
  }

  /** A field set in three records out of four is reported at 75. */
  lemma {:induction false} ThreeOfFour(a: Record, b: Record, c: Record, d: Record)
    requires Present(a, "price_hr") && Present(b, "price_hr") && Present(c, "price_hr")
    requires "price_hr" in d && d["price_hr"] == Null
    ensures CoverageReport([a, b, c, d]).coverage["price_hr"] == 75
  {
    var k := "price_hr";
    var rs := [a, b, c, d];
    assert [a][..0] == [];
    assert Count([a], k) == 1;
    assert [a, b][..1] == [a];
    assert Count([a, b], k) == 2;
    assert [a, b, c][..2] == [a, b];
    assert Count([a, b, c], k) == 3;
    assert rs[..3] == [a, b, c];
    assert !Present(d, k);
    assert Count(rs, k) == 3;
    assert "price_hr" in ColumnsOf(rs) by { assert "price_hr" in rs[3]; }
  }

  // ---------------------------------------------------------------------
  // process_items
  // ---------------------------------------------------------------------

  /** Some record has a `product_id`, so the frame has that column;
      `drop_duplicates` raises `KeyError` otherwise. */
  predicate HasIdColumn(items: seq<Record>) {
    exists i :: 0 <= i < |items| && ProductIdField in items[i]
  }

  /** The split of a deduplicated batch: the store's answer, or every item
      as existing when `get_diff` raised. */
  function Split(batch: seq<Record>, rows: Storage.Table, lookupFails: Value -> bool): Storage.Diff {
    if Storage.Answerable(batch, lookupFails) then
      Storage.Diff(Storage.Where(batch, rows, true), Storage.Where(batch, rows, false))
    else Storage.Diff(batch, [])
  }

  /** The batch after translation: the existing items as they were, then
      the new items translated. */
  function Combined(batch: seq<Record>, rows: Storage.Table, lookupFails: Value -> bool, env: Env): seq<Record> {
    var split := Split(batch, rows, lookupFails);
    split.existing + TranslatedAll(split.newItems, env)
  }

  datatype Processed = Processed(items: seq<Record>, report: Report)

  /** What `process_items` returns and the report it records. */
  function ProcessedItems(items: seq<Record>, rows: Storage.Table, lookupFails: Value -> bool, env: Env): Result<Processed> {
    if !HasIdColumn(items) then Err(KeyError)
    else
      var batch := DropDuplicates(Frame(items));
      var flat := StringifiedAll(Frame(Combined(batch, rows, lookupFails, env)), env.repr);
      Ok(Processed(FillNaAll(flat), CoverageReport(flat)))
  }

  /** When the store cannot be asked, every item counts as existing and
      nothing is translated: the batch goes on unchanged. */
  lemma {:induction false} UnreachableStoreSkipsTranslation(batch: seq<Record>, rows: Storage.Table, lookupFails: Value -> bool, env: Env)
    requires !Storage.Answerable(batch, lookupFails)
    ensures Split(batch, rows, lookupFails).newItems == []
    ensures Combined(batch, rows, lookupFails, env) == batch
  {
    assert TranslatedAll([], env) == [];
  }

  lemma {:induction false} IdInIds(rs: seq<Record>, x: Record)
    requires x in rs
    ensures IdOf(x) in IdsOf(rs)
  {
    var i :| 0 <= i < |rs| && rs[i] == x;
    assert IdsOf(rs)[i] == IdOf(x);
  }

  /** Each half of the split has distinct ids when the batch has. */
  lemma {:induction false} WhereNoDup(batch: seq<Record>, rows: Storage.Table, stored: bool)
    requires NoDup(IdsOf(batch))
    ensures NoDup(IdsOf(Storage.Where(batch, rows, stored)))
    decreases |batch|
  {
    if batch != [] {
      var init := batch[..|batch| - 1];
      var p := batch[|batch| - 1];
      var ids := IdsOf(batch);
      assert IdsOf(init) == ids[..|init|];
      WhereNoDup(init, rows, stored);
      var w0 := Storage.Where(init, rows, stored);
      if (IdOf(p) in rows) == stored {
        var w := w0 + [p];
        assert w == Storage.Where(batch, rows, stored);
        assert IdOf(p) !in IdsOf(init) by {
          forall i | 0 <= i < |init| ensures IdsOf(init)[i] != IdOf(p) {
            assert ids[i] != ids[|batch| - 1];
          }
        }
        Storage.WhereMembers(init, rows, stored);
        var wi := IdsOf(w);
        forall i, j | 0 <= i < j < |w| ensures wi[i] != wi[j] {
          if j == |w0| {
            assert w0[i] in w0;
            IdInIds(init, w0[i]);
          } else {
            assert wi[i] == IdsOf(w0)[i] && wi[j] == IdsOf(w0)[j];
          }
        }
      }
    }
  }

  lemma NoDupConcat(a: seq<Value>, b: seq<Value>)
    requires NoDup(a) && NoDup(b)
    requires forall x :: x in a ==> x !in b
    ensures NoDup(a + b)
  {
    forall i, j | 0 <= i < j < |a + b| ensures (a + b)[i] != (a + b)[j] {
      if j < |a| {
        assert (a + b)[i] == a[i] && (a + b)[j] == a[j];
      } else if i < |a| {
        assert (a + b)[i] == a[i] && (a + b)[j] == b[j - |a|];
        assert a[i] in a && b[j - |a|] in b;
      } else {
        assert (a + b)[i] == b[i - |a|] && (a + b)[j] == b[j - |a|];
      }
    }
  }

  /** The ids of a half of the split are stored, or not, as that half
      requires, and are ids of the batch. */
  lemma {:induction false} WhereIdsIn(batch: seq<Record>, rows: Storage.Table, stored: bool)
    ensures forall v :: v in IdsOf(Storage.Where(batch, rows, stored)) ==> (v in rows) == stored && v in IdsOf(batch)
  {
    var w := Storage.Where(batch, rows, stored);
    Storage.WhereMembers(batch, rows, stored);
    forall v | v in IdsOf(w) ensures (v in rows) == stored && v in IdsOf(batch) {
      var i :| 0 <= i < |w| && IdsOf(w)[i] == v;
      assert w[i] in w;
      IdInIds(batch, w[i]);
    }
  }

  /** Putting the stored half before a relabelling of the new half that
      keeps its ids yields the batch's ids once each. */
  lemma {:induction false} HalvesRejoin(batch: seq<Record>, rows: Storage.Table, nw: seq<Record>)
    requires NoDup(IdsOf(batch))
    requires IdsOf(nw) == IdsOf(Storage.Where(batch, rows, false))
    ensures var c := Storage.Where(batch, rows, true) + nw;
      |c| == |batch| && NoDup(IdsOf(c)) && forall v :: v in IdsOf(c) ==> v in IdsOf(batch)
  {
    var ex := Storage.Where(batch, rows, true);
    Storage.WherePartitions(batch, rows);
    WhereNoDup(batch, rows, true);
    WhereNoDup(batch, rows, false);
    WhereIdsIn(batch, rows, true);
    WhereIdsIn(batch, rows, false);
    IdsOfAppend(ex, nw);
    NoDupConcat(IdsOf(ex), IdsOf(nw));
  }

  /** After reconciliation the batch still holds each product once: the
      existing and the new items partition the deduplicated batch, the
      existing ones are stored, the new ones are not, and translation
      keeps every id. */
  lemma {:induction false} CombinedIsBatch(batch: seq<Record>, rows: Storage.Table, lookupFails: Value -> bool, env: Env)
    requires NoDup(IdsOf(batch))
    ensures var c := Combined(batch, rows, lookupFails, env);
      |c| == |batch| && NoDup(IdsOf(c)) && forall v :: v in IdsOf(c) ==> v in IdsOf(batch)
  {
    if !Storage.Answerable(batch, lookupFails) {
      UnreachableStoreSkipsTranslation(batch, rows, lookupFails, env);
    } else {
      var nw0 := Storage.Where(batch, rows, false);
      TranslatedAllIds(nw0, env);
      HalvesRejoin(batch, rows, TranslatedAll(nw0, env));
    }
  }

  /** Only items whose id is not stored are translated; the stored ones
      come first and are passed on untouched. */
  lemma {:induction false} OnlyNewItemsTranslated(batch: seq<Record>, rows: Storage.Table, lookupFails: Value -> bool, env: Env)
    requires Storage.Answerable(batch, lookupFails)
    ensures var c := Combined(batch, rows, lookupFails, env);
      var n := |Storage.Where(batch, rows, true)|;
      n <= |c| &&
      (forall i :: 0 <= i < n ==> c[i] in batch && IdOf(c[i]) in rows) &&
      (forall i :: n <= i < |c| ==>
        (IdOf(c[i]) !in rows && exists p :: p in batch && c[i] == Translated(p, env)))
  {
    var ex := Storage.Where(batch, rows, true);
    var nw := Storage.Where(batch, rows, false);
    var c := Combined(batch, rows, lookupFails, env);
    assert c == ex + TranslatedAll(nw, env);
    Storage.WhereMembers(batch, rows, true);
    Storage.WhereMembers(batch, rows, false);
    forall i | |ex| <= i < |c| ensures IdOf(c[i]) !in rows && exists p :: p in batch && c[i] == Translated(p, env) {
      var j := i - |ex|;
      assert nw[j] in nw;
      assert c[i] == Translated(nw[j], env);
      TranslatedKeepsOtherFields(nw[j], env);
    }
    forall i | 0 <= i < |ex| ensures c[i] in batch && IdOf(c[i]) in rows {
      assert c[i] == ex[i] && ex[i] in ex;
    }
  }

  /** The whole of `process_items`: the returned batch has one record per
      distinct id of the input. */
  lemma {:induction false} ProcessedSize(items: seq<Record>, rows: Storage.Table, lookupFails: Value -> bool, env: Env)
    requires HasIdColumn(items)
    ensures ProcessedItems(items, rows, lookupFails, env).Ok?
    ensures |ProcessedItems(items, rows, lookupFails, env).value.items| == |DropDuplicates(Frame(items))|
    ensures ProcessedItems(items, rows, lookupFails, env).value.report.total == |DropDuplicates(Frame(items))|
  {
    var batch := DropDuplicates(Frame(items));
    DropDuplicatesUnique(Frame(items));
    CombinedIsBatch(batch, rows, lookupFails, env);
  }

  // ---------------------------------------------------------------------
  // The pipeline object
  // ---------------------------------------------------------------------

  class Pipeline {
    /** `_process_report`: `None` until a batch was processed. */
    var processReport: Option<Report>

    constructor ()
      ensures processReport == None
    {
      processReport := None;
    }

    /** `process_items`. */
    method ProcessItems(items: seq<Record>, store: Storage.Store, lookupFails: Value -> bool, env: Env)
      returns (r: Result<seq<Record>>)
      modifies this
      ensures var p := ProcessedItems(items, store.rows, lookupFails, env);
        (p.Err? ==> r == Err(p.error) && processReport == old(processReport)) &&
        (p.Ok? ==> r == Ok(p.value.items) && processReport == Some(p.value.report))
    {
      ghost var spec := ProcessedItems(items, store.rows, lookupFails, env);
      if !exists i :: 0 <= i < |items| && ProductIdField in items[i] {
        assert spec == Err(KeyError);
        return Err(KeyError);
      }
      var batch := DropDuplicates(Frame(items));

      var existing, newItems;
      var diff := store.GetDiff(batch, lookupFails);
      if diff.Err? {
        existing, newItems := batch, [];
      } else {
        existing, newItems := diff.value.existing, diff.value.newItems;
      }
      assert Split(batch, store.rows, lookupFails) == Storage.Diff(existing, newItems);

      var translated := TranslateItems(newItems, env);

      var all: seq<Record> := [];
      all := all + existing;
      assert all == existing;
      all := all + translated;
      assert all == existing + translated;
      ghost var split := Split(batch, store.rows, lookupFails);
      assert Combined(batch, store.rows, lookupFails, env) == split.existing + TranslatedAll(split.newItems, env);
      assert all == Combined(batch, store.rows, lookupFails, env);

      var flat := StringifiedAll(Frame(all), env.repr);
      assert spec == Ok(Processed(FillNaAll(flat), CoverageReport(flat)));
      processReport := Some(CoverageReport(flat));
      r := Ok(FillNaAll(flat));
    }
  }
}
