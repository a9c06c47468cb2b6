/** The crawl orchestration of ikea/crawler.py: normalising one listing into
    a product record, deduplicating by product id within a run, the optional
    global product cap, and the walk over the category tree.

    Every page the crawler fetches is an input: `Web` bundles what the
    detail page, the Croatian price page, the tag endpoint and the listing
    endpoint answer, each already parsed. */
module Crawler {
  import opened Values
  import Client

  // ---------------------------------------------------------------------
  // Inputs
  // ---------------------------------------------------------------------

  /** One entry of a listing's `availability` list; `store` is `None` when
      the entry has no `'store'` key. */
  datatype StoreStatus = StoreStatus(store: Option<string>, status: string)

  /** A product record of a category listing page. */
  datatype Listing = Listing(
    id: string,
    name: string,
    mainImageAlt: string,
    mainImageUrl: string,
    pipUrl: string,
    salesPrice: real,
    availability: seq<StoreStatus>,
    categoryPath: seq<CategoryNode>)

  /** One `p` of a package's measurement block: its text and the integer
      its value parses to (only the count of a `Pakovanje` line is used). */
  datatype Measurement = Measurement(text: string, count: int)

  /** One package block of the detail page: the part id and its lines. */
  datatype PackageBlock = PackageBlock(partId: int, measurements: seq<Measurement>)

  /** The fields read off a product's detail page. Volume, weight and the
      largest dimension are floating-point sums the parser computes. */
  datatype DetailPage = DetailPage(
    longDescription: string,
    materials: string,
    imageUrls: seq<string>,
    packages: seq<PackageBlock>,
    sumVolume: Option<real>,
    sumWeight: Option<real>,
    maxDimension: Option<real>,
    multiPack: bool)

  /** Fetching the detail page: the request raised, the page lacks an
      element the parser dereferences, or the page was read. */
  datatype DetailFetch = DetailUnreachable | DetailUnparsable | DetailFetched(page: DetailPage)

  /** The network as the crawler sees it. `hrPrice` is the price on the
      Croatian page (`None` on any failure), `listing` the listing endpoint
      of a subcategory id, and `listingEnd` a window at which that endpoint
      stops; `now` is the timestamp written into every record. */
  datatype Web = Web(
    hrPrice: string -> Option<real>,
    detail: string -> DetailFetch,
    tags: nat -> Client.TagsReply,
    listing: Option<string> -> Client.Endpoint<Listing>,
    listingEnd: Option<string> -> nat,
    now: string)

  /** Every listing endpoint eventually answers an empty page or fails. */
  ghost predicate ListingsEnd(web: Web) {
    forall id :: Client.Stops(Client.PageAt(web.listing(id), web.listingEnd(id)))
  }

  // ---------------------------------------------------------------------
  // The rules of _process_single_product
  // ---------------------------------------------------------------------

  /** `int(''.join(filter(str.isdigit, raw)))`: raises when there is no
      digit; otherwise the number spelt by the digits. */
  function NormaliseId(raw: string): (r: Result<nat>)
    ensures r.Err? <==> FilterDigits(raw) == []
    ensures r.Err? ==> r.error == ValueError
    ensures r.Ok? ==> r.value == DigitsValue(FilterDigits(raw))
  {
    var digits := FilterDigits(raw);
    if digits == [] then Err(ValueError) else Ok(DigitsValue(digits))
  }

  /** The decimal form of a normalised id is its digits without their
      leading zeros ("0" when they are all zeros). */
  lemma NormalisedIdDecimal(raw: string)
    requires NormaliseId(raw).Ok?
    ensures DecimalString(NormaliseId(raw).value) == CanonicalDigits(FilterDigits(raw))
  {
    CanonicalOfValue(FilterDigits(raw));
  }

  /** An id that already is a digit string of eight digits comes back
      unchanged from the secondary market's padding. */
  lemma NormalisedIdPadsBack(raw: string)
    requires AllDigits(raw) && |raw| == Client.MontikeaIdWidth
    ensures NormaliseId(raw).Ok?
    ensures Client.MontikeaId(DecimalString(NormaliseId(raw).value)) == raw
  {
    Client.MontikeaIdRoundTrip(raw);
  }

  /** `math.ceil(numeral * 1.44 / 117)`, in exact arithmetic. */
  function ConvertedPrice(numeral: real): (p: int)
    ensures (p - 1) as real < numeral * 1.44 / 117.0 <= p as real
  {
    -((-(numeral * 1.44 / 117.0)).Floor)
  }

  /** Python's `s[:n]`. */
  function Take(s: string, n: nat): string {
    if |s| <= n then s else s[..n]
  }

  /** Python's `s[n:]`. */
  function Drop(s: string, n: nat): string {
    if |s| <= n then [] else s[n..]
  }

  const HrLocale: string := "/hr/hr/"

  /** `url[:20] + '/hr/hr/' + url[27:]`. */
  function HrUrl(url: string): (r: string)
    ensures |url| >= 27 ==> |r| == |url|
    ensures |url| <= 20 ==> r == url + HrLocale
  {
    Take(url, 20) + HrLocale + Drop(url, 27)
  }

  /** On a URL made of a 20-character host, a 7-character locale segment
      and a rest, the rewrite swaps the locale for `/hr/hr/`. */
  lemma HrUrlSwapsLocale(host: string, locale: string, rest: string)
    requires |host| == 20 && |locale| == 7
    ensures HrUrl(host + locale + rest) == host + HrLocale + rest
  {
    var url := host + locale + rest;
    assert url[..20] == host;
    assert |url| == 27 ==> rest == [];
    assert |url| > 27 ==> url[27..] == rest;
  }

  const Beograd: string := "Beograd"
  const OutOfStock: string := "OUT_OF_STOCK"

  predicate AtBeograd(e: StoreStatus) { e.store == Some(Beograd) }

  /** The availability rule: the status of the last Belgrade entry decides;
      without one the product is unavailable. */
  function Availability(es: seq<StoreStatus>): bool
    decreases |es|
  {
    if es == [] then false
    else if AtBeograd(es[|es| - 1]) then es[|es| - 1].status != OutOfStock
    else Availability(es[..|es| - 1])
  }

  /** A product is available exactly when there is a Belgrade entry that is
      not out of stock and no Belgrade entry follows it. */
  lemma {:induction false} AvailabilityIsLastBeograd(es: seq<StoreStatus>)
    ensures Availability(es) <==>
      exists i :: 0 <= i < |es| && AtBeograd(es[i]) && es[i].status != OutOfStock &&
        forall j :: i < j < |es| ==> !AtBeograd(es[j])
    decreases |es|
  {
    if es != [] {
      var n := |es| - 1;
      var init := es[..n];
      AvailabilityIsLastBeograd(init);
      assert forall k :: 0 <= k < n ==> init[k] == es[k];
      if !AtBeograd(es[n]) && Availability(es) {
        var i :| 0 <= i < n && AtBeograd(init[i]) && init[i].status != OutOfStock &&
          forall j :: i < j < n ==> !AtBeograd(init[j]);
        assert forall j :: i < j < |es| ==> !AtBeograd(es[j]);
      }
    }
  }

  /** The loop over `prod['availability']`. */
  method ComputeAvailability(es: seq<StoreStatus>) returns (available: bool)
    ensures available == Availability(es)
  {
    available := false;
    for i := 0 to |es|
      invariant available == Availability(es[..i])
    {
      var entry := es[i];
      assert es[..i + 1][..i] == es[..i];
      if entry.store.None? {
        continue;
      }
      if entry.store.value != Beograd {
        continue;
      }
      available := !(entry.status == OutOfStock);
    }
    assert es[..|es|] == es;
  }

  /** A line read as a width, height, length or weight; the `elif` chain
      tests those before `Pakovanje`. */
  predicate IsDimensionLine(text: string) {
    Contains(text, "Širina") || Contains(text, "Visina") || Contains(text, "Dužina") || Contains(text, "Težina")
  }

  /** A line whose value is added to the package count. */
  predicate IsPackageLine(m: Measurement) {
    !IsDimensionLine(m.text) && Contains(m.text, "Pakovanje")
  }

  function BlockPackages(ms: seq<Measurement>): int
    decreases |ms|
  {
    if ms == [] then 0
    else BlockPackages(ms[..|ms| - 1]) + (if IsPackageLine(ms[|ms| - 1]) then ms[|ms| - 1].count else 0)
  }

  /** The sum of the `Pakovanje` counts over all package blocks. */
  function TotalPackages(blocks: seq<PackageBlock>): int
    decreases |blocks|
  {
    if blocks == [] then 0
    else TotalPackages(blocks[..|blocks| - 1]) + BlockPackages(blocks[|blocks| - 1].measurements)
  }

  /** The nested loop over package blocks and their lines that adds up
      `num_packages`. */
  method CountPackages(blocks: seq<PackageBlock>) returns (numPackages: int)
    ensures numPackages == TotalPackages(blocks)
  {
    numPackages := 0;
    for i := 0 to |blocks|
      invariant numPackages == TotalPackages(blocks[..i])
    {
      var ms := blocks[i].measurements;
      ghost var before := numPackages;
      for j := 0 to |ms|
        invariant numPackages == before + BlockPackages(ms[..j])
      {
        var m := ms[j];
        assert ms[..j + 1][..j] == ms[..j];
        if Contains(m.text, "Širina") {
        } else if Contains(m.text, "Visina") {
        } else if Contains(m.text, "Dužina") {
        } else if Contains(m.text, "Težina") {
        } else if Contains(m.text, "Pakovanje") {
          numPackages := numPackages + m.count;
        }
      }
      assert ms[..|ms|] == ms;
      assert blocks[..i + 1][..i] == blocks[..i];
    }
    assert blocks[..|blocks|] == blocks;
  }

  /** `num_packages if num_packages else None`: a zero total is absent. */
  function NumOfPackages(total: int): (r: Option<int>)
    ensures r.None? <==> total == 0
    ensures r.Some? ==> r.value == total
  {
    if total == 0 then None else Some(total)
  }

  predicate CountsPositive(blocks: seq<PackageBlock>) {
    forall b, m :: b in blocks && m in b.measurements && IsPackageLine(m) ==> m.count > 0
  }

  predicate HasPackageLine(blocks: seq<PackageBlock>) {
    exists b, m :: b in blocks && m in b.measurements && IsPackageLine(m)
  }

  lemma {:induction false} BlockPackagesPositive(ms: seq<Measurement>)
    requires forall m :: m in ms && IsPackageLine(m) ==> m.count > 0
    ensures BlockPackages(ms) >= 0
    ensures BlockPackages(ms) == 0 <==> forall m :: m in ms ==> !IsPackageLine(m)
    decreases |ms|
  {
    if ms != [] {
      var init := ms[..|ms| - 1];
      assert forall m :: m in init ==> m in ms;
      BlockPackagesPositive(init);
      assert forall m :: m in ms ==> m in init || m == ms[|ms| - 1];
    }
  }

  /** With positive counts, the package count is absent exactly when no
      package block has a `Pakovanje` line: "unknown" is never a zero. */
  lemma {:induction false} PackagesAbsentIffNoPackageLine(blocks: seq<PackageBlock>)
    requires CountsPositive(blocks)
    ensures TotalPackages(blocks) >= 0
    ensures NumOfPackages(TotalPackages(blocks)).None? <==> !HasPackageLine(blocks)
    decreases |blocks|
  {
    if blocks != [] {
      var init := blocks[..|blocks| - 1];
      var last := blocks[|blocks| - 1];
      assert forall b :: b in init ==> b in blocks;
      PackagesAbsentIffNoPackageLine(init);
      BlockPackagesPositive(last.measurements);
      assert forall b :: b in blocks ==> b in init || b == last;
    }
  }

  /** The tag fallback: the API's tags when it returned a non-empty list,
      the breadcrumb when it returned `None` or an empty list. */
  function ChooseTags(api: Option<seq<string>>, breadcrumb: seq<string>): (tags: seq<string>)
    ensures api.Some? && api.value != [] ==> tags == api.value
    ensures api.None? || api.value == [] ==> tags == breadcrumb
  {
    if api.Some? && api.value != [] then api.value else breadcrumb
  }

  function StrList(xs: seq<string>): (v: Value)
    ensures v.List? && |v.items| == |xs| && forall i :: 0 <= i < |xs| ==> v.items[i] == Str(xs[i])
  {
    if xs == [] then List([]) else List([Str(xs[0])] + StrList(xs[1..]).items)
  }

  function IntList(xs: seq<int>): (v: Value)
    ensures v.List? && |v.items| == |xs| && forall i :: 0 <= i < |xs| ==> v.items[i] == Int(xs[i])
  {
    if xs == [] then List([]) else List([Int(xs[0])] + IntList(xs[1..]).items)
  }

  function PartIds(blocks: seq<PackageBlock>): (ids: seq<int>)
    ensures |ids| == |blocks| && forall i :: 0 <= i < |blocks| ==> ids[i] == blocks[i].partId
  {
    if blocks == [] then [] else [blocks[0].partId] + PartIds(blocks[1..])
  }

  function OptionalReal(o: Option<real>): Value {
    if o.Some? then Real(o.value) else Null
  }

  function OptionalInt(o: Option<int>): Value {
    if o.Some? then Int(o.value) else Null
  }

  /** The product dictionary `_process_single_product` returns. */
  function BuildRecord(prod: Listing, id: nat, priceHr: Option<real>, available: bool, page: DetailPage,
                       numPackages: int, tags: seq<string>, now: string): (r: Record)
    ensures IdOf(r) == Int(id)
  {
    map[
      "product_name" := Str(prod.name),
      "product_description" := Str(ReplaceAll(prod.mainImageAlt, prod.name + " ", "")),
      "product_long_description" := Str(page.longDescription),
      ProductIdField := Int(id),
      "main_image_url" := Str(prod.mainImageUrl),
      "other_image_urls" := StrList(page.imageUrls),
      "product_url_ikea" := Str(prod.pipUrl),
      "price" := Int(ConvertedPrice(prod.salesPrice)),
      "price_rs" := Real(prod.salesPrice),
      "price_hr" := OptionalReal(priceHr),
      "availability" := Bool(available),
      "num_of_packages" := OptionalInt(NumOfPackages(numPackages)),
      "multi_pack" := Bool(page.multiPack),
      "product_parts" := IntList(PartIds(page.packages)),
      "sum_volume" := OptionalReal(page.sumVolume),
      "sum_weight" := OptionalReal(page.sumWeight),
      "materials" := Str(page.materials),
      "max_dimension" := OptionalReal(page.maxDimension),
      "modified_date" := Str(now),
      "breadcrumb_categories" := StrList(KeysOf(prod.categoryPath)),
      "category_tags" := StrList(tags)
    ]
  }

  /** The 21 fields of a crawled product. */
  const RecordFields: set<string> := {
    "product_name", "product_description", "product_long_description", ProductIdField,
    "main_image_url", "other_image_urls", "product_url_ikea", "price", "price_rs", "price_hr",
    "availability", "num_of_packages", "multi_pack", "product_parts", "sum_volume", "sum_weight",
    "materials", "max_dimension", "modified_date", "breadcrumb_categories", "category_tags"
  }

  /** A crawled product has exactly those fields. */
  lemma BuildRecordFields(prod: Listing, id: nat, priceHr: Option<real>, available: bool, page: DetailPage,
                          numPackages: int, tags: seq<string>, now: string)
    ensures var r := BuildRecord(prod, id, priceHr, available, page, numPackages, tags, now);
      r.Keys == RecordFields
  {
  }

  /** The tags it is given are under `category_tags`. */
  lemma BuildRecordTags(prod: Listing, id: nat, priceHr: Option<real>, available: bool, page: DetailPage,
                        numPackages: int, tags: seq<string>, now: string)
    ensures BuildRecord(prod, id, priceHr, available, page, numPackages, tags, now)["category_tags"] == StrList(tags)
  {
  }


  /** What one call of `_process_single_product` ends with: `None`, a
      product, or an exception. */
  datatype Outcome = Absent | Produced(record: Record) | Raised(error: Error)

  /** The part of `_process_single_product` after the id was recorded. */
  function EnrichNew(prod: Listing, id: nat, web: Web): (o: Outcome)
    ensures o.Produced? ==> IdOf(o.record) == Int(id)
  {
    match web.detail(prod.pipUrl)
    case DetailUnreachable => Absent
    case DetailUnparsable => Raised(ParseError)
    case DetailFetched(page) =>
      match Client.CategoryTags(web.tags(id))
      case Err(e) => Raised(e)
      case Ok(api) =>
        Produced(BuildRecord(prod, id, web.hrPrice(HrUrl(prod.pipUrl)), Availability(prod.availability),
                             page, TotalPackages(page.packages),
                             ChooseTags(api, KeysOf(prod.categoryPath)), web.now))
  }

  /** The outcome of one call and the seen-ids list after it. */
  datatype Step = Step(outcome: Outcome, seen: seq<int>)

  /** Once the product page is read, the call raises exactly when the tag
      request does; a produced record has the product fields, and its
      `category_tags` are the endpoint's non-empty `rangeIds` or else the
      breadcrumb: a status other than 200, a `null` entry and an empty list
      all fall back to the category path's keys. */
  lemma EnrichNewTags(prod: Listing, id: nat, web: Web)
    requires web.detail(prod.pipUrl).DetailFetched?
    ensures var o := EnrichNew(prod, id, web);
      var reply := web.tags(id);
      (o.Raised? <==> Client.CategoryTags(reply).Err?) &&
      (o.Produced? <==> Client.CategoryTags(reply).Ok?) &&
      (o.Produced? ==>
        o.record.Keys == RecordFields &&
        o.record["category_tags"] ==
          StrList(if reply.status == 200 && reply.rangeIds.RangeIdList? && reply.rangeIds.ids != []
                  then reply.rangeIds.ids else KeysOf(prod.categoryPath)))
  {
    var page := web.detail(prod.pipUrl).page;
    if Client.CategoryTags(web.tags(id)).Ok? {
      var api := Client.CategoryTags(web.tags(id)).value;
      var tags := ChooseTags(api, KeysOf(prod.categoryPath));
      var price, available, packages := web.hrPrice(HrUrl(prod.pipUrl)), Availability(prod.availability), TotalPackages(page.packages);
      assert EnrichNew(prod, id, web) == Produced(BuildRecord(prod, id, price, available, page, packages, tags, web.now));
      BuildRecordFields(prod, id, price, available, page, packages, tags, web.now);
      BuildRecordTags(prod, id, price, available, page, packages, tags, web.now);
    }
  }

  /** `_process_single_product` against the seen ids `seen`. */
  function Single(seen: seq<int>, prod: Listing, web: Web): Step {
    match NormaliseId(prod.id)
    case Err(e) => Step(Raised(e), seen)
    case Ok(id) =>
      if id in seen then Step(Absent, seen)
      else Step(EnrichNew(prod, id, web), seen + [id])
  }

  /** The rules of one call: an id without digits raises and records
      nothing; a seen id gives `None` and records nothing; a new id is
      recorded whatever happens after, so the seen list keeps no repeats;
      a product carries the id that was recorded for it. */
  lemma SingleRules(seen: seq<int>, prod: Listing, web: Web)
    ensures var s := Single(seen, prod, web);
      (NormaliseId(prod.id).Err? ==> s == Step(Raised(ValueError), seen)) &&
      (NormaliseId(prod.id).Ok? && NormaliseId(prod.id).value in seen ==> s == Step(Absent, seen)) &&
      (NormaliseId(prod.id).Ok? && NormaliseId(prod.id).value !in seen ==>
        s.seen == seen + [NormaliseId(prod.id).value]) &&
      (NoDup(seen) ==> NoDup(s.seen)) &&
      (s.outcome.Produced? ==>
        NormaliseId(prod.id).Ok? && NormaliseId(prod.id).value !in seen &&
        IdOf(s.outcome.record) == Int(NormaliseId(prod.id).value))
  {
  }

  // ---------------------------------------------------------------------
  // _process_products and run
  // ---------------------------------------------------------------------

  /** `self._num_products and n == self._num_products`. */
  predicate CapReached(cap: Option<int>, n: int) {
    cap.Some? && cap.value != 0 && n == cap.value
  }

  /** The state of a walk over one subcategory's listings: the products so
      far, the seen ids, and whether the cap was reached. */
  datatype Walk = Walk(processed: seq<Record>, seen: seq<int>, reached: bool)

  function StepListing(w: Walk, base: nat, cap: Option<int>, prod: Listing, web: Web): Walk {
    var s := Single(w.seen, prod, web);
    if s.outcome.Produced? then
      var processed := w.processed + [s.outcome.record];
      Walk(processed, s.seen, CapReached(cap, base + |processed|))
    else Walk(w.processed, s.seen, false)
  }

  /** The rest of `_process_products` from the walk state `w` on the
      listings still to come: nothing more happens once the cap is met. */
  function WalkFrom(w: Walk, base: nat, cap: Option<int>, listings: seq<Listing>, web: Web): Walk
    decreases |listings|
  {
    if listings == [] || w.reached then w
    else WalkFrom(StepListing(w, base, cap, listings[0], web), base, cap, listings[1..], web)
  }

  /** `_process_products` on `listings` when `base` products were collected
      before, `seen0` were the seen ids and `cap` is the product cap. */
  function WalkListings(seen0: seq<int>, base: nat, cap: Option<int>, listings: seq<Listing>, web: Web): Walk {
    WalkFrom(Walk([], seen0, false), base, cap, listings, web)
  }

  /** The walk over `a + b` is the walk over `a` continued over `b`. */
  lemma {:induction false} WalkFromAppend(w: Walk, base: nat, cap: Option<int>, a: seq<Listing>, b: seq<Listing>, web: Web)
    ensures WalkFrom(w, base, cap, a + b, web) == WalkFrom(WalkFrom(w, base, cap, a, web), base, cap, b, web)
    decreases |a|
  {
    if a == [] {
      assert a + b == b;
    } else if !w.reached {
      assert (a + b)[1..] == a[1..] + b;
      WalkFromAppend(StepListing(w, base, cap, a[0], web), base, cap, a[1..], b, web);
    }
  }

  /** Once the cap is met, the listings after it change nothing. */
  lemma WalkStaysReached(seen0: seq<int>, base: nat, cap: Option<int>, listings: seq<Listing>, n: nat, web: Web)
    requires n <= |listings|
    requires WalkListings(seen0, base, cap, listings[..n], web).reached
    ensures WalkListings(seen0, base, cap, listings, web) == WalkListings(seen0, base, cap, listings[..n], web)
  {
    assert listings == listings[..n] + listings[n..];
    WalkFromAppend(Walk([], seen0, false), base, cap, listings[..n], listings[n..], web);
  }

  /** What a walk below an active cap keeps true: it holds no more than the
      cap allows, and it is marked reached exactly when the cap is met. */
  predicate BelowCap(w: Walk, base: nat, cap: int) {
    base + |w.processed| <= cap && (w.reached <==> base + |w.processed| == cap)
  }

  lemma {:induction false} WalkFromRespectsCap(w: Walk, base: nat, cap: Option<int>, listings: seq<Listing>, web: Web)
    requires cap.Some? && cap.value != 0 && BelowCap(w, base, cap.value)
    ensures BelowCap(WalkFrom(w, base, cap, listings, web), base, cap.value)
    decreases |listings|
  {
    if listings != [] && !w.reached {
      WalkFromRespectsCap(StepListing(w, base, cap, listings[0], web), base, cap, listings[1..], web);
    }
  }

  /** With an active cap that was not yet met, the walk never collects more
      than the cap allows, and it stops exactly when the cap is met. */
  lemma WalkRespectsCap(seen0: seq<int>, base: nat, cap: Option<int>, listings: seq<Listing>, web: Web)
    requires cap.Some? && base < cap.value
    ensures var w := WalkListings(seen0, base, cap, listings, web);
      base + |w.processed| <= cap.value && (w.reached <==> base + |w.processed| == cap.value)
  {
    WalkFromRespectsCap(Walk([], seen0, false), base, cap, listings, web);
  }

  lemma {:induction false} WalkFromWithoutCap(w: Walk, base: nat, cap: Option<int>, listings: seq<Listing>, web: Web)
    requires cap.None? || cap.value == 0
    requires !w.reached
    ensures !WalkFrom(w, base, cap, listings, web).reached
    decreases |listings|
  {
    if listings != [] {
      WalkFromWithoutCap(StepListing(w, base, cap, listings[0], web), base, cap, listings[1..], web);
    }
  }

  /** Without an active cap the walk goes over every listing. */
  lemma WalkWithoutCap(seen0: seq<int>, base: nat, cap: Option<int>, listings: seq<Listing>, web: Web)
    requires cap.None? || cap.value == 0
    ensures !WalkListings(seen0, base, cap, listings, web).reached
  {
    WalkFromWithoutCap(Walk([], seen0, false), base, cap, listings, web);
  }

  /** A walk only appends to the products it started with. */
  lemma {:induction false} WalkFromGrows(w: Walk, base: nat, cap: Option<int>, listings: seq<Listing>, web: Web)
    ensures w.processed <= WalkFrom(w, base, cap, listings, web).processed
    decreases |listings|
  {
    if listings != [] && !w.reached {
      var w1 := StepListing(w, base, cap, listings[0], web);
      WalkFromGrows(w1, base, cap, listings[1..], web);
    }
  }

  lemma {:induction false} WalkFromCapped(w: Walk, base: nat, cap: Option<int>, listings: seq<Listing>, web: Web)
    requires cap.Some? && !w.reached && base + |w.processed| < cap.value
    ensures var c := WalkFrom(w, base, cap, listings, web); var u := WalkFrom(w, base, None, listings, web);
      (c.reached ==> c.processed <= u.processed && base + |c.processed| == cap.value) && (!c.reached ==> c == u)
    decreases |listings|
  {
    if listings != [] {
      var c1 := StepListing(w, base, cap, listings[0], web);
      var u1 := StepListing(w, base, None, listings[0], web);
      assert u1 == c1.(reached := false);
      if c1.reached {
        WalkFromGrows(u1, base, None, listings[1..], web);
      } else {
        WalkFromCapped(c1, base, cap, listings[1..], web);
      }
    }
  }

  /** The cap only cuts the walk short: below an active cap, the capped
      walk is the walk without a cap, or a prefix of its products that
      holds exactly the cap. So the cap is met whenever the listings give
      enough products. */
  lemma WalkCappedPrefix(seen0: seq<int>, base: nat, cap: Option<int>, listings: seq<Listing>, web: Web)
    requires cap.Some? && base < cap.value
    ensures var c := WalkListings(seen0, base, cap, listings, web); var u := WalkListings(seen0, base, None, listings, web);
      c.processed <= u.processed && (c.reached <==> base + |c.processed| == cap.value) &&
      (!c.reached ==> c == u) && (base + |u.processed| >= cap.value ==> c.reached)
  {
    WalkFromCapped(Walk([], seen0, false), base, cap, listings, web);
    WalkRespectsCap(seen0, base, cap, listings, web);
  }

  predicate IdsSeen(rs: seq<Record>, seen: seq<int>) {
    forall r :: r in rs ==> IdOf(r).Int? && IdOf(r).i in seen
  }

  lemma PrefixMembers<T>(a: seq<T>, b: seq<T>)
    requires a <= b
    ensures forall x :: x in a ==> x in b
  {
    forall x | x in a ensures x in b {
      var k :| 0 <= k < |a| && a[k] == x;
      assert b[k] == x;
    }
  }

  /** What a walk keeps true of its ids, from the seen ids `seen0` it
      started with: the seen list has no repeats and extends `seen0`, and
      the products carry distinct ids, all seen during the walk. */
  predicate WalkInvariant(w: Walk, seen0: seq<int>) {
    NoDup(w.seen) && seen0 <= w.seen && NoDup(IdsOf(w.processed)) && IdsSeen(w.processed, w.seen) &&
    forall r :: r in w.processed ==> IdOf(r).Int? && IdOf(r).i !in seen0
  }

  /** Seeing one more id that was not seen before keeps the invariant. */
  lemma SeeFresh(w: Walk, seen0: seq<int>, id: int, reached: bool)
    requires WalkInvariant(w, seen0) && id !in w.seen
    ensures WalkInvariant(Walk(w.processed, w.seen + [id], reached), seen0)
  {
    PrefixMembers(seen0, w.seen);
    PrefixMembers(w.seen, w.seen + [id]);
  }

  /** Adding a record whose id was just seen for the first time keeps the
      invariant. */
  lemma AddFresh(w: Walk, seen0: seq<int>, r: Record, id: int, reached: bool)
    requires WalkInvariant(w, seen0) && id !in w.seen && IdOf(r) == Int(id)
    ensures WalkInvariant(Walk(w.processed + [r], w.seen + [id], reached), seen0)
  {
    PrefixMembers(seen0, w.seen);
    IdsOfAppend(w.processed, [r]);
    var ids := IdsOf(w.processed + [r]);
    forall i, j | 0 <= i < j < |ids| ensures ids[i] != ids[j] {
      if j == |w.processed| {
        assert w.processed[i] in w.processed;
      }
    }
    assert forall q :: q in w.processed + [r] ==> q in w.processed || q == r;
    PrefixMembers(w.seen, w.seen + [id]);
  }

  lemma StepIds(w: Walk, seen0: seq<int>, base: nat, cap: Option<int>, prod: Listing, web: Web)
    requires WalkInvariant(w, seen0)
    ensures WalkInvariant(StepListing(w, base, cap, prod, web), seen0)
  {
    var s := Single(w.seen, prod, web);
    SingleRules(w.seen, prod, web);
    if NormaliseId(prod.id).Ok? && NormaliseId(prod.id).value !in w.seen {
      var id := NormaliseId(prod.id).value;
      if s.outcome.Produced? {
        AddFresh(w, seen0, s.outcome.record, id, StepListing(w, base, cap, prod, web).reached);
      } else {
        SeeFresh(w, seen0, id, false);
      }
    }
  }

  lemma {:induction false} WalkFromIds(w: Walk, seen0: seq<int>, base: nat, cap: Option<int>, listings: seq<Listing>, web: Web)
    requires WalkInvariant(w, seen0)
    ensures WalkInvariant(WalkFrom(w, base, cap, listings, web), seen0)
    decreases |listings|
  {
    if listings != [] && !w.reached {
      StepIds(w, seen0, base, cap, listings[0], web);
      WalkFromIds(StepListing(w, base, cap, listings[0], web), seen0, base, cap, listings[1..], web);
    }
  }

  /** Within a walk the seen ids only grow and never repeat, and the
      products it returns carry pairwise distinct ids, all newly seen. */
  lemma WalkIds(seen0: seq<int>, base: nat, cap: Option<int>, listings: seq<Listing>, web: Web)
    requires NoDup(seen0)
    ensures WalkInvariant(WalkListings(seen0, base, cap, listings, web), seen0)
  {
    WalkFromIds(Walk([], seen0, false), seen0, base, cap, listings, web);
  }

  /** The state of the walk over the category tree. `stopped` says that
      the loops broke off; `visited` lists the subcategories whose listings
      were processed. */
  datatype RunState = RunState(products: seq<Record>, seen: seq<int>, done: bool, stopped: bool,
                               visited: seq<Client.SubCategory>)

  /** The subcategory the walk skips by name. */
  const Restaurant: string := "Restoran i Bistro"

  function ListingOf(web: Web, sub: Client.SubCategory): Result<seq<Listing>>
    requires ListingsEnd(web)
  {
    Client.Paginated(web.listing(sub.id), web.listingEnd(sub.id))
  }

  /** One iteration of `run`'s inner loop. */
  function VisitSub(st: RunState, cap: Option<int>, sub: Client.SubCategory, web: Web): (r: RunState)
    requires ListingsEnd(web)
    ensures r != st ==> r.stopped == r.done && r.visited == st.visited + [sub]
  {
    if sub.name == Restaurant then st
    else match ListingOf(web, sub)
      case Err(_) => st
      case Ok(listings) =>
        var w := WalkListings(st.seen, |st.products|, cap, listings, web);
        var done := st.done || w.reached;
        RunState(st.products + w.processed, w.seen, done, done, st.visited + [sub])
  }

  /** `run`'s inner loop over the subcategories of one category. */
  function WalkSubs(st: RunState, cap: Option<int>, subs: seq<Client.SubCategory>, web: Web): RunState
    requires ListingsEnd(web)
    decreases |subs|
  {
    if subs == [] then st
    else
      var s := WalkSubs(st, cap, subs[..|subs| - 1], web);
      if s.stopped then s else VisitSub(s, cap, subs[|subs| - 1], web)
  }

  /** `run`'s outer loop; after each category it breaks off if `done`. */
  function WalkCategories(st: RunState, cap: Option<int>, cats: Client.CategoryTree, web: Web): RunState
    requires ListingsEnd(web)
    decreases |cats|
  {
    if cats == [] then st
    else
      var s := WalkCategories(st, cap, cats[..|cats| - 1], web);
      if s.stopped then s
      else
        var t := WalkSubs(s, cap, cats[|cats| - 1].subs, web);
        t.(stopped := t.done)
  }

  lemma WalkSubsNext(st: RunState, cap: Option<int>, subs: seq<Client.SubCategory>, j: nat, web: Web)
    requires ListingsEnd(web) && j < |subs| && !WalkSubs(st, cap, subs[..j], web).stopped
    ensures WalkSubs(st, cap, subs[..j + 1], web) == VisitSub(WalkSubs(st, cap, subs[..j], web), cap, subs[j], web)
  {
    assert subs[..j + 1][..j] == subs[..j];
  }

  lemma WalkCategoriesNext(st: RunState, cap: Option<int>, cats: Client.CategoryTree, i: nat, web: Web)
    requires ListingsEnd(web) && i < |cats| && !WalkCategories(st, cap, cats[..i], web).stopped
    ensures var t := WalkSubs(WalkCategories(st, cap, cats[..i], web), cap, cats[i].subs, web);
      WalkCategories(st, cap, cats[..i + 1], web) == t.(stopped := t.done)
  {
    assert cats[..i + 1][..i] == cats[..i];
  }

  /** Once the inner loop broke off, later subcategories are not visited. */
  lemma {:induction false} WalkSubsStops(st: RunState, cap: Option<int>, subs: seq<Client.SubCategory>, n: nat, web: Web)
    requires ListingsEnd(web) && n <= |subs|
    requires WalkSubs(st, cap, subs[..n], web).stopped
    ensures WalkSubs(st, cap, subs, web) == WalkSubs(st, cap, subs[..n], web)
    decreases |subs|
  {
    if n == |subs| {
      assert subs[..n] == subs;
    } else {
      var init := subs[..|subs| - 1];
      assert init[..n] == subs[..n];
      WalkSubsStops(st, cap, init, n, web);
    }
  }

  /** Once the outer loop broke off, later categories are not visited. */
  lemma {:induction false} WalkCategoriesStops(st: RunState, cap: Option<int>, cats: Client.CategoryTree, n: nat, web: Web)
    requires ListingsEnd(web) && n <= |cats|
    requires WalkCategories(st, cap, cats[..n], web).stopped
    ensures WalkCategories(st, cap, cats, web) == WalkCategories(st, cap, cats[..n], web)
    decreases |cats|
  {
    if n == |cats| {
      assert cats[..n] == cats;
    } else {
      var init := cats[..|cats| - 1];
      assert init[..n] == cats[..n];
      WalkCategoriesStops(st, cap, init, n, web);
    }
  }

  /** A run that starts below an active cap never exceeds it, and it ends
      with `done` set exactly when the cap was met. */
  predicate CapInvariant(st: RunState, cap: int) {
    st.stopped == st.done && (if st.done then |st.products| == cap else |st.products| < cap)
  }

  lemma VisitSubCap(st: RunState, cap: Option<int>, sub: Client.SubCategory, web: Web)
    requires ListingsEnd(web) && cap.Some?
    requires CapInvariant(st, cap.value) && !st.stopped
    ensures CapInvariant(VisitSub(st, cap, sub, web), cap.value)
  {
    if sub.name != Restaurant && ListingOf(web, sub).Ok? {
      WalkRespectsCap(st.seen, |st.products|, cap, ListingOf(web, sub).value, web);
    }
  }

  lemma {:induction false} WalkSubsCap(st: RunState, cap: Option<int>, subs: seq<Client.SubCategory>, web: Web)
    requires ListingsEnd(web) && cap.Some?
    requires CapInvariant(st, cap.value)
    ensures CapInvariant(WalkSubs(st, cap, subs, web), cap.value)
    decreases |subs|
  {
    if subs != [] {
      WalkSubsCap(st, cap, subs[..|subs| - 1], web);
      var s := WalkSubs(st, cap, subs[..|subs| - 1], web);
      if !s.stopped {
        VisitSubCap(s, cap, subs[|subs| - 1], web);
      }
    }
  }

  lemma {:induction false} RunRespectsCap(st: RunState, cap: Option<int>, cats: Client.CategoryTree, web: Web)
    requires ListingsEnd(web) && cap.Some?
    requires !st.done && !st.stopped && |st.products| < cap.value
    ensures var f := WalkCategories(st, cap, cats, web);
      |f.products| <= cap.value && (f.done <==> |f.products| == cap.value)
    decreases |cats|
  {
    RunCapInvariant(st, cap, cats, web);
  }

  lemma {:induction false} RunCapInvariant(st: RunState, cap: Option<int>, cats: Client.CategoryTree, web: Web)
    requires ListingsEnd(web) && cap.Some?
    requires CapInvariant(st, cap.value)
    ensures CapInvariant(WalkCategories(st, cap, cats, web), cap.value)
    decreases |cats|
  {
    if cats != [] {
      RunCapInvariant(st, cap, cats[..|cats| - 1], web);
      var s := WalkCategories(st, cap, cats[..|cats| - 1], web);
      if !s.stopped {
        WalkSubsCap(s, cap, cats[|cats| - 1].subs, web);
      }
    }
  }

  lemma VisitSubGrows(st: RunState, cap: Option<int>, sub: Client.SubCategory, web: Web)
    requires ListingsEnd(web)
    ensures st.products <= VisitSub(st, cap, sub, web).products
  {
  }

  lemma {:induction false} WalkSubsGrows(st: RunState, cap: Option<int>, subs: seq<Client.SubCategory>, web: Web)
    requires ListingsEnd(web)
    ensures st.products <= WalkSubs(st, cap, subs, web).products
    decreases |subs|
  {
    if subs != [] {
      WalkSubsGrows(st, cap, subs[..|subs| - 1], web);
      VisitSubGrows(WalkSubs(st, cap, subs[..|subs| - 1], web), cap, subs[|subs| - 1], web);
    }
  }

  /** The products of a run only grow. */
  lemma {:induction false} WalkCategoriesGrows(st: RunState, cap: Option<int>, cats: Client.CategoryTree, web: Web)
    requires ListingsEnd(web)
    ensures st.products <= WalkCategories(st, cap, cats, web).products
    decreases |cats|
  {
    if cats != [] {
      WalkCategoriesGrows(st, cap, cats[..|cats| - 1], web);
      WalkSubsGrows(WalkCategories(st, cap, cats[..|cats| - 1], web), cap, cats[|cats| - 1].subs, web);
    }
  }

  /** How a capped state `c` stands to the uncapped one `u`: equal while
      the cap is not met, and once it is met, a prefix of the uncapped
      products holding exactly the cap. */
  predicate CappedAgrees(c: RunState, u: RunState, cap: int) {
    (c.done ==> c.products <= u.products && |c.products| == cap) && (!c.done ==> c == u)
  }

  lemma VisitSubCapped(st: RunState, cap: Option<int>, sub: Client.SubCategory, web: Web)
    requires ListingsEnd(web) && cap.Some?
    requires !st.done && !st.stopped && |st.products| < cap.value
    ensures CappedAgrees(VisitSub(st, cap, sub, web), VisitSub(st, None, sub, web), cap.value)
  {
    if sub.name != Restaurant && ListingOf(web, sub).Ok? {
      var listings := ListingOf(web, sub).value;
      WalkCappedPrefix(st.seen, |st.products|, cap, listings, web);
      var c := WalkListings(st.seen, |st.products|, cap, listings, web);
      var u := WalkListings(st.seen, |st.products|, None, listings, web);
      if c.reached {
        assert st.products + c.processed <= st.products + u.processed by {
          assert (st.products + u.processed)[..|st.products + c.processed|] == st.products + c.processed;
        }
      }
    }
  }

  lemma {:induction false} WalkSubsCapped(st: RunState, cap: Option<int>, subs: seq<Client.SubCategory>, web: Web)
    requires ListingsEnd(web) && cap.Some?
    requires !st.done && !st.stopped && |st.products| < cap.value
    ensures CappedAgrees(WalkSubs(st, cap, subs, web), WalkSubs(st, None, subs, web), cap.value)
    decreases |subs|
  {
    if subs != [] {
      var init := subs[..|subs| - 1];
      var last := subs[|subs| - 1];
      WalkSubsCapped(st, cap, init, web);
      WalkSubsCap(st, cap, init, web);
      var sc := WalkSubs(st, cap, init, web);
      var su := WalkSubs(st, None, init, web);
      if sc.done {
        if !su.stopped {
          VisitSubGrows(su, None, last, web);
        }
      } else {
        VisitSubCapped(sc, cap, last, web);
      }
    }
  }

  lemma {:induction false} RunCapped(st: RunState, cap: Option<int>, cats: Client.CategoryTree, web: Web)
    requires ListingsEnd(web) && cap.Some?
    requires !st.done && !st.stopped && |st.products| < cap.value
    ensures CappedAgrees(WalkCategories(st, cap, cats, web), WalkCategories(st, None, cats, web), cap.value)
    decreases |cats|
  {
    if cats != [] {
      var init := cats[..|cats| - 1];
      var subs := cats[|cats| - 1].subs;
      RunCapped(st, cap, init, web);
      RunCapInvariant(st, cap, init, web);
      var sc := WalkCategories(st, cap, init, web);
      var su := WalkCategories(st, None, init, web);
      if sc.done {
        if !su.stopped {
          WalkSubsGrows(su, None, subs, web);
        }
      } else {
        WalkSubsCapped(sc, cap, subs, web);
      }
    }
  }

  /** The cap only cuts the run short: a run that starts below an active
      cap collects a prefix of what the run without a cap collects, all of
      it unless the cap is met, and it meets the cap whenever the uncapped
      run collects at least that many products. */
  lemma RunCappedPrefix(st: RunState, cap: Option<int>, cats: Client.CategoryTree, web: Web)
    requires ListingsEnd(web) && cap.Some?
    requires !st.done && !st.stopped && |st.products| < cap.value
    ensures var c := WalkCategories(st, cap, cats, web); var u := WalkCategories(st, None, cats, web);
      c.products <= u.products && (c.products == u.products || |c.products| == cap.value) &&
      (|u.products| >= cap.value ==> c.done && |c.products| == cap.value)
  {
    RunCapped(st, cap, cats, web);
    RunRespectsCap(st, cap, cats, web);
  }

  /** What the run keeps true of its ids: the seen list has no repeats and
      only grows, and the collected products carry distinct ids, all seen. */
  predicate IdInvariant(st: RunState, seen0: seq<int>) {
    NoDup(st.seen) && seen0 <= st.seen &&
    NoDup(IdsOf(st.products)) && IdsSeen(st.products, st.seen)
  }

  /** Appending products with fresh ids to a batch with distinct ids
      keeps the ids distinct. */
  lemma AppendFreshIds(a: seq<Record>, seenA: seq<int>, b: seq<Record>, seenB: seq<int>)
    requires NoDup(IdsOf(a)) && IdsSeen(a, seenA) && seenA <= seenB
    requires NoDup(IdsOf(b)) && IdsSeen(b, seenB)
    requires forall r :: r in b ==> IdOf(r).Int? && IdOf(r).i !in seenA
    ensures NoDup(IdsOf(a + b)) && IdsSeen(a + b, seenB)
  {
    var n := |a|;
    var ids := IdsOf(a + b);
    forall i, j | 0 <= i < j < |ids| ensures ids[i] != ids[j] {
      assert ids[i] == IdOf((a + b)[i]) && ids[j] == IdOf((a + b)[j]);
      if j < n {
        assert IdsOf(a)[i] == IdOf(a[i]) && IdsOf(a)[j] == IdOf(a[j]);
      } else if i < n {
        assert a[i] in a && b[j - n] in b;
      } else {
        assert IdsOf(b)[i - n] == IdOf(b[i - n]) && IdsOf(b)[j - n] == IdOf(b[j - n]);
      }
    }
    forall q | q in a + b ensures IdOf(q).Int? && IdOf(q).i in seenB {
      if q in a {
        PrefixMembers(seenA, seenB);
      }
    }
  }

  lemma VisitSubIds(st: RunState, seen0: seq<int>, cap: Option<int>, sub: Client.SubCategory, web: Web)
    requires ListingsEnd(web) && IdInvariant(st, seen0)
    ensures IdInvariant(VisitSub(st, cap, sub, web), seen0)
  {
    if sub.name != Restaurant && ListingOf(web, sub).Ok? {
      var listings := ListingOf(web, sub).value;
      var w := WalkListings(st.seen, |st.products|, cap, listings, web);
      WalkIds(st.seen, |st.products|, cap, listings, web);
      AppendFreshIds(st.products, st.seen, w.processed, w.seen);
      assert seen0 <= w.seen by {
        assert w.seen[..|st.seen|][..|seen0|] == w.seen[..|seen0|];
      }
    }
  }

  lemma {:induction false} WalkSubsIds(st: RunState, seen0: seq<int>, cap: Option<int>, subs: seq<Client.SubCategory>, web: Web)
    requires ListingsEnd(web) && IdInvariant(st, seen0)
    ensures IdInvariant(WalkSubs(st, cap, subs, web), seen0)
    decreases |subs|
  {
    if subs != [] {
      WalkSubsIds(st, seen0, cap, subs[..|subs| - 1], web);
      var s := WalkSubs(st, cap, subs[..|subs| - 1], web);
      if !s.stopped {
        VisitSubIds(s, seen0, cap, subs[|subs| - 1], web);
      }
    }
  }

  /** A run never collects two products with the same id, and its seen ids
      never repeat. */
  lemma {:induction false} RunIds(st: RunState, cap: Option<int>, cats: Client.CategoryTree, web: Web)
    requires ListingsEnd(web) && IdInvariant(st, st.seen)
    ensures IdInvariant(WalkCategories(st, cap, cats, web), st.seen)
    decreases |cats|
  {
    if cats != [] {
      RunIds(st, cap, cats[..|cats| - 1], web);
      var s := WalkCategories(st, cap, cats[..|cats| - 1], web);
      if !s.stopped {
        WalkSubsIds(s, st.seen, cap, cats[|cats| - 1].subs, web);
      }
    }
  }

  predicate VisitedAllowed(visited: seq<Client.SubCategory>, cats: Client.CategoryTree, web: Web)
    requires ListingsEnd(web)
  {
    forall v :: v in visited ==>
      v.name != Restaurant && ListingOf(web, v).Ok? && exists i :: 0 <= i < |cats| && v in cats[i].subs
  }

  lemma {:induction false} WalkSubsVisits(st: RunState, cap: Option<int>, subs: seq<Client.SubCategory>, cats: Client.CategoryTree, c: nat, web: Web)
    requires ListingsEnd(web) && c < |cats| && subs <= cats[c].subs
    requires VisitedAllowed(st.visited, cats, web)
    ensures VisitedAllowed(WalkSubs(st, cap, subs, web).visited, cats, web)
    decreases |subs|
  {
    if subs != [] {
      var init := subs[..|subs| - 1];
      WalkSubsVisits(st, cap, init, cats, c, web);
      var sub := subs[|subs| - 1];
      assert sub in cats[c].subs;
    }
  }

  /** The run only processes subcategories of the tree, never the one
      named `'Restoran i Bistro'`, and never one whose listing raised. */
  lemma {:induction false} RunVisits(st: RunState, cap: Option<int>, cats: Client.CategoryTree, all: Client.CategoryTree, web: Web)
    requires ListingsEnd(web) && cats <= all
    requires VisitedAllowed(st.visited, all, web)
    ensures VisitedAllowed(WalkCategories(st, cap, cats, web).visited, all, web)
    decreases |cats|
  {
    if cats != [] {
      RunVisits(st, cap, cats[..|cats| - 1], all, web);
      var s := WalkCategories(st, cap, cats[..|cats| - 1], web);
      if !s.stopped {
        WalkSubsVisits(s, cap, cats[|cats| - 1].subs, all, |cats| - 1, web);
      }
    }
  }

  // ---------------------------------------------------------------------
  // The crawler object
  // ---------------------------------------------------------------------

  class Crawler {
    var products: seq<Record>
    var crawledIds: seq<int>
    const numProducts: Option<int>
    var done: bool

    constructor (numProducts: Option<int>)
      ensures products == [] && crawledIds == [] && this.numProducts == numProducts && !done
    {
      products := [];
      crawledIds := [];
      this.numProducts := numProducts;
      done := false;
    }

    /** `_process_single_product`: the id is recorded before any fetch and
        only when it was not seen before. */
    method ProcessSingleProduct(prod: Listing, web: Web) returns (out: Outcome)
      modifies this`crawledIds
      ensures Step(out, crawledIds) == Single(old(crawledIds), prod, web)
    {
      var digits := FilterDigits(prod.id);
      if digits == [] {
        return Raised(ValueError);
      }
      var productId := DigitsValue(digits);
      if productId in crawledIds {
        return Absent;
      }
      crawledIds := crawledIds + [productId];

      var priceHr := web.hrPrice(HrUrl(prod.pipUrl));
      var available := ComputeAvailability(prod.availability);

      var fetched := web.detail(prod.pipUrl);
      if fetched.DetailUnreachable? {
        return Absent;
      }
      if fetched.DetailUnparsable? {
        return Raised(ParseError);
      }
      var page := fetched.page;
      var numPackages := CountPackages(page.packages);

      var breadcrumb := KeysOf(prod.categoryPath);
      var api := Client.CategoryTags(web.tags(productId));
      if api.Err? {
        return Raised(api.error);
      }
      var tags := ChooseTags(api.value, breadcrumb);
      out := Produced(BuildRecord(prod, productId, priceHr, available, page, numPackages, tags, web.now));
    }

    /** `_process_products`: the listings in order, skipping `None` and
        raising items, until the cap is met. */
    method ProcessProducts(listings: seq<Listing>, web: Web) returns (processed: seq<Record>)
      modifies this`crawledIds, this`done
      ensures var w := WalkListings(old(crawledIds), |products|, numProducts, listings, web);
        processed == w.processed && crawledIds == w.seen && done == (old(done) || w.reached)
    {
      ghost var seen0 := crawledIds;
      ghost var base := |products|;
      processed := [];
      var i := 0;
      while i < |listings|
        invariant 0 <= i <= |listings|
        invariant |products| == base && done == old(done)
        invariant WalkFrom(Walk(processed, crawledIds, false), base, numProducts, listings[i..], web) ==
          WalkListings(seen0, base, numProducts, listings, web)
      {
        var prod := listings[i];
        ghost var before := Walk(processed, crawledIds, false);
        assert listings[i..][1..] == listings[i + 1..];
        var product := ProcessSingleProduct(prod, web);
        if product.Produced? {
          processed := processed + [product.record];
          if CapReached(numProducts, |products| + |processed|) {
            done := true;
            assert StepListing(before, base, numProducts, prod, web) == Walk(processed, crawledIds, true);
            return;
          }
        }
        assert StepListing(before, base, numProducts, prod, web) == Walk(processed, crawledIds, false);
        i := i + 1;
      }
    }

    /** The inner loop of `run`: the subcategories of one category, in
        order, breaking off once `done` is set. */
    method ProcessSubcategories(subs: seq<Client.SubCategory>, web: Web, ghost visited0: seq<Client.SubCategory>)
      returns (ghost stopped: bool, ghost visited: seq<Client.SubCategory>)
      requires ListingsEnd(web)
      modifies this`products, this`crawledIds, this`done
      ensures WalkSubs(RunState(old(products), old(crawledIds), old(done), false, visited0), numProducts, subs, web) ==
        RunState(products, crawledIds, done, stopped, visited)
    {
      ghost var before := RunState(products, crawledIds, done, false, visited0);
      stopped := false;
      visited := visited0;
      var j := 0;
      while j < |subs|
        invariant 0 <= j <= |subs|
        invariant WalkSubs(before, numProducts, subs[..j], web) == RunState(products, crawledIds, done, false, visited)
      {
        var sub := subs[j];
        ghost var cur := RunState(products, crawledIds, done, false, visited);
        WalkSubsNext(before, numProducts, subs, j, web);
        if sub.name == Restaurant {
          j := j + 1;
          continue;
        }
        var listing;
        ghost var windows;
        listing, windows := Client.GetProductsInCat(web.listing(sub.id), web.listingEnd(sub.id));
        assert listing == ListingOf(web, sub);
        if listing.Err? {
          j := j + 1;
          continue;
        }
        var processed := ProcessProducts(listing.value, web);
        products := products + processed;
        visited := visited + [sub];
        assert VisitSub(cur, numProducts, sub, web) == RunState(products, crawledIds, done, done, visited);
        if done {
          stopped := true;
          WalkSubsStops(before, numProducts, subs, j + 1, web);
          return;
        }
        j := j + 1;
      }
      assert subs[..|subs|] == subs;
    }

    /** `run` (sequential mode). The exception of `get_categories` leaves
        `run` before any category is walked; otherwise `visited` lists the
        subcategories whose listings were processed. */
    method Run(menu: Client.MenuReply, web: Web) returns (r: Result<()>, ghost visited: seq<Client.SubCategory>)
      requires ListingsEnd(web)
      modifies this`products, this`crawledIds, this`done
      ensures Client.Categories(menu).Err? ==>
        r == Err(Client.Categories(menu).error) && visited == [] &&
        products == old(products) && crawledIds == old(crawledIds) && done == old(done)
      ensures Client.Categories(menu).Ok? ==>
        r == Ok(()) &&
        var f := WalkCategories(RunState(old(products), old(crawledIds), old(done), false, []),
                                numProducts, Client.Categories(menu).value, web);
        products == f.products && crawledIds == f.seen && done == f.done && visited == f.visited
    {
      visited := [];
      var categories := Client.GetCategories(menu);
      if categories.Err? {
        return Err(categories.error), visited;
      }
      var tree := categories.value;
      r := Ok(());
      ghost var st0 := RunState(products, crawledIds, done, false, []);
      var i := 0;
      while i < |tree|
        invariant 0 <= i <= |tree|
        invariant WalkCategories(st0, numProducts, tree[..i], web) == RunState(products, crawledIds, done, false, visited)
      {
        WalkCategoriesNext(st0, numProducts, tree, i, web);
        ghost var stopped;
        stopped, visited := ProcessSubcategories(tree[i].subs, web, visited);
        if done {
          WalkCategoriesStops(st0, numProducts, tree, i + 1, web);
          break;
        }
        i := i + 1;
      }
      assert tree[..|tree|] == tree;
    }
  }
}
