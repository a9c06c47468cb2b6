/** The source client: the category-tag status rule, the category tree
    built from the navigation page, the windowed listing pagination and the
    zero-padded ids of the secondary market (ikea/client.py).

    HTTP, HTML parsing and the retrying transport are not modelled: a tag
    response, the navigation page as its `nav` blocks and the listing
    endpoint are inputs. */
module Client {
  import opened Values

  // ---------------------------------------------------------------------
  // get_category_tags
  // ---------------------------------------------------------------------

  /** The `rangeIds` entry of the tag endpoint's JSON body: the key is
      absent, it holds JSON `null`, or it holds a list of ids. */
  datatype RangeIds = RangeIdsMissing | RangeIdsNull | RangeIdList(ids: seq<string>)

  /** What the tag endpoint answers: the request raised (network error or
      timeout), or a status code with the `rangeIds` entry of the body. */
  datatype TagsReply = TagsUnreachable | TagsAnswer(status: int, rangeIds: RangeIds)

  /** `get_category_tags`: `None` for any status other than 200 and for a
      `null` entry, otherwise the `rangeIds` list; a failed request or a
      missing key raises. */
  function CategoryTags(reply: TagsReply): (r: Result<Option<seq<string>>>)
    ensures r.Err? <==> reply.TagsUnreachable? || (reply.status == 200 && reply.rangeIds.RangeIdsMissing?)
    ensures r.Err? ==> r.error == if reply.TagsUnreachable? then FetchError else KeyError
    ensures r.Ok? && r.value.None? <==>
      reply.TagsAnswer? && (reply.status != 200 || reply.rangeIds.RangeIdsNull?)
    ensures r.Ok? && r.value.Some? <==> reply.TagsAnswer? && reply.status == 200 && reply.rangeIds.RangeIdList?
    ensures r.Ok? && r.value.Some? ==> r.value.value == reply.rangeIds.ids
  {
    match reply
    case TagsUnreachable => Err(FetchError)
    case TagsAnswer(status, ids) =>
      if status != 200 then Ok(None)
      else match ids
        case RangeIdsMissing => Err(KeyError)
        case RangeIdsNull => Ok(None)
        case RangeIdList(l) => Ok(Some(l))
  }

  // ---------------------------------------------------------------------
  // get_categories
  // ---------------------------------------------------------------------

  /** A link `li > a` of a navigation block: its text and its
      `data-tracking-label` attribute, which may be missing. */
  datatype Link = Link(text: string, trackingLabel: Option<string>)

  /** A `nav` block: the text of its first `span` and its links, in
      document order. */
  datatype Nav = Nav(heading: string, links: seq<Link>)

  datatype SubCategory = SubCategory(name: string, id: Option<string>)

  datatype Category = Category(name: string, subs: seq<SubCategory>)

  /** The category tree is a Python dict, so its headings keep the order in
      which they were first inserted. */
  type CategoryTree = seq<Category>

  const AllLabel: string := "all"

  predicate Kept(l: Link) { l.trackingLabel != Some(AllLabel) }

  function SubOf(l: Link): SubCategory { SubCategory(l.text, l.trackingLabel) }

  /** The subcategories of one navigation block: every link not labelled
      `'all'`, in document order. */
  function KeptLinks(links: seq<Link>): (subs: seq<SubCategory>)
    ensures |subs| <= |links|
    ensures forall s :: s in subs ==> s.id != Some(AllLabel)
    ensures forall s :: s in subs <==> exists k :: 0 <= k < |links| && Kept(links[k]) && s == SubOf(links[k])
    decreases |links|
  {
    if links == [] then []
    else
      var init := KeptLinks(links[..|links| - 1]);
      var l := links[|links| - 1];
      assert forall k :: 0 <= k < |links| - 1 ==> links[..|links| - 1][k] == links[k];
      if Kept(l) then init + [SubOf(l)] else init
  }

  /** A single link gives its subcategory, unless it is labelled `'all'`. */
  lemma KeptLinksOne(l: Link)
    ensures KeptLinks([l]) == if Kept(l) then [SubOf(l)] else []
  {
    assert [l][..0] == [];
  }

  /** The kept links follow document order, each link once: the links of a
      concatenation are those of the first part followed by those of the
      second. */
  lemma {:induction false} KeptLinksAppend(a: seq<Link>, b: seq<Link>)
    ensures KeptLinks(a + b) == KeptLinks(a) + KeptLinks(b)
    decreases |b|
  {
    if b == [] {
      assert a + b == a;
    } else {
      var init, l := b[..|b| - 1], b[|b| - 1];
      var tail := if Kept(l) then [SubOf(l)] else [];
      assert (a + b)[..|a + b| - 1] == a + init && (a + b)[|a + b| - 1] == l;
      assert KeptLinks(a + b) == KeptLinks(a + init) + tail;
      KeptLinksAppend(a, init);
      assert KeptLinks(b) == KeptLinks(init) + tail;
      assert (KeptLinks(a) + KeptLinks(init)) + tail == KeptLinks(a) + (KeptLinks(init) + tail);
    }
  }

  /** The position of a heading in the tree, if it is there. */
  function IndexOf(tree: CategoryTree, name: string): (p: Option<nat>)
    ensures p.Some? ==> p.value < |tree| && tree[p.value].name == name
    ensures p.Some? ==> forall q :: 0 <= q < p.value ==> tree[q].name != name
    ensures p.None? ==> forall q :: 0 <= q < |tree| ==> tree[q].name != name
  {
    if tree == [] then None
    else if tree[0].name == name then Some(0)
    else match IndexOf(tree[1..], name)
      case None => None
      case Some(q) => Some(q + 1)
  }

  /** Every heading occurs at most once. */
  predicate DistinctNames(tree: CategoryTree) {
    forall i, j :: 0 <= i < j < |tree| ==> tree[i].name != tree[j].name
  }

  /** `tree[name] = subs`: an existing heading is overwritten where it
      stands, a new one goes to the end. */
  function Put(tree: CategoryTree, name: string, subs: seq<SubCategory>): (t: CategoryTree)
    ensures DistinctNames(tree) ==> DistinctNames(t)
    ensures forall i :: 0 <= i < |t| ==> t[i] == Category(name, subs) || (i < |tree| && t[i] == tree[i])
  {
    match IndexOf(tree, name)
    case Some(p) => tree[p := Category(name, subs)]
    case None => tree + [Category(name, subs)]
  }

  /** The dict `get_categories` builds from the navigation blocks. */
  function TreeOf(navs: seq<Nav>): CategoryTree
    decreases |navs|
  {
    if navs == [] then []
    else
      var nav := navs[|navs| - 1];
      Put(TreeOf(navs[..|navs| - 1]), nav.heading, KeptLinks(nav.links))
  }

  /** The last navigation block with a given heading, if any. */
  function LastNavWith(navs: seq<Nav>, heading: string): Option<Nav>
    decreases |navs|
  {
    if navs == [] then None
    else if navs[|navs| - 1].heading == heading then Some(navs[|navs| - 1])
    else LastNavWith(navs[..|navs| - 1], heading)
  }

  /** The subcategories filed under a heading, if the heading is there. */
  function Lookup(tree: CategoryTree, name: string): Option<seq<SubCategory>> {
    match IndexOf(tree, name)
    case None => None
    case Some(p) => Some(tree[p].subs)
  }

  lemma IndexOfDistinct(tree: CategoryTree, p: nat)
    requires DistinctNames(tree) && p < |tree|
    ensures IndexOf(tree, tree[p].name) == Some(p)
  {
  }

  lemma LookupPut(tree: CategoryTree, name: string, subs: seq<SubCategory>, h: string)
    requires DistinctNames(tree)
    ensures Lookup(Put(tree, name, subs), h) == if h == name then Some(subs) else Lookup(tree, h)
  {
    var t := Put(tree, name, subs);
    match IndexOf(tree, h)
    case Some(p) => IndexOfDistinct(tree, p);
      if h != name { assert t[p] == tree[p]; IndexOfDistinct(t, p); }
    case None =>
      if h == name {
        IndexOfDistinct(t, |tree|);
      } else {
        assert forall q :: 0 <= q < |t| ==> t[q].name != h;
      }
  }

  /** Headings are unique in the tree. */
  lemma {:induction false} TreeNamesDistinct(navs: seq<Nav>)
    ensures DistinctNames(TreeOf(navs))
    decreases |navs|
  {
    if navs != [] {
      TreeNamesDistinct(navs[..|navs| - 1]);
    }
  }

  /** A heading is in the tree exactly when some navigation block has it,
      and then it holds the kept links of the LAST such block: a later block
      with the same heading replaces the earlier block's subcategories. */
  lemma {:induction false} TreeLookup(navs: seq<Nav>, h: string)
    ensures Lookup(TreeOf(navs), h) ==
      match LastNavWith(navs, h)
      case None => None
      case Some(nav) => Some(KeptLinks(nav.links))
    decreases |navs|
  {
    if navs != [] {
      var init := navs[..|navs| - 1];
      TreeLookup(init, h);
      TreeNamesDistinct(init);
      LookupPut(TreeOf(init), navs[|navs| - 1].heading, KeptLinks(navs[|navs| - 1].links), h);
    }
  }

  /** No subcategory labelled `'all'` ever reaches the tree. */
  lemma {:induction false} TreeHasNoAllLinks(navs: seq<Nav>)
    ensures forall i, s :: 0 <= i < |TreeOf(navs)| && s in TreeOf(navs)[i].subs ==> s.id != Some(AllLabel)
    decreases |navs|
  {
    if navs != [] {
      TreeHasNoAllLinks(navs[..|navs| - 1]);
    }
  }

  /** A `nav` block as the page holds it: the text of its first `span`,
      `None` when it has no `span` (reading `span.text` then raises), and
      its links in document order. */
  datatype NavBlock = NavBlock(span: Option<string>, links: seq<Link>)

  /** The navigation page: the request raised, or the page's `nav` blocks
      in document order. The status code is not looked at. */
  datatype MenuReply = MenuUnreachable | MenuPage(blocks: seq<NavBlock>)

  predicate Headed(blocks: seq<NavBlock>)
  {
    forall k :: 0 <= k < |blocks| ==> blocks[k].span.Some?
  }

  /** The blocks as navigation blocks, each named by its `span`. */
  function NavsOf(blocks: seq<NavBlock>): (navs: seq<Nav>)
    requires Headed(blocks)
    ensures |navs| == |blocks|
    ensures forall k :: 0 <= k < |blocks| ==> navs[k] == Nav(blocks[k].span.value, blocks[k].links)
  {
    if blocks == [] then []
    else NavsOf(blocks[..|blocks| - 1]) + [Nav(blocks[|blocks| - 1].span.value, blocks[|blocks| - 1].links)]
  }

  /** One more headed block adds one navigation block at the end. */
  lemma NavsOfNext(blocks: seq<NavBlock>, i: nat)
    requires i < |blocks| && Headed(blocks[..i]) && blocks[i].span.Some?
    ensures Headed(blocks[..i + 1])
    ensures NavsOf(blocks[..i + 1]) == NavsOf(blocks[..i]) + [Nav(blocks[i].span.value, blocks[i].links)]
  {
    assert blocks[..i + 1][..i] == blocks[..i];
  }

  /** What `get_categories` ends with: the request's exception, the
      exception of a block without a `span`, or the tree of the blocks. */
  function Categories(menu: MenuReply): Result<CategoryTree>
  {
    if menu.MenuUnreachable? then Err(FetchError)
    else if !Headed(menu.blocks) then Err(ParseError)
    else Ok(TreeOf(NavsOf(menu.blocks)))
  }

  /** `get_categories`: one pass over the navigation blocks, resetting the
      heading's list and appending every link that is not labelled `'all'`;
      it raises at the first block without a `span`. */
  method GetCategories(menu: MenuReply) returns (r: Result<CategoryTree>)
    ensures r == Categories(menu)
    ensures r.Err? <==> menu.MenuUnreachable? || exists k :: 0 <= k < |menu.blocks| && menu.blocks[k].span.None?
  {
    if menu.MenuUnreachable? {
      return Err(FetchError);
    }
    var blocks := menu.blocks;
    var tree := [];
    for i := 0 to |blocks|
      invariant Headed(blocks[..i])
      invariant tree == TreeOf(NavsOf(blocks[..i]))
    {
      var block := blocks[i];
      if block.span.None? {
        assert blocks[i].span.None?;
        return Err(ParseError);
      }
      var heading := block.span.value;
      var subs: seq<SubCategory> := [];
      for j := 0 to |block.links|
        invariant subs == KeptLinks(block.links[..j])
      {
        var link := block.links[j];
        assert block.links[..j + 1][..j] == block.links[..j];
        if link.trackingLabel != Some(AllLabel) {
          subs := subs + [SubCategory(link.text, link.trackingLabel)];
        }
      }
      assert block.links[..|block.links|] == block.links;
      NavsOfNext(blocks, i);
      tree := Put(tree, heading, subs);
    }
    assert blocks[..|blocks|] == blocks;
    r := Ok(tree);
  }

  // ---------------------------------------------------------------------
  // get_products_in_cat
  // ---------------------------------------------------------------------

  /** One window of the listing endpoint after the transport's retries: the
      request failed, or it returned the `productWindow` list. */
  datatype PageFetch<T> = PageFailed | Page(items: seq<T>)

  /** The listing endpoint of one category: a window `(start, end)` to what
      it returns. */
  type Endpoint<T> = (int, int) -> PageFetch<T>

  const PageSize: int := 1000

  /** The `(start, end)` of the `k`-th window requested. */
  function Window(k: nat): (int, int) {
    (if k == 0 then 0 else PageSize * k + 1, PageSize * (k + 1))
  }

  /** The windows follow the loop's own steps: `(0, 1000)` first, then
      each starts one past the previous end and ends 1000 later, always on
      a multiple of 1000. */
  lemma WindowSteps(k: nat)
    ensures Window(0) == (0, PageSize)
    ensures k > 0 ==> Window(k).0 == Window(k - 1).1 + 1 && Window(k).1 == Window(k - 1).1 + PageSize
    ensures Window(k).1 % PageSize == 0
  {
  }

  function PageAt<T>(ep: Endpoint<T>, k: nat): PageFetch<T> {
    ep(Window(k).0, Window(k).1)
  }

  /** The loop ends at a window: the page is empty, or the request raises. */
  predicate Stops<T>(p: PageFetch<T>) {
    p.PageFailed? || |p.items| == 0
  }

  /** Concatenation of the first `k` pages, in window order. */
  function Gathered<T>(ep: Endpoint<T>, k: nat): seq<T>
    requires forall j :: 0 <= j < k ==> PageAt(ep, j).Page?
  {
    if k == 0 then [] else Gathered(ep, k - 1) + PageAt(ep, k - 1).items
  }

  /** The first window, from `k` on, at which the loop ends. */
  function FirstStop<T>(ep: Endpoint<T>, k: nat, bound: nat): (n: nat)
    requires k <= bound && Stops(PageAt(ep, bound))
    ensures k <= n <= bound && Stops(PageAt(ep, n))
    ensures forall j :: k <= j < n ==> !Stops(PageAt(ep, j))
    decreases bound - k
  {
    if Stops(PageAt(ep, k)) then k else FirstStop(ep, k + 1, bound)
  }

  /** What `get_products_in_cat` returns for an endpoint that stops at or
      before window `bound`: the pages before the first empty one, or the
      error of a failing window. */
  function Paginated<T>(ep: Endpoint<T>, bound: nat): Result<seq<T>>
    requires Stops(PageAt(ep, bound))
  {
    var n := FirstStop(ep, 0, bound);
    if PageAt(ep, n).PageFailed? then Err(FetchError) else Ok(Gathered(ep, n))
  }

  /** An empty first page yields an empty listing. */
  lemma EmptyFirstPage<T>(ep: Endpoint<T>, bound: nat)
    requires Stops(PageAt(ep, bound))
    requires PageAt(ep, 0) == Page([])
    ensures Paginated(ep, bound) == Ok([])
  {
  }

  /** Every item of every page before the first empty one is in the
      listing, page by page in window order. */
  lemma {:induction false} GatheredPages<T>(ep: Endpoint<T>, k: nat, j: nat, x: T)
    requires forall i :: 0 <= i < k ==> PageAt(ep, i).Page?
    requires j < k && x in PageAt(ep, j).items
    ensures x in Gathered(ep, k)
  {
    if j < k - 1 {
      GatheredPages(ep, k - 1, j, x);
    }
  }

  /** `get_products_in_cat`: windows of 1000 from `(0, 1000)` on, until the
      first empty page. `bound` is a window at which the endpoint stops; the
      source loops forever on an endpoint that never does. `windows` records
      the windows requested, in order. */
  method GetProductsInCat<T>(ep: Endpoint<T>, ghost bound: nat) returns (r: Result<seq<T>>, ghost windows: seq<(int, int)>)
    requires Stops(PageAt(ep, bound))
    ensures r == Paginated(ep, bound)
    ensures |windows| == FirstStop(ep, 0, bound) + 1 && forall j :: 0 <= j < |windows| ==> windows[j] == Window(j)
  {
    var allProducts: seq<T> := [];
    var start, end := 0, 1000;
    ghost var k: nat := 0;
    windows := [(start, end)];
    var products := ep(start, end);
    while !Stops(products)
      invariant k <= bound
      invariant (start, end) == Window(k) && products == PageAt(ep, k)
      invariant forall j :: 0 <= j < k ==> !Stops(PageAt(ep, j))
      invariant allProducts == Gathered(ep, k)
      invariant |windows| == k + 1 && forall j :: 0 <= j <= k ==> windows[j] == Window(j)
      decreases bound - k
    {
      allProducts := allProducts + products.items;
      start := end + 1;
      end := end + 1000;
      k := k + 1;
      windows := windows + [(start, end)];
      products := ep(start, end);
    }
    assert FirstStop(ep, 0, bound) == k;
    if products.PageFailed? {
      r := Err(FetchError);
    } else {
      r := Ok(allProducts);
    }
  }

  // ---------------------------------------------------------------------
  // MontikeaClient.get
  // ---------------------------------------------------------------------

  function Zeros(n: nat): (z: string)
    ensures |z| == n && forall i :: 0 <= i < n ==> z[i] == '0'
  {
    if n == 0 then [] else Zeros(n - 1) + "0"
  }

  /** `s.zfill(width)`: left padding with '0' to `width` characters, after
      a leading sign if there is one; a string of at least `width`
      characters is returned as it is. */
  function ZFill(s: string, width: nat): (r: string)
    ensures |s| >= width ==> r == s
    ensures |r| == if |s| >= width then |s| else width
    ensures |s| < width && (s == [] || (s[0] != '+' && s[0] != '-')) ==>
      r == Zeros(width - |s|) + s
    ensures |s| < width && s != [] && (s[0] == '+' || s[0] == '-') ==>
      r == [s[0]] + Zeros(width - |s|) + s[1..]
  {
    if |s| >= width then s
    else if s != [] && (s[0] == '+' || s[0] == '-') then [s[0]] + Zeros(width - |s|) + s[1..]
    else Zeros(width - |s|) + s
  }

  const MontikeaIdWidth: nat := 8

  /** The id used in secondary-market URLs: `str(id).zfill(8)`. */
  function MontikeaId(idText: string): (m: string)
    ensures |m| >= MontikeaIdWidth
    ensures |idText| >= MontikeaIdWidth ==> m == idText
    ensures AllDigits(idText) && |idText| < MontikeaIdWidth ==>
      m == Zeros(MontikeaIdWidth - |idText|) + idText
  {
    ZFill(idText, MontikeaIdWidth)
  }

  lemma {:induction false} ZerosThenStripped(d: string)
    requires AllDigits(d)
    ensures d == Zeros(|d| - |StripZeros(d)|) + StripZeros(d)
  {
    var e := StripZeros(d);
    var z := Zeros(|d| - |e|);
    assert |z + e| == |d|;
    forall i | 0 <= i < |d| ensures d[i] == (z + e)[i] {
      if i < |z| {
        assert d[i] == '0' == z[i];
      } else {
        assert e[i - |z|] == d[i];
      }
    }
  }

  /** Padding the normalised id of an eight-digit product number gives the
      number back, leading zeros included. */
  lemma MontikeaIdRoundTrip(d: string)
    requires AllDigits(d) && |d| == MontikeaIdWidth
    ensures MontikeaId(DecimalString(DigitsValue(d))) == d
  {
    CanonicalOfValue(d);
    ZerosThenStripped(d);
    var e := StripZeros(d);
    if e == [] {
      assert d == Zeros(8);
      assert Zeros(8) == Zeros(7) + "0";
    }
  }
}
