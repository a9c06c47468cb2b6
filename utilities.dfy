/** The helpers of ikea/utilities.py: neighbour pairs, the category graph
    built from the products' category paths under a synthetic `products`
    root, the substitution of Swedish letters in Russian text, and the
    translation of a product's texts with fallbacks.

    The graph library is reduced to what the builder uses of it: a set of
    nodes, a set of directed edges and a `name` attribute per node. The
    translation service is an input: what it answers for a text, a target
    and a source language, `None` when the call raises. */
module Utilities {
  import opened Values

  // ---------------------------------------------------------------------
  // _pairs_of_neighbors
  // ---------------------------------------------------------------------

  /** `[(lst[i], lst[i + 1]) for i in range(len(lst) - 1)]`. */
  function PairsOfNeighbors<T>(lst: seq<T>): (pairs: seq<(T, T)>)
    ensures |pairs| == if |lst| == 0 then 0 else |lst| - 1
    ensures forall i :: 0 <= i < |pairs| ==> pairs[i] == (lst[i], lst[i + 1])
    decreases |lst|
  {
    if |lst| < 2 then [] else [(lst[0], lst[1])] + PairsOfNeighbors(lst[1..])
  }

  /** A list headed by `x` starts with the pair from `x` to its second
      element, followed by the pairs of the rest. */
  lemma PairsCons<T>(x: T, lst: seq<T>)
    requires lst != []
    ensures PairsOfNeighbors([x] + lst) == [(x, lst[0])] + PairsOfNeighbors(lst)
  {
    var l := [x] + lst;
    assert l[1..] == lst;
  }

  // ---------------------------------------------------------------------
  // CategoryBuilder
  // ---------------------------------------------------------------------

  /** The synthetic root every path hangs from. */
  const Root: CategoryNode := CategoryNode("products", "Proizvodi")

  /** The category graph: nodes, directed edges and node names. */
  datatype Graph = Graph(nodes: set<string>, edges: set<(string, string)>, names: map<string, string>)

  const EmptyGraph: Graph := Graph({}, {}, map[])

  /** The path with the root in front of it. */
  function FullPath(path: seq<CategoryNode>): seq<CategoryNode> {
    [Root] + path
  }

  /** `add_edges_from`: every pair becomes an edge, and its ends nodes. */
  function WithEdges(g: Graph, pairs: seq<(string, string)>): (h: Graph)
    ensures h.names == g.names
    ensures h.edges == g.edges + (set p | p in pairs)
    ensures h.nodes == g.nodes + (set p | p in pairs :: p.0) + (set p | p in pairs :: p.1)
  {
    Graph(g.nodes + (set p | p in pairs :: p.0) + (set p | p in pairs :: p.1), g.edges + (set p | p in pairs), g.names)
  }

  /** The names after `graph.nodes[key]['name'] = name` for each node of
      the sequence, in order. */
  function Named(names: map<string, string>, nodes: seq<CategoryNode>): map<string, string>
    decreases |nodes|
  {
    if nodes == [] then names
    else Named(names, nodes[..|nodes| - 1])[nodes[|nodes| - 1].key := nodes[|nodes| - 1].name]
  }

  /** The position of the last node with key `k`, or -1. */
  function LastIndex(nodes: seq<CategoryNode>, k: string): (r: int)
    ensures -1 <= r < |nodes|
    ensures r >= 0 ==> nodes[r].key == k
    ensures forall j :: r < j < |nodes| ==> nodes[j].key != k
    decreases |nodes|
  {
    if nodes == [] then -1
    else if nodes[|nodes| - 1].key == k then |nodes| - 1
    else LastIndex(nodes[..|nodes| - 1], k)
  }

  /** The name of the last node with key `k`, if there is one. */
  function LastName(nodes: seq<CategoryNode>, k: string): Option<string> {
    var i := LastIndex(nodes, k);
    if i < 0 then None else Some(nodes[i].name)
  }

  /** A key gets the name of its last occurrence; a key that does not
      occur keeps its name, or stays unnamed. */
  lemma {:induction false} NamedIsLastName(names: map<string, string>, nodes: seq<CategoryNode>, k: string)
    ensures LastName(nodes, k).Some? ==> k in Named(names, nodes) && Named(names, nodes)[k] == LastName(nodes, k).value
    ensures LastName(nodes, k).None? ==>
      (k in Named(names, nodes) <==> k in names) && (k in names ==> Named(names, nodes)[k] == names[k])
    decreases |nodes|
  {
    if nodes != [] {
      NamedIsLastName(names, nodes[..|nodes| - 1], k);
    }
  }

  lemma {:induction false} NamedAppend(names: map<string, string>, a: seq<CategoryNode>, b: seq<CategoryNode>)
    ensures Named(names, a + b) == Named(Named(names, a), b)
    decreases |b|
  {
    if b == [] {
      assert a + b == a;
    } else {
      NamedAppend(names, a, b[..|b| - 1]);
      assert (a + b)[..|a + b| - 1] == a + b[..|b| - 1];
    }
  }

  /** What `build_from_products` does for one product: the edges of the
      path under the root, then the names. The name lookup of the root
      raises `KeyError` when the path is empty and the root is not yet a
      node; every other node is the end of an edge just added. */
  function AddPath(g: Graph, path: seq<CategoryNode>): Result<Graph> {
    if path == [] && Root.key !in g.nodes then Err(KeyError)
    else
      var h := WithEdges(g, PairsOfNeighbors(KeysOf(FullPath(path))));
      Ok(h.(names := Named(h.names, FullPath(path))))
  }

  /** The graph after a run of `build_from_products`, and whether it ran to
      the end; the exception leaves the products before it in the graph. */
  datatype Build = Build(graph: Graph, ok: bool)

  function Built(g: Graph, paths: seq<seq<CategoryNode>>): Build
    decreases |paths|
  {
    if paths == [] then Build(g, true)
    else
      var b := Built(g, paths[..|paths| - 1]);
      if !b.ok then b
      else match AddPath(b.graph, paths[|paths| - 1])
        case Err(_) => Build(b.graph, false)
        case Ok(h) => Build(h, true)
  }

  /** Every category node of the products, each path under the root. */
  function AllNodes(paths: seq<seq<CategoryNode>>): seq<CategoryNode>
    decreases |paths|
  {
    if paths == [] then [] else AllNodes(paths[..|paths| - 1]) + FullPath(paths[|paths| - 1])
  }

  lemma AddPathGrows(g: Graph, path: seq<CategoryNode>)
    requires AddPath(g, path).Ok?
    ensures var h := AddPath(g, path).value;
      g.nodes <= h.nodes && g.edges <= h.edges && Root.key in h.nodes
  {
    if path != [] {
      var pairs := PairsOfNeighbors(KeysOf(FullPath(path)));
    }
  }

  /** The build never removes an edge or a node. */
  lemma {:induction false} BuildGrows(g: Graph, paths: seq<seq<CategoryNode>>)
    ensures g.nodes <= Built(g, paths).graph.nodes && g.edges <= Built(g, paths).graph.edges
    decreases |paths|
  {
    if paths != [] {
      BuildGrows(g, paths[..|paths| - 1]);
      var b := Built(g, paths[..|paths| - 1]);
      if b.ok && AddPath(b.graph, paths[|paths| - 1]).Ok? {
        AddPathGrows(b.graph, paths[|paths| - 1]);
      }
    }
  }

  /** The build raises exactly when the root is not yet a node and the
      first product's path is empty: any product with a non-empty path
      puts the root into the graph. */
  lemma {:induction false} BuildFailsOnlyAtStart(g: Graph, paths: seq<seq<CategoryNode>>)
    ensures !Built(g, paths).ok <==> Root.key !in g.nodes && |paths| > 0 && paths[0] == []
    ensures Built(g, paths).ok && (Root.key in g.nodes || paths != []) ==> Root.key in Built(g, paths).graph.nodes
    decreases |paths|
  {
    if paths != [] {
      var init := paths[..|paths| - 1];
      BuildFailsOnlyAtStart(g, init);
      var b := Built(g, init);
      if init != [] {
        assert init[0] == paths[0];
      }
      if b.ok && AddPath(b.graph, paths[|paths| - 1]).Ok? {
        AddPathGrows(b.graph, paths[|paths| - 1]);
      }
    }
  }

  /** The edges of one path: from the root to its first key and between
      each two consecutive keys. */
  lemma AddPathEdges(g: Graph, path: seq<CategoryNode>)
    requires AddPath(g, path).Ok?
    ensures var h := AddPath(g, path).value;
      (path != [] ==> (Root.key, path[0].key) in h.edges) &&
      forall j :: 0 <= j < |path| - 1 ==> (path[j].key, path[j + 1].key) in h.edges
  {
    var keys := KeysOf(FullPath(path));
    var pairs := PairsOfNeighbors(keys);
    if path != [] {
      assert pairs[0] == (Root.key, path[0].key);
    }
    forall j | 0 <= j < |path| - 1 ensures (path[j].key, path[j + 1].key) in AddPath(g, path).value.edges {
      assert pairs[j + 1] == (path[j].key, path[j + 1].key);
    }
  }

  /** After a build that ran to the end, the names are those set along
      all the paths, in order. */
  lemma {:induction false} BuildNamesAll(g: Graph, paths: seq<seq<CategoryNode>>)
    requires Built(g, paths).ok
    ensures Built(g, paths).graph.names == Named(g.names, AllNodes(paths))
    decreases |paths|
  {
    if paths != [] {
      var init := paths[..|paths| - 1];
      var last := paths[|paths| - 1];
      var b := Built(g, init);
      assert b.ok;
      BuildNamesAll(g, init);
      NamedAppend(g.names, AllNodes(init), FullPath(last));
    }
  }

  /** After a build that ran to the end, every product's path is in the
      graph as edges: from the root to its first key and between each two
      consecutive keys. */
  lemma {:induction false} BuildPaths(g: Graph, paths: seq<seq<CategoryNode>>)
    requires Built(g, paths).ok
    ensures var h := Built(g, paths).graph;
      forall i :: 0 <= i < |paths| ==>
        (paths[i] != [] ==> (Root.key, paths[i][0].key) in h.edges) &&
        forall j :: 0 <= j < |paths[i]| - 1 ==> (paths[i][j].key, paths[i][j + 1].key) in h.edges
    decreases |paths|
  {
    if paths != [] {
      var init := paths[..|paths| - 1];
      var last := paths[|paths| - 1];
      var b := Built(g, init);
      assert b.ok;
      BuildPaths(g, init);
      var h := AddPath(b.graph, last).value;
      assert Built(g, paths).graph == h;
      AddPathGrows(b.graph, last);
      AddPathEdges(b.graph, last);
      forall i | 0 <= i < |paths| ensures
        (paths[i] != [] ==> (Root.key, paths[i][0].key) in h.edges) &&
        forall j :: 0 <= j < |paths[i]| - 1 ==> (paths[i][j].key, paths[i][j + 1].key) in h.edges
      {
        if i < |init| {
          assert paths[i] == init[i];
        }
      }
    }
  }

  /** After a complete build, a key is named exactly when it was named
      before or occurs on some path, and then by its last occurrence. */
  lemma BuildNames(g: Graph, paths: seq<seq<CategoryNode>>, k: string)
    requires Built(g, paths).ok
    ensures var names := Built(g, paths).graph.names; var last := LastName(AllNodes(paths), k);
      (last.Some? ==> k in names && names[k] == last.value) &&
      (last.None? ==> (k in names <==> k in g.names))
  {
    BuildNamesAll(g, paths);
    NamedIsLastName(g.names, AllNodes(paths), k);
  }

  class CategoryBuilder {
    var graph: Graph

    constructor ()
      ensures graph == EmptyGraph
    {
      graph := EmptyGraph;
    }

    /** `build_from_products`, given the products' category paths. */
    method BuildFromProducts(paths: seq<seq<CategoryNode>>) returns (r: Result<()>)
      modifies this
      ensures Built(old(graph), paths) == Build(graph, r.Ok?)
    {
      for i := 0 to |paths|
        invariant Built(old(graph), paths[..i]) == Build(graph, true)
      {
        assert paths[..i + 1][..i] == paths[..i];
        ghost var before := graph;
        var fullPath := [Root] + paths[i];
        var keys := KeysOf(fullPath);
        var pairs := PairsOfNeighbors(keys);
        graph := WithEdges(graph, pairs);
        ghost var withEdges := graph;
        for j := 0 to |fullPath|
          invariant graph == withEdges.(names := Named(withEdges.names, fullPath[..j]))
          invariant j > 0 ==> Root.key in withEdges.nodes
        {
          var node := fullPath[j];
          if node.key !in graph.nodes {
            if j > 0 {
              assert false;
            }
            if paths[i] != [] {
              assert false;
            }
            assert graph == before;
            BuiltStaysFailed(old(graph), paths, i + 1);
            assert paths[..|paths|] == paths;
            return Err(KeyError);
          }
          assert fullPath[..j + 1][..j] == fullPath[..j];
          graph := graph.(names := graph.names[node.key := node.name]);
        }
        assert fullPath[..|fullPath|] == fullPath;
        if paths[i] == [] {
          assert withEdges.nodes == before.nodes;
        }
      }
      assert paths[..|paths|] == paths;
      r := Ok(());
    }
  }

  lemma {:induction false} BuiltStaysFailed(g: Graph, paths: seq<seq<CategoryNode>>, n: nat)
    requires n <= |paths| && !Built(g, paths[..n]).ok
    ensures Built(g, paths) == Built(g, paths[..n])
    decreases |paths| - n
  {
    if n < |paths| {
      assert paths[..n + 1][..n] == paths[..n];
      BuiltStaysFailed(g, paths, n + 1);
    } else {
      assert paths[..n] == paths;
    }
  }

  // ---------------------------------------------------------------------
  // replace_swed_chars_with_russian
  // ---------------------------------------------------------------------

  /** The substitution table, in its dictionary order. */
  const SwedishToRussian: seq<(char, char)> := [('Ä', 'Э'), ('Ö', 'У'), ('Å', 'O')]

  /** A character after the substitutions of `table`, in order. */
  function Substituted(c: char, table: seq<(char, char)>): char
    decreases |table|
  {
    if table == [] then c
    else
      var d := Substituted(c, table[..|table| - 1]);
      if d == table[|table| - 1].0 then table[|table| - 1].1 else d
  }

  /** The table maps Ä to Э, Ö to У and Å to O, and leaves every other
      character alone. */
  lemma SwedishToRussianTable(c: char)
    ensures Substituted(c, SwedishToRussian) ==
      if c == 'Ä' then 'Э' else if c == 'Ö' then 'У' else if c == 'Å' then 'O' else c
  {
    var t := SwedishToRussian;
    var c1 := if c == 'Ä' then 'Э' else c;
    var c2 := if c1 == 'Ö' then 'У' else c1;
    assert t[..1][..0] == [] && t[..1] == [('Ä', 'Э')];
    assert Substituted(c, t[..1]) == c1;
    assert t[..2][..1] == t[..1] && t[..2] == [('Ä', 'Э'), ('Ö', 'У')];
    assert Substituted(c, t[..2]) == c2;
    assert t[..3][..2] == t[..2] && t[..3] == t;
  }

  /** `replace_swed_chars_with_russian`: one `str.replace` per entry of
      the table. The result has the input's length, maps each character
      through the table and holds no Ä, Ö or Å. */
  method ReplaceSwedChars(word: string) returns (r: string)
    ensures |r| == |word|
    ensures forall i :: 0 <= i < |word| ==> r[i] == Substituted(word[i], SwedishToRussian)
    ensures forall i :: 0 <= i < |r| ==> r[i] != 'Ä' && r[i] != 'Ö' && r[i] != 'Å'
  {
    var table := SwedishToRussian;
    r := word;
    for t := 0 to |table|
      invariant |r| == |word|
      invariant forall i :: 0 <= i < |word| ==> r[i] == Substituted(word[i], table[..t])
    {
      var (key, val) := table[t];
      ReplaceCharAt(r, key, val);
      assert table[..t + 1][..t] == table[..t];
      r := ReplaceAll(r, [key], [val]);
    }
    assert table[..|table|] == table;
    forall i | 0 <= i < |r| ensures r[i] != 'Ä' && r[i] != 'Ö' && r[i] != 'Å' {
      SwedishToRussianTable(word[i]);
    }
  }

  // ---------------------------------------------------------------------
  // translate_text
  // ---------------------------------------------------------------------

  /** The translation service: the translated text for a text, a target
      and a source language, `None` when the call raises. */
  type Service = (Value, string, string) -> Option<string>

  const SourceLanguage: string := "sr"

  /** `dict_unsuccessful_translation`. */
  const Fallbacks: map<string, string> := map[
    "en" := "Unfortunately, translation for this article is not available.",
    "ru" := "К сожалению, перевод этого продукта недоступен."
  ]

  /** `translate_text`: a target other than `ru` and `en` raises
      `ValueError`; a failing service call yields the fixed sentence of the
      target language. */
  function TranslateText(text: Value, target: string, source: string, service: Service): (r: Result<string>)
    ensures r.Err? <==> target !in Fallbacks
    ensures r.Err? ==> r.error == ValueError
    ensures r.Ok? && service(text, target, source).None? ==> r.value == Fallbacks[target]
    ensures r.Ok? && service(text, target, source).Some? ==> r.value == service(text, target, source).value
  {
    if target != "ru" && target != "en" then Err(ValueError)
    else match service(text, target, source)
      case None => Ok(Fallbacks[target])
      case Some(t) => Ok(t)
  }

  // ---------------------------------------------------------------------
  // translate_single_product
  // ---------------------------------------------------------------------

  /** A product dictionary that functions update in place. */
  class ProductDict {
    var fields: Record

    constructor (fields: Record)
      ensures this.fields == fields
    {
      this.fields := fields;
    }
  }

  /** `translate_text(text, lang)` from Serbian, as a field value. */
  function Translation(text: Value, lang: string, service: Service): Value
    requires lang == "ru" || lang == "en"
  {
    Str(TranslateText(text, lang, SourceLanguage, service).value)
  }

  /** `d[key] = d.get(key, default)`: a value already under `key` is kept,
      a missing one becomes `default`, and no other field changes. */
  function SetDefault(d: Record, key: string, default: Value): (e: Record)
    ensures e.Keys == d.Keys + {key}
    ensures key !in d ==> e[key] == default
    ensures forall k :: k in d ==> e[k] == d[k]
  {
    if key in d then d else d[key := default]
  }

  /** The dictionary after `translate_single_product`, and whether it
      raised: a missing source field raises `KeyError` after the fields
      before it were written. */
  datatype Translated = Translated(fields: Record, raised: bool)

  const NameRu: string := "product_name_ru"
  const NameEn: string := "product_name_en"
  const DescRu: string := "product_description_ru"
  const DescEn: string := "product_description_en"
  const LongRu: string := "product_long_description_ru"
  const LongEn: string := "product_long_description_en"

  /** The four description translations. */
  const TranslationKeys: set<string> := {DescRu, DescEn, LongRu, LongEn}

  /** The fields the translation reads and writes are all different. */
  lemma FieldNamesDistinct()
    ensures NameRu != NameEn && DescRu != DescEn && LongRu != LongEn
    ensures "product_description" !in {NameRu, NameEn}
    ensures "product_long_description" !in {NameRu, NameEn, DescRu, DescEn}
    ensures NameRu !in TranslationKeys && NameEn !in TranslationKeys
  {
    assert NameRu[13] != NameEn[13];
    assert DescRu[20] != DescEn[20];
    assert LongRu[25] != LongEn[25];
  }

  /** The two `d[...] = d.get(..., translate_text(d[src], ...))` lines for
      one source field, Russian first: existing values are kept and the
      missing ones get the service's translation of `d[src]`. */
  function FillTranslations(d: Record, src: string, ru: string, en: string, service: Service): (e: Record)
    requires src in d
    ensures e.Keys == d.Keys + {ru, en}
    ensures forall k :: k in d ==> e[k] == d[k]
    ensures ru !in d ==> e[ru] == Translation(d[src], "ru", service)
    ensures en !in d && en != ru ==> e[en] == Translation(d[src], "en", service)
  {
    var d2 := SetDefault(d, ru, Translation(d[src], "ru", service));
    SetDefault(d2, en, Translation(d2[src], "en", service))
  }

  function TranslatedProduct(d: Record, service: Service): Translated {
    if "product_name" !in d then Translated(d, true)
    else
      var name := d["product_name"];
      var d1 := d[NameRu := name][NameEn := name];
      if "product_description" !in d1 then Translated(d1, true)
      else
        var d3 := FillTranslations(d1, "product_description", DescRu, DescEn, service);
        if "product_long_description" !in d3 then Translated(d3, true)
        else Translated(FillTranslations(d3, "product_long_description", LongRu, LongEn, service), false)
  }

  /** Both name fields copy the product name; the call raises exactly when
      a source field is missing. */
  lemma TranslatedProductNames(d: Record, service: Service)
    ensures var t := TranslatedProduct(d, service);
      (t.raised <==> !("product_name" in d && "product_description" in d && "product_long_description" in d)) &&
      ("product_name" in d ==> (NameRu in t.fields && NameEn in t.fields &&
        t.fields[NameRu] == d["product_name"] && t.fields[NameEn] == d["product_name"])) &&
      ("product_name" !in d ==> t.fields == d)
  {
  }

  /** A translation already in the dictionary is kept whatever happens,
      and no field other than the names and the translations changes. */
  lemma TranslatedProductKeeps(d: Record, service: Service)
    ensures var t := TranslatedProduct(d, service);
      (forall k :: k in TranslationKeys && k in d ==> k in t.fields && t.fields[k] == d[k]) &&
      (forall k :: k in d && k !in TranslationKeys && k != NameRu && k != NameEn ==> k in t.fields && t.fields[k] == d[k]) &&
      t.fields.Keys <= d.Keys + TranslationKeys + {NameRu, NameEn}
  {
    FieldNamesDistinct();
    if "product_name" in d {
      var name := d["product_name"];
      var d1 := d[NameRu := name][NameEn := name];
      assert forall k :: k in d && k != NameRu && k != NameEn ==> d1[k] == d[k];
      if "product_description" in d1 {
        var d3 := FillTranslations(d1, "product_description", DescRu, DescEn, service);
        if "product_long_description" in d3 {
          var d5 := FillTranslations(d3, "product_long_description", LongRu, LongEn, service);
          assert TranslatedProduct(d, service) == Translated(d5, false);
        }
      }
    }
  }

  /** When the call runs to the end, each translation that was missing
      holds the service's translation of its source field (or the
      fallback sentence). */
  lemma TranslatedProductFills(d: Record, service: Service)
    ensures var t := TranslatedProduct(d, service);
      !t.raised ==>
        (DescRu !in d ==> t.fields[DescRu] == Translation(d["product_description"], "ru", service)) &&
        (DescEn !in d ==> t.fields[DescEn] == Translation(d["product_description"], "en", service)) &&
        (LongRu !in d ==> t.fields[LongRu] == Translation(d["product_long_description"], "ru", service)) &&
        (LongEn !in d ==> t.fields[LongEn] == Translation(d["product_long_description"], "en", service))
  {
    FieldNamesDistinct();
    if "product_name" in d && "product_description" in d && "product_long_description" in d {
      var name := d["product_name"];
      var d1 := d[NameRu := name][NameEn := name];
      assert d1["product_description"] == d["product_description"];
      var d3 := FillTranslations(d1, "product_description", DescRu, DescEn, service);
      assert d3["product_long_description"] == d["product_long_description"];
      var d5 := FillTranslations(d3, "product_long_description", LongRu, LongEn, service);
      assert TranslatedProduct(d, service) == Translated(d5, false);
    }
  }

  /** `translate_single_product`: the dictionary is updated key by key;
      `dict.get`'s default is computed (and the service called) even when
      the key is there. */
  method TranslateSingleProduct(product: ProductDict, service: Service) returns (r: Result<()>)
    modifies product
    ensures TranslatedProduct(old(product.fields), service) == Translated(product.fields, r.Err?)
  {
    if "product_name" !in product.fields {
      return Err(KeyError);
    }
    product.fields := product.fields[NameRu := product.fields["product_name"]];
    product.fields := product.fields[NameEn := product.fields["product_name"]];
    if "product_description" !in product.fields {
      return Err(KeyError);
    }
    var ru := TranslateText(product.fields["product_description"], "ru", SourceLanguage, service);
    product.fields := SetDefault(product.fields, DescRu, Str(ru.value));
    var en := TranslateText(product.fields["product_description"], "en", SourceLanguage, service);
    product.fields := SetDefault(product.fields, DescEn, Str(en.value));
    if "product_long_description" !in product.fields {
      return Err(KeyError);
    }
    ru := TranslateText(product.fields["product_long_description"], "ru", SourceLanguage, service);
    product.fields := SetDefault(product.fields, LongRu, Str(ru.value));
    en := TranslateText(product.fields["product_long_description"], "en", SourceLanguage, service);
    product.fields := SetDefault(product.fields, LongEn, Str(en.value));
    r := Ok(());
  }
}
