/**
 * `XMLParser`: builds a table from the element tree `ET.parse` returns. The
 * tokeniser is abstract; its result is an `Element` tree. Each item element
 * is one row, each child of an item one cell keyed by the child's tag.
 */
module XmlParser {
  import opened Results
  import opened Dicts
  import opened Values
  import opened Text
  import opened DataModel
  import opened BaseParser

  /** An element of the tree: its tag, its text (None when it has none) and its children. */
  datatype Element = Element(tag: string, text: Option<string>, children: seq<Element>)

  /** The keyword arguments `parse` reads; None when the caller did not pass one. */
  datatype XmlOptions = XmlOptions(encoding: Option<string>, rootTag: Option<string>, itemTag: Option<string>)

  /** All elements below `cs`, each followed by its own descendants: document order. */
  function DescendantsOf(cs: seq<Element>): (ds: seq<Element>)
    ensures forall c :: c in cs ==> c in ds
    ensures |ds| >= |cs|
    decreases cs
  {
    if cs == [] then []
    else
      assert cs[0] in cs;
      [cs[0]] + DescendantsOf(cs[0].children) + DescendantsOf(cs[1..])
  }

  /** The elements of `es` with tag `tag`, in their order, each as often as it occurs there. */
  function WithTag(es: seq<Element>, tag: string): (r: seq<Element>)
    ensures |r| <= |es|
    ensures forall e :: e in r <==> e in es && e.tag == tag
    ensures forall e :: multiset(r)[e] == if e.tag == tag then multiset(es)[e] else 0
  {
    if es == [] then []
    else
      assert es == [es[0]] + es[1..];
      if es[0].tag == tag then [es[0]] + WithTag(es[1..], tag) else WithTag(es[1..], tag)
  }

  /**
   * The items: with a non-empty `item_tag`, every descendant of the root with
   * that tag (`root.findall('.//tag')`), in document order; otherwise the
   * root's direct children.
   */
  function SelectItems(root: Element, itemTag: Option<string>): (items: seq<Element>)
    ensures itemTag.None? || itemTag.value == "" ==> items == root.children
    ensures itemTag.Some? && itemTag.value != "" ==>
              forall e :: e in items <==> e in DescendantsOf(root.children) && e.tag == itemTag.value
    ensures itemTag.Some? && itemTag.value != "" ==>
              forall e :: multiset(items)[e] == if e.tag == itemTag.value then multiset(DescendantsOf(root.children))[e] else 0
  {
    if itemTag.Some? && itemTag.value != "" then WithTag(DescendantsOf(root.children), itemTag.value)
    else root.children
  }

  /** The descendants of consecutive siblings are those of the first ones, then those of the rest. */
  lemma {:induction false} DescendantsAppend(a: seq<Element>, b: seq<Element>)
    ensures DescendantsOf(a + b) == DescendantsOf(a) + DescendantsOf(b)
    decreases |a|
  {
    if a == [] {
      assert a + b == b;
    } else {
      assert (a + b)[0] == a[0] && (a + b)[1..] == a[1..] + b;
      DescendantsAppend(a[1..], b);
    }
  }

  /**
   * An element is a descendant of `cs` exactly when it is one of `cs` or a
   * descendant of one of them: every level of the tree is searched.
   */
  lemma {:induction false} DescendantsMember(cs: seq<Element>, d: Element)
    ensures d in DescendantsOf(cs) <==>
              exists i :: 0 <= i < |cs| && (d == cs[i] || d in DescendantsOf(cs[i].children))
    decreases |cs|
  {
    if cs != [] {
      DescendantsMember(cs[1..], d);
      if exists i :: 0 <= i < |cs[1..]| && (d == cs[1..][i] || d in DescendantsOf(cs[1..][i].children)) {
        var i :| 0 <= i < |cs[1..]| && (d == cs[1..][i] || d in DescendantsOf(cs[1..][i].children));
        assert cs[1..][i] == cs[i + 1];
      }
      if exists i :: 0 <= i < |cs| && (d == cs[i] || d in DescendantsOf(cs[i].children)) {
        var i :| 0 <= i < |cs| && (d == cs[i] || d in DescendantsOf(cs[i].children));
        if i > 0 {
          assert cs[1..][i - 1] == cs[i];
        }
      }
    }
  }

  /** Keeping the elements with a tag distributes over concatenation: their order is kept. */
  lemma {:induction false} WithTagAppend(a: seq<Element>, b: seq<Element>, tag: string)
    ensures WithTag(a + b, tag) == WithTag(a, tag) + WithTag(b, tag)
    decreases |a|
  {
    if a == [] {
      assert a + b == b;
    } else {
      assert (a + b)[0] == a[0] && (a + b)[1..] == a[1..] + b;
      WithTagAppend(a[1..], b, tag);
    }
  }

  /**
   * `findall('.//tag')` as one depth-first walk: for each element in turn,
   * the element itself when it carries the tag, then the matches below it.
   */
  function FindAll(es: seq<Element>, tag: string): seq<Element>
    decreases es
  {
    if es == [] then []
    else
      assert es[0] in es;
      (if es[0].tag == tag then [es[0]] else []) + FindAll(es[0].children, tag) + FindAll(es[1..], tag)
  }

  /** Filtering the document-order descendants is the depth-first walk. */
  lemma {:induction false} WithTagIsFindAll(es: seq<Element>, tag: string)
    ensures WithTag(DescendantsOf(es), tag) == FindAll(es, tag)
    decreases es
  {
    if es != [] {
      assert es[0] in es;
      var e := es[0];
      WithTagIsFindAll(e.children, tag);
      WithTagIsFindAll(es[1..], tag);
      WithTagAppend([e] + DescendantsOf(e.children), DescendantsOf(es[1..]), tag);
      WithTagAppend([e], DescendantsOf(e.children), tag);
    }
  }

  /** With a non-empty `item_tag`, the items are exactly what the depth-first walk below the root finds, in that order. */
  lemma SelectItemsInDocumentOrder(root: Element, tag: string)
    requires tag != ""
    ensures SelectItems(root, Some(tag)) == FindAll(root.children, tag)
  {
    WithTagIsFindAll(root.children, tag);
  }

  /** A cell: the child's text with surrounding whitespace stripped, `''` without text. */
  function CellText(e: Element): string
  {
    Strip(if e.text.Some? then e.text.value else "")
  }

  /** The row of one item, as the loop over its children builds it: each child sets its tag's cell. */
  function RowOf(cs: seq<Element>): Dict<Value>
  {
    if cs == [] then [] else Put(RowOf(cs[..|cs| - 1]), cs[|cs| - 1].tag, Str(CellText(cs[|cs| - 1])))
  }

  /** The tags of a list of children. */
  function ChildTags(cs: seq<Element>): set<string>
  {
    set c | c in cs :: c.tag
  }

  /** The union of the child tags of every item. */
  function TagSet(items: seq<Element>): set<string>
  {
    if items == [] then {} else TagSet(items[..|items| - 1]) + ChildTags(items[|items| - 1].children)
  }

  /** A row once the backfill loop has run over `headers`: each absent header gets `''`. */
  function Backfill(row: Dict<Value>, headers: seq<string>): Dict<Value>
  {
    if headers == [] then row
    else
      var r := Backfill(row, headers[..|headers| - 1]);
      var h := headers[|headers| - 1];
      if HasKey(r, h) then r else Put(r, h, Str(""))
  }

  /** `sorted(headers_set)`: the tags in ascending order, each once. */
  method SortTags(tags: set<string>) returns (headers: seq<string>)
    ensures StrictlySorted(headers) && Elems(headers) == tags
  {
    headers := [];
    var rest := tags;
    while rest != {}
      invariant StrictlySorted(headers)
      invariant Elems(headers) + rest == tags
      decreases |rest|
    {
      var t :| t in rest;
      headers := Insert(headers, t);
      rest := rest - {t};
    }
  }

  lemma RowOfSnoc(cs: seq<Element>, c: Element)
    ensures RowOf(cs + [c]) == Put(RowOf(cs), c.tag, Str(CellText(c)))
  {
    assert (cs + [c])[..|cs|] == cs;
  }

  /** The last child sets its own tag's cell. */
  lemma RowOfLast(cs: seq<Element>)
    requires cs != []
    ensures Get(RowOf(cs), cs[|cs| - 1].tag) == Some(Str(CellText(cs[|cs| - 1])))
  {
  }

  /** The last child leaves the cells of other tags alone. */
  lemma RowOfOther(cs: seq<Element>, tag: string)
    requires cs != [] && cs[|cs| - 1].tag != tag
    ensures Get(RowOf(cs), tag) == Get(RowOf(cs[..|cs| - 1]), tag)
  {
  }

  /** The last child adds its tag to the keys. */
  lemma RowOfKeySet(cs: seq<Element>)
    requires cs != []
    ensures KeySet(RowOf(cs)) == KeySet(RowOf(cs[..|cs| - 1])) + {cs[|cs| - 1].tag}
  {
  }

  lemma LaterTagsDiffer(cs: seq<Element>, j: nat)
    requires j < |cs| - 1
    requires forall k :: j < k < |cs| ==> cs[k].tag != cs[j].tag
    ensures var init := cs[..|cs| - 1]; init[j] == cs[j] && forall k :: j < k < |init| ==> init[k].tag != init[j].tag
  {
  }

  /** One more child of the prefix: its cell is set and its tag is added. */
  lemma RowOfPrefix(cs: seq<Element>, j: nat)
    requires j < |cs|
    ensures RowOf(cs[..j + 1]) == Put(RowOf(cs[..j]), cs[j].tag, Str(CellText(cs[j])))
    ensures ChildTags(cs[..j + 1]) == ChildTags(cs[..j]) + {cs[j].tag}
  {
    assert cs[..j + 1] == cs[..j] + [cs[j]];
    RowOfSnoc(cs[..j], cs[j]);
    ChildTagsSnoc(cs[..j], cs[j]);
  }

  lemma ChildTagsSnoc(cs: seq<Element>, c: Element)
    ensures ChildTags(cs + [c]) == ChildTags(cs) + {c.tag}
  {
  }

  lemma ChildTagsLast(cs: seq<Element>)
    requires cs != []
    ensures ChildTags(cs) == ChildTags(cs[..|cs| - 1]) + {cs[|cs| - 1].tag}
  {
    assert cs == cs[..|cs| - 1] + [cs[|cs| - 1]];
    ChildTagsSnoc(cs[..|cs| - 1], cs[|cs| - 1]);
  }

  lemma TagSetPrefix(items: seq<Element>, i: nat)
    requires i < |items|
    ensures TagSet(items[..i + 1]) == TagSet(items[..i]) + ChildTags(items[i].children)
  {
    assert items[..i + 1][..i] == items[..i];
  }

  /** The inner loop over one item's children: its row and the tags it adds. */
  method ReadItem(children: seq<Element>) returns (row: Dict<Value>, tags: set<string>)
    ensures row == RowOf(children) && tags == ChildTags(children)
  {
    row, tags := [], {};
    for j := 0 to |children|
      invariant row == RowOf(children[..j])
      invariant tags == ChildTags(children[..j])
    {
      RowOfPrefix(children, j);
      row := Put(row, children[j].tag, Str(CellText(children[j])));
      tags := tags + {children[j].tag};
    }
    assert children[..|children|] == children;
  }

  /** The outer loop over the items: one row per item, in item order, and the union of their tags. */
  method CollectRows(items: seq<Element>) returns (rows: seq<Dict<Value>>, tags: set<string>)
    ensures |rows| == |items| && tags == TagSet(items)
    ensures forall i :: 0 <= i < |items| ==> rows[i] == RowOf(items[i].children)
  {
    rows, tags := [], {};
    for i := 0 to |items|
      invariant |rows| == i
      invariant forall k :: 0 <= k < i ==> rows[k] == RowOf(items[k].children)
      invariant tags == TagSet(items[..i])
    {
      var row, itemTags := ReadItem(items[i].children);
      TagSetPrefix(items, i);
      rows := rows + [row];
      tags := tags + itemTags;
    }
    assert items[..|items|] == items;
  }

  /** The backfill of one row: each header it lacks is added with `''`. */
  method BackfillRow(row: Dict<Value>, headers: seq<string>) returns (filled: Dict<Value>)
    ensures filled == Backfill(row, headers)
  {
    filled := row;
    for j := 0 to |headers|
      invariant filled == Backfill(row, headers[..j])
    {
      assert headers[..j + 1][..j] == headers[..j];
      if !HasKey(filled, headers[j]) {
        filled := Put(filled, headers[j], Str(""));
      }
    }
    assert headers[..|headers|] == headers;
  }

  /**
   * The body of `parse` once the items are known: one row per item built
   * child by child while the tags are collected, the sorted headers, then
   * every row completed with `''` for the headers it lacks.
   */
  method BuildRows(items: seq<Element>) returns (headers: seq<string>, rows: seq<Dict<Value>>)
    ensures StrictlySorted(headers) && Elems(headers) == TagSet(items)
    ensures |rows| == |items|
    ensures forall i :: 0 <= i < |items| ==> rows[i] == Backfill(RowOf(items[i].children), headers)
  {
    var tags;
    rows, tags := CollectRows(items);
    headers := SortTags(tags);
    for i := 0 to |rows|
      invariant |rows| == |items|
      invariant forall k :: 0 <= k < i ==> rows[k] == Backfill(RowOf(items[k].children), headers)
      invariant forall k :: i <= k < |rows| ==> rows[k] == RowOf(items[k].children)
    {
      var filled := BackfillRow(rows[i], headers);
      rows := rows[i := filled];
    }
  }

  /** Rows as the table stores them: each dictionary as an object value. */
  function Objects(ds: seq<Dict<Value>>): (vs: seq<Value>)
    ensures |vs| == |ds| && forall k :: 0 <= k < |ds| ==> vs[k] == Object(ds[k])
  {
    seq(|ds|, k requires 0 <= k < |ds| => Object(ds[k]))
  }

  /**
   * The exception a tokeniser failure becomes: always an InvalidFormatError
   * naming the file and quoting the failure; a syntax error reads `Format XML
   * invalide`, anything else `Impossible de parser`.
   */
  function ReadError(path: string, f: Failure): (e: Error)
    ensures e.InvalidFormat? && Contains(e.message, path) && Contains(e.message, f.detail)
    ensures f.SyntaxFailure? ==> e == InvalidFormat(SyntaxMessage("XML", path, f.detail))
    ensures !f.SyntaxFailure? ==> e == InvalidFormat(FailureMessage(path, f.detail))
  {
    match f
    case SyntaxFailure(detail) => InvalidFormat(SyntaxMessage("XML", path, detail))
    case _ => InvalidFormat(FailureMessage(path, f.detail))
  }

  /** The message of any other failure: `Impossible de parser <path>: <detail>`. */
  function FailureMessage(path: string, detail: string): (msg: string)
    ensures Contains(msg, path) && Contains(msg, detail)
    ensures "Impossible de parser " <= msg
  {
    var msg := "Impossible de parser " + path + ": " + detail;
    ContainsMiddle("Impossible de parser ", path, ": " + detail);
    ContainsMiddle("Impossible de parser " + path + ": ", detail, "");
    assert msg == "Impossible de parser " + path + (": " + detail);
    assert msg == "Impossible de parser " + path + ": " + detail + "";
    msg
  }


  /** The metadata of a document without items, before `parsed_at` is stamped. */
  function EmptyMetadata(path: string, encoding: string): Dict<Value>
  {
    [("source", Str(path)), ("format", Str("xml")), ("encoding", Str(encoding)),
     ("rows_count", Int(0)), ("columns_count", Int(0))]
  }

  /** The metadata of a document with items, before `parsed_at` is stamped. */
  function XmlMetadata(path: string, encoding: string, rootTag: string, rowsCount: nat, columnsCount: nat): Dict<Value>
  {
    [("source", Str(path)), ("format", Str("xml")), ("encoding", Str(encoding)), ("root_tag", Str(rootTag)),
     ("rows_count", Int(rowsCount)), ("columns_count", Int(columnsCount))]
  }

  /**
   * `XMLParser.parse`: one row per selected item, in item order; the headers
   * are the sorted union of the items' child tags; every row is completed with
   * `''` so that its keys are exactly the headers. The `encoding` option is
   * only recorded and the `root_tag` option is not used. Without items the
   * table is empty and the metadata has no `root_tag`.
   */
  method ParseXml(path: string, opts: XmlOptions, source: Outcome<Element>, now: string) returns (r: Result<StandardData>)
    ensures source.Missing? ==> r == Err(FileNotFound(path))
    ensures source.Raised? ==> r == Err(ReadError(path, source.failure))
    ensures r.Ok? <==> source.Loaded?
    ensures r.Ok? ==> TableOf(path, opts, source.content, now, r.value)
  {
    match source {
      case Missing =>
        r := Err(FileNotFound(path));
      case Raised(f) =>
        r := Err(ReadError(path, f));
      case Loaded(root) =>
        var data := ReadTree(path, opts, root, now);
        r := Ok(data);
    }
  }

  /**
   * What a successful parse of the tree `root` promises: one row per item,
   * headers strictly sorted and equal to the union of the child tags, row i
   * the backfilled row of item i, every row holding exactly the headers once
   * each, and the metadata of a document with or without items, stamped.
   */
  ghost predicate TableOf(path: string, opts: XmlOptions, root: Element, now: string, data: StandardData)
  {
    var items := SelectItems(root, opts.itemTag);
    var enc := GetOr(opts.encoding, "utf-8");
    |data.rows| == |items| &&
    StrictlySorted(data.headers) && Elems(data.headers) == TagSet(items) &&
    (forall i :: 0 <= i < |items| ==> data.rows[i] == Object(Backfill(RowOf(items[i].children), data.headers))) &&
    (forall i :: 0 <= i < |data.rows| ==>
       data.rows[i].Object? && DistinctKeys(data.rows[i].fields) &&
       KeySet(data.rows[i].fields) == Elems(data.headers)) &&
    data.metadata ==
      (if items == [] then EmptyMetadata(path, enc)
       else XmlMetadata(path, enc, root.tag, |items|, |data.headers|)) + [(ParsedAt, Str(now))]
  }

  /** The body of `parse` once the tree is loaded. */
  method ReadTree(path: string, opts: XmlOptions, root: Element, now: string) returns (data: StandardData)
    ensures TableOf(path, opts, root, now, data)
  {
    var encoding := GetOr(opts.encoding, "utf-8");
    var items := SelectItems(root, opts.itemTag);
    if items == [] {
      var md := EmptyMetadata(path, encoding);
      EmptyMetadataUnstamped(path, encoding);
      CreateAppendsStamp([], [], md, now);
      data := Create([], [], md, now);
      return;
    }
    var headers, rows := BuildRows(items);
    Rectangular(items, headers, rows);
    var md := XmlMetadata(path, encoding, root.tag, |rows|, |headers|);
    XmlMetadataUnstamped(path, encoding, root.tag, |rows|, |headers|);
    CreateAppendsStamp(headers, Objects(rows), md, now);
    data := Create(headers, Objects(rows), md, now);
  }


  /**
   * Rectangularity: once backfilled, the keys of every row are exactly the
   * headers, each once, when the headers are the union of the child tags.
   */
  lemma Rectangular(items: seq<Element>, headers: seq<string>, rows: seq<Dict<Value>>)
    requires Elems(headers) == TagSet(items) && |rows| == |items|
    requires forall i :: 0 <= i < |items| ==> rows[i] == Backfill(RowOf(items[i].children), headers)
    ensures forall i :: 0 <= i < |rows| ==> DistinctKeys(rows[i]) && KeySet(rows[i]) == Elems(headers)
  {
    forall i | 0 <= i < |rows|
      ensures DistinctKeys(rows[i]) && KeySet(rows[i]) == Elems(headers)
    {
      RowOfKeys(items[i].children);
      RowOfDistinct(items[i].children);
      ChildTagsInTagSet(items, i);
      BackfillKeys(RowOf(items[i].children), headers);
      BackfillDistinct(RowOf(items[i].children), headers);
    }
  }

  /** Each child sets the cell of its tag, so the row's keys are exactly the item's child tags. */
  lemma {:induction false} RowOfKeys(cs: seq<Element>)
    ensures KeySet(RowOf(cs)) == ChildTags(cs)
    decreases |cs|
  {
    if cs != [] {
      RowOfKeys(cs[..|cs| - 1]);
      RowOfKeySet(cs);
      ChildTagsLast(cs);
    }
  }

  lemma {:induction false} RowOfDistinct(cs: seq<Element>)
    ensures DistinctKeys(RowOf(cs))
    decreases |cs|
  {
    if cs != [] {
      RowOfDistinct(cs[..|cs| - 1]);
    }
  }

  /** Every cell an item produces is a string. */
  lemma {:induction false} RowOfStrings(cs: seq<Element>)
    ensures forall k :: Get(RowOf(cs), k).Some? ==> Get(RowOf(cs), k).value.Str?
    decreases |cs|
  {
    if cs != [] {
      RowOfStrings(cs[..|cs| - 1]);
    }
  }

  /**
   * When a tag repeats within an item, the last child with that tag gives the
   * cell: its text, stripped.
   */
  lemma {:induction false} RowOfLastWins(cs: seq<Element>, j: nat)
    requires j < |cs|
    requires forall k :: j < k < |cs| ==> cs[k].tag != cs[j].tag
    ensures Get(RowOf(cs), cs[j].tag) == Some(Str(CellText(cs[j])))
    decreases |cs|
  {
    if j == |cs| - 1 {
      RowOfLast(cs);
    } else {
      LaterTagsDiffer(cs, j);
      RowOfLastWins(cs[..|cs| - 1], j);
      RowOfOther(cs, cs[j].tag);
    }
  }

  /** One more header: it is added with `''` when absent, and every other cell is unchanged. */
  lemma BackfillStep(row: Dict<Value>, headers: seq<string>, k: string)
    requires headers != []
    ensures var r, h := Backfill(row, headers[..|headers| - 1]), headers[|headers| - 1];
            KeySet(Backfill(row, headers)) == KeySet(r) + {h} &&
            Get(Backfill(row, headers), k) == if k == h && !HasKey(r, h) then Some(Str("")) else Get(r, k)
  {
  }

  lemma {:induction false} BackfillKeys(row: Dict<Value>, headers: seq<string>)
    ensures KeySet(Backfill(row, headers)) == KeySet(row) + Elems(headers)
    decreases |headers|
  {
    if headers != [] {
      BackfillKeys(row, headers[..|headers| - 1]);
      BackfillStep(row, headers, headers[|headers| - 1]);
      ElemsLast(headers);
    }
  }

  lemma {:induction false} BackfillDistinct(row: Dict<Value>, headers: seq<string>)
    requires DistinctKeys(row)
    ensures DistinctKeys(Backfill(row, headers))
    decreases |headers|
  {
    if headers != [] {
      BackfillDistinct(row, headers[..|headers| - 1]);
    }
  }

  /**
   * After the backfill, a cell the item had is unchanged, a header the item
   * lacked holds `''`, and nothing else is added.
   */
  lemma {:induction false} BackfillCell(row: Dict<Value>, headers: seq<string>, k: string)
    ensures Get(Backfill(row, headers), k) ==
              if HasKey(row, k) then Get(row, k)
              else if k in Elems(headers) then Some(Str(""))
              else None
    decreases |headers|
  {
    if headers != [] {
      BackfillCell(row, headers[..|headers| - 1], k);
      BackfillKeys(row, headers[..|headers| - 1]);
      BackfillStep(row, headers, k);
      ElemsLast(headers);
    }
  }

  lemma {:induction false} ChildTagsInTagSet(items: seq<Element>, i: nat)
    requires i < |items|
    ensures ChildTags(items[i].children) <= TagSet(items)
    decreases |items|
  {
    var n := |items| - 1;
    if i < n {
      ChildTagsInTagSet(items[..n], i);
    }
  }

  lemma EmptyMetadataUnstamped(path: string, encoding: string)
    ensures !HasKey(EmptyMetadata(path, encoding), ParsedAt)
  {
    assert ParsedAt !in KeySet(EmptyMetadata(path, encoding));
  }

  lemma XmlMetadataUnstamped(path: string, encoding: string, rootTag: string, rowsCount: nat, columnsCount: nat)
    ensures !HasKey(XmlMetadata(path, encoding, rootTag, rowsCount, columnsCount), ParsedAt)
  {
    assert ParsedAt !in KeySet(XmlMetadata(path, encoding, rootTag, rowsCount, columnsCount));
  }

  /** Without items the metadata has no `root_tag`: source, format, encoding, the zero counts, `parsed_at`. */
  lemma EmptyMetadataKeys(path: string, encoding: string, now: string)
    ensures var m := EmptyMetadata(path, encoding) + [(ParsedAt, Str(now))];
            DistinctKeys(m) && !HasKey(m, "root_tag") &&
            Keys(m) == ["source", "format", "encoding", "rows_count", "columns_count", ParsedAt]
  {
    var m := EmptyMetadata(path, encoding) + [(ParsedAt, Str(now))];
    assert "root_tag" !in KeySet(m);
  }

  lemma EmptyMetadataValues(path: string, encoding: string, now: string)
    ensures var m := EmptyMetadata(path, encoding) + [(ParsedAt, Str(now))];
            Get(m, "format") == Some(Str("xml")) &&
            Get(m, "rows_count") == Some(Int(0)) && Get(m, "columns_count") == Some(Int(0))
  {
    var m := EmptyMetadata(path, encoding) + [(ParsedAt, Str(now))];
    EmptyMetadataKeys(path, encoding, now);
    GetAt(m, 1); GetAt(m, 3); GetAt(m, 4);
  }


  lemma XmlMetadataKeys(path: string, encoding: string, rootTag: string, rowsCount: nat, columnsCount: nat, now: string)
    ensures var m := XmlMetadata(path, encoding, rootTag, rowsCount, columnsCount) + [(ParsedAt, Str(now))];
            DistinctKeys(m) &&
            Keys(m) == ["source", "format", "encoding", "root_tag", "rows_count", "columns_count", ParsedAt]
  {
    assert ParsedAt !in KeySet(XmlMetadata(path, encoding, rootTag, rowsCount, columnsCount));
  }

  lemma XmlMetadataFacts(path: string, encoding: string, rootTag: string, rowsCount: nat, columnsCount: nat, now: string)
    ensures var m := XmlMetadata(path, encoding, rootTag, rowsCount, columnsCount) + [(ParsedAt, Str(now))];
            Get(m, "source") == Some(Str(path)) && Get(m, "format") == Some(Str("xml")) &&
            Get(m, "encoding") == Some(Str(encoding)) && Get(m, "root_tag") == Some(Str(rootTag)) &&
            Get(m, "rows_count") == Some(Int(rowsCount)) && Get(m, "columns_count") == Some(Int(columnsCount)) &&
            Get(m, ParsedAt) == Some(Str(now))
  {
    var m := XmlMetadata(path, encoding, rootTag, rowsCount, columnsCount) + [(ParsedAt, Str(now))];
    XmlMetadataKeys(path, encoding, rootTag, rowsCount, columnsCount, now);
    GetAt(m, 0); GetAt(m, 1); GetAt(m, 2); GetAt(m, 3); GetAt(m, 4); GetAt(m, 5); GetAt(m, 6);
  }

  /**
   * `XMLParser.validate`: False for a path that does not exist or whose
   * extension is not `.xml`; otherwise whether the tree parses.
   */
  predicate ValidateXml(path: string, present: bool, readable: bool)
    ensures ValidateXml(path, present, readable) ==> present && Extension(path) == ".xml"
    ensures present && Extension(path) == ".xml" ==> (ValidateXml(path, present, readable) <==> readable)
  {
    Validate(path, present, ".xml", readable)
  }
}
