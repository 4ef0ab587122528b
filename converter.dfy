/**
 * `FormatConverter`: exports a table as CSV lines, a JSON array or an XML
 * element tree. The output is the structure handed to `csv.DictWriter`,
 * `json.dump` and `ElementTree.write`; the byte-level writing is not part of
 * the model.
 */
module Converter {
  import opened Results
  import opened Dicts
  import opened Values
  import opened Text
  import opened DataModel
  import opened BaseParser
  import JsonParser
  import opened XmlParser

  const ExtraFields := "dict contains fields not in fieldnames"

  /** What the CSV writer puts in a field: `''` for None, `str(v)` for anything else. */
  function CsvField(v: Value): (f: string)
    ensures v.Null? ==> f == ""
    ensures v.Str? ==> f == v.s
    ensures !v.Null? ==> f == StrOf(v)
  {
    if v.Null? then "" else StrOf(v)
  }

  /**
   * The fields `DictWriter` writes for one row: one per header, in header
   * order, `''` where the row lacks the header. A row with a key outside the
   * headers is a ValueError; a row that is not a dictionary an AttributeError.
   */
  function CsvLine(headers: seq<string>, row: Value): (r: Result<seq<string>>)
    ensures r.Ok? <==> row.Object? && KeySet(row.fields) <= Elems(headers)
    ensures !row.Object? ==> r == Err(AttributeError)
    ensures row.Object? && !(KeySet(row.fields) <= Elems(headers)) ==> r == Err(ValueError(ExtraFields))
    ensures r.Ok? ==> |r.value| == |headers|
    ensures r.Ok? ==> forall k :: 0 <= k < |headers| ==>
              r.value[k] == (if HasKey(row.fields, headers[k]) then CsvField(Get(row.fields, headers[k]).value) else "")
  {
    if !row.Object? then Err(AttributeError)
    else if !(KeySet(row.fields) <= Elems(headers)) then Err(ValueError(ExtraFields))
    else
      Ok(seq(|headers|, k requires 0 <= k < |headers| =>
               match Get(row.fields, headers[k]) case None => "" case Some(v) => CsvField(v)))
  }

  /** The record element for one row: one child per key, in the row's own key order, with text `str(value)`. */
  function RecordChildren(fields: Dict<Value>): (cs: seq<Element>)
    ensures |cs| == |fields|
    ensures forall k :: 0 <= k < |fields| ==> cs[k] == Element(fields[k].0, Some(StrOf(fields[k].1)), [])
  {
    seq(|fields|, k requires 0 <= k < |fields| => Element(fields[k].0, Some(StrOf(fields[k].1)), []))
  }

  /** The tree `to_xml` builds: a `rootTag` element with one `rowTag` record per row, in row order. */
  function XmlTree(rows: seq<Value>, rootTag: string, rowTag: string): (r: Result<Element>)
    ensures r.Ok? <==> forall i :: 0 <= i < |rows| ==> rows[i].Object?
    ensures r.Err? ==> r.error == AttributeError
    ensures r.Ok? ==> r.value.tag == rootTag && r.value.text.None? && |r.value.children| == |rows|
    ensures r.Ok? ==> forall i :: 0 <= i < |rows| ==>
              r.value.children[i] == Element(rowTag, None, RecordChildren(rows[i].fields))
  {
    if forall i :: 0 <= i < |rows| ==> rows[i].Object? then
      Ok(Element(rootTag, None, seq(|rows|, i requires 0 <= i < |rows| =>
                                       Element(rowTag, None, RecordChildren(rows[i].fields)))))
    else Err(AttributeError)
  }

  class FormatConverter {
    const data: StandardData

    constructor(data: StandardData)
      ensures this.data == data
    {
      this.data := data;
    }

    /**
     * `to_csv`: the header line is the headers, then one line per row in row
     * order. Writing stops at the first row the writer refuses: the lines
     * before it have been written and its error is raised.
     */
    method ToCsv() returns (lines: seq<seq<string>>, error: Option<Error>)
      ensures 1 <= |lines| <= |data.rows| + 1 && lines[0] == data.headers
      ensures forall i :: 0 <= i < |lines| - 1 ==> CsvLine(data.headers, data.rows[i]) == Ok(lines[i + 1])
      ensures error.None? <==> |lines| == |data.rows| + 1
      ensures error.Some? ==> CsvLine(data.headers, data.rows[|lines| - 1]) == Err(error.value)
    {
      lines := [data.headers];
      error := None;
      var i := 0;
      while i < |data.rows|
        invariant 0 <= i <= |data.rows| && |lines| == i + 1 && lines[0] == data.headers
        invariant forall k :: 0 <= k < i ==> CsvLine(data.headers, data.rows[k]) == Ok(lines[k + 1])
      {
        match CsvLine(data.headers, data.rows[i]) {
          case Ok(fields) =>
            lines := lines + [fields];
          case Err(e) =>
            error := Some(e);
            return;
        }
        i := i + 1;
      }
    }

    /** `to_json`: exactly the rows, as one array, in order; headers and metadata are not written. */
    function ToJson(): (doc: Value)
      ensures doc.List? && doc.items == data.rows
    {
      List(data.rows)
    }

    /**
     * `to_xml`: builds the tree record by record and child by child. A row
     * that is not a dictionary is an AttributeError and nothing is written.
     */
    method ToXml(rootTag: string := "data", rowTag: string := "record") returns (r: Result<Element>)
      ensures r == XmlTree(data.rows, rootTag, rowTag)
    {
      var records: seq<Element> := [];
      for i := 0 to |data.rows|
        invariant |records| == i
        invariant forall k :: 0 <= k < i ==> data.rows[k].Object?
        invariant forall k :: 0 <= k < i ==> records[k] == Element(rowTag, None, RecordChildren(data.rows[k].fields))
      {
        var row := data.rows[i];
        if !row.Object? {
          assert !data.rows[i].Object?;
          return Err(AttributeError);
        }
        var children: seq<Element> := [];
        for j := 0 to |row.fields|
          invariant children == RecordChildren(row.fields[..j])
        {
          var (key, value) := row.fields[j];
          children := children + [Element(key, Some(StrOf(value)), [])];
        }
        assert row.fields[..|row.fields|] == row.fields;
        records := records + [Element(rowTag, None, children)];
      }
      var tree := XmlTree(data.rows, rootTag, rowTag);
      assert tree.Ok?;
      assert tree.value.children == records;
      r := Ok(Element(rootTag, None, records));
    }
  }

  /**
   * JSON export then import: a table whose rows are empty or start with a
   * dictionary comes back with the same rows, and the first row's keys as
   * headers.
   */
  lemma JsonRoundTrip(data: StandardData, path: string, now: string)
    requires data.rows == [] || data.rows[0].Object?
    ensures var back := JsonParser.ParseJson(path, JsonParser.JsonOptions(None, None), Loaded(List(data.rows)), now);
            back.Ok? && back.value.rows == data.rows &&
            back.value.headers == (if data.rows == [] then [] else Keys(data.rows[0].fields))
  {
  }

  /** A string the XML reader gives back unchanged once stripped. */
  predicate StrippedText(v: Value)
  {
    v.Str? && Strip(v.s) == v.s
  }

  /**
   * Reading back one exported record rebuilds the row: its children, set one
   * after the other, give the original dictionary when its keys are distinct
   * and its values stripped strings.
   */
  lemma {:induction false} RecordRoundTrip(fields: Dict<Value>)
    requires DistinctKeys(fields)
    requires forall k :: 0 <= k < |fields| ==> StrippedText(fields[k].1)
    ensures RowOf(RecordChildren(fields)) == fields
    decreases |fields|
  {
    if fields != [] {
      var n := |fields| - 1;
      var init := fields[..n];
      var cs := RecordChildren(fields);
      assert cs[..n] == RecordChildren(init);
      RecordRoundTrip(init);
      assert RowOf(cs) == Put(init, fields[n].0, Str(CellText(cs[n])));
      assert Str(CellText(cs[n])) == fields[n].1 by {
        assert StrippedText(fields[n].1);
      }
      PutLast(fields);
    }
  }

  /** Setting the last key of a dictionary without repeated keys onto the others rebuilds it. */
  lemma PutLast(fields: Dict<Value>)
    requires fields != [] && DistinctKeys(fields)
    ensures var n := |fields| - 1; Put(fields[..n], fields[n].0, fields[n].1) == fields
  {
    var n := |fields| - 1;
    var init := fields[..n];
    forall m | 0 <= m < |init| ensures init[m].0 != fields[n].0 {
      assert init[m] == fields[m];
    }
    PutAbsent(init, fields[n].0, fields[n].1);
    assert init + [fields[n]] == fields;
  }

  /** A row holding every header needs no backfill. */
  lemma {:induction false} BackfillComplete(row: Dict<Value>, headers: seq<string>)
    requires Elems(headers) <= KeySet(row)
    ensures Backfill(row, headers) == row
    decreases |headers|
  {
    if headers != [] {
      var n := |headers| - 1;
      var init := headers[..n];
      assert Elems(init) <= KeySet(row) by {
        forall x | x in Elems(init) ensures x in KeySet(row) {
          assert x in headers;
        }
      }
      BackfillComplete(row, init);
      assert HasKey(row, headers[n]) by {
        assert headers[n] in Elems(headers);
      }
    }
  }

  /** The union of the record tags of an exported tree is the union of the rows' keys. */
  lemma {:induction false} ExportedTags(rows: seq<Value>, rowTag: string, headers: seq<string>)
    requires forall i :: 0 <= i < |rows| ==> rows[i].Object? && KeySet(rows[i].fields) == Elems(headers)
    ensures |rows| > 0 ==>
              TagSet(seq(|rows|, i requires 0 <= i < |rows| => Element(rowTag, None, RecordChildren(rows[i].fields))))
                == Elems(headers)
    decreases |rows|
  {
    var items := seq(|rows|, i requires 0 <= i < |rows| => Element(rowTag, None, RecordChildren(rows[i].fields)));
    if |rows| > 0 {
      var n := |rows| - 1;
      RecordTags(rows[n].fields);
      if n > 0 {
        ExportedTags(rows[..n], rowTag, headers);
        assert items[..n] == seq(n, i requires 0 <= i < n => Element(rowTag, None, RecordChildren(rows[..n][i].fields)));
      } else {
        assert items[..n] == [];
      }
    }
  }

  /** The tags of an exported record are the keys of its row. */
  lemma RecordTags(fields: Dict<Value>)
    ensures ChildTags(RecordChildren(fields)) == KeySet(fields)
  {
    var cs := RecordChildren(fields);
    forall x ensures x in ChildTags(cs) <==> x in KeySet(fields) {
      if x in ChildTags(cs) {
        var c :| c in cs && c.tag == x;
        var m :| 0 <= m < |cs| && cs[m] == c;
        assert fields[m].0 == x;
      }
      if x in KeySet(fields) {
        var m :| 0 <= m < |fields| && fields[m].0 == x;
        assert cs[m].tag == x;
      }
    }
  }

  /**
   * XML export then import: a table as the XML reader produces it (sorted
   * headers, every row holding exactly the headers, stripped string cells)
   * is rebuilt exactly: each record becomes its row again and the sorted
   * union of the record tags is the headers.
   */
  lemma XmlRoundTrip(data: StandardData, rootTag: string, rowTag: string)
    requires StrictlySorted(data.headers) && (data.rows == [] ==> data.headers == [])
    requires forall i :: 0 <= i < |data.rows| ==>
               data.rows[i].Object? && DistinctKeys(data.rows[i].fields) &&
               KeySet(data.rows[i].fields) == Elems(data.headers) &&
               forall k :: 0 <= k < |data.rows[i].fields| ==> StrippedText(data.rows[i].fields[k].1)
    ensures XmlTree(data.rows, rootTag, rowTag).Ok?
    ensures var items := SelectItems(XmlTree(data.rows, rootTag, rowTag).value, None);
            |items| == |data.rows| &&
            TagSet(items) == Elems(data.headers) &&
            forall i :: 0 <= i < |items| ==> Object(Backfill(RowOf(items[i].children), data.headers)) == data.rows[i]
    ensures forall hs :: StrictlySorted(hs) && Elems(hs) == Elems(data.headers) ==> hs == data.headers
  {
    var tree := XmlTree(data.rows, rootTag, rowTag).value;
    var items := tree.children;
    assert items == seq(|data.rows|, i requires 0 <= i < |data.rows| =>
                          Element(rowTag, None, RecordChildren(data.rows[i].fields)));
    ExportedTags(data.rows, rowTag, data.headers);
    if data.rows == [] {
      assert Elems(data.headers) == {};
    }
    forall i | 0 <= i < |items|
      ensures Object(Backfill(RowOf(items[i].children), data.headers)) == data.rows[i]
    {
      RecordRoundTrip(data.rows[i].fields);
      BackfillComplete(data.rows[i].fields, data.headers);
    }
    forall hs | StrictlySorted(hs) && Elems(hs) == Elems(data.headers)
      ensures hs == data.headers
    {
      SortedUnique(hs, data.headers);
    }
  }
}
