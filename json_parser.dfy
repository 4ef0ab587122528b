/**
 * `JSONParser`: builds a table from the value `json.load` returns. The
 * decoder is abstract; its result is a `Value`.
 */
module JsonParser {
  import opened Results
  import opened Dicts
  import opened Values
  import opened Text
  import opened DataModel
  import opened BaseParser

  /** The keyword arguments `parse` reads; None when the caller did not pass one. */
  datatype JsonOptions = JsonOptions(encoding: Option<string>, dataKey: Option<string>)

  const UnsupportedShape := "Format JSON non supporté"
  const NotObjects := "Les éléments JSON doivent être des objets"

  /**
   * The exception a decoder failure becomes: a syntax error or a decoding
   * error is an InvalidFormatError naming the file; anything else escapes.
   */
  function ReadError(path: string, f: Failure): (e: Error)
    ensures f.OtherFailure? <==> !e.InvalidFormat?
    ensures f.OtherFailure? ==> e == Unhandled(f.detail)
    ensures e.InvalidFormat? ==> Contains(e.message, path)
    ensures f.SyntaxFailure? ==> Contains(e.message, f.detail)
  {
    match f
    case SyntaxFailure(detail) => InvalidFormat(SyntaxMessage("JSON", path, detail))
    case DecodeFailure(_) =>
      ContainsMiddle("Erreur d'encodage dans ", path, "");
      assert "Erreur d'encodage dans " + path + "" == "Erreur d'encodage dans " + path;
      InvalidFormat("Erreur d'encodage dans " + path)
    case OtherFailure(detail) => Unhandled(detail)
  }

  /**
   * The object the parser takes as its rows: a top-level list, the value under
   * `dataKey` of a dictionary holding it, or a one-element list around any
   * other dictionary; any other top-level value is refused.
   */
  function SelectRows(content: Value, dataKey: string): Result<Value>
  {
    match content
    case List(_) => Ok(content)
    case Object(fields) =>
      if HasKey(fields, dataKey) then Ok(Get(fields, dataKey).value) else Ok(List([content]))
    case _ => Err(InvalidFormat(UnsupportedShape))
  }

  /**
   * The rows stored for that object. An empty list, string or dictionary is an
   * empty table. A non-empty list must start with a dictionary. Indexing a
   * non-empty string gives a one-character string, which is not a dictionary;
   * indexing a non-empty dictionary with 0 is a KeyError; `None`, booleans and
   * numbers support neither `len` nor indexing, a TypeError.
   */
  function Records(rows: Value): Result<seq<Value>>
  {
    match rows
    case List(items) => if items != [] && !items[0].Object? then Err(InvalidFormat(NotObjects)) else Ok(items)
    case Str(s) => if s == "" then Ok([]) else Err(InvalidFormat(NotObjects))
    case Object(fields) => if fields == [] then Ok([]) else Err(KeyError)
    case _ => Err(TypeError)
  }

  /** The headers: the keys of the first record in its own order, or none. */
  function HeadersOf(records: seq<Value>): seq<string>
    requires records == [] || records[0].Object?
  {
    if records == [] then [] else Keys(records[0].fields)
  }

  function JsonMetadata(path: string, encoding: string, rowsCount: nat, columnsCount: nat): Dict<Value>
  {
    [("source", Str(path)), ("format", Str("json")), ("encoding", Str(encoding)),
     ("rows_count", Int(rowsCount)), ("columns_count", Int(columnsCount))]
  }

  /**
   * `JSONParser.parse`: a top-level list is the rows as they are; a dictionary
   * holding `dataKey` (default `data`) gives the value under it; any other
   * dictionary is a one-row table; any other value is an InvalidFormatError.
   * Headers are the first row's keys; the other rows are neither checked nor
   * completed.
   */
  function ParseJson(path: string, opts: JsonOptions, source: Outcome<Value>, now: string): (r: Result<StandardData>)
    ensures source.Missing? ==> r == Err(FileNotFound(path))
    ensures source.Raised? ==> r == Err(ReadError(path, source.failure))
    ensures source.Loaded? && source.content.List? ==>
              var items := source.content.items;
              (r.Ok? <==> items == [] || items[0].Object?) &&
              (r.Ok? ==> r.value.rows == items) &&
              (r.Err? ==> r.error == InvalidFormat(NotObjects))
    ensures source.Loaded? && source.content.Object? && HasKey(source.content.fields, GetOr(opts.dataKey, "data")) &&
            Get(source.content.fields, GetOr(opts.dataKey, "data")).value.List? ==>
              var items := Get(source.content.fields, GetOr(opts.dataKey, "data")).value.items;
              (r.Ok? <==> items == [] || items[0].Object?) &&
              (r.Ok? ==> r.value.rows == items) &&
              (r.Err? ==> r.error == InvalidFormat(NotObjects))
    ensures source.Loaded? && source.content.Object? && !HasKey(source.content.fields, GetOr(opts.dataKey, "data")) ==>
              r.Ok? && r.value.rows == [source.content] && r.value.headers == Keys(source.content.fields)
    ensures source.Loaded? && !source.content.List? && !source.content.Object? ==>
              r == Err(InvalidFormat(UnsupportedShape))
    ensures r.Ok? ==> source.Loaded?
    ensures r.Ok? && r.value.rows == [] ==> r.value.headers == []
    ensures r.Ok? && r.value.rows != [] ==>
              r.value.rows[0].Object? && r.value.headers == Keys(r.value.rows[0].fields)
  {
    match source
    case Missing => Err(FileNotFound(path))
    case Raised(f) => Err(ReadError(path, f))
    case Loaded(content) =>
      match SelectRows(content, GetOr(opts.dataKey, "data"))
      case Err(e) => Err(e)
      case Ok(rows) =>
        match Records(rows)
        case Err(e) => Err(e)
        case Ok(records) =>
          var headers := HeadersOf(records);
          var md := JsonMetadata(path, GetOr(opts.encoding, "utf-8"), |records|, |headers|);
          Ok(Create(headers, records, md, now))
  }

  /**
   * Under `dataKey`, an empty string or dictionary is an empty table, a
   * non-empty string is refused as not holding objects, a non-empty dictionary
   * is a KeyError, and `None`, a boolean or a number is a TypeError.
   */
  lemma ParseJsonKeyedScalars(path: string, opts: JsonOptions, content: Value, now: string)
    requires content.Object? && HasKey(content.fields, GetOr(opts.dataKey, "data"))
    ensures var v := Get(content.fields, GetOr(opts.dataKey, "data")).value;
            var r := ParseJson(path, opts, Loaded(content), now);
            (v in {Str(""), Object([])} ==> r.Ok? && r.value.rows == [] && r.value.headers == []) &&
            (v.Str? && v.s != "" ==> r == Err(InvalidFormat(NotObjects))) &&
            (v.Object? && v.fields != [] ==> r == Err(KeyError)) &&
            (v.Null? || v.Bool? || v.Int? || v.Float? ==> r == Err(TypeError))
  {
  }

  lemma JsonMetadataKeys(path: string, encoding: string, rowsCount: nat, columnsCount: nat, now: string)
    ensures !HasKey(JsonMetadata(path, encoding, rowsCount, columnsCount), ParsedAt)
    ensures var m := JsonMetadata(path, encoding, rowsCount, columnsCount) + [(ParsedAt, Str(now))];
            DistinctKeys(m) && Keys(m) == ["source", "format", "encoding", "rows_count", "columns_count", ParsedAt]
  {
    var m := JsonMetadata(path, encoding, rowsCount, columnsCount);
    assert ParsedAt !in KeySet(m);
  }

  lemma JsonMetadataValues(path: string, encoding: string, rowsCount: nat, columnsCount: nat, now: string)
    ensures var m := JsonMetadata(path, encoding, rowsCount, columnsCount) + [(ParsedAt, Str(now))];
            Get(m, "source") == Some(Str(path)) && Get(m, "format") == Some(Str("json")) &&
            Get(m, "encoding") == Some(Str(encoding)) && Get(m, "rows_count") == Some(Int(rowsCount)) &&
            Get(m, "columns_count") == Some(Int(columnsCount)) && Get(m, ParsedAt) == Some(Str(now))
  {
    var m := JsonMetadata(path, encoding, rowsCount, columnsCount) + [(ParsedAt, Str(now))];
    JsonMetadataKeys(path, encoding, rowsCount, columnsCount, now);
    GetAt(m, 0); GetAt(m, 1); GetAt(m, 2); GetAt(m, 3); GetAt(m, 4); GetAt(m, 5);
  }

  /**
   * The metadata of a successful parse: source, format `json`, encoding
   * (default `utf-8`), the row and column counts, then `parsed_at`.
   */
  lemma ParseJsonMetadata(path: string, opts: JsonOptions, source: Outcome<Value>, now: string)
    requires ParseJson(path, opts, source, now).Ok?
    ensures var data := ParseJson(path, opts, source, now).value;
            var m := data.metadata;
            DistinctKeys(m) &&
            Keys(m) == ["source", "format", "encoding", "rows_count", "columns_count", ParsedAt] &&
            Get(m, "source") == Some(Str(path)) && Get(m, "format") == Some(Str("json")) &&
            Get(m, "encoding") == Some(Str(GetOr(opts.encoding, "utf-8"))) &&
            Get(m, "rows_count") == Some(Int(data.Length())) &&
            Get(m, "columns_count") == Some(Int(|data.headers|)) &&
            Get(m, ParsedAt) == Some(Str(now))
  {
    var rows := SelectRows(source.content, GetOr(opts.dataKey, "data")).value;
    var records := Records(rows).value;
    var headers := HeadersOf(records);
    var enc := GetOr(opts.encoding, "utf-8");
    var md := JsonMetadata(path, enc, |records|, |headers|);
    assert ParseJson(path, opts, source, now).value == Create(headers, records, md, now);
    JsonMetadataKeys(path, enc, |records|, |headers|, now);
    JsonMetadataValues(path, enc, |records|, |headers|, now);
    CreateAppendsStamp(headers, records, md, now);
  }

  /**
   * `JSONParser.validate`: False for a path that does not exist or whose
   * extension is not `.json`; otherwise whether decoding the file succeeds.
   */
  predicate ValidateJson(path: string, present: bool, readable: bool)
    ensures ValidateJson(path, present, readable) ==> present && Extension(path) == ".json"
    ensures present && Extension(path) == ".json" ==> (ValidateJson(path, present, readable) <==> readable)
  {
    Validate(path, present, ".json", readable)
  }
}
