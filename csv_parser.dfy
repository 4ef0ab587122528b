/**
 * `CSVParser`: builds a table from what `csv.DictReader` reads. Splitting the
 * text into fields is abstract: the reader yields the header line's field
 * names (None for an empty file) and then the remaining lines, each already
 * split into its fields; either step can raise. How `DictReader` turns those
 * lines into records is modelled.
 */
module CsvParser {
  import opened Results
  import opened Dicts
  import opened Values
  import opened Text
  import opened DataModel
  import opened BaseParser

  /** The keyword arguments `parse` reads; None when the caller did not pass one. */
  datatype CsvOptions = CsvOptions(
    delimiter: Option<string>,
    encoding: Option<string>,
    quotechar: Option<string>,
    skipInitialSpace: Option<bool>)

  /** The options once every default is filled in. */
  datatype CsvSettings = CsvSettings(delimiter: string, encoding: string, quotechar: string, skipInitialSpace: bool)

  /** One step of the reader: it returns a value or raises. */
  datatype Step<+T> = Read(value: T) | Fails(failure: Failure)

  /**
   * What the reader produces once the file is open: the field names of the
   * header line, then every later line as `csv.reader` splits it (a blank line
   * is an empty list of fields).
   */
  datatype CsvReader = CsvReader(fieldnames: Step<Option<seq<string>>>, lines: Step<seq<seq<string>>>)

  /** The lines `DictReader` makes records of: it skips blank lines and keeps the others in order. */
  function NonBlank(lines: seq<seq<string>>): (r: seq<seq<string>>)
    ensures forall k :: 0 <= k < |r| ==> r[k] != []
    ensures multiset(r) == multiset(lines)[[] := 0]
  {
    if lines == [] then []
    else
      var n := |lines| - 1;
      assert lines == lines[..n] + [lines[n]];
      if lines[n] == [] then NonBlank(lines[..n]) else NonBlank(lines[..n]) + [lines[n]]
  }

  /** Skipping blank lines keeps the order of the others: it distributes over concatenation. */
  lemma {:induction false} NonBlankAppend(a: seq<seq<string>>, b: seq<seq<string>>)
    ensures NonBlank(a + b) == NonBlank(a) + NonBlank(b)
    decreases |b|
  {
    if b == [] {
      assert a + b == a;
    } else {
      var n := |b| - 1;
      assert (a + b)[..|a + b| - 1] == a + b[..n];
      NonBlankAppend(a, b[..n]);
    }
  }

  /** The cell for the `j`-th field name: the `j`-th field, or None (`restval`) past the end of the line. */
  function FieldCell(fields: seq<string>, j: nat): (v: Value)
    ensures j < |fields| ==> v == Str(fields[j])
    ensures j >= |fields| ==> v == Null
  {
    if j < |fields| then Str(fields[j]) else Null
  }

  /**
   * One record of `DictReader`: the fields paired with the field names in
   * order (a later duplicate name overwrites an earlier one), and every name
   * past the last field set to None, the default `restval`.
   */
  function DictRow(names: seq<string>, fields: seq<string>): Dict<Value>
  {
    if names == [] then []
    else
      var n := |names| - 1;
      Put(DictRow(names[..n], fields), names[n], FieldCell(fields, n))
  }

  /** A record's keys are exactly the field names, each once. */
  lemma {:induction false} DictRowKeys(names: seq<string>, fields: seq<string>)
    ensures KeySet(DictRow(names, fields)) == Elems(names) && DistinctKeys(DictRow(names, fields))
  {
    if names != [] {
      DictRowKeys(names[..|names| - 1], fields);
      ElemsLast(names);
    }
  }

  /** With distinct field names, a record lists its keys in header order. */
  lemma {:induction false} DictRowOrder(names: seq<string>, fields: seq<string>)
    requires forall i, j :: 0 <= i < j < |names| ==> names[i] != names[j]
    ensures Keys(DictRow(names, fields)) == names
  {
    if names != [] {
      var n := |names| - 1;
      DictRowOrder(names[..n], fields);
      DictRowKeys(names[..n], fields);
      assert names[n] !in Elems(names[..n]);
      PutKeys(DictRow(names[..n], fields), names[n], FieldCell(fields, n));
      assert names == names[..n] + [names[n]];
    }
  }

  /**
   * The cell under a field name is the field at that name's last position in
   * the header line, or None when the line is shorter than that.
   */
  lemma {:induction false} DictRowCell(names: seq<string>, fields: seq<string>, j: nat)
    requires j < |names| && LastPosition(names, j)
    ensures Get(DictRow(names, fields), names[j]) == Some(FieldCell(fields, j))
    decreases |names|, 1
  {
    if j < |names| - 1 {
      DictRowCellBefore(names, fields, j);
    } else {
      DictRowLast(names, fields);
    }
  }

  /** The inductive case of `DictRowCell`: the name's last position is before the last field name. */
  lemma {:induction false} DictRowCellBefore(names: seq<string>, fields: seq<string>, j: nat)
    requires j < |names| - 1 && LastPosition(names, j)
    ensures Get(DictRow(names, fields), names[j]) == Some(FieldCell(fields, j))
    decreases |names|, 0
  {
    LastPositionInit(names, j);
    DictRowCell(names[..|names| - 1], fields, j);
    DictRowEarlier(names, fields, j);
  }

  /** `j` is the last position of `names[j]` in `names`. */
  predicate LastPosition(names: seq<string>, j: nat)
    requires j < |names|
  {
    forall k :: j < k < |names| ==> names[k] != names[j]
  }

  lemma LastPositionInit(names: seq<string>, j: nat)
    requires j < |names| - 1 && LastPosition(names, j)
    ensures names[..|names| - 1][j] == names[j] && LastPosition(names[..|names| - 1], j)
  {
    var init := names[..|names| - 1];
    forall k | j < k < |init| ensures init[k] != init[j] {
      assert init[k] == names[k];
    }
  }

  /** The last field name gets its own field, or None. */
  lemma DictRowLast(names: seq<string>, fields: seq<string>)
    requires names != []
    ensures var n := |names| - 1;
            Get(DictRow(names, fields), names[n]) == Some(FieldCell(fields, n))
  {
  }

  /** A cell set before the last field name keeps its value when that name differs. */
  lemma DictRowEarlier(names: seq<string>, fields: seq<string>, j: nat)
    requires j < |names| - 1 && names[|names| - 1] != names[j]
    requires Get(DictRow(names[..|names| - 1], fields), names[..|names| - 1][j]) == Some(FieldCell(fields, j))
    ensures Get(DictRow(names, fields), names[j]) == Some(FieldCell(fields, j))
  {
    assert names[..|names| - 1][j] == names[j];
    DictRowOther(names, fields, names[j]);
  }

  /** The last field name does not touch the cells under the other names. */
  lemma DictRowOther(names: seq<string>, fields: seq<string>, k: string)
    requires names != [] && k != names[|names| - 1]
    ensures Get(DictRow(names, fields), k) == Get(DictRow(names[..|names| - 1], fields), k)
  {
  }

  /** The records `list(reader)` returns: one per non-blank line, in file order. */
  function Records(names: seq<string>, lines: seq<seq<string>>): seq<Value>
  {
    var nb := NonBlank(lines);
    seq(|nb|, k requires 0 <= k < |nb| => Object(DictRow(names, nb[k])))
  }

  /** Defaults: comma delimiter, UTF-8, double-quote quoting, initial spaces skipped. */
  function Resolve(opts: CsvOptions): (s: CsvSettings)
    ensures opts == CsvOptions(None, None, None, None) ==> s == CsvSettings(",", "utf-8", "\"", true)
    ensures opts.delimiter.Some? ==> s.delimiter == opts.delimiter.value
    ensures opts.encoding.Some? ==> s.encoding == opts.encoding.value
    ensures opts.quotechar.Some? ==> s.quotechar == opts.quotechar.value
    ensures opts.skipInitialSpace.Some? ==> s.skipInitialSpace == opts.skipInitialSpace.value
  {
    CsvSettings(GetOr(opts.delimiter, ","), GetOr(opts.encoding, "utf-8"),
                GetOr(opts.quotechar, "\""), GetOr(opts.skipInitialSpace, true))
  }

  /**
   * The exception a reader failure becomes: a syntax error or a decoding
   * error is an InvalidFormatError naming the file; anything else escapes.
   */
  function ReadError(path: string, f: Failure): (e: Error)
    ensures f.OtherFailure? <==> !e.InvalidFormat?
    ensures f.OtherFailure? ==> e == Unhandled(f.detail)
    ensures e.InvalidFormat? ==> Contains(e.message, path)
    ensures f.SyntaxFailure? ==> Contains(e.message, f.detail)
  {
    match f
    case SyntaxFailure(detail) => InvalidFormat(SyntaxMessage("CSV", path, detail))
    case DecodeFailure(_) =>
      ContainsMiddle("Erreur d'encodage dans ", path, ". Essayez un autre encodage.");
      InvalidFormat("Erreur d'encodage dans " + path + ". Essayez un autre encodage.")
    case OtherFailure(detail) => Unhandled(detail)
  }

  function NoHeaderMessage(path: string): string
  {
    "Aucun header trouvé dans " + path
  }

  /** The metadata a successful parse records, before `parsed_at` is stamped. */
  function CsvMetadata(path: string, settings: CsvSettings, rowsCount: nat, columnsCount: nat): Dict<Value>
  {
    [("source", Str(path)), ("format", Str("csv")), ("delimiter", Str(settings.delimiter)),
     ("encoding", Str(settings.encoding)), ("rows_count", Int(rowsCount)), ("columns_count", Int(columnsCount))]
  }

  lemma CsvMetadataKeys(path: string, settings: CsvSettings, rowsCount: nat, columnsCount: nat, now: string)
    ensures !HasKey(CsvMetadata(path, settings, rowsCount, columnsCount), ParsedAt)
    ensures var m := CsvMetadata(path, settings, rowsCount, columnsCount) + [(ParsedAt, Str(now))];
            DistinctKeys(m) &&
            Keys(m) == ["source", "format", "delimiter", "encoding", "rows_count", "columns_count", ParsedAt]
  {
    var m := CsvMetadata(path, settings, rowsCount, columnsCount);
    assert ParsedAt !in KeySet(m);
  }

  lemma CsvMetadataValues(path: string, settings: CsvSettings, rowsCount: nat, columnsCount: nat, now: string)
    ensures var m := CsvMetadata(path, settings, rowsCount, columnsCount) + [(ParsedAt, Str(now))];
            Get(m, "source") == Some(Str(path)) && Get(m, "format") == Some(Str("csv")) &&
            Get(m, "delimiter") == Some(Str(settings.delimiter)) && Get(m, "encoding") == Some(Str(settings.encoding)) &&
            Get(m, "rows_count") == Some(Int(rowsCount)) && Get(m, "columns_count") == Some(Int(columnsCount)) &&
            Get(m, ParsedAt) == Some(Str(now))
  {
    var m := CsvMetadata(path, settings, rowsCount, columnsCount) + [(ParsedAt, Str(now))];
    CsvMetadataKeys(path, settings, rowsCount, columnsCount, now);
    GetAt(m, 0); GetAt(m, 1); GetAt(m, 2); GetAt(m, 3); GetAt(m, 4); GetAt(m, 5); GetAt(m, 6);
  }

  /**
   * `CSVParser.parse`: the reader's field names become the headers and the
   * records `DictReader` makes of the other lines the rows, both in file
   * order; an absent or empty header line is an InvalidFormatError; a missing
   * file is a FileNotFoundError; a reader failure becomes what `ReadError` says.
   */
  function ParseCsv(path: string, opts: CsvOptions, source: Outcome<CsvReader>, now: string): (r: Result<StandardData>)
    ensures source.Missing? ==> r == Err(FileNotFound(path))
    ensures source.Raised? ==> r == Err(ReadError(path, source.failure))
    ensures source.Loaded? && source.content.fieldnames.Fails? ==>
              r == Err(ReadError(path, source.content.fieldnames.failure))
    ensures source.Loaded? && source.content.fieldnames.Read? && source.content.fieldnames.value in {None, Some([])} ==>
              r == Err(InvalidFormat(NoHeaderMessage(path)))
    ensures source.Loaded? && source.content.fieldnames.Read? && source.content.fieldnames.value.Some? &&
            source.content.fieldnames.value.value != [] && source.content.lines.Fails? ==>
              r == Err(ReadError(path, source.content.lines.failure))
    ensures r.Ok? <==>
              source.Loaded? && source.content.lines.Read? && source.content.fieldnames.Read? &&
              source.content.fieldnames.value.Some? && source.content.fieldnames.value.value != []
    ensures r.Ok? ==>
              r.value.headers == source.content.fieldnames.value.value &&
              r.value.rows == Records(r.value.headers, source.content.lines.value)
  {
    match source
    case Missing => Err(FileNotFound(path))
    case Raised(f) => Err(ReadError(path, f))
    case Loaded(reader) =>
      match reader.fieldnames
      case Fails(f) => Err(ReadError(path, f))
      case Read(names) =>
        if names.None? || names.value == [] then Err(InvalidFormat(NoHeaderMessage(path)))
        else
          match reader.lines
          case Fails(f) => Err(ReadError(path, f))
          case Read(lines) =>
            var headers := names.value;
            var rows := Records(headers, lines);
            Ok(Create(headers, rows, CsvMetadata(path, Resolve(opts), |rows|, |headers|), now))
  }

  /**
   * The metadata of a successful parse: source, format `csv`, delimiter,
   * encoding, the row and column counts, then `parsed_at`.
   */
  lemma ParseCsvMetadata(path: string, opts: CsvOptions, source: Outcome<CsvReader>, now: string)
    requires ParseCsv(path, opts, source, now).Ok?
    ensures var data := ParseCsv(path, opts, source, now).value;
            var m := data.metadata;
            DistinctKeys(m) &&
            Keys(m) == ["source", "format", "delimiter", "encoding", "rows_count", "columns_count", ParsedAt] &&
            Get(m, "source") == Some(Str(path)) && Get(m, "format") == Some(Str("csv")) &&
            Get(m, "delimiter") == Some(Str(Resolve(opts).delimiter)) &&
            Get(m, "encoding") == Some(Str(Resolve(opts).encoding)) &&
            Get(m, "rows_count") == Some(Int(data.Length())) &&
            Get(m, "columns_count") == Some(Int(|data.headers|)) &&
            Get(m, ParsedAt) == Some(Str(now))
  {
    var headers := source.content.fieldnames.value.value;
    var rows := Records(headers, source.content.lines.value);
    var md := CsvMetadata(path, Resolve(opts), |rows|, |headers|);
    assert ParseCsv(path, opts, source, now).value == Create(headers, rows, md, now);
    CsvMetadataKeys(path, Resolve(opts), |rows|, |headers|, now);
    CsvMetadataValues(path, Resolve(opts), |rows|, |headers|, now);
    CreateAppendsStamp(headers, rows, md, now);
  }

  /**
   * The rows of a successful parse: one per non-blank line, in file order.
   * Each is a dictionary keyed by exactly the field names, each once; under a
   * name is the line's field at that name's last position in the header line,
   * or None when the line is too short. A line with as many fields as the
   * header line therefore gives a string in every cell.
   */
  lemma ParseCsvRows(path: string, opts: CsvOptions, source: Outcome<CsvReader>, now: string)
    requires ParseCsv(path, opts, source, now).Ok?
    ensures var data := ParseCsv(path, opts, source, now).value;
            var lines := NonBlank(source.content.lines.value);
            |data.rows| == |lines| &&
            forall i :: 0 <= i < |data.rows| ==> RecordOf(data.headers, lines[i], data.rows[i])
  {
    var data := ParseCsv(path, opts, source, now).value;
    var lines := NonBlank(source.content.lines.value);
    forall i | 0 <= i < |data.rows| ensures RecordOf(data.headers, lines[i], data.rows[i]) {
      RecordFacts(data.headers, lines[i]);
    }
  }

  /** `row` is the record `DictReader` makes of `fields` under the field names `names`. */
  predicate RecordOf(names: seq<string>, fields: seq<string>, row: Value)
  {
    row.Object? && DistinctKeys(row.fields) && KeySet(row.fields) == Elems(names) &&
    forall j :: 0 <= j < |names| && LastPosition(names, j) ==>
      Get(row.fields, names[j]) == Some(FieldCell(fields, j))
  }

  lemma RecordFacts(names: seq<string>, fields: seq<string>)
    ensures RecordOf(names, fields, Object(DictRow(names, fields)))
  {
    DictRowKeys(names, fields);
    forall j | 0 <= j < |names| && LastPosition(names, j)
      ensures Get(DictRow(names, fields), names[j]) == Some(FieldCell(fields, j))
    {
      DictRowCell(names, fields, j);
    }
  }

  /**
   * `CSVParser.validate`: False for a path that does not exist or whose
   * extension is not `.csv`; otherwise whether a trial read with the default
   * settings succeeds.
   */
  predicate ValidateCsv(path: string, present: bool, readable: bool)
    ensures ValidateCsv(path, present, readable) ==> present && Extension(path) == ".csv"
    ensures present && Extension(path) == ".csv" ==> (ValidateCsv(path, present, readable) <==> readable)
  {
    Validate(path, present, ".csv", readable)
  }
}
