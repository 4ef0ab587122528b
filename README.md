# project_parser: the normalisation core in Dafny

`project_parser` reads tabular files in three formats, CSV, JSON and XML. Each
format has its own adapter, and every adapter builds the same uniform table,
`StandardData`:

- ordered headers;
- ordered rows, each a dictionary from header to value;
- a metadata dictionary. Building the table stamps it with `parsed_at` unless
  the caller supplied that key.

A `ParserFactory` picks the adapter from the path's lower-cased extension. It
keeps a registry that callers can extend. A `FormatConverter` exports a table
back to CSV, JSON or XML.

This project models that core and proves what it promises:

- **Data model** (`data_model.dfy`):
  - `StandardData` keeps Python's indexing rules, negative indices included,
    Python's slicing without a step, and iteration.
  - `to_dict` keeps exactly three keys and loses nothing.
  - The `parsed_at` stamp is appended only when absent.
- **Shared adapter behaviour** (`base_parser.dfy`):
  - the extension is `PurePath.suffix`, lower-cased;
  - it ignores letter case and directories;
  - a missing file is a FileNotFoundError naming the path.
- **CSV** (`csv_parser.dfy`):
  - option defaults;
  - how `DictReader` makes records: blank lines skipped, fields paired with
    the header names, missing fields set to None;
  - the missing-header refusal;
  - the mapping from reader exceptions to errors;
  - the exact metadata.
- **JSON** (`json_parser.dfy`):
  - the list, keyed and single-object shapes;
  - refusal of any other top-level value, and of a list that does not start
    with a dictionary;
  - headers from the first row;
  - the exact metadata.
- **XML** (`xml_parser.dfy`), written as the loops of the source:
  - items are the root's children, or every descendant with a given tag, in
    document order;
  - each item gives a row of stripped child texts, where the last child
    with a tag wins;
  - the headers are the sorted, duplicate-free union of the child tags;
  - every row is backfilled with `''`, so that its keys are exactly the
    headers;
  - the metadata has no `root_tag` when there are no items.
- **Factory** (`factory.dfy`):
  - dispatch of `.csv`, `.json` and `.xml`;
  - refusal of anything else, with a message that names the extension and
    every accepted one;
  - registration normalises the key and overwrites in place;
  - the listing is in registration order.
- **Export** (`converter.dfy`):
  - CSV lines follow header order, and the first row the writer refuses stops
    the export;
  - the JSON document is the rows;
  - the XML tree has one record per row and one child per key;
  - round trips: JSON export then import keeps the rows, and XML export then
    import gives back a rectangular table.

Supporting modules:

- `results.dfy`: Option, Result and the exceptions.
- `dicts.dfy`: Python dictionaries as insertion-ordered association lists.
- `text.dfy`: `str.strip`, `str.lower`, string ordering, sorted insertion,
  `str.join`, `str(int)`.
- `values.dfy`: the values `json.load` produces, with `repr` and `str`.

Several things are parameters of the model rather than operations in it:

- The file system is a map from path to content, or an `Outcome`: missing,
  raised, or loaded with what the standard-library reader produced.
- The clock is the `now` parameter of the `parsed_at` stamp.
- The byte-level tokenisers (`csv.DictReader`, `json.load`,
  `ElementTree.parse`) are abstract. Their results and exceptions are inputs.
- In `validate`, whether the file exists and whether the trial read succeeds
  are the boolean parameters `present` and `readable` of the `Validate`
  predicates; they are not derived from the file map that `ReadFile` reads.

## Model

| member | source | states |
|---|---|---|
| Results.GetOr | project_parser/parsers/csv_parser.py:50-53 | `kwargs.get(k, default)`: the supplied value when present, else the default |
| Dicts.Keys | project_parser/parsers/json_parser.py:76 | `list(d.keys())`: one key per entry, in insertion order |
| Dicts.Get | project_parser/parsers/xml_parser.py:104 | lookup finds a value exactly when the key is present (`header not in row` is its negation) |
| Dicts.Put | project_parser/parsers/xml_parser.py:95 | after `d[k] = v`, `k` maps to `v`, every other key keeps its value, the key set gains `k`, and keys stay unique |
| Dicts.PutKeys | project_parser/parsers/parser_factory.py:91 | assignment keeps key order: a present key stays in place, a new key is appended |
| Dicts.PutAbsent | project_parser/models/data_model.py:35 | assigning an absent key appends exactly that entry at the end |
| Dicts.IndexOf | project_parser/parsers/xml_parser.py:104 | the position of the first entry with the key, or -1 exactly when the key is absent |
| Text.Strip | project_parser/parsers/xml_parser.py:95 | the result neither starts nor ends with whitespace, is a contiguous part of the input, and keeps every non-whitespace character |
| Text.StripIdempotent | project_parser/parsers/xml_parser.py:95 | stripping twice is stripping once |
| Text.Lower | project_parser/parsers/base_parser.py:94 | same length, no upper-case letter, and each character is the lower-case form of the input's |
| Text.LowerCaseInsensitive | project_parser/parsers/base_parser.py:94 | strings that differ only in letter case lower-case to the same string |
| Text.Insert | project_parser/parsers/xml_parser.py:99 | inserting into a strictly sorted list keeps it strictly sorted and adds exactly the new element |
| Text.SortedUnique | project_parser/parsers/xml_parser.py:99 | two strictly sorted lists with the same elements are equal, so `sorted(set)` is determined by the set |
| Text.JoinContainsEach | project_parser/parsers/parser_factory.py:64 | `', '.join(parts)` (the function `Text.Join`) contains each part |
| Text.NatDigits | project_parser/converters/format_converter.py:114 | the decimal digits of a natural number: digit characters only, no leading zero, denoting exactly that number |
| Text.IntToString | project_parser/converters/format_converter.py:114 | `str(n)` for an integer: a minus sign exactly for a negative number, then digits without a leading zero that denote its magnitude |
| Values.ReprOf | project_parser/converters/format_converter.py:114 | `repr(v)`: None is `None`, a boolean is `True` or `False`, an integer is its decimal text, a float its literal text, a string is quoted, a list is bracketed, a dictionary is braced |
| Values.StrOf | project_parser/converters/format_converter.py:114 | `str(v)`: a string is itself, None is `None`, a boolean is `True` or `False`, an integer is its decimal text |
| DataModel.StandardData.GetItem | project_parser/models/data_model.py:54-56 | `data[i]` succeeds exactly for `-len <= i < len`, where `len(data)` (`Length`) is the number of rows; a negative index counts from the end; otherwise an IndexError |
| DataModel.StandardData.Slice | project_parser/models/data_model.py:54-56 | `data[a:b]` has length `hi - lo` for the resolved bounds (none when `lo >= hi`), and its k-th row is `data[lo + k]`; with no bounds it is all the rows |
| DataModel.StandardData.Iter | project_parser/models/data_model.py:58-60 | a fresh iterator over the rows, at the first row |
| DataModel.RowIterator.constructor | project_parser/models/data_model.py:60 | the iterator starts before the first row |
| DataModel.RowIterator.Next | project_parser/models/data_model.py:58-60 | yields the next row and advances, or reports exhaustion and stays exhausted |
| DataModel.IterateRows | project_parser/models/data_model.py:58-60 | iteration yields exactly `len(data)` rows, the i-th being `data[i]` |
| DataModel.StandardData.ToDict | project_parser/models/data_model.py:37-48 | a dictionary whose keys are exactly `headers`, `rows`, `metadata`, in that order |
| DataModel.ToDictRoundTrip | project_parser/models/data_model.py:37-48 | the table can be read back from `to_dict`: nothing is lost |
| DataModel.Create | project_parser/models/data_model.py:32-35 | headers and rows are kept; `parsed_at` is always present afterwards; metadata that already holds it is kept untouched; otherwise `parsed_at` is `now` and is appended last; no other key changes |
| DataModel.CreateAppendsStamp | project_parser/models/data_model.py:34-35 | without `parsed_at`, the metadata becomes the caller's plus one final `parsed_at` entry |
| BaseParser.Name | project_parser/parsers/base_parser.py:94 | the final path component is never `.` and holds no `/` |
| BaseParser.Suffix | project_parser/parsers/base_parser.py:94 | empty exactly when the name has no dot past its first character or ends with a dot; otherwise the name's tail from its last dot |
| BaseParser.Extension | project_parser/parsers/base_parser.py:84-94 | empty, or a dot then at least one character with no further dot, no slash and no upper-case letter |
| BaseParser.NoDotNoExtension | project_parser/parsers/base_parser.py:94 | a final component without a dot past its first character has no extension |
| BaseParser.ExtensionIgnoresCase | project_parser/parsers/base_parser.py:94 | paths that differ only in letter case have the same extension (`test.CSV` is `.csv`) |
| BaseParser.ExtensionIgnoresDirectory | project_parser/parsers/base_parser.py:94 | `dir/file` has the extension of `file` |
| BaseParser.ReadFile | project_parser/parsers/base_parser.py:76-82 | fails exactly for a path that does not exist, with a FileNotFoundError naming it; otherwise it returns the file's content |
| BaseParser.SyntaxMessage | project_parser/parsers/csv_parser.py:93-95 | the syntax-error message starts `Format <format> invalide dans ` and names the file and the reader's detail |
| CsvParser.Resolve | project_parser/parsers/csv_parser.py:50-53 | defaults are `,`, `utf-8`, `"` and skipping initial spaces; supplied options win |
| CsvParser.ReadError | project_parser/parsers/csv_parser.py:90-98 | a syntax or decoding error becomes an InvalidFormatError naming the file (a syntax error also carries the detail); any other exception escapes unchanged |
| CsvParser.ParseCsv | project_parser/parsers/csv_parser.py:57-98 | missing file: FileNotFoundError; an empty or absent header line: InvalidFormatError; a failure while reading the lines: the error `ReadError` maps it to; success exactly when the reader yields a header line and lines; the headers are the header line and the rows `DictReader`'s records |
| CsvParser.NonBlank | project_parser/parsers/csv_parser.py:72 | the lines that become records: none of them blank, and every non-blank line as often as in the file |
| CsvParser.NonBlankAppend | project_parser/parsers/csv_parser.py:72 | skipping blank lines keeps the others in file order |
| CsvParser.DictRowKeys | project_parser/parsers/csv_parser.py:59-72 | a record's keys are exactly the header names, each once |
| CsvParser.DictRowOrder | project_parser/parsers/csv_parser.py:59-72 | with distinct header names, a record's keys are in header order |
| CsvParser.DictRowCell | project_parser/parsers/csv_parser.py:59-72 | under a header name is the field at its last position in the header line, or None when the line is shorter |
| CsvParser.ParseCsvRows | project_parser/parsers/csv_parser.py:67-79 | one row per non-blank line, in order; each a dictionary keyed by exactly the headers, holding the line's fields as strings (None past the end of a short line) |
| CsvParser.ParseCsvMetadata | project_parser/parsers/csv_parser.py:77-88 | the metadata is exactly source, format `csv`, delimiter, encoding, rows_count, columns_count, then `parsed_at` |
| CsvParser.ValidateCsv | project_parser/parsers/csv_parser.py:100-123 | false for a missing path or an extension other than `.csv`; otherwise whether the trial read succeeds |
| JsonParser.ReadError | project_parser/parsers/json_parser.py:94-102 | a syntax or decoding error becomes an InvalidFormatError naming the file; any other exception escapes |
| JsonParser.ParseJson | project_parser/parsers/json_parser.py:48-102 | (through `SelectRows`, `Records` and `HeadersOf`) a list is the rows; a dictionary holding the data key gives its value; any other dictionary is one row; any other value is refused; a non-empty list must start with a dictionary, whose keys are the headers |
| JsonParser.ParseJsonKeyedScalars | project_parser/parsers/json_parser.py:61-78 | under the data key, `""` and `{}` are empty tables, a non-empty string is refused as not holding objects, a non-empty dictionary is a KeyError, a scalar a TypeError |
| JsonParser.ParseJsonMetadata | project_parser/parsers/json_parser.py:82-92 | the metadata is exactly source, format `json`, encoding, rows_count, columns_count, then `parsed_at` |
| JsonParser.ValidateJson | project_parser/parsers/json_parser.py:104-125 | false for a missing path or an extension other than `.json`; otherwise whether decoding succeeds |
| XmlParser.DescendantsOf | project_parser/parsers/xml_parser.py:67 | the descendants include every direct child |
| XmlParser.DescendantsAppend | project_parser/parsers/xml_parser.py:67 | the descendants of siblings come sibling by sibling, in order |
| XmlParser.DescendantsMember | project_parser/parsers/xml_parser.py:67 | an element is a descendant exactly when it is a child or a descendant of a child, at any depth |
| XmlParser.WithTag | project_parser/parsers/xml_parser.py:67 | an element is kept exactly when it carries the tag, as many times as it occurs |
| XmlParser.WithTagAppend | project_parser/parsers/xml_parser.py:67 | filtering by tag keeps the order of the elements |
| XmlParser.WithTagIsFindAll | project_parser/parsers/xml_parser.py:67 | filtering the descendants is the depth-first walk that yields each matching element before the matches below it |
| XmlParser.SelectItems | project_parser/parsers/xml_parser.py:66-70 | without `item_tag`, the root's children; with it, every descendant that carries that tag, as often as it occurs |
| XmlParser.SelectItemsInDocumentOrder | project_parser/parsers/xml_parser.py:66-67 | with `item_tag`, the items are what the depth-first walk below the root finds, in document order |
| XmlParser.SortTags | project_parser/parsers/xml_parser.py:99 | `sorted(tags)`: a strictly increasing list holding exactly the tags |
| XmlParser.ReadItem | project_parser/parsers/xml_parser.py:91-96 | the row built child by child is `RowOf(children)`, and the tags seen are the children's tags |
| XmlParser.CollectRows | project_parser/parsers/xml_parser.py:87-97 | one row per item, in item order, and the union of all child tags |
| XmlParser.BackfillRow | project_parser/parsers/xml_parser.py:102-105 | adds `''` for each missing header and leaves present keys alone |
| XmlParser.BuildRows | project_parser/parsers/xml_parser.py:86-105 | headers are strictly sorted and exactly the union of the child tags; row i is item i's row, backfilled |
| XmlParser.FailureMessage | project_parser/parsers/xml_parser.py:128-130 | the message for an unexpected failure starts `Impossible de parser ` and names the file and carries the failure's detail |
| XmlParser.ReadError | project_parser/parsers/xml_parser.py:122-130 | a parse error becomes an InvalidFormatError carrying exactly the `Format XML invalide dans` message with the detail; any other failure one carrying exactly the `Impossible de parser` message; both name the file |
| XmlParser.ParseXml | project_parser/parsers/xml_parser.py:55-130 | fails exactly when the tree is not loaded; one row per item; sorted unique headers equal to the child-tag union; every row's keys are exactly the headers; empty-table metadata has no `root_tag` |
| XmlParser.ReadTree | project_parser/parsers/xml_parser.py:61-120 | the loaded tree gives one row per item, strictly sorted headers equal to the union of the child tags, row i the backfilled row of item i, every row keyed by exactly the headers, and the metadata with or without `root_tag`, stamped |
| XmlParser.Rectangular | project_parser/parsers/xml_parser.py:101-105 | once backfilled, each row holds every header exactly once and no other key |
| XmlParser.RowOfKeys | project_parser/parsers/xml_parser.py:92-96 | an item's row has exactly its children's tags as keys |
| XmlParser.RowOfDistinct | project_parser/parsers/xml_parser.py:91-95 | an item's row holds each tag once |
| XmlParser.RowOfStrings | project_parser/parsers/xml_parser.py:94-95 | every cell is a stripped string (`''` for a child without text) |
| XmlParser.RowOfLastWins | project_parser/parsers/xml_parser.py:92-95 | when tags repeat, the cell is the text of the last child with that tag |
| XmlParser.BackfillKeys | project_parser/parsers/xml_parser.py:102-105 | backfilling adds exactly the missing headers as keys |
| XmlParser.BackfillDistinct | project_parser/parsers/xml_parser.py:102-105 | backfilling keeps keys unique |
| XmlParser.BackfillCell | project_parser/parsers/xml_parser.py:102-105 | a present key keeps its value; a missing header becomes `''`; any other key stays absent |
| XmlParser.ChildTagsInTagSet | project_parser/parsers/xml_parser.py:88-96 | each item's child tags are among the collected headers |
| XmlParser.EmptyMetadataKeys | project_parser/parsers/xml_parser.py:72-84 | without items the metadata keys are source, format, encoding, rows_count, columns_count, `parsed_at`, each once, and there is no `root_tag` |
| XmlParser.EmptyMetadataValues | project_parser/parsers/xml_parser.py:77-83 | without items the format is `xml` and both counts are zero |
| XmlParser.XmlMetadataKeys | project_parser/parsers/xml_parser.py:109-119 | the metadata keys are source, format, encoding, root_tag, rows_count, columns_count, parsed_at, in that order |
| XmlParser.XmlMetadataFacts | project_parser/parsers/xml_parser.py:112-119 | each metadata entry holds its value: source path, format `xml`, encoding, root tag, row and column counts, `parsed_at` |
| XmlParser.ValidateXml | project_parser/parsers/xml_parser.py:132-152 | false for a missing path or an extension other than `.xml`; otherwise whether the tree parses |
| Factory.InitialRegistry | project_parser/parsers/parser_factory.py:32-36 | the starting registry holds no key twice |
| Factory.InitialFormats | project_parser/parsers/parser_factory.py:32-36 | the starting formats are `.csv`, `.json`, `.xml`, in that order |
| Factory.UnsupportedMessage | project_parser/parsers/parser_factory.py:63-68 | the refusal names the extension, says it is not supported, and lists every accepted extension |
| Factory.Lookup | project_parser/parsers/parser_factory.py:57-68 | succeeds exactly when the path's extension is registered, with the registered class; otherwise an UnsupportedFormatError |
| Factory.InitialDispatch | project_parser/parsers/parser_factory.py:57-71 | a fresh registry sends `.csv`, `.json` and `.xml` to their adapters (in any letter case) and refuses every other extension |
| Factory.NoExtensionUnsupported | project_parser/parsers/parser_factory.py:61-68 | a path without an extension is refused |
| Factory.NormaliseExtension | project_parser/parsers/parser_factory.py:87-90 | the key is the input lower-cased character by character, with a dot prepended only when the input does not start with one; it has no upper-case letter |
| Factory.NormaliseFixed | project_parser/parsers/parser_factory.py:87-90 | a key that is already dotted and lower-case is registered as it is, so normalising twice changes nothing |
| Factory.LookupAfterRegister | project_parser/parsers/parser_factory.py:87-91 | after registration the normalised extension resolves to the new class, other registered extensions resolve as before, and the key is listed |
| Factory.RegisteredReachable | project_parser/parsers/parser_factory.py:87-91 | a registered key of the form dot-then-name is the extension of some path, so it can be dispatched to |
| Factory.KeyReachable | project_parser/parsers/parser_factory.py:57-61 | a lower-case key of the form dot-then-name, with no further dot and no slash, is exactly the extension `get_parser` computes for the file `test` plus that key |
| Factory.ValidatedFilesDispatch | project_parser/parsers/parser_factory.py:57-61 | a file that an adapter's `validate` accepts is dispatched to that adapter by a fresh registry |
| Factory.Parser.constructor | project_parser/parsers/parser_factory.py:71 | `parser_class()` makes an instance of the registered class |
| Factory.ParserFactory.constructor | project_parser/parsers/parser_factory.py:32-36 | the factory starts with the initial registry |
| Factory.ParserFactory.GetParser | project_parser/parsers/parser_factory.py:57-71 | a fresh instance of the class the lookup finds, or the lookup's UnsupportedFormatError |
| Factory.ParserFactory.RegisterParser | project_parser/parsers/parser_factory.py:87-91 | the registry becomes the old one with the normalised key set to the class, and keeps unique keys |
| Factory.ParserFactory.SupportedFormats | project_parser/parsers/parser_factory.py:106 | the registered extensions, in registration order |
| Converter.CsvField | project_parser/converters/format_converter.py:59 | None is written as an empty field, a string as itself, anything else as `str(v)` |
| Converter.CsvLine | project_parser/converters/format_converter.py:57-59 | a row is written exactly when it is a dictionary whose keys are all headers: one field per header, in header order, `''` where absent; otherwise a ValueError or an AttributeError |
| Converter.FormatConverter.constructor | project_parser/converters/format_converter.py:34 | the converter holds the table |
| Converter.FormatConverter.ToCsv | project_parser/converters/format_converter.py:56-59 | the header line, then one line per row in order; at the first refused row, the lines before it and that row's error |
| Converter.FormatConverter.ToJson | project_parser/converters/format_converter.py:82-83 | the document is exactly the rows, in order |
| Converter.RecordChildren | project_parser/converters/format_converter.py:112-114 | one child per key, in key order, with text `str(value)` |
| Converter.XmlTree | project_parser/converters/format_converter.py:108-114 | a root with one record per row, in order; a row that is not a dictionary is an AttributeError |
| Converter.FormatConverter.ToXml | project_parser/converters/format_converter.py:108-114 | the loops build exactly `XmlTree` |
| Converter.JsonRoundTrip | project_parser/converters/format_converter.py:82-83 | exporting to JSON and parsing it back gives the same rows, with the first row's keys as headers |
| Converter.RecordRoundTrip | project_parser/converters/format_converter.py:110-114 | parsing an exported record gives back the row, when its keys are unique and its values are stripped strings |
| Converter.BackfillComplete | project_parser/parsers/xml_parser.py:102-105 | backfilling a row that already has every header changes nothing |
| Converter.ExportedTags | project_parser/converters/format_converter.py:108-114 | the child tags of the exported records are exactly the headers |
| Converter.XmlRoundTrip | project_parser/converters/format_converter.py:108-114 | exporting a rectangular table of stripped strings with sorted headers to XML and parsing it back gives the same headers and rows |

## Left out

- Logging through `logging` is not modelled: it has no effect on results.
- Byte-level reading is left out: file I/O, encodings, and the tokenising done by `csv.DictReader`, `json.load` and `ElementTree.parse` are inputs of the model (`Outcome`, `CsvReader`). How CSV cells are split by the delimiter and quote character is therefore not modelled.
- `datetime.now().isoformat()` is the `now` parameter of `Create`.
- Text.Lower: lower-cases ASCII letters only, not the full Unicode mapping of `str.lower`.
- Values.StrOf: float formatting is approximated; a float is kept as its literal text.
- Values.ReprOf: a string is always quoted with `'`, whereas `repr` switches to `"` when the string holds `'` but no `"`, and escapes backslashes and control characters; a float is kept as its literal text.
- DataModel.StandardData.Slice: a slice with a step (`data[a:b:k]`) is not modelled.
- Converter.XmlRoundTrip: assumes the written document parses back into the tree that was built, which requires every key to be a valid XML tag name and every text to survive serialisation.
- DataModel.Create: `__post_init__` mutates the caller's metadata dictionary in place, and the model returns a new dictionary. Aliasing with the caller's dictionary is not captured.
- JsonParser.ParseJson: when the value under the data key is `""` or `{}`, Python keeps that string or dictionary as the rows object; the model stores the equivalent empty row list.
- XmlParser.SelectItems: `item_tag` is treated as a plain tag name. XPath syntax inside it is not modelled.
- XmlParser.ParseXml: the `encoding` option is only recorded in the metadata, as in the source. The `root_tag` keyword option is read and ignored there, and the model ignores it too.
- Converter.CsvLine: the ValueError message does not list the offending field names.
- Converter.FormatConverter.ToCsv: the delimiter, quoting and encoding only affect byte formatting. On a refused row, the model returns the lines written before the error; the partially written file itself is not modelled.
- Converter.FormatConverter.ToXml: the whitespace added by `ET.indent` and the XML declaration are not modelled.
- Factory.ParserFactory: the registry is a class attribute shared by every caller; the model holds it in one factory object. `parser_class`, a class object, is always truthy in the source, so a registered class is always found.
- No operation removes a registration, because the source has none.
- A registered key such as `.tar.gz` can never be the extension of a path, so it is never dispatched to (see `Factory.RegisteredReachable`).
- CsvParser.DictRow: a line with more fields than the header line stores the extra fields as a list under the key None (`restkey`); dictionary keys in the model are strings, so the extra fields are dropped.
- CsvParser.ParseCsv: splitting a line into fields by the delimiter and quote character is done by the abstract reader.
- `main.py`, the file validator, the settings module and the exception classes' own text are not part of this model.
