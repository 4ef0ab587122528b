/**
 * `ParserFactory`: the registry from lower-cased extension to adapter class,
 * with lookup by path, registration and listing. In the source the registry
 * is a class attribute shared by every caller; here it is the one field of a
 * factory object.
 */
module Factory {
  import opened Results
  import opened Dicts
  import opened Text
  import opened BaseParser
  import CsvParser
  import JsonParser
  import XmlParser

  /** The adapter classes the registry can hold; `Custom` stands for a class registered later. */
  datatype ParserClass = CSVParser | JSONParser | XMLParser | Custom(name: string)

  /** An adapter instance, as `parser_class()` creates it. */
  class Parser {
    const kind: ParserClass

    constructor(kind: ParserClass)
      ensures this.kind == kind
    {
      this.kind := kind;
    }
  }

  /** The registry every process starts with. */
  function InitialRegistry(): (reg: Dict<ParserClass>)
    ensures DistinctKeys(reg)
  {
    [(".csv", CSVParser), (".json", JSONParser), (".xml", XMLParser)]
  }

  const Refused := "non supporté"
  const Accepted := ". Formats acceptés : "

  /** The UnsupportedFormatError message: the extension, then the accepted ones joined by `, `. */
  function UnsupportedMessage(ext: string, accepted: seq<string>): (msg: string)
    ensures Contains(msg, ext) && Contains(msg, Refused)
    ensures forall k :: 0 <= k < |accepted| ==> Contains(msg, accepted[k])
  {
    var msg := "Format " + ext + " " + Refused + Accepted + Join(", ", accepted);
    MessageNamesExtension(ext, accepted);
    MessageSaysRefused(ext, accepted);
    forall k | 0 <= k < |accepted| ensures Contains(msg, accepted[k]) {
      JoinContainsEach(", ", accepted, k);
      ContainsShift("Format " + ext + " " + Refused + Accepted, Join(", ", accepted), accepted[k]);
    }
    msg
  }

  lemma MessageNamesExtension(ext: string, accepted: seq<string>)
    ensures Contains("Format " + ext + " " + Refused + Accepted + Join(", ", accepted), ext)
  {
    var rest := " " + Refused + Accepted + Join(", ", accepted);
    ContainsMiddle("Format ", ext, rest);
    assert "Format " + ext + rest == "Format " + ext + " " + Refused + Accepted + Join(", ", accepted);
  }

  lemma MessageSaysRefused(ext: string, accepted: seq<string>)
    ensures Contains("Format " + ext + " " + Refused + Accepted + Join(", ", accepted), Refused)
  {
    var pre := "Format " + ext + " ";
    var rest := Accepted + Join(", ", accepted);
    ContainsMiddle(pre, Refused, rest);
    assert pre + Refused + rest == "Format " + ext + " " + Refused + Accepted + Join(", ", accepted);
  }

  /**
   * `get_parser` as a function of the registry: the class registered for the
   * path's extension, or an UnsupportedFormatError.
   */
  function Lookup(registry: Dict<ParserClass>, path: string): (r: Result<ParserClass>)
    ensures r.Ok? <==> HasKey(registry, Extension(path))
    ensures r.Ok? ==> Get(registry, Extension(path)) == Some(r.value)
    ensures r.Err? ==> r.error == UnsupportedFormat(UnsupportedMessage(Extension(path), Keys(registry)))
  {
    var ext := Extension(path);
    match Get(registry, ext)
    case Some(cls) => Ok(cls)
    case None => Err(UnsupportedFormat(UnsupportedMessage(ext, Keys(registry))))
  }

  /** `register_parser`'s key: a leading dot is added when absent, then the text is lower-cased. */
  function NormaliseExtension(extension: string): (key: string)
    ensures |key| >= 1 && key[0] == '.'
    ensures forall j :: 0 <= j < |key| ==> !IsUpper(key[j])
    ensures |key| == if extension != "" && extension[0] == '.' then |extension| else |extension| + 1
    ensures var d := if extension != "" && extension[0] == '.' then 0 else 1;
            forall j :: 0 <= j < |extension| ==> key[j + d] == LowerChar(extension[j])
  {
    var dotted := if extension != "" && extension[0] == '.' then extension else "." + extension;
    var d := if extension != "" && extension[0] == '.' then 0 else 1;
    assert forall j :: 0 <= j < |extension| ==> dotted[j + d] == extension[j];
    Lower(dotted)
  }

  /** A key that is already dotted and lower-case is registered as it is, so normalising twice changes nothing. */
  lemma NormaliseFixed(extension: string)
    requires extension != "" && extension[0] == '.'
    requires forall j :: 0 <= j < |extension| ==> !IsUpper(extension[j])
    ensures NormaliseExtension(extension) == extension
    ensures NormaliseExtension(NormaliseExtension(extension)) == NormaliseExtension(extension)
  {
    LowerFixed(extension);
  }

  class ParserFactory {
    /** `_parsers`: extension to class, in registration order. */
    var parsers: Dict<ParserClass>

    ghost predicate Valid()
      reads this
    {
      DistinctKeys(parsers)
    }

    /** The registry before any registration: `.csv`, `.json`, `.xml`. */
    constructor()
      ensures Valid() && parsers == InitialRegistry()
    {
      parsers := InitialRegistry();
    }

    /**
     * `get_parser`: a new instance of the class registered for the path's
     * extension, or an UnsupportedFormatError. The registry is not changed.
     */
    method GetParser(path: string) returns (r: Result<Parser>)
      ensures r.Ok? <==> Lookup(parsers, path).Ok?
      ensures r.Ok? ==> fresh(r.value) && Lookup(parsers, path) == Ok(r.value.kind)
      ensures r.Err? ==> Lookup(parsers, path) == Err(r.error)
    {
      match Lookup(parsers, path) {
        case Ok(cls) =>
          var p := new Parser(cls);
          r := Ok(p);
        case Err(e) =>
          r := Err(e);
      }
    }

    /**
     * `register_parser`: inserts or overwrites the single entry for the
     * normalised extension; every other entry is unchanged.
     */
    method RegisterParser(extension: string, cls: ParserClass)
      requires Valid()
      modifies this
      ensures Valid()
      ensures parsers == Put(old(parsers), NormaliseExtension(extension), cls)
    {
      parsers := Put(parsers, NormaliseExtension(extension), cls);
    }

    /** `get_supported_formats`: the registered extensions in registration order. */
    function SupportedFormats(): (formats: seq<string>)
      reads this
      ensures |formats| == |parsers|
      ensures forall k :: 0 <= k < |parsers| ==> formats[k] == parsers[k].0
    {
      Keys(parsers)
    }
  }

  /** A fresh registry lists exactly `.csv`, `.json` and `.xml`, in that order. */
  lemma InitialFormats()
    ensures Keys(InitialRegistry()) == [".csv", ".json", ".xml"]
  {
  }

  /** A fresh registry sends each of the three extensions to its adapter, and refuses everything else. */
  lemma InitialDispatch(path: string)
    ensures Extension(path) == ".csv" ==> Lookup(InitialRegistry(), path) == Ok(CSVParser)
    ensures Extension(path) == ".json" ==> Lookup(InitialRegistry(), path) == Ok(JSONParser)
    ensures Extension(path) == ".xml" ==> Lookup(InitialRegistry(), path) == Ok(XMLParser)
    ensures Extension(path) !in {".csv", ".json", ".xml"} ==> Lookup(InitialRegistry(), path).Err?
  {
    var reg := InitialRegistry();
    GetAt(reg, 0); GetAt(reg, 1); GetAt(reg, 2);
    assert KeySet(reg) == {".csv", ".json", ".xml"} by {
      assert reg[0].0 == ".csv" && reg[1].0 == ".json" && reg[2].0 == ".xml";
    }
  }

  /** A path without an extension is refused by a fresh registry. */
  lemma NoExtensionUnsupported(path: string)
    requires Extension(path) == ""
    ensures Lookup(InitialRegistry(), path).Err?
  {
    InitialDispatch(path);
  }

  /**
   * After `register_parser(e, P)`, a path whose extension is the normalised
   * `e` resolves to `P`; every other path resolves as before.
   */
  lemma LookupAfterRegister(registry: Dict<ParserClass>, extension: string, cls: ParserClass, path: string)
    ensures var reg := Put(registry, NormaliseExtension(extension), cls);
            Extension(path) == NormaliseExtension(extension) ==> Lookup(reg, path) == Ok(cls)
    ensures var reg := Put(registry, NormaliseExtension(extension), cls);
            Extension(path) != NormaliseExtension(extension) && HasKey(registry, Extension(path)) ==>
              Lookup(reg, path) == Lookup(registry, path)
    ensures var reg := Put(registry, NormaliseExtension(extension), cls);
            NormaliseExtension(extension) in Keys(reg)
  {
    var key := NormaliseExtension(extension);
    var reg := Put(registry, key, cls);
    PutKeys(registry, key, cls);
    assert key in KeySet(reg);
    var i :| 0 <= i < |reg| && reg[i].0 == key;
    assert Keys(reg)[i] == key;
  }

  /**
   * A registered extension is reachable: when the normalised key is a dot
   * followed by characters other than dots and slashes, `test` followed by
   * that key has it as its extension. (A key such as `.tar.gz` never is.)
   */
  lemma RegisteredReachable(extension: string)
    requires var key := NormaliseExtension(extension);
             |key| >= 2 && forall j :: 1 <= j < |key| ==> key[j] != '.' && key[j] != '/'
    ensures Extension("test" + NormaliseExtension(extension)) == NormaliseExtension(extension)
  {
    KeyReachable(NormaliseExtension(extension));
  }

  /** A dot followed by lower-case characters other than dots and slashes is the extension of `test` followed by it. */
  lemma KeyReachable(key: string)
    requires |key| >= 2 && key[0] == '.'
    requires forall j :: 1 <= j < |key| ==> key[j] != '.' && key[j] != '/'
    requires forall j :: 0 <= j < |key| ==> !IsUpper(key[j])
    ensures Extension("test" + key) == key
  {
    var p := "test" + key;
    forall j | 0 <= j < |p| ensures p[j] != '/' {
      if j >= 4 { assert p[j] == key[j - 4]; }
    }
    NameOfPlain(p);
    forall j | 4 < j < |p| ensures p[j] != '.' {
      assert p[j] == key[j - 4];
    }
    SuffixAt(p, 4);
    assert p[4..] == key;
    LowerFixed(key);
  }


  /** A file any adapter's `validate` accepts is dispatched to that adapter by a fresh registry. */
  lemma ValidatedFilesDispatch(path: string, present: bool, readable: bool)
    ensures CsvParser.ValidateCsv(path, present, readable) ==> Lookup(InitialRegistry(), path) == Ok(CSVParser)
    ensures JsonParser.ValidateJson(path, present, readable) ==> Lookup(InitialRegistry(), path) == Ok(JSONParser)
    ensures XmlParser.ValidateXml(path, present, readable) ==> Lookup(InitialRegistry(), path) == Ok(XMLParser)
  {
    InitialDispatch(path);
  }
}
