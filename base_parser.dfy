/**
 * What every adapter shares (`BaseParser`): the file extension of a path,
 * reading a file out of a set of files, the shape of what a tokeniser hands
 * back, and the guards of `validate`.
 */
module BaseParser {
  import opened Results
  import opened Text

  /** `s.rfind(c)`: the last position of `c` in `s`, or -1. */
  function RFind(s: string, c: char): (i: int)
    ensures -1 <= i < |s|
    ensures i >= 0 ==> s[i] == c
    ensures forall j :: i < j < |s| ==> s[j] != c
  {
    if s == [] then -1
    else if s[|s| - 1] == c then |s| - 1
    else RFind(s[..|s| - 1], c)
  }

  /**
   * `PurePosixPath(path).name`: the last component of the path once empty
   * and `.` components are dropped; `""` when there is none.
   */
  function Name(path: string): (n: string)
    ensures n != "."
    ensures forall j :: 0 <= j < |n| ==> n[j] != '/'
    decreases |path|
  {
    var i := RFind(path, '/');
    var last := path[i + 1..];
    if last != "" && last != "." then last
    else if i < 0 then ""
    else Name(path[..i])
  }

  /**
   * `PurePath.suffix` on a final component (Python 3.8 to 3.12): the text from
   * the last dot, provided that dot is neither the first nor the last character.
   */
  function Suffix(name: string): (r: string)
    ensures r == "" <==>
              (forall j :: 0 < j < |name| ==> name[j] != '.') || (name != "" && name[|name| - 1] == '.')
    ensures r != "" ==>
              2 <= |r| < |name| && r == name[|name| - |r|..] && r[0] == '.' &&
              forall j :: 1 <= j < |r| ==> r[j] != '.'
  {
    var i := RFind(name, '.');
    if 0 < i < |name| - 1 then name[i..] else ""
  }

  /**
   * `_get_file_extension`: `Path(path).suffix.lower()`. It is empty or a dot
   * followed by at least one character, with no other dot, no slash and no
   * upper-case letter.
   */
  function Extension(path: string): (ext: string)
    ensures ext == "" || (|ext| >= 2 && ext[0] == '.')
    ensures forall j :: 1 <= j < |ext| ==> ext[j] != '.' && ext[j] != '/'
    ensures forall j :: 0 <= j < |ext| ==> !IsUpper(ext[j])
  {
    var s := Suffix(Name(path));
    var ext := Lower(s);
    assert forall j :: 0 <= j < |s| ==> s[j] == s[|s| - |s| + j];
    assert forall j :: 0 <= j < |ext| ==> LowerChar(ext[j]) == LowerChar(s[j]);
    ext
  }

  /** A final component without a dot past its first character has no extension. */
  lemma NoDotNoExtension(path: string)
    requires forall j :: 0 < j < |Name(path)| ==> Name(path)[j] != '.'
    ensures Extension(path) == ""
  {
  }

  /** Two paths that differ only in letter case. */
  predicate CaseEq(p: string, q: string)
  {
    |p| == |q| && forall i :: 0 <= i < |p| ==> LowerChar(p[i]) == LowerChar(q[i])
  }

  lemma {:induction false} RFindCaseEq(p: string, q: string, c: char)
    requires CaseEq(p, q) && (c == '/' || c == '.')
    ensures RFind(p, c) == RFind(q, c)
    decreases |p|
  {
    if p != [] {
      var n := |p| - 1;
      assert p[n] == c <==> q[n] == c by {
        assert LowerChar(p[n]) == LowerChar(q[n]);
      }
      RFindCaseEq(p[..n], q[..n], c);
    }
  }

  /** A suffix of case-equal strings is case-equal. */
  lemma CaseEqDrop(p: string, q: string, lo: nat)
    requires CaseEq(p, q) && lo <= |p|
    ensures CaseEq(p[lo..], q[lo..])
  {
    forall k | 0 <= k < |p| - lo ensures LowerChar(p[lo..][k]) == LowerChar(q[lo..][k]) {
      assert p[lo..][k] == p[lo + k] && q[lo..][k] == q[lo + k];
    }
  }

  /** A prefix of case-equal strings is case-equal. */
  lemma CaseEqTake(p: string, q: string, hi: nat)
    requires CaseEq(p, q) && hi <= |p|
    ensures CaseEq(p[..hi], q[..hi])
  {
    forall k | 0 <= k < hi ensures LowerChar(p[..hi][k]) == LowerChar(q[..hi][k]) {
      assert p[..hi][k] == p[k] && q[..hi][k] == q[k];
    }
  }

  /** Letter case cannot turn a component into `.` or the empty string. */
  lemma CaseEqSpecial(a: string, b: string)
    requires CaseEq(a, b)
    ensures (a == "." <==> b == ".") && (a == "" <==> b == "")
  {
    if |a| == 1 {
      assert LowerChar(a[0]) == LowerChar(b[0]);
    }
  }

  lemma {:induction false} NameCaseEq(p: string, q: string)
    requires CaseEq(p, q)
    ensures CaseEq(Name(p), Name(q))
    decreases |p|
  {
    RFindCaseEq(p, q, '/');
    var i := RFind(p, '/');
    var lp, lq := p[i + 1..], q[i + 1..];
    CaseEqDrop(p, q, i + 1);
    CaseEqSpecial(lp, lq);
    if lp != "" && lp != "." {
      assert Name(p) == lp && Name(q) == lq;
      assert CaseEq(Name(p), Name(q));
    } else if i >= 0 {
      CaseEqTake(p, q, i);
      NameCaseEq(p[..i], q[..i]);
      assert Name(p) == Name(p[..i]) && Name(q) == Name(q[..i]);
      assert CaseEq(Name(p), Name(q));
    } else {
      assert Name(p) == "" && Name(q) == "";
    }
  }

  /** A path that is a single plain component is its own name. */
  lemma NameOfPlain(p: string)
    requires p != "" && p != "."
    requires forall j :: 0 <= j < |p| ==> p[j] != '/'
    ensures Name(p) == p
  {
    assert RFind(p, '/') == -1;
    assert p[0..] == p;
  }

  /** The suffix starts at the last dot when that dot is neither first nor last. */
  lemma SuffixAt(name: string, i: nat)
    requires 0 < i < |name| - 1 && name[i] == '.'
    requires forall j :: i < j < |name| ==> name[j] != '.'
    ensures Suffix(name) == name[i..]
  {
    assert RFind(name, '.') == i;
  }

  /**
   * The extension ignores letter case: `test.CSV`, `test.CsV` and `test.csv`
   * all have the extension `.csv`.
   */
  lemma ExtensionIgnoresCase(p: string, q: string)
    requires CaseEq(p, q)
    ensures Extension(p) == Extension(q)
  {
    NameCaseEq(p, q);
    SuffixCaseEq(Name(p), Name(q));
    LowerCaseInsensitive(Suffix(Name(p)), Suffix(Name(q)));
  }

  lemma SuffixCaseEq(p: string, q: string)
    requires CaseEq(p, q)
    ensures CaseEq(Suffix(p), Suffix(q))
  {
    RFindCaseEq(p, q, '.');
    var i := RFind(p, '.');
    if 0 < i < |p| - 1 {
      CaseEqDrop(p, q, i);
      assert Suffix(p) == p[i..] && Suffix(q) == q[i..];
    } else {
      assert Suffix(p) == "" && Suffix(q) == "";
    }
  }

  /** Directory parts are ignored: `path/to/file.json` has the extension of `file.json`. */
  lemma ExtensionIgnoresDirectory(dir: string, file: string)
    requires file != "" && file != "."
    requires forall j :: 0 <= j < |file| ==> file[j] != '/'
    ensures Extension(dir + "/" + file) == Extension(file)
  {
    var p := dir + "/" + file;
    SlashBeforeFile(dir, file);
    assert Name(p) == file;
    assert RFind(file, '/') == -1 && file[0..] == file;
    assert Name(file) == file;
  }

  /** In `dir/file`, the last slash is the one before `file`. */
  lemma SlashBeforeFile(dir: string, file: string)
    requires forall j :: 0 <= j < |file| ==> file[j] != '/'
    ensures var p := dir + "/" + file; RFind(p, '/') == |dir| && p[|dir| + 1..] == file
  {
    var p := dir + "/" + file;
    assert p[|dir|] == '/';
    forall j | |dir| < j < |p| ensures p[j] != '/' {
      assert p[j] == file[j - |dir| - 1];
    }
    assert p[|dir| + 1..] == file;
  }

  /**
   * `_read_file`, over a set of files given as a map from path to content:
   * a path that is not in the set is a FileNotFoundError naming it.
   */
  function ReadFile(files: map<string, string>, path: string): (r: Result<string>)
    ensures r.Err? <==> path !in files
    ensures r.Err? ==> r.error == FileNotFound(path)
    ensures r.Ok? ==> r.value == files[path]
  {
    if path in files then Ok(files[path]) else Err(FileNotFound(path))
  }

  /** Why a standard-library reader gave up. */
  datatype Failure =
      /** UnicodeDecodeError */
    | DecodeFailure(detail: string)
      /** the format's own syntax error: csv.Error, json.JSONDecodeError or ET.ParseError */
    | SyntaxFailure(detail: string)
      /** any other exception (an OSError other than a missing file, an unknown encoding name) */
    | OtherFailure(detail: string)

  /**
   * What opening and tokenising a path yields: the file is missing
   * (FileNotFoundError), the reader raised, or the reader produced `content`.
   */
  datatype Outcome<+T> = Missing | Raised(failure: Failure) | Loaded(content: T)

  /**
   * The message of the InvalidFormatError a syntax error becomes, the same in
   * the three adapters: `Format <fmt> invalide dans <path>: <detail>`.
   */
  function SyntaxMessage(fmt: string, path: string, detail: string): (msg: string)
    ensures Contains(msg, path) && Contains(msg, detail)
    ensures "Format " + fmt + " invalide dans " <= msg
  {
    var msg := "Format " + fmt + " invalide dans " + path + ": " + detail;
    ContainsMiddle("Format " + fmt + " invalide dans ", path, ": " + detail);
    ContainsMiddle("Format " + fmt + " invalide dans " + path + ": ", detail, "");
    assert msg == "Format " + fmt + " invalide dans " + (path) + (": " + detail);
    assert msg == "Format " + fmt + " invalide dans " + path + ": " + detail + "";
    msg
  }

  /**
   * The guards shared by the three `validate` methods: the path exists, its
   * extension is `expected`, and a trial read of the file succeeds.
   */
  predicate Validate(path: string, present: bool, expected: string, readable: bool)
  {
    present && Extension(path) == expected && readable
  }
}
