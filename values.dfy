/**
 * The Python values that flow through the tables: what `json.load` produces,
 * and the strings the CSV and XML readers produce. A Python `dict` is an
 * insertion-ordered association list (see module Dicts).
 */
module Values {
  import opened Text

  datatype Value =
    | Null
    | Bool(b: bool)
    | Int(i: int)
      /** a float, kept as the text `repr` gives it; no arithmetic is done on floats */
    | Float(literal: string)
    | Str(s: string)
    | List(items: seq<Value>)
    | Object(fields: seq<(string, Value)>)

  /** `repr(v)` */
  function ReprOf(v: Value): (r: string)
    ensures v.Null? ==> r == "None"
    ensures v.Bool? ==> r == (if v.b then "True" else "False")
    ensures v.Int? ==> r == IntToString(v.i)
    ensures v.Float? ==> r == v.literal
    ensures v.Str? ==> r == "'" + v.s + "'"
    ensures v.List? ==> |r| >= 2 && r[0] == '[' && r[|r| - 1] == ']'
    ensures v.Object? ==> |r| >= 2 && r[0] == '{' && r[|r| - 1] == '}'
    decreases v
  {
    match v
    case Null => "None"
    case Bool(b) => if b then "True" else "False"
    case Int(i) => IntToString(i)
    case Float(literal) => literal
    case Str(s) => "'" + s + "'"
    case List(items) =>
      "[" + Join(", ", seq(|items|, k requires 0 <= k < |items| => ReprOf(items[k]))) + "]"
    case Object(fields) =>
      "{" + Join(", ", seq(|fields|, k requires 0 <= k < |fields| =>
                             "'" + fields[k].0 + "': " + ReprOf(fields[k].1))) + "}"
  }

  /** `str(v)`: a string is itself, everything else is its `repr`. */
  function StrOf(v: Value): (r: string)
    ensures v.Str? ==> r == v.s
    ensures v.Null? ==> r == "None"
    ensures v.Int? ==> r == IntToString(v.i)
    ensures v.Bool? ==> r == (if v.b then "True" else "False")
  {
    if v.Str? then v.s else ReprOf(v)
  }
}
