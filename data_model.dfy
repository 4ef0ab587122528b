/**
 * The uniform table every adapter produces (`StandardData`): ordered headers,
 * ordered rows and a metadata dictionary, with length, indexing (negative
 * indices count from the end), slicing, iteration and `to_dict`.
 */
module DataModel {
  import opened Results
  import opened Dicts
  import opened Values

  const ParsedAt := "parsed_at"

  datatype StandardData = StandardData(headers: seq<string>, rows: seq<Value>, metadata: Dict<Value>)
  {
    /** `len(data)` */
    function Length(): nat
    {
      |rows|
    }

    /**
     * `data[i]` for an integer `i`: valid from `-len(data)` to `len(data) - 1`;
     * a negative index resolves from the end; anything else is an IndexError.
     */
    function GetItem(i: int): (r: Result<Value>)
      ensures r.Ok? <==> 0 <= i + Length() && i < Length()
      ensures 0 <= i < Length() ==> r == Ok(rows[i])
      ensures 0 <= i + Length() && i < 0 ==> r == Ok(rows[i + Length()])
      ensures r.Err? ==> r.error == IndexError
    {
      if 0 <= i < |rows| then Ok(rows[i])
      else if -|rows| <= i < 0 then Ok(rows[i + |rows|])
      else Err(IndexError)
    }

    /**
     * `data[start:stop]`: each bound defaults to the matching end, a negative
     * bound counts from the end, and bounds are clamped to the table.
     */
    function Slice(start: Option<int>, stop: Option<int>): (r: seq<Value>)
      ensures start.None? && stop.None? ==> r == rows
      ensures |r| <= Length()
      ensures var lo, hi := SliceBound(start, |rows|, 0), SliceBound(stop, |rows|, |rows|);
              |r| == if lo < hi then hi - lo else 0
      ensures var lo := SliceBound(start, |rows|, 0);
              forall k :: 0 <= k < |r| ==> GetItem(lo + k) == Ok(r[k])
    {
      var lo := SliceBound(start, |rows|, 0);
      var hi := SliceBound(stop, |rows|, |rows|);
      if lo < hi then rows[lo..hi] else []
    }

    /** `__iter__`: a fresh iterator positioned on the first row. */
    method Iter() returns (it: RowIterator)
      ensures fresh(it)
      ensures it.rows == rows && it.position == 0
    {
      it := new RowIterator(rows);
    }

    /** `to_dict()`: exactly the three entries headers, rows and metadata. */
    function ToDict(): (d: Value)
      ensures d.Object? && Keys(d.fields) == ["headers", "rows", "metadata"]
    {
      Object([("headers", List(StrList(headers))),
              ("rows", List(rows)),
              ("metadata", Object(metadata))])
    }
  }

  /** A slice bound resolved against a sequence of length `n`. */
  function SliceBound(bound: Option<int>, n: nat, default: nat): (b: nat)
    requires default <= n
    ensures b <= n
  {
    match bound
    case None => default
    case Some(x) =>
      if x < 0 then (if x + n < 0 then 0 else x + n)
      else if x > n then n else x
  }

  function StrList(ss: seq<string>): (vs: seq<Value>)
    ensures |vs| == |ss| && forall k :: 0 <= k < |ss| ==> vs[k] == Str(ss[k])
  {
    if ss == [] then [] else [Str(ss[0])] + StrList(ss[1..])
  }

  /**
   * Building a `StandardData` (the dataclass constructor and `__post_init__`):
   * headers and rows are stored as given, and `parsed_at` is added to the
   * metadata, stamped with `now`, only when the caller did not supply it.
   */
  function Create(headers: seq<string>, rows: seq<Value>, metadata: Dict<Value>, now: string): (d: StandardData)
    ensures d.headers == headers && d.rows == rows
    ensures HasKey(d.metadata, ParsedAt)
    ensures HasKey(metadata, ParsedAt) ==> d.metadata == metadata
    ensures !HasKey(metadata, ParsedAt) ==>
              Get(d.metadata, ParsedAt) == Some(Str(now)) && Keys(d.metadata) == Keys(metadata) + [ParsedAt]
    ensures forall k :: k != ParsedAt ==> Get(d.metadata, k) == Get(metadata, k)
    ensures DistinctKeys(metadata) ==> DistinctKeys(d.metadata)
  {
    var m := if HasKey(metadata, ParsedAt) then metadata else Put(metadata, ParsedAt, Str(now));
    PutKeys(metadata, ParsedAt, Str(now));
    StandardData(headers, rows, m)
  }

  /** Stamping a metadata dictionary without `parsed_at` appends that one entry. */
  lemma CreateAppendsStamp(headers: seq<string>, rows: seq<Value>, metadata: Dict<Value>, now: string)
    requires !HasKey(metadata, ParsedAt)
    ensures Create(headers, rows, metadata, now).metadata == metadata + [(ParsedAt, Str(now))]
  {
  }

  /**
   * The strings of a list of `Str` values, or None when some element is not
   * a string; the inverse of StrList.
   */
  function StrListInverse(vs: seq<Value>): (r: Option<seq<string>>)
    ensures r.Some? ==> StrList(r.value) == vs
  {
    if vs == [] then Some([])
    else if !vs[0].Str? then None
    else match StrListInverse(vs[1..])
      case None => None
      case Some(rest) => Some([vs[0].s] + rest)
  }

  /** Reads a table back from the dictionary `to_dict` returns. */
  function FromDict(d: Value): Option<StandardData>
  {
    if !d.Object? then None
    else
      var h, r, m := Get(d.fields, "headers"), Get(d.fields, "rows"), Get(d.fields, "metadata");
      if h.Some? && h.value.List? && r.Some? && r.value.List? && m.Some? && m.value.Object? then
        match StrListInverse(h.value.items)
        case Some(headers) => Some(StandardData(headers, r.value.items, m.value.fields))
        case None => None
      else None
  }

  lemma {:induction false} StrListRoundTrip(ss: seq<string>)
    ensures StrListInverse(StrList(ss)) == Some(ss)
  {
    if ss != [] {
      StrListRoundTrip(ss[1..]);
      assert StrList(ss)[1..] == StrList(ss[1..]);
      assert StrList(ss)[0] == Str(ss[0]);
      assert [ss[0]] + ss[1..] == ss;
    }
  }

  /** `to_dict` loses nothing: the table can be read back from it. */
  lemma ToDictRoundTrip(data: StandardData)
    ensures FromDict(data.ToDict()) == Some(data)
  {
    StrListRoundTrip(data.headers);
    var d := data.ToDict();
    assert IndexOf(d.fields, "headers") == 0;
    assert IndexOf(d.fields, "rows") == 1 by {
      assert d.fields[0].0 != "rows";
    }
    assert IndexOf(d.fields, "metadata") == 2 by {
      assert d.fields[0].0 != "metadata" && d.fields[1].0 != "metadata";
    }
  }

  /**
   * The iterator `iter(rows)` returns: it yields the rows in order, one per
   * call, and then reports exhaustion for good.
   */
  class RowIterator {
    const rows: seq<Value>
    var position: nat

    ghost predicate Valid()
      reads this
    {
      position <= |rows|
    }

    constructor(rows: seq<Value>)
      ensures Valid() && this.rows == rows && position == 0
    {
      this.rows := rows;
      position := 0;
    }

    /** `next(it)`: the next row, or None once every row has been yielded. */
    method Next() returns (r: Option<Value>)
      requires Valid()
      modifies this
      ensures Valid()
      ensures old(position) < |rows| ==> r == Some(rows[old(position)]) && position == old(position) + 1
      ensures old(position) == |rows| ==> r == None && position == old(position)
    {
      if position < |rows| {
        r := Some(rows[position]);
        position := position + 1;
      } else {
        r := None;
      }
    }
  }

  /**
   * `for row in data`: drives a fresh iterator to exhaustion. It yields
   * exactly `len(data)` rows, the i-th being `data[i]`.
   */
  method IterateRows(data: StandardData) returns (yielded: seq<Value>)
    ensures |yielded| == data.Length()
    ensures forall i :: 0 <= i < |yielded| ==> data.GetItem(i) == Ok(yielded[i])
  {
    var it := data.Iter();
    yielded := [];
    var next := it.Next();
    while next.Some?
      invariant it.Valid() && it.rows == data.rows
      invariant next.Some? ==> it.position == |yielded| + 1 && next.value == data.rows[|yielded|]
      invariant next.None? ==> it.position == |yielded| == |data.rows|
      invariant yielded == data.rows[..|yielded|]
      decreases |data.rows| - |yielded|
    {
      yielded := yielded + [next.value];
      next := it.Next();
    }
  }
}
