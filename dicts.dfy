/**
 * Python dictionaries with string keys, as the core uses them: an association
 * list in insertion order. Assigning to a present key replaces its value in
 * place; assigning to an absent key appends it at the end.
 */
module Dicts {
  import opened Results

  type Dict<V> = seq<(string, V)>

  /** `list(d.keys())` */
  function Keys<V>(d: Dict<V>): (ks: seq<string>)
    ensures |ks| == |d|
    ensures forall i :: 0 <= i < |d| ==> ks[i] == d[i].0
  {
    if d == [] then [] else [d[0].0] + Keys(d[1..])
  }

  /** The set of keys. */
  function KeySet<V>(d: Dict<V>): set<string>
  {
    set i | 0 <= i < |d| :: d[i].0
  }

  /** A well-formed dictionary never holds a key twice. */
  predicate DistinctKeys<V>(d: Dict<V>)
  {
    forall i, j :: 0 <= i < j < |d| ==> d[i].0 != d[j].0
  }

  /** Position of key `k`, or -1 when absent. */
  function IndexOf<V>(d: Dict<V>, k: string): (i: int)
    ensures -1 <= i < |d|
    ensures i >= 0 ==> d[i].0 == k && forall j :: 0 <= j < i ==> d[j].0 != k
    ensures i == -1 <==> k !in KeySet(d)
  {
    if d == [] then -1
    else if d[0].0 == k then 0
    else
      var j := IndexOf(d[1..], k);
      assert KeySet(d) == {d[0].0} + KeySet(d[1..]) by {
        forall x ensures x in KeySet(d) <==> x == d[0].0 || x in KeySet(d[1..]) {
          if x in KeySet(d[1..]) {
            var m :| 0 <= m < |d[1..]| && d[1..][m].0 == x;
            assert d[m + 1].0 == x;
          }
          if x in KeySet(d) && x != d[0].0 {
            var m :| 0 <= m < |d| && d[m].0 == x;
            assert d[1..][m - 1].0 == x;
          }
        }
      }
      if j < 0 then -1 else j + 1
  }

  predicate HasKey<V>(d: Dict<V>, k: string)
  {
    k in KeySet(d)
  }

  /** `d.get(k)`: the value stored under `k`, if any. */
  function Get<V>(d: Dict<V>, k: string): (r: Option<V>)
    ensures r.Some? <==> HasKey(d, k)
  {
    var i := IndexOf(d, k);
    if i < 0 then None else Some(d[i].1)
  }

  /** `d[k] = v` */
  function Put<V>(d: Dict<V>, k: string, v: V): (r: Dict<V>)
    ensures Get(r, k) == Some(v)
    ensures forall k' :: k' != k ==> Get(r, k') == Get(d, k')
    ensures KeySet(r) == KeySet(d) + {k}
    ensures DistinctKeys(d) ==> DistinctKeys(r)
  {
    var i := IndexOf(d, k);
    if i >= 0 then
      var r := d[i := (k, v)];
      assert KeySet(r) == KeySet(d) by {
        forall x ensures x in KeySet(r) <==> x in KeySet(d) {
          if x in KeySet(d) {
            var m :| 0 <= m < |d| && d[m].0 == x;
            assert r[m].0 == x;
          }
          if x in KeySet(r) {
            var m :| 0 <= m < |r| && r[m].0 == x;
            assert d[m].0 == x;
          }
        }
      }
      GetAfterReplace(d, i, v);
      r
    else
      var r := d + [(k, v)];
      assert KeySet(r) == KeySet(d) + {k} by {
        forall x ensures x in KeySet(r) <==> x in KeySet(d) + {k} {
          if x in KeySet(d) {
            var m :| 0 <= m < |d| && d[m].0 == x;
            assert r[m].0 == x;
          }
          if x == k { assert r[|d|].0 == x; }
          if x in KeySet(r) {
            var m :| 0 <= m < |r| && r[m].0 == x;
            if m < |d| { assert d[m].0 == x; }
          }
        }
      }
      GetAfterAppend(d, k, v);
      r
  }

  /** `d[k] = v` keeps the key order: a present key stays in place, a new key goes last. */
  lemma PutKeys<V>(d: Dict<V>, k: string, v: V)
    ensures Keys(Put(d, k, v)) == if HasKey(d, k) then Keys(d) else Keys(d) + [k]
  {
    var i := IndexOf(d, k);
    if i >= 0 {
      KeysReplace(d, i, (k, v));
    } else {
      KeysAppend(d, (k, v));
    }
  }

  lemma KeysReplace<V>(d: Dict<V>, i: nat, e: (string, V))
    requires i < |d| && d[i].0 == e.0
    ensures Keys(d[i := e]) == Keys(d)
  {
    var r := d[i := e];
    forall m | 0 <= m < |r| ensures Keys(r)[m] == Keys(d)[m] {
      assert r[m].0 == d[m].0;
    }
  }

  lemma KeysAppend<V>(d: Dict<V>, e: (string, V))
    ensures Keys(d + [e]) == Keys(d) + [e.0]
  {
    var r := d + [e];
    forall m | 0 <= m < |r| ensures Keys(r)[m] == (Keys(d) + [e.0])[m] {
      assert r[m].0 == if m < |d| then d[m].0 else e.0;
    }
  }

  /** Assigning to an absent key appends the entry at the end. */
  lemma PutAbsent<V>(d: Dict<V>, k: string, v: V)
    requires !HasKey(d, k)
    ensures Put(d, k, v) == d + [(k, v)]
  {
  }

  lemma GetAfterReplace<V>(d: Dict<V>, i: nat, v: V)
    requires i < |d| && IndexOf(d, d[i].0) == i
    ensures Get(d[i := (d[i].0, v)], d[i].0) == Some(v)
    ensures forall k' :: k' != d[i].0 ==> Get(d[i := (d[i].0, v)], k') == Get(d, k')
  {
    var r := d[i := (d[i].0, v)];
    forall k' ensures IndexOf(r, k') == IndexOf(d, k') {
      IndexOfSameKeys(d, r, k');
    }
  }

  lemma {:induction false} IndexOfSameKeys<V>(d: Dict<V>, e: Dict<V>, k: string)
    requires |d| == |e| && forall j :: 0 <= j < |d| ==> d[j].0 == e[j].0
    ensures IndexOf(d, k) == IndexOf(e, k)
    decreases |d|
  {
    if d != [] && d[0].0 != k {
      IndexOfSameKeys(d[1..], e[1..], k);
    }
  }

  lemma GetAfterAppend<V>(d: Dict<V>, k: string, v: V)
    requires !HasKey(d, k)
    ensures Get(d + [(k, v)], k) == Some(v)
    ensures forall k' :: k' != k ==> Get(d + [(k, v)], k') == Get(d, k')
  {
    var r := d + [(k, v)];
    forall k' ensures k' != k ==> IndexOf(r, k') == IndexOf(d, k') {
      if k' != k {
        var i, j := IndexOf(r, k'), IndexOf(d, k');
        if j >= 0 { assert r[j].0 == k'; }
        if i >= 0 { assert i < |d|; assert d[i].0 == k'; }
      }
    }
    var i := IndexOf(r, k);
    assert r[|d|].0 == k;
    assert forall j :: 0 <= j < |d| ==> d[j].0 != k by {
      forall j | 0 <= j < |d| ensures d[j].0 != k {
        assert d[j].0 in KeySet(d);
      }
    }
  }

  /** In a dictionary without repeated keys, the entry at any position is the one `Get` finds. */
  lemma GetAt<V>(d: Dict<V>, i: nat)
    requires DistinctKeys(d) && i < |d|
    ensures Get(d, d[i].0) == Some(d[i].1)
  {
    assert d[i].0 in KeySet(d);
  }
}
