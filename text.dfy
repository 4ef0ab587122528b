/**
 * The Python string operations the core relies on: `str.strip()`, `str.lower()`,
 * code-point ordering of strings (what `sorted` uses), `', '.join`, `in` on
 * strings and `str(int)`.
 */
module Text {

  /** The characters `str.strip()` removes: Python's whitespace class. */
  predicate IsSpace(c: char)
  {
    ('\t' <= c <= '\r') || ('\U{001C}' <= c <= '\U{001F}') || c == ' ' ||
    c == '\U{0085}' || c == '\U{00A0}' || c == '\U{1680}' || ('\U{2000}' <= c <= '\U{200A}') ||
    c == '\U{2028}' || c == '\U{2029}' || c == '\U{202F}' || c == '\U{205F}' || c == '\U{3000}'
  }

  /** Number of whitespace characters at the start of `s`. */
  function LeadingSpace(s: string): (n: nat)
    ensures n <= |s|
    ensures forall k :: 0 <= k < n ==> IsSpace(s[k])
    ensures n < |s| ==> !IsSpace(s[n])
  {
    if s != [] && IsSpace(s[0]) then 1 + LeadingSpace(s[1..]) else 0
  }

  /** Number of whitespace characters at the end of `s`. */
  function TrailingSpace(s: string): (n: nat)
    ensures n <= |s|
    ensures forall k :: |s| - n <= k < |s| ==> IsSpace(s[k])
    ensures n < |s| ==> !IsSpace(s[|s| - 1 - n])
  {
    if s != [] && IsSpace(s[|s| - 1]) then 1 + TrailingSpace(s[..|s| - 1]) else 0
  }

  /**
   * `s.strip()`: the slice of `s` that starts at its first and ends at its last
   * non-whitespace character; empty when `s` is all whitespace.
   */
  function Strip(s: string): (r: string)
    ensures LeadingSpace(s) + |r| <= |s| && r == s[LeadingSpace(s)..LeadingSpace(s) + |r|]
    ensures forall k :: 0 <= k < |s| && !IsSpace(s[k]) ==> LeadingSpace(s) <= k < LeadingSpace(s) + |r|
    ensures r == [] || (!IsSpace(r[0]) && !IsSpace(r[|r| - 1]))
  {
    var i := LeadingSpace(s);
    var j := |s| - TrailingSpace(s[i..]);
    StripEnd(s, i);
    s[i..j]
  }

  /** Whitespace at the end of a suffix of `s` is whitespace at the end of `s`. */
  lemma SpaceAtEnd(s: string, i: nat, n: nat)
    requires i <= |s| && n <= |s| - i
    requires forall k :: |s| - i - n <= k < |s| - i ==> IsSpace(s[i..][k])
    ensures forall k :: |s| - n <= k < |s| ==> IsSpace(s[k])
  {
    forall k | |s| - n <= k < |s| ensures IsSpace(s[k]) {
      assert s[k] == s[i..][k - i];
    }
  }

  /**
   * Where the stripped text ends, once `i` leading characters are dropped:
   * everything after it is whitespace, and its last character is not.
   */
  lemma StripEnd(s: string, i: nat)
    requires i <= |s|
    ensures var j := |s| - TrailingSpace(s[i..]);
            i <= j &&
            (forall k :: j <= k < |s| ==> IsSpace(s[k])) &&
            (i < j ==> !IsSpace(s[j - 1]))
  {
    var n := TrailingSpace(s[i..]);
    SpaceAtEnd(s, i, n);
    if n < |s| - i {
      NotSpaceBeforeEnd(s, i, n);
    }
  }

  lemma NotSpaceBeforeEnd(s: string, i: nat, n: nat)
    requires i <= |s| && n < |s| - i && !IsSpace(s[i..][|s[i..]| - 1 - n])
    ensures !IsSpace(s[|s| - n - 1])
  {
    assert s[|s| - n - 1] == s[i..][|s| - i - 1 - n];
  }



  /** Stripping twice strips nothing more. */
  lemma StripIdempotent(s: string)
    ensures Strip(Strip(s)) == Strip(s)
  {
    var r := Strip(s);
    assert LeadingSpace(r) == 0;
    assert forall k :: 0 <= k < |r| && !IsSpace(r[k]) ==> k < |Strip(r)|;
    if r != [] {
      assert !IsSpace(r[|r| - 1]);
    }
  }

  /** The simple lower-case mapping of one character (ASCII letters only). */
  function LowerChar(c: char): char
  {
    if 'A' <= c <= 'Z' then (c as int + 32) as char else c
  }

  predicate IsUpper(c: char)
  {
    'A' <= c <= 'Z'
  }

  /** `s.lower()`, restricted to the ASCII letters. */
  function Lower(s: string): (r: string)
    ensures |r| == |s|
    ensures forall i :: 0 <= i < |s| ==> !IsUpper(r[i])
    ensures forall i :: 0 <= i < |s| ==> (r[i] == s[i] <==> !IsUpper(s[i]))
    ensures forall i :: 0 <= i < |s| ==> LowerChar(r[i]) == LowerChar(s[i])
    ensures forall i :: 0 <= i < |s| ==> r[i] == LowerChar(s[i])
  {
    if s == [] then [] else [LowerChar(s[0])] + Lower(s[1..])
  }

  /** A string without upper-case letters is its own lower-case form. */
  lemma LowerFixed(s: string)
    requires forall i :: 0 <= i < |s| ==> !IsUpper(s[i])
    ensures Lower(s) == s
  {
    forall i | 0 <= i < |s| ensures Lower(s)[i] == s[i] {
      assert !IsUpper(s[i]);
    }
  }

  /** Two strings that differ only in letter case have the same lower-case form. */
  lemma LowerCaseInsensitive(s: string, t: string)
    requires |s| == |t| && forall i :: 0 <= i < |s| ==> LowerChar(s[i]) == LowerChar(t[i])
    ensures Lower(s) == Lower(t)
  {
    assert forall i :: 0 <= i < |s| ==> Lower(s)[i] == LowerChar(s[i]) by {
      forall i | 0 <= i < |s| ensures Lower(s)[i] == LowerChar(s[i]) {
        assert LowerChar(Lower(s)[i]) == LowerChar(s[i]);
      }
    }
    assert forall i :: 0 <= i < |t| ==> Lower(t)[i] == LowerChar(t[i]) by {
      forall i | 0 <= i < |t| ensures Lower(t)[i] == LowerChar(t[i]) {
        assert LowerChar(Lower(t)[i]) == LowerChar(t[i]);
      }
    }
  }

  /** Python's `a < b` on strings: lexicographic by code point. */
  predicate Less(a: string, b: string)
  {
    if a == [] then b != []
    else if b == [] then false
    else if a[0] == b[0] then Less(a[1..], b[1..])
    else a[0] < b[0]
  }

  lemma {:induction false} LessIrreflexive(a: string)
    ensures !Less(a, a)
  {
    if a != [] { LessIrreflexive(a[1..]); }
  }

  lemma {:induction false} LessTransitive(a: string, b: string, c: string)
    requires Less(a, b) && Less(b, c)
    ensures Less(a, c)
  {
    if a != [] && b != [] && c != [] && a[0] == b[0] && b[0] == c[0] {
      LessTransitive(a[1..], b[1..], c[1..]);
    }
  }

  lemma {:induction false} LessTotal(a: string, b: string)
    ensures a == b || Less(a, b) || Less(b, a)
  {
    if a != [] && b != [] && a[0] == b[0] {
      LessTotal(a[1..], b[1..]);
      if a[1..] == b[1..] { assert a == [a[0]] + a[1..] && b == [b[0]] + b[1..]; }
    }
  }

  lemma {:induction false} LessAsymmetric(a: string, b: string)
    requires Less(a, b)
    ensures !Less(b, a)
  {
    if a != [] && b != [] && a[0] == b[0] {
      LessAsymmetric(a[1..], b[1..]);
    }
  }

  /** The elements of a sequence of strings, as a set. */
  function Elems(s: seq<string>): set<string>
  {
    set y | y in s
  }

  /** The elements of a non-empty list: those before the last, and the last. */
  lemma ElemsLast(s: seq<string>)
    requires s != []
    ensures Elems(s) == Elems(s[..|s| - 1]) + {s[|s| - 1]}
  {
    assert s == s[..|s| - 1] + [s[|s| - 1]];
  }

  /** Ascending without duplicates: the shape of `sorted(set)`. */
  predicate StrictlySorted(s: seq<string>)
  {
    forall i, j :: 0 <= i < j < |s| ==> Less(s[i], s[j])
  }

  /** Adds `x` to a strictly sorted sequence at its place, unless already present. */
  function Insert(s: seq<string>, x: string): (r: seq<string>)
    requires StrictlySorted(s)
    ensures StrictlySorted(r)
    ensures Elems(r) == Elems(s) + {x}
  {
    if s == [] then [x]
    else if x == s[0] then s
    else if Less(x, s[0]) then
      ConsSorted(x, s);
      ElemsCons(x, s);
      [x] + s
    else
      var t := Insert(s[1..], x);
      InsertStep(s, x, t);
      [s[0]] + t
  }

  lemma ElemsCons(a: string, s: seq<string>)
    ensures Elems([a] + s) == {a} + Elems(s)
  {
  }

  /** A strictly sorted list stays so when an element smaller than its head is put in front. */
  lemma ConsSorted(x: string, s: seq<string>)
    requires StrictlySorted(s) && (s == [] || Less(x, s[0]))
    ensures StrictlySorted([x] + s)
  {
    forall i, j | 0 <= i < j < |s| + 1 ensures Less(([x] + s)[i], ([x] + s)[j]) {
      if i == 0 && j > 1 { LessTransitive(x, s[0], s[j - 1]); }
    }
  }

  /** The recursive case of Insert: `x` goes after the head, into the tail. */
  lemma InsertStep(s: seq<string>, x: string, t: seq<string>)
    requires s != [] && StrictlySorted(s) && x != s[0] && !Less(x, s[0])
    requires StrictlySorted(t) && Elems(t) == Elems(s[1..]) + {x}
    ensures StrictlySorted([s[0]] + t) && Elems([s[0]] + t) == Elems(s) + {x}
  {
    LessTotal(x, s[0]);
    if t != [] {
      assert t[0] in Elems(t);
      if t[0] != x {
        var k :| 0 <= k < |s[1..]| && s[1..][k] == t[0];
        assert s[k + 1] == t[0];
      }
    }
    ConsSorted(s[0], t);
    assert s == [s[0]] + s[1..];
    ElemsCons(s[0], s[1..]);
    ElemsCons(s[0], t);
  }


  /** A strictly sorted sequence is determined by its elements. */
  lemma {:induction false} SortedUnique(a: seq<string>, b: seq<string>)
    requires StrictlySorted(a) && StrictlySorted(b)
    requires Elems(a) == Elems(b)
    ensures a == b
  {
    assert a != [] ==> a[0] in Elems(a);
    assert b != [] ==> b[0] in Elems(b);
    if a != [] && b != [] {
      assert a[0] in Elems(a) && b[0] in Elems(b);
      if a[0] != b[0] {
        var i :| 0 <= i < |b| && b[i] == a[0];
        var j :| 0 <= j < |a| && a[j] == b[0];
        assert i > 0 && j > 0;
        assert Less(b[0], a[0]) && Less(a[0], b[0]);
        LessAsymmetric(a[0], b[0]);
        assert false;
      }
      assert Elems(a[1..]) == Elems(b[1..]) by {
        forall x ensures x in a[1..] <==> x in b[1..] {
          if x in a[1..] {
            var i :| 0 <= i < |a[1..]| && a[1..][i] == x;
            assert Less(a[0], x);
            LessIrreflexive(x);
            assert x in Elems(a);
            var m :| 0 <= m < |b| && b[m] == x;
            assert m != 0;
            assert b[1..][m - 1] == x;
          }
          if x in b[1..] {
            var i :| 0 <= i < |b[1..]| && b[1..][i] == x;
            assert Less(b[0], x);
            LessIrreflexive(x);
            assert x in Elems(b);
            var m :| 0 <= m < |a| && a[m] == x;
            assert m != 0;
            assert a[1..][m - 1] == x;
          }
        }
      }
      SortedUnique(a[1..], b[1..]);
      assert a == [a[0]] + a[1..] && b == [b[0]] + b[1..];
    }
  }

  /** `sep.join(parts)` */
  function Join(sep: string, parts: seq<string>): string
  {
    if parts == [] then ""
    else if |parts| == 1 then parts[0]
    else parts[0] + sep + Join(sep, parts[1..])
  }

  /** `sub` occurs in `s` at position `i`. */
  predicate OccursAt(s: string, sub: string, i: int)
  {
    0 <= i <= |s| - |sub| && s[i..i + |sub|] == sub
  }

  /** Python's `sub in s` on strings. */
  predicate Contains(s: string, sub: string)
  {
    exists i | 0 <= i <= |s| - |sub| :: OccursAt(s, sub, i)
  }

  lemma ContainsMiddle(a: string, b: string, c: string)
    ensures Contains(a + b + c, b)
  {
    assert (a + b + c)[|a|..|a| + |b|] == b;
    assert OccursAt(a + b + c, b, |a|);
  }

  /** What occurs in `s` occurs in any text that ends with `s`. */
  lemma ContainsShift(pre: string, s: string, sub: string)
    requires Contains(s, sub)
    ensures Contains(pre + s, sub)
  {
    var i :| 0 <= i <= |s| - |sub| && OccursAt(s, sub, i);
    assert (pre + s)[|pre| + i..|pre| + i + |sub|] == s[i..i + |sub|];
    assert OccursAt(pre + s, sub, |pre| + i);
  }

  lemma {:induction false} JoinContainsEach(sep: string, parts: seq<string>, k: nat)
    requires k < |parts|
    ensures Contains(Join(sep, parts), parts[k])
  {
    if |parts| == 1 {
      ContainsMiddle("", parts[0], "");
      assert "" + parts[0] + "" == Join(sep, parts);
    } else if k == 0 {
      ContainsMiddle("", parts[0], sep + Join(sep, parts[1..]));
      assert "" + parts[0] + (sep + Join(sep, parts[1..])) == Join(sep, parts);
    } else {
      JoinContainsEach(sep, parts[1..], k - 1);
      assert parts[1..][k - 1] == parts[k];
      ContainsShift(parts[0] + sep, Join(sep, parts[1..]), parts[k]);
    }
  }

  function DigitChar(d: nat): (c: char)
    requires d < 10
    ensures '0' <= c <= '9' && DigitValue(c) == d
  {
    "0123456789"[d]
  }

  /** The number a decimal digit character stands for. */
  function DigitValue(c: char): nat
    requires '0' <= c <= '9'
  {
    c as int - '0' as int
  }

  /** The number a string of decimal digits denotes. */
  function DecimalValue(s: string): nat
    requires forall i :: 0 <= i < |s| ==> '0' <= s[i] <= '9'
  {
    if s == [] then 0 else 10 * DecimalValue(s[..|s| - 1]) + DigitValue(s[|s| - 1])
  }

  /** The decimal digits of `n`, without leading zeros. */
  function NatDigits(n: nat): (r: string)
    ensures r != [] && forall i :: 0 <= i < |r| ==> '0' <= r[i] <= '9'
    ensures DecimalValue(r) == n
    ensures r[0] == '0' ==> n == 0 && r == "0"
  {
    if n < 10 then [DigitChar(n)]
    else
      var r := NatDigits(n / 10) + [DigitChar(n % 10)];
      assert r[..|r| - 1] == NatDigits(n / 10);
      r
  }

  /** `str(n)` for an integer: a minus sign for a negative number, then its magnitude in decimal without leading zeros. */
  function IntToString(n: int): (r: string)
    ensures r != []
    ensures (n < 0) <==> r[0] == '-'
    ensures forall i :: (if n < 0 then 1 else 0) <= i < |r| ==> '0' <= r[i] <= '9'
    ensures n >= 0 ==> DecimalValue(r) == n
    ensures n < 0 ==> |r| >= 2 && r[1] != '0' && DecimalValue(r[1..]) == -n
    ensures n >= 0 && r[0] == '0' ==> r == "0"
  {
    if n < 0 then
      var d := NatDigits(-n);
      assert ("-" + d)[1..] == d;
      "-" + d
    else NatDigits(n)
  }
}
