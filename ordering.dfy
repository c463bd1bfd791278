/** Python's string comparison and its stable `sorted(..., key=...)`. */
module Ordering {
  import opened Common

  /** Python's `a <= b` on strings: lexicographic by code point, a prefix
      coming first. */
  predicate LexLe(a: string, b: string) {
    a == [] || (b != [] && (a[0] < b[0] || (a[0] == b[0] && LexLe(a[1..], b[1..]))))
  }

  /** Python's `a < b` on strings. */
  predicate LexLess(a: string, b: string) {
    LexLe(a, b) && a != b
  }

  lemma {:induction false} LexLeTotal(a: string, b: string)
    ensures LexLe(a, b) || LexLe(b, a)
  {
    if a != [] && b != [] && a[0] == b[0] {
      LexLeTotal(a[1..], b[1..]);
    }
  }

  lemma {:induction false} LexLeReflexive(a: string)
    ensures LexLe(a, a)
  {
    if a != [] {
      LexLeReflexive(a[1..]);
    }
  }

  lemma {:induction false} LexLeTransitive(a: string, b: string, c: string)
    requires LexLe(a, b) && LexLe(b, c)
    ensures LexLe(a, c)
  {
    if a != [] && b != [] && c != [] && a[0] == b[0] == c[0] {
      LexLeTransitive(a[1..], b[1..], c[1..]);
    }
  }

  lemma {:induction false} LexLeAntisymmetric(a: string, b: string)
    requires LexLe(a, b) && LexLe(b, a)
    ensures a == b
  {
    if a != [] && b != [] {
      LexLeAntisymmetric(a[1..], b[1..]);
      assert a == [a[0]] + a[1..];
      assert b == [b[0]] + b[1..];
    }
  }

  /** Every element's key is at most every later element's key. */
  predicate SortedBy<T>(s: seq<T>, key: T -> string) {
    forall i, j :: 0 <= i < j < |s| ==> LexLe(key(s[i]), key(s[j]))
  }

  /** Puts `x` in front of the first element whose key is not below its own,
      so that it lands before every element with an equal key. */
  function Insert<T>(x: T, s: seq<T>, key: T -> string): seq<T> {
    if s == [] || LexLe(key(x), key(s[0])) then [x] + s
    else [s[0]] + Insert(x, s[1..], key)
  }

  /** Python's `sorted(s, key=key)`: a stable insertion sort. */
  function SortBy<T>(s: seq<T>, key: T -> string): seq<T> {
    if s == [] then [] else Insert(s[0], SortBy(s[1..], key), key)
  }

  lemma {:induction false} InsertPermutes<T>(x: T, s: seq<T>, key: T -> string)
    ensures multiset(Insert(x, s, key)) == multiset(s) + multiset{x}
  {
    if s != [] && !LexLe(key(x), key(s[0])) {
      InsertPermutes(x, s[1..], key);
      assert s == [s[0]] + s[1..];
    }
  }

  /** A lower bound of `x` and of every element of `s` bounds the result. */
  lemma {:induction false} InsertBound<T>(x: T, s: seq<T>, key: T -> string, b: string)
    requires LexLe(b, key(x))
    requires forall j :: 0 <= j < |s| ==> LexLe(b, key(s[j]))
    ensures forall j :: 0 <= j < |Insert(x, s, key)| ==> LexLe(b, key(Insert(x, s, key)[j]))
  {
    if s != [] && !LexLe(key(x), key(s[0])) {
      InsertBound(x, s[1..], key, b);
      var t := Insert(x, s[1..], key);
      assert Insert(x, s, key) == [s[0]] + t;
    }
  }

  lemma {:induction false} InsertSorted<T>(x: T, s: seq<T>, key: T -> string)
    requires SortedBy(s, key)
    ensures SortedBy(Insert(x, s, key), key)
  {
    if s == [] {
    } else if LexLe(key(x), key(s[0])) {
      var r := [x] + s;
      forall i, j | 0 <= i < j < |r| ensures LexLe(key(r[i]), key(r[j])) {
        if i == 0 && j > 1 {
          LexLeTransitive(key(x), key(s[0]), key(s[j - 1]));
        }
      }
    } else {
      LexLeTotal(key(x), key(s[0]));
      InsertSorted(x, s[1..], key);
      InsertBound(x, s[1..], key, key(s[0]));
      var t := Insert(x, s[1..], key);
      var r := [s[0]] + t;
      forall i, j | 0 <= i < j < |r| ensures LexLe(key(r[i]), key(r[j])) {
        if i > 0 {
          assert r[i] == t[i - 1] && r[j] == t[j - 1];
        } else {
          assert r[j] == t[j - 1];
        }
      }
    }
  }

  lemma {:induction false} SortByPermutes<T>(s: seq<T>, key: T -> string)
    ensures multiset(SortBy(s, key)) == multiset(s)
  {
    if s != [] {
      SortByPermutes(s[1..], key);
      InsertPermutes(s[0], SortBy(s[1..], key), key);
      assert s == [s[0]] + s[1..];
    }
  }

  lemma {:induction false} SortBySorted<T>(s: seq<T>, key: T -> string)
    ensures SortedBy(SortBy(s, key), key)
  {
    if s != [] {
      SortBySorted(s[1..], key);
      InsertSorted(s[0], SortBy(s[1..], key), key);
    }
  }

  /** The sorted sequence is ordered by key and holds exactly the input. */
  lemma SortByCorrect<T>(s: seq<T>, key: T -> string)
    ensures SortedBy(SortBy(s, key), key)
    ensures multiset(SortBy(s, key)) == multiset(s)
    ensures |SortBy(s, key)| == |s|
    ensures forall x :: x in SortBy(s, key) <==> x in s
  {
    SortBySorted(s, key);
    SortByPermutes(s, key);
    assert |multiset(SortBy(s, key))| == |multiset(s)|;
    forall x ensures x in SortBy(s, key) <==> x in s {
      assert x in SortBy(s, key) <==> x in multiset(SortBy(s, key));
      assert x in s <==> x in multiset(s);
    }
  }

  lemma {:induction false} InsertDistinct<T>(x: T, s: seq<T>, key: T -> string)
    requires Distinct(s) && x !in s
    ensures Distinct(Insert(x, s, key))
  {
    if s != [] && !LexLe(key(x), key(s[0])) {
      InsertDistinct(x, s[1..], key);
      InsertPermutes(x, s[1..], key);
      var t := Insert(x, s[1..], key);
      forall j | 0 <= j < |t| ensures t[j] != s[0] {
        assert t[j] in multiset(t);
        if t[j] != x {
          assert t[j] in multiset(s[1..]);
        }
      }
    }
  }

  /** Sorting keeps the elements pairwise distinct. */
  lemma {:induction false} SortByDistinct<T>(s: seq<T>, key: T -> string)
    requires Distinct(s)
    ensures Distinct(SortBy(s, key))
  {
    if s != [] {
      SortByDistinct(s[1..], key);
      SortByCorrect(s[1..], key);
      assert s[0] !in multiset(s[1..]);
      InsertDistinct(s[0], SortBy(s[1..], key), key);
    }
  }

  /** The key of plain `sorted(strings)`: the string itself. */
  function Id(s: string): string {
    s
  }

  /** A sorted sequence of distinct strings is strictly ascending. */
  lemma SortedDistinctStrict(s: seq<string>)
    requires SortedBy(s, Id) && Distinct(s)
    ensures forall i, j :: 0 <= i < j < |s| ==> LexLess(s[i], s[j])
  {
  }
}
