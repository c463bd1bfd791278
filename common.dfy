/** Small shared vocabulary: optional values, results with an error, and
    the "distinct keys in first-appearance order" view of a Python dict. */
module Common {

  datatype Option<+T> = None | Some(value: T)

  datatype Result<+T, +E> = Success(value: T) | Failure(error: E)

  /** No element occurs twice. */
  predicate Distinct<T(==)>(s: seq<T>) {
    forall i, j :: 0 <= i < j < |s| ==> s[i] != s[j]
  }

  /** The distinct elements of `s` in the order of their first appearance:
      the key order of a Python dict filled by `setdefault` over `s`. */
  function Dedup<T(==,!new)>(s: seq<T>): (r: seq<T>)
    ensures Distinct(r)
    ensures forall x :: x in r <==> x in s
    ensures |r| <= |s|
  {
    if s == [] then []
    else
      var d := Dedup(s[..|s| - 1]);
      if s[|s| - 1] in d then d else d + [s[|s| - 1]]
  }

  /** Appending an element that is already present leaves the order alone;
      appending a new one puts it last. */
  lemma DedupSnoc<T(!new)>(s: seq<T>, x: T)
    ensures Dedup(s + [x]) == if x in Dedup(s) then Dedup(s) else Dedup(s) + [x]
  {
    assert (s + [x])[..|s|] == s;
  }

  /** Multisets that agree on every count are equal. */
  lemma MultisetExt<T>(a: multiset<T>, b: multiset<T>)
    requires forall x :: a[x] == b[x]
    ensures a == b
  {
  }

}
