/** Bucketing a sequence by a key into an insertion-ordered dict of lists,
    as `groups.setdefault(key(x), []).append(x)` does, stated for any key
    function. */
module Grouping {
  import opened Common
  import opened Ordering

  /** The key of each element, in order. */
  function KeysOf<T, K>(s: seq<T>, key: T -> K): seq<K> {
    seq(|s|, i requires 0 <= i < |s| => key(s[i]))
  }

  /** The key order of the dict: distinct keys by first appearance. */
  function GroupOrder<T, K(==,!new)>(s: seq<T>, key: T -> K): seq<K> {
    Dedup(KeysOf(s, key))
  }

  /** The dict itself: each key of the order mapped to its list. */
  function GroupsOf<T, K(!new)>(s: seq<T>, key: T -> K): map<K, seq<T>> {
    map k | k in GroupOrder(s, key) :: Members(s, key, k)
  }

  /** The list held under `k`: the elements with that key, in order. */
  function Members<T, K(==)>(s: seq<T>, key: T -> K, k: K): seq<T> {
    if s == [] then []
    else
      var last := s[|s| - 1];
      Members(s[..|s| - 1], key, k) + (if key(last) == k then [last] else [])
  }

  /** Appending an element adds its key to the order if it is new. */
  lemma GroupOrderSnoc<T, K(!new)>(s: seq<T>, x: T, key: T -> K)
    ensures GroupOrder(s + [x], key) ==
      if key(x) in GroupOrder(s, key) then GroupOrder(s, key) else GroupOrder(s, key) + [key(x)]
  {
    assert KeysOf(s + [x], key) == KeysOf(s, key) + [key(x)];
    DedupSnoc(KeysOf(s, key), key(x));
  }

  /** A key that is not in the order holds no element. */
  lemma {:induction false} MembersOfAbsentKey<T, K(!new)>(s: seq<T>, key: T -> K, k: K)
    requires k !in GroupOrder(s, key)
    ensures Members(s, key, k) == []
  {
    if s != [] {
      var init := s[..|s| - 1];
      GroupOrderSnoc(init, s[|s| - 1], key);
      assert s == init + [s[|s| - 1]];
      MembersOfAbsentKey(init, key, k);
    }
  }

  /** Appending an element appends it to the list of its own key only. */
  lemma MembersSnoc<T, K>(s: seq<T>, x: T, key: T -> K, k: K)
    ensures Members(s + [x], key, k) == Members(s, key, k) + (if key(x) == k then [x] else [])
  {
    assert (s + [x])[..|s|] == s;
  }

  /** Each element is held under its own key as often as it occurs, and
      under no other key. */
  lemma {:induction false} MembersCount<T, K>(s: seq<T>, key: T -> K, k: K, x: T)
    ensures multiset(Members(s, key, k))[x] == if key(x) == k then multiset(s)[x] else 0
  {
    if s != [] {
      var init := s[..|s| - 1];
      MembersCount(init, key, k, x);
      assert s == init + [s[|s| - 1]];
    }
  }

  lemma MembersAreKeyed<T, K>(s: seq<T>, key: T -> K, k: K)
    ensures forall x :: x in Members(s, key, k) <==> x in s && key(x) == k
  {
    forall x ensures x in Members(s, key, k) <==> x in s && key(x) == k {
      MembersCount(s, key, k, x);
      assert x in Members(s, key, k) <==> x in multiset(Members(s, key, k));
      assert x in s <==> x in multiset(s);
    }
  }

  /** Bucketing a reordering gives a reordering of each bucket. */
  lemma MembersPermute<T, K>(s: seq<T>, t: seq<T>, key: T -> K, k: K)
    requires multiset(s) == multiset(t)
    ensures multiset(Members(s, key, k)) == multiset(Members(t, key, k))
  {
    var a, b := multiset(Members(s, key, k)), multiset(Members(t, key, k));
    forall x ensures a[x] == b[x] {
      MembersCount(s, key, k, x);
      MembersCount(t, key, k, x);
    }
    MultisetExt(a, b);
  }

  /** Every element of a bucket stands somewhere in the input. */
  lemma MemberIndex<T, K>(s: seq<T>, key: T -> K, k: K, a: nat)
    requires a < |Members(s, key, k)|
    ensures exists b :: 0 <= b < |s| && s[b] == Members(s, key, k)[a]
  {
    var y := Members(s, key, k)[a];
    assert y in Members(s, key, k);
    MembersCount(s, key, k, y);
    assert y in multiset(Members(s, key, k));
  }

  /** A bucket keeps the order of a sorted input. */
  lemma {:induction false} MembersSorted<T, K>(s: seq<T>, key: T -> K, k: K, order: T -> string)
    requires SortedBy(s, order)
    ensures SortedBy(Members(s, key, k), order)
  {
    if s != [] {
      var init := s[..|s| - 1];
      var last := s[|s| - 1];
      assert SortedBy(init, order);
      MembersSorted(init, key, k, order);
      var m := Members(init, key, k);
      forall a | 0 <= a < |m| ensures LexLe(order(m[a]), order(last)) {
        MemberIndex(init, key, k, a);
        var b :| 0 <= b < |init| && init[b] == m[a];
        assert s[b] == m[a];
      }
    }
  }

  /** Seen from the front: the first element joins the list of its key. */
  lemma {:induction false} MembersCons<T, K>(x: T, s: seq<T>, key: T -> K, k: K)
    ensures Members([x] + s, key, k) == (if key(x) == k then [x] else []) + Members(s, key, k)
    decreases |s|
  {
    if s == [] {
      assert [x] + s == [x] && [x][..0] == [];
    } else {
      var init, last := s[..|s| - 1], s[|s| - 1];
      assert ([x] + s)[..|s|] == [x] + init;
      assert ([x] + s)[|s|] == last;
      MembersCons(x, init, key, k);
    }
  }

  /** Inserting `x` puts it before every element with the same key, so the
      list of each key changes only by `x` going to its front. */
  lemma {:induction false} InsertMembers<T>(x: T, s: seq<T>, key: T -> string, k: string)
    ensures Members(Insert(x, s, key), key, k) == (if key(x) == k then [x] else []) + Members(s, key, k)
  {
    if s == [] || LexLe(key(x), key(s[0])) {
      MembersCons(x, s, key, k);
    } else {
      LexLeReflexive(key(x));
      var t := Insert(x, s[1..], key);
      assert Insert(x, s, key) == [s[0]] + t;
      InsertMembers(x, s[1..], key, k);
      MembersCons(s[0], t, key, k);
      MembersCons(s[0], s[1..], key, k);
      assert [s[0]] + s[1..] == s;
      if key(x) == k {
        assert key(s[0]) != k;
      } else {
        assert Members(t, key, k) == Members(s[1..], key, k);
      }
    }
  }

  /** `sorted` is stable: the elements of each key keep their relative
      order, so every bucket is the same before and after sorting. */
  lemma {:induction false} SortByStable<T>(s: seq<T>, key: T -> string, k: string)
    ensures Members(SortBy(s, key), key, k) == Members(s, key, k)
  {
    if s != [] {
      SortByStable(s[1..], key, k);
      InsertMembers(s[0], SortBy(s[1..], key), key, k);
      MembersCons(s[0], s[1..], key, k);
      assert [s[0]] + s[1..] == s;
    }
  }

  /** How many elements have a key among `ks`. */
  function CountKeyed<T, K(==)>(s: seq<T>, key: T -> K, ks: seq<K>): nat {
    if s == [] then 0
    else CountKeyed(s[..|s| - 1], key, ks) + (if key(s[|s| - 1]) in ks then 1 else 0)
  }

  /** The sizes of the buckets of `ks`, added up. */
  function BucketSizes<T, K(==)>(s: seq<T>, key: T -> K, ks: seq<K>): nat {
    if ks == [] then 0 else BucketSizes(s, key, ks[..|ks| - 1]) + |Members(s, key, ks[|ks| - 1])|
  }

  lemma {:induction false} CountKeyedSplit<T, K>(s: seq<T>, key: T -> K, rest: seq<K>, k: K)
    requires k !in rest
    ensures CountKeyed(s, key, rest + [k]) == CountKeyed(s, key, rest) + |Members(s, key, k)|
  {
    if s != [] {
      CountKeyedSplit(s[..|s| - 1], key, rest, k);
    }
  }

  lemma {:induction false} CountKeyedNone<T, K>(s: seq<T>, key: T -> K)
    ensures CountKeyed(s, key, []) == 0
  {
    if s != [] {
      CountKeyedNone(s[..|s| - 1], key);
    }
  }

  lemma {:induction false} CountKeyedAll<T, K>(s: seq<T>, key: T -> K, ks: seq<K>)
    requires forall x :: x in s ==> key(x) in ks
    ensures CountKeyed(s, key, ks) == |s|
  {
    if s != [] {
      CountKeyedAll(s[..|s| - 1], key, ks);
    }
  }

  /** The buckets of distinct keys that cover every element hold, together,
      as many elements as the input. */
  lemma {:induction false} BucketSizesCover<T, K>(s: seq<T>, key: T -> K, ks: seq<K>)
    requires Distinct(ks)
    requires forall x :: x in s ==> key(x) in ks
    ensures BucketSizes(s, key, ks) == |s|
  {
    BucketSizesCount(s, key, ks);
    CountKeyedAll(s, key, ks);
  }

  lemma {:induction false} BucketSizesCount<T, K>(s: seq<T>, key: T -> K, ks: seq<K>)
    requires Distinct(ks)
    ensures BucketSizes(s, key, ks) == CountKeyed(s, key, ks)
  {
    if ks != [] {
      var init := ks[..|ks| - 1];
      assert Distinct(init);
      BucketSizesCount(s, key, init);
      assert ks == init + [ks[|ks| - 1]];
      CountKeyedSplit(s, key, init, ks[|ks| - 1]);
    } else {
      CountKeyedNone(s, key);
    }
  }

  /** The dict's keys are exactly the keys of the elements. */
  lemma GroupOrderKeys<T, K(!new)>(s: seq<T>, key: T -> K)
    ensures Distinct(GroupOrder(s, key))
    ensures forall k :: k in GroupOrder(s, key) <==> exists i :: 0 <= i < |s| && key(s[i]) == k
  {
    var ks := KeysOf(s, key);
    assert |ks| == |s| && forall i :: 0 <= i < |s| ==> ks[i] == key(s[i]);
    forall k ensures k in GroupOrder(s, key) <==> exists i :: 0 <= i < |s| && key(s[i]) == k {
      if k in ks {
        var i :| 0 <= i < |s| && ks[i] == k;
      }
    }
  }

  /** The bucketing loop: for each element in order, append it to the list
      of its key, creating the list on the key's first appearance. The dict
      is returned as its key order and its mapping. */
  method GroupBy<T, K(==,!new)>(s: seq<T>, key: T -> K) returns (order: seq<K>, groups: map<K, seq<T>>)
    ensures order == GroupOrder(s, key)
    ensures groups == GroupsOf(s, key)
  {
    order, groups := [], map[];
    for i := 0 to |s|
      invariant order == GroupOrder(s[..i], key)
      invariant forall k :: k in groups <==> k in order
      invariant forall k :: k in groups ==> groups[k] == Members(s[..i], key, k)
    {
      var x := s[i];
      var k := key(x);
      assert s[..i + 1] == s[..i] + [x];
      GroupOrderSnoc(s[..i], x, key);
      forall k' ensures Members(s[..i + 1], key, k') == Members(s[..i], key, k') + (if k == k' then [x] else []) {
        MembersSnoc(s[..i], x, key, k');
      }
      if k !in groups {
        MembersOfAbsentKey(s[..i], key, k);
        order := order + [k];
        groups := groups[k := []];
      }
      groups := groups[k := groups[k] + [x]];
    }
    assert s[..|s|] == s;
    assert groups.Keys == GroupsOf(s, key).Keys;
  }

  /** Sorting the dict's keys by `order` gives each key once, sorted, and
      exactly the keys of the elements. */
  lemma SortedGroupOrder<T, K(!new)>(s: seq<T>, key: T -> K, order: K -> string)
    ensures var ks := SortBy(GroupOrder(s, key), order);
      && Distinct(ks)
      && SortedBy(ks, order)
      && (forall k :: k in ks <==> k in GroupOrder(s, key))
      && (forall k :: k in ks <==> exists x :: x in s && key(x) == k)
  {
    var o := GroupOrder(s, key);
    var ks := SortBy(o, order);
    GroupOrderKeys(s, key);
    SortByCorrect(o, order);
    SortByDistinct(o, order);
    forall k ensures k in ks <==> exists x :: x in s && key(x) == k {
      assert k in ks <==> k in o;
      if k in o {
        var i :| 0 <= i < |s| && key(s[i]) == k;
        assert s[i] in s;
      }
    }
  }

  /** `f` applied to each key and its list, in the order of the keys. */
  function MapGroups<K, V, R>(keys: seq<K>, groups: map<K, V>, f: (K, V) -> R): (r: seq<R>)
    requires forall k :: k in keys ==> k in groups
    ensures |r| == |keys|
  {
    if keys == [] then []
    else MapGroups(keys[..|keys| - 1], groups, f) + [f(keys[|keys| - 1], groups[keys[|keys| - 1]])]
  }

  /** A list holding `f` of each key, in order, is the mapped list. */
  lemma {:induction false} MapGroupsAll<K, V, R>(keys: seq<K>, groups: map<K, V>, f: (K, V) -> R, r: seq<R>)
    requires forall k :: k in keys ==> k in groups
    requires |r| == |keys|
    requires forall j :: 0 <= j < |r| ==> r[j] == f(keys[j], groups[keys[j]])
    ensures r == MapGroups(keys, groups, f)
  {
    if keys != [] {
      MapGroupsAll(keys[..|keys| - 1], groups, f, r[..|r| - 1]);
    }
  }

  /** The `i`-th result is `f` of the `i`-th key. */
  lemma {:induction false} MapGroupsIndex<K, V, R>(keys: seq<K>, groups: map<K, V>, f: (K, V) -> R, i: nat)
    requires forall k :: k in keys ==> k in groups
    requires i < |keys|
    ensures MapGroups(keys, groups, f)[i] == f(keys[i], groups[keys[i]])
  {
    var init := keys[..|keys| - 1];
    if i < |init| {
      MapGroupsIndex(init, groups, f, i);
    }
  }

  /** The dict filled by `d[sub(x)] = x` for each element in order: under
      each sub-key, the last element that has it. */
  function LastBy<T, K>(s: seq<T>, sub: T -> K): map<K, T> {
    if s == [] then map[] else LastBy(s[..|s| - 1], sub)[sub(s[|s| - 1]) := s[|s| - 1]]
  }

  lemma LastBySnoc<T, K>(s: seq<T>, x: T, sub: T -> K)
    ensures LastBy(s + [x], sub) == LastBy(s, sub)[sub(x) := x]
  {
    assert (s + [x])[..|s|] == s;
  }

  /** The sub-keys present are those of the elements, and each maps to the
      last element with that sub-key. */
  lemma {:induction false} LastBySpec<T, K>(s: seq<T>, sub: T -> K)
    ensures forall k :: k in LastBy(s, sub) <==> exists i :: 0 <= i < |s| && sub(s[i]) == k
    ensures forall k :: k in LastBy(s, sub) ==>
      exists i :: 0 <= i < |s| && s[i] == LastBy(s, sub)[k] && sub(s[i]) == k
        && (forall j :: i < j < |s| ==> sub(s[j]) != k)
  {
    if s != [] {
      var init := s[..|s| - 1];
      var last := s[|s| - 1];
      LastBySpec(init, sub);
      var m := LastBy(s, sub);
      assert m == LastBy(init, sub)[sub(last) := last];
      forall k ensures k in m <==> exists i :: 0 <= i < |s| && sub(s[i]) == k {
        if k in m && k != sub(last) {
          assert k in LastBy(init, sub);
          var i :| 0 <= i < |init| && sub(init[i]) == k;
          assert s[i] == init[i];
        }
        if i :| 0 <= i < |s| && sub(s[i]) == k {
          if i < |init| {
            assert init[i] == s[i];
            assert k in LastBy(init, sub);
          }
        }
      }
      forall k | k in m
        ensures exists i :: 0 <= i < |s| && s[i] == m[k] && sub(s[i]) == k && (forall j :: i < j < |s| ==> sub(s[j]) != k)
      {
        if k == sub(last) {
          assert s[|s| - 1] == m[k];
        } else {
          var i :| 0 <= i < |init| && init[i] == LastBy(init, sub)[k] && sub(init[i]) == k
            && (forall j :: i < j < |init| ==> sub(init[j]) != k);
          assert s[i] == init[i];
          forall j | i < j < |s| ensures sub(s[j]) != k {
            if j < |init| {
              assert s[j] == init[j];
            }
          }
        }
      }
    }
  }

  /** The elements that satisfy `keep`, in order. */
  function Select<T>(s: seq<T>, keep: T -> bool): seq<T> {
    if s == [] then []
    else Select(s[..|s| - 1], keep) + (if keep(s[|s| - 1]) then [s[|s| - 1]] else [])
  }

  /** `Select` keeps exactly the elements that satisfy `keep`. */
  lemma {:induction false} SelectSpec<T>(s: seq<T>, keep: T -> bool)
    ensures forall x :: x in Select(s, keep) <==> x in s && keep(x)
  {
    if s != [] {
      var init := s[..|s| - 1];
      SelectSpec(init, keep);
      assert s == init + [s[|s| - 1]];
    }
  }

  /** The dict of dicts filled by `groups.setdefault(key(x), {})[sub(x)] = x`
      for each element that satisfies `keep`. */
  function BucketsOf<T, K(!new), E>(s: seq<T>, key: T -> K, sub: T -> E): map<K, map<E, T>> {
    map k | k in GroupOrder(s, key) :: LastBy(Members(s, key, k), sub)
  }

  /** Every element's sub-key is a key of the dict. */
  lemma {:induction false} LastByDomain<T, K>(s: seq<T>, sub: T -> K, x: T)
    requires x in s
    ensures sub(x) in LastBy(s, sub)
  {
    var init := s[..|s| - 1];
    if x != s[|s| - 1] {
      assert s == init + [s[|s| - 1]];
      LastByDomain(init, sub, x);
    }
  }

  /** Every value of the dict is an element stored under its own sub-key. */
  lemma {:induction false} LastByValue<T, K>(s: seq<T>, sub: T -> K, e: K)
    requires e in LastBy(s, sub)
    ensures LastBy(s, sub)[e] in s && sub(LastBy(s, sub)[e]) == e
  {
    var init := s[..|s| - 1];
    if e != sub(s[|s| - 1]) {
      assert s == init + [s[|s| - 1]];
      LastByValue(init, sub, e);
    }
  }

  /** The dict under a key holds, for each sub-key of an element with that
      key, one element with both keys, taken from `s`. */
  lemma BucketContents<T, K(!new), E>(s: seq<T>, key: T -> K, sub: T -> E, k: K)
    requires k in BucketsOf(s, key, sub)
    ensures var b := BucketsOf(s, key, sub)[k];
      && (forall x :: x in s && key(x) == k ==> sub(x) in b)
      && (forall e :: e in b ==> b[e] in s && key(b[e]) == k && sub(b[e]) == e)
  {
    var m := Members(s, key, k);
    var b := BucketsOf(s, key, sub)[k];
    assert b == LastBy(m, sub);
    forall x | x in s && key(x) == k ensures sub(x) in b {
      MembersAreKeyed(s, key, k);
      LastByDomain(m, sub, x);
    }
    forall e | e in b ensures b[e] in s && key(b[e]) == k && sub(b[e]) == e {
      LastByValue(m, sub, e);
      MembersAreKeyed(s, key, k);
    }
  }

  /** `order` and `groups` are the dict of dicts after the elements of `s`. */
  ghost predicate Collected<T, K(!new), E>(s: seq<T>, key: T -> K, sub: T -> E, order: seq<K>, groups: map<K, map<E, T>>) {
    && order == GroupOrder(s, key)
    && (forall k :: k in groups <==> k in order)
    && (forall k :: k in groups ==> groups[k] == LastBy(Members(s, key, k), sub))
  }

  /** An element updates the dict of its own key by its sub-key. */
  lemma LastByStepSame<T, K, E>(s: seq<T>, x: T, key: T -> K, sub: T -> E, before: map<E, T>)
    requires before == LastBy(Members(s, key, key(x)), sub)
    ensures before[sub(x) := x] == LastBy(Members(s + [x], key, key(x)), sub)
  {
    MembersSnoc(s, x, key, key(x));
    LastBySnoc(Members(s, key, key(x)), x, sub);
  }

  /** An element leaves the dicts of the other keys alone. */
  lemma LastByStepOther<T, K, E>(s: seq<T>, x: T, key: T -> K, sub: T -> E, k: K)
    requires k != key(x)
    ensures LastBy(Members(s + [x], key, k), sub) == LastBy(Members(s, key, k), sub)
  {
    MembersSnoc(s, x, key, k);
    assert Members(s, key, k) + [] == Members(s, key, k);
  }

  /** The dicts after one element more, given the new dict of its key and
      the other dicts unchanged. */
  lemma CollectValues<T, K, E>(s: seq<T>, x: T, key: T -> K, sub: T -> E,
                               groups: map<K, map<E, T>>, groups': map<K, map<E, T>>)
    requires forall k :: k in groups ==> groups[k] == LastBy(Members(s, key, k), sub)
    requires key(x) in groups'
    requires groups'[key(x)] == LastBy(Members(s + [x], key, key(x)), sub)
    requires forall k :: k in groups' && k != key(x) ==> k in groups && groups'[k] == groups[k]
    ensures forall k :: k in groups' ==> groups'[k] == LastBy(Members(s + [x], key, k), sub)
  {
    forall k | k in groups' ensures groups'[k] == LastBy(Members(s + [x], key, k), sub) {
      if k != key(x) {
        LastByStepOther(s, x, key, sub, k);
      }
    }
  }

  /** The order after one element more, and the keys of the dicts with it. */
  lemma CollectKeys<T, K(!new), E>(s: seq<T>, x: T, key: T -> K, order: seq<K>, groups: map<K, map<E, T>>, d: map<E, T>)
    requires order == GroupOrder(s, key)
    requires forall k :: k in groups <==> k in order
    ensures var order' := if key(x) in groups then order else order + [key(x)];
      && order' == GroupOrder(s + [x], key)
      && forall k :: k in groups[key(x) := d] <==> k in order'
  {
    GroupOrderSnoc(s, x, key);
  }

  /** One element more: its key is added to the order if new, and it is
      stored under its sub-key in its key's dict (`before` is that dict
      before the step, empty for a new key). */
  lemma CollectStep<T, K(!new), E>(s: seq<T>, x: T, key: T -> K, sub: T -> E,
                                   order: seq<K>, groups: map<K, map<E, T>>, before: map<E, T>,
                                   order': seq<K>, groups': map<K, map<E, T>>)
    requires Collected(s, key, sub, order, groups)
    requires before == if key(x) in groups then groups[key(x)] else map[]
    requires order' == if key(x) in groups then order else order + [key(x)]
    requires groups' == groups[key(x) := before[sub(x) := x]]
    ensures Collected(s + [x], key, sub, order', groups')
  {
    var k := key(x);
    CollectKeys(s, x, key, order, groups, before[sub(x) := x]);
    assert groups'[k] == LastBy(Members(s + [x], key, k), sub) by {
      if k !in groups {
        MembersOfAbsentKey(s, key, k);
      }
      LastByStepSame(s, x, key, sub, before);
    }
    CollectValues(s, x, key, sub, groups, groups');
  }

  /** The filtering and bucketing loop: each element that satisfies `keep`
      is stored under its key and, inside that, under its sub-key, a later
      element replacing an earlier one with the same sub-key. */
  method CollectBy<T, K(==,!new), E(==)>(s: seq<T>, keep: T -> bool, key: T -> K, sub: T -> E)
    returns (order: seq<K>, groups: map<K, map<E, T>>)
    ensures order == GroupOrder(Select(s, keep), key)
    ensures groups == BucketsOf(Select(s, keep), key, sub)
  {
    order, groups := [], map[];
    for i := 0 to |s|
      invariant Collected(Select(s[..i], keep), key, sub, order, groups)
    {
      var x := s[i];
      ghost var before := Select(s[..i], keep);
      assert s[..i + 1][..i] == s[..i];
      if keep(x) {
        var k := key(x);
        assert Select(s[..i + 1], keep) == before + [x];
        var bucket := if k in groups then groups[k] else map[];
        var order' := if k in groups then order else order + [k];
        var groups' := groups[k := bucket[sub(x) := x]];
        CollectStep(before, x, key, sub, order, groups, bucket, order', groups');
        order, groups := order', groups';
      } else {
        assert Select(s[..i + 1], keep) == before;
      }
    }
    assert s[..|s|] == s;
    assert groups.Keys == BucketsOf(Select(s, keep), key, sub).Keys;
  }
}
