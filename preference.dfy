/** Choosing one value out of a dict by a preference order on its keys, as
    a loop over the preferred keys that stops at the first one present. */
module Preference {
  import opened Common
  import opened Grouping

  /** The value under the first key of `prefs` that `options` holds. */
  function FirstPresent<P, V>(prefs: seq<P>, options: map<P, V>): (r: Option<V>)
    ensures r.None? <==> forall j :: 0 <= j < |prefs| ==> prefs[j] !in options
    ensures r.Some? ==>
      (exists j :: 0 <= j < |prefs| && prefs[j] in options && r.value == options[prefs[j]] &&
        (forall j' :: 0 <= j' < j ==> prefs[j'] !in options))
  {
    if prefs == [] then None
    else if prefs[0] in options then Some(options[prefs[0]])
    else
      var r := FirstPresent(prefs[1..], options);
      assert r.Some? ==>
        (exists j :: 1 <= j < |prefs| && prefs[j] in options && r.value == options[prefs[j]] &&
          (forall j' :: 0 <= j' < j ==> prefs[j'] !in options))
      by {
        if r.Some? {
          var j :| 0 <= j < |prefs| - 1 && prefs[1..][j] in options && r.value == options[prefs[1..][j]] &&
            (forall j' :: 0 <= j' < j ==> prefs[1..][j'] !in options);
          assert forall j' :: 1 <= j' < j + 1 ==> prefs[j'] == prefs[1..][j' - 1];
        }
      }
      r
  }

  /** The value chosen from each key's dict, in key order, skipping the
      keys whose dict holds none of the preferred keys. */
  function ChosenFrom<K, P, V>(prefs: seq<P>, keys: seq<K>, dicts: map<K, map<P, V>>): (r: seq<V>)
    requires forall k :: k in keys ==> k in dicts
    ensures |r| <= |keys|
  {
    if keys == [] then []
    else
      ChosenFrom(prefs, keys[..|keys| - 1], dicts)
      + match FirstPresent(prefs, dicts[keys[|keys| - 1]])
        case Some(v) => [v]
        case None => []
  }

  /** One key more: its dict's chosen value, if any, is appended. */
  lemma ChosenFromSnoc<K, P, V>(prefs: seq<P>, keys: seq<K>, dicts: map<K, map<P, V>>, i: nat)
    requires forall k :: k in keys ==> k in dicts
    requires i < |keys|
    ensures ChosenFrom(prefs, keys[..i + 1], dicts) ==
      ChosenFrom(prefs, keys[..i], dicts) +
      (if FirstPresent(prefs, dicts[keys[i]]).Some? then [FirstPresent(prefs, dicts[keys[i]]).value] else [])
  {
    assert keys[..i + 1][..i] == keys[..i];
  }

  /** When every dict holds a preferred key, one value is chosen per key. */
  lemma {:induction false} ChosenFromIndex<K, P, V>(prefs: seq<P>, keys: seq<K>, dicts: map<K, map<P, V>>, i: nat)
    requires forall k :: k in keys ==> k in dicts && FirstPresent(prefs, dicts[k]).Some?
    requires i < |keys|
    ensures |ChosenFrom(prefs, keys, dicts)| == |keys|
    ensures ChosenFrom(prefs, keys, dicts)[i] == FirstPresent(prefs, dicts[keys[i]]).value
  {
    var init := keys[..|keys| - 1];
    if i < |init| {
      ChosenFromIndex(prefs, init, dicts, i);
    } else if init != [] {
      ChosenFromIndex(prefs, init, dicts, 0);
    }
  }

  /** In a dict of dicts filled from `s`, when every sub-key is a preferred
      key, the value chosen under a key is an element of `s` with that key
      whose sub-key ranks first among the sub-keys of all elements with that
      key. */
  lemma ChosenByRank<T, K(!new), P>(s: seq<T>, key: T -> K, sub: T -> P, prefs: seq<P>, k: K)
    requires k in BucketsOf(s, key, sub)
    requires forall x :: x in s ==> sub(x) in prefs
    ensures FirstPresent(prefs, BucketsOf(s, key, sub)[k]).Some?
    ensures var e := FirstPresent(prefs, BucketsOf(s, key, sub)[k]).value;
      && e in s && key(e) == k
      && (exists j ::
            0 <= j < |prefs| && prefs[j] == sub(e) &&
            (forall f :: f in s && key(f) == k ==> sub(f) !in prefs[..j]))
  {
    var b := BucketsOf(s, key, sub)[k];
    BucketContents(s, key, sub, k);
    GroupOrderKeys(s, key);
    var i :| 0 <= i < |s| && key(s[i]) == k;
    assert s[i] in s;
    var ji :| 0 <= ji < |prefs| && prefs[ji] == sub(s[i]);
    assert prefs[ji] in b;
    var r := FirstPresent(prefs, b);
    var j :| 0 <= j < |prefs| && prefs[j] in b && r.value == b[prefs[j]] &&
      (forall j' :: 0 <= j' < j ==> prefs[j'] !in b);
  }
}
