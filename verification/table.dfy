/** A JavaScript object used as a dictionary, seen as the sequence of its
    `[key, value]` pairs in `Object.entries` iteration order. Keys of a real
    object are distinct; `DistinctKeys` states it where a property needs it. */
module Table {
  import opened Fp

  type Table<V> = seq<(string, V)>

  /** Object keys are unique. */
  ghost predicate DistinctKeys<V>(t: Table<V>)
  {
    forall i, j :: 0 <= i < j < |t| ==> t[i].0 != t[j].0
  }

  /** `k` is a key of `t`. */
  ghost predicate HasKey<V>(t: Table<V>, k: string)
  {
    exists i :: 0 <= i < |t| && t[i].0 == k
  }

  /** The value of the first entry whose key is exactly `k` (case-sensitive,
      no normalisation), or `None`: both `Object.entries(t).filter(e => e[0] === k)
      .map(e => e[1]).shift()` and the property access `t[k]`. */
  function Lookup<V>(t: Table<V>, k: string): (r: Option<V>)
    ensures r.None? <==> !HasKey(t, k)
    ensures r.Some? ==> exists i :: 0 <= i < |t| && t[i].0 == k && r.value == t[i].1
                                    && forall j :: 0 <= j < i ==> t[j].0 != k
  {
    if |t| == 0 then None
    else if t[0].0 == k then Some(t[0].1)
    else
      var r := Lookup(t[1..], k);
      assert r.Some? ==> exists i :: 0 <= i < |t| && t[i].0 == k && r.value == t[i].1
                                     && forall j :: 0 <= j < i ==> t[j].0 != k by {
        if r.Some? {
          var i :| 0 <= i < |t[1..]| && t[1..][i].0 == k && r.value == t[1..][i].1
                   && forall j :: 0 <= j < i ==> t[1..][j].0 != k;
          assert t[i + 1].0 == k && forall j :: 0 <= j < i + 1 ==> t[j].0 != k;
        }
      }
      assert r.None? ==> forall i :: 1 <= i < |t| ==> t[i].0 == t[1..][i - 1].0;
      r
  }

  /** With unique keys, looking up the key of any entry yields that entry's value. */
  lemma LookupEntry<V>(t: Table<V>, i: int)
    requires DistinctKeys(t)
    requires 0 <= i < |t|
    ensures Lookup(t, t[i].0) == Some(t[i].1)
  {
    var r := Lookup(t, t[i].0);
    var m :| 0 <= m < |t| && t[m].0 == t[i].0 && r.value == t[m].1
             && forall j :: 0 <= j < m ==> t[j].0 != t[i].0;
    assert m == i;
  }
}
