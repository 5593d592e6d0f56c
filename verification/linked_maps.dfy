/** Insertion-ordered maps, the model of Kotlin's `LinkedHashMap` (what `mutableMapOf`,
    `mapValues` and `associateWith` build). A map is a sequence of key/value entries; a
    well-formed one has no key twice, and the entry order is the iteration order. */
module LinkedMaps {
  import opened Wrappers

  /** The keys of `e`, in iteration order. */
  function Keys<K, V>(e: seq<(K, V)>): (ks: seq<K>)
    ensures |ks| == |e|
    ensures forall i :: 0 <= i < |e| ==> ks[i] == e[i].0
  {
    seq(|e|, i requires 0 <= i < |e| => e[i].0)
  }

  /** No element occurs twice. */
  predicate Distinct<T(==)>(s: seq<T>) {
    forall i, j :: 0 <= i < j < |s| ==> s[i] != s[j]
  }

  /** `s` with each element kept only at its first occurrence. */
  function Dedup<T(==,!new)>(s: seq<T>): (r: seq<T>)
    ensures Distinct(r)
    ensures forall x :: x in r <==> x in s
    decreases |s|
  {
    if |s| == 0 then []
    else
      var init, last := s[..|s| - 1], s[|s| - 1];
      var d := Dedup(init);
      assert s == init + [last];
      if last in d then d
      else
        assert forall i :: 0 <= i < |d| ==> (d + [last])[i] == d[i];
        d + [last]
  }

  /** A well-formed map: every key occurs once. */
  predicate Valid<K(==), V>(e: seq<(K, V)>) {
    Distinct(Keys(e))
  }

  /** Two maps with the same keys in the same order, entry by entry. */
  ghost predicate SameKeys<K, V, W>(a: seq<(K, V)>, b: seq<(K, W)>) {
    |a| == |b| && forall j :: 0 <= j < |a| ==> a[j].0 == b[j].0
  }

  /** Kotlin's `m[k]`: the value stored under `k`, if any. */
  function Get<K(==), V>(e: seq<(K, V)>, k: K): (r: Option<V>)
    ensures r.None? <==> k !in Keys(e)
    ensures r.Some? ==> (k, r.value) in e
  {
    if |e| == 0 then None
    else if e[0].0 == k then Some(e[0].1)
    else
      var r := Get(e[1..], k);
      assert Keys(e[1..]) == Keys(e)[1..];
      r
  }

  /** Kotlin's `m.getOrDefault(k, d)`. */
  function GetOrDefault<K(==), V>(e: seq<(K, V)>, k: K, d: V): V {
    Get(e, k).GetOr(d)
  }

  /** In a well-formed map, looking up the key of entry `i` finds entry `i`'s value. */
  lemma {:induction false} GetAt<K, V>(e: seq<(K, V)>, i: int)
    requires Valid(e)
    requires 0 <= i < |e|
    ensures Get(e, e[i].0) == Some(e[i].1)
  {
    if i > 0 {
      assert Keys(e)[0] != Keys(e)[i];
      assert Keys(e[1..]) == Keys(e)[1..];
      GetAt(e[1..], i - 1);
    }
  }

  /** In a well-formed map, the default is not used for the key of entry `i`. */
  lemma GetOrDefaultAt<K, V>(e: seq<(K, V)>, i: int, d: V)
    requires Valid(e)
    requires 0 <= i < |e|
    ensures GetOrDefault(e, e[i].0, d) == e[i].1
  {
    GetAt(e, i);
  }

  /** Kotlin's `m[k] = v`: an existing key keeps its position and gets the new value; a
      new key is appended at the end. */
  function Put<K(==,!new), V>(e: seq<(K, V)>, k: K, v: V): (r: seq<(K, V)>)
    ensures Keys(r) == if k in Keys(e) then Keys(e) else Keys(e) + [k]
    ensures forall j :: Get(r, j) == if j == k then Some(v) else Get(e, j)
  {
    if |e| == 0 then [(k, v)]
    else if e[0].0 == k then
      var r := [(k, v)] + e[1..];
      assert Keys(r) == Keys(e);
      assert r[1..] == e[1..];
      r
    else
      var t := Put(e[1..], k, v);
      var r := [e[0]] + t;
      assert Keys(e[1..]) == Keys(e)[1..];
      assert Keys(r) == [e[0].0] + Keys(t);
      assert r[1..] == t;
      r
  }

  /** Storing a value keeps a map well-formed. */
  lemma PutValid<K(!new), V>(e: seq<(K, V)>, k: K, v: V)
    requires Valid(e)
    ensures Valid(Put(e, k, v))
  {
    var ks := Keys(e);
    if k !in ks {
      assert Keys(Put(e, k, v)) == ks + [k];
      assert forall i :: 0 <= i < |ks| ==> (ks + [k])[i] == ks[i];
    }
  }

  /** Storing the value a key already holds changes nothing. */
  lemma {:induction false} PutSame<K(!new), V>(e: seq<(K, V)>, k: K, v: V)
    requires Get(e, k) == Some(v)
    ensures Put(e, k, v) == e
  {
    if e[0].0 != k {
      assert Keys(e[1..]) == Keys(e)[1..];
      PutSame(e[1..], k, v);
      assert e == [e[0]] + e[1..];
    }
  }

  /** Storing under a new key appends the entry at the end. */
  lemma {:induction false} PutNew<K(!new), V>(e: seq<(K, V)>, k: K, v: V)
    requires k !in Keys(e)
    ensures Put(e, k, v) == e + [(k, v)]
  {
    if |e| > 0 {
      assert Keys(e[1..]) == Keys(e)[1..];
      PutNew(e[1..], k, v);
      assert e + [(k, v)] == [e[0]] + (e[1..] + [(k, v)]);
    }
  }

  /** Sum of the values of a map of counts (Kotlin's `values.sum()` on integers). */
  function SumCounts<K>(e: seq<(K, nat)>): nat {
    if |e| == 0 then 0 else e[0].1 + SumCounts(e[1..])
  }

  /** Sum of the values of a map of probabilities (Kotlin's `values.sum()` on doubles). */
  function SumValues<K>(e: seq<(K, real)>): real {
    if |e| == 0 then 0.0 else e[0].1 + SumValues(e[1..])
  }

  /** Every single count is bounded by the sum of all counts. */
  lemma {:induction false} CountAtMostSum<K>(e: seq<(K, nat)>, i: int)
    requires 0 <= i < |e|
    ensures e[i].1 <= SumCounts(e)
  {
    if i > 0 {
      CountAtMostSum(e[1..], i - 1);
    }
  }

  /** The count stored under any key is bounded by the sum of all counts. */
  lemma GetAtMostSum<K>(e: seq<(K, nat)>, k: K)
    requires Get(e, k).Some?
    ensures Get<K, nat>(e, k).value <= SumCounts(e)
  {
    var v := Get<K, nat>(e, k).value;
    var i :| 0 <= i < |e| && e[i] == (k, v);
    CountAtMostSum(e, i);
  }

  /** Replacing the count of entry `i` changes the sum by exactly the difference. */
  lemma {:induction false} SumCountsReplace<K>(e: seq<(K, nat)>, i: int, v: nat)
    requires 0 <= i < |e|
    ensures SumCounts(e[i := (e[i].0, v)]) + e[i].1 == SumCounts(e) + v
  {
    if i > 0 {
      SumCountsReplace(e[1..], i - 1, v);
      assert e[i := (e[i].0, v)][1..] == e[1..][i - 1 := (e[i].0, v)];
    }
  }

  /** Updating the count under an existing key of a well-formed map changes the sum by
      exactly the difference between the new and the old count. */
  lemma {:induction false} SumCountsPut<K(!new)>(e: seq<(K, nat)>, k: K, v: nat)
    requires Valid(e)
    requires k in Keys(e)
    ensures SumCounts(Put(e, k, v)) + Get(e, k).value == SumCounts(e) + v
  {
    if e[0].0 == k {
      assert Put(e, k, v) == e[0 := (k, v)];
      SumCountsReplace(e, 0, v);
    } else {
      assert Keys(e[1..]) == Keys(e)[1..];
      SumCountsPut(e[1..], k, v);
      assert Put(e, k, v)[1..] == Put(e[1..], k, v);
    }
  }
}
