/** The decision both screens take on a posterior: Kotlin's `maxByOrNull { it.value }`
    over the entries of an insertion-ordered map, followed by the lookup of the winner's
    probability. */
module Decision {
  import opened Wrappers
  import opened LinkedMaps

  /** The position `maxByOrNull` settles on: it walks the entries in order and moves to
      a later entry only when that entry's value is strictly larger, so among equal
      maxima the first one wins. */
  function ArgMaxIndex<K>(post: seq<(K, real)>): (i: nat)
    requires |post| > 0
    ensures i < |post|
    ensures forall j :: 0 <= j < |post| ==> post[j].1 <= post[i].1
    ensures forall j :: 0 <= j < i ==> post[j].1 < post[i].1
    decreases |post|
  {
    if |post| == 1 then 0
    else
      var best := ArgMaxIndex(post[..|post| - 1]);
      if post[best].1 < post[|post| - 1].1 then |post| - 1 else best
  }

  /** Any position that holds a maximal value and has no maximal value before it is the
      one `ArgMaxIndex` picks. */
  lemma ArgMaxIndexUnique<K>(post: seq<(K, real)>, k: int)
    requires 0 <= k < |post|
    requires forall j :: 0 <= j < |post| ==> post[j].1 <= post[k].1
    requires forall j :: 0 <= j < k ==> post[j].1 < post[k].1
    ensures ArgMaxIndex(post) == k
  {
  }

  /** Kotlin's `maxByOrNull { it.value }?.key`: no key for an empty map, otherwise the
      key of the first entry with the largest value. */
  function MaxByOrNull<K>(post: seq<(K, real)>): (r: Option<K>)
    ensures r.None? <==> |post| == 0
    ensures r.Some? ==>
      exists i :: 0 <= i < |post| && post[i].0 == r.value &&
        forall j :: 0 <= j < |post| ==> post[j].1 <= post[i].1
  {
    if |post| == 0 then None
    else
      var i := ArgMaxIndex(post);
      Some(post[i].0)
  }

  /** `posterior[guessed] ?: 0.0`: the probability reported for the chosen key. */
  function ChosenProbability<K(==)>(post: seq<(K, real)>, chosen: Option<K>): real {
    if chosen.None? then 0.0 else GetOrDefault(post, chosen.value, 0.0)
  }

  /** In a well-formed posterior, the reported probability is the largest value of the
      map, and it is the value stored under the chosen key. */
  lemma ChosenProbabilityIsMax<K>(post: seq<(K, real)>)
    requires Valid(post)
    requires |post| > 0
    ensures var i := ArgMaxIndex(post);
      ChosenProbability(post, MaxByOrNull(post)) == post[i].1 &&
      forall j :: 0 <= j < |post| ==> post[j].1 <= ChosenProbability(post, MaxByOrNull(post))
  {
    GetOrDefaultAt(post, ArgMaxIndex(post), 0.0);
  }
}
