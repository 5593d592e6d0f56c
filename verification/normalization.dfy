/** Kotlin's `normalizeProbabilities` and the map builders the fusion strategies use,
    over insertion-ordered maps from keys to reals. */
module Normalization {
  import opened Wrappers
  import opened LinkedMaps

  /** Every value divided by `d`, keys and order kept (`mapValues { it.value / sum }`). */
  function DivideBy<K>(e: seq<(K, real)>, d: real): (r: seq<(K, real)>)
    requires d != 0.0
    ensures |r| == |e|
    ensures forall i :: 0 <= i < |e| ==> r[i] == (e[i].0, e[i].1 / d)
  {
    if |e| == 0 then [] else [(e[0].0, e[0].1 / d)] + DivideBy(e[1..], d)
  }

  /** Every value replaced by `p`, keys and order kept (`mapValues { equalProb }`). */
  function Uniform<K>(e: seq<(K, real)>, p: real): (r: seq<(K, real)>)
    ensures |r| == |e|
    ensures forall i :: 0 <= i < |e| ==> r[i].0 == e[i].0 && r[i].1 == p
  {
    if |e| == 0 then [] else [(e[0].0, p)] + Uniform(e[1..], p)
  }

  /** Kotlin's `normalizeProbabilities`: an empty map stays empty; a map whose values sum
      to zero becomes uniform over its keys; any other map has each value divided by the
      sum. The keys and their order are always kept. */
  function Normalize<K>(probs: seq<(K, real)>): (r: seq<(K, real)>)
    ensures SameKeys(r, probs)
    ensures |probs| == 0 ==> r == []
    ensures |probs| > 0 && SumValues(probs) == 0.0 ==>
      forall i :: 0 <= i < |r| ==> r[i].1 == 1.0 / |probs| as real
    ensures SumValues(probs) != 0.0 ==>
      forall i :: 0 <= i < |r| ==> r[i].1 == probs[i].1 / SumValues(probs)
  {
    var sum := SumValues(probs);
    if sum == 0.0 || |probs| == 0 then
      if |probs| > 0 then Uniform(probs, 1.0 / |probs| as real) else []
    else DivideBy(probs, sum)
  }

  lemma {:induction false} SumUniform<K>(e: seq<(K, real)>, p: real)
    ensures SumValues(Uniform(e, p)) == |e| as real * p
  {
    if |e| > 0 {
      SumUniform(e[1..], p);
      assert Uniform(e, p)[1..] == Uniform(e[1..], p);
    }
  }

  lemma {:induction false} SumDivideBy<K>(e: seq<(K, real)>, d: real)
    requires d != 0.0
    ensures SumValues(DivideBy(e, d)) == SumValues(e) / d
  {
    if |e| > 0 {
      SumDivideBy(e[1..], d);
      assert DivideBy(e, d)[1..] == DivideBy(e[1..], d);
      AddQuotients(e[0].1, SumValues(e[1..]), d);
    }
  }

  lemma AddQuotients(x: real, y: real, d: real)
    requires d != 0.0
    ensures x / d + y / d == (x + y) / d
  {
  }

  /** Scaling every value by `k` scales the sum by `k`. */
  lemma {:induction false} SumScaled<K>(a: seq<(K, real)>, b: seq<(K, real)>, k: real)
    requires |a| == |b|
    requires forall i :: 0 <= i < |a| ==> b[i].1 == k * a[i].1
    ensures SumValues(b) == k * SumValues(a)
  {
    if |a| > 0 {
      SumScaled(a[1..], b[1..], k);
    }
  }

  /** A sum of non-negative values bounds each of them. */
  lemma {:induction false} ValueAtMostSum<K>(e: seq<(K, real)>, i: int)
    requires forall j :: 0 <= j < |e| ==> e[j].1 >= 0.0
    requires 0 <= i < |e|
    ensures 0.0 <= e[i].1 <= SumValues(e)
  {
    if i > 0 {
      ValueAtMostSum(e[1..], i - 1);
    } else {
      NonNegativeSum(e[1..]);
    }
  }

  lemma {:induction false} NonNegativeSum<K>(e: seq<(K, real)>)
    requires forall j :: 0 <= j < |e| ==> e[j].1 >= 0.0
    ensures SumValues(e) >= 0.0
  {
    if |e| > 0 {
      NonNegativeSum(e[1..]);
    }
  }

  /** A non-empty sum of positive values is positive. */
  lemma {:induction false} PositiveSum<K>(e: seq<(K, real)>)
    requires |e| > 0
    requires forall j :: 0 <= j < |e| ==> e[j].1 > 0.0
    ensures SumValues(e) > 0.0
  {
    NonNegativeSum(e[1..]);
  }

  /** The normalised values of a non-empty map sum to 1, in every branch. */
  lemma NormalizeSumsToOne<K>(probs: seq<(K, real)>)
    requires |probs| > 0
    ensures SumValues(Normalize(probs)) == 1.0
  {
    var sum := SumValues(probs);
    if sum == 0.0 {
      SumUniform(probs, 1.0 / |probs| as real);
    } else {
      SumDivideBy(probs, sum);
    }
  }

  /** Non-negative input gives probabilities in [0, 1]; positive input gives positive
      probabilities. */
  lemma NormalizeBounds<K>(probs: seq<(K, real)>)
    requires forall j :: 0 <= j < |probs| ==> probs[j].1 >= 0.0
    ensures forall i :: 0 <= i < |Normalize(probs)| ==> 0.0 <= Normalize(probs)[i].1 <= 1.0
    ensures (forall j :: 0 <= j < |probs| ==> probs[j].1 > 0.0) ==>
      forall i :: 0 <= i < |Normalize(probs)| ==> Normalize(probs)[i].1 > 0.0
  {
    var r, sum := Normalize(probs), SumValues(probs);
    if sum != 0.0 {
      NonNegativeSum(probs);
      forall i | 0 <= i < |r| ensures 0.0 <= r[i].1 <= 1.0 && (probs[i].1 > 0.0 ==> r[i].1 > 0.0) {
        ValueAtMostSum(probs, i);
        ShareBounds(probs[i].1, sum);
      }
    } else if |probs| > 0 {
      ShareBounds(1.0, |probs| as real);
    }
  }

  lemma ShareBounds(p: real, s: real)
    requires 0.0 <= p <= s && s > 0.0
    ensures 0.0 <= p / s <= 1.0
    ensures p > 0.0 ==> p / s > 0.0
  {
  }

  /** The value normalisation gives an entry `v` of a map of `n` entries summing to
      `sum`. */
  function Share(v: real, sum: real, n: nat): real {
    if sum != 0.0 then v / sum else if n > 0 then 1.0 / n as real else 0.0
  }

  /** Each entry of the normalised map, in terms of the entry it came from. */
  lemma NormalizeEntry<K>(probs: seq<(K, real)>, i: int)
    requires 0 <= i < |probs|
    ensures Normalize(probs)[i] == (probs[i].0, Share(probs[i].1, SumValues(probs), |probs|))
  {
  }

  lemma ScaledShare(p: real, s: real, q: real, t: real, k: real, n: nat)
    requires k > 0.0 && q == k * p && t == k * s
    ensures Share(q, t, n) == Share(p, s, n)
  {
    if s != 0.0 {
      assert t != 0.0;
    }
  }

  /** Normalisation does not see a common positive factor: scaling every value of a map
      by the same `k > 0` leaves the normalised map unchanged. */
  lemma NormalizeScaleInvariant<K>(a: seq<(K, real)>, b: seq<(K, real)>, k: real)
    requires SameKeys(a, b)
    requires k > 0.0
    requires forall i :: 0 <= i < |a| ==> b[i].1 == k * a[i].1
    ensures Normalize(b) == Normalize(a)
  {
    ScaledShares(a, b, k);
    NormalizeSameShares(a, b);
  }

  /** Scaling every value by `k > 0` leaves every share unchanged. */
  lemma ScaledShares<K>(a: seq<(K, real)>, b: seq<(K, real)>, k: real)
    requires |a| == |b|
    requires k > 0.0
    requires forall i :: 0 <= i < |a| ==> b[i].1 == k * a[i].1
    ensures forall i :: 0 <= i < |a| ==>
      Share(b[i].1, SumValues(b), |b|) == Share(a[i].1, SumValues(a), |a|)
  {
    SumScaled(a, b, k);
    forall i | 0 <= i < |a|
      ensures Share(b[i].1, SumValues(b), |b|) == Share(a[i].1, SumValues(a), |a|)
    {
      ScaledShareAt(a, b, k, i);
    }
  }

  lemma ScaledShareAt<K>(a: seq<(K, real)>, b: seq<(K, real)>, k: real, i: int)
    requires 0 <= i < |a| == |b|
    requires k > 0.0
    requires b[i].1 == k * a[i].1
    requires SumValues(b) == k * SumValues(a)
    ensures Share(b[i].1, SumValues(b), |b|) == Share(a[i].1, SumValues(a), |a|)
  {
    ScaledShare(a[i].1, SumValues(a), b[i].1, SumValues(b), k, |a|);
  }

  /** Two maps with the same keys and the same shares normalise to the same map. */
  lemma NormalizeSameShares<K>(a: seq<(K, real)>, b: seq<(K, real)>)
    requires SameKeys(a, b)
    requires forall i :: 0 <= i < |a| ==>
      Share(b[i].1, SumValues(b), |b|) == Share(a[i].1, SumValues(a), |a|)
    ensures Normalize(b) == Normalize(a)
  {
    var ra, rb := Normalize(a), Normalize(b);
    forall i | 0 <= i < |ra| ensures ra[i] == rb[i] {
      NormalizeEntry(a, i);
      NormalizeEntry(b, i);
    }
  }

  /** Normalising twice is normalising once. */
  lemma NormalizeIdempotent<K>(probs: seq<(K, real)>)
    ensures Normalize(Normalize(probs)) == Normalize(probs)
  {
    if |probs| > 0 {
      NormalizeSumsToOne(probs);
    }
  }

  /** A map whose values are all the same positive number normalises to the uniform
      distribution over its keys. */
  lemma NormalizeConstant<K>(probs: seq<(K, real)>, v: real)
    requires |probs| > 0 && v > 0.0
    requires forall i :: 0 <= i < |probs| ==> probs[i].1 == v
    ensures forall i :: 0 <= i < |Normalize(probs)| ==>
      Normalize(probs)[i].1 == 1.0 / |probs| as real
  {
    var u := Uniform(probs, 1.0);
    NormalizeScaleInvariant(u, probs, v);
    SumUniform(probs, 1.0);
  }

  /** The map `k -> f(k)` over the keys `ks`, in order. */
  function Zip<K>(ks: seq<K>, f: K -> real): (r: seq<(K, real)>)
    ensures |r| == |ks|
    ensures forall i :: 0 <= i < |ks| ==> r[i] == (ks[i], f(ks[i]))
  {
    seq(|ks|, i requires 0 <= i < |ks| => (ks[i], f(ks[i])))
  }

  /** Kotlin's `ks.associateWith(f)`, and equally the loop `for (k in ks) m[k] = f(k)`
      on a fresh map: each key is stored in turn, so a repeated key keeps its first
      position. */
  function Associate<K(==,!new)>(ks: seq<K>, f: K -> real): (r: seq<(K, real)>)
    ensures Valid(r)
    decreases |ks|
  {
    if |ks| == 0 then []
    else
      var m := Associate(ks[..|ks| - 1], f);
      PutValid(m, ks[|ks| - 1], f(ks[|ks| - 1]));
      Put(m, ks[|ks| - 1], f(ks[|ks| - 1]))
  }

  /** The built map holds `f(k)` under every key of `ks`, and nothing else. */
  lemma {:induction false} AssociateGet<K(!new)>(ks: seq<K>, f: K -> real, k: K)
    ensures Get(Associate(ks, f), k) == if k in ks then Some(f(k)) else None
    decreases |ks|
  {
    if |ks| > 0 {
      var init, last := ks[..|ks| - 1], ks[|ks| - 1];
      AssociateGet(init, f, k);
      assert ks == init + [last];
      assert k in ks <==> k in init || k == last;
    }
  }

  /** The built map is the zipped map over the keys of `ks` at their first
      occurrences. */
  lemma {:induction false} AssociateIsZipDedup<K(!new)>(ks: seq<K>, f: K -> real)
    ensures Associate(ks, f) == Zip(Dedup(ks), f)
    decreases |ks|
  {
    if |ks| > 0 {
      var init, last := ks[..|ks| - 1], ks[|ks| - 1];
      var d := Dedup(init);
      AssociateIsZipDedup(init, f);
      assert Keys(Zip(d, f)) == d;
      if last in d {
        var i :| 0 <= i < |d| && d[i] == last;
        GetAt(Zip(d, f), i);
        PutSame(Zip(d, f), last, f(last));
      } else {
        PutNew(Zip(d, f), last, f(last));
        var z, z' := Zip(d, f) + [(last, f(last))], Zip(d + [last], f);
        assert |z| == |z'|;
        forall i | 0 <= i < |z| ensures z[i] == z'[i] {
          if i < |d| {
            assert z[i] == Zip(d, f)[i] == (d[i], f(d[i]));
          }
        }
      }
    }
  }
}
