/** The inference engine of `BayesianPredictor`: the likelihood lookup, the two fusion
    strategies and the `predict` entry point with its gates. The stored PMFs and the
    known APs are passed in as already-loaded sequences. */
module BayesianPredictor {
  import opened Wrappers
  import opened LinkedMaps
  import opened Histogram
  import opened BayesianModels
  import opened Normalization
  import opened ApOrder
  import opened Fusion

  /** The reading assumed for a fixed AP that the live scan did not see. */
  const DefaultRssi: int := -100

  /** The likelihood of an AP in a cell for which no PMF is stored, or whose stored PMF
      has no bins. */
  const MissingApModelLikelihood: real := 0.00001

  /** `ApPmf.getBinStartForRssi`: the bin of a reading under a stored PMF, by the
      histogram's bin rule over a range that starts at the default minimum -100. */
  function PmfBinStart(pmf: ApPmf, rssi: int): (b: int)
    ensures b <= rssi < b + pmf.binWidth
  {
    BinStart(rssi, DefaultMinRssi, pmf.binWidth)
  }

  /** `getLikelihood`: the missing-model constant when there is no PMF or it has no
      bins; 0 when its counts sum to 0; otherwise the count of the reading's bin (0 for a
      bin the PMF does not hold) as a share of the PMF's total count. */
  function Likelihood(pmf: Option<ApPmf>, rssi: int): (p: real)
    ensures pmf.None? || |pmf.value.binsData| == 0 ==> p == MissingApModelLikelihood
    ensures pmf.Some? && |pmf.value.binsData| > 0 && SumCounts(pmf.value.binsData) == 0 ==> p == 0.0
    ensures pmf.Some? && SumCounts(pmf.value.binsData) > 0 ==>
      p == GetOrDefault<int, nat>(pmf.value.binsData, PmfBinStart(pmf.value, rssi), 0) as real
           / SumCounts(pmf.value.binsData) as real
    ensures 0.0 <= p <= 1.0
  {
    if pmf.None? || |pmf.value.binsData| == 0 then MissingApModelLikelihood
    else
      var bins := pmf.value.binsData;
      var total := SumCounts(bins);
      if total == 0 then 0.0
      else
        var key := PmfBinStart(pmf.value, rssi);
        var count := GetOrDefault<int, nat>(bins, key, 0);
        assert count <= total by {
          if Get(bins, key).Some? {
            GetAtMostSum(bins, key);
          }
        }
        ShareInUnitInterval(count, total);
        count as real / total as real
  }

  lemma ShareInUnitInterval(count: nat, total: nat)
    requires 0 < total && count <= total
    ensures 0.0 <= count as real / total as real <= 1.0
  {
  }

  /** The "disregard" rule: a likelihood of exactly 0 counts as 1, any other value as
      itself. */
  function Effective(p: real): (e: real)
    ensures p != 0.0 ==> e == p
    ensures p == 0.0 ==> e == 1.0
    ensures 0.0 <= p <= 1.0 ==> 0.0 < e <= 1.0
  {
    if p == 0.0 then 1.0 else p
  }

  /** No PMF before position `i` is one of `ap` in `cell`. */
  ghost predicate FirstMatch(pmfs: seq<ApPmf>, i: int, ap: string, cell: string)
    requires 0 <= i <= |pmfs|
  {
    forall j :: 0 <= j < i ==> !(pmfs[j].bssidPrime == ap && pmfs[j].cell == cell)
  }

  /** The PMF a fusion step uses for an AP in a cell: the first stored PMF of that AP
      whose cell matches (`pmfsByBssid[ap]?.find { it.cell == cell }`; grouping keeps the
      stored order, so this is the first match in the whole sequence). */
  function FindPmf(pmfs: seq<ApPmf>, ap: string, cell: string): (r: Option<ApPmf>)
    ensures r.None? <==> forall i :: 0 <= i < |pmfs| ==> !(pmfs[i].bssidPrime == ap && pmfs[i].cell == cell)
    ensures r.Some? ==> r.value.bssidPrime == ap && r.value.cell == cell
    ensures r.Some? ==> exists i :: 0 <= i < |pmfs| && pmfs[i] == r.value && FirstMatch(pmfs, i, ap, cell)
  {
    if |pmfs| == 0 then None
    else if pmfs[0].bssidPrime == ap && pmfs[0].cell == cell then Some(pmfs[0])
    else
      var r := FindPmf(pmfs[1..], ap, cell);
      assert forall i :: 1 <= i < |pmfs| ==> pmfs[i] == pmfs[1..][i - 1];
      assert r.Some? ==> exists i :: 0 <= i < |pmfs| && pmfs[i] == r.value && FirstMatch(pmfs, i, ap, cell) by {
        if r.Some? {
          var i :| 0 <= i < |pmfs[1..]| && pmfs[1..][i] == r.value && FirstMatch(pmfs[1..], i, ap, cell);
          assert pmfs[i + 1] == r.value && FirstMatch(pmfs, i + 1, ap, cell);
        }
      }
      r
  }

  /** The stored PMFs of the chosen bin width, in stored order. */
  function PmfsForBinWidth(pmfs: seq<ApPmf>, binWidth: int): (r: seq<ApPmf>)
    ensures forall p :: p in r <==> p in pmfs && p.binWidth == binWidth
  {
    if |pmfs| == 0 then []
    else
      var rest := PmfsForBinWidth(pmfs[1..], binWidth);
      assert forall p :: p in pmfs <==> p == pmfs[0] || p in pmfs[1..] by {
        assert pmfs == [pmfs[0]] + pmfs[1..];
      }
      if pmfs[0].binWidth == binWidth then [pmfs[0]] + rest else rest
  }

  /** The BSSID primes of the known APs of type FIXED, in order. */
  function FixedPrimes(known: seq<KnownApPrime>): (r: seq<string>)
    ensures forall x :: x in r <==> exists i :: 0 <= i < |known| && known[i].apType == Fixed && known[i].bssidPrime == x
  {
    if |known| == 0 then []
    else
      var rest := FixedPrimes(known[1..]);
      assert forall i :: 1 <= i < |known| ==> known[i] == known[1..][i - 1];
      if known[0].apType == Fixed then [known[0].bssidPrime] + rest else rest
  }

  /** The fixed-AP set of the model (`filter { FIXED }.map { bssidPrime }.toSet()`): each
      FIXED prime once, in order of first occurrence. */
  function FixedAps(known: seq<KnownApPrime>): (r: seq<string>)
    ensures Distinct(r)
    ensures forall x :: x in r <==> exists i :: 0 <= i < |known| && known[i].apType == Fixed && known[i].bssidPrime == x
  {
    Dedup(FixedPrimes(known))
  }

  /** The reading used for an AP: the live one, or -100 when the scan did not see it. */
  function Reading(live: seq<(string, int)>, ap: string): int {
    GetOrDefault(live, ap, DefaultRssi)
  }

  /** The effective likelihood of `ap` in `cell`; always in (0, 1]. */
  function Factor(live: seq<(string, int)>, pmfs: seq<ApPmf>, cell: string, ap: string): (f: real)
    ensures 0.0 < f <= 1.0
  {
    Effective(Likelihood(FindPmf(pmfs, ap, cell), Reading(live, ap)))
  }

  /** The likelihood model the fusion uses for a live scan over the stored PMFs:
      cell, then AP, to the effective likelihood. */
  function EffectiveLikelihoods(live: seq<(string, int)>, pmfs: seq<ApPmf>): Factors {
    c => ap => Factor(live, pmfs, c, ap)
  }

  /** Every effective likelihood is strictly positive. */
  lemma EffectiveLikelihoodsPositive(live: seq<(string, int)>, pmfs: seq<ApPmf>)
    ensures Positive(EffectiveLikelihoods(live, pmfs))
  {
  }

  /** `calculateParallelBayesian` over the fixed APs. */
  function ParallelBayes(live: seq<(string, int)>, pmfs: seq<ApPmf>, cells: seq<string>, fixed: seq<string>): seq<(string, real)> {
    ParallelFuse(EffectiveLikelihoods(live, pmfs), cells, fixed)
  }

  /** The sort key of the serial order: an AP's reading. */
  function ReadingKey(live: seq<(string, int)>): string -> int {
    ap => Reading(live, ap)
  }

  /** The serial processing order: the fixed APs by descending reading, stable. */
  function SerialOrder(live: seq<(string, int)>, fixed: seq<string>): (order: seq<string>)
    ensures multiset(order) == multiset(fixed)
    ensures forall i, j :: 0 <= i < j < |order| ==> Reading(live, order[i]) >= Reading(live, order[j])
  {
    SortedByDescending(fixed, ReadingKey(live))
  }

  /** `calculateSerialBayesian`: the fixed APs processed in descending order of their
      readings. */
  function SerialBayes(live: seq<(string, int)>, pmfs: seq<ApPmf>, cells: seq<string>, fixed: seq<string>): seq<(string, real)> {
    SerialFuse(EffectiveLikelihoods(live, pmfs), cells, SerialOrder(live, fixed))
  }

  /** `predict`: empty when no stored PMF has the chosen bin width or no known AP is
      FIXED; otherwise the posterior of the chosen strategy over the PMFs of that width
      and the fixed APs. */
  function Predict(live: seq<(string, int)>, settings: BayesianSettings, pmfs: seq<ApPmf>,
                   known: seq<KnownApPrime>, cells: seq<string>): (r: seq<(string, real)>)
    ensures (forall i :: 0 <= i < |pmfs| ==> pmfs[i].binWidth != settings.pmfBinWidth) ==> r == []
    ensures (forall i :: 0 <= i < |known| ==> known[i].apType != Fixed) ==> r == []
  {
    var byWidth := PmfsForBinWidth(pmfs, settings.pmfBinWidth);
    if |byWidth| == 0 then []
    else
      assert byWidth[0] in pmfs && byWidth[0].binWidth == settings.pmfBinWidth;
      var fixed := FixedAps(known);
      if |fixed| == 0 then []
      else
        assert fixed[0] in fixed;
        match settings.mode
        case Parallel => ParallelBayes(live, byWidth, cells, fixed)
        case Serial => SerialBayes(live, byWidth, cells, fixed)
  }
}
