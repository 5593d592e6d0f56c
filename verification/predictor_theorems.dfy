/** Properties of `predict` as the app calls it: the two modes agree, the result is
    a distribution over the cells exactly when the gates pass, stored PMFs of other bin
    widths and readings of APs outside the model are ignored, an AP with no stored PMF
    is irrelevant, and a likelihood read from a stored PMF is the histogram's frequency
    of the reading's bin. */
module PredictorTheorems {
  import opened Wrappers
  import opened LinkedMaps
  import opened Histogram
  import opened BayesianModels
  import opened Normalization
  import opened Fusion
  import opened BayesianPredictor

  /** Serial fusion over the descending order equals parallel fusion, whenever there is
      at least one fixed AP. */
  lemma SerialBayesEqualsParallelBayes(live: seq<(string, int)>, pmfs: seq<ApPmf>, cells: seq<string>, fixed: seq<string>)
    requires |fixed| > 0
    ensures SerialBayes(live, pmfs, cells, fixed) == ParallelBayes(live, pmfs, cells, fixed)
  {
    EffectiveLikelihoodsPositive(live, pmfs);
    SerialEqualsParallel(EffectiveLikelihoods(live, pmfs), cells, SerialOrder(live, fixed), fixed);
  }

  /** Once both gates pass, `predict` returns the parallel posterior over the PMFs of the
      chosen width and the fixed APs, whatever the mode. */
  lemma PredictIsParallel(live: seq<(string, int)>, settings: BayesianSettings, pmfs: seq<ApPmf>,
                          known: seq<KnownApPrime>, cells: seq<string>)
    requires |PmfsForBinWidth(pmfs, settings.pmfBinWidth)| > 0
    requires |FixedAps(known)| > 0
    ensures Predict(live, settings, pmfs, known, cells)
         == ParallelBayes(live, PmfsForBinWidth(pmfs, settings.pmfBinWidth), cells, FixedAps(known))
  {
    SerialBayesEqualsParallelBayes(live, PmfsForBinWidth(pmfs, settings.pmfBinWidth), cells, FixedAps(known));
  }

  /** The mode setting does not change the prediction. */
  lemma PredictModesAgree(live: seq<(string, int)>, settings: BayesianSettings, pmfs: seq<ApPmf>,
                          known: seq<KnownApPrime>, cells: seq<string>)
    ensures Predict(live, settings.(mode := Serial), pmfs, known, cells)
         == Predict(live, settings.(mode := Parallel), pmfs, known, cells)
  {
    var byWidth := PmfsForBinWidth(pmfs, settings.pmfBinWidth);
    if |byWidth| > 0 && |FixedAps(known)| > 0 {
      PredictIsParallel(live, settings.(mode := Serial), pmfs, known, cells);
      PredictIsParallel(live, settings.(mode := Parallel), pmfs, known, cells);
    }
  }

  /** `predict` is empty exactly when no stored PMF has the chosen width, no known AP is
      FIXED, or there are no cells; otherwise it is a distribution over the distinct
      cells, in their order, with no zero entry. */
  lemma PredictIsDistribution(live: seq<(string, int)>, settings: BayesianSettings, pmfs: seq<ApPmf>,
                              known: seq<KnownApPrime>, cells: seq<string>)
    ensures var r := Predict(live, settings, pmfs, known, cells);
      r == [] <==>
        || (forall i :: 0 <= i < |pmfs| ==> pmfs[i].binWidth != settings.pmfBinWidth)
        || (forall i :: 0 <= i < |known| ==> known[i].apType != Fixed)
        || |cells| == 0
    ensures var r := Predict(live, settings, pmfs, known, cells);
      r != [] ==>
        && |r| == |Dedup(cells)|
        && (forall i :: 0 <= i < |r| ==> r[i].0 == Dedup(cells)[i] && 0.0 < r[i].1 <= 1.0)
        && SumValues(r) == 1.0
  {
    var w := settings.pmfBinWidth;
    var byWidth := PmfsForBinWidth(pmfs, w);
    var fixed := FixedAps(known);
    if |byWidth| == 0 {
      forall i | 0 <= i < |pmfs| ensures pmfs[i].binWidth != w {
        assert pmfs[i] in pmfs;
      }
    } else if |fixed| == 0 {
      forall i | 0 <= i < |known| ensures known[i].apType != Fixed {
        assert known[i].bssidPrime !in fixed;
      }
    } else {
      assert byWidth[0] in byWidth;
      var m :| 0 <= m < |pmfs| && pmfs[m] == byWidth[0];
      assert fixed[0] in fixed;
      PredictIsParallel(live, settings, pmfs, known, cells);
      var g := EffectiveLikelihoods(live, byWidth);
      if |cells| > 0 {
        EffectiveLikelihoodsPositive(live, byWidth);
        ParallelIsDistribution(g, cells, fixed);
        assert cells[0] in Dedup(cells);
      } else {
        assert Associate(cells, ParallelScore(g, fixed, Prior(cells))) == [];
      }
    }
  }

  /** The posterior never holds a cell twice, so looking a cell up finds its entry. */
  lemma PredictIsValid(live: seq<(string, int)>, settings: BayesianSettings, pmfs: seq<ApPmf>,
                       known: seq<KnownApPrime>, cells: seq<string>)
    ensures Valid(Predict(live, settings, pmfs, known, cells))
  {
    var r := Predict(live, settings, pmfs, known, cells);
    PredictIsDistribution(live, settings, pmfs, known, cells);
    if r != [] {
      var d := Dedup(cells);
      forall i, j | 0 <= i < j < |r| ensures Keys(r)[i] != Keys(r)[j] {
        assert Keys(r)[i] == d[i] && Keys(r)[j] == d[j];
      }
    }
  }

  /** Filtering by bin width twice is filtering once. */
  lemma {:induction false} PmfsForBinWidthIdempotent(pmfs: seq<ApPmf>, w: int)
    ensures PmfsForBinWidth(PmfsForBinWidth(pmfs, w), w) == PmfsForBinWidth(pmfs, w)
  {
    if |pmfs| > 0 {
      PmfsForBinWidthIdempotent(pmfs[1..], w);
      var rest := PmfsForBinWidth(pmfs[1..], w);
      if pmfs[0].binWidth == w {
        assert ([pmfs[0]] + rest)[1..] == rest;
      }
    }
  }

  /** The width filter keeps the stored order and every duplicate: a single PMF is kept
      alone or dropped, and filtering a concatenation filters each part in turn. */
  lemma {:induction false} PmfsForBinWidthConcat(a: seq<ApPmf>, b: seq<ApPmf>, w: int)
    ensures PmfsForBinWidth(a + b, w) == PmfsForBinWidth(a, w) + PmfsForBinWidth(b, w)
    ensures |a| == 1 ==> PmfsForBinWidth(a, w) == if a[0].binWidth == w then a else []
    decreases |a|
  {
    if |a| > 0 {
      assert (a + b)[1..] == a[1..] + b;
      assert (a + b)[0] == a[0];
      PmfsForBinWidthConcat(a[1..], b, w);
    } else {
      assert a + b == b;
    }
  }

  /** Stored PMFs of other bin widths have no influence on the prediction. */
  lemma PredictIgnoresOtherWidths(live: seq<(string, int)>, settings: BayesianSettings, pmfs: seq<ApPmf>,
                                  known: seq<KnownApPrime>, cells: seq<string>)
    ensures Predict(live, settings, pmfs, known, cells)
         == Predict(live, settings, PmfsForBinWidth(pmfs, settings.pmfBinWidth), known, cells)
  {
    PmfsForBinWidthIdempotent(pmfs, settings.pmfBinWidth);
  }

  /** Two scans that give every fixed AP the same reading give the same prediction: an
      AP outside the model's fixed set, seen or not, does not matter. */
  lemma PredictIgnoresUnusedReadings(live1: seq<(string, int)>, live2: seq<(string, int)>, settings: BayesianSettings,
                                     pmfs: seq<ApPmf>, known: seq<KnownApPrime>, cells: seq<string>)
    requires forall ap :: ap in FixedAps(known) ==> Reading(live1, ap) == Reading(live2, ap)
    ensures Predict(live1, settings, pmfs, known, cells) == Predict(live2, settings, pmfs, known, cells)
  {
    var byWidth := PmfsForBinWidth(pmfs, settings.pmfBinWidth);
    var fixed := FixedAps(known);
    if |byWidth| > 0 && |fixed| > 0 {
      PredictIsParallel(live1, settings, pmfs, known, cells);
      PredictIsParallel(live2, settings, pmfs, known, cells);
      ParallelDependsOnFixedOnly(EffectiveLikelihoods(live1, byWidth), EffectiveLikelihoods(live2, byWidth), cells, fixed);
    }
  }

  /** A fixed AP for which no cell has a stored PMF (or only PMFs without bins) has the
      same missing-model likelihood everywhere and is irrelevant to the parallel
      posterior. */
  lemma UntrainedApIgnored(live: seq<(string, int)>, pmfs: seq<ApPmf>, cells: seq<string>, fixed: seq<string>, j: int)
    requires 0 <= j < |fixed|
    requires forall c :: c in cells ==> FindPmf(pmfs, fixed[j], c).None? || |FindPmf(pmfs, fixed[j], c).value.binsData| == 0
    ensures ParallelBayes(live, pmfs, cells, fixed) == ParallelBayes(live, pmfs, cells, fixed[..j] + fixed[j + 1..])
  {
    var g := EffectiveLikelihoods(live, pmfs);
    forall c | c in cells ensures g(c)(fixed[j]) == MissingApModelLikelihood {
    }
    ParallelDropsConstantAp(g, cells, fixed, j, MissingApModelLikelihood);
  }

  /** With no stored PMF for any fixed AP in any cell, the parallel posterior is uniform
      over the distinct cells. */
  lemma UntrainedModelIsUniform(live: seq<(string, int)>, pmfs: seq<ApPmf>, cells: seq<string>, fixed: seq<string>)
    requires |cells| > 0
    requires forall c, ap :: c in cells && ap in fixed ==> FindPmf(pmfs, ap, c).None?
    ensures var r := ParallelBayes(live, pmfs, cells, fixed);
      |r| == |Dedup(cells)| && forall i :: 0 <= i < |r| ==> r[i].1 == 1.0 / |Dedup(cells)| as real
  {
    var g := EffectiveLikelihoods(live, pmfs);
    EffectiveLikelihoodsPositive(live, pmfs);
    forall c, ap | c in cells && ap in fixed ensures g(c)(ap) == g(cells[0])(ap) {
      assert g(c)(ap) == MissingApModelLikelihood;
      assert g(cells[0])(ap) == MissingApModelLikelihood;
    }
    ParallelUniformWhenUninformative(g, cells, fixed);
  }

  /** A stored PMF that carries the bins of a histogram over a range starting at -100
      gives, for a reading in the range, the histogram's count for that reading as a
      share of its total; a reading below the range has likelihood 0. */
  lemma LikelihoodOfHistogram(h: Histogram, ap: string, cell: string, rssi: int)
    requires WellFormed(h)
    requires h.minRssi == DefaultMinRssi
    requires h.totalCount > 0
    ensures var pmf := ApPmf(ap, cell, h.binWidth, h.bins);
      h.minRssi <= rssi <= h.maxRssi ==>
        Likelihood(Some(pmf), rssi) == CountForRssi(h, rssi) as real / h.totalCount as real
    ensures var pmf := ApPmf(ap, cell, h.binWidth, h.bins);
      rssi < h.minRssi ==> Likelihood(Some(pmf), rssi) == 0.0
  {
    var pmf := ApPmf(ap, cell, h.binWidth, h.bins);
    var b := BinStart(rssi, h.minRssi, h.binWidth);
    assert PmfBinStart(pmf, rssi) == b;
    if rssi < h.minRssi {
      assert b !in Keys(h.bins) by {
        if b in Keys(h.bins) {
          InitialBinsKeys(h.minRssi, h.maxRssi, h.binWidth, b);
        }
      }
    }
  }
}
