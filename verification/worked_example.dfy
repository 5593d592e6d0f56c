/** A two-cell scenario worked through the model: one FIXED access point `X` read at
    -95 dBm, trained with nine of ten samples in the -95 bin of cell C1 and five of ten
    in cell C2. */
module WorkedExample {
  import opened Wrappers
  import opened LinkedMaps
  import opened BayesianModels
  import opened Normalization
  import opened BayesianPredictor
  import opened Decision
  import Fusion

  const PmfC1: ApPmf := ApPmf("X", "C1", 5, [(-100, 0), (-95, 9), (-90, 1)])
  const PmfC2: ApPmf := ApPmf("X", "C2", 5, [(-100, 5), (-95, 5), (-90, 0)])
  const Known: seq<KnownApPrime> := [KnownApPrime("X", Fixed)]
  const Cells: seq<string> := ["C1", "C2"]
  const Live: seq<(string, int)> := [("X", -95)]

  /** The likelihoods of the reading are 9/10 in C1 and 5/10 in C2. */
  lemma ExampleLikelihoods()
    ensures Likelihood(Some(PmfC1), -95) == 0.9
    ensures Likelihood(Some(PmfC2), -95) == 0.5
  {
    BinShare(PmfC1, 9);
    BinShare(PmfC2, 5);
  }

  /** A PMF of this scenario whose -95 bin holds `c` of its ten samples gives the
      reading the likelihood c / 10. */
  lemma BinShare(pmf: ApPmf, c: nat)
    requires pmf.binWidth == 5 && SumCounts(pmf.binsData) == 10
    requires GetOrDefault<int, nat>(pmf.binsData, -95, 0) == c
    ensures Likelihood(Some(pmf), -95) == c as real / 10.0
  {
    assert PmfBinStart(pmf, -95) == -95;
  }

  /** The effective likelihoods the fusion sees for this scan. */
  lemma ExampleFactors()
    ensures EffectiveLikelihoods(Live, [PmfC1, PmfC2])("C1")("X") == 0.9
    ensures EffectiveLikelihoods(Live, [PmfC1, PmfC2])("C2")("X") == 0.5
  {
    ExampleLikelihoods();
    var pmfs := [PmfC1, PmfC2];
    assert FindPmf(pmfs, "X", "C1") == Some(PmfC1);
    assert FindPmf(pmfs, "X", "C2") == Some(PmfC2);
    assert Reading(Live, "X") == -95;
  }

  /** The unnormalised scores are 0.9 / 2 and 0.5 / 2. */
  lemma ExampleScores(g: Fusion.Factors)
    requires g("C1")("X") == 0.9 && g("C2")("X") == 0.5
    ensures Associate(Cells, Fusion.ParallelScore(g, ["X"], Fusion.Prior(Cells))) == [("C1", 0.45), ("C2", 0.25)]
  {
    var f := Fusion.ParallelScore(g, ["X"], Fusion.Prior(Cells));
    assert Fusion.Prior(Cells) == 0.5;
    assert f("C1") == 0.45;
    assert f("C2") == 0.25;
    assert Dedup(Cells) == Cells;
    AssociateIsZipDedup(Cells, f);
  }

  /** Normalising the scores divides them by their sum 0.7. */
  lemma ExampleNormalized()
    ensures Normalize([("C1", 0.45), ("C2", 0.25)]) == [("C1", 9.0 / 14.0), ("C2", 5.0 / 14.0)]
  {
    assert SumValues([("C1", 0.45), ("C2", 0.25)]) == 0.7;
  }

  /** Both stored PMFs have the default width 5, and `X` is the only FIXED AP. */
  lemma ExampleFilters()
    ensures PmfsForBinWidth([PmfC1, PmfC2], DefaultSettings.pmfBinWidth) == [PmfC1, PmfC2]
    ensures FixedAps(Known) == ["X"]
  {
    var pmfs := [PmfC1, PmfC2];
    assert pmfs[1..][1..] == [];
    assert PmfsForBinWidth(pmfs[1..], 5) == [PmfC2];
  }

  /** The parallel posterior is 9/14 for C1 and 5/14 for C2. */
  lemma ExamplePosterior()
    ensures Predict(Live, DefaultSettings, [PmfC1, PmfC2], Known, Cells) == [("C1", 9.0 / 14.0), ("C2", 5.0 / 14.0)]
  {
    var pmfs := [PmfC1, PmfC2];
    ExampleFilters();
    ExampleFactors();
    ExampleScores(EffectiveLikelihoods(Live, pmfs));
    ExampleNormalized();
  }

  /** C1, the cell with the larger posterior, is the one guessed. */
  lemma ExampleGuess()
    ensures MaxByOrNull(Predict(Live, DefaultSettings, [PmfC1, PmfC2], Known, Cells)) == Some("C1")
  {
    ExamplePosterior();
    var post: seq<(string, real)> := [("C1", 9.0 / 14.0), ("C2", 5.0 / 14.0)];
    assert post[..1] == [("C1", 9.0 / 14.0)];
    assert ArgMaxIndex(post) == 0;
  }
}
