# Bayesian WiFi localisation: a Dafny model

This project models the inference core of an Android app that guesses which cell of a floor plan the phone is in. The guess is made from a WiFi scan. It covers four pieces of the app.

- **The RSSI histogram (`Histogram`).** Samples in `[minRssi, maxRssi]` are put into fixed-width bins that start at `minRssi`. Every bin of the range is present, possibly with count 0. Out-of-range samples are dropped. Construction with a non-positive width is an error. `getCountForRssi` and `getPmf` are derived from the bins.
- **The predictor (`BayesianPredictor`).**
  - The likelihood lookup has three cases: a missing or empty model gives 0.00001, a zero total gives 0.0, and otherwise the result is count/total.
  - `normalizeProbabilities` falls back to a uniform distribution.
  - Parallel fusion multiplies "effective" likelihoods, where a likelihood of 0 counts as 1.
  - Serial fusion updates and renormalises once per fixed access point (AP), in descending order of the live reading.
  - `predict` has two gates: it returns an empty map when no stored PMF has the chosen bin width, or when no known AP is FIXED.
- **The home screen's guess (`HomeFragment.performBayesianGuess`).** The scan is folded into one reading per AP: the strongest level, floored at -100. The predictor is then run, and the first cell with the highest posterior is chosen.
- **The testing screen's evaluation (`BayesianTestingFragment`).** Each recorded TESTING scan gets a last-write-wins live map and is predicted. The correct guesses are counted, and the accuracy is derived from that count.

## How it is modelled

- **Maps.** Kotlin's `LinkedHashMap`s are insertion-ordered association lists (`LinkedMaps`). A well-formed map holds no key twice. This keeps iteration order, which decides ties in `maxByOrNull` and fixes the order of the posterior.
- **Probabilities.** They are exact `real`s, so the normalisation, positivity and order facts are stated without rounding.
- **The fusion strategies.** They are defined once, in `Fusion`, over an arbitrary likelihood model `g: cell -> AP -> real`. `BayesianPredictor` then plugs in the app's effective likelihoods.
- **Serial equals parallel.** The central theorem, `Fusion.SerialEqualsParallel`, says that serial fusion in exact arithmetic gives the same posterior as parallel fusion:
  - renormalising after each step does not change the final proportions;
  - every effective likelihood is strictly positive;
  - the product over the APs does not depend on their order.
  
  Consequently `predict` does not depend on the mode (`PredictorTheorems.PredictModesAgree`).
- **Loaded data.** The stored PMFs, the known APs, the recorded events and the measurements are sequences passed in. They stand for what the DAOs return.
- **The prime of a BSSID.** `BssidUtil.calculateBssidPrime` is a parameter of type `string -> Option<string>`.
- **PMF bin lookup.** `ApPmf.getBinStartForRssi` is not part of this model. It is taken to be the histogram's bin rule over a range starting at -100, the default minimum of a histogram (Histogram.kt:18). That stored PMFs were built with this default is an assumption.

The settings screens of both fragments read and write a `serialCutoffProbability` setting (HomeFragment.kt:259-260 and :312, BayesianTestingFragment.kt:177-178 and :230). `BayesianSettings` does not declare that field, and the predictor never reads a cutoff. The model follows the predictor: the serial loop never stops early, and every fixed AP is processed.

## Model

Source paths are relative to the repository root.

| member | source | states |
|---|---|---|
| Histogram.BinStart | app/src/main/java/com/example/assignment2/util/Histogram.kt:53 | the bin start of a sample is at most the sample and less than one bin width below it |
| Histogram.BinStartOnGrid | app/src/main/java/com/example/assignment2/util/Histogram.kt:53 | the bin start is a whole number of bin widths above `minRssi` |
| Histogram.BinStartIsFloorFormula | app/src/main/java/com/example/assignment2/util/Histogram.kt:53 | the bin start equals `minRssi + floor((rssi - minRssi) / binWidth) * binWidth` |
| Histogram.BinStartUnique | app/src/main/java/com/example/assignment2/util/Histogram.kt:53 | any grid point whose half-open bin contains the sample is the bin start, so the bin of a sample is unique |
| Histogram.InitialBinsShape | app/src/main/java/com/example/assignment2/util/Histogram.kt:38-42 | the initial bins all hold 0 and their starts strictly increase |
| Histogram.InitialBinsKeys | app/src/main/java/com/example/assignment2/util/Histogram.kt:38-42 | the initial keys are exactly the values `minRssi + k * binWidth` that do not exceed `maxRssi` |
| Histogram.GridValid | app/src/main/java/com/example/assignment2/util/Histogram.kt:38-42 | no bin start occurs twice |
| Histogram.InRangeBinIsGridPoint | app/src/main/java/com/example/assignment2/util/Histogram.kt:53-64 | the bin of an in-range sample is one of the initial keys, so binning never adds a key |
| Histogram.AddSample | app/src/main/java/com/example/assignment2/util/Histogram.kt:44-65 | a loop step keeps the key set equal to the grid and `totalCount` equal to the sum of the counts |
| Histogram.AddSampleEffect | app/src/main/java/com/example/assignment2/util/Histogram.kt:46-50 | an out-of-range sample changes nothing; an in-range one adds 1 to its own bin and to `totalCount` and leaves every other bin unchanged |
| Histogram.AddAllCountAt | app/src/main/java/com/example/assignment2/util/Histogram.kt:44-65 | after the loop, each bin has grown by exactly the number of in-range samples falling into it |
| Histogram.AddAllTotal | app/src/main/java/com/example/assignment2/util/Histogram.kt:44-67 | after the loop, `totalCount` has grown by the number of in-range samples |
| Histogram.SampleCountStep | app/src/main/java/com/example/assignment2/util/Histogram.kt:46-64 | one sample adds 1 to a bin exactly when it is in range and falls into that bin |
| Histogram.Empty | app/src/main/java/com/example/assignment2/util/Histogram.kt:33-42 | the all-zero grid satisfies the histogram invariant |
| Histogram.Build | app/src/main/java/com/example/assignment2/util/Histogram.kt:29-68 | fails exactly for a width ≤ 0; otherwise every grid point holds the number of samples in its bin, no other key exists, and the total is the number of in-range samples |
| Histogram.BuiltBins | app/src/main/java/com/example/assignment2/util/Histogram.kt:38-67 | the constructed bins hold, per grid point, the count of samples in that bin, and nothing off the grid |
| Histogram.CountForRssiCountsSamples | app/src/main/java/com/example/assignment2/util/Histogram.kt:73-79 | `getCountForRssi` is 0 outside the range and otherwise the number of samples sharing the value's bin |
| Histogram.Pmf | app/src/main/java/com/example/assignment2/util/Histogram.kt:85-92 | keeps the bin keys; all 0.0 without samples, otherwise each value times the total is the bin's count |
| Histogram.PmfIsDistribution | app/src/main/java/com/example/assignment2/util/Histogram.kt:89-91 | with samples, every probability is in [0, 1] and they sum to 1 |
| Histogram.DocumentedBins | app/src/main/java/com/example/assignment2/util/Histogram.kt:59-62 | the documented examples: width 5 on [-100, 0] sends 0 to bin 0, and on [-100, -1] sends -1 to bin -5, which is a bin of that range |
| LinkedMaps.Get | app/src/main/java/com/example/assignment2/util/BayesianPredictor.kt:118 | a lookup finds nothing exactly when the key is absent, and otherwise finds a stored entry |
| LinkedMaps.Put | app/src/main/java/com/example/assignment2/util/Histogram.kt:64 | storing keeps an existing key's position or appends a new key, and changes only that key's value |
| LinkedMaps.SumCountsPut | app/src/main/java/com/example/assignment2/util/Histogram.kt:64 | replacing one count changes the sum of the counts by exactly the difference |
| LinkedMaps.Dedup | app/src/main/java/com/example/assignment2/util/BayesianPredictor.kt:58-63 | keeps each element once and the same set of elements, as `toSet()` does |
| Normalization.Normalize | app/src/main/java/com/example/assignment2/util/BayesianPredictor.kt:225-239 | keeps the keys in order; empty stays empty; a zero sum gives 1/n everywhere; otherwise each value is divided by the sum |
| Normalization.NormalizeEntry | app/src/main/java/com/example/assignment2/util/BayesianPredictor.kt:225-239 | entry `i` keeps its key and gets its value's share of the sum, or 1/n when the sum is 0 |
| Normalization.NormalizeSumsToOne | app/src/main/java/com/example/assignment2/util/BayesianPredictor.kt:225-239 | a non-empty map normalises to values summing to 1, in both branches |
| Normalization.NormalizeBounds | app/src/main/java/com/example/assignment2/util/BayesianPredictor.kt:236-238 | non-negative input gives values in [0, 1]; strictly positive input gives strictly positive values |
| Normalization.NormalizeScaleInvariant | app/src/main/java/com/example/assignment2/util/BayesianPredictor.kt:225-239 | multiplying every value by the same positive factor does not change the result |
| Normalization.NormalizeIdempotent | app/src/main/java/com/example/assignment2/util/BayesianPredictor.kt:225-239 | normalising twice equals normalising once |
| Normalization.NormalizeConstant | app/src/main/java/com/example/assignment2/util/BayesianPredictor.kt:225-239 | a map of one repeated positive value normalises to the uniform 1/n |
| Normalization.Associate | app/src/main/java/com/example/assignment2/util/BayesianPredictor.kt:188 | `associateWith` builds a well-formed map |
| Normalization.AssociateGet | app/src/main/java/com/example/assignment2/util/BayesianPredictor.kt:188 | the built map holds `f(k)` under each listed key and nothing else |
| Normalization.AssociateIsZipDedup | app/src/main/java/com/example/assignment2/util/BayesianPredictor.kt:152-166 | building by repeated insertion equals pairing the distinct keys, in first-occurrence order, with their values |
| Products.ProductPermutation | app/src/main/java/com/example/assignment2/util/BayesianPredictor.kt:156-164 | the likelihood product does not depend on the order of the APs |
| Products.ProductInUnitInterval | app/src/main/java/com/example/assignment2/util/BayesianPredictor.kt:153-164 | factors in (0, 1] give a product in (0, 1] |
| ApOrder.InsertKeepsDescending | app/src/main/java/com/example/assignment2/util/BayesianPredictor.kt:192 | inserting into a descending list keeps it descending |
| ApOrder.SortedByDescending | app/src/main/java/com/example/assignment2/util/BayesianPredictor.kt:192 | the sort returns a permutation of its input ordered by non-increasing key |
| BayesianPredictor.PmfBinStart | app/src/main/java/com/example/assignment2/util/BayesianPredictor.kt:117 | the bin of a reading starts at most one bin width below it |
| BayesianPredictor.Likelihood | app/src/main/java/com/example/assignment2/util/BayesianPredictor.kt:97-127 | 0.00001 without a PMF or bins; 0.0 for a zero total; otherwise the bin's count (0 if absent) over the total; always in [0, 1] |
| BayesianPredictor.Effective | app/src/main/java/com/example/assignment2/util/BayesianPredictor.kt:163 | 0 is replaced by 1, any other value kept, so a likelihood in [0, 1] becomes one in (0, 1] |
| BayesianPredictor.FindPmf | app/src/main/java/com/example/assignment2/util/BayesianPredictor.kt:158 | finds nothing exactly when no PMF matches the AP and cell; otherwise finds the first matching PMF |
| BayesianPredictor.PmfsForBinWidth | app/src/main/java/com/example/assignment2/util/BayesianPredictor.kt:48-51 | keeps exactly the stored PMFs of the chosen width |
| BayesianPredictor.FixedAps | app/src/main/java/com/example/assignment2/util/BayesianPredictor.kt:58-63 | holds each prime of a FIXED known AP exactly once, and nothing else |
| BayesianPredictor.Factor | app/src/main/java/com/example/assignment2/util/BayesianPredictor.kt:157-163 | an effective likelihood, at the live reading or -100, is in (0, 1] |
| BayesianPredictor.SerialOrder | app/src/main/java/com/example/assignment2/util/BayesianPredictor.kt:192 | the serial order is a permutation of the fixed APs by non-increasing reading, with -100 for unseen APs |
| BayesianPredictor.Predict | app/src/main/java/com/example/assignment2/util/BayesianPredictor.kt:48-68 | empty when no PMF has the chosen width, and empty when no known AP is FIXED |
| Fusion.Prior | app/src/main/java/com/example/assignment2/util/BayesianPredictor.kt:149 | the uniform prior of a non-empty cell list is positive |
| Fusion.ParallelIsTarget | app/src/main/java/com/example/assignment2/util/BayesianPredictor.kt:141-168 | the parallel posterior equals the normalised likelihood products over the fixed APs; the prior cancels |
| Fusion.ParallelIsDistribution | app/src/main/java/com/example/assignment2/util/BayesianPredictor.kt:147-167 | with positive likelihoods, the parallel posterior is over the distinct cells in order, every value is in (0, 1], and they sum to 1 |
| Fusion.ParallelOrderIndependent | app/src/main/java/com/example/assignment2/util/BayesianPredictor.kt:156-164 | reordering the fixed APs does not change the parallel posterior |
| Fusion.ParallelDependsOnFixedOnly | app/src/main/java/com/example/assignment2/util/BayesianPredictor.kt:156-164 | two likelihood models that agree on the fixed APs give the same parallel posterior |
| Fusion.ParallelDropsConstantAp | app/src/main/java/com/example/assignment2/util/BayesianPredictor.kt:156-167 | an AP with the same positive likelihood in every cell can be removed without changing the posterior |
| Fusion.ParallelUniformWhenUninformative | app/src/main/java/com/example/assignment2/util/BayesianPredictor.kt:147-167 | when every cell gives each fixed AP the same likelihood, the posterior is uniform over the distinct cells |
| Fusion.SerialStepIsDistribution | app/src/main/java/com/example/assignment2/util/BayesianPredictor.kt:201-218 | after every serial step the keys are the distinct cells in order and the values sum to 1 |
| Fusion.SerialStepTarget | app/src/main/java/com/example/assignment2/util/BayesianPredictor.kt:206-216 | one step from a posterior proportional to the products over the APs so far gives the normalised products including the new AP |
| Fusion.TargetIsScaled | app/src/main/java/com/example/assignment2/util/BayesianPredictor.kt:216 | a normalised posterior is the products divided by their sum, the form the serial loop keeps |
| Fusion.SerialFromTargetState | app/src/main/java/com/example/assignment2/util/BayesianPredictor.kt:201-219 | from the normalised products over some APs, the serial loop over the remaining APs ends in the normalised products over all of them |
| Fusion.SerialFromTarget | app/src/main/java/com/example/assignment2/util/BayesianPredictor.kt:201-219 | the rest of the serial loop, from such a posterior, ends in the normalised products over all APs processed |
| Fusion.SerialFromNoCells | app/src/main/java/com/example/assignment2/util/BayesianPredictor.kt:201-219 | with no cells the serial loop yields the empty map |
| Fusion.SerialEqualsParallel | app/src/main/java/com/example/assignment2/util/BayesianPredictor.kt:141-220 | with positive likelihoods and at least one fixed AP, serial fusion in any order of the fixed APs equals parallel fusion |
| PredictorTheorems.SerialBayesEqualsParallelBayes | app/src/main/java/com/example/assignment2/util/BayesianPredictor.kt:141-220 | the app's serial strategy (descending-reading order) gives the parallel posterior |
| PredictorTheorems.PredictIsParallel | app/src/main/java/com/example/assignment2/util/BayesianPredictor.kt:42-84 | once both gates pass, `predict` is the parallel posterior over the PMFs of the chosen width and the FIXED APs |
| PredictorTheorems.PredictModesAgree | app/src/main/java/com/example/assignment2/util/BayesianPredictor.kt:70-83 | `predict` gives the same result in SERIAL and PARALLEL mode |
| PredictorTheorems.PredictIsDistribution | app/src/main/java/com/example/assignment2/util/BayesianPredictor.kt:42-84 | `predict` is empty exactly when no PMF has the width, no AP is FIXED, or there are no cells; otherwise a distribution over the distinct cells with every value in (0, 1] |
| PredictorTheorems.PredictIsValid | app/src/main/java/com/example/assignment2/util/BayesianPredictor.kt:147-167 | the posterior holds no cell twice |
| PredictorTheorems.PmfsForBinWidthIdempotent | app/src/main/java/com/example/assignment2/util/BayesianPredictor.kt:48-51 | filtering by width twice is filtering once |
| PredictorTheorems.PmfsForBinWidthConcat | app/src/main/java/com/example/assignment2/util/BayesianPredictor.kt:48-51 | the width filter keeps stored order and duplicates: a single PMF is kept or dropped, and a concatenation is filtered part by part |
| PredictorTheorems.PredictIgnoresOtherWidths | app/src/main/java/com/example/assignment2/util/BayesianPredictor.kt:48-56 | deleting every PMF of another width does not change `predict` |
| PredictorTheorems.PredictIgnoresUnusedReadings | app/src/main/java/com/example/assignment2/util/BayesianPredictor.kt:156-157 | two scans that agree on every FIXED AP's reading give the same prediction, so non-FIXED APs never matter |
| PredictorTheorems.UntrainedApIgnored | app/src/main/java/com/example/assignment2/util/BayesianPredictor.kt:103-106 | an AP without a usable PMF in any cell multiplies every score by 0.00001, and dropping it leaves the parallel posterior unchanged |
| PredictorTheorems.UntrainedModelIsUniform | app/src/main/java/com/example/assignment2/util/BayesianPredictor.kt:103-106 | with no PMF for any cell and AP, the posterior is uniform over the distinct cells |
| PredictorTheorems.LikelihoodOfHistogram | app/src/main/java/com/example/assignment2/util/Histogram.kt:73-79 | for a PMF stored from a histogram with samples, the likelihood of an in-range reading is `getCountForRssi` over the total, and 0 below the range |
| Decision.ArgMaxIndex | app/src/main/java/com/example/assignment2/ui/home/HomeFragment.kt:408 | the chosen entry's value is at least every other value, and strictly larger than every earlier value |
| Decision.ArgMaxIndexUnique | app/src/main/java/com/example/assignment2/ui/home/HomeFragment.kt:408 | the first position of a maximal value is the one chosen |
| Decision.MaxByOrNull | app/src/main/java/com/example/assignment2/ui/home/HomeFragment.kt:408 | no key for an empty map; otherwise the key of an entry with maximal value |
| Decision.ChosenProbabilityIsMax | app/src/main/java/com/example/assignment2/ui/home/HomeFragment.kt:410 | in a well-formed posterior, the reported probability is the chosen entry's value and the maximum |
| HomeGuess.LiveRssiMap | app/src/main/java/com/example/assignment2/ui/home/HomeFragment.kt:381-386 | the folded scan is a well-formed map |
| HomeGuess.LiveRssiMapIsStrongest | app/src/main/java/com/example/assignment2/ui/home/HomeFragment.kt:382-385 | a prime has an entry exactly when some result has that prime; the entry is at least -100 and every level of the prime, and is -100 or one of those levels |
| HomeGuess.IsStrongestUnique | app/src/main/java/com/example/assignment2/ui/home/HomeFragment.kt:384 | the strongest-reading description fixes the value |
| HomeGuess.IsStrongestPermutation | app/src/main/java/com/example/assignment2/ui/home/HomeFragment.kt:382-385 | the description depends on the scan only as a multiset |
| HomeGuess.LiveRssiMapOrderIndependent | app/src/main/java/com/example/assignment2/ui/home/HomeFragment.kt:382-386 | any reordering of the scan gives every prime the same reading or none |
| HomeGuess.PerformBayesianGuess | app/src/main/java/com/example/assignment2/ui/home/HomeFragment.kt:371-376 | the guess stops with "no scan results" exactly when the scan is empty |
| HomeGuess.NoUsableApsWhenNoPrime | app/src/main/java/com/example/assignment2/ui/home/HomeFragment.kt:388-392 | no prediction is attempted exactly when the scan is non-empty and no result has a prime |
| HomeGuess.GuessFollowsPosterior | app/src/main/java/com/example/assignment2/ui/home/HomeFragment.kt:395-410 | with usable APs, nothing is guessed exactly when a gate closes or there are no cells; a guess is one of the cells, its probability is its posterior value, in (0, 1], and at least every other posterior value |
| BayesianTesting.TestingEvents | app/src/main/java/com/example/assignment2/ui/testing/BayesianTestingFragment.kt:256 | keeps exactly the TESTING events |
| BayesianTesting.MeasurementsOf | app/src/main/java/com/example/assignment2/ui/testing/BayesianTestingFragment.kt:268-279 | keeps exactly the measurements of the event's timestamp, or none |
| BayesianTesting.MeasurementsOfConcat | app/src/main/java/com/example/assignment2/ui/testing/BayesianTestingFragment.kt:268-279 | grouping keeps stored order and duplicates: a single measurement is kept or dropped, and a concatenation is grouped part by part |
| BayesianTesting.EventLiveMapKeys | app/src/main/java/com/example/assignment2/ui/testing/BayesianTestingFragment.kt:281-284 | a prime has an entry exactly when some measurement of the event has it |
| BayesianTesting.EventLiveMapIsLastWrite | app/src/main/java/com/example/assignment2/ui/testing/BayesianTestingFragment.kt:281-284 | a prime's entry is the RSSI of its last measurement in list order |
| BayesianTesting.EventLiveMapEmpty | app/src/main/java/com/example/assignment2/ui/testing/BayesianTestingFragment.kt:279-291 | the live map is empty exactly when no measurement was stored for the event |
| BayesianTesting.VerdictCorrect | app/src/main/java/com/example/assignment2/ui/testing/BayesianTestingFragment.kt:286-317 | an event's verdict is CORRECT exactly when its live map and its posterior are non-empty and the first cell of maximal posterior is the recorded cell |
| BayesianTesting.EvaluateEventCorrect | app/src/main/java/com/example/assignment2/ui/testing/BayesianTestingFragment.kt:286-317 | an event is correct exactly when it has measurements, a non-empty posterior, and its cell is the first maximal cell; a correct cell is one of the cells |
| BayesianTesting.CountCorrect | app/src/main/java/com/example/assignment2/ui/testing/BayesianTestingFragment.kt:270-314 | the number of correct events is at most the number of events; it equals the number of events exactly when every event is correct, and it is 0 exactly when none is |
| BayesianTesting.CountCorrectPermutation | app/src/main/java/com/example/assignment2/ui/testing/BayesianTestingFragment.kt:276-326 | the number of correct events does not depend on the order of the events |
| BayesianTesting.ClosedGatesCountNothing | app/src/main/java/com/example/assignment2/ui/testing/BayesianTestingFragment.kt:300-307 | when the predictor's gates are closed, no event counts as correct |
| BayesianTesting.RunBayesianTesting | app/src/main/java/com/example/assignment2/ui/testing/BayesianTestingFragment.kt:254-329 | no report exactly when there is no TESTING event; otherwise the total is the number of TESTING events, including those without a live reading or a posterior, and `correct` is the count of correct ones among them |
| BayesianTesting.TrainingEventIgnored | app/src/main/java/com/example/assignment2/ui/testing/BayesianTestingFragment.kt:256 | adding a non-TESTING event does not change the report |
| BayesianTesting.Accuracy | app/src/main/java/com/example/assignment2/ui/testing/BayesianTestingFragment.kt:346 | the accuracy is in [0, 100]; it is 100 exactly when every one of at least one event is correct, and 0 exactly when none is |
| WorkedExample.ExampleLikelihoods | app/src/main/java/com/example/assignment2/util/BayesianPredictor.kt:117-121 | the reading -95 has likelihood 0.9 in C1 and 0.5 in C2 |
| WorkedExample.ExamplePosterior | app/src/main/java/com/example/assignment2/util/BayesianPredictor.kt:141-168 | two cells with likelihoods 0.9 and 0.5 give the posterior 9/14 and 5/14 |
| WorkedExample.ExampleGuess | app/src/main/java/com/example/assignment2/ui/home/HomeFragment.kt:408 | in that example C1 is guessed |

## Left out

- **Database access and threading.** `withContext(Dispatchers.IO)` and the DAO calls are not modelled. The loaded PMFs, known APs, events and measurements are parameters.
- **Logging, UI and platform plumbing.** This covers status texts, highlighting, toasts, date formatting, the settings dialogs and the WiFi scan machinery.
- **Floating point.** The model uses exact reals. Long products that underflow, and the rounding in `== 0.0` tests on computed values, are not modelled.
- **Integer width.** Kotlin `Int` is 32-bit; counts and RSSI values are modelled as unbounded integers. Overflow is not modelled; counts and RSSI values are far from the limits in practice.
- Histogram.InitialBinsShape: `currentBinStart += binWidth` (Histogram.kt:41) wraps around in 32 bits, so when `maxRssi` is within `binWidth` of `Int.MAX_VALUE` the Kotlin loop never ends. The model's loop always ends; that non-termination is not modelled.
- **`Histogram.getApproximateAverageRssi`.** It is a floating-point summary that inference never uses.
- **The `ApPmf` class.** It is not part of this model. `BayesianPredictor.PmfBinStart` assumes its `getBinStartForRssi` follows the histogram's bin rule with minimum -100.
- **BSSID primes.** `BssidUtil.calculateBssidPrime` is not part of this model and is taken as a parameter.
- **Bin widths.** `ApPmf.binWidth` is a positive integer type. Stored PMFs come from histograms, which reject other widths.
- **The empty cell list.** With no cells, Kotlin's prior is `1.0/0`, but that value is never used because every map built is empty. `Fusion.Prior` returns 0.0 there.
- **A null scan.** `performBayesianGuess` treats a null scan like an empty one. The model takes a plain list.
- ApOrder.SortedByDescending: states permutation and ordering but not stability, so equal readings may come in any order. Stability does not affect the result, because serial and parallel agree for every order.
- Fusion.SerialEqualsParallel: assumes at least one fixed AP. With none, the serial result is the unnormalised uniform start map, and `predict` never runs that case because its gate returns earlier.
- PredictorTheorems.LikelihoodOfHistogram: a reading above `maxRssi` whose bin start is still a bin of the PMF gets that bin's count, while `getCountForRssi` gives 0. That case is not characterised.
- HomeGuess.PerformBayesianGuess: its own contract only covers the empty-scan case. The other outcomes are stated by `HomeGuess.NoUsableApsWhenNoPrime` and `HomeGuess.GuessFollowsPosterior`.
- BayesianTesting.MeasurementsOf: the order of the stored measurements is whatever the DAO returns. The model takes the given sequence as that order. Its own contract states only which measurements are kept; that their order and duplicates are kept is stated by `BayesianTesting.MeasurementsOfConcat`.
