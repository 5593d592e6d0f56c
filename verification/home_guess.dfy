/** The pure logic of the home screen's `performBayesianGuess`: a WiFi scan is folded
    into one reading per access point (the strongest, floored at -100), the predictor
    is run, and the cell with the highest posterior is chosen. */
module HomeGuess {
  import opened Wrappers
  import opened LinkedMaps
  import opened BayesianModels
  import opened BayesianPredictor
  import opened PredictorTheorems
  import opened Decision

  /** The starting value a prime's reading is compared against (`DEFAULT_RSSI_FOR_SCAN`). */
  const DefaultRssiForScan: int := -100

  /** One entry of an Android WiFi scan: the access point's BSSID and its level in dBm. */
  datatype ScanResult = ScanResult(bssid: string, level: int)

  /** The prime of a BSSID (`BssidUtil.calculateBssidPrime`), which may be null. Its
      definition is not part of this model; every member takes it as a parameter. */
  type PrimeOf = string -> Option<string>

  function Max(a: int, b: int): int {
    if a >= b then a else b
  }

  /** The scan folded in order into `liveRssiMap`: a result whose prime is null is
      skipped; otherwise its prime's entry becomes the larger of the entry so far (or
      -100 if there is none) and the result's level. */
  function LiveRssiMap(scan: seq<ScanResult>, primeOf: PrimeOf): (m: seq<(string, int)>)
    ensures Valid(m)
    decreases |scan|
  {
    if |scan| == 0 then []
    else
      var m := LiveRssiMap(scan[..|scan| - 1], primeOf);
      var sr := scan[|scan| - 1];
      match primeOf(sr.bssid)
      case None => m
      case Some(p) =>
        var v := Max(GetOrDefault(m, p, DefaultRssiForScan), sr.level);
        PutValid(m, p, v);
        Put(m, p, v)
  }

  /** Some result of the scan has prime `p`. */
  ghost predicate Seen(scan: seq<ScanResult>, primeOf: PrimeOf, p: string) {
    exists i :: 0 <= i < |scan| && primeOf(scan[i].bssid) == Some(p)
  }

  /** `v` is the strongest reading of `p` with the -100 floor: at least -100, at least
      every level the scan reports for `p`, and either -100 or one of those levels. */
  ghost predicate IsStrongest(scan: seq<ScanResult>, primeOf: PrimeOf, p: string, v: int) {
    && v >= DefaultRssiForScan
    && (forall i :: 0 <= i < |scan| && primeOf(scan[i].bssid) == Some(p) ==> scan[i].level <= v)
    && (v == DefaultRssiForScan ||
        exists i :: 0 <= i < |scan| && primeOf(scan[i].bssid) == Some(p) && scan[i].level == v)
  }

  /** The map has an entry exactly for the primes the scan reports, and each entry is the
      strongest reading of its prime. */
  lemma {:induction false} LiveRssiMapIsStrongest(scan: seq<ScanResult>, primeOf: PrimeOf, p: string)
    ensures Get(LiveRssiMap(scan, primeOf), p).Some? <==> Seen(scan, primeOf, p)
    ensures Get(LiveRssiMap(scan, primeOf), p).Some? ==>
      IsStrongest(scan, primeOf, p, Get(LiveRssiMap(scan, primeOf), p).value)
    decreases |scan|
  {
    if |scan| > 0 {
      var init, sr := scan[..|scan| - 1], scan[|scan| - 1];
      assert scan == init + [sr];
      LiveRssiMapIsStrongest(init, primeOf, p);
      var m := LiveRssiMap(init, primeOf);
      var r := LiveRssiMap(scan, primeOf);
      assert forall i :: 0 <= i < |init| ==> init[i] == scan[i];
      if primeOf(sr.bssid) == Some(p) {
        var v := Max(GetOrDefault(m, p, DefaultRssiForScan), sr.level);
        assert Get(r, p) == Some(v);
        assert primeOf(scan[|scan| - 1].bssid) == Some(p);
        if Get(m, p).Some? {
          assert IsStrongest(init, primeOf, p, Get(m, p).value);
        }
        if v != DefaultRssiForScan && v != sr.level {
          var i :| 0 <= i < |init| && primeOf(init[i].bssid) == Some(p) && init[i].level == v;
          assert scan[i] == init[i];
        }
      } else {
        assert Get(r, p) == Get(m, p);
        if Seen(scan, primeOf, p) {
          var i :| 0 <= i < |scan| && primeOf(scan[i].bssid) == Some(p);
          assert i < |init|;
        }
        if Get(m, p).Some? {
          var v := Get(m, p).value;
          if v != DefaultRssiForScan {
            var i :| 0 <= i < |init| && primeOf(init[i].bssid) == Some(p) && init[i].level == v;
            assert scan[i] == init[i];
          }
        }
      }
    }
  }

  /** The strongest reading of a prime is determined by the scan: two values that both
      satisfy the description are equal. */
  lemma IsStrongestUnique(scan: seq<ScanResult>, primeOf: PrimeOf, p: string, v: int, w: int)
    requires IsStrongest(scan, primeOf, p, v)
    requires IsStrongest(scan, primeOf, p, w)
    ensures v == w
  {
    if v != DefaultRssiForScan {
      var i :| 0 <= i < |scan| && primeOf(scan[i].bssid) == Some(p) && scan[i].level == v;
      assert v <= w;
    }
    if w != DefaultRssiForScan {
      var i :| 0 <= i < |scan| && primeOf(scan[i].bssid) == Some(p) && scan[i].level == w;
      assert w <= v;
    }
  }

  /** The description of the strongest reading only looks at the scan as a multiset. */
  lemma IsStrongestPermutation(scan1: seq<ScanResult>, scan2: seq<ScanResult>, primeOf: PrimeOf, p: string, v: int)
    requires multiset(scan1) == multiset(scan2)
    requires IsStrongest(scan1, primeOf, p, v)
    ensures IsStrongest(scan2, primeOf, p, v)
    ensures Seen(scan1, primeOf, p) <==> Seen(scan2, primeOf, p)
  {
    forall i | 0 <= i < |scan2| && primeOf(scan2[i].bssid) == Some(p) ensures scan2[i].level <= v {
      var k := SameElement(scan2, scan1, i);
    }
    if v != DefaultRssiForScan {
      var i :| 0 <= i < |scan1| && primeOf(scan1[i].bssid) == Some(p) && scan1[i].level == v;
      var k := SameElement(scan1, scan2, i);
    }
    SeenPermutation(scan1, scan2, primeOf, p);
  }

  lemma SeenPermutation(scan1: seq<ScanResult>, scan2: seq<ScanResult>, primeOf: PrimeOf, p: string)
    requires multiset(scan1) == multiset(scan2)
    ensures Seen(scan1, primeOf, p) <==> Seen(scan2, primeOf, p)
  {
    if Seen(scan1, primeOf, p) {
      var i :| 0 <= i < |scan1| && primeOf(scan1[i].bssid) == Some(p);
      var k := SameElement(scan1, scan2, i);
    }
    if Seen(scan2, primeOf, p) {
      var i :| 0 <= i < |scan2| && primeOf(scan2[i].bssid) == Some(p);
      var k := SameElement(scan2, scan1, i);
    }
  }

  /** An element of `s` occurs somewhere in a permutation `t` of `s`. */
  lemma SameElement<T>(s: seq<T>, t: seq<T>, i: int) returns (k: int)
    requires multiset(s) == multiset(t)
    requires 0 <= i < |s|
    ensures 0 <= k < |t| && t[k] == s[i]
  {
    assert s[i] in multiset(s);
    assert s[i] in multiset(t);
    k :| 0 <= k < |t| && t[k] == s[i];
  }

  /** The readings do not depend on the order of the scan results: every prime gets the
      same reading (or none) from any reordering of the scan. */
  lemma LiveRssiMapOrderIndependent(scan1: seq<ScanResult>, scan2: seq<ScanResult>, primeOf: PrimeOf, p: string)
    requires multiset(scan1) == multiset(scan2)
    ensures Get(LiveRssiMap(scan1, primeOf), p) == Get(LiveRssiMap(scan2, primeOf), p)
  {
    LiveRssiMapIsStrongest(scan1, primeOf, p);
    LiveRssiMapIsStrongest(scan2, primeOf, p);
    SeenPermutation(scan1, scan2, primeOf, p);
    var g1, g2 := Get(LiveRssiMap(scan1, primeOf), p), Get(LiveRssiMap(scan2, primeOf), p);
    if g1.Some? {
      IsStrongestPermutation(scan1, scan2, primeOf, p, g1.value);
      IsStrongestUnique(scan2, primeOf, p, g1.value, g2.value);
    }
  }

  /** What the home screen ends with after a scan. */
  datatype GuessOutcome =
    | NoScanResults
    | NoUsableAps
    | NoProbabilities
    | Guessed(cell: string, probability: real)

  /** `performBayesianGuess` without its UI effects: an empty scan, a scan without any
      usable prime and an empty posterior each stop early; otherwise the first cell with
      the highest posterior is guessed, with its probability. */
  function PerformBayesianGuess(scan: seq<ScanResult>, primeOf: PrimeOf, settings: BayesianSettings,
                                pmfs: seq<ApPmf>, known: seq<KnownApPrime>, cells: seq<string>): (g: GuessOutcome)
    ensures g == NoScanResults <==> |scan| == 0
  {
    if |scan| == 0 then NoScanResults
    else
      var live := LiveRssiMap(scan, primeOf);
      if |live| == 0 then NoUsableAps
      else
        var post := Predict(live, settings, pmfs, known, cells);
        if |post| == 0 then NoProbabilities
        else
          var guessed := MaxByOrNull(post);
          Guessed(guessed.value, ChosenProbability(post, guessed))
  }

  /** No prediction is attempted, and nothing is guessed, exactly when the scan is
      non-empty but no result in it has a prime. */
  lemma NoUsableApsWhenNoPrime(scan: seq<ScanResult>, primeOf: PrimeOf, settings: BayesianSettings,
                               pmfs: seq<ApPmf>, known: seq<KnownApPrime>, cells: seq<string>)
    ensures PerformBayesianGuess(scan, primeOf, settings, pmfs, known, cells) == NoUsableAps <==>
      |scan| > 0 && forall i :: 0 <= i < |scan| ==> primeOf(scan[i].bssid).None?
  {
    var live := LiveRssiMap(scan, primeOf);
    if |live| > 0 {
      LiveRssiMapIsStrongest(scan, primeOf, live[0].0);
      assert live[0].0 in Keys(live);
    } else if |scan| > 0 {
      forall i | 0 <= i < |scan| ensures primeOf(scan[i].bssid).None? {
        if primeOf(scan[i].bssid).Some? {
          LiveRssiMapIsStrongest(scan, primeOf, primeOf(scan[i].bssid).value);
        }
      }
    }
  }

  /** With a usable scan, no cell is guessed exactly when the predictor's gates close:
      no PMF of the chosen bin width, no FIXED access point, or no cells. Otherwise the
      guess is one of the cells, and its reported probability is the largest posterior
      value, strictly positive and at most 1. */
  lemma GuessFollowsPosterior(scan: seq<ScanResult>, primeOf: PrimeOf, settings: BayesianSettings,
                              pmfs: seq<ApPmf>, known: seq<KnownApPrime>, cells: seq<string>)
    requires |LiveRssiMap(scan, primeOf)| > 0
    ensures PerformBayesianGuess(scan, primeOf, settings, pmfs, known, cells) == NoProbabilities <==>
      || (forall i :: 0 <= i < |pmfs| ==> pmfs[i].binWidth != settings.pmfBinWidth)
      || (forall i :: 0 <= i < |known| ==> known[i].apType != Fixed)
      || |cells| == 0
    ensures var g := PerformBayesianGuess(scan, primeOf, settings, pmfs, known, cells);
      var post := Predict(LiveRssiMap(scan, primeOf), settings, pmfs, known, cells);
      g.Guessed? ==>
        && g.cell in cells
        && Get(post, g.cell) == Some(g.probability)
        && 0.0 < g.probability <= 1.0
        && (forall j :: 0 <= j < |post| ==> post[j].1 <= g.probability)
  {
    var live := LiveRssiMap(scan, primeOf);
    assert |scan| > 0;
    var post := Predict(live, settings, pmfs, known, cells);
    PredictIsDistribution(live, settings, pmfs, known, cells);
    if |post| > 0 {
      PredictIsValid(live, settings, pmfs, known, cells);
      ChosenProbabilityIsMax(post);
      var i := ArgMaxIndex(post);
      GetAt(post, i);
      assert post[i].0 in Dedup(cells);
    }
  }
}
