/** A histogram of RSSI samples over the closed range [minRssi, maxRssi], split into
    bins of a fixed width. Bins are kept in ascending order of their start, every bin of
    the range is present (possibly with count 0), and out-of-range samples are dropped. */
module Histogram {
  import opened Wrappers
  import opened LinkedMaps

  /** The default range of a histogram, in dBm. */
  const DefaultMinRssi: int := -100
  const DefaultMaxRssi: int := 0

  /** Construction with a non-positive bin width is rejected
      (an `IllegalArgumentException` in the source). */
  datatype HistogramError = NonPositiveBinWidth

  /** `bins` maps each bin start to the number of samples that fell into that bin;
      `totalCount` is the number of samples that were binned. */
  datatype Histogram = Histogram(
    binWidth: int,
    minRssi: int,
    maxRssi: int,
    bins: seq<(int, nat)>,
    totalCount: nat)

  /** The start of the bin holding `rssi`: `rssi` lowered to the nearest point of the
      grid `minRssi + k * binWidth` at or below it. `BinStartIsFloorFormula` shows this is
      `minRssi` plus the floor of the distance in whole bin widths. */
  function BinStart(rssi: int, minRssi: int, binWidth: int): (b: int)
    requires binWidth > 0
    ensures b <= rssi < b + binWidth
  {
    rssi - (rssi - minRssi) % binWidth
  }

  /** The bin start is a grid point: a whole number of bin widths above `minRssi`. */
  lemma BinStartOnGrid(rssi: int, minRssi: int, binWidth: int)
    requires binWidth > 0
    ensures (BinStart(rssi, minRssi, binWidth) - minRssi) % binWidth == 0
  {
    var x := rssi - minRssi;
    var q := x / binWidth;
    assert x == q * binWidth + x % binWidth;
    assert BinStart(rssi, minRssi, binWidth) - minRssi == q * binWidth;
    MultipleModulo(q, binWidth);
  }

  /** The bin start is the source's formula `minRssi + ((rssi - minRssi) / binWidth) *
      binWidth`, with the division rounding down (Dafny's `/` does, for a positive
      divisor). */
  lemma BinStartIsFloorFormula(rssi: int, minRssi: int, binWidth: int)
    requires binWidth > 0
    ensures BinStart(rssi, minRssi, binWidth) == minRssi + ((rssi - minRssi) / binWidth) * binWidth
  {
    var x := rssi - minRssi;
    assert x == (x / binWidth) * binWidth + x % binWidth;
  }

  lemma {:induction false} MulAtLeast(a: int, w: int)
    requires a >= 1 && w > 0
    ensures a * w >= w
  {
    if a > 1 {
      MulAtLeast(a - 1, w);
      assert a * w == (a - 1) * w + w;
    }
  }

  lemma MultipleModulo(q: int, w: int)
    requires w > 0
    ensures (q * w) % w == 0
  {
    var r := (q * w) % w;
    var d := (q * w) / w;
    assert q * w == d * w + r;
    assert (q - d) * w == r;
    if q - d >= 1 {
      MulAtLeast(q - d, w);
    } else if q - d <= -1 {
      assert (d - q) * w == -r;
      MulAtLeast(d - q, w);
    }
  }

  lemma ShiftModulo(x: int, w: int)
    requires w > 0
    ensures x % w == 0 <==> (x - w) % w == 0
  {
    var d := x / w;
    assert x == d * w + x % w;
    if x % w == 0 {
      assert x - w == (d - 1) * w;
      MultipleModulo(d - 1, w);
    }
    var e := (x - w) / w;
    assert x - w == e * w + (x - w) % w;
    if (x - w) % w == 0 {
      assert x == (e + 1) * w;
      MultipleModulo(e + 1, w);
    }
  }

  /** The bin of a sample is the only start in the grid `minRssi + k * binWidth` whose
      half-open bin `[start, start + binWidth)` contains the sample. */
  lemma BinStartUnique(rssi: int, minRssi: int, binWidth: int, b: int)
    requires binWidth > 0
    requires b <= rssi < b + binWidth
    requires (b - minRssi) % binWidth == 0
    ensures b == BinStart(rssi, minRssi, binWidth)
  {
    var c := BinStart(rssi, minRssi, binWidth);
    BinStartOnGrid(rssi, minRssi, binWidth);
    var k := (b - minRssi) / binWidth;
    var m := (c - minRssi) / binWidth;
    assert b - minRssi == k * binWidth + (b - minRssi) % binWidth;
    assert c - minRssi == m * binWidth + (c - minRssi) % binWidth;
    assert (k - m) * binWidth == b - c;
    if k - m >= 1 {
      MulAtLeast(k - m, binWidth);
    } else if k - m <= -1 {
      assert (m - k) * binWidth == c - b;
      MulAtLeast(m - k, binWidth);
    }
  }

  /** The grid points of the range: starts reachable from `minRssi` in whole bin widths
      that do not exceed `maxRssi`. */
  predicate IsBinStart(k: int, minRssi: int, maxRssi: int, binWidth: int)
    requires binWidth > 0
  {
    minRssi <= k <= maxRssi && (k - minRssi) % binWidth == 0
  }

  /** The initial, all-zero bins: one per grid point from `start` up to `maxRssi`, in
      ascending order. */
  function InitialBins(start: int, maxRssi: int, binWidth: int): (r: seq<(int, nat)>)
    requires binWidth > 0
    decreases maxRssi - start + binWidth
  {
    if start > maxRssi then []
    else [(start, 0)] + InitialBins(start + binWidth, maxRssi, binWidth)
  }

  /** The initial bins are all zero and strictly ascending from `start`. */
  lemma {:induction false} InitialBinsShape(start: int, maxRssi: int, binWidth: int)
    requires binWidth > 0
    ensures forall i :: 0 <= i < |InitialBins(start, maxRssi, binWidth)| ==>
      InitialBins(start, maxRssi, binWidth)[i].1 == 0
    ensures forall i :: 0 <= i < |InitialBins(start, maxRssi, binWidth)| ==>
      start <= InitialBins(start, maxRssi, binWidth)[i].0
    ensures forall i, j :: 0 <= i < j < |InitialBins(start, maxRssi, binWidth)| ==>
      InitialBins(start, maxRssi, binWidth)[i].0 < InitialBins(start, maxRssi, binWidth)[j].0
    decreases maxRssi - start + binWidth
  {
    if start <= maxRssi {
      var rest := InitialBins(start + binWidth, maxRssi, binWidth);
      var r := InitialBins(start, maxRssi, binWidth);
      assert r == [(start, 0)] + rest;
      InitialBinsShape(start + binWidth, maxRssi, binWidth);
      forall i | 0 < i < |r| ensures r[i].1 == 0 && start < r[i].0 {
        assert r[i] == rest[i - 1];
      }
      forall i, j | 0 <= i < j < |r| ensures r[i].0 < r[j].0 {
        if i > 0 {
          assert r[i] == rest[i - 1] && r[j] == rest[j - 1];
        }
      }
    }
  }

  /** The keys of the initial bins are exactly the grid points of the range. */
  lemma {:induction false} InitialBinsKeys(start: int, maxRssi: int, binWidth: int, k: int)
    requires binWidth > 0
    ensures k in Keys(InitialBins(start, maxRssi, binWidth)) <==> IsBinStart(k, start, maxRssi, binWidth)
    decreases maxRssi - start + binWidth
  {
    if start <= maxRssi {
      var rest := InitialBins(start + binWidth, maxRssi, binWidth);
      assert Keys(InitialBins(start, maxRssi, binWidth)) == [start] + Keys(rest);
      InitialBinsKeys(start + binWidth, maxRssi, binWidth, k);
      IsBinStartStep(k, start, maxRssi, binWidth);
    }
  }

  /** A grid point from `start` is either `start` itself or a grid point from the next
      bin on. */
  lemma IsBinStartStep(k: int, start: int, maxRssi: int, binWidth: int)
    requires binWidth > 0
    requires start <= maxRssi
    ensures IsBinStart(k, start, maxRssi, binWidth)
      <==> k == start || IsBinStart(k, start + binWidth, maxRssi, binWidth)
  {
    ShiftModulo(k - start, binWidth);
    assert k - (start + binWidth) == (k - start) - binWidth;
    if k > start && (k - start) % binWidth == 0 {
      PositiveMultiple(k - start, binWidth);
    }
  }

  lemma PositiveMultiple(x: int, w: int)
    requires w > 0 && x > 0 && x % w == 0
    ensures x >= w
  {
    assert x == (x / w) * w + x % w;
    if x / w >= 1 {
      MulAtLeast(x / w, w);
    }
  }

  /** The bins of a histogram of range [minRssi, maxRssi]. */
  function Grid(minRssi: int, maxRssi: int, binWidth: int): seq<(int, nat)>
    requires binWidth > 0
  {
    InitialBins(minRssi, maxRssi, binWidth)
  }

  /** The grid has no start twice. */
  lemma GridValid(minRssi: int, maxRssi: int, binWidth: int)
    requires binWidth > 0
    ensures Valid(Grid(minRssi, maxRssi, binWidth))
  {
    var g := Grid(minRssi, maxRssi, binWidth);
    InitialBinsShape(minRssi, maxRssi, binWidth);
    var ks := Keys(g);
    forall i, j | 0 <= i < j < |ks| ensures ks[i] != ks[j] {
      assert ks[i] == g[i].0 && ks[j] == g[j].0;
    }
  }

  /** The representation invariant of a constructed histogram: the bin keys are exactly
      the grid, in grid order, and `totalCount` is the sum of the bin counts. */
  ghost predicate WellFormed(h: Histogram) {
    && h.binWidth > 0
    && Keys(h.bins) == Keys(Grid(h.minRssi, h.maxRssi, h.binWidth))
    && h.totalCount == SumCounts(h.bins)
  }

  /** An in-range sample always lands on a grid point. */
  lemma InRangeBinIsGridPoint(rssi: int, minRssi: int, maxRssi: int, binWidth: int)
    requires binWidth > 0
    requires minRssi <= rssi <= maxRssi
    ensures IsBinStart(BinStart(rssi, minRssi, binWidth), minRssi, maxRssi, binWidth)
    ensures BinStart(rssi, minRssi, binWidth) in Keys(Grid(minRssi, maxRssi, binWidth))
  {
    var x := rssi - minRssi;
    var q := x / binWidth;
    assert x == q * binWidth + x % binWidth;
    assert q >= 0;
    assert q * binWidth >= 0;
    BinStartOnGrid(rssi, minRssi, binWidth);
    InitialBinsKeys(minRssi, maxRssi, binWidth, BinStart(rssi, minRssi, binWidth));
  }

  /** One step of the construction loop: a sample outside the range is skipped; an
      in-range sample adds one to its bin and to `totalCount`. */
  function AddSample(h: Histogram, rssi: int): (r: Histogram)
    requires WellFormed(h)
    ensures WellFormed(r)
    ensures r.binWidth == h.binWidth && r.minRssi == h.minRssi && r.maxRssi == h.maxRssi
  {
    if rssi < h.minRssi || rssi > h.maxRssi then h
    else
      var b := BinStart(rssi, h.minRssi, h.binWidth);
      var n := GetOrDefault(h.bins, b, 0) + 1;
      InRangeBinIsGridPoint(rssi, h.minRssi, h.maxRssi, h.binWidth);
      AddSampleKeepsInvariant(h, b, n);
      h.(bins := Put(h.bins, b, n), totalCount := h.totalCount + 1)
  }

  lemma AddSampleKeepsInvariant(h: Histogram, b: int, n: nat)
    requires WellFormed(h)
    requires b in Keys(h.bins)
    requires n == Get(h.bins, b).value + 1
    ensures WellFormed(h.(bins := Put(h.bins, b, n), totalCount := h.totalCount + 1))
  {
    GridValid(h.minRssi, h.maxRssi, h.binWidth);
    SumCountsPut(h.bins, b, n);
  }

  /** A sample outside the range changes nothing; an in-range sample increments exactly
      its own bin by one, leaves every other bin as it was, and increments `totalCount`. */
  lemma AddSampleEffect(h: Histogram, rssi: int)
    requires WellFormed(h)
    ensures rssi < h.minRssi || rssi > h.maxRssi ==> AddSample(h, rssi) == h
    ensures h.minRssi <= rssi <= h.maxRssi ==>
      var b := BinStart(rssi, h.minRssi, h.binWidth);
      var r := AddSample(h, rssi);
      && b in Keys(h.bins)
      && r.totalCount == h.totalCount + 1
      && Get(r.bins, b) == Some(Get(h.bins, b).value + 1)
      && forall k :: k != b ==> Get(r.bins, k) == Get(h.bins, k)
  {
    if h.minRssi <= rssi <= h.maxRssi {
      InRangeBinIsGridPoint(rssi, h.minRssi, h.maxRssi, h.binWidth);
    }
  }

  /** The construction loop over all samples, in order. */
  function AddAll(h: Histogram, samples: seq<int>): (r: Histogram)
    requires WellFormed(h)
    ensures WellFormed(r)
    ensures r.binWidth == h.binWidth && r.minRssi == h.minRssi && r.maxRssi == h.maxRssi
    decreases |samples|
  {
    if |samples| == 0 then h else AddAll(AddSample(h, samples[0]), samples[1..])
  }

  /** Reference count: the number of samples in [minRssi, maxRssi]. */
  function InRangeCount(samples: seq<int>, minRssi: int, maxRssi: int): nat {
    if |samples| == 0 then 0
    else (if minRssi <= samples[0] <= maxRssi then 1 else 0) + InRangeCount(samples[1..], minRssi, maxRssi)
  }

  /** Reference count: the number of in-range samples whose bin starts at `b`. */
  function CountInBin(samples: seq<int>, b: int, minRssi: int, maxRssi: int, binWidth: int): nat
    requires binWidth > 0
  {
    if |samples| == 0 then 0
    else
      (if minRssi <= samples[0] <= maxRssi && BinStart(samples[0], minRssi, binWidth) == b then 1 else 0)
      + CountInBin(samples[1..], b, minRssi, maxRssi, binWidth)
  }

  /** The count stored in bin `k`, 0 for a key the histogram does not hold. */
  function Count(h: Histogram, k: int): nat {
    GetOrDefault<int, nat>(h.bins, k, 0)
  }

  lemma {:induction false} AddAllTotal(h: Histogram, samples: seq<int>)
    requires WellFormed(h)
    decreases |samples|
    ensures AddAll(h, samples).totalCount == h.totalCount + InRangeCount(samples, h.minRssi, h.maxRssi)
  {
    if |samples| > 0 {
      var h' := AddSample(h, samples[0]);
      assert h'.totalCount == h.totalCount + (if h.minRssi <= samples[0] <= h.maxRssi then 1 else 0) by {
        AddSampleEffect(h, samples[0]);
      }
      AddAllTotal(h', samples[1..]);
    }
  }

  /** What the construction loop adds to one bin: the bin grows by the number of samples
      that fall into it. */
  lemma {:induction false} AddAllCountAt(h: Histogram, samples: seq<int>, k: int)
    requires WellFormed(h)
    decreases |samples|
    ensures Count(AddAll(h, samples), k) == Count(h, k) + CountInBin(samples, k, h.minRssi, h.maxRssi, h.binWidth)
  {
    if |samples| > 0 {
      var h', rest := AddSample(h, samples[0]), samples[1..];
      SampleCountStep(h, samples[0], k);
      AddAllCountAt(h', rest, k);
    }
  }

  /** One step of the construction loop seen from a single bin `k`: the bin grows by one
      exactly when the sample is in range and falls into it. */
  lemma SampleCountStep(h: Histogram, rssi: int, k: int)
    requires WellFormed(h)
    ensures Count(AddSample(h, rssi), k)
         == Count(h, k) + (if h.minRssi <= rssi <= h.maxRssi && BinStart(rssi, h.minRssi, h.binWidth) == k then 1 else 0)
  {
    AddSampleEffect(h, rssi);
  }

  /** The histogram with every grid bin at zero. */
  function Empty(binWidth: int, minRssi: int, maxRssi: int): (h: Histogram)
    requires binWidth > 0
    ensures WellFormed(h)
  {
    var g := Grid(minRssi, maxRssi, binWidth);
    assert SumCounts(g) == 0 by {
      InitialBinsShape(minRssi, maxRssi, binWidth);
      ZeroCounts(g);
    }
    Histogram(binWidth, minRssi, maxRssi, g, 0)
  }

  lemma {:induction false} ZeroCounts(e: seq<(int, nat)>)
    requires forall i :: 0 <= i < |e| ==> e[i].1 == 0
    ensures SumCounts(e) == 0
  {
    if |e| > 0 {
      ZeroCounts(e[1..]);
    }
  }

  /** The histogram constructor: rejects a non-positive bin width; otherwise bins every
      in-range sample on the grid of the range and drops the others. */
  function Build(samples: seq<int>, binWidth: int, minRssi: int, maxRssi: int): (r: Result<Histogram, HistogramError>)
    ensures r.Failure? <==> binWidth <= 0
    ensures r.Success? ==> WellFormed(r.value)
    ensures r.Success? ==>
      && r.value.binWidth == binWidth && r.value.minRssi == minRssi && r.value.maxRssi == maxRssi
      && r.value.totalCount == InRangeCount(samples, minRssi, maxRssi)
    ensures r.Success? ==> forall k ::
      Get<int, nat>(r.value.bins, k)
        == if IsBinStart(k, minRssi, maxRssi, binWidth)
           then Some(CountInBin(samples, k, minRssi, maxRssi, binWidth))
           else None
  {
    if binWidth <= 0 then Failure(NonPositiveBinWidth)
    else
      var h := Empty(binWidth, minRssi, maxRssi);
      BuiltBins(samples, binWidth, minRssi, maxRssi);
      var r := AddAll(h, samples);
      Success(r)
  }

  /** The bins built from the all-zero grid hold, for each grid point, the number of
      samples in that bin, and nothing off the grid. */
  lemma BuiltBins(samples: seq<int>, binWidth: int, minRssi: int, maxRssi: int)
    requires binWidth > 0
    ensures var r := AddAll(Empty(binWidth, minRssi, maxRssi), samples);
      && r.totalCount == InRangeCount(samples, minRssi, maxRssi)
      && forall k :: Get<int, nat>(r.bins, k)
           == if IsBinStart(k, minRssi, maxRssi, binWidth)
              then Some(CountInBin(samples, k, minRssi, maxRssi, binWidth))
              else None
  {
    AddAllTotal(Empty(binWidth, minRssi, maxRssi), samples);
    forall k {
      BuiltBinAt(samples, binWidth, minRssi, maxRssi, k);
    }
  }

  lemma BuiltBinAt(samples: seq<int>, binWidth: int, minRssi: int, maxRssi: int, k: int)
    requires binWidth > 0
    ensures Get<int, nat>(AddAll(Empty(binWidth, minRssi, maxRssi), samples).bins, k)
      == if IsBinStart(k, minRssi, maxRssi, binWidth)
         then Some(CountInBin(samples, k, minRssi, maxRssi, binWidth))
         else None
  {
    var h := Empty(binWidth, minRssi, maxRssi);
    var r := AddAll(h, samples);
    assert k in Keys(r.bins) <==> IsBinStart(k, minRssi, maxRssi, binWidth) by {
      InitialBinsKeys(minRssi, maxRssi, binWidth, k);
    }
    assert Count(r, k) == CountInBin(samples, k, minRssi, maxRssi, binWidth) by {
      AddAllCountAt(h, samples, k);
      EmptyCount(binWidth, minRssi, maxRssi, k);
    }
    CountIsGet(r.bins, k);
  }

  /** The all-zero grid holds 0 under every key. */
  lemma EmptyCount(binWidth: int, minRssi: int, maxRssi: int, k: int)
    requires binWidth > 0
    ensures Count(Empty(binWidth, minRssi, maxRssi), k) == 0
  {
    var g := Grid(minRssi, maxRssi, binWidth);
    if k in Keys(g) {
      var i :| 0 <= i < |g| && g[i].0 == k;
      GridValid(minRssi, maxRssi, binWidth);
      GetAt(g, i);
      InitialBinsShape(minRssi, maxRssi, binWidth);
    }
  }

  /** For a stored key the lookup is the count; for any other key it is absent. */
  lemma CountIsGet(e: seq<(int, nat)>, k: int)
    ensures Get<int, nat>(e, k) == if k in Keys(e) then Some(GetOrDefault<int, nat>(e, k, 0)) else None
  {
  }

  /** Kotlin's `getCountForRssi`: 0 outside the range, else the count of the bin the
      construction formula assigns to the value. */
  function CountForRssi(h: Histogram, rssi: int): nat
    requires h.binWidth > 0
  {
    if rssi < h.minRssi || rssi > h.maxRssi then 0
    else GetOrDefault(h.bins, BinStart(rssi, h.minRssi, h.binWidth), 0)
  }

  /** On a constructed histogram the count for a value is the number of samples that
      share its bin, and 0 for a value outside the range. */
  lemma CountForRssiCountsSamples(samples: seq<int>, binWidth: int, minRssi: int, maxRssi: int, rssi: int)
    requires binWidth > 0
    ensures
      var h := Build(samples, binWidth, minRssi, maxRssi).value;
      CountForRssi(h, rssi)
        == if minRssi <= rssi <= maxRssi
           then CountInBin(samples, BinStart(rssi, minRssi, binWidth), minRssi, maxRssi, binWidth)
           else 0
  {
    if minRssi <= rssi <= maxRssi {
      InRangeBinIsGridPoint(rssi, minRssi, maxRssi, binWidth);
    }
  }

  /** Kotlin's `getPmf`: the same bins, each count as a share of `totalCount`; all 0.0
      for a histogram with no samples. */
  function Pmf(h: Histogram): (r: seq<(int, real)>)
    ensures Keys(r) == Keys(h.bins)
    ensures h.totalCount == 0 ==> forall i :: 0 <= i < |r| ==> r[i].1 == 0.0
    ensures h.totalCount > 0 ==> forall i :: 0 <= i < |r| ==>
      r[i].1 * (h.totalCount as real) == h.bins[i].1 as real
  {
    var t := h.totalCount;
    if t == 0 then seq(|h.bins|, i requires 0 <= i < |h.bins| => (h.bins[i].0, 0.0))
    else seq(|h.bins|, i requires 0 <= i < |h.bins| => (h.bins[i].0, h.bins[i].1 as real / t as real))
  }

  /** On a histogram whose total is the sum of its counts (every well-formed one) and
      that has samples, every probability lies in [0, 1] and the
      probabilities sum to 1. */
  lemma PmfIsDistribution(h: Histogram)
    requires h.totalCount == SumCounts(h.bins)
    requires h.totalCount > 0
    ensures forall i :: 0 <= i < |Pmf(h)| ==> 0.0 <= Pmf(h)[i].1 <= 1.0
    ensures SumValues(Pmf(h)) == 1.0
  {
    var r, t := Pmf(h), h.totalCount as real;
    PmfShares(h);
    SumOfShares(h.bins, r, t);
    ShareBounds(h.totalCount, h.totalCount);
    forall i | 0 <= i < |r| ensures 0.0 <= r[i].1 <= 1.0 {
      CountAtMostSum(h.bins, i);
      ShareBounds(h.bins[i].1, h.totalCount);
    }
  }

  /** With samples, each probability is the bin's count divided by the total. */
  lemma PmfShares(h: Histogram)
    requires h.totalCount > 0
    ensures |Pmf(h)| == |h.bins|
    ensures forall i :: 0 <= i < |h.bins| ==> Pmf(h)[i].1 == h.bins[i].1 as real / h.totalCount as real
  {
  }

  /** A count no larger than a positive total is a share in [0, 1], and the total is
      the share 1. */
  lemma ShareBounds(c: nat, total: nat)
    requires 0 < total
    requires c <= total
    ensures 0.0 <= c as real / total as real <= 1.0
    ensures c == total ==> c as real / total as real == 1.0
  {
  }

  /** Dividing every count by `t` divides the sum by `t`. */
  lemma {:induction false} SumOfShares(e: seq<(int, nat)>, s: seq<(int, real)>, t: real)
    requires t > 0.0
    requires |s| == |e|
    requires forall i :: 0 <= i < |e| ==> s[i].1 == e[i].1 as real / t
    ensures SumValues(s) == SumCounts(e) as real / t
  {
    if |e| > 0 {
      SumOfShares(e[1..], s[1..], t);
      AddShares(e[0].1 as real, SumCounts(e[1..]) as real, t);
    }
  }

  lemma AddShares(a: real, b: real, t: real)
    requires t > 0.0
    ensures a / t + b / t == (a + b) / t
  {
  }

  /** The worked examples of the bin formula: width 5 over [-100, 0] puts 0 in bin 0,
      -100 in bin -100 and -77 in bin -80; over [-100, -1] the top value -1 lands in the
      bin -5, which is a bin of that range. */
  lemma DocumentedBins()
    ensures BinStart(0, -100, 5) == 0
    ensures BinStart(-100, -100, 5) == -100
    ensures BinStart(-77, -100, 5) == -80
    ensures BinStart(-1, -100, 5) == -5
    ensures -5 in Keys(Grid(-100, -1, 5))
  {
    InRangeBinIsGridPoint(-1, -100, -1, 5);
  }
}
