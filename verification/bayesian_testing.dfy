/** The pure logic of the testing screen's `runBayesianTesting` and `updateUIState`: each
    recorded TESTING scan is turned into a live map, the predictor is run on it, the
    most probable cell is compared with the cell the scan was recorded in, and the
    number of correct guesses is reported with the accuracy. */
module BayesianTesting {
  import opened Wrappers
  import opened LinkedMaps
  import opened BayesianModels
  import opened BayesianPredictor
  import opened PredictorTheorems
  import opened Decision
  import opened Products

  /** The recorded scan events of type TESTING, in their stored order. */
  function TestingEvents(events: seq<MeasurementTime>): (r: seq<MeasurementTime>)
    ensures forall e :: e in r <==> e in events && e.measurementType == Testing
    ensures |r| <= |events|
  {
    if |events| == 0 then []
    else if events[0].measurementType == Testing then [events[0]] + TestingEvents(events[1..])
    else TestingEvents(events[1..])
  }

  /** The measurements of one scan event, in their stored order (`groupBy { it.timestampId }`
      keeps the order within each group; a missing group is the empty list). */
  function MeasurementsOf(all: seq<ApMeasurement>, timestampId: int): (r: seq<ApMeasurement>)
    ensures forall m :: m in r <==> m in all && m.timestampId == timestampId
  {
    if |all| == 0 then []
    else if all[0].timestampId == timestampId then [all[0]] + MeasurementsOf(all[1..], timestampId)
    else MeasurementsOf(all[1..], timestampId)
  }

  /** Grouping keeps the stored order and every duplicate: a single measurement is kept
      alone or dropped, and grouping a concatenation groups each part in turn. */
  lemma {:induction false} MeasurementsOfConcat(a: seq<ApMeasurement>, b: seq<ApMeasurement>, timestampId: int)
    ensures MeasurementsOf(a + b, timestampId) == MeasurementsOf(a, timestampId) + MeasurementsOf(b, timestampId)
    ensures |a| == 1 ==> MeasurementsOf(a, timestampId) == if a[0].timestampId == timestampId then a else []
    decreases |a|
  {
    if |a| > 0 {
      assert (a + b)[1..] == a[1..] + b;
      assert (a + b)[0] == a[0];
      MeasurementsOfConcat(a[1..], b, timestampId);
    } else {
      assert a + b == b;
    }
  }

  /** The event's live map: each measurement in turn stores its RSSI under its prime, so
      a later measurement of the same prime overwrites an earlier one. */
  function EventLiveMap(ms: seq<ApMeasurement>): (m: seq<(string, int)>)
    ensures Valid(m)
    decreases |ms|
  {
    if |ms| == 0 then []
    else
      var m := EventLiveMap(ms[..|ms| - 1]);
      var last := ms[|ms| - 1];
      PutValid(m, last.bssidPrime, last.rssi);
      Put(m, last.bssidPrime, last.rssi)
  }

  /** Measurement `i` is the last one of prime `p`. */
  ghost predicate LastOf(ms: seq<ApMeasurement>, p: string, i: int) {
    && 0 <= i < |ms|
    && ms[i].bssidPrime == p
    && forall j :: i < j < |ms| ==> ms[j].bssidPrime != p
  }

  /** One more measurement changes only the entry of its own prime. */
  lemma EventLiveMapStep(ms: seq<ApMeasurement>, p: string)
    requires |ms| > 0
    ensures Get(EventLiveMap(ms), p)
         == if ms[|ms| - 1].bssidPrime == p then Some(ms[|ms| - 1].rssi) else Get(EventLiveMap(ms[..|ms| - 1]), p)
  {
  }

  /** No measurement of the event is of prime `p`. */
  ghost predicate Unmeasured(ms: seq<ApMeasurement>, p: string) {
    forall i :: 0 <= i < |ms| ==> ms[i].bssidPrime != p
  }

  /** `p` is unmeasured in a list exactly when it is unmeasured in all but the last
      measurement and the last one is of another prime. */
  lemma UnmeasuredStep(ms: seq<ApMeasurement>, p: string)
    requires |ms| > 0
    ensures Unmeasured(ms, p) <==> Unmeasured(ms[..|ms| - 1], p) && ms[|ms| - 1].bssidPrime != p
  {
    var init := ms[..|ms| - 1];
    assert forall i :: 0 <= i < |init| ==> ms[i] == init[i];
  }

  /** The live map has an entry exactly for the primes measured in the event. */
  lemma {:induction false} EventLiveMapKeys(ms: seq<ApMeasurement>, p: string)
    ensures Get(EventLiveMap(ms), p).None? <==> Unmeasured(ms, p)
    decreases |ms|
  {
    if |ms| > 0 {
      EventLiveMapKeys(ms[..|ms| - 1], p);
      EventLiveMapStep(ms, p);
      UnmeasuredStep(ms, p);
    }
  }

  /** A measurement of another prime at the end does not change which measurement of
      `p` is the last. */
  lemma LastOfExtended(ms: seq<ApMeasurement>, p: string, i: int)
    requires |ms| > 0 && ms[|ms| - 1].bssidPrime != p
    requires LastOf(ms[..|ms| - 1], p, i)
    ensures LastOf(ms, p, i)
  {
    var init := ms[..|ms| - 1];
    forall j | i < j < |ms| ensures ms[j].bssidPrime != p {
      if j < |init| {
        assert ms[j] == init[j];
      }
    }
  }

  /** The entry of a prime is the RSSI of its last measurement in the event: the lemma
      returns that measurement's position. */
  lemma {:induction false} EventLiveMapIsLastWrite(ms: seq<ApMeasurement>, p: string) returns (i: int)
    requires Get(EventLiveMap(ms), p).Some?
    ensures LastOf(ms, p, i)
    ensures ms[i].rssi == Get(EventLiveMap(ms), p).value
    decreases |ms|
  {
    if ms[|ms| - 1].bssidPrime == p {
      EventLiveMapStep(ms, p);
      i := |ms| - 1;
    } else {
      LiveMapKept(ms, p);
      i := EventLiveMapIsLastWrite(ms[..|ms| - 1], p);
      LastWriteKept(ms, p, i);
    }
  }

  /** A measurement of another prime at the end leaves the entry of `p` alone. */
  lemma LiveMapKept(ms: seq<ApMeasurement>, p: string)
    requires |ms| > 0 && ms[|ms| - 1].bssidPrime != p
    ensures Get(EventLiveMap(ms), p) == Get(EventLiveMap(ms[..|ms| - 1]), p)
  {
    EventLiveMapStep(ms, p);
  }

  /** The last write of `p` before a measurement of another prime is still its last
      write after it. */
  lemma LastWriteKept(ms: seq<ApMeasurement>, p: string, i: int)
    requires |ms| > 0 && ms[|ms| - 1].bssidPrime != p
    requires LastOf(ms[..|ms| - 1], p, i)
    ensures LastOf(ms, p, i) && ms[i] == ms[..|ms| - 1][i]
  {
    LastOfExtended(ms, p, i);
  }

  /** What evaluating one TESTING event ends with. */
  datatype EventStatus = NoApsDetected | NoPredictionPossible | Correct | Incorrect

  /** One turn of the evaluation loop: no measurement, or an empty posterior, stops the
      event early; otherwise the first cell with the highest posterior is compared with
      the event's cell. */
  function EvaluateEvent(event: MeasurementTime, all: seq<ApMeasurement>, settings: BayesianSettings,
                         pmfs: seq<ApPmf>, known: seq<KnownApPrime>, cells: seq<string>): EventStatus
  {
    var live := EventLiveMap(MeasurementsOf(all, event.timestampId));
    Verdict(live, Predict(live, settings, pmfs, known, cells), event.cell)
  }

  /** The outcome of an event with live map `live`, posterior `post` and recorded cell
      `cell`. */
  function Verdict(live: seq<(string, int)>, post: seq<(string, real)>, cell: string): EventStatus {
    if |live| == 0 then NoApsDetected
    else if |post| == 0 then NoPredictionPossible
    else if MaxByOrNull(post) == Some(cell) then Correct
    else Incorrect
  }

  /** The verdict is Correct exactly when there is a live reading, the posterior is
      non-empty, and the first cell of maximal posterior is the recorded cell. */
  lemma VerdictCorrect(live: seq<(string, int)>, post: seq<(string, real)>, cell: string)
    ensures Verdict(live, post, cell) == Correct <==>
      |live| > 0 && |post| > 0 && post[ArgMaxIndex(post)].0 == cell
  {
  }

  /** An event's live map is empty exactly when no measurement was stored for it. */
  lemma EventLiveMapEmpty(all: seq<ApMeasurement>, timestampId: int)
    ensures |EventLiveMap(MeasurementsOf(all, timestampId))| == 0 <==>
      forall m :: m in all ==> m.timestampId != timestampId
  {
    var ms := MeasurementsOf(all, timestampId);
    if |ms| > 0 {
      assert ms[0] in ms;
      EventLiveMapKeys(ms, ms[0].bssidPrime);
      assert ms[0].bssidPrime in Keys(EventLiveMap(ms));
    }
  }

  /** An event is counted correct exactly when some measurement was stored for it, the
      predictor's gates are open, and the event's cell is the first cell of maximal
      posterior; a correct cell is always one of the cells. */
  lemma EvaluateEventCorrect(event: MeasurementTime, all: seq<ApMeasurement>, settings: BayesianSettings,
                             pmfs: seq<ApPmf>, known: seq<KnownApPrime>, cells: seq<string>)
    ensures var live := EventLiveMap(MeasurementsOf(all, event.timestampId));
      var post := Predict(live, settings, pmfs, known, cells);
      EvaluateEvent(event, all, settings, pmfs, known, cells) == Correct <==>
        && (exists m :: m in all && m.timestampId == event.timestampId)
        && |post| > 0
        && post[ArgMaxIndex(post)].0 == event.cell
    ensures EvaluateEvent(event, all, settings, pmfs, known, cells) == Correct ==> event.cell in cells
  {
    var live := EventLiveMap(MeasurementsOf(all, event.timestampId));
    EventLiveMapEmpty(all, event.timestampId);
    var post := Predict(live, settings, pmfs, known, cells);
    VerdictCorrect(live, post, event.cell);
    if |post| > 0 {
      PredictIsDistribution(live, settings, pmfs, known, cells);
      assert post[ArgMaxIndex(post)].0 in Dedup(cells);
    }
  }

  /** The number of events of `testing` that `accepted` holds for. */
  function CountWhere(testing: seq<MeasurementTime>, accepted: MeasurementTime -> bool): (n: nat)
    ensures n <= |testing|
    ensures n == |testing| <==> forall i :: 0 <= i < |testing| ==> accepted(testing[i])
    ensures n == 0 <==> forall i :: 0 <= i < |testing| ==> !accepted(testing[i])
    decreases |testing|
  {
    if |testing| == 0 then 0
    else
      assert forall i :: 0 < i < |testing| ==> testing[i] == testing[1..][i - 1];
      (if accepted(testing[0]) then 1 else 0) + CountWhere(testing[1..], accepted)
  }

  /** Taking one event out of the list takes its own contribution out of the count. */
  lemma {:induction false} CountWhereRemoveAt(t: seq<MeasurementTime>, j: int, accepted: MeasurementTime -> bool)
    requires 0 <= j < |t|
    ensures CountWhere(t, accepted) == (if accepted(t[j]) then 1 else 0) + CountWhere(t[..j] + t[j + 1..], accepted)
    decreases j
  {
    if j > 0 {
      CountWhereRemoveAt(t[1..], j - 1, accepted);
      RemoveAtTail(t, j);
    } else {
      assert t[..0] + t[1..] == t[1..];
    }
  }

  /** Removing a later position keeps the head and removes from the tail. */
  lemma RemoveAtTail(t: seq<MeasurementTime>, j: int)
    requires 0 < j < |t|
    ensures |t[..j] + t[j + 1..]| > 0
    ensures (t[..j] + t[j + 1..])[0] == t[0]
    ensures (t[..j] + t[j + 1..])[1..] == t[1..][..j - 1] + t[1..][j..]
  {
    assert t[1..][..j - 1] + t[1..][j..] == (t[..j] + t[j + 1..])[1..];
  }

  /** The count does not depend on the order the events are visited. */
  lemma {:induction false} CountWherePermutation(t1: seq<MeasurementTime>, t2: seq<MeasurementTime>,
                                                 accepted: MeasurementTime -> bool)
    requires multiset(t1) == multiset(t2)
    ensures CountWhere(t1, accepted) == CountWhere(t2, accepted)
    decreases |t1|
  {
    if |t1| == 0 {
      assert |t2| == |multiset(t2)| == 0;
    } else {
      var j := RemoveFirstMatch(t1, t2);
      CountWherePermutation(t1[1..], t2[..j] + t2[j + 1..], accepted);
      CountWhereRemoveAt(t2, j, accepted);
    }
  }

  /** Whether an event is guessed correctly. */
  function IsCorrect(all: seq<ApMeasurement>, settings: BayesianSettings, pmfs: seq<ApPmf>,
                     known: seq<KnownApPrime>, cells: seq<string>): MeasurementTime -> bool {
    e => EvaluateEvent(e, all, settings, pmfs, known, cells) == Correct
  }

  /** The number of correctly guessed events. */
  function CountCorrect(testing: seq<MeasurementTime>, all: seq<ApMeasurement>, settings: BayesianSettings,
                        pmfs: seq<ApPmf>, known: seq<KnownApPrime>, cells: seq<string>): (n: nat)
    ensures n <= |testing|
    ensures n == |testing| <==>
      forall i :: 0 <= i < |testing| ==> IsCorrect(all, settings, pmfs, known, cells)(testing[i])
    ensures n == 0 <==>
      forall i :: 0 <= i < |testing| ==> !IsCorrect(all, settings, pmfs, known, cells)(testing[i])
  {
    CountWhere(testing, IsCorrect(all, settings, pmfs, known, cells))
  }

  /** The count of correct events does not depend on the order the events are visited. */
  lemma CountCorrectPermutation(t1: seq<MeasurementTime>, t2: seq<MeasurementTime>,
                                all: seq<ApMeasurement>, settings: BayesianSettings,
                                pmfs: seq<ApPmf>, known: seq<KnownApPrime>, cells: seq<string>)
    requires multiset(t1) == multiset(t2)
    ensures CountCorrect(t1, all, settings, pmfs, known, cells) == CountCorrect(t2, all, settings, pmfs, known, cells)
  {
    CountWherePermutation(t1, t2, IsCorrect(all, settings, pmfs, known, cells));
  }

  /** When the predictor's gates are closed no event can be counted correct. */
  lemma ClosedGatesCountNothing(testing: seq<MeasurementTime>, all: seq<ApMeasurement>,
                                settings: BayesianSettings, pmfs: seq<ApPmf>,
                                known: seq<KnownApPrime>, cells: seq<string>)
    requires || (forall i :: 0 <= i < |pmfs| ==> pmfs[i].binWidth != settings.pmfBinWidth)
             || (forall i :: 0 <= i < |known| ==> known[i].apType != Fixed)
             || |cells| == 0
    ensures CountCorrect(testing, all, settings, pmfs, known, cells) == 0
  {
    var accepted := IsCorrect(all, settings, pmfs, known, cells);
    forall i | 0 <= i < |testing| ensures !accepted(testing[i]) {
      var live := EventLiveMap(MeasurementsOf(all, testing[i].timestampId));
      PredictIsDistribution(live, settings, pmfs, known, cells);
    }
  }

  /** The figures `runBayesianTesting` passes to `updateUIState`. */
  datatype TestingReport = TestingReport(correct: nat, total: nat)

  /** The evaluation run: no report when there is no TESTING event; otherwise the number
      of correct events and the number of TESTING events, every one of which counts
      towards the total whether or not a prediction was possible. */
  function RunBayesianTesting(events: seq<MeasurementTime>, all: seq<ApMeasurement>, settings: BayesianSettings,
                              pmfs: seq<ApPmf>, known: seq<KnownApPrime>, cells: seq<string>): (r: Option<TestingReport>)
    ensures r.None? <==> forall e :: e in events ==> e.measurementType != Testing
    ensures r.Some? ==> 0 < r.value.total <= |events| && r.value.correct <= r.value.total
    ensures r.Some? ==> r.value.total == |TestingEvents(events)|
    ensures r.Some? ==> r.value.correct == CountCorrect(TestingEvents(events), all, settings, pmfs, known, cells)
  {
    var testing := TestingEvents(events);
    if |testing| == 0 then None
    else
      assert testing[0] in testing;
      Some(TestingReport(CountCorrect(testing, all, settings, pmfs, known, cells), |testing|))
  }

  /** Filtering a concatenation filters each part. */
  lemma {:induction false} TestingEventsConcat(a: seq<MeasurementTime>, b: seq<MeasurementTime>)
    ensures TestingEvents(a + b) == TestingEvents(a) + TestingEvents(b)
  {
    if |a| > 0 {
      assert (a + b)[1..] == a[1..] + b;
      TestingEventsConcat(a[1..], b);
    } else {
      assert a + b == b;
    }
  }

  /** Events of other types never change the report. */
  lemma TrainingEventIgnored(events: seq<MeasurementTime>, e: MeasurementTime, all: seq<ApMeasurement>,
                             settings: BayesianSettings, pmfs: seq<ApPmf>, known: seq<KnownApPrime>, cells: seq<string>)
    requires e.measurementType != Testing
    ensures RunBayesianTesting(events + [e], all, settings, pmfs, known, cells)
         == RunBayesianTesting(events, all, settings, pmfs, known, cells)
  {
    TestingEventsConcat(events, [e]);
    assert TestingEvents([e]) == [];
    assert TestingEvents(events + [e]) == TestingEvents(events);
  }

  /** `updateUIState`'s accuracy in percent: 0 without events, otherwise the share of
      correct events times 100. */
  function Accuracy(correct: nat, total: nat): (a: real)
    requires correct <= total
    ensures 0.0 <= a <= 100.0
    ensures a == 100.0 <==> total > 0 && correct == total
    ensures a == 0.0 <==> correct == 0
  {
    if total > 0 then correct as real / total as real * 100.0 else 0.0
  }
}
