/** The records the inference engine works on. The settings and the two enumerations
    of the settings mirror the Kotlin data model; the stored PMF rows, the known-AP rows
    and the measurement rows are the fields of the database entities the engine reads. */
module BayesianModels {

  /** How per-AP evidence is fused: all APs at once, or one after another. */
  datatype BayesianMode = Serial | Parallel

  /** How the guess is picked from the posterior; the only method is the arg-max. */
  datatype ParallelSelectionMethod = HighestProbability

  /** The user's prediction settings; `pmfBinWidth` selects which stored PMFs are used.
      There is no cut-off probability among them. */
  datatype BayesianSettings = BayesianSettings(
    mode: BayesianMode,
    selectionMethod: ParallelSelectionMethod,
    pmfBinWidth: int)

  /** The settings a fresh installation starts with. */
  const DefaultSettings: BayesianSettings := BayesianSettings(Parallel, HighestProbability, 5)

  /** Whether an access point is a fixed, stationary one (only those are used for
      inference) or any other kind. */
  datatype ApType = Fixed | NonFixed

  /** A known access point, identified by its BSSID prime. */
  datatype KnownApPrime = KnownApPrime(bssidPrime: string, apType: ApType)

  /** A bin width of a stored PMF. Stored PMFs are built by the histogram, which rejects
      a width that is not positive, so every stored width is positive. */
  type BinWidth = w: int | w > 0 witness 1

  /** A stored PMF: for one AP in one cell, the histogram counts per bin start. */
  datatype ApPmf = ApPmf(bssidPrime: string, cell: string, binWidth: BinWidth, binsData: seq<(int, nat)>)

  /** Whether a recorded scan belongs to the training or to the testing data. */
  datatype MeasurementType = Training | Testing

  /** A recorded scan event: its id, the cell it was recorded in and its purpose. */
  datatype MeasurementTime = MeasurementTime(timestampId: int, cell: string, measurementType: MeasurementType)

  /** One AP reading of a recorded scan event. */
  datatype ApMeasurement = ApMeasurement(timestampId: int, bssidPrime: string, rssi: int)
}
