/** The record shapes the pipeline passes around: a raw CSV row, a cleaned
    reading, the two control (checkpoint) records and a per-turbine summary. */
module Records {
  import opened Wrappers

  /** One data row of an input CSV file before cleaning. Every cell is text;
      `None` is an empty cell. */
  datatype RawRow = RawRow(
    timestamp: Option<string>,
    turbineId: Option<string>,
    windSpeed: Option<string>,
    windDirection: Option<string>,
    powerOutput: Option<string>)

  /** A reading that survived cleaning, with its canonical types. Timestamps
      are whole seconds on a linear time line. */
  datatype CleanedReading = CleanedReading(
    timestamp: int,
    turbineId: int,
    windSpeed: real,
    windDirection: int,
    powerOutput: real)

  /** A row of the `load_control` table: how far one input file has been
      loaded by one pipeline version. */
  datatype LoadControl = LoadControl(
    id: int,
    pipelineVersion: int,
    inputFileName: string,
    lastLoadedLineNumber: int)

  /** A row of the `statistics_control` table: one closed window `[fromDate, toDate)`. */
  datatype StatisticsControl = StatisticsControl(
    id: int,
    pipelineVersion: int,
    statsVersion: int,
    fromDate: int,
    toDate: int)

  /** One row of the result of `calculate_stats`. */
  datatype TurbineStats = TurbineStats(
    turbineId: int,
    minPower: real,
    maxPower: real,
    average: real,
    hasAnomalyReading: bool)

  /** A `cleaned_reading` row: a reading tagged with the load that wrote it. */
  datatype StoredReading = StoredReading(loadId: int, reading: CleanedReading)

  /** A `statistics` row: a summary tagged with the window that produced it. */
  datatype StoredStatistics = StoredStatistics(statisticsControlId: int, stats: TurbineStats)
}
