/** The frozen cleaning configuration, the cleaning errors, and the dataframe
    library's parsers, which the model receives as parameters. */
module Config {
  import opened Telemetry

  /** Mirrors `TimeCleanConfig`. `requiredNumericColumns` keeps the tuple's
      order and any repeats; the two dictionaries become maps. */
  datatype TimeCleanConfig = TimeCleanConfig(
    timestampColumn: string,
    requiredNumericColumns: seq<string>,
    renameMap: map<string, string>,
    plausibleRanges: map<string, (real, real)>,
    dropNegativeRop: bool,
    deduplicate: bool,
    sort: bool,
    fillMethod: string)

  /** The defaults a bare `TimeCleanConfig()` carries. */
  const DefaultConfig: TimeCleanConfig := TimeCleanConfig(
    "timestamp",
    ["hookload", "rpm", "torque", "flow", "spm", "standpipe_pressure",
     "wob", "bit_depth", "hole_depth", "rop"],
    map[],
    map[],
    true,
    true,
    true,
    "ffill_bfill")

  /** Why a cleaning run failed. The first three are the code's own
      `ValueError`s. The other two come from the dataframe library:
      `DuplicateColumn` when it refuses two columns of one name (a rename
      onto a taken name, or a declared numeric column listed twice), and
      `NoFillValue` when `fill_null` receives neither a value nor a strategy,
      as it does with the median of a column that has no value. */
  datatype CleanError =
    | MissingTimestampColumn
    | UnparsedTimestamp
    | UnknownFillMethod(name: string)
    | DuplicateColumn
    | NoFillValue

  /** The dataframe library's lenient text parsers: ISO-8601 text to a
      datetime in microseconds since the epoch, text to a 64-bit integer, and
      text to a float. Each answers `None` where the text does not parse, as
      the library yields null there. */
  datatype Parsers = Parsers(
    iso: string -> Option<int>,
    int64: string -> Option<int>,
    float64: string -> Option<real>)
}
