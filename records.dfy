/**
 * The data the migration reads: one record per activity file of the
 * source export, and the directory layout it lives in.
 */
module Records {

  datatype Option<T> = None | Some(value: T) {
    /** Python's `d.get(key, default)` once the lookup has produced this value. */
    function GetOr(default: T): T
    {
      if Some? then value else default
    }
  }

  /** The directory holding one activity record per `*.json` file. */
  const DATA_DIR: string := "./Sport-sessions"

  /** The directory holding the GPS track of each activity. */
  const GPS_DATA_DIR: string := "./Sport-sessions/GPS-data"

  /**
   * The attributes of a `track_metrics` feature that the structured import
   * reads. `paceSecondsPerKm` is the whole number of seconds per kilometre
   * (the source multiplies seconds per metre by 1000 and truncates); the two
   * speeds are already rendered with two decimals and the elevations as
   * Python prints them.
   */
  datatype TrackMetrics = TrackMetrics(
    distance: int,
    paceSecondsPerKm: int,
    averageSpeed: string,
    maxSpeed: string,
    elevationGain: string,
    elevationLoss: string)

  /** One entry of a record's `features` list; `attributes` is None when they are missing. */
  datatype Feature = Feature(kind: string, attributes: Option<TrackMetrics>)

  /**
   * One activity record. `id`, `feeling` and `gpxPath` are keys that may be
   * absent (`None`); Python's `None == None` makes two absent ids equal, and
   * so does `Option` equality here.
   */
  datatype Record = Record(
    id: Option<string>,
    sportTypeId: int,
    startTime: int,
    duration: int,
    pause: int,
    calories: int,
    feeling: Option<string>,
    features: seq<Feature>,
    gpxPath: Option<string>)

  /**
   * A `.json` file listed directly under `DATA_DIR`; `content` is None when
   * `json.load` fails or yields something other than a JSON object.
   */
  datatype SourceFile = SourceFile(path: string, content: Option<Record>)

  /**
   * The part of the filesystem the migration touches: the `.json` files in
   * the order the directory listing returns them, and the set of other paths
   * that exist (the track files among them).
   */
  datatype Disk = Disk(jsons: seq<SourceFile>, tracks: set<string>)
}
