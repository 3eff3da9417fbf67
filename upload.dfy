/**
 * The two ways of sending one activity to the destination platform: a
 * multipart track upload (the one the batch uses) and the structured import
 * of an activity's summary. The remote service is a function from the
 * attempt's counter and the request to its response.
 */
module Upload {
  import opened Text
  import opened Records
  import opened Mapping

  /** What the remote service answers: a status with a body that is or is not a JSON object, or a transport exception. */
  datatype Response = Reply(status: int, bodyIsObject: bool) | Raised

  /** The form fields and header of one track upload. */
  datatype UploadRequest = UploadRequest(
    file: string,
    name: string,
    description: string,
    dataType: string,
    authorization: string)

  /**
   * What stays fixed during a run: the bearer token, the local ISO rendering
   * of a start time given in epoch milliseconds, and the remote service.
   */
  datatype Config = Config(
    token: string,
    localIso: int -> string,
    respond: (nat, UploadRequest) -> Response)

  /** How the track upload reads a response. */
  datatype Outcome = Uploaded | Duplicate | Rejected(status: int) | Failed

  /**
   * A 201 whose body is a JSON object is a successful upload; a 201 whose
   * body cannot be read as one raises inside the `try` and counts as a
   * failure, like a transport exception; 409 is a duplicate and every other
   * status a rejection.
   */
  function Classify(resp: Response): (o: Outcome)
    ensures o == Uploaded <==> resp == Reply(201, true)
    ensures o == Duplicate <==> resp.Reply? && resp.status == 409
    ensures o.Rejected? <==> resp.Reply? && resp.status != 201 && resp.status != 409
    ensures o.Rejected? ==> o.status == resp.status
    ensures o == Failed <==> resp == Raised || resp == Reply(201, false)
  {
    match resp
    case Raised => Failed
    case Reply(status, bodyIsObject) =>
      if status == 201 then (if bodyIsObject then Uploaded else Failed)
      else if status == 409 then Duplicate
      else Rejected(status)
  }

  /** The request `upload_gpx_activity` sends for a record whose track is at `path`. */
  function GpxRequest(rec: Record, path: string, cfg: Config): UploadRequest
  {
    UploadRequest(
      file := path,
      name := ActivityName(rec, cfg.localIso(rec.startTime)),
      description := GpxDescription(rec),
      dataType := "gpx",
      authorization := "Bearer " + cfg.token)
  }

  /**
   * One track upload: the script stops with an uncaught exception when the
   * record has no track path or the track file does not exist (it is opened
   * before the `try`); otherwise the service is asked once.
   */
  datatype Attempt = Aborted | Answered(outcome: Outcome)

  function UploadGpx(counter: nat, rec: Record, tracks: set<string>, cfg: Config): (a: Attempt)
    ensures a.Aborted? <==> rec.gpxPath.None? || rec.gpxPath.value !in tracks
  {
    if rec.gpxPath.None? || rec.gpxPath.value !in tracks then Aborted
    else Answered(Classify(cfg.respond(counter, GpxRequest(rec, rec.gpxPath.value, cfg))))
  }

  /**
   * A track upload succeeds exactly when the track exists and the service
   * answers the multipart request (the track file, the name, the
   * description, `data_type` "gpx" and the bearer token) with 201 and a JSON
   * object.
   */
  lemma UploadGpxSucceedsIff(counter: nat, rec: Record, tracks: set<string>, cfg: Config)
    ensures UploadGpx(counter, rec, tracks, cfg) == Answered(Uploaded) <==>
      rec.gpxPath.Some? && rec.gpxPath.value in tracks &&
      cfg.respond(counter, UploadRequest(
        file := rec.gpxPath.value,
        name := ActivityName(rec, cfg.localIso(rec.startTime)),
        description := GpxDescription(rec),
        dataType := "gpx",
        authorization := "Bearer " + cfg.token)) == Reply(201, true)
  {
  }

  /** The body the structured import posts when the record has track metrics. */
  datatype ImportBody = ImportBody(
    name: string,
    activityType: string,
    startDateLocal: string,
    elapsedTime: int,
    distance: int,
    description: string)

  /**
   * The state of `data` while `import_activity` walks the features: still the
   * empty dictionary, a body built from a `track_metrics` feature, or the
   * `KeyError` of a `track_metrics` feature without attributes, which ends
   * the script.
   */
  datatype ImportData = NoData | Data(body: ImportBody) | MissingAttributes

  /**
   * The structured description. Unlike the track upload's, the pause clause
   * comes after the elevations, just before the calories.
   */
  function ImportDescription(rec: Record, m: TrackMetrics): string
  {
    "Feeling: " + Feeling(rec)
    + ", average pace: " + FormatSeconds(m.paceSecondsPerKm) + " min/km"
    + ", average speed: " + m.averageSpeed + " km/h"
    + ", max. speed: " + m.maxSpeed + " km/h"
    + ", elevation gain: " + m.elevationGain + " m"
    + ", elevation loss: " + m.elevationLoss + " m"
    + PauseClause(rec.pause)
    + ", calories: " + IntToString(rec.calories)
  }

  function BodyFor(rec: Record, m: TrackMetrics, date: string): ImportBody
  {
    ImportBody(
      name := ActivityName(rec, date),
      activityType := ActivityType(rec.sportTypeId),
      startDateLocal := date + "Z",
      elapsedTime := TruncDiv(rec.duration, 1000),
      distance := m.distance,
      description := ImportDescription(rec, m))
  }

  predicate IsTrackMetrics(f: Feature) { f.kind == "track_metrics" }

  /**
   * What the feature loop has seen after the first `k` features: no
   * `track_metrics` feature yet, the attributes of the latest one, or one
   * without attributes, whose `KeyError` ends the script.
   */
  datatype Seen = NoTrackMetrics | LastMetrics(m: TrackMetrics) | BareTrackMetrics

  function SeenAfter(fs: seq<Feature>, k: nat): Seen
    requires k <= |fs|
  {
    if k == 0 then NoTrackMetrics
    else
      var before := SeenAfter(fs, k - 1);
      if before.BareTrackMetrics? || !IsTrackMetrics(fs[k - 1]) then before
      else match fs[k - 1].attributes
        case None => BareTrackMetrics
        case Some(m) => LastMetrics(m)
  }

  /** The body `import_activity` builds from the attributes of a `track_metrics` feature. */
  function Builder(rec: Record, date: string): TrackMetrics -> ImportBody
  {
    m => BodyFor(rec, m, date)
  }

  /** `data` once the loop has seen `seen`, each body built by `build`. */
  function Render(seen: Seen, build: TrackMetrics -> ImportBody): ImportData
  {
    match seen
    case NoTrackMetrics => NoData
    case LastMetrics(m) => Data(build(m))
    case BareTrackMetrics => MissingAttributes
  }

  /** `data` after the loop has visited the first `k` features. */
  function DataAfter(rec: Record, date: string, k: nat): ImportData
    requires k <= |rec.features|
  {
    Render(SeenAfter(rec.features, k), Builder(rec, date))
  }

  /**
   * The `for` loop of `import_activity`: every `track_metrics` feature
   * overwrites `data` with the body `build` makes of its attributes (in the
   * script, `Builder(rec, date)`), the others are skipped, and one without
   * attributes stops the script.
   */
  method BuildImportData(features: seq<Feature>, build: TrackMetrics -> ImportBody) returns (data: ImportData)
    ensures data == Render(SeenAfter(features, |features|), build)
  {
    data := NoData;
    for i := 0 to |features|
      invariant data == Render(SeenAfter(features, i), build)
      invariant !SeenAfter(features, i).BareTrackMetrics?
    {
      var f := features[i];
      if IsTrackMetrics(f) {
        if f.attributes.None? {
          data := MissingAttributes;
          BareStays(features, i + 1);
          return;
        }
        data := Data(build(f.attributes.value));
      }
    }
  }

  lemma {:induction false} BareStays(fs: seq<Feature>, k: nat)
    requires k <= |fs| && SeenAfter(fs, k).BareTrackMetrics?
    ensures SeenAfter(fs, |fs|).BareTrackMetrics?
    decreases |fs| - k
  {
    if k < |fs| {
      BareStays(fs, k + 1);
    }
  }

  /** Some `track_metrics` feature among the first `k` has no attributes. */
  predicate HasBareTrackMetrics(fs: seq<Feature>, k: nat)
    requires k <= |fs|
  {
    exists i :: 0 <= i < k && IsTrackMetrics(fs[i]) && fs[i].attributes.None?
  }

  /** The script stops in the loop exactly when some `track_metrics` feature has no attributes. */
  lemma {:induction false} SeenBareIff(fs: seq<Feature>, k: nat)
    requires k <= |fs|
    ensures SeenAfter(fs, k).BareTrackMetrics? <==> HasBareTrackMetrics(fs, k)
  {
    if k > 0 {
      SeenBareIff(fs, k - 1);
      if HasBareTrackMetrics(fs, k) && !HasBareTrackMetrics(fs, k - 1) {
        var i :| 0 <= i < k && IsTrackMetrics(fs[i]) && fs[i].attributes.None?;
        assert i == k - 1;
      }
    }
  }

  /** `data` stays the empty dictionary exactly when no feature is `track_metrics`. */
  lemma {:induction false} SeenNoneIff(fs: seq<Feature>, k: nat)
    requires k <= |fs|
    ensures SeenAfter(fs, k).NoTrackMetrics? <==> forall i :: 0 <= i < k ==> !IsTrackMetrics(fs[i])
  {
    if k > 0 {
      SeenNoneIff(fs, k - 1);
    }
  }

  /** The position of the last `track_metrics` feature among the first `k`. */
  function LastTrackMetrics(fs: seq<Feature>, k: nat): (r: Option<nat>)
    requires k <= |fs|
    ensures r.None? <==> forall j :: 0 <= j < k ==> !IsTrackMetrics(fs[j])
    ensures r.Some? ==> r.value < k && IsTrackMetrics(fs[r.value])
    ensures r.Some? ==> forall j :: r.value < j < k ==> !IsTrackMetrics(fs[j])
  {
    if k == 0 then None
    else if IsTrackMetrics(fs[k - 1]) then Some(k - 1)
    else LastTrackMetrics(fs, k - 1)
  }

  /** When the loop has kept attributes, they are those of the last `track_metrics` feature. */
  lemma {:induction false} SeenIsLast(fs: seq<Feature>, k: nat)
    requires k <= |fs| && SeenAfter(fs, k).LastMetrics?
    ensures var last := LastTrackMetrics(fs, k);
      last.Some? && fs[last.value].attributes == Some(SeenAfter(fs, k).m)
  {
    if !IsTrackMetrics(fs[k - 1]) {
      SeenIsLast(fs, k - 1);
    }
  }

  /**
   * The three ways the loop ends: the script stops exactly when some
   * `track_metrics` feature lacks attributes; `data` stays empty exactly when
   * there is no `track_metrics` feature; otherwise the body is the one built
   * from the attributes of the last `track_metrics` feature.
   */
  lemma ImportDataCases(rec: Record, date: string)
    ensures var fs := rec.features;
      var data := DataAfter(rec, date, |fs|);
      (data.MissingAttributes? <==> HasBareTrackMetrics(fs, |fs|)) &&
      (data.NoData? <==> forall i :: 0 <= i < |fs| ==> !IsTrackMetrics(fs[i])) &&
      (data.Data? ==>
         var last := LastTrackMetrics(fs, |fs|);
         last.Some? && fs[last.value].attributes.Some? &&
         data.body == BodyFor(rec, fs[last.value].attributes.value, date))
  {
    var fs := rec.features;
    SeenBareIff(fs, |fs|);
    SeenNoneIff(fs, |fs|);
    if SeenAfter(fs, |fs|).LastMetrics? {
      SeenIsLast(fs, |fs|);
    }
  }

  /**
   * How `import_activity` reads the response to its post: 201 is a
   * success and every other status a failure; a transport exception is not
   * caught there and ends the script (None).
   */
  function ImportAccepted(resp: Response): (ok: Option<bool>)
    ensures ok.None? <==> resp.Raised?
    ensures ok == Some(true) <==> resp.Reply? && resp.status == 201
  {
    match resp
    case Raised => None
    case Reply(status, _) => Some(status == 201)
  }
}
