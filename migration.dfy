/**
 * One run of the migration script: load every record file, upload the
 * capped list of track copies one by one, and delete the files of the
 * successful uploads. A malformed record file or a missing track ends the
 * script with an exception, before any file has been deleted.
 */
module Migration {
  import opened Records
  import opened Upload
  import opened Loader
  import opened Batch
  import opened Cleanup

  /**
   * How a run ends. The first two are the uncaught exceptions of the loader
   * and of a track upload; the disk is then as it was. `Finished` carries the
   * driver's lists and the disk after cleanup.
   */
  datatype RunResult =
    | LoadCrashed(path: string)
    | UploadCrashed(batch: Batch<Record>)
    | Finished(batch: Batch<Record>, disk: Disk)

  /** The result of a run on `disk`, with `locked` the paths whose removal fails. */
  function RunSpec(disk: Disk, maxUploads: Option<int>, cfg: Config, locked: set<string>): RunResult
  {
    match LoadSpec(disk.jsons)
    case Malformed(p) => LoadCrashed(p)
    case Loaded(lists) =>
      var todo := Cap(lists.gpxActivities, maxUploads);
      var b := BatchAfter(todo, Attempts(todo, Uploader(disk.tracks, cfg)), |todo|);
      if b.aborted then UploadCrashed(b)
      else Finished(b, if |b.successes| > 0 then CleanAll(disk, b.successes, locked) else disk)
  }

  /** The script from the loader loop to the end of the cleanup loop. */
  method Run(disk: Disk, maxUploads: Option<int>, cfg: Config, locked: set<string>) returns (r: RunResult)
    ensures r == RunSpec(disk, maxUploads, cfg, locked)
  {
    var loaded := Load(disk.jsons);
    if loaded.Malformed? {
      return LoadCrashed(loaded.path);
    }
    var b := RunBatch(loaded.lists.gpxActivities, maxUploads, Uploader(disk.tracks, cfg));
    if b.aborted {
      return UploadCrashed(b);
    }
    var after := disk;
    if |b.successes| > 0 {
      after := Clean(disk, b.successes, locked);
    }
    r := Finished(b, after);
  }

  /**
   * A run that gets through the batch has tried each activity of the capped
   * list exactly once: the two lists together hold as many activities as
   * the cap lets through, and the counter is one past that number.
   */
  lemma RunAttemptsEachOnce(disk: Disk, maxUploads: Option<int>, cfg: Config, locked: set<string>)
    requires RunSpec(disk, maxUploads, cfg, locked).Finished?
    ensures var b := RunSpec(disk, maxUploads, cfg, locked).batch;
      |b.successes| + |b.failures| == |Cap(disk.jsons, maxUploads)| &&
      b.counter == |Cap(disk.jsons, maxUploads)| + 1
  {
    var lists := LoadSpec(disk.jsons).lists;
    var todo := Cap(lists.gpxActivities, maxUploads);
    var attempts := Attempts(todo, Uploader(disk.tracks, cfg));
    BatchSorts(todo, attempts, |todo|);
    SortedPartition(todo, attempts, |todo|);
    assert todo[..|todo|] == todo;
    assert |multiset(todo)| == |todo|;
  }

  /** With a cap of one, a run that gets through the batch has made exactly one upload attempt when there is any record file. */
  lemma CapOfOneUploadsOnce(disk: Disk, cfg: Config, locked: set<string>)
    requires |disk.jsons| >= 1
    requires RunSpec(disk, Some(1), cfg, locked).Finished?
    ensures var b := RunSpec(disk, Some(1), cfg, locked).batch;
      |b.successes| + |b.failures| == 1
  {
    RunAttemptsEachOnce(disk, Some(1), cfg, locked);
  }

  /**
   * The run deletes only files of successful uploads: the record files and
   * tracks it removes were readable, unlocked and belong to activities in
   * the successful list. A crashed run removes nothing.
   */
  lemma RunOnlyDeletesSuccesses(disk: Disk, maxUploads: Option<int>, cfg: Config, locked: set<string>)
    requires RunSpec(disk, maxUploads, cfg, locked).Finished?
    ensures var r := RunSpec(disk, maxUploads, cfg, locked);
      var after := r.disk;
      multiset(after.jsons) <= multiset(disk.jsons) && after.tracks <= disk.tracks &&
      (forall f :: f in disk.jsons && f !in after.jsons ==>
         Readable(f) && f.path !in locked && exists s :: s in r.batch.successes && Matches(f, s.id)) &&
      (forall p :: p in disk.tracks && p !in after.tracks ==>
         p !in locked && exists s :: s in r.batch.successes && s.gpxPath == Some(p))
  {
    var r := RunSpec(disk, maxUploads, cfg, locked);
    CleanAllOnlySuccesses(disk, r.batch.successes, locked);
  }

  /** Every record file of the listing can be loaded and its paired track exists. */
  predicate WellFormed(disk: Disk)
  {
    forall i :: 0 <= i < |disk.jsons| ==>
      disk.jsons[i].content.Some? && GpxPathFor(disk.jsons[i].path) in disk.tracks
  }

  /** The remote service accepts every track upload. */
  ghost predicate AcceptsAll(cfg: Config)
  {
    forall c: nat, q: UploadRequest :: cfg.respond(c, q) == Reply(201, true)
  }

  /**
   * A fully successful run: with no cap, every track present, a service
   * that accepts everything and no locked file, every activity is uploaded
   * in listing order and every record file and paired track is deleted.
   */
  lemma FullRunEmptiesListing(disk: Disk, cfg: Config)
    requires WellFormed(disk) && AcceptsAll(cfg)
    ensures var gpx := LoadSpec(disk.jsons).lists.gpxActivities;
      RunSpec(disk, None, cfg, {}) ==
      Finished(Batch(gpx, [], |gpx| + 1, false), Disk([], disk.tracks - GpxPaths(gpx)))
  {
    WellFormedLoads(disk);
    var gpx := LoadSpec(disk.jsons).lists.gpxActivities;
    var attempts := Attempts(gpx, Uploader(disk.tracks, cfg));
    EveryUploadAccepted(gpx, disk.tracks, cfg);
    AllSucceeded(gpx, attempts, |gpx|);
    assert gpx[..|gpx|] == gpx;
    CleanAllInOrder(disk, gpx, {});
    assert disk.jsons[|gpx|..] == [];
  }

  /**
   * A well-formed listing loads, pairs every record with its own track, and
   * its activities come in the order of the record files.
   */
  lemma WellFormedLoads(disk: Disk)
    requires WellFormed(disk)
    ensures LoadSpec(disk.jsons).Loaded?
    ensures var gpx := LoadSpec(disk.jsons).lists.gpxActivities;
      |gpx| == |disk.jsons| && TracksPresent(gpx, |gpx|, disk.tracks) && InListingOrder(disk.jsons, gpx, {})
  {
    LoadSpecPairs(disk.jsons);
    var lists := LoadSpec(disk.jsons).lists;
    forall i | 0 <= i < |disk.jsons|
      ensures Matches(disk.jsons[i], lists.gpxActivities[i].id)
    {
      assert Some(lists.activities[i]) == disk.jsons[i].content;
    }
  }

  /** With every track present and a service that accepts everything, every attempt uploads. */
  lemma EveryUploadAccepted(acts: seq<Record>, tracks: set<string>, cfg: Config)
    requires TracksPresent(acts, |acts|, tracks) && AcceptsAll(cfg)
    ensures forall i :: 0 <= i < |acts| ==> Attempts(acts, Uploader(tracks, cfg))[i] == Answered(Uploaded)
  {
    forall i | 0 <= i < |acts|
      ensures Attempts(acts, Uploader(tracks, cfg))[i] == Answered(Uploaded)
    {
      UploaderAt(tracks, cfg, i + 1, acts[i]);
    }
  }

  /** A run over an empty listing loads nothing, uploads nothing and changes nothing. */
  lemma EmptyListingRunsNothing(tracks: set<string>, maxUploads: Option<int>, cfg: Config, locked: set<string>)
    ensures RunSpec(Disk([], tracks), maxUploads, cfg, locked) == Finished(Batch([], [], 1, false), Disk([], tracks))
  {
    assert LoadSpec([]) == Loaded(Lists([], []));
  }

  /**
   * Re-running after a fully successful run finds no activity and performs
   * no upload: the second batch is empty and the disk stays as it is.
   */
  lemma RerunAfterFullRunIsNoop(disk: Disk, cfg: Config, maxUploads: Option<int>, locked: set<string>)
    requires WellFormed(disk) && AcceptsAll(cfg)
    ensures RunSpec(disk, None, cfg, {}).Finished?
    ensures var after := RunSpec(disk, None, cfg, {}).disk;
      after.jsons == [] &&
      RunSpec(after, maxUploads, cfg, locked) == Finished(Batch([], [], 1, false), after)
  {
    FullRunEmptiesListing(disk, cfg);
    var after := RunSpec(disk, None, cfg, {}).disk;
    EmptyListingRunsNothing(after.tracks, maxUploads, cfg, locked);
  }

  /**
   * One record file with its track: when the service's answer is a 201 with
   * a JSON object, the activity is the one success and both its record file
   * and its track are deleted.
   */
  lemma SingleActivityAccepted(path: string, rec: Record, cfg: Config)
    requires cfg.respond(1, GpxRequest(rec.(gpxPath := Some(GpxPathFor(path))), GpxPathFor(path), cfg)) == Reply(201, true)
    ensures var g := rec.(gpxPath := Some(GpxPathFor(path)));
      RunSpec(Disk([SourceFile(path, Some(rec))], {GpxPathFor(path)}), None, cfg, {}) ==
      Finished(Batch([g], [], 2, false), Disk([], {}))
  {
    var disk := Disk([SourceFile(path, Some(rec))], {GpxPathFor(path)});
    var g := rec.(gpxPath := Some(GpxPathFor(path)));
    assert LoadSpec(disk.jsons) == Loaded(Lists([rec], [g]));
    var attempts := Attempts([g], Uploader(disk.tracks, cfg));
    UploaderAt(disk.tracks, cfg, 1, g);
    assert attempts[0] == Answered(Uploaded);
    assert BatchAfter([g], attempts, 1) == Batch([g], [], 2, false);
    StopsAt(disk.jsons, g.id, 0);
    assert CleanOne(disk, g, {}) == Disk([], {});
    assert CleanAll(disk, [g], {}) == CleanAll(Disk([], {}), [], {});
  }

  /**
   * The same setup with any other answer (409, another status, a 201 whose
   * body is not an object, an exception): the activity is the one failure
   * and neither file is deleted.
   */
  lemma SingleActivityRefused(path: string, rec: Record, cfg: Config)
    requires cfg.respond(1, GpxRequest(rec.(gpxPath := Some(GpxPathFor(path))), GpxPathFor(path), cfg)) != Reply(201, true)
    ensures var g := rec.(gpxPath := Some(GpxPathFor(path)));
      var disk := Disk([SourceFile(path, Some(rec))], {GpxPathFor(path)});
      RunSpec(disk, None, cfg, {}) == Finished(Batch([], [g], 2, false), disk)
  {
    var disk := Disk([SourceFile(path, Some(rec))], {GpxPathFor(path)});
    var g := rec.(gpxPath := Some(GpxPathFor(path)));
    assert LoadSpec(disk.jsons) == Loaded(Lists([rec], [g]));
    var attempts := Attempts([g], Uploader(disk.tracks, cfg));
    UploaderAt(disk.tracks, cfg, 1, g);
    assert attempts[0].Answered? && attempts[0].outcome != Uploaded;
    assert BatchAfter([g], attempts, 1) == Batch([], [g], 2, false);
  }
}
