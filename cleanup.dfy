/**
 * Cleanup after the batch: for each successful upload, delete the first
 * record file whose `id` matches it and then its track file, if present.
 * Only successes ever cause a deletion.
 */
module Cleanup {
  import opened Records

  /** `json.load` succeeds on the file and yields an object. */
  predicate Readable(f: SourceFile) { f.content.Some? }

  /** `data.get('id') == activity.get('id')` for the file's record. */
  predicate Matches(f: SourceFile, id: Option<string>)
  {
    f.content.Some? && f.content.value.id == id
  }

  /**
   * How the re-scan for one activity ends: at the first matching file (the
   * `break`), after the whole listing without a match, or at an unreadable
   * file, whose exception skips the rest of that activity's cleanup.
   */
  datatype Scan = Found(index: nat) | NotFound | Unreadable(at: nat)

  function ScanFor(jsons: seq<SourceFile>, id: Option<string>): (r: Scan)
    ensures r.Found? ==> r.index < |jsons| && Matches(jsons[r.index], id)
    ensures r.Found? ==> forall j :: 0 <= j < r.index ==> Readable(jsons[j]) && !Matches(jsons[j], id)
    ensures r.NotFound? <==> forall j :: 0 <= j < |jsons| ==> Readable(jsons[j]) && !Matches(jsons[j], id)
    ensures r.Unreadable? ==> r.at < |jsons| && !Readable(jsons[r.at])
    ensures r.Unreadable? ==> forall j :: 0 <= j < r.at ==> Readable(jsons[j]) && !Matches(jsons[j], id)
  {
    if jsons == [] then NotFound
    else if !Readable(jsons[0]) then Unreadable(0)
    else if Matches(jsons[0], id) then Found(0)
    else match ScanFor(jsons[1..], id)
      case Found(i) => Found(i + 1)
      case NotFound => NotFound
      case Unreadable(i) => Unreadable(i + 1)
  }

  function RemoveAt<T>(s: seq<T>, k: nat): (r: seq<T>)
    requires k < |s|
    ensures multiset(r) + multiset{s[k]} == multiset(s)
  {
    assert s == s[..k] + [s[k]] + s[k + 1..];
    s[..k] + s[k + 1..]
  }

  /**
   * `os.remove` of the track when the record names one and it exists; a path
   * in `locked` is one whose removal raises, which the `except` swallows.
   */
  function RemoveTrack(d: Disk, a: Record, locked: set<string>): Disk
  {
    if a.gpxPath.Some? && a.gpxPath.value in d.tracks && a.gpxPath.value !in locked
    then d.(tracks := d.tracks - {a.gpxPath.value})
    else d
  }

  /**
   * The cleanup of one successful activity. A failure to read a file or to
   * remove the record file ends it before the track is touched.
   */
  function CleanOne(d: Disk, a: Record, locked: set<string>): Disk
  {
    match ScanFor(d.jsons, a.id)
    case Unreadable(_) => d
    case NotFound => RemoveTrack(d, a, locked)
    case Found(k) =>
      if d.jsons[k].path in locked then d
      else RemoveTrack(d.(jsons := RemoveAt(d.jsons, k)), a, locked)
  }

  /** The cleanup loop over the successful uploads, in order. */
  function CleanAll(d: Disk, successes: seq<Record>, locked: set<string>): Disk
    decreases |successes|
  {
    if successes == [] then d
    else CleanAll(CleanOne(d, successes[0], locked), successes[1..], locked)
  }

  /**
   * The cleanup loop of the script: each successful activity in turn, inside
   * its own `try`.
   */
  method Clean(disk: Disk, successes: seq<Record>, locked: set<string>) returns (after: Disk)
    ensures after == CleanAll(disk, successes, locked)
  {
    after := disk;
    for i := 0 to |successes|
      invariant CleanAll(after, successes[i..], locked) == CleanAll(disk, successes, locked)
    {
      assert successes[i..][1..] == successes[i + 1..];
      after := CleanActivity(after, successes[i], locked);
    }
  }

  /**
   * The body of the `try` for one activity: re-scan the listing up to the
   * first record file with the same id, remove it, then remove the track.
   */
  method CleanActivity(disk: Disk, activity: Record, locked: set<string>) returns (after: Disk)
    ensures after == CleanOne(disk, activity, locked)
  {
    var jsons := disk.jsons;
    var tracks := disk.tracks;
    var scan := NotFound;
    var j := 0;
    while j < |jsons|
      invariant 0 <= j <= |jsons|
      invariant scan.NotFound? || scan == ScanFor(jsons, activity.id)
      invariant scan.NotFound? ==> forall k :: 0 <= k < j ==> Readable(jsons[k]) && !Matches(jsons[k], activity.id)
    {
      if !Readable(jsons[j]) {
        scan := Unreadable(j);
        StopsAt(jsons, activity.id, j);
        break;
      }
      if Matches(jsons[j], activity.id) {
        scan := Found(j);
        StopsAt(jsons, activity.id, j);
        break;
      }
      j := j + 1;
    }
    if scan.Unreadable? {
      return disk;
    }
    if scan.Found? {
      if jsons[scan.index].path in locked {
        return disk;
      }
      jsons := jsons[..scan.index] + jsons[scan.index + 1..];
    }
    if activity.gpxPath.Some? && activity.gpxPath.value in tracks && activity.gpxPath.value !in locked {
      tracks := tracks - {activity.gpxPath.value};
    }
    after := Disk(jsons, tracks);
  }

  /** The scan stops at the first file that is unreadable or matches. */
  lemma {:induction false} StopsAt(jsons: seq<SourceFile>, id: Option<string>, j: nat)
    requires j < |jsons| && (!Readable(jsons[j]) || Matches(jsons[j], id))
    requires forall k :: 0 <= k < j ==> Readable(jsons[k]) && !Matches(jsons[k], id)
    ensures ScanFor(jsons, id) == if Readable(jsons[j]) then Found(j) else Unreadable(j)
  {
    if j > 0 {
      StopsAt(jsons[1..], id, j - 1);
    }
  }

  /**
   * One activity's cleanup only ever deletes: at most one record file,
   * readable, unlocked and carrying the activity's id, and at most the
   * activity's own track, if unlocked.
   */
  lemma CleanOneRemoves(d: Disk, a: Record, locked: set<string>)
    ensures var r := CleanOne(d, a, locked);
      multiset(r.jsons) <= multiset(d.jsons) && r.tracks <= d.tracks &&
      |d.jsons| - 1 <= |r.jsons| &&
      (forall f :: f in d.jsons && f !in r.jsons ==> Matches(f, a.id) && f.path !in locked) &&
      (forall p :: p in d.tracks && p !in r.tracks ==> a.gpxPath == Some(p) && p !in locked)
  {
    match ScanFor(d.jsons, a.id)
    case Unreadable(_) =>
    case NotFound =>
    case Found(k) =>
      if d.jsons[k].path !in locked {
        RemoveAtOnly(d.jsons, k);
      }
  }

  /** Removing position `k` loses no element other than `s[k]`. */
  lemma RemoveAtOnly<T>(s: seq<T>, k: nat)
    requires k < |s|
    ensures |RemoveAt(s, k)| == |s| - 1
    ensures forall x :: x in s && x !in RemoveAt(s, k) ==> x == s[k]
  {
    var rest := RemoveAt(s, k);
    forall x | x in s && x !in rest
      ensures x == s[k]
    {
      assert x in multiset(s);
    }
  }

  /**
   * Safety of the whole cleanup: it only deletes, and every record file it
   * deletes was readable, unlocked and carried the id of some successful
   * upload, and every track it deletes is the track of some successful
   * upload. A failed or skipped activity never causes a deletion of its own.
   */
  lemma {:induction false} CleanAllOnlySuccesses(d: Disk, successes: seq<Record>, locked: set<string>)
    ensures var r := CleanAll(d, successes, locked);
      multiset(r.jsons) <= multiset(d.jsons) && r.tracks <= d.tracks &&
      (forall f :: f in d.jsons && f !in r.jsons ==>
         Readable(f) && f.path !in locked && exists s :: s in successes && Matches(f, s.id)) &&
      (forall p :: p in d.tracks && p !in r.tracks ==>
         p !in locked && exists s :: s in successes && s.gpxPath == Some(p))
    decreases |successes|
  {
    if successes != [] {
      var a := successes[0];
      var d1 := CleanOne(d, a, locked);
      CleanOneRemoves(d, a, locked);
      CleanAllOnlySuccesses(d1, successes[1..], locked);
      var r := CleanAll(d1, successes[1..], locked);
      forall f | f in d.jsons && f !in r.jsons
        ensures Readable(f) && f.path !in locked && exists s :: s in successes && Matches(f, s.id)
      {
        if f in d1.jsons {
          var s :| s in successes[1..] && Matches(f, s.id);
          assert s in successes;
        } else {
          assert a in successes;
        }
      }
      forall p | p in d.tracks && p !in r.tracks
        ensures p !in locked && exists s :: s in successes && s.gpxPath == Some(p)
      {
        if p in d1.tracks {
          var s :| s in successes[1..] && s.gpxPath == Some(p);
          assert s in successes;
        } else {
          assert a in successes;
        }
      }
    }
  }

  /**
   * A failed upload keeps its files: when no successful activity shares its
   * id or its track, its record files and its track are all still there.
   */
  lemma FailedActivityKept(d: Disk, successes: seq<Record>, locked: set<string>, failed: Record)
    requires forall s :: s in successes ==> s.id != failed.id && s.gpxPath != failed.gpxPath
    ensures var r := CleanAll(d, successes, locked);
      (forall f :: f in d.jsons && Matches(f, failed.id) ==> f in r.jsons) &&
      (failed.gpxPath.Some? && failed.gpxPath.value in d.tracks ==> failed.gpxPath.value in r.tracks)
  {
    CleanAllOnlySuccesses(d, successes, locked);
  }

  /** The track an activity names, as a set. */
  function TrackOf(a: Record): set<string>
  {
    if a.gpxPath.Some? then {a.gpxPath.value} else {}
  }

  /** The tracks the successful activities name. */
  function GpxPaths(successes: seq<Record>): set<string>
    decreases |successes|
  {
    if successes == [] then {} else TrackOf(successes[0]) + GpxPaths(successes[1..])
  }

  /** Cleaning up an activity whose record file is first in the listing, with nothing of it locked. */
  lemma CleanFront(d: Disk, a: Record, locked: set<string>)
    requires |d.jsons| > 0 && Matches(d.jsons[0], a.id) && d.jsons[0].path !in locked
    requires a.gpxPath.Some? ==> a.gpxPath.value !in locked
    ensures CleanOne(d, a, locked) == Disk(d.jsons[1..], d.tracks - TrackOf(a))
  {
    StopsAt(d.jsons, a.id, 0);
    assert RemoveAt(d.jsons, 0) == d.jsons[1..];
  }

  /**
   * The successes are the records of the first files of the listing, in
   * order, and neither those files nor the successes' tracks are locked.
   */
  predicate InListingOrder(files: seq<SourceFile>, successes: seq<Record>, locked: set<string>)
  {
    |successes| <= |files| &&
    (forall i :: 0 <= i < |successes| ==> Matches(files[i], successes[i].id) && files[i].path !in locked) &&
    (forall i :: 0 <= i < |successes| && successes[i].gpxPath.Some? ==> successes[i].gpxPath.value !in locked)
  }

  lemma InListingOrderTail(files: seq<SourceFile>, successes: seq<Record>, locked: set<string>)
    requires successes != [] && InListingOrder(files, successes, locked)
    ensures InListingOrder(files[1..], successes[1..], locked)
  {
    var rest := successes[1..];
    forall i | 0 <= i < |rest|
      ensures Matches(files[1..][i], rest[i].id) && files[1..][i].path !in locked
    {
      assert files[1..][i] == files[i + 1] && rest[i] == successes[i + 1];
    }
    forall i | 0 <= i < |rest| && rest[i].gpxPath.Some?
      ensures rest[i].gpxPath.value !in locked
    {
      assert rest[i] == successes[i + 1];
    }
  }

  lemma CleanAllCons(d: Disk, successes: seq<Record>, locked: set<string>)
    requires successes != []
    ensures CleanAll(d, successes, locked) == CleanAll(CleanOne(d, successes[0], locked), successes[1..], locked)
  {
  }

  /**
   * When the successes are the records of the first files of the listing,
   * in order, and nothing of them is locked, the cleanup deletes exactly
   * those record files and exactly the tracks the successes name.
   */
  lemma {:induction false} CleanAllInOrder(d: Disk, successes: seq<Record>, locked: set<string>)
    requires InListingOrder(d.jsons, successes, locked)
    ensures CleanAll(d, successes, locked) == Disk(d.jsons[|successes|..], d.tracks - GpxPaths(successes))
    decreases |successes|
  {
    if successes == [] {
      assert d.jsons[0..] == d.jsons;
    } else {
      var a, rest := successes[0], successes[1..];
      var files := d.jsons[1..];
      CleanFront(d, a, locked);
      InListingOrderTail(d.jsons, successes, locked);
      var d1 := Disk(files, d.tracks - TrackOf(a));
      CleanAllInOrder(d1, rest, locked);
      CleanAllCons(d, successes, locked);
      DropTail(d.jsons, |rest|);
      MinusTwice(d.tracks, TrackOf(a), GpxPaths(rest));
    }
  }

  lemma DropTail<T>(s: seq<T>, n: nat)
    requires n < |s|
    ensures s[1..][n..] == s[n + 1..]
  {
  }

  lemma MinusTwice<T>(t: set<T>, a: set<T>, b: set<T>)
    ensures t - a - b == t - (a + b)
  {
  }
}
