/**
 * The batch driver: take the activities the cap allows, upload them one
 * after the other with a counter starting at 1, and sort each into the
 * successful or the failed list.
 */
module Batch {
  import opened Records
  import opened Upload

  function Min(a: int, b: int): int { if a <= b then a else b }
  function Max(a: int, b: int): int { if a >= b then a else b }

  /** Python `xs[:n]`: a negative end counts from the back, and the end is clamped to the sequence. */
  function SliceTo<T>(xs: seq<T>, n: int): seq<T>
  {
    var end := if n < 0 then |xs| + n else n;
    xs[..if end < 0 then 0 else if end > |xs| then |xs| else end]
  }

  /**
   * `gpx_activities[:MAX_UPLOADS] if MAX_UPLOADS else gpx_activities`: no cap
   * and a cap of 0 both mean every activity, a positive cap keeps at most that
   * many from the front and a negative one drops that many from the back.
   */
  function Cap<T>(xs: seq<T>, maxUploads: Option<int>): (r: seq<T>)
    ensures |r| <= |xs| && r == xs[..|r|]
    ensures maxUploads.None? || maxUploads == Some(0) ==> r == xs
    ensures maxUploads.Some? && maxUploads.value > 0 ==> |r| == Min(maxUploads.value, |xs|)
    ensures maxUploads.Some? && maxUploads.value < 0 ==> |r| == Max(0, |xs| + maxUploads.value)
  {
    if maxUploads.None? || maxUploads.value == 0 then xs else SliceTo(xs, maxUploads.value)
  }

  /**
   * The driver's lists and counter. `aborted` is set when an upload ended
   * the script; the lists then hold what had been sorted before it.
   */
  datatype Batch<T> = Batch(successes: seq<T>, failures: seq<T>, counter: nat, aborted: bool)

  /**
   * The driver's state after the first `k` activities, where `attempts[i]` is
   * what the upload of `acts[i]` (with counter `i + 1`) came to. An abort
   * ends the script and so the loop.
   */
  function BatchAfter<T>(acts: seq<T>, attempts: seq<Attempt>, k: nat): Batch<T>
    requires |attempts| == |acts| && k <= |acts|
  {
    if k == 0 then Batch([], [], 1, false)
    else
      var b := BatchAfter(acts, attempts, k - 1);
      if b.aborted then b
      else match attempts[k - 1]
        case Aborted => b.(aborted := true)
        case Answered(outcome) =>
          if outcome == Uploaded then b.(successes := b.successes + [acts[k - 1]], counter := b.counter + 1)
          else b.(failures := b.failures + [acts[k - 1]], counter := b.counter + 1)
  }

  /** What each upload of the batch comes to, counters starting at 1. */
  function Attempts<T>(acts: seq<T>, upload: (nat, T) -> Attempt): (r: seq<Attempt>)
    ensures |r| == |acts|
    ensures forall i :: 0 <= i < |acts| ==> r[i] == upload(i + 1, acts[i])
  {
    seq(|acts|, i requires 0 <= i < |acts| => upload(i + 1, acts[i]))
  }

  /**
   * The driver loop over the capped list: each activity is uploaded once,
   * by `upload` with the current counter, and appended to one of the two
   * lists. In the script, `upload` is the track upload, `Uploader`.
   */
  method RunBatch<T>(gpxActivities: seq<T>, maxUploads: Option<int>, upload: (nat, T) -> Attempt)
    returns (b: Batch<T>)
    ensures var todo := Cap(gpxActivities, maxUploads);
      b == BatchAfter(todo, Attempts(todo, upload), |todo|)
  {
    var todo := Cap(gpxActivities, maxUploads);
    ghost var attempts := Attempts(todo, upload);
    var counter: nat := 1;
    var successes: seq<T> := [];
    var failures: seq<T> := [];
    for i := 0 to |todo|
      invariant counter == i + 1
      invariant Batch(successes, failures, counter, false) == BatchAfter(todo, attempts, i)
    {
      var activity := todo[i];
      var attempt := upload(counter, activity);
      if attempt.Aborted? {
        AbortedStays(todo, attempts, i + 1);
        return Batch(successes, failures, counter, true);
      }
      if attempt.outcome == Uploaded {
        successes := successes + [activity];
      } else {
        failures := failures + [activity];
      }
      counter := counter + 1;
    }
    b := Batch(successes, failures, counter, false);
  }

  lemma {:induction false} AbortedStays<T>(acts: seq<T>, attempts: seq<Attempt>, k: nat)
    requires |attempts| == |acts| && k <= |acts| && BatchAfter(acts, attempts, k).aborted
    ensures BatchAfter(acts, attempts, |acts|) == BatchAfter(acts, attempts, k)
    decreases |acts| - k
  {
    if k < |acts| {
      AbortedStays(acts, attempts, k + 1);
    }
  }

  /** The activities among the first `k` whose upload did (`ok`) or did not succeed, in order. */
  function WithOutcome<T>(acts: seq<T>, attempts: seq<Attempt>, k: nat, ok: bool): seq<T>
    requires |attempts| == |acts| && k <= |acts|
  {
    if k == 0 then []
    else WithOutcome(acts, attempts, k - 1, ok)
         + (if (attempts[k - 1] == Answered(Uploaded)) == ok then [acts[k - 1]] else [])
  }

  /** Some upload among the first `k` ended the script. */
  predicate SomeAborted(attempts: seq<Attempt>, k: nat)
    requires k <= |attempts|
  {
    exists i :: 0 <= i < k && attempts[i].Aborted?
  }

  /**
   * The driver aborts exactly when some upload does. Until then, activity
   * `i` lands in the successful list when its upload succeeded and in the
   * failed list otherwise, both in the original order, and the counter has
   * advanced once per activity.
   */
  lemma {:induction false} BatchSorts<T>(acts: seq<T>, attempts: seq<Attempt>, k: nat)
    requires |attempts| == |acts| && k <= |acts|
    ensures var b := BatchAfter(acts, attempts, k);
      (b.aborted <==> SomeAborted(attempts, k)) &&
      (!b.aborted ==>
         b.counter == k + 1 &&
         b.successes == WithOutcome(acts, attempts, k, true) &&
         b.failures == WithOutcome(acts, attempts, k, false))
  {
    if k > 0 {
      BatchSorts(acts, attempts, k - 1);
      if SomeAborted(attempts, k - 1) {
        var i :| 0 <= i < k - 1 && attempts[i].Aborted?;
        assert 0 <= i < k && attempts[i].Aborted?;
      } else if SomeAborted(attempts, k) {
        var i :| 0 <= i < k && attempts[i].Aborted?;
        assert i == k - 1;
      }
    }
  }

  /**
   * The two lists partition the processed activities: together they hold
   * each of them exactly as often as it was processed.
   */
  lemma {:induction false} SortedPartition<T>(acts: seq<T>, attempts: seq<Attempt>, k: nat)
    requires |attempts| == |acts| && k <= |acts|
    ensures multiset(WithOutcome(acts, attempts, k, true)) + multiset(WithOutcome(acts, attempts, k, false))
            == multiset(acts[..k])
  {
    if k == 0 {
      assert acts[..0] == [];
    } else {
      SortedPartition(acts, attempts, k - 1);
      var x := acts[k - 1];
      var yes0, no0 := WithOutcome(acts, attempts, k - 1, true), WithOutcome(acts, attempts, k - 1, false);
      var ys, ns := WithOutcome(acts, attempts, k, true), WithOutcome(acts, attempts, k, false);
      PrefixSnoc(acts, k);
      if attempts[k - 1] == Answered(Uploaded) {
        assert ys == yes0 + [x] && ns == no0 + [];
      } else {
        assert ys == yes0 + [] && ns == no0 + [x];
      }
      AddOne(multiset(ys), multiset(ns), multiset(yes0), multiset(no0), x);
    }
  }

  lemma PrefixSnoc<T>(s: seq<T>, k: nat)
    requires 0 < k <= |s|
    ensures multiset(s[..k]) == multiset(s[..k - 1]) + multiset{s[k - 1]}
  {
    assert s[..k] == s[..k - 1] + [s[k - 1]];
  }

  /** Adding one element to either side of a split adds it to the whole. */
  lemma AddOne<T>(ys: multiset<T>, ns: multiset<T>, ys0: multiset<T>, ns0: multiset<T>, x: T)
    requires (ys == ys0 + multiset{x} && ns == ns0) || (ys == ys0 && ns == ns0 + multiset{x})
    ensures ys + ns == ys0 + ns0 + multiset{x}
  {
  }

  /** When every upload succeeds, every processed activity is in the successful list, in order. */
  lemma {:induction false} AllSucceeded<T>(acts: seq<T>, attempts: seq<Attempt>, k: nat)
    requires |attempts| == |acts| && k <= |acts|
    requires forall i :: 0 <= i < k ==> attempts[i] == Answered(Uploaded)
    ensures BatchAfter(acts, attempts, k) == Batch(acts[..k], [], k + 1, false)
  {
    if k > 0 {
      AllSucceeded(acts, attempts, k - 1);
      assert acts[..k] == acts[..k - 1] + [acts[k - 1]];
    }
  }

  /** Every track among the first `k` activities is named and exists. */
  predicate TracksPresent(acts: seq<Record>, k: nat, tracks: set<string>)
    requires k <= |acts|
  {
    forall i :: 0 <= i < k ==> acts[i].gpxPath.Some? && acts[i].gpxPath.value in tracks
  }

  /** `upload_gpx_activity` against the track files `tracks` and the run's configuration. */
  function Uploader(tracks: set<string>, cfg: Config): (nat, Record) -> Attempt
  {
    (counter: nat, rec: Record) => UploadGpx(counter, rec, tracks, cfg)
  }

  /** Over track uploads, the batch aborts exactly when some activity's track file is unnamed or missing. */
  lemma TrackUploadsAbortIff(acts: seq<Record>, tracks: set<string>, cfg: Config)
    ensures BatchAfter(acts, Attempts(acts, Uploader(tracks, cfg)), |acts|).aborted <==> !TracksPresent(acts, |acts|, tracks)
  {
    var missing := MissingTracks(acts, tracks);
    TrackAttemptsAbort(acts, tracks, cfg);
    AbortsIffFlagged(acts, Attempts(acts, Uploader(tracks, cfg)), missing);
    if !TracksPresent(acts, |acts|, tracks) {
      var i :| 0 <= i < |acts| && !(acts[i].gpxPath.Some? && acts[i].gpxPath.value in tracks);
      assert missing[i];
    }
  }

  /** For each activity, whether its track file is unnamed or missing. */
  function MissingTracks(acts: seq<Record>, tracks: set<string>): (missing: seq<bool>)
    ensures |missing| == |acts|
    ensures forall i :: 0 <= i < |acts| ==> (missing[i] <==> !(acts[i].gpxPath.Some? && acts[i].gpxPath.value in tracks))
  {
    seq(|acts|, i requires 0 <= i < |acts| => !(acts[i].gpxPath.Some? && acts[i].gpxPath.value in tracks))
  }

  /** A track upload aborts exactly when its track file is unnamed or missing. */
  lemma TrackAttemptsAbort(acts: seq<Record>, tracks: set<string>, cfg: Config)
    ensures var attempts := Attempts(acts, Uploader(tracks, cfg));
      forall i :: 0 <= i < |acts| ==> (attempts[i].Aborted? <==> MissingTracks(acts, tracks)[i])
  {
    var attempts := Attempts(acts, Uploader(tracks, cfg));
    forall i | 0 <= i < |acts|
      ensures attempts[i].Aborted? <==> MissingTracks(acts, tracks)[i]
    {
      UploaderAt(tracks, cfg, i + 1, acts[i]);
    }
  }

  /** The batch aborts exactly when some upload is one that aborts. */
  lemma AbortsIffFlagged<T>(acts: seq<T>, attempts: seq<Attempt>, flagged: seq<bool>)
    requires |attempts| == |acts| && |flagged| == |acts|
    requires forall i :: 0 <= i < |acts| ==> (attempts[i].Aborted? <==> flagged[i])
    ensures BatchAfter(acts, attempts, |acts|).aborted <==> exists i :: 0 <= i < |acts| && flagged[i]
  {
    BatchSorts(acts, attempts, |acts|);
  }

  lemma UploaderAt(tracks: set<string>, cfg: Config, counter: nat, rec: Record)
    ensures Uploader(tracks, cfg)(counter, rec) == UploadGpx(counter, rec, tracks, cfg)
  {
  }
}
