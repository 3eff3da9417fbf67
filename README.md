# Runtastic to Strava migration, modelled in Dafny

This project models `migrate.py`, a one-shot script that moves a Runtastic
export to Strava. The script runs in five steps:

1. It loads every `*.json` record of `./Sport-sessions`. It makes a second copy of each record that names the paired track file under `./Sport-sessions/GPS-data`.
2. It caps the list of copies by the optional `MAX_UPLOADS` argument.
3. It uploads each track with a name and a description built from the record, and counts each upload as a success or a failure.
4. It deletes the record file and the track of every successful upload.
5. `import_activity` is an alternative upload path that posts a structured summary. It is defined but never called; the model covers it too.

The model has eight modules:

- `Text`: decimal rendering, Python's `f'{n:02d}'`, `str.replace`, `os.path.basename`.
- `Records`: the record, its features, a record file and the disk.
- `Mapping`: the activity-type table, the minute/second formatters, the pause clause, the description and the name.
- `Upload`: the track upload and its reading of the response, plus the structured import body and its loop over features.
- `Loader`: the loader loop and the record-to-track path pairing.
- `Batch`: the cap and the upload loop.
- `Cleanup`: the deletion loop.
- `Migration`: one whole run, and re-running it.

The environment becomes explicit values:

- The directory listing is a sequence of record files in listing order, each holding a parsed record or nothing when `json.load` does not give a JSON object. Track files are a set of paths.
- The remote service is a function from the upload counter and the request to a response. A response is a status plus whether its body is a JSON object, or a transport exception.
- The local-time rendering of a start time is a function parameter.
- Paths whose `os.remove` raises are a set `locked`.

Some Python semantics are written out:

- `int(a / b)` truncates toward zero (`Mapping.TruncDiv`).
- `round(ms / 1000.0)` rounds half to even, computed on integers (`Mapping.RoundMillis`). This is exact: a tie of a millisecond count divided by 1000 is exactly representable.
- Slices follow Python's rules for negative and too-large ends (`Batch.Cap`).
- `None` and `0` are both falsy.

### Behaviour of the code worth knowing

- **Import description order.** The structured import's description puts the pause clause after the elevation loss, just before the calories (`migrate.py:156-163`). The track upload's description puts it right after the feeling (`migrate.py:100`).
- **Missing track file.** The track file is opened at `migrate.py:107`, before the `try` at `migrate.py:116`. A missing track therefore ends the whole script rather than counting as a failed upload, and nothing is deleted.
- **201 without a JSON object.** On a 201, `response.json()` and `.get` run inside the `try` (`migrate.py:120-121`). A body that is not a JSON object raises there, and the upload counts as a failure, not a success.

## Model

| member | source | states |
|---|---|---|
| Mapping.ActivityType | migrate.py:52-62 | codes 2, 7, 19 give exactly "Walk"; 3, 4, 15, 22 give exactly "Ride"; 18 gives exactly "Swim"; every other integer gives "Run" |
| Mapping.TruncDiv | migrate.py:82 | `int(a / b)` for a positive divisor leaves a remainder in [0, b) for a >= 0 and in (-b, 0] for a < 0, so it truncates toward zero |
| Mapping.RoundMillis | migrate.py:77 | the result is within 500 ms of the input, and a tie goes to the even second |
| Mapping.FormatSecondsShape | migrate.py:80-85 | for s >= 0 the text is at least two minute digits with no leading zero beyond that padding, a colon and exactly two second digits, and it reads back as the minutes s / 60 and the seconds s % 60 |
| Mapping.FormatDurationShape | migrate.py:76-78 | for ms >= 0 the text has that same "MM:SS" form and reads back as the minutes and seconds of the input rounded half to even to whole seconds |
| Mapping.FormatDurationExample | migrate.py:76-78 | 125000 ms renders as "02:05" |
| Mapping.FormatSecondsExample | migrate.py:72-74 | 200 seconds per km (a pace of 0.2 s/m) renders as "03:20" |
| Mapping.PauseClause | migrate.py:97-98 | the clause is non-empty exactly when the pause is at least 1000 ms, and then it is ", pause: " + the formatted duration + " min" |
| Mapping.GpxDescriptionParts | migrate.py:96-100 | the description starts with "Feeling: " and the feeling ("unknown" when absent) and ends with ", calories: " and the calories in decimal; between them is exactly the pause clause when pause >= 1000 and nothing otherwise |
| Text.NatToString | migrate.py:100 | `str(n)` of a natural is a non-empty string of decimal digits, with no leading zero, reading back as n |
| Text.IntToString | migrate.py:100 | `str(n)` is the shortest digits of n (non-empty, no leading zero), or "-" and the shortest digits of -n for a negative n |
| Text.Pad2 | migrate.py:84 | `02d` of n >= 0 gives at least two digits reading back as n, exactly two below 100 and no leading zero from 10 up; a negative n is rendered as `str(n)` |
| Text.ReplaceAllNoLonger | migrate.py:41 | replacing by a shorter string never lengthens the text |
| Text.ReplaceAllIdentity | migrate.py:41 | with a shorter replacement, `replace` leaves the text unchanged exactly when the pattern does not occur in it |
| Text.ReplaceAllSuffix | migrate.py:41 | a pattern with no border at the end of a text is replaced, and the scan of what precedes it is undisturbed |
| Text.BasenameIsLastSegment | migrate.py:40 | the basename is a suffix of the path with no slash, and is either the whole path or preceded by a slash |
| Text.BasenameOfJoin | migrate.py:40 | the basename of dir + "/" + name is name when name holds no slash |
| Loader.GpxPathForSourcePath | migrate.py:40-42 | the record file DATA_DIR/stem.json pairs with GPS_DATA_DIR/stem.gpx when the stem holds no slash and no ".json" |
| Loader.FirstMalformed | migrate.py:34-36 | finds the first file that holds no JSON object, or none exactly when every file does |
| Loader.Load | migrate.py:34-45 | the loader loop computes the loader specification: it stops at the first malformed file, and otherwise appends one record and one track-path copy per file |
| Loader.LoadSpecPairs | migrate.py:34-45 | the load fails exactly when some file is malformed, naming the first; otherwise both lists have the listing's length, entry i is file i's record, and copy i differs from it only in its track path |
| Upload.Classify | migrate.py:116-131 | a 201 with a JSON object is exactly a success; 409 is a duplicate; any other status is a rejection carrying that status; an exception or a 201 without an object is a failure |
| Upload.UploadGpx | migrate.py:106-117 | the upload ends the script exactly when the record names no track or the track file does not exist |
| Upload.UploadGpxSucceedsIff | migrate.py:102-122 | an upload succeeds exactly when the track exists and the service answers the multipart request (track file, name, description, data type "gpx", bearer token) with 201 and a JSON object |
| Upload.BuildImportData | migrate.py:142-168 | the feature loop of `import_activity` computes what the fold over the features has seen: non-`track_metrics` features are skipped, each `track_metrics` feature overwrites `data` with the body built from its attributes, and one without attributes stops the script. The body builder is a parameter; the script's is `Upload.Builder` |
| Upload.SeenBareIff | migrate.py:143-155 | the fold ends in the missing-attributes error exactly when some `track_metrics` feature has no attributes |
| Upload.SeenNoneIff | migrate.py:142-144 | the fold has seen nothing exactly when no feature is `track_metrics` |
| Upload.LastTrackMetrics | migrate.py:143-144 | finds the last `track_metrics` feature, or none exactly when there is none |
| Upload.SeenIsLast | migrate.py:143-155 | attributes the fold keeps are those of the last `track_metrics` feature |
| Upload.ImportDataCases | migrate.py:142-168 | `data` after the loop: the missing-attributes error exactly when some `track_metrics` feature lacks attributes, the empty dictionary exactly when there is no `track_metrics` feature, and otherwise the body built from the last one's attributes |
| Upload.ImportAccepted | migrate.py:174-186 | a transport exception escapes `import_activity`; otherwise the import succeeds exactly on status 201 |
| Batch.Cap | migrate.py:201 | the processed list is a prefix of the copies: all of them when there is no cap or the cap is 0, min(N, len) of them for a positive N, and len - abs(N) (clamped at 0) for a negative N |
| Batch.RunBatch | migrate.py:197-212 | the upload loop computes the batch specification over the capped list: counter from 1, one upload per activity in order, each appended to one list, and an abort ending the loop. The upload is a parameter; the script's is `Batch.Uploader` |
| Batch.BatchSorts | migrate.py:203-211 | the batch aborts exactly when some upload does; otherwise the counter is one past the count, the successful list holds exactly the activities whose upload succeeded and the failed list the rest, both in their original order |
| Batch.SortedPartition | migrate.py:203-209 | the successful and failed lists together are a permutation of the processed activities |
| Batch.AllSucceeded | migrate.py:203-211 | when every upload succeeds, the successful list is the processed list and the failed list is empty |
| Batch.TrackAttemptsAbort | migrate.py:106-108 | a track upload aborts exactly when its activity is flagged as missing its track |
| Batch.AbortsIffFlagged | migrate.py:203-211 | the batch aborts exactly when some attempt aborts |
| Batch.TrackUploadsAbortIff | migrate.py:107 | the batch aborts exactly when some processed activity's track is unnamed or missing |
| Cleanup.ScanFor | migrate.py:223-228 | the scan stops at the first file that matches the id, with every earlier file readable and different; it finds none exactly when every file is readable and different; otherwise it stops at the first unreadable file, every earlier one readable and different |
| Cleanup.StopsAt | migrate.py:223-228 | the scan ends at the first file that is unreadable or matches |
| Cleanup.Clean | migrate.py:217-240 | the cleanup loop computes the fold of the per-activity cleanup over the successes |
| Cleanup.CleanActivity | migrate.py:220-240 | one activity's `try` block computes its specification: a read error or a failing record-file removal changes nothing; otherwise the first matching record file and then the existing, removable track are deleted |
| Cleanup.RemoveAtOnly | migrate.py:231 | removing one file from the listing shortens it by one and loses no other file |
| Cleanup.CleanOneRemoves | migrate.py:220-240 | one activity's cleanup deletes at most one record file, unlocked and with the activity's id, and at most the activity's own unlocked track |
| Cleanup.CleanAllOnlySuccesses | migrate.py:217-240 | the cleanup only deletes; every deleted record file was readable, unlocked and had the id of some success, and every deleted track was some success's track |
| Cleanup.FailedActivityKept | migrate.py:217-240 | an activity that shares neither id nor track with any success keeps all its record files and its track |
| Cleanup.CleanFront | migrate.py:220-237 | when the first file of the listing is the activity's and nothing of it is locked, that file and the activity's track are deleted |
| Cleanup.CleanAllInOrder | migrate.py:219-237 | when the successes are the records of the first files of the listing, in order, and nothing is locked, exactly those files and exactly the successes' tracks are deleted |
| Migration.Run | migrate.py:30-240 | the script computes the run specification: load, cap, upload loop, then cleanup only when some upload succeeded |
| Migration.RunAttemptsEachOnce | migrate.py:201-212 | a run that gets through the batch tried each capped activity exactly once: successes plus failures equal the capped length, and the counter is one past it |
| Migration.CapOfOneUploadsOnce | migrate.py:201 | with MAX_UPLOADS = 1 and at least one record file, a run that finishes makes exactly one upload attempt |
| Migration.RunOnlyDeletesSuccesses | migrate.py:217-240 | a finished run only deletes files of activities in its successful list, and never a locked or unreadable one |
| Migration.FullRunEmptiesListing | migrate.py:34-240 | with every file well-formed, every track present, every upload accepted and nothing locked, every activity succeeds in order and every record file and successful track is deleted |
| Migration.WellFormedLoads | migrate.py:34-45 | a listing of loadable files with their tracks loads, every activity's track exists, and the activities come in the order of their record files |
| Migration.EveryUploadAccepted | migrate.py:106-122 | with every track present and a service accepting everything, every upload succeeds |
| Migration.EmptyListingRunsNothing | migrate.py:34-240 | a run over an empty listing makes no upload and changes nothing |
| Migration.RerunAfterFullRunIsNoop | migrate.py:34-240 | after a fully successful run no record file is left, and a second run, with any cap, makes no upload and changes nothing |
| Migration.SingleActivityAccepted | migrate.py:34-240 | one record file with its track and a 201 with an object: the activity is the one success, and both files are deleted |
| Migration.SingleActivityRefused | migrate.py:34-240 | the same with any other answer (409, another status, an exception): the activity is the one failure, and neither file is deleted |

## Left out

- HTTP (`requests.post`): the service is the `respond` parameter of `Upload.Config`, and a response is reduced to its status and whether its body is a JSON object. The upload id read from the body is only printed.
- The filesystem: `glob`, `open`, `json.load`, `os.path.exists` and `os.remove` act on the `Records.Disk` value. The listing order is taken as given, and the cleanup's re-scan sees the listing as the earlier deletions left it. A failing `os.remove` is a path in `locked`.
- `datetime.fromtimestamp(...).isoformat()` depends on the local time zone and float division; it is the `localIso` parameter.
- `metersPerSecondToKmPerHour` and the float part of `convertToMinPerKm` are float arithmetic with `%.2f` formatting. Speeds and elevations are opaque strings in `Records.TrackMetrics`. The pace is given as its truncated whole seconds per kilometre, which is what `convertSecondsToFormattedString` makes of the float.
- Argument handling (`sys.argv` count check and exit, `int(sys.argv[2])`): the token and the cap are parameters.
- `time.sleep` and every `print`, including the announced count (`migrate.py:192`), which is text only.
- A record lacking a key that the code indexes directly (`sport_type_id`, `start_time`, `pause`, `calories`, `duration`, `features`) raises `KeyError`. Records always carry these fields. A JSON `null` feeling is not modelled.
- `Upload.ImportAccepted` only reads the response; the request body of `import_activity` is `Upload.BuildImportData`. `import_activity` itself is never called by the script, so no run uses it.
- Integers are unbounded. Python's `int` is too. The float quotients behind `int(a / b)` and `round(ms / 1000.0)` are not always exact (1499 / 1000.0 is not), but for magnitudes below 2^40 (about 35 years in milliseconds) the rounding error is far smaller than the distance to the next integer or half-integer, so `int()` and `round()` of them give the integers the model computes. Larger values are not modelled.
