/**
 * The loader: every `.json` file of the data directory, in listing order,
 * becomes one record, and a copy of it that also names its track file.
 */
module Loader {
  import opened Text
  import opened Records

  /**
   * The track path paired with a record file: its basename with every
   * ".json" replaced by ".gpx", joined to the track directory.
   */
  function GpxPathFor(path: string): string
  {
    GPS_DATA_DIR + "/" + ReplaceAll(Basename(path), ".json", ".gpx")
  }

  lemma JsonUnbordered()
    ensures Unbordered(".json")
  {
    var pat := ".json";
    forall k | 0 < k < |pat| ensures pat[k..] != pat[..|pat| - k] {
      assert pat[k..][0] != '.';
    }
  }

  /**
   * For a record file `DATA_DIR/<stem>.json` whose stem holds no slash and no
   * ".json", the track is `GPS_DATA_DIR/<stem>.gpx`: same name, other
   * extension, other directory.
   */
  lemma GpxPathForSourcePath(stem: string)
    requires '/' !in stem && !Occurs(stem, ".json")
    ensures GpxPathFor(DATA_DIR + "/" + stem + ".json") == GPS_DATA_DIR + "/" + stem + ".gpx"
  {
    assert '/' !in stem + ".json";
    assert DATA_DIR + "/" + stem + ".json" == DATA_DIR + "/" + (stem + ".json");
    BasenameOfJoin(DATA_DIR, stem + ".json");
    JsonUnbordered();
    ReplaceAllSuffix(stem, ".json", ".gpx");
    ReplaceAllIdentity(stem, ".json", ".gpx");
  }

  /** The copy of a parsed record that the track upload uses. */
  function WithGpxPath(f: SourceFile): Record
    requires f.content.Some?
  {
    f.content.value.(gpxPath := Some(GpxPathFor(f.path)))
  }

  /** The two lists the loader builds. */
  datatype Lists = Lists(activities: seq<Record>, gpxActivities: seq<Record>)

  /** A file that does not hold a JSON object stops the script before anything is uploaded. */
  datatype LoadResult = Loaded(lists: Lists) | Malformed(path: string)

  /** The first file, if any, whose content cannot be loaded. */
  function FirstMalformed(dir: seq<SourceFile>): (k: Option<nat>)
    ensures k.None? <==> forall i :: 0 <= i < |dir| ==> dir[i].content.Some?
    ensures k.Some? ==> k.value < |dir| && dir[k.value].content.None?
    ensures k.Some? ==> forall i :: 0 <= i < k.value ==> dir[i].content.Some?
  {
    if dir == [] then None
    else if dir[0].content.None? then Some(0)
    else match FirstMalformed(dir[1..])
      case None => None
      case Some(k) => Some(k + 1)
  }

  /** What the loader produces: the records and their track-path copies, in listing order. */
  function LoadSpec(dir: seq<SourceFile>): LoadResult
  {
    match FirstMalformed(dir)
    case Some(k) => Malformed(dir[k].path)
    case None =>
      Loaded(Lists(
        seq(|dir|, i requires 0 <= i < |dir| => dir[i].content.value),
        seq(|dir|, i requires 0 <= i < |dir| => WithGpxPath(dir[i]))))
  }

  /**
   * The loop at the head of the script: load each file and append the record
   * to one list and its copy with `gpx_path` to the other.
   */
  method Load(dir: seq<SourceFile>) returns (r: LoadResult)
    ensures r == LoadSpec(dir)
  {
    var activities: seq<Record> := [];
    var gpxActivities: seq<Record> := [];
    for i := 0 to |dir|
      invariant forall j :: 0 <= j < i ==> dir[j].content.Some?
      invariant |activities| == i && |gpxActivities| == i
      invariant forall j :: 0 <= j < i ==> activities[j] == dir[j].content.value
      invariant forall j :: 0 <= j < i ==> gpxActivities[j] == WithGpxPath(dir[j])
    {
      if dir[i].content.None? {
        FirstMalformedAt(dir, i);
        return Malformed(dir[i].path);
      }
      activities := activities + [dir[i].content.value];
      gpxActivities := gpxActivities + [WithGpxPath(dir[i])];
    }
    r := Loaded(Lists(activities, gpxActivities));
    LoadedAll(dir, activities, gpxActivities);
  }

  lemma FirstMalformedAt(dir: seq<SourceFile>, i: nat)
    requires i < |dir| && dir[i].content.None?
    requires forall j :: 0 <= j < i ==> dir[j].content.Some?
    ensures LoadSpec(dir) == Malformed(dir[i].path)
  {
    var k := FirstMalformed(dir);
    assert k.Some?;
    assert !(k.value < i) && !(k.value > i);
  }

  lemma LoadedAll(dir: seq<SourceFile>, activities: seq<Record>, gpxActivities: seq<Record>)
    requires forall j :: 0 <= j < |dir| ==> dir[j].content.Some?
    requires |activities| == |dir| && |gpxActivities| == |dir|
    requires forall j :: 0 <= j < |dir| ==> activities[j] == dir[j].content.value
    requires forall j :: 0 <= j < |dir| ==> gpxActivities[j] == WithGpxPath(dir[j])
    ensures LoadSpec(dir) == Loaded(Lists(activities, gpxActivities))
  {
    assert FirstMalformed(dir).None?;
    assert activities == seq(|dir|, i requires 0 <= i < |dir| => dir[i].content.value);
    assert gpxActivities == seq(|dir|, i requires 0 <= i < |dir| => WithGpxPath(dir[i]));
  }

  /**
   * The loader's promise: it fails exactly when some file is malformed, and
   * then names the first one; otherwise both lists follow the directory
   * listing one for one, and the second differs from the first only in the
   * track path paired with each file.
   */
  lemma LoadSpecPairs(dir: seq<SourceFile>)
    ensures var r := LoadSpec(dir);
      (r.Malformed? <==> exists i :: 0 <= i < |dir| && dir[i].content.None?) &&
      (r.Malformed? ==>
         exists k :: 0 <= k < |dir| && dir[k].content.None? && r.path == dir[k].path &&
                     forall j :: 0 <= j < k ==> dir[j].content.Some?) &&
      (r.Loaded? ==>
         |r.lists.activities| == |dir| && |r.lists.gpxActivities| == |dir| &&
         forall i :: 0 <= i < |dir| ==>
           Some(r.lists.activities[i]) == dir[i].content &&
           r.lists.gpxActivities[i] == r.lists.activities[i].(gpxPath := Some(GpxPathFor(dir[i].path))))
  {
    var r := LoadSpec(dir);
    if r.Malformed? {
      var k := FirstMalformed(dir).value;
      assert dir[k].content.None?;
    }
  }
}
