/**
 * `VideoLibraryUpdater` of update.py: one catalog entry per video file (in
 * sorted name order, numbered from 1), linked to a thumbnail picture of the same
 * stem when there is one, merged into the existing `videos.json` so that custom
 * top-level keys survive.
 *
 * File sizes, the folder listings, the clock readings, the loaded manifest and
 * whether writing it succeeds are inputs.
 */
module Catalog {
  import opened Wrappers
  import opened Numbers
  import opened Paths
  import opened Sizes
  import opened Order
  import opened Listing
  import opened Enumeration
  import opened Naming
  import opened Json
  import PagedCatalog

  /** `get_file_size`, as in the paginated variant. */
  type Measure = PagedCatalog.Measure

  // ------------------------------------------------------------ thumbnails

  /** `{Path(f).stem: Path(f).name for f in thumbnail_files}`: a later file overwrites an earlier one of the same stem. */
  function StemMap(files: seq<string>): map<string, string> {
    if files == [] then map[]
    else StemMap(files[..|files| - 1])[Stem(files[|files| - 1]) := files[|files| - 1]]
  }

  /** The keys are exactly the stems of the files. */
  lemma {:induction false} StemMapKeys(files: seq<string>, stem: string)
    ensures stem in StemMap(files) <==> exists i :: 0 <= i < |files| && Stem(files[i]) == stem
  {
    if files != [] {
      var init := files[..|files| - 1];
      StemMapKeys(init, stem);
      if i :| 0 <= i < |init| && Stem(init[i]) == stem { assert files[i] == init[i]; }
      if i :| 0 <= i < |files| && Stem(files[i]) == stem {
        if i < |init| { assert init[i] == files[i]; }
      }
    }
  }

  /** A stem maps to the last file with that stem. */
  lemma {:induction false} StemMapLastWins(files: seq<string>, stem: string)
    requires stem in StemMap(files)
    ensures exists i :: 0 <= i < |files| && files[i] == StemMap(files)[stem] && Stem(files[i]) == stem
                        && forall j :: i < j < |files| ==> Stem(files[j]) != stem
  {
    var init := files[..|files| - 1];
    var last := files[|files| - 1];
    if Stem(last) != stem {
      StemMapLastWins(init, stem);
      var i :| 0 <= i < |init| && init[i] == StemMap(init)[stem] && Stem(init[i]) == stem
               && forall j :: i < j < |init| ==> Stem(init[j]) != stem;
      assert files[i] == init[i];
      forall j | i < j < |files| ensures Stem(files[j]) != stem {
        if j < |init| { assert files[j] == init[j]; }
      }
    }
  }

  /** `get_thumbnail_files`, listing the thumbnails folder through `glob`. */
  method GetThumbnailFiles(glob: Glob) returns (thumbnails: map<string, string>)
    ensures thumbnails == StemMap(Listed(ThumbnailPatterns, glob))
  {
    var files := ListFiles(ThumbnailPatterns, glob);
    thumbnails := StemMap(files);
  }

  // -------------------------------------------------------------- duration

  /** `int(size_mb * 5)`, with no cap. */
  function EstimateSeconds(size: Option<nat>): nat {
    Trunc(MB(PagedCatalog.Tenths(size)) * 5.0)
  }

  /** `estimate_duration` */
  function EstimateDuration(size: Option<nat>): string { Clock(EstimateSeconds(size)) }

  /** Five seconds per MB is half a second per tenth, rounded down; there is no upper bound. */
  lemma EstimateSecondsExact(size: Option<nat>)
    ensures EstimateSeconds(size) == PagedCatalog.Tenths(size) / 2
  {
    var t := PagedCatalog.Tenths(size);
    assert MB(t) * 5.0 == t as real / 2.0;
    assert (t / 2) as real <= t as real / 2.0 < (t / 2) as real + 1.0;
  }

  /** Every number of seconds is the estimate of some size, so the text can exceed "60:00". */
  lemma EstimateUncapped(seconds: nat)
    ensures EstimateSeconds(Some(2 * seconds)) == seconds
    ensures ParseClock(EstimateDuration(Some(2 * seconds))) == Some(seconds)
  {
    EstimateSecondsExact(Some(2 * seconds));
    ClockRoundTrip(seconds);
  }

  // --------------------------------------------------------------- entries

  /** One video's entry in the manifest. */
  datatype Entry = Entry(id: nat, title: string, filename: string, url: string, description: string,
                         duration: string, size: string, thumbnail: string, createdAt: string)

  /** Lines 78-82: the thumbnail of the same stem, linked on the CDN, or "" when there is none. */
  function ThumbnailUrl(stem: string, thumbnails: map<string, string>): string {
    var name := if stem in thumbnails then thumbnails[stem] else "";
    if name != "" then PagedCatalog.CdnThumbnails + name else ""
  }

  /** Lines 69-94 for the video numbered `id`. */
  function EntryFor(id: nat, filename: string, measure: Measure, thumbnails: map<string, string>, today: string): Entry {
    var stem := Stem(filename);
    var title := FriendlyTitle(stem);
    Entry(id, title, filename, PagedCatalog.CdnVideos + filename, Description(title),
          EstimateDuration(measure(filename)), PagedCatalog.SizeText(measure(filename)),
          ThumbnailUrl(stem, thumbnails), today)
  }

  /** `EntryFor` as the body of the numbering loop. */
  function EntryMaker(measure: Measure, thumbnails: map<string, string>, today: string): (nat, string) -> Entry {
    (id: nat, filename: string) => EntryFor(id, filename, measure, thumbnails, today)
  }

  /** The entries of `files` numbered from `first`, in order. */
  function Entries(files: seq<string>, first: nat, measure: Measure, thumbnails: map<string, string>, today: string)
    : seq<Entry>
  {
    Numbered(files, first, EntryMaker(measure, thumbnails, today))
  }

  /** `generate_video_data`: the loop over `enumerate(sorted(video_files), 1)`. */
  method GenerateVideoData(videoFiles: seq<string>, thumbnails: map<string, string>, measure: Measure, today: string)
    returns (videos: seq<Entry>)
    ensures videos == Entries(SortNames(videoFiles), 1, measure, thumbnails, today)
  {
    videos := Enumerate(SortNames(videoFiles), 1, EntryMaker(measure, thumbnails, today));
  }

  /** The `i`-th entry is that of the `i`-th file, numbered `first + i`. */
  lemma EntriesAt(files: seq<string>, first: nat, measure: Measure, thumbnails: map<string, string>, today: string, i: nat)
    requires i < |files|
    ensures |Entries(files, first, measure, thumbnails, today)| == |files|
    ensures Entries(files, first, measure, thumbnails, today)[i] == EntryFor(first + i, files[i], measure, thumbnails, today)
  {
    NumberedAt(files, first, EntryMaker(measure, thumbnails, today), i);
  }

  /**
   * With the thumbnails found in the folder, a video's thumbnail link is non-empty
   * exactly when some thumbnail shares its stem, and then links the last such file.
   */
  lemma ThumbnailFound(stem: string, files: seq<string>)
    requires forall i :: 0 <= i < |files| ==> files[i] != ""
    ensures ThumbnailUrl(stem, StemMap(files)) != "" <==> exists i :: 0 <= i < |files| && Stem(files[i]) == stem
    ensures ThumbnailUrl(stem, StemMap(files)) != "" ==>
      exists i :: 0 <= i < |files| && Stem(files[i]) == stem
                  && ThumbnailUrl(stem, StemMap(files)) == PagedCatalog.CdnThumbnails + files[i]
                  && forall j :: i < j < |files| ==> Stem(files[j]) != stem
  {
    StemMapKeys(files, stem);
    if stem in StemMap(files) { StemMapLastWins(files, stem); }
  }

  /** An entry numbered `id` for `filename`, linking the file and the thumbnail of its stem. */
  predicate Describes(e: Entry, id: nat, filename: string, thumbnails: map<string, string>, today: string) {
    && e.id == id && e.filename == filename && e.url == PagedCatalog.CdnVideos + filename
    && (e.thumbnail != "" <==> Stem(filename) in thumbnails && thumbnails[Stem(filename)] != "")
    && (e.thumbnail != "" ==> e.thumbnail == PagedCatalog.CdnThumbnails + thumbnails[Stem(filename)])
    && e.createdAt == today
  }

  /** The entries follow sorted file-name order with ids 1..n, one per listed file. */
  lemma GeneratedEntries(videoFiles: seq<string>, thumbnails: map<string, string>, measure: Measure, today: string)
    ensures var files := SortNames(videoFiles);
            var videos := Entries(files, 1, measure, thumbnails, today);
      && |videos| == |videoFiles|
      && Sorted(files) && multiset(files) == multiset(videoFiles)
      && forall i :: 0 <= i < |files| ==> Describes(videos[i], i + 1, files[i], thumbnails, today)
  {
    var files := SortNames(videoFiles);
    assert |files| == |multiset(files)| == |videoFiles|;
    forall i | 0 <= i < |files| ensures Describes(Entries(files, 1, measure, thumbnails, today)[i], i + 1, files[i], thumbnails, today) {
      EntriesAt(files, 1, measure, thumbnails, today, i);
    }
  }

  // ------------------------------------------------------------- the merge

  function EntryJson(e: Entry): Json {
    Object([("id", Int(e.id)), ("title", Str(e.title)), ("filename", Str(e.filename)), ("url", Str(e.url)),
            ("description", Str(e.description)), ("duration", Str(e.duration)), ("size", Str(e.size)),
            ("thumbnail", Str(e.thumbnail)), ("createdAt", Str(e.createdAt))])
  }

  function EntriesJson(videos: seq<Entry>): (r: seq<Json>)
    ensures |r| == |videos|
  {
    seq(|videos|, i requires 0 <= i < |videos| => EntryJson(videos[i]))
  }

  /** Lines 170-175: the four generated keys. */
  function Generated(videos: seq<Entry>, now: string): seq<(string, Json)> {
    [("videos", Array(EntriesJson(videos))), ("total", Int(|videos|)), ("lastUpdated", Str(now)),
     ("repository", Str(PagedCatalog.Repository))]
  }

  const GeneratedKeys: set<string> := {"videos", "total", "lastUpdated", "repository"}

  /** Lines 178-181: the existing fields, from the front, appended when their key is not taken yet. */
  function MergeFrom(updated: seq<(string, Json)>, existing: seq<(string, Json)>): seq<(string, Json)>
    decreases |existing|
  {
    if existing == [] then updated
    else if existing[0].0 in Keys(updated) then MergeFrom(updated, existing[1..])
    else MergeFrom(updated + [existing[0]], existing[1..])
  }

  /** The loop of lines 179-181 on the `updated_data` dict. */
  method Merge(updated: seq<(string, Json)>, existing: seq<(string, Json)>) returns (merged: seq<(string, Json)>)
    ensures merged == MergeFrom(updated, existing)
  {
    merged := updated;
    for i := 0 to |existing|
      invariant MergeFrom(merged, existing[i..]) == MergeFrom(updated, existing)
    {
      assert existing[i..][1..] == existing[i + 1..];
      var (key, value) := existing[i];
      if key !in Keys(merged) {
        merged := merged + [(key, value)];
      }
    }
  }

  /** The merge only appends: the generated fields come first, unchanged. */
  lemma {:induction false} MergeKeepsPrefix(updated: seq<(string, Json)>, existing: seq<(string, Json)>)
    ensures |MergeFrom(updated, existing)| >= |updated|
    ensures MergeFrom(updated, existing)[..|updated|] == updated
    decreases |existing|
  {
    if existing != [] {
      var next := if existing[0].0 in Keys(updated) then updated else updated + [existing[0]];
      MergeKeepsPrefix(next, existing[1..]);
      assert MergeFrom(updated, existing)[..|next|][..|updated|] == next[..|updated|] == updated;
    }
  }

  /** The merged keys are the generated ones and those of the existing manifest, each once. */
  lemma {:induction false} MergeKeys(updated: seq<(string, Json)>, existing: seq<(string, Json)>)
    requires DistinctKeys(updated)
    ensures Keys(MergeFrom(updated, existing)) == Keys(updated) + Keys(existing)
    ensures DistinctKeys(MergeFrom(updated, existing))
    decreases |existing|
  {
    if existing != [] {
      var next := if existing[0].0 in Keys(updated) then updated else updated + [existing[0]];
      if existing[0].0 !in Keys(updated) { KeysAppend(updated, existing[0]); }
      assert Keys(next) == Keys(updated) + {existing[0].0};
      MergeKeys(next, existing[1..]);
      KeysCons(existing);
    }
  }

  lemma KeysCons(fields: seq<(string, Json)>)
    requires fields != []
    ensures Keys(fields) == {fields[0].0} + Keys(fields[1..])
  {
    forall k | k in Keys(fields) ensures k in {fields[0].0} + Keys(fields[1..]) {
      var i :| 0 <= i < |fields| && fields[i].0 == k;
      if i > 0 { assert fields[1..][i - 1] == fields[i]; }
    }
  }

  lemma KeysAppend(fields: seq<(string, Json)>, field: (string, Json))
    requires DistinctKeys(fields) && field.0 !in Keys(fields)
    ensures Keys(fields + [field]) == Keys(fields) + {field.0}
    ensures DistinctKeys(fields + [field])
  {
    var all := fields + [field];
    forall k | k in Keys(all) ensures k in Keys(fields) + {field.0} {
      var i :| 0 <= i < |all| && all[i].0 == k;
      if i < |fields| { assert all[i] == fields[i]; }
    }
    assert all[|fields|] == field;
    forall k | k in Keys(fields) ensures k in Keys(all) {
      var i :| 0 <= i < |fields| && fields[i].0 == k;
      assert all[i] == fields[i];
    }
    forall i, j | 0 <= i < j < |all| ensures all[i].0 != all[j].0 {
      assert all[i] == fields[i];
      if j < |fields| { assert all[j] == fields[j]; }
    }
  }

  /** A key already present keeps its value; any other key gets the value of its first existing field. */
  lemma {:induction false} MergeValues(updated: seq<(string, Json)>, existing: seq<(string, Json)>, key: string)
    ensures key in Keys(updated) ==> Lookup(MergeFrom(updated, existing), key) == Lookup(updated, key)
    ensures key !in Keys(updated) ==> Lookup(MergeFrom(updated, existing), key) == Lookup(existing, key)
    decreases |existing|
  {
    MergeKeepsPrefix(updated, existing);
    LookupPrefix(MergeFrom(updated, existing), |updated|, key);
    if existing != [] && key !in Keys(updated) {
      var next := if existing[0].0 in Keys(updated) then updated else updated + [existing[0]];
      MergeValues(next, existing[1..], key);
      if existing[0].0 != key {
        LookupPrefix(next, |updated|, key);
        assert next[..|updated|] == updated;
      } else {
        LookupPrefix(next, |updated|, key);
        assert next[..|updated|] == updated;
        LookupAppend(updated, existing[0]);
      }
    }
  }

  /** Looking up a key of a prefix finds it in the prefix. */
  lemma {:induction false} LookupPrefix(fields: seq<(string, Json)>, n: nat, key: string)
    requires n <= |fields|
    ensures key in Keys(fields[..n]) ==> Lookup(fields, key) == Lookup(fields[..n], key)
    ensures key !in Keys(fields[..n]) ==> Lookup(fields, key) == Lookup(fields[n..], key)
  {
    if n > 0 {
      assert fields[..n][1..] == fields[1..][..n - 1];
      assert fields[1..][n - 1..] == fields[n..];
      LookupPrefix(fields[1..], n - 1, key);
    } else {
      assert fields[n..] == fields;
    }
  }

  lemma LookupAppend(fields: seq<(string, Json)>, field: (string, Json))
    requires field.0 !in Keys(fields)
    ensures Lookup(fields + [field], field.0) == Some(field.1)
  {
    LookupPrefix(fields + [field], |fields|, field.0);
    assert (fields + [field])[..|fields|] == fields;
    assert (fields + [field])[|fields|..] == [field];
  }

  /** The four generated keys are distinct. */
  lemma GeneratedShape(videos: seq<Entry>, now: string)
    ensures Keys(Generated(videos, now)) == GeneratedKeys
    ensures DistinctKeys(Generated(videos, now))
  {
    var g := Generated(videos, now);
    assert g[0].0 == "videos" && g[1].0 == "total" && g[2].0 == "lastUpdated" && g[3].0 == "repository";
  }

  // ------------------------------------------------------------ the update

  /**
   * `load_existing_data` followed by `if existing_data: existing_data.items()`:
   * the fields to keep, none for a missing file or a falsy value, and `None`
   * for a truthy value that is not an object, whose `.items()` raises.
   */
  function ExistingFields(loaded: Option<Json>): Option<seq<(string, Json)>> {
    if loaded.None? || !Truthy(loaded.value) then Some([])
    else if loaded.value.Object? then Some(loaded.value.fields)
    else None
  }

  /** What `update_videos_json` ends in; only `Written` returns True. */
  datatype Update =
    | NoVideosDir
    | NoVideos
    | NotAnObject                              // the AttributeError escapes
    | WriteFailed(data: seq<(string, Json)>)
    | Written(data: seq<(string, Json)>)

  /** `update_videos_json`, from the two listings, the sizes, the clocks, the loaded manifest and whether writing succeeds. */
  function UpdateFrom(dirExists: bool, videoFiles: seq<string>, thumbnailFiles: seq<string>, measure: Measure,
                      today: string, now: string, loaded: Option<Json>, writable: bool): Update {
    if !dirExists then NoVideosDir
    else if videoFiles == [] then NoVideos
    else
      var videos := Entries(SortNames(videoFiles), 1, measure, StemMap(thumbnailFiles), today);
      match ExistingFields(loaded)
      case None => NotAnObject
      case Some(fields) =>
        var data := MergeFrom(Generated(videos, now), fields);
        if writable then Written(data) else WriteFailed(data)
  }

  /** `update_videos_json`, listing both folders through their globs. */
  method UpdateVideosJson(dirExists: bool, videoGlob: Glob, thumbnailGlob: Glob, measure: Measure,
                          today: string, now: string, loaded: Option<Json>, writable: bool) returns (u: Update)
    ensures u == UpdateFrom(dirExists, Listed(NarrowVideoPatterns, videoGlob), Listed(ThumbnailPatterns, thumbnailGlob),
                            measure, today, now, loaded, writable)
  {
    if !dirExists { return NoVideosDir; }
    var videoFiles := ListFiles(NarrowVideoPatterns, videoGlob);
    var thumbnails := GetThumbnailFiles(thumbnailGlob);
    if videoFiles == [] { return NoVideos; }
    var videos := GenerateVideoData(videoFiles, thumbnails, measure, today);
    var existing := ExistingFields(loaded);
    if existing.None? { return NotAnObject; }
    var data := Merge(Generated(videos, now), existing.value);
    u := if writable then Written(data) else WriteFailed(data);
  }

  /**
   * The merged fields: `videos`, `total`, `lastUpdated` and `repository` hold the
   * new values; every other key of the existing manifest keeps its value; no
   * other key appears, and none appears twice.
   */
  lemma MergedFields(videos: seq<Entry>, now: string, fields: seq<(string, Json)>)
    ensures var data := MergeFrom(Generated(videos, now), fields);
      && Lookup(data, "videos") == Some(Array(EntriesJson(videos)))
      && Lookup(data, "total") == Some(Int(|videos|))
      && Lookup(data, "lastUpdated") == Some(Str(now))
      && Lookup(data, "repository") == Some(Str(PagedCatalog.Repository))
      && (forall key :: key !in GeneratedKeys ==> Lookup(data, key) == Lookup(fields, key))
      && Keys(data) == GeneratedKeys + Keys(fields)
      && DistinctKeys(data)
  {
    var g := Generated(videos, now);
    GeneratedShape(videos, now);
    MergeKeys(g, fields);
    forall key ensures key in GeneratedKeys ==> Lookup(MergeFrom(g, fields), key) == Lookup(g, key)
                   ensures key !in GeneratedKeys ==> Lookup(MergeFrom(g, fields), key) == Lookup(fields, key)
    {
      MergeValues(g, fields, key);
    }
    LookupAt(g, 0);
    LookupAt(g, 1);
    LookupAt(g, 2);
    LookupAt(g, 3);
  }

  /** With distinct keys, each field is what its key looks up. */
  lemma {:induction false} LookupAt(fields: seq<(string, Json)>, i: nat)
    requires DistinctKeys(fields) && i < |fields|
    ensures Lookup(fields, fields[i].0) == Some(fields[i].1)
  {
    if i > 0 {
      assert DistinctKeys(fields[1..]) by {
        forall a, b | 0 <= a < b < |fields[1..]| ensures fields[1..][a].0 != fields[1..][b].0 {
          assert fields[1..][a] == fields[a + 1] && fields[1..][b] == fields[b + 1];
        }
      }
      LookupAt(fields[1..], i - 1);
      assert fields[1..][i - 1] == fields[i];
    }
  }

  /** The manifest built for writing counts every listed video once and merges as above. */
  lemma ManifestMerged(dirExists: bool, videoFiles: seq<string>, thumbnailFiles: seq<string>, measure: Measure,
                       today: string, now: string, loaded: Option<Json>, writable: bool)
    requires UpdateFrom(dirExists, videoFiles, thumbnailFiles, measure, today, now, loaded, writable).Written?
             || UpdateFrom(dirExists, videoFiles, thumbnailFiles, measure, today, now, loaded, writable).WriteFailed?
    ensures var data := UpdateFrom(dirExists, videoFiles, thumbnailFiles, measure, today, now, loaded, writable).data;
            var fields := ExistingFields(loaded).value;
      && dirExists && videoFiles != [] && (loaded.Some? && Truthy(loaded.value) ==> loaded.value.Object?)
      && Lookup(data, "total") == Some(Int(|videoFiles|))
      && Lookup(data, "videos").Some? && Lookup(data, "videos").value.Array?
      && |Lookup(data, "videos").value.items| == |videoFiles|
      && (forall key :: key !in GeneratedKeys ==> Lookup(data, key) == Lookup(fields, key))
      && Keys(data) == GeneratedKeys + Keys(fields)
  {
    var u := UpdateFrom(dirExists, videoFiles, thumbnailFiles, measure, today, now, loaded, writable);
    assert dirExists && videoFiles != [] && ExistingFields(loaded).Some?;
    var videos := Entries(SortNames(videoFiles), 1, measure, StemMap(thumbnailFiles), today);
    var fields := ExistingFields(loaded).value;
    assert u.data == MergeFrom(Generated(videos, now), fields);
    assert |videos| == |videoFiles| by {
      assert |SortNames(videoFiles)| == |multiset(SortNames(videoFiles))| == |videoFiles|;
    }
    MergedFields(videos, now, fields);
  }
}
