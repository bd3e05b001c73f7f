/**
 * `VideoLibraryUpdater` of update_pro.py: one catalog record per video file (in
 * sorted name order, numbered from 1) with a generated SVG thumbnail, and a
 * manifest holding every record in a single page plus pagination figures.
 *
 * The size of each file, as `get_file_size` reports it, and whether writing a
 * thumbnail succeeds are inputs; so are the two clock readings.
 */
module PagedCatalog {
  import opened Wrappers
  import opened Text
  import opened Numbers
  import opened Paths
  import opened Sizes
  import opened Order
  import opened Listing
  import opened Enumeration
  import opened Naming

  /**
   * `get_file_size(name)`: `Some(t)` for a file of `t` tenths of a MB
   * (`round(bytes / 1048576, 1)`), `None` for a missing file, for which the
   * method returns the integer 0.
   */
  type Measure = string -> Option<nat>

  /** The size as a number of tenths; a missing file counts as 0. */
  function Tenths(size: Option<nat>): nat { if size.Some? then size.value else 0 }

  const MaxSeconds: nat := 3600

  // ------------------------------------------------------------- duration

  /** `min(int(size_mb / 0.25), 3600)` */
  function EstimateSeconds(size: Option<nat>): nat {
    var raw := Trunc(MB(Tenths(size)) / 0.25);
    if raw < MaxSeconds then raw else MaxSeconds
  }

  /** `estimate_duration` */
  function EstimateDuration(size: Option<nat>): string { Clock(EstimateSeconds(size)) }

  /** The estimate is four seconds per tenth of a MB... divided by ten: `min(floor(0.4 * tenths), 3600)`, never above an hour. */
  lemma EstimateSecondsExact(size: Option<nat>)
    ensures EstimateSeconds(size) == if 4 * Tenths(size) / 10 < MaxSeconds then 4 * Tenths(size) / 10 else MaxSeconds
    ensures EstimateSeconds(size) <= MaxSeconds
  {
    var t := Tenths(size);
    var x := MB(t) / 0.25;
    assert x == (4 * t) as real / 10.0;
    var q := 4 * t / 10;
    assert (4 * t) as real == (10 * q) as real + (4 * t - 10 * q) as real;
    assert q as real <= x < q as real + 1.0;
  }

  /** A larger file never gets a shorter estimate. */
  lemma EstimateSecondsMonotone(a: Option<nat>, b: Option<nat>)
    requires Tenths(a) <= Tenths(b)
    ensures EstimateSeconds(a) <= EstimateSeconds(b)
  {
    EstimateSecondsExact(a);
    EstimateSecondsExact(b);
  }

  /** The duration text reads back as the estimate, so it never exceeds "60:00". */
  lemma EstimateDurationReads(size: Option<nat>)
    ensures ParseClock(EstimateDuration(size)) == Some(EstimateSeconds(size))
    ensures EstimateSeconds(size) <= MaxSeconds
  {
    ClockRoundTrip(EstimateSeconds(size));
    EstimateSecondsExact(size);
  }

  // ----------------------------------------------------------- resolution

  /** The keyword groups of `get_video_dimensions_from_filename`, in the order they are tried. */
  const ResolutionKeys: seq<seq<string>> := [["4k", "2160p", "uhd"], ["2k", "1440p"], ["1080p", "fullhd"], ["720p", "hd"]]
  const ResolutionNames: seq<string> := ["3840x2160", "2560x1440", "1920x1080", "1280x720"]

  /** `any(x in lowered for x in keys)` */
  predicate AnyIn(lowered: string, keys: seq<string>) {
    exists i :: 0 <= i < |keys| && Contains(lowered, keys[i])
  }

  /** The first keyword group, at index `g` or later, one of whose words occurs in `lowered`. */
  function FirstGroupFrom(lowered: string, g: nat): (r: Option<nat>)
    requires g <= |ResolutionKeys|
    ensures r.Some? ==> g <= r.value < |ResolutionKeys| && AnyIn(lowered, ResolutionKeys[r.value])
    ensures r.Some? ==> forall j :: g <= j < r.value ==> !AnyIn(lowered, ResolutionKeys[j])
    ensures r.None? ==> forall j :: g <= j < |ResolutionKeys| ==> !AnyIn(lowered, ResolutionKeys[j])
    decreases |ResolutionKeys| - g
  {
    if g == |ResolutionKeys| then None
    else if AnyIn(lowered, ResolutionKeys[g]) then Some(g)
    else FirstGroupFrom(lowered, g + 1)
  }

  /** `get_video_dimensions_from_filename(filename)`, the size only read when no keyword matches. */
  function Resolution(filename: string, size: Option<nat>): string {
    match FirstGroupFrom(Lower(filename), 0)
    case Some(g) => ResolutionNames[g]
    case None =>
      var mb := MB(Tenths(size));
      if mb > 100.0 then "1920x1080" else if mb > 50.0 then "1280x720" else "854x480"
  }

  /** A keyword of group `g`, with none of an earlier group, fixes the resolution whatever the size. */
  lemma ResolutionByKeyword(filename: string, g: nat, size: Option<nat>)
    requires g < |ResolutionKeys| && AnyIn(Lower(filename), ResolutionKeys[g])
    requires forall j :: 0 <= j < g ==> !AnyIn(Lower(filename), ResolutionKeys[j])
    ensures Resolution(filename, size) == ResolutionNames[g]
  {
  }

  /** Without any keyword the size bands decide: above 100 MB, above 50 MB, the rest. */
  lemma ResolutionBySize(filename: string, size: Option<nat>)
    requires forall j :: 0 <= j < |ResolutionKeys| ==> !AnyIn(Lower(filename), ResolutionKeys[j])
    ensures Resolution(filename, size) == if Tenths(size) > 1000 then "1920x1080"
                                         else if Tenths(size) > 500 then "1280x720" else "854x480"
  {
  }

  /** The result is one of six fixed strings, and the size matters only when no keyword matches. */
  lemma ResolutionIndependentOfSize(filename: string, a: Option<nat>, b: Option<nat>)
    requires exists j :: 0 <= j < |ResolutionKeys| && AnyIn(Lower(filename), ResolutionKeys[j])
    ensures Resolution(filename, a) == Resolution(filename, b)
    ensures Resolution(filename, a) in ResolutionNames
  {
  }

  // --------------------------------------------------------------- colours

  /** The thumbnail's `color_scheme`. */
  datatype Palette = Palette(bg: string, primary: string, secondary: string)

  const Purple: Palette := Palette("#4C1D95", "#8B5CF6", "#C4B5FD")
  const Green: Palette := Palette("#065F46", "#10B981", "#6EE7B7")
  const Blue: Palette := Palette("#1E40AF", "#3B82F6", "#93C5FD")

  /** The colour band of `create_svg_thumbnail` for a file of the given size. */
  function ColourFor(size: Option<nat>): Palette {
    var mb := MB(Tenths(size));
    if mb > 50.0 then Purple else if mb > 20.0 then Green else Blue
  }

  /** Each band is exactly a size range: above 50 MB purple, above 20 MB green, the rest blue. */
  lemma ColourBands(size: Option<nat>)
    ensures ColourFor(size) == Purple <==> Tenths(size) > 500
    ensures ColourFor(size) == Green <==> 200 < Tenths(size) <= 500
    ensures ColourFor(size) == Blue <==> Tenths(size) <= 200
  {
  }

  // --------------------------------------------------------------- records

  const CdnVideos: string := "https://cdn.jsdelivr.net/gh/yezhu9181/my-video-host@main/videos/"
  const CdnThumbnails: string := "https://cdn.jsdelivr.net/gh/yezhu9181/my-video-host@main/thumbnails/"
  const Codec: string := "H.264"
  const ThumbnailType: string := "SVG"

  /** One video's entry in the manifest. */
  datatype Record = Record(id: nat, title: string, filename: string, url: string, description: string,
                           duration: string, size: string, thumbnail: string, codec: string,
                           resolution: string, createdAt: string, thumbnailType: string)

  /** `create_svg_thumbnail`: the thumbnail's file name, or "" when writing it raised. */
  function ThumbnailName(filename: string, saved: string -> bool): string {
    var name := Stem(filename) + ".svg";
    if saved(name) then name else ""
  }

  /** Line 115: the CDN link of the thumbnail, empty when there is none. */
  function ThumbnailLink(filename: string, saved: string -> bool): (link: string)
    ensures link == "" <==> !saved(Stem(filename) + ".svg")
    ensures link != "" ==> link == CdnThumbnails + Stem(filename) + ".svg"
  {
    var thumbnail := ThumbnailName(filename, saved);
    if thumbnail != "" then CdnThumbnails + thumbnail else ""
  }

  /** `f"{file_size} MB"`: the rounded float, or the integer 0 of a missing file. */
  function SizeText(size: Option<nat>): string {
    (if size.Some? then ShowTenths(size.value) else "0") + " MB"
  }

  /** Lines 108-133 for the video numbered `id`. */
  function RecordFor(id: nat, filename: string, measure: Measure, saved: string -> bool, today: string): Record {
    var title := FriendlyTitle(Stem(filename));
    var size := measure(filename);
    Record(id, title, filename, CdnVideos + filename, Description(title), EstimateDuration(size),
           SizeText(size), ThumbnailLink(filename, saved), Codec,
           Resolution(filename, size), today, ThumbnailType)
  }

  /** `RecordFor` as the body of the numbering loop. */
  function RecordMaker(measure: Measure, saved: string -> bool, today: string): (nat, string) -> Record {
    (id: nat, filename: string) => RecordFor(id, filename, measure, saved, today)
  }

  /** The records of `files` numbered from `first`, in order. */
  function Records(files: seq<string>, first: nat, measure: Measure, saved: string -> bool, today: string): seq<Record> {
    Numbered(files, first, RecordMaker(measure, saved, today))
  }

  /** `generate_video_data`: the loop over `enumerate(sorted(video_files), 1)`. */
  method GenerateVideoData(videoFiles: seq<string>, measure: Measure, saved: string -> bool, today: string)
    returns (videos: seq<Record>)
    ensures videos == Records(SortNames(videoFiles), 1, measure, saved, today)
  {
    videos := Enumerate(SortNames(videoFiles), 1, RecordMaker(measure, saved, today));
  }

  /** The `i`-th record is that of the `i`-th file, numbered `first + i`. */
  lemma RecordsAt(files: seq<string>, first: nat, measure: Measure, saved: string -> bool, today: string, i: nat)
    requires i < |files|
    ensures |Records(files, first, measure, saved, today)| == |files|
    ensures Records(files, first, measure, saved, today)[i] == RecordFor(first + i, files[i], measure, saved, today)
  {
    NumberedAt(files, first, RecordMaker(measure, saved, today), i);
  }

  /**
   * A record numbered `id` for `filename`: it links the CDN copy of the file, its
   * thumbnail link is empty exactly when writing the thumbnail failed and
   * otherwise points at `{stem}.svg`, and the fixed fields hold their constants.
   */
  predicate Describes(r: Record, id: nat, filename: string, saved: string -> bool, today: string) {
    && r.id == id
    && r.filename == filename
    && r.url == CdnVideos + filename
    && (r.thumbnail == "" <==> !saved(Stem(filename) + ".svg"))
    && (r.thumbnail != "" ==> r.thumbnail == CdnThumbnails + Stem(filename) + ".svg")
    && r.codec == Codec && r.thumbnailType == ThumbnailType && r.createdAt == today
  }

  lemma RecordDescribes(id: nat, filename: string, measure: Measure, saved: string -> bool, today: string)
    ensures Describes(RecordFor(id, filename, measure, saved, today), id, filename, saved, today)
  {
  }

  /** The records follow sorted file-name order with ids 1..n, one per listed file. */
  lemma GeneratedRecords(videoFiles: seq<string>, measure: Measure, saved: string -> bool, today: string)
    ensures var files := SortNames(videoFiles);
            var videos := Records(files, 1, measure, saved, today);
      && |videos| == |videoFiles|
      && Sorted(files) && multiset(files) == multiset(videoFiles)
      && forall i :: 0 <= i < |files| ==> Describes(videos[i], i + 1, files[i], saved, today)
  {
    var files := SortNames(videoFiles);
    var videos := Records(files, 1, measure, saved, today);
    assert |files| == |multiset(files)| == |videoFiles|;
    forall i | 0 <= i < |files| ensures Describes(videos[i], i + 1, files[i], saved, today) {
      RecordsAt(files, 1, measure, saved, today, i);
      RecordDescribes(1 + i, files[i], measure, saved, today);
    }
  }

  /** A record's link gives back its file name. */
  lemma UrlNamesFile(r: Record, id: nat, filename: string, measure: Measure, saved: string -> bool, today: string)
    requires r == RecordFor(id, filename, measure, saved, today)
    ensures |r.url| >= |CdnVideos| && r.url[|CdnVideos|..] == filename
  {
  }

  /** A record's size and duration read back as the measured size and the estimate. */
  lemma RecordTextsRead(id: nat, filename: string, measure: Measure, saved: string -> bool, today: string)
    requires measure(filename).Some?
    ensures var r := RecordFor(id, filename, measure, saved, today);
      && |r.size| > 3 && r.size[|r.size| - 3..] == " MB"
      && ParseUnsigned(r.size[..|r.size| - 3]) == Some(MB(measure(filename).value))
      && ParseClock(r.duration) == Some(EstimateSeconds(measure(filename)))
  {
    var r := RecordFor(id, filename, measure, saved, today);
    ShowTenthsParses(measure(filename).value);
    assert r.size[..|r.size| - 3] == ShowTenths(measure(filename).value);
    EstimateDurationReads(measure(filename));
  }

  // ------------------------------------------------------------ pagination

  datatype Pagination = Pagination(total: nat, page: nat, pageSize: int, totalPages: int, hasNext: bool, hasPrev: bool)

  /** Lines 209-222; `None` is the ZeroDivisionError of a zero page size. */
  function Paginate(total: nat, pageSize: int): Option<Pagination> {
    if pageSize == 0 then None
    else Some(Pagination(total, 1, pageSize, FloorDiv(total + pageSize - 1, pageSize), false, false))
  }

  /**
   * With a positive page size the page count is the ceiling of total / pageSize:
   * the fewest pages of that size that hold every video.  The manifest still
   * reports page 1 of it with no next or previous page.
   */
  lemma PaginateCeil(total: nat, pageSize: int)
    requires pageSize > 0
    ensures var p := Paginate(total, pageSize).value;
      && p.totalPages >= 0
      && p.totalPages * pageSize >= total
      && (total > 0 ==> (p.totalPages - 1) * pageSize < total)
      && (total == 0 ==> p.totalPages == 0)
      && p.page == 1 && !p.hasNext && !p.hasPrev
  {
    var q := FloorDiv(total + pageSize - 1, pageSize);
    assert q * pageSize <= total + pageSize - 1 < (q + 1) * pageSize;
  }

  // -------------------------------------------------------------- manifest

  const Repository: string := "https://github.com/yezhu9181/my-video-host"

  /** `apiEndpoints`, in order. */
  const ApiEndpoints: seq<(string, string)> := [
    ("allVideos", "/videos.json"),
    ("paginated", "/videos.json?page={page}&limit={limit}"),
    ("search", "/videos.json?search={keyword}"),
    ("byId", "/videos.json?id={id}")]

  datatype Manifest = Manifest(videos: seq<Record>, pagination: Pagination, lastUpdated: string,
                               repository: string, apiEndpoints: seq<(string, string)>)

  /** What `update_videos_json` ends in; only `Written` returns True. */
  datatype Update =
    | NoVideosDir
    | NoVideos
    | ZeroPageSize                 // the ZeroDivisionError escapes
    | WriteFailed(manifest: Manifest)
    | Written(manifest: Manifest)

  /** `update_videos_json` given the listing, the sizes, the thumbnail writes, the clocks and whether writing the manifest succeeds. */
  function UpdateFrom(dirExists: bool, listing: seq<string>, measure: Measure, saved: string -> bool,
                      today: string, now: string, pageSize: int, writable: bool): Update {
    if !dirExists then NoVideosDir
    else if listing == [] then NoVideos
    else
      var videos := Records(SortNames(listing), 1, measure, saved, today);
      match Paginate(|videos|, pageSize)
      case None => ZeroPageSize
      case Some(p) =>
        var m := Manifest(videos, p, now, Repository, ApiEndpoints);
        if writable then Written(m) else WriteFailed(m)
  }

  /** `update_videos_json`, listing the folder through `glob`. */
  method UpdateVideosJson(dirExists: bool, glob: Glob, measure: Measure, saved: string -> bool,
                          today: string, now: string, pageSize: int, writable: bool) returns (u: Update)
    ensures u == UpdateFrom(dirExists, Listed(VideoPatterns, glob), measure, saved, today, now, pageSize, writable)
  {
    if !dirExists { return NoVideosDir; }
    var listing := ListFiles(VideoPatterns, glob);
    if listing == [] { return NoVideos; }
    var videos := GenerateVideoData(listing, measure, saved, today);
    if pageSize == 0 { return ZeroPageSize; }
    var m := Manifest(videos, Paginate(|videos|, pageSize).value, now, Repository, ApiEndpoints);
    u := if writable then Written(m) else WriteFailed(m);
  }

  /** A written manifest counts every listed file once and holds them all in its single page. */
  lemma ManifestTotals(dirExists: bool, listing: seq<string>, measure: Measure, saved: string -> bool,
                       today: string, now: string, pageSize: int, writable: bool)
    requires UpdateFrom(dirExists, listing, measure, saved, today, now, pageSize, writable).Written?
    ensures var m := UpdateFrom(dirExists, listing, measure, saved, today, now, pageSize, writable).manifest;
      && m.pagination.total == |m.videos| == |listing| > 0
      && m.pagination.page == 1 && !m.pagination.hasNext && !m.pagination.hasPrev
      && m.pagination.pageSize == pageSize != 0
      && m.pagination == Paginate(|listing|, pageSize).value
  {
    var files := SortNames(listing);
    assert |files| == |multiset(files)| == |listing|;
  }
}
