/**
 * `VideoCompressor.compress_large_videos` (cheak.py): every listed video whose
 * rounded size exceeds the check threshold is compressed to the target size,
 * and the outcomes are counted.
 */
module CompressBatch {
  import opened Wrappers
  import opened Paths
  import opened Sizes
  import opened Listing
  import opened Compressor

  /** `videos_path`, `backup_path`, `check_size_mb` and `target_size_mb`. */
  datatype Settings = Settings(videosDir: string, backupDir: string, check: real, target: real)

  /**
   * What ffmpeg and the clock answer for each file, by name: the probe's
   * diagnostic text, the encoder, whether a move raises, and the backup time stamp.
   */
  datatype Env = Env(probe: string -> Option<string>, encode: string -> (nat, int) -> Encode,
                     fault: string -> MoveFault, stamp: string -> string)

  /** The call `compress_video_to_size(videos_path / name, target_size_mb)`. */
  function JobFor(s: Settings, env: Env, name: string): Job {
    Job(Path(s.videosDir, name), s.target, s.backupDir, env.encode(name), env.fault(name), env.stamp(name))
  }

  /** `get_file_size`: the rounded size in MB, or 0 when the file does not exist. */
  function FileSizeMB(files: Files, p: Path): real {
    if p in files then MB(RoundedTenths(|files[p]|)) else 0.0
  }

  /** The disk and the two counters after the loop; `raised` is a ZeroDivisionError escaping it. */
  datatype Sweep = Sweep(files: Files, compressed: nat, skipped: nat, raised: bool)

  /** Lines 279-290 over the listed names, each file's size read from the disk as it is by then. */
  function SweepFrom(files: Files, s: Settings, env: Env, names: seq<string>): Sweep
    decreases |names|
  {
    if names == [] then Sweep(files, 0, 0, false)
    else if FileSizeMB(files, Path(s.videosDir, names[0])) <= s.check then SweepFrom(files, s, env, names[1..])
    else
      var r := Compress(files, JobFor(s, env, names[0]), env.probe(names[0]));
      if r.outcome == DivisionByZero then Sweep(r.files, 0, 0, true)
      else
        var rest := SweepFrom(r.files, s, env, names[1..]);
        if r.outcome.Compressed? then rest.(compressed := rest.compressed + 1)
        else rest.(skipped := rest.skipped + 1)
  }

  datatype Report =
    | NoEncoder                           // ffmpeg is not available
    | NoVideosDir                         // the videos folder does not exist
    | NoVideos                            // no file matched
    | Counted(compressed: nat, skipped: nat)
    | Raised                              // a zero target made a compression raise

  /** `compress_large_videos`: the report and the disk afterwards. */
  function Batch(files: Files, s: Settings, env: Env, ffmpeg: bool, dirExists: bool, names: seq<string>): (Report, Files) {
    if !ffmpeg then (NoEncoder, files)
    else if !dirExists then (NoVideosDir, files)
    else if names == [] then (NoVideos, files)
    else
      var w := SweepFrom(files, s, env, names);
      (if w.raised then Raised else Counted(w.compressed, w.skipped), w.files)
  }

  /** `compress_large_videos` on the disk, listing the folder through `glob`. */
  method CompressLargeVideos(disk: Disk, s: Settings, env: Env, ffmpeg: bool, dirExists: bool, glob: Glob)
    returns (report: Report)
    modifies disk
    ensures (report, disk.files) == Batch(old(disk.files), s, env, ffmpeg, dirExists, Listed(VideoPatterns, glob))
  {
    if !ffmpeg { return NoEncoder; }
    if !dirExists { return NoVideosDir; }
    var names := ListFiles(VideoPatterns, glob);
    if names == [] { return NoVideos; }
    var compressed, skipped, raised := SweepDisk(disk, s, env, names);
    report := if raised then Raised else Counted(compressed, skipped);
  }

  /** Lines 276-290 on the disk. */
  method SweepDisk(disk: Disk, s: Settings, env: Env, names: seq<string>)
    returns (compressed: nat, skipped: nat, raised: bool)
    modifies disk
    ensures var w := SweepFrom(old(disk.files), s, env, names);
      disk.files == w.files && raised == w.raised && compressed == w.compressed && skipped == w.skipped
  {
    ghost var spec := SweepFrom(disk.files, s, env, names);
    compressed, skipped, raised := 0, 0, false;
    for i := 0 to |names|
      invariant var rest := SweepFrom(disk.files, s, env, names[i..]);
        && rest.files == spec.files && rest.raised == spec.raised
        && compressed + rest.compressed == spec.compressed && skipped + rest.skipped == spec.skipped
    {
      assert names[i..][1..] == names[i + 1..];
      var name := names[i];
      if FileSizeMB(disk.files, Path(s.videosDir, name)) > s.check {
        var outcome := Visit(disk, s, env, names[i..]);
        if outcome == DivisionByZero {
          raised := true;
          return;
        }
        if outcome.Compressed? {
          compressed := compressed + 1;
        } else {
          skipped := skipped + 1;
        }
      }
    }
  }

  /** One submitted file, `names[0]`, compressed on the disk. */
  method Visit(disk: Disk, s: Settings, env: Env, names: seq<string>) returns (outcome: Outcome)
    requires names != [] && FileSizeMB(disk.files, Path(s.videosDir, names[0])) > s.check
    modifies disk
    ensures outcome == DivisionByZero ==> SweepFrom(old(disk.files), s, env, names) == Sweep(disk.files, 0, 0, true)
    ensures outcome != DivisionByZero ==>
      var rest := SweepFrom(disk.files, s, env, names[1..]);
      SweepFrom(old(disk.files), s, env, names)
        == if outcome.Compressed? then rest.(compressed := rest.compressed + 1) else rest.(skipped := rest.skipped + 1)
  {
    ghost var before := disk.files;
    outcome := CompressVideoToSize(disk, JobFor(s, env, names[0]), env.probe(names[0]));
    SweepStep(before, s, env, names, outcome, disk.files);
  }

  /** One submitted file: the rest of the loop runs on the disk its compression left. */
  lemma SweepStep(files: Files, s: Settings, env: Env, names: seq<string>, outcome: Outcome, after: Files)
    requires names != [] && FileSizeMB(files, Path(s.videosDir, names[0])) > s.check
    requires var r := Compress(files, JobFor(s, env, names[0]), env.probe(names[0]));
             outcome == r.outcome && after == r.files
    ensures outcome == DivisionByZero ==> SweepFrom(files, s, env, names) == Sweep(after, 0, 0, true)
    ensures outcome != DivisionByZero ==>
      var rest := SweepFrom(after, s, env, names[1..]);
      SweepFrom(files, s, env, names)
        == if outcome.Compressed? then rest.(compressed := rest.compressed + 1) else rest.(skipped := rest.skipped + 1)
  {
  }

  // ============================================================ properties

  /** The names whose file, as it was before the loop, is above the threshold. */
  function Submitted(files: Files, s: Settings, names: seq<string>): seq<string> {
    if names == [] then []
    else (if FileSizeMB(files, Path(s.videosDir, names[0])) > s.check then [names[0]] else [])
         + Submitted(files, s, names[1..])
  }

  /**
   * Compressing one listed file cannot change another one's size: the names are
   * distinct, none is another's scratch name `{stem}_compressed{suffix}`, the
   * backup folder is not the videos folder, the time stamps are well formed, and
   * none is one of the two pass logs deleted around every encode.
   */
  predicate Separate(s: Settings, env: Env, names: seq<string>) {
    && s.backupDir != s.videosDir
    && (forall i, j :: 0 <= i < j < |names| ==> names[i] != names[j])
    && (forall i, j :: 0 <= i < |names| && 0 <= j < |names| ==>
          Path(s.videosDir, names[j]) != TempPath(Path(s.videosDir, names[i])))
    && (forall i :: 0 <= i < |names| ==> IsTimestamp(env.stamp(names[i])))
    && (forall i :: 0 <= i < |names| ==> names[i] != "ffmpeg2pass-0.log" && names[i] != "ffmpeg2pass-0.log.mbtree")
  }

  /** Two disks that hold the same files at the listed names submit the same ones. */
  lemma {:induction false} SubmittedAgree(f: Files, g: Files, s: Settings, names: seq<string>)
    requires forall n :: n in names ==> FileSizeMB(f, Path(s.videosDir, n)) == FileSizeMB(g, Path(s.videosDir, n))
    ensures Submitted(f, s, names) == Submitted(g, s, names)
  {
    if names != [] { SubmittedAgree(f, g, s, names[1..]); }
  }

  /** Dropping the first name keeps the names separate. */
  lemma SeparateTail(s: Settings, env: Env, names: seq<string>)
    requires names != [] && Separate(s, env, names)
    ensures Separate(s, env, names[1..])
  {
    var tail := names[1..];
    forall i, j | 0 <= i < |tail| && 0 <= j < |tail|
      ensures Path(s.videosDir, tail[j]) != TempPath(Path(s.videosDir, tail[i]))
    {
      assert tail[i] == names[i + 1] && tail[j] == names[j + 1];
    }
  }

  /** Compressing `first` leaves the size of another listed name `n` as it was. */
  lemma OtherKept(files: Files, s: Settings, env: Env, first: string, n: string)
    requires first != n && s.backupDir != s.videosDir && IsTimestamp(env.stamp(first))
    requires Path(s.videosDir, n) != TempPath(Path(s.videosDir, first))
    requires n != "ffmpeg2pass-0.log" && n != "ffmpeg2pass-0.log.mbtree"
    ensures FileSizeMB(Compress(files, JobFor(s, env, first), env.probe(first)).files, Path(s.videosDir, n))
         == FileSizeMB(files, Path(s.videosDir, n))
  {
    CompressFrame(files, JobFor(s, env, first), env.probe(first), Path(s.videosDir, n));
  }

  /**
   * With a non-zero target nothing raises, and `compressed + skipped` is exactly
   * the number of listed files that were above the threshold before the loop.
   */
  lemma {:induction false} CountsMatchSubmitted(files: Files, s: Settings, env: Env, names: seq<string>)
    requires s.target != 0.0 && Separate(s, env, names)
    ensures var w := SweepFrom(files, s, env, names);
      !w.raised && w.compressed + w.skipped == |Submitted(files, s, names)|
    decreases |names|
  {
    if names != [] {
      var tail := names[1..];
      SeparateTail(s, env, names);
      if FileSizeMB(files, Path(s.videosDir, names[0])) <= s.check {
        CountsMatchSubmitted(files, s, env, tail);
      } else {
        var job := JobFor(s, env, names[0]);
        var r := Compress(files, job, env.probe(names[0]));
        RaisesOnlyOnZeroTarget(files, job, env.probe(names[0]));
        forall n | n in tail
          ensures FileSizeMB(r.files, Path(s.videosDir, n)) == FileSizeMB(files, Path(s.videosDir, n))
        {
          var j :| 0 <= j < |tail| && tail[j] == n;
          assert names[j + 1] == n && names[0] != n;
          assert Path(s.videosDir, names[j + 1]) != TempPath(Path(s.videosDir, names[0]));
          OtherKept(files, s, env, names[0], n);
        }
        SubmittedAgree(r.files, files, s, tail);
        CountsMatchSubmitted(r.files, s, env, tail);
      }
    }
  }
}
