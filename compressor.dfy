/**
 * `VideoCompressor` (cheak.py): shrink every video above a size threshold to a
 * target size by two-pass encoding with a feedback-adjusted bitrate, moving the
 * original to a backup directory on success.
 *
 * ffmpeg is not modelled: the probe's diagnostic text is an input, and each
 * encode attempt's result is read from an oracle `encode(attempt, bitrate)`.
 * The disk is a map from paths to contents.
 */
module Compressor {
  import opened Wrappers
  import opened Text
  import opened Numbers
  import opened Paths
  import opened Sizes

  type Bytes = seq<bv8>

  /** The file `dir/name`. */
  datatype Path = Path(dir: string, name: string)

  type Files = map<Path, Bytes>

  const AudioBitrate: int := 128
  const MinBitrate: int := 500
  const MaxAttempts: nat := 5
  const SafetyMargin: real := 0.95
  const Decay: real := 0.9

  /** `stat().st_size / (1024 * 1024)` */
  function SizeMB(b: Bytes): real { |b| as real / BytesPerMB as real }

  // ------------------------------------------------------------ the disk

  /** The files on disk, changed in place by the compressor. */
  class Disk {
    var files: Files

    constructor (files: Files)
      ensures this.files == files
    {
      this.files := files;
    }

    /** `if p.exists(): p.unlink()` */
    method Remove(p: Path)
      modifies this
      ensures files == old(files) - {p}
    {
      files := files - {p};
    }

    /** The encoder writing (or overwriting, `-y`) its output file. */
    method Write(p: Path, content: Bytes)
      modifies this
      ensures files == old(files)[p := content]
    {
      files := files[p := content];
    }

    /** `shutil.move(from, to)` of a plain file: a rename that replaces `to`. */
    method Move(from: Path, to: Path)
      requires from in files
      modifies this
      ensures files == Moved(old(files), from, to)
    {
      if from != to {
        files := files[to := files[from]] - {from};
      }
    }
  }

  function Moved(files: Files, from: Path, to: Path): (r: Files)
    requires from in files
    ensures to in r && r[to] == files[from]
    ensures from != to ==> from !in r
    ensures forall p :: p != from && p != to ==> (p in r <==> p in files) && (p in r ==> r[p] == files[p])
  {
    if from == to then files else files[to := files[from]] - {from}
  }

  // ---------------------------------------------------- probing the duration

  /**
   * The duration one line of ffmpeg's diagnostic text gives, as the body of the
   * scan loop reads it: a line mentioning "Duration" whose text between
   * "Duration:" and the next ',' splits on ':' into at least three numbers
   * `h:m:s` gives `h*3600 + m*60 + s`; any other line gives nothing (it has no
   * "Duration", or indexing or `float()` raises and the loop continues, or it has
   * fewer than three fields and the loop goes on without breaking).
   */
  function LineDuration(line: string): Option<real> {
    if !Contains(line, "Duration") then None
    else
      var pieces := Split(line, "Duration:");
      if |pieces| < 2 then None
      else
        var fields := Split(Strip(Split(pieces[1], ",")[0]), ":");
        if |fields| < 3 then None
        else
          match (ParseFloat(fields[0]), ParseFloat(fields[1]), ParseFloat(fields[2]))
          case (Some(h), Some(m), Some(s)) => Some(ClockSeconds(h, m, s))
          case _ => None
  }

  /** `hours * 3600 + minutes * 60 + seconds` */
  function ClockSeconds(hours: real, minutes: real, seconds: real): real {
    hours * 3600.0 + minutes * 60.0 + seconds
  }

  /** The duration the scan settles on: that of the first line that gives one, 0 when none does. */
  function ProbedDuration(lines: seq<string>): real {
    if lines == [] then 0.0
    else match LineDuration(lines[0])
      case Some(d) => d
      case None => ProbedDuration(lines[1..])
  }

  /** The first line that gives a duration decides; the lines after it are never read. */
  lemma {:induction false} ProbedDurationFirst(lines: seq<string>, k: nat, d: real)
    requires k < |lines| && LineDuration(lines[k]) == Some(d)
    requires forall j :: 0 <= j < k ==> LineDuration(lines[j]).None?
    ensures ProbedDuration(lines) == d
  {
    if k > 0 {
      assert LineDuration(lines[0]).None?;
      assert lines[1..][k - 1] == lines[k];
      ProbedDurationFirst(lines[1..], k - 1, d);
    }
  }

  /** No line gives a duration: the scan ends with 0, and the function gives up before encoding. */
  lemma {:induction false} ProbedDurationNone(lines: seq<string>)
    requires forall j :: 0 <= j < |lines| ==> LineDuration(lines[j]).None?
    ensures ProbedDuration(lines) == 0.0
  {
    if lines != [] { ProbedDurationNone(lines[1..]); }
  }

  /** The marker right after a `pre` that lacks it is the first one, so the second piece starts after it. */
  lemma MarkerSplit(pre: string, rest: string)
    requires !Contains(pre, "Duration:")
    ensures var line := pre + "Duration:" + rest;
      Contains(line, "Duration") && Split(line, "Duration:") == [pre] + Split(rest, "Duration:")
  {
    var line := pre + "Duration:" + rest;
    var n := |pre|;
    assert line[..n] == pre;
    assert line[n..n + 9] == "Duration:";
    assert line[n..n + 8] == "Duration";
    assert OccursAt(line, "Duration", n);
    NoOccurrenceBefore(line, "Duration:", n);
    FindFirst(line, "Duration:", n);
    assert line[n + 9..] == rest;
  }

  /** Between the marker and the next ',' lies one piece; its first ','-piece is the text with its leading space. */
  lemma DurationText(text: string, post: string)
    requires Free(text, ',') && !Contains(text, "Duration:")
    ensures Split(Split(" " + text + "," + post, "Duration:")[0], ",")[0] == " " + text
  {
    var rest := " " + text + "," + post;
    var n := |text| + 1;
    assert rest[..n] == " " + text;
    ContainsCons(' ', text, "Duration:");
    NoOccurrenceBefore(rest, "Duration:", n);
    if n + 9 <= |rest| { assert rest[n..n + 9][0] == ','; }
    FirstPieceKeeps(rest, "Duration:", n);
    var q := Split(rest, "Duration:")[0];
    assert q == (" " + text) + [','] + q[n + 1..] by {
      assert q[..n + 1] == rest[..n + 1] == (" " + text) + [','];
    }
    SplitChar(" " + text, ',', q[n + 1..]);
  }

  /**
   * Fields that can stand between `Duration: ` and the next ',': none holds ':' or
   * ',', the joined text neither starts nor ends with whitespace, and it does not
   * itself hold the marker.
   */
  predicate FieldsText(fields: seq<string>) {
    && |fields| >= 1 && (forall k :: 0 <= k < |fields| ==> Free(fields[k], ':') && Free(fields[k], ','))
    && var text := Join(fields, ":");
       text != [] && !IsSpace(text[0]) && !IsSpace(text[|text| - 1]) && !Contains(text, "Duration:")
  }

  /**
   * A line `pre`, `Duration: `, fields joined by ':', then ',' and the rest: the
   * first three fields, read by `float()`, give hours, minutes and seconds; fewer
   * than three fields, or a field `float()` refuses, give no duration.
   */
  lemma LineDurationFields(pre: string, fields: seq<string>, post: string)
    requires !Contains(pre, "Duration:") && FieldsText(fields)
    ensures var d := LineDuration(pre + "Duration: " + Join(fields, ":") + "," + post);
      && (|fields| < 3 ==> d == None)
      && (|fields| >= 3 ==>
            (d.Some? <==> ParseFloat(fields[0]).Some? && ParseFloat(fields[1]).Some? && ParseFloat(fields[2]).Some?))
      && (|fields| >= 3 && d.Some? ==>
            d.value == ClockSeconds(ParseFloat(fields[0]).value, ParseFloat(fields[1]).value, ParseFloat(fields[2]).value))
  {
    FieldsLine(pre, fields, post);
    LineDurationOf(pre + "Duration: " + Join(fields, ":") + "," + post, fields);
  }

  /** Such a line splits, at its marker and its first ',', into exactly those fields. */
  lemma FieldsLine(pre: string, fields: seq<string>, post: string)
    requires !Contains(pre, "Duration:") && FieldsText(fields)
    ensures var line := pre + "Duration: " + Join(fields, ":") + "," + post;
      && Contains(line, "Duration") && |Split(line, "Duration:")| >= 2
      && Split(Strip(Split(Split(line, "Duration:")[1], ",")[0]), ":") == fields
  {
    var text := Join(fields, ":");
    assert text != [] && !IsSpace(text[0]) && !IsSpace(text[|text| - 1]) && !Contains(text, "Duration:");
    var rest := " " + text + "," + post;
    var line := pre + "Duration: " + text + "," + post;
    assert "Duration: " == "Duration:" + " ";
    Regroup(pre, "Duration:", " ", text, ",", post);
    MarkerSplit(pre, rest);
    var pieces := Split(line, "Duration:");
    assert pieces[1] == Split(rest, "Duration:")[0];
    JoinFree(fields, ":", ',');
    DurationText(text, post);
    StripLeadingSpace(text);
    SplitJoin(fields, ':');
    assert Split(Strip(Split(pieces[1], ",")[0]), ":") == fields;
  }

  /** Unfolding `LineDuration` once the fields of a line are known. */
  lemma LineDurationOf(line: string, fields: seq<string>)
    requires Contains(line, "Duration") && |Split(line, "Duration:")| >= 2
    requires Split(Strip(Split(Split(line, "Duration:")[1], ",")[0]), ":") == fields
    ensures var d := LineDuration(line);
      && (|fields| < 3 ==> d == None)
      && (|fields| >= 3 ==>
            (d.Some? <==> ParseFloat(fields[0]).Some? && ParseFloat(fields[1]).Some? && ParseFloat(fields[2]).Some?))
      && (|fields| >= 3 && d.Some? ==>
            d.value == ClockSeconds(ParseFloat(fields[0]).value, ParseFloat(fields[1]).value, ParseFloat(fields[2]).value))
  {
  }

  /** `Duration: H:MM:SS.ff, …` as ffmpeg prints it gives the hours, minutes, seconds and fraction. */
  lemma FfmpegDurationLine(pre: string, h: nat, m: nat, s: nat, fraction: string, post: string)
    requires !Contains(pre, "Duration:") && AllDigits(fraction)
    ensures LineDuration(pre + "Duration: " + (NatStr(h) + ":" + Pad2(m) + ":" + Pad2(s) + "." + fraction) + "," + post)
         == Some(ClockSeconds(h as real, m as real, s as real + FractionValue(fraction)))
  {
    RegroupTail(NatStr(h) + ":" + Pad2(m) + ":", Pad2(s), ".", fraction);
    ClockFields(pre, h, m, s, fraction, post);
    ParseFloatNat(h);
    ParseFloatPad2(m);
    ParseFloatDecimal(s, fraction);
  }

  /** The fields `H:MM:SS.ff` of such a line: the duration is what `float()` reads in them. */
  lemma ClockFields(pre: string, h: nat, m: nat, s: nat, fraction: string, post: string)
    requires !Contains(pre, "Duration:") && AllDigits(fraction)
    ensures LineDuration(pre + "Duration: " + (NatStr(h) + ":" + Pad2(m) + ":" + (Pad2(s) + "." + fraction)) + "," + post)
         == if ParseFloat(NatStr(h)).Some? && ParseFloat(Pad2(m)).Some? && ParseFloat(Pad2(s) + "." + fraction).Some?
            then Some(ClockSeconds(ParseFloat(NatStr(h)).value, ParseFloat(Pad2(m)).value,
                                   ParseFloat(Pad2(s) + "." + fraction).value))
            else None
  {
    DecimalFields(NatStr(h), Pad2(m), Pad2(s), fraction);
    LineDurationFields(pre, [NatStr(h), Pad2(m), Pad2(s) + "." + fraction], post);
  }

  /** Digit fields, the last with a '.', meet what `LineDurationFields` asks of the fields. */
  lemma FfmpegFields(a: string, b: string, c: string)
    requires a != [] && AllDigits(a) && AllDigits(b)
    requires c != [] && forall k :: 0 <= k < |c| ==> IsDigit(c[k]) || c[k] == '.'
    ensures Join([a, b, c], ":") == a + ":" + b + ":" + c && FieldsText([a, b, c])
  {
    var fields := [a, b, c];
    assert fields[1..] == [b, c] && fields[1..][1..] == [c];
    var text := a + ":" + b + ":" + c;
    assert Join([c], ":") == c;
    assert Join([b, c], ":") == b + ":" + c;
    assert Join(fields, ":") == a + ":" + (b + ":" + c) == text;
    assert text[0] == a[0];
    assert text[|text| - 1] == c[|c| - 1];
    assert Free(text, 'D');
    FreeOfHead(text, "Duration:");
  }

  /** The same for a last field `whole.fraction` of digits. */
  lemma DecimalFields(a: string, b: string, whole: string, fraction: string)
    requires a != [] && AllDigits(a) && AllDigits(b) && AllDigits(whole) && AllDigits(fraction)
    ensures Join([a, b, whole + "." + fraction], ":") == a + ":" + b + ":" + (whole + "." + fraction)
    ensures FieldsText([a, b, whole + "." + fraction])
  {
    DecimalChars(whole, fraction);
    FfmpegFields(a, b, whole + "." + fraction);
  }

  /** ffmpeg's `Duration: N/A, …` for an input of unknown length gives no duration. */
  lemma NotAvailableLine(pre: string, post: string)
    requires !Contains(pre, "Duration:")
    ensures LineDuration(pre + "Duration: N/A," + post) == None
  {
    assert Join(["N/A"], ":") == "N/A";
    FreeOfHead("N/A", "Duration:");
    LineDurationFields(pre, ["N/A"], post);
    assert pre + "Duration: " + "N/A" + "," + post == pre + "Duration: N/A," + post;
  }

  /** The scan over `stderr.split('\n')` that stops at the first line giving a duration. */
  method ParseDuration(stderr: string) returns (duration: real)
    ensures duration == ProbedDuration(Split(stderr, "\n"))
  {
    var lines := Split(stderr, "\n");
    duration := 0.0;
    var i := 0;
    while i < |lines|
      invariant i <= |lines|
      invariant ProbedDuration(lines[i..]) == ProbedDuration(lines)
      invariant duration == 0.0
    {
      assert lines[i..][1..] == lines[i + 1..];
      match LineDuration(lines[i])
      case Some(d) =>
        duration := d;
        break;
      case None =>
      i := i + 1;
    }
  }

  // ------------------------------------------------------------- bitrates

  /** `max(int(target * 8 * 1024 / duration - 128), 500)` */
  function InitialBitrate(target: real, duration: real): int
    requires duration > 0.0
  {
    var b := Trunc(target * 8.0 * 1024.0 / duration - AudioBitrate as real);
    if b > MinBitrate then b else MinBitrate
  }

  /** A size is "truthy" in Python when it is recorded and non-zero. */
  predicate Recorded(last: Option<real>) { last.Some? && last.value != 0.0 }

  /**
   * The bitrate attempt number `attempt` (counted from 1) encodes at: the first
   * keeps `current`; later ones scale it down by the last overshoot ratio and the
   * safety margin, or by the decay factor when no non-zero size was recorded.
   * `None` is the ZeroDivisionError of a zero target, which is raised outside the
   * loop's `try`.
   */
  function Rebitrate(attempt: nat, current: int, last: Option<real>, target: real): Option<int> {
    if attempt > 1 && Recorded(last) then
      if target == 0.0 then None else Some(Scaled(current, last.value, target))
    else if attempt > 1 then Some(Decayed(current))
    else Some(current)
  }

  /** `int(current / ratio * 0.95)` with `ratio = size / target` */
  function Scaled(current: int, size: real, target: real): int
    requires size != 0.0 && target != 0.0
  {
    QuotientNonZero(size, target);
    Trunc(current as real / (size / target) * SafetyMargin)
  }

  lemma QuotientNonZero(a: real, b: real)
    requires a != 0.0 && b != 0.0
    ensures a / b != 0.0
  {
    assert (a / b) * b == a;
  }

  /** `int(current * 0.9)` */
  function Decayed(current: int): int { Trunc(current as real * Decay) }

  // ----------------------------------------------------- one compression

  /** What one two-pass encode attempt came to. */
  datatype Encode =
    | Pass1Failed           // pass 1 returned non-zero
    | Pass2Failed           // pass 2 returned non-zero, or left no output file
    | Produced(output: Bytes)
    | TimedOut              // either pass exceeded its timeout
    | Crashed               // any other exception while encoding

  /** Whether, on success, one of the two `shutil.move` calls raises. */
  datatype MoveFault = NoFault | BackupMoveFails | ReplaceMoveFails

  /** One call of `compress_video_to_size`, with everything it learns from outside. */
  datatype Job = Job(src: Path, target: real, backupDir: string,
                     encode: (nat, int) -> Encode, fault: MoveFault, stamp: string)

  datatype Reason =
    | SourceMissing | ProbeFailed | NoDuration
    | Pass1Error | Pass2Error | Timeout | EncoderError | MoveError | Exhausted

  datatype Outcome =
    | Compressed(backup: Path)
    | Failed(reason: Reason)
    | DivisionByZero        // escapes the function

  /** The outcome, the disk afterwards, and the bitrate of every encode attempt in order. */
  datatype Run = Run(outcome: Outcome, files: Files, bitrates: seq<int>)

  /** The two-pass log files `ffmpeg2pass-0.log` and `ffmpeg2pass-0.log.mbtree` next to the source. */
  function PassLogs(src: Path): set<Path> {
    {Path(src.dir, "ffmpeg2pass-0.log"), Path(src.dir, "ffmpeg2pass-0.log.mbtree")}
  }

  /** `{stem}_compressed{suffix}` next to the source. */
  function TempPath(src: Path): Path {
    Path(src.dir, Stem(src.name) + "_compressed" + Suffix(src.name))
  }

  /** `{stem}_{timestamp}{suffix}` */
  function StampedName(name: string, stamp: string): string {
    Stem(name) + "_" + stamp + Suffix(name)
  }

  /** `backup_dir/name`, or the time-stamped name when that file already exists. */
  function BackupPath(files: Files, job: Job): Path {
    var plain := Path(job.backupDir, job.src.name);
    if plain in files then Path(job.backupDir, StampedName(job.src.name, job.stamp)) else plain
  }

  /** The scratch file is never the source. */
  lemma TempIsNotSource(src: Path)
    ensures TempPath(src) != src
  {
    StemSuffix(src.name);
  }

  /** The outcome of an attempt: finished, or over the target (`continue` to the next attempt). */
  datatype Step = Finish(outcome: Outcome, files: Files) | Overshoot(files: Files, size: real)

  /** Lines 208-227: move the original to the backup, then the output into its place. */
  function Place(files: Files, job: Job): Step {
    var temp := TempPath(job.src);
    var backup := BackupPath(files, job);
    if job.src !in files || job.fault == BackupMoveFails then Finish(Failed(MoveError), files - {temp})
    else
      var moved := Moved(files, job.src, backup);
      if temp !in moved || job.fault == ReplaceMoveFails then Finish(Failed(MoveError), moved - {temp})
      else Finish(Compressed(backup), Moved(moved, temp, job.src))
  }

  /** Lines 139-250: one encode at `bitrate` and what follows from its result. */
  function AttemptStep(files: Files, job: Job, attempt: nat, bitrate: int): Step {
    var temp := TempPath(job.src);
    match job.encode(attempt, bitrate)
    case Pass1Failed => Finish(Failed(Pass1Error), files - {temp})
    case Pass2Failed => Finish(Failed(Pass2Error), files - {temp})
    case TimedOut => Finish(Failed(Timeout), files - {temp})
    case Crashed => Finish(Failed(EncoderError), files - {temp})
    case Produced(out) =>
      var written := files[temp := out];
      if SizeMB(out) <= job.target then Place(written, job)
      else Overshoot(written - {temp}, SizeMB(out))
  }

  /** The retry loop from `attempt` attempts done, at bitrate `current`, with the last measured size. */
  function Attempts(files: Files, job: Job, attempt: nat, current: int, last: Option<real>): Run
    decreases MaxAttempts - attempt
  {
    if attempt >= MaxAttempts then Run(Failed(Exhausted), files - {TempPath(job.src)}, [])
    else match Rebitrate(attempt + 1, current, last, job.target)
      case None => Run(DivisionByZero, files, [])
      case Some(bitrate) =>
        match AttemptStep(files, job, attempt + 1, bitrate)
        case Finish(outcome, after) => Run(outcome, after, [bitrate])
        case Overshoot(after, size) =>
          var rest := Attempts(after, job, attempt + 1, bitrate, Some(size));
          Run(rest.outcome, rest.files, [bitrate] + rest.bitrates)
  }

  /** `compress_video_to_size`, given the probe's diagnostic text (`None`: running the probe raised). */
  function Compress(files: Files, job: Job, probe: Option<string>): Run {
    if job.src !in files then Run(Failed(SourceMissing), files, [])
    else if probe.None? then Run(Failed(ProbeFailed), files, [])
    else
      var duration := ProbedDuration(Split(probe.value, "\n"));
      if duration <= 0.0 then Run(Failed(NoDuration), files, [])
      else Attempts(files, job, 0, InitialBitrate(job.target, duration), None)
  }

  /** Lines 208-227 on the disk. */
  method PlaceOutput(disk: Disk, job: Job) returns (outcome: Outcome)
    modifies disk
    ensures Place(old(disk.files), job) == Finish(outcome, disk.files)
  {
    var temp := TempPath(job.src);
    var backup := Path(job.backupDir, job.src.name);
    if backup in disk.files {
      backup := Path(job.backupDir, StampedName(job.src.name, job.stamp));
    }
    if job.src !in disk.files || job.fault == BackupMoveFails {
      disk.Remove(temp);
      return Failed(MoveError);
    }
    disk.Move(job.src, backup);
    if temp !in disk.files || job.fault == ReplaceMoveFails {
      disk.Remove(temp);
      return Failed(MoveError);
    }
    disk.Move(temp, job.src);
    return Compressed(backup);
  }

  /**
   * Lines 139-250 on the disk: `finished` is false exactly when the output overshot
   * and the loop continues. Only then is `size` meaningful, and `outcome` is then a
   * placeholder `Failed(Exhausted)` that the loop ignores.
   */
  method EncodeOnce(disk: Disk, job: Job, attempt: nat, bitrate: int) returns (finished: bool, outcome: Outcome, size: real)
    modifies disk
    ensures AttemptStep(old(disk.files), job, attempt, bitrate)
            == if finished then Finish(outcome, disk.files) else Overshoot(disk.files, size)
  {
    var temp := TempPath(job.src);
    finished, size := true, 0.0;
    var result := job.encode(attempt, bitrate);
    match result
    case Pass1Failed =>
      disk.Remove(temp);
      outcome := Failed(Pass1Error);
    case Pass2Failed =>
      disk.Remove(temp);
      outcome := Failed(Pass2Error);
    case TimedOut =>
      disk.Remove(temp);
      outcome := Failed(Timeout);
    case Crashed =>
      disk.Remove(temp);
      outcome := Failed(EncoderError);
    case Produced(out) =>
      disk.Write(temp, out);
      size := SizeMB(out);
      if size <= job.target {
        outcome := PlaceOutput(disk, job);
      } else {
        disk.Remove(temp);
        finished, outcome := false, Failed(Exhausted);
      }
  }

  /** After an overshoot the loop goes on from the next attempt with the measured size. */
  lemma AttemptsContinue(files: Files, job: Job, attempt: nat, current: int, last: Option<real>, bitrate: int)
    requires attempt < MaxAttempts
    requires Rebitrate(attempt + 1, current, last, job.target) == Some(bitrate)
    requires AttemptStep(files, job, attempt + 1, bitrate).Overshoot?
    ensures var step := AttemptStep(files, job, attempt + 1, bitrate);
            var rest := Attempts(step.files, job, attempt + 1, bitrate, Some(step.size));
            Attempts(files, job, attempt, current, last) == Run(rest.outcome, rest.files, [bitrate] + rest.bitrates)
  {
  }

  /** An encode whose output is over the target is an overshoot that leaves no scratch file. */
  lemma OvershootStep(files: Files, job: Job, n: nat, bitrate: int, out: Bytes)
    requires job.encode(n, bitrate) == Produced(out) && SizeMB(out) > job.target
    ensures AttemptStep(files, job, n, bitrate) == Overshoot(files[TempPath(job.src) := out] - {TempPath(job.src)}, SizeMB(out))
  {
  }

  /**
   * Once the scaled bitrate truncates to 0 it stays there: an encoder whose output
   * always overshoots is re-run at bitrate 0 until the attempts run out.
   */
  lemma {:induction false} StuckAtZero(files: Files, job: Job, attempt: nat, current: int, out: Bytes)
    requires 1 <= attempt <= MaxAttempts && job.target > 0.0 && SizeMB(out) > job.target
    requires Scaled(current, SizeMB(out), job.target) == 0
    requires forall n, b :: job.encode(n, b) == Produced(out)
    ensures var r := Attempts(files, job, attempt, current, Some(SizeMB(out)));
      r.outcome == Failed(Exhausted) && r.bitrates == seq(MaxAttempts - attempt, _ => 0)
    decreases MaxAttempts - attempt
  {
    if attempt < MaxAttempts {
      assert Scaled(0, SizeMB(out), job.target) == 0;
      OvershootStep(files, job, attempt + 1, 0, out);
      AttemptsContinue(files, job, attempt, current, Some(SizeMB(out)), 0);
      StuckAtZero(AttemptStep(files, job, attempt + 1, 0).files, job, attempt + 1, 0, out);
      assert [0] + seq(MaxAttempts - attempt - 1, _ => 0) == seq(MaxAttempts - attempt, _ => 0);
    }
  }

  /**
   * A 16 MB target whose every encode comes out at 16000 MB: the first attempt runs
   * at the 500 kbps floor, the second scales it to `int(500 / 1000 * 0.95)`, which
   * is 0, and the remaining attempts stay at 0.
   */
  lemma StallsAtZero(files: Files, job: Job, out: Bytes)
    requires job.target == 16.0 && SizeMB(out) == 16000.0
    requires forall n, b :: job.encode(n, b) == Produced(out)
    ensures var r := Attempts(files, job, 0, MinBitrate, None);
      r.outcome == Failed(Exhausted) && r.bitrates == [500, 0, 0, 0, 0]
  {
    OvershootStep(files, job, 1, MinBitrate, out);
    assert Scaled(MinBitrate, 16000.0, 16.0) == 0;
    AttemptsContinue(files, job, 0, MinBitrate, None, MinBitrate);
    StuckAtZero(AttemptStep(files, job, 1, MinBitrate).files, job, 1, MinBitrate, out);
    assert seq(MaxAttempts - 1, _ => 0) == [0, 0, 0, 0];
  }

  /** `compress_video_to_size` on the disk. */
  method CompressVideoToSize(disk: Disk, job: Job, probe: Option<string>) returns (outcome: Outcome)
    modifies disk
    ensures outcome == Compress(old(disk.files), job, probe).outcome
    ensures disk.files == Compress(old(disk.files), job, probe).files
  {
    if job.src !in disk.files {
      return Failed(SourceMissing);
    }
    if probe.None? {
      return Failed(ProbeFailed);
    }
    var duration := ParseDuration(probe.value);
    if duration <= 0.0 {
      return Failed(NoDuration);
    }
    outcome := RetryLoop(disk, job, InitialBitrate(job.target, duration));
  }

  /** Lines 119-256: at most five attempts, the bitrate adjusted before each one after the first. */
  method RetryLoop(disk: Disk, job: Job, bitrate: int) returns (outcome: Outcome)
    modifies disk
    ensures outcome == Attempts(old(disk.files), job, 0, bitrate, None).outcome
    ensures disk.files == Attempts(old(disk.files), job, 0, bitrate, None).files
  {
    ghost var spec := Attempts(disk.files, job, 0, bitrate, None);
    var attempt: nat := 0;
    var last: Option<real> := None;
    var current := bitrate;
    while attempt < MaxAttempts
      invariant attempt <= MaxAttempts
      invariant Attempts(disk.files, job, attempt, current, last).outcome == spec.outcome
      invariant Attempts(disk.files, job, attempt, current, last).files == spec.files
      decreases MaxAttempts - attempt
    {
      ghost var before, previous := disk.files, current;
      ghost var next := Rebitrate(attempt + 1, current, last, job.target);
      attempt := attempt + 1;
      if attempt > 1 && Recorded(last) {
        if job.target == 0.0 {
          return DivisionByZero;
        }
        current := Scaled(current, last.value, job.target);
      } else if attempt > 1 {
        current := Decayed(current);
      }
      assert next == Some(current);
      var finished, size;
      finished, outcome, size := EncodeOnce(disk, job, attempt, current);
      if finished {
        return outcome;
      }
      AttemptsContinue(before, job, attempt - 1, previous, last, current);
      last := Some(size);
    }
    disk.Remove(TempPath(job.src));
    return Failed(Exhausted);
  }

  // ============================================================ properties

  /** The initial bitrate is the floor of the formula, but never below 500 kbps. */
  lemma InitialBitrateSpec(target: real, duration: real)
    requires duration > 0.0
    ensures InitialBitrate(target, duration) >= MinBitrate
    ensures var x := (target * 8.0 * 1024.0 / duration - AudioBitrate as real).Floor;
            InitialBitrate(target, duration) == if x > MinBitrate then x else MinBitrate
  {
  }

  /** After an overshoot of a positive target, the next bitrate is the floor of the scaled one: never higher, and lower while positive. */
  lemma ScaledShrinks(current: int, size: real, target: real)
    requires size > target > 0.0 && current >= 0
    ensures Scaled(current, size, target) == (current as real / (size / target) * SafetyMargin).Floor
    ensures 0 <= Scaled(current, size, target) <= current
    ensures current > 0 ==> Scaled(current, size, target) < current
  {
    var ratio := size / target;
    assert ratio * target == size;
    assert ratio > 1.0;
    var q := current as real / ratio;
    assert q * ratio == current as real;
    assert 0.0 <= q <= current as real;
    assert current > 0 ==> q < current as real;
    var y := q * SafetyMargin;
    assert 0.0 <= y <= q;
  }

  /** The attempt `n` at `bitrate` produced an output larger than the target. */
  predicate Overshot(job: Job, n: nat, bitrate: int) {
    job.encode(n, bitrate).Produced? && SizeMB(job.encode(n, bitrate).output) > job.target
  }

  /** What one attempt's bitrate allows the next one to be: no higher, and lower while positive. */
  predicate Follows(previous: int, next: int) {
    0 <= next <= previous && (previous > 0 ==> next < previous)
  }

  /** Between consecutive attempts the bitrate never rises, and falls while it is positive. */
  predicate Shrinking(bitrates: seq<int>) {
    forall i :: 0 <= i < |bitrates| - 1 ==> Follows(bitrates[i], bitrates[i + 1])
  }

  /** The loop state after `attempt` attempts, as the loop can reach it with a positive target. */
  predicate Reachable(job: Job, attempt: nat, current: int, last: Option<real>) {
    current >= 0 && (if attempt == 0 then last.None? else last.Some? && last.value > job.target)
  }

  /** Each attempt of `b` but the last, numbered from `attempt + 1`, overshot, and the next bitrate is scaled by that overshoot. */
  predicate Retraced(job: Job, attempt: nat, b: seq<int>) {
    job.target > 0.0
    && forall i :: 0 <= i < |b| - 1 ==>
         Overshot(job, attempt + i + 1, b[i])
         && b[i + 1] == Scaled(b[i], SizeMB(job.encode(attempt + i + 1, b[i]).output), job.target)
  }

  /** An overshooting attempt in front of a retraced rest, scaled by its own overshoot, is retraced. */
  lemma RetracedCons(job: Job, attempt: nat, bitrate: int, rest: seq<int>)
    requires job.target > 0.0 && Overshot(job, attempt + 1, bitrate)
    requires rest != [] ==> rest[0] == Scaled(bitrate, SizeMB(job.encode(attempt + 1, bitrate).output), job.target)
    requires Retraced(job, attempt + 1, rest)
    ensures Retraced(job, attempt, [bitrate] + rest)
  {
    var b := [bitrate] + rest;
    forall i | 0 <= i < |b| - 1
      ensures Overshot(job, attempt + i + 1, b[i])
      ensures b[i + 1] == Scaled(b[i], SizeMB(job.encode(attempt + i + 1, b[i]).output), job.target)
    {
      if i > 0 { assert b[i] == rest[i - 1] && b[i + 1] == rest[i]; }
    }
  }

  /**
   * The bitrates `b` of the loop from `attempt` attempts done, at `current` after
   * the size `last`: no more than the remaining attempts, the first one as
   * `Rebitrate` gives it, retraced, and none negative.
   */
  predicate Traced(job: Job, attempt: nat, current: int, last: Option<real>, b: seq<int>) {
    job.target > 0.0 && Reachable(job, attempt, current, last)
    && |b| <= MaxAttempts - attempt
    && (b != [] ==> b[0] == if attempt == 0 then current else Scaled(current, last.value, job.target))
    && Retraced(job, attempt, b)
    && (forall i :: 0 <= i < |b| ==> b[i] >= 0)
  }

  /** An overshooting attempt at `bitrate` in front of a traced rest. */
  lemma TracedCons(job: Job, attempt: nat, current: int, last: Option<real>, bitrate: int, size: real, rest: seq<int>)
    requires job.target > 0.0 && attempt < MaxAttempts && Reachable(job, attempt, current, last)
    requires bitrate == if attempt == 0 then current else Scaled(current, last.value, job.target)
    requires Overshot(job, attempt + 1, bitrate) && size == SizeMB(job.encode(attempt + 1, bitrate).output)
    requires Traced(job, attempt + 1, bitrate, Some(size), rest)
    ensures Traced(job, attempt, current, last, [bitrate] + rest)
  {
    if attempt > 0 { ScaledShrinks(current, last.value, job.target); }
    RetracedCons(job, attempt, bitrate, rest);
    var b := [bitrate] + rest;
    assert forall i :: 0 < i < |b| ==> b[i] == rest[i - 1];
  }

  /**
   * With a positive target the loop tries at most the remaining attempts, and
   * each attempt after the first follows an overshoot and scales the bitrate by
   * it (so the 0.9 decay is never used); no bitrate is negative.
   */
  lemma {:induction false} AttemptsTrace(files: Files, job: Job, attempt: nat, current: int, last: Option<real>)
    requires job.target > 0.0 && attempt <= MaxAttempts && Reachable(job, attempt, current, last)
    ensures Traced(job, attempt, current, last, Attempts(files, job, attempt, current, last).bitrates)
    decreases MaxAttempts - attempt
  {
    if attempt < MaxAttempts {
      var bitrate := Rebitrate(attempt + 1, current, last, job.target).value;
      var step := AttemptStep(files, job, attempt + 1, bitrate);
      if step.Finish? {
        TraceFinish(files, job, attempt, current, last, bitrate);
      } else {
        AttemptsTrace(step.files, job, attempt + 1, bitrate, Some(step.size));
        TraceOvershoot(files, job, attempt, current, last, bitrate);
      }
    }
  }

  /** The trace of a loop whose next attempt finishes. */
  lemma TraceFinish(files: Files, job: Job, attempt: nat, current: int, last: Option<real>, bitrate: int)
    requires job.target > 0.0 && attempt < MaxAttempts && Reachable(job, attempt, current, last)
    requires Rebitrate(attempt + 1, current, last, job.target) == Some(bitrate)
    requires AttemptStep(files, job, attempt + 1, bitrate).Finish?
    ensures Traced(job, attempt, current, last, Attempts(files, job, attempt, current, last).bitrates)
  {
    if attempt > 0 { ScaledShrinks(current, last.value, job.target); }
    AttemptsFinish(files, job, attempt, current, last, bitrate);
  }

  /** The trace of a loop whose next attempt overshoots, from the trace of the rest. */
  lemma TraceOvershoot(files: Files, job: Job, attempt: nat, current: int, last: Option<real>, bitrate: int)
    requires job.target > 0.0 && attempt < MaxAttempts && Reachable(job, attempt, current, last)
    requires Rebitrate(attempt + 1, current, last, job.target) == Some(bitrate)
    requires AttemptStep(files, job, attempt + 1, bitrate).Overshoot?
    requires var step := AttemptStep(files, job, attempt + 1, bitrate);
             Traced(job, attempt + 1, bitrate, Some(step.size), Attempts(step.files, job, attempt + 1, bitrate, Some(step.size)).bitrates)
    ensures Traced(job, attempt, current, last, Attempts(files, job, attempt, current, last).bitrates)
  {
    var step := AttemptStep(files, job, attempt + 1, bitrate);
    AttemptsContinue(files, job, attempt, current, last, bitrate);
    StepOvershoot(files, job, attempt + 1, bitrate);
    TracedCons(job, attempt, current, last, bitrate, step.size,
               Attempts(step.files, job, attempt + 1, bitrate, Some(step.size)).bitrates);
  }

  /** Every run of the loop: bitrates of at most five attempts, starting from the initial bitrate and shrinking. */
  lemma CompressBitrates(files: Files, job: Job, probe: Option<string>)
    requires job.target > 0.0
    ensures var r := Compress(files, job, probe);
      && |r.bitrates| <= MaxAttempts
      && r.outcome != DivisionByZero
      && Shrinking(r.bitrates)
      && (forall i :: 0 <= i < |r.bitrates| - 1 ==> Overshot(job, i + 1, r.bitrates[i]))
      && (r.bitrates != [] ==> r.bitrates[0] == InitialBitrate(job.target, ProbedDuration(Split(probe.value, "\n"))))
  {
    RaisesOnlyOnZeroTarget(files, job, probe);
    if job.src in files && probe.Some? {
      var d := ProbedDuration(Split(probe.value, "\n"));
      if d > 0.0 {
        var b0 := InitialBitrate(job.target, d);
        AttemptsTrace(files, job, 0, b0, None);
        var b := Attempts(files, job, 0, b0, None).bitrates;
        forall i | 0 <= i < |b| - 1
          ensures Follows(b[i], b[i + 1])
        {
          ScaledShrinks(b[i], SizeMB(job.encode(i + 1, b[i]).output), job.target);
        }
      }
    }
  }

  /** Only a zero target can make the loop raise. */
  lemma {:induction false} AttemptsRaiseOnlyOnZeroTarget(files: Files, job: Job, attempt: nat, current: int, last: Option<real>)
    requires job.target != 0.0
    ensures Attempts(files, job, attempt, current, last).outcome != DivisionByZero
    decreases MaxAttempts - attempt
  {
    if attempt < MaxAttempts {
      var bitrate := Rebitrate(attempt + 1, current, last, job.target).value;
      PlaceNeverRaises(files, job, attempt + 1, bitrate);
      var step := AttemptStep(files, job, attempt + 1, bitrate);
      if step.Overshoot? {
        AttemptsContinue(files, job, attempt, current, last, bitrate);
        AttemptsRaiseOnlyOnZeroTarget(step.files, job, attempt + 1, bitrate, Some(step.size));
      }
    }
  }

  /** Only a zero target can make `compress_video_to_size` raise. */
  lemma RaisesOnlyOnZeroTarget(files: Files, job: Job, probe: Option<string>)
    requires job.target != 0.0
    ensures Compress(files, job, probe).outcome != DivisionByZero
  {
    if job.src in files && probe.Some? {
      var d := ProbedDuration(Split(probe.value, "\n"));
      if d > 0.0 { AttemptsRaiseOnlyOnZeroTarget(files, job, 0, InitialBitrate(job.target, d), None); }
    }
  }

  /** Every attempt of `b`, numbered from `attempt + 1`, overshot. */
  predicate AllOvershot(job: Job, attempt: nat, b: seq<int>) {
    forall i :: 0 <= i < |b| ==> Overshot(job, attempt + i + 1, b[i])
  }

  /** Giving up means every one of the five attempts overshot. */
  lemma {:induction false} ExhaustedAfterAllAttempts(files: Files, job: Job, attempt: nat, current: int, last: Option<real>)
    requires attempt <= MaxAttempts
    requires Attempts(files, job, attempt, current, last).outcome == Failed(Exhausted)
    ensures var b := Attempts(files, job, attempt, current, last).bitrates;
      |b| == MaxAttempts - attempt && AllOvershot(job, attempt, b)
    decreases MaxAttempts - attempt
  {
    if attempt < MaxAttempts {
      match Rebitrate(attempt + 1, current, last, job.target)
      case None =>
      case Some(bitrate) =>
        var step := AttemptStep(files, job, attempt + 1, bitrate);
        if step.Overshoot? {
          AttemptsContinue(files, job, attempt, current, last, bitrate);
          ExhaustedAfterAllAttempts(step.files, job, attempt + 1, bitrate, Some(step.size));
          ExhaustedOvershoot(files, job, attempt, current, last, bitrate);
        } else {
          FinishNotExhausted(files, job, attempt, current, last, bitrate);
        }
    }
  }

  /** A loop whose next attempt finishes does not give up. */
  lemma FinishNotExhausted(files: Files, job: Job, attempt: nat, current: int, last: Option<real>, bitrate: int)
    requires attempt < MaxAttempts && Rebitrate(attempt + 1, current, last, job.target) == Some(bitrate)
    requires AttemptStep(files, job, attempt + 1, bitrate).Finish?
    ensures Attempts(files, job, attempt, current, last).outcome != Failed(Exhausted)
  {
    PlaceNeverRaises(files, job, attempt + 1, bitrate);
    AttemptsFinish(files, job, attempt, current, last, bitrate);
  }

  /** Exhaustion after an overshooting attempt, from the exhaustion of the rest. */
  lemma ExhaustedOvershoot(files: Files, job: Job, attempt: nat, current: int, last: Option<real>, bitrate: int)
    requires attempt < MaxAttempts && Rebitrate(attempt + 1, current, last, job.target) == Some(bitrate)
    requires AttemptStep(files, job, attempt + 1, bitrate).Overshoot?
    requires var step := AttemptStep(files, job, attempt + 1, bitrate);
             var rest := Attempts(step.files, job, attempt + 1, bitrate, Some(step.size)).bitrates;
             |rest| == MaxAttempts - attempt - 1 && AllOvershot(job, attempt + 1, rest)
    ensures var b := Attempts(files, job, attempt, current, last).bitrates;
      |b| == MaxAttempts - attempt && AllOvershot(job, attempt, b)
  {
    var step := AttemptStep(files, job, attempt + 1, bitrate);
    var rest := Attempts(step.files, job, attempt + 1, bitrate, Some(step.size)).bitrates;
    AttemptsContinue(files, job, attempt, current, last, bitrate);
    StepOvershoot(files, job, attempt + 1, bitrate);
    var b := [bitrate] + rest;
    assert forall i :: 0 < i < |b| ==> b[i] == rest[i - 1];
  }

  /** An attempt overshoots exactly when its encode produced an output larger than the target, whose size it reports. */
  lemma StepOvershoot(files: Files, job: Job, n: nat, bitrate: int)
    ensures var s := AttemptStep(files, job, n, bitrate);
      s.Overshoot? ==> Overshot(job, n, bitrate) && s.size == SizeMB(job.encode(n, bitrate).output)
  {
  }

  /** An attempt that finishes has failed for its own reason or placed the output; it neither gives up nor raises. */
  lemma PlaceNeverRaises(files: Files, job: Job, attempt: nat, bitrate: int)
    ensures var s := AttemptStep(files, job, attempt, bitrate);
      s.Finish? ==> s.outcome.Compressed? || s.outcome.reason in {Pass1Error, Pass2Error, Timeout, EncoderError, MoveError}
  {
  }

  // ------------------------------------------------------ the files afterwards

  /** `datetime.now().strftime("%Y%m%d_%H%M%S")`: eight digits, '_', six digits. */
  predicate IsTimestamp(stamp: string) {
    |stamp| == 15 && stamp[8] == '_' && forall i :: 0 <= i < |stamp| && i != 8 ==> IsDigit(stamp[i])
  }

  /** The backup is neither the source nor the scratch file. */
  lemma BackupDistinct(files: Files, job: Job)
    requires job.src in files && IsTimestamp(job.stamp)
    ensures BackupPath(files, job) != job.src && BackupPath(files, job) != TempPath(job.src)
    ensures Path(job.backupDir, job.src.name) != TempPath(job.src)
  {
    StemSuffix(job.src.name);
  }

  /** A failure that leaves the model's disk as it was, but for the scratch file being gone (the model does not delete the pass logs). */
  predicate Untouched(before: Files, after: Files, job: Job) {
    after == before - {TempPath(job.src)}
  }

  /** The original now lives at `backup`, the scratch file is gone, and on the model's disk, which keeps the pass logs, nothing else but the source path changed. */
  ghost predicate Relocated(before: Files, after: Files, job: Job, backup: Path) {
    var temp := TempPath(job.src);
    && job.src in before && backup in after && after[backup] == before[job.src] && temp !in after
    && forall p :: p != job.src && p != temp && p != backup ==>
         (p in after <==> p in before) && (p in after ==> after[p] == before[p])
  }

  /** Whether the scratch file was there beforehand does not matter to a relocation. */
  lemma RelocatedSince(before: Files, between: Files, after: Files, job: Job, backup: Path)
    requires between - {TempPath(job.src)} == before - {TempPath(job.src)}
    requires Relocated(between, after, job, backup)
    ensures Relocated(before, after, job, backup)
  {
    var temp := TempPath(job.src);
    TempIsNotSource(job.src);
    assert job.src in between - {temp};
    forall p | p != job.src && p != temp && p != backup
      ensures (p in after <==> p in before) && (p in after ==> after[p] == before[p])
    {
      assert (p in between <==> p in between - {temp}) && (p in before <==> p in before - {temp});
      if p in before { assert before[p] == (before - {temp})[p] == between[p]; }
    }
  }

  /** Placing an output written to the scratch file: success exactly without a move fault. */
  lemma PlaceFiles(files: Files, job: Job, out: Bytes)
    requires job.src in files && IsTimestamp(job.stamp)
    ensures var s := Place(files[TempPath(job.src) := out], job);
            var backup := BackupPath(files, job);
      && s.Finish?
      && s.outcome == (if job.fault == NoFault then Compressed(backup) else Failed(MoveError))
      && (job.fault == NoFault ==> Relocated(files, s.files, job, backup) && job.src in s.files && s.files[job.src] == out)
      && (job.fault == ReplaceMoveFails ==> Relocated(files, s.files, job, backup) && job.src !in s.files)
      && (job.fault == BackupMoveFails ==> Untouched(files, s.files, job))
  {
    BackupDistinct(files, job);
    TempIsNotSource(job.src);
    var temp := TempPath(job.src);
    assert BackupPath(files[temp := out], job) == BackupPath(files, job);
  }

  /** The output the last attempt produced and placed: within the target. */
  predicate PlacedOutput(job: Job, attempt: nat, bitrates: seq<int>, out: Bytes) {
    bitrates != [] && job.encode(attempt + |bitrates|, bitrates[|bitrates| - 1]) == Produced(out)
    && SizeMB(out) <= job.target
  }

  /** The disk after one attempt: placed or failed as above, or, after an overshoot, without the scratch file. */
  lemma StepFiles(files: Files, job: Job, n: nat, bitrate: int)
    requires job.src in files && IsTimestamp(job.stamp)
    ensures var s := AttemptStep(files, job, n, bitrate);
            var temp := TempPath(job.src);
            var backup := BackupPath(files, job);
      && (s.Overshoot? ==> Overshot(job, n, bitrate) && s.size == SizeMB(job.encode(n, bitrate).output)
                           && s.files == files[temp := job.encode(n, bitrate).output] - {temp})
      && (s.Finish? && s.outcome.Compressed? ==>
            && s.outcome.backup == backup && job.fault == NoFault && Relocated(files, s.files, job, backup)
            && job.src in s.files && job.encode(n, bitrate) == Produced(s.files[job.src])
            && SizeMB(s.files[job.src]) <= job.target)
      && (s.Finish? && s.outcome == Failed(MoveError) && job.fault == ReplaceMoveFails ==>
            Relocated(files, s.files, job, backup) && job.src !in s.files)
      && (s.Finish? && !s.outcome.Compressed? && !(s.outcome == Failed(MoveError) && job.fault == ReplaceMoveFails) ==>
            Untouched(files, s.files, job))
  {
    match job.encode(n, bitrate)
    case Produced(out) =>
      if SizeMB(out) <= job.target { PlaceFiles(files, job, out); }
    case _ =>
  }

  /** An attempt that finishes ends the loop with its own outcome and disk. */
  lemma AttemptsFinish(files: Files, job: Job, attempt: nat, current: int, last: Option<real>, bitrate: int)
    requires attempt < MaxAttempts
    requires Rebitrate(attempt + 1, current, last, job.target) == Some(bitrate)
    requires AttemptStep(files, job, attempt + 1, bitrate).Finish?
    ensures var step := AttemptStep(files, job, attempt + 1, bitrate);
            Attempts(files, job, attempt, current, last) == Run(step.outcome, step.files, [bitrate])
  {
  }

  /**
   * The disk after the retry loop. On success the original is in the backup and the
   * source path holds the last output, which is within the target; when the
   * second move fails the original is only in the backup; on any other failure
   * only the scratch file is gone.
   */
  ghost predicate FilesAfter(files: Files, job: Job, attempt: nat, r: Run) {
    var backup := BackupPath(files, job);
    && (r.outcome.Compressed? ==>
          && r.outcome.backup == backup && job.fault == NoFault && Relocated(files, r.files, job, backup)
          && job.src in r.files && PlacedOutput(job, attempt, r.bitrates, r.files[job.src]))
    && (r.outcome == Failed(MoveError) && job.fault == ReplaceMoveFails ==>
          Relocated(files, r.files, job, backup) && job.src !in r.files)
    && (!r.outcome.Compressed? && !(r.outcome == Failed(MoveError) && job.fault == ReplaceMoveFails) ==>
          Untouched(files, r.files, job))
  }

  /** The last attempt's disk, from the step lemma. */
  lemma FinishFiles(files: Files, job: Job, attempt: nat, bitrate: int)
    requires job.src in files && IsTimestamp(job.stamp)
    requires AttemptStep(files, job, attempt + 1, bitrate).Finish?
    ensures var step := AttemptStep(files, job, attempt + 1, bitrate);
            FilesAfter(files, job, attempt, Run(step.outcome, step.files, [bitrate]))
  {
    StepFiles(files, job, attempt + 1, bitrate);
  }

  /** An overshooting attempt leaves the disk as it was, apart from the deleted scratch file. */
  lemma OvershootClears(files: Files, job: Job, n: nat, bitrate: int)
    requires job.src in files && IsTimestamp(job.stamp)
    requires AttemptStep(files, job, n, bitrate).Overshoot?
    ensures var after := AttemptStep(files, job, n, bitrate).files;
            after - {TempPath(job.src)} == files - {TempPath(job.src)} && TempPath(job.src) !in after
  {
    StepFiles(files, job, n, bitrate);
    var temp := TempPath(job.src);
    var after := AttemptStep(files, job, n, bitrate).files;
    assert after - {temp} == after;
  }

  /** What holds after the remaining attempts also holds, one attempt earlier, of the disk before the overshoot. */
  lemma OvershootFiles(files: Files, after: Files, job: Job, attempt: nat, bitrate: int, rest: Run)
    requires job.src in files && IsTimestamp(job.stamp)
    requires after - {TempPath(job.src)} == files - {TempPath(job.src)} && TempPath(job.src) !in after
    requires FilesAfter(after, job, attempt + 1, rest)
    ensures FilesAfter(files, job, attempt, Run(rest.outcome, rest.files, [bitrate] + rest.bitrates))
  {
    var temp := TempPath(job.src);
    TempIsNotSource(job.src);
    BackupDistinct(files, job);
    assert after == after - {temp};
    assert BackupPath(after, job) == BackupPath(files, job);
    var backup := BackupPath(files, job);
    var r := Run(rest.outcome, rest.files, [bitrate] + rest.bitrates);
    if Relocated(after, rest.files, job, backup) {
      RelocatedSince(files, after, rest.files, job, backup);
    }
    if rest.outcome.Compressed? {
      assert r.bitrates[|r.bitrates| - 1] == rest.bitrates[|rest.bitrates| - 1];
      assert PlacedOutput(job, attempt, r.bitrates, r.files[job.src]);
    }
  }

  /** The loop's disk when attempt `attempt + 1` finishes. */
  lemma AttemptsFilesFinish(files: Files, job: Job, attempt: nat, current: int, last: Option<real>, bitrate: int)
    requires job.src in files && IsTimestamp(job.stamp)
    requires attempt < MaxAttempts && Rebitrate(attempt + 1, current, last, job.target) == Some(bitrate)
    requires AttemptStep(files, job, attempt + 1, bitrate).Finish?
    ensures FilesAfter(files, job, attempt, Attempts(files, job, attempt, current, last))
  {
    AttemptsFinish(files, job, attempt, current, last, bitrate);
    FinishFiles(files, job, attempt, bitrate);
  }

  /** The loop's disk when attempt `attempt + 1` overshoots, given that of the remaining attempts. */
  lemma AttemptsFilesOvershoot(files: Files, job: Job, attempt: nat, current: int, last: Option<real>, bitrate: int)
    requires job.src in files && IsTimestamp(job.stamp)
    requires attempt < MaxAttempts && Rebitrate(attempt + 1, current, last, job.target) == Some(bitrate)
    requires AttemptStep(files, job, attempt + 1, bitrate).Overshoot?
    requires var step := AttemptStep(files, job, attempt + 1, bitrate);
             FilesAfter(step.files, job, attempt + 1, Attempts(step.files, job, attempt + 1, bitrate, Some(step.size)))
    ensures FilesAfter(files, job, attempt, Attempts(files, job, attempt, current, last))
  {
    var step := AttemptStep(files, job, attempt + 1, bitrate);
    OvershootClears(files, job, attempt + 1, bitrate);
    AttemptsContinue(files, job, attempt, current, last, bitrate);
    OvershootFiles(files, step.files, job, attempt, bitrate,
                   Attempts(step.files, job, attempt + 1, bitrate, Some(step.size)));
  }

  lemma {:induction false} AttemptsFiles(files: Files, job: Job, attempt: nat, current: int, last: Option<real>)
    requires job.src in files && IsTimestamp(job.stamp)
    requires attempt > 0 ==> TempPath(job.src) !in files
    ensures FilesAfter(files, job, attempt, Attempts(files, job, attempt, current, last))
    decreases MaxAttempts - attempt
  {
    var temp := TempPath(job.src);
    if attempt < MaxAttempts {
      match Rebitrate(attempt + 1, current, last, job.target)
      case None =>
        assert files == files - {temp};
      case Some(bitrate) =>
        var step := AttemptStep(files, job, attempt + 1, bitrate);
        if step.Finish? {
          AttemptsFilesFinish(files, job, attempt, current, last, bitrate);
        } else {
          OvershootClears(files, job, attempt + 1, bitrate);
          TempIsNotSource(job.src);
          AttemptsFiles(step.files, job, attempt + 1, bitrate, Some(step.size));
          AttemptsFilesOvershoot(files, job, attempt, current, last, bitrate);
        }
    }
  }

  /** The early exits change nothing and encode nothing; past them the loop's disk is as above. */
  lemma CompressFiles(files: Files, job: Job, probe: Option<string>)
    requires IsTimestamp(job.stamp)
    ensures var r := Compress(files, job, probe);
      && (r.outcome == Failed(SourceMissing) <==> job.src !in files)
      && (r.outcome in {Failed(SourceMissing), Failed(ProbeFailed), Failed(NoDuration)} ==>
            r.files == files && r.bitrates == [])
      && (r.outcome !in {Failed(SourceMissing), Failed(ProbeFailed), Failed(NoDuration)} ==>
            job.src in files && FilesAfter(files, job, 0, r))
  {
    if job.src in files && probe.Some? {
      var d := ProbedDuration(Split(probe.value, "\n"));
      if d > 0.0 {
        var b0 := InitialBitrate(job.target, d);
        AttemptsFiles(files, job, 0, b0, None);
        AttemptsNeverExitEarly(files, job, 0, b0, None);
      }
    }
  }

  /** The loop itself never reports a missing source, probe or duration. */
  lemma {:induction false} AttemptsNeverExitEarly(files: Files, job: Job, attempt: nat, current: int, last: Option<real>)
    ensures Attempts(files, job, attempt, current, last).outcome !in {Failed(SourceMissing), Failed(ProbeFailed), Failed(NoDuration)}
    decreases MaxAttempts - attempt
  {
    if attempt < MaxAttempts {
      match Rebitrate(attempt + 1, current, last, job.target)
      case None =>
      case Some(bitrate) =>
        PlaceNeverRaises(files, job, attempt + 1, bitrate);
        var step := AttemptStep(files, job, attempt + 1, bitrate);
        if step.Overshoot? {
          AttemptsContinue(files, job, attempt, current, last, bitrate);
          AttemptsNeverExitEarly(step.files, job, attempt + 1, bitrate, Some(step.size));
        }
    }
  }

  /** The original is never lost: it stays at the source path or is in the backup. */
  lemma OriginalKept(files: Files, job: Job, probe: Option<string>)
    requires IsTimestamp(job.stamp) && job.src in files
    ensures var r := Compress(files, job, probe);
            var backup := BackupPath(files, job);
      && ((backup in r.files && r.files[backup] == files[job.src]) || (job.src in r.files && r.files[job.src] == files[job.src]))
      && (r.outcome.Compressed? ==> backup in r.files && r.files[backup] == files[job.src])
      && (!r.outcome.Compressed? && !(r.outcome == Failed(MoveError) && job.fault == ReplaceMoveFails) ==>
            job.src in r.files && r.files[job.src] == files[job.src])
  {
    CompressFiles(files, job, probe);
    TempIsNotSource(job.src);
  }

  /** Outside the backup directory, only the source, its scratch file and the two pass logs can change. */
  lemma CompressFrame(files: Files, job: Job, probe: Option<string>, p: Path)
    requires IsTimestamp(job.stamp)
    requires p != job.src && p != TempPath(job.src) && p.dir != job.backupDir && p !in PassLogs(job.src)
    ensures var r := Compress(files, job, probe);
      (p in r.files <==> p in files) && (p in r.files ==> r.files[p] == files[p])
  {
    CompressFiles(files, job, probe);
  }
}
