# my-video-host, modelled in Dafny

my-video-host keeps a folder of videos in a GitHub repository and serves them
through the jsDelivr CDN. Three Python scripts maintain it:

- `cheak.py` compresses every video above a size threshold. It uses two-pass
  ffmpeg encodes and retries at most five times, lowering the bitrate after
  each overshoot. On success it moves the original into a backup folder and
  puts the compressed file in its place.
- `update_pro.py` writes `videos.json`. It builds one record per video from
  the file name and size: a friendly title, a description, a duration guess
  capped at an hour, a resolution guess and an SVG thumbnail. It adds
  pagination data and a list of API endpoints.
- `update.py` writes the older form of `videos.json`. It matches thumbnails
  by file stem, guesses an uncapped duration, and keeps any extra top-level
  keys of the existing manifest.

The model keeps the scripts' own shape:

- The disk is a class, `Compressor.Disk`, whose `files` map is changed in
  place by `Remove`, `Write` and `Move`.
- The compression routine, the batch loop, the listings, the record
  builders and the merge are methods with loops. Each method is proved equal
  to a specification function: `Compress`, `SweepFrom`, `Listed`, `Records`,
  `Entries` or `MergeFrom`.
- The properties the scripts rely on are lemmas about those functions.

Everything the scripts learn from outside is a parameter:

- ffmpeg's answers: the probe's stderr, and each encode's result per attempt
  and bitrate.
- Which `shutil.move` raises.
- `glob` results, as a function from a pattern to names.
- File sizes, as a function from a name to `Option<nat>` tenths of a MB.
- Whether each thumbnail write succeeds.
- The clock texts.
- The existing manifest, as a parsed JSON value.
- Whether writing the manifest succeeds.

Modules:

- `Wrappers`: `Option`.
- `Text`: Python's `in`, `split`, `join`, `strip`, `lower` and `title` on
  strings.
- `Numbers`: `int()` truncation, `//`, decimal printing, and `float()`
  parsing of plain decimals.
- `Order`: `sorted` on names, which is code-point lexicographic order.
- `Paths`: `Path.stem` and `Path.suffix`.
- `Sizes`: `round(bytes / 2**20, 1)`, in exact tenths.
- `Naming`: titles, descriptions and `M:SS`, shared by both catalog scripts.
- `Listing`: the glob patterns and the listing loop.
- `Json`: JSON values, with Python truthiness.
- `Compressor`: `compress_video_to_size`.
- `CompressBatch`: `compress_large_videos`.
- `PagedCatalog`: `update_pro.py`.
- `Catalog`: `update.py`.

Where the documented behaviour and the code differ, the model follows the
code:

- A capped duration of 3600 s prints as `60:00`, with no hour field
  (`Naming.ClockExamples`).
- A 30 MB file with no resolution keyword gets `854x480`, because 30 is not
  above 50 (`PagedCatalog.ResolutionBySize`).
- An encode that leaves a zero-length file counts as reaching the target.
- A target of 0 makes the second attempt divide by zero outside the loop's
  `try`, and the error escapes (`Compressor.Outcome.DivisionByZero`).
- If the first `shutil.move` succeeds and the second fails, the scratch file
  is deleted. The original then survives only in the backup folder
  (`Compressor.OriginalKept`).
- The bitrate after an overshoot is truncated by `int()`, so it can reach 0,
  and the next attempts then run at 0 again. A 16 MB target whose encodes
  all come out at 16000 MB runs at 500, 0, 0, 0 and 0 kbps
  (`Compressor.StallsAtZero`). The bitrate strictly falls only while it is
  positive (`Compressor.ScaledShrinks`).
- In `update_pro.py`, a page size of 0 raises `ZeroDivisionError` after the
  records (and their thumbnails) have been generated.
- In `update.py`, an existing manifest that is truthy but not a JSON object
  raises `AttributeError` (`Catalog.Update.NotAnObject`).

## Model

| member | source | states |
|---|---|---|
| Compressor.Disk.Remove | cheak.py:173-174 | `unlink` after `exists()`: the path is gone and every other file is untouched |
| Compressor.Disk.Write | cheak.py:194 | pass 2 writes the scratch file with the given bytes and changes nothing else |
| Compressor.Disk.Move | cheak.py:218-220 | `shutil.move`: the destination holds the moved bytes, the source path is empty, other paths are kept |
| Compressor.Moved | cheak.py:218-220 | the content of `from` is now at `to`; `from` is gone when it differs from `to`; no other path changes |
| Compressor.ParseDuration | cheak.py:82-97 | the stderr loop yields the duration of the first line that parses, as `ProbedDuration` of the split lines |
| Compressor.ProbedDurationFirst | cheak.py:84-95 | the first line that gives a duration decides the result, whatever the later lines hold |
| Compressor.ProbedDurationNone | cheak.py:82-102 | when no line gives a duration the scan stays at 0, which the `<= 0` check rejects |
| Compressor.LineDurationFields | cheak.py:85-95 | for a line with no earlier `Duration:` marker, holding the fields joined by `:` and then `,`: fewer than three fields give no duration; otherwise there is a duration exactly when `float()` reads each of the first three fields, and it is hours*3600 + minutes*60 + seconds |
| Compressor.FfmpegDurationLine | cheak.py:85-95 | ffmpeg's `Duration: H:MM:SS.ff,` gives H*3600 + MM*60 + SS plus the decimal fraction `.ff` |
| Compressor.NotAvailableLine | cheak.py:85-97 | `Duration: N/A,` has a single field, so the line gives no duration and the scan goes on |
| Numbers.ParseFloatNat | cheak.py:91-93 | `float()` of the decimal digits of n reads n |
| Numbers.ParseFloatDecimal | cheak.py:91-93 | `float()` of two-digit seconds with a decimal fraction reads the seconds plus the fraction's exact value |
| Text.SplitJoin | cheak.py:89 | splitting fields joined by a separator that none of them contains gives back the fields |
| Compressor.InitialBitrateSpec | cheak.py:106-113 | the first bitrate is `floor(target*8*1024/duration - 128)` clamped to at least 500 kbps |
| Compressor.ScaledShrinks | cheak.py:128-132 | after an overshoot, `int(current / (size/target) * 0.95)` is non-negative, never higher, and strictly lower while positive |
| Compressor.TempIsNotSource | cheak.py:116 | the scratch file `{stem}_compressed{suffix}` is never the source itself |
| Compressor.BackupDistinct | cheak.py:210-215 | the backup path, plain or time-stamped, is neither the source nor the scratch file |
| Compressor.PlaceOutput | cheak.py:208-227 | the two moves on the disk end as `Place` says: success with the backup path, or a move error with the scratch file removed |
| Compressor.EncodeOnce | cheak.py:139-250 | one attempt on the disk: each encoder failure removes the scratch file and ends; an output within the target is placed; an overshoot removes it and reports its size |
| Compressor.RetryLoop | cheak.py:119-256 | the five-attempt loop run on the disk gives the outcome and disk of `Attempts` from attempt 0 |
| Compressor.CompressVideoToSize | cheak.py:68-256 | the whole routine on the disk gives the outcome and final disk of `Compress` |
| Compressor.AttemptsTrace | cheak.py:119-137 | with a positive target: at most the remaining attempts run; each retry follows an overshoot and scales the bitrate by it, never by the 0.9 decay; every bitrate is non-negative |
| Compressor.CompressBitrates | cheak.py:106-137 | with a positive target: nothing is raised; at most 5 encodes; the first at the initial bitrate; bitrates never rise and fall while positive; every attempt but the last overshot |
| Compressor.StuckAtZero | cheak.py:124-137 | once the scaled bitrate truncates to 0, an encoder whose output always overshoots is re-run at 0 on every remaining attempt and the loop ends exhausted |
| Compressor.StallsAtZero | cheak.py:119-137 | a 16 MB target with every output at 16000 MB, starting at 500 kbps: the bitrates are 500, 0, 0, 0, 0 and the loop ends exhausted |
| Compressor.AttemptsRaiseOnlyOnZeroTarget | cheak.py:124-137 | the loop raises only through the division by a zero target |
| Compressor.RaisesOnlyOnZeroTarget | cheak.py:68-256 | `compress_video_to_size` lets an exception escape only when the target is 0 |
| Compressor.ExhaustedAfterAllAttempts | cheak.py:252-256 | failing by exhaustion means exactly five encodes were made and every one overshot |
| Compressor.PlaceNeverRaises | cheak.py:171-250 | a finished attempt either compressed or failed with a pass-1, pass-2, timeout, encoder or move error |
| Compressor.PlaceFiles | cheak.py:208-227 | an output within the target: without a fault the original moves to the backup and the output to the source path; a failing first move leaves the disk as before minus the scratch file; a failing second move leaves the original only in the backup |
| Compressor.OvershootClears | cheak.py:228-234 | an overshooting attempt deletes the scratch file and leaves every other file as it was |
| Compressor.StepFiles | cheak.py:139-250 | the disk after one attempt in each of its cases: overshoot, compressed, second move failed, other failure |
| Compressor.AttemptsFiles | cheak.py:119-256 | over the whole loop: on success the original is in the backup and the source holds an encode output within the target; otherwise the disk is as before minus the scratch file, or as a relocation when the second move failed |
| Compressor.AttemptsNeverExitEarly | cheak.py:119-256 | the loop never ends in one of the early exits that precede it |
| Compressor.CompressFiles | cheak.py:68-256 | the missing-source result occurs exactly when the source is absent; the three early exits leave the disk unchanged and make no encode; every other outcome leaves the disk as the loop lemma says |
| Compressor.OriginalKept | cheak.py:208-256 | the original's bytes are always at the source or in the backup; after success they are in the backup; after any failure other than the configured second-move fault ending in `MoveError` they are still at the source |
| Compressor.CompressFrame | cheak.py:68-256 | no file other than the source, the scratch file, the backup folder's files and the two ffmpeg log files changes |
| CompressBatch.CompressLargeVideos | cheak.py:258-295 | the batch on the disk gives the report and disk of `Batch`: no encoder, no folder and no videos exit early; otherwise one visit per listed name in listing order |
| CompressBatch.SweepDisk | cheak.py:276-290 | the loop over names gives the counters, the disk and the escaped exception of `SweepFrom` |
| CompressBatch.Visit | cheak.py:280-288 | compressing one file above the threshold adds one to the compressed or the skipped count, or ends the sweep on the escaping division |
| CompressBatch.CountsMatchSubmitted | cheak.py:276-290 | with a non-zero target and separate names, nothing is raised and compressed + skipped equals the number of files above the threshold |
| Listing.ListFiles | cheak.py:50-58 | the names from every pattern's glob, pattern by pattern in the listed order, as `Listed` |
| Listing.ListedIff | update_pro.py:22-30 | a name is listed exactly when one of the patterns matches it |
| Sizes.RoundedTenths | update_pro.py:80-86 | `round(bytes/2**20, 1)` as tenths: within half a tenth of the exact size, ties to the even tenth |
| Sizes.RoundedTenthsClose | cheak.py:60-66 | the rounded size is within 0.05 MB of the exact size |
| Sizes.ShowTenthsParses | update_pro.py:126 | the printed one-decimal size reads back as the same number of megabytes |
| Order.SortNames | update_pro.py:105 | `sorted(video_files)`: the result is in code-point order and is a permutation of the input |
| Order.SameHead | update.py:67 | two sorted permutations of the same names start with the same name, and the rest are permutations of each other |
| Order.SortedUnique | update.py:67 | two sorted permutations of the same names are equal, so the numbering is fixed by the set of names |
| Paths.StemSuffix | update.py:38 | the stem followed by the suffix is the file name, the suffix is empty or starts with its last dot, and the stem is not empty |
| Naming.FirstKeyFrom | update_pro.py:172-174 | the first mapping key, in mapping order, that occurs in the lowered name, or none when no key occurs |
| Naming.FriendlyTitleKeyword | update_pro.py:160-174 | a name containing a key, and no earlier key, gets that key's mapped title |
| Naming.FriendlyTitleFallback | update_pro.py:166-176 | a name with no key keeps its length, is title-cased, and has its `_` and `-` replaced by spaces |
| Naming.DescriptionInjective | update_pro.py:178-188 | different titles never get the same description |
| Naming.MappedTitlesDescribed | update_pro.py:178-188 | each of the five mapped titles gets its own fixed text from the table |
| Naming.DescriptionOther | update_pro.py:188 | any other title gets the sentence built around the title itself |
| Naming.ClockExamples | update_pro.py:94-99 | 45 s prints as `0:45`, 90 s as `1:30` and 3600 s as `60:00` |
| Naming.ClockUniform | update.py:56-61 | both branches print whole minutes, a colon and two-digit seconds |
| Naming.ClockRoundTrip | update_pro.py:94-99 | reading the `M:SS` text back gives the seconds it was printed from |
| PagedCatalog.EstimateSecondsExact | update_pro.py:88-92 | `min(int(size/0.25), 3600)` is `min(floor(0.4 * tenths), 3600)` and never above an hour |
| PagedCatalog.EstimateSecondsMonotone | update_pro.py:88-92 | a larger file never gets a shorter duration estimate |
| PagedCatalog.EstimateDurationReads | update_pro.py:88-99 | the duration text reads back as the capped estimate |
| PagedCatalog.FirstGroupFrom | update_pro.py:139-150 | the first keyword group, in the tests' order, with a word in the lowered name, or none |
| PagedCatalog.ResolutionByKeyword | update_pro.py:139-150 | a keyword of a group, with none from an earlier group, fixes that group's resolution whatever the size |
| PagedCatalog.ResolutionBySize | update_pro.py:151-158 | with no keyword: above 100 MB `1920x1080`, above 50 MB `1280x720`, otherwise `854x480` |
| PagedCatalog.ResolutionIndependentOfSize | update_pro.py:139-150 | a name with any keyword gets one of the four keyword resolutions, the same for every size |
| PagedCatalog.ColourBands | update_pro.py:42-47 | purple exactly above 50 MB, green exactly above 20 MB up to 50, blue exactly up to 20 |
| Enumeration.Enumerate | update_pro.py:105-135 | the `enumerate` loop appends, in order, one element per name made with its number |
| Enumeration.NumberedAt | update.py:67-96 | the i-th element numbered from `first` is made from the i-th name and the number first + i |
| PagedCatalog.GenerateVideoData | update_pro.py:101-137 | the loop builds `Records` of the sorted names numbered from 1 |
| PagedCatalog.RecordsAt | update_pro.py:105-135 | the record at position i is the record of the i-th name with id first + i |
| PagedCatalog.GeneratedRecords | update_pro.py:101-137 | one record per name, in sorted order, ids 1..n, CDN URLs of the file, thumbnail URL empty exactly when the SVG write failed, fixed codec and thumbnail type, today's date |
| PagedCatalog.ThumbnailLink | update_pro.py:114-115 | the thumbnail URL is empty exactly when writing `{stem}.svg` failed, and is otherwise the CDN thumbnails prefix followed by that name |
| PagedCatalog.RecordDescribes | update_pro.py:108-133 | a record links the CDN copy of its file, carries its id and name, its thumbnail link, the fixed codec and thumbnail type, and today's date |
| PagedCatalog.UrlNamesFile | update_pro.py:121 | the URL is the CDN videos prefix followed by the file name |
| PagedCatalog.RecordTextsRead | update_pro.py:124-126 | for an existing file the size text is the rounded size and ` MB`, and the duration text reads back as the estimate |
| PagedCatalog.PaginateCeil | update_pro.py:209-221 | for a positive page size the page count is the ceiling of total/pageSize (0 for no videos); page 1, no next, no previous |
| PagedCatalog.UpdateVideosJson | update_pro.py:190-248 | the update lists the folder and ends as `UpdateFrom`: no folder, no videos, zero page size, write failure or written manifest |
| PagedCatalog.ManifestTotals | update_pro.py:204-232 | a written manifest has total = number of records = number of listed files > 0, the given page size, and the pagination `Paginate` gives for that total, whose page count `PaginateCeil` shows is the ceiling |
| Catalog.StemMapKeys | update.py:30-38 | the thumbnail map's keys are exactly the listed thumbnails' stems |
| Catalog.StemMapLastWins | update.py:38 | each stem maps to a listed file with that stem, and no later listed file has it |
| Catalog.GetThumbnailFiles | update.py:30-38 | the loop over the two patterns gives the stem map of the listed thumbnails |
| Catalog.EstimateSecondsExact | update.py:48-54 | `int(size * 5)` is half the tenths, rounded down |
| Catalog.EstimateUncapped | update.py:48-61 | every number of seconds is reached by some size; there is no one-hour cap here |
| Catalog.GenerateVideoData | update.py:63-98 | the loop builds `Entries` of the sorted names numbered from 1 |
| Catalog.EntriesAt | update.py:67-96 | the entry at position i is the entry of the i-th name with id first + i |
| Catalog.ThumbnailFound | update.py:78-82 | a video's thumbnail URL is non-empty exactly when some thumbnail has its stem; it then names the last such thumbnail |
| Catalog.GeneratedEntries | update.py:63-98 | one entry per name, in sorted order, ids 1..n, the file's CDN URL, the thumbnail by stem, today's date |
| Catalog.Merge | update.py:177-181 | the loop over the existing fields gives `MergeFrom` of the generated fields |
| Catalog.MergeKeepsPrefix | update.py:170-181 | the generated fields come first, unchanged |
| Catalog.MergeKeys | update.py:177-181 | the merged keys are the generated ones and the existing ones, each present once |
| Catalog.MergeValues | update.py:177-181 | a generated key keeps its generated value; any other key takes its existing value |
| Catalog.GeneratedShape | update.py:170-175 | the generated part has exactly the keys videos, total, lastUpdated and repository, each once |
| Catalog.UpdateVideosJson | update.py:140-203 | the update lists both folders and ends as `UpdateFrom`: no folder, no videos, a non-object manifest, write failure or written data |
| Catalog.MergedFields | update.py:167-181 | after the merge the four generated keys hold the new values, every other key holds its existing value, and the keys are the union, each once |
| Catalog.ManifestMerged | update.py:140-203 | written data holds total = number of listed videos, a videos array of that length, every custom key of the old manifest with its old value, and no other keys |

## Left out

- ffmpeg itself: the probe and both encode passes are parameters (`Job.encode`, the probe text), so the model does not know what bitrate produces which size.
- Timeouts and other exceptions from `subprocess.run` are outcomes of an attempt (`TimedOut`, `Crashed`), not elapsed time.
- `Compressor.CompressFrame`: the removal of `ffmpeg2pass-0.log` and `ffmpeg2pass-0.log.mbtree` next to the source (cheak.py:141-150, 196-202) is not modelled, so the frame excludes those two paths (`Compressor.PassLogs`), and `Compressor.Untouched` and `Compressor.Relocated` describe the model's disk, on which the logs stay as they were.
- `check_ffmpeg`, `mkdir` of the backup folder and the `exists()` test of the videos folder are booleans given to the model.
- `glob.glob` is a function from pattern to names; the model does not check which names match a pattern.
- Text output (progress messages, the SVG markup and `json.dump` formatting) is not modelled; a thumbnail write is a success flag, and the manifest is a sequence of fields.
- `datetime.now()` is given as a parameter (the backup time stamp, the date and the update time).
- `float()` is modelled for signed plain decimals with surrounding whitespace; exponents, `inf`, `nan` and underscores are left out.
- `Sizes.RoundedTenths`: `bytes / 2**20` is exact in binary floating point, so the only gap is how `round(x, 1)` treats a decimal tie. The model rounds an exact tie to the even tenth, and takes the result as that exact tenth rather than the nearest double.
- `Compressor.Scaled`, `Compressor.InitialBitrate` and `Compressor.LineDuration` compute on exact reals, not IEEE doubles. Where the exact value under `int()` is a whole number, the double may lie just below it, and Python's `int()` then gives one less. For a 16 MB target, a 500 kbps attempt that comes out at exactly 19 MB is followed by 400 kbps in the model, but by 399 in Python, because `0.95` is stored slightly low. `Compressor.AttemptsTrace`, `Compressor.CompressBitrates` and `Compressor.RetryLoop` describe the exact-real sequence. `Compressor.Decayed` (`int(current_bitrate * 0.9)`) is computed the same way, but there the double and the exact value truncate to the same integer for every bitrate between -200000 and 5000000 kbps.
- `Catalog.MergeFrom`: a parsed `Json.Object` may list a key twice; the merge then keeps the first value. `json.load` never returns such an object, because its dict keeps the last. On objects with distinct keys, which are all that `json.load` returns, the model and the script agree.
- Python's `str.lower` and `str.title` are modelled for ASCII letters only; other characters are left unchanged.
- Loading an invalid JSON file raises in `load_existing_data`; the model receives an already parsed value.
- `main`, argument parsing and the test scripts are not part of this model.
- `CompressBatch.CountsMatchSubmitted`: it assumes `Separate`, five conditions the script does not check. (1) The listed names are pairwise distinct: on a case-folding file system two of the ten globs can list one file twice, and the second visit sees the already compressed file. (2) No listed name is another's `_compressed` scratch name: compressing `x.mp4` overwrites and then deletes a listed `x_compressed.mp4`. (3) The backup folder is not the videos folder: both are free arguments, and a backup moved in beside the videos can take a listed name. (4) Every time stamp has the `%Y%m%d_%H%M%S` form: `strftime` always produces it, and a stamp `compressed` would make the stamped backup name the scratch name. (5) No listed name is `ffmpeg2pass-0.log` or `ffmpeg2pass-0.log.mbtree`: every attempt on another file deletes those two, so such a listed file would be gone by its own visit.
