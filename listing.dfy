/**
 * `get_video_files` / `get_thumbnail_files`: one glob per pattern, the matches
 * of all patterns concatenated in pattern order.  The glob itself is an input:
 * `glob(pattern)` is the list of file names it matches, in the order it
 * returns them.
 */
module Listing {

  /** The names one glob pattern matches in the scanned directory. */
  type Glob = string -> seq<string>

  /** cheak.py:54 and update_pro.py:24 */
  const VideoPatterns: seq<string> :=
    ["*.mp4", "*.MP4", "*.mov", "*.MOV", "*.avi", "*.AVI", "*.mkv", "*.MKV", "*.webm", "*.WEBM"]

  /** update.py:22, without the WebM patterns */
  const NarrowVideoPatterns: seq<string> :=
    ["*.mp4", "*.MP4", "*.mov", "*.MOV", "*.avi", "*.AVI", "*.mkv", "*.MKV"]

  /** update.py:32 */
  const ThumbnailPatterns: seq<string> :=
    ["*.jpg", "*.JPG", "*.jpeg", "*.JPEG", "*.png", "*.PNG", "*.webp", "*.WEBP"]

  /** The matches of all patterns, in pattern order. */
  function Listed(patterns: seq<string>, glob: Glob): seq<string> {
    if patterns == [] then [] else Listed(patterns[..|patterns| - 1], glob) + glob(patterns[|patterns| - 1])
  }

  /** A name is listed exactly when some pattern matches it. */
  lemma {:induction false} ListedIff(patterns: seq<string>, glob: Glob, name: string)
    ensures name in Listed(patterns, glob) <==> exists k :: 0 <= k < |patterns| && name in glob(patterns[k])
  {
    if patterns != [] {
      var init := patterns[..|patterns| - 1];
      ListedIff(init, glob, name);
      if name in Listed(init, glob) {
        var k :| 0 <= k < |init| && name in glob(init[k]);
        assert patterns[k] == init[k];
      }
      if k :| 0 <= k < |patterns| && name in glob(patterns[k]) {
        if k < |init| { assert init[k] == patterns[k]; }
      }
    }
  }

  /** The loop `for ext in patterns: files.extend(glob(ext))`. */
  method ListFiles(patterns: seq<string>, glob: Glob) returns (names: seq<string>)
    ensures names == Listed(patterns, glob)
  {
    names := [];
    for i := 0 to |patterns|
      invariant names == Listed(patterns[..i], glob)
    {
      assert patterns[..i + 1][..i] == patterns[..i];
      names := names + glob(patterns[i]);
    }
    assert patterns[..|patterns|] == patterns;
  }
}
