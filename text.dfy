/**
 * The string operations the scripts use from Python's `str`: `lower`, `in`,
 * `split`, `strip`, `replace` and `title`.  Case mapping covers ASCII letters
 * only; every other character is uncased.
 */
module Text {
  import opened Wrappers

  predicate IsUpper(c: char) { 'A' <= c <= 'Z' }
  predicate IsLower(c: char) { 'a' <= c <= 'z' }
  predicate IsLetter(c: char) { IsUpper(c) || IsLower(c) }

  function ToLower(c: char): char { if IsUpper(c) then (c as int + 32) as char else c }
  function ToUpper(c: char): char { if IsLower(c) then (c as int - 32) as char else c }

  /** `s.lower()` */
  function Lower(s: string): string {
    seq(|s|, i requires 0 <= i < |s| => ToLower(s[i]))
  }

  /** `s.replace(a, b)` for single characters. */
  function ReplaceChar(s: string, a: char, b: char): string {
    seq(|s|, i requires 0 <= i < |s| => if s[i] == a then b else s[i])
  }

  // ---------------------------------------------------------------- search

  /** `pat` occurs in `s` starting at index `i`. */
  predicate OccursAt(s: string, pat: string, i: nat) {
    i + |pat| <= |s| && s[i..i + |pat|] == pat
  }

  /** The first occurrence of `pat` in `s` at or after `from` (`s.find(pat, from)`). */
  function FindFrom(s: string, pat: string, from: nat): (r: Option<nat>)
    ensures r.Some? ==> from <= r.value && OccursAt(s, pat, r.value)
    ensures r.Some? ==> forall j :: from <= j < r.value ==> !OccursAt(s, pat, j)
    ensures r.None? ==> forall j :: from <= j ==> !OccursAt(s, pat, j)
    decreases |s| - from
  {
    if from + |pat| > |s| then None
    else if s[from..from + |pat|] == pat then Some(from)
    else FindFrom(s, pat, from + 1)
  }

  function Find(s: string, pat: string): Option<nat> { FindFrom(s, pat, 0) }

  /** `pat in s` */
  predicate Contains(s: string, pat: string) { Find(s, pat).Some? }

  /** Python's `in` is substring search: it holds exactly when some occurrence exists. */
  lemma ContainsIff(s: string, pat: string)
    ensures Contains(s, pat) <==> exists i: nat :: OccursAt(s, pat, i)
  {
    if Contains(s, pat) {
      assert OccursAt(s, pat, Find(s, pat).value);
    }
  }

  /** An occurrence inside `s[..n]` is an occurrence inside `s`. */
  lemma OccursInPrefix(s: string, pat: string, n: nat, j: nat)
    requires n <= |s| && OccursAt(s[..n], pat, j)
    ensures OccursAt(s, pat, j)
  {
    assert s[..n][j..j + |pat|] == s[j..j + |pat|];
  }

  /** `c` does not occur in `s`. */
  predicate Free(s: string, c: char) { forall k :: 0 <= k < |s| ==> s[k] != c }

  /** An occurrence with none before it is the one `find` reports. */
  lemma FindFirst(s: string, pat: string, i: nat)
    requires OccursAt(s, pat, i) && forall j :: 0 <= j < i ==> !OccursAt(s, pat, j)
    ensures Find(s, pat) == Some(i)
  {
  }

  /** A one-character pattern occurs exactly where that character is. */
  lemma OccursChar(s: string, c: char, j: nat)
    ensures OccursAt(s, [c], j) <==> j < |s| && s[j] == c
  {
    if j < |s| { assert s[j..j + 1] == [s[j]]; }
  }

  /** A string without the pattern's first character does not contain the pattern. */
  lemma FreeOfHead(s: string, pat: string)
    requires pat != [] && Free(s, pat[0])
    ensures !Contains(s, pat)
  {
    forall i: nat ensures !OccursAt(s, pat, i) {
      if i + |pat| <= |s| { assert s[i..i + |pat|][0] == s[i]; }
    }
  }

  /** Putting a character other than the pattern's first in front adds no occurrence. */
  lemma ContainsCons(c: char, s: string, pat: string)
    requires pat != [] && c != pat[0] && !Contains(s, pat)
    ensures !Contains([c] + s, pat)
  {
    var t := [c] + s;
    forall i: nat ensures !OccursAt(t, pat, i) {
      if i + |pat| <= |t| {
        if i == 0 {
          assert t[i..i + |pat|][0] == c;
        } else {
          assert t[i..i + |pat|] == s[i - 1..i - 1 + |pat|];
          assert !OccursAt(s, pat, i - 1);
        }
      }
    }
  }

  /**
   * No occurrence of `pat` starts before `n` when `s[..n]` does not contain it and
   * `s[n]` is none of `pat`'s characters after the first: an occurrence would
   * either lie inside `s[..n]` or put one of those characters at `n`.
   */
  lemma NoOccurrenceBefore(s: string, pat: string, n: nat)
    requires n < |s| && !Contains(s[..n], pat)
    requires forall k :: 1 <= k < |pat| ==> pat[k] != s[n]
    ensures forall j :: 0 <= j < n ==> !OccursAt(s, pat, j)
  {
    forall j | 0 <= j < n ensures !OccursAt(s, pat, j) {
      if j + |pat| <= n {
        assert s[..n][j..j + |pat|] == s[j..j + |pat|];
        assert !OccursAt(s[..n], pat, j);
      } else if j + |pat| <= |s| {
        assert s[j..j + |pat|][n - j] == s[n];
      }
    }
  }

  // ----------------------------------------------------------------- split

  /** `s.split(sep)` for a non-empty separator: the pieces between non-overlapping occurrences, left to right. */
  function Split(s: string, sep: string): (parts: seq<string>)
    requires sep != []
    ensures |parts| >= 1
    ensures |parts| >= 2 <==> Contains(s, sep)
    decreases |s|
  {
    match Find(s, sep)
    case None => [s]
    case Some(i) => [s[..i]] + Split(s[i + |sep|..], sep)
  }

  /** Splitting at a character that `a` lacks: `a` is the first piece, the rest is split on. */
  lemma SplitChar(a: string, c: char, b: string)
    requires Free(a, c)
    ensures Split(a + [c] + b, [c]) == [a] + Split(b, [c])
  {
    var s := a + [c] + b;
    forall j | 0 <= j < |a| ensures !OccursAt(s, [c], j) { OccursChar(s, c, j); }
    OccursChar(s, c, |a|);
    FindFirst(s, [c], |a|);
    assert s[..|a|] == a && s[|a| + 1..] == b;
  }

  /** A string without the separator character splits into itself alone. */
  lemma SplitCharNone(a: string, c: char)
    requires Free(a, c)
    ensures Split(a, [c]) == [a]
  {
    if Find(a, [c]).Some? {
      OccursChar(a, c, Find(a, [c]).value);
    }
  }

  /** When `sep` starts nowhere up to `n`, the first piece of the split keeps `s[..n + 1]`. */
  lemma FirstPieceKeeps(s: string, sep: string, n: nat)
    requires sep != [] && n < |s| && forall j :: 0 <= j <= n ==> !OccursAt(s, sep, j)
    ensures n < |Split(s, sep)[0]| && Split(s, sep)[0][..n + 1] == s[..n + 1]
  {
    match Find(s, sep)
    case None =>
    case Some(i) =>
      assert OccursAt(s, sep, i);
      assert s[..i][..n + 1] == s[..n + 1];
  }

  /** `sep.join(parts)` */
  function Join(parts: seq<string>, sep: string): string
    decreases |parts|
  {
    if parts == [] then []
    else if |parts| == 1 then parts[0]
    else parts[0] + sep + Join(parts[1..], sep)
  }

  /** Joining the pieces of a split with the same separator gives back the string. */
  lemma {:induction false} JoinSplit(s: string, sep: string)
    requires sep != []
    ensures Join(Split(s, sep), sep) == s
    decreases |s|
  {
    match Find(s, sep)
    case None =>
    case Some(i) =>
      assert OccursAt(s, sep, i);
      var rest := s[i + |sep|..];
      var parts := Split(rest, sep);
      JoinSplit(rest, sep);
      var whole := [s[..i]] + parts;
      assert Split(s, sep) == whole;
      assert whole[1..] == parts;
      assert Join(whole, sep) == s[..i] + sep + rest;
      assert s == s[..i] + s[i..i + |sep|] + rest;
  }

  /** A join of pieces, with a separator, none of which holds `c`, does not hold `c`. */
  lemma {:induction false} JoinFree(parts: seq<string>, sep: string, c: char)
    requires Free(sep, c) && forall k :: 0 <= k < |parts| ==> Free(parts[k], c)
    ensures Free(Join(parts, sep), c)
    decreases |parts|
  {
    if |parts| > 1 {
      JoinFree(parts[1..], sep, c);
    }
  }

  /** Splitting a join of pieces free of the separator character gives back the pieces. */
  lemma {:induction false} SplitJoin(parts: seq<string>, c: char)
    requires |parts| >= 1 && forall k :: 0 <= k < |parts| ==> Free(parts[k], c)
    ensures Split(Join(parts, [c]), [c]) == parts
    decreases |parts|
  {
    if |parts| == 1 {
      SplitCharNone(parts[0], c);
    } else {
      SplitJoin(parts[1..], c);
      SplitChar(parts[0], c, Join(parts[1..], [c]));
      assert parts == [parts[0]] + parts[1..];
    }
  }

  /** No piece of a split contains the separator. */
  lemma {:induction false} SplitPiecesFree(s: string, sep: string, k: nat)
    requires sep != [] && k < |Split(s, sep)|
    ensures !Contains(Split(s, sep)[k], sep)
    decreases |s|
  {
    match Find(s, sep)
    case None =>
    case Some(i) =>
      if k == 0 {
        if Contains(s[..i], sep) {
          var j := Find(s[..i], sep).value;
          OccursInPrefix(s, sep, i, j);
          assert false;
        }
      } else {
        SplitPiecesFree(s[i + |sep|..], sep, k - 1);
      }
  }

  // ----------------------------------------------------------------- strip

  /** Python's `str.isspace` for the characters it accepts as whitespace. */
  predicate IsSpace(c: char) {
    c == ' ' || ('\t' <= c <= '\r') || ('\U{1C}' <= c <= '\U{1F}') || c == '\U{85}' || c == '\U{A0}'
    || c == '\U{1680}' || ('\U{2000}' <= c <= '\U{200A}') || c == '\U{2028}' || c == '\U{2029}'
    || c == '\U{202F}' || c == '\U{205F}' || c == '\U{3000}'
  }

  /** `s.lstrip()` */
  function StripStart(s: string): (r: string)
    ensures |r| <= |s| && r == s[|s| - |r|..]
    ensures forall k :: 0 <= k < |s| - |r| ==> IsSpace(s[k])
    ensures r == [] || !IsSpace(r[0])
  {
    if s != [] && IsSpace(s[0]) then StripStart(s[1..]) else s
  }

  /** `s.rstrip()` */
  function StripEnd(s: string): (r: string)
    ensures |r| <= |s| && r == s[..|r|]
    ensures forall k :: |r| <= k < |s| ==> IsSpace(s[k])
    ensures r == [] || !IsSpace(r[|r| - 1])
  {
    if s != [] && IsSpace(s[|s| - 1]) then StripEnd(s[..|s| - 1]) else s
  }

  /** `s.strip()` */
  function Strip(s: string): string { StripEnd(StripStart(s)) }

  /** Stripping leaves a string that neither starts nor ends with whitespace as it is. */
  lemma StripKeeps(s: string)
    requires s == [] || (!IsSpace(s[0]) && !IsSpace(s[|s| - 1]))
    ensures Strip(s) == s
  {
  }

  /** Concatenation regrouped around a separator split in two. */
  lemma Regroup(p: string, a: string, b: string, t: string, c: string, q: string)
    ensures p + (a + b) + t + c + q == p + a + (b + t + c + q)
  {
  }

  /** The last three pieces of a concatenation, grouped together. */
  lemma RegroupTail(x: string, a: string, b: string, c: string)
    ensures x + a + b + c == x + (a + b + c)
  {
  }

  /** Stripping removes a leading space in front of such a string. */
  lemma StripLeadingSpace(s: string)
    requires s != [] && !IsSpace(s[0]) && !IsSpace(s[|s| - 1])
    ensures Strip(" " + s) == s
  {
    assert (" " + s)[1..] == s;
    StripKeeps(s);
  }

  // ----------------------------------------------------------------- title

  /** `s.title()`: a letter after a letter is lowered, any other letter is raised. */
  function TitleFrom(s: string, afterLetter: bool): string
  {
    if s == [] then []
    else
      var c := s[0];
      [if !IsLetter(c) then c else if afterLetter then ToLower(c) else ToUpper(c)]
      + TitleFrom(s[1..], IsLetter(c))
  }

  function Title(s: string): string { TitleFrom(s, false) }

  /** What `str.title` puts at index `i`, read off the neighbouring character alone. */
  function TitleCharAt(s: string, i: nat): char
    requires i < |s|
  {
    if !IsLetter(s[i]) then s[i]
    else if i > 0 && IsLetter(s[i - 1]) then ToLower(s[i])
    else ToUpper(s[i])
  }

  /** `title` changes case character by character and keeps the length. */
  lemma {:induction false} TitleFromAt(s: string, afterLetter: bool, i: nat)
    requires i < |s|
    ensures |TitleFrom(s, afterLetter)| == |s|
    ensures TitleFrom(s, afterLetter)[i] ==
      if i == 0 then (if !IsLetter(s[0]) then s[0] else if afterLetter then ToLower(s[0]) else ToUpper(s[0]))
      else TitleCharAt(s, i)
    decreases |s|
  {
    TitleLength(s, afterLetter);
    if i > 0 {
      TitleFromAt(s[1..], IsLetter(s[0]), i - 1);
      if i > 1 {
        assert s[1..][i - 2] == s[i - 1];
      }
    }
  }

  lemma {:induction false} TitleLength(s: string, afterLetter: bool)
    ensures |TitleFrom(s, afterLetter)| == |s|
    decreases |s|
  {
    if s != [] { TitleLength(s[1..], IsLetter(s[0])); }
  }

  /** The index-wise reading of `title`. */
  lemma TitleAt(s: string, i: nat)
    requires i < |s|
    ensures |Title(s)| == |s| && Title(s)[i] == TitleCharAt(s, i)
  {
    TitleFromAt(s, false, i);
  }

  /** Title-casing an already title-cased string changes nothing. */
  lemma TitleIdempotent(s: string)
    ensures Title(Title(s)) == Title(s)
  {
    var t := Title(s);
    TitleLength(s, false);
    TitleLength(t, false);
    forall i | 0 <= i < |s|
      ensures Title(t)[i] == t[i]
    {
      TitleAt(s, i);
      TitleAt(t, i);
      if i > 0 { TitleAt(s, i - 1); }
    }
  }
}
