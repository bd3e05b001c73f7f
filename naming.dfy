/**
 * The display text both catalog scripts derive from a file name: the friendly
 * title (`generate_friendly_title`), its description (`generate_description`)
 * and the `M:SS` duration text (`estimate_duration`'s formatting).  The two
 * scripts carry identical copies of this code.
 */
module Naming {
  import opened Wrappers
  import opened Text
  import opened Numbers

  /** `name_mapping`, in its iteration order. */
  const TitleKeys: seq<string> := ["intro", "tutorial", "demo", "guide", "overview"]
  const MappedTitles: seq<string> := ["产品介绍视频", "使用教程", "功能演示", "操作指南", "系统概览"]

  /** `descriptions`, in its order: the text of the title `MappedTitles[k]` is `DescriptionTexts[k]`. */
  const DescriptionTexts: seq<string> := ["全面介绍产品的功能特性和使用场景", "详细的使用方法和操作步骤说明",
                                          "核心功能的实际使用演示", "具体的操作流程和注意事项", "系统整体架构和主要模块介绍"]

  const DescriptionPrefix: string := "这是关于"
  const DescriptionSuffix: string := "的详细说明视频"

  /** The first key, at index `k` or later, that occurs in `lowered`. */
  function FirstKeyFrom(lowered: string, k: nat): (r: Option<nat>)
    requires k <= |TitleKeys|
    ensures r.Some? ==> k <= r.value < |TitleKeys| && Contains(lowered, TitleKeys[r.value])
    ensures r.Some? ==> forall j :: k <= j < r.value ==> !Contains(lowered, TitleKeys[j])
    ensures r.None? ==> forall j :: k <= j < |TitleKeys| ==> !Contains(lowered, TitleKeys[j])
    decreases |TitleKeys| - k
  {
    if k == |TitleKeys| then None
    else if Contains(lowered, TitleKeys[k]) then Some(k)
    else FirstKeyFrom(lowered, k + 1)
  }

  /** `filename.replace('_', ' ').replace('-', ' ')` */
  function Spaced(stem: string): string { ReplaceChar(ReplaceChar(stem, '_', ' '), '-', ' ') }

  /** `generate_friendly_title(stem)` */
  function FriendlyTitle(stem: string): string {
    match FirstKeyFrom(Lower(stem), 0)
    case Some(i) => MappedTitles[i]
    case None => Title(Spaced(stem))
  }

  /** A name containing one of the keys gets the title mapped to the first key in the mapping's order. */
  lemma FriendlyTitleKeyword(stem: string, i: nat)
    requires i < |TitleKeys| && Contains(Lower(stem), TitleKeys[i])
    requires forall j :: 0 <= j < i ==> !Contains(Lower(stem), TitleKeys[j])
    ensures FriendlyTitle(stem) == MappedTitles[i]
  {
  }

  /** A name with no key is title-cased with '_' and '-' turned into spaces, and keeps its length. */
  lemma FriendlyTitleFallback(stem: string, k: nat)
    requires forall j :: 0 <= j < |TitleKeys| ==> !Contains(Lower(stem), TitleKeys[j])
    requires k < |stem|
    ensures |FriendlyTitle(stem)| == |stem|
    ensures FriendlyTitle(stem)[k] == TitleCharAt(Spaced(stem), k)
    ensures FriendlyTitle(stem)[k] != '_' && FriendlyTitle(stem)[k] != '-'
  {
    TitleAt(Spaced(stem), k);
  }

  /** `descriptions.get(title, ...)`, looking among the titles from index `k` on. */
  function DescriptionFrom(title: string, k: nat): string
    requires k <= |MappedTitles|
    decreases |MappedTitles| - k
  {
    if k == |MappedTitles| then DescriptionPrefix + title + DescriptionSuffix
    else if title == MappedTitles[k] then DescriptionTexts[k]
    else DescriptionFrom(title, k + 1)
  }

  /** `generate_description(title)`: the fixed text of a mapped title, otherwise a sentence about the title. */
  function Description(title: string): string { DescriptionFrom(title, 0) }

  /** The lookup from index `k` finds the title's own text, or falls back to the sentence. */
  lemma {:induction false} DescriptionFromCases(title: string, k: nat)
    requires k <= |MappedTitles|
    ensures (exists j :: k <= j < |MappedTitles| && title == MappedTitles[j]) ==>
      exists j :: k <= j < |MappedTitles| && title == MappedTitles[j] && DescriptionFrom(title, k) == DescriptionTexts[j]
    ensures (forall j :: k <= j < |MappedTitles| ==> title != MappedTitles[j]) ==>
      DescriptionFrom(title, k) == DescriptionPrefix + title + DescriptionSuffix
    decreases |MappedTitles| - k
  {
    if k < |MappedTitles| && title != MappedTitles[k] {
      DescriptionFromCases(title, k + 1);
    }
  }

  /** Every mapped title gets its own fixed text. */
  lemma MappedTitlesDescribed(i: nat)
    requires i < |MappedTitles|
    ensures Description(MappedTitles[i]) == DescriptionTexts[i]
  {
    DescriptionFromCases(MappedTitles[i], 0);
    var j :| 0 <= j < |MappedTitles| && MappedTitles[i] == MappedTitles[j] && Description(MappedTitles[i]) == DescriptionTexts[j];
    assert forall a, b :: 0 <= a < b < |MappedTitles| ==> MappedTitles[a] != MappedTitles[b];
  }

  /** Any other title gets the sentence `这是关于{title}的详细说明视频`. */
  lemma DescriptionOther(title: string)
    requires forall j :: 0 <= j < |MappedTitles| ==> title != MappedTitles[j]
    ensures Description(title) == DescriptionPrefix + title + DescriptionSuffix
  {
    DescriptionFromCases(title, 0);
  }

  /** The fixed texts differ from each other and from the start of the sentence. */
  lemma TextsDistinct(a: nat, b: nat)
    requires a < |DescriptionTexts| && b < |DescriptionTexts|
    ensures DescriptionTexts[a] == DescriptionTexts[b] ==> a == b
    ensures DescriptionTexts[a] != [] && DescriptionTexts[a][0] != DescriptionPrefix[0]
  {
  }

  /** Different titles never share a description, so the description determines the title. */
  lemma DescriptionInjective(t1: string, t2: string)
    requires Description(t1) == Description(t2)
    ensures t1 == t2
  {
    DescriptionFromCases(t1, 0);
    DescriptionFromCases(t2, 0);
    var d := Description(t1);
    if j1 :| 0 <= j1 < |MappedTitles| && t1 == MappedTitles[j1] && d == DescriptionTexts[j1] {
      if j2 :| 0 <= j2 < |MappedTitles| && t2 == MappedTitles[j2] && d == DescriptionTexts[j2] {
        TextsDistinct(j1, j2);
      } else {
        TextsDistinct(j1, j1);
      }
    } else if j2 :| 0 <= j2 < |MappedTitles| && t2 == MappedTitles[j2] && d == DescriptionTexts[j2] {
      TextsDistinct(j2, j2);
    } else {
      var p, q := |DescriptionPrefix|, |DescriptionSuffix|;
      assert d[p..|d| - q] == t1;
      assert Description(t2)[p..|d| - q] == t2;
    }
  }

  /** The duration text: `f"0:{s:02d}"` under a minute, `f"{s // 60}:{s % 60:02d}"` otherwise; there is no hour field. */
  function Clock(s: nat): string {
    if s < 60 then "0:" + Pad2(s) else NatStr(s / 60) + ":" + Pad2(s % 60)
  }

  /** Under a minute, minutes and seconds, and a full hour, which has no hour field. */
  lemma ClockExamples()
    ensures Clock(45) == "0:45" && Clock(90) == "1:30" && Clock(3600) == "60:00"
  {
  }

  /** Reads `M:SS` back: digits, one colon, exactly two digits below 60. */
  function ParseClock(text: string): Option<nat> {
    var parts := Split(text, ":");
    if |parts| == 2 && parts[0] != "" && AllDigits(parts[0]) && |parts[1]| == 2 && AllDigits(parts[1])
       && DigitsValue(parts[1]) < 60
    then Some(DigitsValue(parts[0]) * 60 + DigitsValue(parts[1]))
    else None
  }

  /** The two branches of the formatting agree: the text is always whole minutes, a colon and two-digit seconds. */
  lemma ClockUniform(s: nat)
    ensures Clock(s) == NatStr(s / 60) + ":" + Pad2(s % 60)
  {
  }

  lemma NoColonIn(t: string)
    requires AllDigits(t)
    ensures Find(t, ":").None?
  {
    assert forall i: nat :: OccursAt(t, ":", i) ==> t[i..i + 1] == ":" && t[i] == ':';
  }

  lemma SplitAtColon(w: string, rest: string)
    requires AllDigits(w) && AllDigits(rest)
    ensures Split(w + ":" + rest, ":") == [w, rest]
  {
    var s := w + ":" + rest;
    assert OccursAt(s, ":", |w|);
    assert forall j: nat :: j < |w| && OccursAt(s, ":", j) ==> s[j..j + 1] == ":" && s[j] == w[j];
    var i := Find(s, ":").value;
    assert i == |w|;
    assert s[..i] == w;
    assert s[i + 1..] == rest;
    NoColonIn(rest);
  }

  /** The duration text reads back as the number of seconds it was made from. */
  lemma ClockRoundTrip(s: nat)
    ensures ParseClock(Clock(s)) == Some(s)
  {
    ClockUniform(s);
    SplitAtColon(NatStr(s / 60), Pad2(s % 60));
    NatStrValue(s / 60);
    Pad2Value(s % 60);
  }
}
