/** `pathlib.PurePath.stem` and `.suffix` on a file name (the part after the last '/'). */
module Paths {

  /** `name.rfind('.')`, or -1 when there is no dot. */
  function LastDot(name: string): (i: int)
    ensures -1 <= i < |name|
    ensures i >= 0 ==> name[i] == '.'
    ensures forall k :: i < k < |name| ==> name[k] != '.'
  {
    if name == [] then -1
    else if name[|name| - 1] == '.' then |name| - 1
    else LastDot(name[..|name| - 1])
  }

  /** pathlib takes the text from the last dot as the suffix, unless that dot is the first or the last character. */
  predicate HasSuffix(name: string) {
    0 < LastDot(name) < |name| - 1
  }

  function Suffix(name: string): string {
    if HasSuffix(name) then name[LastDot(name)..] else ""
  }

  function Stem(name: string): string {
    if HasSuffix(name) then name[..LastDot(name)] else name
  }

  /** The stem and the suffix split the name: `stem + suffix == name`, the suffix is empty or one dot and
      at least one further character without a dot, and the stem is never empty when the name is not. */
  lemma StemSuffix(name: string)
    ensures Stem(name) + Suffix(name) == name
    ensures Suffix(name) == "" || (|Suffix(name)| >= 2 && Suffix(name)[0] == '.' &&
                                   forall k :: 0 < k < |Suffix(name)| ==> Suffix(name)[k] != '.')
    ensures name != "" ==> Stem(name) != ""
  {
  }
}
