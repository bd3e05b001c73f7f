/**
 * `for i, name in enumerate(names, first): out.append(make(i, name))`, the loop
 * both catalog scripts use to number their entries.
 */
module Enumeration {

  /** `make` applied to each name with its number, counting from `first`. */
  function Numbered<T>(names: seq<string>, first: nat, make: (nat, string) -> T): (r: seq<T>)
    ensures |r| == |names|
    decreases |names|
  {
    if names == [] then [] else [make(first, names[0])] + Numbered(names[1..], first + 1, make)
  }

  /** The `i`-th element is made from the `i`-th name and the number `first + i`. */
  lemma {:induction false} NumberedAt<T>(names: seq<string>, first: nat, make: (nat, string) -> T, i: nat)
    requires i < |names|
    ensures Numbered(names, first, make)[i] == make(first + i, names[i])
    decreases |names|
  {
    if i > 0 {
      NumberedAt(names[1..], first + 1, make, i - 1);
      assert names[1..][i - 1] == names[i];
    }
  }

  /** The loop, appending one element per name. */
  method Enumerate<T>(names: seq<string>, first: nat, make: (nat, string) -> T) returns (out: seq<T>)
    ensures out == Numbered(names, first, make)
  {
    out := [];
    for i := 0 to |names|
      invariant |out| == i
      invariant forall k :: 0 <= k < i ==> out[k] == make(first + k, names[k])
    {
      out := out + [make(first + i, names[i])];
    }
    forall k | 0 <= k < |names| ensures out[k] == Numbered(names, first, make)[k] {
      NumberedAt(names, first, make, k);
    }
  }
}
