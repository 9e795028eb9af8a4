/**
 * Case-sensitive substring search as `String.contains` performs it: it asks
 * `indexOf(needle, 0)` for the first occurrence and tests it against -1.
 */
module Strings {

  /** `needle` occurs in `s` starting at position `i`. */
  predicate OccursAt(s: string, needle: string, i: nat)
  {
    i + |needle| <= |s| && s[i..i + |needle|] == needle
  }

  /** Reference definition: `needle` is a contiguous piece of `s`. */
  ghost predicate Contains(s: string, needle: string)
  {
    exists i: nat :: OccursAt(s, needle, i)
  }

  /**
   * `s.indexOf(needle, from)` for a start position inside `s`: the first
   * position at or after `from` where `needle` occurs, or -1 if there is none.
   */
  function IndexOf(s: string, needle: string, from: nat): (r: int)
    requires from <= |s|
    ensures r == -1 || (from <= r && OccursAt(s, needle, r))
    ensures r == -1 ==> forall i: nat | from <= i :: !OccursAt(s, needle, i)
    ensures r >= 0 ==> forall i: nat | from <= i < r :: !OccursAt(s, needle, i)
    decreases |s| - from
  {
    if from + |needle| > |s| then -1
    else if s[from..from + |needle|] == needle then from
    else IndexOf(s, needle, from + 1)
  }

  /** `s.contains(needle)`: true exactly when `needle` is a contiguous piece of `s`. */
  function StringContains(s: string, needle: string): (b: bool)
    ensures b <==> Contains(s, needle)
  {
    IndexOf(s, needle, 0) >= 0
  }
}
