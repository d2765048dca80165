/** Substring occurrence, shared by the pattern search and by `str.replace`. */
module Strings {

  /** `t` occurs in `s` starting at index `i`. */
  predicate OccursAt(s: string, t: string, i: nat) {
    i + |t| <= |s| && s[i..i + |t|] == t
  }

  /** A slice within `s` is unchanged by appending to `s`. */
  lemma SliceOfAppend(s: string, t: string, i: nat, j: nat)
    requires i <= j <= |s|
    ensures (s + t)[i..j] == s[i..j]
  {
  }

  /** A slice split at `b` and before its last character. */
  lemma SliceSplit(s: string, a: nat, b: nat, c: nat)
    requires a <= b < c <= |s|
    ensures s[a..c] == s[a..b] + s[b..c - 1] + [s[c - 1]]
  {
  }

  /** `t` occurs nowhere in `s`. */
  predicate Absent(t: string, s: string) {
    forall i: nat | i <= |s| :: !OccursAt(s, t, i)
  }
}
