/**
 * The two string operations the path expander uses: `String.prototype.includes`
 * and `String.prototype.replace` with a string pattern, which replaces only
 * the first occurrence. The replacement text is taken literally.
 */
module Text {
  import opened Wrappers

  /** `pat` occurs in `s` starting at index `i`. */
  predicate OccursAt(s: string, pat: string, i: nat)
  {
    i + |pat| <= |s| && s[i..i + |pat|] == pat
  }

  /** `s.includes(pat)`: the empty pattern is in every string, and no pattern longer than `s` is in it. */
  predicate Contains(s: string, pat: string)
    ensures pat == [] ==> Contains(s, pat)
    ensures Contains(s, pat) ==> |pat| <= |s|
  {
    assert pat == [] ==> OccursAt(s, pat, 0);
    exists i: nat | i <= |s| :: OccursAt(s, pat, i)
  }

  /** `i` is the index of the leftmost occurrence of `pat` in `s`. */
  predicate IsFirstOccurrence(s: string, pat: string, i: nat)
  {
    OccursAt(s, pat, i) && forall j: nat :: j < i ==> !OccursAt(s, pat, j)
  }

  /** Leftmost occurrence of `pat` in `s` at or after index `from`. */
  function IndexFrom(s: string, pat: string, from: nat): (r: Option<nat>)
    ensures r.Some? ==> from <= r.value && OccursAt(s, pat, r.value)
    ensures r.Some? ==> forall j: nat :: from <= j < r.value ==> !OccursAt(s, pat, j)
    ensures r.None? ==> forall j: nat :: from <= j ==> !OccursAt(s, pat, j)
    decreases |s| - from
  {
    if |s| < from + |pat| then None
    else if OccursAt(s, pat, from) then Some(from)
    else IndexFrom(s, pat, from + 1)
  }

  /** Leftmost occurrence of `pat` in `s`, if there is one. */
  function IndexOf(s: string, pat: string): (r: Option<nat>)
    ensures r.None? <==> !Contains(s, pat)
    ensures r.Some? ==> IsFirstOccurrence(s, pat, r.value)
  {
    IndexFrom(s, pat, 0)
  }

  /**
   * `s.replace(pat, rep)`: the first occurrence of `pat` becomes `rep`,
   * everything else is kept; without an occurrence `s` is returned as it is.
   */
  function ReplaceFirst(s: string, pat: string, rep: string): (r: string)
    ensures !Contains(s, pat) ==> r == s
    ensures forall i: nat :: IsFirstOccurrence(s, pat, i) ==> r == s[..i] + rep + s[i + |pat|..]
  {
    match IndexOf(s, pat)
    case None => s
    case Some(i) => s[..i] + rep + s[i + |pat|..]
  }

  /** A slice that lies inside the second part of a concatenation. */
  lemma SliceOfSecond(head: string, tail: string, d: nat, n: nat)
    requires d + n <= |tail|
    ensures (head + tail)[|head| + d..|head| + d + n] == tail[d..d + n]
  {
  }

  /** Each character of an occurrence is the pattern's character at the same offset. */
  lemma CharOfOccurrence(s: string, pat: string, i: nat, k: nat)
    requires OccursAt(s, pat, i) && k < |pat|
    ensures s[i + k] == pat[k]
  {
    assert s[i..i + |pat|][k] == s[i + k];
  }

  /** A slice of a suffix is a slice of the whole. */
  lemma SliceOfSuffix(s: string, from: nat, d: nat, n: nat)
    requires from + d + n <= |s|
    ensures s[from..][d..d + n] == s[from + d..from + d + n]
  {
  }

  /** An occurrence after the replaced span survives the splice, shifted by the change in length. */
  lemma OccurrenceSurvivesSplice(s: string, pat: string, rep: string, i: nat, j: nat)
    requires i + |pat| <= j && OccursAt(s, pat, j)
    ensures OccursAt(s[..i] + rep + s[i + |pat|..], pat, j - |pat| + |rep|)
  {
    var head, tail := s[..i] + rep, s[i + |pat|..];
    var d := j - i - |pat|;
    SliceOfSuffix(s, i + |pat|, d, |pat|);
    SliceOfSecond(head, tail, d, |pat|);
  }

  /**
   * Only the first occurrence is replaced: every later occurrence that does
   * not overlap the first one is still there, shifted by the change in length.
   */
  lemma ReplaceFirstKeepsLaterOccurrences(s: string, pat: string, rep: string, i: nat, j: nat)
    requires IsFirstOccurrence(s, pat, i)
    requires i + |pat| <= j && OccursAt(s, pat, j)
    ensures OccursAt(ReplaceFirst(s, pat, rep), pat, j - |pat| + |rep|)
  {
    assert ReplaceFirst(s, pat, rep) == s[..i] + rep + s[i + |pat|..];
    OccurrenceSurvivesSplice(s, pat, rep, i, j);
  }
}
