/**
 * The handful of .NET string searches the core relies on (String.IndexOf on a
 * character, ordinal String.IndexOf / Contains on a string), stated once with
 * their contracts so that the parsers can be written the way the source is.
 */
module Text {

  /** `s[i..i + |pat|]` is an occurrence of `pat`. */
  predicate OccursAt(s: string, pat: string, i: int) {
    0 <= i && i + |pat| <= |s| && s[i..i + |pat|] == pat
  }

  /** Ordinal `s.Contains(pat)`. */
  predicate Contains(s: string, pat: string) {
    exists i :: 0 <= i <= |s| && OccursAt(s, pat, i)
  }

  /** `pat` occurs in `s` at `i` and nowhere to the left of `i`. */
  predicate FirstAt(s: string, pat: string, i: int) {
    OccursAt(s, pat, i) && forall j :: 0 <= j < i ==> !OccursAt(s, pat, j)
  }

  /** An occurrence of `pat` in `s` ends at index `e`. */
  predicate EndsAt(s: string, pat: string, e: int) {
    |pat| <= e <= |s| && s[e - |pat|..e] == pat
  }

  /**
   * `s.IndexOf(c, start)`: the index of the first `c` at or after `start`,
   * or -1 when there is none.
   */
  function IndexOfChar(s: string, c: char, start: nat): (r: int)
    requires start <= |s|
    ensures r == -1 || start <= r < |s|
    ensures 0 <= r ==> s[r] == c
    ensures forall i :: start <= i < |s| && (r < 0 || i < r) ==> s[i] != c
    decreases |s| - start
  {
    if start == |s| then -1
    else if s[start] == c then start
    else IndexOfChar(s, c, start + 1)
  }

  /**
   * Ordinal `s.IndexOf(pat)` searching from `start`: the first occurrence at or
   * after `start`, or -1 when there is none.
   */
  function IndexOfText(s: string, pat: string, start: nat): (r: int)
    requires start <= |s|
    ensures r == -1 || (start <= r && OccursAt(s, pat, r))
    ensures forall i :: start <= i && (r < 0 || i < r) ==> !OccursAt(s, pat, i)
    decreases |s| - start
  {
    if OccursAt(s, pat, start) then start
    else if start == |s| then -1
    else IndexOfText(s, pat, start + 1)
  }

  /**
   * The largest index `e <= end` at which an occurrence of `pat` ends, or 0 when
   * none does: the end of what a greedy `.*pat` matches from the start of `s`.
   */
  function LastEndOf(s: string, pat: string, end: nat): (r: nat)
    requires end <= |s|
    requires pat != []
    ensures r <= end
    ensures r == 0 || EndsAt(s, pat, r)
    ensures forall e :: r < e <= end ==> !EndsAt(s, pat, e)
    decreases end
  {
    if end == 0 then 0
    else if EndsAt(s, pat, end) then end
    else LastEndOf(s, pat, end - 1)
  }

  /** The search from the start finds the first occurrence. */
  lemma IndexOfTextFirst(s: string, pat: string, k: int)
    requires FirstAt(s, pat, k)
    ensures IndexOfText(s, pat, 0) == k
  {
  }
}
