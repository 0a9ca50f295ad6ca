/**
  The handful of Python `str` operations the changelog rewriter relies on:
  whitespace classification, `rstrip`/`lstrip`/`strip` without arguments,
  `find`, and slicing with possibly negative bounds. Each function's contract,
  together with its companion lemma (`RStripRemovesSpace`, `LStripRemovesSpace`,
  `StripSlice`, `FindIsFirst`, `PySliceElements`), characterises its result
  independently of how it is computed.
 */
module PyStr {

  /** The code points for which Python's `str.isspace()` holds, which is the set
      `str.strip()` and `str.rstrip()` remove when called without arguments. */
  predicate IsSpace(c: char) {
    || ('\t' <= c <= '\r')
    || ('\U{1C}' <= c <= '\U{1F}')
    || c == ' '
    || c == '\U{85}'
    || c == '\U{A0}'
    || c == '\U{1680}'
    || ('\U{2000}' <= c <= '\U{200A}')
    || c == '\U{2028}'
    || c == '\U{2029}'
    || c == '\U{202F}'
    || c == '\U{205F}'
    || c == '\U{3000}'
  }

  predicate AllSpace(s: string) {
    forall k :: 0 <= k < |s| ==> IsSpace(s[k])
  }

  /** `s.rstrip()`: `s` without its longest all-whitespace suffix. */
  function RStrip(s: string): (r: string)
    ensures |r| <= |s| && r == s[..|r|]
    ensures r == [] || !IsSpace(r[|r| - 1])
  {
    if |s| > 0 && IsSpace(s[|s| - 1]) then RStrip(s[..|s| - 1]) else s
  }

  /** What `rstrip` removes is whitespace only. */
  lemma {:induction false} RStripRemovesSpace(s: string)
    ensures AllSpace(s[|RStrip(s)|..])
  {
    if |s| > 0 && IsSpace(s[|s| - 1]) {
      var t := s[..|s| - 1];
      RStripRemovesSpace(t);
      var n := |RStrip(t)|;
      assert s[n..] == t[n..] + [s[|s| - 1]];
    }
  }

  /** `s.lstrip()`: `s` without its longest all-whitespace prefix. */
  function LStrip(s: string): (r: string)
    ensures |r| <= |s| && r == s[|s| - |r|..]
    ensures r == [] || !IsSpace(r[0])
  {
    if |s| > 0 && IsSpace(s[0]) then LStrip(s[1..]) else s
  }

  /** What `lstrip` removes is whitespace only. */
  lemma {:induction false} LStripRemovesSpace(s: string)
    ensures AllSpace(s[..|s| - |LStrip(s)|])
  {
    if |s| > 0 && IsSpace(s[0]) {
      var t := s[1..];
      LStripRemovesSpace(t);
      var n := |t| - |LStrip(t)|;
      assert s[..n + 1] == [s[0]] + t[..n];
    }
  }

  /** `s.strip()`: `s` without leading or trailing whitespace. */
  function Strip(s: string): (r: string)
    ensures |r| <= |s|
    ensures r == [] || (!IsSpace(r[0]) && !IsSpace(r[|r| - 1]))
  {
    var t := RStrip(s);
    var r := LStrip(t);
    assert r != [] ==> r[|r| - 1] == t[|t| - 1];
    r
  }

  /** The result of `strip` is a contiguous piece of `s` that is surrounded
      in `s` by whitespace only. */
  lemma StripSlice(s: string)
    ensures var r := Strip(s);
            exists a :: 0 <= a <= |s| - |r| && r == s[a..a + |r|]
                        && AllSpace(s[..a]) && AllSpace(s[a + |r|..])
  {
    var t := RStrip(s);
    var r := LStrip(t);
    var a := |t| - |r|;
    RStripRemovesSpace(s);
    LStripRemovesSpace(t);
    assert a + |r| == |t|;
    assert s[a..a + |r|] == r;
    assert s[..a] == t[..a];
    assert AllSpace(s[..a]) && AllSpace(s[a + |r|..]);
  }

  lemma RStripOfStripped(s: string)
    requires s == [] || !IsSpace(s[|s| - 1])
    ensures RStrip(s) == s
  {
  }

  lemma LStripOfStripped(s: string)
    requires s == [] || !IsSpace(s[0])
    ensures LStrip(s) == s
  {
  }

  /** Stripping a string whose last character is not whitespace leaves a
      non-empty result: there is something other than whitespace in it. */
  lemma StripNonEmpty(s: string)
    requires |s| > 0 && !IsSpace(s[|s| - 1])
    ensures |Strip(s)| > 0
  {
    RStripOfStripped(s);
    LStripRemovesSpace(s);
  }

  /** `pat` occurs in `s` starting at index `k`. */
  predicate OccursAt(s: string, pat: string, k: int) {
    0 <= k && k + |pat| <= |s| && s[k..k + |pat|] == pat
  }

  /** A one-character pattern occurs exactly where that character is. */
  lemma OccursAtChar(s: string, c: char, q: int)
    requires 0 <= q < |s|
    ensures OccursAt(s, [c], q) <==> s[q] == c
  {
    assert s[q..q + 1] == [s[q]];
  }

  ghost predicate Contains(s: string, pat: string) {
    exists k :: OccursAt(s, pat, k)
  }

  /** `k` is the lowest index at which `pat` occurs in `s`. */
  ghost predicate FirstOccurrence(s: string, pat: string, k: int) {
    OccursAt(s, pat, k) && forall q :: 0 <= q < k ==> !OccursAt(s, pat, q)
  }

  /** An occurrence with no earlier copy of the pattern's first character is
      the first occurrence. */
  lemma FirstOccurrenceByChar(s: string, pat: string, k: int)
    requires |pat| > 0 && OccursAt(s, pat, k)
    requires forall q :: 0 <= q < k ==> s[q] != pat[0]
    ensures FirstOccurrence(s, pat, k)
  {
    forall q | 0 <= q < k ensures !OccursAt(s, pat, q) {
      if q + |pat| <= |s| {
        assert s[q..q + |pat|][0] == s[q];
      }
    }
  }

  /** A pattern whose first character does not occur in `s` does not occur. */
  lemma AbsentByChar(s: string, pat: string)
    requires |pat| > 0
    requires forall q :: 0 <= q < |s| ==> s[q] != pat[0]
    ensures !Contains(s, pat)
  {
    forall q | 0 <= q ensures !OccursAt(s, pat, q) {
      if q + |pat| <= |s| {
        assert s[q..q + |pat|][0] == s[q];
      }
    }
  }

  function FindFrom(s: string, pat: string, k: nat): (r: int)
    requires k <= |s|
    ensures r == -1 || (k <= r && OccursAt(s, pat, r))
    decreases |s| - k
  {
    if k + |pat| > |s| then -1
    else if s[k..k + |pat|] == pat then k
    // unreachable (an empty pattern matches at `|s|`); kept for termination
    else if k == |s| then -1
    else FindFrom(s, pat, k + 1)
  }

  /** The search from `k` passes over no occurrence. */
  lemma {:induction false} FindFromSkipsNothing(s: string, pat: string, k: nat)
    requires k <= |s|
    ensures var r := FindFrom(s, pat, k);
            forall q :: k <= q < (if r < 0 then |s| + 1 else r) ==> !OccursAt(s, pat, q)
    decreases |s| - k
  {
    if k + |pat| <= |s| && s[k..k + |pat|] != pat && k < |s| {
      FindFromSkipsNothing(s, pat, k + 1);
    }
  }

  /** `s.find(pat)`: an index at which `pat` occurs, or -1. */
  function Find(s: string, pat: string): (r: int)
    ensures -1 <= r
    ensures r >= 0 ==> OccursAt(s, pat, r)
  {
    FindFrom(s, pat, 0)
  }

  /** `find` returns the lowest index at which `pat` occurs, and -1 exactly
      when it does not occur at all. */
  lemma FindIsFirst(s: string, pat: string)
    ensures Find(s, pat) == -1 <==> !Contains(s, pat)
    ensures Find(s, pat) >= 0 ==> FirstOccurrence(s, pat, Find(s, pat))
  {
    FindFromSkipsNothing(s, pat, 0);
    assert forall q :: OccursAt(s, pat, q) ==> q <= |s|;
  }

  /** Two first occurrences are the same. */
  lemma FindAt(s: string, pat: string, k: int)
    requires FirstOccurrence(s, pat, k)
    ensures Find(s, pat) == k
  {
    FindIsFirst(s, pat);
  }

  /** Without an occurrence `find` gives -1. */
  lemma FindAbsent(s: string, pat: string)
    requires !Contains(s, pat)
    ensures Find(s, pat) == -1
  {
    FindIsFirst(s, pat);
  }

  /** How Python normalises one slice bound for a sequence of length `n`:
      a negative bound counts from the end, then the bound is clamped to
      `[0, n]`. */
  function SliceBound(i: int, n: nat): (b: nat)
    ensures b <= n
    ensures 0 <= i <= n ==> b == i
    ensures i < 0 && 0 <= i + n ==> b == i + n
    ensures i + n < 0 ==> b == 0
    ensures i > n ==> b == n
  {
    if i < 0 then (if i + n < 0 then 0 else i + n)
    else if i > n then n
    else i
  }

  /** `s[i:j]` in Python. */
  function PySlice(s: string, i: int, j: int): (r: string)
    ensures var lo, hi := SliceBound(i, |s|), SliceBound(j, |s|);
            |r| == (if lo < hi then hi - lo else 0)
  {
    var lo, hi := SliceBound(i, |s|), SliceBound(j, |s|);
    if lo < hi then s[lo..hi] else []
  }

  /** Each character of a slice is the character of `s` at the normalised
      start plus its offset. */
  lemma PySliceElements(s: string, i: int, j: int)
    ensures var r, lo := PySlice(s, i, j), SliceBound(i, |s|);
            forall k :: 0 <= k < |r| ==> r[k] == s[lo + k]
  {
  }

  /** Between non-negative, in-range bounds a Python slice is an ordinary
      sub-sequence. */
  lemma PySliceInRange(s: string, i: int, j: int)
    requires 0 <= i <= j <= |s|
    ensures PySlice(s, i, j) == s[i..j]
  {
  }

  /** A negative end bound `-m` stops `m` characters before the end; a start
      at or past that point gives the empty string. */
  lemma PySliceNegativeEnd(s: string, i: int, m: int)
    requires 0 < m <= |s| && 0 <= i
    ensures i <= |s| - m ==> PySlice(s, i, -m) == s[i..|s| - m]
    ensures i >= |s| - m ==> PySlice(s, i, -m) == []
  {
  }

  /** `c * n`, or `''.join([c for _ in range(n)])`. */
  function Repeat(c: char, n: nat): (r: string)
    ensures |r| == n
    ensures forall k :: 0 <= k < |r| ==> r[k] == c
  {
    if n == 0 then [] else Repeat(c, n - 1) + [c]
  }
}
