/**
 * The Python string operations the title extraction uses: the first two
 * elements of `str.split` and `str.replace` of one character. `Find` is the
 * model's own search for the first separator, on which `split` is built.
 */
module Text {
  import opened Wrappers

  /** `pat` occurs in `s` starting at index `i`. */
  predicate OccursAt(s: string, pat: string, i: int) {
    0 <= i && i + |pat| <= |s| && s[i..i + |pat|] == pat
  }

  /** `pat` occurs somewhere in `s` (Python's `pat in s`). */
  predicate Contains(s: string, pat: string) {
    exists i | 0 <= i <= |s| :: OccursAt(s, pat, i)
  }

  /** `k` is the leftmost occurrence of `pat` in `s`. */
  predicate FirstAt(s: string, pat: string, k: int) {
    OccursAt(s, pat, k) && forall j | 0 <= j < k :: !OccursAt(s, pat, j)
  }

  /** There is only one leftmost occurrence. */
  lemma FirstAtUnique(s: string, pat: string, a: int, b: int)
    requires FirstAt(s, pat, a) && FirstAt(s, pat, b)
    ensures a == b
  {
  }

  /** The leftmost occurrence of `pat` in `s` at or after `from`. */
  function FindFrom(s: string, pat: string, from: nat): (r: Option<nat>)
    requires from <= |s|
    decreases |s| - from
    ensures r.Some? ==> from <= r.value && r.value + |pat| <= |s|
  {
    if from + |pat| > |s| then None
    else if s[from..from + |pat|] == pat then Some(from)
    else FindFrom(s, pat, from + 1)
  }

  /** `FindFrom` answers an occurrence at or after `from`, with none between `from` and it. */
  lemma {:induction false} FindFromSpec(s: string, pat: string, from: nat)
    requires from <= |s|
    decreases |s| - from
    ensures var r := FindFrom(s, pat, from);
      && (r.Some? ==> from <= r.value && OccursAt(s, pat, r.value))
      && forall j | from <= j && (r.None? || j < r.value) :: !OccursAt(s, pat, j)
  {
    if from + |pat| <= |s| && s[from..from + |pat|] != pat {
      FindFromSpec(s, pat, from + 1);
    }
  }

  /** The leftmost occurrence of `pat` in `s`, which is where `s.split(pat)` makes its first cut. */
  function Find(s: string, pat: string): (r: Option<nat>)
    ensures r.Some? ==> r.value + |pat| <= |s|
  {
    FindFrom(s, pat, 0)
  }

  /** `Find` answers the leftmost occurrence, and nothing exactly when there is none. */
  lemma FindSpec(s: string, pat: string)
    ensures Find(s, pat).Some? ==> FirstAt(s, pat, Find(s, pat).value)
    ensures Find(s, pat).None? <==> !Contains(s, pat)
  {
    FindFromSpec(s, pat, 0);
  }

  /** An occurrence inside a prefix of `s` is an occurrence in `s`. */
  lemma OccursInPrefix(s: string, pat: string, k: int, j: int)
    requires 0 <= k <= |s|
    requires OccursAt(s[..k], pat, j)
    ensures OccursAt(s, pat, j)
  {
    assert s[..k][j..j + |pat|] == s[j..j + |pat|];
  }

  /** An occurrence inside a suffix of `s` is an occurrence in `s`, shifted. */
  lemma OccursInSuffix(s: string, pat: string, m: int, j: int)
    requires 0 <= m <= |s|
    requires OccursAt(s[m..], pat, j)
    ensures OccursAt(s, pat, m + j)
  {
    assert s[m..][j..j + |pat|] == s[m + j..m + j + |pat|];
  }

  /** A prefix of a text free of `pat` is free of `pat`. */
  lemma PrefixFree(s: string, pat: string, k: int)
    requires 0 <= k <= |s|
    requires !Contains(s, pat)
    ensures !Contains(s[..k], pat)
  {
    forall j | 0 <= j <= k && OccursAt(s[..k], pat, j)
      ensures false
    {
      OccursInPrefix(s, pat, k, j);
    }
  }

  /**
   * Element 0 of Python's `s.split(sep)`: everything before the first
   * occurrence of `sep`, or all of `s` when there is none.
   */
  function BeforeFirst(s: string, sep: string): (r: string)
    requires sep != []
    ensures |r| <= |s|
  {
    match Find(s, sep)
    case None => s
    case Some(k) => s[..k]
  }

  /**
   * `BeforeFirst` is a prefix of `s` free of `sep`; it is all of `s` or stops
   * where the first `sep` begins, which is all of `s` when `sep` does not occur.
   */
  lemma BeforeFirstSpec(s: string, sep: string)
    requires sep != []
    ensures var r := BeforeFirst(s, sep);
      && r == s[..|r|]
      && (forall j | 0 <= j < |r| :: !OccursAt(s, sep, j))
      && (r == s || OccursAt(s, sep, |r|))
      && (!Contains(s, sep) ==> r == s)
      && !Contains(r, sep)
  {
    FindSpec(s, sep);
    if Find(s, sep).Some? {
      var k := Find(s, sep).value;
      forall j | 0 <= j <= k && OccursAt(s[..k], sep, j)
        ensures false
      {
        OccursInPrefix(s, sep, k, j);
      }
    }
  }

  /**
   * What follows the first occurrence of `sep` in `s`, if there is one.
   * Python's `s.split(sep)[1]` is `BeforeFirst` of this; `[1]` raises
   * IndexError exactly when this is `None`.
   */
  function AfterFirst(s: string, sep: string): Option<string>
    requires sep != []
  {
    match Find(s, sep)
    case None => None
    case Some(k) => Some(s[k + |sep|..])
  }

  /** `AfterFirst` is nothing exactly when `sep` does not occur, else all that follows its first occurrence. */
  lemma AfterFirstSpec(s: string, sep: string)
    requires sep != []
    ensures AfterFirst(s, sep).None? <==> !Contains(s, sep)
    ensures AfterFirst(s, sep).Some? ==> var r := AfterFirst(s, sep).value;
      && |r| + |sep| <= |s|
      && FirstAt(s, sep, |s| - |r| - |sep|)
      && r == s[|s| - |r|..]
  {
    FindSpec(s, sep);
  }

  /**
   * Cutting at the first `a` and then at the first `b` leaves a prefix of `s`
   * that stops at the end of `s` or where an `a` or a `b` begins.
   */
  lemma CutTwice(s: string, a: string, b: string)
    requires a != [] && b != []
    ensures var t := BeforeFirst(BeforeFirst(s, a), b);
      && t == s[..|t|]
      && (|t| == |s| || OccursAt(s, a, |t|) || OccursAt(s, b, |t|))
  {
    var u := BeforeFirst(s, a);
    var t := BeforeFirst(u, b);
    BeforeFirstSpec(s, a);
    BeforeFirstSpec(u, b);
    if t != u {
      OccursInPrefix(s, b, |u|, |t|);
    }
  }

  /**
   * After the first `a`, found at `k`, the cut at the next `a` or `b` is the
   * piece of `s` from `k + |a|` to the end of `s` or to where an `a` or a `b` begins.
   */
  lemma CutAfterFirst(s: string, a: string, b: string, k: nat)
    requires a != [] && b != []
    requires FirstAt(s, a, k)
    ensures AfterFirst(s, a) == Some(s[k + |a|..])
    ensures var t := BeforeFirst(BeforeFirst(s[k + |a|..], a), b); var e := k + |a| + |t|;
      && e <= |s|
      && t == s[k + |a|..e]
      && (e == |s| || OccursAt(s, a, e) || OccursAt(s, b, e))
  {
    var m := k + |a|;
    AfterFirstAt(s, a, k);
    var rest := s[m..];
    CutTwice(rest, a, b);
    var t := BeforeFirst(BeforeFirst(rest, a), b);
    assert s[m..m + |t|] == rest[..|t|];
    if |t| < |rest| {
      if OccursAt(rest, a, |t|) {
        OccursInSuffix(s, a, m, |t|);
      } else {
        OccursInSuffix(s, b, m, |t|);
      }
    }
  }

  /** Cutting at the first `a` and then at the first `b` leaves neither. */
  lemma CutTwiceFree(s: string, a: string, b: string)
    requires a != [] && b != []
    ensures var t := BeforeFirst(BeforeFirst(s, a), b);
      !Contains(t, a) && !Contains(t, b)
  {
    var u := BeforeFirst(s, a);
    var t := BeforeFirst(u, b);
    BeforeFirstSpec(s, a);
    BeforeFirstSpec(u, b);
    PrefixFree(u, a, |t|);
  }

  /** What follows the first occurrence at `k`. */
  lemma AfterFirstAt(s: string, sep: string, k: int)
    requires sep != []
    requires FirstAt(s, sep, k)
    ensures AfterFirst(s, sep) == Some(s[k + |sep|..])
  {
    AfterFirstSpec(s, sep);
    assert Contains(s, sep);
    FirstAtUnique(s, sep, |s| - |AfterFirst(s, sep).value| - |sep|, k);
  }

  /** Python's `s.replace(target, replacement)` for single characters. */
  function ReplaceChar(s: string, target: char, replacement: char): string {
    if s == [] then []
    else [if s[0] == target then replacement else s[0]] + ReplaceChar(s[1..], target, replacement)
  }

  /** `ReplaceChar` keeps the length and swaps exactly the characters equal to `target`. */
  lemma {:induction false} ReplaceCharSpec(s: string, target: char, replacement: char)
    ensures |ReplaceChar(s, target, replacement)| == |s|
    ensures forall i | 0 <= i < |s| ::
      ReplaceChar(s, target, replacement)[i] == (if s[i] == target then replacement else s[i])
  {
    if s != [] {
      ReplaceCharSpec(s[1..], target, replacement);
    }
  }
}
