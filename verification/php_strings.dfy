/**
 The few PHP string built-ins the application relies on: `ltrim`, `rtrim` and
 `trim` with an explicit character list, `strpos` with an offset, `stripos`,
 and a one-character `str_replace`.

 PHP strings are byte strings; here they are `string` (a `seq<char>`), and
 case-insensitive matching folds only the ASCII letters `A`-`Z`, which is what
 `stripos` does from PHP 8.2 on (and in the default "C" locale before that).
 Each built-in is a recursive function or a composition of them, and its
 contract relates it to a declarative description of its result.
 */
module PhpStrings {
  import opened Wrappers

  /** Every character of s is in cs. */
  ghost predicate AllIn(s: string, cs: set<char>) {
    forall k :: 0 <= k < |s| ==> s[k] in cs
  }

  /** r is s with its longest prefix made only of characters of cs removed. */
  ghost predicate IsLTrimOf(r: string, s: string, cs: set<char>) {
    && |r| <= |s|
    && r == s[|s| - |r|..]
    && AllIn(s[..|s| - |r|], cs)
    && (|r| > 0 ==> r[0] !in cs)
  }

  /** r is s with its longest suffix made only of characters of cs removed. */
  ghost predicate IsRTrimOf(r: string, s: string, cs: set<char>) {
    && |r| <= |s|
    && r == s[..|r|]
    && AllIn(s[|r|..], cs)
    && (|r| > 0 ==> r[|r| - 1] !in cs)
  }

  /** r is the slice of s left once characters of cs are stripped from both
      ends: what lies before and after the slice is made of characters of cs,
      and the slice neither starts nor ends with one. */
  ghost predicate IsTrimOf(r: string, s: string, cs: set<char>) {
    exists i :: 0 <= i <= |s| - |r| && IsTrimSlice(r, s, cs, i)
  }

  ghost predicate IsTrimSlice(r: string, s: string, cs: set<char>, i: int)
    requires 0 <= i <= |s| - |r|
  {
    && r == s[i..i + |r|]
    && AllIn(s[..i], cs)
    && AllIn(s[i + |r|..], cs)
    && (|r| > 0 ==> r[0] !in cs && r[|r| - 1] !in cs)
  }

  /** PHP `ltrim($s, $cs)`. */
  function LTrim(s: string, cs: set<char>): (r: string)
    ensures IsLTrimOf(r, s, cs)
  {
    if |s| > 0 && s[0] in cs then
      var r := LTrim(s[1..], cs);
      assert s[..|s| - |r|] == [s[0]] + s[1..][..|s| - 1 - |r|];
      r
    else
      s
  }

  /** PHP `rtrim($s, $cs)`. */
  function RTrim(s: string, cs: set<char>): (r: string)
    ensures IsRTrimOf(r, s, cs)
  {
    if |s| > 0 && s[|s| - 1] in cs then
      var r := RTrim(s[..|s| - 1], cs);
      assert s[|r|..] == s[..|s| - 1][|r|..] + [s[|s| - 1]];
      r
    else
      s
  }

  /** PHP `trim($s, $cs)`: strips characters of cs from both ends. */
  function Trim(s: string, cs: set<char>): (r: string)
    ensures IsTrimOf(r, s, cs)
  {
    var m := LTrim(s, cs);
    var r := RTrim(m, cs);
    TrimOfBothEnds(s, m, r, cs);
    r
  }

  /** Right-trimming the result of a left trim trims both ends. */
  lemma TrimOfBothEnds(s: string, m: string, r: string, cs: set<char>)
    requires IsLTrimOf(m, s, cs) && IsRTrimOf(r, m, cs)
    ensures IsTrimOf(r, s, cs)
  {
    var i := |s| - |m|;
    assert IsTrimSlice(r, s, cs, i) by {
      assert s[i..i + |r|] == m[..|r|];
      if |r| > 0 {
        assert m[|r|..] == s[i + |r|..];
      } else {
        assert s[..i] + m == s;
        assert AllIn(s, cs);
      }
    }
  }

  /** Everything outside a trim slice is a character of cs. */
  lemma OutsideSlice(s: string, cs: set<char>, i: int, n: int)
    requires 0 <= n && 0 <= i <= |s| - n
    requires AllIn(s[..i], cs) && AllIn(s[i + n..], cs)
    ensures forall k :: 0 <= k < i ==> s[k] in cs
    ensures forall k :: i + n <= k < |s| ==> s[k] in cs
  {
    assert forall k :: 0 <= k < i ==> s[..i][k] == s[k];
    assert forall k :: i + n <= k < |s| ==> s[i + n..][k - i - n] == s[k];
  }

  /** An l-trim result is unique: at most one string is s with its leading
      characters of cs removed. */
  lemma LTrimUnique(a: string, b: string, s: string, cs: set<char>)
    requires IsLTrimOf(a, s, cs) && IsLTrimOf(b, s, cs)
    ensures a == b
  {
  }

  /** An r-trim result is unique. */
  lemma RTrimUnique(a: string, b: string, s: string, cs: set<char>)
    requires IsRTrimOf(a, s, cs) && IsRTrimOf(b, s, cs)
    ensures a == b
  {
  }

  /** A trim result is unique. */
  lemma TrimUnique(a: string, b: string, s: string, cs: set<char>)
    requires IsTrimOf(a, s, cs) && IsTrimOf(b, s, cs)
    ensures a == b
  {
    var i :| 0 <= i <= |s| - |a| && IsTrimSlice(a, s, cs, i);
    var j :| 0 <= j <= |s| - |b| && IsTrimSlice(b, s, cs, j);
    OutsideSlice(s, cs, i, |a|);
    OutsideSlice(s, cs, j, |b|);
    if |a| > 0 {
      assert a[0] == s[i] && a[|a| - 1] == s[i + |a| - 1];
    }
    if |b| > 0 {
      assert b[0] == s[j] && b[|b| - 1] == s[j + |b| - 1];
    }
  }

  /** Right-trimming twice with the same list is the same as doing it once. */
  lemma RTrimIdempotent(s: string, cs: set<char>)
    ensures RTrim(RTrim(s, cs), cs) == RTrim(s, cs)
  {
    var r := RTrim(s, cs);
    assert IsRTrimOf(r, r, cs) by {
      assert r[..|r|] == r;
      assert r[|r|..] == [];
    }
    RTrimUnique(RTrim(r, cs), r, r, cs);
  }

  /** A string that does not end with a character of cs is left alone. */
  lemma RTrimKeepsClean(s: string, cs: set<char>)
    requires |s| == 0 || s[|s| - 1] !in cs
    ensures RTrim(s, cs) == s
  {
    assert IsRTrimOf(s, s, cs) by {
      assert s[..|s|] == s;
      assert s[|s|..] == [];
    }
    RTrimUnique(RTrim(s, cs), s, s, cs);
  }

  /** n occurs in h starting at position i. */
  ghost predicate OccursAt(h: string, n: string, i: int) {
    0 <= i && i + |n| <= |h| && h[i..i + |n|] == n
  }

  /** PHP `strpos($h, $n, $offset)` for an offset inside the haystack: the
      first position at or after offset where n occurs in h, or None
      (PHP's `false`). */
  function StrPos(h: string, n: string, offset: nat): (r: Option<nat>)
    requires offset <= |h|
    ensures r.Some? ==> offset <= r.value && OccursAt(h, n, r.value)
    ensures r.Some? ==> forall i :: offset <= i < r.value ==> !OccursAt(h, n, i)
    ensures r.None? <==> forall i :: offset <= i ==> !OccursAt(h, n, i)
    decreases |h| - offset
  {
    if offset + |n| > |h| then None
    else if h[offset..offset + |n|] == n then assert OccursAt(h, n, offset); Some(offset)
    else StrPos(h, n, offset + 1)
  }

  /** ASCII lower-casing of one character. */
  function ToLower(c: char): char {
    if 'A' <= c <= 'Z' then (c as int + 32) as char else c
  }

  /** ASCII lower-casing of a string, character by character. */
  function Lower(s: string): string {
    seq(|s|, k requires 0 <= k < |s| => ToLower(s[k]))
  }

  /** n occurs in h at position i when both are ASCII-lower-cased. */
  ghost predicate FoldedAt(h: string, n: string, i: int) {
    0 <= i && i + |n| <= |h| && Lower(h[i..i + |n|]) == Lower(n)
  }

  /** n occurs somewhere in h when both are ASCII-lower-cased. */
  ghost predicate ContainsFolded(h: string, n: string) {
    exists i :: FoldedAt(h, n, i)
  }

  /** PHP `stripos($h, $n)`: the first position of n in h ignoring ASCII case. */
  function StrIPos(h: string, n: string): (r: Option<nat>)
    ensures r.None? <==> !ContainsFolded(h, n)
    ensures r.Some? ==> FoldedAt(h, n, r.value)
    ensures r.Some? ==> forall i :: 0 <= i < r.value ==> !FoldedAt(h, n, i)
  {
    var r := StrPos(Lower(h), Lower(n), 0);
    assert forall i :: FoldedAt(h, n, i) <==> OccursAt(Lower(h), Lower(n), i) by {
      forall i
        ensures FoldedAt(h, n, i) <==> OccursAt(Lower(h), Lower(n), i)
      {
        if 0 <= i && i + |n| <= |h| {
          assert Lower(h)[i..i + |n|] == Lower(h[i..i + |n|]);
        }
      }
    }
    r
  }

  /** PHP `str_replace($from, $to, $s)` for one-character search and replace. */
  function StrReplace(s: string, from: char, to: char): (r: string)
    ensures |r| == |s|
    ensures forall k :: 0 <= k < |s| ==> r[k] == (if s[k] == from then to else s[k])
  {
    if |s| == 0 then []
    else [if s[0] == from then to else s[0]] + StrReplace(s[1..], from, to)
  }
}
