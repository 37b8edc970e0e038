/**
 * The handful of Python `str` operations the generator is built from:
 * `isspace`/`strip`, `find` and `in`, slicing with Python's index rules,
 * `lower` and `sep.join`, with `split` as the inverse of `join`.
 */
module PyStr {

  /**
   * Python's `str.isspace()` for one character: the ASCII controls
   * tab, line feed, vertical tab, form feed and carriage return, the
   * separators 0x1C-0x1F, the space, and the Unicode space and
   * line/paragraph separator characters. `str.strip()` with no
   * argument removes exactly these.
   */
  predicate IsSpace(c: char) {
    || c == ' '
    || ('\t' <= c <= '\r')
    || ('\U{1C}' <= c <= '\U{1F}')
    || c == '\U{85}' || c == '\U{A0}' || c == '\U{1680}'
    || ('\U{2000}' <= c <= '\U{200A}')
    || c == '\U{2028}' || c == '\U{2029}' || c == '\U{202F}'
    || c == '\U{205F}' || c == '\U{3000}'
  }

  predicate AllSpace(s: string) {
    forall k :: 0 <= k < |s| ==> IsSpace(s[k])
  }

  /** `r` is a contiguous piece of `s`. */
  ghost predicate IsSlice(r: string, s: string) {
    exists i, j :: 0 <= i <= j <= |s| && r == s[i..j]
  }

  /** `pat` occurs in `s` starting at index `k`. */
  predicate OccursAt(s: string, pat: string, k: nat) {
    k + |pat| <= |s| && s[k..k + |pat|] == pat
  }

  /** Python's `pat in s`. */
  predicate Contains(s: string, pat: string) {
    exists k :: 0 <= k <= |s| && OccursAt(s, pat, k)
  }

  /**
   * Python's `s.find(pat, start)`: the lowest index at or after `start`
   * where `pat` occurs, or -1 when there is none.
   */
  function Find(s: string, pat: string, start: nat): (r: int)
    ensures r == -1 || (start <= r && OccursAt(s, pat, r))
    ensures r == -1 ==> forall k :: start <= k ==> !OccursAt(s, pat, k)
    ensures r != -1 ==> forall k :: start <= k < r ==> !OccursAt(s, pat, k)
    ensures start == 0 ==> (r != -1 <==> Contains(s, pat))
    decreases |s| - start
  {
    if start + |pat| > |s| then -1
    else if OccursAt(s, pat, start) then start
    else Find(s, pat, start + 1)
  }

  /** Python's normalisation of one slice bound against a length `n`. */
  function SliceBound(i: int, n: nat): (k: nat)
    ensures k <= n
    ensures 0 <= i <= n ==> k == i
    ensures i < 0 && 0 <= i + n ==> k == n + i
  {
    if i < 0 then (if i + n < 0 then 0 else i + n)
    else if i > n then n
    else i
  }

  /**
   * Python's `s[lo:hi]`: negative bounds count from the end, bounds are
   * clamped to the string, and a slice whose start is not before its end
   * is empty.
   */
  function Slice(s: string, lo: int, hi: int): (r: string)
    ensures |r| <= |s|
    ensures IsSlice(r, s)
    ensures 0 <= lo <= hi <= |s| ==> r == s[lo..hi]
    ensures 0 <= lo < |s| && hi == -1 ==> r == s[lo..|s| - 1]
    ensures |s| <= lo && hi == -1 ==> r == []
  {
    var a, b := SliceBound(lo, |s|), SliceBound(hi, |s|);
    if a < b then s[a..b] else s[a..a]
  }

  /** Number of whitespace characters at the start of `s`. */
  function LeadingSpaces(s: string): (n: nat)
    ensures n <= |s|
    ensures AllSpace(s[..n])
    ensures n < |s| ==> !IsSpace(s[n])
  {
    if |s| > 0 && IsSpace(s[0]) then
      var n := 1 + LeadingSpaces(s[1..]);
      assert s[..n] == [s[0]] + s[1..][..n - 1];
      n
    else 0
  }

  /** Number of whitespace characters at the end of `s`. */
  function TrailingSpaces(s: string): (n: nat)
    ensures n <= |s|
    ensures AllSpace(s[|s| - n..])
    ensures n < |s| ==> !IsSpace(s[|s| - n - 1])
  {
    if |s| > 0 && IsSpace(s[|s| - 1]) then
      var init := s[..|s| - 1];
      var n := 1 + TrailingSpaces(init);
      assert s[|s| - n..] == init[|init| - (n - 1)..] + [s[|s| - 1]];
      n
    else 0
  }

  /**
   * Python's `s.strip()`: `s` without its leading and trailing
   * whitespace. The result is the one slice of `s` that has only
   * whitespace around it and starts and ends with a non-space.
   */
  function Strip(s: string): (r: string)
    ensures |r| <= |s|
    ensures r == [] || (!IsSpace(r[0]) && !IsSpace(r[|r| - 1]))
    ensures exists i, j :: 0 <= i <= j <= |s| && r == s[i..j] && AllSpace(s[..i]) && AllSpace(s[j..])
  {
    var i := LeadingSpaces(s);
    var rest := s[i..];
    var j := i + |rest| - TrailingSpaces(rest);
    assert rest[..|rest| - TrailingSpaces(rest)] == s[i..j];
    assert s[j..] == rest[|rest| - TrailingSpaces(rest)..];
    if i == |s| then
      assert AllSpace(s[..i]) && s[|s|..] == [];
      s[i..i]
    else
      assert !IsSpace(rest[0]);
      s[i..j]
  }

  /** Python's `c.lower()` for the ASCII letters; every other character is kept. */
  function LowerChar(c: char): char {
    if 'A' <= c <= 'Z' then (c as int - 'A' as int + 'a' as int) as char else c
  }

  /** Python's `s.lower()` (see `LowerChar`). */
  function Lower(s: string): (r: string)
    ensures |r| == |s|
  {
    seq(|s|, k requires 0 <= k < |s| => LowerChar(s[k]))
  }

  /** Python's `sep.join(parts)`. */
  function Join(parts: seq<string>, sep: string): string {
    if |parts| == 0 then ""
    else if |parts| == 1 then parts[0]
    else parts[0] + sep + Join(parts[1..], sep)
  }

  /** Python's `s.split(sep)` for a one-character separator. */
  function Split(s: string, sep: char): (parts: seq<string>)
    ensures |parts| >= 1
    ensures forall k :: 0 <= k < |parts| ==> sep !in parts[k]
  {
    if s == [] then [""]
    else
      var rest := Split(s[1..], sep);
      if s[0] == sep then [""] + rest
      else [[s[0]] + rest[0]] + rest[1..]
  }

  /** A slice of a slice of `s` is a slice of `s`. */
  lemma SliceOfSlice(r: string, t: string, s: string)
    requires IsSlice(r, t) && IsSlice(t, s)
    ensures IsSlice(r, s)
  {
    var a, b :| 0 <= a <= b <= |s| && t == s[a..b];
    var i, j :| 0 <= i <= j <= |t| && r == t[i..j];
    assert |t| == b - a;
    assert forall k :: 0 <= k < j - i ==> r[k] == t[i + k] == s[a + i + k];
    assert r == s[a + i..a + j];
  }

  /** The stripped text is a slice of the original. */
  lemma StripIsSlice(s: string)
    ensures IsSlice(Strip(s), s)
  {
    var i, j :| 0 <= i <= j <= |s| && Strip(s) == s[i..j] && AllSpace(s[..i]) && AllSpace(s[j..]);
  }

  /** A string that neither starts nor ends with whitespace is its own `strip()`. */
  lemma StripUnchanged(s: string)
    requires s == [] || (!IsSpace(s[0]) && !IsSpace(s[|s| - 1]))
    ensures Strip(s) == s
  {
    var i, j :| 0 <= i <= j <= |s| && Strip(s) == s[i..j] && AllSpace(s[..i]) && AllSpace(s[j..]);
    assert AllSpace(s[..i]) && AllSpace(s[j..]);
  }

  /** `strip()` is idempotent. */
  lemma StripIdempotent(s: string)
    ensures Strip(Strip(s)) == Strip(s)
  {
    StripUnchanged(Strip(s));
  }

  /** A piece of a string that does not contain `pat` does not contain it either. */
  lemma NotContainsSlice(r: string, s: string, pat: string)
    requires IsSlice(r, s) && !Contains(s, pat)
    ensures !Contains(r, pat)
  {
    var a, b :| 0 <= a <= b <= |s| && r == s[a..b];
    forall k | 0 <= k <= |r|
      ensures !OccursAt(r, pat, k)
    {
      if k + |pat| <= |r| {
        assert forall m :: k <= m < k + |pat| ==> r[m] == s[a + m];
        assert s[a + k..a + k + |pat|] == r[k..k + |pat|];
      }
      assert !OccursAt(s, pat, a + k);
    }
  }

  /** Putting `x` in front of the first part puts it in front of the joined string. */
  lemma JoinCons(x: string, p: string, tail: seq<string>, sep: string)
    ensures Join([x + p] + tail, sep) == x + Join([p] + tail, sep)
  {
    if |tail| > 0 {
      assert ([x + p] + tail)[1..] == tail;
      assert ([p] + tail)[1..] == tail;
    }
  }

  /** Splitting a string without the separator gives the string back as the only part. */
  lemma {:induction false} SplitWithoutSep(a: string, sep: char)
    requires sep !in a
    ensures Split(a, sep) == [a]
  {
    if a != [] {
      SplitWithoutSep(a[1..], sep);
      assert [a[0]] + a[1..] == a;
    }
  }

  /** Splitting at the first separator peels off the text before it. */
  lemma {:induction false} SplitAtSep(a: string, b: string, sep: char)
    requires sep !in a
    ensures Split(a + [sep] + b, sep) == [a] + Split(b, sep)
  {
    var s := a + [sep] + b;
    if a == [] {
      assert s[1..] == b;
    } else {
      assert s[1..] == a[1..] + [sep] + b;
      SplitAtSep(a[1..], b, sep);
      assert [a[0]] + a[1..] == a;
    }
  }

  /**
   * `join` then `split` gives the parts back, provided there is at least
   * one part and no part holds the separator.
   */
  lemma {:induction false} SplitJoin(parts: seq<string>, sep: char)
    requires |parts| >= 1
    requires forall k :: 0 <= k < |parts| ==> sep !in parts[k]
    ensures Split(Join(parts, [sep]), sep) == parts
  {
    if |parts| == 1 {
      SplitWithoutSep(parts[0], sep);
    } else {
      SplitJoin(parts[1..], sep);
      SplitAtSep(parts[0], Join(parts[1..], [sep]), sep);
      assert [parts[0]] + parts[1..] == parts;
    }
  }

  /** `split` then `join` gives the string back. */
  lemma {:induction false} JoinSplit(s: string, sep: char)
    ensures Join(Split(s, sep), [sep]) == s
  {
    if s != [] {
      var rest := Split(s[1..], sep);
      JoinSplit(s[1..], sep);
      if s[0] == sep {
        assert ([""] + rest)[1..] == rest;
        assert [s[0]] + s[1..] == s;
      } else {
        JoinCons([s[0]], rest[0], rest[1..], [sep]);
        assert [rest[0]] + rest[1..] == rest;
        assert [s[0]] + s[1..] == s;
      }
    }
  }

  /** Joining gives the empty string exactly for no parts or one empty part. */
  lemma JoinEmpty(parts: seq<string>, sep: string)
    requires |sep| > 0
    ensures Join(parts, sep) == "" <==> parts == [] || parts == [""]
  {
    if |parts| >= 2 {
      assert |Join(parts, sep)| >= |sep|;
    }
  }
}
