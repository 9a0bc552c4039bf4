/** The three Python `str` operations get_rate relies on, with CPython's
    edge cases spelled out: `find` answering -1 when nothing is found,
    slicing with negative and out-of-range bounds, and `strip()` with no
    argument. A Python `str` is a `seq<char>` of code points. */
module PyStr {

  /** `c.isspace()`: the code points CPython treats as whitespace, which
      are the ones `strip()` with no argument removes. */
  predicate IsSpace(c: char) {
    || '\t' <= c <= '\r'            // tab, line feed, vertical tab, form feed, carriage return
    || '\U{1c}' <= c <= '\U{1f}'    // file, group, record and unit separators
    || c == ' '
    || c == '\U{85}'
    || c == '\U{a0}'
    || c == '\U{1680}'
    || '\U{2000}' <= c <= '\U{200a}'
    || c == '\U{2028}'
    || c == '\U{2029}'
    || c == '\U{202f}'
    || c == '\U{205f}'
    || c == '\U{3000}'
  }

  /** `sub` occurs in `s` starting at index `i`. */
  predicate OccursAt(s: string, sub: string, i: int) {
    0 <= i && i + |sub| <= |s| && s[i..i + |sub|] == sub
  }

  /** Python's `sub in s`: `sub` occurs somewhere in `s`. It holds exactly
      when `s.find(sub)` is not -1, so once the test has passed the index
      `find` gives is a real position. */
  predicate Contains(s: string, sub: string): (b: bool)
    ensures b <==> Find(s, sub, 0) >= 0
  {
    OccursSomewhereIffFound(s, sub);
    exists i | 0 <= i <= |s| - |sub| :: OccursAt(s, sub, i)
  }

  /** A one-character needle occurs exactly where that character stands. */
  lemma OccursAtChar(s: string, c: char, i: int)
    ensures OccursAt(s, [c], i) <==> 0 <= i < |s| && s[i] == c
  {
    if 0 <= i < |s| && s[i] == c {
      assert s[i..i + 1] == [c];
    }
    if OccursAt(s, [c], i) {
      assert s[i..i + 1][0] == s[i];
    }
  }

  /** How CPython reads the `start` argument of `find`: a negative start
      counts from the end and is clamped at 0; a start beyond the end is
      kept as it is, so that nothing can be found from there. */
  function FindStart(start: int, n: nat): (k: nat)
    ensures start >= 0 ==> k == start
    ensures start < 0 && start + n >= 0 ==> k == n + start
    ensures start + n < 0 ==> k == 0
  {
    if start >= 0 then start else if start + n < 0 then 0 else start + n
  }

  /** The lowest index `r >= i` at which `sub` occurs in `s`, or -1. */
  function FindFrom(s: string, sub: string, i: nat): (r: int)
    ensures r == -1 || (i <= r && OccursAt(s, sub, r))
    ensures forall j :: i <= j && (r == -1 || j < r) ==> !OccursAt(s, sub, j)
    decreases |s| - i
  {
    if i + |sub| > |s| then -1
    else if s[i..i + |sub|] == sub then i
    else FindFrom(s, sub, i + 1)
  }

  /** Python's `s.find(sub, start)`: the lowest index at or after the
      (normalised) start where `sub` occurs, and -1 when there is none.
      The -1 is an ordinary integer to the caller, which is what makes
      get_rate's `find(...) + 1` and `text[a:-1]` cases possible. */
  function Find(s: string, sub: string, start: int): (r: int)
    ensures -1 <= r <= |s|
    ensures r >= 0 ==> FindStart(start, |s|) <= r && OccursAt(s, sub, r)
    ensures forall j :: FindStart(start, |s|) <= j && (r == -1 || j < r) ==> !OccursAt(s, sub, j)
  {
    FindFrom(s, sub, FindStart(start, |s|))
  }

  /** An occurrence anywhere in `s` is what `find` from 0 detects. */
  lemma OccursSomewhereIffFound(s: string, sub: string)
    ensures (exists i | 0 <= i <= |s| - |sub| :: OccursAt(s, sub, i)) <==> Find(s, sub, 0) >= 0
  {
    var r := Find(s, sub, 0);
    if exists i | 0 <= i <= |s| - |sub| :: OccursAt(s, sub, i) {
      var i :| 0 <= i <= |s| - |sub| && OccursAt(s, sub, i);
      assert r != -1;
    }
    if r >= 0 {
      assert OccursAt(s, sub, r);
    }
  }

  /** `s.find(c, start)` for a single character `c`, read character by
      character: where it lands holds `c`, and no `c` stands between the
      normalised start and that point (or the end, when the answer is -1). */
  lemma FindCharacter(s: string, c: char, start: int)
    ensures var r := Find(s, [c], start);
            && (r >= 0 ==> FindStart(start, |s|) <= r < |s| && s[r] == c)
            && (forall j :: FindStart(start, |s|) <= j < |s| && (r == -1 || j < r) ==> s[j] != c)
  {
    var r := Find(s, [c], start);
    if r >= 0 {
      OccursAtChar(s, c, r);
    }
    forall j | FindStart(start, |s|) <= j < |s| && (r == -1 || j < r)
      ensures s[j] != c
    {
      OccursAtChar(s, c, j);
    }
  }

  /** How CPython reads a slice bound against a string of length n:
      a negative bound counts from the end, then the bound is clamped
      to 0..n. */
  function SliceBound(b: int, n: nat): (k: nat)
    ensures k <= n
    ensures 0 <= b <= n ==> k == b
    ensures b > n ==> k == n
    ensures b < 0 && b + n >= 0 ==> k == n + b
    ensures b + n < 0 ==> k == 0
  {
    if b < 0 then (if b + n < 0 then 0 else b + n)
    else if b > n then n
    else b
  }

  /** Python's `s[a:b]`. It never fails: bounds are normalised and a
      window whose end lies before its start is empty. */
  function Slice(s: string, a: int, b: int): (r: string)
    ensures |r| <= |s|
    ensures SliceBound(b, |s|) <= SliceBound(a, |s|) ==> r == []
    ensures SliceBound(a, |s|) <= SliceBound(b, |s|) ==>
              |r| == SliceBound(b, |s|) - SliceBound(a, |s|)
    ensures forall k :: 0 <= k < |r| ==> r[k] == s[SliceBound(a, |s|) + k]
  {
    var i, j := SliceBound(a, |s|), SliceBound(b, |s|);
    if i <= j then s[i..j] else []
  }

  /** A slice whose bounds are already in range is Dafny's subsequence. */
  lemma SliceInRange(s: string, a: int, b: int)
    requires 0 <= a <= b <= |s|
    ensures Slice(s, a, b) == s[a..b]
  {
  }

  /** `s[a:-1]` stops one short of the end: the last character is never
      part of the window. */
  lemma SliceToMinusOne(s: string, a: int)
    requires 0 <= a < |s|
    ensures Slice(s, a, -1) == s[a..|s| - 1]
  {
  }

  /** `s[a:-1]` with `a` at the very end is empty. */
  lemma SliceFromEndToMinusOne(s: string)
    ensures Slice(s, |s|, -1) == []
  {
  }

  /** `s.lstrip()`: the suffix of `s` left after the leading whitespace. */
  function LStrip(s: string): (r: string)
    ensures |r| <= |s| && r == s[|s| - |r|..]
    ensures forall k :: 0 <= k < |s| - |r| ==> IsSpace(s[k])
    ensures |r| > 0 ==> !IsSpace(r[0])
  {
    if |s| > 0 && IsSpace(s[0]) then LStrip(s[1..]) else s
  }

  /** `s.rstrip()`: the prefix of `s` left after the trailing whitespace. */
  function RStrip(s: string): (r: string)
    ensures |r| <= |s| && r == s[..|r|]
    ensures forall k :: |r| <= k < |s| ==> IsSpace(s[k])
    ensures |r| > 0 ==> !IsSpace(r[|r| - 1])
  {
    if |s| > 0 && IsSpace(s[|s| - 1]) then RStrip(s[..|s| - 1]) else s
  }

  /** `r` neither starts nor ends with whitespace. */
  predicate Trimmed(r: string) {
    |r| > 0 ==> !IsSpace(r[0]) && !IsSpace(r[|r| - 1])
  }

  /** `r` is the window `s[i..i+|r|]` and everything outside that window
      is whitespace. */
  ghost predicate CutAt(s: string, r: string, i: int) {
    && 0 <= i && i + |r| <= |s|
    && r == s[i..i + |r|]
    && (forall k :: 0 <= k < i ==> IsSpace(s[k]))
    && (forall k :: i + |r| <= k < |s| ==> IsSpace(s[k]))
  }

  /** Python's `s.strip()`: `s` without its leading and trailing whitespace. */
  function Strip(s: string): (r: string)
    ensures Trimmed(r)
    ensures exists i :: CutAt(s, r, i)
  {
    var l := LStrip(s);
    var r := RStrip(l);
    StripCut(s, l, r, |s| - |l|);
    r
  }

  /** Cutting leading whitespace off `s` and then trailing whitespace off
      what is left yields a window of `s` with whitespace on both sides. */
  lemma StripCut(s: string, l: string, r: string, i0: nat)
    requires i0 <= |s| && l == s[i0..]
    requires forall k :: 0 <= k < i0 ==> IsSpace(s[k])
    requires |r| <= |l| && r == l[..|r|]
    requires forall k :: |r| <= k < |l| ==> IsSpace(l[k])
    ensures CutAt(s, r, i0)
  {
    forall k | i0 + |r| <= k < |s|
      ensures IsSpace(s[k])
    {
      assert s[k] == l[k - i0];
    }
    assert r == s[i0..i0 + |r|];
  }

  /** `strip()` is determined by what it promises: any whitespace-free
      window whose outside is all whitespace is the stripped string. */
  lemma StripUnique(s: string, t: string, i: int)
    requires CutAt(s, t, i) && Trimmed(t)
    ensures t == Strip(s)
  {
    var r := Strip(s);
    var i0 :| CutAt(s, r, i0);
    if |t| == 0 {
      // all of s lies outside t, so all of it is whitespace
      assert |r| == 0;
    } else {
      // both windows start at the first non-whitespace character
      // and end just after the last one
      assert !IsSpace(s[i]) && !IsSpace(s[i + |t| - 1]);
      assert i == i0;
      assert |t| == |r|;
    }
  }

  /** Stripping twice removes nothing more. */
  lemma StripIdempotent(s: string)
    ensures Strip(Strip(s)) == Strip(s)
  {
    var r := Strip(s);
    assert CutAt(r, r, 0) by {
      assert r == r[0..|r|];
    }
    StripUnique(r, r, 0);
  }

  /** Whatever `strip()` returns is a window of its input: a character the
      input lacks cannot appear in it. */
  lemma StripKeepsOut(s: string, c: char)
    requires forall k :: 0 <= k < |s| ==> s[k] != c
    ensures forall k :: 0 <= k < |Strip(s)| ==> Strip(s)[k] != c
  {
    var r := Strip(s);
    var i :| CutAt(s, r, i);
    forall k | 0 <= k < |r|
      ensures r[k] != c
    {
      assert r[k] == s[i + k];
    }
  }
}
