/**
 * The Python `str` operations the add-on relies on, over `seq<char>`:
 * `strip`, `split`, `rsplit`, `replace`, `lower`, `startswith`, `endswith`,
 * `in` and `isdigit`. Scans are written as recursion over an index into the
 * text, and each operation takes one slice of it at the end.
 */
module Strings {

  /** The characters `str.isspace()` accepts; `strip()` and `split()` without
      arguments remove exactly these. */
  predicate IsSpace(c: char) {
    || c == ' '
    || ('\t' <= c <= '\r')
    || ('\U{1C}' <= c <= '\U{1F}')
    || c == '\U{85}' || c == '\U{A0}' || c == '\U{1680}'
    || ('\U{2000}' <= c <= '\U{200A}')
    || c == '\U{2028}' || c == '\U{2029}' || c == '\U{202F}' || c == '\U{205F}' || c == '\U{3000}'
  }

  predicate NoSpace(s: string) {
    forall i :: 0 <= i < |s| ==> !IsSpace(s[i])
  }

  /** Whitespace-free texts stay whitespace-free when concatenated. */
  lemma NoSpaceAppend(a: string, b: string)
    requires NoSpace(a) && NoSpace(b)
    ensures NoSpace(a + b)
  {
    forall i | 0 <= i < |a + b|
      ensures !IsSpace((a + b)[i])
    {
      if i >= |a| {
        assert (a + b)[i] == b[i - |a|];
      }
    }
  }

  // ---------------------------------------------------------------------------
  // strip and split()

  /** The first index at or after `i` that holds no whitespace, or `|s|`. */
  function SkipSpace(s: string, i: nat): (j: nat)
    requires i <= |s|
    ensures i <= j <= |s|
    ensures j < |s| ==> !IsSpace(s[j])
    ensures forall k :: i <= k < j ==> IsSpace(s[k])
    decreases |s| - i
  {
    if i < |s| && IsSpace(s[i]) then SkipSpace(s, i + 1) else i
  }

  /** The index just past the last non-whitespace character of `s[lo..j]`, or `lo`. */
  function SkipSpaceBack(s: string, lo: nat, j: nat): (e: nat)
    requires lo <= j <= |s|
    ensures lo <= e <= j
    ensures e > lo ==> !IsSpace(s[e - 1])
    ensures forall k :: e <= k < j ==> IsSpace(s[k])
    decreases j
  {
    if j > lo && IsSpace(s[j - 1]) then SkipSpaceBack(s, lo, j - 1) else j
  }

  /** The first index at or after `i` that holds whitespace, or `|s|`. */
  function WordEnd(s: string, i: nat): (j: nat)
    requires i <= |s|
    ensures i <= j <= |s|
    ensures j < |s| ==> IsSpace(s[j])
    ensures forall k :: i <= k < j ==> !IsSpace(s[k])
    decreases |s| - i
  {
    if i < |s| && !IsSpace(s[i]) then WordEnd(s, i + 1) else i
  }

  /** `SkipSpace` stops at the first non-whitespace index and nowhere else. */
  lemma SkipSpaceAt(s: string, i: nat, j: nat)
    requires i <= j <= |s|
    requires j < |s| ==> !IsSpace(s[j])
    requires forall k :: i <= k < j ==> IsSpace(s[k])
    ensures SkipSpace(s, i) == j
  {
  }

  /** `SkipSpaceBack` stops just past the last non-whitespace index and nowhere else. */
  lemma SkipSpaceBackAt(s: string, lo: nat, j: nat, e: nat)
    requires lo <= e <= j <= |s|
    requires e > lo ==> !IsSpace(s[e - 1])
    requires forall k :: e <= k < j ==> IsSpace(s[k])
    ensures SkipSpaceBack(s, lo, j) == e
  {
  }

  /** `WordEnd` stops at the first whitespace index and nowhere else. */
  lemma WordEndAt(s: string, i: nat, j: nat)
    requires i <= j <= |s|
    requires j < |s| ==> IsSpace(s[j])
    requires forall k :: i <= k < j ==> !IsSpace(s[k])
    ensures WordEnd(s, i) == j
  {
  }

  /** `s.strip()`: the text without its leading and trailing whitespace. */
  function Strip(s: string): string {
    var a := SkipSpace(s, 0);
    s[a..SkipSpaceBack(s, a, |s|)]
  }

  /** Stripping keeps a stretch of the text that neither starts nor ends with
      whitespace, and removes only whitespace around it. */
  lemma StripBounds(s: string)
    ensures var r := Strip(s);
            |r| <= |s| && (r == [] || (!IsSpace(r[0]) && !IsSpace(r[|r| - 1])))
  {
    var a := SkipSpace(s, 0);
    var e := SkipSpaceBack(s, a, |s|);
    var r := s[a..e];
    assert e > a ==> r[0] == s[a] && r[|r| - 1] == s[e - 1];
  }

  /** Text without whitespace strips to itself. */
  lemma StripNoSpace(s: string)
    requires NoSpace(s)
    ensures Strip(s) == s
  {
    SkipSpaceAt(s, 0, 0);
    SkipSpaceBackAt(s, 0, |s|, |s|);
    assert s[0..|s|] == s;
  }

  /** Stripping twice is stripping once. */
  lemma StripIdempotent(s: string)
    ensures Strip(Strip(s)) == Strip(s)
  {
    StripBounds(s);
    var r := Strip(s);
    SkipSpaceAt(r, 0, 0);
    SkipSpaceBackAt(r, 0, |r|, |r|);
    assert r[0..|r|] == r;
  }

  /** `s.split()[0] if s.split() else s`: the first whitespace-separated word,
      or the text itself when it holds no word at all. */
  function FirstWord(s: string): string {
    var a := SkipSpace(s, 0);
    if a == |s| then s else s[a..WordEnd(s, a)]
  }

  /** A word `w` followed by nothing or by text that starts with whitespace. */
  predicate WordThenRest(w: string, rest: string) {
    w != [] && NoSpace(w) && (rest == [] || IsSpace(rest[0]))
  }

  /** Stripping keeps a leading word whole. */
  lemma StripKeepsWord(w: string, rest: string)
    requires WordThenRest(w, rest)
    ensures var t := Strip(w + rest);
            |w| <= |t| && t[..|w|] == w && (|w| < |t| ==> IsSpace(t[|w|]))
  {
    var s := w + rest;
    assert s[0] == w[0];
    SkipSpaceAt(s, 0, 0);
    var e := SkipSpaceBack(s, 0, |s|);
    assert s[|w| - 1] == w[|w| - 1] && !IsSpace(s[|w| - 1]);
    var t := s[0..e];
    assert forall k :: 0 <= k < |w| ==> t[k] == w[k];
    if |w| < |t| {
      assert t[|w|] == rest[0];
    }
  }

  /** The first word of a stripped word followed by whitespace-led text is
      that word. */
  lemma FirstWordOfStrip(w: string, rest: string)
    requires WordThenRest(w, rest)
    ensures FirstWord(Strip(w + rest)) == w
  {
    StripKeepsWord(w, rest);
    var t := Strip(w + rest);
    assert t[0] == w[0];
    SkipSpaceAt(t, 0, 0);
    assert forall k :: 0 <= k < |w| ==> t[k] == w[k];
    WordEndAt(t, 0, |w|);
    assert t[0..|w|] == w;
  }

  /** Whitespace-only text strips to nothing. */
  lemma BlankStrip(s: string)
    requires forall i :: 0 <= i < |s| ==> IsSpace(s[i])
    ensures Strip(s) == []
  {
    SkipSpaceAt(s, 0, |s|);
  }

  // ---------------------------------------------------------------------------
  // lower

  function LowerChar(c: char): char {
    if 'A' <= c <= 'Z' then (c as int - 'A' as int + 'a' as int) as char else c
  }

  /** `s.lower()` on the ASCII letters. */
  function Lower(s: string): (r: string)
    ensures |r| == |s|
    ensures forall i :: 0 <= i < |s| ==> r[i] == LowerChar(s[i])
  {
    seq(|s|, i requires 0 <= i < |s| => LowerChar(s[i]))
  }

  /** Two texts that differ only in the case of ASCII letters. */
  predicate SameUpToCase(a: string, b: string) {
    |a| == |b| && forall i :: 0 <= i < |a| ==> LowerChar(a[i]) == LowerChar(b[i])
  }

  /** Two texts of one length with whitespace at the same places. */
  predicate SameSpaces(a: string, b: string) {
    |a| == |b| && forall i :: 0 <= i < |a| ==> IsSpace(a[i]) == IsSpace(b[i])
  }

  /** Letter case never turns a character into whitespace or back. */
  lemma SameUpToCaseSpaces(a: string, b: string)
    requires SameUpToCase(a, b)
    ensures SameSpaces(a, b)
  {
    forall i | 0 <= i < |a|
      ensures IsSpace(a[i]) == IsSpace(b[i])
    {
      assert IsSpace(LowerChar(a[i])) == IsSpace(a[i]);
      assert IsSpace(LowerChar(b[i])) == IsSpace(b[i]);
    }
  }

  lemma SkipSpaceSame(a: string, b: string, i: nat)
    requires SameSpaces(a, b) && i <= |a|
    ensures SkipSpace(a, i) == SkipSpace(b, i)
  {
    SkipSpaceAt(b, i, SkipSpace(a, i));
  }

  lemma SkipSpaceBackSame(a: string, b: string, lo: nat, j: nat)
    requires SameSpaces(a, b) && lo <= j <= |a|
    ensures SkipSpaceBack(a, lo, j) == SkipSpaceBack(b, lo, j)
  {
    SkipSpaceBackAt(b, lo, j, SkipSpaceBack(a, lo, j));
  }

  /** `s.strip().lower()` is the same for any two spellings of a text that
      differ only in letter case. */
  lemma StripLowerSameUpToCase(a: string, b: string)
    requires SameUpToCase(a, b)
    ensures Lower(Strip(a)) == Lower(Strip(b))
  {
    SameUpToCaseSpaces(a, b);
    var x := SkipSpace(a, 0);
    SkipSpaceSame(a, b, 0);
    var e := SkipSpaceBack(a, x, |a|);
    SkipSpaceBackSame(a, b, x, |a|);
    LowerSliceSame(a, b, x, e);
  }

  lemma LowerSliceSame(a: string, b: string, x: nat, e: nat)
    requires SameUpToCase(a, b) && x <= e <= |a|
    ensures Lower(a[x..e]) == Lower(b[x..e])
  {
    var ra, rb := a[x..e], b[x..e];
    forall k | 0 <= k < |ra|
      ensures Lower(ra)[k] == Lower(rb)[k]
    {
      assert ra[k] == a[x + k] && rb[k] == b[x + k];
    }
  }

  // ---------------------------------------------------------------------------
  // startswith, endswith, in, replace

  /** `s.startswith(p)` */
  predicate StartsWith(s: string, p: string) {
    |p| <= |s| && s[..|p|] == p
  }

  /** `s.endswith(p)` */
  predicate EndsWith(s: string, p: string) {
    |p| <= |s| && s[|s| - |p|..] == p
  }

  /** `p` occurs in `s` starting at index `i`. */
  predicate OccursAt(s: string, p: string, i: nat) {
    i + |p| <= |s| && s[i..i + |p|] == p
  }

  /** The first index at or after `i` where the non-empty `p` occurs, or `|s|`. */
  function FindFrom(s: string, p: string, i: nat): (k: nat)
    requires p != [] && i <= |s|
    ensures i <= k <= |s|
    ensures k < |s| ==> OccursAt(s, p, k)
    ensures forall j :: i <= j < k ==> !OccursAt(s, p, j)
    decreases |s| - i
  {
    if i == |s| then |s|
    else if OccursAt(s, p, i) then i
    else FindFrom(s, p, i + 1)
  }

  /** `p in s` for a non-empty `p`. */
  predicate Contains(s: string, p: string)
    requires p != []
  {
    FindFrom(s, p, 0) < |s|
  }

  /** The last index below `j` where the non-empty `p` occurs, or `|s|` when
      there is none. */
  function FindLastBefore(s: string, p: string, j: nat): (k: nat)
    requires p != [] && j <= |s|
    ensures k == |s| || (k < j && OccursAt(s, p, k))
    ensures k < |s| ==> forall m :: k < m < j ==> !OccursAt(s, p, m)
    ensures k == |s| ==> forall m :: 0 <= m < j ==> !OccursAt(s, p, m)
    decreases j
  {
    if j == 0 then |s|
    else if OccursAt(s, p, j - 1) then j - 1
    else FindLastBefore(s, p, j - 1)
  }

  /** `s.rsplit(p, 1)[-1]`: the text after the last `p`, or all of it when `p`
      does not occur. */
  function AfterLast(s: string, p: string): string
    requires p != []
  {
    var k := FindLastBefore(s, p, |s|);
    if k == |s| then s else s[k + |p|..]
  }

  /** Without an occurrence of `p`, `rsplit(p, 1)[-1]` is the whole text. */
  lemma AfterLastAbsent(s: string, p: string)
    requires p != [] && !Contains(s, p)
    ensures AfterLast(s, p) == s
  {
  }

  /** `s[i..].replace(p, q)` */
  function ReplaceFrom(s: string, p: string, q: string, i: nat): string
    requires p != [] && i <= |s|
    decreases |s| - i
  {
    if i + |p| > |s| then s[i..]
    else if OccursAt(s, p, i) then q + ReplaceFrom(s, p, q, i + |p|)
    else [s[i]] + ReplaceFrom(s, p, q, i + 1)
  }

  /** `s.replace(p, q)`: every non-overlapping occurrence of `p`, scanning from
      the left, replaced by `q`. */
  function ReplaceAll(s: string, p: string, q: string): string
    requires p != []
  {
    ReplaceFrom(s, p, q, 0)
  }

  lemma {:induction false} ReplaceFromAbsent(s: string, p: string, q: string, i: nat)
    requires p != [] && i <= |s|
    requires forall j :: i <= j < |s| ==> !OccursAt(s, p, j)
    ensures ReplaceFrom(s, p, q, i) == s[i..]
    decreases |s| - i
  {
    if i + |p| <= |s| {
      ReplaceFromAbsent(s, p, q, i + 1);
      assert [s[i]] + s[i + 1..] == s[i..];
    }
  }

  /** A stretch without occurrences is copied unchanged. */
  lemma {:induction false} ReplaceFromCopies(s: string, p: string, q: string, i: nat, j: nat)
    requires p != [] && i <= j <= |s|
    requires forall k :: i <= k < j ==> !OccursAt(s, p, k)
    ensures ReplaceFrom(s, p, q, i) == s[i..j] + ReplaceFrom(s, p, q, j)
    decreases j - i
  {
    if i < j {
      if i + |p| > |s| {
        assert ReplaceFrom(s, p, q, j) == s[j..];
        assert s[i..j] + s[j..] == s[i..];
      } else {
        ReplaceFromCopies(s, p, q, i + 1, j);
        assert [s[i]] + (s[i + 1..j] + ReplaceFrom(s, p, q, j)) == s[i..j] + ReplaceFrom(s, p, q, j);
      }
    }
  }

  /** `p` cannot occur where the text does not hold its first character. */
  lemma NotOccursAtFirst(s: string, p: string, k: nat)
    requires p != [] && k < |s| && s[k] != p[0]
    ensures !OccursAt(s, p, k)
  {
  }

  /** A text without the first character of `p` does not contain `p`. */
  lemma NotContainsFirst(s: string, p: string)
    requires p != [] && p[0] !in s
    ensures !Contains(s, p)
  {
    forall k | 0 <= k < |s|
      ensures !OccursAt(s, p, k)
    {
      NotOccursAtFirst(s, p, k);
    }
  }

  /** Replacing a pattern that does not occur leaves the text unchanged. */
  lemma ReplaceAbsent(s: string, p: string, q: string)
    requires p != [] && !Contains(s, p)
    ensures ReplaceAll(s, p, q) == s
  {
    ReplaceFromAbsent(s, p, q, 0);
  }

  /** An occurrence of `p` at `i` holds `p[j]` at `i + j`. */
  lemma OccursAtIndex(s: string, p: string, i: nat, j: nat)
    requires j < |p|
    ensures OccursAt(s, p, i) ==> i + j < |s| && s[i + j] == p[j]
  {
    if OccursAt(s, p, i) {
      assert s[i + j] == s[i..i + |p|][j];
    }
  }

  /** A text in which the first character of `p` is never followed by its
      second does not contain `p`. */
  lemma NotContainsPair(s: string, p: string)
    requires |p| >= 2
    requires forall k :: 0 <= k < |s| - 1 && s[k] == p[0] ==> s[k + 1] != p[1]
    ensures !Contains(s, p)
  {
    forall k | 0 <= k < |s|
      ensures !OccursAt(s, p, k)
    {
      OccursAtIndex(s, p, k, 0);
      OccursAtIndex(s, p, k, 1);
    }
  }

  /** The three ways one step of `ReplaceFrom` can go. */
  lemma ReplaceFromShort(s: string, p: string, q: string, i: nat)
    requires p != [] && i <= |s| < i + |p|
    ensures ReplaceFrom(s, p, q, i) == s[i..]
  {
  }

  lemma ReplaceFromHit(s: string, p: string, q: string, i: nat)
    requires p != [] && OccursAt(s, p, i)
    ensures ReplaceFrom(s, p, q, i) == q + ReplaceFrom(s, p, q, i + |p|)
  {
  }

  lemma ReplaceFromMiss(s: string, p: string, q: string, i: nat)
    requires p != [] && i + |p| <= |s| && !OccursAt(s, p, i)
    ensures ReplaceFrom(s, p, q, i) == [s[i]] + ReplaceFrom(s, p, q, i + 1)
  {
  }

  /** Concatenation regroups. */
  lemma Regroup(x: string, u: string, c: char, v: string)
    ensures x + (u + [c] + v) == (x + u) + [c] + v
  {
  }

  /** Whether `p` occurs at `d + i` in `s` is whether it occurs at `i` in `s[d..]`. */
  lemma OccursInDrop(s: string, d: nat, p: string, i: nat)
    requires d + i <= |s|
    ensures OccursAt(s, p, d + i) <==> OccursAt(s[d..], p, i)
  {
    if d + i + |p| <= |s| {
      assert s[d + i..d + i + |p|] == s[d..][i..i + |p|];
    }
  }

  /** Whether `p` occurs inside the head `a` of `a + b` depends on `a` alone. */
  lemma OccursInHead(a: string, b: string, p: string, i: nat)
    requires i + |p| <= |a|
    ensures OccursAt(a + b, p, i) <==> OccursAt(a, p, i)
  {
    assert (a + b)[i..i + |p|] == a[i..i + |p|];
  }

  /** An occurrence of `p` at `i` covers index `m` with a character of `p`. */
  lemma OccursCovers(s: string, p: string, i: nat, m: nat)
    requires i <= m < i + |p|
    ensures OccursAt(s, p, i) ==> s[m] in p
  {
    if OccursAt(s, p, i) {
      assert s[m] == s[i..i + |p|][m - i];
    }
  }

  lemma DropShort(s: string, d: nat, p: string, q: string, i: nat)
    requires p != [] && d + i <= |s| < d + i + |p|
    ensures ReplaceFrom(s, p, q, d + i) == ReplaceFrom(s[d..], p, q, i)
  {
    assert s[d + i..] == s[d..][i..];
  }

  lemma DropHit(s: string, d: nat, p: string, q: string, i: nat)
    requires p != [] && d + i + |p| <= |s| && OccursAt(s, p, d + i)
    requires ReplaceFrom(s, p, q, d + i + |p|) == ReplaceFrom(s[d..], p, q, i + |p|)
    ensures ReplaceFrom(s, p, q, d + i) == ReplaceFrom(s[d..], p, q, i)
  {
    OccursInDrop(s, d, p, i);
  }

  lemma DropMiss(s: string, d: nat, p: string, q: string, i: nat)
    requires p != [] && d + i + |p| <= |s| && !OccursAt(s, p, d + i)
    requires ReplaceFrom(s, p, q, d + i + 1) == ReplaceFrom(s[d..], p, q, i + 1)
    ensures ReplaceFrom(s, p, q, d + i) == ReplaceFrom(s[d..], p, q, i)
  {
    OccursInDrop(s, d, p, i);
    assert s[d + i] == s[d..][i];
  }

  /** Replacing in `s` from `d + i` is replacing in `s[d..]` from `i`. */
  lemma {:induction false} ReplaceFromDrop(s: string, d: nat, p: string, q: string, i: nat)
    requires p != [] && d + i <= |s|
    ensures ReplaceFrom(s, p, q, d + i) == ReplaceFrom(s[d..], p, q, i)
    decreases |s| - d - i
  {
    if d + i + |p| > |s| {
      DropShort(s, d, p, q, i);
    } else if OccursAt(s, p, d + i) {
      ReplaceFromDrop(s, d, p, q, i + |p|);
      DropHit(s, d, p, q, i);
    } else {
      ReplaceFromDrop(s, d, p, q, i + 1);
      DropMiss(s, d, p, q, i);
    }
  }

  /** Replacing from inside the tail `b` of `a + b` only sees `b`. */
  lemma ReplaceFromSuffix(a: string, b: string, p: string, q: string, i: nat)
    requires p != [] && i <= |b|
    ensures ReplaceFrom(a + b, p, q, |a| + i) == ReplaceFrom(b, p, q, i)
  {
    ReplaceFromDrop(a + b, |a|, p, q, i);
    assert (a + b)[|a|..] == b;
  }

  /** A text that starts with `p` has that first `p` replaced. */
  lemma ReplaceHead(b: string, p: string, q: string)
    requires p != []
    ensures ReplaceAll(p + b, p, q) == q + ReplaceAll(b, p, q)
  {
    assert (p + b)[0..|p|] == p;
    ReplaceFromHit(p + b, p, q, 0);
    ReplaceFromSuffix(p, b, p, q, 0);
  }

  /** A character that `p` does not hold splits the replacement in two:
      no occurrence of `p` can reach across it. */
  lemma ReplaceAroundChar(a: string, c: char, b: string, p: string, q: string)
    requires p != [] && c !in p
    ensures ReplaceAll(a + [c] + b, p, q) == ReplaceAll(a, p, q) + [c] + ReplaceAll(b, p, q)
  {
    ReplaceAroundCharFrom(a, c, b, p, q, 0);
  }

  /** The step of `ReplaceAroundCharFrom` at the character itself. */
  lemma AroundAt(a: string, c: char, b: string, p: string, q: string)
    requires p != [] && c !in p
    ensures ReplaceFrom(a + [c] + b, p, q, |a|) == ReplaceFrom(a, p, q, |a|) + [c] + ReplaceAll(b, p, q)
  {
    ReplaceFromShort(a, p, q, |a|);
    assert ReplaceFrom(a, p, q, |a|) + [c] == [c];
    if |p| > |b| + 1 {
      AroundAtShort(a, c, b, p, q);
    } else {
      AroundAtMiss(a, c, b, p, q);
    }
  }

  lemma AroundAtShort(a: string, c: char, b: string, p: string, q: string)
    requires p != [] && |p| > |b| + 1
    ensures ReplaceFrom(a + [c] + b, p, q, |a|) == [c] + ReplaceAll(b, p, q)
  {
    var s := a + [c] + b;
    ReplaceFromShort(s, p, q, |a|);
    ReplaceFromShort(b, p, q, 0);
    assert s[|a|..] == [c] + b;
  }

  lemma AroundAtMiss(a: string, c: char, b: string, p: string, q: string)
    requires p != [] && c !in p && |p| <= |b| + 1
    ensures ReplaceFrom(a + [c] + b, p, q, |a|) == [c] + ReplaceAll(b, p, q)
  {
    var s := a + [c] + b;
    assert s[|a|] == c;
    OccursCovers(s, p, |a|, |a|);
    ReplaceFromMiss(s, p, q, |a|);
    ReplaceFromSuffix(a + [c], b, p, q, 0);
  }

  /** A step of `ReplaceAroundCharFrom` before the character, where an
      occurrence of `p` would reach it. */
  lemma AroundNear(a: string, c: char, b: string, p: string, q: string, i: nat)
    requires p != [] && c !in p && i < |a| < i + |p|
    requires ReplaceFrom(a + [c] + b, p, q, i + 1) == ReplaceFrom(a, p, q, i + 1) + [c] + ReplaceAll(b, p, q)
    ensures ReplaceFrom(a + [c] + b, p, q, i) == ReplaceFrom(a, p, q, i) + [c] + ReplaceAll(b, p, q)
  {
    var s := a + [c] + b;
    assert s[|a|] == c && s[i] == a[i];
    ReplaceFromShort(a, p, q, i);
    ReplaceFromShort(a, p, q, i + 1);
    assert a[i..] == [a[i]] + a[i + 1..];
    if i + |p| > |s| {
      ReplaceFromShort(s, p, q, i);
      ReplaceFromShort(s, p, q, i + 1);
      assert s[i..] == [s[i]] + s[i + 1..];
    } else {
      OccursCovers(s, p, i, |a|);
      ReplaceFromMiss(s, p, q, i);
    }
    Regroup([a[i]], a[i + 1..], c, ReplaceAll(b, p, q));
  }

  /** A step of `ReplaceAroundCharFrom` well before the character. */
  lemma AroundFar(a: string, c: char, b: string, p: string, q: string, i: nat, n: nat)
    requires p != [] && i + |p| <= |a|
    requires n == (if OccursAt(a, p, i) then |p| else 1)
    requires ReplaceFrom(a + [c] + b, p, q, i + n) == ReplaceFrom(a, p, q, i + n) + [c] + ReplaceAll(b, p, q)
    ensures ReplaceFrom(a + [c] + b, p, q, i) == ReplaceFrom(a, p, q, i) + [c] + ReplaceAll(b, p, q)
  {
    var x := if OccursAt(a, p, i) then q else [a[i]];
    AroundFarStep(a, c, b, p, q, i, n, x);
    Regroup(x, ReplaceFrom(a, p, q, i + n), c, ReplaceAll(b, p, q));
  }

  /** Both texts take the same step from `i`, adding `x`. */
  lemma AroundFarStep(a: string, c: char, b: string, p: string, q: string, i: nat, n: nat, x: string)
    requires p != [] && i + |p| <= |a|
    requires n == (if OccursAt(a, p, i) then |p| else 1)
    requires x == (if OccursAt(a, p, i) then q else [a[i]])
    ensures ReplaceFrom(a + [c] + b, p, q, i) == x + ReplaceFrom(a + [c] + b, p, q, i + n)
    ensures ReplaceFrom(a, p, q, i) == x + ReplaceFrom(a, p, q, i + n)
  {
    var s := a + [c] + b;
    assert s == a + ([c] + b);
    OccursInHead(a, [c] + b, p, i);
    if OccursAt(a, p, i) {
      ReplaceFromHit(s, p, q, i);
      ReplaceFromHit(a, p, q, i);
    } else {
      assert s[i] == a[i];
      ReplaceFromMiss(s, p, q, i);
      ReplaceFromMiss(a, p, q, i);
    }
  }

  lemma {:induction false} ReplaceAroundCharFrom(a: string, c: char, b: string, p: string, q: string, i: nat)
    requires p != [] && c !in p && i <= |a|
    ensures ReplaceFrom(a + [c] + b, p, q, i) == ReplaceFrom(a, p, q, i) + [c] + ReplaceAll(b, p, q)
    decreases |a| - i
  {
    if i == |a| {
      AroundAt(a, c, b, p, q);
    } else if i + |p| > |a| {
      ReplaceAroundCharFrom(a, c, b, p, q, i + 1);
      AroundNear(a, c, b, p, q, i);
    } else {
      var n := if OccursAt(a, p, i) then |p| else 1;
      ReplaceAroundCharFrom(a, c, b, p, q, i + n);
      AroundFar(a, c, b, p, q, i, n);
    }
  }

  /** The last occurrence of `p` below `j` is at `k` when `p` occurs there
      and nowhere between. */
  lemma {:induction false} FindLastBeforeAt(s: string, p: string, k: nat, j: nat)
    requires p != [] && k < j <= |s| && OccursAt(s, p, k)
    requires forall m :: k < m < j ==> !OccursAt(s, p, m)
    ensures FindLastBefore(s, p, j) == k
    decreases j
  {
    if j - 1 != k {
      FindLastBeforeAt(s, p, k, j - 1);
    }
  }

  // ---------------------------------------------------------------------------
  // single-character searches and split(c)

  /** The first index at or after `i` holding `c`, or `|s|`. */
  function IndexFrom(s: string, c: char, i: nat): (k: nat)
    requires i <= |s|
    ensures i <= k <= |s|
    ensures k < |s| ==> s[k] == c
    ensures forall j :: i <= j < k ==> s[j] != c
    decreases |s| - i
  {
    if i == |s| || s[i] == c then i else IndexFrom(s, c, i + 1)
  }

  /** `IndexFrom` stops at the first `c` at or after `i` and nowhere else. */
  lemma IndexFromAt(s: string, c: char, i: nat, k: nat)
    requires i <= k <= |s|
    requires k < |s| ==> s[k] == c
    requires forall j :: i <= j < k ==> s[j] != c
    ensures IndexFrom(s, c, i) == k
  {
  }

  /** Without a `c` in `s[i..]` the search runs to the end. */
  lemma IndexFromAbsent(s: string, c: char, i: nat)
    requires i <= |s| && c !in s[i..]
    ensures IndexFrom(s, c, i) == |s|
  {
    assert forall j :: i <= j < |s| ==> s[j] == s[i..][j - i];
    IndexFromAt(s, c, i, |s|);
  }

  /** The index of the first `c` in `s`, or `|s|` when there is none. */
  function IndexOf(s: string, c: char): (k: nat)
    ensures k <= |s|
    ensures forall j :: 0 <= j < k ==> s[j] != c
    ensures k < |s| <==> c in s
    ensures k < |s| ==> s[k] == c
  {
    IndexFrom(s, c, 0)
  }

  /** `s.split(c)[0]`: the text before the first `c`, or all of it. */
  function BeforeFirst(s: string, c: char): (r: string)
    ensures c !in r
    ensures |r| <= |s| && r == s[..|r|]
    ensures c !in s ==> r == s
  {
    var k := IndexOf(s, c);
    assert forall j :: 0 <= j < k ==> s[..k][j] == s[j];
    s[..k]
  }

  /** `s[i..].split(c)` */
  function SplitFrom(s: string, c: char, i: nat): (parts: seq<string>)
    requires i <= |s|
    ensures |parts| >= 1
    ensures |parts| == 1 <==> IndexFrom(s, c, i) == |s|
    ensures parts[0] == s[i..IndexFrom(s, c, i)]
    decreases |s| - i
  {
    var k := IndexFrom(s, c, i);
    if k == |s| then [s[i..]] else [s[i..k]] + SplitFrom(s, c, k + 1)
  }

  /** `s.split(c)`: the pieces between the occurrences of `c`. */
  function SplitOn(s: string, c: char): (parts: seq<string>)
    ensures |parts| >= 1
    ensures |parts| == 1 <==> c !in s
    ensures parts[0] == BeforeFirst(s, c)
  {
    SplitFrom(s, c, 0)
  }

  /** The first `c` of `a + [c] + b` is the one after `a` when `a` holds none. */
  lemma IndexOfAfter(a: string, c: char, b: string)
    requires c !in a
    ensures IndexOf(a + [c] + b, c) == |a|
    ensures (a + [c] + b)[..|a|] == a && (a + [c] + b)[|a| + 1..] == b
  {
    var s := a + [c] + b;
    assert s[|a|] == c;
    assert forall j :: 0 <= j < |a| ==> s[j] == a[j];
    IndexFromAt(s, c, 0, |a|);
  }

  /** `(a + c + b).split(c) == [a, b]` when neither side holds `c`. */
  lemma SplitOnOnce(a: string, b: string, c: char)
    requires c !in a && c !in b
    ensures SplitOn(a + [c] + b, c) == [a, b]
  {
    var s := a + [c] + b;
    IndexOfAfter(a, c, b);
    IndexFromAbsent(s, c, |a| + 1);
    assert SplitFrom(s, c, |a| + 1) == [b];
    assert s[0..|a|] == a;
    assert SplitFrom(s, c, 0) == [a] + [b];
  }

  /** A second `c` splits the text into three or more pieces. */
  lemma SplitOnTwice(a: string, t: string, c: char)
    requires c !in a && c in t
    ensures |SplitOn(a + [c] + t, c)| >= 3
  {
    var s := a + [c] + t;
    IndexOfAfter(a, c, t);
    var j :| 0 <= j < |t| && t[j] == c;
    assert s[|a| + 1 + j] == c;
    var k := IndexFrom(s, c, |a| + 1);
    assert k <= |a| + 1 + j;
  }

  /** The last index below `j` holding `c`, or `|s|` when there is none. */
  function LastIndexBefore(s: string, c: char, j: nat): (k: nat)
    requires j <= |s|
    ensures k == |s| || (k < j && s[k] == c)
    ensures k < |s| ==> forall m :: k < m < j ==> s[m] != c
    ensures k == |s| ==> forall m :: 0 <= m < j ==> s[m] != c
    decreases j
  {
    if j == 0 then |s|
    else if s[j - 1] == c then j - 1
    else LastIndexBefore(s, c, j - 1)
  }

  /** `s.rsplit(c, 1)[0]`: the text before the last `c`, or all of it. */
  function BeforeLast(s: string, c: char): (r: string)
    ensures |r| <= |s| && r == s[..|r|]
    ensures c !in s ==> r == s
    ensures c in s ==> |r| < |s| && s[|r|] == c && c !in s[|r| + 1..]
  {
    var k := LastIndexBefore(s, c, |s|);
    if k == |s| then s
    else
      var t := s[k + 1..];
      assert forall m :: 0 <= m < |t| ==> t[m] == s[k + 1 + m];
      s[..k]
  }

  /** `s.rsplit(c, 1)[-1]`: the text after the last `c`, or all of it. */
  function AfterLastChar(s: string, c: char): (r: string)
    ensures |r| <= |s| && r == s[|s| - |r|..]
    ensures c !in r
    ensures c !in s ==> r == s
  {
    var k := LastIndexBefore(s, c, |s|);
    if k == |s| then s
    else
      var t := s[k + 1..];
      assert forall m :: 0 <= m < |t| ==> t[m] == s[k + 1 + m];
      t
  }

  /** In `a + c + b` with no `c` in `b`, the last `c` is the one after `a`. */
  lemma LastIndexAfter(a: string, c: char, b: string)
    requires c !in b
    ensures LastIndexBefore(a + [c] + b, c, |a| + 1 + |b|) == |a|
  {
    var s := a + [c] + b;
    assert s[|a|] == c;
    forall m | |a| < m < |s|
      ensures s[m] != c
    {
      assert s[m] == b[m - |a| - 1];
    }
    LastIndexBeforeAt(s, c, |a|, |s|);
  }

  /** The last `c` below `j` is at `k` when `s[k]` is one and none lies between. */
  lemma {:induction false} LastIndexBeforeAt(s: string, c: char, k: nat, j: nat)
    requires k < j <= |s| && s[k] == c
    requires forall m :: k < m < j ==> s[m] != c
    ensures LastIndexBefore(s, c, j) == k
    decreases j
  {
    if j - 1 != k {
      LastIndexBeforeAt(s, c, k, j - 1);
    }
  }

  /** `(a + c + b).rsplit(c, 1)[0] == a` when `b` holds no `c`. */
  lemma BeforeLastAfter(a: string, c: char, b: string)
    requires c !in b
    ensures BeforeLast(a + [c] + b, c) == a
  {
    LastIndexAfter(a, c, b);
    assert (a + [c] + b)[..|a|] == a;
  }

  /** The text after the last `c` of `a + c + b` is `b` when `b` holds no `c`. */
  lemma AfterLastCharAfter(a: string, c: char, b: string)
    requires c !in b
    ensures AfterLastChar(a + [c] + b, c) == b
  {
    LastIndexAfter(a, c, b);
    assert (a + [c] + b)[|a| + 1..] == b;
  }

  /** `s.isdigit()` on ASCII digits: non-empty and made of digits only. */
  predicate IsDigits(s: string) {
    s != [] && forall i :: 0 <= i < |s| ==> '0' <= s[i] <= '9'
  }
}
