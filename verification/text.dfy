/**
 * The handful of Go string primitives the storage tier relies on, written
 * over `seq<char>`: `bytes.Contains`, `strings.Index`, `strings.ReplaceAll`
 * with an empty replacement, `strings.Split` (with its inverse
 * `strings.Join`) and `strings.TrimSpace`. The wire protocol is ASCII, so a
 * character stands for a byte.
 */
module Text {

  /** The protocol's line terminator. */
  const CRLF: string := "\r\n"

  /** `pat` occurs in `s` starting at index `i`. */
  predicate OccursAt(s: string, pat: string, i: nat) {
    i + |pat| <= |s| && s[i..i + |pat|] == pat
  }

  /** `bytes.Contains` / `strings.Contains`. */
  predicate Contains(s: string, pat: string) {
    exists i: nat | i <= |s| :: OccursAt(s, pat, i)
  }

  /** No occurrence of `pat` in `s` starts before index `n`. */
  predicate NoOccurrenceBefore(s: string, pat: string, n: nat) {
    forall i: nat | i < n :: !OccursAt(s, pat, i)
  }

  predicate HasSuffix(s: string, suffix: string) {
    |suffix| <= |s| && s[|s| - |suffix|..] == suffix
  }

  /** `c` is nowhere in `s`. */
  predicate Lacks(s: string, c: char) {
    forall i | 0 <= i < |s| :: s[i] != c
  }

  /** Occurrences in `s` at index 1 or later are the occurrences in `s[1..]`, shifted by one. */
  lemma ShiftOccurrences(s: string, pat: string)
    requires |s| > 0
    ensures forall i: nat | 1 <= i <= |s| :: OccursAt(s, pat, i) == OccursAt(s[1..], pat, i - 1)
  {
    forall i: nat | 1 <= i <= |s|
      ensures OccursAt(s, pat, i) == OccursAt(s[1..], pat, i - 1)
    {
      if i + |pat| <= |s| {
        assert s[1..][i - 1..i - 1 + |pat|] == s[i..i + |pat|];
      }
    }
  }

  /** When `pat` does not start `s`, `s` contains `pat` exactly when its tail does. */
  lemma ContainsTail(s: string, pat: string)
    requires |s| > 0
    requires !OccursAt(s, pat, 0)
    ensures Contains(s, pat) == Contains(s[1..], pat)
  {
    ShiftOccurrences(s, pat);
    if Contains(s, pat) {
      var i: nat :| i <= |s| && OccursAt(s, pat, i);
      assert i >= 1;
      assert OccursAt(s[1..], pat, i - 1);
    }
    if Contains(s[1..], pat) {
      var j: nat :| j <= |s[1..]| && OccursAt(s[1..], pat, j);
      assert OccursAt(s, pat, j + 1);
    }
  }

  /** An occurrence of `outer` carries every occurrence of `inner` inside it. */
  lemma ContainsInner(s: string, outer: string, inner: string, offset: nat)
    requires OccursAt(outer, inner, offset)
    requires Contains(s, outer)
    ensures Contains(s, inner)
  {
    var i: nat :| i <= |s| && OccursAt(s, outer, i);
    var t := s[i..i + |outer|];
    forall j | 0 <= j < |inner|
      ensures s[i + offset + j] == inner[j]
    {
      assert s[i + offset + j] == t[offset + j] == outer[offset..offset + |inner|][j];
    }
    assert s[i + offset..i + offset + |inner|] == inner;
    assert OccursAt(s, inner, i + offset);
  }

  /** An occurrence inside a middle part is an occurrence in the whole. */
  lemma ContainsWithin(a: string, b: string, c: string, pat: string)
    requires Contains(b, pat)
    ensures Contains(a + b + c, pat)
  {
    var i: nat :| i <= |b| && OccursAt(b, pat, i);
    var s := a + b + c;
    assert s[|a| + i..|a| + i + |pat|] == b[i..i + |pat|];
    assert OccursAt(s, pat, |a| + i);
  }

  /** A pattern whose first character `s` lacks does not occur in `s`. */
  lemma LacksFirstChar(s: string, pat: string)
    requires |pat| > 0
    requires Lacks(s, pat[0])
    ensures !Contains(s, pat)
  {
    forall i: nat | i <= |s|
      ensures !OccursAt(s, pat, i)
    {
      if i + |pat| <= |s| {
        assert s[i..i + |pat|][0] == s[i];
      }
    }
  }

  /**
   * `strings.Index(s, pat)`: the first index where `pat` occurs, or -1.
   */
  function IndexOf(s: string, pat: string): (r: int)
    requires |pat| > 0
    ensures -1 <= r <= |s|
    ensures r == -1 <==> !Contains(s, pat)
    ensures r >= 0 ==> OccursAt(s, pat, r) && NoOccurrenceBefore(s, pat, r)
    decreases |s|
  {
    if |s| < |pat| then
      assert !Contains(s, pat);
      -1
    else if s[..|pat|] == pat then
      assert OccursAt(s, pat, 0);
      0
    else
      var k := IndexOf(s[1..], pat);
      ShiftOccurrences(s, pat);
      ContainsTail(s, pat);
      if k < 0 then -1
      else
        assert OccursAt(s, pat, k + 1);
        k + 1
  }

  /** The first occurrence is where `IndexOf` lands. */
  lemma IndexOfFirst(s: string, pat: string, k: nat)
    requires |pat| > 0
    requires OccursAt(s, pat, k)
    requires NoOccurrenceBefore(s, pat, k)
    ensures IndexOf(s, pat) == k
  {
    assert Contains(s, pat);
  }

  /**
   * `strings.ReplaceAll(s, pat, "")`: removes the non-overlapping
   * occurrences of `pat` met while scanning `s` from left to right. The
   * removal can join two halves into a new occurrence, which stays.
   */
  function RemoveAll(s: string, pat: string): (r: string)
    requires |pat| > 0
    ensures |r| <= |s|
    ensures !Contains(s, pat) ==> r == s
    ensures Contains(s, pat) ==> |r| <= |s| - |pat|
    decreases |s|
  {
    if |s| < |pat| then s
    else if s[..|pat|] == pat then
      assert OccursAt(s, pat, 0);
      RemoveAll(s[|pat|..], pat)
    else
      ContainsTail(s, pat);
      [s[0]] + RemoveAll(s[1..], pat)
  }

  /** Without an occurrence at the front, the first character is kept. */
  lemma RemoveAllKeepsFirst(s: string, pat: string)
    requires |pat| > 0 && |s| > 0
    requires !OccursAt(s, pat, 0)
    ensures RemoveAll(s, pat) == [s[0]] + RemoveAll(s[1..], pat)
  {
    if |s| >= |pat| {
      assert s[..|pat|] != pat;
    } else {
      assert s == [s[0]] + s[1..];
    }
  }

  /** Putting the first character back in front of a processed tail. */
  lemma ConsGlue(a: string, x: string, y: string, r: string)
    requires |a| > 0
    requires y == a[1..] + x
    requires r == [a[0]] + y
    ensures r == a + x
  {
    assert [a[0]] + a[1..] == a;
  }

  /** A prefix in which no occurrence starts passes through the removal untouched. */
  lemma {:induction false} RemoveAllSkip(a: string, b: string, pat: string)
    requires |pat| > 0
    requires NoOccurrenceBefore(a + b, pat, |a|)
    ensures RemoveAll(a + b, pat) == a + RemoveAll(b, pat)
    decreases |a|
  {
    if |a| == 0 {
      assert a + b == b;
    } else {
      var s := a + b;
      var t := a[1..] + b;
      assert s[1..] == t;
      assert !OccursAt(s, pat, 0);
      forall i: nat | i < |a| - 1
        ensures !OccursAt(t, pat, i)
      {
        assert !OccursAt(s, pat, i + 1);
        if i + |pat| <= |t| {
          assert t[i..i + |pat|] == s[i + 1..i + 1 + |pat|];
        }
      }
      RemoveAllSkip(a[1..], b, pat);
      RemoveAllKeepsFirst(s, pat);
      ConsGlue(a, RemoveAll(b, pat), RemoveAll(t, pat), RemoveAll(s, pat));
    }
  }

  /** `strings.Join(pieces, sep)`. */
  function Join(pieces: seq<string>, sep: string): string
    requires |pieces| >= 1
    decreases |pieces|
  {
    if |pieces| == 1 then pieces[0] else pieces[0] + sep + Join(pieces[1..], sep)
  }

  /** The joined string starts with the first piece. */
  lemma JoinStartsWithFirst(pieces: seq<string>, sep: string)
    requires |pieces| >= 1
    ensures pieces[0] <= Join(pieces, sep)
  {
  }

  /** A prefix of `s` that `s` does not start `sep` with contains `sep` exactly when its tail does. */
  lemma FirstPieceHasNoSeparator(s: string, first: string, sep: string)
    requires |sep| > 0 && |first| > 0
    requires first <= s
    requires !OccursAt(s, sep, 0)
    ensures Contains(first, sep) == Contains(first[1..], sep)
  {
    ContainsTail(first, sep);
  }

  /**
   * `strings.Split(s, sep)` for a non-empty separator: the pieces between
   * the non-overlapping occurrences of `sep`, scanning left to right. There
   * is always at least one piece, and joining the pieces gives `s` back.
   */
  function Split(s: string, sep: string): (r: seq<string>)
    requires |sep| > 0
    ensures |r| >= 1
    ensures Join(r, sep) == s
    ensures forall i | 0 <= i < |r| :: !Contains(r[i], sep)
    decreases |s|
  {
    if |s| < |sep| then
      assert !Contains(s, sep);
      [s]
    else if s[..|sep|] == sep then
      var rest := Split(s[|sep|..], sep);
      assert s == sep + s[|sep|..];
      [""] + rest
    else
      var rest := Split(s[1..], sep);
      SplitStep(s, sep, rest);
      [[s[0]] + rest[0]] + rest[1..]
  }

  /** A first character that does not start the separator joins the first piece of the rest. */
  lemma SplitStep(s: string, sep: string, rest: seq<string>)
    requires |sep| > 0 && |s| >= |sep| && s[..|sep|] != sep
    requires |rest| >= 1 && Join(rest, sep) == s[1..]
    requires forall i | 0 <= i < |rest| :: !Contains(rest[i], sep)
    ensures var r := [[s[0]] + rest[0]] + rest[1..];
            && Join(r, sep) == s
            && forall i | 0 <= i < |r| :: !Contains(r[i], sep)
  {
    var first := [s[0]] + rest[0];
    var r := [first] + rest[1..];
    assert Join(r, sep) == s by {
      JoinCons(s[0], rest, sep);
      assert s == [s[0]] + s[1..];
    }
    assert !Contains(first, sep) by {
      FirstPieceClean(s, sep, rest);
    }
    forall i | 0 <= i < |r| ensures !Contains(r[i], sep) {
      if i > 0 {
        assert r[i] == rest[i];
      }
    }
  }

  /** The first piece, grown by the first character, still holds no separator. */
  lemma FirstPieceClean(s: string, sep: string, rest: seq<string>)
    requires |sep| > 0 && |s| >= |sep| && s[..|sep|] != sep
    requires |rest| >= 1 && Join(rest, sep) == s[1..]
    requires !Contains(rest[0], sep)
    ensures !Contains([s[0]] + rest[0], sep)
  {
    var first := [s[0]] + rest[0];
    JoinStartsWithFirst(rest, sep);
    assert s == [s[0]] + s[1..];
    FirstPieceHasNoSeparator(s, first, sep);
    assert first[1..] == rest[0];
  }

  /** A character put in front of the first piece is in front of the joined string. */
  lemma JoinCons(c: char, pieces: seq<string>, sep: string)
    requires |pieces| >= 1
    ensures Join([[c] + pieces[0]] + pieces[1..], sep) == [c] + Join(pieces, sep)
  {
    var r := [[c] + pieces[0]] + pieces[1..];
    if |pieces| > 1 {
      var j := Join(pieces[1..], sep);
      assert r[1..] == pieces[1..];
      assert Join(r, sep) == ([c] + pieces[0]) + sep + j;
      assert Join(pieces, sep) == pieces[0] + sep + j;
      assert ([c] + pieces[0]) + sep + j == [c] + (pieces[0] + sep + j);
    }
  }

  /** A prefix without an occurrence, followed by the separator, is the first piece. */
  lemma {:induction false} SplitPrefix(a: string, sep: string, b: string)
    requires |sep| > 0
    requires NoOccurrenceBefore(a + sep + b, sep, |a|)
    ensures Split(a + sep + b, sep) == [a] + Split(b, sep)
    decreases |a|
  {
    var s := a + sep + b;
    if |a| == 0 {
      assert s == sep + b;
      assert s[..|sep|] == sep;
      assert s[|sep|..] == b;
    } else {
      assert !OccursAt(s, sep, 0);
      assert s[..|sep|] != sep;
      ShiftOccurrences(s, sep);
      assert s[1..] == a[1..] + sep + b;
      forall i: nat | i < |a[1..]|
        ensures !OccursAt(a[1..] + sep + b, sep, i)
      {
        assert !OccursAt(s, sep, i + 1);
      }
      SplitPrefix(a[1..], sep, b);
      assert [s[0]] + a[1..] == a;
    }
  }

  /** A string without an occurrence of the separator is a single piece. */
  lemma {:induction false} SplitWhole(a: string, sep: string)
    requires |sep| > 0
    requires !Contains(a, sep)
    ensures Split(a, sep) == [a]
    decreases |a|
  {
    if |a| >= |sep| {
      assert !OccursAt(a, sep, 0);
      ContainsTail(a, sep);
      SplitWhole(a[1..], sep);
      assert [a[0]] + a[1..] == a;
    }
  }

  /** A separator whose first character the prefix lacks first occurs right after it. */
  lemma IndexAfter(a: string, sep: string, b: string)
    requires |sep| > 0
    requires Lacks(a, sep[0])
    ensures IndexOf(a + sep + b, sep) == |a|
  {
    var s := a + sep + b;
    assert s[|a|..|a| + |sep|] == sep;
    forall i: nat | i < |a|
      ensures !OccursAt(s, sep, i)
    {
      if i + |sep| <= |s| {
        assert s[i..i + |sep|][0] == a[i];
      }
    }
    IndexOfFirst(s, sep, |a|);
  }

  /** A prefix lacking the separator's first character is the first piece. */
  lemma SplitCons(a: string, sep: string, b: string)
    requires |sep| > 0
    requires Lacks(a, sep[0])
    ensures Split(a + sep + b, sep) == [a] + Split(b, sep)
  {
    var s := a + sep + b;
    forall i: nat | i < |a|
      ensures !OccursAt(s, sep, i)
    {
      if i + |sep| <= |s| {
        assert s[i..i + |sep|][0] == a[i];
      }
    }
    SplitPrefix(a, sep, b);
  }

  /** A string lacking the separator's first character is a single piece. */
  lemma SplitLast(a: string, sep: string)
    requires |sep| > 0
    requires Lacks(a, sep[0])
    ensures Split(a, sep) == [a]
  {
    LacksFirstChar(a, sep);
    SplitWhole(a, sep);
  }

  /** `unicode.IsSpace`, the whitespace that `strings.TrimSpace` strips. */
  predicate IsSpace(c: char) {
    || c == '\t' || c == '\n' || c == '\U{0B}' || c == '\U{0C}' || c == '\r' || c == ' '
    || c == '\U{85}' || c == '\U{A0}' || c == '\U{1680}'
    || ('\U{2000}' <= c <= '\U{200A}')
    || c == '\U{2028}' || c == '\U{2029}' || c == '\U{202F}' || c == '\U{205F}' || c == '\U{3000}'
  }

  predicate AllSpace(s: string) {
    forall i | 0 <= i < |s| :: IsSpace(s[i])
  }

  /** The end of the run of whitespace that starts at `i`. */
  function SkipSpace(s: string, i: nat): (n: nat)
    requires i <= |s|
    ensures i <= n <= |s|
    ensures forall k | i <= k < n :: IsSpace(s[k])
    ensures n < |s| ==> !IsSpace(s[n])
    decreases |s| - i
  {
    if i < |s| && IsSpace(s[i]) then SkipSpace(s, i + 1) else i
  }

  /** The start of the run of whitespace that ends at `j`, going no further back than `lo`. */
  function SkipSpaceBack(s: string, lo: nat, j: nat): (n: nat)
    requires lo <= j <= |s|
    ensures lo <= n <= j
    ensures forall k | n <= k < j :: IsSpace(s[k])
    ensures n > lo ==> !IsSpace(s[n - 1])
    decreases j
  {
    if j > lo && IsSpace(s[j - 1]) then SkipSpaceBack(s, lo, j - 1) else j
  }

  /** `r` sits in `s` at `lo` with only whitespace before and after it. */
  predicate TrimmedAt(s: string, r: string, lo: nat) {
    && lo + |r| <= |s| && s[lo..lo + |r|] == r
    && (forall k | 0 <= k < lo :: IsSpace(s[k]))
    && (forall k | lo + |r| <= k < |s| :: IsSpace(s[k]))
  }

  /**
   * `strings.TrimSpace`: the longest piece of `s` that neither starts nor
   * ends with whitespace, with only whitespace cut on either side. It is
   * empty exactly when `s` is all whitespace.
   */
  function TrimSpace(s: string): (r: string)
    ensures exists lo: nat :: TrimmedAt(s, r, lo)
    ensures |r| > 0 ==> !IsSpace(r[0]) && !IsSpace(r[|r| - 1])
    ensures r == "" <==> AllSpace(s)
  {
    var lo := SkipSpace(s, 0);
    var hi := SkipSpaceBack(s, lo, |s|);
    var r := s[lo..hi];
    assert TrimmedAt(s, r, lo);
    r
  }
}
