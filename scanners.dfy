/** Small scanners over sequences. They stand in for the handful of regular
    expressions and `str` methods the mail parser relies on: whitespace as
    Python defines it, `str.strip()`, `str.find`, `str.split` with a literal
    separator, and a case-insensitive literal match. */
module Scanners {

  datatype Option<T> = None | Some(value: T)

  /** One octet, as read from or written to a socket. */
  newtype byte = x: int | 0 <= x < 256

  /** Python's whitespace: what `\s` matches in a `str` pattern and what
      `str.strip()` removes (U+0009..U+000D, U+001C..U+0020, U+0085, U+00A0,
      U+1680, U+2000..U+200A, U+2028, U+2029, U+202F, U+205F, U+3000). */
  predicate IsSpace(c: char) {
    ('\t' <= c <= '\r') || ('\U{1C}' <= c <= ' ') || c == '\U{85}' || c == '\U{A0}'
    || c == '\U{1680}' || ('\U{2000}' <= c <= '\U{200A}') || c == '\U{2028}'
    || c == '\U{2029}' || c == '\U{202F}' || c == '\U{205F}' || c == '\U{3000}'
  }

  predicate AllSpace(s: string) {
    forall i :: 0 <= i < |s| ==> IsSpace(s[i])
  }

  /** No leading and no trailing whitespace. */
  predicate IsTrimmed(s: string) {
    s == [] || (!IsSpace(s[0]) && !IsSpace(s[|s| - 1]))
  }

  /** The first index at or after `i` that holds a non-space character, or `|s|`. */
  function SkipSpaces(s: string, i: nat): (j: nat)
    requires i <= |s|
    ensures i <= j <= |s|
    ensures forall k :: i <= k < j ==> IsSpace(s[k])
    ensures j < |s| ==> !IsSpace(s[j])
    decreases |s| - i
  {
    if i < |s| && IsSpace(s[i]) then SkipSpaces(s, i + 1) else i
  }

  /** The first index at or after `i` that holds a space character, or `|s|`. */
  function SkipNonSpaces(s: string, i: nat): (j: nat)
    requires i <= |s|
    ensures i <= j <= |s|
    ensures forall k :: i <= k < j ==> !IsSpace(s[k])
    ensures j < |s| ==> IsSpace(s[j])
    decreases |s| - i
  {
    if i < |s| && !IsSpace(s[i]) then SkipNonSpaces(s, i + 1) else i
  }

  /** The first index at or after `i` whose character is in `stop`, or `|s|`:
      the end of what a greedy `[^stop]*` consumes from `i`. */
  function RunEnd(s: string, i: nat, stop: set<char>): (j: nat)
    requires i <= |s|
    ensures i <= j <= |s|
    ensures forall k :: i <= k < j ==> s[k] !in stop
    ensures j < |s| ==> s[j] in stop
    decreases |s| - i
  {
    if i < |s| && s[i] !in stop then RunEnd(s, i + 1, stop) else i
  }

  /** The largest index in `[lo, hi)` whose character is not in `stop`, if any. */
  function LastOutside(s: string, lo: nat, hi: nat, stop: set<char>): (r: Option<nat>)
    requires lo <= hi <= |s|
    ensures r.Some? ==> lo <= r.value < hi && s[r.value] !in stop
                        && forall k :: r.value < k < hi ==> s[k] in stop
    ensures r.None? ==> forall k :: lo <= k < hi ==> s[k] in stop
    decreases hi - lo
  {
    if lo == hi then None
    else if s[hi - 1] !in stop then Some(hi - 1)
    else LastOutside(s, lo, hi - 1, stop)
  }

  /** The index just past the last non-space character in `[lo, hi)`, or `lo`. */
  function TextEnd(s: string, lo: nat, hi: nat): (j: nat)
    requires lo <= hi <= |s|
    ensures lo <= j <= hi
    ensures forall k :: j <= k < hi ==> IsSpace(s[k])
    ensures j > lo ==> !IsSpace(s[j - 1])
    decreases hi - lo
  {
    if lo < hi && IsSpace(s[hi - 1]) then TextEnd(s, lo, hi - 1) else hi
  }

  /** `str.strip()` with no argument. */
  function Strip(s: string): (r: string)
    ensures |r| <= |s|
    ensures IsTrimmed(r)
    ensures r == [] <==> AllSpace(s)
    ensures forall c :: c in r ==> c in s
    ensures IsTrimmed(s) ==> r == s
  {
    var i := SkipSpaces(s, 0);
    var j := TextEnd(s, i, |s|);
    assert forall c :: c in s[i..j] ==> c in s by {
      forall c | c in s[i..j] ensures c in s {
        var k :| 0 <= k < j - i && s[i..j][k] == c;
        assert s[i + k] == c;
      }
    }
    assert IsTrimmed(s) && s != [] ==> i == 0 && j == |s|;
    s[i..j]
  }

  /** `Strip(s)` is a piece of `s` with only whitespace on either side. */
  lemma StripIsInfix(s: string)
    ensures exists i :: 0 <= i <= |s| - |Strip(s)| && Strip(s) == s[i..i + |Strip(s)|]
                        && AllSpace(s[..i]) && AllSpace(s[i + |Strip(s)|..])
  {
    var i := SkipSpaces(s, 0);
    var j := TextEnd(s, i, |s|);
    assert Strip(s) == s[i..j];
    assert AllSpace(s[..i]);
    assert AllSpace(s[j..]);
  }

  /** Whitespace in front moves the first non-space character by its length. */
  lemma SkipSpacesAfter(w: string, t: string)
    requires AllSpace(w)
    ensures SkipSpaces(w + t, 0) == |w| + SkipSpaces(t, 0)
  {
    var s := w + t;
    var m := |w| + SkipSpaces(t, 0);
    var i := SkipSpaces(s, 0);
    forall k | 0 <= k < m ensures IsSpace(s[k]) {
      if k < |w| { assert s[k] == w[k]; } else { assert s[k] == t[k - |w|]; }
    }
    if m < |s| { assert s[m] == t[m - |w|]; }
    assert !(i < m);
  }

  /** `t` is what follows the first `d` elements of `s`. */
  predicate EndsWith(s: string, d: nat, t: string) {
    |s| == d + |t| && forall k :: 0 <= k < |t| ==> s[d + k] == t[k]
  }

  /** A concatenation ends with its second piece. */
  lemma EndsWithConcat(x: string, t: string)
    ensures EndsWith(x + t, |x|, t)
  {
  }

  /** What occurs in the tail of `s` occurs in `s`, `d` further on. */
  lemma OccursInTail(s: string, d: nat, t: string, i: nat, v: string)
    requires EndsWith(s, d, t) && OccursAt(t, v, i)
    ensures OccursAt(s, v, d + i)
  {
    forall k | 0 <= k < |v| ensures s[d + i..d + i + |v|][k] == v[k] {
      assert s[d + i + k] == t[i + k] == t[i..i + |v|][k];
    }
  }

  /** Text after `d` further elements ends `d` later. */
  lemma TextEndShift(s: string, d: nat, t: string, i: nat)
    requires EndsWith(s, d, t) && i <= |t|
    ensures TextEnd(s, d + i, |s|) == d + TextEnd(t, i, |t|)
  {
    var m := d + TextEnd(t, i, |t|);
    var j := TextEnd(s, d + i, |s|);
    forall k | m <= k < |s| ensures IsSpace(s[k]) { assert s[k] == t[k - d]; }
    if m > d + i { assert s[m - 1] == t[m - 1 - d]; }
    if j > d + i { assert s[j - 1] == t[j - 1 - d]; }
  }

  /** `Strip` in terms of the two ends it finds. */
  lemma StripBetween(s: string, i: nat, j: nat)
    requires i == SkipSpaces(s, 0) && j == TextEnd(s, i, |s|)
    ensures Strip(s) == s[i..j]
  {
  }

  /** When the text of `s` starts `d` later than that of the `t` it ends
      with, it is the same text. */
  lemma TextShift(s: string, d: nat, t: string, i: nat, j: nat)
    requires EndsWith(s, d, t) && SkipSpaces(s, 0) == d + i
    requires i == SkipSpaces(t, 0) && j == TextEnd(t, i, |t|)
    ensures TextEnd(s, d + i, |s|) == d + j && s[d + i..d + j] == t[i..j]
  {
    TextEndShift(s, d, t, i);
    forall k | 0 <= k < j - i ensures s[d + i..d + j][k] == t[i..j][k] {
      assert s[d + i + k] == t[i + k];
    }
  }

  /** Whitespace in front does not change what `str.strip()` returns. */
  lemma StripAfterSpace(w: string, t: string)
    requires AllSpace(w)
    ensures Strip(w + t) == Strip(t)
  {
    var s := w + t;
    var i := SkipSpaces(t, 0);
    var j := TextEnd(t, i, |t|);
    SkipSpacesAfter(w, t);
    assert EndsWith(s, |w|, t);
    TextShift(s, |w|, t, i, j);
    StripBetween(s, |w| + i, |w| + j);
    StripBetween(t, i, j);
  }

  /** `pat` occurs in `s` starting at index `k`. */
  predicate OccursAt<T(==)>(s: seq<T>, pat: seq<T>, k: int) {
    0 <= k && k + |pat| <= |s| && s[k..k + |pat|] == pat
  }

  /** Python's `pat in s`. */
  predicate Contains<T(==)>(s: seq<T>, pat: seq<T>) {
    exists k :: 0 <= k <= |s| - |pat| && OccursAt(s, pat, k)
  }

  /** Python's `s.startswith(pat)`. */
  predicate StartsWith<T(==)>(s: seq<T>, pat: seq<T>) {
    |pat| <= |s| && s[..|pat|] == pat
  }

  /** The lowest index at or after `i` where `pat` occurs in `s`. */
  function FindFrom<T(==)>(s: seq<T>, pat: seq<T>, i: nat): (r: Option<nat>)
    ensures r.Some? ==> i <= r.value && OccursAt(s, pat, r.value)
                        && forall k :: i <= k < r.value ==> !OccursAt(s, pat, k)
    ensures r.None? ==> forall k :: i <= k ==> !OccursAt(s, pat, k)
    decreases |s| - i
  {
    if i + |pat| > |s| then None
    else if s[i..i + |pat|] == pat then Some(i)
    else FindFrom(s, pat, i + 1)
  }

  /** Python's `s.find(pat)`, with `None` for -1. */
  function Find<T(==)>(s: seq<T>, pat: seq<T>): (r: Option<nat>)
    ensures r.Some? <==> Contains(s, pat)
    ensures r.Some? ==> OccursAt(s, pat, r.value) && forall k :: 0 <= k < r.value ==> !OccursAt(s, pat, k)
  {
    FindFrom(s, pat, 0)
  }

  /** The lowest index at or after `i` that holds a `Some`. */
  function FirstSome<T>(c: seq<Option<T>>, i: nat): (r: Option<nat>)
    ensures r.Some? ==> i <= r.value < |c| && c[r.value].Some?
                        && forall k :: i <= k < r.value ==> c[k].None?
    ensures r.None? ==> forall k :: i <= k < |c| ==> c[k].None?
    decreases |c| - i
  {
    if i >= |c| then None
    else if c[i].Some? then Some(i)
    else FirstSome(c, i + 1)
  }

  /** The parts rejoined with the separator between consecutive ones. */
  function Join<T>(parts: seq<seq<T>>, d: seq<T>): seq<T>
    decreases |parts|
  {
    if parts == [] then []
    else if |parts| == 1 then parts[0]
    else parts[0] + d + Join(parts[1..], d)
  }

  /** Python's `s.split(d)` for a non-empty literal separator: cut at each
      leftmost, non-overlapping occurrence of `d`. */
  function Split<T(==)>(s: seq<T>, d: seq<T>): (parts: seq<seq<T>>)
    requires |d| > 0
    ensures |parts| > 0
    decreases |s|
  {
    match Find(s, d)
    case None => [s]
    case Some(k) => [s[..k]] + Split(s[k + |d|..], d)
  }

  /** An occurrence inside a prefix is an occurrence in the whole sequence. */
  lemma OccursInPrefix<T>(s: seq<T>, n: nat, pat: seq<T>, k: int)
    requires n <= |s| && OccursAt(s[..n], pat, k)
    ensures OccursAt(s, pat, k)
  {
    assert s[..n][k..k + |pat|] == s[k..k + |pat|];
  }

  /** Joining the parts of a split gives back the original sequence. */
  lemma {:induction false} SplitJoin<T>(s: seq<T>, d: seq<T>)
    requires |d| > 0
    ensures Join(Split(s, d), d) == s
    decreases |s|
  {
    match Find(s, d)
    case None =>
    case Some(k) =>
      var rest := s[k + |d|..];
      SplitJoin(rest, d);
      var tail := Split(rest, d);
      assert Split(s, d) == [s[..k]] + tail;
      assert ([s[..k]] + tail)[1..] == tail;
      assert s[k..k + |d|] == d;
      assert s == s[..k] + s[k..k + |d|] + rest;
  }

  /** No part of a split contains the separator. */
  lemma {:induction false} SplitPartsFree<T>(s: seq<T>, d: seq<T>)
    requires |d| > 0
    ensures forall i :: 0 <= i < |Split(s, d)| ==> !Contains(Split(s, d)[i], d)
    decreases |s|
  {
    match Find(s, d)
    case None =>
    case Some(k) =>
      var rest := s[k + |d|..];
      SplitPartsFree(rest, d);
      var tail := Split(rest, d);
      var parts := Split(s, d);
      assert parts == [s[..k]] + tail;
      forall j | 0 <= j < |parts| ensures !Contains(parts[j], d) {
        if j == 0 {
          if Contains(s[..k], d) {
            var m :| 0 <= m <= k - |d| && OccursAt(s[..k], d, m);
            OccursInPrefix(s, k, d, m);
          }
        } else {
          assert parts[j] == tail[j - 1];
        }
      }
  }

  /** The first occurrence of `d` in `s` is also the first one in the
      prefix of `s` that ends with it. */
  lemma FindAtCut<T>(s: seq<T>, d: seq<T>, k: nat)
    requires Find(s, d) == Some(k)
    ensures Find(s[..k] + d, d) == Some(k)
  {
    var t := s[..k] + d;
    assert t == s[..k + |d|];
    assert OccursAt(t, d, k);
    forall m | 0 <= m < k ensures !OccursAt(t, d, m) {
      if OccursAt(t, d, m) { OccursInPrefix(s, k + |d|, d, m); }
    }
  }

  /** Every cut is at the leftmost occurrence of the separator: put back in
      front of the separator, a part meets it first at its own end. */
  lemma {:induction false} SplitCutsLeftmost<T>(s: seq<T>, d: seq<T>)
    requires |d| > 0
    ensures forall i :: 0 <= i < |Split(s, d)| - 1 ==>
              Find(Split(s, d)[i] + d, d) == Some(|Split(s, d)[i]|)
    decreases |s|
  {
    match Find(s, d)
    case None =>
    case Some(k) =>
      var rest := s[k + |d|..];
      SplitCutsLeftmost(rest, d);
      var tail := Split(rest, d);
      var parts := Split(s, d);
      assert parts == [s[..k]] + tail;
      forall j | 0 <= j < |parts| - 1 ensures Find(parts[j] + d, d) == Some(|parts[j]|) {
        if j == 0 {
          FindAtCut(s, d, k);
        } else {
          assert parts[j] == tail[j - 1];
        }
      }
  }

  /** The first occurrence of `d` in `x` stays the first one when more
      follows `x`. */
  lemma FindInLonger<T>(x: seq<T>, y: seq<T>, d: seq<T>, k: nat)
    requires Find(x, d) == Some(k)
    ensures Find(x + y, d) == Some(k)
  {
    var s := x + y;
    assert s[k..k + |d|] == x[k..k + |d|];
    assert OccursAt(s, d, k);
    forall m | 0 <= m < k ensures !OccursAt(s, d, m) {
      if OccursAt(s, d, m) {
        assert s[m..m + |d|] == x[m..m + |d|];
        assert OccursAt(x, d, m);
      }
    }
  }

  /** A split cuts at the first occurrence of the separator. */
  lemma SplitAtFirst<T>(s: seq<T>, d: seq<T>, k: nat)
    requires |d| > 0 && Find(s, d) == Some(k)
    ensures Split(s, d) == [s[..k]] + Split(s[k + |d|..], d)
  {
  }

  /** A part that meets the separator first at its own end is cut off
      whole, whatever follows the separator. */
  lemma SplitOfCut<T>(p: seq<T>, d: seq<T>, rest: seq<T>)
    requires |d| > 0 && Find(p + d, d) == Some(|p|)
    ensures Split(p + d + rest, d) == [p] + Split(rest, d)
  {
    var s := p + d + rest;
    FindInLonger(p + d, rest, d, |p|);
    assert s[..|p|] == p;
    assert s[|p| + |d|..] == rest;
    SplitAtFirst(s, d, |p|);
  }

  /** A sequence without the separator is split into itself alone. */
  lemma SplitWhole<T>(s: seq<T>, d: seq<T>)
    requires |d| > 0 && !Contains(s, d)
    ensures Split(s, d) == [s]
  {
  }

  /** Joining two or more parts puts the separator after the first one. */
  lemma JoinCons<T>(parts: seq<seq<T>>, d: seq<T>)
    requires |parts| > 1
    ensures Join(parts, d) == parts[0] + d + Join(parts[1..], d)
  {
  }

  /** The conditions of `SplitOfJoin` hold for all parts but the first. */
  lemma CutsOfTail<T>(parts: seq<seq<T>>, d: seq<T>)
    requires |parts| > 1 && !Contains(parts[|parts| - 1], d)
    requires forall i :: 0 <= i < |parts| - 1 ==> Find(parts[i] + d, d) == Some(|parts[i]|)
    ensures !Contains(parts[1..][|parts[1..]| - 1], d)
    ensures forall i :: 0 <= i < |parts[1..]| - 1 ==> Find(parts[1..][i] + d, d) == Some(|parts[1..][i]|)
  {
    var tail := parts[1..];
    assert tail[|tail| - 1] == parts[|parts| - 1];
    forall i | 0 <= i < |tail| - 1 ensures Find(tail[i] + d, d) == Some(|tail[i]|) {
      assert tail[i] == parts[i + 1];
    }
  }

  /** Splitting is the inverse of joining: parts that meet the separator
      only at their own ends, the last of them not at all, come back from
      the split of their join. */
  lemma {:induction false} SplitOfJoin<T>(parts: seq<seq<T>>, d: seq<T>)
    requires |d| > 0 && |parts| > 0 && !Contains(parts[|parts| - 1], d)
    requires forall i :: 0 <= i < |parts| - 1 ==> Find(parts[i] + d, d) == Some(|parts[i]|)
    ensures Split(Join(parts, d), d) == parts
    decreases |parts|
  {
    if |parts| == 1 {
      assert Join(parts, d) == parts[0];
      SplitWhole(parts[0], d);
    } else {
      var tail := parts[1..];
      JoinCons(parts, d);
      SplitOfCut(parts[0], d, Join(tail, d));
      CutsOfTail(parts, d);
      SplitOfJoin(tail, d);
      assert parts == [parts[0]] + tail;
    }
  }

  /** ASCII case folding of a single character. */
  function Lower(c: char): char {
    if 'A' <= c <= 'Z' then (c as int + 32) as char else c
  }

  /** `name` occurs at index `p` of `s`, ignoring the case of ASCII letters. */
  predicate LabelAt(s: string, name: string, p: nat) {
    p + |name| <= |s| && forall i :: 0 <= i < |name| ==> Lower(s[p + i]) == Lower(name[i])
  }
}
