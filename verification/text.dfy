/**
  String helpers shared by all four scripts. Characters are treated as ASCII:
  `Lower` folds only 'A'..'Z', and `IsSpace` is CPython's ASCII whitespace
  table, which both `str.strip()` and the regex class `\s` use.
 */
module Text {

  /** Whitespace as `str.isspace()` classifies ASCII characters. */
  predicate IsSpace(c: char) {
    c == ' ' || ('\t' <= c <= '\r') || ('\U{1C}' <= c <= '\U{1F}')
  }

  /** `str.lower()` restricted to ASCII. */
  function Lower(c: char): (r: char)
    ensures 'A' <= c <= 'Z' ==> r as int == c as int + 32
    ensures !('A' <= c <= 'Z') ==> r == c
    ensures !('A' <= r <= 'Z')
  {
    if 'A' <= c <= 'Z' then (c as int + 32) as char else c
  }

  function LowerStr(s: string): (r: string)
    ensures |r| == |s|
    ensures forall i :: 0 <= i < |s| ==> r[i] == Lower(s[i])
  {
    seq(|s|, i requires 0 <= i < |s| => Lower(s[i]))
  }

  lemma LowerStrIdempotent(s: string)
    ensures LowerStr(LowerStr(s)) == LowerStr(s)
  {
  }

  /** Number of leading characters of `s` that `drop` accepts. */
  function LeadingCount(s: string, drop: char -> bool): (n: nat)
    ensures n <= |s|
    ensures forall i :: 0 <= i < n ==> drop(s[i])
    ensures n < |s| ==> !drop(s[n])
  {
    if s != [] && drop(s[0]) then 1 + LeadingCount(s[1..], drop) else 0
  }

  /** Number of trailing characters of `s` that `drop` accepts. */
  function TrailingCount(s: string, drop: char -> bool): (n: nat)
    ensures n <= |s|
    ensures forall i :: |s| - n <= i < |s| ==> drop(s[i])
    ensures n < |s| ==> !drop(s[|s| - 1 - n])
  {
    if s != [] && drop(s[|s| - 1]) then 1 + TrailingCount(s[..|s| - 1], drop) else 0
  }

  /**
    `s.strip(chars)`: the longest middle slice of `s` whose first and last
    characters are kept; everything cut off on either side is dropped.
   */
  function Strip(s: string, drop: char -> bool): (r: string)
    ensures LeadingCount(s, drop) + |r| <= |s|
    ensures r == s[LeadingCount(s, drop)..LeadingCount(s, drop) + |r|]
    ensures forall i :: LeadingCount(s, drop) + |r| <= i < |s| ==> drop(s[i])
    ensures r != [] ==> !drop(r[0]) && !drop(r[|r| - 1])
    ensures r == [] <==> forall i :: 0 <= i < |s| ==> drop(s[i])
  {
    var t := s[LeadingCount(s, drop)..];
    t[..|t| - TrailingCount(t, drop)]
  }

  /** `s.strip()` with no argument. */
  function StripSpace(s: string): (r: string)
    ensures |r| <= |s|
    ensures r != [] ==> !IsSpace(r[0]) && !IsSpace(r[|r| - 1])
    ensures r == [] <==> forall i :: 0 <= i < |s| ==> IsSpace(s[i])
  {
    Strip(s, IsSpace)
  }

  /** A string with no whitespace at either end is its own strip. */
  lemma StripSpaceKeepsTrimmed(s: string)
    requires s != [] ==> !IsSpace(s[0]) && !IsSpace(s[|s| - 1])
    ensures StripSpace(s) == s
  {
    if s != [] {
      assert LeadingCount(s, IsSpace) == 0;
      assert TrailingCount(s, IsSpace) == 0;
    }
  }

  predicate AllSpace(s: string) {
    forall i :: 0 <= i < |s| ==> IsSpace(s[i])
  }

  /** Whitespace padding around a text with non-space ends is exactly what `strip()` removes. */
  lemma StripSpacePadded(pre: string, t: string, post: string)
    requires AllSpace(pre) && AllSpace(post)
    requires t != [] && !IsSpace(t[0]) && !IsSpace(t[|t| - 1])
    ensures StripSpace(pre + t + post) == t
  {
    var s := pre + t + post;
    PaddedLeading(pre, t, post);
    assert s[|pre|..] == t + post;
    PaddedTrailing(t, post);
    assert (t + post)[..|t|] == t;
  }

  lemma PaddedLeading(pre: string, t: string, post: string)
    requires AllSpace(pre) && t != [] && !IsSpace(t[0])
    ensures LeadingCount(pre + t + post, IsSpace) == |pre|
  {
    assert (pre + t + post)[|pre|] == t[0];
  }

  lemma PaddedTrailing(t: string, post: string)
    requires AllSpace(post) && t != [] && !IsSpace(t[|t| - 1])
    ensures TrailingCount(t + post, IsSpace) == |post|
  {
    assert (t + post)[|t| - 1] == t[|t| - 1];
  }

  /** The characters of `s` that `keep` accepts, in their order. */
  function Filter(s: string, keep: char -> bool): (r: string)
    ensures |r| <= |s|
    ensures forall i :: 0 <= i < |r| ==> keep(r[i])
  {
    if s == [] then [] else (if keep(s[0]) then [s[0]] else []) + Filter(s[1..], keep)
  }

  lemma {:induction false} FilterAppend(a: string, b: string, keep: char -> bool)
    ensures Filter(a + b, keep) == Filter(a, keep) + Filter(b, keep)
  {
    if a == [] {
      assert a + b == b;
    } else {
      var ab := a + b;
      assert ab[0] == a[0] && ab[1..] == a[1..] + b;
      var h := if keep(a[0]) then [a[0]] else [];
      assert Filter(ab, keep) == h + Filter(a[1..] + b, keep);
      FilterAppend(a[1..], b, keep);
      assert Filter(a, keep) == h + Filter(a[1..], keep);
    }
  }

  /** Texts that filter alike still filter alike behind a common prefix. */
  lemma FilterPrefixed(p: string, a: string, b: string, keep: char -> bool)
    requires Filter(a, keep) == Filter(b, keep)
    ensures Filter(p + a, keep) == Filter(p + b, keep)
  {
    FilterAppend(p, a, keep);
    FilterAppend(p, b, keep);
  }

  /** Two filters that agree on every character of `s` select the same characters. */
  lemma {:induction false} FilterSameChoice(s: string, keep: char -> bool, keep2: char -> bool)
    requires forall i :: 0 <= i < |s| ==> keep(s[i]) == keep2(s[i])
    ensures Filter(s, keep) == Filter(s, keep2)
  {
    if s != [] {
      assert forall i :: 0 <= i < |s| - 1 ==> s[1..][i] == s[i + 1];
      FilterSameChoice(s[1..], keep, keep2);
    }
  }

  /** A prefix the filter rejects does not contribute to the filtered text. */
  lemma FilterSkipsLeading(s: string, n: nat, keep: char -> bool)
    requires n <= |s|
    requires forall i :: 0 <= i < n ==> !keep(s[i])
    ensures Filter(s, keep) == Filter(s[n..], keep)
  {
    assert s == s[..n] + s[n..];
    FilterAppend(s[..n], s[n..], keep);
    FilterUniform(s[..n], keep);
  }

  /** A character survives the filter exactly when it occurs and is kept. */
  lemma {:induction false} FilterMembers(s: string, keep: char -> bool, c: char)
    ensures c in Filter(s, keep) <==> c in s && keep(c)
  {
    if s != [] {
      FilterMembers(s[1..], keep, c);
      assert s == [s[0]] + s[1..];
    }
  }

  /** Nothing is kept from a text whose characters are all rejected; everything from one whose characters are all kept. */
  lemma {:induction false} FilterUniform(s: string, keep: char -> bool)
    ensures (forall i :: 0 <= i < |s| ==> !keep(s[i])) ==> Filter(s, keep) == []
    ensures (forall i :: 0 <= i < |s| ==> keep(s[i])) ==> Filter(s, keep) == s
  {
    if s != [] {
      FilterUniform(s[1..], keep);
      assert forall i :: 0 <= i < |s| - 1 ==> s[1..][i] == s[i + 1];
      assert s == [s[0]] + s[1..];
    }
  }

  /** Two texts that agree wherever either has a kept character filter alike. */
  lemma {:induction false} FilterAgree(s: string, t: string, keep: char -> bool)
    requires |s| == |t|
    requires forall i :: 0 <= i < |s| && (keep(s[i]) || keep(t[i])) ==> s[i] == t[i]
    ensures Filter(s, keep) == Filter(t, keep)
  {
    if s != [] {
      assert forall i :: 0 <= i < |s| - 1 ==> s[1..][i] == s[i + 1] && t[1..][i] == t[i + 1];
      FilterAgree(s[1..], t[1..], keep);
    }
  }

  /** Padding the filter rejects on both sides leaves the filtered text unchanged. */
  lemma FilterPadded(head: string, mid: string, tail: string, keep: char -> bool)
    requires forall i :: 0 <= i < |head| ==> !keep(head[i])
    requires forall i :: 0 <= i < |tail| ==> !keep(tail[i])
    ensures Filter(head + mid + tail, keep) == Filter(mid, keep)
  {
    FilterAppend(head + mid, tail, keep);
    FilterAppend(head, mid, keep);
    FilterUniform(head, keep);
    FilterUniform(tail, keep);
  }

  /** Kept padding on both sides passes through the filter untouched. */
  lemma FilterFramed(head: string, mid: string, tail: string, keep: char -> bool)
    requires forall i :: 0 <= i < |head| ==> keep(head[i])
    requires forall i :: 0 <= i < |tail| ==> keep(tail[i])
    ensures Filter(head + mid + tail, keep) == head + Filter(mid, keep) + tail
  {
    FilterAppend(head + mid, tail, keep);
    FilterAppend(head, mid, keep);
    FilterUniform(head, keep);
    FilterUniform(tail, keep);
  }

  /** `Strip` cuts a run of dropped characters from each end and nothing else. */
  lemma StripSplit(s: string, drop: char -> bool) returns (head: string, tail: string)
    ensures forall i :: 0 <= i < |head| ==> drop(head[i])
    ensures forall i :: 0 <= i < |tail| ==> drop(tail[i])
    ensures s == head + Strip(s, drop) + tail
  {
    var r := Strip(s, drop);
    var n := LeadingCount(s, drop);
    var m := n + |r|;
    head, tail := s[..n], s[m..];
    assert r == s[n..m];
    assert s == s[..n] + s[n..m] + s[m..];
    assert forall i :: 0 <= i < |tail| ==> tail[i] == s[m + i];
  }

  /** Stripping only removes characters the filter rejects. */
  lemma StripFilter(s: string, drop: char -> bool, keep: char -> bool)
    requires forall c :: drop(c) ==> !keep(c)
    ensures Filter(Strip(s, drop), keep) == Filter(s, keep)
  {
    var head, tail := StripSplit(s, drop);
    FilterPadded(head, Strip(s, drop), tail, keep);
  }

  /** Stripping only removes characters: one missing from `s` is missing from the result. */
  lemma StripSpaceAvoids(s: string, c: char)
    requires c !in s
    ensures c !in StripSpace(s)
  {
    var r := StripSpace(s);
    var n := LeadingCount(s, IsSpace);
    assert r == s[n..n + |r|];
    assert forall i :: 0 <= i < |r| ==> r[i] == s[n + i];
  }

  /** `needle` occurs in `haystack` starting at index `i`. */
  predicate OccursAt(needle: string, haystack: string, i: int) {
    0 <= i <= |haystack| - |needle| && haystack[i..i + |needle|] == needle
  }

  /** Python's `needle in haystack` on strings. */
  predicate IsSubstring(needle: string, haystack: string) {
    exists i | 0 <= i <= |haystack| - |needle| :: OccursAt(needle, haystack, i)
  }

  lemma SubstringReflexive(s: string)
    ensures IsSubstring(s, s)
  {
    assert OccursAt(s, s, 0);
  }

  lemma EmptyIsSubstring(s: string)
    ensures IsSubstring("", s)
  {
    assert OccursAt("", s, 0);
  }

  /** Index of the first `c` in `s`, or `|s|` when there is none. */
  function IndexOfChar(s: string, c: char): (i: nat)
    ensures i <= |s|
    ensures i < |s| ==> s[i] == c
    ensures forall j :: 0 <= j < i ==> s[j] != c
    ensures i == |s| <==> c !in s
  {
    if s == [] then 0 else if s[0] == c then 0 else 1 + IndexOfChar(s[1..], c)
  }

  lemma IndexOfCharIs(s: string, c: char, i: nat)
    requires i <= |s|
    requires i < |s| ==> s[i] == c
    requires forall j :: 0 <= j < i ==> s[j] != c
    ensures IndexOfChar(s, c) == i
  {
  }

  /** `sep.join(parts)` for a one-character separator. */
  function JoinWith(parts: seq<string>, sep: char): string {
    if |parts| == 0 then ""
    else if |parts| == 1 then parts[0]
    else parts[0] + [sep] + JoinWith(parts[1..], sep)
  }

  /** A character missing from the joined string is missing from every piece. */
  lemma {:induction false} JoinWithOmits(parts: seq<string>, sep: char, k: nat, c: char)
    requires k < |parts| && c !in JoinWith(parts, sep)
    ensures c !in parts[k]
    decreases k
  {
    if |parts| > 1 {
      var joined := JoinWith(parts, sep);
      var tail := JoinWith(parts[1..], sep);
      assert joined == parts[0] + [sep] + tail;
      if k == 0 {
        assert forall i :: 0 <= i < |parts[0]| ==> parts[0][i] == joined[i];
      } else {
        assert forall i :: 0 <= i < |tail| ==> tail[i] == joined[|parts[0]| + 1 + i];
        JoinWithOmits(parts[1..], sep, k - 1, c);
        assert parts[1..][k - 1] == parts[k];
      }
    }
  }

  /** A character in no piece and other than the separator is not in the joined string. */
  lemma {:induction false} JoinWithAvoids(parts: seq<string>, sep: char, c: char)
    requires c != sep
    requires forall k :: 0 <= k < |parts| ==> c !in parts[k]
    ensures c !in JoinWith(parts, sep)
    decreases |parts|
  {
    if |parts| > 1 {
      JoinWithAvoids(parts[1..], sep, c);
    }
  }

  /** The joined string starts with the first piece and ends with the last one. */
  lemma {:induction false} JoinWithEnds(parts: seq<string>, sep: char)
    requires |parts| >= 1 && forall k :: 0 <= k < |parts| ==> parts[k] != []
    ensures var s := JoinWith(parts, sep);
      s != [] && s[0] == parts[0][0] && s[|s| - 1] == parts[|parts| - 1][|parts[|parts| - 1]| - 1]
    decreases |parts|
  {
    if |parts| > 1 {
      JoinWithEnds(parts[1..], sep);
    }
  }

  /** A string is the part before position `i`, the character there, and the part after. */
  lemma SliceAround(s: string, i: nat)
    requires i < |s|
    ensures s == s[..i] + [s[i]] + s[i + 1..]
  {
  }

  /** `s.split(sep)`: the pieces between separators, empty pieces included. */
  function SplitOn(s: string, sep: char): (parts: seq<string>)
    ensures |parts| >= 1
    ensures forall i :: 0 <= i < |parts| ==> sep !in parts[i]
    ensures JoinWith(parts, sep) == s
    ensures |parts| == 1 <==> sep !in s
    decreases |s|
  {
    var i := IndexOfChar(s, sep);
    if i == |s| then [s]
    else
      var head := s[..i];
      var rest := SplitOn(s[i + 1..], sep);
      var parts := [head] + rest;
      assert sep !in head by {
        forall j | 0 <= j < |head|
          ensures head[j] != sep
        {
          assert head[j] == s[j];
        }
      }
      assert parts[0] == head && parts[1..] == rest;
      assert forall k :: 1 <= k < |parts| ==> parts[k] == rest[k - 1];
      assert JoinWith(parts, sep) == head + [sep] + JoinWith(rest, sep);
      SliceAround(s, i);
      parts
  }

  /** Splitting undoes joining whenever no piece contains the separator. */
  lemma {:induction false} SplitJoinRoundTrip(parts: seq<string>, sep: char)
    requires |parts| >= 1
    requires forall i :: 0 <= i < |parts| ==> sep !in parts[i]
    ensures SplitOn(JoinWith(parts, sep), sep) == parts
    decreases |parts|
  {
    if |parts| > 1 {
      var tail := JoinWith(parts[1..], sep);
      SplitFirst(parts[0], sep, tail);
      SplitJoinRoundTrip(parts[1..], sep);
      assert parts == [parts[0]] + parts[1..];
    }
  }

  /** Splitting `head + sep + tail` cuts at the end of a separator-free `head`. */
  lemma SplitFirst(head: string, sep: char, tail: string)
    requires sep !in head
    ensures SplitOn(head + [sep] + tail, sep) == [head] + SplitOn(tail, sep)
  {
    var s := head + [sep] + tail;
    var i := IndexOfChar(s, sep);
    assert s[|head|] == sep;
    assert i == |head| by {
      assert forall j :: 0 <= j < |head| ==> s[j] == head[j];
    }
    assert s[..i] == head;
    assert s[i + 1..] == tail;
  }
}
