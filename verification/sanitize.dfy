/**
  `sanitize_name` from createfile.py: turns a catalogue name into a directory
  name Windows accepts. The four steps, in order: reserved characters become
  spaces, every whitespace run becomes one space, edge whitespace is
  stripped, then edge dots are stripped; an empty result becomes "Unnamed".
 */
module Sanitize {
  import opened Text

  /** INVALID_WIN_CHARS: `< > : " / \ | ? *`. */
  predicate IsReserved(c: char) {
    c == '<' || c == '>' || c == ':' || c == '"' || c == '/' || c == '\\'
    || c == '|' || c == '?' || c == '*'
  }

  predicate IsDot(c: char) {
    c == '.'
  }

  const Placeholder: string := "Unnamed"

  ghost predicate NoReserved(s: string) {
    forall i :: 0 <= i < |s| ==> !IsReserved(s[i])
  }

  /** Every whitespace character is a plain space. */
  ghost predicate PlainSpaces(s: string) {
    forall i :: 0 <= i < |s| && IsSpace(s[i]) ==> s[i] == ' '
  }

  /** No two adjacent whitespace characters. */
  ghost predicate NoDoubleSpace(s: string) {
    forall i, j :: 0 <= i < j < |s| && j == i + 1 ==> !(IsSpace(s[i]) && IsSpace(s[j]))
  }

  /** Every character of `r` is a space or occurs in `name`. */
  ghost predicate DrawsFrom(r: string, name: string) {
    forall i :: 0 <= i < |r| ==> r[i] == ' ' || r[i] in name
  }

  /** Only whitespace and reserved characters. */
  ghost predicate IsBlank(name: string) {
    forall i :: 0 <= i < |name| ==> IsSpace(name[i]) || IsReserved(name[i])
  }

  ghost predicate AllDots(name: string) {
    forall i :: 0 <= i < |name| ==> name[i] == '.'
  }

  /** The shape every sanitised name has. */
  ghost predicate WindowsSafe(s: string) {
    && s != []
    && NoReserved(s)
    && PlainSpaces(s)
    && NoDoubleSpace(s)
    && s[0] != '.' && s[|s| - 1] != '.'
  }

  /** The position-by-position part of the shape, with every character a space or one of `name`'s. */
  ghost predicate Shaped(s: string, name: string) {
    NoReserved(s) && PlainSpaces(s) && NoDoubleSpace(s) && DrawsFrom(s, name)
  }

  /** `INVALID_WIN_CHARS.sub(" ", name)`. */
  function ReplaceReserved(s: string): (r: string)
    ensures |r| == |s|
    ensures NoReserved(r)
    ensures forall i :: 0 <= i < |s| && !IsReserved(s[i]) ==> r[i] == s[i]
    ensures forall i :: 0 <= i < |s| && IsReserved(s[i]) ==> r[i] == ' '
  {
    seq(|s|, i requires 0 <= i < |s| => if IsReserved(s[i]) then ' ' else s[i])
  }

  /** `re.sub(r"\s+", " ", s)`: each maximal whitespace run becomes one space. */
  function CollapseSpaces(s: string): (r: string)
    ensures PlainSpaces(r) && NoDoubleSpace(r)
    ensures DrawsFrom(r, s)
    ensures r == [] <==> s == []
    ensures s != [] && !IsSpace(s[0]) ==> r[0] == s[0]
    ensures s != [] && IsSpace(s[0]) ==> r[0] == ' '
    decreases |s|
  {
    if s == [] then []
    else if IsSpace(s[0]) then [' '] + CollapseSpaces(s[LeadingCount(s, IsSpace)..])
    else [s[0]] + CollapseSpaces(s[1..])
  }

  /** The name before the "Unnamed" fallback: `... .strip().strip(".")`. */
  function Clean(name: string): string {
    Strip(StripSpace(CollapseSpaces(ReplaceReserved(name))), IsDot)
  }

  function SanitizeName(name: string): (r: string)
    ensures WindowsSafe(r)
    ensures r == Placeholder || DrawsFrom(r, name)
    ensures IsBlank(name) ==> r == Placeholder
    ensures AllDots(name) ==> r == Placeholder
  {
    var c := Clean(name);
    PlaceholderIsSafe();
    CleanIsSafe(name);
    BlankCleansToEmpty(name);
    DotsCleanToEmpty(name);
    if c == [] then Placeholder else c
  }

  lemma PlaceholderIsSafe()
    ensures WindowsSafe(Placeholder)
  {
    var p := Placeholder;
    assert forall i :: 0 <= i < |p| ==> p[i] in "Unamed";
  }

  /** The collapsed string already has the shape, and draws its characters from `name` or spaces. */
  lemma CollapsedShape(name: string)
    ensures Shaped(CollapseSpaces(ReplaceReserved(name)), name)
  {
    var a := ReplaceReserved(name);
    var b := CollapseSpaces(a);
    forall i | 0 <= i < |b|
      ensures !IsReserved(b[i]) && (b[i] == ' ' || b[i] in name)
    {
      if b[i] != ' ' {
        var j :| 0 <= j < |a| && a[j] == b[i];
        assert a[j] == name[j];
      }
    }
  }

  /** A slice keeps every shape property that holds position by position. */
  lemma SliceShape(b: string, k: nat, c: string, name: string)
    requires k + |c| <= |b| && c == b[k..k + |c|]
    requires NoReserved(b) && PlainSpaces(b) && NoDoubleSpace(b)
    requires DrawsFrom(b, name)
    ensures NoReserved(c) && PlainSpaces(c) && NoDoubleSpace(c)
    ensures DrawsFrom(c, name)
  {
    assert forall i :: 0 <= i < |c| ==> c[i] == b[k + i];
  }

  /** Stripping keeps every shape property that holds position by position. */
  lemma StripShape(s: string, drop: char -> bool, name: string)
    requires Shaped(s, name)
    ensures Shaped(Strip(s, drop), name)
  {
    SliceShape(s, LeadingCount(s, drop), Strip(s, drop), name);
  }

  /** `Clean` is a slice of the collapsed string, so it inherits its shape. */
  lemma CleanIsSafe(name: string)
    ensures var c := Clean(name);
      && NoReserved(c) && PlainSpaces(c) && NoDoubleSpace(c)
      && (c != [] ==> c[0] != '.' && c[|c| - 1] != '.')
      && DrawsFrom(c, name)
  {
    var b := CollapseSpaces(ReplaceReserved(name));
    var d := StripSpace(b);
    CollapsedShape(name);
    StripShape(b, IsSpace, name);
    assert d == Strip(b, IsSpace);
    StripShape(d, IsDot, name);
    var c := Strip(d, IsDot);
    assert c == Clean(name);
    assert Shaped(c, name);
  }

  /** Names made only of whitespace and reserved characters clean to nothing. */
  lemma BlankCleansToEmpty(name: string)
    ensures IsBlank(name) ==> Clean(name) == []
  {
    if IsBlank(name) {
      var a := ReplaceReserved(name);
      var b := CollapseSpaces(a);
      assert forall i :: 0 <= i < |a| ==> IsSpace(a[i]);
      assert forall i :: 0 <= i < |b| ==> IsSpace(b[i]);
    }
  }

  /** Names made only of dots clean to nothing. */
  lemma DotsCleanToEmpty(name: string)
    ensures AllDots(name) ==> Clean(name) == []
  {
    if AllDots(name) {
      assert ReplaceReserved(name) == name;
      DotsCollapse(name);
      StripSpaceKeepsTrimmed(name);
      assert forall i :: 0 <= i < |name| ==> IsDot(name[i]);
    }
  }

  /** A string without whitespace passes through the whitespace collapse unchanged. */
  lemma {:induction false} DotsCollapse(s: string)
    requires forall i :: 0 <= i < |s| ==> s[i] == '.'
    ensures CollapseSpaces(s) == s
    decreases |s|
  {
    if s != [] {
      DotsCollapse(s[1..]);
    }
  }

  /** A string already in collapsed form passes through the collapse unchanged. */
  lemma {:induction false} CollapseKeepsCollapsed(s: string)
    requires PlainSpaces(s) && NoDoubleSpace(s)
    ensures CollapseSpaces(s) == s
    decreases |s|
  {
    if s != [] {
      var t := s[1..];
      assert PlainSpaces(t) by {
        forall i | 0 <= i < |t| && IsSpace(t[i])
          ensures t[i] == ' '
        {
          assert t[i] == s[i + 1];
        }
      }
      assert NoDoubleSpace(t) by {
        forall i, j | 0 <= i < j < |t| && j == i + 1
          ensures !(IsSpace(t[i]) && IsSpace(t[j]))
        {
          assert t[i] == s[i + 1] && t[j] == s[j + 1];
        }
      }
      CollapseKeepsCollapsed(t);
      if IsSpace(s[0]) {
        if |s| > 1 {
          assert !IsSpace(s[1]);
          assert LeadingCount(t, IsSpace) == 0;
        }
        assert LeadingCount(s, IsSpace) == 1;
        assert CollapseSpaces(s) == [' '] + CollapseSpaces(t);
      } else {
        assert CollapseSpaces(s) == [s[0]] + CollapseSpaces(t);
      }
      assert s == [s[0]] + t;
    }
  }

  /** Stripping a string whose edge characters are kept is the identity. */
  lemma StripKeeps(s: string, drop: char -> bool)
    requires s != [] && !drop(s[0]) && !drop(s[|s| - 1])
    ensures Strip(s, drop) == s
  {
    var r := Strip(s, drop);
    assert LeadingCount(s, drop) == 0;
    assert !drop(s[|s| - 1]);
  }

  /**
    A name that is already Windows-safe and has no edge whitespace is its own
    sanitised form.
   */
  lemma SanitizeKeepsSafeNames(name: string)
    requires WindowsSafe(name)
    requires !IsSpace(name[0]) && !IsSpace(name[|name| - 1])
    ensures SanitizeName(name) == name
  {
    assert ReplaceReserved(name) == name;
    CollapseKeepsCollapsed(name);
    StripKeeps(name, IsSpace);
    StripKeeps(name, IsDot);
  }

  /**
    Sanitising twice changes nothing when the first result has no
    edge whitespace; edge whitespace survives the first pass (see below).
   */
  lemma SanitizeIdempotentWithoutEdgeSpace(name: string)
    requires var r := SanitizeName(name); !IsSpace(r[0]) && !IsSpace(r[|r| - 1])
    ensures SanitizeName(SanitizeName(name)) == SanitizeName(name)
  {
    SanitizeKeepsSafeNames(SanitizeName(name));
  }

  /** Stripping removes one dropped character that follows a kept edge. */
  lemma StripDropsLast(x: string, c: char, drop: char -> bool)
    requires x != [] && !drop(x[0]) && !drop(x[|x| - 1]) && drop(c)
    ensures Strip(x + [c], drop) == x
  {
    var s := x + [c];
    var r := Strip(s, drop);
    assert s[0] == x[0] && s[|x| - 1] == x[|x| - 1] && s[|x|] == c;
    assert LeadingCount(s, drop) == 0;
    assert r != [];
    assert |r| == |x|;
    assert r == s[..|x|];
  }

  /** `sanitize_name` is not idempotent: a space exposed by stripping a dot survives one pass. */
  lemma SanitizeNotIdempotent()
    ensures SanitizeName("a .") == "a "
    ensures SanitizeName("a ") == "a"
  {
    CleanOfADotted("a .");
    CleanOfATrailingSpace("a ");
  }

  /** A name already in collapsed form with no edge whitespace is cleaned by the dot strip alone. */
  lemma CleanOfTrimmed(s: string)
    requires NoReserved(s) && PlainSpaces(s) && NoDoubleSpace(s)
    requires s != [] && !IsSpace(s[0]) && !IsSpace(s[|s| - 1])
    ensures Clean(s) == Strip(s, IsDot)
  {
    assert ReplaceReserved(s) == s;
    CollapseKeepsCollapsed(s);
    StripKeeps(s, IsSpace);
  }

  lemma CleanOfADotted(s: string)
    requires s == "a ."
    ensures Clean(s) == "a "
  {
    ADottedShape(s);
    CleanOfTrimmed(s);
    StripDropsLast("a ", '.', IsDot);
  }

  lemma ADottedShape(s: string)
    requires s == "a ."
    ensures NoReserved(s) && PlainSpaces(s) && NoDoubleSpace(s)
    ensures !IsSpace(s[0]) && !IsSpace(s[|s| - 1])
    ensures s == "a " + ['.']
  {
    assert forall i :: 0 <= i < |s| ==> s[i] in "a .";
    assert !IsSpace(s[0]) && !IsSpace(s[2]);
  }

  lemma CleanOfATrailingSpace(s: string)
    requires s == "a "
    ensures Clean(s) == "a"
  {
    assert ReplaceReserved(s) == s by {
      assert forall i :: 0 <= i < |s| ==> !IsReserved(s[i]);
    }
    assert PlainSpaces(s) && NoDoubleSpace(s) by {
      assert !IsSpace(s[0]);
    }
    CollapseKeepsCollapsed(s);
    var x := "a";
    assert s == x + [' '];
    StripDropsLast(x, ' ', IsSpace);
    StripKeeps(x, IsDot);
  }

  lemma SanitizeReplacesReserved()
    ensures SanitizeName("a/b:c") == "a b c"
  {
    ReplacedExample("a/b:c", "a b c");
  }

  /** The steps of `SanitizeReplacesReserved`: the two reserved characters become single spaces. */
  lemma ReplacedExample(s: string, t: string)
    requires s == "a/b:c" && t == "a b c"
    ensures Clean(s) == t
  {
    ReplacedShape(s, t);
    assert ReplaceReserved(t) == t;
    CleanOfTrimmed(t);
    StripKeeps(t, IsDot);
  }

  lemma ReplacedShape(s: string, t: string)
    requires s == "a/b:c" && t == "a b c"
    ensures ReplaceReserved(s) == t
    ensures NoReserved(t) && PlainSpaces(t) && NoDoubleSpace(t)
    ensures !IsSpace(t[0]) && !IsSpace(t[|t| - 1]) && !IsDot(t[0]) && !IsDot(t[|t| - 1])
  {
    assert IsReserved(s[1]) && IsReserved(s[3]);
    assert !IsReserved(s[0]) && !IsReserved(s[2]) && !IsReserved(s[4]);
    assert forall i :: 0 <= i < |t| ==> t[i] in "a bc";
    assert !IsSpace(t[0]) && !IsSpace(t[2]) && !IsSpace(t[4]);
  }

  lemma SanitizeFallsBack()
    ensures SanitizeName("   ") == "Unnamed"
    ensures SanitizeName("...") == "Unnamed"
  {
    var blank := "   ";
    assert forall i :: 0 <= i < |blank| ==> IsSpace(blank[i]);
    var dots := "...";
    assert forall i :: 0 <= i < |dots| ==> dots[i] == '.';
  }

  lemma SanitizeKeepsPlainName()
    ensures SanitizeName("Lucky7") == "Lucky7"
  {
    var t := "Lucky7";
    assert forall i :: 0 <= i < |t| ==> !IsReserved(t[i]) && !IsSpace(t[i]);
    SanitizeKeepsSafeNames(t);
  }

  lemma SanitizeKeepsSlots()
    ensures SanitizeName("Slots") == "Slots"
  {
    var u := "Slots";
    assert forall i :: 0 <= i < |u| ==> !IsReserved(u[i]) && !IsSpace(u[i]);
    SanitizeKeepsSafeNames(u);
  }

  /** A character that survives sanitising wherever it sits: neither whitespace nor reserved. */
  predicate IsVisible(c: char) {
    !IsSpace(c) && !IsReserved(c)
  }

  /** The visible characters of `s`, in order. */
  function Visible(s: string): (r: string)
    ensures |r| <= |s|
    ensures forall i :: 0 <= i < |r| ==> IsVisible(r[i])
  {
    Filter(s, IsVisible)
  }

  /**
    Character-at-a-time reading of `re.sub(r"\s+", " ", s)`: a whitespace
    character emits a space unless the previous character was whitespace too.
   */
  function Squeeze(s: string, afterSpace: bool): string
    decreases |s|
  {
    if s == [] then []
    else if IsSpace(s[0]) then (if afterSpace then [] else [' ']) + Squeeze(s[1..], true)
    else [s[0]] + Squeeze(s[1..], false)
  }

  /** Inside a whitespace run the character-at-a-time reading emits nothing until the run ends. */
  lemma {:induction false} SqueezeSkipsRun(t: string)
    ensures Squeeze(t, true) == Squeeze(t[LeadingCount(t, IsSpace)..], false)
    decreases |t|
  {
    if t != [] && IsSpace(t[0]) {
      SqueezeSkipsRun(t[1..]);
      assert t[1..][LeadingCount(t[1..], IsSpace)..] == t[LeadingCount(t, IsSpace)..];
    }
  }

  /** The run-skipping collapse agrees with the character-at-a-time reading on every string. */
  lemma {:induction false} CollapseIsSqueeze(s: string)
    ensures CollapseSpaces(s) == Squeeze(s, false)
    decreases |s|
  {
    if s != [] {
      if IsSpace(s[0]) {
        var n := LeadingCount(s, IsSpace);
        CollapseIsSqueeze(s[n..]);
        SqueezeSkipsRun(s[1..]);
        assert s[1..][LeadingCount(s[1..], IsSpace)..] == s[n..];
      } else {
        CollapseIsSqueeze(s[1..]);
      }
    }
  }

  /** The collapse keeps every non-whitespace character, in order: only whitespace runs change. */
  lemma {:induction false} CollapseKeeps(s: string, keep: char -> bool)
    requires forall c :: IsSpace(c) ==> !keep(c)
    ensures Filter(CollapseSpaces(s), keep) == Filter(s, keep)
    decreases |s|
  {
    if s != [] {
      if IsSpace(s[0]) {
        CollapseKeeps(s[LeadingCount(s, IsSpace)..], keep);
        CollapseKeepsRun(s, keep);
      } else {
        CollapseKeeps(s[1..], keep);
        CollapseKeepsChar(s, keep);
      }
    }
  }

  /** A leading whitespace run becomes one space, which the filter drops like the run. */
  lemma CollapseKeepsRun(s: string, keep: char -> bool)
    requires forall c :: IsSpace(c) ==> !keep(c)
    requires s != [] && IsSpace(s[0])
    requires var t := s[LeadingCount(s, IsSpace)..]; Filter(CollapseSpaces(t), keep) == Filter(t, keep)
    ensures Filter(CollapseSpaces(s), keep) == Filter(s, keep)
  {
    var n := LeadingCount(s, IsSpace);
    var c := CollapseSpaces(s);
    FilterSkipsLeading(s, n, keep);
    assert c[0] == ' ' && c[1..] == CollapseSpaces(s[n..]);
    FilterSkipsLeading(c, 1, keep);
  }

  /** A leading non-whitespace character is copied, so the filter treats both sides alike. */
  lemma CollapseKeepsChar(s: string, keep: char -> bool)
    requires s != [] && !IsSpace(s[0])
    requires Filter(CollapseSpaces(s[1..]), keep) == Filter(s[1..], keep)
    ensures Filter(CollapseSpaces(s), keep) == Filter(s, keep)
  {
    var t := CollapseSpaces(s[1..]);
    FilterPrefixed([s[0]], t, s[1..], keep);
    assert CollapseSpaces(s) == [s[0]] + t;
    assert s == [s[0]] + s[1..];
  }

  /** Replacing reserved characters by spaces leaves the visible characters as they were. */
  lemma ReplaceKeepsVisible(s: string)
    ensures Visible(ReplaceReserved(s)) == Visible(s)
  {
    FilterAgree(ReplaceReserved(s), s, IsVisible);
  }

  /** The visible characters of the name before the dot strip are exactly those of the name. */
  lemma TrimmedKeepsVisible(name: string)
    ensures Visible(StripSpace(CollapseSpaces(ReplaceReserved(name)))) == Visible(name)
  {
    var a := ReplaceReserved(name);
    var b := CollapseSpaces(a);
    ReplaceKeepsVisible(name);
    CollapseKeeps(a, IsVisible);
    StripFilter(b, IsSpace, IsVisible);
    assert StripSpace(b) == Strip(b, IsSpace);
  }

  /** Dots are visible, so the dots the strip cuts are cut from the visible characters too. */
  lemma CleanFrame(name: string) returns (head: string, tail: string)
    ensures AllDots(head) && AllDots(tail)
    ensures Visible(name) == head + Visible(Clean(name)) + tail
  {
    var d := StripSpace(CollapseSpaces(ReplaceReserved(name)));
    TrimmedKeepsVisible(name);
    head, tail := StripSplit(d, IsDot);
    assert Strip(d, IsDot) == Clean(name);
    assert AllDots(head) && AllDots(tail);
    FilterFramed(head, Clean(name), tail, IsVisible);
  }

  /** `core` sits inside `v` with only dots before and after it. */
  ghost predicate DotPadded(core: string, v: string) {
    exists i :: OccursAt(core, v, i) && AllDots(v[..i]) && AllDots(v[i + |core|..])
  }

  lemma PaddedBetween(head: string, core: string, tail: string)
    requires AllDots(head) && AllDots(tail)
    ensures DotPadded(core, head + core + tail)
  {
    var v := head + core + tail;
    assert v[..|head|] == head;
    assert v[|head| + |core|..] == tail;
    assert OccursAt(core, v, |head|);
  }

  /**
    Sanitising keeps the name's content: apart from the fallback for names
    whose visible characters are all dots, the visible characters of the
    result are those of the name, in order, less only leading and trailing
    dots. Every invisible character of a result is a plain space
    (`SanitizedVisible`), so `Visible(r)` is `r` with its spaces removed.
   */
  lemma SanitizeKeepsContent(name: string)
    ensures var r, v := SanitizeName(name), Visible(name);
      || (r == Placeholder && AllDots(v))
      || DotPadded(Visible(r), v)
  {
    var head, tail := CleanFrame(name);
    var c := Clean(name);
    if c == [] {
      assert Visible(name) == head + tail;
    } else {
      PaddedBetween(head, Visible(c), tail);
    }
  }

  predicate IsNotSpace(c: char) {
    c != ' '
  }

  /** In a sanitised name the only invisible character is the plain space. */
  lemma SanitizedVisible(name: string)
    ensures var r := SanitizeName(name); Visible(r) == Filter(r, IsNotSpace)
  {
    var r := SanitizeName(name);
    assert forall i :: 0 <= i < |r| ==> IsVisible(r[i]) == IsNotSpace(r[i]);
    FilterSameChoice(r, IsVisible, IsNotSpace);
  }

  /** Every visible character of the name other than a dot is in its sanitised form. */
  lemma SanitizeKeepsCharacters(name: string, k: nat)
    requires k < |name| && IsVisible(name[k]) && name[k] != '.'
    ensures name[k] in SanitizeName(name)
  {
    var x := name[k];
    var head, tail := CleanFrame(name);
    var c := Clean(name);
    FilterMembers(name, IsVisible, x);
    assert x !in head && x !in tail;
    assert x in Visible(c);
    FilterMembers(c, IsVisible, x);
  }
}
