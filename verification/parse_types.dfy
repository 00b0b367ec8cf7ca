/**
  `parse_types` from query.py: the `--types` argument is either a range
  `a-b` (inclusive) or a comma-separated list of integers. Any `-` in the
  trimmed text selects the range form; `int()` failing anywhere makes the
  whole call fail (None here, ValueError in the program).
 */
module ParseTypes {
  import opened Wrappers
  import opened Text
  import opened Decimal

  /** `list(range(a, b + 1))`. */
  function Range(a: int, b: int): (r: seq<int>)
    ensures |r| == if a <= b then b - a + 1 else 0
    ensures forall i :: 0 <= i < |r| ==> r[i] == a + i
    decreases b - a
  {
    if b < a then [] else [a] + Range(a + 1, b)
  }

  /** `[p.strip() for p in parts if p.strip()]`. */
  function NonBlank(parts: seq<string>): (r: seq<string>)
    ensures |r| <= |parts|
    ensures forall i :: 0 <= i < |r| ==> r[i] != [] && StripSpace(r[i]) == r[i]
  {
    if parts == [] then []
    else
      var t := StripSpace(parts[0]);
      StripSpaceKeepsTrimmed(t);
      (if t == [] then [] else [t]) + NonBlank(parts[1..])
  }

  /** What one part contributes: its stripped form, or nothing when that is empty. */
  function KeptForm(p: string): seq<string> {
    var t := StripSpace(p);
    if t == [] then [] else [t]
  }

  /** `NonBlank` of one part is that part's contribution. */
  lemma NonBlankOne(p: string)
    ensures NonBlank([p]) == if StripSpace(p) == [] then [] else [StripSpace(p)]
  {
    assert [p][1..] == [];
  }

  /** The first part contributes first, then the rest. */
  lemma NonBlankCons(parts: seq<string>)
    requires parts != []
    ensures NonBlank(parts) == KeptForm(parts[0]) + NonBlank(parts[1..])
  {
  }

  /** `NonBlank` works piece by piece: the kept parts of a concatenation are those of each side, in order. */
  lemma {:induction false} NonBlankAppend(a: seq<string>, b: seq<string>)
    ensures NonBlank(a + b) == NonBlank(a) + NonBlank(b)
  {
    if a == [] {
      assert a + b == b;
    } else {
      var ab := a + b;
      ConsAppend(a, b);
      NonBlankCons(ab);
      NonBlankCons(a);
      NonBlankAppend(a[1..], b);
      ConcatAssoc(KeptForm(a[0]), NonBlank(a[1..]), NonBlank(b));
    }
  }

  lemma ConsAppend<T>(a: seq<T>, b: seq<T>)
    requires a != []
    ensures (a + b)[0] == a[0] && (a + b)[1..] == a[1..] + b
  {
  }

  lemma SplitAround<T>(s: seq<T>, k: nat)
    requires k < |s|
    ensures s == s[..k] + ([s[k]] + s[k + 1..])
  {
    assert s[..k] + ([s[k]] + s[k + 1..]) == s[..k] + s[k..];
  }

  lemma ConcatAssoc<T>(x: seq<T>, y: seq<T>, z: seq<T>)
    ensures x + (y + z) == (x + y) + z
  {
  }

  /** Every part that is not blank is kept, stripped, at its place among the kept parts of the parts around it. */
  lemma NonBlankKeeps(parts: seq<string>, k: nat)
    requires k < |parts| && StripSpace(parts[k]) != []
    ensures NonBlank(parts) == NonBlank(parts[..k]) + [StripSpace(parts[k])] + NonBlank(parts[k + 1..])
  {
    var before, p, after := parts[..k], parts[k], parts[k + 1..];
    SplitAround(parts, k);
    NonBlankAppend(before, [p] + after);
    NonBlankAppend([p], after);
    NonBlankOne(p);
    ConcatAssoc(NonBlank(before), [StripSpace(p)], NonBlank(after));
  }

  /** A character in none of the parts is in none of the kept parts. */
  lemma {:induction false} NonBlankAvoids(parts: seq<string>, c: char)
    requires forall k :: 0 <= k < |parts| ==> c !in parts[k]
    ensures forall j :: 0 <= j < |NonBlank(parts)| ==> c !in NonBlank(parts)[j]
  {
    if parts != [] {
      var t := StripSpace(parts[0]);
      var head := if t == [] then [] else [t];
      var rest := NonBlank(parts[1..]);
      assert NonBlank(parts) == head + rest;
      StripSpaceAvoids(parts[0], c);
      assert forall k :: 0 <= k < |parts[1..]| ==> parts[1..][k] == parts[k + 1];
      NonBlankAvoids(parts[1..], c);
    }
  }

  /** `[int(p) for p in parts]`: every value, or None as soon as one part is not an integer. */
  function ParseAll(parts: seq<string>): (r: Option<seq<int>>)
    ensures r.Some? ==> |r.value| == |parts| && forall i :: 0 <= i < |parts| ==> ParseInt(parts[i]) == Some(r.value[i])
    ensures r.None? ==> exists i :: 0 <= i < |parts| && ParseInt(parts[i]).None?
  {
    if parts == [] then Some([])
    else
      match ParseInt(parts[0])
      case None => None
      case Some(n) =>
        match ParseAll(parts[1..])
        case None =>
          FailureInTail(ParseInt, parts);
          None
        case Some(ns) =>
          ValuesOfTail(ParseInt, parts, n, ns);
          Some([n] + ns)
  }

  /** A failing part of the tail is a failing part of the whole list. */
  lemma FailureInTail(parse: string -> Option<int>, parts: seq<string>)
    requires parts != []
    requires exists i :: 0 <= i < |parts[1..]| && parse(parts[1..][i]).None?
    ensures exists i :: 0 <= i < |parts| && parse(parts[i]).None?
  {
    var i :| 0 <= i < |parts[1..]| && parse(parts[1..][i]).None?;
    assert parts[1..][i] == parts[i + 1];
  }

  /** The value of the first part followed by the values of the tail are the values of the whole list. */
  lemma ValuesOfTail(parse: string -> Option<int>, parts: seq<string>, n: int, ns: seq<int>)
    requires parts != [] && parse(parts[0]) == Some(n)
    requires |ns| == |parts| - 1 && forall i :: 0 <= i < |ns| ==> parse(parts[1..][i]) == Some(ns[i])
    ensures forall i :: 0 <= i < |parts| ==> parse(parts[i]) == Some(([n] + ns)[i])
  {
    forall i | 0 < i < |parts|
      ensures parse(parts[i]) == Some(([n] + ns)[i])
    {
      assert parts[i] == parts[1..][i - 1] && ([n] + ns)[i] == ns[i - 1];
    }
  }

  /** The range form `start-end`, cut at the first `-` (position `i`). */
  function ParseRange(t: string, i: nat): (r: Option<seq<int>>)
    requires i < |t| && t[i] == '-'
    ensures r.Some? <==> ParseInt(t[..i]).Some? && ParseInt(t[i + 1..]).Some?
    ensures r.Some? ==> |r.value| == if ParseInt(t[..i]).value <= ParseInt(t[i + 1..]).value
      then ParseInt(t[i + 1..]).value - ParseInt(t[..i]).value + 1 else 0
    ensures r.Some? ==> forall j :: 0 <= j < |r.value| ==> r.value[j] == ParseInt(t[..i]).value + j
  {
    match (ParseInt(t[..i]), ParseInt(t[i + 1..]))
    case (Some(a), Some(b)) => Some(Range(a, b))
    case _ => None
  }

  /** `[p.strip() for p in spec.split(",") if p.strip()]`. */
  function CommaPieces(t: string): seq<string> {
    NonBlank(SplitOn(t, ','))
  }

  /**
    The list form of a text without `-`: the integer of every kept piece,
    in order, and None when some kept piece is not an integer. None of the
    numbers is negative.
   */
  function ParseList(t: string): (r: Option<seq<int>>)
    requires '-' !in t
    ensures var kept := CommaPieces(t);
      && (r.Some? <==> forall i :: 0 <= i < |kept| ==> ParseInt(kept[i]).Some?)
      && (r.Some? ==> |r.value| == |kept| && forall i :: 0 <= i < |kept| ==> ParseInt(kept[i]) == Some(r.value[i]))
    ensures r.Some? ==> |r.value| <= |SplitOn(t, ',')|
    ensures r.Some? ==> forall i :: 0 <= i < |r.value| ==> r.value[i] >= 0
  {
    var parts := CommaPieces(t);
    var r := ParseAll(parts);
    if r.None? then r
    else
      KeptPiecesAvoid(t, '-');
      KeptValuesNonNegative(parts, r.value);
      r
  }

  /** Every part is non-blank, trimmed and free of `c`. */
  ghost predicate TrimmedWithout(parts: seq<string>, c: char) {
    forall j :: 0 <= j < |parts| ==> parts[j] != [] && StripSpace(parts[j]) == parts[j] && c !in parts[j]
  }

  /** A character missing from the text is missing from every kept piece, which is also non-blank and trimmed. */
  lemma KeptPiecesAvoid(t: string, c: char)
    requires c !in t
    ensures TrimmedWithout(NonBlank(SplitOn(t, ',')), c)
  {
    var pieces := SplitOn(t, ',');
    forall k | 0 <= k < |pieces|
      ensures c !in pieces[k]
    {
      JoinWithOmits(pieces, ',', k, c);
    }
    NonBlankAvoids(pieces, c);
  }

  /** Trimmed pieces without a minus sign parse to non-negative numbers. */
  lemma KeptValuesNonNegative(parts: seq<string>, vs: seq<int>)
    requires TrimmedWithout(parts, '-')
    requires ParseAll(parts) == Some(vs)
    ensures forall i :: 0 <= i < |vs| ==> vs[i] >= 0
  {
    forall i | 0 <= i < |vs|
      ensures vs[i] >= 0
    {
      NonNegativeWithoutMinus(parts[i], vs[i]);
    }
  }

  lemma NonNegativeWithoutMinus(p: string, n: int)
    requires p != [] && StripSpace(p) == p && '-' !in p
    requires ParseInt(p) == Some(n)
    ensures n >= 0
  {
    assert p[0] != '-';
  }

  /**
    What the range form promises for a trimmed text `t` cut at its first
    `-` (position `i`): a result exactly when both sides are integers, and
    then the inclusive range between them, whose elements are consecutive.
   */
  ghost predicate RangeFormResult(t: string, i: nat, r: Option<seq<int>>)
    requires i < |t|
  {
    && (r.Some? <==> ParseInt(t[..i]).Some? && ParseInt(t[i + 1..]).Some?)
    && (r.Some? ==> r.value == Range(ParseInt(t[..i]).value, ParseInt(t[i + 1..]).value))
    && (r.Some? ==> forall j :: 0 < j < |r.value| ==> r.value[j] == r.value[j - 1] + 1)
  }

  /**
    What the list form promises for a trimmed text `t` without `-`: a
    result exactly when every kept piece is an integer, and then those
    integers in order, none of them negative, at most one per comma piece.
   */
  ghost predicate ListFormResult(t: string, r: Option<seq<int>>) {
    var kept := CommaPieces(t);
    && (r.Some? <==> forall i :: 0 <= i < |kept| ==> ParseInt(kept[i]).Some?)
    && (r.Some? ==> |r.value| == |kept| && forall i :: 0 <= i < |kept| ==> ParseInt(kept[i]) == Some(r.value[i]))
    && (r.Some? ==> |r.value| <= |SplitOn(t, ',')|)
    && (r.Some? ==> forall i :: 0 <= i < |r.value| ==> r.value[i] >= 0)
  }

  /** `parse_types(spec)`: any `-` in the trimmed text selects the range form, cut at the first `-`. */
  function ParseTypesSpec(spec: string): (r: Option<seq<int>>)
    ensures var t := StripSpace(spec); var i := IndexOfChar(t, '-');
      i < |t| ==> RangeFormResult(t, i, r)
    ensures '-' !in StripSpace(spec) ==> ListFormResult(StripSpace(spec), r)
  {
    var t := StripSpace(spec);
    var i := IndexOfChar(t, '-');
    if i < |t| then
      RangeFormHolds(t, i);
      ParseRange(t, i)
    else
      ListFormHolds(t);
      ParseList(t)
  }

  lemma RangeFormHolds(t: string, i: nat)
    requires i < |t| && t[i] == '-'
    ensures RangeFormResult(t, i, ParseRange(t, i))
  {
  }

  lemma ListFormHolds(t: string)
    requires '-' !in t
    ensures ListFormResult(t, ParseList(t))
  {
  }

  /** Decimal text of each number. */
  function Texts(ns: seq<nat>): (r: seq<string>)
    ensures |r| == |ns| && forall i :: 0 <= i < |ns| ==> r[i] == NatToString(ns[i])
  {
    seq(|ns|, i requires 0 <= i < |ns| => NatToString(ns[i]))
  }

  /** Pieces that are already trimmed and non-blank all survive, unchanged. */
  lemma {:induction false} NonBlankKeepsTrimmed(parts: seq<string>)
    requires forall i :: 0 <= i < |parts| ==> parts[i] != [] && !IsSpace(parts[i][0]) && !IsSpace(parts[i][|parts[i]| - 1])
    ensures NonBlank(parts) == parts
  {
    if parts != [] {
      StripSpaceKeepsTrimmed(parts[0]);
      NonBlankKeepsTrimmed(parts[1..]);
      assert parts == [parts[0]] + parts[1..];
    }
  }

  /** When every part parses, the list parses to exactly those values. */
  lemma ParseAllIs(parts: seq<string>, vs: seq<int>)
    requires |vs| == |parts|
    requires forall i :: 0 <= i < |parts| ==> ParseInt(parts[i]) == Some(vs[i])
    ensures ParseAll(parts) == Some(vs)
  {
    AllParsed(ParseAll(parts), ParseInt, parts, vs);
  }

  /** A result that meets `ParseAll`'s contract for a parser under which every part succeeds. */
  lemma AllParsed(r: Option<seq<int>>, parse: string -> Option<int>, parts: seq<string>, vs: seq<int>)
    requires r.Some? ==> |r.value| == |parts| && forall i :: 0 <= i < |parts| ==> parse(parts[i]) == Some(r.value[i])
    requires r.None? ==> exists i :: 0 <= i < |parts| && parse(parts[i]).None?
    requires |vs| == |parts| && forall i :: 0 <= i < |parts| ==> parse(parts[i]) == Some(vs[i])
    ensures r == Some(vs)
  {
    assert r.Some?;
    assert forall i :: 0 <= i < |vs| ==> r.value[i] == vs[i];
    assert r.value == vs;
  }

  /** Decimal texts of natural numbers parse back to those numbers. */
  lemma ParseAllTexts(ns: seq<nat>)
    ensures ParseAll(Texts(ns)) == Some(ns)
  {
    var ts := Texts(ns);
    forall i | 0 <= i < |ns|
      ensures ParseInt(ts[i]) == Some(ns[i] as int)
    {
      ParseIntRoundTrip(ns[i]);
    }
    ParseAllIs(ts, ns);
  }

  lemma DigitsNotSpace(n: nat)
    ensures var s := NatToString(n); !IsSpace(s[0]) && !IsSpace(s[|s| - 1])
  {
    var s := NatToString(n);
    assert IsDigit(s[0]) && IsDigit(s[|s| - 1]);
  }

  /** An empty text takes the list form and gives the empty list. */
  lemma EmptyListSpec(spec: string)
    requires spec == ""
    ensures ParseTypesSpec(spec) == Some([])
  {
    assert StripSpace(spec) == "";
    assert SplitOn("", ',') == [""];
    NonBlankOne("");
    SpecWithoutDash(spec);
  }

  /** Printing a list of numbers with commas and parsing it back gives the list. */
  lemma ListRoundTrip(ns: seq<nat>)
    ensures ParseTypesSpec(JoinWith(Texts(ns), ',')) == Some(ns)
  {
    var parts := Texts(ns);
    var spec := JoinWith(parts, ',');
    if ns == [] {
      assert spec == "";
      EmptyListSpec(spec);
    } else {
      forall i | 0 <= i < |parts|
        ensures parts[i] != [] && !IsSpace(parts[i][0]) && !IsSpace(parts[i][|parts[i]| - 1])
      {
        DigitsNotSpace(ns[i]);
      }
      JoinWithEnds(parts, ',');
      StripSpaceKeepsTrimmed(spec);
      JoinWithAvoids(parts, ',', '-');
      assert IndexOfChar(spec, '-') == |spec|;
      SplitJoinRoundTrip(parts, ',');
      NonBlankKeepsTrimmed(parts);
      ParseAllTexts(ns);
    }
  }

  /** `sa-sb` for two digit strings: already trimmed, and its first `-` is the one between them. */
  lemma RangeTextShape(sa: string, sb: string)
    requires sa != [] && sb != [] && AllDigits(sa) && AllDigits(sb)
    ensures var spec := sa + "-" + sb;
      StripSpace(spec) == spec && IndexOfChar(spec, '-') == |sa|
  {
    var spec := sa + "-" + sb;
    assert IsDigit(spec[0]) && IsDigit(spec[|spec| - 1]);
    StripSpaceKeepsTrimmed(spec);
    assert forall j :: 0 <= j < |sa| ==> spec[j] == sa[j] && IsDigit(sa[j]);
    IndexOfCharIs(spec, '-', |sa|);
  }

  /** Printing `a-b` and parsing it back gives the inclusive range. */
  lemma RangeRoundTrip(a: nat, b: nat)
    ensures ParseTypesSpec(NatToString(a) + "-" + NatToString(b)) == Some(Range(a, b))
  {
    var sa := NatToString(a);
    var sb := NatToString(b);
    var spec := sa + "-" + sb;
    RangeTextShape(sa, sb);
    ParseIntRoundTrip(a);
    ParseIntRoundTrip(b);
    RangeFormOf(sa, sb, a, b);
  }

  /** A trimmed `sa-sb` whose first `-` is the one shown parses to the inclusive range of the two integers. */
  lemma RangeFormOf(sa: string, sb: string, a: int, b: int)
    requires var spec := sa + "-" + sb; StripSpace(spec) == spec && IndexOfChar(spec, '-') == |sa|
    requires ParseInt(sa) == Some(a) && ParseInt(sb) == Some(b)
    ensures ParseTypesSpec(sa + "-" + sb) == Some(Range(a, b))
  {
    var spec := sa + "-" + sb;
    DashParts(sa, sb);
    RangeAt(spec, |sa|, a, b);
    SpecAtDash(spec, |sa|);
  }

  lemma DashParts(sa: string, sb: string)
    ensures var spec := sa + "-" + sb;
      spec[|sa|] == '-' && spec[..|sa|] == sa && spec[|sa| + 1..] == sb
  {
  }

  /** Two integers around the dash at `i` make the inclusive range between them. */
  lemma RangeAt(t: string, i: nat, a: int, b: int)
    requires i < |t| && t[i] == '-'
    requires ParseInt(t[..i]) == Some(a) && ParseInt(t[i + 1..]) == Some(b)
    ensures ParseRange(t, i) == Some(Range(a, b))
  {
  }

  /** A trimmed text whose first `-` is at `i` is read in the range form at `i`. */
  lemma SpecAtDash(spec: string, i: nat)
    requires StripSpace(spec) == spec && i < |spec| && IndexOfChar(spec, '-') == i
    ensures spec[i] == '-' && ParseTypesSpec(spec) == ParseRange(spec, i)
  {
  }

  /** `"3-5"` is `[3, 4, 5]` and a reversed range is empty. */
  lemma RangeExamples(up: string, down: string)
    requires up == "3-5" && down == "5-3"
    ensures ParseTypesSpec(up) == Some([3, 4, 5])
    ensures ParseTypesSpec(down) == Some([])
  {
    RangeUp(up);
    RangeDown(down);
  }

  lemma RangeUp(up: string)
    requires up == "3-5"
    ensures ParseTypesSpec(up) == Some([3, 4, 5])
  {
    var a, b := 3, 5;
    PrintedRange(up, a, b);
    RangeRoundTrip(a, b);
    ThreeToFive();
  }

  lemma RangeDown(down: string)
    requires down == "5-3"
    ensures ParseTypesSpec(down) == Some([])
  {
    var a, b := 5, 3;
    PrintedRange(down, a, b);
    RangeRoundTrip(a, b);
  }

  /** The two example texts are the printed ranges they look like. */
  lemma PrintedRange(spec: string, a: nat, b: nat)
    requires (spec == "3-5" && a == 3 && b == 5) || (spec == "5-3" && a == 5 && b == 3)
    ensures spec == NatToString(a) + "-" + NatToString(b)
  {
    SmallTexts();
  }

  lemma ThreeToFive()
    ensures Range(3, 5) == [3, 4, 5]
  {
  }

  lemma SmallTexts()
    ensures NatToString(3) == "3" && NatToString(5) == "5"
  {
  }

  /** A leading minus sign sends the text into the range form, where the empty start fails to parse. */
  lemma NegativeFirstFails()
    ensures ParseTypesSpec("-1,2") == None
  {
    var t := "-1,2";
    StripSpaceKeepsTrimmed(t);
    IndexOfCharIs(t, '-', 0);
    assert t[..0] == "";
  }

  lemma BlankSpecTrimmed(spec: string)
    requires spec == " 1, ,3 "
    ensures StripSpace(spec) == "1, ,3"
  {
    assert LeadingCount(spec, IsSpace) == 1;
    assert TrailingCount(spec[1..], IsSpace) == 1;
    assert spec[1..][..5] == "1, ,3";
  }

  lemma BlankSpecSplit(t: string)
    requires |t| == 5 && t[0] == '1' && t[1] == ',' && t[2] == ' ' && t[3] == ',' && t[4] == '3'
    ensures '-' !in t
    ensures SplitOn(t, ',') == ["1", " ", "3"]
  {
    SplitFive(t, ',');
  }

  /** A five-character text with separators at positions 1 and 3 only splits into its three other characters. */
  lemma SplitFive(t: string, sep: char)
    requires |t| == 5 && t[1] == sep && t[3] == sep && t[0] != sep && t[2] != sep && t[4] != sep
    ensures SplitOn(t, sep) == [[t[0]], [t[2]], [t[4]]]
  {
    assert t[..1] == [t[0]] && t[2..3] == [t[2]] && t[4..] == [t[4]];
    SplitThreeAt(t, 1, 3, sep);
  }

  /** Separators at `i` and `j` only: the pieces before, between and after them. */
  lemma SplitThreeAt(t: string, i: nat, j: nat, sep: char)
    requires i < j < |t| && t[i] == sep && t[j] == sep
    requires sep !in t[..i] && sep !in t[i + 1..j] && sep !in t[j + 1..]
    ensures SplitOn(t, sep) == [t[..i], t[i + 1..j], t[j + 1..]]
  {
    assert t == t[..i] + [sep] + t[i + 1..j] + [sep] + t[j + 1..];
    SplitThree(t[..i], t[i + 1..j], t[j + 1..], sep);
  }

  /** Two separators cut a text into three pieces. */
  lemma SplitThree(a: string, b: string, c: string, sep: char)
    requires sep !in a && sep !in b && sep !in c
    ensures SplitOn(a + [sep] + b + [sep] + c, sep) == [a, b, c]
  {
    var last := SplitOn(c, sep);
    assert last == [c] by {
      assert |last| == 1 && JoinWith(last, sep) == last[0];
    }
    var t := b + [sep] + c;
    SplitFirst(b, sep, c);
    assert SplitOn(t, sep) == [b, c];
    SplitFirst(a, sep, t);
    assert SplitOn(a + [sep] + t, sep) == [a, b, c];
    Regroup(a, b, c, sep);
  }

  lemma Regroup(a: string, b: string, c: string, sep: char)
    ensures a + [sep] + b + [sep] + c == a + [sep] + (b + [sep] + c)
  {
  }

  lemma BlankSpecPieces(pieces: seq<string>)
    requires pieces == ["1", " ", "3"]
    ensures NonBlank(pieces) == Texts([1, 3])
  {
    var a, b, c := pieces[0], pieces[1], pieces[2];
    assert pieces == [a, b, c];
    StripSpaceKeepsTrimmed(a);
    StripSpaceKeepsTrimmed(c);
    assert LeadingCount(b, IsSpace) == 1;
    NonBlankDropsMiddle(a, b, c);
    OneThreeTexts();
  }

  /** Of three pieces with a blank one in the middle, the outer two are kept. */
  lemma NonBlankDropsMiddle(a: string, b: string, c: string)
    requires a != [] && StripSpace(a) == a && StripSpace(b) == [] && c != [] && StripSpace(c) == c
    ensures NonBlank([a, b, c]) == [a, c]
  {
    assert [c][1..] == [];
    assert NonBlank([c]) == [c];
    assert [b, c][1..] == [c];
    assert NonBlank([b, c]) == [c];
    assert [a, b, c][1..] == [b, c];
  }

  lemma OneThreeTexts()
    ensures Texts([1, 3]) == ["1", "3"]
  {
    assert NatToString(1) == "1" && NatToString(3) == "3";
  }

  /**
    A list-form text parses to `vs` whenever its kept pieces, the stripped
    non-blank comma pieces in order, are integers with the values `vs`.
   */
  lemma ListFormOf(spec: string, vs: seq<int>)
    requires '-' !in StripSpace(spec)
    requires var kept := CommaPieces(StripSpace(spec));
      |vs| == |kept| && forall i :: 0 <= i < |kept| ==> ParseInt(kept[i]) == Some(vs[i])
    ensures ParseTypesSpec(spec) == Some(vs)
  {
    SpecWithoutDash(spec);
    ListIsParseAll(StripSpace(spec));
    ParseAllIs(CommaPieces(StripSpace(spec)), vs);
  }

  /** The special case of kept pieces that are the decimal texts of natural numbers. */
  lemma ListFormOfTexts(spec: string, ns: seq<nat>)
    requires '-' !in StripSpace(spec)
    requires CommaPieces(StripSpace(spec)) == Texts(ns)
    ensures ParseTypesSpec(spec) == Some(ns)
  {
    var kept := Texts(ns);
    forall i | 0 <= i < |ns|
      ensures ParseInt(kept[i]) == Some(ns[i] as int)
    {
      ParseIntRoundTrip(ns[i]);
    }
    ListFormOf(spec, ns);
  }

  /** Without a `-` the text is read in the list form. */
  lemma SpecWithoutDash(spec: string)
    requires '-' !in StripSpace(spec)
    ensures ParseTypesSpec(spec) == ParseList(StripSpace(spec))
  {
    var t := StripSpace(spec);
    IndexOfCharIs(t, '-', |t|);
  }

  lemma ListIsParseAll(t: string)
    requires '-' !in t
    ensures ParseList(t) == ParseAll(CommaPieces(t))
  {
  }

  /** `" 1, ,3 "` gives `[1, 3]`. */
  lemma BlankPiecesDropped(spec: string)
    requires spec == " 1, ,3 "
    ensures ParseTypesSpec(spec) == Some([1, 3])
  {
    BlankSpecTrimmed(spec);
    var t := StripSpace(spec);
    assert |t| == 5 && t[0] == '1' && t[1] == ',' && t[2] == ' ' && t[3] == ',' && t[4] == '3';
    BlankSpecSplit(t);
    BlankSpecPieces(SplitOn(t, ','));
    ListFormOfTexts(spec, [1, 3]);
  }
}
