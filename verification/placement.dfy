/**
  `make_non_overwriting_path` from move_images_by_name.py: keep the file
  name when it is free in the target directory, otherwise try
  `stem_1.ext`, `stem_2.ext`, ... and take the first free one. The target
  directory is given by the set of names already in it.
 */
module Placement {
  import opened Text
  import opened PathName
  import opened Decimal

  /** `f"{stem}_{index}{suffix}"`. */
  function Candidate(filename: string, k: nat): string {
    Stem(filename) + "_" + NatToString(k) + Suffix(filename)
  }

  /** Different indices give different names. */
  lemma CandidateInjective(filename: string, a: nat, b: nat)
    requires Candidate(filename, a) == Candidate(filename, b)
    ensures a == b
  {
    var s := Stem(filename) + "_";
    var x := Suffix(filename);
    var da := NatToString(a);
    var db := NatToString(b);
    var c := Candidate(filename, a);
    assert c == s + da + x;
    assert c == s + db + x;
    assert |da| == |db|;
    assert da == c[|s|..|s| + |da|];
    assert db == c[|s|..|s| + |db|];
    NatToStringInjective(a, b);
  }

  /** The names `Candidate(filename, 1)` .. `Candidate(filename, k)`. */
  function CandidateSet(filename: string, k: nat): (r: set<string>)
    ensures forall j :: 1 <= j <= k ==> Candidate(filename, j) in r
    ensures forall x :: x in r ==> exists j :: 1 <= j <= k && x == Candidate(filename, j)
  {
    if k == 0 then {} else CandidateSet(filename, k - 1) + {Candidate(filename, k)}
  }

  lemma {:induction false} CandidateSetSize(filename: string, k: nat)
    ensures |CandidateSet(filename, k)| == k
  {
    if k > 0 {
      CandidateSetSize(filename, k - 1);
      if Candidate(filename, k) in CandidateSet(filename, k - 1) {
        var j :| 1 <= j <= k - 1 && Candidate(filename, k) == Candidate(filename, j);
        CandidateInjective(filename, k, j);
      }
    }
  }

  lemma {:induction false} SubsetSize<T>(a: set<T>, b: set<T>)
    requires a <= b
    ensures |a| <= |b|
  {
    if a != {} {
      var x :| x in a;
      SubsetSize(a - {x}, b - {x});
    }
  }

  /** `k` taken candidates need at least `k` existing names. */
  lemma TakenBound(existing: set<string>, filename: string, k: nat)
    requires forall j :: 1 <= j <= k ==> Candidate(filename, j) in existing
    ensures k <= |existing|
  {
    CandidateSetSize(filename, k);
    SubsetSize(CandidateSet(filename, k), existing);
  }

  /**
    The least free index from `k` on, given that every index below `k`
    is taken. Each taken index is one more existing name, so the search
    stops after at most `|existing| + 1` tries.
   */
  function FreeIndex(existing: set<string>, filename: string, k: nat): (r: nat)
    requires k >= 1
    requires forall j :: 1 <= j < k ==> Candidate(filename, j) in existing
    ensures r >= k
    ensures Candidate(filename, r) !in existing
    ensures forall j :: 1 <= j < r ==> Candidate(filename, j) in existing
    decreases |existing| + 1 - k
  {
    if Candidate(filename, k) !in existing then k
    else
      TakenBound(existing, filename, k);
      FreeIndex(existing, filename, k + 1)
  }

  /**
    `make_non_overwriting_path` as a name in the target directory: never an
    existing name; `filename` itself when free; otherwise the candidate with
    the least index whose name is free.
   */
  function NonOverwritingName(existing: set<string>, filename: string): (r: string)
    ensures r !in existing
    ensures filename !in existing ==> r == filename
    ensures filename in existing ==> exists k :: (k >= 1 && r == Candidate(filename, k)
      && forall j :: 1 <= j < k ==> Candidate(filename, j) in existing)
  {
    if filename !in existing then filename
    else Candidate(filename, FreeIndex(existing, filename, 1))
  }

  /** The search never needs more than one index per existing name. */
  lemma FreeIndexBound(existing: set<string>, filename: string)
    ensures FreeIndex(existing, filename, 1) <= |existing| + 1
  {
    var r := FreeIndex(existing, filename, 1);
    TakenBound(existing, filename, r - 1);
  }

  /** A candidate keeps the suffix of the name it was made from. */
  lemma CandidateSuffix(filename: string, k: nat)
    requires HasSuffix(filename)
    ensures Suffix(Candidate(filename, k)) == Suffix(filename)
  {
    var x := Suffix(filename);
    var head := Stem(filename) + "_" + NatToString(k);
    var c := Candidate(filename, k);
    assert c == head + x;
    assert forall j :: |head| < j < |c| ==> c[j] == x[j - |head|];
    assert '.' !in NatToString(k);
    LastDotIs(c, |head|);
  }

  /** Placing an image never turns it into a non-image. */
  lemma PlacementKeepsImage(existing: set<string>, filename: string)
    requires IsImageName(filename)
    ensures IsImageName(NonOverwritingName(existing, filename))
  {
    ImageNameHasSuffix(filename);
    if filename in existing {
      CandidateSuffix(filename, FreeIndex(existing, filename, 1));
    }
  }

  /** An occupied `cat.png` gives `cat_1.png`; with `cat_1.png` taken too, `cat_2.png`. */
  lemma PlacementExamples()
    ensures NonOverwritingName({"cat.png"}, "cat.png") == "cat_1.png"
    ensures NonOverwritingName({"cat.png", "cat_1.png"}, "cat.png") == "cat_2.png"
  {
    LastDotIs("cat.png", 3);
    assert Stem("cat.png") == "cat" && Suffix("cat.png") == ".png";
    assert NatToString(1) == "1" && NatToString(2) == "2";
    assert Candidate("cat.png", 1) == "cat_1.png";
    assert Candidate("cat.png", 2) == "cat_2.png";
  }
}
