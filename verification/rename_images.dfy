/**
  `rename_images_by_gaming_id` from rename_images_by_gaming_item.py: every
  entry of a directory snapshot is either skipped (not an image file, no
  match, target taken, rename failed) or renamed to `<gamingItemId><suffix>`;
  in dry-run mode the rename is only announced.

  The directory is the set of its file names and the set of its
  sub-directory names. Which renames the operating system refuses is not
  visible to the model and is given as the parameter `failing`.
 */
module RenameImages {
  import opened Wrappers
  import opened Text
  import opened PathName
  import opened OrderedDict
  import opened GamingIndex

  datatype Dir = Dir(files: set<string>, subdirs: set<string>)

  /** `(dir / name).exists()`. */
  predicate Taken(d: Dir, name: string) {
    name in d.files || name in d.subdirs
  }

  /** `is_image`: a regular file whose suffix, lower-cased, is an image extension. */
  predicate IsImage(d: Dir, name: string) {
    name in d.files && IsImageName(name)
  }

  /** What happened to one entry of the snapshot. */
  datatype Outcome =
    | NotImage
    | NoMatch
    | TargetExists(target: string)
    | Failed(target: string)
    | Renamed(target: string)
    | Previewed(target: string)

  /** The outcomes that increment `renamed`. */
  predicate Counted(o: Outcome) {
    o.Renamed? || o.Previewed?
  }

  /** `f"{gaming_id}{img_path.suffix}"`. */
  function TargetName(id: string, entry: string): string {
    id + Suffix(entry)
  }

  /**
    The decision and its effect for one entry, given the directory as it is
    now and `found`, the result of `find_matching_gaming_id` for its name.
   */
  function RenameStep(d: Dir, entry: string, found: Option<string>, dryRun: bool, failing: set<string>): (r: (Outcome, Dir))
    ensures r.1.subdirs == d.subdirs
    ensures |r.1.files| == |d.files|
    ensures !r.0.Renamed? ==> r.1 == d
    ensures r.0.Renamed? ==> && !dryRun && entry in d.files && !Taken(d, r.0.target)
                             && r.1.files == d.files - {entry} + {r.0.target}
    ensures r.0.Previewed? ==> dryRun
    ensures Counted(r.0) <==>
      && IsImage(d, entry) && found.Some?
      && !Taken(d, TargetName(found.value, entry))
      && (dryRun || entry !in failing)
    ensures Counted(r.0) ==> found.Some? && r.0.target == TargetName(found.value, entry)
    ensures r.0 == NoMatch <==> IsImage(d, entry) && found.None?
    ensures r.0 == NotImage <==> !IsImage(d, entry)
  {
    if !IsImage(d, entry) then (NotImage, d)
    else
      match found
      case None => (NoMatch, d)
      case Some(id) =>
        var target := TargetName(id, entry);
        if Taken(d, target) then (TargetExists(target), d)
        else if dryRun then (Previewed(target), d)
        else if entry in failing then (Failed(target), d)
        else
          assert target != entry;
          (Renamed(target), Dir(d.files - {entry} + {target}, d.subdirs))
  }

  /** Number of outcomes that incremented `renamed`. */
  function CountOf(os: seq<Outcome>): nat {
    if os == [] then 0 else CountOf(os[..|os| - 1]) + (if Counted(os[|os| - 1]) then 1 else 0)
  }

  /**
    What an outcome says about its entry: a counted outcome used the matched
    id, a real rename happened only outside dry-run mode and only when the
    operating system accepted it, and "no match" means the matcher found
    nothing.
   */
  predicate Fits(entry: string, o: Outcome, found: Option<string>, dryRun: bool, failing: set<string>) {
    && (Counted(o) ==> found.Some? && o.target == TargetName(found.value, entry))
    && (o.Renamed? ==> !dryRun && entry !in failing)
    && (o.Previewed? ==> dryRun)
    && (o.NoMatch? ==> found.None?)
  }

  /** Names of the entries renamed so far (`outcomes[i]` belongs to `entries[i]`). */
  function Sources(entries: seq<string>, outcomes: seq<Outcome>): set<string>
    requires |outcomes| == |entries|
  {
    if outcomes == [] then {}
    else
      var k := |outcomes| - 1;
      Sources(entries[..k], outcomes[..k]) + (if outcomes[k].Renamed? then {entries[k]} else {})
  }

  /** Names produced by the renames so far. */
  function Targets(outcomes: seq<Outcome>): set<string> {
    if outcomes == [] then {}
    else
      var k := |outcomes| - 1;
      Targets(outcomes[..k]) + (if outcomes[k].Renamed? then {outcomes[k].target} else {})
  }

  /** A name is a source exactly when some entry of that name was renamed. */
  lemma {:induction false} SourcesAre(entries: seq<string>, outcomes: seq<Outcome>, f: string)
    requires |outcomes| == |entries|
    ensures f in Sources(entries, outcomes) <==>
      exists i :: 0 <= i < |outcomes| && entries[i] == f && outcomes[i].Renamed?
  {
    if outcomes != [] {
      var k := |outcomes| - 1;
      SourcesAre(entries[..k], outcomes[..k], f);
      if exists i :: 0 <= i < k && entries[..k][i] == f && outcomes[..k][i].Renamed? {
        var i :| 0 <= i < k && entries[..k][i] == f && outcomes[..k][i].Renamed?;
        assert outcomes[i] == outcomes[..k][i] && entries[i] == entries[..k][i];
      }
      if exists i :: 0 <= i < |outcomes| && entries[i] == f && outcomes[i].Renamed? {
        var i :| 0 <= i < |outcomes| && entries[i] == f && outcomes[i].Renamed?;
        if i < k {
          assert outcomes[..k][i] == outcomes[i] && entries[..k][i] == entries[i];
        }
      }
    }
  }

  /** A name is a target exactly when some rename produced it. */
  lemma {:induction false} TargetsAre(outcomes: seq<Outcome>, f: string)
    ensures f in Targets(outcomes) <==> exists i :: 0 <= i < |outcomes| && outcomes[i] == Renamed(f)
  {
    if outcomes != [] {
      var k := |outcomes| - 1;
      TargetsAre(outcomes[..k], f);
      if exists i :: 0 <= i < k && outcomes[..k][i] == Renamed(f) {
        var i :| 0 <= i < k && outcomes[..k][i] == Renamed(f);
        assert outcomes[i] == outcomes[..k][i];
      }
      if exists i :: 0 <= i < |outcomes| && outcomes[i] == Renamed(f) {
        var i :| 0 <= i < |outcomes| && outcomes[i] == Renamed(f);
        if i < k {
          assert outcomes[..k][i] == outcomes[i];
        }
      }
    }
  }

  /**
    The loop over the snapshot `entries` of the directory, `lookup` standing
    for the matcher applied to a file name: the outcome of every entry and
    the directory afterwards. The number of files never changes, a dry run
    changes nothing, a file disappears only by being renamed and a file
    appears only as a rename target.
   */
  function RunAll(d: Dir, entries: seq<string>, lookup: string -> Option<string>, dryRun: bool, failing: set<string>)
    : (r: (seq<Outcome>, Dir))
    ensures |r.0| == |entries|
    ensures r.1.subdirs == d.subdirs
    ensures |r.1.files| == |d.files|
    ensures dryRun ==> r.1 == d
    decreases |entries|
  {
    if entries == [] then ([], d)
    else
      var k := |entries| - 1;
      var prev := RunAll(d, entries[..k], lookup, dryRun, failing);
      var step := RenameStep(prev.1, entries[k], lookup(entries[k]), dryRun, failing);
      (prev.0 + [step.0], step.1)
  }

  /** The outcome of entry `i` is consistent with that entry's match. */
  lemma {:induction false} RunAllFits(d: Dir, entries: seq<string>, lookup: string -> Option<string>, dryRun: bool, failing: set<string>, i: nat)
    requires i < |entries|
    ensures Fits(entries[i], RunAll(d, entries, lookup, dryRun, failing).0[i], lookup(entries[i]), dryRun, failing)
    decreases |entries|
  {
    var k := |entries| - 1;
    var prev := RunAll(d, entries[..k], lookup, dryRun, failing);
    var step := RenameStep(prev.1, entries[k], lookup(entries[k]), dryRun, failing);
    var os := RunAll(d, entries, lookup, dryRun, failing).0;
    assert os == prev.0 + [step.0];
    if i < k {
      RunAllFits(d, entries[..k], lookup, dryRun, failing, i);
      assert entries[..k][i] == entries[i] && os[i] == prev.0[i];
    } else {
      assert os[i] == step.0;
    }
  }

  /**
    The run is the steps in order: entry `i` gets the outcome `RenameStep`
    decides on the directory that the entries before it left, and the
    directory after it is the one that step produces.
   */
  lemma RunAllSteps(d: Dir, entries: seq<string>, lookup: string -> Option<string>, dryRun: bool, failing: set<string>, i: nat)
    requires i < |entries|
    ensures var step := RenameStep(RunAll(d, entries[..i], lookup, dryRun, failing).1, entries[i], lookup(entries[i]), dryRun, failing);
      && RunAll(d, entries, lookup, dryRun, failing).0[i] == step.0
      && RunAll(d, entries[..i + 1], lookup, dryRun, failing).1 == step.1
  {
    var e := entries[..i + 1];
    RunAllLast(d, e, lookup, dryRun, failing);
    assert e[..i] == entries[..i] && e[i] == entries[i];
    RunAllPrefix(d, entries, lookup, dryRun, failing, i + 1);
    var os := RunAll(d, entries, lookup, dryRun, failing).0;
    assert RunAll(d, e, lookup, dryRun, failing).0[i] == os[..i + 1][i] == os[i];
  }

  lemma RunAllLast(d: Dir, e: seq<string>, lookup: string -> Option<string>, dryRun: bool, failing: set<string>)
    requires e != []
    ensures var k := |e| - 1;
      var step := RenameStep(RunAll(d, e[..k], lookup, dryRun, failing).1, e[k], lookup(e[k]), dryRun, failing);
      RunAll(d, e, lookup, dryRun, failing).0[k] == step.0 && RunAll(d, e, lookup, dryRun, failing).1 == step.1
  {
  }

  /** The outcomes of a prefix of the entries are the prefix of the outcomes. */
  lemma {:induction false} RunAllPrefix(d: Dir, entries: seq<string>, lookup: string -> Option<string>, dryRun: bool, failing: set<string>, j: nat)
    requires j <= |entries|
    ensures RunAll(d, entries[..j], lookup, dryRun, failing).0 == RunAll(d, entries, lookup, dryRun, failing).0[..j]
    decreases |entries|
  {
    if j < |entries| {
      var k := |entries| - 1;
      RunAllPrefix(d, entries[..k], lookup, dryRun, failing, j);
      assert entries[..k][..j] == entries[..j];
    } else {
      assert entries[..j] == entries;
    }
  }

  /**
    A file disappears only by being renamed, and a file appears only as a
    rename target.
   */
  lemma {:induction false} RunAllFiles(d: Dir, entries: seq<string>, lookup: string -> Option<string>, dryRun: bool, failing: set<string>)
    ensures var r := RunAll(d, entries, lookup, dryRun, failing);
      && d.files <= r.1.files + Sources(entries, r.0)
      && r.1.files <= d.files + Targets(r.0)
    decreases |entries|
  {
    if entries != [] {
      var k := |entries| - 1;
      RunAllFiles(d, entries[..k], lookup, dryRun, failing);
      var prev := RunAll(d, entries[..k], lookup, dryRun, failing);
      var step := RenameStep(prev.1, entries[k], lookup(entries[k]), dryRun, failing);
      var os := prev.0 + [step.0];
      assert RunAll(d, entries, lookup, dryRun, failing) == (os, step.1);
      assert os[..k] == prev.0 && os[k] == step.0;
      assert Sources(entries, os) == Sources(entries[..k], prev.0) + (if step.0.Renamed? then {entries[k]} else {});
      assert Targets(os) == Targets(prev.0) + (if step.0.Renamed? then {step.0.target} else {});
    }
  }

  /**
    `rename_images_by_gaming_id`: the loop with `find_matching_gaming_id`
    over `m` as the matcher, and the number of files counted as renamed
    (or, in dry-run mode, as would-be renamed).
   */
  function RenameImagesById(d: Dir, entries: seq<string>, m: GamingMap, dryRun: bool, failing: set<string>)
    : (r: (nat, seq<Outcome>, Dir))
    ensures |r.1| == |entries| && r.0 == CountOf(r.1) && r.0 <= |entries|
    ensures r.2.subdirs == d.subdirs && |r.2.files| == |d.files|
    ensures dryRun ==> r.2 == d
    ensures d.files <= r.2.files + Sources(entries, r.1)
    ensures r.2.files <= d.files + Targets(r.1)
    ensures forall i :: 0 <= i < |entries| ==> Fits(entries[i], r.1[i], FindMatchingId(entries[i], m), dryRun, failing)
  {
    var lookup := name => FindMatchingId(name, m);
    var run := RunAll(d, entries, lookup, dryRun, failing);
    forall i | 0 <= i < |entries|
      ensures Fits(entries[i], run.0[i], FindMatchingId(entries[i], m), dryRun, failing)
    {
      RunAllFits(d, entries, lookup, dryRun, failing, i);
    }
    RunAllFiles(d, entries, lookup, dryRun, failing);
    CountBound(run.0);
    (CountOf(run.0), run.0, run.1)
  }

  /**
    Each entry's outcome is what `RenameStep` decides, with the matcher's
    answer for its name, on the directory the run over the entries before it
    left behind; with `RenameStep`'s contract this says which entries are
    counted: exactly the images that matched, whose target name was free,
    and that were previewed or renamed without error.
   */
  lemma RenameImagesSteps(d: Dir, entries: seq<string>, m: GamingMap, dryRun: bool, failing: set<string>, i: nat)
    requires i < |entries|
    ensures var before := RenameImagesById(d, entries[..i], m, dryRun, failing).2;
      var step := RenameStep(before, entries[i], FindMatchingId(entries[i], m), dryRun, failing);
      && RenameImagesById(d, entries, m, dryRun, failing).1[i] == step.0
      && RenameImagesById(d, entries[..i + 1], m, dryRun, failing).2 == step.1
  {
    RunAllSteps(d, entries, name => FindMatchingId(name, m), dryRun, failing, i);
  }

  lemma {:induction false} CountBound(os: seq<Outcome>)
    ensures CountOf(os) <= |os|
  {
    if os != [] {
      CountBound(os[..|os| - 1]);
    }
  }

  /**
    A file whose entry was not renamed is still there afterwards: images
    without a match, non-images, skipped and failed renames all keep their
    names.
   */
  lemma UnrenamedStay(d: Dir, entries: seq<string>, m: GamingMap, dryRun: bool, failing: set<string>, f: string)
    requires f in d.files
    ensures var r := RenameImagesById(d, entries, m, dryRun, failing);
      (forall i :: 0 <= i < |entries| && entries[i] == f ==> !r.1[i].Renamed?) ==> f in r.2.files
  {
    var r := RenameImagesById(d, entries, m, dryRun, failing);
    SourcesAre(entries, r.1, f);
  }

  /** Every file present afterwards was there before or is the target of a rename. */
  lemma NewNamesAreTargets(d: Dir, entries: seq<string>, m: GamingMap, dryRun: bool, failing: set<string>, f: string)
    ensures var r := RenameImagesById(d, entries, m, dryRun, failing);
      f in r.2.files && f !in d.files ==> exists i :: 0 <= i < |entries| && r.1[i] == Renamed(f)
  {
    var r := RenameImagesById(d, entries, m, dryRun, failing);
    TargetsAre(r.1, f);
  }

  /** An unmatched image keeps its name, and so does every file that is not an image. */
  lemma UnmatchedKeepsName(d: Dir, entry: string, m: GamingMap, dryRun: bool, failing: set<string>)
    requires entry in d.files
    requires !IsImageName(entry) || FindMatchingId(entry, m).None?
    ensures var r := RenameStep(d, entry, FindMatchingId(entry, m), dryRun, failing);
      entry in r.1.files && !Counted(r.0)
  {
  }

  /** A rename never replaces an existing file or directory. */
  lemma RenameNeverOverwrites(d: Dir, entry: string, found: Option<string>, failing: set<string>)
    requires RenameStep(d, entry, found, false, failing).0.Renamed?
    ensures var r := RenameStep(d, entry, found, false, failing);
      r.0.target !in d.files && r.0.target !in d.subdirs && r.0.target in r.1.files && entry !in r.1.files
  {
  }

  /**
    `Dragon.png` matched to id "1" (see `DragonMatch`) becomes `1.png`; with
    `1.png` already present it is skipped.
   */
  lemma RenameExample()
    ensures RenameStep(Dir({"Dragon.png"}, {}), "Dragon.png", Some("1"), false, {})
      == (Renamed("1.png"), Dir({"1.png"}, {}))
    ensures RenameStep(Dir({"Dragon.png", "1.png"}, {}), "Dragon.png", Some("1"), false, {}).0
      == TargetExists("1.png")
  {
    LastDotIs("Dragon.png", 6);
    assert Suffix("Dragon.png") == ".png";
    assert LowerStr(".png") == ".png";
    assert TargetName("1", "Dragon.png") == "1.png";
    assert {"Dragon.png"} - {"Dragon.png"} + {"1.png"} == {"1.png"};
  }

  /** `{"dragon": "1"}` matches `Dragon.png` in the lower-case exact tier. */
  lemma DragonMatch()
    ensures FindMatchingId("Dragon.png", [("dragon", "1")]) == Some("1")
  {
    var name := "Dragon.png";
    LastDotIs(name, 6);
    assert Stem(name) == "Dragon";
    assert LowerStr("Dragon") == "dragon";
    assert Keys([("dragon", "1")]) == ["dragon"];
  }
}
