/**
  `create_directories_from_json` from createfile.py: one directory per
  platform under the output root and one per named item under its platform,
  created with `os.makedirs(..., exist_ok=True)`; the list of touched paths is
  returned for reporting.
 */
module CreateDirs {
  import opened FileSystem
  import opened Catalog
  import opened Sanitize

  /** `platform.get("gamingPlatformName") or f"platform_{platform_id}"`. */
  function PlatformLabel(pid: string, p: Platform): string {
    if p.name != "" then p.name else "platform_" + pid
  }

  /*
    The planning functions take the name cleaner `clean` as a parameter;
    createfile.py uses `sanitize_name`. Ordering and coverage hold whatever
    the cleaner is.
   */

  function PlatformDir(base: Path, pid: string, p: Platform, clean: string -> string): Path {
    base + [clean(PlatformLabel(pid, p))]
  }

  /** The directories of the items that have a name, in list order. */
  function ItemDirs(pdir: Path, items: seq<Item>, clean: string -> string): seq<Path> {
    if items == [] then []
    else
      var own := if items[0].name != "" then [pdir + [clean(items[0].name)]] else [];
      own + ItemDirs(pdir, items[1..], clean)
  }

  /** The paths one platform contributes: its own, then its items'. */
  function Block(base: Path, entry: (string, Platform), clean: string -> string): seq<Path> {
    var pdir := PlatformDir(base, entry.0, entry.1, clean);
    [pdir] + ItemDirs(pdir, entry.1.items, clean)
  }

  /** The ordered list of touched paths. */
  function Plan(base: Path, cat: Catalog, clean: string -> string): seq<Path> {
    if cat == [] then [] else Block(base, cat[0], clean) + Plan(base, cat[1..], clean)
  }

  /** The `os.makedirs` calls, one after another. */
  function MakeAll(fs: FS, ps: seq<Path>): (r: FS)
    ensures r.files == fs.files
    ensures forall q :: q in r.dirs <==> q in fs.dirs || exists i :: 0 <= i < |ps| && IsAncestor(q, ps[i])
    decreases |ps|
  {
    if ps == [] then fs
    else
      var r := MakeAll(MakeDirs(fs, ps[0]), ps[1..]);
      assert forall i :: 0 <= i < |ps| - 1 ==> ps[1..][i] == ps[i + 1];
      r
  }

  function NamedCount(items: seq<Item>): nat {
    if items == [] then 0 else (if items[0].name != "" then 1 else 0) + NamedCount(items[1..])
  }

  /** Number of items, across the catalogue, whose name is non-empty. */
  function NamedItemCount(cat: Catalog): nat {
    if cat == [] then 0 else NamedCount(cat[0].1.items) + NamedItemCount(cat[1..])
  }

  /**
    The whole run with a given name cleaner: the touched paths and the
    resulting tree. Every path lies one or two levels below `base`, exists
    afterwards, and no directory other than those paths, their ancestors and
    `base` is created.
   */
  function Materialize(cat: Catalog, base: Path, fs: FS, clean: string -> string): (r: (seq<Path>, FS))
    ensures |r.0| == |cat| + NamedItemCount(cat)
    ensures forall i :: 0 <= i < |r.0| ==> Under(base, r.0[i]) && |r.0[i]| <= |base| + 2
    ensures ParentsFirst(r.0, |base| + 1)
    ensures SegmentsCleaned(r.0, |base|, clean)
    ensures r.1.files == fs.files
    ensures base in r.1.dirs && fs.dirs <= r.1.dirs
    ensures forall i :: 0 <= i < |r.0| ==> r.0[i] in r.1.dirs
    ensures forall q :: q in r.1.dirs ==>
      q in fs.dirs || IsAncestor(q, base) || exists i :: 0 <= i < |r.0| && IsAncestor(q, r.0[i])
  {
    var paths := Plan(base, cat, clean);
    PlanLength(base, cat, clean);
    PlanUnderBase(base, cat, clean);
    PlanParentsFirst(base, cat, clean);
    PlanSegments(base, cat, clean);
    var fs1 := MakeDirs(fs, base);
    var fs2 := MakeAll(fs1, paths);
    assert forall i :: 0 <= i < |paths| ==> IsAncestor(paths[i], paths[i]);
    (paths, fs2)
  }

  /** `create_directories_from_json`: the run with `sanitize_name` as the cleaner. */
  function CreateDirectories(cat: Catalog, base: Path, fs: FS): (r: (seq<Path>, FS))
    ensures |r.0| == |cat| + NamedItemCount(cat)
    ensures forall i :: 0 <= i < |r.0| ==> Under(base, r.0[i]) && |r.0[i]| <= |base| + 2
    ensures forall i :: 0 <= i < |r.0| ==> r.0[i] in r.1.dirs
    ensures forall i, k :: 0 <= i < |r.0| && |base| <= k < |r.0[i]| ==> WindowsSafe(r.0[i][k])
  {
    Materialize(cat, base, fs, SanitizeName)
  }

  lemma {:induction false} ItemDirsShape(base: Path, pdir: Path, items: seq<Item>, clean: string -> string)
    requires |pdir| == |base| + 1 && pdir[..|base|] == base
    ensures |ItemDirs(pdir, items, clean)| == NamedCount(items)
    ensures forall i :: 0 <= i < |ItemDirs(pdir, items, clean)| ==>
      |ItemDirs(pdir, items, clean)[i]| == |base| + 2 && ItemDirs(pdir, items, clean)[i][..|base| + 1] == pdir
  {
    if items != [] {
      ItemDirsShape(base, pdir, items[1..], clean);
      var head: seq<Path> := if items[0].name != "" then [pdir + [clean(items[0].name)]] else [];
      assert forall i :: 0 <= i < |head| ==> head[i][..|base| + 1] == pdir;
    }
  }

  lemma {:induction false} PlanLength(base: Path, cat: Catalog, clean: string -> string)
    ensures |Plan(base, cat, clean)| == |cat| + NamedItemCount(cat)
  {
    if cat != [] {
      ItemDirsShape(base, PlatformDir(base, cat[0].0, cat[0].1, clean), cat[0].1.items, clean);
      PlanLength(base, cat[1..], clean);
    }
  }

  lemma {:induction false} PlanUnderBase(base: Path, cat: Catalog, clean: string -> string)
    ensures forall i :: 0 <= i < |Plan(base, cat, clean)| ==>
      Under(base, Plan(base, cat, clean)[i]) && |Plan(base, cat, clean)[i]| <= |base| + 2
  {
    if cat != [] {
      var pdir := PlatformDir(base, cat[0].0, cat[0].1, clean);
      ItemDirsShape(base, pdir, cat[0].1.items, clean);
      PlanUnderBase(base, cat[1..], clean);
      var b := Block(base, cat[0], clean);
      var rest := Plan(base, cat[1..], clean);
      assert forall i :: 0 <= i < |b| ==> Under(base, b[i]) && |b[i]| <= |base| + 2;
      assert forall i :: 0 <= i < |rest| ==> Under(base, rest[i]) && |rest[i]| <= |base| + 2;
    }
  }

  /** `seg` is an output of the cleaner. */
  ghost predicate Cleaned(seg: string, clean: string -> string) {
    exists s :: seg == clean(s)
  }

  /** Every segment of every path past position `from` is an output of the cleaner. */
  ghost predicate SegmentsCleaned(ps: seq<Path>, from: nat, clean: string -> string) {
    forall i, k :: 0 <= i < |ps| && from <= k < |ps[i]| ==> Cleaned(ps[i][k], clean)
  }

  /** Every segment below `base` is the cleaner's output for some name. */
  lemma {:induction false} PlanSegments(base: Path, cat: Catalog, clean: string -> string)
    ensures SegmentsCleaned(Plan(base, cat, clean), |base|, clean)
  {
    if cat != [] {
      var lbl := PlatformLabel(cat[0].0, cat[0].1);
      var pdir := PlatformDir(base, cat[0].0, cat[0].1, clean);
      assert pdir[|base|] == clean(lbl);
      assert Cleaned(pdir[|base|], clean);
      ItemSegments(base, pdir, cat[0].1.items, clean);
      PlanSegments(base, cat[1..], clean);
      var b := Block(base, cat[0], clean);
      var rest := Plan(base, cat[1..], clean);
      assert b == [pdir] + ItemDirs(pdir, cat[0].1.items, clean);
      assert SegmentsCleaned(b, |base|, clean);
      assert Plan(base, cat, clean) == b + rest;
    }
  }

  lemma {:induction false} ItemSegments(base: Path, pdir: Path, items: seq<Item>, clean: string -> string)
    requires |pdir| == |base| + 1 && pdir[..|base|] == base
    requires Cleaned(pdir[|base|], clean)
    ensures SegmentsCleaned(ItemDirs(pdir, items, clean), |base|, clean)
  {
    if items != [] {
      ItemSegments(base, pdir, items[1..], clean);
      if items[0].name != "" {
        var d := pdir + [clean(items[0].name)];
        assert d[|base| + 1] == clean(items[0].name);
        assert Cleaned(d[|base| + 1], clean);
        assert SegmentsCleaned([d], |base|, clean);
      }
    }
  }

  /** Some earlier entry of `ps` is the parent of entry `j`. */
  ghost predicate ParentBefore(ps: seq<Path>, j: nat, depth: nat)
    requires j < |ps| && depth <= |ps[j]|
  {
    exists i :: 0 <= i < j && ps[i] == ps[j][..depth]
  }

  /** Every entry `depth + 1` segments long comes after its parent. */
  ghost predicate ParentsFirst(ps: seq<Path>, depth: nat) {
    forall j :: 0 <= j < |ps| && |ps[j]| == depth + 1 ==> ParentBefore(ps, j, depth)
  }

  /**
    Every item directory is listed after the directory of its platform: its
    parent occurs at an earlier position of the list, so `os.makedirs` of the
    parent always precedes that of the child.
   */
  lemma {:induction false} PlanParentsFirst(base: Path, cat: Catalog, clean: string -> string)
    ensures ParentsFirst(Plan(base, cat, clean), |base| + 1)
  {
    if cat != [] {
      var ps := Plan(base, cat, clean);
      var b := Block(base, cat[0], clean);
      var rest := Plan(base, cat[1..], clean);
      assert ps == b + rest;
      var pdir := PlatformDir(base, cat[0].0, cat[0].1, clean);
      ItemDirsShape(base, pdir, cat[0].1.items, clean);
      PlanParentsFirst(base, cat[1..], clean);
      forall j | 0 <= j < |ps| && |ps[j]| == |base| + 2
        ensures ParentBefore(ps, j, |base| + 1)
      {
        if j < |b| {
          assert j != 0;
          assert ps[0] == pdir;
          assert ps[j] == ItemDirs(pdir, cat[0].1.items, clean)[j - 1];
        } else {
          var j' := j - |b|;
          assert ps[j] == rest[j'];
          assert ParentBefore(rest, j', |base| + 1);
          var i' :| 0 <= i' < j' && rest[i'] == rest[j'][..|base| + 1];
          assert ps[i' + |b|] == rest[i'];
        }
      }
    }
  }

  /** Every named item gets the directory `platformDir / clean(name)`. */
  lemma {:induction false} ItemDirsCover(pdir: Path, items: seq<Item>, m: nat, clean: string -> string)
    requires m < |items| && items[m].name != ""
    ensures pdir + [clean(items[m].name)] in ItemDirs(pdir, items, clean)
  {
    if m > 0 {
      ItemDirsCover(pdir, items[1..], m - 1, clean);
    }
  }

  /** Every platform directory, and every named item's directory, is in the list. */
  lemma {:induction false} PlanCoversCatalog(base: Path, cat: Catalog, k: nat, clean: string -> string)
    requires k < |cat|
    ensures PlatformDir(base, cat[k].0, cat[k].1, clean) in Plan(base, cat, clean)
    ensures forall m :: 0 <= m < |cat[k].1.items| && cat[k].1.items[m].name != "" ==>
      PlatformDir(base, cat[k].0, cat[k].1, clean) + [clean(cat[k].1.items[m].name)] in Plan(base, cat, clean)
  {
    if k == 0 {
      var pdir := PlatformDir(base, cat[0].0, cat[0].1, clean);
      forall m | 0 <= m < |cat[0].1.items| && cat[0].1.items[m].name != ""
        ensures pdir + [clean(cat[0].1.items[m].name)] in Plan(base, cat, clean)
      {
        ItemDirsCover(pdir, cat[0].1.items, m, clean);
      }
    } else {
      PlanCoversCatalog(base, cat[1..], k - 1, clean);
    }
  }

  /** Running the materializer again on its own result changes nothing. */
  lemma CreateDirectoriesIdempotent(cat: Catalog, base: Path, fs: FS)
    ensures var once := CreateDirectories(cat, base, fs).1;
      CreateDirectories(cat, base, once) == (Plan(base, cat, SanitizeName), once)
  {
    var once := CreateDirectories(cat, base, fs).1;
    var twice := CreateDirectories(cat, base, once).1;
    assert twice.dirs == once.dirs;
  }

  /** The one-platform, one-item catalogue yields exactly `Slots` and `Slots/Lucky7`. */
  lemma SlotsExample()
    ensures var cat := [("1", Platform("", "1", "", "Slots", [Item("Lucky7", "", "", "100")]))];
      var r := CreateDirectories(cat, [], FS({[]}, {}));
      && r.0 == [["Slots"], ["Slots", "Lucky7"]]
      && r.1.dirs == {[], ["Slots"], ["Slots", "Lucky7"]}
  {
    SanitizeKeepsPlainName();
    SanitizeKeepsSlots();
    MaterializeSlots(SanitizeName, [("1", Platform("", "1", "", "Slots", [Item("Lucky7", "", "", "100")]))]);
  }

  lemma MaterializeSlots(clean: string -> string, cat: Catalog)
    requires clean("Slots") == "Slots" && clean("Lucky7") == "Lucky7"
    requires cat == [("1", Platform("", "1", "", "Slots", [Item("Lucky7", "", "", "100")]))]
    ensures var r := Materialize(cat, [], FS({[]}, {}), clean);
      && r.0 == [["Slots"], ["Slots", "Lucky7"]]
      && r.1.dirs == {[], ["Slots"], ["Slots", "Lucky7"]}
  {
    SlotsPlan(clean, cat);
    var r := Materialize(cat, [], FS({[]}, {}), clean);
    var paths := r.0;
    assert paths == [["Slots"], ["Slots", "Lucky7"]];
    var expected: set<Path> := {[], ["Slots"], ["Slots", "Lucky7"]};
    forall q | q in r.1.dirs
      ensures q in expected
    {
      if q != [] {
        var i :| 0 <= i < |paths| && IsAncestor(q, paths[i]);
        AncestorOfSlots(q, paths[i]);
      }
    }
    assert IsAncestor(["Slots"], paths[1]) by {
      assert paths[1][..1] == ["Slots"];
    }
  }

  /** The non-empty ancestors of the two planned paths are the paths themselves. */
  lemma AncestorOfSlots(q: Path, p: Path)
    requires q != [] && IsAncestor(q, p)
    requires p == ["Slots"] || p == ["Slots", "Lucky7"]
    ensures q == ["Slots"] || q == ["Slots", "Lucky7"]
  {
    assert q == p[..|q|];
  }

  lemma SlotsPlan(clean: string -> string, cat: Catalog)
    requires clean("Slots") == "Slots" && clean("Lucky7") == "Lucky7"
    requires cat == [("1", Platform("", "1", "", "Slots", [Item("Lucky7", "", "", "100")]))]
    ensures Plan([], cat, clean) == [["Slots"], ["Slots", "Lucky7"]]
  {
    var p := cat[0].1;
    assert PlatformLabel("1", p) == "Slots";
    var pdir := PlatformDir([], "1", p, clean);
    assert pdir == ["Slots"];
    assert p.items[1..] == [];
    assert ItemDirs(pdir, p.items[1..], clean) == [];
    assert pdir + [clean("Lucky7")] == ["Slots", "Lucky7"];
    assert ItemDirs(pdir, p.items, clean) == [["Slots", "Lucky7"]];
    assert cat[1..] == [];
  }
}
