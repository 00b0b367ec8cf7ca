/**
  `collect_folder_map` and `move_images` from move_images_by_name.py: index
  the directories of a listing by lower-cased name, then move every image
  whose lower-cased stem names a folder into that folder, unless the folder
  already holds an image, under a name that overwrites nothing.

  Directory listings (`iterdir` / `rglob`) are snapshots passed in as
  sequences; whether an entry is a file or a directory is read from the
  tree at the moment it is looked at, as the lazy generators do.
 */
module MoveImages {
  import opened Wrappers
  import opened Text
  import opened PathName
  import opened OrderedDict
  import opened FileSystem
  import opened Placement

  type FolderMap = Dict<string, Path>

  /** The `folder_map[p.name.lower()] = p` assignments for the directories of the listing. */
  function FolderWrites(fs: FS, listing: seq<Path>): (ws: seq<(string, Path)>)
    ensures |ws| <= |listing|
    ensures forall i :: 0 <= i < |ws| ==> ws[i].1 in fs.dirs && ws[i].0 == LowerStr(Name(ws[i].1))
  {
    if listing == [] then []
    else
      var k := |listing| - 1;
      var p := listing[k];
      FolderWrites(fs, listing[..k]) + (if p in fs.dirs then [(LowerStr(Name(p)), p)] else [])
  }

  /** `collect_folder_map` over a listing. */
  function CollectFolderMap(fs: FS, listing: seq<Path>): (m: FolderMap)
    ensures Valid(m)
  {
    FromPairs(FolderWrites(fs, listing))
  }

  /** Reference reading: the last directory of the listing whose lower-cased name is `k`. */
  function LastFolder(fs: FS, listing: seq<Path>, k: string): Option<Path> {
    if listing == [] then None
    else
      var p := listing[|listing| - 1];
      if p in fs.dirs && LowerStr(Name(p)) == k then Some(p)
      else LastFolder(fs, listing[..|listing| - 1], k)
  }

  lemma {:induction false} LastFolderIsLastValue(fs: FS, listing: seq<Path>, k: string)
    ensures LastValue(FolderWrites(fs, listing), k) == LastFolder(fs, listing, k)
  {
    if listing != [] {
      var n := |listing| - 1;
      LastFolderIsLastValue(fs, listing[..n], k);
      var p := listing[n];
      if p in fs.dirs {
        var ws := FolderWrites(fs, listing);
        assert ws[..|ws| - 1] == FolderWrites(fs, listing[..n]);
        assert ws[|ws| - 1] == (LowerStr(Name(p)), p);
      } else {
        assert FolderWrites(fs, listing) == FolderWrites(fs, listing[..n]);
        assert LastFolder(fs, listing, k) == LastFolder(fs, listing[..n], k);
      }
    }
  }

  /**
    Keys are lower-cased directory names and, when two directories share
    one, the one listed last wins.
   */
  lemma FolderMapLastWins(fs: FS, listing: seq<Path>, k: string)
    ensures Get(CollectFolderMap(fs, listing), k) == LastFolder(fs, listing, k)
  {
    FromPairsLastWins(FolderWrites(fs, listing), k);
    LastFolderIsLastValue(fs, listing, k);
  }

  /** Every value of the map is a directory whose lower-cased name is its key. */
  lemma FolderMapValues(fs: FS, listing: seq<Path>, k: string)
    requires Get(CollectFolderMap(fs, listing), k).Some?
    ensures var p := Get(CollectFolderMap(fs, listing), k).value;
      p in fs.dirs && LowerStr(Name(p)) == k
  {
    FromPairsValues(FolderWrites(fs, listing), k);
  }

  /** A directory whose values are all directories of `fs` named by their keys. */
  ghost predicate FoldersOf(fs: FS, m: FolderMap) {
    forall i :: 0 <= i < |m| ==> m[i].1 in fs.dirs && m[i].0 == LowerStr(Name(m[i].1))
  }

  /** `p.is_file() and p.suffix.lower() in IMAGE_EXTENSIONS`. */
  predicate IsImage(fs: FS, f: FileRef) {
    f in fs.files && IsImageName(f.name)
  }

  /** `any(is image for p in dest_folder.iterdir())`. */
  predicate HasImage(fs: FS, dir: Path) {
    exists f | f in fs.files :: f.dir == dir && IsImageName(f.name)
  }

  /** Names of the files and directories directly inside `dir`. */
  function NamesIn(fs: FS, dir: Path): (r: set<string>)
    ensures forall n :: n in r <==> FileRef(dir, n) in fs.files || dir + [n] in fs.dirs
  {
    var fileNames := set f | f in fs.files && f.dir == dir :: f.name;
    var dirNames := set p | p in fs.dirs && |p| == |dir| + 1 && p[..|dir|] == dir :: p[|dir|];
    assert forall n :: dir + [n] in fs.dirs ==> (dir + [n])[|dir|] == n && (dir + [n])[..|dir|] == dir;
    assert forall p :: p in fs.dirs && |p| == |dir| + 1 && p[..|dir|] == dir ==> p == dir + [p[|dir|]];
    fileNames + dirNames
  }

  /** What happened to one image candidate. */
  datatype MoveOutcome =
    | NotImage
    | NoFolder
    | FolderHasImage(folder: Path)
    | Moved(dest: FileRef)

  /** The decision and its effect for one listed file, on the tree as it is now. */
  function MoveStep(fs: FS, img: FileRef, folders: FolderMap): (r: (MoveOutcome, FS))
    ensures fs.dirs <= r.1.dirs
    ensures |r.1.files| == |fs.files|
    ensures !r.0.Moved? ==> r.1 == fs
    ensures r.0.Moved? ==>
      && IsImage(fs, img)
      && Get(folders, LowerStr(Stem(img.name))) == Some(r.0.dest.dir)
      && !HasImage(fs, r.0.dest.dir)
      && r.0.dest !in fs.files
      && r.0.dest.name == NonOverwritingName(NamesIn(fs, r.0.dest.dir), img.name)
      && r.1.files == fs.files - {img} + {r.0.dest}
      && r.1.dirs == MakeDirs(fs, r.0.dest.dir).dirs
      && HasImage(r.1, r.0.dest.dir)
    ensures r.0 == NotImage <==> !IsImage(fs, img)
    ensures r.0 == NoFolder <==> IsImage(fs, img) && Get(folders, LowerStr(Stem(img.name))).None?
    ensures r.0.FolderHasImage? <==>
      IsImage(fs, img) && Get(folders, LowerStr(Stem(img.name))).Some?
      && HasImage(fs, Get(folders, LowerStr(Stem(img.name))).value)
  {
    if !IsImage(fs, img) then (NotImage, fs)
    else
      match Get(folders, LowerStr(Stem(img.name)))
      case None => (NoFolder, fs)
      case Some(dir) =>
        if HasImage(fs, dir) then (FolderHasImage(dir), fs)
        else
          var name := NonOverwritingName(NamesIn(fs, dir), img.name);
          var dest := FileRef(dir, name);
          PlacementKeepsImage(NamesIn(fs, dir), img.name);
          assert img.dir != dir;
          var made := MakeDirs(fs, dir);
          var next := FS(made.dirs, fs.files - {img} + {dest});
          assert dest in next.files;
          (Moved(dest), next)
  }

  /** Number of moved images. */
  function MovedCount(os: seq<MoveOutcome>): nat {
    if os == [] then 0 else MovedCount(os[..|os| - 1]) + (if os[|os| - 1].Moved? then 1 else 0)
  }

  /** The listed files moved so far (`outcomes[i]` belongs to `images[i]`). */
  function MovedFrom(images: seq<FileRef>, outcomes: seq<MoveOutcome>): set<FileRef>
    requires |outcomes| == |images|
  {
    if outcomes == [] then {}
    else
      var k := |outcomes| - 1;
      MovedFrom(images[..k], outcomes[..k]) + (if outcomes[k].Moved? then {images[k]} else {})
  }

  /** The files that moves so far created. */
  function MovedTo(outcomes: seq<MoveOutcome>): set<FileRef> {
    if outcomes == [] then {}
    else
      var k := |outcomes| - 1;
      MovedTo(outcomes[..k]) + (if outcomes[k].Moved? then {outcomes[k].dest} else {})
  }

  /**
    The loop of `move_images` over the listed files: the outcome of every
    file and the tree afterwards. The number of files never changes, no
    directory disappears, a file leaves its place only by being moved and a
    file appears only as the destination of a move.
   */
  function MoveAll(fs: FS, images: seq<FileRef>, folders: FolderMap): (r: (seq<MoveOutcome>, FS))
    ensures |r.0| == |images|
    ensures |r.1.files| == |fs.files|
    ensures fs.dirs <= r.1.dirs
    decreases |images|
  {
    if images == [] then ([], fs)
    else
      var k := |images| - 1;
      var prev := MoveAll(fs, images[..k], folders);
      var step := MoveStep(prev.1, images[k], folders);
      (prev.0 + [step.0], step.1)
  }

  /** A file leaves its place only by being moved, and appears only as the destination of a move. */
  lemma {:induction false} MoveAllFiles(fs: FS, images: seq<FileRef>, folders: FolderMap)
    ensures var r := MoveAll(fs, images, folders);
      && fs.files <= r.1.files + MovedFrom(images, r.0)
      && r.1.files <= fs.files + MovedTo(r.0)
    decreases |images|
  {
    if images != [] {
      var k := |images| - 1;
      MoveAllFiles(fs, images[..k], folders);
      var prev := MoveAll(fs, images[..k], folders);
      var step := MoveStep(prev.1, images[k], folders);
      var os := prev.0 + [step.0];
      assert MoveAll(fs, images, folders) == (os, step.1);
      assert os[..k] == prev.0 && os[k] == step.0;
      assert MovedFrom(images, os) == MovedFrom(images[..k], prev.0) + (if step.0.Moved? then {images[k]} else {});
      assert MovedTo(os) == MovedTo(prev.0) + (if step.0.Moved? then {step.0.dest} else {});
    }
  }

  /** `move_images`: the folder map of the listing, the moves, and the number moved. */
  function MoveImagesRun(fs: FS, folderListing: seq<Path>, images: seq<FileRef>): (r: (nat, seq<MoveOutcome>, FS))
    ensures |r.1| == |images| && r.0 == MovedCount(r.1)
    ensures |r.2.files| == |fs.files|
    ensures fs.dirs <= r.2.dirs
    ensures fs.files <= r.2.files + MovedFrom(images, r.1)
    ensures r.2.files <= fs.files + MovedTo(r.1)
  {
    var run := MoveAll(fs, images, CollectFolderMap(fs, folderListing));
    MoveAllFiles(fs, images, CollectFolderMap(fs, folderListing));
    (MovedCount(run.0), run.0, run.1)
  }

  lemma MoveAllLast(fs: FS, e: seq<FileRef>, folders: FolderMap)
    requires e != []
    ensures var k := |e| - 1;
      var step := MoveStep(MoveAll(fs, e[..k], folders).1, e[k], folders);
      MoveAll(fs, e, folders).0[k] == step.0 && MoveAll(fs, e, folders).1 == step.1
  {
  }

  /** The outcomes of a prefix of the listing are the prefix of the outcomes. */
  lemma {:induction false} MoveAllPrefix(fs: FS, images: seq<FileRef>, folders: FolderMap, j: nat)
    requires j <= |images|
    ensures MoveAll(fs, images[..j], folders).0 == MoveAll(fs, images, folders).0[..j]
    decreases |images|
  {
    if j < |images| {
      var k := |images| - 1;
      MoveAllPrefix(fs, images[..k], folders, j);
      assert images[..k][..j] == images[..j];
      var prev := MoveAll(fs, images[..k], folders);
      var x := MoveStep(prev.1, images[k], folders).0;
      assert MoveAll(fs, images, folders).0 == prev.0 + [x];
      SnocPrefix(prev.0, x, j);
    } else {
      assert images[..j] == images;
    }
  }

  lemma SnocPrefix<T>(a: seq<T>, x: T, j: nat)
    requires j <= |a|
    ensures (a + [x])[..j] == a[..j]
  {
  }

  /**
    The run is the steps in order: file `i` gets the outcome `MoveStep`
    decides on the tree the files before it left, and the tree after it is
    the one that step produces.
   */
  lemma MoveAllSteps(fs: FS, images: seq<FileRef>, folders: FolderMap, i: nat)
    requires i < |images|
    ensures var step := MoveStep(MoveAll(fs, images[..i], folders).1, images[i], folders);
      && MoveAll(fs, images, folders).0[i] == step.0
      && MoveAll(fs, images[..i + 1], folders).1 == step.1
  {
    var e := images[..i + 1];
    MoveAllLast(fs, e, folders);
    assert e[..i] == images[..i] && e[i] == images[i];
    MoveAllPrefix(fs, images, folders, i + 1);
    var os := MoveAll(fs, images, folders).0;
    assert MoveAll(fs, e, folders).0 == os[..i + 1];
    assert os[..i + 1][i] == os[i];
  }

  /**
    `move_images` file by file: with the folder map collected once from the
    tree as it was at the start, each listed file gets the outcome
    `MoveStep` decides on the tree the earlier files left. With `MoveStep`'s
    contract: a listed image whose lower-cased stem names a folder holding no
    image is moved into that very folder under the non-overwriting name, and
    every other file is skipped without being counted.
   */
  lemma MoveImagesSteps(fs: FS, folderListing: seq<Path>, images: seq<FileRef>, i: nat)
    requires i < |images|
    ensures var before := MoveImagesRun(fs, folderListing, images[..i]).2;
      var step := MoveStep(before, images[i], CollectFolderMap(fs, folderListing));
      && MoveImagesRun(fs, folderListing, images).1[i] == step.0
      && MoveImagesRun(fs, folderListing, images[..i + 1]).2 == step.1
  {
    MoveAllSteps(fs, images, CollectFolderMap(fs, folderListing), i);
  }

  /** A moved image went to the folder its lower-cased stem names, and only if that folder had no image. */
  lemma MovedOnlyToMatchingFolder(fs: FS, img: FileRef, folders: FolderMap)
    requires MoveStep(fs, img, folders).0.Moved?
    ensures var d := MoveStep(fs, img, folders).0.dest;
      && Get(folders, LowerStr(Stem(img.name))) == Some(d.dir)
      && !HasImage(fs, d.dir)
      && d !in fs.files
      && d.name !in NamesIn(fs, d.dir)
  {
  }

  /** No listed image sits in one of the map's folders. */
  ghost predicate OutsideFolders(images: seq<FileRef>, folders: FolderMap) {
    forall i :: 0 <= i < |images| ==> !HasValue(folders, images[i].dir)
  }

  /** Every move of the run went into a folder of the map. */
  ghost predicate IntoFolders(outcomes: seq<MoveOutcome>, folders: FolderMap) {
    forall i :: 0 <= i < |outcomes| && outcomes[i].Moved? ==> HasValue(folders, outcomes[i].dest.dir)
  }

  /** Every folder that received an image in the run still holds one. */
  ghost predicate ReceiversHoldImages(fs: FS, outcomes: seq<MoveOutcome>) {
    forall i :: 0 <= i < |outcomes| && outcomes[i].Moved? ==> HasImage(fs, outcomes[i].dest.dir)
  }

  /** No two moves of the run went into the same folder. */
  ghost predicate OnePerFolder(outcomes: seq<MoveOutcome>) {
    forall i, j :: 0 <= i < j < |outcomes| && outcomes[i].Moved? && outcomes[j].Moved? ==>
      outcomes[i].dest.dir != outcomes[j].dest.dir
  }

  /**
    The skip rule at work: when no listed image already sits in a folder of
    the map, every folder receives at most one image in a run, and keeps it.
   */
  lemma {:induction false} MoveAllOnePerFolder(fs: FS, images: seq<FileRef>, folders: FolderMap)
    requires OutsideFolders(images, folders)
    ensures var r := MoveAll(fs, images, folders);
      IntoFolders(r.0, folders) && ReceiversHoldImages(r.1, r.0) && OnePerFolder(r.0)
  {
    if images != [] {
      var k := |images| - 1;
      assert OutsideFolders(images[..k], folders) by {
        forall i | 0 <= i < k ensures !HasValue(folders, images[..k][i].dir) {
          assert images[..k][i] == images[i];
        }
      }
      MoveAllOnePerFolder(fs, images[..k], folders);
      var prev := MoveAll(fs, images[..k], folders);
      var step := MoveStep(prev.1, images[k], folders);
      var os := prev.0 + [step.0];
      assert MoveAll(fs, images, folders) == (os, step.1);
      assert |prev.0| == k;
      forall i | 0 <= i < |os| && os[i].Moved?
        ensures HasValue(folders, os[i].dest.dir)
      {
        if i < k {
          assert os[i] == prev.0[i];
        }
      }
      forall i | 0 <= i < |os| && os[i].Moved?
        ensures HasImage(step.1, os[i].dest.dir)
      {
        if i < k && step.0.Moved? {
          assert os[i] == prev.0[i];
          var dir := os[i].dest.dir;
          assert HasImage(prev.1, dir);
          var f :| f in prev.1.files && f.dir == dir && IsImageName(f.name);
          assert HasValue(folders, dir);
          assert images[k].dir != dir;
          assert f in step.1.files;
        } else if i < k {
          assert os[i] == prev.0[i];
        }
      }
      forall i, j | 0 <= i < j < |os| && os[i].Moved? && os[j].Moved?
        ensures os[i].dest.dir != os[j].dest.dir
      {
        assert os[i] == prev.0[i];
        if j < k {
          assert os[j] == prev.0[j];
        } else {
          assert HasImage(prev.1, os[i].dest.dir);
        }
      }
    }
  }

  /** The folders that received a move. */
  function MovedDirs(os: seq<MoveOutcome>): (r: set<Path>)
    ensures forall p :: p in r ==> exists i :: 0 <= i < |os| && os[i].Moved? && os[i].dest.dir == p
  {
    if os == [] then {}
    else
      var k := |os| - 1;
      MovedDirs(os[..k]) + (if os[k].Moved? then {os[k].dest.dir} else {})
  }

  /** The distinct folders of the map. */
  function FolderValues(folders: FolderMap): (r: set<Path>)
    ensures |r| <= |folders|
    ensures forall p :: HasValue(folders, p) ==> p in r
  {
    if folders == [] then {}
    else
      var k := |folders| - 1;
      var rest := FolderValues(folders[..k]);
      assert forall p :: HasValue(folders, p) && p != folders[k].1 ==> HasValue(folders[..k], p) by {
        forall p | HasValue(folders, p) && p != folders[k].1 ensures HasValue(folders[..k], p) {
          var i :| 0 <= i < |folders| && folders[i].1 == p;
          assert folders[..k][i] == folders[i];
        }
      }
      rest + {folders[k].1}
  }

  /** When no two moves share a folder, the count is the number of receiving folders. */
  lemma {:induction false} MovedDirsCount(os: seq<MoveOutcome>)
    requires OnePerFolder(os)
    ensures |MovedDirs(os)| == MovedCount(os)
  {
    if os != [] {
      var k := |os| - 1;
      assert OnePerFolder(os[..k]) by {
        forall i, j | 0 <= i < j < k && os[..k][i].Moved? && os[..k][j].Moved?
          ensures os[..k][i].dest.dir != os[..k][j].dest.dir
        {
          assert os[..k][i] == os[i] && os[..k][j] == os[j];
        }
      }
      MovedDirsCount(os[..k]);
    }
  }

  /**
    Under the same hypothesis as `MoveAllOnePerFolder`, a run moves at most
    one image per folder of the map.
   */
  lemma MovedCountBound(fs: FS, images: seq<FileRef>, folders: FolderMap)
    requires OutsideFolders(images, folders)
    ensures MovedCount(MoveAll(fs, images, folders).0) <= |folders|
  {
    var os := MoveAll(fs, images, folders).0;
    MoveAllOnePerFolder(fs, images, folders);
    MovedDirsCount(os);
    assert MovedDirs(os) <= FolderValues(folders);
    SubsetSize(MovedDirs(os), FolderValues(folders));
  }

  /** `cat.png` beside folder `Cat`, which holds `cat_old.jpg`, is skipped and nothing changes. */
  lemma SkipExample(fs: FS, img: FileRef, folders: FolderMap)
    requires fs == FS({[], ["Cat"]}, {FileRef([], "cat.png"), FileRef(["Cat"], "cat_old.jpg")})
    requires img == FileRef([], "cat.png") && folders == [("cat", ["Cat"])]
    ensures MoveStep(fs, img, folders) == (FolderHasImage(["Cat"]), fs)
  {
    var held := FileRef(["Cat"], "cat_old.jpg");
    CatNames(img.name, held.name);
    assert IsImage(fs, img);
    assert Get(folders, "cat") == Some(["Cat"]);
    assert held in fs.files && held.dir == ["Cat"];
    assert HasImage(fs, ["Cat"]);
  }

  lemma CatNames(a: string, b: string)
    requires a == "cat.png" && b == "cat_old.jpg"
    ensures IsImageName(a) && IsImageName(b) && LowerStr(Stem(a)) == "cat"
  {
    LastDotIs(a, 3);
    LastDotIs(b, 7);
    assert Stem(a) == "cat" && Suffix(a) == ".png" && Suffix(b) == ".jpg";
    assert LowerStr(".png") == ".png" && LowerStr(".jpg") == ".jpg" && LowerStr("cat") == "cat";
  }

  /** `dragon.png` beside folder `Dragon`, which holds only `notes.txt`, moves in under its own name. */
  lemma MoveExample(fs: FS, img: FileRef, folders: FolderMap)
    requires fs == FS({[], ["Dragon"]}, {FileRef([], "dragon.png"), FileRef(["Dragon"], "notes.txt")})
    requires img == FileRef([], "dragon.png") && folders == [("dragon", ["Dragon"])]
    ensures MoveStep(fs, img, folders).0 == Moved(FileRef(["Dragon"], "dragon.png"))
  {
    var notes := FileRef(["Dragon"], "notes.txt");
    DragonNames(img.name, notes.name);
    assert IsImage(fs, img);
    assert Get(folders, "dragon") == Some(["Dragon"]);
    assert !HasImage(fs, ["Dragon"]) by {
      forall f | f in fs.files
        ensures !(f.dir == ["Dragon"] && IsImageName(f.name))
      {
        assert f == img || f == notes;
      }
    }
    assert ["Dragon", img.name] !in fs.dirs;
    assert FileRef(["Dragon"], img.name) !in fs.files;
    assert img.name !in NamesIn(fs, ["Dragon"]);
  }

  lemma DragonNames(a: string, b: string)
    requires a == "dragon.png" && b == "notes.txt"
    ensures IsImageName(a) && !IsImageName(b) && LowerStr(Stem(a)) == "dragon"
  {
    LastDotIs(a, 6);
    LastDotIs(b, 5);
    assert Stem(a) == "dragon" && Suffix(a) == ".png" && Suffix(b) == ".txt";
    assert LowerStr(".png") == ".png" && LowerStr(".txt") == ".txt" && LowerStr("dragon") == "dragon";
  }
}
