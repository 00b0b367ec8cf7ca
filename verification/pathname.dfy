/**
  `pathlib.PurePath.stem` / `.suffix` on a bare file name, and the image test
  shared by rename_images_by_gaming_item.py and move_images_by_name.py.
 */
module PathName {
  import opened Text

  /** `name.rfind('.')`: index of the last dot, -1 when there is none. */
  function LastDot(name: string): (i: int)
    ensures -1 <= i < |name|
    ensures i >= 0 ==> name[i] == '.'
    ensures forall j :: i < j < |name| ==> name[j] != '.'
  {
    if name == [] then -1
    else if name[|name| - 1] == '.' then |name| - 1
    else LastDot(name[..|name| - 1])
  }

  /** Characterises `LastDot` by its two defining facts. */
  lemma LastDotIs(name: string, i: nat)
    requires i < |name| && name[i] == '.'
    requires forall j :: i < j < |name| ==> name[j] != '.'
    ensures LastDot(name) == i
  {
  }

  /** A suffix exists only when the last dot is neither the first nor the last character. */
  predicate HasSuffix(name: string) {
    0 < LastDot(name) < |name| - 1
  }

  function Suffix(name: string): (r: string)
    ensures r == [] <==> !HasSuffix(name)
    ensures r != [] ==> |r| >= 2 && r[0] == '.' && '.' !in r[1..]
  {
    if HasSuffix(name) then name[LastDot(name)..] else ""
  }

  function Stem(name: string): (r: string)
    ensures r + Suffix(name) == name
    ensures !HasSuffix(name) ==> r == name
    ensures HasSuffix(name) ==> r != [] && r[0] == name[0]
  {
    if HasSuffix(name) then name[..LastDot(name)] else name
  }

  /** IMAGE_EXTENSIONS, compared after lower-casing the suffix. */
  const ImageExtensions: set<string> := {".jpg", ".jpeg", ".png", ".gif", ".bmp", ".webp"}

  predicate IsImageName(name: string) {
    LowerStr(Suffix(name)) in ImageExtensions
  }

  /** An image name always has a real suffix, so its stem is a proper prefix. */
  lemma ImageNameHasSuffix(name: string)
    requires IsImageName(name)
    ensures HasSuffix(name)
    ensures |Stem(name)| < |name|
  {
    assert LowerStr("") !in ImageExtensions;
  }

  /** `dragon.png` has stem `dragon` and suffix `.png`. */
  lemma DragonParts()
    ensures Suffix("dragon.png") == ".png" && Stem("dragon.png") == "dragon"
  {
    LastDotIs("dragon.png", 6);
  }

  /** The extension test ignores case. */
  lemma UpperCaseImage()
    ensures IsImageName("Cat.PNG")
  {
    LastDotIs("Cat.PNG", 3);
    assert Suffix("Cat.PNG") == ".PNG";
    assert LowerStr(".PNG") == ".png";
  }

  /** A dot at the very start or the very end is not a suffix. */
  lemma EdgeDotsNoSuffix()
    ensures Stem(".png") == ".png" && !IsImageName(".png")
    ensures Stem("photo.") == "photo." && !IsImageName("photo.")
  {
    LastDotIs(".png", 0);
    LastDotIs("photo.", 5);
  }

  /** Only the last suffix counts. */
  lemma LastSuffixCounts()
    ensures Stem("a.tar.gif") == "a.tar" && IsImageName("a.tar.gif")
  {
    LastDotIs("a.tar.gif", 5);
    assert Suffix("a.tar.gif") == ".gif";
    assert LowerStr(".gif") == ".gif";
  }

  lemma TextIsNotImage()
    ensures !IsImageName("notes.txt")
  {
    LastDotIs("notes.txt", 5);
    assert Suffix("notes.txt") == ".txt";
    assert LowerStr(".txt") == ".txt";
  }
}
