# Image and catalogue helpers of `pic`, modelled in Dafny

The `pic` scripts manage a catalogue of gaming platforms and their items, and the
images that belong to those items. This project models the decision logic at the
core of four of the scripts and proves properties of it.

- **createfile.py.** `sanitize_name` turns a catalogue name into a Windows-safe
  directory name. `create_directories_from_json` creates one directory per platform
  and one per named item, and returns the touched paths in order
  (`sanitize.dfy`, `create_dirs.dfy`).
- **rename_images_by_gaming_item.py.** The item loop of `load_gaming_data` builds a
  name → `gamingItemId` map, with an optional `gamingType` filter. The four-tier
  matcher `find_matching_gaming_id` resolves an image stem against that map.
  `rename_images_by_gaming_id` renames, previews or skips each file of a directory
  (`gaming_index.dfy`, `rename_images.dfy`).
- **move_images_by_name.py.** `collect_folder_map` indexes directories by their
  lower-cased name. `make_non_overwriting_path` picks the first free `stem_k.ext`.
  `move_images` moves an image into the folder its stem names, unless that folder
  already holds an image (`placement.dfy`, `move_images.dfy`).
- **query.py.** `find_dicts_with_keys` searches a JSON tree in pre-order.
  `parse_types` reads either `a-b` or a comma list (`json_search.dfy`,
  `parse_types.dfy`).

Shared building blocks:

- `text.dfy`: ASCII `lower`, `strip`, `split`, `join`.
- `decimal.dfy`: `str(n)` and `int(s)`.
- `pathname.dfy`: `Path.stem`, `Path.suffix` and the image-extension test.
- `ordered_dict.dfy`: a Python `dict` as an insertion-ordered association list. Assigning to an existing key updates it in place.
- `filesystem.dfy`: a directory tree as sets of directories and files.
- `catalog.dfy`: the platform → items catalogue.
- `wrappers.dfy`: `Option`.

Modelling conventions:

- **Characters.** Lower-casing and whitespace are ASCII only. Whitespace is CPython's ASCII `isspace` table, which `str.strip()` and the regex class `\s` both use.
- **Catalogue fields.** Every field is a string, and a missing field is `""`. This matches both `.get(key, '')` and the `x or fallback` idiom. An item id is "falsy" exactly when it is `""`.
- **Directory listings.** The result of `iterdir` or `rglob` is a snapshot sequence passed in by the caller; whether an entry is a file is read from the current tree. The listing order is the operating system's, so every property holds for every order.
- **Failing renames.** Renames that the operating system refuses are given as a set `failing`. This is how the `except Exception` branch of the rename loop is modelled.
- **Matcher parameter.** The rename run takes the matcher as a function parameter, and `RenameImagesById` instantiates it with `FindMatchingId`. The directory planner likewise takes its name cleaner as a parameter, and `CreateDirectories` instantiates it with `SanitizeName`.

`sanitize_name` as written is neither idempotent nor free of edge whitespace. Its
docstring (createfile.py:13-18) says it strips edge whitespace and dots. The code strips whitespace first and dots second, so
`"a ."` becomes `"a "` and only a second pass gives `"a"`. The model follows the
code: `Sanitize.SanitizeNotIdempotent` proves this pair of results, and
`Sanitize.SanitizeIdempotentWithoutEdgeSpace` proves idempotence only for outputs
without edge whitespace.

## Model

| member | source | states |
|---|---|---|
| Sanitize.ReplaceReserved | createfile.py:9-20 | Each of the nine characters Windows reserves (angle brackets, colon, double quote, both slashes, vertical bar, question mark, asterisk) becomes a space. Every other character stays. The length is unchanged. |
| Sanitize.CollapseSpaces | createfile.py:21 | Every whitespace run becomes exactly one plain space. No two whitespace characters remain adjacent. Every other character comes from the input. |
| Sanitize.CollapseIsSqueeze | createfile.py:21 | The collapse equals a character-at-a-time reading of `\s+` → `" "`: a non-whitespace character is copied, and a whitespace character emits one space unless the previous character was whitespace too. So each maximal run gives exactly one space. |
| Sanitize.CollapseKeeps | createfile.py:21 | The non-whitespace characters of the input reach the output unchanged and in their order. This holds for any selection of characters that excludes whitespace. |
| Sanitize.ReplaceKeepsVisible | createfile.py:20 | Replacing reserved characters leaves the sequence of visible characters (neither whitespace nor reserved) unchanged. |
| Sanitize.TrimmedKeepsVisible | createfile.py:20-21 | Replacing, collapsing and stripping whitespace together keep the name's visible characters, in order. |
| Sanitize.SanitizeKeepsContent | createfile.py:20-22 | Either the result is "Unnamed" and every visible character of the name is a dot, or the result's visible characters are the name's, in order, less only leading and trailing dots. |
| Sanitize.SanitizeKeepsCharacters | createfile.py:20-22 | Every character of the name that is not whitespace, not reserved and not a dot occurs in the result. |
| Sanitize.SanitizedVisible | createfile.py:20-22 | The only invisible character a result holds is the plain space, so its visible characters are the result without its spaces. |
| Sanitize.SanitizeName | createfile.py:12-22 | The output is never empty and holds no reserved character. All of its whitespace is single plain spaces, and it does not start or end with a dot. It is "Unnamed" or built from spaces and input characters. A blank or all-dots input gives "Unnamed". |
| Sanitize.SanitizeKeepsSafeNames | createfile.py:12-22 | A Windows-safe name without edge whitespace is returned unchanged. |
| Sanitize.SanitizeIdempotentWithoutEdgeSpace | createfile.py:21-22 | Sanitising twice equals sanitising once whenever the first result has no edge whitespace. |
| Sanitize.SanitizeNotIdempotent | createfile.py:21-22 | `"a ."` gives `"a "`, and sanitising that again gives `"a"`. |
| Sanitize.SanitizeReplacesReserved | createfile.py:20-21 | `"a/b:c"` gives `"a b c"`. |
| Sanitize.SanitizeFallsBack | createfile.py:21-22 | `"   "` and `"..."` both give `"Unnamed"`. |
| Sanitize.SanitizeKeepsPlainName | createfile.py:20-22 | `"Lucky7"` is kept as is. |
| Sanitize.CleanIsSafe | createfile.py:20-21 | Before the fallback, the cleaned name already has no reserved character, no double whitespace and no edge dot. |
| CreateDirs.MakeAll | createfile.py:32-41 | After the `makedirs` calls, a directory exists exactly when it existed before or is an ancestor of a requested path. No file changes. |
| CreateDirs.Materialize | createfile.py:25-44 | There is one path per platform plus one per item with a non-empty name. Every path lies one or two levels under the root. Each platform path precedes its items' paths. Every segment below the root is a cleaned name. Every listed path exists afterwards, and so does the root. Files are untouched, and the only new directories are the root's ancestors and the listed paths'. |
| CreateDirs.CreateDirectories | createfile.py:25-44 | With `sanitize_name` as the cleaner, the same length, depth and existence guarantees hold. Every new segment is Windows-safe. |
| CreateDirs.PlanLength | createfile.py:29-42 | The returned list has one entry per platform and one per named item. |
| CreateDirs.PlanUnderBase | createfile.py:29-42 | Each path is a platform directory under the root, or an item directory under its platform directory. |
| CreateDirs.PlanParentsFirst | createfile.py:29-42 | Every item path is preceded in the list by its platform's path. |
| CreateDirs.PlanSegments | createfile.py:31-40 | Every path segment below the root is the cleaner's output for some name. |
| CreateDirs.ItemDirsShape | createfile.py:35-42 | Items without a name are skipped. Each other item gives a path directly below the platform directory. |
| CreateDirs.ItemDirsCover | createfile.py:36-42 | Every item with a non-empty name has its cleaned directory in the list. |
| CreateDirs.PlanCoversCatalog | createfile.py:29-42 | Every platform's directory is in the list, with the name or `platform_<id>` fallback cleaned. So is every named item's directory under it. |
| CreateDirs.CreateDirectoriesIdempotent | createfile.py:27-41 | A second run on the resulting tree leaves the set of directories unchanged. |
| CreateDirs.SlotsExample | createfile.py:29-42 | Platform "Slots" with item "Lucky7" yields `base/Slots`, then `base/Slots/Lucky7`. |
| PathName.LastDot | rename_images_by_gaming_item.py:66 | The result is the position of the last dot, or -1 when there is none. |
| PathName.Suffix | rename_images_by_gaming_item.py:105 | The suffix is empty exactly when there is no usable dot. Otherwise it is a dot followed by at least one dot-free character. |
| PathName.Stem | rename_images_by_gaming_item.py:66 | Stem followed by suffix is the name. Without a suffix the stem is the whole name. |
| PathName.ImageNameHasSuffix | rename_images_by_gaming_item.py:8-13 | An image name has a suffix and a strictly shorter stem. |
| PathName.DragonParts | rename_images_by_gaming_item.py:66 | `dragon.png` has stem `dragon` and suffix `.png`. |
| PathName.UpperCaseImage | rename_images_by_gaming_item.py:8-13 | The extension test is case-insensitive: `Cat.PNG` is an image. |
| PathName.EdgeDotsNoSuffix | rename_images_by_gaming_item.py:8-13 | A leading dot is not a suffix (`.png`), nor is a trailing one (`photo.`). Neither name is an image. |
| PathName.LastSuffixCounts | rename_images_by_gaming_item.py:8-13 | Only the last suffix counts: `a.tar.gif` has stem `a.tar` and is an image. |
| PathName.TextIsNotImage | rename_images_by_gaming_item.py:8-13 | `notes.txt` is not an image. |
| OrderedDict.Get | rename_images_by_gaming_item.py:69-70 | Lookup succeeds exactly for the present keys, and the value returned is one stored under that very key. |
| OrderedDict.Put | rename_images_by_gaming_item.py:41-43 | After `d[k] = v`, `k` maps to `v` and every other key is unchanged. A new key is appended at the end, and an existing key keeps its position. |
| OrderedDict.FromPairs | rename_images_by_gaming_item.py:41-43 | A run of assignments yields a map without duplicate keys, no longer than the run. |
| OrderedDict.FromPairsLastWins | rename_images_by_gaming_item.py:41-43 | Each key holds the value of the last assignment to it. |
| OrderedDict.FromPairsKeyOrder | rename_images_by_gaming_item.py:41-43 | Keys iterate in the order of their first assignment. |
| OrderedDict.FromPairsKeys | rename_images_by_gaming_item.py:41-43 | A key is present exactly when it was assigned. |
| OrderedDict.FromPairsValues | rename_images_by_gaming_item.py:41-43 | A stored value was assigned to that key. |
| OrderedDict.FirstWhere | rename_images_by_gaming_item.py:77-79 | The result is the first position, in iteration order, whose key satisfies the test. |
| GamingIndex.ItemWrites | rename_images_by_gaming_item.py:31-43 | A filtered-out item, or one with a blank name or empty id, writes nothing. Any other item writes its lower-cased name, then its stripped name, both to its id. |
| GamingIndex.LoadGamingMap | rename_images_by_gaming_item.py:27-43 | The map has no duplicate keys and at most two keys per item. |
| GamingIndex.LoadKeys | rename_images_by_gaming_item.py:39-43 | A string is a key exactly when it is the stripped name of a qualifying item, or that name lower-cased. |
| GamingIndex.LoadValues | rename_images_by_gaming_item.py:41-43 | Each key's value is the id of a qualifying item named by that key. |
| GamingIndex.LoadLastWins | rename_images_by_gaming_item.py:41-43 | Later items overwrite earlier ones for the same key. |
| GamingIndex.WritesFrom | rename_images_by_gaming_item.py:39-43 | Every assignment comes from a qualifying item. |
| GamingIndex.WritesCover | rename_images_by_gaming_item.py:39-43 | Every key of a qualifying item is assigned. |
| GamingIndex.OfType | rename_images_by_gaming_item.py:33-37 | Keeps exactly the items whose stripped `gamingType` equals the filter. |
| GamingIndex.FilterIsPrefilter | rename_images_by_gaming_item.py:33-37 | A non-empty filter gives the same assignments as pre-selecting the items of that type and running unfiltered. |
| GamingIndex.LoadLowerClosed | rename_images_by_gaming_item.py:41-43 | The lower-cased form of every key of a loaded map is also a key. |
| GamingIndex.FindMatchingId | rename_images_by_gaming_item.py:57-86 | None exactly when no tier matches. Any result is a map value. If the lower-cased stem is a key, the result is its value. Otherwise the exact stem, when it is a key, decides. Otherwise the first key contained in the stem decides. Otherwise the first key containing the stem decides, with both sides lower-cased. |
| GamingIndex.LoaderSkipsCaseTier | rename_images_by_gaming_item.py:69-74 | For a map built by the loader, the original-case tier never decides. |
| GamingIndex.LowerTierExample | rename_images_by_gaming_item.py:66-70 | `dragon.png` finds key `dragon` and gives "1". |
| GamingIndex.LuckyGemMatch | rename_images_by_gaming_item.py:76-79 | `super_luckygem_v2.jpg` contains key `luckygem` and gives "7". |
| GamingIndex.EmptyMapMatchesNothing | rename_images_by_gaming_item.py:57-86 | An empty map matches no name. |
| RenameImages.RenameStep | rename_images_by_gaming_item.py:95-123 | Only a real, accepted rename changes the directory. It requires an existing file and a target name that is free, and it swaps exactly that name for the target. The outcome is counted exactly when the entry is a matched image whose target is free, and the run is a preview or the rename is accepted. Counted targets are `id + suffix`. |
| RenameImages.RunAll | rename_images_by_gaming_item.py:95-125 | There is one outcome per entry. Sub-directories and the file count are unchanged. A dry run changes nothing. |
| RenameImages.RunAllFits | rename_images_by_gaming_item.py:95-125 | Each entry's outcome agrees with its match. A counted outcome targets `id + suffix` of the matched id. A real rename happens only outside a dry run and only when the operating system accepts it. A preview happens only in a dry run, and "no match" only when the matcher found nothing. |
| RenameImages.RunAllFiles | rename_images_by_gaming_item.py:104-123 | A file disappears only as a renamed source and appears only as a rename target. |
| RenameImages.RenameImagesById | rename_images_by_gaming_item.py:89-125 | The count is the number of counted outcomes, at most one per entry. The directory guarantees of the run hold, using `find_matching_gaming_id` as the matcher. |
| RenameImages.RunAllSteps | rename_images_by_gaming_item.py:95-125 | Outcome `i` is the step on entry `i`, taken in the directory the first `i` entries left behind. The directory after `i + 1` entries is that step's result. |
| RenameImages.RenameImagesSteps | rename_images_by_gaming_item.py:95-125 | The same for the whole run: entry `i` is renamed, previewed or skipped exactly as one step with its `find_matching_gaming_id` match decides, in the directory the earlier entries left. |
| RenameImages.UnrenamedStay | rename_images_by_gaming_item.py:95-125 | A file that was never renamed is still present afterwards. |
| RenameImages.NewNamesAreTargets | rename_images_by_gaming_item.py:104-117 | A file name that is new afterwards is the target of some rename. |
| RenameImages.UnmatchedKeepsName | rename_images_by_gaming_item.py:96-102 | Non-images and unmatched images keep their names and are not counted. |
| RenameImages.RenameNeverOverwrites | rename_images_by_gaming_item.py:108-117 | A rename target was neither a file nor a directory beforehand. Afterwards the target exists and the source does not. |
| RenameImages.RenameExample | rename_images_by_gaming_item.py:104-123 | `Dragon.png` with id "1" becomes `1.png`. When `1.png` already exists, the rename is skipped. |
| RenameImages.DragonMatch | rename_images_by_gaming_item.py:66-70 | `Dragon.png` matches key `dragon` through the lower-case tier. |
| Placement.CandidateInjective | move_images_by_name.py:51 | Different indices give different candidate names. |
| Placement.TakenBound | move_images_by_name.py:50-55 | Having the first `k` candidates taken needs at least `k` existing names. |
| Placement.FreeIndex | move_images_by_name.py:49-55 | The search returns the least free index at or after its start. Its termination measure is the number of existing names. |
| Placement.NonOverwritingName | move_images_by_name.py:40-55 | The result is never an existing name. A free name is kept. Otherwise the result is `stem_k.ext` for the least `k ≥ 1` that is free. |
| Placement.FreeIndexBound | move_images_by_name.py:50-55 | The search stops within one more try than there are existing names. |
| Placement.CandidateSuffix | move_images_by_name.py:47-51 | A candidate keeps the original suffix. |
| Placement.PlacementKeepsImage | move_images_by_name.py:47-51 | A placed image name is still an image name. |
| Placement.PlacementExamples | move_images_by_name.py:44-55 | An occupied `cat.png` gives `cat_1.png`. With `cat_1.png` also occupied, it gives `cat_2.png`. |
| MoveImages.FolderWrites | move_images_by_name.py:21-29 | Only directories are indexed, each under its lower-cased name. |
| MoveImages.FolderMapLastWins | move_images_by_name.py:21-30 | A key maps to the last listed directory with that lower-cased name. |
| MoveImages.FolderMapValues | move_images_by_name.py:24-29 | Every value is a directory whose lower-cased name is its key. |
| MoveImages.NamesIn | move_images_by_name.py:44-53 | A name counts as taken exactly when a file or a sub-directory of that name exists in the folder. |
| MoveImages.MoveStep | move_images_by_name.py:61-82 | A move needs an image whose lower-cased stem is a folder key, into a folder that holds no image. The destination name is the non-overwriting name for the image among the names already in that folder, so it did not exist. Afterwards the folder holds an image. A move swaps the source for the destination. The directories afterwards are exactly those of `mkdir(parents=True, exist_ok=True)` on the destination folder: the old ones, plus that folder and its ancestors. A skipped file leaves the tree unchanged. Non-images, missing folders and occupied folders are each recognised exactly. |
| MoveImages.MoveAll | move_images_by_name.py:61-83 | There is one outcome per listed file. The file count is unchanged and no directory disappears. |
| MoveImages.MoveAllFiles | move_images_by_name.py:61-83 | A file leaves only by being moved, and appears only as a move destination. |
| MoveImages.MoveAllSteps | move_images_by_name.py:61-83 | Outcome `i` is the step on image `i`, taken in the tree the first `i` images left behind. The tree after `i + 1` images is that step's result. |
| MoveImages.MoveImagesSteps | move_images_by_name.py:58-83 | The same for the whole run with the collected folder map: image `i` is moved or skipped exactly as one step decides, in the tree the earlier images left. |
| MoveImages.MoveImagesRun | move_images_by_name.py:58-83 | The count is the number of moves, and the run guarantees hold for the collected folder map. |
| MoveImages.MovedOnlyToMatchingFolder | move_images_by_name.py:62-80 | A moved image went to its stem's folder. That folder had no image, and the destination name was free there. |
| MoveImages.MoveAllOnePerFolder | move_images_by_name.py:61-83 | When no listed image already sits in a map folder, the following hold. Every move goes into a map folder. Each such folder receives at most one image and still holds one at the end. |
| MoveImages.MovedCountBound | move_images_by_name.py:61-83 | Under the same condition, the count is at most the number of folders in the map. |
| MoveImages.MovedDirsCount | move_images_by_name.py:61-83 | With one move per folder, the count equals the number of receiving folders. |
| MoveImages.SkipExample | move_images_by_name.py:67-77 | `cat.png` beside folder `Cat`, which holds `cat_old.jpg`, is skipped and nothing changes. |
| MoveImages.MoveExample | move_images_by_name.py:78-81 | `dragon.png` moves into `Dragon`, which holds only `notes.txt`, under its own name. |
| JsonSearch.Find | query.py:15-23 | Every returned node is an object holding all required keys. A matching node comes first, before its descendants. A scalar gives nothing. |
| JsonSearch.FindIsSelectedPreOrder | query.py:15-25 | The result is exactly the matching nodes of the pre-order enumeration, in that order. |
| JsonSearch.FindMembers | query.py:9-26 | A node is returned exactly when it occurs in the tree and holds every required key. |
| JsonSearch.NoKeysFindsAllObjects | query.py:17-18 | With no required keys, every object node is returned. |
| JsonSearch.SelectMembers | query.py:17-18 | Selection keeps exactly the matching elements. |
| JsonSearch.FindExample | query.py:9-26 | Searching `{"data": [{"id":1,"name":"a"}, {"id":2}]}` for `id` gives the two list elements, in order. |
| ParseTypes.Range | query.py:213 | The inclusive list `a..b` has `b-a+1` elements when `a ≤ b` and none otherwise. Element `i` is `a+i`. |
| ParseTypes.NonBlank | query.py:214 | Kept pieces are stripped and non-empty. There are no more of them than there were pieces. |
| ParseTypes.NonBlankOne | query.py:214 | A single piece is kept, stripped, exactly when its stripped form is non-empty. |
| ParseTypes.NonBlankAppend | query.py:214 | The kept pieces of two lists joined are the kept pieces of the first followed by those of the second. With NonBlankOne this fixes the result: every non-blank piece, stripped, in order. |
| ParseTypes.NonBlankKeeps | query.py:214 | A non-blank piece appears stripped in the result, between the kept pieces before it and the kept pieces after it. |
| ParseTypes.ParseAll | query.py:215 | The result is every piece's integer, in order, or None exactly when some piece does not parse. |
| ParseTypes.ParseRange | query.py:209-213 | The range form succeeds exactly when both sides of the first `-` parse. It then gives the consecutive integers from the start to the end. |
| ParseTypes.ParseList | query.py:214-215 | The list form succeeds exactly when every kept piece (stripped, non-blank, in order) is an integer. It then gives the integer of each kept piece, in order. None is negative, and there is at most one per comma piece. |
| ParseTypes.ParseTypesSpec | query.py:207-215 | With a `-` in the stripped text, the text is cut at the first `-`. The result exists exactly when both sides are integers, and it is then the inclusive range between them. Without a `-`, the result exists exactly when every kept comma piece is an integer, and it is then those integers in order, none negative. |
| ParseTypes.ListFormOf | query.py:214-215 | Any text without `-` whose kept comma pieces have the integer values `vs` parses to `vs`. Blank pieces, edge whitespace, signs and leading zeros are all covered. |
| ParseTypes.RangeRoundTrip | query.py:209-213 | Parsing the printed `a-b` gives the inclusive range `a..b`. |
| ParseTypes.ListRoundTrip | query.py:214-215 | Parsing the comma-joined printed numbers gives the list back, including the empty list. |
| ParseTypes.RangeExamples | query.py:209-213 | `"3-5"` gives `[3, 4, 5]` and `"5-3"` gives `[]`. |
| ParseTypes.ParseAllIs | query.py:215 | When every piece parses to the matching value, the list parses to all those values. |
| ParseTypes.ParseAllTexts | query.py:215 | The decimal texts of natural numbers parse back to the numbers. |
| ParseTypes.NegativeFirstFails | query.py:209-211 | `"-1,2"` takes the range form and fails on the empty start. |
| ParseTypes.BlankPiecesDropped | query.py:214-215 | `" 1, ,3 "` gives `[1, 3]`. |
| Decimal.ParseInt | query.py:211-212 | A successful parse needs non-blank text, and a negative value needs a leading `-`. |
| Decimal.ParseIntOfForm | query.py:211-212 | Optional edge whitespace, an optional sign and at least one ASCII digit parse to the signed value of the digits. |
| Decimal.ParseIntShape | query.py:211-212 | Conversely, a text that parses is, once stripped, an optional sign followed by digits, and its value is their signed value. Every other text fails. |
| Decimal.LeadingZeros | query.py:211-212 | Leading zeros do not change the value of a digit string. |
| Decimal.SignedDigit | query.py:211-212 | A sign followed by one digit, such as `"+5"` or `"-3"`, gives that digit with its sign. |
| Decimal.ZeroLed | query.py:211-212 | `" 007 "` gives 7. |
| Decimal.BareSign | query.py:211-212 | `" - "` fails: a sign needs digits. |
| Decimal.SpaceInside | query.py:211-212 | `"1 2"` fails: whitespace is only allowed at the edges. |
| Decimal.ParseIntRoundTrip | query.py:211-212 | Parsing a printed natural number gives it back. |
| Decimal.NatToStringInjective | move_images_by_name.py:51 | Different numbers print differently. |
| Text.SplitJoinRoundTrip | query.py:214 | Splitting undoes joining when no piece contains the separator. |
| Text.SplitOn | query.py:214 | The pieces contain no separator and join back to the input. There is a single piece exactly when the separator is absent. |
| Text.StripSpacePadded | createfile.py:21 | Stripping whitespace from a text padded with whitespace on both sides gives the padded text back, when its own ends are not whitespace. |
| Text.StripFilter | createfile.py:21 | Stripping removes only characters of the stripped kind, so a selection that excludes that kind sees the same characters before and after. |
| Text.LowerStrIdempotent | rename_images_by_gaming_item.py:41 | Lower-casing twice equals lower-casing once. |
| FileSystem.MakeDirs | createfile.py:27 | A directory exists afterwards exactly when it existed before or is an ancestor of the path. Files are unchanged. |
| FileSystem.MakeDirsIdempotent | createfile.py:27 | Creating an existing directory again changes nothing. |

## Left out

- Argument parsing, JSON file loading, printing and `main` of every script are not modelled. The same goes for the `FileNotFoundError` and `JSONDecodeError` handlers of `load_gaming_data`. The catalogue and directory trees are given as values.
- The HTTP functions of query.py are not modelled: `fetch_platforms_for_type`, `fetch_items_for_platform`, `build_platform_dict` and `main`. They are network I/O.
- updateGameItemInfo.py, updateGamePlatfrom.py and generate_wuxia_names.py are not part of this model. The last is driven by `random.choice` and has no termination argument.
- `str.lower()`, `str.strip()` and `\s` are ASCII-only here. Unicode case folding and Unicode whitespace are not modelled.
- Numeric `gamingItemId`/`gamingType` values are not modelled; every catalogue field is a string. `.strip()` on a number would raise in `load_gaming_data`, and `f"{id}"` of an integer id is its decimal text.
- `items` that is not a list is not modelled, and neither is a JSON root that is not an object. A missing `items` key is an empty list.
- Decimal.ParseInt: accepts sign and ASCII digits only. Python's `int()` also takes `_` digit separators and non-ASCII digits.
- Names are compared case-sensitively, as on POSIX file systems. The scripts' default paths are Windows paths, and on Windows `Path.exists()` ignores case. There, the scripts skip a rename target `1.PNG` when `1.png` exists, and they place `cat.png` as `cat_1.png` beside `Cat.png`. `RenameImages.RenameStep` and `Placement.NonOverwritingName` do neither, because case-insensitive file systems are not modelled.
- ParseTypes.NonBlank: its own contract gives only the shape of the kept pieces. Which pieces are kept, and their order, relate several calls and are proved by ParseTypes.NonBlankOne, ParseTypes.NonBlankAppend and ParseTypes.NonBlankKeeps.
- Listing order while a directory is being changed is not modelled. Listings are snapshots taken before the loop; the lazy `iterdir`/`rglob` generators could see renamed or moved files again.
- The recursive and non-recursive listing modes (`rglob` vs `iterdir`) are not modelled separately. Both are a caller-supplied listing.
- RenameImages.RunAll: does not claim that dry-run and real-run counts agree. A real rename frees or takes names that later files see, so they can differ either way.
- Sanitize.SanitizeName: does not promise idempotence or the absence of edge whitespace, because the code does not keep those promises (see above).
- MoveImages.MoveAllOnePerFolder: assumes no listed image already sits in a folder of the map. Without that, an image moved out of a folder could let a second image in.
- MoveImages.MovedCountBound: assumes the same as MoveImages.MoveAllOnePerFolder (no listed image already sits in a folder of the map), for the same reason.
- FileSystem.MakeDirs: always succeeds. `os.makedirs(..., exist_ok=True)` raises `FileExistsError` when a file already occupies the path (createfile.py:27, :32, :41), which ends the script; the model adds the directory regardless.
- MoveImages.MoveStep: always succeeds. A failure of `dest_path.parent.mkdir` or `shutil.move` (permissions, a vanished source) is uncaught in move_images_by_name.py:79-80 and ends the run; the model has no such failure.
- The `FileNotFoundError` branch of `move_images` is not modelled separately. An absent folder has no image in the model, and the move creates it, which is the same effect.
- JsonSearch.Find: takes the required keys as a set. A one-shot iterator passed as `required_keys` would be consumed by the first object, and that is not modelled.
