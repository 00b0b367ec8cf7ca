/**
  The catalogue index of rename_images_by_gaming_item.py: the loop of
  `load_gaming_data` that turns every qualifying item into two keys of a
  name -> gamingItemId map, and `find_matching_gaming_id`, which looks an
  image stem up in four tiers, the first hit deciding.

  Ids are strings; a missing or empty id is the falsy id. The filter is the
  optional `gamingType` argument, "" standing for "no filter".
 */
module GamingIndex {
  import opened Wrappers
  import opened Text
  import opened PathName
  import opened Catalog
  import opened OrderedDict

  /** The map the loader builds: key -> gamingItemId, in insertion order. */
  type GamingMap = Dict<string, string>

  /** The item passes the `gamingType` filter; an empty filter lets everything through. */
  predicate Selected(it: Item, filter: string) {
    filter == "" || StripSpace(it.gamingType) == filter
  }

  /** The item passes the filter and has a non-blank name and a truthy id. */
  predicate Qualifies(it: Item, filter: string) {
    Selected(it, filter) && StripSpace(it.name) != "" && it.id != ""
  }

  /** `k` is one of the two keys a qualifying item writes. */
  ghost predicate KeyOf(it: Item, filter: string, k: string) {
    Qualifies(it, filter) && (k == StripSpace(it.name) || k == LowerStr(StripSpace(it.name)))
  }

  /** The two assignments one item performs: the lower-cased name, then the name itself. */
  function ItemWrites(it: Item, filter: string): (ws: seq<(string, string)>)
    ensures !Qualifies(it, filter) ==> ws == []
    ensures Qualifies(it, filter) ==>
      |ws| == 2 && ws[0] == (LowerStr(StripSpace(it.name)), it.id) && ws[1] == (StripSpace(it.name), it.id)
  {
    var name := StripSpace(it.name);
    if Qualifies(it, filter) then [(LowerStr(name), it.id), (name, it.id)] else []
  }

  /** All assignments of the item loop, in catalogue order. */
  function Writes(items: seq<Item>, filter: string): seq<(string, string)> {
    if items == [] then [] else ItemWrites(items[0], filter) + Writes(items[1..], filter)
  }

  /** The map-building loop of `load_gaming_data`. */
  function LoadGamingMap(cat: Catalog, filter: string): (m: GamingMap)
    ensures Valid(m)
    ensures |m| <= 2 * |AllItems(cat)|
  {
    WritesLength(AllItems(cat), filter);
    FromPairs(Writes(AllItems(cat), filter))
  }

  lemma {:induction false} WritesLength(items: seq<Item>, filter: string)
    ensures |Writes(items, filter)| <= 2 * |items|
  {
    if items != [] {
      WritesLength(items[1..], filter);
    }
  }

  /** Assignment `w` is one item `j` performs: its key is a key of that item and its value the item's id. */
  ghost predicate WrittenBy(items: seq<Item>, filter: string, w: (string, string), j: int) {
    0 <= j < |items| && KeyOf(items[j], filter, w.0) && items[j].id == w.1
  }

  /** Every assignment comes from some qualifying item, with that item's id. */
  lemma {:induction false} WritesFrom(items: seq<Item>, filter: string, i: nat)
    requires i < |Writes(items, filter)|
    ensures exists j :: WrittenBy(items, filter, Writes(items, filter)[i], j)
  {
    var head := ItemWrites(items[0], filter);
    var rest := Writes(items[1..], filter);
    var ws := Writes(items, filter);
    assert ws == head + rest;
    if i < |head| {
      assert ws[i] == head[i];
      assert WrittenBy(items, filter, ws[i], 0);
    } else {
      assert ws[i] == rest[i - |head|];
      WritesFrom(items[1..], filter, i - |head|);
      var j :| WrittenBy(items[1..], filter, rest[i - |head|], j);
      assert items[1..][j] == items[j + 1];
      assert WrittenBy(items, filter, ws[i], j + 1);
    }
  }

  /** Every key of every qualifying item is assigned somewhere. */
  lemma {:induction false} WritesCover(items: seq<Item>, filter: string, j: nat, k: string)
    requires j < |items| && KeyOf(items[j], filter, k)
    ensures Written(Writes(items, filter), k)
  {
    var head := ItemWrites(items[0], filter);
    var rest := Writes(items[1..], filter);
    assert Writes(items, filter) == head + rest;
    if j == 0 {
      assert head[0].0 == k || head[1].0 == k;
    } else {
      assert items[1..][j - 1] == items[j];
      WritesCover(items[1..], filter, j - 1, k);
    }
    WrittenInAppend(head, rest, k);
  }

  lemma WrittenInAppend(a: seq<(string, string)>, b: seq<(string, string)>, k: string)
    requires Written(a, k) || Written(b, k)
    ensures Written(a + b, k)
  {
    if Written(a, k) {
      var i :| 0 <= i < |a| && a[i].0 == k;
      assert (a + b)[i] == a[i];
    } else {
      var i :| 0 <= i < |b| && b[i].0 == k;
      assert (a + b)[|a| + i] == b[i];
    }
  }

  /**
    The keys of the map are exactly the names and lower-cased names of the
    qualifying items: an unselected item, a blank name or a falsy id adds
    nothing, and every other item adds both of its keys.
   */
  lemma LoadKeys(cat: Catalog, filter: string, k: string)
    ensures k in Keys(LoadGamingMap(cat, filter)) <==> Named(AllItems(cat), filter, k)
  {
    var items := AllItems(cat);
    var ws := Writes(items, filter);
    FromPairsKeys(ws, k);
    if k in Keys(FromPairs(ws)) {
      assert Written(ws, k);
      KeyComesFromItem(items, filter, k);
    }
    if Named(items, filter, k) {
      var j :| 0 <= j < |items| && KeyOf(items[j], filter, k);
      WritesCover(items, filter, j, k);
    }
  }

  /** Some qualifying item has `k` among its keys. */
  ghost predicate Named(items: seq<Item>, filter: string, k: string) {
    exists j :: 0 <= j < |items| && KeyOf(items[j], filter, k)
  }

  /** Some assignment writes key `k`. */
  ghost predicate Written(ws: seq<(string, string)>, k: string) {
    exists i :: 0 <= i < |ws| && ws[i].0 == k
  }

  lemma KeyComesFromItem(items: seq<Item>, filter: string, k: string)
    requires Written(Writes(items, filter), k)
    ensures Named(items, filter, k)
  {
    var ws := Writes(items, filter);
    var i :| 0 <= i < |ws| && ws[i].0 == k;
    WritesFrom(items, filter, i);
    var j :| WrittenBy(items, filter, ws[i], j);
    assert KeyOf(items[j], filter, k);
  }

  /** Every value of the map is the id of a qualifying item that wrote that key. */
  lemma LoadValues(cat: Catalog, filter: string, k: string)
    requires Get(LoadGamingMap(cat, filter), k).Some?
    ensures exists j :: (0 <= j < |AllItems(cat)| && KeyOf(AllItems(cat)[j], filter, k)
      && AllItems(cat)[j].id == Get(LoadGamingMap(cat, filter), k).value)
  {
    var items := AllItems(cat);
    var ws := Writes(items, filter);
    FromPairsValues(ws, k);
    var i :| 0 <= i < |ws| && ws[i] == (k, Get(FromPairs(ws), k).value);
    WritesFrom(items, filter, i);
    var j :| WrittenBy(items, filter, ws[i], j);
    assert KeyOf(items[j], filter, k) && items[j].id == ws[i].1;
  }

  /** Later assignments overwrite earlier ones: the value is the last one written. */
  lemma LoadLastWins(cat: Catalog, filter: string, k: string)
    ensures Get(LoadGamingMap(cat, filter), k) == LastValue(Writes(AllItems(cat), filter), k)
  {
    FromPairsLastWins(Writes(AllItems(cat), filter), k);
  }

  /** The items whose stripped `gamingType` equals `t`. */
  function OfType(items: seq<Item>, t: string): (r: seq<Item>)
    ensures |r| <= |items|
    ensures forall i :: 0 <= i < |r| ==> r[i] in items && StripSpace(r[i].gamingType) == t
  {
    if items == [] then []
    else (if StripSpace(items[0].gamingType) == t then [items[0]] else []) + OfType(items[1..], t)
  }

  /**
    A non-empty filter acts as if the catalogue held only the items of that
    type and no filter were given.
   */
  lemma {:induction false} FilterIsPrefilter(items: seq<Item>, filter: string)
    requires filter != ""
    ensures Writes(items, filter) == Writes(OfType(items, filter), "")
  {
    if items != [] {
      var rest := OfType(items[1..], filter);
      FilterIsPrefilter(items[1..], filter);
      ItemWritesFiltered(items[0], filter);
      if StripSpace(items[0].gamingType) == filter {
        var o := [items[0]] + rest;
        assert OfType(items, filter) == o;
        assert o[0] == items[0] && o[1..] == rest;
        assert Writes(o, "") == ItemWrites(items[0], "") + Writes(rest, "");
      } else {
        assert OfType(items, filter) == rest;
      }
    }
  }

  /** A filtered item writes what it would write unfiltered when its type matches, and nothing otherwise. */
  lemma ItemWritesFiltered(it: Item, filter: string)
    requires filter != ""
    ensures ItemWrites(it, filter) == if StripSpace(it.gamingType) == filter then ItemWrites(it, "") else []
  {
  }

  /** The loader's map is closed under lower-casing its keys. */
  ghost predicate LowerClosed(m: GamingMap) {
    forall k :: k in Keys(m) ==> LowerStr(k) in Keys(m)
  }

  lemma LoadLowerClosed(cat: Catalog, filter: string)
    ensures LowerClosed(LoadGamingMap(cat, filter))
  {
    var m := LoadGamingMap(cat, filter);
    forall k | k in Keys(m)
      ensures LowerStr(k) in Keys(m)
    {
      LoadLowerKey(cat, filter, k);
    }
  }

  /** A key of the loader's map is the name or lower-cased name of an item, whose lower-cased name is a key too. */
  lemma LoadLowerKey(cat: Catalog, filter: string, k: string)
    requires k in Keys(LoadGamingMap(cat, filter))
    ensures LowerStr(k) in Keys(LoadGamingMap(cat, filter))
  {
    var items := AllItems(cat);
    LoadKeys(cat, filter, k);
    var j :| 0 <= j < |items| && KeyOf(items[j], filter, k);
    var name := StripSpace(items[j].name);
    if k != name {
      LowerStrIdempotent(name);
    }
    assert KeyOf(items[j], filter, LowerStr(k));
    assert Named(items, filter, LowerStr(k));
    LoadKeys(cat, filter, LowerStr(k));
  }

  /** The image stem contains the key, ignoring case (tier 3). */
  predicate KeyInStem(key: string, stem: string) {
    IsSubstring(LowerStr(key), LowerStr(stem))
  }

  /** The key contains the image stem, ignoring case (tier 4). */
  predicate StemInKey(key: string, stem: string) {
    IsSubstring(LowerStr(stem), LowerStr(key))
  }

  /** Entry `i` is the first, in iteration order, whose key the stem contains. */
  ghost predicate FirstKeyInStem(m: GamingMap, stem: string, i: nat) {
    i < |m| && KeyInStem(m[i].0, stem) && forall j :: 0 <= j < i ==> !KeyInStem(m[j].0, stem)
  }

  /** Entry `i` is the first whose key contains the stem, and no key lies in the stem. */
  ghost predicate FirstStemInKey(m: GamingMap, stem: string, i: nat) {
    && i < |m| && StemInKey(m[i].0, stem) && (forall j :: 0 <= j < i ==> !StemInKey(m[j].0, stem))
    && forall j :: 0 <= j < |m| ==> !KeyInStem(m[j].0, stem)
  }

  /** Neither exact tier applies. */
  ghost predicate NoExactKey(m: GamingMap, stem: string) {
    LowerStr(stem) !in Keys(m) && stem !in Keys(m)
  }

  /** No tier applies at all. */
  ghost predicate Unmatched(m: GamingMap, stem: string) {
    NoExactKey(m, stem) && forall i :: 0 <= i < |m| ==> !KeyInStem(m[i].0, stem) && !StemInKey(m[i].0, stem)
  }

  /** The original-case exact tier is the one that decides. */
  ghost predicate CaseTierDecides(m: GamingMap, stem: string) {
    LowerStr(stem) !in Keys(m) && stem in Keys(m)
  }

  /** `find_matching_gaming_id`: the four tiers over the stem, first hit wins. */
  function FindMatchingId(imageName: string, m: GamingMap): (r: Option<string>)
    ensures var stem := Stem(imageName);
      && (r.None? <==> Unmatched(m, stem))
      && (r.Some? ==> HasValue(m, r.value))
      && (LowerStr(stem) in Keys(m) ==> r == Get(m, LowerStr(stem)))
      && (CaseTierDecides(m, stem) ==> r == Get(m, stem))
      && (forall i: nat :: NoExactKey(m, stem) && FirstKeyInStem(m, stem, i) ==> r == Some(m[i].1))
      && (forall i: nat :: NoExactKey(m, stem) && FirstStemInKey(m, stem, i) ==> r == Some(m[i].1))
  {
    var stem := Stem(imageName);
    var low := LowerStr(stem);
    var byLower := Get(m, low);
    if byLower.Some? then byLower
    else
      var byCase := Get(m, stem);
      if byCase.Some? then byCase
      else
        var i := FirstWhere(m, k => KeyInStem(k, stem));
        if i < |m| then
          assert FirstKeyInStem(m, stem, i);
          Some(m[i].1)
        else
          var j := FirstWhere(m, k => StemInKey(k, stem));
          if j < |m| then
            assert FirstStemInKey(m, stem, j);
            Some(m[j].1)
          else None
  }

  /**
    For a map the loader built, the original-case tier never decides: when
    the stem is a key its lower-cased form is one too, and that tier comes
    first.
   */
  lemma LoaderSkipsCaseTier(cat: Catalog, filter: string, imageName: string)
    ensures !CaseTierDecides(LoadGamingMap(cat, filter), Stem(imageName))
  {
    LoadLowerClosed(cat, filter);
  }

  /** `dragon.png` finds the key `dragon` in the lower-case exact tier. */
  lemma LowerTierExample(name: string, m: GamingMap)
    requires name == "dragon.png" && m == [("dragon", "1")]
    ensures FindMatchingId(name, m) == Some("1")
  {
    LastDotIs(name, 6);
    assert Stem(name) == "dragon";
    assert LowerStr("dragon") == "dragon";
    assert Keys(m) == ["dragon"];
  }

  /** `super_luckygem_v2.jpg` has no exact key but contains `luckygem` (tier 3). */
  lemma LuckyGemMatch(name: string, m: GamingMap)
    requires name == "super_luckygem_v2.jpg" && m == [("luckygem", "7")]
    ensures FindMatchingId(name, m) == Some("7")
  {
    var stem := Stem(name);
    LuckyGemStem(name, stem);
    assert Keys(m) == ["luckygem"];
    assert NoExactKey(m, stem);
    assert FirstKeyInStem(m, stem, 0);
  }

  lemma LuckyGemStem(name: string, stem: string)
    requires name == "super_luckygem_v2.jpg" && stem == Stem(name)
    ensures stem == "super_luckygem_v2" && LowerStr(stem) == stem
    ensures KeyInStem("luckygem", stem)
  {
    LastDotIs(name, 17);
    LuckyGemInStem(stem);
  }

  lemma LuckyGemInStem(stem: string)
    requires stem == "super_luckygem_v2"
    ensures LowerStr(stem) == stem && KeyInStem("luckygem", stem)
  {
    assert LowerStr(stem) == stem;
    assert LowerStr("luckygem") == "luckygem";
    assert OccursAt("luckygem", stem, 6);
  }

  /** An empty map matches nothing. */
  lemma EmptyMapMatchesNothing(name: string)
    ensures FindMatchingId(name, []) == None
  {
  }
}
