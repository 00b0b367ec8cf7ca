/**
  `find_dicts_with_keys` from query.py: a depth-first walk over a decoded
  JSON value that collects every object holding all of the required keys,
  in pre-order (an object before what it contains, members and list
  elements in their order).
 */
module JsonSearch {
  import opened OrderedDict

  /** A decoded JSON value; an object keeps its members in document order. */
  datatype Json =
    | Null
    | Bool(b: bool)
    | Num(n: int)
    | Str(s: string)
    | Arr(items: seq<Json>)
    | Obj(fields: Dict<string, Json>)

  /** `all(key in node for key in required_keys)` for an object node. */
  predicate Matches(keys: set<string>, node: Json) {
    node.Obj? && forall k :: k in keys ==> k in Keys(node.fields)
  }

  /** `_walk(root)` followed by the matches it appended. */
  function Find(node: Json, keys: set<string>): (r: seq<Json>)
    ensures forall i :: 0 <= i < |r| ==> Matches(keys, r[i])
    ensures Matches(keys, node) ==> |r| > 0 && r[0] == node
    ensures !node.Obj? && !node.Arr? ==> r == []
    decreases node, 1
  {
    match node
    case Obj(fields) => (if Matches(keys, node) then [node] else []) + FindFields(fields, keys, 0)
    case Arr(items) => FindAll(items, keys)
    case _ => []
  }

  /** `for item in node: _walk(item)`. */
  function FindAll(items: seq<Json>, keys: set<string>): (r: seq<Json>)
    ensures forall i :: 0 <= i < |r| ==> Matches(keys, r[i])
    decreases items, 0
  {
    if items == [] then [] else Find(items[0], keys) + FindAll(items[1..], keys)
  }

  /** `for value in node.values(): _walk(value)`, from the member at position `i` on. */
  function FindFields(fields: Dict<string, Json>, keys: set<string>, i: nat): (r: seq<Json>)
    requires i <= |fields|
    ensures forall j :: 0 <= j < |r| ==> Matches(keys, r[j])
    decreases Obj(fields), 0, |fields| - i
  {
    if i == |fields| then []
    else
      assert fields[i] in Obj(fields).fields;
      Find(fields[i].1, keys) + FindFields(fields, keys, i + 1)
  }

  /** Reference: every node of the tree, each before its descendants, children in order. */
  function PreOrder(node: Json): (r: seq<Json>)
    ensures |r| >= 1 && r[0] == node
    decreases node, 1
  {
    match node
    case Obj(fields) => [node] + PreOrderFields(fields, 0)
    case Arr(items) => [node] + PreOrderAll(items)
    case _ => [node]
  }

  function PreOrderAll(items: seq<Json>): seq<Json>
    decreases items, 0
  {
    if items == [] then [] else PreOrder(items[0]) + PreOrderAll(items[1..])
  }

  function PreOrderFields(fields: Dict<string, Json>, i: nat): seq<Json>
    requires i <= |fields|
    decreases Obj(fields), 0, |fields| - i
  {
    if i == |fields| then []
    else
      assert fields[i] in Obj(fields).fields;
      PreOrder(fields[i].1) + PreOrderFields(fields, i + 1)
  }

  /** The nodes of `s` that hold all of `keys`, in their order. */
  function Select(s: seq<Json>, keys: set<string>): (r: seq<Json>)
    ensures |r| <= |s|
  {
    if s == [] then [] else (if Matches(keys, s[0]) then [s[0]] else []) + Select(s[1..], keys)
  }

  lemma {:induction false} SelectAppend(a: seq<Json>, b: seq<Json>, keys: set<string>)
    ensures Select(a + b, keys) == Select(a, keys) + Select(b, keys)
  {
    if a != [] {
      var head := if Matches(keys, a[0]) then [a[0]] else [];
      assert (a + b)[0] == a[0];
      assert (a + b)[1..] == a[1..] + b;
      assert Select(a + b, keys) == head + Select(a[1..] + b, keys);
      assert Select(a, keys) == head + Select(a[1..], keys);
      SelectAppend(a[1..], b, keys);
    } else {
      assert a + b == b;
    }
  }

  /** `x` is one of the nodes selected from `s` exactly when it is in `s` and matches. */
  lemma {:induction false} SelectMembers(s: seq<Json>, keys: set<string>, x: Json)
    ensures x in Select(s, keys) <==> x in s && Matches(keys, x)
  {
    if s != [] {
      SelectMembers(s[1..], keys, x);
      assert s == [s[0]] + s[1..];
    }
  }

  /**
    The search returns exactly the matching nodes of the pre-order walk, in
    that order: nothing is missed, nothing is invented, nothing reordered.
   */
  lemma {:induction false} FindIsSelectedPreOrder(node: Json, keys: set<string>)
    ensures Find(node, keys) == Select(PreOrder(node), keys)
    decreases node, 1
  {
    match node
    case Obj(fields) =>
      FindFieldsIsSelected(fields, keys, 0);
      SelectAppend([node], PreOrderFields(fields, 0), keys);
    case Arr(items) =>
      FindAllIsSelected(items, keys);
      SelectAppend([node], PreOrderAll(items), keys);
    case _ =>
  }

  lemma {:induction false} FindAllIsSelected(items: seq<Json>, keys: set<string>)
    ensures FindAll(items, keys) == Select(PreOrderAll(items), keys)
    decreases items, 0
  {
    if items != [] {
      FindIsSelectedPreOrder(items[0], keys);
      FindAllIsSelected(items[1..], keys);
      SelectAppend(PreOrder(items[0]), PreOrderAll(items[1..]), keys);
    }
  }

  lemma {:induction false} FindFieldsIsSelected(fields: Dict<string, Json>, keys: set<string>, i: nat)
    requires i <= |fields|
    ensures FindFields(fields, keys, i) == Select(PreOrderFields(fields, i), keys)
    decreases Obj(fields), 0, |fields| - i
  {
    if i < |fields| {
      assert fields[i] in Obj(fields).fields;
      FindIsSelectedPreOrder(fields[i].1, keys);
      FindFieldsIsSelected(fields, keys, i + 1);
      SelectAppend(PreOrder(fields[i].1), PreOrderFields(fields, i + 1), keys);
    }
  }

  /** Soundness and completeness: a node is returned iff it occurs in the tree and holds every key. */
  lemma FindMembers(root: Json, keys: set<string>, x: Json)
    ensures x in Find(root, keys) <==> x in PreOrder(root) && Matches(keys, x)
  {
    FindIsSelectedPreOrder(root, keys);
    SelectMembers(PreOrder(root), keys, x);
  }

  /** With no required keys every object node of the tree is returned. */
  lemma NoKeysFindsAllObjects(root: Json, x: Json)
    ensures x in Find(root, {}) <==> x in PreOrder(root) && x.Obj?
  {
    FindMembers(root, {}, x);
  }

  /**
    `{"data": [{"id": 1, "name": "a"}, {"id": 2}]}` searched for `id`:
    the two list elements, in list order; the outer object lacks `id`.
   */
  lemma FindExample(a: Json, b: Json, keys: set<string>)
    requires a == Obj([("id", Num(1)), ("name", Str("a"))]) && b == Obj([("id", Num(2))])
    requires keys == {"id"}
    ensures Find(Obj([("data", Arr([a, b]))]), keys) == [a, b]
  {
    IdObjectsMatch(a, b, keys);
    FlatObjectFound(a, keys);
    FlatObjectFound(b, keys);
    PairFound(a, b, keys);
    WrapperFindsInside("data", Arr([a, b]), keys);
  }

  lemma IdObjectsMatch(a: Json, b: Json, keys: set<string>)
    requires a == Obj([("id", Num(1)), ("name", Str("a"))]) && b == Obj([("id", Num(2))])
    requires keys == {"id"}
    ensures Matches(keys, a) && Matches(keys, b)
    ensures forall j :: 0 <= j < |a.fields| ==> Scalar(a.fields[j].1)
    ensures forall j :: 0 <= j < |b.fields| ==> Scalar(b.fields[j].1)
    ensures !Matches(keys, Obj([("data", Arr([a, b]))]))
  {
    assert Keys(a.fields)[0] == "id" && Keys(b.fields)[0] == "id";
    assert Keys([("data", Arr([a, b]))]) == ["data"];
  }

  /** Neither an object nor a list: nothing below it to search. */
  predicate Scalar(node: Json) {
    !node.Obj? && !node.Arr?
  }

  lemma {:induction false} ScalarFieldsFindNothing(fields: Dict<string, Json>, keys: set<string>, i: nat)
    requires i <= |fields|
    requires forall j :: i <= j < |fields| ==> Scalar(fields[j].1)
    ensures FindFields(fields, keys, i) == []
    decreases |fields| - i
  {
    if i < |fields| {
      ScalarFieldsFindNothing(fields, keys, i + 1);
    }
  }

  /** A matching object whose members are all scalars is the only match in it. */
  lemma FlatObjectFound(o: Json, keys: set<string>)
    requires Matches(keys, o)
    requires forall j :: 0 <= j < |o.fields| ==> Scalar(o.fields[j].1)
    ensures Find(o, keys) == [o]
  {
    ScalarFieldsFindNothing(o.fields, keys, 0);
  }

  lemma PairFound(a: Json, b: Json, keys: set<string>)
    ensures FindAll([a, b], keys) == Find(a, keys) + Find(b, keys)
  {
    assert [a, b][1..] == [b] && [b][1..] == [];
    assert FindAll([b], keys) == Find(b, keys) + FindAll([], keys);
    assert Find(b, keys) + [] == Find(b, keys);
  }

  /** An object with one member that does not match itself yields just the matches inside its value. */
  lemma WrapperFindsInside(key: string, v: Json, keys: set<string>)
    requires !Matches(keys, Obj([(key, v)]))
    ensures Find(Obj([(key, v)]), keys) == Find(v, keys)
  {
    assert [(key, v)][0] in Obj([(key, v)]).fields;
    assert FindFields([(key, v)], keys, 1) == [];
  }
}
