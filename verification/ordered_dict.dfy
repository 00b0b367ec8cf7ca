/**
  A Python `dict` as an association list in insertion order: `d[k] = v`
  overwrites in place when `k` is present and appends otherwise, and
  iteration visits keys in the order they were first inserted.
 */
module OrderedDict {
  import opened Wrappers

  type Dict<K, V> = seq<(K, V)>

  function Keys<K, V>(d: Dict<K, V>): (ks: seq<K>)
    ensures |ks| == |d|
    ensures forall i :: 0 <= i < |d| ==> ks[i] == d[i].0
  {
    seq(|d|, i requires 0 <= i < |d| => d[i].0)
  }

  /** No key occurs twice. */
  predicate Valid<K(==), V>(d: Dict<K, V>) {
    forall i, j :: 0 <= i < j < |d| ==> d[i].0 != d[j].0
  }

  predicate HasValue<K, V(==)>(d: Dict<K, V>, v: V) {
    exists i :: 0 <= i < |d| && d[i].1 == v
  }

  /** Position of `k`, or `|d|` when absent. */
  function IndexOf<K(==), V>(d: Dict<K, V>, k: K): (i: nat)
    ensures i <= |d|
    ensures i < |d| ==> d[i].0 == k
    ensures forall j :: 0 <= j < i ==> d[j].0 != k
  {
    if d == [] then 0 else if d[0].0 == k then 0 else 1 + IndexOf(d[1..], k)
  }

  lemma IndexOfIs<K, V>(d: Dict<K, V>, k: K, i: nat)
    requires i <= |d|
    requires i < |d| ==> d[i].0 == k
    requires forall j :: 0 <= j < i ==> d[j].0 != k
    ensures IndexOf(d, k) == i
  {
  }

  /** `d.get(k)`. */
  function Get<K(==), V>(d: Dict<K, V>, k: K): (r: Option<V>)
    ensures r.Some? <==> k in Keys(d)
    ensures r.Some? ==> HasValue(d, r.value)
    ensures r.Some? ==> (k, r.value) in d
  {
    var i := IndexOf(d, k);
    if i < |d| then Some(d[i].1) else None
  }

  /** `d[k] = v`. */
  function Put<K(==,!new), V>(d: Dict<K, V>, k: K, v: V): (r: Dict<K, V>)
    ensures Get(r, k) == Some(v)
    ensures forall k' :: k' != k ==> Get(r, k') == Get(d, k')
    ensures Keys(r) == if k in Keys(d) then Keys(d) else Keys(d) + [k]
    ensures Valid(d) ==> Valid(r)
  {
    var i := IndexOf(d, k);
    var r := if i < |d| then d[i := (k, v)] else d + [(k, v)];
    PutKeys(d, k, v, i, r);
    IndexOfIs(r, k, i);
    forall k' | k' != k
      ensures Get(r, k') == Get(d, k')
    {
      PutOther(d, k, v, i, r, k');
    }
    r
  }

  /** The keys after an in-place overwrite at `i`, or after an append. */
  lemma PutKeys<K, V>(d: Dict<K, V>, k: K, v: V, i: nat, r: Dict<K, V>)
    requires i == IndexOf(d, k)
    requires r == if i < |d| then d[i := (k, v)] else d + [(k, v)]
    ensures Keys(r) == if k in Keys(d) then Keys(d) else Keys(d) + [k]
  {
    if i < |d| {
      OverwriteKeys(d, k, v, i);
    } else {
      AppendKeys(d, k, v);
    }
  }

  lemma OverwriteKeys<K, V>(d: Dict<K, V>, k: K, v: V, i: nat)
    requires i < |d| && d[i].0 == k
    ensures k in Keys(d) && Keys(d[i := (k, v)]) == Keys(d)
  {
    var r := d[i := (k, v)];
    assert Keys(d)[i] == k;
    assert forall j :: 0 <= j < |r| ==> Keys(r)[j] == Keys(d)[j];
  }

  lemma AppendKeys<K, V>(d: Dict<K, V>, k: K, v: V)
    requires forall j :: 0 <= j < |d| ==> d[j].0 != k
    ensures k !in Keys(d) && Keys(d + [(k, v)]) == Keys(d) + [k]
  {
    var r := d + [(k, v)];
    assert forall j :: 0 <= j < |d| ==> Keys(r)[j] == Keys(d)[j];
  }

  /** Other keys keep their positions and values. */
  lemma PutOther<K, V>(d: Dict<K, V>, k: K, v: V, i: nat, r: Dict<K, V>, k': K)
    requires i == IndexOf(d, k) && k' != k
    requires r == if i < |d| then d[i := (k, v)] else d + [(k, v)]
    ensures Get(r, k') == Get(d, k')
  {
    var j := IndexOf(d, k');
    if j < |d| {
      IndexOfIs(r, k', j);
    } else {
      IndexOfIs(r, k', |r|);
    }
  }

  /** Inserting the pairs one after another, as a loop of `d[k] = v` does. */
  function FromPairs<K(==,!new), V>(ps: seq<(K, V)>): (d: Dict<K, V>)
    ensures Valid(d)
    ensures |d| <= |ps|
  {
    if ps == [] then []
    else Put(FromPairs(ps[..|ps| - 1]), ps[|ps| - 1].0, ps[|ps| - 1].1)
  }

  /** Reference reading of last-write-wins: the value of the last pair with key `k`. */
  function LastValue<K(==), V>(ps: seq<(K, V)>, k: K): Option<V> {
    if ps == [] then None
    else if ps[|ps| - 1].0 == k then Some(ps[|ps| - 1].1)
    else LastValue(ps[..|ps| - 1], k)
  }

  /** Keys of `xs` in the order of their first occurrence. */
  function FirstOccurrences<K(==)>(xs: seq<K>): seq<K> {
    if xs == [] then []
    else
      var d := FirstOccurrences(xs[..|xs| - 1]);
      if xs[|xs| - 1] in d then d else d + [xs[|xs| - 1]]
  }

  lemma KeysSnoc<K, V>(ps: seq<(K, V)>)
    requires ps != []
    ensures Keys(ps) == Keys(ps[..|ps| - 1]) + [ps[|ps| - 1].0]
  {
    var a := Keys(ps);
    var b := Keys(ps[..|ps| - 1]) + [ps[|ps| - 1].0];
    assert forall i :: 0 <= i < |a| ==> a[i] == b[i];
  }

  /** Later writes overwrite earlier ones. */
  lemma {:induction false} FromPairsLastWins<K(!new), V>(ps: seq<(K, V)>, k: K)
    ensures Get(FromPairs(ps), k) == LastValue(ps, k)
  {
    if ps != [] {
      FromPairsLastWins(ps[..|ps| - 1], k);
    }
  }

  /** Iteration order is the order in which each key was first inserted. */
  lemma {:induction false} FromPairsKeyOrder<K(!new), V>(ps: seq<(K, V)>)
    ensures Keys(FromPairs(ps)) == FirstOccurrences(Keys(ps))
  {
    if ps != [] {
      var init := ps[..|ps| - 1];
      var last := ps[|ps| - 1];
      FromPairsKeyOrder(init);
      var ks := Keys(ps);
      assert ks[..|ps| - 1] == Keys(init);
      assert ks[|ps| - 1] == last.0;
      var d := FromPairs(init);
      assert FromPairs(ps) == Put(d, last.0, last.1);
      assert FirstOccurrences(ks) == if last.0 in Keys(d) then Keys(d) else Keys(d) + [last.0];
    }
  }

  /** A key is present exactly when some pair wrote it. */
  lemma FromPairsKeys<K(!new), V>(ps: seq<(K, V)>, k: K)
    ensures k in Keys(FromPairs(ps)) <==> exists i :: 0 <= i < |ps| && ps[i].0 == k
  {
    FromPairsKeySeq(ps, k);
    var ks := Keys(ps);
    if k in ks {
      var i :| 0 <= i < |ks| && ks[i] == k;
      assert ps[i].0 == k;
    }
  }

  lemma {:induction false} FromPairsKeySeq<K(!new), V>(ps: seq<(K, V)>, k: K)
    ensures k in Keys(FromPairs(ps)) <==> k in Keys(ps)
  {
    if ps != [] {
      var init := ps[..|ps| - 1];
      var last := ps[|ps| - 1];
      FromPairsKeySeq(init, k);
      KeysSnoc(ps);
      var d := FromPairs(init);
      assert FromPairs(ps) == Put(d, last.0, last.1);
      assert k in Keys(FromPairs(ps)) <==> k in Keys(d) || k == last.0;
    }
  }

  /** Every stored value was written by some pair. */
  lemma {:induction false} FromPairsValues<K(!new), V>(ps: seq<(K, V)>, k: K)
    requires Get(FromPairs(ps), k).Some?
    ensures exists i :: 0 <= i < |ps| && ps[i] == (k, Get(FromPairs(ps), k).value)
  {
    var init := ps[..|ps| - 1];
    var last := ps[|ps| - 1];
    assert FromPairs(ps) == Put(FromPairs(init), last.0, last.1);
    if last.0 != k {
      assert Get(FromPairs(ps), k) == Get(FromPairs(init), k);
      FromPairsValues(init, k);
      var i :| 0 <= i < |init| && init[i] == (k, Get(FromPairs(init), k).value);
      assert ps[i] == init[i];
    } else {
      assert ps[|ps| - 1] == (k, Get(FromPairs(ps), k).value);
    }
  }

  /** Index of the first entry, in iteration order, whose key satisfies `p`. */
  function FirstWhere<K, V>(d: Dict<K, V>, p: K -> bool): (i: nat)
    ensures i <= |d|
    ensures i < |d| ==> p(d[i].0)
    ensures forall j :: 0 <= j < i ==> !p(d[j].0)
  {
    if d == [] then 0 else if p(d[0].0) then 0 else 1 + FirstWhere(d[1..], p)
  }
}
