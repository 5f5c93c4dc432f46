/** `values`, `begin`, `end` and `find`: the subtree query over a key
    prefix and the snapshot iterators built on it. */
module Queries {

  import opened Wrappers
  import opened MapOfMaps
  import opened Collector
  import opened MultiKey

  /**********************************************************************
   * values, begin, end, find
   **********************************************************************/

  /** Every listed pair is a value of `m` under `prefix` with its full
      key tuple. */
  ghost predicate Listed<V>(m: MultiKeyMap<V>, prefix: seq<int>, ks: seq<seq<int>>, vs: seq<V>)
    requires |ks| == |vs|
  {
    forall i :: 0 <= i < |ks| ==>
      |ks[i]| == m.depth && prefix <= ks[i] && Stored(m.root, ks[i]) == Some(vs[i])
  }

  /** Every value of `m` under `prefix` is listed. */
  ghost predicate Covers<V>(m: MultiKeyMap<V>, prefix: seq<int>, ks: seq<seq<int>>) {
    forall p :: prefix <= p && Stored(m.root, p).Some? ==> p in ks
  }

  /** `ks` and `vs` list, in step and in strictly ascending key order,
      exactly the values of `m` whose key tuple starts with `prefix`. */
  ghost predicate Enumerates<V>(m: MultiKeyMap<V>, prefix: seq<int>, ks: seq<seq<int>>, vs: seq<V>) {
    && |ks| == |vs|
    && Listed(m, prefix, ks, vs)
    && Covers(m, prefix, ks)
    && StrictlyAscending(ks)
  }

  /** The subtree query lists exactly the entries under the prefix, in
      lexicographic key order, as they stand after its own descent. */
  lemma SubtreeEnumerates<V>(m: MultiKeyMap<V>, prefix: seq<int>)
    requires Valid(m) && |prefix| <= m.depth
    ensures Enumerates(MultiKeyMap(m.depth, m.zero, Traverse(m.root, m.depth, prefix, m.zero, Keep)), prefix,
                       KeysOf(Below(m.root, m.depth, prefix, m.zero)), ValuesOf(Below(m.root, m.depth, prefix, m.zero)))
  {
    SubtreeSound(m, prefix);
    SubtreeComplete(m, prefix);
    SubtreeSorted(m, prefix);
  }

  lemma SubtreeSorted<V>(m: MultiKeyMap<V>, prefix: seq<int>)
    requires Valid(m) && |prefix| <= m.depth
    ensures StrictlyAscending(KeysOf(Below(m.root, m.depth, prefix, m.zero)))
  {
    BelowSorted(m.root, m.depth, prefix, m.zero);
  }

  lemma SubtreeSound<V>(m: MultiKeyMap<V>, prefix: seq<int>)
    requires Valid(m) && |prefix| <= m.depth
    ensures Listed(MultiKeyMap(m.depth, m.zero, Traverse(m.root, m.depth, prefix, m.zero, Keep)), prefix,
                   KeysOf(Below(m.root, m.depth, prefix, m.zero)), ValuesOf(Below(m.root, m.depth, prefix, m.zero)))
  {
    var l := Below(m.root, m.depth, prefix, m.zero);
    forall i | 0 <= i < |l|
      ensures |l[i].0| == m.depth && prefix <= l[i].0 &&
              Stored(Traverse(m.root, m.depth, prefix, m.zero, Keep), l[i].0) == Some(l[i].1)
    {
      SubtreeSoundAt(m, prefix, l[i]);
    }
  }

  lemma SubtreeSoundAt<V>(m: MultiKeyMap<V>, prefix: seq<int>, x: (seq<int>, V))
    requires Valid(m) && |prefix| <= m.depth && x in Below(m.root, m.depth, prefix, m.zero)
    ensures |x.0| == m.depth && prefix <= x.0
    ensures Stored(Traverse(m.root, m.depth, prefix, m.zero, Keep), x.0) == Some(x.1)
  {
    BelowSound(m.root, m.depth, prefix, m.zero, x);
  }

  lemma SubtreeComplete<V>(m: MultiKeyMap<V>, prefix: seq<int>)
    requires Valid(m) && |prefix| <= m.depth
    ensures Covers(MultiKeyMap(m.depth, m.zero, Traverse(m.root, m.depth, prefix, m.zero, Keep)), prefix,
                   KeysOf(Below(m.root, m.depth, prefix, m.zero)))
  {
    forall p | prefix <= p && Stored(Traverse(m.root, m.depth, prefix, m.zero, Keep), p).Some?
      ensures p in KeysOf(Below(m.root, m.depth, prefix, m.zero))
    {
      SubtreeCompleteAt(m, prefix, p);
    }
  }

  lemma SubtreeCompleteAt<V>(m: MultiKeyMap<V>, prefix: seq<int>, p: seq<int>)
    requires Valid(m) && |prefix| <= m.depth
    requires prefix <= p && Stored(Traverse(m.root, m.depth, prefix, m.zero, Keep), p).Some?
    ensures p in KeysOf(Below(m.root, m.depth, prefix, m.zero))
  {
    BelowComplete(m.root, m.depth, prefix, m.zero, p);
  }

  /** `values(values, keys, subKeys...)`: descends through `subKeys` with
      `operator[]`, then appends to both vectors, in step, every value
      under the prefix and its full key tuple, in lexicographic order,
      keeping what the vectors already held. */
  method Values<V>(m: MultiKeyMap<V>, values: seq<V>, keys: seq<seq<int>>, subKeys: seq<int>)
    returns (m': MultiKeyMap<V>, values': seq<V>, keys': seq<seq<int>>)
    requires Valid(m) && |subKeys| <= m.depth
    ensures Descended(m, subKeys, m')
    ensures |values| <= |values'| && values'[..|values|] == values
    ensures |keys| <= |keys'| && keys'[..|keys|] == keys
    ensures Enumerates(m', subKeys, keys'[|keys|..], values'[|values|..])
    ensures keys'[|keys|..] == KeysOf(Below(m.root, m.depth, subKeys, m.zero))
    ensures values'[|values|..] == ValuesOf(Below(m.root, m.depth, subKeys, m.zero))
    ensures Below(m'.root, m'.depth, subKeys, m'.zero) == Below(m.root, m.depth, subKeys, m.zero)
  {
    var root := Traverse(m.root, m.depth, subKeys, m.zero, Keep);
    m' := MultiKeyMap(m.depth, m.zero, root);
    var r := Reached(root, m.depth, subKeys, m.zero);
    values', keys' := SubTreeValues(r, m.depth - |subKeys|, values, keys, subKeys);
    assert Leaves(r, m.depth - |subKeys|, subKeys) == Below(m.root, m.depth, subKeys, m.zero) by {
      CollectAfterTraverse(m.root, m.depth, subKeys, m.zero);
    }
    Appended(m, subKeys, values, keys, values', keys');
    TraverseDescends(m, subKeys);
  }

  /** What `values` appends, read back from the two vectors. */
  lemma Appended<V>(m: MultiKeyMap<V>, subKeys: seq<int>, values: seq<V>, keys: seq<seq<int>>,
                    values': seq<V>, keys': seq<seq<int>>)
    requires Valid(m) && |subKeys| <= m.depth
    requires values' == values + ValuesOf(Below(m.root, m.depth, subKeys, m.zero))
    requires keys' == keys + KeysOf(Below(m.root, m.depth, subKeys, m.zero))
    ensures |values| <= |values'| && values'[..|values|] == values
    ensures |keys| <= |keys'| && keys'[..|keys|] == keys
    ensures keys'[|keys|..] == KeysOf(Below(m.root, m.depth, subKeys, m.zero))
    ensures values'[|values|..] == ValuesOf(Below(m.root, m.depth, subKeys, m.zero))
    ensures Enumerates(MultiKeyMap(m.depth, m.zero, Traverse(m.root, m.depth, subKeys, m.zero, Keep)), subKeys,
                       keys'[|keys|..], values'[|values|..])
  {
    DropPrefix(keys, KeysOf(Below(m.root, m.depth, subKeys, m.zero)));
    DropPrefix(values, ValuesOf(Below(m.root, m.depth, subKeys, m.zero)));
    SubtreeEnumerates(m, subKeys);
  }

  lemma DropPrefix<T>(a: seq<T>, b: seq<T>)
    ensures (a + b)[..|a|] == a && (a + b)[|a|..] == b
  {
  }

  /** `Iterator`: a position in a vector of values the iterator shares
      ownership of, a snapshot detached from the container. `vector`
      identifies that vector: every `begin` and `end` allocates its own. */
  datatype Iterator<V> = Iterator(snapshot: seq<V>, vector: nat, pos: nat)

  /** `*it` */
  function Deref<V>(it: Iterator<V>): V
    requires it.pos < |it.snapshot|
  {
    it.snapshot[it.pos]
  }

  /** `++it`: one position further along the same vector. */
  function Next<V>(it: Iterator<V>): (n: Iterator<V>)
    requires it.pos < |it.snapshot|
    ensures n.snapshot == it.snapshot && n.vector == it.vector && n.pos == it.pos + 1
  {
    it.(pos := it.pos + 1)
  }

  /** `it == other` compares the element addresses the two iterators hold:
      within one vector, equal exactly at equal positions. Iterators of two
      different vectors are taken to be unequal, as addresses in distinct
      allocations are; C++ leaves that comparison undefined. */
  predicate Same<V>(it: Iterator<V>, other: Iterator<V>) {
    it.vector == other.vector && it.pos == other.pos
  }

  /** `k` applications of `++`. */
  function Forward<V>(it: Iterator<V>, k: nat): (r: Iterator<V>)
    requires it.pos + k <= |it.snapshot|
    ensures r.snapshot == it.snapshot && r.vector == it.vector && r.pos == it.pos + k
    decreases k
  {
    if k == 0 then it else Forward(Next(it), k - 1)
  }

  /** From the first position of a snapshot, the `k`-th `++` reads its
      `k`-th value, and the iterator equals the end position of the same
      vector exactly once every value has been read. */
  lemma ReadsInOrder<V>(first: Iterator<V>, last: Iterator<V>, k: nat)
    requires first.pos == 0 && k <= |first.snapshot|
    requires last.vector == first.vector && last.pos == |first.snapshot|
    ensures k < |first.snapshot| ==> Deref(Forward(first, k)) == first.snapshot[k]
    ensures Same(Forward(first, k), last) <==> k == |first.snapshot|
  {
  }

  /** `begin(subKeys...)`: a fresh snapshot of the subtree query in a new
      vector, identified by `alloc`, positioned at its first value. */
  method Begin<V>(m: MultiKeyMap<V>, subKeys: seq<int>, alloc: nat) returns (m': MultiKeyMap<V>, it: Iterator<V>)
    requires Valid(m) && |subKeys| <= m.depth
    ensures Descended(m, subKeys, m')
    ensures it.pos == 0 && it.vector == alloc
    ensures it.snapshot == ValuesOf(Below(m.root, m.depth, subKeys, m.zero))
    ensures Enumerates(m', subKeys, KeysOf(Below(m.root, m.depth, subKeys, m.zero)), it.snapshot)
    ensures Below(m'.root, m'.depth, subKeys, m'.zero) == Below(m.root, m.depth, subKeys, m.zero)
  {
    var values, keys;
    m', values, keys := Values(m, [], [], subKeys);
    it := Iterator(values, alloc, 0);
  }

  /** `end(subKeys...)`: a fresh snapshot of the subtree query in a new
      vector, identified by `alloc`, positioned one past its last value. */
  method End<V>(m: MultiKeyMap<V>, subKeys: seq<int>, alloc: nat) returns (m': MultiKeyMap<V>, it: Iterator<V>)
    requires Valid(m) && |subKeys| <= m.depth
    ensures Descended(m, subKeys, m')
    ensures it.pos == |it.snapshot| && it.vector == alloc
    ensures it.snapshot == ValuesOf(Below(m.root, m.depth, subKeys, m.zero))
    ensures Enumerates(m', subKeys, KeysOf(Below(m.root, m.depth, subKeys, m.zero)), it.snapshot)
    ensures Below(m'.root, m'.depth, subKeys, m'.zero) == Below(m.root, m.depth, subKeys, m.zero)
  {
    var values, keys;
    m', values, keys := Values(m, [], [], subKeys);
    it := Iterator(values, alloc, |values|);
  }

  /** `find(keys...)`: `end()` of the whole container when nothing is
      stored under the tuple, otherwise `begin(keys...)`, whose snapshot
      is the one stored value. */
  method Find<V>(m: MultiKeyMap<V>, keys: seq<int>, alloc: nat) returns (m': MultiKeyMap<V>, it: Iterator<V>)
    requires Valid(m) && |keys| == m.depth
    ensures Successor(m, m') && SameEntries(m, m')
    ensures it.vector == alloc
    ensures Stored(m.root, keys).None? ==> it.pos == |it.snapshot|
    ensures Stored(m.root, keys).Some? ==> it.snapshot == [Stored(m.root, keys).value] && it.pos == 0
  {
    var tested := Test(m, keys);
    if !tested.1 {
      m', it := End(tested.0, [], alloc);
    } else {
      ReachedStored(tested.0.root, m.depth, keys, m.zero);
      m', it := Begin(tested.0, keys, alloc);
    }
  }

  /** The loop `for (it = begin(subKeys...); it != end(subKeys...); ++it)`
      as written: `begin` and `end` each allocate a vector, so for a
      non-empty query no iterator `++` reaches from the first one, up to
      one past its last value, ever equals the second. The exit test never
      holds, and after the last value the loop dereferences past the
      snapshot. */
  method ScanAsWritten<V>(m: MultiKeyMap<V>, subKeys: seq<int>, alloc: nat)
    returns (m': MultiKeyMap<V>, first: Iterator<V>, last: Iterator<V>)
    requires Valid(m) && |subKeys| <= m.depth
    ensures Descended(m, subKeys, m')
    ensures first.snapshot == last.snapshot == ValuesOf(Below(m.root, m.depth, subKeys, m.zero))
    ensures first.pos == 0 && last.pos == |last.snapshot| && first.vector != last.vector
    ensures |first.snapshot| > 0 ==> forall k: nat :: k <= |first.snapshot| ==> !Same(Forward(first, k), last)
  {
    var m1;
    m1, first := Begin(m, subKeys, alloc);
    m', last := End(m1, subKeys, alloc + 1);
    DescendTwice(m, subKeys, m1, m');
  }

  /** The same loop as evidently intended: `begin` and `end` positions of
      one snapshot. It reads the query's values in key order and stops. */
  method Scan<V>(m: MultiKeyMap<V>, subKeys: seq<int>, alloc: nat) returns (m': MultiKeyMap<V>, out: seq<V>)
    requires Valid(m) && |subKeys| <= m.depth
    ensures Descended(m, subKeys, m')
    ensures out == ValuesOf(Below(m.root, m.depth, subKeys, m.zero))
    ensures Enumerates(m', subKeys, KeysOf(Below(m.root, m.depth, subKeys, m.zero)), out)
  {
    var first;
    m', first := Begin(m, subKeys, alloc);
    var last := first.(pos := |first.snapshot|);
    out := ReadAll(first, last);
  }

  /** `for (; it != last; ++it)` reading `*it`, from the first position
      of a snapshot to the position one past its end in the same vector. */
  method ReadAll<V>(first: Iterator<V>, last: Iterator<V>) returns (out: seq<V>)
    requires first.pos == 0
    requires last.vector == first.vector && last.snapshot == first.snapshot && last.pos == |first.snapshot|
    ensures out == first.snapshot
  {
    var it := first;
    out := [];
    while !Same(it, last)
      invariant it.snapshot == first.snapshot && it.vector == first.vector && it.pos <= |first.snapshot|
      invariant out == first.snapshot[..it.pos]
      decreases |first.snapshot| - it.pos
    {
      out := out + [Deref(it)];
      it := Next(it);
    }
    assert out == first.snapshot;
  }
}
