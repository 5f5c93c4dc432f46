/** `MultiKeyMap`: a map indexed by a fixed-length tuple of keys, built
    as a cascade of ordered maps, with subtree queries over key prefixes
    and iterators over a snapshot of their results. */
module MultiKey {

  import opened Wrappers
  import opened Levels
  import opened MapOfMaps
  import opened Collector

  /** A container with `depth` key levels (n - 1 for the schema
      `K1, ..., Kn-1, V`); `zero` is the value-initialised `V()` that
      `operator[]` inserts at the last level. */
  datatype MultiKeyMap<V> = MultiKeyMap(depth: nat, zero: V, root: Node<V>)

  ghost predicate Valid<V>(m: MultiKeyMap<V>) {
    m.depth >= 1 && WF(m.root, m.depth)
  }

  /** Both containers store the same value under every key tuple. */
  ghost predicate SameEntries<V>(m: MultiKeyMap<V>, m': MultiKeyMap<V>) {
    forall p :: Stored(m.root, p) == Stored(m'.root, p)
  }

  /** `m` changed only in the shape of its levels and the schema is kept. */
  ghost predicate Successor<V>(m: MultiKeyMap<V>, m': MultiKeyMap<V>) {
    Valid(m') && m'.depth == m.depth && m'.zero == m.zero
  }

  /** The default-constructed container: one empty root level. */
  function Empty<V>(depth: nat, zero: V): (m: MultiKeyMap<V>)
    requires depth >= 1
    ensures Valid(m) && m.depth == depth
    ensures forall p :: Stored(m.root, p) == None
  {
    MultiKeyMap(depth, zero, Level([]))
  }

  /** `m'` is `m` after `traverse` through `subKeys` with `operator[]`:
      the path is present, and nothing else changes except that a full
      key tuple with no value gains `V()`. */
  ghost predicate Descended<V>(m: MultiKeyMap<V>, subKeys: seq<int>, m': MultiKeyMap<V>) {
    && Successor(m, m')
    && Present(m'.root, subKeys)
    && forall p :: Stored(m'.root, p) ==
                   (if p == subKeys && |p| == m.depth then Some(Stored(m.root, p).GetOr(m.zero))
                    else Stored(m.root, p))
  }

  /** `traverse` through `subKeys`, as a container operation. */
  lemma TraverseDescends<V>(m: MultiKeyMap<V>, subKeys: seq<int>)
    requires Valid(m) && |subKeys| <= m.depth
    ensures Descended(m, subKeys, MultiKeyMap(m.depth, m.zero, Traverse(m.root, m.depth, subKeys, m.zero, Keep)))
  {
    if |subKeys| < m.depth {
      TraverseKeepStored(m.root, m.depth, subKeys, m.zero);
    } else {
      TraverseKeepLeaf(m.root, m.depth, subKeys, m.zero);
    }
  }

  /** Descending twice through the same keys is descending once: the
      default the first pass inserts is found by the second. */
  lemma DescendTwice<V>(m: MultiKeyMap<V>, subKeys: seq<int>, m1: MultiKeyMap<V>, m2: MultiKeyMap<V>)
    requires Descended(m, subKeys, m1) && Descended(m1, subKeys, m2)
    ensures Descended(m, subKeys, m2)
  {
    forall p: seq<int>
      ensures Stored(m2.root, p) ==
              (if p == subKeys && |p| == m.depth then Some(Stored(m.root, p).GetOr(m.zero))
               else Stored(m.root, p))
    {
      assert Stored(m2.root, p) ==
             (if p == subKeys && |p| == m1.depth then Some(Stored(m1.root, p).GetOr(m1.zero))
              else Stored(m1.root, p));
    }
  }

  /** `operator()(keys...)` read as a value: traverses with `operator[]`
      through every key, so an absent tuple is inserted with `V()`. */
  function Access<V>(m: MultiKeyMap<V>, keys: seq<int>): (r: (MultiKeyMap<V>, V))
    requires Valid(m) && |keys| == m.depth
    ensures Descended(m, keys, r.0)
    ensures r.1 == Stored(m.root, keys).GetOr(m.zero)
    ensures Stored(r.0.root, keys) == Some(r.1)
  {
    ReachedStored(m.root, m.depth, keys, m.zero);
    TraverseDescends(m, keys);
    (MultiKeyMap(m.depth, m.zero, Traverse(m.root, m.depth, keys, m.zero, Keep)), Reached(m.root, m.depth, keys, m.zero).value)
  }

  /** `operator()(keys...) = v`: assigns through the reference. */
  function Write<V>(m: MultiKeyMap<V>, keys: seq<int>, v: V): (m': MultiKeyMap<V>)
    requires Valid(m) && |keys| == m.depth
    ensures Successor(m, m')
    ensures Stored(m'.root, keys) == Some(v)
    ensures forall p :: p != keys ==> Stored(m'.root, p) == Stored(m.root, p)
  {
    ReachedStored(m.root, m.depth, keys, m.zero);
    TraverseWF(m.root, m.depth, keys, m.zero, Assign(v));
    TraverseStored(m.root, m.depth, keys, m.zero, Assign(v));
    StoredDepthAll(m.root, m.depth);
    assert forall p :: keys <= p && p != keys ==> |p[|keys|..]| > 0;
    MultiKeyMap(m.depth, m.zero, Traverse(m.root, m.depth, keys, m.zero, Assign(v)))
  }

  /** The first n - 2 keys, which `traverse` descends through, and the
      last key, looked up in the map it reaches. */
  function Init(keys: seq<int>): seq<int>
    requires |keys| >= 1
  {
    keys[..|keys| - 1]
  }

  function Last(keys: seq<int>): int
    requires |keys| >= 1
  {
    keys[|keys| - 1]
  }

  /** Descending through the first keys, as `at`, `test` and `erase` do,
      keeps every entry and makes the path present. */
  lemma DescendInit<V>(m: MultiKeyMap<V>, keys: seq<int>)
    requires Valid(m) && |keys| == m.depth
    ensures Successor(m, MultiKeyMap(m.depth, m.zero, Traverse(m.root, m.depth, Init(keys), m.zero, Keep)))
    ensures SameEntries(m, MultiKeyMap(m.depth, m.zero, Traverse(m.root, m.depth, Init(keys), m.zero, Keep)))
    ensures Present(Traverse(m.root, m.depth, Init(keys), m.zero, Keep), Init(keys))
  {
    TraverseKeepStored(m.root, m.depth, Init(keys), m.zero);
  }

  /** The last-level map reached through the first keys holds the last
      key exactly when a value is stored under the full tuple. */
  lemma LastLevel<V>(m: MultiKeyMap<V>, keys: seq<int>)
    requires Valid(m) && |keys| == m.depth
    ensures LastLevelGet(Reached(m.root, m.depth, Init(keys), m.zero), Last(keys)) == Stored(m.root, keys)
  {
    ReachedStored(m.root, m.depth, Init(keys), m.zero);
    assert Init(keys) + [Last(keys)] == keys;
  }

  /** `at(keys...)`: the stored value, or `None` where the C++ code throws
      `std::out_of_range`; the first keys are still descended through
      with `operator[]`, the last one is never inserted. */
  function At<V>(m: MultiKeyMap<V>, keys: seq<int>): (r: (MultiKeyMap<V>, Option<V>))
    requires Valid(m) && |keys| == m.depth
    ensures Successor(m, r.0) && SameEntries(m, r.0)
    ensures r.1 == Stored(m.root, keys)
    ensures Present(r.0.root, Init(keys))
  {
    DescendInit(m, keys);
    LastLevel(m, keys);
    var root := Traverse(m.root, m.depth, Init(keys), m.zero, Keep);
    (MultiKeyMap(m.depth, m.zero, root), LastLevelGet(Reached(m.root, m.depth, Init(keys), m.zero), Last(keys)))
  }

  /** `test(keys...)`: whether a value is stored under the tuple. */
  function Test<V>(m: MultiKeyMap<V>, keys: seq<int>): (r: (MultiKeyMap<V>, bool))
    requires Valid(m) && |keys| == m.depth
    ensures Successor(m, r.0) && SameEntries(m, r.0)
    ensures r.1 <==> Stored(m.root, keys).Some?
    ensures Present(r.0.root, Init(keys))
  {
    DescendInit(m, keys);
    LastLevel(m, keys);
    var root := Traverse(m.root, m.depth, Init(keys), m.zero, Keep);
    (MultiKeyMap(m.depth, m.zero, root), LastLevelGet(Reached(m.root, m.depth, Init(keys), m.zero), Last(keys)).Some?)
  }

  /** `erase(keys...)`: removes the one entry under the tuple if there is
      one; the levels above it stay, however empty. */
  function Erase<V>(m: MultiKeyMap<V>, keys: seq<int>): (r: (MultiKeyMap<V>, bool))
    requires Valid(m) && |keys| == m.depth
    ensures Successor(m, r.0)
    ensures r.1 <==> Stored(m.root, keys).Some?
    ensures Stored(r.0.root, keys) == None
    ensures forall p :: p != keys ==> Stored(r.0.root, p) == Stored(m.root, p)
    ensures Present(r.0.root, Init(keys))
  {
    var lastMap := Reached(m.root, m.depth, Init(keys), m.zero);
    var found := LastLevelGet(lastMap, Last(keys)).Some?;
    var op := if found then EraseKey(Last(keys)) else Keep;
    EraseEffect(m, keys, found, op);
    (MultiKeyMap(m.depth, m.zero, Traverse(m.root, m.depth, Init(keys), m.zero, op)), found)
  }

  lemma EraseEffect<V>(m: MultiKeyMap<V>, keys: seq<int>, found: bool, op: Op<V>)
    requires Valid(m) && |keys| == m.depth
    requires found == LastLevelGet(Reached(m.root, m.depth, Init(keys), m.zero), Last(keys)).Some?
    requires op == if found then EraseKey(Last(keys)) else Keep
    ensures Successor(m, MultiKeyMap(m.depth, m.zero, Traverse(m.root, m.depth, Init(keys), m.zero, op)))
    ensures found <==> Stored(m.root, keys).Some?
    ensures forall p :: Stored(Traverse(m.root, m.depth, Init(keys), m.zero, op), p) ==
                        (if p == keys then None else Stored(m.root, p))
    ensures Present(Traverse(m.root, m.depth, Init(keys), m.zero, op), Init(keys))
  {
    LastLevel(m, keys);
    assert Init(keys) + [Last(keys)] == keys;
    if found {
      TraverseEraseStored(m.root, m.depth, Init(keys), m.zero, Last(keys));
    } else {
      DescendInit(m, keys);
    }
  }

  /** Writing `v` under a tuple, then reading it with `at`, gives `v`;
      `at` of every other tuple reads what it read before. */
  lemma WriteThenAt<V>(m: MultiKeyMap<V>, keys: seq<int>, v: V, other: seq<int>)
    requires Valid(m) && |keys| == m.depth && |other| == m.depth
    ensures At(Write(m, keys, v), keys).1 == Some(v)
    ensures other != keys ==> At(Write(m, keys, v), other).1 == At(m, other).1
  {
  }

  /** Assigning through the reference `at` returns, on a tuple that holds
      a value, is the assignment `operator()` makes: the descent `at` makes
      first changes nothing a write then sees. */
  lemma AtThenWrite<V>(m: MultiKeyMap<V>, keys: seq<int>, v: V)
    requires Valid(m) && |keys| == m.depth && Stored(m.root, keys).Some?
    ensures SameEntries(Write(At(m, keys).0, keys, v), Write(m, keys, v))
  {
    var a := At(m, keys).0;
    forall p ensures Stored(Write(a, keys, v).root, p) == Stored(Write(m, keys, v).root, p) {
      if p != keys {
        assert Stored(a.root, p) == Stored(m.root, p);
      }
    }
  }

  /** A second `erase` of the same tuple finds nothing, and afterwards
      `test` says the tuple is absent. */
  lemma EraseTwice<V>(m: MultiKeyMap<V>, keys: seq<int>)
    requires Valid(m) && |keys| == m.depth
    ensures !Erase(Erase(m, keys).0, keys).1
    ensures !Test(Erase(m, keys).0, keys).1
  {
  }
}
