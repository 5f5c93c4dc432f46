/** The nested map `map<K1, map<K2, ... map<Kn-1, V>>>` and the
    `operator[]` descent through it (`detail::MapOfMaps`,
    `detail::at`, `detail::traverse`). Every key level uses `int` keys. */
module MapOfMaps {

  import opened Wrappers
  import opened Levels

  /** A value at the bottom of the nesting, a map level above it. */
  datatype Node<V> = Leaf(value: V) | Level(entries: seq<(int, Node<V>)>)

  /** `n` has exactly `d` key levels: each level is an ordered map and
      every value sits exactly `d` levels down. */
  ghost predicate WF<V>(n: Node<V>, d: nat)
    decreases d
  {
    match n
    case Leaf(_) => d == 0
    case Level(es) => d > 0 && Ascending(es) && forall e | e in es :: WF(e.1, d - 1)
  }

  /** The value stored under the key path `p`: the abstract meaning of a
      node, against which every operation is specified. */
  ghost function Stored<V>(n: Node<V>, p: seq<int>): Option<V>
    decreases |p|
  {
    match n
    case Leaf(v) => if p == [] then Some(v) else None
    case Level(es) =>
      if p == [] then None
      else match Lookup(es, p[0])
        case None => None
        case Some(c) => Stored(c, p[1..])
  }

  /** Every key of `keys` is present along the path it spells. */
  ghost predicate Present<V>(n: Node<V>, keys: seq<int>)
    decreases |keys|
  {
    keys == [] ||
    match n
    case Leaf(_) => false
    case Level(es) =>
      match Lookup(es, keys[0])
      case None => false
      case Some(c) => Present(c, keys[1..])
  }

  /** The child `operator[]` default-constructs under a level with `d`
      key levels: a value `V()` at the last level, an empty map above. */
  function Fresh<V>(d: int, dflt: V): Node<V> {
    if d <= 1 then Leaf(dflt) else Level([])
  }

  /** What a caller does with the reference `traverse` returns. */
  datatype Op<V> =
    | Keep              // reads it (at, test, values, begin, end, find)
    | Assign(v: V)      // assigns through it (operator() on the left of `=`)
    | EraseKey(k: int)  // erases one key of the map it refers to (erase)

  function Apply<V>(n: Node<V>, op: Op<V>): Node<V> {
    match op
    case Keep => n
    case Assign(v) => Leaf(v)
    case EraseKey(k) =>
      match n
      case Leaf(_) => n
      case Level(es) => Level(Remove(es, k))
  }

  /** The node `traverse(n, keys)` returns a reference to: one
      `operator[]` per key, a missing key yielding its fresh default. */
  function Reached<V>(n: Node<V>, d: int, keys: seq<int>, dflt: V): Node<V>
    decreases |keys|
  {
    if keys == [] then n
    else match n
      case Leaf(_) => n
      case Level(es) => Reached(Subscript(es, keys[0], Fresh(d, dflt)), d - 1, keys[1..], dflt)
  }

  /** The root after `traverse(n, keys)` followed by `op` on the returned
      reference: `operator[]` inserts every missing key on the path. */
  function Traverse<V>(n: Node<V>, d: int, keys: seq<int>, dflt: V, op: Op<V>): (r: Node<V>)
    ensures keys != [] && n.Level? ==> r.Level? && keys[0] in Domain(r.entries)
    decreases |keys|
  {
    if keys == [] then Apply(n, op)
    else match n
      case Leaf(_) => n
      case Level(es) =>
        var c := Subscript(es, keys[0], Fresh(d, dflt));
        Level(Put(es, keys[0], Traverse(c, d - 1, keys[1..], dflt, op)))
  }

  /** Values sit exactly at depth `d`. */
  lemma {:induction false} StoredDepth<V>(n: Node<V>, d: nat, p: seq<int>)
    requires WF(n, d)
    ensures Stored(n, p).Some? ==> |p| == d
    decreases |p|
  {
    if p != [] && n.Level? {
      match Lookup(n.entries, p[0])
      case None =>
      case Some(c) => StoredDepth(c, d - 1, p[1..]);
    }
  }

  lemma StoredDepthAll<V>(n: Node<V>, d: nat)
    requires WF(n, d)
    ensures forall p :: Stored(n, p).Some? ==> |p| == d
  {
    forall p ensures Stored(n, p).Some? ==> |p| == d {
      StoredDepth(n, d, p);
    }
  }

  /** `.find(k)` on the last-level map, read through: the value stored
      under `k`, if any. */
  function LastLevelGet<V>(n: Node<V>, k: int): (r: Option<V>)
    ensures WF(n, 1) ==> r == Stored(n, [k])
  {
    match n
    case Leaf(_) => None
    case Level(es) =>
      match Lookup(es, k)
      case None => None
      case Some(c) => if c.Leaf? then Some(c.value) else None
  }

  /** Erasing `k` from a map level removes exactly the paths through `k`
      and keeps the level well formed. */
  lemma EraseKeyStored<V>(n: Node<V>, d: nat, k: int)
    requires WF(n, d) && d > 0
    ensures WF(Apply(n, EraseKey(k)), d)
    ensures forall q :: Stored(Apply(n, EraseKey(k)), q) ==
                        (if q != [] && q[0] == k then None else Stored(n, q))
  {
  }

  /** The first child of a well-formed level, and the level without it,
      are well formed. */
  lemma WFParts<V>(es: seq<(int, Node<V>)>, d: nat)
    requires WF(Level(es), d) && es != []
    ensures WF(es[0].1, d - 1) && WF(Level(es[1..]), d)
  {
    assert es[0] in es;
  }

  /** The child `operator[]` hands back is a well-formed map one level
      shallower. */
  lemma SubscriptWF<V>(es: seq<(int, Node<V>)>, d: nat, k: int, dflt: V)
    requires WF(Level(es), d)
    ensures WF(Subscript(es, k, Fresh(d, dflt)), d - 1)
  {
  }

  /** The node `traverse` reaches is well formed, below the last level it
      holds exactly the values stored under the traversed keys, and at the
      last level it is the stored value or the inserted default. */
  lemma ReachedStored<V>(n: Node<V>, d: nat, keys: seq<int>, dflt: V)
    requires WF(n, d) && |keys| <= d
    ensures WF(Reached(n, d, keys, dflt), d - |keys|)
    ensures |keys| < d ==>
      forall q :: Stored(Reached(n, d, keys, dflt), q) == Stored(n, keys + q)
    ensures |keys| == d ==> Reached(n, d, keys, dflt) == Leaf(Stored(n, keys).GetOr(dflt))
  {
    ReachedWF(n, d, keys, dflt);
    if |keys| < d {
      ReachedBelow(n, d, keys, dflt);
    } else {
      ReachedLeaf(n, d, keys, dflt);
    }
  }

  /** The node reached through `keys` is well formed, `|keys|` levels
      shallower. */
  lemma {:induction false} ReachedWF<V>(n: Node<V>, d: nat, keys: seq<int>, dflt: V)
    requires WF(n, d) && |keys| <= d
    ensures WF(Reached(n, d, keys, dflt), d - |keys|)
    decreases |keys|
  {
    if keys != [] {
      SubscriptWF(n.entries, d, keys[0], dflt);
      ReachedWF(Subscript(n.entries, keys[0], Fresh(d, dflt)), d - 1, keys[1..], dflt);
    }
  }

  /** Above the last level, the reached node holds exactly the values
      stored under `keys`. */
  lemma {:induction false} ReachedBelow<V>(n: Node<V>, d: nat, keys: seq<int>, dflt: V)
    requires WF(n, d) && |keys| < d
    ensures forall q :: Stored(Reached(n, d, keys, dflt), q) == Stored(n, keys + q)
    decreases |keys|
  {
    if keys == [] {
      assert forall q :: keys + q == q;
    } else {
      var c := Subscript(n.entries, keys[0], Fresh(d, dflt));
      SubscriptWF(n.entries, d, keys[0], dflt);
      ReachedBelow(c, d - 1, keys[1..], dflt);
      forall q ensures Stored(Reached(n, d, keys, dflt), q) == Stored(n, keys + q) {
        assert (keys + q)[0] == keys[0] && (keys + q)[1..] == keys[1..] + q;
        if Lookup(n.entries, keys[0]).None? {
          assert c == Level([]);
        }
      }
    }
  }

  /** Through all the keys, the reached node is the stored value, or the
      default `operator[]` inserts when none is stored. */
  lemma {:induction false} ReachedLeaf<V>(n: Node<V>, d: nat, keys: seq<int>, dflt: V)
    requires WF(n, d) && |keys| == d
    ensures Reached(n, d, keys, dflt) == Leaf(Stored(n, keys).GetOr(dflt))
    decreases |keys|
  {
    if keys != [] {
      var c := Subscript(n.entries, keys[0], Fresh(d, dflt));
      SubscriptWF(n.entries, d, keys[0], dflt);
      ReachedLeaf(c, d - 1, keys[1..], dflt);
      if Lookup(n.entries, keys[0]).None? && |keys| > 1 {
        assert c == Level([]);
        assert Stored(c, keys[1..]) == None;
      }
    }
  }

  /** Storing child `t` under `k` changes exactly the paths through `k`. */
  lemma PutStored<V>(es: seq<(int, Node<V>)>, k: int, t: Node<V>, p: seq<int>)
    ensures Stored(Level(Put(es, k, t)), p) ==
              (if p != [] && p[0] == k then Stored(t, p[1..]) else Stored(Level(es), p))
  {
  }

  /** `traverse` followed by `op` yields a well-formed map in which every
      traversed key is present. */
  lemma TraverseWF<V>(n: Node<V>, d: nat, keys: seq<int>, dflt: V, op: Op<V>)
    requires WF(n, d) && |keys| <= d
    requires WF(Apply(Reached(n, d, keys, dflt), op), d - |keys|)
    ensures WF(Traverse(n, d, keys, dflt, op), d)
    ensures Present(Traverse(n, d, keys, dflt, op), keys)
  {
    TraverseKeepsWF(n, d, keys, dflt, op, d - |keys|);
    TraversePresent(n, d, keys, dflt, op);
  }

  /** `left` is the depth of the node reached, `d - |keys|`. */
  lemma {:induction false} TraverseKeepsWF<V>(n: Node<V>, d: nat, keys: seq<int>, dflt: V, op: Op<V>, left: nat)
    requires WF(n, d) && d == |keys| + left
    requires WF(Apply(Reached(n, d, keys, dflt), op), left)
    ensures WF(Traverse(n, d, keys, dflt, op), d)
    decreases |keys|
  {
    if keys != [] {
      var es := n.entries;
      var c := Subscript(es, keys[0], Fresh(d, dflt));
      SubscriptWF(es, d, keys[0], dflt);
      assert Reached(n, d, keys, dflt) == Reached(c, d - 1, keys[1..], dflt);
      TraverseKeepsWF(c, d - 1, keys[1..], dflt, op, left);
      var t := Traverse(c, d - 1, keys[1..], dflt, op);
      PutWF(es, d, keys[0], t);
      assert Traverse(n, d, keys, dflt, op) == Level(Put(es, keys[0], t));
    }
  }

  lemma {:induction false} TraversePresent<V>(n: Node<V>, d: nat, keys: seq<int>, dflt: V, op: Op<V>)
    requires WF(n, d) && |keys| <= d
    ensures Present(Traverse(n, d, keys, dflt, op), keys)
    decreases |keys|
  {
    if keys != [] {
      var es := n.entries;
      var c := Subscript(es, keys[0], Fresh(d, dflt));
      SubscriptWF(es, d, keys[0], dflt);
      TraversePresent(c, d - 1, keys[1..], dflt, op);
      var t := Traverse(c, d - 1, keys[1..], dflt, op);
      assert Lookup(Put(es, keys[0], t), keys[0]) == Some(t);
    }
  }

  /** Storing a well-formed child keeps a level well formed. */
  lemma PutWF<V>(es: seq<(int, Node<V>)>, d: nat, k: int, t: Node<V>)
    requires WF(Level(es), d) && WF(t, d - 1)
    ensures WF(Level(Put(es, k, t)), d)
  {
    forall e | e in Put(es, k, t) ensures WF(e.1, d - 1) {
      if e != (k, t) {
        assert e in es;
      }
    }
  }

  /** `traverse` followed by `op`: paths through the traversed keys see
      what `op` made of the reached node, every other path is unchanged. */
  lemma {:induction false} TraverseStored<V>(n: Node<V>, d: nat, keys: seq<int>, dflt: V, op: Op<V>)
    requires WF(n, d) && |keys| <= d
    ensures forall p :: Stored(Traverse(n, d, keys, dflt, op), p) ==
                        (if keys <= p then Stored(Apply(Reached(n, d, keys, dflt), op), p[|keys|..])
                         else Stored(n, p))
    decreases |keys|
  {
    if keys == [] {
      assert forall p: seq<int> :: p[0..] == p;
    } else {
      var es := n.entries;
      var c := Subscript(es, keys[0], Fresh(d, dflt));
      SubscriptWF(es, d, keys[0], dflt);
      TraverseStored(c, d - 1, keys[1..], dflt, op);
      var t := Traverse(c, d - 1, keys[1..], dflt, op);
      var a := Apply(Reached(c, d - 1, keys[1..], dflt), op);
      assert Traverse(n, d, keys, dflt, op) == Level(Put(es, keys[0], t));
      assert Apply(Reached(n, d, keys, dflt), op) == a;
      assert Lookup(es, keys[0]).None? ==> c == Level([]) || |keys| == 1;
      forall p
        ensures Stored(Level(Put(es, keys[0], t)), p) ==
                  (if keys <= p then Stored(a, p[|keys|..]) else Stored(n, p))
      {
        if p != [] {
          var q := p[1..];
          assert Stored(t, q) == (if keys[1..] <= q then Stored(a, q[|keys[1..]|..]) else Stored(c, q));
        }
        TraverseStoredAt(es, keys, c, t, a, p);
      }
    }
  }

  /** One path of `TraverseStored`: storing the traversed child `t` back
      under the first key, given what `t` holds along the rest of `p`. */
  lemma TraverseStoredAt<V>(es: seq<(int, Node<V>)>, keys: seq<int>, c: Node<V>, t: Node<V>, a: Node<V>, p: seq<int>)
    requires keys != []
    requires Lookup(es, keys[0]).Some? ==> Lookup(es, keys[0]) == Some(c)
    requires Lookup(es, keys[0]).None? ==> c == Level([]) || |keys| == 1
    requires p != [] ==>
               Stored(t, p[1..]) == (if keys[1..] <= p[1..] then Stored(a, p[1..][|keys[1..]|..]) else Stored(c, p[1..]))
    ensures Stored(Level(Put(es, keys[0], t)), p) ==
              (if keys <= p then Stored(a, p[|keys|..]) else Stored(Level(es), p))
  {
    PutStored(es, keys[0], t, p);
    if p != [] && p[0] == keys[0] {
      PrefixTail(keys, p);
      if keys <= p {
        assert p[1..][|keys[1..]|..] == p[|keys|..];
      } else {
        assert Stored(Level(es), p) == Stored(c, p[1..]) by {
          if Lookup(es, keys[0]).None? {
            assert c == Level([]);
          }
        }
      }
    } else if p != [] {
      assert p[0] != keys[0];
    }
  }

  /** Two sequences starting alike: one is a prefix of the other exactly
      when their tails are. */
  lemma PrefixTail(keys: seq<int>, p: seq<int>)
    requires keys != [] && p != [] && p[0] == keys[0]
    ensures keys <= p <==> keys[1..] <= p[1..]
  {
    if keys[1..] <= p[1..] {
      assert keys == [keys[0]] + keys[1..];
      assert p[..|keys|] == [p[0]] + p[1..][..|keys| - 1];
    }
  }

  /** Descending above the last level with `operator[]` only inserts
      empty levels: no stored value changes. */
  lemma TraverseKeepStored<V>(n: Node<V>, d: nat, keys: seq<int>, dflt: V)
    requires WF(n, d) && |keys| < d
    ensures WF(Traverse(n, d, keys, dflt, Keep), d)
    ensures Present(Traverse(n, d, keys, dflt, Keep), keys)
    ensures forall p :: Stored(Traverse(n, d, keys, dflt, Keep), p) == Stored(n, p)
  {
    ReachedStored(n, d, keys, dflt);
    TraverseWF(n, d, keys, dflt, Keep);
    TraverseStored(n, d, keys, dflt, Keep);
    forall p ensures Stored(Traverse(n, d, keys, dflt, Keep), p) == Stored(n, p) {
      if keys <= p {
        assert keys + p[|keys|..] == p;
      }
    }
  }

  /** Below the traversed keys, a read-only descent sees the reached node. */
  lemma TraverseKeepBelow<V>(n: Node<V>, d: nat, keys: seq<int>, dflt: V)
    requires WF(n, d) && |keys| <= d
    ensures forall p :: keys <= p ==>
              Stored(Traverse(n, d, keys, dflt, Keep), p) == Stored(Reached(n, d, keys, dflt), p[|keys|..])
  {
    TraverseStored(n, d, keys, dflt, Keep);
  }

  /** `TraverseKeepBelow` at a single tuple. */
  lemma TraverseKeepBelowAt<V>(n: Node<V>, d: nat, keys: seq<int>, dflt: V, p: seq<int>)
    requires WF(n, d) && |keys| <= d && keys <= p
    ensures Stored(Traverse(n, d, keys, dflt, Keep), p) == Stored(Reached(n, d, keys, dflt), p[|keys|..])
  {
    TraverseKeepBelow(n, d, keys, dflt);
  }

  /** Descending through every key with `operator[]`: the value under
      `keys` is the stored one or the inserted default, nothing else
      changes. */
  lemma TraverseKeepLeaf<V>(n: Node<V>, d: nat, keys: seq<int>, dflt: V)
    requires WF(n, d) && |keys| == d
    ensures WF(Traverse(n, d, keys, dflt, Keep), d)
    ensures Present(Traverse(n, d, keys, dflt, Keep), keys)
    ensures forall p :: Stored(Traverse(n, d, keys, dflt, Keep), p) ==
                        (if p == keys then Some(Stored(n, keys).GetOr(dflt)) else Stored(n, p))
  {
    ReachedStored(n, d, keys, dflt);
    TraverseWF(n, d, keys, dflt, Keep);
    TraverseStored(n, d, keys, dflt, Keep);
    forall p ensures Stored(Traverse(n, d, keys, dflt, Keep), p) ==
                     (if p == keys then Some(Stored(n, keys).GetOr(dflt)) else Stored(n, p))
    {
      if keys <= p && p != keys {
        assert |p[|keys|..]| > 0;
        StoredDepth(n, d, p);
      }
    }
  }

  /** Descending to the last level and erasing `k` there removes exactly
      the value under `keys + [k]`; the levels on the path stay. */
  lemma TraverseEraseStored<V>(n: Node<V>, d: nat, keys: seq<int>, dflt: V, k: int)
    requires WF(n, d) && |keys| == d - 1 && d > 0
    ensures WF(Traverse(n, d, keys, dflt, EraseKey(k)), d)
    ensures Present(Traverse(n, d, keys, dflt, EraseKey(k)), keys)
    ensures forall p :: Stored(Traverse(n, d, keys, dflt, EraseKey(k)), p) ==
                        (if p == keys + [k] then None else Stored(n, p))
  {
    var r := Reached(n, d, keys, dflt);
    ReachedStored(n, d, keys, dflt);
    EraseKeyStored(r, 1, k);
    TraverseWF(n, d, keys, dflt, EraseKey(k));
    TraverseStored(n, d, keys, dflt, EraseKey(k));
    forall p ensures Stored(Traverse(n, d, keys, dflt, EraseKey(k)), p) ==
                     (if p == keys + [k] then None else Stored(n, p))
    {
      if keys <= p {
        EraseAt(n, d, keys, r, k, p);
      }
    }
  }

  /** One path of `TraverseEraseStored`, below the traversed keys. */
  lemma EraseAt<V>(n: Node<V>, d: nat, keys: seq<int>, r: Node<V>, k: int, p: seq<int>)
    requires WF(n, d) && |keys| == d - 1 && keys <= p
    requires forall q :: Stored(r, q) == Stored(n, keys + q)
    ensures Stored(Apply(r, EraseKey(k)), p[|keys|..]) ==
            (if p == keys + [k] then None else Stored(n, p))
  {
    var q := p[|keys|..];
    assert keys + q == p;
    if r.Level? {
      if q != [] && q[0] == k && p != keys + [k] {
        assert keys + [k] <= p;
        StoredDepth(n, d, p);
      }
    }
  }

  /** A second `traverse` through the same keys reaches the same node. */
  lemma {:induction false} ReachedAfterTraverse<V>(n: Node<V>, d: int, keys: seq<int>, dflt: V)
    ensures Reached(Traverse(n, d, keys, dflt, Keep), d, keys, dflt) == Reached(n, d, keys, dflt)
    decreases |keys|
  {
    if keys != [] && n.Level? {
      var c := Subscript(n.entries, keys[0], Fresh(d, dflt));
      ReachedAfterTraverse(c, d - 1, keys[1..], dflt);
    }
  }

  /** Traversing the same keys twice inserts nothing the first pass did not. */
  lemma {:induction false} TraverseIdempotent<V>(n: Node<V>, d: int, keys: seq<int>, dflt: V)
    ensures Traverse(Traverse(n, d, keys, dflt, Keep), d, keys, dflt, Keep) == Traverse(n, d, keys, dflt, Keep)
    decreases |keys|
  {
    if keys != [] && n.Level? {
      var es := n.entries;
      var k := keys[0];
      var c := Subscript(es, k, Fresh(d, dflt));
      var t := Traverse(c, d - 1, keys[1..], dflt, Keep);
      TraverseIdempotent(c, d - 1, keys[1..], dflt);
      PutPut(es, k, t, t);
    }
  }
}
