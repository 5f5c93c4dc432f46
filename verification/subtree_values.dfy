/** `detail::SubTreeValues<k>`: the enumeration of every value `k` levels
    below a node, with the key tuple that leads to it, children visited in
    ascending key order. */
module Collector {

  import opened Wrappers
  import opened Levels
  import opened MapOfMaps

  /** The (key tuple, value) pairs collected below `n`, `left` levels
      deep, each tuple starting with the accumulated `acc`: the reference
      enumeration the collecting procedure below is proved to produce. */
  function Leaves<V>(n: Node<V>, left: nat, acc: seq<int>): seq<(seq<int>, V)>
    decreases left, if n.Level? then |n.entries| + 1 else 0
  {
    if left == 0 then
      match n
      case Leaf(v) => [(acc, v)]
      case Level(_) => []
    else
      match n
      case Leaf(_) => []
      case Level(es) => LeavesOf(es, left, acc)
  }

  /** The pairs collected from the entries `es` of a level, in order. */
  function LeavesOf<V>(es: seq<(int, Node<V>)>, left: nat, acc: seq<int>): seq<(seq<int>, V)>
    requires left > 0
    decreases left, |es|
  {
    if es == [] then []
    else Leaves(es[0].1, left - 1, acc + [es[0].0]) + LeavesOf(es[1..], left, acc)
  }

  function KeysOf<V>(s: seq<(seq<int>, V)>): (ks: seq<seq<int>>)
    ensures |ks| == |s|
  {
    seq(|s|, i requires 0 <= i < |s| => s[i].0)
  }

  function ValuesOf<V>(s: seq<(seq<int>, V)>): (vs: seq<V>)
    ensures |vs| == |s|
  {
    seq(|s|, i requires 0 <= i < |s| => s[i].1)
  }

  /** Lexicographic order on key tuples. */
  ghost predicate LexLess(a: seq<int>, b: seq<int>) {
    exists i :: 0 <= i < |a| && i < |b| && a[..i] == b[..i] && a[i] < b[i]
  }

  /** Strictly ascending key tuples: sorted, and no tuple twice. */
  ghost predicate StrictlyAscending(ks: seq<seq<int>>) {
    forall i, j :: 0 <= i < j < |ks| ==> LexLess(ks[i], ks[j])
  }

  lemma {:induction false} LeavesOfAppend<V>(a: seq<(int, Node<V>)>, b: seq<(int, Node<V>)>, left: nat, acc: seq<int>)
    requires left > 0
    ensures LeavesOf(a + b, left, acc) == LeavesOf(a, left, acc) + LeavesOf(b, left, acc)
    decreases |a|
  {
    if a != [] {
      assert (a + b)[0] == a[0];
      assert (a + b)[1..] == a[1..] + b;
      LeavesOfAppend(a[1..], b, left, acc);
    } else {
      assert a + b == b;
    }
  }

  /** The collecting procedure: appends to `values` and `keys`, in step,
      one value and one key tuple for every value `left` levels below `n`,
      visiting the children of every level in ascending key order. */
  method SubTreeValues<V>(n: Node<V>, left: nat, values: seq<V>, keys: seq<seq<int>>, tuple: seq<int>)
    returns (values': seq<V>, keys': seq<seq<int>>)
    ensures values' == values + ValuesOf(Leaves(n, left, tuple))
    ensures keys' == keys + KeysOf(Leaves(n, left, tuple))
    ensures |values'| - |values| == |keys'| - |keys|
    decreases left, 1
  {
    if left == 0 {
      match n
      case Leaf(v) =>
        keys' := keys + [tuple];
        values' := values + [v];
        assert Leaves(n, left, tuple) == [(tuple, v)];
        assert KeysOf([(tuple, v)]) == [tuple] && ValuesOf([(tuple, v)]) == [v];
      case Level(_) =>
        values', keys' := values, keys;
        assert KeysOf(Leaves(n, left, tuple)) == [] && ValuesOf(Leaves(n, left, tuple)) == [];
    } else {
      match n
      case Leaf(_) =>
        values', keys' := values, keys;
        assert KeysOf(Leaves(n, left, tuple)) == [] && ValuesOf(Leaves(n, left, tuple)) == [];
      case Level(es) =>
        values', keys' := SubTreeValuesLevel(es, left, values, keys, tuple);
    }
  }

  /** The loop over one level's entries, in ascending key order, each
      child collected with its key appended to the tuple. */
  method SubTreeValuesLevel<V>(es: seq<(int, Node<V>)>, left: nat, values: seq<V>, keys: seq<seq<int>>, tuple: seq<int>)
    returns (values': seq<V>, keys': seq<seq<int>>)
    requires left > 0
    ensures values' == values + ValuesOf(LeavesOf(es, left, tuple))
    ensures keys' == keys + KeysOf(LeavesOf(es, left, tuple))
    decreases left, 0
  {
    values', keys' := values, keys;
    var i := 0;
    assert KeysOf(LeavesOf(es[..0], left, tuple)) == [] && ValuesOf(LeavesOf(es[..0], left, tuple)) == [];
    while i < |es|
      invariant 0 <= i <= |es|
      invariant values' == values + ValuesOf(LeavesOf(es[..i], left, tuple))
      invariant keys' == keys + KeysOf(LeavesOf(es[..i], left, tuple))
    {
      values', keys' := SubTreeValues(es[i].1, left - 1, values', keys', tuple + [es[i].0]);
      CollectStep(es, i, left, tuple);
      i := i + 1;
    }
    assert es[..|es|] == es;
  }

  /** One turn of the collecting loop: the pairs of the first `i + 1`
      entries are those of the first `i`, then those under entry `i`. */
  lemma CollectStep<V>(es: seq<(int, Node<V>)>, i: nat, left: nat, tuple: seq<int>)
    requires i < |es| && left > 0
    ensures ValuesOf(LeavesOf(es[..i + 1], left, tuple)) ==
              ValuesOf(LeavesOf(es[..i], left, tuple)) + ValuesOf(Leaves(es[i].1, left - 1, tuple + [es[i].0]))
    ensures KeysOf(LeavesOf(es[..i + 1], left, tuple)) ==
              KeysOf(LeavesOf(es[..i], left, tuple)) + KeysOf(Leaves(es[i].1, left - 1, tuple + [es[i].0]))
  {
    assert es[..i + 1] == es[..i] + [es[i]];
    LeavesOfAppend(es[..i], [es[i]], left, tuple);
    var a := LeavesOf(es[..i], left, tuple);
    var b := Leaves(es[i].1, left - 1, tuple + [es[i].0]);
    assert LeavesOf([es[i]], left, tuple) == b + [];
    assert ValuesOf(a + b) == ValuesOf(a) + ValuesOf(b);
    assert KeysOf(a + b) == KeysOf(a) + KeysOf(b);
  }

  /** The overload without a tuple, for a level at least one key above
      the values: each child's key starts a fresh tuple. */
  method SubTreeValuesFresh<V>(n: Node<V>, left: nat, values: seq<V>, keys: seq<seq<int>>)
    returns (values': seq<V>, keys': seq<seq<int>>)
    requires left > 0
    ensures values' == values + ValuesOf(Leaves(n, left, []))
    ensures keys' == keys + KeysOf(Leaves(n, left, []))
  {
    values', keys' := values, keys;
    if n.Level? {
      var es := n.entries;
      var i := 0;
      while i < |es|
        invariant 0 <= i <= |es|
        invariant values' == values + ValuesOf(LeavesOf(es[..i], left, []))
        invariant keys' == keys + KeysOf(LeavesOf(es[..i], left, []))
      {
        var t := [es[i].0];
        assert [] + [es[i].0] == t;
        values', keys' := SubTreeValues(es[i].1, left - 1, values', keys', t);
        CollectStep(es, i, left, []);
        i := i + 1;
      }
      assert es[..|es|] == es;
    }
  }

  /** Every collected pair is a stored value with its full key tuple,
      which extends `acc` by exactly `left` keys. */
  lemma {:induction false} LeavesSound<V>(n: Node<V>, left: nat, acc: seq<int>)
    requires WF(n, left)
    ensures forall x :: x in Leaves(n, left, acc) ==>
              |x.0| == |acc| + left && acc <= x.0 && Stored(n, x.0[|acc|..]) == Some(x.1)
    decreases left, if n.Level? then |n.entries| + 1 else 0
  {
    if left == 0 {
      assert forall x :: x in Leaves(n, left, acc) ==> x.0 == acc;
    } else {
      LeavesOfSound(n.entries, left, acc);
    }
  }

  lemma {:induction false} LeavesOfSound<V>(es: seq<(int, Node<V>)>, left: nat, acc: seq<int>)
    requires left > 0 && WF(Level(es), left)
    ensures forall x :: x in LeavesOf(es, left, acc) ==>
              |x.0| == |acc| + left && acc <= x.0 && x.0[|acc|] in Domain(es)
              && Stored(Level(es), x.0[|acc|..]) == Some(x.1)
    decreases left, |es|
  {
    if es != [] {
      var k := es[0].0;
      var c := es[0].1;
      var rest := es[1..];
      assert es == [es[0]] + rest;
      DomainCons(es[0], rest);
      AscendingHead(es);
      WFParts(es, left);
      LeavesSound(c, left - 1, acc + [k]);
      LeavesOfSound(rest, left, acc);
      assert Lookup(es, k) == Some(c);
      forall x | x in LeavesOf(es, left, acc)
        ensures |x.0| == |acc| + left && acc <= x.0 && x.0[|acc|] in Domain(es)
                && Stored(Level(es), x.0[|acc|..]) == Some(x.1)
      {
        if x in Leaves(c, left - 1, acc + [k]) {
          assert x.0[|acc|] == k;
          assert x.0[|acc|..][1..] == x.0[|acc| + 1..];
        } else {
          assert x in LeavesOf(rest, left, acc);
          assert x.0[|acc|] != k;
        }
      }
    }
  }

  /** Every stored value is collected, with its full key tuple. */
  lemma {:induction false} LeavesComplete<V>(n: Node<V>, left: nat, acc: seq<int>)
    requires WF(n, left)
    ensures forall q :: Stored(n, q).Some? ==> (acc + q, Stored(n, q).value) in Leaves(n, left, acc)
    decreases left, if n.Level? then |n.entries| + 1 else 0
  {
    if left == 0 {
      assert forall q :: Stored(n, q).Some? ==> q == [] && acc + q == acc;
    } else {
      LeavesOfComplete(n.entries, left, acc);
    }
  }

  lemma {:induction false} LeavesOfComplete<V>(es: seq<(int, Node<V>)>, left: nat, acc: seq<int>)
    requires left > 0 && WF(Level(es), left)
    ensures forall q :: Stored(Level(es), q).Some? ==>
              (acc + q, Stored(Level(es), q).value) in LeavesOf(es, left, acc)
    decreases left, |es|
  {
    if es != [] {
      var k := es[0].0;
      var c := es[0].1;
      var rest := es[1..];
      WFParts(es, left);
      LeavesComplete(c, left - 1, acc + [k]);
      LeavesOfComplete(rest, left, acc);
      forall q | Stored(Level(es), q).Some?
        ensures (acc + q, Stored(Level(es), q).value) in LeavesOf(es, left, acc)
      {
        if q[0] == k {
          assert acc + q == acc + [k] + q[1..];
        } else {
          assert Stored(Level(es), q) == Stored(Level(rest), q);
        }
      }
    }
  }

  /** One collected pair, on its own: `LeavesSound` at a single point. */
  lemma LeafSound<V>(n: Node<V>, left: nat, acc: seq<int>, x: (seq<int>, V))
    requires WF(n, left) && x in Leaves(n, left, acc)
    ensures |x.0| == |acc| + left && acc <= x.0 && Stored(n, x.0[|acc|..]) == Some(x.1)
  {
    LeavesSound(n, left, acc);
  }

  /** One stored value, on its own: `LeavesComplete` at a single point. */
  lemma LeafComplete<V>(n: Node<V>, left: nat, acc: seq<int>, q: seq<int>)
    requires WF(n, left) && Stored(n, q).Some?
    ensures (acc + q, Stored(n, q).value) in Leaves(n, left, acc)
  {
    LeavesComplete(n, left, acc);
  }

  /** Concatenating two ascending runs, every tuple of the first below
      every tuple of the second, is ascending. */
  lemma ConcatAscending(a: seq<seq<int>>, b: seq<seq<int>>)
    requires StrictlyAscending(a) && StrictlyAscending(b)
    requires forall i, j :: 0 <= i < |a| && 0 <= j < |b| ==> LexLess(a[i], b[j])
    ensures StrictlyAscending(a + b)
  {
    var s := a + b;
    forall i, j | 0 <= i < j < |s| ensures LexLess(s[i], s[j]) {
      if j < |a| {
        assert s[i] == a[i] && s[j] == a[j];
      } else if i >= |a| {
        assert s[i] == b[i - |a|] && s[j] == b[j - |a|];
      } else {
        assert s[i] == a[i] && s[j] == b[j - |a|];
      }
    }
  }

  /** The collected key tuples are strictly ascending in lexicographic
      order: children are visited in ascending key order at every level. */
  lemma {:induction false} LeavesSorted<V>(n: Node<V>, left: nat, acc: seq<int>)
    requires WF(n, left)
    ensures StrictlyAscending(KeysOf(Leaves(n, left, acc)))
    decreases left, if n.Level? then |n.entries| + 1 else 0
  {
    if left > 0 && n.Level? {
      LeavesOfSorted(n.entries, left, acc);
    }
  }

  lemma {:induction false} LeavesOfSorted<V>(es: seq<(int, Node<V>)>, left: nat, acc: seq<int>)
    requires left > 0 && WF(Level(es), left)
    ensures StrictlyAscending(KeysOf(LeavesOf(es, left, acc)))
    decreases left, |es|
  {
    if es != [] {
      var k := es[0].0;
      var c := es[0].1;
      var rest := es[1..];
      WFParts(es, left);
      var a := Leaves(c, left - 1, acc + [k]);
      var b := LeavesOf(rest, left, acc);
      LeavesSorted(c, left - 1, acc + [k]);
      LeavesOfSorted(rest, left, acc);
      forall i, j | 0 <= i < |a| && 0 <= j < |b| ensures LexLess(KeysOf(a)[i], KeysOf(b)[j]) {
        FirstChildFirst(es, left, acc, a[i], b[j]);
      }
      ConcatAscending(KeysOf(a), KeysOf(b));
      assert KeysOf(a + b) == KeysOf(a) + KeysOf(b);
    }
  }

  /** A tuple collected under the first child precedes every tuple
      collected under the later children. */
  lemma FirstChildFirst<V>(es: seq<(int, Node<V>)>, left: nat, acc: seq<int>, x: (seq<int>, V), y: (seq<int>, V))
    requires left > 0 && WF(Level(es), left) && es != []
    requires x in Leaves(es[0].1, left - 1, acc + [es[0].0])
    requires y in LeavesOf(es[1..], left, acc)
    ensures LexLess(x.0, y.0)
  {
    WFParts(es, left);
    LeafSound(es[0].1, left - 1, acc + [es[0].0], x);
    LeavesOfSound(es[1..], left, acc);
    AscendingHead(es);
    assert x.0[..|acc|] == acc == y.0[..|acc|];
    assert x.0[|acc|] == es[0].0 < y.0[|acc|];
  }

  /** The (key tuple, value) pairs `values(..., subKeys...)` appends:
      the collection run on the node `traverse` reaches through `prefix`
      in a tree of depth `d`, seeded with `prefix`. */
  function Below<V>(n: Node<V>, d: nat, prefix: seq<int>, dflt: V): seq<(seq<int>, V)>
    requires |prefix| <= d
  {
    Leaves(Reached(n, d, prefix, dflt), d - |prefix|, prefix)
  }

  /** A pair collected below the node reached through `prefix` is stored,
      under its full tuple, in the tree after the descent. */
  lemma BelowSound<V>(n: Node<V>, d: nat, prefix: seq<int>, dflt: V, x: (seq<int>, V))
    requires WF(n, d) && |prefix| <= d && x in Below(n, d, prefix, dflt)
    ensures |x.0| == d && prefix <= x.0
    ensures Stored(Traverse(n, d, prefix, dflt, Keep), x.0) == Some(x.1)
  {
    var r := Reached(n, d, prefix, dflt);
    ReachedWF(n, d, prefix, dflt);
    LeafSound(r, d - |prefix|, prefix, x);
    TraverseKeepBelowAt(n, d, prefix, dflt, x.0);
  }

  /** A tuple extending `prefix` with a value in the tree after the
      descent is collected below the node reached through `prefix`. */
  lemma BelowComplete<V>(n: Node<V>, d: nat, prefix: seq<int>, dflt: V, p: seq<int>)
    requires WF(n, d) && |prefix| <= d
    requires prefix <= p && Stored(Traverse(n, d, prefix, dflt, Keep), p).Some?
    ensures p in KeysOf(Below(n, d, prefix, dflt))
  {
    var r := Reached(n, d, prefix, dflt);
    var l := Leaves(r, d - |prefix|, prefix);
    ReachedWF(n, d, prefix, dflt);
    TraverseKeepBelowAt(n, d, prefix, dflt, p);
    var q := p[|prefix|..];
    assert prefix + q == p;
    LeafComplete(r, d - |prefix|, prefix, q);
    var i :| 0 <= i < |l| && l[i] == (p, Stored(r, q).value);
    assert KeysOf(l)[i] == p;
  }

  /** The pairs collected below the node reached through `prefix` come in
      strictly ascending key order. */
  lemma BelowSorted<V>(n: Node<V>, d: nat, prefix: seq<int>, dflt: V)
    requires WF(n, d) && |prefix| <= d
    ensures StrictlyAscending(KeysOf(Below(n, d, prefix, dflt)))
  {
    var r := Reached(n, d, prefix, dflt);
    ReachedWF(n, d, prefix, dflt);
    LeavesSorted(r, d - |prefix|, prefix);
  }

  /** Descending through `prefix` with `operator[]` leaves what is
      collected below it as it was. */
  lemma CollectAfterTraverse<V>(n: Node<V>, d: nat, keys: seq<int>, dflt: V)
    requires |keys| <= d
    ensures Below(Traverse(n, d, keys, dflt, Keep), d, keys, dflt) == Below(n, d, keys, dflt)
  {
    ReachedAfterTraverse(n, d, keys, dflt);
  }
}
