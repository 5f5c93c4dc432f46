/** One level of the nested map: a `std::map<int, N>` modelled as an
    association list whose keys are strictly ascending, the order in
    which a `std::map` iterates. */
module Levels {

  import opened Wrappers

  /** The keys stored at a level. */
  function Domain<N>(es: seq<(int, N)>): set<int> {
    set i | 0 <= i < |es| :: es[i].0
  }

  lemma DomainCons<N>(e: (int, N), es: seq<(int, N)>)
    ensures Domain([e] + es) == {e.0} + Domain(es)
  {
    var s := [e] + es;
    forall k | k in Domain(es) ensures k in Domain(s) {
      var i :| 0 <= i < |es| && es[i].0 == k;
      assert s[i + 1].0 == k;
    }
    assert s[0].0 == e.0;
  }

  /** Keys strictly ascending: the ordering invariant of a `std::map`. */
  predicate Ascending<N>(es: seq<(int, N)>) {
    forall i, j :: 0 <= i < j < |es| ==> es[i].0 < es[j].0
  }

  /** Every key of a strictly ascending level exceeds its first key. */
  lemma AscendingHead<N>(es: seq<(int, N)>)
    requires Ascending(es) && es != []
    ensures forall k :: k in Domain(es[1..]) ==> es[0].0 < k
  {
    forall k | k in Domain(es[1..]) ensures es[0].0 < k {
      var i :| 0 <= i < |es[1..]| && es[1..][i].0 == k;
      assert es[i + 1].0 == k;
    }
  }

  /** A key below every key of an ascending level extends it ascendingly. */
  lemma AscendingCons<N>(e: (int, N), es: seq<(int, N)>)
    requires Ascending(es)
    requires forall k :: k in Domain(es) ==> e.0 < k
    ensures Ascending([e] + es)
  {
    var s := [e] + es;
    forall i, j | 0 <= i < j < |s| ensures s[i].0 < s[j].0 {
      if i == 0 {
        assert s[j].0 == es[j - 1].0;
        assert es[j - 1].0 in Domain(es);
      }
    }
  }

  /** `std::map::find`: the child stored under `k`, if any. */
  function Lookup<N>(es: seq<(int, N)>, k: int): (r: Option<N>)
    ensures r.Some? <==> k in Domain(es)
    ensures r.Some? ==> (k, r.value) in es
  {
    if es == [] then None
    else if es[0].0 == k then Some(es[0].1)
    else
      assert es == [es[0]] + es[1..];
      DomainCons(es[0], es[1..]);
      Lookup(es[1..], k)
  }

  /** The child `operator[]` hands back: the stored one, or `absent`, the
      default-constructed child it inserts when `k` is missing. */
  function Subscript<N>(es: seq<(int, N)>, k: int, absent: N): (c: N)
    ensures Lookup(es, k).Some? ==> Lookup(es, k) == Some(c)
    ensures Lookup(es, k).None? ==> c == absent
  {
    match Lookup(es, k)
    case Some(c) => c
    case None => absent
  }

  /** Store `c` under `k`: replaces the child of a present key, inserts a
      new entry at its ordered position otherwise. */
  function Put<N>(es: seq<(int, N)>, k: int, c: N): (r: seq<(int, N)>)
    ensures Lookup(r, k) == Some(c)
    ensures forall k' :: k' != k ==> Lookup(r, k') == Lookup(es, k')
    ensures Domain(r) == Domain(es) + {k}
    ensures forall e :: e in r ==> e in es || e == (k, c)
    ensures Ascending(es) ==> Ascending(r)
  {
    if es == [] then [(k, c)]
    else
      assert es == [es[0]] + es[1..];
      DomainCons(es[0], es[1..]);
      if es[0].0 == k then
        DomainCons((k, c), es[1..]);
        assert Ascending(es) ==> Ascending([(k, c)] + es[1..]) by {
          if Ascending(es) {
            AscendingHead(es);
            AscendingCons((k, c), es[1..]);
          }
        }
        [(k, c)] + es[1..]
      else if k < es[0].0 then
        DomainCons((k, c), es);
        assert Ascending(es) ==> Ascending([(k, c)] + es) by {
          if Ascending(es) {
            AscendingCons((k, c), es);
          }
        }
        [(k, c)] + es
      else
        var r := Put(es[1..], k, c);
        PutBehind(es[0], es[1..], k, c, r);
        [es[0]] + r
  }

  /** Storing under a key beyond the first one: keeping the first entry
      `e` in front of the result for the rest stores `c` under `k`. */
  lemma PutBehind<N>(e: (int, N), rest: seq<(int, N)>, k: int, c: N, r: seq<(int, N)>)
    requires e.0 < k
    requires Lookup(r, k) == Some(c)
    requires forall k' :: k' != k ==> Lookup(r, k') == Lookup(rest, k')
    requires Domain(r) == Domain(rest) + {k}
    requires forall x :: x in r ==> x in rest || x == (k, c)
    requires Ascending(rest) ==> Ascending(r)
    ensures Lookup([e] + r, k) == Some(c)
    ensures forall k' :: k' != k ==> Lookup([e] + r, k') == Lookup([e] + rest, k')
    ensures Domain([e] + r) == Domain([e] + rest) + {k}
    ensures forall x :: x in [e] + r ==> x in [e] + rest || x == (k, c)
    ensures Ascending([e] + rest) ==> Ascending([e] + r)
  {
    LookupBehind(e, rest, k, c, r);
    DomainCons(e, rest);
    DomainCons(e, r);
    AscendingBehind(e, rest, k, r);
    forall x | x in [e] + r ensures x in [e] + rest || x == (k, c) {
      if x != e {
        assert x in r;
      }
    }
  }

  lemma LookupBehind<N>(e: (int, N), rest: seq<(int, N)>, k: int, c: N, r: seq<(int, N)>)
    requires e.0 != k
    requires Lookup(r, k) == Some(c)
    requires forall k' :: k' != k ==> Lookup(r, k') == Lookup(rest, k')
    ensures Lookup([e] + r, k) == Some(c)
    ensures forall k' :: k' != k ==> Lookup([e] + r, k') == Lookup([e] + rest, k')
  {
    assert ([e] + r)[1..] == r;
    assert ([e] + rest)[1..] == rest;
  }

  lemma AscendingBehind<N>(e: (int, N), rest: seq<(int, N)>, k: int, r: seq<(int, N)>)
    requires e.0 < k
    requires Domain(r) == Domain(rest) + {k}
    requires Ascending(rest) ==> Ascending(r)
    ensures Ascending([e] + rest) ==> Ascending([e] + r)
  {
    if Ascending([e] + rest) {
      AscendingHead([e] + rest);
      assert ([e] + rest)[1..] == rest;
      AscendingCons(e, r);
    }
  }

  /** `std::map::erase(k)`: drop the entry stored under `k`. */
  function Remove<N>(es: seq<(int, N)>, k: int): (r: seq<(int, N)>)
    ensures Lookup(r, k) == None
    ensures forall k' :: k' != k ==> Lookup(r, k') == Lookup(es, k')
    ensures Domain(r) == Domain(es) - {k}
    ensures forall e :: e in r ==> e in es
    ensures Ascending(es) ==> Ascending(r)
  {
    if es == [] then []
    else
      assert es == [es[0]] + es[1..];
      DomainCons(es[0], es[1..]);
      if es[0].0 == k then Remove(es[1..], k)
      else
        var r := Remove(es[1..], k);
        DomainCons(es[0], r);
        assert Ascending(es) ==> Ascending([es[0]] + r) by {
          if Ascending(es) {
            AscendingHead(es);
            AscendingCons(es[0], r);
          }
        }
        [es[0]] + r
  }

  /** Storing under a key twice keeps only the second child. */
  lemma {:induction false} PutPut<N>(es: seq<(int, N)>, k: int, x: N, y: N)
    ensures Put(Put(es, k, x), k, y) == Put(es, k, y)
  {
    if es != [] && es[0].0 != k && !(k < es[0].0) {
      PutPut(es[1..], k, x, y);
      assert Put(es, k, x)[1..] == Put(es[1..], k, x);
    }
  }
}
