/** `ChainIterator`: one forward iterator over several ranges in turn.
    Each range contributes a section holding a `(begin, end)` pair of
    its own iterators; the chain dereferences and advances the current
    section's `begin` and moves on to the next section when it runs out. */
module Chain {

  import opened Wrappers

  /** A section's pair of iterators, as positions in its range. */
  datatype Cursor = Cursor(begin: nat, end: nat)

  /** The chain: the ranges it reads (which outlive it), one cursor per
      range, the current section and the index of the last one. */
  datatype ChainIterator<T> = ChainIterator(ranges: seq<seq<T>>, cursors: seq<Cursor>, section: nat, maxSection: nat)

  /** The largest `std::size_t` on a 64-bit target, which decrementing a
      zero size wraps to. */
  const SizeMax: nat := 0xFFFF_FFFF_FFFF_FFFF

  /** The ranges read one after the other: what the chain stands for. */
  function Flatten<T>(rs: seq<seq<T>>): seq<T>
    decreases |rs|
  {
    if rs == [] then [] else Flatten(rs[..|rs| - 1]) + rs[|rs| - 1]
  }

  /** `toIterators(ranges...)`: each range's `(begin(), end())`. */
  function ToIterators<T>(ranges: seq<seq<T>>): (cs: seq<Cursor>)
    ensures |cs| == |ranges|
    ensures forall i :: 0 <= i < |cs| ==> cs[i].begin <= cs[i].end == |ranges[i]|
    ensures forall i :: 0 <= i < |cs| ==> ranges[i][cs[i].begin..cs[i].end] == ranges[i]
  {
    seq(|ranges|, i requires 0 <= i < |ranges| => Cursor(0, |ranges[i]|))
  }

  /** The constructor: section 0, and `maxSection` the tuple's size less
      one, computed in `std::size_t`. */
  function Construct<T>(ranges: seq<seq<T>>, tpl: seq<Cursor>): (it: ChainIterator<T>)
    ensures it.ranges == ranges && it.cursors == tpl && it.section == 0
    ensures |tpl| > 0 ==> it.maxSection + 1 == |tpl|
    ensures |tpl| == 0 ==> it.maxSection == SizeMax
  {
    ChainIterator(ranges, tpl, 0, if |tpl| == 0 then SizeMax else |tpl| - 1)
  }

  /** `makeChainIterator(ranges...)`; the C++ code names the value type
      after the first range, so there is at least one. */
  function MakeChainIterator<T>(ranges: seq<seq<T>>): (it: ChainIterator<T>)
    requires |ranges| > 0
    ensures it.ranges == ranges && it.section == 0 && it.maxSection == |ranges| - 1
    ensures |it.cursors| == |ranges|
    ensures forall i :: 0 <= i < |ranges| ==>
              it.cursors[i].begin <= it.cursors[i].end <= |ranges[i]| &&
              ranges[i][it.cursors[i].begin..it.cursors[i].end] == ranges[i]
  {
    Construct(ranges, ToIterators(ranges))
  }

  /** `begin()`: the iterator itself. */
  function Begin<T>(it: ChainIterator<T>): ChainIterator<T> {
    it
  }

  /** `end()`: a copy whose section is the last one and whose last cursor
      is moved to that section's end; other sections are left as they
      are. The C++ loop stops counting sections once it meets the last
      one, so it would also move any cursor after it; there is none, as
      `maxSection` is always the index of the last section. */
  function End<T>(it: ChainIterator<T>): (e: ChainIterator<T>)
    ensures e.ranges == it.ranges && e.maxSection == it.maxSection && e.section == it.maxSection
    ensures |e.cursors| == |it.cursors|
    ensures forall i :: 0 <= i < |it.cursors| && i != it.maxSection ==> e.cursors[i] == it.cursors[i]
    ensures it.maxSection < |it.cursors| ==>
              e.cursors[it.maxSection].begin == e.cursors[it.maxSection].end == it.cursors[it.maxSection].end
  {
    var last := it.maxSection;
    if last < |it.cursors| then
      var c := it.cursors[last];
      it.(section := last, cursors := it.cursors[last := Cursor(c.end, c.end)])
    else
      it.(section := last)
  }

  /** `callOnCurrentIterator`: the section index and the cursor the
      callable is invoked with, if any section is current. */
  function Current<T>(it: ChainIterator<T>): (r: Option<(nat, Cursor)>)
    ensures r.Some? <==> it.section < |it.cursors|
    ensures r.Some? ==> r.value == (it.section, it.cursors[it.section])
  {
    if it.section < |it.cursors| then Some((it.section, it.cursors[it.section])) else None
  }

  /** Whether the current cursor can be dereferenced and advanced. */
  ghost predicate Readable<T>(it: ChainIterator<T>) {
    && it.section < |it.cursors|
    && it.section < |it.ranges|
    && it.cursors[it.section].begin < it.cursors[it.section].end <= |it.ranges[it.section]|
  }

  /** `dereference()`: the element under the current section's cursor. */
  function Dereference<T>(it: ChainIterator<T>): (x: T)
    requires Readable(it)
    ensures x in it.ranges[it.section]
    ensures x == it.ranges[it.section][it.cursors[it.section].begin]
  {
    var c := Current(it).value.1;
    it.ranges[it.section][c.begin]
  }

  /** `increment()`: advances the current section's cursor; when it then
      meets its end and the section is not the last, the next section
      becomes current. */
  function Increment<T>(it: ChainIterator<T>): (n: ChainIterator<T>)
    requires Readable(it)
    ensures n.ranges == it.ranges && n.maxSection == it.maxSection && |n.cursors| == |it.cursors|
    ensures n.cursors[it.section] == Cursor(it.cursors[it.section].begin + 1, it.cursors[it.section].end)
    ensures forall i :: 0 <= i < |it.cursors| && i != it.section ==> n.cursors[i] == it.cursors[i]
    ensures n.section == it.section + 1 <==>
              it.section != it.maxSection && n.cursors[it.section].begin == n.cursors[it.section].end
    ensures n.section == it.section || n.section == it.section + 1
  {
    var s := it.section;
    var c := it.cursors[s];
    var c' := Cursor(c.begin + 1, c.end);
    var incrementSection := !(s == it.maxSection && c'.begin == c'.end) && c'.begin == c'.end;
    it.(cursors := it.cursors[s := c'], section := if incrementSection then s + 1 else s)
  }

  /** `equal(other)` as written: both `otherBegin` and `otherEnd` read the
      other cursor's `begin`, so two chains are equal only where this one's
      current cursor is exhausted. */
  function Equal<T>(it: ChainIterator<T>, other: ChainIterator<T>): (r: bool)
    requires |it.cursors| == |other.cursors|
    ensures r ==> it.section == other.section < |it.cursors|
    ensures r ==> it.cursors[it.section].begin == it.cursors[it.section].end == other.cursors[it.section].begin
    ensures (&& it.section == other.section < |it.cursors|
             && it.cursors[it.section].begin == it.cursors[it.section].end == other.cursors[it.section].begin) ==> r
  {
    match Current(it)
    case None => false
    case Some((i, c)) =>
      if other.section == i then
        var otherBegin := other.cursors[i].begin;
        var otherEnd := other.cursors[i].begin;
        c.begin == otherBegin && c.end == otherEnd
      else false
  }

  /** `equal(other)` as evidently intended: same section, same cursor. */
  function EqualIntended<T>(it: ChainIterator<T>, other: ChainIterator<T>): (r: bool)
    requires |it.cursors| == |other.cursors|
    ensures r <==> it.section == other.section < |it.cursors| && it.cursors[it.section] == other.cursors[it.section]
  {
    match Current(it)
    case None => false
    case Some((i, c)) =>
      if other.section == i then
        c.begin == other.cursors[i].begin && c.end == other.cursors[i].end
      else false
  }

  /** Where the corrected comparison is reflexive, the written one is not:
      a chain over `{0, 1, 2, 3}` and `{4, 5, 6, 7}` differs from itself. */
  lemma EqualNotReflexive()
    ensures var it := MakeChainIterator([[0, 1, 2, 3], [4, 5, 6, 7]]);
            !Equal(it, it) && EqualIntended(it, it)
  {
    var it := MakeChainIterator([[0, 1, 2, 3], [4, 5, 6, 7]]);
    assert it.cursors[0] == Cursor(0, 4);
  }

  /** Against `end()`, the written comparison and the corrected one agree,
      which is the only comparison a loop over the chain makes. */
  lemma EqualAgreesAtEnd<T>(it: ChainIterator<T>, other: ChainIterator<T>)
    requires |it.cursors| == |other.cursors|
    ensures Equal(it, End(other)) == EqualIntended(it, End(other))
  {
    var e := End(other);
    if it.section == e.section < |it.cursors| {
      var s := it.section;
      assert s == other.maxSection;
      assert e.cursors[s].begin == e.cursors[s].end;
    }
  }

  /**********************************************************************
   * The chain walks the concatenation of its ranges
   **********************************************************************/

  /** The C++ code does not skip empty sections and moves at most one
      section per step: every range but the last must be non-empty. */
  ghost predicate Walkable<T>(ranges: seq<seq<T>>) {
    && |ranges| > 0
    && forall i :: 0 <= i < |ranges| - 1 ==> |ranges[i]| > 0
  }

  /** The states a walk from `makeChainIterator` passes through: earlier
      sections exhausted, later ones untouched, and the current cursor
      readable unless it is in the last section. */
  ghost predicate Valid<T>(it: ChainIterator<T>) {
    && Walkable(it.ranges)
    && |it.cursors| == |it.ranges|
    && it.maxSection == |it.ranges| - 1
    && it.section <= it.maxSection
    && (forall i :: 0 <= i < |it.cursors| ==> it.cursors[i].begin <= it.cursors[i].end == |it.ranges[i]|)
    && (forall i :: 0 <= i < it.section ==> it.cursors[i].begin == it.cursors[i].end)
    && (forall i :: it.section < i < |it.cursors| ==> it.cursors[i].begin == 0)
    && (it.section < it.maxSection ==> it.cursors[it.section].begin < it.cursors[it.section].end)
  }

  /** The position of a valid chain in the concatenation. */
  ghost function Pos<T>(it: ChainIterator<T>): nat
    requires Valid(it)
  {
    |Flatten(it.ranges[..it.section])| + it.cursors[it.section].begin
  }

  lemma {:induction false} FlattenAppend<T>(a: seq<seq<T>>, b: seq<seq<T>>)
    ensures Flatten(a + b) == Flatten(a) + Flatten(b)
    decreases |b|
  {
    if b == [] {
      assert a + b == a;
    } else {
      var b' := b[..|b| - 1];
      assert (a + b)[..|a + b| - 1] == a + b';
      assert (a + b)[|a + b| - 1] == b[|b| - 1];
      FlattenAppend(a, b');
      assert Flatten(a + b) == Flatten(a + b') + b[|b| - 1];
      assert Flatten(b) == Flatten(b') + b[|b| - 1];
    }
  }

  /** The first `s + 1` ranges read as the first `s`, then range `s`. */
  lemma FlattenSnoc<T>(rs: seq<seq<T>>, s: nat)
    requires s < |rs|
    ensures Flatten(rs[..s + 1]) == Flatten(rs[..s]) + rs[s]
  {
    assert rs[..s + 1][..s] == rs[..s];
  }

  /** The concatenation splits around section `s`. */
  lemma FlattenAround<T>(rs: seq<seq<T>>, s: nat)
    requires s < |rs|
    ensures Flatten(rs[..s + 1]) == Flatten(rs[..s]) + rs[s]
    ensures Flatten(rs) == Flatten(rs[..s]) + rs[s] + Flatten(rs[s + 1..])
  {
    FlattenSnoc(rs, s);
    assert Flatten(rs) == Flatten(rs[..s + 1]) + Flatten(rs[s + 1..]) by {
      assert rs == rs[..s + 1] + rs[s + 1..];
      FlattenAppend(rs[..s + 1], rs[s + 1..]);
    }
  }

  /** A valid chain that is not in the last section, or not at its end,
      sits strictly inside the concatenation. */
  lemma PosInside<T>(it: ChainIterator<T>)
    requires Valid(it)
    ensures Pos(it) <= |Flatten(it.ranges)|
    ensures Pos(it) == |Flatten(it.ranges)| <==>
              it.section == it.maxSection && it.cursors[it.section].begin == it.cursors[it.section].end
  {
    var rs, s := it.ranges, it.section;
    FlattenAround(rs, s);
    if s < it.maxSection {
      assert |Flatten(rs[s + 1..])| >= 0;
    } else {
      assert rs[s + 1..] == [];
    }
  }

  /** `*it` reads the concatenation at the chain's position. */
  lemma DereferenceAt<T>(it: ChainIterator<T>)
    requires Valid(it) && Pos(it) < |Flatten(it.ranges)|
    ensures Readable(it)
    ensures Dereference(it) == Flatten(it.ranges)[Pos(it)]
  {
    PosInside(it);
    FlattenAround(it.ranges, it.section);
  }

  /** `++it` moves one step along the concatenation and keeps the chain
      valid. */
  lemma IncrementStep<T>(it: ChainIterator<T>)
    requires Valid(it) && Pos(it) < |Flatten(it.ranges)|
    ensures Readable(it)
    ensures Valid(Increment(it)) && Pos(Increment(it)) == Pos(it) + 1
  {
    DereferenceAt(it);
    if Increment(it).section == it.section {
      IncrementWithin(it);
    } else {
      IncrementAcross(it);
    }
  }

  /** An increment that stays in its section. */
  lemma IncrementWithin<T>(it: ChainIterator<T>)
    requires Valid(it) && Readable(it) && Increment(it).section == it.section
    ensures Valid(Increment(it)) && Pos(Increment(it)) == Pos(it) + 1
  {
    assert Increment(it).ranges[..it.section] == it.ranges[..it.section];
  }

  /** An increment that exhausts its section and moves to the next. */
  lemma IncrementAcross<T>(it: ChainIterator<T>)
    requires Valid(it) && Readable(it) && Increment(it).section == it.section + 1
    ensures Valid(Increment(it)) && Pos(Increment(it)) == Pos(it) + 1
  {
    var n := Increment(it);
    var s := it.section;
    FlattenSnoc(it.ranges, s);
    assert n.cursors[s + 1].begin == 0;
  }

  /** A walk starts valid, at position 0. */
  lemma StartValid<T>(ranges: seq<seq<T>>)
    requires Walkable(ranges)
    ensures Valid(MakeChainIterator(ranges)) && Pos(MakeChainIterator(ranges)) == 0
  {
    var it := MakeChainIterator(ranges);
    assert ranges[..0] == [];
    forall i | 0 <= i < |ranges|
      ensures it.cursors[i].begin == 0 && it.cursors[i].end == |ranges[i]|
    {
      assert |ranges[i][it.cursors[i].begin..it.cursors[i].end]| == |ranges[i]|;
    }
  }

  /** Comparing a valid chain with `end()` of the chain it was started
      from tells exactly whether the walk has used up the concatenation. */
  lemma AtEnd<T>(it: ChainIterator<T>)
    requires Valid(it)
    ensures EqualIntended(it, End(MakeChainIterator(it.ranges))) <==> Pos(it) == |Flatten(it.ranges)|
    ensures Equal(it, End(MakeChainIterator(it.ranges))) <==> Pos(it) == |Flatten(it.ranges)|
  {
    var start := MakeChainIterator(it.ranges);
    StartValid(it.ranges);
    PosInside(it);
    EqualAgreesAtEnd(it, start);
  }

  /** For ranges that are not all empty, `begin() != end()`. */
  lemma BeginIsNotEnd<T>(ranges: seq<seq<T>>)
    requires Walkable(ranges) && |Flatten(ranges)| > 0
    ensures !Equal(Begin(MakeChainIterator(ranges)), End(MakeChainIterator(ranges)))
  {
    StartValid(ranges);
    AtEnd(MakeChainIterator(ranges));
  }

  /** One turn of the loop below: read `*it`, then `++it`. */
  lemma WalkStep<T>(it: ChainIterator<T>, out: seq<T>)
    requires Valid(it) && Pos(it) < |Flatten(it.ranges)| && out == Flatten(it.ranges)[..Pos(it)]
    ensures Readable(it) && Valid(Increment(it))
    ensures Pos(Increment(it)) <= |Flatten(it.ranges)|
    ensures out + [Dereference(it)] == Flatten(it.ranges)[..Pos(Increment(it))]
  {
    DereferenceAt(it);
    IncrementStep(it);
    assert Flatten(it.ranges)[..Pos(it) + 1] == Flatten(it.ranges)[..Pos(it)] + [Flatten(it.ranges)[Pos(it)]];
  }

  /** A range-based `for` over the chain: from `begin()`, read `*it` and
      step with `++it` until `it == end()`. It yields the ranges'
      elements, in order, one after the other. */
  method Walk<T>(ranges: seq<seq<T>>) returns (out: seq<T>)
    requires Walkable(ranges)
    ensures out == Flatten(ranges)
  {
    var chain := MakeChainIterator(ranges);
    var last := End(chain);
    var it := Begin(chain);
    StartValid(ranges);
    out := [];
    while !Equal(it, last)
      invariant Valid(it) && it.ranges == ranges
      invariant Pos(it) <= |Flatten(ranges)|
      invariant out == Flatten(ranges)[..Pos(it)]
      decreases |Flatten(ranges)| - Pos(it)
    {
      AtEnd(it);
      WalkStep(it, out);
      out := out + [Dereference(it)];
      it := Increment(it);
    }
    AtEnd(it);
    assert out == Flatten(ranges)[..|Flatten(ranges)|];
  }
}
