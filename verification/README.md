# MultiKeyMap and ChainIterator in Dafny

This project models the two components of a small C++ header library.

**`MultiKeyMap<K1, ..., Kn-1, V>`** is a map indexed by a fixed-length tuple
of keys. It is built as a cascade of `std::map`s, `map<K1, map<K2, ... map<Kn-1, V>>>`.
Beside element access (`operator()`, `at`), membership (`test`) and removal
(`erase`), it answers subtree queries (`values`) over a key prefix. A subtree
query lists every value below the prefix with its key tuple, in lexicographic
key order. `begin`/`end`/`find` wrap such a query's result in an iterator over
a detached snapshot.

**`ChainIterator`** is a forward iterator that runs through several ranges one
after the other. Each range contributes a section with its own `(begin, end)`
iterator pair. The chain reads and advances the current section's `begin`, and
moves on to the next section when that one runs out.

Modules:

- `Wrappers` (`wrappers.dfy`): `Option`.
- `Levels` (`levels.dfy`): one `std::map<int, N>` level, as a strictly ascending association list. It covers `find`, `operator[]`, insertion and `erase`.
- `MapOfMaps` (`map_of_maps.dfy`): the nested node type `Node<V> = Leaf(value) | Level(entries)`.
  - `WF(n, d)`: well-formedness with exactly `d` key levels.
  - `Stored(n, path)`: the abstract meaning of a node, i.e. the value stored under a key path.
  - `Reached` and `Traverse`: the `operator[]` descent `detail::traverse`. `Reached` is the node the returned reference points at. `Traverse` is the root afterwards, with an optional action on that reference: keep it, assign through it, or erase one key of it.
- `Collector` (`subtree_values.dfy`): `detail::SubTreeValues`.
  - `Leaves` is the reference enumeration.
  - The method `SubTreeValues` is the collecting loop, proved to append exactly that enumeration.
  - Further lemmas prove the enumeration sound, complete and lexicographically ordered.
- `MultiKey` (`multikeymap.dfy`): the container: `operator()`, `at`, `test`, `erase`.
- `Queries` (`queries.dfy`): `values`, the snapshot `Iterator`, `begin`, `end` and `find`.
- `Chain` (`chain_iterator.dfy`): `ChainIterator`.
  - Its reference is `Flatten`, the concatenation of the ranges.
  - `Pos` is the position of a chain state in that concatenation.

Every operation that mutates the container takes the container as a value and
returns the new one. A tuple of keys is a `seq<int>`. The container's `V()`,
which `operator[]` inserts at the last level, is the field `zero`.

### Behaviour the model takes from the code

- `at`, `test` and `erase` reach the last-level map through `detail::traverse`, i.e. with `operator[]` (include/multikeymap.hpp:245, 257, 290). They therefore create every missing intermediate level on the way: no level above the last is looked up without insertion. Only the last key is looked up without insertion: by `.at`, `.find` or `.find` then `.erase`. The model's `At`, `Test` and `Erase` return the new container. `At` and `Test` state that no stored value changes (`SameEntries`); `Erase` states that only the tuple's value is removed; all three state that the first n - 2 keys are present afterwards.
- `values` seeds the key accumulator with the prefix (include/multikeymap.hpp:317-319). The key tuples it appends are therefore full tuples that start with the prefix, rather than the keys below the prefix alone.
- `find` on an absent tuple returns `end()` of the whole container, i.e. the end of a snapshot of every value (include/multikeymap.hpp:227). It is not the end of a snapshot of the tuple it was asked about.

## Model

| member | source | states |
|---|---|---|
| Levels.Lookup | include/multikeymap.hpp:258 | `find` on one level: a child is found exactly when its key is in the level's domain, and what is found is an entry stored under that key |
| Levels.Subscript | include/multikeymap.hpp:74 | `map[key]` hands back the stored child when the key is present, otherwise the default-constructed child |
| Levels.Put | include/multikeymap.hpp:74 | storing a child under a key: the key now maps to it, every other key keeps its child, the domain gains exactly that key, and the keys stay strictly ascending |
| Levels.Remove | include/multikeymap.hpp:297 | `erase` on one level: the key is gone, every other key keeps its child, and the order is kept |
| Levels.PutPut | include/multikeymap.hpp:74 | storing twice under one key is storing the second child once |
| MapOfMaps.StoredDepth | include/multikeymap.hpp:19-27 | in the nested map type every value sits under a key path of exactly n - 1 keys |
| MapOfMaps.LastLevelGet | include/multikeymap.hpp:258-261 | looking the last key up in a last-level map yields exactly the value stored under that one-key path |
| MapOfMaps.SubscriptWF | include/multikeymap.hpp:74 | the child `operator[]` returns, found or inserted, is a well-formed map one level shallower |
| MapOfMaps.EraseKeyStored | include/multikeymap.hpp:297 | erasing a key from a map removes exactly the paths through that key and keeps the map well formed |
| MapOfMaps.Reached | include/multikeymap.hpp:74-79 | `detail::at`/`traverse`: the node the returned reference points at, one `operator[]` per key; what it holds is stated by `MapOfMaps.ReachedStored` |
| MapOfMaps.Traverse | include/multikeymap.hpp:74-79 | the root after `traverse`: descending through at least one key of a map leaves that key present in the root level; its effect on every stored value is stated by `MapOfMaps.TraverseStored` |
| MapOfMaps.ReachedStored | include/multikeymap.hpp:76-79 | the reference `traverse` returns denotes a map holding exactly the values stored under the traversed keys, or, after all n - 1 keys, the stored value or the inserted `V()` |
| MapOfMaps.ReachedBelow | include/multikeymap.hpp:76-79 | above the last level, the node `traverse` reaches holds exactly the values stored under the traversed keys |
| MapOfMaps.ReachedLeaf | include/multikeymap.hpp:76-79 | through all n - 1 keys, `traverse` reaches the stored value, or the `V()` it inserts when none is stored |
| MapOfMaps.TraverseWF | include/multikeymap.hpp:74-79 | `traverse` never fails, keeps the nesting well formed, and afterwards every traversed key is present along the path |
| MapOfMaps.TraverseStored | include/multikeymap.hpp:74-79 | after `traverse` and an action on the returned reference, paths off the traversed prefix keep their values and paths through it read the acted-on node |
| MapOfMaps.TraverseKeepStored | include/multikeymap.hpp:74-79 | a descent through fewer than n - 1 keys changes no stored value, though it may insert empty levels |
| MapOfMaps.TraverseKeepBelow | include/multikeymap.hpp:74-79 | after a descent, the values under the traversed prefix are those of the node the reference denotes |
| MapOfMaps.TraverseKeepLeaf | include/multikeymap.hpp:74-79 | a descent through all n - 1 keys inserts `V()` under that tuple when it was absent and changes nothing else |
| MapOfMaps.TraverseEraseStored | include/multikeymap.hpp:290-297 | erasing the last key in the map reached through the first n - 2 keys removes exactly that one tuple's value |
| MapOfMaps.ReachedAfterTraverse | include/multikeymap.hpp:76-79 | traversing the same keys again reaches the same node |
| MapOfMaps.TraverseIdempotent | include/multikeymap.hpp:76-79 | a second `traverse` through the same keys leaves the nested map as the first left it |
| Collector.SubTreeValues | include/multikeymap.hpp:34-67 | the collecting procedure appends to the values and the keys, in step, exactly the reference enumeration of the subtree, keeping what the vectors held |
| Collector.SubTreeValuesLevel | include/multikeymap.hpp:39-44 | the loop over one level's entries appends, in ascending key order, each child's pairs with the child's key added to the tuple |
| Collector.SubTreeValuesFresh | include/multikeymap.hpp:47-56 | the overload without an accumulated tuple appends the enumeration whose tuples start at the children's keys |
| Collector.LeavesSound | include/multikeymap.hpp:59-67 | every collected pair is a value stored in the subtree, with its full key tuple extending the accumulated one by the remaining number of levels |
| Collector.LeavesComplete | include/multikeymap.hpp:36-45 | every value stored in the subtree is collected with its key tuple |
| Collector.LeavesSorted | include/multikeymap.hpp:39-44 | visiting children in ascending key order lists the key tuples in strictly ascending lexicographic order |
| Collector.BelowSound | include/multikeymap.hpp:311-320 | each pair the subtree query collects is stored, under its full tuple, in the map after the query's descent |
| Collector.BelowComplete | include/multikeymap.hpp:311-320 | each tuple extending the prefix with a value after the descent is among the collected keys |
| Collector.BelowSorted | include/multikeymap.hpp:311-320 | the collected key tuples are strictly ascending |
| Collector.CollectAfterTraverse | include/multikeymap.hpp:318-319 | the descent a query makes before collecting does not change what it collects |
| MultiKey.Empty | include/multikeymap.hpp:104-106 | a default-constructed container stores nothing |
| MultiKey.TraverseDescends | include/multikeymap.hpp:74-79 | `traverse` as a container step keeps every stored value, inserts `V()` only under an absent full tuple, and makes the path present |
| MultiKey.DescendTwice | include/multikeymap.hpp:74-79 | descending twice through the same keys has the effect of descending once |
| MultiKey.Access | include/multikeymap.hpp:186-189 | `operator()` yields the stored value, or inserts and yields `V()` when the tuple is absent |
| MultiKey.Write | include/multikeymap.hpp:186-189 | assigning through `operator()` stores the value under the tuple and leaves every other tuple's value as it was |
| MultiKey.DescendInit | include/multikeymap.hpp:241-245 | the descent `at`, `test` and `erase` make through the first n - 2 keys keeps every value and makes that path present |
| MultiKey.LastLevel | include/multikeymap.hpp:257-261 | the last-level map reached through the first n - 2 keys holds the last key exactly when a value is stored under the tuple |
| MultiKey.At | include/multikeymap.hpp:239-246 | `at` returns the stored value and fails (`None`) exactly when none is stored; it never inserts the last key and changes no value |
| MultiKey.Test | include/multikeymap.hpp:251-262 | `test` is true exactly when a value is stored under the tuple; it changes no value |
| MultiKey.Erase | include/multikeymap.hpp:284-300 | `erase` returns whether a value was stored, removes exactly that one value, keeps every other, and leaves the emptied ancestor levels in place |
| MultiKey.EraseEffect | include/multikeymap.hpp:290-299 | erasing through the reached last-level map, or not when the key is missing, has exactly the effect `erase` promises |
| MultiKey.AtThenWrite | include/multikeymap.hpp:239-246 | on a tuple that holds a value, assigning through the reference `at` returns stores the same values as assigning through `operator()` |
| MultiKey.WriteThenAt | include/multikeymap.hpp:239-246 | after assigning a value through `operator()`, `at` of that tuple returns it and `at` of every other tuple reads what it read before |
| MultiKey.EraseTwice | include/multikeymap.hpp:284-300 | erasing a tuple a second time returns false, and `test` then reports it absent |
| Queries.SubtreeEnumerates | include/multikeymap.hpp:311-320 | the subtree query lists, in step and in strictly ascending order, exactly the values whose key tuple starts with the prefix, as the map stands after the query's descent |
| Queries.SubtreeSorted | include/multikeymap.hpp:39-44 | the subtree query's key tuples are strictly ascending |
| Queries.SubtreeSound | include/multikeymap.hpp:311-320 | every listed pair is a stored value with its full tuple, which starts with the prefix |
| Queries.SubtreeComplete | include/multikeymap.hpp:311-320 | every stored value whose tuple starts with the prefix is listed |
| Queries.Values | include/multikeymap.hpp:311-320 | `values` descends through the prefix with `operator[]`, keeps the vectors' earlier contents, and appends exactly the query's pairs in order, values and keys in step |
| Queries.Appended | include/multikeymap.hpp:64-65 | because results are only `push_back`'d, the vectors' old contents form their front and the appended parts enumerate the query |
| Queries.Begin | include/multikeymap.hpp:165-172 | `begin` makes a fresh snapshot of the query's values in a newly allocated vector and stands at its first position |
| Queries.End | include/multikeymap.hpp:174-181 | `end` makes a fresh snapshot of the query's values in a newly allocated vector of its own and stands one past its last position |
| Queries.Find | include/multikeymap.hpp:223-231 | `find` returns an end position when `test` is false, and otherwise a snapshot holding exactly the one stored value, at its start |
| Queries.Deref | include/multikeymap.hpp:131-134 | `*it` reads the value at the iterator's position in its snapshot; `Queries.ReadsInOrder` states what a walk from the first position reads |
| Queries.Next | include/multikeymap.hpp:136-140 | `++it` moves one position further along the same vector and snapshot |
| Queries.Same | include/multikeymap.hpp:149-152 | `==` holds for iterators of the same vector at the same position; iterators of different vectors are taken to be unequal |
| Queries.Forward | include/multikeymap.hpp:136-140 | `k` increments move `k` positions along the same vector and snapshot |
| Queries.ReadsInOrder | include/multikeymap.hpp:131-152 | from the first position, the `k`-th `++` reads the snapshot's `k`-th value, and the iterator equals the end position of the same vector exactly after every value is read |
| Queries.ReadAll | include/multikeymap.hpp:131-157 | stepping with `++` and reading with `*` from the start until `==` the end position of the same vector reads the snapshot in order |
| Queries.ScanAsWritten | include/multikeymap.hpp:165-181 | `begin(prefix)` and `end(prefix)` return iterators into two different vectors holding the same values, and none of the iterators `++` reaches from the first, up to one past its last value, equals the second |
| Queries.Scan | include/multikeymap.hpp:165-181 | with `begin` and `end` positions of one snapshot, the loop sees exactly the query's values in key order and stops |
| Chain.ToIterators | include/ChainIterator.h:144-150 | each section's iterator pair spans its whole range |
| Chain.Construct | include/ChainIterator.h:18-24 | construction keeps the iterator pairs, starts at section 0, and sets `maxSection` to the number of sections less one, in `std::size_t` |
| Chain.MakeChainIterator | include/ChainIterator.h:152-159 | the chain over the ranges starts at section 0, has `maxSection` the number of ranges less one, and each section spans its range |
| Chain.Begin | include/ChainIterator.h:26-29 | `begin()` is the chain itself, standing where it stands; `Chain.StartValid` states where a fresh chain stands |
| Chain.End | include/ChainIterator.h:31-50 | `end()` is a copy in the last section, whose cursor stands at that section's end; the other sections are untouched |
| Chain.Current | include/ChainIterator.h:115-130 | the callable is invoked exactly when the current section exists, with that section's index and that section's own iterator pair |
| Chain.Dereference | include/ChainIterator.h:102-108 | dereferencing reads the element of the current section's range at that section's `begin` |
| Chain.Increment | include/ChainIterator.h:53-82 | `increment` advances only the current section's cursor, by one; the section index grows by exactly one when that cursor meets its end and the section is not the last, and otherwise stays |
| Chain.Equal | include/ChainIterator.h:84-100 | the comparison as written holds exactly when both chains are in the same section, this chain's current cursor is exhausted, and the other's `begin` stands at that same place |
| Chain.EqualIntended | include/ChainIterator.h:84-100 | the intended comparison holds exactly when both chains are in the same section with the same iterator pair |
| Chain.EqualNotReflexive | include/ChainIterator.h:90-95 | a fresh chain over `{0,1,2,3}`, `{4,5,6,7}` is unequal to itself under the written comparison, though equal under the intended one |
| Chain.EqualAgreesAtEnd | include/ChainIterator.h:84-100 | compared with an `end()`, the written and the intended comparison agree |
| Chain.StartValid | include/ChainIterator.h:152-159 | a freshly made chain stands at position 0 of the concatenation |
| Chain.DereferenceAt | include/ChainIterator.h:102-108 | dereferencing reads the concatenation of the ranges at the chain's position |
| Chain.IncrementStep | include/ChainIterator.h:53-82 | an increment inside the concatenation moves exactly one position along it |
| Chain.AtEnd | include/ChainIterator.h:84-100 | a walked chain compares equal to `end()` exactly when it has passed the whole concatenation |
| Chain.BeginIsNotEnd | test/unit/ChainIteratorTests.cpp:32-37 | for at least one range, every range but the last non-empty, and some element in all, `begin() != end()` |
| Chain.Walk | test/unit/ChainIteratorTests.cpp:49-69 | a range-based `for` over the chain yields the elements of the first range, then the second, and so on |

## Left out

- Boost.Hana type-level machinery (`KeysTpl`, `LastKey`, heterogeneous key tuples, `fold_left`, `concat`, `take_front_c`): every key level has `int` keys, and the number of levels is the container's `depth` with a depth-indexed well-formedness predicate.
- The `values(Value&, KeysTplCt&)` overload and `valuesImpl(Value&, ...)` (include/multikeymap.hpp:212-215, 305-309): they are ill-typed and never instantiated. The variadic `values` with an empty prefix covers the whole-container query.
- `findImpl` (include/multikeymap.hpp:267-278): never called.
- The `Iterator` copy constructor and assignment, which copy nothing (include/multikeymap.hpp:119-125), and the post-increment built on that copy (include/multikeymap.hpp:142-147). `operator!=` is the negation of `Same`. `shared_ptr` ownership of the snapshot is not modelled: a snapshot is a value.
- Queries.Same: iterators of two different vectors, such as `find`'s result and a separately built `end()`, are taken to be unequal. C++ leaves that comparison undefined, and in practice two empty vectors, which hold no buffer, may compare equal. Within one vector `Same` compares positions, as `operator==` does.
- Vector identities: `Begin`, `End` and `Find` take the identity of the vector `make_shared` allocates as a parameter `alloc`; the allocator itself is not modelled.
- `at`'s `std::out_of_range` exception: modelled as the result `None`.
- MultiKey.At: returns a copy of the stored value, not the `Value&` the C++ code returns. Assigning through that reference (`m.at(keys...) = v`) is modelled as `Write` on the container `At` returns; `MultiKey.AtThenWrite` shows this equals `Write` on the original container.
- MultiKey.Test: takes full key tuples only (`|keys| == depth`), the form in which its answer says whether a value is stored under the tuple (include/multikeymap.hpp:251-262). The C++ template also accepts a shorter non-empty tuple: it then descends through all keys but the last and reports whether the last one is present at that level, which stays true after the values below it are erased, because levels are never pruned.
- MultiKey.Erase: takes full key tuples only. With a shorter non-empty tuple the C++ code erases the last key at its level, removing every value whose tuple starts with the given keys.
- Queries.Find: takes full key tuples only. With a shorter non-empty tuple the C++ code returns `begin(keys...)`, the subtree query over that prefix, when the last key is present at its level.
- `ChainIterator`'s `boost::iterator_facade`, `std::ref` and `const_cast` plumbing, and the type-level `FirstRange`. The ranges are `seq<seq<T>>` and iterators are positions in them.
- `ChainIterator` over an empty range other than the last: the constructor does not skip empty sections, and `increment` moves at most one section per step, so dereferencing there is undefined. The walk lemmas require every range but the last to be non-empty (`Walkable`). The single operations are modelled on all states, with the dereferenceable-cursor precondition C++ leaves undefined.
- Queries.Find: in the absent case it states only that the iterator is at the end of its snapshot, not what that whole-container snapshot holds; `Queries.End` states that.
- Queries.Values: states the effect on the map through `Descended`, which covers stored values, the tuple's inserted `V()` and the presence of the prefix path, but not which empty levels the descent creates off that path (it creates none).
- Console output of the example program and the unit-test harness. `Chain.Walk` produces the sequences example/main.cpp prints and test/unit/ChainIteratorTests.cpp checks.

## Findings

| source | as written | input that shows it | evidently intended | confidence | as-written member | corrected member |
|---|---|---|---|---|---|---|
| include/ChainIterator.h:90-95 | `equal` reads both `otherBegin` and `otherEnd` with `at_c<0>`, so it holds only when `begin == other.begin && end == other.begin` | a fresh `makeChainIterator({0,1,2,3}, {4,5,6,7})` compared with itself is unequal | `otherEnd` read with `at_c<1>`: equal when both are in the same section with the same iterator pair | high (not executed); against `end()` the two agree, so loops over the chain are unaffected | Chain.EqualNotReflexive | Chain.EqualIntended |
| include/multikeymap.hpp:165-181 | `begin(keys...)` and `end(keys...)` each build their own `ValueCt` vector, and `operator==` (include/multikeymap.hpp:149-152) compares iterators into them, so `for (it = begin(p); it != end(p); ++it)` compares iterators of two different vectors | a container holding one value, iterated with `begin()`/`end()`: after reading the value, `it` is not equal to `end()` and the loop reads past the snapshot | `begin` and `end` positions of one shared snapshot, so the loop reads the query's values and stops | medium (not executed); the comparison is undefined in C++, and the model takes iterators of different vectors as unequal | Queries.ScanAsWritten | Queries.Scan |
