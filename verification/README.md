# mruby `Hash` extension methods, modelled in Dafny

This project models the Ruby-level extension methods that the `mruby-hash-ext`
gem adds to `Hash` (`mrbgems/mruby-hash-ext/mrblib/hash.rb`). It covers:

- `Hash.[]` in its three forms;
- `merge!`, with and without a resolver block;
- `fetch`, with its fallback tiers;
- `delete_if` and `keep_if`;
- `flatten`, `invert`, `key` and `to_h`.

A Ruby hash is modelled as an insertion-ordered association list
`seq<(K, V)>` whose keys are pairwise distinct. The two primitives the
methods use are:

- `h[k] = v` (`OrderedEntries.Set`): overwrites the pair in place when `k`
  is present, otherwise appends it.
- `h.delete(k)` (`OrderedEntries.Remove`): drops the pair, and does nothing
  when `k` is absent.

The files:

- `entries.dfy`, module `OrderedEntries`: the generic container and the
  specification functions of the extension operations. These are:
  - `FromPairs`, a fold of `Set`;
  - `Merge`;
  - `Filter`;
  - `Invert`.

  Each comes with lemmas about keys, values and order.
- `values.dfy`, module `RubyValues`: the Ruby objects the methods look at
  (`nil`, integers, strings, arrays, and objects answering `to_hash`), the
  exceptions they raise, a `Result` type, and the part of `Array#flatten`
  that `Hash#flatten` relies on.
- `hash.dfy`, module `HashExt`: the `Hash` class.
  - Its field `entries` is updated in place.
  - Its methods follow the loops of `hash.rb` and are proved against the
    specification functions.
  - The module also states `Hash.[]` as the function `Build`, with lemmas
    for each form of argument.
- `examples.dfy`, module `HashExamples`: the examples from the
  documentation comments of `hash.rb`. Each is proved once for arbitrary
  objects of the same shape, then for the objects the documentation uses.

Objects are compared with Dafny's structural equality, which stands in for
Ruby's `==`/`eql?`.

The code and its documentation comments disagree in four places; the model
follows the code:

- `fetch` calls its block with no argument (hash.rb:129), although the
  example at hash.rb:112 passes the key to it.
- A missing key raises `RuntimeError` (hash.rb:133), not the `KeyError`
  named at hash.rb:105 and hash.rb:122. The model calls this error
  `KeyNotFound`.
- The `invert` example at hash.rb:191 prints its result with the keys
  sorted. The code inserts them in the order in which the values first
  occur; `HashExamples.InvertExample` states that order.
- The comment of `to_h` says it converts an instance of a subclass to a
  `Hash` (hash.rb:247-248). The code returns `self` unchanged
  (hash.rb:250-252), and so does `HashExt.Hash.ToH`.

## Model

| member | source | states |
|---|---|---|
| OrderedEntries.Set | mrbgems/mruby-hash-ext/mrblib/hash.rb:48 | `h[k] = v`: afterwards `k` maps to `v`; a present key keeps the key order, an absent key is appended at the end; distinct keys stay distinct |
| OrderedEntries.SetOther | mrbgems/mruby-hash-ext/mrblib/hash.rb:48 | `h[k] = v` leaves the value of every other key unchanged |
| OrderedEntries.SetReplace | mrbgems/mruby-hash-ext/mrblib/hash.rb:48 | `h[k] = v` on a present key replaces that very pair where it stands |
| OrderedEntries.SetAppend | mrbgems/mruby-hash-ext/mrblib/hash.rb:48 | `h[k] = v` on an absent key appends `(k, v)` |
| OrderedEntries.Remove | mrbgems/mruby-hash-ext/mrblib/hash.rb:158 | `h.delete(k)`: nothing changes when `k` is absent; otherwise exactly one pair goes, no pair is invented, and `k` is no longer a key |
| OrderedEntries.RemoveAt | mrbgems/mruby-hash-ext/mrblib/hash.rb:217 | deleting the key of the i-th pair removes exactly that pair and keeps the others in order |
| OrderedEntries.Lookup | mrbgems/mruby-hash-ext/mrblib/hash.rb:136 | `self[key]` finds a value exactly when the key is present, and the pair it names is in the hash |
| OrderedEntries.LookupIsMember | mrbgems/mruby-hash-ext/mrblib/hash.rb:136 | with distinct keys, `k` maps to `v` if and only if `(k, v)` is one of the pairs |
| OrderedEntries.FromPairs | mrbgems/mruby-hash-ext/mrblib/hash.rb:31-33 | filling a new hash pair by pair yields distinct keys |
| OrderedEntries.FromPairsKeys | mrbgems/mruby-hash-ext/mrblib/hash.rb:32 | the keys of the built hash are exactly the keys inserted |
| OrderedEntries.FromPairsLast | mrbgems/mruby-hash-ext/mrblib/hash.rb:32 | a key maps to the value of its last insertion |
| OrderedEntries.FromPairsOrder | mrbgems/mruby-hash-ext/mrblib/hash.rb:32 | the keys of the built hash appear in the order of their first insertion |
| OrderedEntries.FromPairsOrderStep | mrbgems/mruby-hash-ext/mrblib/hash.rb:32 | inserting one more pair keeps every key at the position of its first insertion |
| OrderedEntries.FromPairsIdentity | mrbgems/mruby-hash-ext/mrblib/hash.rb:30-33 | copying pairs with distinct keys pair by pair reproduces them exactly, in the same order |
| OrderedEntries.Resolve | mrbgems/mruby-hash-ext/mrblib/hash.rb:88 | definition: the value `merge!` stores for a key of `other`: `block(k, self[k], other[k])` when a block is given and the key is present, otherwise `other[k]` |
| OrderedEntries.Merge | mrbgems/mruby-hash-ext/mrblib/hash.rb:86-91 | merging keeps the keys of the receiver distinct |
| OrderedEntries.MergeKeys | mrbgems/mruby-hash-ext/mrblib/hash.rb:87-91 | after `merge!` the receiver's keys keep their positions and the keys new to it follow, in `other`'s order |
| OrderedEntries.MergeKeysStep | mrbgems/mruby-hash-ext/mrblib/hash.rb:87-91 | merging one more pair of `other` keeps the receiver's keys first and the keys new to it after them, in `other`'s order |
| OrderedEntries.SetKeysSplit | mrbgems/mruby-hash-ext/mrblib/hash.rb:88 | `self[k] = ...` on a hash whose keys are the receiver's followed by new ones: a receiver key stays put, any other key goes after the new ones |
| OrderedEntries.MergeLookup | mrbgems/mruby-hash-ext/mrblib/hash.rb:86-91 | a key absent from `other` keeps its value; a key of `other` ends with `other[k]`, or with `block(k, self[k], other[k])` when a block is given and `k` was already present |
| OrderedEntries.Filter | mrbgems/mruby-hash-ext/mrblib/hash.rb:157-158 | the surviving pairs are pairs of the original on which the block answered as required, and there are no more of them than before |
| OrderedEntries.FilterMembers | mrbgems/mruby-hash-ext/mrblib/hash.rb:157-158 | a pair survives if and only if it was in the hash and the block answered as required on it |
| OrderedEntries.FilterStep | mrbgems/mruby-hash-ext/mrblib/hash.rb:157-158 | deleting while walking a snapshot: keeping or deleting the next snapshot pair leaves exactly the filtered prefix followed by the unexamined rest |
| OrderedEntries.FilterConcat | mrbgems/mruby-hash-ext/mrblib/hash.rb:157-158 | filtering works pair by pair, so survivors keep their relative order |
| OrderedEntries.FilterUnique | mrbgems/mruby-hash-ext/mrblib/hash.rb:157-158 | filtering keeps keys distinct |
| OrderedEntries.FilterLookup | mrbgems/mruby-hash-ext/mrblib/hash.rb:215-218 | a surviving key keeps its value unchanged; a rejected or absent key is gone |
| OrderedEntries.Invert | mrbgems/mruby-hash-ext/mrblib/hash.rb:195-197 | the inverse has distinct keys |
| OrderedEntries.InvertKeys | mrbgems/mruby-hash-ext/mrblib/hash.rb:196 | the keys of the inverse are exactly the values of the receiver |
| OrderedEntries.InvertLast | mrbgems/mruby-hash-ext/mrblib/hash.rb:196 | a value maps to the last key that carried it |
| OrderedEntries.InvertOrder | mrbgems/mruby-hash-ext/mrblib/hash.rb:196 | the inverse lists the values in the order of their first occurrence |
| RubyValues.FlattenArray | mrbgems/mruby-hash-ext/mrblib/hash.rb:180 | definition: `Array#flatten(level)` for level >= 0: while levels remain, each array element is replaced by its own elements, flattened one level less; other elements are kept |
| RubyValues.FlattenZero | mrbgems/mruby-hash-ext/mrblib/hash.rb:180 | flattening by level 0 changes nothing |
| RubyValues.FlattenConcat | mrbgems/mruby-hash-ext/mrblib/hash.rb:180 | flattening distributes over concatenation |
| HashExt.AnswersToA | mrbgems/mruby-hash-ext/mrblib/hash.rb:34-37 | definition: `respond_to?(:to_a)` holds for arrays and for objects answering `to_hash` |
| HashExt.Size | mrbgems/mruby-hash-ext/mrblib/hash.rb:39 | definition: `i.size`, the element count of an array or the pair count of a hash |
| HashExt.At | mrbgems/mruby-hash-ext/mrblib/hash.rb:40-44 | definition: `i[n]`, array indexing, or for a hash the value under the integer key `n` (nil when absent) |
| HashExt.ElementPair | mrbgems/mruby-hash-ext/mrblib/hash.rb:37-47 | an element is accepted exactly when it answers `to_a` and has size 1 or 2, and its key is `i[0]`; otherwise the error is "wrong element type" when it does not answer `to_a`, else "invalid number of elements" with its size (the value, `i[1]` or nil, is given by the definition) |
| HashExt.FlatPairs | mrbgems/mruby-hash-ext/mrblib/hash.rb:57-58 | definition: the pairs `object[2i] => object[2i + 1]` of an even-length argument list, in order |
| HashExt.Build | mrbgems/mruby-hash-ext/mrblib/hash.rb:26-61 | `Hash[*object]`: a result has distinct keys, and the only errors are the three ArgumentErrors ("odd number of arguments", "wrong element type", "invalid number of elements"); the definition dispatches in the source's order: one `to_hash` argument, one `to_a` argument, an odd count, the flat pairs |
| HashExt.ElementPairs | mrbgems/mruby-hash-ext/mrblib/hash.rb:36-49 | a successful scan of `Hash[[...]]` yields one pair per element |
| HashExt.ElementPairsOk | mrbgems/mruby-hash-ext/mrblib/hash.rb:36-49 | the scan succeeds if and only if every element is acceptable, and then yields each element's own pair at its position |
| HashExt.BuildFromHashLike | mrbgems/mruby-hash-ext/mrblib/hash.rb:30-33 | `Hash[obj]` with `obj` answering `to_hash` has the same pairs in the same order |
| HashExt.BuildOdd | mrbgems/mruby-hash-ext/mrblib/hash.rb:53-55 | an odd number of arguments, unless it is one convertible argument, raises "odd number of arguments" |
| HashExt.BuildFlatValue | mrbgems/mruby-hash-ext/mrblib/hash.rb:56-59 | with an even count, `object[i]` maps to `object[i + 1]` unless a later even position repeats the key |
| HashExt.FlatKeysMember | mrbgems/mruby-hash-ext/mrblib/hash.rb:57-58 | the keys taken from the flat argument list are exactly the arguments at even positions |
| HashExt.BuildFlatKeys | mrbgems/mruby-hash-ext/mrblib/hash.rb:56-59 | with an even count, the keys of the new hash are exactly the arguments at even positions |
| HashExt.BuildFlatOrder | mrbgems/mruby-hash-ext/mrblib/hash.rb:56-59 | with an even count, each key sits at the position of its first occurrence; a later duplicate keeps that position |
| HashExt.BuildPairArrayOk | mrbgems/mruby-hash-ext/mrblib/hash.rb:36-49 | `Hash[[e1, ...]]` succeeds if and only if every element answers `to_a` and has size 1 or 2 |
| HashExt.BuildPairArrayError | mrbgems/mruby-hash-ext/mrblib/hash.rb:37-46 | `Hash[[e1, ...]]` raises the error of the first bad element: "wrong element type" or "invalid number of elements (size for 1..2)" |
| HashExt.BuildPairArrayValue | mrbgems/mruby-hash-ext/mrblib/hash.rb:39-48 | an element's key maps to `i[1]` (size 2) or `nil` (size 1) unless a later element repeats the key |
| HashExt.BuildPairArrayKeys | mrbgems/mruby-hash-ext/mrblib/hash.rb:36-49 | with acceptable elements, a key is in `Hash[[e1, ...]]` if and only if some element has it as its key |
| HashExt.BuildPairArrayOrder | mrbgems/mruby-hash-ext/mrblib/hash.rb:36-49 | with acceptable elements, each key sits at the position of its first occurrence among the elements; a later element with the same key keeps that position |
| HashExt.Hash.constructor | mrbgems/mruby-hash-ext/mrblib/hash.rb:31 | `Hash.new` is empty |
| HashExt.Hash.HasKey | mrbgems/mruby-hash-ext/mrblib/hash.rb:88 | definition: `has_key?(k)` holds exactly when `k` is one of the keys |
| HashExt.Hash.Get | mrbgems/mruby-hash-ext/mrblib/hash.rb:88 | definition: `self[k]`, the value stored under `k`, or nil when absent |
| HashExt.Hash.Store | mrbgems/mruby-hash-ext/mrblib/hash.rb:48 | `h[k] = v` changes the pairs as `Set` does and keeps keys distinct |
| HashExt.Hash.Delete | mrbgems/mruby-hash-ext/mrblib/hash.rb:158 | `h.delete(k)` changes the pairs as `Remove` does and keeps keys distinct |
| HashExt.Hash.Create | mrbgems/mruby-hash-ext/mrblib/hash.rb:26-61 | `Hash[*object]` returns a new hash (never the argument) with exactly the pairs of `Build`, or raises exactly its error |
| HashExt.Hash.FromHashLike | mrbgems/mruby-hash-ext/mrblib/hash.rb:31-33 | the `to_hash.each` loop fills a new hash with `FromPairs` of the argument's pairs |
| HashExt.Hash.FromPairArray | mrbgems/mruby-hash-ext/mrblib/hash.rb:35-50 | the `to_a.each` loop succeeds exactly when every element is acceptable, and then builds `FromPairs` of the elements' pairs; otherwise it raises the first element's error |
| HashExt.Hash.FromFlatArgs | mrbgems/mruby-hash-ext/mrblib/hash.rb:56-60 | the `0.step` loop builds `FromPairs` of `object[0] => object[1], object[2] => object[3], ...` |
| HashExt.Hash.MergeInPlace | mrbgems/mruby-hash-ext/mrblib/hash.rb:84-94 | `merge!` raises TypeError and changes nothing for a non-hash argument; otherwise it returns `self` with the pairs of `Merge` |
| HashExt.Hash.MergeResolving | mrbgems/mruby-hash-ext/mrblib/hash.rb:86-89 | the `each_key` loop with a block leaves exactly the pairs of `Merge` with that resolver, keys kept distinct |
| HashExt.Hash.MergeOverwriting | mrbgems/mruby-hash-ext/mrblib/hash.rb:90-91 | the `each_key` loop without a block leaves exactly the pairs of `Merge` without a resolver, keys kept distinct |
| HashExt.Hash.Fetch | mrbgems/mruby-hash-ext/mrblib/hash.rb:126-138 | a present key gives its value; otherwise the block's result, else the default, else a "key not found" error; reads and never changes the hash |
| HashExt.Hash.DeleteIf | mrbgems/mruby-hash-ext/mrblib/hash.rb:154-161 | `delete_if` returns `self`, leaving exactly the original pairs on which the block is false, in order |
| HashExt.Hash.KeepIf | mrbgems/mruby-hash-ext/mrblib/hash.rb:211-221 | `keep_if` returns `self`, leaving exactly the original pairs whose `[k, v]` array the block accepts, in order |
| HashExt.Hash.Flatten | mrbgems/mruby-hash-ext/mrblib/hash.rb:179-181 | the level defaults to 1; level 0 gives the `[k, v]` arrays; level 1 gives `[k1, v1, k2, v2, ...]` with nested arrays left as they are |
| HashExt.PairArrays | mrbgems/mruby-hash-ext/mrblib/hash.rb:180 | `to_a`: one `[k, v]` array per pair, as many as there are pairs, in order |
| HashExt.PairBlock | mrbgems/mruby-hash-ext/mrblib/hash.rb:216 | definition: `keep_if` calls its block with the pair as one array `[k, v]` |
| HashExt.FlattenPairs | mrbgems/mruby-hash-ext/mrblib/hash.rb:174-175 | one level of flattening of `to_a` interleaves keys and values, whatever they are |
| HashExt.Hash.Invert | mrbgems/mruby-hash-ext/mrblib/hash.rb:194-198 | `invert` returns a new hash equal to `Invert` of the pairs, and the receiver is not changed |
| HashExt.Hash.Key | mrbgems/mruby-hash-ext/mrblib/hash.rb:236-241 | `key(val)` is nil when no value equals `val`, otherwise the key of the first such pair, whose value is then `val` |
| HashExt.Hash.ToH | mrbgems/mruby-hash-ext/mrblib/hash.rb:250-252 | `to_h` returns the receiver itself |
| HashExamples.BuildTwoFlat | mrbgems/mruby-hash-ext/mrblib/hash.rb:21 | `Hash[a, x, b, y]` builds `{a => x, b => y}` for any two distinct keys |
| HashExamples.ElementPairsTwo | mrbgems/mruby-hash-ext/mrblib/hash.rb:36-49 | scanning `[[a, x], [b, y]]` accepts both elements and yields `(a, x)` then `(b, y)` |
| HashExamples.BuildTwoPairArray | mrbgems/mruby-hash-ext/mrblib/hash.rb:22 | `Hash[[[a, x], [b, y]]]` builds `{a => x, b => y}` for any two distinct keys |
| HashExamples.BuildExamples | mrbgems/mruby-hash-ext/mrblib/hash.rb:21-23 | the documented results of `Hash["a", 100, "b", 200]` and its two other spellings |
| HashExamples.MergeAppendNew | mrbgems/mruby-hash-ext/mrblib/hash.rb:76 | merging one more pair whose key is new appends that pair to the merged hash |
| HashExamples.MergeReplaceAt | mrbgems/mruby-hash-ext/mrblib/hash.rb:76 | merging one more pair whose key sits at position i replaces the pair at i with the resolved value |
| HashExamples.MergeExisting | mrbgems/mruby-hash-ext/mrblib/hash.rb:74-76 | merging `{b=>y2}` into `{a=>x, b=>y}` keeps both keys in place and gives `b` its resolved value |
| HashExamples.MergeOverlapping | mrbgems/mruby-hash-ext/mrblib/hash.rb:74-81 | merging `{b=>y2, c=>z}` into `{a=>x, b=>y}` keeps `b` in place with its resolved value and appends `c` |
| HashExamples.MergeExamples | mrbgems/mruby-hash-ext/mrblib/hash.rb:74-81 | the documented results of `h1.merge!(h2)` with and without the block |
| HashExamples.FromPairsAppendNew | mrbgems/mruby-hash-ext/mrblib/hash.rb:196 | inserting a new key appends it to the hash built so far |
| HashExamples.FromPairsShared | mrbgems/mruby-hash-ext/mrblib/hash.rb:196 | inserting two pairs with the same key leaves one pair with the second value |
| HashExamples.FromPairsThree | mrbgems/mruby-hash-ext/mrblib/hash.rb:196 | a third pair with a new key is appended after the shared key |
| HashExamples.FromPairsFour | mrbgems/mruby-hash-ext/mrblib/hash.rb:196 | a fourth pair with a new key is appended after the third |
| HashExamples.FromPairsFive | mrbgems/mruby-hash-ext/mrblib/hash.rb:196 | inserting five pairs whose first two share a key leaves that key first, with the second value |
| HashExamples.InvertFive | mrbgems/mruby-hash-ext/mrblib/hash.rb:190-191 | inverting five pairs whose first two share a value maps that value to the second key |
| HashExamples.InvertExample | mrbgems/mruby-hash-ext/mrblib/hash.rb:190-191 | the documented result of `h.invert`, in insertion order |
| HashExamples.FlattenPlainPair | mrbgems/mruby-hash-ext/mrblib/hash.rb:175 | flattening a `[k, v]` array of non-arrays gives `k, v` |
| HashExamples.FlattenNestedPair | mrbgems/mruby-hash-ext/mrblib/hash.rb:175-176 | an array value stays nested at level 1 and is spliced at level 2 |
| HashExamples.FlattenThreeOnce | mrbgems/mruby-hash-ext/mrblib/hash.rb:175 | flattening a three-pair hash with one array value by one level interleaves keys and values and keeps that array nested |
| HashExamples.FlattenThreeTwice | mrbgems/mruby-hash-ext/mrblib/hash.rb:176 | flattening the same hash by two levels also splices the array value |
| HashExamples.FlattenExamples | mrbgems/mruby-hash-ext/mrblib/hash.rb:174-176 | the documented results of `a.flatten` and `a.flatten(2)` |
| HashExamples.DeleteLastTwo | mrbgems/mruby-hash-ext/mrblib/hash.rb:150-151 | deleting the two pairs the block accepts leaves the first pair alone |
| HashExamples.DeleteIfExample | mrbgems/mruby-hash-ext/mrblib/hash.rb:150-151 | the documented result of `h.delete_if { \|key, value\| key >= "b" }` |
| HashExamples.KeyFour | mrbgems/mruby-hash-ext/mrblib/hash.rb:236-241 | on `{a=>x, b=>y, c=>z, d=>z}` with distinct keys and values, `key(y)` is `b` and `key(z)` is `c`, the first of the two pairs holding `z` |
| HashExamples.KeyFourMissing | mrbgems/mruby-hash-ext/mrblib/hash.rb:236-241 | on the same hash, a value no pair holds gives `nil` |
| HashExamples.KeyExamples | mrbgems/mruby-hash-ext/mrblib/hash.rb:230-233 | the documented results of `h.key(200)`, `h.key(300)` and `h.key(999)` |
| HashExamples.FetchTwo | mrbgems/mruby-hash-ext/mrblib/hash.rb:126-138 | on `{a=>x, b=>y}`: a present key gives its value; an absent key gives the default, the key-not-found error, the block's value, and the block's value again when both a default and a block are given |
| HashExamples.FetchExamples | mrbgems/mruby-hash-ext/mrblib/hash.rb:109-118 | the documented results of `h.fetch("a")`, `h.fetch("z", "go fish")` and the error of `h.fetch("z")`; the block form `{ \|el\| "go fish, #{el}" }` gives `"go fish, "` because the block is called with no argument |

## Left out

- `delete_if` and `keep_if` without a block return `to_enum(...)`
  (hash.rb:155, hash.rb:212). That lazy enumerator object is not modelled.
- `HashExt.Hash.DeleteIf`, `HashExt.Hash.KeepIf`: the Ruby loops delete
  from the hash they are iterating. The model walks a snapshot of the pairs
  taken at the call, so each original pair is examined exactly once.
- `keep_if` builds an unused local `keys = []` (hash.rb:214). It has no
  effect and is not modelled.
- The `each_pair` and `update` aliases (hash.rb:4, hash.rb:96) are the same
  methods under other names.
- Exception classes are reduced to the constructors of `RubyValues.Error`.
  The messages are kept only as far as they carry data: the offending
  element, the element size, and the missing key.
- `respond_to?(:to_hash)` and `respond_to?(:to_a)` are modelled by the
  shape of the value:
  - objects answering `to_hash` are `HashLike`, given by the pairs their
    `to_hash` yields;
  - `to_a` is answered by arrays and by hash-like objects.

  A `HashLike` element inside `Hash[[...]]` is indexed as a hash, so `i[0]`
  and `i[1]` are its values for the keys `0` and `1`. Whether `nil` answers
  `to_a` depends on other gems; here it does not.
- `HashExt.BuildFromHashLike` assumes the `to_hash` pairs have distinct keys,
  as those of a real hash do. For other pairs, `Build` still applies
  `h[k] = v` to each pair in order.
- `merge!` checks only that `other` answers `to_hash` (hash.rb:85), then
  walks `other.each_key` and reads `other[k]` on `other` itself
  (hash.rb:87-88, hash.rb:91). The model takes the pairs of
  `other.to_hash` in order and uses each pair's own value. This assumes
  that `other`'s `each_key` and `[]` agree with its `to_hash`, which holds
  when `other` is a `Hash`.
- `HashExt.Hash.MergeInPlace`: an object that answers `to_hash` but has no
  `each_key` or `[]` makes the source raise `NoMethodError` at hash.rb:87
  or hash.rb:91. The model merges that object's `to_hash` pairs instead.
  The case where `other` is the receiver itself is not modelled either.
- `HashExt.Hash.Flatten` and `RubyValues.FlattenArray`: `Array#flatten` is
  not part of this model, so only non-negative levels are covered.
  - Each level splices array elements one level deeper.
  - The contract of `HashExt.Hash.Flatten` states levels 0 and 1 for any
    hash. Deeper levels are stated for the documented example.
  - A negative level, which flattens completely, is not modelled.
- Hashing, bucket storage and `eql?` dispatch are replaced by structural
  equality of values.
- Blocks are pure functions. A block that raises, or that re-enters and
  changes the hash while it is being iterated, is not modelled.
- `to_h` on a subclass: the code always returns `self` (hash.rb:250-252), so
  the conversion described in its comment is not modelled.
- `Hash.new` with a default value or default proc is not part of this model.
  `self[k]` of an absent key is `nil`.
