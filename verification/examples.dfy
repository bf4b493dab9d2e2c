/** The examples in the documentation comments of hash.rb, replayed on the model.
    Each example is first proved for arbitrary objects of the same shape and
    then instantiated with the objects the documentation uses. */
module HashExamples {
  import opened OrderedEntries
  import opened RubyValues
  import opened HashExt

  /** `Hash[a, x, b, y]` builds `{a=>x, b=>y}`. */
  lemma BuildTwoFlat(a: Value, x: Value, b: Value, y: Value)
    requires a != b
    ensures Build([a, x, b, y]) == Ok([(a, x), (b, y)])
  {
    var args := [a, x, b, y];
    assert Build(args) == Ok(FromPairs(FlatPairs(args))) by {
      assert |args| == 4;
    }
    assert FlatPairs(args) == [(a, x), (b, y)] by {
      assert |FlatPairs(args)| == 2;
    }
    FromPairsIdentity([(a, x), (b, y)]);
  }

  /** Scanning `[[a, x], [b, y]]` yields the pairs `(a, x)` and `(b, y)`. */
  lemma ElementPairsTwo(a: Value, x: Value, b: Value, y: Value)
    ensures ElementPairs([Arr([a, x]), Arr([b, y])]) == Ok([(a, x), (b, y)])
  {
    var es := [Arr([a, x]), Arr([b, y])];
    assert ElementPair(es[0]) == Ok((a, x));
    assert ElementPair(es[1]) == Ok((b, y));
    assert ElementPairs(es[..1]) == Ok([(a, x)]) by {
      assert es[..1][..0] == [];
      assert es[..1][0] == es[0];
      assert [] + [(a, x)] == [(a, x)];
    }
    assert [(a, x)] + [(b, y)] == [(a, x), (b, y)];
  }

  /** `Hash[[[a, x], [b, y]]]` builds `{a=>x, b=>y}`. */
  lemma BuildTwoPairArray(a: Value, x: Value, b: Value, y: Value)
    requires a != b
    ensures Build([Arr([Arr([a, x]), Arr([b, y])])]) == Ok([(a, x), (b, y)])
  {
    var es := [Arr([a, x]), Arr([b, y])];
    ElementPairsTwo(a, x, b, y);
    assert Build([Arr(es)]) == Ok(FromPairs([(a, x), (b, y)]));
    FromPairsIdentity([(a, x), (b, y)]);
  }

  /** The three spellings of `{"a"=>100, "b"=>200}` through `Hash[...]`. */
  lemma BuildExamples()
    ensures Build([Str("a"), Int(100), Str("b"), Int(200)]) == Ok([(Str("a"), Int(100)), (Str("b"), Int(200))])
    ensures Build([Arr([Arr([Str("a"), Int(100)]), Arr([Str("b"), Int(200)])])])
         == Ok([(Str("a"), Int(100)), (Str("b"), Int(200))])
    ensures Build([HashLike([(Str("a"), Int(100)), (Str("b"), Int(200))])])
         == Ok([(Str("a"), Int(100)), (Str("b"), Int(200))])
  {
    BuildTwoFlat(Str("a"), Int(100), Str("b"), Int(200));
    BuildTwoPairArray(Str("a"), Int(100), Str("b"), Int(200));
    BuildFromHashLike([(Str("a"), Int(100)), (Str("b"), Int(200))]);
  }

  /** Merging one more pair whose key is new appends it. */
  lemma MergeAppendNew<K, V>(s: seq<(K, V)>, ps: seq<(K, V)>, r: seq<(K, V)>, p: (K, V),
                             resolve: Option<(K, V, V) -> V>)
    requires Merge(s, ps, resolve) == r && p.0 !in Keys(r)
    ensures Merge(s, ps + [p], resolve) == r + [p]
  {
    assert (ps + [p])[..|ps|] == ps;
    SetAppend(r, p.0, p.1);
  }

  /** Merging one more pair whose key is at position `i` replaces that pair's value where it stands. */
  lemma MergeReplaceAt<K, V>(s: seq<(K, V)>, ps: seq<(K, V)>, r: seq<(K, V)>, i: nat, p: (K, V),
                             resolve: Option<(K, V, V) -> V>)
    requires Merge(s, ps, resolve) == r && KeysUnique(r) && i < |r| && r[i].0 == p.0
    ensures Merge(s, ps + [p], resolve) == r[i := (p.0, Resolve(r, p.0, p.1, resolve))]
  {
    assert (ps + [p])[..|ps|] == ps;
    SetReplace(r, i, Resolve(r, p.0, p.1, resolve));
  }

  /** `{a=>x, b=>y}.merge!({b=>y2})`: `b` keeps its place and takes the resolved value. */
  lemma MergeExisting(a: Value, x: Value, b: Value, y: Value, y2: Value,
                      resolve: Option<(Value, Value, Value) -> Value>)
    requires a != b
    ensures Merge([(a, x), (b, y)], [(b, y2)], resolve)
         == [(a, x), (b, Resolve([(a, x), (b, y)], b, y2, resolve))]
  {
    var h1 := [(a, x), (b, y)];
    MergeReplaceAt(h1, [], h1, 1, (b, y2), resolve);
    assert [] + [(b, y2)] == [(b, y2)];
  }

  /** `{a=>x, b=>y}.merge!({b=>y2, c=>z})`: `b` keeps its place and takes the
      resolved value, `c` is appended. */
  lemma MergeOverlapping(a: Value, x: Value, b: Value, y: Value, y2: Value, c: Value, z: Value,
                         resolve: Option<(Value, Value, Value) -> Value>)
    requires a != b && b != c && a != c
    ensures Merge([(a, x), (b, y)], [(b, y2), (c, z)], resolve)
         == [(a, x), (b, Resolve([(a, x), (b, y)], b, y2, resolve)), (c, z)]
  {
    var t := [(a, x), (b, Resolve([(a, x), (b, y)], b, y2, resolve))];
    MergeExisting(a, x, b, y, y2, resolve);
    assert Keys(t) == [a, b];
    MergeAppendNew([(a, x), (b, y)], [(b, y2)], t, (c, z), resolve);
    assert [(b, y2)] + [(c, z)] == [(b, y2), (c, z)];
  }

  /** `h1.merge!(h2)` and `h1.merge!(h2) { |key, v1, v2| v1 }`. */
  lemma MergeExamples()
    ensures Merge([(Str("a"), Int(100)), (Str("b"), Int(200))],
                  [(Str("b"), Int(254)), (Str("c"), Int(300))], None)
         == [(Str("a"), Int(100)), (Str("b"), Int(254)), (Str("c"), Int(300))]
    ensures Merge([(Str("a"), Int(100)), (Str("b"), Int(200))],
                  [(Str("b"), Int(254)), (Str("c"), Int(300))], Some((key, v1, v2) => v1))
         == [(Str("a"), Int(100)), (Str("b"), Int(200)), (Str("c"), Int(300))]
  {
    var h1 := [(Str("a"), Int(100)), (Str("b"), Int(200))];
    LookupAt(h1, 1);
    MergeOverlapping(Str("a"), Int(100), Str("b"), Int(200), Int(254), Str("c"), Int(300), None);
    MergeOverlapping(Str("a"), Int(100), Str("b"), Int(200), Int(254), Str("c"), Int(300), Some((key, v1, v2) => v1));
  }

  /** Adding a pair with a new key to the pairs a container was built from appends it. */
  lemma FromPairsAppendNew<K, V>(ps: seq<(K, V)>, r: seq<(K, V)>, p: (K, V))
    requires FromPairs(ps) == r && p.0 !in Keys(r)
    ensures FromPairs(ps + [p]) == r + [p]
  {
    assert (ps + [p])[..|ps|] == ps;
    SetAppend(r, p.0, p.1);
  }

  /** Building from two pairs with the same key keeps one pair, with the second value. */
  lemma FromPairsShared<K, V>(k: K, v1: V, v2: V)
    ensures FromPairs([(k, v1), (k, v2)]) == [(k, v2)]
  {
    assert [(k, v1), (k, v2)][..1] == [(k, v1)];
    assert FromPairs([(k, v1)]) == [(k, v1)] by {
      assert [(k, v1)][..0] == [];
    }
    SetReplace([(k, v1)], 0, v2);
  }

  /** `FromPairsShared` followed by a pair with a new key. */
  lemma FromPairsThree<K, V>(k: K, k3: K, v1: V, v2: V, v3: V)
    requires k != k3
    ensures FromPairs([(k, v1), (k, v2), (k3, v3)]) == [(k, v2), (k3, v3)]
  {
    FromPairsShared(k, v1, v2);
    assert Keys([(k, v2)]) == [k];
    FromPairsAppendNew([(k, v1), (k, v2)], [(k, v2)], (k3, v3));
    assert [(k, v1), (k, v2)] + [(k3, v3)] == [(k, v1), (k, v2), (k3, v3)];
  }

  /** `FromPairsThree` followed by a pair with a new key. */
  lemma FromPairsFour<K, V>(k: K, k3: K, k4: K, v1: V, v2: V, v3: V, v4: V)
    requires k != k3 && k != k4 && k3 != k4
    ensures FromPairs([(k, v1), (k, v2), (k3, v3), (k4, v4)]) == [(k, v2), (k3, v3), (k4, v4)]
  {
    FromPairsThree(k, k3, v1, v2, v3);
    assert Keys([(k, v2), (k3, v3)]) == [k, k3];
    FromPairsAppendNew([(k, v1), (k, v2), (k3, v3)], [(k, v2), (k3, v3)], (k4, v4));
    assert [(k, v1), (k, v2), (k3, v3)] + [(k4, v4)] == [(k, v1), (k, v2), (k3, v3), (k4, v4)];
  }

  /** Building from five pairs whose first two share a key: that key keeps its
      first position and takes the second value. */
  lemma FromPairsFive<K, V>(k: K, k3: K, k4: K, k5: K, v1: V, v2: V, v3: V, v4: V, v5: V)
    requires k != k3 && k != k4 && k != k5 && k3 != k4 && k3 != k5 && k4 != k5
    ensures FromPairs([(k, v1), (k, v2), (k3, v3), (k4, v4), (k5, v5)])
         == [(k, v2), (k3, v3), (k4, v4), (k5, v5)]
  {
    FromPairsFour(k, k3, k4, v1, v2, v3, v4);
    assert Keys([(k, v2), (k3, v3), (k4, v4)]) == [k, k3, k4];
    FromPairsAppendNew([(k, v1), (k, v2), (k3, v3), (k4, v4)], [(k, v2), (k3, v3), (k4, v4)], (k5, v5));
    assert [(k, v1), (k, v2), (k3, v3), (k4, v4)] + [(k5, v5)] == [(k, v1), (k, v2), (k3, v3), (k4, v4), (k5, v5)];
  }

  /** Inverting five pairs whose first two share a value: that value keeps its
      first position and takes the second key. */
  lemma InvertFive(k1: Value, k2: Value, k3: Value, k4: Value, k5: Value,
                   v: Value, w3: Value, w4: Value, w5: Value)
    requires v != w3 && v != w4 && v != w5 && w3 != w4 && w3 != w5 && w4 != w5
    ensures Invert([(k1, v), (k2, v), (k3, w3), (k4, w4), (k5, w5)])
         == [(v, k2), (w3, k3), (w4, k4), (w5, k5)]
  {
    assert Swap([(k1, v), (k2, v), (k3, w3), (k4, w4), (k5, w5)])
        == [(v, k1), (v, k2), (w3, k3), (w4, k4), (w5, k5)];
    FromPairsFive(v, w3, w4, w5, k1, k2, k3, k4, k5);
  }

  /** `h.invert` of `{"n"=>100, "m"=>100, "y"=>300, "d"=>200, "a"=>0}`: each value
      maps to its last key; the keys come in the order the values first occur
      (the documentation prints the same hash with its keys sorted). */
  lemma InvertExample()
    ensures Invert([(Str("n"), Int(100)), (Str("m"), Int(100)), (Str("y"), Int(300)),
                    (Str("d"), Int(200)), (Str("a"), Int(0))])
         == [(Int(100), Str("m")), (Int(300), Str("y")), (Int(200), Str("d")), (Int(0), Str("a"))]
  {
    InvertFive(Str("n"), Str("m"), Str("y"), Str("d"), Str("a"), Int(100), Int(300), Int(200), Int(0));
  }

  /** Flattening one pair array whose two elements are not arrays gives those elements. */
  lemma FlattenPlainPair(k: Value, x: Value, level: nat)
    requires !k.Arr? && !x.Arr?
    ensures FlattenArray([Arr([k, x])], level + 1) == [k, x]
  {
    assert FlattenArray([x], level) == [x] by {
      assert [x][1..] == [];
    }
    assert FlattenArray([k, x], level) == [k, x] by {
      assert [k, x][1..] == [x];
    }
    assert [Arr([k, x])][1..] == [];
  }

  /** Flattening the pair array `[k, [e1, e2]]`: one level keeps the inner array, two splice it. */
  lemma FlattenNestedPair(k: Value, e1: Value, e2: Value)
    requires !k.Arr? && !e1.Arr? && !e2.Arr?
    ensures FlattenArray([Arr([k, Arr([e1, e2])])], 1) == [k, Arr([e1, e2])]
    ensures FlattenArray([Arr([k, Arr([e1, e2])])], 2) == [k, e1, e2]
  {
    var two := Arr([e1, e2]);
    FlattenZero([k, two]);
    FlattenPlainPair(e1, e2, 0);
    assert [k, two][1..] == [two];
    assert FlattenArray([k, two], 1) == [k, e1, e2];
    assert [Arr([k, two])][1..] == [];
  }

  /** Flattening `{k1=>x1, k2=>[e1, e2], k3=>x3}` one level deep keeps the inner array. */
  lemma FlattenThreeOnce(k1: Value, x1: Value, k2: Value, e1: Value, e2: Value, k3: Value, x3: Value)
    requires !k1.Arr? && !x1.Arr? && !k2.Arr? && !e1.Arr? && !e2.Arr? && !k3.Arr? && !x3.Arr?
    ensures FlattenArray(PairArrays([(k1, x1), (k2, Arr([e1, e2])), (k3, x3)]), 1)
         == [k1, x1, k2, Arr([e1, e2]), k3, x3]
  {
    var a1, a2, a3 := [Arr([k1, x1])], [Arr([k2, Arr([e1, e2])])], [Arr([k3, x3])];
    assert PairArrays([(k1, x1), (k2, Arr([e1, e2])), (k3, x3)]) == a1 + (a2 + a3);
    FlattenPlainPair(k1, x1, 0);
    FlattenPlainPair(k3, x3, 0);
    FlattenNestedPair(k2, e1, e2);
    FlattenConcat(a1, a2 + a3, 1);
    FlattenConcat(a2, a3, 1);
  }

  /** Flattening `{k1=>x1, k2=>[e1, e2], k3=>x3}` two levels deep splices the inner array. */
  lemma FlattenThreeTwice(k1: Value, x1: Value, k2: Value, e1: Value, e2: Value, k3: Value, x3: Value)
    requires !k1.Arr? && !x1.Arr? && !k2.Arr? && !e1.Arr? && !e2.Arr? && !k3.Arr? && !x3.Arr?
    ensures FlattenArray(PairArrays([(k1, x1), (k2, Arr([e1, e2])), (k3, x3)]), 2)
         == [k1, x1, k2, e1, e2, k3, x3]
  {
    var a1, a2, a3 := [Arr([k1, x1])], [Arr([k2, Arr([e1, e2])])], [Arr([k3, x3])];
    assert PairArrays([(k1, x1), (k2, Arr([e1, e2])), (k3, x3)]) == a1 + (a2 + a3);
    FlattenPlainPair(k1, x1, 1);
    FlattenPlainPair(k3, x3, 1);
    FlattenNestedPair(k2, e1, e2);
    FlattenConcat(a1, a2 + a3, 2);
    FlattenConcat(a2, a3, 2);
  }

  /** `a.flatten` and `a.flatten(2)` of `{1=>"one", 2=>[2, "two"], 3=>"three"}`. */
  lemma FlattenExamples()
    ensures FlattenArray(PairArrays([(Int(1), Str("one")), (Int(2), Arr([Int(2), Str("two")])), (Int(3), Str("three"))]), 1)
         == [Int(1), Str("one"), Int(2), Arr([Int(2), Str("two")]), Int(3), Str("three")]
    ensures FlattenArray(PairArrays([(Int(1), Str("one")), (Int(2), Arr([Int(2), Str("two")])), (Int(3), Str("three"))]), 2)
         == [Int(1), Str("one"), Int(2), Int(2), Str("two"), Int(3), Str("three")]
  {
    FlattenThreeOnce(Int(1), Str("one"), Int(2), Int(2), Str("two"), Int(3), Str("three"));
    FlattenThreeTwice(Int(1), Str("one"), Int(2), Int(2), Str("two"), Int(3), Str("three"));
  }

  /** Deleting, from three pairs, the two on which the block answers true. */
  lemma DeleteLastTwo(p1: (Value, Value), p2: (Value, Value), p3: (Value, Value), block: (Value, Value) -> bool)
    requires !block(p1.0, p1.1) && block(p2.0, p2.1) && block(p3.0, p3.1)
    ensures Filter([p1, p2, p3], block, false) == [p1]
  {
    FilterSnoc([p1, p2], p3, block, false);
    FilterSnoc([p1], p2, block, false);
    FilterSnoc([], p1, block, false);
    assert [p1, p2] + [p3] == [p1, p2, p3];
    assert [p1] + [p2] == [p1, p2];
    assert [] + [p1] == [p1];
  }

  /** `h.delete_if { |key, value| key >= "b" }` on `{"a"=>100, "b"=>200, "c"=>300}`;
      for these keys the condition holds exactly for the keys other than "a". */
  lemma DeleteIfExample()
    ensures Filter([(Str("a"), Int(100)), (Str("b"), Int(200)), (Str("c"), Int(300))],
                   (key, value) => key != Str("a"), false)
         == [(Str("a"), Int(100))]
  {
    DeleteLastTwo((Str("a"), Int(100)), (Str("b"), Int(200)), (Str("c"), Int(300)), (key, value) => key != Str("a"));
  }

  /** A hash literal `{k1=>v1, ...}` with distinct keys: a new hash filled pair by pair. */
  method HashOf(ps: seq<(Value, Value)>) returns (h: Hash)
    requires KeysUnique(ps)
    ensures fresh(h) && h.Valid() && h.entries == ps
  {
    FromPairsIdentity(ps);
    h := Hash.FromHashLike(ps);
  }

  /** `key` on `{a=>x, b=>y, c=>z, d=>z}` built pair by pair with `h[k] = v`: the key of
      the first pair holding the value, also when a later pair holds it too. */
  method KeyFour(a: Value, b: Value, c: Value, d: Value, x: Value, y: Value, z: Value)
    returns (ky: Value, kz: Value)
    requires a != b && a != c && a != d && b != c && b != d && c != d
    requires x != y && x != z && y != z
    ensures ky == b && kz == c
  {
    var h := HashOf([(a, x), (b, y), (c, z), (d, z)]);
    ky := h.Key(y);
    assert ky == b by {
      assert h.entries[0].1 != y && h.entries[1].1 == y;
    }
    kz := h.Key(z);
    assert kz == c by {
      assert h.entries[0].1 != z && h.entries[1].1 != z && h.entries[2].1 == z;
    }
  }

  /** `key` on `{a=>x, b=>y, c=>z, d=>z}` of a value no pair holds is `nil`. */
  method KeyFourMissing(a: Value, b: Value, c: Value, d: Value, x: Value, y: Value, z: Value, w: Value)
    returns (kw: Value)
    requires a != b && a != c && a != d && b != c && b != d && c != d
    requires w != x && w != y && w != z
    ensures kw == Nil
  {
    var h := HashOf([(a, x), (b, y), (c, z), (d, z)]);
    kw := h.Key(w);
  }

  /** `h.key(200)`, `h.key(300)` and `h.key(999)` on
      `{"a"=>100, "b"=>200, "c"=>300, "d"=>300}`. */
  method KeyExamples() returns (k200: Value, k300: Value, k999: Value)
    ensures k200 == Str("b") && k300 == Str("c") && k999 == Nil
  {
    k200, k300 := KeyFour(Str("a"), Str("b"), Str("c"), Str("d"), Int(100), Int(200), Int(300));
    k999 := KeyFourMissing(Str("a"), Str("b"), Str("c"), Str("d"), Int(100), Int(200), Int(300), Int(999));
  }

  /** `fetch` on `{a=>x, b=>y}` built by `h[k] = v`: a present key, then an absent
      key with a default, with nothing, with a block, and with both (the block wins). */
  method FetchTwo(a: Value, b: Value, x: Value, y: Value, z: Value, dflt: Value, blockValue: Value)
    returns (found: Result<Value>, viaDefault: Result<Value>, missing: Result<Value>,
             viaBlock: Result<Value>, both: Result<Value>)
    requires a != b && z != a && z != b
    ensures found == Ok(x) && viaDefault == Ok(dflt) && missing == Err(KeyNotFound(z))
    ensures viaBlock == Ok(blockValue) && both == Ok(blockValue)
  {
    var h := HashOf([(a, x), (b, y)]);
    LookupAt(h.entries, 0);
    assert Keys(h.entries) == [a, b];
    found := h.Fetch(a, None, None);
    viaDefault := h.Fetch(z, Some(dflt), None);
    missing := h.Fetch(z, None, None);
    viaBlock := h.Fetch(z, None, Some(() => blockValue));
    both := h.Fetch(z, Some(dflt), Some(() => blockValue));
  }

  /** `h.fetch("a")`, `h.fetch("z", "go fish")`, `h.fetch("z")`, and the block form
      `h.fetch("z") { |el| "go fish, #{el}" }` on `{"a"=>100, "b"=>200}`. The block is
      called with no argument, so `el` is `nil` and interpolates as the empty string. */
  method FetchExamples() returns (a: Result<Value>, z: Result<Value>, missing: Result<Value>,
                                  blockOnly: Result<Value>, both: Result<Value>)
    ensures a == Ok(Int(100)) && z == Ok(Str("go fish")) && missing == Err(KeyNotFound(Str("z")))
    ensures blockOnly == Ok(Str("go fish, ")) && both == Ok(Str("go fish, "))
  {
    a, z, missing, blockOnly, both :=
      FetchTwo(Str("a"), Str("b"), Int(100), Int(200), Str("z"), Str("go fish"), Str("go fish, "));
  }
}
