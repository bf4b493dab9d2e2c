/** The base container that the Hash extension methods are written against:
    an insertion-ordered association list with pairwise distinct keys.
    `Set` is `h[k] = v` (overwrite in place, or append), `Remove` is
    `h.delete(k)` (no-op when absent), `Lookup` is `h[k]` seen as an option.
    The rest of the module gives the specification functions of the extension
    operations (folds of `Set`, filtering, inversion) and their lemmas. */
module OrderedEntries {

  datatype Option<+T> = None | Some(value: T)

  /** The keys of an association list, in iteration order. */
  function Keys<K, V>(s: seq<(K, V)>): (ks: seq<K>)
    ensures |ks| == |s|
    ensures forall i :: 0 <= i < |s| ==> ks[i] == s[i].0
  {
    seq(|s|, i requires 0 <= i < |s| => s[i].0)
  }

  /** The values of an association list, in iteration order. */
  function Values<K, V>(s: seq<(K, V)>): (vs: seq<V>)
    ensures |vs| == |s|
    ensures forall i :: 0 <= i < |s| ==> vs[i] == s[i].1
  {
    seq(|s|, i requires 0 <= i < |s| => s[i].1)
  }

  /** No key occurs twice (the container's uniqueness invariant). */
  predicate KeysUnique<K(==), V>(s: seq<(K, V)>)
  {
    forall i, j :: 0 <= i < j < |s| ==> s[i].0 != s[j].0
  }

  /** Position of the first occurrence of `x` in `xs`, or `|xs|` if there is none. */
  function FirstIndex<T(==)>(xs: seq<T>, x: T): (r: nat)
    ensures r <= |xs|
    ensures r < |xs| ==> xs[r] == x
    ensures forall j :: 0 <= j < r ==> xs[j] != x
    ensures r == |xs| <==> x !in xs
  {
    if xs == [] then 0
    else if xs[0] == x then 0
    else 1 + FirstIndex(xs[1..], x)
  }

  /** The first-occurrence position is determined by its defining property. */
  lemma FirstIndexIs<T>(xs: seq<T>, x: T, i: nat)
    requires i <= |xs|
    requires i < |xs| ==> xs[i] == x
    requires forall j :: 0 <= j < i ==> xs[j] != x
    ensures FirstIndex(xs, x) == i
  {
  }

  lemma KeysAppend<K, V>(s: seq<(K, V)>, t: seq<(K, V)>)
    ensures Keys(s + t) == Keys(s) + Keys(t)
  {
  }

  /** `h[k]`: the value stored under `k`, if any. */
  function Lookup<K(==), V>(s: seq<(K, V)>, k: K): (r: Option<V>)
    ensures r.Some? <==> k in Keys(s)
    ensures r.Some? ==> (k, r.value) in s
  {
    var i := FirstIndex(Keys(s), k);
    if i < |s| then Some(s[i].1) else None
  }

  /** In a key-unique list, looking a key up is the same as finding its pair. */
  lemma LookupIsMember<K, V>(s: seq<(K, V)>, k: K, v: V)
    requires KeysUnique(s)
    ensures Lookup(s, k) == Some(v) <==> (k, v) in s
  {
    if (k, v) in s {
      var i :| 0 <= i < |s| && s[i] == (k, v);
      FirstIndexIs(Keys(s), k, i);
    }
  }

  /** Looking up the key of the `i`-th pair of a key-unique list yields its value. */
  lemma LookupAt<K, V>(s: seq<(K, V)>, i: nat)
    requires KeysUnique(s) && i < |s|
    ensures Lookup(s, s[i].0) == Some(s[i].1)
  {
    FirstIndexIs(Keys(s), s[i].0, i);
  }

  /** Appending a pair does not change the lookup of any other key. */
  lemma LookupSnoc<K, V>(s: seq<(K, V)>, p: (K, V), k: K)
    requires k != p.0
    ensures Lookup(s + [p], k) == Lookup(s, k)
  {
    KeysAppend(s, [p]);
    var i := FirstIndex(Keys(s), k);
    if i < |s| {
      FirstIndexIs(Keys(s + [p]), k, i);
    } else {
      FirstIndexIs(Keys(s + [p]), k, |s| + 1);
    }
  }

  /** `h[k] = v`: overwrite the value in place when `k` is present, append `(k, v)` otherwise. */
  function Set<K(==), V>(s: seq<(K, V)>, k: K, v: V): (r: seq<(K, V)>)
    ensures Lookup(r, k) == Some(v)
    ensures k in Keys(s) ==> Keys(r) == Keys(s)
    ensures k !in Keys(s) ==> Keys(r) == Keys(s) + [k]
    ensures KeysUnique(s) ==> KeysUnique(r)
  {
    var i := FirstIndex(Keys(s), k);
    if i < |s| then
      var r := s[i := (k, v)];
      assert Keys(r) == Keys(s);
      r
    else
      var r := s + [(k, v)];
      KeysAppend(s, [(k, v)]);
      FirstIndexIs(Keys(r), k, |s|);
      r
  }

  /** `h[k] = v` leaves the value of every other key as it was. */
  lemma SetOther<K, V>(s: seq<(K, V)>, k: K, v: V, k': K)
    requires k' != k
    ensures Lookup(Set(s, k, v), k') == Lookup(s, k')
  {
    var i := FirstIndex(Keys(s), k);
    if i < |s| {
      assert Keys(Set(s, k, v)) == Keys(s);
    } else {
      LookupSnoc(s, (k, v), k');
    }
  }

  /** `h[k] = v` on a present key replaces that pair where it stands. */
  lemma SetReplace<K, V>(s: seq<(K, V)>, i: nat, v: V)
    requires KeysUnique(s) && i < |s|
    ensures Set(s, s[i].0, v) == s[i := (s[i].0, v)]
  {
    FirstIndexIs(Keys(s), s[i].0, i);
  }

  /** `h[k] = v` on an absent key appends the pair at the end. */
  lemma SetAppend<K, V>(s: seq<(K, V)>, k: K, v: V)
    requires k !in Keys(s)
    ensures Set(s, k, v) == s + [(k, v)]
  {
  }

  /** `h.delete(k)`: drop the pair of `k`; nothing happens when `k` is absent. */
  function Remove<K(==), V>(s: seq<(K, V)>, k: K): (r: seq<(K, V)>)
    ensures k !in Keys(s) ==> r == s
    ensures k in Keys(s) ==> |r| == |s| - 1
    ensures forall p :: p in r ==> p in s
    ensures KeysUnique(s) ==> KeysUnique(r) && k !in Keys(r)
  {
    var i := FirstIndex(Keys(s), k);
    if i < |s| then
      var r := s[..i] + s[i + 1..];
      assert forall j :: 0 <= j < |r| ==> r[j] == if j < i then s[j] else s[j + 1];
      r
    else s
  }

  /** Deleting the key of the `i`-th pair of a key-unique list removes exactly that pair. */
  lemma RemoveAt<K, V>(s: seq<(K, V)>, i: nat)
    requires KeysUnique(s) && i < |s|
    ensures Remove(s, s[i].0) == s[..i] + s[i + 1..]
  {
    var k := s[i].0;
    assert FirstIndex(Keys(s), k) == i by {
      FirstIndexIs(Keys(s), k, i);
    }
  }

  /** Deleting the key of the first pair after a prefix removes exactly that pair. */
  lemma RemoveAfter<K, V>(f: seq<(K, V)>, rest: seq<(K, V)>)
    requires KeysUnique(f + rest) && rest != []
    ensures Remove(f + rest, rest[0].0) == f + rest[1..]
  {
    RemoveAt(f + rest, |f|);
    assert (f + rest)[..|f|] == f;
    assert (f + rest)[|f| + 1..] == rest[1..];
  }

  // ---------------------------------------------------------------------
  // Building a container by inserting pairs one by one (Hash.[], invert)

  /** The container obtained from an empty one by `h[k] = v` for each pair, left to right. */
  function FromPairs<K(==), V>(ps: seq<(K, V)>): (r: seq<(K, V)>)
    ensures KeysUnique(r)
  {
    if ps == [] then []
    else
      var last := ps[|ps| - 1];
      Set(FromPairs(ps[..|ps| - 1]), last.0, last.1)
  }

  /** Building from one more pair is one more `Set`. */
  lemma FromPairsStep<K, V>(ps: seq<(K, V)>, i: nat)
    requires i < |ps|
    ensures FromPairs(ps[..i + 1]) == Set(FromPairs(ps[..i]), ps[i].0, ps[i].1)
  {
    assert ps[..i + 1][..i] == ps[..i];
  }

  /** Exactly the keys of the inserted pairs are present. */
  lemma {:induction false} FromPairsKeys<K, V>(ps: seq<(K, V)>, k: K)
    ensures k in Keys(FromPairs(ps)) <==> k in Keys(ps)
  {
    if ps != [] {
      var n := |ps| - 1;
      FromPairsKeys(ps[..n], k);
      KeysAppend(ps[..n], [ps[n]]);
      assert ps[..n] + [ps[n]] == ps;
    }
  }

  /** A key ends up with the value of its LAST pair (later duplicates overwrite). */
  lemma {:induction false} FromPairsLast<K, V>(ps: seq<(K, V)>, i: nat)
    requires i < |ps|
    requires forall j :: i < j < |ps| ==> ps[j].0 != ps[i].0
    ensures Lookup(FromPairs(ps), ps[i].0) == Some(ps[i].1)
  {
    var n := |ps| - 1;
    var pre := ps[..n];
    assert FromPairs(ps) == Set(FromPairs(pre), ps[n].0, ps[n].1);
    if i < n {
      assert pre[i] == ps[i];
      forall j | i < j < |pre| ensures pre[j].0 != pre[i].0 {
        assert pre[j] == ps[j];
      }
      FromPairsLast(pre, i);
      SetOther(FromPairs(pre), ps[n].0, ps[n].1, ps[i].0);
    }
  }

  /** The keys of `r` appear in the order of their first occurrence in `ks`. */
  ghost predicate OrderedByFirst<K, V>(r: seq<(K, V)>, ks: seq<K>)
  {
    forall i, j :: 0 <= i < j < |r| ==> FirstIndex(ks, r[i].0) < FirstIndex(ks, r[j].0)
  }

  lemma FirstIndexSnoc<T>(xs: seq<T>, y: T, x: T)
    requires x in xs
    ensures FirstIndex(xs + [y], x) == FirstIndex(xs, x)
  {
    FirstIndexIs(xs + [y], x, FirstIndex(xs, x));
  }

  /** Appending a key to the first-occurrence sequence keeps an order that only uses earlier keys. */
  lemma OrderedBySnoc<K, V>(t: seq<(K, V)>, ks: seq<K>, y: K)
    requires OrderedByFirst(t, ks)
    requires forall i :: 0 <= i < |t| ==> t[i].0 in ks
    ensures OrderedByFirst(t, ks + [y])
  {
    forall i | 0 <= i < |t| ensures FirstIndex(ks + [y], t[i].0) == FirstIndex(ks, t[i].0) {
      FirstIndexSnoc(ks, y, t[i].0);
    }
  }

  /** Every key of the built container comes from some pair. */
  lemma FromPairsKeysFrom<K, V>(ps: seq<(K, V)>)
    ensures forall i :: 0 <= i < |FromPairs(ps)| ==> FromPairs(ps)[i].0 in Keys(ps)
  {
    var r := FromPairs(ps);
    forall i | 0 <= i < |r| ensures r[i].0 in Keys(ps) {
      assert Keys(r)[i] == r[i].0;
      FromPairsKeys(ps, r[i].0);
    }
  }

  /** Keys come out in the order of their FIRST occurrence among the pairs
      (a later duplicate keeps the first position). */
  lemma {:induction false} FromPairsOrder<K, V>(ps: seq<(K, V)>)
    ensures OrderedByFirst(FromPairs(ps), Keys(ps))
  {
    if ps != [] {
      var n := |ps| - 1;
      FromPairsOrder(ps[..n]);
      FromPairsOrderStep(ps[..n], ps[n]);
      assert ps[..n] + [ps[n]] == ps;
    }
  }

  /** The inductive step of `FromPairsOrder`: one more pair keeps the order. */
  lemma FromPairsOrderStep<K, V>(pre: seq<(K, V)>, p: (K, V))
    requires OrderedByFirst(FromPairs(pre), Keys(pre))
    ensures OrderedByFirst(FromPairs(pre + [p]), Keys(pre + [p]))
  {
    var t, ks, k := FromPairs(pre), Keys(pre), p.0;
    assert OrderedByFirst(t, ks + [k]) by {
      FromPairsKeysFrom(pre);
      OrderedBySnoc(t, ks, k);
    }
    assert OrderedByFirst(Set(t, k, p.1), ks + [k]) by {
      FromPairsKeysFrom(pre);
      FromPairsKeys(pre, k);
      SetKeepsOrder(t, ks, k, p.1);
    }
    assert FromPairs(pre + [p]) == Set(t, k, p.1) by {
      assert (pre + [p])[..|pre|] == pre;
    }
    assert Keys(pre + [p]) == ks + [k] by {
      KeysAppend(pre, [p]);
    }
  }

  /** One `Set` step of `FromPairs` keeps the first-occurrence order. */
  lemma SetKeepsOrder<K, V>(t: seq<(K, V)>, ks: seq<K>, k: K, v: V)
    requires OrderedByFirst(t, ks + [k])
    requires forall i :: 0 <= i < |t| ==> t[i].0 in ks
    requires k in Keys(t) <==> k in ks
    ensures OrderedByFirst(Set(t, k, v), ks + [k])
  {
    var r := Set(t, k, v);
    if k in Keys(t) {
      forall i | 0 <= i < |r| ensures r[i].0 == t[i].0 {
        assert Keys(r)[i] == Keys(t)[i];
      }
    } else {
      FirstIndexIs(ks + [k], k, |ks|);
      forall i | 0 <= i < |r| ensures r[i].0 == (Keys(t) + [k])[i] {
        assert Keys(r)[i] == r[i].0;
      }
    }
  }

  /** Inserting the pairs of a container that is already key-unique copies it exactly. */
  lemma {:induction false} FromPairsIdentity<K, V>(ps: seq<(K, V)>)
    requires KeysUnique(ps)
    ensures FromPairs(ps) == ps
  {
    if ps != [] {
      var n := |ps| - 1;
      FromPairsIdentity(ps[..n]);
      assert ps[n].0 !in Keys(ps[..n]);
      assert ps[..n] + [ps[n]] == ps;
    }
  }

  // ---------------------------------------------------------------------
  // merge!

  /** The pair's value after merging: the resolver decides when the key is
      already present and a resolver is given, otherwise the incoming value wins. */
  function Resolve<K(==), V>(t: seq<(K, V)>, k: K, v: V, resolve: Option<(K, V, V) -> V>): V
  {
    match Lookup(t, k)
    case Some(mine) => if resolve.Some? then resolve.value(k, mine, v) else v
    case None => v
  }

  /** `merge!`: for each pair of `ps` in order, `self[k] = resolved value`. */
  function Merge<K(==), V>(s: seq<(K, V)>, ps: seq<(K, V)>, resolve: Option<(K, V, V) -> V>): (r: seq<(K, V)>)
    ensures KeysUnique(s) ==> KeysUnique(r)
  {
    if ps == [] then s
    else
      var t := Merge(s, ps[..|ps| - 1], resolve);
      var last := ps[|ps| - 1];
      Set(t, last.0, Resolve(t, last.0, last.1, resolve))
  }

  /** Merging one more pair is one more `Set` of its resolved value. */
  lemma MergeStep<K, V>(s: seq<(K, V)>, ps: seq<(K, V)>, i: nat, resolve: Option<(K, V, V) -> V>)
    requires i < |ps|
    ensures Merge(s, ps[..i + 1], resolve) ==
      Set(Merge(s, ps[..i], resolve), ps[i].0, Resolve(Merge(s, ps[..i], resolve), ps[i].0, ps[i].1, resolve))
  {
    assert ps[..i + 1][..i] == ps[..i];
  }

  /** The pairs of `ps` whose key is not among `ks`, in order. */
  function NewPairs<K(==), V>(ps: seq<(K, V)>, ks: seq<K>): (r: seq<(K, V)>)
  {
    if ps == [] then []
    else
      var last := ps[|ps| - 1];
      NewPairs(ps[..|ps| - 1], ks) + (if last.0 in ks then [] else [last])
  }

  lemma {:induction false} NewPairsFrom<K, V>(ps: seq<(K, V)>, ks: seq<K>, i: nat)
    requires i < |NewPairs(ps, ks)|
    ensures NewPairs(ps, ks)[i] in ps
  {
    var n := |ps| - 1;
    if i < |NewPairs(ps[..n], ks)| {
      NewPairsFrom(ps[..n], ks, i);
    }
  }

  /** Keys already present keep their positions; new keys are appended in the other hash's order. */
  lemma {:induction false} MergeKeys<K, V>(s: seq<(K, V)>, ps: seq<(K, V)>, resolve: Option<(K, V, V) -> V>)
    requires KeysUnique(ps)
    ensures Keys(Merge(s, ps, resolve)) == Keys(s) + Keys(NewPairs(ps, Keys(s)))
  {
    if ps != [] {
      var n := |ps| - 1;
      var pre := ps[..n];
      assert KeysUnique(pre) by {
        forall i, j | 0 <= i < j < |pre| ensures pre[i].0 != pre[j].0 {
          assert pre[i] == ps[i] && pre[j] == ps[j];
        }
      }
      assert ps[n].0 !in Keys(pre);
      MergeKeys(s, pre, resolve);
      MergeKeysStep(s, pre, ps[n], resolve);
      assert pre + [ps[n]] == ps;
    }
  }

  /** The inductive step of `MergeKeys`: one more pair with a key not seen before among the pairs. */
  lemma MergeKeysStep<K, V>(s: seq<(K, V)>, pre: seq<(K, V)>, p: (K, V), resolve: Option<(K, V, V) -> V>)
    requires p.0 !in Keys(pre)
    requires Keys(Merge(s, pre, resolve)) == Keys(s) + Keys(NewPairs(pre, Keys(s)))
    ensures Keys(Merge(s, pre + [p], resolve)) == Keys(s) + Keys(NewPairs(pre + [p], Keys(s)))
  {
    var t := Merge(s, pre, resolve);
    var k := p.0;
    var np := NewPairs(pre, Keys(s));
    var r := Set(t, k, Resolve(t, k, p.1, resolve));
    assert Merge(s, pre + [p], resolve) == r by {
      assert (pre + [p])[..|pre|] == pre;
    }
    assert NewPairs(pre + [p], Keys(s)) == np + (if k in Keys(s) then [] else [p]) by {
      assert (pre + [p])[..|pre|] == pre;
    }
    assert k !in Keys(np) by {
      forall i | 0 <= i < |np| ensures np[i].0 != k {
        NewPairsFrom(pre, Keys(s), i);
        assert np[i] in pre;
      }
    }
    SetKeysSplit(Keys(s), t, np, p, Resolve(t, k, p.1, resolve));
  }

  /** Setting a key on a list whose keys are `ks` followed by the keys of `np`:
      a key of `ks` stays where it is, any other key is appended after `np`'s. */
  lemma SetKeysSplit<K, V>(ks: seq<K>, t: seq<(K, V)>, np: seq<(K, V)>, p: (K, V), v: V)
    requires Keys(t) == ks + Keys(np)
    requires p.0 !in Keys(np)
    ensures Keys(Set(t, p.0, v)) == ks + Keys(np + (if p.0 in ks then [] else [p]))
  {
    if p.0 in ks {
      assert np + [] == np;
    } else {
      KeysAppend(np, [p]);
    }
  }

  /** The value every key holds after `merge!`. */
  lemma {:induction false} MergeLookup<K, V>(s: seq<(K, V)>, ps: seq<(K, V)>, resolve: Option<(K, V, V) -> V>, k: K)
    requires KeysUnique(ps)
    ensures k !in Keys(ps) ==> Lookup(Merge(s, ps, resolve), k) == Lookup(s, k)
    ensures k in Keys(ps) && (resolve.None? || k !in Keys(s)) ==>
      Lookup(Merge(s, ps, resolve), k) == Lookup(ps, k)
    ensures k in Keys(ps) && resolve.Some? && k in Keys(s) ==>
      Lookup(Merge(s, ps, resolve), k) == Some(resolve.value(k, Lookup(s, k).value, Lookup(ps, k).value))
  {
    if ps != [] {
      var n := |ps| - 1;
      var pre := ps[..n];
      MergeLookup(s, pre, resolve, k);
      KeysAppend(pre, [ps[n]]);
      assert pre + [ps[n]] == ps;
      if k == ps[n].0 {
        assert k !in Keys(pre);
        LookupAt(ps, n);
      } else {
        LookupSnoc(pre, ps[n], k);
        var t := Merge(s, pre, resolve);
        SetOther(t, ps[n].0, Resolve(t, ps[n].0, ps[n].1, resolve), k);
      }
    }
  }

  // ---------------------------------------------------------------------
  // delete_if / keep_if

  /** The pairs `(k, v)` of `s` with `p(k, v) == keep`, in their original order. */
  function Filter<K, V>(s: seq<(K, V)>, p: (K, V) -> bool, keep: bool): (r: seq<(K, V)>)
    ensures |r| <= |s|
    ensures forall i :: 0 <= i < |r| ==> r[i] in s && p(r[i].0, r[i].1) == keep
  {
    if s == [] then []
    else
      var last := s[|s| - 1];
      Filter(s[..|s| - 1], p, keep) + (if p(last.0, last.1) == keep then [last] else [])
  }

  /** Exactly the pairs of `s` on which `p` answers `keep` survive. */
  lemma {:induction false} FilterMembers<K, V>(s: seq<(K, V)>, p: (K, V) -> bool, keep: bool, x: (K, V))
    ensures x in Filter(s, p, keep) <==> x in s && p(x.0, x.1) == keep
  {
    if s != [] {
      var n := |s| - 1;
      FilterMembers(s[..n], p, keep, x);
      assert s == s[..n] + [s[n]];
    }
  }

  /** One more pair at the end is kept or dropped on its own. */
  lemma FilterSnoc<K, V>(s: seq<(K, V)>, x: (K, V), p: (K, V) -> bool, keep: bool)
    ensures Filter(s + [x], p, keep) == Filter(s, p, keep) + (if p(x.0, x.1) == keep then [x] else [])
  {
    assert (s + [x])[..|s|] == s;
  }

  /** One step of filtering a snapshot in place: the pair at position `i` of the
      snapshot is the first pair not yet examined; it stays when `p` answers
      `keep`, and deleting its key otherwise leaves exactly the filtered list. */
  lemma FilterStep<K, V>(pairs: seq<(K, V)>, i: nat, p: (K, V) -> bool, keep: bool, e: seq<(K, V)>)
    requires i < |pairs| && KeysUnique(e)
    requires e == Filter(pairs[..i], p, keep) + pairs[i..]
    ensures p(pairs[i].0, pairs[i].1) == keep ==> e == Filter(pairs[..i + 1], p, keep) + pairs[i + 1..]
    ensures p(pairs[i].0, pairs[i].1) != keep ==>
      Remove(e, pairs[i].0) == Filter(pairs[..i + 1], p, keep) + pairs[i + 1..]
  {
    var f := Filter(pairs[..i], p, keep);
    assert pairs[..i + 1] == pairs[..i] + [pairs[i]];
    FilterSnoc(pairs[..i], pairs[i], p, keep);
    assert pairs[i..][1..] == pairs[i + 1..];
    if p(pairs[i].0, pairs[i].1) == keep {
      assert f + pairs[i..] == (f + [pairs[i]]) + pairs[i + 1..];
    } else {
      RemoveAfter(f, pairs[i..]);
    }
  }

  /** Filtering distributes over concatenation: the relative order of survivors is kept. */
  lemma {:induction false} FilterConcat<K, V>(a: seq<(K, V)>, b: seq<(K, V)>, p: (K, V) -> bool, keep: bool)
    ensures Filter(a + b, p, keep) == Filter(a, p, keep) + Filter(b, p, keep)
  {
    if b != [] {
      var n := |b| - 1;
      FilterConcat(a, b[..n], p, keep);
      assert (a + b)[..|a + b| - 1] == a + b[..n];
    } else {
      assert a + b == a;
    }
  }

  /** Filtering keeps keys unique. */
  lemma {:induction false} FilterUnique<K, V>(s: seq<(K, V)>, p: (K, V) -> bool, keep: bool)
    requires KeysUnique(s)
    ensures KeysUnique(Filter(s, p, keep))
  {
    if s != [] {
      var n := |s| - 1;
      FilterUnique(s[..n], p, keep);
      var f := Filter(s[..n], p, keep);
      forall i | 0 <= i < |f| ensures f[i].0 != s[n].0 {
        assert f[i] in s[..n];
      }
    }
  }

  /** A surviving key keeps its value; a rejected or absent key is gone. */
  lemma FilterLookup<K, V>(s: seq<(K, V)>, p: (K, V) -> bool, keep: bool, k: K)
    requires KeysUnique(s)
    ensures Lookup(Filter(s, p, keep), k) ==
      match Lookup(s, k)
      case Some(v) => if p(k, v) == keep then Some(v) else None
      case None => None
  {
    FilterUnique(s, p, keep);
    var f := Filter(s, p, keep);
    if Lookup(f, k).Some? {
      var w := Lookup(f, k).value;
      FilterMembers(s, p, keep, (k, w));
      LookupIsMember(s, k, w);
    }
    match Lookup(s, k)
    case Some(v) =>
      if p(k, v) == keep {
        LookupIsMember(s, k, v);
        FilterMembers(s, p, keep, (k, v));
        LookupIsMember(f, k, v);
      }
    case None =>
  }

  // ---------------------------------------------------------------------
  // invert

  /** Every pair `(k, v)` turned into `(v, k)`, in order. */
  function Swap<K, V>(s: seq<(K, V)>): (r: seq<(V, K)>)
    ensures |r| == |s|
    ensures forall i :: 0 <= i < |s| ==> r[i] == (s[i].1, s[i].0)
  {
    seq(|s|, i requires 0 <= i < |s| => (s[i].1, s[i].0))
  }

  /** `invert`: insert `(v, k)` for every pair, in order, into a new container. */
  function Invert<K, V(==)>(s: seq<(K, V)>): (r: seq<(V, K)>)
    ensures KeysUnique(r)
  {
    FromPairs(Swap(s))
  }

  /** The keys of the inverse are exactly the values of the original. */
  lemma InvertKeys<K, V>(s: seq<(K, V)>, v: V)
    ensures v in Keys(Invert(s)) <==> v in Values(s)
  {
    FromPairsKeys(Swap(s), v);
    assert Keys(Swap(s)) == Values(s);
  }

  /** A value maps to the key of the LAST pair that carries it. */
  lemma InvertLast<K, V>(s: seq<(K, V)>, i: nat)
    requires i < |s|
    requires forall j :: i < j < |s| ==> s[j].1 != s[i].1
    ensures Lookup(Invert(s), s[i].1) == Some(s[i].0)
  {
    FromPairsLast(Swap(s), i);
  }

  /** Values come out in the order of their first occurrence in the original. */
  lemma InvertOrder<K, V>(s: seq<(K, V)>)
    ensures OrderedByFirst(Invert(s), Values(s))
  {
    FromPairsOrder(Swap(s));
    assert Keys(Swap(s)) == Values(s);
  }
}
