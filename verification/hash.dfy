/** The extension methods of `Hash` (mrbgems/mruby-hash-ext/mrblib/hash.rb),
    written against the base container of module OrderedEntries: a `Hash`
    object holds its pairs in insertion order and its methods change them in
    place through `Store` (`h[k] = v`) and `Delete` (`h.delete(k)`). */
module HashExt {
  import opened OrderedEntries
  import opened RubyValues

  // ---------------------------------------------------------------------
  // Hash.[]: what each accepted argument shape builds

  /** Whether an element of `Hash[[...]]` answers `to_a`: arrays do, and so do
      hashes (through Enumerable). */
  predicate AnswersToA(v: Value)
  {
    v.Arr? || v.HashLike?
  }

  /** `i.size` of such an element. */
  function Size(v: Value): nat
    requires AnswersToA(v)
  {
    if v.Arr? then |v.elems| else |v.pairs|
  }

  /** `i[n]` of such an element: array indexing, or the hash's value for the
      integer key `n` (nil when that key is absent). */
  function At(v: Value, n: nat): Value
    requires AnswersToA(v) && n < Size(v)
  {
    if v.Arr? then v.elems[n]
    else match Lookup(v.pairs, Int(n))
      case Some(x) => x
      case None => Nil
  }

  /** The pair that one element of `Hash[[...]]` contributes: size 2 gives
      `i[0] => i[1]`, size 1 gives `i[0] => nil`; any other size, or an element
      that does not answer `to_a`, is an error. */
  function ElementPair(e: Value): (r: Result<(Value, Value)>)
    ensures r.Ok? <==> AnswersToA(e) && 1 <= Size(e) <= 2
    ensures r.Ok? ==> r.value.0 == At(e, 0)
    ensures r.Err? ==> r.error == (if AnswersToA(e) then InvalidElementCount(Size(e)) else WrongElementType(e))
  {
    if !AnswersToA(e) then Err(WrongElementType(e))
    else if Size(e) == 2 then Ok((At(e, 0), At(e, 1)))
    else if Size(e) == 1 then Ok((At(e, 0), Nil))
    else Err(InvalidElementCount(Size(e)))
  }

  /** The pairs of all elements, left to right; the first bad element stops the scan. */
  function ElementPairs(es: seq<Value>): (r: Result<seq<(Value, Value)>>)
    ensures r.Ok? ==> |r.value| == |es|
    ensures r.Err? ==> r.error.WrongElementType? || r.error.InvalidElementCount?
  {
    if es == [] then Ok([])
    else
      var pre :- ElementPairs(es[..|es| - 1]);
      var p :- ElementPair(es[|es| - 1]);
      Ok(pre + [p])
  }

  /** `object[0] => object[1], object[2] => object[3], ...` of an even-length argument list. */
  function FlatPairs(args: seq<Value>): (ps: seq<(Value, Value)>)
    requires |args| % 2 == 0
  {
    seq(|args| / 2, i requires 0 <= i < |args| / 2 => (args[2 * i], args[2 * i + 1]))
  }

  /** The pairs of the hash that `Hash[*args]` returns, or the error it raises. */
  function Build(args: seq<Value>): (r: Result<seq<(Value, Value)>>)
    ensures r.Ok? ==> KeysUnique(r.value)
    ensures r.Err? ==> r.error.OddArgumentCount? || r.error.WrongElementType? || r.error.InvalidElementCount?
  {
    if |args| == 1 && args[0].HashLike? then
      Ok(FromPairs(args[0].pairs))
    else if |args| == 1 && args[0].Arr? then
      var ps :- ElementPairs(args[0].elems);
      Ok(FromPairs(ps))
    else if |args| % 2 != 0 then
      Err(OddArgumentCount)
    else
      Ok(FromPairs(FlatPairs(args)))
  }

  /** `to_a` of a hash: one two-element array per pair, in order. */
  function PairArrays(s: seq<(Value, Value)>): (r: seq<Value>)
    ensures |r| == |s|
  {
    seq(|s|, i requires 0 <= i < |s| => Arr([s[i].0, s[i].1]))
  }

  /** `keep_if` hands its block the pair as one array `[k, v]`. */
  function PairBlock(block: Value -> bool): (Value, Value) -> bool
  {
    (k, v) => block(Arr([k, v]))
  }

  // ---------------------------------------------------------------------
  // The hash object

  class Hash {
    /** The pairs, in iteration (insertion) order. */
    var entries: seq<(Value, Value)>

    ghost predicate Valid()
      reads this
    {
      KeysUnique(entries)
    }

    /** `Hash.new` */
    constructor ()
      ensures Valid() && entries == []
    {
      entries := [];
    }

    /** `self[k] = v` */
    method Store(k: Value, v: Value)
      requires Valid()
      modifies this
      ensures Valid() && entries == Set(old(entries), k, v)
    {
      entries := Set(entries, k, v);
    }

    /** `self.delete(k)` */
    method Delete(k: Value)
      requires Valid()
      modifies this
      ensures Valid() && entries == Remove(old(entries), k)
    {
      entries := Remove(entries, k);
    }

    /** `self.has_key?(k)` */
    function HasKey(k: Value): bool
      reads this
    {
      k in Keys(entries)
    }

    /** `self[k]` (nil when absent) */
    function Get(k: Value): Value
      reads this
    {
      match Lookup(entries, k)
      case Some(v) => v
      case None => Nil
    }

    /** `Hash[*args]` */
    static method Create(args: seq<Value>) returns (r: Result<Hash>)
      ensures r.Ok? <==> Build(args).Ok?
      ensures r.Ok? ==> fresh(r.value) && r.value.Valid() && r.value.entries == Build(args).value
      ensures r.Err? ==> r.error == Build(args).error
    {
      if |args| == 1 {
        var o := args[0];
        if o.HashLike? {
          var h := FromHashLike(o.pairs);
          return Ok(h);
        } else if o.Arr? {
          r := FromPairArray(o.elems);
          return;
        }
      }
      if |args| % 2 != 0 {
        return Err(OddArgumentCount);
      }
      var h := FromFlatArgs(args);
      r := Ok(h);
    }

    /** `Hash[obj]` for an `obj` answering `to_hash`: insert each of its pairs into a new hash. */
    static method FromHashLike(ps: seq<(Value, Value)>) returns (h: Hash)
      ensures fresh(h) && h.Valid() && h.entries == FromPairs(ps)
    {
      h := new Hash();
      var i := 0;
      while i < |ps|
        invariant 0 <= i <= |ps|
        invariant fresh(h) && h.Valid() && h.entries == FromPairs(ps[..i])
      {
        FromPairsStep(ps, i);
        h.Store(ps[i].0, ps[i].1);
        i := i + 1;
      }
      assert ps[..|ps|] == ps;
    }

    /** `Hash[[e1, e2, ...]]`: insert the pair of each element, failing at the first bad one. */
    static method FromPairArray(es: seq<Value>) returns (r: Result<Hash>)
      ensures r.Ok? <==> ElementPairs(es).Ok?
      ensures r.Ok? ==> fresh(r.value) && r.value.Valid() && r.value.entries == FromPairs(ElementPairs(es).value)
      ensures r.Err? ==> r.error == ElementPairs(es).error
    {
      var h := new Hash();
      var i := 0;
      while i < |es|
        invariant 0 <= i <= |es|
        invariant ElementPairs(es[..i]).Ok?
        invariant fresh(h) && h.Valid() && h.entries == FromPairs(ElementPairs(es[..i]).value)
      {
        ElementPairsStep(es, i);
        match ElementPair(es[i]) {
          case Err(e) =>
            ElementPairsPrefixError(es, i + 1);
            return Err(e);
          case Ok(p) =>
            FromPairsStep(ElementPairs(es[..i + 1]).value, i);
            assert ElementPairs(es[..i + 1]).value[..i] == ElementPairs(es[..i]).value;
            h.Store(p.0, p.1);
        }
        i := i + 1;
      }
      assert es[..|es|] == es;
      return Ok(h);
    }

    /** `Hash[k1, v1, k2, v2, ...]`: `h[object[i]] = object[i + 1]` for i = 0, 2, 4, ... */
    static method FromFlatArgs(args: seq<Value>) returns (h: Hash)
      requires |args| % 2 == 0
      ensures fresh(h) && h.Valid() && h.entries == FromPairs(FlatPairs(args))
    {
      h := new Hash();
      ghost var ps := FlatPairs(args);
      ghost var n := 0;
      var i := 0;
      while i < |args|
        invariant i == 2 * n && n <= |ps|
        invariant fresh(h) && h.Valid() && h.entries == FromPairs(ps[..n])
      {
        assert ps[n] == (args[i], args[i + 1]);
        FromPairsStep(ps, n);
        h.Store(args[i], args[i + 1]);
        i, n := i + 2, n + 1;
      }
      assert ps[..n] == ps;
    }

    /** `merge!(other)` and `merge!(other) { |key, mine, theirs| ... }` */
    method MergeInPlace(other: Value, resolve: Option<(Value, Value, Value) -> Value>) returns (r: Result<Hash>)
      requires Valid()
      modifies this
      ensures Valid()
      ensures !other.HashLike? ==> r == Err(NotConvertibleToHash) && entries == old(entries)
      ensures other.HashLike? ==> r == Ok(this) && entries == Merge(old(entries), other.pairs, resolve)
    {
      if !other.HashLike? {
        return Err(NotConvertibleToHash);
      }
      if resolve.Some? {
        MergeResolving(other.pairs, resolve.value);
      } else {
        MergeOverwriting(other.pairs);
      }
      r := Ok(this);
    }

    /** The block form of `merge!`: `self[k] = has_key?(k) ? block.call(k, self[k], other[k]) : other[k]`. */
    method MergeResolving(ps: seq<(Value, Value)>, f: (Value, Value, Value) -> Value)
      requires Valid()
      modifies this
      ensures Valid() && entries == Merge(old(entries), ps, Some(f))
    {
      ghost var s := entries;
      var i := 0;
      while i < |ps|
        invariant 0 <= i <= |ps|
        invariant Valid() && entries == Merge(s, ps[..i], Some(f))
      {
        MergeStep(s, ps, i, Some(f));
        var k := ps[i].0;
        Store(k, if HasKey(k) then f(k, Get(k), ps[i].1) else ps[i].1);
        i := i + 1;
      }
      assert ps[..|ps|] == ps;
    }

    /** The plain form of `merge!`: `self[k] = other[k]`. */
    method MergeOverwriting(ps: seq<(Value, Value)>)
      requires Valid()
      modifies this
      ensures Valid() && entries == Merge(old(entries), ps, None)
    {
      ghost var s := entries;
      var i := 0;
      while i < |ps|
        invariant 0 <= i <= |ps|
        invariant Valid() && entries == Merge(s, ps[..i], None)
      {
        MergeStep(s, ps, i, None);
        Store(ps[i].0, ps[i].1);
        i := i + 1;
      }
      assert ps[..|ps|] == ps;
    }

    /** `fetch(key)`, `fetch(key, default)`, `fetch(key) { ... }` */
    function Fetch(key: Value, default: Option<Value>, block: Option<() -> Value>): (r: Result<Value>)
      reads this
      ensures key in Keys(entries) ==> r == Ok(Lookup(entries, key).value)
      ensures key !in Keys(entries) && block.Some? ==> r == Ok(block.value())
      ensures key !in Keys(entries) && block.None? && default.Some? ==> r == Ok(default.value)
      ensures key !in Keys(entries) && block.None? && default.None? ==> r == Err(KeyNotFound(key))
    {
      if !HasKey(key) then
        if block.Some? then Ok(block.value())
        else if default.Some? then Ok(default.value)
        else Err(KeyNotFound(key))
      else
        Ok(Get(key))
    }

    /** `delete_if { |key, value| ... }` over the pairs present at the call */
    method DeleteIf(block: (Value, Value) -> bool) returns (r: Hash)
      requires Valid()
      modifies this
      ensures Valid() && r == this
      ensures entries == Filter(old(entries), block, false)
    {
      var pairs := entries;
      var i := 0;
      while i < |pairs|
        invariant 0 <= i <= |pairs|
        invariant Valid() && entries == Filter(pairs[..i], block, false) + pairs[i..]
      {
        FilterStep(pairs, i, block, false, entries);
        if block(pairs[i].0, pairs[i].1) {
          Delete(pairs[i].0);
        }
        i := i + 1;
      }
      assert pairs[..|pairs|] == pairs;
      r := this;
    }

    /** `keep_if { |pair| ... }` over the pairs present at the call */
    method KeepIf(block: Value -> bool) returns (r: Hash)
      requires Valid()
      modifies this
      ensures Valid() && r == this
      ensures entries == Filter(old(entries), PairBlock(block), true)
    {
      var pairs := entries;
      var i := 0;
      while i < |pairs|
        invariant 0 <= i <= |pairs|
        invariant Valid() && entries == Filter(pairs[..i], PairBlock(block), true) + pairs[i..]
      {
        FilterStep(pairs, i, PairBlock(block), true, entries);
        if !block(Arr([pairs[i].0, pairs[i].1])) {
          Delete(pairs[i].0);
        }
        i := i + 1;
      }
      assert pairs[..|pairs|] == pairs;
      r := this;
    }

    /** `flatten(level)` for a non-negative level: `to_a.flatten(level)` */
    function Flatten(level: nat := 1): (r: seq<Value>)
      reads this
      ensures level == 0 ==> r == PairArrays(entries)
      ensures level == 1 ==> |r| == 2 * |entries|
      ensures level == 1 ==> forall i :: 0 <= i < |entries| ==>
        r[2 * i] == entries[i].0 && r[2 * i + 1] == entries[i].1
    {
      FlattenZero(PairArrays(entries));
      FlattenPairs(entries);
      FlattenArray(PairArrays(entries), level)
    }

    /** `invert`: a new hash from each value to the last key carrying it */
    method Invert() returns (h: Hash)
      ensures fresh(h) && h.Valid()
      ensures h.entries == OrderedEntries.Invert(entries)
    {
      h := new Hash();
      ghost var sw := Swap(entries);
      var i := 0;
      while i < |entries|
        invariant 0 <= i <= |entries|
        invariant fresh(h) && h.Valid() && h.entries == FromPairs(sw[..i])
      {
        FromPairsStep(sw, i);
        h.Store(entries[i].1, entries[i].0);
        i := i + 1;
      }
      assert sw[..|entries|] == sw;
    }

    /** `key(val)`: the first key whose value is `val`, or nil */
    method Key(val: Value) returns (r: Value)
      ensures (forall i :: 0 <= i < |entries| ==> entries[i].1 != val) ==> r == Nil
      ensures forall i :: (0 <= i < |entries| && entries[i].1 == val &&
                           forall j :: 0 <= j < i ==> entries[j].1 != val) ==> r == entries[i].0
      ensures Valid() && val in Values(entries) ==> Lookup(entries, r) == Some(val)
    {
      var i := 0;
      while i < |entries|
        invariant 0 <= i <= |entries|
        invariant forall j :: 0 <= j < i ==> entries[j].1 != val
      {
        if entries[i].1 == val {
          if Valid() {
            LookupAt(entries, i);
          }
          return entries[i].0;
        }
        i := i + 1;
      }
      return Nil;
    }

    /** `to_h`: the receiver itself */
    method ToH() returns (h: Hash)
      ensures h == this
    {
      h := this;
    }
  }

  // ---------------------------------------------------------------------
  // Lemmas

  /** Scanning one more element appends its pair, or stops with its error. */
  lemma ElementPairsStep(es: seq<Value>, i: nat)
    requires i < |es| && ElementPairs(es[..i]).Ok?
    ensures ElementPairs(es[..i + 1]) ==
      match ElementPair(es[i])
      case Ok(p) => Ok(ElementPairs(es[..i]).value + [p])
      case Err(e) => Err(e)
  {
    assert es[..i + 1][..i] == es[..i];
  }

  /** An element that fails makes the whole scan fail with its error, once all before it passed. */
  lemma {:induction false} ElementPairsPrefixError(es: seq<Value>, n: nat)
    requires n <= |es| && ElementPairs(es[..n]).Err?
    ensures ElementPairs(es) == Err(ElementPairs(es[..n]).error)
    decreases |es| - n
  {
    if n < |es| {
      assert es[..n + 1][..n] == es[..n];
      ElementPairsPrefixError(es, n + 1);
    } else {
      assert es[..n] == es;
    }
  }

  /** `to_a.flatten(1)` of a hash is `[k1, v1, k2, v2, ...]`: the pair arrays are
      opened, but keys and values that are arrays themselves stay nested. */
  lemma {:induction false} FlattenPairs(s: seq<(Value, Value)>)
    ensures |FlattenArray(PairArrays(s), 1)| == 2 * |s|
    ensures forall i :: 0 <= i < |s| ==>
      FlattenArray(PairArrays(s), 1)[2 * i] == s[i].0 && FlattenArray(PairArrays(s), 1)[2 * i + 1] == s[i].1
  {
    if s != [] {
      FlattenPairs(s[1..]);
      assert PairArrays(s)[1..] == PairArrays(s[1..]);
      FlattenZero([s[0].0, s[0].1]);
      var rest := FlattenArray(PairArrays(s[1..]), 1);
      var r := FlattenArray(PairArrays(s), 1);
      assert r == [s[0].0, s[0].1] + rest;
      forall i | 1 <= i < |s|
        ensures r[2 * i] == s[i].0 && r[2 * i + 1] == s[i].1
      {
        assert r[2 * i] == rest[2 * (i - 1)];
        assert r[2 * i + 1] == rest[2 * (i - 1) + 1];
      }
    }
  }

  // ---------------------------------------------------------------------
  // What Hash.[] promises

  /** The scan of `Hash[[...]]` succeeds exactly when every element is
      acceptable, and then yields each element's pair at its position. */
  lemma {:induction false} ElementPairsOk(es: seq<Value>)
    ensures ElementPairs(es).Ok? <==> forall i :: 0 <= i < |es| ==> ElementPair(es[i]).Ok?
    ensures ElementPairs(es).Ok? ==> forall i :: 0 <= i < |es| ==> ElementPairs(es).value[i] == ElementPair(es[i]).value
  {
    if es != [] {
      var n := |es| - 1;
      ElementPairsOk(es[..n]);
      assert forall i :: 0 <= i < n ==> es[..n][i] == es[i];
    }
  }

  /** `Hash[obj]` with `obj` answering `to_hash`: a new hash with the same pairs in the same order. */
  lemma BuildFromHashLike(ps: seq<(Value, Value)>)
    requires KeysUnique(ps)
    ensures Build([HashLike(ps)]) == Ok(ps)
  {
    FromPairsIdentity(ps);
  }

  /** `Hash[k1, v1, ...]` with an odd count, unless it is a single convertible argument, raises. */
  lemma BuildOdd(args: seq<Value>)
    requires |args| % 2 == 1
    requires |args| == 1 ==> !args[0].HashLike? && !args[0].Arr?
    ensures Build(args) == Err(OddArgumentCount)
  {
  }

  /** `Hash[k1, v1, ...]` with an even count: `object[i]` maps to `object[i + 1]`
      unless a later even position repeats the key, whose value then wins. */
  lemma BuildFlatValue(args: seq<Value>, i: nat)
    requires |args| % 2 == 0 && i % 2 == 0 && i < |args|
    requires forall j :: i < j < |args| && j % 2 == 0 ==> args[j] != args[i]
    ensures Build(args).Ok?
    ensures Lookup(Build(args).value, args[i]) == Some(args[i + 1])
  {
    var ps := FlatPairs(args);
    var h := i / 2;
    assert i == 2 * h;
    assert ps[h] == (args[i], args[i + 1]);
    forall m | h < m < |ps| ensures ps[m].0 != ps[h].0 {
      assert ps[m].0 == args[2 * m];
    }
    FromPairsLast(ps, h);
  }

  /** The key column of the flat argument list is the arguments at even positions. */
  lemma FlatKeysMember(args: seq<Value>, k: Value)
    requires |args| % 2 == 0
    ensures k in Keys(FlatPairs(args)) <==> exists j :: 0 <= j < |args| && j % 2 == 0 && args[j] == k
  {
    var ks := Keys(FlatPairs(args));
    if k in ks {
      var m :| 0 <= m < |ks| && ks[m] == k;
      assert args[2 * m] == k;
    }
    if exists j :: 0 <= j < |args| && j % 2 == 0 && args[j] == k {
      var j :| 0 <= j < |args| && j % 2 == 0 && args[j] == k;
      assert ks[j / 2] == k;
    }
  }

  /** `Hash[k1, v1, ...]` with an even count: the keys are exactly the
      arguments at even positions. */
  lemma BuildFlatKeys(args: seq<Value>, k: Value)
    requires |args| % 2 == 0
    ensures Build(args).Ok?
    ensures k in Keys(Build(args).value) <==> exists j :: 0 <= j < |args| && j % 2 == 0 && args[j] == k
  {
    FromPairsKeys(FlatPairs(args), k);
    FlatKeysMember(args, k);
  }

  /** `Hash[k1, v1, ...]` with an even count: each key sits where it first occurs. */
  lemma BuildFlatOrder(args: seq<Value>)
    requires |args| % 2 == 0
    ensures Build(args).Ok?
    ensures OrderedByFirst(Build(args).value, Keys(FlatPairs(args)))
  {
    FromPairsOrder(FlatPairs(args));
  }

  /** `Hash[[e1, e2, ...]]` succeeds exactly when every element has size 1 or 2. */
  lemma BuildPairArrayOk(es: seq<Value>)
    ensures Build([Arr(es)]).Ok? <==> forall i :: 0 <= i < |es| ==> ElementPair(es[i]).Ok?
  {
    ElementPairsOk(es);
  }

  /** `Hash[[e1, e2, ...]]` raises the error of the first bad element. */
  lemma BuildPairArrayError(es: seq<Value>, i: nat)
    requires i < |es| && ElementPair(es[i]).Err?
    requires forall j :: 0 <= j < i ==> ElementPair(es[j]).Ok?
    ensures Build([Arr(es)]) == Err(ElementPair(es[i]).error)
  {
    ElementPairsOk(es[..i]);
    assert forall j :: 0 <= j < i ==> es[..i][j] == es[j];
    ElementPairsStep(es, i);
    ElementPairsPrefixError(es, i + 1);
  }

  /** `Hash[[e1, e2, ...]]`: the key of an element maps to that element's value
      unless a later element repeats the key. */
  lemma BuildPairArrayValue(es: seq<Value>, i: nat)
    requires forall j :: 0 <= j < |es| ==> ElementPair(es[j]).Ok?
    requires i < |es|
    requires forall j :: i < j < |es| ==> ElementPair(es[j]).value.0 != ElementPair(es[i]).value.0
    ensures Build([Arr(es)]).Ok?
    ensures Lookup(Build([Arr(es)]).value, ElementPair(es[i]).value.0) == Some(ElementPair(es[i]).value.1)
  {
    ElementPairsOk(es);
    FromPairsLast(ElementPairs(es).value, i);
  }

  /** `Hash[[e1, e2, ...]]` with acceptable elements: the keys of the new hash are
      exactly the elements' keys. */
  lemma BuildPairArrayKeys(es: seq<Value>, k: Value)
    requires forall i :: 0 <= i < |es| ==> ElementPair(es[i]).Ok?
    ensures Build([Arr(es)]).Ok?
    ensures k in Keys(Build([Arr(es)]).value) <==> exists j :: 0 <= j < |es| && ElementPair(es[j]).value.0 == k
  {
    ElementPairsOk(es);
    var ps := ElementPairs(es).value;
    assert Build([Arr(es)]) == Ok(FromPairs(ps));
    FromPairsKeys(ps, k);
    if k in Keys(ps) {
      var j :| 0 <= j < |ps| && ps[j].0 == k;
      assert ElementPair(es[j]).value.0 == k;
    }
  }

  /** `Hash[[e1, e2, ...]]` with acceptable elements: each key sits where it first
      occurs among the elements; a later element with the same key keeps that position. */
  lemma BuildPairArrayOrder(es: seq<Value>)
    requires forall i :: 0 <= i < |es| ==> ElementPair(es[i]).Ok?
    ensures Build([Arr(es)]).Ok?
    ensures OrderedByFirst(Build([Arr(es)]).value, Keys(ElementPairs(es).value))
  {
    assert ElementPairs(es).Ok? by {
      ElementPairsOk(es);
    }
    var ps := ElementPairs(es).value;
    assert Build([Arr(es)]) == Ok(FromPairs(ps));
    FromPairsOrder(ps);
  }
}
