/** The Ruby objects that the Hash extension methods handle, the errors they
    raise, and the part of `Array#flatten` that `Hash#flatten` relies on. */
module RubyValues {

  /** A Ruby object, as far as these methods look at it.
      `Arr` is an Array; `HashLike` is any object answering `to_hash`,
      represented by the pairs its `to_hash` yields, in iteration order. */
  datatype Value =
    | Nil
    | Int(n: int)
    | Str(chars: string)
    | Arr(elems: seq<Value>)
    | HashLike(pairs: seq<(Value, Value)>)

  /** The exceptions the extension methods raise themselves. */
  datatype Error =
    | OddArgumentCount                // ArgumentError: odd number of arguments for Hash
    | WrongElementType(elem: Value)   // ArgumentError: wrong element type (expected array)
    | InvalidElementCount(size: nat)  // ArgumentError: invalid number of elements (size for 1..2)
    | NotConvertibleToHash            // TypeError: can't convert argument into Hash
    | KeyNotFound(key: Value)         // RuntimeError: Key not found

  /** A value, or the exception raised instead of returning one. */
  datatype Result<+T> = Ok(value: T) | Err(error: Error) {
    predicate IsFailure() {
      Err?
    }

    function PropagateFailure<U>(): Result<U>
      requires Err?
    {
      Err(error)
    }

    function Extract(): T
      requires Ok?
    {
      value
    }
  }

  /** `xs.flatten(level)` for a non-negative level: while levels remain, an
      element that is an array is replaced by its own elements, flattened one
      level less; every other element is kept as it is. */
  function FlattenArray(xs: seq<Value>, level: nat): seq<Value>
    decreases level, |xs|
  {
    if xs == [] then []
    else
      (if xs[0].Arr? && level > 0 then FlattenArray(xs[0].elems, level - 1) else [xs[0]])
      + FlattenArray(xs[1..], level)
  }

  /** Level 0 flattens nothing. */
  lemma {:induction false} FlattenZero(xs: seq<Value>)
    ensures FlattenArray(xs, 0) == xs
  {
    if xs != [] {
      FlattenZero(xs[1..]);
    }
  }

  /** Flattening works element by element, so it distributes over concatenation. */
  lemma {:induction false} FlattenConcat(a: seq<Value>, b: seq<Value>, level: nat)
    ensures FlattenArray(a + b, level) == FlattenArray(a, level) + FlattenArray(b, level)
  {
    if a != [] {
      var head := if a[0].Arr? && level > 0 then FlattenArray(a[0].elems, level - 1) else [a[0]];
      assert FlattenArray(a + b, level) == head + FlattenArray(a[1..] + b, level) by {
        assert (a + b)[0] == a[0];
        assert (a + b)[1..] == a[1..] + b;
      }
      FlattenConcat(a[1..], b, level);
    } else {
      assert a + b == b;
    }
  }
}
