/** `_.reduce` and the predicates underbar.js writes with it: `contains`,
    `every`, and `some`, which walks the collection through `_.every`. */
module Folds {
  import opened Values

  /** The left fold of `s` from `acc`: `f(... f(f(acc, s[0]), s[1]) ..., s[|s|-1])`. */
  function FoldLeft<A, T>(acc: A, s: seq<T>, f: (A, T) -> A): A
  {
    if s == [] then acc else f(FoldLeft(acc, s[..|s| - 1], f), s[|s| - 1])
  }

  /** Folding a concatenation folds the second part from the first part's result. */
  lemma {:induction false} FoldLeftConcat<A, T>(acc: A, s: seq<T>, t: seq<T>, f: (A, T) -> A)
    ensures FoldLeft(acc, s + t, f) == FoldLeft(FoldLeft(acc, s, f), t, f)
  {
    if t == [] {
      assert s + t == s;
    } else {
      var n := |t| - 1;
      assert (s + t)[..|s + t| - 1] == s + t[..n];
      FoldLeftConcat(acc, s, t[..n], f);
    }
  }

  /** The first step of a fold, taken on its own. */
  lemma FoldLeftFirstStep<A, T>(acc: A, s: seq<T>, f: (A, T) -> A)
    requires |s| > 0
    ensures FoldLeft(acc, s, f) == FoldLeft(f(acc, s[0]), s[1..], f)
  {
    FoldLeftConcat(acc, [s[0]], s[1..], f);
    assert [s[0]] + s[1..] == s;
  }

  /** Taking `s[0]` as the accumulator is the same as seeding the fold with a
      left identity of `f`. */
  lemma UnseededIsSeededByIdentity<T>(s: seq<T>, f: (T, T) -> T, e: T)
    requires |s| > 0
    requires f(e, s[0]) == s[0]
    ensures FoldLeft(s[0], s[1..], f) == FoldLeft(e, s, f)
  {
    FoldLeftFirstStep(e, s, f);
  }

  /** The `_.each` loop of `_.reduce`: `accumulator = callback(accumulator, elem)`
      for every element in index order. */
  method ReduceFrom<A, T>(collection: seq<T>, callback: (A, T) -> A, accumulator: A) returns (result: A)
    ensures result == FoldLeft(accumulator, collection, callback)
  {
    result := accumulator;
    for index := 0 to |collection|
      invariant result == FoldLeft(accumulator, collection[..index], callback)
    {
      assert collection[..index + 1][..index] == collection[..index];
      result := callback(result, collection[index]);
    }
    assert collection[..|collection|] == collection;
  }

  /** `_.reduce`: an `undefined` accumulator, passed or omitted, means no seed;
      then `collection[0]` (`undefined` on an empty array) becomes the
      accumulator and only `collection.slice(1)` is folded. */
  method Reduce(collection: seq<Value>, callback: (Value, Value) -> Value, accumulator: Value)
    returns (result: Value)
    ensures accumulator != Undefined ==> result == FoldLeft(accumulator, collection, callback)
    ensures accumulator == Undefined && |collection| > 0 ==>
      result == FoldLeft(collection[0], collection[1..], callback)
    ensures accumulator == Undefined && |collection| == 0 ==> result == Undefined
  {
    var seed, rest := accumulator, collection;
    if accumulator == Undefined {
      seed := if |collection| > 0 then collection[0] else Undefined;
      rest := if |collection| > 0 then collection[1..] else [];
    }
    result := ReduceFrom(rest, callback, seed);
  }

  /** Unseeded on a single element, `_.reduce` returns that element and never
      calls the callback. */
  lemma ReduceSingleton(x: Value, callback: (Value, Value) -> Value)
    ensures FoldLeft(x, [x][1..], callback) == x
  {
    assert [x][1..] == [];
  }

  /** `total + number` on numbers; any other operands give `undefined`. */
  function AddNumbers(total: Value, number: Value): Value
  {
    if total.Num? && number.Num? then Num(total.n + number.n) else Undefined
  }

  /** The worked example in the comment above `_.reduce`: `_.reduce([1, 2, 3], add, 0)`
      is 6. The seed `0` is not `undefined`, so this is the seeded case of `Reduce`. */
  lemma ReduceSumExample()
    ensures FoldLeft(Num(0), [Num(1), Num(2), Num(3)], AddNumbers) == Num(6)
  {
    var s := [Num(1), Num(2), Num(3)];
    assert s[..2] == [Num(1), Num(2)];
    assert s[..2][..1] == [Num(1)];
    assert s[..2][..1][..0] == [];
    assert FoldLeft(Num(0), [], AddNumbers) == Num(0);
    assert FoldLeft(Num(0), [Num(1)], AddNumbers) == AddNumbers(Num(0), Num(1)) == Num(1);
    assert FoldLeft(Num(0), [Num(1), Num(2)], AddNumbers) == AddNumbers(Num(1), Num(2)) == Num(3);
  }

  /** The callback of `_.contains`: once found, stay found. */
  function ContainsStep<T(==)>(target: T): (bool, T) -> bool
  {
    (wasFound, item) => if wasFound then true else item == target
  }

  /** Folding `ContainsStep` from `false` tells whether `target` occurs. */
  lemma {:induction false} ContainsFold<T>(s: seq<T>, target: T)
    ensures FoldLeft(false, s, ContainsStep(target)) <==> target in s
  {
    if s != [] {
      var n := |s| - 1;
      ContainsFold(s[..n], target);
      assert s == s[..n] + [s[n]];
    }
  }

  /** `_.contains`: `_.reduce` seeded with `false`. The seed is not
      `undefined`, so the whole collection is folded. */
  method Contains<T(==)>(collection: seq<T>, target: T) returns (found: bool)
    ensures found <==> target in collection
  {
    found := ReduceFrom(collection, ContainsStep(target), false);
    ContainsFold(collection, target);
  }

  /** The callback of `_.every`. It is handed `(currElem, accumulator)`: the
      user's test receives the accumulator as its second argument, and without
      a test an element passes only when it is strictly `true`. */
  function EveryStep(test: Option<(Value, bool) -> bool>): (bool, Value) -> bool
  {
    (accumulator, currElem) =>
      if test.None? then (if currElem != Bool(accumulator) then false else accumulator)
      else if !test.value(currElem, accumulator) then false
      else accumulator
  }

  /** What `_.every` decides about one element while the accumulator is still `true`. */
  predicate Passes(test: Option<(Value, bool) -> bool>, elem: Value)
  {
    if test.None? then elem == Bool(true) else test.value(elem, true)
  }

  /** Folding `EveryStep` from `true` holds exactly when every element passes. */
  lemma {:induction false} EveryFold(s: seq<Value>, test: Option<(Value, bool) -> bool>)
    ensures FoldLeft(true, s, EveryStep(test)) <==> forall i :: 0 <= i < |s| ==> Passes(test, s[i])
  {
    if s != [] {
      var n := |s| - 1;
      EveryFold(s[..n], test);
      assert forall i :: 0 <= i < n ==> s[..n][i] == s[i];
    }
  }

  /** `EveryStep` only ever sets the accumulator to `false`: folded from
      `false`, the result stays `false` whatever the elements are. */
  lemma {:induction false} EveryStaysFalse(s: seq<Value>, test: Option<(Value, bool) -> bool>)
    ensures !FoldLeft(false, s, EveryStep(test))
  {
    if s != [] {
      EveryStaysFalse(s[..|s| - 1], test);
    }
  }

  /** `_.every`: `_.reduce` seeded with `true`. */
  method Every(collection: seq<Value>, test: Option<(Value, bool) -> bool>) returns (all: bool)
    ensures test.None? ==> (all <==> forall i :: 0 <= i < |collection| ==> collection[i] == Bool(true))
    ensures test.Some? ==> (all <==> forall i :: 0 <= i < |collection| ==> test.value(collection[i], true))
  {
    all := ReduceFrom(collection, EveryStep(test), true);
    EveryFold(collection, test);
  }

  /** `_.some`: `state` starts `false` and is set to `true` by the callback
      `_.every` calls on each element whose test (or, without one, whose own
      truthiness) holds. `_.every` visits every element, since `_.reduce`
      never stops early, and its own result is ignored; the loop below is
      that visit. */
  method Some(collection: seq<Value>, test: Option<Value -> bool>) returns (state: bool)
    ensures test.None? ==> (state <==> exists i :: 0 <= i < |collection| && Truthy(collection[i]))
    ensures test.Some? ==> (state <==> exists i :: 0 <= i < |collection| && test.value(collection[i]))
  {
    state := false;
    for index := 0 to |collection|
      invariant test.None? ==> (state <==> exists i :: 0 <= i < index && Truthy(collection[i]))
      invariant test.Some? ==> (state <==> exists i :: 0 <= i < index && test.value(collection[i]))
    {
      var elem := collection[index];
      if (test.None? && Truthy(elem)) || (test.Some? && test.value(elem)) {
        state := true;
      }
    }
  }
}
