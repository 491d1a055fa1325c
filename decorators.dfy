/** `_.once` and `_.memoize`: decorators whose returned function keeps private
    state in its closure. Each decorated function is an object here: its
    fields are that closure state, `Call` is the returned function, and a
    ghost counter records how often the wrapped function has run. */
module Decorators {
  import opened Values

  /** The function returned by `_.once(func)`. */
  class Once<A, R> {
    const func: A -> R
    var alreadyCalled: bool
    /** `undefined` until the first call. */
    var result: Option<R>
    /** How many times `func` has run. */
    ghost var invocations: nat
    /** The arguments of the first call, once there has been one. */
    ghost var firstArgs: Option<A>

    ghost predicate Valid()
      reads this
    {
      && invocations == (if alreadyCalled then 1 else 0)
      && (alreadyCalled <==> firstArgs.Some?)
      && (alreadyCalled ==> result == Some(func(firstArgs.value)))
      && (!alreadyCalled ==> result == None)
    }

    constructor (func: A -> R)
      ensures Valid()
      ensures this.func == func && !alreadyCalled && invocations == 0
    {
      this.func := func;
      alreadyCalled := false;
      result := None;
      invocations := 0;
      firstArgs := None;
    }

    /** The first call runs `func(args)` and keeps its result; every call
        returns the result of the first call. */
    method Call(args: A) returns (r: R)
      requires Valid()
      modifies this
      ensures Valid()
      ensures alreadyCalled && invocations == 1
      ensures firstArgs == if old(alreadyCalled) then old(firstArgs) else Some(args)
      ensures r == func(firstArgs.value)
      ensures old(alreadyCalled) ==> result == old(result) && invocations == old(invocations)
    {
      if !alreadyCalled {
        result := Some(func(args));
        invocations := invocations + 1;
        firstArgs := Some(args);
        alreadyCalled := true;
      }
      r := result.value;
    }
  }

  /** Calls `_.once(func)` once per argument list in `argLists`: `func` runs at
      most once, and every call returns what the first call computed. */
  method CallOnceRepeatedly<A, R>(func: A -> R, argLists: seq<A>) returns (results: seq<R>, ghost invocations: nat)
    ensures |results| == |argLists|
    ensures forall i :: 0 <= i < |results| ==> results[i] == func(argLists[0])
    ensures invocations == if argLists == [] then 0 else 1
  {
    var once := new Once(func);
    results := [];
    for i := 0 to |argLists|
      invariant once.Valid() && once.func == func
      invariant |results| == i
      invariant once.invocations == if i == 0 then 0 else 1
      invariant i > 0 ==> once.firstArgs == Some(argLists[0])
      invariant forall j :: 0 <= j < i ==> results[j] == func(argLists[0])
    {
      var r := once.Call(argLists[i]);
      results := results + [r];
    }
    invocations := once.invocations;
  }

  /** The cache key `[args, args.length]`. */
  type ArgList = (seq<int>, int)

  /** The function returned by `_.memoize(func)`, for `func` taking integer
      arguments. */
  class Memoized {
    const func: seq<int> -> Value
    var cache: map<ArgList, Value>
    /** How many times `func` has run. */
    ghost var invocations: nat

    /** Every cache entry holds what `func` computes for its argument list. */
    ghost predicate Valid()
      reads this
    {
      forall argList :: argList in cache ==> argList.1 == |argList.0| && cache[argList] == func(argList.0)
    }

    constructor (func: seq<int> -> Value)
      ensures Valid()
      ensures this.func == func && cache == map[] && invocations == 0
    {
      this.func := func;
      cache := map[];
      invocations := 0;
    }

    /** A call whose key maps to a truthy value returns it without running
        `func`; on a miss, or on a falsy cached value, it runs `func`, stores
        the result under the key and returns it. */
    method Call(args: seq<int>) returns (r: Value)
      requires Valid()
      modifies this
      ensures Valid()
      ensures r == func(args)
      ensures var argList := (args, |args|);
        if argList in old(cache) && Truthy(old(cache)[argList])
        then cache == old(cache) && invocations == old(invocations)
        else cache == old(cache)[argList := r] && invocations == old(invocations) + 1
    {
      var argList := (args, |args|);
      if !(argList in cache && Truthy(cache[argList])) {
        cache := cache[argList := func(args)];
        invocations := invocations + 1;
        r := cache[argList];
      } else {
        r := cache[argList];
      }
    }
  }

  /** Two calls of one `_.memoize(func)`: `func` runs once when both calls have
      the same arguments and the first result is truthy, and twice otherwise. */
  method MemoizeTwice(func: seq<int> -> Value, first: seq<int>, second: seq<int>)
    returns (r1: Value, r2: Value, ghost invocations: nat)
    ensures r1 == func(first) && r2 == func(second)
    ensures invocations == if first == second && Truthy(func(first)) then 1 else 2
  {
    var memo := new Memoized(func);
    r1 := memo.Call(first);
    r2 := memo.Call(second);
    invocations := memo.invocations;
  }
}
