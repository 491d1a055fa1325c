# underbar: a verified model of a small collection library

underbar is a JavaScript library that puts functional collection operators
on a global `_` namespace. It has positional accessors (`first`, `last`) and
an iteration kernel (`each`). Built on that kernel are the sequence operators
`indexOf`, `filter`, `reject`, `uniq`, `map` and `pluck`, and the folds
`reduce`, `contains`, `every` and `some`. It also has two object merges
(`extend`, `defaults`), two function decorators with closure state (`once`,
`memoize`), and two array utilities (`shuffle`, `flatten`).

This project models each of those operators in Dafny and proves what it does:

- `values.dfy` (`Values`): `Option` stands for a possibly `undefined` result.
  `Value` is a primitive JavaScript value, and `Truthy` is its truthiness.
  The module also holds `_.identity`.
- `positional.dfy` (`Positional`): `first` and `last`, written with
  `Array.prototype.slice`, including its negative indices.
- `collections.dfy` (`Collections`): `each` on arrays and on objects,
  `indexOf`, `filter`, `reject`, `map`, `pluck` and `uniq`. `IndexOf`,
  `Filter`, `Map` and `Uniq` are methods whose loop is the index walk of
  `_.each`; `Reject` calls `Filter` and `Pluck` calls `Map`, as in
  underbar.js. `IndexOf`, `Filter`, `Reject` and `Uniq` are proved against a
  specification function (`FirstIndex`, `Kept`, `Deduplicated`), and lemmas
  prove what that function promises. `Map` and `Pluck` state each entry of
  their result directly in their postconditions.
- `folds.dfy` (`Folds`): `reduce` with its optional seed, and `contains`,
  `every` and `some`. The postcondition of `Reduce` is stated with the left
  fold `FoldLeft`. `Contains`, `Every` and `Some` state their results element
  by element. `Contains` and `Every` follow `_.reduce`, and the lemmas
  `ContainsFold` and `EveryFold` prove them correct through `FoldLeft`.
- `objects.dfy` (`Objects`): `extend` and `defaults`. These change a target
  object (`Obj`) in place. `Extended` and `Defaulted` describe the new state.
- `decorators.dfy` (`Decorators`): `once` and `memoize`. Each decorated
  function is a class whose fields are the closure state, with a ghost
  counter of how often the wrapped function has run.
- `advanced.dfy` (`Advanced`): `shuffle` on a copied array, with the random
  index passed in as `k`, and `flatten` on a `Nested` datatype.

Callbacks are total Dafny functions. A callback's side effects are therefore
not modelled. `Each` returns the list of calls it would make, and any
operator that uses a side-effecting callback in underbar.js has its own loop.

The model keeps these behaviours of the code, which differ from what a reader
might expect:

- `_.every` without a test accepts an element only if it is strictly `true`.
  It does not test truthiness. With a test, the test receives the
  accumulator, not the index, as its second argument.
- `_.some` is not the negation of `_.every`. It calls `_.every` only to visit
  the elements.
- `_.reject` passes only the element to the test.
- `_.memoize` decides a cache hit by the truthiness of the cached value, not
  by the key's presence. A falsy result is therefore computed again.
- An `undefined` seed given to `_.reduce` counts as no seed. Without a seed,
  an empty array gives `undefined`.
- `_.shuffle` draws one swap index for all positions, so it is not a
  Fisher–Yates shuffle. `ShuffleNeverKeepsOrder` proves that it is biased.

## Model

| member | source | states |
|---|---|---|
| Values.Identity | src/underbar.js:9-11 | returns its argument unchanged |
| Positional.First | src/underbar.js:34-35 | `undefined` exactly for an empty array, otherwise the element at index 0 |
| Positional.FirstN | src/underbar.js:34-35 | a prefix of the array; of length `min(n, len)` for `n >= 0`, and `max(0, len + n)` for negative `n` (slice from the end) |
| Positional.Last | src/underbar.js:40-45 | `undefined` exactly for an empty array, otherwise the element at the last index |
| Positional.LastN | src/underbar.js:40-45 | a suffix of the array; of length `min(n, len)` for `n >= 0` (so `[]` for 0), and `max(0, len + n)` for negative `n` |
| Positional.LastZeroNeedsGuard | src/underbar.js:41-44 | `last(a, 0)` is `[]`, while the unguarded `slice(-0)` would be the whole array |
| Positional.FirstLastSplit | src/underbar.js:34-45 | `first(a, n) + last(a, len - n) == a` for every `0 <= n <= len` |
| Positional.EndsAgreeWithCountedForms | src/underbar.js:34-45 | on a non-empty array `first(a, 1)` is `[first(a)]` and `last(a, 1)` is `[last(a)]` |
| Collections.Each | src/underbar.js:52-56 | one call per element, in index order, with `(collection[i], i)` |
| Collections.EachObject | src/underbar.js:57-60 | one call per own key, no key twice, each with that key's value; order unspecified |
| Collections.FirstIndex | src/underbar.js:64-79 | -1 exactly when the value is absent; otherwise an index holding it with no earlier occurrence |
| Collections.IndexOf | src/underbar.js:66-79 | -1 exactly when `target` is absent; otherwise the least index holding `target` |
| Collections.KeptExactlyPassing | src/underbar.js:81-90 | the filter result is the input read at the strictly increasing list of exactly the indices whose test passes |
| Collections.Filter | src/underbar.js:82-90 | returns the kept elements, in order, of the test applied to `(element, index)` |
| Collections.Reject | src/underbar.js:93-107 | returns what `filter` returns with the test negated and called on the element alone |
| Collections.FilterRejectPartition | src/underbar.js:82-107 | filter and reject with the same element test have lengths that add up to the input's length |
| Collections.RejectMembers | src/underbar.js:104-106 | a value is in the reject result iff it occurs in the input and fails the test |
| Collections.Map | src/underbar.js:134-145 | same length as the input, with `result[i] == callback(collection[i], i)` |
| Collections.Pluck | src/underbar.js:156-163 | same length as the input; entry `i` is `undefined` iff the key is absent from item `i`, else item `i`'s value at the key |
| Collections.DeduplicatedSameValues | src/underbar.js:110-130 | the uniq result holds exactly the input's values |
| Collections.DeduplicatedNoDuplicates | src/underbar.js:110-130 | the uniq result has no value twice |
| Collections.DeduplicatedFirstOccurrenceOrder | src/underbar.js:110-130 | the uniq result lists values in the order of their first occurrence in the input |
| Collections.Uniq | src/underbar.js:110-130 | the deduplicated sequence: no duplicates, the same values as the input, first-occurrence order |
| Folds.FoldLeftConcat | src/underbar.js:193-195 | folding `s + t` is folding `t` from the result of folding `s` |
| Folds.UnseededIsSeededByIdentity | src/underbar.js:188-191 | taking `s[0]` as the accumulator and folding `s[1..]` equals folding all of `s` from a left identity of the callback |
| Folds.ReduceFrom | src/underbar.js:193-197 | the result is the left fold of the collection from the accumulator |
| Folds.Reduce | src/underbar.js:185-198 | a defined seed folds every element; an `undefined` seed folds `collection[1..]` from `collection[0]`, and gives `undefined` on `[]` |
| Folds.ReduceSingleton | src/underbar.js:181-183 | unseeded on `[x]` the result is `x`, whatever the callback |
| Folds.ReduceSumExample | src/underbar.js:176-179 | the seeded fold of `Reduce` summing `[Num(1), Num(2), Num(3)]` from `Num(0)` gives `Num(6)` |
| Folds.ContainsFold | src/underbar.js:201-210 | folding the contains callback from `false` is true iff the target occurs |
| Folds.Contains | src/underbar.js:201-210 | true iff some element equals the target |
| Folds.EveryFold | src/underbar.js:213-226 | folding the every callback from `true` is true iff every element passes |
| Folds.EveryStaysFalse | src/underbar.js:215-225 | a `false` accumulator stays `false`: folded from `false`, the every callback gives `false` for any elements |
| Folds.Every | src/underbar.js:213-226 | without a test: true iff every element is exactly `true`; with one: true iff `test(elem, true)` holds for all elements; true on `[]` |
| Folds.Some | src/underbar.js:230-255 | without a test: true iff some element is truthy; with one: true iff some element passes; false on `[]` |
| Objects.ExtendedLastSourceWins | src/underbar.js:275-288 | keys are the target's plus every source's; a key some source has takes the value of the last such source; other keys keep the target's value |
| Objects.Extend | src/underbar.js:275-288 | returns the same object, whose properties become `Extended(old properties, sources)` |
| Objects.DefaultedKeepsPresentKeys | src/underbar.js:292-309 | a key present after any prefix of the sources keeps that value to the end |
| Objects.DefaultedFirstSourceWins | src/underbar.js:292-309 | keys are the target's plus every source's; a target key keeps its value; a new key takes the value of the first source that has it |
| Objects.Defaults | src/underbar.js:292-309 | returns the same object, whose properties become `Defaulted(old properties, sources)` |
| Decorators.Once.constructor | src/underbar.js:322-327 | starts not called, with no result and no invocation of `func` |
| Decorators.Once.Call | src/underbar.js:331-340 | afterwards `func` has run exactly once; the return value is `func` of the first call's arguments; later calls change nothing observable |
| Decorators.CallOnceRepeatedly | src/underbar.js:322-341 | any number of calls run `func` at most once (exactly once if there was a call), and all return the first call's result |
| Decorators.Memoized.constructor | src/underbar.js:351-353 | starts with an empty cache |
| Decorators.Memoized.Call | src/underbar.js:355-369 | returns `func(args)`; a truthy hit on `(args, length)` leaves cache and invocation count unchanged; a miss or a falsy hit stores the fresh result and runs `func` once more |
| Decorators.MemoizeTwice | src/underbar.js:351-370 | two calls run `func` once iff their arguments are equal and the result is truthy, otherwise twice |
| Advanced.SwapPermutation | src/underbar.js:409-411 | one swap keeps the multiset of entries |
| Advanced.ShuffleRounds | src/underbar.js:406-412 | the rounds keep the length of the array |
| Advanced.ShuffleRoundsPermutation | src/underbar.js:400-414 | after any number of rounds the entries form a permutation of the input |
| Advanced.ShuffleRoundsFirstSlot | src/underbar.js:406-412 | the first slot ends with `s[k]` when `k > 0` and with the last swapped-in entry when `k == 0`; entries no round has reached yet are unchanged |
| Advanced.ShuffleNeverKeepsOrder | src/underbar.js:406-412 | with two or more entries and a unique first entry, the output never equals the input order, for any `k` |
| Advanced.Shuffle | src/underbar.js:400-414 | a fresh array holding a permutation of the input, as the rounds of the single index `k` produce it; the input is not modified |
| Advanced.LeavesLength | src/underbar.js:466-485 | the flattened array has exactly one entry per non-array value |
| Advanced.LeavesConcat | src/underbar.js:478-481 | flattening a concatenation concatenates the flattenings |
| Advanced.FlattenFlat | src/underbar.js:466-485 | an already flat array flattens to itself |
| Advanced.FlattenExample | src/underbar.js:466-485 | `[1, [2, [3, [4]], 5]]` flattens to `[1, 2, 3, 4, 5]` |
| Advanced.Flatten | src/underbar.js:466-485 | the non-array leaves in left-to-right order, as many as the leaf count |

## Left out

- `_.delay`: it only hands the call to the host's `setTimeout`.
- `_.throttle`, `_.sortBy`, `_.zip`, `_.intersection` and `_.difference`:
  their bodies are empty, so there is no behaviour to model.
- `_.invoke`: it is dynamic method lookup by name, with `this` rebound
  through `apply`, and it ignores its `args` parameter.
- `Math.random` in `_.shuffle` becomes the parameter `k`. Its distribution
  is not modelled.
- The enumeration order of `for...in` is not modelled, and neither are
  inherited properties. Objects are Dafny maps. `EachObject` picks keys in
  any order.
- The string coercion of keys in `uniq`'s `storage` and `memoize`'s `cache`
  is not modelled, because it can conflate distinct values. `uniq` is generic
  over a type with equality. `memoize` takes integer arguments, where the
  coercion is the same as equality.
- Collections.Uniq, Objects.Defaults, Collections.Pluck: the lookups that see inherited
  `Object.prototype` properties are not modelled. `_.uniq` tests
  `!storage[elem]` on a plain `{}`, so `_.uniq(["toString"])` is `[]`, and so
  are `"constructor"`, `"valueOf"` and `"__proto__"`. `Uniq` gives
  `["toString"]`. `_.defaults` tests `key in obj`, which follows the
  prototype chain, so `_.defaults({}, {toString: 1})` adds no property, while
  `Defaulted(map[], [map["toString" := 1]])` holds `"toString"`. `_.pluck`
  reads `item[key]`, so `_.pluck([{}], "toString")` is
  `[Object.prototype.toString]`, while `Pluck` gives `[None]`. The model
  treats an object as its own properties only.
- The `this` binding in `func.apply(this, ...)` is not modelled.
- `_.each` ignores inputs that are neither arrays nor objects; the model does
  not cover that.
- `indexOf`, `filter`, `reject`, `map`, `pluck`, `reduce`, `contains`,
  `every` and `some` on objects are not modelled. These reach `each`'s object branch
  (the last three through `_.reduce`), but the model only has them on
  arrays.
- Side effects and exceptions of callbacks are not modelled, because
  callbacks are pure total functions. Likewise `collection` as the third
  argument to `each`'s callback.
- The `window._` namespace and the surrounding function wrapper are host
  plumbing.
- Floating-point numbers: `Value` has integers only, so NaN, -0 and
  fractions are not modelled.
- Folds.Reduce: elements, seed and callback results are primitive `Value`s,
  because the no-seed test is `=== undefined`. A composite seed, as in
  `_.reduce(xs, (acc, x) => acc.concat([x]), [])`, is never `undefined`. It is
  therefore covered by the generic seeded `ReduceFrom`, which models that
  case exactly, and not by `Reduce` itself.
- Folds.Every, Folds.Some: elements are primitive `Value`s, because the
  default tests (`=== true`, truthiness) need JavaScript values. `some`'s
  callback-driven walk through `_.every` is its own loop, since a Dafny
  callback cannot set `state`.
- Decorators.Memoized.Call: results are primitive `Value`s so that the hit
  test can use truthiness.
- Objects.Extend: sources are map values taken at the start of the call,
  so the model does not cover the target object itself passed again as a
  later source. There `_.extend` copies the target's already updated
  properties onto itself: `_.extend(o, {x: 2}, o)` with `o = {x: 1}` leaves
  `x` at 2, while `Extended({x: 1}, [{x: 2}, {x: 1}])` gives 1.
- Objects.Defaults: sources are map values, so the model does not cover the
  target object passed as a source. That aliasing does not change the result
  of `_.defaults`, because it only adds keys that are missing, and the
  target's own keys are never missing.
- Inputs are Dafny sequences, which are immutable, with two exceptions: the
  array given to `_.shuffle`, and the target `Obj` that `Extend` and
  `Defaults` change by contract. For every other input, "the input is not
  modified" holds by construction: in `uniq`, for
  example, the `slice()` copy is a plain assignment.
