/** `_.first` and `_.last`: prefixes and suffixes of an array, written with
    the host's `Array.prototype.slice`, whose negative indices count from the
    end of the array. */
module Positional {
  import opened Values

  /** How `slice` turns a possibly negative index into a position in `0..len`. */
  function RelativeIndex(i: int, len: nat): (r: nat)
    ensures r <= len
    ensures 0 <= i ==> r == if i < len then i else len
    ensures i < 0 ==> r == if len + i < 0 then 0 else len + i
  {
    if i < 0 then (if len + i < 0 then 0 else len + i)
    else if i < len then i else len
  }

  /** `s.slice(start, end)`: the elements between the two resolved indices. */
  function Slice<T>(s: seq<T>, start: int, end: int): (r: seq<T>)
    ensures |r| <= |s|
  {
    var b, e := RelativeIndex(start, |s|), RelativeIndex(end, |s|);
    if b <= e then s[b..e] else []
  }

  /** `_.first(arr)`: the first element, or `undefined` on an empty array. */
  function First<T>(arr: seq<T>): (r: Option<T>)
    ensures r.Some? <==> |arr| > 0
    ensures r.Some? ==> r.value == arr[0]
  {
    if |arr| > 0 then Some(arr[0]) else None
  }

  /** `_.first(arr, n)`: `array.slice(0, n)`, a prefix of the array. */
  function FirstN<T>(arr: seq<T>, n: int): (r: seq<T>)
    ensures r <= arr
    ensures 0 <= n ==> |r| == if n < |arr| then n else |arr|
    ensures n < 0 ==> |r| == if |arr| + n < 0 then 0 else |arr| + n
  {
    Slice(arr, 0, n)
  }

  /** `_.last(arr)`: the last element, or `undefined` on an empty array. */
  function Last<T>(arr: seq<T>): (r: Option<T>)
    ensures r.Some? <==> |arr| > 0
    ensures r.Some? ==> r.value == arr[|arr| - 1]
  {
    if |arr| > 0 then Some(arr[|arr| - 1]) else None
  }

  /** `_.last(arr, n)`: `[]` when `n` is 0, otherwise `array.slice(-n)`, a
      suffix of the array. */
  function LastN<T>(arr: seq<T>, n: int): (r: seq<T>)
    ensures |r| <= |arr| && r == arr[|arr| - |r|..]
    ensures 0 <= n ==> |r| == if n < |arr| then n else |arr|
    ensures n < 0 ==> |r| == if |arr| + n < 0 then 0 else |arr| + n
  {
    if n == 0 then [] else Slice(arr, -n, |arr|)
  }

  /** Without the `n === 0` guard, `slice(-0)` would return the whole array. */
  lemma LastZeroNeedsGuard<T>(arr: seq<T>)
    ensures LastN(arr, 0) == []
    ensures Slice(arr, -0, |arr|) == arr
  {
  }

  /** A prefix and the complementary suffix put the array back together. */
  lemma FirstLastSplit<T>(arr: seq<T>, n: nat)
    requires n <= |arr|
    ensures FirstN(arr, n) + LastN(arr, |arr| - n) == arr
  {
    var p, q := FirstN(arr, n), LastN(arr, |arr| - n);
    assert p == arr[..n];
    assert q == arr[n..];
    assert arr[..n] + arr[n..] == arr;
  }

  /** The one-element forms agree with the counted forms for `n == 1`. */
  lemma EndsAgreeWithCountedForms<T>(arr: seq<T>)
    requires |arr| > 0
    ensures FirstN(arr, 1) == [First(arr).value]
    ensures LastN(arr, 1) == [Last(arr).value]
  {
  }
}
