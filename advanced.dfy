/** `_.shuffle` and `_.flatten`. */
module Advanced {

  /** `s` with the entries at `i` and `j` exchanged. */
  function Swap<T>(s: seq<T>, i: nat, j: nat): (r: seq<T>)
    requires i < |s| && j < |s|
    ensures |r| == |s|
  {
    s[i := s[j]][j := s[i]]
  }

  /** Exchanging two entries keeps the multiset of entries. */
  lemma SwapPermutation<T>(s: seq<T>, i: nat, j: nat)
    requires i < |s| && j < |s|
    ensures multiset(Swap(s, i, j)) == multiset(s)
  {
  }

  /** The copy after the first `m` rounds of `_.shuffle`'s loop, round `i`
      swapping position `i` with the one index `k` drawn before the loop. */
  function ShuffleRounds<T>(s: seq<T>, k: nat, m: nat): (r: seq<T>)
    requires m <= |s| && (m == 0 || k < |s|)
    ensures |r| == |s|
  {
    if m == 0 then s else Swap(ShuffleRounds(s, k, m - 1), m - 1, k)
  }

  /** Every round only exchanges two entries: the result is a permutation. */
  lemma {:induction false} ShuffleRoundsPermutation<T>(s: seq<T>, k: nat, m: nat)
    requires m <= |s| && (m == 0 || k < |s|)
    ensures multiset(ShuffleRounds(s, k, m)) == multiset(s)
  {
    if m > 0 {
      var previous := ShuffleRounds(s, k, m - 1);
      ShuffleRoundsPermutation(s, k, m - 1);
      SwapPermutation(previous, m - 1, k);
      assert ShuffleRounds(s, k, m) == Swap(previous, m - 1, k);
    }
  }

  /** Where the rounds leave the first slot: `s[k]` when `k > 0`, and the
      latest entry swapped in when `k == 0`; entries the rounds have not
      reached yet are untouched. */
  lemma {:induction false} ShuffleRoundsFirstSlot<T>(s: seq<T>, k: nat, m: nat)
    requires 1 <= m <= |s| && k < |s|
    ensures ShuffleRounds(s, k, m)[0] == if k == 0 then s[m - 1] else s[k]
    ensures forall j :: m <= j < |s| && j != k ==> ShuffleRounds(s, k, m)[j] == s[j]
  {
    ShuffleRoundsPermutation(s, k, m);
    if m > 1 {
      ShuffleRoundsFirstSlot(s, k, m - 1);
      ShuffleRoundsPermutation(s, k, m - 1);
    }
  }

  /** The single swap index makes `_.shuffle` biased: on an array of two or
      more entries whose first entry occurs nowhere else, the input order is
      never returned, whatever `k` is. */
  lemma ShuffleNeverKeepsOrder<T>(s: seq<T>, k: nat)
    requires |s| >= 2 && k < |s|
    requires forall j :: 0 < j < |s| ==> s[j] != s[0]
    ensures ShuffleRounds(s, k, |s|) != s
  {
    ShuffleRoundsFirstSlot(s, k, |s|);
  }

  /** `_.shuffle(input)`: copies the array, draws one index `k` (in underbar.js
      `Math.floor(Math.random() * length)`, so 0 for an empty array) and swaps
      every position in turn with position `k`. The input is not modified. */
  method Shuffle<T>(input: array<T>, k: nat) returns (copied: array<T>)
    requires k < input.Length || k == 0
    ensures fresh(copied)
    ensures copied[..] == ShuffleRounds(input[..], k, input.Length)
    ensures copied.Length == input.Length && multiset(copied[..]) == multiset(input[..])
  {
    copied := new T[input.Length](i requires 0 <= i < input.Length reads input => input[i]);
    assert copied[..] == input[..];
    for i := 0 to copied.Length
      invariant copied[..] == ShuffleRounds(input[..], k, i)
    {
      ghost var before := copied[..];
      var temp := copied[i];
      copied[i] := copied[k];
      assert copied[..] == before[i := before[k]];
      copied[k] := temp;
      assert copied[..] == Swap(before, i, k);
    }
    ShuffleRoundsPermutation(input[..], k, input.Length);
  }

  /** An element of a nested array: a non-array value, or an array of elements. */
  datatype Nested<T> = Leaf(value: T) | List(items: seq<Nested<T>>)

  /** The non-array values of one element, left to right. */
  function LeavesOf<T>(element: Nested<T>): seq<T>
    decreases element
  {
    match element
    case Leaf(x) => [x]
    case List(items) => Leaves(items)
  }

  /** The non-array values of a nested array, left to right. */
  function Leaves<T>(nested: seq<Nested<T>>): seq<T>
    decreases nested
  {
    if nested == [] then [] else Leaves(nested[..|nested| - 1]) + LeavesOf(nested[|nested| - 1])
  }

  /** How many non-array values an element holds, counted without building them. */
  function LeafCountOf<T>(element: Nested<T>): nat
    decreases element
  {
    match element
    case Leaf(_) => 1
    case List(items) => LeafCount(items)
  }

  /** How many non-array values a nested array holds. */
  function LeafCount<T>(nested: seq<Nested<T>>): nat
    decreases nested
  {
    if nested == [] then 0 else LeafCount(nested[..|nested| - 1]) + LeafCountOf(nested[|nested| - 1])
  }

  /** The flattened array has one entry per non-array value. */
  lemma {:induction false} LeavesLength<T>(nested: seq<Nested<T>>)
    ensures |Leaves(nested)| == LeafCount(nested)
    decreases nested, 1
  {
    if nested != [] {
      var n := |nested| - 1;
      LeavesLength(nested[..n]);
      LeavesOfLength(nested[n]);
    }
  }

  /** One element flattens to as many values as it holds. */
  lemma {:induction false} LeavesOfLength<T>(element: Nested<T>)
    ensures |LeavesOf(element)| == LeafCountOf(element)
    decreases element, 0
  {
    match element
    case Leaf(_) =>
    case List(items) => LeavesLength(items);
  }

  /** Flattening a concatenation concatenates the flattenings. */
  lemma {:induction false} LeavesConcat<T>(a: seq<Nested<T>>, b: seq<Nested<T>>)
    ensures Leaves(a + b) == Leaves(a) + Leaves(b)
  {
    if b == [] {
      assert a + b == a;
    } else {
      var n := |b| - 1;
      assert (a + b)[..|a + b| - 1] == a + b[..n];
      LeavesConcat(a, b[..n]);
    }
  }

  /** Flattening is idempotent: the flattened array, taken as an array of
      non-array values, flattens to itself. */
  lemma {:induction false} FlattenFlat<T>(values: seq<T>)
    ensures Leaves(seq(|values|, i requires 0 <= i < |values| => Leaf(values[i]))) == values
  {
    if values != [] {
      var n := |values| - 1;
      var lifted := seq(|values|, i requires 0 <= i < |values| => Leaf(values[i]));
      assert lifted[..n] == seq(n, i requires 0 <= i < n => Leaf(values[..n][i]));
      FlattenFlat(values[..n]);
      assert values == values[..n] + [values[n]];
    }
  }

  /** For example, `[1, [2, [3, [4]], 5]]` flattens to `[1, 2, 3, 4, 5]`. */
  lemma FlattenExample()
    ensures Leaves([Leaf(1), List([Leaf(2), List([Leaf(3), List([Leaf(4)])]), Leaf(5)])]) == [1, 2, 3, 4, 5]
  {
    var four := [Leaf(4)];
    assert Leaves(four) == [4] by { assert four[..0] == []; }
    var three := [Leaf(3), List(four)];
    assert Leaves(three) == [3, 4] by {
      assert three[..1] == [Leaf(3)] && [Leaf(3)][..0] == [];
      assert Leaves([Leaf(3)]) == [3];
      assert LeavesOf(List(four)) == [4];
    }
    var two := [Leaf(2), List(three), Leaf(5)];
    assert Leaves(two) == [2, 3, 4, 5] by {
      assert two[..2] == [Leaf(2), List(three)];
      assert [Leaf(2), List(three)][..1] == [Leaf(2)] && [Leaf(2)][..0] == [];
      assert Leaves([Leaf(2)]) == [2];
      assert LeavesOf(List(three)) == [3, 4];
      assert Leaves([Leaf(2), List(three)]) == [2, 3, 4];
    }
    var one := [Leaf(1), List(two)];
    assert one[..1] == [Leaf(1)] && [Leaf(1)][..0] == [];
    assert Leaves([Leaf(1)]) == [1];
    assert LeavesOf(List(two)) == [2, 3, 4, 5];
  }

  /** `_.flatten(nestedArray)`: pushes each non-array element and concatenates
      the flattening of each array element, recursively. */
  method Flatten<T>(nestedArray: seq<Nested<T>>) returns (result: seq<T>)
    ensures result == Leaves(nestedArray)
    ensures |result| == LeafCount(nestedArray)
    decreases nestedArray
  {
    result := [];
    for i := 0 to |nestedArray|
      invariant result == Leaves(nestedArray[..i])
    {
      assert nestedArray[..i + 1][..i] == nestedArray[..i];
      match nestedArray[i]
      case Leaf(x) =>
        result := result + [x];
      case List(items) =>
        var inner := Flatten(items);
        result := result + inner;
    }
    assert nestedArray[..|nestedArray|] == nestedArray;
    LeavesLength(nestedArray);
  }
}
