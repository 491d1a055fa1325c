/** The iteration kernel `_.each` and the sequence operators built on its
    index walk: `indexOf`, `filter`, `reject`, `uniq`, `map` and `pluck`.
    In underbar.js each of these hands `_.each` a callback that pushes into,
    or assigns to, a variable of its own closure; here each is a method whose
    loop is that walk, in ascending index order. */
module Collections {
  import opened Values

  /** One call `callback(value, key, collection)` made by `_.each`. The third
      argument is always the collection itself and is not recorded. */
  datatype Invocation<V, K> = Invocation(value: V, key: K)

  /** `_.each` on an array: the calls it makes, in the order it makes them. */
  method Each<T>(collection: seq<T>) returns (calls: seq<Invocation<T, nat>>)
    ensures |calls| == |collection|
    ensures forall i :: 0 <= i < |collection| ==> calls[i] == Invocation(collection[i], i)
  {
    calls := [];
    for i := 0 to |collection|
      invariant |calls| == i
      invariant forall j :: 0 <= j < i ==> calls[j] == Invocation(collection[j], j)
    {
      calls := calls + [Invocation(collection[i], i)];
    }
  }

  /** `_.each` on an object: one call per own key, in the host's enumeration
      order, which is left unspecified (each step picks any key not yet seen). */
  method EachObject<K, V>(collection: map<K, V>) returns (calls: seq<Invocation<V, K>>)
    ensures |calls| == |collection|
    ensures forall j :: 0 <= j < |calls| ==>
      calls[j].key in collection && calls[j].value == collection[calls[j].key]
    ensures forall j, j' :: 0 <= j < j' < |calls| ==> calls[j].key != calls[j'].key
    ensures forall key :: key in collection ==> exists j :: 0 <= j < |calls| && calls[j].key == key
  {
    calls := [];
    var remaining := collection.Keys;
    while remaining != {}
      invariant remaining <= collection.Keys
      invariant |calls| + |remaining| == |collection.Keys|
      invariant forall j :: 0 <= j < |calls| ==>
        calls[j].key in collection.Keys - remaining && calls[j].value == collection[calls[j].key]
      invariant forall j, j' :: 0 <= j < j' < |calls| ==> calls[j].key != calls[j'].key
      invariant forall key :: key in collection.Keys - remaining ==>
        exists j :: 0 <= j < |calls| && calls[j].key == key
      decreases remaining
    {
      var key :| key in remaining;
      ghost var before, unseen := calls, remaining;
      calls := calls + [Invocation(collection[key], key)];
      remaining := remaining - {key};
      forall seen | seen in collection.Keys - remaining
        ensures exists j :: 0 <= j < |calls| && calls[j].key == seen
      {
        if seen == key {
          assert calls[|before|].key == seen;
        } else {
          assert seen in collection.Keys - unseen;
          var j :| 0 <= j < |before| && before[j].key == seen;
          assert calls[j].key == seen;
        }
      }
    }
    assert collection.Keys - remaining == collection.Keys;
  }

  /** The least index holding `x`, or -1: the meaning of `_.indexOf`. */
  function FirstIndex<T(==)>(s: seq<T>, x: T): (i: int)
    ensures -1 <= i < |s|
    ensures i == -1 <==> x !in s
    ensures 0 <= i ==> s[i] == x && x !in s[..i]
  {
    if s == [] then -1
    else if s[0] == x then 0
    else
      var j := FirstIndex(s[1..], x);
      assert j >= 0 ==> s[1..][..j] == s[1..j + 1];
      assert s == [s[0]] + s[1..];
      if j == -1 then -1 else j + 1
  }

  /** `_.indexOf`: walks the whole array and records the first matching
      index, leaving `result` alone once it is no longer -1. */
  method IndexOf<T(==)>(arr: seq<T>, target: T) returns (result: int)
    ensures -1 <= result < |arr|
    ensures result == -1 <==> target !in arr
    ensures 0 <= result ==> arr[result] == target && target !in arr[..result]
    ensures result == FirstIndex(arr, target)
  {
    result := -1;
    for index := 0 to |arr|
      invariant -1 <= result < index
      invariant result == -1 <==> target !in arr[..index]
      invariant 0 <= result ==> arr[result] == target && target !in arr[..result]
    {
      assert arr[..index + 1] == arr[..index] + [arr[index]];
      if arr[index] == target && result == -1 {
        result := index;
      }
    }
    assert arr[..|arr|] == arr;
  }

  /** The elements of `s` whose test `test(element, index)` holds, in order. */
  function Kept<T>(s: seq<T>, test: (T, int) -> bool): seq<T>
  {
    if s == [] then []
    else
      var n := |s| - 1;
      Kept(s[..n], test) + if test(s[n], n) then [s[n]] else []
  }

  /** The indices whose elements pass `test`, in increasing order. */
  function KeptIndices<T>(s: seq<T>, test: (T, int) -> bool): seq<int>
  {
    if s == [] then []
    else
      var n := |s| - 1;
      KeptIndices(s[..n], test) + if test(s[n], n) then [n] else []
  }

  /** `Kept` holds exactly the passing elements, in their original order:
      it is `s` read at the strictly increasing sequence of passing indices. */
  lemma {:induction false} KeptExactlyPassing<T>(s: seq<T>, test: (T, int) -> bool)
    ensures |Kept(s, test)| == |KeptIndices(s, test)|
    ensures forall j :: 0 <= j < |KeptIndices(s, test)| ==>
      0 <= KeptIndices(s, test)[j] < |s| && Kept(s, test)[j] == s[KeptIndices(s, test)[j]]
    ensures forall j, j' :: 0 <= j < j' < |KeptIndices(s, test)| ==>
      KeptIndices(s, test)[j] < KeptIndices(s, test)[j']
    ensures forall i :: 0 <= i < |s| ==> (i in KeptIndices(s, test) <==> test(s[i], i))
  {
    if s != [] {
      var n := |s| - 1;
      KeptExactlyPassing(s[..n], test);
      var p := s[..n];
      forall i | 0 <= i < n
        ensures s[i] == p[i]
      {
      }
    }
  }

  /** `_.filter`: pushes each element whose test passes. */
  method Filter<T>(collection: seq<T>, test: (T, int) -> bool) returns (result: seq<T>)
    ensures result == Kept(collection, test)
  {
    result := [];
    for index := 0 to |collection|
      invariant result == Kept(collection[..index], test)
    {
      assert collection[..index + 1][..index] == collection[..index];
      if test(collection[index], index) {
        result := result + [collection[index]];
      }
    }
    assert collection[..|collection|] == collection;
  }

  /** The callback `_.reject` hands to `_.filter`: it passes only the element
      to `test`, never the index. */
  function Negated<T>(test: T -> bool): (T, int) -> bool
  {
    (elem, index) => !test(elem)
  }

  /** A test that looks at the element only. */
  function OnElement<T>(test: T -> bool): (T, int) -> bool
  {
    (elem, index) => test(elem)
  }

  /** `_.reject` is `_.filter` with the negated test. */
  method Reject<T>(collection: seq<T>, test: T -> bool) returns (result: seq<T>)
    ensures result == Kept(collection, Negated(test))
  {
    result := Filter(collection, Negated(test));
  }

  /** What `filter` and `reject` keep for the same element test partitions the
      input: the two results are as long as the input together. */
  lemma {:induction false} FilterRejectPartition<T>(s: seq<T>, test: T -> bool)
    ensures |Kept(s, OnElement(test))| + |Kept(s, Negated(test))| == |s|
  {
    if s != [] {
      FilterRejectPartition(s[..|s| - 1], test);
    }
  }

  /** An element is in the `reject` result exactly when it occurs in the input
      at a position whose element fails the test. */
  lemma RejectMembers<T>(s: seq<T>, test: T -> bool, x: T)
    ensures x in Kept(s, Negated(test)) <==> x in s && !test(x)
  {
    KeptExactlyPassing(s, Negated(test));
    var r, idx := Kept(s, Negated(test)), KeptIndices(s, Negated(test));
    if x in r {
      var j :| 0 <= j < |r| && r[j] == x;
      assert s[idx[j]] == x;
    }
    if x in s && !test(x) {
      var i :| 0 <= i < |s| && s[i] == x;
      assert Negated(test)(s[i], i);
      assert i in idx;
      var j :| 0 <= j < |idx| && idx[j] == i;
      assert r[j] == x;
    }
  }

  /** `_.map`: pushes `callback(elem, index)` for every element. */
  method Map<T, U>(collection: seq<T>, callback: (T, int) -> U) returns (result: seq<U>)
    ensures |result| == |collection|
    ensures forall i :: 0 <= i < |collection| ==> result[i] == callback(collection[i], i)
  {
    result := [];
    for index := 0 to |collection|
      invariant |result| == index
      invariant forall i :: 0 <= i < index ==> result[i] == callback(collection[i], i)
    {
      result := result + [callback(collection[index], index)];
    }
  }

  /** `item[key]` for an object `item`: `undefined` when the key is absent. */
  function Property<K, V>(item: map<K, V>, key: K): Option<V>
  {
    if key in item then Some(item[key]) else None
  }

  /** `_.pluck`: `_.map` with a callback that reads one property. */
  method Pluck<K, V>(collection: seq<map<K, V>>, key: K) returns (result: seq<Option<V>>)
    ensures |result| == |collection|
    ensures forall i :: 0 <= i < |collection| ==>
      (result[i].Some? <==> key in collection[i]) &&
      (result[i].Some? ==> result[i].value == collection[i][key])
  {
    result := Map(collection, (item, index) => Property(item, key));
  }

  /** The first occurrence of every distinct value, in order of appearance. */
  function Deduplicated<T(==)>(s: seq<T>): seq<T>
  {
    if s == [] then []
    else
      var n := |s| - 1;
      var p := Deduplicated(s[..n]);
      if s[n] in s[..n] then p else p + [s[n]]
  }

  /** No value occurs twice in a sequence. */
  ghost predicate NoDuplicates<T>(s: seq<T>)
  {
    forall j, j' :: 0 <= j < j' < |s| ==> s[j] != s[j']
  }

  /** The deduplicated sequence holds exactly the input's values. */
  lemma {:induction false} DeduplicatedSameValues<T>(s: seq<T>)
    ensures forall x :: x in Deduplicated(s) ==> x in s
    ensures forall x :: x in s ==> x in Deduplicated(s)
  {
    if s != [] {
      var n := |s| - 1;
      DeduplicatedSameValues(s[..n]);
      assert s == s[..n] + [s[n]];
    }
  }

  /** The deduplicated sequence has no repeated value. */
  lemma {:induction false} DeduplicatedNoDuplicates<T>(s: seq<T>)
    ensures NoDuplicates(Deduplicated(s))
  {
    if s != [] {
      var n := |s| - 1;
      DeduplicatedNoDuplicates(s[..n]);
      DeduplicatedSameValues(s[..n]);
    }
  }

  /** The first occurrence of a value in a prefix is its first occurrence in
      the whole sequence. */
  lemma FirstIndexInPrefix<T>(s: seq<T>, n: nat, x: T)
    requires n <= |s| && x in s[..n]
    ensures FirstIndex(s, x) == FirstIndex(s[..n], x)
  {
    var k := FirstIndex(s[..n], x);
    assert s[..n][..k] == s[..k];
  }

  /** The deduplicated values come in the order of their first occurrences. */
  lemma {:induction false} DeduplicatedFirstOccurrenceOrder<T>(s: seq<T>)
    ensures forall j, j' :: 0 <= j < j' < |Deduplicated(s)| ==>
      FirstIndex(s, Deduplicated(s)[j]) < FirstIndex(s, Deduplicated(s)[j'])
  {
    if s != [] {
      var n := |s| - 1;
      var p := s[..n];
      DeduplicatedFirstOccurrenceOrder(p);
      DeduplicatedSameValues(p);
      var d := Deduplicated(s);
      forall j | 0 <= j < |Deduplicated(p)|
        ensures FirstIndex(s, Deduplicated(p)[j]) == FirstIndex(p, Deduplicated(p)[j])
      {
        assert Deduplicated(p)[j] in Deduplicated(p);
        FirstIndexInPrefix(s, n, Deduplicated(p)[j]);
      }
      if s[n] !in p {
        assert FirstIndex(s, s[n]) == n by {
          assert s[..n] == p;
        }
        forall j | 0 <= j < |Deduplicated(p)|
          ensures FirstIndex(s, d[j]) < n
        {
          assert d[j] == Deduplicated(p)[j];
        }
      }
    }
  }

  /** `_.uniq`: copies the array, then pushes each element whose entry in the
      `storage` table is not yet truthy and sets that entry to 1. */
  method Uniq<T(==)>(arr: seq<T>) returns (result: seq<T>)
    ensures result == Deduplicated(arr)
    ensures NoDuplicates(result)
    ensures forall x :: x in result <==> x in arr
    ensures forall j, j' :: 0 <= j < j' < |result| ==>
      FirstIndex(arr, result[j]) < FirstIndex(arr, result[j'])
  {
    var copied := arr;
    result := [];
    var storage: map<T, int> := map[];
    for index := 0 to |copied|
      invariant result == Deduplicated(copied[..index])
      invariant forall x :: x in storage <==> x in copied[..index]
      invariant forall x :: x in storage ==> storage[x] == 1
    {
      var elem := copied[index];
      assert copied[..index + 1] == copied[..index] + [elem];
      var stored := if elem in storage then storage[elem] else 0;
      if stored == 0 {
        storage := storage[elem := 1];
        result := result + [elem];
      }
    }
    assert copied[..|copied|] == arr;
    DeduplicatedNoDuplicates(arr);
    DeduplicatedSameValues(arr);
    DeduplicatedFirstOccurrenceOrder(arr);
  }
}
