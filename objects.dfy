/** `_.extend` and `_.defaults`: merge the own properties of source objects
    into a target object, which both mutate in place and return. */
module Objects {

  /** A JavaScript object, reduced to its own enumerable properties. */
  class Obj<V> {
    var props: map<string, V>

    constructor (props: map<string, V>)
      ensures this.props == props
    {
      this.props := props;
    }
  }

  /** The properties after `_.extend`: every source in turn overwrites the keys it has. */
  function Extended<V>(target: map<string, V>, sources: seq<map<string, V>>): map<string, V>
  {
    if sources == [] then target
    else Extended(target, sources[..|sources| - 1]) + sources[|sources| - 1]
  }

  /** The properties after `_.defaults`: every source in turn adds only the
      keys not present yet. */
  function Defaulted<V>(target: map<string, V>, sources: seq<map<string, V>>): map<string, V>
  {
    if sources == [] then target
    else
      var merged := Defaulted(target, sources[..|sources| - 1]);
      merged + (sources[|sources| - 1] - merged.Keys)
  }

  /** After `_.extend` the keys are those of the target and of every source;
      a key some source has takes its value from the last source that has it,
      and every other key keeps the target's value. */
  lemma {:induction false} ExtendedLastSourceWins<V>(target: map<string, V>, sources: seq<map<string, V>>, key: string)
    ensures key in Extended(target, sources) <==>
      key in target || exists j :: 0 <= j < |sources| && key in sources[j]
    ensures forall j ::
      (0 <= j < |sources| && key in sources[j] && forall j' :: j < j' < |sources| ==> key !in sources[j'])
      ==> Extended(target, sources)[key] == sources[j][key]
    ensures (forall j :: 0 <= j < |sources| ==> key !in sources[j]) && key in target ==>
      Extended(target, sources)[key] == target[key]
  {
    if sources != [] {
      var n := |sources| - 1;
      ExtendedLastSourceWins(target, sources[..n], key);
      assert forall j :: 0 <= j < n ==> sources[..n][j] == sources[j];
    }
  }

  /** `_.defaults` never changes a key once it is present: not a key of the
      target, nor one an earlier source added. */
  lemma {:induction false} DefaultedKeepsPresentKeys<V>(target: map<string, V>, sources: seq<map<string, V>>, m: nat)
    requires m <= |sources|
    ensures forall key :: key in Defaulted(target, sources[..m]) ==>
      key in Defaulted(target, sources) &&
      Defaulted(target, sources)[key] == Defaulted(target, sources[..m])[key]
  {
    if m < |sources| {
      var n := |sources| - 1;
      assert sources[..n][..m] == sources[..m];
      DefaultedKeepsPresentKeys(target, sources[..n], m);
    } else {
      assert sources[..m] == sources;
    }
  }

  /** After `_.defaults` the keys are those of the target and of every source;
      a key of the target keeps its value, and any other key takes its value
      from the first source that has it. */
  lemma {:induction false} DefaultedFirstSourceWins<V>(target: map<string, V>, sources: seq<map<string, V>>, key: string)
    ensures key in Defaulted(target, sources) <==>
      key in target || exists j :: 0 <= j < |sources| && key in sources[j]
    ensures key in target ==> Defaulted(target, sources)[key] == target[key]
    ensures forall j ::
      (0 <= j < |sources| && key !in target && key in sources[j] && forall j' :: 0 <= j' < j ==> key !in sources[j'])
      ==> Defaulted(target, sources)[key] == sources[j][key]
  {
    if sources != [] {
      var n := |sources| - 1;
      DefaultedFirstSourceWins(target, sources[..n], key);
      assert forall j :: 0 <= j < n ==> sources[..n][j] == sources[j];
    }
  }

  /** `_.extend(obj, ...sources)`: for each source, for each of its keys,
      `obj[key] = source[key]`; returns `obj` itself. */
  method Extend<V>(obj: Obj<V>, sources: seq<map<string, V>>) returns (extendedObj: Obj<V>)
    modifies obj
    ensures extendedObj == obj
    ensures obj.props == Extended(old(obj.props), sources)
  {
    extendedObj := obj;
    for index := 0 to |sources|
      invariant obj.props == Extended(old(obj.props), sources[..index])
    {
      assert sources[..index + 1][..index] == sources[..index];
      var argObj := sources[index];
      ghost var before := obj.props;
      var keys := argObj.Keys;
      while keys != {}
        invariant keys <= argObj.Keys
        invariant obj.props == before + (argObj - keys)
        decreases keys
      {
        var key :| key in keys;
        extendedObj.props := extendedObj.props[key := argObj[key]];
        keys := keys - {key};
      }
      assert argObj - {} == argObj;
    }
    assert sources[..|sources|] == sources;
  }

  /** `_.defaults(obj, ...sources)`: like `_.extend`, but assigns `obj[key]`
      only when `key in obj` does not hold yet; returns `obj` itself. */
  method Defaults<V>(obj: Obj<V>, sources: seq<map<string, V>>) returns (extendedObj: Obj<V>)
    modifies obj
    ensures extendedObj == obj
    ensures obj.props == Defaulted(old(obj.props), sources)
  {
    extendedObj := obj;
    for index := 0 to |sources|
      invariant obj.props == Defaulted(old(obj.props), sources[..index])
    {
      assert sources[..index + 1][..index] == sources[..index];
      var argObj := sources[index];
      ghost var before := obj.props;
      var keys := argObj.Keys;
      while keys != {}
        invariant keys <= argObj.Keys
        invariant obj.props == before + ((argObj - keys) - before.Keys)
        decreases keys
      {
        var key :| key in keys;
        if key !in extendedObj.props {
          extendedObj.props := extendedObj.props[key := argObj[key]];
        }
        keys := keys - {key};
      }
      assert argObj - {} == argObj;
    }
    assert sources[..|sources|] == sources;
  }
}
