/** A JavaScript `Map` with string keys: lookup by key, and iteration over the values in the order
    in which their keys were first inserted. */
module OrderedMaps {
  import opened Sequences

  /** The values `m` holds at `keys`, in the order of `keys`. */
  function ValuesInOrder<V>(keys: seq<string>, m: map<string, V>): (r: seq<V>)
    requires forall i :: 0 <= i < |keys| ==> keys[i] in m
    ensures |r| == |keys|
    ensures forall i :: 0 <= i < |keys| ==> r[i] == m[keys[i]]
  {
    seq(|keys|, i requires 0 <= i < |keys| => m[keys[i]])
  }

  class OrderedMap<V> {
    /** Keys in insertion order. */
    var keys: seq<string>
    /** The value currently stored under each key. */
    var entries: map<string, V>

    ghost predicate Valid()
      reads this
    {
      Distinct(keys) && forall k :: k in entries <==> k in keys
    }

    constructor ()
      ensures Valid()
      ensures keys == [] && entries == map[]
    {
      keys := [];
      entries := map[];
    }

    /** `Map.prototype.set`: an existing key keeps its position and gets the new value;
        a new key is appended. */
    method Set(key: string, value: V)
      requires Valid()
      modifies this
      ensures Valid()
      ensures keys == if key in old(entries) then old(keys) else old(keys) + [key]
      ensures entries == old(entries)[key := value]
    {
      if key !in entries {
        keys := keys + [key];
      }
      entries := entries[key := value];
    }

    /** The values in insertion order of their keys, as `Array.from` iterates a `Map`. */
    function Values(): (r: seq<V>)
      reads this
      requires Valid()
      ensures |r| == |keys|
      ensures forall i :: 0 <= i < |keys| ==> r[i] == entries[keys[i]]
    {
      ValuesInOrder(keys, entries)
    }
  }
}
