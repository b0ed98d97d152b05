/// SerializableDictionary and its two reference variants: a dictionary that
/// copies itself into parallel key and value lists before Unity serializes
/// it, and rebuilds itself from them afterwards. The three classes differ
/// only in how Unity stores the lists, so one class models all three.
module SerializableDictionaries {
  import opened Collections

  /// The keys of a list of entries, in order.
  function KeysOf<K, V>(entries: seq<(K, V)>): (ks: seq<K>)
    ensures |ks| == |entries|
    ensures forall i :: 0 <= i < |entries| ==> ks[i] == entries[i].0
  {
    if entries == [] then [] else [entries[0].0] + KeysOf(entries[1..])
  }

  function ValuesOf<K, V>(entries: seq<(K, V)>): (vs: seq<V>)
    ensures |vs| == |entries|
    ensures forall i :: 0 <= i < |entries| ==> vs[i] == entries[i].1
  {
    if entries == [] then [] else [entries[0].1] + ValuesOf(entries[1..])
  }

  /// The entries keys[i] -> values[i].
  function Zip<K, V>(keys: seq<K>, values: seq<V>): (entries: seq<(K, V)>)
    requires |keys| == |values|
    ensures |entries| == |keys|
    ensures forall i :: 0 <= i < |keys| ==> entries[i] == (keys[i], values[i])
  {
    if keys == [] then [] else [(keys[0], values[0])] + Zip(keys[1..], values[1..])
  }

  /// Splitting entries into keys and values and zipping them back is the identity.
  lemma ZipOfParts<K, V>(entries: seq<(K, V)>)
    ensures Zip(KeysOf(entries), ValuesOf(entries)) == entries
  {
  }

  /// The lookup a list of entries with distinct keys stands for.
  ghost function AsMap<K, V>(entries: seq<(K, V)>): map<K, V>
    decreases |entries|
  {
    if entries == [] then map[] else AsMap(entries[..|entries| - 1])[entries[|entries| - 1].0 := entries[|entries| - 1].1]
  }

  /// With distinct keys, the map sends each key to the value stored beside it.
  lemma {:induction false} AsMapLookup<K, V>(entries: seq<(K, V)>, i: nat)
    requires Distinct(KeysOf(entries)) && i < |entries|
    ensures entries[i].0 in AsMap(entries) && AsMap(entries)[entries[i].0] == entries[i].1
    decreases |entries|
  {
    var n := |entries|;
    var front := entries[..n - 1];
    if i < n - 1 {
      assert KeysOf(entries)[i] != KeysOf(entries)[n - 1];
      assert Distinct(KeysOf(front)) by {
        forall a, b | 0 <= a < b < |front| ensures KeysOf(front)[a] != KeysOf(front)[b] {
          assert KeysOf(entries)[a] != KeysOf(entries)[b];
        }
      }
      AsMapLookup(front, i);
    }
  }

  /// Deserializing equal-length lists with distinct keys yields exactly the
  /// mapping keys[i] -> values[i].
  lemma ZipLookup<K, V>(keys: seq<K>, values: seq<V>, i: nat)
    requires |keys| == |values| && Distinct(keys) && i < |keys|
    ensures keys[i] in AsMap(Zip(keys, values)) && AsMap(Zip(keys, values))[keys[i]] == values[i]
  {
    assert KeysOf(Zip(keys, values)) == keys;
    AsMapLookup(Zip(keys, values), i);
  }

  /// The entries of the first i + 1 pairs are those of the first i and the
  /// pair i.
  lemma ZipSnoc<K, V>(keys: seq<K>, values: seq<V>, i: nat)
    requires |keys| == |values| && i < |keys|
    ensures Zip(keys[..i + 1], values[..i + 1]) == Zip(keys[..i], values[..i]) + [(keys[i], values[i])]
  {
    var lhs := Zip(keys[..i + 1], values[..i + 1]);
    var rhs := Zip(keys[..i], values[..i]) + [(keys[i], values[i])];
    assert |lhs| == |rhs|;
    forall k | 0 <= k < |lhs|
      ensures lhs[k] == rhs[k]
    {
      if k < i {
        assert rhs[k] == Zip(keys[..i], values[..i])[k];
      }
    }
  }

  /// Dictionary.Add on a list of entries: throws (false, nothing added)
  /// when the key is present, and otherwise appends the entry.
  method AddEntry<K(==), V>(entries: seq<(K, V)>, key: K, value: V) returns (ok: bool, entries': seq<(K, V)>)
    ensures ok <==> key !in KeysOf(entries)
    ensures ok ==> entries' == entries + [(key, value)]
    ensures !ok ==> entries' == entries
    ensures Distinct(KeysOf(entries)) ==> Distinct(KeysOf(entries'))
  {
    if key in KeysOf(entries) {
      return false, entries;
    }
    entries' := entries + [(key, value)];
    assert KeysOf(entries') == KeysOf(entries) + [key];
    ok := true;
  }

  /// The dictionary's entries are kept in enumeration order, which for a
  /// dictionary that is only ever added to is the order of the additions.
  class SerializableDictionary<K(==), V> {
    var entries: seq<(K, V)>
    var keys: seq<K>
    var values: seq<V>

    ghost predicate Valid()
      reads this
    {
      Distinct(KeysOf(entries))
    }

    /// Dictionary.Add: throws (false, nothing added) when the key is present.
    method Add(key: K, value: V) returns (ok: bool)
      modifies this`entries
      ensures ok <==> key !in old(KeysOf(entries))
      ensures ok ==> entries == old(entries) + [(key, value)]
      ensures !ok ==> entries == old(entries)
      ensures old(Valid()) ==> Valid()
    {
      ok, entries := AddEntry(entries, key, value);
    }

    /// OnBeforeSerialize: the lists are cleared and refilled from the entries.
    method OnBeforeSerialize()
      modifies this`keys, this`values
      ensures keys == KeysOf(entries) && values == ValuesOf(entries)
      ensures |keys| == |values| == |entries|
      ensures forall i :: 0 <= i < |keys| ==> (keys[i], values[i]) == entries[i]
    {
      keys := [];
      values := [];
      for i := 0 to |entries|
        invariant keys == KeysOf(entries[..i]) && values == ValuesOf(entries[..i])
      {
        assert entries[..i + 1] == entries[..i] + [entries[i]];
        assert KeysOf(entries[..i + 1]) == KeysOf(entries[..i]) + [entries[i].0];
        assert ValuesOf(entries[..i + 1]) == ValuesOf(entries[..i]) + [entries[i].1];
        keys := keys + [entries[i].0];
        values := values + [entries[i].1];
      }
      assert entries[..|entries|] == entries;
    }

    /// OnAfterDeserialize: the dictionary is cleared, then refilled from the
    /// lists. Unequal lengths throw with the dictionary left empty; a
    /// repeated key makes Add throw with the entries before it kept.
    method OnAfterDeserialize() returns (ok: bool)
      modifies this`entries
      ensures ok <==> |keys| == |values| && Distinct(keys)
      ensures ok ==> entries == Zip(keys, values)
      ensures |keys| != |values| ==> entries == []
      ensures Valid()
    {
      entries := [];
      if |keys| != |values| {
        return false;
      }
      var es: seq<(K, V)> := [];
      for i := 0 to |keys|
        invariant es == Zip(keys[..i], values[..i])
        invariant KeysOf(es) == keys[..i] && Distinct(keys[..i])
      {
        assert keys[..i + 1] == keys[..i] + [keys[i]];
        ok, es := AddEntry(es, keys[i], values[i]);
        if !ok {
          assert !Distinct(keys) by {
            var j :| 0 <= j < i && keys[j] == keys[i];
          }
          entries := es;
          return false;
        }
        ZipSnoc(keys, values, i);
      }
      assert keys[..|keys|] == keys && values[..|values|] == values;
      entries := es;
      ok := true;
    }

    /// Serializing and then deserializing restores the dictionary.
    method RoundTrip() returns (ok: bool)
      requires Valid()
      modifies this
      ensures ok && entries == old(entries)
    {
      OnBeforeSerialize();
      ZipOfParts(entries);
      ok := OnAfterDeserialize();
    }
  }
}
