/// The editor's registry of dialog graph containers by id, and with it the
/// bookkeeping of which containers use which characters.
module UsagesHandlers {
  import opened Options
  import opened Collections
  import opened DialogData
  import opened DialogContainers

  /// Unity's conversion of an object to bool: false for null and for an
  /// object the engine has destroyed. Which objects are destroyed is the
  /// engine's state and is passed in.
  predicate Live(c: DialogGraphContainer?, destroyed: set<DialogGraphContainer>) {
    c != null && c !in destroyed
  }

  /// The usages (container ids) that are keys of the registry, in order.
  function Registered(usages: seq<Guid>, keys: set<Guid>): (r: seq<Guid>)
    ensures Subsequence(r, usages)
    ensures forall i :: 0 <= i < |r| ==> r[i] in keys && r[i] in usages
    ensures forall x :: multiset(r)[x] == if x in keys then multiset(usages)[x] else 0
  {
    if usages == [] then []
    else
      var rest := Registered(usages[1..], keys);
      assert usages == [usages[0]] + usages[1..];
      if usages[0] in keys then [usages[0]] + rest else rest
  }

  /// Filtering twice keeps what filtering once keeps.
  lemma {:induction false} RegisteredIdempotent(usages: seq<Guid>, keys: set<Guid>)
    ensures Registered(Registered(usages, keys), keys) == Registered(usages, keys)
  {
    if usages != [] {
      RegisteredIdempotent(usages[1..], keys);
      var rest := Registered(usages[1..], keys);
      if usages[0] in keys {
        assert ([usages[0]] + rest)[1..] == rest;
      }
    }
  }

  /// The names GetUsagesNames collects for usages: one for each registered
  /// usage, None when the registered container is gone and reading its
  /// name throws.
  function ContainerNames(usages: seq<Guid>, registry: map<Guid, DialogGraphContainer?>,
                   destroyed: set<DialogGraphContainer>): (r: Option<seq<string>>)
    reads registry.Values
    ensures r.Some? <==> forall i :: 0 <= i < |usages| && usages[i] in registry ==> Live(registry[usages[i]], destroyed)
  {
    if usages == [] then Some([])
    else
      var u := usages[0];
      assert forall i :: 1 <= i < |usages| ==> usages[i] == usages[1..][i - 1];
      match ContainerNames(usages[1..], registry, destroyed)
      case None => None
      case Some(rest) =>
        if u !in registry then Some(rest)
        else if !Live(registry[u], destroyed) then None
        else Some([registry[u].name] + rest)
  }

  /// The names are those of the containers the registered usages name, in
  /// the same order.
  lemma {:induction false} ContainerNamesRegistered(usages: seq<Guid>, registry: map<Guid, DialogGraphContainer?>,
                                             destroyed: set<DialogGraphContainer>)
    requires ContainerNames(usages, registry, destroyed).Some?
    ensures var names, ids := ContainerNames(usages, registry, destroyed).value, Registered(usages, registry.Keys);
      |names| == |ids| &&
      forall i :: 0 <= i < |ids| ==> Live(registry[ids[i]], destroyed) && names[i] == registry[ids[i]].name
  {
    if usages != [] {
      var u, tail := usages[0], usages[1..];
      assert ContainerNames(tail, registry, destroyed).Some?;
      ContainerNamesRegistered(tail, registry, destroyed);
      var rest, ids := ContainerNames(tail, registry, destroyed).value, Registered(tail, registry.Keys);
      var names, all := ContainerNames(usages, registry, destroyed).value, Registered(usages, registry.Keys);
      if u in registry {
        assert Live(registry[u], destroyed);
        assert all == [u] + ids;
        assert names == [registry[u].name] + rest;
        assert all[1..] == ids && names[1..] == rest;
        forall i | 1 <= i < |all|
          ensures Live(registry[all[i]], destroyed) && names[i] == registry[all[i]].name
        {
          assert all[i] == all[1..][i - 1] && names[i] == names[1..][i - 1];
        }
      } else {
        assert all == ids;
        assert names == rest;
      }
    }
  }

  /// p before the names, when there are names.
  function Prefixed(p: seq<string>, r: Option<seq<string>>): Option<seq<string>> {
    match r
    case None => None
    case Some(v) => Some(p + v)
  }

  lemma PrefixedEmpty(r: Option<seq<string>>)
    ensures Prefixed([], r) == r
  {
    if r.Some? {
      assert [] + r.value == r.value;
    }
  }

  lemma PrefixedAppend(p: seq<string>, q: seq<string>, r: Option<seq<string>>)
    ensures Prefixed(p, Prefixed(q, r)) == Prefixed(p + q, r)
  {
    if r.Some? {
      assert p + (q + r.value) == p + q + r.value;
    }
  }

  /// The entries the clean-up keeps: those whose container is live and is
  /// an asset.
  function Pruned(registry: map<Guid, DialogGraphContainer?>, destroyed: set<DialogGraphContainer>,
                  assets: set<DialogGraphContainer>): (r: map<Guid, DialogGraphContainer?>)
    ensures forall k :: k in r <==> k in registry && Live(registry[k], destroyed) && registry[k] in assets
    ensures forall k :: k in r ==> r[k] == registry[k]
  {
    map k | k in registry && Live(registry[k], destroyed) && registry[k] in assets :: registry[k]
  }

  /// The usages handler asset: the container the editor has open and the
  /// registry of containers by id.
  class DialogUtilityUsagesHandler {
    var currentContainer: DialogGraphContainer?
    var registry: map<Guid, DialogGraphContainer?>

    constructor ()
      ensures currentContainer == null && registry == map[]
    {
      currentContainer := null;
      registry := map[];
    }

    /// UpdateCharacterUsages: the usages whose containers are registered,
    /// in their order; the character's id plays no part.
    function UpdateCharacterUsages(charId: Guid, usages: seq<Guid>): (r: seq<Guid>)
      reads this
      ensures Subsequence(r, usages)
      ensures forall x :: x in r <==> x in usages && x in registry
      ensures forall x :: x in registry ==> multiset(r)[x] == multiset(usages)[x]
    {
      var r := Registered(usages, registry.Keys);
      assert forall x :: x in r <==> x in multiset(r);
      r
    }

    /// GetUsagesNames: the names of the registered containers among the
    /// usages, in order; None where a registered container is gone.
    method GetUsagesNames(usages: seq<Guid>, destroyed: set<DialogGraphContainer>) returns (names: Option<seq<string>>)
      ensures names == ContainerNames(usages, registry, destroyed)
    {
      var acc: seq<string> := [];
      assert usages[0..] == usages;
      PrefixedEmpty(ContainerNames(usages, registry, destroyed));
      for i := 0 to |usages|
        invariant Prefixed(acc, ContainerNames(usages[i..], registry, destroyed)) == ContainerNames(usages, registry, destroyed)
      {
        var usage := usages[i];
        assert usages[i..][1..] == usages[i + 1..];
        if usage in registry {
          var c := registry[usage];
          if !Live(c, destroyed) {
            return None;
          }
          assert ContainerNames(usages[i..], registry, destroyed) == Prefixed([c.name], ContainerNames(usages[i + 1..], registry, destroyed));
          PrefixedAppend(acc, [c.name], ContainerNames(usages[i + 1..], registry, destroyed));
          acc := acc + [c.name];
        }
      }
      assert usages[|usages|..] == [];
      assert acc + [] == acc;
      names := Some(acc);
    }

    /// ProcessIfCopy: a container whose id is registered to another
    /// container is a copy. The registry drops the id when that original is
    /// gone, and the copy is then processed. The new id is the one
    /// Guid.NewGuid gives, which no registered container has.
    method ProcessIfCopy(container: DialogGraphContainer, newId: Guid, characters: seq<CharacterData>,
                         destroyed: set<DialogGraphContainer>)
      returns (result: bool)
      requires newId !in registry
      modifies this`registry, container`id, characters
      ensures result <==> old(container.id) in old(registry) && old(registry)[old(container.id)] != container
      ensures !result ==> registry == old(registry) && container.id == old(container.id)
      ensures !result ==> forall c :: c in characters ==> c.usages == old(c.usages)
      ensures result ==> container.id == newId
      ensures result ==>
        registry == (if Live(old(registry)[old(container.id)], destroyed) then old(registry)
         else old(registry) - {old(container.id)})[newId := container]
      ensures result ==> forall c :: c in characters ==> c.usages == old(c.usages) + seq(multiset(characters)[c], _ => newId)
    {
      var id := container.id;
      result := id in registry && container != registry[id];
      if result {
        var original := registry[id];
        if !Live(original, destroyed) {
          registry := registry - {id};
        }
        ProcessCopy(container, newId, characters);
      }
    }

    /// _processCopy: the copy takes the new id and is registered under it,
    /// and every global character record lists the new id among its usages
    /// once for each time the list holds it.
    method ProcessCopy(copy: DialogGraphContainer, newId: Guid, characters: seq<CharacterData>)
      requires newId !in registry
      modifies this`registry, copy`id, characters
      ensures copy.id == newId && registry == old(registry)[newId := copy]
      ensures forall c :: c in characters ==> c.usages == old(c.usages) + seq(multiset(characters)[c], _ => newId)
    {
      copy.id := newId;
      registry := registry[newId := copy];
      for i := 0 to |characters|
        invariant copy.id == newId && registry == old(registry)[newId := copy]
        invariant forall c :: c in characters ==> c.usages == old(c.usages) + seq(multiset(characters[..i])[c], _ => newId)
      {
        var data := characters[i];
        assert multiset(characters[..i + 1]) == multiset(characters[..i]) + multiset{data} by {
          assert characters[..i + 1] == characters[..i] + [data];
        }
        assert seq(multiset(characters[..i])[data] + 1, _ => newId)
            == seq(multiset(characters[..i])[data], _ => newId) + [newId];
        data.usages := data.usages + [newId];
      }
      assert characters[..|characters|] == characters;
    }

    /// UpdateDictionaryOfIdsAndContainers: drops every entry whose container
    /// is gone or is not an asset, then registers the current container
    /// under its id when it is live and the id is missing.
    method UpdateDictionaryOfIdsAndContainers(destroyed: set<DialogGraphContainer>, assets: set<DialogGraphContainer>)
      modifies this`registry
      ensures var pruned := Pruned(old(registry), destroyed, assets);
        registry == if Live(currentContainer, destroyed) && currentContainer.id !in pruned
          then pruned[currentContainer.id := currentContainer] else pruned
      ensures forall k :: k in registry ==> Live(registry[k], destroyed) && (registry[k] in assets || registry[k] == currentContainer)
      ensures Live(currentContainer, destroyed) ==> currentContainer.id in registry
    {
      var pending := registry.Keys;
      while pending != {}
        invariant pending <= old(registry).Keys
        invariant registry == map k | k in old(registry) && (k in pending || (Live(old(registry)[k], destroyed) && old(registry)[k] in assets)) :: old(registry)[k]
        decreases pending
      {
        var key :| key in pending;
        var c := registry[key];
        if !Live(c, destroyed) || c !in assets {
          registry := registry - {key};
        }
        pending := pending - {key};
      }
      assert registry == Pruned(old(registry), destroyed, assets);
      if Live(currentContainer, destroyed) && currentContainer.id !in registry {
        registry := registry[currentContainer.id := currentContainer];
      }
    }
  }
}
