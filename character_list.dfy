/// The editor's character list: every character record of the project, one
/// model per record, and the models the open dialog includes.
module CharacterLists {
  import opened Options
  import opened Collections
  import opened DialogData
  import opened DialogContainers
  import opened UsagesHandlers

  /// The icon of a new record: none yet.
  const NoSprite: Sprite := 0

  /// The editor's wrapper of a character record. Its name is the record's
  /// name, read through the record's resource.
  class CharacterModel {
    const data: CharacterData

    constructor (data: CharacterData)
      ensures this.data == data
    {
      this.data := data;
    }

    /// The Id property.
    function Id(): Guid {
      data.id
    }

    /// The Name getter: None where it throws.
    function Name(): (r: Option<string>)
      reads data, data.resource
      ensures r == data.Name()
    {
      data.Name()
    }
  }

  /// What the list announces through its callbacks; the handlers are
  /// outside this model, so the announcements are kept as a log.
  datatype CharacterListEvent =
    | LocalListChanged
    | CharacterChanged(model: CharacterModel)
    | CharacterDeleted(model: CharacterModel)

  /// The records behind the models, in order.
  function DataOf(models: seq<CharacterModel>): (r: seq<CharacterData>)
    ensures |r| == |models| && forall i :: 0 <= i < |models| ==> r[i] == models[i].data
  {
    seq(|models|, i requires 0 <= i < |models| => models[i].data)
  }

  /// Select(x => x.Name): the names of the records in order, None when one
  /// of them throws.
  function CharacterNames(records: seq<CharacterData>): (r: Option<seq<string>>)
    reads records, set d | d in records :: d.resource
    decreases |records|
    ensures r.Some? <==> forall i :: 0 <= i < |records| ==> records[i].Name().Some?
    ensures r.Some? ==> |r.value| == |records| && forall i :: 0 <= i < |records| ==> Some(r.value[i]) == records[i].Name()
  {
    if records == [] then Some([])
    else
      var n := |records| - 1;
      assert forall i :: 0 <= i < n ==> records[..n][i] == records[i];
      match CharacterNames(records[..n])
      case None => None
      case Some(front) =>
        match records[n].Name()
        case None => None
        case Some(name) => Some(front + [name])
  }

  /// List.Find by Id: the position of the first model with the id, or the
  /// length of the list.
  function FindById(models: seq<CharacterModel>, id: Guid): (i: nat)
    ensures i <= |models|
    ensures i < |models| ==> models[i].Id() == id
    ensures forall k :: 0 <= k < i ==> models[k].Id() != id
  {
    if models == [] then 0
    else if models[0].Id() == id then 0
    else 1 + FindById(models[1..], id)
  }

  /// List.Find by Name: Some of the position of the first model with the
  /// name, or of the length of the list; None when reading a name throws
  /// before a match is found.
  function FindByName(models: seq<CharacterModel>, name: string): (r: Option<nat>)
    reads set m | m in models :: m.data, set m | m in models :: m.data.resource
    decreases |models|
    ensures r.Some? ==> r.value <= |models|
    ensures r.Some? && r.value < |models| ==> models[r.value].Name() == Some(name)
    ensures r.Some? ==> forall k :: 0 <= k < r.value ==> models[k].Name().Some? && models[k].Name() != Some(name)
  {
    if models == [] then Some(0)
    else
      var m := models[0];
      if m.Name().None? then None
      else if m.Name() == Some(name) then Some(0)
      else
        assert forall k :: 1 <= k < |models| ==> models[k] == models[1..][k - 1];
        match FindByName(models[1..], name)
        case None => None
        case Some(j) => Some(1 + j)
  }

  /// Finding by name throws only at a name that cannot be read, with no
  /// match before it.
  lemma {:induction false} FindByNameThrows(models: seq<CharacterModel>, name: string)
    requires FindByName(models, name).None?
    ensures exists i :: 0 <= i < |models| && models[i].Name().None? && NoMatchBefore(models, name, i)
  {
    if models[0].Name().Some? {
      FindByNameThrows(models[1..], name);
      var j :| 0 <= j < |models[1..]| && models[1..][j].Name().None? && NoMatchBefore(models[1..], name, j);
      assert models[j + 1].Name().None?;
      assert NoMatchBefore(models, name, j + 1) by {
        forall k | 0 <= k < j + 1
          ensures models[k].Name().Some? && models[k].Name() != Some(name)
        {
          if k > 0 {
            assert models[k] == models[1..][k - 1];
          }
        }
      }
    } else {
      assert NoMatchBefore(models, name, 0);
    }
  }

  /// Every name before position i can be read and none is the name.
  ghost predicate NoMatchBefore(models: seq<CharacterModel>, name: string, i: nat)
    requires i <= |models|
    reads set m | m in models :: m.data, set m | m in models :: m.data.resource
  {
    forall k :: 0 <= k < i ==> models[k].Name().Some? && models[k].Name() != Some(name)
  }

  /// Where(x => ids contains x.Id): the models with one of the ids, in order.
  function ModelsWithIds(models: seq<CharacterModel>, ids: set<Guid>): (r: seq<CharacterModel>)
    ensures Subsequence(r, models)
    ensures forall i :: 0 <= i < |r| ==> r[i] in models && r[i].Id() in ids
    ensures forall i :: 0 <= i < |models| && models[i].Id() in ids ==> models[i] in r
  {
    if models == [] then []
    else
      var rest := ModelsWithIds(models[1..], ids);
      assert forall i :: 1 <= i < |models| ==> models[i] == models[1..][i - 1];
      if models[0].Id() in ids then [models[0]] + rest else rest
  }

  /// Filtering a list without repeats gives one without repeats.
  lemma {:induction false} ModelsWithIdsDistinct(models: seq<CharacterModel>, ids: set<Guid>)
    requires Distinct(models)
    ensures Distinct(ModelsWithIds(models, ids))
  {
    if models != [] {
      DistinctTail(models);
      ModelsWithIdsDistinct(models[1..], ids);
      if models[0].Id() in ids {
        DistinctAppend([models[0]], ModelsWithIds(models[1..], ids));
      }
    }
  }

  lemma DataOfAppend(a: seq<CharacterModel>, b: seq<CharacterModel>)
    ensures DataOf(a + b) == DataOf(a) + DataOf(b)
  {
  }

  /// The positions holding m are exactly those holding its record.
  ghost predicate HoldsOnlyWith(models: seq<CharacterModel>, m: CharacterModel) {
    forall k :: 0 <= k < |models| ==> (models[k] == m <==> models[k].data == m.data)
  }

  /// Removing a model and removing its record agree position by position
  /// when exactly the positions holding the model hold its record.
  lemma {:induction false} RemoveFirstDataOf(models: seq<CharacterModel>, m: CharacterModel)
    requires HoldsOnlyWith(models, m)
    ensures DataOf(RemoveFirst(models, m)) == RemoveFirst(DataOf(models), m.data)
  {
    if models != [] {
      var d := DataOf(models);
      assert d[0] == models[0].data;
      assert d[1..] == DataOf(models[1..]);
      if models[0] != m {
        var tail := models[1..];
        assert HoldsOnlyWith(tail, m) by {
          forall k | 0 <= k < |tail|
            ensures tail[k] == m <==> tail[k].data == m.data
          {
            assert tail[k] == models[k + 1];
          }
        }
        RemoveFirstDataOf(tail, m);
        assert d[0] != m.data;
        assert RemoveFirst(models, m) == [models[0]] + RemoveFirst(tail, m);
        assert RemoveFirst(d, m.data) == [d[0]] + RemoveFirst(d[1..], m.data);
        DataOfAppend([models[0]], RemoveFirst(tail, m));
      }
    }
  }

  /// Removing a model and its record from lists that correspond keeps them
  /// corresponding, when the model is the one the records list holds.
  lemma RemoveFirstData(models: seq<CharacterModel>, records: seq<CharacterData>, m: CharacterModel)
    requires DataOf(models) == records && Distinct(records)
    requires m in models || m.data !in records
    ensures DataOf(RemoveFirst(models, m)) == RemoveFirst(records, m.data)
    ensures Distinct(RemoveFirst(records, m.data))
    ensures m !in RemoveFirst(models, m) && m.data !in RemoveFirst(records, m.data)
  {
    forall k | 0 <= k < |models|
      ensures models[k] == m <==> models[k].data == m.data
    {
      if models[k].data == m.data {
        assert records[k] == m.data;
        if m in models {
          var j :| 0 <= j < |models| && models[j] == m;
          assert records[j] == records[k];
        }
      }
    }
    assert HoldsOnlyWith(models, m);
    RemoveFirstDataOf(models, m);
    RemoveFirstDistinct(records, m.data);
  }

  /// The CharacterList asset.
  class CharacterList {
    var globalCharacterDataList: seq<CharacterData>
    var globalCharacterList: seq<CharacterModel>
    var localCharacterList: seq<CharacterModel>
    var events: seq<CharacterListEvent>

    /// The global models are the records, one model per record, and no
    /// record is listed twice.
    ghost predicate Valid()
      reads this
    {
      DataOf(globalCharacterList) == globalCharacterDataList && Distinct(globalCharacterDataList)
    }

    /// The asset as it is created: no characters.
    constructor ()
      ensures globalCharacterDataList == [] && globalCharacterList == [] && localCharacterList == [] && events == []
      ensures Valid()
    {
      globalCharacterDataList := [];
      globalCharacterList := [];
      localCharacterList := [];
      events := [];
    }

    /// FindCharacter by id: the first global model with the id, or null.
    function FindCharacterById(id: Guid): (r: CharacterModel?)
      reads this
      ensures r == null <==> forall i :: 0 <= i < |globalCharacterList| ==> globalCharacterList[i].Id() != id
      ensures r != null ==>
        r.Id() == id &&
        exists i :: 0 <= i < |globalCharacterList| && globalCharacterList[i] == r &&
          forall k :: 0 <= k < i ==> globalCharacterList[k].Id() != id
    {
      var i := FindById(globalCharacterList, id);
      if i < |globalCharacterList| then globalCharacterList[i] else null
    }

    /// FindCharacter by name: Some of the first global model with the name,
    /// or of null; None where reading a name throws before a match.
    function FindCharacterByName(name: string): (r: Option<CharacterModel?>)
      reads this, set m | m in globalCharacterList :: m.data, set m | m in globalCharacterList :: m.data.resource
      ensures r == Some(null) <==> forall i :: 0 <= i < |globalCharacterList| ==>
        globalCharacterList[i].Name().Some? && globalCharacterList[i].Name() != Some(name)
      ensures r.Some? && r.value != null ==> r.value in globalCharacterList && r.value.Name() == Some(name)
    {
      match FindByName(globalCharacterList, name)
      case None =>
        FindByNameThrows(globalCharacterList, name);
        None
      case Some(i) => if i < |globalCharacterList| then Some(globalCharacterList[i]) else Some(null)
    }

    /// GetLocalCharacterNames: the included models' names, in order.
    function GetLocalCharacterNames(): (r: Option<seq<string>>)
      reads this, set m | m in localCharacterList :: m.data, set m | m in localCharacterList :: m.data.resource
      ensures r.Some? ==> |r.value| == |localCharacterList|
      ensures r.Some? ==> forall i :: 0 <= i < |localCharacterList| ==> Some(r.value[i]) == localCharacterList[i].Name()
      ensures r.None? <==> exists i :: 0 <= i < |localCharacterList| && localCharacterList[i].Name().None?
    {
      CharacterNames(DataOf(localCharacterList))
    }

    /// GetGlobalCharacterNames: the records' names, in order.
    function GetGlobalCharacterNames(): (r: Option<seq<string>>)
      reads this, globalCharacterDataList, set d | d in globalCharacterDataList :: d.resource
      ensures r.Some? ==> |r.value| == |globalCharacterDataList|
      ensures r.Some? ==> forall i :: 0 <= i < |globalCharacterDataList| ==> Some(r.value[i]) == globalCharacterDataList[i].Name()
      ensures r.None? <==> exists i :: 0 <= i < |globalCharacterDataList| && globalCharacterDataList[i].Name().None?
    {
      CharacterNames(globalCharacterDataList)
    }

    /// A name is among the global names exactly when finding it by name
    /// gives a model; when no name throws, finding by name never throws.
    lemma NamesAgreeWithFind(name: string)
      requires Valid() && GetGlobalCharacterNames().Some?
      ensures FindCharacterByName(name).Some?
      ensures name in GetGlobalCharacterNames().value <==> FindCharacterByName(name).value != null
    {
      var names := GetGlobalCharacterNames().value;
      forall i | 0 <= i < |globalCharacterList|
        ensures globalCharacterList[i].Name() == Some(names[i])
      {
        assert globalCharacterList[i].data == globalCharacterDataList[i];
      }
      if FindByName(globalCharacterList, name).None? {
        FindByNameThrows(globalCharacterList, name);
        assert false;
      }
      if name in names {
        var i :| 0 <= i < |names| && names[i] == name;
        assert globalCharacterList[i].Name() == Some(name);
      }
    }

    /// AddCharacterToLocal: the model is appended unless it is already
    /// included, and the change is announced either way.
    method AddCharacterToLocal(m: CharacterModel)
      modifies this`localCharacterList, this`events
      ensures localCharacterList == if m in old(localCharacterList) then old(localCharacterList) else old(localCharacterList) + [m]
      ensures events == old(events) + [LocalListChanged]
      ensures Distinct(old(localCharacterList)) ==> Distinct(localCharacterList)
      ensures forall x :: x in localCharacterList <==> x == m || x in old(localCharacterList)
    {
      if m !in localCharacterList {
        if Distinct(localCharacterList) {
          DistinctAppend(localCharacterList, [m]);
        }
        localCharacterList := localCharacterList + [m];
      }
      events := events + [LocalListChanged];
    }

    /// RemoveCharacterFromLocal: the first occurrence of the model goes,
    /// if there is one, and the change is announced either way.
    method RemoveCharacterFromLocal(m: CharacterModel)
      modifies this`localCharacterList, this`events
      ensures localCharacterList == RemoveFirst(old(localCharacterList), m)
      ensures m !in old(localCharacterList) ==> localCharacterList == old(localCharacterList)
      ensures events == old(events) + [LocalListChanged]
      ensures Distinct(old(localCharacterList)) ==>
        Distinct(localCharacterList) && forall x :: x in localCharacterList <==> x in old(localCharacterList) && x != m
    {
      if m in localCharacterList {
        localCharacterList := RemoveFirst(localCharacterList, m);
      }
      if Distinct(old(localCharacterList)) {
        RemoveFirstDistinct(old(localCharacterList), m);
      }
      events := events + [LocalListChanged];
    }

    /// UpdateLocalList: the included models become the global models whose
    /// id is the id of one of the records given, in global order.
    method UpdateLocalList(newLocalList: seq<CharacterData>)
      modifies this`localCharacterList
      ensures Subsequence(localCharacterList, globalCharacterList)
      ensures forall m :: m in localCharacterList <==> m in globalCharacterList && exists d :: d in newLocalList && d.id == m.Id()
      ensures Valid() ==> Distinct(localCharacterList)
    {
      var ids := set d | d in newLocalList :: d.id;
      localCharacterList := ModelsWithIds(globalCharacterList, ids);
      if Valid() {
        DistinctData(globalCharacterList);
        ModelsWithIdsDistinct(globalCharacterList, ids);
      }
    }

    /// CreateCharacter: a new record and its model join the global lists.
    /// The model's constructor points the record at the resource the
    /// language handler gives and stores the placeholder name there when
    /// the resource has none for the new id.
    method CreateCharacter(id: Guid, resource: LocalisationResource, placeholder: string) returns (m: CharacterModel)
      modifies this, resource
      ensures fresh(m) && fresh(m.data)
      ensures m.Id() == id && m.data.icon == NoSprite && m.data.usages == [] && m.data.resource == resource
      ensures resource.texts == if id in old(resource.texts) then old(resource.texts) else old(resource.texts)[id := placeholder]
      ensures m.Name().Some?
      ensures globalCharacterDataList == old(globalCharacterDataList) + [m.data]
      ensures globalCharacterList == old(globalCharacterList) + [m]
      ensures localCharacterList == old(localCharacterList)
      ensures events == old(events) + [LocalListChanged]
      ensures old(Valid()) ==> Valid()
    {
      var data := new CharacterData(id, NoSprite);
      data.resource := resource;
      if id !in resource.texts {
        resource.texts := resource.texts[id := placeholder];
      }
      m := new CharacterModel(data);
      if Valid() {
        DistinctAppend(globalCharacterDataList, [data]);
      }
      globalCharacterDataList := globalCharacterDataList + [data];
      globalCharacterList := globalCharacterList + [m];
      events := events + [LocalListChanged];
    }

    /// DeleteCharacter: a character used by dialogs whose names are found
    /// is deleted only when the user confirms. A deleted character leaves
    /// all three lists and its deletion is announced.
    method DeleteCharacter(m: CharacterModel, handler: DialogUtilityUsagesHandler,
                           destroyed: set<DialogGraphContainer>, confirmed: bool)
      returns (decision: Option<bool>)
      modifies this
      ensures |m.data.usages| == 0 ==> decision == Some(true)
      ensures decision.None? <==> |m.data.usages| > 0 && ContainerNames(m.data.usages, handler.registry, destroyed).None?
      ensures decision.Some? && |m.data.usages| > 0 ==>
        (decision.value <==> |ContainerNames(m.data.usages, handler.registry, destroyed).value| == 0 || confirmed)
      ensures decision == Some(true) ==>
        localCharacterList == RemoveFirst(old(localCharacterList), m) &&
        globalCharacterList == RemoveFirst(old(globalCharacterList), m) &&
        globalCharacterDataList == RemoveFirst(old(globalCharacterDataList), m.data) &&
        events == old(events) + [LocalListChanged, CharacterDeleted(m)]
      ensures decision != Some(true) ==>
        localCharacterList == old(localCharacterList) && globalCharacterList == old(globalCharacterList) &&
        globalCharacterDataList == old(globalCharacterDataList) && events == old(events)
      ensures decision == Some(true) && old(Valid()) && (m in old(globalCharacterList) || m.data !in old(globalCharacterDataList)) ==>
        Valid() && m !in globalCharacterList && m.data !in globalCharacterDataList
    {
      var ok := true;
      if |m.data.usages| > 0 {
        var usagesNames := handler.GetUsagesNames(m.data.usages, destroyed);
        if usagesNames.None? {
          return None;
        }
        ok := |usagesNames.value| == 0 || confirmed;
      }
      decision := Some(ok);
      if ok {
        if Valid() && (m in globalCharacterList || m.data !in globalCharacterDataList) {
          RemoveFirstData(globalCharacterList, globalCharacterDataList, m);
        }
        localCharacterList := RemoveFirst(localCharacterList, m);
        globalCharacterList := RemoveFirst(globalCharacterList, m);
        globalCharacterDataList := RemoveFirst(globalCharacterDataList, m.data);
        events := events + [LocalListChanged, CharacterDeleted(m)];
      }
    }
  }

  /// Models of distinct records are distinct.
  lemma DistinctData(models: seq<CharacterModel>)
    requires Distinct(DataOf(models))
    ensures Distinct(models)
  {
    forall a, b | 0 <= a < b < |models|
      ensures models[a] != models[b]
    {
      assert DataOf(models)[a] != DataOf(models)[b];
    }
  }
}
