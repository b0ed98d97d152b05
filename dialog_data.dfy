/// The plain data of the dialog system: identifiers, node and link records,
/// localisation resources and character records.
module DialogData {
  import opened Options

  /// A SerializableGuid. 0 stands for the empty guid, the one whose
  /// conversion to bool is false; the other values are assigned ones.
  type Guid = nat

  const EmptyGuid: Guid := 0

  /// The truth value of a guid where the code writes `if (guid)`.
  predicate IsSet(g: Guid) {
    g != EmptyGuid
  }

  /// A sprite asset, by identity.
  type Sprite = nat

  /// A Condition asset, by identity; what it answers is supplied by the
  /// caller wherever it is asked.
  type ConditionRef = nat

  /// One output port of a node and the condition guarding it, if any.
  datatype PortConditionData = PortConditionData(id: Guid, condition: Option<ConditionRef>)

  /// The data of one dialog node.
  datatype DialogNodeData = DialogNodeData(
    id: Guid,
    characterId: Guid,
    text: string,
    sprite: Sprite,
    position: (real, real),
    ports: seq<PortConditionData>)

  /// A link from a port of one node to another node.
  datatype NodeLinkData = NodeLinkData(baseNodeID: Guid, basePortID: Guid, targetNodeID: Guid)

  /// A table of localised texts by id.
  class LocalisationResource {
    var texts: map<Guid, string>

    constructor ()
      ensures texts == map[]
    {
      texts := map[];
    }

    /// GetText: the stored text, or "" when the id has none.
    function GetText(guid: Guid): (r: string)
      reads this
      ensures guid in texts ==> r == texts[guid]
      ensures guid !in texts ==> r == ""
    {
      if guid !in texts then "" else texts[guid]
    }

    /// Copy: the destination gets a new table and then every entry of the
    /// origin's table, one Add at a time. When origin and destination are
    /// the same resource the origin's table is the new, empty one by the
    /// time it is enumerated, so the result is empty.
    static method Copy(origin: LocalisationResource, destination: LocalisationResource)
      modifies destination
      ensures destination.texts == if origin == destination then map[] else old(origin.texts)
      ensures origin != destination ==> origin.texts == old(origin.texts)
    {
      destination.texts := map[];
      var pending := origin.texts.Keys;
      while pending != {}
        invariant origin == destination ==> pending == {} && destination.texts == map[]
        invariant pending <= origin.texts.Keys
        invariant origin != destination ==> origin.texts == old(origin.texts)
        invariant forall k :: k in destination.texts <==> k in origin.texts && k !in pending
        invariant forall k :: k in destination.texts ==> destination.texts[k] == origin.texts[k]
        decreases pending
      {
        var k :| k in pending;
        // Add never throws here: k is not yet in the destination.
        assert k !in destination.texts;
        destination.texts := destination.texts[k := origin.texts[k]];
        pending := pending - {k};
      }
      if origin != destination {
        assert destination.texts == old(origin.texts);
      }
    }
  }

  /// A resource's table, None when there is no resource.
  ghost function TextsOf(r: LocalisationResource?): Option<map<Guid, string>>
    reads r
  {
    if r == null then None else Some(r.texts)
  }

  /// The stored record of a character: its id, the containers using it, and
  /// the resource its name is read from.
  class CharacterData {
    const id: Guid
    /// The icon is set when the record is made; the editor's sprite setter
    /// is not part of this model.
    const icon: Sprite
    var usages: seq<Guid>
    var resource: LocalisationResource?

    /// A new record with the id Guid.NewGuid gave it.
    constructor (id: Guid, icon: Sprite)
      ensures this.id == id && this.icon == icon && usages == [] && resource == null
    {
      this.id := id;
      this.icon := icon;
      usages := [];
      resource := null;
    }

    /// The Name getter: None where it throws, because there is no resource
    /// or the resource has no text under the id.
    function Name(): (r: Option<string>)
      reads this, resource
      ensures r.Some? <==> resource != null && id in resource.texts
      ensures r.Some? ==> r.value == resource.texts[id]
    {
      if resource == null || id !in resource.texts then None else Some(resource.texts[id])
    }
  }
}
