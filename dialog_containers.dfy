/// The ScriptableObject containers of the dialog system: one per node's data
/// and one per dialog graph.
module DialogContainers {
  import opened DialogData

  /// Holds a node's data so that the editor's changes do not reach the data
  /// a running dialog reads.
  class DialogNodeDataContainer {
    var data: DialogNodeData

    constructor (data: DialogNodeData)
      ensures this.data == data
    {
      this.data := data;
    }

    /// The Id property: the id of the stored data.
    function Id(): Guid
      reads this
    {
      data.id
    }

    /// GetDataCopy: a copy of the stored data. With a resource, a missing
    /// text is first stored there as "", and the copy's text is the
    /// resource's text for the id; the stored data keeps its own text.
    method GetDataCopy(resource: LocalisationResource?) returns (copy: DialogNodeData)
      modifies resource
      ensures resource == null ==> copy == data
      ensures resource != null ==>
        resource.texts == (if data.id in old(resource.texts) then old(resource.texts) else old(resource.texts)[data.id := ""])
      ensures resource != null ==> copy == data.(text := resource.texts[data.id])
      ensures copy.id == Id() && copy.ports == data.ports && copy.characterId == data.characterId
      ensures data == old(data)
    {
      copy := data;
      if resource != null {
        if data.id !in resource.texts {
          resource.texts := resource.texts[copy.id := ""];
        }
        copy := copy.(text := resource.texts[copy.id]);
      }
    }

    /// GetData: the stored data.
    method GetData() returns (d: DialogNodeData)
      ensures d == data
    {
      d := data;
    }

    /// SetData: replaces the stored data, and with it the Id.
    method SetData(d: DialogNodeData)
      modifies this
      ensures data == d && Id() == d.id
    {
      data := d;
    }
  }

  /// A dialog graph: its nodes' data, the links between their ports, the
  /// start node and the characters it uses.
  class DialogGraphContainer {
    var id: Guid
    var startNodeId: Guid
    var nodeLinks: seq<NodeLinkData>
    var dialogNodeDataList: seq<DialogNodeDataContainer>
    var localisationResource: LocalisationResource?
    var characterList: seq<CharacterData>
    var name: string

    /// A new container with the id Guid.NewGuid gave it.
    constructor (id: Guid)
      ensures this.id == id && startNodeId == EmptyGuid && nodeLinks == [] && dialogNodeDataList == []
      ensures localisationResource == null && characterList == [] && name == ""
    {
      this.id := id;
      startNodeId := EmptyGuid;
      nodeLinks := [];
      dialogNodeDataList := [];
      localisationResource := null;
      characterList := [];
      name := "";
    }

    /// Copy: the destination takes the origin's id, start node, resource
    /// and name, and new lists with the origin's elements in order. The
    /// lists are values here, so a change to one of the destination's lists
    /// cannot reach the origin's.
    static method Copy(origin: DialogGraphContainer, destination: DialogGraphContainer)
      modifies destination
      ensures destination.id == old(origin.id) && destination.startNodeId == old(origin.startNodeId)
      ensures destination.nodeLinks == old(origin.nodeLinks)
      ensures destination.dialogNodeDataList == old(origin.dialogNodeDataList)
      ensures destination.localisationResource == old(origin.localisationResource)
      ensures destination.characterList == old(origin.characterList)
      ensures destination.name == old(origin.name)
      ensures origin != destination ==> unchanged(origin)
    {
      destination.id := origin.id;
      destination.startNodeId := origin.startNodeId;
      destination.nodeLinks := origin.nodeLinks;
      destination.dialogNodeDataList := origin.dialogNodeDataList;
      destination.localisationResource := origin.localisationResource;
      destination.characterList := origin.characterList;
      destination.name := origin.name;
    }
  }
}
