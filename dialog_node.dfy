/// The runtime view of a dialog node: its data, the character speaking it
/// and one choice option per port, and the factory that builds it from a
/// graph container's data.
module DialogNodes {
  import opened Options
  import opened DialogData
  import opened DialogContainers

  /// The identity of a node object. Nodes built at different times are
  /// different objects even when their data are equal, and a dictionary
  /// keyed by nodes tells them apart by this identity.
  type NodeRef = nat

  /// The snapshot of a character a node carries: its name and icon as they
  /// were when the node was built.
  datatype Character = Character(name: string, icon: Sprite)

  /// Character's constructor: reads the record's Name, so a missing record
  /// or a name the resource does not hold throws (None).
  function NewCharacter(c: CharacterData?): (r: Option<Character>)
    reads c, if c == null then {} else {c.resource}
    ensures r.Some? <==> c != null && c.Name().Some?
    ensures r.Some? ==> r.value == Character(c.Name().value, c.icon)
  {
    if c == null then None
    else match c.Name()
      case None => None
      case Some(name) => Some(Character(name, c.icon))
  }

  /// A choice of a node: the port it wraps and its position among the
  /// node's ports. The option belongs to the node object it was built for.
  datatype DialogChoiceOption = DialogChoiceOption(node: NodeRef, data: PortConditionData, index: int) {
    /// The Condition property: the port's condition, if it has one.
    function Condition(): Option<ConditionRef> {
      data.condition
    }
  }

  /// A node as the reader hands it out. Text and Sprite are read through the
  /// stored data.
  datatype DialogNode = DialogNode(ref: NodeRef, data: DialogNodeData, character: Option<Character>,
                                   choiceOptions: seq<DialogChoiceOption>) {
    function Text(): string {
      data.text
    }

    function Sprite(): DialogData.Sprite {
      data.sprite
    }
  }

  /// The options the constructor builds: option i wraps port i and has index i.
  function ChoiceOptionsOf(ref: NodeRef, ports: seq<PortConditionData>): (r: seq<DialogChoiceOption>)
    ensures |r| == |ports|
    ensures forall i :: 0 <= i < |ports| ==> r[i] == DialogChoiceOption(ref, ports[i], i)
  {
    seq(|ports|, i requires 0 <= i < |ports| => DialogChoiceOption(ref, ports[i], i))
  }

  /// The option loop of the constructor.
  method BuildChoiceOptions(ref: NodeRef, data: DialogNodeData) returns (options: seq<DialogChoiceOption>)
    ensures options == ChoiceOptionsOf(ref, data.ports)
  {
    options := [];
    for i := 0 to |data.ports|
      invariant |options| == i
      invariant forall k :: 0 <= k < i ==> options[k] == DialogChoiceOption(ref, data.ports[k], k)
    {
      options := options + [DialogChoiceOption(ref, data.ports[i], i)];
    }
  }

  /// DialogNode's constructor as it is written: the Character is built from
  /// the record unconditionally, so a node without a character throws.
  method NewDialogNodeAsWritten(ref: NodeRef, data: DialogNodeData, character: CharacterData?)
    returns (r: Option<DialogNode>)
    ensures r.Some? <==> NewCharacter(character).Some?
    ensures character == null ==> r.None?
    ensures r.Some? ==> r.value == DialogNode(ref, data, NewCharacter(character), ChoiceOptionsOf(ref, data.ports))
  {
    var ch := NewCharacter(character);
    if ch.None? {
      return None;
    }
    var options := BuildChoiceOptions(ref, data);
    r := Some(DialogNode(ref, data, ch, options));
  }

  /// DialogNode's constructor as its default argument promises: a node
  /// without a character has none; a character record is read as before.
  method NewDialogNode(ref: NodeRef, data: DialogNodeData, character: CharacterData?) returns (r: Option<DialogNode>)
    ensures character == null ==> r == Some(DialogNode(ref, data, None, ChoiceOptionsOf(ref, data.ports)))
    ensures character != null ==> (r.Some? <==> NewCharacter(character).Some?)
    ensures r.Some? ==> r.value == DialogNode(ref, data, NewCharacter(character), ChoiceOptionsOf(ref, data.ports))
  {
    var ch: Option<Character> := None;
    if character != null {
      ch := NewCharacter(character);
      if ch.None? {
        return None;
      }
    }
    var options := BuildChoiceOptions(ref, data);
    r := Some(DialogNode(ref, data, ch, options));
  }

  /// List.Find by id: the position of the first record with the id, or the
  /// length of the list when there is none.
  function FindIndex(list: seq<CharacterData>, id: Guid): (i: nat)
    ensures i <= |list|
    ensures i < |list| ==> list[i].id == id
    ensures forall k :: 0 <= k < i ==> list[k].id != id
  {
    if list == [] then 0
    else if list[0].id == id then 0
    else 1 + FindIndex(list[1..], id)
  }

  /// The record the factory finds for a node's character id: none when the
  /// id is unset or the graph lists no character with it.
  function CharacterFor(list: seq<CharacterData>, characterId: Guid): (c: CharacterData?)
    ensures c != null ==> IsSet(characterId) && c in list && c.id == characterId
    ensures c == null ==> !IsSet(characterId) || forall d :: d in list ==> d.id != characterId
  {
    if !IsSet(characterId) then null
    else
      var i := FindIndex(list, characterId);
      if i < |list| then list[i] else null
  }

  /// The node the factory builds for a copy once the constructor takes a
  /// missing record as no character: None where building throws, because
  /// the character's name is not in the character localisation.
  function NodeFor(ref: NodeRef, d: DialogNodeData, chars: seq<CharacterData>,
                   charTexts: Option<map<Guid, string>>): (r: Option<DialogNode>)
    ensures r.Some? ==> r.value.ref == ref && r.value.data == d && r.value.choiceOptions == ChoiceOptionsOf(ref, d.ports)
    ensures r.None? <==> CharacterFor(chars, d.characterId) != null && (charTexts.None? || CharacterFor(chars, d.characterId).id !in charTexts.value)
  {
    var c := CharacterFor(chars, d.characterId);
    if c == null then Some(DialogNode(ref, d, None, ChoiceOptionsOf(ref, d.ports)))
    else if charTexts.None? || c.id !in charTexts.value then None
    else Some(DialogNode(ref, d, Some(Character(charTexts.value[c.id], c.icon)), ChoiceOptionsOf(ref, d.ports)))
  }

  /// The node the factory builds for a copy as it is written: None where
  /// building throws, because no record was found for the node (its
  /// character id is unset or names no character of the graph) or the
  /// character's name is not in the character localisation.
  function NodeForAsWritten(ref: NodeRef, d: DialogNodeData, chars: seq<CharacterData>,
                            charTexts: Option<map<Guid, string>>): (r: Option<DialogNode>)
    ensures r.Some? ==> r.value.ref == ref && r.value.data == d && r.value.choiceOptions == ChoiceOptionsOf(ref, d.ports)
    ensures r.Some? ==> r.value.character.Some?
    ensures r.None? <==> CharacterFor(chars, d.characterId) == null || charTexts.None? ||
                         CharacterFor(chars, d.characterId).id !in charTexts.value
  {
    var c := CharacterFor(chars, d.characterId);
    if c == null || charTexts.None? || c.id !in charTexts.value then None
    else Some(DialogNode(ref, d, Some(Character(charTexts.value[c.id], c.icon)), ChoiceOptionsOf(ref, d.ports)))
  }

  /// The two factories agree on every node that has a character; the one as
  /// written throws on every node that has none, where the corrected one
  /// builds it.
  lemma NodeForAgree(ref: NodeRef, d: DialogNodeData, chars: seq<CharacterData>, charTexts: Option<map<Guid, string>>)
    ensures CharacterFor(chars, d.characterId) != null ==>
      NodeForAsWritten(ref, d, chars, charTexts) == NodeFor(ref, d, chars, charTexts)
    ensures CharacterFor(chars, d.characterId) == null ==>
      NodeForAsWritten(ref, d, chars, charTexts).None? &&
      NodeFor(ref, d, chars, charTexts) == Some(DialogNode(ref, d, None, ChoiceOptionsOf(ref, d.ports)))
  {
  }

  /// The search at the head of DialogNodeFactory.GetDialogNode: the record
  /// of the node's character, if the graph lists one, pointed at the
  /// character localisation.
  method FindCharacter(container: DialogGraphContainer, data: DialogNodeData,
                       characterLocalisation: LocalisationResource?) returns (character: CharacterData?)
    modifies CharacterFor(container.characterList, data.characterId)
    ensures character == CharacterFor(container.characterList, data.characterId)
    ensures character != null ==> character.resource == characterLocalisation && character.usages == old(character.usages)
  {
    character := null;
    if IsSet(data.characterId) {
      var i := FindIndex(container.characterList, data.characterId);
      if i < |container.characterList| {
        character := container.characterList[i];
        character.resource := characterLocalisation;
      }
    }
    if character != null {
      character.resource := characterLocalisation;
    }
  }

  /// DialogNodeFactory.GetDialogNode as it is written: finds the node's
  /// character in the container, points it at the character localisation,
  /// and builds the node with the constructor as written, which throws
  /// when no record was found.
  method GetDialogNodeAsWritten(container: DialogGraphContainer, data: DialogNodeData,
                                characterLocalisation: LocalisationResource?, ref: NodeRef)
    returns (r: Option<DialogNode>)
    modifies CharacterFor(container.characterList, data.characterId)
    ensures var c := CharacterFor(container.characterList, data.characterId);
      (c != null ==> c.resource == characterLocalisation && c.usages == old(c.usages)) &&
      (r.Some? <==> c != null && characterLocalisation != null && c.id in characterLocalisation.texts) &&
      (r.Some? ==> r.value == DialogNode(ref, data, NewCharacter(c), ChoiceOptionsOf(ref, data.ports)))
    ensures r == NodeForAsWritten(ref, data, container.characterList, TextsOf(characterLocalisation))
  {
    var character := FindCharacter(container, data, characterLocalisation);
    r := NewDialogNodeAsWritten(ref, data, character);
  }

  /// DialogNodeFactory.GetDialogNode with the corrected constructor: a node
  /// for which no record was found is built without a character.
  method GetDialogNode(container: DialogGraphContainer, data: DialogNodeData,
                       characterLocalisation: LocalisationResource?, ref: NodeRef)
    returns (r: Option<DialogNode>)
    modifies CharacterFor(container.characterList, data.characterId)
    ensures var c := CharacterFor(container.characterList, data.characterId);
      (c != null ==> c.resource == characterLocalisation && c.usages == old(c.usages)) &&
      (r.Some? <==> c == null || (characterLocalisation != null && c.id in characterLocalisation.texts)) &&
      (r.Some? ==> r.value == DialogNode(ref, data, NewCharacter(c), ChoiceOptionsOf(ref, data.ports)))
    ensures r == NodeFor(ref, data, container.characterList, TextsOf(characterLocalisation))
  {
    var character := FindCharacter(container, data, characterLocalisation);
    r := NewDialogNode(ref, data, character);
  }
}
