/// The controller behind one character's row in the editor: renaming the
/// character and including it in, or excluding it from, the open dialog.
module CharacterControllers {
  import opened Options
  import opened Collections
  import opened DialogData
  import opened UsagesHandlers
  import opened CharacterLists

  /// Char.IsWhiteSpace: the Unicode space separators, the line and
  /// paragraph separators, and the controls U+0009 to U+000D, U+0085.
  predicate IsWhiteSpace(c: char) {
    var n := c as int;
    (0x09 <= n <= 0x0D) || n == 0x20 || n == 0x85 || n == 0xA0 || n == 0x1680 ||
    (0x2000 <= n <= 0x200A) || n == 0x2028 || n == 0x2029 || n == 0x202F || n == 0x205F || n == 0x3000
  }

  /// String.IsNullOrWhiteSpace, with None for null.
  predicate IsNullOrWhiteSpace(text: Option<string>) {
    text.None? || forall i :: 0 <= i < |text.value| ==> IsWhiteSpace(text.value[i])
  }

  class CharacterController {
    const model: CharacterModel

    constructor (model: CharacterModel)
      ensures this.model == model
    {
      this.model := model;
    }

    /// IncludeInCurrentDialog. Including adds the model to the open
    /// dialog's characters and the open container's id to its usages;
    /// excluding removes the model and the first usage equal to that id.
    /// When no usage is equal, List.Find answers the default guid and that
    /// is what is removed. Reading the id of a missing container throws
    /// (ok is false) once the character list has changed; when excluding,
    /// List.Find reads it only when there is a usage to test, so a model
    /// without usages is excluded from a missing container without one.
    method IncludeInCurrentDialog(shouldInclude: bool, list: CharacterList, handler: DialogUtilityUsagesHandler)
      returns (ok: bool)
      modifies list`localCharacterList, list`events, model.data`usages
      ensures ok <==> handler.currentContainer != null || (!shouldInclude && |old(model.data.usages)| == 0)
      ensures shouldInclude ==>
        list.localCharacterList == if model in old(list.localCharacterList) then old(list.localCharacterList)
                                   else old(list.localCharacterList) + [model]
      ensures !shouldInclude ==> list.localCharacterList == RemoveFirst(old(list.localCharacterList), model)
      ensures list.events == old(list.events) + [LocalListChanged]
      ensures Distinct(old(list.localCharacterList)) ==> Distinct(list.localCharacterList)
      ensures !ok ==> model.data.usages == old(model.data.usages)
      ensures ok && shouldInclude ==> model.data.usages == old(model.data.usages) + [handler.currentContainer.id]
      ensures ok && !shouldInclude ==>
        var c := handler.currentContainer;
        var found: Guid := if c != null && c.id in old(model.data.usages) then c.id else EmptyGuid;
        model.data.usages == RemoveFirst(old(model.data.usages), found)
    {
      var container := handler.currentContainer;
      if shouldInclude {
        list.AddCharacterToLocal(model);
        if container == null {
          return false;
        }
        model.data.usages := model.data.usages + [container.id];
      } else {
        list.RemoveCharacterFromLocal(model);
        if container == null && |model.data.usages| > 0 {
          return false;
        }
        var found: Guid := if container != null && container.id in model.data.usages then container.id else EmptyGuid;
        model.data.usages := RemoveFirst(model.data.usages, found);
      }
      ok := true;
    }

    /// SetText: a text that is not blank and is not the name of any
    /// character becomes this character's name, and the change is
    /// announced. None where reading the names throws, or where the record
    /// has no resource to store the name in.
    method SetText(text: Option<string>, list: CharacterList) returns (r: Option<bool>)
      modifies model.data.resource, list`events
      ensures IsNullOrWhiteSpace(text) ==> r == Some(false)
      ensures r.None? <==>
        !IsNullOrWhiteSpace(text) &&
        (old(list.GetGlobalCharacterNames()).None? ||
         (text.value !in old(list.GetGlobalCharacterNames()).value && model.data.resource == null))
      ensures r == Some(true) <==>
        !IsNullOrWhiteSpace(text) && old(list.GetGlobalCharacterNames()).Some? &&
        text.value !in old(list.GetGlobalCharacterNames()).value && model.data.resource != null
      ensures r == Some(true) ==>
        model.data.resource.texts == old(model.data.resource.texts)[model.Id() := text.value] &&
        model.Name() == text && list.events == old(list.events) + [CharacterChanged(model)]
      ensures r != Some(true) ==>
        (model.data.resource != null ==> model.data.resource.texts == old(model.data.resource.texts)) &&
        list.events == old(list.events)
      ensures model.data in list.globalCharacterDataList && text == old(model.Name()) ==> r != Some(true)
    {
      if IsNullOrWhiteSpace(text) {
        return Some(false);
      }
      var names := list.GetGlobalCharacterNames();
      if names.None? {
        return None;
      }
      if text.value in names.value {
        return Some(false);
      }
      var resource := model.data.resource;
      if resource == null {
        return None;
      }
      resource.texts := resource.texts[model.Id() := text.value];
      list.events := list.events + [CharacterChanged(model)];
      r := Some(true);
    }
  }
}
