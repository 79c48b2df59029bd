/**
 * The editing operations of the management tab. Each one reads its inputs
 * from the entry widgets (prompt and type names, texts and introductions
 * are stripped; the names picked in the comboboxes are not), looks the
 * selected type up in the cache, and either refuses with a message or
 * changes the tables and commits. A refused operation leaves the store as
 * it was.
 *
 * The cache lookup `prompt_type_dict[name]['id']` is modelled as
 * `TypeNamed`, which `Cache.CachedTypeIdFinds` shows it agrees with under
 * the unique-name constraint. Comboboxes are editable, so a selected name
 * may be one the cache does not know; the source then raises a `KeyError`,
 * modelled as the `UnknownType` refusal.
 */
module Crud {
  import opened Wrappers
  import opened Catalog
  import Text

  // ---------------------------------------------------------------------
  // Types

  /** `add_type`: insert the stripped name, unless it is empty or taken. */
  function AddType(c: Catalog, name: string): (r: Result<Catalog, Error>)
    ensures r.Success? <==> Text.Strip(name) != "" && Text.Strip(name) !in TypeNames(c.types)
    ensures r.Failure? ==> r.error == (if Text.Strip(name) == "" then ValidationFailure else DuplicateKind)
    ensures r.Success? ==> TypeNames(r.value.types) == TypeNames(c.types) + [Text.Strip(name)]
    ensures r.Success? ==> r.value.prompts == c.prompts && r.value.presets == c.presets
    ensures r.Success? ==> TypeNamed(r.value.types, Text.Strip(name)) == Some(c.nextTypeId)
  {
    var n := Text.Strip(name);
    if n == "" then Failure(ValidationFailure)
    else if n in TypeNames(c.types) then Failure(DuplicateKind)
    else
      TypeNamedAppendNew(c.types, PromptType(c.nextTypeId, n));
      assert TypeNames(c.types + [PromptType(c.nextTypeId, n)]) == TypeNames(c.types) + [n];
      Success(InsertType(c, n))
  }

  /** Adding a type keeps the store valid. */
  lemma AddTypeValid(c: Catalog, name: string)
    requires Valid(c)
    ensures AddType(c, name).Success? ==> Valid(AddType(c, name).value)
  {
    if AddType(c, name).Success? {
      InsertTypeValid(c, Text.Strip(name));
    }
  }

  /**
   * `update_type`: rename the selected type. The same name again is a no-op;
   * a name another row carries is refused by the unique constraint.
   */
  function UpdateType(c: Catalog, oldName: string, newName: string): (r: Result<Catalog, Error>)
    ensures r.Success? <==>
      oldName != "" && Text.Strip(newName) != "" &&
      (oldName == Text.Strip(newName) || (TypeNamed(c.types, oldName).Some? && TypeNamed(c.types, Text.Strip(newName)).None?))
    ensures r.Failure? ==>
      r.error == (if oldName == "" || Text.Strip(newName) == "" then ValidationFailure
                  else if TypeNamed(c.types, oldName).None? then UnknownType
                  else DuplicateKind)
    ensures r.Success? && oldName == Text.Strip(newName) ==> r.value == c
    ensures r.Success? ==> r.value.prompts == c.prompts && r.value.presets == c.presets
    ensures r.Success? ==>
      |r.value.types| == |c.types| && forall i :: 0 <= i < |c.types| ==> r.value.types[i].id == c.types[i].id
  {
    var n := Text.Strip(newName);
    if oldName == "" || n == "" then Failure(ValidationFailure)
    else if oldName == n then Success(c)
    else
      var id := TypeNamed(c.types, oldName);
      if id.None? then Failure(UnknownType)
      else if TypeNamed(c.types, n).Some? then Failure(DuplicateKind)
      else Success(c.(types := RenameType(c.types, id.value, n)))
  }

  /** After a rename the new name finds the renamed row, the old name finds nothing, and every other name finds what it found before. */
  lemma UpdateTypeRenames(c: Catalog, oldName: string, newName: string, other: string)
    requires Valid(c)
    requires UpdateType(c, oldName, newName).Success? && oldName != Text.Strip(newName)
    requires other != Text.Strip(newName)
    ensures var types := UpdateType(c, oldName, newName).value.types;
      && TypeNamed(types, Text.Strip(newName)) == TypeNamed(c.types, oldName)
      && TypeNamed(types, oldName) == None
      && (other != oldName ==> TypeNamed(types, other) == TypeNamed(c.types, other))
  {
    var n := Text.Strip(newName);
    TypeNamedFinds(c.types, oldName);
    TypeNamedFinds(c.types, n);
    var id := TypeNamed(c.types, oldName).value;
    var i :| 0 <= i < |c.types| && c.types[i] == PromptType(id, oldName);
    assert UpdateType(c, oldName, newName).value.types == RenameType(c.types, id, n);
    RenameTypeLookup(c.types, c.nextTypeId, i, n, other);
  }

  lemma UpdateTypeValid(c: Catalog, oldName: string, newName: string)
    requires Valid(c)
    ensures UpdateType(c, oldName, newName).Success? ==> Valid(UpdateType(c, oldName, newName).value)
  {
    var n := Text.Strip(newName);
    if UpdateType(c, oldName, newName).Success? && oldName != n {
      TypeNamedFinds(c.types, n);
      RenameTypeValid(c, TypeNamed(c.types, oldName).value, n);
    }
  }

  /**
   * `delete_type`: once confirmed, delete the type's prompt rows and then
   * the type row; unconfirmed, nothing changes.
   */
  function DeleteType(c: Catalog, name: string, confirmed: bool): (r: Result<Catalog, Error>)
    ensures r.Success? <==> name != "" && (!confirmed || TypeNamed(c.types, name).Some?)
    ensures r.Failure? ==> r.error == (if name == "" then ValidationFailure else UnknownType)
    ensures r.Success? && !confirmed ==> r.value == c
    ensures r.Success? && confirmed ==>
      var id := TypeNamed(c.types, name).value;
      && (forall p :: p in r.value.prompts <==> p in c.prompts && p.typeId != id)
      && (forall t :: t in r.value.types <==> t in c.types && t.id != id)
      && r.value.presets == c.presets
  {
    if name == "" then Failure(ValidationFailure)
    else if !confirmed then Success(c)
    else
      var id := TypeNamed(c.types, name);
      if id.None? then Failure(UnknownType)
      else
        var withoutPrompts := c.(prompts := DeletePrompts(c.prompts, (p: Prompt) => p.typeId == id.value));
        Success(withoutPrompts.(types := DeleteTypeRow(c.types, id.value)))
  }

  /** Deleting a type removes its name, keeps the store valid, and leaves no prompt row pointing at it. */
  lemma DeleteTypeGone(c: Catalog, name: string)
    requires Valid(c)
    requires DeleteType(c, name, true).Success?
    ensures name !in TypeNames(DeleteType(c, name, true).value.types)
    ensures forall p :: p in DeleteType(c, name, true).value.prompts ==> p.typeId != TypeNamed(c.types, name).value
    ensures Valid(DeleteType(c, name, true).value)
  {
    TypeNamedFinds(c.types, name);
    var id := TypeNamed(c.types, name).value;
    var i :| 0 <= i < |c.types| && c.types[i] == PromptType(id, name);
    var withoutPrompts := c.(prompts := DeletePrompts(c.prompts, (p: Prompt) => p.typeId == id));
    assert DeleteType(c, name, true).value == withoutPrompts.(types := DeleteTypeRow(c.types, id));
    DeleteTypeRowDropsName(c.types, id, i);
    DeletePromptsValid(c, (p: Prompt) => p.typeId == id);
    DeleteTypeRowValid(withoutPrompts, id);
  }

  // ---------------------------------------------------------------------
  // Prompts

  /**
   * `add_prompt`: name and text are required (the introduction may be
   * empty); a name the selected type already has is refused.
   */
  function AddPrompt(c: Catalog, selected: string, name: string, text: string, introduction: string): (r: Result<Catalog, Error>)
    ensures r.Success? <==>
      && selected != "" && Text.Strip(name) != "" && Text.Strip(text) != ""
      && TypeNamed(c.types, selected).Some?
      && !HasPrompt(c.prompts, TypeNamed(c.types, selected).value, Text.Strip(name))
    ensures r.Failure? ==>
      r.error == (if selected == "" || Text.Strip(name) == "" || Text.Strip(text) == "" then ValidationFailure
                  else if TypeNamed(c.types, selected).None? then UnknownType
                  else DuplicateKind)
    ensures r.Success? ==>
      r.value.prompts == c.prompts + [Prompt(c.nextPromptId, TypeNamed(c.types, selected).value,
                                             Text.Strip(name), Text.Strip(text), Text.Strip(introduction))]
    ensures r.Success? ==> r.value.types == c.types && r.value.presets == c.presets
  {
    var n := Text.Strip(name);
    var t := Text.Strip(text);
    if selected == "" || n == "" || t == "" then Failure(ValidationFailure)
    else
      var id := TypeNamed(c.types, selected);
      if id.None? then Failure(UnknownType)
      else if HasPrompt(c.prompts, id.value, n) then Failure(DuplicateKind)
      else Success(InsertPrompt(c, id.value, n, t, Text.Strip(introduction)))
  }

  /** Adding a prompt keeps the store valid. */
  lemma AddPromptValid(c: Catalog, selected: string, name: string, text: string, introduction: string)
    requires Valid(c)
    ensures AddPrompt(c, selected, name, text, introduction).Success? ==>
      Valid(AddPrompt(c, selected, name, text, introduction).value)
  {
    if AddPrompt(c, selected, name, text, introduction).Success? {
      TypeNamedFinds(c.types, selected);
      var id := TypeNamed(c.types, selected).value;
      var i :| 0 <= i < |c.types| && c.types[i] == PromptType(id, selected);
      InsertPromptValid(c, id, Text.Strip(name), Text.Strip(text), Text.Strip(introduction));
    }
  }

  /** Appending a row whose type and name no row has keeps the keys unique. */
  lemma AppendUnique(ps: seq<Prompt>, p: Prompt)
    requires UniquePromptKeys(ps) && !HasPrompt(ps, p.typeId, p.name)
    ensures UniquePromptKeys(ps + [p])
  {
    var qs := ps + [p];
    forall i, j | 0 <= i < j < |qs|
      ensures !(qs[i].typeId == qs[j].typeId && qs[i].name == qs[j].name)
    {
      assert qs[i] == ps[i];
      if j == |ps| {
        assert ps[i] in ps;
      } else {
        assert qs[j] == ps[j];
      }
    }
  }

  /** Adding a prompt never creates a second row with the same type and name. */
  lemma AddPromptUnique(c: Catalog, selected: string, name: string, text: string, introduction: string)
    requires UniquePromptKeys(c.prompts)
    ensures AddPrompt(c, selected, name, text, introduction).Success? ==>
      UniquePromptKeys(AddPrompt(c, selected, name, text, introduction).value.prompts)
  {
    var r := AddPrompt(c, selected, name, text, introduction);
    if r.Success? {
      var id := TypeNamed(c.types, selected).value;
      AppendUnique(c.prompts, Prompt(c.nextPromptId, id, Text.Strip(name), Text.Strip(text), Text.Strip(introduction)));
    }
  }

  /** The entry fields `update_prompt` requires: a type, a name (old or new), a text and an introduction. */
  predicate UpdateFilled(selected: string, oldName: string, newName: string, text: string, introduction: string)
  {
    selected != "" && (oldName != "" || Text.Strip(newName) != "") && Text.Strip(text) != "" && Text.Strip(introduction) != ""
  }

  /**
   * `update_prompt` as written: when the name changed, the rows under the
   * old name are deleted; then a row is inserted under the new name, even
   * when rows with that name are still there.
   */
  function UpdatePromptAsWritten(c: Catalog, selected: string, oldName: string, newName: string, text: string, introduction: string): (r: Result<Catalog, Error>)
    ensures r.Success? <==> UpdateFilled(selected, oldName, newName, text, introduction) && TypeNamed(c.types, selected).Some?
    ensures r.Success? ==>
      var id := TypeNamed(c.types, selected).value;
      var added := Prompt(c.nextPromptId, id, Text.Strip(newName), Text.Strip(text), Text.Strip(introduction));
      && added in r.value.prompts
      && (forall p :: p in r.value.prompts <==>
            p == added || (p in c.prompts && !(oldName != "" && oldName != Text.Strip(newName) && p.typeId == id && p.name == oldName)))
  {
    if !UpdateFilled(selected, oldName, newName, text, introduction) then Failure(ValidationFailure)
    else
      var id := TypeNamed(c.types, selected);
      if id.None? then Failure(UnknownType)
      else
        var n := Text.Strip(newName);
        var kept := if oldName != "" && oldName != n
          then DeletePrompts(c.prompts, (p: Prompt) => p.typeId == id.value && p.name == oldName)
          else c.prompts;
        Success(InsertPrompt(c.(prompts := kept), id.value, n, Text.Strip(text), Text.Strip(introduction)))
  }

  /** The update as written keeps the store valid, though not (type, name) unique. */
  lemma UpdatePromptAsWrittenValid(c: Catalog, selected: string, oldName: string, newName: string, text: string, introduction: string)
    requires Valid(c)
    ensures UpdatePromptAsWritten(c, selected, oldName, newName, text, introduction).Success? ==>
      Valid(UpdatePromptAsWritten(c, selected, oldName, newName, text, introduction).value)
  {
    if UpdatePromptAsWritten(c, selected, oldName, newName, text, introduction).Success? {
      TypeNamedFinds(c.types, selected);
      var id := TypeNamed(c.types, selected).value;
      var i :| 0 <= i < |c.types| && c.types[i] == PromptType(id, selected);
      var n := Text.Strip(newName);
      var doomed := (p: Prompt) => p.typeId == id && p.name == oldName;
      var kept := if oldName != "" && oldName != n then DeletePrompts(c.prompts, doomed) else c.prompts;
      DeletePromptsValid(c, doomed);
      assert Valid(c.(prompts := kept));
      InsertPromptValid(c.(prompts := kept), id, n, Text.Strip(text), Text.Strip(introduction));
    }
  }

  /**
   * Editing only the text of a prompt leaves the old row in place next to the
   * new one: the type then has two rows with the same name.
   */
  lemma UpdateKeepingNameDuplicates()
    ensures var c := Catalog([PromptType(1, "Style")], [Prompt(1, 1, "Vivid", "bright", "old")], [], 2, 2, 1);
      var r := UpdatePromptAsWritten(c, "Style", "Vivid", "Vivid", "hyperrealistic", "new");
      && UniquePromptKeys(c.prompts)
      && r.Success?
      && r.value.prompts == [Prompt(1, 1, "Vivid", "bright", "old"), Prompt(2, 1, "Vivid", "hyperrealistic", "new")]
      && !UniquePromptKeys(r.value.prompts)
  {
    var c := Catalog([PromptType(1, "Style")], [Prompt(1, 1, "Vivid", "bright", "old")], [], 2, 2, 1);
    Text.StripTrimmed("Vivid");
    Text.StripTrimmed("hyperrealistic");
    Text.StripTrimmed("new");
    assert TypeNamed(c.types, "Style") == Some(1);
    assert UpdateFilled("Style", "Vivid", "Vivid", "hyperrealistic", "new");
    var ps := [Prompt(1, 1, "Vivid", "bright", "old"), Prompt(2, 1, "Vivid", "hyperrealistic", "new")];
    assert ps[0].typeId == ps[1].typeId && ps[0].name == ps[1].name;
  }

  /**
   * `update_prompt` as its comment ("insert or update") intends: the rows
   * under the old name and under the new name are replaced by one row.
   */
  function UpdatePrompt(c: Catalog, selected: string, oldName: string, newName: string, text: string, introduction: string): (r: Result<Catalog, Error>)
    ensures r.Success? <==> UpdateFilled(selected, oldName, newName, text, introduction) && TypeNamed(c.types, selected).Some?
    ensures r.Failure? ==>
      r.error == (if !UpdateFilled(selected, oldName, newName, text, introduction) then ValidationFailure else UnknownType)
    ensures r.Success? ==> r.value.types == c.types && r.value.presets == c.presets
    ensures r.Success? ==>
      var id := TypeNamed(c.types, selected).value;
      var added := Prompt(c.nextPromptId, id, Text.Strip(newName), Text.Strip(text), Text.Strip(introduction));
      && added in r.value.prompts
      && (forall p :: p in r.value.prompts <==>
            p == added || (p in c.prompts && !(p.typeId == id && (p.name == Text.Strip(newName) || (oldName != "" && p.name == oldName)))))
  {
    if !UpdateFilled(selected, oldName, newName, text, introduction) then Failure(ValidationFailure)
    else
      var id := TypeNamed(c.types, selected);
      if id.None? then Failure(UnknownType)
      else
        var n := Text.Strip(newName);
        var kept := DeletePrompts(c.prompts, (p: Prompt) => p.typeId == id.value && (p.name == n || (oldName != "" && p.name == oldName)));
        Success(InsertPrompt(c.(prompts := kept), id.value, n, Text.Strip(text), Text.Strip(introduction)))
  }

  /** After an update the type has exactly one row under the new name, and none under a different old name. */
  lemma UpdatePromptLeavesOne(c: Catalog, selected: string, oldName: string, newName: string, text: string, introduction: string)
    requires UpdatePrompt(c, selected, oldName, newName, text, introduction).Success?
    ensures var r := UpdatePrompt(c, selected, oldName, newName, text, introduction).value;
      var id := TypeNamed(c.types, selected).value;
      && (forall p :: p in r.prompts && p.typeId == id && p.name == Text.Strip(newName) ==> p.id == c.nextPromptId)
      && (oldName != "" && oldName != Text.Strip(newName) ==> !HasPrompt(r.prompts, id, oldName))
  {
    var r := UpdatePrompt(c, selected, oldName, newName, text, introduction).value;
    var id := TypeNamed(c.types, selected).value;
    var n := Text.Strip(newName);
    forall p | p in r.prompts && p.typeId == id && p.name == n
      ensures p.id == c.nextPromptId
    {
    }
  }

  /** The corrected update keeps the store valid and keeps (type, name) unique. */
  lemma UpdatePromptValid(c: Catalog, selected: string, oldName: string, newName: string, text: string, introduction: string)
    requires Valid(c)
    ensures UpdatePrompt(c, selected, oldName, newName, text, introduction).Success? ==>
      Valid(UpdatePrompt(c, selected, oldName, newName, text, introduction).value)
    ensures UpdatePrompt(c, selected, oldName, newName, text, introduction).Success? && UniquePromptKeys(c.prompts) ==>
      UniquePromptKeys(UpdatePrompt(c, selected, oldName, newName, text, introduction).value.prompts)
  {
    if UpdatePrompt(c, selected, oldName, newName, text, introduction).Success? {
      TypeNamedFinds(c.types, selected);
      var id := TypeNamed(c.types, selected).value;
      var i :| 0 <= i < |c.types| && c.types[i] == PromptType(id, selected);
      var n := Text.Strip(newName);
      var doomed := (p: Prompt) => p.typeId == id && (p.name == n || (oldName != "" && p.name == oldName));
      var kept := DeletePrompts(c.prompts, doomed);
      DeletePromptsValid(c, doomed);
      InsertPromptValid(c.(prompts := kept), id, n, Text.Strip(text), Text.Strip(introduction));
      if UniquePromptKeys(c.prompts) {
        DeletePromptsUnique(c.prompts, doomed);
        AppendUnique(kept, Prompt(c.nextPromptId, id, n, Text.Strip(text), Text.Strip(introduction)));
      }
    }
  }

  /** Deleting rows keeps (type, name) unique. */
  lemma {:induction false} DeletePromptsUnique(prompts: seq<Prompt>, doomed: Prompt -> bool)
    requires UniquePromptKeys(prompts)
    ensures UniquePromptKeys(DeletePrompts(prompts, doomed))
  {
    if |prompts| > 0 {
      DeletePromptsUnique(prompts[1..], doomed);
      var rest := DeletePrompts(prompts[1..], doomed);
      forall p | p in rest
        ensures !(prompts[0].typeId == p.typeId && prompts[0].name == p.name)
      {
        var i :| 0 <= i < |prompts[1..]| && prompts[1..][i] == p;
        assert prompts[i + 1] == p;
      }
    }
  }

  /** `delete_prompt`: once confirmed, delete the selected type's rows with that name. */
  function DeletePrompt(c: Catalog, selected: string, name: string, confirmed: bool): (r: Result<Catalog, Error>)
    ensures r.Success? <==> selected != "" && name != "" && (!confirmed || TypeNamed(c.types, selected).Some?)
    ensures r.Failure? ==> r.error == (if selected == "" || name == "" then ValidationFailure else UnknownType)
    ensures r.Success? && !confirmed ==> r.value == c
    ensures r.Success? && confirmed ==>
      var id := TypeNamed(c.types, selected).value;
      && !HasPrompt(r.value.prompts, id, name)
      && (forall p :: p in r.value.prompts <==> p in c.prompts && !(p.typeId == id && p.name == name))
      && r.value.types == c.types && r.value.presets == c.presets
  {
    if selected == "" || name == "" then Failure(ValidationFailure)
    else if !confirmed then Success(c)
    else
      var id := TypeNamed(c.types, selected);
      if id.None? then Failure(UnknownType)
      else Success(c.(prompts := DeletePrompts(c.prompts, (p: Prompt) => p.typeId == id.value && p.name == name)))
  }

  lemma DeletePromptValid(c: Catalog, selected: string, name: string, confirmed: bool)
    requires Valid(c)
    ensures DeletePrompt(c, selected, name, confirmed).Success? ==> Valid(DeletePrompt(c, selected, name, confirmed).value)
  {
    if DeletePrompt(c, selected, name, confirmed).Success? && confirmed {
      var id := TypeNamed(c.types, selected).value;
      DeletePromptsValid(c, (p: Prompt) => p.typeId == id && p.name == name);
    }
  }
}
