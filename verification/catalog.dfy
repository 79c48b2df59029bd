/**
 * The three tables of the catalog store (`prompt_types`, `prompts`,
 * `presets`) as sequences of rows in row-id order, plus the AUTOINCREMENT
 * counter of each table, and the row-level primitives every operation is
 * built from.
 */
module Catalog {
  import opened Wrappers

  /** Why an operation was refused; a refused operation leaves the store as it was. */
  datatype Error =
    | DuplicateKind      // the unique type name, or an existing (type, prompt name) pair
    | ValidationFailure  // a required entry field is empty
    | UnknownType        // the selected type name is not in the read-through cache
    | MalformedJson      // a JSON document without the catalog's shape
    | IOFailure          // the file or the download could not be read

  /** A row of `prompt_types`. */
  datatype PromptType = PromptType(id: nat, name: string)

  /** A row of `prompts`; `typeId` refers to the owning `prompt_types` row. */
  datatype Prompt = Prompt(id: nat, typeId: nat, name: string, text: string, introduction: string)

  /** A row of `presets`: a named positive/negative buffer pair. */
  datatype Preset = Preset(id: nat, name: string, positive: string, negative: string)

  /**
   * The whole store. Each `next…Id` is the id the next insert into that table
   * receives: AUTOINCREMENT never hands out an id twice, even after deletes.
   */
  datatype Catalog = Catalog(
    types: seq<PromptType>,
    prompts: seq<Prompt>,
    presets: seq<Preset>,
    nextTypeId: nat,
    nextPromptId: nat,
    nextPresetId: nat)

  /** A freshly created store. */
  const Empty := Catalog([], [], [], 1, 1, 1)

  /** Rows are kept in id order, and every id is below its table's counter. */
  ghost predicate TypesInOrder(types: seq<PromptType>, next: nat)
  {
    && (forall i :: 0 <= i < |types| ==> types[i].id < next)
    && (forall i, j :: 0 <= i < j < |types| ==> types[i].id < types[j].id)
  }

  ghost predicate PromptsInOrder(prompts: seq<Prompt>, next: nat)
  {
    && (forall i :: 0 <= i < |prompts| ==> prompts[i].id < next)
    && (forall i, j :: 0 <= i < j < |prompts| ==> prompts[i].id < prompts[j].id)
  }

  ghost predicate PresetsInOrder(presets: seq<Preset>, next: nat)
  {
    && (forall i :: 0 <= i < |presets| ==> presets[i].id < next)
    && (forall i, j :: 0 <= i < j < |presets| ==> presets[i].id < presets[j].id)
  }

  /** The `type_name UNIQUE` constraint of `prompt_types`. */
  ghost predicate UniqueTypeNames(types: seq<PromptType>)
  {
    forall i, j :: 0 <= i < j < |types| ==> types[i].name != types[j].name
  }

  /** No two prompt rows share a type and a name: what `add_prompt`'s duplicate check protects. */
  ghost predicate UniquePromptKeys(prompts: seq<Prompt>)
  {
    forall i, j :: 0 <= i < j < |prompts| ==> !(prompts[i].typeId == prompts[j].typeId && prompts[i].name == prompts[j].name)
  }

  /**
   * The store's integrity: ordered ids, unique type names, and every prompt's
   * `typeId` an id that the type table has handed out at some point.
   */
  ghost predicate Valid(c: Catalog)
  {
    && TypesInOrder(c.types, c.nextTypeId)
    && UniqueTypeNames(c.types)
    && PromptsInOrder(c.prompts, c.nextPromptId)
    && (forall i :: 0 <= i < |c.prompts| ==> c.prompts[i].typeId < c.nextTypeId)
    && PresetsInOrder(c.presets, c.nextPresetId)
  }

  lemma EmptyValid()
    ensures Valid(Empty)
  {
  }

  /** The names of the type table, in row order. */
  function TypeNames(types: seq<PromptType>): (names: seq<string>)
    ensures |names| == |types|
    ensures forall i :: 0 <= i < |types| ==> names[i] == types[i].name
  {
    if |types| == 0 then [] else [types[0].name] + TypeNames(types[1..])
  }

  /**
   * The id the selected type name stands for: the first row carrying it.
   * The code reads it from the cache (`self.prompt_type_dict[…]['id']`);
   * `Cache.CachedTypeIdFinds` shows the two lookups agree.
   */
  function TypeNamed(types: seq<PromptType>, name: string): Option<nat>
  {
    if |types| == 0 then None
    else if types[0].name == name then Some(types[0].id)
    else TypeNamed(types[1..], name)
  }

  /** A name finds a row exactly when some row carries it, and what it finds is such a row's id. */
  lemma {:induction false} TypeNamedFinds(types: seq<PromptType>, name: string)
    ensures TypeNamed(types, name).None? <==> name !in TypeNames(types)
    ensures TypeNamed(types, name).Some? ==>
      exists i :: 0 <= i < |types| && types[i] == PromptType(TypeNamed(types, name).value, name)
  {
    if |types| > 0 {
      assert TypeNames(types) == [types[0].name] + TypeNames(types[1..]);
      TypeNamedFinds(types[1..], name);
      if types[0].name != name && TypeNamed(types, name).Some? {
        var i :| 0 <= i < |types[1..]| && types[1..][i] == PromptType(TypeNamed(types, name).value, name);
        assert types[i + 1] == types[1..][i];
      }
    }
  }

  /** Under the unique-name constraint the row a name finds is the only one carrying it. */
  lemma TypeNamedUnique(types: seq<PromptType>, i: int)
    requires UniqueTypeNames(types)
    requires 0 <= i < |types|
    ensures TypeNamed(types, types[i].name) == Some(types[i].id)
  {
    TypeNamedFinds(types, types[i].name);
    var r := TypeNamed(types, types[i].name);
    var j :| 0 <= j < |types| && types[j] == PromptType(r.value, types[i].name);
    assert i == j;
  }

  /** The type table read as a name-to-id map; where a name repeats, the first row wins, as in `TypeNamed`. */
  function NameMap(types: seq<PromptType>): map<string, nat>
  {
    if |types| == 0 then map[] else NameMap(types[1..])[types[0].name := types[0].id]
  }

  /** Looking a name up in the map is looking it up in the table. */
  lemma {:induction false} NameMapLookup(types: seq<PromptType>, n: string)
    ensures TypeNamed(types, n) == (if n in NameMap(types) then Some(NameMap(types)[n]) else None)
  {
    if |types| > 0 {
      NameMapLookup(types[1..], n);
    }
  }

  /** Appending a row under a new name adds exactly that name to the map. */
  lemma {:induction false} NameMapAppend(types: seq<PromptType>, t: PromptType)
    requires t.name !in NameMap(types)
    ensures NameMap(types + [t]) == NameMap(types)[t.name := t.id]
  {
    if |types| > 0 {
      assert (types + [t])[1..] == types[1..] + [t];
      assert t.name !in NameMap(types[1..]);
      NameMapAppend(types[1..], t);
    }
  }

  /** A row appended under a new name is the one that name finds. */
  lemma TypeNamedAppendNew(types: seq<PromptType>, t: PromptType)
    requires t.name !in TypeNames(types)
    ensures TypeNamed(types + [t], t.name) == Some(t.id)
  {
    TypeNamedFinds(types, t.name);
    NameMapLookup(types, t.name);
    NameMapAppend(types, t);
    NameMapLookup(types + [t], t.name);
  }

  /** Appending a row changes what a name finds only for a name no earlier row carries. */
  lemma {:induction false} TypeNamedSnoc(types: seq<PromptType>, t: PromptType, n: string)
    ensures TypeNamed(types + [t], n)
         == if TypeNamed(types, n).Some? then TypeNamed(types, n) else if n == t.name then Some(t.id) else None
  {
    if |types| == 0 {
      assert types + [t] == [t];
    } else {
      assert (types + [t])[1..] == types[1..] + [t];
      TypeNamedSnoc(types[1..], t, n);
    }
  }

  /**
   * `INSERT INTO prompt_types (type_name) VALUES (?)`, once the name is known
   * to be new: the earlier rows stay, a new name finds the next AUTOINCREMENT
   * id, and every other name finds what it found before.
   */
  function InsertType(c: Catalog, name: string): (c': Catalog)
    ensures |c'.types| == |c.types| + 1 && c'.types[..|c.types|] == c.types
    ensures name !in TypeNames(c.types) ==> TypeNamed(c'.types, name) == Some(c.nextTypeId)
    ensures forall n :: n != name ==> TypeNamed(c'.types, n) == TypeNamed(c.types, n)
    ensures c'.nextTypeId == c.nextTypeId + 1
    ensures c'.prompts == c.prompts && c'.presets == c.presets
    ensures c'.nextPromptId == c.nextPromptId && c'.nextPresetId == c.nextPresetId
  {
    var t := PromptType(c.nextTypeId, name);
    TypeNamedFinds(c.types, name);
    TypeNamedSnoc(c.types, t, name);
    assert forall n :: (TypeNamed(c.types + [t], n)
         == if TypeNamed(c.types, n).Some? then TypeNamed(c.types, n) else if n == name then Some(t.id) else None)
      by {
        forall n {
          TypeNamedSnoc(c.types, t, n);
        }
      }
    assert (c.types + [t])[..|c.types|] == c.types;
    c.(types := c.types + [t], nextTypeId := c.nextTypeId + 1)
  }

  /** Inserting a type under a name not yet taken keeps the store valid. */
  lemma InsertTypeValid(c: Catalog, name: string)
    requires Valid(c) && name !in TypeNames(c.types)
    ensures Valid(InsertType(c, name))
  {
    var c' := InsertType(c, name);
    assert forall i :: 0 <= i < |c.types| ==> c'.types[i] == c.types[i];
  }

  /**
   * `INSERT INTO prompts (type_id, prompt_name, prompt_text, introduction) VALUES (?,?,?,?)`:
   * the earlier rows stay, the (type, name) pair is now present, and the new
   * row's AUTOINCREMENT id is above every earlier id.
   */
  function InsertPrompt(c: Catalog, typeId: nat, name: string, text: string, introduction: string): (c': Catalog)
    ensures |c'.prompts| == |c.prompts| + 1 && c'.prompts[..|c.prompts|] == c.prompts
    ensures forall p :: p in c'.prompts <==> p in c.prompts || p == Prompt(c.nextPromptId, typeId, name, text, introduction)
    ensures HasPrompt(c'.prompts, typeId, name)
    ensures PromptsInOrder(c.prompts, c.nextPromptId) ==> PromptsInOrder(c'.prompts, c'.nextPromptId)
    ensures c'.nextPromptId == c.nextPromptId + 1
    ensures c'.types == c.types && c'.presets == c.presets
    ensures c'.nextTypeId == c.nextTypeId && c'.nextPresetId == c.nextPresetId
  {
    var p := Prompt(c.nextPromptId, typeId, name, text, introduction);
    var ps := c.prompts + [p];
    assert ps[..|c.prompts|] == c.prompts;
    assert ps[|c.prompts|] == p;
    c.(prompts := ps, nextPromptId := c.nextPromptId + 1)
  }

  /** Inserting a prompt under a type id the table has handed out keeps the store valid. */
  lemma InsertPromptValid(c: Catalog, typeId: nat, name: string, text: string, introduction: string)
    requires Valid(c) && typeId < c.nextTypeId
    ensures Valid(InsertPrompt(c, typeId, name, text, introduction))
  {
    var c' := InsertPrompt(c, typeId, name, text, introduction);
    assert forall i :: 0 <= i < |c.prompts| ==> c'.prompts[i] == c.prompts[i];
  }

  /** `SELECT id FROM prompts WHERE type_id = ? AND prompt_name = ?` finds a row. */
  function HasPrompt(prompts: seq<Prompt>, typeId: nat, name: string): (b: bool)
    ensures b <==> exists p :: p in prompts && p.typeId == typeId && p.name == name
  {
    if |prompts| == 0 then false
    else
      assert forall p :: p in prompts <==> p == prompts[0] || p in prompts[1..];
      (prompts[0].typeId == typeId && prompts[0].name == name) || HasPrompt(prompts[1..], typeId, name)
  }

  /** A row appended to the table is found exactly when it or an earlier row matches. */
  lemma HasPromptSnoc(prompts: seq<Prompt>, p: Prompt, typeId: nat, name: string)
    ensures HasPrompt(prompts + [p], typeId, name)
        <==> HasPrompt(prompts, typeId, name) || (p.typeId == typeId && p.name == name)
  {
    assert forall q :: q in prompts + [p] <==> q in prompts || q == p;
  }

  /** Deleting prompt rows keeps the store valid. */
  lemma DeletePromptsValid(c: Catalog, doomed: Prompt -> bool)
    requires Valid(c)
    ensures Valid(c.(prompts := DeletePrompts(c.prompts, doomed)))
  {
    DeletePromptsInOrder(c.prompts, doomed, c.nextPromptId);
    var rest := DeletePrompts(c.prompts, doomed);
    forall i | 0 <= i < |rest|
      ensures rest[i].typeId < c.nextTypeId
    {
      assert rest[i] in c.prompts;
    }
  }

  /** `DELETE FROM prompts WHERE …`: the rows `doomed` does not select, in their order. */
  function DeletePrompts(prompts: seq<Prompt>, doomed: Prompt -> bool): (r: seq<Prompt>)
    ensures |r| <= |prompts|
    ensures forall p :: p in r <==> p in prompts && !doomed(p)
  {
    if |prompts| == 0 then []
    else
      var rest := DeletePrompts(prompts[1..], doomed);
      assert forall p :: p in prompts <==> p == prompts[0] || p in prompts[1..];
      if doomed(prompts[0]) then rest else [prompts[0]] + rest
  }

  /** A row whose id is below every id of an ordered table can go in front of it. */
  lemma PromptsConsInOrder(p: Prompt, rest: seq<Prompt>, next: nat)
    requires p.id < next && PromptsInOrder(rest, next)
    requires forall q :: q in rest ==> p.id < q.id
    ensures PromptsInOrder([p] + rest, next)
  {
    var ps := [p] + rest;
    forall i, j | 0 <= i < j < |ps|
      ensures ps[i].id < ps[j].id
    {
      assert ps[j] == rest[j - 1];
      if i > 0 {
        assert ps[i] == rest[i - 1];
      } else {
        assert rest[j - 1] in rest;
      }
    }
  }

  /** Deleting prompt rows keeps the survivors in id order. */
  lemma {:induction false} DeletePromptsInOrder(prompts: seq<Prompt>, doomed: Prompt -> bool, next: nat)
    requires PromptsInOrder(prompts, next)
    ensures PromptsInOrder(DeletePrompts(prompts, doomed), next)
  {
    if |prompts| > 0 {
      var tail := prompts[1..];
      assert PromptsInOrder(tail, next) by {
        forall i, j | 0 <= i < j < |tail|
          ensures tail[i].id < tail[j].id
        {
          assert tail[i] == prompts[i + 1] && tail[j] == prompts[j + 1];
        }
      }
      DeletePromptsInOrder(tail, doomed, next);
      var rest := DeletePrompts(tail, doomed);
      if !doomed(prompts[0]) {
        forall q | q in rest
          ensures prompts[0].id < q.id
        {
          var i :| 0 <= i < |tail| && tail[i] == q;
          assert prompts[i + 1] == q;
        }
        PromptsConsInOrder(prompts[0], rest, next);
      }
    }
  }

  /** `DELETE FROM prompt_types WHERE id = ?`. */
  function DeleteTypeRow(types: seq<PromptType>, id: nat): (r: seq<PromptType>)
    ensures |r| <= |types|
    ensures forall t :: t in r <==> t in types && t.id != id
  {
    if |types| == 0 then []
    else
      var rest := DeleteTypeRow(types[1..], id);
      assert forall t :: t in types <==> t == types[0] || t in types[1..];
      if types[0].id == id then rest else [types[0]] + rest
  }

  /** A row whose id is below every id of an ordered table can go in front of it. */
  lemma TypesConsInOrder(t: PromptType, rest: seq<PromptType>, next: nat)
    requires t.id < next && TypesInOrder(rest, next)
    requires forall u :: u in rest ==> t.id < u.id
    ensures TypesInOrder([t] + rest, next)
  {
    var ts := [t] + rest;
    forall i, j | 0 <= i < j < |ts|
      ensures ts[i].id < ts[j].id
    {
      assert ts[j] == rest[j - 1];
      if i > 0 {
        assert ts[i] == rest[i - 1];
      } else {
        assert rest[j - 1] in rest;
      }
    }
  }

  /** Deleting a type row keeps the others in id order. */
  lemma {:induction false} DeleteTypeRowInOrder(types: seq<PromptType>, id: nat, next: nat)
    requires TypesInOrder(types, next)
    ensures TypesInOrder(DeleteTypeRow(types, id), next)
  {
    if |types| > 0 {
      var tail := types[1..];
      assert TypesInOrder(tail, next) by {
        forall i, j | 0 <= i < j < |tail|
          ensures tail[i].id < tail[j].id
        {
          assert tail[i] == types[i + 1] && tail[j] == types[j + 1];
        }
      }
      DeleteTypeRowInOrder(tail, id, next);
      var rest := DeleteTypeRow(tail, id);
      if types[0].id != id {
        forall u | u in rest
          ensures types[0].id < u.id
        {
          var i :| 0 <= i < |tail| && tail[i] == u;
          assert types[i + 1] == u;
        }
        TypesConsInOrder(types[0], rest, next);
      }
    }
  }

  /** Deleting a type row keeps the remaining names unique. */
  lemma {:induction false} DeleteTypeRowUnique(types: seq<PromptType>, id: nat)
    requires UniqueTypeNames(types)
    ensures UniqueTypeNames(DeleteTypeRow(types, id))
  {
    if |types| > 0 {
      DeleteTypeRowUnique(types[1..], id);
      var rest := DeleteTypeRow(types[1..], id);
      forall t | t in rest
        ensures types[0].name != t.name
      {
        var i :| 0 <= i < |types[1..]| && types[1..][i] == t;
        assert types[i + 1] == t;
      }
    }
  }

  /** Under unique names, deleting the row with a name's id removes that name. */
  lemma DeleteTypeRowDropsName(types: seq<PromptType>, id: nat, i: int)
    requires UniqueTypeNames(types)
    requires 0 <= i < |types| && types[i].id == id
    ensures types[i].name !in TypeNames(DeleteTypeRow(types, id))
  {
    var r := DeleteTypeRow(types, id);
    forall k | 0 <= k < |r|
      ensures TypeNames(r)[k] != types[i].name
    {
      assert r[k] in types;
    }
  }

  /** Deleting a type row keeps the store valid. */
  lemma DeleteTypeRowValid(c: Catalog, id: nat)
    requires Valid(c)
    ensures Valid(c.(types := DeleteTypeRow(c.types, id)))
  {
    DeleteTypeRowInOrder(c.types, id, c.nextTypeId);
    DeleteTypeRowUnique(c.types, id);
  }

  /** `UPDATE prompt_types SET type_name = ? WHERE id = ?`. */
  function RenameType(types: seq<PromptType>, id: nat, name: string): (r: seq<PromptType>)
    ensures |r| == |types|
    ensures forall i :: 0 <= i < |types| ==> r[i] == if types[i].id == id then PromptType(id, name) else types[i]
  {
    if |types| == 0 then []
    else [if types[0].id == id then PromptType(id, name) else types[0]] + RenameType(types[1..], id, name)
  }

  /** A name the renamed rows did not carry, other than the new one, finds what it found before. */
  lemma {:induction false} RenameTypeOther(types: seq<PromptType>, id: nat, name: string, other: string)
    requires other != name
    requires forall j :: 0 <= j < |types| && types[j].id == id ==> types[j].name != other
    ensures TypeNamed(RenameType(types, id, name), other) == TypeNamed(types, other)
  {
    if |types| > 0 {
      assert RenameType(types, id, name)[1..] == RenameType(types[1..], id, name);
      RenameTypeOther(types[1..], id, name, other);
    }
  }

  /** The old name of the renamed rows finds nothing once no other row carries it. */
  lemma {:induction false} RenameTypeGone(types: seq<PromptType>, id: nat, name: string, oldName: string)
    requires oldName != name
    requires forall j :: 0 <= j < |types| && types[j].name == oldName ==> types[j].id == id
    ensures TypeNamed(RenameType(types, id, name), oldName) == None
  {
    if |types| > 0 {
      assert RenameType(types, id, name)[1..] == RenameType(types[1..], id, name);
      RenameTypeGone(types[1..], id, name, oldName);
    }
  }

  /** A new name given to the rows with `id` finds `id`. */
  lemma {:induction false} RenameTypeNew(types: seq<PromptType>, id: nat, name: string, i: int)
    requires name !in TypeNames(types)
    requires 0 <= i < |types| && types[i].id == id
    ensures TypeNamed(RenameType(types, id, name), name) == Some(id)
  {
    if types[0].id != id {
      assert types[0].name == TypeNames(types)[0];
      assert RenameType(types, id, name)[1..] == RenameType(types[1..], id, name);
      assert TypeNames(types[1..]) == TypeNames(types)[1..];
      RenameTypeNew(types[1..], id, name, i - 1);
    }
  }

  /**
   * Renaming row `i` to a name no row carries: the new name finds it, its
   * old name finds nothing, and every other name finds what it found before.
   */
  lemma RenameTypeLookup(types: seq<PromptType>, next: nat, i: int, name: string, other: string)
    requires TypesInOrder(types, next) && UniqueTypeNames(types)
    requires 0 <= i < |types| && name !in TypeNames(types)
    requires other != name
    ensures TypeNamed(RenameType(types, types[i].id, name), name) == Some(types[i].id)
    ensures TypeNamed(RenameType(types, types[i].id, name), types[i].name) == None
    ensures other != types[i].name ==> TypeNamed(RenameType(types, types[i].id, name), other) == TypeNamed(types, other)
  {
    var id := types[i].id;
    RenameTypeNew(types, id, name, i);
    assert types[i].name == TypeNames(types)[i];
    RenameTypeGone(types, id, name, types[i].name);
    if other != types[i].name {
      RenameTypeOther(types, id, name, other);
    }
  }

  /** Renaming the one row with an id to a name no row carries keeps the names unique. */
  lemma RenameTypeUnique(types: seq<PromptType>, next: nat, id: nat, name: string)
    requires TypesInOrder(types, next) && UniqueTypeNames(types) && name !in TypeNames(types)
    ensures UniqueTypeNames(RenameType(types, id, name))
  {
    var r := RenameType(types, id, name);
    forall i, j | 0 <= i < j < |r|
      ensures r[i].name != r[j].name
    {
      assert types[i].id < types[j].id;
      assert TypeNames(types)[i] == types[i].name && TypeNames(types)[j] == types[j].name;
      if types[i].id == id {
        assert r[i].name == name && r[j] == types[j];
      } else if types[j].id == id {
        assert r[j].name == name && r[i] == types[i];
      } else {
        assert r[i] == types[i] && r[j] == types[j];
      }
    }
  }

  /** Renaming keeps every id where it was. */
  lemma RenameTypeInOrder(types: seq<PromptType>, next: nat, id: nat, name: string)
    requires TypesInOrder(types, next)
    ensures TypesInOrder(RenameType(types, id, name), next)
  {
  }

  /** Renaming to a name no row carries keeps the store valid. */
  lemma RenameTypeValid(c: Catalog, id: nat, name: string)
    requires Valid(c) && name !in TypeNames(c.types)
    ensures Valid(c.(types := RenameType(c.types, id, name)))
  {
    RenameTypeUnique(c.types, c.nextTypeId, id, name);
    RenameTypeInOrder(c.types, c.nextTypeId, id, name);
  }

  /** `DELETE FROM prompts; DELETE FROM prompt_types`: the counters keep their values. */
  function Clear(c: Catalog): (c': Catalog)
    ensures c'.types == [] && c'.prompts == []
    ensures c'.presets == c.presets
    ensures c'.nextTypeId == c.nextTypeId && c'.nextPromptId == c.nextPromptId
    ensures c'.nextPresetId == c.nextPresetId
    ensures Valid(c) ==> Valid(c')
  {
    c.(types := [], prompts := [])
  }
}
