/**
 * The read-through cache `prompt_type_dict`, rebuilt from both tables after
 * every change: type name -> (type id, prompt name -> (prompt id, text,
 * introduction)). The rebuild first enters every type with no prompts, then
 * files each prompt row under the name its `type_id` maps to.
 */
module Cache {
  import opened Wrappers
  import opened Dict
  import opened Catalog

  datatype CachedPrompt = CachedPrompt(id: nat, text: string, introduction: string)

  datatype CachedType = CachedType(id: nat, prompts: Dict<CachedPrompt>)

  type TypeCache = Dict<CachedType>

  /** The first loop's assignments: every type row entered with no prompts, in table order. */
  function TypePairs(types: seq<PromptType>): (ps: seq<(string, CachedType)>)
    ensures |ps| == |types|
    ensures forall i :: 0 <= i < |types| ==> ps[i] == (types[i].name, CachedType(types[i].id, []))
  {
    if |types| == 0 then [] else [(types[0].name, CachedType(types[0].id, []))] + TypePairs(types[1..])
  }

  /** The cache after the first loop. */
  function Skeleton(types: seq<PromptType>): TypeCache
  {
    FromPairs(TypePairs(types))
  }

  /** `type_id_to_name.get(type_id)`: the name of the last type row with that id. */
  function NameOfId(types: seq<PromptType>, id: nat): (r: Option<string>)
    ensures r.Some? ==> PromptType(id, r.value) in types
  {
    if |types| == 0 then None
    else if types[|types| - 1].id == id then Some(types[|types| - 1].name)
    else
      var r := NameOfId(types[..|types| - 1], id);
      assert r.Some? ==> PromptType(id, r.value) in types[..|types| - 1];
      r
  }

  /** A prompt row as the cache stores it under its name. */
  function Cached(p: Prompt): CachedPrompt
  {
    CachedPrompt(p.id, p.text, p.introduction)
  }

  /**
   * The second loop over the prompt rows: a row whose `type_id` names a type
   * is filed under that name, the later of two rows with the same name
   * winning. With `skipEmptyName` a row whose type is named "" is skipped, as
   * the truthiness test `if type_name:` does.
   */
  function Fill(cache: TypeCache, types: seq<PromptType>, prompts: seq<Prompt>, skipEmptyName: bool): TypeCache
    decreases |prompts|
  {
    if |prompts| == 0 then cache
    else
      var before := Fill(cache, types, prompts[..|prompts| - 1], skipEmptyName);
      var p := prompts[|prompts| - 1];
      var name := NameOfId(types, p.typeId);
      if name.None? || (skipEmptyName && name.value == "") then before
      else
        var entry := Get(before, name.value);
        // The first loop entered every name of the id map, so a lookup that
        // misses (a KeyError in the source) does not occur; see `RebuildKeys`.
        if entry.None? then before
        else Put(before, name.value, CachedType(entry.value.id, Put(entry.value.prompts, p.name, Cached(p))))
  }

  /** `initialize_prompt_type_dict` as written. */
  function RebuildAsWritten(c: Catalog): TypeCache
  {
    Fill(Skeleton(c.types), c.types, c.prompts, true)
  }

  /** `initialize_prompt_type_dict` with the test corrected to `type_name is not None`. */
  function Rebuild(c: Catalog): TypeCache
  {
    Fill(Skeleton(c.types), c.types, c.prompts, false)
  }

  /** Reference reading: the (name, entry) pairs of the prompt rows of one type, in table order. */
  function RowsOf(prompts: seq<Prompt>, typeId: nat): seq<(string, CachedPrompt)>
    decreases |prompts|
  {
    if |prompts| == 0 then []
    else
      var init := RowsOf(prompts[..|prompts| - 1], typeId);
      var p := prompts[|prompts| - 1];
      if p.typeId == typeId then init + [(p.name, Cached(p))] else init
  }

  // ---------------------------------------------------------------------
  // Keys and ids

  /** Under the unique-name constraint the first loop's entries are the type rows themselves. */
  lemma SkeletonIsPairs(types: seq<PromptType>)
    requires UniqueTypeNames(types)
    ensures Skeleton(types) == TypePairs(types)
  {
    FromDistinctPairs(TypePairs(types));
  }

  /** Filing prompts never adds or removes a key, and never changes a type's id. */
  lemma {:induction false} FillKeepsIds(cache: TypeCache, types: seq<PromptType>, prompts: seq<Prompt>, skipEmptyName: bool, k: string)
    ensures Keys(Fill(cache, types, prompts, skipEmptyName)) == Keys(cache)
    ensures Get(cache, k).Some? ==> Get(Fill(cache, types, prompts, skipEmptyName), k).value.id == Get(cache, k).value.id
    decreases |prompts|
  {
    if |prompts| > 0 {
      FillKeepsIds(cache, types, prompts[..|prompts| - 1], skipEmptyName, k);
    }
  }

  /** The cache has one key per type row, in table order. */
  lemma RebuildKeys(c: Catalog)
    requires UniqueTypeNames(c.types)
    ensures Keys(Rebuild(c)) == TypeNames(c.types)
    ensures Keys(RebuildAsWritten(c)) == TypeNames(c.types)
  {
    SkeletonIsPairs(c.types);
    FillKeepsIds(Skeleton(c.types), c.types, c.prompts, false, "");
    FillKeepsIds(Skeleton(c.types), c.types, c.prompts, true, "");
  }

  /** `prompt_type_dict[name]['id']`, the lookup the editing operations go through; `None` is a KeyError. */
  function CachedTypeId(cache: TypeCache, name: string): Option<nat>
  {
    var entry := Get(cache, name);
    if entry.Some? then Some(entry.value.id) else None
  }

  /** The cache maps a name to the id of the type row carrying it, and knows no other name. */
  lemma {:induction false} CachedTypeIdFinds(c: Catalog, name: string)
    requires UniqueTypeNames(c.types)
    ensures CachedTypeId(RebuildAsWritten(c), name) == TypeNamed(c.types, name)
    ensures CachedTypeId(Rebuild(c), name) == TypeNamed(c.types, name)
  {
    RebuildKeys(c);
    SkeletonIsPairs(c.types);
    TypeNamedFinds(c.types, name);
    FillKeepsIds(Skeleton(c.types), c.types, c.prompts, false, name);
    FillKeepsIds(Skeleton(c.types), c.types, c.prompts, true, name);
    if TypeNamed(c.types, name).Some? {
      var i :| 0 <= i < |c.types| && c.types[i] == PromptType(TypeNamed(c.types, name).value, name);
      GetAt(TypePairs(c.types), i);
    }
  }

  // ---------------------------------------------------------------------
  // Where each prompt row is filed

  /** With ids in increasing order, a type row's id maps back to its own name. */
  lemma {:induction false} NameOfIdAt(types: seq<PromptType>, next: nat, i: int)
    requires TypesInOrder(types, next)
    requires 0 <= i < |types|
    ensures NameOfId(types, types[i].id) == Some(types[i].name)
    decreases |types|
  {
    if i < |types| - 1 {
      var init := types[..|types| - 1];
      assert types[|types| - 1].id != types[i].id;
      assert init[i] == types[i];
      NameOfIdAt(init, next, i);
    }
  }

  /** Under the unique-name constraint a name the id map yields belongs to that id only. */
  lemma NameOfIdOwner(types: seq<PromptType>, id: nat, i: int)
    requires UniqueTypeNames(types)
    requires 0 <= i < |types|
    requires NameOfId(types, id) == Some(types[i].name)
    ensures id == types[i].id
  {
    var j :| 0 <= j < |types| && types[j] == PromptType(id, types[i].name);
    assert i == j;
  }

  /**
   * The second loop files under each type (other than one the truthiness test
   * skips) exactly its own prompt rows, the later row winning among rows with
   * the same name.
   */
  lemma {:induction false} FillFiles(cache: TypeCache, types: seq<PromptType>, next: nat, prompts: seq<Prompt>, skipEmptyName: bool, i: int)
    requires TypesInOrder(types, next) && UniqueTypeNames(types)
    requires 0 <= i < |types|
    requires !skipEmptyName || types[i].name != ""
    requires Get(cache, types[i].name) == Some(CachedType(types[i].id, []))
    ensures Get(Fill(cache, types, prompts, skipEmptyName), types[i].name)
         == Some(CachedType(types[i].id, FromPairs(RowsOf(prompts, types[i].id))))
    decreases |prompts|
  {
    if |prompts| > 0 {
      var t := types[i];
      var init := prompts[..|prompts| - 1];
      var p := prompts[|prompts| - 1];
      FillFiles(cache, types, next, init, skipEmptyName, i);
      var before := Fill(cache, types, init, skipEmptyName);
      var name := NameOfId(types, p.typeId);
      if p.typeId == t.id {
        NameOfIdAt(types, next, i);
        FromPairsSnoc(RowsOf(init, t.id), p.name, Cached(p));
      } else if name.Some? && name.value == t.name {
        NameOfIdOwner(types, p.typeId, i);
      }
    }
  }

  /**
   * The corrected rebuild: every type row is a key, holding its own id and
   * the prompt rows that point at it (later rows with the same name winning);
   * prompt rows whose type row is gone are left out.
   */
  lemma RebuildFiles(c: Catalog, i: int)
    requires Valid(c)
    requires 0 <= i < |c.types|
    ensures Get(Rebuild(c), c.types[i].name) == Some(CachedType(c.types[i].id, FromPairs(RowsOf(c.prompts, c.types[i].id))))
  {
    SkeletonIsPairs(c.types);
    GetAt(TypePairs(c.types), i);
    FillFiles(Skeleton(c.types), c.types, c.nextTypeId, c.prompts, false, i);
  }

  /** The rebuild as written agrees with the corrected one on every type with a non-empty name. */
  lemma RebuildAsWrittenFiles(c: Catalog, i: int)
    requires Valid(c)
    requires 0 <= i < |c.types| && c.types[i].name != ""
    ensures Get(RebuildAsWritten(c), c.types[i].name) == Get(Rebuild(c), c.types[i].name)
  {
    RebuildFiles(c, i);
    SkeletonIsPairs(c.types);
    GetAt(TypePairs(c.types), i);
    FillFiles(Skeleton(c.types), c.types, c.nextTypeId, c.prompts, true, i);
  }

  /** Under unique (type, name) pairs the rows of a type keep, for each name, that row's own values. */
  lemma {:induction false} RowsOfLast(prompts: seq<Prompt>, i: int)
    requires UniquePromptKeys(prompts)
    requires 0 <= i < |prompts|
    ensures LastValue(RowsOf(prompts, prompts[i].typeId), prompts[i].name) == Some(Cached(prompts[i]))
  {
    var n := |prompts| - 1;
    if i < n {
      var init := prompts[..n];
      assert init[i] == prompts[i];
      assert UniquePromptKeys(init) by {
        forall a, b | 0 <= a < b < |init|
          ensures !(init[a].typeId == init[b].typeId && init[a].name == init[b].name)
        {
          assert init[a] == prompts[a] && init[b] == prompts[b];
        }
      }
      RowsOfLast(init, i);
    }
  }

  /**
   * Looking a prompt up through the rebuilt cache, by its type's name and
   * its own name, finds that prompt row's id, text and introduction.
   */
  lemma RebuildEntry(c: Catalog, t: int, i: int)
    requires Valid(c) && UniquePromptKeys(c.prompts)
    requires 0 <= t < |c.types| && 0 <= i < |c.prompts|
    requires c.prompts[i].typeId == c.types[t].id
    ensures Get(Rebuild(c), c.types[t].name).Some?
    ensures Get(Get(Rebuild(c), c.types[t].name).value.prompts, c.prompts[i].name) == Some(Cached(c.prompts[i]))
  {
    RebuildFiles(c, t);
    RowsOfLast(c.prompts, i);
    FromPairsLaterWins(RowsOf(c.prompts, c.types[t].id), c.prompts[i].name);
  }

  /**
   * As written, a type named "" (which a line such as `^a^b^c` or a JSON key
   * "" creates) is listed with no prompts even when prompt rows point at it.
   */
  lemma EmptyNamedTypeLosesPrompts()
    ensures var c := Catalog([PromptType(1, "")], [Prompt(1, 1, "a", "b", "c")], [], 2, 2, 1);
      && Valid(c)
      && Get(RebuildAsWritten(c), "") == Some(CachedType(1, []))
      && Get(Rebuild(c), "") == Some(CachedType(1, [("a", CachedPrompt(1, "b", "c"))]))
  {
    var c := Catalog([PromptType(1, "")], [Prompt(1, 1, "a", "b", "c")], [], 2, 2, 1);
    RebuildFiles(c, 0);
    assert c.prompts[..0] == [];
    assert RowsOf(c.prompts, 1) == [("a", CachedPrompt(1, "b", "c"))];
    assert FromPairs(RowsOf(c.prompts, 1)) == [("a", CachedPrompt(1, "b", "c"))];
    SkeletonIsPairs(c.types);
    assert Skeleton(c.types) == [("", CachedType(1, []))];
  }
}
