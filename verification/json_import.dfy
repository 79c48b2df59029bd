/**
 * Replace-mode import of a JSON catalog: every prompt and type row is
 * deleted, then each key of the document becomes a new type row and each
 * entry under it a prompt row. Objects are read the way `json.load` builds
 * a dict: a key given twice keeps its first position and its last value.
 */
module JsonImport {
  import opened Wrappers
  import opened Dict
  import opened Catalog
  import opened LineFormat
  import opened LineImport

  /**
   * A parsed JSON value, as far as the import looks at it: strings, objects
   * (their members in document order, repeats included) and everything else.
   */
  datatype Json = JString(str: string) | JObject(members: seq<(string, Json)>) | JOther

  /** An object's members as the dict `json.load` returns for it. */
  function Members(j: Json): Dict<Json>
    requires j.JObject?
  {
    FromPairs(j.members)
  }

  /**
   * `prompt_data.get(key, "")`: a missing field reads as the empty string; a
   * field that is not a string fails the import.
   */
  function TextField(fields: Dict<Json>, key: string): (r: Option<string>)
    ensures Get(fields, key).None? ==> r == Some("")
    ensures Get(fields, key).Some? ==> (r.Some? <==> Get(fields, key).value.JString?)
    ensures r.Some? && Get(fields, key).Some? ==> Get(fields, key).value == JString(r.value)
  {
    var found: Option<Json> := Get(fields, key);
    if found.None? then Some("")
    else if found.value.JString? then Some(found.value.str)
    else None
  }

  /** The (text, introduction) a prompt entry stores; `None` when `prompt_data` is not an object or a field is not a string. */
  function PromptBody(data: Json): Option<(string, string)>
  {
    if !data.JObject? then None
    else
      var text := TextField(Members(data), "prompt_text");
      var introduction := TextField(Members(data), "introduction");
      if text.Some? && introduction.Some? then Some((text.value, introduction.value)) else None
  }

  /** Every entry under one type key has the shape of a prompt. */
  ghost predicate PromptsShaped(prompts: Dict<Json>)
  {
    forall m :: 0 <= m < |prompts| ==> PromptBody(prompts[m].1).Some?
  }

  /** Every value under a type key is an object of prompt entries. */
  ghost predicate EntriesShaped(entries: Dict<Json>)
  {
    forall k :: 0 <= k < |entries| ==> entries[k].1.JObject? && PromptsShaped(Members(entries[k].1))
  }

  /** The documents the import accepts: an object of objects of prompt entries. */
  ghost predicate WellShaped(doc: Json)
  {
    doc.JObject? && EntriesShaped(Members(doc))
  }

  /** The records one type key stands for, in the order of its entries. */
  function PromptRecords(typeName: string, prompts: Dict<Json>): (records: seq<Record>)
    ensures |records| == |prompts|
  {
    if |prompts| == 0 then []
    else
      var body := PromptBody(prompts[0].1);
      var fields := if body.Some? then body.value else ("", "");
      [Record(typeName, prompts[0].0, fields.0, fields.1)] + PromptRecords(typeName, prompts[1..])
  }

  /** The records a document's type entries stand for, type by type. */
  function DocumentRecords(entries: Dict<Json>): seq<Record>
  {
    if |entries| == 0 then []
    else
      var prompts := if entries[0].1.JObject? then Members(entries[0].1) else [];
      PromptRecords(entries[0].0, prompts) + DocumentRecords(entries[1..])
  }

  /**
   * Where the import loops stopped: the rows the connection holds at that
   * point, and the error that stopped them early, if any.
   */
  datatype Attempt = Attempt(store: Catalog, error: Option<Error>)

  /** The inner loop: one prompt row per entry under the type with id `typeId`. */
  function InsertPrompts(c: Catalog, typeId: nat, prompts: Dict<Json>): Attempt
    decreases |prompts|
  {
    if |prompts| == 0 then Attempt(c, None)
    else
      var body := PromptBody(prompts[0].1);
      if body.None? then Attempt(c, Some(MalformedJson))
      else InsertPrompts(InsertPrompt(c, typeId, prompts[0].0, body.value.0, body.value.1), typeId, prompts[1..])
  }

  /** The outer loop: a new type row per key, then its prompts. */
  function InsertTypes(c: Catalog, entries: Dict<Json>): Attempt
    decreases |entries|
  {
    if |entries| == 0 then Attempt(c, None)
    else
      var name := entries[0].0;
      if name in TypeNames(c.types) then Attempt(c, Some(DuplicateKind))
      else
        var withType := InsertType(c, name);
        if !entries[0].1.JObject? then Attempt(withType, Some(MalformedJson))
        else
          var filled := InsertPrompts(withType, c.nextTypeId, Members(entries[0].1));
          if filled.error.Some? then filled else InsertTypes(filled.store, entries[1..])
  }

  /** The `.json` branch as written: delete both tables, then run the loops until they finish or fail. */
  function Load(c: Catalog, doc: Json): Attempt
  {
    if doc.JObject? then InsertTypes(Clear(c), Members(doc))
    else Attempt(Clear(c), Some(MalformedJson))
  }

  // ---------------------------------------------------------------------
  // The inner loop

  /** The inner loop runs to the end exactly when every entry has the shape of a prompt. */
  lemma {:induction false} InsertPromptsAccepts(c: Catalog, typeId: nat, prompts: Dict<Json>)
    ensures InsertPrompts(c, typeId, prompts).error.None? <==> PromptsShaped(prompts)
    ensures InsertPrompts(c, typeId, prompts).error.Some? ==> InsertPrompts(c, typeId, prompts).error == Some(MalformedJson)
    decreases |prompts|
  {
    if |prompts| > 0 {
      var body := PromptBody(prompts[0].1);
      if body.Some? {
        InsertPromptsAccepts(InsertPrompt(c, typeId, prompts[0].0, body.value.0, body.value.1), typeId, prompts[1..]);
        if PromptsShaped(prompts[1..]) {
          forall m | 0 <= m < |prompts|
            ensures PromptBody(prompts[m].1).Some?
          {
            if m > 0 {
              assert prompts[m] == prompts[1..][m - 1];
            }
          }
        }
      }
    }
  }

  /** The inner loop only appends prompt rows. */
  lemma {:induction false} InsertPromptsFrame(c: Catalog, typeId: nat, prompts: Dict<Json>)
    ensures var a := InsertPrompts(c, typeId, prompts);
      && a.store.types == c.types && a.store.presets == c.presets
      && a.store.nextTypeId == c.nextTypeId && a.store.nextPresetId == c.nextPresetId
      && |a.store.prompts| >= |c.prompts| && a.store.prompts[..|c.prompts|] == c.prompts
      && (a.error.None? ==> |a.store.prompts| == |c.prompts| + |prompts|)
    decreases |prompts|
  {
    if |prompts| > 0 {
      var body := PromptBody(prompts[0].1);
      if body.Some? {
        var c1 := InsertPrompt(c, typeId, prompts[0].0, body.value.0, body.value.1);
        InsertPromptsFrame(c1, typeId, prompts[1..]);
        var a := InsertPrompts(c1, typeId, prompts[1..]);
        assert a.store.prompts[..|c1.prompts|][..|c.prompts|] == a.store.prompts[..|c.prompts|];
      }
    }
  }

  /** After a full run, each appended row stands for its entry under the type `typeName` names. */
  lemma {:induction false} InsertPromptsRows(c: Catalog, typeId: nat, typeName: string, prompts: Dict<Json>)
    requires TypeNamed(c.types, typeName) == Some(typeId)
    requires InsertPrompts(c, typeId, prompts).error.None?
    ensures RowsFrom(InsertPrompts(c, typeId, prompts).store, |c.prompts|, PromptRecords(typeName, prompts))
    decreases |prompts|
  {
    if |prompts| > 0 {
      var body := PromptBody(prompts[0].1).value;
      var c1 := InsertPrompt(c, typeId, prompts[0].0, body.0, body.1);
      var a := InsertPrompts(c1, typeId, prompts[1..]);
      assert a == InsertPrompts(c, typeId, prompts);
      InsertPromptsFrame(c1, typeId, prompts[1..]);
      InsertPromptsRows(c1, typeId, typeName, prompts[1..]);
      var first := Record(typeName, prompts[0].0, body.0, body.1);
      assert PromptRecords(typeName, prompts) == [first] + PromptRecords(typeName, prompts[1..]);
      assert a.store.prompts[|c.prompts|] == c1.prompts[|c.prompts|];
      assert Describes(a.store.types, a.store.prompts[|c.prompts|], first);
      RowsFromCons(a.store, |c.prompts|, first, PromptRecords(typeName, prompts[1..]));
    } else {
      assert InsertPrompts(c, typeId, prompts).store == c;
    }
  }

  /** The inner loop keeps the store consistent, however far it gets. */
  lemma {:induction false} InsertPromptsValid(c: Catalog, typeId: nat, prompts: Dict<Json>)
    requires Valid(c) && typeId < c.nextTypeId
    ensures Valid(InsertPrompts(c, typeId, prompts).store)
    decreases |prompts|
  {
    if |prompts| > 0 {
      var body := PromptBody(prompts[0].1);
      if body.Some? {
        InsertPromptValid(c, typeId, prompts[0].0, body.value.0, body.value.1);
        InsertPromptsValid(InsertPrompt(c, typeId, prompts[0].0, body.value.0, body.value.1), typeId, prompts[1..]);
      }
    }
  }

  // ---------------------------------------------------------------------
  // The outer loop

  /** A row keeps standing for its record when later type rows are appended. */
  lemma DescribesExtend(types: seq<PromptType>, more: seq<PromptType>, p: Prompt, r: Record)
    requires Describes(types, p, r)
    ensures Describes(types + more, p, r)
  {
    TypeNamedExtend(types, more, r.typeName);
  }

  /** A document's entries are shaped exactly when the first one is and the rest are. */
  lemma EntriesShapedCons(entries: Dict<Json>)
    requires |entries| > 0
    ensures EntriesShaped(entries) <==>
      && entries[0].1.JObject? && PromptsShaped(Members(entries[0].1))
      && EntriesShaped(entries[1..])
  {
    var rest := entries[1..];
    if entries[0].1.JObject? && PromptsShaped(Members(entries[0].1)) && EntriesShaped(rest) {
      forall k | 0 <= k < |entries|
        ensures entries[k].1.JObject? && PromptsShaped(Members(entries[k].1))
      {
        if k > 0 {
          assert entries[k] == rest[k - 1];
        }
      }
    }
    if EntriesShaped(entries) {
      forall k | 0 <= k < |rest|
        ensures rest[k].1.JObject? && PromptsShaped(Members(rest[k].1))
      {
        assert rest[k] == entries[k + 1];
      }
    }
  }

  /** Distinct keys that no stored type carries stay so for the rest once the first one is stored. */
  lemma FreshRest(names: seq<string>, entries: Dict<Json>)
    requires |entries| > 0 && DistinctKeys(entries)
    requires forall k :: 0 <= k < |entries| ==> entries[k].0 !in names
    ensures DistinctKeys(entries[1..])
    ensures forall k :: 0 <= k < |entries| - 1 ==> entries[1..][k].0 !in names + [entries[0].0]
  {
    var rest := entries[1..];
    forall k | 0 <= k < |rest|
      ensures rest[k].0 !in names + [entries[0].0]
    {
      assert rest[k] == entries[k + 1];
    }
    forall i, j | 0 <= i < j < |rest|
      ensures rest[i].0 != rest[j].0
    {
      assert rest[i] == entries[i + 1] && rest[j] == entries[j + 1];
    }
  }

  /**
   * Into a store none of whose type names the document uses, the outer
   * loop runs to the end exactly when the document is an object of prompt
   * objects; the `type_name UNIQUE` constraint never fires.
   */
  lemma {:induction false} InsertTypesAccepts(c: Catalog, entries: Dict<Json>)
    requires DistinctKeys(entries)
    requires forall k :: 0 <= k < |entries| ==> entries[k].0 !in TypeNames(c.types)
    ensures InsertTypes(c, entries).error.None? <==> EntriesShaped(entries)
    ensures InsertTypes(c, entries).error.Some? ==> InsertTypes(c, entries).error == Some(MalformedJson)
    decreases |entries|
  {
    if |entries| > 0 {
      EntriesShapedCons(entries);
      var name := entries[0].0;
      assert name !in TypeNames(c.types);
      var withType := InsertType(c, name);
      if entries[0].1.JObject? {
        var prompts := Members(entries[0].1);
        InsertPromptsAccepts(withType, c.nextTypeId, prompts);
        InsertPromptsFrame(withType, c.nextTypeId, prompts);
        var filled := InsertPrompts(withType, c.nextTypeId, prompts);
        if filled.error.None? {
          assert InsertTypes(c, entries) == InsertTypes(filled.store, entries[1..]);
          assert TypeNames(filled.store.types) == TypeNames(c.types) + [name];
          FreshRest(TypeNames(c.types), entries);
          InsertTypesAccepts(filled.store, entries[1..]);
        }
      }
    }
  }

  /** The outer loop only appends rows, and leaves the presets alone. */
  lemma {:induction false} InsertTypesFrame(c: Catalog, entries: Dict<Json>)
    ensures var a := InsertTypes(c, entries);
      && a.store.presets == c.presets && a.store.nextPresetId == c.nextPresetId
      && |a.store.types| >= |c.types| && a.store.types[..|c.types|] == c.types
      && |a.store.prompts| >= |c.prompts| && a.store.prompts[..|c.prompts|] == c.prompts
    decreases |entries|
  {
    if |entries| > 0 && entries[0].0 !in TypeNames(c.types) && entries[0].1.JObject? {
      var withType := InsertType(c, entries[0].0);
      var prompts := Members(entries[0].1);
      InsertPromptsFrame(withType, c.nextTypeId, prompts);
      var filled := InsertPrompts(withType, c.nextTypeId, prompts);
      if filled.error.None? {
        InsertTypesFrame(filled.store, entries[1..]);
        var a := InsertTypes(filled.store, entries[1..]);
        assert a.store.types[..|filled.store.types|][..|c.types|] == a.store.types[..|c.types|];
        assert a.store.prompts[..|filled.store.prompts|][..|c.prompts|] == a.store.prompts[..|c.prompts|];
      } else {
        assert filled.store.types[..|c.types|] == c.types;
      }
    }
  }

  /** A full run adds one type row per key, in key order, and one prompt row per record. */
  lemma {:induction false} InsertTypesNames(c: Catalog, entries: Dict<Json>)
    requires InsertTypes(c, entries).error.None?
    ensures TypeNames(InsertTypes(c, entries).store.types) == TypeNames(c.types) + Keys(entries)
    ensures |InsertTypes(c, entries).store.prompts| == |c.prompts| + |DocumentRecords(entries)|
    decreases |entries|
  {
    if |entries| > 0 {
      var name := entries[0].0;
      var withType := InsertType(c, name);
      var prompts := Members(entries[0].1);
      InsertPromptsFrame(withType, c.nextTypeId, prompts);
      var filled := InsertPrompts(withType, c.nextTypeId, prompts);
      InsertTypesNames(filled.store, entries[1..]);
      assert TypeNames(filled.store.types) == TypeNames(c.types) + [name];
      assert Keys(entries) == [name] + Keys(entries[1..]);
      assert TypeNames(c.types) + [name] + Keys(entries[1..]) == TypeNames(c.types) + ([name] + Keys(entries[1..]));
    }
  }

  /** Rows standing for `head` in an earlier store, then rows for `tail` appended after them, stand for `head + tail`. */
  lemma RowsFromAppend(m: Catalog, a: Catalog, start: nat, head: seq<Record>, tail: seq<Record>)
    requires RowsFrom(m, start, head)
    requires RowsFrom(a, |m.prompts|, tail)
    requires |a.types| >= |m.types| && a.types[..|m.types|] == m.types
    requires a.prompts[..|m.prompts|] == m.prompts
    ensures RowsFrom(a, start, head + tail)
  {
    var more := a.types[|m.types|..];
    assert a.types == m.types + more;
    var records := head + tail;
    forall i | 0 <= i < |records|
      ensures Describes(a.types, a.prompts[start + i], records[i])
    {
      if i < |head| {
        assert a.prompts[start + i] == m.prompts[start + i];
        DescribesExtend(m.types, more, m.prompts[start + i], head[i]);
      } else {
        assert records[i] == tail[i - |head|];
      }
    }
  }

  /** After a full run, each appended row stands for its record, in document order. */
  lemma {:induction false} InsertTypesRows(c: Catalog, entries: Dict<Json>)
    requires InsertTypes(c, entries).error.None?
    ensures RowsFrom(InsertTypes(c, entries).store, |c.prompts|, DocumentRecords(entries))
    decreases |entries|
  {
    if |entries| > 0 {
      var name := entries[0].0;
      var id := c.nextTypeId;
      var withType := InsertType(c, name);
      TypeNamedAppendNew(c.types, PromptType(id, name));
      var prompts := Members(entries[0].1);
      InsertPromptsRows(withType, id, name, prompts);
      var filled := InsertPrompts(withType, id, prompts).store;
      InsertTypesFrame(filled, entries[1..]);
      InsertTypesRows(filled, entries[1..]);
      RowsFromAppend(filled, InsertTypes(filled, entries[1..]).store, |c.prompts|,
        PromptRecords(name, prompts), DocumentRecords(entries[1..]));
    }
  }

  /** The outer loop keeps the store consistent, however far it gets. */
  lemma {:induction false} InsertTypesValid(c: Catalog, entries: Dict<Json>)
    ensures Valid(c) ==> Valid(InsertTypes(c, entries).store)
    decreases |entries|
  {
    if Valid(c) && |entries| > 0 && entries[0].0 !in TypeNames(c.types) {
      InsertTypeValid(c, entries[0].0);
      if entries[0].1.JObject? {
        var withType := InsertType(c, entries[0].0);
        InsertPromptsValid(withType, c.nextTypeId, Members(entries[0].1));
        var filled := InsertPrompts(withType, c.nextTypeId, Members(entries[0].1));
        if filled.error.None? {
          InsertTypesValid(filled.store, entries[1..]);
        }
      }
    }
  }

  // ---------------------------------------------------------------------
  // The whole import

  /**
   * `import_from_json` on a `.json` file, where a failure rolls the
   * deletions back: a well-shaped document replaces every type and prompt by
   * one type row per key (empty ones included, in document order) and one
   * prompt row per entry under it; any other document is refused. Presets
   * are untouched.
   */
  function ImportJson(c: Catalog, doc: Json): (r: Result<Catalog, Error>)
    ensures r.Success? <==> WellShaped(doc)
    ensures r.Failure? ==> r.error == MalformedJson
    ensures r.Success? ==> HoldsExactly(r.value, DocumentRecords(Members(doc)))
    ensures r.Success? ==> TypeNames(r.value.types) == Keys(Members(doc))
    ensures r.Success? ==> r.value.presets == c.presets && r.value.nextPresetId == c.nextPresetId
    ensures r.Success? && Valid(c) ==> Valid(r.value)
  {
    var a := Load(c, doc);
    if !doc.JObject? then Failure(MalformedJson)
    else
      var entries := Members(doc);
      FromPairsDistinct(doc.members);
      InsertTypesAccepts(Clear(c), entries);
      InsertTypesFrame(Clear(c), entries);
      if a.error.Some? then Failure(a.error.value)
      else
        InsertTypesNames(Clear(c), entries);
        InsertTypesRows(Clear(c), entries);
        InsertTypesValid(Clear(c), entries);
        Success(a.store)
  }

  /** The type rows after an import are named by exactly the keys the document mentions, repeats collapsed. */
  lemma ImportJsonKeys(c: Catalog, doc: Json, k: string)
    requires ImportJson(c, doc).Success?
    ensures k in TypeNames(ImportJson(c, doc).value.types) <==> k in Keys(doc.members)
  {
    FromPairsKeys(doc.members, k);
  }
}
