/**
 * `export_to_json`: the catalog as a document keyed by type name, each type
 * mapping prompt names to their text and introduction.
 */
module JsonExport {
  import opened Wrappers
  import opened Dict
  import opened Catalog
  import opened LineImport
  import opened JsonImport

  /** `{"prompt_text": …, "introduction": …}`. */
  datatype Entry = Entry(text: string, introduction: string)

  type Document = Dict<Dict<Entry>>

  /** The inner loop's assignments: the prompt rows of one type, in table order. */
  function EntryRows(prompts: seq<Prompt>, typeId: nat): seq<(string, Entry)>
    decreases |prompts|
  {
    if |prompts| == 0 then []
    else
      var init := EntryRows(prompts[..|prompts| - 1], typeId);
      var p := prompts[|prompts| - 1];
      if p.typeId == typeId then init + [(p.name, Entry(p.text, p.introduction))] else init
  }

  /** `type_prompts` for one type. */
  function TypeEntries(prompts: seq<Prompt>, typeId: nat): Dict<Entry>
  {
    FromPairs(EntryRows(prompts, typeId))
  }

  /** The outer loop's assignments: one per type row, in table order. */
  function ExportPairs(types: seq<PromptType>, prompts: seq<Prompt>): (ps: seq<(string, Dict<Entry>)>)
    ensures |ps| == |types|
    ensures forall i :: 0 <= i < |types| ==> ps[i] == (types[i].name, TypeEntries(prompts, types[i].id))
  {
    if |types| == 0 then [] else [(types[0].name, TypeEntries(prompts, types[0].id))] + ExportPairs(types[1..], prompts)
  }

  /** `json_data`. */
  function Export(c: Catalog): Document
  {
    FromPairs(ExportPairs(c.types, c.prompts))
  }

  /** The document as `json.load` reads back what `json.dump` wrote. */
  function EntryJson(e: Entry): Json
  {
    JObject([("prompt_text", JString(e.text)), ("introduction", JString(e.introduction))])
  }

  function EntriesJson(entries: Dict<Entry>): (ms: seq<(string, Json)>)
    ensures |ms| == |entries|
    ensures forall m :: 0 <= m < |entries| ==> ms[m] == (entries[m].0, EntryJson(entries[m].1))
  {
    if |entries| == 0 then [] else [(entries[0].0, EntryJson(entries[0].1))] + EntriesJson(entries[1..])
  }

  function DocumentJson(d: Document): (ms: seq<(string, Json)>)
    ensures |ms| == |d|
    ensures forall k :: 0 <= k < |d| ==> ms[k] == (d[k].0, JObject(EntriesJson(d[k].1)))
  {
    if |d| == 0 then [] else [(d[0].0, JObject(EntriesJson(d[0].1)))] + DocumentJson(d[1..])
  }

  function ToJson(d: Document): Json
  {
    JObject(DocumentJson(d))
  }

  // ---------------------------------------------------------------------
  // What the document holds

  /** The inner loop's keys are exactly the names of the type's own prompt rows. */
  lemma {:induction false} EntryRowsKeys(prompts: seq<Prompt>, typeId: nat, name: string)
    ensures name in Keys(EntryRows(prompts, typeId)) <==> HasPrompt(prompts, typeId, name)
    decreases |prompts|
  {
    if |prompts| > 0 {
      var init := prompts[..|prompts| - 1];
      var p := prompts[|prompts| - 1];
      EntryRowsKeys(init, typeId, name);
      assert prompts == init + [p];
      HasPromptSnoc(init, p, typeId, name);
      if p.typeId == typeId {
        assert Keys(EntryRows(prompts, typeId)) == Keys(EntryRows(init, typeId)) + [p.name];
      }
    }
  }

  /** Every type row is a key of the document, empty types included, in table order. */
  lemma ExportKeys(c: Catalog)
    requires UniqueTypeNames(c.types)
    ensures Keys(Export(c)) == TypeNames(c.types)
  {
    FromDistinctPairs(ExportPairs(c.types, c.prompts));
  }

  /**
   * Under each type's name the document lists the prompt names of exactly
   * that type's rows, each with the text of the last such row.
   */
  lemma ExportPlaces(c: Catalog, i: int, name: string)
    requires UniqueTypeNames(c.types)
    requires 0 <= i < |c.types|
    ensures Get(Export(c), c.types[i].name) == Some(TypeEntries(c.prompts, c.types[i].id))
    ensures name in Keys(TypeEntries(c.prompts, c.types[i].id)) <==> HasPrompt(c.prompts, c.types[i].id, name)
  {
    FromDistinctPairs(ExportPairs(c.types, c.prompts));
    GetAt(ExportPairs(c.types, c.prompts), i);
    FromPairsKeys(EntryRows(c.prompts, c.types[i].id), name);
    EntryRowsKeys(c.prompts, c.types[i].id, name);
  }

  // ---------------------------------------------------------------------
  // Export, import, export

  /** The documents an export produces: distinct type names, and distinct prompt names under each. */
  ghost predicate Exportable(d: Document)
  {
    DistinctKeys(d) && forall k :: 0 <= k < |d| ==> DistinctKeys(d[k].1)
  }

  lemma ExportIsExportable(c: Catalog)
    requires UniqueTypeNames(c.types)
    ensures Exportable(Export(c))
  {
    var ps := ExportPairs(c.types, c.prompts);
    FromDistinctPairs(ps);
    forall k | 0 <= k < |ps|
      ensures DistinctKeys(ps[k].1)
    {
      FromPairsDistinct(EntryRows(c.prompts, c.types[k].id));
    }
  }

  /** The two fields of an exported entry read back as its text and introduction. */
  lemma EntryJsonBody(e: Entry)
    ensures PromptBody(EntryJson(e)) == Some((e.text, e.introduction))
  {
    var ms := EntryJson(e).members;
    assert ms[0].0 != ms[1].0 by {
      assert |ms[0].0| != |ms[1].0|;
    }
    FromDistinctPairs(ms);
  }

  lemma EntriesJsonMembers(entries: Dict<Entry>)
    requires DistinctKeys(entries)
    ensures Members(JObject(EntriesJson(entries))) == EntriesJson(entries)
  {
    FromDistinctPairs(EntriesJson(entries));
  }

  /** An exported document is one the JSON import accepts. */
  lemma ToJsonWellShaped(d: Document)
    requires Exportable(d)
    ensures Members(ToJson(d)) == DocumentJson(d)
    ensures WellShaped(ToJson(d))
  {
    FromDistinctPairs(DocumentJson(d));
    var entries := DocumentJson(d);
    forall k | 0 <= k < |entries|
      ensures entries[k].1.JObject? && PromptsShaped(Members(entries[k].1))
    {
      EntriesJsonMembers(d[k].1);
      forall m | 0 <= m < |d[k].1|
        ensures PromptBody(EntriesJson(d[k].1)[m].1).Some?
      {
        EntryJsonBody(d[k].1[m].1);
      }
    }
  }

  /** Reference reading: the (name, entry) pairs of the records of one type, in order. */
  function RecordEntries(records: seq<LineFormat.Record>, typeName: string): seq<(string, Entry)>
    decreases |records|
  {
    if |records| == 0 then []
    else
      var init := RecordEntries(records[..|records| - 1], typeName);
      var r := records[|records| - 1];
      if r.typeName == typeName then init + [(r.name, Entry(r.text, r.introduction))] else init
  }

  lemma {:induction false} RecordEntriesAppend(a: seq<LineFormat.Record>, b: seq<LineFormat.Record>, typeName: string)
    ensures RecordEntries(a + b, typeName) == RecordEntries(a, typeName) + RecordEntries(b, typeName)
    decreases |b|
  {
    if |b| == 0 {
      assert a + b == a;
    } else {
      var b' := b[..|b| - 1];
      assert (a + b)[..|a + b| - 1] == a + b';
      assert (a + b)[|a + b| - 1] == b[|b| - 1];
      RecordEntriesAppend(a, b', typeName);
    }
  }

  /** The records read from one type's entries give back those entries. */
  lemma {:induction false} PromptRecordsEntries(typeName: string, entries: Dict<Entry>)
    ensures RecordEntries(PromptRecords(typeName, EntriesJson(entries)), typeName) == entries
    decreases |entries|
  {
    if |entries| > 0 {
      var ms := EntriesJson(entries);
      assert ms[1..] == EntriesJson(entries[1..]);
      EntryJsonBody(entries[0].1);
      var first := LineFormat.Record(typeName, entries[0].0, entries[0].1.text, entries[0].1.introduction);
      var rest := PromptRecords(typeName, ms[1..]);
      assert PromptRecords(typeName, ms) == [first] + rest;
      assert [first][..0] == [];
      assert RecordEntries([first], typeName) == [entries[0]];
      RecordEntriesAppend([first], rest, typeName);
      PromptRecordsEntries(typeName, entries[1..]);
      assert [entries[0]] + entries[1..] == entries;
    }
  }

  /** Reading a document's records back per type name gives that type's entries. */
  lemma {:induction false} DocumentRecordsEntries(d: Document, k: int)
    requires Exportable(d)
    requires 0 <= k < |d|
    ensures RecordEntries(DocumentRecords(DocumentJson(d)), d[k].0) == d[k].1
    decreases |d|
  {
    var ms := DocumentJson(d);
    assert ms[1..] == DocumentJson(d[1..]);
    EntriesJsonMembers(d[0].1);
    var head := PromptRecords(d[0].0, EntriesJson(d[0].1));
    assert DocumentRecords(ms) == head + DocumentRecords(DocumentJson(d[1..]));
    RecordEntriesAppend(head, DocumentRecords(DocumentJson(d[1..])), d[k].0);
    if k == 0 {
      PromptRecordsEntries(d[0].0, d[0].1);
      DocumentRecordsAbsent(d[1..], d[0].0);
    } else {
      PromptRecordsAbsent(d[0].0, d[k].0, EntriesJson(d[0].1));
      assert d[1..][k - 1] == d[k];
      DocumentRecordsEntries(d[1..], k - 1);
    }
  }

  /** A name that is not a key has no records. */
  lemma {:induction false} DocumentRecordsAbsent(d: Document, name: string)
    requires forall k :: 0 <= k < |d| ==> d[k].0 != name
    ensures RecordEntries(DocumentRecords(DocumentJson(d)), name) == []
    decreases |d|
  {
    if |d| > 0 {
      var ms := DocumentJson(d);
      assert ms[1..] == DocumentJson(d[1..]);
      var head := PromptRecords(d[0].0, Members(ms[0].1));
      assert DocumentRecords(ms) == head + DocumentRecords(DocumentJson(d[1..]));
      RecordEntriesAppend(head, DocumentRecords(DocumentJson(d[1..])), name);
      PromptRecordsAbsent(d[0].0, name, Members(ms[0].1));
      DocumentRecordsAbsent(d[1..], name);
    }
  }

  lemma {:induction false} PromptRecordsAbsent(typeName: string, other: string, ms: Dict<Json>)
    requires other != typeName
    ensures RecordEntries(PromptRecords(typeName, ms), other) == []
    decreases |ms|
  {
    if |ms| > 0 {
      var rest := PromptRecords(typeName, ms[1..]);
      var first := PromptRecords(typeName, ms)[0];
      assert PromptRecords(typeName, ms) == [first] + rest;
      RecordEntriesAppend([first], rest, other);
      PromptRecordsAbsent(typeName, other, ms[1..]);
    }
  }

  /** Rows that stand one for one for records carry, per type, the records' entries of that type. */
  lemma {:induction false} EntryRowsOfRecords(types: seq<PromptType>, next: nat, ps: seq<Prompt>, records: seq<LineFormat.Record>, k: int)
    requires TypesInOrder(types, next) && UniqueTypeNames(types)
    requires 0 <= k < |types|
    requires |ps| == |records|
    requires forall i :: 0 <= i < |ps| ==> Describes(types, ps[i], records[i])
    ensures EntryRows(ps, types[k].id) == RecordEntries(records, types[k].name)
    decreases |ps|
  {
    if |ps| > 0 {
      var n := |ps| - 1;
      EntryRowsOfRecords(types, next, ps[..n], records[..n], k);
      var p := ps[n];
      var r := records[n];
      assert Describes(types, p, r);
      TypeNamedUnique(types, k);
      if p.typeId == types[k].id {
        TypeNamedFinds(types, r.typeName);
        var j :| 0 <= j < |types| && types[j] == PromptType(p.typeId, r.typeName);
        assert j == k;
      }
    }
  }

  /** One key of the re-export: the `k`-th type row of the imported store gives back the `k`-th entry. */
  lemma ReexportPair(c: Catalog, d: Document, k: int)
    requires Valid(c) && Exportable(d)
    requires HoldsExactly(c, DocumentRecords(DocumentJson(d)))
    requires TypeNames(c.types) == Keys(d)
    requires 0 <= k < |d|
    ensures ExportPairs(c.types, c.prompts)[k] == d[k]
  {
    assert c.types[k].name == TypeNames(c.types)[k];
    EntryRowsOfRecords(c.types, c.nextTypeId, c.prompts, DocumentRecords(DocumentJson(d)), k);
    DocumentRecordsEntries(d, k);
    FromDistinctPairs(d[k].1);
  }

  /**
   * Importing an exported document and exporting again gives the same
   * document back: type names, their order, empty types, prompt names and
   * texts all survive; only the row ids are new.
   */
  lemma ImportExportRoundTrip(c0: Catalog, d: Document)
    requires Valid(c0)
    requires Exportable(d)
    ensures ImportJson(c0, ToJson(d)).Success?
    ensures Export(ImportJson(c0, ToJson(d)).value) == d
  {
    ToJsonWellShaped(d);
    var c' := ImportJson(c0, ToJson(d)).value;
    assert Keys(DocumentJson(d)) == Keys(d);
    var ps := ExportPairs(c'.types, c'.prompts);
    forall k | 0 <= k < |d|
      ensures ps[k] == d[k]
    {
      ReexportPair(c', d, k);
    }
    assert ps == d;
    FromDistinctPairs(ps);
  }

  /** `export_to_json` then `import_from_json` then `export_to_json` again reproduces the first export. */
  lemma ExportRoundTrip(c0: Catalog, c: Catalog)
    requires Valid(c0) && Valid(c)
    ensures ImportJson(c0, ToJson(Export(c))).Success?
    ensures Export(ImportJson(c0, ToJson(Export(c))).value) == Export(c)
  {
    ExportIsExportable(c);
    ImportExportRoundTrip(c0, Export(c));
  }
}
