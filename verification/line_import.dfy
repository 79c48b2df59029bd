/**
 * Replace-mode import of caret-delimited lines (`.plist` files and remote
 * catalogs): every prompt and type row is deleted, then each decoded record
 * is inserted, its type row created the first time its name is seen and
 * reused through the name-to-id map afterwards.
 */
module LineImport {
  import opened Wrappers
  import opened Catalog
  import opened LineFormat

  /**
   * A prompt row stands for a record when its own fields are the record's and
   * its `typeId` is the id of the type row carrying the record's type name.
   */
  ghost predicate Describes(types: seq<PromptType>, p: Prompt, r: Record)
  {
    && TypeNamed(types, r.typeName) == Some(p.typeId)
    && p.name == r.name && p.text == r.text && p.introduction == r.introduction
  }

  /** The prompt rows of `c` from index `start` on stand, one for one and in order, for `records`. */
  ghost predicate RowsFrom(c: Catalog, start: nat, records: seq<Record>)
  {
    && |c.prompts| == start + |records|
    && forall i :: 0 <= i < |records| ==> Describes(c.types, c.prompts[start + i], records[i])
  }

  /** The rows of `c` stand, one for one and in order, for `records`. */
  ghost predicate HoldsExactly(c: Catalog, records: seq<Record>)
  {
    RowsFrom(c, 0, records)
  }

  /** A row standing for `first`, followed by rows standing for `rest`, stands for both. */
  lemma RowsFromCons(c: Catalog, start: nat, first: Record, rest: seq<Record>)
    requires start < |c.prompts| && Describes(c.types, c.prompts[start], first)
    requires RowsFrom(c, start + 1, rest)
    ensures RowsFrom(c, start, [first] + rest)
  {
    var records := [first] + rest;
    forall m | 0 <= m < |records|
      ensures Describes(c.types, c.prompts[start + m], records[m])
    {
      if m > 0 {
        assert records[m] == rest[m - 1];
        assert start + m == (start + 1) + (m - 1);
      }
    }
  }

  /** The type names of `records` not yet in `seen`, each once, in order of first appearance. */
  function NewTypeNames(seen: seq<string>, records: seq<Record>): seq<string>
    decreases |records|
  {
    if |records| == 0 then []
    else if records[0].typeName in seen then NewTypeNames(seen, records[1..])
    else [records[0].typeName] + NewTypeNames(seen + [records[0].typeName], records[1..])
  }

  /**
   * One pass of the loop body: the record's type id is taken from `type_map`
   * or, for a name not seen yet, a type row is inserted and remembered; then
   * the prompt row is inserted.
   */
  function MergeOne(c: Catalog, typeMap: map<string, nat>, r: Record): (Catalog, map<string, nat>)
  {
    if r.typeName in typeMap then
      (InsertPrompt(c, typeMap[r.typeName], r.name, r.text, r.introduction), typeMap)
    else
      var id := c.nextTypeId;
      (InsertPrompt(InsertType(c, r.typeName), id, r.name, r.text, r.introduction), typeMap[r.typeName := id])
  }

  /** The import loop over the decoded records. */
  function MergeRecords(c: Catalog, typeMap: map<string, nat>, records: seq<Record>): Catalog
    decreases |records|
  {
    if |records| == 0 then c
    else
      var step := MergeOne(c, typeMap, records[0]);
      MergeRecords(step.0, step.1, records[1..])
  }

  /** Appending type rows never changes which id an already-present name finds. */
  lemma {:induction false} TypeNamedExtend(types: seq<PromptType>, more: seq<PromptType>, n: string)
    requires TypeNamed(types, n).Some?
    ensures TypeNamed(types + more, n) == TypeNamed(types, n)
  {
    if types[0].name != n {
      assert (types + more)[1..] == types[1..] + more;
      TypeNamedExtend(types[1..], more, n);
    }
  }

  /**
   * One pass of the loop body, with `type_map` equal to the table's
   * name-to-id map: the map stays equal to it, and a type row is added
   * exactly when the name is new.
   */
  lemma MergeOneTypes(c: Catalog, r: Record)
    ensures var step := MergeOne(c, NameMap(c.types), r);
      && step.1 == NameMap(step.0.types)
      && step.0.types == c.types + (if r.typeName in TypeNames(c.types) then [] else [PromptType(c.nextTypeId, r.typeName)])
      && TypeNames(step.0.types) == TypeNames(c.types) + (if r.typeName in TypeNames(c.types) then [] else [r.typeName])
  {
    var c1 := MergeOne(c, NameMap(c.types), r).0;
    NameMapLookup(c.types, r.typeName);
    TypeNamedFinds(c.types, r.typeName);
    if r.typeName !in NameMap(c.types) {
      var t := PromptType(c.nextTypeId, r.typeName);
      assert c1.types == c.types + [t];
      NameMapAppend(c.types, t);
      assert TypeNames(c1.types) == TypeNames(c.types) + [r.typeName];
    }
  }

  /**
   * One pass of the loop body appends one prompt row, standing for the
   * record, and leaves the earlier rows and the presets alone.
   */
  lemma MergeOneRow(c: Catalog, r: Record)
    ensures var c1 := MergeOne(c, NameMap(c.types), r).0;
      && c1.presets == c.presets && c1.nextPresetId == c.nextPresetId
      && |c1.prompts| == |c.prompts| + 1 && c1.prompts[..|c.prompts|] == c.prompts
      && Describes(c1.types, c1.prompts[|c.prompts|], r)
  {
    var c1 := MergeOne(c, NameMap(c.types), r).0;
    NameMapLookup(c.types, r.typeName);
    assert c1.prompts[..|c.prompts|] == c.prompts;
    if r.typeName !in NameMap(c.types) {
      var t := PromptType(c.nextTypeId, r.typeName);
      assert c1.types == c.types + [t];
      NameMapAppend(c.types, t);
      NameMapLookup(c1.types, r.typeName);
    }
  }

  /** One pass of the loop body keeps the store valid. */
  lemma MergeOneValid(c: Catalog, r: Record)
    requires Valid(c)
    ensures Valid(MergeOne(c, NameMap(c.types), r).0)
  {
    NameMapLookup(c.types, r.typeName);
    if r.typeName in NameMap(c.types) {
      var id := NameMap(c.types)[r.typeName];
      TypeNamedFinds(c.types, r.typeName);
      var i :| 0 <= i < |c.types| && c.types[i] == PromptType(id, r.typeName);
      InsertPromptValid(c, id, r.name, r.text, r.introduction);
    } else {
      TypeNamedFinds(c.types, r.typeName);
      InsertTypeValid(c, r.typeName);
      InsertPromptValid(InsertType(c, r.typeName), c.nextTypeId, r.name, r.text, r.introduction);
    }
  }

  /** The loop keeps the store valid. */
  lemma {:induction false} MergeRecordsValid(c: Catalog, records: seq<Record>)
    ensures Valid(c) ==> Valid(MergeRecords(c, NameMap(c.types), records))
    decreases |records|
  {
    if Valid(c) && |records| > 0 {
      MergeOneTypes(c, records[0]);
      MergeOneRow(c, records[0]);
      MergeOneValid(c, records[0]);
      MergeRecordsValid(MergeOne(c, NameMap(c.types), records[0]).0, records[1..]);
    }
  }

  /**
   * The loop appends one prompt row per record, keeps every earlier row,
   * and leaves the presets alone.
   */
  lemma {:induction false} MergeRecordsFrame(c: Catalog, records: seq<Record>)
    ensures var c' := MergeRecords(c, NameMap(c.types), records);
      && c'.presets == c.presets && c'.nextPresetId == c.nextPresetId
      && |c'.types| >= |c.types| && c'.types[..|c.types|] == c.types
      && |c'.prompts| == |c.prompts| + |records|
      && c'.prompts[..|c.prompts|] == c.prompts
    decreases |records|
  {
    if |records| > 0 {
      MergeOneTypes(c, records[0]);
      MergeOneRow(c, records[0]);
      var c1 := MergeOne(c, NameMap(c.types), records[0]).0;
      MergeRecordsFrame(c1, records[1..]);
      var c' := MergeRecords(c1, NameMap(c1.types), records[1..]);
      assert c'.prompts[..|c1.prompts|][..|c.prompts|] == c'.prompts[..|c.prompts|];
      assert c'.types[..|c1.types|][..|c.types|] == c'.types[..|c.types|];
    }
  }

  /** The loop creates a type row exactly for each name it has not seen, in order of first appearance. */
  lemma {:induction false} MergeRecordsNames(c: Catalog, records: seq<Record>)
    ensures TypeNames(MergeRecords(c, NameMap(c.types), records).types)
         == TypeNames(c.types) + NewTypeNames(TypeNames(c.types), records)
    decreases |records|
  {
    if |records| > 0 {
      var r := records[0];
      MergeOneTypes(c, r);
      var c1 := MergeOne(c, NameMap(c.types), r).0;
      assert MergeRecords(c, NameMap(c.types), records) == MergeRecords(c1, NameMap(c1.types), records[1..]);
      MergeRecordsNames(c1, records[1..]);
      var seen := TypeNames(c.types);
      if r.typeName in seen {
        assert TypeNames(c1.types) == seen;
        assert NewTypeNames(seen, records) == NewTypeNames(seen, records[1..]);
      } else {
        var rest := NewTypeNames(seen + [r.typeName], records[1..]);
        assert TypeNames(c1.types) == seen + [r.typeName];
        assert NewTypeNames(seen, records) == [r.typeName] + rest;
        assert seen + [r.typeName] + rest == seen + ([r.typeName] + rest);
      }
    }
  }

  /** Each appended prompt row stands for its record, in order. */
  lemma {:induction false} MergeRecordsRows(c: Catalog, records: seq<Record>)
    ensures RowsFrom(MergeRecords(c, NameMap(c.types), records), |c.prompts|, records)
    decreases |records|
  {
    if |records| > 0 {
      var r := records[0];
      MergeOneTypes(c, r);
      MergeOneRow(c, r);
      var c1 := MergeOne(c, NameMap(c.types), r).0;
      var c' := MergeRecords(c1, NameMap(c1.types), records[1..]);
      assert MergeRecords(c, NameMap(c.types), records) == c';
      MergeRecordsFrame(c1, records[1..]);
      MergeRecordsRows(c1, records[1..]);
      MergeRowsStep(c, c1, c', r, records[1..]);
      assert records == [r] + records[1..];
    }
  }

  /**
   * The inductive step of `MergeRecordsRows`: the row one pass appends still
   * stands for its record once the later passes have appended theirs.
   */
  lemma MergeRowsStep(c: Catalog, c1: Catalog, c': Catalog, r: Record, rest: seq<Record>)
    requires |c1.prompts| == |c.prompts| + 1 && Describes(c1.types, c1.prompts[|c.prompts|], r)
    requires |c'.types| >= |c1.types| && c'.types[..|c1.types|] == c1.types
    requires |c'.prompts| >= |c1.prompts| && c'.prompts[..|c1.prompts|] == c1.prompts
    requires RowsFrom(c', |c1.prompts|, rest)
    ensures RowsFrom(c', |c.prompts|, [r] + rest)
  {
    assert c'.types == c1.types + c'.types[|c1.types|..];
    TypeNamedExtend(c1.types, c'.types[|c1.types|..], r.typeName);
    assert c'.prompts[|c.prompts|] == c'.prompts[..|c1.prompts|][|c.prompts|];
    RowsFromCons(c', |c.prompts|, r, rest);
  }

  /** The distinct type names of `records`, in order of first appearance. */
  function DistinctTypeNames(records: seq<Record>): seq<string>
  {
    NewTypeNames([], records)
  }

  /**
   * `import_from_json` on a `.plist` file (and the apply-remote button): the
   * catalog afterwards holds exactly the decoded records and no earlier
   * prompt or type; each distinct type name became one type row, in order of
   * first appearance, and every record with that name points at it; presets
   * are untouched.
   */
  function ImportLines(c: Catalog, lines: seq<string>): (c': Catalog)
    ensures Valid(c) ==> Valid(c')
    ensures HoldsExactly(c', DecodeAll(lines))
    ensures TypeNames(c'.types) == DistinctTypeNames(DecodeAll(lines))
    ensures c'.presets == c.presets && c'.nextPresetId == c.nextPresetId
  {
    var records := DecodeAll(lines);
    MergeRecordsValid(Clear(c), records);
    MergeRecordsFrame(Clear(c), records);
    MergeRecordsNames(Clear(c), records);
    MergeRecordsRows(Clear(c), records);
    MergeRecords(Clear(c), map[], records)
  }
}
