/**
 * The two entry points that replace the catalog: `import_from_json`, which
 * dispatches on the chosen file's extension, and
 * `apply_remote_prompt_button_click`, which downloads a caret-delimited
 * catalog and imports it.
 */
module FileImport {
  import opened Wrappers
  import opened Catalog
  import opened LineImport
  import opened JsonImport

  /**
   * ASCII lower-casing. Python's `str.lower` also maps other letters, but
   * none of them lower-cases to a single character of ".json" or ".plist",
   * so the comparisons below come out the same.
   */
  function Lower(s: string): (r: string)
    ensures |r| == |s|
    ensures forall i :: 0 <= i < |s| ==>
      r[i] == (if 'A' <= s[i] <= 'Z' then (s[i] as int + 32) as char else s[i])
  {
    if |s| == 0 then []
    else
      var c := s[0];
      [if 'A' <= c <= 'Z' then (c as int + 32) as char else c] + Lower(s[1..])
  }

  const JsonExtension := ".json"
  const LinesExtension := ".plist"

  /**
   * `import_from_json` as written. `ext` is the chosen file's extension
   * (`None` when the dialog is cancelled), `parsed` what `json.load` makes of
   * the file (`None` for a syntax error) and `lines` the file's lines. Both
   * tables are emptied before the file is read; a failure afterwards skips
   * the commit but rolls nothing back, so the connection keeps whatever the
   * loops had reached. Any extension other than the two known ones empties
   * the catalog and commits.
   */
  function ImportFileAsWritten(c: Catalog, ext: Option<string>, parsed: Option<Json>, lines: seq<string>): Attempt
  {
    if ext.None? then Attempt(c, None)
    else if Lower(ext.value) == JsonExtension then
      if parsed.None? then Attempt(Clear(c), Some(MalformedJson)) else Load(c, parsed.value)
    else if Lower(ext.value) == LinesExtension then Attempt(ImportLines(c, lines), None)
    else Attempt(Clear(c), None)
  }

  /** `import_from_json` with a failed import rolled back: the catalog is replaced, or left as it was. */
  function ImportFile(c: Catalog, ext: Option<string>, parsed: Option<Json>, lines: seq<string>): (a: Attempt)
    ensures a.error.Some? ==> a.store == c
    ensures ext.None? ==> a == Attempt(c, None)
    ensures ext.Some? && Lower(ext.value) == JsonExtension ==>
      (a.error.None? <==> parsed.Some? && WellShaped(parsed.value))
    ensures ext.Some? && Lower(ext.value) == JsonExtension && parsed.Some? && ImportJson(c, parsed.value).Success? ==>
      a.store == ImportJson(c, parsed.value).value
    ensures ext.Some? && Lower(ext.value) == LinesExtension ==> a == Attempt(ImportLines(c, lines), None)
    ensures ext.Some? && Lower(ext.value) != JsonExtension && Lower(ext.value) != LinesExtension ==>
      a == Attempt(Clear(c), None)
    ensures Valid(c) ==> Valid(a.store)
  {
    if ext.Some? && Lower(ext.value) == JsonExtension then
      if parsed.None? then Attempt(c, Some(MalformedJson))
      else
        match ImportJson(c, parsed.value)
        case Success(c') => Attempt(c', None)
        case Failure(e) => Attempt(c, Some(e))
    else ImportFileAsWritten(c, ext, parsed, lines)
  }

  /** The corrected import differs from the one as written only in rolling a failed import back. */
  lemma ImportFileRollsBack(c: Catalog, ext: Option<string>, parsed: Option<Json>, lines: seq<string>)
    ensures var written := ImportFileAsWritten(c, ext, parsed, lines);
      ImportFile(c, ext, parsed, lines) == if written.error.Some? then Attempt(c, written.error) else written
  {
  }

  /**
   * As written, a `.json` file whose first type maps to something other than
   * an object aborts the import with an error message, yet the connection
   * has already lost every earlier type and prompt and holds the new type
   * row; the next commit of any other operation makes that permanent.
   */
  lemma FailedJsonImportKeepsDeletions()
    ensures var c := Catalog([PromptType(1, "Style")], [Prompt(1, 1, "Vivid", "hyperrealistic", "")], [], 2, 2, 1);
      var doc := JObject([("Light", JOther)]);
      var a := ImportFileAsWritten(c, Some(".JSON"), Some(doc), []);
      && a.error == Some(MalformedJson)
      && a.store.types == [PromptType(2, "Light")] && a.store.prompts == []
      && ImportFile(c, Some(".JSON"), Some(doc), []) == Attempt(c, Some(MalformedJson))
  {
    var doc := JObject([("Light", JOther)]);
    assert Lower(".JSON") == ".json";
    assert Members(doc) == [("Light", JOther)];
  }

  /**
   * `apply_remote_prompt_button_click`: with an empty address nothing
   * happens; a download that fails (`body` is `None`) changes nothing;
   * otherwise the downloaded lines replace the catalog.
   */
  function ApplyRemote(c: Catalog, url: string, body: Option<seq<string>>): (a: Attempt)
    ensures url == "" ==> a == Attempt(c, None)
    ensures url != "" && body.None? ==> a == Attempt(c, Some(IOFailure))
    ensures url != "" && body.Some? ==> a.error.None?
    ensures url != "" && body.Some? ==> HoldsExactly(a.store, LineFormat.DecodeAll(body.value))
    ensures Valid(c) ==> Valid(a.store)
    ensures a.store.presets == c.presets
  {
    if url == "" then Attempt(c, None)
    else if body.None? then Attempt(c, Some(IOFailure))
    else Attempt(ImportLines(c, body.value), None)
  }

  /** Applying a remote catalog does what importing the same lines from a `.plist` file does. */
  lemma ApplyRemoteIsLinesImport(c: Catalog, url: string, lines: seq<string>, parsed: Option<Json>)
    requires url != ""
    ensures ApplyRemote(c, url, Some(lines)) == ImportFile(c, Some(LinesExtension), parsed, lines)
  {
    assert Lower(LinesExtension) == LinesExtension;
  }
}
