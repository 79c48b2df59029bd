# Prompt catalog core, modelled in Dafny

The application is a desktop prompt combiner. It keeps a catalog of
text-to-image prompts in an sqlite database with three tables:

- `prompt_types` holds named categories. `type_name` is `UNIQUE`.
- `prompts` holds the prompts. Each row has a type, a name, a text and an
  introduction.
- `presets` holds named pairs of a positive and a negative prompt buffer.

The user combines prompts by appending the selected prompt's text to one of
two buffers. A buffer pair can be saved as a preset and loaded again. Types
and prompts can be added, renamed and deleted. The whole catalog can be
exported to a JSON document. It can be replaced from a JSON document, from a
caret-delimited `.plist` file, or from a caret-delimited catalog downloaded
from a URL.

This project models that core as pure functions over an immutable `Catalog`
value and proves properties of them. The modules follow the program's
structure:

- `Catalog` (catalog.dfy) holds the three tables as sequences of rows in id
  order, with one AUTOINCREMENT counter per table. `Valid` is the store's
  integrity: ordered ids below their counter, unique type names, and every
  prompt's type id one the type table has handed out. `UniquePromptKeys`
  says no two prompts share a type and a name. The module also holds the
  row-level insert, delete and rename primitives.
- `Text` (text.dfy) models Python's `str.strip` with Python's whitespace set,
  and `split`/`join` on one delimiter.
- `Dict` (dict.dfy) models a Python dict as an association list. It keeps
  insertion order, and a later assignment to a key keeps the key's position
  and replaces its value.
- `Cache` (cache.dfy) models `initialize_prompt_type_dict`. It rebuilds the
  read-through cache: type name to id and the prompts of that type.
- `Buffer` (buffer.dfy) models the two "add" buttons that append
  `text + ", "` to a buffer.
- `Presets` (presets.dfy) models `save_preset` (an upsert by name),
  `initialize_presets` and `load_config_button_click`.
- `Crud` (crud.dfy) models adding, updating and deleting types and prompts.
- `LineFormat` (line_format.dfy) models the caret-delimited line format.
- `LineImport` (line_import.dfy) models the replace-mode merge of decoded
  lines. Each type row is inserted the first time its name is seen, and its
  id is reused through the name-to-id map after that.
- `JsonImport` (json_import.dfy) models the JSON branch of `import_from_json`.
- `JsonExport` (json_export.dfy) models `export_to_json`, including the
  round trip through the import.
- `FileImport` (file_import.dfy) models the extension dispatch of
  `import_from_json` and `apply_remote_prompt_button_click`.

An operation the program refuses with an error dialog returns
`Failure(error)` and changes nothing. User input passes through `Text.Strip`
exactly where the program calls `.strip()`. Confirmation dialogs are a
`confirmed` parameter. The downloaded body, the parsed JSON value and the
file's lines are parameters.

## Model

| member | source | states |
|---|---|---|
| Catalog.InsertType | main.py:112-117 | the earlier type rows stay; a new name then finds the next AUTOINCREMENT id, and every other name finds what it found before; prompts and presets are untouched |
| Catalog.InsertTypeValid | main.py:112-117 | inserting a name the type table does not hold keeps ids ordered and type names unique |
| Catalog.InsertPrompt | main.py:120-129 | the earlier prompt rows stay and exactly one row is added; the (type, name) pair is then present; the new id is above every earlier id, so id order is kept; types and presets are untouched |
| Catalog.InsertPromptValid | main.py:120-129 | inserting a prompt whose type id was handed out keeps the store valid |
| Catalog.DeletePrompts | main.py:770 | a `DELETE FROM prompts WHERE …` keeps exactly the rows the condition does not match |
| Catalog.DeletePromptsValid | main.py:770 | deleting prompt rows keeps the store valid |
| Catalog.DeleteTypeRow | main.py:825 | deleting a type row by id keeps exactly the other rows |
| Catalog.DeleteTypeRowValid | main.py:825 | deleting a type row keeps ids ordered and names unique |
| Catalog.DeleteTypeRowDropsName | main.py:825 | with unique names, deleting a type's id removes its name from the table |
| Catalog.RenameType | main.py:804 | `UPDATE prompt_types SET type_name` changes only the row with that id and keeps every id |
| Catalog.RenameTypeLookup | main.py:804 | after a rename to an unused name, the new name finds the id, the old name finds nothing and every other name finds what it found before |
| Catalog.RenameTypeValid | main.py:804 | renaming to a name the table does not hold keeps the store valid |
| Catalog.Clear | main.py:894-895 | deleting every prompt and type row keeps presets and counters, and keeps the store valid |
| Catalog.TypeNamedFinds | main.py:115 | the name lookup finds nothing exactly when no row carries the name, and otherwise returns the id of a row that does |
| Catalog.TypeNamedUnique | main.py:115 | under the UNIQUE constraint, looking up a row's name returns that row's id |
| Catalog.HasPrompt | main.py:715-719 | the duplicate probe is true exactly when some row has that type id and name |
| Text.Strip | main.py:706-708 | the result has no leading or trailing whitespace, is a contiguous part of the input, and everything cut off is whitespace |
| Text.StripTrimmed | main.py:706-708 | stripping is the identity on text that has no outer whitespace |
| Text.Split | main.py:924 | `split('^')` yields one more field than there are carets, and no field holds a caret |
| Text.JoinSplit | main.py:924 | joining the fields of a split with the delimiter gives back the text |
| Text.SplitJoin | main.py:924 | splitting the join of caret-free fields gives back the fields |
| Dict.Put | main.py:421-424 | assigning a key makes it map to the value, leaves every other key alone, and appends the key only if it is new |
| Dict.FromPairsLaterWins | main.py:428-431 | building a dict by successive assignment leaves each key with its last assigned value |
| Dict.FromPairsKeys | main.py:428-431 | the built dict has exactly the keys that were assigned |
| Dict.FromPairsDistinct | main.py:428-431 | the built dict never holds a key twice |
| Cache.RebuildKeys | main.py:420-425 | the cache has one entry per type row, in table order |
| Cache.CachedTypeIdFinds | main.py:420-425 | the cache maps every type name to the id the table holds for it, and unknown names to nothing |
| Cache.RebuildFiles | main.py:404-431 | every type's entry holds its id and exactly the prompts with that type id, later rows winning a repeated name |
| Cache.RowsOfLast | main.py:428-431 | with unique (type, name) pairs, each prompt row is what its type's entry keeps under its name |
| Cache.RebuildEntry | main.py:428-431 | looking a stored prompt up by its type's name and its own name finds that row's id, text and introduction |
| Cache.RebuildAsWrittenFiles | main.py:428-431 | the code as written agrees with the corrected cache on every type whose name is not empty |
| Cache.EmptyNamedTypeLosesPrompts | main.py:430 | a type named "" keeps its entry but loses its prompts in the code as written; the corrected cache keeps them |
| Buffer.AddSelected | main.py:549-559 | the chosen buffer only grows, by exactly the selected prompt's text and ", "; the other buffer is unchanged, and an empty or unknown selection changes nothing |
| Buffer.AddSelectedFromStore | main.py:549-559 | selecting a stored prompt under its own type appends exactly that row's text and ", " |
| Presets.UpdateNamed | main.py:575-578 | the `UPDATE … WHERE preset_name = ?` rewrites both texts of every row with that name and leaves every other row and every id alone |
| Presets.Upsert | main.py:569-584 | afterwards the name is stored, every row with it holds the new texts, and rows with other names are the same before and after; a row and a preset id are spent only when the name was new, and the new row takes that id; types and prompts are untouched |
| Presets.SavePreset | main.py:561-591 | saving fails with a validation error exactly when the stripped name is empty; otherwise it adds at most one row and touches no prompt or type |
| Presets.SavePresetStores | main.py:561-591 | after a save the name is present, every row with it holds the stripped buffers, and rows with other names are the same before and after |
| Presets.UpsertValid | main.py:569-584 | saving a preset keeps the store valid |
| Presets.SavePresetIdempotent | main.py:561-591 | saving the same name and buffers twice gives the same store as saving once |
| Presets.SavePresetCount | main.py:561-591 | a save leaves one row for a new name and never adds a row for an existing name |
| Presets.UpdateNamedCount | main.py:575-578 | the in-place update keeps, for every name, the number of rows carrying it |
| Presets.PresetPairs | main.py:456-464 | the preset rows read as (name, (positive, negative)) pairs in table order |
| Presets.LoadPreset | main.py:619-626 | loading a known preset replaces both buffers with its stored pair; an empty or unknown selection changes nothing |
| Presets.SaveThenLoad | main.py:561-626 | loading a preset just saved gives back the stripped buffers that were saved |
| Presets.LoadStored | main.py:456-464 | with unique preset names, loading a row's name gives back that row's buffers |
| Crud.AddType | main.py:777-789 | adding succeeds exactly when the stripped name is non-empty and new; it fails with a validation or duplicate error otherwise, and on success appends the name with the next id and touches no prompt or preset |
| Crud.AddTypeValid | main.py:777-789 | adding a type keeps the store valid |
| Crud.UpdateType | main.py:791-812 | renaming succeeds exactly when both names are given and either they are equal (no change) or the old name exists and the new one is free; the errors say which check failed; ids, prompts and presets are kept |
| Crud.UpdateTypeRenames | main.py:791-812 | after a rename the new name finds the old id, the old name finds nothing, and every other name finds what it found before |
| Crud.UpdateTypeValid | main.py:791-812 | renaming a type keeps the store valid |
| Crud.DeleteType | main.py:814-831 | deleting requires a name; unconfirmed it changes nothing; confirmed it keeps exactly the prompts of other types and the other type rows |
| Crud.DeleteTypeGone | main.py:814-831 | after a confirmed delete the name is gone from the type table, no prompt of that type is left, and the store is valid |
| Crud.AddPrompt | main.py:704-733 | adding succeeds exactly when type, stripped name and stripped text are given, the type is known and (type, name) is new; it fails with the matching error otherwise, and on success appends one row with the stripped fields |
| Crud.AddPromptValid | main.py:704-733 | adding a prompt keeps the store valid |
| Crud.AddPromptUnique | main.py:715-723 | adding a prompt keeps (type, name) pairs unique |
| Crud.UpdatePromptAsWritten | main.py:735-760 | as written: the new row is inserted, and the old name is deleted only when it differs from the new one |
| Crud.UpdatePromptAsWrittenValid | main.py:735-760 | the update as written keeps the store valid |
| Crud.UpdateKeepingNameDuplicates | main.py:746-754 | updating a prompt without renaming it leaves the old row and the new row under the same (type, name) |
| Crud.UpdatePrompt | main.py:735-760 | corrected update: succeeds exactly when the fields are filled and the type is known; the result holds the new row and keeps exactly the old rows that carry neither the old nor the new name under that type |
| Crud.UpdatePromptLeavesOne | main.py:746-754 | after the corrected update, the only row under the new name is the inserted one, and a renamed prompt's old name is gone |
| Crud.UpdatePromptValid | main.py:735-760 | the corrected update keeps the store valid and keeps (type, name) pairs unique |
| Crud.DeletePrompt | main.py:762-775 | deleting requires a type and a name; unconfirmed it changes nothing; confirmed it keeps exactly the rows that are not that (type, name) |
| Crud.DeletePromptValid | main.py:762-775 | deleting a prompt keeps the store valid |
| Crud.DeletePromptsUnique | main.py:770 | deleting rows keeps (type, name) pairs unique |
| LineFormat.DecodeLine | main.py:924-926 | a line decodes exactly when its stripped text has three carets; the four fields joined with carets give the stripped line |
| LineFormat.DecodeAllAppend | main.py:923-926 | decoding the lines of two files one after the other is decoding each |
| LineFormat.MalformedLineSkipped | main.py:925 | a line whose stripped text does not have exactly three carets contributes nothing |
| LineFormat.EncodeDecode | main.py:924-926 | a record whose fields hold no caret and no outer whitespace decodes back from its caret-joined line |
| LineFormat.EncodeDecodeAll | main.py:923-926 | a file of such lines decodes to exactly its records |
| LineImport.MergeOneTypes | main.py:929-934 | a record's type row is inserted only if its name is new, and the name-to-id map stays the map of the type table |
| LineImport.MergeOneRow | main.py:937-938 | each record appends exactly one prompt row, which stands for the record under its type's id |
| LineImport.MergeRecordsNames | main.py:923-934 | the merge adds each new type name once, in first-seen order |
| LineImport.MergeRecordsRows | main.py:923-938 | after the merge, the appended rows stand one for one and in order for the records |
| LineImport.MergeRecordsValid | main.py:923-938 | the merge keeps the store valid |
| LineImport.ImportLines | main.py:918-938 | a line import leaves exactly one row per decoded line, one type per distinct type name in first-seen order, and the presets untouched; it keeps the store valid |
| JsonImport.TextField | main.py:913-914 | a missing field reads as ""; a present field is accepted exactly when it is a string |
| JsonImport.InsertPromptsAccepts | main.py:912-916 | the prompt loop finishes exactly when every entry is an object with string fields |
| JsonImport.InsertTypesAccepts | main.py:905-916 | the type loop finishes exactly when every value is an object of well-shaped entries |
| JsonImport.InsertTypesNames | main.py:905-909 | each key of the document becomes exactly one type row, in document order |
| JsonImport.InsertTypesRows | main.py:905-916 | the inserted prompt rows stand one for one for the document's entries, each under its own key's type |
| JsonImport.ImportJson | main.py:893-916 | a JSON import succeeds exactly when the document is an object of objects of prompt entries; it then holds exactly the document's entries and one type per key, keeps presets and keeps the store valid |
| JsonImport.ImportJsonKeys | main.py:905-909 | a name is a type after the import exactly when it is a key of the document |
| JsonExport.ExportPairs | main.py:855-867 | the export has one key per type row, mapped to that type's prompts |
| JsonExport.EntryRowsKeys | main.py:858-866 | a prompt name is under a type's key exactly when a row of that type carries it |
| JsonExport.ExportKeys | main.py:846-867 | the exported keys are the type names, in table order, empty types included |
| JsonExport.ExportPlaces | main.py:855-867 | each type's key holds that type's prompts, and a name appears under it exactly when a row of that type carries it |
| JsonExport.ExportIsExportable | main.py:855-867 | an export of a store with unique type names has unique keys at both levels |
| JsonExport.EntryJsonBody | main.py:863-866 | an exported entry reads back as the same text and introduction |
| JsonExport.ToJsonWellShaped | main.py:855-867 | every exported document is one the import accepts |
| JsonExport.ImportExportRoundTrip | main.py:843-916 | importing an exportable document and exporting again gives back the document |
| JsonExport.ExportRoundTrip | main.py:843-916 | exporting a valid store, importing the result into any valid store and exporting again gives the first export |
| FileImport.Lower | main.py:889 | lower-casing keeps the length and maps exactly the ASCII capitals to small letters |
| FileImport.ImportFile | main.py:883-945 | corrected import: a failure leaves the store as it was; no file changes nothing; `.json` succeeds exactly for a well-shaped parsed document and then is the JSON import; `.plist` is the line import; any other extension clears the types and prompts; validity is kept |
| FileImport.FailedJsonImportKeepsDeletions | main.py:893-916 | the code as written, given a `.JSON` document whose entry is not an object, reports an error yet has already deleted every prompt |
| FileImport.ApplyRemote | main.py:628-679 | an empty URL changes nothing; a failed download changes nothing and reports the failure; a downloaded body replaces the catalog with exactly its decoded lines, keeps presets and keeps validity |
| FileImport.ApplyRemoteIsLinesImport | main.py:644-671 | applying a downloaded catalog is the same as importing those lines from a `.plist` file |

## Left out

- The Tkinter user interface, the message boxes and the combobox refresh
  calls are left out. Each error dialog is an `Error` value, and each
  yes/no confirmation is the `confirmed` parameter.
- The sqlite connection, cursors and commits are left out. Each operation
  maps one store to the next. The `type_name UNIQUE` constraint
  (main.py:115) and AUTOINCREMENT ids are kept explicitly.
- File dialogs, file reads and writes, `json.load`, `json.dump` and the URL
  download are parameters: the chosen extension, the parsed `Json` value,
  the file's lines and the downloaded body. JSON text syntax, indentation and
  `ensure_ascii` are not modelled. Nor is writing the export to disk.
- `resource_path` and the sample catalog in prompts.py are not part of this
  model.
- JsonImport.ImportJson: a prompt field that is present but not a string
  counts as malformed. For a list or an object this matches the code, whose
  insert at main.py:915-916 raises on such a value. A number, a boolean or
  `null` is stored by the code but rejected by the model.
- FileImport.Lower: lower-cases ASCII capitals only. Python's `str.lower`
  maps more letters, but none of them lower-cases into ".json" or ".plist",
  so every extension is classified the same.
- The Tk `Text` widget adds a trailing newline to what it returns. The code
  strips every such read, so the model strips the buffer texts and leaves
  the widget out.
- `Cache.Rebuild` swallows database errors (main.py:433-435). This handler is
  not modelled, because the pure model has no failing query.
- In the code, both line imports and the remote apply delete every prompt
  and type first (main.py:647-648, 894-895). The model follows the code: it
  replaces.
- FileImport.ImportFile and FileImport.ApplyRemote: the file's lines and the
  downloaded body arrive as already-decoded parameters. A decoding error while
  the `.plist` file (main.py:922-924) or the downloaded file (main.py:653) is
  read is therefore not modelled. In the code such an error comes after the
  deletes and, as in the JSON case under Findings, is not rolled back; the
  rollback of `ImportFile` covers only the JSON branch.
- `import_from_json` with an extension other than `.json` or `.plist`
  deletes the catalog, commits, and reports success. The model keeps this
  (`Clear`).
- `preset_name` has no `UNIQUE` constraint (main.py:135). The upsert makes a
  name unique only if it was unique before, which is the most the code
  guarantees.
- The selection lists behind the comboboxes
  (`initialize_prompt_type_combobox`, `update_prompt_combobox`) are not
  modelled. The selected type is looked up through the type table, which
  `Cache.CachedTypeIdFinds` shows is what the cache returns.

## Findings

| source | as written | input that shows it | evidently intended | confidence | as-written member | corrected member |
|---|---|---|---|---|---|---|
| main.py:430 | prompts are filed into the cache only `if type_name:`, so a type named "" keeps an empty entry | a `.plist` line `^a^b^c` creates type "" with prompt "a", and the cache then lists no prompts for "" although the export shows "a" | file every prompt under its type; the check only guards against a missing id | not executed | Cache.EmptyNamedTypeLosesPrompts | Cache.RebuildFiles |
| main.py:893-916, 945 | both tables are emptied before the JSON is read; a malformed entry raises, the handler skips the commit but rolls nothing back | `.JSON` file `{"Light": 1}` over a non-empty catalog: an error is shown but the prompts are already deleted on the open connection | an import either replaces the catalog or leaves it as it was | not executed | FileImport.FailedJsonImportKeepsDeletions | FileImport.ImportFile |
| main.py:746-754 | the old row is deleted only when the name changes, then a new row is inserted | updating prompt "Vivid" of type "Style" without renaming it | the update replaces the row, leaving one prompt per (type, name) as `add_prompt` enforces | not executed | Crud.UpdateKeepingNameDuplicates | Crud.UpdatePromptLeavesOne |
