/**
 * The `presets` table: named pairs of positive and negative buffer texts.
 * Saving is an upsert keyed by the stripped name; the preset combobox
 * offers the name -> texts dict built from the table, and loading a
 * preset replaces both buffers.
 *
 * The table declares no uniqueness on `preset_name`; `UniquePresetNames`
 * is what saving maintains rather than what the schema enforces.
 */
module Presets {
  import opened Wrappers
  import opened Dict
  import opened Catalog
  import opened Buffer
  import Text

  /** `SELECT id FROM presets WHERE preset_name = ?` finds a row. */
  predicate Named(presets: seq<Preset>, name: string)
  {
    exists i | 0 <= i < |presets| :: presets[i].name == name
  }

  /** How many rows carry `name`. */
  function Count(presets: seq<Preset>, name: string): nat
  {
    if |presets| == 0 then 0
    else Count(presets[..|presets| - 1], name) + (if presets[|presets| - 1].name == name then 1 else 0)
  }

  ghost predicate UniquePresetNames(presets: seq<Preset>)
  {
    forall i, j :: 0 <= i < j < |presets| ==> presets[i].name != presets[j].name
  }

  /**
   * `UPDATE presets SET prompt = ?, negative_prompt = ? WHERE preset_name = ?`:
   * every row with that name takes the new texts, keeping its id and place.
   */
  function UpdateNamed(presets: seq<Preset>, name: string, positive: string, negative: string): (ps: seq<Preset>)
    ensures |ps| == |presets|
    ensures forall i :: 0 <= i < |presets| ==> ps[i].id == presets[i].id && ps[i].name == presets[i].name
    ensures forall i :: 0 <= i < |presets| && presets[i].name == name ==>
              ps[i].positive == positive && ps[i].negative == negative
    ensures forall i :: 0 <= i < |presets| && presets[i].name != name ==> ps[i] == presets[i]
  {
    if |presets| == 0 then []
    else
      var p := presets[0];
      var q := if p.name == name then p.(positive := positive, negative := negative) else p;
      [q] + UpdateNamed(presets[1..], name, positive, negative)
  }

  /**
   * The update-or-insert `save_preset` performs once the name is known to be
   * non-empty. Afterwards the name is stored, every row carrying it holds the
   * new texts, and the rows with other names are the same before and after;
   * a row, and a preset id, is spent only when the name was not stored.
   */
  function Upsert(c: Catalog, name: string, positive: string, negative: string): (c': Catalog)
    ensures c'.types == c.types && c'.prompts == c.prompts
    ensures c'.nextTypeId == c.nextTypeId && c'.nextPromptId == c.nextPromptId
    ensures Named(c'.presets, name)
    ensures forall p :: p in c'.presets && p.name == name ==> p.positive == positive && p.negative == negative
    ensures forall p :: p in c.presets && p.name != name ==> p in c'.presets
    ensures forall p :: p in c'.presets && p.name != name ==> p in c.presets
    ensures |c'.presets| == |c.presets| + (if Named(c.presets, name) then 0 else 1)
    ensures c'.nextPresetId == c.nextPresetId + (if Named(c.presets, name) then 0 else 1)
    ensures !Named(c.presets, name) ==> Preset(c.nextPresetId, name, positive, negative) in c'.presets
  {
    if Named(c.presets, name) then
      UpdateNamedStores(c.presets, name, positive, negative);
      c.(presets := UpdateNamed(c.presets, name, positive, negative))
    else
      var ps := c.presets + [Preset(c.nextPresetId, name, positive, negative)];
      assert ps[|c.presets|].name == name;
      c.(presets := ps, nextPresetId := c.nextPresetId + 1)
  }

  /**
   * `save_preset`: the name and both buffer texts are stripped; an empty
   * name is refused; a name that is stored is updated in place, any other
   * is inserted with the next preset id. The other tables are untouched.
   */
  function SavePreset(c: Catalog, entry: string, positiveBuffer: string, negativeBuffer: string): (r: Result<Catalog, Error>)
    ensures r.Failure? <==> Text.Strip(entry) == ""
    ensures r.Failure? ==> r.error == ValidationFailure
    ensures r.Success? ==> r.value.types == c.types && r.value.prompts == c.prompts
    ensures r.Success? ==> r.value.nextTypeId == c.nextTypeId && r.value.nextPromptId == c.nextPromptId
    ensures r.Success? ==> |c.presets| <= |r.value.presets| <= |c.presets| + 1
  {
    var name := Text.Strip(entry);
    if name == "" then Failure(ValidationFailure)
    else Success(Upsert(c, name, Text.Strip(positiveBuffer), Text.Strip(negativeBuffer)))
  }

  /** The update branch: the rows named `name` hold the new texts, the others are untouched. */
  lemma UpdateNamedStores(presets: seq<Preset>, name: string, positive: string, negative: string)
    requires Named(presets, name)
    ensures var ps := UpdateNamed(presets, name, positive, negative);
      && Named(ps, name)
      && (forall p :: p in ps && p.name == name ==> p.positive == positive && p.negative == negative)
      && (forall p :: p in presets && p.name != name ==> p in ps)
      && (forall p :: p in ps && p.name != name ==> p in presets)
  {
    var ps := UpdateNamed(presets, name, positive, negative);
    var i :| 0 <= i < |presets| && presets[i].name == name;
    assert ps[i].name == name;
    forall p | p in presets && p.name != name
      ensures p in ps
    {
      var k :| 0 <= k < |presets| && presets[k] == p;
      assert ps[k] == p;
    }
  }

  /**
   * After a save, a preset with the stripped name exists, every preset with
   * that name holds the stripped buffer texts, and the presets with other
   * names are exactly those that were there before.
   */
  lemma SavePresetStores(c: Catalog, entry: string, positiveBuffer: string, negativeBuffer: string)
    requires SavePreset(c, entry, positiveBuffer, negativeBuffer).Success?
    ensures var c' := SavePreset(c, entry, positiveBuffer, negativeBuffer).value;
      var name := Text.Strip(entry);
      && Named(c'.presets, name)
      && (forall p :: p in c'.presets && p.name == name ==>
            p.positive == Text.Strip(positiveBuffer) && p.negative == Text.Strip(negativeBuffer))
      && (forall p :: p in c.presets && p.name != name ==> p in c'.presets)
      && (forall p :: p in c'.presets && p.name != name ==> p in c.presets)
  {
  }

  /** Updating in place keeps every id where it was. */
  lemma UpdateNamedInOrder(presets: seq<Preset>, next: nat, name: string, positive: string, negative: string)
    requires PresetsInOrder(presets, next)
    ensures PresetsInOrder(UpdateNamed(presets, name, positive, negative), next)
  {
  }

  /** Saving keeps the store valid: an inserted preset takes the next id, an updated one keeps its own. */
  lemma UpsertValid(c: Catalog, name: string, positive: string, negative: string)
    requires Valid(c)
    ensures Valid(Upsert(c, name, positive, negative))
  {
    if Named(c.presets, name) {
      UpdateNamedInOrder(c.presets, c.nextPresetId, name, positive, negative);
    }
  }

  /** Saving the same entry again changes nothing. */
  lemma SavePresetIdempotent(c: Catalog, entry: string, positiveBuffer: string, negativeBuffer: string)
    requires SavePreset(c, entry, positiveBuffer, negativeBuffer).Success?
    ensures var c' := SavePreset(c, entry, positiveBuffer, negativeBuffer).value;
      SavePreset(c', entry, positiveBuffer, negativeBuffer) == Success(c')
  {
    var c' := SavePreset(c, entry, positiveBuffer, negativeBuffer).value;
    SavePresetStores(c, entry, positiveBuffer, negativeBuffer);
    var name := Text.Strip(entry);
    var ps := UpdateNamed(c'.presets, name, Text.Strip(positiveBuffer), Text.Strip(negativeBuffer));
    assert ps == c'.presets by {
      forall i | 0 <= i < |ps|
        ensures ps[i] == c'.presets[i]
      {
        assert c'.presets[i] in c'.presets;
      }
    }
  }

  /** Updating rows in place does not change how many carry a name. */
  lemma {:induction false} UpdateNamedCount(presets: seq<Preset>, name: string, positive: string, negative: string, other: string)
    ensures Count(UpdateNamed(presets, name, positive, negative), other) == Count(presets, other)
  {
    if |presets| > 0 {
      var n := |presets| - 1;
      var ps := UpdateNamed(presets, name, positive, negative);
      UpdateNamedCount(presets[..n], name, positive, negative, other);
      assert ps[..n] == UpdateNamed(presets[..n], name, positive, negative);
    }
  }

  /** A name that no row carries is counted zero times. */
  lemma {:induction false} CountAbsent(presets: seq<Preset>, name: string)
    requires !Named(presets, name)
    ensures Count(presets, name) == 0
  {
    if |presets| > 0 {
      var n := |presets| - 1;
      assert forall i | 0 <= i < n :: presets[..n][i] == presets[i];
      CountAbsent(presets[..n], name);
    }
  }

  /**
   * Saving never adds a second row for a name: a name that was absent ends
   * up on exactly one row, and a stored one keeps its number of rows.
   */
  lemma SavePresetCount(c: Catalog, entry: string, positiveBuffer: string, negativeBuffer: string)
    requires SavePreset(c, entry, positiveBuffer, negativeBuffer).Success?
    ensures var c' := SavePreset(c, entry, positiveBuffer, negativeBuffer).value;
      var name := Text.Strip(entry);
      Count(c'.presets, name) == if Named(c.presets, name) then Count(c.presets, name) else 1
  {
    var c' := SavePreset(c, entry, positiveBuffer, negativeBuffer).value;
    var name := Text.Strip(entry);
    if Named(c.presets, name) {
      UpdateNamedCount(c.presets, name, Text.Strip(positiveBuffer), Text.Strip(negativeBuffer), name);
    } else {
      CountAbsent(c.presets, name);
      assert c'.presets[..|c.presets|] == c.presets;
    }
  }

  /** Saving keeps preset names unique. */
  lemma SavePresetUnique(c: Catalog, entry: string, positiveBuffer: string, negativeBuffer: string)
    requires UniquePresetNames(c.presets)
    requires SavePreset(c, entry, positiveBuffer, negativeBuffer).Success?
    ensures UniquePresetNames(SavePreset(c, entry, positiveBuffer, negativeBuffer).value.presets)
  {
  }

  /** The (name, (positive, negative)) pairs of the table, in row order. */
  function PresetPairs(presets: seq<Preset>): (ps: seq<(string, (string, string))>)
    ensures |ps| == |presets|
    ensures forall i :: 0 <= i < |presets| ==> ps[i] == (presets[i].name, (presets[i].positive, presets[i].negative))
  {
    if |presets| == 0 then [] else [(presets[0].name, (presets[0].positive, presets[0].negative))] + PresetPairs(presets[1..])
  }

  /** `initialize_presets`: the dict the preset combobox offers, a later row winning for a repeated name. */
  function PresetDict(presets: seq<Preset>): Dict<(string, string)>
  {
    FromPairs(PresetPairs(presets))
  }

  /**
   * `load_config_button_click`: a selected name the dict knows replaces
   * both buffers with its texts; anything else leaves them alone.
   */
  function LoadPreset(presets: Dict<(string, string)>, selected: string, b: Buffers): (r: Buffers)
    ensures selected == "" || selected !in Keys(presets) ==> r == b
    ensures selected != "" && selected in Keys(presets) ==> Some((r.positive, r.negative)) == Get(presets, selected)
  {
    var found := Get(presets, selected);
    if selected == "" || found.None? then b
    else Buffers(found.value.0, found.value.1)
  }

  /**
   * Loading the preset just saved gives back the stripped buffer texts it
   * was saved from, whatever the buffers hold now.
   */
  lemma SaveThenLoad(c: Catalog, entry: string, positiveBuffer: string, negativeBuffer: string, b: Buffers)
    requires SavePreset(c, entry, positiveBuffer, negativeBuffer).Success?
    ensures var c' := SavePreset(c, entry, positiveBuffer, negativeBuffer).value;
      LoadPreset(PresetDict(c'.presets), Text.Strip(entry), b)
        == Buffers(Text.Strip(positiveBuffer), Text.Strip(negativeBuffer))
  {
    var c' := SavePreset(c, entry, positiveBuffer, negativeBuffer).value;
    var name := Text.Strip(entry);
    var texts := (Text.Strip(positiveBuffer), Text.Strip(negativeBuffer));
    SavePresetStores(c, entry, positiveBuffer, negativeBuffer);
    var pairs := PresetPairs(c'.presets);
    var i :| 0 <= i < |c'.presets| && c'.presets[i].name == name;
    forall j | 0 <= j < |pairs| && pairs[j].0 == name
      ensures pairs[j].1 == texts
    {
      assert c'.presets[j] in c'.presets;
    }
    LastValueUniform(pairs, name, texts, i);
    FromPairsLaterWins(pairs, name);
  }

  /** With unique names, loading a stored preset by its name gives that row's texts. */
  lemma LoadStored(presets: seq<Preset>, i: int, b: Buffers)
    requires UniquePresetNames(presets)
    requires 0 <= i < |presets| && presets[i].name != ""
    ensures LoadPreset(PresetDict(presets), presets[i].name, b) == Buffers(presets[i].positive, presets[i].negative)
  {
    var pairs := PresetPairs(presets);
    LastValueUniform(pairs, presets[i].name, (presets[i].positive, presets[i].negative), i);
    FromPairsLaterWins(pairs, presets[i].name);
  }
}
