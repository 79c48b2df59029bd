/**
 * The two prompt buffers of the main tab (the positive and the negative
 * text box) and the buttons that append the selected prompt's text to one
 * of them. The selection reads from the prompts the cache holds for the
 * selected type (`current_selected_type_dict`).
 */
module Buffer {
  import opened Wrappers
  import opened Dict
  import opened Catalog
  import opened Cache

  /** Which of the two text boxes a button writes to. */
  datatype Side = Positive | Negative

  /** The contents of the positive and the negative text box. */
  datatype Buffers = Buffers(positive: string, negative: string)

  function Contents(b: Buffers, side: Side): string
  {
    match side
    case Positive => b.positive
    case Negative => b.negative
  }

  /** What a successful append adds: the prompt text followed by a comma and a space. */
  function Piece(text: string): string
  {
    text + ", "
  }

  /**
   * `add_to_prompt_button_click` (`Positive`) and
   * `add_to_negative_button_click` (`Negative`): an empty selection, or one
   * that is not a prompt of the selected type, leaves both boxes as they
   * are; otherwise the chosen box grows at its end.
   */
  function AddSelected(b: Buffers, side: Side, selected: string, entries: Dict<CachedPrompt>): (r: Buffers)
    ensures Contents(b, side) <= Contents(r, side)
    ensures side.Positive? ==> r.negative == b.negative
    ensures side.Negative? ==> r.positive == b.positive
    ensures selected == "" || selected !in Keys(entries) ==> r == b
    ensures selected != "" && selected in Keys(entries) ==>
              Contents(r, side)[|Contents(b, side)|..] == Piece(Get(entries, selected).value.text)
  {
    var found := Get(entries, selected);
    if selected == "" || found.None? then b
    else
      match side
      case Positive => b.(positive := b.positive + Piece(found.value.text))
      case Negative => b.(negative := b.negative + Piece(found.value.text))
  }

  /**
   * Selecting a stored prompt under its own type appends exactly that
   * prompt row's text: the cache rebuilt from a valid store, whose
   * (type, name) pairs are unique, files each row where the selection finds it.
   */
  lemma AddSelectedFromStore(c: Catalog, t: int, i: int, b: Buffers, side: Side)
    requires Valid(c) && UniquePromptKeys(c.prompts)
    requires 0 <= t < |c.types| && 0 <= i < |c.prompts|
    requires c.prompts[i].typeId == c.types[t].id && c.prompts[i].name != ""
    ensures Get(Rebuild(c), c.types[t].name).Some?
    ensures Contents(AddSelected(b, side, c.prompts[i].name, Get(Rebuild(c), c.types[t].name).value.prompts), side)
              == Contents(b, side) + Piece(c.prompts[i].text)
  {
    RebuildEntry(c, t, i);
  }
}
