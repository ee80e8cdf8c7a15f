/** One row of the list: the edit dialog's state and the guard that decides
    whether a confirmed edit is handed to `onEdit`. */
module TodoItem {
  import opened Wrappers
  import opened JsString

  /** The row's local state: whether the dialog is open and the text in its field. */
  datatype ItemState = ItemState(dialogOpen: bool, editText: string)

  /** The call `onEdit(id, newText)`. */
  datatype EditCall = EditCall(id: string, newText: string)

  /** What confirming the dialog does: the `onEdit` call, if one is made,
      and the row's state afterwards. */
  datatype Edit = Edit(call: Option<EditCall>, state: ItemState)

  /** A freshly mounted row: dialog closed, field holding the item's text. */
  function Mount(text: string): (s: ItemState)
    ensures !s.dialogOpen && s.editText == text
  {
    ItemState(false, text)
  }

  /** Typing into the dialog's field. */
  function ChangeText(s: ItemState, value: string): (r: ItemState)
    ensures r.dialogOpen == s.dialogOpen && r.editText == value
  {
    s.(editText := value)
  }

  /** Opening or closing the dialog from its trigger or overlay. */
  function OpenChange(s: ItemState, open: bool): (r: ItemState)
    ensures r.dialogOpen == open && r.editText == s.editText
  {
    s.(dialogOpen := open)
  }

  /** The cancel button: closes the dialog, keeps the typed text. */
  function Cancel(s: ItemState): (r: ItemState)
    ensures !r.dialogOpen && r.editText == s.editText
  {
    s.(dialogOpen := false)
  }

  /** `handleEdit` for the item `id` whose current text is `text`;
      `hasOnEdit` says whether the parent supplied an `onEdit` handler. */
  function HandleEdit(id: string, text: string, hasOnEdit: bool, s: ItemState): (r: Edit)
    ensures r.call.Some? <==> hasOnEdit && !AllWhitespace(s.editText) && s.editText != text
    ensures r.call.Some? ==> r.call.value == EditCall(id, Trim(s.editText))
    ensures r.call.Some? ==> r.call.value.newText != [] && IsTrimmed(r.call.value.newText)
    ensures !r.state.dialogOpen && r.state.editText == s.editText
  {
    TrimEmptyIff(s.editText);
    TrimIsTrimmed(s.editText);
    var call := if hasOnEdit && Trim(s.editText) != [] && s.editText != text
      then Some(EditCall(id, Trim(s.editText))) else None;
    Edit(call, s.(dialogOpen := false))
  }

  /** The equality test looks at the untrimmed field, so a commit can hand
      on the very text the item already has. */
  lemma CommitMayRepeatCurrentText()
    ensures HandleEdit("1", "a", true, ItemState(true, " a ")).call == Some(EditCall("1", "a"))
  {
    var s := " a ";
    assert IsTrimAt(s, 1, 2);
    TrimMatchesReference(s, 1, 2);
    assert s[1..2] == "a" && !IsWhitespace(s[1]);
  }

  /** When the field holds no surrounding whitespace, a committed edit does
      change the text. */
  lemma TrimmedCommitDiffers(id: string, text: string, hasOnEdit: bool, s: ItemState)
    requires IsTrimmed(s.editText)
    requires HandleEdit(id, text, hasOnEdit, s).call.Some?
    ensures HandleEdit(id, text, hasOnEdit, s).call.value.newText != text
  {
  }

  /** Confirming a field left untouched since mount commits nothing. */
  lemma UntouchedFieldCommitsNothing(id: string, text: string, hasOnEdit: bool)
    ensures HandleEdit(id, text, hasOnEdit, OpenChange(Mount(text), true)).call.None?
  {
  }
}
