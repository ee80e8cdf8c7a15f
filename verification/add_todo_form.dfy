/** The add form: its submit handler decides whether `onAdd` is called,
    with what text, and what the input field holds afterwards. */
module AddTodoForm {
  import opened Wrappers
  import opened JsString

  /** What one submit does: the text handed to `onAdd`, if it is called,
      and the input field's value afterwards. */
  datatype Submit = Submit(added: Option<string>, input: string)

  /** `handleSubmit` on the current input value. */
  function HandleSubmit(input: string): (r: Submit)
    ensures r.added.Some? <==> !AllWhitespace(input)
    ensures r.added.Some? ==> r.added.value == Trim(input) && r.input == []
    ensures r.added.Some? ==> r.added.value != [] && IsTrimmed(r.added.value)
    ensures r.added.None? ==> r.input == input
  {
    TrimEmptyIff(input);
    TrimIsTrimmed(input);
    if Trim(input) != [] then Submit(Some(Trim(input)), []) else Submit(None, input)
  }

  /** Submitting again right after a successful add does nothing. */
  lemma ResubmitAfterAddIsNoop(input: string)
    requires HandleSubmit(input).added.Some?
    ensures HandleSubmit(HandleSubmit(input).input) == Submit(None, [])
  {
  }

  /** A value typed without surrounding whitespace is added verbatim. */
  lemma TrimmedInputAddedVerbatim(input: string)
    requires input != [] && IsTrimmed(input)
    ensures HandleSubmit(input).added == Some(input)
  {
    TrimOfTrimmed(input);
  }
}
