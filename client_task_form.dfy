/** The client's task form (`TaskForm`): two text fields and an error line;
    submitting checks the fields in order and hands them to `onSubmit`. */
module ClientTaskForm {
  import opened Wrappers
  import opened Strings
  import opened Models

  const TitleRequiredMessage := "Title is required"
  const DescriptionRequiredMessage := "Description is required"
  const SubmitFailedMessage := "Failed to create task. Please try again."

  /** The arguments `onSubmit` was called with. */
  datatype Submission = Submission(title: string, description: string)

  /** `!value.trim()`: the field is empty after ECMAScript trimming. */
  predicate IsMissing(value: string)
  {
    Trim(EcmaScript, value) == ""
  }

  class TaskForm {
    var title: string
    var description: string
    var error: string

    /** The inputs' `maxLength`: 255 for the title, 2000 for the description. */
    ghost predicate Valid()
      reads this
    {
      |title| <= MaxTitleLength && |description| <= MaxDescriptionLength
    }

    constructor ()
      ensures Valid() && title == "" && description == "" && error == ""
    {
      title, description, error := "", "", "";
    }

    /** The title input's `onChange`; the input never delivers more than its
        `maxLength`. */
    method ChangeTitle(value: string)
      requires |value| <= MaxTitleLength
      modifies this
      ensures old(Valid()) ==> Valid()
      ensures title == value && description == old(description) && error == old(error)
    {
      title := value;
    }

    /** The description textarea's `onChange`. */
    method ChangeDescription(value: string)
      requires |value| <= MaxDescriptionLength
      modifies this
      ensures old(Valid()) ==> Valid()
      ensures description == value && title == old(title) && error == old(error)
    {
      description := value;
    }

    /** `handleSubmit`, with `onSubmitSucceeds` whether the `onSubmit`
        promise resolves. The error is cleared first; a missing title, then
        a missing description, is reported without submitting; otherwise
        the fields are passed on untrimmed, and cleared if that succeeds. */
    method HandleSubmit(onSubmitSucceeds: bool) returns (submitted: Option<Submission>)
      modifies this
      ensures old(Valid()) ==> Valid()
      ensures IsMissing(old(title)) ==>
                && submitted.None? && error == TitleRequiredMessage
                && title == old(title) && description == old(description)
      ensures !IsMissing(old(title)) && IsMissing(old(description)) ==>
                && submitted.None? && error == DescriptionRequiredMessage
                && title == old(title) && description == old(description)
      ensures submitted.Some? <==> !IsMissing(old(title)) && !IsMissing(old(description))
      ensures submitted.Some? ==> submitted.value == Submission(old(title), old(description))
      ensures submitted.Some? && onSubmitSucceeds ==> title == "" && description == "" && error == ""
      ensures submitted.Some? && !onSubmitSucceeds ==>
                && title == old(title) && description == old(description)
                && error == SubmitFailedMessage
    {
      error := "";
      if IsMissing(title) {
        error := TitleRequiredMessage;
        return None;
      }
      if IsMissing(description) {
        error := DescriptionRequiredMessage;
        return None;
      }
      submitted := Some(Submission(title, description));
      if onSubmitSucceeds {
        title := "";
        description := "";
      } else {
        error := SubmitFailedMessage;
      }
    }
  }

  /** The form's check agrees with the service's `IsNullOrWhiteSpace` on
      every field free of U+0085 and U+FEFF; on "\U{0085}" the form lets
      through what the service rejects, on "\U{FEFF}" it rejects what the
      service would accept. */
  lemma FormCheckMirrorsService(value: string)
    ensures (forall i :: 0 <= i < |value| ==> value[i] != '\U{0085}' && value[i] != '\U{FEFF}') ==>
              (IsMissing(value) <==> IsNullOrWhiteSpace(Some(value)))
    ensures !IsMissing("\U{0085}") && IsNullOrWhiteSpace(Some("\U{0085}"))
    ensures IsMissing("\U{FEFF}") && !IsNullOrWhiteSpace(Some("\U{FEFF}"))
  {
    if forall i :: 0 <= i < |value| ==> value[i] != '\U{0085}' && value[i] != '\U{FEFF}' {
      BlankAgreesWithoutNelAndBom(value);
    }
    BlankDisagreesOnNelAndBom();
  }
}
