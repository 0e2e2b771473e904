/** The review form component (frontend/src/components/ReviewForm.tsx):
    its local state `review` and `validationError`, the submit handler that
    validates before calling the parent, the effect that clears the error
    on every edit, and the two expressions that decide what is shown and
    whether the submit button is enabled. The parent's props `loading` and
    `error` are parameters; the parent's callbacks are recorded as calls. */
module ReviewForm {
  import opened Text
  import C = ClientValidation
  import S = ServerValidation
  import Consistency

  datatype Option<T> = None | Some(value: T)

  /** A call the form makes into its parent: `clearResponse()` or
      `onSubmit(review)`. */
  datatype Call = ClearResponse | Submit(review: string)

  /** JavaScript truthiness of a `string | null`: neither null nor "". */
  predicate Truthy(s: Option<string>) {
    s.Some? && s.value != []
  }

  /** `validationError || error`, rendered only when truthy. */
  function ShownError(validationError: Option<string>, error: Option<string>): (shown: Option<string>)
    ensures shown.Some? <==> Truthy(validationError) || Truthy(error)
    ensures shown.Some? ==> shown.value != [] && (shown == validationError || shown == error)
    ensures Truthy(validationError) ==> shown == validationError
  {
    if Truthy(validationError) then validationError
    else if Truthy(error) then error
    else None
  }

  /** `loading || !review.trim()`. */
  function SubmitDisabled(loading: bool, review: string): (disabled: bool)
    ensures disabled <==> loading || AllWhitespace(review)
  {
    loading || Trim(review) == []
  }

  /** Every `onSubmit` call so far carried a review the validator accepts. */
  ghost predicate SubmissionsValid(calls: seq<Call>) {
    forall i :: 0 <= i < |calls| && calls[i].Submit? ==> C.ValidateReview(calls[i].review) == C.Valid
  }

  class Form {
    var review: string
    var validationError: Option<string>
    /** The parent callbacks invoked so far, oldest first. */
    var calls: seq<Call>

    /** The error held is always one of the validator's messages, and the
        parent is only ever asked to submit reviews that pass validation. */
    ghost predicate Valid()
      reads this
    {
      (validationError.Some? ==> C.IsRejectionMessage(validationError.value))
      && SubmissionsValid(calls)
    }

    /** Mounting: an empty review, no error, no calls yet. */
    constructor ()
      ensures Valid()
      ensures review == [] && validationError == None && calls == []
    {
      review := [];
      validationError := None;
      calls := [];
    }

    /** The text area's `onChange` followed by the effect on `[review]`.
        The text area is disabled while loading, so an edit then has no
        effect; otherwise the review takes the new value, and the error is
        cleared when the value actually changed (the effect does not run
        for an unchanged value). */
    method Edit(text: string, loading: bool)
      requires Valid()
      modifies this
      ensures Valid()
      ensures calls == old(calls)
      ensures loading ==> review == old(review) && validationError == old(validationError)
      ensures !loading ==> review == text
      ensures !loading && text != old(review) ==> validationError == None
      ensures !loading && text == old(review) ==> validationError == old(validationError)
      ensures !loading && text != old(review) ==>
        forall error :: Shown(error) == (if Truthy(error) then error else None)
    {
      if loading {
        return;
      }
      if text != review {
        review := text;
        validationError := None;
      }
    }

    /** `handleSubmit`: an invalid review records its message and calls
        `clearResponse()`; a valid one clears the error and calls
        `onSubmit(review)` with the review as typed, untrimmed. */
    method HandleSubmit()
      requires Valid()
      modifies this
      ensures Valid()
      ensures review == old(review)
      ensures C.ValidateReview(review).Invalid? ==>
        validationError == Some(C.ValidateReview(review).message)
        && calls == old(calls) + [ClearResponse]
      ensures C.ValidateReview(review) == C.Valid ==>
        validationError == None && calls == old(calls) + [Submit(review)]
      ensures C.ValidateReview(review).Invalid? ==>
        forall error :: Shown(error) == Some(C.ValidateReview(review).message)
      ensures C.ValidateReview(review) == C.Valid ==>
        forall error :: Shown(error) == (if Truthy(error) then error else None)
    {
      var result := C.ValidateReview(review);
      if result.Invalid? {
        validationError := Some(result.message);
        calls := calls + [ClearResponse];
        return;
      }
      validationError := None;
      calls := calls + [Submit(review)];
    }

    /** Pressing the submit button, which is disabled while loading or
        while the review is blank. */
    method PressSubmit(loading: bool)
      requires Valid()
      modifies this
      ensures Valid()
      ensures review == old(review)
      ensures SubmitDisabled(loading, old(review)) ==>
        validationError == old(validationError) && calls == old(calls)
      ensures !SubmitDisabled(loading, old(review)) && C.ValidateReview(review).Invalid? ==>
        validationError == Some(C.ValidateReview(review).message)
        && calls == old(calls) + [ClearResponse]
      ensures !SubmitDisabled(loading, old(review)) && C.ValidateReview(review) == C.Valid ==>
        validationError == None && calls == old(calls) + [Submit(review)]
    {
      if SubmitDisabled(loading, review) {
        return;
      }
      HandleSubmit();
    }

    /** The message the form displays, given the parent's `error`: after a
        rejected submit it is the validator's message whatever the parent
        reports, and after a clearing edit or an accepted submit it is the
        parent's error alone. */
    function Shown(error: Option<string>): Option<string>
      reads this
    {
      ShownError(validationError, error)
    }
  }

  /** With the button enabled, a submit never reports an empty review. */
  lemma EnabledSubmitIsNotEmpty(loading: bool, review: string)
    requires !SubmitDisabled(loading, review)
    ensures !loading
    ensures C.ValidateReview(review) != C.Invalid(C.EmptyMessage)
  {
    C.EmptyRule(review);
  }

  /** Whatever the form hands to `onSubmit`, the server's validator
      accepts, trimmed. */
  lemma SubmissionsPassServer(calls: seq<Call>, i: nat)
    requires SubmissionsValid(calls)
    requires i < |calls| && calls[i].Submit?
    ensures S.ValidateText(calls[i].review) == S.Accepted(Trim(calls[i].review))
  {
    Consistency.ClientAcceptsImpliesServerAccepts(calls[i].review);
  }
}
