/** The form validator the handlers and the data package fill in: a map
    from field name to the message of that field's first failed check.
    The validator package itself is not part of this model; this is the
    behaviour the core relies on (a failed check marks its field, a field
    keeps the first message recorded for it, and a form is valid when no
    field is marked). */
module Validation {
  import Strings
  import opened Errors

  class Validator {
    var errors: map<string, string>

    constructor ()
      ensures errors == map[]
    {
      errors := map[];
    }

    /** No check has failed. */
    predicate Valid()
      reads this
    {
      errors == map[]
    }

    /** Marks `key` with `message` unless it is marked already. */
    method AddError(key: string, message: string)
      modifies this
      ensures key in errors
      ensures errors == if key in old(errors) then old(errors) else old(errors)[key := message]
    {
      if key !in errors {
        errors := errors[key := message];
      }
    }

    /** Records `message` for `key` when `ok` is false. */
    method Check(ok: bool, key: string, message: string)
      modifies this
      ensures errors.Keys == if ok then old(errors).Keys else old(errors).Keys + {key}
      ensures errors == if ok || key in old(errors) then old(errors) else old(errors)[key := message]
    {
      if !ok {
        AddError(key, message);
      }
    }
  }

  /** The errors after a field's checks have run, `first` being the
      message of the first check that failed (None when all passed): the
      field is marked with that message unless it was marked already, and
      every other entry stays as it was. */
  function Record(errors: map<string, string>, key: string, first: Option<string>): (r: map<string, string>)
    ensures r.Keys == errors.Keys + (if first.Some? then {key} else {})
    ensures forall k :: k in errors ==> r[k] == errors[k]
    ensures key !in errors && first.Some? ==> r[key] == first.value
  {
    if first.None? || key in errors then errors else errors[key := first.value]
  }

  /** A value counts as provided when something other than white space is
      left after trimming. */
  predicate NotBlank(value: string) {
    Strings.TrimSpace(value) != ""
  }

}
