/**
 * The error aggregator (NotifyDataErrorInfoBase): a dictionary from property
 * name to the list of that property's validation messages.
 */
module ErrorInfo {
  import opened Common

  type ErrorMap = map<string, seq<string>>

  /** The aggregator's invariant: only properties with errors are keys, and no message is listed twice. */
  predicate WellFormed(errors: ErrorMap)
  {
    forall p :: p in errors ==> errors[p] != [] && NoDup(errors[p])
  }

  /** The map after AddError(p, e): e joins p's list unless it is already there. */
  function AddErrorTo(errors: ErrorMap, p: string, e: string): (r: ErrorMap)
    ensures p in r && e in r[p]
    ensures forall q :: q != p ==> (q in r <==> q in errors)
    ensures forall q :: q != p && q in errors ==> r[q] == errors[q]
    ensures p in errors && e in errors[p] ==> r == errors
    ensures !(p in errors && e in errors[p]) ==> r[p] == (if p in errors then errors[p] else []) + [e]
    ensures WellFormed(errors) ==> WellFormed(r)
  {
    var list := if p in errors then errors[p] else [];
    if e in list then errors else errors[p := list + [e]]
  }

  /** The map after ClearErrors(p): p's entry is gone, every other entry is as it was. */
  function ClearErrorsOf(errors: ErrorMap, p: string): (r: ErrorMap)
    ensures p !in r
    ensures forall q :: q != p ==> (q in r <==> q in errors)
    ensures forall q :: q != p && q in errors ==> r[q] == errors[q]
    ensures p !in errors ==> r == errors
    ensures WellFormed(errors) ==> WellFormed(r)
  {
    errors - {p}
  }

  /** Adding the same message twice leaves the map as adding it once. */
  lemma AddErrorIdempotent(errors: ErrorMap, p: string, e: string)
    ensures AddErrorTo(AddErrorTo(errors, p, e), p, e) == AddErrorTo(errors, p, e)
  {
  }

  /** The notification of AddError is raised exactly when the map changes. */
  lemma AddErrorChangesIffNew(errors: ErrorMap, p: string, e: string)
    ensures AddErrorTo(errors, p, e) != errors <==> !(p in errors && e in errors[p])
  {
    if !(p in errors && e in errors[p]) {
      assert e in AddErrorTo(errors, p, e)[p];
    }
  }

  /** On a well-formed map, having errors means some property has some message. */
  lemma HasErrorsIffSomeMessage(errors: ErrorMap)
    ensures WellFormed(errors) ==> (|errors| > 0 <==> exists p, e :: p in errors && e in errors[p])
  {
    if WellFormed(errors) && |errors| > 0 {
      var p :| p in errors;
      assert errors[p][0] in errors[p];
    }
  }

  class NotifyDataErrorInfo {
    /** _errorsByPropertyName */
    var errors: ErrorMap

    ghost predicate Valid()
      reads this
    {
      WellFormed(errors)
    }

    constructor ()
      ensures Valid() && errors == map[]
    {
      errors := map[];
    }

    /** HasErrors: the dictionary has a key; on a valid map, exactly when some property has some message. */
    function HasErrors(): (r: bool)
      reads this
      ensures Valid() ==> (r <==> exists p, e :: p in errors && e in errors[p])
    {
      HasErrorsIffSomeMessage(errors);
      |errors| > 0
    }

    /** GetErrors: the stored list when p is a key, none (null) otherwise. */
    function GetErrors(p: string): (r: Option<seq<string>>)
      reads this
      ensures r.Some? <==> p in errors
      ensures r.Some? ==> r.value == errors[p]
      ensures Valid() && r.Some? ==> r.value != [] && NoDup(r.value)
    {
      if p in errors then Some(errors[p]) else None
    }

    /**
     * AddError: creates p's list if needed and appends e to it if absent;
     * raised tells whether ErrorsChanged was raised.
     */
    method AddError(p: string, e: string) returns (raised: bool)
      requires Valid()
      modifies this
      ensures Valid()
      ensures errors == AddErrorTo(old(errors), p, e)
      ensures raised <==> errors != old(errors)
    {
      ghost var before := errors;
      if p !in errors {
        errors := errors[p := []];
      }
      if e !in errors[p] {
        errors := errors[p := errors[p] + [e]];
        raised := true;
      } else {
        raised := false;
      }
      AddErrorChangesIffNew(before, p, e);
    }

    /** ClearErrors: removes p's entry; raised tells whether ErrorsChanged was raised. */
    method ClearErrors(p: string) returns (raised: bool)
      requires Valid()
      modifies this
      ensures Valid()
      ensures errors == ClearErrorsOf(old(errors), p)
      ensures raised <==> p in old(errors)
      ensures raised <==> errors != old(errors)
    {
      if p in errors {
        errors := errors - {p};
        raised := true;
      } else {
        raised := false;
      }
    }
  }
}
