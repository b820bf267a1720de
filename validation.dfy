/**
 * The error grouping of ModelWrapper.Validate: the validation results the
 * model's rules report, grouped into one duplicate-free message list per
 * member name.
 */
module Validation {
  import opened Common
  import opened ErrorInfo

  /** A validation result: the names of the members it concerns and its message. */
  datatype ValidationResult = ValidationResult(memberNames: seq<string>, message: string)

  /** Every member name some result mentions, result by result. */
  function MemberNames(results: seq<ValidationResult>): (r: seq<string>)
    ensures forall p :: p in r <==> exists i :: 0 <= i < |results| && p in results[i].memberNames
  {
    if results == [] then []
    else
      var rest := MemberNames(results[1..]);
      assert forall i :: 1 <= i < |results| ==> results[i] == results[1..][i - 1];
      results[0].memberNames + rest
  }

  /** The messages of the results that name member p, in result order. */
  function MessagesNaming(results: seq<ValidationResult>, p: string): (r: seq<string>)
    ensures forall e :: e in r <==> exists i :: 0 <= i < |results| && p in results[i].memberNames && results[i].message == e
  {
    if results == [] then []
    else
      var rest := MessagesNaming(results[1..], p);
      assert forall i :: 1 <= i < |results| ==> results[i] == results[1..][i - 1];
      (if p in results[0].memberNames then [results[0].message] else []) + rest
  }

  /**
   * The error map Validate builds: a key for every member name some result
   * mentions and no other, each mapped to the distinct messages of the
   * results naming it. The map is well formed.
   */
  function GroupErrors(results: seq<ValidationResult>): (r: ErrorMap)
    ensures forall p :: p in r <==> exists i :: 0 <= i < |results| && p in results[i].memberNames
    ensures forall p, e :: p in r ==>
      (e in r[p] <==> exists i :: 0 <= i < |results| && p in results[i].memberNames && results[i].message == e)
    ensures forall p :: p in r ==> NoDup(r[p])
    ensures WellFormed(r)
  {
    var names := MemberNames(results);
    var m := map p | p in names :: Distinct(MessagesNaming(results, p));
    forall p, e | p in m
      ensures e in m[p] <==> e in MessagesNaming(results, p)
    {
      DistinctMember(MessagesNaming(results, p), e);
    }
    forall p | p in m
      ensures m[p] != []
    {
      var i :| 0 <= i < |results| && p in results[i].memberNames;
      assert results[i].message in MessagesNaming(results, p);
    }
    m
  }

  /** A map with GroupErrors' keys and, under each, the distinct messages naming it, is GroupErrors. */
  lemma GroupErrorsByKeys(results: seq<ValidationResult>, m: ErrorMap)
    requires forall p :: p in m <==> p in MemberNames(results)
    requires forall p :: p in m ==> m[p] == Distinct(MessagesNaming(results, p))
    ensures m == GroupErrors(results)
  {
  }

  /** Validate leaves no error exactly when no result names a member. */
  lemma NoErrorsIffNoNamedResult(results: seq<ValidationResult>)
    ensures GroupErrors(results) == map[] <==> forall i :: 0 <= i < |results| ==> results[i].memberNames == []
  {
    if i :| 0 <= i < |results| && results[i].memberNames != [] {
      assert results[i].memberNames[0] in GroupErrors(results);
    }
  }
}
