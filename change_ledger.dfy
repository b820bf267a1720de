/**
 * The per-object change ledger of ModelWrapper as pure functions: the live
 * property values of the wrapped model and _originalValues, the map from each
 * dirty property to its value before the first dirtying write.
 */
module ChangeLedger {

  /** A model's property values and the wrapper's ledger of original values. */
  datatype LedgerState<V> = LedgerState(values: map<string, V>, ledger: map<string, V>)

  /** The ledger's invariant: every entry names a property and differs from its live value. */
  predicate Consistent<V(==)>(s: LedgerState<V>)
  {
    forall p :: p in s.ledger ==> p in s.values && s.ledger[p] != s.values[p]
  }

  /** GetIsChanged(p): p is dirty. */
  function GetIsChanged<V(==)>(s: LedgerState<V>, p: string): (r: bool)
    ensures Consistent(s) ==> (r <==> p in s.ledger && p in s.values && s.ledger[p] != s.values[p])
  {
    p in s.ledger
  }

  /** GetOriginalValue(p): the recorded value when p is dirty, the live value otherwise. */
  function GetOriginalValue<V(==)>(s: LedgerState<V>, p: string): (r: V)
    requires p in s.values
    ensures Consistent(s) ==> (r != s.values[p] <==> GetIsChanged(s, p))
  {
    if p in s.ledger then s.ledger[p] else s.values[p]
  }

  /**
   * UpdateOriginalValue (called only when current != newValue): records the
   * pre-write value on the first dirtying write and drops the entry when the
   * recorded value is written back.
   */
  function UpdateOriginalValue<V(==)>(ledger: map<string, V>, p: string, current: V, newValue: V): (r: map<string, V>)
    requires current != newValue
    ensures p in r <==> newValue != (if p in ledger then ledger[p] else current)
    ensures p in r ==> r[p] == (if p in ledger then ledger[p] else current)
    ensures forall q :: q != p ==> (q in r <==> q in ledger)
    ensures forall q :: q != p && q in ledger ==> r[q] == ledger[q]
  {
    if p !in ledger then ledger[p := current]
    else if ledger[p] == newValue then ledger - {p}
    else ledger
  }

  /** SetValue(p, v): nothing happens when v is the live value; otherwise the ledger is updated and v written. */
  function SetValue<V(==)>(s: LedgerState<V>, p: string, v: V): (r: LedgerState<V>)
    requires p in s.values
    ensures r.values.Keys == s.values.Keys && r.values[p] == v
    ensures forall q :: q in s.values && q != p ==> r.values[q] == s.values[q]
    ensures Consistent(s) ==> Consistent(r)
  {
    if s.values[p] == v then s
    else LedgerState(s.values[p := v], UpdateOriginalValue(s.ledger, p, s.values[p], v))
  }

  /** AcceptChanges: the ledger is emptied, the values stay. */
  function AcceptChanges<V>(s: LedgerState<V>): (r: LedgerState<V>)
    ensures r.values == s.values && r.ledger == map[]
  {
    LedgerState(s.values, map[])
  }

  /** RejectChanges: every recorded value is written straight back, then the ledger is emptied. */
  function RejectChanges<V>(s: LedgerState<V>): (r: LedgerState<V>)
    ensures r.ledger == map[]
    ensures Consistent(s) ==> r.values.Keys == s.values.Keys
    ensures forall p :: p in s.values ==> p in r.values && r.values[p] == GetOriginalValue(s, p)
  {
    LedgerState(s.values + s.ledger, map[])
  }

  /** The ledger has an entry exactly when some property differs from its value as of the last commit. */
  lemma LedgerIffSomeDiffers<V>(s: LedgerState<V>)
    ensures Consistent(s) ==> (|s.ledger| > 0 <==> exists p :: p in s.values && s.values[p] != GetOriginalValue(s, p))
  {
    if Consistent(s) && |s.ledger| > 0 {
      var p :| p in s.ledger;
      assert s.values[p] != GetOriginalValue(s, p);
    }
  }

  /** The first dirtying write records the pre-write value. */
  lemma FirstWriteRecords<V>(s: LedgerState<V>, p: string, v: V)
    requires p in s.values && !GetIsChanged(s, p) && v != s.values[p]
    ensures GetIsChanged(SetValue(s, p, v), p)
    ensures GetOriginalValue(SetValue(s, p, v), p) == s.values[p]
  {
  }

  /** A later write to a dirty property keeps the value recorded first (unless it writes that value back). */
  lemma LaterWriteKeepsOriginal<V>(s: LedgerState<V>, p: string, v: V)
    requires Consistent(s) && p in s.values && GetIsChanged(s, p) && v != s.ledger[p]
    ensures GetIsChanged(SetValue(s, p, v), p)
    ensures SetValue(s, p, v).ledger[p] == s.ledger[p]
  {
  }

  /** Writing the live value again changes nothing. */
  lemma SameValueNoOp<V>(s: LedgerState<V>, p: string)
    requires p in s.values
    ensures SetValue(s, p, s.values[p]) == s
  {
  }

  /** A write never changes any property's value as of the last commit. */
  lemma SetValueKeepsOriginals<V>(s: LedgerState<V>, p: string, v: V, q: string)
    requires Consistent(s) && p in s.values && q in s.values
    ensures GetOriginalValue(SetValue(s, p, v), q) == GetOriginalValue(s, q)
  {
  }

  /** Hence a write followed by RejectChanges lands where RejectChanges alone would. */
  lemma SetThenRejectSameAsReject<V>(s: LedgerState<V>, p: string, v: V)
    requires Consistent(s) && p in s.values
    ensures RejectChanges(SetValue(s, p, v)) == RejectChanges(s)
  {
    var t := SetValue(s, p, v);
    assert RejectChanges(t).values.Keys == RejectChanges(s).values.Keys;
    forall q | q in s.values
      ensures RejectChanges(t).values[q] == RejectChanges(s).values[q]
    {
      SetValueKeepsOriginals(s, p, v, q);
    }
  }

  /** set(p, v); reject on a clean object restores every value, p's included. */
  lemma SetThenRejectRestores<V>(s: LedgerState<V>, p: string, v: V)
    requires p in s.values && s.ledger == map[]
    ensures RejectChanges(SetValue(s, p, v)).values == s.values
    ensures RejectChanges(SetValue(s, p, v)).values[p] == s.values[p]
  {
    SetThenRejectSameAsReject(s, p, v);
    assert s.values + s.ledger == s.values;
  }

  /**
   * set(p, v1); set(p, original): p is clean again with its original value,
   * the other entries are as they were, so a ledger without p is restored.
   */
  lemma EditThenWriteBackClears<V>(s: LedgerState<V>, p: string, v1: V)
    requires Consistent(s) && p in s.values
    ensures var t := SetValue(SetValue(s, p, v1), p, GetOriginalValue(s, p));
      && t.ledger == s.ledger - {p}
      && t.values == s.values[p := GetOriginalValue(s, p)]
      && (!GetIsChanged(s, p) ==> t == s)
  {
    var o := GetOriginalValue(s, p);
    var t := SetValue(SetValue(s, p, v1), p, o);
    assert t.ledger == s.ledger - {p};
    if !GetIsChanged(s, p) {
      assert s.ledger - {p} == s.ledger;
      assert s.values[p := o] == s.values;
    }
  }

  /** After AcceptChanges nothing is dirty, and accepting again changes nothing. */
  lemma AcceptIdempotent<V>(s: LedgerState<V>)
    ensures AcceptChanges(AcceptChanges(s)) == AcceptChanges(s)
    ensures forall p :: !GetIsChanged(AcceptChanges(s), p)
  {
  }
}
