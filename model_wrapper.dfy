/**
 * ModelWrapper<T>: wraps one model object, records the first pre-edit value
 * of every property it changes, commits or rolls back those changes together
 * with its registered tracked children and collections, and re-validates the
 * model after every change. Reflection over the model's properties becomes a
 * map from property name to value; the DataAnnotations rule set becomes a
 * function from the property values to validation results.
 */
module ModelWrapping {
  import opened Common
  import opened ErrorInfo
  import opened Tracking
  import opened ChangeTracking
  import opened Validation
  import Ledger = ChangeLedger

  /** The wrapped model object: its public properties by name. */
  class Model<V> {
    var values: map<string, V>

    constructor (values: map<string, V>)
      ensures this.values == values
    {
      this.values := values;
    }
  }

  /** The fields of a collection that its RejectChanges reads, taken as a value. */
  datatype CollectionView = CollectionView(
    items: seq<Trackable>, baseline: seq<Trackable>, added: seq<Trackable>, removed: seq<Trackable>,
    modified: seq<Trackable>, registered: bool, modelList: seq<ModelRef>)

  ghost function ViewOf(c: TrackingCollection): CollectionView
    reads c
  {
    CollectionView(c.items, c.baseline, c.added, c.removed, c.modified, c.registered, c.modelList)
  }

  /**
   * What a collection's RejectChanges leaves, as a relation between the
   * collection's state before (v) and after (w): the restored state with the
   * same baseline and registration. After additions or removals every live item
   * is in clean and a registered collection's model list is the items' models;
   * without them the live list and the model list are kept and every item v
   * listed as modified is in clean.
   */
  predicate RolledBack(w: CollectionView, v: CollectionView, clean: set<Trackable>)
  {
    && w.added == [] && w.removed == [] && w.modified == [] && SameMembers(w.items, w.baseline)
    && w.baseline == v.baseline && w.registered == v.registered
    && (v.added != [] || v.removed != [] ==>
         AllIn(w.items, clean) && (w.registered ==> w.modelList == ModelsOf(w.items)))
    && (v.added == [] && v.removed == [] ==>
         w.items == v.items && w.modelList == v.modelList && AllIn(v.modified, clean))
  }

  /** A RolledBack relation still holds when more items count as clean. */
  lemma RolledBackGrows(w: CollectionView, v: CollectionView, clean: set<Trackable>, more: set<Trackable>)
    requires RolledBack(w, v, clean) && clean <= more
    ensures RolledBack(w, v, more)
  {
  }

  /** The views of a sequence of collections, in order. */
  ghost function ViewsOf(cs: seq<TrackingCollection>): (r: seq<CollectionView>)
    reads cs
    ensures |r| == |cs| && forall k :: 0 <= k < |cs| ==> r[k] == ViewOf(cs[k])
  {
    if cs == [] then [] else [ViewOf(cs[0])] + ViewsOf(cs[1..])
  }

  /** The items of s that are changed. */
  ghost function ChangedAmong(s: set<Trackable>): set<Trackable>
    reads s
  {
    set x | x in s && x.isChanged
  }

  /** ModelWrapper<T>: a model object with its change ledger, its errors and its tracked children and collections. */
  class ModelWrapper<V(==)> {
    const model: Model<V>
    /** Validator.TryValidateObject over the wrapper's properties. */
    const rules: map<string, V> -> seq<ValidationResult>
    /** The wrapper's own errors, as NotifyDataErrorInfoBase (its base class) keeps them. */
    const errorInfo: NotifyDataErrorInfo
    /** _originalValues */
    var originalValues: map<string, V>
    /** The tracked children RegisterComplex registered. */
    var children: seq<Trackable>
    /** The tracked collections RegisterCollection registered. */
    var collections: seq<TrackingCollection>

    /** The model's values together with the ledger. */
    function State(): (r: Ledger.LedgerState<V>)
      reads this, model
      ensures r.values == model.values && r.ledger == originalValues
    {
      Ledger.LedgerState(model.values, originalValues)
    }

    /** Every item a registered collection holds, has held as baseline or lists as modified. */
    ghost function CollectionElements(): set<Trackable>
      reads this`collections, collections
    {
      (set i, j | 0 <= i < |collections| && 0 <= j < |collections[i].items| :: collections[i].items[j])
      + (set i, j | 0 <= i < |collections| && 0 <= j < |collections[i].baseline| :: collections[i].baseline[j])
      + (set i, j | 0 <= i < |collections| && 0 <= j < |collections[i].modified| :: collections[i].modified[j])
    }

    /** The live, baseline and modified items of every collection are among CollectionElements. */
    lemma CollectionElementsHold()
      ensures forall i :: 0 <= i < |collections| ==>
        AllIn(collections[i].items, CollectionElements()) && AllIn(collections[i].baseline, CollectionElements())
        && AllIn(collections[i].modified, CollectionElements())
    {
    }

    /** Every registered collection keeps its own invariant. */
    ghost predicate CollectionsValid()
      reads this`collections, collections
    {
      forall i :: 0 <= i < |collections| ==> collections[i].Valid()
    }

    /** Every registered collection is in the state its AcceptChanges leaves. */
    ghost predicate CollectionsCommitted()
      reads this`collections, collections
    {
      forall i :: 0 <= i < |collections| ==> collections[i].Committed()
    }

    /** Every registered collection is in the state its RejectChanges leaves. */
    ghost predicate CollectionsRestored()
      reads this`collections, collections
    {
      forall i :: 0 <= i < |collections| ==> collections[i].Restored()
    }

    /** The live items of the registered collections. */
    ghost function CollectionItems(): (r: set<Trackable>)
      reads this`collections, collections
      ensures forall i, j :: 0 <= i < |collections| && 0 <= j < |collections[i].items| ==> collections[i].items[j] in r
    {
      set i, j | 0 <= i < |collections| && 0 <= j < |collections[i].items| :: collections[i].items[j]
    }

    /** Every tracked object: the children and the live items of the registered collections. */
    ghost function Tracked(): (r: set<Trackable>)
      reads this`children, this`collections, collections
      ensures forall i :: 0 <= i < |children| ==> children[i] in r
      ensures forall i, j :: 0 <= i < |collections| && 0 <= j < |collections[i].items| ==> collections[i].items[j] in r
    {
      CollectionItems() + set x | x in children
    }

    /**
     * The wrapper's invariant: the ledger is consistent with the model, the
     * error map is well formed, and every tracked object is registered once.
     */
    ghost predicate Valid()
      reads this, model, errorInfo, collections
    {
      && Ledger.Consistent(State())
      && errorInfo.Valid()
      && NoDup(children)
      && NoDup(collections)
      && CollectionsValid()
    }

    /** The error map is the grouping of what the rules report on the current values. */
    ghost predicate Validated()
      reads model, errorInfo
    {
      errorInfo.errors == GroupErrors(rules(model.values))
    }

    /**
     * IsChanged: a property is dirty or some tracked object reports a change.
     * While the ledger is consistent, a property is dirty exactly when its
     * live value differs from its value as of the last commit.
     */
    function IsChanged(): (r: bool)
      reads this, model, children, collections
      ensures Ledger.Consistent(State()) ==>
        (r <==>
          || (exists p :: p in model.values && model.values[p] != Ledger.GetOriginalValue(State(), p))
          || (exists i :: 0 <= i < |children| && children[i].isChanged)
          || (exists i :: 0 <= i < |collections| && collections[i].IsChanged()))
    {
      Ledger.LedgerIffSomeDiffers(State());
      || |originalValues| > 0
      || (exists i :: 0 <= i < |children| && children[i].isChanged)
      || (exists i :: 0 <= i < |collections| && collections[i].IsChanged())
    }

    /**
     * IsValid: the wrapper has no error and every tracked object is valid.
     * Once validated, the wrapper has no error exactly when no rule result
     * names a member.
     */
    function IsValid(): (r: bool)
      reads model, errorInfo, this`children, this`collections, children, collections, CollectionItems()
      ensures Validated() ==>
        (r <==>
          && (forall i :: 0 <= i < |rules(model.values)| ==> rules(model.values)[i].memberNames == [])
          && (forall i :: 0 <= i < |children| ==> children[i].isValid)
          && (forall i, j :: 0 <= i < |collections| && 0 <= j < |collections[i].items| ==> collections[i].items[j].isValid))
    {
      NoErrorsIffNoNamedResult(rules(model.values));
      !errorInfo.HasErrors() && TrackedValid()
    }

    /** Every tracked object, child or collection item, is valid. */
    predicate TrackedValid()
      reads this`children, this`collections, children, collections, CollectionItems()
    {
      && (forall i :: 0 <= i < |children| ==> children[i].isValid)
      && (forall i, j :: 0 <= i < |collections| && 0 <= j < |collections[i].items| ==> collections[i].items[j].isValid)
    }

    /**
     * The constructor for a non-null model: nothing is dirty or registered,
     * and the model has been validated.
     */
    constructor (model: Model<V>, rules: map<string, V> -> seq<ValidationResult>)
      ensures Valid() && Validated()
      ensures this.model == model && this.rules == rules
      ensures originalValues == map[] && children == [] && collections == []
      ensures !IsChanged()
      ensures fresh(errorInfo)
    {
      this.model := model;
      this.rules := rules;
      var info := new NotifyDataErrorInfo();
      errorInfo := info;
      originalValues := map[];
      children := [];
      collections := [];
      new;
      Validate();
    }

    /**
     * The constructor's null check: a null model throws, and no wrapper is
     * produced; any other model is wrapped.
     */
    static method Wrap(model: Model?<V>, rules: map<string, V> -> seq<ValidationResult>) returns (r: Result<ModelWrapper<V>, string>)
      ensures r.Failure? <==> model == null
      ensures r.Failure? ==> r.error == "model"
      ensures r.Success? ==> fresh(r.value) && r.value.model == model && r.value.rules == rules
      ensures r.Success? ==> r.value.Valid() && r.value.Validated() && !r.value.IsChanged()
    {
      if model == null {
        return Failure("model");
      }
      var w := new ModelWrapper(model, rules);
      r := Success(w);
    }

    /** GetValue(p): the model's value of p; none when the model has no property p (GetProperty yields null). */
    function GetValue(p: string): (r: Option<V>)
      reads this, model
      ensures r.Some? <==> p in model.values
      ensures r.Some? ==> r.value == model.values[p]
    {
      if p in model.values then Some(model.values[p]) else None
    }

    /** GetIsChanged(p): p has an entry in the ledger. */
    function GetIsChanged(p: string): (r: bool)
      reads this, model
      ensures r <==> Ledger.GetIsChanged(State(), p)
      ensures Valid() && p in model.values ==> (r <==> model.values[p] != Ledger.GetOriginalValue(State(), p))
    {
      p in originalValues
    }

    /** GetOriginalValue(p): the recorded value when p is dirty, the live value otherwise. */
    function GetOriginalValue(p: string): (r: Option<V>)
      reads this, model
      ensures p in originalValues ==> r == Some(originalValues[p])
      ensures p !in originalValues ==> r == GetValue(p)
      ensures p in model.values ==> r == Some(Ledger.GetOriginalValue(State(), p))
    {
      if p in originalValues then Some(originalValues[p]) else GetValue(p)
    }

    /** UpdateOriginalValue: applies the ledger rule for a write of newValue over current. */
    method UpdateOriginalValue(current: V, newValue: V, p: string)
      requires current != newValue
      modifies this`originalValues
      ensures originalValues == Ledger.UpdateOriginalValue(old(originalValues), p, current, newValue)
    {
      if p !in originalValues {
        originalValues := originalValues[p := current];
      } else {
        if originalValues[p] == newValue {
          originalValues := originalValues - {p};
        }
      }
    }

    /**
     * SetValue(v, p): when v differs from the live value, updates the ledger,
     * writes v and re-validates; an equal value changes nothing. ok is false,
     * and nothing changes, when the model has no property p.
     */
    method SetValue(v: V, p: string) returns (ok: bool)
      requires Valid()
      modifies this`originalValues, model, errorInfo
      ensures Valid()
      ensures ok <==> p in old(model.values)
      ensures ok ==> State() == Ledger.SetValue(old(State()), p, v)
      ensures !ok ==> State() == old(State())
      ensures ok && v != old(model.values[p]) ==> Validated()
      ensures !ok || v == old(model.values[p]) ==> errorInfo.errors == old(errorInfo.errors)
    {
      if p !in model.values {
        return false;
      }
      ok := true;
      var current := model.values[p];
      if current != v {
        UpdateOriginalValue(current, v, p);
        model.values := model.values[p := v];
        Validate();
      }
    }

    /** Validate: clears every error, then stores, for each member name the results mention, its distinct messages. */
    method Validate()
      modifies errorInfo`errors
      ensures Validated() && errorInfo.Valid()
    {
      StoreErrors(errorInfo, rules(model.values));
    }

    /** The body of Validate once the rules have reported their results. */
    static method StoreErrors(info: NotifyDataErrorInfo, results: seq<ValidationResult>)
      modifies info`errors
      ensures info.errors == GroupErrors(results) && info.Valid()
    {
      info.errors := map[];
      if |results| > 0 {
        var names := Distinct(MemberNames(results));
        for i := 0 to |names|
          invariant forall p :: p in info.errors <==> p in names[..i]
          invariant forall p :: p in info.errors ==> info.errors[p] == Distinct(MessagesNaming(results, p))
        {
          PrefixSnoc(names, i);
          info.errors := info.errors[names[i] := Distinct(MessagesNaming(results, names[i]))];
        }
        PrefixAll(names);
        forall p
          ensures p in names <==> p in MemberNames(results)
        {
          DistinctMember(MemberNames(results), p);
        }
      }
      GroupErrorsByKeys(results, info.errors);
    }

    /** One step of the loop over the tracked objects in AcceptChanges: accepts one collection. */
    static method AcceptCollection(c: TrackingCollection)
      modifies c`added, c`removed, c`modified, c`baseline, c.items
      ensures c.Committed() && c.items == old(c.items)
      ensures forall x :: x in c.items ==> !x.isChanged && x.isValid == old(x.isValid)
    {
      c.AcceptChanges();
    }

    /** Every registered collection is committed and holds only clean items. */
    ghost predicate CollectionsAccepted()
      reads this`collections, collections, CollectionItems()
    {
      && CollectionsCommitted()
      && (forall i, j :: 0 <= i < |collections| && 0 <= j < |collections[i].items| ==> !collections[i].items[j].isChanged)
    }

    /**
     * The collection part of the loop over the tracked objects in
     * AcceptChanges; tracked holds every live item of a collection. No
     * tracked object's validity changes, and none becomes changed.
     */
    method AcceptCollections(ghost tracked: set<Trackable>)
      requires forall i, j :: 0 <= i < |collections| && 0 <= j < |collections[i].items| ==> collections[i].items[j] in tracked
      modifies collections`added, collections`removed, collections`modified, collections`baseline, tracked
      ensures CollectionsAccepted()
      ensures forall i :: 0 <= i < |collections| ==> collections[i].items == old(collections[i].items)
      ensures forall x :: x in tracked ==> x.isValid == old(x.isValid) && (old(!x.isChanged) ==> !x.isChanged)
    {
      for i := 0 to |collections|
        invariant forall k :: 0 <= k < i ==> collections[k].Committed()
        invariant forall k, j :: 0 <= k < i && 0 <= j < |collections[k].items| ==> !collections[k].items[j].isChanged
        invariant forall x :: x in tracked ==> x.isValid == old(x.isValid) && (old(!x.isChanged) ==> !x.isChanged)
      {
        AcceptCollection(collections[i]);
      }
    }

    /** A registered collection set that is committed is also valid. */
    lemma CommittedCollectionsValid()
      requires CollectionsCommitted()
      ensures CollectionsValid()
    {
      forall k | 0 <= k < |collections|
        ensures collections[k].Valid()
      {
        collections[k].CommittedIsValid();
      }
    }

    /**
     * The child part of the loop over the tracked objects in AcceptChanges;
     * tracked holds every child. No tracked object's validity changes, and
     * none becomes changed.
     */
    method AcceptChildren(ghost tracked: set<Trackable>)
      requires forall i :: 0 <= i < |children| ==> children[i] in tracked
      modifies children
      ensures forall i :: 0 <= i < |children| ==> !children[i].isChanged
      ensures forall x :: x in tracked ==> x.isValid == old(x.isValid) && (old(!x.isChanged) ==> !x.isChanged)
    {
      for i := 0 to |children|
        invariant forall k :: 0 <= k < i ==> !children[k].isChanged
        invariant forall x :: x in tracked ==> x.isValid == old(x.isValid) && (old(!x.isChanged) ==> !x.isChanged)
      {
        children[i].AcceptChanges();
      }
    }

    /** The state the loop over the tracked objects in AcceptChanges leaves: every tracked object clean and committed. */
    ghost predicate TrackedAccepted()
      reads this`children, this`collections, children, collections, CollectionItems()
    {
      && (forall i :: 0 <= i < |children| ==> !children[i].isChanged)
      && CollectionsAccepted()
    }

    /** The state AcceptChanges leaves: an empty ledger, and every tracked object clean and committed. */
    ghost predicate Accepted()
      reads this, children, collections, CollectionItems()
    {
      originalValues == map[] && TrackedAccepted()
    }

    /**
     * Since the call began, the registered objects, the collections' live
     * lists and the validity of every tracked object are as they were.
     */
    twostate predicate TrackedKept()
      reads this`children, this`collections, children, collections, CollectionItems()
    {
      && children == old(children)
      && collections == old(collections)
      && (forall i :: 0 <= i < |children| ==> children[i].isValid == old(children[i].isValid))
      && (forall i :: 0 <= i < |collections| ==> collections[i].items == old(collections[i].items))
      && (forall i :: 0 <= i < |collections| ==> collections[i].registered == old(collections[i].registered) && collections[i].modelList == old(collections[i].modelList))
      && (forall i, j :: 0 <= i < |collections| && 0 <= j < |collections[i].items| ==> collections[i].items[j].isValid == old(collections[i].items[j].isValid))
    }

    /** Since the call began, no field of a tracked object or a registered collection has changed. */
    twostate predicate TrackedUnchanged()
      reads this`children, this`collections, children, collections, CollectionItems()
    {
      && TrackedKept()
      && (forall i :: 0 <= i < |children| ==> children[i].isChanged == old(children[i].isChanged))
      && (forall i :: 0 <= i < |collections| ==>
            collections[i].Same(old(collections[i].items), old(collections[i].added), old(collections[i].removed), old(collections[i].modified), old(collections[i].modelList)))
      && (forall i :: 0 <= i < |collections| ==>
            collections[i].baseline == old(collections[i].baseline) && collections[i].registered == old(collections[i].registered))
      && (forall i, j :: 0 <= i < |collections| && 0 <= j < |collections[i].items| ==> collections[i].items[j].isChanged == old(collections[i].items[j].isChanged))
    }

    /**
     * The steps of AcceptChanges together with the wrapper's invariant: the
     * ledger is empty and every value as it was, every tracked object is
     * committed and clean, every live list stays as it is, and no tracked
     * object's validity changes; on objects already in that state nothing
     * changes.
     */
    method AcceptTracked(ghost tracked: set<Trackable>)
      requires Valid()
      requires forall i :: 0 <= i < |children| ==> children[i] in tracked
      requires forall i, j :: 0 <= i < |collections| && 0 <= j < |collections[i].items| ==> collections[i].items[j] in tracked
      modifies this`originalValues, children, collections, tracked
      ensures Valid() && State() == Ledger.AcceptChanges(old(State()))
      ensures TrackedAccepted() && TrackedKept()
      ensures old(TrackedAccepted()) ==> TrackedUnchanged()
    {
      AcceptEach(tracked);
      CommittedCollectionsValid();
    }

    /** The steps of AcceptChanges: the ledger is emptied, then the collections are accepted, then the children. */
    method AcceptEach(ghost tracked: set<Trackable>)
      requires forall i :: 0 <= i < |children| ==> children[i] in tracked
      requires forall i, j :: 0 <= i < |collections| && 0 <= j < |collections[i].items| ==> collections[i].items[j] in tracked
      modifies this`originalValues, children, collections, tracked
      ensures originalValues == map[]
      ensures TrackedAccepted() && TrackedKept()
      ensures old(TrackedAccepted()) ==> TrackedUnchanged()
    {
      originalValues := map[];
      AcceptCollections(tracked);
      AcceptChildren(tracked);
      AcceptedKept(tracked);
    }

    /**
     * When the collections' live lists are as they were and no object of
     * tracked (every child and live item) has changed its validity or become
     * changed, the tracked objects are kept; if they were accepted before and
     * still are, nothing has changed.
     */
    twostate lemma AcceptedKept(tracked: set<Trackable>)
      requires children == old(children) && collections == old(collections)
      requires forall i :: 0 <= i < |children| ==> children[i] in tracked
      requires forall i, j :: 0 <= i < |collections| && 0 <= j < |collections[i].items| ==> collections[i].items[j] in tracked
      requires forall i :: 0 <= i < |collections| ==> collections[i].items == old(collections[i].items)
      requires forall i :: 0 <= i < |collections| ==> collections[i].registered == old(collections[i].registered) && collections[i].modelList == old(collections[i].modelList)
      requires forall x :: x in tracked ==> x.isValid == old(x.isValid) && (old(!x.isChanged) ==> !x.isChanged)
      ensures TrackedKept()
      ensures old(TrackedAccepted()) && TrackedAccepted() ==> TrackedUnchanged()
    {
    }

    /** When neither the error information nor any tracked object's validity has changed since the call began, neither has IsValid. */
    twostate lemma IsValidKept()
      requires TrackedKept() && unchanged(errorInfo)
      ensures IsValid() == old(IsValid())
    {
      assert errorInfo.HasErrors() == old(errorInfo.HasErrors());
      assert TrackedValid() == old(TrackedValid());
    }

    /**
     * AcceptChanges: empties the ledger, leaving every value as it is, then
     * accepts every tracked object. No live list and no validity changes, and
     * on a wrapper already in the state it leaves, nothing changes.
     */
    method AcceptChanges()
      requires Valid()
      modifies this`originalValues, collections, Tracked()
      ensures Valid() && Accepted()
      ensures State() == Ledger.AcceptChanges(old(State()))
      ensures TrackedKept()
      ensures IsValid() == old(IsValid())
      ensures !IsChanged()
      ensures old(Accepted()) ==> originalValues == old(originalValues) && TrackedUnchanged()
    {
      AcceptTracked(Tracked());
      IsValidKept();
      NothingChanged();
    }

    /** The first loop of RejectChanges: every recorded value is written straight into the model. */
    method WriteBack()
      requires Ledger.Consistent(State())
      modifies model
      ensures model.values == old(model.values) + originalValues
    {
      var pending := originalValues.Keys;
      while pending != {}
        invariant pending <= originalValues.Keys
        invariant model.values.Keys == old(model.values).Keys
        invariant forall q :: q in model.values ==>
          model.values[q] == if q in originalValues && q !in pending then originalValues[q] else old(model.values)[q]
        decreases pending
      {
        var p :| p in pending;
        model.values := model.values[p := originalValues[p]];
        pending := pending - {p};
      }
      assert model.values.Keys == (old(model.values) + originalValues).Keys;
    }

    /**
     * One step of the loop over the tracked objects in RejectChanges: rejects
     * collection i of cs. No other collection of cs changes, no item of
     * elements becomes changed, and done holds items of elements the reject
     * leaves clean; prior is a set of clean items that stays clean.
     */
    static method RejectCollection(cs: seq<TrackingCollection>, i: nat, c: TrackingCollection, ghost elements: set<Trackable>, ghost dirty: set<Trackable>, ghost prior: set<Trackable>)
      returns (ghost done: set<Trackable>)
      requires i < |cs| && cs[i] == c && NoDup(cs) && c.Valid()
      requires AllIn(c.baseline, elements) && AllIn(c.modified, elements)
      requires ChangedAmong(elements) <= dirty && prior !! ChangedAmong(elements)
      modifies c`items, c`added, c`removed, c`modified, c`modelList, c.baseline, c.modified
      ensures forall k :: 0 <= k < |cs| && k != i ==>
        ViewOf(cs[k]) == old(ViewOf(cs[k])) && cs[k].Valid() == old(cs[k].Valid()) && cs[k].Restored() == old(cs[k].Restored())
      ensures c.Restored() && RolledBack(ViewOf(c), old(ViewOf(c)), done)
      ensures old(c.InSync()) ==> AllIn(c.items, done)
      ensures ChangedAmong(elements) <= dirty && (prior + done) !! ChangedAmong(elements) && done <= elements
    {
      c.RejectChanges();
      done := set x | x in elements && !x.isChanged;
    }

    /** Every registered collection stands in the RolledBack relation to its view in views0. */
    ghost predicate RolledBackWith(views0: seq<CollectionView>, clean: set<Trackable>)
      reads this`collections, collections
    {
      |views0| == |collections| && forall i :: 0 <= i < |collections| ==> RolledBack(ViewOf(collections[i]), views0[i], clean)
    }

    /** RolledBackWith still holds when more items count as clean. */
    lemma RolledBackWithGrows(views0: seq<CollectionView>, clean: set<Trackable>, more: set<Trackable>)
      requires RolledBackWith(views0, clean) && clean <= more
      ensures RolledBackWith(views0, more)
    {
      forall i | 0 <= i < |collections|
        ensures RolledBack(ViewOf(collections[i]), views0[i], more)
      {
        RolledBackGrows(ViewOf(collections[i]), views0[i], clean, more);
      }
    }

    /**
     * What the reject chain's RolledBackWith promises, for collections that were
     * in the states views0 and whose items lie in elements: every collection is
     * restored with its baseline and registration. After additions or removals
     * every live item is clean and a registered collection's model list is the
     * items' models; without them the live list and the model list are kept and
     * every item listed as modified is clean.
     */
    lemma RolledBackMeans(views0: seq<CollectionView>, elements: set<Trackable>)
      requires RolledBackWith(views0, elements - ChangedAmong(elements))
      ensures forall i :: 0 <= i < |collections| ==>
        collections[i].Restored() && collections[i].baseline == views0[i].baseline && collections[i].registered == views0[i].registered
      ensures forall i :: 0 <= i < |collections| && (views0[i].added != [] || views0[i].removed != []) ==>
        (forall j :: 0 <= j < |collections[i].items| ==> !collections[i].items[j].isChanged)
        && (collections[i].registered ==> collections[i].modelList == ModelsOf(collections[i].items))
      ensures forall i :: 0 <= i < |collections| && views0[i].added == [] && views0[i].removed == [] ==>
        collections[i].items == views0[i].items && collections[i].modelList == views0[i].modelList
        && forall x :: x in views0[i].modified ==> !x.isChanged
    {
      forall i, j | 0 <= i < |collections| && 0 <= j < |collections[i].items| && (views0[i].added != [] || views0[i].removed != [])
        ensures !collections[i].items[j].isChanged
      {
        assert RolledBack(ViewOf(collections[i]), views0[i], elements - ChangedAmong(elements));
        assert collections[i].items[j] in elements && collections[i].items[j] !in ChangedAmong(elements);
      }
      forall i, x | 0 <= i < |collections| && views0[i].added == [] && views0[i].removed == [] && x in views0[i].modified
        ensures !x.isChanged
      {
        assert RolledBack(ViewOf(collections[i]), views0[i], elements - ChangedAmong(elements));
        assert x in elements && x !in ChangedAmong(elements);
      }
    }

    /**
     * The collection part of the loop over the tracked objects in
     * RejectChanges; elements holds every item whose state a collection's
     * RejectChanges may change, and views the collections' states when the
     * call begins. No item of elements becomes changed, and every collection
     * stands in the RolledBack relation to its view, with the items of
     * elements that end clean counted as clean.
     */
    method RejectCollections(ghost elements: set<Trackable>, ghost views: seq<CollectionView>)
      requires NoDup(collections) && CollectionsValid()
      requires |views| == |collections| && forall i :: 0 <= i < |collections| ==> views[i] == ViewOf(collections[i])
      requires forall i :: 0 <= i < |collections| ==> AllIn(collections[i].baseline, elements) && AllIn(collections[i].modified, elements)
      modifies collections`items, collections`added, collections`removed, collections`modified, collections`modelList, elements
      ensures CollectionsRestored()
      ensures ChangedAmong(elements) <= old(ChangedAmong(elements))
      ensures RolledBackWith(views, elements - ChangedAmong(elements))
    {
      ghost var dirty := ChangedAmong(elements);
      ghost var clean: set<Trackable> := {};
      ghost var cleaned: seq<set<Trackable>> := [];
      for i := 0 to |collections|
        invariant |cleaned| == i
        invariant forall k :: i <= k < |collections| ==> ViewOf(collections[k]) == views[k] && collections[k].Valid()
        invariant forall k :: i <= k < |collections| ==> AllIn(views[k].baseline, elements) && AllIn(views[k].modified, elements)
        invariant forall k :: 0 <= k < i ==> collections[k].Restored() && RolledBack(ViewOf(collections[k]), views[k], cleaned[k]) && cleaned[k] <= clean
        invariant ChangedAmong(elements) <= dirty && clean !! ChangedAmong(elements) && clean <= elements
      {
        var done := RejectCollection(collections, i, collections[i], elements, dirty, clean);
        cleaned := cleaned + [done];
        clean := clean + done;
      }
      forall k | 0 <= k < |collections|
        ensures RolledBack(ViewOf(collections[k]), views[k], elements - ChangedAmong(elements))
      {
        RolledBackGrows(ViewOf(collections[k]), views[k], cleaned[k], elements - ChangedAmong(elements));
      }
    }

    /** With an empty ledger, clean children and committed or restored collections, nothing reports a change. */
    lemma NothingChanged()
      requires originalValues == map[]
      requires forall i :: 0 <= i < |children| ==> !children[i].isChanged
      requires CollectionsCommitted() || CollectionsRestored()
      ensures !IsChanged()
    {
    }

    /** A registered collection set that is restored is also valid. */
    lemma RestoredCollectionsValid()
      requires CollectionsRestored()
      ensures CollectionsValid()
    {
      forall k | 0 <= k < |collections|
        ensures collections[k].Valid()
      {
        collections[k].RestoredIsValid();
      }
    }

    /** The child part of the loop over the tracked objects in RejectChanges: no item of s becomes changed. */
    method RejectChildren(ghost s: set<Trackable>)
      requires Valid()
      modifies children
      ensures Valid() && State() == old(State())
      ensures forall i :: 0 <= i < |children| ==> !children[i].isChanged
      ensures CollectionsRestored() == old(CollectionsRestored())
      ensures ViewsOf(collections) == old(ViewsOf(collections))
      ensures ChangedAmong(s) <= old(ChangedAmong(s))
    {
      for i := 0 to |children|
        invariant forall k :: 0 <= k < i ==> !children[k].isChanged
        invariant unchanged(collections)
      {
        children[i].RejectChanges();
      }
    }

    /** The first part of RejectChanges: every recorded value goes back into the model and the ledger is emptied. */
    method RestoreValues()
      requires Valid()
      modifies this`originalValues, model
      ensures Valid()
      ensures State() == Ledger.RejectChanges(old(State()))
      ensures CollectionElements() == old(CollectionElements())
      ensures ViewsOf(collections) == old(ViewsOf(collections))
      ensures ChangedAmong(CollectionElements()) == old(ChangedAmong(CollectionElements()))
    {
      WriteBack();
      originalValues := map[];
      CollectionsKept();
    }

    /**
     * When no registered collection has changed since the call began, their
     * invariant, their elements and their views are as they were.
     */
    twostate lemma CollectionsKept()
      requires collections == old(collections) && unchanged(collections) && unchanged(old(CollectionElements()))
      ensures CollectionsValid() == old(CollectionsValid())
      ensures CollectionElements() == old(CollectionElements())
      ensures ViewsOf(collections) == old(ViewsOf(collections))
      ensures ChangedAmong(CollectionElements()) == old(ChangedAmong(CollectionElements()))
    {
    }

    /**
     * The loop over the tracked objects in RejectChanges, for a wrapper whose
     * collections hold elements and are in the states views0: no item of
     * elements becomes changed, every child ends clean and every collection
     * stands in the RolledBack relation to its state before.
     */
    method RejectTracked(ghost elements: set<Trackable>, ghost views0: seq<CollectionView>)
      requires Valid()
      requires |views0| == |collections| && forall i :: 0 <= i < |collections| ==> views0[i] == ViewOf(collections[i])
      requires forall i :: 0 <= i < |collections| ==> AllIn(collections[i].baseline, elements) && AllIn(collections[i].modified, elements)
      modifies children, collections, elements
      ensures Valid() && State() == old(State())
      ensures forall i :: 0 <= i < |children| ==> !children[i].isChanged
      ensures CollectionsRestored()
      ensures ChangedAmong(elements) <= old(ChangedAmong(elements))
      ensures RolledBackWith(views0, elements - ChangedAmong(elements))
    {
      RejectCollections(elements, views0);
      ghost var mid := ChangedAmong(elements);
      RestoredCollectionsValid();
      RejectChildren(elements);
      RolledBackWithGrows(views0, elements - mid, elements - ChangedAmong(elements));
    }

    /** The loop over the tracked objects in RejectChanges, then the validation that closes it. */
    method RejectTrackedAndValidate(ghost elements: set<Trackable>, ghost views0: seq<CollectionView>)
      requires Valid()
      requires |views0| == |collections| && forall i :: 0 <= i < |collections| ==> views0[i] == ViewOf(collections[i])
      requires forall i :: 0 <= i < |collections| ==> AllIn(collections[i].baseline, elements) && AllIn(collections[i].modified, elements)
      modifies errorInfo, children, collections, elements
      ensures Valid() && Validated() && State() == old(State())
      ensures forall i :: 0 <= i < |children| ==> !children[i].isChanged
      ensures CollectionsRestored()
      ensures ChangedAmong(elements) <= old(ChangedAmong(elements))
      ensures RolledBackWith(views0, elements - ChangedAmong(elements))
    {
      RejectTracked(elements, views0);
      ghost var changed := ChangedAmong(elements);
      Validate();
      assert ChangedAmong(elements) == changed;
    }

    /**
     * RejectChanges: writes every recorded value straight into the model (not
     * through SetValue, so nothing is recorded again), empties the ledger,
     * rejects every tracked object and re-validates. No item of the
     * collections becomes changed and every collection stands in the
     * RolledBack relation to its state before (RolledBackMeans spells it out).
     */
    method RejectChanges()
      requires Valid()
      modifies this`originalValues, model, errorInfo, children, collections, CollectionElements()
      ensures Valid() && Validated()
      ensures State() == Ledger.RejectChanges(old(State()))
      ensures forall i :: 0 <= i < |children| ==> !children[i].isChanged
      ensures CollectionsRestored()
      ensures ChangedAmong(old(CollectionElements())) <= old(ChangedAmong(CollectionElements()))
      ensures RolledBackWith(old(ViewsOf(collections)), old(CollectionElements()) - ChangedAmong(old(CollectionElements())))
      ensures !IsChanged()
    {
      RestoreValues();
      CollectionElementsHold();
      RejectTrackedAndValidate(CollectionElements(), ViewsOf(collections));
      NothingChanged();
    }

    /** RegisterComplex (through RegisterTrackingObject): a child is registered at most once. */
    method RegisterComplex(t: Trackable)
      requires Valid()
      modifies this`children
      ensures Valid()
      ensures children == if t in old(children) then old(children) else old(children) + [t]
    {
      if t !in children {
        children := children + [t];
      }
    }

    /**
     * RegisterCollection: hands the collection the model list its change
     * handler keeps in step with the wrappers' models, then registers the
     * collection once.
     */
    method RegisterCollection(c: TrackingCollection, modelCollection: seq<ModelRef>)
      requires Valid() && c.Valid()
      modifies this`collections, c`registered, c`modelList
      ensures Valid()
      ensures c.registered && c.modelList == modelCollection
      ensures collections == if c in old(collections) then old(collections) else old(collections) + [c]
    {
      c.registered := true;
      c.modelList := modelCollection;
      if c !in collections {
        collections := collections + [c];
      }
    }
  }
}
