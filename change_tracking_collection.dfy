/**
 * ChangeTrackingCollection: a live, ordered list of tracked items, the
 * baseline taken at construction and at every commit, and the three views
 * added, removed and modified, recomputed by reference set difference after
 * every change to the list.
 */
module ChangeTracking {
  import opened Common
  import opened Tracking

  /** The property name whose notifications only bubble validity. */
  const IsValidName := "IsValid"

  /** The items of s that report IsChanged. */
  function Dirty(s: seq<Trackable>): (r: set<Trackable>)
    reads s
  {
    set x | x in s && x.isChanged
  }

  /** The items of s that are changed, in their order in s; the changed items are given as a set. */
  function ChangedOnly(s: seq<Trackable>, changed: set<Trackable>): (r: seq<Trackable>)
    ensures forall i :: 0 <= i < |r| ==> r[i] in s && r[i] in changed
    ensures forall i :: 0 <= i < |s| && s[i] in changed ==> s[i] in r
    ensures NoDup(s) ==> NoDup(r)
  {
    if s == [] then []
    else
      assert forall i :: 1 <= i < |s| ==> s[i] == s[1..][i - 1];
      (if s[0] in changed then [s[0]] else []) + ChangedOnly(s[1..], changed)
  }

  /**
   * The modified view as the recompute builds it: the live items, outside the added
   * and the removed ones, that are changed.
   * It holds, once each, exactly the live items of the baseline that are changed,
   * and none of them is added or removed.
   */
  function ModifiedView(live: seq<Trackable>, baseline: seq<Trackable>, changed: set<Trackable>): (r: seq<Trackable>)
    ensures NoDup(r)
    ensures forall i :: 0 <= i < |r| ==> r[i] in live && r[i] in baseline && r[i] in changed
    ensures forall i :: 0 <= i < |live| && live[i] in baseline && live[i] in changed ==> live[i] in r
    ensures forall i :: 0 <= i < |r| ==> r[i] !in Without(live, baseline) && r[i] !in Without(baseline, live)
  {
    var added := Without(live, baseline);
    var removed := Without(baseline, live);
    var kept := Except(Except(live, added), removed);
    forall i | 0 <= i < |live| && live[i] in baseline
      ensures live[i] in kept
    {
      WithoutMember(live, baseline, live[i]);
      WithoutMember(baseline, live, live[i]);
      assert live[i] !in added;
      var e := Except(live, added);
      assert live[i] in e;
      assert live[i] !in removed;
      var k :| 0 <= k < |e| && e[k] == live[i];
    }
    forall i | 0 <= i < |kept|
      ensures kept[i] in live && kept[i] in baseline
    {
      WithoutMember(live, baseline, kept[i]);
    }
    var r := ChangedOnly(kept, changed);
    forall i | 0 <= i < |r|
      ensures r[i] !in added && r[i] !in removed
    {
      WithoutMember(live, baseline, r[i]);
      WithoutMember(baseline, live, r[i]);
    }
    r
  }

  /** Once the live list and the baseline hold the same members, both differences are empty. */
  lemma SameMembersNoDiff(items: seq<Trackable>, baseline: seq<Trackable>)
    requires SameMembers(items, baseline)
    ensures Without(items, baseline) == [] && Without(baseline, items) == []
  {
    WithoutEmpty(items, baseline);
    WithoutEmpty(baseline, items);
  }

  /** The model list RegisterCollection keeps: the items' models, in order. */
  function ModelsOf(items: seq<Trackable>): (r: seq<ModelRef>)
    ensures |r| == |items|
    ensures forall i :: 0 <= i < |items| ==> r[i] == items[i].model
  {
    if items == [] then [] else [items[0].model] + ModelsOf(items[1..])
  }

  class TrackingCollection {
    /** The live list (the ObservableCollection itself). */
    var items: seq<Trackable>
    /** _originalCollection */
    var baseline: seq<Trackable>
    var added: seq<Trackable>
    var removed: seq<Trackable>
    var modified: seq<Trackable>
    /** Whether RegisterCollection has attached its CollectionChanged handler, and the model list it keeps. */
    var registered: bool
    var modelList: seq<ModelRef>

    /** The views are the diff of the live list against the baseline; modified is duplicate-free and never holds an added item. */
    ghost predicate Valid()
      reads this
    {
      && added == Without(items, baseline)
      && removed == Without(baseline, items)
      && NoDup(modified)
      && forall i :: 0 <= i < |modified| ==> modified[i] !in added
    }

    /** The state RejectChanges leaves: empty views over a live list with the baseline's members. */
    ghost predicate Restored()
      reads this
    {
      added == [] && removed == [] && modified == [] && SameMembers(items, baseline)
    }

    /** A restored collection is valid: both differences of equal member sets are empty. */
    lemma RestoredIsValid()
      requires Restored()
      ensures Valid()
    {
      SameMembersNoDiff(items, baseline);
    }

    /** The state AcceptChanges leaves: empty views and the live list as the baseline. */
    ghost predicate Committed()
      reads this
    {
      added == [] && removed == [] && modified == [] && baseline == items
    }

    /** A committed collection is valid: the live list has no difference from itself. */
    lemma CommittedIsValid()
      requires Committed()
      ensures Valid()
    {
      WithoutEmpty(items, items);
    }

    /** Every item change has been reported: modified holds exactly the live baseline items that are changed. */
    ghost predicate InSync()
      reads this, items, modified
    {
      && (forall i :: 0 <= i < |modified| ==> modified[i] in items && modified[i] in baseline && modified[i].isChanged)
      && (forall i :: 0 <= i < |items| && items[i] in baseline && items[i].isChanged ==> items[i] in modified)
    }

    /** The state right after a recompute (OnCollectionChanged). */
    ghost predicate Recomputed()
      reads this, items
    {
      && Valid()
      && modified == ModifiedView(items, baseline, Dirty(items))
      && (registered ==> modelList == ModelsOf(items))
    }

    /** The fields a list operation may change all hold the given values. */
    ghost predicate Same(items0: seq<Trackable>, added0: seq<Trackable>, removed0: seq<Trackable>, modified0: seq<Trackable>, modelList0: seq<ModelRef>)
      reads this
    {
      items == items0 && added == added0 && removed == removed0 && modified == modified0 && modelList == modelList0
    }

    /**
     * IsChanged: some view is non-empty; on a valid collection, exactly when
     * the live list and the baseline differ by reference or an item is modified.
     */
    function IsChanged(): (r: bool)
      reads this
      ensures Valid() ==> (r <==> (exists x :: x in items && x !in baseline) || (exists x :: x in baseline && x !in items) || modified != [])
    {
      WithoutEmpty(items, baseline);
      WithoutEmpty(baseline, items);
      added != [] || removed != [] || modified != []
    }

    /** IsValid: every live item is valid. */
    function IsValid(): (r: bool)
      reads this, items
      ensures r <==> forall x :: x in items ==> x.isValid
    {
      forall i :: 0 <= i < |items| ==> items[i].isValid
    }

    constructor (initial: seq<Trackable>)
      ensures Valid() && items == initial && baseline == initial
      ensures added == [] && removed == [] && modified == []
      ensures !registered && !IsChanged()
    {
      items := initial;
      baseline := initial;
      added, removed, modified := [], [], [];
      registered := false;
      modelList := [];
      WithoutEmpty(initial, initial);
    }

    /** UpdateObservableColection: the new contents of a view it clears and then fills with every item of the source. */
    static method UpdateObservableCollection(source: seq<Trackable>) returns (r: seq<Trackable>)
      ensures r == source
    {
      r := [];
      for i := 0 to |source|
        invariant r == source[..i]
      {
        r := r + [source[i]];
      }
    }

    /** OnCollectionChanged: recomputes the three views, then runs RegisterCollection's handler. */
    method OnCollectionChanged()
      modifies this`added, this`removed, this`modified, this`modelList
      ensures Recomputed()
      ensures !registered ==> modelList == old(modelList)
    {
      var a := Without(items, baseline);
      var r := Without(baseline, items);
      var dirty := Dirty(items);
      var m := ModifiedView(items, baseline, dirty);
      added := UpdateObservableCollection(a);
      removed := UpdateObservableCollection(r);
      modified := UpdateObservableCollection(m);
      if registered {
        modelList := ModelsOf(items);
      }
      assert Dirty(items) == dirty;
    }

    /** Collection<T>.Add: appends x. */
    method Add(x: Trackable)
      modifies this`items, this`added, this`removed, this`modified, this`modelList
      ensures items == old(items) + [x]
      ensures Recomputed()
    {
      items := items + [x];
      OnCollectionChanged();
    }

    /** Collection<T>.Insert: inserts x at index i; an index past the end changes nothing (ok is false). */
    method Insert(i: int, x: Trackable) returns (ok: bool)
      requires Valid()
      modifies this`items, this`added, this`removed, this`modified, this`modelList
      ensures ok <==> 0 <= i <= |old(items)|
      ensures ok ==> items == old(items)[..i] + [x] + old(items)[i..] && Recomputed()
      ensures !ok ==> Same(old(items), old(added), old(removed), old(modified), old(modelList))
      ensures Valid()
    {
      ok := 0 <= i <= |items|;
      if ok {
        items := items[..i] + [x] + items[i..];
        OnCollectionChanged();
      }
    }

    /** Collection<T>.RemoveAt: removes the item at index i; an index out of range changes nothing. */
    method RemoveAt(i: int) returns (ok: bool)
      requires Valid()
      modifies this`items, this`added, this`removed, this`modified, this`modelList
      ensures ok <==> 0 <= i < |old(items)|
      ensures ok ==> items == old(items)[..i] + old(items)[i + 1..] && Recomputed()
      ensures !ok ==> Same(old(items), old(added), old(removed), old(modified), old(modelList))
      ensures Valid()
    {
      ok := 0 <= i < |items|;
      if ok {
        items := items[..i] + items[i + 1..];
        OnCollectionChanged();
      }
    }

    /** The indexer's setter: replaces the item at index i; an index out of range changes nothing. */
    method SetItem(i: int, x: Trackable) returns (ok: bool)
      requires Valid()
      modifies this`items, this`added, this`removed, this`modified, this`modelList
      ensures ok <==> 0 <= i < |old(items)|
      ensures ok ==> items == old(items)[i := x] && Recomputed()
      ensures !ok ==> Same(old(items), old(added), old(removed), old(modified), old(modelList))
      ensures Valid()
    {
      ok := 0 <= i < |items|;
      if ok {
        items := items[i := x];
        OnCollectionChanged();
      }
    }

    /** Collection<T>.Remove: removes the first occurrence of x; found is false, and nothing changes, when x is absent. */
    method Remove(x: Trackable) returns (found: bool)
      requires Valid()
      modifies this`items, this`added, this`removed, this`modified, this`modelList
      ensures found <==> x in old(items)
      ensures found ==> items == RemoveFirst(old(items), x) && Recomputed()
      ensures !found ==> Same(old(items), old(added), old(removed), old(modified), old(modelList))
      ensures Valid()
    {
      found := x in items;
      if found {
        items := RemoveFirst(items, x);
        OnCollectionChanged();
      }
    }

    /** Collection<T>.Clear: empties the live list. */
    method Clear()
      modifies this`items, this`added, this`removed, this`modified, this`modelList
      ensures items == [] && Recomputed()
    {
      items := [];
      OnCollectionChanged();
    }

    /**
     * ItemPropertyChanged: an IsValid notification leaves the views alone; any
     * other notification from an item that is not in added puts the item into
     * modified when it is changed and takes it out otherwise.
     */
    method ItemPropertyChanged(item: Trackable, propertyName: string)
      requires Valid()
      modifies this`modified
      ensures Valid()
      ensures propertyName == IsValidName || item in added ==> modified == old(modified)
      ensures propertyName != IsValidName && item !in added ==>
        && (item in modified <==> item.isChanged)
        && (item.isChanged ==> modified == if item in old(modified) then old(modified) else old(modified) + [item])
        && (!item.isChanged ==> modified == RemoveFirst(old(modified), item))
      ensures forall i :: 0 <= i < |old(modified)| && old(modified)[i] != item ==> old(modified)[i] in modified
      ensures forall i :: 0 <= i < |modified| ==> modified[i] == item || modified[i] in old(modified)
      ensures item in items && (forall i :: 0 <= i < |old(modified)| ==> old(modified)[i] in items && old(modified)[i] in baseline) ==>
        forall i :: 0 <= i < |modified| ==> modified[i] in items && modified[i] in baseline
    {
      if propertyName == IsValidName {
        return;
      }
      if item in added {
        return;
      }
      if item.isChanged {
        if item !in modified {
          modified := modified + [item];
        }
      } else {
        RemoveFirstNoDup(modified, item);
        forall i | 0 <= i < |modified| && modified[i] != item
          ensures modified[i] in RemoveFirst(modified, item)
        {
          RemoveFirstMember(modified, item, modified[i]);
        }
        forall i | 0 <= i < |RemoveFirst(modified, item)|
          ensures RemoveFirst(modified, item)[i] in modified
        {
          RemoveFirstMember(modified, item, RemoveFirst(modified, item)[i]);
        }
        modified := RemoveFirst(modified, item);
      }
      if item in items {
        WithoutMember(items, baseline, item);
      }
    }

    /** AcceptChanges: empties the views, accepts every live item and takes the live list as the new baseline. */
    method AcceptChanges()
      modifies this`added, this`removed, this`modified, this`baseline, items
      ensures Valid() && items == old(items) && baseline == items
      ensures added == [] && removed == [] && modified == [] && !IsChanged()
      ensures forall i :: 0 <= i < |items| ==> !items[i].isChanged
      ensures forall x :: x in items ==> x.isValid == old(x.isValid)
    {
      added, removed, modified := [], [], [];
      for i := 0 to |items|
        modifies items
        invariant forall k :: 0 <= k < i ==> !items[k].isChanged
        invariant forall x :: x in items ==> x.isValid == old(x.isValid)
      {
        items[i].AcceptChanges();
      }
      baseline := items;
      WithoutEmpty(items, items);
    }

    /** The first loop of RejectChanges, for a non-empty snapshot: removes, one Remove call each, every item of it. */
    method RemoveEach(xs: seq<Trackable>)
      requires Valid() && xs != []
      requires multiset(xs) <= multiset(items)
      modifies this`items, this`added, this`removed, this`modified, this`modelList
      ensures Recomputed()
      ensures multiset(items) + multiset(xs) == multiset(old(items))
    {
      ghost var items0 := items;
      RemoveNext(xs, 0, items0);
      for j := 1 to |xs|
        invariant Recomputed()
        invariant multiset(items) + multiset(xs[..j]) == multiset(items0)
      {
        RemoveNext(xs, j, items0);
      }
      PrefixAll(xs);
    }

    /** One step of RemoveEach: the Remove call for xs[j], an item the live list still holds. */
    method RemoveNext(xs: seq<Trackable>, j: nat, ghost items0: seq<Trackable>)
      requires Valid() && j < |xs|
      requires multiset(xs) <= multiset(items0)
      requires multiset(items) + multiset(xs[..j]) == multiset(items0)
      modifies this`items, this`added, this`removed, this`modified, this`modelList
      ensures Recomputed()
      ensures multiset(items) + multiset(xs[..j + 1]) == multiset(items0)
    {
      PrefixSnoc(xs, j);
      NextStillPresent(items, items0, xs, j);
      RemoveFirstCount(items, xs[j]);
      var found := Remove(xs[j]);
    }

    /** The second loop of RejectChanges, for a non-empty snapshot: appends, one Add call each, every item of it. */
    method AddEach(xs: seq<Trackable>)
      requires xs != []
      modifies this`items, this`added, this`removed, this`modified, this`modelList
      ensures items == old(items) + xs
      ensures Recomputed()
    {
      ghost var items0 := items;
      AppendSnoc(items0, xs, 0);
      Add(xs[0]);
      for j := 1 to |xs|
        invariant items == items0 + xs[..j]
        invariant Recomputed()
      {
        AppendSnoc(items0, xs, j);
        Add(xs[j]);
      }
      PrefixAll(xs);
    }

    /**
     * The third loop of RejectChanges: rejects every item of a snapshot of the
     * modified view; the notification each item then raises takes it out of the view.
     */
    method RejectEach(xs: seq<Trackable>)
      requires Valid() && xs == modified
      modifies this`modified, xs
      ensures Valid() && modified == []
      ensures forall x :: x in xs ==> !x.isChanged
    {
      for j := 0 to |xs|
        invariant Valid() && modified == xs[j..]
        invariant forall k :: 0 <= k < j ==> !xs[k].isChanged
        modifies this`modified, xs
      {
        var x := xs[j];
        x.RejectChanges();
        ItemPropertyChanged(x, "");
        assert modified == xs[j + 1..];
      }
    }

    /** The first two loops of RejectChanges: the live list gets back exactly the baseline's members. */
    method RestoreMembers()
      requires Valid()
      modifies this`items, this`added, this`removed, this`modified, this`modelList
      ensures Valid() && added == [] && removed == []
      ensures forall x :: x in items <==> x in baseline
      ensures old(added) != [] || old(removed) != [] ==>
        && (forall i :: 0 <= i < |modified| ==> modified[i] in baseline)
        && (forall i :: 0 <= i < |items| && items[i].isChanged ==> items[i] in modified)
        && (registered ==> modelList == ModelsOf(items))
      ensures old(added) == [] && old(removed) == [] ==> Same(old(items), old(added), old(removed), old(modified), old(modelList))
    {
      DropAdded();
      AddRemoved();
      if old(added) != [] || old(removed) != [] {
        RecomputedCoversChanged();
      }
      WithoutEmpty(items, baseline);
      WithoutEmpty(baseline, items);
    }

    /** The second loop of RejectChanges: once only baseline items are live, adding every removed item brings back all of them. */
    method AddRemoved()
      requires Valid() && forall x :: x in items ==> x in baseline
      modifies this`items, this`added, this`removed, this`modified, this`modelList
      ensures Valid()
      ensures forall x :: x in items <==> x in baseline
      ensures old(removed) != [] ==> Recomputed()
      ensures old(removed) == [] ==> Same(old(items), old(added), old(removed), old(modified), old(modelList))
    {
      ghost var itemsR := items;
      var toAdd := removed;
      if toAdd != [] {
        AddEach(toAdd);
      }
      forall x
        ensures x in items <==> x in baseline
      {
        WithoutMember(baseline, itemsR, x);
      }
    }

    /** The first loop of RejectChanges: after removing every added item, only baseline items are live. */
    method DropAdded()
      requires Valid()
      modifies this`items, this`added, this`removed, this`modified, this`modelList
      ensures Valid()
      ensures forall x :: x in items ==> x in baseline
      ensures old(added) != [] ==> Recomputed()
      ensures old(added) == [] ==> Same(old(items), old(added), old(removed), old(modified), old(modelList))
    {
      ghost var items0 := items;
      var toRemove := added;
      WithoutSub(items, baseline);
      if toRemove != [] {
        RemoveEach(toRemove);
      }
      forall x | x in items
        ensures x in baseline
      {
        WithoutRest(items, items0, baseline, x);
      }
    }

    /** Right after a recompute, with every live item in the baseline, modified lists exactly the changed live items. */
    lemma RecomputedCoversChanged()
      requires Recomputed()
      requires forall i :: 0 <= i < |items| ==> items[i] in baseline
      ensures forall i :: 0 <= i < |modified| ==> modified[i] in baseline
      ensures forall i :: 0 <= i < |items| && items[i].isChanged ==> items[i] in modified
    {
    }

    /**
     * RejectChanges: removes every added item, appends every removed item, then
     * rejects every modified item. The live list ends up with the baseline's
     * members, in a possibly different order, and every view is empty.
     */
    method RejectChanges()
      requires Valid()
      modifies this`items, this`added, this`removed, this`modified, this`modelList, baseline, modified
      ensures Valid()
      ensures forall x :: x in items <==> x in baseline
      ensures added == [] && removed == [] && modified == [] && !IsChanged()
      ensures old(added) != [] || old(removed) != [] || old(InSync()) ==>
        forall i :: 0 <= i < |items| ==> !items[i].isChanged
      ensures forall x :: x in old(baseline) || x in old(modified) ==> x.isChanged ==> old(x.isChanged)
      ensures old(added) == [] && old(removed) == [] ==> forall x :: x in old(modified) ==> !x.isChanged
      ensures registered && (old(added) != [] || old(removed) != []) ==> modelList == ModelsOf(items)
      ensures old(added) == [] && old(removed) == [] ==> items == old(items) && modelList == old(modelList)
    {
      ghost var stale := old(added) != [] || old(removed) != [] || InSync();
      RestoreMembers();
      assert stale ==> forall i :: 0 <= i < |items| && items[i].isChanged ==> items[i] in modified;
      var toReject := modified;
      RejectEach(toReject);
    }
  }
}
