# Change tracking and validation core of Mohsenmou.MVVM, modelled in Dafny

Mohsenmou.MVVM.Core is a small MVVM toolkit, and this project models its change-tracking and validation core. That core has three parts:

- **`ModelWrapper<T>`** wraps one model object.
  - It keeps a ledger (`_originalValues`) of each property's value before its first dirtying write.
  - It commits the ledger (`AcceptChanges`) or rolls it back (`RejectChanges`), together with its registered child objects and collections.
  - It re-validates the model after every change, grouping the validation results into a per-property error map.
- **`ChangeTrackingCollection<T>`** is an observable list of tracked items.
  - It holds a baseline and three views: added, removed and modified.
  - After every list change it recomputes the views by reference difference against the baseline.
  - It updates modified one item at a time when an item reports a change.
  - Accept re-baselines. Reject undoes additions and removals and rejects changed items.
- **`NotifyDataErrorInfoBase`** is the error dictionary: property name to a duplicate-free message list.

The files:

| file | module | models |
|---|---|---|
| `common.dfy` | `Common` | the LINQ operators the core uses (`Where` with a not-contained test, `Distinct`, `Except`), `Collection<T>.Remove`, `Option`, `Result` |
| `trackable.dfy` | `Tracking` | `IValidatableTrackingObject`, as an object with a model identity and `isChanged`/`isValid` state |
| `error_info.dfy` | `ErrorInfo` | `NotifyDataErrorInfoBase`: the error map as pure functions, and a class whose methods change it in place |
| `change_ledger.dfy` | `ChangeLedger` | the wrapper's ledger rules as pure functions on (values, ledger), with the round-trip lemmas |
| `validation.dfy` | `Validation` | the error grouping of `ModelWrapper.Validate` |
| `change_tracking_collection.dfy` | `ChangeTracking` | `ChangeTrackingCollection<T>`: the diff functions, and a class over the live list, baseline and views |
| `model_wrapper.dfy` | `ModelWrapping` | `ModelWrapper<T>`: a class over the model, ledger, error map, children and collections |

The mutating methods are proved against the pure functions: `ensures State() == ChangeLedger.SetValue(old(State()), p, v)`, `errors == AddErrorTo(old(errors), p, e)`, `info.errors == GroupErrors(results)`. The lemmas about those functions carry the round trips and invariants.

The wrapper's reject states its effect on each collection through `RolledBack(after, before, clean)`. This is a relation between two snapshots (`CollectionView`) of a collection's fields:

- The collection is restored, with its baseline and registration.
- After additions or removals, its live items are in `clean` and a registered model list follows them.
- Otherwise the live list and the model list are kept, and the items it listed as modified are in `clean`.

`ModelWrapping.ModelWrapper.RolledBackMeans` unfolds the relation, for `clean` the items that end clean.

### Where the model departs from the code

- **Wrapper reject order.** `ModelWrapper.cs:53-56` rejects the tracked objects in one list, in registration order. The model keeps children and collections in two lists and rejects all collections, then all children. Accept works the same way. In the model each tracked object's accept and reject involve only that object's own state.
- **Validate.**
  - `ModelWrapper.cs:167` calls a parameterless `ClearErrors()` and `ModelWrapper.cs:178` writes `Errors[...]`. Neither exists in `NotifyDataErrorInfoBase.cs`, which has only a private `_errorsByPropertyName` and `ClearErrors(string)`.
  - The model takes the evident meaning: Validate replaces the whole error map with the new grouping. That is `ModelWrapping.ModelWrapper.StoreErrors`.
- **Unknown property names.**
  - Where the code throws because reflection finds no property (`GetProperty` returns null), the model returns `None` or `false` and changes nothing.
  - This affects `GetValue`, `GetOriginalValue` and `SetValue`.
- **Collection reject.**
  - Each modified item's `RejectChanges` makes that item raise a property change. When the collection's handler (`ChangeTrackingCollection.cs:93-122`) is attached to the item, it takes the item out of modified.
  - The model runs that handler explicitly after each item's reject (`RejectEach`), as if it were always attached. When it is not attached, the model and the code end differently; the condition is given under `ChangeTracking.TrackingCollection.RejectChanges` in "Left out".
- **Index errors.** `Collection<T>.Insert`, `RemoveAt` and the indexer's setter throw `ArgumentOutOfRangeException` for an index out of range. The model's `Insert`, `RemoveAt` and `SetItem` return `false` instead and change nothing.

## Model

| member | source | states |
|---|---|---|
| `Common.Without` | Mohsenmou.MVVM/Mohsenmou.MVVM.Core/ChangeTrackingCollection.cs:64-65 | the kept elements are exactly the elements of the list that occur nowhere in the excluded list |
| `Common.Distinct` | Mohsenmou.MVVM/Mohsenmou.MVVM.Core/ModelWrapper.cs:175-181 | the result is duplicate-free and has the same members as the input |
| `Common.Except` | Mohsenmou.MVVM/Mohsenmou.MVVM.Core/ChangeTrackingCollection.cs:66 | duplicate-free; holds exactly the input's members that are not excluded |
| `Common.RemoveFirst` | Mohsenmou.MVVM/Mohsenmou.MVVM.Core/ChangeTrackingCollection.cs:50 | an absent element leaves the list as it is; a present one is cut out at its first occurrence, so the result is the part before it followed by the part after it, one shorter |
| `Common.RemoveFirstCount` | Mohsenmou.MVVM/Mohsenmou.MVVM.Core/ChangeTrackingCollection.cs:50 | removal takes away exactly one occurrence of the element, as multisets |
| `Common.RemoveFirstNoDup` | Mohsenmou.MVVM/Mohsenmou.MVVM.Core/ChangeTrackingCollection.cs:115-118 | removing from a duplicate-free list removes the element entirely and keeps the list duplicate-free |
| `Common.WithoutCount` | Mohsenmou.MVVM/Mohsenmou.MVVM.Core/ChangeTrackingCollection.cs:64 | the difference keeps every occurrence of a kept element and none of an excluded one |
| `ErrorInfo.AddErrorTo` | Mohsenmou.MVVM/Mohsenmou.MVVM.Core/NotifyDataErrorInfoBase.cs:20-31 | the message joins the property's list, created if missing, only when absent; the other keys stay; well-formedness (every list non-empty and duplicate-free) is preserved |
| `ErrorInfo.ClearErrorsOf` | Mohsenmou.MVVM/Mohsenmou.MVVM.Core/NotifyDataErrorInfoBase.cs:32-39 | the key is gone, an absent key changes nothing, every other key is untouched, well-formedness is preserved |
| `ErrorInfo.AddErrorIdempotent` | Mohsenmou.MVVM/Mohsenmou.MVVM.Core/NotifyDataErrorInfoBase.cs:26-30 | adding the same message twice is the same as adding it once |
| `ErrorInfo.AddErrorChangesIffNew` | Mohsenmou.MVVM/Mohsenmou.MVVM.Core/NotifyDataErrorInfoBase.cs:26-30 | the map changes exactly when the message was not yet listed for the property |
| `ErrorInfo.HasErrorsIffSomeMessage` | Mohsenmou.MVVM/Mohsenmou.MVVM.Core/NotifyDataErrorInfoBase.cs:13 | on a well-formed map, having a key is the same as some property having some message |
| `ErrorInfo.NotifyDataErrorInfo.constructor` | Mohsenmou.MVVM/Mohsenmou.MVVM.Core/NotifyDataErrorInfoBase.cs:11 | the dictionary starts empty and well formed |
| `ErrorInfo.NotifyDataErrorInfo.HasErrors` | Mohsenmou.MVVM/Mohsenmou.MVVM.Core/NotifyDataErrorInfoBase.cs:13 | on a well-formed map, true exactly when some property has some message |
| `ErrorInfo.NotifyDataErrorInfo.GetErrors` | Mohsenmou.MVVM/Mohsenmou.MVVM.Core/NotifyDataErrorInfoBase.cs:14-19 | the stored list exactly when the property is a key, none (null) otherwise; on a valid map a returned list is non-empty and duplicate-free; reads only |
| `ErrorInfo.NotifyDataErrorInfo.AddError` | Mohsenmou.MVVM/Mohsenmou.MVVM.Core/NotifyDataErrorInfoBase.cs:20-31 | the new map is AddErrorTo of the old one and stays well formed; ErrorsChanged is raised exactly when the map changed |
| `ErrorInfo.NotifyDataErrorInfo.ClearErrors` | Mohsenmou.MVVM/Mohsenmou.MVVM.Core/NotifyDataErrorInfoBase.cs:32-39 | the new map is ClearErrorsOf of the old one and stays well formed; ErrorsChanged is raised exactly when the key existed, which is exactly when the map changed |
| `Tracking.Trackable.AcceptChanges` | Mohsenmou.MVVM/Mohsenmou.MVVM.Core/IValidatableTrackingObject.cs:5 | the tracked object is clean afterwards and its validity is untouched |
| `Tracking.Trackable.RejectChanges` | Mohsenmou.MVVM/Mohsenmou.MVVM.Core/IValidatableTrackingObject.cs:5 | the tracked object is clean afterwards; its validity is left open, since an object that rolls its values back re-validates them |
| `ChangeLedger.UpdateOriginalValue` | Mohsenmou.MVVM/Mohsenmou.MVVM.Core/ModelWrapper.cs:148-163 | after a write that changes the value, the property is in the ledger exactly when the new value differs from its value as of the last commit, and then the ledger holds that value; other entries stay |
| `ChangeLedger.SetValue` | Mohsenmou.MVVM/Mohsenmou.MVVM.Core/ModelWrapper.cs:108-120 | the property takes the new value, no other value or key changes, and every ledger entry keeps differing from its live value |
| `ChangeLedger.AcceptChanges` | Mohsenmou.MVVM/Mohsenmou.MVVM.Core/ModelWrapper.cs:37 | the ledger is empty and no model value changes |
| `ChangeLedger.RejectChanges` | Mohsenmou.MVVM/Mohsenmou.MVVM.Core/ModelWrapper.cs:48-52 | the ledger is empty, the property names are kept, and every property has its value as of the last commit |
| `ChangeLedger.GetIsChanged` | Mohsenmou.MVVM/Mohsenmou.MVVM.Core/ModelWrapper.cs:66-69 | on a consistent ledger, p is dirty exactly when it has a ledger entry and that entry differs from its live value |
| `ChangeLedger.GetOriginalValue` | Mohsenmou.MVVM/Mohsenmou.MVVM.Core/ModelWrapper.cs:71-76 | on a consistent ledger, the original value differs from the live value exactly when p is dirty |
| `ChangeLedger.LedgerIffSomeDiffers` | Mohsenmou.MVVM/Mohsenmou.MVVM.Core/ModelWrapper.cs:29 | on a consistent ledger, the ledger is non-empty exactly when some property's live value differs from its value as of the last commit |
| `ChangeLedger.FirstWriteRecords` | Mohsenmou.MVVM/Mohsenmou.MVVM.Core/ModelWrapper.cs:150-154 | the first dirtying write makes p dirty with the pre-write value as its original |
| `ChangeLedger.LaterWriteKeepsOriginal` | Mohsenmou.MVVM/Mohsenmou.MVVM.Core/ModelWrapper.cs:155-161 | a later write to a dirty p that does not restore the original keeps p dirty with the first recorded value |
| `ChangeLedger.SameValueNoOp` | Mohsenmou.MVVM/Mohsenmou.MVVM.Core/ModelWrapper.cs:110-112 | writing the live value again leaves the model and the ledger unchanged |
| `ChangeLedger.SetValueKeepsOriginals` | Mohsenmou.MVVM/Mohsenmou.MVVM.Core/ModelWrapper.cs:108-120 | no write changes any property's value as of the last commit |
| `ChangeLedger.SetThenRejectSameAsReject` | Mohsenmou.MVVM/Mohsenmou.MVVM.Core/ModelWrapper.cs:46-52 | a write followed by RejectChanges ends where RejectChanges alone ends |
| `ChangeLedger.SetThenRejectRestores` | Mohsenmou.MVVM/Mohsenmou.MVVM.Core/ModelWrapper.cs:46-52 | on a clean object, set(p, v) then reject restores every value, p's included |
| `ChangeLedger.EditThenWriteBackClears` | Mohsenmou.MVVM/Mohsenmou.MVVM.Core/ModelWrapper.cs:155-161 | set(p, v1) then set(p, original) leaves p clean with its original value and the other ledger entries as before; on a clean p the state is exactly restored |
| `ChangeLedger.AcceptIdempotent` | Mohsenmou.MVVM/Mohsenmou.MVVM.Core/ModelWrapper.cs:37 | on the ledger, accepting twice is the same as accepting once, and nothing is dirty afterwards (the whole wrapper's version is the last clause of `ModelWrapping.ModelWrapper.AcceptChanges`) |
| `Validation.MemberNames` | Mohsenmou.MVVM/Mohsenmou.MVVM.Core/ModelWrapper.cs:175 | holds exactly the member names some result mentions |
| `Validation.MessagesNaming` | Mohsenmou.MVVM/Mohsenmou.MVVM.Core/ModelWrapper.cs:178-180 | holds exactly the messages of the results that name the property |
| `Validation.GroupErrors` | Mohsenmou.MVVM/Mohsenmou.MVVM.Core/ModelWrapper.cs:173-185 | a key exactly for each member name some result mentions (no stale keys), under it exactly the messages of the results naming it, with no duplicates; the map is well formed |
| `Validation.GroupErrorsByKeys` | Mohsenmou.MVVM/Mohsenmou.MVVM.Core/ModelWrapper.cs:176-182 | a map built key by key over the distinct member names, each holding the distinct messages naming it, equals GroupErrors |
| `Validation.NoErrorsIffNoNamedResult` | Mohsenmou.MVVM/Mohsenmou.MVVM.Core/ModelWrapper.cs:173-185 | the grouping is empty exactly when no result names a member |
| `ChangeTracking.ChangedOnly` | Mohsenmou.MVVM/Mohsenmou.MVVM.Core/ChangeTrackingCollection.cs:66 | keeps exactly the changed elements, and keeps a duplicate-free list duplicate-free |
| `ChangeTracking.ModifiedView` | Mohsenmou.MVVM/Mohsenmou.MVVM.Core/ChangeTrackingCollection.cs:64-66 | duplicate-free; holds exactly the live items of the baseline that are changed; none of them is added or removed |
| `ChangeTracking.SameMembersNoDiff` | Mohsenmou.MVVM/Mohsenmou.MVVM.Core/ChangeTrackingCollection.cs:64-65 | a live list with the baseline's members has empty added and removed views |
| `ChangeTracking.ModelsOf` | Mohsenmou.MVVM/Mohsenmou.MVVM.Core/ModelWrapper.cs:97-98 | the list of the items' models, one per item, in order |
| `ChangeTracking.TrackingCollection.RestoredIsValid` | Mohsenmou.MVVM/Mohsenmou.MVVM.Core/ChangeTrackingCollection.cs:46-61 | the state reject leaves satisfies the collection invariant |
| `ChangeTracking.TrackingCollection.CommittedIsValid` | Mohsenmou.MVVM/Mohsenmou.MVVM.Core/ChangeTrackingCollection.cs:34-45 | the state accept leaves satisfies the collection invariant |
| `ChangeTracking.TrackingCollection.constructor` | Mohsenmou.MVVM/Mohsenmou.MVVM.Core/ChangeTrackingCollection.cs:15-28 | the baseline equals the live items, every view is empty, IsChanged is false, the invariant holds |
| `ChangeTracking.TrackingCollection.IsChanged` | Mohsenmou.MVVM/Mohsenmou.MVVM.Core/ChangeTrackingCollection.cs:30 | on a valid collection, true exactly when some live item is missing from the baseline, some baseline item is missing from the live list, or modified is non-empty |
| `ChangeTracking.TrackingCollection.IsValid` | Mohsenmou.MVVM/Mohsenmou.MVVM.Core/ChangeTrackingCollection.cs:31 | true exactly when every live item is valid |
| `ChangeTracking.TrackingCollection.UpdateObservableCollection` | Mohsenmou.MVVM/Mohsenmou.MVVM.Core/ChangeTrackingCollection.cs:123-130 | the view afterwards is exactly the source, so nothing from an earlier recompute lingers |
| `ChangeTracking.TrackingCollection.OnCollectionChanged` | Mohsenmou.MVVM/Mohsenmou.MVVM.Core/ChangeTrackingCollection.cs:62-78 | added is the live items missing from the baseline, removed the baseline items missing from the live list, modified the changed live items of the baseline (so disjoint from both); a registered model list equals the items' models in order |
| `ChangeTracking.TrackingCollection.Add` | Mohsenmou.MVVM/Mohsenmou.MVVM.Core/ChangeTrackingCollection.cs:62-78 | the item is appended and the views are recomputed |
| `ChangeTracking.TrackingCollection.Insert` | Mohsenmou.MVVM/Mohsenmou.MVVM.Core/ChangeTrackingCollection.cs:62-78 | inserts at a valid index and recomputes the views; an invalid index changes nothing |
| `ChangeTracking.TrackingCollection.RemoveAt` | Mohsenmou.MVVM/Mohsenmou.MVVM.Core/ChangeTrackingCollection.cs:62-78 | removes at a valid index and recomputes the views; an invalid index changes nothing |
| `ChangeTracking.TrackingCollection.SetItem` | Mohsenmou.MVVM/Mohsenmou.MVVM.Core/ChangeTrackingCollection.cs:62-78 | replaces at a valid index and recomputes the views; an invalid index changes nothing |
| `ChangeTracking.TrackingCollection.Remove` | Mohsenmou.MVVM/Mohsenmou.MVVM.Core/ChangeTrackingCollection.cs:50 | removes the first occurrence and recomputes the views, reporting whether it was present; an absent item changes nothing |
| `ChangeTracking.TrackingCollection.Clear` | Mohsenmou.MVVM/Mohsenmou.MVVM.Core/ChangeTrackingCollection.cs:62-78 | the live list is empty and the views are recomputed |
| `ChangeTracking.TrackingCollection.ItemPropertyChanged` | Mohsenmou.MVVM/Mohsenmou.MVVM.Core/ChangeTrackingCollection.cs:93-122 | an IsValid notification, or one from an added item, leaves modified untouched; otherwise the item is in modified exactly when it is changed, added at the end once or removed; no other entry changes; modified stays duplicate-free |
| `ChangeTracking.TrackingCollection.AcceptChanges` | Mohsenmou.MVVM/Mohsenmou.MVVM.Core/ChangeTrackingCollection.cs:34-45 | every view is empty; the live list is unchanged and becomes the baseline; every live item is clean with unchanged validity; IsChanged is false |
| `ChangeTracking.TrackingCollection.RemoveEach` | Mohsenmou.MVVM/Mohsenmou.MVVM.Core/ChangeTrackingCollection.cs:48-51 | removing each snapshot item takes exactly those occurrences out of the live list, as multisets, and leaves the views recomputed |
| `ChangeTracking.TrackingCollection.RemoveNext` | Mohsenmou.MVVM/Mohsenmou.MVVM.Core/ChangeTrackingCollection.cs:50 | the next snapshot item is still present and one more occurrence of it is removed |
| `ChangeTracking.TrackingCollection.AddEach` | Mohsenmou.MVVM/Mohsenmou.MVVM.Core/ChangeTrackingCollection.cs:52-55 | the snapshot is appended to the live list, in order, and the views are recomputed |
| `ChangeTracking.TrackingCollection.RejectEach` | Mohsenmou.MVVM/Mohsenmou.MVVM.Core/ChangeTrackingCollection.cs:56-59 | every snapshot item is clean, modified ends empty and the invariant is kept |
| `ChangeTracking.TrackingCollection.RestoreMembers` | Mohsenmou.MVVM/Mohsenmou.MVVM.Core/ChangeTrackingCollection.cs:48-55 | the live list has exactly the baseline's members and added and removed are empty; after a real change modified lists every changed live item |
| `ChangeTracking.TrackingCollection.DropAdded` | Mohsenmou.MVVM/Mohsenmou.MVVM.Core/ChangeTrackingCollection.cs:48-51 | afterwards only baseline items are live and the invariant is kept; with added items the views are recomputed, with none nothing changes |
| `ChangeTracking.TrackingCollection.AddRemoved` | Mohsenmou.MVVM/Mohsenmou.MVVM.Core/ChangeTrackingCollection.cs:52-55 | once only baseline items are live, afterwards the live list has exactly the baseline's members; with removed items the views are recomputed, with none nothing changes |
| `ChangeTracking.TrackingCollection.RecomputedCoversChanged` | Mohsenmou.MVVM/Mohsenmou.MVVM.Core/ChangeTrackingCollection.cs:64-66 | right after a recompute over baseline items only, modified lists every changed live item and only baseline items |
| `ChangeTracking.TrackingCollection.RejectChanges` | Mohsenmou.MVVM/Mohsenmou.MVVM.Core/ChangeTrackingCollection.cs:46-61 | the live list equals the baseline as a set of references (order not restored); every view is empty and IsChanged is false; after additions or removals, or once every item change was reported, every live item is clean, and otherwise every previously modified item is; no item becomes changed; a registered model list follows the items, and without additions or removals the live list and model list stay as they were |
| `ModelWrapping.ModelWrapper.constructor` | Mohsenmou.MVVM/Mohsenmou.MVVM.Core/ModelWrapper.cs:15-27 | nothing is dirty or registered, IsChanged is false, the model has been validated |
| `ModelWrapping.ModelWrapper.Wrap` | Mohsenmou.MVVM/Mohsenmou.MVVM.Core/ModelWrapper.cs:17-20 | a null model fails with the parameter name "model" and no wrapper is produced; any other model is wrapped |
| `ModelWrapping.ModelWrapper.IsChanged` | Mohsenmou.MVVM/Mohsenmou.MVVM.Core/ModelWrapper.cs:29 | on a consistent ledger, true exactly when some property differs from its value as of the last commit, some child is changed or some collection reports a change |
| `ModelWrapping.ModelWrapper.IsValid` | Mohsenmou.MVVM/Mohsenmou.MVVM.Core/ModelWrapper.cs:31 | once validated, true exactly when no rule result names a member, every child is valid and every live item of every collection is valid |
| `ModelWrapping.ModelWrapper.GetValue` | Mohsenmou.MVVM/Mohsenmou.MVVM.Core/ModelWrapper.cs:78-82 | the model's value of the property, none for an unknown name |
| `ModelWrapping.ModelWrapper.GetIsChanged` | Mohsenmou.MVVM/Mohsenmou.MVVM.Core/ModelWrapper.cs:66-69 | true exactly when the property is in the ledger; on a valid wrapper, exactly when its live value differs from its original |
| `ModelWrapping.ModelWrapper.GetOriginalValue` | Mohsenmou.MVVM/Mohsenmou.MVVM.Core/ModelWrapper.cs:71-76 | the ledger value when the property is dirty, else the live value |
| `ModelWrapping.ModelWrapper.UpdateOriginalValue` | Mohsenmou.MVVM/Mohsenmou.MVVM.Core/ModelWrapper.cs:148-163 | the ledger becomes the ledger rule applied to the write |
| `ModelWrapping.ModelWrapper.SetValue` | Mohsenmou.MVVM/Mohsenmou.MVVM.Core/ModelWrapper.cs:108-120 | the new state follows the ledger's SetValue and the invariant is kept; a changing write re-validates; an equal value or an unknown name leaves the errors alone |
| `ModelWrapping.ModelWrapper.Validate` | Mohsenmou.MVVM/Mohsenmou.MVVM.Core/ModelWrapper.cs:165-187 | the error map is the grouping of the rules' results on the current values, and stays well formed |
| `ModelWrapping.ModelWrapper.StoreErrors` | Mohsenmou.MVVM/Mohsenmou.MVVM.Core/ModelWrapper.cs:167-185 | after the loop over the distinct member names, the error map equals GroupErrors of the results |
| `ModelWrapping.ModelWrapper.AcceptCollection` | Mohsenmou.MVVM/Mohsenmou.MVVM.Core/ModelWrapper.cs:40 | the collection is committed, its live list is unchanged, and every live item is clean with unchanged validity |
| `ModelWrapping.ModelWrapper.AcceptCollections` | Mohsenmou.MVVM/Mohsenmou.MVVM.Core/ModelWrapper.cs:38-41 | every registered collection is committed with clean items and an unchanged live list; no tracked object's validity changes and no clean one becomes changed |
| `ModelWrapping.ModelWrapper.CommittedCollectionsValid` | Mohsenmou.MVVM/Mohsenmou.MVVM.Core/ModelWrapper.cs:38-41 | committed collections keep their invariant |
| `ModelWrapping.ModelWrapper.AcceptChildren` | Mohsenmou.MVVM/Mohsenmou.MVVM.Core/ModelWrapper.cs:38-41 | every registered child is clean; no tracked object's validity changes and no clean one becomes changed |
| `ModelWrapping.ModelWrapper.AcceptTracked` | Mohsenmou.MVVM/Mohsenmou.MVVM.Core/ModelWrapper.cs:37-41 | the state is the ledger's AcceptChanges of the old one and the invariant is kept; every child is clean and every collection committed with clean items; the registered objects, live lists, model lists and every validity are kept; on objects already accepted nothing changes |
| `ModelWrapping.ModelWrapper.AcceptEach` | Mohsenmou.MVVM/Mohsenmou.MVVM.Core/ModelWrapper.cs:37-41 | the ledger is empty; every child is clean and every collection committed with clean items; the registered objects, live lists, model lists and every validity are kept; on objects already accepted nothing changes |
| `ModelWrapping.ModelWrapper.AcceptChanges` | Mohsenmou.MVVM/Mohsenmou.MVVM.Core/ModelWrapper.cs:35-44 | the ledger is empty and no value changes; every child is clean and every collection committed with clean items; the registered objects, live lists, model lists and every validity are kept, so IsValid is unchanged; IsChanged is false; on a wrapper already accepted nothing changes, so a second call is a no-op |
| `ModelWrapping.ModelWrapper.WriteBack` | Mohsenmou.MVVM/Mohsenmou.MVVM.Core/ModelWrapper.cs:48-51 | every recorded value is written straight into the model, every other value stays |
| `ModelWrapping.ModelWrapper.RestoreValues` | Mohsenmou.MVVM/Mohsenmou.MVVM.Core/ModelWrapper.cs:48-52 | the state is the ledger's RejectChanges of the old state and the invariant is kept; the collections' elements, their views (live, baseline, added, removed and modified lists, registration, model list) and which of their elements are changed are all untouched |
| `ModelWrapping.ModelWrapper.RejectCollection` | Mohsenmou.MVVM/Mohsenmou.MVVM.Core/ModelWrapper.cs:55 | no other collection of the list changes; the collection is restored and stands in the RolledBack relation to its old view: baseline and registration kept; after additions or removals every live item is clean and a registered model list is the items' models; without them the live list and model list are kept and every previously modified item is clean; if every item change had been reported, every live item is clean; no item of elements becomes changed, and the items reported clean are clean elements |
| `ModelWrapping.ModelWrapper.RejectCollections` | Mohsenmou.MVVM/Mohsenmou.MVVM.Core/ModelWrapper.cs:53-56 | every registered collection is restored and stands in the RolledBack relation to its view when the call began, with every element that ends clean counted as clean; no element becomes changed |
| `ModelWrapping.ModelWrapper.RolledBackMeans` | Mohsenmou.MVVM/Mohsenmou.MVVM.Core/ChangeTrackingCollection.cs:46-61 | spells out RolledBackWith for collections whose elements are given: each is restored with its old baseline and registration; after additions or removals every live item is clean and a registered model list is the items' models; without them the live list and the model list are kept and every previously modified item is clean |
| `ModelWrapping.ModelWrapper.NothingChanged` | Mohsenmou.MVVM/Mohsenmou.MVVM.Core/ModelWrapper.cs:29 | with an empty ledger, clean children and committed or restored collections, IsChanged is false |
| `ModelWrapping.ModelWrapper.RestoredCollectionsValid` | Mohsenmou.MVVM/Mohsenmou.MVVM.Core/ModelWrapper.cs:53-56 | restored collections keep their invariant |
| `ModelWrapping.ModelWrapper.RejectChildren` | Mohsenmou.MVVM/Mohsenmou.MVVM.Core/ModelWrapper.cs:53-56 | every registered child is clean; no item of s becomes changed; the values, the ledger, the invariant, the collections' views and their restored state are untouched |
| `ModelWrapping.ModelWrapper.RejectTracked` | Mohsenmou.MVVM/Mohsenmou.MVVM.Core/ModelWrapper.cs:53-56 | every child is clean; every collection is restored and stands in the RolledBack relation to its view when the call began; no element becomes changed; values and ledger untouched; the invariant is kept |
| `ModelWrapping.ModelWrapper.RejectTrackedAndValidate` | Mohsenmou.MVVM/Mohsenmou.MVVM.Core/ModelWrapper.cs:53-57 | as RejectTracked, and the errors are the grouping of the rules on the current values |
| `ModelWrapping.ModelWrapper.RejectChanges` | Mohsenmou.MVVM/Mohsenmou.MVVM.Core/ModelWrapper.cs:46-59 | every property gets its value as of the last commit and the ledger is empty; every child is clean; every collection is restored and stands in the RolledBack relation to its state when the call began (baseline and registration kept; after additions or removals every live item is clean and a registered model list follows the items; without them the live list and model list are kept and every previously modified item is clean); no item of the collections becomes changed; the model is re-validated; IsChanged is false |
| `ModelWrapping.ModelWrapper.RegisterComplex` | Mohsenmou.MVVM/Mohsenmou.MVVM.Core/ModelWrapper.cs:103-106 | a child is appended only when not yet registered, so each is registered at most once |
| `ModelWrapping.ModelWrapper.RegisterCollection` | Mohsenmou.MVVM/Mohsenmou.MVVM.Core/ModelWrapper.cs:91-101 | the collection keeps the model list in step from now on and is registered at most once |

## Left out

- **Notifications.** `PropertyChanged`, `ErrorsChanged` and `CollectionChanged` are not modelled as events, nor are their listeners or reentrancy through them. `AddError` and `ClearErrors` report in a result whether they would raise `ErrorsChanged`. `RegisterCollection`'s `CollectionChanged` handler is modelled as the model-list update in `OnCollectionChanged`. The wrapper's `TrackingObjectPropertyChanged` only forwards notifications and is not modelled.
- **Handler attach and detach.** `ChangeTrackingCollection.cs:19, 68-69, 79-92` subscribe and unsubscribe `ItemPropertyChanged`; these are not modelled. `ItemPropertyChanged` may be called with any item.
- `ChangeTracking.TrackingCollection.RejectChanges` ends with modified empty in every case, because the model does not track which items have the handler attached. The code differs whenever a changed baseline item B has no handler at reject time:
  - The condition: an earlier recompute listed B as removed and so detached its handler (`ChangeTrackingCollection.cs:65, 69, 86-92`). B is live again, but it was never in added, and only items in added get a handler attached (`:64, 68`). B is changed when reject runs.
  - B can be live again by two routes. Reject's second loop may add it back (`:52-55`). Or the caller may have put it back before reject (for example `Remove(B)` then `Add(B)`), so that both snapshot loops are empty.
  - Either way, the recompute lists B as modified (`:66`). Rejecting B (`:58`) cleans it, but its notification reaches no handler, so B stays in modified.
  - The code ends with modified = [B] and IsChanged true although B is clean. The model ends with modified empty and IsChanged false.
- `ModelWrapping.ModelWrapper.RejectChanges` ends with IsChanged false in every case. For a wrapper holding a collection in the state just described, the code keeps IsChanged true (`ModelWrapper.cs:29`, through the collection's IsChanged).
- **Reflection and DataAnnotations.**
  - The model object is a map from property name to value.
  - `Validator.TryValidateObject` is the wrapper's `rules` function, from the values to a list of (member names, message) results.
  - The wrapper's own `Validate(ValidationContext)` and `ValidateProperty` are part of that rule set.
- **Inheritance.** `ModelWrapper` derives from `NotifyDataErrorInfoBase`. The model gives the wrapper a `NotifyDataErrorInfo` object instead.
- **Tracked objects.** `ModelWrapper.RegisterComplex` takes an abstract tracked object (`Tracking.Trackable`), not a nested `ModelWrapper`. Its `AcceptChanges` promises that it is clean afterwards with its validity kept. Its `RejectChanges` promises only that it is clean, since an object that rolls its values back re-validates them. `InitializeComplexProperties` and `InitializeCollectionProperties` are empty hooks and are not modelled.
- **Collection operations.**
  - `ObservableCollection<T>.Move` is not modelled; the other list operations are.
  - The order of the live list after reject is not stated, because `Add` appends at the end.
- `ModelWrapping.ModelWrapper.RegisterCollection`: a collection registered a second time keeps only the latest model list. The code attaches a second handler, and both handlers rewrite their own lists.
- `ChangeTracking.TrackingCollection.RemoveEach` and `ChangeTracking.TrackingCollection.AddEach` require a non-empty snapshot. `RestoreMembers` calls them only then, since looping over an empty snapshot does nothing.
- `ModelWrapping.ModelWrapper.RejectCollections`: of `RejectCollection`'s clauses, the case where every item change had been reported (the collection's InSync state) is not carried across the loop, because that state depends on the items' change flags when the call began, which the RolledBack relation does not record. Without additions or removals it follows from the clauses kept: every changed live item was listed as modified.
- `ModelWrapping.ModelWrapper.RejectTracked`: does not state the InSync case, as for `RejectCollections`.
- `ModelWrapping.ModelWrapper.RejectTrackedAndValidate`: does not state the InSync case, as for `RejectCollections`.
- `ModelWrapping.ModelWrapper.RejectChanges`: does not state the InSync case, as for `RejectCollections`.
- **Other files.** `ModelPaginator.cs` (floating-point text layout), `FocusExtension.cs` (UI focus behaviour) and `GenericRepository.cs` (database persistence) are not part of this model.
