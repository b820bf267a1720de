/**
 * IValidatableTrackingObject: the contract a tracked child of a wrapper and
 * an item of a tracking collection offer. The concrete objects behind it (in
 * the repository, wrappers) are abstracted to their IsChanged and IsValid
 * state and the identity of the model they wrap.
 */
module Tracking {

  /** The identity of a wrapped model object (what Model returns). */
  type ModelRef = nat

  class Trackable {
    const model: ModelRef
    var isChanged: bool
    var isValid: bool

    constructor (model: ModelRef, isChanged: bool, isValid: bool)
      ensures this.model == model && this.isChanged == isChanged && this.isValid == isValid
    {
      this.model := model;
      this.isChanged := isChanged;
      this.isValid := isValid;
    }

    /** IRevertibleChangeTracking.AcceptChanges: the object is clean afterwards. */
    method AcceptChanges()
      modifies this
      ensures !isChanged && isValid == old(isValid)
    {
      isChanged := false;
    }

    /**
     * IRevertibleChangeTracking.RejectChanges: the object is clean afterwards.
     * Its validity is left open: an object that rolls its values back
     * re-validates them.
     */
    method RejectChanges()
      modifies this
      ensures !isChanged
    {
      isChanged := false;
    }
  }
}
