/** `model.py`: the serialized state of one subsystem, as the providers exchange it. */
module Model {
  import opened Errors

  /** `SubsystemState`, with the constructor's defaults: no qualifier, a full (not partial)
      desired state, no anchors and no elements. */
  datatype SubsystemState<E> = SubsystemState(
    name: string,
    qualifier: Option<string> := None,
    isPartial: bool := false,
    isDesired: bool := true,
    afterAnchor: Option<string> := None,
    beforeAnchor: Option<string> := None,
    elements: seq<E> := [])

  /** The assertions a provider's `diff` starts with: both states are full and desired and
      they have the same qualifier. */
  predicate DiffAccepts<E>(left: SubsystemState<E>, right: SubsystemState<E>) {
    && !left.isPartial && !right.isPartial
    && left.isDesired && right.isDesired
    && left.qualifier == right.qualifier
  }
}
