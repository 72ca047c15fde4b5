/** `GenericProviderMixin`: diff, apply and combine for a provider that converts a state's
    elements to an internal value `I` and back.  The mixin leaves the conversions and the
    set algebra to the provider (they raise NotImplementedError otherwise); here they are
    the fields of `Hooks`. */
module GenericProvider {
  import opened Errors
  import opened Model

  /** A provider's `STATE_TYPE` and its hooks: `convert_elements`, `convert_elements_back`,
      `diff_left_only`, `add_elements` and `remove_elements`. */
  datatype Hooks<!E, !I> = Hooks(
    stateType: string,
    convert: seq<E> -> Result<I>,
    convertBack: I -> seq<E>,
    leftOnly: (I, I) -> I,
    add: (I, I) -> I,
    remove: (I, I) -> I)

  /** `GenericProviderMixin.diff`: after the assertions, converts the actual then the desired
      elements (either may fail) and returns a desired partial of what only `desired` has
      and an undesired partial of what only `actual` has.  Neither carries the qualifier. */
  function Diff<E, I>(h: Hooks<E, I>, actual: SubsystemState<E>, desired: SubsystemState<E>)
    : (r: Result<(SubsystemState<E>, SubsystemState<E>)>)
    ensures !DiffAccepts(actual, desired) ==> r == Err(AssertionError)
    ensures DiffAccepts(actual, desired) && h.convert(actual.elements).Err? ==>
      r == Err(h.convert(actual.elements).error)
    ensures DiffAccepts(actual, desired) && h.convert(actual.elements).Ok? ==>
      (r.Err? <==> h.convert(desired.elements).Err?)
    ensures r.Ok? ==>
      var (add, remove) := r.value;
      var a, d := h.convert(actual.elements).value, h.convert(desired.elements).value;
      && add == SubsystemState(h.stateType, isPartial := true, elements := h.convertBack(h.leftOnly(d, a)))
      && remove == SubsystemState(h.stateType, isPartial := true, isDesired := false,
                                  elements := h.convertBack(h.leftOnly(a, d)))
  {
    if !DiffAccepts(actual, desired) then Err(AssertionError)
    else
      var actualPackages :- h.convert(actual.elements);
      var desiredPackages :- h.convert(desired.elements);
      var toAdd := h.leftOnly(desiredPackages, actualPackages);
      var toRemove := h.leftOnly(actualPackages, desiredPackages);
      Ok((SubsystemState(h.stateType, isPartial := true, elements := h.convertBack(toAdd)),
          SubsystemState(h.stateType, isDesired := false, isPartial := true, elements := h.convertBack(toRemove))))
  }

  /** `GenericProviderMixin.apply_partial_to_full`: after the assertions, a desired partial is
      added to `left` and an undesired one removed from it; the result is a full desired
      state named `STATE_TYPE`, without qualifier or anchors. */
  function ApplyPartialToFull<E, I>(h: Hooks<E, I>, left: SubsystemState<E>, partial: SubsystemState<E>)
    : (r: Result<SubsystemState<E>>)
    ensures !left.isDesired || !partial.isPartial ==> r == Err(AssertionError)
    ensures r.Ok? <==> left.isDesired && partial.isPartial
                       && h.convert(left.elements).Ok? && h.convert(partial.elements).Ok?
    ensures r.Ok? ==>
      var l, p := h.convert(left.elements).value, h.convert(partial.elements).value;
      r.value == SubsystemState(h.stateType,
                                elements := h.convertBack(if partial.isDesired then h.add(l, p) else h.remove(l, p)))
  {
    if !left.isDesired || !partial.isPartial then Err(AssertionError)
    else
      var leftPackages :- h.convert(left.elements);
      var partialPackages :- h.convert(partial.elements);
      var combined :=
        if partial.isDesired then h.add(leftPackages, partialPackages)
        else h.remove(leftPackages, partialPackages);
      Ok(SubsystemState(h.stateType, elements := h.convertBack(combined)))
  }

  /** The laws a provider's hooks need for its diffs to round-trip: converting back and
      forth is the identity, and removing what only `a` has and then adding what only `d`
      has turns `a` into `d`. */
  ghost predicate RoundTripLaws<E, I>(h: Hooks<E, I>, a: I, d: I) {
    && h.convert(h.convertBack(h.leftOnly(d, a))) == Ok(h.leftOnly(d, a))
    && h.convert(h.convertBack(h.leftOnly(a, d))) == Ok(h.leftOnly(a, d))
    && h.convert(h.convertBack(h.remove(a, h.leftOnly(a, d)))) == Ok(h.remove(a, h.leftOnly(a, d)))
    && h.convert(h.convertBack(d)) == Ok(d)
    && h.add(h.remove(a, h.leftOnly(a, d)), h.leftOnly(d, a)) == d
  }

  /** For hooks obeying the laws, applying the undesired partial of a diff and then its
      desired partial to `actual` gives a state whose elements convert to `desired`'s. */
  lemma DiffApplyRoundTrip<E, I>(h: Hooks<E, I>, actual: SubsystemState<E>, desired: SubsystemState<E>)
    requires DiffAccepts(actual, desired)
    requires h.convert(actual.elements).Ok? && h.convert(desired.elements).Ok?
    requires RoundTripLaws(h, h.convert(actual.elements).value, h.convert(desired.elements).value)
    ensures Diff(h, actual, desired).Ok?
    ensures var (add, remove) := Diff(h, actual, desired).value;
            var removed := ApplyPartialToFull(h, actual, remove);
            && removed.Ok?
            && var added := ApplyPartialToFull(h, removed.value, add);
            && added.Ok?
            && h.convert(added.value.elements) == h.convert(desired.elements)
  {
    var a, d := h.convert(actual.elements).value, h.convert(desired.elements).value;
    var (add, remove) := Diff(h, actual, desired).value;
    assert h.convert(remove.elements) == Ok(h.leftOnly(a, d));
    var removed := ApplyPartialToFull(h, actual, remove);
    assert removed.value.elements == h.convertBack(h.remove(a, h.leftOnly(a, d)));
    assert h.convert(add.elements) == Ok(h.leftOnly(d, a));
    var added := ApplyPartialToFull(h, removed.value, add);
    assert added.value.elements == h.convertBack(d);
  }

  /** `GenericProviderMixin.combine`: converts every state's elements in turn, remembering
      the first desired one, and then returns no state at all.  The only way it can differ
      from an empty list is the first conversion that fails. */
  method Combine<E, I>(h: Hooks<E, I>, states: seq<SubsystemState<E>>) returns (r: Result<seq<SubsystemState<E>>>)
    ensures r.Ok? <==> forall i :: 0 <= i < |states| ==> h.convert(states[i].elements).Ok?
    ensures r.Ok? ==> r.value == []
    ensures r.Err? ==> exists i :: 0 <= i < |states| && h.convert(states[i].elements) == Err(r.error)
                                   && forall j :: 0 <= j < i ==> h.convert(states[j].elements).Ok?
  {
    var desiredElements: Option<I> := None;
    for i := 0 to |states|
      invariant forall j :: 0 <= j < i ==> h.convert(states[j].elements).Ok?
    {
      var elements := h.convert(states[i].elements);
      if elements.Err? {
        return Err(elements.error);
      }
      if states[i].isDesired && desiredElements.None? {
        desiredElements := Some(elements.value);
      }
    }
    return Ok([]);
  }
}
