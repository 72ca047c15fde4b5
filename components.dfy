/** A component: a named bag of elements that are all full values or all diffs, with its
    dependencies on other components.  Every operation builds a new component. */
module Components {
  import opened Errors
  import opened Elements

  /** A `dependency_key`: the component name and its qualifier. */
  datatype Key = Key(name: string, qualifier: seq<string>)

  datatype Component = Component(
    name: string,
    dependencies: seq<Key>,
    qualifier: seq<string>,
    elements: map<string, Element>)
  {
    /** `dependency_key`, the identity of a component inside a system. */
    function DependencyKey(): (k: Key)
      ensures k.name == name && k.qualifier == qualifier
    {
      Key(name, qualifier)
    }

    /** `is_diff`: every element is a diff (vacuously true without elements). */
    predicate IsDiff() {
      forall k :: k in elements ==> elements[k].IsDiff()
    }

    /** `is_full`: every element is a full value (vacuously true without elements). */
    predicate IsFull() {
      forall k :: k in elements ==> elements[k].IsFull()
    }

    /** `is_valid`: diff xor full, or no elements at all. */
    predicate IsValid() {
      (IsDiff() != IsFull()) || elements == map[]
    }

    /** `_validate_compatible`: both operands valid, with the same name, qualifier,
        dependencies and element names; otherwise ValueError. */
    function Compatible(other: Component): (r: Result<()>)
      ensures r.Ok? <==> && IsValid() && other.IsValid()
                         && name == other.name && qualifier == other.qualifier
                         && dependencies == other.dependencies
                         && elements.Keys == other.elements.Keys
      ensures r.Err? ==> r.error == ValueError
    {
      if !IsValid() || !other.IsValid() then Err(ValueError)
      else if name != other.name then Err(ValueError)
      else if qualifier != other.qualifier then Err(ValueError)
      else if dependencies != other.dependencies then Err(ValueError)
      else if elements.Keys != other.elements.Keys then Err(ValueError)
      else Ok(())
    }

    /** `diff`: element-wise diff of two compatible full components. */
    function Diff(other: Component, matcher: Matcher): (r: Result<Component>)
      ensures Compatible(other).Err? ==> r == Err(ValueError)
      ensures Compatible(other).Ok? && !(IsFull() && other.IsFull()) ==> r == Err(ValueError)
      ensures r.Ok? <==> && Compatible(other).Ok? && IsFull() && other.IsFull()
                         && forall k :: k in elements ==> Elements.Diff(elements[k], other.elements[k], matcher).Ok?
      ensures r.Ok? ==> && r.value.name == name && r.value.dependencies == dependencies
                        && r.value.qualifier == qualifier && r.value.elements.Keys == elements.Keys
      ensures r.Ok? ==> forall k :: k in elements ==>
                          Elements.Diff(elements[k], other.elements[k], matcher) == Ok(r.value.elements[k])
      ensures r.Ok? ==> r.value.IsDiff() && r.value.IsValid()
    {
      var _ :- Compatible(other);
      if !IsFull() || !other.IsFull() then Err(ValueError)
      else
        var rs := map k | k in elements :: Elements.Diff(elements[k], other.elements[k], matcher);
        assert forall k :: k in elements ==> rs[k] == Elements.Diff(elements[k], other.elements[k], matcher);
        var diffed :- Collect(rs);
        Ok(Component(name, dependencies, qualifier, diffed))
    }

    /** `zerodiff`: each element diffed from its kind's zero, without any validation. */
    function ZeroDiff(matcher: Matcher): (r: Result<Component>)
      ensures r.Ok? <==> forall k :: k in elements ==> ZeroDiffElement(elements[k], matcher).Ok?
      ensures r.Ok? ==> && r.value.name == name && r.value.dependencies == dependencies
                        && r.value.qualifier == qualifier && r.value.elements.Keys == elements.Keys
      ensures r.Ok? ==> forall k :: k in elements ==> ZeroDiffElement(elements[k], matcher) == Ok(r.value.elements[k])
      ensures r.Ok? ==> r.value.IsDiff()
    {
      var rs := map k | k in elements :: ZeroDiffElement(elements[k], matcher);
      assert forall k :: k in elements ==> rs[k] == ZeroDiffElement(elements[k], matcher);
      var diffed :- Collect(rs);
      Ok(Component(name, dependencies, qualifier, diffed))
    }

    /** `apply`: element-wise apply of a compatible diff component to a full one. */
    function Apply(other: Component): (r: Result<Component>)
      ensures Compatible(other).Err? ==> r == Err(ValueError)
      ensures Compatible(other).Ok? && !(IsFull() && other.IsDiff()) ==> r == Err(ValueError)
      ensures r.Ok? <==> && Compatible(other).Ok? && IsFull() && other.IsDiff()
                         && forall k :: k in elements ==> Elements.Apply(elements[k], other.elements[k]).Ok?
      ensures r.Ok? ==> && r.value.name == name && r.value.dependencies == dependencies
                        && r.value.qualifier == qualifier && r.value.elements.Keys == elements.Keys
      ensures r.Ok? ==> forall k :: k in elements ==>
                          Elements.Apply(elements[k], other.elements[k]) == Ok(r.value.elements[k])
      ensures r.Ok? ==> r.value.IsFull() && r.value.IsValid()
    {
      var _ :- Compatible(other);
      if !IsFull() || !other.IsDiff() then Err(ValueError)
      else
        var rs := map k | k in elements :: Elements.Apply(elements[k], other.elements[k]);
        assert forall k :: k in elements ==> rs[k] == Elements.Apply(elements[k], other.elements[k]);
        var applied :- Collect(rs);
        Ok(Component(name, dependencies, qualifier, applied))
    }

    /** `zeroapply`: each diff element applied to the zero of its full kind, without any
        validation. */
    function ZeroApply(): (r: Result<Component>)
      ensures r.Ok? <==> forall k :: k in elements ==> ZeroApplyElement(elements[k]).Ok?
      ensures r.Ok? ==> && r.value.name == name && r.value.dependencies == dependencies
                        && r.value.qualifier == qualifier && r.value.elements.Keys == elements.Keys
      ensures r.Ok? ==> forall k :: k in elements ==> ZeroApplyElement(elements[k]) == Ok(r.value.elements[k])
      ensures r.Ok? ==> r.value.IsFull()
    {
      var rs := map k | k in elements :: ZeroApplyElement(elements[k]);
      assert forall k :: k in elements ==> rs[k] == ZeroApplyElement(elements[k]);
      var applied :- Collect(rs);
      Ok(Component(name, dependencies, qualifier, applied))
    }

    /** `combine`: element-wise combine of two compatible full components. */
    function Combine(other: Component): (r: Result<Component>)
      ensures Compatible(other).Err? ==> r == Err(ValueError)
      ensures Compatible(other).Ok? && !(IsFull() && other.IsFull()) ==> r == Err(ValueError)
      ensures r.Ok? <==> && Compatible(other).Ok? && IsFull() && other.IsFull()
                         && forall k :: k in elements ==> Elements.Combine(elements[k], other.elements[k]).Ok?
      ensures r.Ok? ==> && r.value.name == name && r.value.dependencies == dependencies
                        && r.value.qualifier == qualifier && r.value.elements.Keys == elements.Keys
      ensures r.Ok? ==> forall k :: k in elements ==>
                          Elements.Combine(elements[k], other.elements[k]) == Ok(r.value.elements[k])
    {
      var _ :- Compatible(other);
      if !IsFull() || !other.IsFull() then Err(ValueError)
      else
        var rs := map k | k in elements :: Elements.Combine(elements[k], other.elements[k]);
        assert forall k :: k in elements ==> rs[k] == Elements.Combine(elements[k], other.elements[k]);
        var combined :- Collect(rs);
        Ok(Component(name, dependencies, qualifier, combined))
    }

    /** `copy`: copies every element; a ListDiff element raises NotImplementedError. */
    function Copy(): (r: Result<Component>)
      ensures r == Ok(this) || r == Err(NotImplementedError)
      ensures (forall k :: k in elements ==> DeepFull(elements[k])) ==> r == Ok(this)
      ensures (exists k :: k in elements && elements[k].ListDiff?) ==> r == Err(NotImplementedError)
    {
      var rs := map k | k in elements :: Elements.Copy(elements[k]);
      assert forall k :: k in elements ==> rs[k] == Elements.Copy(elements[k]);
      var copied :- Collect(rs);
      assert copied == elements;
      Ok(Component(name, dependencies, qualifier, copied))
    }

    /** The dataclass `==`: fields compared in order, stopping at the first difference; the
        element dicts compare values with the elements' own `==`, which may raise. */
    function Equals(other: Component): (r: Result<bool>)
      ensures r == Ok(true) <==> this == other
      ensures r.Err? ==> r.error == TypeError
      ensures (name != other.name || dependencies != other.dependencies || qualifier != other.qualifier
               || elements.Keys != other.elements.Keys) ==> r == Ok(false)
      ensures r.Err? ==> exists k :: k in elements && Elements.Equals(elements[k], other.elements[k]).Err?
    {
      if name != other.name || dependencies != other.dependencies || qualifier != other.qualifier
         || elements.Keys != other.elements.Keys then Ok(false)
      else if exists k :: k in elements && Elements.Equals(elements[k], other.elements[k]).Err? then Err(TypeError)
      else Ok(this == other)
    }
  }

  /** `element.zero().diff(element)`. */
  function ZeroDiffElement(e: Element, matcher: Matcher): (r: Result<Element>)
    ensures e.IsDiff() ==> r == Err(AttributeError)
    ensures r.Ok? ==> r.value.IsDiff() && r.value.KindOf() == e.KindOf()
  {
    var z :- Zero(e);
    Elements.Diff(z, e, matcher)
  }

  /** `element.full_type().zero().apply(element)`. */
  function ZeroApplyElement(d: Element): (r: Result<Element>)
    ensures d.IsFull() ==> r == Err(AttributeError)
    ensures r.Ok? ==> r.value.IsFull() && r.value.KindOf() == d.KindOf()
  {
    var z :- ZeroOfDiff(d);
    Elements.Apply(z, d)
  }

  // ---------------------------------------------------------------------------------------
  // Lemmas: the component laws
  // ---------------------------------------------------------------------------------------

  /** Validity means a homogeneous bag: all full or all diff. */
  lemma ValidIffHomogeneous(c: Component)
    ensures c.IsValid() <==> c.IsFull() || c.IsDiff()
    ensures c.IsFull() && c.IsDiff() <==> c.elements == map[]
  {
    if c.elements != map[] {
      var k :| k in c.elements;
      assert !(c.elements[k].IsFull() && c.elements[k].IsDiff());
    }
  }

  /** `c.apply(c.diff(d)) == d` whenever the diff succeeds. */
  lemma DiffApplyRoundTrip(c: Component, d: Component, matcher: Matcher)
    requires GoodMatcher(matcher) && EqualReplaceMatcher(matcher)
    requires c.Diff(d, matcher).Ok?
    ensures c.Apply(c.Diff(d, matcher).value) == Ok(d)
  {
    var diff := c.Diff(d, matcher).value;
    assert c.Compatible(diff).Ok?;
    forall k | k in c.elements ensures Elements.Apply(c.elements[k], diff.elements[k]) == Ok(d.elements[k]) {
      Elements.DiffApplyRoundTrip(c.elements[k], d.elements[k], matcher);
    }
    var r := c.Apply(diff);
    assert r.Ok?;
    assert r.value.elements == d.elements;
  }

  /** One element of the component round trip: the zero-apply of its zero-diff. */
  lemma ElementZeroRoundTrip(e: Element, matcher: Matcher)
    requires GoodMatcher(matcher) && DeepFull(e)
    ensures ZeroDiffElement(e, matcher).Ok?
    ensures ZeroApplyElement(ZeroDiffElement(e, matcher).value) == Ok(e)
  {
    Elements.ZeroRoundTrip(e, matcher);
    assert ZeroOfDiff(ZeroDiffElement(e, matcher).value) == Zero(e);
  }

  /** `c.zerodiff().zeroapply() == c` for a component of full values. */
  lemma ZeroRoundTrip(c: Component, matcher: Matcher)
    requires GoodMatcher(matcher)
    requires forall k :: k in c.elements ==> DeepFull(c.elements[k])
    ensures c.ZeroDiff(matcher).Ok?
    ensures c.ZeroDiff(matcher).value.ZeroApply() == Ok(c)
  {
    forall k | k in c.elements
      ensures ZeroDiffElement(c.elements[k], matcher).Ok?
      ensures ZeroApplyElement(ZeroDiffElement(c.elements[k], matcher).value) == Ok(c.elements[k])
    {
      ElementZeroRoundTrip(c.elements[k], matcher);
    }
    var z := c.ZeroDiff(matcher).value;
    var r := z.ZeroApply();
    assert r.Ok?;
    assert r.value.elements == c.elements;
  }

  /** A valid full component of list-free values combines with itself into itself. */
  lemma CombineIdempotent(c: Component)
    requires c.IsValid() && c.IsFull()
    requires forall k :: k in c.elements ==> Combinable(c.elements[k])
    ensures c.Combine(c) == Ok(c)
  {
    forall k | k in c.elements ensures Elements.Combine(c.elements[k], c.elements[k]) == Ok(c.elements[k]) {
      Elements.CombineIdempotent(c.elements[k]);
    }
    var r := c.Combine(c);
    assert r.Ok?;
    assert r.value.elements == c.elements;
  }

  /** Combining two compatible components made only of atoms gives the second one: the last
      write wins. */
  lemma CombineAtomsLastWins(c: Component, d: Component)
    requires c.Compatible(d).Ok?
    requires forall k :: k in c.elements ==> c.elements[k].Atom? && d.elements[k].Atom?
    ensures c.Combine(d) == Ok(d)
  {
    var r := c.Combine(d);
    assert r.Ok?;
    assert r.value.elements == d.elements;
  }

  /** A component equals itself, and `==` reports equality exactly for equal components when
      it does not raise. */
  lemma EqualsReflexive(c: Component, d: Component)
    ensures c.Equals(c) == Ok(true)
    ensures c.Equals(d).Ok? ==> (c.Equals(d).value <==> c == d)
  {
  }
}
