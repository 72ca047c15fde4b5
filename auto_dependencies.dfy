/** `auto_dependencies`: when homebrew installs the pipx or asdf formula, the pipx and asdf
    components of a system are marked as depending on the homebrew component.  The marks
    are appended in place to the dependency list of the component object the system's
    `components_by_dependency` dict maps to; for a repeated key that is the last one. */
module AutoDependencies {
  import opened Errors
  import opened Elements
  import opened Components
  import opened Systems

  const HomebrewKey: Key := Key("packages.homebrew", [])
  const PipxKey: Key := Key("packages.pipx", [])
  const AsdfKey: Key := Key("packages.asdf", [])

  /** `Atom(name) in element`: sets test membership of the atom, maps their keys and lists
      their items; every other kind of element has no `__contains__`, so `in` is a
      TypeError. */
  function Contains(e: Element, name: string): (r: Result<bool>)
    ensures r.Err? <==> !(e.Set? || e.Map? || e.List?)
    ensures r.Err? ==> r.error == TypeError
    ensures e.Set? ==> r == Ok(Atom(name) in e.items)
    ensures e.Map? ==> r == Ok(name in e.entries)
    ensures e.List? ==> r == Ok(name in e.atoms)
  {
    match e
    case Set(items) => Ok(Atom(name) in items)
    case Map(_, entries) => Ok(name in entries)
    case List(atoms) => Ok(name in atoms)
    case _ => Err(TypeError)
  }

  /** `_check_homebrew_for_package`: the homebrew component when it exists and lists the
      formula among its `simple_formulas` or its `formulas`; the lookups are dict indexing,
      so a homebrew component without those elements raises KeyError. */
  function CheckHomebrew(components: map<Key, Component>, formula: string): (r: Result<Option<Component>>)
    ensures HomebrewKey !in components ==> r == Ok(None)
    ensures r.Ok? && r.value.Some? ==> HomebrewKey in components && r.value.value == components[HomebrewKey]
    ensures HomebrewKey in components && "simple_formulas" !in components[HomebrewKey].elements ==>
      r == Err(KeyError)
  {
    if HomebrewKey !in components then Ok(None)
    else
      var homebrew := components[HomebrewKey];
      if "simple_formulas" !in homebrew.elements then Err(KeyError)
      else
        var simple :- Contains(homebrew.elements["simple_formulas"], formula);
        if simple then Ok(Some(homebrew))
        else if "formulas" !in homebrew.elements then Err(KeyError)
        else
          var complex :- Contains(homebrew.elements["formulas"], formula);
          if complex then Ok(Some(homebrew)) else Ok(None)
  }

  /** A homebrew component whose `simple_formulas` is a set and whose `formulas` is a map. */
  predicate WellFormedHomebrew(c: Component) {
    && "simple_formulas" in c.elements && c.elements["simple_formulas"].Set?
    && "formulas" in c.elements && c.elements["formulas"].Map?
  }

  /** For a well-formed homebrew component the check succeeds, and finds homebrew exactly
      when the formula is a simple formula or a key of the formulas map. */
  lemma CheckHomebrewIff(components: map<Key, Component>, formula: string)
    requires HomebrewKey in components ==> WellFormedHomebrew(components[HomebrewKey])
    ensures CheckHomebrew(components, formula).Ok?
    ensures CheckHomebrew(components, formula).value.Some? <==>
      && HomebrewKey in components
      && var hb := components[HomebrewKey];
      (Atom(formula) in hb.elements["simple_formulas"].items || formula in hb.elements["formulas"].entries)
  {
  }

  // ---------------------------------------------------------------------------------------
  // The component a key selects

  /** The index of the last component with the given key: the object
      `components_by_dependency` maps that key to. */
  function LastIndex(cs: seq<Component>, k: Key): (r: Option<nat>)
    ensures r.None? <==> forall i :: 0 <= i < |cs| ==> cs[i].DependencyKey() != k
    ensures r.Some? ==> r.value < |cs| && cs[r.value].DependencyKey() == k
                        && forall j :: r.value < j < |cs| ==> cs[j].DependencyKey() != k
  {
    if cs == [] then None
    else if cs[|cs| - 1].DependencyKey() == k then Some(|cs| - 1)
    else LastIndex(cs[..|cs| - 1], k)
  }

  /** `components_by_dependency()[k]` is the last component with key `k`. */
  lemma {:induction false} ByKeyIsLast(cs: seq<Component>, k: Key)
    ensures k in ByKey(cs) <==> LastIndex(cs, k).Some?
    ensures k in ByKey(cs) ==> ByKey(cs)[k] == cs[LastIndex(cs, k).value]
  {
    if cs != [] {
      var front := cs[..|cs| - 1];
      ByKeyIsLast(front, k);
      if cs[|cs| - 1].DependencyKey() != k && LastIndex(front, k).Some? {
        assert cs[LastIndex(front, k).value] == front[LastIndex(front, k).value];
      }
    }
  }

  // ---------------------------------------------------------------------------------------
  // Marking

  /** `cs[i].dependencies.append(k)`: the component at `i` gains the dependency `k` and
      nothing else changes. */
  function AppendDependency(cs: seq<Component>, i: nat, k: Key): (r: seq<Component>)
    requires i < |cs|
    ensures |r| == |cs|
    ensures r[i].dependencies == cs[i].dependencies + [k]
    ensures forall j :: 0 <= j < |cs| ==>
      && r[j].name == cs[j].name && r[j].qualifier == cs[j].qualifier && r[j].elements == cs[j].elements
      && (j != i ==> r[j] == cs[j])
  {
    cs[i := cs[i].(dependencies := cs[i].dependencies + [k])]
  }

  /** The homebrew check depends on the homebrew entry of the dict alone. */
  lemma CheckHomebrewLocal(m1: map<Key, Component>, m2: map<Key, Component>, formula: string)
    requires HomebrewKey in m1 <==> HomebrewKey in m2
    requires HomebrewKey in m1 ==> m1[HomebrewKey] == m2[HomebrewKey]
    ensures CheckHomebrew(m1, formula) == CheckHomebrew(m2, formula)
  {
  }

  /** The components after `_mark_pipx` (with `PipxKey`, "pipx") or `_mark_asdf` (with
      `AsdfKey`, "asdf"): when the marked component exists and homebrew provides the
      formula, the homebrew component's key is appended to that component's dependencies. */
  function Mark(cs: seq<Component>, target: Key, formula: string): (r: Result<seq<Component>>)
  {
    var i := LastIndex(cs, target);
    if i.None? then Ok(cs)
    else
      var source :- CheckHomebrew(ByKey(cs), formula);
      if source.None? then Ok(cs)
      else Ok(AppendDependency(cs, i.value, source.value.DependencyKey()))
  }

  /** Marking is a no-op when the marked component is missing or homebrew does not provide
      the formula. */
  lemma MarkNoOp(cs: seq<Component>, target: Key, formula: string)
    requires LastIndex(cs, target).None? || CheckHomebrew(ByKey(cs), formula) == Ok(None)
    ensures Mark(cs, target, formula) == Ok(cs)
  {
  }

  /** Marking fails exactly where the homebrew check fails, and appends the homebrew key
      to the component the target key selects exactly when homebrew provides the formula. */
  lemma MarkCases(cs: seq<Component>, target: Key, formula: string)
    ensures Mark(cs, target, formula).Err? <==>
      LastIndex(cs, target).Some? && CheckHomebrew(ByKey(cs), formula).Err?
    ensures LastIndex(cs, target).Some? && CheckHomebrew(ByKey(cs), formula).Ok?
            && CheckHomebrew(ByKey(cs), formula).value.Some? ==>
      Mark(cs, target, formula) == Ok(AppendDependency(cs, LastIndex(cs, target).value, HomebrewKey))
    ensures Mark(cs, target, formula).Ok? ==>
      || Mark(cs, target, formula).value == cs
      || (&& LastIndex(cs, target).Some?
          && Mark(cs, target, formula).value == AppendDependency(cs, LastIndex(cs, target).value, HomebrewKey))
  {
  }

  /** Marking changes nothing but the dependency list of the selected component, to which
      it appends the homebrew key. */
  lemma MarkOnlyDependencies(cs: seq<Component>, target: Key, formula: string)
    ensures Mark(cs, target, formula).Ok? ==>
      var r := Mark(cs, target, formula).value;
      && |r| == |cs|
      && forall i :: 0 <= i < |cs| ==>
           && r[i].name == cs[i].name && r[i].qualifier == cs[i].qualifier
           && r[i].elements == cs[i].elements
           && (r[i].dependencies == cs[i].dependencies
               || (Some(i) == LastIndex(cs, target) && r[i].dependencies == cs[i].dependencies + [HomebrewKey]))
  {
    MarkCases(cs, target, formula);
  }

  /** Marking keeps every key and every other component, so the homebrew check sees the same
      component again and the target key selects the same index. */
  lemma MarkKeepsCheck(cs: seq<Component>, target: Key, formula: string, other: string)
    requires target != HomebrewKey
    requires Mark(cs, target, formula).Ok?
    ensures CheckHomebrew(ByKey(Mark(cs, target, formula).value), other) == CheckHomebrew(ByKey(cs), other)
    ensures LastIndex(Mark(cs, target, formula).value, target) == LastIndex(cs, target)
  {
    var r := Mark(cs, target, formula).value;
    MarkCases(cs, target, formula);
    if r != cs {
      var i := LastIndex(cs, target).value;
      SameKeysSameLast(cs, r, target);
      SameKeysSameLast(cs, r, HomebrewKey);
      ByKeyIsLast(cs, HomebrewKey);
      ByKeyIsLast(r, HomebrewKey);
      if LastIndex(cs, HomebrewKey).Some? {
        assert LastIndex(cs, HomebrewKey).value != i;
      }
      CheckHomebrewLocal(ByKey(r), ByKey(cs), other);
    }
  }

  /** Lists with the same keys position by position select the same index for a key. */
  lemma {:induction false} SameKeysSameLast(a: seq<Component>, b: seq<Component>, k: Key)
    requires |a| == |b|
    requires forall i :: 0 <= i < |a| ==> a[i].DependencyKey() == b[i].DependencyKey()
    ensures LastIndex(a, k) == LastIndex(b, k)
  {
    if a != [] {
      SameKeysSameLast(a[..|a| - 1], b[..|b| - 1], k);
    }
  }

  /** When the target has a component and homebrew has the formula, marking appends the
      homebrew key to the target's last component. */
  lemma MarkAppends(cs: seq<Component>, target: Key, formula: string, i: nat)
    requires LastIndex(cs, target) == Some(i)
    requires CheckHomebrew(ByKey(cs), formula).Ok? && CheckHomebrew(ByKey(cs), formula).value.Some?
    ensures Mark(cs, target, formula) == Ok(AppendDependency(cs, i, HomebrewKey))
  {
    MarkCases(cs, target, formula);
  }

  /** Appending twice at one index leaves both copies of the key there. */
  lemma AppendTwice(cs: seq<Component>, i: nat, k: Key)
    requires i < |cs|
    ensures AppendDependency(AppendDependency(cs, i, k), i, k)[i].dependencies == cs[i].dependencies + [k, k]
  {
    assert cs[i].dependencies + [k] + [k] == cs[i].dependencies + [k, k];
  }

  /** Each call appends again: marking twice appends the homebrew key twice to the
      dependencies of the component `i` the target key selects. */
  lemma MarkTwiceDuplicates(cs: seq<Component>, target: Key, formula: string, i: nat)
    requires target != HomebrewKey
    requires LastIndex(cs, target) == Some(i)
    requires CheckHomebrew(ByKey(cs), formula).Ok? && CheckHomebrew(ByKey(cs), formula).value.Some?
    ensures Mark(cs, target, formula).Ok?
    ensures Mark(Mark(cs, target, formula).value, target, formula).Ok?
    ensures Mark(Mark(cs, target, formula).value, target, formula).value[i].dependencies
         == cs[i].dependencies + [HomebrewKey, HomebrewKey]
  {
    MarkAppends(cs, target, formula, i);
    var once := AppendDependency(cs, i, HomebrewKey);
    MarkKeepsCheck(cs, target, formula, formula);
    MarkAppends(once, target, formula, i);
    AppendTwice(cs, i, HomebrewKey);
  }

  /** `auto_mark_system_dependencies`: asdf first, then pipx. */
  function AutoMark(cs: seq<Component>): (r: Result<seq<Component>>) {
    var marked :- Mark(cs, AsdfKey, "asdf");
    Mark(marked, PipxKey, "pipx")
  }

  /** Auto-marking leaves the system's component list as it is, apart from dependencies:
      the same number of components, each with its name, qualifier and elements. */
  lemma AutoMarkOnlyDependencies(cs: seq<Component>)
    ensures AutoMark(cs).Ok? ==>
      && |AutoMark(cs).value| == |cs|
      && forall i :: 0 <= i < |cs| ==>
           && AutoMark(cs).value[i].name == cs[i].name
           && AutoMark(cs).value[i].qualifier == cs[i].qualifier
           && AutoMark(cs).value[i].elements == cs[i].elements
  {
    MarkOnlyDependencies(cs, AsdfKey, "asdf");
    if Mark(cs, AsdfKey, "asdf").Ok? {
      MarkOnlyDependencies(Mark(cs, AsdfKey, "asdf").value, PipxKey, "pipx");
    }
  }

  // ---------------------------------------------------------------------------------------
  // The system whose component objects are marked in place

  /** A system's components as the objects auto-marking appends to. */
  class LiveSystem {
    var components: seq<Component>

    constructor(components: seq<Component>)
      ensures this.components == components
    {
      this.components := components;
    }

    /** `_mark_pipx` / `_mark_asdf`: look the marked component up, then ask homebrew, then
        append the homebrew key to the component's dependencies.  An error leaves the
        components as they were. */
    method MarkFor(target: Key, formula: string) returns (r: Result<()>)
      modifies this
      ensures r.Ok? <==> Mark(old(components), target, formula).Ok?
      ensures r.Ok? ==> components == Mark(old(components), target, formula).value
      ensures r.Err? ==> components == old(components) && r.error == Mark(old(components), target, formula).error
    {
      var i := LastIndex(components, target);
      if i.None? {
        return Ok(());
      }
      var source := CheckHomebrew(ByKey(components), formula);
      if source.Err? {
        return Err(source.error);
      }
      if source.value.None? {
        return Ok(());
      }
      var pipx := components[i.value];
      components := components[i.value := pipx.(dependencies := pipx.dependencies + [source.value.value.DependencyKey()])];
      return Ok(());
    }

    /** `auto_mark_system_dependencies`: asdf first, then pipx. */
    method AutoMarkDependencies() returns (r: Result<()>)
      modifies this
      ensures r.Ok? <==> AutoMark(old(components)).Ok?
      ensures r.Ok? ==> components == AutoMark(old(components)).value
    {
      r := MarkFor(AsdfKey, "asdf");
      if r.Err? {
        return;
      }
      r := MarkFor(PipxKey, "pipx");
    }
  }
}
