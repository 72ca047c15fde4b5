/** `MultiversionPackageManagerMixin`: a package manager state as a map from package name to
    the set of versions installed, with diff, add and remove on those maps.  The elements of
    a subsystem state are `(package, versions)` pairs; repeated packages are merged.  Python
    set and list order is unspecified, so versions come out in one possible order: sorted. */
module Multiversion {
  import opened Errors
  import opened PyOrder
  import opened Model

  /** One element: a package and a list of its versions. */
  type Entry = (string, seq<string>)

  /** `dict[str, set[str]]`. */
  type Multiversions = map<string, set<string>>

  /** `m.get(p, set())`. */
  function Versions(m: Multiversions, p: string): set<string> {
    if p in m then m[p] else {}
  }

  /** `set(versions)`. */
  function SetOf(vs: seq<string>): set<string> {
    set v | v in vs
  }

  /** No package is recorded with an empty version set. */
  ghost predicate NoEmpty(m: Multiversions) {
    forall p :: p in m ==> m[p] != {}
  }

  // ---------------------------------------------------------------------------------------
  // _elements_to_multiversions

  /** The map the loop of `_elements_to_multiversions` has built after the given elements. */
  function Merge(elements: seq<Entry>): Multiversions {
    if elements == [] then map[]
    else
      var m := Merge(elements[..|elements| - 1]);
      var e := elements[|elements| - 1];
      m[e.0 := Versions(m, e.0) + SetOf(e.1)]
  }

  /** A package is present iff some entry names it. */
  lemma {:induction false} MergeKeys(elements: seq<Entry>)
    ensures forall p :: p in Merge(elements) <==> exists i :: 0 <= i < |elements| && elements[i].0 == p
  {
    if elements != [] {
      var front := elements[..|elements| - 1];
      MergeKeys(front);
      forall p ensures p in Merge(elements) <==> exists i :: 0 <= i < |elements| && elements[i].0 == p {
        if p in Merge(front) {
          var i :| 0 <= i < |front| && front[i].0 == p;
          assert elements[i] == front[i];
        }
        if exists i :: 0 <= i < |elements| && elements[i].0 == p {
          var i :| 0 <= i < |elements| && elements[i].0 == p;
          if i < |front| { assert front[i] == elements[i]; }
        }
      }
    }
  }

  /** A package's versions are the union of the versions of all entries naming it. */
  lemma {:induction false} MergeVersions(elements: seq<Entry>)
    ensures forall p, v :: v in Versions(Merge(elements), p) <==>
      exists i :: 0 <= i < |elements| && elements[i].0 == p && v in elements[i].1
  {
    if elements != [] {
      var front := elements[..|elements| - 1];
      MergeVersions(front);
      forall p, v ensures v in Versions(Merge(elements), p) <==>
        exists i :: 0 <= i < |elements| && elements[i].0 == p && v in elements[i].1
      {
        if v in Versions(Merge(front), p) {
          var i :| 0 <= i < |front| && front[i].0 == p && v in front[i].1;
          assert elements[i] == front[i];
        }
        if exists i :: 0 <= i < |elements| && elements[i].0 == p && v in elements[i].1 {
          var i :| 0 <= i < |elements| && elements[i].0 == p && v in elements[i].1;
          if i < |front| { assert front[i] == elements[i]; }
        }
      }
    }
  }

  /** `_elements_to_multiversions`: `setdefault` then `|=` for every entry in turn. */
  method ElementsToMultiversions(elements: seq<Entry>) returns (result: Multiversions)
    ensures result == Merge(elements)
  {
    result := map[];
    for i := 0 to |elements|
      invariant result == Merge(elements[..i])
    {
      var (package, versions) := elements[i];
      if package !in result {
        result := result[package := {}];
      }
      result := result[package := result[package] + SetOf(versions)];
      assert elements[..i + 1][..i] == elements[..i];
    }
    assert elements[..|elements|] == elements;
  }

  // ---------------------------------------------------------------------------------------
  // _multiversions_to_elements

  /** `(package, list(versions))` for every package of `ps`, in that order. */
  function Entries(mv: Multiversions, ps: seq<string>): (r: seq<Entry>)
    requires forall i :: 0 <= i < |ps| ==> ps[i] in mv
    ensures |r| == |ps|
    ensures forall i :: 0 <= i < |r| ==> r[i].0 == ps[i] && SetOf(r[i].1) == mv[ps[i]]
  {
    seq(|ps|, i requires 0 <= i < |ps| => (ps[i], SortedStrings(mv[ps[i]])))
  }

  /** `_multiversions_to_elements`: one entry per package, in ascending package order, each
      listing exactly that package's versions. */
  function ToElements(mv: Multiversions): (r: seq<Entry>)
    ensures |r| == |mv|
    ensures forall i :: 0 <= i < |r| ==> r[i].0 in mv && SetOf(r[i].1) == mv[r[i].0]
    ensures forall p :: p in mv ==> exists i :: 0 <= i < |r| && r[i].0 == p
    ensures forall i, j :: 0 <= i < |r| && j == i + 1 && j < |r| ==> StrLess(r[i].0, r[j].0)
    ensures forall i, j :: 0 <= i < j < |r| ==> r[i].0 != r[j].0
  {
    var ps := SortedStrings(mv.Keys);
    EntriesOfSorted(mv, ps);
    Entries(mv, ps)
  }

  /** Entries for the packages listed once each in ascending order: one per package, each
      with that package's versions, in the same order. */
  lemma EntriesOfSorted(mv: Multiversions, ps: seq<string>)
    requires ListsSorted(ps, mv.Keys)
    ensures forall i :: 0 <= i < |ps| ==> ps[i] in mv
    ensures var r := Entries(mv, ps);
      && |r| == |mv|
      && (forall i :: 0 <= i < |r| ==> r[i].0 in mv && SetOf(r[i].1) == mv[r[i].0])
      && (forall p :: p in mv ==> exists i :: 0 <= i < |r| && r[i].0 == p)
      && (forall i, j :: 0 <= i < |r| && j == i + 1 && j < |r| ==> StrLess(r[i].0, r[j].0))
      && (forall i, j :: 0 <= i < j < |r| ==> r[i].0 != r[j].0)
  {
    assert forall i :: 0 <= i < |ps| ==> ps[i] in mv.Keys;
    var r := Entries(mv, ps);
    assert |mv.Keys| == |mv|;
    EntriesCover(mv, ps);
    forall i, j | 0 <= i < |r| && j == i + 1 && j < |r| ensures StrLess(r[i].0, r[j].0) {
      assert r[i].0 == ps[i] && r[j].0 == ps[j];
    }
    forall i, j | 0 <= i < j < |r| ensures r[i].0 != r[j].0 {
      assert r[i].0 == ps[i] && r[j].0 == ps[j];
    }
  }

  /** Every package listed in `ps` has an entry. */
  lemma EntriesCover(mv: Multiversions, ps: seq<string>)
    requires forall i :: 0 <= i < |ps| ==> ps[i] in mv
    ensures forall p :: p in ps ==> exists i :: 0 <= i < |Entries(mv, ps)| && Entries(mv, ps)[i].0 == p
  {
    forall p | p in ps ensures exists i :: 0 <= i < |Entries(mv, ps)| && Entries(mv, ps)[i].0 == p {
      var i :| 0 <= i < |ps| && ps[i] == p;
      assert Entries(mv, ps)[i].0 == p;
    }
  }

  /** In elements that name every package once, a package's versions are those of its
      entry. */
  lemma MergeDistinctAt(elements: seq<Entry>, i: int)
    requires forall j, k :: 0 <= j < k < |elements| ==> elements[j].0 != elements[k].0
    requires 0 <= i < |elements|
    ensures Versions(Merge(elements), elements[i].0) == SetOf(elements[i].1)
  {
    MergeVersions(elements);
    var p := elements[i].0;
    forall v ensures v in Versions(Merge(elements), p) <==> v in SetOf(elements[i].1) {
      if v in Versions(Merge(elements), p) {
        var j :| 0 <= j < |elements| && elements[j].0 == p && v in elements[j].1;
        assert j == i;
      }
    }
  }

  /** Maps that agree on their keys and on every package's versions are equal. */
  lemma SameVersions(a: Multiversions, b: Multiversions)
    requires a.Keys == b.Keys
    requires forall p :: Versions(a, p) == Versions(b, p)
    ensures a == b
  {
    forall p | p in a ensures a[p] == b[p] {
      assert Versions(a, p) == Versions(b, p);
    }
  }

  /** Reading back the elements written for a map gives that map. */
  lemma MergeToElements(mv: Multiversions)
    ensures Merge(ToElements(mv)) == mv
  {
    var r := ToElements(mv);
    var m := Merge(r);
    MergeKeys(r);
    forall p ensures Versions(m, p) == Versions(mv, p) {
      if p in mv {
        var i :| 0 <= i < |r| && r[i].0 == p;
        MergeDistinctAt(r, i);
      } else {
        assert p !in m;
      }
    }
    assert m.Keys == mv.Keys;
    SameVersions(m, mv);
  }

  // ---------------------------------------------------------------------------------------
  // _diff_multiversion

  /** The versions of each package of `l` missing from `r`; packages with none are absent. */
  function DiffSpec(l: Multiversions, r: Multiversions): Multiversions {
    map p | p in l && l[p] - Versions(r, p) != {} :: l[p] - Versions(r, p)
  }

  /** A map of non-empty sets whose versions for every package are those of `l` missing
      from `r` is the diff. */
  lemma VersionsDetermineDiff(d: Multiversions, l: Multiversions, r: Multiversions)
    requires NoEmpty(d)
    requires forall p :: Versions(d, p) == Versions(l, p) - Versions(r, p)
    ensures d == DiffSpec(l, r)
  {
    var s := DiffSpec(l, r);
    forall p | p in d ensures p in s && d[p] == s[p] {
      assert Versions(d, p) == d[p];
    }
    forall p | p in s ensures p in d {
      assert Versions(d, p) == s[p];
    }
    assert d.Keys == s.Keys;
  }

  /** `_diff_multiversion`: for each version of each package of `left`, record it when
      `right` lacks it.  Every package gets exactly the versions `left` has and `right`
      lacks, so the result holds exactly the (package, version) pairs of `left` missing from
      `right`; no package is left with an empty set. */
  method DiffMultiversion(left: Multiversions, right: Multiversions) returns (result: Multiversions)
    ensures forall p :: Versions(result, p) == Versions(left, p) - Versions(right, p)
    ensures NoEmpty(result)
    ensures result == DiffSpec(left, right)
  {
    result := map[];
    var packages := left.Keys;
    while packages != {}
      invariant packages <= left.Keys
      invariant forall p ::
        Versions(result, p) == (if p in packages then {} else Versions(left, p) - Versions(right, p))
      invariant NoEmpty(result)
      decreases packages
    {
      var package :| package in packages;
      var versions := left[package];
      while versions != {}
        invariant versions <= left[package]
        invariant forall p :: p != package ==>
          Versions(result, p) == (if p in packages then {} else Versions(left, p) - Versions(right, p))
        invariant Versions(result, package) == (left[package] - versions) - Versions(right, package)
        invariant NoEmpty(result)
        decreases versions
      {
        var version :| version in versions;
        if version !in Versions(right, package) {
          result := result[package := Versions(result, package) + {version}];
        }
        versions := versions - {version};
      }
      packages := packages - {package};
    }
    VersionsDetermineDiff(result, left, right);
  }

  // ---------------------------------------------------------------------------------------
  // _add_multiversion and _remove_multiversion

  /** Union of keys, union of versions per key. */
  function AddSpec(l: Multiversions, a: Multiversions): Multiversions {
    map p | p in l.Keys + a.Keys :: Versions(l, p) + Versions(a, p)
  }

  /** The keys and versions of `AddSpec`, package by package. */
  lemma AddSpecVersions(l: Multiversions, a: Multiversions)
    ensures AddSpec(l, a).Keys == l.Keys + a.Keys
    ensures forall p :: Versions(AddSpec(l, a), p) == Versions(l, p) + Versions(a, p)
  {
  }

  /** Versions subtracted per key; packages emptied by a subtraction are dropped. */
  function RemoveSpec(l: Multiversions, rm: Multiversions): Multiversions {
    map p | p in l && (p !in rm || l[p] - rm[p] != {}) :: l[p] - Versions(rm, p)
  }

  /** `result[package] = set(versions)` for every package of `left`: a copy of `left`. */
  method CopyMultiversions(left: Multiversions) returns (result: Multiversions)
    ensures result == left
  {
    result := map[];
    var packages := left.Keys;
    while packages != {}
      invariant packages <= left.Keys
      invariant result.Keys == left.Keys - packages
      invariant forall p :: p in result ==> result[p] == left[p]
      decreases packages
    {
      var package :| package in packages;
      result := result[package := left[package]];
      packages := packages - {package};
    }
  }

  /** The map `_add_multiversion` holds once every package of `toAdd` outside `pending` has
      been added. */
  function AddedSoFar(left: Multiversions, toAdd: Multiversions, pending: set<string>): Multiversions {
    map p | p in left.Keys + (toAdd.Keys - pending) ::
      Versions(left, p) + (if p in toAdd && p !in pending then toAdd[p] else {})
  }

  /** After every package is added the map is `AddSpec`. */
  lemma AddedAll(left: Multiversions, toAdd: Multiversions)
    ensures AddedSoFar(left, toAdd, {}) == AddSpec(left, toAdd)
  {
  }

  /** Before any package is added the map is `left`. */
  lemma AddedNone(left: Multiversions, toAdd: Multiversions)
    ensures AddedSoFar(left, toAdd, toAdd.Keys) == left
  {
    var start := AddedSoFar(left, toAdd, toAdd.Keys);
    assert start.Keys == left.Keys;
    forall p | p in start ensures start[p] == left[p] {
    }
  }

  /** Adding one more pending package updates that package alone. */
  lemma AddedStep(left: Multiversions, toAdd: Multiversions, pending: set<string>, package: string)
    requires package in pending && package in toAdd
    ensures var before := AddedSoFar(left, toAdd, pending);
            AddedSoFar(left, toAdd, pending - {package}) ==
              before[package := Versions(before, package) + toAdd[package]]
  {
    var before := AddedSoFar(left, toAdd, pending);
    var after := AddedSoFar(left, toAdd, pending - {package});
    var updated := before[package := Versions(before, package) + toAdd[package]];
    assert after.Keys == updated.Keys;
    forall p | p in after ensures after[p] == updated[p] {
    }
  }

  /** `_add_multiversion`: copy `left`, then `setdefault` and `|=` for every package of
      `to_add`.  The keys are the union of both key sets and each package gets the union of
      its versions on both sides. */
  method AddMultiversion(left: Multiversions, toAdd: Multiversions) returns (result: Multiversions)
    ensures result.Keys == left.Keys + toAdd.Keys
    ensures forall p :: Versions(result, p) == Versions(left, p) + Versions(toAdd, p)
    ensures result == AddSpec(left, toAdd)
  {
    result := CopyMultiversions(left);
    var adding := toAdd.Keys;
    AddedNone(left, toAdd);
    while adding != {}
      invariant adding <= toAdd.Keys
      invariant result == AddedSoFar(left, toAdd, adding)
      decreases adding
    {
      var package :| package in adding;
      AddedStep(left, toAdd, adding, package);
      // `setdefault(package, set())` followed by `|=`
      result := result[package := Versions(result, package) + toAdd[package]];
      adding := adding - {package};
    }
    AddedAll(left, toAdd);
    AddSpecVersions(left, toAdd);
  }

  /** `_remove_multiversion`: copy `left`, then for every package of `to_remove` subtract its
      versions and drop the package when nothing is left.  Keys found only in `to_remove` are
      created by `setdefault` and dropped again at once, so no key is introduced. */
  method RemoveMultiversion(left: Multiversions, toRemove: Multiversions) returns (result: Multiversions)
    ensures result.Keys <= left.Keys
    ensures forall p :: Versions(result, p) == Versions(left, p) - Versions(toRemove, p)
    ensures forall p :: p in toRemove && p in result ==> result[p] != {}
    ensures result == RemoveSpec(left, toRemove)
  {
    result := CopyMultiversions(left);
    var removing := toRemove.Keys;
    while removing != {}
      invariant removing <= toRemove.Keys
      invariant forall p :: p in result <==>
        p in left && (p !in toRemove || p in removing || left[p] - toRemove[p] != {})
      invariant forall p ::
        Versions(result, p) == Versions(left, p) - (if p in removing then {} else Versions(toRemove, p))
      decreases removing
    {
      var package :| package in removing;
      if package !in result {
        result := result[package := {}];
      }
      result := result[package := result[package] - toRemove[package]];
      if result[package] == {} {
        result := result - {package};
      }
      removing := removing - {package};
    }
    SameVersions(result, RemoveSpec(left, toRemove));
  }

  // ---------------------------------------------------------------------------------------
  // The map round trip

  /** The round trip at one package: the versions both sides share survive the removal and
      the versions only `r` has are added back. */
  lemma RemoveThenAddAt(l: Multiversions, r: Multiversions, p: string)
    requires NoEmpty(l) && NoEmpty(r)
    ensures var result := AddSpec(RemoveSpec(l, DiffSpec(l, r)), DiffSpec(r, l));
            (p in result <==> p in r) && (p in r ==> result[p] == r[p])
  {
    var lv, rv := Versions(l, p), Versions(r, p);
    var toRemove := DiffSpec(l, r);
    var removed := RemoveSpec(l, toRemove);
    var toAdd := DiffSpec(r, l);
    assert Versions(toRemove, p) == lv - rv;
    assert Versions(removed, p) == lv - (lv - rv);
    assert Versions(toAdd, p) == rv - lv;
    assert p in removed ==> lv - (lv - rv) != {};
    assert (lv - (lv - rv)) + (rv - lv) == rv;
  }

  /** Removing `l − r` from `l` and then adding `r − l` gives `r`, provided neither side
      records a package with no versions. */
  lemma RemoveThenAdd(l: Multiversions, r: Multiversions)
    requires NoEmpty(l) && NoEmpty(r)
    ensures AddSpec(RemoveSpec(l, DiffSpec(l, r)), DiffSpec(r, l)) == r
  {
    var result := AddSpec(RemoveSpec(l, DiffSpec(l, r)), DiffSpec(r, l));
    forall p ensures (p in result <==> p in r) && (p in r ==> result[p] == r[p]) {
      RemoveThenAddAt(l, r, p);
    }
    assert result.Keys == r.Keys;
  }

  /** A package recorded with no versions is lost by the round trip: it is never part of a
      difference, so it survives in `l` and never appears from `r`. */
  lemma EmptyVersionsBreakRoundTrip()
    ensures var l: Multiversions := map[];
            var r: Multiversions := map["pkg" := {}];
            AddSpec(RemoveSpec(l, DiffSpec(l, r)), DiffSpec(r, l)) != r
  {
    var l: Multiversions := map[];
    var r: Multiversions := map["pkg" := {}];
    assert DiffSpec(r, l) == map[];
    assert "pkg" !in AddSpec(RemoveSpec(l, DiffSpec(l, r)), DiffSpec(r, l));
  }

  // ---------------------------------------------------------------------------------------
  // diff and apply_partial_to_full on subsystem states

  /** `MultiversionPackageManagerMixin.diff`: the desired partial holds what `right` has and
      `left` lacks, the undesired partial what `left` has and `right` lacks; neither carries
      the qualifier. */
  function Diff(stateType: string, left: SubsystemState<Entry>, right: SubsystemState<Entry>)
    : (r: Result<(SubsystemState<Entry>, SubsystemState<Entry>)>)
    ensures r.Err? <==> !DiffAccepts(left, right)
    ensures r.Err? ==> r.error == AssertionError
    ensures r.Ok? ==>
      var (add, remove) := r.value;
      && add.name == stateType && add.isPartial && add.isDesired && add.qualifier.None?
      && remove.name == stateType && remove.isPartial && !remove.isDesired && remove.qualifier.None?
      && Merge(add.elements) == DiffSpec(Merge(right.elements), Merge(left.elements))
      && Merge(remove.elements) == DiffSpec(Merge(left.elements), Merge(right.elements))
  {
    if !DiffAccepts(left, right) then Err(AssertionError)
    else
      var leftPackages := Merge(left.elements);
      var rightPackages := Merge(right.elements);
      var toAdd := DiffSpec(rightPackages, leftPackages);
      var toRemove := DiffSpec(leftPackages, rightPackages);
      MergeToElements(toAdd);
      MergeToElements(toRemove);
      Ok((SubsystemState(stateType, isPartial := true, elements := ToElements(toAdd)),
          SubsystemState(stateType, isDesired := false, isPartial := true, elements := ToElements(toRemove))))
  }

  /** `MultiversionPackageManagerMixin.apply_partial_to_full`: a desired partial is added, an
      undesired one removed; the result is a full desired state without qualifier. */
  function ApplyPartialToFull(stateType: string, left: SubsystemState<Entry>, partial: SubsystemState<Entry>)
    : (r: Result<SubsystemState<Entry>>)
    ensures r.Err? <==> !left.isDesired || !partial.isPartial
    ensures r.Err? ==> r.error == AssertionError
    ensures r.Ok? ==>
      && r.value.name == stateType && !r.value.isPartial && r.value.isDesired
      && r.value.qualifier.None?
      && Merge(r.value.elements) ==
           if partial.isDesired then AddSpec(Merge(left.elements), Merge(partial.elements))
           else RemoveSpec(Merge(left.elements), Merge(partial.elements))
  {
    if !left.isDesired || !partial.isPartial then Err(AssertionError)
    else
      var leftPackages := Merge(left.elements);
      var partialPackages := Merge(partial.elements);
      var combined :=
        if partial.isDesired then AddSpec(leftPackages, partialPackages)
        else RemoveSpec(leftPackages, partialPackages);
      MergeToElements(combined);
      Ok(SubsystemState(stateType, elements := ToElements(combined)))
  }

  /** Applying the undesired partial of a diff and then its desired partial to `left` gives
      `right`'s packages and versions, provided neither state lists a package without
      versions only. */
  lemma DiffApplyRoundTrip(stateType: string, left: SubsystemState<Entry>, right: SubsystemState<Entry>)
    requires DiffAccepts(left, right)
    requires NoEmpty(Merge(left.elements)) && NoEmpty(Merge(right.elements))
    ensures Diff(stateType, left, right).Ok?
    ensures var (add, remove) := Diff(stateType, left, right).value;
            var removed := ApplyPartialToFull(stateType, left, remove);
            && removed.Ok?
            && var added := ApplyPartialToFull(stateType, removed.value, add);
            && added.Ok?
            && Merge(added.value.elements) == Merge(right.elements)
  {
    RemoveThenAdd(Merge(left.elements), Merge(right.elements));
  }
}
