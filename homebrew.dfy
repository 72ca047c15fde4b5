/** `HomebrewProvider`: the homebrew state as three sets (taps, formulas, casks) on top of
    the generic provider driver, and the brew commands that realise a desired and an
    undesired partial state.  A state's elements are three groups: the taps as strings and
    the formulas and casks as objects with a `"name"` field. */
module Homebrew {
  import opened Errors
  import opened PyOrder
  import opened Model
  import Runner
  import GenericProvider

  /** `HomebrewProvider.STATE_TYPE`. */
  const StateType: string := "packages.homebrew"

  /** One item of a group as the state file holds it: a string, or an object of string
      fields. */
  datatype Raw = Str(s: string) | Obj(fields: map<string, string>)

  /** One of the three lists of a homebrew state's elements. */
  type Group = seq<Raw>

  /** The internal form `(taps, formulas, casks)`. */
  datatype Brew = Brew(taps: set<string>, formulas: set<string>, casks: set<string>)

  // ---------------------------------------------------------------------------------------
  // convert_elements

  /** `set(raw_taps)`: every tap must be hashable, and an object is not. */
  function Taps(group: Group): (r: Result<set<string>>)
    ensures r.Ok? <==> forall i :: 0 <= i < |group| ==> group[i].Str?
    ensures r.Err? ==> r.error == TypeError
    ensures r.Ok? ==> forall t :: t in r.value <==> Str(t) in group
  {
    if forall i :: 0 <= i < |group| ==> group[i].Str? then
      Ok(set x | x in group && x.Str? :: x.s)
    else
      Err(TypeError)
  }

  /** An item `item["name"]` can be read from. */
  predicate Named(x: Raw) {
    x.Obj? && "name" in x.fields
  }

  /** `item["name"]`: indexing a string by a string is a TypeError, a missing field a
      KeyError. */
  function NameOf(x: Raw): (r: Result<string>)
    ensures r.Ok? <==> Named(x)
    ensures r.Ok? ==> r.value == x.fields["name"]
    ensures r.Err? ==> r.error == (if x.Str? then TypeError else KeyError)
  {
    match x
    case Str(_) => Err(TypeError)
    case Obj(fields) => if "name" in fields then Ok(fields["name"]) else Err(KeyError)
  }

  /** `set(item["name"] for item in group)`: the names of all items, or the error of the
      first item without one. */
  function Names(group: Group): (r: Result<set<string>>)
    ensures r.Ok? <==> forall i :: 0 <= i < |group| ==> Named(group[i])
    ensures r.Ok? ==> forall n :: n in r.value <==>
      exists i :: 0 <= i < |group| && Named(group[i]) && group[i].fields["name"] == n
    ensures r.Err? ==>
      exists i :: 0 <= i < |group| && !Named(group[i]) && NameOf(group[i]) == Err(r.error)
                  && forall j :: 0 <= j < i ==> Named(group[j])
  {
    if group == [] then Ok({})
    else
      var first :- NameOf(group[0]);
      var rest :- Names(group[1..]);
      assert forall n :: n in rest <==>
        exists i :: 1 <= i < |group| && Named(group[i]) && group[i].fields["name"] == n by {
        forall n ensures n in rest ==>
          exists i :: 1 <= i < |group| && Named(group[i]) && group[i].fields["name"] == n {
          if n in rest {
            var i :| 0 <= i < |group[1..]| && Named(group[1..][i]) && group[1..][i].fields["name"] == n;
            assert group[i + 1] == group[1..][i];
          }
        }
        forall n ensures (exists i :: 1 <= i < |group| && Named(group[i]) && group[i].fields["name"] == n) ==> n in rest {
          if exists i :: 1 <= i < |group| && Named(group[i]) && group[i].fields["name"] == n {
            var i :| 1 <= i < |group| && Named(group[i]) && group[i].fields["name"] == n;
            assert group[1..][i - 1] == group[i];
          }
        }
      }
      Ok({first} + rest)
  }

  /** `convert_elements`: the elements must unpack into exactly three groups, read as taps,
      formulas and casks in that order; the taps are converted first, then the formulas,
      then the casks, and the first failure is the error. */
  function ConvertElements(elements: seq<Group>): (r: Result<Brew>)
    ensures |elements| != 3 ==> r == Err(ValueError)
    ensures r.Ok? <==> |elements| == 3 && Taps(elements[0]).Ok? && Names(elements[1]).Ok? && Names(elements[2]).Ok?
    ensures |elements| == 3 && Taps(elements[0]).Err? ==> r == Err(TypeError)
    ensures |elements| == 3 && Taps(elements[0]).Ok? && Names(elements[1]).Err? ==> r == Names(elements[1]).PropagateFailure()
    ensures r.Ok? ==> r.value.taps == Taps(elements[0]).value
                      && r.value.formulas == Names(elements[1]).value
                      && r.value.casks == Names(elements[2]).value
  {
    if |elements| != 3 then Err(ValueError)
    else
      var taps :- Taps(elements[0]);
      var formulas :- Names(elements[1]);
      var casks :- Names(elements[2]);
      Ok(Brew(taps, formulas, casks))
  }

  // ---------------------------------------------------------------------------------------
  // convert_elements_back

  /** `list(taps)`. */
  function StrGroup(ts: seq<string>): (r: Group)
    ensures |r| == |ts|
    ensures forall i :: 0 <= i < |r| ==> r[i] == Str(ts[i])
  {
    seq(|ts|, i requires 0 <= i < |ts| => Str(ts[i]))
  }

  /** `[{"name": n} for n in names]`. */
  function ObjGroup(ns: seq<string>): (r: Group)
    ensures |r| == |ns|
    ensures forall i :: 0 <= i < |r| ==> r[i] == Obj(map["name" := ns[i]])
  {
    seq(|ns|, i requires 0 <= i < |ns| => Obj(map["name" := ns[i]]))
  }

  /** `convert_elements_back`: taps, formulas and casks, each in one possible set order. */
  function ConvertElementsBack(b: Brew): seq<Group> {
    [StrGroup(SortedStrings(b.taps)), ObjGroup(SortedStrings(b.formulas)), ObjGroup(SortedStrings(b.casks))]
  }

  /** Taps written as strings read back as the same set. */
  lemma TapsOfStrGroup(ts: seq<string>)
    ensures Taps(StrGroup(ts)) == Ok(set t | t in ts)
  {
    var g := StrGroup(ts);
    assert forall i :: 0 <= i < |g| ==> g[i].Str?;
    forall t ensures t in Taps(g).value <==> t in ts {
      if Str(t) in g {
        var i :| 0 <= i < |g| && g[i] == Str(t);
        assert ts[i] == t;
      }
      if t in ts {
        var i :| 0 <= i < |ts| && ts[i] == t;
        assert g[i] == Str(t);
      }
    }
    assert Taps(g).value == set t | t in ts;
  }

  /** Names written as objects read back as the same set. */
  lemma NamesOfObjGroup(ns: seq<string>)
    ensures Names(ObjGroup(ns)) == Ok(set n | n in ns)
  {
    var g := ObjGroup(ns);
    assert forall i :: 0 <= i < |g| ==> Named(g[i]);
    forall n ensures n in Names(g).value <==> n in ns {
      if n in Names(g).value {
        var i :| 0 <= i < |g| && Named(g[i]) && g[i].fields["name"] == n;
        assert ns[i] == n;
      }
      if n in ns {
        var i :| 0 <= i < |ns| && ns[i] == n;
        assert g[i].fields["name"] == n;
      }
    }
    assert Names(g).value == set n | n in ns;
  }

  /** `convert_elements(convert_elements_back(b)) == b` for every triple of sets. */
  lemma ConvertRoundTrip(b: Brew)
    ensures ConvertElements(ConvertElementsBack(b)) == Ok(b)
  {
    TapsOfStrGroup(SortedStrings(b.taps));
    NamesOfObjGroup(SortedStrings(b.formulas));
    NamesOfObjGroup(SortedStrings(b.casks));
    SortedSet(b.taps);
    SortedSet(b.formulas);
    SortedSet(b.casks);
  }

  /** Listing a set in order loses and adds nothing. */
  lemma SortedSet(s: set<string>)
    ensures (set x | x in SortedStrings(s)) == s
  {
  }

  // ---------------------------------------------------------------------------------------
  // The set algebra

  /** `diff_left_only`: what `left` has that `right` lacks, component by component. */
  function DiffLeftOnly(left: Brew, right: Brew): Brew {
    Brew(left.taps - right.taps, left.formulas - right.formulas, left.casks - right.casks)
  }

  /** `add_elements`: component-wise union. */
  function AddElements(left: Brew, partial: Brew): Brew {
    Brew(left.taps + partial.taps, left.formulas + partial.formulas, left.casks + partial.casks)
  }

  /** `remove_elements`: component-wise difference. */
  function RemoveElements(left: Brew, partial: Brew): Brew {
    Brew(left.taps - partial.taps, left.formulas - partial.formulas, left.casks - partial.casks)
  }

  /** The left-only part is exactly what adding `left` to `right` contributes: it shares
      nothing with `right` and completes it to the union. */
  lemma LeftOnlyIsMissing(left: Brew, right: Brew)
    ensures var d := DiffLeftOnly(left, right);
            && d.taps !! right.taps && d.formulas !! right.formulas && d.casks !! right.casks
            && AddElements(right, d) == AddElements(right, left)
  {
  }

  /** Removing what only `actual` has and then adding what only `desired` has gives
      `desired`. */
  lemma RemoveThenAdd(actual: Brew, desired: Brew)
    ensures AddElements(RemoveElements(actual, DiffLeftOnly(actual, desired)), DiffLeftOnly(desired, actual)) == desired
  {
  }

  /** Removing a partial right after adding it leaves what removing it alone leaves. */
  lemma AddThenRemove(left: Brew, partial: Brew)
    ensures RemoveElements(AddElements(left, partial), partial) == RemoveElements(left, partial)
  {
  }

  // ---------------------------------------------------------------------------------------
  // diff and apply_partial_to_full through the generic driver

  /** The homebrew provider's hooks for the generic driver. */
  function Hooks(): GenericProvider.Hooks<Group, Brew> {
    GenericProvider.Hooks(StateType, ConvertElements, ConvertElementsBack, DiffLeftOnly, AddElements, RemoveElements)
  }

  /** Applying the undesired and then the desired partial of `diff(actual, desired)` to
      `actual` gives a state with `desired`'s taps, formulas and casks. */
  lemma DiffApplyRoundTrip(actual: SubsystemState<Group>, desired: SubsystemState<Group>)
    requires DiffAccepts(actual, desired)
    requires ConvertElements(actual.elements).Ok? && ConvertElements(desired.elements).Ok?
    ensures GenericProvider.Diff(Hooks(), actual, desired).Ok?
    ensures var (add, remove) := GenericProvider.Diff(Hooks(), actual, desired).value;
            var removed := GenericProvider.ApplyPartialToFull(Hooks(), actual, remove);
            && removed.Ok?
            && var added := GenericProvider.ApplyPartialToFull(Hooks(), removed.value, add);
            && added.Ok?
            && ConvertElements(added.value.elements) == ConvertElements(desired.elements)
  {
    var a, d := ConvertElements(actual.elements).value, ConvertElements(desired.elements).value;
    ConvertRoundTrip(DiffLeftOnly(d, a));
    ConvertRoundTrip(DiffLeftOnly(a, d));
    ConvertRoundTrip(RemoveElements(a, DiffLeftOnly(a, d)));
    ConvertRoundTrip(d);
    RemoveThenAdd(a, d);
    GenericProvider.DiffApplyRoundTrip(Hooks(), actual, desired);
  }

  // ---------------------------------------------------------------------------------------
  // to_commands

  /** `Runner.to_commands(command, names)` for a set of names, in one possible set order. */
  function Run(command: seq<string>, names: set<string>): (r: Result<seq<seq<string>>>)
    requires |command| < Runner.MaxCliParams
    ensures r.Ok?
    ensures r.value == [] <==> names == {}
    ensures forall i :: 0 <= i < |r.value| ==>
      && |command| < |r.value[i]| <= Runner.MaxCliParams
      && r.value[i][..|command|] == command
    ensures forall n :: n in Runner.ParamsAfter(r.value, |command|) <==> n in names
  {
    Runner.ToCommands(command, Some(SortedStrings(names)))
  }

  /** Commands that each run brew with at least one parameter after the subcommand. */
  ghost predicate BrewCommands(cs: seq<seq<string>>) {
    forall i :: 0 <= i < |cs| ==> 2 < |cs[i]| <= Runner.MaxCliParams && cs[i][0] == "brew"
  }

  /** A brew subcommand run over a set of names gives brew commands, each with a name. */
  lemma RunIsBrew(command: seq<string>, names: set<string>)
    requires 2 <= |command| < Runner.MaxCliParams && command[0] == "brew"
    ensures BrewCommands(Run(command, names).value)
  {
    var r := Run(command, names).value;
    forall i | 0 <= i < |r| ensures r[i][0] == "brew" {
      assert r[i][0] == r[i][..|command|][0];
    }
  }

  /** The three commands of one phase: `brew <tap>` for the taps, `brew <install>` for the
      formulas and `brew <install> --cask` for the casks, in that order.  A phase with
      nothing to do runs nothing. */
  function Phase(tap: string, install: string, b: Brew): (r: seq<seq<string>>)
    ensures BrewCommands(r)
    ensures r == [] <==> b.taps == {} && b.formulas == {} && b.casks == {}
    ensures r == Run(["brew", tap], b.taps).value + Run(["brew", install], b.formulas).value
                 + Run(["brew", install, "--cask"], b.casks).value
  {
    RunIsBrew(["brew", tap], b.taps);
    RunIsBrew(["brew", install], b.formulas);
    RunIsBrew(["brew", install, "--cask"], b.casks);
    var taps := Run(["brew", tap], b.taps).value;
    var formulas := Run(["brew", install], b.formulas).value;
    var casks := Run(["brew", install, "--cask"], b.casks).value;
    ConcatBrew(taps, formulas);
    ConcatBrew(taps + formulas, casks);
    taps + formulas + casks
  }

  /** Brew commands concatenated are still brew commands. */
  lemma ConcatBrew(a: seq<seq<string>>, b: seq<seq<string>>)
    requires BrewCommands(a) && BrewCommands(b)
    ensures BrewCommands(a + b)
  {
    forall i | 0 <= i < |a + b| ensures 2 < |(a + b)[i]| <= Runner.MaxCliParams && (a + b)[i][0] == "brew" {
      if i >= |a| {
        assert (a + b)[i] == b[i - |a|];
      }
    }
  }

  /** The elements of an absent state: three empty groups. */
  function ElementsOr(state: Option<SubsystemState<Group>>): seq<Group> {
    if state.None? then [[], [], []] else state.value.elements
  }

  /** `HomebrewProvider.to_commands`: tap, install and install the casks of the desired
      state, then untap, uninstall and uninstall the casks of the undesired one.  A missing
      state counts as empty; the desired elements are converted first, so their error wins. */
  function ToCommands(desired: Option<SubsystemState<Group>>, undesired: Option<SubsystemState<Group>>)
    : (r: Result<seq<seq<string>>>)
    ensures r.Ok? <==> ConvertElements(ElementsOr(desired)).Ok? && ConvertElements(ElementsOr(undesired)).Ok?
    ensures ConvertElements(ElementsOr(desired)).Err? ==> r == ConvertElements(ElementsOr(desired)).PropagateFailure()
    ensures desired.None? && undesired.None? ==> r == Ok([])
    ensures r.Ok? ==> BrewCommands(r.value)
    ensures r.Ok? ==> r.value == Phase("tap", "install", ConvertElements(ElementsOr(desired)).value)
                                 + Phase("untap", "uninstall", ConvertElements(ElementsOr(undesired)).value)
  {
    assert Taps([]).Ok? && Taps([]).value == {};
    assert Names([]).Ok? && Names([]).value == {};
    assert ConvertElements([[], [], []]) == Ok(Brew({}, {}, {}));
    var d :- ConvertElements(ElementsOr(desired));
    var u :- ConvertElements(ElementsOr(undesired));
    ConcatBrew(Phase("tap", "install", d), Phase("untap", "uninstall", u));
    Ok(Phase("tap", "install", d) + Phase("untap", "uninstall", u))
  }

  // ---------------------------------------------------------------------------------------
  // The layout gather_local writes

  /** The elements `gather_local` builds from the names it gathered, in the order it writes
      them: taps, casks, formulas. */
  function GatherLocal(taps: seq<string>, casks: seq<string>, formulas: seq<string>): seq<Group> {
    [StrGroup(taps), ObjGroup(casks), ObjGroup(formulas)]
  }

  /** Read back by `convert_elements`, a gathered state has its casks as formulas and its
      formulas as casks. */
  lemma GatherLocalSwaps(taps: seq<string>, casks: seq<string>, formulas: seq<string>)
    ensures ConvertElements(GatherLocal(taps, casks, formulas))
         == Ok(Brew(set t | t in taps, set c | c in casks, set f | f in formulas))
  {
    TapsOfStrGroup(taps);
    NamesOfObjGroup(casks);
    NamesOfObjGroup(formulas);
  }

  /** The only order of a one-element set. */
  lemma SingletonSorted(x: string)
    ensures SortedStrings({x}) == [x]
  {
    var r := SortedStrings({x});
    assert r[0] in {x};
  }

  /** With one cask installed and nothing else, the commands for reaching the gathered state
      from nothing install the cask as a formula. */
  lemma GatheredCaskInstalledAsFormula()
    ensures ToCommands(Some(SubsystemState(StateType, elements := GatherLocal([], ["firefox"], []))), None)
         == Ok([["brew", "install", "firefox"]])
  {
    GatherLocalSwaps([], ["firefox"], []);
    assert (set c | c in ["firefox"]) == {"firefox"};
    assert (set t: string | t in []) == {};
    SingletonSorted("firefox");
    assert Runner.Chunks(["firefox"], Runner.MaxCliParams - 2) == [["firefox"]];
    assert ["brew", "install"] + ["firefox"] == ["brew", "install", "firefox"];
    assert Runner.Prefixed(["brew", "install"], [["firefox"]]) == [["brew", "install", "firefox"]];
    assert Phase("tap", "install", Brew({}, {"firefox"}, {})) == [["brew", "install", "firefox"]];
  }

  /** `gather_local` with the groups in the layout `convert_elements` reads and
      `convert_elements_back` writes: taps, formulas, casks. */
  function GatherLocalFixed(taps: seq<string>, casks: seq<string>, formulas: seq<string>): seq<Group> {
    [StrGroup(taps), ObjGroup(formulas), ObjGroup(casks)]
  }

  /** In that layout every gathered name is read back in its own component. */
  lemma GatherLocalFixedRoundTrip(taps: seq<string>, casks: seq<string>, formulas: seq<string>)
    ensures ConvertElements(GatherLocalFixed(taps, casks, formulas))
         == Ok(Brew(set t | t in taps, set f | f in formulas, set c | c in casks))
  {
    TapsOfStrGroup(taps);
    NamesOfObjGroup(formulas);
    NamesOfObjGroup(casks);
  }
}
