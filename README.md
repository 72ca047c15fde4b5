# ready-set-deploy, modelled in Dafny

ready-set-deploy describes a machine as a **system**: a list of **components**, such as
the Homebrew packages or the pipx packages. Each component holds named **elements**:
atoms, sets, maps and lists of atoms.

The core of the tool does three things:

- It **diffs** two full systems into a diff system.
- It **applies** a diff system to a full system.
- It **combines** two full systems into one.

It does each of these at every level: element, component and system. Providers do the
same for a subsystem's serialized state (`SubsystemState`).

The project models that core as 17 Dafny modules, one file each:

| module | models |
|---|---|
| `Errors` | Python's exceptions as a `Result` (TypeError, ValueError, KeyError, IndexError, AttributeError, NotImplementedError, AssertionError) |
| `PyOrder` | Python's ordering of strings, tuples and `order=True` dataclasses; `sorted` |
| `Elements` | `elements.py`: every element kind with diff, apply, zero, copy, `==`, the list opcode replay and `Set.add`/`remove` |
| `Components` | `components.py`: `Component` and its validity checks, diff, apply, combine, zerodiff, zeroapply and copy |
| `Systems` | `systems.py`: `components_by_dependency`, validity and diff |
| `SystemApply` | `System.apply`: a specification function and the two loops of the source |
| `SystemCombine` | `System.combine`: a specification function and the two loops of the source |
| `SystemIteration` | `System.__iter__`: rounds of unblocked components in dependency order |
| `SystemRoundTrip` | `A.apply(A.diff(B)) == B`, and the two inputs for which it fails |
| `AutoDependencies` | `auto_dependencies.py`: marking pipx and asdf as depending on Homebrew |
| `Model` | `model.py`: `SubsystemState` with its defaults |
| `GenericProvider` | `providers/generic.py`, over the provider's conversion hooks |
| `Homebrew` | `providers/homebrew.py`: conversions, set algebra, `to_commands` and the `gather_local` layout |
| `Multiversion` | `providers/multiversion_packages.py` (`plugins/base.py` carries a copy of the same mixin) |
| `Runner` | `runner.py` and `plugins/base.py`: `to_commands` chunking with `more_itertools.chunked` |
| `Itertools` | `itertools.py`: `dict_matching`, `iter_matching` |
| `Config` | `config.py`: `_merge_configs`, `_flatten_dict` and the `gather.`/`render.` split |

The modelling choices:

- **Exceptions.** Every exception the source raises is an `Err` of `Errors.Result`.
- **Unordered dicts.** When several entries of an unordered dict can fail, the functions
  report one fixed error among them (`Errors.FirstError`).
- **Python dicts and sets.** They become Dafny maps and sets. Where the source iterates
  one and the order shows in the output, the model picks one order: sorted
  (`PyOrder.SortedStrings`), or first occurrence for the keys of `components_by_dependency`.
- **Map classes.** `Map`, `NestedMap` and `MultiMap` share one constructor with a class
  tag (`Elements.MapClass`), and so do their diff classes. Every `isinstance` check between
  them compares the tags.
- **difflib.** `SequenceMatcher.get_grouped_opcodes` is a `Matcher` parameter. The list
  round trip assumes that the matcher's spans align the two lists, skipping only equal
  runs (`Elements.GoodMatcher`). The list diff emits a `replace` as written, one overwrite
  per index of other's span, so the round trips that go through it also assume that no
  `replace` pairs spans of different lengths (`Elements.EqualReplaceMatcher`).
- **In-place updates.** Code that updates state in place is a class or a method with a
  loop. `auto_dependencies` appending to a component's dependencies is
  `AutoDependencies.LiveSystem`. `_flatten_dict`'s shared `current_path` is
  `Config.Flattener`. `Set.add`/`remove` is `Elements.SetObject`, and `_apply_opcodes` is
  `Elements.ListObject`. Each is proved against a specification function.

## Model

| member | source | states |
|---|---|---|
| Errors.FirstError | ready_set_deploy/systems.py:64-79 | the error reported for a failing dict comprehension is one of the errors raised, and the first by a fixed rank |
| Errors.Collect | ready_set_deploy/elements.py:237-264 | a dict of results succeeds iff every entry does, keeps the keys and values, and otherwise reports an error some entry raised |
| PyOrder.StrTotal | ready_set_deploy/components.py:8 | Python string order is irreflexive and total |
| PyOrder.StrsTotal | ready_set_deploy/components.py:8 | tuple-of-strings order (the qualifier) is irreflexive and total |
| PyOrder.KeyTotal | ready_set_deploy/components.py:40-42 | the order on `(name, qualifier)` dependency keys is irreflexive and total |
| PyOrder.KeysTotal | ready_set_deploy/components.py:8 | the order on lists of dependency keys is irreflexive and total |
| PyOrder.ComponentTotal | ready_set_deploy/components.py:8-13 | the `order=True` dataclass order (name, dependencies, qualifier) is irreflexive and orders any two components with different keys |
| PyOrder.StrTrans | ready_set_deploy/components.py:8 | string order is transitive |
| PyOrder.Insert | ready_set_deploy/systems.py:46 | insertion keeps the multiset and adds the element |
| PyOrder.Sort | ready_set_deploy/systems.py:46 | `sorted` returns a permutation of its input |
| PyOrder.InsertSorted | ready_set_deploy/systems.py:46 | inserting a component with a new key into a sorted list keeps it sorted |
| PyOrder.SortSorted | ready_set_deploy/systems.py:46 | `sorted` of components with distinct keys is sorted |
| PyOrder.InsertDistinct | ready_set_deploy/systems.py:46 | insertion keeps dependency keys distinct |
| PyOrder.SortDistinct | ready_set_deploy/systems.py:46 | sorting keeps dependency keys distinct |
| PyOrder.StrMinUnique | ready_set_deploy/providers/multiversion_packages.py:16 | a set of strings has at most one least element |
| PyOrder.StrMinExists | ready_set_deploy/providers/multiversion_packages.py:16 | a non-empty set of strings has a least element |
| PyOrder.ConsMin | ready_set_deploy/providers/multiversion_packages.py:16 | the least element followed by the sorted rest is the sorted set |
| PyOrder.SortedStrings | ready_set_deploy/providers/multiversion_packages.py:16 | `sorted(set)` lists every member once, in strictly increasing order |
| Elements.Equals | ready_set_deploy/elements.py:299-303 | `==` raises TypeError when a full element meets another class, a Map, NestedMap or MultiMap of another map class included; two maps of one class with the same keys raise exactly when some shared key's values raise; whenever `==` answers, it answers structural equality, and an element equals itself (also 98-102, 183-187, 502-506) |
| Elements.Copy | ready_set_deploy/elements.py:57-61 | copy of a full element or an AtomDiff/SetDiff/MapDiff equals the original (72-73, 115-116, 137-138, 201-202, 223-227, 318-323, 413-414); ListDiff inherits this copy and raises NotImplementedError |
| Elements.Zero | ready_set_deploy/elements.py:75-77 | `zero` is defined exactly on full elements and is `""`, the empty set, the empty map or the empty list of the same class (also 140-142, 229-231, 416-418) |
| Elements.ZeroOfDiff | ready_set_deploy/elements.py:49-55 | a diff element's `full_type().zero()` is a full element of the matching kind |
| Elements.Diff | ready_set_deploy/elements.py:83-87 | diff of a diff element raises AttributeError, against another class (another map class included) raises TypeError, and when it succeeds yields a diff of the same kind and map class; a map diff also raises TypeError when a shared key's values are of different classes (NestedClassMismatch); a list diff emits one overwrite per index of other's span in a `replace`, as written (also 148-152, 237-248, 424-447) |
| Elements.Apply | ready_set_deploy/elements.py:250-264 | apply raises AttributeError on a diff receiver and TypeError on the wrong diff kind, a NestedMapDiff or MultiMapDiff applied to a Map included; map apply raises KeyError for a removed key the map lacks and succeeds iff every set key exists and its value applies |
| Elements.Combine | tests/test_elements.py:57-59 | atoms: the other wins; sets: union; maps: one-sided keys kept, shared keys combined; other classes raise |
| Elements.MergeShared | tests/test_elements.py:192-195 | the merged map has the union of keys, one-sided values and the combined shared values |
| Elements.EmitSpan | ready_set_deploy/elements.py:428-442 | an unknown opcode tag raises ValueError |
| Elements.Step | ready_set_deploy/elements.py:449-466 | an unknown list op raises ValueError |
| Elements.ReplaySpansPrefix | ready_set_deploy/elements.py:424-466 | after replaying the ops of the first n spans, the list is other's prefix followed by self's suffix |
| Elements.ListRoundTrip | ready_set_deploy/elements.py:424-472 | for aligned spans (with equal-length replaces, or with the corrected replace), replaying the emitted ops turns self into other without error |
| Elements.DiffApplyRoundTrip | tests/test_elements.py:12-15 | `a.apply(a.diff(b)) == b` for every element kind whose diff succeeds, when no `replace` pairs spans of different lengths |
| Elements.MapRoundTrip | ready_set_deploy/elements.py:237-264 | map diff then apply reproduces other when each changed value round-trips |
| Elements.MergeRebuilds | ready_set_deploy/elements.py:254-262 | removing, setting and adding the diff's keys rebuilds the other map |
| Elements.ZeroRoundTrip | ready_set_deploy/elements.py:75-93 | applying `zero().diff(e)` to the zero gives `e` back |
| Elements.NoReplaceFromEmpty | ready_set_deploy/elements.py:424-447 | aligned spans from an empty list hold no `replace`, so the list diff as written round-trips from the zero |
| Elements.NestedClassMismatch | ready_set_deploy/elements.py:243-245 | a shared key whose values are of different classes makes map diff raise at its `!=`, and makes map `==` raise when the key sets agree (299-301) |
| Elements.MapDiffPartition | ready_set_deploy/elements.py:237-248 | map diff removes `a − b`, adds `b − a` with b's values, and sets exactly the shared keys whose values differ, to their element diff |
| Elements.CombineIdempotent | tests/test_elements.py:57-59 | combining an element with itself gives it back |
| Elements.CombineZeroLeft | tests/test_elements.py:77-79 | combining the zero with an element gives the element |
| Elements.CombineEmptyMap | tests/test_elements.py:229-232 | combining the empty map with a map gives that map |
| Elements.SetDiffDisjoint | ready_set_deploy/elements.py:148-152 | set diff's additions and removals are disjoint, additions are new, removals are present, and both are empty iff the sets are equal |
| Elements.UnequalReplaceBreaksRoundTrip | ready_set_deploy/elements.py:434-436 | for `["p"]` to `["q","r"]` the as-written replace emits two overwrites and replay raises IndexError |
| Elements.FixedReplaceAgrees | ready_set_deploy/elements.py:434-436 | the corrected replace emits the same ops as the written one when the spans have equal length |
| Elements.FixedEmitAgrees | ready_set_deploy/elements.py:424-447 | with equal-length replaces, the corrected and the written diff emit the same ops |
| Elements.AppendRange | ready_set_deploy/elements.py:434-438 | the loop appending one op per index of other's range equals the specification's range of ops |
| Elements.AppendDeletes | ready_set_deploy/elements.py:439-441 | the loop appending one delete per index of self's range equals the specification's deletes |
| Elements.AppendSpan | ready_set_deploy/elements.py:430-442 | one opcode's branch appends that span's ops |
| Elements.ListDiffEntries | ready_set_deploy/elements.py:424-447 | the nested loop over grouped opcodes equals the ops emitted for the flattened spans |
| Elements.GroupEntries | ready_set_deploy/elements.py:429-442 | the inner loop over one group extends the ops of the spans before it |
| Elements.MapApplyIs | ready_set_deploy/elements.py:250-264 | map apply is `(m − removed) + set values + added items` |
| Elements.MapApplyEntries | ready_set_deploy/elements.py:254-262 | after map apply, added keys carry the added value, set keys carry the applied value, and every other kept key is unchanged |
| Elements.RemoveKeys | ready_set_deploy/elements.py:255-256 | the `del` loop succeeds iff every key is present, giving `m − keys`, and otherwise raises KeyError |
| Elements.SetKeys | ready_set_deploy/elements.py:259-260 | the set loop succeeds iff every key is present and its value applies, and stores each applied value |
| Elements.AddKeys | ready_set_deploy/elements.py:257-258 | the add loop overwrites with the added items |
| Elements.MapApply | ready_set_deploy/elements.py:250-264 | the in-place loops compute the specification's map apply and raise TypeError (a diff of another kind or map class) and KeyError as it does |
| Elements.SetObject.Add | ready_set_deploy/elements.py:160-165 | `add` inserts the value into the receiver's own set and returns the receiver |
| Elements.SetObject.Remove | ready_set_deploy/elements.py:167-172 | `remove` drops the value from the receiver's own set and returns the receiver |
| Elements.ListObject.ApplyOpcodes | ready_set_deploy/elements.py:449-466 | the in-place loop over opcodes leaves the list and error of the specification's replay |
| Elements.ListObject.ApplyInPlace | ready_set_deploy/elements.py:468-472 | list apply edits the receiver in place and returns it; a non-ListDiff raises TypeError and leaves it unchanged |
| Components.Component.DependencyKey | ready_set_deploy/components.py:40-42 | the dependency key is `(name, qualifier)` |
| Components.Component.Compatible | ready_set_deploy/components.py:53-65 | binary operations accept two valid components with equal name, qualifier, dependencies and element names; anything else raises ValueError |
| Components.Component.Diff | ready_set_deploy/components.py:67-81 | diff needs compatible full operands, keeps name, dependencies, qualifier and element names, diffs each element, and is a valid diff |
| Components.Component.ZeroDiff | ready_set_deploy/components.py:83-89 | zerodiff keeps the component's identity and diffs each element from its zero |
| Components.Component.Apply | ready_set_deploy/components.py:91-105 | apply needs a full receiver and a diff operand, keeps identity, applies each element, and is valid and full |
| Components.Component.ZeroApply | ready_set_deploy/components.py:107-113 | zeroapply keeps identity and applies each element to its zero |
| Components.Component.Combine | ready_set_deploy/components.py:115-129 | combine needs compatible full operands, keeps identity and combines each element |
| Components.Component.Copy | ready_set_deploy/components.py:131-137 | copy equals the original, or raises NotImplementedError when a ListDiff is copied |
| Components.Component.Equals | ready_set_deploy/components.py:8-13 | dataclass `==` is true exactly for equal components, false when name, dependencies, qualifier or element names differ, and raises only from an element comparison |
| Components.ZeroDiffElement | ready_set_deploy/components.py:87 | an element's `zero().diff(e)` raises AttributeError on a diff and is otherwise a diff of the same kind |
| Components.ZeroApplyElement | ready_set_deploy/components.py:111 | `full_type().zero().apply(d)` raises AttributeError on a full element and is otherwise full of the same kind |
| Components.ValidIffHomogeneous | ready_set_deploy/components.py:44-51 | a component is valid iff all its elements are full or all are diff; it is both exactly when it has none |
| Components.DiffApplyRoundTrip | tests/test_components.py:8-13 | `c.apply(c.diff(d)) == d`, when no list `replace` pairs spans of different lengths |
| Components.ElementZeroRoundTrip | ready_set_deploy/components.py:83-113 | an element's zerodiff then zeroapply gives it back |
| Components.ZeroRoundTrip | tests/test_components.py:27-31 | `c.zerodiff().zeroapply() == c` |
| Components.CombineIdempotent | ready_set_deploy/components.py:115-129 | a full component combined with itself is itself |
| Components.CombineAtomsLastWins | tests/test_components.py:15-19 | combining atom-only components gives the second |
| Components.EqualsReflexive | tests/test_components.py:33-36 | a component equals itself, and `==` agrees with structural equality whenever it answers |
| Systems.ByKey | ready_set_deploy/systems.py:23-24 | every component's key is in the map, and each entry is a component of the system under its own key |
| Systems.Order | ready_set_deploy/systems.py:23-24 | the dict's keys, each once |
| Systems.ByKeyDistinct | ready_set_deploy/systems.py:23-24 | with distinct keys, the map sends each component's key to that component |
| Systems.DistinctCounts | ready_set_deploy/systems.py:145-149 | with distinct keys, every component occurs once |
| Systems.SameKeyMapSameSystem | ready_set_deploy/systems.py:145-149 | two systems with distinct keys and the same key map are equal under `__eq__` (equal sorted component lists) |
| Systems.Compatible | ready_set_deploy/systems.py:50-54 | both systems valid, else ValueError |
| Systems.RemovedKey | ready_set_deploy/systems.py:71 | the placeholder's key is `("component.remove", (name, *qualifier))`, from which the removed key is recovered |
| Systems.Placeholder | ready_set_deploy/systems.py:70-74 | the removal placeholder has that key, no dependencies, and is a valid diff component |
| Systems.AddedEntry | ready_set_deploy/systems.py:64-68 | a key only in the target yields its zerodiff |
| Systems.RemovedEntry | ready_set_deploy/systems.py:70-74 | a key only in the source yields its placeholder, others nothing |
| Systems.ChangedEntry | ready_set_deploy/systems.py:75-79 | a shared key whose components differ yields their diff |
| Systems.Comprehension | ready_set_deploy/systems.py:64-79 | a dict comprehension succeeds iff every key's entry does |
| Systems.ComprehensionMembers | ready_set_deploy/systems.py:64-79 | the comprehension's values are exactly the entries that yield a component |
| Systems.Diff | ready_set_deploy/systems.py:56-59 | diff raises ValueError unless both systems are valid and full |
| Systems.DiffParts | ready_set_deploy/systems.py:81-86 | diff's components are the added, then removed, then changed comprehensions |
| Systems.DiffDistinct | ready_set_deploy/systems.py:56-86 | diff's components have distinct keys |
| Systems.DiffComponents | ready_set_deploy/systems.py:56-86 | diff holds a zerodiff per added key, a placeholder per removed key and a diff per changed key, and nothing else |
| Systems.ByKeyCover | ready_set_deploy/systems.py:23-24 | a list with distinct keys whose members are exactly a key map's values has that key map |
| SystemApply.Removals | ready_set_deploy/systems.py:96-98 | removal keys are read from placeholders' qualifiers; an empty qualifier raises IndexError |
| SystemApply.ApplyChecks | ready_set_deploy/systems.py:89-91 | apply raises ValueError unless both systems are valid, the receiver full and the operand diff |
| SystemApply.KeptEntry | ready_set_deploy/systems.py:100-109 | a receiver key not removed is copied, or applied when the diff has it |
| SystemApply.NewEntry | ready_set_deploy/systems.py:111-117 | a diff key not yet present and not a placeholder is zeroapplied |
| SystemApply.Apply | ready_set_deploy/systems.py:88-91 | apply fails with ValueError on the checks and otherwise needs a valid full receiver and a diff operand |
| SystemApply.KeepLoop | ready_set_deploy/systems.py:99-109 | the first loop equals the kept-entries comprehension and collects the kept keys |
| SystemApply.NewLoop | ready_set_deploy/systems.py:111-117 | the second loop extends the result with the new-entries comprehension |
| SystemApply.ApplyInLoops | ready_set_deploy/systems.py:88-119 | the two loops compute the specification function `Apply` |
| SystemCombine.CombinedEntry | ready_set_deploy/systems.py:130-135 | a key of self is copied, or combined when other has it |
| SystemCombine.CopiedEntry | ready_set_deploy/systems.py:137-141 | a key only in other is copied |
| SystemCombine.Combine | ready_set_deploy/systems.py:121-124 | combine raises ValueError unless both systems are valid and full |
| SystemCombine.CombineLoop | ready_set_deploy/systems.py:129-135 | the first loop equals the combined-entries comprehension |
| SystemCombine.CopyLoop | ready_set_deploy/systems.py:137-141 | the second loop extends the result with the copied-entries comprehension |
| SystemCombine.CombineInLoops | ready_set_deploy/systems.py:121-143 | the two loops compute the specification function `Combine` |
| SystemCombine.UnionMapIsUnion | ready_set_deploy/systems.py:121-143 | the union-by-key map keeps one-sided components and combines shared ones |
| SystemCombine.LoopsUnion | ready_set_deploy/systems.py:129-143 | the two loops' output has distinct keys and is the union by key |
| SystemCombine.CombineKeyMap | ready_set_deploy/systems.py:121-143 | combine is the union by key, with shared keys combined |
| SystemCombine.CombineSucceeds | ready_set_deploy/systems.py:121-143 | two valid full systems whose shared components combine always combine |
| SystemCombine.CombineIdempotent | tests/test_systems.py:34-45 | a system combined with itself has its own key map |
| SystemIteration.UnblockedSound | ready_set_deploy/systems.py:43 | every component of a round is waiting and has no waiting dependency |
| SystemIteration.UnblockedComplete | ready_set_deploy/systems.py:43 | every waiting component without waiting dependencies is in the round |
| SystemIteration.SortedRound | ready_set_deploy/systems.py:46 | a sorted round is sorted, has distinct keys and holds only ready components |
| SystemIteration.RoundIsFull | ready_set_deploy/systems.py:41-48 | the sorted round holds exactly the components still in the dict, once the yielded keys are popped, none of whose dependencies is still there |
| SystemIteration.Iterate | ready_set_deploy/systems.py:40-48 | the output is the rounds in order, each sorted and holding exactly the components left after the earlier rounds whose dependencies are all gone, with distinct keys and every dependency before its dependent; it covers the system, or raises ValueError when the remaining components are stuck |
| SystemIteration.YieldRound | ready_set_deploy/systems.py:46-48 | yielding and popping a round appends it to the output and removes exactly its keys |
| SystemIteration.StuckOfEmptyRound | ready_set_deploy/systems.py:44-45 | an empty round with components left means every remaining component waits on another |
| SystemIteration.AcyclicNeverStuck | ready_set_deploy/systems.py:40-48 | a system whose dependencies can be ranked never gets stuck |
| SystemRoundTrip.DiffKeyMap | ready_set_deploy/systems.py:56-86 | the diff's key map holds the added, removed and changed entries and nothing else |
| SystemRoundTrip.RemovalsOfShape | ready_set_deploy/systems.py:96-98 | the removals read from a diff are exactly the source keys the target lacks |
| SystemRoundTrip.LoopsOfShape | ready_set_deploy/systems.py:99-117 | apply's two loops, over a diff, rebuild the target's key map |
| SystemRoundTrip.AppliedOfShape | ready_set_deploy/systems.py:93-119 | applying a diff-shaped system rebuilds the target's key map |
| SystemRoundTrip.AppliedDiff | ready_set_deploy/systems.py:88-119 | applying the diff, after the checks, gives the target's key map |
| SystemRoundTrip.DiffIsDiff | ready_set_deploy/systems.py:56-86 | every component of a diff is a diff component |
| SystemRoundTrip.ApplyDiffRoundTrip | tests/test_systems.py:26-32 | `A.apply(A.diff(B))` succeeds and has B's key map, with the corrected check or whenever the diff is valid, for systems without components named `component.remove` and a B whose elements are full all the way down |
| SystemRoundTrip.ApplyDiffSameSystem | tests/test_systems.py:26-32 | `A.apply(A.diff(B)) == B` under `System.__eq__`, under the same conditions |
| SystemRoundTrip.PlaceholderNameLost | ready_set_deploy/systems.py:96-117 | a B holding its own component named `component.remove` diffs to that component's zero-diff, which apply reads as a removal and skips, so apply succeeds without it |
| SystemRoundTrip.MissingDependencyInvalid | ready_set_deploy/systems.py:37 | a dependency missing from the system makes it invalid |
| SystemRoundTrip.EmptyComponentsInvalid | ready_set_deploy/systems.py:36 | a non-empty system of empty components is neither diff-only nor full-only, so it is invalid |
| SystemRoundTrip.UnchangedDependencyRejected | ready_set_deploy/systems.py:89 | when a changed or added component depends on an unchanged one, the diff is invalid and apply raises ValueError |
| SystemRoundTrip.EmptyComponentRejected | ready_set_deploy/systems.py:89 | when the only change adds a component with no elements, the diff is invalid and apply raises ValueError |
| AutoDependencies.Contains | ready_set_deploy/elements.py:180-181 | `in` is set membership, map key membership or list membership, and raises TypeError elsewhere (also 281-282, 489-490) |
| AutoDependencies.CheckHomebrew | ready_set_deploy/auto_dependencies.py:10-21 | no Homebrew component gives None; a returned component is the Homebrew one; a missing `simple_formulas` raises KeyError |
| AutoDependencies.CheckHomebrewIff | ready_set_deploy/auto_dependencies.py:10-21 | the Homebrew component is returned iff it exists and lists the formula in `simple_formulas` or `formulas` |
| AutoDependencies.LastIndex | ready_set_deploy/systems.py:23-24 | the last position of a key, or None when no component has it |
| AutoDependencies.ByKeyIsLast | ready_set_deploy/systems.py:23-24 | `components_by_dependency` keeps the last component with each key |
| AutoDependencies.AppendDependency | ready_set_deploy/auto_dependencies.py:37 | appending changes only that component's dependencies, by one key at the end |
| AutoDependencies.CheckHomebrewLocal | ready_set_deploy/auto_dependencies.py:10-21 | the check reads only the Homebrew entry |
| AutoDependencies.MarkNoOp | ready_set_deploy/auto_dependencies.py:30-36 | marking is a no-op when the target is missing or Homebrew does not provide the package |
| AutoDependencies.MarkCases | ready_set_deploy/auto_dependencies.py:46-53 | marking fails iff the target exists and the check raises; when Homebrew provides the package it appends Homebrew's key to the target |
| AutoDependencies.MarkOnlyDependencies | ready_set_deploy/auto_dependencies.py:37 | marking changes no name, qualifier or elements, and only the target's dependencies |
| AutoDependencies.MarkKeepsCheck | ready_set_deploy/auto_dependencies.py:24-27 | marking one target leaves the Homebrew check and the target's position unchanged |
| AutoDependencies.SameKeysSameLast | ready_set_deploy/auto_dependencies.py:24-27 | lists with the same keys position by position have the same last indexes |
| AutoDependencies.MarkAppends | ready_set_deploy/auto_dependencies.py:30-37 | when Homebrew provides the package, marking appends its key to the target's dependencies |
| AutoDependencies.AppendTwice | ready_set_deploy/auto_dependencies.py:37 | appending twice adds the key twice |
| AutoDependencies.MarkTwiceDuplicates | ready_set_deploy/auto_dependencies.py:37 | marking twice leaves a duplicate dependency entry |
| AutoDependencies.AutoMarkOnlyDependencies | ready_set_deploy/auto_dependencies.py:24-27 | the whole pass changes only dependency lists, never the component list |
| AutoDependencies.LiveSystem.MarkFor | ready_set_deploy/auto_dependencies.py:30-37 | the in-place mark appends to the live component as the specification `Mark` says, and leaves the state alone on error |
| AutoDependencies.LiveSystem.AutoMarkDependencies | ready_set_deploy/auto_dependencies.py:24-27 | marking asdf then pipx in place gives the specification `AutoMark` |
| GenericProvider.Diff | ready_set_deploy/providers/generic.py:27-53 | diff asserts full, desired and equal qualifiers, converts both states, and returns a desired partial of `desired − actual` and an undesired partial of `actual − desired` |
| GenericProvider.ApplyPartialToFull | ready_set_deploy/providers/generic.py:61-76 | asserts a desired left and a partial operand, then adds a desired partial and removes an undesired one |
| GenericProvider.DiffApplyRoundTrip | ready_set_deploy/providers/generic.py:27-76 | removing the undesired partial and adding the desired one gives the desired elements, under the set-algebra laws |
| GenericProvider.Combine | ready_set_deploy/providers/generic.py:78-87 | combine converts every state, fails with the first conversion error, and otherwise returns an empty list |
| Homebrew.Taps | ready_set_deploy/providers/homebrew.py:65 | the taps are the set of the raw tap strings |
| Homebrew.NameOf | ready_set_deploy/providers/homebrew.py:66-67 | a formula or cask's name is its `"name"` field; a string raises TypeError and a missing field KeyError |
| Homebrew.Names | ready_set_deploy/providers/homebrew.py:66-67 | the set of names, or the error of the first entry without one |
| Homebrew.ConvertElements | ready_set_deploy/providers/homebrew.py:63-68 | exactly three groups are unpacked as taps, formulas and casks; otherwise ValueError, or the error of the first bad group |
| Homebrew.StrGroup | ready_set_deploy/providers/homebrew.py:73 | `list(taps)` is one string per tap |
| Homebrew.ObjGroup | ready_set_deploy/providers/homebrew.py:74-75 | one `{"name": n}` object per name |
| Homebrew.TapsOfStrGroup | ready_set_deploy/providers/homebrew.py:63-76 | converting listed taps back gives the tap set |
| Homebrew.NamesOfObjGroup | ready_set_deploy/providers/homebrew.py:63-76 | converting name objects back gives the name set |
| Homebrew.ConvertRoundTrip | ready_set_deploy/providers/homebrew.py:63-76 | `convert_elements(convert_elements_back(t)) == t` |
| Homebrew.SortedSet | ready_set_deploy/providers/homebrew.py:73 | the listed set holds exactly the set's members |
| Homebrew.LeftOnlyIsMissing | ready_set_deploy/providers/homebrew.py:78-96 | `diff_left_only` is disjoint from the right side and adding it equals adding the whole left side |
| Homebrew.RemoveThenAdd | ready_set_deploy/providers/homebrew.py:78-106 | removing `actual − desired` and adding `desired − actual` gives desired |
| Homebrew.AddThenRemove | ready_set_deploy/providers/homebrew.py:88-106 | adding then removing the same partial equals removing it |
| Homebrew.DiffApplyRoundTrip | ready_set_deploy/providers/generic.py:27-76 | the Homebrew provider's diff, applied remove then add, reproduces the desired state |
| Homebrew.Run | ready_set_deploy/providers/homebrew.py:111 | one subcommand over a set of names: no commands iff no names; each command starts with the subcommand and fits the limit; the names are exactly the parameters |
| Homebrew.RunIsBrew | ready_set_deploy/providers/homebrew.py:111-113 | every command of a brew subcommand runs brew with a parameter |
| Homebrew.Phase | ready_set_deploy/providers/homebrew.py:111-113 | a tap/install phase is the tap commands for the taps, then the install commands for the formulas, then the `--cask` install commands for the casks; none when there is nothing to do |
| Homebrew.ConcatBrew | ready_set_deploy/providers/homebrew.py:111-119 | the phases concatenated are still brew commands |
| Homebrew.ToCommands | ready_set_deploy/providers/homebrew.py:108-119 | to_commands fails iff a state does not convert (the desired one's error first), emits nothing for two missing states, and otherwise emits the tap/install phase of the desired state followed by the untap/uninstall phase of the undesired one |
| Homebrew.GatherLocalSwaps | ready_set_deploy/providers/homebrew.py:44-50 | the gathered layout `[taps, casks, formulas]`, converted, makes the casks the formulas and the formulas the casks |
| Homebrew.SingletonSorted | ready_set_deploy/providers/homebrew.py:111 | a single name lists as itself |
| Homebrew.GatheredCaskInstalledAsFormula | ready_set_deploy/providers/homebrew.py:44-50 | a gathered cask `firefox` is installed by `brew install firefox`, without `--cask` |
| Homebrew.GatherLocalFixedRoundTrip | ready_set_deploy/providers/homebrew.py:63-68 | the corrected layout `[taps, formulas, casks]` converts to the gathered sets |
| Multiversion.MergeKeys | ready_set_deploy/providers/multiversion_packages.py:7-13 | the merged packages are exactly the listed ones |
| Multiversion.MergeVersions | ready_set_deploy/providers/multiversion_packages.py:7-13 | a package's merged versions are the union of all its entries' versions |
| Multiversion.ElementsToMultiversions | ready_set_deploy/providers/multiversion_packages.py:7-13 | the setdefault loop computes the merge |
| Multiversion.Entries | ready_set_deploy/providers/multiversion_packages.py:16 | one entry per listed package, with its versions |
| Multiversion.ToElements | ready_set_deploy/providers/multiversion_packages.py:15-16 | one entry per package, with its versions, in strictly increasing package order |
| Multiversion.EntriesOfSorted | ready_set_deploy/providers/multiversion_packages.py:15-16 | the entries of the sorted packages cover every package once, in order |
| Multiversion.MergeToElements | ready_set_deploy/providers/multiversion_packages.py:7-16 | merging the listed elements gives the multiversions back |
| Multiversion.VersionsDetermineDiff | ready_set_deploy/providers/multiversion_packages.py:18-26 | a map without empty sets is determined by its per-package versions |
| Multiversion.DiffMultiversion | ready_set_deploy/providers/multiversion_packages.py:18-26 | `result[p] = left[p] − right.get(p, ∅)`, and packages with no difference are absent |
| Multiversion.AddSpecVersions | ready_set_deploy/providers/multiversion_packages.py:53-61 | adding gives the union of keys and per-package unions |
| Multiversion.CopyMultiversions | ready_set_deploy/providers/multiversion_packages.py:55-56 | the first loop copies left |
| Multiversion.AddedAll | ready_set_deploy/providers/multiversion_packages.py:57-59 | after every package is added, the result is the full addition |
| Multiversion.AddedNone | ready_set_deploy/providers/multiversion_packages.py:54-56 | before any package is added, the result is left |
| Multiversion.AddedStep | ready_set_deploy/providers/multiversion_packages.py:58-59 | adding one package unions its versions in |
| Multiversion.AddMultiversion | ready_set_deploy/providers/multiversion_packages.py:53-61 | the loops give the union of keys and per-package unions |
| Multiversion.RemoveMultiversion | ready_set_deploy/providers/multiversion_packages.py:63-73 | per-package difference, no new keys, and no package of to_remove left empty |
| Multiversion.RemoveThenAddAt | ready_set_deploy/providers/multiversion_packages.py:39-73 | per package, removing `l − r` then adding `r − l` gives r's versions |
| Multiversion.RemoveThenAdd | ready_set_deploy/providers/multiversion_packages.py:39-73 | removing `l − r` then adding `r − l` gives r when no package has an empty version set |
| Multiversion.EmptyVersionsBreakRoundTrip | ready_set_deploy/providers/multiversion_packages.py:18-26 | a package listed with no versions is lost by the round trip |
| Multiversion.Diff | ready_set_deploy/providers/multiversion_packages.py:28-51 | diff asserts full, desired and equal qualifiers, and returns a desired `right − left` and an undesired `left − right`, both without qualifier |
| Multiversion.ApplyPartialToFull | ready_set_deploy/providers/multiversion_packages.py:75-90 | asserts a desired left and a partial operand, adds a desired partial and removes an undesired one, giving a full desired state |
| Multiversion.DiffApplyRoundTrip | ready_set_deploy/providers/multiversion_packages.py:28-90 | diff, then applying remove and add, gives right's packages when no version set is empty |
| Runner.Chunked | ready_set_deploy/runner.py:21 | `chunked` raises ValueError for a negative size, yields nothing for size 0, and otherwise yields the chunks |
| Runner.ChunkSizes | ready_set_deploy/runner.py:21 | every chunk has 1 to n items, and all but the last exactly n |
| Runner.ChunksConcat | ready_set_deploy/runner.py:21 | the chunks concatenate back to the parameters in order |
| Runner.Prefixed | ready_set_deploy/runner.py:22 | each command is the base command followed by a chunk |
| Runner.PrefixedParams | ready_set_deploy/runner.py:21-22 | the parameters after the command prefix are the chunks in order |
| Runner.ChunkedCommands | ready_set_deploy/runner.py:14-22 | commands over more than 1024 words raise ValueError; otherwise each command starts with the command, fits in 1024 words, and their parameters reproduce params |
| Runner.ToCommands | ready_set_deploy/runner.py:16-22 | no params gives the bare command once; empty params give no command; otherwise the chunked commands |
| Runner.ToCommandsBase | ready_set_deploy/plugins/base.py:17-23 | empty params give the bare command once; otherwise the chunked commands, at least one |
| Itertools.Dedup | ready_set_deploy/itertools.py:10-15 | the seen-set filter keeps exactly the keys of the input |
| Itertools.DedupDistinct | ready_set_deploy/itertools.py:13-15 | each key is yielded once |
| Itertools.FirstIndex | ready_set_deploy/itertools.py:11-12 | the first position of a key |
| Itertools.DedupFirstOrder | ready_set_deploy/itertools.py:11-15 | keys are yielded in order of first appearance |
| Itertools.Row | ready_set_deploy/itertools.py:18 | one value per dict, `od.get(key, default)` |
| Itertools.MatchedKeys | ready_set_deploy/itertools.py:9-18 | for dicts whose order lists each key once, the first-appearance keys are exactly the keys of the dicts |
| Itertools.DictMatching | ready_set_deploy/itertools.py:9-18 | each key of any dict, once, in first-appearance order, and no other key, with its value in every dict or the default |
| Itertools.LastIsLatest | ready_set_deploy/itertools.py:23-27 | the slot of a key holds the last item with that key, or the default |
| Itertools.Slots | ready_set_deploy/itertools.py:22-27 | a row has one slot per iterable |
| Itertools.SlotsAbsent | ready_set_deploy/itertools.py:22 | a key not yet filed has a row of defaults |
| Itertools.FileItem | ready_set_deploy/itertools.py:25-27 | filing one item writes it to its key's slot and keeps the first-appearance order of keys |
| Itertools.IterMatching | ready_set_deploy/itertools.py:21-30 | each key, once, in first-appearance order, with the last item of that key from each iterable or the default |
| Config.Under | ready_set_deploy/config.py:100 | pushing a key onto every leaf path |
| Config.JoinedUnder | ready_set_deploy/config.py:104 | each leaf's key is the joined path, dot-separated |
| Config.FlatIsJoinedLeafPaths | ready_set_deploy/config.py:98-105 | flattening yields every leaf, keyed by its dotted path, in order |
| Config.EmptyTableNoKeys | ready_set_deploy/config.py:101-102 | an empty table contributes no key |
| Config.Flattener.FlattenDict | ready_set_deploy/config.py:98-105 | the recursive generator over a shared path list yields the flattening and restores the path |
| Config.FlatDicts | ready_set_deploy/config.py:107 | one flat dict per config |
| Config.UnionKeysAre | ready_set_deploy/config.py:109 | the merged keys are the keys of any config |
| Config.ValuesLast | ready_set_deploy/config.py:110-111 | the merged value is the last of the key's values |
| Config.LastWins | ready_set_deploy/config.py:110-111 | the last config defining a key decides its value |
| Config.FrontOverridden | ready_set_deploy/config.py:90-91 | the builtin config inserted first is overridden by every file that sets the key |
| Config.FlatDictsSnoc | ready_set_deploy/config.py:107 | flattening one more config appends its flat dict |
| Config.MergeConfigs | ready_set_deploy/config.py:96-113 | the merge has the keys of all configs, each with the last value |
| Config.TakeLast | ready_set_deploy/config.py:108-111 | the loop over keys takes each key's last value |
| Config.Section | ready_set_deploy/config.py:124-125 | the section holds exactly the keys with the prefix, stripped, with their values |
| Config.LoadFromFiles | ready_set_deploy/config.py:122-129 | the gatherer and renderer settings are the `gather.` and `render.` sections of the builtin config merged with the files |

## Left out

- Generators become finished lists. `to_commands`, `dict_matching`, `iter_matching`, `System.__iter__` and `_flatten_dict` return whole lists. The commands a generator yields before an exception are not modelled.
- SystemIteration.Iterate: the output is returned together with the error. The model therefore keeps the components yielded before a stuck round; the laziness itself is not modelled.
- difflib is not modelled. `get_grouped_opcodes` is a `Matcher` parameter, and the round trips assume a matcher whose spans align the two lists (`GoodMatcher`).
- Elements.DiffApplyRoundTrip: holds only for a matcher satisfying `GoodMatcher`, because difflib is not modelled, and `EqualReplaceMatcher`, because the list diff as written raises IndexError on a `replace` of unequal spans (see Findings).
- Components.DiffApplyRoundTrip: requires `EqualReplaceMatcher`, because it rests on the list diff as written (see Findings).
- SystemRoundTrip.LoopsOfShape: requires `EqualReplaceMatcher`, because it rests on the list diff as written (see Findings).
- SystemRoundTrip.AppliedOfShape: requires `EqualReplaceMatcher`, because it rests on the list diff as written (see Findings).
- SystemRoundTrip.AppliedDiff: requires `EqualReplaceMatcher`, because it rests on the list diff as written (see Findings).
- SystemRoundTrip.ApplyDiffRoundTrip: requires `EqualReplaceMatcher`, because it rests on the list diff as written (see Findings). It also requires `NoPlaceholders` of both systems, because apply treats any component named `component.remove` as a removal and drops it (`SystemRoundTrip.PlaceholderNameLost`), and `DeepFullSystem(B)`: B holds no diff element nested inside a full one, so copying its components never raises (copying a nested ListDiff raises NotImplementedError).
- SystemRoundTrip.ApplyDiffSameSystem: requires `EqualReplaceMatcher`, because it rests on the list diff as written (see Findings). It also requires `NoPlaceholders` of both systems and `DeepFullSystem(B)`, for the reasons given for ApplyDiffRoundTrip.
- Subprocess and filesystem I/O are not modelled: `Runner.run`/`lines`/`json`, `gather_local`'s brew calls, config file discovery, TOML parsing and path expansion. The gathered names and the parsed configs are parameters.
- Config leaves are strings. Other TOML leaf types (numbers, lists) are not modelled.
- Dict and set iteration order is not modelled. Where it shows in an output, one order is fixed: sorted, or first occurrence.
- Aliasing is not modelled: `Component.copy` sharing the dependencies list, and SetDiff/MapDiff shallow copies. Copies are equal values. Nor is the effect of `List.apply` editing its receiver in place when reached through `Component.apply` from `System.apply` (components.py:96-105, elements.py:468-472): in the source `A.apply(C)` changes the list elements of A itself, and an error part-way leaves A half-edited; `SystemApply.Apply` leaves its input unchanged. The in-place edit of one list is modelled by `Elements.ListObject.ApplyInPlace`.
- Elements: `infer`, `to_primitive`/`from_primitive` and `<` on elements are not modelled. They are called from outside `elements.py` but not defined in it. Element `combine` is modelled only from what the tests assert.
- Elements.Combine: list combine is not modelled, and the model raises AttributeError for lists. `elements.py` defines no `combine`, and tests/test_elements.py:316-319 asserts a single list example, in which the second list's inserted and replacing items come before the first list's. One example does not fix how two lists interleave in general, and that would also need difflib's alignment, which is not modelled.
- Components.Component.Equals: when the element dicts have the same keys, and one key's elements differ while another key's comparison raises, Python's dict `==` returns False or raises depending on insertion order; the model raises.
- Elements.Equals: two diff elements define no `__eq__`, so Python compares them by identity; the model compares them as values. When two maps' key sets differ, or one shared key's values differ while another's raise, Python's answer depends on dict insertion order; the model answers False for different key sets and raises when any shared key raises. Python skips comparing a value with itself (the same object); the model compares it and gets the same answer.
- A map diff's `items_to_add` and `items_to_set` are lists of `(key, value)` pairs that apply walks in order; the model keeps them as maps. Diff never emits a key twice, so this loses no behaviour of the core.
- The provider hooks that raise NotImplementedError in `GenericProviderMixin` are not modelled; the hooks are parameters.
- `GenericProviderMixin.combine`'s unused local variables (`desired_elements`, `undesired_elements`) are not modelled, because they never affect the result.
- `plugins/base.py`'s `to_commands` tests the truthiness of `params`. The model treats `params` as a list, so a non-empty iterator is not modelled.
- Multiversion.DiffApplyRoundTrip: requires that no package has an empty version set. `Multiversion.EmptyVersionsBreakRoundTrip` shows why.
- Systems.SameKeyMapSameSystem: `System.__eq__` raising NotImplementedError for a non-System operand is not modelled, because the model only compares systems.
- The registry, the CLI, the renderers, the gatherers, `logic.py`, `list_patch.py`, `testing.py` and the older `homebrew1.py`/`homebrew2.py` providers are not part of this model.

## Findings

| source | as written | input that shows it | evidently intended | confidence | as-written member | corrected member |
|---|---|---|---|---|---|---|
| ready_set_deploy/elements.py:434-436 | a `replace` opcode emits one overwrite per position of other's span, whatever the length of self's span | self `["p"]`, other `["q","r"]`, opcode replace(0,1,0,2): the second overwrite indexes past the end and raises IndexError | overwrite the common length, then insert other's surplus or delete self's surplus | not executed | Elements.UnequalReplaceBreaksRoundTrip | Elements.ListRoundTrip |
| ready_set_deploy/systems.py:89 | `apply` validates the diff system, and validity needs every dependency to be present | A = {x, y depends on x}, B = {x, y' depends on x}: the diff holds y's diff depending on x, which is unchanged and so absent, and apply raises ValueError | a diff system need not contain the components its changes depend on | not executed | SystemRoundTrip.UnchangedDependencyRejected | SystemRoundTrip.ApplyDiffRoundTrip |
| ready_set_deploy/systems.py:36 | a non-empty system of components without elements is neither diff-only nor full-only, so it is invalid | A = {x with one element}, B = A plus {c with no elements}: B is full and valid, but the diff {zerodiff of c} is both diff and full, so it is invalid and apply raises ValueError | adding an empty component round-trips | not executed | SystemRoundTrip.EmptyComponentRejected | SystemRoundTrip.ApplyDiffRoundTrip |
| ready_set_deploy/providers/homebrew.py:44-50 | `gather_local` writes `[taps, casks, formulas]` while `convert_elements` reads `[taps, formulas, casks]` | a machine with the cask `firefox`: `to_commands` emits `brew install firefox` without `--cask` | write `[taps, formulas, casks]` | not executed | Homebrew.GatheredCaskInstalledAsFormula | Homebrew.GatherLocalFixedRoundTrip |
