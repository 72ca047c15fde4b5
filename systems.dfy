/** A system: a list of components identified by their `(name, qualifier)` dependency key.
    Diff, apply and combine work key by key; iteration yields components in dependency
    order. */
module Systems {
  import opened Errors
  import opened Elements
  import opened Components
  import opened PyOrder

  /** The name of the placeholder component that marks a deleted component in a diff. */
  const REMOVE: string := "component.remove"

  datatype System = System(components: seq<Component>)
  {
    /** `is_diff`: every component is a diff (vacuously true without components). */
    predicate IsDiff() {
      forall i :: 0 <= i < |components| ==> components[i].IsDiff()
    }

    /** `is_full`: every component is full (vacuously true without components). */
    predicate IsFull() {
      forall i :: 0 <= i < |components| ==> components[i].IsFull()
    }

    /** `is_valid`: valid components, diff xor full (or none at all), and every declared
        dependency present in the system. */
    predicate IsValid() {
      && (forall i :: 0 <= i < |components| ==> components[i].IsValid())
      && ((IsDiff() != IsFull()) || components == [])
      && (forall i, d :: 0 <= i < |components| && d in components[i].dependencies ==> d in ByKey(components))
    }
  }

  /** `components_by_dependency`: a dict from dependency key to component; for a repeated
      key the last component wins. */
  function ByKey(cs: seq<Component>): (m: map<Key, Component>)
    ensures forall c :: c in cs ==> c.DependencyKey() in m
    ensures forall k :: k in m ==> m[k] in cs && m[k].DependencyKey() == k
  {
    if cs == [] then map[]
    else
      var last := cs[|cs| - 1];
      ByKey(cs[..|cs| - 1])[last.DependencyKey() := last]
  }

  /** The keys of `components_by_dependency` in dict order: first occurrence in the list. */
  function Order(cs: seq<Component>): (ks: seq<Key>)
    ensures forall k :: k in ks <==> k in ByKey(cs)
    ensures forall i, j :: 0 <= i < j < |ks| ==> ks[i] != ks[j]
  {
    if cs == [] then []
    else
      var o := Order(cs[..|cs| - 1]);
      var k := cs[|cs| - 1].DependencyKey();
      if k in o then o else o + [k]
  }

  lemma {:induction false} ByKeyDistinct(cs: seq<Component>)
    requires DistinctKeys(cs)
    ensures forall i :: 0 <= i < |cs| ==> ByKey(cs)[cs[i].DependencyKey()] == cs[i]
  {
    if cs != [] {
      ByKeyDistinct(cs[..|cs| - 1]);
    }
  }

  /** In a list of distinct keys each component occurs exactly once. */
  lemma {:induction false} DistinctCounts(cs: seq<Component>)
    requires DistinctKeys(cs)
    ensures forall c :: multiset(cs)[c] == if c in cs then 1 else 0
  {
    if cs != [] {
      var p := cs[..|cs| - 1];
      DistinctCounts(p);
      assert cs == p + [cs[|cs| - 1]];
      assert cs[|cs| - 1] !in p;
    }
  }

  /** System `==` compares the sorted component lists, that is, the components as a
      multiset. */
  predicate SameSystem(a: System, b: System) {
    multiset(a.components) == multiset(b.components)
  }

  /** Two systems without repeated keys whose key maps agree are equal. */
  lemma SameKeyMapSameSystem(a: System, b: System)
    requires DistinctKeys(a.components) && DistinctKeys(b.components)
    requires ByKey(a.components) == ByKey(b.components)
    ensures SameSystem(a, b)
  {
    DistinctCounts(a.components);
    DistinctCounts(b.components);
    ByKeyDistinct(a.components);
    ByKeyDistinct(b.components);
    forall c ensures multiset(a.components)[c] == multiset(b.components)[c] {
      if c in a.components {
        var i :| 0 <= i < |a.components| && a.components[i] == c;
        assert ByKey(b.components)[c.DependencyKey()] == c;
      }
      if c in b.components {
        var i :| 0 <= i < |b.components| && b.components[i] == c;
        assert ByKey(a.components)[c.DependencyKey()] == c;
      }
    }
  }

  /** `_validate_compatible`: both systems valid, otherwise ValueError. */
  function Compatible(a: System, b: System): (r: Result<()>)
    ensures r.Ok? <==> a.IsValid() && b.IsValid()
    ensures r.Err? ==> r.error == ValueError
  {
    if !a.IsValid() || !b.IsValid() then Err(ValueError) else Ok(())
  }

  // ---------------------------------------------------------------------------------------
  // diff
  // ---------------------------------------------------------------------------------------

  /** The key of the placeholder that removes the component with key `k`; the key is
      recovered from it as `(qualifier[0], qualifier[1:])`. */
  function RemovedKey(k: Key): (r: Key)
    ensures r.name == REMOVE && r.qualifier != [] && Key(r.qualifier[0], r.qualifier[1..]) == k
  {
    Key(REMOVE, [k.name] + k.qualifier)
  }

  /** The placeholder that marks `c` as removed: its qualifier is the removed component's
      name followed by its qualifier, and its single element is a diff so that it counts as
      a diff component. */
  function Placeholder(c: Component): (p: Component)
    ensures p.DependencyKey() == RemovedKey(c.DependencyKey())
    ensures p.name == REMOVE && p.dependencies == []
    ensures p.qualifier != [] && p.qualifier[0] == c.name && p.qualifier[1..] == c.qualifier
    ensures p.IsDiff() && p.IsValid() && !p.IsFull()
  {
    var p := Component(REMOVE, [], [c.name] + c.qualifier, map["_" := AtomDiff("")]);
    assert "_" in p.elements;
    p
  }

  /** The entry a key contributes to `components_to_add`: the zero-diff of a component
      only in `b`. */
  function AddedEntry(k: Key, a: map<Key, Component>, b: map<Key, Component>, matcher: Matcher)
    : (r: Result<Option<Component>>)
    ensures r.Ok? && r.value.Some? ==> k in b && k !in a && b[k].ZeroDiff(matcher) == Ok(r.value.value)
    ensures k in b && k !in a ==> (r.Ok? <==> b[k].ZeroDiff(matcher).Ok?) && (r.Ok? ==> r.value.Some?)
  {
    if k in b && k !in a then
      var z :- b[k].ZeroDiff(matcher);
      Ok(Some(z))
    else Ok(None)
  }

  /** The entry a key contributes to `components_to_remove`: the placeholder for a
      component only in `a`. */
  function RemovedEntry(k: Key, a: map<Key, Component>, b: map<Key, Component>): (r: Result<Option<Component>>)
    ensures r.Ok?
    ensures r.value.Some? <==> k in a && k !in b
    ensures r.value.Some? ==> r.value.value == Placeholder(a[k])
  {
    if k in a && k !in b then Ok(Some(Placeholder(a[k]))) else Ok(None)
  }

  /** The entry a key contributes to `components_to_apply`: the component diff for a shared
      key whose components differ (`!=` itself may raise). */
  function ChangedEntry(k: Key, a: map<Key, Component>, b: map<Key, Component>, matcher: Matcher)
    : (r: Result<Option<Component>>)
    ensures r.Ok? && r.value.Some? ==>
              k in a && k in b && a[k] != b[k] && a[k].Diff(b[k], matcher) == Ok(r.value.value)
    ensures k in a && k in b && a[k] != b[k] && r.Ok? ==> r.value.Some?
  {
    if k in a && k in b then
      var same :- a[k].Equals(b[k]);
      if same then Ok(None)
      else
        var d :- a[k].Diff(b[k], matcher);
        Ok(Some(d))
    else Ok(None)
  }

  function AddedEntries(a: map<Key, Component>, b: map<Key, Component>, matcher: Matcher)
    : Key -> Result<Option<Component>>
  {
    k => AddedEntry(k, a, b, matcher)
  }

  function RemovedEntries(a: map<Key, Component>, b: map<Key, Component>): Key -> Result<Option<Component>> {
    k => RemovedEntry(k, a, b)
  }

  function ChangedEntries(a: map<Key, Component>, b: map<Key, Component>, matcher: Matcher)
    : Key -> Result<Option<Component>>
  {
    k => ChangedEntry(k, a, b, matcher)
  }

  /** A dict comprehension of `diff` over the keys `ks`, keeping the entries that are
      present; the first failing key raises. */
  function Comprehension(ks: seq<Key>, entry: Key -> Result<Option<Component>>): (r: Result<seq<Component>>)
    ensures r.Ok? <==> forall i :: 0 <= i < |ks| ==> entry(ks[i]).Ok?
  {
    if ks == [] then Ok([])
    else
      var e :- entry(ks[0]);
      var rest :- Comprehension(ks[1..], entry);
      assert forall i :: 1 <= i < |ks| ==> ks[i] == ks[1..][i - 1];
      Ok(if e.Some? then [e.value] + rest else rest)
  }

  /** A successful comprehension holds exactly the entries present for its keys. */
  lemma {:induction false} ComprehensionMembers(ks: seq<Key>, entry: Key -> Result<Option<Component>>)
    requires Comprehension(ks, entry).Ok?
    ensures forall c :: c in Comprehension(ks, entry).value ==> exists i :: 0 <= i < |ks| && entry(ks[i]) == Ok(Some(c))
    ensures forall i :: 0 <= i < |ks| && entry(ks[i]).value.Some? ==> entry(ks[i]).value.value in Comprehension(ks, entry).value
    decreases |ks|
  {
    if ks != [] {
      ComprehensionMembers(ks[1..], entry);
      assert forall i :: 1 <= i < |ks| ==> ks[i] == ks[1..][i - 1];
    }
  }

  /** A comprehension over one more key: the earlier keys' failure wins, then the new
      key's, and otherwise its entry is appended when present. */
  lemma {:induction false} ComprehensionPush(ks: seq<Key>, k: Key, entry: Key -> Result<Option<Component>>)
    ensures Comprehension(ks + [k], entry) ==
              (var r := Comprehension(ks, entry);
               if r.Err? then r
               else var e := entry(k);
                    if e.Err? then Err(e.error)
                    else Ok(r.value + (if e.value.Some? then [e.value.value] else [])))
    decreases |ks|
  {
    if ks == [] {
      assert ks + [k] == [k] && [k][1..] == [];
      assert Comprehension(ks, entry) == Ok([]);
      assert Comprehension([k][1..], entry) == Ok([]);
      if entry(k).Ok? && entry(k).value.Some? {
        var c := entry(k).value.value;
        assert Comprehension([k], entry) == Ok([c] + []);
        assert [c] + [] == [] + [c];
      } else if entry(k).Ok? {
        assert Comprehension([k], entry) == Ok([]);
        assert Comprehension(ks, entry).value + [] == [];
      }
    } else {
      assert (ks + [k])[0] == ks[0];
      assert (ks + [k])[1..] == ks[1..] + [k];
      ComprehensionPush(ks[1..], k, entry);
      var head := entry(ks[0]);
      var rest := Comprehension(ks[1..], entry);
      var e := entry(k);
      if head.Ok? && rest.Ok? && e.Ok? && head.value.Some? {
        var h := head.value.value;
        if e.value.Some? {
          var c := e.value.value;
          assert Comprehension(ks[1..] + [k], entry) == Ok(rest.value + [c]);
          assert [h] + (rest.value + [c]) == ([h] + rest.value) + [c];
        } else {
          assert Comprehension(ks[1..] + [k], entry) == Ok(rest.value + []);
          assert [h] + (rest.value + []) == ([h] + rest.value) + [];
        }
      }
    }
  }

  /** The three outcomes of one more key, each stated on its own. */
  lemma PushPresent(ks: seq<Key>, k: Key, entry: Key -> Result<Option<Component>>, values: seq<Component>, c: Component)
    requires Comprehension(ks, entry) == Ok(values) && entry(k) == Ok(Some(c))
    ensures Comprehension(ks + [k], entry) == Ok(values + [c])
  {
    ComprehensionPush(ks, k, entry);
  }

  lemma PushAbsent(ks: seq<Key>, k: Key, entry: Key -> Result<Option<Component>>, values: seq<Component>)
    requires Comprehension(ks, entry) == Ok(values) && entry(k) == Ok(None)
    ensures Comprehension(ks + [k], entry) == Ok(values)
  {
    ComprehensionPush(ks, k, entry);
    assert values + [] == values;
  }

  lemma PushFails(ks: seq<Key>, k: Key, rest: seq<Key>, entry: Key -> Result<Option<Component>>, values: seq<Component>)
    requires Comprehension(ks, entry) == Ok(values) && entry(k).Err?
    ensures Comprehension(ks + [k] + rest, entry) == Err(entry(k).error)
  {
    ComprehensionPush(ks, k, entry);
    ComprehensionKeepsError(ks + [k], rest, entry);
  }

  /** The comprehension's loop at key `i`: a failing entry makes the whole comprehension
      fail, an absent one leaves the values, a present one appends its component. */
  lemma PushAt(ks: seq<Key>, i: nat, entry: Key -> Result<Option<Component>>, values: seq<Component>)
    requires i < |ks| && Comprehension(ks[..i], entry) == Ok(values)
    ensures entry(ks[i]).Err? ==> Comprehension(ks, entry) == Err(entry(ks[i]).error)
    ensures entry(ks[i]) == Ok(None) ==> Comprehension(ks[..i + 1], entry) == Ok(values)
    ensures entry(ks[i]).Ok? && entry(ks[i]).value.Some? ==>
              Comprehension(ks[..i + 1], entry) == Ok(values + [entry(ks[i]).value.value])
  {
    assert ks[..i] + [ks[i]] == ks[..i + 1];
    if entry(ks[i]).Err? {
      PushFails(ks[..i], ks[i], ks[i + 1..], entry, values);
      assert ks[..i] + [ks[i]] + ks[i + 1..] == ks;
    } else if entry(ks[i]).value.None? {
      PushAbsent(ks[..i], ks[i], entry, values);
    } else {
      PushPresent(ks[..i], ks[i], entry, values, entry(ks[i]).value.value);
    }
  }

  /** Once a prefix of the keys fails, later keys change nothing. */
  lemma {:induction false} ComprehensionKeepsError(x: seq<Key>, y: seq<Key>, entry: Key -> Result<Option<Component>>)
    requires Comprehension(x, entry).Err?
    ensures Comprehension(x + y, entry) == Comprehension(x, entry)
    decreases |x|
  {
    assert (x + y)[0] == x[0];
    if entry(x[0]).Ok? {
      assert (x + y)[1..] == x[1..] + y;
      ComprehensionKeepsError(x[1..], y, entry);
    }
  }

  /** `diff`: zero-diffs for components only in `b`, removal placeholders for components
      only in `a`, and component diffs for shared keys whose components differ. */
  function Diff(a: System, b: System, matcher: Matcher): (r: Result<System>)
    ensures Compatible(a, b).Err? ==> r == Err(ValueError)
    ensures Compatible(a, b).Ok? && !(a.IsFull() && b.IsFull()) ==> r == Err(ValueError)
    ensures r.Ok? ==> a.IsValid() && b.IsValid() && a.IsFull() && b.IsFull()
  {
    var _ :- Compatible(a, b);
    if !a.IsFull() || !b.IsFull() then Err(ValueError)
    else
      var am := ByKey(a.components);
      var bm := ByKey(b.components);
      var added :- Comprehension(Order(b.components), AddedEntries(am, bm, matcher));
      var removed :- Comprehension(Order(a.components), RemovedEntries(am, bm));
      var changed :- Comprehension(Order(b.components), ChangedEntries(am, bm, matcher));
      Ok(System(added + removed + changed))
  }

  /** Every element of every component is full all the way down (copies never raise). */
  predicate DeepFullSystem(s: System) {
    forall i, k :: 0 <= i < |s.components| && k in s.components[i].elements ==> DeepFull(s.components[i].elements[k])
  }

  /** No component uses the placeholder's reserved name. */
  predicate NoPlaceholders(cs: seq<Component>) {
    forall i :: 0 <= i < |cs| ==> cs[i].name != REMOVE
  }

  /** A key map as `components_by_dependency` builds it. */
  predicate KeyedBy(m: map<Key, Component>) {
    forall k :: k in m ==> m[k].DependencyKey() == k
  }

  /** A comprehension whose present entries are filed under distinct keys yields a list
      without repeated keys. */
  lemma {:induction false} ComprehensionDistinct(ks: seq<Key>, entry: Key -> Result<Option<Component>>)
    requires Comprehension(ks, entry).Ok?
    requires forall i, j :: 0 <= i < j < |ks| && entry(ks[i]).value.Some? && entry(ks[j]).value.Some? ==>
               entry(ks[i]).value.value.DependencyKey() != entry(ks[j]).value.value.DependencyKey()
    ensures DistinctKeys(Comprehension(ks, entry).value)
    decreases |ks|
  {
    if ks != [] {
      var rest := Comprehension(ks[1..], entry).value;
      forall i, j | 0 <= i < j < |ks[1..]| && entry(ks[1..][i]).value.Some? && entry(ks[1..][j]).value.Some?
        ensures entry(ks[1..][i]).value.value.DependencyKey() != entry(ks[1..][j]).value.value.DependencyKey()
      {
        assert ks[1..][i] == ks[i + 1] && ks[1..][j] == ks[j + 1];
      }
      ComprehensionDistinct(ks[1..], entry);
      ComprehensionMembers(ks[1..], entry);
      var e := entry(ks[0]).value;
      if e.Some? {
        forall c | c in rest ensures c.DependencyKey() != e.value.DependencyKey() {
          var i :| 0 <= i < |ks[1..]| && entry(ks[1..][i]) == Ok(Some(c));
          assert ks[1..][i] == ks[i + 1];
        }
        var r := [e.value] + rest;
        forall i, j | 0 <= i < j < |r| ensures r[i].DependencyKey() != r[j].DependencyKey() {
          if i > 0 {
            assert r[i] == rest[i - 1] && r[j] == rest[j - 1];
          } else {
            assert r[j] in rest;
          }
        }
      }
    }
  }

  /** A concatenation of key-disjoint lists without repeated keys has no repeated key. */
  lemma DistinctConcat(x: seq<Component>, y: seq<Component>)
    requires DistinctKeys(x) && DistinctKeys(y)
    requires forall c, d :: c in x && d in y ==> c.DependencyKey() != d.DependencyKey()
    ensures DistinctKeys(x + y)
  {
    var r := x + y;
    forall i, j | 0 <= i < j < |r| ensures r[i].DependencyKey() != r[j].DependencyKey() {
      if j < |x| {
        assert r[i] == x[i] && r[j] == x[j];
      } else if i >= |x| {
        assert r[i] == y[i - |x|] && r[j] == y[j - |x|];
      } else {
        assert r[i] in x && r[j] in y;
      }
    }
  }

  lemma AddedEntryKey(k: Key, am: map<Key, Component>, bm: map<Key, Component>, matcher: Matcher)
    requires KeyedBy(bm)
    requires AddedEntry(k, am, bm, matcher).Ok? && AddedEntry(k, am, bm, matcher).value.Some?
    ensures var c := AddedEntry(k, am, bm, matcher).value.value;
            k in bm && k !in am && bm[k].ZeroDiff(matcher) == Ok(c) && c.DependencyKey() == k
  {
  }

  /** The zero-diffs of components only in `b`. */
  lemma AddedFacts(ks: seq<Key>, am: map<Key, Component>, bm: map<Key, Component>, matcher: Matcher)
    requires KeyedBy(am) && KeyedBy(bm)
    requires forall k :: k in ks <==> k in bm
    requires forall i, j :: 0 <= i < j < |ks| ==> ks[i] != ks[j]
    requires Comprehension(ks, AddedEntries(am, bm, matcher)).Ok?
    ensures DistinctKeys(Comprehension(ks, AddedEntries(am, bm, matcher)).value)
    ensures forall k :: k in bm && k !in am ==>
              exists c :: c in Comprehension(ks, AddedEntries(am, bm, matcher)).value && bm[k].ZeroDiff(matcher) == Ok(c)
    ensures forall c :: c in Comprehension(ks, AddedEntries(am, bm, matcher)).value ==>
              c.DependencyKey() in bm && c.DependencyKey() !in am && bm[c.DependencyKey()].ZeroDiff(matcher) == Ok(c)
  {
    var entry := AddedEntries(am, bm, matcher);
    var cs := Comprehension(ks, entry).value;
    ComprehensionMembers(ks, entry);
    forall i, j | 0 <= i < j < |ks| && entry(ks[i]).value.Some? && entry(ks[j]).value.Some?
      ensures entry(ks[i]).value.value.DependencyKey() != entry(ks[j]).value.value.DependencyKey()
    {
      AddedEntryKey(ks[i], am, bm, matcher);
      AddedEntryKey(ks[j], am, bm, matcher);
    }
    ComprehensionDistinct(ks, entry);
    forall c | c in cs ensures c.DependencyKey() in bm && c.DependencyKey() !in am
                               && bm[c.DependencyKey()].ZeroDiff(matcher) == Ok(c) {
      var i :| 0 <= i < |ks| && entry(ks[i]) == Ok(Some(c));
      AddedEntryKey(ks[i], am, bm, matcher);
    }
    forall k | k in bm && k !in am ensures exists c :: c in cs && bm[k].ZeroDiff(matcher) == Ok(c) {
      var i :| 0 <= i < |ks| && ks[i] == k;
      assert entry(ks[i]).Ok?;
      assert entry(ks[i]).value.value in cs;
    }
    assert cs == Comprehension(ks, AddedEntries(am, bm, matcher)).value;
  }

  lemma RemovedEntryKey(k: Key, am: map<Key, Component>, bm: map<Key, Component>)
    requires RemovedEntry(k, am, bm).value.Some?
    ensures var c := RemovedEntry(k, am, bm).value.value;
            k in am && k !in bm && c == Placeholder(am[k]) && c.DependencyKey() == RemovedKey(am[k].DependencyKey())
  {
  }

  /** The placeholders for components only in `a` are filed under distinct keys. */
  lemma RemovedDistinct(ks: seq<Key>, am: map<Key, Component>, bm: map<Key, Component>)
    requires KeyedBy(am)
    requires forall i, j :: 0 <= i < j < |ks| ==> ks[i] != ks[j]
    ensures Comprehension(ks, RemovedEntries(am, bm)).Ok?
    ensures DistinctKeys(Comprehension(ks, RemovedEntries(am, bm)).value)
  {
    var entry := RemovedEntries(am, bm);
    forall i, j | 0 <= i < j < |ks| && entry(ks[i]).value.Some? && entry(ks[j]).value.Some?
      ensures entry(ks[i]).value.value.DependencyKey() != entry(ks[j]).value.value.DependencyKey()
    {
      RemovedEntryKey(ks[i], am, bm);
      RemovedEntryKey(ks[j], am, bm);
      assert RemovedKey(ks[i]) != RemovedKey(ks[j]);
    }
    ComprehensionDistinct(ks, entry);
  }

  /** The placeholders for components only in `a`. */
  lemma RemovedFacts(ks: seq<Key>, am: map<Key, Component>, bm: map<Key, Component>)
    requires KeyedBy(am) && KeyedBy(bm)
    requires forall k :: k in ks <==> k in am
    requires forall i, j :: 0 <= i < j < |ks| ==> ks[i] != ks[j]
    ensures Comprehension(ks, RemovedEntries(am, bm)).Ok?
    ensures DistinctKeys(Comprehension(ks, RemovedEntries(am, bm)).value)
    ensures forall k :: k in am && k !in bm ==> Placeholder(am[k]) in Comprehension(ks, RemovedEntries(am, bm)).value
    ensures forall c :: c in Comprehension(ks, RemovedEntries(am, bm)).value ==>
              c.name == REMOVE && exists k :: k in am && k !in bm && c == Placeholder(am[k])
  {
    RemovedDistinct(ks, am, bm);
    var entry := RemovedEntries(am, bm);
    var cs := Comprehension(ks, entry).value;
    ComprehensionMembers(ks, entry);
    forall c | c in cs ensures c.name == REMOVE && exists k :: k in am && k !in bm && c == Placeholder(am[k]) {
      var i :| 0 <= i < |ks| && entry(ks[i]) == Ok(Some(c));
      RemovedEntryKey(ks[i], am, bm);
    }
    forall k | k in am && k !in bm ensures Placeholder(am[k]) in cs {
      var i :| 0 <= i < |ks| && ks[i] == k;
      assert entry(ks[i]).value.Some?;
      assert entry(ks[i]).value.value in cs;
    }
    assert cs == Comprehension(ks, RemovedEntries(am, bm)).value;
  }

  lemma ChangedEntryKey(k: Key, am: map<Key, Component>, bm: map<Key, Component>, matcher: Matcher)
    requires KeyedBy(am)
    requires ChangedEntry(k, am, bm, matcher).Ok? && ChangedEntry(k, am, bm, matcher).value.Some?
    ensures var c := ChangedEntry(k, am, bm, matcher).value.value;
            k in am && k in bm && am[k] != bm[k] && am[k].Diff(bm[k], matcher) == Ok(c) && c.DependencyKey() == k
  {
  }

  /** The component diffs for shared keys whose components differ. */
  lemma ChangedFacts(ks: seq<Key>, am: map<Key, Component>, bm: map<Key, Component>, matcher: Matcher)
    requires KeyedBy(am) && KeyedBy(bm)
    requires forall k :: k in ks <==> k in bm
    requires forall i, j :: 0 <= i < j < |ks| ==> ks[i] != ks[j]
    requires Comprehension(ks, ChangedEntries(am, bm, matcher)).Ok?
    ensures DistinctKeys(Comprehension(ks, ChangedEntries(am, bm, matcher)).value)
    ensures forall k :: k in am && k in bm && am[k] != bm[k] ==>
              exists c :: c in Comprehension(ks, ChangedEntries(am, bm, matcher)).value && am[k].Diff(bm[k], matcher) == Ok(c)
    ensures forall c :: c in Comprehension(ks, ChangedEntries(am, bm, matcher)).value ==>
              c.DependencyKey() in am && c.DependencyKey() in bm && am[c.DependencyKey()] != bm[c.DependencyKey()]
              && am[c.DependencyKey()].Diff(bm[c.DependencyKey()], matcher) == Ok(c)
  {
    var entry := ChangedEntries(am, bm, matcher);
    ComprehensionMembers(ks, entry);
    var cs := Comprehension(ks, entry).value;
    forall i, j | 0 <= i < j < |ks| && entry(ks[i]).value.Some? && entry(ks[j]).value.Some?
      ensures entry(ks[i]).value.value.DependencyKey() != entry(ks[j]).value.value.DependencyKey()
    {
      ChangedEntryKey(ks[i], am, bm, matcher);
      ChangedEntryKey(ks[j], am, bm, matcher);
    }
    ComprehensionDistinct(ks, entry);
    forall c | c in cs ensures c.DependencyKey() in am && c.DependencyKey() in bm && am[c.DependencyKey()] != bm[c.DependencyKey()]
                               && am[c.DependencyKey()].Diff(bm[c.DependencyKey()], matcher) == Ok(c) {
      var i :| 0 <= i < |ks| && entry(ks[i]) == Ok(Some(c));
      ChangedEntryKey(ks[i], am, bm, matcher);
    }
    forall k | k in am && k in bm && am[k] != bm[k] ensures exists c :: c in cs && am[k].Diff(bm[k], matcher) == Ok(c) {
      var i :| 0 <= i < |ks| && ks[i] == k;
      assert entry(ks[i]).Ok?;
      ChangedEntryKey(ks[i], am, bm, matcher);
      assert entry(ks[i]).value.value in cs;
    }
    assert cs == Comprehension(ks, ChangedEntries(am, bm, matcher)).value;
  }

  /** The three comprehensions `diff` concatenates. */
  lemma DiffParts(a: System, b: System, matcher: Matcher)
    requires Diff(a, b, matcher).Ok?
    ensures var am, bm := ByKey(a.components), ByKey(b.components);
            && Comprehension(Order(b.components), AddedEntries(am, bm, matcher)).Ok?
            && Comprehension(Order(a.components), RemovedEntries(am, bm)).Ok?
            && Comprehension(Order(b.components), ChangedEntries(am, bm, matcher)).Ok?
            && Diff(a, b, matcher).value.components ==
                 Comprehension(Order(b.components), AddedEntries(am, bm, matcher)).value
                 + Comprehension(Order(a.components), RemovedEntries(am, bm)).value
                 + Comprehension(Order(b.components), ChangedEntries(am, bm, matcher)).value
  {
  }

  /** A diff files no two components under the same key. */
  lemma DiffDistinct(a: System, b: System, matcher: Matcher)
    requires Diff(a, b, matcher).Ok?
    requires NoPlaceholders(b.components)
    ensures DistinctKeys(Diff(a, b, matcher).value.components)
  {
    DiffParts(a, b, matcher);
    var am := ByKey(a.components);
    var bm := ByKey(b.components);
    var ka := Order(a.components);
    var kb := Order(b.components);
    var added := Comprehension(kb, AddedEntries(am, bm, matcher)).value;
    var removed := Comprehension(ka, RemovedEntries(am, bm)).value;
    var changed := Comprehension(kb, ChangedEntries(am, bm, matcher)).value;
    AddedFacts(kb, am, bm, matcher);
    RemovedFacts(ka, am, bm);
    ChangedFacts(kb, am, bm, matcher);
    forall c: Component | c in added + changed ensures c.name != REMOVE {
      var k := c.DependencyKey();
      assert k in bm;
      var i :| 0 <= i < |b.components| && b.components[i] == bm[k];
    }
    forall c: Component, d: Component | c in added && d in removed ensures c.DependencyKey() != d.DependencyKey() {
      assert c in added + changed;
    }
    DistinctConcat(added, removed);
    forall c: Component, d: Component | c in added + removed && d in changed ensures c.DependencyKey() != d.DependencyKey() {
      assert d in added + changed;
    }
    DistinctConcat(added + removed, changed);
    assert Diff(a, b, matcher).value.components == added + removed + changed;
  }

  /** The components of a diff, by where they come from: `diff(A, B)` holds exactly the
      zero-diffs of B-only components, the placeholders of A-only components and the diffs of
      shared components that differ. */
  lemma DiffComponents(a: System, b: System, matcher: Matcher)
    requires Diff(a, b, matcher).Ok?
    ensures forall k :: k in ByKey(b.components) && k !in ByKey(a.components) ==>
              exists c :: c in Diff(a, b, matcher).value.components && ByKey(b.components)[k].ZeroDiff(matcher) == Ok(c)
    ensures forall k :: k in ByKey(a.components) && k !in ByKey(b.components) ==>
              Placeholder(ByKey(a.components)[k]) in Diff(a, b, matcher).value.components
    ensures forall k :: k in ByKey(a.components) && k in ByKey(b.components) && ByKey(a.components)[k] != ByKey(b.components)[k] ==>
              exists c :: c in Diff(a, b, matcher).value.components && ByKey(a.components)[k].Diff(ByKey(b.components)[k], matcher) == Ok(c)
    ensures forall c :: c in Diff(a, b, matcher).value.components ==>
              var am, bm, k := ByKey(a.components), ByKey(b.components), c.DependencyKey();
              || (k in bm && k !in am && bm[k].ZeroDiff(matcher) == Ok(c))
              || (c.name == REMOVE && exists k' :: k' in am && k' !in bm && c == Placeholder(am[k']))
              || (k in am && k in bm && am[k] != bm[k] && am[k].Diff(bm[k], matcher) == Ok(c))
  {
    DiffParts(a, b, matcher);
    var am := ByKey(a.components);
    var bm := ByKey(b.components);
    var ka := Order(a.components);
    var kb := Order(b.components);
    var added := Comprehension(kb, AddedEntries(am, bm, matcher)).value;
    var removed := Comprehension(ka, RemovedEntries(am, bm)).value;
    var changed := Comprehension(kb, ChangedEntries(am, bm, matcher)).value;
    var cs := added + removed + changed;
    assert Diff(a, b, matcher).value.components == cs;
    AddedFacts(kb, am, bm, matcher);
    RemovedFacts(ka, am, bm);
    ChangedFacts(kb, am, bm, matcher);
    forall c: Component | c in cs
      ensures var k := c.DependencyKey();
              || (k in bm && k !in am && bm[k].ZeroDiff(matcher) == Ok(c))
              || (c.name == REMOVE && exists k' :: k' in am && k' !in bm && c == Placeholder(am[k']))
              || (k in am && k in bm && am[k] != bm[k] && am[k].Diff(bm[k], matcher) == Ok(c))
    {
      if c in added {
      } else if c in removed {
      } else {
        assert c in changed;
      }
    }
  }

  // ---------------------------------------------------------------------------------------
  // Comprehensions that pick components out of a key map
  // ---------------------------------------------------------------------------------------

  /** A comprehension over distinct keys whose entry for `k` is `target[k]` when `k` is in
      `keep` and nothing otherwise lists exactly those components, under distinct keys. */
  lemma ComprehensionOfTarget(ks: seq<Key>, entry: Key -> Result<Option<Component>>,
                              target: map<Key, Component>, keep: set<Key>)
    requires KeyedBy(target) && keep <= target.Keys
    requires forall i, j :: 0 <= i < j < |ks| ==> ks[i] != ks[j]
    requires forall i :: 0 <= i < |ks| && ks[i] in keep ==> entry(ks[i]) == Ok(Some(target[ks[i]]))
    requires forall i :: 0 <= i < |ks| && ks[i] !in keep ==> entry(ks[i]) == Ok(None)
    ensures Comprehension(ks, entry).Ok?
    ensures DistinctKeys(Comprehension(ks, entry).value)
    ensures forall s :: s in Comprehension(ks, entry).value ==>
              s.DependencyKey() in keep && target[s.DependencyKey()] == s
    ensures forall k :: k in keep && k in ks ==> target[k] in Comprehension(ks, entry).value
  {
    assert forall i :: 0 <= i < |ks| ==> entry(ks[i]).Ok?;
    var cs := Comprehension(ks, entry).value;
    ComprehensionMembers(ks, entry);
    forall i, j | 0 <= i < j < |ks| && entry(ks[i]).value.Some? && entry(ks[j]).value.Some?
      ensures entry(ks[i]).value.value.DependencyKey() != entry(ks[j]).value.value.DependencyKey()
    {
      assert ks[i] in keep && ks[j] in keep;
    }
    ComprehensionDistinct(ks, entry);
    forall s | s in cs ensures s.DependencyKey() in keep && target[s.DependencyKey()] == s {
      var i :| 0 <= i < |ks| && entry(ks[i]) == Ok(Some(s));
      assert ks[i] in keep;
    }
    forall k | k in keep && k in ks ensures target[k] in cs {
      var i :| 0 <= i < |ks| && ks[i] == k;
      assert entry(ks[i]).value.value in cs;
    }
  }

  /** A list without repeated keys holding exactly the components of a key map has that key
      map. */
  lemma ByKeyCover(s: seq<Component>, m: map<Key, Component>)
    requires KeyedBy(m) && DistinctKeys(s)
    requires forall c :: c in s ==> c.DependencyKey() in m && m[c.DependencyKey()] == c
    requires forall k :: k in m ==> m[k] in s
    ensures ByKey(s) == m
  {
    ByKeyDistinct(s);
    var bs := ByKey(s);
    forall k | k in m ensures k in bs && bs[k] == m[k] {
      var i :| 0 <= i < |s| && s[i] == m[k];
      assert s[i].DependencyKey() == k;
    }
    forall k | k in bs ensures k in m {
      assert bs[k] in s;
    }
    assert bs.Keys == m.Keys;
  }
}
