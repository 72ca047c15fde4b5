/** The system round trip `A.apply(A.diff(B)) == B`, and the two kinds of system for which
    `apply` as written rejects the diff that `diff` itself produced. */
module SystemRoundTrip {
  import opened Errors
  import Elements
  import opened Components
  import opened PyOrder
  import opened Systems
  import opened SystemApply

  // ---------------------------------------------------------------------------------------
  // diff as a key map
  // ---------------------------------------------------------------------------------------

  /** The components of `diff(A, B)` against the key maps of A (`am`) and B (`bm`): no
      repeated keys, every B-only component has its zero-diff in the list, every A-only one
      its placeholder, every changed one its component diff, and nothing else is listed. */
  ghost predicate DiffList(am: map<Key, Component>, bm: map<Key, Component>, d: seq<Component>,
                           matcher: Elements.Matcher) {
    && KeyedBy(am) && KeyedBy(bm) && DistinctKeys(d)
    && (forall k :: k in am ==> k.name != REMOVE)
    && (forall k :: k in bm ==> k.name != REMOVE)
    && (forall k :: k in bm && k !in am ==> exists c :: c in d && bm[k].ZeroDiff(matcher) == Ok(c))
    && (forall k :: k in am && k !in bm ==> Placeholder(am[k]) in d)
    && (forall k :: k in am && k in bm && am[k] != bm[k] ==> exists c :: c in d && am[k].Diff(bm[k], matcher) == Ok(c))
    && (forall c :: c in d ==>
          var k := c.DependencyKey();
          || (k in bm && k !in am && bm[k].ZeroDiff(matcher) == Ok(c))
          || (c.name == REMOVE && exists k' :: k' in am && k' !in bm && c == Placeholder(am[k']))
          || (k in am && k in bm && am[k] != bm[k] && am[k].Diff(bm[k], matcher) == Ok(c)))
  }

  /** The components of the diff of two systems without placeholders are so listed. */
  lemma DiffListOfDiff(a: System, b: System, matcher: Elements.Matcher)
    requires Diff(a, b, matcher).Ok?
    requires NoPlaceholders(a.components) && NoPlaceholders(b.components)
    ensures DiffList(ByKey(a.components), ByKey(b.components), Diff(a, b, matcher).value.components, matcher)
  {
    DiffDistinct(a, b, matcher);
    DiffComponents(a, b, matcher);
    NoPlaceholderKeys(a.components);
    NoPlaceholderKeys(b.components);
  }

  /** The key map of a list without placeholders has no placeholder key. */
  lemma NoPlaceholderKeys(cs: seq<Component>)
    requires NoPlaceholders(cs)
    ensures forall k :: k in ByKey(cs) ==> k.name != REMOVE
  {
    forall k | k in ByKey(cs) ensures k.name != REMOVE {
      var i :| 0 <= i < |cs| && cs[i] == ByKey(cs)[k];
    }
  }

  /** How the key maps of A (`am`), B (`bm`) and `diff(A, B)` (`cm`) are related: a B-only
      key maps to the zero-diff of its component, an A-only key has its placeholder, a changed
      key maps to the component diff, and nothing else is in `cm`. */
  ghost predicate DiffShape(am: map<Key, Component>, bm: map<Key, Component>, cm: map<Key, Component>,
                            matcher: Elements.Matcher) {
    && KeyedBy(am) && KeyedBy(bm) && KeyedBy(cm)
    && (forall k :: k in am ==> k.name != REMOVE)
    && (forall k :: k in bm ==> k.name != REMOVE)
    && (forall k :: k in bm && k !in am ==> k in cm && bm[k].ZeroDiff(matcher) == Ok(cm[k]))
    && (forall k :: k in am && k !in bm ==> RemovedKey(k) in cm && cm[RemovedKey(k)] == Placeholder(am[k]))
    && (forall k :: k in am && k in bm && am[k] != bm[k] ==> k in cm && am[k].Diff(bm[k], matcher) == Ok(cm[k]))
    && (forall k :: k in cm ==>
          || (k in bm && k !in am)
          || (k.name == REMOVE && exists k' :: k' in am && k' !in bm && k == RemovedKey(k'))
          || (k in am && k in bm && am[k] != bm[k]))
  }

  /** A B-only key of a diff list is filed under its own key with its zero-diff. */
  lemma AddedOfList(am: map<Key, Component>, bm: map<Key, Component>, d: seq<Component>,
                    matcher: Elements.Matcher, k: Key)
    requires DiffList(am, bm, d, matcher) && k in bm && k !in am
    ensures k in ByKey(d) && bm[k].ZeroDiff(matcher) == Ok(ByKey(d)[k])
  {
    var c :| c in d && bm[k].ZeroDiff(matcher) == Ok(c);
    var i :| 0 <= i < |d| && d[i] == c;
    assert c.DependencyKey() == bm[k].DependencyKey() == k;
    ByKeyDistinct(d);
  }

  /** An A-only key of a diff list has its placeholder under the placeholder's key. */
  lemma RemovedOfList(am: map<Key, Component>, bm: map<Key, Component>, d: seq<Component>,
                      matcher: Elements.Matcher, k: Key)
    requires DiffList(am, bm, d, matcher) && k in am && k !in bm
    ensures RemovedKey(k) in ByKey(d) && ByKey(d)[RemovedKey(k)] == Placeholder(am[k])
  {
    var i :| 0 <= i < |d| && d[i] == Placeholder(am[k]);
    ByKeyDistinct(d);
  }

  /** A changed key of a diff list is filed under its own key with the component diff. */
  lemma ChangedOfList(am: map<Key, Component>, bm: map<Key, Component>, d: seq<Component>,
                      matcher: Elements.Matcher, k: Key)
    requires DiffList(am, bm, d, matcher) && k in am && k in bm && am[k] != bm[k]
    ensures k in ByKey(d) && am[k].Diff(bm[k], matcher) == Ok(ByKey(d)[k])
  {
    var c :| c in d && am[k].Diff(bm[k], matcher) == Ok(c);
    var i :| 0 <= i < |d| && d[i] == c;
    assert c.DependencyKey() == am[k].DependencyKey() == k;
    ByKeyDistinct(d);
  }

  /** Every key of a diff list is B-only, a placeholder's or changed. */
  lemma CoverOfList(am: map<Key, Component>, bm: map<Key, Component>, d: seq<Component>,
                    matcher: Elements.Matcher, k: Key)
    requires DiffList(am, bm, d, matcher) && k in ByKey(d)
    ensures || (k in bm && k !in am)
            || (k.name == REMOVE && exists k' :: k' in am && k' !in bm && k == RemovedKey(k'))
            || (k in am && k in bm && am[k] != bm[k])
  {
    var c := ByKey(d)[k];
    assert c in d && c.DependencyKey() == k;
    if c.name == REMOVE && exists k' :: k' in am && k' !in bm && c == Placeholder(am[k']) {
      var k' :| k' in am && k' !in bm && c == Placeholder(am[k']);
      assert k == RemovedKey(am[k'].DependencyKey());
    }
  }

  /** The key map of a diff list has the shape above. */
  lemma ShapeOfList(am: map<Key, Component>, bm: map<Key, Component>, d: seq<Component>,
                    matcher: Elements.Matcher)
    requires DiffList(am, bm, d, matcher)
    ensures DiffShape(am, bm, ByKey(d), matcher)
  {
    var cm := ByKey(d);
    forall k | k in bm && k !in am ensures k in cm && bm[k].ZeroDiff(matcher) == Ok(cm[k]) {
      AddedOfList(am, bm, d, matcher, k);
    }
    forall k | k in am && k !in bm ensures RemovedKey(k) in cm && cm[RemovedKey(k)] == Placeholder(am[k]) {
      RemovedOfList(am, bm, d, matcher, k);
    }
    forall k | k in am && k in bm && am[k] != bm[k] ensures k in cm && am[k].Diff(bm[k], matcher) == Ok(cm[k]) {
      ChangedOfList(am, bm, d, matcher, k);
    }
    forall k | k in cm
      ensures || (k in bm && k !in am)
              || (k.name == REMOVE && exists k' :: k' in am && k' !in bm && k == RemovedKey(k'))
              || (k in am && k in bm && am[k] != bm[k])
    {
      CoverOfList(am, bm, d, matcher, k);
    }
  }

  /** The key maps of two full systems without placeholders and of their diff have the shape
      above. */
  lemma DiffKeyMap(a: System, b: System, matcher: Elements.Matcher)
    requires Diff(a, b, matcher).Ok?
    requires NoPlaceholders(a.components) && NoPlaceholders(b.components)
    ensures DiffShape(ByKey(a.components), ByKey(b.components), ByKey(Diff(a, b, matcher).value.components), matcher)
  {
    DiffListOfDiff(a, b, matcher);
    ShapeOfList(ByKey(a.components), ByKey(b.components), Diff(a, b, matcher).value.components, matcher);
  }

  /** A key of `cm` whose component has the placeholder name is the removal key of an A-only
      key. */
  lemma PlaceholderOfShape(am: map<Key, Component>, bm: map<Key, Component>, cm: map<Key, Component>,
                           matcher: Elements.Matcher, k: Key)
    requires DiffShape(am, bm, cm, matcher) && k in cm && k.name == REMOVE
    ensures exists k' :: k' in am && k' !in bm && k == RemovedKey(k')
  {
  }

  /** The removal set `apply` computes from a diff is the set of A-only keys. */
  lemma RemovalsOfShape(am: map<Key, Component>, bm: map<Key, Component>, cm: map<Key, Component>,
                        matcher: Elements.Matcher)
    requires DiffShape(am, bm, cm, matcher)
    ensures Removals(cm) == Ok(am.Keys - bm.Keys)
  {
    forall k | k in cm && cm[k].name == REMOVE ensures cm[k].qualifier != [] {
      assert cm[k].DependencyKey() == k;
      PlaceholderOfShape(am, bm, cm, matcher, k);
    }
    var r := Removals(cm).value;
    forall x ensures x in r <==> x in am.Keys - bm.Keys {
      if RemovedKey(x) in cm {
        PlaceholderOfShape(am, bm, cm, matcher, RemovedKey(x));
        var k' :| k' in am && k' !in bm && RemovedKey(x) == RemovedKey(k');
        assert x == k';
      }
    }
    assert r == am.Keys - bm.Keys;
  }

  // ---------------------------------------------------------------------------------------
  // The two loops of apply, on a diff
  // ---------------------------------------------------------------------------------------

  /** Every element of every component of a key map is full all the way down. */
  ghost predicate DeepFullMap(m: map<Key, Component>) {
    forall k, e :: k in m && e in m[k].elements ==> Elements.DeepFull(m[k].elements[e])
  }

  /** The first loop on a diff: a shared key yields B's component (copied when unchanged,
      applied when changed) and an A-only key yields nothing. */
  lemma KeptEntryOfShape(am: map<Key, Component>, bm: map<Key, Component>, cm: map<Key, Component>,
                         matcher: Elements.Matcher, k: Key)
    requires Elements.GoodMatcher(matcher) && Elements.EqualReplaceMatcher(matcher) && DiffShape(am, bm, cm, matcher) && DeepFullMap(bm)
    requires k in am
    ensures k in bm ==> KeptEntry(k, am, cm, am.Keys - bm.Keys) == Ok(Some(bm[k]))
    ensures k !in bm ==> KeptEntry(k, am, cm, am.Keys - bm.Keys) == Ok(None)
  {
    if k in bm {
      if am[k] == bm[k] {
        assert am[k].Copy() == Ok(am[k]);
      } else {
        Components.DiffApplyRoundTrip(am[k], bm[k], matcher);
      }
    }
  }

  /** The second loop on a diff: a B-only key yields B's component, zero-applied from its
      zero-diff; every other key of the diff yields nothing. */
  lemma NewEntryOfShape(am: map<Key, Component>, bm: map<Key, Component>, cm: map<Key, Component>,
                        matcher: Elements.Matcher, k: Key)
    requires Elements.GoodMatcher(matcher) && DiffShape(am, bm, cm, matcher) && DeepFullMap(bm)
    requires k in cm
    ensures k in bm && k !in am ==> NewEntry(k, cm, am.Keys * bm.Keys) == Ok(Some(bm[k]))
    ensures !(k in bm && k !in am) ==> NewEntry(k, cm, am.Keys * bm.Keys) == Ok(None)
  {
    if k in bm && k !in am {
      assert cm[k].name == k.name;
      Components.ZeroRoundTrip(bm[k], matcher);
    } else if k !in am.Keys * bm.Keys {
      assert k.name == REMOVE;
    }
  }

  /** The two loops on a diff list B's components once each. */
  lemma LoopsOfShape(am: map<Key, Component>, bm: map<Key, Component>, cm: map<Key, Component>,
                     matcher: Elements.Matcher, ka: seq<Key>, kc: seq<Key>)
    requires Elements.GoodMatcher(matcher) && Elements.EqualReplaceMatcher(matcher) && DiffShape(am, bm, cm, matcher) && DeepFullMap(bm)
    requires (forall k :: k in ka <==> k in am) && (forall i, j :: 0 <= i < j < |ka| ==> ka[i] != ka[j])
    requires (forall k :: k in kc <==> k in cm) && (forall i, j :: 0 <= i < j < |kc| ==> kc[i] != kc[j])
    ensures Comprehension(ka, KeptEntries(am, cm, am.Keys - bm.Keys)).Ok?
    ensures Comprehension(kc, NewEntries(cm, am.Keys - (am.Keys - bm.Keys))).Ok?
    ensures var s := Comprehension(ka, KeptEntries(am, cm, am.Keys - bm.Keys)).value
                     + Comprehension(kc, NewEntries(cm, am.Keys - (am.Keys - bm.Keys))).value;
            DistinctKeys(s) && ByKey(s) == bm
  {
    var first := KeptEntries(am, cm, am.Keys - bm.Keys);
    assert am.Keys - (am.Keys - bm.Keys) == am.Keys * bm.Keys;
    var second := NewEntries(cm, am.Keys - (am.Keys - bm.Keys));
    forall i | 0 <= i < |ka| && ka[i] in am.Keys * bm.Keys ensures first(ka[i]) == Ok(Some(bm[ka[i]])) {
      KeptEntryOfShape(am, bm, cm, matcher, ka[i]);
    }
    forall i | 0 <= i < |ka| && ka[i] !in am.Keys * bm.Keys ensures first(ka[i]) == Ok(None) {
      KeptEntryOfShape(am, bm, cm, matcher, ka[i]);
    }
    ComprehensionOfTarget(ka, first, bm, am.Keys * bm.Keys);
    forall i | 0 <= i < |kc| && kc[i] in bm.Keys - am.Keys ensures second(kc[i]) == Ok(Some(bm[kc[i]])) {
      NewEntryOfShape(am, bm, cm, matcher, kc[i]);
    }
    forall i | 0 <= i < |kc| && kc[i] !in bm.Keys - am.Keys ensures second(kc[i]) == Ok(None) {
      NewEntryOfShape(am, bm, cm, matcher, kc[i]);
    }
    ComprehensionOfTarget(kc, second, bm, bm.Keys - am.Keys);
    var x := Comprehension(ka, first).value;
    var y := Comprehension(kc, second).value;
    DistinctConcat(x, y);
    forall k | k in bm ensures bm[k] in x + y {
      if k in am {
        assert k in ka;
      } else {
        assert k in kc;
      }
    }
    ByKeyCover(x + y, bm);
  }

  /** Once the guards pass, `apply` on a system whose key map has the shape of a diff from
      A's key map to `bm` rebuilds `bm`. */
  lemma AppliedOfShape(a: System, c: System, bm: map<Key, Component>, matcher: Elements.Matcher)
    requires Elements.GoodMatcher(matcher) && Elements.EqualReplaceMatcher(matcher) && DeepFullMap(bm)
    requires DiffShape(ByKey(a.components), bm, ByKey(c.components), matcher)
    ensures Applied(a, c).Ok?
    ensures DistinctKeys(Applied(a, c).value.components)
    ensures ByKey(Applied(a, c).value.components) == bm
  {
    var am, cm := ByKey(a.components), ByKey(c.components);
    var ka, kc := Order(a.components), Order(c.components);
    RemovalsOfShape(am, bm, cm, matcher);
    LoopsOfShape(am, bm, cm, matcher, ka, kc);
  }

  /** Once the guards pass, `apply` on `diff(A, B)` rebuilds B's key map. */
  lemma AppliedDiff(a: System, b: System, matcher: Elements.Matcher)
    requires Elements.GoodMatcher(matcher) && Elements.EqualReplaceMatcher(matcher) && Diff(a, b, matcher).Ok?
    requires NoPlaceholders(a.components) && NoPlaceholders(b.components) && DeepFullSystem(b)
    ensures Applied(a, Diff(a, b, matcher).value).Ok?
    ensures DistinctKeys(Applied(a, Diff(a, b, matcher).value).value.components)
    ensures ByKey(Applied(a, Diff(a, b, matcher).value).value.components) == ByKey(b.components)
  {
    var bm := ByKey(b.components);
    DiffKeyMap(a, b, matcher);
    forall k, e | k in bm && e in bm[k].elements ensures Elements.DeepFull(bm[k].elements[e]) {
      var i :| 0 <= i < |b.components| && b.components[i] == bm[k];
    }
    AppliedOfShape(a, Diff(a, b, matcher).value, bm, matcher);
  }

  /** Every component of a diff is a diff component. */
  lemma DiffIsDiff(a: System, b: System, matcher: Elements.Matcher)
    requires Diff(a, b, matcher).Ok?
    ensures Diff(a, b, matcher).value.IsDiff()
  {
    var d := Diff(a, b, matcher).value.components;
    DiffComponents(a, b, matcher);
    forall i | 0 <= i < |d| ensures d[i].IsDiff() {
      assert d[i] in d;
    }
  }

  /** `A.apply(A.diff(B))` rebuilds B key by key: with the corrected guards always, and as
      written whenever the diff happens to be a valid system. */
  lemma {:induction false} ApplyDiffRoundTrip(a: System, b: System, matcher: Elements.Matcher, fixed: bool)
    requires Elements.GoodMatcher(matcher) && Elements.EqualReplaceMatcher(matcher) && Diff(a, b, matcher).Ok?
    requires NoPlaceholders(a.components) && NoPlaceholders(b.components) && DeepFullSystem(b)
    requires fixed || Diff(a, b, matcher).value.IsValid()
    ensures Apply(a, Diff(a, b, matcher).value, fixed).Ok?
    ensures DistinctKeys(Apply(a, Diff(a, b, matcher).value, fixed).value.components)
    ensures ByKey(Apply(a, Diff(a, b, matcher).value, fixed).value.components) == ByKey(b.components)
  {
    DiffIsDiff(a, b, matcher);
    AppliedDiff(a, b, matcher);
  }

  /** `A.apply(A.diff(B)) == B` under system equality, for a B without repeated keys. */
  lemma ApplyDiffSameSystem(a: System, b: System, matcher: Elements.Matcher, fixed: bool)
    requires Elements.GoodMatcher(matcher) && Elements.EqualReplaceMatcher(matcher) && Diff(a, b, matcher).Ok?
    requires NoPlaceholders(a.components) && NoPlaceholders(b.components) && DeepFullSystem(b)
    requires DistinctKeys(b.components)
    requires fixed || Diff(a, b, matcher).value.IsValid()
    ensures Apply(a, Diff(a, b, matcher).value, fixed).Ok?
    ensures SameSystem(Apply(a, Diff(a, b, matcher).value, fixed).value, b)
  {
    ApplyDiffRoundTrip(a, b, matcher, fixed);
    SameKeyMapSameSystem(Apply(a, Diff(a, b, matcher).value, fixed).value, b);
  }

  // ---------------------------------------------------------------------------------------
  // Where apply as written rejects a diff
  // ---------------------------------------------------------------------------------------

  /** A system holding a component that depends on a key the system does not hold is not
      valid. */
  lemma MissingDependencyInvalid(s: System, c: Component, dep: Key)
    requires c in s.components && dep in c.dependencies && dep !in ByKey(s.components)
    ensures !s.IsValid()
  {
    var i :| 0 <= i < |s.components| && s.components[i] == c;
  }

  /** A system with components, none of which has an element, is both diff and full, hence
      not valid. */
  lemma EmptyComponentsInvalid(s: System)
    requires s.components != []
    requires forall i :: 0 <= i < |s.components| ==> s.components[i].elements == map[]
    ensures !s.IsValid()
  {
    assert s.IsDiff() && s.IsFull();
  }

  /** An added or changed key whose component depends on an unchanged key: the diff's key map
      holds the dependency but not the unchanged key. */
  lemma UnchangedDependencyOfShape(am: map<Key, Component>, bm: map<Key, Component>, cm: map<Key, Component>,
                                   matcher: Elements.Matcher, k: Key, dep: Key)
    requires DiffShape(am, bm, cm, matcher)
    requires k in bm && (k !in am || am[k] != bm[k]) && dep in bm[k].dependencies
    requires dep in am && dep in bm && am[dep] == bm[dep]
    ensures k in cm && dep in cm[k].dependencies && dep !in cm
  {
    if k in am {
      assert am[k].Diff(bm[k], matcher) == Ok(cm[k]);
    } else {
      assert bm[k].ZeroDiff(matcher) == Ok(cm[k]);
    }
  }

  /** A B that adds one component without elements and changes nothing else: the diff's key
      map holds that key alone, with no elements. */
  lemma EmptyAddedOfShape(am: map<Key, Component>, bm: map<Key, Component>, cm: map<Key, Component>,
                          matcher: Elements.Matcher, k: Key)
    requires DiffShape(am, bm, cm, matcher)
    requires k in bm && k !in am && bm[k].elements == map[]
    requires am.Keys == bm.Keys - {k} && (forall x :: x in am ==> am[x] == bm[x])
    ensures cm.Keys == {k} && cm[k].elements == map[]
  {
    assert cm[k].elements.Keys == {};
  }

  /** A component added or changed in B that depends on a component left unchanged: the diff
      carries the dependency but not the unchanged component, so it is not a valid system and
      `apply` as written raises ValueError on it. */
  lemma UnchangedDependencyRejected(a: System, b: System, matcher: Elements.Matcher, k: Key, dep: Key)
    requires Diff(a, b, matcher).Ok?
    requires NoPlaceholders(a.components) && NoPlaceholders(b.components)
    requires var am, bm := ByKey(a.components), ByKey(b.components);
             && k in bm && (k !in am || am[k] != bm[k]) && dep in bm[k].dependencies
             && dep in am && dep in bm && am[dep] == bm[dep]
    ensures !Diff(a, b, matcher).value.IsValid()
    ensures Apply(a, Diff(a, b, matcher).value, false) == Err(ValueError)
  {
    var am, bm := ByKey(a.components), ByKey(b.components);
    var d := Diff(a, b, matcher).value;
    var cm := ByKey(d.components);
    DiffKeyMap(a, b, matcher);
    UnchangedDependencyOfShape(am, bm, cm, matcher, k, dep);
    MissingDependencyInvalid(d, cm[k], dep);
  }

  /** A B that adds one component without elements and changes nothing else: the diff holds
      one component that is both diff and full, so the diff system is neither exclusively and
      `apply` as written raises ValueError on it. */
  lemma EmptyComponentRejected(a: System, b: System, matcher: Elements.Matcher, k: Key)
    requires Diff(a, b, matcher).Ok?
    requires NoPlaceholders(a.components) && NoPlaceholders(b.components)
    requires var am, bm := ByKey(a.components), ByKey(b.components);
             && k in bm && k !in am && bm[k].elements == map[]
             && am.Keys == bm.Keys - {k} && (forall x :: x in am ==> am[x] == bm[x])
    ensures !Diff(a, b, matcher).value.IsValid()
    ensures Apply(a, Diff(a, b, matcher).value, false) == Err(ValueError)
  {
    var am, bm := ByKey(a.components), ByKey(b.components);
    var d := Diff(a, b, matcher).value;
    var cm := ByKey(d.components);
    DiffListOfDiff(a, b, matcher);
    ShapeOfList(am, bm, d.components, matcher);
    EmptyAddedOfShape(am, bm, cm, matcher, k);
    ByKeyDistinct(d.components);
    forall i | 0 <= i < |d.components| ensures d.components[i].elements == map[] {
      assert d.components[i].DependencyKey() in cm;
    }
    assert cm[k] in d.components;
    EmptyComponentsInvalid(d);
  }

  /** A full component of its own under the placeholder's reserved name, and its zero-diff. */
  function NamedLikePlaceholder(): Component {
    Component(REMOVE, [], ["x"], map["_" := Elements.Atom("v")])
  }

  function NamedLikePlaceholderDiff(): Component {
    Component(REMOVE, [], ["x"], map["_" := Elements.AtomDiff("v")])
  }

  /** The zero-diff of `NamedLikePlaceholder`. */
  lemma NamedLikePlaceholderZeroDiff(matcher: Elements.Matcher)
    ensures NamedLikePlaceholder().ZeroDiff(matcher) == Ok(NamedLikePlaceholderDiff())
  {
    var c := NamedLikePlaceholder();
    assert ZeroDiffElement(Elements.Atom("v"), matcher) == Ok(Elements.AtomDiff("v"));
    assert c.ZeroDiff(matcher).Ok?;
    assert c.ZeroDiff(matcher).value.elements == NamedLikePlaceholderDiff().elements;
  }

  /** The comprehensions of `diff` over the one key of `NamedLikePlaceholder`. */
  lemma PlaceholderNameEntries(matcher: Elements.Matcher)
    ensures var k := NamedLikePlaceholder().DependencyKey();
            var bm := map[k := NamedLikePlaceholder()];
            && Comprehension([k], AddedEntries(map[], bm, matcher)) == Ok([NamedLikePlaceholderDiff()])
            && Comprehension([k], ChangedEntries(map[], bm, matcher)) == Ok([])
  {
    NamedLikePlaceholderZeroDiff(matcher);
    var z := NamedLikePlaceholderDiff();
    var k := NamedLikePlaceholder().DependencyKey();
    var am: map<Key, Component> := map[];
    var bm := map[k := NamedLikePlaceholder()];
    var none: seq<Key> := [];
    assert none + [k] == [k];
    var added := AddedEntries(am, bm, matcher);
    var changed := ChangedEntries(am, bm, matcher);
    assert added(k) == Ok(Some(z));
    assert changed(k) == Ok(None);
    ComprehensionPush(none, k, added);
    ComprehensionPush(none, k, changed);
    assert Comprehension(none + [k], added).value == [z];
    assert Comprehension(none + [k], changed).value == [];
  }

  /** Diffing the empty system against one holding `NamedLikePlaceholder` yields its
      zero-diff, which has the reserved name. */
  lemma PlaceholderNameDiff(matcher: Elements.Matcher)
    ensures Diff(System([]), System([NamedLikePlaceholder()]), matcher) == Ok(System([NamedLikePlaceholderDiff()]))
  {
    var a := System([]);
    var c := NamedLikePlaceholder();
    var b := System([c]);
    var k := c.DependencyKey();
    var am: map<Key, Component> := map[];
    var bm := map[k := c];
    assert ByKey(b.components) == bm;
    assert Order(b.components) == [k];
    PlaceholderNameEntries(matcher);
    assert Comprehension([], RemovedEntries(am, bm)) == Ok([]);
    assert "_" in c.elements && !c.IsDiff() && c.IsFull();
    assert b.components[0] == c;
    assert a.IsValid() && a.IsFull() && b.IsFull() && !b.IsDiff() && b.IsValid();
    assert Compatible(a, b).Ok?;
    assert ByKey(a.components) == am && Order(a.components) == [];
    assert [NamedLikePlaceholderDiff()] + [] + [] == [NamedLikePlaceholderDiff()];
  }

  /** Applying that zero-diff to the empty system: `apply` reads the reserved name as a
      removal of `("x", ())` and creates nothing. */
  lemma PlaceholderNameApply(fixed: bool)
    ensures Apply(System([]), System([NamedLikePlaceholderDiff()]), fixed) == Ok(System([]))
  {
    var z := NamedLikePlaceholderDiff();
    var c := System([z]);
    assert "_" in z.elements && z.IsDiff() && !z.IsFull() && z.IsValid();
    assert c.components[0] == z;
    assert c.IsDiff() && !c.IsFull() && c.IsValid();
    var k := z.DependencyKey();
    var cm := map[k := z];
    assert ByKey(c.components) == cm;
    assert Order(c.components) == [k];
    assert Removals(cm).Ok?;
    var kept := ByKey([]).Keys - Removals(cm).value;
    assert Order([]) == [];
    var none: seq<Key> := [];
    assert none + [k] == [k];
    var created := NewEntries(cm, kept);
    assert created(k) == Ok(None);
    ComprehensionPush(none, k, created);
    assert Comprehension([k], created) == Ok([]);
  }

  /** A B holding a component of its own under the placeholder's reserved name: the diff
      carries that component's zero-diff, which `apply` reads as a removal and skips, so the
      component is lost and `A.apply(A.diff(B))` is not B. */
  lemma PlaceholderNameLost(matcher: Elements.Matcher, fixed: bool)
    ensures var b := System([NamedLikePlaceholder()]);
            && Diff(System([]), b, matcher).Ok?
            && Apply(System([]), Diff(System([]), b, matcher).value, fixed) == Ok(System([]))
            && ByKey(b.components) != ByKey([])
  {
    PlaceholderNameDiff(matcher);
    PlaceholderNameApply(fixed);
    assert NamedLikePlaceholder().DependencyKey() in ByKey([NamedLikePlaceholder()]);
  }
}
