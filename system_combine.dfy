/** `System.combine`: two full systems merged key by key. Shared keys are combined
    component-wise; keys on one side only are copied. */
module SystemCombine {
  import opened Errors
  import Elements
  import opened Components
  import opened PyOrder
  import opened Systems

  /** The first loop's entry for a key of `a`: a copy when `b` has no component under the key,
      the combined component otherwise. */
  function CombinedEntry(k: Key, am: map<Key, Component>, bm: map<Key, Component>): (r: Result<Option<Component>>)
    ensures r.Ok? ==> (r.value.Some? <==> k in am)
    ensures k in am && k !in bm ==> (r.Ok? <==> am[k].Copy().Ok?)
    ensures k in am && k in bm ==> (r.Ok? <==> am[k].Combine(bm[k]).Ok?)
    ensures r.Ok? && r.value.Some? && k !in bm ==> r.value.value == am[k]
    ensures r.Ok? && r.value.Some? && k in bm ==> am[k].Combine(bm[k]) == Ok(r.value.value)
  {
    if k !in am then Ok(None)
    else if k !in bm then
      var copy :- am[k].Copy();
      Ok(Some(copy))
    else
      var combined :- am[k].Combine(bm[k]);
      Ok(Some(combined))
  }

  /** The second loop's entry for a key of `b`: a copy unless the first loop filled the key. */
  function CopiedEntry(k: Key, am: map<Key, Component>, bm: map<Key, Component>): (r: Result<Option<Component>>)
    ensures r.Ok? ==> (r.value.Some? <==> k in bm && k !in am)
    ensures k in bm && k !in am ==> (r.Ok? <==> bm[k].Copy().Ok?)
    ensures r.Ok? && r.value.Some? ==> r.value.value == bm[k]
  {
    if k !in bm || k in am then Ok(None)
    else
      var copy :- bm[k].Copy();
      Ok(Some(copy))
  }

  function CombinedEntries(am: map<Key, Component>, bm: map<Key, Component>): Key -> Result<Option<Component>> {
    k => CombinedEntry(k, am, bm)
  }

  function CopiedEntries(am: map<Key, Component>, bm: map<Key, Component>): Key -> Result<Option<Component>> {
    k => CopiedEntry(k, am, bm)
  }

  /** `self.combine(other)`: both systems valid and full, otherwise ValueError; then the
      first loop over `a`'s keys and the second over `b`'s, the dict's values in insertion
      order. */
  function Combine(a: System, b: System): (r: Result<System>)
    ensures Compatible(a, b).Err? ==> r == Err(ValueError)
    ensures Compatible(a, b).Ok? && !(a.IsFull() && b.IsFull()) ==> r == Err(ValueError)
    ensures r.Ok? ==> a.IsValid() && b.IsValid() && a.IsFull() && b.IsFull()
  {
    var _ :- Compatible(a, b);
    if !a.IsFull() || !b.IsFull() then Err(ValueError)
    else
      var am := ByKey(a.components);
      var bm := ByKey(b.components);
      var first :- Comprehension(Order(a.components), CombinedEntries(am, bm));
      var second :- Comprehension(Order(b.components), CopiedEntries(am, bm));
      Ok(System(first + second))
  }

  /** `combine`'s first loop, over the receiver's keys. */
  method CombineLoop(ka: seq<Key>, am: map<Key, Component>, bm: map<Key, Component>)
    returns (r: Result<seq<Component>>)
    requires forall k :: k in ka ==> k in am
    ensures r == Comprehension(ka, CombinedEntries(am, bm))
  {
    ghost var entry := CombinedEntries(am, bm);
    var values: seq<Component> := [];
    var i := 0;
    while i < |ka|
      invariant 0 <= i <= |ka|
      invariant Comprehension(ka[..i], entry) == Ok(values)
    {
      var key := ka[i];
      PushAt(ka, i, entry, values);
      var next: Result<Component>;
      if key !in bm {
        next := am[key].Copy();
      } else {
        next := am[key].Combine(bm[key]);
      }
      assert entry(key) == CombinedEntry(key, am, bm);
      if next.Err? {
        return Err(next.error);
      }
      values := values + [next.value];
      i := i + 1;
    }
    assert ka[..|ka|] == ka;
    return Ok(values);
  }

  /** `combine`'s second loop, over the other system's keys: keys the first loop filled are
      skipped, the others copied and appended after `first`. */
  method CopyLoop(kb: seq<Key>, am: map<Key, Component>, bm: map<Key, Component>, first: seq<Component>)
    returns (r: Result<seq<Component>>)
    requires forall k :: k in kb ==> k in bm
    ensures r == (var s := Comprehension(kb, CopiedEntries(am, bm)); if s.Err? then Err(s.error) else Ok(first + s.value))
  {
    ghost var entry := CopiedEntries(am, bm);
    ghost var second: seq<Component> := [];
    var values := first;
    var j := 0;
    while j < |kb|
      invariant 0 <= j <= |kb|
      invariant Comprehension(kb[..j], entry) == Ok(second)
      invariant values == first + second
    {
      var key := kb[j];
      PushAt(kb, j, entry, second);
      assert entry(key) == CopiedEntry(key, am, bm);
      if key in am {
        j := j + 1;
        continue;
      }
      var next := bm[key].Copy();
      if next.Err? {
        return Err(next.error);
      }
      values := values + [next.value];
      second := second + [next.value];
      j := j + 1;
    }
    assert kb[..|kb|] == kb;
    return Ok(values);
  }

  /** `self.combine(other)`: the guards, then the two loops filling the new dict. */
  method CombineInLoops(a: System, b: System) returns (r: Result<System>)
    ensures r == Combine(a, b)
  {
    var compatible := Compatible(a, b);
    if compatible.Err? {
      return Err(compatible.error);
    }
    if !a.IsFull() || !b.IsFull() {
      return Err(ValueError);
    }
    var am := ByKey(a.components);
    var bm := ByKey(b.components);
    var first := CombineLoop(Order(a.components), am, bm);
    if first.Err? {
      return Err(first.error);
    }
    var all := CopyLoop(Order(b.components), am, bm, first.value);
    if all.Err? {
      return Err(all.error);
    }
    return Ok(System(all.value));
  }

  // ---------------------------------------------------------------------------------------
  // combine as a union of key maps
  // ---------------------------------------------------------------------------------------

  /** The key map `combine` is meant to build from `am` and `bm`, given the combined component
      of every shared key: shared keys hold it, one-sided keys their own component. */
  predicate UnionOf(am: map<Key, Component>, bm: map<Key, Component>, rm: map<Key, Component>) {
    && rm.Keys == am.Keys + bm.Keys
    && (forall k :: k in am && k in bm ==> am[k].Combine(bm[k]) == Ok(rm[k]))
    && (forall k :: k in am && k !in bm ==> rm[k] == am[k])
    && (forall k :: k in bm && k !in am ==> rm[k] == bm[k])
  }

  /** Every component under a key of both maps combines with its counterpart. */
  predicate SharedCombine(am: map<Key, Component>, bm: map<Key, Component>) {
    forall k :: k in am && k in bm ==> am[k].Combine(bm[k]).Ok?
  }

  /** The union of two key maps whose shared components combine. */
  ghost function UnionMap(am: map<Key, Component>, bm: map<Key, Component>): map<Key, Component>
    requires SharedCombine(am, bm)
  {
    map k | k in am.Keys + bm.Keys ::
      if k in am && k in bm then am[k].Combine(bm[k]).value else if k in am then am[k] else bm[k]
  }

  /** The union map is a union in the sense above, and files each component under its own
      key. */
  lemma UnionMapIsUnion(am: map<Key, Component>, bm: map<Key, Component>)
    requires KeyedBy(am) && KeyedBy(bm) && SharedCombine(am, bm)
    ensures KeyedBy(UnionMap(am, bm)) && UnionOf(am, bm, UnionMap(am, bm))
  {
  }

  /** When the first loop succeeds, the shared components combine. */
  lemma FirstLoopCombines(am: map<Key, Component>, bm: map<Key, Component>, ka: seq<Key>)
    requires forall k :: k in am ==> k in ka
    requires Comprehension(ka, CombinedEntries(am, bm)).Ok?
    ensures SharedCombine(am, bm)
  {
    forall k | k in am && k in bm ensures am[k].Combine(bm[k]).Ok? {
      var i :| 0 <= i < |ka| && ka[i] == k;
      assert CombinedEntries(am, bm)(ka[i]) == CombinedEntry(k, am, bm);
    }
  }

  /** The first loop's successful entries are the union's components. */
  lemma FirstLoopEntries(am: map<Key, Component>, bm: map<Key, Component>, ka: seq<Key>)
    requires SharedCombine(am, bm)
    requires Comprehension(ka, CombinedEntries(am, bm)).Ok?
    ensures forall i :: 0 <= i < |ka| && ka[i] in am.Keys ==>
              CombinedEntries(am, bm)(ka[i]) == Ok(Some(UnionMap(am, bm)[ka[i]]))
    ensures forall i :: 0 <= i < |ka| && ka[i] !in am.Keys ==> CombinedEntries(am, bm)(ka[i]) == Ok(None)
  {
    forall i | 0 <= i < |ka| ensures CombinedEntries(am, bm)(ka[i]) == CombinedEntry(ka[i], am, bm) {
    }
  }

  /** The second loop's successful entries are the union's components under the keys only the
      other map has. */
  lemma SecondLoopEntries(am: map<Key, Component>, bm: map<Key, Component>, kb: seq<Key>)
    requires SharedCombine(am, bm)
    requires Comprehension(kb, CopiedEntries(am, bm)).Ok?
    ensures forall i :: 0 <= i < |kb| && kb[i] in bm.Keys - am.Keys ==>
              CopiedEntries(am, bm)(kb[i]) == Ok(Some(UnionMap(am, bm)[kb[i]]))
    ensures forall i :: 0 <= i < |kb| && kb[i] !in bm.Keys - am.Keys ==> CopiedEntries(am, bm)(kb[i]) == Ok(None)
  {
    forall i | 0 <= i < |kb| ensures CopiedEntries(am, bm)(kb[i]) == CopiedEntry(kb[i], am, bm) {
    }
  }

  /** The two loops over key maps whose entries all succeed list the union's components once
      each. */
  lemma {:induction false} LoopsUnion(am: map<Key, Component>, bm: map<Key, Component>, ka: seq<Key>, kb: seq<Key>)
    requires KeyedBy(am) && KeyedBy(bm)
    requires (forall k :: k in ka <==> k in am) && (forall i, j :: 0 <= i < j < |ka| ==> ka[i] != ka[j])
    requires (forall k :: k in kb <==> k in bm) && (forall i, j :: 0 <= i < j < |kb| ==> kb[i] != kb[j])
    requires Comprehension(ka, CombinedEntries(am, bm)).Ok? && Comprehension(kb, CopiedEntries(am, bm)).Ok?
    ensures SharedCombine(am, bm)
    ensures var s := Comprehension(ka, CombinedEntries(am, bm)).value + Comprehension(kb, CopiedEntries(am, bm)).value;
            DistinctKeys(s) && ByKey(s) == UnionMap(am, bm)
  {
    var first, second := CombinedEntries(am, bm), CopiedEntries(am, bm);
    FirstLoopCombines(am, bm, ka);
    var target := UnionMap(am, bm);
    UnionMapIsUnion(am, bm);
    FirstLoopEntries(am, bm, ka);
    SecondLoopEntries(am, bm, kb);
    ComprehensionOfTarget(ka, first, target, am.Keys);
    ComprehensionOfTarget(kb, second, target, bm.Keys - am.Keys);
    var x := Comprehension(ka, first).value;
    var y := Comprehension(kb, second).value;
    DistinctConcat(x, y);
    forall k | k in target ensures target[k] in x + y {
      if k in am {
        assert k in ka;
      } else {
        assert k in kb;
      }
    }
    ByKeyCover(x + y, target);
  }

  /** Whatever `combine` returns lists every key of either system once: shared keys
      combined, one-sided keys unchanged. */
  lemma CombineKeyMap(a: System, b: System)
    requires Combine(a, b).Ok?
    ensures DistinctKeys(Combine(a, b).value.components)
    ensures UnionOf(ByKey(a.components), ByKey(b.components), ByKey(Combine(a, b).value.components))
  {
    LoopsUnion(ByKey(a.components), ByKey(b.components), Order(a.components), Order(b.components));
    UnionMapIsUnion(ByKey(a.components), ByKey(b.components));
  }

  /** Every component of a system whose elements are all deeply full copies to itself. */
  lemma CopiesSucceed(s: System)
    requires DeepFullSystem(s)
    ensures forall k :: k in ByKey(s.components) ==> ByKey(s.components)[k].Copy() == Ok(ByKey(s.components)[k])
  {
    forall k | k in ByKey(s.components) ensures ByKey(s.components)[k].Copy() == Ok(ByKey(s.components)[k]) {
      var i :| 0 <= i < |s.components| && s.components[i] == ByKey(s.components)[k];
    }
  }

  /** Both loops succeed over key maps whose one-sided components copy and whose shared
      components combine. */
  lemma EntriesSucceed(am: map<Key, Component>, bm: map<Key, Component>, ka: seq<Key>, kb: seq<Key>)
    requires (forall k :: k in ka ==> k in am) && (forall k :: k in kb ==> k in bm)
    requires forall k :: k in am && k !in bm ==> am[k].Copy().Ok?
    requires forall k :: k in bm && k !in am ==> bm[k].Copy().Ok?
    requires SharedCombine(am, bm)
    ensures Comprehension(ka, CombinedEntries(am, bm)).Ok?
    ensures Comprehension(kb, CopiedEntries(am, bm)).Ok?
  {
    forall i | 0 <= i < |ka| ensures CombinedEntries(am, bm)(ka[i]).Ok? {
      assert CombinedEntries(am, bm)(ka[i]) == CombinedEntry(ka[i], am, bm);
    }
    forall i | 0 <= i < |kb| ensures CopiedEntries(am, bm)(kb[i]).Ok? {
      assert CopiedEntries(am, bm)(kb[i]) == CopiedEntry(kb[i], am, bm);
    }
  }

  /** Two valid full systems whose elements are all deeply full and whose shared components
      combine: `combine` succeeds. */
  lemma CombineSucceeds(a: System, b: System)
    requires a.IsValid() && b.IsValid() && a.IsFull() && b.IsFull()
    requires DeepFullSystem(a) && DeepFullSystem(b)
    requires SharedCombine(ByKey(a.components), ByKey(b.components))
    ensures Combine(a, b).Ok?
  {
    CopiesSucceed(a);
    CopiesSucceed(b);
    EntriesSucceed(ByKey(a.components), ByKey(b.components), Order(a.components), Order(b.components));
  }

  /** Every component of the map combines with itself into itself. */
  predicate SelfCombine(am: map<Key, Component>) {
    forall k :: k in am ==> am[k].Combine(am[k]) == Ok(am[k])
  }

  /** Each component of a valid full system whose elements all combine with themselves
      combines with itself into itself. */
  lemma ComponentsCombineWithThemselves(a: System)
    requires a.IsValid() && a.IsFull()
    requires forall i, k :: 0 <= i < |a.components| && k in a.components[i].elements ==> Elements.Combinable(a.components[i].elements[k])
    ensures SelfCombine(ByKey(a.components))
  {
    var am := ByKey(a.components);
    forall k | k in am ensures am[k].Combine(am[k]) == Ok(am[k]) {
      var i :| 0 <= i < |a.components| && a.components[i] == am[k];
      Components.CombineIdempotent(am[k]);
    }
  }

  /** Over a key map whose components combine with themselves, both loops of `combine` with
      itself succeed. */
  lemma SelfEntriesSucceed(am: map<Key, Component>, ka: seq<Key>)
    requires forall k :: k in ka ==> k in am
    requires SelfCombine(am)
    ensures Comprehension(ka, CombinedEntries(am, am)).Ok?
    ensures Comprehension(ka, CopiedEntries(am, am)).Ok?
  {
    forall i | 0 <= i < |ka| ensures CombinedEntries(am, am)(ka[i]) == Ok(Some(am[ka[i]])) {
      assert CombinedEntries(am, am)(ka[i]) == CombinedEntry(ka[i], am, am);
    }
    forall i | 0 <= i < |ka| ensures CopiedEntries(am, am)(ka[i]) == Ok(None) {
      assert CopiedEntries(am, am)(ka[i]) == CopiedEntry(ka[i], am, am);
    }
  }

  /** The union of a key map whose components combine with themselves with itself is that
      key map. */
  lemma SelfUnion(am: map<Key, Component>, rm: map<Key, Component>)
    requires SelfCombine(am) && UnionOf(am, am, rm)
    ensures rm == am
  {
    forall k | k in am ensures rm[k] == am[k] {
      assert am[k].Combine(am[k]) == Ok(rm[k]);
    }
  }

  /** A valid full system whose elements all combine with themselves combines with itself
      into the same key map. */
  lemma CombineIdempotent(a: System)
    requires a.IsValid() && a.IsFull()
    requires forall i, k :: 0 <= i < |a.components| && k in a.components[i].elements ==> Elements.Combinable(a.components[i].elements[k])
    ensures Combine(a, a).Ok?
    ensures ByKey(Combine(a, a).value.components) == ByKey(a.components)
  {
    ComponentsCombineWithThemselves(a);
    SelfEntriesSucceed(ByKey(a.components), Order(a.components));
    CombineKeyMap(a, a);
    SelfUnion(ByKey(a.components), ByKey(Combine(a, a).value.components));
  }
}
