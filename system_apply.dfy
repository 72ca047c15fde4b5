/** `System.apply`: a diff system applied to a full system key by key, as the two loops of
    `apply` fill a fresh dict, and the round trip `A.apply(A.diff(B)) == B`. */
module SystemApply {
  import opened Errors
  import opened Elements
  import opened Components
  import opened PyOrder
  import opened Systems

  /** The keys the removal placeholders of a diff name, `(qualifier[0], qualifier[1:])`; a
      placeholder without a qualifier raises IndexError. */
  function Removals(cm: map<Key, Component>): (r: Result<set<Key>>)
    ensures r.Ok? <==> forall k :: k in cm && cm[k].name == REMOVE ==> cm[k].qualifier != []
    ensures r.Err? ==> r.error == IndexError
    ensures r.Ok? && KeyedBy(cm) ==> forall x :: x in r.value <==> RemovedKey(x) in cm
  {
    if exists k :: k in cm && cm[k].name == REMOVE && cm[k].qualifier == [] then Err(IndexError)
    else
      var removals := set k | k in cm && cm[k].name == REMOVE :: Key(cm[k].qualifier[0], cm[k].qualifier[1..]);
      assert KeyedBy(cm) ==> forall x :: x in removals <==> RemovedKey(x) in cm by {
        if KeyedBy(cm) {
          forall x ensures x in removals <==> RemovedKey(x) in cm {
            if x in removals {
              var k :| k in cm && cm[k].name == REMOVE && Key(cm[k].qualifier[0], cm[k].qualifier[1..]) == x;
              assert cm[k].qualifier == [x.name] + x.qualifier;
            }
            if RemovedKey(x) in cm {
              var k := RemovedKey(x);
              assert cm[k].qualifier == [x.name] + x.qualifier;
              assert Key(cm[k].qualifier[0], cm[k].qualifier[1..]) == x;
            }
          }
        }
      }
      Ok(removals)
  }

  /** The guards `apply` runs first.  As written both systems must be valid, the receiver
      full and the other a diff.  With `fixed` the diff need only consist of diff components:
      it is not asked to hold the components its components depend on, nor to be anything
      but diff when every component of it is empty. */
  function ApplyChecks(a: System, c: System, fixed: bool): (r: Result<()>)
    ensures r.Err? ==> r.error == ValueError
    ensures r.Ok? ==> a.IsValid() && a.IsFull() && c.IsDiff()
    ensures !fixed ==> (r.Ok? <==> a.IsValid() && c.IsValid() && a.IsFull() && c.IsDiff())
    ensures fixed && a.IsValid() && a.IsFull() && c.IsDiff() ==> r.Ok?
  {
    if fixed then
      if a.IsValid() && a.IsFull() && c.IsDiff() then Ok(()) else Err(ValueError)
    else
      var _ :- Compatible(a, c);
      if !a.IsFull() || !c.IsDiff() then Err(ValueError) else Ok(())
  }

  /** The first loop's entry for a key of `a`: nothing for a removed key, a copy when the diff
      has no component under the key, and the applied component otherwise. */
  function KeptEntry(k: Key, am: map<Key, Component>, cm: map<Key, Component>, removals: set<Key>)
    : (r: Result<Option<Component>>)
    ensures r.Ok? ==> (r.value.Some? <==> k in am && k !in removals)
    ensures k in am && k !in removals && k !in cm ==> (r.Ok? <==> am[k].Copy().Ok?)
    ensures k in am && k !in removals && k in cm ==> (r.Ok? <==> am[k].Apply(cm[k]).Ok?)
    ensures r.Ok? && r.value.Some? && k !in cm ==> r.value.value == am[k]
    ensures r.Ok? && r.value.Some? && k in cm ==> am[k].Apply(cm[k]) == Ok(r.value.value)
  {
    if k !in am || k in removals then Ok(None)
    else if k !in cm then
      var copy :- am[k].Copy();
      Ok(Some(copy))
    else
      var applied :- am[k].Apply(cm[k]);
      Ok(Some(applied))
  }

  /** The second loop's entry for a key of the diff: the zero-applied component, unless the
      key was filled by the first loop or names a removal placeholder. */
  function NewEntry(k: Key, cm: map<Key, Component>, kept: set<Key>): (r: Result<Option<Component>>)
    ensures r.Ok? ==> (r.value.Some? <==> k in cm && k !in kept && cm[k].name != REMOVE)
    ensures k in cm && k !in kept && cm[k].name != REMOVE ==> (r.Ok? <==> cm[k].ZeroApply().Ok?)
    ensures r.Ok? && r.value.Some? ==> cm[k].ZeroApply() == Ok(r.value.value)
  {
    if k !in cm || k in kept || cm[k].name == REMOVE then Ok(None)
    else
      var z :- cm[k].ZeroApply();
      Ok(Some(z))
  }

  function KeptEntries(am: map<Key, Component>, cm: map<Key, Component>, removals: set<Key>)
    : Key -> Result<Option<Component>>
  {
    k => KeptEntry(k, am, cm, removals)
  }

  function NewEntries(cm: map<Key, Component>, kept: set<Key>): Key -> Result<Option<Component>> {
    k => NewEntry(k, cm, kept)
  }

  /** What `apply` returns once its guards pass: the first loop over `a`'s keys, then the
      second over the diff's keys, the dict's values in insertion order. */
  function Applied(a: System, c: System): (r: Result<System>) {
    var am := ByKey(a.components);
    var cm := ByKey(c.components);
    var removals :- Removals(cm);
    var first :- Comprehension(Order(a.components), KeptEntries(am, cm, removals));
    var second :- Comprehension(Order(c.components), NewEntries(cm, am.Keys - removals));
    var result := first + second;
    Ok(System(result))
  }

  /** `self.apply(other)`: the guards, then `Applied`. */
  function Apply(a: System, c: System, fixed: bool): (r: Result<System>)
    ensures ApplyChecks(a, c, fixed).Err? ==> r == Err(ValueError)
    ensures r.Ok? ==> a.IsValid() && a.IsFull() && c.IsDiff()
  {
    var _ :- ApplyChecks(a, c, fixed);
    Applied(a, c)
  }

  /** `apply`'s first loop, over the receiver's keys: removed keys are skipped, keys the diff
      does not mention are copied, the others applied; returns the values stored, in order,
      and the keys filled. */
  method KeepLoop(ka: seq<Key>, am: map<Key, Component>, cm: map<Key, Component>, remove: set<Key>)
    returns (r: Result<seq<Component>>, keys: set<Key>)
    requires forall k :: k in ka ==> k in am
    ensures r == Comprehension(ka, KeptEntries(am, cm, remove))
    ensures r.Ok? ==> forall k :: k in keys <==> k in ka && k !in remove
  {
    ghost var entry := KeptEntries(am, cm, remove);
    var values: seq<Component> := [];
    keys := {};
    var i := 0;
    while i < |ka|
      invariant 0 <= i <= |ka|
      invariant Comprehension(ka[..i], entry) == Ok(values)
      invariant forall k :: k in keys <==> k in ka[..i] && k !in remove
    {
      var key := ka[i];
      assert ka[..i] + [key] == ka[..i + 1];
      PushAt(ka, i, entry, values);
      assert entry(key) == KeptEntry(key, am, cm, remove);
      if key in remove {
        i := i + 1;
        continue;
      }
      var next: Result<Component>;
      if key !in cm {
        next := am[key].Copy();
      } else {
        next := am[key].Apply(cm[key]);
      }
      if next.Err? {
        return Err(next.error), keys;
      }
      values := values + [next.value];
      keys := keys + {key};
      i := i + 1;
    }
    assert ka[..|ka|] == ka;
    return Ok(values), keys;
  }

  /** `apply`'s second loop, over the diff's keys: keys already filled and placeholders are
      skipped, the others zero-applied and appended after `first`. */
  method NewLoop(kc: seq<Key>, cm: map<Key, Component>, first: seq<Component>, kept: set<Key>)
    returns (r: Result<seq<Component>>)
    requires forall k :: k in kc ==> k in cm
    requires forall i, j :: 0 <= i < j < |kc| ==> kc[i] != kc[j]
    ensures r == (var s := Comprehension(kc, NewEntries(cm, kept)); if s.Err? then Err(s.error) else Ok(first + s.value))
  {
    ghost var entry := NewEntries(cm, kept);
    ghost var second: seq<Component> := [];
    var values := first;
    var keys := kept;
    var j := 0;
    while j < |kc|
      invariant 0 <= j <= |kc|
      invariant Comprehension(kc[..j], entry) == Ok(second)
      invariant values == first + second
      invariant kept <= keys
      invariant forall k :: k in keys && k !in kept ==> k in kc[..j]
    {
      var key := kc[j];
      assert kc[..j] + [key] == kc[..j + 1];
      assert key !in kc[..j];
      PushAt(kc, j, entry, second);
      assert entry(key) == NewEntry(key, cm, kept);
      if key in keys || cm[key].name == REMOVE {
        j := j + 1;
        continue;
      }
      var next := cm[key].ZeroApply();
      if next.Err? {
        return Err(next.error);
      }
      values := values + [next.value];
      second := second + [next.value];
      keys := keys + {key};
      j := j + 1;
    }
    assert kc[..|kc|] == kc;
    return Ok(values);
  }

  /** `self.apply(other)`: the guards, the removal set, then the two loops filling the new
      dict. */
  method ApplyInLoops(a: System, c: System, fixed: bool) returns (r: Result<System>)
    ensures r == Apply(a, c, fixed)
  {
    var checks := ApplyChecks(a, c, fixed);
    if checks.Err? {
      return Err(checks.error);
    }
    var am := ByKey(a.components);
    var cm := ByKey(c.components);
    var removals := Removals(cm);
    if removals.Err? {
      return Err(removals.error);
    }
    var first, keys := KeepLoop(Order(a.components), am, cm, removals.value);
    if first.Err? {
      return Err(first.error);
    }
    assert keys == am.Keys - removals.value;
    var all := NewLoop(Order(c.components), cm, first.value, keys);
    if all.Err? {
      return Err(all.error);
    }
    return Ok(System(all.value));
  }
}
