/** `System.__iter__`: components in rounds. Each round yields, in dataclass order, every
    component none of whose dependencies is still waiting, and a round with nothing to yield
    while components wait raises ValueError. */
module SystemIteration {
  import opened Errors
  import opened Components
  import opened PyOrder
  import opened Systems

  /** The dependency keys of a list of components. */
  function KeysOf(cs: seq<Component>): set<Key> {
    if cs == [] then {} else {cs[0].DependencyKey()} + KeysOf(cs[1..])
  }

  /** A key is among the keys of a list exactly when some component of the list has it. */
  lemma {:induction false} KeysOfIndex(cs: seq<Component>)
    ensures forall i :: 0 <= i < |cs| ==> cs[i].DependencyKey() in KeysOf(cs)
    ensures forall k :: k in KeysOf(cs) ==> exists i :: 0 <= i < |cs| && cs[i].DependencyKey() == k
    decreases |cs|
  {
    if cs != [] {
      KeysOfIndex(cs[1..]);
      forall k | k in KeysOf(cs) ensures exists i :: 0 <= i < |cs| && cs[i].DependencyKey() == k {
        if k != cs[0].DependencyKey() {
          var i :| 0 <= i < |cs[1..]| && cs[1..][i].DependencyKey() == k;
          assert cs[i + 1] == cs[1..][i];
        }
      }
      forall i | 1 <= i < |cs| ensures cs[i].DependencyKey() in KeysOf(cs) {
        assert cs[i] == cs[1..][i - 1];
      }
    }
  }

  lemma {:induction false} KeysOfConcat(a: seq<Component>, b: seq<Component>)
    ensures KeysOf(a + b) == KeysOf(a) + KeysOf(b)
    decreases |a|
  {
    if a == [] {
      assert a + b == b;
    } else {
      KeysOfConcat(a[1..], b);
      assert (a + b)[1..] == a[1..] + b;
    }
  }

  /** None of the component's dependencies is still in the working dict. */
  predicate Unblocked(c: Component, waiting: map<Key, Component>) {
    forall d :: d in c.dependencies ==> d !in waiting
  }

  /** `c` is waiting under its own key and none of its dependencies is waiting. */
  predicate Ready(c: Component, waiting: map<Key, Component>) {
    c.DependencyKey() in waiting && waiting[c.DependencyKey()] == c && Unblocked(c, waiting)
  }

  /** The list comprehension of one round: the waiting components, in the order of `ks`, that
      are not blocked. */
  function UnblockedIn(ks: seq<Key>, waiting: map<Key, Component>): seq<Component> {
    if ks == [] then []
    else
      var rest := UnblockedIn(ks[1..], waiting);
      if ks[0] in waiting && Unblocked(waiting[ks[0]], waiting) then [waiting[ks[0]]] + rest else rest
  }

  /** A round yields only ready components, each under a key of `ks`. */
  lemma {:induction false} UnblockedSound(ks: seq<Key>, waiting: map<Key, Component>)
    requires KeyedBy(waiting)
    ensures forall c :: c in UnblockedIn(ks, waiting) ==> c.DependencyKey() in ks && Ready(c, waiting)
    decreases |ks|
  {
    if ks != [] {
      UnblockedSound(ks[1..], waiting);
      assert forall k :: k in ks[1..] ==> k in ks;
    }
  }

  /** A round yields every ready component whose key is in `ks`. */
  lemma {:induction false} UnblockedComplete(ks: seq<Key>, waiting: map<Key, Component>)
    ensures forall k :: k in ks && k in waiting && Unblocked(waiting[k], waiting) ==> waiting[k] in UnblockedIn(ks, waiting)
    decreases |ks|
  {
    if ks != [] {
      UnblockedComplete(ks[1..], waiting);
      assert forall k :: k in ks ==> k == ks[0] || k in ks[1..];
    }
  }

  /** Over distinct keys a round lists no key twice. */
  lemma {:induction false} UnblockedDistinct(ks: seq<Key>, waiting: map<Key, Component>)
    requires KeyedBy(waiting)
    requires forall i, j :: 0 <= i < j < |ks| ==> ks[i] != ks[j]
    ensures DistinctKeys(UnblockedIn(ks, waiting))
    decreases |ks|
  {
    if ks != [] {
      var rest := UnblockedIn(ks[1..], waiting);
      UnblockedDistinct(ks[1..], waiting);
      UnblockedSound(ks[1..], waiting);
      if ks[0] in waiting && Unblocked(waiting[ks[0]], waiting) {
        forall c | c in rest ensures c.DependencyKey() != waiting[ks[0]].DependencyKey() {
          var t :| 0 <= t < |ks[1..]| && ks[1..][t] == c.DependencyKey();
          assert ks[t + 1] != ks[0];
        }
        ConsDistinct(waiting[ks[0]], rest);
      }
    }
  }

  /** A round, sorted: ascending, without repeated keys, and made of ready components. */
  lemma SortedRound(ks: seq<Key>, waiting: map<Key, Component>, sorted: seq<Component>)
    requires KeyedBy(waiting)
    requires forall i, j :: 0 <= i < j < |ks| ==> ks[i] != ks[j]
    requires sorted == Sort(UnblockedIn(ks, waiting))
    ensures Sorted(sorted) && DistinctKeys(sorted)
    ensures forall i :: 0 <= i < |sorted| ==> Ready(sorted[i], waiting)
  {
    var u := UnblockedIn(ks, waiting);
    UnblockedDistinct(ks, waiting);
    UnblockedSound(ks, waiting);
    SortSorted(u);
    SortDistinct(u);
    forall i | 0 <= i < |sorted| ensures Ready(sorted[i], waiting) {
      assert sorted[i] in multiset(sorted);
    }
  }

  /** A component ready at the start of a round stays ready while others of the round are
      popped. */
  lemma ReadyLater(c: Component, start: map<Key, Component>, waiting: map<Key, Component>)
    requires Ready(c, start) && c.DependencyKey() in waiting
    requires waiting.Keys <= start.Keys && forall k :: k in waiting ==> waiting[k] == start[k]
    ensures Ready(c, waiting)
  {
  }

  /** The rounds laid end to end. */
  function Flatten(rounds: seq<seq<Component>>): seq<Component> {
    if rounds == [] then [] else rounds[0] + Flatten(rounds[1..])
  }

  /** Every round is non-empty and in ascending order. */
  predicate RoundsSorted(rounds: seq<seq<Component>>) {
    rounds == [] || (rounds[0] != [] && Sorted(rounds[0]) && RoundsSorted(rounds[1..]))
  }

  lemma {:induction false} RoundsSortedAppend(rounds: seq<seq<Component>>, last: seq<Component>)
    requires RoundsSorted(rounds) && last != [] && Sorted(last)
    ensures RoundsSorted(rounds + [last])
    decreases |rounds|
  {
    if rounds == [] {
      assert [last][1..] == [];
    } else {
      RoundsSortedAppend(rounds[1..], last);
      assert (rounds + [last])[1..] == rounds[1..] + [last];
    }
  }

  /** Read round by round: each round is non-empty and ascending. */
  lemma {:induction false} RoundsSortedEach(rounds: seq<seq<Component>>)
    requires RoundsSorted(rounds)
    ensures forall i :: 0 <= i < |rounds| ==> rounds[i] != [] && Sorted(rounds[i])
    decreases |rounds|
  {
    if rounds != [] {
      RoundsSortedEach(rounds[1..]);
      forall i | 1 <= i < |rounds| ensures rounds[i] == rounds[1..][i - 1] { }
    }
  }

  /** A round added at the end is yielded after the earlier ones. */
  lemma {:induction false} FlattenAppend(rounds: seq<seq<Component>>, last: seq<Component>)
    ensures Flatten(rounds + [last]) == Flatten(rounds) + last
    decreases |rounds|
  {
    if rounds == [] {
      assert [last][1..] == [];
    } else {
      FlattenAppend(rounds[1..], last);
      assert (rounds + [last])[1..] == rounds[1..] + [last];
    }
  }

  /** Each dependency `c` has in `m` is among the keys `done`. */
  predicate DependenciesAmong(c: Component, m: map<Key, Component>, done: set<Key>) {
    forall d :: d in c.dependencies && d in m ==> d in done
  }

  /** Every component of the list comes after each component of `m` it depends on. */
  predicate DependenciesFirst(out: seq<Component>, m: map<Key, Component>) {
    forall i :: 0 <= i < |out| ==> DependenciesAmong(out[i], m, KeysOf(out[..i]))
  }

  /** `k` is a key of the system not yet yielded. */
  predicate Pending(k: Key, m: map<Key, Component>, done: set<Key>) {
    k in m && k !in done
  }

  /** Some components are left, and every one of them depends on another one that is left. */
  ghost predicate Stuck(m: map<Key, Component>, done: set<Key>) {
    && m.Keys - done != {}
    && forall k {:trigger Pending(k, m, done)} :: Pending(k, m, done) ==>
         exists d :: d in m[k].dependencies && d in m && d !in done
  }

  /** Every component of the list is the one `m` files under its key. */
  predicate DrawnFrom(out: seq<Component>, m: map<Key, Component>) {
    forall c :: c in out ==> c.DependencyKey() in m && m[c.DependencyKey()] == c
  }

  /** The state of the iteration: `waiting` is what is left of the system's dict `m`, and
      `out` has yielded the rest, each key once and after the dependencies it has in `m`. */
  predicate Progress(m: map<Key, Component>, out: seq<Component>, waiting: map<Key, Component>) {
    && KeyedBy(m)
    && waiting.Keys <= m.Keys
    && (forall k :: k in waiting ==> waiting[k] == m[k])
    && KeysOf(out) == m.Keys - waiting.Keys
    && DistinctKeys(out)
    && DrawnFrom(out, m)
    && DependenciesFirst(out, m)
  }

  /** The working dict once the keys `done` were popped from the system's dict `m`. */
  ghost function Left(m: map<Key, Component>, done: set<Key>): map<Key, Component> {
    map k | k in m && k !in done :: m[k]
  }

  /** A round holds exactly the components that are ready once the keys `done` were popped. */
  ghost predicate FullRound(round: seq<Component>, m: map<Key, Component>, done: set<Key>) {
    forall c :: c in round <==> Ready(c, Left(m, done))
  }

  /** Every round holds exactly the components ready after the earlier rounds. */
  ghost predicate RoundsFull(rounds: seq<seq<Component>>, m: map<Key, Component>) {
    forall i :: 0 <= i < |rounds| ==> FullRound(rounds[i], m, KeysOf(Flatten(rounds[..i])))
  }

  /** Iterating over a system: the components yielded, whether the iteration ran to the end or
      raised, and (as a ghost) the rounds. Every component is yielded at most once, after the
      components of the system it depends on; each round is in ascending order; the iteration
      ends when every component was yielded, and raises ValueError exactly when the components
      left all wait on one another. Each round holds exactly the components ready once the earlier
      rounds were popped, so with its ascending order the rounds are fixed by the system. */
  method Iterate(s: System) returns (out: seq<Component>, r: Result<()>, ghost rounds: seq<seq<Component>>)
    ensures Flatten(rounds) == out
    ensures RoundsSorted(rounds)
    ensures RoundsFull(rounds, ByKey(s.components))
    ensures DistinctKeys(out)
    ensures DrawnFrom(out, ByKey(s.components))
    ensures DependenciesFirst(out, ByKey(s.components))
    ensures r.Ok? ==> KeysOf(out) == ByKey(s.components).Keys
    ensures r.Err? ==> r.error == ValueError && Stuck(ByKey(s.components), KeysOf(out))
  {
    var m := ByKey(s.components);
    var order := Order(s.components);
    var waiting := m;
    out := [];
    rounds := [];
    assert KeysOf(out) == {};
    while waiting != map[]
      invariant IterState(m, out, waiting, rounds)
      decreases |waiting|
    {
      var unblocked := UnblockedIn(order, waiting);
      if unblocked == [] {
        StuckOfEmptyRound(m, KeysOf(out), waiting, order);
        StateFacts(m, out, waiting, rounds);
        return out, Err(ValueError), rounds;
      }
      var sorted := Sort(unblocked);
      SortedRound(order, waiting, sorted);
      RoundIsFull(m, order, out, waiting, sorted);
      var out', waiting' := YieldRound(m, out, waiting, sorted);
      NextRound(m, out, waiting, rounds, sorted, out', waiting');
      out, waiting, rounds := out', waiting', rounds + [sorted];
    }
    StateFacts(m, out, waiting, rounds);
    return out, Ok(()), rounds;
  }

  /** The state of the outer loop: the iteration's state, and the rounds so far, each sorted,
      making up what was yielded. */
  ghost predicate IterState(m: map<Key, Component>, out: seq<Component>, waiting: map<Key, Component>, rounds: seq<seq<Component>>) {
    Progress(m, out, waiting) && Flatten(rounds) == out && RoundsSorted(rounds) && RoundsFull(rounds, m)
  }

  /** The working dict is what is left of the system's dict after the yielded keys. */
  lemma WaitingIsLeft(m: map<Key, Component>, out: seq<Component>, waiting: map<Key, Component>)
    requires Progress(m, out, waiting)
    ensures waiting == Left(m, KeysOf(out))
  {
  }

  /** The sorted comprehension of one round holds exactly the ready components. */
  lemma RoundIsFull(m: map<Key, Component>, order: seq<Key>, out: seq<Component>, waiting: map<Key, Component>,
                    sorted: seq<Component>)
    requires Progress(m, out, waiting)
    requires forall k :: k in m ==> k in order
    requires sorted == Sort(UnblockedIn(order, waiting))
    ensures FullRound(sorted, m, KeysOf(out))
  {
    var u := UnblockedIn(order, waiting);
    WaitingIsLeft(m, out, waiting);
    UnblockedSound(order, waiting);
    UnblockedComplete(order, waiting);
    forall c ensures c in sorted <==> Ready(c, waiting) {
      assert c in sorted <==> c in multiset(sorted);
      assert c in u <==> c in multiset(u);
    }
  }

  /** A finished round keeps the state of the outer loop. */
  lemma NextRound(m: map<Key, Component>, out: seq<Component>, waiting: map<Key, Component>, rounds: seq<seq<Component>>,
                  sorted: seq<Component>, out': seq<Component>, waiting': map<Key, Component>)
    requires IterState(m, out, waiting, rounds)
    requires sorted != [] && Sorted(sorted)
    requires FullRound(sorted, m, KeysOf(out))
    requires out' == out + sorted && Progress(m, out', waiting')
    ensures IterState(m, out', waiting', rounds + [sorted])
  {
    FlattenAppend(rounds, sorted);
    RoundsSortedAppend(rounds, sorted);
    var rs := rounds + [sorted];
    forall i | 0 <= i < |rs| ensures FullRound(rs[i], m, KeysOf(Flatten(rs[..i]))) {
      if i < |rounds| {
        assert rs[..i] == rounds[..i];
      } else {
        assert rs[..i] == rounds;
      }
    }
  }

  /** What the state of the outer loop says about what was yielded. */
  lemma StateFacts(m: map<Key, Component>, out: seq<Component>, waiting: map<Key, Component>, rounds: seq<seq<Component>>)
    requires IterState(m, out, waiting, rounds)
    ensures Flatten(rounds) == out && RoundsSorted(rounds) && RoundsFull(rounds, m)
    ensures DistinctKeys(out) && DrawnFrom(out, m) && DependenciesFirst(out, m)
    ensures KeysOf(out) == m.Keys - waiting.Keys
  {
  }

  /** Part way through a round: the first `j` components of `sorted` were yielded after `out0`
      and their keys popped from `waiting0`; the rest are still waiting. */
  predicate RoundState(m: map<Key, Component>, out0: seq<Component>, waiting0: map<Key, Component>,
                       sorted: seq<Component>, j: nat, out: seq<Component>, waiting: map<Key, Component>)
  {
    && j <= |sorted|
    && Progress(m, out, waiting)
    && out == out0 + sorted[..j]
    && waiting.Keys == waiting0.Keys - KeysOf(sorted[..j]) && |waiting| + j == |waiting0|
    && (forall k :: k in waiting ==> waiting[k] == waiting0[k])
    && (forall i :: j <= i < |sorted| ==> sorted[i].DependencyKey() in waiting)
  }

  /** The inner loop of `__iter__`: yields the sorted round one component at a time, popping
      each one's key from the working dict. The round's keys leave `waiting` and nothing else
      does, and the state of the iteration is kept. */
  method YieldRound(ghost m: map<Key, Component>, out0: seq<Component>, waiting0: map<Key, Component>, sorted: seq<Component>)
    returns (out: seq<Component>, waiting: map<Key, Component>)
    requires Progress(m, out0, waiting0)
    requires DistinctKeys(sorted) && forall i :: 0 <= i < |sorted| ==> Ready(sorted[i], waiting0)
    ensures Progress(m, out, waiting)
    ensures out == out0 + sorted
    ensures waiting.Keys == waiting0.Keys - KeysOf(sorted)
    ensures |waiting| == |waiting0| - |sorted|
  {
    out, waiting := out0, waiting0;
    RoundStart(m, out0, waiting0, sorted);
    var j := 0;
    while j < |sorted|
      invariant j <= |sorted|
      invariant RoundState(m, out0, waiting0, sorted, j, out, waiting)
    {
      var c := sorted[j];
      RoundStep(m, out0, waiting0, sorted, j, out, waiting);
      out := out + [c];
      waiting := waiting - {c.DependencyKey()};
      j := j + 1;
    }
    RoundEnd(m, out0, waiting0, sorted, out, waiting);
  }

  /** The inner loop's state before its first step. */
  lemma RoundStart(m: map<Key, Component>, out0: seq<Component>, waiting0: map<Key, Component>, sorted: seq<Component>)
    requires Progress(m, out0, waiting0)
    requires forall i :: 0 <= i < |sorted| ==> Ready(sorted[i], waiting0)
    ensures RoundState(m, out0, waiting0, sorted, 0, out0, waiting0)
  {
    assert out0 + sorted[..0] == out0;
  }

  /** The inner loop's state after its last step is what the loop promises. */
  lemma RoundEnd(m: map<Key, Component>, out0: seq<Component>, waiting0: map<Key, Component>, sorted: seq<Component>,
                 out: seq<Component>, waiting: map<Key, Component>)
    requires RoundState(m, out0, waiting0, sorted, |sorted|, out, waiting)
    ensures Progress(m, out, waiting)
    ensures out == out0 + sorted
    ensures waiting.Keys == waiting0.Keys - KeysOf(sorted)
    ensures |waiting| == |waiting0| - |sorted|
  {
    assert sorted[..|sorted|] == sorted;
  }

  /** One step of the inner loop keeps its state. */
  lemma RoundStep(m: map<Key, Component>, out0: seq<Component>, waiting0: map<Key, Component>,
                  sorted: seq<Component>, j: nat, out: seq<Component>, waiting: map<Key, Component>)
    requires DistinctKeys(sorted) && forall i :: 0 <= i < |sorted| ==> Ready(sorted[i], waiting0)
    requires RoundState(m, out0, waiting0, sorted, j, out, waiting) && j < |sorted|
    ensures RoundState(m, out0, waiting0, sorted, j + 1, out + [sorted[j]], waiting - {sorted[j].DependencyKey()})
  {
    var c := sorted[j];
    ReadyLater(c, waiting0, waiting);
    PopStep(m, out, waiting, c);
    forall i | j < i < |sorted| ensures sorted[i].DependencyKey() in waiting - {c.DependencyKey()} {
      assert sorted[i].DependencyKey() != sorted[j].DependencyKey();
    }
    AppendNext(out0, sorted, j);
    KeysOfConcat(sorted[..j], [c]);
    assert KeysOf([c]) == {c.DependencyKey()} by {
      assert [c][1..] == [];
    }
  }

  /** Yielding the next element of `s` extends the prefix yielded so far. */
  lemma AppendNext<T>(before: seq<T>, s: seq<T>, j: nat)
    requires j < |s|
    ensures s[..j + 1] == s[..j] + [s[j]]
    ensures before + s[..j] + [s[j]] == before + s[..j + 1]
  {
    assert s[..j + 1] == s[..j] + [s[j]];
  }

  /** Yielding a waiting component none of whose dependencies is still waiting, and popping
      its key, keeps the state of the iteration. */
  lemma PopStep(m: map<Key, Component>, out: seq<Component>, waiting: map<Key, Component>, c: Component)
    requires Progress(m, out, waiting)
    requires Ready(c, waiting)
    ensures Progress(m, out + [c], waiting - {c.DependencyKey()})
    ensures (waiting - {c.DependencyKey()}).Keys == waiting.Keys - {c.DependencyKey()}
    ensures |waiting - {c.DependencyKey()}| == |waiting| - 1
  {
    var key := c.DependencyKey();
    PopKeys(m, out, waiting, c);
    PopDistinct(out, c, KeysOf(out));
    PopFirst(m, out, c, KeysOf(out), waiting);
    assert (waiting - {key}).Keys == waiting.Keys - {key};
  }

  lemma PopKeys(m: map<Key, Component>, out: seq<Component>, waiting: map<Key, Component>, c: Component)
    requires KeysOf(out) == m.Keys - waiting.Keys && waiting.Keys <= m.Keys
    requires c.DependencyKey() in waiting
    ensures KeysOf(out + [c]) == m.Keys - (waiting - {c.DependencyKey()}).Keys
  {
    KeysOfConcat(out, [c]);
    assert KeysOf([c]) == {c.DependencyKey()} by {
      assert [c][1..] == [];
    }
  }

  lemma PopDistinct(out: seq<Component>, c: Component, done: set<Key>)
    requires DistinctKeys(out) && done == KeysOf(out)
    requires c.DependencyKey() !in done
    ensures DistinctKeys(out + [c])
  {
    KeysOfIndex(out);
    var out' := out + [c];
    forall p, q | 0 <= p < q < |out'| ensures out'[p].DependencyKey() != out'[q].DependencyKey() {
      assert out'[p] == out[p];
      if q < |out| {
        assert out'[q] == out[q];
      } else {
        assert out[p].DependencyKey() in done;
      }
    }
  }

  lemma PopFirst(m: map<Key, Component>, out: seq<Component>, c: Component, done: set<Key>, waiting: map<Key, Component>)
    requires DependenciesFirst(out, m) && done == KeysOf(out)
    requires forall d :: d in m && d !in waiting ==> d in done
    requires Unblocked(c, waiting)
    ensures DependenciesFirst(out + [c], m)
  {
    var out' := out + [c];
    forall i | 0 <= i < |out'| ensures DependenciesAmong(out'[i], m, KeysOf(out'[..i])) {
      if i < |out| {
        assert out'[i] == out[i] && out'[..i] == out[..i];
      } else {
        assert out'[i] == c && out'[..i] == out;
      }
    }
  }

  /** A round with nothing to yield while components wait: every waiting component waits on
      another. */
  lemma StuckOfEmptyRound(m: map<Key, Component>, done: set<Key>, waiting: map<Key, Component>, order: seq<Key>)
    requires waiting.Keys <= m.Keys && done == m.Keys - waiting.Keys
    requires forall k :: k in waiting ==> waiting[k] == m[k]
    requires waiting != map[]
    requires forall k :: k in waiting ==> k in order
    requires UnblockedIn(order, waiting) == []
    ensures Stuck(m, done)
  {
    UnblockedComplete(order, waiting);
    var k0 :| k0 in waiting;
    assert k0 in m.Keys - done;
    forall k | Pending(k, m, done) ensures exists d :: d in m[k].dependencies && d in m && d !in done {
      assert k in waiting;
      assert !Unblocked(waiting[k], waiting);
    }
  }

  /** Every dependency a component has inside the system has a smaller rank than the
      component: the system's dependencies have no cycle. */
  ghost predicate Ranked(m: map<Key, Component>, rank: Key -> nat) {
    forall k, d :: k in m && d in m[k].dependencies && d in m ==> rank(d) < rank(k)
  }

  /** In a stuck state of a ranked system, every pending key ranks above `n`, whatever `n`. */
  lemma {:induction false} PendingRankAbove(m: map<Key, Component>, done: set<Key>, rank: Key -> nat, n: nat)
    requires Stuck(m, done) && Ranked(m, rank)
    ensures forall k :: Pending(k, m, done) ==> rank(k) > n
    decreases n
  {
    forall k | Pending(k, m, done) ensures rank(k) > n {
      var d :| d in m[k].dependencies && d in m && d !in done;
      assert Pending(d, m, done);
      if n > 0 {
        PendingRankAbove(m, done, rank, n - 1);
      }
    }
  }

  /** A system without dependency cycles never gets stuck, so iterating over it never raises
      and yields every component. */
  lemma AcyclicNeverStuck(m: map<Key, Component>, done: set<Key>, rank: Key -> nat)
    requires Ranked(m, rank)
    ensures !Stuck(m, done)
  {
    if Stuck(m, done) {
      var k :| k in m.Keys - done;
      assert Pending(k, m, done);
      PendingRankAbove(m, done, rank, rank(k));
    }
  }
}
