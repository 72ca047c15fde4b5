/** Python's built-in `<` on the fields a component is sorted by (`@dataclass(order=True)`
    compares name, then dependencies, then qualifier): strings compare by code point, and
    tuples and lists compare lexicographically, a proper prefix coming first. */
module PyOrder {
  import opened Components

  /** `a < b` on `str`. */
  predicate StrLess(a: string, b: string)
    decreases |a|
  {
    if a == [] then b != []
    else if b == [] then false
    else a[0] < b[0] || (a[0] == b[0] && StrLess(a[1..], b[1..]))
  }

  /** `a < b` on a tuple of `str` (a qualifier). */
  predicate StrsLess(a: seq<string>, b: seq<string>)
    decreases |a|
  {
    if a == [] then b != []
    else if b == [] then false
    else StrLess(a[0], b[0]) || (a[0] == b[0] && StrsLess(a[1..], b[1..]))
  }

  /** `a < b` on a `(name, qualifier)` dependency key. */
  predicate KeyLess(a: Key, b: Key) {
    StrLess(a.name, b.name) || (a.name == b.name && StrsLess(a.qualifier, b.qualifier))
  }

  /** `a < b` on a list of dependency keys. */
  predicate KeysLess(a: seq<Key>, b: seq<Key>)
    decreases |a|
  {
    if a == [] then b != []
    else if b == [] then false
    else KeyLess(a[0], b[0]) || (a[0] == b[0] && KeysLess(a[1..], b[1..]))
  }

  /** The dataclass order on components, on the fields before `elements`. */
  predicate ComponentLess(a: Component, b: Component) {
    || StrLess(a.name, b.name)
    || (a.name == b.name && KeysLess(a.dependencies, b.dependencies))
    || (a.name == b.name && a.dependencies == b.dependencies && StrsLess(a.qualifier, b.qualifier))
  }

  /** Strictly ascending. */
  predicate Sorted(s: seq<Component>) {
    forall i, j :: 0 <= i < |s| && j == i + 1 && j < |s| ==> ComponentLess(s[i], s[j])
  }

  /** No two components share a dependency key, so the dataclass comparison never reaches
      the element dicts (which Python cannot order). */
  predicate DistinctKeys(s: seq<Component>) {
    forall i, j :: 0 <= i < j < |s| ==> s[i].DependencyKey() != s[j].DependencyKey()
  }

  // ---------------------------------------------------------------------------------------
  // The orders are strict and total
  // ---------------------------------------------------------------------------------------

  lemma {:induction false} StrTotal(a: string, b: string)
    ensures !StrLess(a, a)
    ensures a == b || StrLess(a, b) || StrLess(b, a)
    decreases |a|
  {
    if a != [] {
      StrTotal(a[1..], a[1..]);
      if b != [] {
        StrTotal(a[1..], b[1..]);
        if a[0] == b[0] && a[1..] == b[1..] {
          assert a == [a[0]] + a[1..] && b == [b[0]] + b[1..];
        }
      }
    }
  }

  lemma {:induction false} StrsTotal(a: seq<string>, b: seq<string>)
    ensures !StrsLess(a, a)
    ensures a == b || StrsLess(a, b) || StrsLess(b, a)
    decreases |a|
  {
    if a != [] {
      StrTotal(a[0], a[0]);
      StrsTotal(a[1..], a[1..]);
      if b != [] {
        StrTotal(a[0], b[0]);
        StrsTotal(a[1..], b[1..]);
        if a[0] == b[0] && a[1..] == b[1..] {
          assert a == [a[0]] + a[1..] && b == [b[0]] + b[1..];
        }
      }
    }
  }

  lemma KeyTotal(a: Key, b: Key)
    ensures !KeyLess(a, a)
    ensures a == b || KeyLess(a, b) || KeyLess(b, a)
  {
    StrTotal(a.name, a.name);
    StrsTotal(a.qualifier, a.qualifier);
    StrTotal(a.name, b.name);
    StrsTotal(a.qualifier, b.qualifier);
  }

  lemma {:induction false} KeysTotal(a: seq<Key>, b: seq<Key>)
    ensures !KeysLess(a, a)
    ensures a == b || KeysLess(a, b) || KeysLess(b, a)
    decreases |a|
  {
    if a != [] {
      KeyTotal(a[0], a[0]);
      KeysTotal(a[1..], a[1..]);
      if b != [] {
        KeyTotal(a[0], b[0]);
        KeysTotal(a[1..], b[1..]);
        if a[0] == b[0] && a[1..] == b[1..] {
          assert a == [a[0]] + a[1..] && b == [b[0]] + b[1..];
        }
      }
    }
  }

  /** Two components with different dependency keys are ordered one way or the other, and
      no component precedes itself. */
  lemma ComponentTotal(a: Component, b: Component)
    ensures !ComponentLess(a, a)
    ensures a.DependencyKey() != b.DependencyKey() ==> ComponentLess(a, b) || ComponentLess(b, a)
  {
    StrTotal(a.name, a.name);
    KeysTotal(a.dependencies, a.dependencies);
    StrsTotal(a.qualifier, a.qualifier);
    StrTotal(a.name, b.name);
    KeysTotal(a.dependencies, b.dependencies);
    StrsTotal(a.qualifier, b.qualifier);
  }

  // ---------------------------------------------------------------------------------------
  // sorted()
  // ---------------------------------------------------------------------------------------

  /** Inserts `x` before the first element it precedes. */
  function Insert(x: Component, s: seq<Component>): (r: seq<Component>)
    ensures multiset(r) == multiset(s) + multiset{x}
    ensures |r| == |s| + 1
    ensures r[0] == x || (s != [] && r[0] == s[0])
  {
    if s == [] || ComponentLess(x, s[0]) then [x] + s
    else
      assert s == [s[0]] + s[1..];
      [s[0]] + Insert(x, s[1..])
  }

  /** `sorted(s)` over components with distinct dependency keys. */
  function Sort(s: seq<Component>): (r: seq<Component>)
    ensures multiset(r) == multiset(s)
    ensures |r| == |s|
  {
    if s == [] then []
    else
      assert s == [s[0]] + s[1..];
      Insert(s[0], Sort(s[1..]))
  }

  lemma {:induction false} InsertSorted(x: Component, s: seq<Component>)
    requires Sorted(s)
    requires forall y :: y in s ==> y.DependencyKey() != x.DependencyKey()
    ensures Sorted(Insert(x, s))
    decreases |s|
  {
    if s != [] && !ComponentLess(x, s[0]) {
      ComponentTotal(s[0], x);
      InsertSorted(x, s[1..]);
      var t := Insert(x, s[1..]);
      assert Insert(x, s) == [s[0]] + t;
    }
  }

  /** `sorted` returns its input in strictly ascending order. */
  lemma {:induction false} SortSorted(s: seq<Component>)
    requires DistinctKeys(s)
    ensures Sorted(Sort(s))
    decreases |s|
  {
    if s != [] {
      SortSorted(s[1..]);
      forall y | y in Sort(s[1..]) ensures y.DependencyKey() != s[0].DependencyKey() {
        assert y in multiset(Sort(s[1..]));
        var j :| 0 <= j < |s[1..]| && s[1..][j] == y;
        assert s[j + 1] == y;
      }
      InsertSorted(s[0], Sort(s[1..]));
    }
  }

  /** Inserting a component under a new key keeps the keys distinct. */
  lemma {:induction false} InsertDistinct(x: Component, s: seq<Component>)
    requires DistinctKeys(s)
    requires forall y :: y in s ==> y.DependencyKey() != x.DependencyKey()
    ensures DistinctKeys(Insert(x, s))
    decreases |s|
  {
    if s != [] && !ComponentLess(x, s[0]) {
      InsertDistinct(x, s[1..]);
      var t := Insert(x, s[1..]);
      forall y | y in t ensures y.DependencyKey() != s[0].DependencyKey() {
        assert y in multiset(t);
        if y != x {
          var j :| 0 <= j < |s[1..]| && s[1..][j] == y;
          assert s[j + 1] == y;
        }
      }
      ConsDistinct(s[0], t);
      assert Insert(x, s) == [s[0]] + t;
    } else {
      ConsDistinct(x, s);
    }
  }

  /** A component put in front of a list without its key keeps the keys distinct. */
  lemma ConsDistinct(x: Component, s: seq<Component>)
    requires DistinctKeys(s)
    requires forall y :: y in s ==> y.DependencyKey() != x.DependencyKey()
    ensures DistinctKeys([x] + s)
  {
    var r := [x] + s;
    forall i, j | 0 <= i < j < |r| ensures r[i].DependencyKey() != r[j].DependencyKey() {
      assert r[j] == s[j - 1];
      if i > 0 {
        assert r[i] == s[i - 1];
      } else {
        assert s[j - 1] in s;
      }
    }
  }

  /** `sorted` keeps the dependency keys distinct. */
  lemma {:induction false} SortDistinct(s: seq<Component>)
    requires DistinctKeys(s)
    ensures DistinctKeys(Sort(s))
    decreases |s|
  {
    if s != [] {
      SortDistinct(s[1..]);
      forall y | y in Sort(s[1..]) ensures y.DependencyKey() != s[0].DependencyKey() {
        assert y in multiset(Sort(s[1..]));
        var j :| 0 <= j < |s[1..]| && s[1..][j] == y;
        assert s[j + 1] == y;
      }
      InsertDistinct(s[0], Sort(s[1..]));
    }
  }

  // ---------------------------------------------------------------------------------------
  // sorted() over a set of strings
  // ---------------------------------------------------------------------------------------

  lemma {:induction false} StrTrans(a: string, b: string, c: string)
    requires StrLess(a, b) && StrLess(b, c)
    ensures StrLess(a, c)
    decreases |a|
  {
    if a != [] && a[0] == b[0] && b[0] == c[0] {
      StrTrans(a[1..], b[1..], c[1..]);
    }
  }

  /** `m` is the least string of `s`. */
  predicate IsStrMin(m: string, s: set<string>) {
    m in s && forall x :: x in s && x != m ==> StrLess(m, x)
  }

  /** A string below the least one of the others is the least of all. */
  lemma StrMinSmaller(m: string, y: string, s: set<string>)
    requires IsStrMin(m, s - {y}) && y in s && StrLess(y, m)
    ensures IsStrMin(y, s)
  {
    forall x | x in s && x != y ensures StrLess(y, x) {
      if x != m {
        StrTrans(y, m, x);
      }
    }
  }

  /** A string above the least one of the others leaves it the least of all. */
  lemma StrMinLarger(m: string, y: string, s: set<string>)
    requires IsStrMin(m, s - {y}) && y in s && StrLess(m, y)
    ensures IsStrMin(m, s)
  {
    forall x | x in s && x != m ensures StrLess(m, x) {
      if x != y {
        assert x in s - {y};
      }
    }
  }

  /** A set has at most one least string. */
  lemma StrMinUnique(s: set<string>)
    ensures forall m, n :: IsStrMin(m, s) && IsStrMin(n, s) ==> m == n
  {
    forall m, n | IsStrMin(m, s) && IsStrMin(n, s) ensures m == n {
      if m != n {
        assert StrLess(m, n) && StrLess(n, m);
        StrTrans(m, n, m);
        StrTotal(m, m);
      }
    }
  }

  /** Every non-empty set of strings has a least element. */
  lemma {:induction false} StrMinExists(s: set<string>)
    requires s != {}
    ensures exists m :: IsStrMin(m, s)
    decreases |s|
  {
    var y :| y in s;
    if s - {y} == {} {
      assert s == {y};
      assert IsStrMin(y, s);
    } else {
      StrMinExists(s - {y});
      var m :| IsStrMin(m, s - {y});
      StrTotal(m, y);
      if StrLess(y, m) {
        StrMinSmaller(m, y, s);
      } else {
        StrMinLarger(m, y, s);
      }
    }
  }

  /** Strictly ascending strings. */
  predicate StrSorted(s: seq<string>) {
    forall i, j :: 0 <= i < |s| && j == i + 1 && j < |s| ==> StrLess(s[i], s[j])
  }

  /** Strings listed once each, in ascending order, exactly the strings of `s`. */
  ghost predicate ListsSorted(r: seq<string>, s: set<string>) {
    && |r| == |s|
    && (forall x :: x in r <==> x in s)
    && (forall i, j :: 0 <= i < j < |r| ==> r[i] != r[j])
    && StrSorted(r)
  }

  /** The least string followed by the others in order lists all of them in order. */
  lemma ConsMin(m: string, s: set<string>, rest: seq<string>)
    requires IsStrMin(m, s)
    requires ListsSorted(rest, s - {m})
    ensures ListsSorted([m] + rest, s)
  {
    var r := [m] + rest;
    assert |s - {m}| == |s| - 1;
    forall x ensures x in r <==> x in s {
      assert x in r <==> x == m || x in rest;
    }
    forall i, j | 0 <= i < j < |r| ensures r[i] != r[j] {
      if i == 0 {
        assert r[j] == rest[j - 1];
      } else {
        assert r[i] == rest[i - 1] && r[j] == rest[j - 1];
      }
    }
    forall i, j | 0 <= i < |r| && j == i + 1 && j < |r| ensures StrLess(r[i], r[j]) {
      if i == 0 {
        assert r[j] == rest[0] && rest[0] in s - {m};
      } else {
        assert r[i] == rest[i - 1] && r[j] == rest[j - 1];
      }
    }
  }

  /** `sorted(s)` for a set of strings: its elements once each, in ascending order. */
  function SortedStrings(s: set<string>): (r: seq<string>)
    ensures ListsSorted(r, s)
    decreases |s|
  {
    if s == {} then []
    else
      StrMinExists(s);
      StrMinUnique(s);
      var m :| IsStrMin(m, s);
      var rest := SortedStrings(s - {m});
      ConsMin(m, s, rest);
      [m] + rest
  }
}
