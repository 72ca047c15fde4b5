/** The differential element algebra: full values (Atom, Set, Map, List) and the diff values
    (AtomDiff, SetDiff, MapDiff, ListDiff) that turn one full value into another.

    Python tells full and diff elements apart by class; here both live in one datatype and the
    class checks the source performs (`isinstance`) become `Result` errors. */
module Elements {
  import opened Errors

  // ---------------------------------------------------------------------------------------
  // Data model
  // ---------------------------------------------------------------------------------------

  /** The list-diff opcodes (`_DiffOpcode`). */
  const EQUAL: string := "="
  const REPLACE: string := "~"
  const INSERT: string := "+"
  const DELETE: string := "-"

  /** One `(opcode, idx, value)` entry of a ListDiff. */
  datatype ListOp = ListOp(op: string, idx: nat, value: string)

  /** One `(tag, self_start, self_end, other_start, other_end)` opcode of difflib. */
  datatype Span = Span(tag: string, selfStart: nat, selfEnd: nat, otherStart: nat, otherEnd: nat)

  /** `SequenceMatcher(a=self, b=other).get_grouped_opcodes(n=1)`, kept abstract. */
  type Matcher = (seq<string>, seq<string>) -> seq<seq<Span>>

  /** The three map classes, `Map`, `NestedMap` and `MultiMap`, each paired with its own diff
      class (`MapDiff`, `NestedMapDiff`, `MultiMapDiff`).  They share their code but are sibling
      classes, so the `isinstance` checks between them fail. */
  datatype MapClass = PlainMap | NestedMap | MultiMap

  /** The family an element belongs to; a full kind and its diff kind share it. */
  datatype Kind = AtomKind | SetKind | MapKind(mapClass: MapClass) | ListKind

  datatype Element =
    | Atom(value: string)
    | Set(items: set<Element>)
    | Map(cls: MapClass, entries: map<string, Element>)
    | List(atoms: seq<string>)
    | AtomDiff(value: string)
    | SetDiff(toAdd: set<Element>, toRemove: set<Element>)
    | MapDiff(cls: MapClass, keysToRemove: set<string>, itemsToAdd: map<string, Element>, itemsToSet: map<string, Element>)
    | ListDiff(opcodes: seq<ListOp>)
  {
    /** `isinstance(e, FullElement)`. */
    predicate IsFull() {
      Atom? || Set? || Map? || List?
    }

    /** `isinstance(e, DiffElement)`. */
    predicate IsDiff() {
      !IsFull()
    }

    function KindOf(): Kind {
      match this
      case Atom(_) => AtomKind
      case AtomDiff(_) => AtomKind
      case Set(_) => SetKind
      case SetDiff(_, _) => SetKind
      case Map(c, _) => MapKind(c)
      case MapDiff(c, _, _, _) => MapKind(c)
      case List(_) => ListKind
      case ListDiff(_) => ListKind
    }
  }

  /** Both elements are of the same Python class. */
  predicate SameClass(a: Element, b: Element) {
    a.IsFull() == b.IsFull() && a.KindOf() == b.KindOf()
  }

  /** A full value whose nested map values are full values too. */
  predicate DeepFull(e: Element)
    decreases e
  {
    match e
    case Atom(_) => true
    case Set(s) => forall x :: x in s ==> DeepFull(x)
    case Map(_, m) => forall k :: k in m ==> DeepFull(m[k])
    case List(_) => true
    case _ => false
  }

  // ---------------------------------------------------------------------------------------
  // Equality, copy and zero
  // ---------------------------------------------------------------------------------------

  /** `a == b`: full kinds raise TypeError against any other class (directly, or through
      Python's reflected comparison when `a` is a diff).  Two maps of one class compare their
      dicts: different key sets are unequal, and otherwise every shared key's values are
      compared with their own `==`, whose TypeError propagates.  Two diffs fall back to
      `object` equality, modelled here as value equality. */
  function Equals(a: Element, b: Element): (r: Result<bool>)
    ensures (a.IsFull() || b.IsFull()) && !SameClass(a, b) ==> r == Err(TypeError)
    ensures r.Err? ==> r.error == TypeError
    ensures r == Ok(true) <==> a == b
    ensures r.Ok? ==> (r.value <==> a == b)
    ensures a.Map? && SameClass(a, b) ==>
              (r.Err? <==> && a.entries.Keys == b.entries.Keys
                           && exists k :: k in a.entries && Equals(a.entries[k], b.entries[k]).Err?)
    decreases a
  {
    if !SameClass(a, b) then
      if a.IsFull() || b.IsFull() then Err(TypeError) else Ok(false)
    else if a.Map? then
      if a.entries.Keys != b.entries.Keys then Ok(false)
      else if exists k :: k in a.entries && Equals(a.entries[k], b.entries[k]).Err? then Err(TypeError)
      else Ok(a == b)
    else Ok(a == b)
  }

  /** `copy()`: a Map copies its values, Set, SetDiff and MapDiff copy shallowly, and ListDiff
      has no copy of its own, so the inherited one raises NotImplementedError. */
  function Copy(e: Element): (r: Result<Element>)
    ensures r == Ok(e) || r == Err(NotImplementedError)
    ensures DeepFull(e) ==> r == Ok(e)
    ensures e.ListDiff? ==> r == Err(NotImplementedError)
    decreases e
  {
    match e
    case Map(c, m) =>
      var copied :- Collect(map k | k in m :: Copy(m[k]));
      assert copied == m;
      Ok(Map(c, copied))
    case ListDiff(_) => Err(NotImplementedError)
    case _ => Ok(e)
  }

  /** `zero()`, a class method of the full kinds only. */
  function Zero(e: Element): (r: Result<Element>)
    ensures r.Ok? <==> e.IsFull()
    ensures r.Err? ==> r.error == AttributeError
    ensures r.Ok? ==> SameClass(r.value, e) && DeepFull(r.value)
    ensures r.Ok? ==> r.value == Atom("") || r.value == Set({}) || (e.Map? && r.value == Map(e.cls, map[])) || r.value == List([])
  {
    match e
    case Atom(_) => Ok(Atom(""))
    case Set(_) => Ok(Set({}))
    case Map(c, _) => Ok(Map(c, map[]))
    case List(_) => Ok(List([]))
    case _ => Err(AttributeError)
  }

  /** `full_type().zero()`, available on the diff kinds only. */
  function ZeroOfDiff(d: Element): (r: Result<Element>)
    ensures r.Ok? <==> d.IsDiff()
    ensures r.Err? ==> r.error == AttributeError
    ensures r.Ok? ==> r.value.IsFull() && r.value.KindOf() == d.KindOf() && DeepFull(r.value)
  {
    match d
    case AtomDiff(_) => Ok(Atom(""))
    case SetDiff(_, _) => Ok(Set({}))
    case MapDiff(c, _, _, _) => Ok(Map(c, map[]))
    case ListDiff(_) => Ok(List([]))
    case _ => Err(AttributeError)
  }

  // ---------------------------------------------------------------------------------------
  // diff
  // ---------------------------------------------------------------------------------------

  /** `self.diff(other)`. */
  function Diff(self: Element, other: Element, matcher: Matcher): (r: Result<Element>)
    ensures self.IsDiff() ==> r == Err(AttributeError)
    ensures self.IsFull() && !SameClass(self, other) ==> r == Err(TypeError)
    ensures r.Ok? ==> r.value.IsDiff() && r.value.KindOf() == self.KindOf()
    decreases self
  {
    match self
    case Atom(_) =>
      if other.Atom? then Ok(AtomDiff(other.value)) else Err(TypeError)
    case Set(s) =>
      if other.Set? then Ok(SetDiff(other.items - s, s - other.items)) else Err(TypeError)
    case Map(c, m) =>
      if !(other.Map? && other.cls == c) then Err(TypeError)
      else
        var o := other.entries;
        var added :- Collect(map k | k in o && k !in m :: Copy(o[k]));
        var changed :- Collect(map k | k in o && k in m && Equals(m[k], o[k]) != Ok(true) ::
                                 if Equals(m[k], o[k]).Err? then Err(Equals(m[k], o[k]).error)
                                 else Diff(m[k], o[k], matcher));
        Ok(MapDiff(c, m.Keys - o.Keys, added, changed))
    case List(a) =>
      if !other.List? then Err(TypeError)
      else
        var ops :- EmitSpans(a, other.atoms, Flatten(matcher(a, other.atoms)), false);
        Ok(ListDiff(ops))
    case _ => Err(AttributeError)
  }

  // ---------------------------------------------------------------------------------------
  // apply
  // ---------------------------------------------------------------------------------------

  /** `self.apply(other)`.  Map apply works on a copy of the receiver's dict: it deletes,
      then sets (applying each diff to the receiver's own value), then inserts. */
  function Apply(self: Element, d: Element): (r: Result<Element>)
    ensures self.IsDiff() ==> r == Err(AttributeError)
    ensures self.IsFull() && !(d.IsDiff() && d.KindOf() == self.KindOf()) ==> r == Err(TypeError)
    ensures r.Ok? ==> SameClass(r.value, self)
    ensures self.Map? && d.MapDiff? && d.cls != self.cls ==> r == Err(TypeError)
    ensures self.Map? && d.MapDiff? && d.cls == self.cls && !(d.keysToRemove <= self.entries.Keys) ==>
              r == Err(KeyError)
    ensures self.Map? && d.MapDiff? && d.cls == self.cls && !(d.itemsToSet.Keys <= self.entries.Keys) ==> r.Err?
    ensures self.Map? && d.MapDiff? && d.cls == self.cls ==>
              (r.Ok? <==> && d.keysToRemove <= self.entries.Keys
                          && forall k :: k in d.itemsToSet ==>
                               k in self.entries && Apply(self.entries[k], d.itemsToSet[k]).Ok?)
    decreases self
  {
    match self
    case Atom(_) =>
      if d.AtomDiff? then Ok(Atom(d.value)) else Err(TypeError)
    case Set(s) =>
      if d.SetDiff? then Ok(Set((s - d.toRemove) + d.toAdd)) else Err(TypeError)
    case Map(c, m) =>
      if !(d.MapDiff? && d.cls == c) then Err(TypeError)
      else if !(d.keysToRemove <= m.Keys) then Err(KeyError)
      else
        var applied := map k | k in d.itemsToSet ::
                         if k in m then Apply(m[k], d.itemsToSet[k]) else Err(KeyError);
        var set_ :- Collect(applied);
        assert forall k :: k in d.itemsToSet ==> k in m && Apply(m[k], d.itemsToSet[k]).Ok? by {
          forall k | k in d.itemsToSet ensures k in m && Apply(m[k], d.itemsToSet[k]).Ok? {
            assert applied[k].Ok?;
          }
        }
        Ok(Map(c, (m - d.keysToRemove) + set_ + d.itemsToAdd))
    case List(a) =>
      if !d.ListDiff? then Err(TypeError)
      else
        var (atoms, err) := Replay(a, d.opcodes);
        if err.Some? then Err(err.value) else Ok(List(atoms))
    case _ => Err(AttributeError)
  }

  // ---------------------------------------------------------------------------------------
  // combine (not defined in elements.py; these semantics follow the assertions in
  // tests/test_elements.py)
  // ---------------------------------------------------------------------------------------

  /** Full values other than lists, all the way down. */
  predicate Combinable(e: Element)
    decreases e
  {
    match e
    case Atom(_) => true
    case Set(_) => true
    case Map(_, m) => forall k :: k in m ==> Combinable(m[k])
    case _ => false
  }

  /** `self.combine(other)`: last write wins for atoms, union for sets, and maps keep one-sided
      keys and combine shared keys recursively.  Lists and diffs have no combine. */
  function Combine(self: Element, other: Element): (r: Result<Element>)
    ensures self.Atom? && other.Atom? ==> r == Ok(other)
    ensures self.Set? && other.Set? ==> r.Ok? && r.value.Set? && r.value.items == self.items + other.items
    ensures (self.Atom? || self.Set? || self.Map?) && !SameClass(self, other) ==> r == Err(TypeError)
    ensures self.List? || self.IsDiff() ==> r == Err(AttributeError)
    ensures self.Map? && other.Map? && other.cls == self.cls ==>
              (r.Ok? <==> forall k :: k in self.entries && k in other.entries ==>
                            Combine(self.entries[k], other.entries[k]).Ok?)
    ensures r.Ok? ==> SameClass(r.value, self)
    ensures self.Map? && r.Ok? ==> r.value.entries.Keys == self.entries.Keys + other.entries.Keys
    ensures self.Map? && r.Ok? ==>
              && (forall k :: k in self.entries && k !in other.entries ==> r.value.entries[k] == self.entries[k])
              && (forall k :: k !in self.entries && k in other.entries ==> r.value.entries[k] == other.entries[k])
              && (forall k :: k in self.entries && k in other.entries ==>
                    Combine(self.entries[k], other.entries[k]) == Ok(r.value.entries[k]))
    decreases self
  {
    match self
    case Atom(_) =>
      if other.Atom? then Ok(other) else Err(TypeError)
    case Set(s) =>
      if other.Set? then Ok(Set(s + other.items)) else Err(TypeError)
    case Map(c, m) =>
      if !(other.Map? && other.cls == c) then Err(TypeError)
      else
        var o := other.entries;
        var combined := map k | k in m && k in o :: Combine(m[k], o[k]);
        var shared :- Collect(combined);
        MergeShared(m, o, combined, shared);
        Ok(Map(c, m + o + shared))
    case _ => Err(AttributeError)
  }

  /** `{**m, **o, **shared}` with `shared` collected from per-key results over the shared
      keys: one-sided keys keep their value, shared keys take their result's. */
  lemma MergeShared(m: map<string, Element>, o: map<string, Element>,
                    combined: map<string, Result<Element>>, shared: map<string, Element>)
    requires combined.Keys == m.Keys * o.Keys
    requires Collect(combined) == Ok(shared)
    ensures (m + o + shared).Keys == m.Keys + o.Keys
    ensures forall k :: k in m && k !in o ==> (m + o + shared)[k] == m[k]
    ensures forall k :: k !in m && k in o ==> (m + o + shared)[k] == o[k]
    ensures forall k :: k in m && k in o ==> combined[k] == Ok((m + o + shared)[k])
  {
    var r := m + o + shared;
    forall k | k in m && k in o ensures combined[k] == Ok(r[k]) {
      assert k in shared && r[k] == shared[k];
    }
  }

  // ---------------------------------------------------------------------------------------
  // Lists: emitting opcodes from difflib's spans, and replaying them
  // ---------------------------------------------------------------------------------------

  /** The concatenation of difflib's opcode groups. */
  function Flatten(groups: seq<seq<Span>>): seq<Span>
    decreases |groups|
  {
    if groups == [] then [] else Flatten(groups[..|groups| - 1]) + groups[|groups| - 1]
  }

  /** The `n` entries `(op, start + t, other[start + t])` for `t` in `range(n)`. */
  function RangeOps(op: string, start: nat, n: nat, other: seq<string>): (r: seq<ListOp>)
    requires start + n <= |other|
  {
    seq(n, t requires 0 <= t < n => ListOp(op, start + t, other[start + t]))
  }

  /** The `n` entries `("-", at, self[start + t])` for `t` in `range(n)`. */
  function DeleteOps(start: nat, n: nat, at: nat, self: seq<string>): (r: seq<ListOp>)
    requires start + n <= |self|
  {
    seq(n, t requires 0 <= t < n => ListOp(DELETE, at, self[start + t]))
  }

  /** `for idx in range(start, end): diff.append((op, idx, other[idx].value))`. */
  function EmitRange(op: string, start: nat, end: nat, other: seq<string>): (r: Result<seq<ListOp>>)
  {
    if end <= start then Ok([])
    else if |other| < end then Err(IndexError)
    else Ok(RangeOps(op, start, end - start, other))
  }

  /** `for idx in range(self_start, self_end): diff.append(("-", other_start, self[idx].value))`. */
  function EmitDeletes(selfStart: nat, selfEnd: nat, at: nat, self: seq<string>): (r: Result<seq<ListOp>>)
  {
    if selfEnd <= selfStart then Ok([])
    else if |self| < selfEnd then Err(IndexError)
    else Ok(DeleteOps(selfStart, selfEnd - selfStart, at, self))
  }

  /** The number of positions in `range(start, end)`. */
  function Width(start: nat, end: nat): nat {
    if end <= start then 0 else end - start
  }

  /** The entries for a `replace` opcode that keep the list aligned when the two spans differ in
      length: overwrite the common width, then insert `other`'s surplus or delete `self`'s. */
  function EmitReplaceFixed(self: seq<string>, other: seq<string>, s: Span): (r: Result<seq<ListOp>>)
  {
    var c := Min(Width(s.selfStart, s.selfEnd), Width(s.otherStart, s.otherEnd));
    var overwrite :- EmitRange(REPLACE, s.otherStart, s.otherStart + c, other);
    var insert :- EmitRange(INSERT, s.otherStart + c, s.otherEnd, other);
    var delete :- EmitDeletes(s.selfStart + c, s.selfEnd, s.otherEnd, self);
    Ok(overwrite + insert + delete)
  }

  /** The entries List.diff emits for one difflib opcode; with `fixReplace` a `replace` opcode
      takes the corrected entries of `EmitReplaceFixed`. */
  function EmitSpan(self: seq<string>, other: seq<string>, s: Span, fixReplace: bool): (r: Result<seq<ListOp>>)
    ensures s.tag !in {"equal", "replace", "insert", "delete"} ==> r == Err(ValueError)
  {
    if s.tag == "equal" then EmitRange(EQUAL, s.otherStart, s.otherEnd, other)
    else if s.tag == "replace" && fixReplace then EmitReplaceFixed(self, other, s)
    else if s.tag == "replace" then EmitRange(REPLACE, s.otherStart, s.otherEnd, other)
    else if s.tag == "insert" then EmitRange(INSERT, s.otherStart, s.otherEnd, other)
    else if s.tag == "delete" then EmitDeletes(s.selfStart, s.selfEnd, s.otherStart, self)
    else Err(ValueError)
  }

  /** The entries for a run of opcodes, in order; the first failing opcode raises. */
  function EmitSpans(self: seq<string>, other: seq<string>, spans: seq<Span>, fixReplace: bool): (r: Result<seq<ListOp>>)
    decreases |spans|
  {
    if spans == [] then Ok([])
    else
      var init :- EmitSpans(self, other, spans[..|spans| - 1], fixReplace);
      var last :- EmitSpan(self, other, spans[|spans| - 1], fixReplace);
      Ok(init + last)
  }

  function Min(a: nat, b: nat): nat {
    if a <= b then a else b
  }

  /** One iteration of `_apply_opcodes` on the list `atoms`. */
  function Step(atoms: seq<string>, op: ListOp): (r: Result<seq<string>>)
    ensures op.op !in {EQUAL, REPLACE, INSERT, DELETE} ==> r == Err(ValueError)
  {
    if op.op == EQUAL then
      if op.idx >= |atoms| then Err(IndexError)
      else if atoms[op.idx] != op.value then Err(ValueError)
      else Ok(atoms)
    else if op.op == REPLACE then
      if op.idx >= |atoms| then Err(IndexError) else Ok(atoms[op.idx := op.value])
    else if op.op == INSERT then
      var at := Min(op.idx, |atoms|);
      Ok(atoms[..at] + [op.value] + atoms[at..])
    else if op.op == DELETE then
      Ok(if op.idx < |atoms| then atoms[..op.idx] + atoms[op.idx + 1..] else atoms)
    else
      Err(ValueError)
  }

  /** `_apply_opcodes`: replays the entries in order on one list, which it edits in place.  The
      result is the list as it stands when the loop ends or raises, and the exception if any. */
  function Replay(atoms: seq<string>, ops: seq<ListOp>): (seq<string>, Option<Error>)
    decreases |ops|
  {
    if ops == [] then (atoms, None)
    else
      var s := Step(atoms, ops[0]);
      if s.Err? then (atoms, Some(s.error)) else Replay(s.value, ops[1..])
  }

  // ---------------------------------------------------------------------------------------
  // What difflib guarantees about its opcodes
  // ---------------------------------------------------------------------------------------

  /** Position in `self` reached after the first `n` opcodes. */
  function SelfCursor(spans: seq<Span>, n: nat): nat
    requires n <= |spans|
  {
    if n == 0 then 0 else spans[n - 1].selfEnd
  }

  /** Position in `other` reached after the first `n` opcodes. */
  function OtherCursor(spans: seq<Span>, n: nat): nat
    requires n <= |spans|
  {
    if n == 0 then 0 else spans[n - 1].otherEnd
  }

  /** One opcode that starts at or after the cursor `(i, j)`, where the skipped stretch is an
      equal run (grouping with context 1 drops the middle of long equal runs). */
  ghost predicate SpanAligned(self: seq<string>, other: seq<string>, s: Span, i: nat, j: nat) {
    && i <= s.selfStart <= s.selfEnd <= |self|
    && j <= s.otherStart <= s.otherEnd <= |other|
    && self[i..s.selfStart] == other[j..s.otherStart]
    && ((s.tag == "equal" && self[s.selfStart..s.selfEnd] == other[s.otherStart..s.otherEnd])
        || (s.tag == "replace" && s.selfStart < s.selfEnd && s.otherStart < s.otherEnd)
        || (s.tag == "insert" && s.selfStart == s.selfEnd)
        || (s.tag == "delete" && s.otherStart == s.otherEnd))
  }

  /** The flattened opcodes of `get_grouped_opcodes` describe `self` turning into `other`. */
  ghost predicate Aligns(self: seq<string>, other: seq<string>, spans: seq<Span>) {
    && (forall n {:trigger SpanAligned(self, other, spans[n], SelfCursor(spans, n), OtherCursor(spans, n))} ::
          0 <= n < |spans| ==>
          SpanAligned(self, other, spans[n], SelfCursor(spans, n), OtherCursor(spans, n)))
    && SelfCursor(spans, |spans|) <= |self|
    && OtherCursor(spans, |spans|) <= |other|
    && self[SelfCursor(spans, |spans|)..] == other[OtherCursor(spans, |spans|)..]
  }

  /** Every `replace` opcode spans as many positions of `self` as of `other`. */
  ghost predicate EqualLengthReplaces(spans: seq<Span>) {
    forall n :: 0 <= n < |spans| && spans[n].tag == "replace" ==>
      spans[n].selfEnd - spans[n].selfStart == spans[n].otherEnd - spans[n].otherStart
  }

  /** The abstract matcher behaves like difflib: its opcodes describe `a` turning into `b`. */
  ghost predicate GoodMatcher(matcher: Matcher) {
    forall a, b :: Aligns(a, b, Flatten(matcher(a, b)))
  }

  /** The matcher never pairs spans of different lengths in a `replace`: the condition under
      which the list diff as written round-trips. */
  ghost predicate EqualReplaceMatcher(matcher: Matcher) {
    forall a, b :: EqualLengthReplaces(Flatten(matcher(a, b)))
  }

  // ---------------------------------------------------------------------------------------
  // Lemmas: lists
  // ---------------------------------------------------------------------------------------

  /** Replaying two runs of entries is replaying the first, then (if it did not raise) the second. */
  lemma {:induction false} ReplayAppend(atoms: seq<string>, p: seq<ListOp>, q: seq<ListOp>)
    ensures Replay(atoms, p + q) ==
              (var (mid, err) := Replay(atoms, p); if err.None? then Replay(mid, q) else (mid, err))
    decreases |p|
  {
    if p == [] {
      assert p + q == q;
    } else {
      assert (p + q)[0] == p[0];
      assert (p + q)[1..] == p[1..] + q;
      var s := Step(atoms, p[0]);
      if s.Ok? {
        ReplayAppend(s.value, p[1..], q);
      }
    }
  }

  /** `=` entries whose recorded values match leave the list as it is. */
  lemma {:induction false} ReplayChecks(atoms: seq<string>, ops: seq<ListOp>)
    requires forall t :: 0 <= t < |ops| ==>
               ops[t].op == EQUAL && ops[t].idx < |atoms| && atoms[ops[t].idx] == ops[t].value
    ensures Replay(atoms, ops) == (atoms, None)
    decreases |ops|
  {
    if ops != [] {
      ReplayChecks(atoms, ops[1..]);
    }
  }

  /** `~` entries over `n` positions from `j` overwrite `n` elements of `self` with `other`'s. */
  lemma {:induction false} ReplayOverwrites(self: seq<string>, other: seq<string>, i: nat, j: nat, n: nat)
    requires i + n <= |self| && j + n <= |other|
    ensures Replay(other[..j] + self[i..], RangeOps(REPLACE, j, n, other)) == (other[..j + n] + self[i + n..], None)
    decreases n
  {
    var ops := RangeOps(REPLACE, j, n, other);
    var x := other[..j] + self[i..];
    if n > 0 {
      var y := x[j := other[j]];
      assert Step(x, ops[0]) == Ok(y);
      assert y == other[..j + 1] + self[i + 1..];
      assert ops[1..] == RangeOps(REPLACE, j + 1, n - 1, other);
      ReplayOverwrites(self, other, i + 1, j + 1, n - 1);
    }
  }

  /** `+` entries insert `other`'s elements `j .. j + n` in front of the rest of `self`. */
  lemma {:induction false} ReplayInserts(self: seq<string>, other: seq<string>, i: nat, j: nat, n: nat)
    requires i <= |self| && j + n <= |other|
    ensures Replay(other[..j] + self[i..], RangeOps(INSERT, j, n, other)) == (other[..j + n] + self[i..], None)
    decreases n
  {
    var ops := RangeOps(INSERT, j, n, other);
    var x := other[..j] + self[i..];
    if n > 0 {
      assert Min(j, |x|) == j;
      var y := other[..j + 1] + self[i..];
      assert x[..j] + [other[j]] + x[j..] == y;
      assert Step(x, ops[0]) == Ok(y);
      assert ops[1..] == RangeOps(INSERT, j + 1, n - 1, other);
      ReplayInserts(self, other, i, j + 1, n - 1);
    }
  }

  /** `-` entries at position `j` remove `n` elements of `self` after `other`'s prefix. */
  lemma {:induction false} ReplayDeletes(self: seq<string>, other: seq<string>, i: nat, j: nat, n: nat)
    requires i + n <= |self| && j <= |other|
    ensures Replay(other[..j] + self[i..], DeleteOps(i, n, j, self)) == (other[..j] + self[i + n..], None)
    decreases n
  {
    var ops := DeleteOps(i, n, j, self);
    var x := other[..j] + self[i..];
    if n > 0 {
      var y := other[..j] + self[i + 1..];
      assert x[..j] + x[j + 1..] == y;
      assert Step(x, ops[0]) == Ok(y);
      assert ops[1..] == DeleteOps(i + 1, n - 1, j, self);
      ReplayDeletes(self, other, i + 1, j, n - 1);
    }
  }

  /** An `equal` opcode emits checks that hold, so the replayed list is unchanged. */
  lemma ReplayEqualSpan(self: seq<string>, other: seq<string>, s: Span)
    requires s.tag == "equal" && s.selfStart <= s.selfEnd <= |self| && s.otherStart <= s.otherEnd <= |other|
    requires self[s.selfStart..s.selfEnd] == other[s.otherStart..s.otherEnd]
    ensures EmitSpan(self, other, s, false).Ok?
    ensures Replay(other[..s.otherStart] + self[s.selfStart..], EmitSpan(self, other, s, false).value)
            == (other[..s.otherEnd] + self[s.selfEnd..], None)
  {
    var i1, i2, j1, j2 := s.selfStart, s.selfEnd, s.otherStart, s.otherEnd;
    var x := other[..j1] + self[i1..];
    EmitRangeIs(EQUAL, j1, j2 - j1, other);
    var ops := RangeOps(EQUAL, j1, j2 - j1, other);
    forall t | 0 <= t < |ops| ensures ops[t].idx < |x| && x[ops[t].idx] == ops[t].value {
      assert self[i1..i2][t] == other[j1..j2][t];
    }
    ReplayChecks(x, ops);
    SkipEqualRun(self, other, i1, j1, i2, j2);
  }

  lemma EmitRangeIs(op: string, start: nat, n: nat, other: seq<string>)
    requires start + n <= |other|
    ensures EmitRange(op, start, start + n, other) == Ok(RangeOps(op, start, n, other))
  {
    if n == 0 {
      assert RangeOps(op, start, n, other) == [];
    }
  }

  lemma EmitDeletesIs(start: nat, n: nat, at: nat, self: seq<string>)
    requires start + n <= |self|
    ensures EmitDeletes(start, start + n, at, self) == Ok(DeleteOps(start, n, at, self))
  {
    if n == 0 {
      assert DeleteOps(start, n, at, self) == [];
    }
  }

  /** Three runs of entries that each succeed replay as one. */
  lemma ReplayThree(x0: seq<string>, p: seq<ListOp>, q: seq<ListOp>, r: seq<ListOp>,
                    x1: seq<string>, x2: seq<string>, x3: seq<string>)
    requires Replay(x0, p) == (x1, None) && Replay(x1, q) == (x2, None) && Replay(x2, r) == (x3, None)
    ensures Replay(x0, p + q + r) == (x3, None)
  {
    ReplayAppend(x0, p, q);
    ReplayAppend(x0, p + q, r);
  }

  /** The corrected `replace` entries are an overwrite run, an insert run and a delete run. */
  lemma EmitReplaceFixedIs(self: seq<string>, other: seq<string>, s: Span)
    requires s.selfStart <= s.selfEnd <= |self| && s.otherStart <= s.otherEnd <= |other|
    ensures var c := Min(s.selfEnd - s.selfStart, s.otherEnd - s.otherStart);
      EmitReplaceFixed(self, other, s)
      == Ok(RangeOps(REPLACE, s.otherStart, c, other)
            + RangeOps(INSERT, s.otherStart + c, s.otherEnd - (s.otherStart + c), other)
            + DeleteOps(s.selfStart + c, s.selfEnd - (s.selfStart + c), s.otherEnd, self))
  {
    var c := Min(s.selfEnd - s.selfStart, s.otherEnd - s.otherStart);
    assert Width(s.selfStart, s.selfEnd) == s.selfEnd - s.selfStart;
    assert Width(s.otherStart, s.otherEnd) == s.otherEnd - s.otherStart;
    EmitRangeIs(REPLACE, s.otherStart, c, other);
    EmitRangeIs(INSERT, s.otherStart + c, s.otherEnd - (s.otherStart + c), other);
    EmitDeletesIs(s.selfStart + c, s.selfEnd - (s.selfStart + c), s.otherEnd, self);
  }

  /** Overwriting the common width `c`, inserting `other`'s surplus and deleting `self`'s
      moves the replayed list from cursor `(i1, j1)` to `(i2, j2)`. */
  lemma ReplayFixedRuns(self: seq<string>, other: seq<string>, i1: nat, i2: nat, j1: nat, j2: nat, c: nat)
    requires i1 <= i2 <= |self| && j1 <= j2 <= |other| && c == Min(i2 - i1, j2 - j1)
    ensures Replay(other[..j1] + self[i1..],
                   RangeOps(REPLACE, j1, c, other) + RangeOps(INSERT, j1 + c, j2 - (j1 + c), other)
                   + DeleteOps(i1 + c, i2 - (i1 + c), j2, self))
            == (other[..j2] + self[i2..], None)
  {
    var k, m := i1 + c, j1 + c;
    ReplayOverwrites(self, other, i1, j1, c);
    ReplayInsertsTo(self, other, k, m, j2);
    ReplayDeletesTo(self, other, k, i2, j2);
    ReplayThree(other[..j1] + self[i1..], RangeOps(REPLACE, j1, c, other), RangeOps(INSERT, m, j2 - m, other),
                DeleteOps(k, i2 - k, j2, self), other[..m] + self[k..], other[..j2] + self[k..], other[..j2] + self[i2..]);
  }

  /** `ReplayInserts` up to the end position `j2`. */
  lemma ReplayInsertsTo(self: seq<string>, other: seq<string>, i: nat, j: nat, j2: nat)
    requires i <= |self| && j <= j2 <= |other|
    ensures Replay(other[..j] + self[i..], RangeOps(INSERT, j, j2 - j, other)) == (other[..j2] + self[i..], None)
  {
    ReplayInserts(self, other, i, j, j2 - j);
  }

  /** `ReplayDeletes` up to the end position `i2`. */
  lemma ReplayDeletesTo(self: seq<string>, other: seq<string>, i: nat, i2: nat, j: nat)
    requires i <= i2 <= |self| && j <= |other|
    ensures Replay(other[..j] + self[i..], DeleteOps(i, i2 - i, j, self)) == (other[..j] + self[i2..], None)
  {
    ReplayDeletes(self, other, i, j, i2 - i);
  }

  /** The corrected `replace` entries move the replayed list across spans of any lengths. */
  lemma ReplayReplaceFixed(self: seq<string>, other: seq<string>, s: Span)
    requires s.tag == "replace" && s.selfStart <= s.selfEnd <= |self| && s.otherStart <= s.otherEnd <= |other|
    ensures EmitReplaceFixed(self, other, s).Ok?
    ensures Replay(other[..s.otherStart] + self[s.selfStart..], EmitReplaceFixed(self, other, s).value)
            == (other[..s.otherEnd] + self[s.selfEnd..], None)
  {
    EmitReplaceFixedIs(self, other, s);
    ReplayFixedRuns(self, other, s.selfStart, s.selfEnd, s.otherStart, s.otherEnd,
                    Min(s.selfEnd - s.selfStart, s.otherEnd - s.otherStart));
  }

  /** One aligned opcode moves the replayed list from cursor `(selfStart, otherStart)` to
      `(selfEnd, otherEnd)`; as written, a `replace` must span equal lengths. */
  lemma ReplaySpan(self: seq<string>, other: seq<string>, s: Span, i: nat, j: nat, fixReplace: bool)
    requires SpanAligned(self, other, s, i, j)
    requires !fixReplace && s.tag == "replace" ==> s.selfEnd - s.selfStart == s.otherEnd - s.otherStart
    ensures EmitSpan(self, other, s, fixReplace).Ok?
    ensures Replay(other[..s.otherStart] + self[s.selfStart..], EmitSpan(self, other, s, fixReplace).value)
            == (other[..s.otherEnd] + self[s.selfEnd..], None)
  {
    if s.tag == "equal" {
      ReplayEqualSpan(self, other, s);
      assert EmitSpan(self, other, s, fixReplace) == EmitSpan(self, other, s, false);
    } else if s.tag == "replace" && fixReplace {
      ReplayReplaceFixed(self, other, s);
    } else if s.tag == "replace" {
      ReplayOverwriteSpan(self, other, s);
    } else if s.tag == "insert" {
      ReplayInsertSpan(self, other, s, fixReplace);
    } else {
      ReplayDeleteSpan(self, other, s, fixReplace);
    }
  }

  /** A `replace` over equal lengths, as written, overwrites the span in place. */
  lemma ReplayOverwriteSpan(self: seq<string>, other: seq<string>, s: Span)
    requires s.tag == "replace" && s.selfStart <= s.selfEnd <= |self| && s.otherStart <= s.otherEnd <= |other|
    requires s.selfEnd - s.selfStart == s.otherEnd - s.otherStart
    ensures EmitSpan(self, other, s, false) == Ok(RangeOps(REPLACE, s.otherStart, s.otherEnd - s.otherStart, other))
    ensures Replay(other[..s.otherStart] + self[s.selfStart..], EmitSpan(self, other, s, false).value)
            == (other[..s.otherEnd] + self[s.selfEnd..], None)
  {
    EmitRangeIs(REPLACE, s.otherStart, s.otherEnd - s.otherStart, other);
    ReplayOverwrites(self, other, s.selfStart, s.otherStart, s.otherEnd - s.otherStart);
  }

  /** An `insert` puts the span of `other` before the unconsumed rest of `self`. */
  lemma ReplayInsertSpan(self: seq<string>, other: seq<string>, s: Span, fixReplace: bool)
    requires s.tag == "insert" && s.selfStart == s.selfEnd <= |self| && s.otherStart <= s.otherEnd <= |other|
    ensures EmitSpan(self, other, s, fixReplace) == Ok(RangeOps(INSERT, s.otherStart, s.otherEnd - s.otherStart, other))
    ensures Replay(other[..s.otherStart] + self[s.selfStart..], EmitSpan(self, other, s, fixReplace).value)
            == (other[..s.otherEnd] + self[s.selfEnd..], None)
  {
    EmitRangeIs(INSERT, s.otherStart, s.otherEnd - s.otherStart, other);
    ReplayInserts(self, other, s.selfStart, s.otherStart, s.otherEnd - s.otherStart);
  }

  /** A `delete` drops the span of `self` from the replayed list. */
  lemma ReplayDeleteSpan(self: seq<string>, other: seq<string>, s: Span, fixReplace: bool)
    requires s.tag == "delete" && s.selfStart <= s.selfEnd <= |self| && s.otherStart == s.otherEnd <= |other|
    ensures EmitSpan(self, other, s, fixReplace) == Ok(DeleteOps(s.selfStart, s.selfEnd - s.selfStart, s.otherStart, self))
    ensures Replay(other[..s.otherStart] + self[s.selfStart..], EmitSpan(self, other, s, fixReplace).value)
            == (other[..s.otherEnd] + self[s.selfEnd..], None)
  {
    EmitDeletesIs(s.selfStart, s.selfEnd - s.selfStart, s.otherStart, self);
    ReplayDeletes(self, other, s.selfStart, s.otherStart, s.selfEnd - s.selfStart);
  }

  /** Skipping an equal run moves the cursor without changing the replayed list. */
  lemma SkipEqualRun(self: seq<string>, other: seq<string>, i: nat, j: nat, i1: nat, j1: nat)
    requires i <= i1 <= |self| && j <= j1 <= |other| && self[i..i1] == other[j..j1]
    ensures other[..j] + self[i..] == other[..j1] + self[i1..]
  {
    assert self[i..] == self[i..i1] + self[i1..];
    assert other[..j1] == other[..j] + other[j..j1];
  }

  /** The entries of `n` opcodes are those of the first `n - 1` followed by the last one's. */
  lemma EmitSpansSnoc(self: seq<string>, other: seq<string>, spans: seq<Span>, n: nat, fixReplace: bool)
    requires 0 < n <= |spans|
    ensures EmitSpans(self, other, spans[..n], fixReplace) ==
              (var init := EmitSpans(self, other, spans[..n - 1], fixReplace);
               if init.Err? then init
               else var last := EmitSpan(self, other, spans[n - 1], fixReplace);
                    if last.Err? then last else Ok(init.value + last.value))
  {
    assert spans[..n][..n - 1] == spans[..n - 1];
    assert spans[..n][n - 1] == spans[n - 1];
  }

  /** Replaying one more aligned opcode's entries advances the replayed list to its end. */
  lemma ReplayNextSpan(self: seq<string>, other: seq<string>, init: seq<ListOp>, s: Span, i: nat, j: nat, fixReplace: bool)
    requires SpanAligned(self, other, s, i, j)
    requires !fixReplace && s.tag == "replace" ==> s.selfEnd - s.selfStart == s.otherEnd - s.otherStart
    requires Replay(self, init) == (other[..j] + self[i..], None)
    ensures EmitSpan(self, other, s, fixReplace).Ok?
    ensures Replay(self, init + EmitSpan(self, other, s, fixReplace).value) == (other[..s.otherEnd] + self[s.selfEnd..], None)
  {
    ReplaySpan(self, other, s, i, j, fixReplace);
    SkipEqualRun(self, other, i, j, s.selfStart, s.otherStart);
    ReplayAppend(self, init, EmitSpan(self, other, s, fixReplace).value);
  }

  /** Replaying the entries of the first `n` opcodes leaves `other`'s prefix followed by the
      unconsumed rest of `self`. */
  lemma {:induction false} ReplaySpansPrefix(self: seq<string>, other: seq<string>, spans: seq<Span>, n: nat, fixReplace: bool)
    requires Aligns(self, other, spans) && (fixReplace || EqualLengthReplaces(spans)) && n <= |spans|
    ensures SelfCursor(spans, n) <= |self| && OtherCursor(spans, n) <= |other|
    ensures EmitSpans(self, other, spans[..n], fixReplace).Ok?
    ensures Replay(self, EmitSpans(self, other, spans[..n], fixReplace).value)
            == (other[..OtherCursor(spans, n)] + self[SelfCursor(spans, n)..], None)
    decreases n
  {
    if n == 0 {
      assert spans[..0] == [];
      assert other[..0] + self[0..] == self;
    } else {
      ReplaySpansPrefix(self, other, spans, n - 1, fixReplace);
      var s := spans[n - 1];
      var i, j := SelfCursor(spans, n - 1), OtherCursor(spans, n - 1);
      assert SpanAligned(self, other, s, i, j);
      assert !fixReplace && s.tag == "replace" ==> s.selfEnd - s.selfStart == s.otherEnd - s.otherStart;
      EmitSpansSnoc(self, other, spans, n, fixReplace);
      ReplayNextSpan(self, other, EmitSpans(self, other, spans[..n - 1], fixReplace).value, s, i, j, fixReplace);
    }
  }

  /** List diff then apply reproduces `other`: as written when every replace spans equal
      lengths, and with the corrected replace entries for any aligned opcodes. */
  lemma ListRoundTrip(self: seq<string>, other: seq<string>, spans: seq<Span>, fixReplace: bool)
    requires Aligns(self, other, spans) && (fixReplace || EqualLengthReplaces(spans))
    ensures EmitSpans(self, other, spans, fixReplace).Ok?
    ensures Replay(self, EmitSpans(self, other, spans, fixReplace).value) == (other, None)
  {
    ReplaySpansPrefix(self, other, spans, |spans|, fixReplace);
    assert spans[..|spans|] == spans;
    var i, j := SelfCursor(spans, |spans|), OtherCursor(spans, |spans|);
    assert other[..j] + self[i..] == other[..j] + other[j..] == other;
  }

  // ---------------------------------------------------------------------------------------
  // Lemmas: the element laws
  // ---------------------------------------------------------------------------------------

  /** `a.apply(a.diff(b)) == b` for every pair that diffs without raising, when no `replace`
      opcode pairs spans of different lengths. */
  lemma {:induction false} DiffApplyRoundTrip(a: Element, b: Element, matcher: Matcher)
    requires GoodMatcher(matcher) && EqualReplaceMatcher(matcher)
    requires Diff(a, b, matcher).Ok?
    ensures Apply(a, Diff(a, b, matcher).value) == Ok(b)
    decreases a
  {
    var d := Diff(a, b, matcher).value;
    match a
    case Atom(_) =>
    case Set(s) =>
      assert (s - (s - b.items)) + (b.items - s) == b.items;
    case Map(c, m) =>
      var o := b.entries;
      MapDiffPartition(c, m, o, matcher);
      forall k | k in m && k in o && m[k] != o[k]
        ensures Diff(m[k], o[k], matcher).Ok? && Apply(m[k], Diff(m[k], o[k], matcher).value) == Ok(o[k])
      {
        assert k in d.itemsToSet;
        DiffApplyRoundTrip(m[k], o[k], matcher);
      }
      MapRoundTrip(c, m, o, matcher);
    case List(l) =>
      ListRoundTrip(l, b.atoms, Flatten(matcher(l, b.atoms)), false);
  }

  /** The map case of the round trip, given the round trip for every changed value. */
  lemma MapRoundTrip(c: MapClass, m: map<string, Element>, o: map<string, Element>, matcher: Matcher)
    requires Diff(Map(c, m), Map(c, o), matcher).Ok?
    requires forall k :: k in m && k in o && m[k] != o[k] ==>
               Diff(m[k], o[k], matcher).Ok? && Apply(m[k], Diff(m[k], o[k], matcher).value) == Ok(o[k])
    ensures Apply(Map(c, m), Diff(Map(c, m), Map(c, o), matcher).value) == Ok(Map(c, o))
  {
    var d := Diff(Map(c, m), Map(c, o), matcher).value;
    MapDiffPartition(c, m, o, matcher);
    MapApplyIs(c, m, d);
    var setv := SetValues(m, d.itemsToSet);
    assert forall k :: k in setv ==> setv[k] == o[k];
    MergeRebuilds(m, o, d.keysToRemove, setv, d.itemsToAdd);
  }

  /** Deleting the keys only `m` has, setting the changed keys to `o`'s values and adding the
      keys only `o` has turns `m` into `o`. */
  lemma MergeRebuilds(m: map<string, Element>, o: map<string, Element>, remove: set<string>,
                      setv: map<string, Element>, add: map<string, Element>)
    requires remove == m.Keys - o.Keys
    requires add == (map k | k in o && k !in m :: o[k])
    requires setv.Keys == (set k | k in m && k in o && m[k] != o[k])
    requires forall k :: k in setv ==> setv[k] == o[k]
    ensures (m - remove) + setv + add == o
  {
    var result := (m - remove) + setv + add;
    assert result.Keys == o.Keys;
    forall k | k in o ensures result[k] == o[k] {
      if k !in add && k !in setv {
        assert k in m && m[k] == o[k];
      }
    }
  }

  /** Diffing a full value from its kind's zero never raises, and applying that diff to the
      zero rebuilds the value: `x.apply(x.zero().diff(x)) == x` with `x.zero()` as receiver. */
  lemma ZeroRoundTrip(e: Element, matcher: Matcher)
    requires GoodMatcher(matcher) && DeepFull(e)
    ensures Zero(e).Ok? && Diff(Zero(e).value, e, matcher).Ok?
    ensures Apply(Zero(e).value, Diff(Zero(e).value, e, matcher).value) == Ok(e)
  {
    match e {
      case Atom(_) =>
      case Set(s) =>
        assert ({} - ({} - s)) + (s - {}) == s;
      case Map(c, m) =>
        assert forall k :: k in m ==> Copy(m[k]) == Ok(m[k]);
        MapRoundTrip(c, map[], m, matcher);
      case List(l) =>
        NoReplaceFromEmpty(l, Flatten(matcher([], l)));
        ListRoundTrip([], l, Flatten(matcher([], l)), false);
    }
  }

  /** From an empty list difflib emits no `replace` (a replace consumes both lists), so the
      list diff as written round-trips from the zero. */
  lemma NoReplaceFromEmpty(other: seq<string>, spans: seq<Span>)
    requires Aligns([], other, spans)
    ensures forall n :: 0 <= n < |spans| ==> spans[n].tag != "replace"
    ensures EqualLengthReplaces(spans)
  {
    forall n | 0 <= n < |spans| ensures spans[n].tag != "replace" {
      assert SpanAligned([], other, spans[n], SelfCursor(spans, n), OtherCursor(spans, n));
    }
  }

  /** For a map, diff partitions the keys: receiver-only keys are removed, other-only entries
      are added unchanged, and shared keys whose values differ carry the values' own diff. */
  lemma MapDiffPartition(c: MapClass, a: map<string, Element>, b: map<string, Element>, matcher: Matcher)
    requires Diff(Map(c, a), Map(c, b), matcher).Ok?
    ensures var d := Diff(Map(c, a), Map(c, b), matcher).value;
      && d.MapDiff?
      && d.keysToRemove == a.Keys - b.Keys
      && d.itemsToAdd == (map k | k in b && k !in a :: b[k])
      && d.itemsToSet.Keys == (set k | k in a && k in b && a[k] != b[k])
      && (forall k :: k in d.itemsToSet ==> Diff(a[k], b[k], matcher) == Ok(d.itemsToSet[k]))
  {
    var d := Diff(Map(c, a), Map(c, b), matcher).value;
    var added := map k | k in b && k !in a :: Copy(b[k]);
    assert Collect(added).Ok?;
    forall k | k in b && k !in a ensures Copy(b[k]) == Ok(b[k]) {
      assert added[k].Ok?;
    }

  }

  /** Combining a (list-free) full value with itself gives it back. */
  lemma {:induction false} CombineIdempotent(e: Element)
    requires Combinable(e)
    ensures Combine(e, e) == Ok(e)
    decreases e
  {
    match e
    case Atom(_) =>
    case Set(s) =>
      assert s + s == s;
    case Map(c, m) =>
      forall k | k in m ensures Combine(m[k], m[k]) == Ok(m[k]) {
        CombineIdempotent(m[k]);
      }
      var r := Combine(e, e);
      assert r.Ok?;
      assert r.value.entries == m;
  }

  /** Combining the zero of a kind with a value gives that value back. */
  lemma CombineZeroLeft(e: Element)
    requires Combinable(e)
    ensures Zero(e).Ok? && Combine(Zero(e).value, e) == Ok(e)
  {
    match e
    case Atom(_) =>
    case Set(s) =>
      assert {} + s == s;
    case Map(c, m) =>
      CombineEmptyMap(c, m);
  }

  lemma CombineEmptyMap(c: MapClass, m: map<string, Element>)
    ensures Combine(Map(c, map[]), Map(c, m)) == Ok(Map(c, m))
  {
    var r := Combine(Map(c, map[]), Map(c, m));
    assert r.Ok?;
    assert r.value.entries == m;
  }

  /** A shared key whose values are of different classes, one of them full, makes the map's
      `diff` raise at its `!=` test, and makes the map's `==` raise when the key sets agree. */
  lemma NestedClassMismatch(c: MapClass, m: map<string, Element>, o: map<string, Element>, k: string,
                            matcher: Matcher)
    requires k in m && k in o && (m[k].IsFull() || o[k].IsFull()) && !SameClass(m[k], o[k])
    ensures Diff(Map(c, m), Map(c, o), matcher).Err?
    ensures m.Keys == o.Keys ==> Equals(Map(c, m), Map(c, o)) == Err(TypeError)
  {
    var added := map j | j in o && j !in m :: Copy(o[j]);
    if Collect(added).Ok? {
      var changed := map j | j in o && j in m && Equals(m[j], o[j]) != Ok(true) ::
                       if Equals(m[j], o[j]).Err? then Err(Equals(m[j], o[j]).error)
                       else Diff(m[j], o[j], matcher);
      assert changed[k].Err?;
    }
  }

  /** A set diff adds only what `s` lacks and removes only what `s` has, never both at once,
      and it is empty exactly when the two sets are equal. */
  lemma SetDiffDisjoint(s: set<Element>, o: set<Element>, matcher: Matcher)
    ensures var d := Diff(Set(s), Set(o), matcher).value;
      && d.toAdd !! d.toRemove
      && d.toAdd !! s
      && d.toRemove <= s
      && (d.toAdd == {} && d.toRemove == {} <==> s == o)
  {
    var d := Diff(Set(s), Set(o), matcher).value;
    if d.toAdd == {} && d.toRemove == {} {
      assert forall x :: x in o ==> x in s;
      assert forall x :: x in s ==> x in o;
    }
  }

  // ---------------------------------------------------------------------------------------
  // The unequal-length replace
  // ---------------------------------------------------------------------------------------

  /** As written, a `replace` opcode emits one `~` entry per position of `other`: diffing
      `["p"]` into `["q", "r"]` (difflib pairs them as one replace) yields two overwrites, and
      replaying them indexes past the end of the one-element list. */
  lemma UnequalReplaceBreaksRoundTrip()
    ensures Aligns(["p"], ["q", "r"], [Span("replace", 0, 1, 0, 2)])
    ensures EmitSpans(["p"], ["q", "r"], [Span("replace", 0, 1, 0, 2)], false)
            == Ok([ListOp(REPLACE, 0, "q"), ListOp(REPLACE, 1, "r")])
    ensures Replay(["p"], [ListOp(REPLACE, 0, "q"), ListOp(REPLACE, 1, "r")]) == (["q"], Some(IndexError))
  {
    var self, other, span := ["p"], ["q", "r"], Span("replace", 0, 1, 0, 2);
    var spans := [span];
    assert SpanAligned(self, other, spans[0], SelfCursor(spans, 0), OtherCursor(spans, 0));
    assert self[1..] == [] == other[2..];
    var ops := [ListOp(REPLACE, 0, "q"), ListOp(REPLACE, 1, "r")];
    EmitRangeIs(REPLACE, 0, 2, other);
    assert RangeOps(REPLACE, 0, 2, other) == ops;
    assert EmitSpan(self, other, span, false) == Ok(ops);
    assert spans[..0] == [];
    assert EmitSpans(self, other, spans, false) == Ok([] + ops);
    assert [] + ops == ops;
    assert self[0 := "q"] == ["q"];
    assert Step(self, ops[0]) == Ok(["q"]);
    assert Step(["q"], ops[1]) == Err(IndexError);
    assert ops[1..] == [ops[1]];
  }

  /** With equal-length replaces the corrected entries are exactly the written ones. */
  lemma FixedReplaceAgrees(self: seq<string>, other: seq<string>, s: Span)
    requires s.tag == "replace" ==> s.selfEnd - s.selfStart == s.otherEnd - s.otherStart
    ensures EmitSpan(self, other, s, true) == EmitSpan(self, other, s, false)
  {
    if s.tag == "replace" {
      var n := Width(s.otherStart, s.otherEnd);
      assert Width(s.selfStart, s.selfEnd) == n;
      assert EmitRange(INSERT, s.otherStart + n, s.otherEnd, other) == Ok([]);
      assert EmitDeletes(s.selfStart + n, s.selfEnd, s.otherEnd, self) == Ok([]);
      var written := EmitRange(REPLACE, s.otherStart, s.otherEnd, other);
      if n == 0 {
        assert written == Ok([]);
        assert EmitRange(REPLACE, s.otherStart, s.otherStart + n, other) == Ok([]);
      } else {
        assert s.otherStart + n == s.otherEnd;
      }
      if written.Ok? {
        assert written.value + [] + [] == written.value;
      }
    }
  }

  /** The correction only changes the entries of unequal-length replaces. */
  lemma {:induction false} FixedEmitAgrees(self: seq<string>, other: seq<string>, spans: seq<Span>)
    requires EqualLengthReplaces(spans)
    ensures EmitSpans(self, other, spans, true) == EmitSpans(self, other, spans, false)
    decreases |spans|
  {
    if spans != [] {
      var init := spans[..|spans| - 1];
      assert EqualLengthReplaces(init) by {
        forall n | 0 <= n < |init| && init[n].tag == "replace"
          ensures init[n].selfEnd - init[n].selfStart == init[n].otherEnd - init[n].otherStart
        {
          assert init[n] == spans[n];
        }
      }
      FixedEmitAgrees(self, other, init);
      FixedReplaceAgrees(self, other, spans[|spans| - 1]);
    }
  }

  // ---------------------------------------------------------------------------------------
  // The loops of List.diff
  // ---------------------------------------------------------------------------------------

  lemma {:induction false} FlattenAppend(x: seq<seq<Span>>, y: seq<seq<Span>>)
    ensures Flatten(x + y) == Flatten(x) + Flatten(y)
    decreases |y|
  {
    if y == [] {
      assert x + y == x;
    } else {
      var init, last := y[..|y| - 1], y[|y| - 1];
      assert (x + y)[..|x + y| - 1] == x + init && (x + y)[|x + y| - 1] == last;
      assert Flatten(x + y) == Flatten(x + init) + last;
      assert Flatten(y) == Flatten(init) + last;
      FlattenAppend(x, init);
      assert Flatten(x + init) + last == Flatten(x) + (Flatten(init) + last);
    }
  }

  /** Once a prefix of opcodes raises, further opcodes do not change the outcome. */
  lemma EmitSpansKeepsError(self: seq<string>, other: seq<string>, x: seq<Span>, y: seq<Span>, fixReplace: bool)
    requires EmitSpans(self, other, x, fixReplace).Err?
    ensures EmitSpans(self, other, x + y, fixReplace) == EmitSpans(self, other, x, fixReplace)
    decreases |y|
  {
    if y == [] {
      assert x + y == x;
    } else {
      assert (x + y)[..|x + y| - 1] == x + y[..|y| - 1];
      EmitSpansKeepsError(self, other, x, y[..|y| - 1], fixReplace);
    }
  }

  /** `for idx in range(start, end): diff.append((op, idx, other[idx].value))`. */
  method AppendRange(diff: seq<ListOp>, op: string, start: nat, end: nat, other: seq<string>)
    returns (r: Result<seq<ListOp>>)
    ensures r == (var e := EmitRange(op, start, end, other); if e.Err? then e else Ok(diff + e.value))
  {
    var out := diff;
    var idx := start;
    while idx < end
      invariant idx == start || start < idx <= end
      invariant idx == start ==> out == diff
      invariant idx > start ==> idx <= |other| && out == diff + RangeOps(op, start, idx - start, other)
      decreases end - idx
    {
      if idx >= |other| {
        return Err(IndexError);
      }
      assert RangeOps(op, start, idx + 1 - start, other)
             == (if idx == start then [] else RangeOps(op, start, idx - start, other)) + [ListOp(op, idx, other[idx])];
      out := out + [ListOp(op, idx, other[idx])];
      idx := idx + 1;
    }
    if start >= end {
      assert diff + [] == diff;
    } else {
      assert idx == end;
      assert EmitRange(op, start, end, other) == Ok(RangeOps(op, start, end - start, other));
      assert out == diff + RangeOps(op, start, end - start, other);
    }
    return Ok(out);
  }

  /** `for idx in range(self_start, self_end): diff.append(("-", other_start, self[idx].value))`. */
  method AppendDeletes(diff: seq<ListOp>, selfStart: nat, selfEnd: nat, at: nat, self: seq<string>)
    returns (r: Result<seq<ListOp>>)
    ensures r == (var e := EmitDeletes(selfStart, selfEnd, at, self); if e.Err? then e else Ok(diff + e.value))
  {
    var out := diff;
    var idx := selfStart;
    while idx < selfEnd
      invariant idx == selfStart || selfStart < idx <= selfEnd
      invariant idx == selfStart ==> out == diff
      invariant idx > selfStart ==> idx <= |self| && out == diff + DeleteOps(selfStart, idx - selfStart, at, self)
      decreases selfEnd - idx
    {
      if idx >= |self| {
        return Err(IndexError);
      }
      assert DeleteOps(selfStart, idx + 1 - selfStart, at, self)
             == (if idx == selfStart then [] else DeleteOps(selfStart, idx - selfStart, at, self)) + [ListOp(DELETE, at, self[idx])];
      out := out + [ListOp(DELETE, at, self[idx])];
      idx := idx + 1;
    }
    if selfStart >= selfEnd {
      assert diff + [] == diff;
    } else {
      assert idx == selfEnd;
      assert EmitDeletes(selfStart, selfEnd, at, self) == Ok(DeleteOps(selfStart, selfEnd - selfStart, at, self));
    }
    return Ok(out);
  }

  /** The body of `List.diff`'s inner loop: the entries for one opcode, by its tag. */
  method AppendSpan(diff: seq<ListOp>, self: seq<string>, other: seq<string>, span: Span) returns (next: Result<seq<ListOp>>)
    ensures next == (var e := EmitSpan(self, other, span, false); if e.Err? then e else Ok(diff + e.value))
  {
    if span.tag == "equal" {
      next := AppendRange(diff, EQUAL, span.otherStart, span.otherEnd, other);
    } else if span.tag == "replace" {
      next := AppendRange(diff, REPLACE, span.otherStart, span.otherEnd, other);
    } else if span.tag == "insert" {
      next := AppendRange(diff, INSERT, span.otherStart, span.otherEnd, other);
    } else if span.tag == "delete" {
      next := AppendDeletes(diff, span.selfStart, span.selfEnd, span.otherStart, self);
    } else {
      next := Err(ValueError);
    }
  }

  /** The loops of `List.diff` as written, over the opcode groups of the matcher. */
  method ListDiffEntries(self: seq<string>, other: seq<string>, groups: seq<seq<Span>>) returns (r: Result<seq<ListOp>>)
    ensures r == EmitSpans(self, other, Flatten(groups), false)
  {
    var diff: seq<ListOp> := [];
    var g := 0;
    while g < |groups|
      invariant 0 <= g <= |groups|
      invariant EmitSpans(self, other, Flatten(groups[..g]), false) == Ok(diff)
    {
      var next := GroupEntries(diff, self, other, Flatten(groups[..g]), groups[g]);
      FlattenSnoc(groups, g);
      if next.Err? {
        FailingGroup(self, other, groups, g);
        return next;
      }
      diff := next.value;
      g := g + 1;
    }
    assert groups[..|groups|] == groups;
    return Ok(diff);
  }

  /** The inner loop of `List.diff`, over the opcodes of one group. */
  method GroupEntries(diff: seq<ListOp>, self: seq<string>, other: seq<string>, ghost before: seq<Span>, group: seq<Span>)
    returns (r: Result<seq<ListOp>>)
    requires EmitSpans(self, other, before, false) == Ok(diff)
    ensures r == EmitSpans(self, other, before + group, false)
  {
    var acc := diff;
    assert before + group[..0] == before;
    for k := 0 to |group|
      invariant EmitSpans(self, other, before + group[..k], false) == Ok(acc)
    {
      var next := AppendSpan(acc, self, other, group[k]);
      SpanStep(self, other, before, group, k, acc);
      if next.Err? {
        return next;
      }
      acc := next.value;
    }
    assert group[..|group|] == group;
    return Ok(acc);
  }

  /** Opcode `k` of a group appends its entries to those before it; when it raises, so does
      the whole group. */
  lemma SpanStep(self: seq<string>, other: seq<string>, before: seq<Span>, group: seq<Span>, k: nat, acc: seq<ListOp>)
    requires k < |group| && EmitSpans(self, other, before + group[..k], false) == Ok(acc)
    ensures EmitSpans(self, other, before + group[..k + 1], false) ==
              (var e := EmitSpan(self, other, group[k], false); if e.Err? then e else Ok(acc + e.value))
    ensures EmitSpans(self, other, before + group[..k + 1], false).Err? ==>
              EmitSpans(self, other, before + group, false) == EmitSpans(self, other, before + group[..k + 1], false)
  {
    EmitSpansPush(self, other, before + group[..k], group[k], acc);
    assert (before + group[..k]) + [group[k]] == before + group[..k + 1];
    if EmitSpans(self, other, before + group[..k + 1], false).Err? {
      EmitSpansKeepsError(self, other, before + group[..k + 1], group[k + 1..], false);
      assert before + group[..k + 1] + group[k + 1..] == before + group;
    }
  }

  /** The opcodes of the first `g + 1` groups: those of the first `g`, then group `g`'s. */
  lemma FlattenSnoc(groups: seq<seq<Span>>, g: nat)
    requires g < |groups|
    ensures Flatten(groups[..g + 1]) == Flatten(groups[..g]) + groups[g]
  {
    assert groups[..g + 1][..g] == groups[..g];
    assert groups[..g + 1][g] == groups[g];
  }

  /** When group `g` raises, so do the entries of all the groups, with its error. */
  lemma FailingGroup(self: seq<string>, other: seq<string>, groups: seq<seq<Span>>, g: nat)
    requires g < |groups|
    requires EmitSpans(self, other, Flatten(groups[..g + 1]), false).Err?
    ensures EmitSpans(self, other, Flatten(groups), false) == EmitSpans(self, other, Flatten(groups[..g + 1]), false)
  {
    assert groups == groups[..g + 1] + groups[g + 1..];
    FlattenAppend(groups[..g + 1], groups[g + 1..]);
    EmitSpansKeepsError(self, other, Flatten(groups[..g + 1]), Flatten(groups[g + 1..]), false);
  }

  /** One more opcode appends its entries, or raises. */
  lemma EmitSpansPush(self: seq<string>, other: seq<string>, spans: seq<Span>, s: Span, diff: seq<ListOp>)
    requires EmitSpans(self, other, spans, false) == Ok(diff)
    ensures EmitSpans(self, other, spans + [s], false) ==
              (var e := EmitSpan(self, other, s, false); if e.Err? then e else Ok(diff + e.value))
  {
    assert (spans + [s])[..|spans|] == spans;
  }

  // ---------------------------------------------------------------------------------------
  // Map apply, as the loops over a copy of the receiver's dict
  // ---------------------------------------------------------------------------------------

  /** The values the set step stores: each receiver value with its diff applied. */
  function SetValues(m: map<string, Element>, sets: map<string, Element>): (r: map<string, Element>)
    requires forall k :: k in sets ==> k in m && Apply(m[k], sets[k]).Ok?
    ensures r.Keys == sets.Keys
    ensures forall k :: k in sets ==> Apply(m[k], sets[k]) == Ok(r[k])
  {
    map k | k in sets :: Apply(m[k], sets[k]).value
  }

  /** A map apply whose steps all succeed: delete, then set, then add. */
  lemma MapApplyIs(c: MapClass, m: map<string, Element>, d: Element)
    requires d.MapDiff? && d.cls == c && d.keysToRemove <= m.Keys
    requires forall k :: k in d.itemsToSet ==> k in m && Apply(m[k], d.itemsToSet[k]).Ok?
    ensures Apply(Map(c, m), d) == Ok(Map(c, (m - d.keysToRemove) + SetValues(m, d.itemsToSet) + d.itemsToAdd))
  {
    var applied := map k | k in d.itemsToSet :: if k in m then Apply(m[k], d.itemsToSet[k]) else Err(KeyError);
    assert Collect(applied).Ok?;
    assert Collect(applied).value == SetValues(m, d.itemsToSet);
  }

  /** What a successful map apply produces, key by key. */
  lemma MapApplyEntries(c: MapClass, m: map<string, Element>, d: Element)
    requires d.MapDiff?
    ensures Apply(Map(c, m), d).Ok? ==>
              var n := Apply(Map(c, m), d).value.entries;
              && n.Keys == (m.Keys - d.keysToRemove) + d.itemsToSet.Keys + d.itemsToAdd.Keys
              && (forall k :: k in d.itemsToAdd ==> n[k] == d.itemsToAdd[k])
              && (forall k :: k in d.itemsToSet && k !in d.itemsToAdd ==> n[k] == Apply(m[k], d.itemsToSet[k]).value)
              && (forall k :: k in n && k !in d.itemsToSet && k !in d.itemsToAdd ==> n[k] == m[k])
  {
    if Apply(Map(c, m), d).Ok? {
      MapApplyIs(c, m, d);
    }
  }

  /** The `for key in diff.keys_to_remove: del new_map[key]` loop. */
  method RemoveKeys(m: map<string, Element>, keys: set<string>) returns (r: Result<map<string, Element>>)
    ensures r.Ok? <==> keys <= m.Keys
    ensures r.Ok? ==> r.value == m - keys
    ensures r.Err? ==> r.error == KeyError
  {
    var newMap := m;
    var toRemove := keys;
    while toRemove != {}
      invariant toRemove <= keys
      invariant keys - toRemove <= m.Keys
      invariant newMap == m - (keys - toRemove)
      decreases toRemove
    {
      var k :| k in toRemove;
      if k !in newMap {
        return Err(KeyError);
      }
      newMap := newMap - {k};
      toRemove := toRemove - {k};
    }
    return Ok(newMap);
  }

  /** The `for key, value in diff.items_to_set.items(): new_map[key] = self.map[key].apply(value)`
      loop, which reads the original entries of `m` and writes into `base`. */
  method SetKeys(m: map<string, Element>, base: map<string, Element>, sets: map<string, Element>)
    returns (r: Result<map<string, Element>>)
    ensures r.Ok? <==> forall k :: k in sets ==> k in m && Apply(m[k], sets[k]).Ok?
    ensures r.Ok? ==> r.value.Keys == base.Keys + sets.Keys
    ensures r.Ok? ==> forall k :: k in sets ==> k in m && Apply(m[k], sets[k]) == Ok(r.value[k])
    ensures r.Ok? ==> forall k :: k in base && k !in sets ==> r.value[k] == base[k]
  {
    var newMap := base;
    var toSet := sets.Keys;
    while toSet != {}
      invariant toSet <= sets.Keys
      invariant newMap.Keys == base.Keys + (sets.Keys - toSet)
      invariant forall k :: k in sets && k !in toSet ==> k in m && Apply(m[k], sets[k]) == Ok(newMap[k])
      invariant forall k :: k in base && k !in sets ==> newMap[k] == base[k]
      decreases toSet
    {
      var k :| k in toSet;
      if k !in m {
        return Err(KeyError);
      }
      var v := Apply(m[k], sets[k]);
      if v.Err? {
        return Err(v.error);
      }
      newMap := newMap[k := v.value];
      toSet := toSet - {k};
    }
    return Ok(newMap);
  }

  /** The `for key, value in diff.items_to_add.items(): new_map[key] = value` loop. */
  method AddKeys(base: map<string, Element>, adds: map<string, Element>) returns (r: map<string, Element>)
    ensures r == base + adds
  {
    r := base;
    var toAdd := adds.Keys;
    while toAdd != {}
      invariant toAdd <= adds.Keys
      invariant r.Keys == base.Keys + (adds.Keys - toAdd)
      invariant forall k :: k in r ==> r[k] == if k in adds && k !in toAdd then adds[k] else base[k]
      decreases toAdd
    {
      var k :| k in toAdd;
      r := r[k := adds[k]];
      toAdd := toAdd - {k};
    }
  }

  /** `_GenericMap.apply`: copy the receiver's dict, delete, set, then add.  The receiver is
      left unchanged. */
  method MapApply(c: MapClass, m: map<string, Element>, d: Element) returns (r: Result<Element>)
    ensures r.Ok? <==> Apply(Map(c, m), d).Ok?
    ensures r.Ok? ==> r == Apply(Map(c, m), d)
    ensures !(d.MapDiff? && d.cls == c) ==> r == Err(TypeError)
    ensures d.MapDiff? && d.cls == c && !(d.keysToRemove <= m.Keys) ==> r == Err(KeyError)
  {
    if !(d.MapDiff? && d.cls == c) {
      return Err(TypeError);
    }
    var removed := RemoveKeys(m, d.keysToRemove);
    if removed.Err? {
      return Err(removed.error);
    }
    var set_ := SetKeys(m, removed.value, d.itemsToSet);
    if set_.Err? {
      return Err(set_.error);
    }
    var added := AddKeys(set_.value, d.itemsToAdd);
    MapApplyIs(c, m, d);
    assert set_.value == removed.value + SetValues(m, d.itemsToSet);
    r := Ok(Map(c, added));
  }

  // ---------------------------------------------------------------------------------------
  // Elements updated in place
  // ---------------------------------------------------------------------------------------

  /** A Set element, whose `add` and `remove` update its members in place. */
  class SetObject {
    var items: set<Element>

    constructor (items: set<Element>)
      ensures this.items == items
    {
      this.items := items;
    }

    /** Adds `value` and returns the receiver itself. */
    method Add(value: Element) returns (self: SetObject)
      modifies this
      ensures items == old(items) + {value}
      ensures self == this
    {
      items := items + {value};
      self := this;
    }

    /** Removes `value` if present (a discard, so absence is no error). */
    method Remove(value: Element) returns (self: SetObject)
      modifies this
      ensures items == old(items) - {value}
      ensures self == this
    {
      items := items - {value};
      self := this;
    }
  }

  /** A List element, whose apply edits its own list in place. */
  class ListObject {
    var atoms: seq<string>

    constructor (atoms: seq<string>)
      ensures this.atoms == atoms
    {
      this.atoms := atoms;
    }

    /** `_apply_opcodes` on the receiver's list: the list ends as the replay leaves it, also
        when an entry raises part way. */
    method ApplyOpcodes(opcodes: seq<ListOp>) returns (err: Option<Error>)
      modifies this
      ensures (atoms, err) == Replay(old(atoms), opcodes)
    {
      var i := 0;
      while i < |opcodes|
        invariant 0 <= i <= |opcodes|
        invariant Replay(old(atoms), opcodes) == Replay(atoms, opcodes[i..])
      {
        var op := opcodes[i];
        assert opcodes[i..][0] == op && opcodes[i..][1..] == opcodes[i + 1..];
        if op.op == EQUAL {
          if op.idx >= |atoms| {
            return Some(IndexError);
          }
          if atoms[op.idx] != op.value {
            return Some(ValueError);
          }
        } else if op.op == REPLACE {
          if op.idx >= |atoms| {
            return Some(IndexError);
          }
          atoms := atoms[op.idx := op.value];
        } else if op.op == INSERT {
          var at := Min(op.idx, |atoms|);
          atoms := atoms[..at] + [op.value] + atoms[at..];
        } else if op.op == DELETE {
          if op.idx < |atoms| {
            atoms := atoms[..op.idx] + atoms[op.idx + 1..];
          }
        } else {
          return Some(ValueError);
        }
        i := i + 1;
      }
      return None;
    }

    /** `List.apply`: the result wraps the receiver's own, now edited, list. */
    method ApplyInPlace(d: Element) returns (r: Result<Element>)
      modifies this
      ensures r == Apply(List(old(atoms)), d)
      ensures !d.ListDiff? ==> atoms == old(atoms)
      ensures d.ListDiff? ==> atoms == Replay(old(atoms), d.opcodes).0
      ensures r.Ok? ==> r.value == List(atoms)
    {
      if !d.ListDiff? {
        return Err(TypeError);
      }
      var err := ApplyOpcodes(d.opcodes);
      if err.Some? {
        return Err(err.value);
      }
      return Ok(List(atoms));
    }
  }
}
