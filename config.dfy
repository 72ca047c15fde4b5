/** `config.py`: the parsed configuration files are flattened into dot-joined keys and merged,
    a later file overriding an earlier one, and the merged keys starting with `gather.` and
    `render.` configure the gatherers and renderers. */
module Config {

  /** A parsed TOML document: tables are dicts (their entries in order); every other value is
      a leaf. */
  datatype Toml = Leaf(value: string) | Table(entries: seq<(string, Toml)>)

  /** `delimiter.join(parts)` with the delimiter ".". */
  function Join(parts: seq<string>): string {
    if parts == [] then ""
    else if |parts| == 1 then parts[0]
    else parts[0] + "." + Join(parts[1..])
  }

  // ---------------------------------------------------------------------------------------
  // _flatten_dict
  // ---------------------------------------------------------------------------------------

  /** What `_flatten_dict` yields for a table reached along `path`: one pair per leaf, keyed
      by the dot-joined path to it, in document order; a nested table contributes its own
      leaves. */
  function Flat(es: seq<(string, Toml)>, path: seq<string>): seq<(string, string)>
    decreases es
  {
    if es == [] then []
    else
      var e := es[|es| - 1];
      Flat(es[..|es| - 1], path) +
      (match e.1
       case Leaf(v) => [(Join(path + [e.0]), v)]
       case Table(inner) =>
         assert e in es && e.1 < e;
         Flat(inner, path + [e.0]))
  }

  /** The leaves of a table with their paths relative to it. */
  function LeafPaths(es: seq<(string, Toml)>): seq<(seq<string>, string)>
    decreases es
  {
    if es == [] then []
    else
      var e := es[|es| - 1];
      LeafPaths(es[..|es| - 1]) +
      (match e.1
       case Leaf(v) => [([e.0], v)]
       case Table(inner) =>
         assert e in es && e.1 < e;
         Under(e.0, LeafPaths(inner)))
  }

  /** The same leaves one table further down. */
  function Under(key: string, ps: seq<(seq<string>, string)>): (r: seq<(seq<string>, string)>)
    ensures |r| == |ps|
    ensures forall i :: 0 <= i < |r| ==> r[i] == ([key] + ps[i].0, ps[i].1)
  {
    if ps == [] then [] else [([key] + ps[0].0, ps[0].1)] + Under(key, ps[1..])
  }

  /** Each leaf keyed by the dot-joined `path + its path`. */
  function JoinedUnder(path: seq<string>, ps: seq<(seq<string>, string)>): (r: seq<(string, string)>)
    ensures |r| == |ps|
    ensures forall i :: 0 <= i < |r| ==> r[i] == (Join(path + ps[i].0), ps[i].1)
  {
    if ps == [] then [] else [(Join(path + ps[0].0), ps[0].1)] + JoinedUnder(path, ps[1..])
  }

  /** The shared `current_path` list is always the path to the table being walked: each key
      of the flattened table is the dot-joined path from the root to a leaf, and each leaf of
      the document yields one key, in document order. */
  lemma {:induction false} FlatIsJoinedLeafPaths(es: seq<(string, Toml)>, path: seq<string>)
    ensures Flat(es, path) == JoinedUnder(path, LeafPaths(es))
    decreases es
  {
    if es != [] {
      var e := es[|es| - 1];
      FlatIsJoinedLeafPaths(es[..|es| - 1], path);
      match e.1
      case Leaf(v) =>
        JoinedUnderConcat(path, LeafPaths(es[..|es| - 1]), [([e.0], v)]);
      case Table(inner) =>
        assert e in es && e.1 < e;
        FlatIsJoinedLeafPaths(inner, path + [e.0]);
        JoinedUnderNested(path, e.0, LeafPaths(inner));
        JoinedUnderConcat(path, LeafPaths(es[..|es| - 1]), Under(e.0, LeafPaths(inner)));
    }
  }

  lemma JoinedUnderNested(path: seq<string>, key: string, ps: seq<(seq<string>, string)>)
    ensures JoinedUnder(path + [key], ps) == JoinedUnder(path, Under(key, ps))
  {
    forall i | 0 <= i < |ps| ensures (path + [key]) + ps[i].0 == path + ([key] + ps[i].0) {
    }
  }

  lemma JoinedUnderConcat(path: seq<string>, a: seq<(seq<string>, string)>, b: seq<(seq<string>, string)>)
    ensures JoinedUnder(path, a + b) == JoinedUnder(path, a) + JoinedUnder(path, b)
  {
  }

  /** A nested table without entries contributes no key at all. */
  lemma EmptyTableNoKeys(es: seq<(string, Toml)>, key: string, path: seq<string>)
    ensures Flat(es + [(key, Table([]))], path) == Flat(es, path)
  {
    assert (es + [(key, Table([]))])[..|es|] == es;
  }

  /** `_flatten_dict`'s state: the `current_path` list shared by every recursive call. */
  class Flattener {
    var currentPath: seq<string>

    constructor ()
      ensures currentPath == []
    {
      currentPath := [];
    }

    /** `_flatten_dict(d, current_path)`: pushes each key, descends into nested tables or
        yields the dot-joined path for a leaf, and pops the key again, so the shared path is
        left as it was found. */
    method FlattenDict(es: seq<(string, Toml)>) returns (pairs: seq<(string, string)>)
      modifies this
      ensures currentPath == old(currentPath)
      ensures pairs == Flat(es, old(currentPath))
      decreases es
    {
      pairs := [];
      for x := 0 to |es|
        invariant currentPath == old(currentPath)
        invariant pairs == Flat(es[..x], old(currentPath))
      {
        var e := es[x];
        currentPath := currentPath + [e.0];
        match e.1 {
          case Leaf(v) =>
            pairs := pairs + [(Join(currentPath), v)];
          case Table(inner) =>
            assert e in es && e.1 < e;
            var sub := FlattenDict(inner);
            pairs := pairs + sub;
        }
        currentPath := currentPath[..|currentPath| - 1];
        assert es[..x + 1][..x] == es[..x];
      }
      assert es[..|es|] == es;
    }
  }

  // ---------------------------------------------------------------------------------------
  // _merge_configs
  // ---------------------------------------------------------------------------------------

  /** `dict(pairs)`: a later pair overwrites an earlier one with the same key. */
  function ToDict(pairs: seq<(string, string)>): map<string, string> {
    if pairs == [] then map[]
    else ToDict(pairs[..|pairs| - 1])[pairs[|pairs| - 1].0 := pairs[|pairs| - 1].1]
  }

  /** `[dict(_flatten_dict(config)) for config in configs]`. */
  function FlatDicts(configs: seq<seq<(string, Toml)>>): (r: seq<map<string, string>>)
    ensures |r| == |configs|
  {
    if configs == [] then []
    else FlatDicts(configs[..|configs| - 1]) + [ToDict(Flat(configs[|configs| - 1], []))]
  }

  /** `set(chain.from_iterable(flattened))`. */
  function UnionKeys(fl: seq<map<string, string>>): (r: set<string>) {
    if fl == [] then {} else UnionKeys(fl[..|fl| - 1]) + fl[|fl| - 1].Keys
  }

  /** The union holds exactly the keys some config defines. */
  lemma {:induction false} UnionKeysAre(fl: seq<map<string, string>>)
    ensures forall k :: k in UnionKeys(fl) <==> exists i :: 0 <= i < |fl| && k in fl[i]
  {
    if fl != [] {
      var front := fl[..|fl| - 1];
      UnionKeysAre(front);
      assert forall i :: 0 <= i < |front| ==> front[i] == fl[i];
    }
  }

  /** The value of `k` in the last flattened config that has it. */
  function LastValue(fl: seq<map<string, string>>, k: string): string
    requires k in UnionKeys(fl)
  {
    if k in fl[|fl| - 1] then fl[|fl| - 1][k] else LastValue(fl[..|fl| - 1], k)
  }

  /** `[flat[key] for flat in flattened if key in flat]`. */
  function Values(fl: seq<map<string, string>>, k: string): seq<string> {
    if fl == [] then []
    else Values(fl[..|fl| - 1], k) + (if k in fl[|fl| - 1] then [fl[|fl| - 1][k]] else [])
  }

  /** `values[-1]` exists and is the value from the last config holding the key. */
  lemma {:induction false} ValuesLast(fl: seq<map<string, string>>, k: string)
    requires k in UnionKeys(fl)
    ensures |Values(fl, k)| > 0 && Values(fl, k)[|Values(fl, k)| - 1] == LastValue(fl, k)
  {
    if k !in fl[|fl| - 1] {
      ValuesLast(fl[..|fl| - 1], k);
    }
  }

  /** The merged configuration: every key of every config, with its last value. */
  function Merged(configs: seq<seq<(string, Toml)>>): map<string, string> {
    var fl := FlatDicts(configs);
    map k | k in UnionKeys(fl) :: LastValue(fl, k)
  }

  /** For a key several configs define, the last of them decides. */
  lemma {:induction false} LastWins(fl: seq<map<string, string>>, j: nat, k: string)
    requires j < |fl| && k in fl[j]
    requires forall i :: j < i < |fl| ==> k !in fl[i]
    ensures k in UnionKeys(fl) && LastValue(fl, k) == fl[j][k]
  {
    if j < |fl| - 1 {
      var front := fl[..|fl| - 1];
      assert front[j] == fl[j];
      LastWins(front, j, k);
    }
  }

  /** A config put in front of the others only supplies the keys none of them defines:
      the built-in config is overridden by every loaded file. */
  lemma {:induction false} FrontOverridden(first: map<string, string>, fl: seq<map<string, string>>, k: string)
    requires k in UnionKeys(fl)
    ensures k in UnionKeys([first] + fl) && LastValue([first] + fl, k) == LastValue(fl, k)
  {
    var all := [first] + fl;
    assert all[|all| - 1] == fl[|fl| - 1];
    if k !in fl[|fl| - 1] {
      var front := fl[..|fl| - 1];
      assert all[..|all| - 1] == [first] + front;
      FrontOverridden(first, front, k);
    }
  }

  lemma FlatDictsSnoc(configs: seq<seq<(string, Toml)>>, c: nat)
    requires c < |configs|
    ensures FlatDicts(configs[..c + 1]) == FlatDicts(configs[..c]) + [ToDict(Flat(configs[c], []))]
  {
    assert configs[..c + 1][..c] == configs[..c];
  }

  /** `_merge_configs(*configs)`: flattens every config with one shared path, then takes for
      each key occurring anywhere the value of the last config that has it. */
  method MergeConfigs(configs: seq<seq<(string, Toml)>>) returns (result: map<string, string>)
    ensures result == Merged(configs)
    ensures result.Keys == UnionKeys(FlatDicts(configs))
  {
    var flattener := new Flattener();
    var flattened: seq<map<string, string>> := [];
    for c := 0 to |configs|
      invariant flattener.currentPath == []
      invariant flattened == FlatDicts(configs[..c])
    {
      var pairs := flattener.FlattenDict(configs[c]);
      FlatDictsSnoc(configs, c);
      flattened := flattened + [ToDict(pairs)];
    }
    assert configs[..|configs|] == configs;
    result := TakeLast(flattened);
  }

  /** The loop of `_merge_configs` over every key of the flattened configs: each gets the
      last of the values the configs hold for it. */
  method TakeLast(flattened: seq<map<string, string>>) returns (result: map<string, string>)
    ensures result.Keys == UnionKeys(flattened)
    ensures forall k :: k in result ==> result[k] == LastValue(flattened, k)
  {
    var keys := UnionKeys(flattened);
    result := map[];
    ghost var done: set<string> := {};
    while keys != {}
      invariant keys + done == UnionKeys(flattened) && keys !! done
      invariant result.Keys == done
      invariant forall k :: k in result ==> result[k] == LastValue(flattened, k)
      decreases keys
    {
      var key :| key in keys;
      var values := Values(flattened, key);
      ValuesLast(flattened, key);
      result := result[key := values[|values| - 1]];
      keys := keys - {key};
      done := done + {key};
    }
  }

  // ---------------------------------------------------------------------------------------
  // Config.load_from_files
  // ---------------------------------------------------------------------------------------

  /** `{k.removeprefix(prefix): v for k, v in merged.items() if k.startswith(prefix)}`. */
  function Section(merged: map<string, string>, prefix: string): (r: map<string, string>)
    ensures forall k :: k in r <==> prefix + k in merged
    ensures forall k :: k in r ==> r[k] == merged[prefix + k]
  {
    assert forall k :: k in merged && |prefix| <= |k| && k[..|prefix|] == prefix ==> k == prefix + k[|prefix|..];
    var r := map k | k in merged && |prefix| <= |k| && k[..|prefix|] == prefix :: k[|prefix|..] := merged[k];
    assert forall k :: prefix + k in merged ==> (prefix + k)[..|prefix|] == prefix && (prefix + k)[|prefix|..] == k;
    r
  }

  /** `Config.load_from_files` on already parsed files: the built-in config goes first, every
      file after it, and the merged keys are split into the gatherer and renderer sections. */
  method LoadFromFiles(builtin: seq<(string, Toml)>, files: seq<seq<(string, Toml)>>)
    returns (gatherers: map<string, string>, renderers: map<string, string>)
    ensures gatherers == Section(Merged([builtin] + files), "gather.")
    ensures renderers == Section(Merged([builtin] + files), "render.")
  {
    var merged := MergeConfigs([builtin] + files);
    gatherers := Section(merged, "gather.");
    renderers := Section(merged, "render.");
  }
}
