/** `CommandRunner.to_commands`: splitting a long parameter list over several invocations of
    one command so that no argv exceeds `max_cli_params` words.  Two copies exist: the
    runner's, where a missing parameter list means "run the bare command", and the plugin
    base's, where an empty one does. */
module Runner {
  import opened Errors

  /** `CommandRunner.max_cli_params`. */
  const MaxCliParams: int := 1024

  /** Concatenation of a list of lists. */
  function Concat(cs: seq<seq<string>>): seq<string> {
    if cs == [] then [] else cs[0] + Concat(cs[1..])
  }

  /** The parameters of a list of commands that each start with a `k`-word command. */
  function ParamsAfter(cmds: seq<seq<string>>, k: nat): seq<string>
    requires forall i :: 0 <= i < |cmds| ==> k <= |cmds[i]|
  {
    if cmds == [] then [] else cmds[0][k..] + ParamsAfter(cmds[1..], k)
  }

  /** `more_itertools.chunked(params, n)` for a positive size: consecutive slices of `n`
      parameters, the last one possibly shorter. */
  function Chunks(params: seq<string>, n: int): seq<seq<string>>
    requires n > 0
    decreases |params|
  {
    if params == [] then []
    else if |params| <= n then [params]
    else [params[..n]] + Chunks(params[n..], n)
  }

  /** `more_itertools.chunked(params, n)` for any size: a size of zero yields no chunk at all
      and a negative size raises ValueError from `itertools.islice`. */
  function Chunked(params: seq<string>, n: int): (r: Result<seq<seq<string>>>)
    ensures n < 0 <==> r.Err?
    ensures r.Err? ==> r.error == ValueError
    ensures n == 0 ==> r == Ok([])
    ensures n > 0 ==> r == Ok(Chunks(params, n))
  {
    if n < 0 then Err(ValueError)
    else if n == 0 then Ok([])
    else Ok(Chunks(params, n))
  }

  /** Every chunk holds between one and `n` parameters, and all but the last exactly `n`. */
  lemma {:induction false} ChunkSizes(params: seq<string>, n: int)
    requires n > 0
    ensures forall i :: 0 <= i < |Chunks(params, n)| ==> 1 <= |Chunks(params, n)[i]| <= n
    ensures forall i :: 0 <= i < |Chunks(params, n)| - 1 ==> |Chunks(params, n)[i]| == n
    decreases |params|
  {
    if |params| > n {
      ChunkSizes(params[n..], n);
      var rest := Chunks(params[n..], n);
      assert Chunks(params, n) == [params[..n]] + rest;
    }
  }

  /** Joining the chunks back together gives the parameters, in order. */
  lemma {:induction false} ChunksConcat(params: seq<string>, n: int)
    requires n > 0
    ensures Concat(Chunks(params, n)) == params
    decreases |params|
  {
    if |params| > n {
      ChunksConcat(params[n..], n);
      var cs := Chunks(params, n);
      assert cs[0] == params[..n] && cs[1..] == Chunks(params[n..], n);
      assert Concat(cs) == params[..n] + params[n..];
      assert params == params[..n] + params[n..];
    } else if params != [] {
      var cs := Chunks(params, n);
      assert cs == [params];
      assert Concat(cs) == params + Concat([]);
    }
  }

  /** `command + chunk` for every chunk. */
  function Prefixed(command: seq<string>, chunks: seq<seq<string>>): (r: seq<seq<string>>)
    ensures |r| == |chunks|
    ensures forall i :: 0 <= i < |r| ==> r[i] == command + chunks[i]
  {
    if chunks == [] then [] else [command + chunks[0]] + Prefixed(command, chunks[1..])
  }

  /** Dropping the command from every invocation and joining the rest gives back the chunks'
      concatenation. */
  lemma {:induction false} PrefixedParams(command: seq<string>, chunks: seq<seq<string>>)
    ensures ParamsAfter(Prefixed(command, chunks), |command|) == Concat(chunks)
  {
    if chunks != [] {
      PrefixedParams(command, chunks[1..]);
      var r := Prefixed(command, chunks);
      assert r[1..] == Prefixed(command, chunks[1..]);
      assert r[0][|command|..] == chunks[0];
    }
  }

  /** What a chunked call yields: `command + chunk` for every chunk of
      `max_cli_params - len(command)` parameters. */
  function ChunkedCommands(command: seq<string>, params: seq<string>): (r: Result<seq<seq<string>>>)
    ensures |command| > MaxCliParams <==> r.Err?
    ensures r.Err? ==> r.error == ValueError
    ensures |command| == MaxCliParams ==> r == Ok([])
    ensures r.Ok? && |command| < MaxCliParams ==>
      && (params == [] <==> r.value == [])
      && (forall i :: 0 <= i < |r.value| ==>
            && |command| < |r.value[i]| <= MaxCliParams
            && r.value[i][..|command|] == command)
      && ParamsAfter(r.value, |command|) == params
  {
    var chunks :- Chunked(params, MaxCliParams - |command|);
    if |command| < MaxCliParams then
      var n := MaxCliParams - |command|;
      ChunkSizes(params, n);
      ChunksConcat(params, n);
      PrefixedParams(command, chunks);
      var r := Prefixed(command, chunks);
      assert forall i :: 0 <= i < |r| ==> r[i][..|command|] == command;
      Ok(r)
    else
      Ok(Prefixed(command, chunks))
  }

  /** `runner.CommandRunner.to_commands`: without parameters the bare command runs once; with
      a parameter list, however short, one command per chunk, so an empty list runs
      nothing. */
  function ToCommands(command: seq<string>, params: Option<seq<string>> := None): (r: Result<seq<seq<string>>>)
    ensures params.None? ==> r == Ok([command])
    ensures params == Some([]) && |command| <= MaxCliParams ==> r == Ok([])
    ensures params.Some? ==> r == ChunkedCommands(command, params.value)
  {
    match params
    case None => Ok([command])
    case Some(ps) => ChunkedCommands(command, ps)
  }

  /** `plugins.base.CommandRunner.to_commands`: an empty (or omitted) parameter list runs the
      bare command once; otherwise one command per chunk. */
  function ToCommandsBase(command: seq<string>, params: seq<string> := []): (r: Result<seq<seq<string>>>)
    ensures params == [] ==> r == Ok([command])
    ensures params != [] ==> r == ChunkedCommands(command, params)
    ensures params != [] && |command| < MaxCliParams ==> r.Ok? && r.value != []
  {
    if params == [] then Ok([command]) else ChunkedCommands(command, params)
  }
}
