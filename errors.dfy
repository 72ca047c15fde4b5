/** Failure-compatible result types shared by every module: the Python exceptions the core
    raises become the `Err` side of a `Result`. */
module Errors {

  /** The Python exception classes raised by the modelled code. */
  datatype Error =
    | TypeError
    | ValueError
    | KeyError
    | IndexError
    | AttributeError
    | NotImplementedError
    | AssertionError

  datatype Option<+T> = None | Some(value: T)

  datatype Result<+T> = Ok(value: T) | Err(error: Error) {
    predicate IsFailure() { Err? }

    function PropagateFailure<U>(): Result<U>
      requires Err?
    {
      Err(error)
    }

    function Extract(): T
      requires Ok?
    {
      value
    }
  }

  /** A fixed rank over exception classes.  Python raises the exception of the first failing
      entry of a dict in insertion order; dicts are unordered here, so when several entries
      fail the model reports the failing exception class of least rank. */
  function Rank(e: Error): nat {
    match e
    case TypeError => 0
    case ValueError => 1
    case KeyError => 2
    case IndexError => 3
    case AttributeError => 4
    case NotImplementedError => 5
    case AssertionError => 6
  }

  function FirstError(es: set<Error>): (e: Error)
    requires es != {}
    ensures e in es
    ensures forall x :: x in es ==> Rank(e) <= Rank(x)
  {
    if TypeError in es then TypeError
    else if ValueError in es then ValueError
    else if KeyError in es then KeyError
    else if IndexError in es then IndexError
    else if AttributeError in es then AttributeError
    else if NotImplementedError in es then NotImplementedError
    else
      assert AssertionError in es by {
        var x :| x in es;
        assert x == AssertionError;
      }
      AssertionError
  }

  /** A dict comprehension whose entries may raise: it succeeds only when every entry does. */
  function Collect<K, V>(rs: map<K, Result<V>>): (r: Result<map<K, V>>)
    ensures r.Ok? <==> forall k :: k in rs ==> rs[k].Ok?
    ensures r.Ok? ==> r.value.Keys == rs.Keys
    ensures r.Ok? ==> forall k :: k in rs ==> r.value[k] == rs[k].value
    ensures r.Err? ==> exists k :: k in rs && rs[k] == Err(r.error)
  {
    if forall k :: k in rs ==> rs[k].Ok? then
      Ok(map k | k in rs :: rs[k].value)
    else
      var failed := set k | k in rs && rs[k].Err? :: rs[k].error;
      var k :| k in rs && rs[k].Err?;
      assert rs[k].error in failed;
      Err(FirstError(failed))
  }
}
