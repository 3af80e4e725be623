/** The outcome of validating a value: `Success`, or `Failure` with its errors. */
module Results {
  import opened Wrappers
  import opened PathError
  import opened ErrorList

  /** Kotlin's sealed `ValidationResult`; both variants carry the validated value unchanged. */
  datatype ValidationResult<V> =
    | Success(value: V)
    | Failure(value: V, validationErrors: ValidationErrors)
  {
    /** `Failure.allErrors`: the flat error list. */
    function AllErrors(): (r: seq<ValidationError>)
      requires Failure?
      ensures r == validationErrors.errors
    {
      validationErrors.errors
    }

    /**
     * `ifFailed(block)`, with the block's effect written as a step on some state `S`:
     * the block runs once, on this failure's errors, and only for a failure.
     */
    function IfFailed<S>(state: S, block: (S, ValidationErrors) -> S): (r: S)
      ensures Success? ==> r == state
      ensures Failure? ==> r == block(state, validationErrors)
    {
      match this
      case Success(_) => state
      case Failure(_, es) => block(state, es)
    }

    /** `map(success, error)`: exactly one of the handlers is applied. */
    function Map<R>(success: V -> R, error: (V, ValidationErrors) -> R): (r: R)
      ensures Success? ==> r == success(value)
      ensures Failure? ==> r == error(value, validationErrors)
    {
      match this
      case Success(v) => success(v)
      case Failure(v, es) => error(v, es)
    }

    /**
     * `map(block)`: run the block on a fresh handler context, then map with its
     * handlers; a missing handler is an `IllegalStateException`, the success
     * handler being looked at first.
     */
    method MapWith<R>(block: seq<Handler<V, R>>) returns (r: Result<R>)
      ensures LastSuccess(block).None? ==> r == Fatal("Success handler missing")
      ensures LastSuccess(block).Some? && LastError(block).None? ==> r == Fatal("Error handler missing")
      ensures LastSuccess(block).Some? && LastError(block).Some? ==>
                r == Ok(Map(LastSuccess(block).value, LastError(block).value))
    {
      var context := new ResultMapContext<V, R>();
      var i := 0;
      while i < |block|
        invariant 0 <= i <= |block|
        invariant context.success == LastSuccess(block[..i])
        invariant context.error == LastError(block[..i])
      {
        assert block[..i + 1] == block[..i] + [block[i]];
        match block[i] {
          case OnSuccess(f) => context.Success(f);
          case OnError(g) => context.Error(g);
        }
        i := i + 1;
      }
      assert block[..i] == block;
      if context.success.None? {
        return Fatal("Success handler missing");
      }
      if context.error.None? {
        return Fatal("Error handler missing");
      }
      return Ok(Map(context.success.value, context.error.value));
    }
  }

  /** Kotlin's `Failure(value, propertyPath, errorMessage)`. */
  function FailureAt<V>(value: V, path: string, message: string): (r: ValidationResult<V>)
    ensures r.Failure? && r.value == value
    ensures r.AllErrors() == [ValidationError(path, message)]
  {
    Failure(value, Single(path, message))
  }

  /** Kotlin's `Failure(value, errors)` and `Failure(value, vararg errors)`. */
  function FailureWith<V>(value: V, errors: seq<ValidationError>): (r: ValidationResult<V>)
    ensures r.Failure? && r.value == value && r.AllErrors() == errors
  {
    Failure(value, ValidationErrors(errors))
  }

  /** One call made by a `map { ... }` block on its receiver context. */
  datatype Handler<!V, R> =
    | OnSuccess(onSuccess: V -> R)
    | OnError(onError: (V, ValidationErrors) -> R)

  /** The success handler the context holds after the calls: the last one set, if any. */
  function LastSuccess<V, R>(calls: seq<Handler<V, R>>): Option<V -> R>
  {
    if calls == [] then None
    else if calls[|calls| - 1].OnSuccess? then Some(calls[|calls| - 1].onSuccess)
    else LastSuccess(calls[..|calls| - 1])
  }

  /** The error handler the context holds after the calls: the last one set, if any. */
  function LastError<V, R>(calls: seq<Handler<V, R>>): Option<(V, ValidationErrors) -> R>
  {
    if calls == [] then None
    else if calls[|calls| - 1].OnError? then Some(calls[|calls| - 1].onError)
    else LastError(calls[..|calls| - 1])
  }

  /** Kotlin's `ResultMapContext`: two optional handlers, set by `success(...)` and `error(...)`. */
  class ResultMapContext<V, R> {
    var success: Option<V -> R>
    var error: Option<(V, ValidationErrors) -> R>

    constructor()
      ensures success == None && error == None
    {
      success := None;
      error := None;
    }

    /** `error(onError)`: replaces the error handler. */
    method Error(onError: (V, ValidationErrors) -> R)
      modifies this
      ensures error == Some(onError) && success == old(success)
    {
      error := Some(onError);
    }

    /** `success(onSuccess)`: replaces the success handler. */
    method Success(onSuccess: V -> R)
      modifies this
      ensures success == Some(onSuccess) && error == old(error)
    {
      success := Some(onSuccess);
    }
  }

  /** A handler set exactly when the block makes such a call. */
  lemma {:induction false} LastSuccessSetIffCalled<V, R>(calls: seq<Handler<V, R>>)
    ensures LastSuccess(calls).Some? <==> exists i :: 0 <= i < |calls| && calls[i].OnSuccess?
  {
    if calls != [] {
      var init := calls[..|calls| - 1];
      LastSuccessSetIffCalled(init);
      assert forall i :: 0 <= i < |init| ==> init[i] == calls[i];
    }
  }

  lemma {:induction false} LastErrorSetIffCalled<V, R>(calls: seq<Handler<V, R>>)
    ensures LastError(calls).Some? <==> exists i :: 0 <= i < |calls| && calls[i].OnError?
  {
    if calls != [] {
      var init := calls[..|calls| - 1];
      LastErrorSetIffCalled(init);
      assert forall i :: 0 <= i < |init| ==> init[i] == calls[i];
    }
  }

  /** `map(success, error)` and `ifFailed` agree on which outcome they see. */
  lemma MapAgreesWithIfFailed<V>(r: ValidationResult<V>)
    ensures r.Map(_ => false, (_, _) => true) == r.IfFailed(false, (_, _) => true)
    ensures r.Failure? ==> r.IfFailed([], (acc: seq<ValidationError>, es: ValidationErrors) => acc + es.errors) == r.AllErrors()
  {
  }
}
