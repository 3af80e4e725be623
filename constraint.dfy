/** A constraint: a predicate on the validated value and an overridable, value-dependent message. */
module Constraints {
  import opened Wrappers
  import opened Values
  import opened PathError

  /** A message that does not depend on the value (Kotlin's `{ errorMessage }`). */
  function Fixed(message: string): Value -> string
  {
    _ => message
  }

  /** The state of a constraint: its predicate `accepts` and its current message function. */
  datatype ConstraintValue = ConstraintValue(accepts: Value -> bool, message: Value -> string)
  {
    /** `check(propertyPath, value)`: no error iff the predicate holds; otherwise the path and the message for that value. */
    function Check(propertyPath: string, value: Value): (r: Option<ValidationError>)
      ensures r.None? <==> accepts(value)
      ensures r.Some? ==> r.value == ValidationError(propertyPath, message(value))
    {
      if accepts(value) then None else Some(ValidationError(propertyPath, message(value)))
    }
  }

  /** The state `Constraint(errorMessage, predicate)` starts in: a constant message. */
  function Make(message: string, accepts: Value -> bool): (r: ConstraintValue)
    ensures r.accepts == accepts
    ensures forall v :: r.message(v) == message
  {
    ConstraintValue(accepts, Fixed(message))
  }

  /** The state after `message(String)`: the message replaced by a constant, the predicate kept. */
  function WithMessage(c: ConstraintValue, message: string): (r: ConstraintValue)
    ensures r.accepts == c.accepts
    ensures forall v :: r.message(v) == message
  {
    ConstraintValue(c.accepts, Fixed(message))
  }

  /** Kotlin's `io.validk.constraints.Constraint<T>` at `T = Value`; `accepts` is its private `predicate`. */
  class Constraint {
    const accepts: Value -> bool
    var errorMessage: Value -> string

    /** The primary constructor: a predicate and a message computed from the value. */
    constructor (accepts: Value -> bool, errorMessage: Value -> string)
      ensures this.accepts == accepts && this.errorMessage == errorMessage
    {
      this.accepts := accepts;
      this.errorMessage := errorMessage;
    }

    /** The secondary constructor: the same message whatever the value. */
    constructor WithText(errorMessage: string, accepts: Value -> bool)
      ensures this.accepts == accepts && this.errorMessage == Fixed(errorMessage)
      ensures forall v :: this.errorMessage(v) == errorMessage
    {
      this.accepts := accepts;
      this.errorMessage := Fixed(errorMessage);
    }

    /** The constraint's current state. */
    function State(): ConstraintValue
      reads this
    {
      ConstraintValue(accepts, errorMessage)
    }

    /** `message(String)`: in place, and the same instance is returned. */
    method Message(message: string) returns (r: Constraint)
      modifies this
      ensures r == this
      ensures State() == WithMessage(old(State()), message)
    {
      errorMessage := Fixed(message);
      return this;
    }

    /** `message((Value) -> String)`: in place, and the same instance is returned; the predicate is unchanged. */
    method MessageWith(message: Value -> string) returns (r: Constraint)
      modifies this
      ensures r == this
      ensures State() == ConstraintValue(accepts, message)
    {
      errorMessage := message;
      return this;
    }

    /** `check(propertyPath, value)`, read from the current message. */
    function Check(propertyPath: string, value: Value): (r: Option<ValidationError>)
      reads this
      ensures r.None? <==> accepts(value)
      ensures r.Some? ==> r.value == ValidationError(propertyPath, errorMessage(value))
    {
      State().Check(propertyPath, value)
    }
  }

  /** After `message(m)` a failing check reports `m`, whatever the message was before. */
  lemma CheckAfterMessage(c: ConstraintValue, m: string, path: string, value: Value)
    requires !c.accepts(value)
    ensures WithMessage(c, m).Check(path, value) == Some(ValidationError(path, m))
  {
  }

  /** The message never decides the outcome: replacing it keeps which values pass. */
  lemma MessageDoesNotChangeOutcome(c: ConstraintValue, message: Value -> string, path: string, value: Value)
    ensures ConstraintValue(c.accepts, message).Check(path, value).None? <==> c.Check(path, value).None?
  {
  }
}
