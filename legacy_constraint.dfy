/** The older `io.validk.Constraint`: a predicate and a public, reassignable message. */
module LegacyConstraints {
  import opened Wrappers
  import opened Values
  import opened PathError

  class Constraint {
    var errorMessage: string
    const accepts: Value -> bool

    constructor (errorMessage: string, accepts: Value -> bool)
      ensures this.errorMessage == errorMessage && this.accepts == accepts
    {
      this.errorMessage := errorMessage;
      this.accepts := accepts;
    }

    /** `check(propertyPath, value)`: no error iff the predicate holds; otherwise the path and the current message. */
    function Check(propertyPath: string, value: Value): (r: Option<ValidationError>)
      reads this
      ensures r.None? <==> accepts(value)
      ensures r.Some? ==> r.value == ValidationError(propertyPath, errorMessage)
    {
      if !accepts(value) then Some(ValidationError(propertyPath, errorMessage)) else None
    }

    /** Assigning the public `errorMessage` property. */
    method SetErrorMessage(message: string)
      modifies this
      ensures errorMessage == message
    {
      errorMessage := message;
    }
  }

  /**
   * Reassigning the message changes what later failing checks report and
   * nothing else: the outcome of a check is the same before and after.
   */
  method ReassignedMessage(c: Constraint, message: string, path: string, value: Value)
      returns (before: Option<ValidationError>, after: Option<ValidationError>)
    modifies c
    ensures before == old(c.Check(path, value))
    ensures after.None? <==> before.None?
    ensures after.Some? ==> after.value == ValidationError(path, message)
    ensures before.Some? ==> before.value == ValidationError(path, old(c.errorMessage))
  {
    before := c.Check(path, value);
    c.SetErrorMessage(message);
    after := c.Check(path, value);
  }
}
