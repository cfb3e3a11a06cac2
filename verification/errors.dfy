/**
 * The planner's error type, and the `Option` and `Result` types every stage
 * uses. Each exception the planner raises becomes an `Err` carrying one of
 * the `PlanError` constructors below.
 */
module Errors {

  datatype Option<+T> = None | Some(value: T)

  /** The exceptions `distribution_of_users_per_scenario` can raise. */
  datatype PlanError =
    /** `check_value[0]` on an empty string: the value was "" or ".". */
    | EmptyValue(value: string)
    /** The numeric gate admitted the value but `float()` rejected it (".-5"). */
    | NotAFloat(value: string)
    /** A scenario without steps. */
    | EmptyScenario(name: string)
    /** A template expression that did not render to a number. */
    | RenderFailed(expr: string)
    /** More unique scenarios than users in the budget. */
    | InsufficientUsers(needed: nat)
    /** A scenario no `a user of type` step gave a user type. */
    | MissingUserType(name: string)
    /** Every weight truncated so that they sum to zero: division by zero. */
    | ZeroTotalWeight
    /** A scenario that was allocated more users than it has iterations. */
    | InsufficientIterations(name: string, users: int, iterations: int)

  datatype Result<+T> = Ok(value: T) | Err(error: PlanError) {

    predicate IsFailure() {
      Err?
    }

    function PropagateFailure<U>(): Result<U>
      requires Err?
    {
      Err(error)
    }

    function Extract(): T
      requires Ok?
    {
      value
    }
  }
}
