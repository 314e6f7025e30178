/** How the operations of both runners end. */
module Outcomes {
  /** Normally, by one of the runners' own exceptions, or by any other exception. */
  datatype Outcome<+T> = Done(value: T) | TestFailure | InfrastructureError | RecoveryRequired | Unexpected

  function ExitCode<T>(o: Outcome<T>): nat
  {
    match o
    case Done(_) => 0
    case TestFailure => 1
    case InfrastructureError => 2
    case RecoveryRequired => 3
    case Unexpected => 2
  }
}
