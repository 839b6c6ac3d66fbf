/** Whether an invariant holds, as a value that proofs carry along without opening it. */
module Checks {
  datatype Check = Holds | Fails
}
