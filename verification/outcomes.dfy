/** Failure-carrying values shared by the whole model.

    The planner signals bad input in two ways: by throwing a C++ exception
    (a malformed time string) and by returning a flag. `Result` models a
    call that either produces a value or throws before changing anything;
    `Attempt` models a call that may throw part-way, after some of its
    effects have already happened, so the state at the throw is kept. */
module Outcomes {

  datatype Option<+T> = None | Some(value: T)

  datatype Result<+T> = Ok(value: T) | Err(error: string)

  /** `Completed(v)`: the call returned `v`.
      `Raised(partial)`: an exception escaped; `partial` is the state the
      exception left behind. */
  datatype Attempt<+T, +S> = Completed(value: T) | Raised(partial: S)
}
