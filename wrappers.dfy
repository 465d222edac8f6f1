/** Option, the failure-carrying datatype the model uses both for Python's
    `None` results and for a pass that raises: `None` stands for the
    exception, which the callers propagate unchanged. */
module Wrappers {

  datatype Option<+T> = None | Some(value: T)
}
