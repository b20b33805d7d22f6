/** The optional-value datatype the analysis uses for "resolved or rejected". */
module Wrappers {

  /** `None` stands for a policy the compiler rejects; `Some` for a resolved one. */
  datatype Option<+T> = None | Some(value: T)
}
